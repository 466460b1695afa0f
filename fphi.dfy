/** The FPHI driver: it reads back the EVD files (`.ids`, `.eigenvalues`,
    `.eigenvectors`), finds each identifier's trait value in the phenotype
    table, runs the Newton search for the heritability h2r with its
    boundary test, and chooses how the p-value is computed. The
    floating-point numerics stay abstract: they are the fields of a
    `Numerics` value. */
module Fphi {
  import opened Text
  import opened Files
  import opened CreateEvd
  import opened PhenotypeTable

  // ---------------------------------------------------------------------
  // extract_directory

  /** `extract_directory`: "" for a missing or empty path or one without
      a separator, otherwise everything before its last '/' or '\\'. */
  function ExtractDirectory(path: Option<string>): (dir: string)
    ensures path.None? || path.value == "" || NoSeparator(path.value) ==> dir == ""
    ensures path.Some? && LastSeparator(path.value).Some? ==>
      dir == path.value[..LastSeparator(path.value).value]
  {
    if path.None? || path.value == "" then "" else DirectoryOf(path.value)
  }

  /** A path split at a separator gives back its directory part, and
      FPHI and the EVD stage agree on the directory of a base name. */
  lemma ExtractDirectorySplit(dir: string, sep: char, name: string)
    requires IsSeparator(sep) && NoSeparator(name)
    ensures ExtractDirectory(Some(dir + [sep] + name)) == dir
    ensures ExtractDirectory(Some(dir + [sep] + name)) == DirectoryOf(dir + [sep] + name)
  {
    DirectoryOfSplit(dir, sep, name);
  }

  // ---------------------------------------------------------------------
  // Reading the EVD files back

  /** The whitespace tokens of the first line (none for an empty file). */
  function FirstLineTokens(lines: seq<string>): seq<string> {
    if lines == [] then [] else Tokens(lines[0])
  }

  /** Every one of the first `m` tokens parses as a number. */
  predicate ParsesUpTo(tokens: seq<string>, m: nat) {
    m <= |tokens| && forall k :: 0 <= k < m ==> ParseReal(tokens[k]).Some?
  }

  /** The numbers of the first `m` tokens. */
  function Parsed(tokens: seq<string>, m: nat): (xs: seq<real>)
    requires ParsesUpTo(tokens, m)
    ensures |xs| == m && forall k :: 0 <= k < m ==> ParseReal(tokens[k]) == Some(xs[k])
  {
    seq(m, k requires 0 <= k < m => ParseReal(tokens[k]).value)
  }

  lemma ParsedSnoc(tokens: seq<string>, m: nat)
    requires ParsesUpTo(tokens, m + 1)
    ensures ParsesUpTo(tokens, m) && Parsed(tokens, m + 1) == Parsed(tokens, m) + [ParseReal(tokens[m]).value]
  {
  }

  /** The eigenvalue loop: `std::stod` on each token of the line, the
      call failing (`None`) at the first token that does not parse. */
  method ReadEigenvalues(tokens: seq<string>) returns (values: Option<seq<real>>)
    ensures values.Some? <==> ParsesUpTo(tokens, |tokens|)
    ensures values.Some? ==> values.value == Parsed(tokens, |tokens|)
  {
    var xs: seq<real> := [];
    for k := 0 to |tokens|
      invariant ParsesUpTo(tokens, k) && xs == Parsed(tokens, k)
    {
      var v := ParseReal(tokens[k]);
      if v.None? {
        return None;
      }
      ParsedSnoc(tokens, k);
      xs := xs + [v.value];
    }
    return Some(xs);
  }

  /** The number a rendering parses back to (0 for one that does not
      parse). */
  function Reparsed(show: real -> string, x: real): real {
    var p := ParseReal(show(x));
    if p.Some? then p.value else 0.0
  }

  /** The parsed rendering of every value. */
  function ReparsedAll(xs: seq<real>, show: real -> string): (ys: seq<real>)
    ensures |ys| == |xs| && forall k :: 0 <= k < |xs| ==> ys[k] == Reparsed(show, xs[k])
  {
    seq(|xs|, k requires 0 <= k < |xs| => Reparsed(show, xs[k]))
  }

  /** Reading back the line the EVD stage writes, with a renderer whose
      text is one word that parses, gives the parsed renderings of the
      eigenvalues, one per eigenvalue. */
  lemma EigenvaluesReadBack(values: seq<real>, show: real -> string)
    requires forall x: real :: IsWord(show(x)) && ParseReal(show(x)).Some?
    ensures var tokens := Tokens(Join(Rendered(values, show), " "));
      && ParsesUpTo(tokens, |tokens|) && |tokens| == |values|
      && Parsed(tokens, |tokens|) == ReparsedAll(values, show)
  {
    var ws := Rendered(values, show);
    RenderedWords(values, show);
    TokensOfJoin(ws);
    ReparsedTokens(values, show, ws);
  }

  lemma ReparsedTokens(values: seq<real>, show: real -> string, ws: seq<string>)
    requires forall x: real :: ParseReal(show(x)).Some?
    requires ws == Rendered(values, show)
    ensures ParsesUpTo(ws, |ws|)
    ensures Parsed(ws, |ws|) == ReparsedAll(values, show)
  {
    forall k | 0 <= k < |ws|
      ensures ParseReal(ws[k]).Some?
    {
      var x := values[k];
      assert ParseReal(show(x)).Some?;
      assert ws[k] == show(x);
    }
  }

  // ---------------------------------------------------------------------
  // Unpacking the eigenvectors

  /** How many eigenvector tokens the unpacking loops consume: all of
      them, but at most n*n. */
  function Consumed(tokens: seq<string>, n: nat): (m: nat)
    ensures m <= |tokens| && m <= n * n
    ensures m == |tokens| || m == n * n
  {
    if |tokens| <= n * n then |tokens| else n * n
  }

  /** The n-by-n matrix, indexed [row][column], whose cell (r, c) is the
      value at column-major position c*n + r, or 0 beyond the values. */
  function Unpacked(values: seq<real>, n: nat): (e: seq<seq<real>>)
    ensures |e| == n && forall r :: 0 <= r < n ==> |e[r]| == n
  {
    seq(n, r requires 0 <= r < n =>
      seq(n, c requires 0 <= c < n => if c * n + r < |values| then values[c * n + r] else 0.0))
  }

  /** The k-th value is stored at row k mod n, column k div n, and a cell
      past the last value holds 0. */
  lemma UnpackedCells(values: seq<real>, n: nat, k: nat, r: nat, c: nat)
    requires k < |values| && k < n * n
    requires r < n && c < n
    ensures n > 0 && k % n < n && k / n < n
    ensures Unpacked(values, n)[k % n][k / n] == values[k]
    ensures c * n + r >= |values| ==> Unpacked(values, n)[r][c] == 0.0
  {
    PositionCell(n, k);
  }

  /** Storing one more value, at the next column-major cell, changes
      exactly that cell. */
  lemma UnpackedSnoc(values: seq<real>, v: real, n: nat, row: nat, col: nat)
    requires row < n && col < n && |values| == col * n + row
    ensures Unpacked(values + [v], n) == Unpacked(values, n)[row := Unpacked(values, n)[row][col := v]]
  {
    var before, after := Unpacked(values, n), Unpacked(values + [v], n);
    var expected := before[row := before[row][col := v]];
    forall r | 0 <= r < n
      ensures after[r] == expected[r]
    {
      forall c | 0 <= c < n
        ensures after[r][c] == expected[r][c]
      {
        UnpackedStep(values, v, n, row, col, r, c);
      }
    }
  }

  lemma UnpackedStep(values: seq<real>, v: real, n: nat, row: nat, col: nat, r: nat, c: nat)
    requires row < n && col < n && |values| == col * n + row
    requires r < n && c < n
    ensures Unpacked(values + [v], n)[r][c] ==
      if r == row && c == col then v else Unpacked(values, n)[r][c]
  {
    CellPosition(n, r, c);
    CellPosition(n, row, col);
  }

  /** The two column/row loops over the eigenvector line: consecutive
      tokens go to consecutive cells in column-major order until the line
      or the matrix is exhausted, and the call fails (`None`) at the first
      token that does not parse. */
  method ReadEigenvectors(tokens: seq<string>, n: nat) returns (e: Option<seq<seq<real>>>)
    ensures e.Some? <==> ParsesUpTo(tokens, Consumed(tokens, n))
    ensures e.Some? ==> e.value == Unpacked(Parsed(tokens, Consumed(tokens, n)), n)
  {
    var cells := seq(n, r => seq(n, c => 0.0));
    forall r | 0 <= r < n
      ensures cells[r] == Unpacked([], n)[r]
    {
    }
    var idx := 0;
    var col := 0;
    while col < n && idx < n * n
      invariant col <= n
      invariant idx == Min(col * n, |tokens|)
      invariant ParsesUpTo(tokens, idx) && cells == Unpacked(Parsed(tokens, idx), n)
      decreases n - col
    {
      var ok;
      ok, idx, cells := ReadColumn(tokens, n, col, idx, cells);
      if !ok {
        return None;
      }
      col := col + 1;
    }
    MulMono(col, n, n);
    return Some(cells);
  }

  /** The row loop for one column: it stores the tokens of column `col`
      that the line holds, or fails at the first that does not parse. */
  method ReadColumn(tokens: seq<string>, n: nat, col: nat, idx0: nat, cells0: seq<seq<real>>)
      returns (ok: bool, idx: nat, cells: seq<seq<real>>)
    requires col < n && idx0 == Min(col * n, |tokens|)
    requires ParsesUpTo(tokens, idx0) && cells0 == Unpacked(Parsed(tokens, idx0), n)
    ensures !ok ==> !ParsesUpTo(tokens, Consumed(tokens, n))
    ensures ok ==> idx == Min((col + 1) * n, |tokens|)
    ensures ok ==> ParsesUpTo(tokens, idx) && cells == Unpacked(Parsed(tokens, idx), n)
  {
    MulMono(col + 1, n, n);
    idx, cells := idx0, cells0;
    var row := 0;
    while row < n && idx < |tokens|
      invariant row <= n
      invariant idx == Min(col * n + row, |tokens|)
      invariant ParsesUpTo(tokens, idx) && cells == Unpacked(Parsed(tokens, idx), n)
      decreases n - row
    {
      var v := ParseReal(tokens[idx]);
      if v.None? {
        FailsAt(tokens, n, idx);
        return false, idx, cells;
      }
      ParsedSnoc(tokens, idx);
      UnpackedSnoc(Parsed(tokens, idx), v.value, n, row, col);
      cells := cells[row := cells[row][col := v.value]];
      row := row + 1;
      idx := idx + 1;
    }
    assert col * n + n == (col + 1) * n;
    return true, idx, cells;
  }

  /** A token that does not parse, inside the consumed part, makes the
      whole read fail. */
  lemma FailsAt(tokens: seq<string>, n: nat, k: nat)
    requires k < |tokens| && k < n * n && ParseReal(tokens[k]).None?
    ensures !ParsesUpTo(tokens, Consumed(tokens, n))
  {
  }

  /** The unpacking inverts the column-by-column writer: reading back the
      `.eigenvectors` line written from n*n entries, with a renderer whose
      text is one word that parses, puts at cell (row, col) the parsed
      rendering of entry col*n + row. */
  lemma EigenvectorsReadBack(vectors: seq<real>, n: nat, show: real -> string, row: nat, col: nat)
    requires |vectors| == n * n
    requires forall x: real :: IsWord(show(x)) && ParseReal(show(x)).Some?
    requires row < n && col < n
    ensures var tokens := Tokens(Terminated(Rendered(vectors, show)));
      && ParsesUpTo(tokens, Consumed(tokens, n)) && Consumed(tokens, n) == n * n
      && col * n + row < n * n
      && Unpacked(Parsed(tokens, Consumed(tokens, n)), n)[row][col] == Reparsed(show, vectors[col * n + row])
  {
    var ws := Rendered(vectors, show);
    RenderedWords(vectors, show);
    TokensOfTerminated(ws);
    ReparsedTokens(vectors, show, ws);
    CellPosition(n, row, col);
    var parsed := ReparsedAll(vectors, show);
    assert Consumed(ws, n) == n * n;
    UnpackedAt(parsed, n, row, col);
  }

  /** Cell (row, col) holds the value at column-major position col*n + row. */
  lemma UnpackedAt(values: seq<real>, n: nat, row: nat, col: nat)
    requires row < n && col < n && col * n + row < |values|
    ensures Unpacked(values, n)[row][col] == values[col * n + row]
  {
  }

  /** The same for the whole matrix: it is the column-major unpacking of
      the parsed renderings of the n*n entries. */
  lemma EigenvectorsReadBackAll(vectors: seq<real>, n: nat, show: real -> string)
    requires |vectors| == n * n
    requires forall x: real :: IsWord(show(x)) && ParseReal(show(x)).Some?
    ensures var tokens := Tokens(Terminated(Rendered(vectors, show)));
      && ParsesUpTo(tokens, Consumed(tokens, n)) && Consumed(tokens, n) == n * n
      && Parsed(tokens, Consumed(tokens, n)) == ReparsedAll(vectors, show)
  {
    var ws := Rendered(vectors, show);
    RenderedWords(vectors, show);
    TokensOfTerminated(ws);
    ReparsedTokens(vectors, show, ws);
  }

  // ---------------------------------------------------------------------
  // Finding each identifier's trait value

  /** A row that gives `id` a value. */
  predicate Carries(row: seq<string>, idCol: nat, traitCol: nat, id: string) {
    Usable(row, idCol, traitCol) && row[idCol] == id
  }

  /** The trait value of the first usable row that carries `id`; rows
      whose value is missing or not a number are passed over. */
  function FirstUsable(data: seq<seq<string>>, idCol: nat, traitCol: nat, id: string): (v: Option<real>)
    decreases |data|
  {
    if data == [] then None
    else if Carries(data[0], idCol, traitCol, id) then
      Some(ObservationOf(data[0], idCol, traitCol).value)
    else FirstUsable(data[1..], idCol, traitCol, id)
  }

  /** A value is found exactly when some usable row carries the
      identifier. */
  lemma {:induction false} FirstUsableFound(data: seq<seq<string>>, idCol: nat, traitCol: nat, id: string)
    ensures FirstUsable(data, idCol, traitCol, id).Some? <==> HasUsableRow(data, idCol, traitCol, id)
    decreases |data|
  {
    if data != [] && !Carries(data[0], idCol, traitCol, id) {
      var rest := data[1..];
      FirstUsableFound(rest, idCol, traitCol, id);
      if HasUsableRow(data, idCol, traitCol, id) {
        var j :| 0 <= j < |data| && Usable(data[j], idCol, traitCol) && data[j][idCol] == id;
        assert rest[j - 1] == data[j];
      }
      if HasUsableRow(rest, idCol, traitCol, id) {
        var j :| 0 <= j < |rest| && Usable(rest[j], idCol, traitCol) && rest[j][idCol] == id;
        assert data[j + 1] == rest[j];
      }
    }
  }

  /** The value found is that of the first row carrying the identifier. */
  lemma {:induction false} FirstUsableFirst(data: seq<seq<string>>, idCol: nat, traitCol: nat, id: string, j: nat)
    requires j < |data| && Carries(data[j], idCol, traitCol, id)
    requires forall i :: 0 <= i < j ==> !Carries(data[i], idCol, traitCol, id)
    ensures FirstUsable(data, idCol, traitCol, id) == Some(ParseReal(data[j][traitCol]).value)
    decreases j
  {
    if j > 0 {
      var rest := data[1..];
      assert !Carries(data[0], idCol, traitCol, id);
      forall i | 0 <= i < j - 1
        ensures !Carries(rest[i], idCol, traitCol, id)
      {
        assert rest[i] == data[i + 1];
      }
      assert rest[j - 1] == data[j];
      FirstUsableFirst(rest, idCol, traitCol, id, j - 1);
    }
  }

  /** The row loop for one identifier, leaving at the first usable row
      that carries it. */
  method LookupPhenotype(data: seq<seq<string>>, idCol: nat, traitCol: nat, id: string) returns (value: Option<real>)
    ensures value == FirstUsable(data, idCol, traitCol, id)
  {
    var j := 0;
    while j < |data|
      invariant j <= |data|
      invariant FirstUsable(data, idCol, traitCol, id) == FirstUsable(data[j..], idCol, traitCol, id)
      decreases |data| - j
    {
      var row := data[j];
      assert data[j..][0] == row && data[j..][1..] == data[j + 1..];
      if |row| > Max(idCol, traitCol) && row[idCol] == id {
        var v := row[traitCol];
        if v != "" && v != "NA" && v != "." {
          var parsed := ParseReal(v);
          if parsed.Some? {
            return parsed;
          }
        }
      }
      j := j + 1;
    }
    return None;
  }

  lemma IdsAppend(o1: seq<Observation>, o2: seq<Observation>)
    ensures IdsOf(o1 + o2) == IdsOf(o1) + IdsOf(o2) && ValuesOf(o1 + o2) == ValuesOf(o1) + ValuesOf(o2)
  {
  }

  /** FPHI's lookup agrees with the EVD stage's filter: the value found
      for an identifier is the value of its first observation, and none
      is found for an identifier without one. */
  lemma {:induction false} FirstUsableObserved(data: seq<seq<string>>, idCol: nat, traitCol: nat, id: string)
    ensures var obs := Observations(data, idCol, traitCol);
      FirstUsable(data, idCol, traitCol, id) ==
        if id in IdsOf(obs) then Some(ValuesOf(obs)[IndexOf(IdsOf(obs), id)]) else None
    decreases |data|
  {
    if data != [] {
      var rest := data[1..];
      FirstUsableObserved(rest, idCol, traitCol, id);
      assert data == [data[0]] + rest;
      ObservationsAppend([data[0]], rest, idCol, traitCol);
      ObservationsSnoc([], data[0], idCol, traitCol);
      var head := Observations([data[0]], idCol, traitCol);
      var tail := Observations(rest, idCol, traitCol);
      IdsAppend(head, tail);
      ObservedStep(head, tail, id);
      if Carries(data[0], idCol, traitCol, id) {
        assert IdsOf(head) == [id];
      } else if Usable(data[0], idCol, traitCol) {
        assert IdsOf(head) == [data[0][idCol]];
      } else {
        assert head == [];
      }
    }
  }

  /** Looking an identifier up in two blocks of observations. */
  lemma ObservedStep(head: seq<Observation>, tail: seq<Observation>, id: string)
    ensures var obs := head + tail;
      id in IdsOf(head) ==> id in IdsOf(obs) && ValuesOf(obs)[IndexOf(IdsOf(obs), id)] == ValuesOf(head)[IndexOf(IdsOf(head), id)]
    ensures var obs := head + tail;
      id !in IdsOf(head) ==> (id in IdsOf(obs) <==> id in IdsOf(tail))
    ensures var obs := head + tail;
      id !in IdsOf(head) && id in IdsOf(tail) ==>
        ValuesOf(obs)[IndexOf(IdsOf(obs), id)] == ValuesOf(tail)[IndexOf(IdsOf(tail), id)]
  {
    IdsAppend(head, tail);
    IndexOfAppend(IdsOf(head), IdsOf(tail), id);
  }

  /** Every identifier has a value. */
  predicate AllFound(data: seq<seq<string>>, idCol: nat, traitCol: nat, ids: seq<string>) {
    forall i :: 0 <= i < |ids| ==> FirstUsable(data, idCol, traitCol, ids[i]).Some?
  }

  /** The value of each identifier, in identifier order. */
  function Found(data: seq<seq<string>>, idCol: nat, traitCol: nat, ids: seq<string>): (values: seq<real>)
    requires AllFound(data, idCol, traitCol, ids)
    ensures |values| == |ids|
    ensures forall i :: 0 <= i < |ids| ==> FirstUsable(data, idCol, traitCol, ids[i]) == Some(values[i])
  {
    seq(|ids|, i requires 0 <= i < |ids| => FirstUsable(data, idCol, traitCol, ids[i]).value)
  }

  /** The identifier loop: every identifier is looked up (a missing one
      is reported and the loop goes on), and the call fails (`None`) when
      any was missing. */
  method LookupPhenotypes(data: seq<seq<string>>, idCol: nat, traitCol: nat, ids: seq<string>)
      returns (values: Option<seq<real>>)
    ensures values.Some? <==> AllFound(data, idCol, traitCol, ids)
    ensures values.Some? ==> values.value == Found(data, idCol, traitCol, ids)
  {
    var raw := seq(|ids|, i => 0.0);
    var foundAll := true;
    for i := 0 to |ids|
      invariant |raw| == |ids|
      invariant foundAll <==> forall k :: 0 <= k < i ==> FirstUsable(data, idCol, traitCol, ids[k]).Some?
      invariant forall k :: 0 <= k < i && FirstUsable(data, idCol, traitCol, ids[k]).Some? ==>
        FirstUsable(data, idCol, traitCol, ids[k]) == Some(raw[k])
    {
      var v := LookupPhenotype(data, idCol, traitCol, ids[i]);
      if v.Some? {
        raw := raw[i := v.value];
      } else {
        foundAll := false;
      }
    }
    if !foundAll {
      return None;
    }
    return Some(raw);
  }

  // ---------------------------------------------------------------------
  // find_max_loglik_2: the control skeleton of the search

  /** A Newton step as the source tests it (`delta == delta`): NaN or a
      number. */
  datatype Delta = NaN | Finite(value: real)

  /** The floating-point numerics of one fit, left abstract: XTOX, the
      log-likelihood at a given h2r, the Newton step (in the constraint
      parameter t) taken at t and h2r, and the null-model log-likelihood. */
  datatype Numerics = Numerics(
    xtox: real -> real,
    loglik: real -> real,
    step: (real, real) -> Delta,
    sporadicLoglik: real)

  /** `calculate_constraint`: the map from the unconstrained parameter t
      to h2r. */
  function Constraint(t: real): (h: real)
    ensures 0.0 <= h < 1.0
  {
    ConstraintBounds(t);
    t * t / (1.0 + t * t)
  }

  lemma ConstraintBounds(t: real)
    ensures var h := t * t / (1.0 + t * t);
      0.0 <= h < 1.0
  {
    SquareFacts(t);
    var q := t * t;
    var h := q / (1.0 + q);
    assert h * (1.0 + q) == q;
    if h > 1.0 {
      MulLess(1.0, h, 1.0 + q);
    }
    if h < 0.0 {
      MulLess(h, 0.0, 1.0 + q);
    }
  }

  lemma SquareFacts(t: real)
    ensures t * t >= 0.0
  {
    if t > 0.0 {
      SquarePositive(t);
    } else if t < 0.0 {
      var u := -t;
      SquarePositive(u);
      assert t * t == u * u;
    }
  }

  lemma MulLess(a: real, b: real, k: real)
    requires a < b && k > 0.0
    ensures a * k < b * k
  {
  }

  lemma SquarePositive(x: real)
    requires x > 0.0
    ensures x * x > 0.0
  {
    assert x * x > x * 0.0;
  }

  /** The map is even, and the starting point t = 1 is h2r = 0.5. */
  lemma ConstraintFacts(t: real)
    ensures Constraint(-t) == Constraint(t)
    ensures Constraint(1.0) == 0.5
  {
  }

  function Pow10(k: nat): (p: real)
    ensures p >= 1.0
  {
    if k == 0 then 1.0 else 10.0 * Pow10(k - 1)
  }

  /** `std::pow(10, -precision)`, the convergence tolerance. */
  function Tolerance(precision: nat): (e: real)
    ensures 0.0 < e <= 1.0
  {
    1.0 / Pow10(precision)
  }

  /** The precision FPHI asks for, and the iteration bound of the loop. */
  const FitPrecision: nat := 11
  const MaxIterations: nat := 100

  function Abs(x: real): real {
    if x < 0.0 then -x else x
  }

  /** An h2r and its log-likelihood. */
  datatype Estimate = Estimate(h2r: real, loglik: real)

  /** How the Newton loop ended: on a vanishing XTOX, or at an interior
      estimate after the given number of loop bodies, with the last step
      and the h2r it proposed. */
  datatype Search = Stuck | Settled(at: Estimate, iterations: nat, lastStep: Delta, next: real)

  /** The parameter the loop body moves to from t: the Newton step taken
      at t and its h2r, when that step is a number and the h2r it proposes
      moves by at least the tolerance; none when the loop would stop. */
  function NextParameter(num: Numerics, end: real, t: real): (r: Option<real>)
    ensures r.Some? <==>
      (num.step(t, Constraint(t)).Finite? &&
       Abs(Constraint(t + num.step(t, Constraint(t)).value) - Constraint(t)) >= end)
    ensures r.Some? ==> r.value == t + num.step(t, Constraint(t)).value
  {
    var d := num.step(t, Constraint(t));
    if d.Finite? && Abs(Constraint(t + d.value) - Constraint(t)) >= end then Some(t + d.value) else None
  }

  /** The parameters t the search has held, from t = 1 (h2r 0.5): each
      later one is where the loop body moved from the one before, at whose
      h2r XTOX did not vanish; the loop runs at most 99 bodies. */
  predicate SearchPath(num: Numerics, end: real, ts: seq<real>) {
    && 1 <= |ts| <= MaxIterations && ts[0] == 1.0
    && forall k :: 0 <= k < |ts| - 1 ==>
         num.xtox(Constraint(ts[k])) != 0.0 && NextParameter(num, end, ts[k]) == Some(ts[k + 1])
  }

  /** A path at whose end the search stops: XTOX vanishes at its last
      h2r, the loop refuses the next step, or the counter is at its
      bound. */
  predicate FinishedPath(num: Numerics, end: real, ts: seq<real>) {
    && SearchPath(num, end, ts)
    && var t := ts[|ts| - 1];
       num.xtox(Constraint(t)) == 0.0 || NextParameter(num, end, t).None? || |ts| == MaxIterations
  }

  /** A finished path on which XTOX vanishes at the last h2r reached. */
  predicate StuckPath(num: Numerics, end: real, ts: seq<real>) {
    FinishedPath(num, end, ts) && num.xtox(Constraint(ts[|ts| - 1])) == 0.0
  }

  /** The search reaches an h2r with a vanishing XTOX. */
  ghost predicate SearchStuck(num: Numerics, end: real) {
    exists ts :: StuckPath(num, end, ts)
  }

  /** The search settles at estimate e after the given number of loop
      bodies: the finished path ends at an h2r whose XTOX does not vanish,
      and e is that h2r with its log-likelihood. */
  ghost predicate SearchSettles(num: Numerics, end: real, e: Estimate, iterations: nat) {
    exists ts :: FinishedPath(num, end, ts) && SettlesOn(num, ts, e, iterations)
  }

  predicate SettlesOn(num: Numerics, ts: seq<real>, e: Estimate, iterations: nat)
    requires |ts| >= 1
  {
    var h := Constraint(ts[|ts| - 1]);
    num.xtox(h) != 0.0 && e == Estimate(h, num.loglik(h)) && iterations == |ts| - 1
  }

  /** The numerics and the tolerance determine the path: there is at most
      one finished path. */
  lemma FinishedPathUnique(num: Numerics, end: real, ts: seq<real>, us: seq<real>)
    requires FinishedPath(num, end, ts) && FinishedPath(num, end, us)
    ensures ts == us
  {
    var m := if |ts| < |us| then |ts| else |us|;
    var k := 0;
    while k < m - 1
      invariant 0 <= k < m
      invariant ts[..k + 1] == us[..k + 1]
    {
      assert ts[k] == us[k] by { assert ts[..k + 1][k] == ts[k] && us[..k + 1][k] == us[k]; }
      assert ts[k + 1] == us[k + 1];
      assert ts[..k + 2] == ts[..k + 1] + [ts[k + 1]];
      assert us[..k + 2] == us[..k + 1] + [us[k + 1]];
      k := k + 1;
    }
    assert ts[k] == us[k] by { assert ts[..k + 1][k] == ts[k] && us[..k + 1][k] == us[k]; }
    if |ts| <= |us| {
      FinishedTogether(num, end, ts, us, k);
    } else {
      FinishedTogether(num, end, us, ts, k);
    }
    assert ts == ts[..k + 1] && us == us[..k + 1];
  }

  /** Two finished paths that agree at the last parameter of one of them
      end there together. */
  lemma FinishedTogether(num: Numerics, end: real, ts: seq<real>, us: seq<real>, k: nat)
    requires FinishedPath(num, end, ts) && FinishedPath(num, end, us)
    requires k == |ts| - 1 && k < |us| && ts[k] == us[k]
    ensures k == |us| - 1
  {
    if k < |us| - 1 {
      ContinuesAt(num, end, us, k);
    }
  }

  lemma ContinuesAt(num: Numerics, end: real, ts: seq<real>, k: nat)
    requires SearchPath(num, end, ts) && k < |ts| - 1
    ensures num.xtox(Constraint(ts[k])) != 0.0 && NextParameter(num, end, ts[k]).Some? && |ts| <= MaxIterations
  {
    assert NextParameter(num, end, ts[k]) == Some(ts[k + 1]);
  }

  /** Whether the search gets stuck is the XTOX at the last h2r of the
      finished path. */
  lemma SearchStuckAt(num: Numerics, end: real, ts: seq<real>)
    requires FinishedPath(num, end, ts)
    ensures SearchStuck(num, end) <==> num.xtox(Constraint(ts[|ts| - 1])) == 0.0
  {
    if SearchStuck(num, end) {
      var us :| StuckPath(num, end, us);
      FinishedPathUnique(num, end, ts, us);
    }
    if num.xtox(Constraint(ts[|ts| - 1])) == 0.0 {
      assert StuckPath(num, end, ts);
    }
  }

  /** The search settles at one estimate after one number of bodies, and
      never both settles and gets stuck. */
  lemma SearchSettlesUnique(num: Numerics, end: real, e: Estimate, i: nat, f: Estimate, j: nat)
    requires SearchSettles(num, end, e, i)
    ensures SearchSettles(num, end, f, j) ==> e == f && i == j
    ensures !SearchStuck(num, end)
  {
    var ts :| FinishedPath(num, end, ts) && SettlesOn(num, ts, e, i);
    if SearchSettles(num, end, f, j) {
      var us :| FinishedPath(num, end, us) && SettlesOn(num, us, f, j);
      FinishedPathUnique(num, end, ts, us);
    }
    SearchStuckAt(num, end, ts);
  }

  lemma SearchPathSnoc(num: Numerics, end: real, ts: seq<real>, t: real)
    requires SearchPath(num, end, ts) && |ts| < MaxIterations
    requires num.xtox(Constraint(ts[|ts| - 1])) != 0.0 && NextParameter(num, end, ts[|ts| - 1]) == Some(t)
    ensures SearchPath(num, end, ts + [t])
  {
    var us := ts + [t];
    forall k | 0 <= k < |us| - 1
      ensures num.xtox(Constraint(us[k])) != 0.0 && NextParameter(num, end, us[k]) == Some(us[k + 1])
    {
      assert us[k] == ts[k];
    }
  }

  /** The initial step and the `while` loop: the body runs while the step
      is a number, the proposed h2r moved by at least the tolerance, and
      the pre-incremented counter is below 100. The search follows the
      finished path `path`, and is stuck exactly when XTOX vanishes at its
      last h2r; otherwise it settles there after one body per later
      parameter. */
  method NewtonSearch(num: Numerics, end: real) returns (s: Search, ghost path: seq<real>)
    ensures num.xtox(0.5) == 0.0 ==> s == Stuck
    ensures s.Settled? ==>
      0.0 <= s.at.h2r < 1.0 && num.xtox(s.at.h2r) != 0.0 && s.at.loglik == num.loglik(s.at.h2r)
    ensures s.Settled? ==> s.iterations < MaxIterations
    ensures s.Settled? && s.iterations < MaxIterations - 1 ==>
      (s.lastStep.NaN? || Abs(s.next - s.at.h2r) < end)
    ensures num.xtox(0.5) != 0.0 && num.step(1.0, 0.5).NaN? ==>
      s == Settled(Estimate(0.5, num.loglik(0.5)), 0, NaN, 0.0)
    ensures FinishedPath(num, end, path)
    ensures s.Stuck? <==> num.xtox(Constraint(path[|path| - 1])) == 0.0
    ensures s.Settled? ==>
      var t := path[|path| - 1];
      && s.at == Estimate(Constraint(t), num.loglik(Constraint(t)))
      && s.iterations == |path| - 1
      && s.lastStep == num.step(t, Constraint(t))
      && s.next == (if s.lastStep.Finite? then Constraint(t + s.lastStep.value)
                    else if |path| == 1 then 0.0 else Constraint(t))
  {
    var t := 1.0;
    var h2r := 0.5;
    path := [t];
    assert Constraint(1.0) == 0.5;
    if num.xtox(h2r) == 0.0 {
      return Stuck, path;
    }
    var loglik := num.loglik(h2r);
    var delta := num.step(t, h2r);
    var next := 0.0;
    if delta.Finite? {
      t := t + delta.value;
      next := Constraint(t);
    }
    var iter := 0;
    while delta.Finite? && Abs(next - h2r) >= end && iter + 1 < MaxIterations
      invariant iter < MaxIterations
      invariant 0.0 <= h2r < 1.0 && num.xtox(h2r) != 0.0 && loglik == num.loglik(h2r)
      invariant 0.0 <= next < 1.0
      invariant num.step(1.0, 0.5).NaN? ==> iter == 0 && h2r == 0.5 && delta == NaN && next == 0.0
      invariant SearchPath(num, end, path) && |path| == iter + 1
      invariant h2r == Constraint(path[|path| - 1]) && delta == num.step(path[|path| - 1], h2r)
      invariant delta.Finite? ==> t == path[|path| - 1] + delta.value && next == Constraint(t)
      invariant delta.NaN? ==> next == (if iter == 0 then 0.0 else h2r)
      decreases MaxIterations - iter
    {
      SearchPathSnoc(num, end, path, t);
      path := path + [t];
      iter := iter + 1;
      h2r := next;
      if num.xtox(h2r) == 0.0 {
        return Stuck, path;
      }
      loglik := num.loglik(h2r);
      delta := num.step(t, h2r);
      if delta.Finite? {
        t := t + delta.value;
        next := Constraint(t);
      }
    }
    return Settled(Estimate(h2r, loglik), iter, delta, next), path;
  }

  /** The boundary test: near a bound (h2r >= 0.9 or <= 0.1) the bound
      itself (1 or 0) is tried, and taken only when its XTOX does not
      vanish and its log-likelihood is strictly higher. */
  function BoundaryTest(num: Numerics, e: Estimate): (r: Estimate)
    ensures r.loglik >= e.loglik
    ensures var near := e.h2r >= 0.9 || e.h2r <= 0.1;
      var test := if e.h2r >= 0.9 then 1.0 else 0.0;
      (near && num.xtox(test) != 0.0 && num.loglik(test) > e.loglik) ==> r == Estimate(test, num.loglik(test))
    ensures var near := e.h2r >= 0.9 || e.h2r <= 0.1;
      var test := if e.h2r >= 0.9 then 1.0 else 0.0;
      !(near && num.xtox(test) != 0.0 && num.loglik(test) > e.loglik) ==> r == e
  {
    if e.h2r >= 0.9 || e.h2r <= 0.1 then
      var test := if e.h2r >= 0.9 then 1.0 else 0.0;
      if num.xtox(test) != 0.0 && num.loglik(test) > e.loglik then Estimate(test, num.loglik(test)) else e
    else e
  }

  /** An interior estimate that is not near a bound is never moved, and
      a moved one lands on a bound. */
  lemma BoundaryTestMoves(num: Numerics, e: Estimate)
    ensures 0.1 < e.h2r < 0.9 ==> BoundaryTest(num, e) == e
    ensures BoundaryTest(num, e) != e ==>
      BoundaryTest(num, e).h2r == 0.0 || BoundaryTest(num, e).h2r == 1.0
  {
  }

  /** The outcome of the search: a singular XTOX (the source then returns
      h2r 0 and leaves the log-likelihood unset), or the final estimate,
      the number of loop bodies run and the interior estimate the
      boundary test started from. */
  datatype Fit = Singular | Fitted(at: Estimate, iterations: nat, interior: Estimate)

  /** What the search guarantees about its outcome. */
  predicate SoundFit(num: Numerics, fit: Fit) {
    fit.Fitted? ==>
      && 0.0 <= fit.at.h2r <= 1.0 && fit.at.loglik == num.loglik(fit.at.h2r)
      && fit.iterations < MaxIterations
      && fit.at == BoundaryTest(num, fit.interior)
      && fit.at.loglik >= fit.interior.loglik
      && fit.interior.loglik == num.loglik(fit.interior.h2r)
  }

  /** `find_max_loglik_2` without its numerics: the Newton search, then the
      boundary test on the estimate it settles at. */
  method FindMaxLoglik(num: Numerics, precision: nat) returns (fit: Fit)
    ensures SoundFit(num, fit)
    ensures num.xtox(0.5) == 0.0 ==> fit == Singular
    ensures num.xtox(0.5) != 0.0 && num.step(1.0, 0.5).NaN? ==>
      fit.Fitted? && fit.iterations == 0 && fit.interior == Estimate(0.5, num.loglik(0.5))
    ensures fit.Singular? <==> SearchStuck(num, Tolerance(precision))
    ensures fit.Fitted? ==> SearchSettles(num, Tolerance(precision), fit.interior, fit.iterations)
  {
    var s, path := NewtonSearch(num, Tolerance(precision));
    SearchStuckAt(num, Tolerance(precision), path);
    assert s.Settled? ==> SettlesOn(num, path, s.at, s.iterations);
    if s.Stuck? {
      return Singular;
    }
    var at := BoundaryTest(num, s.at);
    return Fitted(at, s.iterations, s.at);
  }

  // ---------------------------------------------------------------------
  // The p-value

  /** How the p-value is obtained: from the chi-square tail at the
      likelihood-ratio statistic, as the fixed 0.5 of a non-significant
      fit, or not at all after a singular search. */
  datatype PValue = ChiSquare(stat: real) | NonSignificant | Indeterminate

  function ChoosePValue(sporadicLoglik: real, fit: Fit): (p: PValue)
    ensures fit.Singular? <==> p == Indeterminate
    ensures fit.Fitted? ==> (p.ChiSquare? <==> sporadicLoglik < fit.at.loglik)
    ensures p.ChiSquare? ==> p.stat == 2.0 * (fit.at.loglik - sporadicLoglik) && p.stat > 0.0
  {
    if fit.Singular? then Indeterminate
    else if sporadicLoglik < fit.at.loglik then ChiSquare(2.0 * (fit.at.loglik - sporadicLoglik))
    else NonSignificant
  }

  /** The p-value itself, with `chi` (the `cdfchi_` tail for one degree
      of freedom, halved) left abstract. */
  function PValueOf(p: PValue, chi: real -> real): (v: Option<real>)
    ensures v.None? <==> p.Indeterminate?
    ensures p.NonSignificant? ==> v == Some(0.5)
  {
    match p
    case ChiSquare(stat) => Some(chi(stat))
    case NonSignificant => Some(0.5)
    case Indeterminate => None
  }

  /** How the p-value is printed. */
  datatype Notation = Scientific | Fixed

  function NotationOf(p: real): (f: Notation)
    ensures f == Scientific <==> p < 0.000001
  {
    if p < 0.000001 then Scientific else Fixed
  }

  /** A non-significant result is printed in fixed notation. */
  lemma NonSignificantFixed(chi: real -> real)
    ensures NotationOf(PValueOf(NonSignificant, chi).value) == Fixed
  {
  }

  // ---------------------------------------------------------------------
  // run_fphi

  /** Each early `return 1` of `run_fphi`, in source order. */
  datatype FphiStop =
    | MissingBasename | MissingPedigree | MissingPhenotypes | MissingTrait
    | MissingIdsFile | EmptyIds
    | MissingEigenvaluesFile | BadEigenvalue | CountMismatch
    | MissingEigenvectorsFile | BadEigenvector
    | MissingColumns | MissingPhenotype

  /** What the fit works on: the identifiers, the eigenvalues, the
      eigenvector matrix [row][column] and each identifier's trait value. */
  datatype FphiInputs = FphiInputs(ids: seq<string>, eigenvalues: seq<real>, eigenvectors: seq<seq<real>>, values: seq<real>)

  datatype FphiRead = Stopped(reason: FphiStop) | Ready(inputs: FphiInputs)

  /** Everything `run_fphi` reads before the fit, and where it stops. */
  function ReadFphiInputs(basename: Option<string>, hasPedigree: bool, table: Option<Table>, traitName: string, disk: Disk): (r: FphiRead)
    ensures r.Ready? ==>
      var n := |r.inputs.ids|;
      && n > 0 && |r.inputs.eigenvalues| == n && |r.inputs.values| == n
      && |r.inputs.eigenvectors| == n && (forall row :: 0 <= row < n ==> |r.inputs.eigenvectors[row]| == n)
  {
    if basename.None? then Stopped(MissingBasename)
    else if !hasPedigree then Stopped(MissingPedigree)
    else if table.None? then Stopped(MissingPhenotypes)
    else if traitName == "" then Stopped(MissingTrait)
    else
      var base := basename.value;
      if base + ".ids" !in disk then Stopped(MissingIdsFile)
      else
        var ids := FirstLineTokens(disk[base + ".ids"]);
        var n := |ids|;
        if n == 0 then Stopped(EmptyIds)
        else if base + ".eigenvalues" !in disk then Stopped(MissingEigenvaluesFile)
        else
          var valueTokens := FirstLineTokens(disk[base + ".eigenvalues"]);
          if !ParsesUpTo(valueTokens, |valueTokens|) then Stopped(BadEigenvalue)
          else if |valueTokens| != n then Stopped(CountMismatch)
          else if base + ".eigenvectors" !in disk then Stopped(MissingEigenvectorsFile)
          else
            var vectorTokens := FirstLineTokens(disk[base + ".eigenvectors"]);
            if !ParsesUpTo(vectorTokens, Consumed(vectorTokens, n)) then Stopped(BadEigenvector)
            else
              var headers, data := table.value.headers, table.value.data;
              var idCol, traitCol := LastIndexIn(headers, IdNames), LastIndexIn(headers, {traitName});
              if idCol == -1 || traitCol == -1 then Stopped(MissingColumns)
              else if !AllFound(data, idCol, traitCol, ids) then Stopped(MissingPhenotype)
              else Ready(FphiInputs(ids, Parsed(valueTokens, n),
                Unpacked(Parsed(vectorTokens, Consumed(vectorTokens, n)), n), Found(data, idCol, traitCol, ids)))
  }

  /** The reading part of `run_fphi`, from the checks on its arguments
      to the phenotype loop. */
  method ReadInputs(basename: Option<string>, hasPedigree: bool, phenotypes: Phenotypes?, traitName: string, disk: Disk)
      returns (r: FphiRead)
    ensures r == ReadFphiInputs(basename, hasPedigree, TableOf(phenotypes), traitName, disk)
  {
    if basename.None? {
      return Stopped(MissingBasename);
    }
    if !hasPedigree {
      return Stopped(MissingPedigree);
    }
    if phenotypes == null {
      return Stopped(MissingPhenotypes);
    }
    if traitName == "" {
      return Stopped(MissingTrait);
    }
    var base := basename.value;
    var idsPath, valuesPath, vectorsPath := base + ".ids", base + ".eigenvalues", base + ".eigenvectors";
    if idsPath !in disk {
      return Stopped(MissingIdsFile);
    }
    var ids := FirstLineTokens(disk[idsPath]);
    if ids == [] {
      return Stopped(EmptyIds);
    }
    var n := |ids|;
    if valuesPath !in disk {
      return Stopped(MissingEigenvaluesFile);
    }
    var eigenvalues := ReadEigenvalues(FirstLineTokens(disk[valuesPath]));
    if eigenvalues.None? {
      return Stopped(BadEigenvalue);
    }
    if |eigenvalues.value| != n {
      return Stopped(CountMismatch);
    }
    if vectorsPath !in disk {
      return Stopped(MissingEigenvectorsFile);
    }
    var eigenvectors := ReadEigenvectors(FirstLineTokens(disk[vectorsPath]), n);
    if eigenvectors.None? {
      return Stopped(BadEigenvector);
    }
    var idCol, traitCol := ResolveColumns(phenotypes.headers, traitName);
    if idCol == -1 || traitCol == -1 {
      return Stopped(MissingColumns);
    }
    var values := LookupPhenotypes(phenotypes.data, idCol, traitCol, ids);
    if values.None? {
      return Stopped(MissingPhenotype);
    }
    return Ready(FphiInputs(ids, eigenvalues.value, eigenvectors.value, values.value));
  }

  /** What one run reports: the fit, the null log-likelihood, how the
      p-value is obtained, and the number of subjects. */
  datatype Report = Report(fit: Fit, sporadicLoglik: real, pvalue: PValue, subjects: nat)

  /** `Fphi::run_fphi`: 1 exactly when the inputs cannot be read, and
      otherwise 0 with a report of the fit on the numerics `fitter` builds
      from the inputs (the eigenspace rotation and the likelihood). */
  method RunFphi(basename: Option<string>, hasPedigree: bool, phenotypes: Phenotypes?, traitName: string, disk: Disk,
                 fitter: FphiInputs -> Numerics)
      returns (status: int, report: Option<Report>)
    ensures var r := ReadFphiInputs(basename, hasPedigree, TableOf(phenotypes), traitName, disk);
      && (status == 0 || status == 1)
      && (status == 0 <==> r.Ready?)
      && (report.Some? <==> r.Ready?)
    ensures var r := ReadFphiInputs(basename, hasPedigree, TableOf(phenotypes), traitName, disk);
      r.Ready? ==>
        var num, rep := fitter(r.inputs), report.value;
        && SoundFit(num, rep.fit)
        && (num.xtox(0.5) == 0.0 ==> rep.fit == Singular)
        && (rep.fit.Singular? <==> SearchStuck(num, Tolerance(FitPrecision)))
        && (rep.fit.Fitted? ==> SearchSettles(num, Tolerance(FitPrecision), rep.fit.interior, rep.fit.iterations))
        && rep.sporadicLoglik == num.sporadicLoglik
        && rep.pvalue == ChoosePValue(num.sporadicLoglik, rep.fit)
        && rep.subjects == |r.inputs.ids|
  {
    var read := ReadInputs(basename, hasPedigree, phenotypes, traitName, disk);
    if read.Stopped? {
      return 1, None;
    }
    var num := fitter(read.inputs);
    var fit := FindMaxLoglik(num, FitPrecision);
    var pvalue := ChoosePValue(num.sporadicLoglik, fit);
    return 0, Some(Report(fit, num.sporadicLoglik, pvalue, |read.inputs.ids|));
  }

  // ---------------------------------------------------------------------
  // From the EVD stage to FPHI

  /** For identifiers the EVD stage selected from a table, FPHI's column
      resolution and row lookup on the same table succeed and give each
      identifier the trait value the EVD stage paired with it. */
  lemma FoundSelected(basename: Option<string>, hasPedigree: bool, table: Option<Table>, traitName: string, disk: Disk)
    requires SelectIds(basename, hasPedigree, table, traitName, disk).Selected?
    ensures var sel := SelectIds(basename, hasPedigree, table, traitName, disk);
      var headers := table.value.headers;
      var idCol, traitCol := LastIndexIn(headers, IdNames), LastIndexIn(headers, {traitName});
      && idCol >= 0 && traitCol >= 0
      && AllFound(table.value.data, idCol, traitCol, sel.validIds)
      && Found(table.value.data, idCol, traitCol, sel.validIds) == sel.values
  {
    var sel := SelectIds(basename, hasPedigree, table, traitName, disk);
    var valid := sel.validIds;
    var headers, data := table.value.headers, table.value.data;
    var idCol, traitCol := LastIndexIn(headers, IdNames), LastIndexIn(headers, {traitName});
    var obs := Observations(data, idCol, traitCol);
    assert sel.values == FirstValues(valid, IdsOf(obs), ValuesOf(obs));
    forall i | 0 <= i < |valid|
      ensures FirstUsable(data, idCol, traitCol, valid[i]) == Some(sel.values[i])
    {
      var x := valid[i];
      SelectedMembers(basename, hasPedigree, table, traitName, disk, x);
      ObservedIds(data, idCol, traitCol, x);
      FirstUsableObserved(data, idCol, traitCol, x);
    }
  }

  /** After a successful EVD run, FPHI on the same arguments and the
      resulting disk reads its inputs back without stopping: the
      identifiers are the ones the EVD stage selected and the trait
      values are the ones it paired with them. */
  lemma EvdThenFphi(basename: Option<string>, hasPedigree: bool, table: Option<Table>, traitName: string,
                    disk: Disk, solve: Eigensolver, show: real -> string)
    requires CreateEvdRun(basename, hasPedigree, table, traitName, disk, solve, show).status == 0
    requires forall x: real :: IsWord(show(x)) && ParseReal(show(x)).Some?
    ensures var sel := SelectIds(basename, hasPedigree, table, traitName, disk);
      var out := CreateEvdRun(basename, hasPedigree, table, traitName, disk, solve, show).disk;
      var r := ReadFphiInputs(basename, hasPedigree, table, traitName, out);
      && sel.Selected? && r.Ready?
      && r.inputs.ids == sel.validIds
      && r.inputs.values == sel.values
  {
    EvdSucceeded(basename, hasPedigree, table, traitName, disk, solve, show);
    var sel := SelectIds(basename, hasPedigree, table, traitName, disk);
    var valid, base := sel.validIds, basename.value;
    var n := |valid|;
    var disk1 := IdsWritten(disk, base, valid, table.value.filename, traitName);
    var d := Decompose(valid, base, disk1, solve);
    var out := CreateEvdRun(basename, hasPedigree, table, traitName, disk, solve, show).disk;
    assert out == EigenWritten(disk1, base, d.values, d.vectors, show);
    EvdWritesIds(basename, hasPedigree, table, traitName, disk, solve, show);
    WrittenNamesApart(base);
    EigenvaluesReadBack(d.values, show);
    EigenvectorsReadBack(d.vectors, n, show, 0, 0);
    FoundSelected(basename, hasPedigree, table, traitName, disk);
  }

  /** Where the fields of a successful read come from: the first lines
      of the three EVD files. */
  lemma ReadyFields(basename: Option<string>, hasPedigree: bool, table: Option<Table>, traitName: string, disk: Disk)
    requires ReadFphiInputs(basename, hasPedigree, table, traitName, disk).Ready?
    ensures var r := ReadFphiInputs(basename, hasPedigree, table, traitName, disk);
      var base, n := basename.value, |r.inputs.ids|;
      && base + ".ids" in disk && base + ".eigenvalues" in disk && base + ".eigenvectors" in disk
      && r.inputs.ids == FirstLineTokens(disk[base + ".ids"])
      && ParsesUpTo(FirstLineTokens(disk[base + ".eigenvalues"]), n)
      && r.inputs.eigenvalues == Parsed(FirstLineTokens(disk[base + ".eigenvalues"]), n)
      && var vectorTokens := FirstLineTokens(disk[base + ".eigenvectors"]);
         && ParsesUpTo(vectorTokens, Consumed(vectorTokens, n))
         && r.inputs.eigenvectors == Unpacked(Parsed(vectorTokens, Consumed(vectorTokens, n)), n)
  {
  }

  /** ... and the eigenvalues FPHI reads are the parsed renderings of
      those the eigensolver returned (`d`), and its eigenvector matrix is
      their column-major unpacking. */
  lemma EvdThenFphiEigen(basename: Option<string>, hasPedigree: bool, table: Option<Table>, traitName: string,
                         disk: Disk, solve: Eigensolver, show: real -> string, d: Decomposition)
    requires CreateEvdRun(basename, hasPedigree, table, traitName, disk, solve, show).status == 0
    requires forall x: real :: IsWord(show(x)) && ParseReal(show(x)).Some?
    requires SelectIds(basename, hasPedigree, table, traitName, disk).Selected?
    requires var valid := SelectIds(basename, hasPedigree, table, traitName, disk).validIds;
      d == Decompose(valid, basename.value, IdsWritten(disk, basename.value, valid, table.value.filename, traitName), solve)
    ensures var out := CreateEvdRun(basename, hasPedigree, table, traitName, disk, solve, show).disk;
      var r := ReadFphiInputs(basename, hasPedigree, table, traitName, out);
      && d.Decomposed? && r.Ready?
      && r.inputs.eigenvalues == ReparsedAll(d.values, show)
      && r.inputs.eigenvectors == Unpacked(ReparsedAll(d.vectors, show), |d.values|)
  {
    EvdThenFphi(basename, hasPedigree, table, traitName, disk, solve, show);
    EvdSucceeded(basename, hasPedigree, table, traitName, disk, solve, show);
    var base, n := basename.value, |d.values|;
    var out := CreateEvdRun(basename, hasPedigree, table, traitName, disk, solve, show).disk;
    ReadyFields(basename, hasPedigree, table, traitName, out);
    WrittenNamesApart(base);
    assert out[base + ".eigenvalues"] == [Join(Rendered(d.values, show), " ")];
    assert out[base + ".eigenvectors"] == [Terminated(Rendered(d.vectors, show))];
    EigenvaluesReadBack(d.values, show);
    EigenvectorsReadBackAll(d.vectors, n, show);
  }
}
