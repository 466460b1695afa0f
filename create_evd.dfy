/** The EVD input assembly: it picks the phenotype rows with a usable
    trait value, reads the person identifiers back from `pedindex.out`,
    keeps the identifiers present in both (in pedigree order), looks up
    their positions in the kinship matrix, assembles the dense symmetric
    kinship matrix from `phi2.gz`, hands it to the eigensolver and writes
    the eigenvalues and the eigenvectors (column by column). */
module CreateEvd {
  import opened Text
  import opened Files
  import opened PedigreeData
  import opened PedigreeOutput
  import opened Families
  import opened PedigreeLoader
  import opened PhenotypeTable

  // ---------------------------------------------------------------------
  // Column resolution

  /** The headers accepted as the identifier column. */
  const IdNames: set<string> := {"id", "ID"}

  /** The position of the last header among `names`, or -1 when none is. */
  function LastIndexIn(headers: seq<string>, names: set<string>): (r: int)
    ensures -1 <= r < |headers|
    ensures r >= 0 ==> headers[r] in names
    ensures r >= 0 ==> forall k :: r < k < |headers| ==> headers[k] !in names
    ensures r == -1 <==> forall k :: 0 <= k < |headers| ==> headers[k] !in names
    decreases |headers|
  {
    if headers == [] then -1
    else if headers[|headers| - 1] in names then |headers| - 1
    else LastIndexIn(headers[..|headers| - 1], names)
  }

  /** The header loop: the last "id" or "ID" header is the identifier
      column and the last header equal to the trait name is the trait
      column (-1 for a column not found). */
  method ResolveColumns(headers: seq<string>, traitName: string) returns (idCol: int, traitCol: int)
    ensures idCol == LastIndexIn(headers, IdNames)
    ensures traitCol == LastIndexIn(headers, {traitName})
  {
    idCol, traitCol := -1, -1;
    for i := 0 to |headers|
      invariant idCol == LastIndexIn(headers[..i], IdNames)
      invariant traitCol == LastIndexIn(headers[..i], {traitName})
    {
      assert headers[..i + 1] == headers[..i] + [headers[i]];
      LastIndexInSnoc(headers[..i], headers[i], IdNames);
      LastIndexInSnoc(headers[..i], headers[i], {traitName});
      if headers[i] == "id" || headers[i] == "ID" {
        idCol := i;
      }
      if headers[i] == traitName {
        traitCol := i;
      }
    }
    assert headers[..|headers|] == headers;
  }

  lemma LastIndexInSnoc(headers: seq<string>, h: string, names: set<string>)
    ensures LastIndexIn(headers + [h], names) == if h in names then |headers| else LastIndexIn(headers, names)
  {
    assert (headers + [h])[..|headers|] == headers;
  }

  // ---------------------------------------------------------------------
  // The phenotype filter

  /** The trait values treated as missing. */
  predicate Missing(v: string) {
    v == "" || v == "NA" || v == "."
  }

  function Max(a: int, b: int): int {
    if a >= b then a else b
  }

  function Min(a: int, b: int): int {
    if a <= b then a else b
  }

  /** A row that has both columns and a present, numeric trait value. */
  predicate Usable(row: seq<string>, idCol: nat, traitCol: nat) {
    |row| > Max(idCol, traitCol) && !Missing(row[traitCol]) && ParseReal(row[traitCol]).Some?
  }

  /** One person's trait value, as the phenotype file states it. */
  datatype Observation = Observation(id: string, value: real)

  function ObservationOf(row: seq<string>, idCol: nat, traitCol: nat): Observation
    requires Usable(row, idCol, traitCol)
  {
    Observation(row[idCol], ParseReal(row[traitCol]).value)
  }

  /** The observations of the usable rows, in row order. */
  function Observations(data: seq<seq<string>>, idCol: nat, traitCol: nat): (obs: seq<Observation>)
    ensures |obs| <= |data|
    decreases |data|
  {
    if data == [] then []
    else
      var row := data[|data| - 1];
      Observations(data[..|data| - 1], idCol, traitCol)
        + (if Usable(row, idCol, traitCol) then [ObservationOf(row, idCol, traitCol)] else [])
  }

  /** The filter works row by row: the observations of two blocks of rows
      are those of the first block followed by those of the second. */
  lemma {:induction false} ObservationsAppend(d1: seq<seq<string>>, d2: seq<seq<string>>, idCol: nat, traitCol: nat)
    ensures Observations(d1 + d2, idCol, traitCol) == Observations(d1, idCol, traitCol) + Observations(d2, idCol, traitCol)
    decreases |d2|
  {
    if d2 == [] {
      assert d1 + d2 == d1;
    } else {
      var init := d2[..|d2| - 1];
      assert (d1 + d2)[..|d1 + d2| - 1] == d1 + init;
      assert (d1 + d2)[|d1 + d2| - 1] == d2[|d2| - 1];
      ObservationsAppend(d1, init, idCol, traitCol);
    }
  }

  /** An observation is kept exactly when some usable row gives it. */
  lemma {:induction false} ObservationsMembers(data: seq<seq<string>>, idCol: nat, traitCol: nat, o: Observation)
    ensures o in Observations(data, idCol, traitCol) <==>
      exists j :: 0 <= j < |data| && Usable(data[j], idCol, traitCol) && ObservationOf(data[j], idCol, traitCol) == o
    decreases |data|
  {
    if data != [] {
      var init := data[..|data| - 1];
      ObservationsMembers(init, idCol, traitCol, o);
      assert forall j :: 0 <= j < |init| ==> init[j] == data[j];
    }
  }

  lemma ObservationsSnoc(data: seq<seq<string>>, row: seq<string>, idCol: nat, traitCol: nat)
    ensures Observations(data + [row], idCol, traitCol) == Observations(data, idCol, traitCol)
      + (if Usable(row, idCol, traitCol) then [ObservationOf(row, idCol, traitCol)] else [])
  {
    assert (data + [row])[..|data|] == data;
  }

  lemma ObservedSnoc(obs: seq<Observation>, o: Observation)
    ensures IdsOf(obs + [o]) == IdsOf(obs) + [o.id] && ValuesOf(obs + [o]) == ValuesOf(obs) + [o.value]
  {
  }

  function IdsOf(obs: seq<Observation>): (ids: seq<string>)
    ensures |ids| == |obs| && forall k :: 0 <= k < |obs| ==> ids[k] == obs[k].id
  {
    seq(|obs|, k requires 0 <= k < |obs| => obs[k].id)
  }

  function ValuesOf(obs: seq<Observation>): (values: seq<real>)
    ensures |values| == |obs| && forall k :: 0 <= k < |obs| ==> values[k] == obs[k].value
  {
    seq(|obs|, k requires 0 <= k < |obs| => obs[k].value)
  }

  /** The row loop: the identifiers and the trait values of the usable
      rows, as two lists of equal length in row order. */
  method FilterPhenotypes(data: seq<seq<string>>, idCol: nat, traitCol: nat)
      returns (phenotypeIds: seq<string>, traitValues: seq<real>)
    ensures phenotypeIds == IdsOf(Observations(data, idCol, traitCol))
    ensures traitValues == ValuesOf(Observations(data, idCol, traitCol))
  {
    phenotypeIds, traitValues := [], [];
    for j := 0 to |data|
      invariant phenotypeIds == IdsOf(Observations(data[..j], idCol, traitCol))
      invariant traitValues == ValuesOf(Observations(data[..j], idCol, traitCol))
    {
      var row := data[j];
      ghost var before := Observations(data[..j], idCol, traitCol);
      assert data[..j + 1] == data[..j] + [row];
      ObservationsSnoc(data[..j], row, idCol, traitCol);
      if |row| > Max(idCol, traitCol) {
        var v := row[traitCol];
        if v != "" && v != "NA" && v != "." {
          var parsed := ParseReal(v);
          if parsed.Some? {
            ghost var o := Observation(row[idCol], parsed.value);
            assert ObservationOf(row, idCol, traitCol) == o;
            ObservedSnoc(before, o);
            phenotypeIds := phenotypeIds + [row[idCol]];
            traitValues := traitValues + [parsed.value];
          }
        }
      }
    }
    assert data[..|data|] == data;
  }

  // ---------------------------------------------------------------------
  // Reading pedindex.out

  /** The seventh whitespace token of every line that has at least seven. */
  function SeventhTokens(lines: seq<string>): (ids: seq<string>)
    ensures |ids| <= |lines|
    ensures forall k :: 0 <= k < |ids| ==> IsWord(ids[k])
    decreases |lines|
  {
    if lines == [] then []
    else
      var ts := Tokens(lines[|lines| - 1]);
      SeventhTokens(lines[..|lines| - 1]) + (if |ts| >= 7 then [ts[6]] else [])
  }

  /** The pedindex loop: `tokens[6]` of every line with seven tokens. */
  method ReadPedigreeIds(lines: seq<string>) returns (ids: seq<string>)
    ensures ids == SeventhTokens(lines)
  {
    ids := [];
    for i := 0 to |lines|
      invariant ids == SeventhTokens(lines[..i])
    {
      assert lines[..i + 1][..i] == lines[..i];
      var tokens := Tokens(lines[i]);
      if |tokens| >= 7 {
        ids := ids + [tokens[6]];
      }
    }
    assert lines[..|lines|] == lines;
  }

  /** Reading back the `pedindex.out` the loader wrote gives the persons'
      identifiers in order, when every identifier is one word: the
      identifier read from line i is that of the person whose sequential
      id is i+1. */
  lemma {:induction false} PedindexIdsRoundTrip(people: seq<EmpiricalPerson>)
    requires forall i :: 0 <= i < |people| ==> IsWord(people[i].originalId)
    ensures SeventhTokens(PedindexLines(people)) == Ids(people)
    decreases |people|
  {
    if people != [] {
      var n := |people|;
      var init, last := people[..n - 1], people[n - 1];
      PedindexLinesSnoc(init, last);
      assert people == init + [last];
      PedindexIdsRoundTrip(init);
      PedindexTokens(n - 1, last);
      SeventhTokensSnoc(PedindexLines(init), PedindexLine(n - 1, last));
      IdsSnoc(init, last);
    }
  }

  lemma PedindexLinesSnoc(people: seq<EmpiricalPerson>, p: EmpiricalPerson)
    ensures PedindexLines(people + [p]) == PedindexLines(people) + [PedindexLine(|people|, p)]
  {
  }

  lemma SeventhTokensSnoc(lines: seq<string>, line: string)
    ensures SeventhTokens(lines + [line]) == SeventhTokens(lines)
      + (if |Tokens(line)| >= 7 then [Tokens(line)[6]] else [])
  {
    assert (lines + [line])[..|lines|] == lines;
  }

  lemma IdsSnoc(people: seq<EmpiricalPerson>, p: EmpiricalPerson)
    ensures Ids(people + [p]) == Ids(people) + [p.originalId]
  {
  }

  // ---------------------------------------------------------------------
  // Reconciling the two identifier lists

  /** The pedigree identifiers that have an observation, in pedigree order. */
  function Matched(pedigreeIds: seq<string>, phenotypeIds: seq<string>): (valid: seq<string>)
    ensures |valid| <= |pedigreeIds|
    decreases |pedigreeIds|
  {
    if pedigreeIds == [] then []
    else
      var x := pedigreeIds[|pedigreeIds| - 1];
      Matched(pedigreeIds[..|pedigreeIds| - 1], phenotypeIds) + (if x in phenotypeIds then [x] else [])
  }

  /** An identifier is kept exactly when it is in both lists. */
  lemma {:induction false} MatchedMembers(pedigreeIds: seq<string>, phenotypeIds: seq<string>, x: string)
    ensures x in Matched(pedigreeIds, phenotypeIds) <==> x in pedigreeIds && x in phenotypeIds
    decreases |pedigreeIds|
  {
    if pedigreeIds != [] {
      var init := pedigreeIds[..|pedigreeIds| - 1];
      MatchedMembers(init, phenotypeIds, x);
      assert pedigreeIds == init + [pedigreeIds[|pedigreeIds| - 1]];
    }
  }

  /** The intersection keeps pedigree order: two blocks of pedigree
      identifiers give their matches one after the other. */
  lemma {:induction false} MatchedAppend(p1: seq<string>, p2: seq<string>, phenotypeIds: seq<string>)
    ensures Matched(p1 + p2, phenotypeIds) == Matched(p1, phenotypeIds) + Matched(p2, phenotypeIds)
    decreases |p2|
  {
    if p2 == [] {
      assert p1 + p2 == p1;
    } else {
      var init := p2[..|p2| - 1];
      assert (p1 + p2)[..|p1 + p2| - 1] == p1 + init;
      assert (p1 + p2)[|p1 + p2| - 1] == p2[|p2| - 1];
      MatchedAppend(p1, init, phenotypeIds);
    }
  }

  /** The reconciliation loop: the matched identifiers in pedigree order,
      each with the value of its first phenotype match. */
  method Reconcile(pedigreeIds: seq<string>, phenotypeIds: seq<string>, traitValues: seq<real>)
      returns (validIds: seq<string>, filteredValues: seq<real>)
    requires |phenotypeIds| == |traitValues|
    ensures validIds == Matched(pedigreeIds, phenotypeIds)
    ensures |filteredValues| == |validIds|
    ensures forall k :: 0 <= k < |validIds| ==>
      IndexOf(phenotypeIds, validIds[k]) < |traitValues| && filteredValues[k] == traitValues[IndexOf(phenotypeIds, validIds[k])]
  {
    validIds, filteredValues := [], [];
    for i := 0 to |pedigreeIds|
      invariant validIds == Matched(pedigreeIds[..i], phenotypeIds)
      invariant |filteredValues| == |validIds|
      invariant forall k :: 0 <= k < |validIds| ==>
        IndexOf(phenotypeIds, validIds[k]) < |traitValues| && filteredValues[k] == traitValues[IndexOf(phenotypeIds, validIds[k])]
    {
      assert pedigreeIds[..i + 1][..i] == pedigreeIds[..i];
      var pedId := pedigreeIds[i];
      var phenoIndex := IndexOf(phenotypeIds, pedId);
      if phenoIndex < |phenotypeIds| {
        validIds := validIds + [pedId];
        filteredValues := filteredValues + [traitValues[phenoIndex]];
      }
    }
    assert pedigreeIds[..|pedigreeIds|] == pedigreeIds;
  }

  // ---------------------------------------------------------------------
  // Positions in the kinship matrix

  /** Every identifier has a line in the pedigree index. */
  predicate AllIndexed(validIds: seq<string>, allIds: seq<string>) {
    forall k :: 0 <= k < |validIds| ==> validIds[k] in allIds
  }

  /** The 1-based position of each identifier's first line in the index. */
  function Positions(validIds: seq<string>, allIds: seq<string>): (indices: seq<int>)
    ensures |indices| == |validIds|
    ensures forall k :: 0 <= k < |validIds| ==> indices[k] == IndexOf(allIds, validIds[k]) + 1
  {
    seq(|validIds|, k requires 0 <= k < |validIds| => IndexOf(allIds, validIds[k]) + 1)
  }

  /** The `std::find` loop over the identifiers: `None` (the early return)
      as soon as one is missing from the index, otherwise each
      identifier's 1-based position, which lies between 1 and the number
      of indexed persons. */
  method IndexValidIds(validIds: seq<string>, allIds: seq<string>) returns (indices: Option<seq<int>>)
    ensures indices.Some? <==> AllIndexed(validIds, allIds)
    ensures indices.Some? ==> indices.value == Positions(validIds, allIds)
    ensures indices.Some? ==> forall k :: 0 <= k < |validIds| ==> 1 <= indices.value[k] <= |allIds|
  {
    var found: seq<int> := [];
    for k := 0 to |validIds|
      invariant found == Positions(validIds[..k], allIds)
      invariant AllIndexed(validIds[..k], allIds)
    {
      var position := IndexOf(allIds, validIds[k]);
      if position == |allIds| {
        assert !AllIndexed(validIds, allIds);
        return None;
      }
      assert validIds[..k + 1] == validIds[..k] + [validIds[k]];
      found := found + [position + 1];
    }
    assert validIds[..|validIds|] == validIds;
    return Some(found);
  }

  /** The identifiers kept by the reconciliation are all in the index
      they were read from, so the second read of an unchanged
      `pedindex.out` finds every one of them. */
  lemma MatchedIndexed(pedigreeIds: seq<string>, phenotypeIds: seq<string>)
    ensures AllIndexed(Matched(pedigreeIds, phenotypeIds), pedigreeIds)
  {
    var valid := Matched(pedigreeIds, phenotypeIds);
    forall k | 0 <= k < |valid|
      ensures valid[k] in pedigreeIds
    {
      MatchedMembers(pedigreeIds, phenotypeIds, valid[k]);
    }
  }

  /** On the index the loader wrote (distinct one-word identifiers, the
      i-th person numbered i+1), a person's position is its sequential
      id, which is also the number its kinship entries carry in phi2. */
  lemma PositionIsSequentialId(people: seq<EmpiricalPerson>, i: int)
    requires 0 <= i < |people|
    requires Distinct(Ids(people)) && Sequential(people)
    requires forall j :: 0 <= j < |people| ==> IsWord(people[j].originalId)
    ensures IndexOf(SeventhTokens(PedindexLines(people)), people[i].originalId) + 1 == people[i].sequentialId
  {
    PedindexIdsRoundTrip(people);
    IndexOfDistinct(Ids(people), i);
  }

  /** In a list without repeats an element is first found where it is. */
  lemma IndexOfDistinct(xs: seq<string>, i: int)
    requires 0 <= i < |xs| && Distinct(xs)
    ensures IndexOf(xs, xs[i]) == i
  {
  }

  // ---------------------------------------------------------------------
  // Reading phi2.gz

  /** `sscanf(line, "%d %d %lf", ...) == 3`: two integers and a number,
      each after optional whitespace; `None` is a line with fewer than
      three conversions. */
  function ScanPhi2Line(line: string): Option<(int, int, real)> {
    var first := ReadInt(line);
    if first.None? then None
    else
      var second := ReadInt(first.value.1);
      if second.None? then None
      else
        var v := ParseReal(second.value.1);
        if v.None? then None else Some((first.value.0, second.value.0, v.value))
  }

  type Phi2Data = map<(int, int), real>

  /** One parsed line stored at (row, col) and, off the diagonal, also at
      (col, row); a line that does not parse changes nothing. */
  function Store(m: Phi2Data, e: Option<(int, int, real)>): Phi2Data {
    if e.None? then m
    else
      var (r, c, v) := e.value;
      if r != c then m[(r, c) := v][(c, r) := v] else m[(r, c) := v]
  }

  /** The scanned form of every line. */
  function Scanned(lines: seq<string>): (es: seq<Option<(int, int, real)>>)
    ensures |es| == |lines| && forall j :: 0 <= j < |lines| ==> es[j] == ScanPhi2Line(lines[j])
  {
    seq(|lines|, j requires 0 <= j < |lines| => ScanPhi2Line(lines[j]))
  }

  /** The map built by storing the scanned lines in order. */
  function StoreAll(es: seq<Option<(int, int, real)>>): Phi2Data
    decreases |es|
  {
    if es == [] then map[] else Store(StoreAll(es[..|es| - 1]), es[|es| - 1])
  }

  /** The map the line loop builds from phi2.gz. */
  function Phi2Map(lines: seq<string>): Phi2Data {
    StoreAll(Scanned(lines))
  }

  /** The `gzgets` loop over the lines of phi2.gz. */
  method ReadPhi2(lines: seq<string>) returns (m: Phi2Data)
    ensures m == Phi2Map(lines)
  {
    ghost var es := Scanned(lines);
    m := map[];
    for i := 0 to |lines|
      invariant m == StoreAll(es[..i])
    {
      assert es[..i + 1][..i] == es[..i];
      var e := ScanPhi2Line(lines[i]);
      assert e == es[i];
      if e.Some? {
        var (r, c, v) := e.value;
        m := m[(r, c) := v];
        if r != c {
          m := m[(c, r) := v];
        }
      }
    }
    assert es[..|lines|] == es;
  }

  predicate Symmetric(m: Phi2Data) {
    forall k :: k in m ==> (k.1, k.0) in m && m[(k.1, k.0)] == m[k]
  }

  lemma StoreSymmetric(m: Phi2Data, e: Option<(int, int, real)>)
    requires Symmetric(m)
    ensures Symmetric(Store(m, e))
  {
  }

  /** The map stays symmetric after every line. */
  lemma {:induction false} StoreAllSymmetric(es: seq<Option<(int, int, real)>>)
    ensures Symmetric(StoreAll(es))
    decreases |es|
  {
    if es != [] {
      StoreAllSymmetric(es[..|es| - 1]);
      StoreSymmetric(StoreAll(es[..|es| - 1]), es[|es| - 1]);
    }
  }

  /** The kinship map read from phi2.gz is symmetric. */
  lemma Phi2MapSymmetric(lines: seq<string>)
    ensures Symmetric(Phi2Map(lines))
  {
    StoreAllSymmetric(Scanned(lines));
  }

  /** A parsed line that names the pair (r, c) in either order. */
  predicate Mentions(e: Option<(int, int, real)>, r: int, c: int) {
    e.Some? && ((e.value.0 == r && e.value.1 == c) || (e.value.0 == c && e.value.1 == r))
  }

  /** Line `j` mentions the pair and no later line does. */
  predicate LastMention(es: seq<Option<(int, int, real)>>, j: int, r: int, c: int) {
    0 <= j < |es| && Mentions(es[j], r, c) && forall j' :: j < j' < |es| ==> !Mentions(es[j'], r, c)
  }

  /** A pair has a value exactly when some line mentions it, in either
      order. */
  lemma {:induction false} StoreAllKeys(es: seq<Option<(int, int, real)>>, r: int, c: int)
    ensures (r, c) in StoreAll(es) <==> exists j :: 0 <= j < |es| && Mentions(es[j], r, c)
    decreases |es|
  {
    if es != [] {
      var n := |es|;
      var init := es[..n - 1];
      StoreAllKeys(init, r, c);
      StoreAt(StoreAll(init), es[n - 1], r, c);
      assert forall j :: 0 <= j < n - 1 ==> init[j] == es[j];
    }
  }

  /** The value of a pair is that of the last line that mentions it. */
  lemma {:induction false} StoreAllLatest(es: seq<Option<(int, int, real)>>, r: int, c: int)
    requires (r, c) in StoreAll(es)
    ensures exists j :: LastMention(es, j, r, c) && StoreAll(es)[(r, c)] == es[j].value.2
    decreases |es|
  {
    var n := |es|;
    var init := es[..n - 1];
    StoreAt(StoreAll(init), es[n - 1], r, c);
    if !Mentions(es[n - 1], r, c) {
      StoreAllLatest(init, r, c);
      var j :| LastMention(init, j, r, c) && StoreAll(init)[(r, c)] == init[j].value.2;
      assert init[j] == es[j];
      assert forall j' :: j < j' < n - 1 ==> init[j'] == es[j'];
      assert LastMention(es, j, r, c);
    } else {
      assert LastMention(es, n - 1, r, c);
    }
  }

  /** On the lines of phi2.gz: a pair is in the map exactly when some line
      scans to it (in either order), and it holds the number of the last
      such line. */
  lemma Phi2MapLatest(lines: seq<string>, r: int, c: int)
    ensures (r, c) in Phi2Map(lines) <==> exists j :: 0 <= j < |lines| && Mentions(Scanned(lines)[j], r, c)
    ensures (r, c) in Phi2Map(lines) ==>
      exists j :: LastMention(Scanned(lines), j, r, c) && Phi2Map(lines)[(r, c)] == Scanned(lines)[j].value.2
  {
    var es := Scanned(lines);
    StoreAllKeys(es, r, c);
    if (r, c) in StoreAll(es) {
      StoreAllLatest(es, r, c);
    }
  }

  /** Storing a line sets a pair it mentions and keeps every other pair. */
  lemma StoreAt(m: Phi2Data, e: Option<(int, int, real)>, r: int, c: int)
    ensures Mentions(e, r, c) ==> (r, c) in Store(m, e) && Store(m, e)[(r, c)] == e.value.2
    ensures !Mentions(e, r, c) ==> ((r, c) in Store(m, e) <==> (r, c) in m)
    ensures !Mentions(e, r, c) && (r, c) in m ==> Store(m, e)[(r, c)] == m[(r, c)]
  {
  }

  /** A line the loader wrote to phi2 is scanned back as its two
      sequential ids and the number its kinship was rendered as. */
  lemma ScanWrittenPhi2Line(e: KinshipEntry, showKinship: real -> string)
    requires ParseReal(showKinship(e.kinship)).Some?
    ensures ScanPhi2Line(Phi2Line(e, showKinship))
      == Some((e.id1, e.id2, ParseReal(showKinship(e.kinship)).value))
  {
    var shown := showKinship(e.kinship);
    var b := PadLeft(IntToString(e.id2), MatrixDigits);
    var tail := " " + shown;
    Phi2LineShape(e, showKinship);
    ReadIntPadded("", e.id1, b + tail);
    assert "" + (PadLeft(IntToString(e.id1), MatrixDigits) + (" " + (b + tail))) == Phi2Line(e, showKinship);
    ReadIntPadded(" ", e.id2, shown);
    SkipSpaceAfter(" ", shown);
    ParseRealAfter(" ", shown);
    ScanOf(Phi2Line(e, showKinship), e.id1, " " + (b + tail), e.id2, tail, ParseReal(shown).value);
  }

  lemma ScanOf(line: string, a: int, rest1: string, b: int, rest2: string, v: real)
    requires ReadInt(line) == Some((a, rest1)) && ReadInt(rest1) == Some((b, rest2))
    requires ParseReal(rest2) == Some(v)
    ensures ScanPhi2Line(line) == Some((a, b, v))
  {
  }

  lemma ParseRealAfter(sp: string, s: string)
    requires SkipSpace(sp + s) == SkipSpace(s)
    ensures ParseReal(sp + s) == ParseReal(s)
  {
  }

  lemma Phi2LineShape(e: KinshipEntry, showKinship: real -> string)
    ensures Phi2Line(e, showKinship) == PadLeft(IntToString(e.id1), MatrixDigits)
      + (" " + (PadLeft(IntToString(e.id2), MatrixDigits) + (" " + showKinship(e.kinship))))
  {
  }

  /** A right-aligned integer after whitespace and before a space is read whole. */
  lemma ReadIntPadded(sp: string, i: int, t: string)
    requires AllSpace(sp)
    ensures ReadInt(sp + (PadLeft(IntToString(i), MatrixDigits) + (" " + t))) == Some((i, " " + t))
  {
    var w := IntToString(i);
    var pad := if |w| < MatrixDigits then Spaces(MatrixDigits - |w|) else "";
    var rest := " " + t;
    assert sp + (PadLeft(w, MatrixDigits) + rest) == (sp + pad) + (w + rest);
    SkipSpaceAfter(sp + pad, w + rest);
    ReadIntSkipSpace((sp + pad) + (w + rest), w + rest);
    ReadIntToString(i, rest);
  }

  // ---------------------------------------------------------------------
  // The kinship matrix

  /** a <= b carries over to multiples. */
  lemma MulMono(a: nat, b: nat, k: nat)
    requires a <= b
    ensures a * k <= b * k
  {
  }

  /** Euclidean division is unique: p = c*n + r with 0 <= r < n has
      quotient c and remainder r. */
  lemma DivModUnique(n: nat, p: nat, c: nat, r: nat)
    requires n > 0 && p == c * n + r && r < n
    ensures p / n == c && p % n == r
  {
    var q, rem := p / n, p % n;
    assert p == q * n + rem;
    if q > c {
      MulMono(c + 1, q, n);
      assert false;
    } else if q < c {
      MulMono(q + 1, c, n);
      assert false;
    }
  }

  /** Column-major layout: cell (r, c) of an n-by-n matrix is element
      c*n + r, and that element names no other cell. */
  lemma CellPosition(n: nat, r: nat, c: nat)
    requires r < n && c < n
    ensures 0 <= c * n + r < n * n
    ensures (c * n + r) / n == c && (c * n + r) % n == r
  {
    MulMono(c + 1, n, n);
    DivModUnique(n, c * n + r, c, r);
  }

  /** Every element of an n-by-n matrix is some cell. */
  lemma PositionCell(n: nat, p: nat)
    requires p < n * n
    ensures n > 0 && p % n < n && p / n < n
    ensures p == (p / n) * n + p % n
  {
    if p / n >= n {
      MulMono(n, p / n, n);
      assert false;
    }
  }

  /** The map value at (a, b), or 0 when the pair has none. */
  function Lookup(m: Phi2Data, a: int, b: int): real {
    if (a, b) in m then m[(a, b)] else 0.0
  }

  /** The matrix cell (r, c): the map value at the positions of the
      later and the earlier of the two identifiers, as the assembly
      loop looks it up. */
  function Entry(m: Phi2Data, indices: seq<int>, r: nat, c: nat): real
    requires r < |indices| && c < |indices|
  {
    Lookup(m, indices[Max(r, c)], indices[Min(r, c)])
  }

  /** The n-by-n matrix, column-major, that the assembly writes. */
  function Phi2Matrix(indices: seq<int>, m: Phi2Data): (a: seq<real>)
    ensures |a| == |indices| * |indices|
  {
    var n := |indices|;
    seq(n * n, p requires 0 <= p < n * n => PositionCell(n, p); Entry(m, indices, p % n, p / n))
  }

  /** Three properties of the assembled matrix: cell (r, c) is the map
      value of the two identifiers' positions (0 when absent), the matrix
      is symmetric, and on a symmetric map the order of the lookup does
      not matter. */
  lemma Phi2MatrixCell(indices: seq<int>, m: Phi2Data, r: nat, c: nat)
    requires r < |indices| && c < |indices|
    ensures var n := |indices|; var a := Phi2Matrix(indices, m);
      && c * n + r < |a| && r * n + c < |a|
      && a[c * n + r] == Lookup(m, indices[Max(r, c)], indices[Min(r, c)])
      && a[c * n + r] == a[r * n + c]
      && (Symmetric(m) ==> a[c * n + r] == Lookup(m, indices[r], indices[c]))
  {
    var n := |indices|;
    CellPosition(n, r, c);
    CellPosition(n, c, r);
  }

  /** Cell (r, c) is done once column `col` is finished up to row `row`:
      the diagonal loop has passed the smaller of the two, or reached it
      with the larger one already behind the row loop. */
  predicate Before(r: int, c: int, col: int, row: int) {
    Min(r, c) < col || (Min(r, c) == col && Max(r, c) < row)
  }

  /** The cells before (col, row) of the partly assembled matrix `s`
      hold their final values. */
  ghost predicate Filled(s: seq<real>, indices: seq<int>, m: Phi2Data, col: int, row: int) {
    var n := |indices|;
    && |s| == n * n
    && forall r: nat, c: nat ::
         r < n && c < n && Before(r, c, col, row) ==>
           (CellPosition(n, r, c); s[c * n + r] == Entry(m, indices, r, c))
  }

  lemma FillDiagonal(s: seq<real>, indices: seq<int>, m: Phi2Data, col: nat)
    requires col < |indices| && Filled(s, indices, m, col, col)
    requires col * |indices| + col < |s|
    ensures var n := |indices|;
      Filled(s[col * n + col := Lookup(m, indices[col], indices[col])], indices, m, col, col + 1)
  {
    var n := |indices|;
    CellPosition(n, col, col);
    var s' := s[col * n + col := Lookup(m, indices[col], indices[col])];
    forall r: nat, c: nat | r < n && c < n && Before(r, c, col, col + 1)
      ensures (CellPosition(n, r, c); s'[c * n + r] == Entry(m, indices, r, c))
    {
      CellPosition(n, r, c);
    }
  }

  lemma FillPair(s: seq<real>, indices: seq<int>, m: Phi2Data, col: nat, row: nat)
    requires col < row < |indices| && Filled(s, indices, m, col, row)
    requires col * |indices| + row < |s| && row * |indices| + col < |s|
    ensures var n := |indices|;
      var v := Lookup(m, indices[row], indices[col]);
      Filled(s[col * n + row := v][row * n + col := v], indices, m, col, row + 1)
  {
    var n := |indices|;
    CellPosition(n, row, col);
    CellPosition(n, col, row);
    var v := Lookup(m, indices[row], indices[col]);
    var s' := s[col * n + row := v][row * n + col := v];
    forall r: nat, c: nat | r < n && c < n && Before(r, c, col, row + 1)
      ensures (CellPosition(n, r, c); s'[c * n + r] == Entry(m, indices, r, c))
    {
      CellPosition(n, r, c);
    }
  }

  lemma FillColumn(s: seq<real>, indices: seq<int>, m: Phi2Data, col: nat)
    requires col < |indices| && Filled(s, indices, m, col, |indices|)
    ensures Filled(s, indices, m, col + 1, col + 1)
  {
    var n := |indices|;
    forall r: nat, c: nat | r < n && c < n && Before(r, c, col + 1, col + 1)
      ensures (CellPosition(n, r, c); s[c * n + r] == Entry(m, indices, r, c))
    {
      assert Before(r, c, col, n);
    }
  }

  lemma FilledCell(s: seq<real>, indices: seq<int>, m: Phi2Data, p: nat)
    requires Filled(s, indices, m, |indices|, |indices|) && p < |s|
    ensures s[p] == Phi2Matrix(indices, m)[p]
  {
    var n := |indices|;
    PositionCell(n, p);
    var r, c := p % n, p / n;
    assert Before(r, c, n, n);
    CellPosition(n, r, c);
  }

  lemma FilledMatrix(s: seq<real>, indices: seq<int>, m: Phi2Data)
    requires Filled(s, indices, m, |indices|, |indices|)
    ensures s == Phi2Matrix(indices, m)
  {
    forall p | 0 <= p < |s|
      ensures s[p] == Phi2Matrix(indices, m)[p]
    {
      FilledCell(s, indices, m, p);
    }
  }

  /** The assembly loops: for each column the diagonal cell, then each
      later row written at (row, col) and at (col, row). */
  method AssemblePhi2(indices: seq<int>, m: Phi2Data) returns (a: array<real>)
    ensures fresh(a) && a[..] == Phi2Matrix(indices, m)
  {
    var n := |indices|;
    a := new real[n * n];
    for col := 0 to n
      invariant Filled(a[..], indices, m, col, col)
    {
      var ibdCol := indices[col];
      CellPosition(n, col, col);
      FillDiagonal(a[..], indices, m, col);
      a[col * n + col] := Lookup(m, ibdCol, ibdCol);
      for row := col + 1 to n
        invariant Filled(a[..], indices, m, col, row)
      {
        var value := Lookup(m, indices[row], ibdCol);
        CellPosition(n, row, col);
        CellPosition(n, col, row);
        FillPair(a[..], indices, m, col, row);
        a[col * n + row] := value;
        a[row * n + col] := value;
      }
      FillColumn(a[..], indices, m, col);
    }
    FilledMatrix(a[..], indices, m);
  }

  // ---------------------------------------------------------------------
  // The eigensolver and the two eigen files

  /** What `symeig_` hands back: its `info` code, the eigenvalues and the
      eigenvectors (column-major). */
  datatype Eigen = Eigen(info: int, values: seq<real>, vectors: seq<real>)

  /** The foreign eigensolver, seen only through the shape of its
      results: n eigenvalues and n*n eigenvector entries for an n-by-n
      input. */
  type Eigensolver = f: (nat, seq<real>) -> Eigen
    | forall n: nat, a: seq<real> :: |f(n, a).values| == n && |f(n, a).vectors| == n * n
    witness (n: nat, a: seq<real>) => Eigen(0, seq(n, k => 0.0), seq(n * n, k => 0.0))

  /** The numbers as the output stream renders them. */
  function Rendered(xs: seq<real>, show: real -> string): (ws: seq<string>)
    ensures |ws| == |xs| && forall k :: 0 <= k < |xs| ==> ws[k] == show(xs[k])
  {
    seq(|xs|, k requires 0 <= k < |xs| => show(xs[k]))
  }

  /** The loop `if (i > 0) file << " "; file << w`: the words with one
      space between neighbours, as in the `.ids` and `.eigenvalues`
      files. */
  method WriteJoined(ws: seq<string>) returns (line: string)
    ensures line == Join(ws, " ")
  {
    line := "";
    for i := 0 to |ws|
      invariant line == Join(ws[..i], " ")
    {
      if i > 0 {
        JoinSnoc(ws[..i], ws[i], " ");
        line := line + " ";
      }
      assert ws[..i + 1] == ws[..i] + [ws[i]];
      line := line + ws[i];
    }
    assert ws[..|ws|] == ws;
  }

  /** Each word followed by one space, as the `.eigenvectors` file holds
      them. */
  function Terminated(ws: seq<string>): string
    decreases |ws|
  {
    if ws == [] then "" else ws[0] + " " + Terminated(ws[1..])
  }

  lemma {:induction false} TerminatedSnoc(ws: seq<string>, w: string)
    ensures Terminated(ws + [w]) == Terminated(ws) + w + " "
    decreases |ws|
  {
    if ws == [] {
      assert [w][1..] == [];
    } else {
      assert (ws + [w])[1..] == ws[1..] + [w];
      TerminatedSnoc(ws[1..], w);
    }
  }

  /** Reading back the `.eigenvectors` line gives the words written. */
  lemma {:induction false} TokensOfTerminated(ws: seq<string>)
    requires forall k :: 0 <= k < |ws| ==> IsWord(ws[k])
    ensures Tokens(Terminated(ws)) == ws
    decreases |ws|
  {
    if ws != [] {
      var rest := Terminated(ws[1..]);
      assert Terminated(ws) == ws[0] + (" " + rest);
      TokensWordFirst(ws[0], " " + rest);
      TokensSkipSpace(" ", rest);
      TokensOfTerminated(ws[1..]);
    } else {
      assert Tokens("") == [];
    }
  }

  /** The column-by-column writer loop: entry col*n + row of the
      eigenvectors, followed by a space, for every column and row. */
  method WriteEigenvectors(vectors: seq<real>, n: nat, show: real -> string) returns (line: string)
    requires |vectors| == n * n
    ensures line == Terminated(Rendered(vectors, show))
  {
    ghost var ws := Rendered(vectors, show);
    line := "";
    for col := 0 to n
      invariant col * n <= n * n
      invariant line == Terminated(ws[..col * n])
    {
      assert col * n + n == (col + 1) * n;
      MulMono(col + 1, n, n);
      for row := 0 to n
        invariant line == Terminated(ws[..col * n + row])
      {
        CellPosition(n, row, col);
        var k := col * n + row;
        assert ws[..k + 1] == ws[..k] + [ws[k]];
        TerminatedSnoc(ws[..k], ws[k]);
        line := line + show(vectors[k]) + " ";
      }
    }
    assert ws[..n * n] == ws;
  }

  /** The `.notes` file: the number of identifiers, the phenotype file
      name and the trait, one per line. */
  function NotesLines(count: nat, filename: string, traitName: string): (lines: seq<string>)
    ensures |lines| == 3
    ensures lines[0] == "Number of IDs: " + IntToString(count)
    ensures lines[1] == "Phenotype filename used for ID selection: " + filename
    ensures lines[2] == "Trait used for ID selection: " + traitName
  {
    ["Number of IDs: " + IntToString(count),
     "Phenotype filename used for ID selection: " + filename,
     "Trait used for ID selection: " + traitName]
  }

  // ---------------------------------------------------------------------
  // create_evd_data and compute_eigen_decomposition

  /** Where the EVD stage looks for the files of the pedigree stage: the
      directory part of the output base name. */
  function PedindexPathOf(basename: string): string {
    InDirectory(DirectoryOf(basename), "pedindex.out")
  }

  function Phi2PathOf(basename: string): string {
    InDirectory(DirectoryOf(basename), "phi2.gz")
  }

  /** What the EVD stage reads from a loaded phenotype table. */
  datatype Table = Table(filename: string, headers: seq<string>, data: seq<seq<string>>)

  function TableOf(phenotypes: Phenotypes?): (t: Option<Table>)
    reads phenotypes
    ensures t.Some? <==> phenotypes != null
  {
    if phenotypes == null then None
    else Some(Table(phenotypes.filename, phenotypes.headers, phenotypes.data))
  }

  /** Each early `return 1` of the selection, in source order. */
  datatype Refusal =
    | NoBasename | NoPedigree | NoPhenotypes | NoTrait | NoPhenotypeData
    | NoIdColumn | NoTraitColumn | NoPedindex | NoPedigreeIds | NoCommonIds

  datatype Selection = Refused(reason: Refusal) | Selected(validIds: seq<string>, values: seq<real>)

  /** Each identifier's value at its first occurrence among the
      phenotype identifiers (0 for one that has none). */
  function FirstValues(ids: seq<string>, phenotypeIds: seq<string>, traitValues: seq<real>): (values: seq<real>)
    requires |phenotypeIds| == |traitValues|
    ensures |values| == |ids|
    ensures forall k :: 0 <= k < |ids| && ids[k] in phenotypeIds ==>
      values[k] == traitValues[IndexOf(phenotypeIds, ids[k])]
  {
    seq(|ids|, k requires 0 <= k < |ids| =>
      var j := IndexOf(phenotypeIds, ids[k]);
      if j < |traitValues| then traitValues[j] else 0.0)
  }

  /** The selection half of `create_evd_data`: the argument checks, the
      column resolution, the phenotype filter, the pedindex read and the
      reconciliation, either refused at the first check that fails or
      selecting the identifiers present in both files. */
  function SelectIds(basename: Option<string>, hasPedigree: bool, table: Option<Table>, traitName: string, disk: Disk): (r: Selection)
    ensures r.Selected? ==> basename.Some? && hasPedigree && table.Some? && traitName != ""
    ensures r.Selected? ==> |r.validIds| > 0 && |r.values| == |r.validIds|
  {
    if basename.None? then Refused(NoBasename)
    else if !hasPedigree then Refused(NoPedigree)
    else if table.None? then Refused(NoPhenotypes)
    else if traitName == "" then Refused(NoTrait)
    else if table.value.headers == [] || table.value.data == [] then Refused(NoPhenotypeData)
    else
      var headers := table.value.headers;
      var idCol := LastIndexIn(headers, IdNames);
      var traitCol := LastIndexIn(headers, {traitName});
      if idCol == -1 then Refused(NoIdColumn)
      else if traitCol == -1 then Refused(NoTraitColumn)
      else
        var obs := Observations(table.value.data, idCol, traitCol);
        var path := PedindexPathOf(basename.value);
        if path !in disk then Refused(NoPedindex)
        else
          var pedigreeIds := SeventhTokens(disk[path]);
          if pedigreeIds == [] then Refused(NoPedigreeIds)
          else
            var valid := Matched(pedigreeIds, IdsOf(obs));
            if valid == [] then Refused(NoCommonIds)
            else Selected(valid, FirstValues(valid, IdsOf(obs), ValuesOf(obs)))
  }

  /** Each early `return 1` of `compute_eigen_decomposition`, or the
      eigenvalues and eigenvectors of a successful decomposition. */
  datatype Decomposition =
    | NoIndex | IdNotIndexed | NoPhi2 | EigenFailed(info: int)
    | Decomposed(values: seq<real>, vectors: seq<real>)

  /** The decomposition half: the identifiers' positions in a fresh read
      of `pedindex.out`, the kinship matrix over those positions, and the
      eigensolver's verdict on it. */
  function Decompose(validIds: seq<string>, basename: string, disk: Disk, solve: Eigensolver): (d: Decomposition)
    ensures d.Decomposed? ==> |d.values| == |validIds| && |d.vectors| == |validIds| * |validIds|
  {
    var pedindex := PedindexPathOf(basename);
    if pedindex !in disk then NoIndex
    else
      var allIds := SeventhTokens(disk[pedindex]);
      if !AllIndexed(validIds, allIds) then IdNotIndexed
      else
        var phi2 := Phi2PathOf(basename);
        if phi2 !in disk then NoPhi2
        else
          var eig := solve(|validIds|, Phi2Matrix(Positions(validIds, allIds), Phi2Map(disk[phi2])));
          if eig.info != 0 then EigenFailed(eig.info) else Decomposed(eig.values, eig.vectors)
  }

  /** The disk after the `.ids` and `.notes` files are written. */
  function IdsWritten(disk: Disk, basename: string, validIds: seq<string>, filename: string, traitName: string): Disk {
    disk[basename + ".ids" := [Join(validIds, " ")]]
        [basename + ".notes" := NotesLines(|validIds|, filename, traitName)]
  }

  /** The disk after the `.eigenvalues` and `.eigenvectors` files are
      written. */
  function EigenWritten(disk: Disk, basename: string, values: seq<real>, vectors: seq<real>, show: real -> string): Disk {
    disk[basename + ".eigenvalues" := [Join(Rendered(values, show), " ")]]
        [basename + ".eigenvectors" := [Terminated(Rendered(vectors, show))]]
  }

  datatype EvdResult = EvdResult(status: int, disk: Disk)

  /** The whole call: 1 and an untouched disk when the selection refuses;
      otherwise the `.ids` and `.notes` files are written, and then
      either the two eigen files follow with status 0 or the call stops
      with status 1. */
  function CreateEvdRun(basename: Option<string>, hasPedigree: bool, table: Option<Table>, traitName: string,
                        disk: Disk, solve: Eigensolver, show: real -> string): (r: EvdResult)
    ensures r.status == 0 || r.status == 1
    ensures SelectIds(basename, hasPedigree, table, traitName, disk).Refused? ==> r == EvdResult(1, disk)
  {
    match SelectIds(basename, hasPedigree, table, traitName, disk)
    case Refused(_) => EvdResult(1, disk)
    case Selected(validIds, _) =>
      var base := basename.value;
      var disk1 := IdsWritten(disk, base, validIds, table.value.filename, traitName);
      match Decompose(validIds, base, disk1, solve)
      case Decomposed(values, vectors) => EvdResult(0, EigenWritten(disk1, base, values, vectors, show))
      case _ => EvdResult(1, disk1)
  }

  /** `compute_eigen_decomposition`. */
  method ComputeEigenDecomposition(validIds: seq<string>, basename: string, disk: Disk,
                                   solve: Eigensolver, show: real -> string)
      returns (status: int, disk': Disk)
    ensures var d := Decompose(validIds, basename, disk, solve);
      && (d.Decomposed? ==> status == 0 && disk' == EigenWritten(disk, basename, d.values, d.vectors, show))
      && (!d.Decomposed? ==> status == 1 && disk' == disk)
  {
    var pedindexPath := PedindexPathOf(basename);
    if pedindexPath !in disk {
      return 1, disk;
    }
    var allIds := ReadPedigreeIds(disk[pedindexPath]);
    var indices := IndexValidIds(validIds, allIds);
    if indices.None? {
      return 1, disk;
    }
    var phi2Path := Phi2PathOf(basename);
    if phi2Path !in disk {
      return 1, disk;
    }
    var phi2Data := ReadPhi2(disk[phi2Path]);
    var n := |validIds|;
    var matrix := AssemblePhi2(indices.value, phi2Data);
    var eigen := solve(n, matrix[..]);
    if eigen.info != 0 {
      return 1, disk;
    }
    var valuesLine := WriteJoined(Rendered(eigen.values, show));
    var vectorsLine := WriteEigenvectors(eigen.vectors, n, show);
    disk' := disk[basename + ".eigenvalues" := [valuesLine]][basename + ".eigenvectors" := [vectorsLine]];
    status := 0;
  }

  /** The checks and loops of `create_evd_data` up to the writing of
      the `.ids` file: they refuse exactly when `SelectIds` does and
      otherwise find its identifiers and values. */
  method SelectValidIds(basename: Option<string>, hasPedigree: bool, phenotypes: Phenotypes?, traitName: string, disk: Disk)
      returns (selection: Selection)
    ensures selection == SelectIds(basename, hasPedigree, TableOf(phenotypes), traitName, disk)
  {
    if basename.None? || !hasPedigree || phenotypes == null || traitName == "" {
      return Refused(if basename.None? then NoBasename else if !hasPedigree then NoPedigree
        else if phenotypes == null then NoPhenotypes else NoTrait);
    }
    var headers, data := phenotypes.headers, phenotypes.data;
    if headers == [] || data == [] {
      return Refused(NoPhenotypeData);
    }
    var idCol, traitCol := ResolveColumns(headers, traitName);
    if idCol == -1 {
      return Refused(NoIdColumn);
    }
    if traitCol == -1 {
      return Refused(NoTraitColumn);
    }
    var phenotypeIds, traitValues := FilterPhenotypes(data, idCol, traitCol);
    var pedindexPath := PedindexPathOf(basename.value);
    if pedindexPath !in disk {
      return Refused(NoPedindex);
    }
    var pedigreeIds := ReadPedigreeIds(disk[pedindexPath]);
    if pedigreeIds == [] {
      return Refused(NoPedigreeIds);
    }
    var validIds, filteredValues := Reconcile(pedigreeIds, phenotypeIds, traitValues);
    if validIds == [] {
      return Refused(NoCommonIds);
    }
    forall k | 0 <= k < |validIds|
      ensures validIds[k] in phenotypeIds
    {
      MatchedMembers(pedigreeIds, phenotypeIds, validIds[k]);
    }
    assert filteredValues == FirstValues(validIds, phenotypeIds, traitValues);
    return Selected(validIds, filteredValues);
  }

  /** `create_evd_data`, with the pedigree seen only as present or not:
      its status and the files on disk afterwards are those of
      `CreateEvdRun`. */
  method CreateEvdData(basename: Option<string>, hasPedigree: bool, phenotypes: Phenotypes?, traitName: string,
                       disk: Disk, solve: Eigensolver, show: real -> string)
      returns (status: int, disk': Disk)
    ensures EvdResult(status, disk') == CreateEvdRun(basename, hasPedigree, TableOf(phenotypes), traitName, disk, solve, show)
  {
    var selection := SelectValidIds(basename, hasPedigree, phenotypes, traitName, disk);
    if selection.Refused? {
      return 1, disk;
    }
    var base, validIds := basename.value, selection.validIds;
    var idsLine := WriteJoined(validIds);
    var disk1 := disk[base + ".ids" := [idsLine]];
    disk1 := disk1[base + ".notes" := NotesLines(|validIds|, phenotypes.filename, traitName)];
    status, disk' := ComputeEigenDecomposition(validIds, base, disk1, solve, show);
  }

  // ---------------------------------------------------------------------
  // What the EVD stage promises

  /** Some usable row carries the identifier `x`. */
  predicate HasUsableRow(data: seq<seq<string>>, idCol: nat, traitCol: nat, x: string) {
    exists j :: 0 <= j < |data| && Usable(data[j], idCol, traitCol) && data[j][idCol] == x
  }

  /** An identifier has an observation exactly when some usable row
      carries it. */
  lemma ObservedIds(data: seq<seq<string>>, idCol: nat, traitCol: nat, x: string)
    ensures x in IdsOf(Observations(data, idCol, traitCol)) <==> HasUsableRow(data, idCol, traitCol, x)
  {
    var obs := Observations(data, idCol, traitCol);
    if x in IdsOf(obs) {
      var k :| 0 <= k < |obs| && IdsOf(obs)[k] == x;
      ObservationsMembers(data, idCol, traitCol, obs[k]);
    }
    if HasUsableRow(data, idCol, traitCol, x) {
      var j :| 0 <= j < |data| && Usable(data[j], idCol, traitCol) && data[j][idCol] == x;
      var o := ObservationOf(data[j], idCol, traitCol);
      ObservationsMembers(data, idCol, traitCol, o);
      var k :| 0 <= k < |obs| && obs[k] == o;
      assert IdsOf(obs)[k] == x;
    }
  }

  /** The identifiers selected are exactly those that have a line in
      `pedindex.out` and a usable phenotype row, the columns being the
      last "id"/"ID" header and the last header naming the trait. */
  lemma SelectedMembers(basename: Option<string>, hasPedigree: bool, table: Option<Table>, traitName: string, disk: Disk, x: string)
    requires SelectIds(basename, hasPedigree, table, traitName, disk).Selected?
    ensures var headers := table.value.headers;
      var idCol, traitCol := LastIndexIn(headers, IdNames), LastIndexIn(headers, {traitName});
      && idCol >= 0 && traitCol >= 0 && PedindexPathOf(basename.value) in disk
      && (x in SelectIds(basename, hasPedigree, table, traitName, disk).validIds <==>
           x in SeventhTokens(disk[PedindexPathOf(basename.value)]) && HasUsableRow(table.value.data, idCol, traitCol, x))
  {
    var headers := table.value.headers;
    var idCol, traitCol := LastIndexIn(headers, IdNames), LastIndexIn(headers, {traitName});
    var obs := Observations(table.value.data, idCol, traitCol);
    MatchedMembers(SeventhTokens(disk[PedindexPathOf(basename.value)]), IdsOf(obs), x);
    ObservedIds(table.value.data, idCol, traitCol, x);
  }

  /** The last character of a file name placed in a directory is the
      name's last character. */
  lemma InDirectoryLast(dir: string, name: string)
    requires name != []
    ensures var path := InDirectory(dir, name); |path| >= |name| && path[|path| - 1] == name[|name| - 1]
  {
  }

  /** Writing `.ids` and `.notes` touches neither `pedindex.out` nor
      `phi2.gz`, and the two eigen files are distinct from both. */
  lemma WrittenNamesApart(basename: string)
    ensures var ids, notes := basename + ".ids", basename + ".notes";
      && PedindexPathOf(basename) != ids && PedindexPathOf(basename) != notes
      && Phi2PathOf(basename) != ids && Phi2PathOf(basename) != notes
      && ids != notes
      && basename + ".eigenvalues" !in {ids, notes} && basename + ".eigenvectors" !in {ids, notes}
      && basename + ".eigenvalues" != basename + ".eigenvectors"
  {
    var dir := DirectoryOf(basename);
    InDirectoryLast(dir, "pedindex.out");
    InDirectoryLast(dir, "phi2.gz");
    var ids, notes := basename + ".ids", basename + ".notes";
    assert ids[|ids| - 1] == 's' && notes[|notes| - 1] == 's';
    var values, vectors := basename + ".eigenvalues", basename + ".eigenvectors";
    assert values[|basename| + 2] == 'i' && vectors[|basename| + 2] == 'i';
    assert ids[|basename| + 2] == 'd' && notes[|basename| + 2] == 'o';
  }

  /** Once identifiers are selected the call leaves the `.ids` file
      listing them space-separated, which reads back as the same
      identifiers, and the `.notes` file with their count, the phenotype
      file name and the trait, whether or not the decomposition succeeds. */
  lemma EvdWritesIds(basename: Option<string>, hasPedigree: bool, table: Option<Table>, traitName: string,
                     disk: Disk, solve: Eigensolver, show: real -> string)
    requires SelectIds(basename, hasPedigree, table, traitName, disk).Selected?
    ensures var valid := SelectIds(basename, hasPedigree, table, traitName, disk).validIds;
      var out := CreateEvdRun(basename, hasPedigree, table, traitName, disk, solve, show).disk;
      && basename.value + ".ids" in out && out[basename.value + ".ids"] == [Join(valid, " ")]
      && Tokens(out[basename.value + ".ids"][0]) == valid
      && basename.value + ".notes" in out
      && out[basename.value + ".notes"] == NotesLines(|valid|, table.value.filename, traitName)
  {
    var valid := SelectIds(basename, hasPedigree, table, traitName, disk).validIds;
    var headers := table.value.headers;
    var idCol, traitCol := LastIndexIn(headers, IdNames), LastIndexIn(headers, {traitName});
    var pedigreeIds := SeventhTokens(disk[PedindexPathOf(basename.value)]);
    MatchedIndexed(pedigreeIds, IdsOf(Observations(table.value.data, idCol, traitCol)));
    forall k | 0 <= k < |valid|
      ensures IsWord(valid[k])
    {
      var j :| 0 <= j < |pedigreeIds| && pedigreeIds[j] == valid[k];
    }
    WrittenNamesApart(basename.value);
    TokensOfJoin(valid);
  }

  /** Once identifiers are selected, the second read of `pedindex.out`
      sees the file the selection read, so every identifier is found;
      the call then succeeds exactly when `phi2.gz` exists and the
      eigensolver reports 0 on the kinship matrix over the identifiers'
      positions. */
  lemma EvdStatus(basename: Option<string>, hasPedigree: bool, table: Option<Table>, traitName: string,
                  disk: Disk, solve: Eigensolver, show: real -> string)
    requires SelectIds(basename, hasPedigree, table, traitName, disk).Selected?
    ensures var valid := SelectIds(basename, hasPedigree, table, traitName, disk).validIds;
      var base := basename.value;
      var allIds := SeventhTokens(disk[PedindexPathOf(base)]);
      && AllIndexed(valid, allIds)
      && (CreateEvdRun(basename, hasPedigree, table, traitName, disk, solve, show).status == 0 <==>
           Phi2PathOf(base) in disk
           && solve(|valid|, Phi2Matrix(Positions(valid, allIds), Phi2Map(disk[Phi2PathOf(base)]))).info == 0)
  {
    var sel := SelectIds(basename, hasPedigree, table, traitName, disk);
    var base := basename.value;
    var headers := table.value.headers;
    var idCol, traitCol := LastIndexIn(headers, IdNames), LastIndexIn(headers, {traitName});
    var obs := Observations(table.value.data, idCol, traitCol);
    var allIds := SeventhTokens(disk[PedindexPathOf(base)]);
    MatchedIndexed(allIds, IdsOf(obs));
    WrittenNamesApart(base);
    var disk1 := IdsWritten(disk, base, sel.validIds, table.value.filename, traitName);
    assert disk1[PedindexPathOf(base)] == disk[PedindexPathOf(base)];
    assert Phi2PathOf(base) in disk1 <==> Phi2PathOf(base) in disk;
    assert Phi2PathOf(base) in disk ==> disk1[Phi2PathOf(base)] == disk[Phi2PathOf(base)];
  }

  /** The file `path` is on `after` exactly as it was on `before`. */
  predicate Keeps(before: Disk, after: Disk, path: string) {
    (path in after <==> path in before) && (path in before ==> after[path] == before[path])
  }

  /** A call that fails writes no eigen file: both are as they were. */
  lemma EvdFailureKeepsEigenFiles(basename: Option<string>, hasPedigree: bool, table: Option<Table>, traitName: string,
                                  disk: Disk, solve: Eigensolver, show: real -> string)
    requires basename.Some?
    requires CreateEvdRun(basename, hasPedigree, table, traitName, disk, solve, show).status != 0
    ensures var out := CreateEvdRun(basename, hasPedigree, table, traitName, disk, solve, show).disk;
      Keeps(disk, out, basename.value + ".eigenvalues") && Keeps(disk, out, basename.value + ".eigenvectors")
  {
    WrittenNamesApart(basename.value);
  }

  /** A successful call selected identifiers, decomposed their kinship
      matrix, and wrote the eigen files over the `.ids`/`.notes` disk. */
  lemma EvdSucceeded(basename: Option<string>, hasPedigree: bool, table: Option<Table>, traitName: string,
                     disk: Disk, solve: Eigensolver, show: real -> string)
    requires CreateEvdRun(basename, hasPedigree, table, traitName, disk, solve, show).status == 0
    ensures SelectIds(basename, hasPedigree, table, traitName, disk).Selected?
    ensures var valid := SelectIds(basename, hasPedigree, table, traitName, disk).validIds;
      var base := basename.value;
      var disk1 := IdsWritten(disk, base, valid, table.value.filename, traitName);
      var d := Decompose(valid, base, disk1, solve);
      && d.Decomposed?
      && CreateEvdRun(basename, hasPedigree, table, traitName, disk, solve, show).disk
           == EigenWritten(disk1, base, d.values, d.vectors, show)
  {
  }

  lemma RenderedWords(xs: seq<real>, show: real -> string)
    requires forall x: real :: IsWord(show(x))
    ensures forall k :: 0 <= k < |xs| ==> IsWord(Rendered(xs, show)[k])
  {
    var ws := Rendered(xs, show);
    forall k | 0 <= k < |xs|
      ensures IsWord(ws[k])
    {
      var x := xs[k];
      assert IsWord(show(x));
      assert ws[k] == show(x);
    }
  }

  /** Read back with a renderer that yields single words, the eigenvalue
      file is one line of n tokens, the rendered eigenvalues, and the
      eigenvector file is one line whose token col*n + row is the
      rendered entry col*n + row. */
  lemma EigenFilesReadBack(disk: Disk, basename: string, values: seq<real>, vectors: seq<real>,
                           show: real -> string, n: nat, row: nat, col: nat)
    requires |values| == n && |vectors| == n * n
    requires forall x: real :: IsWord(show(x))
    ensures var out := EigenWritten(disk, basename, values, vectors, show);
      && basename + ".eigenvalues" in out && |out[basename + ".eigenvalues"]| == 1
      && Tokens(out[basename + ".eigenvalues"][0]) == Rendered(values, show)
      && |Tokens(out[basename + ".eigenvalues"][0])| == n
      && basename + ".eigenvectors" in out && |out[basename + ".eigenvectors"]| == 1
      && |Tokens(out[basename + ".eigenvectors"][0])| == n * n
      && (row < n && col < n ==>
            (col * n + row < n * n
             && Tokens(out[basename + ".eigenvectors"][0])[col * n + row] == show(vectors[col * n + row])))
  {
    WrittenNamesApart(basename);
    var vs, ws := Rendered(values, show), Rendered(vectors, show);
    RenderedWords(values, show);
    RenderedWords(vectors, show);
    TokensOfJoin(vs);
    TokensOfTerminated(ws);
    if row < n && col < n {
      CellPosition(n, row, col);
    }
  }

  /** When the pedigree stage wrote into `outputDir` and the EVD base name
      is a file in that directory, the EVD stage reads the very
      `pedindex.out` and `phi2.gz` the pedigree stage wrote. */
  lemma EvdFindsLoaderFiles(outputDir: string, name: string)
    requires outputDir != "" && outputDir[|outputDir| - 1] != '/' && NoSeparator(name)
    ensures PedindexPathOf(outputDir + "/" + name) == PedindexPath(outputDir)
    ensures Phi2PathOf(outputDir + "/" + name) == Phi2GzPath(outputDir)
  {
    DirectoryOfSplit(outputDir, '/', name);
    assert outputDir + "/" + name == outputDir + ['/'] + name;
  }
}
