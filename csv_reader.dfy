/** The comma-separated reader: a file is read one line per call, each
    line is cut at every ',' the way `std::getline(ss, field, ',')` cuts
    it, and every field is trimmed of blanks at both ends. */
module CsvReader {
  import opened Text

  /** The characters `get_header` and `get_record` trim from a field. */
  predicate IsBlank(c: char) {
    c == ' ' || c == '\n' || c == '\r' || c == '\t'
  }

  predicate AllBlank(s: string) {
    forall i :: 0 <= i < |s| ==> IsBlank(s[i])
  }

  // ---------------------------------------------------------------------
  // Trimming

  /** `field.erase(field.find_last_not_of(" \n\r\t") + 1)`. */
  function TrimEnd(s: string): string {
    if s == [] || !IsBlank(s[|s| - 1]) then s else TrimEnd(s[..|s| - 1])
  }

  /** `TrimEnd` keeps a prefix, drops only blanks, and stops at a non-blank. */
  lemma {:induction false} TrimEndFacts(s: string)
    ensures |TrimEnd(s)| <= |s| && TrimEnd(s) == s[..|TrimEnd(s)|]
    ensures AllBlank(s[|TrimEnd(s)|..])
    ensures TrimEnd(s) == [] || !IsBlank(TrimEnd(s)[|TrimEnd(s)| - 1])
  {
    if s != [] && IsBlank(s[|s| - 1]) {
      var s' := s[..|s| - 1];
      TrimEndFacts(s');
      assert s[..|TrimEnd(s)|] == s'[..|TrimEnd(s)|];
      assert s[|TrimEnd(s)|..] == s'[|TrimEnd(s)|..] + [s[|s| - 1]];
    } else {
      assert s[|s|..] == [];
    }
  }

  /** `field.erase(0, field.find_first_not_of(" \n\r\t"))`. */
  function TrimStart(s: string): string {
    if s == [] || !IsBlank(s[0]) then s else TrimStart(s[1..])
  }

  /** `TrimStart` keeps a suffix, drops only blanks, and stops at a non-blank. */
  lemma {:induction false} TrimStartFacts(s: string)
    ensures |TrimStart(s)| <= |s| && TrimStart(s) == s[|s| - |TrimStart(s)|..]
    ensures AllBlank(s[..|s| - |TrimStart(s)|])
    ensures TrimStart(s) == [] || !IsBlank(TrimStart(s)[0])
  {
    if s != [] && IsBlank(s[0]) {
      var s' := s[1..];
      var r := TrimStart(s');
      assert TrimStart(s) == r;
      TrimStartFacts(s');
      var n := |s'| - |r|;
      assert s[n + 1..] == s'[n..];
      var pre, pre' := s[..n + 1], s'[..n];
      forall i | 0 <= i < |pre|
        ensures IsBlank(pre[i])
      {
        if i > 0 {
          assert pre[i] == pre'[i - 1];
        }
      }
    } else {
      assert s[..0] == [];
    }
  }

  /** The field with its leading and trailing blanks removed. */
  function Trim(s: string): string {
    TrimStart(TrimEnd(s))
  }

  /** A trimmed field is empty or starts and ends with a non-blank. */
  lemma TrimEnds(s: string)
    ensures Trim(s) == [] || (!IsBlank(Trim(s)[0]) && !IsBlank(Trim(s)[|Trim(s)| - 1]))
  {
    var e := TrimEnd(s);
    TrimEndFacts(s);
    TrimStartFacts(e);
    var r := TrimStart(e);
    if r != [] {
      assert r[|r| - 1] == e[|e| - 1];
    }
  }

  /** A field becomes empty exactly when it is all blanks. */
  lemma TrimEmpty(s: string)
    ensures Trim(s) == [] <==> AllBlank(s)
  {
    var e := TrimEnd(s);
    var r := TrimStart(e);
    TrimEndFacts(s);
    TrimStartFacts(e);
    if r == [] {
      assert AllBlank(e[..|e| - |r|]);
      assert e[..|e|] == e;
      assert s == e + s[|e|..];
    } else {
      assert r[0] == e[|e| - |r|] == s[|e| - |r|];
    }
  }

  /** Blanks on either side of a field that starts and ends with a
      non-blank character are exactly what `Trim` removes. */
  lemma TrimSurrounded(a: string, w: string, b: string)
    requires AllBlank(a) && AllBlank(b)
    requires w == [] || (!IsBlank(w[0]) && !IsBlank(w[|w| - 1]))
    ensures Trim(a + w + b) == w
  {
    TrimEndBlanks(a + w, b);
    assert TrimEnd(a + w + b) == TrimEnd(a + w);
    if w == [] {
      assert a + w == a;
      TrimEndAllBlank(a);
    } else {
      TrimEndAt(a + w);
      assert TrimEnd(a + w) == a + w;
      TrimStartBlanks(a, w);
    }
  }

  /** Trimming twice is trimming once. */
  lemma TrimIdempotent(s: string)
    ensures Trim(Trim(s)) == Trim(s)
  {
    var r := Trim(s);
    TrimEnds(s);
    assert [] + r + [] == r;
    TrimSurrounded([], r, []);
  }

  lemma {:induction false} TrimEndBlanks(s: string, b: string)
    requires AllBlank(b)
    ensures TrimEnd(s + b) == TrimEnd(s)
    decreases |b|
  {
    if b == [] {
      assert s + b == s;
    } else {
      assert (s + b)[..|s + b| - 1] == s + b[..|b| - 1];
      TrimEndBlanks(s, b[..|b| - 1]);
    }
  }

  lemma TrimEndAt(s: string)
    requires |s| > 0 && !IsBlank(s[|s| - 1])
    ensures TrimEnd(s) == s
  {
  }

  lemma {:induction false} TrimEndAllBlank(s: string)
    requires AllBlank(s)
    ensures TrimEnd(s) == []
  {
    if s != [] {
      TrimEndAllBlank(s[..|s| - 1]);
    }
  }

  lemma {:induction false} TrimStartBlanks(a: string, w: string)
    requires AllBlank(a)
    requires w == [] || !IsBlank(w[0])
    ensures TrimStart(a + w) == w
  {
    if a == [] {
      assert a + w == w;
    } else {
      assert (a + w)[1..] == a[1..] + w;
      TrimStartBlanks(a[1..], w);
    }
  }

  // ---------------------------------------------------------------------
  // Splitting at a separator

  /** No character of `s` is the separator `sep`. */
  predicate NoSep(s: string, sep: char) {
    forall i :: 0 <= i < |s| ==> s[i] != sep
  }

  /** The longest prefix of `s` that holds no `sep`. */
  function Piece(s: string, sep: char): (p: string)
    ensures |p| <= |s|
  {
    if s == [] || s[0] == sep then [] else [s[0]] + Piece(s[1..], sep)
  }

  /** The piece is a prefix free of `sep`, ended by `sep` or by the text. */
  lemma {:induction false} PieceFacts(s: string, sep: char)
    ensures Piece(s, sep) == s[..|Piece(s, sep)|]
    ensures NoSep(Piece(s, sep), sep)
    ensures |Piece(s, sep)| < |s| ==> s[|Piece(s, sep)|] == sep
  {
    if s != [] && s[0] != sep {
      PieceFacts(s[1..], sep);
      var p := Piece(s[1..], sep);
      assert Piece(s, sep) == [s[0]] + p;
      assert s[..|p| + 1] == [s[0]] + s[1..][..|p|];
    }
  }

  /** Every piece of `ps` is free of `sep`. */
  predicate AllNoSep(ps: seq<string>, sep: char) {
    forall k :: 0 <= k < |ps| ==> NoSep(ps[k], sep)
  }

  /** The text between successive separators: one piece more than there
      are separators in `s`. */
  function Pieces(s: string, sep: char): (ps: seq<string>)
    ensures |ps| > 0
    decreases |s|
  {
    var p := Piece(s, sep);
    if |p| == |s| then [s] else [p] + Pieces(s[|p| + 1..], sep)
  }

  /** No piece holds the separator. */
  lemma {:induction false} PiecesNoSep(s: string, sep: char)
    ensures AllNoSep(Pieces(s, sep), sep)
    decreases |s|
  {
    var p := Piece(s, sep);
    PieceFacts(s, sep);
    if |p| < |s| {
      var rest := s[|p| + 1..];
      PiecesNoSep(rest, sep);
      var ps := Pieces(s, sep);
      assert ps == [p] + Pieces(rest, sep);
      forall k | 0 <= k < |ps|
        ensures NoSep(ps[k], sep)
      {
        if k > 0 {
          assert ps[k] == Pieces(rest, sep)[k - 1];
        }
      }
    } else {
      assert p == s;
    }
  }

  /** Joining the pieces with the separator restores the text. */
  lemma {:induction false} JoinPieces(s: string, sep: char)
    ensures Join(Pieces(s, sep), [sep]) == s
    decreases |s|
  {
    var p := Piece(s, sep);
    PieceFacts(s, sep);
    if |p| < |s| {
      var rest := s[|p| + 1..];
      JoinPieces(rest, sep);
      assert s == p + [sep] + rest;
      assert Pieces(s, sep) == [p] + Pieces(rest, sep);
      assert |Pieces(s, sep)| > 1;
      assert Pieces(s, sep)[1..] == Pieces(rest, sep);
    }
  }

  /** Pieces that hold no separator are recovered from their join. */
  lemma {:induction false} PiecesOfJoin(ps: seq<string>, sep: char)
    requires |ps| > 0 && AllNoSep(ps, sep)
    ensures Pieces(Join(ps, [sep]), sep) == ps
  {
    if |ps| == 1 {
      PieceOfNoSep(ps[0], "", sep);
      assert ps[0] + "" == ps[0];
    } else {
      assert NoSep(ps[0], sep);
      var rest := Join(ps[1..], [sep]);
      JoinCons(ps, [sep]);
      PiecesCons(ps[0], rest, sep);
      assert AllNoSep(ps[1..], sep);
      PiecesOfJoin(ps[1..], sep);
      assert ps == [ps[0]] + ps[1..];
    }
  }

  lemma JoinCons(ws: seq<string>, sep: string)
    requires |ws| > 1
    ensures Join(ws, sep) == ws[0] + (sep + Join(ws[1..], sep))
  {
  }

  lemma PiecesCons(p: string, rest: string, sep: char)
    requires NoSep(p, sep)
    ensures Pieces(p + ([sep] + rest), sep) == [p] + Pieces(rest, sep)
  {
    var s := p + ([sep] + rest);
    PieceOfNoSep(p, [sep] + rest, sep);
    assert s[|p| + 1..] == rest;
  }

  lemma {:induction false} PieceOfNoSep(p: string, s: string, sep: char)
    requires NoSep(p, sep)
    requires s == [] || s[0] == sep
    ensures Piece(p + s, sep) == p
  {
    if p == [] {
      assert p + s == s;
    } else {
      assert (p + s)[1..] == p[1..] + s;
      PieceOfNoSep(p[1..], s, sep);
    }
  }

  /** The fields that `while (std::getline(ss, field, ','))` extracts: every
      piece, except that a last piece that is empty is not extracted. So an
      empty line has no field and a trailing ',' adds none. */
  function Fields(line: string): seq<string> {
    var ps := Pieces(line, ',');
    if ps[|ps| - 1] == "" then ps[..|ps| - 1] else ps
  }

  /** The trimmed fields of one line, as `get_record` and `get_header` add
      them to the vector. */
  function Record(line: string): (r: seq<string>)
  {
    TrimAll(Fields(line))
  }

  /** Each field trimmed, in order. */
  function TrimAll(fs: seq<string>): (r: seq<string>)
    ensures |r| == |fs|
  {
    if fs == [] then [] else [Trim(fs[0])] + TrimAll(fs[1..])
  }

  /** The `k`-th trimmed field is the `k`-th field trimmed. */
  lemma {:induction false} TrimAllAt(fs: seq<string>, k: nat)
    requires k < |fs|
    ensures TrimAll(fs)[k] == Trim(fs[k])
  {
    if k > 0 {
      TrimAllAt(fs[1..], k - 1);
    }
  }

  lemma EmptyLineHasNoFields()
    ensures Fields("") == []
    ensures Record("") == []
  {
    assert Piece("", ',') == "";
    assert Pieces("", ',') == [""];
  }

  /** A trailing ',' adds no empty field: the fields of `s + ","` are the
      pieces of `s`. */
  lemma TrailingComma(s: string)
    ensures Fields(s + ",") == Pieces(s, ',')
  {
    var ps := Pieces(s, ',');
    var qs := ps + [""];
    JoinPieces(s, ',');
    PiecesNoSep(s, ',');
    assert AllNoSep(qs, ',') by {
      forall k | 0 <= k < |qs|
        ensures NoSep(qs[k], ',')
      {
        if k < |ps| {
          assert qs[k] == ps[k];
        }
      }
    }
    PiecesOfJoin(qs, ',');
    JoinSnoc(ps, "", ",");
    assert Join(qs, ",") == s + ",";
    assert qs[..|ps|] == ps;
  }

  /** Two adjacent commas delimit an empty field. */
  lemma AdjacentCommas()
    ensures Fields("a,,b") == ["a", "", "b"]
  {
    var ps := ["a", "", "b"];
    assert AllNoSep(ps, ',');
    PiecesOfJoin(ps, ',');
    assert Join(ps, ",") == "a,,b";
  }

  /** A field that the reader gives back unchanged: no ',' in it and no
      blank at either end. */
  predicate PlainField(s: string) {
    NoSep(s, ',') && Trim(s) == s
  }

  /** A row written with ',' between fields that are trimmed, hold no ',',
      and do not end in an empty field reads back as the same fields. */
  lemma RecordOfJoin(fs: seq<string>)
    requires |fs| > 0 && fs[|fs| - 1] != ""
    requires forall k :: 0 <= k < |fs| ==> PlainField(fs[k])
    ensures Record(Join(fs, ",")) == fs
  {
    assert AllNoSep(fs, ',');
    PiecesOfJoin(fs, ',');
    FieldsOfPieces(Join(fs, ","));
    TrimAllFixed(fs);
  }

  lemma FieldsOfPieces(s: string)
    requires Pieces(s, ',')[|Pieces(s, ',')| - 1] != ""
    ensures Fields(s) == Pieces(s, ',')
  {
  }

  lemma TrimAllFixed(fs: seq<string>)
    requires forall k :: 0 <= k < |fs| ==> PlainField(fs[k])
    ensures TrimAll(fs) == fs
  {
  }

  // ---------------------------------------------------------------------
  // The reader object

  /** An open file stream positioned before line `position`; a file that
      could not be opened reads as closed. */
  class Reader {
    var lines: seq<string>
    var position: nat
    var isOpen: bool

    predicate Valid()
      reads this
    {
      position <= |lines|
    }

    /** `CSVReader(filename)`: `None` is a file that cannot be opened. */
    constructor(contents: Option<seq<string>>)
      ensures Valid()
      ensures isOpen == contents.Some? && position == 0
      ensures lines == if contents.Some? then contents.value else []
    {
      isOpen := contents.Some?;
      lines := if contents.Some? then contents.value else [];
      position := 0;
    }

    /** Whether `std::getline(file, line)` still yields a line. */
    predicate HasLine()
      reads this
    {
      isOpen && position < |lines|
    }

    /** `get_header`: appends the fields of the next line to `header`. */
    method GetHeader(header: seq<string>) returns (ok: bool, header': seq<string>)
      requires Valid()
      modifies this
      ensures Valid() && lines == old(lines) && isOpen == old(isOpen)
      ensures ok == old(HasLine())
      ensures ok ==> position == old(position) + 1 && header' == header + Record(lines[old(position)])
      ensures !ok ==> position == old(position) && header' == header
    {
      if !HasLine() {
        return false, header;
      }
      var line := lines[position];
      position := position + 1;
      header' := AppendFields(header, line);
      ok := true;
    }

    /** `get_record`: replaces `record` with the fields of the next line;
        `record` is left as it was when no line remains. */
    method GetRecord(record: seq<string>) returns (ok: bool, record': seq<string>)
      requires Valid()
      modifies this
      ensures Valid() && lines == old(lines) && isOpen == old(isOpen)
      ensures ok == old(HasLine())
      ensures ok ==> position == old(position) + 1 && record' == Record(lines[old(position)])
      ensures !ok ==> position == old(position) && record' == record
    {
      if !HasLine() {
        return false, record;
      }
      var line := lines[position];
      position := position + 1;
      record' := AppendFields([], line);
      ok := true;
    }
  }

  /** The `push_back` loop shared by both calls: the trimmed fields of
      `line`, in order, after `acc`. */
  method AppendFields(acc: seq<string>, line: string) returns (r: seq<string>)
    ensures r == acc + Record(line)
  {
    var fields := Fields(line);
    r := acc;
    var i := 0;
    while i < |fields|
      invariant 0 <= i <= |fields|
      invariant r == acc + TrimAll(fields[..i])
    {
      TrimAllStep(fields, i);
      r := r + [Trim(fields[i])];
      i := i + 1;
    }
    assert fields[..i] == fields;
  }

  lemma TrimAllStep(fs: seq<string>, i: nat)
    requires i < |fs|
    ensures TrimAll(fs[..i + 1]) == TrimAll(fs[..i]) + [Trim(fs[i])]
  {
    assert fs[..i + 1] == fs[..i] + [fs[i]];
    TrimAllSnoc(fs[..i], fs[i]);
  }

  lemma {:induction false} TrimAllSnoc(fs: seq<string>, f: string)
    ensures TrimAll(fs + [f]) == TrimAll(fs) + [Trim(f)]
  {
    if fs != [] {
      assert (fs + [f])[1..] == fs[1..] + [f];
      TrimAllSnoc(fs[1..], f);
    }
  }

  /** The records of the given lines, in order. */
  function Records(lines: seq<string>): (rs: seq<seq<string>>)
    ensures |rs| == |lines|
    ensures forall k :: 0 <= k < |rs| ==> rs[k] == Record(lines[k])
  {
    if lines == [] then [] else [Record(lines[0])] + Records(lines[1..])
  }

  lemma RecordsSnoc(lines: seq<string>, line: string)
    ensures Records(lines + [line]) == Records(lines) + [Record(line)]
  {
    assert Records(lines + [line]) == Records(lines) + [Record(line)];
  }
}
