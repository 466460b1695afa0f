/** The files the pedigree loader writes once families are assigned
    (`pedigree.info`, `pedindex.out`, `phi2` compressed to `phi2.gz`,
    `pedindex.cde` and `solar-pedigree.csv`), and the reading of
    `pedigree.info` back into a `Pedigree`. Integers are rendered as
    `operator<<` renders them and right-aligned as `std::setw` aligns
    them; the fixed seven-decimal rendering of a kinship is a parameter. */
module PedigreeOutput {
  import opened Text
  import opened CsvReader
  import opened Files
  import opened PedigreeData

  // ---------------------------------------------------------------------
  // Identifier width

  /** The narrowest identifier field the files declare. */
  const MinIdWidth := 30

  /** The identifier width: the length of the longest identifier, but at
      least 30. */
  function IdWidth(people: seq<EmpiricalPerson>): (w: int)
    ensures w >= MinIdWidth
  {
    if people == [] then MinIdWidth
    else
      var w := IdWidth(people[..|people| - 1]);
      var len := |people[|people| - 1].originalId|;
      if len > w then len else w
  }

  /** The width is the longest identifier length when that exceeds the
      minimum: no identifier is longer, and unless the width is the
      minimum some identifier has exactly that length. */
  lemma {:induction false} IdWidthIsMax(people: seq<EmpiricalPerson>)
    ensures var w := IdWidth(people);
      && (forall i :: 0 <= i < |people| ==> |people[i].originalId| <= w)
      && (w == MinIdWidth || exists i :: 0 <= i < |people| && |people[i].originalId| == w)
  {
    if people != [] {
      var init := people[..|people| - 1];
      IdWidthIsMax(init);
      assert forall i :: 0 <= i < |init| ==> init[i] == people[i];
    }
  }

  /** The `max_id_len` loop. */
  method MaxIdLength(people: seq<EmpiricalPerson>) returns (maxIdLen: int)
    ensures maxIdLen == IdWidth(people)
  {
    maxIdLen := MinIdWidth;
    for i := 0 to |people|
      invariant maxIdLen == IdWidth(people[..i])
    {
      assert people[..i + 1][..i] == people[..i];
      var len := |people[i].originalId|;
      if len > maxIdLen {
        maxIdLen := len;
      }
    }
    assert people[..|people|] == people;
  }

  // ---------------------------------------------------------------------
  // pedigree.info

  /** The statistics line "1 1 1 0 n", written for the first family and
      once more when there is more than one. */
  const StatsLine := IntsLine([1, 1, 1, 0]) + " n"

  /** The statistics that line stands for. */
  const LineStats := PedigreeStats(1, 1, 1, 0, 'n')

  /** `pedigree.info`: the source file, the field widths (identifier,
      sex, twin, household, family), the totals (pedigrees, nuclear
      families, individuals, founders, all but the individuals being the
      number of families), and one or two statistics lines. */
  function InfoLines(filename: string, width: int, nfamilies: int, n: int): seq<string> {
    [filename + " empirical", IntToString(width) + " 1 0 0 0",
     IntToString(nfamilies) + (" " + (IntToString(nfamilies) + (" " + (IntToString(n) + (" " + IntToString(nfamilies)))))),
     StatsLine]
      + (if nfamilies > 1 then [StatsLine] else [])
  }

  /** The widths line is the five widths written as integers. */
  lemma WidthsLineInts(width: int)
    ensures IntToString(width) + " 1 0 0 0" == IntsLine(InfoWidths(width))
  {
    var xs := InfoWidths(width);
    assert xs[1..] == [1, 0, 0, 0];
    assert IntsLine([1, 0, 0, 0]) == "1 0 0 0" by {
      assert IntToString(1) == "1" && IntToString(0) == "0";
      assert [0, 0, 0][1..] == [0, 0] && [0, 0][1..] == [0];
    }
  }

  /** The totals line is the four totals written as integers. */
  lemma TotalsLineInts(nfamilies: int, n: int)
    ensures IntToString(nfamilies) + (" " + (IntToString(nfamilies) + (" " + (IntToString(n) + (" " + IntToString(nfamilies))))))
      == IntsLine(InfoTotals(nfamilies, n))
  {
    var xs := InfoTotals(nfamilies, n);
    var a, b := IntToString(nfamilies), IntToString(n);
    var t1 := xs[1..];
    var t2 := t1[1..];
    assert t1 == [nfamilies, n, nfamilies] && t2 == [n, nfamilies] && t2[1..] == [nfamilies];
    assert IntsLine(t2[1..]) == a;
    var l2 := IntsLine(t2);
    assert l2 == b + " " + a;
    var l1 := IntsLine(t1);
    assert l1 == a + " " + l2;
    assert IntsLine(xs) == a + " " + l1;
    assert a + " " + (a + " " + (b + " " + a)) == a + (" " + (a + (" " + (b + (" " + a)))));
  }

  /** Second line of pedigree.info: the identifier width, then `1 0 0 0`. */
  function InfoWidths(width: int): (xs: seq<int>)
    ensures |xs| == 5 && xs[0] == width && xs[1] == 1 && xs[2] == 0 && xs[3] == 0 && xs[4] == 0
  {
    [width, 1, 0, 0, 0]
  }

  /** Third line of pedigree.info: pedigrees, families, individuals, founders. */
  function InfoTotals(nfamilies: int, n: int): (xs: seq<int>)
    ensures |xs| == 4 && xs[0] == nfamilies && xs[1] == nfamilies && xs[2] == n && xs[3] == nfamilies
  {
    [nfamilies, nfamilies, n, nfamilies]
  }

  /** `>> nfam >> nind >> nfou >> nlbrk >> inbred` on one line. */
  function ReadStatsLine(line: string): Option<PedigreeStats> {
    var ints := ReadInts(line, 4);
    if ints.None? then None
    else
      var c := ReadChar(ints.value.1);
      if c.None? then None
      else
        var xs := ints.value.0;
        Some(PedigreeStats(xs[0], xs[1], xs[2], xs[3], c.value.0))
  }

  /** The first `count` of the given lines, each read by `parse`; `None`
      when a line is missing or does not read. */
  function ParseLines<T>(parse: string -> Option<T>, lines: seq<string>, count: nat): (r: Option<seq<T>>)
    ensures r.Some? ==> |r.value| == count
  {
    if count == 0 then Some([])
    else
      var before := ParseLines(parse, lines, count - 1);
      if before.None? || |lines| < count then None
      else
        var x := parse(lines[count - 1]);
        if x.None? then None else Some(before.value + [x.value])
  }

  /** `ParseLines` succeeds exactly when each of the first `count` lines
      is there and reads, and then it holds what they read as, in order. */
  lemma {:induction false} ParseLinesMeans<T>(parse: string -> Option<T>, lines: seq<string>, count: nat)
    ensures ParseLines(parse, lines, count).Some? <==>
      count <= |lines| && forall i :: 0 <= i < count ==> parse(lines[i]).Some?
    ensures ParseLines(parse, lines, count).Some? ==>
      forall i :: 0 <= i < count ==> ParseLines(parse, lines, count).value[i] == parse(lines[i]).value
  {
    if count > 0 {
      ParseLinesMeans(parse, lines, count - 1);
    }
  }

  /** The pedigree `load_pedigree_info` builds from the lines of
      `pedigree.info`: the line of widths and the line of totals must each
      read, then as many statistics lines as the number of pedigrees the
      totals give (none when it is not positive). The first line is read
      but not used; the pedigree keeps the loader's own file name. */
  function PedigreeInfo(lines: seq<string>, filename: string): Option<Pedigree> {
    if |lines| < 3 then None
    else
      var lens := ReadInts(lines[1], 5);
      var totals := ReadInts(lines[2], 4);
      if lens.None? || totals.None? then None
      else
        var l, t := lens.value.0, totals.value.0;
        var stats := ParseLines(ReadStatsLine, lines[3..], if t[0] < 0 then 0 else t[0]);
        if stats.None? then None
        else Some(Pedigree(filename, stats.value, t[1], t[2], t[3], l[0], l[1], l[2], l[3], l[4]))
  }

  /** `load_pedigree_info`: `None` when the file cannot be opened or does
      not read. */
  method LoadPedigreeInfo(disk: Disk, filename: string, outputDir: string) returns (p: Option<Pedigree>)
    ensures var path := MakeOutputPath("pedigree.info", outputDir);
      p == if path in disk then PedigreeInfo(disk[path], filename) else None
  {
    var path := MakeOutputPath("pedigree.info", outputDir);
    var contents := ReadLines(disk, path);
    if contents.None? {
      return None;
    }
    var lines := contents.value;
    if |lines| < 3 {
      return None;
    }
    var lens := ReadInts(lines[1], 5);
    var totals := ReadInts(lines[2], 4);
    if lens.None? || totals.None? {
      return None;
    }
    var l, t := lens.value.0, totals.value.0;
    var stats := ReadCountedLines(ReadStatsLine, lines[3..], t[0]);
    if stats.None? {
      return None;
    }
    p := Some(Pedigree(filename, stats.value, t[1], t[2], t[3], l[0], l[1], l[2], l[3], l[4]));
  }

  /** The `for (i = 0; i < nped; i++)` loop over the statistics lines,
      each read by `parse`: it stops at the first line that is missing or
      does not read. */
  method ReadCountedLines<T>(parse: string -> Option<T>, lines: seq<string>, nped: int) returns (r: Option<seq<T>>)
    ensures r == ParseLines(parse, lines, if nped < 0 then 0 else nped)
  {
    ghost var count: nat := if nped < 0 then 0 else nped;
    var read: seq<T> := [];
    var i := 0;
    while i < nped
      invariant 0 <= i <= count
      invariant ParseLines(parse, lines, i) == Some(read)
    {
      if i >= |lines| {
        StaysFailed(parse, lines, i + 1, count);
        return None;
      }
      var x := parse(lines[i]);
      if x.None? {
        StaysFailed(parse, lines, i + 1, count);
        return None;
      }
      read := read + [x.value];
      i := i + 1;
    }
    return Some(read);
  }

  /** A failure at some line is a failure for every longer count. */
  lemma {:induction false} StaysFailed<T>(parse: string -> Option<T>, lines: seq<string>, k: nat, count: nat)
    requires k <= count && ParseLines(parse, lines, k).None?
    ensures ParseLines(parse, lines, count).None?
    decreases count - k
  {
    if k < count {
      StaysFailed(parse, lines, k + 1, count);
    }
  }

  /** The pedigree that `pedigree.info` as written describes: one
      statistics line per pedigree, as many pedigrees, nuclear families and
      founders as families, and the given number of individuals. */
  function WrittenPedigree(filename: string, width: int, nfamilies: nat, n: int): Pedigree {
    Pedigree(filename, WrittenStats(nfamilies), nfamilies, n, nfamilies, width, 1, 0, 0, 0)
  }

  /** `count` copies of the written statistics. */
  function WrittenStats(count: nat): (ss: seq<PedigreeStats>)
    ensures |ss| == count && forall i :: 0 <= i < count ==> ss[i] == LineStats
  {
    seq(count, _ => LineStats)
  }

  /** Reading back what the loader wrote: the file declares `nfamilies`
      pedigrees but holds at most two statistics lines, so the reload
      succeeds exactly when there are at most two families, and then gives
      the pedigree described. */
  lemma ReloadInfo(filename: string, width: int, nfamilies: nat, n: int)
    ensures PedigreeInfo(InfoLines(filename, width, nfamilies, n), filename) ==
      if nfamilies <= 2 then Some(WrittenPedigree(filename, width, nfamilies, n)) else None
  {
    InfoLinesRead(filename, width, nfamilies, n);
    ReadStatsLineWritten();
    ReloadShape(InfoLines(filename, width, nfamilies, n), filename, InfoWidths(width), InfoTotals(nfamilies, n),
                StatsLine);
  }

  /** The widths and totals lines of `pedigree.info` read back as what was
      written, and every later line is a statistics line. */
  lemma InfoLinesRead(filename: string, width: int, nfamilies: nat, n: int)
    ensures var lines := InfoLines(filename, width, nfamilies, n);
      && |lines| == (if nfamilies > 1 then 5 else 4)
      && ReadInts(lines[1], 5) == Some((InfoWidths(width), ""))
      && ReadInts(lines[2], 4) == Some((InfoTotals(nfamilies, n), ""))
      && forall k :: 3 <= k < |lines| ==> lines[k] == StatsLine
  {
    var lines := InfoLines(filename, width, nfamilies, n);
    var widths, totals := InfoWidths(width), InfoTotals(nfamilies, n);
    assert lines[1] == IntsLine(widths) by {
      WidthsLineInts(width);
    }
    assert lines[2] == IntsLine(totals) by {
      TotalsLineInts(nfamilies, n);
    }
    assert |lines| == (if nfamilies > 1 then 5 else 4) && forall k :: 3 <= k < |lines| ==> lines[k] == StatsLine;
    ReadIntsWritten(widths);
    ReadIntsWritten(totals);
  }

  /** The reload of any lines shaped like those the loader writes: widths
      and totals that read, then only statistics lines, one or two. */
  lemma ReloadShape(lines: seq<string>, filename: string, widths: seq<int>, totals: seq<int>, statsLine: string)
    requires ReadStatsLine(statsLine) == Some(LineStats)
    requires |widths| == 5 && |totals| == 4 && totals[0] >= 0
    requires |lines| == if totals[0] > 1 then 5 else 4
    requires ReadInts(lines[1], 5) == Some((widths, "")) && ReadInts(lines[2], 4) == Some((totals, ""))
    requires forall k :: 3 <= k < |lines| ==> lines[k] == statsLine
    ensures PedigreeInfo(lines, filename) ==
      if totals[0] <= 2
      then Some(Pedigree(filename, WrittenStats(totals[0]), totals[1], totals[2], totals[3],
                         widths[0], widths[1], widths[2], widths[3], widths[4]))
      else None
  {
    var nped := totals[0];
    var rest := lines[3..];
    ParseLinesMeans(ReadStatsLine, rest, nped);
    if nped <= 2 {
      assert forall i :: 0 <= i < nped ==> rest[i] == statsLine;
      assert ParseLines(ReadStatsLine, rest, nped).value == WrittenStats(nped);
    } else {
      assert |rest| < nped;
    }
  }

  /** A line of integers as `IntsLine` writes it reads back whole. */
  lemma ReadIntsWritten(xs: seq<int>)
    ensures ReadInts(IntsLine(xs), |xs|) == Some((xs, ""))
  {
    ReadIntsLine(xs, "");
    assert IntsLine(xs) + "" == IntsLine(xs);
  }

  /** The statistics line reads as the statistics it stands for. */
  lemma ReadStatsLineWritten()
    ensures ReadStatsLine(StatsLine) == Some(LineStats)
  {
    ReadIntsLine([1, 1, 1, 0], " n");
    assert SkipSpace(" n") == "n";
  }

  // ---------------------------------------------------------------------
  // pedindex.out

  /** The line for the person at index `i`: sequential id i+1, no father,
      no mother, no twin, the family and generation 1, each right-aligned,
      then the identifier after a run of spaces (21 for family 1, 25 for
      the others). */
  function PedindexLine(i: int, person: EmpiricalPerson): string {
    var spacing := Spacing(person.familyId);
    PadLeft(IntToString(i + 1), 5) + (" " + (PadLeft(IntToString(0), 5) + (" " + (PadLeft(IntToString(0), 5)
      + (" " + (PadLeft(IntToString(0), 3) + (" " + (PadLeft(IntToString(person.familyId), 5)
      + (" " + (PadLeft(IntToString(1), 5) + (spacing + person.originalId)))))))))))
  }

  /** The run of spaces before the identifier: 21 for family 1, 25 for the others. */
  function Spacing(familyId: int): (s: string)
    ensures |s| == (if familyId == 1 then 21 else 25) && AllSpace(s)
  {
    Spaces(if familyId == 1 then 21 else 25)
  }

  /** The lines of `pedindex.out`, one per person in order. */
  function PedindexLines(people: seq<EmpiricalPerson>): (lines: seq<string>)
    ensures |lines| == |people|
    ensures forall i :: 0 <= i < |people| ==> lines[i] == PedindexLine(i, people[i])
  {
    seq(|people|, i requires 0 <= i < |people| => PedindexLine(i, people[i]))
  }

  /** The whitespace tokens of a pedindex line: the six numbers, then the
      identifier when it is one word. An empty identifier leaves six
      tokens only, so such a line is not read back as a person. */
  lemma PedindexTokens(i: int, person: EmpiricalPerson)
    ensures var ts := Tokens(PedindexLine(i, person));
      var numbers := [IntToString(i + 1), "0", "0", "0", IntToString(person.familyId), "1"];
      (IsWord(person.originalId) ==> ts == numbers + [person.originalId])
        && (person.originalId == "" ==> ts == numbers)
  {
    var spacing := Spacing(person.familyId);
    var id := person.originalId;
    var tail := spacing + id;
    TokensSkipSpace(spacing, id);
    if IsWord(id) {
      TokensWordFirst(id, "");
      assert id + "" == id;
    }
    var zero, one := IntToString(0), IntToString(1);
    PedindexFieldsTokens(IntToString(i + 1), zero, zero, zero, IntToString(person.familyId), one, tail);
    assert zero == "0" && one == "1";
  }

  /** Six right-aligned words separated by spaces, then a space-led tail. */
  lemma PedindexFieldsTokens(a: string, b: string, c: string, d: string, e: string, f: string, tail: string)
    requires IsWord(a) && IsWord(b) && IsWord(c) && IsWord(d) && IsWord(e) && IsWord(f)
    requires tail == [] || IsSpace(tail[0])
    ensures Tokens(PadLeft(a, 5) + (" " + (PadLeft(b, 5) + (" " + (PadLeft(c, 5)
      + (" " + (PadLeft(d, 3) + (" " + (PadLeft(e, 5) + (" " + (PadLeft(f, 5) + tail)))))))))))
      == [a, b, c, d, e, f] + Tokens(tail)
  {
    var s5 := PadLeft(f, 5) + tail;
    TokensPadded(f, 5, tail);
    var s4 := PadLeft(e, 5) + (" " + s5);
    TokensPaddedSpace(e, 5, s5);
    var s3 := PadLeft(d, 3) + (" " + s4);
    TokensPaddedSpace(d, 3, s4);
    var s2 := PadLeft(c, 5) + (" " + s3);
    TokensPaddedSpace(c, 5, s3);
    var s1 := PadLeft(b, 5) + (" " + s2);
    TokensPaddedSpace(b, 5, s2);
    TokensPaddedSpace(a, 5, s1);
    Nest6(a, b, c, d, e, f, Tokens(tail));
  }

  lemma Nest6<T>(a: T, b: T, c: T, d: T, e: T, f: T, ts: seq<T>)
    ensures [a] + ([b] + ([c] + ([d] + ([e] + ([f] + ts))))) == [a, b, c, d, e, f] + ts
  {
  }

  /** A right-aligned word, then text that starts with a space or a
      space-led run, reads as the word and the tokens of that text. */
  lemma TokensPadded(w: string, width: nat, s: string)
    requires IsWord(w) && (s == [] || IsSpace(s[0]))
    ensures Tokens(PadLeft(w, width) + s) == [w] + Tokens(s)
  {
    var pad := if |w| < width then Spaces(width - |w|) else "";
    assert PadLeft(w, width) + s == pad + (w + s);
    TokensSkipSpace(pad, w + s);
    TokensWordFirst(w, s);
  }

  lemma TokensPaddedSpace(w: string, width: nat, s: string)
    requires IsWord(w)
    ensures Tokens(PadLeft(w, width) + (" " + s)) == [w] + Tokens(s)
  {
    TokensPadded(w, width, " " + s);
    TokensSkipSpace(" ", s);
  }

  /** The pedindex writer loop. */
  method WritePedindex(people: seq<EmpiricalPerson>) returns (lines: seq<string>)
    ensures lines == PedindexLines(people)
  {
    lines := [];
    for i := 0 to |people|
      invariant lines == PedindexLines(people[..i])
    {
      assert people[..i + 1][..i] == people[..i];
      lines := lines + [PedindexLine(i, people[i])];
    }
    assert people[..|people|] == people;
  }

  // ---------------------------------------------------------------------
  // phi2

  /** The width of the two id fields of a phi2 line. */
  const MatrixDigits := 7

  /** One phi2 line: the two sequential ids right-aligned to seven places,
      then the kinship rendered by `showKinship` (fixed, seven decimals). */
  function Phi2Line(e: KinshipEntry, showKinship: real -> string): string {
    PadLeft(IntToString(e.id1), MatrixDigits) + " " + PadLeft(IntToString(e.id2), MatrixDigits) + " "
      + showKinship(e.kinship)
  }

  /** The lines of `phi2`, one per accepted entry in order. */
  function Phi2Lines(kinships: seq<KinshipEntry>, showKinship: real -> string): (lines: seq<string>)
    ensures |lines| == |kinships|
    ensures forall j :: 0 <= j < |kinships| ==> lines[j] == Phi2Line(kinships[j], showKinship)
  {
    seq(|kinships|, j requires 0 <= j < |kinships| => Phi2Line(kinships[j], showKinship))
  }

  /** The phi2 writer loop. */
  method WritePhi2(kinships: seq<KinshipEntry>, showKinship: real -> string) returns (lines: seq<string>)
    ensures lines == Phi2Lines(kinships, showKinship)
  {
    lines := [];
    for j := 0 to |kinships|
      invariant lines == Phi2Lines(kinships[..j], showKinship)
    {
      assert kinships[..j + 1][..j] == kinships[..j];
      lines := lines + [Phi2Line(kinships[j], showKinship)];
    }
    assert kinships[..|kinships|] == kinships;
  }

  // ---------------------------------------------------------------------
  // pedindex.cde and solar-pedigree.csv

  /** The fixed part of `pedindex.cde`: the file it describes and the
      width, name and type of each numeric field of a pedindex line. */
  const CdeFixed: seq<string> := [
    "pedindex.out                                          ",
    " 5 IBDID                 IBDID                       I",
    " 1 BLANK                 BLANK                       C",
    " 5 FATHER'S IBDID        FIBDID                      I",
    " 1 BLANK                 BLANK                       C",
    " 5 MOTHER'S IBDID        MIBDID                      I",
    " 1 BLANK                 BLANK                       C",
    " 3 MZTWIN                MZTWIN                      I",
    " 1 BLANK                 BLANK                       C",
    " 5 PEDIGREE NUMBER       PEDNO                       I",
    " 1 BLANK                 BLANK                       C",
    " 5 GENERATION NUMBER     GEN                         I",
    " 1 BLANK                 BLANK                       C"]

  /** `pedindex.cde`: the fixed lines and the identifier field, whose
      width is the identifier width. */
  function CdeLines(width: int): seq<string> {
    CdeFixed + [PadLeft(IntToString(width), 2) + CdeIdField]
  }

  const CdeIdField := " " + "ID                    ID                          C"

  /** The last line of `pedindex.cde` starts with the identifier width. */
  lemma CdeWidth(width: int)
    ensures var lines := CdeLines(width);
      |lines| == 14 && |Tokens(lines[13])| > 0 && Tokens(lines[13])[0] == IntToString(width)
  {
    TokensPadded(IntToString(width), 2, CdeIdField);
  }

  /** `solar-pedigree.csv`: every individual counts as a founder, and
      there are as many pedigrees and nuclear families as families. */
  function SummaryLines(filename: string, n: int, nfamilies: int): seq<string> {
    [ExportHeader, Join(SummaryFields(filename, n, nfamilies), ",")]
  }

  function SummaryFields(filename: string, n: int, nfamilies: int): seq<string> {
    [filename, IntToString(n), IntToString(nfamilies), IntToString(nfamilies), IntToString(n)]
  }

  /** The summary file has the layout `export_to_csv` writes for the
      pedigree read back from pedigree.info, but its founders column
      counts every individual where pedigree.info counts one founder per
      family: the two files agree exactly when there are as many
      individuals as families. */
  lemma SummaryAgreesWithExport(filename: string, width: int, nfamilies: nat, n: int)
    ensures SummaryLines(filename, n, nfamilies) == WrittenPedigree(filename, width, nfamilies, n).ExportLines()
        <==> n == nfamilies
  {
    var p := WrittenPedigree(filename, width, nfamilies, n);
    var a, b := SummaryFields(filename, n, nfamilies), p.ExportFields();
    assert p.NumPedigrees() == nfamilies;
    assert b == [filename, IntToString(n), IntToString(nfamilies), IntToString(nfamilies), IntToString(nfamilies)];
    if Join(a, ",") == Join(b, ",") {
      var head := filename + ",";
      assert Join(a, ",") == head + Join(a[1..], ",");
      assert Join(b, ",") == head + Join(b[1..], ",");
      assert Join(a[1..], ",") == Join(b[1..], ",") by {
        assert (head + Join(a[1..], ","))[|head|..] == Join(a[1..], ",");
        assert (head + Join(b[1..], ","))[|head|..] == Join(b[1..], ",");
      }
      TotalsPlain(a[1..]);
      TotalsPlain(b[1..]);
      RecordOfJoin(a[1..]);
      RecordOfJoin(b[1..]);
      assert a[4] == b[4];
      ReadIntToString(n, "");
      ReadIntToString(nfamilies, "");
      assert IntToString(n) + "" == IntToString(n) && IntToString(nfamilies) + "" == IntToString(nfamilies);
    }
  }

  /** Rendered integers are plain CSV fields, and never empty. */
  lemma TotalsPlain(fs: seq<string>)
    requires |fs| == 4 && forall k :: 0 <= k < 4 ==> exists i :: fs[k] == IntToString(i)
    ensures fs[3] != "" && forall k :: 0 <= k < 4 ==> PlainField(fs[k])
  {
    forall k | 0 <= k < 4
      ensures PlainField(fs[k])
    {
      var i :| fs[k] == IntToString(i);
      IntField(i);
    }
  }

  // ---------------------------------------------------------------------
  // All the files

  /** The output paths of the five files, in the output directory. */
  function InfoPath(outputDir: string): string { MakeOutputPath("pedigree.info", outputDir) }
  function PedindexPath(outputDir: string): string { MakeOutputPath("pedindex.out", outputDir) }
  function Phi2Path(outputDir: string): string { MakeOutputPath("phi2", outputDir) }
  function Phi2GzPath(outputDir: string): string { MakeOutputPath("phi2.gz", outputDir) }
  function CdePath(outputDir: string): string { MakeOutputPath("pedindex.cde", outputDir) }
  function SummaryPath(outputDir: string): string { MakeOutputPath("solar-pedigree.csv", outputDir) }

  /** `gzip -f path`: the file moves to `path.gz` (its lines unchanged as
      `gzgets` reads them back) and the uncompressed file is removed. */
  function Gzip(disk: Disk, path: string, gzPath: string): Disk
    requires path in disk
  {
    (disk - {path})[gzPath := disk[path]]
  }

  /** The six paths the loader writes or removes. */
  datatype OutputPathSet = OutputPathSet(info: string, pedindex: string, phi2: string, phi2Gz: string,
                                         cde: string, summary: string)
  {
    predicate Distinct() {
      && info != pedindex && info != phi2 && info != phi2Gz && info != cde && info != summary
      && pedindex != phi2 && pedindex != phi2Gz && pedindex != cde && pedindex != summary
      && phi2 != phi2Gz && phi2 != cde && phi2 != summary
      && phi2Gz != cde && phi2Gz != summary
      && cde != summary
    }

    function Paths(): set<string> {
      {info, pedindex, phi2, phi2Gz, cde, summary}
    }
  }

  function OutputPathsIn(outputDir: string): OutputPathSet {
    OutputPathSet(InfoPath(outputDir), PedindexPath(outputDir), Phi2Path(outputDir), Phi2GzPath(outputDir),
                  CdePath(outputDir), SummaryPath(outputDir))
  }

  /** The six file names are different, so their paths in one directory are too. */
  lemma OutputPathsInDistinct(outputDir: string)
    ensures OutputPathsIn(outputDir).Distinct()
  {
    InfoPathDistinct(outputDir);
    PedindexPathDistinct(outputDir);
    OutputPathsDistinct("phi2", "phi2.gz", outputDir);
    OutputPathsDistinct("phi2", "pedindex.cde", outputDir);
    OutputPathsDistinct("phi2", "solar-pedigree.csv", outputDir);
    OutputPathsDistinct("phi2.gz", "pedindex.cde", outputDir);
    OutputPathsDistinct("phi2.gz", "solar-pedigree.csv", outputDir);
    OutputPathsDistinct("pedindex.cde", "solar-pedigree.csv", outputDir);
  }

  lemma InfoPathDistinct(outputDir: string)
    ensures var ps := OutputPathsIn(outputDir);
      ps.info != ps.pedindex && ps.info != ps.phi2 && ps.info != ps.phi2Gz && ps.info != ps.cde && ps.info != ps.summary
  {
    OutputPathsDistinct("pedigree.info", "pedindex.out", outputDir);
    OutputPathsDistinct("pedigree.info", "phi2", outputDir);
    OutputPathsDistinct("pedigree.info", "phi2.gz", outputDir);
    OutputPathsDistinct("pedigree.info", "pedindex.cde", outputDir);
    OutputPathsDistinct("pedigree.info", "solar-pedigree.csv", outputDir);
  }

  lemma PedindexPathDistinct(outputDir: string)
    ensures var ps := OutputPathsIn(outputDir);
      ps.pedindex != ps.phi2 && ps.pedindex != ps.phi2Gz && ps.pedindex != ps.cde && ps.pedindex != ps.summary
  {
    OutputPathsDistinct("pedindex.out", "phi2", outputDir);
    OutputPathsDistinct("pedindex.out", "phi2.gz", outputDir);
    OutputPathsDistinct("pedindex.out", "pedindex.cde", outputDir);
    OutputPathsDistinct("pedindex.out", "solar-pedigree.csv", outputDir);
  }

  /** The writes of `create_output_files` in order: pedigree.info,
      pedindex.out and phi2, the gzip of phi2, pedindex.cde and the
      summary. */
  function WriteFiles(disk: Disk, ps: OutputPathSet, info: seq<string>, pedindex: seq<string>,
                      phi2: seq<string>, cde: seq<string>, summary: seq<string>): Disk
  {
    var d3 := disk[ps.info := info][ps.pedindex := pedindex][ps.phi2 := phi2];
    Gzip(d3, ps.phi2, ps.phi2Gz)[ps.cde := cde][ps.summary := summary]
  }

  /** With six distinct paths, every file lands at its own path, the
      uncompressed phi2 is gone and every other file is as it was. */
  lemma WriteFilesContents(disk: Disk, ps: OutputPathSet, info: seq<string>, pedindex: seq<string>,
                           phi2: seq<string>, cde: seq<string>, summary: seq<string>)
    requires ps.Distinct()
    ensures var d := WriteFiles(disk, ps, info, pedindex, phi2, cde, summary);
      && d.Keys == (disk.Keys - {ps.phi2}) + {ps.info, ps.pedindex, ps.phi2Gz, ps.cde, ps.summary}
      && ps.info in d && d[ps.info] == info && ps.pedindex in d && d[ps.pedindex] == pedindex
      && ps.phi2Gz in d && d[ps.phi2Gz] == phi2 && ps.cde in d && d[ps.cde] == cde
      && ps.summary in d && d[ps.summary] == summary
      && forall path :: path in disk && path !in ps.Paths() ==> path in d && d[path] == disk[path]
  {
  }

  /** The disk after `create_output_files`, given the identifier width
      (`IdWidth(people)`, as the writer computes it). */
  function OutputFiles(disk: Disk, filename: string, outputDir: string, people: seq<EmpiricalPerson>,
                       kinships: seq<KinshipEntry>, nfamilies: int, width: int, showKinship: real -> string): Disk
  {
    WriteFiles(disk, OutputPathsIn(outputDir), InfoLines(filename, width, nfamilies, |people|), PedindexLines(people),
               Phi2Lines(kinships, showKinship), CdeLines(width), SummaryLines(filename, |people|, nfamilies))
  }

  /** After the files are written, pedigree.info holds the info lines. */
  lemma OutputFilesInfo(disk: Disk, filename: string, outputDir: string, people: seq<EmpiricalPerson>,
                             kinships: seq<KinshipEntry>, nfamilies: int, width: int, showKinship: real -> string)
    ensures var d := OutputFiles(disk, filename, outputDir, people, kinships, nfamilies, width, showKinship);
      InfoPath(outputDir) in d && d[InfoPath(outputDir)] == InfoLines(filename, width, nfamilies, |people|)
  {
    OutputPathsInDistinct(outputDir);
    WriteFilesContents(disk, OutputPathsIn(outputDir), InfoLines(filename, width, nfamilies, |people|),
                       PedindexLines(people), Phi2Lines(kinships, showKinship), CdeLines(width),
                       SummaryLines(filename, |people|, nfamilies));
  }

  /** After the files are written, the other four output paths hold their
      files: pedindex.out, the compressed phi2, pedindex.cde and the summary. */
  lemma OutputFilesWritten(disk: Disk, filename: string, outputDir: string, people: seq<EmpiricalPerson>,
                             kinships: seq<KinshipEntry>, nfamilies: int, width: int, showKinship: real -> string)
    ensures var d := OutputFiles(disk, filename, outputDir, people, kinships, nfamilies, width, showKinship);
      var ps := OutputPathsIn(outputDir);
      && ps.pedindex in d && d[ps.pedindex] == PedindexLines(people)
      && ps.phi2Gz in d && d[ps.phi2Gz] == Phi2Lines(kinships, showKinship)
      && ps.cde in d && d[ps.cde] == CdeLines(width)
      && ps.summary in d && d[ps.summary] == SummaryLines(filename, |people|, nfamilies)
  {
    OutputPathsInDistinct(outputDir);
    WriteFilesContents(disk, OutputPathsIn(outputDir), InfoLines(filename, width, nfamilies, |people|),
                       PedindexLines(people), Phi2Lines(kinships, showKinship), CdeLines(width),
                       SummaryLines(filename, |people|, nfamilies));
  }

  /** Whatever the files hold, writing them in the output directory
      leaves the old files without the uncompressed phi2 and with the
      five outputs, and every file that is not an output as it was. */
  lemma OutputFilesKept(disk: Disk, outputDir: string, info: seq<string>, pedindex: seq<string>,
                        phi2: seq<string>, cde: seq<string>, summary: seq<string>)
    ensures var d := WriteFiles(disk, OutputPathsIn(outputDir), info, pedindex, phi2, cde, summary);
      var ps := OutputPathsIn(outputDir);
      && d.Keys == (disk.Keys - {ps.phi2}) + {ps.info, ps.pedindex, ps.phi2Gz, ps.cde, ps.summary}
      && ps.phi2 !in d
      && forall path :: path in disk && path !in ps.Paths() ==> path in d && d[path] == disk[path]
  {
    OutputPathsInDistinct(outputDir);
    WriteFilesContents(disk, OutputPathsIn(outputDir), info, pedindex, phi2, cde, summary);
  }

  /** `create_output_files`. Opening each file for writing and running
      `gzip` are taken to succeed. */
  method CreateOutputFiles(disk: Disk, filename: string, outputDir: string, people: seq<EmpiricalPerson>,
                           kinships: seq<KinshipEntry>, nfamilies: int, showKinship: real -> string)
      returns (disk': Disk)
    ensures disk' == OutputFiles(disk, filename, outputDir, people, kinships, nfamilies, IdWidth(people), showKinship)
  {
    var ps := OutputPathsIn(outputDir);
    var maxIdLen := MaxIdLength(people);
    disk' := disk[ps.info := InfoLines(filename, maxIdLen, nfamilies, |people|)];
    var pedindex := WritePedindex(people);
    disk' := disk'[ps.pedindex := pedindex];
    var phi2 := WritePhi2(kinships, showKinship);
    disk' := disk'[ps.phi2 := phi2];
    disk' := Gzip(disk', ps.phi2, ps.phi2Gz);
    disk' := disk'[ps.cde := CdeLines(maxIdLen)];
    disk' := disk'[ps.summary := SummaryLines(filename, |people|, nfamilies)];
  }

  // ---------------------------------------------------------------------
  // Output paths

  /** `make_output_path`: the name itself when the directory is empty,
      otherwise the directory and the name with one '/' between them,
      added only when the directory does not already end with one. */
  function MakeOutputPath(filename: string, outputDir: string): (path: string)
    ensures outputDir == "" ==> path == filename
    ensures outputDir != "" && outputDir[|outputDir| - 1] == '/' ==> path == outputDir + filename
    ensures outputDir != "" && outputDir[|outputDir| - 1] != '/' ==> path == outputDir + "/" + filename
  {
    if outputDir == "" then filename
    else
      var dir := if outputDir[|outputDir| - 1] != '/' then outputDir + "/" else outputDir;
      dir + filename
  }

  /** Different names give different paths in the same directory, so the
      files the loader writes never overwrite each other. */
  lemma OutputPathsDistinct(a: string, b: string, outputDir: string)
    requires a != b
    ensures MakeOutputPath(a, outputDir) != MakeOutputPath(b, outputDir)
  {
    var d := if outputDir == "" then ""
      else if outputDir[|outputDir| - 1] == '/' then outputDir
      else outputDir + "/";
    assert MakeOutputPath(a, outputDir) == d + a && (d + a)[|d|..] == a;
    assert MakeOutputPath(b, outputDir) == d + b && (d + b)[|d|..] == b;
  }

  /** The EVD stage looks for the pedigree files in the directory part of
      the output basename. With a basename `name` placed in the loader's
      output directory, that finds each file the loader wrote, for every
      output directory except the root "/" (whose directory part is "",
      so the files are looked up in the working directory instead). */
  lemma OutputPathFound(base: string, file: string, outputDir: string)
    requires NoSeparator(base)
    ensures InDirectory(DirectoryOf(MakeOutputPath(base, outputDir)), file) == MakeOutputPath(file, outputDir)
        <==> outputDir != "/"
  {
    var path := MakeOutputPath(base, outputDir);
    if outputDir == "" {
      assert DirectoryOf(path) == "";
    } else if outputDir[|outputDir| - 1] == '/' {
      var dir := outputDir[..|outputDir| - 1];
      assert path == dir + ['/'] + base;
      DirectoryOfSplit(dir, '/', base);
      if outputDir == "/" {
        assert dir == "";
        assert |InDirectory("", file)| < |MakeOutputPath(file, outputDir)|;
      } else {
        assert dir + "/" + file == outputDir + file;
      }
    } else {
      assert path == outputDir + ['/'] + base;
      DirectoryOfSplit(outputDir, '/', base);
    }
  }
}
