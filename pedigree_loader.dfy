/** The pedigree loader: it reads a comma-separated file of kinship pairs
    (two identifier columns and a kinship column), numbers the distinct
    identifiers in first-seen order, keeps the pairs the threshold accepts,
    groups the persons into families (the connected components of the
    accepted pairs), writes the pedigree files the later stages read, and
    reads the summary `pedigree.info` back into a `Pedigree`. */
module PedigreeLoader {
  import opened Text
  import opened Files
  import opened CsvReader
  import opened PedigreeData
  import opened Families
  import opened PedigreeOutput

  // ---------------------------------------------------------------------
  // Header resolution

  /** A header naming an identifier column: lower-cased, it starts with "id". */
  predicate IsIdHeader(h: string) {
    StartsWith(ToLower(h), "id")
  }

  /** A header naming the kinship column: lower-cased, it is "kin". */
  predicate IsKinHeader(h: string) {
    ToLower(h) == "kin"
  }

  /** The header match ignores case: an identifier header starts with "i"
      or "I", then "d" or "D"; the kinship header is "kin" in any case. */
  lemma HeaderCase(h: string)
    ensures IsIdHeader(h) <==> |h| >= 2 && h[0] in "iI" && h[1] in "dD"
    ensures IsKinHeader(h) <==> |h| == 3 && h[0] in "kK" && h[1] in "iI" && h[2] in "nN"
  {
    var l := ToLower(h);
    if |h| >= 2 {
      assert l[..2] == [LowerChar(h[0]), LowerChar(h[1])];
    }
    if |h| == 3 {
      assert l == [LowerChar(h[0]), LowerChar(h[1]), LowerChar(h[2])];
    }
  }

  /** The number of identifier headers. */
  function IdCount(header: seq<string>): nat {
    if header == [] then 0
    else IdCount(header[..|header| - 1]) + if IsIdHeader(header[|header| - 1]) then 1 else 0
  }

  /** Whether some header is the kinship header. */
  function HasKin(header: seq<string>): bool {
    header != [] && (HasKin(header[..|header| - 1]) || IsKinHeader(header[|header| - 1]))
  }

  /** A header line that names two identifier columns and a kinship column. */
  predicate EmpiricalHeader(header: seq<string>) {
    IdCount(header) >= 2 && HasKin(header)
  }

  lemma {:induction false} HasKinMeans(header: seq<string>)
    ensures HasKin(header) <==> exists i :: 0 <= i < |header| && IsKinHeader(header[i])
  {
    if header != [] {
      var init := header[..|header| - 1];
      HasKinMeans(init);
      if exists i :: 0 <= i < |init| && IsKinHeader(init[i]) {
        var i :| 0 <= i < |init| && IsKinHeader(init[i]);
        assert header[i] == init[i];
      }
      if exists i :: 0 <= i < |header| && IsKinHeader(header[i]) {
        var i :| 0 <= i < |header| && IsKinHeader(header[i]);
        if i < |init| {
          assert init[i] == header[i];
        }
      }
    }
  }

  /** The column numbers of the first and second identifier and of the
      kinship column, -1 for a column not found. */
  datatype Columns = Columns(ida: int, idb: int, kin: int)

  /** The columns the resolution loop settles on after the given headers:
      an identifier header fills the first empty identifier slot (a third
      one is passed over), a kinship header replaces the kinship column. */
  function ColumnsOf(header: seq<string>): (c: Columns)
    ensures -1 <= c.ida < |header| && -1 <= c.idb < |header| && -1 <= c.kin < |header|
  {
    if header == [] then Columns(-1, -1, -1)
    else
      var c := ColumnsOf(header[..|header| - 1]);
      var i := |header| - 1;
      if IsIdHeader(header[i]) then
        if c.ida == -1 then c.(ida := i)
        else if c.idb == -1 then c.(idb := i)
        else c
      else if IsKinHeader(header[i]) then c.(kin := i)
      else c
  }

  /** The kinship header is never an identifier header, so the `else if`
      of the loop sees every kinship header. */
  lemma KinIsNotId(h: string)
    requires IsKinHeader(h)
    ensures !IsIdHeader(h)
  {
    assert ToLower(h)[..2] == "ki";
  }

  /** IDA is the first identifier header. */
  lemma {:induction false} FirstIdColumn(header: seq<string>)
    ensures ColumnsOf(header).ida == -1 <==> IdCount(header) == 0
    ensures ColumnsOf(header).ida != -1 ==>
      var a := ColumnsOf(header).ida;
      0 <= a < |header| && IsIdHeader(header[a]) && IdCount(header[..a]) == 0
  {
    if header != [] {
      var init := header[..|header| - 1];
      FirstIdColumn(init);
      var a := ColumnsOf(init).ida;
      if a != -1 {
        assert header[..a] == init[..a];
      } else if IsIdHeader(header[|header| - 1]) {
        assert header[..|header| - 1] == init;
      }
    }
  }

  /** IDB is the second identifier header. */
  lemma {:induction false} SecondIdColumn(header: seq<string>)
    ensures ColumnsOf(header).idb == -1 <==> IdCount(header) <= 1
    ensures ColumnsOf(header).idb != -1 ==>
      var b := ColumnsOf(header).idb;
      0 <= ColumnsOf(header).ida < b < |header| && IsIdHeader(header[b]) && IdCount(header[..b]) == 1
  {
    if header != [] {
      var init := header[..|header| - 1];
      SecondIdColumn(init);
      FirstIdColumn(init);
      var b := ColumnsOf(init).idb;
      if b != -1 {
        assert header[..b] == init[..b];
      } else if IsIdHeader(header[|header| - 1]) && ColumnsOf(init).ida != -1 {
        assert header[..|header| - 1] == init;
      }
    }
  }

  /** KIN is the last kinship header. */
  lemma {:induction false} KinColumn(header: seq<string>)
    ensures ColumnsOf(header).kin == -1 <==> !HasKin(header)
    ensures ColumnsOf(header).kin != -1 ==>
      var k := ColumnsOf(header).kin;
      0 <= k < |header| && IsKinHeader(header[k])
        && forall i :: k < i < |header| ==> !IsKinHeader(header[i])
  {
    if header != [] {
      var init := header[..|header| - 1];
      KinColumn(init);
      var last := header[|header| - 1];
      if IsKinHeader(last) {
        KinIsNotId(last);
      } else {
        assert forall i :: 0 <= i < |init| ==> init[i] == header[i];
      }
    }
  }

  /** The loader and the format test accept the same headers: all three
      columns are found exactly when the header is empirical. */
  lemma SameHeaderSets(header: seq<string>)
    ensures var c := ColumnsOf(header);
      (c.ida != -1 && c.idb != -1 && c.kin != -1) <==> EmpiricalHeader(header)
  {
    FirstIdColumn(header);
    SecondIdColumn(header);
    KinColumn(header);
  }

  /** The resolution loop of `load_empirical_pedigree`. */
  method ResolveColumns(header: seq<string>) returns (c: Columns)
    ensures c == ColumnsOf(header)
  {
    c := Columns(-1, -1, -1);
    for col := 0 to |header|
      invariant c == ColumnsOf(header[..col])
    {
      assert header[..col + 1][..col] == header[..col];
      var lower := ToLower(header[col]);
      if StartsWith(lower, "id") {
        if c.ida == -1 {
          c := c.(ida := col);
        } else if c.idb == -1 {
          c := c.(idb := col);
        }
      } else if lower == "kin" {
        c := c.(kin := col);
      }
    }
    assert header[..|header|] == header;
  }

  /** The flag loop of `is_empirical_format`. */
  method HasEmpiricalColumns(header: seq<string>) returns (r: bool)
    ensures r <==> EmpiricalHeader(header)
  {
    var hasIda, hasIdb, hasKin := false, false, false;
    for i := 0 to |header|
      invariant hasIda <==> IdCount(header[..i]) >= 1
      invariant hasIdb <==> IdCount(header[..i]) >= 2
      invariant hasKin <==> HasKin(header[..i])
    {
      assert header[..i + 1][..i] == header[..i];
      if IsKinHeader(header[i]) {
        KinIsNotId(header[i]);
      }
      var lower := ToLower(header[i]);
      if StartsWith(lower, "id") {
        if !hasIda {
          hasIda := true;
        } else if !hasIdb {
          hasIdb := true;
        }
      } else if lower == "kin" {
        hasKin := true;
      }
    }
    assert header[..|header|] == header;
    r := hasIda && hasIdb && hasKin;
  }

  /** The header fields of the file, or `None` when it cannot be opened or
      holds no line. */
  function HeaderOf(disk: Disk, filename: string): (h: Option<seq<string>>)
    ensures h.Some? <==> filename in disk && |disk[filename]| > 0
  {
    if filename in disk && |disk[filename]| > 0 then Some(Record(disk[filename][0])) else None
  }

  /** `is_empirical_format`: the first line of the file can be read and
      names two identifier columns and a kinship column. */
  method IsEmpiricalFormat(disk: Disk, filename: string) returns (r: bool)
    ensures r <==> HeaderOf(disk, filename).Some? && EmpiricalHeader(HeaderOf(disk, filename).value)
  {
    var reader := new Reader(ReadLines(disk, filename));
    var ok, header := reader.GetHeader([]);
    if !ok {
      return false;
    }
    assert header == Record(disk[filename][0]);
    r := HasEmpiricalColumns(header);
  }

  // ---------------------------------------------------------------------
  // Interning and the threshold rule

  /** The identifiers of the persons, in order. */
  function Ids(people: seq<EmpiricalPerson>): (ids: seq<string>)
    ensures |ids| == |people|
    ensures forall i :: 0 <= i < |people| ==> ids[i] == people[i].originalId
  {
    seq(|people|, i requires 0 <= i < |people| => people[i].originalId)
  }

  /** The persons the record loop builds for the identifiers: the i-th
      has sequential id i+1 and no family yet. */
  function Roster(ids: seq<string>): (people: seq<EmpiricalPerson>)
    ensures |people| == |ids|
    ensures forall i :: 0 <= i < |ids| ==> people[i] == EmpiricalPerson(ids[i], i + 1, 0)
  {
    seq(|ids|, i requires 0 <= i < |ids| => EmpiricalPerson(ids[i], i + 1, 0))
  }

  predicate Distinct(ids: seq<string>) {
    forall i, j :: 0 <= i < j < |ids| ==> ids[i] != ids[j]
  }

  /** "Find or add": the identifiers unchanged when `x` is among them,
      otherwise with `x` added at the end. */
  function Added(ids: seq<string>, x: string): (r: seq<string>)
    ensures x in r
  {
    if x in ids then ids else ids + [x]
  }

  /** The find loop: the position of the first person with the identifier,
      or -1. */
  method FindPerson(people: seq<EmpiricalPerson>, id: string) returns (index: int)
    ensures index == if id in Ids(people) then IndexOf(Ids(people), id) else -1
  {
    var i := 0;
    while i < |people|
      invariant 0 <= i <= |people|
      invariant forall k :: 0 <= k < i ==> people[k].originalId != id
    {
      if people[i].originalId == id {
        assert Ids(people)[i] == id;
        return i;
      }
      i := i + 1;
    }
    assert id !in Ids(people);
    return -1;
  }

  lemma IdsOfRoster(ids: seq<string>)
    ensures Ids(Roster(ids)) == ids
  {
  }

  /** "Find or add IDA" (and IDB) on the persons of `ids`: the persons
      of the identifiers after interning, and the position of `id`. */
  method InternPerson(people: seq<EmpiricalPerson>, ghost ids: seq<string>, id: string)
      returns (people': seq<EmpiricalPerson>, index: int)
    requires people == Roster(ids)
    ensures people' == Roster(Added(ids, id))
    ensures index == IndexOf(Added(ids, id), id) < |people'|
  {
    IdsOfRoster(ids);
    index := FindPerson(people, id);
    people' := people;
    if index == -1 {
      var person := EmpiricalPerson(id, |people| + 1, 0);
      index := |people|;
      people' := people + [person];
      IndexOfAppend(ids, [id], id);
      assert people' == Roster(ids + [id]);
    }
  }

  /** The largest column the three columns name. */
  function MaxColumn(c: Columns): int {
    if c.ida >= c.idb && c.ida >= c.kin then c.ida
    else if c.idb >= c.kin then c.idb
    else c.kin
  }

  predicate Resolved(c: Columns) {
    c.ida >= 0 && c.idb >= 0 && c.kin >= 0
  }

  /** The threshold test: a zero threshold keeps positive kinships, any
      other keeps kinships at or above it. */
  predicate PassesThreshold(threshold: real, kinship: real) {
    if threshold == 0.0 then kinship > 0.0 else kinship >= threshold
  }

  /** The identifiers, in sequential-id order, and the accepted kinship
      entries read so far. */
  datatype Tables = Tables(ids: seq<string>, kinships: seq<KinshipEntry>)

  /** A record with identifiers `a`, `b` and kinship `k`: both are
      interned, IDA first, and the entry is kept when it passes the
      threshold or the two are one person. Sequential ids are positions
      plus one. */
  function Admit(t: Tables, a: string, b: string, k: real, threshold: real): Tables {
    var ids := Added(Added(t.ids, a), b);
    Tables(ids, Kept(t.kinships, IndexOf(ids, a), IndexOf(ids, b), k, threshold))
  }

  /** The entries after the threshold rule for a pair at positions `ia`
      and `ib`. */
  function Kept(kinships: seq<KinshipEntry>, ia: nat, ib: nat, k: real, threshold: real): seq<KinshipEntry> {
    if PassesThreshold(threshold, k) || ia == ib
    then kinships + [KinshipEntry(ia + 1, ib + 1, k)]
    else kinships
  }

  /** A record as the loop reads it: `None` for a record with too few
      fields, otherwise its two identifiers and its kinship, which is
      `None` when `std::stod` throws (the kinship field does not start
      with a number). */
  datatype Row = Row(a: string, b: string, kinship: Option<real>)

  function ParseRow(fields: seq<string>, c: Columns): Option<Row>
    requires Resolved(c)
  {
    if |fields| <= MaxColumn(c) then None
    else Some(Row(fields[c.ida], fields[c.idb], ParseReal(fields[c.kin])))
  }

  /** The rows of the records, in file order. */
  function Rows(records: seq<seq<string>>, c: Columns): (rows: seq<Option<Row>>)
    requires Resolved(c)
    ensures |rows| == |records|
    ensures forall k :: 0 <= k < |records| ==> rows[k] == ParseRow(records[k], c)
  {
    seq(|records|, k requires 0 <= k < |records| => ParseRow(records[k], c))
  }

  lemma RowsSnoc(records: seq<seq<string>>, fields: seq<string>, c: Columns)
    requires Resolved(c)
    ensures Rows(records + [fields], c) == Rows(records, c) + [ParseRow(fields, c)]
  {
    assert Rows(records + [fields], c) == Rows(records, c) + [ParseRow(fields, c)];
  }

  /** One pass of the record loop. A short record changes nothing. `None`
      is the exception of `std::stod`: nothing catches it, so it ends the
      whole load. */
  function AddRow(t: Tables, row: Option<Row>, threshold: real): Option<Tables> {
    if row.None? then Some(t)
    else if row.value.kinship.None? then None
    else Some(Admit(t, row.value.a, row.value.b, row.value.kinship.value, threshold))
  }

  /** The record loop over the given rows, in file order. */
  function LoadRows(rows: seq<Option<Row>>, threshold: real): Option<Tables> {
    if rows == [] then Some(Tables([], []))
    else
      var before := LoadRows(rows[..|rows| - 1], threshold);
      if before.None? then None else AddRow(before.value, rows[|rows| - 1], threshold)
  }

  /** Every kept entry passed the rule: self-pairs always, other pairs by
      the threshold test. */
  predicate EntriesAccepted(kinships: seq<KinshipEntry>, threshold: real) {
    forall j :: 0 <= j < |kinships| ==>
      PassesThreshold(threshold, kinships[j].kinship) || kinships[j].id1 == kinships[j].id2
  }

  /** What the record loop keeps true of its tables. */
  predicate WellFormed(t: Tables, threshold: real) {
    Distinct(t.ids) && EntriesInRange(t.kinships, |t.ids|) && EntriesAccepted(t.kinships, threshold)
  }

  lemma AddedDistinct(ids: seq<string>, x: string)
    requires Distinct(ids)
    ensures Distinct(Added(ids, x))
  {
  }

  /** The interned identifiers of one record: both are present, and their
      positions agree exactly when the identifiers do. */
  lemma AdmitPositions(ids: seq<string>, a: string, b: string)
    ensures var q := Added(Added(ids, a), b);
      IndexOf(q, a) < |q| && IndexOf(q, b) < |q| && (IndexOf(q, a) == IndexOf(q, b) <==> a == b)
  {
    var p := Added(ids, a);
    assert a in Added(p, b);
  }

  /** What one record with identifiers `a`, `b` and kinship `k` does:
      one entry joining their sequential ids is appended exactly when the
      pair is a self-pair or passes the threshold, and nothing else
      changes among the entries. */
  lemma AdmitEffect(t: Tables, a: string, b: string, k: real, threshold: real)
    ensures var u := Admit(t, a, b, k, threshold);
      var n := |t.kinships|;
      a in u.ids && b in u.ids
        && n <= |u.kinships| <= n + 1 && u.kinships[..n] == t.kinships
        && (|u.kinships| == n + 1 <==> PassesThreshold(threshold, k) || a == b)
        && (|u.kinships| == n + 1 ==>
              u.kinships[n] == KinshipEntry(IndexOf(u.ids, a) + 1, IndexOf(u.ids, b) + 1, k))
  {
    AdmitPositions(t.ids, a, b);
  }

  /** One record keeps the tables well formed. */
  lemma AdmitKeeps(t: Tables, a: string, b: string, k: real, threshold: real)
    requires WellFormed(t, threshold)
    ensures WellFormed(Admit(t, a, b, k, threshold), threshold)
  {
    AddedDistinct(t.ids, a);
    AddedDistinct(Added(t.ids, a), b);
    AdmitPositions(t.ids, a, b);
    var u := Admit(t, a, b, k, threshold);
    assert |u.ids| >= |t.ids|;
    assert forall j :: 0 <= j < |t.kinships| ==> u.kinships[j] == t.kinships[j];
  }

  /** A record with at most as many fields as the largest column is
      skipped entirely; a longer one with a kinship that is not a number
      aborts; any other is admitted. */
  lemma ParseRowEffect(t: Tables, fields: seq<string>, c: Columns, threshold: real)
    requires Resolved(c)
    ensures |fields| <= MaxColumn(c) ==> AddRow(t, ParseRow(fields, c), threshold) == Some(t)
    ensures |fields| > MaxColumn(c) ==>
      (AddRow(t, ParseRow(fields, c), threshold).None? <==> ParseReal(fields[c.kin]).None?)
    ensures |fields| > MaxColumn(c) && ParseReal(fields[c.kin]).Some? ==>
      AddRow(t, ParseRow(fields, c), threshold)
        == Some(Admit(t, fields[c.ida], fields[c.idb], ParseReal(fields[c.kin]).value, threshold))
  {
  }

  /** `ids` lists the distinct elements of `ms`, in the order of their
      first occurrence. */
  ghost predicate FirstSeen(ids: seq<string>, ms: seq<string>) {
    (forall x :: x in ids <==> x in ms)
      && forall i, j :: 0 <= i < j < |ids| ==> IndexOf(ms, ids[i]) < IndexOf(ms, ids[j])
  }

  lemma FirstSeenAdd(ids: seq<string>, ms: seq<string>, x: string)
    requires FirstSeen(ids, ms)
    ensures FirstSeen(Added(ids, x), ms + [x])
  {
    var ids', ms' := Added(ids, x), ms + [x];
    forall i | 0 <= i < |ids|
      ensures IndexOf(ms', ids[i]) == IndexOf(ms, ids[i]) < |ms|
    {
      IndexOfAppend(ms, [x], ids[i]);
    }
    if x !in ids {
      IndexOfAppend(ms, [x], x);
      assert IndexOf(ms', x) == |ms|;
      assert forall i :: 0 <= i < |ids| ==> ids'[i] == ids[i];
    }
  }

  /** The identifiers one row mentions: none for a short record. */
  function RowIds(row: Option<Row>): seq<string> {
    if row.Some? then [row.value.a, row.value.b] else []
  }

  /** The identifiers the rows mention, IDA before IDB, skipping the short
      records. */
  function Mentions(rows: seq<Option<Row>>): seq<string> {
    if rows == [] then [] else Mentions(rows[..|rows| - 1]) + RowIds(rows[|rows| - 1])
  }

  /** One row keeps the tables well formed, and their identifiers in
      first-seen order. */
  lemma AddRowKeeps(t: Tables, row: Option<Row>, ms: seq<string>, threshold: real)
    requires WellFormed(t, threshold) && FirstSeen(t.ids, ms)
    requires AddRow(t, row, threshold).Some?
    ensures WellFormed(AddRow(t, row, threshold).value, threshold)
    ensures FirstSeen(AddRow(t, row, threshold).value.ids, ms + RowIds(row))
  {
    if row.Some? {
      var a, b := row.value.a, row.value.b;
      AdmitKeeps(t, a, b, row.value.kinship.value, threshold);
      FirstSeenAdd(t.ids, ms, a);
      FirstSeenAdd(Added(t.ids, a), ms + [a], b);
      assert ms + [a] + [b] == ms + RowIds(row);
    } else {
      assert ms + RowIds(row) == ms;
    }
  }

  /** A record that makes `std::stod` throw. */
  predicate Unparsable(row: Option<Row>) {
    row.Some? && row.value.kinship.None?
  }

  /** The load aborts exactly when some record, long enough to be read,
      has a kinship field that is not a number. */
  lemma {:induction false} LoadRowsAborts(rows: seq<Option<Row>>, threshold: real)
    ensures LoadRows(rows, threshold).None? <==> exists k :: 0 <= k < |rows| && Unparsable(rows[k])
  {
    if rows != [] {
      var init := rows[..|rows| - 1];
      LoadRowsAborts(init, threshold);
      assert forall k :: 0 <= k < |init| ==> init[k] == rows[k];
    }
  }

  /** What the whole record loop yields: well-formed tables whose
      identifiers are those the records mention, each once, in the order in
      which they are first mentioned. */
  lemma {:induction false} LoadRowsFacts(rows: seq<Option<Row>>, threshold: real)
    ensures LoadRows(rows, threshold).Some? ==>
      var t := LoadRows(rows, threshold).value;
      WellFormed(t, threshold) && FirstSeen(t.ids, Mentions(rows))
  {
    if rows != [] && LoadRows(rows, threshold).Some? {
      var init := rows[..|rows| - 1];
      LoadRowsFacts(init, threshold);
      AddRowKeeps(LoadRows(init, threshold).value, rows[|rows| - 1], Mentions(init), threshold);
    }
  }

  /** One more row extends the fold by that row's pass. */
  lemma LoadRowsSnoc(rows: seq<Option<Row>>, row: Option<Row>, threshold: real)
    ensures LoadRows(rows + [row], threshold) ==
      if LoadRows(rows, threshold).None? then None else AddRow(LoadRows(rows, threshold).value, row, threshold)
  {
    assert (rows + [row])[..|rows|] == rows;
  }

  /** Once some rows have aborted the load, more rows do not help. */
  lemma {:induction false} AbortStays(rows: seq<Option<Row>>, n: nat, threshold: real)
    requires n <= |rows| && LoadRows(rows[..n], threshold).None?
    ensures LoadRows(rows, threshold).None?
    decreases |rows| - n
  {
    if n < |rows| {
      assert rows[..n + 1][..n] == rows[..n];
      AbortStays(rows, n + 1, threshold);
    } else {
      assert rows[..n] == rows;
    }
  }

  /** `rows` are the rows of the lines from `first` on. */
  ghost predicate RowsFrom(rows: seq<Option<Row>>, lines: seq<string>, first: nat, c: Columns)
    requires Resolved(c)
  {
    first <= |lines| && |rows| == |lines| - first
      && forall k :: 0 <= k < |rows| ==> rows[k] == ParseRow(Record(lines[first + k]), c)
  }

  lemma RowsFromLines(lines: seq<string>, first: nat, c: Columns)
    requires Resolved(c) && first <= |lines|
    ensures RowsFrom(Rows(Records(lines[first..]), c), lines, first, c)
  {
  }

  /** The row of line `first + n`. */
  lemma RowAt(rows: seq<Option<Row>>, lines: seq<string>, first: nat, c: Columns, n: nat)
    requires Resolved(c) && RowsFrom(rows, lines, first, c) && first + n < |lines|
    ensures n < |rows| && rows[n] == ParseRow(Record(lines[first + n]), c)
  {
  }

  lemma PrefixSnoc<T>(s: seq<T>, n: nat)
    requires n < |s|
    ensures s[..n + 1] == s[..n] + [s[n]]
  {
  }

  /** The body of the record loop after the field-count test and the
      kinship parse, on the persons and entries so far. */
  method AddRecordStep(people: seq<EmpiricalPerson>, kinships: seq<KinshipEntry>, ghost ids: seq<string>,
                       row: Option<Row>, threshold: real)
      returns (aborted: bool, people': seq<EmpiricalPerson>, kinships': seq<KinshipEntry>, ghost ids': seq<string>)
    requires people == Roster(ids)
    ensures aborted <==> AddRow(Tables(ids, kinships), row, threshold).None?
    ensures !aborted ==>
      AddRow(Tables(ids, kinships), row, threshold) == Some(Tables(ids', kinships')) && people' == Roster(ids')
  {
    if row.None? {
      return false, people, kinships, ids;
    }
    var ida, idb, kinship := row.value.a, row.value.b, row.value.kinship;
    if kinship.None? {
      return true, people, kinships, ids;
    }
    var idaIndex, idbIndex;
    people', idaIndex := InternPerson(people, ids, ida);
    ghost var withA := Added(ids, ida);
    people', idbIndex := InternPerson(people', withA, idb);
    ids' := Added(withA, idb);
    IndexOfAppend(withA, [idb], ida);
    assert idaIndex == IndexOf(ids', ida);
    var k := kinship.value;
    var passes := if threshold == 0.0 then k > 0.0 else k >= threshold;
    kinships' := kinships;
    assert passes == PassesThreshold(threshold, k);
    if passes || idaIndex == idbIndex {
      var entry := KinshipEntry(people'[idaIndex].sequentialId, people'[idbIndex].sequentialId, k);
      assert entry == KinshipEntry(idaIndex + 1, idbIndex + 1, k);
      kinships' := kinships' + [entry];
      assert kinships' == Kept(kinships, idaIndex, idbIndex, k, threshold);
    } else {
      assert kinships' == Kept(kinships, idaIndex, idbIndex, k, threshold);
    }
    assert Admit(Tables(ids, kinships), ida, idb, k, threshold) == Tables(ids', kinships');
    aborted := false;
  }

  /** What the record loop knows after reading the lines from `first` up
      to the reader's position, whose rows are `rows`. */
  ghost predicate ReadSoFar(reader: Reader, lines: seq<string>, first: nat, rows: seq<Option<Row>>, threshold: real,
                            people: seq<EmpiricalPerson>, kinships: seq<KinshipEntry>, ids: seq<string>)
    reads reader
  {
    reader.Valid() && reader.isOpen && reader.lines == lines && first <= reader.position
      && reader.position - first <= |rows|
      && LoadRows(rows[..reader.position - first], threshold) == Some(Tables(ids, kinships))
      && people == Roster(ids)
  }

  /** One turn of the record loop: `get_record`, then the row's pass. */
  method ReadRecord(reader: Reader, c: Columns, threshold: real, people: seq<EmpiricalPerson>,
                    kinships: seq<KinshipEntry>, ghost ids: seq<string>, ghost lines: seq<string>, ghost first: nat,
                    ghost rows: seq<Option<Row>>)
      returns (more: bool, aborted: bool, people': seq<EmpiricalPerson>, kinships': seq<KinshipEntry>,
               ghost ids': seq<string>)
    requires Resolved(c) && ReadSoFar(reader, lines, first, rows, threshold, people, kinships, ids)
    requires reader.HasLine() ==>
      reader.position - first < |rows| && rows[reader.position - first] == ParseRow(Record(lines[reader.position]), c)
    modifies reader
    ensures reader.Valid() && reader.lines == lines && more == old(reader.HasLine())
    ensures !more ==>
      ReadSoFar(reader, lines, first, rows, threshold, people', kinships', ids') && reader.position == |lines|
    ensures more && aborted ==> LoadRows(rows, threshold).None?
    ensures more && !aborted ==>
      ReadSoFar(reader, lines, first, rows, threshold, people', kinships', ids')
        && reader.position == old(reader.position) + 1
  {
    ghost var n := reader.position - first;
    var fields;
    more, fields := reader.GetRecord([]);
    if !more {
      return false, false, people, kinships, ids;
    }
    var row := ParseRow(fields, c);
    aborted, people', kinships', ids' := AddRecordStep(people, kinships, ids, row, threshold);
    LoadStep(rows, n, threshold, kinships, ids, kinships', ids');
  }

  /** One more row on top of the rows loaded so far: either the whole load
      aborts, or the prefix one longer loads to the new tables. */
  lemma LoadStep(rows: seq<Option<Row>>, n: nat, threshold: real, kinships: seq<KinshipEntry>, ids: seq<string>,
                 kinships': seq<KinshipEntry>, ids': seq<string>)
    requires n < |rows| && LoadRows(rows[..n], threshold) == Some(Tables(ids, kinships))
    ensures AddRow(Tables(ids, kinships), rows[n], threshold).None? ==> LoadRows(rows, threshold).None?
    ensures AddRow(Tables(ids, kinships), rows[n], threshold) == Some(Tables(ids', kinships')) ==>
      LoadRows(rows[..n + 1], threshold) == Some(Tables(ids', kinships'))
  {
    PrefixSnoc(rows, n);
    LoadRowsSnoc(rows[..n], rows[n], threshold);
    if AddRow(Tables(ids, kinships), rows[n], threshold).None? {
      AbortStays(rows, n + 1, threshold);
    }
  }

  /** The record loop of `load_empirical_pedigree`: every remaining line of
      the reader, one record at a time, until the file ends or `std::stod`
      throws. */
  method ReadTables(reader: Reader, c: Columns, threshold: real)
      returns (aborted: bool, people: seq<EmpiricalPerson>, kinships: seq<KinshipEntry>, ghost ids: seq<string>)
    requires reader.Valid() && reader.isOpen && Resolved(c)
    modifies reader
    ensures reader.Valid() && reader.lines == old(reader.lines)
    ensures var loaded := LoadRows(Rows(Records(old(reader.lines[reader.position..])), c), threshold);
      (aborted <==> loaded.None?)
        && (!aborted ==> loaded == Some(Tables(ids, kinships)) && people == Roster(ids))
  {
    ghost var lines := reader.lines;
    ghost var first := reader.position;
    ghost var rows := Rows(Records(lines[first..]), c);
    RowsFromLines(lines, first, c);
    aborted, people, kinships, ids := ReadRows(reader, c, threshold, lines, first, rows);
  }

  /** The loop itself, over the rows of the lines from `first` on. */
  method ReadRows(reader: Reader, c: Columns, threshold: real, ghost lines: seq<string>, ghost first: nat,
                  ghost rows: seq<Option<Row>>)
      returns (aborted: bool, people: seq<EmpiricalPerson>, kinships: seq<KinshipEntry>, ghost ids: seq<string>)
    requires Resolved(c) && RowsFrom(rows, lines, first, c)
    requires reader.Valid() && reader.isOpen && reader.lines == lines && reader.position == first
    modifies reader
    ensures reader.Valid() && reader.lines == lines
    ensures aborted <==> LoadRows(rows, threshold).None?
    ensures !aborted ==> LoadRows(rows, threshold) == Some(Tables(ids, kinships)) && people == Roster(ids)
  {
    people, kinships, ids := [], [], [];
    assert rows[..0] == [];
    while true
      invariant ReadSoFar(reader, lines, first, rows, threshold, people, kinships, ids)
      decreases |lines| - reader.position
    {
      if reader.HasLine() {
        RowAt(rows, lines, first, c, reader.position - first);
      }
      var more;
      more, aborted, people, kinships, ids := ReadRecord(reader, c, threshold, people, kinships, ids, lines, first, rows);
      if !more {
        break;
      }
      if aborted {
        return;
      }
    }
    assert rows[..|rows|] == rows;
    aborted := false;
  }

  // ---------------------------------------------------------------------
  // The builder

  datatype PedigreeFormat = Auto | Empirical

  /** A configured loader; its settings never change once it is built. */
  datatype Loader = Loader(filename: string, threshold: real, outputDir: string, format: PedigreeFormat)

  /** `PedigreeLoader::Builder`: the settings collected before `build`. */
  class Builder {
    var filename: string
    var threshold: real
    var outputDir: string
    var format: PedigreeFormat

    constructor()
      ensures filename == "" && threshold == 0.0 && outputDir == "" && format == Auto
    {
      filename, threshold, outputDir, format := "", 0.0, "", Auto;
    }

    method FromFile(f: string)
      modifies this
      ensures filename == f && threshold == old(threshold) && outputDir == old(outputDir) && format == old(format)
    {
      filename := f;
    }

    method WithThreshold(t: real)
      modifies this
      ensures threshold == t && filename == old(filename) && outputDir == old(outputDir) && format == old(format)
    {
      threshold := t;
    }

    method WithOutputDir(dir: string)
      modifies this
      ensures outputDir == dir && filename == old(filename) && threshold == old(threshold) && format == old(format)
    {
      outputDir := dir;
    }

    method WithFormat(f: PedigreeFormat)
      modifies this
      ensures format == f && filename == old(filename) && threshold == old(threshold) && outputDir == old(outputDir)
    {
      format := f;
    }

    /** `build`: `validate` asks for a file name and a file of that name;
        the loader then carries the settings as they are. */
    method Build(disk: Disk) returns (loader: Option<Loader>)
      ensures loader.Some? <==> filename != "" && filename in disk
      ensures loader.Some? ==> loader.value == Loader(filename, threshold, outputDir, format)
    {
      if filename == "" || filename !in disk {
        return None;
      }
      loader := Some(Loader(filename, threshold, outputDir, format));
    }
  }

  // ---------------------------------------------------------------------
  // The whole load

  /** The stage at which `load_empirical_pedigree` stops: the header line
      cannot be read, a required column is missing, `std::stod` throws on
      some record, or the records are read into tables. */
  datatype Stage = Unreadable | MissingColumns | Thrown | Read(columns: Columns, tables: Tables)

  function ReadStage(disk: Disk, filename: string, threshold: real): Stage {
    var header := HeaderOf(disk, filename);
    if header.None? then Unreadable
    else
      var c := ColumnsOf(header.value);
      if !Resolved(c) then MissingColumns
      else
        var loaded := LoadRows(Rows(Records(disk[filename][1..]), c), threshold);
        if loaded.None? then Thrown else Read(c, loaded.value)
  }

  /** What `load` hands back: a pedigree, a null result, or the exception
      of `std::stod`, which leaves the loader before anything is written. */
  datatype LoadOutcome = Loaded(pedigree: Pedigree) | Failed | Aborted

  /** The end of a load whose records were read into `t`: the persons are
      the roster with a family assignment, the output files are written,
      and pedigree.info reads back only for one or two families. */
  ghost predicate Finished(l: Loader, t: Tables, disk: Disk, showKinship: real -> string, people: seq<EmpiricalPerson>,
                           nfamilies: int, disk': Disk, outcome: LoadOutcome)
  {
    && SamePersons(Roster(t.ids), people) && nfamilies >= 0
    && IsFamilyAssignment(t.kinships, people, nfamilies)
    && disk' == OutputFiles(disk, l.filename, l.outputDir, people, t.kinships, nfamilies, IdWidth(people), showKinship)
    && outcome == if nfamilies <= 2 then Loaded(WrittenPedigree(l.filename, IdWidth(people), nfamilies, |people|))
                  else Failed
  }

  /** `load_empirical_pedigree`. */
  method LoadEmpiricalPedigree(l: Loader, disk: Disk, showKinship: real -> string)
      returns (outcome: LoadOutcome, disk': Disk, people: seq<EmpiricalPerson>, nfamilies: int)
    ensures var s := ReadStage(disk, l.filename, l.threshold);
      && (s.Unreadable? || s.MissingColumns? ==> outcome == Failed && disk' == disk)
      && (s.Thrown? ==> outcome == Aborted && disk' == disk)
      && (s.Read? ==> Finished(l, s.tables, disk, showKinship, people, nfamilies, disk', outcome))
  {
    var reader := new Reader(ReadLines(disk, l.filename));
    var ok, header := reader.GetHeader([]);
    if !ok {
      assert ReadStage(disk, l.filename, l.threshold) == Unreadable;
      return Failed, disk, [], 0;
    }
    assert header == HeaderOf(disk, l.filename).value;
    var c := ResolveColumns(header);
    if c.ida == -1 || c.idb == -1 || c.kin == -1 {
      assert ReadStage(disk, l.filename, l.threshold) == MissingColumns;
      return Failed, disk, [], 0;
    }
    ghost var rows := Rows(Records(disk[l.filename][1..]), c);
    var aborted, people0, kinships, ids := ReadTables(reader, c, l.threshold);
    if aborted {
      assert ReadStage(disk, l.filename, l.threshold) == Thrown;
      return Aborted, disk, [], 0;
    }
    ghost var t := Tables(ids, kinships);
    assert ReadStage(disk, l.filename, l.threshold) == Read(c, t);
    outcome, disk', people, nfamilies := FinishLoad(l, t, people0, kinships, disk, showKinship, rows);
  }

  /** `load_empirical_pedigree` after the record loop: the families, the
      output files and the reload of pedigree.info. */
  method FinishLoad(l: Loader, ghost t: Tables, people0: seq<EmpiricalPerson>, kinships: seq<KinshipEntry>, disk: Disk,
                    showKinship: real -> string, ghost rows: seq<Option<Row>>)
      returns (outcome: LoadOutcome, disk': Disk, people: seq<EmpiricalPerson>, nfamilies: int)
    requires LoadRows(rows, l.threshold) == Some(t) && people0 == Roster(t.ids) && kinships == t.kinships
    ensures Finished(l, t, disk, showKinship, people, nfamilies, disk', outcome)
  {
    LoadRowsFacts(rows, l.threshold);
    var grouped, nfam := AssignFamilies(people0, kinships);
    people, nfamilies := grouped, nfam;
    disk' := CreateOutputFiles(disk, l.filename, l.outputDir, grouped, kinships, nfam, showKinship);
    var p := LoadWritten(disk, l, grouped, kinships, nfam, showKinship, disk');
    outcome := if p.Some? then Loaded(p.value) else Failed;
  }

  /** `load_pedigree_info` on the files just written. */
  method LoadWritten(disk: Disk, l: Loader, people: seq<EmpiricalPerson>, kinships: seq<KinshipEntry>, nfamilies: int,
                     showKinship: real -> string, disk': Disk)
      returns (p: Option<Pedigree>)
    requires nfamilies >= 0
    requires disk' == OutputFiles(disk, l.filename, l.outputDir, people, kinships, nfamilies, IdWidth(people), showKinship)
    ensures p == if nfamilies <= 2 then Some(WrittenPedigree(l.filename, IdWidth(people), nfamilies, |people|)) else None
  {
    OutputFilesInfo(disk, l.filename, l.outputDir, people, kinships, nfamilies, IdWidth(people), showKinship);
    ReloadInfo(l.filename, IdWidth(people), nfamilies, |people|);
    p := LoadPedigreeInfo(disk', l.filename, l.outputDir);
  }

  /** `load`: an automatic format is the empirical one when the header
      names the three columns, and is refused otherwise; an empirical
      format goes straight to the empirical load. */
  method Load(l: Loader, disk: Disk, showKinship: real -> string)
      returns (outcome: LoadOutcome, disk': Disk, people: seq<EmpiricalPerson>, nfamilies: int)
    ensures var s := ReadStage(disk, l.filename, l.threshold);
      && (s.Unreadable? || s.MissingColumns? ==> outcome == Failed && disk' == disk)
      && (s.Thrown? ==> outcome == Aborted && disk' == disk)
      && (s.Read? ==> Finished(l, s.tables, disk, showKinship, people, nfamilies, disk', outcome))
  {
    if l.format == Auto {
      var empirical := IsEmpiricalFormat(disk, l.filename);
      if !empirical {
        AutoRefused(disk, l.filename, l.threshold);
        return Failed, disk, [], 0;
      }
    }
    outcome, disk', people, nfamilies := LoadEmpiricalPedigree(l, disk, showKinship);
  }

  /** A header that the format test refuses also stops the empirical load
      before any record is read, so refusing it early changes nothing. */
  lemma AutoRefused(disk: Disk, filename: string, threshold: real)
    requires !(HeaderOf(disk, filename).Some? && EmpiricalHeader(HeaderOf(disk, filename).value))
    ensures ReadStage(disk, filename, threshold).Unreadable? || ReadStage(disk, filename, threshold).MissingColumns?
  {
    if HeaderOf(disk, filename).Some? {
      SameHeaderSets(HeaderOf(disk, filename).value);
    }
  }
}
