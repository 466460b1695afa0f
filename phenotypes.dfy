/** The phenotype table: the header fields and the data rows of a
    comma-separated file, read with the CSV reader. */
module PhenotypeTable {
  import opened Text
  import opened Files
  import opened CsvReader

  class Phenotypes {
    var filename: string
    var headers: seq<string>
    var data: seq<seq<string>>

    constructor()
      ensures filename == "" && headers == [] && data == []
    {
      filename := "";
      headers := [];
      data := [];
    }

    /** `Phenotypes::load`: the name is kept whatever happens; a file
        whose header line cannot be read fails and leaves the table as it
        was; otherwise the header fields are appended to `headers` and the
        records of every following line replace `data`. */
    method Load(fname: string, disk: Disk) returns (ok: bool)
      modifies this
      ensures filename == fname
      ensures ok <==> fname in disk && |disk[fname]| > 0
      ensures ok ==> headers == old(headers) + Record(disk[fname][0])
      ensures ok ==> data == Records(disk[fname][1..])
      ensures !ok ==> headers == old(headers) && data == old(data)
    {
      filename := fname;
      var reader := new Reader(ReadLines(disk, fname));
      var header;
      ok, header := reader.GetHeader(headers);
      if !ok {
        return;
      }
      headers := header;
      assert reader.lines == disk[fname] && reader.position == 1;
      ghost var rest := disk[fname][1..];
      data := ReadRows(reader);
      assert data == Records(rest);
    }

    /** `has_trait`: whether some header is exactly `name`. */
    function HasTrait(name: string): (r: bool)
      reads this
      ensures r <==> name in headers
    {
      IndexOf(headers, name) < |headers|
    }
  }

  /** The `while (reader.get_record(record)) data.push_back(record)` loop:
      the records of every line not yet read, in file order. */
  method ReadRows(reader: Reader) returns (rows: seq<seq<string>>)
    requires reader.Valid() && reader.isOpen
    modifies reader
    ensures reader.Valid() && reader.lines == old(reader.lines) && reader.position == |reader.lines|
    ensures rows == Records(old(reader.lines[reader.position..]))
  {
    ghost var lines := reader.lines;
    ghost var first := reader.position;
    rows := [];
    var record: seq<string> := [];
    var more := true;
    while more
      invariant reader.Valid() && reader.lines == lines && reader.isOpen
      invariant first <= reader.position
      invariant rows == Records(lines[first..reader.position])
      invariant !more ==> reader.position == |lines|
      decreases |lines| - reader.position, more
    {
      var start := reader.position;
      more, record := reader.GetRecord(record);
      if more {
        assert reader.position == start + 1 && record == Record(lines[start]);
        SliceSnoc(lines, first, start);
        RecordsSnoc(lines[first..start], lines[start]);
        rows := rows + [record];
      }
    }
    SliceToEnd(lines, first);
  }
}
