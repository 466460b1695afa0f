/** The pedigree summary that the loader produces: the per-pedigree
    statistics read back from `pedigree.info`, the totals, and the text the
    summary renders. The object never changes after construction, so it is
    a value here. */
module PedigreeData {
  import opened Text
  import opened CsvReader

  /** One statistics line of `pedigree.info`. */
  datatype PedigreeStats = PedigreeStats(nfam: int, nind: int, nfou: int, nlbrk: int, inbred: char)

  /** A person of an empirical (kinship-only) pedigree: the original
      identifier, the 1-based sequential id and the family number
      (0 until families are assigned). */
  datatype EmpiricalPerson = EmpiricalPerson(originalId: string, sequentialId: int, familyId: int)

  /** One accepted kinship pair, by sequential ids. */
  datatype KinshipEntry = KinshipEntry(id1: int, id2: int, kinship: real)

  /** The pedigree. The number of pedigrees is not stored apart from the
      statistics: it is their count, as the constructor computes it. */
  datatype Pedigree = Pedigree(
    filename: string,
    pedigreeStats: seq<PedigreeStats>,
    nfam: int, nind: int, nfou: int,
    idLen: int, sexLen: int, mztwinLen: int, hhidLen: int, famidLen: int)
  {
    function NumPedigrees(): nat {
      |pedigreeStats|
    }

    /** `stats(i)`: `None` is the `out_of_range` exception. */
    function Stats(i: int): (r: Option<PedigreeStats>)
      ensures r.Some? <==> 0 <= i < NumPedigrees()
      ensures r.Some? ==> r.value == pedigreeStats[i]
    {
      if 0 <= i < |pedigreeStats| then Some(pedigreeStats[i]) else None
    }

    /** `has_multiple_loops`. */
    function HasMultipleLoops(): bool {
      AnyMultipleLoops(pedigreeStats)
    }

    /** `has_inbreeding`. */
    function HasInbreeding(): bool {
      AnyInbreeding(pedigreeStats)
    }

    /** The note `show_totals` ends with. */
    function TotalsMessage(): (m: string)
      ensures m == MultipleLoopsAndInbreeding <==> HasMultipleLoops() && HasInbreeding()
      ensures m == MultipleLoopsOnly <==> HasMultipleLoops() && !HasInbreeding()
      ensures m == InbreedingOnly <==> !HasMultipleLoops() && HasInbreeding()
      ensures m == "" <==> !HasMultipleLoops() && !HasInbreeding()
    {
      if HasMultipleLoops() && HasInbreeding() then MultipleLoopsAndInbreeding
      else if HasMultipleLoops() then MultipleLoopsOnly
      else if HasInbreeding() then InbreedingOnly
      else ""
    }

    /** `show_totals`: the file-name line, the four totals lines and the
        note. */
    function ShowTotals(): (s: string)
      ensures s == "\npedigree data file: " + filename + "\n\n" + Join(TotalsLines(), "\n") + "\n" + TotalsMessage()
    {
      var heading, ls := "\npedigree data file: " + filename + "\n\n", TotalsLines();
      NewlineEachJoin(ls);
      assert heading + NewlineEach(ls) == heading + Join(ls, "\n") + "\n";
      heading + NewlineEach(ls) + TotalsMessage()
    }

    /** The totals `show_totals` prints, in order. */
    function Totals(): seq<int> {
      [NumPedigrees(), nfam, nind, nfou]
    }

    /** The four totals lines of `show_totals`: line k holds total k, which
        `>>` reads back, followed by its caption. */
    function TotalsLines(): (ls: seq<string>)
      ensures |ls| == 4
      ensures forall k :: 0 <= k < 4 ==> ReadInt(ls[k]) == Some((Totals()[k], " " + TotalsCaptions[k]))
    {
      var ls := seq(4, k requires 0 <= k < 4 => TotalsLine(Totals()[k], TotalsCaptions[k]));
      forall k | 0 <= k < 4
        ensures ReadInt(ls[k]) == Some((Totals()[k], " " + TotalsCaptions[k]))
      {
        TotalsLineReadBack(Totals()[k], TotalsCaptions[k]);
      }
      ls
    }

    /** `show_pedigree(i)`. */
    function ShowPedigree(i: int): (s: string)
      ensures !(0 <= i < NumPedigrees()) ==> s == "No such pedigree."
    {
      if 0 <= i < |pedigreeStats| then
        PedigreeHeading + Join(PedigreeCells(i, pedigreeStats[i]), "\t") + "\n"
      else "No such pedigree."
    }

    /** The data row of `export_to_csv`. */
    function ExportRow(): string {
      Join(ExportFields(), ",")
    }

    function ExportFields(): seq<string> {
      [filename, IntToString(nind), IntToString(NumPedigrees()), IntToString(nfam), IntToString(nfou)]
    }

    /** The two lines `export_to_csv` writes. */
    function ExportLines(): seq<string> {
      [ExportHeader, ExportRow()]
    }
  }

  const MultipleLoopsAndInbreeding := "\nMultiple loops, inbreeding present in 1 or more pedigrees.\n"
  const MultipleLoopsOnly := "\nMultiple loops present in 1 or more pedigrees.\n"
  const InbreedingOnly := "\nInbreeding present in 1 or more pedigrees.\n"
  const PedigreeHeading := "ped#\t#nfam\t #ind\t #fou\t#bits\t#lbrk\tinbred?\n----\t-----\t-----\t-----\t-----\t-----\t-------\n"
  const TotalsCaptions := ["pedigrees", "nuclear families", "individuals", "founders"]
  const ExportHeader := "source_file,total_individuals,total_pedigrees,total_nuclear_families,founders"

  /** Each line followed by a newline, as a run of `<< ... << "\n"` writes it. */
  function NewlineEach(ls: seq<string>): string {
    if ls == [] then "" else ls[0] + "\n" + NewlineEach(ls[1..])
  }

  /** Lines each ended by a newline are the lines joined by newlines, then
      one final newline. */
  lemma {:induction false} NewlineEachJoin(ls: seq<string>)
    requires ls != []
    ensures NewlineEach(ls) == Join(ls, "\n") + "\n"
  {
    if |ls| > 1 {
      NewlineEachJoin(ls[1..]);
      assert NewlineEach(ls) == ls[0] + "\n" + (Join(ls[1..], "\n") + "\n");
    } else {
      assert ls[1..] == [];
    }
  }

  /** A totals line: the count right-aligned in five columns (`setw(5)`),
      a space and the caption. */
  function TotalsLine(count: int, caption: string): string {
    PadLeft(IntToString(count), 5) + " " + caption
  }

  /** Whatever the padding, `>>` reads the count back and leaves the caption. */
  lemma TotalsLineReadBack(count: int, caption: string)
    ensures ReadInt(TotalsLine(count, caption)) == Some((count, " " + caption))
  {
    assert TotalsLine(count, caption) == PadLeft(IntToString(count), 5) + (" " + caption);
    ReadPadded(count, 5, " " + caption);
  }

  /** Whether some statistics line has more than one loop break. */
  function AnyMultipleLoops(ss: seq<PedigreeStats>): (r: bool)
    ensures r <==> exists i :: 0 <= i < |ss| && ss[i].nlbrk > 1
  {
    if ss == [] then false
    else if ss[0].nlbrk > 1 then true
    else
      var r := AnyMultipleLoops(ss[1..]);
      assert forall i :: 1 <= i < |ss| ==> ss[i] == ss[1..][i - 1];
      r
  }

  /** Whether some statistics line is marked inbred. */
  function AnyInbreeding(ss: seq<PedigreeStats>): (r: bool)
    ensures r <==> exists i :: 0 <= i < |ss| && ss[i].inbred == 'y'
  {
    if ss == [] then false
    else if ss[0].inbred == 'y' then true
    else
      var r := AnyInbreeding(ss[1..]);
      assert forall i :: 1 <= i < |ss| ==> ss[i] == ss[1..][i - 1];
      r
  }

  /** The tab-separated cells of the row for pedigree `i` (0-based); the
      bits cell is blank for a pedigree of one individual. */
  function PedigreeCells(i: int, ped: PedigreeStats): seq<string> {
    [PadLeft(IntToString(i + 1), 4),
     PadLeft(IntToString(ped.nfam), 5),
     PadLeft(IntToString(ped.nind), 5),
     PadLeft(IntToString(ped.nfou), 5),
     BitsCell(ped),
     PadLeft(IntToString(ped.nlbrk), 5),
     "   " + [if ped.inbred == 'y' then 'y' else ' ']]
  }

  function BitsCell(ped: PedigreeStats): string {
    if ped.nind > 1 then PadLeft(IntToString(2 * ped.nind - 3 * ped.nfou), 5) else "     "
  }

  // ---------------------------------------------------------------------
  // Properties

  /** The row `show_pedigree` prints for an index in range, read back at
      its tabs, has seven cells; the fifth holds the bits count
      2*nind - 3*nfou exactly when the pedigree has more than one
      individual, and nothing otherwise. */
  lemma ShowPedigreeBits(p: Pedigree, i: int)
    requires 0 <= i < p.NumPedigrees()
    ensures var ped := p.pedigreeStats[i];
      var row := Join(PedigreeCells(i, ped), "\t");
      && p.ShowPedigree(i) == PedigreeHeading + row + "\n"
      && |Pieces(row, '\t')| == 7
      && Tokens(Pieces(row, '\t')[4]) == (if ped.nind > 1 then [IntToString(2 * ped.nind - 3 * ped.nfou)] else [])
  {
    var ped := p.pedigreeStats[i];
    CellsNoTab(i, ped);
    PiecesOfJoin(PedigreeCells(i, ped), '\t');
    BitsTokens(ped);
  }

  lemma CellsNoTab(i: int, ped: PedigreeStats)
    ensures AllNoSep(PedigreeCells(i, ped), '\t')
  {
    var cells := PedigreeCells(i, ped);
    forall k | 0 <= k < |cells|
      ensures NoSep(cells[k], '\t')
    {
      if k == 0 {
        PadNoTab(IntToString(i + 1), 4);
      } else if k == 1 {
        PadNoTab(IntToString(ped.nfam), 5);
      } else if k == 2 {
        PadNoTab(IntToString(ped.nind), 5);
      } else if k == 3 {
        PadNoTab(IntToString(ped.nfou), 5);
      } else if k == 4 {
        if ped.nind > 1 {
          PadNoTab(IntToString(2 * ped.nind - 3 * ped.nfou), 5);
        }
      } else if k == 5 {
        PadNoTab(IntToString(ped.nlbrk), 5);
      }
    }
  }

  lemma BitsTokens(ped: PedigreeStats)
    ensures Tokens(BitsCell(ped)) == if ped.nind > 1 then [IntToString(2 * ped.nind - 3 * ped.nfou)] else []
  {
    if ped.nind > 1 {
      TokensOfPadded(IntToString(2 * ped.nind - 3 * ped.nfou), 5);
    } else {
      TokensSkipSpace("     ", "");
      assert "     " + "" == "     ";
    }
  }

  lemma PadNoTab(w: string, width: nat)
    requires IsWord(w)
    ensures NoSep(PadLeft(w, width), '\t')
  {
    var s := PadLeft(w, width);
    var pad := if |w| < width then Spaces(width - |w|) else "";
    assert s == pad + w;
    forall k | 0 <= k < |s|
      ensures s[k] != '\t'
    {
      if k >= |pad| {
        assert s[k] == w[k - |pad|];
      }
    }
  }

  /** A word padded on the left reads back as that word. */
  lemma TokensOfPadded(w: string, width: nat)
    requires IsWord(w)
    ensures Tokens(PadLeft(w, width)) == [w]
  {
    var pad := if |w| < width then Spaces(width - |w|) else "";
    assert PadLeft(w, width) == pad + w;
    TokensSkipSpace(pad, w);
    TokensWordFirst(w, "");
    assert w + "" == w;
  }

  /** A word is left alone by trimming. */
  lemma TrimWord(w: string)
    requires IsWord(w)
    ensures Trim(w) == w
  {
    assert !IsBlank(w[0]) && !IsBlank(w[|w| - 1]);
    TrimSurrounded([], w, []);
    assert [] + w + [] == w;
  }

  /** The exported row reads back, through the CSV reader, as the file name
      and the four totals, when the file name holds no ',' and no blank at
      either end. */
  lemma ExportRowRoundTrip(p: Pedigree)
    requires PlainField(p.filename)
    ensures Record(p.ExportRow()) == p.ExportFields()
  {
    ExportFieldsPlain(p);
    RecordOfJoin(p.ExportFields());
  }

  lemma ExportFieldsPlain(p: Pedigree)
    requires PlainField(p.filename)
    ensures |p.ExportFields()| == 5
    ensures forall k :: 0 <= k < 5 ==> PlainField(p.ExportFields()[k])
  {
    forall k | 0 <= k < 5
      ensures PlainField(p.ExportFields()[k])
    {
      ExportFieldPlain(p, k);
    }
  }

  lemma ExportFieldPlain(p: Pedigree, k: int)
    requires PlainField(p.filename)
    requires 0 <= k < 5
    ensures PlainField(p.ExportFields()[k])
  {
    if k == 1 {
      IntField(p.nind);
    } else if k == 2 {
      IntField(p.NumPedigrees());
    } else if k == 3 {
      IntField(p.nfam);
    } else if k == 4 {
      IntField(p.nfou);
    }
  }

  /** A rendered integer holds no ',' and is left alone by trimming. */
  lemma IntField(i: int)
    ensures PlainField(IntToString(i))
  {
    TrimWord(IntToString(i));
  }
}
