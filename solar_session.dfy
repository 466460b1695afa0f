/** The analysis session: it holds the loaded pedigree, the loaded
    phenotype table, the selected trait, and the threshold and output
    directory of the last successful pedigree load. Each call checks that
    the calls before it in the order load_pedigree -> load_phenotypes ->
    select_trait -> run_fphi left what it needs. The order is not an
    invariant of the fields: a failed pedigree reload drops the pedigree
    but keeps the phenotypes and the trait. The file system is passed in
    and handed back as a `Disk`. */
module SolarSession {
  import opened Text
  import opened Files
  import opened CsvReader
  import opened PedigreeData
  import opened Families
  import opened PhenotypeTable
  import opened PedigreeLoader
  import opened CreateEvd
  import opened Fphi

  /** How a call ends: with a status code, or with the exception a
      non-numeric kinship raises inside the loader, which nothing in the
      session catches. */
  datatype Reply = Returned(code: int) | Threw

  class Session {
    var pedigree: Option<Pedigree>
    var phenotypes: Phenotypes?
    var traitName: string
    var threshold: real
    var outputDir: string

    /** A fresh session holds nothing. */
    constructor()
      ensures pedigree.None? && phenotypes == null && traitName == "" && threshold == 0.0 && outputDir == ""
    {
      pedigree, phenotypes, traitName, threshold, outputDir := None, null, "", 0.0, "";
    }

    /** `has_pedigree`: a pedigree is held. */
    predicate HasPedigree()
      reads this
      ensures HasPedigree() <==> pedigree.Some?
    {
      pedigree.Some?
    }

    /** `has_phenotypes`: a phenotype table is held. */
    predicate HasPhenotypes()
      reads this
      ensures HasPhenotypes() <==> phenotypes != null
    {
      phenotypes != null
    }

    /** `has_trait`: a trait is selected, that is, its name is not empty. */
    predicate HasTrait()
      reads this
      ensures HasTrait() <==> |traitName| > 0
    {
      traitName != ""
    }

    /** `load_pedigree`: the builder is configured with the file, the
        threshold and the output directory. A builder that refuses leaves
        the session as it was; a failed load drops the pedigree; an
        exception leaves the session as it was; a successful load keeps
        the pedigree, the threshold and the directory. The phenotypes and
        the trait survive every outcome. */
    method LoadPedigree(file: string, kinshipThreshold: real, dir: string, disk: Disk, showKinship: real -> string)
        returns (reply: Reply, disk': Disk, outcome: LoadOutcome, ghost people: seq<EmpiricalPerson>,
                 ghost nfamilies: int)
      modifies this
      ensures phenotypes == old(phenotypes) && traitName == old(traitName)
      ensures !(file != "" && file in disk) ==>
        reply == Returned(1) && disk' == disk
        && pedigree == old(pedigree) && threshold == old(threshold) && outputDir == old(outputDir)
      ensures file != "" && file in disk ==>
        var s := ReadStage(disk, file, kinshipThreshold);
        && (s.Unreadable? || s.MissingColumns? ==> outcome == Failed && disk' == disk)
        && (s.Thrown? ==> outcome == Aborted && disk' == disk)
        && (s.Read? ==>
              Finished(Loader(file, kinshipThreshold, dir, Auto), s.tables, disk, showKinship, people, nfamilies,
                       disk', outcome))
      ensures file != "" && file in disk ==>
        && (outcome.Aborted? ==>
              reply == Threw && pedigree == old(pedigree) && threshold == old(threshold) && outputDir == old(outputDir))
        && (outcome.Failed? ==>
              reply == Returned(1) && pedigree.None? && threshold == old(threshold) && outputDir == old(outputDir))
        && (outcome.Loaded? ==>
              reply == Returned(0) && pedigree == Some(outcome.pedigree)
              && threshold == kinshipThreshold && outputDir == dir)
    {
      var builder := new Builder();
      builder.FromFile(file);
      builder.WithThreshold(kinshipThreshold);
      builder.WithOutputDir(dir);
      var loader := builder.Build(disk);
      if loader.None? {
        return Returned(1), disk, Failed, [], 0;
      }
      assert loader.value == Loader(file, kinshipThreshold, dir, Auto);
      outcome, disk', people, nfamilies := Load(loader.value, disk, showKinship);
      match outcome
      case Aborted =>
        reply := Threw;
      case Failed =>
        pedigree := None;
        reply := Returned(1);
      case Loaded(p) =>
        pedigree := Some(p);
        outputDir := dir;
        threshold := kinshipThreshold;
        reply := Returned(0);
    }

    /** `load_phenotypes`: refused without a pedigree; otherwise a new
        table replaces the old one, and a failed load leaves none. */
    method LoadPhenotypes(file: string, disk: Disk) returns (status: int)
      modifies this
      ensures pedigree == old(pedigree) && traitName == old(traitName)
      ensures threshold == old(threshold) && outputDir == old(outputDir)
      ensures old(pedigree).None? ==> status == 1 && phenotypes == old(phenotypes)
      ensures old(pedigree).Some? ==>
        && (status == 0 <==> file in disk && |disk[file]| > 0)
        && (status != 0 ==> status == 1 && phenotypes == null)
        && (status == 0 ==>
              && phenotypes != null && fresh(phenotypes)
              && phenotypes.filename == file
              && phenotypes.headers == Record(disk[file][0])
              && phenotypes.data == Records(disk[file][1..]))
    {
      if pedigree.None? {
        return 1;
      }
      var table := new Phenotypes();
      var ok := table.Load(file, disk);
      if !ok {
        phenotypes := null;
        return 1;
      }
      phenotypes := table;
      return 0;
    }

    /** `select_trait`: refused without phenotypes or for a name that is
        no header (the identifier column counts as one); otherwise only
        the trait changes. */
    method SelectTrait(name: string) returns (status: int)
      modifies this
      ensures pedigree == old(pedigree) && phenotypes == old(phenotypes)
      ensures threshold == old(threshold) && outputDir == old(outputDir)
      ensures status == 0 <==> phenotypes != null && name in phenotypes.headers
      ensures status == 0 ==> traitName == name
      ensures status != 0 ==> status == 1 && traitName == old(traitName)
    {
      if phenotypes == null {
        return 1;
      }
      if !phenotypes.HasTrait(name) {
        return 1;
      }
      traitName := name;
      return 0;
    }

    /** The prerequisites `run_fphi` checks before any work. */
    predicate ReadyToRun()
      reads this
    {
      HasPedigree() && HasPhenotypes() && HasTrait()
    }

    /** `run_fphi`: refused (with the disk untouched) unless a pedigree,
        phenotypes and a trait are present; then the EVD stage runs on the
        base name, and FPHI runs on what it wrote only when it succeeded.
        The call succeeds exactly when both stages do, and with a
        renderer whose text is one number, exactly when the EVD stage
        does. */
    method RunFphi(basename: string, disk: Disk, solve: Eigensolver, show: real -> string,
                   fitter: FphiInputs -> Numerics)
        returns (status: int, disk': Disk, report: Option<Report>)
      ensures !ReadyToRun() ==> status == 1 && disk' == disk && report.None?
      ensures ReadyToRun() ==>
        var evd := CreateEvdRun(Some(basename), true, TableOf(phenotypes), traitName, disk, solve, show);
        && disk' == evd.disk
        && (status == 0 <==>
              evd.status == 0 && ReadFphiInputs(Some(basename), true, TableOf(phenotypes), traitName, evd.disk).Ready?)
        && (status == 0 <==> report.Some?)
      ensures ReadyToRun() && (forall x: real :: IsWord(show(x)) && ParseReal(show(x)).Some?) ==>
        (status == 0 <==> CreateEvdRun(Some(basename), true, TableOf(phenotypes), traitName, disk, solve, show).status == 0)
      ensures ReadyToRun() && status == 0 ==>
        var evd := CreateEvdRun(Some(basename), true, TableOf(phenotypes), traitName, disk, solve, show);
        var r := ReadFphiInputs(Some(basename), true, TableOf(phenotypes), traitName, evd.disk);
        && r.Ready? && report.Some?
        && var num, rep := fitter(r.inputs), report.value;
        && SoundFit(num, rep.fit)
        && (rep.fit.Singular? <==> SearchStuck(num, Tolerance(FitPrecision)))
        && (rep.fit.Fitted? ==> SearchSettles(num, Tolerance(FitPrecision), rep.fit.interior, rep.fit.iterations))
        && rep.pvalue == ChoosePValue(num.sporadicLoglik, rep.fit)
        && rep.subjects == |r.inputs.ids|
      ensures status == 0 || status == 1
    {
      if pedigree.None? || phenotypes == null || traitName == "" {
        return 1, disk, None;
      }
      var evdStatus;
      evdStatus, disk' := CreateEvdData(Some(basename), true, phenotypes, traitName, disk, solve, show);
      if evdStatus != 0 {
        return 1, disk', None;
      }
      if forall x: real :: IsWord(show(x)) && ParseReal(show(x)).Some? {
        EvdThenFphi(Some(basename), true, TableOf(phenotypes), traitName, disk, solve, show);
      }
      var fphiStatus, fphiReport := Fphi.RunFphi(Some(basename), true, phenotypes, traitName, disk', fitter);
      if fphiStatus != 0 {
        return 1, disk', None;
      }
      return 0, disk', fphiReport;
    }

    /** `reset`: every field back to its initial value. */
    method Reset()
      modifies this
      ensures !HasPedigree() && !HasPhenotypes() && !HasTrait()
      ensures threshold == 0.0 && outputDir == ""
    {
      pedigree := None;
      phenotypes := null;
      traitName := "";
      threshold := 0.0;
      outputDir := "";
    }
  }
}
