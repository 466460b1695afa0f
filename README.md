# solareclipser core in Dafny

This project models the C++ core of solareclipser, which prepares data for
and runs the FPHI heritability fit. The pipeline has three stages that
hand data to each other through files:

1. **Pedigree loading** (`PedigreeLoader`, `Families`, `PedigreeOutput`). A
   CSV of kinship pairs (IDA, IDB, KIN) is read. Each distinct identifier
   is interned with a sequential id in first-seen order, and pairs are kept
   by the threshold rule. Families are the connected components found by
   the breadth-first search. The loader writes `pedigree.info`,
   `pedindex.out`, `phi2.gz`, `pedindex.cde` and `solar-pedigree.csv`, and
   reads `pedigree.info` back into a `Pedigree` (`PedigreeData`).
2. **EVD input assembly** (`CreateEvd`). The phenotype rows are filtered.
   The pedindex identifiers are matched against the phenotype identifiers,
   and the symmetric kinship matrix is built from `phi2.gz`. The
   eigendecomposition (an abstract eigensolver) is then written to the
   `.ids`, `.notes`, `.eigenvalues` and `.eigenvectors` files.
3. **FPHI driver** (`Fphi`). The EVD files are read back, including the
   column-major unpack of the eigenvectors. Phenotype values are looked up
   for the EVD identifiers. Then come the control skeleton of the
   optimiser (Newton loop, boundary test) and the choice of p-value.

`SolarSession` is the session object that the R interface drives. It
holds the pedigree, the phenotype table, the trait, the threshold and the
output directory, and every call checks its prerequisites. `CsvReader`,
`PhenotypeTable` and `Text` model the comma splitting and trimming, the
phenotype table, stream extraction (`>>`), and `std::stod`.

## How it is modelled

- **Files.** The file system is a `Disk`, a map from path to lines. A
  call that writes files returns the new `Disk`. A file that cannot be
  opened is a path missing from the map.
- **Objects.** Objects that the source mutates are classes:
  `CsvReader.Reader`, `PhenotypeTable.Phenotypes`,
  `PedigreeLoader.Builder` and `SolarSession.Session`. Loops are methods
  with invariants, each proved against a specification function.
  `Pedigree` never changes after construction, so it is a datatype.
- **Text.**
  - Number formatting is a parameter: `show`, `showKinship`, a function
    from `real` to `string`. Integers are written by `Text.IntToString`.
  - `std::stod` is `Text.ParseReal`, which returns `None` where the
    source throws `invalid_argument`.
  - An uncaught `std::stod` failure in the pedigree loader is the
    `Aborted` outcome, and the session does not catch it (`Reply.Threw`).
- **Foreign routines.** `symeig_` is the `Eigensolver` parameter, and
  `cdfchi_` is the `chi` parameter.
- **Numerics of the fit.** These are fields of `Fphi.Numerics`: XTOX,
  the log-likelihood at an h2r, the Newton step, and the sporadic
  log-likelihood. The step is `NaN` or a finite number; an infinite step
  counts as `NaN` (see below).
- **Code over specification.** Where a behaviour is surprising, the model
  follows the code:
  - `pedigree.info` declares `nfamilies` pedigrees but holds at most two
    statistics lines, so the reload succeeds only for one or two families
    (`PedigreeOutput.ReloadInfo`, `PedigreeLoader.LoadWritten`).
  - A vanishing XTOX makes `find_max_loglik_2` return without setting the
    log-likelihood. It is the `Singular` fit, whose p-value is
    `Indeterminate`.
  - `select_trait` accepts any header, including `id` itself.
  - A failed pedigree reload drops the pedigree but keeps the phenotypes
    and the trait. So the call order is a precondition of each call, not
    an invariant of the session.

## Model

| member | source | states |
|---|---|---|
| Text.Word | src/create_evd.cc:127-129 | the word `>>` extracts is the longest whitespace-free prefix, and a space follows it unless the text ends |
| Text.Tokens | src/create_evd.cc:124-129 | every token extracted from a line is a non-empty word without whitespace |
| Text.TokensOfJoin | src/create_evd.cc:178-181 | reading back words joined by single spaces gives the same words |
| Text.ToLower | src/pedigree_loader.cc:157-158 | lower-casing keeps the length; `PedigreeLoader.HeaderCase` states what the lower-cased comparisons accept |
| Text.IntToString | src/pedigree.cc:156 | an integer is written as one word without commas |
| Text.ParseRealDefined | src/create_evd.cc:90-96 | `std::stod` succeeds exactly when the text starts (after blanks and a sign) with a digit or a point and a digit |
| Text.ReadIntToString | src/pedigree_loader.cc:410 | extracting an integer that `<<` wrote gives it back and leaves the rest unread |
| Text.ReadIntsLine | src/pedigree_loader.cc:409-421 | extracting k integers from a line of k written integers gives them back |
| Text.ReadPadded | src/pedigree.cc:61-64 | an integer right-aligned to any width by `setw` is read back whole by `>>`, leaving the rest |
| Text.IndexOf | src/create_evd.cc:244-246 | `std::find`: the first position holding x, or the length when x is absent |
| CsvReader.TrimEndFacts | src/csv_reader.cc:41 | right trimming keeps a prefix, removes only blanks and stops at a non-blank |
| CsvReader.TrimStartFacts | src/csv_reader.cc:42 | left trimming keeps a suffix, removes only blanks and stops at a non-blank |
| CsvReader.TrimEnds | src/csv_reader.cc:41-42 | a trimmed field is empty or starts and ends with a non-blank |
| CsvReader.TrimEmpty | src/csv_reader.cc:41-42 | a field trims to "" exactly when it is all blanks |
| CsvReader.TrimSurrounded | src/csv_reader.cc:41-42 | blanks around a field that starts and ends with non-blanks are exactly what trimming removes |
| CsvReader.TrimIdempotent | src/csv_reader.cc:41-42 | trimming twice is trimming once |
| CsvReader.PieceFacts | src/csv_reader.cc:39 | `getline` on ',' takes the longest prefix without ',' and stops at a ',' |
| CsvReader.PiecesNoSep | src/csv_reader.cc:39 | no piece holds the separator |
| CsvReader.JoinPieces | src/csv_reader.cc:39 | the pieces joined with the separator give the line back |
| CsvReader.PiecesOfJoin | src/csv_reader.cc:39 | splitting pieces joined with the separator gives the pieces back |
| CsvReader.EmptyLineHasNoFields | src/csv_reader.cc:36-39 | an empty line gives no field |
| CsvReader.TrailingComma | src/csv_reader.cc:39 | a trailing ',' adds no empty last field |
| CsvReader.AdjacentCommas | src/csv_reader.cc:39 | "a,,b" gives the three fields "a", "" and "b" |
| CsvReader.RecordOfJoin | src/csv_reader.cc:36-44 | a row of trimmed fields without ',' and not ending in "" reads back as the same fields |
| CsvReader.Reader.constructor | src/csv_reader.cc:5-7 | the reader is open exactly when the file exists, and stands at the first line |
| CsvReader.Reader.GetHeader | src/csv_reader.cc:15-29 | false and nothing changed when closed or at the end; otherwise one line is consumed and its fields are appended to the vector, which is not cleared |
| CsvReader.Reader.GetRecord | src/csv_reader.cc:31-46 | false and nothing changed when closed or at the end; otherwise one line is consumed and the vector becomes exactly its fields |
| CsvReader.AppendFields | src/csv_reader.cc:20-27 | the field loop appends the trimmed fields of the line, in order |
| PhenotypeTable.Phenotypes.constructor | src/phenotypes.cc:12 | a new table has no file name, headers or data |
| PhenotypeTable.Phenotypes.Load | src/phenotypes.cc:16-30 | the file name is set even on failure; the load fails exactly when no header line can be read, leaving headers and data; on success the header fields are appended to the headers and the data is every following line's record, in file order |
| PhenotypeTable.Phenotypes.HasTrait | src/phenotypes.cc:36-38 | true exactly when some header equals the name |
| PhenotypeTable.ReadRows | src/phenotypes.cc:25-28 | the record loop reads every remaining line, in order, and leaves the reader at the end |
| PedigreeData.Pedigree.Stats | src/pedigree.cc:37-42 | the statistics of pedigree i for 0 <= i < nped, and the out_of_range error otherwise |
| PedigreeData.AnyMultipleLoops | src/pedigree.cc:44-49 | true exactly when some statistics line has more than one loop break |
| PedigreeData.AnyInbreeding | src/pedigree.cc:51-56 | true exactly when some statistics line is marked 'y' |
| PedigreeData.Pedigree.TotalsMessage | src/pedigree.cc:66-72 | the combined note when both predicates hold, the matching single note when one holds, nothing when neither holds |
| PedigreeData.Pedigree.ShowTotals | src/pedigree.cc:58-73 | the text is the file-name line and a blank line, then the four totals lines joined by newlines, a newline, then `TotalsMessage()` |
| PedigreeData.Pedigree.TotalsLines | src/pedigree.cc:61-64 | four lines whose leading integers read back as the number of pedigrees, nuclear families, individuals and founders, each followed by its caption |
| PedigreeData.TotalsLineReadBack | src/pedigree.cc:61-64 | a `setw(5)` count followed by a caption reads back as the count, leaving " " and the caption |
| PedigreeData.NewlineEachJoin | src/pedigree.cc:61-64 | lines each ended by a newline equal the lines joined by newlines plus one final newline |
| PedigreeData.Pedigree.ShowPedigree | src/pedigree.cc:113-116 | "No such pedigree." for an index out of range |
| PedigreeData.ShowPedigreeBits | src/pedigree.cc:118-142 | for an index in range, the heading and one row of seven tab-separated cells; the bits cell holds 2*nind - 3*nfou exactly when nind > 1 and is blank otherwise |
| PedigreeData.ExportRowRoundTrip | src/pedigree.cc:153-156 | the data row read back as CSV is filename, nind, nped, nfam, nfou |
| Files.LastSeparator | src/create_evd.cc:108 | `find_last_of("/\\")`: the last '/' or '\\', none exactly when the path has no separator |
| Files.DirectoryOf | src/create_evd.cc:106-111 | the output directory is shorter than the base name, and empty when the base name has no separator |
| Files.DirectoryOfSplit | src/create_evd.cc:106-111 | the directory of dir + separator + name is dir |
| Families.OtherJoins | src/pedigree_loader.cc:264-269 | a found `other` is the far end of an entry that touches the current person |
| Families.JoinsOther | src/pedigree_loader.cc:264-269 | every entry that touches the current person yields its far end as `other` |
| Families.VisitMatching | src/pedigree_loader.cc:273-279 | after the scan for `other`, that person is visited and in the current family, and the search invariant holds |
| Families.ScanEntries | src/pedigree_loader.cc:263-281 | after the loop over the entries, every neighbour of the current person is visited and in the current family |
| Families.ExploreFamily | src/pedigree_loader.cc:253-282 | the queue loop ends with an empty queue, keeps the search invariant, and keeps every earlier visit and family number |
| Families.ConcludeFamilies | src/pedigree_loader.cc:248-284 | the finished search is a family assignment |
| Families.AssignFamilies | src/pedigree_loader.cc:244-284 | persons and ids unchanged; every family number is in 1..nfamilies and used; both ends of every entry share a family; members of a family are connected; families are numbered in the order of their first member |
| Families.ConnectedSameFamily | src/pedigree_loader.cc:263-279 | persons linked by a chain of entries share a family |
| Families.FamiliesAreComponents | src/pedigree_loader.cc:245-284 | two persons share a family exactly when a chain of entries links them |
| Families.FirstPersonOpensFamilyOne | src/pedigree_loader.cc:248-256 | the first person is in family 1 and no family number is unused |
| PedigreeOutput.IdWidth | src/pedigree_loader.cc:298-303 | the identifier width is at least 30 |
| PedigreeOutput.IdWidthIsMax | src/pedigree_loader.cc:298-303 | the width bounds every identifier length and is 30 or the length of some identifier |
| PedigreeOutput.MaxIdLength | src/pedigree_loader.cc:298-303 | the loop computes that width |
| PedigreeOutput.MakeOutputPath | src/pedigree_loader.cc:22-33 | the bare name for an empty directory, otherwise dir + name with one '/' added only when dir does not end in '/' |
| PedigreeOutput.OutputPathsDistinct | src/pedigree_loader.cc:22-33 | different names give different paths in one directory |
| PedigreeOutput.OutputPathsInDistinct | src/pedigree_loader.cc:305-386 | the six output paths are pairwise different |
| PedigreeOutput.Spacing | src/pedigree_loader.cc:325 | 21 spaces before the identifier for family 1, 25 otherwise |
| PedigreeOutput.PedindexTokens | src/pedigree_loader.cc:323-333 | a pedindex line reads back as i+1, 0, 0, 0, family, 1 and the identifier (no seventh token for an empty identifier) |
| PedigreeOutput.WritePedindex | src/pedigree_loader.cc:319-335 | one pedindex line per person, in order |
| PedigreeOutput.WritePhi2 | src/pedigree_loader.cc:340-348 | one phi2 line per accepted entry, in order |
| PedigreeOutput.CdeWidth | src/pedigree_loader.cc:356-374 | pedindex.cde has 14 lines, and the last starts with the identifier width |
| PedigreeOutput.SummaryAgreesWithExport | src/pedigree_loader.cc:376-386 | solar-pedigree.csv equals the export of the reloaded pedigree exactly when there are as many individuals as families |
| PedigreeOutput.ParseLinesMeans | src/pedigree_loader.cc:424-433 | the stats loop succeeds exactly when the first nped lines exist and all read, and then holds their values |
| PedigreeOutput.ReadCountedLines | src/pedigree_loader.cc:424-433 | the loop reads nped lines, no line for a negative nped |
| PedigreeOutput.LoadPedigreeInfo | src/pedigree_loader.cc:389-442 | none when pedigree.info is missing, otherwise the reading of its lines |
| PedigreeOutput.ReloadInfo | src/pedigree_loader.cc:389-433 | reading back the pedigree.info the loader writes succeeds exactly when nfamilies <= 2, and gives the written totals and statistics |
| PedigreeOutput.WriteFilesContents | src/pedigree_loader.cc:295-387 | the five files hold the given lines, phi2 is gone, every other file is unchanged |
| PedigreeOutput.OutputFilesInfo | src/pedigree_loader.cc:305-317 | pedigree.info holds the name line, the widths, the totals and one or two statistics lines |
| PedigreeOutput.OutputFilesWritten | src/pedigree_loader.cc:319-386 | pedindex.out, phi2.gz, pedindex.cde and solar-pedigree.csv hold their lines |
| PedigreeOutput.OutputFilesKept | src/pedigree_loader.cc:350-353 | after gzip the uncompressed phi2 is gone, and files outside the six paths are unchanged |
| PedigreeOutput.CreateOutputFiles | src/pedigree_loader.cc:295-387 | the method writes exactly those files |
| PedigreeOutput.OutputPathFound | src/create_evd.cc:106-112 | a file the loader writes to its output directory is where the EVD stage looks for it, for every directory except "/" |
| PedigreeLoader.FirstIdColumn | src/pedigree_loader.cc:156-165 | IDA is the first header whose lower-cased form starts with "id", missing exactly when there is none |
| PedigreeLoader.SecondIdColumn | src/pedigree_loader.cc:156-165 | IDB is the second such header, after IDA, missing exactly when there are fewer than two |
| PedigreeLoader.KinColumn | src/pedigree_loader.cc:156-169 | KIN is the last header whose lower-cased form is "kin", missing exactly when there is none |
| PedigreeLoader.KinIsNotId | src/pedigree_loader.cc:160-168 | a "kin" header never starts with "id", so the else-branch loses nothing |
| PedigreeLoader.HeaderCase | src/pedigree_loader.cc:105-121 | an identifier header starts, in any case, with "id"; the kinship header is "kin" in any case |
| PedigreeLoader.SameHeaderSets | src/pedigree_loader.cc:105-121 | the columns resolve exactly for the headers the format test accepts |
| PedigreeLoader.ResolveColumns | src/pedigree_loader.cc:154-169 | the header loop computes the three columns |
| PedigreeLoader.HasEmpiricalColumns | src/pedigree_loader.cc:103-121 | the format loop accepts exactly two identifier headers and a kinship header |
| PedigreeLoader.HeaderOf | src/pedigree_loader.cc:95-100 | a header exists exactly when the file exists and has a line |
| PedigreeLoader.IsEmpiricalFormat | src/pedigree_loader.cc:94-122 | false without a header line; otherwise the format test on the header |
| PedigreeLoader.FindPerson | src/pedigree_loader.cc:196-201 | the index of the first person with the identifier, or -1 |
| PedigreeLoader.InternPerson | src/pedigree_loader.cc:194-225 | find or add: the persons stay the roster of the identifiers with x added only when new, so person i has sequential id i+1; the index is the identifier's position |
| PedigreeLoader.AddedDistinct | src/pedigree_loader.cc:202-209 | interning never creates two persons with one identifier |
| PedigreeLoader.AdmitPositions | src/pedigree_loader.cc:194-225 | after interning IDA then IDB, both are present, and their positions are equal exactly when the identifiers are |
| PedigreeLoader.AdmitEffect | src/pedigree_loader.cc:227-241 | a record adds at most one entry at the end, exactly when it passes the threshold rule or is a self-pair, with the two sequential ids and the kinship |
| PedigreeLoader.AdmitKeeps | src/pedigree_loader.cc:194-241 | a record keeps the identifiers distinct, the entries in range and every entry accepted |
| PedigreeLoader.ParseRowEffect | src/pedigree_loader.cc:185-192 | a record with too few fields changes nothing; a long enough one aborts exactly when its kinship is not a number, and is admitted otherwise |
| PedigreeLoader.FirstSeenAdd | src/pedigree_loader.cc:202-224 | the identifiers keep first-seen order |
| PedigreeLoader.AddRowKeeps | src/pedigree_loader.cc:182-242 | one loop iteration keeps the tables well formed and in first-seen order, IDA before IDB |
| PedigreeLoader.LoadRowsAborts | src/pedigree_loader.cc:182-192 | the record loop aborts exactly when some long enough record has a non-numeric kinship |
| PedigreeLoader.LoadRowsFacts | src/pedigree_loader.cc:182-242 | after the loop the identifiers are distinct and in first-seen order, and the entries name persons and passed the rule |
| PedigreeLoader.AddRecordStep | src/pedigree_loader.cc:183-241 | the loop body computes one step of the record fold |
| PedigreeLoader.ReadRecord | src/pedigree_loader.cc:182-242 | one `get_record` and body keep the loop invariant, or report the abort |
| PedigreeLoader.ReadTables | src/pedigree_loader.cc:176-242 | the record loop aborts exactly when the fold does, and otherwise yields its persons and entries |
| PedigreeLoader.ReadRows | src/pedigree_loader.cc:182-242 | the `while (get_record)` loop aborts exactly when the fold over the rows of the remaining lines does, and otherwise yields its tables |
| PedigreeLoader.Builder.constructor | src/pedigree_loader.h:37-40 | no file, threshold 0, no directory, automatic format |
| PedigreeLoader.Builder.FromFile | src/pedigree_loader.cc:37-40 | sets only the file name |
| PedigreeLoader.Builder.WithThreshold | src/pedigree_loader.cc:42-45 | sets only the threshold |
| PedigreeLoader.Builder.WithOutputDir | src/pedigree_loader.cc:47-50 | sets only the directory |
| PedigreeLoader.Builder.WithFormat | src/pedigree_loader.cc:52-55 | sets only the format |
| PedigreeLoader.Builder.Build | src/pedigree_loader.cc:57-82 | a loader exactly when the file name is non-empty and the file exists, carrying the builder's settings |
| PedigreeLoader.LoadEmpiricalPedigree | src/pedigree_loader.cc:144-293 | null for a missing header or columns, the abort for a non-numeric kinship, and otherwise the roster with a family assignment, the output files and the reloaded pedigree |
| PedigreeLoader.FinishLoad | src/pedigree_loader.cc:244-292 | families assigned, files written, pedigree.info read back |
| PedigreeLoader.LoadWritten | src/pedigree_loader.cc:286-292 | the reload gives the written pedigree exactly when nfamilies <= 2 |
| PedigreeLoader.Load | src/pedigree_loader.cc:124-142 | the same outcomes as the empirical load, the format test included |
| PedigreeLoader.AutoRefused | src/pedigree_loader.cc:126-134 | a header the format test refuses would also stop the empirical load before any record |
| CreateEvd.LastIndexIn | src/create_evd.cc:61-68 | the last header in the given set, -1 exactly when there is none |
| CreateEvd.ResolveColumns | src/create_evd.cc:57-68 | the id column is the last "id" or "ID" header and the trait column the last header equal to the trait |
| CreateEvd.ObservationsAppend | src/create_evd.cc:84-99 | the filter works row by row, in row order |
| CreateEvd.ObservationsMembers | src/create_evd.cc:84-99 | an observation is kept exactly when some row has both columns and a present, numeric trait value |
| CreateEvd.FilterPhenotypes | src/create_evd.cc:80-99 | the loop yields the identifiers and values of those rows, of equal length and in row order |
| CreateEvd.ObservedIds | src/create_evd.cc:84-99 | an identifier is kept exactly when some usable row carries it |
| CreateEvd.SeventhTokens | src/create_evd.cc:120-133 | no more identifiers than lines, each a word |
| CreateEvd.SeventhTokensSnoc | src/create_evd.cc:127-132 | a line gives its seventh token when it has at least seven, and nothing otherwise |
| CreateEvd.ReadPedigreeIds | src/create_evd.cc:120-134 | the pedindex loop yields the seventh tokens |
| CreateEvd.PedindexIdsRoundTrip | src/create_evd.cc:121-133 | reading the pedindex the loader writes gives the original identifiers in order, for identifiers without whitespace |
| CreateEvd.MatchedMembers | src/create_evd.cc:148-157 | an identifier is valid exactly when it is in both the pedigree and the phenotype identifiers |
| CreateEvd.MatchedAppend | src/create_evd.cc:148-157 | the valid identifiers follow pedigree order |
| CreateEvd.Reconcile | src/create_evd.cc:145-157 | the loop yields the valid identifiers and the value of each one's first phenotype match |
| CreateEvd.FirstValues | src/create_evd.cc:151-155 | each valid identifier's value is the one at its first phenotype match |
| CreateEvd.IndexValidIds | src/create_evd.cc:241-251 | the phi2 indices exist exactly when every valid identifier is in the pedindex; each is 1 + its first position there |
| CreateEvd.MatchedIndexed | src/create_evd.cc:242-251 | with the pedindex unchanged between the two reads, every lookup succeeds |
| CreateEvd.PositionIsSequentialId | src/create_evd.cc:246 | a person's phi2 index is its sequential id |
| CreateEvd.ReadPhi2 | src/create_evd.cc:256-276 | the phi2 loop yields the map of the parsed lines |
| CreateEvd.StoreSymmetric | src/create_evd.cc:269-274 | storing one line keeps the map symmetric |
| CreateEvd.Phi2MapSymmetric | src/create_evd.cc:265-275 | the finished map is symmetric |
| CreateEvd.StoreAllKeys | src/create_evd.cc:266-275 | a pair has a value exactly when some parsed line names it in either order |
| CreateEvd.Phi2MapLatest | src/create_evd.cc:266-275 | the value of a pair comes from the last line that names it |
| CreateEvd.ScanWrittenPhi2Line | src/create_evd.cc:269 | a phi2 line the loader writes scans back to its two ids and kinship |
| CreateEvd.Phi2MatrixCell | src/create_evd.cc:281-295 | cell (r, c) holds the map value at the indices of the later and the earlier identifier, 0 when absent; the matrix is symmetric |
| CreateEvd.AssemblePhi2 | src/create_evd.cc:253-295 | the nested loops fill every cell of the n*n array with that value |
| CreateEvd.WriteJoined | src/create_evd.cc:332-335 | the values written with a space between them |
| CreateEvd.TokensOfTerminated | src/create_evd.cc:348-352 | values each followed by a space read back as the same words |
| CreateEvd.WriteEigenvectors | src/create_evd.cc:346-352 | every value in column-major order, each followed by a space |
| CreateEvd.SelectIds | src/create_evd.cc:28-163 | a selection needs a base name, a pedigree, a table and a trait, and is non-empty with one value per identifier |
| CreateEvd.SelectValidIds | src/create_evd.cc:28-163 | the method computes that selection |
| CreateEvd.SelectedMembers | src/create_evd.cc:143-163 | a selected identifier is exactly one that is in the pedindex and has a usable phenotype row |
| CreateEvd.Decompose | src/create_evd.cc:207-317 | a decomposition has n eigenvalues and n*n eigenvector entries |
| CreateEvd.ComputeEigenDecomposition | src/create_evd.cc:207-360 | status 0 and both eigen files written when the decomposition succeeds, otherwise status 1 and no file written |
| CreateEvd.CreateEvdRun | src/create_evd.cc:22-205 | status 0 or 1, and 1 with the disk unchanged when the selection refuses |
| CreateEvd.CreateEvdData | src/create_evd.cc:22-205 | the method computes that run |
| CreateEvd.WrittenNamesApart | src/create_evd.cc:168-169 | the files the stage reads and writes have different names |
| CreateEvd.EvdWritesIds | src/create_evd.cc:167-194 | after a selection the .ids file reads back as the valid identifiers, and .notes holds the count, the phenotype file and the trait |
| CreateEvd.EvdStatus | src/create_evd.cc:196-205 | after a selection, the call succeeds exactly when phi2.gz exists and the eigensolver succeeds on the assembled matrix |
| CreateEvd.EvdFailureKeepsEigenFiles | src/create_evd.cc:309-317 | a failed call writes no eigen file |
| CreateEvd.EvdSucceeded | src/create_evd.cc:196-205 | a successful call selected identifiers, decomposed, and wrote exactly the ids, notes and eigen files |
| CreateEvd.EigenFilesReadBack | src/create_evd.cc:324-353 | the eigenvalue line reads back as n words and the eigenvector line as n*n, with entry col*n+row at position col*n+row |
| CreateEvd.EvdFindsLoaderFiles | src/create_evd.cc:106-112 | a base name in the loader's output directory finds its pedindex.out and phi2.gz |
| Fphi.ExtractDirectory | src/fphi.cc:21-34 | "" for a null or empty path or one without separator, otherwise the prefix before the last separator |
| Fphi.ExtractDirectorySplit | src/fphi.cc:21-34 | the directory of dir + separator + name is dir, the same as the EVD stage computes |
| Fphi.ReadEigenvalues | src/fphi.cc:548-561 | the eigenvalues exist exactly when every token parses, and are their values |
| Fphi.EigenvaluesReadBack | src/fphi.cc:549-561 | the eigenvalue line the EVD stage writes reads back as one value per eigenvalue, each the parse of its rendering |
| Fphi.Consumed | src/fphi.cc:584-585 | the unpack reads tokens until n*n or the end of the line |
| Fphi.UnpackedCells | src/fphi.cc:577-593 | value k lands at row k mod n, column k div n, and unread cells stay 0.0 |
| Fphi.ReadEigenvectors | src/fphi.cc:577-594 | the matrix exists exactly when every consumed token parses, and is their column-major unpack |
| Fphi.ReadColumn | src/fphi.cc:585-592 | after one column's row loop, the cells are the column-major unpack of every token up to the end of that column or of the line; a failure means some consumed token does not parse |
| Fphi.EigenvectorsReadBack | src/fphi.cc:577-594 | the unpack inverts the column-major writer: cell (row, col) is the parse of entry col*n+row |
| Fphi.EigenvectorsReadBackAll | src/fphi.cc:577-594 | all n*n written entries are consumed and parse back in order |
| Fphi.FirstUsableFound | src/fphi.cc:623-638 | a value is found exactly when some row with enough fields, the identifier and a present, numeric value exists |
| Fphi.FirstUsableFirst | src/fphi.cc:625-637 | the value comes from the first such row; rows with "NA", "." or non-numbers are passed over |
| Fphi.LookupPhenotype | src/fphi.cc:624-638 | the row loop finds that value |
| Fphi.FirstUsableObserved | src/fphi.cc:623-638 | the lookup agrees with the EVD stage's filter: the value of the identifier's first observation |
| Fphi.LookupPhenotypes | src/fphi.cc:619-647 | values exist exactly when every identifier finds one, and are those values in identifier order |
| Fphi.Constraint | src/fphi.cc:48-50 | t*t/(1+t*t) lies in [0, 1) |
| Fphi.ConstraintFacts | src/fphi.cc:48-50 | the constraint is even and maps 1 to 0.5 |
| Fphi.Tolerance | src/fphi.cc:251 | 10 to the minus precision is in (0, 1] |
| Fphi.NewtonSearch | src/fphi.cc:172-315 | the search follows the finished path of parameters from t = 1, and is stuck exactly when XTOX vanishes at the last h2r it reaches (at 0.5 or after a step); otherwise it settles at that h2r with its loglik, after one loop body per later parameter, with the last step and the h2r it proposed; a loop that ends early only on a NaN step or a move below the tolerance; h2r stays 0.5 when the first step is NaN |
| Fphi.FinishedPathUnique | src/fphi.cc:196-315 | the numerics and the tolerance determine the path: at most one sequence of parameters starts at 1, moves only where the loop body runs, and stops where the loop stops |
| Fphi.SearchStuckAt | src/fphi.cc:196-197 | the search gets stuck exactly when XTOX vanishes at the last h2r of the finished path (fphi.cc:196-197 at 0.5, fphi.cc:276-277 after a step) |
| Fphi.SearchSettlesUnique | src/fphi.cc:238-315 | the search settles at one estimate after one number of loop bodies, and a search that settles is not stuck |
| Fphi.BoundaryTest | src/fphi.cc:317-361 | near a boundary, 1.0 (h2r >= 0.9) or 0.0 is adopted exactly when its XTOX is nonzero and its loglik strictly greater; the loglik never drops |
| Fphi.BoundaryTestMoves | src/fphi.cc:318-359 | an interior h2r is never moved, and a moved one is 0.0 or 1.0 |
| Fphi.FindMaxLoglik | src/fphi.cc:162-361 | singular exactly when the search reaches an h2r with a vanishing XTOX (in particular when XTOX vanishes at 0.5); otherwise the boundary test starts from the estimate where the search settles, after the number of loop bodies the search ran, giving a fit in [0, 1] whose loglik is at least the interior one, after fewer than 100 iterations |
| Fphi.ChoosePValue | src/fphi.cc:690-697 | the chi-square p-value exactly when the sporadic loglik is below the fit's, with statistic 2(loglik - sporadic) > 0; otherwise 0.5; indeterminate for a singular fit |
| Fphi.PValueOf | src/fphi.cc:690-697 | 0.5 for a non-significant result, none only when indeterminate |
| Fphi.NotationOf | src/fphi.cc:708-712 | scientific notation exactly for p < 1e-6 |
| Fphi.NonSignificantFixed | src/fphi.cc:695-712 | the fallback 0.5 is written in fixed notation |
| Fphi.ReadFphiInputs | src/fphi.cc:486-647 | ready inputs have n > 0 identifiers, n eigenvalues, n phenotype values and an n by n eigenvector matrix |
| Fphi.ReadInputs | src/fphi.cc:486-647 | the reading loops compute those inputs or the reason for stopping |
| Fphi.ReadyFields | src/fphi.cc:515-594 | ready inputs are the first-line tokens of .ids, the parsed eigenvalues, and the column-major unpack of the eigenvectors |
| Fphi.RunFphi | src/fphi.cc:480-732 | status 0 exactly when the inputs are ready; then the fit is sound, singular exactly when the search on the inputs' numerics gets stuck and otherwise started from the estimate where that search settles, the p-value is chosen from the sporadic loglik, and n is the identifier count |
| Fphi.FoundSelected | src/fphi.cc:619-647 | every identifier the EVD stage selected finds its value, and it is the value the EVD stage selected |
| Fphi.EvdThenFphi | src/fphi.cc:515-647 | after a successful EVD stage whose numbers are single words, FPHI reads its files: ready, with the selected identifiers and values |
| Fphi.EvdThenFphiEigen | src/fphi.cc:541-594 | the eigenvalues and eigenvectors FPHI reads are the parsed renderings of those the EVD stage decomposed |
| SolarSession.Session.constructor | src/solar_session.h:89-93 | a new session holds nothing, threshold 0 |
| SolarSession.Session.HasPedigree | src/solar_session.h:75 | true exactly when a pedigree is held |
| SolarSession.Session.HasPhenotypes | src/solar_session.h:76 | true exactly when a phenotype table is held |
| SolarSession.Session.HasTrait | src/solar_session.h:77 | true exactly when the trait name is not empty |
| SolarSession.Session.LoadPedigree | src/solar_session.cc:10-47 | phenotypes and trait always kept; a builder refusal returns 1 and changes nothing; a stod abort throws and changes nothing; a failed load returns 1 and drops the pedigree, keeping threshold and directory; success returns 0 and stores pedigree, threshold and directory |
| SolarSession.Session.LoadPhenotypes | src/solar_session.cc:49-69 | 1 and nothing changed without a pedigree; otherwise a new table is loaded, 0 exactly when its header line exists, and a failure leaves no table |
| SolarSession.Session.SelectTrait | src/solar_session.cc:71-94 | 0 exactly when there is a table and the name is one of its headers ("id" included), setting only the trait; otherwise 1 with the trait unchanged |
| SolarSession.Session.RunFphi | src/solar_session.cc:96-160 | 1 with the disk untouched unless pedigree, phenotypes and trait are present; then the EVD stage runs, and the call succeeds exactly when it and FPHI on its files succeed; on success the fit is sound and singular exactly when the search gets stuck and otherwise started from where it settles, the p-value is chosen from the sporadic loglik and the subject count is the identifier count; with single-word renderings, success is exactly that of the EVD stage |
| SolarSession.Session.Reset | src/solar_session.cc:162-168 | no pedigree, phenotypes or trait, threshold 0, no directory |

## Left out

- File opening, stream failures, writing failures and `gzip` run through
  `system()`. Every write is modelled as succeeding, and every read as
  reading the lines of the `Disk`. `gzopen`/`gzgets` read the lines that
  were compressed.
- `gzgets` reads into a 1024-byte buffer. A longer phi2 line would be
  read in pieces, and the model reads it whole.
- Number formatting (`setw` on reals, `setprecision`, fixed against
  scientific) is the `show`/`showKinship` parameter. Only the branch
  between scientific and fixed notation for the p-value is modelled
  (`Fphi.NotationOf`).
- Text.ParseReal: decimal numbers with an optional exponent only. `inf`,
  `nan`, hexadecimal input and out-of-range values (`std::out_of_range`)
  are not modelled.
- Integer widths: counts, sequential ids and column indices are unbounded
  `int`s. No 32-bit overflow is modelled.
- The numerics of `find_max_loglik_2` are not modelled: `calculate_fphi_loglik`, the
  derivatives and their constraint terms, the Newton update, the 3×3
  Hessian, `matrix_invert`, standard errors, and the eigenspace rotation
  of Y and X. They sit behind `Fphi.Numerics`. The `fitter` parameter of
  `Fphi.RunFphi` gives the numerics of each input set, so the link from
  the inputs to the fitted values is not stated.
- Fphi.NewtonSearch: the path of the search and when it is stuck are
  stated exactly, but the Newton step is an abstract function of the
  numerics. So nothing is stated about convergence, that is, about how
  close the h2r it settles at is to a maximum of the log-likelihood.
- Fphi.NewtonSearch: an infinite step (a zero Hessian with a nonzero
  score) is modelled as `Delta.NaN`. In the source it passes the NaN
  test, but it makes the proposed h2r NaN. So the loop ends with h2r
  unchanged, as it does for a NaN step.
- Fphi.Constraint: states the range [0, 1) and that the constraint is
  even. The fact that h2r is 0 exactly when t is 0 is not stated.
- NaN is only the `Delta.NaN` step and the `Singular` fit. The source's
  test `h2r == h2r` before the boundary test is always true here, because
  h2r is the constraint of a finite parameter.
- `cdfchi_` is the `chi` parameter of `Fphi.PValueOf`, and `symeig_` is
  the `Eigensolver` parameter. That `symeig_` overwrites the phi2 array
  in place is not observable after the call and is not modelled.
- The output files `_fphi_results.out` and `_parameters.out` are not
  modelled; only the p-value notation choice is. Neither is the unused
  `output_dir` that `run_fphi` computes.
- CreateEvd.Reconcile: computes `filtered_trait_values` as the source
  does. The source never uses them afterwards.
- CreateEvd.PedindexIdsRoundTrip: holds for identifiers without
  whitespace only. An identifier with a space is split by `>>`, as in the
  source.
- Console output (`COUT`/`CERR`), `Phenotypes::describe` (empty) and the
  static `Pedigree::SexVar` flag set by `load_pedigree`.
- SolarSession.Session.LoadPedigree: the builder's existence check is
  `file in disk`. The `SexVar` side effect is not modelled.
- `show_all` and the header declarations other than the structs and the
  builder defaults. `src/rcpp_interface.cpp` (the R binding and its
  global session) is not part of this model.
