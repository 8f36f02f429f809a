# CMS DAS ttbar event reader: a Dafny model

This project models the event-reading core of a small ROOT-based top-quark
analysis package. It has four parts.

- **The systematics taxonomy.** There are ten sources of systematic
  variation and two directions. A (source, direction) pair is packed into a
  code `2 * source + direction`.
- **The physics value types.** `Candidate`, `Lepton`, `Jet` and `MET`:
  - a lepton's mass follows from its PDG flavour;
  - a jet's mass is zero and its flavour defaults to 0 ("unknown");
  - MET has zero pseudorapidity and mass and is updated in place;
  - `operator<` orders objects by transverse momentum.
- **The CSV b-tag reweighter.**
  - Its constructor reads three families of calibration tables (bottom,
    charm, light) from two files into maps from systematic code to a grid of
    histograms, and refuses to finish if any table is missing.
  - `CalculateJetWeight` bins a jet in pt and |eta| and picks the family by
    |flavour|. It falls back to the nominal table when the family has no
    table for the requested variation. It then reads the histogram bin of
    the jet's discriminator.
- **The event reader.** It walks a list of trees of a source file one entry
  at a time. For each entry it:
  - copies the leptons, jets and METs out of fixed 64-slot read buffers;
  - orders the collections by decreasing pt;
  - weights the event by its generator weight times the product of the
    non-zero per-jet b-tag weights.

Modules, one per file:

| module | file | what it holds |
|---|---|---|
| `Wrappers` | wrappers.dfy | `Option`, `Result` |
| `Systematics` | systematics.dfy | `SystType`, `SystDirection` |
| `PhysicsObjects` | physics_objects.dfy | value types, class `MET`, descending sort |
| `Histograms` | histograms.dfy | edges-plus-contents histograms, `FindFixBin`, threshold counting |
| `CSVReweighting` | csv_reweighter.dfy | the reweighter value, `JetWeight` and the lookup method `CalculateJetWeight` |
| `CSVLoading` | csv_loading.dfy | the constructor as `Load`: loading loops, validation loops, error reporting |
| `EventStream` | event_stream.dfy | the reader's walk over trees as a step function on a cursor; traces of repeated calls |
| `EventReader` | reader.dfy | the weight product and the class `Reader` with its buffers (arrays), collections and cursor |

Modelling choices:

- **The reweighter is an immutable value.** Its maps never change after
  construction. Construction is a method `Load` whose loops fill and then
  validate the grids the way the constructor does.
- **`CalculateJetWeight` is a method** with the two threshold scans as
  loops. It is proved equal to the specification function `JetWeight`, and
  the lookup's promises are proved as lemmas about `JetWeight`.
- **The reader is a class.**
  - Its cursor fields, collections and weight are fields the methods update.
  - Its read buffers are arrays of capacity 64.
  - Its METs are `MET` objects updated with `Set`.
  - Each method is proved against the step function `EventStream.NextStepFixed`
    and the predicate `HoldsEvent`.
- **Calibration files and source trees are values.** A calibration file is a
  map from histogram name to histogram; a missing name stands for a null
  `Get`. A source file is a map from tree name to a sequence of entries.
- **Entries are copied into the buffers as rows.** An entry's rows are its
  branch contents, and `GetEntry` copies them into the buffers.

Where the repository disagrees with itself, the model follows `Reader.cpp` and
`CSVReweighter.cpp`:

- **Systematic types.** `CSVReweighter.hpp` declares an older single
  `Systematics` enumeration. The model uses `SystType`/`SystDirection` as the
  .cpp does, with the enumerator names of `Systematics.hpp` (`PurityHF` is
  `BTagPurityHF`, and so on).
- **Constructor and weight.** The header's `isMC` constructor argument does
  not exist in `Reader.cpp`. There `GetTree` always sets `isMC`, and the
  weight is computed eagerly with the nominal variation. The example drivers
  also call a three-argument constructor and `SetSystematics`, which
  `Reader.cpp` does not define.
- **The pt window has no upper limit.** The thresholds
  {20, 30, 40, 60, 100, 160} GeV are lower bin edges, so a jet with
  pt ≥ 160 GeV falls in pt bin 5 and is reweighted. Only pt < 20 GeV or
  |eta| ≥ 2.4 gives 1.0 (`CSVReweighting.AcceptanceWindow`,
  `CSVReweighting.HighPtUsesLastBin`).
- **Data weight.** The header says the weight of data is always 1. The code
  sets it to the raw-weight buffer, which is not bound for data. The model
  states what the code does: `weight == old(rawWeight)` when `!isMC`.

## Model

| member | source | states |
|---|---|---|
| `Systematics.SystTypeIsDense` | Reader/Systematics.hpp:9-21 | there are exactly ten sources; the value of each enumerator is its position in declaration order, and every source is listed |
| `Systematics.SystTypeOrdinalInjective` | Reader/Systematics.hpp:9-21 | two sources have the same underlying value only if they are the same source |
| `Systematics.SystDirectionValues` | Reader/Systematics.hpp:25-29 | Up is 0 and Down is 1, and there is no other direction |
| `PhysicsObjects.LessIsStrictWeakOrder` | Reader/PhysicsObjects.cpp:56-59 | `a < b` holds exactly when a's pt is below b's; the order is irreflexive and transitive, and two objects are incomparable exactly when their pt are equal |
| `PhysicsObjects.LeptonMassBySpecies` | Reader/PhysicsObjects.cpp:72-88 | the lepton mass depends only on \|flavour\|: 0.511e-3 for 11, 105.7e-3 for 13, 1776.8e-3 for 15, and 0 for anything else |
| `PhysicsObjects.NewLepton` | Reader/PhysicsObjects.cpp:69-93 | the lepton's flavour, isolation, pt, eta and phi are the arguments; its mass is the species mass, the same for f and -f |
| `PhysicsObjects.DefaultLepton` | Reader/PhysicsObjects.cpp:63-66 | the default lepton has a zero four-momentum and zero flavour and isolation |
| `PhysicsObjects.NewJet` | Reader/PhysicsObjects.cpp:115-118 | the jet's flavour, discriminator, pt, eta and phi are the arguments, and its mass is zero |
| `PhysicsObjects.JetFlavourDefaultsToUnknown` | Reader/PhysicsObjects.hpp:113 | omitting the flavour gives flavour 0, the same jet as passing 0 |
| `PhysicsObjects.DefaultJet` | Reader/PhysicsObjects.cpp:109-112 | the default jet has a zero four-momentum and zero flavour and discriminator |
| `PhysicsObjects.MetP4` | Reader/PhysicsObjects.cpp:139-141 | a MET four-momentum carries the given pt and phi, with zero pseudorapidity and mass |
| `PhysicsObjects.MET.constructor` | Reader/PhysicsObjects.cpp:134-136 | a default MET has a zero four-momentum |
| `PhysicsObjects.MET.FromPtPhi` | Reader/PhysicsObjects.cpp:139-141 | `MET(pt, phi)` holds the MET four-momentum of (pt, phi) |
| `PhysicsObjects.MET.Set` | Reader/PhysicsObjects.cpp:144-147 | `Set(pt, phi)` overwrites the object in place with the state `MET(pt, phi)` would have, whatever it held before |
| `PhysicsObjects.InsertDescending` | Reader/Reader.cpp:84-85 | inserting into a non-increasing sequence keeps it non-increasing and adds exactly that element |
| `PhysicsObjects.SortDescending` | Reader/Reader.cpp:84-91 | the result is in non-increasing key order and is a permutation of the input |
| `Histograms.CountLEBrackets` | Reader/CSVReweighter.cpp:183-197 | for ascending thresholds, the count of thresholds <= x locates x: the last counted threshold is <= x and the next one is > x |
| `Histograms.CountLEUnique` | Reader/CSVReweighter.cpp:183-197 | for ascending thresholds only one position brackets x, so that position is the count |
| `Histograms.FindFixBinLocates` | Reader/CSVReweighter.cpp:224 | `FindFixBin` gives the underflow bin below the first edge, the overflow bin from the last edge on, and otherwise the bin whose edges bracket x |
| `CSVReweighting.EncodeSyst` | Reader/CSVReweighter.cpp:267-270 | every code is below 20, and the code is 0 exactly for (Nominal, Up) |
| `CSVReweighting.EncodeSystInjective` | Reader/CSVReweighter.cpp:267-270 | two variations have the same code exactly when they are the same (source, direction) pair |
| `CSVReweighting.FamilyCodesMatchSupport` | Reader/CSVReweighter.cpp:55-83 | a family's key set contains a normalised request exactly when the family has tables for its source |
| `CSVReweighting.PtBinLocates` | Reader/CSVReweighter.cpp:179-189 | the pt bin lies in -1..5; it is -1 exactly below 20 GeV and 5 exactly from 160 GeV on, and otherwise consecutive cuts bracket the pt |
| `CSVReweighting.EtaBinLocates` | Reader/CSVReweighter.cpp:191-197 | the \|eta\| bin lies in 0..3; it is 3 exactly from 2.4 on, and otherwise consecutive cuts bracket \|eta\| |
| `CSVReweighting.AcceptanceWindow` | Reader/CSVReweighter.cpp:201 | the bins are accepted exactly when pt >= 20 and \|eta\| < 2.4; there is no upper pt limit |
| `CSVReweighting.OutOfAcceptanceIsUnit` | Reader/CSVReweighter.cpp:200-202 | below 20 GeV or from \|eta\| = 2.4 on, the weight is exactly 1.0 whatever the flavour, variation or discriminator |
| `CSVReweighting.NominalDirectionIgnored` | Reader/CSVReweighter.cpp:205-210 | (Nominal, Down) gives the same weight as (Nominal, Up) |
| `CSVReweighting.UnsupportedSystematicIsNominal` | Reader/CSVReweighter.cpp:216-253 | a source the jet's family has no tables for gives that family's nominal weight |
| `CSVReweighting.SupportedSystematicReadsOwnTable` | Reader/CSVReweighter.cpp:216-253 | inside the acceptance, a source the family supports reads that family's own table for the requested variation, in the jet's bins |
| `CSVReweighting.HighPtUsesLastBin` | Reader/CSVReweighter.cpp:183-189 | from 160 GeV on, heavy-flavour jets read pt bin 5 and light jets the clipped pt bin 3 |
| `CSVReweighting.DiscriminatorBin` | Reader/CSVReweighter.cpp:224 | the bin read always exists in the histogram |
| `CSVReweighting.DiscriminatorBinLocates` | Reader/CSVReweighter.cpp:224 | a negative discriminator reads bin 1; a non-negative one reads the bin whose edges bracket it |
| `CSVReweighting.LocateBin` | Reader/CSVReweighter.cpp:179-197 | the scan that stops at the first cut above x returns the number of cuts <= x, minus one |
| `CSVReweighting.ReadTable` | Reader/CSVReweighter.cpp:224-225 | the weight is the content of the discriminator's bin: bin 1 for a negative value, otherwise a bin whose edges bracket the value |
| `CSVReweighting.LookUpTable` | Reader/CSVReweighter.cpp:216-256 | the histogram is the table of the jet's family for the code, or for (Nominal, Up) when the family lacks the code, with light jets' pt bin clipped to 3 |
| `CSVReweighting.CalculateJetWeight` | Reader/CSVReweighter.cpp:175-258 | the returned weight is `JetWeight` of the reweighter, jet and variation |
| `CSVReweighting.CalculateNominalJetWeight` | Reader/CSVReweighter.cpp:261-264 | the one-argument overload gives the (Nominal, Up) weight, which is also the (Nominal, Down) weight |
| `CSVLoading.Decimal` | Reader/CSVReweighter.cpp:53 | a number is written as a non-empty string of decimal digits; below 10, as one digit |
| `CSVLoading.BottomSpecsMatchFamily` | Reader/CSVReweighter.cpp:55-72 | the nine bottom tables have distinct codes, and their codes are exactly the bottom key set |
| `CSVLoading.CharmSpecsMatchFamily` | Reader/CSVReweighter.cpp:74-83 | the five charm tables have distinct codes, and their codes are exactly the charm key set |
| `CSVLoading.LightSpecsMatchFamily` | Reader/CSVReweighter.cpp:130-147 | the nine light tables have distinct codes, and their codes are exactly the light key set |
| `CSVLoading.HFFillStep` | Reader/CSVReweighter.cpp:55-83 | storing one table's lookup in a pt bin (creating an all-null grid for a new key) extends the partly read grid by exactly that cell |
| `CSVLoading.FillHFRow` | Reader/CSVReweighter.cpp:52-83 | reading one heavy-flavour pt bin sets that bin of every table to the file's lookup, leaving later bins null |
| `CSVLoading.LFStoreCells` | Reader/CSVReweighter.cpp:130-147 | storing one light table's lookup in a cell sets that one cell of that one grid |
| `CSVLoading.LFStoreShape` | Reader/CSVReweighter.cpp:130-147 | storing one light table's lookup adds its code to the keys and keeps every grid 4 by 3 |
| `CSVLoading.LFFillStep` | Reader/CSVReweighter.cpp:130-147 | storing one light table's lookup in a cell extends the partly read grid by exactly that cell |
| `CSVLoading.FillLFCell` | Reader/CSVReweighter.cpp:127-147 | reading one (pt, \|eta\|) cell sets it in every light table to the file's lookup |
| `CSVLoading.LoadHF` | Reader/CSVReweighter.cpp:50-84 | after the heavy-flavour loop, each of the bottom and charm maps has one key per table, and every cell is the file's lookup of that cell's name |
| `CSVLoading.LoadLF` | Reader/CSVReweighter.cpp:124-148 | after the light loop, the light map has one key per table, and every cell is the file's lookup of that cell's name |
| `CSVLoading.HFLoaded` | Reader/CSVReweighter.cpp:50-84 | a completely read heavy-flavour grid has exactly the family's codes as keys, and each cell is the lookup of its name |
| `CSVLoading.LFLoaded` | Reader/CSVReweighter.cpp:124-148 | a completely read light grid has exactly the light codes as keys, and each cell is the lookup of its name |
| `CSVLoading.ValidateHF` | Reader/CSVReweighter.cpp:88-109 | the check passes exactly when no cell is null; otherwise it names the family, code and pt bin of the first null cell in ascending (code, pt bin) order |
| `CSVLoading.ValidateLF` | Reader/CSVReweighter.cpp:152-164 | the check passes exactly when no cell is null; otherwise it names the first (code, pt bin) with a null \|eta\| cell, and reports the pt bin only |
| `CSVLoading.HFNoGapIffComplete` | Reader/CSVReweighter.cpp:88-109 | a loaded heavy-flavour grid has no null cell exactly when the file holds every table of the family |
| `CSVLoading.HFGapIsFirstMissing` | Reader/CSVReweighter.cpp:88-109 | the first null cell the check meets is the first missing table of the file in check order |
| `CSVLoading.LFNoGapIffComplete` | Reader/CSVReweighter.cpp:152-164 | the loaded light grid has no null cell exactly when the file holds every light table |
| `CSVLoading.LFGapIsFirstMissing` | Reader/CSVReweighter.cpp:152-164 | the first (code, pt bin) with a null cell is the first one with a missing table |
| `CSVLoading.CheckHF` | Reader/CSVReweighter.cpp:88-109 | the heavy-flavour check passes exactly when the file is complete for the family, and otherwise reports the first missing table |
| `CSVLoading.CheckLF` | Reader/CSVReweighter.cpp:152-164 | the light check passes exactly when the file is complete, and otherwise reports the first missing (code, pt bin) |
| `CSVLoading.HFTablesReadFrom` | Reader/CSVReweighter.cpp:50-109 | the tables of a complete heavy-flavour grid have the family's key set, six pt bins each, and each cell is the file's table of that name |
| `CSVLoading.LFTablesReadFrom` | Reader/CSVReweighter.cpp:124-164 | the tables of a complete light grid have the light key set, 4 by 3 cells each, and each cell is the file's table of that name |
| `CSVLoading.CompleteGridsReadFrom` | Reader/CSVReweighter.cpp:50-164 | complete grids give a reweighter with the fixed key sets and full grids, whose every cell is the file's table of that name |
| `CSVLoading.Load` | Reader/CSVReweighter.cpp:49-172 | construction succeeds exactly when both files hold every table. On success the reweighter has 9/5/9 keys with every bin filled from the files; on failure it reports the first missing table, checking bottom, then charm, then light |
| `EventStream.Start` | Reader/Reader.cpp:15-25 | construction positions the reader on the first tree, before its first entry, with that tree's entry count |
| `EventStream.NextStep` | Reader/Reader.cpp:33-49 | the step as written: an event leaves an open tree and a readable position; only an event fetches; the iterator moves by at most one name |
| `EventStream.NextStepFixed` | Reader/Reader.cpp:33-49 | the corrected step: an event leaves an open tree and a readable position; only an event fetches; the iterator never moves back |
| `EventStream.ReadStepFixed` | Reader/Reader.cpp:48-49 | inside a tree with an entry left, a step reads that entry and moves one past it |
| `EventStream.FixedStepConsumesOne` | Reader/Reader.cpp:36-49 | a step consumes exactly the next pending entry, or reports the end when nothing is pending; it never reads past a tree's end |
| `EventStream.FixedStepStaysInTree` | Reader/Reader.cpp:36-49 | from any position the reader can be in, a step that reports an event read an existing entry and stays inside a tree |
| `EventStream.DrainFixed` | Reader/Reader.cpp:33-49 | from any in-tree position, repeated calls deliver exactly the pending entries in order and then report the end |
| `EventStream.ReadsAllTreesInOrder` | Reader/Reader.hpp:25-31 | after construction, repeated calls deliver every entry of every named tree, tree by tree in the given order, and then return false |
| `EventStream.StepsAgreeOnNonEmptyTrees` | Reader/Reader.cpp:36-49 | when no later tree is empty, the step as written and the corrected step coincide |
| `EventStream.RunsAgreeOnNonEmptyTrees` | Reader/Reader.cpp:33-108 | when no later tree is empty, any number of calls of the reader as written observe exactly what the corrected reader observes |
| `EventStream.ReadsAllNonEmptyTreesInOrder` | Reader/Reader.cpp:48-49 | with every tree after the first non-empty, the reader as written delivers all entries tree by tree and then the end |
| `EventStream.PastEmptyTreeForever` | Reader/Reader.cpp:36-49 | once past the end of an empty tree, every call of the reader as written reports an event and reads nothing |
| `EventStream.EmptySecondTreeNeverEnds` | Reader/Reader.cpp:36-49 | with trees A = [e] and B = [], the reader as written reports events forever after delivering e; the corrected reader delivers e and then the end |
| `EventReader.SortDecreasing` | Reader/Reader.cpp:84-91 | sorting the reversed range gives a non-increasing permutation of the collection |
| `EventReader.BuildLeptons` | Reader/Reader.cpp:53-56 | the rebuilt lepton collection has exactly `lepSize` leptons, the k-th made from buffer row k |
| `EventReader.BuildJets` | Reader/Reader.cpp:58-61 | a rebuilt jet collection has exactly `size` jets, the k-th made from buffer row k |
| `EventReader.ApplyBTagWeights` | Reader/Reader.cpp:95-104 | the loop's weight is the raw weight times the product of the jets' nominal weights, zero weights skipped |
| `EventReader.BTagProductNonZero` | Reader/Reader.cpp:97-104 | skipping zero factors keeps the b-tagging product away from zero |
| `EventReader.EventWeightZeroIff` | Reader/Reader.cpp:95-104 | a simulated event's weight is zero exactly when its raw weight is |
| `EventReader.ZeroWeightJetIgnored` | Reader/Reader.cpp:102-103 | a jet with nominal weight exactly zero leaves the event weight unchanged |
| `EventReader.OutOfAcceptanceJetIgnored` | Reader/Reader.cpp:98-104 | a jet with pt < 20 or \|eta\| >= 2.4 leaves the event weight unchanged |
| `EventReader.DataWeightIsRaw` | Reader/Reader.cpp:95-97 | without simulation the weight is the raw weight |
| `EventReader.CopyRows` | Reader/Reader.cpp:48 | an array branch's rows for the entry land at the front of its buffer, and the slots past them keep their old contents |
| `EventReader.Reader.constructor` | Reader/Reader.cpp:15-25 | a constructed reader is configured, sits before the first entry of the first tree as simulation, with empty collections and zero METs; its three METs and four decode buffers are freshly allocated, so each reader owns its storage |
| `EventReader.Reader.GetTree` | Reader/Reader.cpp:142-167 | a found tree becomes current with its entry count and cursor 0 and sets isMC; a missing one leaves a null tree and the counters unchanged |
| `EventReader.Reader.SkipFinishedTrees` | Reader/Reader.cpp:36-44 | the tree switching either stops with the step's outcome and position, or leaves the reader inside a tree with an entry left, from which the step is unchanged |
| `EventReader.Reader.GetEntry` | Reader/Reader.cpp:48 | the buffers hold the entry's nominal content, and its variations and raw weight for simulation only |
| `EventReader.Reader.ReadNominalBranches` | Reader/Reader.cpp:171-186 | the lepton, jet and MET buffers hold the entry's content |
| `EventReader.Reader.ReadVariationBranches` | Reader/Reader.cpp:188-211 | the JEC jet and MET buffers and the raw weight hold the entry's content |
| `EventReader.Reader.FetchEntry` | Reader/Reader.cpp:48-49 | the entry at the cursor is buffered and the cursor moves one past it |
| `EventReader.Reader.CopyNominal` | Reader/Reader.cpp:53-63 | the leptons and jets are the decoded buffer rows in order, and the MET is set from the buffers |
| `EventReader.Reader.CopyVariations` | Reader/Reader.cpp:65-80 | the JEC-varied jets are the decoded buffer rows, and the two JEC METs are set from the buffers |
| `EventReader.Reader.CopyFromBuffers` | Reader/Reader.cpp:52-80 | the collections are rebuilt from the entry (nothing accumulates); the JEC objects are rebuilt only for simulation and otherwise left as they were |
| `EventReader.Reader.SortCollections` | Reader/Reader.cpp:84-91 | each collection becomes a non-increasing permutation of itself; the JEC ones are sorted only for simulation |
| `EventReader.Reader.ReadObjects` | Reader/Reader.cpp:52-91 | the collections are the entry's decoded objects in decreasing pt, and the METs are the entry's |
| `EventReader.Reader.FillEvent` | Reader/Reader.cpp:52-104 | the reader holds the entry's objects in decreasing pt; the weight is its raw weight times the b-tagging product for simulation, and the raw weight otherwise |
| `EventReader.Reader.ReadEntry` | Reader/Reader.cpp:48-104 | the entry at the cursor is read into the event, and the cursor moves one past it |
| `EventReader.Reader.ReadNextEvent` | Reader/Reader.cpp:33-108 | the position moves as the corrected step says and the outcome is the step's. On an event the reader holds the fetched entry, ordered and weighted; otherwise the collections, METs and weight are untouched |
| `EventReader.Reader.Rewind` | Reader/Reader.cpp:111-115 | the reader returns to the construction position, before the first entry of the first tree |
| `EventReader.Reader.GetLeptons` | Reader/Reader.hpp:63-68 | the leptons are in decreasing pt order |
| `EventReader.Reader.GetJets` | Reader/Reader.hpp:70-75 | the jets are in decreasing pt order |
| `EventReader.OpenReader` | Reader/Reader.cpp:15-25 | construction succeeds exactly when the calibration is complete, the file is usable and the first tree exists. Each failure names its cause in that order; success gives a valid reader at the start position whose reweighter is read from the calibration files and whose METs and decode buffers are freshly allocated |
| `EventReader.OpenSingleTreeReader` | Reader/Reader.cpp:28-30 | the single-name constructor behaves as the list constructor over `[treeName]`: it succeeds exactly when the calibration is complete, the file is usable and that tree exists, with the same failure causes in the same order and the same fresh METs and decode buffers |

## Left out

- File and environment access in the reweighter's constructor (`getenv`, `TFile::Open`, zombie checks) and the `SetDirectory` ownership calls: I/O and memory management. The calibration files are given as name-to-histogram maps.
- The text of exception messages: an error is modelled by its cause (`LoadError`, `OpenError`, `Outcome.MissingTree`), not its wording.
- `SetBranchAddress` and the ROOT machinery behind `GetEntry`: foreign I/O. Branch binding is modelled by which buffers `GetEntry` fills (the variation branches only for simulation).
- `TLorentzVector` kinematics (`SetPtEtaPhiM`, `DeltaR`, `P4`, `Px`/`Py`): floating-point numerics. A candidate is the record (pt, eta, phi, mass). Pt, eta, the discriminator and weights are exact reals, so `Float_t`/`double` rounding is not modelled.
- GetNumPV and `nPV`: declared in the header but never defined or bound.
- The example drivers, the plotting code and the template-fit script: analysis scripts and graphics outside the reader core.
- EventReader.SortDecreasing: promises any non-increasing permutation, because `std::sort` leaves the order of equal-pt objects unspecified.
- EventReader.Reader.constructor, EventReader.OpenReader and EventReader.OpenSingleTreeReader: require that every entry of every tree named in treeNames fits the 64-slot buffers; `Reader.Configured` keeps this as an invariant. Larger entries overflow the fixed arrays in the source and have no defined behaviour. Trees in the file that are not named are unconstrained.
- EventReader.Reader.constructor and EventReader.OpenReader: require a non-empty treeNames. With an empty list the source dereferences `treeNames.begin()`, which is undefined.
- EventReader.Reader.ReadNextEvent: follows the corrected walk `EventStream.NextStepFixed`, not the code as written. When a later named tree is empty, the source keeps returning true on stale buffers; the class skips the empty tree. The code as written is `EventStream.NextStep` (see "## Findings"), and `EventStream.RunsAgreeOnNonEmptyTrees` shows the two agree when no later tree is empty.
- EventReader.Reader.ReadNextEvent: requires that the reader has not already reported the end. A further call in the source increments the end iterator, which is undefined.
- EventReader.Reader.ReadNextEvent: a missing tree is an outcome (`MissingTree`), where the source throws. The state left behind is the one the source leaves: a null tree with the counters unchanged.
- EventReader.Reader.constructor: fields the source leaves uninitialised until the first read (buffers, weight, `isMC` before `GetTree`) start at zero or false.
- EventReader.Reader.GetMET and EventReader.Reader.GetWeight: plain accessors returning the field. Their content is stated by `ReadNextEvent`.
- EventReader.EventWeight: no lemma states that the weight is independent of the jets' order. The product is taken in collection order, as the source loop takes it.
- Two fields of the source's `Reader` are not separate fields here. The tree-name list's iterator is an index into the name sequence, and the unique pointer to the current tree is an optional tree value.

## Findings

| source | as written | input that shows it | evidently intended | confidence | as-written member | corrected member |
|---|---|---|---|---|---|---|
| Reader/Reader.cpp:36-49 | At the end of a tree the reader opens the next tree and reads its entry 0 without checking that the tree has any entries, then sets `curEntry` to 1. For an empty tree, `curEntry` (1) then exceeds `nEntries` (0), so the end-of-tree test `curEntry == nEntries` never holds again. Every later call returns true and reads past the end. | names ["A", "B"] with A = [e] and B = []: the first call delivers e; every later call returns true and reads nothing; false is never returned | keep opening trees until one has an entry left; deliver every entry of every tree in order, then return false | not executed | `EventStream.NextStep`, `EventStream.EmptySecondTreeNeverEnds` | `EventStream.NextStepFixed`, `EventStream.ReadsAllTreesInOrder` (used by `EventReader.Reader.ReadNextEvent`) |
