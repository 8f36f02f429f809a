/**
 * Construction of a CSVReweighter from the two calibration files.
 *
 * The heavy-flavour file holds the bottom and charm tables, the light-flavour
 * file the light tables; each table is looked up by a name built from its pt
 * bin, its |eta| bin and a suffix naming the systematic variation. Loading
 * stores whatever each lookup returns, possibly nothing, in the grid cell of
 * the variation's code (indexing a map with an absent key first creates an
 * all-empty grid for it); validation then walks each map in ascending key order
 * and reports the first empty cell. Heavy flavours are loaded and validated
 * before light flavours are loaded at all.
 */
module CSVLoading {
  import opened Wrappers
  import opened Systematics
  import opened Histograms
  import opened CSVReweighting

  /** The contents of the two calibration files: histogram name to histogram. */
  datatype CalibrationSource = CalibrationSource(hf: map<string, Histogram>, lf: map<string, Histogram>)

  /** `TFile::Get` of a histogram: the object stored under `name`, or null. */
  function Fetch(file: map<string, Histogram>, name: string): Option<Histogram> {
    if name in file then Some(file[name]) else None
  }

  /** One decimal digit. */
  function Digit(d: nat): char
    requires d < 10
  {
    (48 + d) as char
  }

  /** The decimal representation of `n`, as an output stream writes an unsigned number. */
  function Decimal(n: nat): (s: string)
    ensures 1 <= |s|
    ensures forall k :: 0 <= k < |s| ==> '0' <= s[k] <= '9'
    ensures n < 10 ==> s == [Digit(n)]
  {
    if n < 10 then [Digit(n)] else Decimal(n / 10) + [Digit(n % 10)]
  }

  /** `csv_ratio_Pt<iPt>_Eta<iEta>_final`. */
  function NameFragment(iPt: nat, iEta: nat): string {
    "csv_ratio_Pt" + Decimal(iPt) + "_Eta" + Decimal(iEta) + "_final"
  }

  /** The name of a heavy-flavour table: charm tables carry the prefix "c_", and the heavy-flavour |eta| bin is always 0. */
  function HFName(prefix: string, iPt: nat, suffix: string): string {
    prefix + NameFragment(iPt, 0) + suffix
  }

  /** The name of a light-flavour table. */
  function LFName(iPt: nat, iEta: nat, suffix: string): string {
    NameFragment(iPt, iEta) + suffix
  }

  /** One table the constructor reads per grid cell: its variation and its name suffix. */
  datatype HistSpec = HistSpec(systType: SystType, systDirection: SystDirection, suffix: string)
  {
    function Code(): SystCode {
      EncodeSyst(systType, systDirection)
    }
  }

  /** Bottom tables, in the order the constructor reads them. */
  const BottomSpecs: seq<HistSpec> := [
    HistSpec(Nominal, Up, ""),
    HistSpec(JEC, Up, "_JESUp"),
    HistSpec(JEC, Down, "_JESDown"),
    HistSpec(BTagPurityHF, Up, "_LFUp"),
    HistSpec(BTagPurityHF, Down, "_LFDown"),
    HistSpec(BTagStatHF1, Up, "_Stats1Up"),
    HistSpec(BTagStatHF1, Down, "_Stats1Down"),
    HistSpec(BTagStatHF2, Up, "_Stats2Up"),
    HistSpec(BTagStatHF2, Down, "_Stats2Down")]

  /** Charm tables (read with the prefix "c_"); charm has no statistical variations. */
  const CharmSpecs: seq<HistSpec> := [
    HistSpec(Nominal, Up, ""),
    HistSpec(BTagCharmUnc1, Up, "_cErr1Up"),
    HistSpec(BTagCharmUnc1, Down, "_cErr1Down"),
    HistSpec(BTagCharmUnc2, Up, "_cErr2Up"),
    HistSpec(BTagCharmUnc2, Down, "_cErr2Down")]

  /** Light-flavour tables. */
  const LightSpecs: seq<HistSpec> := [
    HistSpec(Nominal, Up, ""),
    HistSpec(JEC, Up, "_JESUp"),
    HistSpec(JEC, Down, "_JESDown"),
    HistSpec(BTagPurityLF, Up, "_HFUp"),
    HistSpec(BTagPurityLF, Down, "_HFDown"),
    HistSpec(BTagStatLF1, Up, "_Stats1Up"),
    HistSpec(BTagStatLF1, Down, "_Stats1Down"),
    HistSpec(BTagStatLF2, Up, "_Stats2Up"),
    HistSpec(BTagStatLF2, Down, "_Stats2Down")]

  /** The codes of a list of tables. */
  function Codes(specs: seq<HistSpec>): set<SystCode> {
    set k | 0 <= k < |specs| :: specs[k].Code()
  }

  /** No two tables of a list share a code. */
  predicate DistinctCodes(specs: seq<HistSpec>) {
    forall i, j :: 0 <= i < |specs| && 0 <= j < |specs| && i != j ==> specs[i].Code() != specs[j].Code()
  }

  /** Bottom tables: codes 0, 2, 3, 4, 5, 8, 9, 10, 11, each once. */
  lemma BottomSpecsMatchFamily()
    ensures DistinctCodes(BottomSpecs) && Codes(BottomSpecs) == BottomCodes
  {
    var codes := [0, 2, 3, 4, 5, 8, 9, 10, 11];
    assert forall k :: 0 <= k < |BottomSpecs| ==> BottomSpecs[k].Code() == codes[k];
    CodesOfAscendingList(BottomSpecs, codes);
  }

  /** Charm tables: codes 0, 16, 17, 18, 19, each once. */
  lemma CharmSpecsMatchFamily()
    ensures DistinctCodes(CharmSpecs) && Codes(CharmSpecs) == CharmCodes
  {
    var codes := [0, 16, 17, 18, 19];
    assert forall k :: 0 <= k < |CharmSpecs| ==> CharmSpecs[k].Code() == codes[k];
    CodesOfAscendingList(CharmSpecs, codes);
  }

  /** Light tables: codes 0, 2, 3, 6, 7, 12, 13, 14, 15, each once. */
  lemma LightSpecsMatchFamily()
    ensures DistinctCodes(LightSpecs) && Codes(LightSpecs) == LightCodes
  {
    var codes := [0, 2, 3, 6, 7, 12, 13, 14, 15];
    assert forall k :: 0 <= k < |LightSpecs| ==> LightSpecs[k].Code() == codes[k];
    CodesOfAscendingList(LightSpecs, codes);
  }

  /** No family reads two tables into the same code. */
  lemma SpecsDistinct()
    ensures DistinctCodes(BottomSpecs) && DistinctCodes(CharmSpecs) && DistinctCodes(LightSpecs)
  {
    BottomSpecsMatchFamily();
    CharmSpecsMatchFamily();
    LightSpecsMatchFamily();
  }

  /** A list of tables whose codes are a strictly ascending list has distinct codes, and its code set is that list's. */
  lemma CodesOfAscendingList(specs: seq<HistSpec>, codes: seq<nat>)
    requires |specs| == |codes|
    requires forall k :: 0 <= k < |specs| ==> specs[k].Code() == codes[k]
    requires forall i :: 0 <= i < |codes| - 1 ==> codes[i] < codes[i + 1]
    ensures DistinctCodes(specs)
    ensures forall c :: c in Codes(specs) <==> c in codes
  {
    AdjacentAscending(codes);
    forall c | c in codes ensures c in Codes(specs) {
      var k :| 0 <= k < |codes| && codes[k] == c;
      assert specs[k].Code() == c;
    }
  }

  /** A list whose every element is below the next is strictly ascending. */
  lemma {:induction false} AdjacentAscending(codes: seq<nat>)
    requires forall i :: 0 <= i < |codes| - 1 ==> codes[i] < codes[i + 1]
    ensures forall i, j :: 0 <= i < j < |codes| ==> codes[i] < codes[j]
  {
    if |codes| > 1 {
      var rest := codes[1..];
      AdjacentAscending(rest);
      forall i, j | 0 <= i < j < |codes| ensures codes[i] < codes[j] {
        if i > 0 {
          assert rest[i - 1] < rest[j - 1];
        } else if j > 1 {
          assert rest[0] < rest[j - 1];
        }
      }
    }
  }

  /** Extending a prefix of the list by one table adds that table's code. */
  lemma CodesOfLongerPrefix(specs: seq<HistSpec>, k: nat)
    requires k < |specs|
    ensures Codes(specs[..k + 1]) == Codes(specs[..k]) + {specs[k].Code()}
  {
    assert forall m :: 0 <= m < k ==> specs[..k + 1][m] == specs[..k][m];
  }

  /** A cell of a grid being filled: the table itself, or null. */
  type Cell = Option<Histogram>

  /** Grids under construction, indexed by systematic code. */
  type HFGrid = map<SystCode, seq<Cell>>
  type LFGrid = map<SystCode, seq<seq<Cell>>>

  /** A new heavy-flavour grid: NPtBinsHF null cells. */
  const EmptyHFRow: seq<Cell> := seq(NPtBinsHF, i => None)
  /** One pt bin of a new light-flavour grid: NEtaBinsLF null cells. */
  const EmptyLFRow: seq<Cell> := [None, None, None]
  /** A new light-flavour grid: NPtBinsLF by NEtaBinsLF null cells. */
  const EmptyLFGrid: seq<seq<Cell>> := [EmptyLFRow, EmptyLFRow, EmptyLFRow, EmptyLFRow]

  /**
   * A heavy-flavour grid after the pt bins below `rows` have been read completely
   * and, in pt bin `rows`, the first `done` tables of `specs`.
   */
  ghost predicate HFFilled(grid: HFGrid, specs: seq<HistSpec>, file: map<string, Histogram>, prefix: string,
                           rows: nat, done: nat)
    requires done <= |specs|
  {
    && grid.Keys == Codes(specs[..done]) + (if rows > 0 then Codes(specs) else {})
    && (forall c :: c in grid ==> |grid[c]| == NPtBinsHF)
    && (forall k, i :: 0 <= k < |specs| && 0 <= i < NPtBinsHF && specs[k].Code() in grid ==>
          grid[specs[k].Code()][i] ==
            if i < rows || (i == rows && k < done) then Fetch(file, HFName(prefix, i, specs[k].suffix)) else None)
  }

  /** Storing one table in pt bin `rows` extends a partly read bin by that table. */
  lemma HFFillStep(grid: HFGrid, specs: seq<HistSpec>, file: map<string, Histogram>, prefix: string,
                   rows: nat, k: nat)
    requires DistinctCodes(specs) && rows < NPtBinsHF && k < |specs|
    requires HFFilled(grid, specs, file, prefix, rows, k)
    ensures var code := specs[k].Code();
            var row := if code in grid then grid[code] else EmptyHFRow;
            HFFilled(grid[code := row[rows := Fetch(file, HFName(prefix, rows, specs[k].suffix))]],
                     specs, file, prefix, rows, k + 1)
  {
    var code := specs[k].Code();
    CodesOfLongerPrefix(specs, k);
    assert code in Codes(specs);
    if code in grid {
      HFFillStepKnown(grid, specs, file, prefix, rows, k);
    }
  }

  /** `HFFillStep` for a table whose code already has a row. */
  lemma HFFillStepKnown(grid: HFGrid, specs: seq<HistSpec>, file: map<string, Histogram>, prefix: string,
                        rows: nat, k: nat)
    requires DistinctCodes(specs) && rows < NPtBinsHF && k < |specs| && specs[k].Code() in grid
    requires Codes(specs[..k + 1]) == Codes(specs[..k]) + {specs[k].Code()}
    requires HFFilled(grid, specs, file, prefix, rows, k)
    ensures var code := specs[k].Code();
            HFFilled(grid[code := grid[code][rows := Fetch(file, HFName(prefix, rows, specs[k].suffix))]],
                     specs, file, prefix, rows, k + 1)
  {
  }

  /** A pt bin whose every table has been stored is a completely read bin. */
  lemma HFRowDone(grid: HFGrid, specs: seq<HistSpec>, file: map<string, Histogram>, prefix: string, rows: nat)
    requires HFFilled(grid, specs, file, prefix, rows, |specs|)
    ensures HFFilled(grid, specs, file, prefix, rows + 1, 0)
  {
    assert specs[..|specs|] == specs;
    assert Codes(specs[..0]) == {};
  }

  /** Reads one pt bin of a heavy-flavour family: one `reset` of `grid[code][iPt]` per table. */
  method FillHFRow(grid: HFGrid, specs: seq<HistSpec>, file: map<string, Histogram>, prefix: string, iPt: nat)
    returns (grid': HFGrid)
    requires DistinctCodes(specs) && iPt < NPtBinsHF
    requires HFFilled(grid, specs, file, prefix, iPt, 0)
    ensures HFFilled(grid', specs, file, prefix, iPt + 1, 0)
  {
    grid' := grid;
    for k := 0 to |specs|
      invariant HFFilled(grid', specs, file, prefix, iPt, k)
    {
      HFFillStep(grid', specs, file, prefix, iPt, k);
      var code := specs[k].Code();
      var row := if code in grid' then grid'[code] else EmptyHFRow;
      grid' := grid'[code := row[iPt := Fetch(file, HFName(prefix, iPt, specs[k].suffix))]];
    }
    HFRowDone(grid', specs, file, prefix, iPt);
  }

  /**
   * A light-flavour grid after the (pt, |eta|) cells before (rows, cols) in
   * row-major order have been read completely and, in cell (rows, cols), the
   * first `done` tables of `specs`.
   */
  ghost predicate LFFilled(grid: LFGrid, specs: seq<HistSpec>, file: map<string, Histogram>, rows: nat, cols: nat,
                           done: nat)
    requires done <= |specs|
  {
    && grid.Keys == Codes(specs[..done]) + (if rows > 0 || cols > 0 then Codes(specs) else {})
    && (forall c :: c in grid ==> |grid[c]| == NPtBinsLF)
    && (forall c, i :: c in grid && 0 <= i < NPtBinsLF ==> |grid[c][i]| == NEtaBinsLF)
    && (forall k, i, j ::
          0 <= k < |specs| && 0 <= i < NPtBinsLF && 0 <= j < NEtaBinsLF && specs[k].Code() in grid ==>
          grid[specs[k].Code()][i][j] ==
            if i < rows || (i == rows && (j < cols || (j == cols && k < done)))
            then Fetch(file, LFName(i, j, specs[k].suffix))
            else None)
  }

  /** The grid after storing table `k` in cell (iPt, iEta). */
  function LFStore(grid: LFGrid, specs: seq<HistSpec>, file: map<string, Histogram>, iPt: nat, iEta: nat, k: nat): LFGrid
    requires iPt < NPtBinsLF && iEta < NEtaBinsLF && k < |specs|
    requires specs[k].Code() in grid ==>
               |grid[specs[k].Code()]| == NPtBinsLF && |grid[specs[k].Code()][iPt]| == NEtaBinsLF
  {
    var code := specs[k].Code();
    var cells := if code in grid then grid[code] else EmptyLFGrid;
    grid[code := cells[iPt := cells[iPt][iEta := Fetch(file, LFName(iPt, iEta, specs[k].suffix))]]]
  }

  /** Storing table `k` in cell (iPt, iEta) sets that one cell of that one table's grid. */
  lemma LFStoreCells(grid: LFGrid, specs: seq<HistSpec>, file: map<string, Histogram>, iPt: nat, iEta: nat, k: nat)
    requires DistinctCodes(specs) && iPt < NPtBinsLF && iEta < NEtaBinsLF && k < |specs|
    requires LFFilled(grid, specs, file, iPt, iEta, k)
    requires specs[k].Code() !in grid ==> iPt == 0 && iEta == 0
    ensures var stored := LFStore(grid, specs, file, iPt, iEta, k);
            forall m, i, j :: 0 <= m < |specs| && 0 <= i < NPtBinsLF && 0 <= j < NEtaBinsLF && specs[m].Code() in stored ==>
              stored[specs[m].Code()][i][j] ==
                if i < iPt || (i == iPt && (j < iEta || (j == iEta && m < k + 1)))
                then Fetch(file, LFName(i, j, specs[m].suffix))
                else None
  {
    var code := specs[k].Code();
    var stored := LFStore(grid, specs, file, iPt, iEta, k);
    forall m, i, j | 0 <= m < |specs| && 0 <= i < NPtBinsLF && 0 <= j < NEtaBinsLF && specs[m].Code() in stored
      ensures stored[specs[m].Code()][i][j] ==
                if i < iPt || (i == iPt && (j < iEta || (j == iEta && m < k + 1)))
                then Fetch(file, LFName(i, j, specs[m].suffix))
                else None
    {
      if m != k {
        assert specs[m].Code() != code;
      } else if code !in grid {
        assert EmptyLFGrid[i][j] == None;
      }
    }
  }

  /** Storing one table in cell (iPt, iEta) extends a partly read cell by that table. */
  lemma LFFillStep(grid: LFGrid, specs: seq<HistSpec>, file: map<string, Histogram>, iPt: nat, iEta: nat, k: nat)
    requires DistinctCodes(specs) && iPt < NPtBinsLF && iEta < NEtaBinsLF && k < |specs|
    requires LFFilled(grid, specs, file, iPt, iEta, k)
    ensures LFFilled(LFStore(grid, specs, file, iPt, iEta, k), specs, file, iPt, iEta, k + 1)
  {
    var code := specs[k].Code();
    CodesOfLongerPrefix(specs, k);
    assert code !in grid ==> iPt == 0 && iEta == 0 by {
      if iPt > 0 || iEta > 0 {
        assert code in Codes(specs);
      }
    }
    LFStoreShape(grid, specs, file, iPt, iEta, k);
    LFStoreCells(grid, specs, file, iPt, iEta, k);
  }

  /** Storing table `k` adds its code to the keys and keeps every grid NPtBinsLF by NEtaBinsLF. */
  lemma LFStoreShape(grid: LFGrid, specs: seq<HistSpec>, file: map<string, Histogram>, iPt: nat, iEta: nat, k: nat)
    requires iPt < NPtBinsLF && iEta < NEtaBinsLF && k < |specs|
    requires LFFilled(grid, specs, file, iPt, iEta, k)
    requires Codes(specs[..k + 1]) == Codes(specs[..k]) + {specs[k].Code()}
    ensures var stored := LFStore(grid, specs, file, iPt, iEta, k);
            && stored.Keys == Codes(specs[..k + 1]) + (if iPt > 0 || iEta > 0 then Codes(specs) else {})
            && (forall c :: c in stored ==> |stored[c]| == NPtBinsLF)
            && (forall c, i :: c in stored && 0 <= i < NPtBinsLF ==> |stored[c][i]| == NEtaBinsLF)
  {
  }

  /** A cell whose every table has been stored is a completely read cell. */
  lemma LFCellDone(grid: LFGrid, specs: seq<HistSpec>, file: map<string, Histogram>, iPt: nat, iEta: nat)
    requires LFFilled(grid, specs, file, iPt, iEta, |specs|)
    ensures LFFilled(grid, specs, file, iPt, iEta + 1, 0)
  {
    assert specs[..|specs|] == specs;
    assert Codes(specs[..0]) == {};
  }

  /** A pt bin whose every |eta| cell has been read is a completely read pt bin. */
  lemma LFRowDone(grid: LFGrid, specs: seq<HistSpec>, file: map<string, Histogram>, iPt: nat)
    requires LFFilled(grid, specs, file, iPt, NEtaBinsLF, 0)
    ensures LFFilled(grid, specs, file, iPt + 1, 0, 0)
  {
  }

  /** Reads one (pt, |eta|) cell of the light-flavour family: one `reset` per table. */
  method FillLFCell(grid: LFGrid, specs: seq<HistSpec>, file: map<string, Histogram>, iPt: nat, iEta: nat)
    returns (grid': LFGrid)
    requires DistinctCodes(specs) && iPt < NPtBinsLF && iEta < NEtaBinsLF
    requires LFFilled(grid, specs, file, iPt, iEta, 0)
    ensures LFFilled(grid', specs, file, iPt, iEta + 1, 0)
  {
    grid' := grid;
    for k := 0 to |specs|
      invariant LFFilled(grid', specs, file, iPt, iEta, k)
    {
      LFFillStep(grid', specs, file, iPt, iEta, k);
      ghost var before := grid';
      var code := specs[k].Code();
      var cells := if code in grid' then grid'[code] else EmptyLFGrid;
      grid' := grid'[code := cells[iPt := cells[iPt][iEta := Fetch(file, LFName(iPt, iEta, specs[k].suffix))]]];
      assert grid' == LFStore(before, specs, file, iPt, iEta, k);
    }
    LFCellDone(grid', specs, file, iPt, iEta);
  }

  /** The constructor's complaint: the family, variation code and pt bin of the first missing table. */
  datatype LoadError = MissingHistogram(family: Family, code: SystCode, ptBin: nat)

  /** (c1, i1) is visited before (c2, i2) when a map is walked in ascending key order and each grid in ascending pt bin. */
  predicate Before(c1: SystCode, i1: nat, c2: SystCode, i2: nat) {
    c1 < c2 || (c1 == c2 && i1 < i2)
  }

  /** Walks a heavy-flavour map in ascending key order and each grid in ascending pt bin, stopping at the first null cell. */
  method ValidateHF(grid: HFGrid, family: Family) returns (err: Option<LoadError>)
    requires forall c :: c in grid ==> c < 20 && |grid[c]| == NPtBinsHF
    ensures err.None? <==> forall c, i :: c in grid && 0 <= i < NPtBinsHF ==> grid[c][i].Some?
    ensures err.Some? ==>
              && err.value.family == family && err.value.code in grid && err.value.ptBin < NPtBinsHF
              && grid[err.value.code][err.value.ptBin].None?
              && forall c, i :: c in grid && 0 <= i < NPtBinsHF && Before(c, i, err.value.code, err.value.ptBin) ==>
                   grid[c][i].Some?
  {
    for c := 0 to 20
      invariant forall c', i :: c' in grid && c' < c && 0 <= i < NPtBinsHF ==> grid[c'][i].Some?
    {
      if c in grid {
        for i := 0 to NPtBinsHF
          invariant forall i' :: 0 <= i' < i ==> grid[c][i'].Some?
        {
          if grid[c][i].None? {
            return Some(MissingHistogram(family, c, i));
          }
        }
      }
    }
    return None;
  }

  /** Walks the light-flavour map in ascending key order, each grid in ascending pt bin and |eta| bin; the complaint names the pt bin only. */
  method ValidateLF(grid: LFGrid) returns (err: Option<LoadError>)
    requires forall c :: c in grid ==>
               c < 20 && |grid[c]| == NPtBinsLF && forall i :: 0 <= i < NPtBinsLF ==> |grid[c][i]| == NEtaBinsLF
    ensures err.None? <==>
              forall c, i, j :: c in grid && 0 <= i < NPtBinsLF && 0 <= j < NEtaBinsLF ==> grid[c][i][j].Some?
    ensures err.Some? ==>
              && err.value.family == Light && err.value.code in grid && err.value.ptBin < NPtBinsLF
              && (exists j :: 0 <= j < NEtaBinsLF && grid[err.value.code][err.value.ptBin][j].None?)
              && forall c, i, j ::
                   c in grid && 0 <= i < NPtBinsLF && 0 <= j < NEtaBinsLF && Before(c, i, err.value.code, err.value.ptBin)
                   ==> grid[c][i][j].Some?
  {
    for c := 0 to 20
      invariant forall c', i, j :: c' in grid && c' < c && 0 <= i < NPtBinsLF && 0 <= j < NEtaBinsLF ==>
                  grid[c'][i][j].Some?
    {
      if c in grid {
        for i := 0 to NPtBinsLF
          invariant forall i', j :: 0 <= i' < i && 0 <= j < NEtaBinsLF ==> grid[c][i'][j].Some?
        {
          for j := 0 to NEtaBinsLF
            invariant forall j' :: 0 <= j' < j ==> grid[c][i][j'].Some?
          {
            if grid[c][i][j].None? {
              return Some(MissingHistogram(Light, c, i));
            }
          }
        }
      }
    }
    return None;
  }

  /** Every table of a heavy-flavour family is in the file, in every pt bin. */
  predicate HFComplete(file: map<string, Histogram>, specs: seq<HistSpec>, prefix: string) {
    forall k, i :: 0 <= k < |specs| && 0 <= i < NPtBinsHF ==> HFName(prefix, i, specs[k].suffix) in file
  }

  /** Every light-flavour table is in the file, in every pt and |eta| bin. */
  predicate LFComplete(file: map<string, Histogram>) {
    forall k, i, j :: 0 <= k < |LightSpecs| && 0 <= i < NPtBinsLF && 0 <= j < NEtaBinsLF ==>
      LFName(i, j, LightSpecs[k].suffix) in file
  }

  /** Both files hold every table the constructor asks for. */
  predicate Complete(src: CalibrationSource) {
    HFComplete(src.hf, BottomSpecs, "") && HFComplete(src.hf, CharmSpecs, "c_") && LFComplete(src.lf)
  }

  /** Every table of a heavy-flavour family has a full row of cells, each the file's table of that cell's name. */
  predicate HFReadFrom(tables: map<SystCode, seq<Histogram>>, specs: seq<HistSpec>, file: map<string, Histogram>,
                       prefix: string) {
    forall k, i :: 0 <= k < |specs| && 0 <= i < NPtBinsHF ==>
      var name := HFName(prefix, i, specs[k].suffix);
      specs[k].Code() in tables && i < |tables[specs[k].Code()]| &&
      name in file && tables[specs[k].Code()][i] == file[name]
  }

  /** Every light table has a full grid of cells, each the file's table of that cell's name. */
  predicate LFReadFrom(tables: map<SystCode, seq<seq<Histogram>>>, specs: seq<HistSpec>, file: map<string, Histogram>) {
    forall k, i, j :: 0 <= k < |specs| && 0 <= i < NPtBinsLF && 0 <= j < NEtaBinsLF ==>
      var name := LFName(i, j, specs[k].suffix);
      specs[k].Code() in tables && i < |tables[specs[k].Code()]| && j < |tables[specs[k].Code()][i]| &&
      name in file && tables[specs[k].Code()][i][j] == file[name]
  }

  /** Every cell of the reweighter's grids is the table of that cell's name in the corresponding file. */
  predicate ReadFrom(r: CSVReweighter, src: CalibrationSource) {
    && HFReadFrom(r.weightsBottom, BottomSpecs, src.hf, "")
    && HFReadFrom(r.weightsCharm, CharmSpecs, src.hf, "c_")
    && LFReadFrom(r.weightsLight, LightSpecs, src.lf)
  }

  /** A heavy-flavour table (code, pt bin) is missing, and every table visited before it is present. */
  predicate HFFirstMissing(file: map<string, Histogram>, specs: seq<HistSpec>, prefix: string, e: LoadError) {
    && e.ptBin < NPtBinsHF
    && (exists k :: 0 <= k < |specs| && specs[k].Code() == e.code && HFName(prefix, e.ptBin, specs[k].suffix) !in file)
    && forall k, i :: 0 <= k < |specs| && 0 <= i < NPtBinsHF && Before(specs[k].Code(), i, e.code, e.ptBin) ==>
         HFName(prefix, i, specs[k].suffix) in file
  }

  /** Some light table of (code, pt bin) is missing, and every table of every earlier (code, pt bin) is present. */
  predicate LFFirstMissing(file: map<string, Histogram>, e: LoadError) {
    && e.ptBin < NPtBinsLF
    && (exists k, j :: 0 <= k < |LightSpecs| && 0 <= j < NEtaBinsLF && LightSpecs[k].Code() == e.code &&
          LFName(e.ptBin, j, LightSpecs[k].suffix) !in file)
    && forall k, i, j ::
         0 <= k < |LightSpecs| && 0 <= i < NPtBinsLF && 0 <= j < NEtaBinsLF && Before(LightSpecs[k].Code(), i, e.code, e.ptBin)
         ==> LFName(i, j, LightSpecs[k].suffix) in file
  }

  /** The error the constructor reports: bottom tables are checked first, then charm, then light. */
  predicate ReportedFirst(src: CalibrationSource, e: LoadError) {
    match e.family
    case Bottom => HFFirstMissing(src.hf, BottomSpecs, "", e)
    case Charm => HFComplete(src.hf, BottomSpecs, "") && HFFirstMissing(src.hf, CharmSpecs, "c_", e)
    case Light => HFComplete(src.hf, BottomSpecs, "") && HFComplete(src.hf, CharmSpecs, "c_") && LFFirstMissing(src.lf, e)
  }

  /** A completely read heavy-flavour grid: one key per table, and each cell is what the file holds under its name. */
  lemma HFLoaded(grid: HFGrid, specs: seq<HistSpec>, file: map<string, Histogram>, prefix: string)
    requires DistinctCodes(specs)
    requires HFFilled(grid, specs, file, prefix, NPtBinsHF, 0)
    ensures forall c :: c in grid <==> exists k :: 0 <= k < |specs| && specs[k].Code() == c
    ensures forall k, i :: 0 <= k < |specs| && 0 <= i < NPtBinsHF ==>
              specs[k].Code() in grid && grid[specs[k].Code()][i] == Fetch(file, HFName(prefix, i, specs[k].suffix))
  {
    assert Codes(specs[..0]) == {};
  }

  /** A completely read light-flavour grid: one key per table, and each cell is what the file holds under its name. */
  lemma LFLoaded(grid: LFGrid, specs: seq<HistSpec>, file: map<string, Histogram>)
    requires DistinctCodes(specs)
    requires LFFilled(grid, specs, file, NPtBinsLF, 0, 0)
    ensures forall c :: c in grid <==> exists k :: 0 <= k < |specs| && specs[k].Code() == c
    ensures forall k, i, j :: 0 <= k < |specs| && 0 <= i < NPtBinsLF && 0 <= j < NEtaBinsLF ==>
              specs[k].Code() in grid && grid[specs[k].Code()][i][j] == Fetch(file, LFName(i, j, specs[k].suffix))
  {
    assert Codes(specs[..0]) == {};
  }

  /** A completely read heavy-flavour grid has no null cell exactly when the file holds every table of the family. */
  lemma HFNoGapIffComplete(grid: HFGrid, specs: seq<HistSpec>, file: map<string, Histogram>, prefix: string)
    requires DistinctCodes(specs)
    requires HFFilled(grid, specs, file, prefix, NPtBinsHF, 0)
    ensures (forall c, i :: c in grid && 0 <= i < NPtBinsHF ==> grid[c][i].Some?) <==> HFComplete(file, specs, prefix)
  {
    HFLoaded(grid, specs, file, prefix);
  }

  /** The first null cell the heavy-flavour check meets is the first missing table of the family. */
  lemma HFGapIsFirstMissing(grid: HFGrid, specs: seq<HistSpec>, file: map<string, Histogram>, prefix: string,
                            e: LoadError)
    requires DistinctCodes(specs)
    requires HFFilled(grid, specs, file, prefix, NPtBinsHF, 0)
    requires e.code in grid && e.ptBin < NPtBinsHF && grid[e.code][e.ptBin].None?
    requires forall c, i :: c in grid && 0 <= i < NPtBinsHF && Before(c, i, e.code, e.ptBin) ==> grid[c][i].Some?
    ensures HFFirstMissing(file, specs, prefix, e)
  {
    HFLoaded(grid, specs, file, prefix);
    var k :| 0 <= k < |specs| && specs[k].Code() == e.code;
    assert HFName(prefix, e.ptBin, specs[k].suffix) !in file;
  }

  /** A completely read light-flavour grid has no null cell exactly when the file holds every light table. */
  lemma LFNoGapIffComplete(grid: LFGrid, file: map<string, Histogram>)
    requires DistinctCodes(LightSpecs)
    requires LFFilled(grid, LightSpecs, file, NPtBinsLF, 0, 0)
    ensures (forall c, i, j :: c in grid && 0 <= i < NPtBinsLF && 0 <= j < NEtaBinsLF ==> grid[c][i][j].Some?)
            <==> LFComplete(file)
  {
    LFLoaded(grid, LightSpecs, file);
  }

  /** The first light (code, pt bin) the check finds a null cell in is the first one with a missing table. */
  lemma LFGapIsFirstMissing(grid: LFGrid, file: map<string, Histogram>, e: LoadError)
    requires DistinctCodes(LightSpecs)
    requires LFFilled(grid, LightSpecs, file, NPtBinsLF, 0, 0)
    requires e.code in grid && e.ptBin < NPtBinsLF
    requires exists j :: 0 <= j < NEtaBinsLF && grid[e.code][e.ptBin][j].None?
    requires forall c, i, j :: c in grid && 0 <= i < NPtBinsLF && 0 <= j < NEtaBinsLF && Before(c, i, e.code, e.ptBin) ==>
               grid[c][i][j].Some?
    ensures LFFirstMissing(file, e)
  {
    LFLoaded(grid, LightSpecs, file);
    var k :| 0 <= k < |LightSpecs| && LightSpecs[k].Code() == e.code;
    var j :| 0 <= j < NEtaBinsLF && grid[e.code][e.ptBin][j].None?;
    assert LFName(e.ptBin, j, LightSpecs[k].suffix) !in file;
  }

  /** Reads every heavy-flavour table, pt bin by pt bin: bottom, then charm. */
  method LoadHF(file: map<string, Histogram>) returns (bottom: HFGrid, charm: HFGrid)
    ensures HFFilled(bottom, BottomSpecs, file, "", NPtBinsHF, 0)
    ensures HFFilled(charm, CharmSpecs, file, "c_", NPtBinsHF, 0)
  {
    SpecsDistinct();
    bottom, charm := map[], map[];
    assert Codes(BottomSpecs[..0]) == {} && Codes(CharmSpecs[..0]) == {};
    for iPt := 0 to NPtBinsHF
      invariant HFFilled(bottom, BottomSpecs, file, "", iPt, 0)
      invariant HFFilled(charm, CharmSpecs, file, "c_", iPt, 0)
    {
      bottom := FillHFRow(bottom, BottomSpecs, file, "", iPt);
      charm := FillHFRow(charm, CharmSpecs, file, "c_", iPt);
    }
  }

  /** Reads every light-flavour table, pt bin by pt bin and, within one, |eta| bin by |eta| bin. */
  method LoadLF(file: map<string, Histogram>) returns (light: LFGrid)
    ensures LFFilled(light, LightSpecs, file, NPtBinsLF, 0, 0)
  {
    SpecsDistinct();
    light := map[];
    assert Codes(LightSpecs[..0]) == {};
    for iPt := 0 to NPtBinsLF
      invariant LFFilled(light, LightSpecs, file, iPt, 0, 0)
    {
      for iEta := 0 to NEtaBinsLF
        invariant LFFilled(light, LightSpecs, file, iPt, iEta, 0)
      {
        light := FillLFCell(light, LightSpecs, file, iPt, iEta);
      }
      LFRowDone(light, LightSpecs, file, iPt);
    }
  }

  /** The tables of a validated heavy-flavour grid. */
  function HFTables(grid: HFGrid): (tables: map<SystCode, seq<Histogram>>)
    requires forall c :: c in grid ==> |grid[c]| == NPtBinsHF && forall i :: 0 <= i < NPtBinsHF ==> grid[c][i].Some?
    ensures tables.Keys == grid.Keys
    ensures forall c :: c in tables ==>
              |tables[c]| == NPtBinsHF && (forall i :: 0 <= i < NPtBinsHF ==> grid[c][i] == Some(tables[c][i]))
  {
    map c | c in grid :: seq(NPtBinsHF, i requires 0 <= i < NPtBinsHF => grid[c][i].value)
  }

  /** The tables of a validated light-flavour grid. */
  function LFTables(grid: LFGrid): (tables: map<SystCode, seq<seq<Histogram>>>)
    requires forall c :: c in grid ==> |grid[c]| == NPtBinsLF
    requires forall c, i :: c in grid && 0 <= i < NPtBinsLF ==> |grid[c][i]| == NEtaBinsLF
    requires forall c, i, j :: c in grid && 0 <= i < NPtBinsLF && 0 <= j < NEtaBinsLF ==> grid[c][i][j].Some?
    ensures tables.Keys == grid.Keys
    ensures forall c :: c in tables ==> |tables[c]| == NPtBinsLF
    ensures forall c, i :: c in tables && 0 <= i < NPtBinsLF ==> |tables[c][i]| == NEtaBinsLF
    ensures forall c, i, j :: c in tables && 0 <= i < NPtBinsLF && 0 <= j < NEtaBinsLF ==>
              grid[c][i][j] == Some(tables[c][i][j])
  {
    map c | c in grid ::
      seq(NPtBinsLF, i requires 0 <= i < NPtBinsLF =>
        seq(NEtaBinsLF, j requires 0 <= j < NEtaBinsLF => grid[c][i][j].value))
  }

  /** The tables of a complete heavy-flavour grid: one full row per table of the family, each cell the file's table of that name. */
  lemma HFTablesReadFrom(grid: HFGrid, specs: seq<HistSpec>, file: map<string, Histogram>, prefix: string)
    requires DistinctCodes(specs)
    requires HFFilled(grid, specs, file, prefix, NPtBinsHF, 0)
    requires forall c, i :: c in grid && 0 <= i < NPtBinsHF ==> grid[c][i].Some?
    ensures var t := HFTables(grid);
            && t.Keys == Codes(specs)
            && (forall c :: c in t ==> |t[c]| == NPtBinsHF)
            && HFReadFrom(t, specs, file, prefix)
  {
    HFLoaded(grid, specs, file, prefix);
    assert Codes(specs[..0]) == {};
  }

  /** The tables of a complete light-flavour grid: one full grid per light table, each cell the file's table of that name. */
  lemma LFTablesReadFrom(grid: LFGrid, specs: seq<HistSpec>, file: map<string, Histogram>)
    requires DistinctCodes(specs)
    requires LFFilled(grid, specs, file, NPtBinsLF, 0, 0)
    requires forall c, i, j :: c in grid && 0 <= i < NPtBinsLF && 0 <= j < NEtaBinsLF ==> grid[c][i][j].Some?
    ensures var t := LFTables(grid);
            && t.Keys == Codes(specs)
            && (forall c :: c in t ==> |t[c]| == NPtBinsLF)
            && (forall c, i :: c in t && 0 <= i < NPtBinsLF ==> |t[c][i]| == NEtaBinsLF)
            && LFReadFrom(t, specs, file)
  {
    LFLoaded(grid, specs, file);
    assert Codes(specs[..0]) == {};
  }

  /** Complete grids read from complete files make a valid reweighter whose cells are the files' tables. */
  lemma CompleteGridsReadFrom(bottom: HFGrid, charm: HFGrid, light: LFGrid, src: CalibrationSource)
    requires HFFilled(bottom, BottomSpecs, src.hf, "", NPtBinsHF, 0)
    requires HFFilled(charm, CharmSpecs, src.hf, "c_", NPtBinsHF, 0)
    requires LFFilled(light, LightSpecs, src.lf, NPtBinsLF, 0, 0)
    requires forall c, i :: c in bottom && 0 <= i < NPtBinsHF ==> bottom[c][i].Some?
    requires forall c, i :: c in charm && 0 <= i < NPtBinsHF ==> charm[c][i].Some?
    requires forall c, i, j :: c in light && 0 <= i < NPtBinsLF && 0 <= j < NEtaBinsLF ==> light[c][i][j].Some?
    ensures var r := CSVReweighter(HFTables(bottom), HFTables(charm), LFTables(light));
            r.Valid() && ReadFrom(r, src)
  {
    BottomSpecsMatchFamily();
    CharmSpecsMatchFamily();
    LightSpecsMatchFamily();
    HFTablesReadFrom(bottom, BottomSpecs, src.hf, "");
    HFTablesReadFrom(charm, CharmSpecs, src.hf, "c_");
    LFTablesReadFrom(light, LightSpecs, src.lf);
  }

  /** Validates a loaded heavy-flavour grid, stating the outcome in terms of the file. */
  method CheckHF(grid: HFGrid, specs: seq<HistSpec>, file: map<string, Histogram>, prefix: string, family: Family)
    returns (err: Option<LoadError>)
    requires DistinctCodes(specs)
    requires HFFilled(grid, specs, file, prefix, NPtBinsHF, 0)
    ensures err.None? <==> HFComplete(file, specs, prefix)
    ensures err.None? ==> forall c, i :: c in grid && 0 <= i < NPtBinsHF ==> grid[c][i].Some?
    ensures err.Some? ==> err.value.family == family && HFFirstMissing(file, specs, prefix, err.value)
  {
    HFLoaded(grid, specs, file, prefix);
    HFNoGapIffComplete(grid, specs, file, prefix);
    err := ValidateHF(grid, family);
    if err.Some? {
      HFGapIsFirstMissing(grid, specs, file, prefix, err.value);
    }
  }

  /** Validates the loaded light-flavour grid, stating the outcome in terms of the file. */
  method CheckLF(grid: LFGrid, file: map<string, Histogram>) returns (err: Option<LoadError>)
    requires DistinctCodes(LightSpecs)
    requires LFFilled(grid, LightSpecs, file, NPtBinsLF, 0, 0)
    ensures err.None? <==> LFComplete(file)
    ensures err.None? ==> forall c, i, j :: c in grid && 0 <= i < NPtBinsLF && 0 <= j < NEtaBinsLF ==> grid[c][i][j].Some?
    ensures err.Some? ==> err.value.family == Light && LFFirstMissing(file, err.value)
  {
    LFLoaded(grid, LightSpecs, file);
    LFNoGapIffComplete(grid, file);
    err := ValidateLF(grid);
    if err.Some? {
      LFGapIsFirstMissing(grid, file, err.value);
    }
  }

  /**
   * The `CSVReweighter()` constructor, given the two files' contents: it either
   * yields a reweighter whose every grid cell is the table of that cell's name,
   * or reports the first missing table in the order the checks run.
   */
  method Load(src: CalibrationSource) returns (r: Result<CSVReweighter, LoadError>)
    ensures r.Success? <==> Complete(src)
    ensures r.Success? ==> r.value.Valid() && ReadFrom(r.value, src)
    ensures r.Failure? ==> ReportedFirst(src, r.error)
  {
    SpecsDistinct();

    var bottom, charm := LoadHF(src.hf);
    var err := CheckHF(bottom, BottomSpecs, src.hf, "", Bottom);
    if err.Some? {
      return Failure(err.value);
    }
    err := CheckHF(charm, CharmSpecs, src.hf, "c_", Charm);
    if err.Some? {
      return Failure(err.value);
    }

    var light := LoadLF(src.lf);
    err := CheckLF(light, src.lf);
    if err.Some? {
      return Failure(err.value);
    }

    CompleteGridsReadFrom(bottom, charm, light, src);
    r := Success(CSVReweighter(HFTables(bottom), HFTables(charm), LFTables(light)));
  }

}
