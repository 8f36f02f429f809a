/**
 * The event reader: walks the named trees of a source file one entry at a
 * time, copies each entry's objects out of fixed-capacity read buffers into
 * collections ordered by decreasing pt, and weights simulated events by the
 * product of the per-jet b-tagging scale factors.
 *
 * The walk over trees is the corrected step `EventStream.NextStepFixed`: at the
 * end of a tree the reader keeps opening trees until one has an entry left.
 */
module EventReader {
  import opened Wrappers
  import opened PhysicsObjects
  import opened Systematics
  import opened CSVReweighting
  import opened CSVLoading
  import opened EventStream

  // ---------------------------------------------------------------------------
  // Decoding buffered rows

  /** `Lepton(flavour, pt, eta, phi, iso)` built from one buffered row. */
  function DecodeLepton(row: LeptonRow): Lepton {
    NewLepton(row.flavour, row.pt, row.eta, row.phi, row.iso)
  }

  /** `Jet(pt, eta, phi, bTag, flavour)` built from one buffered row. */
  function DecodeJet(row: JetRow): Jet {
    NewJet(row.pt, row.eta, row.phi, row.bTag, row.flavour)
  }

  /** One lepton per row, in row order. */
  function DecodeLeptons(rows: seq<LeptonRow>): seq<Lepton> {
    seq(|rows|, k requires 0 <= k < |rows| => DecodeLepton(rows[k]))
  }

  /** One jet per row, in row order. */
  function DecodeJets(rows: seq<JetRow>): seq<Jet> {
    seq(|rows|, k requires 0 <= k < |rows| => DecodeJet(rows[k]))
  }

  /** `s` holds exactly the elements of `of`, in non-increasing order of `key`. */
  predicate SortedPermutationOf<T(==)>(s: seq<T>, of: seq<T>, key: T -> real) {
    NonIncreasing(s, key) && multiset(s) == multiset(of)
  }

  /** `sort(v.rbegin(), v.rend())`: any reordering into non-increasing `key` order. */
  method SortDecreasing<T(==)>(s: seq<T>, key: T -> real) returns (r: seq<T>)
    ensures SortedPermutationOf(r, s, key)
  {
    r := SortDescending(s, key);
  }

  /** The lepton loop of `ReadNextEvent`: one lepton per buffered row. */
  method BuildLeptons(buf: array<LeptonRow>, size: nat) returns (leptons: seq<Lepton>)
    requires size <= buf.Length
    ensures |leptons| == size
    ensures forall k :: 0 <= k < size ==>
              leptons[k].Pt() == buf[k].pt && leptons[k].Eta() == buf[k].eta && leptons[k].Phi() == buf[k].phi
              && leptons[k].Flavour() == buf[k].flavour && leptons[k].Isolation() == buf[k].iso
    ensures leptons == DecodeLeptons(buf[..size])
  {
    leptons := [];
    for i := 0 to size
      invariant leptons == DecodeLeptons(buf[..i])
    {
      assert buf[..i + 1] == buf[..i] + [buf[i]];
      leptons := leptons + [DecodeLepton(buf[i])];
    }
    assert buf[..size] == buf[..size];
  }

  /** A jet loop of `ReadNextEvent`: one jet per buffered row. */
  method BuildJets(buf: array<JetRow>, size: nat) returns (jets: seq<Jet>)
    requires size <= buf.Length
    ensures |jets| == size
    ensures forall k :: 0 <= k < size ==>
              jets[k].Pt() == buf[k].pt && jets[k].Eta() == buf[k].eta && jets[k].Phi() == buf[k].phi
              && jets[k].BTag() == buf[k].bTag && jets[k].Flavour() == buf[k].flavour
    ensures jets == DecodeJets(buf[..size])
  {
    jets := [];
    for i := 0 to size
      invariant jets == DecodeJets(buf[..i])
    {
      assert buf[..i + 1] == buf[..i] + [buf[i]];
      jets := jets + [DecodeJet(buf[i])];
    }
  }

  // ---------------------------------------------------------------------------
  // Event weight

  /** A per-jet weight of exactly zero is skipped, i.e. counts as 1. */
  function SkipZero(w: real): real {
    if w != 0.0 then w else 1.0
  }

  /** The factor a jet contributes to the event weight: its nominal CSV weight, zero skipped. */
  function BTagFactor(csv: CSVReweighter, jet: Jet): real
    requires csv.Valid()
  {
    SkipZero(JetWeight(csv, jet, Nominal, Up))
  }

  /** The product of `f` over `s`, accumulated from the front. */
  function ProductOf<T(!new)>(s: seq<T>, f: T --> real): real
    requires forall x :: f.requires(x)
    decreases |s|
  {
    if s == [] then 1.0 else ProductOf(s[..|s| - 1], f) * f(s[|s| - 1])
  }

  /** The product of the jets' factors, accumulated in collection order. */
  function BTagProduct(csv: CSVReweighter, jets: seq<Jet>): real
    requires csv.Valid()
  {
    ProductOf(jets, j requires csv.Valid() => BTagFactor(csv, j))
  }

  /** The weight of an event: the raw weight, times the b-tagging product for simulation. */
  function EventWeight(csv: CSVReweighter, rawWeight: real, jets: seq<Jet>, isMC: bool): real
    requires csv.Valid()
  {
    if isMC then rawWeight * BTagProduct(csv, jets) else rawWeight
  }

  /** The weight loop of `ReadNextEvent`: multiply in every non-zero nominal per-jet weight. */
  method ApplyBTagWeights(csv: CSVReweighter, rawWeight: real, jets: seq<Jet>) returns (weight: real)
    requires csv.Valid()
    ensures weight == EventWeight(csv, rawWeight, jets, true)
  {
    weight := rawWeight;
    for k := 0 to |jets|
      invariant weight == rawWeight * BTagProduct(csv, jets[..k])
    {
      assert jets[..k + 1][..k] == jets[..k];
      var perJetBTagWeight := CalculateNominalJetWeight(csv, jets[k]);
      if perJetBTagWeight != 0.0 {
        weight := weight * perJetBTagWeight;
      }
    }
    assert jets[..|jets|] == jets;
  }

  /** Splitting the sequence splits the product. */
  lemma {:induction false} ProductOfAppend<T(!new)>(a: seq<T>, b: seq<T>, f: T --> real)
    requires forall x :: f.requires(x)
    ensures ProductOf(a + b, f) == ProductOf(a, f) * ProductOf(b, f)
    decreases |b|
  {
    if b == [] {
      assert a + b == a;
    } else {
      var b', x := b[..|b| - 1], b[|b| - 1];
      assert (a + b)[..|a + b| - 1] == a + b' && (a + b)[|a + b| - 1] == x;
      ProductOfAppend(a, b', f);
      var pa, pb' := ProductOf(a, f), ProductOf(b', f);
      assert (pa * pb') * f(x) == pa * (pb' * f(x));
    }
  }

  /** If no factor is zero, neither is the product. */
  lemma {:induction false} ProductOfNonZero<T(!new)>(s: seq<T>, f: T --> real)
    requires forall x :: f.requires(x) && f(x) != 0.0
    ensures ProductOf(s, f) != 0.0
    decreases |s|
  {
    if s != [] {
      ProductOfNonZero(s[..|s| - 1], f);
    }
  }

  /** No factor is zero, so neither is the b-tagging product. */
  lemma BTagProductNonZero(csv: CSVReweighter, jets: seq<Jet>)
    requires csv.Valid()
    ensures BTagProduct(csv, jets) != 0.0
  {
    ProductOfNonZero(jets, j requires csv.Valid() => BTagFactor(csv, j));
  }

  /** The b-tagging weights never zero a simulated event: its weight is zero exactly when the raw weight is. */
  lemma EventWeightZeroIff(csv: CSVReweighter, rawWeight: real, jets: seq<Jet>)
    requires csv.Valid()
    ensures EventWeight(csv, rawWeight, jets, true) == 0.0 <==> rawWeight == 0.0
  {
    BTagProductNonZero(csv, jets);
  }

  /** A jet whose nominal weight is exactly zero leaves the event weight unchanged. */
  lemma ZeroWeightJetIgnored(csv: CSVReweighter, rawWeight: real, jets: seq<Jet>, jet: Jet)
    requires csv.Valid()
    requires JetWeight(csv, jet, Nominal, Up) == 0.0
    ensures EventWeight(csv, rawWeight, jets + [jet], true) == EventWeight(csv, rawWeight, jets, true)
  {
    assert (jets + [jet])[..|jets|] == jets;
  }

  /** A jet outside pt >= 20 GeV, |eta| < 2.4 leaves the event weight unchanged. */
  lemma OutOfAcceptanceJetIgnored(csv: CSVReweighter, rawWeight: real, jets: seq<Jet>, jet: Jet)
    requires csv.Valid()
    requires jet.Pt() < 20.0 || Abs(jet.Eta()) >= 2.4
    ensures EventWeight(csv, rawWeight, jets + [jet], true) == EventWeight(csv, rawWeight, jets, true)
  {
    OutOfAcceptanceIsUnit(csv, jet, Nominal, Up);
    assert (jets + [jet])[..|jets|] == jets;
  }

  /** Real data is never reweighted. */
  lemma DataWeightIsRaw(csv: CSVReweighter, rawWeight: real, jets: seq<Jet>)
    requires csv.Valid()
    ensures EventWeight(csv, rawWeight, jets, false) == rawWeight
  {
  }

  // ---------------------------------------------------------------------------
  // The reader

  /** What the reader sees of its source file: whether it opened cleanly, and the trees in it by name. */
  datatype SourceFile = SourceFile(usable: bool, trees: TreeStore)

  /** Every entry of every tree named in `names` fits the read buffers; other trees in the file are never read. */
  predicate StoreFitsBuffers(store: TreeStore, names: seq<string>) {
    forall i, k :: 0 <= i < |names| && names[i] in store && 0 <= k < |store[names[i]]| ==> FitsBuffers(store[names[i]][k])
  }

  /** `TTree::GetEntry` for one array branch: the entry's rows land at the front of the buffer. */
  method CopyRows<T>(buf: array<T>, rows: seq<T>)
    requires |rows| <= buf.Length
    modifies buf
    ensures buf[..|rows|] == rows
    ensures buf[|rows|..] == old(buf[|rows|..])
  {
    for i := 0 to |rows|
      invariant buf[..i] == rows[..i]
      invariant buf[|rows|..] == old(buf[|rows|..])
    {
      buf[i] := rows[i];
    }
  }

  class Reader {
    const srcFile: SourceFile
    const treeNames: seq<string>
    /** Index into `treeNames` of the current tree's name. */
    var curTreeNameIt: nat
    /** The current tree; None after a failed look-up. */
    var curTree: Option<Tree>
    var nEntries: nat
    var curEntry: nat

    var leptons: seq<Lepton>
    var jets: seq<Jet>
    var jetsJECUp: seq<Jet>
    var jetsJECDown: seq<Jet>
    const met: MET
    const metJECUp: MET
    const metJECDown: MET
    var weight: real
    var isMC: bool
    const csvReweighter: CSVReweighter

    // Read buffers, filled by `GetEntry` from the current entry
    var lepSize: nat
    const lepBuf: array<LeptonRow>
    var jetSize: nat
    const jetBuf: array<JetRow>
    var jetJECUpSize: nat
    const jetJECUpBuf: array<JetRow>
    var jetJECDownSize: nat
    const jetJECDownBuf: array<JetRow>
    var metPt: real
    var metPhi: real
    var metJECUpPt: real
    var metJECUpPhi: real
    var metJECDownPt: real
    var metJECDownPhi: real
    var rawWeight: real

    /** The reader's position in the walk over trees. */
    function Position(): Cursor
      reads this`curTreeNameIt, this`curTree, this`nEntries, this`curEntry
    {
      Cursor(curTreeNameIt, curTree, nEntries, curEntry)
    }

    /** The buffers have the fixed capacity and are distinct objects. */
    predicate BuffersValid() {
      && lepBuf.Length == MaxSize && jetBuf.Length == MaxSize
      && jetJECUpBuf.Length == MaxSize && jetJECDownBuf.Length == MaxSize
      && jetBuf != jetJECUpBuf && jetBuf != jetJECDownBuf && jetJECUpBuf != jetJECDownBuf
    }

    /** The three MET objects are distinct. */
    predicate METsDistinct() {
      met != metJECUp && met != metJECDown && metJECUp != metJECDown
    }

    /** What construction checks of its inputs and sets up once. */
    predicate Configured() {
      && srcFile.usable && |treeNames| > 0 && treeNames[0] in srcFile.trees
      && StoreFitsBuffers(srcFile.trees, treeNames)
      && csvReweighter.Valid()
      && BuffersValid() && METsDistinct()
    }

    /** The position is one the corrected walk can be in. */
    predicate Positioned()
      reads this`curTreeNameIt, this`curTree, this`nEntries, this`curEntry
    {
      && curTreeNameIt <= |treeNames|
      && (curTree.None? ==> curEntry == nEntries)
      && (curTree.Some? && curTreeNameIt < |treeNames| ==> InTree(srcFile.trees, treeNames, Position()))
    }

    /** Every collection is in decreasing pt. */
    predicate Ordered()
      reads this`leptons, this`jets, this`jetsJECUp, this`jetsJECDown
    {
      && NonIncreasing(leptons, LeptonPt) && NonIncreasing(jets, JetPt)
      && NonIncreasing(jetsJECUp, JetPt) && NonIncreasing(jetsJECDown, JetPt)
    }

    /** What construction establishes and every operation keeps. */
    predicate Valid()
      reads this
    {
      Configured() && Positioned() && Ordered()
    }

    /** The buffers hold entry e's nominal content. */
    predicate Buffered(e: Entry)
      reads this`lepSize, this`jetSize, this`metPt, this`metPhi, lepBuf, jetBuf
    {
      && lepSize == |e.leptons| && lepSize <= lepBuf.Length && lepBuf[..lepSize] == e.leptons
      && jetSize == |e.jets| && jetSize <= jetBuf.Length && jetBuf[..jetSize] == e.jets
      && metPt == e.metPt && metPhi == e.metPhi
    }

    /** The buffers hold entry e's variations and generator weight. */
    predicate BufferedVariations(e: Entry)
      reads this`jetJECUpSize, this`jetJECDownSize, this`metJECUpPt, this`metJECUpPhi
      reads this`metJECDownPt, this`metJECDownPhi, this`rawWeight, jetJECUpBuf, jetJECDownBuf
    {
      && jetJECUpSize == |e.jetsJECUp| && jetJECUpSize <= jetJECUpBuf.Length && jetJECUpBuf[..jetJECUpSize] == e.jetsJECUp
      && jetJECDownSize == |e.jetsJECDown| && jetJECDownSize <= jetJECDownBuf.Length
      && jetJECDownBuf[..jetJECDownSize] == e.jetsJECDown
      && metJECUpPt == e.metJECUpPt && metJECUpPhi == e.metJECUpPhi
      && metJECDownPt == e.metJECDownPt && metJECDownPhi == e.metJECDownPhi
      && rawWeight == e.rawWeight
    }

    /** Construction for a usable file whose first tree exists: positioned before the first entry of the first tree. */
    constructor (srcFile: SourceFile, treeNames: seq<string>, csvReweighter: CSVReweighter)
      requires srcFile.usable && |treeNames| > 0 && treeNames[0] in srcFile.trees
      requires StoreFitsBuffers(srcFile.trees, treeNames) && csvReweighter.Valid()
      ensures Configured() && Positioned() && Ordered() && isMC
      ensures this.srcFile == srcFile && this.treeNames == treeNames && this.csvReweighter == csvReweighter
      ensures Position() == Start(srcFile.trees, treeNames)
      ensures leptons == [] && jets == [] && jetsJECUp == [] && jetsJECDown == []
      ensures fresh(met) && fresh(metJECUp) && fresh(metJECDown)
      ensures fresh(lepBuf) && fresh(jetBuf) && fresh(jetJECUpBuf) && fresh(jetJECDownBuf)
      ensures met.p4 == ZeroP4 && metJECUp.p4 == ZeroP4 && metJECDown.p4 == ZeroP4
    {
      this.srcFile := srcFile;
      this.treeNames := treeNames;
      this.csvReweighter := csvReweighter;
      curTreeNameIt := 0;
      curTree := None;
      nEntries := 0;
      curEntry := 0;
      leptons := [];
      jets := [];
      jetsJECUp := [];
      jetsJECDown := [];
      met := new MET();
      metJECUp := new MET();
      metJECDown := new MET();
      weight := 0.0;
      isMC := false;
      lepSize := 0;
      lepBuf := new LeptonRow[MaxSize];
      jetSize := 0;
      jetBuf := new JetRow[MaxSize];
      jetJECUpSize := 0;
      jetJECUpBuf := new JetRow[MaxSize];
      jetJECDownSize := 0;
      jetJECDownBuf := new JetRow[MaxSize];
      metPt, metPhi := 0.0, 0.0;
      metJECUpPt, metJECUpPhi := 0.0, 0.0;
      metJECDownPt, metJECDownPhi := 0.0, 0.0;
      rawWeight := 0.0;
      new;
      var found := GetTree(treeNames[0]);
    }

    /**
     * Looks the tree up by name. When found: it becomes current, the sample
     * counts as simulation, and the reader is before its first entry. When not:
     * the current tree is null and the counters are left as they were.
     */
    method GetTree(name: string) returns (found: bool)
      modifies this`curTree, this`isMC, this`nEntries, this`curEntry
      ensures found <==> name in srcFile.trees
      ensures found ==> curTree == Some(srcFile.trees[name]) && isMC
                        && nEntries == |srcFile.trees[name]| && curEntry == 0
      ensures !found ==> curTree == None && isMC == old(isMC)
                         && nEntries == old(nEntries) && curEntry == old(curEntry)
    {
      if name in srcFile.trees {
        curTree := Some(srcFile.trees[name]);
        isMC := true;
        nEntries := |curTree.value|;
        curEntry := 0;
        found := true;
      } else {
        curTree := None;
        found := false;
      }
    }

    /**
     * The first half of `ReadNextEvent`: while the current tree has no entry
     * left, move on to the next name. Stops with the outcome when the names run
     * out or a tree is missing; otherwise leaves the reader inside a tree with
     * an entry left.
     */
    method SkipFinishedTrees() returns (stop: Option<Outcome>)
      requires Configured() && Positioned() && CanRead(treeNames, Position())
      modifies this`curTreeNameIt, this`curTree, this`isMC, this`nEntries, this`curEntry
      ensures Positioned() && (old(isMC) ==> isMC)
      ensures var s := NextStepFixed(srcFile.trees, treeNames, old(Position()));
              if stop.Some? then Position() == s.next && stop.value == s.outcome && s.outcome != Event
              else InTree(srcFile.trees, treeNames, Position()) && curEntry < nEntries
                   && NextStepFixed(srcFile.trees, treeNames, Position()) == s
    {
      ghost var s := NextStepFixed(srcFile.trees, treeNames, Position());
      while curEntry == nEntries
        invariant Positioned() && CanRead(treeNames, Position()) && (old(isMC) ==> isMC)
        invariant NextStepFixed(srcFile.trees, treeNames, Position()) == s
        decreases |treeNames| - curTreeNameIt
      {
        curTreeNameIt := curTreeNameIt + 1;
        if curTreeNameIt == |treeNames| {
          return Some(NoMoreEvents);
        }
        var found := GetTree(treeNames[curTreeNameIt]);
        if !found {
          return Some(MissingTree(treeNames[curTreeNameIt]));
        }
      }
      return None;
    }

    /** `TTree::GetEntry`: copies one entry into the bound buffers; the variation branches are bound for simulation only. */
    method GetEntry(e: Entry)
      requires BuffersValid() && FitsBuffers(e)
      modifies this`lepSize, this`jetSize, this`jetJECUpSize, this`jetJECDownSize
      modifies this`metPt, this`metPhi, this`metJECUpPt, this`metJECUpPhi, this`metJECDownPt, this`metJECDownPhi
      modifies this`rawWeight, lepBuf, jetBuf, jetJECUpBuf, jetJECDownBuf
      ensures Buffered(e)
      ensures isMC ==> BufferedVariations(e)
      ensures !isMC ==> rawWeight == old(rawWeight)
    {
      ReadNominalBranches(e);
      if isMC {
        ReadVariationBranches(e);
      }
    }

    /** The branches read for every sample: leptons, jets and MET. */
    method ReadNominalBranches(e: Entry)
      requires BuffersValid() && FitsBuffers(e)
      modifies this`lepSize, this`jetSize, this`metPt, this`metPhi, lepBuf, jetBuf
      ensures Buffered(e)
    {
      lepSize := |e.leptons|;
      CopyRows(lepBuf, e.leptons);
      jetSize := |e.jets|;
      CopyRows(jetBuf, e.jets);
      metPt, metPhi := e.metPt, e.metPhi;
    }

    /** The branches bound for simulation only: the JEC variations and the generator weight. */
    method ReadVariationBranches(e: Entry)
      requires BuffersValid() && FitsBuffers(e)
      modifies this`jetJECUpSize, this`jetJECDownSize, this`metJECUpPt, this`metJECUpPhi
      modifies this`metJECDownPt, this`metJECDownPhi, this`rawWeight, jetJECUpBuf, jetJECDownBuf
      ensures BufferedVariations(e)
    {
      jetJECUpSize := |e.jetsJECUp|;
      CopyRows(jetJECUpBuf, e.jetsJECUp);
      jetJECDownSize := |e.jetsJECDown|;
      CopyRows(jetJECDownBuf, e.jetsJECDown);
      metJECUpPt, metJECUpPhi := e.metJECUpPt, e.metJECUpPhi;
      metJECDownPt, metJECDownPhi := e.metJECDownPt, e.metJECDownPhi;
      rawWeight := e.rawWeight;
    }

    /**
     * The second half of `ReadNextEvent`: rebuild the collections from the
     * buffers (which hold entry e), order them by decreasing pt, set the METs,
     * and weight the event.
     */
    method FillEvent(ghost e: Entry)
      requires csvReweighter.Valid() && METsDistinct()
      requires Buffered(e) && (isMC ==> BufferedVariations(e))
      requires !isMC ==> NonIncreasing(jetsJECUp, JetPt) && NonIncreasing(jetsJECDown, JetPt)
      modifies this`leptons, this`jets, this`jetsJECUp, this`jetsJECDown, this`weight, met, metJECUp, metJECDown
      ensures HoldsEvent(e) && Ordered()
      ensures !isMC ==> weight == rawWeight
    {
      ReadObjects(e);
      weight := rawWeight;
      if isMC {
        weight := ApplyBTagWeights(csvReweighter, weight, jets);
      }
    }

    /** Rebuilds the collections from the buffers (which hold entry e), orders them by decreasing pt, and sets the METs. */
    method ReadObjects(ghost e: Entry)
      requires METsDistinct()
      requires Buffered(e) && (isMC ==> BufferedVariations(e))
      requires !isMC ==> NonIncreasing(jetsJECUp, JetPt) && NonIncreasing(jetsJECDown, JetPt)
      modifies this`leptons, this`jets, this`jetsJECUp, this`jetsJECDown, met, metJECUp, metJECDown
      ensures HoldsObjects(e) && Ordered()
    {
      CopyFromBuffers(e);
      SortCollections();
    }

    /** Copies the objects of entry e out of the buffers, in buffer order, and sets the METs. */
    method CopyFromBuffers(ghost e: Entry)
      requires METsDistinct()
      requires Buffered(e) && (isMC ==> BufferedVariations(e))
      modifies this`leptons, this`jets, this`jetsJECUp, this`jetsJECDown, met, metJECUp, metJECDown
      ensures leptons == DecodeLeptons(e.leptons) && jets == DecodeJets(e.jets)
      ensures met.p4 == MetP4(e.metPt, e.metPhi)
      ensures isMC ==> && jetsJECUp == DecodeJets(e.jetsJECUp) && jetsJECDown == DecodeJets(e.jetsJECDown)
                       && metJECUp.p4 == MetP4(e.metJECUpPt, e.metJECUpPhi)
                       && metJECDown.p4 == MetP4(e.metJECDownPt, e.metJECDownPhi)
      ensures !isMC ==> && jetsJECUp == old(jetsJECUp) && jetsJECDown == old(jetsJECDown)
                        && metJECUp.p4 == old(metJECUp.p4) && metJECDown.p4 == old(metJECDown.p4)
    {
      CopyNominal(e);
      if isMC {
        CopyVariations(e);
      }
    }

    /** The objects read for every sample: leptons, jets and the nominal MET. */
    method CopyNominal(ghost e: Entry)
      requires Buffered(e)
      modifies this`leptons, this`jets, met
      ensures leptons == DecodeLeptons(e.leptons) && jets == DecodeJets(e.jets)
      ensures met.p4 == MetP4(e.metPt, e.metPhi)
    {
      leptons := BuildLeptons(lepBuf, lepSize);
      jets := BuildJets(jetBuf, jetSize);
      met.Set(metPt, metPhi);
    }

    /** The objects read for simulation only: the JEC-varied jets and METs. */
    method CopyVariations(ghost e: Entry)
      requires metJECUp != metJECDown
      requires BufferedVariations(e)
      modifies this`jetsJECUp, this`jetsJECDown, metJECUp, metJECDown
      ensures jetsJECUp == DecodeJets(e.jetsJECUp) && jetsJECDown == DecodeJets(e.jetsJECDown)
      ensures metJECUp.p4 == MetP4(e.metJECUpPt, e.metJECUpPhi)
      ensures metJECDown.p4 == MetP4(e.metJECDownPt, e.metJECDownPhi)
    {
      jetsJECUp := BuildJets(jetJECUpBuf, jetJECUpSize);
      jetsJECDown := BuildJets(jetJECDownBuf, jetJECDownSize);
      metJECUp.Set(metJECUpPt, metJECUpPhi);
      metJECDown.Set(metJECDownPt, metJECDownPhi);
    }

    /** Orders the collections by decreasing pt; the variations only for simulation. */
    method SortCollections()
      requires !isMC ==> NonIncreasing(jetsJECUp, JetPt) && NonIncreasing(jetsJECDown, JetPt)
      modifies this`leptons, this`jets, this`jetsJECUp, this`jetsJECDown
      ensures SortedPermutationOf(leptons, old(leptons), LeptonPt)
      ensures SortedPermutationOf(jets, old(jets), JetPt)
      ensures isMC ==> && SortedPermutationOf(jetsJECUp, old(jetsJECUp), JetPt)
                       && SortedPermutationOf(jetsJECDown, old(jetsJECDown), JetPt)
      ensures !isMC ==> jetsJECUp == old(jetsJECUp) && jetsJECDown == old(jetsJECDown)
      ensures NonIncreasing(jetsJECUp, JetPt) && NonIncreasing(jetsJECDown, JetPt)
    {
      leptons := SortDecreasing(leptons, LeptonPt);
      jets := SortDecreasing(jets, JetPt);
      if isMC {
        jetsJECUp := SortDecreasing(jetsJECUp, JetPt);
        jetsJECDown := SortDecreasing(jetsJECDown, JetPt);
      }
    }

    /**
     * The collections hold entry e's objects in decreasing pt and the METs its
     * values; for simulation the weight is its raw weight times the b-tagging
     * product over the jets.
     */
    predicate HoldsEvent(e: Entry)
      reads this`leptons, this`jets, this`jetsJECUp, this`jetsJECDown, this`weight, this`isMC
      reads met, metJECUp, metJECDown
      requires csvReweighter.Valid()
    {
      HoldsObjects(e) && (isMC ==> weight == EventWeight(csvReweighter, e.rawWeight, jets, true))
    }

    /** The collections hold entry e's objects in decreasing pt and the METs its values (the variations for simulation only). */
    predicate HoldsObjects(e: Entry)
      reads this`leptons, this`jets, this`jetsJECUp, this`jetsJECDown, this`isMC
      reads met, metJECUp, metJECDown
    {
      && SortedPermutationOf(leptons, DecodeLeptons(e.leptons), LeptonPt)
      && SortedPermutationOf(jets, DecodeJets(e.jets), JetPt)
      && met.p4 == MetP4(e.metPt, e.metPhi)
      && (isMC ==> && SortedPermutationOf(jetsJECUp, DecodeJets(e.jetsJECUp), JetPt)
                   && SortedPermutationOf(jetsJECDown, DecodeJets(e.jetsJECDown), JetPt)
                   && metJECUp.p4 == MetP4(e.metJECUpPt, e.metJECUpPhi)
                   && metJECDown.p4 == MetP4(e.metJECDownPt, e.metJECDownPhi))
    }

    /** `curTree->GetEntry(curEntry); ++curEntry;`: buffers the entry at the index and moves past it. */
    method FetchEntry()
      requires BuffersValid() && StoreFitsBuffers(srcFile.trees, treeNames)
      requires InTree(srcFile.trees, treeNames, Position()) && curEntry < nEntries
      modifies this`lepSize, this`jetSize, this`jetJECUpSize, this`jetJECDownSize
      modifies this`metPt, this`metPhi, this`metJECUpPt, this`metJECUpPhi, this`metJECDownPt, this`metJECDownPhi
      modifies this`rawWeight, lepBuf, jetBuf, jetJECUpBuf, jetJECDownBuf, this`curEntry
      ensures InTree(srcFile.trees, treeNames, Position()) && curEntry == old(curEntry) + 1
      ensures Buffered(old(curTree.value[curEntry])) && (isMC ==> BufferedVariations(old(curTree.value[curEntry])))
      ensures !isMC ==> rawWeight == old(rawWeight)
    {
      assert curTree.value == srcFile.trees[treeNames[curTreeNameIt]];
      assert FitsBuffers(curTree.value[curEntry]);
      GetEntry(curTree.value[curEntry]);
      curEntry := curEntry + 1;
    }

    /** Reads the entry at `curEntry` of the current tree into the event and moves past it. */
    method ReadEntry(ghost e: Entry)
      requires BuffersValid() && METsDistinct() && StoreFitsBuffers(srcFile.trees, treeNames) && csvReweighter.Valid()
      requires Ordered() && InTree(srcFile.trees, treeNames, Position()) && curEntry < nEntries
      requires e == curTree.value[curEntry]
      modifies this`lepSize, this`jetSize, this`jetJECUpSize, this`jetJECDownSize
      modifies this`metPt, this`metPhi, this`metJECUpPt, this`metJECUpPhi, this`metJECDownPt, this`metJECDownPhi
      modifies this`rawWeight, lepBuf, jetBuf, jetJECUpBuf, jetJECDownBuf
      modifies this`curEntry, this`leptons, this`jets, this`jetsJECUp, this`jetsJECDown, this`weight
      modifies met, metJECUp, metJECDown
      ensures Ordered() && Position() == old(Position()).(curEntry := old(curEntry) + 1)
      ensures HoldsEvent(e)
      ensures !isMC ==> weight == old(rawWeight)
    {
      FetchEntry();
      FillEvent(e);
    }

    /**
     * Reads the next event. The position moves as the corrected step says; on
     * an event the collections, METs and weight are those of the entry read;
     * otherwise the event state is left as it was.
     */
    method ReadNextEvent() returns (outcome: Outcome)
      requires Valid() && CanRead(treeNames, Position())
      modifies this, lepBuf, jetBuf, jetJECUpBuf, jetJECDownBuf, met, metJECUp, metJECDown
      ensures Valid() && (old(isMC) ==> isMC)
      ensures var s := NextStepFixed(srcFile.trees, treeNames, old(Position()));
              && Position() == s.next && outcome == s.outcome
              && (outcome == Event ==> s.fetched.Some? && HoldsEvent(s.fetched.value))
      ensures outcome == Event && !isMC ==> weight == old(rawWeight)
      ensures outcome != Event ==>
                && leptons == old(leptons) && jets == old(jets)
                && jetsJECUp == old(jetsJECUp) && jetsJECDown == old(jetsJECDown)
                && met.p4 == old(met.p4) && metJECUp.p4 == old(metJECUp.p4) && metJECDown.p4 == old(metJECDown.p4)
                && weight == old(weight)
    {
      FixedStepStaysInTree(srcFile.trees, treeNames, Position());
      var stop := SkipFinishedTrees();
      if stop.Some? {
        return stop.value;
      }
      ReadStepFixed(srcFile.trees, treeNames, Position());
      ReadEntry(curTree.value[curEntry]);
      return Event;
    }

    /** Back to the state right after construction: before the first entry of the first tree. */
    method Rewind()
      requires Valid()
      modifies this`curTreeNameIt, this`curTree, this`isMC, this`nEntries, this`curEntry
      ensures Valid() && isMC
      ensures Position() == Start(srcFile.trees, treeNames)
    {
      curTreeNameIt := 0;
      var found := GetTree(treeNames[0]);
    }

    /** The leptons of the current event, in decreasing pt. */
    function GetLeptons(): (ls: seq<Lepton>)
      reads this
      requires Valid()
      ensures NonIncreasing(ls, LeptonPt)
    {
      leptons
    }

    /** The jets of the current event, in decreasing pt. */
    function GetJets(): (js: seq<Jet>)
      reads this
      requires Valid()
      ensures NonIncreasing(js, JetPt)
    {
      jets
    }

    /** The nominal MET of the current event. */
    function GetMET(): MET
      reads this
    {
      met
    }

    /** The weight of the current event. */
    function GetWeight(): real
      reads this
    {
      weight
    }
  }

  /** Why construction fails. */
  datatype OpenError =
    | CalibrationMissing(missing: LoadError)
    | CorruptFile
    | TreeNotFound(name: string)

  /**
   * Construction with its failure paths, in the order they are met: loading
   * the calibration (the reweighter member is built first), then the file
   * check, then the look-up of the first tree.
   */
  method OpenReader(srcFile: SourceFile, treeNames: seq<string>, calibration: CalibrationSource)
    returns (r: Result<Reader, OpenError>)
    requires |treeNames| > 0
    requires StoreFitsBuffers(srcFile.trees, treeNames)
    ensures r.Success? <==> Complete(calibration) && srcFile.usable && treeNames[0] in srcFile.trees
    ensures r.Failure? && !Complete(calibration) ==>
              r.error.CalibrationMissing? && ReportedFirst(calibration, r.error.missing)
    ensures r.Failure? && Complete(calibration) && !srcFile.usable ==> r.error == CorruptFile
    ensures r.Failure? && Complete(calibration) && srcFile.usable ==> r.error == TreeNotFound(treeNames[0])
    ensures r.Success? ==> && fresh(r.value) && r.value.Valid() && r.value.isMC
                           && r.value.srcFile == srcFile && r.value.treeNames == treeNames
                           && r.value.Position() == Start(srcFile.trees, treeNames)
                           && ReadFrom(r.value.csvReweighter, calibration)
    ensures r.Success? ==> && fresh(r.value.met) && fresh(r.value.metJECUp) && fresh(r.value.metJECDown)
                           && fresh(r.value.lepBuf) && fresh(r.value.jetBuf)
                           && fresh(r.value.jetJECUpBuf) && fresh(r.value.jetJECDownBuf)
  {
    var loaded := Load(calibration);
    if loaded.Failure? {
      return Failure(CalibrationMissing(loaded.error));
    }
    if !srcFile.usable {
      return Failure(CorruptFile);
    }
    if treeNames[0] !in srcFile.trees {
      return Failure(TreeNotFound(treeNames[0]));
    }
    var reader := new Reader(srcFile, treeNames, loaded.value);
    return Success(reader);
  }

  /** `Reader(srcFile, treeName)`: the reader over a single tree, delegating to the list form. */
  method OpenSingleTreeReader(srcFile: SourceFile, treeName: string, calibration: CalibrationSource)
    returns (r: Result<Reader, OpenError>)
    requires StoreFitsBuffers(srcFile.trees, [treeName])
    ensures r.Success? <==> Complete(calibration) && srcFile.usable && treeName in srcFile.trees
    ensures r.Failure? && !Complete(calibration) ==>
              r.error.CalibrationMissing? && ReportedFirst(calibration, r.error.missing)
    ensures r.Failure? && Complete(calibration) && !srcFile.usable ==> r.error == CorruptFile
    ensures r.Failure? && Complete(calibration) && srcFile.usable ==> r.error == TreeNotFound(treeName)
    ensures r.Success? ==> && fresh(r.value) && r.value.Valid() && r.value.isMC
                           && r.value.srcFile == srcFile && r.value.treeNames == [treeName]
                           && r.value.Position() == Start(srcFile.trees, [treeName])
                           && ReadFrom(r.value.csvReweighter, calibration)
    ensures r.Success? ==> && fresh(r.value.met) && fresh(r.value.metJECUp) && fresh(r.value.metJECDown)
                           && fresh(r.value.lepBuf) && fresh(r.value.jetBuf)
                           && fresh(r.value.jetJECUpBuf) && fresh(r.value.jetJECDownBuf)
  {
    r := OpenReader(srcFile, [treeName], calibration);
  }
}
