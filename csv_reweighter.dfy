/**
 * Per-jet b-tag (CSV) reweighting: the tables the reweighter holds and the
 * lookup `CalculateJetWeight`.
 *
 * A reweighter holds, per flavour family, a map from systematic code to a grid
 * of histograms over the b-tagging discriminator: bottom and charm grids are
 * indexed by pt bin only (the heavy-flavour tables have a single eta bin), light
 * grids by pt bin and |eta| bin. Nothing changes the maps after construction, so
 * the reweighter is modelled as an immutable value; its construction is in
 * module CSVLoading.
 */
module CSVReweighting {
  import opened Systematics
  import opened PhysicsObjects
  import opened Histograms

  /** Number of pt bins in the heavy-flavour tables. */
  const NPtBinsHF: nat := 6
  /** Number of pt bins in the light-flavour tables. */
  const NPtBinsLF: nat := 4
  /** Number of |eta| bins in the light-flavour tables. */
  const NEtaBinsLF: nat := 3

  /** Lower edges of the pt bins, in GeV. */
  const PtCuts: seq<real> := [20.0, 30.0, 40.0, 60.0, 100.0, 160.0]
  /** Lower edges of the |eta| bins. */
  const EtaCuts: seq<real> := [0.0, 0.8, 1.6, 2.4]

  /** A systematic variation packed into one unsigned number. */
  type SystCode = nat

  /** `EncodeSyst`: twice the source's value plus the direction's value. */
  function EncodeSyst(systType: SystType, systDirection: SystDirection): (code: SystCode)
    ensures code < 20
    ensures code == 0 <==> systType == Nominal && systDirection == Up
  {
    2 * systType.Ordinal() + systDirection.Ordinal()
  }

  /** Distinct variations have distinct codes, so a code names exactly one (type, direction) pair. */
  lemma EncodeSystInjective(t1: SystType, d1: SystDirection, t2: SystType, d2: SystDirection)
    ensures EncodeSyst(t1, d1) == EncodeSyst(t2, d2) <==> t1 == t2 && d1 == d2
  {
    SystTypeOrdinalInjective(t1, t2);
  }

  /** The code of (Nominal, Up): the universal fall-back table. */
  const NominalCode: SystCode := EncodeSyst(Nominal, Up)

  /** Flavour families with separate tables. */
  datatype Family = Bottom | Charm | Light

  /** |flavour| = 5 selects the bottom tables, 4 the charm tables, and anything else the light ones. */
  function FamilyOf(flavour: int): Family {
    var absFlavour := if flavour < 0 then -flavour else flavour;
    if absFlavour == 5 then Bottom else if absFlavour == 4 then Charm else Light
  }

  /** Codes for which the constructor loads bottom tables (nine). */
  const BottomCodes: set<SystCode> := {0, 2, 3, 4, 5, 8, 9, 10, 11}
  /** Codes for which the constructor loads charm tables (five). */
  const CharmCodes: set<SystCode> := {0, 16, 17, 18, 19}
  /** Codes for which the constructor loads light tables (nine). */
  const LightCodes: set<SystCode> := {0, 2, 3, 6, 7, 12, 13, 14, 15}

  function FamilyCodes(family: Family): set<SystCode> {
    match family
    case Bottom => BottomCodes
    case Charm => CharmCodes
    case Light => LightCodes
  }

  /** Sources of variation that have their own tables in each family. */
  function Supported(family: Family): set<SystType> {
    match family
    case Bottom => {Nominal, JEC, BTagPurityHF, BTagStatHF1, BTagStatHF2}
    case Charm => {Nominal, BTagCharmUnc1, BTagCharmUnc2}
    case Light => {Nominal, JEC, BTagPurityLF, BTagStatLF1, BTagStatLF2}
  }

  /** "(Nominal, Down)" means (Nominal, Up); every other request keeps its direction. */
  function NormalisedDirection(systType: SystType, systDirection: SystDirection): SystDirection {
    if systType == Nominal && systDirection == Down then Up else systDirection
  }

  /** A family's key set contains a normalised request exactly when the family supports its source. */
  lemma FamilyCodesMatchSupport(family: Family, systType: SystType, systDirection: SystDirection)
    ensures EncodeSyst(systType, NormalisedDirection(systType, systDirection)) in FamilyCodes(family)
            <==> systType in Supported(family)
  {
    match family
    case Bottom =>
    case Charm =>
    case Light =>
  }

  /** The reweighter's three table maps, from systematic code to grid. */
  datatype CSVReweighter = CSVReweighter(
    weightsBottom: map<SystCode, seq<Histogram>>,
    weightsCharm: map<SystCode, seq<Histogram>>,
    weightsLight: map<SystCode, seq<seq<Histogram>>>)
  {
    /** What a successful construction guarantees: the fixed key sets and complete grids. */
    predicate Valid() {
      && weightsBottom.Keys == BottomCodes
      && weightsCharm.Keys == CharmCodes
      && weightsLight.Keys == LightCodes
      && (forall c :: c in weightsBottom ==> |weightsBottom[c]| == NPtBinsHF)
      && (forall c :: c in weightsCharm ==> |weightsCharm[c]| == NPtBinsHF)
      && (forall c :: c in weightsLight ==>
            |weightsLight[c]| == NPtBinsLF &&
            forall i :: 0 <= i < NPtBinsLF ==> |weightsLight[c][i]| == NEtaBinsLF)
    }

    function Keys(family: Family): set<SystCode> {
      match family
      case Bottom => weightsBottom.Keys
      case Charm => weightsCharm.Keys
      case Light => weightsLight.Keys
    }
  }

  /** Pt bin: the number of pt cuts <= pt, minus one (-1 below the first cut). */
  function PtBin(pt: real): int {
    CountLE(PtCuts, pt) - 1
  }

  /** |eta| bin: the number of |eta| cuts <= |eta|, minus one. */
  function EtaBin(absEta: real): int {
    CountLE(EtaCuts, absEta) - 1
  }

  function Abs(x: real): real {
    if x < 0.0 then -x else x
  }

  /** Both cut lists are strictly ascending. */
  lemma CutsAscending()
    ensures Ascending(PtCuts) && Ascending(EtaCuts)
  {
  }

  /** The pt bin lies in -1..5; it is -1 exactly below 20 GeV, 5 from 160 GeV on, and otherwise brackets pt between consecutive cuts. */
  lemma PtBinLocates(pt: real)
    ensures -1 <= PtBin(pt) < NPtBinsHF
    ensures PtBin(pt) == -1 <==> pt < 20.0
    ensures PtBin(pt) == 5 <==> 160.0 <= pt
    ensures 0 <= PtBin(pt) < 5 ==> PtCuts[PtBin(pt)] <= pt < PtCuts[PtBin(pt) + 1]
  {
    CutsAscending();
    CountLEBrackets(PtCuts, pt);
  }

  /** For |eta| >= 0 the |eta| bin lies in 0..3; it is 3 exactly from 2.4 on, and otherwise brackets |eta| between consecutive cuts. */
  lemma EtaBinLocates(absEta: real)
    requires 0.0 <= absEta
    ensures 0 <= EtaBin(absEta) <= NEtaBinsLF
    ensures EtaBin(absEta) == 3 <==> 2.4 <= absEta
    ensures EtaBin(absEta) < 3 ==> EtaCuts[EtaBin(absEta)] <= absEta < EtaCuts[EtaBin(absEta) + 1]
  {
    CutsAscending();
    CountLEBrackets(EtaCuts, absEta);
  }

  /** The bins the lookup accepts: pt bin in 0..5 and |eta| bin in 0..2. */
  predicate BinsInRange(iPt: int, iEta: int) {
    !(iPt < 0 || iPt >= NPtBinsHF as int || iEta < 0 || iEta >= NEtaBinsLF as int)
  }

  /** The accepted region is exactly pt >= 20 and |eta| < 2.4: there is no upper pt limit. */
  lemma AcceptanceWindow(pt: real, eta: real)
    ensures BinsInRange(PtBin(pt), EtaBin(Abs(eta))) <==> 20.0 <= pt && Abs(eta) < 2.4
  {
    PtBinLocates(pt);
    EtaBinLocates(Abs(eta));
  }

  /** The code actually looked up: the requested one if the family has it, else (Nominal, Up). */
  function EffectiveCode(r: CSVReweighter, family: Family, code: SystCode): SystCode {
    if code in r.Keys(family) then code else NominalCode
  }

  /** The histogram for a family, code and bins; light clips the pt bin to at most 3, heavy flavours ignore the |eta| bin. */
  function SelectedTable(r: CSVReweighter, family: Family, code: SystCode, iPt: int, iEta: int): Histogram
    requires r.Valid() && code in r.Keys(family)
    requires BinsInRange(iPt, iEta)
  {
    match family
    case Bottom => r.weightsBottom[code][iPt]
    case Charm => r.weightsCharm[code][iPt]
    case Light => r.weightsLight[code][if iPt > 3 then 3 else iPt][iEta]
  }

  /** A negative discriminator ("not available") reads the fixed bin 1; otherwise the bin containing it. */
  function DiscriminatorBin(h: Histogram, csv: real): (bin: nat)
    ensures bin < |h.contents|
  {
    if csv >= 0.0 then FindFixBin(h, csv) else 1
  }

  /**
   * The per-jet weight: 1.0 outside the accepted bins; otherwise the content of
   * the discriminator's bin in the table selected by family, normalised
   * systematic code (with fall-back to nominal) and kinematic bins.
   */
  function JetWeight(r: CSVReweighter, jet: Jet, systType: SystType, systDirection: SystDirection): real
    requires r.Valid()
  {
    var iPt := PtBin(jet.Pt());
    var iEta := EtaBin(Abs(jet.Eta()));
    if !BinsInRange(iPt, iEta) then 1.0
    else
      var family := FamilyOf(jet.Flavour());
      var code := EffectiveCode(r, family, EncodeSyst(systType, NormalisedDirection(systType, systDirection)));
      var h := SelectedTable(r, family, code, iPt, iEta);
      GetBinContent(h, DiscriminatorBin(h, jet.BTag()))
  }

  /** Below 20 GeV or from |eta| = 2.4 on, the weight is exactly 1.0 whatever the flavour, systematic or discriminator. */
  lemma OutOfAcceptanceIsUnit(r: CSVReweighter, jet: Jet, systType: SystType, systDirection: SystDirection)
    requires r.Valid()
    requires jet.Pt() < 20.0 || Abs(jet.Eta()) >= 2.4
    ensures JetWeight(r, jet, systType, systDirection) == 1.0
  {
    AcceptanceWindow(jet.Pt(), jet.Eta());
  }

  /** (Nominal, Down) gives the same weight as (Nominal, Up). */
  lemma NominalDirectionIgnored(r: CSVReweighter, jet: Jet)
    requires r.Valid()
    ensures JetWeight(r, jet, Nominal, Down) == JetWeight(r, jet, Nominal, Up)
  {
  }

  /** A source the jet's family has no tables for gives the nominal weight of that family. */
  lemma UnsupportedSystematicIsNominal(r: CSVReweighter, jet: Jet, systType: SystType, systDirection: SystDirection)
    requires r.Valid()
    requires systType !in Supported(FamilyOf(jet.Flavour()))
    ensures JetWeight(r, jet, systType, systDirection) == JetWeight(r, jet, Nominal, Up)
  {
    FamilyCodesMatchSupport(FamilyOf(jet.Flavour()), systType, systDirection);
  }

  /** A source the jet's family supports reads that family's own table for the requested (normalised) variation, in the jet's bins. */
  lemma SupportedSystematicReadsOwnTable(r: CSVReweighter, jet: Jet, systType: SystType, systDirection: SystDirection)
    requires r.Valid()
    requires systType in Supported(FamilyOf(jet.Flavour()))
    requires 20.0 <= jet.Pt() && Abs(jet.Eta()) < 2.4
    ensures var family := FamilyOf(jet.Flavour());
            var code := EncodeSyst(systType, NormalisedDirection(systType, systDirection));
            code in r.Keys(family) &&
            BinsInRange(PtBin(jet.Pt()), EtaBin(Abs(jet.Eta()))) &&
            var h := SelectedTable(r, family, code, PtBin(jet.Pt()), EtaBin(Abs(jet.Eta())));
            JetWeight(r, jet, systType, systDirection) == GetBinContent(h, DiscriminatorBin(h, jet.BTag()))
  {
    FamilyCodesMatchSupport(FamilyOf(jet.Flavour()), systType, systDirection);
    AcceptanceWindow(jet.Pt(), jet.Eta());
  }

  /** From 160 GeV on (inside |eta| < 2.4) heavy-flavour jets read pt bin 5 and light jets the clipped pt bin 3. */
  lemma HighPtUsesLastBin(r: CSVReweighter, jet: Jet, systType: SystType, systDirection: SystDirection)
    requires r.Valid()
    requires 160.0 <= jet.Pt() && Abs(jet.Eta()) < 2.4
    ensures var family := FamilyOf(jet.Flavour());
            var code := EffectiveCode(r, family, EncodeSyst(systType, NormalisedDirection(systType, systDirection)));
            var iEta := EtaBin(Abs(jet.Eta()));
            0 <= iEta < NEtaBinsLF &&
            var h := match family
                     case Bottom => r.weightsBottom[code][5]
                     case Charm => r.weightsCharm[code][5]
                     case Light => r.weightsLight[code][3][iEta];
            JetWeight(r, jet, systType, systDirection) == GetBinContent(h, DiscriminatorBin(h, jet.BTag()))
  {
    PtBinLocates(jet.Pt());
    AcceptanceWindow(jet.Pt(), jet.Eta());
  }

  /** A negative discriminator always reads bin 1; a non-negative one reads the bin whose edges bracket it. */
  lemma DiscriminatorBinLocates(h: Histogram, csv: real)
    ensures csv < 0.0 ==> DiscriminatorBin(h, csv) == 1
    ensures 0.0 <= csv ==> Brackets(h.edges, csv, DiscriminatorBin(h, csv))
  {
    CountLEBrackets(h.edges, csv);
  }

  /** The pt or |eta| scan: walks the ascending cuts and stops at the first one above x. */
  method LocateBin(cuts: seq<real>, x: real) returns (bin: int)
    requires Ascending(cuts)
    ensures bin == CountLE(cuts, x) - 1
  {
    bin := -1;
    var i := 0;
    while i < |cuts|
      invariant 0 <= i <= |cuts|
      invariant bin == i - 1
      invariant forall k :: 0 <= k < i ==> cuts[k] <= x
    {
      if x < cuts[i] {
        break;
      }
      bin := bin + 1;
      i := i + 1;
    }
    CountLEUnique(cuts, x, i);
  }

  /** The content of the bin a discriminator value selects in one table. */
  method ReadTable(h: Histogram, csv: real) returns (weight: real)
    ensures weight == GetBinContent(h, DiscriminatorBin(h, csv))
    ensures csv < 0.0 ==> weight == h.contents[1]
    ensures 0.0 <= csv ==> exists k :: Brackets(h.edges, csv, k) && weight == h.contents[k]
  {
    var bin := if csv >= 0.0 then FindFixBin(h, csv) else 1;
    DiscriminatorBinLocates(h, csv);
    weight := GetBinContent(h, bin);
  }

  /** `CalculateJetWeight(jet, systType, systDirection)`. */
  method CalculateJetWeight(r: CSVReweighter, jet: Jet, systType: SystType, systDirection: SystDirection)
    returns (weight: real)
    requires r.Valid()
    ensures weight == JetWeight(r, jet, systType, systDirection)
  {
    CutsAscending();
    var iPt := LocateBin(PtCuts, jet.Pt());
    var iEta := LocateBin(EtaCuts, Abs(jet.Eta()));

    if iPt < 0 || iPt >= NPtBinsHF as int || iEta < 0 || iEta >= NEtaBinsLF as int {
      return 1.0;
    }

    var direction := systDirection;
    if systType == Nominal && systDirection == Down {
      direction := Up;
    }
    var systCode := EncodeSyst(systType, direction);

    var h := LookUpTable(r, jet.Flavour(), systCode, iPt, iEta);
    weight := ReadTable(h, jet.BTag());
  }

  /**
   * The flavour switch of `CalculateJetWeight`: the table of the jet's family
   * for the code (or for (Nominal, Up) when the family has no such tables) in
   * the given bins; light jets clip the pt bin to at most 3.
   */
  method LookUpTable(r: CSVReweighter, flavour: int, systCode: SystCode, iPt: int, iEta: int) returns (h: Histogram)
    requires r.Valid() && BinsInRange(iPt, iEta)
    ensures var family := FamilyOf(flavour);
            h == SelectedTable(r, family, EffectiveCode(r, family, systCode), iPt, iEta)
  {
    var code := systCode;
    var absFlavour := if flavour < 0 then -flavour else flavour;
    if absFlavour == 5 {
      if code !in r.weightsBottom {
        code := EncodeSyst(Nominal, Up);
      }
      h := r.weightsBottom[code][iPt];
    } else if absFlavour == 4 {
      if code !in r.weightsCharm {
        code := EncodeSyst(Nominal, Up);
      }
      h := r.weightsCharm[code][iPt];
    } else {
      var iPtLight := if iPt > 3 then 3 else iPt;
      if code !in r.weightsLight {
        code := EncodeSyst(Nominal, Up);
      }
      h := r.weightsLight[code][iPtLight][iEta];
    }
  }

  /** The one-argument overload `CalculateJetWeight(jet)`: the (Nominal, Up) weight. */
  method CalculateNominalJetWeight(r: CSVReweighter, jet: Jet) returns (weight: real)
    requires r.Valid()
    ensures weight == JetWeight(r, jet, Nominal, Up)
    ensures weight == JetWeight(r, jet, Nominal, Down)
  {
    weight := CalculateJetWeight(r, jet, Nominal, Up);
  }
}
