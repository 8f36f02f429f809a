/**
 * Value types for reconstructed physics objects.
 *
 * A Candidate is a four-momentum given by transverse momentum, pseudorapidity,
 * azimuthal angle and mass; the Lorentz-vector arithmetic behind it is not part
 * of this model. Leptons and jets are immutable values; MET is a class because
 * the reader updates one MET object in place for every event.
 */
module PhysicsObjects {

  /** A four-momentum in (pt, eta, phi, mass) coordinates. */
  datatype Candidate = Candidate(pt: real, eta: real, phi: real, m: real)
  {
    function Pt(): real { pt }
    function Eta(): real { eta }
    function Phi(): real { phi }
    function M(): real { m }

    /** The pt-ordering comparison (`operator<`). */
    predicate Less(rhs: Candidate) {
      pt < rhs.pt
    }
  }

  /** The four-momentum of a default-constructed candidate. */
  const ZeroP4: Candidate := Candidate(0.0, 0.0, 0.0, 0.0)

  /** `operator<` is a strict weak order: irreflexive, transitive, and two objects are incomparable exactly when their pt agree. */
  lemma LessIsStrictWeakOrder(a: Candidate, b: Candidate, c: Candidate)
    ensures a.Less(b) <==> a.Pt() < b.Pt()
    ensures !a.Less(a)
    ensures a.Less(b) && b.Less(c) ==> a.Less(c)
    ensures (!a.Less(b) && !b.Less(a)) <==> a.Pt() == b.Pt()
  {
  }

  /** Mass of a lepton species in GeV, chosen by the absolute value of its PDG code. */
  function LeptonMass(flavour: int): (mass: real)
    ensures mass >= 0.0
  {
    var species := if flavour < 0 then -flavour else flavour;
    if species == 11 then 0.511 / 1000.0        // electron
    else if species == 13 then 105.7 / 1000.0   // muon
    else if species == 15 then 1776.8 / 1000.0  // tau
    else 0.0
  }

  /** The mass depends only on |flavour|: the three species and zero for anything else. */
  lemma LeptonMassBySpecies(flavour: int)
    ensures LeptonMass(flavour) == LeptonMass(-flavour)
    ensures flavour == 11 || flavour == -11 ==> LeptonMass(flavour) == 0.000511
    ensures flavour == 13 || flavour == -13 ==> LeptonMass(flavour) == 0.1057
    ensures flavour == 15 || flavour == -15 ==> LeptonMass(flavour) == 1.7768
    ensures flavour !in {11, -11, 13, -13, 15, -15} ==> LeptonMass(flavour) == 0.0
  {
  }

  /** A reconstructed lepton: flavour is a signed PDG code, isolation a relative energy deposit. */
  datatype Lepton = Lepton(p4: Candidate, flavour: int, isolation: real)
  {
    function Pt(): real { p4.pt }
    function Eta(): real { p4.eta }
    function Phi(): real { p4.phi }
    function M(): real { p4.m }
    function Flavour(): int { flavour }
    function Isolation(): real { isolation }
  }

  /** `Lepton(flavour, pt, eta, phi, isolation)`: the mass is deduced from the flavour. */
  function NewLepton(flavour: int, pt: real, eta: real, phi: real, isolation: real): (l: Lepton)
    ensures l.Flavour() == flavour && l.Isolation() == isolation
    ensures l.Pt() == pt && l.Eta() == eta && l.Phi() == phi
    ensures l.M() == LeptonMass(flavour) && l.M() == LeptonMass(-flavour)
  {
    Lepton(Candidate(pt, eta, phi, LeptonMass(flavour)), flavour, isolation)
  }

  /** `Lepton()`: zero four-momentum, flavour and isolation. */
  function DefaultLepton(): (l: Lepton)
    ensures l.p4 == ZeroP4 && l.Flavour() == 0 && l.Isolation() == 0.0
  {
    Lepton(ZeroP4, 0, 0.0)
  }

  /** A reconstructed jet: flavour is a PDG code (0 = unknown), bTag the b-tagging discriminator. */
  datatype Jet = Jet(p4: Candidate, flavour: int, bTag: real)
  {
    function Pt(): real { p4.pt }
    function Eta(): real { p4.eta }
    function Phi(): real { p4.phi }
    function M(): real { p4.m }
    function Flavour(): int { flavour }
    function BTag(): real { bTag }
  }

  /** `Jet(pt, eta, phi, bTag, flavour = 0)`: the mass is zero and the flavour defaults to unknown. */
  function NewJet(pt: real, eta: real, phi: real, bTag: real, flavour: int := 0): (j: Jet)
    ensures j.Flavour() == flavour && j.BTag() == bTag
    ensures j.Pt() == pt && j.Eta() == eta && j.Phi() == phi && j.M() == 0.0
  {
    Jet(Candidate(pt, eta, phi, 0.0), flavour, bTag)
  }

  /** Omitting the flavour gives a jet of unknown (zero) flavour. */
  lemma JetFlavourDefaultsToUnknown(pt: real, eta: real, phi: real, bTag: real)
    ensures NewJet(pt, eta, phi, bTag).Flavour() == 0
    ensures NewJet(pt, eta, phi, bTag) == NewJet(pt, eta, phi, bTag, 0)
  {
  }

  /** `Jet()`: zero four-momentum, flavour and discriminator. */
  function DefaultJet(): (j: Jet)
    ensures j.p4 == ZeroP4 && j.Flavour() == 0 && j.BTag() == 0.0
  {
    Jet(ZeroP4, 0, 0.0)
  }

  /** The four-momentum of missing transverse energy: pseudorapidity and mass are zero. */
  function MetP4(pt: real, phi: real): (c: Candidate)
    ensures c.Pt() == pt && c.Phi() == phi && c.Eta() == 0.0 && c.M() == 0.0
  {
    Candidate(pt, 0.0, phi, 0.0)
  }

  /** Missing transverse energy, updated in place from event to event. */
  class MET {
    var p4: Candidate

    /** `MET()`: a zero four-momentum. */
    constructor ()
      ensures p4 == ZeroP4
    {
      p4 := ZeroP4;
    }

    /** `MET(pt, phi)`: pseudorapidity and mass are always zero. */
    constructor FromPtPhi(pt: real, phi: real)
      ensures p4 == MetP4(pt, phi)
    {
      p4 := MetP4(pt, phi);
    }

    function Pt(): real reads this { p4.pt }
    function Phi(): real reads this { p4.phi }

    /** `Set(pt, phi)` overwrites the previous state with the state `MET(pt, phi)` would have. */
    method Set(pt: real, phi: real)
      modifies this
      ensures p4 == MetP4(pt, phi)
    {
      p4 := MetP4(pt, phi);
    }
  }

  /** The values are in non-increasing order of `key` (for pt: no element is `operator<` a later one reversed). */
  predicate NonIncreasing<T>(s: seq<T>, key: T -> real) {
    forall i, j :: 0 <= i < j < |s| ==> key(s[j]) <= key(s[i])
  }

  /** Inserts `x` into a non-increasing sequence, keeping it non-increasing. */
  function InsertDescending<T>(x: T, s: seq<T>, key: T -> real): (r: seq<T>)
    requires NonIncreasing(s, key)
    ensures NonIncreasing(r, key)
    ensures multiset(r) == multiset(s) + multiset{x}
    ensures |r| == |s| + 1 && (r[0] == x || (s != [] && r[0] == s[0]))
  {
    if s == [] || key(s[0]) <= key(x) then
      [x] + s
    else
      assert s == [s[0]] + s[1..];
      [s[0]] + InsertDescending(x, s[1..], key)
  }

  /**
   * Sorting into decreasing order of `key`. The source sorts the reversed range
   * with `operator<`; any non-increasing permutation satisfies it, and this is one.
   */
  function SortDescending<T>(s: seq<T>, key: T -> real): (r: seq<T>)
    ensures NonIncreasing(r, key)
    ensures multiset(r) == multiset(s)
  {
    if s == [] then []
    else
      assert s == [s[0]] + s[1..];
      InsertDescending(s[0], SortDescending(s[1..], key), key)
  }

  function LeptonPt(l: Lepton): real { l.Pt() }
  function JetPt(j: Jet): real { j.Pt() }
}
