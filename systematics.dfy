/**
 * Sources and directions of systematic variations.
 *
 * Both enumerations are C++ `enum class`es with implicit values, so their
 * underlying values are dense and start at zero; `Ordinal` gives that value.
 */
module Systematics {

  /** Statistically independent sources of systematic variation, in declaration order. */
  datatype SystType =
    | Nominal
    | JEC
    | BTagPurityHF
    | BTagPurityLF
    | BTagStatHF1
    | BTagStatHF2
    | BTagStatLF1
    | BTagStatLF2
    | BTagCharmUnc1
    | BTagCharmUnc2
  {
    /** The enumerator's underlying value. */
    function Ordinal(): (n: nat)
      ensures n < 10
    {
      match this
      case Nominal => 0
      case JEC => 1
      case BTagPurityHF => 2
      case BTagPurityLF => 3
      case BTagStatHF1 => 4
      case BTagStatHF2 => 5
      case BTagStatLF1 => 6
      case BTagStatLF2 => 7
      case BTagCharmUnc1 => 8
      case BTagCharmUnc2 => 9
    }
  }

  /** Directions of systematic variations. */
  datatype SystDirection = Up | Down
  {
    /** The enumerator's underlying value. */
    function Ordinal(): (n: nat)
      ensures n < 2
    {
      match this
      case Up => 0
      case Down => 1
    }
  }

  /** The enumerators of SystType in declaration order. */
  const AllSystTypes: seq<SystType> :=
    [Nominal, JEC, BTagPurityHF, BTagPurityLF, BTagStatHF1, BTagStatHF2,
     BTagStatLF1, BTagStatLF2, BTagCharmUnc1, BTagCharmUnc2]

  /** There are exactly ten sources, each enumerator's value is its position, and every source is listed. */
  lemma SystTypeIsDense()
    ensures |AllSystTypes| == 10
    ensures forall i :: 0 <= i < |AllSystTypes| ==> AllSystTypes[i].Ordinal() == i
    ensures forall t: SystType :: t in AllSystTypes
  {
    forall t: SystType ensures t in AllSystTypes {
      assert AllSystTypes[t.Ordinal()] == t;
    }
  }

  /** Distinct sources have distinct values. */
  lemma SystTypeOrdinalInjective(a: SystType, b: SystType)
    ensures a.Ordinal() == b.Ordinal() <==> a == b
  {
  }

  /** Up is 0 and Down is 1, and these are the only directions. */
  lemma SystDirectionValues(d: SystDirection)
    ensures d.Ordinal() == 0 <==> d == Up
    ensures d.Ordinal() == 1 <==> d == Down
  {
  }
}
