/**
 * The part of a one-dimensional ROOT histogram that the reweighting reads:
 * strictly ascending bin edges and one content per bin, including the underflow
 * bin (index 0) and the overflow bin (index = number of edges).
 *
 * Locating a value among ascending thresholds is the same question whether the
 * thresholds are histogram edges or the reweighter's pt and |eta| cuts: the
 * answer is the number of thresholds that are <= the value. `CountLE` is that
 * number, and `CountLEBrackets` / `CountLEUnique` characterise it once for both.
 */
module Histograms {

  /** Every element is smaller than every later one. */
  predicate Ascending(s: seq<real>) {
    forall i, j :: 0 <= i < j < |s| ==> s[i] < s[j]
  }

  /** Number of elements of `s` that are <= x. */
  function CountLE(s: seq<real>, x: real): (n: nat)
    ensures n <= |s|
  {
    if s == [] then 0 else (if s[0] <= x then 1 else 0) + CountLE(s[1..], x)
  }

  /** `k` thresholds lie at or below x and the rest above it. */
  predicate Brackets(s: seq<real>, x: real, k: int) {
    0 <= k <= |s| && (k == 0 || s[k - 1] <= x) && (k == |s| || x < s[k])
  }

  /** For ascending thresholds, the count locates x: the k-th threshold is <= x and the next one is > x. */
  lemma {:induction false} CountLEBrackets(s: seq<real>, x: real)
    requires Ascending(s)
    ensures Brackets(s, x, CountLE(s, x))
  {
    if s != [] {
      CountLEBrackets(s[1..], x);
      if x < s[0] {
        CountLEAllAbove(s[1..], x);
      }
    }
  }

  /** If every threshold lies above x, none is counted. */
  lemma {:induction false} CountLEAllAbove(s: seq<real>, x: real)
    requires forall i :: 0 <= i < |s| ==> x < s[i]
    ensures CountLE(s, x) == 0
  {
    if s != [] {
      CountLEAllAbove(s[1..], x);
    }
  }

  /** For ascending thresholds at most one position brackets x, so the bracket determines the count. */
  lemma CountLEUnique(s: seq<real>, x: real, k: int)
    requires Ascending(s)
    requires Brackets(s, x, k)
    ensures CountLE(s, x) == k
  {
    CountLEBrackets(s, x);
  }

  /** A histogram's edges and bin contents, underflow and overflow included. */
  datatype Histogram1D = Histogram1D(edges: seq<real>, contents: seq<real>)
  {
    /** At least one bin, ascending edges, one content per bin plus under- and overflow. */
    predicate WellFormed() {
      |edges| >= 2 && Ascending(edges) && |contents| == |edges| + 1
    }
  }

  type Histogram = h: Histogram1D | h.WellFormed()
    witness Histogram1D([0.0, 1.0], [0.0, 0.0, 0.0])

  /** `TH1::FindFixBin`: the index of the bin containing x; 0 is the underflow and |edges| the overflow. */
  function FindFixBin(h: Histogram, x: real): (bin: nat)
    ensures bin < |h.contents|
  {
    CountLE(h.edges, x)
  }

  /** `TH1::GetBinContent` for a bin index in range. */
  function GetBinContent(h: Histogram, bin: nat): real
    requires bin < |h.contents|
  {
    h.contents[bin]
  }

  /** FindFixBin returns the underflow bin below the first edge, the overflow bin from the last edge on, and otherwise the bin whose lower edge is <= x < upper edge. */
  lemma FindFixBinLocates(h: Histogram, x: real)
    ensures FindFixBin(h, x) == 0 <==> x < h.edges[0]
    ensures FindFixBin(h, x) == |h.edges| <==> h.edges[|h.edges| - 1] <= x
    ensures 0 < FindFixBin(h, x) < |h.edges| ==>
              h.edges[FindFixBin(h, x) - 1] <= x < h.edges[FindFixBin(h, x)]
  {
    CountLEBrackets(h.edges, x);
  }
}
