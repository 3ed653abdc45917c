/** The 2-opt tour improver (`twoOpt`): first-improvement local search that
    reverses tour positions i..k (1 <= i < k < n) and accepts a reversal only
    when it shortens the whole tour by more than a tolerance of 1e-6. */
module TourImprover {
  import opened Options
  import opened Permutations
  import opened Geometry

  /** The acceptance margin, `1e-6` in the source. */
  const Tolerance: real := 0.000001

  /** `s` read backwards (`Array.prototype.reverse`). */
  function Rev(s: seq<nat>): (r: seq<nat>)
    ensures |r| == |s|
    ensures forall p :: 0 <= p < |s| ==> r[p] == s[|s| - 1 - p]
    ensures multiset(r) == multiset(s)
  {
    if |s| == 0 then []
    else
      var r := Rev(s[1..]) + [s[0]];
      assert s == [s[0]] + s[1..];
      r
  }

  /** The 2-opt move: `order` with positions i..k reversed in place
      (`newOrder.splice(i, k - i + 1, ...order.slice(i, k + 1).reverse())`);
      `ReverseSpec` states what it does. */
  function Reverse(order: seq<nat>, i: nat, k: nat): (r: seq<nat>)
    requires i <= k < |order|
    ensures |r| == |order|
  {
    order[..i] + Rev(order[i..k + 1]) + order[k + 1..]
  }

  /** Reversal maps position p inside i..k to position i + k - p, leaves every
      other position alone, and so permutes the entries of `order`. */
  lemma ReverseSpec(order: seq<nat>, i: nat, k: nat)
    requires i <= k < |order|
    ensures forall p :: 0 <= p < |order| ==>
      Reverse(order, i, k)[p] == (if i <= p <= k then order[i + k - p] else order[p])
    ensures multiset(Reverse(order, i, k)) == multiset(order)
  {
    assert order == order[..i] + order[i..k + 1] + order[k + 1..];
  }

  /** Reversal keeps every entry below n. */
  lemma ReverseInRange(order: seq<nat>, i: nat, k: nat, n: nat)
    requires i <= k < |order|
    requires InRange(order, n)
    ensures InRange(Reverse(order, i, k), n)
  {
    ReverseSpec(order, i, k);
  }

  /** Length of the open tour (no return leg) through `pts` in the order
      `order`: the `oldDist` / `newDist` sums over its n - 1 legs. */
  function TourLength(pts: seq<Coord>, dist: Dist, order: seq<nat>): (r: real)
    requires InRange(order, |pts|)
    ensures NonNegative(dist) ==> r >= 0.0
    ensures |order| <= 1 ==> r == 0.0
  {
    RouteLength(dist, Select(pts, order))
  }

  /** Reversing i..k shortens the tour by more than the tolerance
      (`newDist + 1e-6 < oldDist`). */
  predicate Improves(pts: seq<Coord>, dist: Dist, order: seq<nat>, i: nat, k: nat)
    requires InRange(order, |pts|)
    requires 1 <= i < k < |order|
  {
    var next := Reverse(order, i, k);
    ReverseInRange(order, i, k, |pts|);
    TourLength(pts, dist, next) + Tolerance < TourLength(pts, dist, order)
  }

  /** No reversal 1 <= i < k < n improves `order`: 2-opt has converged. */
  ghost predicate LocallyOptimal(pts: seq<Coord>, dist: Dist, order: seq<nat>)
    requires InRange(order, |pts|)
  {
    forall i, k :: 1 <= i < k < |order| ==> !Improves(pts, dist, order, i, k)
  }

  /** Whether reversing positions i..k is accepted; the nested scan below is
      stated for any such test and used with `Improves`. */
  type MoveTest = (nat, nat) -> bool

  /** The test rejects every pair (i, d) with k0 <= d < k1 and i < d < n. */
  ghost predicate RowSettled(test: MoveTest, n: nat, i: nat, k0: nat, k1: nat) {
    forall d :: k0 <= d < k1 && i < d < n ==> !test(i, d)
  }

  /** The test rejects every pair (c, d) with i0 <= c < i1 and c < d < n. */
  ghost predicate RowsSettled(test: MoveTest, n: nat, i0: nat, i1: nat) {
    forall c :: i0 <= c < i1 ==> RowSettled(test, n, c, 0, n)
  }

  /** The inner `for k` loop for a fixed i, resumed at k: the first k' >= k
      whose pair (i, k') the test accepts, or None when it accepts none of k..n-1. */
  function ScanK(test: MoveTest, n: nat, i: nat, k: nat): (r: Option<nat>)
    requires i < k <= n
    ensures r.None? ==> RowSettled(test, n, i, k, n)
    ensures r.Some? ==> k <= r.value < n && test(i, r.value) && RowSettled(test, n, i, k, r.value)
    decreases n - k
  {
    if k == n then None
    else if test(i, k) then Some(k)
    else ScanK(test, n, i, k + 1)
  }

  /** The outer `for i` loop resumed at i (running while i < n - 1): the first
      accepted pair (i', k) with i' >= i in scan order, or None. */
  function ScanI(test: MoveTest, n: nat, i: nat): (r: Option<(nat, nat)>)
    ensures r.None? ==> RowsSettled(test, n, i, n)
    ensures r.Some? ==> && i <= r.value.0 < r.value.1 < n
                        && test(r.value.0, r.value.1)
                        && RowsSettled(test, n, i, r.value.0)
                        && RowSettled(test, n, r.value.0, 0, r.value.1)
    decreases n - i
  {
    if i + 1 >= n then None
    else
      match ScanK(test, n, i, i + 1)
      case Some(k) => Some((i, k))
      case None => ScanI(test, n, i + 1)
  }

  /** The scan started at row 1 rejects everything before the pair it
      returns, and everything when it returns None. */
  lemma ScanFromStart(test: MoveTest, n: nat)
    ensures ScanI(test, n, 1).None? ==> forall i, k :: 1 <= i < k < n ==> !test(i, k)
    ensures ScanI(test, n, 1).Some? ==>
      var (i, k) := ScanI(test, n, 1).value;
      && (forall c, d :: 1 <= c < i && c < d < n ==> !test(c, d))
      && (forall d :: i < d < k ==> !test(i, d))
  {
    var r := ScanI(test, n, 1);
    if r.None? {
      forall i, k | 1 <= i < k < n
        ensures !test(i, k)
      {
        assert RowSettled(test, n, i, 0, n);
      }
    } else {
      forall c, d | 1 <= c < r.value.0 && c < d < n
        ensures !test(c, d)
      {
        assert RowSettled(test, n, c, 0, n);
      }
    }
  }

  /** The acceptance test of one pass over `order`, as a `MoveTest`. */
  function PassTest(pts: seq<Coord>, dist: Dist, order: seq<nat>): MoveTest
    requires InRange(order, |pts|)
  {
    (a: nat, b: nat) => 1 <= a < b < |order| && Improves(pts, dist, order, a, b)
  }

  lemma PassTestIsImproves(pts: seq<Coord>, dist: Dist, order: seq<nat>, a: nat, b: nat)
    requires InRange(order, |pts|)
    requires 1 <= a < b < |order|
    ensures PassTest(pts, dist, order)(a, b) == Improves(pts, dist, order, a, b)
  {
  }

  /** A pass that finds nothing has rejected every reversal. */
  lemma PassNoneIsOptimal(pts: seq<Coord>, dist: Dist, order: seq<nat>)
    requires InRange(order, |pts|)
    ensures ScanI(PassTest(pts, dist, order), |order|, 1).None? ==> LocallyOptimal(pts, dist, order)
  {
    var test := PassTest(pts, dist, order);
    ScanFromStart(test, |order|);
    if ScanI(test, |order|, 1).None? {
      forall i, k | 1 <= i < k < |order|
        ensures !Improves(pts, dist, order, i, k)
      {
        PassTestIsImproves(pts, dist, order, i, k);
      }
    }
  }

  /** A pass that finds a move finds an improving one, and every pair before
      it in scan order was rejected. */
  lemma PassSomeIsFirst(pts: seq<Coord>, dist: Dist, order: seq<nat>)
    requires InRange(order, |pts|)
    ensures var r := ScanI(PassTest(pts, dist, order), |order|, 1);
      r.Some? ==> && 1 <= r.value.0 < r.value.1 < |order|
                  && Improves(pts, dist, order, r.value.0, r.value.1)
                  && (forall c, d :: 1 <= c < r.value.0 && c < d < |order| ==> !Improves(pts, dist, order, c, d))
                  && (forall d :: r.value.0 < d < r.value.1 ==> !Improves(pts, dist, order, r.value.0, d))
  {
    var test := PassTest(pts, dist, order);
    var n := |order|;
    var r := ScanI(test, n, 1);
    ScanFromStart(test, n);
    if r.Some? {
      var (i, k) := r.value;
      PassTestIsImproves(pts, dist, order, i, k);
      forall c, d | 1 <= c < i && c < d < n
        ensures !Improves(pts, dist, order, c, d)
      {
        PassTestIsImproves(pts, dist, order, c, d);
      }
      forall d | i < d < k
        ensures !Improves(pts, dist, order, i, d)
      {
        PassTestIsImproves(pts, dist, order, i, d);
      }
    }
  }

  /** One pass of the `while (improved)` loop from the top: the first
      improving reversal in scan order, or None when the pass finds none. */
  function FirstMove(pts: seq<Coord>, dist: Dist, order: seq<nat>): (r: Option<(nat, nat)>)
    requires InRange(order, |pts|)
    ensures r.None? <==> LocallyOptimal(pts, dist, order)
    ensures r.Some? ==> && 1 <= r.value.0 < r.value.1 < |order|
                        && Improves(pts, dist, order, r.value.0, r.value.1)
                        && (forall c, d :: 1 <= c < r.value.0 && c < d < |order| ==> !Improves(pts, dist, order, c, d))
                        && (forall d :: r.value.0 < d < r.value.1 ==> !Improves(pts, dist, order, r.value.0, d))
  {
    PassNoneIsOptimal(pts, dist, order);
    PassSomeIsFirst(pts, dist, order);
    ScanI(PassTest(pts, dist, order), |order|, 1)
  }

  /** The integer measure 2-opt decreases: the tour length in units of the tolerance. */
  function Measure(pts: seq<Coord>, dist: Dist, order: seq<nat>): int
    requires InRange(order, |pts|)
  {
    (TourLength(pts, dist, order) * 1000000.0).Floor
  }

  /** Every accepted move lowers the measure by at least one, and the measure
      is never negative, so 2-opt accepts finitely many moves. */
  lemma ImprovingMoveLowersMeasure(pts: seq<Coord>, dist: Dist, order: seq<nat>, i: nat, k: nat)
    requires NonNegative(dist)
    requires InRange(order, |pts|)
    requires 1 <= i < k < |order|
    requires Improves(pts, dist, order, i, k)
    ensures InRange(Reverse(order, i, k), |pts|)
    ensures 0 <= Measure(pts, dist, Reverse(order, i, k)) < Measure(pts, dist, order)
  {
    var next := Reverse(order, i, k);
    ReverseInRange(order, i, k, |pts|);
    var x := TourLength(pts, dist, next);
    var y := TourLength(pts, dist, order);
    assert x >= 0.0;
    assert x + Tolerance < y;
    assert (x * 1000000.0).Floor as real <= x * 1000000.0;
    assert (y * 1000000.0).Floor as real > y * 1000000.0 - 1.0;
  }

  /** 2-opt: apply the first improving reversal and start over, until none improves. */
  function TwoOpt(pts: seq<Coord>, dist: Dist, order: seq<nat>): (r: seq<nat>)
    requires NonNegative(dist)
    requires InRange(order, |pts|)
    ensures |r| == |order| && multiset(r) == multiset(order)
    ensures InRange(r, |pts|)
    ensures |order| > 0 ==> r[0] == order[0]
    ensures TourLength(pts, dist, r) <= TourLength(pts, dist, order)
    ensures r == order || TourLength(pts, dist, r) + Tolerance < TourLength(pts, dist, order)
    ensures LocallyOptimal(pts, dist, r)
    decreases Measure(pts, dist, order)
  {
    match FirstMove(pts, dist, order)
    case None => order
    case Some((i, k)) =>
      ImprovingMoveLowersMeasure(pts, dist, order, i, k);
      ReverseSpec(order, i, k);
      TwoOpt(pts, dist, Reverse(order, i, k))
  }

  /** The number of reversals 2-opt accepts before it stops. */
  function AcceptedMoves(pts: seq<Coord>, dist: Dist, order: seq<nat>): (m: nat)
    requires NonNegative(dist)
    requires InRange(order, |pts|)
    ensures m <= Measure(pts, dist, order)
    ensures m == 0 <==> LocallyOptimal(pts, dist, order)
    decreases Measure(pts, dist, order)
  {
    match FirstMove(pts, dist, order)
    case None => 0
    case Some((i, k)) =>
      ImprovingMoveLowersMeasure(pts, dist, order, i, k);
      1 + AcceptedMoves(pts, dist, Reverse(order, i, k))
  }

  /** 2-opt turns a permutation of the point indices into a permutation of them. */
  lemma TwoOptKeepsPermutation(pts: seq<Coord>, dist: Dist, order: seq<nat>)
    requires NonNegative(dist)
    requires IsPermutation(order, |pts|)
    ensures IsPermutation(TwoOpt(pts, dist, order), |pts|)
  {
    MultisetKeepsPermutation(order, TwoOpt(pts, dist, order), |pts|);
  }
}
