/** Coordinates, the distance function the routing engine is parameterised by,
    route length, and selecting points through an index tour. */
module Geometry {
  import opened Permutations

  /** A latitude/longitude pair in degrees. */
  datatype Coord = Coord(lat: real, lng: real)

  /** The distance between two coordinates. The source uses a haversine
      great-circle distance; the model keeps it abstract. */
  type Dist = (Coord, Coord) -> real

  /** What the engine relies on about the distance: it is never negative. */
  ghost predicate NonNegative(dist: Dist) {
    forall a, b :: dist(a, b) >= 0.0
  }

  /** Total length of driving through `route` in order: the sum of the
      distances between consecutive points. */
  function RouteLength(dist: Dist, route: seq<Coord>): (r: real)
    ensures NonNegative(dist) ==> r >= 0.0
    ensures |route| <= 1 ==> r == 0.0
    decreases |route|
  {
    if |route| <= 1 then 0.0 else dist(route[0], route[1]) + RouteLength(dist, route[1..])
  }

  /** The points visited by an index tour (`order.map(i => points[i])`). */
  function Select(pts: seq<Coord>, order: seq<nat>): (r: seq<Coord>)
    requires InRange(order, |pts|)
    ensures |r| == |order|
  {
    seq(|order|, p requires 0 <= p < |order| => pts[order[p]])
  }

  lemma SelectIota(pts: seq<Coord>)
    ensures InRange(Iota(|pts|), |pts|)
    ensures Select(pts, Iota(|pts|)) == pts
  {
  }

  /** Selecting through two tours that hold the same indices (as multisets)
      yields the same points, as multisets. */
  lemma {:induction false} SelectMultiset(pts: seq<Coord>, a: seq<nat>, b: seq<nat>)
    requires InRange(a, |pts|) && InRange(b, |pts|)
    requires multiset(a) == multiset(b)
    ensures multiset(Select(pts, a)) == multiset(Select(pts, b))
    decreases |a|
  {
    if |a| == 0 {
      assert |b| == |multiset(b)| == 0;
    } else {
      var j := MatchHead(a, b);
      var a', b' := a[1..], b[..j] + b[j + 1..];
      SelectRemoveAt(pts, b, j);
      SelectMultiset(pts, a', b');
      SelectHead(pts, a);
      SelectPick(Select(pts, b), j);
    }
  }

  /** Selecting through a non-empty tour: its first point, then the rest. */
  lemma SelectHead(pts: seq<Coord>, a: seq<nat>)
    requires InRange(a, |pts|) && |a| > 0
    ensures InRange(a[1..], |pts|)
    ensures multiset(Select(pts, a)) == multiset{pts[a[0]]} + multiset(Select(pts, a[1..]))
  {
    assert Select(pts, a) == [pts[a[0]]] + Select(pts, a[1..]);
  }

  /** The multiset of a sequence splits into one position and the rest. */
  lemma SelectPick(s: seq<Coord>, j: nat)
    requires j < |s|
    ensures multiset(s) == multiset{s[j]} + multiset(s[..j] + s[j + 1..])
  {
    RemoveAtMultiset(s, j);
  }

  /** Selecting commutes with dropping a position. */
  lemma SelectRemoveAt(pts: seq<Coord>, a: seq<nat>, j: nat)
    requires InRange(a, |pts|) && j < |a|
    ensures InRange(a[..j] + a[j + 1..], |pts|)
    ensures Select(pts, a[..j] + a[j + 1..]) == Select(pts, a)[..j] + Select(pts, a)[j + 1..]
    ensures Select(pts, a)[j] == pts[a[j]]
  {
    var a' := a[..j] + a[j + 1..];
    assert forall q :: 0 <= q < |a'| ==> a'[q] == (if q < j then a[q] else a[q + 1]);
  }
}
