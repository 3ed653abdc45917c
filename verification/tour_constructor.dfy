/** The nearest-neighbour tour constructor (`nearestNeighborOrder`): start at
    point 0 and repeatedly move to the closest point not yet visited, the
    lowest index winning a tie. A point counts as visited exactly when its
    index is already in the tour, which is what the source's `visited` array
    records. */
module TourConstructor {
  import opened Options
  import opened Permutations
  import opened Geometry

  /** The best unvisited candidate found so far by the inner scan:
      `nearest` and `minDist` of the source. */
  datatype Candidate = Candidate(index: nat, d: real)

  /** `c` is an unvisited index below `upto` whose point is nearest to `from`,
      and strictly nearer than every unvisited index below `c`. */
  ghost predicate IsNearest(pts: seq<Coord>, dist: Dist, visited: seq<nat>, from: Coord, c: nat, upto: nat)
    requires upto <= |pts|
  {
    && c < upto
    && c !in visited
    && (forall u :: 0 <= u < upto && u !in visited ==> dist(from, pts[c]) <= dist(from, pts[u]))
    && (forall u :: 0 <= u < c && u !in visited ==> dist(from, pts[c]) < dist(from, pts[u]))
  }

  /** The scan's state after looking at indices below `upto`. */
  ghost predicate BestSoFar(pts: seq<Coord>, dist: Dist, visited: seq<nat>, from: Coord, upto: nat, best: Option<Candidate>)
    requires upto <= |pts|
  {
    match best
    case None => forall u :: 0 <= u < upto ==> u in visited
    case Some(c) => IsNearest(pts, dist, visited, from, c.index, upto) && c.d == dist(from, pts[c.index])
  }

  /** The inner `for j` loop: examine indices `j..|pts|-1`, replacing the best
      candidate only on a strictly smaller distance. */
  function ScanNearest(pts: seq<Coord>, dist: Dist, visited: seq<nat>, from: Coord, j: nat, best: Option<Candidate>): (r: Option<Candidate>)
    requires j <= |pts|
    requires BestSoFar(pts, dist, visited, from, j, best)
    ensures BestSoFar(pts, dist, visited, from, |pts|, r)
    decreases |pts| - j
  {
    if j == |pts| then best
    else if j !in visited then
      var d := dist(from, pts[j]);
      if best.None? || d < best.value.d then
        ScanNearest(pts, dist, visited, from, j + 1, Some(Candidate(j, d)))
      else
        ScanNearest(pts, dist, visited, from, j + 1, best)
    else
      ScanNearest(pts, dist, visited, from, j + 1, best)
  }

  /** The unvisited index nearest to `from` (lowest index on a tie), or None
      when every index is visited (the source's `nearest = -1`). */
  function Nearest(pts: seq<Coord>, dist: Dist, visited: seq<nat>, from: Coord): (r: Option<nat>)
    ensures r.None? <==> forall u :: 0 <= u < |pts| ==> u in visited
    ensures r.Some? ==> IsNearest(pts, dist, visited, from, r.value, |pts|)
  {
    match ScanNearest(pts, dist, visited, from, 0, None)
    case None => None
    case Some(c) => Some(c.index)
  }

  /** Position p of `tour` holds the nearest unvisited index to the point at
      position p-1, the visited ones being those at positions before p. */
  ghost predicate GreedyStep(pts: seq<Coord>, dist: Dist, tour: seq<nat>, p: nat)
    requires InRange(tour, |pts|)
    requires 1 <= p < |tour|
  {
    IsNearest(pts, dist, tour[..p], pts[tour[p - 1]], tour[p], |pts|)
  }

  /** The outer `for i` loop: append `steps` more nearest unvisited indices. */
  function Extend(pts: seq<Coord>, dist: Dist, order: seq<nat>, steps: nat): (r: seq<nat>)
    requires |order| >= 1 && InRange(order, |pts|) && Distinct(order)
    requires |order| + steps <= |pts|
    ensures |r| == |order| + steps
    ensures r[..|order|] == order
    ensures InRange(r, |pts|) && Distinct(r)
    ensures forall p :: |order| <= p < |r| ==> GreedyStep(pts, dist, r, p)
    decreases steps
  {
    if steps == 0 then order
    else
      Pigeonhole(order, |pts|);
      var last := order[|order| - 1];
      match Nearest(pts, dist, order, pts[last])
      case None =>
        assert false;
        order
      case Some(j) =>
        var next := order + [j];
        assert next[..|order|] == order;
        var r := Extend(pts, dist, next, steps - 1);
        assert r[..|order|] == r[..|next|][..|order|];
        assert r[..|order| + 1] == next;
        r
  }

  /** The nearest-neighbour visiting order of `pts`, always starting at index 0.
      With no points the source still returns `[0]`; its caller never asks. */
  function NearestNeighborOrder(pts: seq<Coord>, dist: Dist): (r: seq<nat>)
    ensures |pts| == 0 ==> r == [0]
    ensures |pts| >= 1 ==> IsPermutation(r, |pts|) && r[0] == 0
    ensures |pts| >= 1 ==> forall p :: 1 <= p < |r| ==> GreedyStep(pts, dist, r, p)
  {
    if |pts| == 0 then [0] else Extend(pts, dist, [0], |pts| - 1)
  }

  /** The nearest unvisited index is unique: the tie-break leaves no choice. */
  lemma NearestUnique(pts: seq<Coord>, dist: Dist, visited: seq<nat>, from: Coord, c1: nat, c2: nat)
    requires IsNearest(pts, dist, visited, from, c1, |pts|)
    requires IsNearest(pts, dist, visited, from, c2, |pts|)
    ensures c1 == c2
  {
  }

  /** Any two tours that start at the same index and take a greedy step at
      every position are the same tour. */
  lemma {:induction false} GreedyTourUnique(pts: seq<Coord>, dist: Dist, s: seq<nat>, t: seq<nat>, n: nat)
    requires InRange(s, |pts|) && InRange(t, |pts|)
    requires 1 <= n <= |s| && n <= |t|
    requires s[0] == t[0]
    requires forall p :: 1 <= p < n ==> GreedyStep(pts, dist, s, p)
    requires forall p :: 1 <= p < n ==> GreedyStep(pts, dist, t, p)
    ensures s[..n] == t[..n]
  {
    if n > 1 {
      GreedyTourUnique(pts, dist, s, t, n - 1);
      var p := n - 1;
      assert s[..p] == t[..p];
      assert s[p - 1] == t[p - 1] by {
        assert s[p - 1] == s[..p][p - 1];
        assert t[p - 1] == t[..p][p - 1];
      }
      assert GreedyStep(pts, dist, s, p) && GreedyStep(pts, dist, t, p);
      NearestUnique(pts, dist, s[..p], pts[s[p - 1]], s[p], t[p]);
      assert s[..n] == s[..p] + [s[p]];
      assert t[..n] == t[..p] + [t[p]];
    }
  }

  /** The nearest-neighbour order is the only greedy tour from index 0: any
      permutation that starts at 0 and steps greedily everywhere equals it. */
  lemma NearestNeighborOrderIsTheGreedyTour(pts: seq<Coord>, dist: Dist, t: seq<nat>)
    requires |pts| >= 1
    requires IsPermutation(t, |pts|) && t[0] == 0
    requires forall p :: 1 <= p < |t| ==> GreedyStep(pts, dist, t, p)
    ensures t == NearestNeighborOrder(pts, dist)
  {
    var s := NearestNeighborOrder(pts, dist);
    GreedyTourUnique(pts, dist, s, t, |pts|);
    assert s == s[..|pts|] && t == t[..|pts|];
  }
}
