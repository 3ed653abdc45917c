/** The route planner: per person, order the points (`computeShortestRoute`),
    split the ordered points into chunks of at most `MAX_WAYPOINTS`, and turn
    each chunk into a navigation link (the body of `handleFileUpload`). */
module RoutePlanner {
  import opened Options
  import opened Permutations
  import opened Geometry
  import opened TourConstructor
  import opened TourImprover
  import opened RowGrouping
  import opened DirLinks

  /** `MAX_WAYPOINTS`: the most points one link carries. */
  const MaxWaypoints: nat := 10

  /** Nearest neighbour followed by 2-opt; one or two points are returned as given. */
  function ComputeShortestRoute(pts: seq<Coord>, dist: Dist): (r: seq<Coord>)
    requires NonNegative(dist)
    ensures |pts| <= 2 ==> r == pts
    ensures |r| == |pts| && multiset(r) == multiset(pts)
    ensures |pts| >= 1 ==> r[0] == pts[0]
    ensures |pts| >= 3 ==> RouteLength(dist, r) <= TourLength(pts, dist, NearestNeighborOrder(pts, dist))
  {
    if |pts| <= 2 then pts
    else
      var order := NearestNeighborOrder(pts, dist);
      var improved := TwoOpt(pts, dist, order);
      PermutationMultiset(order, |pts|);
      SelectMultiset(pts, improved, Iota(|pts|));
      SelectIota(pts);
      Select(pts, improved)
  }

  /** The shortest-route order is 2-opt optimal: no reversal of positions
      i..k with 1 <= i < k < n shortens it by more than the tolerance. */
  lemma ShortestRouteIsTwoOptOptimal(pts: seq<Coord>, dist: Dist)
    requires NonNegative(dist) && |pts| >= 3
    ensures var order := TwoOpt(pts, dist, NearestNeighborOrder(pts, dist));
      && IsPermutation(order, |pts|)
      && Select(pts, order) == ComputeShortestRoute(pts, dist)
      && LocallyOptimal(pts, dist, order)
  {
    TwoOptKeepsPermutation(pts, dist, NearestNeighborOrder(pts, dist));
  }

  /** All chunks laid end to end. */
  function Flatten<T>(chunks: seq<seq<T>>): seq<T>
    decreases |chunks|
  {
    if |chunks| == 0 then [] else chunks[0] + Flatten(chunks[1..])
  }

  /** `for (i = 0; i < n; i += size) chunks.push(s.slice(i, i + size))`. */
  function Chunks<T>(s: seq<T>, size: nat): (r: seq<seq<T>>)
    requires size >= 1
    ensures Flatten(r) == s
    ensures forall c :: 0 <= c < |r| ==> 1 <= |r[c]| <= size
    ensures forall c :: 0 <= c < |r| - 1 ==> |r[c]| == size
    decreases |s|
  {
    if |s| == 0 then []
    else if |s| <= size then
      FlattenCons(s, []);
      [s]
    else
      var rest := Chunks(s[size..], size);
      FlattenCons(s[..size], rest);
      assert s == s[..size] + s[size..];
      [s[..size]] + rest
  }

  /** There are ceil(|s| / size) chunks. */
  lemma {:induction false} ChunksCount<T>(s: seq<T>, size: nat)
    requires size >= 1
    ensures |Chunks(s, size)| == (|s| + size - 1) / size
    decreases |s|
  {
    if 0 < |s| <= size {
      assert (|s| + size - 1) / size == 1 by {
        DivUnique(|s| + size - 1, size, 1, |s| - 1);
      }
    } else if |s| > size {
      ChunksCount(s[size..], size);
      ChunkCountStep(|s|, size);
    }
  }

  lemma FlattenCons<T>(first: seq<T>, rest: seq<seq<T>>)
    ensures Flatten([first] + rest) == first + Flatten(rest)
  {
    assert ([first] + rest)[1..] == rest;
  }

  /** One more full chunk: n points need one chunk more than n - size points. */
  lemma ChunkCountStep(n: nat, size: nat)
    requires 1 <= size < n
    ensures (n + size - 1) / size == (n - size + size - 1) / size + 1
  {
    DivStep(n - 1, size);
  }

  lemma DivStep(x: nat, size: nat)
    requires size >= 1
    ensures (x + size) / size == x / size + 1
  {
    var q, m := x / size, x % size;
    assert x + size == (q + 1) * size + m;
    DivUnique(x + size, size, q + 1, m);
  }

  lemma DivUnique(n: nat, d: nat, q: nat, m: nat)
    requires d >= 1 && m < d && n == q * d + m
    ensures n / d == q
  {
    var q', m' := n / d, n % d;
    assert (q' - q) * d == m - m';
    MulSign(q' - q, d);
  }

  /** A non-zero multiple of d is at least d away from zero. */
  lemma {:induction false} MulSign(a: int, d: int)
    requires d >= 0
    ensures a >= 1 ==> a * d >= d
    ensures a <= -1 ==> a * d <= -d
    decreases if a < 0 then -a else a
  {
    if a > 1 {
      MulSign(a - 1, d);
      assert a * d == (a - 1) * d + d;
    } else if a < -1 {
      MulSign(a + 1, d);
      assert a * d == (a + 1) * d - d;
    }
  }

  /** 23 points in chunks of 10 give chunks of 10, 10 and 3 points. */
  lemma ChunkSizesExample<T>(s: seq<T>)
    requires |s| == 23
    ensures |Chunks(s, 10)| == 3
    ensures |Chunks(s, 10)[0]| == 10 && |Chunks(s, 10)[1]| == 10 && |Chunks(s, 10)[2]| == 3
  {
    var r := Chunks(s, 10);
    ChunksCount(s, 10);
    assert Flatten(r) == r[0] + Flatten(r[1..]);
    assert Flatten(r[1..]) == r[1] + Flatten(r[2..]);
    assert Flatten(r[2..]) == r[2] + Flatten(r[3..]);
    assert r[3..] == [];
  }

  /** `chunks.map(chunk => ...)`: one link per chunk. */
  function Links(fmt: Format, chunks: seq<seq<Coord>>): (r: seq<string>)
    requires forall c :: 0 <= c < |chunks| ==> |chunks[c]| >= 1
    ensures |r| == |chunks|
    decreases |chunks|
  {
    if |chunks| == 0 then [] else [EncodeLink(fmt, chunks[0])] + Links(fmt, chunks[1..])
  }

  /** The links for one person's points. */
  function PersonLinks(pts: seq<Coord>, dist: Dist, fmt: Format): (r: seq<string>)
    requires NonNegative(dist)
    ensures |r| == (|pts| + MaxWaypoints - 1) / MaxWaypoints
  {
    var route := ComputeShortestRoute(pts, dist);
    ChunksCount(route, MaxWaypoints);
    Links(fmt, Chunks(route, MaxWaypoints))
  }

  /** The stops a link names, origin first. */
  function Stops(url: string): seq<string> {
    match DecodeLink(url)
    case None => []
    case Some(link) => [link.origin] + link.waypoints
  }

  function AllStops(urls: seq<string>): seq<string>
    decreases |urls|
  {
    if |urls| == 0 then [] else Stops(urls[0]) + AllStops(urls[1..])
  }

  /** Decoding the links of a chunk list, in order, names every point of
      every chunk, in order. */
  lemma {:induction false} AllStopsOfLinks(fmt: Format, chunks: seq<seq<Coord>>)
    requires SafeFormat(fmt)
    requires forall c :: 0 <= c < |chunks| ==> |chunks[c]| >= 1
    ensures AllStops(Links(fmt, chunks)) == CoordTexts(fmt, Flatten(chunks))
    decreases |chunks|
  {
    if |chunks| > 0 {
      var first := chunks[0];
      var links := Links(fmt, chunks);
      AllStopsOfLinks(fmt, chunks[1..]);
      StopsOfLink(fmt, first);
      assert links[0] == EncodeLink(fmt, first);
      assert links[1..] == Links(fmt, chunks[1..]);
      CoordTextsAppend(fmt, first, Flatten(chunks[1..]));
    }
  }

  /** A single link decodes to its chunk's points, origin first. */
  lemma StopsOfLink(fmt: Format, chunk: seq<Coord>)
    requires SafeFormat(fmt) && |chunk| >= 1
    ensures Stops(EncodeLink(fmt, chunk)) == CoordTexts(fmt, chunk)
  {
    DecodeEncodeLink(fmt, chunk);
    CoordTextsCons(fmt, chunk);
  }

  /** The texts of a non-empty point list: the first point's, then the rest's. */
  lemma CoordTextsCons(fmt: Format, chunk: seq<Coord>)
    requires |chunk| >= 1
    ensures CoordTexts(fmt, chunk) == [CoordText(fmt, chunk[0])] + CoordTexts(fmt, chunk[1..])
  {
  }

  lemma CoordTextsAppend(fmt: Format, a: seq<Coord>, b: seq<Coord>)
    ensures CoordTexts(fmt, a + b) == CoordTexts(fmt, a) + CoordTexts(fmt, b)
  {
  }

  /** Reading a person's links back in order names every point of the ordered
      route exactly once, in route order: the chunks reconstruct the tour. */
  lemma PersonLinksSpellRoute(pts: seq<Coord>, dist: Dist, fmt: Format)
    requires NonNegative(dist) && SafeFormat(fmt)
    ensures AllStops(PersonLinks(pts, dist, fmt)) == CoordTexts(fmt, ComputeShortestRoute(pts, dist))
  {
    var route := ComputeShortestRoute(pts, dist);
    AllStopsOfLinks(fmt, Chunks(route, MaxWaypoints));
  }

  /** The links of every person (`newLinks`), keyed by person. */
  function PlanRoutes(rows: seq<Row>, dist: Dist, fmt: Format): (r: map<string, seq<string>>)
    requires NonNegative(dist)
    ensures r.Keys == Persons(rows)
    ensures forall p :: p in r ==>
      |r[p]| == (|PersonCoords(rows, p)| + MaxWaypoints - 1) / MaxWaypoints && |r[p]| >= 1
  {
    var grouped := Group(rows);
    PersonsHaveGroups(rows);
    var r := map p | p in grouped && |grouped[p]| > 0 :: PersonLinks(grouped[p], dist, fmt);
    assert r.Keys == grouped.Keys;
    assert forall p :: p in r ==> r[p] == PersonLinks(PersonCoords(rows, p), dist, fmt);
    r
  }

  /** The upload handler as written: it throws, and `setLinks` never runs,
      exactly when the grouping loop throws; otherwise it computes `PlanRoutes`. */
  function PlanRoutesAsWritten(rows: seq<Row>, dist: Dist, fmt: Format): (r: Option<map<string, seq<string>>>)
    requires NonNegative(dist)
    ensures r.None? <==> exists i :: 0 <= i < |rows| && Usable(rows[i]) && rows[i].person in InheritedNames
    ensures r.Some? ==> r.value == PlanRoutes(rows, dist, fmt)
  {
    match GroupAsWritten(rows)
    case None => None
    case Some(grouped) =>
      Some(map p | p in grouped && |grouped[p]| > 0 :: PersonLinks(grouped[p], dist, fmt))
  }

  /** A worker named "constructor" makes the upload as written produce no
      links at all, where the corrected planner gives that worker a link. */
  lemma ConstructorNameAbortsUpload(dist: Dist, fmt: Format)
    requires NonNegative(dist)
    ensures PlanRoutesAsWritten([Row("constructor", Some(41.0), Some(28.6))], dist, fmt).None?
    ensures "constructor" in PlanRoutes([Row("constructor", Some(41.0), Some(28.6))], dist, fmt)
  {
    var rows := [Row("constructor", Some(41.0), Some(28.6))];
    assert Usable(rows[0]) && rows[0].person in InheritedNames;
    assert "constructor" in Persons(rows);
  }

  /** Every person with a usable row has a non-empty group, so the
      `if (!pts.length) return` guard skips nobody. */
  lemma PersonsHaveGroups(rows: seq<Row>)
    ensures forall p :: p in Group(rows) ==> |Group(rows)[p]| >= 1
  {
    forall p | p in Group(rows)
      ensures |Group(rows)[p]| >= 1
    {
      GroupsNonEmpty(rows, p);
    }
  }

  /** Each person's links read back as that person's coordinates, reordered
      by the route planner. */
  lemma PlanRoutesSpellsEachRoute(rows: seq<Row>, dist: Dist, fmt: Format, person: string)
    requires NonNegative(dist) && SafeFormat(fmt)
    requires person in Persons(rows)
    ensures AllStops(PlanRoutes(rows, dist, fmt)[person])
         == CoordTexts(fmt, ComputeShortestRoute(PersonCoords(rows, person), dist))
  {
    GroupsNonEmpty(rows, person);
    PersonLinksSpellRoute(PersonCoords(rows, person), dist, fmt);
  }
}
