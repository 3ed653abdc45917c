/** Google Maps `dir` links for one chunk of a route: the chunk's first point
    is the `origin`, the others follow in order as pipe-separated `waypoints`,
    and the `&waypoints=` part is left out when there are none. A decoder
    reads a link back, so that the encoding can be checked against it. */
module DirLinks {
  import opened Options
  import opened Geometry

  /** How a number is written into the link (JavaScript's number-to-string
      conversion in the template literal). */
  type Format = real -> string

  const DirBase: string := "https://www.google.com/maps/dir/?api=1"
  const OriginKey: string := "&origin="
  const TravelMode: string := "&travelmode=driving"
  const WaypointsKey: string := "&waypoints="

  /** `${c.lat},${c.lng}` */
  function CoordText(fmt: Format, c: Coord): (r: string)
    ensures ',' in r
  {
    fmt(c.lat) + "," + fmt(c.lng)
  }

  function CoordTexts(fmt: Format, cs: seq<Coord>): (r: seq<string>)
    ensures |r| == |cs|
    ensures forall p :: 0 <= p < |cs| ==> r[p] == CoordText(fmt, cs[p])
  {
    seq(|cs|, p requires 0 <= p < |cs| => CoordText(fmt, cs[p]))
  }

  /** `Array.prototype.join(sep)`. */
  function Join(xs: seq<string>, sep: char): string
    decreases |xs|
  {
    if |xs| == 0 then ""
    else if |xs| == 1 then xs[0]
    else xs[0] + [sep] + Join(xs[1..], sep)
  }

  /** The first position of `c` in `s`, if any. */
  function IndexOf(s: string, c: char): (r: Option<nat>)
    ensures r.None? ==> c !in s
    ensures r.Some? ==> r.value < |s| && s[r.value] == c && c !in s[..r.value]
    decreases |s|
  {
    if |s| == 0 then None
    else if s[0] == c then Some(0)
    else
      match IndexOf(s[1..], c)
      case None => None
      case Some(p) =>
        assert s[..p + 1] == [s[0]] + s[1..][..p];
        Some(p + 1)
  }

  /** `String.prototype.split(sep)`: the pieces between occurrences of `sep`. */
  function Split(s: string, sep: char): (r: seq<string>)
    ensures |r| >= 1
    decreases |s|
  {
    match IndexOf(s, sep)
    case None => [s]
    case Some(p) => [s[..p]] + Split(s[p + 1..], sep)
  }

  /** The `waypoints` text: every point after the first, `|`-separated. */
  function WaypointsText(fmt: Format, chunk: seq<Coord>): string
    requires |chunk| >= 1
  {
    Join(CoordTexts(fmt, chunk[1..]), '|')
  }

  /** The source tests the joined text, not the point count: the text is empty
      exactly when the chunk has one point, since every point's text holds a comma. */
  lemma WaypointsEmptyIffSinglePoint(fmt: Format, chunk: seq<Coord>)
    requires |chunk| >= 1
    ensures WaypointsText(fmt, chunk) == "" <==> |chunk| == 1
  {
    var texts := CoordTexts(fmt, chunk[1..]);
    if |chunk| > 1 {
      assert ',' in texts[0];
      if |texts| > 1 {
        assert WaypointsText(fmt, chunk) == texts[0] + ['|'] + Join(texts[1..], '|');
      }
    }
  }

  /** The link for one chunk. It always opens with the origin and the travel
      mode, and the `&waypoints=` parameter follows exactly when the chunk has
      more than one point. */
  function EncodeLink(fmt: Format, chunk: seq<Coord>): (r: string)
    requires |chunk| >= 1
    ensures DirBase + OriginKey + CoordText(fmt, chunk[0]) + TravelMode <= r
    ensures |chunk| == 1 <==> r == DirBase + OriginKey + CoordText(fmt, chunk[0]) + TravelMode
  {
    var origin := chunk[0];
    var waypoints := WaypointsText(fmt, chunk);
    WaypointsEmptyIffSinglePoint(fmt, chunk);
    DirBase + OriginKey + CoordText(fmt, origin) + TravelMode
      + (if waypoints != "" then WaypointsKey + waypoints else "")
  }

  /** What a link says: the origin text and the waypoint texts, in order. */
  datatype Link = Link(origin: string, waypoints: seq<string>)

  /** Read a link back. The origin runs up to the next `&`. */
  function DecodeLink(url: string): Option<Link> {
    var head := DirBase + OriginKey;
    if !(head <= url) then None
    else
      var rest := url[|head|..];
      match IndexOf(rest, '&')
      case None => None
      case Some(p) =>
        var tail := rest[p..];
        if !(TravelMode <= tail) then None
        else
          var extra := tail[|TravelMode|..];
          if extra == "" then Some(Link(rest[..p], []))
          else if WaypointsKey <= extra then Some(Link(rest[..p], Split(extra[|WaypointsKey|..], '|')))
          else None
  }

  /** Numbers are written without `&` or `|` (true of JavaScript's number
      formatting), so neither separator can occur inside a coordinate. */
  ghost predicate SafeFormat(fmt: Format) {
    forall x :: '&' !in fmt(x) && '|' !in fmt(x)
  }

  /** Splitting a join gives back the pieces when none contains the separator. */
  lemma {:induction false} SplitJoin(xs: seq<string>, sep: char)
    requires |xs| >= 1
    requires forall p :: 0 <= p < |xs| ==> sep !in xs[p]
    ensures Split(Join(xs, sep), sep) == xs
    decreases |xs|
  {
    if |xs| > 1 {
      var x, more := xs[0], Join(xs[1..], sep);
      SplitJoin(xs[1..], sep);
      SplitFirst(x, more, sep);
      assert xs == [x] + xs[1..];
    }
  }

  /** Splitting `x + sep + more` when `x` has no separator: `x`, then the pieces of `more`. */
  lemma SplitFirst(x: string, more: string, sep: char)
    requires sep !in x
    ensures Split(x + [sep] + more, sep) == [x] + Split(more, sep)
  {
    var t := [sep] + more;
    assert x + [sep] + more == x + t;
    IndexOfAfter(x, t, sep);
    SplitAt(x, t);
    assert (x + t)[|x| + 1..] == more by {
      assert (x + t)[|x| + 1..] == (x + t)[|x|..][1..];
    }
  }

  /** A concatenation splits back into its two parts. */
  lemma SplitAt(a: string, b: string)
    ensures a <= a + b
    ensures (a + b)[..|a|] == a && (a + b)[|a|..] == b
  {
  }

  /** The first `c` of `a + b` is at `|a|` when `a` has none and `b` starts with one. */
  lemma {:induction false} IndexOfAfter(a: string, b: string, c: char)
    requires c !in a && |b| > 0 && b[0] == c
    ensures IndexOf(a + b, c) == Some(|a|)
    decreases |a|
  {
    if |a| == 0 {
      assert a + b == b;
    } else {
      assert (a + b)[0] == a[0];
      assert (a + b)[1..] == a[1..] + b;
      IndexOfAfter(a[1..], b, c);
    }
  }

  /** A coordinate's text holds neither separator. */
  lemma CoordTextSafe(fmt: Format, c: Coord)
    requires SafeFormat(fmt)
    ensures '&' !in CoordText(fmt, c) && '|' !in CoordText(fmt, c)
  {
    assert CoordText(fmt, c) == fmt(c.lat) + "," + fmt(c.lng);
  }

  /** Decoding a link built from an `&`-free origin and a trailing part. */
  lemma DecodeShape(origin: string, extra: string)
    requires '&' !in origin
    ensures DecodeLink(DirBase + OriginKey + origin + TravelMode + extra) ==
      if extra == "" then Some(Link(origin, []))
      else if WaypointsKey <= extra then Some(Link(origin, Split(extra[|WaypointsKey|..], '|')))
      else None
  {
    var head := DirBase + OriginKey;
    var rest := origin + (TravelMode + extra);
    assert DirBase + OriginKey + origin + TravelMode + extra == head + rest;
    SplitAt(head, rest);
    IndexOfAfter(origin, TravelMode + extra, '&');
    SplitAt(origin, TravelMode + extra);
    SplitAt(TravelMode, extra);
  }

  /** Round trip: the decoded link names the chunk's first point as origin and
      the remaining points, in order, as waypoints. */
  lemma DecodeEncodeLink(fmt: Format, chunk: seq<Coord>)
    requires SafeFormat(fmt)
    requires |chunk| >= 1
    ensures DecodeLink(EncodeLink(fmt, chunk)) ==
      Some(Link(CoordText(fmt, chunk[0]), CoordTexts(fmt, chunk[1..])))
  {
    var origin := CoordText(fmt, chunk[0]);
    var waypoints := WaypointsText(fmt, chunk);
    var extra := if waypoints != "" then WaypointsKey + waypoints else "";
    assert EncodeLink(fmt, chunk) == DirBase + OriginKey + origin + TravelMode + extra;
    CoordTextSafe(fmt, chunk[0]);
    DecodeShape(origin, extra);
    WaypointsEmptyIffSinglePoint(fmt, chunk);
    var texts := CoordTexts(fmt, chunk[1..]);
    if |chunk| > 1 {
      assert extra[|WaypointsKey|..] == waypoints;
      forall p | 0 <= p < |texts|
        ensures '|' !in texts[p]
      {
        CoordTextSafe(fmt, chunk[1..][p]);
      }
      SplitJoin(texts, '|');
    } else {
      assert texts == [];
    }
  }
}
