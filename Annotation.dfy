/**
 * The coordinate handling of `parse_annotation`: every annotated (X, Y),
 * given at level 0, is brought to the working level by truncating division
 * by the magnification factor, then made section-local by subtracting the
 * section offset, a negative result being replaced by the sentinel -1
 * ("outside this section").  Each coordinate group gives one global and one
 * local point list; a group of more than two points also gives a polygon.
 */
module Annotation {
  import opened SectionGrid

  /** Python's int() on a float: rounds toward zero. */
  function Trunc(r: real): (n: int)
    ensures 0.0 <= r ==> n as real <= r < n as real + 1.0
    ensures r < 0.0 ==> n as real - 1.0 < r <= n as real
  {
    if r >= 0.0 then r.Floor else -((-r).Floor)
  }

  /** Trunc is determined by its bounds. */
  lemma TruncUnique(r: real, n: int)
    requires (0.0 <= r && n as real <= r < n as real + 1.0) || (r < 0.0 && n as real - 1.0 < r <= n as real)
    ensures Trunc(r) == n
  {
  }

  /** Integer division rounding toward zero. */
  function TruncDiv(a: int, m: nat): int
    requires m > 0
  {
    if a >= 0 then a / m else -((-a) / m)
  }

  /**
   * The working-level coordinate of a level-0 attribute value X:
   * `x = int(float(X)); x /= mag_factor; x = int(x)`.
   */
  function ToLevel(X: real, mag: nat): int
    requires mag > 0
  {
    Trunc(Trunc(X) as real / mag as real)
  }

  /** The real quotient of a and m lies between a / m and a / m + 1. */
  lemma RealDivBounds(a: nat, m: nat)
    requires m > 0
    ensures (a / m) as real <= a as real / m as real < (a / m) as real + 1.0
  {
    var q, r := a / m, a % m;
    assert a == q * m + r;
    CastMul(q, m);
    QuotientSplit(a as real, q as real, r as real, m as real);
  }

  lemma CastMul(a: int, b: int)
    ensures (a * b) as real == a as real * b as real
  {
  }

  /** If a = q * m + r with 0 <= r < m, the real quotient a / m lies in [q, q + 1). */
  lemma QuotientSplit(a: real, q: real, r: real, m: real)
    requires m > 0.0 && 0.0 <= r < m && a == q * m + r
    ensures q <= a / m < q + 1.0
  {
    var x := a / m;
    assert x * m == a;
    assert (x - q) * m == r;
    SignOfFactor(x - q, m);
    assert (x - q - 1.0) * m == r - m;
    SignOfFactor(x - q - 1.0, m);
  }

  /** A factor multiplied by a positive number keeps its sign. */
  lemma SignOfFactor(u: real, m: real)
    requires m > 0.0
    ensures u * m >= 0.0 ==> u >= 0.0
    ensures u * m < 0.0 ==> u < 0.0
  {
  }

  /**
   * The float division and truncation amount to integer division toward zero
   * of the truncated attribute: for negative values too, not Dafny's
   * Euclidean division.
   */
  lemma ToLevelIsTruncDiv(X: real, mag: nat)
    requires mag > 0
    ensures ToLevel(X, mag) == TruncDiv(Trunc(X), mag)
  {
    QuotientTrunc(Trunc(X), mag);
  }

  /** Truncating the real quotient of two integers is integer division toward zero. */
  lemma QuotientTrunc(a: int, m: nat)
    requires m > 0
    ensures Trunc(a as real / m as real) == TruncDiv(a, m)
  {
    if a >= 0 {
      NonNegQuotientTrunc(a, m);
    } else {
      NonNegQuotientTrunc(-a, m);
      var x := a as real / m as real;
      assert x == -((-a) as real / m as real);
      if (-a) / m == 0 {
        TruncUnique(x, 0);
      } else {
        assert x < 0.0;
        assert Trunc(x) == -Trunc(-x);
      }
    }
  }

  lemma NonNegQuotientTrunc(a: nat, m: nat)
    requires m > 0
    ensures Trunc(a as real / m as real) == a / m
  {
    RealDivBounds(a, m);
    TruncUnique(a as real / m as real, a / m);
  }

  /**
   * Scaling a working-level coordinate up to level 0 (as `read_wsi` does
   * with the section offset) and converting back gives the coordinate again.
   */
  lemma ToLevelOfScaled(v: int, mag: nat)
    requires mag > 0
    ensures ToLevel((v * mag) as real, mag) == v
  {
    TruncUnique((v * mag) as real, v * mag);
    ToLevelIsTruncDiv((v * mag) as real, mag);
    if v >= 0 {
      DivUnique(v * mag, mag, v, 0);
    } else {
      assert -(v * mag) == (-v) * mag;
      DivUnique((-v) * mag, mag, -v, 0);
    }
  }

  /**
   * For a non-negative attribute, the working-level pixel found is the one
   * whose level-0 footprint [v * mag, (v + 1) * mag) contains the attribute.
   */
  lemma ToLevelContains(X: real, mag: nat)
    requires mag > 0 && X >= 0.0
    ensures ToLevel(X, mag) >= 0
    ensures (ToLevel(X, mag) * mag) as real <= X < ((ToLevel(X, mag) + 1) * mag) as real
  {
    var a := Trunc(X);
    ToLevelIsTruncDiv(X, mag);
    var v := a / mag;
    assert v * mag <= a < v * mag + mag;
    assert (v + 1) * mag == v * mag + mag;
  }

  /**
   * The local frame of the annotations agrees with the region `read_wsi`
   * loads: an attribute inside the level-0 extent of a section that starts
   * at working-level offset d and is w pixels wide gets a local coordinate
   * in [0, w), never the sentinel.
   */
  lemma LocalInsideRead(X: real, d: nat, w: nat, mag: nat)
    requires mag > 0
    requires (d * mag) as real <= X < ((d + w) * mag) as real
    ensures 0 <= LocalCoord(ToLevel(X, mag), d) < w
  {
    ToLevelContains(X, mag);
    var v := ToLevel(X, mag);
    assert d * mag < (v + 1) * mag;
    LessByScale(d, v + 1, mag);
    assert v * mag < (d + w) * mag;
    LessByScale(v, d + w, mag);
  }

  /**
   * The section-local coordinate: `local = v - d`, or the sentinel -1 when
   * that is negative.  It is never below -1; it is non-negative exactly when
   * v lies at or after the section's start, and then adding the offset back
   * gives the global coordinate.
   */
  function LocalCoord(v: int, d: int): (l: int)
    ensures l >= -1
    ensures l >= 0 <==> v >= d
    ensures l >= 0 ==> l + d == v
  {
    if v - d < 0 then -1 else v - d
  }

  /** With the script's mag_factor = pow(2, level), the round trip of read_wsi's scaling holds at every level. */
  lemma ScaledAtLevel(v: int, level: nat)
    ensures ToLevel((v * Pow2(level)) as real, Pow2(level)) == v
  {
    ToLevelOfScaled(v, Pow2(level));
  }

  /** A local coordinate that is not the sentinel converts back to the same local coordinate. */
  lemma {:induction false} LocalRoundTrip(l: nat, d: int)
    ensures LocalCoord(l + d, d) == l
  {
  }

  type Point = (int, int)

  /** A working-level point from a level-0 (X, Y) attribute pair. */
  function LevelPoint(p: (real, real), mag: nat): Point
    requires mag > 0
  {
    (ToLevel(p.0, mag), ToLevel(p.1, mag))
  }

  /** The section-local point for a working-level point and a section offset. */
  function LocalPoint(q: Point, delta: (nat, nat)): Point
  {
    (LocalCoord(q.0, delta.0), LocalCoord(q.1, delta.1))
  }

  /** The example of a point at (800, 800) at level 0, magnification 2, in the section at offset (500, 0). */
  lemma ExamplePoint()
    ensures LevelPoint((800.0, 800.0), 2) == (400, 400)
    ensures LocalPoint((400, 400), (500, 0)) == (-1, 400)
  {
    TruncUnique(800.0, 800);
    TruncUnique(800.0 / 2.0, 400);
  }

  /** The groups that become polygons: those of more than two points, in order. */
  function Polygons(groups: seq<seq<Point>>): seq<seq<Point>>
    decreases |groups|
  {
    if groups == [] then []
    else
      var last := groups[|groups| - 1];
      Polygons(groups[..|groups| - 1]) + if |last| > 2 then [last] else []
  }

  /**
   * Exactly the groups of more than two points become polygons, one per
   * such group, in group order; so there are never more polygons than groups.
   */
  lemma {:induction false} PolygonsSpec(groups: seq<seq<Point>>)
    ensures |Polygons(groups)| <= |groups|
    ensures forall g :: g in Polygons(groups) <==> g in groups && |g| > 2
    ensures forall k :: 0 <= k < |Polygons(groups)| ==> |Polygons(groups)[k]| > 2
    decreases |groups|
  {
    if groups != [] {
      var init, last := groups[..|groups| - 1], groups[|groups| - 1];
      PolygonsSpec(init);
      assert groups == init + [last];
    }
  }

  /** The number of groups of more than two points. */
  function PolygonCount(groups: seq<seq<Point>>): nat
    decreases |groups|
  {
    if groups == [] then 0
    else PolygonCount(groups[..|groups| - 1]) + if |groups[|groups| - 1]| > 2 then 1 else 0
  }

  /**
   * One polygon per group of more than two points, in group order: the
   * group at index k is the polygon numbered by the qualifying groups
   * before it.
   */
  lemma {:induction false} PolygonsOrder(groups: seq<seq<Point>>)
    ensures |Polygons(groups)| == PolygonCount(groups)
    ensures forall k :: 0 <= k < |groups| && |groups[k]| > 2 ==>
      PolygonCount(groups[..k]) < |Polygons(groups)| &&
      Polygons(groups)[PolygonCount(groups[..k])] == groups[k]
    decreases |groups|
  {
    if groups != [] {
      var init, last := groups[..|groups| - 1], groups[|groups| - 1];
      PolygonsOrder(init);
      var ps := Polygons(groups);
      assert ps == Polygons(init) + if |last| > 2 then [last] else [];
      forall k | 0 <= k < |groups| && |groups[k]| > 2
        ensures PolygonCount(groups[..k]) < |ps| && ps[PolygonCount(groups[..k])] == groups[k]
      {
        if k < |init| {
          assert groups[..k] == init[..k];
          assert groups[k] == init[k];
        } else {
          assert groups[..k] == init;
        }
      }
    }
  }

  /**
   * `parse_annotation` after the XML has been read: `groups` holds the
   * (X, Y) attributes of each Coordinates element, in document order.
   * One global list and one local list per group, index-aligned with the
   * groups and with their points; the polygons are the global lists of more
   * than two points.  The level dimensions (W, H) and the section id give
   * the offset; mag is the magnification factor.
   */
  method ParseAnnotation(groups: seq<seq<(real, real)>>, W: nat, H: nat, sect: string, mag: nat)
    returns (polygons: seq<seq<Point>>, anno: seq<seq<Point>>, annoLocal: seq<seq<Point>>)
    requires SectionId(sect).Some?
    requires mag > 0
    ensures |anno| == |groups| && |annoLocal| == |groups|
    ensures forall i :: 0 <= i < |groups| ==> |anno[i]| == |groups[i]| && |annoLocal[i]| == |groups[i]|
    ensures forall i, j :: 0 <= i < |groups| && 0 <= j < |groups[i]| ==>
      var delta := SectionOffset(W, H, SectionId(sect).value.0, SectionId(sect).value.1);
      anno[i][j] == LevelPoint(groups[i][j], mag) &&
      annoLocal[i][j] == LocalPoint(anno[i][j], delta)
    ensures polygons == Polygons(anno)
  {
    var (col, row) := SectionId(sect).value;
    var (dx, dy) := SectionOffset(W, H, col, row);
    polygons, anno, annoLocal := [], [], [];
    var i := 0;
    while i < |groups|
      invariant 0 <= i <= |groups|
      invariant |anno| == i && |annoLocal| == i
      invariant forall g :: 0 <= g < i ==> |anno[g]| == |groups[g]| && |annoLocal[g]| == |groups[g]|
      invariant forall g, j :: 0 <= g < i && 0 <= j < |groups[g]| ==>
        anno[g][j] == LevelPoint(groups[g][j], mag) && annoLocal[g][j] == LocalPoint(anno[g][j], (dx, dy))
      invariant polygons == Polygons(anno)
    {
      var crds := groups[i];
      var nodes: seq<Point> := [];
      var nodesLocal: seq<Point> := [];
      var j := 0;
      while j < |crds|
        invariant 0 <= j <= |crds|
        invariant |nodes| == j && |nodesLocal| == j
        invariant forall k :: 0 <= k < j ==>
          nodes[k] == LevelPoint(crds[k], mag) && nodesLocal[k] == LocalPoint(nodes[k], (dx, dy))
      {
        var (rawX, rawY) := crds[j];
        var x := Trunc(rawX);
        var y := Trunc(rawY);
        var xScaled := x as real / mag as real;
        var yScaled := y as real / mag as real;
        x := Trunc(xScaled);
        y := Trunc(yScaled);
        nodes := nodes + [(x, y)];
        var localX := x - dx;
        if localX < 0 {
          localX := -1;
        }
        var localY := y - dy;
        if localY < 0 {
          localY := -1;
        }
        nodesLocal := nodesLocal + [(localX, localY)];
        j := j + 1;
      }
      anno := anno + [nodes];
      annoLocal := annoLocal + [nodesLocal];
      assert anno[..i] == anno[..|anno| - 1];
      if |nodes| > 2 {
        polygons := polygons + [nodes];
      }
      i := i + 1;
    }
  }
}
