/**
 * Which tissue regions of a section get sampled:
 * `sorted(contours, key=cv2.contourArea, reverse=True)[:5]`.
 * A contour is represented by its area (cv2.contourArea, a float) and its
 * bounding box (cv2.boundingRect); both are given, the contour geometry is not.
 */
module RegionRanking {

  /** A bounding box (x, y, w, h) in section-local pixels; OpenCV never returns negative values. */
  datatype Box = Box(x: nat, y: nat, w: nat, h: nat)

  datatype Region = Region(area: real, box: Box)

  /** Only the five largest regions are sampled. */
  const MAX_REGIONS: nat := 5

  /** Areas do not increase from left to right. */
  ghost predicate ByAreaDesc(s: seq<Region>)
  {
    forall i, j :: 0 <= i < j < |s| ==> s[i].area >= s[j].area
  }

  /**
   * Inserts r before the first element whose area is at most r's, so that r
   * stays ahead of equal-area elements that came after it in the input
   * (Python's sort with reverse=True is stable).
   */
  function InsertByArea(r: Region, s: seq<Region>): (t: seq<Region>)
    ensures |t| == |s| + 1
    ensures multiset(t) == multiset(s) + multiset{r}
  {
    if s == [] then [r]
    else if s[0].area <= r.area then [r] + s
    else
      assert s == [s[0]] + s[1..];
      [s[0]] + InsertByArea(r, s[1..])
  }

  /** Prepending a region at least as large as all others keeps the order. */
  lemma ConsKeepsOrder(h: Region, t: seq<Region>)
    requires ByAreaDesc(t)
    requires forall e :: e in t ==> e.area <= h.area
    ensures ByAreaDesc([h] + t)
  {
    var s := [h] + t;
    forall i, j | 0 <= i < j < |s| ensures s[i].area >= s[j].area {
      assert s[j] == t[j - 1];
      if i > 0 {
        assert s[i] == t[i - 1];
      } else {
        assert t[j - 1] in t;
      }
    }
  }

  lemma TailOrdered(s: seq<Region>)
    requires ByAreaDesc(s) && s != []
    ensures ByAreaDesc(s[1..])
    ensures forall e :: e in s[1..] ==> e.area <= s[0].area
  {
    forall e | e in s[1..] ensures e.area <= s[0].area {
      var k :| 0 <= k < |s[1..]| && s[1..][k] == e;
      assert s[k + 1] == e;
    }
  }

  /** Inserting into a sequence sorted by descending area keeps it sorted. */
  lemma {:induction false} InsertKeepsOrder(r: Region, s: seq<Region>)
    requires ByAreaDesc(s)
    ensures ByAreaDesc(InsertByArea(r, s))
  {
    if s == [] {
    } else if s[0].area <= r.area {
      TailOrdered(s);
      assert s == [s[0]] + s[1..];
      forall e | e in s ensures e.area <= r.area {
        if e != s[0] {
          assert e in s[1..];
        }
      }
      ConsKeepsOrder(r, s);
    } else {
      var tail := InsertByArea(r, s[1..]);
      TailOrdered(s);
      InsertKeepsOrder(r, s[1..]);
      forall e | e in tail ensures e.area <= s[0].area {
        assert e in multiset(tail);
        assert e == r || e in multiset(s[1..]);
      }
      ConsKeepsOrder(s[0], tail);
    }
  }

  /** The stable descending sort of the regions by area. */
  function SortByArea(s: seq<Region>): (t: seq<Region>)
    ensures |t| == |s|
    ensures multiset(t) == multiset(s)
  {
    if s == [] then []
    else
      assert s == [s[0]] + s[1..];
      InsertByArea(s[0], SortByArea(s[1..]))
  }

  /** The sort orders by non-increasing area. */
  lemma {:induction false} SortOrders(s: seq<Region>)
    ensures ByAreaDesc(SortByArea(s))
  {
    if s != [] {
      SortOrders(s[1..]);
      InsertKeepsOrder(s[0], SortByArea(s[1..]));
    }
  }

  /** The regions of area a, in their order in s. */
  function WithArea(s: seq<Region>, a: real): seq<Region>
  {
    if s == [] then [] else (if s[0].area == a then [s[0]] else []) + WithArea(s[1..], a)
  }

  /**
   * Insertion puts r ahead of every region of its own area and leaves the
   * order among the regions of any other area alone.
   */
  lemma {:induction false} InsertKeepsTies(r: Region, s: seq<Region>, a: real)
    ensures WithArea(InsertByArea(r, s), a) ==
      if r.area == a then [r] + WithArea(s, a) else WithArea(s, a)
  {
    if s == [] {
      assert WithArea([r], a) == (if r.area == a then [r] else []) + WithArea([], a);
    } else if s[0].area <= r.area {
      assert ([r] + s)[1..] == s;
    } else {
      var t := [s[0]] + InsertByArea(r, s[1..]);
      assert t[1..] == InsertByArea(r, s[1..]);
      InsertKeepsTies(r, s[1..], a);
    }
  }

  /**
   * The sort is stable: for every area, the regions of that area appear in
   * the same order as in the input.  With the order by area, this fixes the
   * sorted list, and so which of several equal-area regions are sampled.
   */
  lemma {:induction false} SortKeepsTies(s: seq<Region>, a: real)
    ensures WithArea(SortByArea(s), a) == WithArea(s, a)
  {
    if s != [] {
      var rest := SortByArea(s[1..]);
      assert SortByArea(s) == InsertByArea(s[0], rest);
      SortKeepsTies(s[1..], a);
      InsertKeepsTies(s[0], rest, a);
      assert WithArea(s, a) == (if s[0].area == a then [s[0]] else []) + WithArea(s[1..], a);
      if s[0].area != a {
        assert WithArea(s, a) == WithArea(s[1..], a);
      }
    }
  }

  function Min(a: nat, b: nat): nat
  {
    if a <= b then a else b
  }

  /**
   * `contours_[:5]` after sorting: the regions whose bounding boxes are
   * sampled, in the order they are sampled.  At most five are taken (all of
   * them when there are no more than five), and each comes from the input.
   */
  function TopRegions(s: seq<Region>): (top: seq<Region>)
    ensures |top| == Min(MAX_REGIONS, |s|)
    ensures multiset(top) <= multiset(s)
  {
    var sorted := SortByArea(s);
    var n := Min(MAX_REGIONS, |s|);
    assert sorted == sorted[..n] + sorted[n..];
    assert multiset(sorted) == multiset(sorted[..n]) + multiset(sorted[n..]);
    sorted[..n]
  }

  /** The regions that are not sampled: the rest of the sorted list. */
  function Unsampled(s: seq<Region>): (rest: seq<Region>)
    ensures multiset(TopRegions(s)) + multiset(rest) == multiset(s)
  {
    var sorted := SortByArea(s);
    var n := Min(MAX_REGIONS, |s|);
    assert sorted == sorted[..n] + sorted[n..];
    assert multiset(sorted) == multiset(sorted[..n]) + multiset(sorted[n..]);
    sorted[n..]
  }

  /**
   * The sampled regions come in non-increasing area order, and no region
   * left out is larger than any region taken; so a region ranked sixth or
   * lower is never sampled.
   */
  lemma {:induction false} TopRegionsLargest(s: seq<Region>)
    ensures ByAreaDesc(TopRegions(s))
    ensures forall u, t :: u in Unsampled(s) && t in TopRegions(s) ==> u.area <= t.area
  {
    var sorted := SortByArea(s);
    SortOrders(s);
    var n := Min(MAX_REGIONS, |s|);
    var top, rest := sorted[..n], sorted[n..];
    assert TopRegions(s) == top && Unsampled(s) == rest;
    forall i, j | 0 <= i < j < |top| ensures top[i].area >= top[j].area {
      assert top[i] == sorted[i] && top[j] == sorted[j];
    }
    forall u, t | u in rest && t in top ensures u.area <= t.area {
      var j :| 0 <= j < |rest| && rest[j] == u;
      var i :| 0 <= i < |top| && top[i] == t;
      assert sorted[i] == t && sorted[n + j] == u;
    }
  }
}
