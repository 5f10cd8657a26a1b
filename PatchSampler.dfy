/**
 * The sliding-window patch sampler of `construct_bags`: over the bounding
 * box of each of the five largest tissue regions, candidate corners are laid
 * on a grid with step P // 2 (rows outer, columns inner); the P x P window at
 * a corner is kept when the tissue mask covers at least half of it and the
 * window lies wholly inside the section image.  Each kept window is recorded
 * with its section-local corner and its global corner (local + section offset).
 */
module PatchSampler {
  import opened Wrappers
  import opened SectionGrid
  import opened RegionRanking

  /**
   * An image array of shape (height, width, channels), as rows of pixels.
   * The section image has three channels, so T stands for an RGB triple.
   */
  datatype Raster<T> = Raster(height: nat, width: nat, rows: seq<seq<T>>)

  /** The rows really have the shape the array reports. */
  ghost predicate WellShaped<T>(img: Raster<T>)
  {
    |img.rows| == img.height && forall i :: 0 <= i < |img.rows| ==> |img.rows[i]| == img.width
  }

  /** A window corner (x, y), section-local, at the working level. */
  datatype Corner = Corner(x: nat, y: nat)

  /** The length of the numpy slice [lo : lo + len] of an axis of length n. */
  function SliceLen(lo: nat, len: nat, n: nat): nat
  {
    Min(lo + len, n) - Min(lo, n)
  }

  /**
   * `wsi_rgb[y : y + P, x : x + P, :]`: numpy clips the slice at the edges of
   * the array instead of failing, so near an edge the window is smaller.
   */
  function Window<T>(img: Raster<T>, x: nat, y: nat, P: nat): (win: Raster<T>)
    requires WellShaped(img)
    ensures WellShaped(win)
    ensures win.height == SliceLen(y, P, img.height) && win.width == SliceLen(x, P, img.width)
    ensures forall i, j :: 0 <= i < win.height && 0 <= j < win.width ==>
              win.rows[i][j] == img.rows[y + i][x + j]
    ensures P > 0 ==> ((win.height == P && win.width == P) <==> (y + P <= img.height && x + P <= img.width))
  {
    var y0, y1 := Min(y, img.height), Min(y + P, img.height);
    var x0, x1 := Min(x, img.width), Min(x + P, img.width);
    Raster(y1 - y0, x1 - x0, seq(y1 - y0, i requires 0 <= i < y1 - y0 => img.rows[y0 + i][x0..x1]))
  }

  /** `np.arange(start, stop, step)` for a positive step. */
  function Arange(start: nat, stop: nat, step: nat): seq<nat>
    requires step > 0
    decreases stop - start
  {
    if start >= stop then [] else [start] + Arange(start + step, stop, step)
  }

  /** ceil(n / d) for positive d. */
  function CeilDiv(n: nat, d: nat): nat
    requires d > 0
  {
    (n + d - 1) / d
  }

  /**
   * The candidates along one axis are exactly start + k * step for
   * k = 0, 1, ... while below stop.
   */
  lemma {:induction false} ArangeSpec(start: nat, stop: nat, step: nat)
    requires step > 0
    ensures var xs := Arange(start, stop, step);
      (forall k :: 0 <= k < |xs| ==> xs[k] == start + k * step && xs[k] < stop) &&
      start + |xs| * step >= stop
    decreases stop - start
  {
    var xs := Arange(start, stop, step);
    if start < stop {
      var rest := Arange(start + step, stop, step);
      ArangeSpec(start + step, stop, step);
      assert xs == [start] + rest;
      forall k | 0 < k < |xs| ensures xs[k] == start + k * step {
        assert xs[k] == rest[k - 1];
        assert start + step + (k - 1) * step == start + k * step;
      }
      assert start + |xs| * step == start + step + |rest| * step;
    }
  }

  /** There are ceil((stop - start) / step) candidates along an axis. */
  lemma {:induction false} ArangeLength(start: nat, stop: nat, step: nat)
    requires step > 0
    ensures |Arange(start, stop, step)| == if start < stop then CeilDiv(stop - start, step) else 0
    decreases stop - start
  {
    if start < stop {
      var rest := Arange(start + step, stop, step);
      ArangeLength(start + step, stop, step);
      assert |Arange(start, stop, step)| == 1 + |rest|;
      var n := stop - start;
      if start + step < stop {
        assert |rest| == (n - step + step - 1) / step;
        DivShift(n - 1, step);
        assert (n + step - 1) / step == (n - 1) / step + 1;
      } else {
        assert step <= n + step - 1 < 2 * step;
        DivUnique(n + step - 1, step, 1, n - 1);
      }
    }
  }

  lemma DivShift(a: nat, d: nat)
    requires d > 0
    ensures (a + d) / d == a / d + 1
  {
    var q, r := a / d, a % d;
    assert a + d == (q + 1) * d + r;
    DivUnique(a + d, d, q + 1, r);
  }

  /** Strictly increasing. */
  ghost predicate Increasing(xs: seq<nat>)
  {
    forall i, j :: 0 <= i < j < |xs| ==> xs[i] < xs[j]
  }

  /** The candidates along an axis come in strictly increasing order. */
  lemma ArangeIncreasing(start: nat, stop: nat, step: nat)
    requires step > 0
    ensures Increasing(Arange(start, stop, step))
  {
    var xs := Arange(start, stop, step);
    ArangeSpec(start, stop, step);
    forall i, j | 0 <= i < j < |xs| ensures xs[i] < xs[j] {
      StepsIncrease(i, j, step);
    }
  }

  lemma StepsIncrease(i: nat, j: nat, step: nat)
    requires i < j && step > 0
    ensures i * step < j * step
  {
    assert j * step == i * step + (j - i) * step;
  }

  /** The candidates of one row: `for x in X` at a fixed y. */
  function Row(xs: seq<nat>, y: nat): seq<Corner>
  {
    seq(|xs|, k requires 0 <= k < |xs| => Corner(xs[k], y))
  }

  /** The candidates of one box, in visiting order: `for y in Y: for x in X`. */
  function Scan(xs: seq<nat>, ys: seq<nat>): seq<Corner>
    decreases |ys|
  {
    if ys == [] then [] else Scan(xs, ys[..|ys| - 1]) + Row(xs, ys[|ys| - 1])
  }

  lemma ScanStep(xs: seq<nat>, ys: seq<nat>, j: nat)
    requires j < |ys|
    ensures Scan(xs, ys[..j + 1]) == Scan(xs, ys[..j]) + Row(xs, ys[j])
  {
    assert ys[..j + 1][..j] == ys[..j];
  }

  /** The candidate corners of one bounding box, with step P // 2. */
  function BoxScan(b: Box, step: nat): seq<Corner>
    requires step > 0
  {
    Scan(Arange(b.x, b.x + b.w, step), Arange(b.y, b.y + b.h, step))
  }

  /** A bounding box is visited row by row, each row left to right. */
  lemma BoxScanOrder(b: Box, step: nat)
    requires step > 0
    ensures VisitOrder(BoxScan(b, step))
  {
    ArangeIncreasing(b.x, b.x + b.w, step);
    ArangeIncreasing(b.y, b.y + b.h, step);
    ScanSpec(Arange(b.x, b.x + b.w, step), Arange(b.y, b.y + b.h, step));
  }

  /** The candidates of all sampled regions, region by region. */
  function AllScans(regions: seq<Region>, step: nat): seq<Corner>
    requires step > 0
    decreases |regions|
  {
    if regions == [] then []
    else AllScans(regions[..|regions| - 1], step) + BoxScan(regions[|regions| - 1].box, step)
  }

  lemma AllScansStep(regions: seq<Region>, r: nat, step: nat)
    requires r < |regions| && step > 0
    ensures AllScans(regions[..r + 1], step) == AllScans(regions[..r], step) + BoxScan(regions[r].box, step)
  {
    assert regions[..r + 1][..r] == regions[..r];
  }

  /** The order of visits: row first, then column. */
  predicate Before(a: Corner, b: Corner)
  {
    a.y < b.y || (a.y == b.y && a.x < b.x)
  }

  ghost predicate VisitOrder(cs: seq<Corner>)
  {
    forall i, j :: 0 <= i < j < |cs| ==> Before(cs[i], cs[j])
  }

  /**
   * A box is scanned over every pair of an x candidate and a y candidate,
   * each once, rows outer and columns inner.
   */
  lemma {:induction false} ScanSpec(xs: seq<nat>, ys: seq<nat>)
    ensures |Scan(xs, ys)| == |xs| * |ys|
    ensures forall c :: c in Scan(xs, ys) <==> c.x in xs && c.y in ys
    ensures Increasing(xs) && Increasing(ys) ==> VisitOrder(Scan(xs, ys))
    decreases |ys|
  {
    if ys != [] {
      var init, y := ys[..|ys| - 1], ys[|ys| - 1];
      var left, right := Scan(xs, init), Row(xs, y);
      ScanSpec(xs, init);
      assert Scan(xs, ys) == left + right;
      assert |Scan(xs, ys)| == |xs| * |init| + |xs| == |xs| * |ys|;
      forall c ensures c in Scan(xs, ys) <==> c.x in xs && c.y in ys {
        assert ys == init + [y];
        if c.x in xs && c.y == y {
          var k :| 0 <= k < |xs| && xs[k] == c.x;
          assert right[k] == c;
        }
      }
      if Increasing(xs) && Increasing(ys) {
        assert Increasing(init);
        forall i, j | 0 <= i < j < |left| + |right|
          ensures Before((left + right)[i], (left + right)[j])
        {
          if j < |left| {
          } else if i >= |left| {
            assert (left + right)[i] == right[i - |left|];
            assert (left + right)[j] == right[j - |left|];
          } else {
            var a := left[i];
            assert a in left;
            var k :| 0 <= k < |init| && init[k] == a.y;
            assert ys[k] == a.y;
            assert (left + right)[j] == right[j - |left|];
          }
        }
      }
    }
  }

  /** The 50%-overlap grid of candidates over the box (100, 100, 300, 300) for P = 100. */
  lemma ExampleCandidates()
    ensures Arange(100, 400, 50) == [100, 150, 200, 250, 300, 350]
  {
  }

  /**
   * The acceptance test of one candidate.  `occupancy` abstracts the
   * mask-covered pixel count of the window (bitwise_and, grey conversion,
   * countNonZero); None stands for bitwise_and raising, which skips the
   * candidate.  A candidate is kept iff at least half the P x P pixels are
   * covered and the clipped slice has the full shape (P, P), that is, iff
   * the window lies wholly inside the image.
   */
  predicate Accept<T>(img: Raster<T>, occupancy: Corner -> Option<nat>, P: nat, c: Corner)
    requires WellShaped(img)
  {
    match occupancy(c)
    case None => false
    case Some(count) =>
      var win := Window(img, c.x, c.y, P);
      2 * count >= P * P && win.height == P && win.width == P
  }

  lemma AcceptMeaning<T>(img: Raster<T>, occupancy: Corner -> Option<nat>, P: nat, c: Corner)
    requires WellShaped(img) && P > 0
    ensures Accept(img, occupancy, P, c) <==>
      occupancy(c).Some? && 2 * occupancy(c).value >= P * P &&
      c.x + P <= img.width && c.y + P <= img.height
  {
  }

  /** The accepted candidates, in visiting order. */
  function Sampled<T>(img: Raster<T>, occupancy: Corner -> Option<nat>, P: nat, cs: seq<Corner>): seq<Corner>
    requires WellShaped(img)
    decreases |cs|
  {
    if cs == [] then []
    else
      var last := cs[|cs| - 1];
      Sampled(img, occupancy, P, cs[..|cs| - 1]) + if Accept(img, occupancy, P, last) then [last] else []
  }

  /**
   * Exactly the accepted candidates are sampled, and a list in visiting
   * order stays in visiting order.
   */
  lemma {:induction false} SampledSpec<T>(img: Raster<T>, occupancy: Corner -> Option<nat>, P: nat, cs: seq<Corner>)
    requires WellShaped(img)
    ensures |Sampled(img, occupancy, P, cs)| <= |cs|
    ensures forall c :: c in Sampled(img, occupancy, P, cs) <==> c in cs && Accept(img, occupancy, P, c)
    ensures VisitOrder(cs) ==> VisitOrder(Sampled(img, occupancy, P, cs))
    decreases |cs|
  {
    if cs != [] {
      var init, last := cs[..|cs| - 1], cs[|cs| - 1];
      SampledSpec(img, occupancy, P, init);
      assert cs == init + [last];
      var s := Sampled(img, occupancy, P, init);
      if VisitOrder(cs) && Accept(img, occupancy, P, last) {
        forall i, j | 0 <= i < j < |s| + 1 ensures Before((s + [last])[i], (s + [last])[j]) {
          if j == |s| {
            var a := s[i];
            assert a in s;
            var k :| 0 <= k < |init| && init[k] == a;
            assert cs[k] == a;
          } else {
            assert (s + [last])[i] == s[i];
          }
        }
      }
    }
  }

  /**
   * One patch per accepted visit: a corner is sampled as many times as it
   * occurs among the candidates if it is accepted, and never otherwise.
   * Nothing removes repeats.
   */
  lemma {:induction false} SampledCount<T>(img: Raster<T>, occupancy: Corner -> Option<nat>, P: nat, cs: seq<Corner>)
    requires WellShaped(img)
    ensures forall c ::
      multiset(Sampled(img, occupancy, P, cs))[c] == if Accept(img, occupancy, P, c) then multiset(cs)[c] else 0
    decreases |cs|
  {
    if cs != [] {
      var init, last := cs[..|cs| - 1], cs[|cs| - 1];
      SampledCount(img, occupancy, P, init);
      assert cs == init + [last];
      assert multiset(cs) == multiset(init) + multiset{last};
    }
  }

  /**
   * Two sampled regions whose bounding boxes share a grid corner give that
   * corner twice: here two regions of areas 10 and 5 with the same one-pixel
   * box, at step 1 (P = 2 or 3).
   */
  lemma OverlapRepeats()
    ensures var rs := [Region(10.0, Box(0, 0, 1, 1)), Region(5.0, Box(0, 0, 1, 1))];
      TopRegions(rs) == rs && AllScans(rs, 1) == [Corner(0, 0), Corner(0, 0)]
  {
    var rs := [Region(10.0, Box(0, 0, 1, 1)), Region(5.0, Box(0, 0, 1, 1))];
    assert Arange(0, 1, 1) == [0];
    assert rs[..1] == [rs[0]];
    assert SortByArea(rs) == rs;
  }

  /** Filtering the candidates of one region after another is filtering each region in turn. */
  lemma {:induction false} SampledConcat<T>(img: Raster<T>, occupancy: Corner -> Option<nat>, P: nat, a: seq<Corner>, b: seq<Corner>)
    requires WellShaped(img)
    ensures Sampled(img, occupancy, P, a + b) == Sampled(img, occupancy, P, a) + Sampled(img, occupancy, P, b)
    decreases |b|
  {
    if b != [] {
      var init := b[..|b| - 1];
      assert (a + b)[..|a + b| - 1] == a + init;
      SampledConcat(img, occupancy, P, a, init);
    } else {
      assert a + b == a;
    }
  }

  /**
   * When the image is the section read for a grid section (of size
   * (W // SPLIT, H // SPLIT)), every sampled window, placed at its global
   * corner, lies inside the working level.
   */
  lemma SampledInsideLevel<T>(img: Raster<T>, occupancy: Corner -> Option<nat>, P: nat,
                              W: nat, H: nat, col: nat, row: nat, c: Corner)
    requires WellShaped(img) && P > 0
    requires (img.width, img.height) == SectionSize(W, H)
    requires col < SPLIT && row < SPLIT
    requires Accept(img, occupancy, P, c)
    ensures SectionOffset(W, H, col, row).0 + c.x + P <= W
    ensures SectionOffset(W, H, col, row).1 + c.y + P <= H
  {
    AcceptMeaning(img, occupancy, P, c);
    SectionInside(W, H, col, row);
  }

  /**
   * The bookkeeping of `construct_bags`: the three lists have equal length,
   * the i-th global corner is the i-th local corner shifted by the section
   * offset (dx, dy), and the i-th patch is the P x P slice at the local corner.
   */
  ghost predicate Aligned<T>(img: Raster<T>, P: nat, dx: nat, dy: nat,
                             patches: seq<Raster<T>>, coords: seq<Corner>, coordsLocal: seq<Corner>)
    requires WellShaped(img)
  {
    |patches| == |coords| == |coordsLocal| &&
    forall i :: 0 <= i < |coordsLocal| ==>
      coords[i] == Corner(coordsLocal[i].x + dx, coordsLocal[i].y + dy) &&
      patches[i] == Window(img, coordsLocal[i].x, coordsLocal[i].y, P)
  }

  lemma AlignedConcat<T>(img: Raster<T>, P: nat, dx: nat, dy: nat,
                         p1: seq<Raster<T>>, c1: seq<Corner>, l1: seq<Corner>,
                         p2: seq<Raster<T>>, c2: seq<Corner>, l2: seq<Corner>)
    requires WellShaped(img)
    requires Aligned(img, P, dx, dy, p1, c1, l1) && Aligned(img, P, dx, dy, p2, c2, l2)
    ensures Aligned(img, P, dx, dy, p1 + p2, c1 + c2, l1 + l2)
  {
    var p, c, l := p1 + p2, c1 + c2, l1 + l2;
    forall i | 0 <= i < |l|
      ensures c[i] == Corner(l[i].x + dx, l[i].y + dy) && p[i] == Window(img, l[i].x, l[i].y, P)
    {
      if i >= |l1| {
        assert c[i] == c2[i - |l1|] && p[i] == p2[i - |l1|] && l[i] == l2[i - |l1|];
      }
    }
  }

  /** Visiting one more candidate of a row extends the sampled list by it exactly when it is accepted. */
  lemma RowStep<T>(img: Raster<T>, occupancy: Corner -> Option<nat>, P: nat, xs: seq<nat>, y: nat, k: nat)
    requires WellShaped(img) && k < |xs|
    ensures Sampled(img, occupancy, P, Row(xs[..k + 1], y)) ==
      Sampled(img, occupancy, P, Row(xs[..k], y)) +
      if Accept(img, occupancy, P, Corner(xs[k], y)) then [Corner(xs[k], y)] else []
  {
    assert Row(xs[..k + 1], y)[..k] == Row(xs[..k], y);
  }

  /** The inner loop `for x in X` at one y: the accepted windows of the row, recorded. */
  method SampleRow<T>(img: Raster<T>, occupancy: Corner -> Option<nat>, P: nat,
                      xs: seq<nat>, y: nat, dx: nat, dy: nat)
    returns (patches: seq<Raster<T>>, coords: seq<Corner>, coordsLocal: seq<Corner>)
    requires WellShaped(img)
    ensures coordsLocal == Sampled(img, occupancy, P, Row(xs, y))
    ensures Aligned(img, P, dx, dy, patches, coords, coordsLocal)
  {
    patches, coords, coordsLocal := [], [], [];
    var k := 0;
    while k < |xs|
      invariant 0 <= k <= |xs|
      invariant coordsLocal == Sampled(img, occupancy, P, Row(xs[..k], y))
      invariant Aligned(img, P, dx, dy, patches, coords, coordsLocal)
    {
      var x := xs[k];
      var c := Corner(x, y);
      var patch := Window(img, x, y, P);
      RowStep(img, occupancy, P, xs, y, k);
      match occupancy(c) {
        case None =>
          // bitwise_and raised: the candidate is skipped
        case Some(count) =>
          if 2 * count >= P * P && patch.height == P && patch.width == P {
            AlignedConcat(img, P, dx, dy, patches, coords, coordsLocal, [patch], [Corner(x + dx, y + dy)], [c]);
            patches := patches + [patch];
            coords := coords + [Corner(x + dx, y + dy)];
            coordsLocal := coordsLocal + [c];
          }
      }
      k := k + 1;
    }
    assert xs[..|xs|] == xs;
  }

  /** The loops `for y in Y: for x in X` over one bounding box. */
  method SampleBox<T>(img: Raster<T>, occupancy: Corner -> Option<nat>, P: nat,
                      b: Box, dx: nat, dy: nat)
    returns (patches: seq<Raster<T>>, coords: seq<Corner>, coordsLocal: seq<Corner>)
    requires WellShaped(img) && P >= 2
    ensures coordsLocal == Sampled(img, occupancy, P, BoxScan(b, P / 2))
    ensures Aligned(img, P, dx, dy, patches, coords, coordsLocal)
  {
    var step := P / 2;
    var xs := Arange(b.x, b.x + b.w, step);
    var ys := Arange(b.y, b.y + b.h, step);
    patches, coords, coordsLocal := [], [], [];
    var j := 0;
    while j < |ys|
      invariant 0 <= j <= |ys|
      invariant coordsLocal == Sampled(img, occupancy, P, Scan(xs, ys[..j]))
      invariant Aligned(img, P, dx, dy, patches, coords, coordsLocal)
    {
      var rowPatches, rowCoords, rowLocal := SampleRow(img, occupancy, P, xs, ys[j], dx, dy);
      AlignedConcat(img, P, dx, dy, patches, coords, coordsLocal, rowPatches, rowCoords, rowLocal);
      ScanStep(xs, ys, j);
      SampledConcat(img, occupancy, P, Scan(xs, ys[..j]), Row(xs, ys[j]));
      patches, coords, coordsLocal := patches + rowPatches, coords + rowCoords, coordsLocal + rowLocal;
      j := j + 1;
    }
    assert ys[..|ys|] == ys;
  }

  /**
   * `construct_bags`: the patches, their global corners and their local
   * corners.  The local corners are the accepted candidates of the five
   * largest regions, region by region; the three lists stay index-aligned,
   * the i-th global corner is the i-th local corner plus the section offset,
   * and the i-th patch is the P x P slice of the image at that corner.
   * The level dimensions (W, H) and the section id give the offset.
   */
  method ConstructBags<T>(img: Raster<T>, regions: seq<Region>, occupancy: Corner -> Option<nat>,
                          P: nat, W: nat, H: nat, sect: string)
    returns (patches: seq<Raster<T>>, coords: seq<Corner>, coordsLocal: seq<Corner>)
    requires WellShaped(img)
    requires P >= 2
    requires SectionId(sect).Some?
    ensures coordsLocal == Sampled(img, occupancy, P, AllScans(TopRegions(regions), P / 2))
    ensures |patches| == |coords| == |coordsLocal|
    ensures forall i :: 0 <= i < |coordsLocal| ==>
      var (dx, dy) := SectionOffset(W, H, SectionId(sect).value.0, SectionId(sect).value.1);
      coords[i] == Corner(coordsLocal[i].x + dx, coordsLocal[i].y + dy) &&
      patches[i] == Window(img, coordsLocal[i].x, coordsLocal[i].y, P)
  {
    var (col, row) := SectionId(sect).value;
    var (dx, dy) := SectionOffset(W, H, col, row);
    var top := TopRegions(regions);
    patches, coords, coordsLocal := [], [], [];
    var r := 0;
    while r < |top|
      invariant 0 <= r <= |top|
      invariant coordsLocal == Sampled(img, occupancy, P, AllScans(top[..r], P / 2))
      invariant Aligned(img, P, dx, dy, patches, coords, coordsLocal)
    {
      var boxPatches, boxCoords, boxLocal := SampleBox(img, occupancy, P, top[r].box, dx, dy);
      AlignedConcat(img, P, dx, dy, patches, coords, coordsLocal, boxPatches, boxCoords, boxLocal);
      AllScansStep(top, r, P / 2);
      SampledConcat(img, occupancy, P, AllScans(top[..r], P / 2), BoxScan(top[r].box, P / 2));
      patches, coords, coordsLocal := patches + boxPatches, coords + boxCoords, coordsLocal + boxLocal;
      r := r + 1;
    }
    assert top[..|top|] == top;
  }
}
