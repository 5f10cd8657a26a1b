# Patch extraction from whole-slide images: a Dafny model of the coordinate logic

This project models the integer coordinate logic of `extract_patches_split.py`, the
script that cuts a gigapixel pyramidal microscopy slide into tissue patches. The
OpenSlide, OpenCV, shapely and pandas calls in the script are treated as given
inputs. Three parts of the script are modelled, and properties about them are proved:

- **The section grid** (`SectionGrid.dfy`). The working pyramid level, of size W x H,
  is cut into SPLIT x SPLIT sections, with SPLIT = 4.
  - A two-character id names a section: column first, then row.
  - The section's offset is `(col * (W // 4), row * (H // 4))`.
  - The region read from the slide starts at that offset times `mag_factor`, an
    argument of `read_wsi` that the script sets to `2^level`.
    It has size `(W // 4, H // 4)`.
  - Proved: every section of the grid lies inside the level. The sections tile
    `[0, 4 * (W // 4)) x [0, 4 * (H // 4))`, and each pixel there lies in exactly one section.
- **The patch sampler** (`RegionRanking.dfy`, `PatchSampler.dfy`).
  - Contours are sorted by area, largest first, and the first five are kept.
    The sort is stable, so among regions of equal area the earlier one is kept.
  - Over each kept bounding box, `np.arange` with step `P // 2` lays out candidate
    corners. Rows are the outer loop and columns the inner loop.
  - A candidate is kept when two conditions hold. The mask covers at least half of
    its P x P window. Its clipped numpy slice has the full shape (P, P).
  - The three result lists are built as methods with loops. Each method is proved
    equal to a specification function. Soundness, completeness, order and alignment
    are proved about that function.
- **Annotation coordinates** (`Annotation.dfy`).
  - Each level-0 attribute pair (X, Y) becomes `int(int(float(X)) / mag_factor)`.
    This is division toward zero, not Dafny's Euclidean division, and it is proved so.
  - The local coordinate is the global one minus the section offset. A negative
    result becomes the sentinel -1.
  - Every coordinate group gives one global list and one local list. A group of more
    than two points also gives a polygon.
  - `ParseAnnotation` is a method with the source's nested loops.

Four consequences of the code:

- Every section is `W // 4` by `H // 4`. The right and bottom remainder strips,
  `W % 4` columns and `H % 4` rows, belong to no section and are never read (`SectionGrid.SpanOf`,
  `SectionGrid.SectionAt`).
- The sentinel -1 marks only points left of or above the section. A point right of
  or below the section keeps a local coordinate of at least the section size
  (`Annotation.LocalCoord`).
- Candidates are not de-duplicated across regions. When the bounding boxes of two
  sampled regions share a grid corner, the same patch and the same coordinates are
  recorded twice, once per visit (`PatchSampler.SampledCount`,
  `PatchSampler.OverlapRepeats`).
- The section id is not checked against the grid size. An id such as `"45"` gives an
  offset outside the level. The containment lemmas therefore require column and row
  below SPLIT.

Numbers: pixel counts and coordinates are unbounded `nat`/`int`. Contour areas and
annotation attributes are `real`. The acceptance test `count >= P**2 * 0.5` is stated
exactly as `2 * count >= P * P`.

## Model

| member | source | states |
|---|---|---|
| `SectionGrid.Pow2` | patch_extraction/extract_patches_split.py:40-41 | the magnification factor 2^level is at least 1, and even for every level above 0 |
| `SectionGrid.ParseDigit` | patch_extraction/extract_patches_split.py:129-130 | `int(c)` of one character, among ASCII characters, succeeds exactly for '0'..'9', gives a value below 10, and that value names the character back |
| `SectionGrid.SectionId` | patch_extraction/extract_patches_split.py:87-100 | a section id is well formed exactly when its first two characters are ASCII digits; the column is the first digit and the row the second; shorter ids and non-digits name no section |
| `SectionGrid.SectionNameRoundTrip` | patch_extraction/extract_patches_split.py:623-626 | writing column and row as a two-digit id and parsing it back gives the same column and row |
| `SectionGrid.SectionSize` | patch_extraction/extract_patches_split.py:125-126 | the section size (W // 4, H // 4) is the largest size for which four sections fit in the level: 4 * w <= W < 4 * w + 4 |
| `SectionGrid.SectionInside` | patch_extraction/extract_patches_split.py:126-130 | for column and row in 0..3, offset + section size <= (W, H) on both axes |
| `SectionGrid.SpanOf` | patch_extraction/extract_patches_split.py:126-130 | along one axis, a coordinate lies in some section iff it is below 4 * (n // 4); that section is the only one containing it |
| `SectionGrid.SectionAt` | patch_extraction/extract_patches_split.py:126-130 | the 16 sections tile [0, 4(W//4)) x [0, 4(H//4)) without overlap; a pixel outside that box is in no section |
| `SectionGrid.ReadRequest` | patch_extraction/extract_patches_split.py:122-138 | the region is read exactly when the id is well formed; the level-0 origin is the working-level offset times the `mag_factor` argument; the size is the section size; the level is the working level |
| `SectionGrid.ReadInside` | patch_extraction/extract_patches_split.py:129-138 | for a grid section, the level-0 region read, origin + size * mag_factor, stays within the level's extent scaled to level 0 |
| `RegionRanking.InsertByArea` | patch_extraction/extract_patches_split.py:336 | insertion adds exactly the one region: the result is the input multiset plus it |
| `RegionRanking.InsertKeepsOrder` | patch_extraction/extract_patches_split.py:336 | inserting into a list sorted by non-increasing area keeps it sorted |
| `RegionRanking.SortByArea` | patch_extraction/extract_patches_split.py:336 | the sort is a permutation of the contours |
| `RegionRanking.SortOrders` | patch_extraction/extract_patches_split.py:336 | the sorted contours have non-increasing area |
| `RegionRanking.InsertKeepsTies` | patch_extraction/extract_patches_split.py:336 | insertion puts the new region ahead of all regions of its own area and leaves the relative order of every area's regions unchanged |
| `RegionRanking.SortKeepsTies` | patch_extraction/extract_patches_split.py:336 | the sort is stable: for every area, the regions of that area keep their input order |
| `RegionRanking.TopRegions` | patch_extraction/extract_patches_split.py:336-337 | exactly min(5, number of contours) regions are sampled, all taken from the input (sub-multiset) |
| `RegionRanking.Unsampled` | patch_extraction/extract_patches_split.py:336-337 | the sampled and the unsampled regions together are exactly the input contours |
| `RegionRanking.TopRegionsLargest` | patch_extraction/extract_patches_split.py:336-337 | the sampled regions come in non-increasing area order, and no unsampled region is larger than any sampled one |
| `PatchSampler.Window` | patch_extraction/extract_patches_split.py:381-389 | the numpy slice is clipped at the image edge, with height min(y+P,H)-min(y,H) and likewise the width; pixel (i, j) of it is image pixel (y+i, x+j); it has shape (P, P) iff y+P <= H and x+P <= W |
| `PatchSampler.ArangeSpec` | patch_extraction/extract_patches_split.py:364-365 | the candidates along an axis are exactly start + k*step, each below stop, and the next one would reach stop |
| `PatchSampler.ArangeLength` | patch_extraction/extract_patches_split.py:364-365 | there are ceil((stop - start) / step) candidates along an axis, none for an empty range |
| `PatchSampler.ArangeIncreasing` | patch_extraction/extract_patches_split.py:364-365 | the candidates along an axis are strictly increasing |
| `PatchSampler.ExampleCandidates` | patch_extraction/extract_patches_split.py:364-365 | for a box starting at 100 of extent 300 and P = 100, the corners are 100, 150, ..., 350 |
| `PatchSampler.ScanSpec` | patch_extraction/extract_patches_split.py:369-371 | a box gives len(X) * len(Y) candidates; a corner is a candidate iff its x is in X and its y in Y; visits are strictly increasing with y outer and x inner |
| `PatchSampler.BoxScanOrder` | patch_extraction/extract_patches_split.py:364-371 | the candidates of a bounding box are visited in strictly increasing (y, x) order: rows outer, columns inner |
| `PatchSampler.AcceptMeaning` | patch_extraction/extract_patches_split.py:394-421 | a candidate is accepted iff the intersection did not raise, its covered count is at least P*P/2, and the window lies wholly inside the image |
| `PatchSampler.SampledSpec` | patch_extraction/extract_patches_split.py:369-433 | a corner is sampled iff it is a candidate and accepted; there are never more patches than candidates; a candidate list in visiting order stays in visiting order |
| `PatchSampler.SampledCount` | patch_extraction/extract_patches_split.py:369-433 | one patch per accepted visit: an accepted corner is sampled exactly as often as it occurs among the candidates, a rejected one never |
| `PatchSampler.OverlapRepeats` | patch_extraction/extract_patches_split.py:339-371 | two sampled regions with the same one-pixel box give the candidate (0, 0) twice; nothing removes the repeat |
| `PatchSampler.SampledConcat` | patch_extraction/extract_patches_split.py:339-433 | the patches of several regions are the patches of each region in turn, in region order |
| `PatchSampler.SampledInsideLevel` | patch_extraction/extract_patches_split.py:318-324 | in a grid section whose image has the section size, every accepted window at its global corner lies inside the working level |
| `PatchSampler.SampleRow` | patch_extraction/extract_patches_split.py:371-433 | the inner loop records exactly the accepted windows of one row; patch, global and local lists stay aligned |
| `PatchSampler.SampleBox` | patch_extraction/extract_patches_split.py:354-433 | the loops over one bounding box record exactly its accepted candidates, row by row |
| `PatchSampler.ConstructBags` | patch_extraction/extract_patches_split.py:298-441 | the local corners are the accepted candidates of the top five regions in visiting order; the three lists have equal length; global = local + section offset; each patch is the P x P slice at its local corner |
| `Annotation.Trunc` | patch_extraction/extract_patches_split.py:489-496 | Python's int() on a float: the result is the integer next to r toward zero, within 1 of r |
| `Annotation.ToLevelIsTruncDiv` | patch_extraction/extract_patches_split.py:489-496 | the level-0 to working-level conversion is integer division toward zero of the truncated attribute, for negative values too |
| `Annotation.ToLevelContains` | patch_extraction/extract_patches_split.py:489-496 | for a non-negative attribute, the working-level pixel v found has the attribute within its level-0 footprint [v*mag, (v+1)*mag) |
| `Annotation.ToLevelOfScaled` | patch_extraction/extract_patches_split.py:136-138 | a working-level coordinate scaled to level 0, as read_wsi does, converts back to itself |
| `Annotation.ScaledAtLevel` | patch_extraction/extract_patches_split.py:136-138 | with mag_factor = pow(2, level), a working-level coordinate scaled to level 0 converts back to itself at every level |
| `Annotation.LocalCoord` | patch_extraction/extract_patches_split.py:504-510 | the local coordinate is never below -1; it is non-negative iff the point is at or after the section start, and then local + offset = global |
| `Annotation.LocalRoundTrip` | patch_extraction/extract_patches_split.py:504-510 | a non-sentinel local coordinate, made global and converted back, is unchanged |
| `Annotation.LocalInsideRead` | patch_extraction/extract_patches_split.py:489-510 | an attribute inside a section's level-0 extent gets a local coordinate in [0, section width), never the sentinel |
| `Annotation.ExamplePoint` | patch_extraction/extract_patches_split.py:489-510 | (800, 800) at magnification 2 is (400, 400); in the section at offset (500, 0) it is local (-1, 400) |
| `Annotation.PolygonsSpec` | patch_extraction/extract_patches_split.py:515-517 | a group becomes a polygon iff it has more than two points, so there are never more polygons than groups, and every polygon has more than two points |
| `Annotation.PolygonsOrder` | patch_extraction/extract_patches_split.py:515-517 | there is one polygon per group of more than two points, in group order: such a group at index k is the polygon numbered by the qualifying groups before it |
| `Annotation.ParseAnnotation` | patch_extraction/extract_patches_split.py:446-519 | one global and one local list per group, in group order, each as long as its group; point j of group i is the scaled attribute pair and its sentinelled local form; the polygons are the global lists of more than two points |

## Left out

- `SectionGrid.ParseDigit`: Python's `int()` also accepts non-ASCII Unicode decimal digits, such as '٣'; the model accepts only '0'..'9'. The program only ever uses the ids "00" to "33".
- `SectionGrid.SectionId`: an id made of non-ASCII Unicode decimal digits, which `int()` would parse, names no section in the model (see `SectionGrid.ParseDigit`).
- Slide access is not modelled: opening the slide, `level_dimensions` and the pixel read of `read_region` are foreign calls. The level dimensions (W, H) are inputs; `ReadRequest` describes the arguments of the call.
- Colour conversion (`construct_colored_wsi`) and tissue segmentation (`segmentation_hsv`, `get_contours`) are OpenCV calls and are not modelled: HSV thresholding, morphological close and open, contour finding, `boundingRect`, drawing the mask. Each contour is given as its area and its bounding box.
- The mask-coverage count (`bitwise_and`, grey conversion, `countNonZero`) is an abstract function of the window corner. The catch-all `except` around `bitwise_and` is its `None` outcome, which skips the candidate.
- Pixel channels are not modelled. The section image is a grid of pixels of a type parameter (an RGB triple in the source). The check of the third dimension, `CHANNEL = 3`, holds by construction and is not modelled.
- Floating point is not modelled: contour areas and annotation attributes are exact reals. Rounding of very large coordinates when parsed as floats is not modelled.
- `PatchSampler.ConstructBags`: a malformed section id raises ValueError or IndexError in the source (`int(sect[0])`); the model excludes it by a precondition. `SectionGrid.ReadRequest` models that error path as `None`.
- `PatchSampler.ConstructBags`: patch sizes below 2 are excluded by a precondition. With step `P // 2 = 0`, `np.arange` raises as soon as a region is sampled; with no contours the source returns three empty lists for any patch size, and the model does not cover that case for P < 2. `SampleBox` carries the same precondition.
- XML reading (`ET.ElementTree`, attribute lookup, and `float()` of a malformed attribute) is not modelled. The input is the sequence of coordinate groups as numbers.
- `Annotation.ParseAnnotation`: a malformed section id raises ValueError or IndexError in the source (`int(sect[0])`); the model excludes it by a precondition.
- shapely objects are not modelled: a polygon is its point list. The unused `Point` list (`node_list`) is not modelled.
- `calc_tumorArea` is called but not defined in the source; it is not part of this model.
- Persistence (`save_to_disk`: directories, CSV, `.npy` and JPEG files, the `tumor_%` ratio) is not modelled.
- The orchestration in `extract_all` is not modelled: the loop over the 16 sections, timing, garbage collection and printing. It uses `sect` and `anno_path` before they are defined.
- The `level` and `mag_factor` arguments of `construct_bags` are unused by the source apart from the level dimensions, and are not parameters here.
