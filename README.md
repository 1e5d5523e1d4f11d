# Bounding boxes and intersection over union

A Dafny model of the box module of an object-detection metrics library
(`src/podm/box.py`). A `Box` is an axis-aligned rectangle in image coordinates
(x to the right, y downward) given by its top-left corner `(xtl, ytl)` and its
bottom-right corner `(xbr, ybr)`. The module offers the overlap test
`is_intersecting`, the overlap rectangle `intersection`, the bounding rectangle
`union`, the inclusion-exclusion area `union_areas` and the Jaccard index
`intersection_over_union` used to match detections against ground truth.

Everything lives in `box.dfy`:

- module `Wrappers`: `Option` (the optional `intersection_area` argument) and
  `Result` (the operations that can fail);
- module `Boxes`: the `Box` datatype with its constructor invariant `Valid()`, the
  subset type `ValidBox` of boxes that can exist, the constructor `MakeBox`, the
  five operations, and the lemmas about them. `Contains` (a point lies in the
  closed region of a box) and `Encloses` (one box lies inside another) are the
  geometric reference the operations are proved against.

Modelling decisions:

- Coordinates are exact `real`s. The model is about the geometry and the
  inclusion-exclusion arithmetic, not about floating-point rounding.
- The constructor's two assertions become `MakeBox`, which returns
  `Err(XOrderViolated)` or `Err(YOrderViolated)` for the first one that fails.
- `intersection` stays partial as in the Python module. It returns a `Result`, and it is
  `Ok` exactly when `IsIntersecting` holds. The error is the constructor assertion
  that the computed corners trip.
- `union` builds its box directly. Its corners always satisfy the constructor's
  assertions, and the `ValidBox` result type records that.
- `union_areas` takes an `Option<real>`. `None` means the argument was omitted, and
  then the intersection is computed and can fail.
- In `intersection_over_union`, a zero union area makes the division fail
  (`Err(DivisionByZero)`), as the Python float division `0.0 / 0.0` does. The
  closing assertion that the ratio is non-negative is `Err(NegativeIoU)`, and
  `IoUUndefinedIff` proves that it never fires.
- The code signals a swapped corner pair with plain `assert` statements
  (`src/podm/box.py:20-21`). `MakeBox` returns the first one that fails.
- The bounding rectangle's area equals the union area exactly when the boxes are
  aligned on one axis or one box contains the other. `UnionAreaSlack` gives the
  exact difference.

## Model

| member | source | states |
|---|---|---|
| `Boxes.MakeBox` | src/podm/box.py:2-26 | construction succeeds iff `xtl <= xbr` and `ytl <= ybr`; on success the four coordinates are stored unchanged; on failure the error names the x assertion exactly when `xtl > xbr` (it is checked first) |
| `Boxes.MakeBoxOfValid` | src/podm/box.py:20-26 | every existing box is rebuilt unchanged from its own four coordinates |
| `Boxes.Box.Width` | src/podm/box.py:28-30 | width is non-negative for every valid box and spans from `xtl` to `xbr` |
| `Boxes.Box.Height` | src/podm/box.py:32-34 | height is non-negative for every valid box and spans from `ytl` to `ybr` |
| `Boxes.Box.Area` | src/podm/box.py:36-38 | area equals width times height, is non-negative, and is zero exactly for degenerate boxes (zero width or zero height) |
| `Boxes.IsIntersecting` | src/podm/box.py:60-69 | the four rejection tests accept exactly when max of the left edges <= min of the right edges and max of the top edges <= min of the bottom edges, so touching edges count |
| `Boxes.IsIntersectingSymmetric` | src/podm/box.py:60-69 | the test does not depend on argument order |
| `Boxes.IsIntersectingIffCommonPoint` | src/podm/box.py:60-69 | the test holds iff the two closed regions share a point |
| `Boxes.EnclosesIffRegions` | src/podm/box.py:3-12 | the corner comparison `Encloses` is region containment, for the corner geometry of the docstring diagram |
| `Boxes.Intersection` | src/podm/box.py:86-91 | the overlap rectangle exists iff `IsIntersecting` holds (otherwise the constructor assertion fails), and it lies inside both boxes |
| `Boxes.IntersectionIsCommonRegion` | src/podm/box.py:86-91 | a point is in the intersection iff it is in both boxes |
| `Boxes.IntersectionIsGreatest` | src/podm/box.py:86-91 | a box lies inside both inputs iff it lies inside their intersection |
| `Boxes.IntersectionCommutative` | src/podm/box.py:86-91 | intersection (including its failure) does not depend on argument order |
| `Boxes.IntersectionIdempotent` | src/podm/box.py:86-91 | the intersection of a box with itself is that box |
| `Boxes.EnclosedAreaBound` | src/podm/box.py:36-38 | a box inside another has no more area |
| `Boxes.EnclosedSameArea` | src/podm/box.py:36-38 | a box inside another with the same positive area is the same box |
| `Boxes.IntersectionAreaBound` | src/podm/box.py:86-91 | the intersection's area is at most the area of each input |
| `Boxes.Union` | src/podm/box.py:78-83 | the bounding rectangle always exists and encloses both boxes |
| `Boxes.UnionIsLeast` | src/podm/box.py:78-83 | a box encloses both inputs iff it encloses their bounding rectangle |
| `Boxes.UnionCommutative` | src/podm/box.py:78-83 | the bounding rectangle does not depend on argument order |
| `Boxes.UnionIdempotent` | src/podm/box.py:78-83 | the bounding rectangle of a box with itself is that box |
| `Boxes.UnionAreas` | src/podm/box.py:72-75 | with a supplied overlap the result is `area1 + area2 - overlap`, taken unchecked; without one it succeeds iff the boxes intersect |
| `Boxes.UnionAreasDefault` | src/podm/box.py:72-75 | omitting the overlap gives the same result as passing the true intersection area |
| `Boxes.UnionAreasBounds` | src/podm/box.py:72-75 | with the true overlap the union area is at least each box's area and at most their sum |
| `Boxes.UnionAreasSymmetric` | src/podm/box.py:72-75 | the union area (including its failure) does not depend on argument order |
| `Boxes.UnionIntersectionExtents` | src/podm/box.py:78-91 | along each axis the bounding and overlap extents add up to the two boxes' extents |
| `Boxes.UnionAreaSlack` | src/podm/box.py:72-91 | the bounding rectangle's area minus the union area is exactly `(wa - wi)(hb - hi) + (wb - wi)(ha - hi)` |
| `Boxes.UnionAreaCoversUnionAreas` | src/podm/box.py:72-83 | the bounding rectangle's area is at least the union area |
| `Boxes.IntersectionOverUnion` | src/podm/box.py:44-57 | non-intersecting boxes give 0 without building the intersection; on intersecting boxes a returned ratio comes from a positive default-path `union_areas` value and equals the intersection area divided by it; any ratio returned is non-negative |
| `Boxes.IoUUndefinedIff` | src/podm/box.py:49-56 | the division fails iff the boxes intersect and both have zero area; the non-negativity assertion never fails |
| `Boxes.IoUBounds` | src/podm/box.py:44-57 | every ratio returned lies in [0, 1] |
| `Boxes.IoUSymmetric` | src/podm/box.py:44-57 | the result does not depend on argument order |
| `Boxes.IoUOneIff` | src/podm/box.py:44-57 | the ratio is exactly 1 iff the boxes are equal and have positive area |
| `Boxes.Examples` | src/podm/box.py:44-69 | touching boxes intersect; disjoint boxes give 0; identical 2x2 boxes give 1; boxes (0,0,2,2) and (1,1,3,3) give 1/7; swapped corners fail construction; two coincident points make the division fail |

## Left out

- `Box.__str__` (src/podm/box.py:40-41): text formatting of the coordinates, with nothing to verify.
- The assertion message strings (src/podm/box.py:20-21, 56). Only the conditions are modelled.
- IEEE-754 behaviour: rounding, NaN and infinities. Coordinates are exact reals, so a ratio computed in floating point can differ slightly from the model's value.
- Running Python with assertions disabled (`-O`). The model assumes the constructor's assertions are always checked, so a box with swapped corners never exists.
- The evaluation pipeline that calls these functions is not part of this model.
