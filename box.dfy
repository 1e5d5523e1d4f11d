/** Option and Result: the optional argument and the failing operations of the box module. */
module Wrappers {

  datatype Option<+T> = None | Some(value: T)

  datatype Result<+T, +E> = Ok(value: T) | Err(error: E)
}

/**
  Axis-aligned bounding boxes in image coordinates (x grows to the right, y grows
  downward) and the overlap measures used to compare a detection with a ground
  truth: the intersection test, the intersection and bounding union rectangles,
  the inclusion-exclusion union area and the intersection over union (Jaccard index).

  Coordinates are exact reals; the model does not follow floating-point rounding.
 */
module Boxes {

  import opened Wrappers

  /** Why a box could not be built: the first violated constructor assertion. */
  datatype BoxError =
    | XOrderViolated  // xtl > xbr
    | YOrderViolated  // ytl > ybr

  /** Why intersection over union produced no number. */
  datatype IoUError =
    | DivisionByZero  // the union area was zero
    | NegativeIoU     // the closing assertion on the ratio failed

  /** The four stored coordinates: top-left corner (xtl, ytl), bottom-right corner (xbr, ybr). */
  datatype Box = Box(xtl: real, ytl: real, xbr: real, ybr: real) {

    /** The constructor invariant: a box never has its corners swapped on either axis. */
    predicate Valid() {
      xtl <= xbr && ytl <= ybr
    }

    function Width(): (w: real)
      requires Valid()
      ensures w >= 0.0
      ensures xtl + w == xbr
    {
      xbr - xtl
    }

    function Height(): (h: real)
      requires Valid()
      ensures h >= 0.0
      ensures ytl + h == ybr
    {
      ybr - ytl
    }

    function Area(): (a: real)
      requires Valid()
      ensures a >= 0.0
      ensures a == Width() * Height()
      ensures a == 0.0 <==> xtl == xbr || ytl == ybr
    {
      (xbr - xtl) * (ybr - ytl)
    }
  }

  /** The boxes that can exist: those the constructor accepts. */
  type ValidBox = b: Box | b.Valid() witness Box(0.0, 0.0, 0.0, 0.0)

  /** The closed region of a box contains the point (x, y); its edges belong to it. */
  predicate Contains(b: Box, x: real, y: real) {
    b.xtl <= x <= b.xbr && b.ytl <= y <= b.ybr
  }

  /** `outer` encloses `inner`, comparing coordinates. */
  predicate Encloses(outer: Box, inner: Box) {
    outer.xtl <= inner.xtl && inner.xbr <= outer.xbr &&
    outer.ytl <= inner.ytl && inner.ybr <= outer.ybr
  }

  function Min(u: real, v: real): real {
    if v < u then v else u
  }

  function Max(u: real, v: real): real {
    if v > u then v else u
  }

  /**
    The constructor: it fails on the first of its two assertions that is violated and
    otherwise stores the four coordinates as given.
   */
  function MakeBox(xtl: real, ytl: real, xbr: real, ybr: real): (r: Result<ValidBox, BoxError>)
    ensures r.Ok? <==> xtl <= xbr && ytl <= ybr
    ensures r.Ok? ==> r.value.xtl == xtl && r.value.ytl == ytl && r.value.xbr == xbr && r.value.ybr == ybr
    ensures r.Err? ==> (r.error == XOrderViolated <==> xtl > xbr)
  {
    if !(xtl <= xbr) then Err(XOrderViolated)
    else if !(ytl <= ybr) then Err(YOrderViolated)
    else Ok(Box(xtl, ytl, xbr, ybr))
  }

  /** Every existing box is rebuilt unchanged from its own coordinates. */
  lemma MakeBoxOfValid(b: ValidBox)
    ensures MakeBox(b.xtl, b.ytl, b.xbr, b.ybr) == Ok(b)
  {
  }

  /** The four-comparison overlap test; boxes that only touch along an edge or a corner intersect. */
  function IsIntersecting(box1: ValidBox, box2: ValidBox): (r: bool)
    ensures r <==> Max(box1.xtl, box2.xtl) <= Min(box1.xbr, box2.xbr) &&
                   Max(box1.ytl, box2.ytl) <= Min(box1.ybr, box2.ybr)
  {
    if box1.xtl > box2.xbr then false       // box1 is right of box2
    else if box2.xtl > box1.xbr then false  // box1 is left of box2
    else if box1.ybr < box2.ytl then false  // box1 is above box2
    else if box1.ytl > box2.ybr then false  // box1 is below box2
    else true
  }

  lemma IsIntersectingSymmetric(a: ValidBox, b: ValidBox)
    ensures IsIntersecting(a, b) == IsIntersecting(b, a)
  {
  }

  /** The test agrees with geometry: it holds exactly when the two closed regions share a point. */
  lemma IsIntersectingIffCommonPoint(a: ValidBox, b: ValidBox)
    ensures IsIntersecting(a, b) <==> exists x, y :: Contains(a, x, y) && Contains(b, x, y)
  {
    if IsIntersecting(a, b) {
      var x, y := Max(a.xtl, b.xtl), Max(a.ytl, b.ytl);
      assert Contains(a, x, y) && Contains(b, x, y);
    }
  }

  /** Coordinate enclosure is region enclosure. */
  lemma EnclosesIffRegions(outer: Box, inner: ValidBox)
    ensures Encloses(outer, inner) <==>
            forall x, y :: Contains(inner, x, y) ==> Contains(outer, x, y)
  {
    if forall x, y :: Contains(inner, x, y) ==> Contains(outer, x, y) {
      assert Contains(inner, inner.xtl, inner.ytl);
      assert Contains(inner, inner.xbr, inner.ybr);
    }
  }

  /**
    The overlap rectangle. As in the Python module it is not guarded: on boxes that do not
    intersect, the constructor rejects the coordinates it computes.
   */
  function Intersection(box1: ValidBox, box2: ValidBox): (r: Result<ValidBox, BoxError>)
    ensures r.Ok? <==> IsIntersecting(box1, box2)
    ensures r.Ok? ==> Encloses(box1, r.value) && Encloses(box2, r.value)
  {
    MakeBox(Max(box1.xtl, box2.xtl), Max(box1.ytl, box2.ytl),
            Min(box1.xbr, box2.xbr), Min(box1.ybr, box2.ybr))
  }

  /** The intersection is exactly the set of points in both boxes. */
  lemma IntersectionIsCommonRegion(a: ValidBox, b: ValidBox, x: real, y: real)
    requires IsIntersecting(a, b)
    ensures Contains(Intersection(a, b).value, x, y) <==> Contains(a, x, y) && Contains(b, x, y)
  {
  }

  /** The intersection is the largest box enclosed by both. */
  lemma IntersectionIsGreatest(a: ValidBox, b: ValidBox, c: Box)
    requires IsIntersecting(a, b)
    ensures Encloses(a, c) && Encloses(b, c) <==> Encloses(Intersection(a, b).value, c)
  {
  }

  lemma IntersectionCommutative(a: ValidBox, b: ValidBox)
    ensures Intersection(a, b) == Intersection(b, a)
  {
  }

  lemma IntersectionIdempotent(a: ValidBox)
    ensures Intersection(a, a) == Ok(a)
  {
  }

  /** Product monotonicity for non-negative factors. */
  lemma MulMono(p: real, q: real, r: real, s: real)
    requires 0.0 <= p <= r && 0.0 <= q <= s
    ensures p * q <= r * s
  {
    assert p * q <= r * q by {
      assert (r - p) * q >= 0.0;
    }
    assert r * q <= r * s by {
      assert r * (s - q) >= 0.0;
    }
  }

  /** A box inside another has no more area. */
  lemma EnclosedAreaBound(outer: ValidBox, inner: ValidBox)
    requires Encloses(outer, inner)
    ensures inner.Area() <= outer.Area()
  {
    MulMono(inner.Width(), inner.Height(), outer.Width(), outer.Height());
  }

  /** A box inside another with the same positive area is that box. */
  lemma EnclosedSameArea(outer: ValidBox, inner: ValidBox)
    requires Encloses(outer, inner)
    requires inner.Area() == outer.Area() > 0.0
    ensures inner == outer
  {
    ProductsEqual(inner.Width(), inner.Height(), outer.Width(), outer.Height());
  }

  /** Equal positive products of ordered non-negative factors have equal factors. */
  lemma ProductsEqual(wi: real, hi: real, wo: real, ho: real)
    requires 0.0 <= wi <= wo && 0.0 <= hi <= ho
    requires wi * hi == wo * ho > 0.0
    ensures wi == wo && hi == ho
  {
    assert wo > 0.0 && ho > 0.0;
    if wi < wo {
      MulMono(wi, hi, wi, ho);
      MulStrict(wi, wo, ho);
      assert false;
    }
    if hi < ho {
      MulStrict(hi, ho, wo);
      assert false;
    }
  }

  /** Strict product monotonicity in the first factor. */
  lemma MulStrict(p: real, r: real, q: real)
    requires 0.0 <= p < r && q > 0.0
    ensures p * q < r * q
  {
    assert r * q - p * q == (r - p) * q;
  }

  /** The intersection has no more area than either box. */
  lemma IntersectionAreaBound(a: ValidBox, b: ValidBox)
    requires IsIntersecting(a, b)
    ensures Intersection(a, b).value.Area() <= a.Area()
    ensures Intersection(a, b).value.Area() <= b.Area()
  {
    EnclosedAreaBound(a, Intersection(a, b).value);
    EnclosedAreaBound(b, Intersection(a, b).value);
  }

  /** The bounding rectangle of both boxes; it always exists. */
  function Union(box1: ValidBox, box2: ValidBox): (r: ValidBox)
    ensures Encloses(r, box1) && Encloses(r, box2)
  {
    // The constructor's two assertions always hold here: min <= max on each axis.
    Box(Min(box1.xtl, box2.xtl), Min(box1.ytl, box2.ytl),
        Max(box1.xbr, box2.xbr), Max(box1.ybr, box2.ybr))
  }

  /** The bounding rectangle is the smallest box enclosing both. */
  lemma UnionIsLeast(a: ValidBox, b: ValidBox, c: Box)
    ensures Encloses(c, a) && Encloses(c, b) <==> Encloses(c, Union(a, b))
  {
  }

  lemma UnionCommutative(a: ValidBox, b: ValidBox)
    ensures Union(a, b) == Union(b, a)
  {
  }

  lemma UnionIdempotent(a: ValidBox)
    ensures Union(a, a) == a
  {
  }

  /**
    The set-theoretic union area by inclusion-exclusion. A supplied overlap area is
    used as given, without validation; when it is absent the intersection is computed,
    which fails on boxes that do not intersect.
   */
  function UnionAreas(box1: ValidBox, box2: ValidBox, intersectionArea: Option<real>): (r: Result<real, BoxError>)
    ensures intersectionArea.Some? ==> r == Ok(box1.Area() + box2.Area() - intersectionArea.value)
    ensures intersectionArea.None? ==> (r.Ok? <==> IsIntersecting(box1, box2))
  {
    match intersectionArea
    case Some(i) => Ok(box1.Area() + box2.Area() - i)
    case None =>
      match Intersection(box1, box2)
      case Ok(overlap) => Ok(box1.Area() + box2.Area() - overlap.Area())
      case Err(e) => Err(e)
  }

  /** Omitting the overlap area is the same as passing the true one. */
  lemma UnionAreasDefault(a: ValidBox, b: ValidBox)
    requires IsIntersecting(a, b)
    ensures UnionAreas(a, b, None) == UnionAreas(a, b, Some(Intersection(a, b).value.Area()))
  {
  }

  /** With the true overlap, the union area lies between the larger area and the sum of both. */
  lemma UnionAreasBounds(a: ValidBox, b: ValidBox)
    requires IsIntersecting(a, b)
    ensures UnionAreas(a, b, None).value >= a.Area()
    ensures UnionAreas(a, b, None).value >= b.Area()
    ensures UnionAreas(a, b, None).value <= a.Area() + b.Area()
  {
    IntersectionAreaBound(a, b);
  }

  lemma UnionAreasSymmetric(a: ValidBox, b: ValidBox)
    ensures UnionAreas(a, b, None) == UnionAreas(b, a, None)
  {
    IntersectionCommutative(a, b);
  }

  /**
    The bounding rectangle exceeds the true union area a + b - i by exactly
    (wa - wi) * (hb - hi) + (wb - wi) * (ha - hi), where w and h are the widths and
    heights of a, b and their intersection i; both terms are non-negative.
   */
  lemma UnionAreaSlack(a: ValidBox, b: ValidBox)
    requires IsIntersecting(a, b)
    ensures var i := Intersection(a, b).value;
            Union(a, b).Area() - (a.Area() + b.Area() - i.Area()) ==
            (a.Width() - i.Width()) * (b.Height() - i.Height()) +
            (b.Width() - i.Width()) * (a.Height() - i.Height())
  {
    UnionIntersectionExtents(a, b);
    SlackIdentity(a, b, Intersection(a, b).value, Union(a, b));
  }

  /** Along each axis the bounding and overlap extents add up to the two boxes' extents. */
  lemma UnionIntersectionExtents(a: ValidBox, b: ValidBox)
    requires IsIntersecting(a, b)
    ensures Union(a, b).Width() + Intersection(a, b).value.Width() == a.Width() + b.Width()
    ensures Union(a, b).Height() + Intersection(a, b).value.Height() == a.Height() + b.Height()
  {
  }

  /** The algebra behind UnionAreaSlack. */
  lemma SlackIdentity(a: ValidBox, b: ValidBox, i: ValidBox, u: ValidBox)
    requires u.Width() + i.Width() == a.Width() + b.Width()
    requires u.Height() + i.Height() == a.Height() + b.Height()
    ensures u.Area() - (a.Area() + b.Area() - i.Area()) ==
            (a.Width() - i.Width()) * (b.Height() - i.Height()) +
            (b.Width() - i.Width()) * (a.Height() - i.Height())
  {
  }

  /** The bounding rectangle never has less area than the union of the two boxes. */
  lemma UnionAreaCoversUnionAreas(a: ValidBox, b: ValidBox)
    requires IsIntersecting(a, b)
    ensures Union(a, b).Area() >= UnionAreas(a, b, None).value
  {
    var i, u := Intersection(a, b).value, Union(a, b);
    assert u.Area() >= a.Area() + b.Area() - i.Area() by {
      UnionIntersectionExtents(a, b);
      SlackNonNegative(a, b, i, u);
    }
    assert UnionAreas(a, b, None).value == a.Area() + b.Area() - i.Area();
  }

  lemma SlackNonNegative(a: ValidBox, b: ValidBox, i: ValidBox, u: ValidBox)
    requires u.Width() + i.Width() == a.Width() + b.Width()
    requires u.Height() + i.Height() == a.Height() + b.Height()
    requires Encloses(a, i) && Encloses(b, i)
    ensures u.Area() >= a.Area() + b.Area() - i.Area()
  {
    var p1 := (a.Width() - i.Width()) * (b.Height() - i.Height());
    var p2 := (b.Width() - i.Width()) * (a.Height() - i.Height());
    assert p1 >= 0.0 by { ProductNonNegative(a.Width() - i.Width(), b.Height() - i.Height()); }
    assert p2 >= 0.0 by { ProductNonNegative(b.Width() - i.Width(), a.Height() - i.Height()); }
    assert u.Area() - (a.Area() + b.Area() - i.Area()) == p1 + p2 by { SlackIdentity(a, b, i, u); }
  }

  lemma ProductNonNegative(p: real, q: real)
    requires p >= 0.0 && q >= 0.0
    ensures p * q >= 0.0
  {
  }

  /**
    Intersection over union: 0 for boxes that do not intersect (the intersection is
    then never built), otherwise overlap area divided by union area. A zero union
    area makes the division fail; the final non-negativity assertion is kept.
   */
  function IntersectionOverUnion(box1: ValidBox, box2: ValidBox): (r: Result<real, IoUError>)
    ensures !IsIntersecting(box1, box2) ==> r == Ok(0.0)
    ensures r.Ok? ==> r.value >= 0.0
    ensures IsIntersecting(box1, box2) && r.Ok? ==>
            UnionAreas(box1, box2, None).value > 0.0 &&
            r.value == Intersection(box1, box2).value.Area() / UnionAreas(box1, box2, None).value
  {
    if !IsIntersecting(box1, box2) then Ok(0.0)
    else
      var intersectionArea := Intersection(box1, box2).value.Area();
      var union := UnionAreas(box1, box2, Some(intersectionArea)).value;
      if union == 0.0 then Err(DivisionByZero)
      else
        var iou := intersectionArea / union;
        if iou < 0.0 then Err(NegativeIoU) else Ok(iou)
  }

  /**
    The ratio is undefined exactly when two intersecting boxes both have zero area;
    the non-negativity assertion never fails.
   */
  lemma IoUUndefinedIff(a: ValidBox, b: ValidBox)
    ensures IntersectionOverUnion(a, b).Err? <==>
            IsIntersecting(a, b) && a.Area() == 0.0 && b.Area() == 0.0
    ensures IntersectionOverUnion(a, b) != Err(NegativeIoU)
  {
    if IsIntersecting(a, b) {
      var i := Intersection(a, b).value.Area();
      UnionAreasBounds(a, b);
      var u := a.Area() + b.Area() - i;
      if u != 0.0 {
        assert u > 0.0;
        assert i / u >= 0.0;
      }
    }
  }

  /** The ratio lies in [0, 1]. */
  lemma IoUBounds(a: ValidBox, b: ValidBox)
    ensures IntersectionOverUnion(a, b).Ok? ==>
            0.0 <= IntersectionOverUnion(a, b).value <= 1.0
  {
    if IsIntersecting(a, b) && IntersectionOverUnion(a, b).Ok? {
      var i := Intersection(a, b).value.Area();
      IntersectionAreaBound(a, b);
      var u := a.Area() + b.Area() - i;
      assert u > 0.0 && i <= u;
      assert i / u <= 1.0 by {
        assert i / u * u == i;
      }
    }
  }

  lemma IoUSymmetric(a: ValidBox, b: ValidBox)
    ensures IntersectionOverUnion(a, b) == IntersectionOverUnion(b, a)
  {
    IsIntersectingSymmetric(a, b);
    IntersectionCommutative(a, b);
  }

  /** The ratio is 1 exactly for two equal boxes of positive area. */
  lemma IoUOneIff(a: ValidBox, b: ValidBox)
    ensures IntersectionOverUnion(a, b) == Ok(1.0) <==> a == b && a.Area() > 0.0
  {
    if a == b && a.Area() > 0.0 {
      IntersectionIdempotent(a);
    }
    if IntersectionOverUnion(a, b) == Ok(1.0) {
      var ib := Intersection(a, b).value;
      var i := ib.Area();
      IntersectionAreaBound(a, b);
      var u := a.Area() + b.Area() - i;
      assert u != 0.0 && i / u == 1.0;
      assert i == u;
      assert i == a.Area() && i == b.Area();
      EnclosedSameArea(a, ib);
      EnclosedSameArea(b, ib);
    }
  }

  /** Worked cases: touching, disjoint, identical and partially overlapping boxes. */
  lemma Examples()
    ensures IsIntersecting(Box(0.0, 0.0, 1.0, 1.0), Box(1.0, 0.0, 2.0, 1.0))
    ensures !IsIntersecting(Box(0.0, 0.0, 1.0, 1.0), Box(2.0, 2.0, 3.0, 3.0))
    ensures IntersectionOverUnion(Box(0.0, 0.0, 1.0, 1.0), Box(2.0, 2.0, 3.0, 3.0)) == Ok(0.0)
    ensures IntersectionOverUnion(Box(0.0, 0.0, 2.0, 2.0), Box(0.0, 0.0, 2.0, 2.0)) == Ok(1.0)
    ensures IntersectionOverUnion(Box(0.0, 0.0, 2.0, 2.0), Box(1.0, 1.0, 3.0, 3.0)) == Ok(1.0 / 7.0)
    ensures MakeBox(5.0, 0.0, 1.0, 1.0) == Err(XOrderViolated)
    ensures MakeBox(0.0, 5.0, 1.0, 1.0) == Err(YOrderViolated)
    ensures IntersectionOverUnion(Box(1.0, 1.0, 1.0, 1.0), Box(1.0, 1.0, 1.0, 1.0)) == Err(DivisionByZero)
  {
  }
}
