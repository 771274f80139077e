/**
 * The rectangle primitive of the packer: an item or a free space inside a bin,
 * with integer geometry (containment, overlap, shared edge lengths).
 *
 * The source's Rect is a mutable object, but every Rect a bin stores is a
 * fresh copy, so it is modelled as a value; `rotate` and `removePackingInfo`
 * return the updated value instead of changing it in place.
 */
module Rects {

  /** A heuristic score; `Unscored` is the positive infinity a rect holds before it is scored. */
  datatype Score = Unscored | Scored(value: int)

  /**
   * `width` lies along the x-axis and `height` along the y-axis; `area` is fixed
   * when the rect is first built and copied, never recomputed; `(x, y)` is the
   * bottom-left corner inside a bin, -1 while the rect is not placed.
   */
  datatype Rect = Rect(width: int, height: int, area: int, x: int, y: int, score: Score)

  /** The coordinate of a rect that has no position in a bin yet. */
  const Unplaced: int := -1

  /** A rect whose area field agrees with its sides. */
  predicate AreaConsistent(r: Rect) {
    r.area == r.width * r.height
  }

  /** A position in a bin has been chosen for `r`. */
  predicate IsReadyForPacking(r: Rect)
    ensures r.x >= 0 && r.y >= 0 ==> IsReadyForPacking(r)
    ensures r.x == Unplaced || r.y == Unplaced ==> !IsReadyForPacking(r)
  {
    r.x != Unplaced && r.y != Unplaced
  }

  /** `new Rect(width, height)`: sized, unplaced and unscored. */
  function NewRect(width: int, height: int): (r: Rect)
    ensures r.width == width && r.height == height
    ensures AreaConsistent(r) && r.x == Unplaced && r.y == Unplaced && r.score == Unscored
  {
    Rect(width, height, width * height, Unplaced, Unplaced, Unscored)
  }

  /** `new Rect()`: the degenerate rect. */
  function DegenerateRect(): (r: Rect)
    ensures IsDegenerate(r) && !IsReadyForPacking(r) && r.area == 0
  {
    NewRect(0, 0)
  }

  /** The rect reduces to a line or a point. */
  predicate IsDegenerate(r: Rect)
    ensures HasPositiveSize(r) ==> !IsDegenerate(r)
    ensures r.width >= 0 && r.height >= 0 ==> (IsDegenerate(r) <==> !HasPositiveSize(r))
  {
    r.width == 0 || r.height == 0 || (r.width == 0 && r.height == 0)
  }

  /** `removePackingInfo`: forget the position and the score. */
  function RemovePackingInfo(r: Rect): (r': Rect)
    ensures r'.x == Unplaced && r'.y == Unplaced && r'.score == Unscored && !IsReadyForPacking(r')
    ensures r'.width == r.width && r'.height == r.height && r'.area == r.area
  {
    r.(x := Unplaced, y := Unplaced, score := Unscored)
  }

  /** `rotate`: swap the two sides; the position, the score and the stored area stay. */
  function Rotate(r: Rect): (r': Rect)
    ensures r'.width == r.height && r'.height == r.width
    ensures r'.x == r.x && r'.y == r.y && r'.area == r.area && r'.score == r.score
  {
    r.(width := r.height, height := r.width)
  }

  /** Length of the intersection of the two x-projections, negative when they are apart. */
  function CommonHorizLength(a: Rect, b: Rect): (r: int)
    ensures r <= a.width && r <= b.width
    ensures r > 0 ==> r == CommonLength(a.x, a.x + a.width, b.x, b.x + b.width)
  {
    Min(a.x + a.width, b.x + b.width) - Max(a.x, b.x)
  }

  /** Length of the intersection of the two y-projections, negative when they are apart. */
  function CommonVertLength(a: Rect, b: Rect): (r: int)
    ensures r <= a.height && r <= b.height
    ensures r > 0 ==> r == CommonLength(a.y, a.y + a.height, b.y, b.y + b.height)
  {
    Min(a.y + a.height, b.y + b.height) - Max(a.y, b.y)
  }

  /** `a.isContainedIn(b)`: `a` lies inside `b`; an equal rect counts as contained. */
  predicate IsContainedIn(a: Rect, b: Rect)
    ensures IsContainedIn(a, b) ==> a.width <= b.width && a.height <= b.height
    ensures IsContainedIn(a, b) && HasPositiveSize(a) ==> HasPositiveSize(b) && ProjectionsOverlap(a, b)
  {
    a.x >= b.x && a.y >= b.y
    && a.x + a.width <= b.x + b.width
    && a.y + a.height <= b.y + b.height
  }

  /**
   * The length shared by the intervals [s1, e1] and [s2, e2]: zero when they are
   * disjoint or only touch.
   */
  function CommonLength(s1: int, e1: int, s2: int, e2: int): (r: int)
    ensures s2 >= e1 || e2 <= s1 ==> r == 0
    ensures s1 <= e1 && s2 <= e2 ==> r == Max(0, Min(e1, e2) - Max(s1, s2))
    ensures s1 <= e1 && s2 <= e2 ==> r >= 0
    ensures s1 < e1 && s2 < e2 ==> (r > 0 <==> s2 < e1 && s1 < e2)
  {
    if s2 >= e1 || e2 <= s1 then 0 else Min(e1, e2) - Max(s1, s2)
  }

  /** Both projections of the two rects share a stretch of positive length. */
  predicate ProjectionsOverlap(a: Rect, b: Rect) {
    a.x < b.x + b.width && b.x < a.x + a.width
    && a.y < b.y + b.height && b.y < a.y + a.height
  }

  predicate HasPositiveSize(r: Rect) {
    r.width > 0 && r.height > 0
  }

  /**
   * `a.isOverlapping(b)`: the two rects share interior; for rects of positive
   * size this is exactly the overlap of both projections, so rects that share
   * only an edge or a corner do not overlap.
   */
  predicate IsOverlapping(a: Rect, b: Rect)
    ensures IsOverlapping(a, b) ==> ProjectionsOverlap(a, b)
    ensures HasPositiveSize(a) && HasPositiveSize(b) ==> (IsOverlapping(a, b) <==> ProjectionsOverlap(a, b))
  {
    if !(a.x >= b.x + b.width || a.x + a.width <= b.x) then
      CommonLength(a.y, a.y + a.height, b.y, b.y + b.height) > 0
    else if !(a.y >= b.y + b.height || a.y + a.height <= b.y) then
      CommonLength(a.x, a.x + a.width, b.x, b.x + b.width) > 0
    else
      false
  }

  /**
   * `isTouching`: `r` has an edge on the vertical or horizontal segment from
   * (x1, y1) to (x2, y2), sharing a stretch of positive length with it; a
   * segment that is neither vertical nor horizontal touches nothing.
   */
  predicate IsTouching(r: Rect, x1: int, y1: int, x2: int, y2: int)
    ensures IsTouching(r, x1, y1, x2, y2) ==> x1 == x2 || y1 == y2
    ensures IsTouching(r, x1, y1, x2, y2) && x1 == x2 ==> r.x == x1 || r.x + r.width == x1
    ensures IsTouching(r, x1, y1, x2, y2) && x1 != x2 ==> r.y == y1 || r.y + r.height == y1
    ensures x1 == x2 && y1 < y2 && HasPositiveSize(r) ==>
      (IsTouching(r, x1, y1, x2, y2) <==> (r.x == x1 || r.x + r.width == x1) && y1 < r.y + r.height && r.y < y2)
    ensures y1 == y2 && x1 < x2 && HasPositiveSize(r) ==>
      (IsTouching(r, x1, y1, x2, y2) <==> (r.y == y1 || r.y + r.height == y1) && x1 < r.x + r.width && r.x < x2)
  {
    if x1 == x2 then
      (r.x == x1 || r.x + r.width == x1) && CommonLength(y1, y2, r.y, r.y + r.height) > 0
    else if y1 == y2 then
      (r.y == y1 || r.y + r.height == y1) && CommonLength(x1, x2, r.x, r.x + r.width) > 0
    else
      false
  }

  /** `equals`: same corner and same sides; the score and the stored area are ignored. */
  predicate Equals(a: Rect, b: Rect)
    ensures Equals(a, b) <==> a.(area := b.area, score := b.score) == b
  {
    a.x == b.x && a.y == b.y && a.width == b.width && a.height == b.height
  }

  /** Java's 32-bit two's-complement wrap-around of an integer result. */
  function Wrap32(v: int): (r: int)
    ensures -0x8000_0000 <= r < 0x8000_0000
    ensures (r - v) % 0x1_0000_0000 == 0
  {
    (v + 0x8000_0000) % 0x1_0000_0000 - 0x8000_0000
  }

  /** `hashCode`, computed in 32-bit arithmetic from the four fields `equals` compares. */
  function HashCode(r: Rect): (h: int)
    ensures -0x8000_0000 <= h < 0x8000_0000
  {
    var h0 := 7;
    var h1 := Wrap32(79 * h0 + r.width);
    var h2 := Wrap32(79 * h1 + r.height);
    var h3 := Wrap32(79 * h2 + r.x);
    Wrap32(79 * h3 + r.y)
  }

  function Min(a: int, b: int): int { if a <= b then a else b }
  function Max(a: int, b: int): int { if a >= b then a else b }

  // ---------------------------------------------------------------- lemmas

  /** Rotating twice restores the rect; rotation keeps the area consistent. */
  lemma RotateTwice(r: Rect)
    ensures Rotate(Rotate(r)) == r
    ensures AreaConsistent(r) ==> AreaConsistent(Rotate(r))
  {
  }

  /** `removePackingInfo` brings a placed rect back to the state `new Rect(w, h)` creates. */
  lemma RemovePackingInfoRestoresNew(r: Rect)
    requires AreaConsistent(r)
    ensures RemovePackingInfo(r) == NewRect(r.width, r.height)
  {
  }

  /** Containment is reflexive and transitive. */
  lemma ContainedInReflexive(a: Rect)
    ensures IsContainedIn(a, a)
  {
  }

  lemma ContainedInTransitive(a: Rect, b: Rect, c: Rect)
    requires IsContainedIn(a, b) && IsContainedIn(b, c)
    ensures IsContainedIn(a, c)
  {
  }

  /** Mutual containment is exactly `equals`. */
  lemma MutualContainmentIsEquals(a: Rect, b: Rect)
    ensures IsContainedIn(a, b) && IsContainedIn(b, a) <==> Equals(a, b)
  {
  }

  /** `computeCommonLength` does not depend on the order of the two intervals. */
  lemma CommonLengthSymmetric(s1: int, e1: int, s2: int, e2: int)
    ensures CommonLength(s1, e1, s2, e2) == CommonLength(s2, e2, s1, e1)
  {
  }

  /**
   * The unclamped common lengths are symmetric and, for rects of positive size,
   * positive exactly when the corresponding projections overlap.
   */
  lemma CommonProjectionLengths(a: Rect, b: Rect)
    ensures CommonHorizLength(a, b) == CommonHorizLength(b, a)
    ensures CommonVertLength(a, b) == CommonVertLength(b, a)
    ensures HasPositiveSize(a) && HasPositiveSize(b) ==>
      (CommonHorizLength(a, b) > 0 <==> a.x < b.x + b.width && b.x < a.x + a.width)
    ensures HasPositiveSize(a) && HasPositiveSize(b) ==>
      (CommonVertLength(a, b) > 0 <==> a.y < b.y + b.height && b.y < a.y + a.height)
  {
  }

  /** `isOverlapping` is symmetric. */
  lemma OverlappingSymmetric(a: Rect, b: Rect)
    ensures IsOverlapping(a, b) == IsOverlapping(b, a)
  {
    CommonLengthSymmetric(a.y, a.y + a.height, b.y, b.y + b.height);
    CommonLengthSymmetric(a.x, a.x + a.width, b.x, b.x + b.width);
  }

  /** A rect that lies inside `b` only overlaps what `b` overlaps. */
  lemma ContainedDoesNotOverlap(a: Rect, b: Rect, c: Rect)
    requires IsContainedIn(a, b) && !ProjectionsOverlap(b, c)
    ensures !ProjectionsOverlap(a, c) && !IsOverlapping(a, c)
  {
  }

  /** Equal rects have equal hash codes. */
  lemma EqualsHashCode(a: Rect, b: Rect)
    requires Equals(a, b)
    ensures HashCode(a) == HashCode(b)
  {
  }
}
