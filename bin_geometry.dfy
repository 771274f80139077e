/**
 * The bin-level geometry of Bin.java that does not depend on the free-space
 * structure: the bin's own overlap test, the bounds and overlap checks of
 * `isFeasible`, the occupied area, the touching perimeter and the
 * corner distance used by the heuristics.
 */
module BinGeometry {
  import opened Rects

  /**
   * `Bin.isOverlapping(r1, r2)`: the rects overlap unless one lies entirely to
   * one side of the other on some axis.
   */
  predicate Overlapping(r1: Rect, r2: Rect)
    ensures Overlapping(r1, r2) <==> ProjectionsOverlap(r1, r2)
  {
    var horizSkip := r1.x >= r2.x + r2.width || r1.x + r1.width <= r2.x;
    var vertSkip := r1.y >= r2.y + r2.height || r1.y + r1.height <= r2.y;
    !(horizSkip || vertSkip)
  }

  /**
   * The bin's overlap test is symmetric, is implied by `Rect.isOverlapping`
   * and agrees with it on rects of positive size.
   */
  lemma OverlappingAgrees(r1: Rect, r2: Rect)
    ensures Overlapping(r1, r2) <==> ProjectionsOverlap(r1, r2)
    ensures Overlapping(r1, r2) == Overlapping(r2, r1)
    ensures IsOverlapping(r1, r2) ==> Overlapping(r1, r2)
    ensures HasPositiveSize(r1) && HasPositiveSize(r2) ==> (Overlapping(r1, r2) == IsOverlapping(r1, r2))
  {
  }

  /** The bounds test `isFeasible` applies to each packed rect. */
  predicate InsideBin(r: Rect, binWidth: int, binHeight: int) {
    !(r.x < 0 || r.x > binWidth)
    && !(r.y < 0 || r.y > binHeight)
    && !(r.x + r.width > binWidth || r.y + r.height > binHeight)
  }

  /**
   * What `Bin.isFeasible` accepts: every packed rect lies within the bin and
   * no two packed rects overlap.
   */
  predicate PackingFeasible(packed: seq<Rect>, binWidth: int, binHeight: int)
    ensures PackingFeasible(packed, binWidth, binHeight) ==>
      forall i :: 0 <= i < |packed| && packed[i].width >= 0 && packed[i].height >= 0 ==>
        IsContainedIn(packed[i], NewRect(binWidth, binHeight).(x := 0, y := 0))
    ensures PackingFeasible(packed, binWidth, binHeight) ==>
      forall i, j ::
        0 <= i < |packed| && 0 <= j < |packed| && i != j && HasPositiveSize(packed[i]) && HasPositiveSize(packed[j])
        ==> !ProjectionsOverlap(packed[i], packed[j])
  {
    (forall i :: 0 <= i < |packed| ==> InsideBin(packed[i], binWidth, binHeight))
    && (forall i, j :: 0 <= i < j < |packed| ==> !IsOverlapping(packed[i], packed[j]))
  }

  /** The area a rect occupies, computed from its sides. */
  function Area(r: Rect): int { r.width * r.height }

  /** Sum of the areas of `rs`, the value `occupiedArea` caches. */
  function AreaSum(rs: seq<Rect>): int {
    if rs == [] then 0 else AreaSum(rs[..|rs| - 1]) + Area(rs[|rs| - 1])
  }

  lemma {:induction false} AreaSumNonNegative(rs: seq<Rect>)
    requires forall r :: r in rs ==> r.width >= 0 && r.height >= 0
    ensures AreaSum(rs) >= 0
  {
    if rs != [] {
      var last := rs[|rs| - 1];
      assert last in rs;
      assert Area(last) >= 0 by {
        assert last.width >= 0 && last.height >= 0;
      }
      AreaSumNonNegative(rs[..|rs| - 1]);
    }
  }

  /** Rects of positive size occupy a positive area as soon as there is one. */
  lemma {:induction false} AreaSumPositive(rs: seq<Rect>)
    requires forall r :: r in rs ==> HasPositiveSize(r)
    ensures rs == [] <==> AreaSum(rs) == 0
    ensures AreaSum(rs) >= 0
  {
    if rs != [] {
      var last := rs[|rs| - 1];
      assert last in rs;
      assert Area(last) > 0 by {
        assert last.width > 0 && last.height > 0;
      }
      forall r | r in rs[..|rs| - 1] ensures HasPositiveSize(r) {
        assert r in rs;
      }
      AreaSumPositive(rs[..|rs| - 1]);
    }
  }

  /** Length a rect at (x, y) of the given size shares with the bin's walls. */
  function WallContact(binWidth: int, binHeight: int, x: int, y: int, width: int, height: int): int {
    (if x == 0 || x + width == binWidth then height else 0)
    + (if y == 0 || y + height == binHeight then width else 0)
  }

  /** Length a rect at (x, y) of the given size shares with the edges of `p`. */
  function ContactWith(p: Rect, x: int, y: int, width: int, height: int): int {
    (if p.x + p.width == x || x + width == p.x then CommonLength(y, y + height, p.y, p.y + p.height) else 0)
    + (if p.y == y + height || p.y + p.height == y then CommonLength(x, x + width, p.x, p.x + p.width) else 0)
  }

  /** Total contact with the packed rects, accumulated in list order. */
  function Contacts(packed: seq<Rect>, x: int, y: int, width: int, height: int): (c: int)
    ensures width >= 0 && height >= 0 && (forall p :: p in packed ==> p.width >= 0 && p.height >= 0) ==> c >= 0
  {
    if packed == [] then 0
    else
      assert forall p :: p in packed[..|packed| - 1] ==> p in packed;
      Contacts(packed[..|packed| - 1], x, y, width, height) + ContactWith(packed[|packed| - 1], x, y, width, height)
  }

  /** The touching perimeter `computeTouchingPerimeter` returns. */
  function TouchingPerimeterOf(packed: seq<Rect>, binWidth: int, binHeight: int,
                               x: int, y: int, width: int, height: int): (r: int)
    ensures width >= 0 && height >= 0 && (forall p :: p in packed ==> p.width >= 0 && p.height >= 0) ==> r >= 0
    ensures packed == [] && 0 < x && x + width < binWidth && 0 < y && y + height < binHeight ==> r == 0
  {
    WallContact(binWidth, binHeight, x, y, width, height) + Contacts(packed, x, y, width, height)
  }

  /**
   * In an empty bin a rect at the origin touches the left and bottom walls:
   * its height is counted once and its width once.
   */
  lemma TouchingPerimeterAtEmptyOrigin(binWidth: int, binHeight: int, width: int, height: int)
    ensures TouchingPerimeterOf([], binWidth, binHeight, 0, 0, width, height) == width + height
  {
  }

  /**
   * `computeDistance` without the square root: the heuristic only compares
   * distances, and the square root does not change their order.
   */
  function SquaredDistance(x1: int, y1: int, x2: int, y2: int): (r: int)
    ensures r >= 0
    ensures r == 0 <==> x1 == x2 && y1 == y2
  {
    var dx, dy := x1 - x2, y1 - y2;
    assert dx * dx >= 0 && dy * dy >= 0;
    assert dx != 0 ==> dx * dx > 0;
    assert dy != 0 ==> dy * dy > 0;
    dx * dx + dy * dy
  }
}
