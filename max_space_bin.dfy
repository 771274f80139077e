/**
 * A bin that tracks its free space as a list of maximal free rects
 * (Bin.java together with its one concrete subclass, MaxSpaceBin.java).
 */
module MaxSpaceBins {
  import opened Options
  import opened Rects
  import opened BinGeometry
  import opened Heuristics
  import opened FreeSpace

  /** `ArrayList.equals` over rects: same length and `equals` position by position. */
  predicate ListEquals(a: seq<Rect>, b: seq<Rect>) {
    |a| == |b| && forall k :: 0 <= k < |a| ==> Equals(a[k], b[k])
  }

  /** The free rect `setupFreeRects` starts from: the whole bin. */
  function WholeBin(binWidth: int, binHeight: int): (r: Rect)
    ensures r.x == 0 && r.y == 0 && r.width == binWidth && r.height == binHeight
  {
    NewRect(binWidth, binHeight).(x := 0, y := 0)
  }

  /** The item fits an empty bin in an allowed orientation. */
  predicate FitsBin(item: Rect, binWidth: int, binHeight: int, canRotate: bool) {
    (item.width <= binWidth && item.height <= binHeight)
    || (canRotate && item.height <= binWidth && item.width <= binHeight)
  }

  lemma AreaSumAppend(s: seq<Rect>, r: Rect)
    ensures AreaSum(s + [r]) == AreaSum(s) + Area(r)
  {
    assert (s + [r])[..|s|] == s;
  }

  lemma ContactsAppend(s: seq<Rect>, k: int, x: int, y: int, width: int, height: int)
    requires 0 <= k < |s|
    ensures Contacts(s[..k + 1], x, y, width, height) == Contacts(s[..k], x, y, width, height) + ContactWith(s[k], x, y, width, height)
  {
    assert s[..k + 1][..k] == s[..k];
  }

  /** A rect of positive size inside a free rect that lies within the bin passes the bounds test too. */
  lemma ContainedInsideBin(r: Rect, f: Rect, binWidth: int, binHeight: int)
    requires HasPositiveSize(r) && HasPositiveSize(f) && InsideBin(f, binWidth, binHeight)
    requires IsContainedIn(r, f)
    ensures InsideBin(r, binWidth, binHeight)
  {
  }

  class MaxSpaceBin {
    const binWidth: int
    const binHeight: int
    /** Cached total area of the packed rects. */
    var occupiedArea: int
    /** The packed rects, in packing order. */
    var packedRects: seq<Rect>
    /** The free maximal rects. */
    var freeRects: seq<Rect>

    /**
     * What every insert keeps, whatever it is given: the area cache is exact,
     * packed and free rects have positive size, free rects lie in the bin and
     * overlap no packed rect, and no free rect lies inside another one.
     */
    ghost predicate Valid()
      reads this
    {
      occupiedArea == AreaSum(packedRects)
      && (forall p :: p in packedRects ==> HasPositiveSize(p))
      && (forall f :: f in freeRects ==> HasPositiveSize(f) && InsideBin(f, binWidth, binHeight))
      && (forall f, p :: f in freeRects && p in packedRects ==> !Overlapping(f, p))
      && NoContainment(freeRects)
    }

    /** What `Bin.isFeasible` checks. */
    ghost predicate PackedFeasible()
      reads this
    {
      PackingFeasible(packedRects, binWidth, binHeight)
    }

    /** What `MaxSpaceBin.isFeasible` checks. */
    ghost predicate Feasible()
      reads this
    {
      PackedFeasible() && FreeRectsFeasible(freeRects)
    }

    /** `rect` lies inside one of the free rects. */
    ghost predicate InFreeSpace(rect: Rect)
      reads this
    {
      exists f :: f in freeRects && IsContainedIn(rect, f)
    }

    /** The result `evaluatePacking` returns for `item` in the current state. */
    function Evaluation(item: Rect, heuristic: PackingHeuristic, canRotate: bool): Option<Rect>
      reads this
    {
      Evaluate(Query(heuristic, freeRects, packedRects, binWidth, binHeight, item, canRotate))
    }

    /** The rect `insert` packs: a copy of a placed rect, otherwise the evaluated placement. */
    function PlacementFor(rect: Rect, heuristic: PackingHeuristic, canRotate: bool): Option<Rect>
      reads this
    {
      if IsReadyForPacking(rect) then Some(rect) else Evaluation(rect, heuristic, canRotate)
    }

    /** `size`: the number of packed items. */
    function Size(): (n: nat)
      reads this
      ensures n == 0 <==> packedRects == []
    {
      |packedRects|
    }

    /** In a valid bin the size is zero exactly when no area is occupied. */
    lemma SizeZeroIffNoArea()
      requires Valid()
      ensures Size() == 0 <==> occupiedArea == 0
      ensures occupiedArea >= 0
    {
      AreaSumPositive(packedRects);
    }

    /** `Bin.equals`: the same object, or equal packed lists and equal free lists. */
    predicate Equals(other: MaxSpaceBin)
      reads this, other
      ensures packedRects == other.packedRects && freeRects == other.freeRects ==> Equals(other)
      ensures Equals(other) ==> |packedRects| == |other.packedRects| && |freeRects| == |other.freeRects|
    {
      other == this || (ListEquals(packedRects, other.packedRects) && ListEquals(freeRects, other.freeRects))
    }

    /** A valid and packing-feasible bin passes `MaxSpaceBin.isFeasible`. */
    lemma ValidIsFeasible()
      requires Valid() && PackedFeasible()
      ensures Feasible()
    {
      NoContainmentIsFreeRectsFeasible(freeRects);
    }

    /**
     * A placement `evaluatePacking` returns in a valid bin can be handed to
     * `insert` as it is: it has positive size, is placed, lies in a free rect,
     * so `insert` packs that very rect; and the item fits an empty bin.
     */
    lemma EvaluationInsertable(item: Rect, heuristic: PackingHeuristic, canRotate: bool)
      requires Valid() && HasPositiveSize(item)
      requires Evaluation(item, heuristic, canRotate).Some?
      ensures var r := Evaluation(item, heuristic, canRotate).value;
        HasPositiveSize(r) && IsReadyForPacking(r) && InFreeSpace(r)
        && PlacementFor(r, heuristic, canRotate) == Some(r)
      ensures FitsBin(item, binWidth, binHeight, canRotate)
    {
      var q := Query(heuristic, freeRects, packedRects, binWidth, binHeight, item, canRotate);
      EvaluatePlacement(q);
      var f := freeRects[Choice(q).index];
      assert f in freeRects;
    }

    /** In a freshly initialised bin, an item is placed exactly when it fits the bin. */
    lemma EvaluationInEmptyBin(item: Rect, heuristic: PackingHeuristic, canRotate: bool)
      requires packedRects == [] && freeRects == [WholeBin(binWidth, binHeight)]
      requires item.width >= 0 && item.height >= 0
      ensures Evaluation(item, heuristic, canRotate).Some? <==> FitsBin(item, binWidth, binHeight, canRotate)
    {
      var q := Query(heuristic, freeRects, packedRects, binWidth, binHeight, item, canRotate);
      EvaluateNoneIffNothingFits(q);
      if item.width <= binWidth && item.height <= binHeight {
        assert Admissible(q, 0, false);
      } else if canRotate && item.height <= binWidth && item.width <= binHeight {
        assert Admissible(q, 0, true);
      }
    }

    constructor (binWidth: int, binHeight: int)
      ensures this.binWidth == binWidth && this.binHeight == binHeight
      ensures occupiedArea == 0 && packedRects == [] && freeRects == []
      ensures Valid()
    {
      this.binWidth := binWidth;
      this.binHeight := binHeight;
      occupiedArea := 0;
      packedRects := [];
      freeRects := [];
    }

    /** The copy constructor: a bin with the same dimensions, cache and lists, rect by rect. */
    constructor Copy(newBin: MaxSpaceBin)
      ensures binWidth == newBin.binWidth && binHeight == newBin.binHeight
      ensures occupiedArea == newBin.occupiedArea
      ensures packedRects == newBin.packedRects && freeRects == newBin.freeRects
      ensures Equals(newBin) && newBin.Equals(this)
      ensures newBin.Valid() ==> Valid()
      ensures newBin.Feasible() ==> Feasible()
    {
      var packed: seq<Rect> := [];
      for k := 0 to |newBin.packedRects|
        invariant packed == newBin.packedRects[..k]
      {
        packed := packed + [newBin.packedRects[k]];
      }
      var free: seq<Rect> := [];
      for k := 0 to |newBin.freeRects|
        invariant free == newBin.freeRects[..k]
      {
        free := free + [newBin.freeRects[k]];
      }
      binWidth := newBin.binWidth;
      binHeight := newBin.binHeight;
      occupiedArea := newBin.occupiedArea;
      packedRects := packed;
      freeRects := free;
    }

    /** `setupFreeRects`: the whole bin becomes the only free rect. */
    method SetupFreeRects()
      modifies this
      ensures freeRects == [WholeBin(binWidth, binHeight)]
      ensures packedRects == old(packedRects) && occupiedArea == old(occupiedArea)
    {
      var maxSpace := NewRect(binWidth, binHeight);
      maxSpace := maxSpace.(x := 0, y := 0);
      freeRects := [maxSpace];
    }

    /** `init`: empty the bin; the invariant then holds exactly when the bin has positive sides. */
    method Init()
      modifies this
      ensures packedRects == [] && occupiedArea == 0
      ensures freeRects == [WholeBin(binWidth, binHeight)]
      ensures Valid() <==> binWidth > 0 && binHeight > 0
      ensures PackedFeasible()
    {
      packedRects := [];
      SetupFreeRects();
      occupiedArea := 0;
      assert freeRects[0] in freeRects;
    }

    /** `packRect`: append `rect` and add its area to the cache; the free rects are untouched. */
    method PackRect(rect: Rect)
      modifies this
      ensures packedRects == old(packedRects) + [rect]
      ensures occupiedArea == old(occupiedArea) + rect.width * rect.height
      ensures freeRects == old(freeRects)
      ensures old(occupiedArea == AreaSum(packedRects)) ==> occupiedArea == AreaSum(packedRects)
    {
      AreaSumAppend(packedRects, rect);
      packedRects := packedRects + [rect];
      occupiedArea := occupiedArea + rect.width * rect.height;
    }

    /** `Bin.isFeasible`: every packed rect is within the bin and no two overlap. */
    method PackingIsFeasible() returns (feasible: bool)
      ensures feasible == PackedFeasible()
    {
      var n := |packedRects|;
      for i := 0 to n
        invariant forall k :: 0 <= k < i ==> InsideBin(packedRects[k], binWidth, binHeight)
        invariant forall k, l :: 0 <= k < i && k < l < n ==> !IsOverlapping(packedRects[k], packedRects[l])
      {
        var rect1 := packedRects[i];
        if rect1.x < 0 || rect1.x > binWidth {
          return false;
        }
        if rect1.y < 0 || rect1.y > binHeight {
          return false;
        }
        if rect1.x + rect1.width > binWidth || rect1.y + rect1.height > binHeight {
          return false;
        }
        for j := i + 1 to n
          invariant forall l :: i < l < j ==> !IsOverlapping(rect1, packedRects[l])
        {
          var rect2 := packedRects[j];
          if IsOverlapping(rect1, rect2) {
            return false;
          }
        }
      }
      return true;
    }

    /** `MaxSpaceBin.isFeasible`: the packing checks, then no duplicated or inscribed free rect. */
    method IsFeasible() returns (feasible: bool)
      ensures feasible == Feasible()
    {
      feasible := PackingIsFeasible();
      if !feasible {
        return;
      }
      var n := |freeRects|;
      for i := 0 to n
        invariant forall a, b :: 0 <= a < i && a < b < n ==>
          !Rects.Equals(freeRects[a], freeRects[b])
          && !IsContainedIn(freeRects[a], freeRects[b]) && !IsContainedIn(freeRects[b], freeRects[a])
      {
        var maxRect1 := freeRects[i];
        for j := i + 1 to n
          invariant forall b :: i < b < j ==>
            !Rects.Equals(maxRect1, freeRects[b])
            && !IsContainedIn(maxRect1, freeRects[b]) && !IsContainedIn(freeRects[b], maxRect1)
        {
          var maxRect2 := freeRects[j];
          if Rects.Equals(maxRect1, maxRect2) {
            return false;
          }
          if IsContainedIn(maxRect1, maxRect2) || IsContainedIn(maxRect2, maxRect1) {
            return false;
          }
        }
      }
      return true;
    }

    /** `computeTouchingPerimeter`: wall contact plus the contact with every packed rect. */
    method ComputeTouchingPerimeter(x: int, y: int, width: int, height: int) returns (perimeter: int)
      ensures perimeter == TouchingPerimeterOf(packedRects, binWidth, binHeight, x, y, width, height)
    {
      perimeter := 0;
      if x == 0 || x + width == binWidth {
        perimeter := perimeter + height;
      }
      if y == 0 || y + height == binHeight {
        perimeter := perimeter + width;
      }
      var packed := packedRects;
      for k := 0 to |packed|
        invariant perimeter == WallContact(binWidth, binHeight, x, y, width, height)
                               + Contacts(packed[..k], x, y, width, height)
      {
        var rect := packed[k];
        ghost var before := perimeter;
        ContactsAppend(packed, k, x, y, width, height);
        if rect.x + rect.width == x || x + width == rect.x {
          perimeter := perimeter + CommonLength(y, y + height, rect.y, rect.y + rect.height);
        }
        if rect.y == y + height || rect.y + rect.height == y {
          perimeter := perimeter + CommonLength(x, x + width, rect.x, rect.x + rect.width);
        }
        assert perimeter == before + ContactWith(rect, x, y, width, height);
      }
      assert packed[..|packed|] == packed;
    }

    /**
     * `insertTopRightCornerDistance`: place the item where its top-right corner
     * is farthest from the bin's top-right corner.
     */
    method InsertTopRightCornerDistance(rect: Rect, canRotate: bool) returns (newRect: Option<Rect>)
      ensures newRect == Evaluation(rect, TopRightCornerDistance, canRotate)
    {
      ghost var q := Query(TopRightCornerDistance, freeRects, packedRects, binWidth, binHeight, rect, canRotate);
      var largestDist := -1;
      var bestMaxSpaceIndex := -1;
      var isRotated := false;
      for i := 0 to |freeRects|
        invariant bestMaxSpaceIndex == -1 || 0 <= bestMaxSpaceIndex < i
        invariant Scan(q, i, Best(Finite(-largestDist, 0), bestMaxSpaceIndex, isRotated)) == Choice(q)
      {
        var maxSpace := freeRects[i];
        if rect.width <= maxSpace.width && rect.height <= maxSpace.height {
          var dist := SquaredDistance(maxSpace.x + rect.width, maxSpace.y + rect.height, binWidth, binHeight);
          if dist > largestDist {
            largestDist := dist;
            bestMaxSpaceIndex := i;
            isRotated := false;
          }
        }
        if canRotate && rect.height <= maxSpace.width && rect.width <= maxSpace.height {
          var dist := SquaredDistance(maxSpace.x + rect.height, maxSpace.y + rect.width, binWidth, binHeight);
          if dist > largestDist {
            largestDist := dist;
            bestMaxSpaceIndex := i;
            isRotated := true;
          }
        }
      }
      if bestMaxSpaceIndex == -1 {
        return None;
      }
      var r := NewRect(rect.width, rect.height);
      if isRotated {
        r := Rotate(r);
      }
      r := r.(x := freeRects[bestMaxSpaceIndex].x, y := freeRects[bestMaxSpaceIndex].y, score := Scored(-largestDist));
      newRect := Some(r);
    }

    /**
     * `insertTouchingPerimeter`: place the item where it shares the most edge
     * length with the bin's walls and the packed rects.
     */
    method InsertTouchingPerimeter(rect: Rect, canRotate: bool) returns (newRect: Option<Rect>)
      ensures newRect == Evaluation(rect, TouchingPerimeter, canRotate)
    {
      ghost var q := Query(TouchingPerimeter, freeRects, packedRects, binWidth, binHeight, rect, canRotate);
      var largestTouchingPerimeter := -1;
      var bestMaxSpaceIndex := -1;
      var isRotated := false;
      for i := 0 to |freeRects|
        invariant bestMaxSpaceIndex == -1 || 0 <= bestMaxSpaceIndex < i
        invariant Scan(q, i, Best(Finite(-largestTouchingPerimeter, 0), bestMaxSpaceIndex, isRotated)) == Choice(q)
      {
        var maxSpace := freeRects[i];
        if rect.width <= maxSpace.width && rect.height <= maxSpace.height {
          var perimeter := ComputeTouchingPerimeter(maxSpace.x, maxSpace.y, rect.width, rect.height);
          if perimeter > largestTouchingPerimeter {
            largestTouchingPerimeter := perimeter;
            bestMaxSpaceIndex := i;
            isRotated := false;
          }
        }
        if canRotate && rect.height <= maxSpace.width && rect.width <= maxSpace.height {
          var perimeter := ComputeTouchingPerimeter(maxSpace.x, maxSpace.y, rect.height, rect.width);
          if perimeter > largestTouchingPerimeter {
            largestTouchingPerimeter := perimeter;
            bestMaxSpaceIndex := i;
            isRotated := true;
          }
        }
      }
      if bestMaxSpaceIndex == -1 {
        return None;
      }
      var r := NewRect(rect.width, rect.height);
      if isRotated {
        r := Rotate(r);
      }
      r := r.(x := freeRects[bestMaxSpaceIndex].x, y := freeRects[bestMaxSpaceIndex].y,
              score := Scored(-largestTouchingPerimeter));
      newRect := Some(r);
    }

    /**
     * `insertBestArea`: place the item in the free rect that wastes the least
     * area, breaking ties by the smaller leftover side. `bestKey` starts at
     * `Infinity`, the source's `Integer.MAX_VALUE` pair.
     */
    method InsertBestArea(rect: Rect, canRotate: bool) returns (newRect: Option<Rect>)
      ensures newRect == Evaluation(rect, BestAreaFit, canRotate)
    {
      ghost var q := Query(BestAreaFit, freeRects, packedRects, binWidth, binHeight, rect, canRotate);
      var bestKey := Infinity;
      var bestMaxSpaceIndex := -1;
      var isRotated := false;
      for i := 0 to |freeRects|
        invariant bestMaxSpaceIndex == -1 || (0 <= bestMaxSpaceIndex < i && bestKey.Finite?)
        invariant Scan(q, i, Best(bestKey, bestMaxSpaceIndex, isRotated)) == Choice(q)
      {
        var maxSpace := freeRects[i];
        var wastedArea := maxSpace.width * maxSpace.height - rect.width * rect.height;
        if maxSpace.width >= rect.width && maxSpace.height >= rect.height {
          var horizLeftOver := maxSpace.width - rect.width;
          var vertLeftOver := maxSpace.height - rect.height;
          var shortSide := Min(horizLeftOver, vertLeftOver);
          if Less(Finite(wastedArea, shortSide), bestKey) {
            bestKey := Finite(wastedArea, shortSide);
            bestMaxSpaceIndex := i;
            isRotated := false;
          }
        }
        if canRotate && maxSpace.width >= rect.height && maxSpace.height >= rect.width {
          var horizLeftOver := maxSpace.width - rect.height;
          var vertLeftOver := maxSpace.height - rect.width;
          var shortSide := Min(horizLeftOver, vertLeftOver);
          if Less(Finite(wastedArea, shortSide), bestKey) {
            bestKey := Finite(wastedArea, shortSide);
            bestMaxSpaceIndex := i;
            isRotated := true;
          }
        }
      }
      if bestMaxSpaceIndex == -1 {
        return None;
      }
      var r := NewRect(rect.width, rect.height);
      if isRotated {
        r := Rotate(r);
      }
      r := r.(x := freeRects[bestMaxSpaceIndex].x, y := freeRects[bestMaxSpaceIndex].y,
              score := Scored(bestKey.primary));
      newRect := Some(r);
    }

    /** `evaluatePacking`: dispatch on the heuristic; the bin is left unchanged. */
    method EvaluatePacking(rect: Rect, heuristic: PackingHeuristic, canRotate: bool) returns (newRect: Option<Rect>)
      ensures newRect == Evaluation(rect, heuristic, canRotate)
    {
      match heuristic
      case TouchingPerimeter =>
        newRect := InsertTouchingPerimeter(rect, canRotate);
      case BestAreaFit =>
        newRect := InsertBestArea(rect, canRotate);
      case TopRightCornerDistance =>
        newRect := InsertTopRightCornerDistance(rect, canRotate);
    }

    /**
     * The body of `generateFreeSpaces` for one overlapped free rect: append its
     * bottom, top, left and right fragments to `rects`, each where it is
     * non-empty.
     */
    static method AppendFragments(rects: seq<Rect>, freeRect: Rect, rect: Rect) returns (result: seq<Rect>)
      ensures result == rects + Fragments(freeRect, rect)
    {
      result := rects;
      if rect.x < freeRect.x + freeRect.width && rect.x + rect.width > freeRect.x {
        if rect.y > freeRect.y && rect.y < freeRect.y + freeRect.height {
          var newFreeRect := freeRect.(height := rect.y - freeRect.y);
          result := result + [newFreeRect];
        }
        if rect.y + rect.height > freeRect.y && rect.y + rect.height < freeRect.y + freeRect.height {
          var newFreeRect := freeRect.(y := rect.y + rect.height,
                                       height := freeRect.y + freeRect.height - (rect.y + rect.height));
          result := result + [newFreeRect];
        }
      }
      if rect.y < freeRect.y + freeRect.height && rect.y + rect.height > freeRect.y {
        if rect.x > freeRect.x && rect.x < freeRect.x + freeRect.width {
          var newFreeRect := freeRect.(width := rect.x - freeRect.x);
          result := result + [newFreeRect];
        }
        if rect.x + rect.width > freeRect.x && rect.x + rect.width < freeRect.x + freeRect.width {
          var newFreeRect := freeRect.(x := rect.x + rect.width,
                                       width := freeRect.x + freeRect.width - (rect.x + rect.width));
          result := result + [newFreeRect];
        }
      }
    }

    /**
     * `generateFreeSpaces`: one pass over the free rects present at the start;
     * each one the placed rect overlaps is removed and its fragments appended,
     * so fragments are never split again in the same pass.
     */
    method GenerateFreeSpaces(rect: Rect)
      modifies this
      ensures freeRects == Regenerated(old(freeRects), rect)
      ensures packedRects == old(packedRects) && occupiedArea == old(occupiedArea)
    {
      freeRects := RegenerateList(freeRects, rect);
    }

    /** The loop of `generateFreeSpaces`, over the free list `free`. */
    static method RegenerateList(free: seq<Rect>, rect: Rect) returns (rects: seq<Rect>)
      ensures rects == Regenerated(free, rect)
    {
      rects := free;
      ghost var k := 0;
      var numFreeRects := |rects|;
      var i := 0;
      while i < numFreeRects
        invariant 0 <= k <= |free| && 0 <= i
        invariant numFreeRects == i + |free| - k
        invariant i == |Kept(free[..k], rect)|
        invariant rects == Kept(free[..k], rect) + free[k..] + FragmentsOf(free[..k], rect)
        decreases numFreeRects - i
      {
        var freeRect := rects[i];
        RegenerationLoopStep(free, k, rect, rects);
        ghost var next := Kept(free[..k + 1], rect) + free[k + 1..] + FragmentsOf(free[..k + 1], rect);
        if !Overlapping(freeRect, rect) {
          i := i + 1;
          assert rects == next;
        } else {
          rects := AppendFragments(rects, freeRect, rect);
          rects := RemoveAt(rects, i);
          numFreeRects := numFreeRects - 1;
          assert rects == next;
        }
        k := k + 1;
      }
      assert free[..|free|] == free && free[|free|..] == [];
    }

    /**
     * `pruneMaxSpaces`: drop every free rect that lies inside another one. Only
     * removes, keeps the order, and leaves an already pruned list alone.
     */
    method PruneMaxSpaces()
      modifies this
      ensures SubsequenceOf(freeRects, old(freeRects))
      ensures NoContainment(freeRects)
      ensures Covers(freeRects, old(freeRects))
      ensures NoContainment(old(freeRects)) ==> freeRects == old(freeRects)
      ensures packedRects == old(packedRects) && occupiedArea == old(occupiedArea)
    {
      ghost var orig := freeRects;
      ghost var idx := seq(|orig|, k => k);
      PruneStart(orig);
      var rects := freeRects;
      var i := 0;
      while i < |rects|
        invariant 0 <= i <= |rects|
        invariant Embeds(rects, orig, idx)
        invariant Covers(rects, orig)
        invariant SettledUpTo(rects, i)
        invariant NoContainment(orig) ==> rects == orig
        modifies {}
        decreases |rects| - i
      {
        var removedI;
        rects, idx, removedI := PruneAgainst(rects, i, orig, idx);
        if !removedI {
          SettledNext(rects, i);
          i := i + 1;
        }
      }
      SettledAll(rects);
      freeRects := rects;
    }

    /**
     * The inner loop of `pruneMaxSpaces`: compare rect `i` with every later rect,
     * dropping each later rect inside it, or dropping rect `i` itself (and
     * stopping) when it lies inside a later one. When rect `i` survives, no
     * later rect contains it or lies inside it.
     */
    static method PruneAgainst(rects: seq<Rect>, i: int, ghost orig: seq<Rect>, ghost idx: seq<int>)
      returns (result: seq<Rect>, ghost idx': seq<int>, removedI: bool)
      requires 0 <= i < |rects|
      requires Embeds(rects, orig, idx) && Covers(rects, orig) && SettledUpTo(rects, i)
      requires NoContainment(orig) ==> rects == orig
      ensures Embeds(result, orig, idx') && Covers(result, orig) && SettledUpTo(result, i)
      ensures removedI ==> i <= |result| < |rects|
      ensures !removedI ==> i < |result| <= |rects| && result[i] == rects[i] && ClearUpTo(result, i, |result|)
      ensures NoContainment(orig) ==> result == orig && !removedI
    {
      var rectI := rects[i];
      result, idx' := rects, idx;
      var j := i + 1;
      removedI := false;
      while j < |result| && !removedI
        invariant removedI ==> i <= |result| < |rects|
        invariant !removedI ==> i < j <= |result| <= |rects| && result[i] == rectI && ClearUpTo(result, i, j)
        invariant Embeds(result, orig, idx')
        invariant Covers(result, orig)
        invariant SettledUpTo(result, i)
        invariant NoContainment(orig) ==> result == orig && !removedI
        decreases |result| - j
      {
        var rectJ := result[j];
        if IsContainedIn(rectJ, rectI) {
          PruneStep(result, orig, idx', i, j, i);
          idx' := RemoveAt(idx', j);
          result := RemoveAt(result, j);
        } else if IsContainedIn(rectI, rectJ) {
          PruneStep(result, orig, idx', i, i, j);
          idx' := RemoveAt(idx', i);
          result := RemoveAt(result, i);
          removedI := true;
        } else {
          ClearNext(result, i, j);
          j := j + 1;
        }
      }
    }

    /**
     * `insert`: a rect without a position is evaluated first and refused when
     * nothing admits it; a rect with a position is packed there as it is. The
     * bin invariant survives either way; the packing stays feasible when the
     * packed rect was evaluated here or lies inside a free rect.
     */
    method Insert(rect: Rect, heuristic: PackingHeuristic, canRotate: bool) returns (ok: bool)
      requires Valid()
      requires HasPositiveSize(rect)
      modifies this
      ensures Valid()
      ensures ok == old(PlacementFor(rect, heuristic, canRotate)).Some?
      ensures !ok ==> packedRects == old(packedRects) && freeRects == old(freeRects) && occupiedArea == old(occupiedArea)
      ensures ok ==> packedRects == old(packedRects) + [old(PlacementFor(rect, heuristic, canRotate)).value]
      ensures ok ==> SubsequenceOf(freeRects, Regenerated(old(freeRects), packedRects[|packedRects| - 1]))
      ensures ok ==> Covers(freeRects, Regenerated(old(freeRects), packedRects[|packedRects| - 1]))
      ensures old(PackedFeasible()) && (IsReadyForPacking(rect) ==> old(InFreeSpace(rect))) ==> Feasible()
    {
      var newRect: Option<Rect>;
      if !IsReadyForPacking(rect) {
        match heuristic
        case TouchingPerimeter =>
          newRect := InsertTouchingPerimeter(rect, canRotate);
        case BestAreaFit =>
          newRect := InsertBestArea(rect, canRotate);
        case TopRightCornerDistance =>
          newRect := InsertTopRightCornerDistance(rect, canRotate);
      } else {
        newRect := Some(rect);
      }
      if newRect.None? {
        return false;
      }
      var placed := newRect.value;
      ghost var packed0, free0 := packedRects, freeRects;
      ghost var wasFeasible := PackedFeasible();
      ghost var inFree := InFreeSpace(placed);
      if !IsReadyForPacking(rect) {
        EvaluatePlacement(Query(heuristic, freeRects, packedRects, binWidth, binHeight, rect, canRotate));
        inFree := true;
      }
      PackRect(placed);
      GenerateFreeSpaces(placed);
      PruneMaxSpaces();
      ok := true;
      InsertKeepsInvariant(packed0, free0, placed);
      if wasFeasible && inFree {
        InsertKeepsFeasible(packed0, free0, placed);
      }
    }

    /** The invariant after packing `placed` and regenerating and pruning the free rects. */
    lemma InsertKeepsInvariant(packed0: seq<Rect>, free0: seq<Rect>, placed: Rect)
      requires forall p :: p in packed0 ==> HasPositiveSize(p)
      requires forall f :: f in free0 ==> HasPositiveSize(f) && InsideBin(f, binWidth, binHeight)
      requires forall f, p :: f in free0 && p in packed0 ==> !Overlapping(f, p)
      requires HasPositiveSize(placed)
      requires packedRects == packed0 + [placed] && occupiedArea == AreaSum(packedRects)
      requires SubsequenceOf(freeRects, Regenerated(free0, placed)) && NoContainment(freeRects)
      ensures Valid()
    {
      RegeneratedRects(free0, placed);
      SubsequenceElements(freeRects, Regenerated(free0, placed));
      forall f | f in freeRects
        ensures HasPositiveSize(f) && InsideBin(f, binWidth, binHeight)
        ensures forall p :: p in packedRects ==> !Overlapping(f, p)
      {
        var g :| g in free0 && IsContainedIn(f, g);
        forall p | p in packedRects ensures !Overlapping(f, p) {
          if p in packed0 {
            OverlappingAgrees(g, p);
            ContainedDoesNotOverlap(f, g, p);
          }
        }
      }
    }

    /** Packing a rect that lies in a free rect keeps the packing feasible. */
    lemma InsertKeepsFeasible(packed0: seq<Rect>, free0: seq<Rect>, placed: Rect)
      requires Valid()
      requires forall f :: f in free0 ==> HasPositiveSize(f) && InsideBin(f, binWidth, binHeight)
      requires forall f, p :: f in free0 && p in packed0 ==> !Overlapping(f, p)
      requires PackingFeasible(packed0, binWidth, binHeight)
      requires exists f :: f in free0 && IsContainedIn(placed, f)
      requires packedRects == packed0 + [placed]
      ensures Feasible()
    {
      var f :| f in free0 && IsContainedIn(placed, f);
      ContainedInsideBin(placed, f, binWidth, binHeight);
      forall i, j | 0 <= i < j < |packedRects| ensures !IsOverlapping(packedRects[i], packedRects[j]) {
        if j == |packedRects| - 1 {
          var p := packedRects[i];
          assert p in packed0;
          OverlappingAgrees(f, p);
          ContainedDoesNotOverlap(placed, f, p);
        } else {
          assert packedRects[i] == packed0[i] && packedRects[j] == packed0[j];
        }
      }
      ValidIsFeasible();
    }
  }
}
