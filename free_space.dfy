/**
 * The free maximal rects of a bin: how one free rect is split around a newly
 * placed rect, what a whole regeneration pass yields, and the properties the
 * pruning pass establishes.
 */
module FreeSpace {
  import opened Rects
  import opened BinGeometry

  /**
   * The fragments `generateFreeSpaces` appends for free rect `f` overlapped by
   * the placed rect `r`, in the order bottom, top, left, right. Each fragment is
   * a copy of `f` with one side cut back to an edge of `r`.
   */
  function Fragments(f: Rect, r: Rect): (fr: seq<Rect>)
    ensures |fr| <= 4
    ensures forall g :: g in fr ==> IsContainedIn(g, f) && !Overlapping(g, r)
  {
    var horizOverlap := r.x < f.x + f.width && r.x + r.width > f.x;
    var vertOverlap := r.y < f.y + f.height && r.y + r.height > f.y;
    var bottom := if horizOverlap && r.y > f.y && r.y < f.y + f.height
                  then [f.(height := r.y - f.y)] else [];
    var top := if horizOverlap && r.y + r.height > f.y && r.y + r.height < f.y + f.height
               then [f.(y := r.y + r.height, height := f.y + f.height - (r.y + r.height))] else [];
    var left := if vertOverlap && r.x > f.x && r.x < f.x + f.width
                then [f.(width := r.x - f.x)] else [];
    var right := if vertOverlap && r.x + r.width > f.x && r.x + r.width < f.x + f.width
                 then [f.(x := r.x + r.width, width := f.x + f.width - (r.x + r.width))] else [];
    bottom + top + left + right
  }

  /** The free rects a regeneration pass keeps: those the placed rect does not overlap, in order. */
  function Kept(free: seq<Rect>, r: Rect): seq<Rect>
  {
    if free == [] then []
    else Kept(free[..|free| - 1], r) + (if Overlapping(free[|free| - 1], r) then [] else [free[|free| - 1]])
  }

  /** The fragments a regeneration pass appends, overlapped free rect by overlapped free rect. */
  function FragmentsOf(free: seq<Rect>, r: Rect): (fr: seq<Rect>)
    ensures |Kept(free, r)| + |fr| <= 4 * |free|
  {
    if free == [] then []
    else FragmentsOf(free[..|free| - 1], r)
         + (if Overlapping(free[|free| - 1], r) then Fragments(free[|free| - 1], r) else [])
  }

  /** The free list after `generateFreeSpaces(r)`: the kept rects, then all fragments. */
  function Regenerated(free: seq<Rect>, r: Rect): (res: seq<Rect>)
    ensures |res| <= 4 * |free|
  {
    Kept(free, r) + FragmentsOf(free, r)
  }

  /** A free rect the placed rect does not overlap survives the pass. */
  lemma {:induction false} KeptKeepsMissed(free: seq<Rect>, r: Rect, g: Rect)
    requires g in free && !Overlapping(g, r)
    ensures g in Kept(free, r) && g in Regenerated(free, r)
  {
    var last := free[|free| - 1];
    if g != last {
      var k :| 0 <= k < |free| && free[k] == g;
      assert k < |free| - 1;
      assert free[..|free| - 1][k] == g;
      KeptKeepsMissed(free[..|free| - 1], r, g);
    }
  }

  /** One more free rect processed: what the pass keeps and appends for it. */
  lemma RegeneratedStep(free: seq<Rect>, k: int, r: Rect)
    requires 0 <= k < |free|
    ensures Kept(free[..k + 1], r) == Kept(free[..k], r) + (if Overlapping(free[k], r) then [] else [free[k]])
    ensures FragmentsOf(free[..k + 1], r)
            == FragmentsOf(free[..k], r) + (if Overlapping(free[k], r) then Fragments(free[k], r) else [])
  {
    assert free[..k + 1][..k] == free[..k];
  }

  /**
   * One iteration of the regeneration pass over a list `s` made of the kept
   * rects so far, the unprocessed rects and the fragments so far: the next
   * rect is either kept where it is, or removed with its fragments appended.
   */
  lemma RegenerationLoopStep(free: seq<Rect>, k: int, r: Rect, s: seq<Rect>)
    requires 0 <= k < |free|
    requires s == Kept(free[..k], r) + free[k..] + FragmentsOf(free[..k], r)
    ensures |Kept(free[..k], r)| < |s| && s[|Kept(free[..k], r)|] == free[k]
    ensures !Overlapping(free[k], r) ==>
      |Kept(free[..k + 1], r)| == |Kept(free[..k], r)| + 1
      && s == Kept(free[..k + 1], r) + free[k + 1..] + FragmentsOf(free[..k + 1], r)
    ensures Overlapping(free[k], r) ==>
      |Kept(free[..k + 1], r)| == |Kept(free[..k], r)|
      && RemoveAt(s + Fragments(free[k], r), |Kept(free[..k], r)|)
         == Kept(free[..k + 1], r) + free[k + 1..] + FragmentsOf(free[..k + 1], r)
  {
    var kept, rest, frags := Kept(free[..k], r), free[k + 1..], FragmentsOf(free[..k], r);
    var kept1, frags1 := Kept(free[..k + 1], r), FragmentsOf(free[..k + 1], r);
    SplitAt(kept, free, k, frags, s);
    RegeneratedStep(free, k, r);
    if Overlapping(free[k], r) {
      var fr := Fragments(free[k], r);
      assert kept1 == kept && frags1 == frags + fr;
      DropStep(kept, free[k], rest, frags, fr, s);
    } else {
      assert kept1 == kept + [free[k]] && frags1 == frags;
      KeepStep(kept, free[k], rest, frags, s);
    }
  }

  lemma SplitAt(kept: seq<Rect>, free: seq<Rect>, k: int, frags: seq<Rect>, s: seq<Rect>)
    requires 0 <= k < |free| && s == kept + free[k..] + frags
    ensures s == kept + [free[k]] + (free[k + 1..] + frags)
    ensures |kept| < |s| && s[|kept|] == free[k]
  {
    assert free[k..] == [free[k]] + free[k + 1..];
  }

  lemma KeepStep(kept: seq<Rect>, x: Rect, rest: seq<Rect>, frags: seq<Rect>, s: seq<Rect>)
    requires s == kept + [x] + (rest + frags)
    ensures s == (kept + [x]) + rest + frags
  {
  }

  lemma DropStep(kept: seq<Rect>, x: Rect, rest: seq<Rect>, frags: seq<Rect>, fr: seq<Rect>, s: seq<Rect>)
    requires s == kept + [x] + (rest + frags)
    ensures RemoveAt(s + fr, |kept|) == kept + rest + (frags + fr)
  {
    assert s + fr == kept + [x] + (rest + frags + fr);
    RemoveAtJoin(kept, x, rest + frags + fr);
  }

  /** The unit cell with bottom-left corner (px, py) lies inside `f`. */
  predicate CellIn(px: int, py: int, f: Rect) {
    f.x <= px && px + 1 <= f.x + f.width && f.y <= py && py + 1 <= f.y + f.height
  }

  /**
   * One split: at most four fragments, each of positive size, inside `f` and
   * clear of `r`; and together they cover every unit cell of `f` outside `r`,
   * so no free space is lost.
   */
  lemma FragmentsSplit(f: Rect, r: Rect)
    requires HasPositiveSize(f) && Overlapping(f, r)
    ensures |Fragments(f, r)| <= 4
    ensures forall g :: g in Fragments(f, r) ==>
      HasPositiveSize(g) && IsContainedIn(g, f) && !Overlapping(g, r)
    ensures forall px, py :: CellIn(px, py, f) && !CellIn(px, py, r) ==>
      exists g :: g in Fragments(f, r) && CellIn(px, py, g)
  {
    var fr := Fragments(f, r);
    forall px, py | CellIn(px, py, f) && !CellIn(px, py, r)
      ensures exists g :: g in fr && CellIn(px, py, g)
    {
      if py + 1 <= r.y {
        var g := f.(height := r.y - f.y);
        assert g == fr[0];
        assert CellIn(px, py, g);
      } else if py >= r.y + r.height {
        var g := f.(y := r.y + r.height, height := f.y + f.height - (r.y + r.height));
        assert g in fr;
        assert CellIn(px, py, g);
      } else if px + 1 <= r.x {
        var g := f.(width := r.x - f.x);
        assert g in fr;
        assert CellIn(px, py, g);
      } else {
        var g := f.(x := r.x + r.width, width := f.x + f.width - (r.x + r.width));
        assert g in fr;
        assert CellIn(px, py, g);
      }
    }
  }

  /** A free rect that lies inside one of `free`. */
  ghost predicate InsideSome(g: Rect, free: seq<Rect>) {
    exists f :: f in free && IsContainedIn(g, f)
  }

  /**
   * A regeneration pass yields rects of positive size, each inside one of the
   * old free rects and none overlapping the placed rect.
   */
  lemma {:induction false} RegeneratedRects(free: seq<Rect>, r: Rect)
    requires forall f :: f in free ==> HasPositiveSize(f)
    ensures forall g :: g in Regenerated(free, r) ==>
      HasPositiveSize(g) && InsideSome(g, free) && !Overlapping(g, r)
  {
    if free != [] {
      var init, last := free[..|free| - 1], free[|free| - 1];
      assert forall f :: f in init ==> f in free;
      RegeneratedRects(init, r);
      assert last in free;
      if Overlapping(last, r) {
        FragmentsSplit(last, r);
      }
      forall g | g in Regenerated(free, r)
        ensures HasPositiveSize(g) && InsideSome(g, free) && !Overlapping(g, r)
      {
        if g in Regenerated(init, r) {
          var f :| f in init && IsContainedIn(g, f);
          assert f in free;
        } else {
          assert IsContainedIn(g, last);
        }
      }
    }
  }

  /**
   * A regeneration pass loses no free space: every unit cell of an old free
   * rect that the placed rect does not cover lies in some new free rect.
   */
  lemma {:induction false} RegeneratedCoversRest(free: seq<Rect>, r: Rect, px: int, py: int)
    requires forall f :: f in free ==> HasPositiveSize(f)
    requires exists f :: f in free && CellIn(px, py, f)
    requires !CellIn(px, py, r)
    ensures exists g :: g in Regenerated(free, r) && CellIn(px, py, g)
  {
    var init, last := free[..|free| - 1], free[|free| - 1];
    assert Regenerated(free, r) ==
      Kept(init, r) + (if Overlapping(last, r) then [] else [last])
      + FragmentsOf(init, r) + (if Overlapping(last, r) then Fragments(last, r) else []);
    if CellIn(px, py, last) {
      if Overlapping(last, r) {
        FragmentsSplit(last, r);
        var g :| g in Fragments(last, r) && CellIn(px, py, g);
        assert g in Regenerated(free, r);
      } else {
        assert last in Regenerated(free, r);
      }
    } else {
      var f :| f in free && CellIn(px, py, f);
      assert f in init by {
        var k :| 0 <= k < |free| && free[k] == f;
        assert k < |free| - 1;
        assert init[k] == f;
      }
      assert forall f :: f in init ==> f in free;
      RegeneratedCoversRest(init, r, px, py);
      var g :| g in Regenerated(init, r) && CellIn(px, py, g);
      assert g in Regenerated(free, r);
    }
  }

  // ---------------------------------------------------------------- pruning

  /** No free rect lies inside another one at a different position, equal rects included. */
  ghost predicate NoContainment(s: seq<Rect>) {
    forall i, j :: 0 <= i < |s| && 0 <= j < |s| && i != j ==> !IsContainedIn(s[i], s[j])
  }

  /** The free-rect checks of `MaxSpaceBin.isFeasible`: no duplicate and no rect inside another. */
  ghost predicate FreeRectsFeasible(s: seq<Rect>) {
    forall i, j :: 0 <= i < j < |s| ==>
      !Equals(s[i], s[j]) && !IsContainedIn(s[i], s[j]) && !IsContainedIn(s[j], s[i])
  }

  /** Since equal rects contain each other, both checks accept the same lists. */
  lemma NoContainmentIsFreeRectsFeasible(s: seq<Rect>)
    ensures NoContainment(s) <==> FreeRectsFeasible(s)
  {
    if FreeRectsFeasible(s) {
      forall i, j | 0 <= i < |s| && 0 <= j < |s| && i != j
        ensures !IsContainedIn(s[i], s[j])
      {
        if i > j {
          assert !IsContainedIn(s[i], s[j]);
        }
      }
    }
  }

  /** `s` is `t` with some elements removed and the rest in order; `idx` tells where each came from. */
  ghost predicate Embeds<T>(s: seq<T>, t: seq<T>, idx: seq<int>) {
    |idx| == |s|
    && (forall k :: 0 <= k < |idx| ==> 0 <= idx[k] < |t| && s[k] == t[idx[k]])
    && (forall k, l :: 0 <= k < l < |idx| ==> idx[k] < idx[l])
  }

  ghost predicate SubsequenceOf<T>(s: seq<T>, t: seq<T>) {
    exists idx :: Embeds(s, t, idx)
  }

  /** Every rect of `t` lies inside some rect of `s`. */
  ghost predicate Covers(s: seq<Rect>, t: seq<Rect>) {
    forall r :: r in t ==> exists u :: u in s && IsContainedIn(r, u)
  }

  /** `ArrayList.remove(p)`. */
  function RemoveAt<T>(s: seq<T>, p: int): (s': seq<T>)
    requires 0 <= p < |s|
    ensures |s'| == |s| - 1
    ensures forall k :: 0 <= k < p ==> s'[k] == s[k]
    ensures forall k :: p <= k < |s'| ==> s'[k] == s[k + 1]
  {
    s[..p] + s[p + 1..]
  }

  lemma RemoveAtEmbeds<T>(s: seq<T>, t: seq<T>, idx: seq<int>, p: int)
    requires Embeds(s, t, idx) && 0 <= p < |s|
    ensures Embeds(RemoveAt(s, p), t, RemoveAt(idx, p))
  {
    var s', idx' := RemoveAt(s, p), RemoveAt(idx, p);
    forall k, l | 0 <= k < l < |idx'| ensures idx'[k] < idx'[l] {
      var k0 := if k < p then k else k + 1;
      var l0 := if l < p then l else l + 1;
      assert idx'[k] == idx[k0] && idx'[l] == idx[l0];
    }
  }

  lemma RemoveAtKeepsElements<T>(s: seq<T>, p: int)
    requires 0 <= p < |s|
    ensures forall x :: x in RemoveAt(s, p) ==> x in s
    ensures forall k :: 0 <= k < |s| && k != p ==> s[k] in RemoveAt(s, p)
  {
    forall k | 0 <= k < |s| && k != p ensures s[k] in RemoveAt(s, p) {
      if k < p {
        assert RemoveAt(s, p)[k] == s[k];
      } else {
        assert RemoveAt(s, p)[k - 1] == s[k];
      }
    }
  }

  /** Removing a rect that lies inside another rect of the list keeps every cover. */
  lemma CoversAfterRemoval(s: seq<Rect>, t: seq<Rect>, p: int, q: int)
    requires Covers(s, t) && 0 <= p < |s| && 0 <= q < |s| && p != q
    requires IsContainedIn(s[p], s[q])
    ensures Covers(RemoveAt(s, p), t)
  {
    RemoveAtKeepsElements(s, p);
    forall r | r in t ensures exists u :: u in RemoveAt(s, p) && IsContainedIn(r, u) {
      var u :| u in s && IsContainedIn(r, u);
      var k :| 0 <= k < |s| && s[k] == u;
      if k == p {
        assert s[q] in RemoveAt(s, p);
        ContainedInTransitive(r, s[p], s[q]);
      } else {
        assert s[k] in RemoveAt(s, p);
      }
    }
  }

  lemma RemoveAtJoin<T>(a: seq<T>, x: T, b: seq<T>)
    ensures RemoveAt(a + [x] + b, |a|) == a + b
  {
    assert (a + [x] + b)[..|a|] == a;
    assert (a + [x] + b)[|a| + 1..] == b;
  }

  /** Every pair whose first position is below `i` is free of containment. */
  ghost predicate SettledUpTo(s: seq<Rect>, i: int) {
    forall a, b :: 0 <= a < i && a < b < |s| ==> !IsContainedIn(s[a], s[b]) && !IsContainedIn(s[b], s[a])
  }

  /** Rect `i` is free of containment with every rect at positions i+1 .. j-1. */
  ghost predicate ClearUpTo(s: seq<Rect>, i: int, j: int)
    requires 0 <= i < |s|
  {
    forall b :: i < b < j && b < |s| ==> !IsContainedIn(s[b], s[i]) && !IsContainedIn(s[i], s[b])
  }

  lemma ClearNext(s: seq<Rect>, i: int, j: int)
    requires 0 <= i < j < |s| && ClearUpTo(s, i, j)
    requires !IsContainedIn(s[j], s[i]) && !IsContainedIn(s[i], s[j])
    ensures ClearUpTo(s, i, j + 1)
  {
  }

  lemma SettledAfterRemoval(s: seq<Rect>, i: int, p: int)
    requires SettledUpTo(s, i) && 0 <= i <= p < |s|
    ensures SettledUpTo(RemoveAt(s, p), i)
  {
    var s' := RemoveAt(s, p);
    forall a, b | 0 <= a < i && a < b < |s'|
      ensures !IsContainedIn(s'[a], s'[b]) && !IsContainedIn(s'[b], s'[a])
    {
      var b0 := if b < p then b else b + 1;
      assert s'[a] == s[a] && s'[b] == s[b0];
    }
  }

  lemma SettledNext(s: seq<Rect>, i: int)
    requires 0 <= i < |s| && SettledUpTo(s, i) && ClearUpTo(s, i, |s|)
    ensures SettledUpTo(s, i + 1)
  {
  }

  lemma SettledAll(s: seq<Rect>)
    requires SettledUpTo(s, |s|)
    ensures NoContainment(s)
  {
    forall i, j | 0 <= i < |s| && 0 <= j < |s| && i != j ensures !IsContainedIn(s[i], s[j]) {
      if i < j {
        assert !IsContainedIn(s[i], s[j]);
      } else {
        assert !IsContainedIn(s[i], s[j]);
      }
    }
  }

  /** Removing elements keeps the absence of containment. */
  lemma NoContainmentSubsequence(s: seq<Rect>, t: seq<Rect>)
    requires SubsequenceOf(s, t) && NoContainment(t)
    ensures NoContainment(s)
  {
    var idx :| Embeds(s, t, idx);
    forall i, j | 0 <= i < |s| && 0 <= j < |s| && i != j ensures !IsContainedIn(s[i], s[j]) {
      assert idx[i] != idx[j] by {
        if i < j { assert idx[i] < idx[j]; } else { assert idx[j] < idx[i]; }
      }
    }
  }

  lemma SubsequenceElements<T>(s: seq<T>, t: seq<T>)
    requires SubsequenceOf(s, t)
    ensures forall x :: x in s ==> x in t
  {
    var idx :| Embeds(s, t, idx);
    forall x | x in s ensures x in t {
      var k :| 0 <= k < |s| && s[k] == x;
      assert t[idx[k]] == x;
    }
  }

  /**
   * One removal of the pruning pass: rect `p` lies inside rect `q`, so dropping
   * it keeps the embedding into the original list, the cover of it, the pairs
   * already settled and those already cleared against rect `i`; and a list in
   * which such a pair exists was not free of containment.
   */
  lemma PruneStep(s: seq<Rect>, t: seq<Rect>, idx: seq<int>, i: int, p: int, q: int)
    requires Embeds(s, t, idx) && Covers(s, t) && SettledUpTo(s, i)
    requires 0 <= i <= p < |s| && 0 <= q < |s| && p != q && IsContainedIn(s[p], s[q])
    ensures Embeds(RemoveAt(s, p), t, RemoveAt(idx, p))
    ensures Covers(RemoveAt(s, p), t)
    ensures SettledUpTo(RemoveAt(s, p), i)
    ensures s == t ==> !NoContainment(t)
    ensures i < p && ClearUpTo(s, i, p) ==> ClearUpTo(RemoveAt(s, p), i, p)
  {
    RemoveAtEmbeds(s, t, idx, p);
    CoversAfterRemoval(s, t, p, q);
    SettledAfterRemoval(s, i, p);
  }

  /** Where the pruning pass starts: the list embeds and covers itself, nothing settled yet. */
  lemma PruneStart(s: seq<Rect>)
    ensures Embeds(s, s, seq(|s|, k => k))
    ensures Covers(s, s)
    ensures SettledUpTo(s, 0)
  {
    forall r | r in s ensures exists u :: u in s && IsContainedIn(r, u) {
      ContainedInReflexive(r);
    }
  }
}
