/**
 * The three placement heuristics of the maximal-space bin, as a reference
 * definition: every (free rect, orientation) pair is a candidate, visited by
 * free-rect index with the upright orientation first; each candidate gets a
 * key (lower is better) and the scan keeps a candidate only when its key is
 * strictly below the best so far. The loops of MaxSpaceBin compute exactly
 * this scan; the lemmas here say what it chooses.
 */
module Heuristics {
  import opened Options
  import opened Rects
  import opened BinGeometry

  /** The placement heuristics a bin can use. */
  datatype PackingHeuristic = BestAreaFit | TouchingPerimeter | TopRightCornerDistance

  /**
   * A candidate's key, compared lexicographically; `Infinity` is above every
   * finite key. The primary part is the score the evaluation reports: the
   * wasted area for best-area-fit, the negated touching perimeter, the
   * negated squared distance to the top-right corner.
   */
  datatype Key = Infinity | Finite(primary: int, secondary: int)

  predicate Less(a: Key, b: Key) {
    match a
    case Infinity => false
    case Finite(p, s) => b.Infinity? || p < b.primary || (p == b.primary && s < b.secondary)
  }

  /** The best candidate so far: its key, its free-rect index (-1 for none yet) and its orientation. */
  datatype Best = Best(key: Key, index: int, rotated: bool)

  /** Everything one evaluation reads: the bin's state, the item and the rotation switch. */
  datatype Query = Query(heuristic: PackingHeuristic, freeRects: seq<Rect>, packedRects: seq<Rect>,
                         binWidth: int, binHeight: int, item: Rect, canRotate: bool)

  /**
   * The bound a candidate must beat: `Integer.MAX_VALUE` for best-area-fit,
   * and a largest measure of -1 (a score of 1) for the two others.
   */
  function InitialKey(h: PackingHeuristic): Key {
    if h == BestAreaFit then Infinity else Finite(1, 0)
  }

  function InitialBest(h: PackingHeuristic): Best {
    Best(InitialKey(h), -1, false)
  }

  function OrientedWidth(item: Rect, rotated: bool): int { if rotated then item.height else item.width }
  function OrientedHeight(item: Rect, rotated: bool): int { if rotated then item.width else item.height }

  /** The item, in the given orientation, fits inside `space`. */
  predicate Fits(item: Rect, space: Rect, rotated: bool) {
    OrientedWidth(item, rotated) <= space.width && OrientedHeight(item, rotated) <= space.height
  }

  /** Free rect `j` admits the item in the given orientation (rotated only when rotation is on). */
  predicate Admissible(q: Query, j: int, rotated: bool) {
    0 <= j < |q.freeRects| && (rotated ==> q.canRotate) && Fits(q.item, q.freeRects[j], rotated)
  }

  /** The key of placing the item at the corner of `space` in the given orientation. */
  function CandidateKey(q: Query, space: Rect, rotated: bool): Key {
    var w, h := OrientedWidth(q.item, rotated), OrientedHeight(q.item, rotated);
    match q.heuristic
    case BestAreaFit =>
      Finite(space.width * space.height - q.item.width * q.item.height, Min(space.width - w, space.height - h))
    case TouchingPerimeter =>
      Finite(-TouchingPerimeterOf(q.packedRects, q.binWidth, q.binHeight, space.x, space.y, w, h), 0)
    case TopRightCornerDistance =>
      Finite(-SquaredDistance(space.x + w, space.y + h, q.binWidth, q.binHeight), 0)
  }

  function KeyAt(q: Query, j: int, rotated: bool): (k: Key)
    requires 0 <= j < |q.freeRects|
    ensures k.Finite?
  {
    CandidateKey(q, q.freeRects[j], rotated)
  }

  /** The position of a candidate in the visiting order. */
  function Slot(j: int, rotated: bool): int { 2 * j + (if rotated then 1 else 0) }

  /** Look at one candidate: keep it when it is admissible and strictly better than `b`. */
  function Consider(q: Query, j: int, rotated: bool, b: Best): Best
    requires 0 <= j < |q.freeRects|
  {
    if Admissible(q, j, rotated) && Less(KeyAt(q, j, rotated), b.key) then Best(KeyAt(q, j, rotated), j, rotated)
    else b
  }

  /** One iteration of a heuristic loop: free rect `j` upright, then rotated. */
  function Step(q: Query, j: int, b: Best): Best
    requires 0 <= j < |q.freeRects|
  {
    Consider(q, j, true, Consider(q, j, false, b))
  }

  /** The heuristic loop from free rect `i` on, starting from `b`. */
  function Scan(q: Query, i: int, b: Best): (r: Best)
    requires 0 <= i <= |q.freeRects|
    requires b.index == -1 || (0 <= b.index < i && b.key.Finite?)
    ensures r.index == -1 || (0 <= r.index < |q.freeRects| && r.key.Finite?)
    decreases |q.freeRects| - i
  {
    if i == |q.freeRects| then b else Scan(q, i + 1, Step(q, i, b))
  }

  /** The candidate the heuristic settles on. */
  function Choice(q: Query): Best {
    Scan(q, 0, InitialBest(q.heuristic))
  }

  /**
   * The rect an evaluation returns: a new rect with the item's sides, rotated
   * when asked, at the corner of `space`, carrying the score.
   */
  function Placed(item: Rect, space: Rect, rotated: bool, score: Score): Rect {
    var r := NewRect(item.width, item.height);
    var r' := if rotated then Rotate(r) else r;
    r'.(x := space.x, y := space.y, score := score)
  }

  /** `evaluatePacking`: the placement the heuristic picks, or `None` when it picks nothing. */
  function Evaluate(q: Query): (r: Option<Rect>)
    ensures q.freeRects == [] ==> r.None?
    ensures r.Some? ==> r.value.score.Scored? && r.value.area == q.item.width * q.item.height
    ensures r.Some? ==>
      (r.value.width == q.item.width && r.value.height == q.item.height)
      || (q.canRotate && r.value.width == q.item.height && r.value.height == q.item.width)
  {
    var b := Choice(q);
    ChoiceIsFirstBest(q);
    if b.index == -1 then None
    else Some(Placed(q.item, q.freeRects[b.index], b.rotated, Scored(b.key.primary)))
  }

  // ------------------------------------------------------- what the scan picks

  /**
   * Candidate (j, rotated) is the one the heuristic must pick: admissible,
   * better than the starting bound, no admissible candidate is strictly
   * better, and every admissible candidate visited before it is strictly worse.
   */
  ghost predicate IsFirstBest(q: Query, j: int, rotated: bool) {
    Admissible(q, j, rotated)
    && Less(KeyAt(q, j, rotated), InitialKey(q.heuristic))
    && (forall j', r' :: Admissible(q, j', r') ==> !Less(KeyAt(q, j', r'), KeyAt(q, j, rotated)))
    && (forall j', r' :: Admissible(q, j', r') && Slot(j', r') < Slot(j, rotated) ==>
          Less(KeyAt(q, j, rotated), KeyAt(q, j', r')))
  }

  /** `b` is what the scan holds after visiting the first `p` candidate slots. */
  ghost predicate Summarises(q: Query, p: int, b: Best) {
    var init := InitialKey(q.heuristic);
    if b.index == -1 then
      b == InitialBest(q.heuristic)
      && (forall j, r :: Admissible(q, j, r) && Slot(j, r) < p ==> !Less(KeyAt(q, j, r), init))
    else
      Admissible(q, b.index, b.rotated) && Slot(b.index, b.rotated) < p
      && b.key == KeyAt(q, b.index, b.rotated) && Less(b.key, init)
      && (forall j, r :: Admissible(q, j, r) && Slot(j, r) < p ==> !Less(KeyAt(q, j, r), b.key))
      && (forall j, r :: Admissible(q, j, r) && Slot(j, r) < Slot(b.index, b.rotated) ==>
            Less(b.key, KeyAt(q, j, r)))
  }

  lemma LessTransitive(a: Key, b: Key, c: Key)
    requires Less(a, b) && Less(b, c)
    ensures Less(a, c)
  {
  }

  lemma LessNotLessTransitive(a: Key, b: Key, c: Key)
    requires Less(a, b) && !Less(c, b)
    ensures Less(a, c) && !Less(c, a)
  {
  }

  lemma {:induction false} ConsiderSummarises(q: Query, j: int, rotated: bool, b: Best)
    requires 0 <= j < |q.freeRects|
    requires Summarises(q, Slot(j, rotated), b)
    ensures Summarises(q, Slot(j, rotated) + 1, Consider(q, j, rotated, b))
  {
    var init := InitialKey(q.heuristic);
    var p := Slot(j, rotated);
    if Admissible(q, j, rotated) && Less(KeyAt(q, j, rotated), b.key) {
      var k := KeyAt(q, j, rotated);
      var b' := Best(k, j, rotated);
      assert b' == Consider(q, j, rotated, b);
      if b.index == -1 {
        assert Less(k, init);
      } else {
        LessTransitive(k, b.key, init);
      }
      forall j', r' | Admissible(q, j', r') && Slot(j', r') < p + 1
        ensures !Less(KeyAt(q, j', r'), k)
      {
        if Slot(j', r') < p {
          LessNotLessTransitive(k, b.key, KeyAt(q, j', r'));
        } else {
          assert j' == j && r' == rotated;
        }
      }
      forall j', r' | Admissible(q, j', r') && Slot(j', r') < p
        ensures Less(k, KeyAt(q, j', r'))
      {
        LessNotLessTransitive(k, b.key, KeyAt(q, j', r'));
      }
    } else {
      assert Consider(q, j, rotated, b) == b;
      forall j', r' | Admissible(q, j', r') && Slot(j', r') < p + 1
        ensures !Less(KeyAt(q, j', r'), b.key)
      {
        if Slot(j', r') == p {
          assert j' == j && r' == rotated;
        }
      }
    }
  }

  lemma {:induction false} ScanSummarises(q: Query, i: int, b: Best)
    requires 0 <= i <= |q.freeRects|
    requires b.index == -1 || (0 <= b.index < i && b.key.Finite?)
    requires Summarises(q, Slot(i, false), b)
    ensures Summarises(q, Slot(|q.freeRects|, false), Scan(q, i, b))
    decreases |q.freeRects| - i
  {
    if i < |q.freeRects| {
      var b1 := Consider(q, i, false, b);
      var b2 := Consider(q, i, true, b1);
      assert Slot(i, true) == Slot(i, false) + 1 && Slot(i + 1, false) == Slot(i, true) + 1;
      ConsiderSummarises(q, i, false, b);
      ConsiderSummarises(q, i, true, b1);
      assert Scan(q, i, b) == Scan(q, i + 1, b2);
      ScanSummarises(q, i + 1, b2);
    }
  }

  /**
   * The heuristic picks the first best admissible candidate, and picks nothing
   * exactly when no admissible candidate beats the starting bound.
   */
  lemma ChoiceIsFirstBest(q: Query)
    ensures Choice(q).index == -1 <==>
      forall j, r :: Admissible(q, j, r) ==> !Less(KeyAt(q, j, r), InitialKey(q.heuristic))
    ensures Choice(q).index != -1 ==>
      IsFirstBest(q, Choice(q).index, Choice(q).rotated) && Choice(q).key == KeyAt(q, Choice(q).index, Choice(q).rotated)
  {
    ScanSummarises(q, 0, InitialBest(q.heuristic));
    var b := Choice(q);
    if b.index != -1 {
      forall j, r | Admissible(q, j, r) ensures Slot(j, r) < Slot(|q.freeRects|, false) { }
      assert Admissible(q, b.index, b.rotated) && Less(KeyAt(q, b.index, b.rotated), InitialKey(q.heuristic));
    } else {
      forall j, r | Admissible(q, j, r) ensures Slot(j, r) < Slot(|q.freeRects|, false) { }
    }
  }

  /** The first best candidate is unique, so the reference choice is fully determined. */
  lemma FirstBestUnique(q: Query, j1: int, r1: bool, j2: int, r2: bool)
    requires IsFirstBest(q, j1, r1) && IsFirstBest(q, j2, r2)
    ensures j1 == j2 && r1 == r2
  {
    if Slot(j1, r1) != Slot(j2, r2) {
      assert false;
    }
  }

  /** Every candidate key beats the starting bound when the sizes involved are non-negative. */
  lemma AdmissibleBeatsBound(q: Query, j: int, rotated: bool)
    requires Admissible(q, j, rotated)
    requires q.item.width >= 0 && q.item.height >= 0
    requires forall p :: p in q.packedRects ==> p.width >= 0 && p.height >= 0
    ensures Less(KeyAt(q, j, rotated), InitialKey(q.heuristic))
  {
  }

  /**
   * With non-negative sizes an evaluation returns `None` exactly when no free
   * rect admits the item upright, nor rotated when rotation is on.
   */
  lemma EvaluateNoneIffNothingFits(q: Query)
    requires q.item.width >= 0 && q.item.height >= 0
    requires forall p :: p in q.packedRects ==> p.width >= 0 && p.height >= 0
    ensures Evaluate(q).None? <==> forall j, r :: !Admissible(q, j, r)
  {
    ChoiceIsFirstBest(q);
    if Evaluate(q).None? {
      forall j, r | Admissible(q, j, r) ensures false {
        AdmissibleBeatsBound(q, j, r);
      }
    }
  }

  /**
   * A returned placement has the item's sides, swapped exactly when the chosen
   * candidate is rotated, sits at the corner of the chosen free rect, lies
   * inside it, and carries the chosen key's score.
   */
  lemma EvaluatePlacement(q: Query)
    requires Evaluate(q).Some?
    ensures var b, r := Choice(q), Evaluate(q).value;
      IsFirstBest(q, b.index, b.rotated)
      && r.width == OrientedWidth(q.item, b.rotated) && r.height == OrientedHeight(q.item, b.rotated)
      && r.x == q.freeRects[b.index].x && r.y == q.freeRects[b.index].y
      && IsContainedIn(r, q.freeRects[b.index])
      && r.area == q.item.width * q.item.height
      && r.score == Scored(KeyAt(q, b.index, b.rotated).primary)
  {
    ChoiceIsFirstBest(q);
  }
}
