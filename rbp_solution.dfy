/**
 * A solution of the two-dimensional bin packing problem: a list of maximal
 * space bins, filled item by item in list order (RBPSolution.java).
 */
module RBPSolutions {
  import opened Options
  import opened Rects
  import opened BinGeometry
  import opened Heuristics
  import opened FreeSpace
  import opened MaxSpaceBins

  /** Java's `/` on `int`: the quotient truncated toward zero. */
  function JavaDiv(a: int, b: int): (q: int)
    requires b != 0
    ensures a >= 0 && b > 0 ==> q == a / b
    ensures a <= 0 && b > 0 ==> q == -((-a) / b)
  {
    var m := (if a < 0 then -a else a) / (if b < 0 then -b else b);
    if (a < 0) != (b < 0) then -m else m
  }

  /** The bin count `computeLowerBound` returns: the total item area divided by the bin area, plus one. */
  function LowerBound(items: seq<Rect>, binWidth: int, binHeight: int): (lb: int)
    requires binWidth * binHeight != 0
  {
    JavaDiv(AreaSum(items), binWidth * binHeight) + 1
  }

  /**
   * For non-negative area the lower bound is at least one, and it is the
   * unique count whose bins, all but one, hold no more than the items' area,
   * and all of which hold more.
   */
  lemma LowerBoundBrackets(items: seq<Rect>, binWidth: int, binHeight: int)
    requires binWidth > 0 && binHeight > 0 && AreaSum(items) >= 0
    ensures var lb, capacity := LowerBound(items, binWidth, binHeight), binWidth * binHeight;
      lb >= 1 && (lb - 1) * capacity <= AreaSum(items) < lb * capacity
  {
    CapacityPositive(binWidth, binHeight);
    DivBrackets(AreaSum(items), binWidth * binHeight);
  }

  lemma LowerBoundAtLeastOne(items: seq<Rect>, binWidth: int, binHeight: int)
    requires binWidth > 0 && binHeight > 0
    requires forall r :: r in items ==> HasPositiveSize(r)
    ensures binWidth * binHeight != 0 && LowerBound(items, binWidth, binHeight) >= 1
  {
    AreaSumNonNegative(items);
    LowerBoundBrackets(items, binWidth, binHeight);
  }

  lemma CapacityPositive(binWidth: int, binHeight: int)
    requires binWidth > 0 && binHeight > 0
    ensures binWidth * binHeight > 0
  {
  }

  /** Division of a non-negative number brackets it between two multiples. */
  lemma DivBrackets(a: int, c: int)
    requires a >= 0 && c > 0
    ensures a / c >= 0 && (a / c) * c <= a < (a / c + 1) * c
  {
    var q := a / c;
    assert a == q * c + a % c;
    assert (q + 1) * c == q * c + c;
    if q < 0 {
      MulAtLeast(-q, c);
    }
  }

  /**
   * The "ceiling" the source's comment names and the value returned agree
   * except when the area is an exact multiple of the bin area, where the
   * returned count is one more.
   */
  lemma LowerBoundVersusCeiling(items: seq<Rect>, binWidth: int, binHeight: int)
    requires binWidth > 0 && binHeight > 0
    requires AreaSum(items) >= 0
    ensures var area, capacity := AreaSum(items), binWidth * binHeight;
      var ceiling := (area + capacity - 1) / capacity;
      LowerBound(items, binWidth, binHeight) == if area % capacity == 0 then ceiling + 1 else ceiling
  {
    CapacityPositive(binWidth, binHeight);
    FloorPlusOneVersusCeiling(AreaSum(items), binWidth * binHeight);
  }

  lemma FloorPlusOneVersusCeiling(area: int, capacity: int)
    requires area >= 0 && capacity > 0
    ensures var ceiling := (area + capacity - 1) / capacity;
      area / capacity + 1 == if area % capacity == 0 then ceiling + 1 else ceiling
  {
    var q := area / capacity;
    DivBrackets(area, capacity);
    if area % capacity == 0 {
      assert area == q * capacity;
      CeilingOfMultiple(q, capacity);
    } else {
      assert q * capacity < area;
      CeilingBetweenMultiples(q, capacity, area);
    }
  }

  /** Euclidean division is determined by any quotient and remainder in range. */
  lemma DivUnique(t: int, c: int, q: int, r: int)
    requires c > 0 && 0 <= r < c && t == q * c + r
    ensures t / c == q
  {
    var q', r' := t / c, t % c;
    assert t == q' * c + r';
    assert (q - q') * c == r' - r;
    if q > q' {
      MulAtLeast(q - q', c);
    } else if q < q' {
      MulAtLeast(q' - q, c);
    }
  }

  lemma MulAtLeast(a: int, c: int)
    requires a >= 1 && c > 0
    ensures a * c >= c
  {
    assert a * c == (a - 1) * c + c;
  }

  lemma CeilingOfMultiple(n: int, capacity: int)
    requires n >= 0 && capacity > 0
    ensures (n * capacity + capacity - 1) / capacity == n
  {
    DivUnique(n * capacity + capacity - 1, capacity, n, capacity - 1);
  }

  lemma CeilingBetweenMultiples(n: int, capacity: int, area: int)
    requires n >= 0 && capacity > 0
    requires n * capacity < area < (n + 1) * capacity
    ensures (area + capacity - 1) / capacity == n + 1
  {
    var t := area + capacity - 1;
    var r := t - (n + 1) * capacity;
    assert (n + 1) * capacity == n * capacity + capacity;
    DivUnique(t, capacity, n + 1, r);
  }

  /** `score < bestValue` between doubles, with `Unscored` standing for positive infinity. */
  predicate ScoreLess(a: Score, b: Score) {
    a.Scored? && (b.Unscored? || a.value < b.value)
  }

  /** Number of items that fit an empty bin. */
  function CountFitting(items: seq<Rect>, binWidth: int, binHeight: int, canRotate: bool): (n: nat)
    ensures n <= |items|
  {
    if items == [] then 0
    else CountFitting(items[..|items| - 1], binWidth, binHeight, canRotate)
         + (if FitsBin(items[|items| - 1], binWidth, binHeight, canRotate) then 1 else 0)
  }

  lemma CountFittingStep(items: seq<Rect>, n: int, binWidth: int, binHeight: int, canRotate: bool)
    requires 0 <= n < |items|
    ensures CountFitting(items[..n + 1], binWidth, binHeight, canRotate)
            == CountFitting(items[..n], binWidth, binHeight, canRotate)
               + (if FitsBin(items[n], binWidth, binHeight, canRotate) then 1 else 0)
  {
    assert items[..n + 1][..n] == items[..n];
  }

  /** What a bin holds at one moment: its sides, its packed rects and its free rects. */
  datatype BinState = BinState(width: int, height: int, packed: seq<Rect>, free: seq<Rect>)

  ghost function StateOf(b: MaxSpaceBin): BinState
    reads b
  {
    BinState(b.binWidth, b.binHeight, b.packedRects, b.freeRects)
  }

  /** The states of `bins`, in list order. */
  ghost function States(bins: seq<MaxSpaceBin>): seq<BinState>
    reads bins
  {
    seq(|bins|, k requires 0 <= k < |bins| reads bins => StateOf(bins[k]))
  }

  lemma StatesAppend(bins: seq<MaxSpaceBin>, b: MaxSpaceBin)
    ensures States(bins + [b]) == States(bins) + [StateOf(b)]
  {
  }

  /** Number of rects packed over all the bin states. */
  function CountOf(states: seq<BinState>): int {
    if states == [] then 0 else CountOf(states[..|states| - 1]) + |states[|states| - 1].packed|
  }

  /** One more rect in one bin is one more in total. */
  lemma {:induction false} CountOfUpdate(states: seq<BinState>, i: int, t: BinState)
    requires 0 <= i < |states| && |t.packed| == |states[i].packed| + 1
    ensures CountOf(states[i := t]) == CountOf(states) + 1
  {
    var u := states[i := t];
    if i == |states| - 1 {
      assert u[..|u| - 1] == states[..|states| - 1];
    } else {
      assert u[..|u| - 1] == states[..|states| - 1][i := t];
      CountOfUpdate(states[..|states| - 1], i, t);
    }
  }

  lemma CountOfAppend(states: seq<BinState>, t: BinState)
    ensures CountOf(states + [t]) == CountOf(states) + |t.packed|
  {
    assert (states + [t])[..|states|] == states;
  }

  /** Bins with nothing packed hold nothing in total. */
  lemma {:induction false} CountOfEmpty(states: seq<BinState>)
    requires forall k :: 0 <= k < |states| ==> states[k].packed == []
    ensures CountOf(states) == 0
  {
    if states != [] {
      CountOfEmpty(states[..|states| - 1]);
    }
  }

  /** Number of rects packed over all of `bins`. */
  ghost function PackedCount(bins: seq<MaxSpaceBin>): int
    reads bins
  {
    CountOf(States(bins))
  }

  /** The state `openNewBin` leaves a bin in: nothing packed, the whole bin free. */
  function EmptyState(width: int, height: int): BinState {
    BinState(width, height, [], [WholeBin(width, height)])
  }

  /** What `evaluatePacking` returns for `item` in a bin in state `s`. */
  function StateEvaluation(s: BinState, item: Rect, heur: PackingHeuristic, canRotate: bool): Option<Rect> {
    Evaluate(Query(heur, s.free, s.packed, s.width, s.height, item, canRotate))
  }

  /** What `evaluatePacking` returns for `item` in each of the bin states, in list order. */
  function StateEvaluations(states: seq<BinState>, item: Rect, heur: PackingHeuristic, canRotate: bool)
    : seq<Option<Rect>>
  {
    seq(|states|, k requires 0 <= k < |states| => StateEvaluation(states[k], item, heur, canRotate))
  }

  /** What `evaluatePacking` returns for the item in each of `bins`, in list order. */
  ghost function Evaluations(bins: seq<MaxSpaceBin>, item: Rect, heur: PackingHeuristic, canRotate: bool)
    : (evals: seq<Option<Rect>>)
    reads bins
    ensures |evals| == |bins|
  {
    if bins == [] then []
    else Evaluations(bins[..|bins| - 1], item, heur, canRotate) + [bins[|bins| - 1].Evaluation(item, heur, canRotate)]
  }

  lemma {:induction false} EvaluationsAt(bins: seq<MaxSpaceBin>, item: Rect, heur: PackingHeuristic, canRotate: bool, k: int)
    requires 0 <= k < |bins|
    ensures Evaluations(bins, item, heur, canRotate)[k] == bins[k].Evaluation(item, heur, canRotate)
  {
    if k < |bins| - 1 {
      EvaluationsAt(bins[..|bins| - 1], item, heur, canRotate, k);
    }
  }

  /** The evaluations in the bins are those in the bins' states. */
  lemma EvaluationsOfStates(bins: seq<MaxSpaceBin>, item: Rect, heur: PackingHeuristic, canRotate: bool)
    ensures Evaluations(bins, item, heur, canRotate) == StateEvaluations(States(bins), item, heur, canRotate)
  {
    forall k | 0 <= k < |bins|
      ensures Evaluations(bins, item, heur, canRotate)[k] == StateEvaluations(States(bins), item, heur, canRotate)[k]
    {
      EvaluationsAt(bins, item, heur, canRotate, k);
    }
  }

  /** Every placement an evaluation returns carries a score. */
  lemma EvaluationsScored(states: seq<BinState>, item: Rect, heur: PackingHeuristic, canRotate: bool)
    ensures AllScored(StateEvaluations(states, item, heur, canRotate))
  {
    var evals := StateEvaluations(states, item, heur, canRotate);
    forall k | 0 <= k < |evals| && evals[k].Some? ensures evals[k].value.score.Scored? {
      var s := states[k];
      EvaluatePlacement(Query(heur, s.free, s.packed, s.width, s.height, item, canRotate));
    }
  }

  predicate AllScored(evals: seq<Option<Rect>>) {
    forall k :: 0 <= k < |evals| && evals[k].Some? ==> evals[k].value.score.Scored?
  }

  /**
   * The bin loop of `pack` over the evaluations from position `k` on, holding
   * the best index and score so far: a placement replaces the best one only
   * when its score is strictly lower.
   */
  function BestScoreFrom(evals: seq<Option<Rect>>, k: int, best: int, bestValue: Score): (r: int)
    requires 0 <= k <= |evals|
    ensures r == best || (k <= r < |evals| && evals[r].Some?)
    decreases |evals| - k
  {
    if k == |evals| then best
    else if evals[k].Some? && ScoreLess(evals[k].value.score, bestValue) then
      BestScoreFrom(evals, k + 1, k, evals[k].value.score)
    else BestScoreFrom(evals, k + 1, best, bestValue)
  }

  /** The bin `pack` chooses: -1 when none admits the item. */
  function BestScoreIndex(evals: seq<Option<Rect>>): (r: int)
    ensures r == -1 || (0 <= r < |evals| && evals[r].Some?)
  {
    BestScoreFrom(evals, 0, -1, Unscored)
  }

  /** What the loop holds after visiting the first `k` evaluations. */
  ghost predicate BestSoFar(evals: seq<Option<Rect>>, k: int, best: int, bestValue: Score)
    requires 0 <= k <= |evals|
  {
    if best == -1 then
      bestValue == Unscored && forall m :: 0 <= m < k ==> evals[m].None?
    else
      0 <= best < k && evals[best].Some? && bestValue == evals[best].value.score && bestValue.Scored?
      && (forall m :: 0 <= m < k && evals[m].Some? ==> !ScoreLess(evals[m].value.score, bestValue))
      && (forall m :: 0 <= m < best && evals[m].Some? ==> ScoreLess(bestValue, evals[m].value.score))
  }

  lemma {:induction false} BestScoreFromIsBest(evals: seq<Option<Rect>>, k: int, best: int, bestValue: Score)
    requires 0 <= k <= |evals| && AllScored(evals)
    requires BestSoFar(evals, k, best, bestValue)
    ensures var r := BestScoreFrom(evals, k, best, bestValue);
      BestSoFar(evals, |evals|, r, if r == -1 then Unscored else evals[r].value.score)
    decreases |evals| - k
  {
    if k < |evals| {
      if evals[k].Some? && ScoreLess(evals[k].value.score, bestValue) {
        BestScoreFromIsBest(evals, k + 1, k, evals[k].value.score);
      } else {
        BestScoreFromIsBest(evals, k + 1, best, bestValue);
      }
    }
  }

  /**
   * `pack` picks no bin exactly when no bin admits the item; otherwise it picks
   * a bin whose score no other bin beats, and every admitting bin before it
   * scores strictly higher.
   */
  lemma BestScoreIndexIsFirstLowest(evals: seq<Option<Rect>>)
    requires AllScored(evals)
    ensures var r := BestScoreIndex(evals);
      (r == -1 <==> forall k :: 0 <= k < |evals| ==> evals[k].None?)
      && (r != -1 ==>
            (forall k :: 0 <= k < |evals| && evals[k].Some? ==> !ScoreLess(evals[k].value.score, evals[r].value.score))
            && (forall k :: 0 <= k < r && evals[k].Some? ==> ScoreLess(evals[r].value.score, evals[k].value.score)))
  {
    BestScoreFromIsBest(evals, 0, -1, Unscored);
  }

  /** The bin loop of `packFirst` from position `k` on: the first admitting bin. */
  function FirstAdmittingFrom(evals: seq<Option<Rect>>, k: int): (r: int)
    requires 0 <= k <= |evals|
    ensures r == -1 || (k <= r < |evals| && evals[r].Some?)
    decreases |evals| - k
  {
    if k == |evals| then -1
    else if evals[k].Some? then k
    else FirstAdmittingFrom(evals, k + 1)
  }

  /** `packFirst` picks no bin exactly when none admits the item, otherwise the first that does. */
  lemma {:induction false} FirstAdmittingIsFirst(evals: seq<Option<Rect>>, k: int)
    requires 0 <= k <= |evals|
    ensures var r := FirstAdmittingFrom(evals, k);
      (r == -1 <==> forall m :: k <= m < |evals| ==> evals[m].None?)
      && (r != -1 ==> forall m :: k <= m < r ==> evals[m].None?)
    decreases |evals| - k
  {
    if k < |evals| && evals[k].None? {
      FirstAdmittingIsFirst(evals, k + 1);
    }
  }

  /** The bin `packFirst` (`firstFit`) or `pack` chooses among the evaluations: -1 for none. */
  function ChosenIndex(evals: seq<Option<Rect>>, firstFit: bool): (i: int)
    ensures i == -1 || (0 <= i < |evals| && evals[i].Some?)
  {
    if firstFit then FirstAdmittingFrom(evals, 0) else BestScoreIndex(evals)
  }

  /**
   * Neither loop chooses a bin exactly when no bin admits the item. Otherwise
   * `packFirst` chooses the first admitting bin, and `pack` the first bin whose
   * score no other admitting bin beats.
   */
  lemma ChosenIndexMeaning(evals: seq<Option<Rect>>, firstFit: bool)
    requires AllScored(evals)
    ensures var i := ChosenIndex(evals, firstFit);
      (i == -1 <==> forall k :: 0 <= k < |evals| ==> evals[k].None?)
      && (i != -1 && firstFit ==> forall k :: 0 <= k < i ==> evals[k].None?)
      && (i != -1 && !firstFit ==>
            (forall k :: 0 <= k < |evals| && evals[k].Some? ==> !ScoreLess(evals[k].value.score, evals[i].value.score))
            && (forall k :: 0 <= k < i && evals[k].Some? ==> ScoreLess(evals[i].value.score, evals[k].value.score)))
  {
    if firstFit {
      FirstAdmittingIsFirst(evals, 0);
    } else {
      BestScoreIndexIsFirstLowest(evals);
    }
  }

  /**
   * `insert` packed `placed` into a bin: it is appended to the packed rects,
   * and the free rects are the regenerated list, pruned (a subsequence of it
   * that still covers it).
   */
  ghost predicate Inserted(before: BinState, after: BinState, placed: Rect) {
    after.width == before.width && after.height == before.height
    && after.packed == before.packed + [placed]
    && SubsequenceOf(after.free, Regenerated(before.free, placed))
    && Covers(after.free, Regenerated(before.free, placed))
  }

  /**
   * The bin `openNewBin` followed by `insert` of `item` leaves: the placement
   * the heuristic picks in the empty bin is inserted, or, when there is none,
   * the bin stays empty.
   */
  ghost predicate OpenedWith(s: BinState, width: int, height: int, item: Rect, heur: PackingHeuristic, canRotate: bool) {
    var e := StateEvaluation(EmptyState(width, height), item, heur, canRotate);
    if e.Some? then Inserted(EmptyState(width, height), s, e.value) else s == EmptyState(width, height)
  }

  /**
   * One item of `pack` (`firstFit` false) or `packFirst` (`firstFit` true), from
   * the bin states `before` to `after`: the item, stripped of its packing
   * information, is evaluated in every bin; the chosen bin has the placement
   * its evaluation returned inserted, and no other bin changes; when no bin
   * admits the item, a new bin opened with it is appended.
   */
  ghost predicate PackStep(before: seq<BinState>, after: seq<BinState>, item: Rect, width: int, height: int,
                           heur: PackingHeuristic, canRotate: bool, firstFit: bool)
  {
    var cur := RemovePackingInfo(item);
    var evals := StateEvaluations(before, cur, heur, canRotate);
    var i := ChosenIndex(evals, firstFit);
    if i == -1 then
      |after| == |before| + 1 && after[..|before|] == before
      && OpenedWith(after[|before|], width, height, cur, heur, canRotate)
    else
      |after| == |before| && after == before[i := after[i]]
      && Inserted(before[i], after[i], evals[i].value)
  }

  /** The `PackStep` of an item that the chosen bin `i` receives. */
  lemma PackStepIntoChosen(before: seq<BinState>, after: seq<BinState>, item: Rect, width: int, height: int,
                           heur: PackingHeuristic, canRotate: bool, firstFit: bool, i: int)
    requires 0 <= i < |before| == |after|
    requires i == ChosenIndex(StateEvaluations(before, RemovePackingInfo(item), heur, canRotate), firstFit)
    requires after == before[i := after[i]]
    requires Inserted(before[i], after[i], StateEvaluations(before, RemovePackingInfo(item), heur, canRotate)[i].value)
    ensures PackStep(before, after, item, width, height, heur, canRotate, firstFit)
  {
  }

  /** The `PackStep` of an item no bin admits. */
  lemma PackStepIntoNew(before: seq<BinState>, after: seq<BinState>, item: Rect, width: int, height: int,
                        heur: PackingHeuristic, canRotate: bool, firstFit: bool)
    requires ChosenIndex(StateEvaluations(before, RemovePackingInfo(item), heur, canRotate), firstFit) == -1
    requires |after| == |before| + 1 && after[..|before|] == before
    requires OpenedWith(after[|before|], width, height, RemovePackingInfo(item), heur, canRotate)
    ensures PackStep(before, after, item, width, height, heur, canRotate, firstFit)
  {
  }

  /** `history[n]` holds the bin states before item `n`, and each item takes one `PackStep`. */
  ghost predicate PackTrace(history: seq<seq<BinState>>, items: seq<Rect>, width: int, height: int,
                            heur: PackingHeuristic, canRotate: bool, firstFit: bool)
  {
    |history| == |items| + 1
    && forall n {:trigger PackStep(history[n], history[n + 1], items[n], width, height, heur, canRotate, firstFit)} ::
         0 <= n < |items| ==>
         PackStep(history[n], history[n + 1], items[n], width, height, heur, canRotate, firstFit)
  }

  /**
   * A whole run of `pack` or `packFirst`: it starts from `count` empty bins,
   * takes one `PackStep` per item, and ends with the bins in the states `final`.
   */
  ghost predicate PackRun(history: seq<seq<BinState>>, count: int, items: seq<Rect>, final: seq<BinState>,
                          width: int, height: int, heur: PackingHeuristic, canRotate: bool, firstFit: bool)
  {
    PackTrace(history, items, width, height, heur, canRotate, firstFit)
    && |history[0]| == count
    && (forall k :: 0 <= k < count ==> history[0][k] == EmptyState(width, height))
    && history[|items|] == final
  }

  lemma PackTraceAppend(history: seq<seq<BinState>>, items: seq<Rect>, item: Rect, after: seq<BinState>,
                        width: int, height: int, heur: PackingHeuristic, canRotate: bool, firstFit: bool)
    requires PackTrace(history, items, width, height, heur, canRotate, firstFit)
    requires PackStep(history[|items|], after, item, width, height, heur, canRotate, firstFit)
    ensures PackTrace(history + [after], items + [item], width, height, heur, canRotate, firstFit)
  {
    var h, t := history + [after], items + [item];
    forall n | 0 <= n < |t|
      ensures PackStep(h[n], h[n + 1], t[n], width, height, heur, canRotate, firstFit)
    {
      if n < |items| {
        assert h[n] == history[n] && h[n + 1] == history[n + 1] && t[n] == items[n];
      }
    }
  }

  /**
   * What one item does to the bins, in the source's terms: a new bin is opened
   * exactly when no open bin admits the item; otherwise only the chosen bin
   * changes, gaining the placement evaluated there, and that bin is the first
   * admitting one for `packFirst` and the first with the lowest score for
   * `pack`.
   */
  lemma PackStepChoice(before: seq<BinState>, after: seq<BinState>, item: Rect, width: int, height: int,
                       heur: PackingHeuristic, canRotate: bool, firstFit: bool)
    requires PackStep(before, after, item, width, height, heur, canRotate, firstFit)
    ensures var evals := StateEvaluations(before, RemovePackingInfo(item), heur, canRotate);
      |after| == |before| + 1 <==> forall k :: 0 <= k < |before| ==> evals[k].None?
    ensures var evals := StateEvaluations(before, RemovePackingInfo(item), heur, canRotate);
      var i := ChosenIndex(evals, firstFit);
      |after| == |before| ==>
        0 <= i < |before| && evals[i].Some?
        && after[i].packed == before[i].packed + [evals[i].value]
        && (forall k :: 0 <= k < |before| && k != i ==> after[k] == before[k])
        && (firstFit ==> forall k :: 0 <= k < i ==> evals[k].None?)
        && (!firstFit ==>
              forall k :: 0 <= k < |before| && evals[k].Some? ==> !ScoreLess(evals[k].value.score, evals[i].value.score))
        && (!firstFit ==>
              forall k :: 0 <= k < i && evals[k].Some? ==> ScoreLess(evals[i].value.score, evals[k].value.score))
  {
    var evals := StateEvaluations(before, RemovePackingInfo(item), heur, canRotate);
    EvaluationsScored(before, RemovePackingInfo(item), heur, canRotate);
    ChosenIndexMeaning(evals, firstFit);
    var i := ChosenIndex(evals, firstFit);
    if i != -1 {
      forall k | 0 <= k < |before| && k != i ensures after[k] == before[k] {
        assert after[k] == before[i := after[i]][k];
      }
    }
  }

  /**
   * Bins that are distinct objects of the given dimensions, each valid and
   * feasible.
   */
  ghost predicate BinsOk(bins: seq<MaxSpaceBin>, binWidth: int, binHeight: int)
    reads bins
  {
    (forall k, l :: 0 <= k < l < |bins| ==> bins[k] != bins[l])
    && (forall b :: b in bins ==>
          b.binWidth == binWidth && b.binHeight == binHeight && b.Valid() && b.Feasible())
  }

  lemma BinsOkAppend(bins: seq<MaxSpaceBin>, newBin: MaxSpaceBin, binWidth: int, binHeight: int)
    requires BinsOk(bins, binWidth, binHeight) && newBin !in bins
    requires newBin.binWidth == binWidth && newBin.binHeight == binHeight && newBin.Valid() && newBin.Feasible()
    ensures BinsOk(bins + [newBin], binWidth, binHeight)
  {
  }

  class RBPSolution {
    const binWidth: int
    const binHeight: int
    var binList: seq<MaxSpaceBin>
    var numBins: int

    /** A solution over bins of positive size whose bins are fine and whose `numBins` counts them. */
    ghost predicate Valid()
      reads this, binList
    {
      binWidth > 0 && binHeight > 0 && numBins == |binList| && BinsOk(binList, binWidth, binHeight)
    }

    /** A solution with no bins yet; valid exactly when the bin sides are positive. */
    constructor (width: int, height: int)
      ensures binWidth == width && binHeight == height
      ensures binList == [] && numBins == 0
      ensures Valid() <==> width > 0 && height > 0
    {
      binWidth := width;
      binHeight := height;
      binList := [];
      numBins := 0;
    }

    /** The copy constructor: a fresh copy of every bin, in order. */
    constructor Copy(newSol: RBPSolution)
      ensures binWidth == newSol.binWidth && binHeight == newSol.binHeight
      ensures numBins == newSol.numBins && |binList| == |newSol.binList|
      ensures forall k :: 0 <= k < |binList| ==>
        fresh(binList[k])
        && binList[k].packedRects == newSol.binList[k].packedRects
        && binList[k].freeRects == newSol.binList[k].freeRects
        && binList[k].Equals(newSol.binList[k])
      ensures newSol.Valid() ==> Valid()
    {
      var bins: seq<MaxSpaceBin> := [];
      for k := 0 to |newSol.binList|
        invariant |bins| == k
        invariant forall m :: 0 <= m < k ==>
          fresh(bins[m])
          && bins[m].packedRects == newSol.binList[m].packedRects
          && bins[m].freeRects == newSol.binList[m].freeRects
          && bins[m].Equals(newSol.binList[m])
          && (newSol.binList[m].binWidth == newSol.binWidth && newSol.binList[m].binHeight == newSol.binHeight
              ==> bins[m].binWidth == newSol.binWidth && bins[m].binHeight == newSol.binHeight)
          && (newSol.binList[m].Valid() ==> bins[m].Valid())
          && (newSol.binList[m].Feasible() ==> bins[m].Feasible())
        invariant forall m, n :: 0 <= m < n < k ==> bins[m] != bins[n]
      {
        var bin := new MaxSpaceBin.Copy(newSol.binList[k]);
        bins := bins + [bin];
      }
      binWidth := newSol.binWidth;
      binHeight := newSol.binHeight;
      binList := bins;
      numBins := newSol.numBins;
      new;
      if newSol.Valid() {
        forall b | b in binList
          ensures b.binWidth == binWidth && b.binHeight == binHeight && b.Valid() && b.Feasible()
        {
          var k :| 0 <= k < |binList| && binList[k] == b;
          assert newSol.binList[k] in newSol.binList;
        }
      }
    }

    /** `computeLowerBound`: sum the item areas, then divide as Java does. */
    method ComputeLowerBound(rectList: seq<Rect>) returns (lb: int)
      requires binWidth * binHeight != 0
      ensures lb == LowerBound(rectList, binWidth, binHeight)
    {
      var area := 0;
      for k := 0 to |rectList|
        invariant area == AreaSum(rectList[..k])
      {
        var rect := rectList[k];
        assert rectList[..k + 1][..k] == rectList[..k];
        area := area + rect.width * rect.height;
      }
      assert rectList[..|rectList|] == rectList;
      lb := JavaDiv(area, binWidth * binHeight) + 1;
    }

    /**
     * `openNewBin`: a fresh, initialised bin of the given dimensions (the
     * solution's own, which the callers pass).
     */
    static method OpenNewBin(width: int, height: int) returns (newBin: MaxSpaceBin)
      ensures fresh(newBin)
      ensures newBin.binWidth == width && newBin.binHeight == height
      ensures newBin.packedRects == [] && newBin.occupiedArea == 0
      ensures newBin.freeRects == [WholeBin(width, height)]
      ensures width > 0 && height > 0 ==> newBin.Valid() && newBin.Feasible()
    {
      newBin := new MaxSpaceBin(width, height);
      newBin.Init();
      if width > 0 && height > 0 {
        newBin.ValidIsFeasible();
      }
    }

    /**
     * The bin loop of `pack`: the bin `BestScoreIndex` names, and its
     * placement, found by evaluating the item in every bin in turn.
     */
    static method ChooseBestBin(bins: seq<MaxSpaceBin>, curRect: Rect, heur: PackingHeuristic, canRotate: bool)
      returns (bestIndex: int, bestRect: Option<Rect>)
      ensures bestIndex == BestScoreIndex(Evaluations(bins, curRect, heur, canRotate))
      ensures bestRect == if bestIndex == -1 then None else Evaluations(bins, curRect, heur, canRotate)[bestIndex]
    {
      ghost var evals := Evaluations(bins, curRect, heur, canRotate);
      var bestValue := Unscored;
      bestIndex := -1;
      bestRect := None;
      for k := 0 to |bins|
        invariant bestIndex == -1 || 0 <= bestIndex < k
        invariant BestScoreFrom(evals, k, bestIndex, bestValue) == BestScoreIndex(evals)
        invariant bestRect == if bestIndex == -1 then None else evals[bestIndex]
      {
        var bin := bins[k];
        var newRect := bin.EvaluatePacking(curRect, heur, canRotate);
        EvaluationsAt(bins, curRect, heur, canRotate, k);
        assert newRect == evals[k];
        ghost var prevIndex, prevValue := bestIndex, bestValue;
        if newRect.Some? && ScoreLess(newRect.value.score, bestValue) {
          bestValue := newRect.value.score;
          bestIndex := k;
          bestRect := newRect;
        }
        assert BestScoreFrom(evals, k, prevIndex, prevValue) == BestScoreFrom(evals, k + 1, bestIndex, bestValue);
      }
    }

    /**
     * The bin loop of `packFirst`: the first bin whose evaluation places the
     * item, and that placement; the loop stops there.
     */
    static method FirstAdmittingBin(bins: seq<MaxSpaceBin>, curRect: Rect, heur: PackingHeuristic, canRotate: bool)
      returns (bestIndex: int, bestRect: Option<Rect>)
      ensures bestIndex == FirstAdmittingFrom(Evaluations(bins, curRect, heur, canRotate), 0)
      ensures bestRect == if bestIndex == -1 then None else Evaluations(bins, curRect, heur, canRotate)[bestIndex]
    {
      ghost var evals := Evaluations(bins, curRect, heur, canRotate);
      bestIndex := -1;
      bestRect := None;
      var k := 0;
      while k < |bins|
        invariant 0 <= k <= |bins|
        invariant FirstAdmittingFrom(evals, k) == FirstAdmittingFrom(evals, 0)
      {
        var bin := bins[k];
        var newRect := bin.EvaluatePacking(curRect, heur, canRotate);
        EvaluationsAt(bins, curRect, heur, canRotate, k);
        if newRect.Some? {
          bestIndex := k;
          bestRect := newRect;
          return;
        }
        k := k + 1;
      }
    }

    /**
     * The branch of `pack` and `packFirst` that found no bin: a new bin with
     * the item inserted by the heuristic. The bin holds the placement the
     * heuristic picks in the empty bin, which exists exactly when the item
     * fits an empty bin, and the bin is valid and feasible.
     */
    static method OpenBinWith(width: int, height: int, curRect: Rect, heur: PackingHeuristic, canRotate: bool)
      returns (newBin: MaxSpaceBin)
      requires width > 0 && height > 0
      requires HasPositiveSize(curRect) && !IsReadyForPacking(curRect)
      ensures fresh(newBin)
      ensures newBin.binWidth == width && newBin.binHeight == height
      ensures newBin.Valid() && newBin.Feasible()
      ensures OpenedWith(StateOf(newBin), width, height, curRect, heur, canRotate)
      ensures |newBin.packedRects| == if FitsBin(curRect, width, height, canRotate) then 1 else 0
    {
      newBin := OpenNewBin(width, height);
      newBin.EvaluationInEmptyBin(curRect, heur, canRotate);
      assert StateOf(newBin) == EmptyState(width, height);
      assert newBin.Evaluation(curRect, heur, canRotate) == StateEvaluation(EmptyState(width, height), curRect, heur, canRotate);
      var _ := newBin.Insert(curRect, heur, canRotate);
    }

    /**
     * The branch of `pack` and `packFirst` that found a bin: insert the
     * evaluated placement into it. That bin gains the placement and no other
     * bin changes; the item fits an empty bin, and the total packed count
     * grows by one.
     */
    static method PackIntoBin(bins: seq<MaxSpaceBin>, width: int, height: int, curRect: Rect,
                              bestIndex: int, bestRect: Option<Rect>, heur: PackingHeuristic, canRotate: bool)
      requires BinsOk(bins, width, height)
      requires HasPositiveSize(curRect)
      requires 0 <= bestIndex < |bins| && bestRect == Evaluations(bins, curRect, heur, canRotate)[bestIndex]
      requires bestRect.Some?
      modifies bins[bestIndex]
      ensures BinsOk(bins, width, height)
      ensures Inserted(old(StateOf(bins[bestIndex])), StateOf(bins[bestIndex]), bestRect.value)
      ensures States(bins) == old(States(bins))[bestIndex := StateOf(bins[bestIndex])]
      ensures FitsBin(curRect, width, height, canRotate)
      ensures PackedCount(bins) == old(PackedCount(bins)) + 1
    {
      ghost var states := States(bins);
      var bestBin := bins[bestIndex];
      EvaluationsAt(bins, curRect, heur, canRotate, bestIndex);
      bestBin.EvaluationInsertable(curRect, heur, canRotate);
      var _ := bestBin.Insert(bestRect.value, heur, canRotate);
      forall b | b in bins
        ensures b.binWidth == width && b.binHeight == height && b.Valid() && b.Feasible()
      {
        if b != bestBin {
          assert old(b.Valid() && b.Feasible());
        }
      }
      forall k | 0 <= k < |bins|
        ensures States(bins)[k] == states[bestIndex := StateOf(bestBin)][k]
      {
        if k != bestIndex {
          assert bins[k] != bestBin;
        }
      }
      CountOfUpdate(states, bestIndex, StateOf(bestBin));
    }

    /**
     * One iteration of the item loop of `pack` (`firstFit` false) or
     * `packFirst` (`firstFit` true) over the bin list `bins`: strip the
     * item's packing information, choose a bin, and insert the item there or
     * into a new bin appended to the list, as `PackStep` describes. The item
     * gets packed exactly when it fits an empty bin.
     */
    static method PackItem(bins: seq<MaxSpaceBin>, width: int, height: int, item: Rect,
                           heur: PackingHeuristic, canRotate: bool, firstFit: bool)
      returns (newBins: seq<MaxSpaceBin>)
      requires width > 0 && height > 0 && BinsOk(bins, width, height)
      requires HasPositiveSize(item)
      modifies set b | b in bins
      ensures BinsOk(newBins, width, height)
      ensures PackStep(old(States(bins)), States(newBins), item, width, height, heur, canRotate, firstFit)
      ensures |bins| <= |newBins| <= |bins| + 1 && newBins[..|bins|] == bins
      ensures forall b :: b in newBins ==> b in bins || fresh(b)
      ensures PackedCount(newBins) == old(PackedCount(bins)) + (if FitsBin(item, width, height, canRotate) then 1 else 0)
    {
      var curRect := RemovePackingInfo(item);
      EvaluationsOfStates(bins, curRect, heur, canRotate);
      var bestIndex, bestRect := ChooseBin(bins, curRect, heur, canRotate, firstFit);
      if bestIndex != -1 {
        PackChosen(bins, width, height, item, bestIndex, bestRect, heur, canRotate, firstFit);
        newBins := bins;
      } else {
        newBins := PackNew(bins, width, height, item, heur, canRotate, firstFit);
      }
    }

    /** `PackItem` when bin `bestIndex` was chosen: `PackIntoBin`, seen as a `PackStep`. */
    static method PackChosen(bins: seq<MaxSpaceBin>, width: int, height: int, item: Rect, bestIndex: int,
                             bestRect: Option<Rect>, heur: PackingHeuristic, canRotate: bool, firstFit: bool)
      requires BinsOk(bins, width, height) && HasPositiveSize(item)
      requires Evaluations(bins, RemovePackingInfo(item), heur, canRotate)
               == StateEvaluations(States(bins), RemovePackingInfo(item), heur, canRotate)
      requires 0 <= bestIndex < |bins|
      requires bestIndex == ChosenIndex(Evaluations(bins, RemovePackingInfo(item), heur, canRotate), firstFit)
      requires bestRect == Evaluations(bins, RemovePackingInfo(item), heur, canRotate)[bestIndex]
      modifies bins[bestIndex]
      ensures BinsOk(bins, width, height)
      ensures PackStep(old(States(bins)), States(bins), item, width, height, heur, canRotate, firstFit)
      ensures FitsBin(item, width, height, canRotate)
      ensures PackedCount(bins) == old(PackedCount(bins)) + 1
    {
      ghost var before := States(bins);
      var curRect := RemovePackingInfo(item);
      assert StateOf(bins[bestIndex]) == before[bestIndex];
      PackIntoBin(bins, width, height, curRect, bestIndex, bestRect, heur, canRotate);
      PackStepIntoChosen(before, States(bins), item, width, height, heur, canRotate, firstFit, bestIndex);
    }

    /** `PackItem` when no bin was chosen: `AppendBinWith`, seen as a `PackStep`. */
    static method PackNew(bins: seq<MaxSpaceBin>, width: int, height: int, item: Rect,
                          heur: PackingHeuristic, canRotate: bool, firstFit: bool)
      returns (newBins: seq<MaxSpaceBin>)
      requires width > 0 && height > 0 && BinsOk(bins, width, height) && HasPositiveSize(item)
      requires ChosenIndex(StateEvaluations(States(bins), RemovePackingInfo(item), heur, canRotate), firstFit) == -1
      ensures BinsOk(newBins, width, height)
      ensures PackStep(States(bins), States(newBins), item, width, height, heur, canRotate, firstFit)
      ensures |newBins| == |bins| + 1 && newBins == bins + [newBins[|bins|]] && fresh(newBins[|bins|])
      ensures PackedCount(newBins)
              == PackedCount(bins) + (if FitsBin(item, width, height, canRotate) then 1 else 0)
    {
      var curRect := RemovePackingInfo(item);
      newBins := AppendBinWith(bins, width, height, curRect, heur, canRotate);
      PackStepIntoNew(States(bins), States(newBins), item, width, height, heur, canRotate, firstFit);
    }

    /** The bin search of `packFirst` (`firstFit`) or of `pack`, as the item loop uses it. */
    static method ChooseBin(bins: seq<MaxSpaceBin>, curRect: Rect, heur: PackingHeuristic, canRotate: bool,
                            firstFit: bool)
      returns (bestIndex: int, bestRect: Option<Rect>)
      ensures bestIndex == ChosenIndex(Evaluations(bins, curRect, heur, canRotate), firstFit)
      ensures bestRect == if bestIndex == -1 then None else Evaluations(bins, curRect, heur, canRotate)[bestIndex]
    {
      if firstFit {
        bestIndex, bestRect := FirstAdmittingBin(bins, curRect, heur, canRotate);
      } else {
        bestIndex, bestRect := ChooseBestBin(bins, curRect, heur, canRotate);
      }
    }

    /**
     * The branch of `pack` and `packFirst` that found no bin: open a bin, let
     * the heuristic insert the item, and append the bin to the list.
     */
    static method AppendBinWith(bins: seq<MaxSpaceBin>, width: int, height: int, curRect: Rect,
                                heur: PackingHeuristic, canRotate: bool)
      returns (newBins: seq<MaxSpaceBin>)
      requires width > 0 && height > 0 && BinsOk(bins, width, height)
      requires HasPositiveSize(curRect) && !IsReadyForPacking(curRect)
      ensures BinsOk(newBins, width, height)
      ensures |newBins| == |bins| + 1 && newBins == bins + [newBins[|bins|]] && fresh(newBins[|bins|])
      ensures newBins[..|bins|] == bins
      ensures States(newBins) == States(bins) + [StateOf(newBins[|bins|])]
      ensures OpenedWith(StateOf(newBins[|bins|]), width, height, curRect, heur, canRotate)
      ensures PackedCount(newBins)
              == old(PackedCount(bins)) + (if FitsBin(curRect, width, height, canRotate) then 1 else 0)
    {
      ghost var count := PackedCount(bins);
      ghost var states := States(bins);
      var newBin := OpenBinWith(width, height, curRect, heur, canRotate);
      assert PackedCount(bins) == count && States(bins) == states;
      BinsOkAppend(bins, newBin, width, height);
      StatesAppend(bins, newBin);
      CountOfAppend(states, StateOf(newBin));
      newBins := bins + [newBin];
    }

    /**
     * The body of `pack` (`firstFit` false, `count` the lower bound) and of
     * `packFirst` (`firstFit` true, `count` one) after the bin list is
     * created: open `count` bins, then pack the items in order. `history`
     * holds the bin states before each item and after the last.
     */
    static method PackAll(count: int, width: int, height: int, rectList: seq<Rect>,
                          heur: PackingHeuristic, canRotate: bool, firstFit: bool)
      returns (bins: seq<MaxSpaceBin>, ghost history: seq<seq<BinState>>)
      requires count >= 0 && width > 0 && height > 0
      requires forall r :: r in rectList ==> HasPositiveSize(r)
      ensures BinsOk(bins, width, height)
      ensures count <= |bins| <= count + |rectList|
      ensures forall b :: b in bins ==> fresh(b)
      ensures PackedCount(bins) == CountFitting(rectList, width, height, canRotate)
      ensures PackRun(history, count, rectList, States(bins), width, height, heur, canRotate, firstFit)
    {
      bins := OpenBins(count, width, height);
      bins, history := PackItems(bins, width, height, rectList, heur, canRotate, firstFit);
    }

    /** The opening loop of `pack`: `count` fresh, empty bins. */
    static method OpenBins(count: int, width: int, height: int) returns (bins: seq<MaxSpaceBin>)
      requires count >= 0 && width > 0 && height > 0
      ensures |bins| == count
      ensures BinsOk(bins, width, height) && PackedCount(bins) == 0
      ensures forall b :: b in bins ==> fresh(b)
      ensures forall k :: 0 <= k < count ==> StateOf(bins[k]) == EmptyState(width, height)
    {
      bins := [];
      for i := 0 to count
        invariant |bins| == i
        invariant BinsOk(bins, width, height)
        invariant forall b :: b in bins ==> fresh(b) && b.packedRects == [] && b.freeRects == [WholeBin(width, height)]
      {
        var bin := OpenNewBin(width, height);
        bins := bins + [bin];
      }
      forall k | 0 <= k < count ensures StateOf(bins[k]) == EmptyState(width, height) {
        assert bins[k] in bins;
      }
      CountOfEmpty(States(bins));
    }

    /**
     * `pack`: open as many bins as the lower bound says, then put each item,
     * in order, into the bin whose evaluation scores lowest, opening a new bin
     * when none admits it. Every bin stays feasible, and exactly the items
     * that fit an empty bin get packed. `history` holds the bin states before
     * each item and after the last.
     */
    method Pack(rectList: seq<Rect>, heur: PackingHeuristic, canRotate: bool)
      returns (ghost history: seq<seq<BinState>>)
      requires binWidth > 0 && binHeight > 0
      requires forall r :: r in rectList ==> HasPositiveSize(r)
      modifies this
      ensures Valid()
      ensures forall b :: b in binList ==> fresh(b)
      ensures PackedCount(binList) == CountFitting(rectList, binWidth, binHeight, canRotate)
      ensures PackRun(history, LowerBound(rectList, binWidth, binHeight), rectList, States(binList),
                      binWidth, binHeight, heur, canRotate, false)
      ensures |history[0]| <= |binList| <= |history[0]| + |rectList|
    {
      CapacityPositive(binWidth, binHeight);
      var lb := ComputeLowerBound(rectList);
      LowerBoundAtLeastOne(rectList, binWidth, binHeight);
      var bins;
      bins, history := PackAll(lb, binWidth, binHeight, rectList, heur, canRotate, false);
      ghost var final := States(bins);
      binList, numBins := bins, |bins|;
      assert States(binList) == final;
    }

    /**
     * `packFirst`: start from one bin, put each item, in order, into the first
     * bin whose evaluation admits it, opening a new bin when none does. Every
     * bin stays feasible, and exactly the items that fit an empty bin get
     * packed. `history` holds the bin states before each item and after the
     * last.
     */
    method PackFirst(rectList: seq<Rect>, heur: PackingHeuristic, canRotate: bool)
      returns (ghost history: seq<seq<BinState>>)
      requires binWidth > 0 && binHeight > 0
      requires forall r :: r in rectList ==> HasPositiveSize(r)
      modifies this
      ensures Valid()
      ensures forall b :: b in binList ==> fresh(b)
      ensures 1 <= |binList| <= 1 + |rectList|
      ensures PackedCount(binList) == CountFitting(rectList, binWidth, binHeight, canRotate)
      ensures PackRun(history, 1, rectList, States(binList), binWidth, binHeight, heur, canRotate, true)
    {
      var bins;
      bins, history := PackAll(1, binWidth, binHeight, rectList, heur, canRotate, true);
      ghost var final := States(bins);
      binList, numBins := bins, |bins|;
      assert States(binList) == final;
    }

    /**
     * The item loop of `pack` and `packFirst`: each item in turn goes through
     * `PackItem`, so the list grows by at most one bin per item and, starting
     * from empty bins, the packed count is the number of items that fit an
     * empty bin. `history` holds the bin states before each item and after
     * the last.
     */
    static method PackItems(bins: seq<MaxSpaceBin>, width: int, height: int, rectList: seq<Rect>,
                            heur: PackingHeuristic, canRotate: bool, firstFit: bool)
      returns (result: seq<MaxSpaceBin>, ghost history: seq<seq<BinState>>)
      requires width > 0 && height > 0 && BinsOk(bins, width, height) && PackedCount(bins) == 0
      requires forall r :: r in rectList ==> HasPositiveSize(r)
      modifies set b | b in bins
      ensures BinsOk(result, width, height)
      ensures |bins| <= |result| <= |bins| + |rectList|
      ensures forall b :: b in result ==> b in bins || fresh(b)
      ensures PackedCount(result) == CountFitting(rectList, width, height, canRotate)
      ensures PackTrace(history, rectList, width, height, heur, canRotate, firstFit)
      ensures history[0] == old(States(bins)) && history[|rectList|] == States(result)
    {
      result := bins;
      history := [States(bins)];
      for n := 0 to |rectList|
        invariant BinsOk(result, width, height)
        invariant |bins| <= |result| <= |bins| + n
        invariant forall b :: b in result ==> b in bins || fresh(b)
        invariant PackedCount(result) == CountFitting(rectList[..n], width, height, canRotate)
        invariant PackTrace(history, rectList[..n], width, height, heur, canRotate, firstFit)
        invariant history[0] == old(States(bins)) && history[n] == States(result)
      {
        assert rectList[n] in rectList;
        CountFittingStep(rectList, n, width, height, canRotate);
        result, history := PackNext(result, width, height, rectList, n, heur, canRotate, firstFit, history);
      }
      assert rectList[..|rectList|] == rectList;
    }

    /** One turn of the item loop: `PackItem` on item `n`, recorded in the trace. */
    static method PackNext(bins: seq<MaxSpaceBin>, width: int, height: int, rectList: seq<Rect>, n: int,
                           heur: PackingHeuristic, canRotate: bool, firstFit: bool, ghost history: seq<seq<BinState>>)
      returns (newBins: seq<MaxSpaceBin>, ghost history': seq<seq<BinState>>)
      requires width > 0 && height > 0 && BinsOk(bins, width, height)
      requires 0 <= n < |rectList| && HasPositiveSize(rectList[n])
      requires PackTrace(history, rectList[..n], width, height, heur, canRotate, firstFit)
      requires history[n] == States(bins)
      modifies set b | b in bins
      ensures BinsOk(newBins, width, height)
      ensures |bins| <= |newBins| <= |bins| + 1
      ensures forall b :: b in newBins ==> b in bins || fresh(b)
      ensures PackedCount(newBins)
              == old(PackedCount(bins)) + (if FitsBin(rectList[n], width, height, canRotate) then 1 else 0)
      ensures PackTrace(history', rectList[..n + 1], width, height, heur, canRotate, firstFit)
      ensures history'[0] == history[0] && history'[n + 1] == States(newBins)
    {
      assert rectList[..n + 1] == rectList[..n] + [rectList[n]];
      newBins := PackItem(bins, width, height, rectList[n], heur, canRotate, firstFit);
      PackTraceAppend(history, rectList[..n], rectList[n], States(newBins), width, height, heur, canRotate, firstFit);
      history' := history + [States(newBins)];
    }

    /** `isFeasible`: every bin passes its own feasibility check. */
    method IsFeasible() returns (feasible: bool)
      ensures feasible <==> forall b :: b in binList ==> b.Feasible()
      ensures Valid() ==> feasible
    {
      for k := 0 to |binList|
        invariant forall m :: 0 <= m < k ==> binList[m].Feasible()
      {
        var bin := binList[k];
        var ok := bin.IsFeasible();
        if !ok {
          return false;
        }
      }
      return true;
    }

    /** `getNumberOfBin`: in a valid solution, the number of bins in the list. */
    function NumberOfBins(): (n: int)
      reads this, binList
      ensures Valid() ==> n == |binList|
    {
      numBins
    }
  }
}
