/** The ordering of items by decreasing stored area (RectAreaComparator.java). */
module RectAreaComparator {
  import opened Rects

  /** Java's `Integer.compare`: -1, 0 or 1 as `a` is below, equal to or above `b`. */
  function IntegerCompare(a: int, b: int): (r: int)
    ensures r == -1 || r == 0 || r == 1
    ensures r < 0 <==> a < b
    ensures r == 0 <==> a == b
  {
    if a < b then -1 else if a == b then 0 else 1
  }

  /**
   * `compare(a, b)`: negative when `a` should come first, that is when `a` has
   * the larger area, so that sorting puts the largest items first.
   */
  function Compare(a: Rect, b: Rect): (r: int)
    ensures r < 0 <==> a.area > b.area
    ensures r == 0 <==> a.area == b.area
    ensures r > 0 <==> a.area < b.area
  {
    -IntegerCompare(a.area, b.area)
  }

  function Sign(v: int): int { if v < 0 then -1 else if v == 0 then 0 else 1 }

  /** The comparator is antisymmetric. */
  lemma CompareAntisymmetric(a: Rect, b: Rect)
    ensures Sign(Compare(a, b)) == -Sign(Compare(b, a))
  {
  }

  /** The comparator is transitive, both for "before" and for "tied". */
  lemma CompareTransitive(a: Rect, b: Rect, c: Rect)
    ensures Compare(a, b) < 0 && Compare(b, c) < 0 ==> Compare(a, c) < 0
    ensures Compare(a, b) == 0 && Compare(b, c) == 0 ==> Compare(a, c) == 0
  {
  }

  /** The order only looks at the stored area, which rotation and placement leave alone. */
  lemma CompareIgnoresOrientation(a: Rect, b: Rect)
    ensures Compare(Rotate(a), b) == Compare(a, b)
    ensures Compare(a, Rotate(b)) == Compare(a, b)
    ensures Compare(RemovePackingInfo(a), b) == Compare(a, b)
  {
  }
}
