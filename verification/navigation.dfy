/**
 * The chapter index that keyboard and swipe navigation ask `showChapter`
 * to display. Whether that index is shown is decided by `showChapter`'s
 * bounds guard (`InteractiveBook.Book.ShowChapter`).
 */
module Navigation {
  import opened Content

  datatype NavKey = ArrowLeft | ArrowRight | OtherKey

  /** A swipe must move farther than this many pixels to count. */
  const SwipeThreshold: int := 75

  function Max(a: int, b: int): int { if a < b then b else a }
  function Min(a: int, b: int): int { if a < b then a else b }

  /**
   * The index requested for a key press: one chapter back, clamped at 0, for
   * ArrowLeft; one forward, clamped at the last chapter, for ArrowRight;
   * nothing for any other key.
   */
  function ArrowTarget(key: NavKey, current: int, count: nat): (t: Option<int>)
    ensures t.None? <==> key == OtherKey
    ensures key == ArrowLeft ==>
              t.value >= 0 && t.value >= current - 1 && (t.value == 0 || t.value == current - 1)
    ensures key == ArrowRight ==>
              t.value <= count - 1 && t.value <= current + 1 && (t.value == count - 1 || t.value == current + 1)
  {
    match key
    case ArrowLeft => Some(Max(0, current - 1))
    case ArrowRight => Some(Min(count - 1, current + 1))
    case OtherKey => None
  }

  /**
   * The index requested for a swipe from `startX` to `endX`: a leftward
   * swipe longer than the threshold asks for the next chapter unless the
   * current one is the last; a rightward one asks for the previous chapter
   * unless the current one is the first.
   */
  function SwipeTarget(current: int, count: nat, startX: int, endX: int): (t: Option<int>)
    ensures t.Some? ==> startX - endX > SwipeThreshold || endX - startX > SwipeThreshold
    ensures t.Some? && startX > endX ==> t.value == current + 1 && current < count - 1
    ensures t.Some? && startX < endX ==> t.value == current - 1 && current > 0
    ensures startX - endX > SwipeThreshold && current < count - 1 ==> t == Some(current + 1)
    ensures endX - startX > SwipeThreshold && current > 0 ==> t == Some(current - 1)
  {
    var diff := startX - endX;
    if diff > SwipeThreshold || -diff > SwipeThreshold then
      if diff > 0 && current < count - 1 then Some(current + 1)
      else if diff < 0 && current > 0 then Some(current - 1)
      else None
    else None
  }

  /**
   * From a chapter in range, both kinds of navigation request a chapter in
   * range that is at most one away, so `showChapter` accepts it.
   */
  lemma NavigationStaysInRange(key: NavKey, current: int, count: nat, startX: int, endX: int)
    requires 0 <= current < count
    ensures var t := ArrowTarget(key, current, count);
            t.Some? ==> 0 <= t.value < count && -1 <= t.value - current <= 1
    ensures var t := SwipeTarget(current, count, startX, endX);
            t.Some? ==> 0 <= t.value < count && -1 <= t.value - current <= 1
  {
  }

  /**
   * From a chapter index past the end (a saved index larger than the
   * content), ArrowRight requests the last chapter, while ArrowLeft and
   * swipes request nothing in range unless the index is just past the end.
   */
  lemma NavigationPastTheEnd(current: int, count: nat, startX: int, endX: int)
    requires 0 < count <= current
    ensures ArrowTarget(ArrowRight, current, count) == Some(count - 1)
    ensures ArrowTarget(ArrowLeft, current, count).value < count <==> current == count
    ensures var t := SwipeTarget(current, count, startX, endX);
            t.Some? ==> (t.value < count <==> current == count)
  {
  }
}
