/**
 * "Check Chapter Answers": every question of the current chapter that is not
 * yet checked is graded from what the screen shows, and a graded answer is
 * stored with its verdict. The loop of the check is a left-to-right fold of
 * `CheckOne` over the chapter's questions; `CheckPrefixSpec` says what the
 * fold does to each question, independently of the order of the visits.
 */
module ChapterCheck {
  import opened Content
  import opened Grading

  /** One iteration of the check, for question `k`: skip it if checked, store it if now graded. */
  function CheckOne(m: AnswerMap, k: QKey, q: Question, s: Screen): AnswerMap
  {
    if IsChecked(m, k) then m
    else match Grade(q, s)
      case Graded(a, ok) => m[k := AnswerRecord(a, Some(ok))]
      case _ => m
  }

  /** The store after the check has visited the first `n` questions of chapter `c`. */
  function CheckPrefix(m: AnswerMap, c: nat, qs: seq<Question>, screen: seq<Screen>, n: nat): AnswerMap
    requires n <= |qs| == |screen|
  {
    if n == 0 then m
    else CheckOne(CheckPrefix(m, c, qs, screen, n - 1), (c, n - 1), qs[n - 1], screen[n - 1])
  }

  /** The store after the whole chapter has been checked. */
  function CheckChapter(m: AnswerMap, c: nat, qs: seq<Question>, screen: seq<Screen>): AnswerMap
    requires |qs| == |screen|
  {
    CheckPrefix(m, c, qs, screen, |qs|)
  }

  /** Question `k` counts as attempted: it was checked before, or the screen shows a complete answer. */
  predicate Attempted(m: AnswerMap, k: QKey, q: Question, s: Screen)
  {
    IsChecked(m, k) || !Grade(q, s).Incomplete?
  }

  /** The flag the check reports: every question of the chapter was attempted. */
  predicate AllAttempted(m: AnswerMap, c: nat, qs: seq<Question>, screen: seq<Screen>)
    requires |qs| == |screen|
  {
    forall i :: 0 <= i < |qs| ==> Attempted(m, (c, i), qs[i], screen[i])
  }

  /**
   * What checking questions `0..n-1` of chapter `c` does to the store `m`,
   * giving `r`, question by question: a question outside that range keeps
   * its record (or its absence); a question already checked keeps its
   * record; an unchecked question with a complete answer gets that answer
   * and its verdict; an unchecked question without one is left as it was.
   */
  ghost predicate CheckedUpTo(m: AnswerMap, c: nat, qs: seq<Question>, screen: seq<Screen>, n: nat, r: AnswerMap)
    requires n <= |qs| == |screen|
  {
    && (forall k: QKey :: !(k.0 == c && k.1 < n) ==> Get(r, k) == Get(m, k))
    && (forall i :: 0 <= i < n && IsChecked(m, (c, i)) ==> Get(r, (c, i)) == Get(m, (c, i)))
    && (forall i :: 0 <= i < n && !IsChecked(m, (c, i)) && Grade(qs[i], screen[i]).Graded? ==>
          Get(r, (c, i)) == Some(AnswerRecord(Grade(qs[i], screen[i]).answer, Some(Grade(qs[i], screen[i]).isCorrect))))
    && (forall i :: 0 <= i < n && !IsChecked(m, (c, i)) && !Grade(qs[i], screen[i]).Graded? ==>
          Get(r, (c, i)) == Get(m, (c, i)))
  }

  /** The fold over the first `n` questions has the question-by-question effect `CheckedUpTo`. */
  lemma {:induction false} CheckPrefixSpec(m: AnswerMap, c: nat, qs: seq<Question>, screen: seq<Screen>, n: nat)
    requires n <= |qs| == |screen|
    ensures CheckedUpTo(m, c, qs, screen, n, CheckPrefix(m, c, qs, screen, n))
  {
    if n > 0 {
      CheckPrefixSpec(m, c, qs, screen, n - 1);
      var prev := CheckPrefix(m, c, qs, screen, n - 1);
      var r := CheckPrefix(m, c, qs, screen, n);
      var k: QKey := (c, n - 1);
      assert Get(prev, k) == Get(m, k);
      assert IsChecked(prev, k) == IsChecked(m, k);
      forall k': QKey | k' != k
        ensures Get(r, k') == Get(prev, k')
      {
      }
    }
  }

  /** A record whose `isCorrect` is defined is never changed by a check: grading happens at most once. */
  lemma NeverRegrades(m: AnswerMap, c: nat, qs: seq<Question>, screen: seq<Screen>, k: QKey)
    requires |qs| == |screen|
    requires IsChecked(m, k)
    ensures k in CheckChapter(m, c, qs, screen) && CheckChapter(m, c, qs, screen)[k] == m[k]
  {
    CheckPrefixSpec(m, c, qs, screen, |qs|);
    var r := CheckChapter(m, c, qs, screen);
    if k.0 == c && k.1 < |qs| {
      assert Get(r, (c, k.1)) == Get(m, (c, k.1));
    } else {
      assert Get(r, k) == Get(m, k);
    }
  }

  /** A check never removes a record, and a checked question stays checked. */
  lemma CheckKeepsRecords(m: AnswerMap, c: nat, qs: seq<Question>, screen: seq<Screen>, k: QKey)
    requires |qs| == |screen|
    requires k in m
    ensures k in CheckChapter(m, c, qs, screen)
    ensures IsChecked(m, k) ==> IsChecked(CheckChapter(m, c, qs, screen), k)
  {
    CheckPrefixSpec(m, c, qs, screen, |qs|);
    var r := CheckChapter(m, c, qs, screen);
    if k.0 == c && k.1 < |qs| {
      assert Get(r, (c, k.1)) != None;
    } else {
      assert Get(r, k) == Get(m, k);
    }
  }

  /**
   * After a check in which every question was attempted, checking the same
   * chapter again, whatever the screen shows, changes nothing.
   */
  lemma {:induction false} CheckAgainChangesNothing(m: AnswerMap, c: nat, qs: seq<Question>, s1: seq<Screen>, s2: seq<Screen>)
    requires |qs| == |s1| == |s2|
    requires AllAttempted(m, c, qs, s1)
    ensures CheckChapter(CheckChapter(m, c, qs, s1), c, qs, s2) == CheckChapter(m, c, qs, s1)
  {
    var r1 := CheckChapter(m, c, qs, s1);
    var r2 := CheckChapter(r1, c, qs, s2);
    CheckPrefixSpec(m, c, qs, s1, |qs|);
    CheckPrefixSpec(r1, c, qs, s2, |qs|);
    forall k: QKey
      ensures Get(r2, k) == Get(r1, k)
    {
      if k.0 == c && k.1 < |qs| {
        var i := k.1;
        if !IsChecked(r1, (c, i)) {
          assert !IsChecked(m, (c, i)) && !Grade(qs[i], s1[i]).Graded?;
          assert qs[i].Unsupported?;
        }
      }
    }
    assert r2.Keys == r1.Keys by {
      forall k: QKey ensures k in r2 <==> k in r1 {
        assert Get(r2, k) == Get(r1, k);
      }
    }
    forall k | k in r1 ensures r2[k] == r1[k] {
      assert Get(r2, k) == Get(r1, k);
    }
  }

  /**
   * When every question was attempted and the chapter has no question of an
   * unsupported type, every question of the chapter is checked afterwards.
   */
  lemma AllAttemptedChecksChapter(m: AnswerMap, c: nat, qs: seq<Question>, screen: seq<Screen>)
    requires |qs| == |screen|
    requires AllAttempted(m, c, qs, screen)
    requires forall i :: 0 <= i < |qs| ==> !qs[i].Unsupported?
    ensures AllChecked(CheckChapter(m, c, qs, screen), c, qs)
  {
    CheckPrefixSpec(m, c, qs, screen, |qs|);
    var r := CheckChapter(m, c, qs, screen);
    forall i | 0 <= i < |qs| ensures IsChecked(r, (c, i)) {
      assert Attempted(m, (c, i), qs[i], screen[i]);
    }
  }
}
