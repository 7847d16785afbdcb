/**
 * The figures the player derives from the content and the answer store:
 * the total number of questions, the number of correct answers, the
 * accuracy percentage and the number of completed chapters.
 */
module Stats {
  import opened Content

  /** The `stats` object: `{totalQuestions, correctAnswers, chaptersCompleted}`. */
  datatype Stats = Stats(totalQuestions: int, correctAnswers: int, chaptersCompleted: int)

  /** `chapters.reduce((total, chapter) => total + chapter.questions.length, 0)`. */
  function TotalQuestions(chapters: seq<Chapter>): nat
  {
    if chapters == [] then 0
    else TotalQuestions(chapters[..|chapters| - 1]) + |chapters[|chapters| - 1].questions|
  }

  /** The keys of the first `n` questions of chapter `c`; there are `n` of them. */
  function RowKeys(c: nat, n: nat): (r: set<QKey>)
    ensures |r| == n
    ensures forall k :: k in r <==> k.0 == c && k.1 < n
  {
    if n == 0 then {} else RowKeys(c, n - 1) + {(c, n - 1)}
  }

  /** Every key that names a question of `chapters`; there are `TotalQuestions(chapters)` of them. */
  function QuestionKeys(chapters: seq<Chapter>): (r: set<QKey>)
    ensures |r| == TotalQuestions(chapters)
    ensures forall k :: k in r <==> ValidKey(chapters, k)
  {
    if chapters == [] then {}
    else
      var init := chapters[..|chapters| - 1];
      var row := RowKeys(|chapters| - 1, |chapters[|chapters| - 1].questions|);
      assert QuestionKeys(init) !! row;
      QuestionKeys(init) + row
  }

  /** The records whose `isCorrect` is exactly `true`. */
  function CorrectKeys(m: AnswerMap): set<QKey>
  {
    set k | k in m && m[k].isCorrect == Some(true)
  }

  /** The correct-answer count `updateStats` arrives at. */
  function CorrectCount(m: AnswerMap): nat
  {
    |CorrectKeys(m)|
  }

  lemma {:induction false} SubsetCard<T>(a: set<T>, b: set<T>)
    requires a <= b
    ensures |a| <= |b|
  {
    if a != {} {
      var x :| x in a;
      SubsetCard(a - {x}, b - {x});
    }
  }

  /**
   * The score never exceeds the number of stored records, and when every
   * record names a question of the content, neither exceeds the total.
   */
  lemma ScoreBounded(chapters: seq<Chapter>, m: AnswerMap)
    ensures CorrectCount(m) <= |m|
    ensures (forall k :: k in m ==> ValidKey(chapters, k)) ==> |m| <= TotalQuestions(chapters)
  {
    SubsetCard(CorrectKeys(m), m.Keys);
    if forall k :: k in m ==> ValidKey(chapters, k) {
      SubsetCard(m.Keys, QuestionKeys(chapters));
    }
  }

  lemma DivBounds(n: int, d: int)
    requires d > 0
    ensures d * (n / d) <= n < d * (n / d) + d
  {
  }

  lemma MulAtLeast(d: int, r: int)
    requires d > 0 && r >= 101
    ensures d * r >= d * 101
  {
  }

  /** Rounding half up: the quotient `(200c + a) / 2a` is the integer nearest to `100c / a`, ties upward. */
  lemma RoundedPercent(correct: nat, attempted: nat)
    requires attempted > 0
    ensures var r := (200 * correct + attempted) / (2 * attempted);
            -(attempted as int) < 2 * attempted * r - 200 * correct <= attempted
            && 0 <= r && (correct <= attempted ==> r <= 100)
  {
    var n, d := 200 * correct + attempted, 2 * attempted;
    var r := n / d;
    DivBounds(n, d);
    assert d * r == 2 * attempted * r;
    if correct <= attempted && r > 100 {
      MulAtLeast(d, r);
    }
  }

  /** `Math.round(correct / attempted * 100)`, or 0 when nothing was attempted. */
  function Accuracy(correct: nat, attempted: nat): (r: int)
    ensures attempted == 0 ==> r == 0
    ensures attempted > 0 ==> -(attempted as int) < 2 * attempted * r - 200 * correct <= attempted
    ensures correct <= attempted ==> 0 <= r <= 100
  {
    if attempted > 0 then
      RoundedPercent(correct, attempted);
      (200 * correct + attempted) / (2 * attempted)
    else 0
  }

  /** The number of questions among the first `n` of chapter `c` that are checked. */
  function CheckedBelow(m: AnswerMap, c: nat, n: nat): (r: nat)
    ensures r <= n
  {
    if n == 0 then 0 else CheckedBelow(m, c, n - 1) + (if IsChecked(m, (c, n - 1)) then 1 else 0)
  }

  /** The completion test of `updateStats`: as many checked questions as questions, and at least one. */
  predicate ChapterComplete(m: AnswerMap, c: nat, qs: seq<Question>)
  {
    CheckedBelow(m, c, |qs|) == |qs| && |qs| > 0
  }

  lemma {:induction false} CheckedBelowAll(m: AnswerMap, c: nat, n: nat)
    ensures CheckedBelow(m, c, n) == n <==> forall i :: 0 <= i < n ==> IsChecked(m, (c, i))
  {
    if n > 0 {
      CheckedBelowAll(m, c, n - 1);
    }
  }

  /** A chapter is complete iff it has a question and every question of it is checked. */
  lemma ChapterCompleteIff(m: AnswerMap, c: nat, qs: seq<Question>)
    ensures ChapterComplete(m, c, qs) <==> |qs| > 0 && AllChecked(m, c, qs)
  {
    CheckedBelowAll(m, c, |qs|);
  }

  /** The number of complete chapters among the first `n`. */
  function CompletedBelow(chapters: seq<Chapter>, m: AnswerMap, n: nat): (r: nat)
    requires n <= |chapters|
    ensures r <= n
  {
    if n == 0 then 0
    else CompletedBelow(chapters, m, n - 1) + (if ChapterComplete(m, n - 1, chapters[n - 1].questions) then 1 else 0)
  }

  /** The chapters-completed count `updateStats` arrives at. */
  function CompletedCount(chapters: seq<Chapter>, m: AnswerMap): nat
  {
    CompletedBelow(chapters, m, |chapters|)
  }

  /** The completed count depends on nothing but which questions are checked. */
  lemma {:induction false} CompletedDependsOnChecked(chapters: seq<Chapter>, m1: AnswerMap, m2: AnswerMap, n: nat)
    requires n <= |chapters|
    requires forall k :: IsChecked(m1, k) <==> IsChecked(m2, k)
    ensures CompletedBelow(chapters, m1, n) == CompletedBelow(chapters, m2, n)
  {
    if n > 0 {
      CompletedDependsOnChecked(chapters, m1, m2, n - 1);
      var c := n - 1;
      var qs := chapters[c].questions;
      ChapterCompleteIff(m1, c, qs);
      ChapterCompleteIff(m2, c, qs);
    }
  }

  /** With no records at all, there is no correct answer and no complete chapter. */
  lemma {:induction false} EmptyStoreStats(chapters: seq<Chapter>, n: nat)
    requires n <= |chapters|
    ensures CorrectCount(map[]) == 0
    ensures CompletedBelow(chapters, map[], n) == 0
  {
    assert CorrectKeys(map[]) == {};
    if n > 0 {
      EmptyStoreStats(chapters, n - 1);
      var qs := chapters[n - 1].questions;
      ChapterCompleteIff(map[], n - 1, qs);
      if |qs| > 0 {
        assert !IsChecked(map[], (n - 1, 0));
      }
    }
  }

  /**
   * Storing an ungraded selection for a question that is not checked leaves
   * both the correct count and the completed count as they were, so the
   * statistics need no update after a selection.
   */
  lemma SelectionKeepsStats(chapters: seq<Chapter>, m: AnswerMap, k: QKey, a: Answer)
    requires !IsChecked(m, k)
    ensures CorrectCount(m[k := AnswerRecord(a, None)]) == CorrectCount(m)
    ensures CompletedCount(chapters, m[k := AnswerRecord(a, None)]) == CompletedCount(chapters, m)
  {
    var m' := m[k := AnswerRecord(a, None)];
    assert CorrectKeys(m') == CorrectKeys(m);
    CompletedDependsOnChecked(chapters, m', m, |chapters|);
  }
}
