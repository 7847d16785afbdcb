/**
 * The `InteractiveBook` object: the loaded chapters, the answer store, the
 * statistics, the current chapter and the learner's identity, and the
 * operations that change them. What the source reads from the page (the
 * selected option, the typed text, the drop-zone texts, a key or a swipe)
 * is passed in as parameters.
 */
module InteractiveBook {
  import opened Content
  import opened Grading
  import opened ChapterCheck
  import opened Stats
  import opened Navigation
  import opened Persistence

  class Book {
    var currentChapter: int
    var chapters: seq<Chapter>
    var userAnswers: AnswerMap
    var stats: Stats
    var userName: string
    var userId: string

    /** The fields that are saved and restored, as one value. */
    function State(): Progress
      reads this
    {
      Progress(userAnswers, stats, currentChapter, userName, userId)
    }

    /** The figures `updateStats` derives, for the current store and content. */
    ghost predicate StatsCurrent()
      reads this
    {
      stats.correctAnswers == CorrectCount(userAnswers)
      && stats.chaptersCompleted == CompletedCount(chapters, userAnswers)
    }

    constructor ()
      ensures currentChapter == 0 && chapters == [] && userAnswers == map[]
      ensures stats == Stats(0, 0, 0) && userName == "" && userId == ""
    {
      currentChapter := 0;
      chapters := [];
      userAnswers := map[];
      stats := Stats(0, 0, 0);
      userName := "";
      userId := "";
    }

    /** The state change of `loadContent` once the content document has been fetched and parsed. */
    method LoadContent(loaded: seq<Chapter>)
      modifies this
      ensures chapters == loaded
      ensures stats == old(stats).(totalQuestions := TotalQuestions(loaded))
      ensures userAnswers == old(userAnswers) && currentChapter == old(currentChapter)
      ensures userName == old(userName) && userId == old(userId)
    {
      chapters := loaded;
      CalculateTotalQuestions();
    }

    /** Sets the total to the sum of the chapters' question counts. */
    method CalculateTotalQuestions()
      modifies this
      ensures stats == old(stats).(totalQuestions := TotalQuestions(chapters))
      ensures stats.totalQuestions == |QuestionKeys(chapters)|
      ensures chapters == old(chapters) && userAnswers == old(userAnswers)
      ensures currentChapter == old(currentChapter) && userName == old(userName) && userId == old(userId)
    {
      stats := stats.(totalQuestions := TotalQuestions(chapters));
    }

    /**
     * `showChapter(index)`: an index outside the chapters is ignored;
     * otherwise it becomes the current chapter, and `alreadyChecked` says
     * whether every question of that chapter is checked (which disables the
     * chapter's check button).
     */
    method ShowChapter(index: int) returns (alreadyChecked: bool)
      modifies this
      ensures currentChapter == if 0 <= index < |chapters| then index else old(currentChapter)
      ensures alreadyChecked <==> 0 <= index < |chapters| && AllChecked(userAnswers, index, chapters[index].questions)
      ensures chapters == old(chapters) && userAnswers == old(userAnswers) && stats == old(stats)
      ensures userName == old(userName) && userId == old(userId)
    {
      if index < 0 || index >= |chapters| {
        return false;
      }
      currentChapter := index;
      alreadyChecked := AllChecked(userAnswers, index, chapters[index].questions);
    }

    /**
     * `selectOption(id, k)`: stores option `k` as an ungraded selection,
     * replacing whatever record the question had; no other record changes.
     */
    method SelectOption(key: QKey, optionIndex: nat)
      modifies this
      ensures userAnswers == old(userAnswers)[key := AnswerRecord(Index(optionIndex), None)]
      ensures forall k :: k != key ==> Get(userAnswers, k) == Get(old(userAnswers), k)
      ensures !IsChecked(userAnswers, key)
      ensures !IsChecked(old(userAnswers), key) && old(StatsCurrent()) ==> StatsCurrent()
      ensures chapters == old(chapters) && stats == old(stats) && currentChapter == old(currentChapter)
      ensures userName == old(userName) && userId == old(userId)
    {
      ghost var before := userAnswers;
      userAnswers := userAnswers[key := AnswerRecord(Index(optionIndex), None)];
      if !IsChecked(before, key) {
        SelectionKeepsStats(chapters, before, key, Index(optionIndex));
      }
    }

    /**
     * `updateStats`: counts the records graded correct, derives the accuracy
     * over all stored records (ungraded selections included), and counts the
     * chapters whose questions are all checked. The total is kept.
     */
    method UpdateStats() returns (accuracy: int)
      modifies this
      ensures stats == Stats(old(stats).totalQuestions, CorrectCount(userAnswers), CompletedCount(chapters, userAnswers))
      ensures StatsCurrent()
      ensures accuracy == Accuracy(CorrectCount(userAnswers), |userAnswers|)
      ensures 0 <= accuracy <= 100
      ensures stats.correctAnswers <= |userAnswers| && stats.chaptersCompleted <= |chapters|
      ensures chapters == old(chapters) && userAnswers == old(userAnswers) && currentChapter == old(currentChapter)
      ensures userName == old(userName) && userId == old(userId)
    {
      var attempted := |userAnswers|;

      var correct := 0;
      var rest := userAnswers.Keys;
      while rest != {}
        invariant rest <= userAnswers.Keys
        invariant correct == |CorrectKeys(userAnswers) - rest|
        decreases |rest|
      {
        var k :| k in rest;
        ghost var done := CorrectKeys(userAnswers) - rest;
        if userAnswers[k].isCorrect == Some(true) {
          correct := correct + 1;
          assert CorrectKeys(userAnswers) - (rest - {k}) == done + {k};
        } else {
          assert CorrectKeys(userAnswers) - (rest - {k}) == done;
        }
        rest := rest - {k};
      }
      assert CorrectKeys(userAnswers) - rest == CorrectKeys(userAnswers);
      stats := stats.(correctAnswers := correct);

      ScoreBounded(chapters, userAnswers);
      accuracy := Accuracy(stats.correctAnswers, attempted);

      var completed := 0;
      var ch := 0;
      while ch < |chapters|
        invariant 0 <= ch <= |chapters|
        invariant completed == CompletedBelow(chapters, userAnswers, ch)
      {
        var qs := chapters[ch].questions;
        var checkedInChapter := CheckedBelow(userAnswers, ch, |qs|);
        if checkedInChapter == |qs| && |qs| > 0 {
          completed := completed + 1;
        }
        ch := ch + 1;
      }
      stats := stats.(chaptersCompleted := completed);
    }

    /**
     * `checkCurrentChapterAnswers`: grades every question of the current
     * chapter that is not yet checked from what `screen` shows for it, stores
     * each graded answer with its verdict, reports whether every question was
     * attempted, and updates the statistics.
     */
    method CheckCurrentChapterAnswers(screen: seq<Screen>) returns (allAttempted: bool, accuracy: int)
      requires 0 <= currentChapter < |chapters|
      requires |screen| == |chapters[currentChapter].questions|
      modifies this
      ensures chapters == old(chapters) && currentChapter == old(currentChapter)
      ensures userName == old(userName) && userId == old(userId)
      ensures userAnswers == CheckChapter(old(userAnswers), currentChapter, chapters[currentChapter].questions, screen)
      ensures CheckedUpTo(old(userAnswers), currentChapter, chapters[currentChapter].questions, screen,
                          |screen|, userAnswers)
      ensures allAttempted == AllAttempted(old(userAnswers), currentChapter, chapters[currentChapter].questions, screen)
      ensures forall k :: IsChecked(old(userAnswers), k) ==> k in userAnswers && userAnswers[k] == old(userAnswers)[k]
      ensures (forall k :: k in old(userAnswers) ==> ValidKey(chapters, k)) ==>
              forall k :: k in userAnswers ==> ValidKey(chapters, k)
      ensures allAttempted && |screen| > 0 && (forall i :: 0 <= i < |screen| ==> !chapters[currentChapter].questions[i].Unsupported?)
              ==> ChapterComplete(userAnswers, currentChapter, chapters[currentChapter].questions)
      ensures stats == Stats(old(stats).totalQuestions, CorrectCount(userAnswers), CompletedCount(chapters, userAnswers))
      ensures accuracy == Accuracy(CorrectCount(userAnswers), |userAnswers|)
    {
      var c: nat := currentChapter;
      var qs := chapters[c].questions;
      ghost var m := userAnswers;
      allAttempted := true;

      var i := 0;
      while i < |qs|
        invariant 0 <= i <= |qs|
        invariant userAnswers == CheckPrefix(m, c, qs, screen, i)
        invariant allAttempted <==> forall j :: 0 <= j < i ==> Attempted(m, (c, j), qs[j], screen[j])
        invariant chapters == old(chapters) && currentChapter == old(currentChapter) && stats == old(stats)
        invariant userName == old(userName) && userId == old(userId)
      {
        CheckPrefixSpec(m, c, qs, screen, i);
        assert Get(userAnswers, (c, i)) == Get(m, (c, i));
        var key: QKey := (c, i);
        if !IsChecked(userAnswers, key) {
          match Grade(qs[i], screen[i])
          case Incomplete =>
            allAttempted := false;
          case Graded(answer, isCorrect) =>
            userAnswers := userAnswers[key := AnswerRecord(answer, Some(isCorrect))];
          case Ungradable =>
        }
        i := i + 1;
      }

      CheckPrefixSpec(m, c, qs, screen, |qs|);
      forall k | IsChecked(m, k) ensures k in userAnswers && userAnswers[k] == m[k] {
        NeverRegrades(m, c, qs, screen, k);
      }
      if forall k :: k in m ==> ValidKey(chapters, k) {
        forall k | k in userAnswers ensures ValidKey(chapters, k) {
          if !(k.0 == c && k.1 < |qs|) {
            assert Get(userAnswers, k) == Get(m, k);
          }
        }
      }
      if allAttempted && (forall j :: 0 <= j < |qs| ==> !qs[j].Unsupported?) {
        AllAttemptedChecksChapter(m, c, qs, screen);
        ChapterCompleteIff(userAnswers, c, qs);
      }
      accuracy := UpdateStats();
    }

    /**
     * `loadProgress`: `saved` is the parsed progress record, or `None` when
     * nothing was stored or it could not be read. A record is applied with
     * the defaults of `Restore`; the content is not touched.
     */
    method LoadProgress(saved: Option<SavedProgress>) returns (loaded: bool)
      modifies this
      ensures loaded <==> saved.Some?
      ensures State() == if saved.Some? then Restore(old(State()), saved.value) else old(State())
      ensures chapters == old(chapters)
    {
      if saved.None? {
        return false;
      }
      var progress := saved.value;
      userAnswers := progress.userAnswers.GetOr(map[]);
      stats := MergeStats(stats, progress.stats);
      currentChapter := progress.currentChapter.GetOr(0);
      userName := progress.userName.GetOr("");
      userId := progress.userId.GetOr("");
      return true;
    }

    /**
     * The confirmed part of `resetProgress`: clears every record, zeroes the
     * score and the completed count while keeping the total, returns to the
     * first chapter and forgets the learner's name and id; then refreshes the
     * statistics and shows chapter 0.
     */
    method ResetProgress()
      modifies this
      ensures userAnswers == map[]
      ensures stats == Stats(old(stats).totalQuestions, 0, 0)
      ensures StatsCurrent()
      ensures currentChapter == 0 && userName == "" && userId == ""
      ensures chapters == old(chapters)
      ensures forall k :: Get(userAnswers, k) == None
    {
      userAnswers := map[];
      stats := Stats(stats.totalQuestions, 0, 0);
      currentChapter := 0;
      userName := "";
      userId := "";
      EmptyStoreStats(chapters, |chapters|);
      var _ := UpdateStats();
      var _ := ShowChapter(0);
    }

    /**
     * The keyboard handler: with content loaded and no dialog open, an arrow
     * key asks `showChapter` for the neighbouring chapter, clamped to the
     * first and last.
     */
    method HandleKey(key: NavKey, dialogOpen: bool)
      modifies this
      ensures var t := ArrowTarget(key, old(currentChapter), |chapters|);
              currentChapter == if |chapters| > 0 && !dialogOpen && t.Some? && 0 <= t.value < |chapters|
                                then t.value else old(currentChapter)
      ensures 0 <= old(currentChapter) < |chapters| ==> 0 <= currentChapter < |chapters|
      ensures chapters == old(chapters) && userAnswers == old(userAnswers) && stats == old(stats)
      ensures userName == old(userName) && userId == old(userId)
    {
      if |chapters| > 0 && !dialogOpen {
        if 0 <= currentChapter < |chapters| {
          NavigationStaysInRange(key, currentChapter, |chapters|, 0, 0);
        }
        var target := ArrowTarget(key, currentChapter, |chapters|);
        if target.Some? {
          var _ := ShowChapter(target.value);
        }
      }
    }

    /**
     * `handleSwipe`: with content loaded, a swipe past the threshold asks
     * `showChapter` for the next or previous chapter.
     */
    method HandleSwipe(startX: int, endX: int)
      modifies this
      ensures var t := SwipeTarget(old(currentChapter), |chapters|, startX, endX);
              currentChapter == if |chapters| > 0 && t.Some? && 0 <= t.value < |chapters|
                                then t.value else old(currentChapter)
      ensures 0 <= old(currentChapter) < |chapters| ==> 0 <= currentChapter < |chapters|
      ensures chapters == old(chapters) && userAnswers == old(userAnswers) && stats == old(stats)
      ensures userName == old(userName) && userId == old(userId)
    {
      if |chapters| == 0 {
        return;
      }
      if 0 <= currentChapter < |chapters| {
        NavigationStaysInRange(OtherKey, currentChapter, |chapters|, startX, endX);
      }
      var target := SwipeTarget(currentChapter, |chapters|, startX, endX);
      if target.Some? {
        var _ := ShowChapter(target.value);
      }
    }
  }
}
