/**
 * The progress record kept in local storage, and the defaults `loadProgress`
 * applies to a record that has already been read and parsed. A top-level
 * field that is absent, or holds a falsy value that `||` replaces by the
 * same default, is `None`. A field of the saved `stats` object is `None`
 * only when it is absent: the object spread copies a present `null` as it is.
 */
module Persistence {
  import opened Content
  import opened Stats

  /** The parts of the book's state that are saved and restored. */
  datatype Progress = Progress(
    userAnswers: AnswerMap,
    stats: Stats,
    currentChapter: int,
    userName: string,
    userId: string)

  /** A saved `stats` object; each of its fields may be missing. */
  datatype SavedStats = SavedStats(
    totalQuestions: Option<int>,
    correctAnswers: Option<int>,
    chaptersCompleted: Option<int>)

  /** A parsed progress record; each of its fields may be missing. */
  datatype SavedProgress = SavedProgress(
    userAnswers: Option<AnswerMap>,
    stats: Option<SavedStats>,
    currentChapter: Option<int>,
    userName: Option<string>,
    userId: Option<string>)

  /** `{ ...current, ...saved }`: a field present in the saved stats replaces the current one. */
  function MergeStats(current: Stats, saved: Option<SavedStats>): Stats
  {
    match saved
    case None => current
    case Some(s) =>
      Stats(s.totalQuestions.GetOr(current.totalQuestions),
            s.correctAnswers.GetOr(current.correctAnswers),
            s.chaptersCompleted.GetOr(current.chaptersCompleted))
  }

  /**
   * The state after `loadProgress` has read `saved`: answers default to none,
   * the chapter to 0, the user name and id to the empty string, and the
   * statistics are merged over the current ones.
   */
  function Restore(current: Progress, saved: SavedProgress): Progress
  {
    Progress(saved.userAnswers.GetOr(map[]),
             MergeStats(current.stats, saved.stats),
             saved.currentChapter.GetOr(0),
             saved.userName.GetOr(""),
             saved.userId.GetOr(""))
  }

  /** The record `saveProgress` writes: every field present. */
  function Save(p: Progress): SavedProgress
  {
    SavedProgress(Some(p.userAnswers),
                  Some(SavedStats(Some(p.stats.totalQuestions), Some(p.stats.correctAnswers),
                                  Some(p.stats.chaptersCompleted))),
                  Some(p.currentChapter), Some(p.userName), Some(p.userId))
  }

  /** Loading what was saved restores exactly the saved state, whatever the state before the load. */
  lemma RestoreAfterSave(current: Progress, p: Progress)
    ensures Restore(current, Save(p)) == p
  {
  }

  /**
   * A record with every field missing clears the answers, the chapter and the
   * identity, and keeps the current statistics.
   */
  lemma RestoreEmptyRecord(current: Progress)
    ensures Restore(current, SavedProgress(None, None, None, None, None))
            == Progress(map[], current.stats, 0, "", "")
  {
  }

  /** Only the saved fields matter: two states before the load give the same result except for unsaved statistics. */
  lemma RestoreIgnoresCurrent(c1: Progress, c2: Progress, saved: SavedProgress)
    ensures Restore(c1, saved).userAnswers == Restore(c2, saved).userAnswers
    ensures Restore(c1, saved).currentChapter == Restore(c2, saved).currentChapter
    ensures Restore(c1, saved).userName == Restore(c2, saved).userName
    ensures Restore(c1, saved).userId == Restore(c2, saved).userId
    ensures c1.stats == c2.stats ==> Restore(c1, saved) == Restore(c2, saved)
  {
  }
}
