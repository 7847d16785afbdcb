/**
 * The loaded book content, the learner's stored answers, and what the
 * rendered controls of a question show when the chapter is checked.
 */
module Content {

  datatype Option<+T> = None | Some(value: T) {
    function GetOr(default: T): T
    {
      match this
      case Some(v) => v
      case None => default
    }
  }

  /** The `correct` field of a question: one value, or an array of acceptable values. */
  datatype Accepted<+T> = Single(value: T) | AnyOf(values: seq<T>)

  /**
   * A question of `content.json`, by its `type`. The prompt and feedback
   * texts are only displayed, so they are not kept. A type the player does
   * not know is kept as `Unsupported`.
   */
  datatype Question =
    | MultipleChoice(options: seq<string>, choice: Accepted<int>)
    | ReadingPassage(options: seq<string>, choice: Accepted<int>)
    | FillInBlank(text: Accepted<string>)
    | DragDrop(items: seq<string>, order: seq<string>)
    | Unsupported(typeName: string)
  {
    predicate IsChoice()
    {
      MultipleChoice? || ReadingPassage?
    }
  }

  datatype Chapter = Chapter(title: string, questions: seq<Question>)

  /** A question's identity `q_<chapter>_<question>`, as the pair of indices. */
  type QKey = (nat, nat)

  /** The `answer` value of a stored record: an option index, a typed text, or drop-zone contents. */
  datatype Answer =
    | Index(index: nat)
    | Text(text: string)
    | Placement(dropZones: seq<string>, droppedItems: seq<string>)

  /** `{answer, isCorrect}`; `isCorrect == None` is the ungraded state of a selection not yet checked. */
  datatype AnswerRecord = AnswerRecord(answer: Answer, isCorrect: Option<bool>)

  type AnswerMap = map<QKey, AnswerRecord>

  /**
   * What one question's controls show on screen when the chapter is checked:
   * the index of the option marked as selected (if any), the value of the
   * text input, and the text content of each drop zone in order. Only the
   * part that matches the question's type is read.
   */
  datatype Screen = Screen(selected: Option<nat>, input: string, zones: seq<string>)

  /** The record of a question, if one is stored. */
  function Get(m: AnswerMap, k: QKey): Option<AnswerRecord>
  {
    if k in m then Some(m[k]) else None
  }

  /** A question is checked when its record exists and `isCorrect` is defined. */
  predicate IsChecked(m: AnswerMap, k: QKey)
  {
    k in m && m[k].isCorrect.Some?
  }

  /** Every question of chapter `c` is checked (`questions.every(...)` over the records). */
  predicate AllChecked(m: AnswerMap, c: nat, qs: seq<Question>)
  {
    forall i :: 0 <= i < |qs| ==> IsChecked(m, (c, i))
  }

  /** A key that names a question of the loaded content. */
  predicate ValidKey(chapters: seq<Chapter>, k: QKey)
  {
    k.0 < |chapters| && k.1 < |chapters[k.0].questions|
  }
}
