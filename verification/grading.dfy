/**
 * How the chapter check marks an answer, case by question type: what the
 * screen must show for an answer to count as given, and when a given
 * answer is correct.
 */
module Grading {
  import opened Content
  import opened Text

  /** The outcome for one question: no complete answer, a graded answer, or a type that is never graded. */
  datatype Grading = Incomplete | Graded(answer: Answer, isCorrect: bool) | Ungradable

  /** The text of an empty drop zone. */
  const Placeholder: string := "Drop here"

  /** Multiple choice: the selected index is in the array `correct`, or equals the scalar `correct`. */
  predicate ChoiceMatches(k: nat, correct: Accepted<int>)
  {
    match correct
    case AnyOf(vs) => k in vs
    case Single(v) => k == v
  }

  /** `correct.map(s => s.toLowerCase())`. */
  function LowerAll(vs: seq<string>): (r: seq<string>)
    ensures |r| == |vs|
    ensures forall i :: 0 <= i < |vs| ==> r[i] == Lower(vs[i])
  {
    if vs == [] then [] else [Lower(vs[0])] + LowerAll(vs[1..])
  }

  /** Fill in the blank: the lowered answer equals the lowered scalar, or is among the lowered array. */
  predicate TextMatches(a: string, correct: Accepted<string>)
  {
    match correct
    case AnyOf(vs) => Lower(a) in LowerAll(vs)
    case Single(v) => Lower(a) == Lower(v)
  }

  /** The drop-zone texts, each trimmed. */
  function TrimAll(zones: seq<string>): (r: seq<string>)
    ensures |r| == |zones|
    ensures forall i :: 0 <= i < |zones| ==> r[i] == Trim(zones[i])
  {
    if zones == [] then [] else [Trim(zones[0])] + TrimAll(zones[1..])
  }

  /** Some slot still shows the placeholder or nothing at all. */
  predicate HasUnfilledSlot(slots: seq<string>)
  {
    exists i :: 0 <= i < |slots| && (slots[i] == Placeholder || slots[i] == "")
  }

  /** Grades the answer that the screen shows for question `q`. */
  function Grade(q: Question, s: Screen): (g: Grading)
    ensures g.Ungradable? <==> q.Unsupported?
    ensures g.Graded? ==> (g.answer.Index? <==> q.IsChoice())
  {
    match q
    case MultipleChoice(_, correct) =>
      if s.selected.None? then Incomplete
      else Graded(Index(s.selected.value), ChoiceMatches(s.selected.value, correct))
    case ReadingPassage(_, correct) =>
      if s.selected.None? then Incomplete
      else Graded(Index(s.selected.value), ChoiceMatches(s.selected.value, correct))
    case FillInBlank(correct) =>
      var a := Trim(s.input);
      if a == "" then Incomplete else Graded(Text(a), TextMatches(a, correct))
    case DragDrop(_, order) =>
      var slots := TrimAll(s.zones);
      if HasUnfilledSlot(slots) then Incomplete else Graded(Placement(slots, []), slots == order)
    case Unsupported(_) =>
      Ungradable
  }

  /** Choice-based questions: no selection is incomplete; a selection is correct iff it is an accepted index. */
  lemma ChoiceGradeSpec(q: Question, s: Screen)
    requires q.IsChoice()
    ensures Grade(q, s).Incomplete? <==> s.selected.None?
    ensures s.selected.Some? ==>
      Grade(q, s) == Graded(Index(s.selected.value),
                            match q.choice
                            case Single(v) => s.selected.value == v
                            case AnyOf(vs) => exists i :: 0 <= i < |vs| && vs[i] == s.selected.value)
  {
  }

  /** Lowered membership is the same as case-insensitive equality with some accepted text. */
  lemma LowerAllMember(a: string, vs: seq<string>)
    ensures Lower(a) in LowerAll(vs) <==> exists i :: 0 <= i < |vs| && SameIgnoringCase(a, vs[i])
  {
    var r := LowerAll(vs);
    if Lower(a) in r {
      var i :| 0 <= i < |r| && r[i] == Lower(a);
      assert SameIgnoringCase(a, vs[i]);
    }
  }

  /**
   * Fill in the blank: an input of white space only is incomplete; otherwise
   * the trimmed input is stored, and it is correct iff it equals the scalar
   * or some element of the array, ignoring case.
   */
  lemma BlankGradeSpec(q: Question, s: Screen)
    requires q.FillInBlank?
    ensures Grade(q, s).Incomplete? <==> AllSpace(s.input)
    ensures !AllSpace(s.input) ==>
      Grade(q, s) == Graded(Text(Trim(s.input)),
                            match q.text
                            case Single(v) => SameIgnoringCase(Trim(s.input), v)
                            case AnyOf(vs) => exists i :: 0 <= i < |vs| && SameIgnoringCase(Trim(s.input), vs[i]))
  {
    TrimEmptyIff(s.input);
    if q.text.AnyOf? {
      LowerAllMember(Trim(s.input), q.text.values);
    }
  }

  /**
   * Drag and drop: a zone whose trimmed text is the placeholder or empty makes
   * the answer incomplete; otherwise the trimmed zones are stored with no
   * dropped items, and the answer is correct iff they equal the expected
   * order position by position.
   */
  lemma DragDropGradeSpec(q: Question, s: Screen)
    requires q.DragDrop?
    ensures Grade(q, s).Incomplete? <==>
            exists i :: 0 <= i < |s.zones| && (Trim(s.zones[i]) == Placeholder || Trim(s.zones[i]) == "")
    ensures !Grade(q, s).Incomplete? ==>
      Grade(q, s) == Graded(Placement(TrimAll(s.zones), []),
                            |s.zones| == |q.order| && forall i :: 0 <= i < |s.zones| ==> Trim(s.zones[i]) == q.order[i])
  {
    var slots := TrimAll(s.zones);
    if |s.zones| == |q.order| && forall i :: 0 <= i < |s.zones| ==> Trim(s.zones[i]) == q.order[i] {
      assert slots == q.order;
    }
  }

  /** The fill-in-blank verdict depends on the trimmed input only up to ASCII case. */
  lemma BlankGradeIgnoresCase(q: Question, s1: Screen, s2: Screen)
    requires q.FillInBlank?
    requires SameIgnoringCase(Trim(s1.input), Trim(s2.input))
    ensures Grade(q, s1).Incomplete? == Grade(q, s2).Incomplete?
    ensures Grade(q, s1).Graded? ==> Grade(q, s1).isCorrect == Grade(q, s2).isCorrect
  {
    var a1, a2 := Trim(s1.input), Trim(s2.input);
    assert a1 == [] <==> a2 == [] by {
      assert |Lower(a1)| == |a1| && |Lower(a2)| == |a2|;
    }
  }

  /** Typing the expected text of a single-answer blank, in any ASCII case and with any white space around it, is graded correct. */
  lemma ExpectedTextIsCorrect(v: string, s: Screen)
    requires v != [] && Trim(v) == v
    requires SameIgnoringCase(Trim(s.input), v)
    ensures Grade(FillInBlank(Single(v)), s).Graded?
    ensures Grade(FillInBlank(Single(v)), s).isCorrect
  {
    var a := Trim(s.input);
    assert |a| == |v| by { assert |Lower(a)| == |a|; }
    assert a != [];
  }

  /** Filling every zone with the expected order, in that order, is graded correct. */
  lemma ExpectedOrderIsCorrect(q: Question, s: Screen)
    requires q.DragDrop? && s.zones == q.order
    requires forall i :: 0 <= i < |q.order| ==> Trim(q.order[i]) == q.order[i]
    requires !HasUnfilledSlot(q.order)
    ensures Grade(q, s) == Graded(Placement(q.order, []), true)
  {
    assert TrimAll(s.zones) == q.order;
  }

  /** A zone left at the placeholder makes the answer incomplete, whatever the other zones hold. */
  lemma PartialFillIsIncomplete()
    ensures Grade(DragDrop(["A", "X"], ["A", "X"]), Screen(None, "", ["Drop here", "X"])).Incomplete?
  {
    var slots := TrimAll(["Drop here", "X"]);
    assert Trim("Drop here") == "Drop here" by {
      assert TrimStart("Drop here") == "Drop here";
      assert TrimEnd("Drop here") == "Drop here";
    }
    assert slots[0] == Placeholder;
  }
}
