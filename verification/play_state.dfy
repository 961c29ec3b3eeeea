/**
 * The play page: picking options, the submit button's guard, grading a
 * fill-in-the-gap, multi-answer or single-answer question, the bookkeeping of
 * wrong attempts, and moving on to the next question or to the results.
 */
module PlayState {
  import opened Wrappers
  import opened GapEncoding
  import opened GapQuestions
  import opened Rows

  /** A question as the play page receives it. */
  datatype PlayQuestion = PlayQuestion(id: string, text: Option<string>, options: seq<FlatOption>, correctIndex: int)

  /** What the player submitted: the gap selections, the chosen indices, or the chosen index. */
  datatype Answer = GapAnswer(selections: map<nat, Option<int>>) | MultiAnswer(indices: seq<int>) | SingleAnswer(index: int)

  /**
   * The play state.  `pending` is the question index captured by a scheduled
   * automatic advance, `None` when no advance is scheduled.
   */
  datatype State = State(
    index: nat,
    selectedIndex: Option<int>,
    selectedIndices: seq<int>,
    disabled: map<string, set<int>>,
    revealed: bool,
    processing: bool,
    tempIncorrect: seq<int>,
    verifiedCorrect: set<int>,
    gapSelections: map<nat, Option<int>>,
    gapTempIncorrect: seq<nat>,
    gapVerifiedCorrect: set<nat>,
    initiallyWrong: seq<string>,
    answers: map<string, Answer>,
    attempts: map<string, seq<Answer>>,
    pending: Option<nat>)

  predicate NoDup<T(==)>(s: seq<T>) {
    forall i, j :: 0 <= i < j < |s| ==> s[i] != s[j]
  }

  function SetOf<T>(s: seq<T>): set<T> {
    set x | x in s
  }

  // ---------------------------------------------------------------------------
  // Correct options

  /** The `index` of every correct option, in option order. */
  function CorrectIndexList(options: seq<FlatOption>): (r: seq<int>)
    ensures |r| <= |options|
    ensures r == [] <==> forall k :: 0 <= k < |options| ==> !options[k].isCorrect
    ensures forall x :: x in r <==> exists k :: 0 <= k < |options| && options[k].isCorrect && options[k].index == x
  {
    if |options| == 0 then []
    else
      var rest := CorrectIndexList(options[1..]);
      assert forall k :: 1 <= k < |options| ==> options[k] == options[1..][k - 1];
      (if options[0].isCorrect then [options[0].index] else []) + rest
  }

  /** More than one option is flagged correct. */
  predicate HasManyCorrect(options: seq<FlatOption>) {
    |CorrectIndexList(options)| > 1
  }

  /** The count of correct options exceeds one exactly when two different options are correct. */
  lemma {:induction false} HasManyCorrectIff(options: seq<FlatOption>)
    ensures HasManyCorrect(options) <==>
              exists i, j :: 0 <= i < j < |options| && options[i].isCorrect && options[j].isCorrect
  {
    if |options| > 0 {
      var tail := options[1..];
      HasManyCorrectIff(tail);
      assert forall k :: 1 <= k < |options| ==> options[k] == tail[k - 1];
      if options[0].isCorrect {
        if |CorrectIndexList(tail)| > 0 {
          var x := CorrectIndexList(tail)[0];
          assert x in CorrectIndexList(tail);
          var k :| 0 <= k < |tail| && tail[k].isCorrect && tail[k].index == x;
          assert options[k + 1].isCorrect;
        } else {
          assert forall k :: 0 <= k < |tail| ==> !tail[k].isCorrect;
        }
      } else {
        forall i, j | 0 <= i < j < |options| && options[i].isCorrect && options[j].isCorrect
          ensures exists a, b :: 0 <= a < b < |tail| && tail[a].isCorrect && tail[b].isCorrect
        {
          assert tail[i - 1].isCorrect && tail[j - 1].isCorrect;
        }
      }
    }
  }

  /** `quizHasMultiAnswer`: some question of the quiz has more than one correct option. */
  function QuizHasMultiAnswer(quiz: seq<PlayQuestion>): (r: bool)
    ensures r <==> exists k :: 0 <= k < |quiz| && HasManyCorrect(quiz[k].options)
  {
    if |quiz| == 0 then false
    else
      var rest := QuizHasMultiAnswer(quiz[1..]);
      assert forall k :: 1 <= k < |quiz| ==> quiz[k] == quiz[1..][k - 1];
      HasManyCorrect(quiz[0].options) || rest
  }

  /** `correctIndices`: nothing for a fill-in-the-gap question, else the indices of the correct options. */
  function CorrectIndices(q: PlayQuestion, fillGap: bool): (r: seq<int>)
    ensures fillGap ==> r == []
    ensures !fillGap ==> forall x :: x in r <==> exists k :: 0 <= k < |q.options| && q.options[k].isCorrect && q.options[k].index == x
  {
    if fillGap then [] else CorrectIndexList(q.options)
  }

  // ---------------------------------------------------------------------------
  // Picking options

  /** `prev.filter(idx => idx !== x)`. */
  function Without(s: seq<int>, x: int): (r: seq<int>)
    ensures forall y :: y in r <==> y in s && y != x
    ensures x !in s ==> r == s
    ensures NoDup(s) ==> NoDup(r)
  {
    if |s| == 0 then []
    else
      var rest := Without(s[1..], x);
      assert s == [s[0]] + s[1..];
      assert NoDup(s) ==> NoDup(s[1..]) && s[0] !in s[1..] by {
        if NoDup(s) {
          forall i, j | 0 <= i < j < |s[1..]| ensures s[1..][i] != s[1..][j] {
            assert s[1..][i] == s[i + 1] && s[1..][j] == s[j + 1];
          }
        }
      }
      if s[0] == x then rest else [s[0]] + rest
  }

  /** Selecting an unselected index appends it; selecting a selected one removes it. */
  function Toggle(s: seq<int>, x: int): (r: seq<int>)
    ensures x in r <==> x !in s
    ensures forall y :: y != x ==> (y in r <==> y in s)
    ensures NoDup(s) ==> NoDup(r)
  {
    if x in s then Without(s, x) else s + [x]
  }

  /** Toggling twice restores which indices are selected, and restores the list itself when the index was not selected. */
  lemma ToggleTwice(s: seq<int>, x: int)
    ensures SetOf(Toggle(Toggle(s, x), x)) == SetOf(s)
    ensures x !in s ==> Toggle(Toggle(s, x), x) == s
  {
    if x !in s {
      var t := s + [x];
      assert t[..|s|] == s;
      WithoutAppend(s, x);
    }
  }

  lemma {:induction false} WithoutAppend(s: seq<int>, x: int)
    requires x !in s
    ensures Without(s + [x], x) == s
  {
    if |s| > 0 {
      assert (s + [x])[1..] == s[1..] + [x];
      WithoutAppend(s[1..], x);
    } else {
      assert s + [x] == [x];
    }
  }

  /**
   * `handleOptionClick`: ignored while a grading is shown or being processed;
   * in a quiz with a multi-answer question it toggles the index unless that
   * index was already verified correct; otherwise it selects the index.
   */
  function HandleOptionClick(s: State, multi: bool, x: int): (r: State)
    ensures s.processing || s.revealed ==> r == s
    ensures r == s.(selectedIndex := r.selectedIndex, selectedIndices := r.selectedIndices)
    ensures !s.processing && !s.revealed && !multi ==> r.selectedIndex == Some(x) && r.selectedIndices == s.selectedIndices
    ensures multi ==> r.selectedIndex == s.selectedIndex
    ensures multi && x in s.verifiedCorrect ==> r == s
    ensures multi && !s.processing && !s.revealed && x !in s.verifiedCorrect ==>
              (x in r.selectedIndices <==> x !in s.selectedIndices)
              && forall y :: y != x ==> (y in r.selectedIndices <==> y in s.selectedIndices)
    ensures NoDup(s.selectedIndices) ==> NoDup(r.selectedIndices)
  {
    if s.processing || s.revealed then s
    else if multi then
      if x in s.verifiedCorrect then s else s.(selectedIndices := Toggle(s.selectedIndices, x))
    else s.(selectedIndex := Some(x))
  }

  /** In a multi-answer quiz two clicks on the same index leave the selected set as it was. */
  lemma ClickTwiceRestores(s: State, x: int)
    ensures SetOf(HandleOptionClick(HandleOptionClick(s, true, x), true, x).selectedIndices) == SetOf(s.selectedIndices)
  {
    if !s.processing && !s.revealed && x !in s.verifiedCorrect {
      ToggleTwice(s.selectedIndices, x);
    }
  }

  /** `handleGapSelectionChange`: records the choice for one gap. */
  function ChangeGapSelection(s: State, g: nat, v: Option<int>): (r: State)
    ensures r.gapSelections.Keys == s.gapSelections.Keys + {g}
    ensures r.gapSelections[g] == v
    ensures forall h :: h in s.gapSelections && h != g ==> r.gapSelections[h] == s.gapSelections[h]
    ensures r == s.(gapSelections := r.gapSelections)
  {
    s.(gapSelections := s.gapSelections[g := v])
  }

  // ---------------------------------------------------------------------------
  // The submit button

  /** Gap `g` has a selection: its key is present and its value is not null. */
  predicate Selected(sel: map<nat, Option<int>>, g: nat) {
    g in sel && sel[g].Some?
  }

  function AllSelectedBelow(sel: map<nat, Option<int>>, n: nat): (r: bool)
    ensures r <==> forall g: nat :: g < n ==> Selected(sel, g)
  {
    if n == 0 then true else Selected(sel, n - 1) && AllSelectedBelow(sel, n - 1)
  }

  /**
   * `isSubmitDisabled`: always while processing; for a gap question unless the
   * text has a gap and every gap below the gap count has a selection; in a
   * multi-answer quiz while nothing is selected; otherwise while no index is selected.
   */
  function IsSubmitDisabled(s: State, q: PlayQuestion, fillGap: bool, multi: bool): (r: bool)
    ensures s.processing ==> r
    ensures !s.processing && fillGap ==>
              (r <==> var n := CountGaps(q.text.GetOr([])); n == 0 || exists g: nat :: g < n && !Selected(s.gapSelections, g))
    ensures !s.processing && !fillGap && multi ==> (r <==> s.selectedIndices == [])
    ensures !s.processing && !fillGap && !multi ==> (r <==> s.selectedIndex.None?)
  {
    if s.processing then true
    else if fillGap then
      var n := CountGaps(q.text.GetOr([]));
      n == 0 || !AllSelectedBelow(s.gapSelections, n)
    else if multi then |s.selectedIndices| == 0
    else s.selectedIndex.None?
  }

  // ---------------------------------------------------------------------------
  // Grading

  /** `optionsForGap.find(entry => entry.globalIndex === selected)`. */
  function FindEntry(entries: seq<GapEntry>, x: int): (r: Option<GapEntry>)
    ensures r.None? <==> forall k :: 0 <= k < |entries| ==> entries[k].globalIndex != x
    ensures r.Some? ==> exists k :: 0 <= k < |entries| && entries[k] == r.value && r.value.globalIndex == x
                           && forall j :: 0 <= j < k ==> entries[j].globalIndex != x
  {
    if |entries| == 0 then None
    else if entries[0].globalIndex == x then Some(entries[0])
    else
      var r := FindEntry(entries[1..], x);
      assert forall k :: 1 <= k < |entries| ==> entries[k] == entries[1..][k - 1];
      r
  }

  /** The entries of gap `g` as the grouping map holds them (`gapMap.get(g) || []`). */
  function GroupOf(options: seq<FlatOption>, g: nat): seq<GapEntry> {
    var groups := GroupOptionsByGap(options);
    if g in groups then groups[g] else []
  }

  /** The selection of gap `g` finds an entry of that gap, and its option is correct. */
  predicate GapRight(options: seq<FlatOption>, sel: map<nat, Option<int>>, g: nat)
    requires Selected(sel, g)
  {
    var e := FindEntry(GroupOf(options, g), sel[g].value);
    e.Some? && e.value.option.isCorrect
  }

  /**
   * A gap is answered right exactly when the first option marked for that gap
   * whose `index` is the selected value is correct; with the indices of one
   * gap's options distinct, exactly when some option of that gap with the
   * selected index is correct.
   */
  lemma GapRightSpec(options: seq<FlatOption>, sel: map<nat, Option<int>>, g: nat)
    requires Selected(sel, g)
    ensures GapRight(options, sel, g) <==>
              exists k :: 0 <= k < |EntriesOf(options, g)| && EntriesOf(options, g)[k].globalIndex == sel[g].value
                          && EntriesOf(options, g)[k].option.isCorrect
                          && forall j :: 0 <= j < k ==> EntriesOf(options, g)[j].globalIndex != sel[g].value
  {
    GroupOptionsByGapSpec(options, g);
    assert GroupOf(options, g) == EntriesOf(options, g);
  }

  /** The gaps of `numbers` answered right (`right` true) or wrong (`right` false), in order. */
  function GapsWhere(numbers: seq<nat>, options: seq<FlatOption>, sel: map<nat, Option<int>>, right: bool): (r: seq<nat>)
    requires forall g :: g in numbers ==> Selected(sel, g)
    ensures forall g :: g in r <==> g in numbers && GapRight(options, sel, g) == right
    ensures NoDup(numbers) ==> NoDup(r)
  {
    if |numbers| == 0 then []
    else
      var rest := GapsWhere(numbers[1..], options, sel, right);
      assert numbers == [numbers[0]] + numbers[1..];
      if GapRight(options, sel, numbers[0]) == right then [numbers[0]] + rest else rest
  }

  function AttemptsOf(attempts: map<string, seq<Answer>>, id: string): seq<Answer> {
    if id in attempts then attempts[id] else []
  }

  /** Adding to a JavaScript `Set` kept as its insertion-ordered list. */
  function AddOnce(s: seq<string>, x: string): (r: seq<string>)
    ensures SetOf(r) == SetOf(s) + {x}
    ensures NoDup(s) ==> NoDup(r)
    ensures s <= r
  {
    if x in s then s else s + [x]
  }

  /** A wrong answer: the question counts as initially wrong and the attempt is appended to its list. */
  function RecordWrong(s: State, id: string, a: Answer): (r: State)
    ensures SetOf(r.initiallyWrong) == SetOf(s.initiallyWrong) + {id}
    ensures NoDup(s.initiallyWrong) ==> NoDup(r.initiallyWrong)
    ensures r.attempts.Keys == s.attempts.Keys + {id}
    ensures r.attempts[id] == AttemptsOf(s.attempts, id) + [a]
    ensures forall other :: other in s.attempts && other != id ==> r.attempts[other] == s.attempts[other]
    ensures r == s.(initiallyWrong := r.initiallyWrong, attempts := r.attempts)
  {
    s.(initiallyWrong := AddOnce(s.initiallyWrong, id), attempts := s.attempts[id := AttemptsOf(s.attempts, id) + [a]])
  }

  /**
   * A right answer is revealed; without an explanation the page stays busy and
   * schedules the advance from the current question, with one it waits for
   * the player to continue.
   */
  function OnRight(s: State, hasExplanation: bool): (r: State)
    ensures r.revealed
    ensures r.processing <==> !hasExplanation
    ensures r.pending == (if hasExplanation then s.pending else Some(s.index))
    ensures r == s.(revealed := true, processing := r.processing, pending := r.pending)
  {
    s.(revealed := true, processing := !hasExplanation, pending := if hasExplanation then s.pending else Some(s.index))
  }

  /** Every decoded gap has a selection. */
  predicate GapsReady(numbers: seq<nat>, sel: map<nat, Option<int>>) {
    |numbers| > 0 && forall g :: g in numbers ==> Selected(sel, g)
  }

  /**
   * Grading the gaps once every decoded gap has a selection.  The selections
   * are recorded as the answer; all gaps right reveals the answer, otherwise
   * the wrong gaps are flagged, the right ones are kept verified, and the
   * attempt is recorded.
   */
  function GradeGaps(s: State, q: PlayQuestion, numbers: seq<nat>, hasExplanation: bool): (r: State)
    requires !s.revealed
    requires GapsReady(numbers, s.gapSelections)
    ensures q.id in r.answers && r.answers[q.id] == GapAnswer(s.gapSelections)
    ensures r.revealed <==> forall g :: g in numbers ==> GapRight(q.options, s.gapSelections, g)
    ensures r.revealed ==>
              && r.gapVerifiedCorrect == SetOf(numbers) && r.gapTempIncorrect == []
              && r.initiallyWrong == s.initiallyWrong && r.attempts == s.attempts
    ensures !r.revealed ==>
              && (forall g :: g in r.gapTempIncorrect <==> g in numbers && !GapRight(q.options, s.gapSelections, g))
              && (forall g :: g in r.gapVerifiedCorrect <==>
                    g in s.gapVerifiedCorrect || (g in numbers && GapRight(q.options, s.gapSelections, g)))
              && q.id in r.initiallyWrong && q.id in r.attempts
              && r.attempts[q.id] == AttemptsOf(s.attempts, q.id) + [GapAnswer(s.gapSelections)]
    ensures r.index == s.index && r.disabled == s.disabled && r.selectedIndices == s.selectedIndices
    ensures SetOf(s.initiallyWrong) <= SetOf(r.initiallyWrong) <= SetOf(s.initiallyWrong) + {q.id}
    ensures NoDup(s.initiallyWrong) ==> NoDup(r.initiallyWrong)
  {
    var sel := s.gapSelections;
    var wrong := GapsWhere(numbers, q.options, sel, false);
    var right := GapsWhere(numbers, q.options, sel, true);
    var answered := s.(answers := s.answers[q.id := GapAnswer(sel)]);
    if |wrong| == 0 then
      assert forall g :: g in numbers ==> GapRight(q.options, sel, g) by {
        forall g | g in numbers ensures GapRight(q.options, sel, g) {
          assert !GapRight(q.options, sel, g) ==> g in wrong;
        }
      }
      AcceptGaps(answered, numbers, hasExplanation)
    else
      assert wrong[0] in wrong;
      RejectGaps(answered, q.id, GapAnswer(sel), wrong, s.gapVerifiedCorrect + SetOf(right))
  }

  /** All gaps right: every decoded gap is verified, none is flagged, and the answer is revealed. */
  function AcceptGaps(s: State, numbers: seq<nat>, hasExplanation: bool): (r: State)
    ensures r.revealed && r.gapVerifiedCorrect == SetOf(numbers) && r.gapTempIncorrect == []
    ensures r.initiallyWrong == s.initiallyWrong && r.attempts == s.attempts && r.answers == s.answers
    ensures r.index == s.index && r.disabled == s.disabled && r.selectedIndices == s.selectedIndices
  {
    OnRight(s.(gapVerifiedCorrect := SetOf(numbers), gapTempIncorrect := []), hasExplanation)
  }

  /** Some gap wrong: the wrong gaps are flagged, the verified ones kept, and the attempt is recorded. */
  function RejectGaps(s: State, id: string, a: Answer, wrong: seq<nat>, verified: set<nat>): (r: State)
    ensures r.revealed == s.revealed && r.gapTempIncorrect == wrong && r.gapVerifiedCorrect == verified
    ensures id in r.initiallyWrong && id in r.attempts && r.attempts[id] == AttemptsOf(s.attempts, id) + [a]
    ensures SetOf(r.initiallyWrong) == SetOf(s.initiallyWrong) + {id}
    ensures NoDup(s.initiallyWrong) ==> NoDup(r.initiallyWrong)
    ensures r.index == s.index && r.disabled == s.disabled && r.selectedIndices == s.selectedIndices && r.answers == s.answers
  {
    var r := RecordWrong(s, id, a).(gapTempIncorrect := wrong, gapVerifiedCorrect := verified);
    assert id in SetOf(r.initiallyWrong);
    r
  }

  /**
   * A fill-in-the-gap submit does nothing unless some gap is decoded and
   * every decoded gap has a selection; then the gaps are graded.
   */
  function SubmitGap(s: State, q: PlayQuestion, hasExplanation: bool): (r: State)
    requires !s.revealed
    ensures !GapsReady(DecodedGapNumbers(q.options), s.gapSelections) ==> r == s
    ensures GapsReady(DecodedGapNumbers(q.options), s.gapSelections) ==> r == GradeGaps(s, q, DecodedGapNumbers(q.options), hasExplanation)
    ensures r.index == s.index && r.selectedIndices == s.selectedIndices
    ensures SetOf(s.initiallyWrong) <= SetOf(r.initiallyWrong) <= SetOf(s.initiallyWrong) + {q.id}
    ensures NoDup(s.initiallyWrong) ==> NoDup(r.initiallyWrong)
  {
    var numbers := DecodedGapNumbers(q.options);
    if !GapsReady(numbers, s.gapSelections) then s else GradeGaps(s, q, numbers, hasExplanation)
  }

  /** `selectedSet.size === correctSet.size && [...selectedSet].every(idx => correctSet.has(idx))`. */
  predicate MultiRight(selected: seq<int>, correct: seq<int>) {
    |SetOf(selected)| == |SetOf(correct)| && SetOf(selected) <= SetOf(correct)
  }

  lemma RemoveOne(b: set<int>, h: int)
    requires h in b
    ensures |b - {h}| == |b| - 1
  {
    assert b == (b - {h}) + {h};
  }

  /** The indices of a list inside a set are at most as many as the set's elements. */
  lemma {:induction false} SubsetCardinality(s: seq<int>, b: set<int>)
    requires SetOf(s) <= b
    ensures |SetOf(s)| <= |b|
  {
    if |s| > 0 {
      var t := s[1..];
      assert SetOf(s) == SetOf(t) + {s[0]} by {
        assert s == [s[0]] + t;
      }
      if s[0] in SetOf(t) {
        SubsetCardinality(t, b);
      } else {
        RemoveOne(b, s[0]);
        SubsetCardinality(t, b - {s[0]});
      }
    }
  }

  /** The first element of `s` outside `a`, if any. */
  function FirstMissing(s: seq<int>, a: set<int>): (r: Option<int>)
    ensures r.None? ==> forall k :: 0 <= k < |s| ==> s[k] in a
    ensures r.Some? ==> r.value in s && r.value !in a
  {
    if |s| == 0 then None
    else if s[0] !in a then Some(s[0])
    else
      var r := FirstMissing(s[1..], a);
      assert forall k :: 1 <= k < |s| ==> s[k] == s[1..][k - 1];
      r
  }

  /** The size-and-subset check accepts exactly the selections naming the same set of indices as the correct options. */
  lemma MultiRightIffSameSet(selected: seq<int>, correct: seq<int>)
    ensures MultiRight(selected, correct) <==> SetOf(selected) == SetOf(correct)
  {
    var a, b := SetOf(selected), SetOf(correct);
    if a <= b {
      match FirstMissing(correct, a)
      case None =>
        assert b <= a;
      case Some(x) =>
        RemoveOne(b, x);
        SubsetCardinality(selected, b - {x});
    }
  }

  /**
   * Grading in a quiz with a multi-answer question: the selected indices are
   * recorded; the answer is right when they name exactly the correct indices;
   * otherwise the wrongly selected indices are flagged, the rightly selected
   * ones become verified, and the attempt is recorded.
   */
  function SubmitMulti(s: State, q: PlayQuestion, correct: seq<int>, hasExplanation: bool): (r: State)
    requires !s.revealed
    ensures q.id in r.answers && r.answers[q.id] == MultiAnswer(s.selectedIndices)
    ensures r.revealed <==> SetOf(s.selectedIndices) == SetOf(correct)
    ensures !r.revealed ==>
              && r.tempIncorrect == Filter(s.selectedIndices, Among(correct, false))
              && r.verifiedCorrect == s.verifiedCorrect + (SetOf(s.selectedIndices) * SetOf(correct))
              && q.id in r.initiallyWrong && q.id in r.attempts
              && r.attempts[q.id] == AttemptsOf(s.attempts, q.id) + [MultiAnswer(s.selectedIndices)]
    ensures r.index == s.index && r.disabled == s.disabled && r.selectedIndices == s.selectedIndices
    ensures SetOf(s.initiallyWrong) <= SetOf(r.initiallyWrong) <= SetOf(s.initiallyWrong) + {q.id}
    ensures NoDup(s.initiallyWrong) ==> NoDup(r.initiallyWrong)
  {
    MultiRightIffSameSet(s.selectedIndices, correct);
    var answered := s.(answers := s.answers[q.id := MultiAnswer(s.selectedIndices)]);
    if MultiRight(s.selectedIndices, correct) then OnRight(answered, hasExplanation)
    else
      var kept := Filter(s.selectedIndices, Among(correct, true));
      KeptAreCommon(s.selectedIndices, correct);
      RecordWrong(answered, q.id, MultiAnswer(s.selectedIndices))
        .(tempIncorrect := Filter(s.selectedIndices, Among(correct, false)), verifiedCorrect := s.verifiedCorrect + SetOf(kept))
  }

  /** Being (`inside` true) or not being (`inside` false) among `correct`. */
  function Among(correct: seq<int>, inside: bool): int -> bool {
    (x: int) => (x in correct) == inside
  }

  /** The selected indices kept as among the correct ones are exactly those both selected and correct. */
  lemma KeptAreCommon(s: seq<int>, correct: seq<int>)
    ensures SetOf(Filter(s, Among(correct, true))) == SetOf(s) * SetOf(correct)
  {
    var kept := Filter(s, Among(correct, true));
    forall x ensures x in SetOf(kept) <==> x in SetOf(s) * SetOf(correct) {
      assert x in kept <==> x in s && Among(correct, true)(x);
    }
  }

  /** The options of question `id` disabled so far (`disabledOptions[id] || []`). */
  function DisabledOf(disabled: map<string, set<int>>, id: string): set<int> {
    if id in disabled then disabled[id] else {}
  }

  /** A wrong single answer: the choice is disabled for this question only, and the attempt is recorded. */
  function RejectSingle(s: State, id: string, x: int): (r: State)
    ensures id in r.disabled && r.disabled[id] == DisabledOf(s.disabled, id) + {x}
    ensures forall other :: other in s.disabled && other != id ==> other in r.disabled && r.disabled[other] == s.disabled[other]
    ensures id in r.initiallyWrong && id in r.attempts
    ensures r.attempts[id] == AttemptsOf(s.attempts, id) + [SingleAnswer(x)]
    ensures SetOf(r.initiallyWrong) == SetOf(s.initiallyWrong) + {id}
    ensures NoDup(s.initiallyWrong) ==> NoDup(r.initiallyWrong)
    ensures r == s.(disabled := r.disabled, initiallyWrong := r.initiallyWrong, attempts := r.attempts)
  {
    var r := RecordWrong(s, id, SingleAnswer(x)).(disabled := s.disabled[id := DisabledOf(s.disabled, id) + {x}]);
    assert id in SetOf(r.initiallyWrong);
    r
  }

  /**
   * Grading a single-answer question: the override index wins over the
   * selected one; with neither nothing happens.  The chosen index is recorded
   * and compared with the question's correct index; a wrong choice is
   * disabled for this question and recorded as an attempt.
   */
  function SubmitSingle(s: State, q: PlayQuestion, override: Option<int>, hasExplanation: bool): (r: State)
    requires !s.revealed
    ensures override.None? && s.selectedIndex.None? ==> r == s
    ensures var chosen := if override.Some? then override else s.selectedIndex;
            chosen.Some? ==>
              && q.id in r.answers && r.answers[q.id] == SingleAnswer(chosen.value)
              && (r.revealed <==> chosen.value == q.correctIndex)
              && (!r.revealed ==>
                    && q.id in r.disabled && r.disabled[q.id] == DisabledOf(s.disabled, q.id) + {chosen.value}
                    && (forall other :: other in s.disabled && other != q.id ==> other in r.disabled && r.disabled[other] == s.disabled[other])
                    && q.id in r.initiallyWrong && q.id in r.attempts
                    && r.attempts[q.id] == AttemptsOf(s.attempts, q.id) + [SingleAnswer(chosen.value)])
    ensures r.index == s.index && r.selectedIndices == s.selectedIndices
    ensures SetOf(s.initiallyWrong) <= SetOf(r.initiallyWrong) <= SetOf(s.initiallyWrong) + {q.id}
    ensures NoDup(s.initiallyWrong) ==> NoDup(r.initiallyWrong)
  {
    var chosen := if override.Some? then override else s.selectedIndex;
    match chosen
    case None => s
    case Some(x) =>
      var answered := s.(answers := s.answers[q.id := SingleAnswer(x)]);
      if x == q.correctIndex then OnRight(answered, hasExplanation)
      else RejectSingle(answered, q.id, x)
  }

  /**
   * `hasExplanation`: a non-empty explanation; for a gap question it must also
   * parse as an object with at least one key.  `keyCount` stands for parsing:
   * the number of keys, `None` when parsing fails.
   */
  function HasExplanation(explanation: Option<string>, fillGap: bool, keyCount: string -> Option<nat>): (r: bool)
    ensures r ==> explanation.Some? && explanation.value != []
    ensures !fillGap ==> (r <==> explanation.Some? && explanation.value != [])
    ensures fillGap && explanation.Some? && explanation.value != [] ==>
              (r <==> keyCount(explanation.value).Some? && keyCount(explanation.value).value > 0)
  {
    if explanation.None? || explanation.value == [] then false
    else if fillGap then
      match keyCount(explanation.value)
      case Some(n) => n > 0
      case None => false
    else true
  }

  /** The question shown at the current index, if any. */
  function Current(s: State, quiz: seq<PlayQuestion>): Option<PlayQuestion> {
    if s.index < |quiz| then Some(quiz[s.index]) else None
  }

  /**
   * `handleSubmit`: ignored without a current question or while a grading is
   * shown or being processed; otherwise a gap question is graded by its gaps,
   * any question of a quiz with a multi-answer question by its set of
   * selected indices, and any other by its single chosen index.
   */
  function HandleSubmit(s: State, quiz: seq<PlayQuestion>, override: Option<int>, hasExplanation: bool): (r: State)
    ensures Current(s, quiz).None? || s.processing || s.revealed ==> r == s
    ensures r.index == s.index && r.selectedIndices == s.selectedIndices
    ensures SetOf(s.initiallyWrong) <= SetOf(r.initiallyWrong)
    ensures SetOf(r.initiallyWrong) <= SetOf(s.initiallyWrong) + (if s.index < |quiz| then {quiz[s.index].id} else {})
    ensures NoDup(s.initiallyWrong) ==> NoDup(r.initiallyWrong)
  {
    if s.index >= |quiz| || s.processing || s.revealed then s
    else
      var q := quiz[s.index];
      var fillGap := IsFillGapQuestion(q.text, q.options);
      if fillGap then SubmitGap(s, q, hasExplanation)
      else if QuizHasMultiAnswer(quiz) then SubmitMulti(s, q, CorrectIndices(q, fillGap), hasExplanation)
      else SubmitSingle(s, q, override, hasExplanation)
  }

  /**
   * When the quiz's options carry no correctness flags (the detail endpoint
   * sends only each option's index and text), no fill-in-the-gap answer can be
   * right and no quiz counts as multi-answer.
   */
  lemma NoFlagsNoGapRight(quiz: seq<PlayQuestion>, sel: map<nat, Option<int>>, g: nat)
    requires forall k, j :: 0 <= k < |quiz| && 0 <= j < |quiz[k].options| ==> !quiz[k].options[j].isCorrect
    ensures !QuizHasMultiAnswer(quiz)
    ensures forall k :: 0 <= k < |quiz| && Selected(sel, g) ==> !GapRight(quiz[k].options, sel, g)
  {
    forall k | 0 <= k < |quiz| ensures !HasManyCorrect(quiz[k].options) {
      HasManyCorrectIff(quiz[k].options);
    }
    forall k | 0 <= k < |quiz| && Selected(sel, g) ensures !GapRight(quiz[k].options, sel, g) {
      var options := quiz[k].options;
      GroupOptionsByGapSpec(options, g);
      var e := FindEntry(GroupOf(options, g), sel[g].value);
      if e.Some? {
        var i :| 0 <= i < |EntriesOf(options, g)| && EntriesOf(options, g)[i] == e.value;
        EntriesOfShape(options, g, i);
      }
    }
  }

  /**
   * When every decoded gap of a gap question lies below the text's gap count,
   * an enabled submit button grades the question.
   */
  lemma EnabledGapSubmitGrades(s: State, q: PlayQuestion)
    requires !IsSubmitDisabled(s, q, true, false)
    requires forall g :: g in DecodedGapNumbers(q.options) ==> g < CountGaps(q.text.GetOr([]))
    requires DecodedGapNumbers(q.options) != []
    ensures GapsReady(DecodedGapNumbers(q.options), s.gapSelections)
  {
  }

  // ---------------------------------------------------------------------------
  // Moving on

  /** `resetQuestionState`: clears the selections and the grading of the question; the rest stays. */
  function ResetQuestionState(s: State): (r: State)
    ensures r.selectedIndex.None? && r.selectedIndices == [] && r.gapSelections == map[]
    ensures r.gapTempIncorrect == [] && r.gapVerifiedCorrect == {} && r.verifiedCorrect == {}
    ensures !r.revealed && !r.processing
    ensures r.index == s.index && r.disabled == s.disabled && r.tempIncorrect == s.tempIncorrect
    ensures r.initiallyWrong == s.initiallyWrong && r.answers == s.answers && r.attempts == s.attempts && r.pending == s.pending
  {
    s.(selectedIndex := None, selectedIndices := [], gapSelections := map[], gapTempIncorrect := [],
       gapVerifiedCorrect := {}, verifiedCorrect := {}, revealed := false, processing := false)
  }

  /** The start of a quiz, also the state after the quiz changes: nothing answered, no timer pending. */
  function Initial(): (r: State)
    ensures r.index == 0 && r.initiallyWrong == [] && r.answers == map[] && r.attempts == map[]
    ensures r.pending.None? && !r.revealed && !r.processing && r.disabled == map[]
  {
    State(0, None, [], map[], false, false, [], {}, map[], [], {}, [], map[], map[], None)
  }

  /** Either the next question is being played or the results page is shown with the wrong ids and the answers. */
  datatype Outcome = Playing(state: State) | Finished(wrong: seq<string>, answers: map<string, Answer>, attempts: map<string, seq<Answer>>)

  /** Moving on from question `from`: the results after the last question, else the next question with a fresh state. */
  function AdvanceFrom(s: State, from: nat, total: nat): (r: Outcome)
    ensures r.Finished? <==> from + 1 >= total
    ensures r.Finished? ==> r.wrong == s.initiallyWrong && r.answers == s.answers && r.attempts == s.attempts
    ensures r.Playing? ==> r.state == ResetQuestionState(s).(index := from + 1) && r.state.index < total
  {
    if from + 1 >= total then Finished(s.initiallyWrong, s.answers, s.attempts)
    else Playing(ResetQuestionState(s).(index := from + 1))
  }

  /** `handleContinueToNext`: only once the answer is revealed. */
  function ContinueToNext(s: State, total: nat): (r: Outcome)
    ensures !s.revealed ==> r == Playing(s)
    ensures s.revealed ==> r == AdvanceFrom(s, s.index, total)
  {
    if !s.revealed then Playing(s) else AdvanceFrom(s, s.index, total)
  }

  /** The scheduled advance fires: it moves on from the question it was scheduled at. */
  function TimerFires(s: State, total: nat): (r: Outcome)
    ensures s.pending.None? ==> r == Playing(s)
    ensures s.pending.Some? ==> r == AdvanceFrom(s.(pending := None), s.pending.value, total)
  {
    match s.pending
    case None => Playing(s)
    case Some(from) => AdvanceFrom(s.(pending := None), from, total)
  }

  /**
   * What holds throughout a play: each question is listed at most once as
   * initially wrong, and only questions of the quiz are; the selected indices
   * have no repeats.
   */
  predicate Inv(s: State, quiz: seq<PlayQuestion>) {
    && NoDup(s.initiallyWrong)
    && (forall id :: id in s.initiallyWrong ==> exists k :: 0 <= k < |quiz| && quiz[k].id == id)
    && NoDup(s.selectedIndices)
  }

  lemma InitialInv(quiz: seq<PlayQuestion>)
    ensures Inv(Initial(), quiz)
  {
  }

  /** Clicking an option and choosing a gap option keep the invariant. */
  lemma ChoicesKeepInv(s: State, quiz: seq<PlayQuestion>, multi: bool, x: int, g: nat, v: Option<int>)
    requires Inv(s, quiz)
    ensures Inv(HandleOptionClick(s, multi, x), quiz)
    ensures Inv(ChangeGapSelection(s, g, v), quiz)
  {
  }

  /** Submitting keeps the invariant: only the current question can join the initially wrong ones, and only once. */
  lemma SubmitKeepsInv(s: State, quiz: seq<PlayQuestion>, override: Option<int>, hasExplanation: bool)
    requires Inv(s, quiz)
    ensures Inv(HandleSubmit(s, quiz, override, hasExplanation), quiz)
  {
    var r := HandleSubmit(s, quiz, override, hasExplanation);
    assert r.selectedIndices == s.selectedIndices;
    forall id | id in r.initiallyWrong ensures exists k :: 0 <= k < |quiz| && quiz[k].id == id {
      assert id in SetOf(r.initiallyWrong);
      if id !in s.initiallyWrong {
        assert s.index < |quiz| && quiz[s.index].id == id;
      }
    }
  }

  /** Moving on keeps the invariant, and the results list each wrong question once and only questions of the quiz. */
  lemma AdvanceKeepsInv(s: State, quiz: seq<PlayQuestion>)
    requires Inv(s, quiz)
    ensures ContinueToNext(s, |quiz|).Playing? ==> Inv(ContinueToNext(s, |quiz|).state, quiz)
    ensures TimerFires(s, |quiz|).Playing? ==> Inv(TimerFires(s, |quiz|).state, quiz)
    ensures ContinueToNext(s, |quiz|).Finished? ==>
              var w := ContinueToNext(s, |quiz|).wrong;
              NoDup(w) && forall id :: id in w ==> exists k :: 0 <= k < |quiz| && quiz[k].id == id
  {
    ResetKeepsInv(s, quiz, s.index + 1);
    if s.pending.Some? {
      ResetKeepsInv(s.(pending := None), quiz, s.pending.value + 1);
    }
  }

  /** A fresh question state keeps the initially wrong list and has nothing selected. */
  lemma ResetKeepsInv(s: State, quiz: seq<PlayQuestion>, i: nat)
    requires Inv(s, quiz)
    ensures Inv(ResetQuestionState(s).(index := i), quiz)
  {
  }

  /**
   * A right single answer to a question without an explanation schedules the
   * advance from that question, and when the timer fires the play reaches the
   * next question or the results.
   */
  lemma RightSingleAnswerAdvances(s: State, q: PlayQuestion, total: nat, x: int)
    requires s.index < total && !s.processing && !s.revealed && x == q.correctIndex
    ensures var r := SubmitSingle(s, q, Some(x), false);
            && r.revealed && r.processing && r.pending == Some(s.index)
            && (s.index + 1 < total ==> TimerFires(r, total) == Playing(ResetQuestionState(r).(index := s.index + 1, pending := None)))
            && (s.index + 1 == total ==> TimerFires(r, total).Finished?)
  {
    RightSingleReveals(s, q, x, false);
    TimerAfterReveal(SubmitSingle(s, q, Some(x), false), s.index, total);
  }

  /** A right single answer to a question with an explanation is revealed and waits for the player to continue. */
  lemma RightSingleAnswerWaits(s: State, q: PlayQuestion, total: nat, x: int)
    requires !s.processing && !s.revealed && x == q.correctIndex
    ensures var r := SubmitSingle(s, q, Some(x), true);
            r.revealed && !r.processing && ContinueToNext(r, total) == AdvanceFrom(r, s.index, total)
  {
    RightSingleReveals(s, q, x, true);
  }

  /** In a quiz without multi-answer questions a question that is not a gap question is graded by its single chosen index. */
  lemma SingleRoute(s: State, quiz: seq<PlayQuestion>, override: Option<int>, hasExplanation: bool)
    requires s.index < |quiz| && !s.processing && !s.revealed
    requires !IsFillGapQuestion(quiz[s.index].text, quiz[s.index].options) && !QuizHasMultiAnswer(quiz)
    ensures HandleSubmit(s, quiz, override, hasExplanation) == SubmitSingle(s, quiz[s.index], override, hasExplanation)
  {
  }

  /** A gap question is graded by its gaps, whatever kind of quiz it is in. */
  lemma GapRoute(s: State, quiz: seq<PlayQuestion>, override: Option<int>, hasExplanation: bool)
    requires s.index < |quiz| && !s.processing && !s.revealed
    requires IsFillGapQuestion(quiz[s.index].text, quiz[s.index].options)
    ensures var q := quiz[s.index];
            var r := HandleSubmit(s, quiz, override, hasExplanation);
            && (!GapsReady(DecodedGapNumbers(q.options), s.gapSelections) ==> r == s)
            && (GapsReady(DecodedGapNumbers(q.options), s.gapSelections) ==>
                  r == GradeGaps(s, q, DecodedGapNumbers(q.options), hasExplanation))
  {
  }

  /**
   * In a quiz with a multi-answer question, any other question is graded by its
   * set of selected indices: the selection is recorded as the answer, and the
   * answer is revealed exactly when the selected indices are the indices of the
   * correct options; the override is ignored.
   */
  lemma MultiRoute(s: State, quiz: seq<PlayQuestion>, override: Option<int>, hasExplanation: bool)
    requires s.index < |quiz| && !s.processing && !s.revealed
    requires !IsFillGapQuestion(quiz[s.index].text, quiz[s.index].options) && QuizHasMultiAnswer(quiz)
    ensures var q := quiz[s.index];
            var r := HandleSubmit(s, quiz, override, hasExplanation);
            && r == SubmitMulti(s, q, CorrectIndices(q, false), hasExplanation)
            && q.id in r.answers && r.answers[q.id] == MultiAnswer(s.selectedIndices)
            && (r.revealed <==> forall x :: x in s.selectedIndices <==>
                                  exists k :: 0 <= k < |q.options| && q.options[k].isCorrect && q.options[k].index == x)
  {
    var q := quiz[s.index];
    var correct := CorrectIndices(q, false);
    var r := SubmitMulti(s, q, correct, hasExplanation);
    assert HandleSubmit(s, quiz, override, hasExplanation) == r;
    SelectedAreCorrect(r.revealed, s.selectedIndices, q);
  }

  /** A test for the same set as the correct indices holds exactly when the selected indices are those of the correct options. */
  lemma SelectedAreCorrect(b: bool, selected: seq<int>, q: PlayQuestion)
    requires b <==> SetOf(selected) == SetOf(CorrectIndices(q, false))
    ensures b <==> forall x :: x in selected <==>
                     exists k :: 0 <= k < |q.options| && q.options[k].isCorrect && q.options[k].index == x
  {
    var correct := CorrectIndices(q, false);
    SameSetIff(selected, correct);
    if forall x :: x in selected <==> x in correct {
      forall x ensures x in selected <==> exists k :: 0 <= k < |q.options| && q.options[k].isCorrect && q.options[k].index == x {
        assert x in selected <==> x in correct;
      }
    } else {
      var x :| !(x in selected <==> x in correct);
      assert !(x in selected <==> exists k :: 0 <= k < |q.options| && q.options[k].isCorrect && q.options[k].index == x);
    }
  }

  /** Two lists hold the same set exactly when they have the same members. */
  lemma SameSetIff<T>(a: seq<T>, b: seq<T>)
    ensures SetOf(a) == SetOf(b) <==> forall x :: x in a <==> x in b
  {
    if forall x :: x in a <==> x in b {
      assert SetOf(a) == SetOf(b);
    } else {
      var x :| !(x in a <==> x in b);
      assert x in SetOf(a) <==> x in a;
    }
  }

  /** A right single answer is revealed, and schedules the advance exactly when there is no explanation. */
  lemma RightSingleReveals(s: State, q: PlayQuestion, x: int, hasExplanation: bool)
    requires !s.revealed && x == q.correctIndex
    ensures var r := SubmitSingle(s, q, Some(x), hasExplanation);
            && r.revealed && (r.processing <==> !hasExplanation) && r.index == s.index
            && (!hasExplanation ==> r.pending == Some(s.index))
  {
    var answered := s.(answers := s.answers[q.id := SingleAnswer(x)]);
    assert SubmitSingle(s, q, Some(x), hasExplanation) == OnRight(answered, hasExplanation);
  }

  /** The advance scheduled at question `i` leads to question `i + 1` with a fresh state, or to the results after the last. */
  lemma TimerAfterReveal(r: State, i: nat, total: nat)
    requires r.pending == Some(i)
    ensures i + 1 < total ==> TimerFires(r, total) == Playing(ResetQuestionState(r).(index := i + 1, pending := None))
    ensures i + 1 >= total ==> TimerFires(r, total).Finished?
  {
    if i + 1 < total {
      assert ResetQuestionState(r.(pending := None)) == ResetQuestionState(r).(pending := None);
    }
  }
}
