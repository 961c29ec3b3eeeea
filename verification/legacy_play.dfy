/**
 * The older play page: single-answer questions only.  Clicking an option
 * selects and grades it at once; a wrong option is disabled for the rest of
 * the question; a right one is revealed and, after a delay, the play moves
 * on to the next question or to the results.
 */
module LegacyPlay {
  import opened Wrappers
  import PlayState

  datatype Question = Question(id: string, correctIndex: int)

  /**
   * The page's state.  `pending` is the question index captured by the
   * scheduled advance, `None` when no advance is scheduled.
   */
  datatype State = State(
    index: nat,
    selected: Option<int>,
    disabled: map<string, set<int>>,
    revealed: bool,
    processing: bool,
    initiallyWrong: seq<string>,
    pending: Option<nat>)

  /** The start of a quiz, also the state after the quiz changes. */
  function Initial(): (r: State)
    ensures r.index == 0 && r.selected.None? && r.disabled == map[] && !r.revealed && !r.processing
    ensures r.initiallyWrong == [] && r.pending.None?
  {
    State(0, None, map[], false, false, [], None)
  }

  function DisabledFor(s: State, id: string): set<int> {
    if id in s.disabled then s.disabled[id] else {}
  }

  /**
   * `handleSubmit`: ignored without a current question, while processing or
   * revealed, or with no chosen index (the override wins over the selection).
   * A right choice is revealed and the advance is scheduled; a wrong one marks
   * the question initially wrong, disables the choice and clears the selection.
   */
  function HandleSubmit(s: State, quiz: seq<Question>, override: Option<int>): (r: State)
    ensures var chosen := if override.Some? then override else s.selected;
            s.index >= |quiz| || s.processing || s.revealed || chosen.None? ==> r == s
    ensures r.index == s.index
    ensures var chosen := if override.Some? then override else s.selected;
            s.index < |quiz| && !s.processing && !s.revealed && chosen.Some? ==>
              var q := quiz[s.index];
              if chosen.value == q.correctIndex then
                r == s.(revealed := true, processing := true, pending := Some(s.index))
              else
                && !r.revealed && !r.processing && r.selected.None? && r.pending == s.pending
                && PlayState.SetOf(r.initiallyWrong) == PlayState.SetOf(s.initiallyWrong) + {q.id}
                && r.disabled.Keys == s.disabled.Keys + {q.id}
                && DisabledFor(r, q.id) == DisabledFor(s, q.id) + {chosen.value}
                && forall id :: id != q.id ==> DisabledFor(r, id) == DisabledFor(s, id)
  {
    var chosen := if override.Some? then override else s.selected;
    if s.index >= |quiz| || s.processing || s.revealed || chosen.None? then s
    else
      var q := quiz[s.index];
      var x := chosen.value;
      if x == q.correctIndex then s.(revealed := true, processing := true, pending := Some(s.index))
      else
        s.(initiallyWrong := PlayState.AddOnce(s.initiallyWrong, q.id),
           disabled := s.disabled[q.id := DisabledFor(s, q.id) + {x}],
           selected := None)
  }

  /** `handleOptionClick`: ignored while processing or revealed; otherwise the option is selected and graded at once. */
  function HandleOptionClick(s: State, quiz: seq<Question>, x: int): (r: State)
    ensures s.processing || s.revealed ==> r == s
    ensures !s.processing && !s.revealed ==> r == HandleSubmit(s.(selected := Some(x)), quiz, Some(x))
  {
    if s.processing || s.revealed then s else HandleSubmit(s.(selected := Some(x)), quiz, Some(x))
  }

  /** `isDisabled` of an option button: while processing or revealed, or once the option was chosen wrongly. */
  predicate OptionDisabled(s: State, q: Question, x: int) {
    s.processing || s.revealed || x in DisabledFor(s, q.id)
  }

  datatype Outcome = Playing(state: State) | Finished(wrong: seq<string>)

  /**
   * The scheduled advance fires: after the question it was scheduled at comes
   * the next one, or the results after the last; the selection, the revealed and
   * the processing flag are cleared.
   */
  function TimerFires(s: State, total: nat): (r: Outcome)
    ensures s.pending.None? ==> r == Playing(s)
    ensures s.pending.Some? && s.pending.value + 1 >= total ==> r == Finished(s.initiallyWrong)
    ensures s.pending.Some? && s.pending.value + 1 < total ==>
              && r.Playing? && r.state.index == s.pending.value + 1 && r.state.index < total
              && r.state.selected.None? && !r.state.revealed && !r.state.processing && r.state.pending.None?
              && r.state.disabled == s.disabled && r.state.initiallyWrong == s.initiallyWrong
  {
    match s.pending
    case None => Playing(s)
    case Some(from) =>
      if from + 1 >= total then Finished(s.initiallyWrong)
      else Playing(s.(index := from + 1, selected := None, revealed := false, processing := false, pending := None))
  }

  /** A question's disabled options only ever grow, whatever the player does and whenever the timer fires. */
  lemma DisabledOnlyGrows(s: State, quiz: seq<Question>, x: int, override: Option<int>, id: string)
    ensures DisabledFor(s, id) <= DisabledFor(HandleSubmit(s, quiz, override), id)
    ensures DisabledFor(s, id) <= DisabledFor(HandleOptionClick(s, quiz, x), id)
    ensures TimerFires(s, |quiz|).Playing? ==> DisabledFor(s, id) <= DisabledFor(TimerFires(s, |quiz|).state, id)
  {
    var t := s.(selected := Some(x));
    assert DisabledFor(t, id) == DisabledFor(s, id);
  }

  /**
   * A wrong click keeps the question, marks it initially wrong, and leaves
   * that option disabled; a right click reveals it and schedules the advance.
   */
  lemma ClickGrades(s: State, quiz: seq<Question>, x: int)
    requires s.index < |quiz| && !s.processing && !s.revealed
    ensures var r := HandleOptionClick(s, quiz, x);
            var q := quiz[s.index];
            && r.index == s.index
            && (x == q.correctIndex ==> r.revealed && r.processing && r.pending == Some(s.index))
            && (x != q.correctIndex ==> OptionDisabled(r, q, x) && q.id in r.initiallyWrong && !r.revealed && r.selected.None?)
  {
    var q := quiz[s.index];
    var r := HandleSubmit(s.(selected := Some(x)), quiz, Some(x));
    assert q.id in PlayState.SetOf(r.initiallyWrong) ==> q.id in r.initiallyWrong;
  }

  /** What holds throughout a play: each question is listed at most once as initially wrong, and only questions of the quiz are. */
  predicate Inv(s: State, quiz: seq<Question>) {
    && PlayState.NoDup(s.initiallyWrong)
    && forall id :: id in s.initiallyWrong ==> exists k :: 0 <= k < |quiz| && quiz[k].id == id
  }

  /** Every step keeps the invariant, so the results list each wrong question once. */
  lemma StepsKeepInv(s: State, quiz: seq<Question>, x: int)
    requires Inv(s, quiz)
    ensures Inv(HandleOptionClick(s, quiz, x), quiz)
    ensures TimerFires(s, |quiz|).Playing? ==> Inv(TimerFires(s, |quiz|).state, quiz)
    ensures TimerFires(s, |quiz|).Finished? ==> PlayState.NoDup(TimerFires(s, |quiz|).wrong)
  {
    var r := HandleOptionClick(s, quiz, x);
    forall id | id in r.initiallyWrong ensures exists k :: 0 <= k < |quiz| && quiz[k].id == id {
      assert id in PlayState.SetOf(r.initiallyWrong);
      if id !in s.initiallyWrong {
        assert quiz[s.index].id == id;
      }
    }
  }

  /**
   * A right click on the last question leads to the results once the timer
   * fires; on any other question to the next one with a cleared selection.
   */
  lemma RightClickAdvances(s: State, quiz: seq<Question>)
    requires s.index < |quiz| && !s.processing && !s.revealed
    ensures var r := HandleOptionClick(s, quiz, quiz[s.index].correctIndex);
            && (s.index + 1 == |quiz| ==> TimerFires(r, |quiz|) == Finished(s.initiallyWrong))
            && (s.index + 1 < |quiz| ==> TimerFires(r, |quiz|).Playing? && TimerFires(r, |quiz|).state.index == s.index + 1
                                         && TimerFires(r, |quiz|).state.selected.None?)
  {
  }
}
