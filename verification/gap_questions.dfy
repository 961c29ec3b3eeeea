/**
 * Recognising and validating fill-in-the-gap questions: a question is one when
 * its text has a gap and some stored option carries a gap marker; the editor
 * accepts a gap question only when every gap passes a fixed sequence of checks.
 */
module GapQuestions {
  import opened Wrappers
  import opened JsText
  import opened Rows
  import opened GapEncoding

  /** A stored option whose text is a string starting with a complete `__G<digits>__` marker. */
  predicate IsMarked(o: FlatOption) {
    o.text.Some? && HasMarkerPrefix(o.text.value)
  }

  /** `options.some(opt => typeof opt.text === 'string' && /^__G\d+__/.test(opt.text))`. */
  function AnyMarked(options: seq<FlatOption>): (r: bool)
    ensures r <==> exists k :: 0 <= k < |options| && IsMarked(options[k])
  {
    if |options| == 0 then false
    else if IsMarked(options[0]) then true
    else
      var r := AnyMarked(options[1..]);
      assert forall k :: 1 <= k < |options| ==> options[k] == options[1..][k - 1];
      r
  }

  /**
   * `isFillGapQuestion`: the text is a non-empty string with an underscore and some
   * option is marked.  `text` is `None` when the question's text is absent or not a string.
   */
  function IsFillGapQuestion(text: Option<string>, options: seq<FlatOption>): (r: bool)
    ensures r <==> text.Some? && HasUnderscore(text.value) && exists k :: 0 <= k < |options| && IsMarked(options[k])
  {
    if text.None? || text.value == [] then false
    else if |options| == 0 then false
    else
      var t := text.value;
      var hasGap := CountGaps(t) > 0;
      CountGapsZeroIff(t);
      hasGap && AnyMarked(options)
  }

  /** Every encoded option is marked. */
  lemma FlatOfMarked(g: nat, o: GapOption, i: nat)
    ensures IsMarked(FlatOf(g, o, i))
  {
    MarkerTextHasPrefix(g, o.text);
  }

  /** The stored option of candidate `j` of gap `g` of an encoding is marked. */
  lemma EncodedOptionMarked(gaps: seq<Gap>, g: nat, j: nat)
    requires g < |gaps| && j < |gaps[g].options|
    ensures Offset(gaps, g) + j < |EncodeOptions(gaps)|
    ensures IsMarked(EncodeOptions(gaps)[Offset(gaps, g) + j])
  {
    EncodedPosition(gaps, g, j);
    FlatOfMarked(g, gaps[g].options[j], Offset(gaps, g) + j);
  }

  /** A question whose text has a gap and whose gaps were encoded, one of them non-empty, is recognised as a gap question. */
  lemma EncodedIsFillGap(text: string, gaps: seq<Gap>, g: nat)
    requires HasUnderscore(text)
    requires g < |gaps| && |gaps[g].options| > 0
    ensures IsFillGapQuestion(Some(text), EncodeOptions(gaps))
  {
    var options := EncodeOptions(gaps);
    EncodedOptionMarked(gaps, g, 0);
    assert IsMarked(options[Offset(gaps, g)]);
  }

  // ---------------------------------------------------------------------------
  // validateGapQuestion

  /** The reasons `validateGapQuestion` rejects a question; gap numbers are 1-based, as in the messages. */
  datatype GapError =
    | NoGap
    | GapCountMismatch
    | TooFewOptions(gapNumber: nat)
    | OptionWithoutText(gapNumber: nat)
    | NeedsCorrectAndIncorrect(gapNumber: nat)

  function CountCorrect(opts: seq<GapOption>): (n: nat)
    ensures n <= |opts|
    ensures n > 0 <==> exists k :: 0 <= k < |opts| && opts[k].isCorrect
    ensures n < |opts| <==> exists k :: 0 <= k < |opts| && !opts[k].isCorrect
  {
    if |opts| == 0 then 0
    else
      var n := CountCorrect(opts[1..]);
      assert forall k :: 1 <= k < |opts| ==> opts[k] == opts[1..][k - 1];
      (if opts[0].isCorrect then 1 else 0) + n
  }

  /** `options.some(opt => !opt.text.trim())`. */
  function SomeBlank(opts: seq<GapOption>): (r: bool)
    ensures r <==> exists k :: 0 <= k < |opts| && IsBlank(opts[k].text)
  {
    Any(opts, (o: GapOption) => IsBlank(o.text))
  }

  /** The checks of one gap (0-based `g`), in the order `validateGapQuestion` runs them: count, blank text, correct and incorrect. */
  function GapProblem(g: nat, gap: Gap): Option<GapError> {
    var opts := gap.options;
    if |opts| < 2 then Some(TooFewOptions(g + 1))
    else if SomeBlank(opts) then Some(OptionWithoutText(g + 1))
    else
      var correct := CountCorrect(opts);
      if correct < 1 || |opts| - correct < 1 then Some(NeedsCorrectAndIncorrect(g + 1))
      else None
  }

  /** Reference definition of an acceptable gap. */
  predicate GapOk(gap: Gap) {
    && |gap.options| >= 2
    && (forall k :: 0 <= k < |gap.options| ==> !IsBlank(gap.options[k].text))
    && (exists k :: 0 <= k < |gap.options| && gap.options[k].isCorrect)
    && (exists k :: 0 <= k < |gap.options| && !gap.options[k].isCorrect)
  }

  /**
   * The checks of one gap run in order: too few options first, then an option
   * without text, then a missing correct or incorrect option; none fails exactly
   * when the gap is acceptable.
   */
  lemma GapProblemOrder(g: nat, gap: Gap)
    ensures GapProblem(g, gap).None? <==> GapOk(gap)
    ensures GapProblem(g, gap) == Some(TooFewOptions(g + 1)) <==> |gap.options| < 2
    ensures GapProblem(g, gap) == Some(OptionWithoutText(g + 1)) <==>
              |gap.options| >= 2 && exists k :: 0 <= k < |gap.options| && IsBlank(gap.options[k].text)
    ensures GapProblem(g, gap) == Some(NeedsCorrectAndIncorrect(g + 1)) <==>
              && |gap.options| >= 2
              && (forall k :: 0 <= k < |gap.options| ==> !IsBlank(gap.options[k].text))
              && ((forall k :: 0 <= k < |gap.options| ==> !gap.options[k].isCorrect)
                  || (forall k :: 0 <= k < |gap.options| ==> gap.options[k].isCorrect))
  {
  }

  /** A gap error that belongs to one gap (not to the question as a whole). */
  predicate PerGap(e: GapError) {
    e.TooFewOptions? || e.OptionWithoutText? || e.NeedsCorrectAndIncorrect?
  }

  /**
   * `e` is the problem of the first unacceptable gap at or after `g`: it names
   * that gap (1-based), is what its checks report, and every gap before it from
   * `g` on is acceptable.
   */
  predicate FirstProblemFrom(gaps: seq<Gap>, g: nat, e: GapError) {
    && PerGap(e) && g < e.gapNumber <= |gaps|
    && GapProblem(e.gapNumber - 1, gaps[e.gapNumber - 1]) == Some(e)
    && forall h :: g <= h < e.gapNumber - 1 ==> GapOk(gaps[h])
  }

  /** A problem found by the checks of gap `g` belongs to that gap and names it. */
  lemma GapProblemNamesGap(g: nat, gap: Gap)
    ensures GapProblem(g, gap).Some? ==> PerGap(GapProblem(g, gap).value) && GapProblem(g, gap).value.gapNumber == g + 1
  {
  }

  /** A problem at gap `g` itself is the first one from `g` on. */
  lemma FirstProblemHere(gaps: seq<Gap>, g: nat)
    requires g < |gaps| && GapProblem(g, gaps[g]).Some?
    ensures FirstProblemFrom(gaps, g, GapProblem(g, gaps[g]).value)
  {
    GapProblemNamesGap(g, gaps[g]);
  }

  /** The first problem from `g + 1` on is also the first from `g` on when gap `g` is acceptable. */
  lemma FirstProblemExtend(gaps: seq<Gap>, g: nat, e: GapError)
    requires g < |gaps| && GapOk(gaps[g]) && FirstProblemFrom(gaps, g + 1, e)
    ensures FirstProblemFrom(gaps, g, e)
  {
  }

  /** The loop over the gaps from `g` on: the first gap with a problem decides. */
  function CheckGapsFrom(gaps: seq<Gap>, g: nat): (r: Validation<GapError>)
    requires g <= |gaps|
    ensures r.Valid? <==> forall h :: g <= h < |gaps| ==> GapOk(gaps[h])
    ensures r.Invalid? ==> FirstProblemFrom(gaps, g, r.error)
    decreases |gaps| - g
  {
    if g == |gaps| then Valid
    else
      match GapProblem(g, gaps[g])
      case Some(e) =>
        assert !GapOk(gaps[g]) by { GapProblemOrder(g, gaps[g]); }
        FirstProblemHere(gaps, g);
        Invalid(e)
      case None =>
        assert GapOk(gaps[g]) by { GapProblemOrder(g, gaps[g]); }
        var r := CheckGapsFrom(gaps, g + 1);
        if r.Invalid? then FirstProblemExtend(gaps, g, r.error); r else r
  }

  /**
   * `validateGapQuestion(text, gapOptions)`: no gap first, then a gap count that
   * differs from the number of gap entries, then the first gap that fails its checks.
   */
  function ValidateGapQuestion(text: string, gaps: seq<Gap>): (r: Validation<GapError>)
    ensures r.Valid? <==> CountGaps(text) > 0 && |gaps| == CountGaps(text) && forall g :: 0 <= g < |gaps| ==> GapOk(gaps[g])
    ensures r == Invalid(NoGap) <==> !HasUnderscore(text)
    ensures r == Invalid(GapCountMismatch) <==> HasUnderscore(text) && |gaps| != CountGaps(text)
    ensures r.Invalid? && PerGap(r.error) ==>
              HasUnderscore(text) && |gaps| == CountGaps(text) && FirstProblemFrom(gaps, 0, r.error)
  {
    CountGapsZeroIff(text);
    var count := CountGaps(text);
    if count == 0 then Invalid(NoGap)
    else if |gaps| != count then Invalid(GapCountMismatch)
    else CheckGapsFrom(gaps, 0)
  }
}
