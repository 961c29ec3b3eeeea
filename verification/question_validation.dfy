/**
 * The question editor's checks: whether the editor holds unsaved input, the
 * validation of a basic (multiple-choice) question, of a fill-in-the-gap
 * question and of the quiz metadata, and keeping the per-gap entries in step
 * with the gaps of the question text.
 */
module QuestionValidation {
  import opened Wrappers
  import opened JsText
  import opened GapEncoding
  import opened GapQuestions

  /** The question type chosen in the editor: 'basic', 'fill_gap' or anything else. */
  datatype QuestionKind = BasicKind | FillGapKind | UnknownKind

  /**
   * The question being edited.  Basic options have the same shape as a gap's
   * candidates.  `gapOptions` is `None` when the field is not an array; an
   * `imageUrl` of '' stands for any falsy value; `explanation` is `None` when absent.
   */
  datatype Draft = Draft(
    text: string,
    options: seq<GapOption>,
    gapOptions: Option<seq<Gap>>,
    imageUrl: string,
    explanation: Option<string>)

  /** `Array.isArray(gapOptions) ? gapOptions : []`. */
  function GapsOf(d: Draft): seq<Gap> {
    d.gapOptions.GetOr([])
  }

  // ---------------------------------------------------------------------------
  // hasUnsavedQuestion

  /** `options.some(opt => opt.text.trim())`. */
  function SomeFilled(opts: seq<GapOption>): (r: bool)
    ensures r <==> exists k :: 0 <= k < |opts| && !IsBlank(opts[k].text)
  {
    if |opts| == 0 then false
    else
      var r := SomeFilled(opts[1..]);
      assert forall k :: 1 <= k < |opts| ==> opts[k] == opts[1..][k - 1];
      !IsBlank(opts[0].text) || r
  }

  /** The loop over the gaps: some gap has a filled-in candidate. */
  function SomeGapFilled(gaps: seq<Gap>): (r: bool)
    ensures r <==> exists g, k :: 0 <= g < |gaps| && 0 <= k < |gaps[g].options| && !IsBlank(gaps[g].options[k].text)
  {
    if |gaps| == 0 then false
    else
      var r := SomeGapFilled(gaps[1..]);
      assert forall g :: 1 <= g < |gaps| ==> gaps[g] == gaps[1..][g - 1];
      SomeFilled(gaps[0].options) || r
  }

  /** No option is filled in exactly when every option text is white space. */
  lemma NoneFilledIff(opts: seq<GapOption>)
    ensures !SomeFilled(opts) <==> forall k :: 0 <= k < |opts| ==> AllSpace(opts[k].text)
  {
    forall k | 0 <= k < |opts| ensures IsBlank(opts[k].text) <==> AllSpace(opts[k].text) {
      BlankIffAllSpace(opts[k].text);
    }
  }

  /** No gap has a filled-in candidate exactly when every candidate text is white space. */
  lemma NoGapFilledIff(gaps: seq<Gap>)
    ensures !SomeGapFilled(gaps) <==>
              forall g, k :: 0 <= g < |gaps| && 0 <= k < |gaps[g].options| ==> AllSpace(gaps[g].options[k].text)
  {
    forall g, k | 0 <= g < |gaps| && 0 <= k < |gaps[g].options|
      ensures IsBlank(gaps[g].options[k].text) <==> AllSpace(gaps[g].options[k].text)
    {
      BlankIffAllSpace(gaps[g].options[k].text);
    }
  }

  /** `options.some(opt => opt.image_url)`. */
  function SomeImage(opts: seq<GapOption>): (r: bool)
    ensures r <==> exists k :: 0 <= k < |opts| && opts[k].imageUrl != ""
  {
    if |opts| == 0 then false
    else
      var r := SomeImage(opts[1..]);
      assert forall k :: 1 <= k < |opts| ==> opts[k] == opts[1..][k - 1];
      opts[0].imageUrl != "" || r
  }

  /** `hasUnsavedQuestion`, with its checks in the order the editor runs them. */
  function HasUnsavedQuestion(d: Draft, kind: QuestionKind): bool {
    if !IsBlank(d.text) then true
    else if kind == BasicKind && SomeFilled(d.options) then true
    else if kind == FillGapKind && SomeGapFilled(GapsOf(d)) then true
    else if d.imageUrl != "" then true
    else if SomeImage(d.options) then true
    else if d.explanation.Some? && !IsBlank(d.explanation.value) then true
    else false
  }

  /**
   * The editor holds nothing worth keeping exactly when the text, the explanation
   * and the option texts of the chosen type are all blank and no image is set,
   * whatever the type (basic options' images count even for a gap question).
   */
  lemma NothingUnsavedIff(d: Draft, kind: QuestionKind)
    ensures !HasUnsavedQuestion(d, kind) <==>
              && AllSpace(d.text)
              && (kind == BasicKind ==> forall k :: 0 <= k < |d.options| ==> AllSpace(d.options[k].text))
              && (kind == FillGapKind ==> forall g, k :: 0 <= g < |GapsOf(d)| && 0 <= k < |GapsOf(d)[g].options| ==> AllSpace(GapsOf(d)[g].options[k].text))
              && d.imageUrl == ""
              && (forall k :: 0 <= k < |d.options| ==> d.options[k].imageUrl == "")
              && (d.explanation.Some? ==> AllSpace(d.explanation.value))
  {
    BlankIffAllSpace(d.text);
    NoneFilledIff(d.options);
    NoGapFilledIff(GapsOf(d));
    if d.explanation.Some? {
      BlankIffAllSpace(d.explanation.value);
    }
  }

  // ---------------------------------------------------------------------------
  // Validation

  /** Why a question or the metadata is rejected, one value per message the editor shows. */
  datatype EditorError =
    | TextMissing
    | NotEnoughOptions
    | NoCorrectAnswer
    | OptionTextMissing
    | GapRejected(gapError: GapError)
    | UnknownType
    | NoQuizName

  /** `options.some(opt => opt.is_correct)`. */
  function SomeCorrect(opts: seq<GapOption>): (r: bool)
    ensures r <==> exists k :: 0 <= k < |opts| && opts[k].isCorrect
  {
    CountCorrect(opts) > 0
  }

  /** `validateBasicQuestion`: blank text, then fewer than two options, then no correct option, then a blank option. */
  function ValidateBasicQuestion(d: Draft): Validation<EditorError> {
    if IsBlank(d.text) then Invalid(TextMissing)
    else if |d.options| < 2 then Invalid(NotEnoughOptions)
    else if !SomeCorrect(d.options) then Invalid(NoCorrectAnswer)
    else if SomeBlank(d.options) then Invalid(OptionTextMissing)
    else Valid
  }

  /** A basic question is acceptable: filled-in text, two or more options, one correct, none blank. */
  predicate BasicOk(d: Draft) {
    && !IsBlank(d.text)
    && |d.options| >= 2
    && (exists k :: 0 <= k < |d.options| && d.options[k].isCorrect)
    && (forall k :: 0 <= k < |d.options| ==> !IsBlank(d.options[k].text))
  }

  /** The basic checks run in order, and the question passes exactly when it is acceptable. */
  lemma BasicValidationOrder(d: Draft)
    ensures ValidateBasicQuestion(d).Valid? <==> BasicOk(d)
    ensures ValidateBasicQuestion(d) == Invalid(TextMissing) <==> IsBlank(d.text)
    ensures ValidateBasicQuestion(d) == Invalid(NotEnoughOptions) <==> !IsBlank(d.text) && |d.options| < 2
    ensures ValidateBasicQuestion(d) == Invalid(NoCorrectAnswer) <==>
              !IsBlank(d.text) && |d.options| >= 2 && forall k :: 0 <= k < |d.options| ==> !d.options[k].isCorrect
    ensures ValidateBasicQuestion(d) == Invalid(OptionTextMissing) <==>
              && !IsBlank(d.text) && |d.options| >= 2
              && (exists k :: 0 <= k < |d.options| && d.options[k].isCorrect)
              && (exists k :: 0 <= k < |d.options| && IsBlank(d.options[k].text))
  {
  }

  /** The result of `validateGapQuestion` in the editor's terms. */
  function FromGapValidation(v: Validation<GapError>): Validation<EditorError> {
    match v
    case Valid => Valid
    case Invalid(e) => Invalid(GapRejected(e))
  }

  /** `validateFillGapQuestion`: blank text first, otherwise whatever `validateGapQuestion` says. */
  function ValidateFillGapQuestion(d: Draft): Validation<EditorError> {
    if IsBlank(d.text) then Invalid(TextMissing)
    else FromGapValidation(ValidateGapQuestion(d.text, GapsOf(d)))
  }

  /**
   * A gap question passes exactly when its text is filled in, its gap count is
   * positive and equals the number of gap entries, and every entry is acceptable;
   * a rejection for a particular gap names the first unacceptable one.
   */
  lemma FillGapValidation(d: Draft)
    ensures ValidateFillGapQuestion(d).Valid? <==>
              && !IsBlank(d.text) && CountGaps(d.text) > 0 && |GapsOf(d)| == CountGaps(d.text)
              && forall g :: 0 <= g < |GapsOf(d)| ==> GapOk(GapsOf(d)[g])
    ensures ValidateFillGapQuestion(d) == Invalid(TextMissing) <==> IsBlank(d.text)
    ensures ValidateFillGapQuestion(d).Invalid? && ValidateFillGapQuestion(d).error.GapRejected? && PerGap(ValidateFillGapQuestion(d).error.gapError) ==>
              FirstProblemFrom(GapsOf(d), 0, ValidateFillGapQuestion(d).error.gapError)
  {
  }

  /** `validateQuestion`: dispatch on the type; any other type is rejected. */
  function ValidateQuestion(d: Draft, kind: QuestionKind): (r: Validation<EditorError>)
    ensures kind == UnknownKind <==> r == Invalid(UnknownType)
    ensures r.Valid? ==> !IsBlank(d.text)
  {
    match kind
    case BasicKind => ValidateBasicQuestion(d)
    case FillGapKind => ValidateFillGapQuestion(d)
    case UnknownKind => Invalid(UnknownType)
  }

  /** `validateMetadata`: the quiz name must not be blank. */
  function ValidateMetadata(name: string): (r: Validation<EditorError>)
    ensures r.Valid? <==> exists k :: 0 <= k < |name| && !IsSpace(name[k])
    ensures r.Invalid? ==> r.error == NoQuizName
  {
    BlankIffAllSpace(name);
    if IsBlank(name) then Invalid(NoQuizName) else Valid
  }

  // ---------------------------------------------------------------------------
  // syncGapOptionsWithText

  /** The entry added for a new gap: no explanation and two blank, incorrect candidates. */
  const NewGap: Gap := Gap([GapOption("", false, ""), GapOption("", false, "")], "")

  /**
   * `syncGapOptionsWithText`: one entry per gap of the text; entries already
   * there keep their place and content, missing ones are added blank, surplus
   * ones are dropped from the end.
   */
  method SyncGapOptionsWithText(text: string, current: Option<seq<Gap>>) returns (r: seq<Gap>)
    ensures |r| == CountGaps(text)
    ensures forall k :: 0 <= k < |r| && k < |current.GetOr([])| ==> r[k] == current.GetOr([])[k]
    ensures forall k :: |current.GetOr([])| <= k < |r| ==> r[k] == NewGap
  {
    var gapCount := CountGaps(text);
    r := current.GetOr([]);
    if gapCount > |r| {
      var i := |r|;
      while i < gapCount
        invariant |current.GetOr([])| <= i <= gapCount
        invariant |r| == i
        invariant forall k :: 0 <= k < |current.GetOr([])| ==> r[k] == current.GetOr([])[k]
        invariant forall k :: |current.GetOr([])| <= k < i ==> r[k] == NewGap
      {
        r := r + [NewGap];
        i := i + 1;
      }
    } else if gapCount < |r| {
      r := r[..gapCount];
    }
  }

  /** Synchronising twice with the same text changes nothing the second time. */
  method SyncIdempotent(text: string, current: Option<seq<Gap>>) returns (once: seq<Gap>, twice: seq<Gap>)
    ensures twice == once
    ensures |once| == CountGaps(text)
  {
    once := SyncGapOptionsWithText(text, current);
    twice := SyncGapOptionsWithText(text, Some(once));
  }
}
