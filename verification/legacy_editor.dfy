/**
 * The older quiz-creation page: quiz name and author first, then basic
 * questions only, each checked before it is appended and numbered by its
 * position; removing a question renumbers the rest; a duplicate-free tag list;
 * the final submit needs at least one question.
 */
module LegacyEditor {
  import opened Wrappers
  import opened JsText
  import opened Rows
  import QuizEditor

  /** An option in the editor: its text and whether it is correct. */
  datatype DraftOption = DraftOption(text: string, isCorrect: bool)

  /** An option of a saved question, numbered by its position. */
  datatype IndexedOption = IndexedOption(text: string, isCorrect: bool, index: nat)

  datatype LegacyQuestion = LegacyQuestion(id: string, order: nat, text: string, options: seq<IndexedOption>)

  /** The page's state: the quiz metadata, the saved questions, the question being written, the tag input. */
  datatype Form = Form(
    name: string,
    author: string,
    tags: seq<string>,
    questions: seq<LegacyQuestion>,
    text: string,
    options: seq<DraftOption>,
    tagInput: string)

  const BlankDraftOption: DraftOption := DraftOption("", false)

  /** The reasons a question or the metadata is refused, one per message. */
  datatype FormError = TextNotFilled | TooFewOptions | NoCorrectChosen | OptionNotFilled | NoQuizName | NoAuthorName | NoQuestions

  /** `options.some(o => o.isCorrect)`. */
  function SomeCorrect(opts: seq<DraftOption>): (r: bool)
    ensures r <==> exists k :: 0 <= k < |opts| && opts[k].isCorrect
  {
    Any(opts, (o: DraftOption) => o.isCorrect)
  }

  /** `options.some(o => !o.text.trim())`. */
  function SomeBlank(opts: seq<DraftOption>): (r: bool)
    ensures r <==> exists k :: 0 <= k < |opts| && IsBlank(opts[k].text)
  {
    Any(opts, (o: DraftOption) => IsBlank(o.text))
  }

  /** The checks of `addQuestion`, in its order; `None` when all pass. */
  function QuestionProblem(f: Form): Option<FormError> {
    if IsBlank(f.text) then Some(TextNotFilled)
    else if |f.options| < 2 then Some(TooFewOptions)
    else if !SomeCorrect(f.options) then Some(NoCorrectChosen)
    else if SomeBlank(f.options) then Some(OptionNotFilled)
    else None
  }

  /** `canAddQuestion`: filled-in text, two or more options, all filled in, one correct. */
  predicate CanAddQuestion(f: Form) {
    && !IsBlank(f.text)
    && |f.options| >= 2
    && (forall k :: 0 <= k < |f.options| ==> !IsBlank(f.options[k].text))
    && (exists k :: 0 <= k < |f.options| && f.options[k].isCorrect)
  }

  /**
   * The checks run in order (blank text, fewer than two options, no correct
   * option, a blank option) and all pass exactly when the add button is enabled.
   */
  lemma QuestionChecksInOrder(f: Form)
    ensures QuestionProblem(f).None? <==> CanAddQuestion(f)
    ensures QuestionProblem(f) == Some(TextNotFilled) <==> IsBlank(f.text)
    ensures QuestionProblem(f) == Some(TooFewOptions) <==> !IsBlank(f.text) && |f.options| < 2
    ensures QuestionProblem(f) == Some(NoCorrectChosen) <==>
              !IsBlank(f.text) && |f.options| >= 2 && forall k :: 0 <= k < |f.options| ==> !f.options[k].isCorrect
    ensures QuestionProblem(f) == Some(OptionNotFilled) <==>
              && !IsBlank(f.text) && |f.options| >= 2
              && (exists k :: 0 <= k < |f.options| && f.options[k].isCorrect)
              && (exists k :: 0 <= k < |f.options| && IsBlank(f.options[k].text))
  {
  }

  function Indexed(opts: seq<DraftOption>): (r: seq<IndexedOption>)
    ensures |r| == |opts|
    ensures forall k :: 0 <= k < |opts| ==> r[k] == IndexedOption(opts[k].text, opts[k].isCorrect, k)
  {
    seq(|opts|, k requires 0 <= k < |opts| => IndexedOption(opts[k].text, opts[k].isCorrect, k))
  }

  datatype Adding = Refused(error: FormError) | Added(form: Form)

  /**
   * `addQuestion`: a question that passes the checks is appended as the last one,
   * numbered by its position, its options numbered by theirs; the editor is reset
   * to two blank, incorrect options.  A refused question changes nothing.
   */
  function AddQuestion(f: Form): (r: Adding)
    ensures r.Refused? <==> !CanAddQuestion(f)
    ensures r.Refused? ==> Some(r.error) == QuestionProblem(f)
    ensures r.Added? ==>
              && r.form.questions == f.questions + [LegacyQuestion(QuizEditor.QuestionName(|f.questions|), |f.questions|, f.text, Indexed(f.options))]
              && r.form.text == [] && r.form.options == [BlankDraftOption, BlankDraftOption]
              && r.form.name == f.name && r.form.author == f.author && r.form.tags == f.tags
  {
    assert QuestionProblem(f).None? <==> CanAddQuestion(f) by {
      QuestionChecksInOrder(f);
    }
    match QuestionProblem(f)
    case Some(e) => Refused(e)
    case None =>
      var n := |f.questions|;
      var qs := f.questions + [LegacyQuestion(QuizEditor.QuestionName(n), n, f.text, Indexed(f.options))];
      Added(f.(questions := qs, text := [], options := [BlankDraftOption, BlankDraftOption]))
  }

  /** Every question's order is its position and its id is the positional name. */
  predicate Positional(qs: seq<LegacyQuestion>) {
    forall k :: 0 <= k < |qs| ==> qs[k].order == k && qs[k].id == QuizEditor.QuestionName(k)
  }

  /** `removeQuestion`: position `j` goes and the rest are renumbered by position. */
  function RemoveQuestion(f: Form, j: nat): (r: Form)
    ensures r == f.(questions := r.questions)
    ensures |r.questions| == (if j < |f.questions| then |f.questions| - 1 else |f.questions|)
    ensures forall k :: 0 <= k < |r.questions| ==>
              r.questions[k] == (if k < j then f.questions[k] else f.questions[k + 1]).(order := k, id := QuizEditor.QuestionName(k))
  {
    var rest := QuizEditor.DropAt(f.questions, j);
    f.(questions := seq(|rest|, k requires 0 <= k < |rest| => rest[k].(order := k, id := QuizEditor.QuestionName(k))))
  }

  /** Adding and removing questions keep them numbered by position, and so their ids distinct. */
  lemma EditsKeepPositional(f: Form, j: nat)
    requires Positional(f.questions)
    ensures AddQuestion(f).Added? ==> Positional(AddQuestion(f).form.questions)
    ensures Positional(RemoveQuestion(f, j).questions)
    ensures forall a, b :: 0 <= a < b < |f.questions| ==> f.questions[a].id != f.questions[b].id
  {
    forall a, b | 0 <= a < b < |f.questions| ensures f.questions[a].id != f.questions[b].id {
      QuizEditor.QuestionNameInjective(a, b);
    }
  }

  /** `addTag`: the trimmed input is appended (and the input cleared) when non-empty and not yet a tag. */
  function AddTag(f: Form): (r: Form)
    ensures var t := Trim(f.tagInput);
            && (t != [] && t !in f.tags ==> r == f.(tags := f.tags + [t], tagInput := []))
            && (t == [] || t in f.tags ==> r == f)
  {
    var t := Trim(f.tagInput);
    if t != [] && t !in f.tags then f.(tags := f.tags + [t], tagInput := []) else f
  }

  /** Adding a tag keeps the tag list free of duplicates. */
  lemma AddTagKeepsDistinct(f: Form)
    requires forall a, b :: 0 <= a < b < |f.tags| ==> f.tags[a] != f.tags[b]
    ensures var r := AddTag(f).tags;
            forall a, b :: 0 <= a < b < |r| ==> r[a] != r[b]
  {
    var r := AddTag(f).tags;
    forall a, b | 0 <= a < b < |r| ensures r[a] != r[b] {
      if b == |f.tags| {
        assert r[a] == f.tags[a];
      }
    }
  }

  /** Which screen a submit leads to, or the message shown instead. */
  datatype Step = Stay(error: FormError) | QuestionsScreen | CreateQuiz

  /** `handleMetadataSubmit`: a blank name is reported first, then a blank author. */
  function MetadataSubmit(f: Form): (r: Step)
    ensures r == QuestionsScreen <==> !AllSpace(f.name) && !AllSpace(f.author)
    ensures r == Stay(NoQuizName) <==> AllSpace(f.name)
    ensures r == Stay(NoAuthorName) <==> !AllSpace(f.name) && AllSpace(f.author)
  {
    BlankIffAllSpace(f.name);
    BlankIffAllSpace(f.author);
    if IsBlank(f.name) then Stay(NoQuizName)
    else if IsBlank(f.author) then Stay(NoAuthorName)
    else QuestionsScreen
  }

  /** `handleSubmit`: the quiz is sent only when it has a question. */
  function Submit(f: Form): (r: Step)
    ensures r == CreateQuiz <==> |f.questions| > 0
    ensures r != CreateQuiz ==> r == Stay(NoQuestions)
  {
    if |f.questions| == 0 then Stay(NoQuestions) else CreateQuiz
  }

  /** After a question has been added the quiz can be submitted. */
  lemma SubmitAfterAdd(f: Form)
    requires CanAddQuestion(f)
    ensures AddQuestion(f).Added? && Submit(AddQuestion(f).form) == CreateQuiz
  {
  }
}
