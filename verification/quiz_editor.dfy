/**
 * The quiz editor's list of questions and tags: saving the question being
 * edited (appended, or put back into the slot it was loaded from), removing a
 * question and renumbering the rest, reopening a saved question for editing
 * (as a gap question exactly when an option carries a gap marker), the tag
 * list, the editing of one gap candidate, and the guard before the preview.
 */
module QuizEditor {
  import opened Wrappers
  import opened JsText
  import opened GapEncoding
  import opened GapQuestions
  import opened QuestionValidation
  import StoredJson

  /**
   * The `explanation` of a saved question: a basic question keeps the editor's
   * text (`None` when absent); a gap question keeps what the encoder produced.
   */
  datatype Note = TextNote(text: Option<string>) | EncodedNote(explanations: Explanations)

  /** A question of the quiz being built; its options carry their `index` field. */
  datatype SavedQuestion = SavedQuestion(id: string, order: nat, text: string, imageUrl: string, note: Note, options: seq<FlatOption>)

  /**
   * The editor: the saved questions, the slot being edited (`editingQuestionIndex`),
   * the question in the editor with its chosen type, the tags and the tag input.
   */
  datatype Editor = Editor(
    questions: seq<SavedQuestion>,
    editing: Option<nat>,
    draft: Draft,
    kind: QuestionKind,
    tags: seq<string>,
    tagInput: string)

  const BlankOption: GapOption := GapOption("", false, "")

  /** The editor after a reset: no text, no image, no explanation, two blank incorrect options, no gaps. */
  const EmptyDraft: Draft := Draft("", [BlankOption, BlankOption], Some([]), "", Some(""))

  /** The id of the question at position `k`: "q" followed by `k + 1` in decimal. */
  function QuestionName(k: nat): string {
    "q" + Decimal(k + 1)
  }

  lemma QuestionNameInjective(i: nat, j: nat)
    ensures QuestionName(i) == QuestionName(j) ==> i == j
  {
    if QuestionName(i) == QuestionName(j) {
      assert Decimal(i + 1) == QuestionName(i)[1..];
      assert Decimal(j + 1) == QuestionName(j)[1..];
      StoredJson.DecimalInjective(i + 1, j + 1);
    }
  }

  /** Every question's `order` is its position and its id is the positional name. */
  predicate Positional(qs: seq<SavedQuestion>) {
    forall k :: 0 <= k < |qs| ==> qs[k].order == k && qs[k].id == QuestionName(k)
  }

  /** In a positionally numbered list no two questions share an id. */
  lemma PositionalIdsDistinct(qs: seq<SavedQuestion>)
    requires Positional(qs)
    ensures forall i, j :: 0 <= i < j < |qs| ==> qs[i].id != qs[j].id
  {
    forall i, j | 0 <= i < j < |qs| ensures qs[i].id != qs[j].id {
      QuestionNameInjective(i, j);
    }
  }

  // ---------------------------------------------------------------------------
  // Saving the question in the editor

  /** `options.map((opt, idx) => ({ ...opt, index: idx }))`. */
  function IndexedOptions(opts: seq<GapOption>): (r: seq<FlatOption>)
    ensures |r| == |opts|
    ensures forall k :: 0 <= k < |opts| ==> r[k] == FlatOption(Some(opts[k].text), opts[k].isCorrect, opts[k].imageUrl, k)
  {
    seq(|opts|, k requires 0 <= k < |opts| => FlatOption(Some(opts[k].text), opts[k].isCorrect, opts[k].imageUrl, k))
  }

  /** The question the editor saves under the given id and order. */
  function Compose(e: Editor, id: string, order: nat): SavedQuestion {
    var d := e.draft;
    if e.kind == FillGapKind then
      SavedQuestion(id, order, d.text, d.imageUrl, EncodedNote(EncodeExplanations(GapsOf(d))), EncodeOptions(GapsOf(d)))
    else
      SavedQuestion(id, order, d.text, d.imageUrl, TextNote(d.explanation), IndexedOptions(d.options))
  }

  /** Puts `q` into the edited slot or appends it, then clears the editor and selects the basic type. */
  function Place(e: Editor, q: SavedQuestion): Editor
    requires e.editing.Some? ==> e.editing.value < |e.questions|
  {
    var qs := if e.editing.Some? then e.questions[e.editing.value := q] else e.questions + [q];
    Editor(qs, None, EmptyDraft, BasicKind, e.tags, e.tagInput)
  }

  /**
   * The outcome of saving: refused with the validation message (nothing changes),
   * a slot to replace that no longer exists (reading the missing question's id
   * throws, or writing past the end would leave holes in the list), or the new
   * editor state.
   */
  datatype Saving = Refused(error: EditorError) | SlotMissing | Saved(editor: Editor)

  /**
   * `addQuestion` as written: a basic question always gets the id and order of a
   * new last question, even when it replaces the edited slot; only a gap question
   * keeps the edited slot's id and position.  Writing to the slot just past the
   * end appends; a gap question cannot be saved there, since the id it copies
   * belongs to no question.
   */
  function AddQuestionAsWritten(e: Editor): (r: Saving)
    ensures r.Refused? <==> ValidateQuestion(e.draft, e.kind).Invalid?
    ensures r.SlotMissing? <==>
              && ValidateQuestion(e.draft, e.kind).Valid? && e.editing.Some?
              && (e.editing.value > |e.questions| || (e.editing.value == |e.questions| && e.kind == FillGapKind))
    ensures r.Saved? ==> r.editor.editing.None? && r.editor.draft == EmptyDraft && r.editor.kind == BasicKind
    ensures r.Saved? && e.editing.Some? && e.editing.value < |e.questions| ==> |r.editor.questions| == |e.questions|
    ensures r.Saved? && (e.editing.None? || e.editing == Some(|e.questions|)) ==>
              && |r.editor.questions| == |e.questions| + 1
              && r.editor.questions[..|e.questions|] == e.questions
              && r.editor.questions[|e.questions|].id == QuestionName(|e.questions|)
  {
    var v := ValidateQuestion(e.draft, e.kind);
    var n := |e.questions|;
    if v.Invalid? then Refused(v.error)
    else if e.editing.Some? && (e.editing.value > n || (e.editing.value == n && e.kind == FillGapKind)) then SlotMissing
    else if e.kind == FillGapKind && e.editing.Some? then
      var i := e.editing.value;
      Saved(Place(e, Compose(e, e.questions[i].id, i)))
    else if e.editing == Some(n) then Saved(Place(e.(editing := None), Compose(e, QuestionName(n), n)))
    else Saved(Place(e, Compose(e, QuestionName(n), n)))
  }

  /**
   * `addQuestion` with the evident intent: a question put back into the slot it
   * was loaded from keeps that slot's id and position, whatever its type; a new
   * question becomes the last one, numbered by its position.  A rejected question
   * changes nothing (the message is shown instead).
   */
  function AddQuestion(e: Editor): (r: Saving)
    ensures r.Refused? <==> ValidateQuestion(e.draft, e.kind).Invalid?
    ensures r.Refused? ==> r.error == ValidateQuestion(e.draft, e.kind).error
    ensures r.SlotMissing? <==> ValidateQuestion(e.draft, e.kind).Valid? && e.editing.Some? && e.editing.value >= |e.questions|
    ensures r.Saved? ==>
              && r.editor.editing.None? && r.editor.draft == EmptyDraft && r.editor.kind == BasicKind
              && r.editor.tags == e.tags && r.editor.tagInput == e.tagInput
    ensures r.Saved? && e.editing.None? ==>
              && |r.editor.questions| == |e.questions| + 1
              && r.editor.questions[..|e.questions|] == e.questions
              && r.editor.questions[|e.questions|].id == QuestionName(|e.questions|)
              && r.editor.questions[|e.questions|].order == |e.questions|
    ensures r.Saved? && e.editing.Some? ==>
              && |r.editor.questions| == |e.questions|
              && (forall k :: 0 <= k < |e.questions| && k != e.editing.value ==> r.editor.questions[k] == e.questions[k])
              && r.editor.questions[e.editing.value].id == e.questions[e.editing.value].id
              && r.editor.questions[e.editing.value].order == e.editing.value
  {
    var v := ValidateQuestion(e.draft, e.kind);
    if v.Invalid? then Refused(v.error)
    else if e.editing.Some? && e.editing.value >= |e.questions| then SlotMissing
    else if e.editing.Some? then
      var i := e.editing.value;
      Saved(Place(e, Compose(e, e.questions[i].id, i)))
    else
      var n := |e.questions|;
      assert (e.questions + [Compose(e, QuestionName(n), n)])[..n] == e.questions;
      Saved(Place(e, Compose(e, QuestionName(n), n)))
  }

  /** Saving keeps the questions numbered by position. */
  lemma AddKeepsPositional(e: Editor)
    requires Positional(e.questions)
    ensures AddQuestion(e).Saved? ==> Positional(AddQuestion(e).editor.questions)
  {
    var r := AddQuestion(e);
    if r.Saved? {
      var qs := r.editor.questions;
      forall k | 0 <= k < |qs| ensures qs[k].order == k && qs[k].id == QuestionName(k) {
        if k < |e.questions| && (e.editing.None? || k != e.editing.value) {
          if e.editing.None? {
            assert qs[k] == qs[..|e.questions|][k];
          }
        }
      }
    }
  }

  /**
   * What is saved is the editor's content: a basic question's options numbered by
   * position, a gap question's encoding and its explanations.
   */
  lemma SavedContent(e: Editor)
    requires AddQuestion(e).Saved?
    ensures var slot := if e.editing.Some? then e.editing.value else |e.questions|;
            var q := AddQuestion(e).editor.questions[slot];
            && q.text == e.draft.text && q.imageUrl == e.draft.imageUrl
            && (e.kind == BasicKind ==> q.options == IndexedOptions(e.draft.options) && q.note == TextNote(e.draft.explanation))
            && (e.kind == FillGapKind ==>
                  q.options == EncodeOptions(GapsOf(e.draft)) && q.note == EncodedNote(EncodeExplanations(GapsOf(e.draft))))
  {
  }

  /**
   * As written, putting a basic question back into slot `i` gives it the order
   * and id of a new last question; the list is no longer numbered by position.
   */
  lemma AsWrittenBasicEditMisnumbers(e: Editor, i: nat)
    requires e.editing == Some(i) && i < |e.questions|
    requires e.kind == BasicKind && ValidateQuestion(e.draft, e.kind).Valid?
    ensures AddQuestionAsWritten(e).Saved?
    ensures AddQuestionAsWritten(e).editor.questions[i].order == |e.questions|
    ensures AddQuestionAsWritten(e).editor.questions[i].id == QuestionName(|e.questions|)
    ensures !Positional(AddQuestionAsWritten(e).editor.questions)
  {
  }

  /**
   * As written, after a basic question has been put back into its slot, the next
   * new question receives the same id: two questions of the list share it.
   */
  lemma AsWrittenBasicEditDuplicatesId(e: Editor, i: nat, next: Draft, nextKind: QuestionKind)
    requires e.editing == Some(i) && i < |e.questions|
    requires e.kind == BasicKind && ValidateQuestion(e.draft, e.kind).Valid?
    requires ValidateQuestion(next, nextKind).Valid?
    ensures var e1 := AddQuestionAsWritten(e).editor.(draft := next, kind := nextKind);
            var r := AddQuestionAsWritten(e1);
            && r.Saved? && |r.editor.questions| == |e.questions| + 1
            && r.editor.questions[i].id == r.editor.questions[|e.questions|].id
  {
    AsWrittenBasicEditMisnumbers(e, i);
    var e1 := AddQuestionAsWritten(e).editor.(draft := next, kind := nextKind);
    var r := AddQuestionAsWritten(e1);
    assert r.Saved? && r.editor.questions[..|e.questions|] == e1.questions;
    assert r.editor.questions[i] == e1.questions[i];
  }

  // ---------------------------------------------------------------------------
  // Removing a question

  /** `s.filter((_, i) => i !== j)`: `s` without position `j` (unchanged when there is none). */
  function DropAt<T>(s: seq<T>, j: nat): (r: seq<T>)
    ensures j < |s| ==> |r| == |s| - 1
    ensures j >= |s| ==> r == s
    ensures forall k :: 0 <= k < |r| ==> r[k] == (if k < j then s[k] else s[k + 1])
  {
    if j < |s| then s[..j] + s[j + 1..] else s
  }

  /** `.map((q, i) => ({ ...q, order: i, id: `q${i + 1}` }))`. */
  function Renumber(qs: seq<SavedQuestion>): (r: seq<SavedQuestion>)
    ensures |r| == |qs| && Positional(r)
    ensures forall k :: 0 <= k < |qs| ==> r[k] == qs[k].(order := k, id := QuestionName(k))
  {
    seq(|qs|, k requires 0 <= k < |qs| => qs[k].(order := k, id := QuestionName(k)))
  }

  /**
   * `removeQuestion` as written: drops position `j` and renumbers the rest; the
   * editor is cleared when `j` is the slot being edited, and otherwise the edited
   * slot number is kept as it was.
   */
  function RemoveQuestionAsWritten(e: Editor, j: nat): (r: Editor)
    ensures r.questions == Renumber(DropAt(e.questions, j))
    ensures e.editing == Some(j) ==> r.editing.None? && r.draft == EmptyDraft
    ensures e.editing != Some(j) ==> r.editing == e.editing && r.draft == e.draft
  {
    var qs := Renumber(DropAt(e.questions, j));
    if e.editing == Some(j) then e.(questions := qs, editing := None, draft := EmptyDraft)
    else e.(questions := qs)
  }

  /**
   * `removeQuestion` with the evident intent: as written, except that an edited
   * slot after the removed one moves down with its question.
   */
  function RemoveQuestion(e: Editor, j: nat): (r: Editor)
    ensures Positional(r.questions)
    ensures |r.questions| == (if j < |e.questions| then |e.questions| - 1 else |e.questions|)
    ensures forall k :: 0 <= k < |r.questions| ==>
              r.questions[k] == (if k < j then e.questions[k] else e.questions[k + 1]).(order := k, id := QuestionName(k))
    ensures r.editing.None? <==> e.editing.None? || e.editing == Some(j)
    ensures e.editing == Some(j) ==> r.draft == EmptyDraft
    ensures e.editing != Some(j) ==> r.draft == e.draft
    ensures r.kind == e.kind && r.tags == e.tags && r.tagInput == e.tagInput
  {
    var qs := Renumber(DropAt(e.questions, j));
    if e.editing == Some(j) then e.(questions := qs, editing := None, draft := EmptyDraft)
    else if e.editing.Some? && j < e.editing.value && j < |e.questions| then e.(questions := qs, editing := Some(e.editing.value - 1))
    else e.(questions := qs)
  }

  /** The edited slot refers to an existing question. */
  predicate EditingInRange(e: Editor) {
    e.editing.Some? ==> e.editing.value < |e.questions|
  }

  /**
   * Removing another question keeps the editor pointing at the question being
   * edited, renumbered to its new position.
   */
  lemma RemoveKeepsEditedQuestion(e: Editor, j: nat)
    requires EditingInRange(e)
    ensures EditingInRange(RemoveQuestion(e, j))
    ensures e.editing.Some? && e.editing != Some(j) ==>
              var i := e.editing.value;
              var r := RemoveQuestion(e, j);
              && r.editing.Some?
              && r.questions[r.editing.value] == e.questions[i].(order := r.editing.value, id := QuestionName(r.editing.value))
  {
  }

  /**
   * As written, removing a question before the edited slot leaves the slot
   * number unchanged: it now refers to the question that followed the edited
   * one, or to no question when the edited one was last.
   */
  lemma AsWrittenRemoveShiftsEditedSlot(e: Editor, i: nat, j: nat)
    requires e.editing == Some(i) && j < i < |e.questions|
    ensures var r := RemoveQuestionAsWritten(e, j);
            && r.editing == Some(i)
            && (i + 1 < |e.questions| ==> r.questions[i] == e.questions[i + 1].(order := i, id := QuestionName(i)))
            && (i + 1 == |e.questions| ==> !EditingInRange(r))
  {
  }

  /**
   * As written, once the last question's slot has been shifted past the end, an
   * acceptable gap question cannot be saved: the slot names no question.
   */
  lemma AsWrittenRemoveThenSaveGapFails(e: Editor, j: nat)
    requires e.editing == Some(|e.questions| - 1) && j < |e.questions| - 1
    requires e.kind == FillGapKind && ValidateQuestion(e.draft, e.kind).Valid?
    ensures AddQuestionAsWritten(RemoveQuestionAsWritten(e, j)).SlotMissing?
  {
    var r := RemoveQuestionAsWritten(e, j);
    assert r.draft == e.draft && r.kind == e.kind;
  }

  /**
   * As written, once the last question's slot has been shifted past the end,
   * saving an acceptable basic question appends it instead of replacing the
   * question it was loaded from, which stays in the list: the list grows back
   * to its length before the removal and its second-to-last question is still
   * the old one.
   */
  lemma AsWrittenRemoveThenSaveBasicKeepsOld(e: Editor, j: nat)
    requires e.editing == Some(|e.questions| - 1) && j < |e.questions| - 1
    requires e.kind == BasicKind && ValidateQuestion(e.draft, e.kind).Valid?
    ensures var s := AddQuestionAsWritten(RemoveQuestionAsWritten(e, j));
            var n := |e.questions|;
            && s.Saved?
            && |s.editor.questions| == n
            && s.editor.questions[n - 2] == e.questions[n - 1].(order := n - 2, id := QuestionName(n - 2))
  {
    RemoveBeforeLastEdited(e, j);
    SaveAtEndAppends(RemoveQuestionAsWritten(e, j));
  }

  /** As written, removing a question before the edited last one leaves the slot just past the new end. */
  lemma RemoveBeforeLastEdited(e: Editor, j: nat)
    requires e.editing == Some(|e.questions| - 1) && j < |e.questions| - 1
    ensures var r := RemoveQuestionAsWritten(e, j);
            && r.draft == e.draft && r.kind == e.kind
            && |r.questions| == |e.questions| - 1 && r.editing == Some(|r.questions|)
            && r.questions[|e.questions| - 2] == e.questions[|e.questions| - 1].(order := |e.questions| - 2, id := QuestionName(|e.questions| - 2))
  {
  }

  /** As written, saving a basic question into the slot just past the end appends it. */
  lemma SaveAtEndAppends(r: Editor)
    requires r.editing == Some(|r.questions|) && r.kind == BasicKind && ValidateQuestion(r.draft, r.kind).Valid?
    ensures AddQuestionAsWritten(r).Saved?
    ensures |AddQuestionAsWritten(r).editor.questions| == |r.questions| + 1
    ensures forall k :: 0 <= k < |r.questions| ==> AddQuestionAsWritten(r).editor.questions[k] == r.questions[k]
  {
    var qs := AddQuestionAsWritten(r).editor.questions;
    assert qs[..|r.questions|] == r.questions;
    forall k | 0 <= k < |r.questions| ensures qs[k] == r.questions[k] {
      assert qs[k] == qs[..|r.questions|][k];
    }
  }

  // ---------------------------------------------------------------------------
  // Tags

  /** `addTag`: the trimmed input is appended (and the input cleared) when it is non-empty and not yet a tag. */
  function AddTag(e: Editor): (r: Editor)
    ensures r.questions == e.questions && r.editing == e.editing && r.draft == e.draft
    ensures var t := Trim(e.tagInput);
            && (t != [] && t !in e.tags ==> r.tags == e.tags + [t] && r.tagInput == [])
            && (t == [] || t in e.tags ==> r == e)
  {
    var t := Trim(e.tagInput);
    if t != [] && t !in e.tags then e.(tags := e.tags + [t], tagInput := []) else e
  }

  predicate TagsDistinct(tags: seq<string>) {
    forall i, j :: 0 <= i < j < |tags| ==> tags[i] != tags[j]
  }

  /** Adding a tag keeps the tag list free of duplicates. */
  lemma AddTagKeepsDistinct(e: Editor)
    requires TagsDistinct(e.tags)
    ensures TagsDistinct(AddTag(e).tags)
  {
    var r := AddTag(e).tags;
    forall a, b | 0 <= a < b < |r| ensures r[a] != r[b] {
      if b == |e.tags| {
        assert r[a] == e.tags[a];
      }
    }
  }

  /** Removing a tag keeps the tag list free of duplicates. */
  lemma RemoveTagKeepsDistinct(e: Editor, j: nat)
    requires TagsDistinct(e.tags)
    ensures TagsDistinct(RemoveTag(e, j).tags)
  {
    var s := RemoveTag(e, j).tags;
    forall a, b | 0 <= a < b < |s| ensures s[a] != s[b] {
      var a' := if a < j then a else a + 1;
      var b' := if b < j then b else b + 1;
      assert s[a] == e.tags[a'] && s[b] == e.tags[b'];
    }
  }

  /** `removeTag`: exactly the tag at position `j` goes. */
  function RemoveTag(e: Editor, j: nat): (r: Editor)
    ensures r == e.(tags := DropAt(e.tags, j))
  {
    e.(tags := DropAt(e.tags, j))
  }

  // ---------------------------------------------------------------------------
  // Editing one candidate of a gap

  /** The field being changed and its new value. */
  datatype OptionField = TextField(text: string) | CorrectField(isCorrect: bool) | ImageField(url: string)

  /** The candidate with one field changed; a new text has every `_` replaced by `-`. */
  function ChangeField(o: GapOption, f: OptionField): GapOption {
    match f
    case TextField(t) => o.(text := ReplaceAll(t, '_', '-'))
    case CorrectField(b) => o.(isCorrect := b)
    case ImageField(u) => o.(imageUrl := u)
  }

  /**
   * `handleGapOptionChange`: candidate `k` of gap `g` gets the new field value.  A
   * missing gap or candidate right after the last one is created blank; `None`
   * stands for a position further out, where a JavaScript array assignment would leave holes.
   */
  function ChangeGapOption(gaps: seq<Gap>, g: nat, k: nat, f: OptionField): (r: Option<seq<Gap>>)
    ensures r.Some? <==> (g < |gaps| && k <= |gaps[g].options|) || (g == |gaps| && k == 0)
    ensures r.Some? ==>
              && |r.value| == (if g < |gaps| then |gaps| else |gaps| + 1)
              && (forall h :: 0 <= h < |gaps| && h != g ==> r.value[h] == gaps[h])
              && |r.value[g].options| == (if g < |gaps| && k < |gaps[g].options| then |gaps[g].options| else k + 1)
              && (forall m :: 0 <= m < |r.value[g].options| && m != k ==> r.value[g].options[m] == gaps[g].options[m])
              && r.value[g].options[k] == ChangeField(if g < |gaps| && k < |gaps[g].options| then gaps[g].options[k] else BlankOption, f)
              && r.value[g].explanation == (if g < |gaps| then gaps[g].explanation else [])
  {
    if g < |gaps| && k <= |gaps[g].options| then
      var opts := gaps[g].options;
      var before := if k < |opts| then opts[k] else BlankOption;
      var opts' := if k < |opts| then opts[k := ChangeField(before, f)] else opts + [ChangeField(before, f)];
      Some(gaps[g := gaps[g].(options := opts')])
    else if g == |gaps| && k == 0 then
      Some(gaps + [Gap([ChangeField(BlankOption, f)], [])])
    else None
  }

  /**
   * A candidate text typed into a gap never holds an underscore (which would
   * read as a gap), and apart from that it is what was typed.
   */
  lemma TypedGapTextHasNoUnderscore(o: GapOption, t: string)
    ensures var n := ChangeField(o, TextField(t)).text;
            && |n| == |t|
            && (forall m :: 0 <= m < |n| ==> n[m] != '_')
            && (forall m :: 0 <= m < |n| && t[m] != '_' ==> n[m] == t[m])
    ensures ChangeField(o, TextField(t)).isCorrect == o.isCorrect && ChangeField(o, TextField(t)).imageUrl == o.imageUrl
  {
  }

  // ---------------------------------------------------------------------------
  // Reopening a saved question

  /**
   * The per-gap explanations a saved question's note decodes to: a gap question's
   * own; for a text, what `parse` (JSON parsing, where a failure or a non-object
   * gives no explanations) makes of it; nothing for an absent or empty text.
   */
  function NoteExplanations(n: Note, parse: string -> Explanations): Explanations {
    match n
    case EncodedNote(x) => x
    case TextNote(t) => if t.None? || t.value == [] then NoExplanations else parse(t.value)
  }

  /** `question.explanation || ''`, where `stringify` is `JSON.stringify` of a non-empty explanation object. */
  function NoteText(n: Note, stringify: map<nat, string> -> string): string {
    match n
    case TextNote(t) => t.GetOr([])
    case EncodedNote(x) => if x.NoExplanations? then [] else stringify(x.byGap)
  }

  /** A stored option as a basic option of the editor (a non-string text reads as ''). */
  function EditableOptions(opts: seq<FlatOption>): (r: seq<GapOption>)
    ensures |r| == |opts|
    ensures forall k :: 0 <= k < |opts| ==> r[k] == GapOption(opts[k].text.GetOr([]), opts[k].isCorrect, opts[k].imageUrl)
  {
    seq(|opts|, k requires 0 <= k < |opts| => GapOption(opts[k].text.GetOr([]), opts[k].isCorrect, opts[k].imageUrl))
  }

  /** `loadQuestionForEditing`: a gap question when some option carries a marker, a basic question otherwise. */
  function LoadForEditing(e: Editor, i: nat, q: SavedQuestion, parse: string -> Explanations, stringify: map<nat, string> -> string): Editor {
    if AnyMarked(q.options) then
      var gaps := DecodeGapOptions(q.options, NoteExplanations(q.note, parse));
      e.(editing := Some(i), kind := FillGapKind, draft := Draft(q.text, [BlankOption, BlankOption], Some(gaps), q.imageUrl, Some([])))
    else
      e.(editing := Some(i), kind := BasicKind,
         draft := Draft(q.text, EditableOptions(q.options), Some([]), q.imageUrl, Some(NoteText(q.note, stringify))))
  }

  /**
   * `editQuestion`: nothing happens for a position without a question, nor when
   * unsaved input in another question would be discarded and the user does not
   * confirm; otherwise the question is loaded into the editor.
   */
  function EditQuestion(e: Editor, i: nat, confirmed: bool, parse: string -> Explanations, stringify: map<nat, string> -> string): (r: Editor)
    ensures i >= |e.questions| ==> r == e
    ensures i < |e.questions| && HasUnsavedQuestion(e.draft, e.kind) && e.editing != Some(i) && !confirmed ==> r == e
    ensures i < |e.questions| && (!HasUnsavedQuestion(e.draft, e.kind) || e.editing == Some(i) || confirmed) ==>
              && r.editing == Some(i) && r.questions == e.questions && r.tags == e.tags
              && r.draft.text == e.questions[i].text
              && (r.kind == FillGapKind <==> exists k :: 0 <= k < |e.questions[i].options| && IsMarked(e.questions[i].options[k]))
              && (r.kind == BasicKind <==> !exists k :: 0 <= k < |e.questions[i].options| && IsMarked(e.questions[i].options[k]))
  {
    if i >= |e.questions| then e
    else if HasUnsavedQuestion(e.draft, e.kind) && e.editing != Some(i) && !confirmed then e
    else LoadForEditing(e, i, e.questions[i], parse, stringify)
  }

  /** An editor with empty text, image and explanation, no gaps and only blank options without images holds nothing unsaved. */
  lemma ClearedDraftHasNothingUnsaved(d: Draft, kind: QuestionKind)
    requires d.text == [] && d.imageUrl == [] && d.explanation == Some([]) && GapsOf(d) == []
    requires forall k :: 0 <= k < |d.options| ==> d.options[k] == BlankOption
    ensures !HasUnsavedQuestion(d, kind)
  {
    NothingUnsavedIff(d, kind);
  }

  /** A cleared editor holds nothing unsaved, whatever type is selected. */
  lemma EmptyDraftHasNothingUnsaved(kind: QuestionKind)
    ensures !HasUnsavedQuestion(EmptyDraft, kind)
  {
    ClearedDraftHasNothingUnsaved(EmptyDraft, kind);
  }

  /**
   * Reopening, in an editor holding nothing unsaved, a stored question whose
   * options and explanations encode `gaps` (all non-empty, without line
   * terminators) gives back a gap question with those gaps, explanations trimmed.
   */
  lemma ReopenEncodedQuestion(e: Editor, i: nat, gaps: seq<Gap>, parse: string -> Explanations, stringify: map<nat, string> -> string)
    requires i < |e.questions| && !HasUnsavedQuestion(e.draft, e.kind)
    requires e.questions[i].options == EncodeOptions(gaps) && e.questions[i].note == EncodedNote(EncodeExplanations(gaps))
    requires |gaps| > 0 && (forall g :: 0 <= g < |gaps| ==> |gaps[g].options| > 0) && CleanTexts(gaps)
    ensures var r := EditQuestion(e, i, false, parse, stringify);
            && r.editing == Some(i) && r.kind == FillGapKind && r.draft.text == e.questions[i].text
            && r.draft.gapOptions == Some(TrimmedExplanations(gaps))
  {
    var q := e.questions[i];
    assert AnyMarked(q.options) by {
      EncodedOptionMarked(gaps, 0, 0);
    }
    var r := EditQuestion(e, i, false, parse, stringify);
    assert r == LoadForEditing(e, i, q, parse, stringify);
    assert r.draft.gapOptions == Some(DecodeGapOptions(EncodeOptions(gaps), EncodeExplanations(gaps)));
    assert DecodeGapOptions(EncodeOptions(gaps), EncodeExplanations(gaps))
             == TrimmedExplanations(gaps) by {
      DecodeEncodeAllNonEmpty(gaps);
    }
  }

  /**
   * A new gap question that passes validation, once saved and reopened, comes
   * back as a gap question with the same text and the same gaps, their
   * explanations trimmed, provided no candidate text holds a line terminator.
   */
  lemma SaveThenReopenGapQuestion(e: Editor, parse: string -> Explanations, stringify: map<nat, string> -> string)
    requires e.editing.None? && e.kind == FillGapKind
    requires ValidateQuestion(e.draft, e.kind).Valid?
    requires CleanTexts(GapsOf(e.draft))
    ensures AddQuestion(e).Saved?
    ensures var gaps := GapsOf(e.draft);
            var r := EditQuestion(AddQuestion(e).editor, |e.questions|, false, parse, stringify);
            && r.editing == Some(|e.questions|) && r.kind == FillGapKind && r.draft.text == e.draft.text
            && r.draft.gapOptions == Some(TrimmedExplanations(gaps))
  {
    var gaps := GapsOf(e.draft);
    var n := |e.questions|;
    assert |gaps| > 0 && forall g :: 0 <= g < |gaps| ==> |gaps[g].options| > 0 by {
      FillGapValidation(e.draft);
      forall g | 0 <= g < |gaps| ensures |gaps[g].options| > 0 {
        assert GapOk(gaps[g]);
      }
    }
    var saved := AddQuestion(e).editor;
    assert saved.questions[n].options == EncodeOptions(gaps) && saved.questions[n].note == EncodedNote(EncodeExplanations(gaps)) by {
      SavedContent(e);
    }
    assert saved.questions[n].text == e.draft.text by {
      SavedContent(e);
    }
    assert !HasUnsavedQuestion(saved.draft, saved.kind) by {
      EmptyDraftHasNothingUnsaved(saved.kind);
    }
    ReopenEncodedQuestion(saved, n, gaps, parse, stringify);
  }

  /**
   * Reopening, in an editor holding nothing unsaved, a stored question whose
   * options are `opts` numbered by position, none marked, gives back a basic
   * question with those options.
   */
  lemma ReopenIndexedQuestion(e: Editor, i: nat, opts: seq<GapOption>, parse: string -> Explanations, stringify: map<nat, string> -> string)
    requires i < |e.questions| && !HasUnsavedQuestion(e.draft, e.kind)
    requires e.questions[i].options == IndexedOptions(opts) && e.questions[i].note.TextNote?
    requires forall k :: 0 <= k < |opts| ==> !HasMarkerPrefix(opts[k].text)
    ensures var q := e.questions[i];
            var r := EditQuestion(e, i, false, parse, stringify);
            && r.editing == Some(i) && r.kind == BasicKind
            && r.draft == Draft(q.text, opts, Some([]), q.imageUrl, Some(q.note.text.GetOr([])))
  {
    var q := e.questions[i];
    assert !AnyMarked(q.options);
    var r := EditQuestion(e, i, false, parse, stringify);
    assert r == LoadForEditing(e, i, q, parse, stringify);
    assert EditableOptions(q.options) == opts;
  }

  /**
   * A new basic question that passes validation, none of whose option texts
   * starts with a gap marker, once saved and reopened comes back as a basic
   * question with the same text, options, image and explanation ('' when absent).
   */
  lemma SaveThenReopenBasicQuestion(e: Editor, parse: string -> Explanations, stringify: map<nat, string> -> string)
    requires e.editing.None? && e.kind == BasicKind
    requires ValidateQuestion(e.draft, e.kind).Valid?
    requires forall k :: 0 <= k < |e.draft.options| ==> !HasMarkerPrefix(e.draft.options[k].text)
    ensures AddQuestion(e).Saved?
    ensures var d := e.draft;
            var r := EditQuestion(AddQuestion(e).editor, |e.questions|, false, parse, stringify);
            && r.editing == Some(|e.questions|) && r.kind == BasicKind
            && r.draft == Draft(d.text, d.options, Some([]), d.imageUrl, Some(d.explanation.GetOr([])))
  {
    var n := |e.questions|;
    var d := e.draft;
    var saved := AddQuestion(e).editor;
    assert saved.questions[n].options == IndexedOptions(d.options) && saved.questions[n].note == TextNote(d.explanation) by {
      SavedContent(e);
    }
    assert saved.questions[n].text == d.text && saved.questions[n].imageUrl == d.imageUrl by {
      SavedContent(e);
    }
    assert !HasUnsavedQuestion(saved.draft, saved.kind) by {
      EmptyDraftHasNothingUnsaved(saved.kind);
    }
    ReopenIndexedQuestion(saved, n, d.options, parse, stringify);
  }

  // ---------------------------------------------------------------------------
  // Leaving for the preview

  /** What `handleSubmit` does: ask for a question, ask to discard unsaved input, or show the preview. */
  datatype SubmitStep = NeedQuestions | ConfirmDiscard | ShowPreview

  function SubmitStepFor(e: Editor): (r: SubmitStep)
    ensures r == NeedQuestions <==> |e.questions| == 0
    ensures r == ConfirmDiscard <==> |e.questions| > 0 && HasUnsavedQuestion(e.draft, e.kind)
  {
    if |e.questions| == 0 then NeedQuestions
    else if HasUnsavedQuestion(e.draft, e.kind) then ConfirmDiscard
    else ShowPreview
  }

  /** Right after a question is saved the preview opens without asking. */
  lemma PreviewAfterSave(e: Editor)
    requires AddQuestion(e).Saved?
    ensures SubmitStepFor(AddQuestion(e).editor) == ShowPreview
  {
    var r := AddQuestion(e).editor;
    assert |r.questions| > 0;
    assert !HasUnsavedQuestion(r.draft, r.kind) by {
      EmptyDraftHasNothingUnsaved(r.kind);
    }
  }
}
