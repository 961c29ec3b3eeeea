/**
 * The backend's data model: tags, quizzes, their questions and each question's
 * options ("choices"), as four tables.  The model states the integrity rules the
 * schema enforces (unique keys, the foreign keys, unique option index per
 * question, non-negative order and index), the column defaults, and the cascade
 * of deletes from a quiz to its questions to their options.
 */
module QuizModels {
  import opened Wrappers
  import opened Rows

  datatype QuestionType = MultipleChoice | FillInTheGap | ImageBased

  const DefaultQuestionType: QuestionType := MultipleChoice
  const TagNameMaxLength: nat := 64

  datatype Tag = Tag(name: string)

  /** A quiz; `tags` holds the names of its tags. */
  datatype Quiz = Quiz(id: string, name: string, author: string, description: string, tags: set<string>)

  datatype Question = Question(id: string, quiz: string, text: string, order: nat, questionType: QuestionType, image: string)

  /** An option of a question; the position field `index` is a non-negative integer. */
  datatype Choice = Choice(question: string, text: string, index: nat, isCorrect: bool, image: string)

  datatype Db = Db(tags: seq<Tag>, quizzes: seq<Quiz>, questions: seq<Question>, choices: seq<Choice>)

  /** A question as created without the optional fields: order 0, multiple choice, no image. */
  function NewQuestion(id: string, quiz: string, text: string): (q: Question)
    ensures q.order == 0 && q.questionType == MultipleChoice && q.image == ""
  {
    Question(id, quiz, text, 0, DefaultQuestionType, "")
  }

  /** An option as created without the optional fields: not correct, no image. */
  function NewChoice(question: string, text: string, index: nat): (c: Choice)
    ensures !c.isCorrect && c.image == ""
  {
    Choice(question, text, index, false, "")
  }

  function TagName(t: Tag): string { t.name }
  function QuizId(q: Quiz): string { q.id }
  function QuestionId(q: Question): string { q.id }
  function ChoiceKey(c: Choice): (string, nat) { (c.question, c.index) }

  predicate HasQuiz(db: Db, id: string) {
    exists k :: 0 <= k < |db.quizzes| && db.quizzes[k].id == id
  }

  predicate HasQuestion(db: Db, id: string) {
    exists k :: 0 <= k < |db.questions| && db.questions[k].id == id
  }

  /** The integrity rules of the schema. */
  predicate Valid(db: Db) {
    && KeysDistinct(db.tags, TagName)
    && (forall k :: 0 <= k < |db.tags| ==> |db.tags[k].name| <= TagNameMaxLength)
    && KeysDistinct(db.quizzes, QuizId)
    && KeysDistinct(db.questions, QuestionId)
    && KeysDistinct(db.choices, ChoiceKey)
    && (forall k :: 0 <= k < |db.questions| ==> HasQuiz(db, db.questions[k].quiz))
    && (forall k :: 0 <= k < |db.choices| ==> HasQuestion(db, db.choices[k].question))
  }

  /** Adding a tag: refused when the name is taken or too long. */
  function AddTag(db: Db, name: string): (r: Option<Db>)
    requires Valid(db)
    ensures r.Some? <==> |name| <= TagNameMaxLength && forall k :: 0 <= k < |db.tags| ==> db.tags[k].name != name
    ensures r.Some? ==> Valid(r.value) && r.value.tags == db.tags + [Tag(name)]
  {
    if |name| > TagNameMaxLength || exists k :: 0 <= k < |db.tags| && db.tags[k].name == name then None
    else
      var tags := db.tags + [Tag(name)];
      assert forall k :: 0 <= k < |db.tags| ==> tags[k] == db.tags[k];
      Some(db.(tags := tags))
  }

  /** Adding an option: refused when its question does not exist or the question already has an option at that index. */
  function AddChoice(db: Db, c: Choice): (r: Option<Db>)
    requires Valid(db)
    ensures r.Some? <==> HasQuestion(db, c.question) && forall k :: 0 <= k < |db.choices| ==> ChoiceKey(db.choices[k]) != ChoiceKey(c)
    ensures r.Some? ==> Valid(r.value) && r.value.choices == db.choices + [c]
  {
    if !HasQuestion(db, c.question) || exists k :: 0 <= k < |db.choices| && ChoiceKey(db.choices[k]) == ChoiceKey(c) then None
    else
      var choices := db.choices + [c];
      assert forall k :: 0 <= k < |db.choices| ==> choices[k] == db.choices[k];
      Some(db.(choices := choices))
  }

  /** Deleting a question deletes its options; nothing else changes. */
  function DeleteQuestion(db: Db, id: string): (r: Db)
    requires Valid(db)
    ensures Valid(r)
    ensures !HasQuestion(r, id) && forall c :: c in r.choices ==> c.question != id
    ensures r.tags == db.tags && r.quizzes == db.quizzes
    ensures forall q :: q in r.questions <==> q in db.questions && q.id != id
    ensures forall c :: c in r.choices <==> c in db.choices && c.question != id
  {
    var questions := Filter(db.questions, (q: Question) => q.id != id);
    var choices := Filter(db.choices, (c: Choice) => c.question != id);
    FilterKeysDistinct(db.questions, (q: Question) => q.id != id, QuestionId);
    FilterKeysDistinct(db.choices, (c: Choice) => c.question != id, ChoiceKey);
    var r := Db(db.tags, db.quizzes, questions, choices);
    assert forall k :: 0 <= k < |questions| ==> HasQuiz(r, questions[k].quiz) by {
      forall k | 0 <= k < |questions| ensures HasQuiz(r, questions[k].quiz) {
        assert questions[k] in db.questions;
      }
    }
    assert forall k :: 0 <= k < |choices| ==> HasQuestion(r, choices[k].question) by {
      forall k | 0 <= k < |choices| ensures HasQuestion(r, choices[k].question) {
        assert choices[k] in db.choices;
        QuestionSurvives(db, id, choices[k]);
      }
    }
    assert !HasQuestion(r, id) by {
      forall k | 0 <= k < |questions| ensures questions[k].id != id {
        assert questions[k] in questions;
      }
    }
    r
  }

  /** An option of another question still finds its question after a delete. */
  lemma QuestionSurvives(db: Db, id: string, c: Choice)
    requires Valid(db) && c in db.choices && c.question != id
    ensures HasQuestion(Db(db.tags, db.quizzes, Filter(db.questions, (q: Question) => q.id != id), []), c.question)
  {
    var m :| 0 <= m < |db.choices| && db.choices[m] == c;
    var n :| 0 <= n < |db.questions| && db.questions[n].id == c.question;
    var questions := Filter(db.questions, (q: Question) => q.id != id);
    assert db.questions[n] in questions;
    var k :| 0 <= k < |questions| && questions[k] == db.questions[n];
  }

  /** Deleting a quiz deletes its questions and their options; tags stay. */
  function DeleteQuiz(db: Db, id: string): (r: Db)
    requires Valid(db)
    ensures Valid(r)
    ensures !HasQuiz(r, id)
    ensures forall q :: q in r.questions ==> q.quiz != id
    ensures r.tags == db.tags
    ensures forall z :: z in r.quizzes <==> z in db.quizzes && z.id != id
    ensures forall q :: q in r.questions <==> q in db.questions && q.quiz != id
    ensures forall c :: c in r.choices ==> c in db.choices
    ensures forall c :: c in db.choices && (exists q :: q in r.questions && q.id == c.question) ==> c in r.choices
  {
    var quizzes := Filter(db.quizzes, (z: Quiz) => z.id != id);
    var questions := Filter(db.questions, (q: Question) => q.quiz != id);
    var choices := Filter(db.choices, (c: Choice) => exists q :: q in questions && q.id == c.question);
    FilterKeysDistinct(db.quizzes, (z: Quiz) => z.id != id, QuizId);
    FilterKeysDistinct(db.questions, (q: Question) => q.quiz != id, QuestionId);
    FilterKeysDistinct(db.choices, (c: Choice) => exists q :: q in questions && q.id == c.question, ChoiceKey);
    var r := Db(db.tags, quizzes, questions, choices);
    assert forall k :: 0 <= k < |questions| ==> HasQuiz(r, questions[k].quiz) by {
      forall k | 0 <= k < |questions| ensures HasQuiz(r, questions[k].quiz) {
        assert questions[k] in db.questions;
        QuizSurvives(db, id, questions[k]);
      }
    }
    assert forall k :: 0 <= k < |choices| ==> HasQuestion(r, choices[k].question) by {
      forall k | 0 <= k < |choices| ensures HasQuestion(r, choices[k].question) {
        assert choices[k] in choices;
        var q :| q in questions && q.id == choices[k].question;
        var n :| 0 <= n < |questions| && questions[n] == q;
      }
    }
    assert !HasQuiz(r, id) by {
      forall k | 0 <= k < |quizzes| ensures quizzes[k].id != id {
        assert quizzes[k] in quizzes;
      }
    }
    r
  }

  /** A question of another quiz still finds its quiz after a delete. */
  lemma QuizSurvives(db: Db, id: string, q: Question)
    requires Valid(db) && q in db.questions && q.quiz != id
    ensures HasQuiz(Db(db.tags, Filter(db.quizzes, (z: Quiz) => z.id != id), [], []), q.quiz)
  {
    var m :| 0 <= m < |db.questions| && db.questions[m] == q;
    var n :| 0 <= n < |db.quizzes| && db.quizzes[n].id == q.quiz;
    var quizzes := Filter(db.quizzes, (z: Quiz) => z.id != id);
    assert db.quizzes[n] in quizzes;
    var k :| 0 <= k < |quizzes| && quizzes[k] == db.quizzes[n];
  }

  /** The options of question `id` as the relation returns them: ordered by index. */
  function OptionsOf(db: Db, id: string): (r: seq<Choice>)
    ensures SortedBy(r, (c: Choice) => c.index)
    ensures multiset(r) == multiset(Filter(db.choices, (c: Choice) => c.question == id))
  {
    SortByKey(Filter(db.choices, (c: Choice) => c.question == id), (c: Choice) => c.index)
  }

  /** The questions of quiz `id` as the relation returns them: ordered by `order` (ties by id are left to the database). */
  function QuestionsOf(db: Db, id: string): (r: seq<Question>)
    ensures SortedBy(r, (q: Question) => q.order)
    ensures multiset(r) == multiset(Filter(db.questions, (q: Question) => q.quiz == id))
  {
    SortByKey(Filter(db.questions, (q: Question) => q.quiz == id), (q: Question) => q.order)
  }

  /** Within one question no two options share an index. */
  lemma OptionIndicesUnique(db: Db, id: string)
    requires Valid(db)
    ensures KeysDistinct(Filter(db.choices, (c: Choice) => c.question == id), (c: Choice) => c.index)
  {
    var p := (c: Choice) => c.question == id;
    FilterKeysDistinct(db.choices, p, ChoiceKey);
    var f := Filter(db.choices, p);
    forall i, j | 0 <= i < j < |f| ensures f[i].index != f[j].index {
      assert f[i] in f && f[j] in f;
      assert ChoiceKey(f[i]) != ChoiceKey(f[j]);
    }
  }
}
