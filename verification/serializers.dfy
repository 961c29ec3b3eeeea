/**
 * What the API sends for quizzes: an option as its index and text only, a
 * question with its options and the index of its first correct option, a quiz
 * with its questions, and the list entry of a quiz with its question count.
 */
module Serializers {
  import opened Rows
  import opened QuizModels

  /** `ChoiceSerializer`: the fields `index` and `text` and nothing else (in particular not whether it is correct). */
  datatype ChoiceOut = ChoiceOut(index: nat, text: string)

  datatype QuestionOut = QuestionOut(id: string, text: string, options: seq<ChoiceOut>, correctIndex: int)

  datatype QuizOut = QuizOut(id: string, name: string, author: string, tags: set<string>, questions: seq<QuestionOut>)

  datatype QuizListOut = QuizListOut(id: string, name: string, author: string, tags: set<string>, questionCount: nat)

  function SerializeChoice(c: Choice): (r: ChoiceOut)
    ensures r.index == c.index && r.text == c.text
  {
    ChoiceOut(c.index, c.text)
  }

  /**
   * `get_correct_index`: the `index` of the first correct option in the given
   * order, or -1 when none is correct.
   */
  function CorrectIndex(options: seq<Choice>): (r: int)
    ensures r == -1 <==> forall k :: 0 <= k < |options| ==> !options[k].isCorrect
    ensures r != -1 ==> exists k :: 0 <= k < |options| && options[k].isCorrect && options[k].index == r
                          && forall j :: 0 <= j < k ==> !options[j].isCorrect
  {
    if |options| == 0 then -1
    else if options[0].isCorrect then options[0].index
    else
      var r := CorrectIndex(options[1..]);
      assert forall k :: 1 <= k < |options| ==> options[k] == options[1..][k - 1];
      r
  }

  /** With the options ordered by index, a non-negative `correct_index` is the smallest index of a correct option. */
  lemma CorrectIndexIsSmallest(options: seq<Choice>)
    requires SortedBy(options, (c: Choice) => c.index)
    ensures CorrectIndex(options) != -1 ==>
              forall k :: 0 <= k < |options| && options[k].isCorrect ==> CorrectIndex(options) <= options[k].index
  {
    var r := CorrectIndex(options);
    if r != -1 {
      var k :| 0 <= k < |options| && options[k].isCorrect && options[k].index == r
               && forall j :: 0 <= j < k ==> !options[j].isCorrect;
      forall m | 0 <= m < |options| && options[m].isCorrect ensures r <= options[m].index {
        if m > k {
          assert options[k].index <= options[m].index;
        }
      }
    }
  }

  function SerializeChoices(cs: seq<Choice>): (r: seq<ChoiceOut>)
    ensures |r| == |cs| && forall k :: 0 <= k < |cs| ==> r[k] == SerializeChoice(cs[k])
  {
    if |cs| == 0 then [] else [SerializeChoice(cs[0])] + SerializeChoices(cs[1..])
  }

  /** `QuestionSerializer`: the question's options in index order, and its correct index computed over that order. */
  function SerializeQuestion(db: Db, q: Question): (r: QuestionOut)
    ensures |r.options| == |OptionsOf(db, q.id)|
  {
    var options := OptionsOf(db, q.id);
    QuestionOut(q.id, q.text, SerializeChoices(options), CorrectIndex(options))
  }

  /** The options the relation returns are exactly the question's options. */
  lemma OptionsOfMembers(db: Db, id: string)
    ensures forall c :: c in OptionsOf(db, id) <==> c in db.choices && c.question == id
  {
    var options := OptionsOf(db, id);
    var all := Filter(db.choices, (c: Choice) => c.question == id);
    forall c ensures c in options <==> c in db.choices && c.question == id {
      calc {
        c in options;
        multiset(options)[c] > 0;
        multiset(all)[c] > 0;
        c in all;
      }
    }
  }

  /** Every correct option of the question bounds the correct index from above, which is therefore not -1. */
  lemma CorrectOptionBounds(db: Db, q: Question, c: Choice)
    requires c in db.choices && c.question == q.id && c.isCorrect
    ensures SerializeQuestion(db, q).correctIndex != -1 && SerializeQuestion(db, q).correctIndex <= c.index
  {
    var options := OptionsOf(db, q.id);
    assert SerializeQuestion(db, q).correctIndex == CorrectIndex(options);
    OptionsOfMembers(db, q.id);
    CorrectIndexIsSmallest(options);
    assert c in options;
    var k :| 0 <= k < |options| && options[k] == c;
  }

  /** A correct index other than -1 is the index of a correct option of the question. */
  lemma CorrectIndexNamesOption(db: Db, q: Question)
    ensures SerializeQuestion(db, q).correctIndex != -1 ==>
              exists c :: c in db.choices && c.question == q.id && c.isCorrect && c.index == SerializeQuestion(db, q).correctIndex
  {
    var options := OptionsOf(db, q.id);
    var r := CorrectIndex(options);
    assert SerializeQuestion(db, q).correctIndex == r;
    if r != -1 {
      OptionsOfMembers(db, q.id);
      var k :| 0 <= k < |options| && options[k].isCorrect && options[k].index == r
               && forall j :: 0 <= j < k ==> !options[j].isCorrect;
      assert options[k] in options;
    }
  }

  /**
   * The serialized correct index is -1 exactly when no option of the question is
   * correct; otherwise it is the index of a correct option of the question, and
   * the smallest such.
   */
  lemma SerializedCorrectIndex(db: Db, q: Question)
    ensures SerializeQuestion(db, q).correctIndex == -1 <==> forall c :: c in db.choices && c.question == q.id ==> !c.isCorrect
    ensures SerializeQuestion(db, q).correctIndex != -1 ==>
              exists c :: c in db.choices && c.question == q.id && c.isCorrect && c.index == SerializeQuestion(db, q).correctIndex
    ensures SerializeQuestion(db, q).correctIndex != -1 ==>
              forall c :: c in db.choices && c.question == q.id && c.isCorrect ==> SerializeQuestion(db, q).correctIndex <= c.index
  {
    forall c | c in db.choices && c.question == q.id && c.isCorrect
      ensures SerializeQuestion(db, q).correctIndex != -1 && SerializeQuestion(db, q).correctIndex <= c.index
    {
      CorrectOptionBounds(db, q, c);
    }
    CorrectIndexNamesOption(db, q);
  }

  function SerializeQuestions(db: Db, qs: seq<Question>): (r: seq<QuestionOut>)
    ensures |r| == |qs| && forall k :: 0 <= k < |qs| ==> r[k] == SerializeQuestion(db, qs[k])
  {
    if |qs| == 0 then [] else [SerializeQuestion(db, qs[0])] + SerializeQuestions(db, qs[1..])
  }

  /** `QuizSerializer`: the quiz's questions in their order. */
  function SerializeQuiz(db: Db, z: Quiz): (r: QuizOut)
    ensures |r.questions| == |QuestionsOf(db, z.id)|
  {
    QuizOut(z.id, z.name, z.author, z.tags, SerializeQuestions(db, QuestionsOf(db, z.id)))
  }

  /** `QuizListSerializer`: `question_count` is the number of the quiz's questions. */
  function SerializeQuizListEntry(db: Db, z: Quiz): QuizListOut {
    QuizListOut(z.id, z.name, z.author, z.tags, Count(db.questions, (q: Question) => q.quiz == z.id))
  }

  /** The list entry's question count equals the number of questions the quiz's detail view lists. */
  lemma QuestionCountMatchesDetail(db: Db, z: Quiz)
    ensures SerializeQuizListEntry(db, z).questionCount == |SerializeQuiz(db, z).questions|
  {
    var p := (q: Question) => q.quiz == z.id;
    CountFilter(db.questions, p);
    var qs := QuestionsOf(db, z.id);
    assert |qs| == |multiset(qs)| == |multiset(Filter(db.questions, p))| == |Filter(db.questions, p)|;
  }
}
