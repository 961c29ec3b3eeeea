/**
 * The quiz list context: the name-ordered quiz list, the cache of fetched quiz
 * details, the temporary quizzes registered by the pages (a retry of failed
 * questions), the lookup order of `getQuiz`, the list and cache maintenance
 * after a create, an update or a delete, and the formatting of the nested
 * errors the server returns for a rejected quiz.  Every server response is an
 * input; `nameRank` stands for the order `localeCompare` gives the names.
 */
module QuizCache {
  import opened Wrappers
  import opened JsText
  import opened Rows

  datatype Quiz = Quiz(id: string, name: string)

  datatype State = State(quizzes: seq<Quiz>, details: map<string, Quiz>, temps: map<string, Quiz>)

  /** A quiz's place in the order `localeCompare` gives the names. */
  function NameKey(nameRank: string -> int): Quiz -> int {
    (q: Quiz) => nameRank(q.name)
  }

  /**
   * The list ordered by name with the stable `sort`: quizzes whose names
   * compare equal stay in the order they came in.
   */
  function ByName(qs: seq<Quiz>, nameRank: string -> int): (r: seq<Quiz>)
    ensures multiset(r) == multiset(qs)
    ensures forall i, j :: 0 <= i < j < |r| ==> nameRank(r[i].name) <= nameRank(r[j].name)
    ensures forall v :: KeyClass(r, NameKey(nameRank), v) == KeyClass(qs, NameKey(nameRank), v)
  {
    var key := NameKey(nameRank);
    var r := SortByKey(qs, key);
    assert forall i, j :: 0 <= i < j < |r| ==> key(r[i]) <= key(r[j]);
    r
  }

  /** `fetchQuizzes`: the fetched list ordered by name; a failed request keeps the list. */
  function FetchQuizzes(s: State, response: Option<seq<Quiz>>, nameRank: string -> int): (r: State)
    ensures response.None? ==> r == s
    ensures response.Some? ==>
              && r.details == s.details && r.temps == s.temps
              && multiset(r.quizzes) == multiset(response.value)
              && forall i, j :: 0 <= i < j < |r.quizzes| ==> nameRank(r.quizzes[i].name) <= nameRank(r.quizzes[j].name)
  {
    if response.None? then s else s.(quizzes := ByName(response.value, nameRank))
  }

  datatype GetError = IdRequired | QuizNotFound

  /** What `getQuiz` resolves to, with the state after it. */
  datatype Got = Failed(error: GetError) | Found(quiz: Quiz, state: State)

  /**
   * `getQuiz`: an empty id is refused; a temporary quiz wins, then a cached
   * detail; otherwise the server is asked (`fetched`, `None` when it answers
   * with an error) and its answer is cached under the id asked for.
   */
  function GetQuiz(s: State, quizId: string, fetched: Option<Quiz>): (r: Got)
    ensures quizId == [] ==> r == Failed(IdRequired)
    ensures quizId != [] && quizId in s.temps ==> r == Found(s.temps[quizId], s)
    ensures quizId != [] && quizId !in s.temps && quizId in s.details ==> r == Found(s.details[quizId], s)
    ensures quizId != [] && quizId !in s.temps && quizId !in s.details ==>
              && (fetched.None? ==> r == Failed(QuizNotFound))
              && (fetched.Some? ==> r == Found(fetched.value, s.(details := s.details[quizId := fetched.value])))
  {
    if quizId == [] then Failed(IdRequired)
    else if quizId in s.temps then Found(s.temps[quizId], s)
    else if quizId in s.details then Found(s.details[quizId], s)
    else if fetched.None? then Failed(QuizNotFound)
    else Found(fetched.value, s.(details := s.details[quizId := fetched.value]))
  }

  /** A quiz once fetched is served from the cache: asking again gives the same quiz whatever the server would say, and changes nothing. */
  lemma FetchedIsCached(s: State, quizId: string, fetched: Option<Quiz>, again: Option<Quiz>)
    requires GetQuiz(s, quizId, fetched).Found?
    ensures var first := GetQuiz(s, quizId, fetched);
            GetQuiz(first.state, quizId, again) == Found(first.quiz, first.state)
  {
  }

  /** `registerTemporaryQuiz`: a quiz with an id is stored under it; nothing (or a quiz without an id) is ignored. */
  function RegisterTemporaryQuiz(s: State, quiz: Option<Quiz>): (r: State)
    ensures quiz.None? || quiz.value.id == [] ==> r == s
    ensures quiz.Some? && quiz.value.id != [] ==>
              && r.quizzes == s.quizzes && r.details == s.details
              && r.temps.Keys == s.temps.Keys + {quiz.value.id}
              && r.temps[quiz.value.id] == quiz.value
              && forall id :: id in s.temps && id != quiz.value.id ==> r.temps[id] == s.temps[id]
  {
    if quiz.None? || quiz.value.id == [] then s else s.(temps := s.temps[quiz.value.id := quiz.value])
  }

  /** A registered temporary quiz is what `getQuiz` gives for its id from then on, without asking the server. */
  lemma TemporaryWins(s: State, quiz: Quiz, fetched: Option<Quiz>)
    requires quiz.id != []
    ensures GetQuiz(RegisterTemporaryQuiz(s, Some(quiz)), quiz.id, fetched) == Found(quiz, RegisterTemporaryQuiz(s, Some(quiz)))
  {
  }

  /** `createQuiz` succeeded: the created quiz joins the list, which stays ordered by name. */
  function Created(s: State, data: Quiz, nameRank: string -> int): (r: State)
    ensures r.details == s.details && r.temps == s.temps
    ensures multiset(r.quizzes) == multiset(s.quizzes) + multiset{data}
    ensures forall i, j :: 0 <= i < j < |r.quizzes| ==> nameRank(r.quizzes[i].name) <= nameRank(r.quizzes[j].name)
  {
    s.(quizzes := ByName(s.quizzes + [data], nameRank))
  }

  /** `prev.map(q => q.id === quizId ? data : q)`. */
  function ReplaceById(qs: seq<Quiz>, quizId: string, data: Quiz): (r: seq<Quiz>)
    ensures |r| == |qs|
    ensures forall k :: 0 <= k < |qs| ==> r[k] == (if qs[k].id == quizId then data else qs[k])
  {
    seq(|qs|, k requires 0 <= k < |qs| => if qs[k].id == quizId then data else qs[k])
  }

  /**
   * `updateQuiz` succeeded: every listed quiz with the id becomes the server's
   * answer, the others stay, the list is ordered by name again, and the answer
   * is cached under the id.
   */
  function Updated(s: State, quizId: string, data: Quiz, nameRank: string -> int): (r: State)
    ensures r.temps == s.temps
    ensures r.details == s.details[quizId := data]
    ensures |r.quizzes| == |s.quizzes|
    ensures forall q :: q in r.quizzes ==> q == data || (q in s.quizzes && q.id != quizId)
    ensures forall q :: q in s.quizzes && q.id != quizId ==> q in r.quizzes
    ensures (exists k :: 0 <= k < |s.quizzes| && s.quizzes[k].id == quizId) ==> data in r.quizzes
    ensures forall i, j :: 0 <= i < j < |r.quizzes| ==> nameRank(r.quizzes[i].name) <= nameRank(r.quizzes[j].name)
  {
    var replaced := ReplaceById(s.quizzes, quizId, data);
    var sorted := ByName(replaced, nameRank);
    SameRows(sorted, replaced);
    ReplacedMembers(s.quizzes, quizId, data);
    State(sorted, s.details[quizId := data], s.temps)
  }

  /** After replacing by id, a quiz is listed iff it is the answer (for an id that was listed) or an untouched quiz. */
  lemma ReplacedMembers(qs: seq<Quiz>, quizId: string, data: Quiz)
    ensures var r := ReplaceById(qs, quizId, data);
            && (forall q :: q in r ==> q == data || (q in qs && q.id != quizId))
            && (forall q :: q in qs && q.id != quizId ==> q in r)
            && ((exists k :: 0 <= k < |qs| && qs[k].id == quizId) ==> data in r)
  {
    var r := ReplaceById(qs, quizId, data);
    forall q | q in qs && q.id != quizId ensures q in r {
      var k :| 0 <= k < |qs| && qs[k] == q;
      assert r[k] == q;
    }
    if exists k :: 0 <= k < |qs| && qs[k].id == quizId {
      var k :| 0 <= k < |qs| && qs[k].id == quizId;
      assert r[k] == data;
    }
  }

  /**
   * `deleteQuiz` succeeded: the quiz is gone from the list and from the cache;
   * the other quizzes stay in their order and the other cached details stay.
   * A temporary quiz under the id is kept.
   */
  function Deleted(s: State, quizId: string): (r: State)
    ensures r.temps == s.temps
    ensures r.details.Keys == s.details.Keys - {quizId}
    ensures forall id :: id in r.details ==> r.details[id] == s.details[id]
    ensures forall q :: q in r.quizzes <==> q in s.quizzes && q.id != quizId
    ensures IsSubsequence(r.quizzes, s.quizzes)
  {
    var keep := (q: Quiz) => q.id != quizId;
    FilterKeepsOrder(s.quizzes, keep);
    State(Filter(s.quizzes, keep), s.details - {quizId}, s.temps)
  }

  /** After a delete `getQuiz` no longer finds the quiz in the cache: it is asked from the server again, unless a temporary quiz has the id. */
  lemma DeletedIsRefetched(s: State, quizId: string, fetched: Option<Quiz>)
    requires quizId != [] && quizId !in s.temps
    ensures GetQuiz(Deleted(s, quizId), quizId, fetched) ==
              if fetched.None? then Failed(QuizNotFound)
              else Found(fetched.value, Deleted(s, quizId).(details := Deleted(s, quizId).details[quizId := fetched.value]))
  {
  }

  // formatErr

  /**
   * An error value as the server sends it; an object's properties are listed
   * in the order `Object.entries` gives them.  `Null` also stands for `undefined`.
   */
  datatype ErrValue =
    | Null
    | Bool(b: bool)
    | Number(n: int)
    | Str(s: string)
    | Array(items: seq<ErrValue>)
    | Object(props: seq<Prop>)

  datatype Prop = Prop(key: string, value: ErrValue)

  /** `ps.join(sep)`: the empty string for no pieces. */
  function JoinWith(ps: seq<string>, sep: string): string {
    if |ps| == 0 then [] else if |ps| == 1 then ps[0] else ps[0] + sep + JoinWith(ps[1..], sep)
  }

  lemma OccursAfter(a: string, t: string, p: string, i: int)
    requires OccursAt(t, p, i)
    ensures OccursAt(a + t, p, |a| + i)
  {
    assert (a + t)[|a| + i..|a| + i + |p|] == t[i..i + |p|];
  }

  /** Every piece of a join occurs in it. */
  lemma {:induction false} JoinWithContains(ps: seq<string>, sep: string, k: nat)
    requires k < |ps|
    ensures Contains(JoinWith(ps, sep), ps[k])
  {
    var r := JoinWith(ps, sep);
    if k == 0 {
      assert |ps| > 1 ==> r == ps[0] + (sep + JoinWith(ps[1..], sep));
      assert r[0..|ps[0]|] == ps[0];
      assert OccursAt(r, ps[0], 0);
    } else {
      JoinWithContains(ps[1..], sep, k - 1);
      var t := JoinWith(ps[1..], sep);
      var i :| 0 <= i <= |t| - |ps[k]| && OccursAt(t, ps[k], i);
      OccursAfter(ps[0] + sep, t, ps[k], i);
      assert r == (ps[0] + sep) + t;
    }
  }

  /** `String(v)` of a boolean, an integer or a string. */
  function ToText(v: ErrValue): string
    requires v.Bool? || v.Number? || v.Str?
  {
    match v
    case Bool(b) => if b then "true" else "false"
    case Number(n) => if n < 0 then "-" + Decimal(-n) else Decimal(n)
    case Str(s) => s
  }

  /**
   * `formatErr`: nothing for `null`, the elements' formats joined by ", " for
   * an array, "key: value" per property joined by "; " for an object, and the
   * text of anything else.
   */
  function FormatErr(v: ErrValue): string
    decreases v
  {
    match v
    case Null => []
    case Array(items) => JoinWith(seq(|items|, k requires 0 <= k < |items| => FormatErr(items[k])), ", ")
    case Object(props) => JoinWith(seq(|props|, k requires 0 <= k < |props| => props[k].key + ": " + FormatErr(props[k].value)), "; ")
    case _ => ToText(v)
  }

  /**
   * What `formatErr` gives: a list of messages shows each message, an object
   * names each field before its formatted value, and a single message is shown
   * as it is.
   */
  lemma FormatErrShowsEverything(v: ErrValue)
    ensures v.Null? ==> FormatErr(v) == []
    ensures v.Str? ==> FormatErr(v) == v.s
    ensures v.Array? ==> forall k :: 0 <= k < |v.items| ==> Contains(FormatErr(v), FormatErr(v.items[k]))
    ensures v.Object? ==> forall k :: 0 <= k < |v.props| ==>
              Contains(FormatErr(v), v.props[k].key + ": " + FormatErr(v.props[k].value))
    ensures v.Array? && |v.items| == 1 ==> FormatErr(v) == FormatErr(v.items[0])
  {
    match v
    case Array(items) =>
      var ps := seq(|items|, k requires 0 <= k < |items| => FormatErr(items[k]));
      forall k | 0 <= k < |items| ensures Contains(FormatErr(v), FormatErr(items[k])) {
        JoinWithContains(ps, ", ", k);
      }
    case Object(props) =>
      var ps := seq(|props|, k requires 0 <= k < |props| => props[k].key + ": " + FormatErr(props[k].value));
      forall k | 0 <= k < |props| ensures Contains(FormatErr(v), props[k].key + ": " + FormatErr(props[k].value)) {
        JoinWithContains(ps, "; ", k);
      }
    case _ =>
  }

  /** The properties `Object.entries` gives for an object or an array (its positions). */
  function ErrEntries(v: ErrValue): seq<Prop>
    requires v.Array? || v.Object?
  {
    if v.Object? then v.props
    else seq(|v.items|, k requires 0 <= k < |v.items| => Prop(Decimal(k), v.items[k]))
  }

  /** One line per entry: its key, ': ' and its formatted value. */
  function ErrLines(es: seq<Prop>): (lines: seq<string>) {
    seq(|es|, k requires 0 <= k < |es| => es[k].key + ": " + FormatErr(es[k].value))
  }

  /** The joined lines name every entry's key followed by ': ', so they are not empty when there is an entry. */
  lemma ErrLinesListKeys(es: seq<Prop>)
    ensures var messages := JoinWith(ErrLines(es), "\n");
            && (|es| > 0 ==> messages != [])
            && forall k :: 0 <= k < |es| ==> Contains(messages, es[k].key + ": ")
  {
    var lines := ErrLines(es);
    var messages := JoinWith(lines, "\n");
    forall k | 0 <= k < |es| ensures Contains(messages, es[k].key + ": ") {
      JoinWithContains(lines, "\n", k);
      var i :| 0 <= i <= |messages| - |lines[k]| && OccursAt(messages, lines[k], i);
      assert messages[i..i + |es[k].key + ": "|] == lines[k][..|es[k].key + ": "|];
      assert OccursAt(messages, es[k].key + ": ", i);
    }
  }

  /**
   * The message `createQuiz` throws for a rejected quiz: for an object (or
   * array) body, one "field: formatted errors" line per property, or the
   * status line when there is none; for any other body its `detail`, which no
   * value but an object has, so the status line.
   */
  function CreateErrorMessage(body: ErrValue, status: nat): (r: string)
    ensures r != []
    ensures (body.Object? || body.Array?) && |ErrEntries(body)| > 0 ==>
              forall k :: 0 <= k < |ErrEntries(body)| ==> Contains(r, ErrEntries(body)[k].key + ": ")
    ensures !(body.Object? || body.Array?) || |ErrEntries(body)| == 0 ==> r == "Failed to create quiz (" + Decimal(status) + ")"
  {
    var fallback := "Failed to create quiz (" + Decimal(status) + ")";
    if body.Object? || body.Array? then
      var messages := JoinWith(ErrLines(ErrEntries(body)), "\n");
      ErrLinesListKeys(ErrEntries(body));
      if messages == [] then fallback else messages
    else fallback
  }
}
