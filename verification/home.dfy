/**
 * The home page's lists: every quiz with its net rating and last score, the
 * search filter, the rating sort, the two most recently taken quizzes, and
 * the favourites.
 */
module Home {
  import opened Wrappers
  import opened JsText
  import opened Rows

  /** A quiz of the list; absent counts, author and tags are `None`. */
  datatype ListedQuiz = ListedQuiz(
    id: string,
    name: string,
    author: Option<string>,
    tags: Option<seq<string>>,
    likes: Option<int>,
    dislikes: Option<int>)

  /** A stored score: the value and, when present and non-zero, when it was taken. */
  datatype ScoreEntry = ScoreEntry(value: int, takenAt: Option<int>)

  /** A quiz with what the page derives for it. */
  datatype Shown = Shown(quiz: ListedQuiz, lastScore: Option<int>, takenAt: int, netRating: int)

  /** `(quiz.likes || 0) - (quiz.dislikes || 0)`. */
  function NetRating(q: ListedQuiz): int {
    (match q.likes case Some(n) => n case None => 0) - (match q.dislikes case Some(n) => n case None => 0)
  }

  /** The score entry's values: its score and `takenAt || 0`. */
  function WithScore(q: ListedQuiz, scores: map<string, ScoreEntry>): (r: Shown)
    ensures r.quiz == q && r.netRating == NetRating(q)
    ensures q.id !in scores ==> r.lastScore.None? && r.takenAt == 0
    ensures q.id in scores ==> r.lastScore == Some(scores[q.id].value) && r.takenAt == scores[q.id].takenAt.GetOr(0)
  {
    if q.id in scores then Shown(q, Some(scores[q.id].value), scores[q.id].takenAt.GetOr(0), NetRating(q))
    else Shown(q, None, 0, NetRating(q))
  }

  /** `quizzesWithScores`: one entry per quiz, in list order. */
  function WithScores(qs: seq<ListedQuiz>, scores: map<string, ScoreEntry>): (r: seq<Shown>)
    ensures |r| == |qs|
    ensures forall k :: 0 <= k < |qs| ==> r[k] == WithScore(qs[k], scores)
  {
    seq(|qs|, k requires 0 <= k < |qs| => WithScore(qs[k], scores))
  }

  /** Some tag contains the term. */
  predicate SomeTagContains(tags: seq<string>, term: string, lower: string -> string) {
    exists k :: 0 <= k < |tags| && Contains(lower(tags[k]), term)
  }

  /**
   * The search match: the lower-cased name, some lower-cased tag or the
   * lower-cased author contains the lower-cased term.  `lower` stands for
   * `toLowerCase`.
   */
  predicate Matches(q: ListedQuiz, term: string, lower: string -> string) {
    var t := lower(term);
    || Contains(lower(q.name), t)
    || (q.tags.Some? && SomeTagContains(q.tags.value, t, lower))
    || (q.author.Some? && Contains(lower(q.author.value), t))
  }

  /**
   * `filteredQuizzes`: a term that is blank after trimming keeps every quiz;
   * otherwise the matching quizzes stay, in order.  The untrimmed term is matched.
   */
  function FilterQuizzes(qs: seq<Shown>, term: string, lower: string -> string): (r: seq<Shown>)
    ensures IsBlank(term) ==> r == qs
    ensures !IsBlank(term) ==> forall x :: x in r <==> x in qs && Matches(x.quiz, term, lower)
    ensures IsSubsequence(r, qs)
  {
    if IsBlank(term) then
      SubsequenceOfSelf(qs);
      qs
    else
      var p := (x: Shown) => Matches(x.quiz, term, lower);
      FilterKeepsOrder(qs, p);
      Filter(qs, p)
  }

  lemma {:induction false} SubsequenceOfSelf<T>(s: seq<T>)
    ensures IsSubsequence(s, s)
  {
    if |s| > 0 {
      SubsequenceOfSelf(s[1..]);
    }
  }

  /** The sort choice; `Alpha` orders by name. */
  datatype SortMode = Alpha | Desc | Asc

  /**
   * `sortQuizzes`: a stable sort by net rating, highest first for `Desc` and
   * lowest first for `Asc`; `Alpha` sorts by `nameRank`, which stands for the
   * order `localeCompare` gives the names.
   */
  function SortKey(mode: SortMode, nameRank: string -> int): Shown -> int {
    match mode
    case Alpha => (x: Shown) => nameRank(x.quiz.name)
    case Desc => (x: Shown) => -x.netRating
    case Asc => (x: Shown) => x.netRating
  }

  function SortQuizzes(qs: seq<Shown>, mode: SortMode, nameRank: string -> int): (r: seq<Shown>)
    ensures multiset(r) == multiset(qs)
    ensures mode == Desc ==> forall i, j :: 0 <= i < j < |r| ==> r[i].netRating >= r[j].netRating
    ensures mode == Asc ==> forall i, j :: 0 <= i < j < |r| ==> r[i].netRating <= r[j].netRating
    ensures mode == Alpha ==> forall i, j :: 0 <= i < j < |r| ==> nameRank(r[i].quiz.name) <= nameRank(r[j].quiz.name)
    ensures forall v :: KeyClass(r, SortKey(mode, nameRank), v) == KeyClass(qs, SortKey(mode, nameRank), v)
  {
    var key := SortKey(mode, nameRank);
    var r := SortByKey(qs, key);
    assert forall i, j :: 0 <= i < j < |r| ==> key(r[i]) <= key(r[j]);
    r
  }

  /** The sorted list shows exactly the filtered quizzes, each as often as before. */
  lemma SortKeepsQuizzes(qs: seq<Shown>, mode: SortMode, nameRank: string -> int)
    ensures |SortQuizzes(qs, mode, nameRank)| == |qs|
    ensures forall x :: x in SortQuizzes(qs, mode, nameRank) <==> x in qs
  {
    var r := SortQuizzes(qs, mode, nameRank);
    assert |r| == |multiset(r)| == |multiset(qs)| == |qs|;
    forall x ensures x in r <==> x in qs {
      assert x in r <==> x in multiset(r);
      assert x in qs <==> x in multiset(qs);
    }
  }

  /** `quiz => quiz._takenAt`: the quiz was taken at some time. */
  predicate Taken(x: Shown) {
    x.takenAt != 0
  }

  /** The sort key of `recent`: later times first. */
  function RecentKey(x: Shown): int {
    -x.takenAt
  }

  /**
   * `recent`: the quizzes taken at some time, most recent first; quizzes
   * taken at the same time stay in the filtered list's order.
   */
  function Recent(qs: seq<Shown>): (r: seq<Shown>)
    ensures multiset(r) == multiset(Filter(qs, Taken))
    ensures forall x :: x in r <==> x in qs && x.takenAt != 0
    ensures forall i, j :: 0 <= i < j < |r| ==> r[i].takenAt >= r[j].takenAt
    ensures forall v :: KeyClass(r, RecentKey, v) == KeyClass(Filter(qs, Taken), RecentKey, v)
  {
    var taken := Filter(qs, Taken);
    var r := SortByKey(taken, RecentKey);
    RecentOrdered(qs, taken, r);
    r
  }

  /** A key-sorted permutation of the taken quizzes holds exactly them, most recent first. */
  lemma RecentOrdered(qs: seq<Shown>, taken: seq<Shown>, r: seq<Shown>)
    requires taken == Filter(qs, Taken)
    requires multiset(r) == multiset(taken) && SortedBy(r, RecentKey)
    ensures forall x :: x in r <==> x in qs && x.takenAt != 0
    ensures forall i, j :: 0 <= i < j < |r| ==> r[i].takenAt >= r[j].takenAt
  {
    assert forall i, j :: 0 <= i < j < |r| ==> RecentKey(r[i]) <= RecentKey(r[j]);
    forall x ensures x in r <==> x in taken {
      assert x in r <==> x in multiset(r);
      assert x in taken <==> x in multiset(taken);
    }
  }

  /** `recent.slice(0, 2)`. */
  function RecentToDisplay(qs: seq<Shown>): (r: seq<Shown>)
    ensures |r| == (if |Recent(qs)| < 2 then |Recent(qs)| else 2)
    ensures r == Recent(qs)[..|r|]
  {
    var rec := Recent(qs);
    if |rec| < 2 then rec else rec[..2]
  }

  /** The displayed recent quizzes were taken, and no taken quiz left out is more recent than one shown. */
  lemma RecentShowsMostRecent(qs: seq<Shown>)
    ensures forall x :: x in RecentToDisplay(qs) ==> x in qs && x.takenAt != 0
    ensures forall x, y :: x in RecentToDisplay(qs) && y in qs && y.takenAt != 0 && y !in RecentToDisplay(qs) ==> y.takenAt <= x.takenAt
  {
    var rec := Recent(qs);
    var r := RecentToDisplay(qs);
    forall x, y | x in r && y in qs && y.takenAt != 0 && y !in r ensures y.takenAt <= x.takenAt {
      var i :| 0 <= i < |r| && r[i] == x;
      assert y in rec;
      var j :| 0 <= j < |rec| && rec[j] == y;
      assert rec[i] == x;
      assert forall k :: 0 <= k < |r| ==> rec[k] == r[k];
    }
    forall x | x in r ensures x in qs && x.takenAt != 0 {
      var i :| 0 <= i < |r| && r[i] == x;
      assert rec[i] == x;
    }
  }

  /** `filteredFavorites`: nothing when signed out; otherwise the favourites through the search filter, never sorted. */
  function FilterFavourites(authenticated: bool, favourites: seq<Shown>, term: string, lower: string -> string): (r: seq<Shown>)
    ensures !authenticated ==> r == []
    ensures authenticated ==> r == FilterQuizzes(favourites, term, lower)
  {
    if !authenticated then [] else FilterQuizzes(favourites, term, lower)
  }
}
