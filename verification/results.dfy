/**
 * The results page: the list of wrongly answered question ids read back from
 * the `wrong` parameter the play page wrote, the missed count, and retrying
 * the failed questions as a temporary quiz whose id ends in `-failed`.
 */
module Results {
  import opened Wrappers
  import opened JsText
  import PlayState
  import opened Rows

  /** A quiz as the results page sees it. */
  datatype Quiz = Quiz(id: string, name: string, questions: seq<PlayState.PlayQuestion>)

  /** `(searchParams.get('wrong') || '').split(',').filter(Boolean)`; `None` is an absent parameter. */
  function WrongIds(raw: Option<string>): (r: seq<string>)
    ensures forall id :: id in r <==> id in Split(raw.GetOr([]), ',') && id != []
  {
    NonEmpty(Split(raw.GetOr([]), ','))
  }

  /** What the play page writes: `wrongIds.join(',')`, the empty string for no ids. */
  function EncodeWrong(ids: seq<string>): string {
    if |ids| == 0 then [] else Join(ids, ',')
  }

  /** Ids that are non-empty and free of commas are read back exactly as the play page wrote them. */
  lemma WrongIdsRoundTrip(ids: seq<string>)
    requires forall k :: 0 <= k < |ids| ==> ids[k] != [] && ',' !in ids[k]
    ensures WrongIds(Some(EncodeWrong(ids))) == ids
  {
    if |ids| > 0 {
      SplitJoin(ids, ',');
    }
  }

  /** `Boolean` on a string: it is not empty. */
  predicate Filled(p: string) {
    p != []
  }

  /** Dropping the empty pieces is filtering by `Boolean`. */
  lemma {:induction false} NonEmptyIsFilter(ps: seq<string>)
    ensures NonEmpty(ps) == Filter(ps, Filled)
  {
    if |ps| > 0 {
      NonEmptyIsFilter(ps[1..]);
    }
  }

  /** The number shown as missed: the non-empty pieces of the parameter; zero shows a perfect run. */
  function MissedCount(raw: Option<string>): (n: nat)
    ensures n == |Filter(Split(raw.GetOr([]), ','), Filled)|
    ensures n == 0 <==> forall p :: p in Split(raw.GetOr([]), ',') ==> p == []
  {
    var r := WrongIds(raw);
    NonEmptyIsFilter(Split(raw.GetOr([]), ','));
    assert r != [] ==> r[0] in r;
    |r|
  }

  /** After a play the missed count is the number of questions answered wrong at first. */
  lemma MissedCountAfterPlay(ids: seq<string>)
    requires forall k :: 0 <= k < |ids| ==> ids[k] != [] && ',' !in ids[k]
    ensures MissedCount(Some(EncodeWrong(ids))) == |ids|
  {
    WrongIdsRoundTrip(ids);
  }

  const FailedSuffix: string := "-failed"

  predicate EndsWith(s: string, t: string) {
    |t| <= |s| && s[|s| - |t|..] == t
  }

  /** `id.replace(/-failed$/, '') + '-failed'`. */
  function TempId(id: string): (r: string)
    ensures EndsWith(r, FailedSuffix)
    ensures EndsWith(id, FailedSuffix) ==> r == id
    ensures !EndsWith(id, FailedSuffix) ==> r == id + FailedSuffix
  {
    var base := if EndsWith(id, FailedSuffix) then id[..|id| - |FailedSuffix|] else id;
    assert EndsWith(id, FailedSuffix) ==> id == base + FailedSuffix;
    base + FailedSuffix
  }

  /** Retrying a retry reuses its id. */
  lemma TempIdIdempotent(id: string)
    ensures TempId(TempId(id)) == TempId(id)
  {
  }

  /** `quiz.questions.filter(q => wrong.includes(q.id))`. */
  function Failed(qs: seq<PlayState.PlayQuestion>, wrong: seq<string>): (r: seq<PlayState.PlayQuestion>)
    ensures forall q :: q in r <==> q in qs && q.id in wrong
    ensures IsSubsequence(r, qs)
  {
    FilterKeepsOrder(qs, (q: PlayState.PlayQuestion) => q.id in wrong);
    Filter(qs, (q: PlayState.PlayQuestion) => q.id in wrong)
  }

  /**
   * `handleRetryWrong`: nothing without wrong ids or when none names a question
   * of the quiz; otherwise the temporary quiz with the retry id, the name
   * marked as failed, and exactly the failed questions.
   */
  function RetryWrong(quiz: Quiz, wrong: seq<string>): (r: Option<Quiz>)
    ensures r.None? <==> forall k :: 0 <= k < |quiz.questions| ==> quiz.questions[k].id !in wrong
    ensures r.Some? ==>
              && r.value.id == TempId(quiz.id)
              && r.value.name == quiz.name + " • Failed"
              && (forall q :: q in r.value.questions <==> q in quiz.questions && q.id in wrong)
              && IsSubsequence(r.value.questions, quiz.questions)
  {
    if |wrong| == 0 then None
    else
      var failed := Failed(quiz.questions, wrong);
      assert failed != [] ==> failed[0] in failed;
      if |failed| == 0 then None
      else Some(Quiz(TempId(quiz.id), quiz.name + " • Failed", failed))
  }
}
