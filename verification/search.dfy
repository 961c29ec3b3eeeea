/**
 * The search bubble: the typed term is trimmed and lower-cased, and the first
 * eight quizzes whose lower-cased name or some lower-cased tag contains it are
 * offered; submitting opens the first of them.
 */
module Search {
  import opened Wrappers
  import opened JsText
  import opened Rows

  /** A quiz of the list as the bubble reads it. */
  datatype Quiz = Quiz(id: string, name: string, tags: seq<string>)

  /** The most matches offered. */
  const MaxMatches: nat := 8

  /** `searchTerm.trim().toLowerCase()`; `lower` stands for `toLowerCase`. */
  function NormalisedTerm(term: string, lower: string -> string): string {
    lower(Trim(term))
  }

  /** The name or some tag, lower-cased, contains the term; the author is not searched. */
  predicate Matches(q: Quiz, t: string, lower: string -> string) {
    || Contains(lower(q.name), t)
    || exists k :: 0 <= k < |q.tags| && Contains(lower(q.tags[k]), t)
  }

  function MatchesTerm(t: string, lower: string -> string): Quiz -> bool {
    (q: Quiz) => Matches(q, t, lower)
  }

  /** The first `n` quizzes that match, in list order. */
  function TakeMatches(qs: seq<Quiz>, t: string, lower: string -> string, n: nat): (r: seq<Quiz>)
    ensures |r| <= n
    decreases |qs|
  {
    if n == 0 || |qs| == 0 then []
    else if Matches(qs[0], t, lower) then [qs[0]] + TakeMatches(qs[1..], t, lower, n - 1)
    else TakeMatches(qs[1..], t, lower, n)
  }

  function Min(a: nat, b: nat): nat {
    if a <= b then a else b
  }

  /** Taking matches one by one gives the leading part of the whole filtered list. */
  lemma {:induction false} TakeMatchesIsFilterPrefix(qs: seq<Quiz>, t: string, lower: string -> string, n: nat)
    ensures var all := Filter(qs, MatchesTerm(t, lower));
            TakeMatches(qs, t, lower, n) == all[..Min(n, |all|)]
    decreases |qs|
  {
    if n > 0 && |qs| > 0 {
      var p := MatchesTerm(t, lower);
      var rest := Filter(qs[1..], p);
      if Matches(qs[0], t, lower) {
        TakeMatchesIsFilterPrefix(qs[1..], t, lower, n - 1);
        assert Filter(qs, p) == [qs[0]] + rest;
        assert ([qs[0]] + rest)[..Min(n, |rest| + 1)] == [qs[0]] + rest[..Min(n - 1, |rest|)];
      } else {
        TakeMatchesIsFilterPrefix(qs[1..], t, lower, n);
        assert Filter(qs, p) == rest;
      }
    }
  }

  /** With room left, some quiz matches exactly when something is taken, and the first taken is the first match. */
  lemma {:induction false} TakeMatchesFirst(qs: seq<Quiz>, t: string, lower: string -> string, n: nat)
    requires n > 0
    ensures var r := TakeMatches(qs, t, lower, n);
            && (|r| > 0 <==> exists k :: 0 <= k < |qs| && Matches(qs[k], t, lower))
            && (|r| > 0 ==> exists k :: 0 <= k < |qs| && r[0] == qs[k] && Matches(qs[k], t, lower)
                                         && forall j :: 0 <= j < k ==> !Matches(qs[j], t, lower))
    decreases |qs|
  {
    if |qs| > 0 && !Matches(qs[0], t, lower) {
      TakeMatchesFirst(qs[1..], t, lower, n);
      var r := TakeMatches(qs[1..], t, lower, n);
      assert (exists k :: 0 <= k < |qs| && Matches(qs[k], t, lower)) ==>
               exists k :: 0 <= k < |qs[1..]| && Matches(qs[1..][k], t, lower);
      if |r| > 0 {
        var k :| 0 <= k < |qs[1..]| && r[0] == qs[1..][k] && Matches(qs[1..][k], t, lower)
                 && forall j :: 0 <= j < k ==> !Matches(qs[1..][j], t, lower);
        assert forall j :: 0 < j < k + 1 ==> qs[j] == qs[1..][j - 1];
      }
    }
  }

  /**
   * `matches`: nothing for a term that is empty after normalising; otherwise
   * the first eight matching quizzes in list order, or all of them when fewer
   * match.
   */
  function SearchMatches(qs: seq<Quiz>, term: string, lower: string -> string): (r: seq<Quiz>)
    ensures var t := NormalisedTerm(term, lower);
            && (t == [] ==> r == [])
            && |r| <= MaxMatches
            && (forall x :: x in r ==> x in qs && Matches(x, t, lower))
            && IsSubsequence(r, qs)
            && (t != [] && |r| < MaxMatches ==> forall x :: x in qs && Matches(x, t, lower) ==> x in r)
    ensures var t := NormalisedTerm(term, lower);
            var all := Filter(qs, MatchesTerm(t, lower));
            t != [] ==> r == all[..Min(MaxMatches, |all|)]
  {
    var t := NormalisedTerm(term, lower);
    if t == [] then [] else
      var r := TakeMatches(qs, t, lower, MaxMatches);
      var all := Filter(qs, MatchesTerm(t, lower));
      TakeMatchesIsFilterPrefix(qs, t, lower, MaxMatches);
      FilterKeepsOrder(qs, MatchesTerm(t, lower));
      PrefixKeepsOrder(all, qs, Min(MaxMatches, |all|));
      assert forall x :: x in r ==> x in all;
      r
  }

  /**
   * `handleSubmit`: the first offered quiz is opened, when there is one.
   */
  function SubmitTarget(matches: seq<Quiz>): (r: Option<string>)
    ensures r.Some? <==> |matches| > 0
    ensures r.Some? ==> r.value == matches[0].id
  {
    if |matches| > 0 then Some(matches[0].id) else None
  }

  /** Submitting opens a quiz exactly when the normalised term is non-empty and some quiz matches it, and it opens the first match in list order. */
  lemma SubmitOpensFirstMatch(qs: seq<Quiz>, term: string, lower: string -> string)
    ensures var t := NormalisedTerm(term, lower);
            var r := SubmitTarget(SearchMatches(qs, term, lower));
            && (r.Some? <==> t != [] && exists k :: 0 <= k < |qs| && Matches(qs[k], t, lower))
            && (r.Some? ==> exists k :: 0 <= k < |qs| && r.value == qs[k].id && Matches(qs[k], t, lower)
                                         && forall j :: 0 <= j < k ==> !Matches(qs[j], t, lower))
  {
    var t := NormalisedTerm(term, lower);
    if t != [] {
      TakeMatchesFirst(qs, t, lower, MaxMatches);
    }
  }
}
