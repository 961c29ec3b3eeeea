/**
 * The browser's record of the user's reactions: which endpoint a change of
 * reaction is sent to, how the answer is stored per quiz, and how the stored
 * record is read back when the page loads.
 */
module Reactions {
  import opened Wrappers
  import opened StoredJson
  import opened Votes

  /** `recordReaction`'s choice of endpoint; `None` when it would post to a path no route serves (`previous` neither like nor dislike). */
  function EndpointFor(current: Reaction, previous: Reaction): (e: Option<Endpoint>)
    ensures e == Some(LikeEndpoint) <==> current == Like || (current != Dislike && previous == Like)
    ensures e == Some(DislikeEndpoint) <==> current == Dislike || (current != Like && previous == Dislike)
  {
    if current == Like then Some(LikeEndpoint)
    else if current == Dislike then Some(DislikeEndpoint)
    else if previous == Like then Some(LikeEndpoint)
    else if previous == Dislike then Some(DislikeEndpoint)
    else None
  }

  /** 1 when `r` is `x`, else 0. */
  function Indicator(r: Reaction, x: Reaction): int {
    if r == x then 1 else 0
  }

  predicate Known(r: Reaction) {
    r == NoReaction || r == Like || r == Dislike
  }

  /**
   * Client and server together: for any change between none, like and dislike,
   * the endpoint the client picks moves each counter by exactly the change in this
   * user's contribution, provided the counter it lowers is positive.
   */
  lemma ReactionChangeDelta(c: Counters, previous: Reaction, current: Reaction)
    requires Known(previous) && Known(current) && previous != current
    requires previous == Like ==> c.likes > 0
    requires previous == Dislike ==> c.dislikes > 0
    ensures EndpointFor(current, previous).Some?
    ensures var after := Serve(c, Request(EndpointFor(current, previous).value, previous, current));
            && after.likes == c.likes + Indicator(current, Like) - Indicator(previous, Like)
            && after.dislikes == c.dislikes + Indicator(current, Dislike) - Indicator(previous, Dislike)
  {
  }

  /** The server's JSON answer of the like and dislike endpoints: `{"likes": …, "dislikes": …}`. */
  function CountersBody(c: Counters): map<string, Json> {
    map["likes" := JNumber(c.likes), "dislikes" := JNumber(c.dislikes)]
  }

  /** `{[k]: body[k]}` when the body has the property, and nothing when it reads as `undefined`. */
  function Copied(body: map<string, Json>, k: string): map<string, Json> {
    if k in body then map[k := body[k]] else map[]
  }

  /**
   * What `recordReaction` stores for a quiz: the reaction sent, the body's
   * `likes` and `dislikes` (a property the body lacks is `undefined`, and is
   * left out here as `JSON.stringify` leaves it out), and the time.
   */
  function RecordJson(current: Reaction, body: map<string, Json>, now: int): Json {
    JObject(map["userReaction" := ReactionJson(current), "reactedAt" := JNumber(now)] + Copied(body, "likes") + Copied(body, "dislikes"))
  }

  /** The reaction as `JSON.stringify` stores `currentReaction`: `null`, or the string that was sent. */
  function ReactionJson(r: Reaction): Json {
    match r
    case NoReaction => JNull
    case Like => JString("like")
    case Dislike => JString("dislike")
    case OtherReaction(text) => JString(text)
  }

  /** The reactions state: quiz id to stored record; `None` is a key whose value is `undefined`. */
  type ReactionState = map<string, Option<Json>>

  /**
   * `recordReaction`: nothing without a quiz id (`''` stands for any falsy
   * id); nothing either when the request fails or its body is not JSON
   * (`answer` is `None`: `res.json()` rejects before the state is set);
   * otherwise the answer's object is recorded under that id, whatever the
   * response status.
   */
  function RecordReaction(state: ReactionState, quizId: string, current: Reaction, answer: Option<map<string, Json>>, now: int): (r: ReactionState)
    ensures quizId == "" || answer.None? ==> r == state
    ensures quizId != "" && answer.Some? ==>
              && quizId in r && r[quizId].Some? && r[quizId].value.JObject?
              && var fields := r[quizId].value.fields;
              && fields.Keys <= {"userReaction", "likes", "dislikes", "reactedAt"}
              && "userReaction" in fields && fields["userReaction"] == ReactionJson(current)
              && "reactedAt" in fields && fields["reactedAt"] == JNumber(now)
              && ("likes" in fields <==> "likes" in answer.value)
              && ("likes" in answer.value ==> fields["likes"] == answer.value["likes"])
              && ("dislikes" in fields <==> "dislikes" in answer.value)
              && ("dislikes" in answer.value ==> fields["dislikes"] == answer.value["dislikes"])
    ensures forall k :: k != quizId ==> (k in r <==> k in state) && (k in r ==> r[k] == state[k])
  {
    if quizId == "" || answer.None? then state else state[quizId := Some(RecordJson(current, answer.value, now))]
  }

  /** The record stored after a reaction change holds exactly the counters the server computed for it. */
  lemma RecordHoldsServerCounters(state: ReactionState, quizId: string, c: Counters, previous: Reaction, current: Reaction, now: int)
    requires quizId != "" && EndpointFor(current, previous).Some?
    ensures var answer := Serve(c, Request(EndpointFor(current, previous).value, previous, current));
            var r := RecordReaction(state, quizId, current, Some(CountersBody(answer)), now);
            r[quizId].value.fields["likes"] == JNumber(answer.likes) && r[quizId].value.fields["dislikes"] == JNumber(answer.dislikes)
  {
  }

  /**
   * An error object such as `{"detail": "Not found."}` is still recorded: the
   * reaction and the time are stored, and both counters read as `undefined`.
   */
  lemma ErrorBodyLosesCounters(state: ReactionState, quizId: string, current: Reaction, detail: string, now: int)
    requires quizId != ""
    ensures var r := RecordReaction(state, quizId, current, Some(map["detail" := JString(detail)]), now);
            && r[quizId].value.fields.Keys == {"userReaction", "reactedAt"}
            && r[quizId].value.fields["userReaction"] == ReactionJson(current)
  {
    var fields := RecordJson(current, map["detail" := JString(detail)], now).fields;
    assert "likes" !in fields && "dislikes" !in fields;
  }

  // ---------------------------------------------------------------------------
  // readInitialReactions

  /** One stored value on load: objects with a `value` property stay, bare 'like' / 'dislike' are wrapped, the rest become `undefined`. */
  function NormaliseReaction(v: Json, now: int): (r: Option<Json>)
    ensures v.JObject? && "value" in v.fields ==> r == Some(v)
    ensures (v == JString("like") || v == JString("dislike")) ==> r == Some(JObject(map["value" := v, "reactedAt" := JNumber(now)]))
    ensures r.Some? ==> (v.JObject? && "value" in v.fields) || v == JString("like") || v == JString("dislike")
  {
    if v.JObject? && "value" in v.fields then Some(v)
    else if v == JString("like") || v == JString("dislike") then Some(JObject(map["value" := v, "reactedAt" := JNumber(now)]))
    else None
  }

  /**
   * `readInitialReactions`: `{}` without a window, without stored text, when the
   * text does not parse or when `Object.entries` throws; otherwise each entry
   * normalised under the same key.
   */
  function ReadInitialReactions(hasWindow: bool, stored: Stored, now: int): (r: ReactionState)
    ensures !hasWindow || !stored.Parsed? || stored.value.JNull? ==> r == map[]
    ensures hasWindow && stored.Parsed? && stored.value.JObject? ==>
              r.Keys == stored.value.fields.Keys
              && forall k :: k in r ==> r[k] == NormaliseReaction(stored.value.fields[k], now)
  {
    if !hasWindow then map[]
    else match stored
      case NothingStored => map[]
      case Unparsable => map[]
      case Parsed(v) =>
        match Entries(v)
        case None => map[]
        case Some(entries) => map k | k in entries :: NormaliseReaction(entries[k], now)
  }

  /** A record written by `recordReaction` has no `value` property, so reading it back on the next load gives `undefined`. */
  lemma RecordedReactionNotReadBack(current: Reaction, body: map<string, Json>, now: int, later: int)
    ensures NormaliseReaction(RecordJson(current, body, now), later) == None
  {
    assert "value" !in RecordJson(current, body, now).fields;
  }
}
