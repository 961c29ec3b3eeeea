/**
 * The like / dislike counters of a quiz on the server.  A request carries the
 * user's previous and current reaction; the `like` endpoint moves the counters
 * for the three changes that involve a like, the `dislike` endpoint for the three
 * that involve a dislike, and both never take a counter below zero.
 */
module Votes {

  /**
   * A reaction as sent in the request body: `null` / absent, "like", "dislike",
   * or any other string, carried as sent (`text` is neither "like" nor
   * "dislike"; a value that is not a string is not modelled).
   */
  datatype Reaction = NoReaction | Like | Dislike | OtherReaction(text: string)

  datatype Counters = Counters(likes: int, dislikes: int)

  function Max0(x: int): int {
    if x < 0 then 0 else x
  }

  /** The `like` action: the counters it saves, which are also the ones it responds with. */
  function LikeAction(c: Counters, previous: Reaction, current: Reaction): Counters {
    if previous == Like && current == NoReaction then c.(likes := Max0(c.likes - 1))
    else if previous == Dislike && current == Like then Counters(c.likes + 1, Max0(c.dislikes - 1))
    else if previous == NoReaction && current == Like then c.(likes := c.likes + 1)
    else c
  }

  /** The `dislike` action: the counters it saves, which are also the ones it responds with. */
  function DislikeAction(c: Counters, previous: Reaction, current: Reaction): Counters {
    if previous == Dislike && current == NoReaction then c.(dislikes := Max0(c.dislikes - 1))
    else if previous == Like && current == Dislike then Counters(Max0(c.likes - 1), c.dislikes + 1)
    else if previous == NoReaction && current == Dislike then c.(dislikes := c.dislikes + 1)
    else c
  }

  predicate NonNegative(c: Counters) {
    c.likes >= 0 && c.dislikes >= 0
  }

  function Swap(c: Counters): Counters {
    Counters(c.dislikes, c.likes)
  }

  function Mirror(r: Reaction): Reaction {
    match r
    case Like => Dislike
    case Dislike => Like
    case other => other
  }

  /** The dislike endpoint is the like endpoint with the roles of likes and dislikes exchanged. */
  lemma DislikeMirrorsLike(c: Counters, previous: Reaction, current: Reaction)
    ensures DislikeAction(c, previous, current) == Swap(LikeAction(Swap(c), Mirror(previous), Mirror(current)))
  {
  }

  /**
   * Neither endpoint takes a counter below zero, and, on non-negative counters,
   * the like endpoint never adds a dislike nor the dislike endpoint a like (a
   * negative counter is raised to zero by the floor).
   */
  lemma ActionsKeepCounters(c: Counters, previous: Reaction, current: Reaction)
    ensures NonNegative(c) ==> NonNegative(LikeAction(c, previous, current)) && NonNegative(DislikeAction(c, previous, current))
    ensures c.dislikes >= 0 ==> LikeAction(c, previous, current).dislikes <= c.dislikes
    ensures c.likes >= 0 ==> DislikeAction(c, previous, current).likes <= c.likes
  {
  }

  /** One request to either endpoint. */
  datatype Endpoint = LikeEndpoint | DislikeEndpoint
  datatype Request = Request(endpoint: Endpoint, previous: Reaction, current: Reaction)

  function Serve(c: Counters, r: Request): Counters {
    match r.endpoint
    case LikeEndpoint => LikeAction(c, r.previous, r.current)
    case DislikeEndpoint => DislikeAction(c, r.previous, r.current)
  }

  /** The counters after serving the requests in order. */
  function ServeAll(c: Counters, rs: seq<Request>): Counters
    decreases |rs|
  {
    if |rs| == 0 then c else ServeAll(Serve(c, rs[0]), rs[1..])
  }

  /** Starting from non-negative counters, no sequence of requests makes a counter negative. */
  lemma {:induction false} ServeAllNonNegative(c: Counters, rs: seq<Request>)
    requires NonNegative(c)
    ensures NonNegative(ServeAll(c, rs))
    decreases |rs|
  {
    if |rs| > 0 {
      ActionsKeepCounters(c, rs[0].previous, rs[0].current);
      ServeAllNonNegative(Serve(c, rs[0]), rs[1..]);
    }
  }

  /** Liking and then taking the like back restores both counters. */
  lemma LikeThenUnlike(c: Counters)
    requires c.likes >= 0
    ensures LikeAction(LikeAction(c, NoReaction, Like), Like, NoReaction) == c
  {
  }
}
