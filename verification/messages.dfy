/**
 * The messages context: the unread-message counters (in total and per
 * sender) built from the fetched message list, the count of received quiz
 * shares not yet viewed, the reset on signing out, and the choice of messages
 * a conversation marks as read.  The fetched lists are inputs; a failed
 * request is `None` and leaves the counters as they were.
 */
module Messages {
  import opened Wrappers
  import opened Rows

  datatype Message = Message(id: int, sender: int, recipient: int, isRead: bool)

  datatype Share = Share(id: int, isViewed: bool)

  /** One property of `unreadBySender`: a sender and how many unread messages came from it. */
  datatype Tally = Tally(sender: int, count: nat)

  /**
   * The context's state.  `unreadByUser` lists the senders in the order their
   * first unread message comes; a JavaScript object would enumerate these
   * integer keys in ascending order instead; the count per sender, which is
   * what this model states, does not depend on that order.
   */
  datatype Counters = Counters(unreadCount: nat, unreadByUser: seq<Tally>, unviewedQuizzesCount: nat)

  /** `unreadByUser[sender] || 0`. */
  function Lookup(ts: seq<Tally>, sender: int): nat {
    if |ts| == 0 then 0
    else if ts[0].sender == sender then ts[0].count
    else Lookup(ts[1..], sender)
  }

  /** The sum of the tallies. */
  function Total(ts: seq<Tally>): nat {
    if |ts| == 0 then 0 else ts[0].count + Total(ts[1..])
  }

  /** A sender appears at most once, as an object's property names do. */
  predicate SendersDistinct(ts: seq<Tally>) {
    forall i, j :: 0 <= i < j < |ts| ==> ts[i].sender != ts[j].sender
  }

  predicate HasTally(ts: seq<Tally>, sender: int) {
    exists k :: 0 <= k < |ts| && ts[k].sender == sender
  }

  /** `unreadBySender[senderId] = (unreadBySender[senderId] || 0) + 1`: a new sender is added last. */
  function Bump(ts: seq<Tally>, sender: int): (r: seq<Tally>)
    ensures Lookup(r, sender) == Lookup(ts, sender) + 1
    ensures forall o :: o != sender ==> Lookup(r, o) == Lookup(ts, o)
    ensures Total(r) == Total(ts) + 1
    ensures forall o :: HasTally(r, o) <==> HasTally(ts, o) || o == sender
    ensures (forall k :: 0 <= k < |ts| ==> ts[k].count > 0) ==> forall k :: 0 <= k < |r| ==> r[k].count > 0
    ensures SendersDistinct(ts) ==> SendersDistinct(r)
  {
    if |ts| == 0 then [Tally(sender, 1)]
    else if ts[0].sender == sender then
      FrontBumped(ts);
      [ts[0].(count := ts[0].count + 1)] + ts[1..]
    else
      var u := Bump(ts[1..], sender);
      assert ts == [ts[0]] + ts[1..];
      ConsBumpedCounts(ts[0], ts[1..], u, sender);
      ConsBumpedSenders(ts[0], ts[1..], u, sender);
      [ts[0]] + u
  }

  /** Raising the first tally's count by one, as a bump of its sender does. */
  lemma FrontBumped(ts: seq<Tally>)
    requires |ts| > 0
    ensures var r := [ts[0].(count := ts[0].count + 1)] + ts[1..];
            var sender := ts[0].sender;
            && Lookup(r, sender) == Lookup(ts, sender) + 1
            && (forall o :: o != sender ==> Lookup(r, o) == Lookup(ts, o))
            && Total(r) == Total(ts) + 1
            && (forall o :: HasTally(r, o) <==> HasTally(ts, o))
            && ((forall k :: 0 <= k < |ts| ==> ts[k].count > 0) ==> forall k :: 0 <= k < |r| ==> r[k].count > 0)
            && (SendersDistinct(ts) ==> SendersDistinct(r))
  {
    var r := [ts[0].(count := ts[0].count + 1)] + ts[1..];
    assert r[1..] == ts[1..];
    assert forall k :: 0 < k < |r| ==> r[k] == ts[k];
    forall o | HasTally(ts, o) ensures HasTally(r, o) {
      var k :| 0 <= k < |ts| && ts[k].sender == o;
      assert r[k].sender == o;
    }
  }

  /** The counts of a bump behind a tally of another sender. */
  lemma ConsBumpedCounts(h: Tally, t: seq<Tally>, u: seq<Tally>, sender: int)
    requires h.sender != sender
    requires Lookup(u, sender) == Lookup(t, sender) + 1
    requires forall o :: o != sender ==> Lookup(u, o) == Lookup(t, o)
    requires Total(u) == Total(t) + 1
    requires (forall k :: 0 <= k < |t| ==> t[k].count > 0) ==> forall k :: 0 <= k < |u| ==> u[k].count > 0
    ensures Lookup([h] + u, sender) == Lookup([h] + t, sender) + 1
    ensures forall o :: o != sender ==> Lookup([h] + u, o) == Lookup([h] + t, o)
    ensures Total([h] + u) == Total([h] + t) + 1
    ensures (forall k :: 0 <= k < |[h] + t| ==> ([h] + t)[k].count > 0) ==> forall k :: 0 <= k < |[h] + u| ==> ([h] + u)[k].count > 0
  {
    assert ([h] + u)[1..] == u && ([h] + t)[1..] == t;
    assert forall k :: 0 < k < |[h] + t| ==> ([h] + t)[k] == t[k - 1];
    assert forall k :: 0 < k < |[h] + u| ==> ([h] + u)[k] == u[k - 1];
  }

  /** The senders of a bump behind a tally of another sender. */
  lemma ConsBumpedSenders(h: Tally, t: seq<Tally>, u: seq<Tally>, sender: int)
    requires h.sender != sender
    requires forall o :: HasTally(u, o) <==> HasTally(t, o) || o == sender
    requires SendersDistinct(t) ==> SendersDistinct(u)
    ensures forall o :: HasTally([h] + u, o) <==> HasTally([h] + t, o) || o == sender
    ensures SendersDistinct([h] + t) ==> SendersDistinct([h] + u)
  {
    HasTallyCons(h, u);
    HasTallyCons(h, t);
    DistinctCons(h, u);
    DistinctCons(h, t);
  }

  /** A sender has a tally in front of `t` iff it is the first tally's sender or has one in `t`. */
  lemma HasTallyCons(h: Tally, t: seq<Tally>)
    ensures forall o :: HasTally([h] + t, o) <==> o == h.sender || HasTally(t, o)
  {
    var r := [h] + t;
    forall o | HasTally(r, o) ensures o == h.sender || HasTally(t, o) {
      var k :| 0 <= k < |r| && r[k].sender == o;
      if k > 0 { assert t[k - 1].sender == o; }
    }
    forall o | HasTally(t, o) ensures HasTally(r, o) {
      var k :| 0 <= k < |t| && t[k].sender == o;
      assert r[k + 1].sender == o;
    }
    assert r[0].sender == h.sender;
  }

  /** Senders in front of `t` are distinct iff the first one has no other tally and those of `t` are distinct. */
  lemma DistinctCons(h: Tally, t: seq<Tally>)
    ensures SendersDistinct([h] + t) <==> !HasTally(t, h.sender) && SendersDistinct(t)
  {
    var r := [h] + t;
    assert r[0] == h;
    if SendersDistinct(r) {
      forall k | 0 <= k < |t| ensures t[k].sender != h.sender {
        assert r[k + 1] == t[k];
      }
      forall i, j | 0 <= i < j < |t| ensures t[i].sender != t[j].sender {
        assert r[i + 1] == t[i] && r[j + 1] == t[j];
      }
    }
    if !HasTally(t, h.sender) && SendersDistinct(t) {
      forall i, j | 0 <= i < j < |r| ensures r[i].sender != r[j].sender {
        assert r[j] == t[j - 1];
        if i > 0 { assert r[i] == t[i - 1]; }
      }
    }
  }

  /** The `forEach` over the unread messages, starting from `acc`. */
  function GroupFrom(ms: seq<Message>, acc: seq<Tally>): seq<Tally>
    decreases |ms|
  {
    if |ms| == 0 then acc else GroupFrom(ms[1..], Bump(acc, ms[0].sender))
  }

  function SentBy(sender: int): Message -> bool {
    (m: Message) => m.sender == sender
  }

  /** Some message of `ms` came from `sender`. */
  predicate SomeFrom(ms: seq<Message>, sender: int) {
    exists k :: 0 <= k < |ms| && ms[k].sender == sender
  }

  lemma SomeFromTail(ms: seq<Message>)
    requires |ms| > 0
    ensures forall s :: SomeFrom(ms, s) <==> s == ms[0].sender || SomeFrom(ms[1..], s)
  {
    forall s | SomeFrom(ms, s) ensures s == ms[0].sender || SomeFrom(ms[1..], s) {
      var k :| 0 <= k < |ms| && ms[k].sender == s;
      if k > 0 { assert ms[1..][k - 1].sender == s; }
    }
    forall s | SomeFrom(ms[1..], s) ensures SomeFrom(ms, s) {
      var k :| 0 <= k < |ms[1..]| && ms[1..][k].sender == s;
      assert ms[k + 1].sender == s;
    }
  }

  /** What the grouping adds to the tallies it starts from. */
  lemma {:induction false} GroupFromCounts(ms: seq<Message>, acc: seq<Tally>)
    ensures var r := GroupFrom(ms, acc);
            && Total(r) == Total(acc) + |ms|
            && (forall s :: Lookup(r, s) == Lookup(acc, s) + Count(ms, SentBy(s)))
            && (forall s :: HasTally(r, s) <==> HasTally(acc, s) || SomeFrom(ms, s))
            && ((forall k :: 0 <= k < |acc| ==> acc[k].count > 0) ==> forall k :: 0 <= k < |r| ==> r[k].count > 0)
            && (SendersDistinct(acc) ==> SendersDistinct(r))
    decreases |ms|
  {
    if |ms| > 0 {
      var b := Bump(acc, ms[0].sender);
      GroupFromCounts(ms[1..], b);
      SomeFromTail(ms);
    }
  }

  /** The messages addressed to `me` that are not read, in list order. */
  function UnreadFor(msgs: seq<Message>, me: int): (r: seq<Message>)
    ensures forall m :: m in r <==> m in msgs && m.recipient == me && !m.isRead
    ensures IsSubsequence(r, msgs)
  {
    FilterKeepsOrder(msgs, (m: Message) => m.recipient == me && !m.isRead);
    Filter(msgs, (m: Message) => m.recipient == me && !m.isRead)
  }

  /**
   * `loadUnreadCounts`: nothing without a user or when the request fails;
   * otherwise the number of unread messages addressed to the user, and per
   * sender how many of them it sent.
   */
  function LoadUnreadCounts(c: Counters, user: Option<int>, response: Option<seq<Message>>): (r: Counters)
    ensures user.None? || response.None? ==> r == c
    ensures user.Some? && response.Some? ==>
              var unread := UnreadFor(response.value, user.value);
              && r.unviewedQuizzesCount == c.unviewedQuizzesCount
              && r.unreadCount == |unread|
              && SendersDistinct(r.unreadByUser)
              && (forall k :: 0 <= k < |r.unreadByUser| ==> r.unreadByUser[k].count > 0)
              && (forall s :: Lookup(r.unreadByUser, s) == Count(unread, SentBy(s)))
              && (forall s :: HasTally(r.unreadByUser, s) <==> SomeFrom(unread, s))
  {
    if user.None? || response.None? then c
    else
      var unread := UnreadFor(response.value, user.value);
      GroupFromCounts(unread, []);
      c.(unreadCount := |unread|, unreadByUser := GroupFrom(unread, []))
  }

  /** The per-sender counts add up to the total unread count. */
  lemma UnreadBySenderSums(c: Counters, user: Option<int>, response: Option<seq<Message>>)
    requires Total(c.unreadByUser) == c.unreadCount
    ensures var r := LoadUnreadCounts(c, user, response);
            Total(r.unreadByUser) == r.unreadCount
  {
    if user.Some? && response.Some? {
      GroupFromCounts(UnreadFor(response.value, user.value), []);
    }
  }

  /** `loadUnviewedQuizzes`: the received shares not yet viewed; nothing without a user or when the request fails. */
  function LoadUnviewedQuizzes(c: Counters, user: Option<int>, response: Option<seq<Share>>): (r: Counters)
    ensures user.None? || response.None? ==> r == c
    ensures user.Some? && response.Some? ==>
              var shares := response.value;
              && r.unreadCount == c.unreadCount && r.unreadByUser == c.unreadByUser
              && r.unviewedQuizzesCount == |Filter(shares, Unviewed)|
              && (r.unviewedQuizzesCount == 0 <==> forall k :: 0 <= k < |shares| ==> shares[k].isViewed)
              && (r.unviewedQuizzesCount == |shares| <==> forall k :: 0 <= k < |shares| ==> !shares[k].isViewed)
  {
    if user.None? || response.None? then c
    else
      var shares := response.value;
      var n := UnviewedCount(shares);
      c.(unviewedQuizzesCount := n)
  }

  /** `share => !share.is_viewed`. */
  predicate Unviewed(s: Share) {
    !s.isViewed
  }

  /** `shares.filter(share => !share.is_viewed).length`, counted share by share. */
  function UnviewedCount(shares: seq<Share>): (n: nat)
    ensures n == |Filter(shares, Unviewed)|
    ensures n <= |shares|
    ensures n == 0 <==> forall k :: 0 <= k < |shares| ==> shares[k].isViewed
    ensures n == |shares| <==> forall k :: 0 <= k < |shares| ==> !shares[k].isViewed
  {
    if |shares| == 0 then 0
    else
      var rest := UnviewedCount(shares[1..]);
      assert forall k :: 0 < k < |shares| ==> shares[k] == shares[1..][k - 1];
      (if shares[0].isViewed then 0 else 1) + rest
  }

  /** Signing out: every counter back to zero and no senders. */
  function SignedOut(c: Counters): (r: Counters)
    ensures r.unreadCount == 0 && r.unviewedQuizzesCount == 0
    ensures forall s :: Lookup(r.unreadByUser, s) == 0 && !HasTally(r.unreadByUser, s)
  {
    Counters(0, [], 0)
  }

  /**
   * `markConversationAsRead`: the ids of the conversation's messages that are
   * posted as read, in order: those addressed to the user and still unread;
   * none without a user or when the conversation cannot be fetched.
   */
  function MarkConversationAsRead(user: Option<int>, conversation: Option<seq<Message>>): (r: seq<int>)
    ensures user.None? || conversation.None? ==> r == []
    ensures user.Some? && conversation.Some? ==>
              && |r| <= |conversation.value|
              && forall id :: id in r <==> exists m :: m in conversation.value && m.id == id && m.recipient == user.value && !m.isRead
  {
    if user.None? || conversation.None? then []
    else
      var unread := UnreadFor(conversation.value, user.value);
      var ids := seq(|unread|, k requires 0 <= k < |unread| => unread[k].id);
      assert forall id :: id in ids <==> exists m :: m in unread && m.id == id by {
        forall id | id in ids ensures exists m :: m in unread && m.id == id {
          var k :| 0 <= k < |ids| && ids[k] == id;
          assert unread[k] in unread;
        }
        forall id | exists m :: m in unread && m.id == id ensures id in ids {
          var m :| m in unread && m.id == id;
          var k :| 0 <= k < |unread| && unread[k] == m;
          assert ids[k] == id;
        }
      }
      ids
  }

  /** Once the conversation's messages are marked read, none of them counts as unread for the user. */
  lemma MarkedLeaveNoneUnread(me: int, conversation: seq<Message>)
    ensures var posted := MarkConversationAsRead(Some(me), Some(conversation));
            var after := seq(|conversation|, k requires 0 <= k < |conversation| =>
                          if conversation[k].id in posted then conversation[k].(isRead := true) else conversation[k]);
            UnreadFor(after, me) == []
  {
  }
}
