/**
 * JVMChannel: two channel objects in one process wired to each other. Each
 * side keeps the requests it sent and still waits an answer for, keyed by
 * message id, delivers messages to its peer, and fails every outstanding
 * request when it is closed.
 *
 * The two executors of a side run each submitted job at once, in submission
 * order; their shutdown at the end of close() is the `shutDown` flag, after
 * which a submission is rejected. The receiver and the callbacks are code
 * outside the channel: the receiver is the record `received` of what it was
 * handed plus `receiverThrows`, which says whether it throws; a callback is
 * an identity, and `fired` records the callback invocations in order.
 */
module JvmChannels {
  import opened Wrappers
  import opened Messages
  import opened Sequences

  /** The identity of a SendResultCallback or a ReplyCallback. */
  type Callback = nat

  /** The exception a reply callback receives. */
  datatype ChannelError = NotActive | ChannelClosed

  /** One invocation of a callback. */
  datatype CallbackEvent =
    | MessageSent(sendCallback: Callback, message: Message)
    | ReplyReceived(replyCallback: Callback, original: Message, answer: Option<Message>, error: Option<ChannelError>)

  /** How a send method returns to its caller: normally, or with a RejectedExecutionException. */
  datatype Submit = Returned | Rejected

  /** The state of one side, as a value. */
  datatype Side = Side(
    active: bool,
    pending: map<JString, Callback>,
    source: map<JString, Message>,
    shutDown: bool,
    received: seq<Message>,
    fired: seq<CallbackEvent>)

  /** The two pending maps have the same keys, and each original message is stored under its own id. */
  predicate Correlated(pending: map<JString, Callback>, source: map<JString, Message>)
  {
    pending.Keys == source.Keys && forall id :: id in source ==> source[id].messageId == id
  }

  /** `order` lists every element of `keys` once: one iteration order of a map with those keys. */
  predicate Enumerates(order: seq<JString>, keys: set<JString>)
  {
    (forall i, j :: 0 <= i < j < |order| ==> order[i] != order[j]) &&
    (forall k :: k in order ==> k in keys) && (forall k :: k in keys ==> k in order)
  }

  /** The callback invocation close() schedules for the pending request `id`. */
  function ClosedEvent(id: JString, pending: map<JString, Callback>, source: map<JString, Message>): CallbackEvent
    requires id in pending && id in source
  {
    ReplyReceived(pending[id], source[id], None, Some(ChannelClosed))
  }

  /** The invocations close() makes when it visits the pending requests in `order`. */
  function ClosedEvents(order: seq<JString>, pending: map<JString, Callback>, source: map<JString, Message>): (evs: seq<CallbackEvent>)
    requires forall k :: k in order ==> k in pending && k in source
    ensures |evs| == |order|
    ensures forall i :: 0 <= i < |order| ==> evs[i] == ClosedEvent(order[i], pending, source)
  {
    if order == [] then []
    else
      var init := order[..|order| - 1];
      assert forall k :: k in init ==> k in order;
      ClosedEvents(init, pending, source) + [ClosedEvent(order[|order| - 1], pending, source)]
  }

  lemma EnumeratesSnoc(order: seq<JString>, keys: set<JString>, k: JString)
    requires Enumerates(order, keys) && k !in keys
    ensures Enumerates(order + [k], keys + {k})
  {
    var longer := order + [k];
    assert forall i :: 0 <= i < |order| ==> longer[i] == order[i];
    assert longer[|order|] == k;
  }

  lemma ClosedEventsSnoc(order: seq<JString>, k: JString, pending: map<JString, Callback>, source: map<JString, Message>)
    requires forall x :: x in order ==> x in pending && x in source
    requires k in pending && k in source
    ensures ClosedEvents(order + [k], pending, source) == ClosedEvents(order, pending, source) + [ClosedEvent(k, pending, source)]
  {
    assert (order + [k])[..|order|] == order;
  }

  /**
   * close() on a side: inactive, both pending maps empty, executors shut down,
   * and one "closed" failure delivered per outstanding request, in some
   * iteration order of the pending map.
   */
  ghost predicate Closed(before: Side, after: Side)
  {
    Correlated(before.pending, before.source) &&
    !after.active && after.pending == map[] && after.source == map[] && after.shutDown &&
    after.received == before.received &&
    exists order :: Enumerates(order, before.pending.Keys) &&
      after.fired == before.fired + ClosedEvents(order, before.pending, before.source)
  }

  /** The peer of a closing side is closed too, unless it was already inactive. */
  ghost predicate PeerClosed(before: Side, after: Side)
  {
    if before.active then Closed(before, after) else after == before
  }

  /**
   * handleReply: an answer to a pending request removes it from both maps and
   * calls its callback with the original and the answer; any other answer
   * changes nothing.
   */
  predicate Replied(before: Side, after: Side, answer: Message)
    requires answer.replyMessageId.Some?
  {
    var id := answer.replyMessageId.value;
    Correlated(before.pending, before.source) &&
    if id in before.pending then
      after == before.(pending := before.pending - {id}, source := before.source - {id},
                       fired := before.fired + [ReplyReceived(before.pending[id], before.source[id], Some(answer), None)])
    else after == before
  }

  /** A message with no reply id that the receiver throws on makes the receiving side close the pair. */
  predicate Closes(m: Message, throws: bool)
  {
    m.replyMessageId.None? && throws
  }

  /**
   * receiveMessageFromPeer on the receiving side: an answer goes to reply
   * handling; anything else goes to the receiver, and the side closes when
   * the receiver throws.
   */
  ghost predicate Received(before: Side, after: Side, m: Message, throws: bool)
  {
    if m.replyMessageId.Some? then Replied(before, after, m)
    else
      var handed := before.(received := before.received + [m]);
      if throws then Closed(handed, after) else after == handed
  }

  /** An enumeration of a set has one entry per element. */
  lemma {:induction false} EnumeratesCount(order: seq<JString>, keys: set<JString>)
    requires Enumerates(order, keys)
    ensures |order| == |keys|
  {
    if order != [] {
      var init, last := order[..|order| - 1], order[|order| - 1];
      assert forall i :: 0 <= i < |init| ==> init[i] == order[i] && init[i] != last;
      assert Enumerates(init, keys - {last});
      EnumeratesCount(init, keys - {last});
    }
  }

  /** Visiting every pending request once makes one invocation per pending request... */
  lemma ClosedEventsCount(order: seq<JString>, pending: map<JString, Callback>, source: map<JString, Message>)
    requires Correlated(pending, source) && Enumerates(order, pending.Keys)
    ensures |ClosedEvents(order, pending, source)| == |pending|
  {
    EnumeratesCount(order, pending.Keys);
    assert |pending| == |pending.Keys|;
  }

  /** ...fails every pending request with its own callback and original... */
  lemma ClosedEventsCover(order: seq<JString>, pending: map<JString, Callback>, source: map<JString, Message>)
    requires Correlated(pending, source) && Enumerates(order, pending.Keys)
    ensures forall id :: id in pending ==> ClosedEvent(id, pending, source) in ClosedEvents(order, pending, source)
  {
    var evs := ClosedEvents(order, pending, source);
    forall id | id in pending
      ensures ClosedEvent(id, pending, source) in evs
    {
      var k :| 0 <= k < |order| && order[k] == id;
      assert evs[k] == ClosedEvent(id, pending, source);
    }
  }

  /** ...fails nothing but pending requests... */
  lemma ClosedEventsOnlyPending(order: seq<JString>, pending: map<JString, Callback>, source: map<JString, Message>)
    requires Correlated(pending, source) && Enumerates(order, pending.Keys)
    ensures forall e :: e in ClosedEvents(order, pending, source) ==>
      e.ReplyReceived? && e.original.messageId in pending && e == ClosedEvent(e.original.messageId, pending, source)
  {
    var evs := ClosedEvents(order, pending, source);
    forall e | e in evs
      ensures e.ReplyReceived? && e.original.messageId in pending && e == ClosedEvent(e.original.messageId, pending, source)
    {
      var i :| 0 <= i < |evs| && evs[i] == e;
      assert e.original.messageId == order[i];
    }
  }

  /** ...and fails no request twice. */
  lemma ClosedEventsDistinct(order: seq<JString>, pending: map<JString, Callback>, source: map<JString, Message>)
    requires Correlated(pending, source) && Enumerates(order, pending.Keys)
    ensures var evs := ClosedEvents(order, pending, source);
      forall i, j :: 0 <= i < j < |evs| ==> evs[i] != evs[j]
  {
    var evs := ClosedEvents(order, pending, source);
    forall i, j | 0 <= i < j < |evs|
      ensures evs[i] != evs[j]
    {
      assert evs[i].original.messageId == order[i] && evs[j].original.messageId == order[j];
    }
  }

  /** close() fails each request that was pending exactly once, after the callbacks that ran before. */
  lemma CloseFailsEachOnce(before: Side, after: Side)
    requires Closed(before, after)
    ensures before.fired <= after.fired
    ensures var evs := after.fired[|before.fired|..];
      |evs| == |before.pending| &&
      (forall id :: id in before.pending ==> ClosedEvent(id, before.pending, before.source) in evs) &&
      (forall e :: e in evs ==>
         e.ReplyReceived? && e.original.messageId in before.pending && e == ClosedEvent(e.original.messageId, before.pending, before.source)) &&
      (forall i, j :: 0 <= i < j < |evs| ==> evs[i] != evs[j])
  {
    var order :| Enumerates(order, before.pending.Keys) &&
      after.fired == before.fired + ClosedEvents(order, before.pending, before.source);
    assert after.fired[|before.fired|..] == ClosedEvents(order, before.pending, before.source);
    ClosedEventsCount(order, before.pending, before.source);
    ClosedEventsCover(order, before.pending, before.source);
    ClosedEventsOnlyPending(order, before.pending, before.source);
    ClosedEventsDistinct(order, before.pending, before.source);
  }

  /** Closing a side that is already closed fires nothing and changes nothing. */
  lemma CloseTwiceChangesNothing(a: Side, b: Side, c: Side)
    requires Closed(a, b) && Closed(b, c)
    ensures c == b
  {
    var order :| Enumerates(order, b.pending.Keys) && c.fired == b.fired + ClosedEvents(order, b.pending, b.source);
    EnumeratesCount(order, b.pending.Keys);
    assert c.fired == b.fired + [];
  }

  /**
   * The correlation table round trip: a request recorded under a fresh id and
   * then answered with that id as the reply id leaves the table as it was and
   * fires the request's callback once with the request and the answer.
   */
  lemma RequestThenAnswer(s: Side, id: JString, callback: Callback, request: Message, answer: Message, after: Side)
    requires Correlated(s.pending, s.source) && id !in s.pending
    requires request.messageId == id && answer.replyMessageId == Some(id)
    requires Replied(s.(pending := s.pending[id := callback], source := s.source[id := request]), after, answer)
    ensures after == s.(fired := s.fired + [ReplyReceived(callback, request, Some(answer), None)])
  {
    assert s.pending[id := callback] - {id} == s.pending;
    assert s.source[id := request] - {id} == s.source;
  }

  /** A request is answered at most once: a second answer with the same reply id changes nothing. */
  lemma AnsweredOnce(a: Side, b: Side, c: Side, first: Message, second: Message)
    requires first.replyMessageId.Some? && second.replyMessageId == first.replyMessageId
    requires Replied(a, b, first) && Replied(b, c, second)
    ensures c == b
  {
    var id := first.replyMessageId.value;
    assert id !in b.pending;
  }

  class JVMChannel {
    var active: bool
    /** pendingReplyMessages: the callback of each request that awaits an answer. */
    var pending: map<JString, Callback>
    /** pendingReplyMessagesSource: the original of each request that awaits an answer. */
    var pendingSource: map<JString, Message>
    var otherSide: JVMChannel?
    var shutDown: bool
    var received: seq<Message>
    var fired: seq<CallbackEvent>
    const receiverThrows: Message -> bool

    function State(): Side
      reads this
    {
      Side(active, pending, pendingSource, shutDown, received, fired)
    }

    predicate Valid()
      reads this
    {
      Correlated(pending, pendingSource) &&
      (!active ==> pending == map[]) &&
      (shutDown ==> pending == map[])
    }

    /** Wired to a distinct peer that is wired back, both sides valid. */
    predicate Paired()
      reads this, otherSide
    {
      otherSide != null && otherSide != this && otherSide.otherSide == this && Valid() && otherSide.Valid()
    }

    /** Not wired yet, and so inactive, or paired with its peer: the states a send can start from. */
    predicate Wired()
      reads this, otherSide
    {
      if otherSide == null then Valid() && !active else Paired()
    }

    /** A new channel is inactive, has no peer and nothing pending. */
    constructor(receiverThrows: Message -> bool)
      ensures State() == Side(false, map[], map[], false, [], [])
      ensures otherSide == null && this.receiverThrows == receiverThrows
      ensures Valid()
    {
      active := false;
      pending := map[];
      pendingSource := map[];
      otherSide := null;
      shutDown := false;
      received := [];
      fired := [];
      this.receiverThrows := receiverThrows;
    }

    /** setOtherSide: wires the peer and makes the channel active. */
    method SetOtherSide(brokerSide: JVMChannel?)
      requires Valid()
      modifies this`otherSide, this`active
      ensures Valid()
      ensures otherSide == brokerSide
      ensures State() == old(State()).(active := true)
    {
      otherSide := brokerSide;
      active := true;
    }

    /** handleReply. */
    method HandleReply(answer: Message)
      requires Valid() && answer.replyMessageId.Some?
      modifies this`pending, this`pendingSource, this`fired
      ensures Valid()
      ensures Replied(old(State()), State(), answer)
    {
      var id := answer.replyMessageId.value;
      if id in pending {
        var callback := pending[id];
        pending := pending - {id};
        if id in pendingSource {
          var original := pendingSource[id];
          pendingSource := pendingSource - {id};
          fired := fired + [ReplyReceived(callback, original, Some(answer), None)];
        }
      }
    }

    /** receiveMessageFromPeer. */
    method ReceiveMessageFromPeer(m: Message)
      requires Paired()
      modifies this, otherSide
      ensures Paired() && otherSide == old(otherSide)
      ensures Received(old(State()), State(), m, receiverThrows(m))
      ensures if Closes(m, receiverThrows(m)) then PeerClosed(old(otherSide.State()), otherSide.State())
              else otherSide.State() == old(otherSide.State())
    {
      if m.replyMessageId.Some? {
        HandleReply(m);
      } else {
        received := received + [m];
        if receiverThrows(m) {
          Close();
        }
      }
    }

    /**
     * The forEach of close() over the pending callbacks: each job takes the
     * original out of the source map and fails its callback; then the
     * callback map is cleared.
     */
    method FailPending() returns (ghost order: seq<JString>)
      requires Correlated(pending, pendingSource)
      modifies this`pending, this`pendingSource, this`fired
      ensures pending == map[] && pendingSource == map[]
      ensures Enumerates(order, old(pending).Keys)
      ensures fired == old(fired) + ClosedEvents(order, old(pending), old(pendingSource))
    {
      var keys := pending.Keys;
      ghost var done: set<JString> := {};
      order := [];
      while keys != {}
        invariant pending == old(pending)
        invariant keys !! done && keys + done == old(pending).Keys
        invariant Enumerates(order, done)
        invariant pendingSource.Keys == keys
        invariant forall k :: k in pendingSource ==> pendingSource[k] == old(pendingSource)[k]
        invariant fired == old(fired) + ClosedEvents(order, old(pending), old(pendingSource))
        decreases keys
      {
        var key :| key in keys;
        if key in pendingSource {
          fired := fired + [ReplyReceived(pending[key], pendingSource[key], None, Some(ChannelClosed))];
          pendingSource := pendingSource - {key};
        }
        EnumeratesSnoc(order, done, key);
        ClosedEventsSnoc(order, key, old(pending), old(pendingSource));
        AppendAssoc(old(fired), ClosedEvents(order, old(pending), old(pendingSource)), [ClosedEvent(key, old(pending), old(pendingSource))]);
        keys, done := keys - {key}, done + {key};
        order := order + [key];
      }
      pending := map[];
      assert pendingSource.Keys == {};
    }

    /**
     * close: fails every pending request, empties the table, closes the peer
     * when it is still active, then shuts the executors down.
     */
    method Close()
      requires Paired()
      modifies this, otherSide
      ensures Paired() && otherSide == old(otherSide)
      ensures Closed(old(State()), State())
      ensures PeerClosed(old(otherSide.State()), otherSide.State())
      decreases (if active then 1 else 0) + (if otherSide.active then 1 else 0), if otherSide.active then 1 else 0
    {
      ghost var before := State();
      active := false;
      ghost var order := FailPending();
      assert Enumerates(order, before.pending.Keys) && fired == before.fired + ClosedEvents(order, before.pending, before.source);
      if otherSide.active {
        otherSide.Close();
      }
      shutDown := true;
    }

    /**
     * sendOneWayMessage: nothing at all on an inactive channel; otherwise the
     * peer receives the message and then the send callback runs, unless the
     * delivery closed this side and so shut its callback executor down.
     */
    method SendOneWayMessage(m: Message, callback: Callback) returns (r: Submit)
      requires Wired()
      modifies this, otherSide
      ensures Wired() && otherSide == old(otherSide)
      ensures !old(active) || old(shutDown) ==> State() == old(State()) && (otherSide != null ==> otherSide.State() == old(otherSide.State()))
      ensures !old(active) ==> r == Returned
      ensures old(active) && old(shutDown) ==> r == Rejected
      ensures old(active) && !old(shutDown) ==> (
        r == Returned &&
        Received(old(otherSide.State()), otherSide.State(), m, otherSide.receiverThrows(m)) &&
        if Closes(m, otherSide.receiverThrows(m)) then Closed(old(State()), State())
        else State() == old(State()).(fired := old(fired) + [MessageSent(callback, m)]))
    {
      if !active {
        return Returned;
      }
      if shutDown {
        return Rejected;
      }
      otherSide.ReceiveMessageFromPeer(m);
      if !shutDown {
        fired := fired + [MessageSent(callback, m)];
      }
      return Returned;
    }

    /**
     * sendReplyMessage: the answer gets a fresh id and the request's id as its
     * reply id, and goes to the peer's reply handling; an inactive channel
     * drops it.
     */
    method SendReplyMessage(inAnswerTo: Message, m: Message, freshId: JString) returns (r: Submit)
      requires Wired()
      modifies this, otherSide
      ensures Wired() && otherSide == old(otherSide)
      ensures State() == old(State())
      ensures old(shutDown) || !old(active) ==> otherSide != null ==> otherSide.State() == old(otherSide.State())
      ensures old(shutDown) ==> r == Rejected
      ensures !old(shutDown) && !old(active) ==> r == Returned
      ensures !old(shutDown) && old(active) ==> (
        r == Returned &&
        Replied(old(otherSide.State()), otherSide.State(), m.(messageId := freshId, replyMessageId := Some(inAnswerTo.messageId))))
    {
      if shutDown {
        return Rejected;
      }
      if !active {
        return Returned;
      }
      var answer := m.(messageId := freshId, replyMessageId := Some(inAnswerTo.messageId));
      otherSide.ReceiveMessageFromPeer(answer);
      return Returned;
    }

    /**
     * sendMessageWithAsyncReply: on an inactive channel the callback fails at
     * once; otherwise the request gets the fresh id, is recorded in both
     * pending maps, and is delivered to the peer.
     */
    method SendMessageWithAsyncReply(m: Message, callback: Callback, freshId: JString) returns (r: Submit)
      requires Wired() && freshId !in pending
      modifies this, otherSide
      ensures Wired() && otherSide == old(otherSide)
      ensures old(shutDown) || !old(active) ==> otherSide != null ==> otherSide.State() == old(otherSide.State())
      ensures old(shutDown) ==> r == Rejected && State() == old(State())
      ensures !old(shutDown) && !old(active) ==> (
        r == Returned &&
        State() == old(State()).(fired := old(fired) + [ReplyReceived(callback, m, None, Some(NotActive))]))
      ensures !old(shutDown) && old(active) ==> (
        r == Returned &&
        var request := m.(messageId := freshId);
        var recorded := old(State()).(pending := old(pending)[freshId := callback], source := old(pendingSource)[freshId := request]);
        Received(old(otherSide.State()), otherSide.State(), request, otherSide.receiverThrows(request)) &&
        if Closes(request, otherSide.receiverThrows(request)) then Closed(recorded, State()) else State() == recorded)
    {
      if shutDown {
        return Rejected;
      }
      if !active {
        fired := fired + [ReplyReceived(callback, m, None, Some(NotActive))];
        return Returned;
      }
      var request := m.(messageId := freshId);
      pending := pending[freshId := callback];
      pendingSource := pendingSource[freshId := request];
      otherSide.ReceiveMessageFromPeer(request);
      return Returned;
    }
  }

  /**
   * A channel that was never given a peer: a one-way message is dropped, a
   * reply is dropped, and a request fails its callback once with "not
   * active"; nothing is recorded as pending and nothing reaches a receiver.
   */
  method SendsBeforeWiring(receiverThrows: Message -> bool, request: Message, inAnswerTo: Message, answer: Message,
                           sendCallback: Callback, replyCallback: Callback, freshId: JString)
    returns (c: JVMChannel, oneWay: Submit, reply: Submit, async: Submit)
    ensures oneWay == Returned && reply == Returned && async == Returned
    ensures c.otherSide == null
    ensures c.State() == Side(false, map[], map[], false, [], [ReplyReceived(replyCallback, request, None, Some(NotActive))])
  {
    c := new JVMChannel(receiverThrows);
    oneWay := c.SendOneWayMessage(request, sendCallback);
    reply := c.SendReplyMessage(inAnswerTo, answer, freshId);
    async := c.SendMessageWithAsyncReply(request, replyCallback, freshId);
  }
}
