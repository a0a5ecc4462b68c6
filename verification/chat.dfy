/**
  The conversation reducers of the `Chat` screen: history replacement, the optimistic
  send with a provisional id, the in-place id swap on acknowledgement, the live-frame
  updaters that only accept messages from the open peer, the read-receipt map, and
  the unread selection that decides whether a read acknowledgement is posted.

  `me` is the session user and `peer` the open conversation's user. Both are fixed
  for one run of events; switching the open contact is not one of the events.
 */
module Chat {
  import opened Optional
  import opened Sequences
  import opened Text
  import opened Messages

  /** The provisional id `'tmp-' + Math.random()`, with the random part as a parameter. */
  function ProvisionalId(nonce: string): (r: Id)
    ensures |r| == 4 + |nonce| && r[..4] == "tmp-" && r[4..] == nonce
  {
    "tmp-" + nonce
  }

  /** Distinct random parts give distinct provisional ids. */
  lemma ProvisionalIdInjective(a: string, b: string)
    requires ProvisionalId(a) == ProvisionalId(b)
    ensures a == b
  {
    assert a == ProvisionalId(a)[4..];
    assert b == ProvisionalId(b)[4..];
  }

  // ---------------------------------------------------------------------------
  // history

  /** `setMessages(hist)`: a successful history response replaces the whole list;
      a failed request (the api helper throws) leaves it alone. */
  function LoadHistory(log: seq<Message>, reply: Option<seq<Message>>): (r: seq<Message>)
    ensures reply.Some? ==> r == reply.value
    ensures reply.None? ==> r == log
  {
    match reply
    case Some(hist) => hist
    case None => log
  }

  // ---------------------------------------------------------------------------
  // send

  /** What `send` leaves behind before the request resolves: the list, the input
      box, and the request it issued, if any. */
  datatype SendStart = SendStart(log: seq<Message>, input: string, request: Option<SendRequest>)

  /** The optimistic entry for a send: provisional id, untrimmed text, status `sent`. */
  function Optimistic(me: UserId, peer: UserId, input: string, nonce: string): Message {
    Message(ProvisionalId(nonce), me, peer, input, SENT, None)
  }

  /** The synchronous part of `send`. A blank input (empty after `trim`) changes
      nothing and issues no request; otherwise exactly one entry is appended at the
      tail, the input box is cleared and the untrimmed text is posted to the peer. */
  function BeginSend(me: UserId, peer: UserId, log: seq<Message>, input: string, nonce: string): (r: SendStart)
    ensures r.request.None? <==> Trim(input) == []
    ensures r.request.None? ==> r.log == log && r.input == input
    ensures r.request.Some? ==>
      && r.request.value == SendRequest(peer, input)
      && r.input == []
      && |r.log| == |log| + 1
      && r.log[..|log|] == log
      && r.log[|log|].id == ProvisionalId(nonce)
      && r.log[|log|].sender == me && r.log[|log|].recipient == peer
      && r.log[|log|].text == input && r.log[|log|].status == SENT
  {
    if Trim(input) == [] then SendStart(log, input, None)
    else SendStart(log + [Optimistic(me, peer, input, nonce)], [], Some(SendRequest(peer, input)))
  }

  /** The success updater of `send`: the entry carrying the provisional id takes the
      server id in place; nothing else changes. */
  function AckSend(log: seq<Message>, nonce: string, serverId: Id): (r: seq<Message>)
    ensures |r| == |log|
    ensures forall k :: 0 <= k < |log| ==>
      r[k].id == (if log[k].id == ProvisionalId(nonce) then serverId else log[k].id)
    ensures forall k :: 0 <= k < |log| ==> r[k].(id := log[k].id) == log[k]
  {
    UpdateById(log, ProvisionalId(nonce), (m: Message) => m.(id := serverId))
  }

  /** With exactly one entry carrying the provisional id, the acknowledgement rewrites
      that one entry's id and nothing else. */
  lemma AckSendInPlace(log: seq<Message>, nonce: string, serverId: Id, k: nat)
    requires k < |log| && log[k].id == ProvisionalId(nonce)
    requires forall j :: 0 <= j < |log| && j != k ==> log[j].id != ProvisionalId(nonce)
    ensures AckSend(log, nonce, serverId) == log[k := log[k].(id := serverId)]
  {
  }

  // ---------------------------------------------------------------------------
  // live frames

  /** The `ws.onmessage` updaters. A `message` frame from the open peer is appended
      with status `delivered`; one from anybody else (the session user's own echo
      included) is ignored. A `read` frame marks the matching entries read. Any other
      frame, and a payload that does not parse, leaves the list alone. */
  function OnFrame(peer: UserId, log: seq<Message>, frame: Frame): (r: seq<Message>)
    ensures frame.MessageFrame? && frame.msg.sender == peer ==>
      r == log + [frame.msg.(status := DELIVERED)]
    ensures frame.MessageFrame? && frame.msg.sender != peer ==> r == log
    ensures frame.ReadFrame? ==> r == MarkRead(log, frame.messageId)
    ensures frame.OtherFrame? || frame.Malformed? ==> r == log
  {
    match frame
    case MessageFrame(m) => if m.sender == peer then log + [m.(status := DELIVERED)] else log
    case ReadFrame(id) => MarkRead(log, id)
    case OtherFrame(_) => log
    case Malformed => log
  }

  // ---------------------------------------------------------------------------
  // unread selection and acknowledgement

  /** `messages.filter(m => m.sender_id === peer && m.status !== 'read')`. */
  function Unread(log: seq<Message>, peer: UserId): (r: seq<Message>)
    ensures |r| <= |log|
  {
    if |log| == 0 then []
    else
      (if log[0].sender == peer && log[0].status != READ then [log[0]] else [])
        + Unread(log[1..], peer)
  }

  /** The selection holds exactly the entries from the peer that are not `read`. */
  lemma {:induction false} UnreadMembers(log: seq<Message>, peer: UserId)
    ensures forall m :: m in Unread(log, peer) <==> m in log && m.sender == peer && m.status != READ
    decreases |log|
  {
    if |log| > 0 {
      UnreadMembers(log[1..], peer);
      assert log == [log[0]] + log[1..];
    }
  }

  function Ids(log: seq<Message>): (r: seq<Id>)
    ensures |r| == |log| && forall k :: 0 <= k < |log| ==> r[k] == log[k].id
  {
    if |log| == 0 then [] else [log[0].id] + Ids(log[1..])
  }

  /** The selection keeps the list order and every occurrence: it distributes over
      concatenation. */
  lemma {:induction false} UnreadAppend(a: seq<Message>, b: seq<Message>, peer: UserId)
    ensures Unread(a + b, peer) == Unread(a, peer) + Unread(b, peer)
    decreases |a|
  {
    if |a| == 0 {
      assert a + b == b;
    } else {
      UnreadAppend(a[1..], b, peer);
      assert (a + b)[0] == a[0] && (a + b)[1..] == a[1..] + b;
      var head := if a[0].sender == peer && a[0].status != READ then [a[0]] else [];
      AppendAssoc(head, Unread(a[1..], peer), Unread(b, peer));
    }
  }

  /** A single entry is selected exactly when it is from the peer and not `read`. */
  lemma UnreadOne(m: Message, peer: UserId)
    ensures Unread([m], peer) == if m.sender == peer && m.status != READ then [m] else []
  {
    assert [m][1..] == [];
  }

  /** The ids posted to `/messages/read` after the list changes, if any: the request
      is issued exactly when some entry from the peer is not yet `read`, and it
      carries the ids of the unread selection, in list order. */
  function ReadAck(log: seq<Message>, peer: UserId): (r: Option<seq<Id>>)
    ensures r.Some? <==> exists k :: 0 <= k < |log| && log[k].sender == peer && log[k].status != READ
    ensures r.Some? ==> r.value == Ids(Unread(log, peer))
  {
    var unread := Unread(log, peer);
    UnreadMembers(log, peer);
    if |unread| == 0 then
      assert forall k :: 0 <= k < |log| ==> log[k] !in unread;
      None
    else
      assert unread[0] in unread;
      Some(Ids(unread))
  }

  /** The acknowledgement names every unread entry from the peer, and nothing else. */
  lemma ReadAckNamesUnread(log: seq<Message>, peer: UserId)
    ensures ReadAck(log, peer).Some? ==>
      forall id :: id in ReadAck(log, peer).value <==>
        exists k :: 0 <= k < |log| && log[k].sender == peer && log[k].status != READ && log[k].id == id
  {
    var unread := Unread(log, peer);
    var ids := Ids(unread);
    UnreadMembers(log, peer);
    forall id
      ensures id in ids <==>
        exists k :: 0 <= k < |log| && log[k].sender == peer && log[k].status != READ && log[k].id == id
    {
      if id in ids {
        var j :| 0 <= j < |ids| && ids[j] == id;
        assert unread[j] in unread;
        var k :| 0 <= k < |log| && log[k] == unread[j];
      }
      if exists k :: 0 <= k < |log| && log[k].sender == peer && log[k].status != READ && log[k].id == id {
        var k :| 0 <= k < |log| && log[k].sender == peer && log[k].status != READ && log[k].id == id;
        assert log[k] in unread;
        var j :| 0 <= j < |unread| && unread[j] == log[k];
        assert ids[j] == id;
      }
    }
  }

  // ---------------------------------------------------------------------------
  // the event loop

  /** What can happen to the open conversation, in the order the event loop runs it. */
  datatype Event =
    | HistoryLoaded(reply: Option<seq<Message>>)
    | LocalSend(input: string, nonce: string)
    | SendAcked(nonce: string, serverId: Id)
    | SendFailed(nonce: string)
    | Live(frame: Frame)

  /** One state update. A failed send changes nothing: the optimistic entry stays
      with its provisional id and status `sent`. */
  function Step(me: UserId, peer: UserId, log: seq<Message>, e: Event): seq<Message> {
    match e
    case HistoryLoaded(reply) => LoadHistory(log, reply)
    case LocalSend(input, nonce) => BeginSend(me, peer, log, input, nonce).log
    case SendAcked(nonce, serverId) => AckSend(log, nonce, serverId)
    case SendFailed(_) => log
    case Live(frame) => OnFrame(peer, log, frame)
  }

  function Run(me: UserId, peer: UserId, log: seq<Message>, events: seq<Event>): seq<Message>
    decreases |events|
  {
    if |events| == 0 then log else Run(me, peer, Step(me, peer, log, events[0]), events[1..])
  }

  /** A successful history load discards whatever the list held before: what follows
      depends only on the response and the later events. */
  lemma HistoryDiscardsEarlierState(me: UserId, peer: UserId, log1: seq<Message>, log2: seq<Message>,
                                    hist: seq<Message>, events: seq<Event>)
    ensures Run(me, peer, log1, [HistoryLoaded(Some(hist))] + events)
      == Run(me, peer, log2, [HistoryLoaded(Some(hist))] + events)
      == Run(me, peer, hist, events)
  {
    var evs := [HistoryLoaded(Some(hist))] + events;
    assert evs[0] == HistoryLoaded(Some(hist)) && evs[1..] == events;
  }

  /** A send acknowledged with `serverId` leaves exactly one new entry at the tail,
      carrying the server id, and every earlier entry untouched. */
  lemma SendThenAck(me: UserId, peer: UserId, log: seq<Message>, input: string, nonce: string, serverId: Id)
    requires !HasId(log, ProvisionalId(nonce))
    requires Trim(input) != []
    ensures Run(me, peer, log, [LocalSend(input, nonce), SendAcked(nonce, serverId)])
      == log + [Message(serverId, me, peer, input, SENT, None)]
  {
    var evs := [LocalSend(input, nonce), SendAcked(nonce, serverId)];
    var sent := Step(me, peer, log, evs[0]);
    assert sent == log + [Optimistic(me, peer, input, nonce)];
    assert evs[1..] == [SendAcked(nonce, serverId)];
    assert Run(me, peer, sent, evs[1..]) == AckSend(sent, nonce, serverId);
    AckSendInPlace(sent, nonce, serverId, |log|);
  }

  /** A failed send keeps its optimistic entry: provisional id, status `sent`. */
  lemma SendThenFail(me: UserId, peer: UserId, log: seq<Message>, input: string, nonce: string)
    requires Trim(input) != []
    ensures Run(me, peer, log, [LocalSend(input, nonce), SendFailed(nonce)])
      == log + [Message(ProvisionalId(nonce), me, peer, input, SENT, None)]
  {
    var evs := [LocalSend(input, nonce), SendFailed(nonce)];
    var sent := Step(me, peer, log, evs[0]);
    assert sent == log + [Optimistic(me, peer, input, nonce)];
    assert evs[1..] == [SendFailed(nonce)];
    assert Run(me, peer, sent, evs[1..]) == sent;
  }

  /** The server's echo of the session user's own message is ignored, so it commutes
      with the acknowledgement and never duplicates the sent entry. */
  lemma SelfEchoCommutesWithAck(me: UserId, peer: UserId, log: seq<Message>, nonce: string, serverId: Id, echo: Message)
    requires echo.sender == me && me != peer
    ensures Run(me, peer, log, [SendAcked(nonce, serverId), Live(MessageFrame(echo))])
      == Run(me, peer, log, [Live(MessageFrame(echo)), SendAcked(nonce, serverId)])
      == AckSend(log, nonce, serverId)
  {
    assert Run(me, peer, log, [SendAcked(nonce, serverId), Live(MessageFrame(echo))])
      == Run(me, peer, AckSend(log, nonce, serverId), [Live(MessageFrame(echo))]);
    assert Run(me, peer, log, [Live(MessageFrame(echo)), SendAcked(nonce, serverId)])
      == Run(me, peer, log, [SendAcked(nonce, serverId)]);
  }

  /** A `read` frame for the server id that arrives before the acknowledgement finds
      no entry and is lost: the acknowledged entry keeps its status. */
  lemma ReadBeforeAckIsLost(me: UserId, peer: UserId, log: seq<Message>, nonce: string, serverId: Id)
    requires !HasId(log, serverId)
    ensures Run(me, peer, log, [Live(ReadFrame(serverId)), SendAcked(nonce, serverId)])
      == AckSend(log, nonce, serverId)
  {
    MarkReadUnknown(log, serverId);
    var evs := [Live(ReadFrame(serverId)), SendAcked(nonce, serverId)];
    assert Step(me, peer, log, evs[0]) == log;
    assert evs[1..] == [SendAcked(nonce, serverId)];
    assert Run(me, peer, log, evs[1..]) == Run(me, peer, AckSend(log, nonce, serverId), []);
  }

  /** `read` frames for the given ids, in order. */
  function ReadFrames(ids: seq<Id>): (r: seq<Event>)
    ensures |r| == |ids| && forall k :: 0 <= k < |ids| ==> r[k] == Live(ReadFrame(ids[k]))
  {
    if |ids| == 0 then [] else [Live(ReadFrame(ids[0]))] + ReadFrames(ids[1..])
  }

  lemma {:induction false} RunReadFrames(me: UserId, peer: UserId, log: seq<Message>, ids: seq<Id>)
    ensures Run(me, peer, log, ReadFrames(ids)) == MarkAllRead(log, ids)
    decreases |ids|
  {
    if |ids| > 0 {
      assert ReadFrames(ids)[1..] == ReadFrames(ids[1..]);
      RunReadFrames(me, peer, MarkRead(log, ids[0]), ids[1..]);
    }
  }

  /** Once `read` frames arrive for every id the acknowledgement named, nothing from
      the peer is unread and no further acknowledgement is posted. */
  lemma ReceiptsClearUnread(me: UserId, peer: UserId, log: seq<Message>)
    requires ReadAck(log, peer).Some?
    ensures ReadAck(Run(me, peer, log, ReadFrames(ReadAck(log, peer).value)), peer).None?
  {
    var ids := ReadAck(log, peer).value;
    var after := Run(me, peer, log, ReadFrames(ids));
    RunReadFrames(me, peer, log, ids);
    MarkAllReadStatus(log, ids);
    ReadAckNamesUnread(log, peer);
    forall k | 0 <= k < |after|
      ensures !(after[k].sender == peer && after[k].status != READ)
    {
      assert after[k].(status := log[k].status) == log[k];
      if log[k].sender == peer && log[k].status != READ {
        assert log[k].id in ids;
      }
    }
  }

  // ---------------------------------------------------------------------------
  // what survives a run

  /** Entry `b` is entry `a`, possibly with a new id or status: sender, recipient,
      text and timestamp never change. */
  predicate SameContent(a: Message, b: Message) {
    a.sender == b.sender && a.recipient == b.recipient && a.text == b.text && a.sentAt == b.sentAt
  }

  /** `b` keeps every entry of `a` at its position, with the same content. */
  predicate Keeps(a: seq<Message>, b: seq<Message>) {
    |a| <= |b| && forall k :: 0 <= k < |a| ==> SameContent(a[k], b[k])
  }

  predicate ReplacesList(e: Event) {
    e.HistoryLoaded? && e.reply.Some?
  }

  lemma StepKeeps(me: UserId, peer: UserId, log: seq<Message>, e: Event)
    requires !ReplacesList(e)
    ensures Keeps(log, Step(me, peer, log, e))
  {
  }

  /** Between two successful history loads, no entry is removed, moved, or has its
      text, participants or timestamp changed. */
  lemma {:induction false} RunKeeps(me: UserId, peer: UserId, log: seq<Message>, events: seq<Event>)
    requires forall i :: 0 <= i < |events| ==> !ReplacesList(events[i])
    ensures Keeps(log, Run(me, peer, log, events))
    decreases |events|
  {
    if |events| > 0 {
      var next := Step(me, peer, log, events[0]);
      StepKeeps(me, peer, log, events[0]);
      RunKeeps(me, peer, next, events[1..]);
    }
  }

  // ---------------------------------------------------------------------------
  // the status label

  /** The bubble's status label: a double tick for `read` and `delivered`, a single
      tick for every other status. */
  function StatusMark(status: string): (r: string)
    ensures r == "\U{2713}\U{2713}" <==> status == READ || status == DELIVERED
    ensures r == "\U{2713}\U{2713}" || r == "\U{2713}"
  {
    if status == READ then "\U{2713}\U{2713}"
    else if status == DELIVERED then "\U{2713}\U{2713}"
    else "\U{2713}"
  }
}
