/**
  The conversation reducers of the single-page `ChatUI` screen. It differs from the
  `Chat` screen: every decoded `message` frame is appended whoever sent it, a sent
  message appears only once the server has answered, undecodable frames are
  swallowed by a try/catch, and an empty peer or empty text is a no-op.

  `me` is the user id stored at verification; `peer` is the selected contact's user
  id, the empty string while none is selected.
 */
module ChatUi {
  import opened Optional
  import opened Messages
  import Chat

  /** `loadHistory(peer)`: with no peer nothing is fetched and nothing changes;
      otherwise a successful response becomes the whole list and a failed one
      (the fetch or the JSON decoding throws) leaves it alone. */
  function LoadHistory(log: seq<Message>, peer: UserId, reply: Option<seq<Message>>): (r: seq<Message>)
    ensures peer == [] ==> r == log
    ensures peer != [] && reply.Some? ==> r == reply.value
    ensures reply.None? ==> r == log
  {
    if peer == [] then log
    else match reply
      case Some(hist) => hist
      case None => log
  }

  /** The answer to `/messages/send`: the decoded `message_id`, or a request that threw. */
  datatype SendReply = Replied(messageId: Id) | RequestFailed

  /** The request `sendText` issues: none when the peer or the text is empty. The text
      is not trimmed, so whitespace-only text is sent. */
  function SendTextRequest(peer: UserId, text: string): (r: Option<SendRequest>)
    ensures r.None? <==> peer == [] || text == []
    ensures r.Some? ==> r.value.recipient == peer && r.value.text == text
  {
    if peer == [] || text == [] then None else Some(SendRequest(peer, text))
  }

  /** The updater `sendText` runs once the server has answered: one entry at the tail
      carrying the server id, the session user as sender, the peer as recipient, the
      text as typed, status `sent` and the local clock reading `now`. Without a
      request, or when it failed, the list is unchanged. */
  function CompleteSend(log: seq<Message>, me: UserId, peer: UserId, text: string, reply: SendReply, now: string): (r: seq<Message>)
    ensures SendTextRequest(peer, text).None? || reply.RequestFailed? ==> r == log
    ensures SendTextRequest(peer, text).Some? && reply.Replied? ==>
      && |r| == |log| + 1
      && r[..|log|] == log
      && r[|log|] == Message(reply.messageId, me, peer, text, SENT, Some(now))
  {
    match SendTextRequest(peer, text)
    case None => log
    case Some(_) =>
      match reply
      case RequestFailed => log
      case Replied(id) => log + [Message(id, me, peer, text, SENT, Some(now))]
  }

  /** The text box after `sendText` finishes. `box` is what the box holds when the
      request settles: the box is cleared only once the server has answered, so
      while the request is in flight the typed text stays and a second click posts
      it again. With no request, or when the request threw, the box is left alone. */
  function BoxAfterSend(box: string, peer: UserId, text: string, reply: SendReply): (r: string)
    ensures SendTextRequest(peer, text).Some? && reply.Replied? ==> r == []
    ensures SendTextRequest(peer, text).None? || reply.RequestFailed? ==> r == box
  {
    if SendTextRequest(peer, text).Some? && reply.Replied? then [] else box
  }

  /** After a failed request the unchanged box issues the same request again; after a
      reply the cleared box issues none. */
  lemma BoxAfterSendRetries(peer: UserId, text: string, id: Id)
    ensures SendTextRequest(peer, BoxAfterSend(text, peer, text, RequestFailed)) == SendTextRequest(peer, text)
    ensures SendTextRequest(peer, BoxAfterSend(text, peer, text, Replied(id))).None?
  {
  }

  /** The `ws.onmessage` updaters inside their try/catch. A `message` frame is
      appended exactly as received, whatever its sender; a `read` frame marks the
      matching entries read; any other type and an undecodable payload change
      nothing and raise nothing. */
  function OnFrame(log: seq<Message>, frame: Frame): (r: seq<Message>)
    ensures frame.MessageFrame? ==> r == log + [frame.msg]
    ensures frame.ReadFrame? ==> r == MarkRead(log, frame.messageId)
    ensures frame.OtherFrame? || frame.Malformed? ==> r == log
  {
    match frame
    case MessageFrame(m) => log + [m]
    case ReadFrame(id) => MarkRead(log, id)
    case OtherFrame(_) => log
    case Malformed => log
  }

  /** The two screens agree on `read` frames and on frames they ignore; on a `message`
      frame `Chat` keeps only the peer's messages and stamps them `delivered`, where
      this screen appends the frame as it is. */
  lemma FrameHandlingComparedWithChat(peer: UserId, log: seq<Message>, frame: Frame)
    ensures !frame.MessageFrame? ==> OnFrame(log, frame) == Chat.OnFrame(peer, log, frame)
    ensures frame.MessageFrame? && frame.msg.sender == peer ==>
      Chat.OnFrame(peer, log, frame) == OnFrame(log, Frame.MessageFrame(frame.msg.(status := DELIVERED)))
    ensures frame.MessageFrame? && frame.msg.sender != peer ==>
      Chat.OnFrame(peer, log, frame) == log && |OnFrame(log, frame)| == |log| + 1
  {
  }

  /** What can happen to the list, in the order the event loop runs it. */
  datatype Event =
    | HistoryLoaded(peer: UserId, history: Option<seq<Message>>)
    | TextSent(peer: UserId, text: string, reply: SendReply, now: string)
    | Live(frame: Frame)

  function Step(me: UserId, log: seq<Message>, e: Event): seq<Message> {
    match e
    case HistoryLoaded(peer, history) => LoadHistory(log, peer, history)
    case TextSent(peer, text, reply, now) => CompleteSend(log, me, peer, text, reply, now)
    case Live(frame) => OnFrame(log, frame)
  }

  function Run(me: UserId, log: seq<Message>, events: seq<Event>): seq<Message>
    decreases |events|
  {
    if |events| == 0 then log else Run(me, Step(me, log, events[0]), events[1..])
  }

  /** A successful history load for a selected peer discards whatever the list held
      before, whichever conversation that was. */
  lemma HistoryDiscardsEarlierState(me: UserId, log1: seq<Message>, log2: seq<Message>,
                                    peer: UserId, hist: seq<Message>, events: seq<Event>)
    requires peer != []
    ensures Run(me, log1, [HistoryLoaded(peer, Some(hist))] + events)
      == Run(me, log2, [HistoryLoaded(peer, Some(hist))] + events)
      == Run(me, hist, events)
  {
    var evs := [HistoryLoaded(peer, Some(hist))] + events;
    assert evs[0] == HistoryLoaded(peer, Some(hist)) && evs[1..] == events;
  }

  /** Nothing reconciles a sent message with the server's echo of it: when the echo
      arrives as a `message` frame, the text appears twice. */
  lemma EchoAfterSendDuplicates(me: UserId, log: seq<Message>, peer: UserId, text: string,
                                id: Id, now: string, echo: Message)
    requires peer != [] && text != []
    requires echo.text == text
    ensures var r := Run(me, log, [TextSent(peer, text, Replied(id), now), Live(MessageFrame(echo))]);
      |r| == |log| + 2 && r[|log|].text == text && r[|log| + 1].text == text
  {
    var evs := [TextSent(peer, text, Replied(id), now), Live(MessageFrame(echo))];
    var sent := Step(me, log, evs[0]);
    assert |sent| == |log| + 1 && sent[|log|].text == text;
    assert evs[1..] == [Live(MessageFrame(echo))];
    assert Run(me, sent, evs[1..]) == sent + [echo];
  }

  /** Entry `b` is entry `a` with possibly another status. */
  predicate SameButStatus(a: Message, b: Message) {
    b.(status := a.status) == a
  }

  /** `b` keeps every entry of `a` at its position, changing at most its status. */
  predicate Keeps(a: seq<Message>, b: seq<Message>) {
    |a| <= |b| && forall k :: 0 <= k < |a| ==> SameButStatus(a[k], b[k])
  }

  predicate ReplacesList(e: Event) {
    e.HistoryLoaded? && e.peer != [] && e.history.Some?
  }

  lemma StepKeeps(me: UserId, log: seq<Message>, e: Event)
    requires !ReplacesList(e)
    ensures Keeps(log, Step(me, log, e))
  {
  }

  /** Between two history loads, entries are only ever appended, and an existing
      entry changes nothing but its status. */
  lemma {:induction false} RunKeeps(me: UserId, log: seq<Message>, events: seq<Event>)
    requires forall i :: 0 <= i < |events| ==> !ReplacesList(events[i])
    ensures Keeps(log, Run(me, log, events))
    decreases |events|
  {
    if |events| > 0 {
      var next := Step(me, log, events[0]);
      StepKeeps(me, log, events[0]);
      RunKeeps(me, next, events[1..]);
    }
  }

  /** The status label: `✓✓ read`, `✓✓ delivered`, and `✓ sent` for every other
      status. It extends the `Chat` screen's tick mark with the status word. */
  function StatusLabel(status: string): (r: string)
    ensures status == READ ==> r == Chat.StatusMark(status) + " read"
    ensures status == DELIVERED ==> r == Chat.StatusMark(status) + " delivered"
    ensures status != READ && status != DELIVERED ==> r == Chat.StatusMark(status) + " sent"
  {
    if status == READ then "\U{2713}\U{2713} read"
    else if status == DELIVERED then "\U{2713}\U{2713} delivered"
    else "\U{2713} sent"
  }
}
