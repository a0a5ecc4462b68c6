/**
  The message record both chat screens keep in their `messages` state, the decoded
  frames of the persistent connection, and the per-id update both screens apply
  with `messages.map(m => m._id === id ? {...m, ...} : m)`.
 */
module Messages {
  import opened Optional

  type Id = string
  type UserId = string

  /** The status strings the client writes or compares against. */
  const SENT: string := "sent"
  const DELIVERED: string := "delivered"
  const READ: string := "read"

  /** One entry of the conversation list: `{_id, sender_id, recipient_id, text, status, sent_at}`.
      `status` stays a string because history responses may carry any value. */
  datatype Message = Message(
    id: Id,
    sender: UserId,
    recipient: UserId,
    text: string,
    status: string,
    sentAt: Option<string>)

  /** An inbound frame of the persistent connection after `JSON.parse`: a `message`
      frame carrying a message record, a `read` frame carrying `message_id`, a frame
      of any other `type`, or a payload that did not parse. */
  datatype Frame =
    | MessageFrame(msg: Message)
    | ReadFrame(messageId: Id)
    | OtherFrame(kind: string)
    | Malformed

  /** The body of a `/messages/send` request. */
  datatype SendRequest = SendRequest(recipient: UserId, text: string)

  predicate HasId(log: seq<Message>, id: Id) {
    exists k :: 0 <= k < |log| && log[k].id == id
  }

  /** `log.map(m => m._id === id ? f(m) : m)`: applies `f` to exactly the entries
      carrying `id`, in place. */
  function UpdateById(log: seq<Message>, id: Id, f: Message -> Message): (r: seq<Message>)
    ensures |r| == |log|
    ensures forall k :: 0 <= k < |log| && log[k].id == id ==> r[k] == f(log[k])
    ensures forall k :: 0 <= k < |log| && log[k].id != id ==> r[k] == log[k]
  {
    if |log| == 0 then []
    else [if log[0].id == id then f(log[0]) else log[0]] + UpdateById(log[1..], id, f)
  }

  /** The update a `read` frame applies: status `read` on every entry whose id is
      `id`; every other entry, and every other field, is left as it was. */
  function MarkRead(log: seq<Message>, id: Id): (r: seq<Message>)
    ensures |r| == |log|
    ensures forall k :: 0 <= k < |log| ==>
      r[k].status == (if log[k].id == id then READ else log[k].status)
    ensures forall k :: 0 <= k < |log| ==> r[k].(status := log[k].status) == log[k]
  {
    UpdateById(log, id, (m: Message) => m.(status := READ))
  }

  /** A receipt for an id no entry carries changes nothing. */
  lemma MarkReadUnknown(log: seq<Message>, id: Id)
    requires !HasId(log, id)
    ensures MarkRead(log, id) == log
  {
    var r := MarkRead(log, id);
    forall k | 0 <= k < |log|
      ensures r[k] == log[k]
    {
      assert log[k].id != id;
    }
  }

  /** Applying the same receipt twice is applying it once. */
  lemma MarkReadIdempotent(log: seq<Message>, id: Id)
    ensures MarkRead(MarkRead(log, id), id) == MarkRead(log, id)
  {
    var once := MarkRead(log, id);
    var twice := MarkRead(once, id);
    forall k | 0 <= k < |log|
      ensures twice[k] == once[k]
    {
      assert once[k].id == log[k].id by {
        assert once[k].(status := log[k].status) == log[k];
      }
    }
  }

  /** Receipts for two ids may arrive in either order. */
  lemma MarkReadCommutes(log: seq<Message>, a: Id, b: Id)
    ensures MarkRead(MarkRead(log, a), b) == MarkRead(MarkRead(log, b), a)
  {
    var ab := MarkRead(MarkRead(log, a), b);
    var ba := MarkRead(MarkRead(log, b), a);
    forall k | 0 <= k < |log|
      ensures ab[k] == ba[k]
    {
      assert MarkRead(log, a)[k].(status := log[k].status) == log[k];
      assert MarkRead(log, b)[k].(status := log[k].status) == log[k];
    }
  }

  /** Receipts for each id of `ids`, applied one after another. */
  function MarkAllRead(log: seq<Message>, ids: seq<Id>): (r: seq<Message>)
    ensures |r| == |log|
    decreases |ids|
  {
    if |ids| == 0 then log else MarkAllRead(MarkRead(log, ids[0]), ids[1..])
  }

  /** After receipts for `ids`, an entry is `read` exactly when its id was among
      them or it was `read` already; nothing but the status changes. */
  lemma {:induction false} MarkAllReadStatus(log: seq<Message>, ids: seq<Id>)
    ensures forall k :: 0 <= k < |log| ==>
      MarkAllRead(log, ids)[k].status == (if log[k].id in ids then READ else log[k].status)
    ensures forall k :: 0 <= k < |log| ==>
      MarkAllRead(log, ids)[k].(status := log[k].status) == log[k]
    decreases |ids|
  {
    if |ids| > 0 {
      var next := MarkRead(log, ids[0]);
      var r := MarkAllRead(next, ids[1..]);
      assert MarkAllRead(log, ids) == r;
      MarkAllReadStatus(next, ids[1..]);
      forall k | 0 <= k < |log|
        ensures r[k].status == (if log[k].id in ids then READ else log[k].status)
        ensures r[k].(status := log[k].status) == log[k]
      {
        assert next[k].(status := log[k].status) == log[k];
        assert next[k].id == log[k].id;
        assert log[k].id in ids <==> log[k].id == ids[0] || log[k].id in ids[1..] by {
          assert ids == [ids[0]] + ids[1..];
        }
      }
    }
  }
}
