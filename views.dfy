/** The message record both the REST handlers and the socket server send to
    clients, and the list of readers it carries. */
module Views {
  import opened Wrappers
  import opened Store

  /** A message as clients receive it. `createdAt` is the stored timestamp (its
      RFC 3339 rendering is not modelled). */
  datatype MessageView = MessageView(
    id: Id,
    circleId: Id,
    senderId: Id,
    senderName: string,
    senderAvatar: Option<string>,
    content: string,
    imageUrl: Option<string>,
    createdAt: int,
    readBy: seq<Id>)

  /** The user ids of a run of read receipts, in receipt order. */
  function ReaderIdsOf(receipts: seq<Receipt>): seq<Id> {
    seq(|receipts|, k requires 0 <= k < |receipts| => receipts[k].userId)
  }

  /** The view of `msg` sent by `sender` and read by `readBy`. */
  function ViewOf(sender: User, msg: Message, readBy: seq<Id>): MessageView {
    MessageView(msg.id, msg.circleId, sender.id, sender.fullName, sender.profilePicture,
      msg.content, msg.imageUrl, msg.createdAt, readBy)
  }

  /** Fills a slice of the receipts' length with their user ids, index by index. */
  method ReaderIds(receipts: seq<Receipt>) returns (ids: seq<Id>)
    ensures ids == ReaderIdsOf(receipts)
  {
    var readBy := new Id[|receipts|];
    for j := 0 to |receipts|
      invariant forall k :: 0 <= k < j ==> readBy[k] == receipts[k].userId
    {
      readBy[j] := receipts[j].userId;
    }
    ids := readBy[..];
  }

  /** The readers listed for a message are exactly the users holding a receipt for
      it, one entry per receipt. */
  lemma ReadersOfMessage(receipts: seq<Receipt>, messageId: Id, userId: Id)
    ensures |ReaderIdsOf(ReceiptsOf(receipts, messageId))| == |ReceiptsOf(receipts, messageId)|
    ensures userId in ReaderIdsOf(ReceiptsOf(receipts, messageId)) <==> Receipt(messageId, userId) in receipts
  {
    var rs := ReceiptsOf(receipts, messageId);
    var ids := ReaderIdsOf(rs);
    if userId in ids {
      var k :| 0 <= k < |ids| && ids[k] == userId;
      assert rs[k] in rs;
      assert rs[k] == Receipt(messageId, userId);
    }
    if Receipt(messageId, userId) in receipts {
      var r := Receipt(messageId, userId);
      assert r in rs;
      var k :| 0 <= k < |rs| && rs[k] == r;
      assert ids[k] == userId;
    }
  }
}
