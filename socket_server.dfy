/** The realtime chat server: socket.io connections authenticate with a token,
    join the room of their circle, send messages, mark them read and announce
    typing. A room is named by its circle's id. */
module Realtime {
  import opened Wrappers
  import opened Text
  import opened Store
  import opened Views

  // ---------------------------------------------------------------------------
  // Payloads and events

  /** The JSON body of send_message once decoded (`timestamp` is never read). */
  datatype MessagePayload = MessagePayload(circleId: Id, content: string, imageUrl: string)

  /** The JSON body of mark_read once decoded. */
  datatype ReadReceiptPayload = ReadReceiptPayload(messageId: Id, circleId: Id)

  /** The circle part of auth_success; it is null for a user without a circle. */
  datatype CircleInfo = CircleInfo(circleId: Id, circleName: string, memberCount: nat)

  /** What the server emits to one connection or broadcasts to a room. */
  datatype Event =
    | AuthSuccess(userId: Id, circle: Option<CircleInfo>)
    | AuthError(reason: string)
    | MessageError(reason: string)
    | NewMessage(message: MessageView)
    | MessageRead(messageId: Id, readerId: Id, readBy: seq<Id>)
    | UserTyping(typistId: Id, typing: bool)

  datatype Broadcast = Broadcast(room: Id, event: Event)

  // ---------------------------------------------------------------------------
  // Connections and rooms

  /** socket.io's Join: a room set kept in joining order. */
  function JoinRoom(rooms: seq<Id>, room: Id): (r: seq<Id>)
    ensures room in r
    ensures forall x :: x in r <==> x in rooms || x == room
    ensures room in rooms ==> r == rooms
  {
    if room in rooms then rooms else rooms + [room]
  }

  /** The rooms after ensureRoomMembership: an empty circle id joins nothing. */
  function WithRoom(rooms: seq<Id>, circleId: Id): (r: seq<Id>)
    ensures circleId != "" ==> circleId in r
    ensures forall x :: x in r <==> x in rooms || (x == circleId && circleId != "")
  {
    if circleId == "" then rooms else JoinRoom(rooms, circleId)
  }

  /** One client connection. */
  class Connection {
    /** The "userID" string of the connection's context map, when it holds one. */
    var userId: Option<string>
    /** The rooms joined so far, in joining order. */
    var rooms: seq<Id>
    var closed: bool
    /** The events emitted to this connection alone, in order. */
    var emitted: seq<Event>

    constructor ()
      ensures userId == None && rooms == [] && !closed && emitted == []
    {
      userId, rooms, closed, emitted := None, [], false, [];
    }

    method Emit(e: Event)
      modifies this
      ensures emitted == old(emitted) + [e]
      ensures userId == old(userId) && rooms == old(rooms) && closed == old(closed)
    {
      emitted := emitted + [e];
    }

    method Join(room: Id)
      modifies this
      ensures rooms == JoinRoom(old(rooms), room)
      ensures userId == old(userId) && emitted == old(emitted) && closed == old(closed)
    {
      if room !in rooms {
        rooms := rooms + [room];
      }
    }

    method Close()
      modifies this
      ensures closed
      ensures userId == old(userId) && rooms == old(rooms) && emitted == old(emitted)
    {
      closed := true;
    }

    /** Stores the authenticated user id in the context map. */
    method SetUser(id: Id)
      modifies this
      ensures userId == Some(id)
      ensures rooms == old(rooms) && emitted == old(emitted) && closed == old(closed)
    {
      userId := Some(id);
    }
  }

  /** getUserIDFromConn: the context's user id, when it is a non-empty string. */
  function UserIdOf(ctxUserId: Option<string>): (r: Option<Id>)
    ensures r.Some? <==> ctxUserId.Some? && ctxUserId.value != ""
    ensures r.Some? ==> r == ctxUserId
  {
    if ctxUserId.Some? && ctxUserId.value != "" then ctxUserId else None
  }

  /** ensureRoomMembership: joins the circle's room unless the id is empty or
      the room is already joined. */
  method EnsureRoomMembership(conn: Connection, circleId: Id)
    modifies conn
    ensures conn.rooms == WithRoom(old(conn.rooms), circleId)
    ensures conn.userId == old(conn.userId) && conn.emitted == old(conn.emitted)
    ensures conn.closed == old(conn.closed)
  {
    if circleId == "" {
      return;
    }
    var rooms := conn.rooms;
    for k := 0 to |rooms|
      invariant circleId !in rooms[..k]
    {
      if rooms[k] == circleId {
        return;
      }
    }
    assert rooms[..|rooms|] == rooms;
    conn.Join(circleId);
  }

  /** Joining is idempotent, so ensureRoomMembership never lists a room twice. */
  lemma WithRoomIdempotent(rooms: seq<Id>, circleId: Id)
    ensures WithRoom(WithRoom(rooms, circleId), circleId) == WithRoom(rooms, circleId)
    ensures |WithRoom(rooms, circleId)| <= |rooms| + 1
  {
  }

  // ---------------------------------------------------------------------------
  // Circle access

  /** The circle with id `circleId` is moderated by `userId`. */
  predicate ModeratesCircle(circles: seq<Circle>, circleId: Id, userId: Id) {
    exists c :: c in circles && c.id == circleId && c.moderatorId == userId
  }

  /** userHasCircleAccess: a membership of the user in the circle grants access;
      otherwise the circle's moderator has access, and a missing circle denies
      it. Err carries the failed lookup. */
  function CircleAccess(circles: seq<Circle>, memberships: seq<Membership>, circleId: Id, userId: Id,
                        faults: set<Fault>): (r: Result<bool, Fault>)
    ensures r.Err? ==> r.error in faults
    ensures r.Err? <==> (FindCircleMembershipFault in faults ||
      (Membership(userId, circleId) !in memberships && FindCircleFault in faults))
  {
    if FindCircleMembershipFault in faults then Err(FindCircleMembershipFault)
    else if Membership(userId, circleId) in memberships then Ok(true)
    else if FindCircleFault in faults then Err(FindCircleFault)
    else match FindCircle(circles, circleId)
      case None => Ok(false)
      case Some(c) => Ok(c.moderatorId == userId)
  }

  /** With unique circle ids, access is granted exactly to the circle's members
      and its moderator, once the lookups succeed. */
  lemma AccessGranted(circles: seq<Circle>, memberships: seq<Membership>, circleId: Id, userId: Id,
                      faults: set<Fault>)
    requires UniqueCircleIds(circles)
    ensures CircleAccess(circles, memberships, circleId, userId, faults) == Ok(true) <==>
      FindCircleMembershipFault !in faults &&
      (Membership(userId, circleId) in memberships ||
       (FindCircleFault !in faults && ModeratesCircle(circles, circleId, userId)))
  {
    if FindCircleMembershipFault !in faults && Membership(userId, circleId) !in memberships
       && FindCircleFault !in faults
    {
      if ModeratesCircle(circles, circleId, userId) {
        var c :| c in circles && c.id == circleId && c.moderatorId == userId;
        FindUniqueCircle(circles, c);
      }
    }
  }

  /** Whoever is granted access is a user of an existing circle. */
  lemma AccessImpliesRows(users: seq<User>, circles: seq<Circle>, memberships: seq<Membership>,
                          messages: seq<Message>, circleId: Id, userId: Id, faults: set<Fault>)
    requires RelationsHold(users, circles, memberships, messages)
    requires CircleAccess(circles, memberships, circleId, userId, faults) == Ok(true)
    ensures UserExists(users, userId) && CircleExists(circles, circleId)
  {
    if Membership(userId, circleId) !in memberships {
      var c := FindCircle(circles, circleId).value;
      assert c in circles;
    }
  }

  // ---------------------------------------------------------------------------
  // Authentication

  /** How authenticateConnection ends: a rejected token, a failed lookup (the
      user id is already stored), or success with the circle joined, if any. */
  datatype AuthOutcome =
    | InvalidToken
    | LookupFailed(userId: Id)
    | Authenticated(userId: Id, circle: Option<CircleInfo>)

  /** The outcome for the token whose verification gave `verified`: a user's
      first membership decides the circle, otherwise the first circle they
      moderate; a failed count of the members reads as zero. */
  function Authentication(circles: seq<Circle>, memberships: seq<Membership>,
                          verified: Option<Id>, faults: set<Fault>): AuthOutcome
    requires forall m :: m in memberships ==> CircleExists(circles, m.circleId)
  {
    if verified.None? then InvalidToken
    else
      var u := verified.value;
      if FindMembershipFault in faults then LookupFailed(u)
      else match FindMembership(memberships, u)
        case Some(m) =>
          FindExistingCircle(circles, m.circleId);
          var c := FindCircle(circles, m.circleId).value;
          var count := if ListCircleMembershipsFault in faults then 0 else MemberCount(memberships, c.id);
          Authenticated(u, Some(CircleInfo(c.id, c.name, count)))
        case None =>
          if FindModeratedCircleFault in faults then LookupFailed(u)
          else match FindModeratedCircle(circles, u)
            case None => Authenticated(u, None)
            case Some(c) => Authenticated(u, Some(CircleInfo(c.id, c.name, MemberCount(memberships, c.id))))
  }

  /** The circle an authenticated user is told about is one they may send to:
      they are its member or its moderator. */
  lemma AuthenticatedCircleGrantsAccess(circles: seq<Circle>, memberships: seq<Membership>,
                                        verified: Option<Id>, faults: set<Fault>)
    requires forall m :: m in memberships ==> CircleExists(circles, m.circleId)
    requires UniqueCircleIds(circles)
    requires FindCircleMembershipFault !in faults && FindCircleFault !in faults
    requires Authentication(circles, memberships, verified, faults).Authenticated?
    requires Authentication(circles, memberships, verified, faults).circle.Some?
    ensures CircleAccess(circles, memberships,
      Authentication(circles, memberships, verified, faults).circle.value.circleId,
      verified.value, faults) == Ok(true)
  {
    var u := verified.value;
    var circleId := Authentication(circles, memberships, verified, faults).circle.value.circleId;
    AccessGranted(circles, memberships, circleId, u, faults);
    match FindMembership(memberships, u)
    case Some(m) =>
      FindExistingCircle(circles, m.circleId);
      assert m == Membership(u, circleId);
    case None =>
      var c := FindModeratedCircle(circles, u).value;
      assert c in circles && c.moderatorId == u;
  }

  /** A user with no membership and no moderated circle authenticates without a
      circle, and one with a membership is never sent to a moderated circle. */
  lemma MembershipTakesPrecedence(circles: seq<Circle>, memberships: seq<Membership>,
                                  u: Id, faults: set<Fault>)
    requires forall m :: m in memberships ==> CircleExists(circles, m.circleId)
    requires FindMembershipFault !in faults && FindModeratedCircleFault !in faults
    ensures (forall m :: m in memberships ==> m.userId != u) &&
            (forall c :: c in circles ==> c.moderatorId != u)
        ==> Authentication(circles, memberships, Some(u), faults) == Authenticated(u, None)
    ensures (exists m :: m in memberships && m.userId == u) ==>
      Authentication(circles, memberships, Some(u), faults).circle.Some? &&
      Membership(u, Authentication(circles, memberships, Some(u), faults).circle.value.circleId) in memberships
  {
    if exists m :: m in memberships && m.userId == u {
      var m := FindMembership(memberships, u).value;
      FindExistingCircle(circles, m.circleId);
      assert m == Membership(u, m.circleId);
    }
  }

  // ---------------------------------------------------------------------------
  // send_message

  /** A message the server accepted: from whom, where, the trimmed text and the
      image URL, absent when empty. */
  datatype SendRequest = SendRequest(senderId: Id, circleId: Id, content: string, imageUrl: Option<string>)

  /** The checks send_message makes before it stores anything, in their order,
      with the message_error each failure emits. */
  function SendCheck(ctxUserId: Option<string>, payload: Option<MessagePayload>,
                     circles: seq<Circle>, memberships: seq<Membership>, faults: set<Fault>): (r: Result<SendRequest, string>)
    ensures UserIdOf(ctxUserId).None? ==> r == Err("Not authenticated")
    ensures UserIdOf(ctxUserId).Some? && payload.None? ==> r == Err("Invalid message format")
    ensures r.Ok? <==>
      && UserIdOf(ctxUserId).Some? && payload.Some?
      && payload.value.circleId != "" && !AllSpace(payload.value.content)
      && CircleAccess(circles, memberships, payload.value.circleId, ctxUserId.value, faults) == Ok(true)
    ensures r.Ok? ==>
      && r.value.senderId == ctxUserId.value && r.value.circleId == payload.value.circleId
      && r.value.content == TrimSpace(payload.value.content) && r.value.content != ""
      && (r.value.imageUrl.None? <==> payload.value.imageUrl == "")
      && (r.value.imageUrl.Some? ==> r.value.imageUrl.value == payload.value.imageUrl)
  {
    if UserIdOf(ctxUserId).None? then Err("Not authenticated")
    else if payload.None? then Err("Invalid message format")
    else
      var userId := ctxUserId.value;
      var p := payload.value;
      var content := TrimSpace(p.content);
      if p.circleId == "" || content == "" then Err("Circle and message content are required")
      else match CircleAccess(circles, memberships, p.circleId, userId, faults)
        case Err(_) => Err("Server error")
        case Ok(allowed) =>
          if !allowed then Err("Not authorized to send to this circle")
          else Ok(SendRequest(userId, p.circleId, content, if p.imageUrl == "" then None else Some(p.imageUrl)))
  }

  // ---------------------------------------------------------------------------
  // mark_read

  /** The checks mark_read makes before it looks for a receipt; it fails silently. */
  predicate ReadAccepted(ctxUserId: Option<string>, payload: Option<ReadReceiptPayload>,
                         circles: seq<Circle>, memberships: seq<Membership>, faults: set<Fault>)
  {
    && UserIdOf(ctxUserId).Some? && payload.Some?
    && payload.value.circleId != "" && payload.value.messageId != ""
    && CircleAccess(circles, memberships, payload.value.circleId, ctxUserId.value, faults) == Ok(true)
  }

  predicate MessageExists(messages: seq<Message>, id: Id) {
    exists m :: m in messages && m.id == id
  }

  /** No user holds two receipts for the same message. */
  predicate NoDuplicateReceipts(receipts: seq<Receipt>) {
    forall i, j :: 0 <= i < j < |receipts| ==> receipts[i] != receipts[j]
  }

  /** The reader of a new receipt is listed among its message's readers. */
  lemma NewReceiptListed(receipts: seq<Receipt>, messageId: Id, userId: Id)
    ensures userId in ReaderIdsOf(ReceiptsOf(receipts + [Receipt(messageId, userId)], messageId))
  {
    ReadersOfMessage(receipts + [Receipt(messageId, userId)], messageId, userId);
  }

  /** Adding a receipt nobody holds yet keeps receipts unique. */
  lemma AddReceiptKeepsUnique(receipts: seq<Receipt>, r: Receipt)
    requires NoDuplicateReceipts(receipts) && r !in receipts
    ensures NoDuplicateReceipts(receipts + [r])
  {
    var s := receipts + [r];
    forall i, j | 0 <= i < j < |s| ensures s[i] != s[j] {
      if j == |receipts| {
        assert s[i] == receipts[i];
      } else {
        assert s[i] == receipts[i] && s[j] == receipts[j];
      }
    }
  }

  // ---------------------------------------------------------------------------
  // extractToken

  /** extractToken: the text after the first "token=" up to the next "&". */
  function ExtractToken(query: string): string {
    var parts := Split(query, "token=");
    if |parts| < 2 then "" else Split(parts[1], "&")[0]
  }

  /** With "token=" present, the token is the first "&"-piece of the first
      "token="-piece of the text after the first "token=". */
  lemma ExtractTokenShape(query: string)
    requires Contains(query, "token=")
    ensures ExtractToken(query) ==
      Split(Split(query[IndexOf(query, "token=").value + 6..], "token=")[0], "&")[0]
  {
    SplitHead(query, "token=");
  }

  /** Without "token=" the token is empty; otherwise it is the longest prefix of
      the text after the first "token=" that holds neither "&" nor "token=". */
  lemma ExtractTokenFindsValue(query: string)
    ensures !Contains(query, "token=") ==> ExtractToken(query) == ""
    ensures Contains(query, "token=") ==>
      && ExtractToken(query) <= query[IndexOf(query, "token=").value + 6..]
      && !Contains(ExtractToken(query), "&") && !Contains(ExtractToken(query), "token=")
      && (|ExtractToken(query)| == |query[IndexOf(query, "token=").value + 6..]|
          || OccursAt(query[IndexOf(query, "token=").value + 6..], "&", |ExtractToken(query)|)
          || OccursAt(query[IndexOf(query, "token=").value + 6..], "token=", |ExtractToken(query)|))
  {
    SplitHead(query, "token=");
    if Contains(query, "token=") {
      var rest := query[IndexOf(query, "token=").value + 6..];
      var p1 := Split(rest, "token=")[0];
      var t := Split(p1, "&")[0];
      ExtractTokenShape(query);
      SplitFirstPiece(rest, "token=");
      SplitFirstPiece(p1, "&");
      if Contains(t, "token=") {
        PrefixContains(p1, t, "token=");
      }
      if t != p1 {
        PrefixOccurs(rest, p1, "&", |t|);
      }
    }
  }

  /** A query that is just "token=" and the token reads that token back. */
  lemma ExtractTokenRoundTrip(t: string)
    requires !Contains(t, "&") && !Contains(t, "token=")
    ensures ExtractToken("token=" + t) == t
  {
    var q := "token=" + t;
    assert OccursAt(q, "token=", 0);
    assert IndexOf(q, "token=") == Some(0);
    assert q[6..] == t;
    ExtractTokenFindsValue(q);
    var r := ExtractToken(q);
    assert !OccursAt(t, "&", |r|) && !OccursAt(t, "token=", |r|);
  }

  // ---------------------------------------------------------------------------
  // The server

  class SocketServer {
    const db: Database
    /** The events broadcast to rooms, in order. */
    var broadcasts: seq<Broadcast>

    constructor (db: Database)
      ensures this.db == db && broadcasts == []
    {
      this.db := db;
      broadcasts := [];
    }

    /** authenticateConnection, for a token whose verification gave `verified`
        (None when ValidateJWT rejects it). */
    method AuthenticateConnection(conn: Connection, verified: Option<Id>, faults: set<Fault>) returns (ok: bool)
      requires db.Valid()
      modifies conn
      ensures ok <==> Authentication(db.circles, db.memberships, verified, faults).Authenticated?
      ensures match Authentication(db.circles, db.memberships, verified, faults)
        case InvalidToken =>
          && conn.emitted == old(conn.emitted) + [AuthError("Invalid token")] && conn.closed
          && conn.userId == old(conn.userId) && conn.rooms == old(conn.rooms)
        case LookupFailed(u) =>
          && conn.emitted == old(conn.emitted) + [AuthError("Server error")] && conn.closed
          && conn.userId == Some(u) && conn.rooms == old(conn.rooms)
        case Authenticated(u, info) =>
          && conn.emitted == old(conn.emitted) + [AuthSuccess(u, info)] && conn.closed == old(conn.closed)
          && conn.userId == Some(u)
          && conn.rooms == if info.Some? then JoinRoom(old(conn.rooms), info.value.circleId) else old(conn.rooms)
    {
      if verified.None? {
        conn.Emit(AuthError("Invalid token"));
        conn.Close();
        return false;
      }
      var userId := verified.value;
      conn.SetUser(userId);

      if FindMembershipFault in faults {
        conn.Emit(AuthError("Server error"));
        conn.Close();
        return false;
      }
      var membership := FindMembership(db.memberships, userId);
      if membership.Some? {
        FindExistingCircle(db.circles, membership.value.circleId);
        var circle := FindCircle(db.circles, membership.value.circleId).value;
        conn.Join(circle.id);
        var memberCount := if ListCircleMembershipsFault in faults then 0 else MemberCount(db.memberships, circle.id);
        conn.Emit(AuthSuccess(userId, Some(CircleInfo(circle.id, circle.name, memberCount))));
        return true;
      }

      if FindModeratedCircleFault in faults {
        conn.Emit(AuthError("Server error"));
        conn.Close();
        return false;
      }
      var moderated := FindModeratedCircle(db.circles, userId);
      if moderated.None? {
        conn.Emit(AuthSuccess(userId, None));
        return true;
      }
      var circle := moderated.value;
      conn.Join(circle.id);
      conn.Emit(AuthSuccess(userId, Some(CircleInfo(circle.id, circle.name, MemberCount(db.memberships, circle.id)))));
      return true;
    }

    /** send_message: stores the message under `freshId` at time `now`, records
        the sender's own receipt, and broadcasts the message to the circle's
        room; every refusal is a message_error to the sender alone. */
    method SendMessage(conn: Connection, payload: Option<MessagePayload>, faults: set<Fault>, freshId: Id, now: int)
      requires db.Valid() && !MessageExists(db.messages, freshId)
      modifies this, db, conn
      ensures db.Valid()
      ensures db.users == old(db.users) && db.circles == old(db.circles)
      ensures db.memberships == old(db.memberships)
      ensures conn.userId == old(conn.userId) && conn.closed == old(conn.closed)
      ensures SendCheck(conn.userId, payload, db.circles, db.memberships, faults).Err? ==>
        && conn.emitted == old(conn.emitted) + [MessageError(SendCheck(conn.userId, payload, db.circles, db.memberships, faults).error)]
        && conn.rooms == old(conn.rooms) && broadcasts == old(broadcasts)
        && db.messages == old(db.messages) && db.receipts == old(db.receipts)
      ensures SendCheck(conn.userId, payload, db.circles, db.memberships, faults).Ok? ==>
        var req := SendCheck(conn.userId, payload, db.circles, db.memberships, faults).value;
        var msg := Message(freshId, req.circleId, req.senderId, req.content, req.imageUrl, now);
        && conn.rooms == WithRoom(old(conn.rooms), req.circleId)
        && (CreateMessageFault in faults ==>
              && conn.emitted == old(conn.emitted) + [MessageError("Failed to send message")]
              && broadcasts == old(broadcasts)
              && db.messages == old(db.messages) && db.receipts == old(db.receipts))
        && (CreateMessageFault !in faults ==>
              && conn.emitted == old(conn.emitted)
              && db.messages == old(db.messages) + [msg]
              && db.receipts == old(db.receipts) + (if CreateReceiptFault in faults then [] else [Receipt(freshId, req.senderId)])
              && FindUser(db.users, req.senderId).Some?
              && broadcasts == old(broadcasts) +
                   [Broadcast(req.circleId, NewMessage(ViewOf(FindUser(db.users, req.senderId).value, msg, [req.senderId])))])
    {
      var userId := UserIdOf(conn.userId);
      if userId.None? {
        conn.Emit(MessageError("Not authenticated"));
        return;
      }
      if payload.None? {
        conn.Emit(MessageError("Invalid message format"));
        return;
      }
      var circleId := payload.value.circleId;
      var content := TrimSpace(payload.value.content);
      if circleId == "" || content == "" {
        conn.Emit(MessageError("Circle and message content are required"));
        return;
      }
      var access := CircleAccess(db.circles, db.memberships, circleId, userId.value, faults);
      if access.Err? {
        conn.Emit(MessageError("Server error"));
        return;
      }
      if !access.value {
        conn.Emit(MessageError("Not authorized to send to this circle"));
        return;
      }
      AccessImpliesRows(db.users, db.circles, db.memberships, db.messages, circleId, userId.value, faults);

      EnsureRoomMembership(conn, circleId);

      if CreateMessageFault in faults {
        conn.Emit(MessageError("Failed to send message"));
        return;
      }
      var imageUrl := if payload.value.imageUrl != "" then Some(payload.value.imageUrl) else None;
      var msg := Message(freshId, circleId, userId.value, content, imageUrl, now);
      db.InsertMessage(msg);
      FindExistingUser(db.users, userId.value);
      var sender := FindUser(db.users, userId.value).value;

      if CreateReceiptFault !in faults {
        db.InsertReceipt(Receipt(freshId, userId.value));
      }

      broadcasts := broadcasts + [Broadcast(circleId, NewMessage(ViewOf(sender, msg, [userId.value])))];
    }

    /** mark_read: records that the connection's user read a message, unless a
        receipt is already there, and broadcasts the message's readers to the
        room named in the payload; every failure is silent. */
    method MarkRead(conn: Connection, payload: Option<ReadReceiptPayload>, faults: set<Fault>)
      requires db.Valid()
      modifies this, db
      ensures db.Valid()
      ensures db.users == old(db.users) && db.circles == old(db.circles)
      ensures db.memberships == old(db.memberships) && db.messages == old(db.messages)
      ensures !ReadAccepted(conn.userId, payload, db.circles, db.memberships, faults) ==>
        db.receipts == old(db.receipts) && broadcasts == old(broadcasts)
      ensures ReadAccepted(conn.userId, payload, db.circles, db.memberships, faults) ==>
        var receipt := Receipt(payload.value.messageId, conn.userId.value);
        if (FindReceiptFault !in faults && receipt in old(db.receipts)) || CreateReceiptFault in faults
           || !MessageExists(db.messages, receipt.messageId)
        then db.receipts == old(db.receipts) && broadcasts == old(broadcasts)
        else
          && db.receipts == old(db.receipts) + [receipt]
          && broadcasts == old(broadcasts) + (if ListReceiptsFault in faults then [] else
               [Broadcast(payload.value.circleId, MessageRead(receipt.messageId, receipt.userId,
                  ReaderIdsOf(ReceiptsOf(db.receipts, receipt.messageId))))])
      ensures FindReceiptFault !in faults && NoDuplicateReceipts(old(db.receipts)) ==> NoDuplicateReceipts(db.receipts)
    {
      var userId := UserIdOf(conn.userId);
      if userId.None? || payload.None? {
        return;
      }
      var messageId, circleId := payload.value.messageId, payload.value.circleId;
      if circleId == "" || messageId == "" {
        return;
      }
      var access := CircleAccess(db.circles, db.memberships, circleId, userId.value, faults);
      if access.Err? || !access.value {
        return;
      }
      AccessImpliesRows(db.users, db.circles, db.memberships, db.messages, circleId, userId.value, faults);

      var receipt := Receipt(messageId, userId.value);
      // A failed lookup reads as "no receipt yet".
      var existing := FindReceiptFault !in faults && receipt in db.receipts;
      if existing {
        return;
      }
      if CreateReceiptFault in faults || !MessageExists(db.messages, messageId) {
        return;
      }
      if FindReceiptFault !in faults && NoDuplicateReceipts(db.receipts) {
        AddReceiptKeepsUnique(db.receipts, receipt);
      }
      db.InsertReceipt(receipt);

      if ListReceiptsFault in faults {
        return;
      }
      var readBy := ReaderIds(ReceiptsOf(db.receipts, messageId));
      broadcasts := broadcasts + [Broadcast(circleId, MessageRead(messageId, userId.value, readBy))];
    }

    /** typing_start (typing) and typing_stop: announces the typist to the
        circle's room when the connection has joined it. The context's user id
        need only be a string here, possibly empty. */
    method Typing(conn: Connection, circleId: Id, typing: bool)
      modifies this
      ensures conn.userId.None? || circleId !in conn.rooms ==> broadcasts == old(broadcasts)
      ensures conn.userId.Some? && circleId in conn.rooms ==>
        broadcasts == old(broadcasts) + [Broadcast(circleId, UserTyping(conn.userId.value, typing))]
    {
      if conn.userId.None? {
        return;
      }
      var userId := conn.userId.value;
      var rooms := conn.rooms;
      for k := 0 to |rooms|
        invariant circleId !in rooms[..k]
        invariant broadcasts == old(broadcasts)
      {
        if rooms[k] == circleId {
          broadcasts := broadcasts + [Broadcast(circleId, UserTyping(userId, typing))];
          break;
        }
      }
      assert rooms[..|rooms|] == rooms;
    }
  }

  /** Whatever a connection does, a new message reaches only the room of a
      circle its sender may access, carrying the trimmed non-blank text. */
  lemma SentMessagesRespectAccess(ctxUserId: Option<string>, payload: Option<MessagePayload>,
                                  users: seq<User>, circles: seq<Circle>, memberships: seq<Membership>,
                                  messages: seq<Message>, faults: set<Fault>)
    requires RelationsHold(users, circles, memberships, messages)
    requires SendCheck(ctxUserId, payload, circles, memberships, faults).Ok?
    ensures UserExists(users, SendCheck(ctxUserId, payload, circles, memberships, faults).value.senderId)
    ensures CircleExists(circles, SendCheck(ctxUserId, payload, circles, memberships, faults).value.circleId)
  {
    var req := SendCheck(ctxUserId, payload, circles, memberships, faults).value;
    AccessImpliesRows(users, circles, memberships, messages, req.circleId, req.senderId, faults);
  }
}
