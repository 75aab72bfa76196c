/** The REST handlers of a circle's chat: its message history, its member list,
    the caller's own circle and the upload of a message image. The caller's id
    is the one the authentication middleware put in the request context. */
module MessageHandlers {
  import opened Wrappers
  import opened Store
  import opened Views
  import opened Realtime

  /** A JSON reply: the value with status 200, or a status and an error text. */
  datatype Reply<+T> = Success(value: T) | Failure(status: nat, error: string)

  const StatusBadRequest: nat := 400
  const StatusUnauthorized: nat := 401
  const StatusForbidden: nat := 403
  const StatusNotFound: nat := 404
  const StatusInternalServerError: nat := 500

  const NotAuthenticated := "User not authenticated"

  // ---------------------------------------------------------------------------
  // GetCircleMessages

  /** The caller may read the circle: it exists and the caller moderates it or
      holds a membership the lookup finds. */
  predicate CanView(circles: seq<Circle>, memberships: seq<Membership>, circleId: Id, userId: Id,
                    faults: set<Fault>)
  {
    && FindCircle(circles, circleId).Some?
    && (FindCircle(circles, circleId).value.moderatorId == userId
        || (FindCircleMembershipFault !in faults && Membership(userId, circleId) in memberships))
  }

  /** One message as the history lists it: its sender's name and avatar, and the
      readers of its receipts in receipt order. */
  function HistoryEntry(users: seq<User>, receipts: seq<Receipt>, m: Message): MessageView
    requires UserExists(users, m.senderId)
  {
    FindExistingUser(users, m.senderId);
    ViewOf(FindUser(users, m.senderId).value, m, ReaderIdsOf(ReceiptsOf(receipts, m.id)))
  }

  function History(users: seq<User>, receipts: seq<Receipt>, msgs: seq<Message>): seq<MessageView>
    requires forall m :: m in msgs ==> UserExists(users, m.senderId)
  {
    seq(|msgs|, i requires 0 <= i < |msgs| => HistoryEntry(users, receipts, msgs[i]))
  }

  /** Builds the history entry by entry, each with its readers. */
  method BuildHistory(users: seq<User>, receipts: seq<Receipt>, msgs: seq<Message>) returns (history: seq<MessageView>)
    requires forall m :: m in msgs ==> UserExists(users, m.senderId)
    ensures history == History(users, receipts, msgs)
  {
    var entries := new MessageView[|msgs|];
    for i := 0 to |msgs|
      invariant forall k :: 0 <= k < i ==> entries[k] == HistoryEntry(users, receipts, msgs[k])
    {
      var m := msgs[i];
      assert m in msgs;
      FindExistingUser(users, m.senderId);
      var sender := FindUser(users, m.senderId).value;
      var readBy := ReaderIds(ReceiptsOf(receipts, m.id));
      entries[i] := ViewOf(sender, m, readBy);
    }
    history := entries[..];
  }

  /** GetCircleMessages: the circle's messages for a caller who may view it. */
  method GetCircleMessages(db: Database, userId: Option<Id>, circleId: Id, faults: set<Fault>)
    returns (r: Reply<seq<MessageView>>)
    requires db.Valid()
    ensures userId.None? ==> r == Failure(StatusUnauthorized, NotAuthenticated)
    ensures userId.Some? && (FindCircleFault in faults || !CircleExists(db.circles, circleId)) ==>
      r == Failure(StatusNotFound, "Circle not found")
    ensures (userId.Some? && FindCircleFault !in faults && CircleExists(db.circles, circleId)
      && !CanView(db.circles, db.memberships, circleId, userId.value, faults)) ==>
      r == Failure(StatusForbidden, "Not authorized to view this circle's messages")
    ensures (userId.Some? && FindCircleFault !in faults
      && CanView(db.circles, db.memberships, circleId, userId.value, faults)
      && ListMessagesFault in faults) ==>
      r == Failure(StatusInternalServerError, "Failed to fetch messages")
    ensures r.Success? <==>
      userId.Some? && FindCircleFault !in faults && ListMessagesFault !in faults
      && CanView(db.circles, db.memberships, circleId, userId.value, faults)
    ensures r.Success? ==> r.value == History(db.users, db.receipts, MessagesOf(db.messages, circleId))
  {
    if userId.None? {
      return Failure(StatusUnauthorized, NotAuthenticated);
    }
    var circles, memberships, messages := db.circles, db.memberships, db.messages;
    var circle := if FindCircleFault in faults then None else FindCircle(circles, circleId);
    if circle.None? {
      if FindCircleFault !in faults && CircleExists(circles, circleId) {
        FindExistingCircle(circles, circleId);
      }
      return Failure(StatusNotFound, "Circle not found");
    }
    assert circle.value in circles;
    var isModerator := circle.value.moderatorId == userId.value;
    if !isModerator {
      var membership := FindCircleMembershipFault !in faults && Membership(userId.value, circleId) in memberships;
      if !membership {
        return Failure(StatusForbidden, "Not authorized to view this circle's messages");
      }
    }
    if ListMessagesFault in faults {
      return Failure(StatusInternalServerError, "Failed to fetch messages");
    }
    var msgs := MessagesOf(messages, circleId);
    forall m | m in msgs ensures UserExists(db.users, m.senderId) {
      assert m in messages;
    }
    var history := BuildHistory(db.users, db.receipts, msgs);
    return Success(history);
  }

  /** Each entry of the history is the message at its position, sent to this
      circle by the user named in it, and lists exactly the users holding a
      receipt for it. */
  lemma HistoryDescribesMessages(users: seq<User>, receipts: seq<Receipt>, messages: seq<Message>,
                                 circleId: Id, k: nat, reader: Id)
    requires forall m :: m in messages ==> UserExists(users, m.senderId)
    requires k < |MessagesOf(messages, circleId)|
    ensures |History(users, receipts, MessagesOf(messages, circleId))| == |MessagesOf(messages, circleId)|
    ensures History(users, receipts, MessagesOf(messages, circleId))[k].id == MessagesOf(messages, circleId)[k].id
    ensures History(users, receipts, MessagesOf(messages, circleId))[k].circleId == circleId
    ensures History(users, receipts, MessagesOf(messages, circleId))[k].senderId == MessagesOf(messages, circleId)[k].senderId
    ensures reader in History(users, receipts, MessagesOf(messages, circleId))[k].readBy <==>
      Receipt(MessagesOf(messages, circleId)[k].id, reader) in receipts
  {
    var msgs := MessagesOf(messages, circleId);
    var m := msgs[k];
    assert m in msgs;
    FindExistingUser(users, m.senderId);
    ReadersOfMessage(receipts, m.id, reader);
  }

  /** Messages stored in time order. */
  predicate InTimeOrder(msgs: seq<Message>) {
    forall i, j :: 0 <= i < j < |msgs| ==> msgs[i].createdAt <= msgs[j].createdAt
  }

  lemma {:induction false} FilterKeepsTimeOrder(msgs: seq<Message>, p: Message -> bool)
    requires InTimeOrder(msgs)
    ensures InTimeOrder(Filter(msgs, p))
  {
    if msgs != [] {
      var init := msgs[..|msgs| - 1];
      var last := msgs[|msgs| - 1];
      FilterKeepsTimeOrder(init, p);
      var f := Filter(init, p);
      forall x | x in f ensures x.createdAt <= last.createdAt {
        var i :| 0 <= i < |init| && init[i] == x;
        assert msgs[i] == x;
      }
    }
  }

  /** The history comes oldest first whenever messages were stored in time order,
      which is the order the handler asks the database for. */
  lemma HistoryInTimeOrder(users: seq<User>, receipts: seq<Receipt>, messages: seq<Message>, circleId: Id)
    requires forall m :: m in messages ==> UserExists(users, m.senderId)
    requires InTimeOrder(messages)
    ensures forall i, j :: 0 <= i < j < |MessagesOf(messages, circleId)| ==>
      History(users, receipts, MessagesOf(messages, circleId))[i].createdAt <=
      History(users, receipts, MessagesOf(messages, circleId))[j].createdAt
  {
    FilterKeepsTimeOrder(messages, (m: Message) => m.circleId == circleId);
  }

  /** The REST history and the realtime socket admit the same users to a circle
      once every lookup succeeds. */
  lemma ViewMatchesSocketAccess(circles: seq<Circle>, memberships: seq<Membership>, circleId: Id, userId: Id)
    requires UniqueCircleIds(circles)
    requires forall m :: m in memberships ==> CircleExists(circles, m.circleId)
    ensures CanView(circles, memberships, circleId, userId, {}) <==>
      CircleAccess(circles, memberships, circleId, userId, {}) == Ok(true)
  {
    AccessGranted(circles, memberships, circleId, userId, {});
    if Membership(userId, circleId) in memberships {
      FindExistingCircle(circles, circleId);
    }
    if FindCircle(circles, circleId).Some? {
      var c := FindCircle(circles, circleId).value;
      assert c in circles;
    }
  }

  // ---------------------------------------------------------------------------
  // GetCircleMembers

  datatype MemberInfo = MemberInfo(id: Id, fullName: string, profilePicture: Option<string>, isModerator: bool)

  datatype CircleMembers = CircleMembers(circleId: Id, circleName: string, members: seq<MemberInfo>)

  function InfoOf(u: User, moderatorId: Id): MemberInfo {
    MemberInfo(u.id, u.fullName, u.profilePicture, u.id == moderatorId)
  }

  /** The entry of one membership: its user, flagged when that user leads the circle. */
  function MemberEntry(users: seq<User>, m: Membership, moderatorId: Id): (r: MemberInfo)
    requires UserExists(users, m.userId)
    ensures r.id == m.userId && (r.isModerator <==> m.userId == moderatorId)
  {
    FindExistingUser(users, m.userId);
    InfoOf(FindUser(users, m.userId).value, moderatorId)
  }

  function MemberEntries(users: seq<User>, ms: seq<Membership>, moderatorId: Id): seq<MemberInfo>
    requires forall m :: m in ms ==> UserExists(users, m.userId)
  {
    seq(|ms|, i requires 0 <= i < |ms| => MemberEntry(users, ms[i], moderatorId))
  }

  predicate Lists(members: seq<MemberInfo>, id: Id) {
    exists k :: 0 <= k < |members| && members[k].id == id
  }

  /** The members of a circle in membership order, the moderator appended when
      not among them. */
  function MemberList(users: seq<User>, ms: seq<Membership>, moderator: User): seq<MemberInfo>
    requires forall m :: m in ms ==> UserExists(users, m.userId)
  {
    var entries := MemberEntries(users, ms, moderator.id);
    if Lists(entries, moderator.id) then entries else entries + [InfoOf(moderator, moderator.id)]
  }

  /** The list names exactly the members and the moderator, flags exactly the
      moderator's entries, and holds one entry per membership plus at most one. */
  lemma MemberListFacts(users: seq<User>, ms: seq<Membership>, moderator: User, u: Id)
    requires forall m :: m in ms ==> UserExists(users, m.userId)
    ensures |ms| <= |MemberList(users, ms, moderator)| <= |ms| + 1
    ensures Lists(MemberList(users, ms, moderator), moderator.id)
    ensures forall k :: 0 <= k < |MemberList(users, ms, moderator)| ==>
      (MemberList(users, ms, moderator)[k].isModerator <==> MemberList(users, ms, moderator)[k].id == moderator.id)
    ensures Lists(MemberList(users, ms, moderator), u) <==>
      (u == moderator.id || exists i :: 0 <= i < |ms| && ms[i].userId == u)
  {
    var entries := MemberEntries(users, ms, moderator.id);
    var list := MemberList(users, ms, moderator);
    assert forall k :: 0 <= k < |entries| ==> list[k] == entries[k];
    if !Lists(entries, moderator.id) {
      assert list[|entries|].id == moderator.id;
    }
    if exists i :: 0 <= i < |ms| && ms[i].userId == u {
      var i :| 0 <= i < |ms| && ms[i].userId == u;
      assert list[i].id == u;
    }
    if Lists(list, u) {
      var k :| 0 <= k < |list| && list[k].id == u;
      if k < |entries| {
        assert ms[k].userId == u;
      }
    }
  }

  /** The member check: some membership of the circle belongs to the caller. */
  method HasMember(ms: seq<Membership>, userId: Id) returns (allowed: bool)
    ensures allowed <==> exists k :: 0 <= k < |ms| && ms[k].userId == userId
  {
    allowed := false;
    for i := 0 to |ms|
      invariant allowed <==> exists k :: 0 <= k < i && ms[k].userId == userId
    {
      if ms[i].userId == userId {
        allowed := true;
        break;
      }
    }
  }

  /** Builds the member list: one entry per membership, then the moderator if
      no entry names them. */
  method BuildMemberList(users: seq<User>, ms: seq<Membership>, moderator: User) returns (members: seq<MemberInfo>)
    requires forall m :: m in ms ==> UserExists(users, m.userId)
    ensures members == MemberList(users, ms, moderator)
  {
    var entries := new MemberInfo[|ms|];
    for i := 0 to |ms|
      invariant forall k :: 0 <= k < i ==> entries[k] == MemberEntry(users, ms[k], moderator.id)
    {
      assert ms[i] in ms;
      FindExistingUser(users, ms[i].userId);
      var user := FindUser(users, ms[i].userId).value;
      entries[i] := MemberInfo(user.id, user.fullName, user.profilePicture, user.id == moderator.id);
    }
    members := entries[..];
    assert members == MemberEntries(users, ms, moderator.id);

    var moderatorInMembers := false;
    for i := 0 to |members|
      invariant moderatorInMembers <==> exists k :: 0 <= k < i && members[k].id == moderator.id
    {
      if members[i].id == moderator.id {
        moderatorInMembers := true;
        break;
      }
    }
    if !moderatorInMembers {
      members := members + [MemberInfo(moderator.id, moderator.fullName, moderator.profilePicture, true)];
    }
  }

  /** GetCircleMembers: the circle's member list for its moderator or a member.
      A failed or empty circle lookup answers 500. */
  method GetCircleMembers(db: Database, userId: Option<Id>, circleId: Id, faults: set<Fault>)
    returns (r: Reply<CircleMembers>)
    requires db.Valid()
    ensures userId.None? ==> r == Failure(StatusUnauthorized, NotAuthenticated)
    ensures userId.Some? && (FindCircleFault in faults || !CircleExists(db.circles, circleId)) ==>
      r == Failure(StatusInternalServerError, "Failed to fetch circle members")
    ensures userId.Some? && FindCircleFault !in faults && CircleExists(db.circles, circleId) ==>
      && FindCircle(db.circles, circleId).Some?
      && FindUser(db.users, FindCircle(db.circles, circleId).value.moderatorId).Some?
      && r == if FindCircle(db.circles, circleId).value.moderatorId != userId.value
                 && Membership(userId.value, circleId) !in db.memberships
              then Failure(StatusForbidden, "Not authorized to view this circle")
              else Success(CircleMembers(circleId, FindCircle(db.circles, circleId).value.name,
                MemberList(db.users, MembershipsOf(db.memberships, circleId),
                  FindUser(db.users, FindCircle(db.circles, circleId).value.moderatorId).value)))
  {
    if userId.None? {
      return Failure(StatusUnauthorized, NotAuthenticated);
    }
    var users, circles := db.users, db.circles;
    var found := if FindCircleFault in faults then None else FindCircle(circles, circleId);
    if found.None? {
      if FindCircleFault !in faults && CircleExists(circles, circleId) {
        FindExistingCircle(circles, circleId);
      }
      return Failure(StatusInternalServerError, "Failed to fetch circle members");
    }
    var circle := found.value;
    assert circle in circles;
    FindExistingUser(users, circle.moderatorId);
    var moderator := FindUser(users, circle.moderatorId).value;
    var memberships := MembershipsOf(db.memberships, circleId);
    forall m | m in memberships ensures UserExists(users, m.userId) {
      assert m in db.memberships;
    }

    if circle.moderatorId != userId.value {
      var allowed := HasMember(memberships, userId.value);
      if Membership(userId.value, circleId) in db.memberships {
        assert Membership(userId.value, circleId) in memberships;
      }
      if allowed {
        var k :| 0 <= k < |memberships| && memberships[k].userId == userId.value;
        assert memberships[k] in memberships;
      }
      if !allowed {
        return Failure(StatusForbidden, "Not authorized to view this circle");
      }
    }

    var members := BuildMemberList(users, memberships, moderator);
    return Success(CircleMembers(circle.id, circle.name, members));
  }

  // ---------------------------------------------------------------------------
  // GetUserCircle

  datatype CircleSummary = CircleSummary(
    circleId: Id, circleName: string, category: Category, memberCount: nat, status: CircleStatus)

  function SummaryOf(c: Circle, memberships: seq<Membership>): CircleSummary {
    CircleSummary(c.id, c.name, c.category, MemberCount(memberships, c.id), c.status)
  }

  /** GetUserCircle: the circle of the caller's first membership, otherwise the
      first circle the caller moderates. */
  function GetUserCircle(circles: seq<Circle>, memberships: seq<Membership>, userId: Option<Id>,
                         faults: set<Fault>): (r: Reply<CircleSummary>)
    requires forall m :: m in memberships ==> CircleExists(circles, m.circleId)
    ensures r.Failure? ==> r.status in {StatusUnauthorized, StatusNotFound, StatusInternalServerError}
    ensures r.Success? ==> (userId.Some? && CircleExists(circles, r.value.circleId) &&
      r.value.memberCount == MemberCount(memberships, r.value.circleId))
    ensures r.Success? ==>
      || Membership(userId.value, r.value.circleId) in memberships
      || exists c :: c in circles && c.id == r.value.circleId && c.moderatorId == userId.value
    ensures userId.Some? && FindMembershipFault !in faults && FindMembership(memberships, userId.value).Some? ==>
      r.Success? && r.value.circleId == FindMembership(memberships, userId.value).value.circleId
    ensures r == Failure(StatusNotFound, "No circle found for user") <==>
      && userId.Some? && FindMembershipFault !in faults && FindModeratedCircleFault !in faults
      && FindMembership(memberships, userId.value).None? && FindModeratedCircle(circles, userId.value).None?
  {
    if userId.None? then Failure(StatusUnauthorized, NotAuthenticated)
    else
      var u := userId.value;
      if FindMembershipFault in faults then Failure(StatusInternalServerError, "Failed to fetch user circle")
      else match FindMembership(memberships, u)
        case Some(m) =>
          FindExistingCircle(circles, m.circleId);
          var c := FindCircle(circles, m.circleId).value;
          assert c in circles;
          Success(SummaryOf(c, memberships))
        case None =>
          if FindModeratedCircleFault in faults then Failure(StatusInternalServerError, "Failed to fetch user circle")
          else match FindModeratedCircle(circles, u)
            case None => Failure(StatusNotFound, "No circle found for user")
            case Some(c) => Success(SummaryOf(c, memberships))
  }

  /** GetUserCircle reports the very circle whose room the socket joins on
      authentication, with the same member count, and fails where it fails. */
  lemma UserCircleMatchesAuthentication(circles: seq<Circle>, memberships: seq<Membership>, u: Id,
                                        faults: set<Fault>)
    requires forall m :: m in memberships ==> CircleExists(circles, m.circleId)
    requires ListCircleMembershipsFault !in faults
    ensures GetUserCircle(circles, memberships, Some(u), faults).Success? <==>
      Authentication(circles, memberships, Some(u), faults).Authenticated? &&
      Authentication(circles, memberships, Some(u), faults).circle.Some?
    ensures GetUserCircle(circles, memberships, Some(u), faults).Success? ==>
      var s := GetUserCircle(circles, memberships, Some(u), faults).value;
      var info := Authentication(circles, memberships, Some(u), faults).circle.value;
      s.circleId == info.circleId && s.circleName == info.circleName && s.memberCount == info.memberCount
    ensures GetUserCircle(circles, memberships, Some(u), faults) == Failure(StatusNotFound, "No circle found for user") <==>
      Authentication(circles, memberships, Some(u), faults) == Authenticated(u, None)
    ensures (GetUserCircle(circles, memberships, Some(u), faults).Failure? &&
             GetUserCircle(circles, memberships, Some(u), faults).status == StatusInternalServerError) <==>
      Authentication(circles, memberships, Some(u), faults) == LookupFailed(u)
  {
  }

  // ---------------------------------------------------------------------------
  // UploadImage

  /** The "image" part of the multipart form: its file name, declared content
      type and size in bytes. */
  datatype UploadedFile = UploadedFile(filename: string, contentType: string, size: nat)

  datatype UploadedImage = UploadedImage(imageUrl: string, filename: string)

  const AllowedImageTypes: seq<string> := ["image/jpeg", "image/jpg", "image/png", "image/gif", "image/webp"]

  /** Five mebibytes. */
  const MaxImageSize: nat := 5 * 1024 * 1024

  const UploadsUrlPrefix := "/uploads/messages/"

  /** The position of the last '.' in `path[..i]` that no '/' follows there. */
  function LastDot(path: string, i: nat): (r: Option<nat>)
    requires i <= |path|
    ensures r.Some? ==> (r.value < i && path[r.value] == '.' &&
      forall l :: r.value < l < i ==> path[l] != '.' && path[l] != '/')
    ensures r.None? ==> forall k :: 0 <= k < i && path[k] == '.' ==> exists l :: k < l < i && path[l] == '/'
  {
    if i == 0 || path[i - 1] == '/' then None
    else if path[i - 1] == '.' then Some(i - 1)
    else LastDot(path, i - 1)
  }

  /** filepath.Ext: the suffix of the last path element from its final '.',
      empty when that element has none. */
  function Ext(path: string): (r: string)
    ensures |r| <= |path| && r == path[|path| - |r|..]
    ensures r == "" || r[0] == '.'
    ensures forall l :: 0 < l < |r| ==> r[l] != '.' && r[l] != '/'
    ensures r == "" ==> forall k :: 0 <= k < |path| && path[k] == '.' ==> exists l :: k < l < |path| && path[l] == '/'
  {
    match LastDot(path, |path|)
    case None => ""
    case Some(k) => path[k..]
  }

  /** UploadImage: accepts an image of an allowed type and at most 5 MiB and
      stores it under "<stamp>_<first 8 characters of uuid><extension>".
      The clock's stamp, the uuid and the outcome of the directory creation
      and of the copy are parameters. */
  method UploadImage(authenticated: bool, file: Option<UploadedFile>, dirCreated: bool, saved: bool,
                     stamp: string, uuid: string) returns (r: Reply<UploadedImage>)
    requires |uuid| >= 8
    ensures !authenticated ==> r == Failure(StatusUnauthorized, NotAuthenticated)
    ensures authenticated && file.None? ==> r == Failure(StatusBadRequest, "No image file provided")
    ensures authenticated && file.Some? && file.value.contentType !in AllowedImageTypes ==>
      r == Failure(StatusBadRequest, "Invalid file type. Only images are allowed")
    ensures authenticated && file.Some? && file.value.contentType in AllowedImageTypes && file.value.size > MaxImageSize ==>
      r == Failure(StatusBadRequest, "File too large. Maximum size is 5MB")
    ensures (authenticated && file.Some? && file.value.contentType in AllowedImageTypes &&
      file.value.size <= MaxImageSize && !dirCreated) ==>
      r == Failure(StatusInternalServerError, "Failed to create upload directory")
    ensures (authenticated && file.Some? && file.value.contentType in AllowedImageTypes &&
      file.value.size <= MaxImageSize && dirCreated && !saved) ==>
      r == Failure(StatusInternalServerError, "Failed to save file")
    ensures r.Success? <==>
      authenticated && file.Some? && file.value.contentType in AllowedImageTypes &&
      file.value.size <= MaxImageSize && dirCreated && saved
    ensures r.Success? ==>
      && r.value.filename == stamp + "_" + uuid[..8] + Ext(file.value.filename)
      && r.value.imageUrl == UploadsUrlPrefix + r.value.filename
  {
    if !authenticated {
      return Failure(StatusUnauthorized, NotAuthenticated);
    }
    if file.None? {
      return Failure(StatusBadRequest, "No image file provided");
    }
    var contentType := file.value.contentType;
    var isValidType := false;
    for i := 0 to |AllowedImageTypes|
      invariant isValidType <==> contentType in AllowedImageTypes[..i]
    {
      if contentType == AllowedImageTypes[i] {
        isValidType := true;
        break;
      }
    }
    assert AllowedImageTypes[..|AllowedImageTypes|] == AllowedImageTypes;
    if !isValidType {
      return Failure(StatusBadRequest, "Invalid file type. Only images are allowed");
    }
    if file.value.size > MaxImageSize {
      return Failure(StatusBadRequest, "File too large. Maximum size is 5MB");
    }
    if !dirCreated {
      return Failure(StatusInternalServerError, "Failed to create upload directory");
    }
    var filename := stamp + "_" + uuid[..8] + Ext(file.value.filename);
    if !saved {
      return Failure(StatusInternalServerError, "Failed to save file");
    }
    return Success(UploadedImage(UploadsUrlPrefix + filename, filename));
  }

  /** The stored file keeps the uploaded file's extension, as long as the stamp
      and the uuid hold no '.' or '/' (a layout stamp and a uuid never do). */
  lemma GeneratedNameKeepsExtension(stamp: string, uuid8: string, original: string)
    requires forall k :: 0 <= k < |stamp| ==> stamp[k] != '.' && stamp[k] != '/'
    requires forall k :: 0 <= k < |uuid8| ==> uuid8[k] != '.' && uuid8[k] != '/'
    ensures Ext(stamp + "_" + uuid8 + Ext(original)) == Ext(original)
    ensures Ext(UploadsUrlPrefix + stamp + "_" + uuid8 + Ext(original)) == Ext(original)
  {
    var e := Ext(original);
    ExtOfSuffix(stamp + "_" + uuid8, e);
    ExtOfSuffix(UploadsUrlPrefix + stamp + "_" + uuid8, e);
    assert UploadsUrlPrefix + stamp + "_" + uuid8 + e == (UploadsUrlPrefix + stamp + "_" + uuid8) + e;
  }

  /** A '.' that nothing but ordinary characters follows in `path[..i]` is the
      last dot there. */
  lemma {:induction false} LastDotFound(path: string, j: nat, i: nat)
    requires j < i <= |path| && path[j] == '.'
    requires forall l :: j < l < i ==> path[l] != '.' && path[l] != '/'
    ensures LastDot(path, i) == Some(j)
    decreases i
  {
    if i > j + 1 {
      LastDotFound(path, j, i - 1);
    }
  }

  /** When every '.' of `path[..i]` has a '/' after it, there is no last dot. */
  lemma {:induction false} LastDotAbsent(path: string, i: nat)
    requires i <= |path|
    requires forall k :: 0 <= k < i && path[k] == '.' ==> exists l :: k < l < i && path[l] == '/'
    ensures LastDot(path, i).None?
    decreases i
  {
    if i > 0 && path[i - 1] != '/' {
      forall k | 0 <= k < i - 1 && path[k] == '.' ensures exists l :: k < l < i - 1 && path[l] == '/' {
        var l :| k < l < i && path[l] == '/';
        assert l != i - 1;
      }
      LastDotAbsent(path, i - 1);
    }
  }

  /** Appending an extension to a name whose last element has no '.' gives that
      extension back. */
  lemma ExtOfSuffix(a: string, e: string)
    requires forall k :: 0 <= k < |a| && a[k] == '.' ==> exists l :: k < l < |a| && a[l] == '/'
    requires e == "" || e[0] == '.'
    requires forall l :: 0 < l < |e| ==> e[l] != '.' && e[l] != '/'
    ensures Ext(a + e) == e
  {
    var s := a + e;
    if e == "" {
      assert s == a;
      LastDotAbsent(s, |s|);
    } else {
      forall l | |a| < l < |s| ensures s[l] != '.' && s[l] != '/' {
        assert s[l] == e[l - |a|];
      }
      LastDotFound(s, |a|, |s|);
      assert s[|a|..] == e;
    }
  }
}
