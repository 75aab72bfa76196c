/** The rows the core reads and writes through its Prisma client, held in memory.
    Every query the core issues is a function of the tables below; a query that
    fails with a driver error is modelled by the caller's set of `Fault`s, and
    "record not found" is the absence of a matching row. */
module Store {
  import opened Wrappers

  type Id = string

  datatype Role = RoleUser | RoleModerator

  datatype User = User(id: Id, fullName: string, profilePicture: Option<string>, role: Role)

  datatype Category = Crisis | AnxietyDepression | AcademicStress | SocialAdjustment | GeneralSupport

  datatype CircleStatus = Active | Full

  datatype Circle = Circle(
    id: Id,
    name: string,
    category: Category,
    status: CircleStatus,
    maxMembers: int,
    moderatorId: Id)

  datatype Membership = Membership(userId: Id, circleId: Id)

  datatype Message = Message(
    id: Id,
    circleId: Id,
    senderId: Id,
    content: string,
    imageUrl: Option<string>,
    createdAt: int)

  datatype Receipt = Receipt(messageId: Id, userId: Id)

  /** One tag per query shape the core issues. A handler given a fault set sees
      every call of a listed shape fail with a driver error (not "not found"). */
  datatype Fault =
    | ListOpenCirclesFault        // circles of a category with status ACTIVE
    | ListModeratorsFault         // users with role MODERATOR
    | CountCategoryFault          // circles of a category
    | CreateCircleFault
    | UpdateCircleFault
    | FindCircleFault             // the circle with an id
    | FindModeratedCircleFault    // the first circle a user moderates
    | FindMembershipFault         // the first membership of a user
    | FindCircleMembershipFault   // the membership of a user in one circle
    | ListCircleMembershipsFault  // the memberships of a circle
    | CreateMembershipFault
    | CreateMessageFault
    | ListMessagesFault
    | FindReceiptFault
    | CreateReceiptFault
    | ListReceiptsFault

  // ---------------------------------------------------------------------------
  // Generic row selection

  /** The rows of `s` that satisfy `p`, in table order. */
  function Filter<T(!new)>(s: seq<T>, p: T -> bool): (r: seq<T>)
    ensures |r| <= |s|
    ensures forall x :: x in r <==> x in s && p(x)
  {
    if s == [] then []
    else Filter(s[..|s| - 1], p) + (if p(s[|s| - 1]) then [s[|s| - 1]] else [])
  }

  /** Appending a row appends it to every selection it satisfies. */
  lemma FilterSnoc<T(!new)>(s: seq<T>, x: T, p: T -> bool)
    ensures Filter(s + [x], p) == Filter(s, p) + (if p(x) then [x] else [])
  {
    assert (s + [x])[..|s|] == s;
  }

  /** A selection nothing satisfies is empty. */
  lemma {:induction false} FilterNone<T(!new)>(s: seq<T>, p: T -> bool)
    requires forall x :: x in s ==> !p(x)
    ensures Filter(s, p) == []
  {
    if s != [] {
      assert s[|s| - 1] in s;
      FilterNone(s[..|s| - 1], p);
    }
  }

  /** The first row of `s` that satisfies `p` (Prisma's FindFirst). */
  function FindFirst<T(!new)>(s: seq<T>, p: T -> bool): (r: Option<T>)
    ensures r.Some? ==> r.value in s && p(r.value)
    ensures r.None? <==> forall x :: x in s ==> !p(x)
  {
    if s == [] then None
    else if p(s[0]) then Some(s[0])
    else FindFirst(s[1..], p)
  }

  /** Appending a row does not change a first match that already exists. */
  lemma {:induction false} FindFirstSnoc<T(!new)>(s: seq<T>, x: T, p: T -> bool)
    ensures FindFirst(s + [x], p) == if FindFirst(s, p).Some? then FindFirst(s, p) else FindFirst([x], p)
  {
    if s != [] {
      assert (s + [x])[1..] == s[1..] + [x];
      FindFirstSnoc(s[1..], x, p);
    }
  }

  // ---------------------------------------------------------------------------
  // The queries

  function FindUser(users: seq<User>, id: Id): Option<User> {
    FindFirst(users, (u: User) => u.id == id)
  }

  function FindCircle(circles: seq<Circle>, id: Id): Option<Circle> {
    FindFirst(circles, (c: Circle) => c.id == id)
  }

  /** Circle.FindFirst(ModeratorID == userId). */
  function FindModeratedCircle(circles: seq<Circle>, userId: Id): Option<Circle> {
    FindFirst(circles, (c: Circle) => c.moderatorId == userId)
  }

  /** CircleMembership.FindFirst(UserID == userId). */
  function FindMembership(memberships: seq<Membership>, userId: Id): Option<Membership> {
    FindFirst(memberships, (m: Membership) => m.userId == userId)
  }

  /** Circle.Memberships(): the memberships of one circle. */
  function MembershipsOf(memberships: seq<Membership>, circleId: Id): seq<Membership> {
    Filter(memberships, (m: Membership) => m.circleId == circleId)
  }

  function MemberCount(memberships: seq<Membership>, circleId: Id): nat {
    |MembershipsOf(memberships, circleId)|
  }

  function ModeratorsOf(users: seq<User>): seq<User> {
    Filter(users, (u: User) => u.role == RoleModerator)
  }

  /** User.ModeratedCircles(). */
  function ModeratedCircles(circles: seq<Circle>, userId: Id): seq<Circle> {
    Filter(circles, (c: Circle) => c.moderatorId == userId)
  }

  function CirclesIn(circles: seq<Circle>, category: Category): seq<Circle> {
    Filter(circles, (c: Circle) => c.category == category)
  }

  /** Circle.FindMany(Category == category, Status == ACTIVE). */
  function ActiveCirclesIn(circles: seq<Circle>, category: Category): seq<Circle> {
    Filter(circles, (c: Circle) => c.category == category && c.status == Active)
  }

  /** Message.FindMany(CircleID == circleId). */
  function MessagesOf(messages: seq<Message>, circleId: Id): seq<Message> {
    Filter(messages, (m: Message) => m.circleId == circleId)
  }

  /** MessageRead.FindMany(MessageID == messageId). */
  function ReceiptsOf(receipts: seq<Receipt>, messageId: Id): seq<Receipt> {
    Filter(receipts, (r: Receipt) => r.messageId == messageId)
  }

  predicate UserExists(users: seq<User>, id: Id) {
    exists u :: u in users && u.id == id
  }

  predicate CircleExists(circles: seq<Circle>, id: Id) {
    exists c :: c in circles && c.id == id
  }

  /** Primary keys: no two rows of a table share an id. */
  predicate UniqueUserIds(users: seq<User>) {
    forall i, j :: 0 <= i < j < |users| ==> users[i].id != users[j].id
  }

  predicate UniqueCircleIds(circles: seq<Circle>) {
    forall i, j :: 0 <= i < j < |circles| ==> circles[i].id != circles[j].id
  }

  predicate UniqueMessageIds(messages: seq<Message>) {
    forall i, j :: 0 <= i < j < |messages| ==> messages[i].id != messages[j].id
  }

  /** Circle.FindUnique(ID == id).Update(Status.Set(status)). */
  function SetStatus(circles: seq<Circle>, id: Id, status: CircleStatus): (r: seq<Circle>)
    ensures |r| == |circles|
    ensures forall k :: 0 <= k < |circles| ==>
      r[k] == if circles[k].id == id then circles[k].(status := status) else circles[k]
  {
    seq(|circles|, k requires 0 <= k < |circles| =>
      if circles[k].id == id then circles[k].(status := status) else circles[k])
  }

  /** Under unique ids, a circle's id finds that very circle. */
  lemma FindUniqueCircle(circles: seq<Circle>, c: Circle)
    requires c in circles && UniqueCircleIds(circles)
    ensures FindCircle(circles, c.id) == Some(c)
  {
    var found := FindCircle(circles, c.id).value;
    var i :| 0 <= i < |circles| && circles[i] == found;
    var j :| 0 <= j < |circles| && circles[j] == c;
  }

  /** An existing row is found by its key. */
  lemma FindExistingCircle(circles: seq<Circle>, id: Id)
    requires CircleExists(circles, id)
    ensures FindCircle(circles, id).Some? && FindCircle(circles, id).value.id == id
  {
    var c :| c in circles && c.id == id;
    var p := (c: Circle) => c.id == id;
    assert p(c);
  }

  lemma FindExistingUser(users: seq<User>, id: Id)
    requires UserExists(users, id)
    ensures FindUser(users, id).Some? && FindUser(users, id).value.id == id
  {
    var u :| u in users && u.id == id;
    var p := (u: User) => u.id == id;
    assert p(u);
  }

  /** The foreign keys the core follows (a membership's user and circle, a circle's
      moderator, a message's sender and circle) lead to existing rows. */
  ghost predicate RelationsHold(
    users: seq<User>, circles: seq<Circle>, memberships: seq<Membership>, messages: seq<Message>)
  {
    && (forall c :: c in circles ==> UserExists(users, c.moderatorId))
    && (forall m :: m in memberships ==> UserExists(users, m.userId) && CircleExists(circles, m.circleId))
    && (forall m :: m in messages ==> UserExists(users, m.senderId) && CircleExists(circles, m.circleId))
  }

  // ---------------------------------------------------------------------------
  // How the tables change

  lemma MemberCountSnoc(memberships: seq<Membership>, m: Membership, circleId: Id)
    ensures MemberCount(memberships + [m], circleId) ==
      MemberCount(memberships, circleId) + (if m.circleId == circleId then 1 else 0)
  {
    assert (memberships + [m])[..|memberships|] == memberships;
  }

  /** A circle no membership refers to has no members. */
  lemma MemberCountZero(memberships: seq<Membership>, circleId: Id)
    requires forall m :: m in memberships ==> m.circleId != circleId
    ensures MemberCount(memberships, circleId) == 0
  {
    FilterNone(memberships, (m: Membership) => m.circleId == circleId);
  }

  lemma RelationsAfterNewCircle(
    users: seq<User>, circles: seq<Circle>, memberships: seq<Membership>, messages: seq<Message>, c: Circle)
    requires RelationsHold(users, circles, memberships, messages) && UserExists(users, c.moderatorId)
    ensures RelationsHold(users, circles + [c], memberships, messages)
  {
    forall id | CircleExists(circles, id) ensures CircleExists(circles + [c], id) {
      var x :| x in circles && x.id == id;
      assert x in circles + [c];
    }
  }

  lemma RelationsAfterNewMembership(
    users: seq<User>, circles: seq<Circle>, memberships: seq<Membership>, messages: seq<Message>, m: Membership)
    requires RelationsHold(users, circles, memberships, messages)
    requires UserExists(users, m.userId) && CircleExists(circles, m.circleId)
    ensures RelationsHold(users, circles, memberships + [m], messages)
  {
  }

  lemma RelationsAfterNewMessage(
    users: seq<User>, circles: seq<Circle>, memberships: seq<Membership>, messages: seq<Message>, m: Message)
    requires RelationsHold(users, circles, memberships, messages)
    requires UserExists(users, m.senderId) && CircleExists(circles, m.circleId)
    ensures RelationsHold(users, circles, memberships, messages + [m])
  {
  }

  lemma RelationsAfterSetStatus(
    users: seq<User>, circles: seq<Circle>, memberships: seq<Membership>, messages: seq<Message>,
    id: Id, status: CircleStatus)
    requires RelationsHold(users, circles, memberships, messages) && UniqueCircleIds(circles)
    ensures RelationsHold(users, SetStatus(circles, id, status), memberships, messages)
    ensures UniqueCircleIds(SetStatus(circles, id, status))
  {
    var r := SetStatus(circles, id, status);
    forall cid | CircleExists(circles, cid) ensures CircleExists(r, cid) {
      var x :| x in circles && x.id == cid;
      var k :| 0 <= k < |circles| && circles[k] == x;
      assert r[k] in r;
    }
    forall c | c in r ensures UserExists(users, c.moderatorId) {
      var k :| 0 <= k < |r| && r[k] == c;
      assert circles[k] in circles;
    }
  }

  /** The database the core talks to. */
  class Database {
    var users: seq<User>
    var circles: seq<Circle>
    var memberships: seq<Membership>
    var messages: seq<Message>
    var receipts: seq<Receipt>
    /** Circle.maxMembers of a circle created without one (the schema default). */
    const defaultMaxMembers: nat

    ghost predicate Valid()
      reads this
    {
      && defaultMaxMembers >= 1
      && UniqueUserIds(users) && UniqueCircleIds(circles) && UniqueMessageIds(messages)
      && RelationsHold(users, circles, memberships, messages)
    }

    constructor (users: seq<User>, defaultMaxMembers: nat)
      requires defaultMaxMembers >= 1 && UniqueUserIds(users)
      ensures Valid()
      ensures this.users == users && this.defaultMaxMembers == defaultMaxMembers
      ensures circles == [] && memberships == [] && messages == [] && receipts == []
    {
      this.users := users;
      this.defaultMaxMembers := defaultMaxMembers;
      circles, memberships, messages, receipts := [], [], [], [];
    }

    /** Circle.CreateOne: a new circle under a fresh id, led by an existing user. */
    method InsertCircle(c: Circle)
      requires Valid() && !CircleExists(circles, c.id) && UserExists(users, c.moderatorId)
      modifies this
      ensures Valid()
      ensures circles == old(circles) + [c]
      ensures users == old(users) && memberships == old(memberships)
      ensures messages == old(messages) && receipts == old(receipts)
    {
      RelationsAfterNewCircle(users, circles, memberships, messages, c);
      circles := circles + [c];
    }

    /** CircleMembership.CreateOne: both linked rows must exist. */
    method InsertMembership(m: Membership)
      requires Valid() && UserExists(users, m.userId) && CircleExists(circles, m.circleId)
      modifies this
      ensures Valid()
      ensures memberships == old(memberships) + [m]
      ensures users == old(users) && circles == old(circles)
      ensures messages == old(messages) && receipts == old(receipts)
    {
      RelationsAfterNewMembership(users, circles, memberships, messages, m);
      memberships := memberships + [m];
    }

    /** Circle.FindUnique(ID).Update(Status): sets the status of the circle with
        that id, if any. */
    method UpdateCircleStatus(id: Id, status: CircleStatus)
      requires Valid()
      modifies this
      ensures Valid()
      ensures circles == SetStatus(old(circles), id, status)
      ensures users == old(users) && memberships == old(memberships)
      ensures messages == old(messages) && receipts == old(receipts)
    {
      RelationsAfterSetStatus(users, circles, memberships, messages, id, status);
      circles := SetStatus(circles, id, status);
    }

    /** Message.CreateOne: a new message under a fresh id, from an existing user
        to an existing circle. */
    method InsertMessage(m: Message)
      requires Valid() && !(exists x :: x in messages && x.id == m.id)
      requires UserExists(users, m.senderId) && CircleExists(circles, m.circleId)
      modifies this
      ensures Valid()
      ensures messages == old(messages) + [m]
      ensures users == old(users) && circles == old(circles)
      ensures memberships == old(memberships) && receipts == old(receipts)
    {
      RelationsAfterNewMessage(users, circles, memberships, messages, m);
      messages := messages + [m];
    }

    /** MessageRead.CreateOne. */
    method InsertReceipt(r: Receipt)
      requires Valid()
      modifies this
      ensures Valid()
      ensures receipts == old(receipts) + [r]
      ensures users == old(users) && circles == old(circles)
      ensures memberships == old(memberships) && messages == old(messages)
    {
      receipts := receipts + [r];
    }
  }
}
