/** The circle matcher: risk triage, topic categorisation, and placing a user in a
    circle of that category, creating the circle (with the least loaded
    moderator) when every open one is full. */
module CircleMatching {
  import opened Wrappers
  import opened Text
  import opened Store

  // ---------------------------------------------------------------------------
  // Risk triage

  /** Critical when both scores are at least 5, or either one is the maximum 6. */
  predicate IsCriticalRisk(phq2Total: int, gad2Total: int) {
    (phq2Total >= 5 && gad2Total >= 5) || phq2Total == 6 || gad2Total == 6
  }

  /** Within the scores' range [0, 6], raising a score never clears a critical
      verdict. */
  lemma CriticalRiskMonotone(p: int, g: int, p': int, g': int)
    requires 0 <= p <= p' <= 6 && 0 <= g <= g' <= 6
    requires IsCriticalRisk(p, g)
    ensures IsCriticalRisk(p', g')
  {
  }

  // ---------------------------------------------------------------------------
  // Categorisation

  const CrisisKeywords: seq<string> := ["self", "harm", "suicide", "hopeless"]
  const AnxietyDepressionKeywords: seq<string> :=
    ["anxiety", "anxious", "nervous", "low mood", "depressed", "depression", "sleep"]
  const AcademicKeywords: seq<string> := ["exam", "stress", "motivation", "academic", "study"]
  const SocialKeywords: seq<string> := ["relationship", "social", "adjustment", "college", "friend"]

  /** `topic` contains one of `keywords`. */
  predicate Mentions(topic: string, keywords: seq<string>) {
    exists k :: 0 <= k < |keywords| && Contains(topic, keywords[k])
  }

  /** Some lowercased topic contains one of `keywords`. */
  predicate AnyMentions(topics: seq<string>, keywords: seq<string>) {
    exists i :: 0 <= i < |topics| && Mentions(ToLower(topics[i]), keywords)
  }

  /** The keyword group that selects each category (none for GeneralSupport). */
  function KeywordsOf(category: Category): seq<string> {
    match category
    case Crisis => CrisisKeywords
    case AnxietyDepression => AnxietyDepressionKeywords
    case AcademicStress => AcademicKeywords
    case SocialAdjustment => SocialKeywords
    case GeneralSupport => []
  }

  /** Priority of a category: lower is tried first. */
  function Rank(category: Category): nat {
    match category
    case Crisis => 0
    case AnxietyDepression => 1
    case AcademicStress => 2
    case SocialAdjustment => 3
    case GeneralSupport => 4
  }

  /** The category the topics call for: the first keyword group, in priority
      order, that some lowercased topic mentions. */
  function CategoryFor(topics: seq<string>): Category {
    if AnyMentions(topics, CrisisKeywords) then Crisis
    else if AnyMentions(topics, AnxietyDepressionKeywords) then AnxietyDepression
    else if AnyMentions(topics, AcademicKeywords) then AcademicStress
    else if AnyMentions(topics, SocialKeywords) then SocialAdjustment
    else GeneralSupport
  }

  /** The chosen category is one whose keywords the topics mention, and it ranks
      at least as high as every category whose keywords they mention. */
  lemma CategoryForIsHighestMentioned(topics: seq<string>, other: Category)
    ensures CategoryFor(topics) != GeneralSupport ==> AnyMentions(topics, KeywordsOf(CategoryFor(topics)))
    ensures other != GeneralSupport && AnyMentions(topics, KeywordsOf(other)) ==>
      Rank(CategoryFor(topics)) <= Rank(other)
    ensures CategoryFor(topics) == GeneralSupport <==>
      forall c :: c != GeneralSupport ==> !AnyMentions(topics, KeywordsOf(c))
  {
    if CategoryFor(topics) != GeneralSupport {
      var c := CategoryFor(topics);
      assert AnyMentions(topics, KeywordsOf(c));
    }
  }

  lemma AnyMentionsAppend(topics: seq<string>, others: seq<string>, keywords: seq<string>)
    requires AnyMentions(topics, keywords)
    ensures AnyMentions(topics + others, keywords) && AnyMentions(others + topics, keywords)
  {
    var i :| 0 <= i < |topics| && Mentions(ToLower(topics[i]), keywords);
    assert (topics + others)[i] == topics[i];
    assert (others + topics)[|others| + i] == topics[i];
  }

  /** A crisis keyword in any topic makes the circle a crisis circle, whatever
      the other topics are. */
  lemma CrisisOverrides(topics: seq<string>, others: seq<string>)
    requires AnyMentions(topics, CrisisKeywords)
    ensures CategoryFor(topics + others) == Crisis && CategoryFor(others + topics) == Crisis
  {
    AnyMentionsAppend(topics, others, CrisisKeywords);
  }

  /** The number of topics that mention a keyword. */
  function MentionCount(topics: seq<string>, keywords: seq<string>): (n: nat)
    ensures n <= |topics|
    ensures n > 0 <==> exists i :: 0 <= i < |topics| && Mentions(topics[i], keywords)
  {
    if topics == [] then 0
    else
      var init := topics[..|topics| - 1];
      var n := MentionCount(init, keywords) + if Mentions(topics[|topics| - 1], keywords) then 1 else 0;
      assert forall i :: 0 <= i < |init| ==> init[i] == topics[i];
      n
  }

  /** One of DetermineCircleCategory's counting loops: each topic that contains
      a keyword counts once (the inner loop stops at the first keyword found). */
  method CountMentioning(topics: seq<string>, keywords: seq<string>) returns (count: nat)
    ensures count == MentionCount(topics, keywords)
  {
    count := 0;
    for i := 0 to |topics|
      invariant count == MentionCount(topics[..i], keywords)
    {
      assert topics[..i + 1][..i] == topics[..i];
      ghost var before := count;
      var j := 0;
      while j < |keywords|
        invariant 0 <= j <= |keywords|
        invariant count == before
        invariant forall m :: 0 <= m < j ==> !Contains(topics[i], keywords[m])
      {
        if Contains(topics[i], keywords[j]) {
          count := count + 1;
          break;
        }
        j := j + 1;
      }
      assert count == before + if Mentions(topics[i], keywords) then 1 else 0;
    }
    assert topics[..|topics|] == topics;
  }

  /** DetermineCircleCategory: lowercases the topics, returns Crisis on the first
      crisis keyword, then tries the other groups in priority order. */
  method DetermineCircleCategory(topics: seq<string>) returns (category: Category)
    ensures category == CategoryFor(topics)
  {
    var topicsLower := new string[|topics|];
    for i := 0 to |topics|
      invariant forall k :: 0 <= k < i ==> topicsLower[k] == ToLower(topics[k])
    {
      topicsLower[i] := ToLower(topics[i]);
    }

    // Crisis indicators - highest priority
    for i := 0 to topicsLower.Length
      invariant forall k :: 0 <= k < i ==> !Mentions(topicsLower[k], CrisisKeywords)
    {
      for j := 0 to |CrisisKeywords|
        invariant forall m :: 0 <= m < j ==> !Contains(topicsLower[i], CrisisKeywords[m])
      {
        if Contains(topicsLower[i], CrisisKeywords[j]) {
          assert Mentions(ToLower(topics[i]), CrisisKeywords);
          return Crisis;
        }
      }
    }
    assert !AnyMentions(topics, CrisisKeywords);

    var lowered := topicsLower[..];
    assert forall keywords: seq<string> ::
      (exists i :: 0 <= i < |lowered| && Mentions(lowered[i], keywords)) == AnyMentions(topics, keywords);

    var anxietyDepCount := CountMentioning(lowered, AnxietyDepressionKeywords);
    if anxietyDepCount > 0 {
      return AnxietyDepression;
    }
    var academicCount := CountMentioning(lowered, AcademicKeywords);
    if academicCount > 0 {
      return AcademicStress;
    }
    var socialCount := CountMentioning(lowered, SocialKeywords);
    if socialCount > 0 {
      return SocialAdjustment;
    }
    return GeneralSupport;
  }

  // ---------------------------------------------------------------------------
  // Errors

  datatype MatchError =
    | QueryCirclesFailed      // the open-circle query failed
    | QueryModeratorsFailed   // the moderator query failed
    | NoModerators            // no user has the moderator role
    | CreateCircleFailed
    | AlreadyInCircle         // the user already has a membership
    | AddMembershipFailed
    | LoadCircleFailed        // re-reading the circle after the insert failed
    | UpdateStatusFailed

  // ---------------------------------------------------------------------------
  // Moderator assignment

  predicate IsActive(c: Circle) {
    c.status == Active
  }

  /** How many active circles a moderator runs. */
  function ActiveLoad(circles: seq<Circle>, moderator: User): nat {
    |Filter(ModeratedCircles(circles, moderator.id), IsActive)|
  }

  /** The index the running-minimum scan settles on after the first `n`
      moderators. */
  function LeastLoaded(mods: seq<User>, circles: seq<Circle>, n: nat): (k: nat)
    requires 0 < n <= |mods|
    ensures k < n
  {
    if n == 1 then 0
    else
      var k := LeastLoaded(mods, circles, n - 1);
      if ActiveLoad(circles, mods[n - 1]) < ActiveLoad(circles, mods[k]) then n - 1 else k
  }

  /** The scan picks a moderator with the fewest active circles among the first
      `n`, and the first such moderator in list order. */
  lemma {:induction false} LeastLoadedIsFirstMinimum(mods: seq<User>, circles: seq<Circle>, n: nat)
    requires 0 < n <= |mods|
    ensures forall j :: 0 <= j < n ==>
      ActiveLoad(circles, mods[LeastLoaded(mods, circles, n)]) <= ActiveLoad(circles, mods[j])
    ensures forall j :: 0 <= j < LeastLoaded(mods, circles, n) ==>
      ActiveLoad(circles, mods[j]) > ActiveLoad(circles, mods[LeastLoaded(mods, circles, n)])
  {
    if n > 1 {
      LeastLoadedIsFirstMinimum(mods, circles, n - 1);
    }
  }

  /** assignModeratorRoundRobin as a function of the tables. */
  function ModeratorChoice(users: seq<User>, circles: seq<Circle>, faults: set<Fault>): Result<User, MatchError> {
    if ListModeratorsFault in faults then Err(QueryModeratorsFailed)
    else
      var mods := ModeratorsOf(users);
      if |mods| == 0 then Err(NoModerators) else Ok(mods[LeastLoaded(mods, circles, |mods|)])
  }

  /** The chosen moderator is a moderator with no more active circles than any
      other; the choice fails only when the query fails or there is none. */
  lemma ModeratorChoiceIsLeastLoaded(users: seq<User>, circles: seq<Circle>, faults: set<Fault>)
    ensures ModeratorChoice(users, circles, faults).Ok? ==>
      var m := ModeratorChoice(users, circles, faults).value;
      && m in users && m.role == RoleModerator
      && forall u :: u in users && u.role == RoleModerator ==> ActiveLoad(circles, m) <= ActiveLoad(circles, u)
    ensures ListModeratorsFault !in faults ==>
      (ModeratorChoice(users, circles, faults) == Err(NoModerators) <==> forall u :: u in users ==> u.role != RoleModerator)
  {
    var mods := ModeratorsOf(users);
    if ListModeratorsFault !in faults && |mods| > 0 {
      LeastLoadedIsFirstMinimum(mods, circles, |mods|);
      forall u | u in users && u.role == RoleModerator
        ensures ActiveLoad(circles, mods[LeastLoaded(mods, circles, |mods|)]) <= ActiveLoad(circles, u)
      {
        assert u in mods;
        var j :| 0 <= j < |mods| && mods[j] == u;
      }
    }
    if ListModeratorsFault !in faults && exists u :: u in users && u.role == RoleModerator {
      var u :| u in users && u.role == RoleModerator;
      assert u in mods;
    }
  }

  /** The inner loop of assignModeratorRoundRobin: how many of `circles` are
      active. */
  method CountActive(circles: seq<Circle>) returns (count: nat)
    ensures count == |Filter(circles, IsActive)|
  {
    count := 0;
    for j := 0 to |circles|
      invariant count == |Filter(circles[..j], IsActive)|
    {
      assert circles[..j + 1] == circles[..j] + [circles[j]];
      FilterSnoc(circles[..j], circles[j], IsActive);
      if circles[j].status == Active {
        count := count + 1;
      }
    }
    assert circles[..|circles|] == circles;
  }

  /** The loop of assignModeratorRoundRobin: a running minimum over the
      moderators of their active circle counts. The source starts the minimum at
      the largest int; `minCircles == None` plays that part. */
  method SelectLeastLoaded(moderators: seq<User>, circles: seq<Circle>) returns (selected: nat)
    requires |moderators| > 0
    ensures selected == LeastLoaded(moderators, circles, |moderators|)
  {
    selected := 0;
    var minCircles: Option<nat> := None;
    for i := 0 to |moderators|
      invariant i == 0 ==> minCircles == None
      invariant i > 0 ==>
        && selected == LeastLoaded(moderators, circles, i)
        && minCircles == Some(ActiveLoad(circles, moderators[selected]))
    {
      var activeCount := CountActive(ModeratedCircles(circles, moderators[i].id));
      if minCircles.None? || activeCount < minCircles.value {
        minCircles := Some(activeCount);
        selected := i;
      }
    }
  }

  /** assignModeratorRoundRobin: the moderator with the fewest active circles,
      the first such in table order. */
  method AssignModeratorRoundRobin(db: Database, faults: set<Fault>) returns (r: Result<User, MatchError>)
    ensures r == ModeratorChoice(db.users, db.circles, faults)
  {
    if ListModeratorsFault in faults {
      return Err(QueryModeratorsFailed);
    }
    var moderators := ModeratorsOf(db.users);
    if |moderators| == 0 {
      return Err(NoModerators);
    }
    var selected := SelectLeastLoaded(moderators, db.circles);
    return Ok(moderators[selected]);
  }

  // ---------------------------------------------------------------------------
  // Circle names

  function Prefix(category: Category): string {
    match category
    case Crisis => "Crisis"
    case AnxietyDepression => "Mindful"
    case AcademicStress => "Study"
    case SocialAdjustment => "Connect"
    case GeneralSupport => "General"
  }

  /** "<prefix> Circle #<number>". */
  function CircleName(category: Category, number: nat): string {
    Prefix(category) + " Circle #" + NatToString(number)
  }

  /** The number a new circle of `category` gets: one past the category's
      circle count, or 1 when the count query fails. */
  function CircleNumber(circles: seq<Circle>, category: Category, faults: set<Fault>): nat {
    if CountCategoryFault in faults then 1 else |CirclesIn(circles, category)| + 1
  }

  /** generateCircleName. */
  function GenerateCircleName(circles: seq<Circle>, category: Category, faults: set<Fault>): string {
    CircleName(category, CircleNumber(circles, category, faults))
  }

  /** A name determines its category and its number. */
  lemma CircleNamesDistinct(c1: Category, n1: nat, c2: Category, n2: nat)
    requires CircleName(c1, n1) == CircleName(c2, n2)
    ensures c1 == c2 && n1 == n2
  {
    var name := CircleName(c1, n1);
    var i := if (c1 == Crisis && c2 == SocialAdjustment) || (c1 == SocialAdjustment && c2 == Crisis) then 1 else 0;
    assert Prefix(c1)[i] == name[i] == Prefix(c2)[i];
    var head := Prefix(c1) + " Circle #";
    assert name == head + NatToString(n1) && name == head + NatToString(n2);
    assert NatToString(n1) == name[|head|..] == NatToString(n2);
    ParseNatToString(n1);
    ParseNatToString(n2);
  }

  /** Each circle created in a category moves the next number on by one. */
  lemma CircleNumberAdvances(circles: seq<Circle>, c: Circle)
    ensures CircleNumber(circles + [c], c.category, {}) == CircleNumber(circles, c.category, {}) + 1
  {
    assert (circles + [c])[..|circles|] == circles;
  }

  // ---------------------------------------------------------------------------
  // Finding or creating a circle

  /** The circle has fewer members than its capacity. */
  predicate HasRoom(memberships: seq<Membership>, c: Circle) {
    MemberCount(memberships, c.id) < c.maxMembers
  }

  /** The first circle of `cs`, in order, that has room. */
  function FirstWithRoom(cs: seq<Circle>, memberships: seq<Membership>): (r: Option<Circle>)
    ensures r.Some? ==> r.value in cs && HasRoom(memberships, r.value)
    ensures r.None? <==> forall c :: c in cs ==> !HasRoom(memberships, c)
  {
    if cs == [] then None
    else if HasRoom(memberships, cs[0]) then Some(cs[0])
    else
      assert forall c :: c in cs ==> c == cs[0] || c in cs[1..];
      FirstWithRoom(cs[1..], memberships)
  }

  /** The circle FindOrCreateCircle reuses: the first active circle of the
      category, in table order, that has room. */
  function FirstOpenCircle(circles: seq<Circle>, memberships: seq<Membership>, category: Category): Option<Circle> {
    FirstWithRoom(ActiveCirclesIn(circles, category), memberships)
  }

  /** A reused circle is active, of the category and has room; no circle is
      created while such a circle exists. */
  lemma FirstOpenCircleIsOpen(circles: seq<Circle>, memberships: seq<Membership>, category: Category)
    ensures FirstOpenCircle(circles, memberships, category).Some? ==>
      var c := FirstOpenCircle(circles, memberships, category).value;
      c in circles && c.category == category && c.status == Active && HasRoom(memberships, c)
    ensures FirstOpenCircle(circles, memberships, category).None? <==>
      forall c :: c in circles && c.category == category && c.status == Active ==> !HasRoom(memberships, c)
  {
  }

  /** What FindOrCreateCircle yields: the first open circle of the category, or
      else a new active circle with the default capacity, the generated name and
      the least loaded moderator, stored under `freshId`. */
  function FindOrCreate(
    users: seq<User>, circles: seq<Circle>, memberships: seq<Membership>, category: Category,
    faults: set<Fault>, freshId: Id, maxMembers: nat): Result<Circle, MatchError>
  {
    if ListOpenCirclesFault in faults then Err(QueryCirclesFailed)
    else match FirstOpenCircle(circles, memberships, category)
      case Some(c) => Ok(c)
      case None =>
        match ModeratorChoice(users, circles, faults)
        case Err(e) => Err(e)
        case Ok(m) =>
          if CreateCircleFault in faults then Err(CreateCircleFailed)
          else Ok(Circle(freshId, GenerateCircleName(circles, category, faults), category, Active, maxMembers, m.id))
  }

  /** The circle found or created is of the requested category and can take a
      member. It is either an open circle already in the table, or a new one
      made only because no open circle existed, with a least loaded moderator. */
  lemma FindOrCreateOutcome(
    users: seq<User>, circles: seq<Circle>, memberships: seq<Membership>, category: Category,
    faults: set<Fault>, freshId: Id, maxMembers: nat)
    requires !CircleExists(circles, freshId) && maxMembers >= 1
    requires forall m :: m in memberships ==> CircleExists(circles, m.circleId)
    ensures
      var r := FindOrCreate(users, circles, memberships, category, faults, freshId, maxMembers);
      r.Ok? ==>
        && r.value.category == category && r.value.status == Active && HasRoom(memberships, r.value)
        && (r.value in circles <==> r.value.id != freshId)
        && (r.value.id == freshId ==>
              && FirstOpenCircle(circles, memberships, category).None?
              && MemberCount(memberships, freshId) == 0
              && r.value.maxMembers == maxMembers
              && r.value.name == GenerateCircleName(circles, category, faults)
              && exists m :: m in users && m.role == RoleModerator && m.id == r.value.moderatorId &&
                   forall u :: u in users && u.role == RoleModerator ==> ActiveLoad(circles, m) <= ActiveLoad(circles, u))
  {
    FirstOpenCircleIsOpen(circles, memberships, category);
    ModeratorChoiceIsLeastLoaded(users, circles, faults);
    if ListOpenCirclesFault !in faults && FirstOpenCircle(circles, memberships, category).None? {
      MemberCountZero(memberships, freshId);
    }
  }

  /** The first loop of FindOrCreateCircle: the first active circle of the
      category whose member count is below its capacity. */
  method SearchOpenCircle(circles: seq<Circle>, memberships: seq<Membership>, category: Category)
    returns (found: Option<Circle>)
    ensures found == FirstOpenCircle(circles, memberships, category)
  {
    var candidates := ActiveCirclesIn(circles, category);
    for i := 0 to |candidates|
      invariant FirstOpenCircle(circles, memberships, category) == FirstWithRoom(candidates[i..], memberships)
    {
      var circle := candidates[i];
      assert candidates[i..][1..] == candidates[i + 1..];
      var members := MembershipsOf(memberships, circle.id);
      if |members| < circle.maxMembers {
        return Some(circle);
      }
    }
    return None;
  }

  /** FindOrCreateCircle: reuses the first open circle of the category, and
      otherwise creates one led by the least loaded moderator. `freshId` is the
      id the database assigns to a new row. */
  method FindOrCreateCircle(db: Database, category: Category, faults: set<Fault>, freshId: Id)
    returns (r: Result<Circle, MatchError>)
    requires db.Valid() && !CircleExists(db.circles, freshId)
    modifies db
    ensures db.Valid()
    ensures db.users == old(db.users) && db.memberships == old(db.memberships)
    ensures db.messages == old(db.messages) && db.receipts == old(db.receipts)
    ensures r == FindOrCreate(db.users, old(db.circles), db.memberships, category, faults, freshId, db.defaultMaxMembers)
    ensures db.circles == old(db.circles) + if r.Ok? && r.value.id == freshId then [r.value] else []
  {
    if ListOpenCirclesFault in faults {
      return Err(QueryCirclesFailed);
    }
    var open := SearchOpenCircle(db.circles, db.memberships, category);
    if open.Some? {
      FirstOpenCircleIsOpen(db.circles, db.memberships, category);
      return Ok(open.value);
    }

    var moderator := AssignModeratorRoundRobin(db, faults);
    if moderator.Err? {
      return Err(moderator.error);
    }
    ModeratorChoiceIsLeastLoaded(db.users, db.circles, faults);

    var circleName := GenerateCircleName(db.circles, category, faults);
    if CreateCircleFault in faults {
      return Err(CreateCircleFailed);
    }
    var newCircle := Circle(freshId, circleName, category, Active, db.defaultMaxMembers, moderator.value.id);
    db.InsertCircle(newCircle);
    return Ok(newCircle);
  }

  // ---------------------------------------------------------------------------
  // Adding a member

  /** The membership lookup that guards AddUserToCircle finds a membership. Its
      error is discarded, so a failed lookup counts as "none". */
  predicate AlreadyMember(memberships: seq<Membership>, userId: Id, faults: set<Fault>) {
    FindMembershipFault !in faults && FindMembership(memberships, userId).Some?
  }

  /** The membership insert succeeds: both linked rows exist. */
  predicate CanInsert(users: seq<User>, circles: seq<Circle>, circleId: Id, userId: Id, faults: set<Fault>) {
    CreateMembershipFault !in faults && CircleExists(circles, circleId) && UserExists(users, userId)
  }

  /** The circle with `circleId` has reached its capacity. */
  predicate AtCapacity(circles: seq<Circle>, memberships: seq<Membership>, circleId: Id) {
    match FindCircle(circles, circleId)
    case Some(c) => MemberCount(memberships, circleId) >= c.maxMembers
    case None => false
  }

  /** AddUserToCircle: refuses a user who already has a membership, inserts the
      membership, then marks the circle full once it has reached capacity. A
      failure after the insert leaves the membership in place. */
  method AddUserToCircle(db: Database, circleId: Id, userId: Id, faults: set<Fault>)
    returns (r: Result<(), MatchError>)
    requires db.Valid()
    modifies db
    ensures db.Valid()
    ensures db.users == old(db.users) && db.messages == old(db.messages) && db.receipts == old(db.receipts)
    ensures AlreadyMember(old(db.memberships), userId, faults) ==>
      r == Err(AlreadyInCircle) && db.memberships == old(db.memberships) && db.circles == old(db.circles)
    ensures !AlreadyMember(old(db.memberships), userId, faults) && !CanInsert(db.users, old(db.circles), circleId, userId, faults) ==>
      r == Err(AddMembershipFailed) && db.memberships == old(db.memberships) && db.circles == old(db.circles)
    ensures !AlreadyMember(old(db.memberships), userId, faults) && CanInsert(db.users, old(db.circles), circleId, userId, faults) ==>
      && db.memberships == old(db.memberships) + [Membership(userId, circleId)]
      && if FindCircleFault in faults then r == Err(LoadCircleFailed) && db.circles == old(db.circles)
         else if !AtCapacity(old(db.circles), db.memberships, circleId) then r == Ok(()) && db.circles == old(db.circles)
         else if UpdateCircleFault in faults then r == Err(UpdateStatusFailed) && db.circles == old(db.circles)
         else r == Ok(()) && db.circles == SetStatus(old(db.circles), circleId, Full)
  {
    // Check if user is already in a circle
    var existingMembership := if FindMembershipFault in faults then None else FindMembership(db.memberships, userId);
    if existingMembership.Some? {
      return Err(AlreadyInCircle);
    }

    // Add user to circle
    if !CanInsert(db.users, db.circles, circleId, userId, faults) {
      return Err(AddMembershipFailed);
    }
    db.InsertMembership(Membership(userId, circleId));

    // Check if circle is now full and update status
    if FindCircleFault in faults {
      return Err(LoadCircleFailed);
    }
    FindExistingCircle(db.circles, circleId);
    var circle := FindCircle(db.circles, circleId).value;
    var memberships := MembershipsOf(db.memberships, circleId);
    if |memberships| >= circle.maxMembers {
      if UpdateCircleFault in faults {
        return Err(UpdateStatusFailed);
      }
      db.UpdateCircleStatus(circleId, Full);
    }
    return Ok(());
  }

  // ---------------------------------------------------------------------------
  // Invariants of the circle tables

  /** No circle has more members than its capacity. */
  predicate WithinCapacity(circles: seq<Circle>, memberships: seq<Membership>) {
    forall c :: c in circles ==> MemberCount(memberships, c.id) <= c.maxMembers
  }

  /** Every circle at capacity is marked full. */
  predicate FullWhenAtCapacity(circles: seq<Circle>, memberships: seq<Membership>) {
    forall c :: c in circles && MemberCount(memberships, c.id) >= c.maxMembers ==> c.status == Full
  }

  /** Each user has at most one membership. */
  predicate OneCirclePerUser(memberships: seq<Membership>) {
    forall i, j :: 0 <= i < j < |memberships| ==> memberships[i].userId != memberships[j].userId
  }

  /** The part of MatchUserToCircle after triage: find or create a circle of
      `category` and add the user to it. Placing a user never overfills a
      circle, keeps circles at capacity marked full (when the status update goes
      through), and keeps users to one circle (when the guard lookup goes
      through). */
  method PlaceInCircle(db: Database, userId: Id, category: Category, faults: set<Fault>, freshId: Id)
    returns (circle: Option<Circle>, err: Option<MatchError>)
    requires db.Valid() && !CircleExists(db.circles, freshId)
    modifies db
    ensures db.Valid()
    ensures db.users == old(db.users) && db.messages == old(db.messages) && db.receipts == old(db.receipts)
    ensures circle.Some? <==> err.None?
    ensures circle.Some? ==>
      && circle.value.category == category
      && CircleExists(db.circles, circle.value.id)
      && db.memberships == old(db.memberships) + [Membership(userId, circle.value.id)]
      && !AlreadyMember(old(db.memberships), userId, faults)
    ensures circle.Some? ==> FindOrCreate(old(db.users), old(db.circles), old(db.memberships), category, faults, freshId, db.defaultMaxMembers) == Ok(circle.value)
    ensures circle.Some? ==>
      var created := old(db.circles) + if circle.value.id == freshId then [circle.value] else [];
      db.circles == if AtCapacity(created, db.memberships, circle.value.id) then SetStatus(created, circle.value.id, Full) else created
    ensures FindOrCreate(old(db.users), old(db.circles), old(db.memberships), category, faults, freshId, db.defaultMaxMembers).Err? ==>
      && err == Some(FindOrCreate(old(db.users), old(db.circles), old(db.memberships), category, faults, freshId, db.defaultMaxMembers).error)
      && db.circles == old(db.circles) && db.memberships == old(db.memberships)
    ensures FindOrCreate(old(db.users), old(db.circles), old(db.memberships), category, faults, freshId, db.defaultMaxMembers).Ok? && circle.None? ==>
      var c := FindOrCreate(old(db.users), old(db.circles), old(db.memberships), category, faults, freshId, db.defaultMaxMembers).value;
      db.circles == old(db.circles) + if c.id == freshId then [c] else []
    ensures db.memberships == old(db.memberships) || |db.memberships| == |old(db.memberships)| + 1
    ensures WithinCapacity(old(db.circles), old(db.memberships)) ==> WithinCapacity(db.circles, db.memberships)
    ensures (FindCircleFault !in faults && UpdateCircleFault !in faults &&
      FullWhenAtCapacity(old(db.circles), old(db.memberships))) ==> FullWhenAtCapacity(db.circles, db.memberships)
    ensures (FindMembershipFault !in faults && OneCirclePerUser(old(db.memberships))) ==>
      OneCirclePerUser(db.memberships)
  {
    ghost var circles0, memberships0 := db.circles, db.memberships;
    var found := FindOrCreateCircle(db, category, faults, freshId);
    if found.Err? {
      return None, Some(found.error);
    }
    var c := found.value;
    ghost var circles1 := db.circles;
    PlacedCircleHasRoom(db.users, circles0, circles1, memberships0, db.defaultMaxMembers, category, faults, freshId, c);

    var added := AddUserToCircle(db, c.id, userId, faults);
    AddKeepsInvariants(circles1, db.circles, memberships0, db.memberships, c, userId, faults);
    if added.Err? {
      return None, Some(added.error);
    }
    SetStatusKeepsIds(circles1, db.circles, c);
    return Some(c), None;
  }

  /** A circle's id survives a status update. */
  lemma SetStatusKeepsIds(circles1: seq<Circle>, circles2: seq<Circle>, c: Circle)
    requires c in circles1
    requires circles2 == circles1 || circles2 == SetStatus(circles1, c.id, Full)
    ensures CircleExists(circles2, c.id)
  {
    var k :| 0 <= k < |circles1| && circles1[k] == c;
    assert circles2[k].id == c.id;
  }

  /** MatchUserToCircle: a critical case is returned for escalation without
      touching the store; otherwise the user is placed in a circle of the
      category the topics call for. */
  method MatchUserToCircle(
    db: Database, userId: Id, topics: seq<string>, phq2Total: int, gad2Total: int,
    faults: set<Fault>, freshId: Id)
    returns (circle: Option<Circle>, isCritical: bool, err: Option<MatchError>)
    requires db.Valid() && !CircleExists(db.circles, freshId)
    modifies db
    ensures db.Valid()
    ensures db.users == old(db.users) && db.messages == old(db.messages) && db.receipts == old(db.receipts)
    ensures isCritical == IsCriticalRisk(phq2Total, gad2Total)
    ensures isCritical ==>
      circle == None && err == None && db.circles == old(db.circles) && db.memberships == old(db.memberships)
    ensures !isCritical ==> (circle.Some? <==> err.None?)
    ensures circle.Some? ==>
      && circle.value.category == CategoryFor(topics)
      && CircleExists(db.circles, circle.value.id)
      && db.memberships == old(db.memberships) + [Membership(userId, circle.value.id)]
    ensures circle.Some? ==> FindOrCreate(old(db.users), old(db.circles), old(db.memberships), CategoryFor(topics), faults, freshId, db.defaultMaxMembers) == Ok(circle.value)
    ensures circle.Some? ==>
      var created := old(db.circles) + if circle.value.id == freshId then [circle.value] else [];
      db.circles == if AtCapacity(created, db.memberships, circle.value.id) then SetStatus(created, circle.value.id, Full) else created
    ensures !isCritical && FindOrCreate(old(db.users), old(db.circles), old(db.memberships), CategoryFor(topics), faults, freshId, db.defaultMaxMembers).Err? ==>
      && err == Some(FindOrCreate(old(db.users), old(db.circles), old(db.memberships), CategoryFor(topics), faults, freshId, db.defaultMaxMembers).error)
      && db.circles == old(db.circles) && db.memberships == old(db.memberships)
    ensures !isCritical && FindOrCreate(old(db.users), old(db.circles), old(db.memberships), CategoryFor(topics), faults, freshId, db.defaultMaxMembers).Ok? && circle.None? ==>
      var c := FindOrCreate(old(db.users), old(db.circles), old(db.memberships), CategoryFor(topics), faults, freshId, db.defaultMaxMembers).value;
      db.circles == old(db.circles) + if c.id == freshId then [c] else []
    ensures WithinCapacity(old(db.circles), old(db.memberships)) ==> WithinCapacity(db.circles, db.memberships)
    ensures (FindCircleFault !in faults && UpdateCircleFault !in faults &&
      FullWhenAtCapacity(old(db.circles), old(db.memberships))) ==> FullWhenAtCapacity(db.circles, db.memberships)
    ensures (FindMembershipFault !in faults && OneCirclePerUser(old(db.memberships))) ==>
      OneCirclePerUser(db.memberships)
  {
    // Check if this is a critical risk case
    isCritical := IsCriticalRisk(phq2Total, gad2Total);
    if isCritical {
      return None, true, None;
    }
    var category := DetermineCircleCategory(topics);
    circle, err := PlaceInCircle(db, userId, category, faults, freshId);
  }

  /** What FindOrCreateCircle hands to AddUserToCircle: a circle of the new
      table, of the category, with room, and the capacity invariants carry over
      to the new table. */
  lemma PlacedCircleHasRoom(
    users: seq<User>, circles0: seq<Circle>, circles1: seq<Circle>, memberships: seq<Membership>,
    maxMembers: nat, category: Category, faults: set<Fault>, freshId: Id, c: Circle)
    requires maxMembers >= 1 && !CircleExists(circles0, freshId)
    requires forall m :: m in memberships ==> CircleExists(circles0, m.circleId)
    requires FindOrCreate(users, circles0, memberships, category, faults, freshId, maxMembers) == Ok(c)
    requires circles1 == circles0 + if c.id == freshId then [c] else []
    ensures c in circles1 && c.category == category && HasRoom(memberships, c)
    ensures WithinCapacity(circles0, memberships) ==> WithinCapacity(circles1, memberships)
    ensures FullWhenAtCapacity(circles0, memberships) ==> FullWhenAtCapacity(circles1, memberships)
  {
    FindOrCreateOutcome(users, circles0, memberships, category, faults, freshId, maxMembers);
  }

  /** Adding a member to a circle that had room keeps every circle within its
      capacity, whether or not the circle is then marked full. */
  lemma AddMemberKeepsCapacity(circles1: seq<Circle>, circles2: seq<Circle>, memberships: seq<Membership>, c: Circle, userId: Id)
    requires c in circles1 && HasRoom(memberships, c) && UniqueCircleIds(circles1)
    requires circles2 == circles1 || circles2 == SetStatus(circles1, c.id, Full)
    requires WithinCapacity(circles1, memberships)
    ensures WithinCapacity(circles2, memberships + [Membership(userId, c.id)])
  {
    var added := memberships + [Membership(userId, c.id)];
    forall x | x in circles2 ensures MemberCount(added, x.id) <= x.maxMembers {
      var k :| 0 <= k < |circles2| && circles2[k] == x;
      assert circles1[k] in circles1;
      MemberCountSnoc(memberships, Membership(userId, c.id), x.id);
      if x.id == c.id {
        var j :| 0 <= j < |circles1| && circles1[j] == c;
        assert circles1[k].id == circles1[j].id;
      }
    }
  }

  /** Adding a member and then marking the circle full exactly when it reached
      capacity keeps every circle at capacity marked full. */
  lemma AddMemberKeepsFull(circles1: seq<Circle>, circles2: seq<Circle>, memberships: seq<Membership>, c: Circle, userId: Id)
    requires c in circles1 && UniqueCircleIds(circles1)
    requires circles2 ==
      if AtCapacity(circles1, memberships + [Membership(userId, c.id)], c.id) then SetStatus(circles1, c.id, Full) else circles1
    requires FullWhenAtCapacity(circles1, memberships)
    ensures FullWhenAtCapacity(circles2, memberships + [Membership(userId, c.id)])
  {
    var added := memberships + [Membership(userId, c.id)];
    FindUniqueCircle(circles1, c);
    forall x | x in circles2 && MemberCount(added, x.id) >= x.maxMembers ensures x.status == Full {
      var k :| 0 <= k < |circles2| && circles2[k] == x;
      assert circles1[k] in circles1;
      MemberCountSnoc(memberships, Membership(userId, c.id), x.id);
      if x.id == c.id {
        var j :| 0 <= j < |circles1| && circles1[j] == c;
        assert circles1[k].id == circles1[j].id;
      }
    }
  }

  /** Adding a membership for a user who has none keeps users to one circle. */
  lemma AddMemberKeepsOnePerUser(memberships: seq<Membership>, m: Membership)
    requires OneCirclePerUser(memberships) && FindMembership(memberships, m.userId).None?
    ensures OneCirclePerUser(memberships + [m])
  {
    var added := memberships + [m];
    forall i, j | 0 <= i < j < |added| ensures added[i].userId != added[j].userId {
      if j == |memberships| {
        assert added[i] in memberships;
      }
    }
  }

  /** The invariants after AddUserToCircle on a circle that had room, whatever
      the outcome of its steps. */
  lemma AddKeepsInvariants(
    circles1: seq<Circle>, circles2: seq<Circle>, memberships0: seq<Membership>, memberships2: seq<Membership>,
    c: Circle, userId: Id, faults: set<Fault>)
    requires c in circles1 && HasRoom(memberships0, c) && UniqueCircleIds(circles1)
    requires
      || (memberships2 == memberships0 && circles2 == circles1)
      || (&& memberships2 == memberships0 + [Membership(userId, c.id)]
          && !AlreadyMember(memberships0, userId, faults)
          && (circles2 == circles1 || circles2 == SetStatus(circles1, c.id, Full))
          && (FindCircleFault !in faults && UpdateCircleFault !in faults ==>
                circles2 == if AtCapacity(circles1, memberships2, c.id) then SetStatus(circles1, c.id, Full) else circles1))
    ensures WithinCapacity(circles1, memberships0) ==> WithinCapacity(circles2, memberships2)
    ensures (FindCircleFault !in faults && UpdateCircleFault !in faults &&
      FullWhenAtCapacity(circles1, memberships0)) ==> FullWhenAtCapacity(circles2, memberships2)
    ensures (FindMembershipFault !in faults && OneCirclePerUser(memberships0)) ==> OneCirclePerUser(memberships2)
  {
    if memberships2 != memberships0 || circles2 != circles1 {
      if WithinCapacity(circles1, memberships0) {
        AddMemberKeepsCapacity(circles1, circles2, memberships0, c, userId);
      }
      if FindCircleFault !in faults && UpdateCircleFault !in faults && FullWhenAtCapacity(circles1, memberships0) {
        AddMemberKeepsFull(circles1, circles2, memberships0, c, userId);
      }
      if FindMembershipFault !in faults && OneCirclePerUser(memberships0) {
        AddMemberKeepsOnePerUser(memberships0, Membership(userId, c.id));
      }
    }
  }
}
