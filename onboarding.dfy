/** Onboarding intake: validation of the questionnaire, the PHQ-2/GAD-2 scores
    and screening level, and the topic list handed to the circle matcher. */
module Onboarding {
  import opened Wrappers
  import opened Text
  import CircleMatching

  // ---------------------------------------------------------------------------
  // The request

  const AllowedTopics: set<string> := {
    "Exam stress", "Anxiety", "Low mood", "Motivation", "Sleep issues",
    "Relationship stress", "Adjustment to college", "Other"
  }
  const ParticipationOptions: set<string> :=
    {"Mostly listen", "Share & get support", "Learn coping tools", "Not sure yet"}
  const AvailabilityOptions: set<string> := {"Morning", "Afternoon", "Evening"}

  const Incomplete := "Please complete this field."
  const NeedConsent := "You need to accept to continue."

  datatype Wellbeing = Wellbeing(littleInterest: int, feelingDown: int, feelingNervous: int, worrying: int)

  /** `contactOk` is absent when the client left it out. */
  datatype OnboardingRequest = OnboardingRequest(
    topics: seq<string>,
    otherTopic: string,
    participationStyle: string,
    availability: string,
    wellbeing: Wellbeing,
    consentAccepted: bool,
    consentVersion: string,
    contactOk: Option<bool>)

  /** Answers on the four-point scale 0..3. */
  predicate IsValidScaleValue(value: int) {
    0 <= value <= 3
  }

  /** The topic, once trimmed, is an allowed topic. */
  predicate IsAllowedTopic(topic: string) {
    TrimSpace(topic) in AllowedTopics
  }

  /** The topic is blank or, once trimmed, allowed. */
  predicate BlankOrAllowed(topic: string) {
    TrimSpace(topic) == "" || IsAllowedTopic(topic)
  }

  /** Every non-blank topic, once trimmed, is an allowed topic, and at least one
      is given. */
  predicate TopicsOk(topics: seq<string>) {
    && (forall i :: 0 <= i < |topics| ==> BlankOrAllowed(topics[i]))
    && (exists i :: 0 <= i < |topics| && IsAllowedTopic(topics[i]))
  }

  /** Every question is answered with an allowed value. */
  predicate AnswersOk(req: OnboardingRequest) {
    && TopicsOk(req.topics)
    && req.participationStyle in ParticipationOptions
    && req.availability in AvailabilityOptions
    && IsValidScaleValue(req.wellbeing.littleInterest)
    && IsValidScaleValue(req.wellbeing.feelingDown)
    && IsValidScaleValue(req.wellbeing.feelingNervous)
    && IsValidScaleValue(req.wellbeing.worrying)
  }

  /** A request the handler accepts. */
  predicate RequestValid(req: OnboardingRequest) {
    AnswersOk(req) && req.consentAccepted && TrimSpace(req.consentVersion) != ""
  }

  /** The topic loop of validateOnboardingRequest: whether some trimmed topic is
      allowed, or None when a non-blank one is not. */
  method CheckTopics(topics: seq<string>) returns (hasValidTopic: Option<bool>)
    ensures hasValidTopic.None? <==> exists i :: 0 <= i < |topics| && !BlankOrAllowed(topics[i])
    ensures hasValidTopic.Some? ==> (hasValidTopic.value <==> TopicsOk(topics))
  {
    var found := false;
    for i := 0 to |topics|
      invariant found <==> exists k :: 0 <= k < i && IsAllowedTopic(topics[k])
      invariant forall k :: 0 <= k < i ==> BlankOrAllowed(topics[k])
    {
      var topic := TrimSpace(topics[i]);
      if topic == "" {
        continue;
      }
      if topic in AllowedTopics {
        assert IsAllowedTopic(topics[i]);
        found := true;
      } else {
        assert !BlankOrAllowed(topics[i]);
        return None;
      }
    }
    return Some(found);
  }

  /** validateOnboardingRequest: the empty message exactly for an acceptable
      request; the consent message exactly when every answer is valid but consent
      was not given; otherwise the generic "complete this field" message. */
  method ValidateOnboardingRequest(req: OnboardingRequest) returns (message: string)
    ensures message == "" <==> RequestValid(req)
    ensures message == NeedConsent <==> AnswersOk(req) && !req.consentAccepted
    ensures message == "" || message == NeedConsent || message == Incomplete
  {
    if |req.topics| == 0 {
      return Incomplete;
    }
    var hasValidTopic := CheckTopics(req.topics);
    if hasValidTopic != Some(true) {
      return Incomplete;
    }
    if req.participationStyle !in ParticipationOptions {
      return Incomplete;
    }
    if req.availability !in AvailabilityOptions {
      return Incomplete;
    }
    if !IsValidScaleValue(req.wellbeing.littleInterest) ||
       !IsValidScaleValue(req.wellbeing.feelingDown) ||
       !IsValidScaleValue(req.wellbeing.feelingNervous) ||
       !IsValidScaleValue(req.wellbeing.worrying)
    {
      return Incomplete;
    }
    if !req.consentAccepted {
      return NeedConsent;
    }
    if TrimSpace(req.consentVersion) == "" {
      return Incomplete;
    }
    return "";
  }

  // ---------------------------------------------------------------------------
  // Scores

  datatype ScreeningLevel = Low | Medium | High

  /** computeScreeningLevel: graded by the larger of the two scores. */
  function ComputeScreeningLevel(phq2: int, gad2: int): (level: ScreeningLevel)
    ensures level == High <==> phq2 >= 5 || gad2 >= 5
    ensures level == Medium <==> phq2 < 5 && gad2 < 5 && (phq2 >= 3 || gad2 >= 3)
    ensures level == Low <==> phq2 < 3 && gad2 < 3
  {
    var maxScore := if gad2 > phq2 then gad2 else phq2;
    if maxScore >= 5 then High
    else if maxScore >= 3 then Medium
    else Low
  }

  function Phq2Total(w: Wellbeing): int {
    w.littleInterest + w.feelingDown
  }

  function Gad2Total(w: Wellbeing): int {
    w.feelingNervous + w.worrying
  }

  /** Valid answers give both totals in 0..6, the range the triage rules assume. */
  lemma ScoresInRange(req: OnboardingRequest)
    requires AnswersOk(req)
    ensures 0 <= Phq2Total(req.wellbeing) <= 6 && 0 <= Gad2Total(req.wellbeing) <= 6
  {
  }

  /** Every user escalated as a critical risk is also screened High, and
      escalation needs both scores at 5 or above unless one is at its maximum. */
  lemma CriticalRiskIsHigh(phq2: int, gad2: int)
    requires CircleMatching.IsCriticalRisk(phq2, gad2)
    ensures ComputeScreeningLevel(phq2, gad2) == High
  {
  }

  /** A High screening is not always critical: one score of 5 alone does not
      escalate. */
  lemma HighIsNotAlwaysCritical()
    ensures ComputeScreeningLevel(5, 0) == High && !CircleMatching.IsCriticalRisk(5, 0)
  {
  }

  // ---------------------------------------------------------------------------
  // Topics

  /** dedupeAndTrimTopics as a function: the trimmed allowed topics in order of
      first occurrence, each once. */
  function Deduped(input: seq<string>): seq<string> {
    if input == [] then []
    else
      var prior := Deduped(input[..|input| - 1]);
      var clean := TrimSpace(input[|input| - 1]);
      if clean == "" || clean !in AllowedTopics || clean in prior then prior else prior + [clean]
  }

  /** dedupeAndTrimTopics: trims each topic and keeps the allowed ones not seen
      before. */
  method DedupeAndTrimTopics(input: seq<string>) returns (result: seq<string>)
    ensures result == Deduped(input)
  {
    var seen: set<string> := {};
    result := [];
    for i := 0 to |input|
      invariant result == Deduped(input[..i])
      invariant forall x :: x in seen <==> x in result
    {
      assert input[..i + 1][..i] == input[..i];
      var clean := TrimSpace(input[i]);
      if clean == "" {
        continue;
      }
      if clean !in AllowedTopics {
        continue;
      }
      if clean in seen {
        continue;
      }
      seen := seen + {clean};
      result := result + [clean];
    }
    assert input[..|input|] == input;
  }

  /** Some input topic trims to `x`. */
  predicate Offered(input: seq<string>, x: string) {
    exists i :: 0 <= i < |input| && TrimSpace(input[i]) == x
  }

  /** A topic is offered by a list when it is offered by all but the last
      entry, or the last entry trims to it. */
  lemma OfferedSnoc(input: seq<string>, x: string)
    requires input != []
    ensures Offered(input, x) <==> Offered(input[..|input| - 1], x) || TrimSpace(input[|input| - 1]) == x
  {
    var init := input[..|input| - 1];
    if Offered(input, x) {
      var i :| 0 <= i < |input| && TrimSpace(input[i]) == x;
      if i < |init| {
        assert init[i] == input[i];
      }
    }
    if Offered(init, x) {
      var i :| 0 <= i < |init| && TrimSpace(init[i]) == x;
      assert input[i] == init[i];
    }
  }

  /** The kept topics are exactly the allowed trimmed inputs. */
  lemma {:induction false} DedupedElements(input: seq<string>, x: string)
    ensures x in Deduped(input) <==> x in AllowedTopics && Offered(input, x)
  {
    if input != [] {
      DedupedElements(input[..|input| - 1], x);
      OfferedSnoc(input, x);
    }
  }

  /** No topic is kept twice. */
  lemma {:induction false} DedupedDistinct(input: seq<string>)
    ensures forall i, j :: 0 <= i < j < |Deduped(input)| ==> Deduped(input)[i] != Deduped(input)[j]
  {
    if input != [] {
      var init := input[..|input| - 1];
      DedupedDistinct(init);
      var prior := Deduped(init);
      assert forall i, j :: 0 <= i < j < |prior| ==> prior[i] != prior[j];
      var r := Deduped(input);
      var clean := TrimSpace(input[|input| - 1]);
      if r != prior {
        assert r == prior + [clean] && clean !in prior;
        forall i, j | 0 <= i < j < |r| ensures r[i] != r[j] {
          if j == |prior| {
            assert r[i] == prior[i] && prior[i] in prior && r[j] == clean;
            assert prior[i] != clean;
          } else {
            assert r[i] == prior[i] && r[j] == prior[j];
            assert prior[i] != prior[j];
          }
        }
      }
    }
  }

  /** Every kept topic is already trimmed. */
  lemma {:induction false} DedupedTrimmed(input: seq<string>)
    ensures forall x :: x in Deduped(input) ==> TrimSpace(x) == x
  {
    if input != [] {
      var prior := input[..|input| - 1];
      DedupedTrimmed(prior);
      TrimSpaceIdempotent(input[|input| - 1]);
      assert forall x :: x in Deduped(input) ==> x in Deduped(prior) || x == TrimSpace(input[|input| - 1]);
    }
  }

  /** A list of distinct, trimmed, allowed topics is kept as it is. */
  lemma {:induction false} DedupedIdentity(s: seq<string>)
    requires forall i, j :: 0 <= i < j < |s| ==> s[i] != s[j]
    requires forall x :: x in s ==> x in AllowedTopics && TrimSpace(x) == x
    ensures Deduped(s) == s
  {
    if s != [] {
      var init := s[..|s| - 1];
      var last := s[|s| - 1];
      DedupedIdentity(init);
      assert forall k :: 0 <= k < |init| ==> init[k] == s[k] != last;
      assert last !in Deduped(init);
      assert last in s;
      assert TrimSpace(last) == last && last in AllowedTopics;
      assert last != "";
      assert Deduped(s) == init + [last];
      assert init + [last] == s;
    }
  }

  /** Cleaning the cleaned list changes nothing. */
  lemma DedupedIdempotent(input: seq<string>)
    ensures Deduped(Deduped(input)) == Deduped(input)
  {
    DedupedDistinct(input);
    DedupedTrimmed(input);
    forall x | x in Deduped(input) ensures x in AllowedTopics {
      DedupedElements(input, x);
    }
    DedupedIdentity(Deduped(input));
  }

  /** Topics keep the order of their first occurrence: more input only appends. */
  lemma {:induction false} DedupedPrefix(a: seq<string>, b: seq<string>)
    ensures Deduped(a) <= Deduped(a + b)
  {
    if b != [] {
      var init := b[..|b| - 1];
      DedupedPrefix(a, init);
      assert (a + b)[..|a + b| - 1] == a + init;
    } else {
      assert a + b == a;
    }
  }

  /** containsOther. */
  method ContainsOther(topics: seq<string>) returns (found: bool)
    ensures found <==> "Other" in topics
  {
    for i := 0 to |topics|
      invariant "Other" !in topics[..i]
    {
      if topics[i] == "Other" {
        return true;
      }
      assert topics[..i + 1] == topics[..i] + [topics[i]];
    }
    assert topics[..|topics|] == topics;
    return false;
  }

  // ---------------------------------------------------------------------------
  // What SubmitOnboarding stores and returns

  /** The computed part of the stored onboarding response. */
  datatype Submission = Submission(
    topics: seq<string>,
    otherTopic: Option<string>,
    phq2Total: int,
    gad2Total: int,
    screening: ScreeningLevel,
    contactOk: bool)

  /** The values SubmitOnboarding derives from an accepted request. */
  function Submit(req: OnboardingRequest): (s: Submission)
    ensures s.topics == Deduped(req.topics)
    ensures s.otherTopic.Some? <==> "Other" in s.topics && TrimSpace(req.otherTopic) != ""
    ensures s.otherTopic.Some? ==> s.otherTopic.value == TrimSpace(req.otherTopic)
    ensures s.contactOk <==> req.contactOk != Some(false)
    ensures s.phq2Total == req.wellbeing.littleInterest + req.wellbeing.feelingDown
    ensures s.gad2Total == req.wellbeing.feelingNervous + req.wellbeing.worrying
    ensures s.screening == ComputeScreeningLevel(s.phq2Total, s.gad2Total)
    ensures AnswersOk(req) ==> 0 <= s.phq2Total <= 6 && 0 <= s.gad2Total <= 6
  {
    var topics := Deduped(req.topics);
    var otherTopic := TrimSpace(req.otherTopic);
    var phq2 := Phq2Total(req.wellbeing);
    var gad2 := Gad2Total(req.wellbeing);
    Submission(
      topics,
      if "Other" in topics && otherTopic != "" then Some(otherTopic) else None,
      phq2,
      gad2,
      ComputeScreeningLevel(phq2, gad2),
      match req.contactOk case Some(ok) => ok case None => true)
  }

  /** The free-text topic is kept exactly when some chosen topic trims to
      "Other" and the text is not blank, and an accepted request always yields
      at least one topic. */
  lemma SubmitOtherTopic(req: OnboardingRequest)
    ensures Submit(req).otherTopic.Some? ==> exists i :: 0 <= i < |req.topics| && TrimSpace(req.topics[i]) == "Other"
    ensures (exists i :: 0 <= i < |req.topics| && TrimSpace(req.topics[i]) == "Other") && TrimSpace(req.otherTopic) != "" ==>
      Submit(req).otherTopic == Some(TrimSpace(req.otherTopic))
    ensures RequestValid(req) ==> |Submit(req).topics| > 0
  {
    DedupedElements(req.topics, "Other");
    if RequestValid(req) {
      var i :| 0 <= i < |req.topics| && TrimSpace(req.topics[i]) in AllowedTopics;
      DedupedElements(req.topics, TrimSpace(req.topics[i]));
    }
  }
}
