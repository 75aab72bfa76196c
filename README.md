# mindbridge core, modelled in Dafny

mindbridge is a peer-support platform for students. A newcomer fills in an
onboarding questionnaire (topics, PHQ-2 and GAD-2 answers, consent), is triaged
for critical risk and is placed in a small moderated "circle" of peers whose
category follows the chosen topics. Circle members chat in real time over a
socket connection; every message is screened by a safety filter that flags and
masks harmful phrases, and read receipts are broadcast to the room.

This project models the server-side rules of that core:

- `Safety` (safety.dfy): `CheckContent`, the masking algorithm `maskContent`
  (in-place exchange sort, merge of overlapping spans, rune splice) and
  `GetCategoryDescription`.
- `CircleMatching` (circle_matching.dfy): risk triage, topic categorisation,
  finding or creating an open circle, choosing the least-loaded moderator,
  naming circles, adding a member and marking a circle full.
- `Onboarding` (onboarding.dfy): request validation, the screening level, the
  topic clean-up and the values `SubmitOnboarding` derives from a request.
- `Realtime` (socket_server.dfy): connection authentication, circle access,
  room membership, and the `send_message`, `mark_read` and `typing_*` events.
- `MessageHandlers` (message_handlers.dfy): the HTTP endpoints for a circle's
  message history, member list, the caller's circle and image upload.
- `Password` (password.dfy): the password strength rule.
- Support modules: `Wrappers` (Option, Result), `Text` (the parts of Go's
  `strings`/`unicode` packages used: TrimSpace, ASCII ToLower, Contains, Index,
  Split, `%d`, UTF-8 byte length), `Store` (the database tables as a `Database`
  class whose methods append or update rows) and `Views` (the message view
  shared by the socket server and the HTTP handlers).

The environment is made explicit. Database failures are a `faults: set<Fault>`
parameter naming the calls that fail; fresh ids, timestamps and uuids are
parameters; the regular-expression engine is an oracle listing each pattern's
hits (`PatternScan`); token verification is an oracle returning the verified
user id or nothing; broadcasts to a room are appended to an event log
(`SocketServer.broadcasts`), and what is sent to one connection is appended to
`Connection.emitted`.

## Model

| member | source | states |
|---|---|---|
| Safety.CheckContent | backend/services/safety.go:204-254 | Blank content gives an unflagged result with the content unchanged, no matches and no escalation; otherwise flagged exactly when some pattern hit, escalation exactly when some hit is critical, one match record per hit in pattern order with its category, severity, text and offsets, and the masked text is the masking of all hits; an unflagged result keeps the content unchanged |
| Safety.RecordPattern | backend/services/safety.go:220-246 | Appends every hit of one pattern and keeps flag, escalation and match records in step with the hits gathered so far |
| Safety.SortByStartDescending | backend/services/safety.go:264-270 | The array ends ordered by non-increasing start and is a permutation of its initial contents |
| Safety.MergeSpan | backend/services/safety.go:278-289 | The merged span starts at the smaller start, ends at the larger end, keeps the category, and is critical exactly when either span was |
| Safety.MergeSpanCovers | backend/services/safety.go:278-292 | When the current span reaches the last merged one, the merge covers exactly the runes of the two spans |
| Safety.MaskContent | backend/services/safety.go:257-304 | Sorting, merging and splicing produce exactly the specified masking of the hits |
| Safety.MergeOverlapping | backend/services/safety.go:272-293 | Over hits sorted by descending start, the merged spans are forward, cover exactly the runes the hits cover, and all end within a bound exactly when all hits do |
| Safety.SpliceMasks | backend/services/safety.go:295-301 | The splice panics exactly when some span ends past the last rune; otherwise every covered rune is masked and every other rune kept |
| Safety.MaskedShape | backend/services/safety.go:296-303 | Masking keeps the length in runes, turns every rune inside any hit into the mask rune and keeps every rune outside all hits |
| Safety.MaskedNothing | backend/services/safety.go:258-260 | With no hits the content is returned unchanged |
| Safety.MaskedIdempotent | backend/services/safety.go:257-304 | Masking an already masked text with the same hits changes nothing |
| Safety.CoveredPermutation | backend/services/safety.go:264-270 | Reordering the hits does not change which runes are covered |
| Safety.CategoryDescription | backend/services/safety.go:307-325 | The generic "Safety concern" is returned exactly for categories outside the seven named ones |
| Safety.CategoryDescriptionInjective | backend/services/safety.go:307-325 | Distinct named categories get distinct descriptions |
| Safety.MaskContentAsWritten | backend/services/safety.go:257-304 | Run on byte offsets used as rune indices, the same sort, merge and splice panic (None) exactly when some hit ends past the last rune, because merged spans reach exactly as far as their hits; otherwise the hits' indices are masked |
| Safety.MaskedAsWrittenShiftsMask | backend/services/safety.go:296-303 | With byte offsets used as rune indices, a hit after a two-byte rune masks the wrong rune (see Findings) |
| Safety.MaskedAsWrittenPanics | backend/services/safety.go:296-303 | A hit on "harm" after two two-byte runes ends past the last rune, so the code as written panics, while converted offsets mask exactly "harm" (see Findings) |
| Safety.MaskedByBytesMasksHit | backend/services/safety.go:296-303 | With byte offsets converted to rune positions, every rune of the hit is masked |
| CircleMatching.CriticalRiskMonotone | backend/services/circle_matching.go:88-91 | Within the 0..6 score range, raising either score never clears critical risk |
| CircleMatching.CategoryForIsHighestMentioned | backend/services/circle_matching.go:21-85 | The category chosen is one whose keywords some lowercased topic contains, no mentioned category ranks higher in the order crisis, anxiety/depression, academic, social, and general support is chosen exactly when no keyword group is mentioned |
| CircleMatching.CrisisOverrides | backend/services/circle_matching.go:28-36 | A topic containing a crisis keyword makes the category Crisis whatever other topics come before or after it |
| CircleMatching.CountMentioning | backend/services/circle_matching.go:38-81 | A counting loop counts exactly the topics that contain one of the group's keywords |
| CircleMatching.DetermineCircleCategory | backend/services/circle_matching.go:21-85 | The loops return the category the topics call for |
| CircleMatching.LeastLoadedIsFirstMinimum | backend/services/circle_matching.go:155-171 | The running-minimum scan selects a moderator with no more active circles than any other, and every earlier moderator has strictly more |
| CircleMatching.ModeratorChoiceIsLeastLoaded | backend/services/circle_matching.go:139-174 | A chosen moderator is a moderator with the fewest active circles; when the query succeeds, the no-moderator error is returned exactly when no user is a moderator |
| CircleMatching.CountActive | backend/services/circle_matching.go:161-166 | Counts exactly the active circles |
| CircleMatching.SelectLeastLoaded | backend/services/circle_matching.go:155-171 | The loop selects the first moderator of least active load |
| CircleMatching.AssignModeratorRoundRobin | backend/services/circle_matching.go:139-174 | Returns the moderator choice over the current tables, or the query or empty-list error |
| CircleMatching.CircleNamesDistinct | backend/services/circle_matching.go:177-199 | A generated name determines its category and its number |
| CircleMatching.CircleNumberAdvances | backend/services/circle_matching.go:188-196 | Each circle created in a category moves the next number up by one |
| CircleMatching.FirstWithRoom | backend/services/circle_matching.go:107-113 | Returns a listed circle with fewer members than its capacity, and none exactly when no listed circle has room |
| CircleMatching.FirstOpenCircleIsOpen | backend/services/circle_matching.go:95-113 | A reused circle is active, of the category and has room; nothing is reused exactly when no such circle exists |
| CircleMatching.SearchOpenCircle | backend/services/circle_matching.go:107-113 | The search loop finds the first open circle of the category |
| CircleMatching.FindOrCreateOutcome | backend/services/circle_matching.go:94-136 | The circle found or created is of the requested category and has room; a new circle is created only when no open one exists, and is active, empty, of the default capacity, named by generateCircleName and run by a least-loaded moderator |
| CircleMatching.FindOrCreateCircle | backend/services/circle_matching.go:94-136 | The result is the reused open circle or the new circle, and only a new circle is added to the table |
| CircleMatching.AddUserToCircle | backend/services/circle_matching.go:202-243 | A user with a membership is refused and nothing changes; otherwise exactly one membership is added and the circle is marked full once its member count reaches capacity; each failing step gives its own error and no other table changes |
| CircleMatching.PlaceInCircle | backend/services/circle_matching.go:256-275 | The user joins the circle FindOrCreateCircle yields (the first open circle of the category, or the new one) or an error is returned; the circles table becomes the old one plus any new circle, with the joined circle marked full exactly when it reached capacity, and a failed search changes nothing; capacity, full-marking and one-circle-per-user invariants are preserved |
| CircleMatching.MatchUserToCircle | backend/services/circle_matching.go:246-275 | Critical risk returns no circle, the critical flag and no error and leaves the store unchanged; otherwise the user joins the circle FindOrCreateCircle yields for the topics' category or an error is returned, the circles table changes only by the new circle and the joined circle's full status, and the invariants are preserved |
| CircleMatching.SetStatusKeepsIds | backend/services/circle_matching.go:235-240 | Marking a circle full keeps its id in the table |
| CircleMatching.PlacedCircleHasRoom | backend/services/circle_matching.go:94-136 | The circle handed to AddUserToCircle is of the category and has room, and the invariants carry over to the new table |
| CircleMatching.AddMemberKeepsCapacity | backend/services/circle_matching.go:213-240 | Adding a member to a circle with room keeps every circle within capacity |
| CircleMatching.AddMemberKeepsFull | backend/services/circle_matching.go:228-240 | Marking the circle full when it reaches capacity keeps every circle at capacity marked full |
| CircleMatching.AddMemberKeepsOnePerUser | backend/services/circle_matching.go:204-211 | Adding a membership for a user without one keeps every user in at most one circle |
| CircleMatching.AddKeepsInvariants | backend/services/circle_matching.go:202-243 | The three table invariants hold after AddUserToCircle whatever step fails |
| Onboarding.CheckTopics | backend/handlers/onboarding.go:335-348 | Fails exactly when some non-blank topic is not allowed; otherwise reports whether some allowed topic was given |
| Onboarding.ValidateOnboardingRequest | backend/handlers/onboarding.go:334-379 | Accepts exactly the requests with allowed topics, options and scale answers, accepted consent and a non-blank consent version; the consent message is returned exactly when only consent is missing, and every other failure gets the incomplete-field message |
| Onboarding.ComputeScreeningLevel | backend/handlers/onboarding.go:385-399 | High exactly when either score is at least 5, medium exactly when neither is but one is at least 3, low otherwise |
| Onboarding.ScoresInRange | backend/handlers/onboarding.go:177-178 | For validated answers both totals lie in 0..6 |
| Onboarding.CriticalRiskIsHigh | backend/handlers/onboarding.go:385-399 | A critical-risk pair always screens as high |
| Onboarding.HighIsNotAlwaysCritical | backend/handlers/onboarding.go:385-399 | A high screening need not be a critical risk (scores 5 and 0) |
| Onboarding.DedupeAndTrimTopics | backend/handlers/onboarding.go:401-421 | The loop with its seen-set computes the trimmed, whitelisted, first-occurrence list |
| Onboarding.DedupedElements | backend/handlers/onboarding.go:401-421 | A topic is in the output exactly when it is allowed and some input trims to it |
| Onboarding.DedupedDistinct | backend/handlers/onboarding.go:401-421 | The output has no duplicates |
| Onboarding.DedupedTrimmed | backend/handlers/onboarding.go:401-421 | Every output topic is already trimmed |
| Onboarding.DedupedIdentity | backend/handlers/onboarding.go:401-421 | A list of distinct, trimmed, allowed topics is returned unchanged |
| Onboarding.DedupedIdempotent | backend/handlers/onboarding.go:401-421 | Cleaning a cleaned list changes nothing |
| Onboarding.DedupedPrefix | backend/handlers/onboarding.go:401-421 | Appending inputs only appends outputs, so first-occurrence order is kept |
| Onboarding.ContainsOther | backend/handlers/onboarding.go:423-430 | True exactly when "Other" is in the list |
| Onboarding.Submit | backend/handlers/onboarding.go:177-196 | The PHQ-2 and GAD-2 totals are the sums of their two answers, in 0..6 for validated answers, and the screening level is graded from them; the stored topics are the cleaned list; the free-text topic is kept exactly when "Other" is chosen and the trimmed text is non-blank; contact is allowed unless explicitly refused |
| Onboarding.SubmitOtherTopic | backend/handlers/onboarding.go:187-196 | The free-text topic is kept exactly when some input topic trims to "Other" and the text is not blank, and an accepted request stores at least one topic |
| Realtime.JoinRoom | backend/websocket/socket_server.go:474-486 | The room is joined, no other room is added, and joining a room already joined changes nothing |
| Realtime.UserIdOf | backend/websocket/socket_server.go:460-472 | A user id is found exactly when one is stored and non-empty |
| Realtime.EnsureRoomMembership | backend/websocket/socket_server.go:474-486 | The rooms become the old rooms plus a non-empty circle id, and nothing else on the connection changes |
| Realtime.WithRoomIdempotent | backend/websocket/socket_server.go:474-486 | Ensuring the same room twice is the same as once, and at most one room is added |
| Realtime.CircleAccess | backend/websocket/socket_server.go:430-458 | Fails only with one of the two lookup faults, exactly when the membership lookup fails or, without a membership, the circle lookup fails |
| Realtime.AccessGranted | backend/websocket/socket_server.go:430-458 | Access is granted exactly when the user has a membership in the circle or is its moderator, given the lookups succeed; a missing circle denies without error |
| Realtime.AccessImpliesRows | backend/websocket/socket_server.go:430-458 | Granted access implies the user and the circle exist |
| Realtime.AuthenticatedCircleGrantsAccess | backend/websocket/socket_server.go:336-424 | The circle an authenticated connection joins is one the user may access |
| Realtime.MembershipTakesPrecedence | backend/websocket/socket_server.go:360-410 | A user with a membership is given that circle; a user with none is given the moderated circle if any, otherwise no circle |
| Realtime.SendCheck | backend/websocket/socket_server.go:106-138 | Rejections come in the order unauthenticated, bad payload, missing circle or blank content, access error, not authorised; a request passes exactly when all checks pass, carrying the trimmed content |
| Realtime.NewReceiptListed | backend/websocket/socket_server.go:252-284 | A reader whose receipt was just added is listed among the message's readers |
| Realtime.AddReceiptKeepsUnique | backend/websocket/socket_server.go:243-260 | Adding a receipt not yet present keeps receipts free of duplicates |
| Realtime.ExtractTokenFindsValue | backend/websocket/socket_server.go:489-496 | No "token=" gives ""; otherwise the result is the longest prefix of the text after the first "token=" holding neither "&" nor "token=" |
| Realtime.ExtractTokenRoundTrip | backend/websocket/socket_server.go:489-496 | A token without "&" or "token=" is read back from "token=" followed by it |
| Realtime.SocketServer.AuthenticateConnection | backend/websocket/socket_server.go:336-424 | An invalid token emits an auth error and closes the connection without storing a user; a failed lookup stores the user, emits a server error and closes the connection; otherwise the user is stored, the membership circle or else the moderated circle is joined, and auth success is emitted with that circle or none |
| Realtime.SocketServer.SendMessage | backend/websocket/socket_server.go:104-209 | A rejected request emits a message error and stores or broadcasts nothing; otherwise the room is ensured, a failed insert emits "Failed to send message", and a stored message is broadcast once to its room as read by the sender, whether or not the sender's receipt was stored |
| Realtime.SocketServer.MarkRead | backend/websocket/socket_server.go:211-285 | Rejected or repeated reads change nothing; a new receipt is appended and the room gets one read event listing every reader of the message in store order; receipts stay free of duplicates |
| Realtime.SocketServer.Typing | backend/websocket/socket_server.go:287-325 | A typing event is broadcast to the room exactly when the connection is authenticated and has joined that room |
| Realtime.SentMessagesRespectAccess | backend/websocket/socket_server.go:106-138 | An accepted message has an existing sender and an existing circle |
| Views.ReaderIds | backend/handlers/message.go:104-108 | The loop lists the user id of every receipt, in order |
| Views.ReadersOfMessage | backend/websocket/socket_server.go:263-275 | A message's reader list has one entry per receipt, and lists a user exactly when that user has a receipt for it |
| MessageHandlers.BuildHistory | backend/handlers/message.go:88-121 | The loop builds one view per fetched message, in order |
| MessageHandlers.GetCircleMessages | backend/handlers/message.go:39-124 | 401 without a user, 404 for a missing circle, 403 for a non-member non-moderator, 500 "Failed to fetch messages" when the fetch fails for a caller who may view; success exactly otherwise, returning the history of the circle's messages |
| MessageHandlers.HistoryDescribesMessages | backend/handlers/message.go:88-121 | The history keeps the count and order of the messages, their ids, circle and sender, and lists a reader exactly when a receipt exists |
| MessageHandlers.HistoryInTimeOrder | backend/handlers/message.go:73-85 | Messages stored in time order are returned in time order |
| MessageHandlers.ViewMatchesSocketAccess | backend/handlers/message.go:59-70 | Without faults, the view check grants exactly the access the socket server grants |
| MessageHandlers.MemberEntry | backend/handlers/message.go:252-266 | Each membership gives an entry for its user, flagged as moderator exactly when it is the moderator |
| MessageHandlers.MemberListFacts | backend/handlers/message.go:252-289 | One entry per membership plus at most one more; the moderator is always listed; entries are flagged exactly for the moderator; a user is listed exactly when a member or the moderator |
| MessageHandlers.HasMember | backend/handlers/message.go:229-243 | True exactly when some membership of the circle is the user's |
| MessageHandlers.BuildMemberList | backend/handlers/message.go:252-289 | The loop and the conditional append build the member list |
| MessageHandlers.GetCircleMembers | backend/handlers/message.go:201-296 | 401 without a user, 500 when the circle cannot be loaded, 403 for a caller neither moderator nor member; otherwise the circle's id, name and member list |
| MessageHandlers.GetUserCircle | backend/handlers/message.go:299-359 | Fails only with 401, 404 or 500; a success describes an existing circle the user belongs to or moderates, with its member count; a user with a membership gets that circle; 404 exactly when the lookups succeed and the user has neither a membership nor a moderated circle |
| MessageHandlers.UserCircleMatchesAuthentication | backend/handlers/message.go:310-358 | The circle returned is the one socket authentication joins, membership first; 404 exactly when the user has neither |
| MessageHandlers.Ext | backend/handlers/message.go:173-174 | The extension is a suffix of the name starting at its last dot after the last slash, or empty when there is none |
| MessageHandlers.UploadImage | backend/handlers/message.go:127-198 | 401, 400 without a file, 400 for a type outside the five image types, 400 above 5 MiB, 500 "Failed to create upload directory" when the directory cannot be made, 500 "Failed to save file" when creating or copying the file fails; success exactly otherwise, with the generated filename and the URL under "/uploads/messages/" |
| MessageHandlers.GeneratedNameKeepsExtension | backend/handlers/message.go:173-192 | The stored filename and the URL keep the uploaded file's extension |
| Password.ValidatePasswordStrength | backend/utils/auth.go:78-115 | The flag loop and the ordered checks return exactly the verdict: too short first, then the first missing class among upper, lower, digit, special |
| Password.StrongIffAllClasses | backend/utils/auth.go:83-114 | Strong exactly when at least 8 bytes long and holding all four classes; only a strong password gets the strong message |
| Password.LengthComesFirst | backend/utils/auth.go:79-81 | A too-short password gets the length message before any class check; for ASCII the byte length is the character count |
| Password.SevenRunesAccepted | backend/utils/auth.go:79-81 | The byte length is what is measured: seven characters of ten bytes pass |
| Password.OtherCharactersIrrelevant | backend/utils/auth.go:88-99 | Swapping a character of no class for another of the same width never changes the verdict |

## Left out

- Regular-expression matching of the safety patterns (Go's RE2, `\b`, case folding) is an oracle: each pattern's hits are an input list.
- Safety.CheckContent and Safety.MaskContent take the hits as rune positions; the byte-offset behaviour of the code as written is modelled separately (Findings).
- The socket.io transport, CORS, origin checks and the actual delivery of room broadcasts are left out; broadcasts are an event log.
- Concurrency is left out: the model is sequential, so the race between the capacity check and the insert in AddUserToCircle is not modelled.
- The typing handlers' unchecked type assertion on the connection context can panic; the model uses the guard and does not model panics. Realtime.SocketServer.Typing: a stored empty user id passes the typing guard as in the code.
- JWT signing and verification and bcrypt hashing are foreign libraries; token verification is an oracle parameter.
- Database access (Prisma) is an in-memory `Database`; each failing call is named by a `Fault` parameter and ordering by `CreatedAt` is the table order (MessageHandlers.HistoryInTimeOrder states when they agree).
- CircleMatching.FindOrCreateCircle returns the circle row as read before AddUserToCircle may mark it full, as the code does.
- CircleMatching.AddUserToCircle: a failed existing-membership lookup is treated as "no membership", as in the code, so the one-circle-per-user invariant is only preserved when that lookup succeeds.
- The design description says the topic "suicidal thoughts" gives a crisis circle; the code's keyword is "suicide", which "suicidal" does not contain, so the model follows the code and gives general support (unless another keyword matches).
- Text.ToLower lowers ASCII letters only; full Unicode case mapping is not modelled.
- Onboarding: the screening level is a datatype, not the stored string; persisting the onboarding response, issuing the new JWT and the match e-mail are left out.
- Realtime.SocketServer.MarkRead: mark_read does not check that the message belongs to the circle it broadcasts to; the model keeps that. A receipt insert failing on the message foreign key is modelled as a missing message.
- Realtime.Authentication: the member count query's error is ignored and counts as 0, as in the code.
- MessageHandlers.GetCircleMembers answers 500, not 404, when the circle does not exist, as the code does.
- UploadImage's directory creation, file copy, uuid and timestamp are parameters (`dirCreated`, `saved`, `uuid`, `stamp`).
- RFC 3339 formatting of `createdAt` (section 5.6 of RFC 3339) is not modelled; timestamps are integers.
- backend/handlers/auth.go, backend/handlers/instant_help.go, backend/services/gemini.go, backend/services/email.go, backend/main.go and the database scripts are not part of this model (HTTP glue, an external LLM client, SMTP delivery, wiring and seeding).

## Findings

| source | as written | input that shows it | evidently intended | confidence | as-written member | corrected member |
|---|---|---|---|---|---|---|
| backend/services/safety.go:296-303 | maskContent splices the rune slice at the byte offsets returned by FindAllStringIndex | content "éab" with a hit on bytes 2..3 (the "a"): the rune slice is cut at index 2, so "b" is masked and "a" is not; content "ééharm" with a hit on bytes 4..8 (the "harm"): the text has six runes, so slicing at 8 panics | convert byte offsets to rune positions before splicing, so exactly the hit's runes are masked | not executed | Safety.MaskContentAsWritten, Safety.MaskedAsWritten, Safety.MaskedAsWrittenShiftsMask, Safety.MaskedAsWrittenPanics | Safety.MaskedByBytes, Safety.MaskedByBytesMasksHit |
