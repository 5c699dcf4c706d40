# A verified model of the contract platform's stateful cores

The project models twelve pieces of logic of a contract-management web application in Dafny and
proves what they guarantee over all inputs, all runs or all interleavings. Where a promise turns out not to
hold, the code is kept as it is, the failing case is exhibited, and the exact condition under which the
promise holds is proved.

`dafny verify dfyconfig.toml` checks everything.

## What is modelled

| file | subject |
|---|---|
| `AuthRateLimit.dfy` | the login and registration limiter, its two expiring cache keys, and the single bucket it is meant to be |
| `AuthRateLimitRuns.dfy` | whole sequential runs of the limiter: refinement, Retry-After, bounds on registrations |
| `AuthRateLimitConcurrent.dfy` | many workers interleaving cache operations for one client, on either route |
| `SessionSecurity.dfy` | session admission: MFA gate, revocation counters, idle expiry, recovery codes |
| `SignaturePackets.dfy` | signature requests: status table, actors, routing by signing order |
| `DocumentReview.dfy` | the AI review pipeline and the readiness test of the confirm endpoint |
| `ReviewWorkspace.dfy` | the workspace in which an uploaded agreement is confirmed, given a playbook and reviewed |
| `ReviewFindings.dfy` | decisions on findings, approvals they open, and the confirm endpoint |
| `LegacyTables.dfy`, `ClassTokens.dfy`, `TagInternals.dfy` | the migrator of legacy button and badge class tokens |
| `RecordNumbers.dfy` | automatic numbers of matters, invoices and data subject requests |
| `FreshNames.dfy` | the suffix loops for free slugs and user names |
| `SamlRoles.dfy` | the role inferred from SAML attributes |
| `RequestMetrics.dfy` | request counters shared by concurrent requests |
| `Pagination.dfy` | offset pagination and SCIM index pagination (section 3.4.2.4 of RFC 7644) |
| `Navigation.dfy` | the sidebar and its section cleaner |
| `Text.dfy`, `Outcomes.dfy` | the Python string operations these rely on, and their result types |

State that the program updates in place (the cache, the session store, a review run, a desk of findings, a
numbered table, the metrics) is a class whose methods are proved equal to functions on values; runs,
interleavings and invariants are stated about those functions. Clock readings, results of views, permission
checks, the text extraction and the AI provider are inputs.

## Where the code departs from its promises

- **Limiter.** The lifetimes of the two keys are counted from the instants at which they are written, but the
  window they describe from the whole second in which the request arrived. So both outlive their window, by the
  duration of the view and by the fraction of a second at which the request came. A request counted into a new
  window while an older key lingers is the only one that is served differently from a single bucket
  (`AuthRateLimit.StepAgreesExactly` for one request, `AuthRateLimitRuns.RunAgreesExactly` for whole runs, both
  equivalences). The registration limit does not hold then, even with views that take no time
  (`AuthRateLimitRuns.InstantViewsVoidTheLimit`; `AuthRateLimitRuns.BurstAfterWindow` says exactly how many get
  through), and a legacy dictionary can be answered differently from its two-key equivalent
  (`AuthRateLimitRuns.LegacyRunsMayDiffer`). The bounds are proved for every run in which no request is misled,
  and thereby for every run that keeps clear of the ends of the bucket's windows
  (`AuthRateLimitRuns.ClearRunsAreNeverMisled`).
  Concurrent registrations can exceed the limit by as many as race
  (`AuthRateLimitConcurrent.RegistrationsLetThrough`, `AuthRateLimitConcurrent.CrowdAttainsTheBound`); concurrent
  failing logins inside one window cannot.
- **Sessions.** A revocation does not reach a session that has no counter on record yet; this is the only
  exception (`SessionSecurity.RevocationReach`, an equivalence, and `SessionSecurity.RevokedForGood`). Passing the MFA challenge with a recovery
  code revokes the very session it verifies (`SessionSecurity.RecoveryCodeEndsItsOwnSession`,
  `SessionSecurity.RecoveryCodeLocksItsSessionOut`).
- **Signature packets.** The list of transitions shown to an actor is empty while a signer's turn has not
  come, even for a signer who as creator or manager may act (`SignaturePackets.ShownTransitions`).
  A lowest open request that is still PENDING, or whose signer has no e-mail address, cannot be signed
  (`SignaturePackets.LowestOpenMayBeSigned`, an equivalence).
- **Document review.** A blank counterparty or governing law posted to the workspace is not saved, but the
  status is worked out as if it had been. After a completed review this takes READY away for good, because a
  completed review is not run again for this upload; nothing else in the workspace does so
  (`ReviewWorkspace.ConfirmableUntilASlip`, an equivalence, and `ReviewWorkspace.OneSlipBlocksConfirmation`).
- **Numbers.** Automatic numbering is refused exactly when some row got the next number otherwise than
  automatically on its creation (`RecordNumbers.AutomaticNumberRefusedExactly`), and stays refused
  (`RecordNumbers.RefusalLasts`). A typed number does that, and so does a number that is emptied and saved again
  (`RecordNumbers.OneTypedNumberBlocks`, `RecordNumbers.OneEmptiedNumberBlocks`).
- **User names.** Because the suffix goes behind the first 24 characters, the base name can itself be one of
  the candidates, which can cost one lookup beyond the number of taken names plus one
  (`FreshNames.FreshUsername`, an equivalence; `FreshNames.OneTakenNameThreeLookups`).
- **Metrics.** The snapshot reports the classes 2xx to 5xx only, so its status counts add up exactly when no
  other status was recorded (`RequestMetrics.ReportedStatusesAddUpExactly`).
- **Pagination.** A limit of 0 names the current offset as the next one
  (`Pagination.ZeroLimitStandsStill`, an equivalence).

## Model

| member | source | states |
|---|---|---|
| AuthRateLimit.Cache.LoadAuthCounter | contracts/middleware.py:281-296 | reading the shared cache: expired, legacy and two-key states give the count and window end of `Load`; only this client's keys can change |
| AuthRateLimit.Cache.IncrementAuthCounter | contracts/middleware.py:298-322 | counting a failure keeps an unexpired reset key and the counter's expiry, restarts them otherwise, falls back to a fresh write when the counter vanishes in between, and returns the new count |
| AuthRateLimit.Cache.Handle | contracts/middleware.py:222-259 | one POST answers and leaves the client's two keys as `Serve` says, and no other client's keys change |
| AuthRateLimit.IncrementBegins | contracts/middleware.py:298-322 | counting into a new window leaves keys that stand for the bucket exactly unless an older key lingers while the new window still runs |
| AuthRateLimit.UncountedAgrees | contracts/middleware.py:228-255 | successes, refusals and other statuses are always served as by the single bucket, whichever keys linger |
| AuthRateLimit.StepAgreesExactly | contracts/middleware.py:222-259 | one request, which adds its reset key, reads the counter again and counts it up at instants of their own, is served as by a single bucket {count, reset_at} if and only if no lingering key of an earlier window misleads it |
| AuthRateLimit.DatelessDictionary | contracts/middleware.py:281-296 | a legacy dictionary without a window end: every request takes its window to begin then; it refuses what its count refuses, for a whole window each time, is forgotten by a successful login, and is dated by the first request counted |
| AuthRateLimitRuns.RunAgreesExactly | contracts/middleware.py:222-259 | a whole sequential run follows the single bucket, key state included, if and only if no request of it is misled |
| AuthRateLimitRuns.RunRefinesBucket | contracts/middleware.py:222-259 | on every sequential run in which no request is misled all verdicts and Retry-After values are those of the single bucket |
| AuthRateLimitRuns.ClearRunsAreNeverMisled | contracts/middleware.py:298-322 | told without the cache, following the single bucket: if every request the bucket counts is counted within d seconds of the second of its arrival, and none that begins a window writes within d seconds of the end of the one before, no request of the run is misled |
| AuthRateLimitRuns.SpacedRunsAreClear | contracts/middleware.py:298-322 | a condition on the request times alone that suffices for that |
| AuthRateLimitRuns.LegacyRunsAgreeInTheirWindow | contracts/middleware.py:284-292 | a run on a live legacy dictionary gets the answers of the equivalent two keys for all requests that arrive before its window ends |
| AuthRateLimitRuns.LegacyRunsAgreeWhenClear | contracts/middleware.py:284-292 | and beyond it for every run that is clear of the bucket's windows |
| AuthRateLimitRuns.LegacyRunsAgreeExactly | contracts/middleware.py:281-322 | up to the first request after the window, without a successful login before: the answers are the same if and only if that request is no failed login or the old count outlives the window in both or in neither |
| AuthRateLimitRuns.LegacyRunsMayDiffer | contracts/middleware.py:298-308 | the failing case: a failed login just before the window end and one just after it are answered differently |
| AuthRateLimitRuns.RetryAfterWithinWindow | contracts/middleware.py:251-255 | on every run, misled requests or not, each Retry-After lies between 1 and the window |
| AuthRateLimitRuns.BucketReachesTwiceTheLimit | contracts/middleware.py:251-259 | for the bucket, any span of one window lets at most twice the limit of registrations reach the view |
| AuthRateLimitRuns.BucketReachesTheLimit | contracts/middleware.py:251-259 | for the bucket, exactly the first `limit` registrations of a window reach the view |
| AuthRateLimitRuns.UnmisledRegistrationsBounded | contracts/middleware.py:251-259 | the two-key code keeps both bounds on every run in which no request is misled |
| AuthRateLimitRuns.RegistrationsBounded | contracts/middleware.py:251-259 | in particular on every run that is clear of the bucket's windows |
| AuthRateLimitRuns.BurstAfterWindow | contracts/middleware.py:298-322 | exactly how many of n simultaneous registrations after a window of one registration get through: all n while its reset key lingers, max(1, limit - 1) of them while only the counter does, the limit afterwards |
| AuthRateLimitRuns.InstantViewsVoidTheLimit | contracts/middleware.py:298-303 | under every policy and with views that take no time, any number of registrations pass at the end of a window that began at a fraction of a second |
| AuthRateLimitConcurrent.LoneWorkerServes | contracts/middleware.py:226-322 | on either route, from any cache, the atomic operations of a worker, undisturbed, amount to the sequential middleware |
| AuthRateLimitConcurrent.StepKeepsInv | contracts/middleware.py:226-249 | every atomic step keeps: counter = k + increments done, and let-through = what of those fits under the limit |
| AuthRateLimitConcurrent.CounterNeverFalls | contracts/middleware.py:299-322 | in every interleaving inside a window, up to the first successful login, the counter never decreases |
| AuthRateLimitConcurrent.FailuresLetThrough | contracts/middleware.py:226-249 | in every interleaving at most max(0, limit - k) failing logins are answered 200, all other answered ones 429 |
| AuthRateLimitConcurrent.FailuresLetThroughExactly | contracts/middleware.py:226-249 | once all are answered exactly min(workers, limit - k) were let through: none too many, none too few |
| AuthRateLimitConcurrent.RegistrationsLetThrough | contracts/middleware.py:251-259 | racing registrations are not checked after the increment: with at most c of them under way at once, at most limit - k - 1 + c pass if the counter stood at k below the limit, else none |
| AuthRateLimitConcurrent.RegistrationRace | contracts/middleware.py:251-259 | if all workers read before any counts itself, all pass as long as the counter stood below the limit |
| AuthRateLimitConcurrent.CrowdAttainsTheBound | contracts/middleware.py:251-259 | for every k below the limit and every c some interleaving lets exactly limit - k - 1 + c pass |
| SessionSecurity.Store.MfaGateRedirect | contracts/middleware.py:486-504 | a request gets past the gate if and only if its path is exempt, or no MFA is required, or the user is enrolled and the session marked verified; enrolment is asked for before the challenge |
| SessionSecurity.Store.Handle | contracts/middleware.py:407-449 | one request: the verdict, and the session flushed or stamped with counter and time, as `Judge` and `Visited` say; what those say is written out in `VisitsDecidedExactly` |
| SessionSecurity.VisitsDecidedExactly | contracts/middleware.py:407-449 | every visit decided without naming the code's functions: let in if and only if the gate lets it through, the counter on record, if any, is the user's, and the last activity, if any, is at most 60 times the organisation's minutes, or the default's, ago; else which redirect; and what becomes of the session |
| SessionSecurity.Store.RevokeUserSessions | contracts/session_security.py:10-14 | raises exactly this user's counter by one |
| SessionSecurity.Store.RevokeOrganizationSessions | contracts/session_security.py:17-30 | raises the counter of every active member, in order, and returns them |
| SessionSecurity.Store.VerifyRecoveryCode | contracts/models.py:330-339 | a known code is removed everywhere and revokes the user's sessions; any other changes nothing |
| SessionSecurity.CounterTellsRevocations | contracts/session_security.py:10-30 | between two points of a run a user's counter rises if and only if the user's sessions were revoked in between |
| SessionSecurity.AfterAdmission | contracts/middleware.py:419-427 | a session once admitted is later gone or still carries the counter of that admission |
| SessionSecurity.AdmittedTwiceMeansUnrevoked | contracts/middleware.py:407-449 | if one session is admitted twice, no revocation of its user, single, organisation-wide or by recovery code, lies between |
| SessionSecurity.AdmissionGapWithinIdleLimit | contracts/middleware.py:429-447 | consecutive admissions of a session are at most the idle limit then in force apart |
| SessionSecurity.ReadmittedExactly | contracts/middleware.py:424-447 | the other half, over every run: an admitted session whose user was not revoked since and which passes the gate is admitted at its next visit if and only if that comes within the idle limit |
| SessionSecurity.FirstVisitExactly | contracts/middleware.py:419-447 | the first visit after a login, whatever was revoked since: a session that is alive and passes the gate is let in unless idle expiry is forced |
| SessionSecurity.SessionsEndExactly | contracts/middleware.py:424-442 | a session ends if and only if it is logged out or sent to the login page |
| SessionSecurity.CounterCountsRevocations | contracts/session_security.py:10-30 | after any run a user's counter has risen by the number of revocations, one for each membership listed |
| SessionSecurity.RevocationReach | contracts/middleware.py:419-427 | in every run, the next admission of a session after a revocation of its user happens if and only if it had no counter on record then, is alive, passes the gate and is not idle |
| SessionSecurity.RevokedForGood | contracts/middleware.py:419-427 | a session with a counter on record is never admitted again after a revocation of its user |
| SessionSecurity.MarkedMeansProved | contracts/middleware.py:502-504 | a live session is marked verified if and only if a proof (one-time code, enrolment, identity provider, recovery code) was given since the login and not demanded again |
| SessionSecurity.AdmissionNeedsProof | contracts/middleware.py:486-504 | where MFA is required no session gets beyond the exempt pages without an enrolled user and such a proof |
| SessionSecurity.RecoveryCodeEndsItsOwnSession | contracts/services/recovery_codes.py:41-46 | a session verified by a recovery code is sent to the login page at its next visit |
| SessionSecurity.RecoveryCodeLocksItsSessionOut | contracts/models.py:330-339 | the session that used a recovery code is never admitted again, in any run |
| SessionSecurity.RecoveryCodeWorksOnce | contracts/models.py:330-339 | a consumed code is refused in every later state until new codes are issued |
| SessionSecurity.ConsumingRemovesTheCode | contracts/models.py:330-339 | the hash goes wherever it stands; the other hashes stay, in order |
| SignaturePackets.ReadyMeansEarlierTerminal | contracts/models.py:3730-3750 | routing-ready if and only if every request of smaller order on the contract is terminal |
| SignaturePackets.BlockersAre | contracts/models.py:3730-3747 | the blockers are exactly the open requests of smaller order on the contract |
| SignaturePackets.AttemptsDecidedExactly | contracts/models.py:3685-3728 | every attempt decided without naming the code's functions: accepted if and only if the status pair is one of the listed ones and an actor looked at is the creator, a manager, or the signer viewing, signing or declining after all smaller orders are settled; it then changes that one status |
| SignaturePackets.ShownTransitions | contracts/models.py:3752-3773 | the offered transitions are exactly the lawful ones, pair by pair, that the actor is entitled to as creator, manager or signer in turn, and none for a signer whose turn has not come |
| SignaturePackets.ShownInOrder | contracts/models.py:3757-3773 | they are offered once each, in the order sent, viewed, signed, declined, expired, cancelled |
| SignaturePackets.FieldsFixed | contracts/services/esign.py:94-98 | in every run only statuses change, and a terminal request never changes again |
| SignaturePackets.ReadinessKept | contracts/models.py:3730-3750 | a request once routing-ready stays so in every run |
| SignaturePackets.SigningOrder | contracts/models.py:3712-3728 | a step authorised by the signer's e-mail alone finds all smaller orders terminal, then and ever after, and is a signer's action |
| SignaturePackets.LowestOpenMayBeSigned | contracts/models.py:3712-3728 | a lowest open request is ready and can be signed by its signer if and only if it was sent and has an address |
| SignaturePackets.PacketProgresses | contracts/models.py:3685-3750 | a packet with nothing pending is finished or has a lowest open request its own signer can sign now |
| SignaturePackets.PacketCanFinish | contracts/models.py:3685-3750 | the signers alone can bring such a packet to its end |
| SignaturePackets.PacketCanComplete | contracts/models.py:3685-3750 | the creators sending and the signers signing can bring every packet to its end, pending requests included, no attempt being refused |
| SignaturePackets.StepUsesWork | contracts/models.py:3685-3710 | every status change uses up some of the status changes still possible |
| SignaturePackets.ChangesBounded | contracts/models.py:3685-3710 | a packet of n requests sees at most 3n status changes in any run |
| DocumentReview.ReviewRun.Update | contracts/api/documents_ai.py:571-608 | an intermediate or blocking update sets status, step and completion only |
| DocumentReview.ReviewRun.Finish | contracts/api/documents_ai.py:742-764 | the final update re-extracts the metadata, carries the confirmations over and records charter, match, completion and citations |
| DocumentReview.RunUploadedReview | contracts/api/documents_ai.py:541-779 | the whole run, gate by gate: completed if and only if AI is enabled, a text is readable, the contract exists and is complete, a run exists with a matched or selected playbook and the provider answers; else the first failing gate decides the answer and the status and step of the run, and nothing else changes; one outcome is recorded, SUCCESS if and only if completed |
| DocumentReview.FinishedMetadataExactly | contracts/api/documents_ai.py:742-757 | after a completed review the confirmations are those of before, and every other entry is what the text says |
| DocumentReview.FinishedGovernanceExactly | contracts/api/documents_ai.py:571-608 | and four governance facts are set, the selection of a playbook counting as a match, while all others stay |
| DocumentReview.LabelsPendExactly | contracts/api/documents_ai.py:183-197 | each label is listed as pending if and only if its own reason holds |
| DocumentReview.CompleteExactly | contracts/api/documents_ai.py:174-197 | the contract is complete if and only if no label awaits an answer |
| DocumentReview.SeededExactly | contracts/api/documents_ai.py:200-218 | an uploaded run carries what a readable text says and the confirmations the form stands for, and nothing else |
| DocumentReview.ReadinessExactly | contracts/api/documents_ai.py:1203-1218 | the confirm endpoint asks for a READY run, a completed analysis, a matched or selected playbook, and every label answered |
| DocumentReview.RunComesToRest | contracts/api/documents_ai.py:541-779 | every path ends in one of four resting statuses, READY if and only if the review completed |
| DocumentReview.ReadyRunPassesExactly | contracts/api/documents_ai.py:1203-1218 | a READY run passes the confirm endpoint's test if and only if a playbook was selected or matched by this review and payment terms found were confirmed |
| ReviewWorkspace.UploadIsSound | contracts/api/documents_ai.py:435-444 | after the upload, reviewed at once or not, no match is recorded without a selected playbook and no analysis has completed |
| ReviewWorkspace.ReviewKeepsSound | contracts/api/documents_ai.py:541-779 | a review completes only with a selected playbook and a complete classification, and only a completed one ends READY |
| ReviewWorkspace.StepKeepsSound | contracts/views_domains/contracts.py:955-1050 | every POST of the workspace keeps "matched implies selected" and the completed classification; READY is lost to a blank answer only, and is regained by none |
| ReviewWorkspace.StepSettlesExactly | contracts/views_domains/contracts.py:962-1000 | a POST settles exactly the label it answers acceptably and unsettles none, the review included |
| ReviewWorkspace.StepSavesExactly | contracts/views_domains/contracts.py:962-1026 | what a POST saves on the contract: the acceptable answer as posted, nothing else |
| ReviewWorkspace.StepNotesExactly | contracts/views_domains/contracts.py:984-1030 | what a POST other than the review notes on the run: confirmations, payment terms, playbook and retry, every other entry stays |
| ReviewWorkspace.StatusExactly | contracts/views_domains/contracts.py:1031-1048 | a confirmation leaves the run at the first thing still missing, a blank answer counting as missing |
| ReviewWorkspace.LastAnswerIsSaved | contracts/views_domains/contracts.py:962-1026 | over every run the contract says what was last answered acceptably |
| ReviewWorkspace.ReviewOpensExactly | contracts/views_domains/contracts.py:1010-1018 | over every run from an upload, before a review has completed: it can be run if and only if the text is readable, every label was answered on the form or since, and a playbook was selected |
| ReviewWorkspace.AnswersLeadToConfirmation | contracts/api/documents_ai.py:1203-1220 | and a review the provider answers then makes the contract confirmable, if and only if all that was done |
| ReviewWorkspace.ReadyIsConfirmable | contracts/api/documents_ai.py:1203-1220 | over every run of confirmations, playbook choices and reviews from an upload, the confirm endpoint's test holds if and only if the run is READY |
| ReviewWorkspace.ConfirmableUntilASlip | contracts/views_domains/contracts.py:1031-1048 | once a review has completed, the contract can be confirmed if and only if no blank counterparty or governing law has been posted since |
| ReviewWorkspace.OneSlipBlocksConfirmation | contracts/views_domains/contracts.py:964-969 | it does happen: from every case complete but for playbook and review these two make it confirmable, and any blank answer after them takes that away |
| DocumentReview.EarlierMatchIsForgotten | contracts/api/documents_ai.py:758-761 | why the invariant is needed: a match recorded without a selected playbook would be overwritten by the review |
| ReviewFindings.ReviewDesk.ActOn | contracts/api/documents_ai.py:1038-1128 | one action changes the finding and the approvals as decided, or is refused and changes nothing; the decisions are written out in `RefusedExactly`, `ActionsExactly` and `ActsExactly` |
| ReviewFindings.RefusedExactly | contracts/api/documents_ai.py:1030-1078 | which actions are refused and with which error |
| ReviewFindings.ActionsExactly | contracts/api/documents_ai.py:1038-1121 | for each action the status the finding has afterwards and every field that changes, all others equal |
| ReviewFindings.ActsExactly | contracts/api/documents_ai.py:1038-1121 | an action changes its own finding alone; a requested exception adds its approval step, named by the first 100 characters of the title, if it is missing |
| ReviewFindings.ReviewDesk.ConfirmReview | contracts/api/documents_ai.py:1198-1241 | opens the confirmation approval exactly when the review is ready and no finding is open |
| ReviewFindings.FindingsStayAccountable | contracts/api/documents_ai.py:1038-1128 | over every run a dismissed finding has a valid reason (Critical and High never none) and a resolved one a resolver and a time |
| ReviewFindings.ConfirmationMeansDecided | contracts/api/documents_ai.py:1221-1241 | a confirmation goes through if and only if the review is ready and every finding was dismissed or resolved on those terms |
| ReviewFindings.ConfirmationAcceptedExactly | contracts/api/documents_ai.py:1219-1231 | over every run, told by the actions: a confirmation goes through if and only if the review is ready and every finding was closed at the start, resolved, or dismissed in due form, and not reopened since; else which of the two refusals |
| ReviewFindings.ResolvingOpensConfirmation | contracts/api/documents_ai.py:1117-1241 | from any desk with a ready review, resolving every finding and then confirming goes through and opens the confirmation step |
| ReviewFindings.ApprovalsAreUnique | contracts/api/documents_ai.py:1097-1106 | no approval step is ever duplicated or lost |
| ReviewFindings.ConfirmationStays | contracts/api/documents_ai.py:1232-1241 | after a confirmation its approval step exists exactly once, ever after |
| LegacyTables.TablesSeparated | scripts/phase6_retire_btn_badge_dual_classes.py:20-50 | legacy tokens begin with b, their replacements with d, and all are plain words |
| LegacyTables.TablesDistinct | scripts/phase6_retire_btn_badge_dual_classes.py:20-50 | no key occurs twice, and badge-sm is no key |
| LegacyTables.ButtonEntries | scripts/phase6_retire_btn_badge_dual_classes.py:20-36 | the fifteen button tokens and their modifiers, in full |
| LegacyTables.BadgeEntries | scripts/phase6_retire_btn_badge_dual_classes.py:38-50 | the eleven badge tokens and their tones, in full |
| ClassTokens.DedupeTokens | scripts/phase6_retire_btn_badge_dual_classes.py:81-88 | keeps first occurrences and drops empty tokens |
| ClassTokens.Classify | scripts/phase6_retire_btn_badge_dual_classes.py:109-140 | splits the tokens into untouched ones, modifiers and tones, and tells whether a button or badge was seen |
| ClassTokens.AddButton | scripts/phase6_retire_btn_badge_dual_classes.py:145-154 | inserts modifiers behind the base token; the fallback for a missing base is unreachable |
| ClassTokens.AddBadge | scripts/phase6_retire_btn_badge_dual_classes.py:156-167 | adds the badge base, its size and the tones; the fallback is unreachable |
| ClassTokens.MigrateClassValue | scripts/phase6_retire_btn_badge_dual_classes.py:91-169 | the whole rewriting, in both modes, equals `Migrated`; no token of the result is "btn", a key of the button table, or begins with "badge-"; a value without tokens stays as it is |
| ClassTokens.MigratedTokensAre | scripts/phase6_retire_btn_badge_dual_classes.py:91-169 | the output has no duplicates, no legacy token, exactly the untouched tokens and the gained ones |
| ClassTokens.OutputTokensExactly | scripts/phase6_retire_btn_badge_dual_classes.py:91-169 | in terms of the text alone, for every token whether it is in the result: the words that are not legacy, the replacements of the keys, the neutral tone for any other word that begins with "badge-" except badge-sm, and the base tokens unless a fragment has legacy words only |
| ClassTokens.NoLegacyText | scripts/phase6_retire_btn_badge_dual_classes.py:91-169 | the result holds no "btn", no key of either table and no word that begins with "badge-" |
| ClassTokens.ImagesInOrder | scripts/phase6_retire_btn_badge_dual_classes.py:115-140 | modifiers and tones come once each, in the order in which the value first asks for them |
| ClassTokens.DedupeInOrder | scripts/phase6_retire_btn_badge_dual_classes.py:81-88 | each non-empty token stays at the place of its first occurrence |
| ClassTokens.UntouchedKeepTheirOrder | scripts/phase6_retire_btn_badge_dual_classes.py:115-140 | untouched tokens keep the order of their first occurrences |
| ClassTokens.ModsFollowTheButton | scripts/phase6_retire_btn_badge_dual_classes.py:148-154 | new modifiers stand right behind the first base token, the last one found first |
| ClassTokens.BadgeLayout | scripts/phase6_retire_btn_badge_dual_classes.py:156-167 | the badge base stays where it is or comes to the very front, its size stands right behind it, the missing tones at the end |
| ClassTokens.MigrationIsIdempotent | scripts/phase6_retire_btn_badge_dual_classes.py:91-169 | rewriting twice, in any combination of modes, equals rewriting once |
| Text.SplitOfJoin | scripts/phase6_retire_btn_badge_dual_classes.py:97-169 | joining words with spaces and splitting gives the words back |
| Text.JoinConcat | scripts/phase6_retire_btn_badge_dual_classes.py:143-169 | neighbouring words are one space apart |
| Text.SplitAtSpace | scripts/phase6_retire_btn_badge_dual_classes.py:97 | any whitespace separates words, and what stands on its two sides is split by itself |
| Text.StripExactly | contracts/models.py:3720-3721 | stripping removes whitespace only, at both ends |
| TagInternals.MigrateTagInternals | scripts/phase6_retire_btn_badge_dual_classes.py:172-179 | the chain of substitutions equals one simultaneous map over maximal word runs |
| TagInternals.TagWordsExactly | scripts/phase6_retire_btn_badge_dual_classes.py:172-179 | wherever a whole word stands in a tag, it becomes its entry of either table, or the small badge for badge-sm, and any other word stays |
| TagInternals.PassOfConcat | scripts/phase6_retire_btn_badge_dual_classes.py:172-179 | the two sides of a word boundary are rewritten separately |
| TagInternals.SubIsOnePass | scripts/phase6_retire_btn_badge_dual_classes.py:174-178 | a whole-word substitution replaces exactly the maximal runs equal to its key |
| TagInternals.FoldIsOnePass | scripts/phase6_retire_btn_badge_dual_classes.py:172-179 | sequential substitution equals simultaneous substitution for every proper table |
| TagInternals.OrderIsIrrelevant | scripts/phase6_retire_btn_badge_dual_classes.py:172-179 | tables with the same lookups rewrite alike |
| TagInternals.AnyOrderRewritesAlike | scripts/phase6_retire_btn_badge_dual_classes.py:172-179 | every rearrangement of the entries gives the same tag |
| TagInternals.TagMigrationIsIdempotent | scripts/phase6_retire_btn_badge_dual_classes.py:172-179 | rewriting a tag twice equals rewriting it once |
| RecordNumbers.NumberedTable.Save | contracts/models.py:839-844 | a new row with an empty number gets the prefix and one more than the last id; a duplicate is refused and changes nothing |
| RecordNumbers.NumberedTable.Resave | contracts/models.py:839-844 | a row saved again with its number emptied gets a new one in the same way; a number of another row is refused |
| RecordNumbers.AutomaticNumberExactly | contracts/models.py:839-844 | an automatic number is the prefix and the successor of the largest live id, or 1, in at least five digits; every other row stays |
| RecordNumbers.SavesExactly | contracts/models.py:839-844 | a typed number is refused if and only if another live row has it; otherwise it is stored and every other row stays |
| RecordNumbers.FormatIsInjective | contracts/models.py:1940-1944 | five-digit padding never maps two numbers to one string, beyond 99999 too |
| Text.PaddedExactly | contracts/models.py:843 | five digits at least, that denote the number, and more only as far as it needs them |
| RecordNumbers.NumbersStayUnique | contracts/models.py:839-844 | over every run of creations, re-saves and deletions a number given automatically to a new row is at most its id, and live numbers differ |
| RecordNumbers.AutomaticNumberRefusedExactly | contracts/models.py:3862-3867 | automatic numbering fails if and only if a live row carries the next number that was typed in or given on a re-save |
| RecordNumbers.AutomaticRunsNeverCollide | contracts/models.py:839-844 | where no number is typed in or emptied no creation is ever refused |
| RecordNumbers.RefusalLasts | contracts/models.py:3862-3867 | once refused, automatic numbering stays refused until a row is deleted, saved again, or created with a new number typed in |
| RecordNumbers.OneTypedNumberBlocks | contracts/models.py:3862-3867 | the failing case: one typed number blocks it from the first row on |
| RecordNumbers.OneEmptiedNumberBlocks | contracts/models.py:3862-3867 | and so does every row saved again with its number emptied |
| FreshNames.FreshSlug | contracts/tenancy.py:26-31 | ends with the base or the least free suffix, after as many lookups as that suffix says and at most taken + 1 |
| FreshNames.FreshUsername | contracts/saml.py:278-284 | finds the base or the least free suffix behind its first 24 characters; taken + 2 lookups are needed if and only if base is taken and the taken names are exactly the candidates from 2 up to some suffix |
| FreshNames.TriedNamesBound | contracts/auth_backends.py:41-48 | pigeonhole over distinct candidates bounds the suffix |
| FreshNames.LookupsExactly | contracts/auth_backends.py:41-48 | the same equivalence for whatever name and number of lookups meet the specification |
| FreshNames.FoundIsUnique | contracts/auth_backends.py:41-48 | name and number of lookups are determined by base and the taken names |
| FreshNames.OneTakenNameThreeLookups | contracts/auth_backends.py:41-48 | with one name taken the search can need three lookups |
| SamlRoles.FlattenAttributeValues | contracts/saml.py:145-158 | nested collections flatten in order and None and empty strings vanish; it raises if and only if some dictionary holds an unhashable value |
| SamlRoles.FlattenedHolds | contracts/saml.py:145-158 | a text is found if and only if the value holds it: itself, in the entry 'value' of a dictionary, or within a collection |
| SamlRoles.RaisesExactly | contracts/saml.py:145-158 | it raises if and only if somewhere within a dictionary has an unhashable entry |
| SamlRoles.WordsAtSeparator | contracts/saml.py:166-168 | commas and semicolons separate words as whitespace does |
| SamlRoles.AttributeTokens | contracts/saml.py:161-171 | exactly the lower-cased words of the role attributes, unless one of those raises |
| SamlRoles.InferRole | contracts/saml.py:174-181 | searching the joined text finds the role of the token set, or the error is passed on |
| SamlRoles.RoleExactly | contracts/saml.py:174-181 | owner if and only if an attribute that carries roles mentions one of four words, else administrator if and only if one mentions admin, else member |
| SamlRoles.NeedleInJoin | contracts/saml.py:176-177 | a needle without spaces occurs in the joined text if and only if it occurs inside one token |
| SamlRoles.JoinedTextDecides | contracts/saml.py:174-181 | the role depends on the set of tokens only, whatever the order |
| SamlRoles.AdminNeedleSuffices | contracts/saml.py:179-180 | three of the four administrator needles are redundant |
| SamlRoles.AddingValuesNeverLowersTheRole | contracts/saml.py:145-181 | more attributes or values never lower the role, though they can make the inference raise |
| RequestMetrics.Metrics.RecordRequestMetric | contracts/observability.py:51-58 | one call adds to the four counters of its request |
| RequestMetrics.LoneCallRecords | contracts/observability.py:21-58 | the eight atomic operations, undisturbed, amount to that |
| RequestMetrics.CountersAreExact | contracts/observability.py:21-58 | in every interleaving every counter is the sum of the finished increments |
| RequestMetrics.TotalsTrail | contracts/observability.py:55-58 | route total <= status total <= request count, the gap at most the calls under way |
| RequestMetrics.FinishedTotals | contracts/observability.py:55-58 | when all calls are finished the totals equal the number of calls and the latency sum the recorded values |
| RequestMetrics.FinishedCounters | contracts/observability.py:21-58 | when all calls are finished every single counter is the sum of the requests' shares: requests, positive latencies, each status class, each route |
| RequestMetrics.RouteExactly | contracts/observability.py:39-48 | each route bucket is told by its prefix alone, whatever the order of the tests |
| RequestMetrics.ReportedStatusesAddUpExactly | contracts/observability.py:66-87 | the reported status counts add up if and only if every status was in 200..599 |
| RequestMetrics.SnapshotTotals | contracts/observability.py:66-87 | a snapshot that reads key by key while calls run: its bucket totals lie between the request count it read minus the calls then under way and the request count at the end |
| Pagination.ForwardTiles | contracts/api/_helpers.py:124-143 | following next_offset from any offset yields the rest of the list, in order, without gap or overlap |
| Pagination.ForwardLinked | contracts/api/_helpers.py:134-142 | each page names its neighbours' offsets |
| Pagination.WalkAndRetrace | contracts/api/_helpers.py:124-143 | a walk from 0 is the whole list, and previous_offset from its last page meets the same pages in reverse |
| Pagination.ZeroLimitStandsStill | contracts/api/_helpers.py:133-140 | a page before the end names its own offset as next if and only if the limit is at most 0 |
| Pagination.PageExactly | contracts/api/_helpers.py:124-143 | a page in full: 25 rows by default, never more than 100, none for a negative limit, from the first row for a negative offset; which rows, how many, and both neighbours' offsets |
| Pagination.ScimPageExactly | contracts/api/_helpers.py:108-121 | a SCIM page in full: its index, its count and its resources, parameters missing or out of range included |
| Pagination.ScimWalkTiles | contracts/api/_helpers.py:108-121 | asking again from startIndex + count tiles the list, as section 3.4.2.4 of RFC 7644 describes |
| Navigation.NextSectionSpan | contracts/nav_config.py:279-284 | the number of entries before the next header or the end |
| Navigation.GetNav | contracts/nav_config.py:240-276 | the slice-based cleaner equals a one-pass right-to-left reference |
| Navigation.ShowsWhatIsPermitted | contracts/nav_config.py:250-276 | the links of the sidebar, inside groups and outside, are exactly the permitted ones of the configuration, in order |
| Navigation.NoEmptyGroups | contracts/nav_config.py:257-264 | every group shown is permitted, has a child, and has permitted children only |
| Navigation.HeaderShownExactly | contracts/nav_config.py:250-276 | a configured header is shown if and only if the user may see an item under it; groups do not count |
| Navigation.CleaningKeepsEntries | contracts/nav_config.py:266-276 | items and groups all stay, in order |
| Navigation.CleaningIsIdempotent | contracts/nav_config.py:266-276 | cleaning twice equals cleaning once |
| Navigation.NoDanglingHeaders | contracts/nav_config.py:243-249 | no header is last or followed by another header |
| Navigation.HeaderStaysExactly | contracts/nav_config.py:266-276 | wherever a header stands it stays if and only if an item is among its own entries, which stay as they are; the entries before and the sections behind are cleaned by themselves |

## Left out

- AuthRateLimitRuns.UnmisledRegistrationsBounded: is stated for runs in which no request is misled; those with a misled request may exceed the bound or keep it.
- AuthRateLimit.Cache.LoadAuthCounter: reads the clock and both keys at one instant.
- AuthRateLimitConcurrent.LoneWorkerServes: clears the two keys of a client in one step, where the code deletes one after the other.
- AuthRateLimitConcurrent.FailuresLetThrough: starts, like the registrations, from an existing counter; the first write of a window, which is not atomic, and a counter that vanishes mid-request are excluded.
- RequestMetrics.CountersAreExact: assumes that no key is evicted, so the retry after an eviction is not modelled.
- RecordNumbers.NumberedTable.Save: two creations at once are not modelled.
- SamlRoles.InferRole: takes the tokens in any order; that the code sorts them does not matter.
- The 503 answer when the cache fails, trusted addresses, other methods and paths, and the API failure bucket of the limiter.
- The one-time codes of MFA (issuing, expiry, hashing), exempt path resolution, and session listing; concurrent revocations.
- Timestamps, decline reasons, certificates, audit and provider calls of signature transitions; the permission check behind "may manage the organisation".
- Messages, progress steps, audit payloads, contract lifecycle changes, the extraction service and the AI provider; payment terms in metadata that are not text.
- Linked risk-log rows, role checks and idempotency of requests on findings; the lifecycle change after a confirmation.
- Scanning HTML for class attributes, template fragments and filter expressions; the migrator is modelled on token values and tag texts.
- Upper and lower case beyond ASCII, and the rendering of attribute values that are not text.
- Rounding of average latencies, alert policy, and health checks.
- Invoice totals, trust balances, approval-request status tables and role ranks: they would only add easy members.
