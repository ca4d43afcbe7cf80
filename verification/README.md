# vaultgate verification

vaultgate is an OAuth 2.1 authorization server and credential broker. This project models the algorithms and state
machines its guarantees rest on, and proves those guarantees for every input, run or interleaving.

| file | what it models |
|---|---|
| `token_store.dfy`, `token_endpoints.dfy`, `token_runs.dfy`, `token_consents.dfy` | the code, token and consent tables; every handler that reads or writes them, as a class over the tables; all runs of those handlers |
| `token_grants.dfy`, `token_provenance.dfy` | exactly which requests are granted and what each leaves; every token traced back over its run to the approval it comes from |
| `supervisor.dfy`, `supervisor_service.dfy` | the `bw serve` supervisor: one transition runs the restart loop, a reconfiguration or a stop from one `await` to the next; how service is earned, reached, lost and regained |
| `scrub.dfy`, `scrub_encoding.dfy` | the leftmost-longest secret scrubber, over characters and over bytes |
| `policy_glob.dfy`, `policy_path.dfy`, `policy_laws.dfy`, `policy_idempotence.dfy` | the glob matcher of action policies, the HTTP subject it matches, how dot segments cancel, and which paths normalise once and for all |
| `recent_map.dfy`, `rate_limit.dfy`, `action_limits.dfy` | the forgetting map, the two rate limiters over it, in-flight leases |
| `rate_exact.dfy`, `limit_runs.dfy` | exactly which calls of a run the limiters, and the four limits together, let through |
| `engine_many.dfy`, `engine_answers.dfy` | a call over several targets, other calls running at each of its awaits; what it comes to, told from its parts |
| `keyset.dfy`, `text_order.dfy` | the export walk over a table that changes between pages |
| `canonical_json.dfy`, `json_reading.dfy`, `csv_format.dfy` | the canonical printer and the CSV lines, and readers of RFC 8259 and RFC 4180 that get everything back |
| `base32.dfy`, `rc4.dfy`, `md4.dfy`, `md4_known.dfy`, `output_tail.dfy` | codecs, ciphers, digests with their known answers, and the bounded tail |
| `sequences.dfy`, `splitting.dfy`, `wrappers.dfy` | regroupings of sequences, split and join, the optional value |

Each request of the authorization server is one step at one clock reading, as the handlers are synchronous once the form
is read. Hashes are injective constructors, minted credentials and ids are fresh. A handler method is proved equal to a
function of the old tables; the theorems are about all runs of those functions from empty tables, in any order and with
clock readings that need not agree.

Times are integers (milliseconds), token counts are reals, 32-bit words and wrap-around are written out. A text is a
sequence of characters; where the program works on UTF-16 units or UTF-8 bytes and it matters, the encodings are modelled.

## Code and documentation

Where the two differ, the model follows the code:

- `commandPatternProblem` says the pattern it refuses "would allow every command" (`src/actions/policy.ts:189-208`). An
  all-`*` pattern matches exactly the commands without a carriage return or a line feed.
- The codes of `DENIED_CODES` are described as the engine's refusals before anything runs, recorded as `denied:`
  (`src/actions/errors.ts:52-54`). A run over several targets that ends with one of those codes is recorded as `error:`
  (`src/actions/engine-many.ts:255-261`).
- Canonical JSON is described as one text for all spellings of a document (`src/actions/canonical-json.ts:1-6`). That is
  proved for JSON documents; outside them an array holding only
  `undefined` prints as an empty array.
- The HTTP subject of `/%4%31` is `/%41`, whose own subject is `/A`, so normalising is not idempotent. It is exactly for
  the paths `PolicyIdempotence.IsSteady` describes: no segment that survives dot removal, and not the query, has a stray
  `%` followed by two units, each a hexadecimal digit or the escape of one, that spell an escape decoding would rewrite.
  Well-formed escapes are enough for that and not needed: `/%` is its own subject.

## Model

| member | source | states |
|---|---|---|
| TokenRuns.SingleUse | src/oauth/token.ts:63-86 | in any run of all handlers an authorization code is redeemed at most once and a refresh token exchanged at most once |
| TokenRuns.OneChainPerFamily | src/oauth/token-refresh.ts:107-119 | in every reachable store a family's refresh tokens form one parent chain, and only its last can still be exchanged |
| TokenRuns.DeathIsPermanent | src/oauth/token-refresh.ts:24-39 | after a replayed refresh token, a reused stored code or the revocation of a refresh token, no later step of the run issues, refreshes or verifies a token of that family, and every stored token of it is revoked |
| TokenConsents.RevocationIsPermanent | src/oauth/revoke.ts:53-112 | after a consent is revoked no later request under it succeeds, and every token stored under it carries a revocation; a revoked access token never verifies again and stays revoked |
| TokenConsents.StepKeepsBacked | src/oauth/revoke.ts:99-112 | no step of any handler leaves an unrevoked token under a revoked consent |
| TokenRuns.ScopesStayWithinConsent | src/oauth/consent.ts:67-97 | every stored token's scopes lie within those its code was approved for and within its consent's recorded scopes, and its consent and client are the code's |
| TokenConsents.ConsentsOnlyGrow | src/oauth/consent.ts:67-85 | from any reachable store on, a consent is never deleted, never narrowed, and once revoked stays revoked |
| TokenRuns.FamiliesEndTogether | src/oauth/token-issuance.ts:62-88 | all refresh tokens of a family share one expiry; an access token expires less than the longest access lifetime after it, and at most that long after its issue |
| TokenRuns.ForgottenReplaysAreHarmless | src/storage/maintenance.ts:63-67 | when maintenance deletes an unrevoked refresh token, every token of its family has already expired |
| TokenRuns.MaintenanceKeepsRotation | src/storage/migrations/001-initial.ts:111-112 | although deleting a row nulls the links to it, a refresh token maintenance keeps is unchanged, so a rotated one never becomes current again |
| TokenRuns.SweepKeepsLinks | src/storage/migrations/001-initial.ts:111-112 | no foreign key of a surviving refresh token points at a row swept with it |
| TokenRuns.ExchangedExactly | src/oauth/token-refresh.ts:53-123 | which refresh requests are granted: an if-and-only-if over the form, the stored row, its consent and the requested scopes |
| TokenRuns.RotationChains | src/oauth/token-refresh.ts:107-121 | a rotation appends its new token to the family's chain after the one it replaces |
| TokenRuns.StepKeeps | src/oauth/token.ts:92-129 | every step of every handler, and maintenance, keeps the invariant all of the above rest on |
| TokenGrants.RedeemedExactly | src/oauth/token.ts:92-129 | which redemptions are granted: an if-and-only-if over the form, the deployment's resource, the stored code's claim, expiry, client, redirect URI and resource, its consent, and the verifier of its challenge |
| TokenGrants.RedemptionAnswers | src/oauth/token.ts:38-86 | which redemptions are replays, misdirected or incomplete; every other one not granted is an invalid grant |
| TokenGrants.CodeReplayRevokes | src/oauth/token.ts:73-83 | a replayed code revokes exactly the tokens of its family and changes nothing else |
| TokenGrants.RefusalClaims | src/oauth/token.ts:100-117 | a refused redemption touches no token and no consent, and of the codes only claims the one presented |
| TokenGrants.SecondPresentationIsReplay | src/oauth/token.ts:59-86 | a code is claimed by its first presentation, granted or not: any second one is a replay |
| TokenGrants.IssuedIsUsable | src/oauth/token-issuance.ts:56-88 | the pair of a granted redemption works until it expires: the access token verifies with the code's scopes and consent, the refresh token is exchanged for its client |
| TokenGrants.IssuedStore | src/oauth/token-issuance.ts:56-88 | the whole store a granted redemption leaves, field by field |
| TokenGrants.ReplayedExactly | src/oauth/token-refresh.ts:65-73 | which refreshes are replays: exactly those of a stored, unrevoked, rotated token |
| TokenGrants.ReplayRevokes | src/oauth/token-refresh.ts:24-39 | a replayed refresh token revokes exactly its family |
| TokenGrants.RefreshRefusals | src/oauth/token-refresh.ts:53-106 | how every other refresh is refused, by what is wrong first; it changes nothing |
| TokenGrants.RotatedIsUsable | src/oauth/token-refresh.ts:107-121 | after a rotation the new pair works, with the scopes asked for and until the old token would have expired, and the old token is a replay |
| TokenGrants.RotatedStore | src/oauth/token-refresh.ts:107-121 | the whole store a rotation leaves, field by field |
| TokenProvenance.CodeWasApproved | src/oauth/consent.ts:58-99 | every code of any run was approved before, by the operator of its consent, with every field the approval's |
| TokenProvenance.RedeemedAsApproved | src/oauth/token.ts:92-129 | a redemption that is granted repeats, within five minutes, every parameter of an approval of the run, proves its challenge, and yields the scopes ticked there under its operator's consent |
| TokenProvenance.TokenWasMinted | src/oauth/token-issuance.ts:56-88 | every stored token was minted by a redemption or a rotation of the run, and its identity, bindings, scopes and times are those of its birth |
| TokenProvenance.TokenTracesBack | src/oauth/token-refresh.ts:107-116 | every stored token goes back through its family to one approval: of its client, resource and consent, its scopes among those ticked |
| TokenProvenance.BearerTracesBack | src/oauth/token-verifier.ts:36-98 | whatever bearer token is accepted was minted less than its lifetime ago, from an approval whose consent still stands, and carries only scopes ticked there |
| TokenProvenance.EndWasSetAtRedemption | src/oauth/token-refresh.ts:108-116 | however often rotated, a refresh token expires when the redemption of its code said |
| TokenProvenance.ConsentScopesWereTicked | src/oauth/consent.ts:67-85 | a consent records no scope its operator did not tick for its client |
| TokenProvenance.ApprovalChoosesConsent | src/oauth/consent.ts:67-97 | an approval goes to the one active consent of its operator and client, or begins it; that consent's scopes grow by those ticked and no other consent changes |
| TokenProvenance.NothingTickedIsDenied | src/oauth/consent.ts:128-131 | an approval that ticks nothing is a denial and changes nothing |
| TokenProvenance.ApprovedIsRedeemable | src/oauth/consent.ts:58-99 | an approved code can be redeemed for five minutes whatever else happens, unless it is presented first or its consent ended |
| TokenEndpoints.Store.Find | src/oauth/repositories/tokens.ts:107-110 | the row of a hash, when there is one |
| TokenEndpoints.Store.IssuePair | src/oauth/token-issuance.ts:56-88 | exactly two rows are added, the refresh expiry carried forward |
| TokenEndpoints.Store.HandleApproval | src/oauth/consent.ts:58-146 | an approval with a ticked scope widens or creates the consent and binds one code to it; one without any is denied |
| TokenEndpoints.Store.Claim | src/oauth/repositories/authorization-codes.ts:82-101 | unknown, reused or claimed, the first use recorded |
| TokenEndpoints.Store.HandleCode | src/oauth/token.ts:92-129 | redemption: the whole new store and the event, on every path |
| TokenEndpoints.Store.HandleRefresh | src/oauth/token-refresh.ts:86-123 | refresh: the whole new store and the event, on every path |
| TokenEndpoints.Store.HandleBearer | src/oauth/token-verifier.ts:75-98 | verification, with the once-a-minute use mark |
| TokenRuns.AcceptedExactly | src/oauth/token-verifier.ts:36-59 | which bearer tokens are accepted: an if-and-only-if over the stored row, its consent, its resource and the clock |
| TokenGrants.VerifiedTellsTheRow | src/oauth/token-verifier.ts:75-98 | what a verified token is told to carry, scopes included, is what its row says; its use is recorded to the minute and nothing else changes |
| TokenGrants.RejectedExactly | src/oauth/token-verifier.ts:36-59 | which of the four rejections a bearer token gets, each an if-and-only-if over the stored row; a rejection changes nothing |
| TokenEndpoints.Store.HandleTokenRevocation | src/oauth/revoke.ts:43-58 | what a presented token takes with it: an access token only its own row, a refresh token the whole family, any other text no row |
| TokenGrants.TokenRevokedExactly | src/oauth/revoke.ts:43-58 | row by row what a revocation does, and when it does nothing |
| TokenEndpoints.Store.HandleConsentRevocation | src/oauth/revoke.ts:99-112 | the consent and every token under it are revoked, once, by its own operator |
| TokenGrants.DisconnectedExactly | src/oauth/revoke.ts:99-112 | only the operator a consent belongs to ends it, once; exactly the tokens under it are revoked |
| TokenEndpoints.Store.DeleteSweptTokens | src/storage/maintenance.ts:63-67 | deleting the selected rows one at a time, in any order, each deletion nulling the links to its row, leaves exactly the rows not selected, unchanged but for links to rows that went |
| TokenEndpoints.Store.DeleteToken | src/storage/migrations/001-initial.ts:111-112 | one row goes, and every link to it becomes NULL |
| TokenEndpoints.Store.DeleteExpiredCodes | src/storage/maintenance.ts:48-52 | deleting the expired codes one at a time leaves exactly the codes not yet expired |
| TokenEndpoints.Store.RunMaintenance | src/storage/maintenance.ts:47-128 | the row-by-row sweeps of codes and tokens together reach the store of the specification the run theorems above are about |
| TokenGrants.SweptExactly | src/storage/maintenance.ts:47-67 | codes go exactly at their expiry, tokens exactly seven days after their expiry or revocation, links only to rows that went |
| Supervisor.StepKeeps | src/bitwarden/supervisor.ts:148-284 | every step of every interleaving keeps the invariant on children, phases, flags and generations |
| Supervisor.ReadyWhileServing | src/bitwarden/supervisor-loop.ts:46-52 | in every reachable state without a halt, the backend is ready exactly while its loop serves a child, which is the one attached |
| SupervisorService.ServiceIsEarned | src/bitwarden/supervisor-start.ts:130-152 | in any run a child is served only after a version was accepted, a login succeeded, and this very child answered, was unlocked and had its first sync |
| SupervisorService.ReachesService | src/bitwarden/supervisor-loop.ts:92-118 | from every reachable state left in peace, a live child can be served and the backend ready within 38 steps of good replies and of the ends of children being stopped |
| SupervisorService.FailureLetsGo | src/bitwarden/supervisor-start.ts:95-148 | past its deadline, at a refusal of the password or at a halt, a start detaches its child and stops it |
| SupervisorService.FailureRetries | src/bitwarden/supervisor-loop.ts:69-118 | a failed start is tried again after a pause; halted, the loop ends without one |
| SupervisorService.ExitDecides | src/bitwarden/supervisor-loop.ts:46-63 | when a served child ends, readiness and the attachment go; halted, the loop ends, and otherwise it pauses |
| SupervisorService.RefusedVersionEndsTheLoop | src/bitwarden/supervisor-loop.ts:100-107 | a refused version ends the loop without a retry |
| SupervisorService.OnlyACallRevives | src/bitwarden/supervisor-loop.ts:92-119 | a loop that has ended serves nobody, and nothing but a call of `reconfigure` or `stop` can happen |
| Supervisor.AtMostOneChild | src/bitwarden/supervisor-start.ts:130-152 | in every interleaving at most one `bw serve` child is alive |
| Supervisor.StoppedForGood | src/bitwarden/supervisor.ts:278-283 | once `stop` has returned no child is alive, the backend is not ready, the loop has ended, the credentials are disposed of, and no later step changes anything |
| Supervisor.NoStartAfterDisposal | src/bitwarden/supervisor.ts:190-229 | no start ever runs on the credentials of a disposed generation |
| Supervisor.ReconfigurationOutcome | src/bitwarden/supervisor.ts:202-229 | a completed reconfiguration leaves the new generation current and the old one disposed, or the one it found, undisposed, and the new one disposed; when it succeeded its child is served and ready, and when it failed the loop starts what it found again |
| Supervisor.HaltDescends | src/bitwarden/supervisor.ts:165-181 | while a halt is under way every step brings it strictly closer to its end |
| Supervisor.HaltProgresses | src/bitwarden/serve-process.ts:265-276 | ... and some step is always possible: the supervisor's own, or the end of the child it waits for |
| Supervisor.LocksFirst | src/bitwarden/supervisor.ts:165-181 | a child attached when a halt comes is asked to lock before it is stopped |
| Supervisor.HaltEndsService | src/bitwarden/supervisor.ts:165-181 | while a halt waits for the loop no served child is alive, and one spawned into the halt is stopped before it is probed |
| SupervisorService.CallEndsReadiness | src/bitwarden/supervisor.ts:165-169 | a call that is taken ends readiness at once, and only a start that has succeeded brings it back |
| SupervisorService.CallsComeToAnEnd | src/bitwarden/supervisor.ts:190-284 | from every reachable state a reconfiguration can come to its end, and the supervisor to the next call, and a stop to its own, without another call |
| Scrub.BestIsLongest | src/actions/scrub.ts:172-188 | the entry replaced at a position is a longest variant that begins there |
| Scrub.LeftmostLongestIsReplaced | src/actions/scrub.ts:172-199 | for any table and text: where the first occurrence is, the longest variant there gives way to the marker first listed for it, what precedes is copied, and the scan goes on behind |
| Scrub.NothingToScrub | src/actions/scrub.ts:178-199 | a text in which no variant occurs is left as it is |
| Scrub.GuardIsLongest | src/actions/scrub.ts:254-271 | the guard band is the length of a longest variant |
| Scrub.LiteralsAreCopied | src/actions/scrub.ts:178-199 | the input is cut into literals, copied unchanged, and whole variants, each replaced by its own marker |
| Scrub.LiteralRunsAreClean | src/actions/scrub.ts:178-199 | no variant occurs anywhere inside a run of copied literals of the output, whatever its start and length |
| Scrub.EveryOccurrenceIsHit | src/actions/scrub.ts:178-199 | wherever a variant occurs in the input, a replaced region covers its first position |
| Scrub.CaptureDecidesAlike | src/actions/scrub.ts:258-271 | a captured prefix of a stream and the stream are scanned alike at every position a guard band before the cut |
| Scrub.SortKeepsBest | src/actions/scrub.ts:120-122 | sorting a table by length does not change which entry is longest, ties included |
| Scrub.TableFindsBest | src/actions/scrub.ts:186-188 | in a sorted table the first match is a longest one |
| Scrub.StartsSuffice | src/actions/scrub.ts:168-188 | a position whose character begins no variant begins no match |
| Scrub.ScrubText | src/actions/scrub.ts:178-199 | the loop with the start-set shortcut is the naive leftmost-longest replacement |
| ScrubEncoding.Utf8Synchronises | src/actions/scrub.ts:229-238 | no encoded variant can match inside a character: UTF-8 is self-synchronising |
| ScrubEncoding.Utf16Synchronises | src/actions/scrub.ts:178-199 | the same of UTF-16 units |
| ScrubEncoding.Utf8IsStandard | src/actions/scrub.ts:229-238 | the bytes are those of section 3 of RFC 3629, in the shortest form |
| ScrubEncoding.Utf16IsStandard | src/actions/scrub.ts:178-199 | the units are those of section 2.1 of RFC 2781 |
| ScrubEncoding.ScanCommutes | src/actions/scrub.ts:229-238 | scanning the encoding of a text is encoding the scan of the text, for any self-synchronising encoding |
| ScrubEncoding.CreateScrubber | src/actions/scrub.ts:254-271 | the two sorted tables and the guard band a scrubber is made of |
| ScrubEncoding.ScrubbingCommutesWithUtf8 | src/actions/scrub.ts:254-273 | scrubbing a text and scrubbing its UTF-8 bytes yield one and the same text, although the tables are sorted by different lengths |
| ScrubEncoding.RoomIsExact | src/actions/scrub.ts:240-245 | an input fits in `maxBytes` of base64 exactly when it is no longer than the room given |
| PolicyGlob.Tokenise | src/actions/policy.ts:80-101 | one pass cuts a pattern into literals and wildcards |
| PolicyGlob.TokensMean | src/actions/policy.ts:76-101 | the tokens match exactly what the pattern, read character by character, matches |
| PolicyGlob.SweepIsExact | src/actions/policy.ts:103-156 | one sweep extends the set of reachable ends by exactly one token |
| PolicyGlob.Reach.Literal | src/actions/policy.ts:130-138 | every entry of the buffer swapped in is this sweep's; none survives from an earlier one |
| PolicyGlob.Reach.Wildcard | src/actions/policy.ts:145-155 | a wildcard reaches what a run from a reached position reaches, whatever the buffer held |
| PolicyGlob.IsPatternMatch | src/actions/policy.ts:169-187 | the two-buffer sweep accepts exactly the declarative glob language, in at most three steps per pattern and subject position |
| PolicyGlob.MatchesNothingIffAllStars | src/actions/policy.ts:189-206 | a command pattern matches the empty command exactly when it is all `*` |
| PolicyGlob.AllStarsMatchOneLine | src/actions/policy.ts:158-167 | a non-empty all-`*` command pattern matches exactly the subjects without the characters CR and LF |
| PolicyGlob.CommandStaysOnItsLine | src/actions/policy.ts:158-187 | whatever command pattern without CR or LF matches, it matches no subject with either |
| PolicyGlob.PathKeepsItsSlashes | src/actions/policy.ts:158-187 | a path pattern without `**` matches only subjects with exactly as many `/` as it has |
| PolicyGlob.WildcardsAlone | src/actions/policy.ts:169-187 | alone, `*` matches exactly the paths without `/`, and `**` every path |
| PolicyGlob.PlainMatchesItself | src/actions/policy.ts:169-187 | a pattern without `*` matches itself and nothing else, case included |
| PolicyGlob.MatchesTogether | src/actions/policy.ts:169-187 | what matches two patterns in turn matches the two put together, unless the seam makes a `**` |
| PolicyGlob.CommandPatternProblem | src/actions/policy.ts:195-208 | a policy is refused exactly when some pattern is a non-empty run of `*`, the first of which is named, and any-command is off |
| PolicyPath.RemoveDotSegments | src/actions/policy.ts:240-257 | the segment stack gives the result of the rewriting of section 5.2.4 of RFC 3986; `escaped` is set exactly when step 2C meets an empty output, which is when some beginning of the path leads above the root; no dot segment is left |
| PolicyPath.StackIsRewriting | src/actions/policy.ts:240-257 | the stack and the rewriting loop agree from every state, on the path and on whether it climbed |
| PolicyLaws.DotSegmentsCancel | src/actions/policy.ts:240-257 | anywhere in an absolute path `.` goes, and any other segment goes with a `..` behind it; at the end either leaves a slash |
| PolicyLaws.ClimbingIsMarked | src/actions/policy.ts:245-250 | a `..` at the root goes, whatever follows, and leaves the path marked as escaped |
| PolicyPath.EscapesIffClimbs | src/actions/policy.ts:245-250 | a path escapes exactly when some prefix of its segments has negative depth |
| PolicyPath.DecodeFixes | src/actions/policy.ts:222-227 | decoding leaves a text alone exactly when its escapes are upper-case and of reserved characters |
| PolicyPath.DecodeKeepsMeaning | src/actions/policy.ts:217-227 | decoding changes the spelling of a well-formed text, not what its escapes stand for |
| PolicyPath.UnreservedAre | src/actions/policy.ts:210-213 | the characters decoded are exactly the letters, digits, `-`, `.`, `_` and `~` of section 2.3 of RFC 3986 |
| PolicyPath.EscapeDecodes | src/actions/policy.ts:222-227 | the escape of each of the 256 bytes, in either case: its character where unreserved, and otherwise itself in upper case |
| PolicyPath.Normalise | src/actions/policy.ts:259-265 | path and query are normalised apart, cut at the first `?` |
| PolicyPath.HttpSubject | src/actions/policy.ts:273-279 | undefined exactly for a relative path or one whose decoded segments climb above the root; otherwise absolute, without `.` or `..` segments |
| PolicyPath.SubjectParts | src/actions/policy.ts:259-279 | a subject's own query begins where the normalised path ends |
| PolicyPath.FixedIffSettled | src/actions/policy.ts:259-279 | a subject is its own subject exactly when its escapes are upper-case and of reserved characters |
| PolicyIdempotence.NormalisesOnceIff | src/actions/policy.ts:217-279 | normalising twice is normalising once exactly when, in the path as given, no surviving segment and not the query has a stray `%` that decoding completes to an escape it would rewrite |
| PolicyIdempotence.DecodeTwiceIff | src/actions/policy.ts:217-227 | the same of decoding alone, for every text |
| PolicyIdempotence.SegmentsDecode | src/actions/policy.ts:240-265 | decoding and cutting at slashes commute |
| PolicyIdempotence.SurvivorsDecode | src/actions/policy.ts:240-257 | the segments left after decoding are the decodings of the raw segments whose decoded spelling is kept |
| PolicyIdempotence.StrayMayBeSteady | src/actions/policy.ts:217-227 | `/%` is not well formed and is its own subject |
| PolicyPath.NormalisingIsIdempotent | src/actions/policy.ts:259-279 | normalising twice is normalising once, for every path whose escapes are well formed |
| PolicyPath.NormalisingTwiceMayDiffer | src/actions/policy.ts:217-227 | `/%4%31`: a stray `%` completed by decoding what follows it, and both of its subjects |
| RecentMaps.RecentMap.Put | src/net/rate-limit.ts:49-60 | the new contents; no more than 10,000 keys, each once, in last-put order |
| RecentMaps.RecentMap.ForgetCold | src/net/rate-limit.ts:62-73 | of the four coldest entries the stale ones go, and nothing else |
| RecentMaps.EvictsTheColdest | src/net/rate-limit.ts:49-60 | what a put evicts is one key at most, from a full map, and the least recently put of all |
| RecentMaps.ForgettingIsInvisible | src/net/rate-limit.ts:37-74 | over at most 10,000 keys and a non-decreasing clock, a limiter makes exactly the decisions of one that never forgets |
| RateLimits.BucketsAreLawful | src/net/rate-limit.ts:103-122 | a full bucket may be forgotten: full stays full and decides like a new one |
| RateLimits.RateLimiter.Take | src/net/rate-limit.ts:110-125 | one call: forget, refill, spend or refuse, store |
| RateLimits.RefillTwice | src/net/rate-limit.ts:103-107 | waiting in two parts refills what waiting once does |
| RateLimits.BucketRateIsBounded | src/net/rate-limit.ts:94-127 | over any run and any stretch of it lasting T, one key is allowed at most L + T·L/W calls |
| RateLimits.BucketRetryIsExact | src/net/rate-limit.ts:122-124 | after a refusal, whatever refused calls come between, a retry at the seconds named is allowed, and where that is more than one, a second earlier is refused |
| RateExactness.BucketDecidesExactly | src/net/rate-limit.ts:110-125 | over any ordered run a call is allowed exactly when no stretch up to it would exceed L + T·L/W |
| RateLimits.WindowsAreLawful | src/net/rate-limit.ts:151-166 | an expired window may be forgotten |
| RateLimits.FixedWindowRateLimiter.Hit | src/net/rate-limit.ts:158-173 | one hit: forget, count in the live window or a fresh one, store |
| RateLimits.WindowRateIsBounded | src/net/rate-limit.ts:134-174 | no stretch shorter than a window lets through more than two windows' worth |
| RateLimits.WindowRetryIsExact | src/net/rate-limit.ts:168-172 | a retry at the seconds named is allowed and a second earlier refused, whatever hits come between |
| RateExactness.WindowDecidesExactly | src/net/rate-limit.ts:158-173 | over any ordered run a hit is allowed exactly when it is among the first `limit` of its window, opened by the first hit after the last window ended; a refusal tells the whole seconds to its end |
| RateExactness.RefusalIsEarned | src/net/rate-limit.ts:158-173 | a refused hit is the last of more than `limit` of its key within one window's length |
| ActionLimiting.InFlight.Enter | src/actions/limits.ts:39-41 | one lease more; every key's count is the number of its unreleased leases |
| ActionLimiting.InFlight.Release | src/actions/limits.ts:42-53 | the lease is released; releasing it again changes nothing |
| ActionLimiting.ActionLimits.Acquire | src/actions/limits.ts:63-87 | the four limits in order and what each refusal leaves untouched; no target ever has more than 4 calls in flight and no client more than 8 |
| ActionLimiting.ActionLimits.Release | src/actions/limits.ts:82-85 | both leases go back and the caps still hold |
| LimitRuns.TokensAreGivenExactly | src/actions/limits.ts:63-75 | over any run the target's bucket gives a token exactly where its budget has room, and the client's, reached only then, exactly where 120 a minute has |
| LimitRuns.AdmittedExactly | src/actions/limits.ts:63-87 | over any run a call is admitted exactly when its target's budget and its client's have room, fewer than 4 admitted calls to the target and fewer than 8 from the client have not been given back |
| LimitRuns.AdmissionIsBounded | src/actions/limits.ts:63-87 | in any stretch of length T a client has at most 120 + T·120/60000 calls admitted, and a target of budget P at most P + T·P/60000 |
| LimitRuns.TargetTellsWhen | src/actions/limits.ts:64-67 | a denial for the target's budget tells the second it has room again, and no later one |
| LimitRuns.ClientTellsWhen | src/actions/limits.ts:68-71 | the same of the client's |
| LimitRuns.InFlightTellsOneSecond | src/actions/limits.ts:72-80 | a denial for calls in flight asks for one second |
| EngineMany.Engine.CallMany | src/actions/engine-many.ts:154-197 | on every path past the `repo` check: the agent's answer and every name's row and event are those of the first failure in order; one row and one event for each name; each lease released; as many credential holders as were fetched before the first failure, none where the call does not get past its limits, each disposed of exactly once |
| EngineMany.Engine.ResolveAll | src/actions/engine-many.ts:58-87 | the first name that fails resolution, or would write, fails all names |
| EngineMany.Engine.FailAll | src/actions/engine-many.ts:204-218 | every name gets its row and event with the one error, and the answer names the failing one |
| EngineMany.Engine.AcquireAll | src/actions/engine-many.ts:174-180 | the limits of every name taken in turn, refused names or not; the leases taken are distinct and held |
| EngineMany.Engine.ReleaseAll | src/actions/engine-many.ts:190-196 | every lease taken is released |
| EngineMany.Engine.ExecuteMany | src/actions/engine-many.ts:220-269 | whether fetching, pinning or running fails, or nothing does, every fetched holder is disposed of once and the rows follow the first failure |
| EngineMany.Engine.RunReserved | src/actions/engine-many.ts:247-268 | each row is reserved before the run and completed once after it, with the outcome the agent is told |
| EngineMany.Engine.RunConnectorMany | src/actions/engine-run-many.ts:86-96 | the `finally` disposes of every holder once |
| EngineMany.Engine.RecordFailure | src/actions/engine-record.ts:146-156 | one new row and one event |
| EngineMany.Engine.Complete | src/actions/engine-record.ts:174-185 | the reserved row completed in place, and its event |
| EngineMany.Engine.Elsewhere | src/actions/engine-many.ts:231-238 | what other calls do at an await leaves this call's rows, events and leases alone |
| EngineMany.FirstErrorIsFirst | src/actions/engine-many.ts:66-83 | the failure reported is the first in order |
| EngineAnswers.DoneExactly | src/actions/engine-many.ts:166-268 | a call succeeds exactly when every name resolves to a read, the connector allows them together, every limit admits, every credential is fetched and pinned, and the run answers; its rows say `ok` exactly then |
| EngineAnswers.FirstFailureTells | src/actions/engine-many.ts:58-245 | every refusal before the run is for the first failing name of the first failing stage, with that name's code, and the rows say so |
| EngineAnswers.RunTells | src/actions/engine-run-many.ts:47-90 | how a run that began is told: the connector's own code, or why it gave no answer |
| EngineAnswers.OutcomeTells | src/actions/errors.ts:52-66 | which ten codes are written as denials |
| EngineAnswers.FetchedExactly | src/actions/engine-many.ts:231-246 | the credentials fetched are exactly those before which nothing failed |
| EngineAnswers.GoodRepoIs | src/actions/engine-many.ts:110-127 | a list of names is accepted exactly when they are distinct, one to `max`, and one only with an argument allowed with one only |
| EngineAnswers.NamesAreAttempts | src/actions/engine-many.ts:174-180 | after any run of the limits, the names of a call take them as one attempt each: on the name's own target and budget, of the calling client |
| Keyset.PageTells | src/audit/keyset.ts:73-99 | what a page holds and leaves, told of any row by its time, the filters and the two cursors |
| Keyset.NewestFirst | src/audit/keyset.ts:90-93 | descending means later times first and, at one time, later ids |
| Keyset.ListPage | src/audit/keyset.ts:73-99 | a page is strictly descending, holds only wanted rows, and every wanted row is on it or past its cursor, which is there exactly when more is to come |
| Keyset.Lines | src/audit/keyset.ts:101-115 | over any tables between pages: the rows emitted are strictly descending, none twice, and a completed walk emitted every row of the window present throughout |
| Keyset.ExportUnchanged | src/audit/keyset.ts:101-115 | over an unchanging table the walk ends within the pages its rows fill and emits exactly the sorted window |
| Keyset.SelectedDescends | src/audit/keyset.ts:90-93 | a query's rows come newest first, by time and then id |
| TextOrder.LessIsLexicographic | src/audit/keyset.ts:90-93 | ids are ordered by their first difference, a beginning before what it begins |
| CanonicalJson.CanonicalIffSame | src/actions/canonical-json.ts:7-19 | two documents print to the same text exactly when they are the same: key order and `undefined` properties aside, array order included |
| CanonicalJson.DocumentsApart | src/actions/canonical-json.ts:7-19 | no canonical text is the beginning of another, whatever may follow it |
| CanonicalJson.SortedEntries | src/actions/canonical-json.ts:12-15 | the sorted entries ascend and give every defined property its value |
| CanonicalJson.QuotedEnds | src/actions/canonical-json.ts:15-18 | a JSON string is read back without ambiguity, escapes included |
| CanonicalJson.ChangedFieldsAreExact | src/actions/targets-checks.ts:293-295 | an edit names exactly the fields whose documents differ |
| JsonReading.CanonicalIsJson | src/actions/canonical-json.ts:7-19 | a reader of RFC 8259 reads every canonical text whole, and as the document it was printed from |
| JsonReading.EscapesAreShortest | src/actions/canonical-json.ts:15-18 | every character is spelt in the shortest way such a reader takes for it, in lower-case digits |
| Base32.Encode | src/identity/base32.ts:11-28 | the unmasked 32-bit accumulator writes the five-bit groups of section 6 of RFC 4648 |
| Base32.Decode | src/test-support/base32.ts:11-31 | the 16-bit accumulator reads the bytes its groups spell, or fails on a character outside the alphabet |
| Base32.RoundTrip | src/identity/base32.ts:11-28 | decoding an encoding gives the bytes back, for every byte string |
| Base32.EncodedLength | src/identity/base32.ts:26-27 | eight characters for every five bytes begun |
| Base32.SymbolOf | src/identity/base32.ts:1-10 | the alphabet is A to Z and 2 to 7, in that order |
| Base32.DecodesExactly | src/test-support/base32.ts:11-31 | a text decodes exactly when it is letters of either case and digits from 2 to 7, and after them only `=` |
| Base32.CaseIsNothing | src/test-support/base32.ts:11-12 | neither the case of a letter nor any padding is part of what a text decodes to |
| Rc4Cipher.Rc4.constructor | src/crypto/rc4.ts:31-41 | the keyed state is a permutation of 0..255, both indices in range |
| Rc4Cipher.Rc4.KeystreamByte | src/crypto/rc4.ts:49-55 | one step keeps the permutation and both indices in range |
| Rc4Cipher.Rc4.Apply | src/crypto/rc4.ts:63-69 | the data combined with the next bytes of one keystream |
| Rc4Cipher.BytesKeep | src/crypto/rc4.ts:49-55 | after any number of bytes the state is a permutation and the keystream consists of bytes |
| Rc4Cipher.AppliedSplits | src/crypto/rc4.ts:57-69 | two messages in turn give the two halves of both at once |
| Rc4Cipher.InstancesUndo | src/crypto/rc4.ts:26-70 | two instances of one key undo each other on any sequence of messages |
| Rc4Cipher.CutsDoNotMatter | src/crypto/rc4.ts:57-69 | where messages are cut does not change the bytes |
| Rc4Cipher.StillKeystream | src/crypto/rc4.ts:31-55 | a known answer: the key under which mixing moves nothing, whose keystream begins 2, 5, 7 |
| Rc4Cipher.KeyRepeats | src/crypto/rc4.ts:31-41 | a key written twice over is the same key |
| Md4Digest.DoRound | src/crypto/md4.ts:145-151 | sixteen rotations of the tuple are the sixteen operations on named registers of section 3.4 of RFC 1320 |
| Md4Digest.Compress | src/crypto/md4.ts:153-156 | the three rounds and the sums, on named registers |
| Md4Digest.Pad | src/crypto/md4.ts:130-138 | the buffer holds the message, one marker, the fewest zeroes and the bit length |
| Md4Digest.PaddingIsInjective | src/crypto/md4.ts:126-138 | no two messages pad to the same blocks |
| Md4Digest.Md4 | src/crypto/md4.ts:165-176 | the digest of the named registers over the padded message |
| Md4Known.LettersDigest | src/crypto/md4.ts:116-176 | a known answer of RFC 1320, through two blocks and all three rounds |
| Md4Known.FirstSchedule | src/crypto/md4.ts:59-76 | the first round takes the words in order, turned by 3, 7, 11, 19 |
| Md4Known.SecondSchedule | src/crypto/md4.ts:78-95 | the second by the columns of a square of sixteen, turned by 3, 5, 9, 13 |
| Md4Known.ThirdSchedule | src/crypto/md4.ts:97-114 | the third each at the place of its four bits reversed, turned by 3, 9, 11, 15 |
| Md4Known.ConstantLaws | src/crypto/md4.ts:116-120 | the added constants are the square roots of two and three to thirty binary places |
| Md4Known.FirstChooses | src/crypto/md4.ts:117 | the first round mixes by choice, |
| Md4Known.SecondTakesMajority | src/crypto/md4.ts:118 | the second by majority, |
| Md4Known.ThirdTakesParity | src/crypto/md4.ts:119 | the third by parity |
| OutputTails.OutputTail.Push | src/bitwarden/serve-output.ts:45-51 | what is kept is the tail of everything pushed so far, whatever the chunks |
| OutputTails.Collect | src/bitwarden/serve-output.ts:34-51 | pushing chunks leaves what pushing them all at once leaves: a suffix within 4096 characters and 40 lines |
| OutputTails.TailIsLongest | src/bitwarden/serve-output.ts:45-51 | no longer suffix would be within both bounds |
| OutputTails.LinesAreCounted | src/bitwarden/serve-output.ts:45-51 | lines are counted by line feeds, and a last one without its own |
| OutputTails.TailOfTail | src/bitwarden/serve-output.ts:45-51 | keeping the tail of a tail and more is keeping the tail of it all |
| CsvFormat.ExportReadsBack | src/audit/format.ts:29-67 | a reader of section 2 of RFC 4180 gets every field of every line back, whatever the cells hold |
| CsvFormat.FieldReads | src/audit/format.ts:29-35 | a field is read back up to what follows it, quoted or not |
| CsvFormat.QuotedOnlyWhereNeeded | src/audit/format.ts:29-35 | a field is quoted exactly when it holds a comma, a double quote, CR or LF, and then grows by its quotes only; an absent cell is empty |

## Left out

- HTTP routing, pages, cookies, schemas, SQL text, loggers, audit records of the authorization server and the counts the
  revocations and maintenance return: presentation and input/output; tables are maps and sequences of rows.
- Hashes, PKCE digests and random credentials: injective constructors and fresh values.
- Parsing of the `scope` parameter, the registry of enabled scopes and the pending authorization an approval comes from:
  inputs of the handlers. Only the table rules on codes and tokens are modelled of maintenance.
- TokenRuns.DeathIsPermanent: a code presented again after its row was deleted is unknown to the server and kills nothing.
- Supervisor.AtMostOneChild: the protocol is a state machine over values rather than a class, since its point is the
  interleaving at each `await`; a stop overlapping a reconfiguration, the sync runner, the failure count and the length of
  a backoff are not part of it, and the end of a child is taken to be reported truthfully.
- Supervisor.ReconfigurationOutcome: stated where no switch is in flight.
- Supervisor.ReadyWhileServing: an if-and-only-if outside a halt; a start past its last check when a halt comes goes on to
  report ready until its child is stopped, as the program does (`src/bitwarden/supervisor-loop.ts:46-51`).
- SupervisorService.ReachesService, SupervisorService.CallsComeToAnEnd: that such a run exists, not that replies are good.
- ScrubEncoding.ScrubbingCommutesWithUtf8: for well-formed text and values; lone surrogates, the variants a value is
  expanded to, the traversal of nested values and the cut of a capture inside a character are not modelled, and the latin1
  reading of bytes is taken as the bytes.
- PolicyGlob.Reach.Literal: the byte buffers hold booleans.
- RateLimits.BucketRateIsBounded: token counts are reals, not IEEE doubles; a key's limit is fixed, the clock does not run
  back, and there are at most 10,000 keys.
- RateExactness.BucketDecidesExactly, RateExactness.WindowDecidesExactly, LimitRuns.AdmittedExactly: the same, each target
  keeping one budget; between two attempts any admissions may be given back, each by its number.
- RateLimits.FixedWindowRateLimiter.Hit: the window is replaced rather than counted up in place, which no other reference
  to it could tell.
- EngineMany.Engine.CallMany: rows and events carry the call they belong to, which the tables do not; scrubbing of
  arguments and errors, durations, the timer of a run and exceptions outside the connector are not modelled, and what
  resolution, the joint decision, fetching, pinning and the run yield are inputs.
- Keyset.Lines: the consumer may stop after any number of pages; each page is one reading of the table.
- CanonicalJson.CanonicalIffSame: numbers are numerals, text has no lone surrogates, and keys are ordered by character
  where the program orders them by UTF-16 unit; any total order gives the theorem.
- JsonReading.CanonicalIsJson: the reader takes no white space and no surrogate escapes, neither of which is printed.
- CsvFormat.ExportReadsBack: an absent cell and an empty one print alike; ISO dates and the JSON text of a cell are inputs,
  and the JSON Lines format is not modelled.
- Base32.Decode: upper-casing is that of ASCII letters.
- Rc4Cipher.Rc4.constructor: an empty key, which the program cannot index, is excluded.
- Md4Digest.PaddingIsInjective: for messages whose bit length fits the 64-bit field.
- OutputTails.Collect: scrubbing and trimming of the text handed out are not modelled.
- Connectors, vault access, TLS, DNS, configuration and identity helpers: network clients and single-branch checks that
  would add only easy members.
