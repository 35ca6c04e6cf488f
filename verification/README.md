# A verified model of oidc-exchange

oidc-exchange is an identity-exchange service: it trades provider tokens for its
own access and refresh tokens. This project models the parts of it whose
behaviour is hardest to see from the code, and proves what they guarantee over
every input and every run:

- **Session families** (`Sessions`, `SessionFamilies`, `SessionTheorems`,
  `SessionHistories`, `SessionTraces`): the store of live refresh-token generations, retirement
  records and single-use claims, with obligations SR1 to SR5 of the session port.
- **Operator-auth limiter** (`AuthLimiter`, `LimiterTraces`, `LimiterPhases`):
  the two-phase limiter on failed admin authentications, shared by all peers.
- **Configuration** (`Utf8`, `Placeholders`, `ConfigMerge`): `${VAR}` resolution
  with its escape form, and the deep merge of an override onto defaults.
- **FFI request paths** (`RequestPath`): decoding, re-encoding and slash
  restoration, with the percent decoder.
- **Verification-material cache** (`KeyCache`, `KeyCacheRuns`,
  `KeyCacheVerdicts`): the admin UI's single-flight key loading, refresh cooldown
  and negative-kid list, and what becomes of each verification, under any
  interleaving.
- **User paging** (`Base64Url`, `UserPaging`): keyset pages, the opaque cursor and
  the client that follows cursors.

Each component keeps the form of its source. State that the source updates in
place is a class whose methods are proved equal to pure step functions; the
theorems are about those functions and about whole traces of them. Loops stay
loops.

## Assumptions about the environment

- Every store method takes the state mutex once, so a concurrent history is an
  interleaving of atomic steps (`SessionFamilies.Admissible` and
  `SessionFamilies.AdmissibleRun` collect the rest): the clock never goes back; an
  installed hash, and a newly stored or minted family id, was never used before; a
  replacement inherits `expires_at` and `created_at`; the store's own assertions
  hold. The empty family id marks a legacy row.
- The limiter's `Instant` never goes back. The hash map decides which of several
  equally old buckets is evicted, so a call carries its victim as an oracle.
- The process environment is a map without unset and non-Unicode variables.
- Signature checks, network fetches and the JSON and RFC 3339 rendering of a
  cursor are supplied by the environment; the rendering is assumed lossless.
- User ids are not empty (the cursor encoder asserts it).

## Where the code and its documentation differ

The model follows the code.

- crates/server/src/bootstrap.rs:62-67 says an unclosed `${` is ordinary text; the
  code at 310-313 rejects it.
- crates/adapters/src/rate_limit/mod.rs:8-10 says the lockout ends at
  `window_start + auth_lockout`; the code ends it after window plus lockout.
- crates/adapters/src/rate_limit/mod.rs:144-147 asserts that the fresh bucket is
  never its own eviction victim. It can be, exactly when no tracked bucket is older
  than the present instant (`LimiterTraces.PanicPossibleIff`); the panic poisons the
  lock and the limiter then allows everything.
- crates/adapters/src/rate_limit/mod.rs:179-211 computes the retry hint from the
  phase found before a rollover. With a budget of one the hint of a rolling call is
  too short (`LimiterPhases.HintExactIff`).
- crates/ffi/src/lib.rs:273-290: a raw path such as `/%2Fx` is accepted although
  its decoded form `//x` is refused (`RequestPath.RawAndDecodedAgreeIff`).

## Model

| member | source | states |
|---|---|---|
| Sessions.RetentionDeadline | crates/core/src/domain/session.rs:230-246 | the deadline is the smaller of retirement plus retention and the family's expiry |
| Sessions.SessionStore.constructor | crates/test-utils/src/lib.rs:71-98 | a new store is empty; the retention must be positive |
| Sessions.SessionStore.StoreRefreshToken | crates/test-utils/src/lib.rs:362-383 | exactly the row under the session's own hash changes |
| Sessions.SessionStore.ResolveRefreshToken | crates/test-utils/src/lib.rs:403-434 | the answer is the classification every theorem below is about, the corruption panic included |
| Sessions.SessionStore.RotateRefreshToken | crates/test-utils/src/lib.rs:440-520 | the compare-and-swap applies all three effects or none, and reports which |
| Sessions.SessionStore.RevokeSessionToken | crates/test-utils/src/lib.rs:522-532 | exactly one live row goes; records stay |
| Sessions.SessionStore.RevokeFamilyTokens | crates/test-utils/src/lib.rs:536-562 | all rows and records of the family go and nothing else; the count is live rows plus records |
| Sessions.SessionStore.RevokeAllUserSessions | crates/test-utils/src/lib.rs:596-610 | all rows and records of the user go; the count is the user's live rows |
| Sessions.SessionStore.CleanupExpiredSessions | crates/test-utils/src/lib.rs:614-638 | exactly the expired rows, records and claims go, and the count is their number |
| Sessions.SessionStore.PutSingleUseRecord | crates/test-utils/src/lib.rs:640-654 | a claim is granted unless an unexpired one is held |
| Sessions.SessionStore.TakeSingleUseRecord | crates/test-utils/src/lib.rs:656-665 | a take removes the record and succeeds only if it had not expired |
| Sessions.SessionStore.CountActiveSessions | crates/test-utils/src/lib.rs:582-591 | the number of live rows not yet expired |
| Sessions.SessionStore.ListLiveSessions | crates/test-utils/src/lib.rs:564-580 | the newest `limit` unexpired live rows of the user, newest first, none twice |
| Sessions.SortNewestFirst | crates/test-utils/src/lib.rs:577-577 | the rows in descending order of creation, each exactly once |
| SessionFamilies.StepKeepsInv | crates/test-utils/src/lib.rs:361-638 | every operation keeps the family invariant: live rows are last generations, records name the next generation of their family, retained records form a suffix with ordered deadlines |
| SessionFamilies.ReachableInv | crates/test-utils/src/lib.rs:361-638 | every world that any admissible run reaches satisfies the invariant |
| SessionTheorems.RetainedRecordsAreTheLatest | crates/test-utils/src/lib.rs:491-519 | a family's retained records are exactly its most recent superseded generations, contiguous, with deadlines that never decrease and never pass the family's expiry |
| SessionTheorems.SweepingTheLiveRowClearsTheFamily | crates/test-utils/src/lib.rs:614-624 | a sweep that removes a family's live row removes all its records too |
| SessionTheorems.ResolutionNeverCorrupt | crates/test-utils/src/lib.rs:414-423 | a successor pointer names the next generation of the same family, so the corruption assertion never fires |
| SessionTheorems.SuccessorsInjective | crates/test-utils/src/lib.rs:496-510 | two records never name the same successor |
| SessionTheorems.StepMovesForward | crates/test-utils/src/lib.rs:403-638 | one step moves the classification of an installed hash only forward |
| SessionTheorems.ClassificationMovesForward | crates/test-utils/src/lib.rs:403-638 | over every run, an installed hash moves only forward along Live, Superseded, Retired, Unknown |
| SessionTheorems.AtMostOneWinner | crates/test-utils/src/lib.rs:451-519 | however callers interleave, a given hash is redeemed at most once (SR3) |
| SessionTheorems.LosingRotationChangesNothing | crates/test-utils/src/lib.rs:451-519 | a rotation wins exactly when its hash is Live, and a lost one leaves the whole state as it was (SR2) |
| SessionTheorems.WinningRotationEffect | crates/test-utils/src/lib.rs:457-519 | what every hash resolves to after a winning rotation: the replacement Live, the redeemed hash Superseded by it at once, its predecessor Retired, a legacy hash Unknown, all others unchanged (SR2, SR4) |
| SessionTheorems.RecordOutlivesEarlierSweeps | crates/test-utils/src/lib.rs:494-510 | a record stays readable until its deadline unless its own family or user is revoked, whatever happens to others |
| SessionTheorems.OneLiveGenerationPerFamily | crates/test-utils/src/lib.rs:37-39 | in every reachable state a family has at most one live generation (SR3) |
| SessionTheorems.ChainLengthCountsWins | crates/test-utils/src/lib.rs:440-520 | a family has one generation more than it won rotations |
| SessionTheorems.UnremovedFamilyClassification | crates/test-utils/src/lib.rs:403-520 | after n winning rotations and no removal, generation n is Live, n-1 Superseded naming it, all older ones Retired with the right family and user, and hashes never installed Unknown (SR1, SR4) |
| SessionTheorems.FamilyRevocationIsExact | crates/test-utils/src/lib.rs:536-562 | family revocation makes every hash of the family Unknown and changes no other hash's classification (SR5) |
| SessionTheorems.RevokedFamilyStaysUnknown | crates/test-utils/src/lib.rs:536-562 | every hash the family ever held is Unknown in all later states of every run |
| SessionTheorems.UserRevocationIsExact | crates/test-utils/src/lib.rs:596-610 | the bulk count is the user's families with a live generation plus legacy rows; every hash of the user becomes Unknown and every other hash keeps its classification (SR5) |
| SessionTheorems.RevokedUserStaysUnknown | crates/test-utils/src/lib.rs:596-610 | every hash of the user's families is Unknown in all later states of every run |
| SessionTheorems.StoreEffect | crates/test-utils/src/lib.rs:362-383 | a stored session is Live at once and no other hash changes |
| SessionTheorems.SessionRevocationIsExact | crates/test-utils/src/lib.rs:522-532 | revoking one live row makes it Unknown and the generation it superseded Retired, and changes nothing else |
| SessionTheorems.SweepIsExact | crates/test-utils/src/lib.rs:614-638 | a sweep makes a hash Unknown exactly when its own row or record has expired, and never turns Superseded into Retired |
| SessionTheorems.FamilyRemovalsAreCounted | crates/test-utils/src/lib.rs:536-562 | the count of a family revocation is the rows and records that went; claims stay |
| SessionTheorems.UserRemovalsAreCounted | crates/test-utils/src/lib.rs:596-610 | the count of a user revocation is the rows that went, without the records; claims stay |
| SessionTheorems.SweptRowsAreCounted | crates/test-utils/src/lib.rs:614-638 | the count of a sweep is the rows, records and claims that went |
| SessionTheorems.ActiveCountIsWhatASweepLeaves | crates/test-utils/src/lib.rs:582-591 | the active count is the number of live rows a sweep at that instant would leave |
| SessionTheorems.ListingIsExact | crates/test-utils/src/lib.rs:564-580 | a listing holds only the user's own unexpired rows, newest first; one is left out only when the limit is reached, and then is no newer than any listed |
| SessionTheorems.ListingShowsAFamilyOnce | crates/test-utils/src/lib.rs:564-580 | a listing shows a non-legacy family at most once |
| SessionHistories.EveryNumberOfWinsOccurs | crates/test-utils/src/lib.rs:440-520 | the assumptions on runs can be met: for every n, some admissible run from an empty store wins exactly n rotations of one family |
| SessionTraces.TakeConsumesOneClaim | crates/test-utils/src/lib.rs:656-665 | a take succeeds exactly when an earlier granted, unexpired and not yet taken claim is outstanding |
| SessionTraces.ClaimIsExclusive | crates/test-utils/src/lib.rs:640-654 | a claim is granted exactly when no unexpired claim on the key is outstanding |
| SessionTraces.TakesConsumeDistinctClaims | crates/test-utils/src/lib.rs:640-665 | successive takes consume different claims |
| SessionTraces.GrantedClaimsAreSeparated | crates/test-utils/src/lib.rs:640-665 | two granted claims on one key are separated by a take or by expiry |
| SessionTraces.InsertedSweepIsInvisible | crates/test-utils/src/lib.rs:564-665 | inserting a sweep anywhere in a run changes no later claim, take or count answer, and no listing at an instant not before the sweep |
| SessionTraces.ListingsAgreeUpToTies | crates/test-utils/src/lib.rs:577-579 | two listings of one state agree position by position in creation instant |
| AuthLimiter.Configure | crates/adapters/src/rate_limit/mod.rs:59-93 | the limiter is built exactly for a non-zero budget, window and lockout |
| AuthLimiter.AdminAuthRateLimiter.constructor | crates/adapters/src/rate_limit/mod.rs:87-92 | a new limiter tracks nobody |
| AuthLimiter.AdminAuthRateLimiter.LiveBucket | crates/adapters/src/rate_limit/mod.rs:119-161 | expiry, creation and bounded eviction of an oldest bucket, and when the eviction assertion fails |
| AuthLimiter.AdminAuthRateLimiter.CheckAt | crates/adapters/src/rate_limit/mod.rs:165-171 | a check starts the phase clock, consumes nothing, and answers the decision of the bucket; a poisoned lock allows |
| AuthLimiter.AdminAuthRateLimiter.ConsumeAt | crates/adapters/src/rate_limit/mod.rs:175-214 | a consumption rolls a stale phase over, charges one unit and answers with the hint of the phase it found |
| LimiterTraces.TableStaysBounded | crates/adapters/src/rate_limit/mod.rs:131-159 | the table never exceeds 4096 peers while the limiter works |
| LimiterTraces.PanicPossibleIff | crates/adapters/src/rate_limit/mod.rs:138-148 | the eviction assertion can fail exactly when a new peer meets 4096 unexpired buckets none of which started before now |
| LimiterTraces.SimultaneousCrowdPanics | crates/adapters/src/rate_limit/mod.rs:104-148 | a trace on which it fails, after which everything is allowed |
| LimiterTraces.StrictClockNeverPanics | crates/adapters/src/rate_limit/mod.rs:138-148 | under a strictly advancing clock it never fails and the limiter is never poisoned |
| LimiterTraces.PeersAreIndependent | crates/adapters/src/rate_limit/mod.rs:119-214 | a peer that is never evicted gets exactly the answers of a lazily expiring machine of its own, whatever the others do |
| LimiterPhases.CountsExactlyItsWindow | crates/adapters/src/rate_limit/mod.rs:175-214 | a bucket's count is exactly the peer's failures in the window that begins at its start, capped at the budget |
| LimiterPhases.PhasesBeginAsTold | crates/adapters/src/rate_limit/mod.rs:119-202 | a phase begins at the peer's first call and then at each call that finds the lockout over, or at a failure that finds the window closed below the budget; told from the calls alone |
| LimiterPhases.DeniedIffBudgetSpent | crates/adapters/src/rate_limit/mod.rs:165-237 | a check or consumption is denied exactly when the failures in its phase's window, this call included, reach the budget |
| LimiterPhases.TableDeniesIffBudgetSpent | crates/adapters/src/rate_limit/mod.rs:119-237 | the same rule for the answers of the shared table |
| LimiterPhases.PhasesAreSpaced | crates/adapters/src/rate_limit/mod.rs:186-194 | successive phases of a peer begin at least a window apart |
| LimiterPhases.CheckLeavesBucketsAlone | crates/adapters/src/rate_limit/mod.rs:165-171 | a check leaves every unexpired bucket as found, and gives a peer without one an empty bucket that starts now |
| LimiterPhases.DenialMeansBudgetSpent | crates/adapters/src/rate_limit/mod.rs:196-237 | a denial means the whole budget was spent in one window from the phase start |
| LimiterPhases.LockoutHolds | crates/adapters/src/rate_limit/mod.rs:207-237 | after a denial every check and consumption before start + window + lockout is denied |
| LimiterPhases.LockoutEnds | crates/adapters/src/rate_limit/mod.rs:119-214 | the first call at or after that instant is judged by a fresh phase |
| LimiterPhases.HintWithinASecondIff | crates/adapters/src/rate_limit/mod.rs:175-275 | the retry hint is within one second of the true remaining time, and not above it once a second is left, unless a budget of one meets a stale window; then, with windows of two seconds or more, it is not |
| LimiterPhases.HintExactIff | crates/adapters/src/rate_limit/mod.rs:179-211 | with whole-second windows a consumption's hint is that of the phase it leaves exactly when the budget is above one or nothing rolled over |
| LimiterPhases.HintExample | crates/adapters/src/rate_limit/mod.rs:179-205 | a concrete call whose hint is two minutes short |
| LimiterPhases.AllowedInAnyWindow | crates/adapters/src/rate_limit/mod.rs:175-214 | any half-open interval as long as the window holds at most 2 * (budget - 1) allowed consumptions of a peer |
| LimiterPhases.TableAllowedInAnyWindow | crates/adapters/src/rate_limit/mod.rs:119-214 | the same bound for the answers of the shared table |
| LimiterPhases.AllowedBoundIsTight | crates/adapters/src/rate_limit/mod.rs:186-206 | a trace that reaches the bound |
| Utf8.BoundarySplits | crates/server/src/bootstrap.rs:337-347 | cutting valid UTF-8 at a character boundary gives valid UTF-8 on both sides |
| Utf8.ValidIffEncoding | crates/server/src/bootstrap.rs:337-347 | the byte strings accepted as text are exactly the UTF-8 encodings of scalar values (section 3 of RFC 3629) |
| Placeholders.ResolvePlaceholdersInStr | crates/server/src/bootstrap.rs:289-355 | the loop equals tokenise-then-substitute on every valid UTF-8 input, slices only on character boundaries, and outputs valid UTF-8 |
| Placeholders.ScanFindsIff | crates/server/src/bootstrap.rs:361-374 | the scan finds the first closing brace if it is among the first 256 bytes, and nothing otherwise |
| Placeholders.PlaceholderResolves | crates/server/src/bootstrap.rs:307-335 | a name of up to 255 bytes is replaced by its value, which is never read again; an empty name, an unset and an empty variable each give their own error |
| Placeholders.UnclosedIsMalformed | crates/server/src/bootstrap.rs:310-313 | an opener without a closing brace in 256 bytes is malformed |
| Placeholders.EscapeStep | crates/server/src/bootstrap.rs:299-306 | an escape gives a literal opener, and resolution goes on behind it |
| Placeholders.TextStep | crates/server/src/bootstrap.rs:337-347 | any other byte is copied |
| Placeholders.TokensSpellTheString | crates/server/src/bootstrap.rs:289-355 | tokenising loses nothing: the tokens spell the input |
| Placeholders.ResolvesIffBound | crates/server/src/bootstrap.rs:299-335 | resolution succeeds exactly when, read from the left, every unescaped opener is closed within 256 bytes after a non-empty name bound to a non-empty value |
| Placeholders.EscapedResolvesToItself | crates/server/src/bootstrap.rs:299-306 | adding one `$` before each `${` and resolving gives the string back in every environment |
| ConfigMerge.MergeRawDefaults | crates/server/src/bootstrap.rs:82-101 | the recursive entry-by-entry merge, in any iteration order, gives the merged tree |
| ConfigMerge.LeafOfMerge | crates/server/src/bootstrap.rs:82-101 | a leaf is in the merge exactly when the override put it there or it is a default the override does not touch |
| ConfigMerge.OverrideWins | crates/server/src/bootstrap.rs:82-101 | every leaf of the override survives, falsy or not |
| ConfigMerge.MergeIdempotent | crates/server/src/bootstrap.rs:82-101 | merging a tree onto itself changes nothing |
| ConfigMerge.OverrideTwice | crates/server/src/bootstrap.rs:82-101 | applying an override twice equals applying it once |
| ConfigMerge.AbsorbsIffCovers | crates/server/src/bootstrap.rs:82-101 | the base disappears into the override exactly when the override covers it |
| ConfigMerge.AssociativeIff | crates/server/src/bootstrap.rs:82-101 | three layers merge the same in either grouping exactly when no leaf of the middle layer separates a table from a later table that does not cover it |
| ConfigMerge.AgreeingLayersAssociate | crates/server/src/bootstrap.rs:82-101 | layers that agree on which paths are tables merge associatively |
| ConfigMerge.AssociativityExample | crates/server/src/bootstrap.rs:82-101 | three layers whose grouping matters |
| RequestPath.PercentDecode | crates/test-utils/src/telemetry.rs:179-201 | the loop decodes every well-formed escape, copies everything else and never grows its input |
| RequestPath.EscapeDecodes | crates/test-utils/src/telemetry.rs:179-201 | a percent sign and two hexadecimal digits of either case become one byte |
| RequestPath.MalformedEscapeIsCopied | crates/test-utils/src/telemetry.rs:179-201 | a percent sign without two digits is copied, like every other byte |
| RequestPath.PathByteIsLiteralIff | crates/ffi/src/lib.rs:13-17 | exactly the unreserved characters and the slash stand for themselves; any other byte becomes an escape with upper-case digits |
| RequestPath.RefusedIff | crates/ffi/src/lib.rs:264-288 | which paths and queries are refused, for both hint forms |
| RequestPath.RestoringTouchesOnlySlashes | crates/ffi/src/lib.rs:13-17 | restoring `%2F` undoes exactly the escapes of slashes |
| RequestPath.DecodingInvertsPathEncoding | crates/ffi/src/lib.rs:290-294 | decoding an encoded path gives every byte back |
| RequestPath.AssembledUriIsFaithful | crates/ffi/src/lib.rs:269-301 | the first `?` is the true query boundary: before it a path without `?` or `#` that decodes to the host's path, after it the host's query |
| RequestPath.SameUriSameRequest | crates/ffi/src/lib.rs:269-301 | different paths or queries never give the same string |
| RequestPath.RawAndDecodedAgreeIff | crates/ffi/src/lib.rs:273-290 | the raw and the decoded hint form give the same result exactly when the decoded path has one leading slash |
| RequestPath.RawSlashExample | crates/ffi/src/lib.rs:273-290 | a raw path accepted whose decoded form is refused |
| RequestPath.NormalisingTwice | crates/ffi/src/lib.rs:269-301 | normalising an assembled URI again changes nothing, under the same condition |
| KeyCache.VerificationCache.constructor | apps/admin-ui/src/lib/auth.ts:69-72 | the module starts with nothing cached, pending or remembered |
| KeyCache.VerificationCache.CanRefresh | apps/admin-ui/src/lib/auth.ts:390-394 | a refresh may be forced only for a kid not listed and after the cooldown |
| KeyCache.VerificationCache.RememberNegativeKid | apps/admin-ui/src/lib/auth.ts:383-388 | the kid moves to the end and the oldest entries beyond the bound go |
| KeyCache.VerificationCache.GetVerificationMaterial | apps/admin-ui/src/lib/auth.ts:310-325 | fresh material, or the pending promise, or a new load only if none is pending |
| KeyCache.TruncationCommutes | apps/admin-ui/src/lib/auth.ts:383-388 | evicting at every step keeps the same entries as evicting once at the end |
| KeyCache.ListedIffRecent | apps/admin-ui/src/lib/auth.ts:383-388 | a kid is listed exactly while fewer than 128 distinct kids were remembered since its last occurrence |
| KeyCacheRuns.RunKeepsInv | apps/admin-ui/src/lib/auth.ts:310-426 | every interleaving of verifications and load reactions keeps single flight, spacing and the list |
| KeyCacheRuns.AtMostOneLoadInFlight | apps/admin-ui/src/lib/auth.ts:314-323 | at most one load is in flight |
| KeyCacheRuns.ForcedRefreshesAreSpaced | apps/admin-ui/src/lib/auth.ts:413-418 | forced refreshes are at least 30 seconds apart |
| KeyCacheRuns.NegativeListIsRecent | apps/admin-ui/src/lib/auth.ts:383-388 | the list is the last distinct remembered kids in order, at most 128 |
| KeyCacheRuns.RememberedKidNeedsManyOthers | apps/admin-ui/src/lib/auth.ts:383-426 | a remembered kid can force another refresh only after 128 other distinct kids were remembered |
| KeyCacheVerdicts.VerdictIff | apps/admin-ui/src/lib/auth.ts:400-426 | a verification accepts exactly when it passed, and rejects exactly after a failed load it awaited, a refused algorithm, a failure that is no rotation failure, a refused refresh with nothing pending, or a second failure |
| KeyCacheVerdicts.RotationFailureEffect | apps/admin-ui/src/lib/auth.ts:410-418 | a rotation failure forces a refresh when its kid is not listed and every forced refresh is 30 seconds back, otherwise joins a pending load, otherwise ends the verification |
| KeyCacheVerdicts.BeginEffect | apps/admin-ui/src/lib/auth.ts:310-325 | a verification starts on material less than five minutes old, or awaits the pending load, or starts the only one |
| KeyCacheVerdicts.ResumeEffect | apps/admin-ui/src/lib/auth.ts:403-420 | a load that delivered sends each waiting verification on with its material; only a forced refresh may lead to a remembered kid |
| KeyCacheVerdicts.MaterialWasLoaded | apps/admin-ui/src/lib/auth.ts:310-325 | material in the cache or in use by a verification was delivered by a load |
| KeyCacheVerdicts.CacheHoldsTheLatest | apps/admin-ui/src/lib/auth.ts:315-318 | the cache holds the material of the load that arrived last, and a failed load keeps it |
| KeyCacheVerdicts.RememberedIff | apps/admin-ui/src/lib/auth.ts:416-424 | a kid is remembered exactly when a verification fails that had forced a refresh, never after joining a load |
| KeyCacheVerdicts.TaskKeepsItsKid | apps/admin-ui/src/lib/auth.ts:400-402 | a verification is about the kid it began with |
| KeyCacheVerdicts.LoadOutcomeIff | apps/admin-ui/src/lib/auth.ts:314-323 | a load has failed, or delivered material, exactly when that happened to it |
| Base64Url.DecodesIffEncoded | crates/core/src/cursor.rs:66-88 | a text decodes to some bytes exactly when it is their canonical encoding |
| Base64Url.EncodedByGroups | crates/core/src/cursor.rs:66-88 | three bytes become the four base-64 digits of their big-endian number |
| Base64Url.EncodedRemainder | crates/core/src/cursor.rs:66-88 | one or two bytes left over become two or three digits without padding |
| Base64Url.AlphabetIsUrlSafe | crates/core/src/cursor.rs:66-88 | the digits are those of the URL-safe alphabet (section 5 of RFC 4648) |
| UserPaging.CursorRoundTrips | crates/core/src/cursor.rs:52-110 | a cursor is not empty and decodes to its position; a text decodes to a position exactly when it is the base64url of a rendering of it, and never to an empty id |
| UserPaging.SortedPage | crates/test-utils/src/lib.rs:318-338 | the first rows strictly after the position in descending order, and whether more remain |
| UserPaging.ListUsersPage | crates/test-utils/src/lib.rs:310-357 | a bad cursor is refused; otherwise the page, with a cursor to its last row exactly when more rows remain |
| UserPaging.Order | crates/test-utils/src/lib.rs:320-332 | positions are strictly and totally ordered by creation instant and id |
| UserPaging.OrderIsNewestFirst | crates/test-utils/src/lib.rs:320-320 | the order is creation instant descending, then the first differing character of the id descending |
| UserPaging.PageIsExact | crates/test-utils/src/lib.rs:318-351 | a page holds users after the position, newest first; one is left out only when the page is full, and then comes after every row on it |
| UserPaging.WholeListingIsExact | crates/test-utils/src/lib.rs:318-351 | the whole listing holds every user once, newest first |
| UserPaging.WalkIsComplete | crates/test-utils/src/lib.rs:310-357 | following cursors lists rows in strictly descending order and misses no user present at the start, whatever is inserted or soft deleted between pages |
| UserPaging.FixedWalkIsShort | crates/test-utils/src/lib.rs:334-351 | on a fixed store all pages but the last are full, the number of pages is fixed by the number of users, and together they are the whole listing |
| UserPaging.ListUsers | apps/admin-ui/src/lib/api.ts:214-230 | the client returns the whole listing exactly when it fits in 1000 pages, and reports exhaustion otherwise |

## Left out

- Adapters other than the in-memory store and the admin limiter (DynamoDB, Postgres, SQLite, LMDB, Valkey), the refresh flow with its grace window and the public fixed-window limiter.
- Cryptography and JWT checking: verification outcomes are events of the environment.
- JSON, RFC 3339 and TOML text: the cursor's JSON pair is an abstract lossless rendering; TOML values are trees.
- The walk of `resolve_placeholders` over a configuration tree, which applies the string resolver to every leaf, and the config path in error messages.
- Methods, headers, body limits and content length in `normalise_request`, and the URI parser's own verdict on the assembled string.
- The lossy UTF-8 conversion at the end of `percent_decode`: the model returns the bytes.
- Session fields the store only copies (provider, device, user agent, address, location, `rotated_at`).
- The store's test switches (fail modes, `backdate_retirement`) and the overflow of instants near the ends of their range.
- User patches beyond the fact that they keep id and creation instant; rows of a page are represented by their positions.
- `CompositeRateLimiter::route`, configuration bounds checks and router assembly, each settled by reading one branch.
- LimiterPhases.HintExactIff: stated for windows of whole seconds, because with shorter ones rounding can make a stale hint coincide with the right one.
- LimiterPhases.HintWithinASecondIff: the half about stale windows is stated for windows of at least two seconds; below that rounding can bring a stale hint within a second of the truth.
- LimiterPhases.AllowedBoundIsTight: stated for windows of at least two nanoseconds, since a shorter one has no room for a burst across a rollover.
