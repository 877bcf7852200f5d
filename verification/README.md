# AsterYggdrasil: a verified model of its core logic

This project models the parts of the AsterYggdrasil server (and of its documentation site) that hold
real state machines, loops and parser/printer pairs, and proves what they are for:

- **Background tasks** (`BackgroundTasks.dfy`). The table of tasks as a class, with compare-and-swap claims,
  writes guarded by a processing token, cooperative release, manual retry, refresh of system records,
  cleanup, and batch claims under a lane limit. Over every run: a lease that was replaced or that gave its
  row away can never write again, nobody can take a row from a live lease, a task being processed has
  exactly one possible writer, no lease is
  granted twice, every lease is accounted for, and a lane holds at most its limit of live leases at every
  moment if and only if every heartbeat fits when it arrives.
- **Captcha challenges** (`Captcha.dfy`, `CaptchaInterleaved.dfy`). With whole attempts: at most one
  success, at most `max_attempts` attempts with an outcome, and nothing but "expired" afterwards. With the
  cache read, the decision, the ttl reading and the cache write as separate interleaved steps of any number
  of verifiers, and eviction at any time: stored challenges stay the issued ones and every acceptance gave
  the issued answer in time. If no two verifiers overlap on one challenge between read and write, the run is
  one of whole attempts and keeps their bounds; whenever two do overlap with the right answer, both can be
  accepted.
- **Object storage** (`LocalStorage.dfy`, `S3Storage.dfy`, `StorageRefinement.dfy`). A put-if-absent
  directory tree and an overwriting bucket, both refined to one map; the two backends answer every run
  alike if and only if keys are prefix-free and content-addressed. Both listings are exact, one by a
  worklist over directories and one over pages cut in any way.
- **If-None-Match** (`EntityTags.dfy`). The comma-splitting matcher against the weak comparison of sections
  8.8.3.2 and 13.1.2 of RFC 9110, for every well-formed field value, by counting quotes in fragments.
- **Audit scope and runtime configuration** (`Audit.dfy`, `RuntimeConfiguration.dfy`,
  `RuntimeConfigurationInterleaved.dfy`). A multi-word bit mask that is a set, and a derived cache that after
  any sequence of calls is what a rebuild would give; with parallel calls it is so at every quiet moment when
  each activity is ended by a call that no other audit-key change has disturbed since its rebuild, and only
  then unless a change happens to bring back settings about to be written.
- **CORS settings** (`Cors.dfy`). The origin list parser and printer, and the wildcard/credentials rule
  over every sequence of admin updates.
- **Skin-domain rules** (`SkinDomains.dfy`). String suffix matching is label suffix matching; the effective
  rules cover the server's own hosts; the session service's second matcher agrees with the first under an
  exact condition.
- **Markdown descriptions** (`MarkdownDescription.dfy`, `MarkdownParagraphs.dfy`). The recursive scanner
  against a block-wise reference, and the description against the paragraphs that stand among the lines of the
  source, found line by line without the scanner.
- **Smaller pieces**: texture background parsing and printing (`TexturePreview.dfy`), and the
  seven-day activity windows (`ActivityTrend.dfy`).

`Text.dfy` and `FiniteSets.dfy` hold the shared vocabulary: splitting, joining, trimming, ASCII case, the
code-point order with sorting, and sizes of finite sets.

State that the source changes in place is a class or an array whose methods are proved against
specification functions; runs are sequences of events over those functions.

What the code calls in libraries outside the repository appears as a parameter with a stated contract: an
injective answer hash, an idempotent origin normalizer with non-empty, trimmed, comma-free output, strict
and lenient boolean readers, a recorded-actions parser that yields known actions, a configuration snapshot
that takes in one key at a time and reports a change exactly when it changed, a URL host parser, and the
number parser for the CORS age. The bounded number reader ignores values outside its bounds, a lane's room is its limit less
what is active and never below zero, a claim's next token is above the one it expects, joining a key to a
base path puts a slash between them, and stripping undoes exactly that.

## Model

| member | source | states |
|---|---|---|
| BackgroundTasks.BackgroundTaskRepo.TryClaim | src/db/repository/background_task_repo/dispatch.rs:41-90 | The claim succeeds exactly when the row exists, still has the expected token and is claimable now; then the row is processing under the new token and lease with its first start time kept, otherwise the table is unchanged |
| BackgroundTasks.BackgroundTaskRepo.UpdateLeased | src/db/repository/background_task_repo/mutation.rs:107-440 | Heartbeat, success, retry, release and failure take effect exactly when the row is processing under the writer's token, and touch no other row |
| BackgroundTasks.BackgroundTaskRepo.ReleaseProcessing | src/db/repository/background_task_repo/mutation.rs:317-367 | Only pending and retry are legal targets; any other is an error that changes nothing; a release spends no attempt |
| BackgroundTasks.BackgroundTaskRepo.ResetForManualRetry | src/db/repository/background_task_repo/mutation.rs:442-508 | Only a failed row is reset |
| BackgroundTasks.BackgroundTaskRepo.RefreshSystemRuntimeSuccess | src/db/repository/background_task_repo/mutation.rs:27-93 | Only a succeeded row of the system runtime kind is refreshed |
| BackgroundTasks.BackgroundTaskRepo.ClaimCandidatesForLane | src/services/task_service/dispatch/claim.rs:60-121 | The loop claims no more than the room found under the lane lock and leaves the lane within its limit, or the table unchanged |
| BackgroundTasks.ClaimColumns | src/db/repository/background_task_repo/dispatch.rs:41-90 | When exactly a claim succeeds, in terms of status, due time, lease end and token, and every column it leaves: a new lease, the first start time kept, nothing else touched |
| BackgroundTasks.WriteColumns | src/db/repository/background_task_repo/mutation.rs:202-440 | Every column each guarded write leaves, from the row and the arguments alone: a retry or failure exactly its count and error, a failure also whether it can be retried and its end, a success its result and end with the count kept, heartbeat and release count, result and error kept |
| BackgroundTasks.ResetColumns | src/db/repository/background_task_repo/mutation.rs:442-508 | A manual retry leaves a new pending row of the same kind under the old token |
| BackgroundTasks.RefreshColumns | src/db/repository/background_task_repo/mutation.rs:27-93 | A refresh leaves the new result and times, no lease and no failure, and keeps count and token |
| BackgroundTasks.AttemptCountIsLastReport | src/db/repository/background_task_repo/mutation.rs:264-508 | Over every run a row's attempt count is that of the last retry or failure that took effect since its creation or last manual retry |
| BackgroundTasks.BatchFillsLane | src/services/task_service/dispatch/claim.rs:60-121 | A batch stops only when the lane is full or none of its candidates can be claimed |
| BackgroundTasks.BatchKeepsLimit | src/services/task_service/dispatch/claim.rs:60-121 | For all tables and candidate lists a batch hands out at most the free room and never pushes the lane over its limit |
| BackgroundTasks.ClaimAddsAtMostOne | src/db/repository/background_task_repo/common.rs:56-88 | One claim adds at most one live lease to any lane, and none if it fails |
| BackgroundTasks.BatchIsRun | src/services/task_service/dispatch/claim.rs:60-121 | A batch equals a run of single claims, and every lease it hands out has been granted |
| BackgroundTasks.StepKeepsValid | src/db/repository/background_task_repo/mutation.rs:10-508 | Every event keeps tokens, statuses and the history of granted and settled leases in agreement |
| BackgroundTasks.StepKeepsHistory | src/db/repository/background_task_repo/dispatch.rs:41-90 | Every successful claim makes a lease never granted before, every settling write ends a lease not ended before |
| BackgroundTasks.ReachableIsValid | src/db/repository/background_task_repo/mutation.rs:10-508 | The agreement holds in every reachable state |
| BackgroundTasks.StaleLeaseCannotWrite | src/db/repository/background_task_repo/dispatch.rs:92-118 | Fencing: in every reachable state no write under a lease older than another grant for the same row changes anything |
| BackgroundTasks.SettledLeaseCannotWrite | src/db/repository/background_task_repo/mutation.rs:202-440 | A lease that gave its row away never writes again, also after reclaim, manual retry or deletion |
| BackgroundTasks.GrantsAndSettlementsAreDistinct | src/db/repository/background_task_repo/dispatch.rs:41-90 | Successful claims are as many as distinct leases and settling writes as many as settled leases, never more than grants |
| BackgroundTasks.ExactlyOneWriter | src/db/repository/background_task_repo/dispatch.rs:92-118 | A row being processed accepts writes from exactly one lease, and that lease was granted |
| BackgroundTasks.EveryLeaseIsAccountedFor | src/db/repository/background_task_repo/dispatch.rs:41-118 | Every granted lease holds its row, gave it away, was replaced by a later grant, or lost its row to cleanup |
| BackgroundTasks.LiveLeaseHoldsItsRow | src/db/repository/background_task_repo/dispatch.rs:41-118 | Over every run, while claims of its row come before the lease end, the lease does not settle or shorten itself and cleanup spares the row, a granted lease keeps its row and its time against all other dispatchers, workers and admins |
| BackgroundTasks.FailedTaskComesBack | src/db/repository/background_task_repo/mutation.rs:380-508 | A failed row is never claimed before a manual retry, which makes it claimable at once with a full budget; the new lease may write, the failed one may not, and no other row changes |
| BackgroundTasks.SuccessIsFinal | src/db/repository/background_task_repo/mutation.rs:27-93 | After a success no run claims, retries or fails a row again; it can only be refreshed as a system record or deleted |
| BackgroundTasks.LaneStepKeepsLimitExactly | src/services/task_service/dispatch/claim.rs:60-121 | A batch, guarded write, retry, refresh, cleanup or passing of time keeps a lane within its limit if and only if it is not a heartbeat that does not fit |
| BackgroundTasks.LaneCapacityHoldsExactly | src/services/task_service/dispatch/claim.rs:60-121 | Over every run, whenever heartbeats come, a lane holds at most its limit of unexpired leases at every moment if and only if every heartbeat fits when it arrives |
| BackgroundTasks.HeartbeatKeepsLimitExactly | src/db/repository/background_task_repo/dispatch.rs:92-118 | A heartbeat keeps the limit if and only if it is refused, already outdated, of another lane, renews a live lease, or finds room |
| BackgroundTasks.LateHeartbeatOverfillsLane | src/db/repository/background_task_repo/dispatch.rs:92-118 | An explicit run from two new tasks and one slot in which a heartbeat after the lease end leaves two live leases |
| Captcha.MaxAttempts | src/config/auth_runtime.rs:360-366 | A configured value from 1 to 10 is taken, any other gives 3 |
| Captcha.RemainingTtlSecs | src/services/captcha_service.rs:190-195 | At least one second, never past the larger of the expiry and one second from now, and less than a second short of the expiry |
| Captcha.CaptchaService.IssueChallenge | src/services/captcha_service.rs:71-97 | The new slot holds the hashed answer, no attempts, the bounded limit and the expiry from the first clock reading, kept for the ttl from the later write; no other slot changes |
| Captcha.CaptchaService.VerifyAnswer | src/services/captcha_service.rs:154-188 | The cache and the outcome after one attempt: expired, accepted, or invalid with the slot counted up or deleted |
| Captcha.CaptchaService.VerifyIfRequired | src/services/captcha_service.rs:131-152 | Nothing happens when no captcha is required; a blank id or answer is refused without reading the cache; otherwise both are trimmed and verified |
| Captcha.IssueThenVerify | src/services/captcha_service.rs:71-188 | After an issue the outcome is decided by the time and the visible characters alone, in all three directions |
| Captcha.NormalizeMeaning | src/services/captcha_service.rs:229-240 | A normalized answer has one character for every position that is not whitespace, in upper case, at the number of such positions before it |
| Captcha.AnswersAgreeExactly | src/services/captcha_service.rs:229-240 | Two answers count as the same if and only if their characters other than whitespace are, one by one, equal up to ASCII case |
| Text.CaseMeaning | src/services/captcha_service.rs:233-240 | Upper-casing maps two characters alike if and only if they are equal or the two cases of one ASCII letter |
| Captcha.StepKeepsValid | src/services/captcha_service.rs:154-188 | Every issue, attempt and eviction keeps the stored count equal to the invalid answers given and below the limit |
| Captcha.AttemptsAreBounded | src/services/captcha_service.rs:154-188 | In every run every id has at most one success, and successes and invalid answers together are at most its limit of 1 to 10 |
| Captcha.ClosedStays | src/services/captcha_service.rs:154-188 | A challenge whose slot is gone stays gone and its tally never changes again |
| Captcha.ClosedReportsExpired | src/services/captcha_service.rs:154-188 | In every run, after a success or the last allowed failure every later try on that id reports expired |
| Captcha.RetriesKeepExpiry | src/services/captcha_service.rs:171-195 | Over any number of retries, from any state, the issued expiry, answer and limit never move and the count never falls; the slot is the first one untouched or its cache deadline is at most the larger of the expiry and one second after the latest clock reading |
| CaptchaInterleaved.StepKeepsValid | src/services/captcha_service.rs:154-227 | Every interleaved step keeps all stored and held copies genuine and every recorded acceptance justified |
| CaptchaInterleaved.InterleavingIsSafe | src/services/captcha_service.rs:154-188 | In every interleaving from the empty cache every stored challenge is its issued one with a count below the limit, and every acceptance gave the issued answer strictly before the issued expiry |
| CaptchaInterleaved.IssuesAreNeverRewritten | src/services/captcha_service.rs:71-97 | Nothing that follows an issue changes its answer, expiry or limit |
| CaptchaInterleaved.RestoreDeadline | src/services/captcha_service.rs:171-213 | A late re-store keeps the issued expiry and stretches the cache deadline by at most the delay between computing and writing |
| CaptchaInterleaved.SerialRunsAreWhole | src/services/captcha_service.rs:154-227 | If no two verifiers overlap on one challenge between cache read and cache write, the run answers exactly as a run of whole attempts: same answers, times and outcomes, and agreeing caches |
| CaptchaInterleaved.SerialAttemptsAreBounded | src/services/captcha_service.rs:154-227 | So at most one acceptance, and acceptances and invalid answers together at most the limit, in every such run |
| CaptchaInterleaved.OverlapAcceptsTwice | src/services/captcha_service.rs:158-181 | Whenever two verifiers hold an unexpired copy of one challenge with the right answer, both can be accepted |
| CaptchaInterleaved.OverlapLosesCount | src/services/captcha_service.rs:171-181 | Whenever two verifiers hold one copy with a wrong answer, both can be told it is invalid while the stored count rises by one |
| CaptchaInterleaved.OneChallengeAcceptedTwice | src/services/captcha_service.rs:158-181 | A run from the empty cache, for any answer and ttl, in which one challenge is accepted twice |
| CaptchaInterleaved.UninterruptedIsAtomic | src/services/captcha_service.rs:154-188 | The split steps without interference give exactly the cache and outcome of the whole attempt |
| LocalStorage.LocalObjectStorage.PutFile | src/object_storage/local.rs:34-52 | Missing parents are made, an existing target of any kind is left as it is, a path through a non-directory fails |
| LocalStorage.LocalObjectStorage.GetStream | src/object_storage/local.rs:54-59 | The bytes of a regular file; not found when nothing can be opened; a directory opens without being a file |
| LocalStorage.LocalObjectStorage.Delete | src/object_storage/local.rs:61-70 | A missing object is a success, a directory is refused, only the named entry goes |
| LocalStorage.LocalObjectStorage.Exists | src/object_storage/local.rs:72-76 | True of directories too, failure only behind a non-directory |
| LocalStorage.LocalObjectStorage.ScanDirectory | src/object_storage/local.rs:103-131 | One round moves every file of the directory to the keys and every subdirectory to the stack, and strictly shrinks what is left to read |
| LocalStorage.LocalObjectStorage.ListKeys | src/object_storage/local.rs:88-134 | On every finite tree the loop ends with the strictly sorted keys of exactly the regular files under the prefix directory; a missing prefix lists nothing |
| LocalStorage.KeyTextSplits | src/object_storage/local.rs:124-129 | Listed key text and path determine each other |
| S3Storage.StripUndoesFullKey | src/object_storage/s3.rs:79-97 | Stripping the base path gives a key if and only if the full key was joined from it |
| S3Storage.PrefixStaysInBase | src/object_storage/s3.rs:84-97 | Whatever starts with the full prefix belongs to this base path, never to a sibling, and strips to a key with the prefix |
| S3Storage.FullKeyText | src/object_storage/s3.rs:79-82 | A full key is the base path, a slash and the key as text, or the key without a base path |
| S3Storage.PrefixDecides | src/object_storage/s3.rs:84-93 | A full key has the full prefix if and only if the key has the prefix |
| S3Storage.S3ObjectStorage.PutFile | src/object_storage/s3.rs:106-131 | On the key-to-bytes view of the base path the key now has these bytes and all other keys are as before; objects of other base paths are untouched |
| S3Storage.S3ObjectStorage.GetStream | src/object_storage/s3.rs:133-152 | The bytes the view holds under the key, or not found when it holds none |
| S3Storage.S3ObjectStorage.Delete | src/object_storage/s3.rs:154-171 | The view loses this key and no other, whether or not it was there; objects of other base paths are untouched |
| S3Storage.S3ObjectStorage.Exists | src/object_storage/s3.rs:173-192 | Whether the view has the key |
| S3Storage.PutOnView | src/object_storage/s3.rs:79-131 | Writing a full key is writing the key in the view, and changes nothing outside the base path |
| S3Storage.DeleteOnView | src/object_storage/s3.rs:79-171 | Deleting a full key is deleting the key in the view, and changes nothing outside the base path |
| S3Storage.S3ObjectStorage.CollectPage | src/object_storage/s3.rs:246-253 | A page adds exactly its named keys that lie under the base path, stripped, in order |
| S3Storage.S3ObjectStorage.FetchPages | src/object_storage/s3.rs:228-260 | The token loop ends and collects every page once |
| S3Storage.S3ObjectStorage.ListKeys | src/object_storage/s3.rs:223-264 | However the server splits its answer, the result is the strictly sorted list of exactly the keys the view holds that start with the prefix |
| S3Storage.ListingIsExact | src/object_storage/s3.rs:223-264 | Sorting the stripped keys of all pages loses, repeats and invents no key, and no full key under the prefix is left without its key |
| StorageRefinement.S3RunRefines | src/object_storage/s3.rs:106-192 | Every run over the bucket answers as the map does and ends holding the same contents |
| StorageRefinement.LocalRunRefines | src/object_storage/local.rs:34-76 | Every run over the tree with prefix-free content-addressed keys answers as the map does and ends holding the same contents |
| StorageRefinement.BackendsAgreeExactly | src/object_storage/local.rs:34-76 | The two backends answer all runs alike if and only if no key is a directory of another and a key determines its bytes |
| StorageRefinement.NestedKeysDisagree | src/object_storage/local.rs:72-76 | For every nested pair of keys, a run of two operations tells the backends apart |
| StorageRefinement.RewrittenKeyDisagrees | src/object_storage/local.rs:42-47 | For every key with two contents, a run of three operations tells the backends apart |
| StorageRefinement.RunKeepsWellFormed | src/object_storage/local.rs:34-70 | Every run leaves a tree in which each entry lies in a directory |
| StorageRefinement.LocalFailsExactly | src/object_storage/local.rs:34-76 | An operation on the tree fails if and only if something that is not a directory stands on the way to its key or it would delete a directory |
| StorageRefinement.FilesSurvive | src/object_storage/local.rs:34-70 | Without any condition on the keys, no run loses or changes a stored file that it does not delete by name |
| StorageRefinement.ListingMatchesStore | src/object_storage/local.rs:88-134 | After every such run the files under a prefix directory are exactly the stored keys below it |
| EntityTags.QuotesNormalized | src/api/cache.rs:55-65 | Trimming and dropping a weakness mark never remove a quote |
| EntityTags.NormalizedMeaning | src/api/cache.rs:55-65 | A weakness mark in either case goes with the whitespace around it; text without a mark only loses its outer whitespace |
| EntityTags.HitNeedsTwoQuotes | src/api/cache.rs:48-53 | A fragment without exactly two quotes hits only as the bare wildcard |
| EntityTags.CommaTagFragments | src/api/cache.rs:48-53 | A tag with commas falls into fragments none of which equals a tag; only an inner fragment that is a star hits |
| EntityTags.TaggedElementHits | src/api/cache.rs:48-65 | One list element hits exactly when its opaque tag equals the server's or contains a comma-enclosed star |
| EntityTags.ListDecides | src/api/cache.rs:48-65 | A whole list hits exactly when one of its elements does |
| EntityTags.MatcherMeaning | src/api/cache.rs:41-65 | For every well-formed field value the matcher says yes exactly when RFC 9110 does or a tag contains a comma-enclosed star |
| EntityTags.AgreesExactly | src/api/cache.rs:41-65 | Matcher and RFC 9110 agree if and only if the field matches anyway or no tag contains a comma-enclosed star |
| EntityTags.StarInsideTagMatchesAnything | src/api/cache.rs:48-53 | The disagreement is real: one field value matches every server tag |
| EntityTags.ServerTags | src/api/cache.rs:5-11 | The server's own tags are well-formed weak tags without commas |
| Audit.OrSetsOneBit | src/config/audit.rs:132-146 | Setting a bit of a word answers yes for that bit and leaves the 63 others |
| Audit.WithBitChangesOneAction | src/config/audit.rs:132-146 | Setting one action's bit never changes another action's answer, across words |
| Audit.MaskIsSet | src/config/audit.rs:101-146 | For any number of actions the mask contains exactly the listed ones |
| Audit.SetMaskBit | src/config/audit.rs:132-138 | The array changes in the one word of the action, by its one bit |
| Audit.FoldActions | src/config/audit.rs:101-118 | Every word access is in bounds and the mask answers as the list does |
| Audit.AllActionsMask | src/config/audit.rs:124-130 | The full mask contains every action |
| Audit.BuildSettings | src/config/audit.rs:20-32 | The settings of two raw values, with an absent or unreadable list meaning every action |
| Audit.ShouldRecordMeaning | src/config/audit.rs:20-46 | An action is recorded if and only if recording is not switched off and the action is listed or the list is absent or unreadable |
| RuntimeConfiguration.RuntimeConfig.constructor | src/config/runtime_config.rs:18-23 | The empty snapshot and the default settings agree from the start |
| RuntimeConfiguration.RuntimeConfig.Reload | src/config/runtime_config.rs:25-32 | A successful reload replaces the snapshot and its settings, a failed one changes nothing |
| RuntimeConfiguration.FromConfigsMeaning | src/config/runtime_config.rs:25-32 | A reloaded snapshot has a key if and only if some loaded row has it, with the last such row |
| RuntimeConfiguration.RuntimeConfig.Apply | src/config/runtime_config.rs:74-80 | The snapshot takes the value in and the cached settings stay current, rebuilt only for a changed audit key |
| RuntimeConfiguration.RuntimeConfig.Remove | src/config/runtime_config.rs:82-87 | The key is gone and the cached settings stay current |
| RuntimeConfiguration.RuntimeConfig.ShouldRecordAuditAction | src/config/runtime_config.rs:62-64 | The cached answer is the plain rule on the current snapshot |
| RuntimeConfiguration.OtherKeysDoNotMatter | src/config/runtime_config.rs:96-102 | Snapshots that agree on the two audit keys give the same settings |
| RuntimeConfiguration.CachedRuleIsPlainRule | src/config/runtime_config.rs:62-102 | The mask built from a snapshot answers as the plain rule |
| RuntimeConfiguration.StepKeepsCacheCurrent | src/config/runtime_config.rs:25-89 | Every call keeps the cached settings equal to a rebuild |
| RuntimeConfiguration.CacheIsAlwaysCurrent | src/config/runtime_config.rs:18-102 | After every sequence of calls the cache equals a rebuild and every action is answered by the plain rule |
| RuntimeConfigurationInterleaved.UndisturbedRunIsCurrent | src/config/runtime_config.rs:25-88 | For every run of parallel calls and all values: if each write that ends the activity is by a call since whose rebuild no other call changed an audit key or replaced the snapshot, the cache is current whenever no call is under way |
| RuntimeConfigurationInterleaved.ScheduleDecidesExactly | src/config/runtime_config.rs:25-88 | Where no change brings back settings another call is about to write, the cache is current at every quiet moment if and only if the schedule ends every activity with such an undisturbed call |
| RuntimeConfigurationInterleaved.OnlyAuditChangesOvertake | src/config/runtime_config.rs:74-88 | Only another call's audit-key change or snapshot replacement between a call's rebuild and its write can overtake it |
| RuntimeConfigurationInterleaved.OverlapLosesUpdate | src/config/runtime_config.rs:74-88 | Any two audit-key changes can run so that all calls are done, the snapshot holds both and the cache the settings after the first; it is current if and only if the second changed no setting |
| RuntimeConfigurationInterleaved.UpdateIsLost | src/config/runtime_config.rs:74-80 | Such a run from the empty configuration: the snapshot says recording is on, the cache says off |
| Cors.ParseAllowedOrigins | src/config/cors.rs:135-171 | The loop with its early return computes the specified parse |
| Cors.ReadingMeaning | src/config/cors.rs:141-157 | The loop collects exactly the origins named by some piece, and the wildcard flag exactly when it is named |
| Cors.MalformedExactly | src/config/cors.rs:141-157 | Reading fails if and only if some non-blank piece cannot be normalized |
| Cors.ParseMeaning | src/config/cors.rs:135-171 | Refused if and only if a piece is unreadable or the wildcard stands beside another origin; otherwise the wildcard or the ordered list of exactly the named origins |
| Cors.PrintParsesBack | src/config/cors.rs:118-171 | Printing an accepted value and parsing it gives the same value |
| Cors.NormalizeIsIdempotent | src/config/cors.rs:118-125 | Normalizing keeps the meaning, is idempotent, and lists are strictly increasing without the wildcard |
| Cors.PrintMeaning | src/config/cors.rs:118-125 | The printed forms are nothing, a star, or the origins with single commas between them |
| Cors.PolicyMeaning | src/config/cors.rs:22-112 | When the policy is on, whose origins and credentials it allows, and its age, for any stored text |
| Cors.AcceptedExactly | src/config/definitions.rs:392-426 | An update of the origins is accepted if and only if they parse and are not the wildcard beside stored credentials, one of the credentials if and only if it reads strictly, the stored origins parse and they do not pair; what is accepted means what was sent |
| Cors.UpdateKeepsSafe | src/config/definitions.rs:392-426 | Every update and deletion keeps the two stored values readable and not paired |
| Cors.UpdatesNeverPairWildcardWithCredentials | src/config/definitions.rs:392-426 | Over every sequence of updates and deletions wildcard and credentials are never both on, so the downgrade branch is never taken |
| Cors.DefaultsAreSafe | src/config/definitions.rs:996-1021 | The shipped defaults, and an empty table, are a start for that result |
| Cors.EffectivePolicyIsSafe | src/config/cors.rs:22-112 | For arbitrary stored text a stored pair of wildcard and credentials is denied altogether, any other enabled setting is taken as stored, and a disabled policy allows nothing |
| SkinDomains.DotSuffixIsLabelSuffix | src/config/yggdrasil.rs:506-513 | A host ends in a dot and a suffix if and only if the suffix's labels are a proper suffix of the host's labels |
| SkinDomains.RuleMeaning | src/config/yggdrasil.rs:506-513 | A dotted rule matches exactly the proper subdomains, any other rule exactly the equal host, up to case and padding |
| SkinDomains.MatchersAgreeExactly | src/services/yggdrasil_service/session.rs:697-702 | In normal form the session service's matcher agrees with the first one if and only if no dotted rule's ending lacks a dot in front of it in the host; where they differ it is the one that says yes |
| SkinDomains.MatchersDiffer | src/services/yggdrasil_service/session.rs:697-702 | For every dotted rule they differ on its own domain and on every host that lengthens the first label of that domain |
| SkinDomains.NotMinecraft | src/services/yggdrasil_service/session.rs:697-702 | A default rule with two hosts on which they differ |
| SkinDomains.HostMatchesItself | src/config/yggdrasil.rs:506-513 | Every host satisfies itself as a rule |
| SkinDomains.ValidateSkinDomainRule | src/config/yggdrasil.rs:473-504 | A rule is accepted if and only if all its labels are valid; the earlier tests reject nothing more |
| SkinDomains.DedupeFold | src/config/yggdrasil.rs:413-418 | The fold computes the specified dedupe |
| SkinDomains.DedupeMeaning | src/config/yggdrasil.rs:413-418 | Same members, no repetitions, in the order of first occurrences |
| SkinDomains.ReadEffectiveSkinDomains | src/config/yggdrasil.rs:388-419 | The effective rules are duplicate-free, start with the two defaults, and are exactly the defaults, the configured rules that are not blank in normal form, and the server's own hosts |
| SkinDomains.HostsMissingFromSkinDomains | src/config/yggdrasil.rs:312-331 | The diagnostic lists, once each, exactly the hosts no rule matches |
| SkinDomains.OwnHostsAreCovered | src/config/yggdrasil.rs:73-82 | For every configuration the effective rules cover all hosts of the policy's own base URLs, so the diagnostic is empty on them |
| MarkdownDescription.TruncateDescription | docs/.vitepress/config.ts:98-105 | At most 161 characters; short text unchanged; cut text is a prefix without trailing space or punctuation and an ellipsis |
| MarkdownDescription.TruncateMeaning | docs/.vitepress/config.ts:98-105 | Exactly the spaces and punctuation at the end of the first 160 characters go |
| MarkdownDescription.FrontMatterGoes | docs/.vitepress/config.ts:80-84 | Three dashes and a line break, any text without a closing line, a line break, three dashes and an optional line end are dropped, behind an optional byte-order mark |
| MarkdownDescription.OtherTextStays | docs/.vitepress/config.ts:80-84 | A source that does not open so or has no closing line stays, less one byte-order mark |
| MarkdownDescription.FirstLine | docs/.vitepress/config.ts:107-108 | A source splits into its first line and the lines behind the line break, of either kind |
| MarkdownDescription.StrippedMeaning | docs/.vitepress/config.ts:112 | Stripping a line removes the whitespace on either side and nothing else |
| MarkdownDescription.PlainMeaning | docs/.vitepress/config.ts:114-168 | The line kinds by their first characters |
| MarkdownDescription.UsefulFrom24 | docs/.vitepress/config.ts:131-188 | A paragraph is useful by its own text, a custom block by its shortened description, from 24 characters on |
| MarkdownDescription.LinesFitSource | docs/.vitepress/config.ts:107-108 | The lines of a source joined again are no longer than it |
| MarkdownDescription.BlocksAreShorter | docs/.vitepress/config.ts:119-130 | Every custom block's body is strictly shorter than the lines it comes from, even where the number of lines is not smaller |
| MarkdownDescription.BlockSettles | docs/.vitepress/config.ts:131-139 | A block at the head settles the answer or leaves it to the rest with at most a new fallback |
| MarkdownDescription.ScanBlock | docs/.vitepress/config.ts:111-192 | One turn of the loop moves the index up and keeps the answer |
| MarkdownDescription.ExtractDescription | docs/.vitepress/config.ts:107-196 | The single pass with nested calls ends on every input and returns the first useful candidate, else the first non-empty one, of the block-wise reference |
| MarkdownParagraphs.BlocksExactly | docs/.vitepress/config.ts:107-188 | The scanner's blocks are exactly the maximal stretches of running text outside blocks, fences and marked parts, and the bodies of custom blocks, as the lines show them |
| MarkdownParagraphs.ParagraphsExactly | docs/.vitepress/config.ts:107-188 | The flat list of paragraphs, nested ones in their place, holds exactly the paragraphs of the source |
| MarkdownParagraphs.DescriptionMeaning | docs/.vitepress/config.ts:107-196 | For any inline normalizer the description has at most 161 characters, is empty if and only if all paragraphs of the source are, and otherwise is the shortened text of one of them |
| MarkdownParagraphs.CandidateIsPick | docs/.vitepress/config.ts:119-139 | A block counts as its paragraphs would one by one if and only if it is a paragraph or shortening leaves its first useful paragraph useful |
| MarkdownParagraphs.ChoiceIsFirstUsefulExactly | docs/.vitepress/config.ts:107-196 | The scan chooses, in usefulness and text, as one look through all paragraphs in order would if and only if the first useful paragraph stands outside custom blocks or stays useful when shortened; the one exception, a paragraph outside custom blocks that shrinks to the same text, is named |
| MarkdownParagraphs.DescriptionIsFirstUseful | docs/.vitepress/config.ts:107-196 | Under that condition the description is the text of the first useful paragraph, else of the first that is not empty |
| MarkdownParagraphs.ShortenedParagraphIsPassedOver | docs/.vitepress/config.ts:98-139 | A family of sources where a custom block's useful paragraph is passed over because cutting it leaves fewer than 24 characters |
| MarkdownParagraphs.BangsArePassedOver | docs/.vitepress/config.ts:98-139 | A source of that family: a letter with 200 exclamation marks in a custom block before a useful line |
| TexturePreview.WireValueParsesBack | src/config/texture_preview.rs:286-293 | Every background prints to text that parses back to it |
| TexturePreview.NormalizeKeepsColour | src/config/texture_preview.rs:387-422 | Normalizing accepted text keeps its colour and is idempotent |
| TexturePreview.CaseAndPaddingDoNotMatter | src/config/texture_preview.rs:387-422 | Case and surrounding whitespace never change the result, aliases and digits alike |
| TexturePreview.SixDigitsAreOpaque | src/config/texture_preview.rs:396-416 | Six hex digits mean the opaque colour spelled with eight |
| TexturePreview.ColourMeaning | src/config/texture_preview.rs:387-422 | Six or eight hex digits in any case give the channels they spell, opaque if there are six |
| TexturePreview.HexAcceptedExactly | src/config/texture_preview.rs:396-422 | Text is a hex colour if and only if it is a hash sign and three or four pairs of two digits, or of a plus sign and a digit |
| TexturePreview.NameMeaning | src/config/texture_preview.rs:387-394 | The colour of each name |
| ActivityTrend.CallsTile | src/services/admin_overview_service.rs:241-286 | Counts over adjacent ranges add up |
| ActivityTrend.UsersAtMostRows | src/services/admin_overview_service.rs:254-277 | Distinct users are at most the rows counted |
| ActivityTrend.PlayersAreBounded | src/services/admin_overview_service.rs:21-63 | Each day active players are at most active users and at most API calls |
| ActivityTrend.PointMeaning | src/services/admin_overview_service.rs:241-286 | A point counts, from midnight to midnight, each user other than the system with a user action once, each with a player action once, the textures made and the player actions recorded |
| ActivityTrend.DaysTile | src/services/admin_overview_service.rs:241-286 | Any number of consecutive days tile their range: daily calls and textures sum to the range's |
| ActivityTrend.LoadActivityTrend | src/services/admin_overview_service.rs:241-286 | Seven points, oldest first, one per day, whose sums are the week's and whose players are bounded |

## Left out

- Captcha image rendering, random ids and hashing: ids are fresh by assumption and the hash is a parameter; time-based expiry of the cache is one case of eviction at any time.
- RuntimeConfiguration.CacheIsAlwaysCurrent: takes calls one after another, because rebuild and write are not one critical section; RuntimeConfigurationInterleaved says which schedules of parallel calls keep the cache current.
- Captcha.AttemptsAreBounded: takes attempts as whole, because cache read and cache write are not one step; CaptchaInterleaved says when interleaved ones keep the bounds and shows that the condition is needed.
- Agreement of the two `list_keys`: the local prefix is a directory and the S3 prefix is a string prefix, so none is claimed.
- Key normalization, symbolic links, metadata and I/O or SDK errors of object storage: operations start from normalized keys, trees hold files, directories and other entries, and what a stream on something other than a regular file yields is not modelled.
- A listing of the bucket is served by pages that reflect one moment; objects changing during a listing are not modelled.
- Background task columns that decide nothing here: display name, payload, progress, steps, status text, runtime JSON, expiry and update times; also dedupe keys and the selection of claim candidates, which may be any list.
- The `stale_before` argument of a claim: the code ignores it and looks at the lease end only, although a comment speaks of leases that are stale enough; the model follows the code.
- Row ids are taken as never reused and the limit of a lane as fixed during a run; the repository has one lane, so claims for other lanes are not events of a lane run.
- Field values with bytes outside visible ASCII: the header reader refuses them before the matcher sees them.
- Origin, boolean, number and URL parsing of the shared libraries: parameters with the contracts named above.
- MarkdownParagraphs.DescriptionIsFirstUseful: one direction for the text alone, because a paragraph passed over as useful can still be taken as the short fallback, with the same text; on choices ChoiceIsFirstUsefulExactly is an equivalence.
- The inline Markdown normalizer is a parameter, and characters stand for UTF-16 units; page lookup, locales and the description cache are not modelled.
- Texture backgrounds with non-ASCII text, where the source slices inside a character; the leading plus sign its integer parser accepts is modelled.
- Health summary merging, the remaining overview counters and recent activity: they would add only easy members.
- Routes, OpenAPI, HTTP assembly, migrations, entities, the frontend, mail, email policy, branding, tokens, bans, signature keys and rendering: wiring, declarative tables, or foreign code.
