# KeyForge: a verified model of its consistency protocols

KeyForge is an OAuth 2.1 / OpenID Connect server. Its hard parts are small protocols over two kinds
of store: serialized Durable Objects (DO) and transactional D1 tables. This project models those
protocols in Dafny and proves what they are for. `dafny verify dfyconfig.toml` checks the whole project.

How the model is built:

- A protocol is a step system: a state, events with an enabling condition, and a run function. Main
  results quantify over every run, every interleaving and every failure the steps allow.
- An operation that updates stored state in place is also a class method whose contract gives its
  whole new state as a specification function; the lemmas are about those functions.
- A SQL batch is one transaction of statements with their own guards. Clocks, generated identifiers
  and failures are parameters. Hashes and identifiers are fresh and injective. The development switch
  that turns checks off ("YOLO mode") is off.

| module | what it holds |
|---|---|
| `Keyring`, `KeyringChanges`, `KeyHistory`, `KeyRotation`, `KeyRotationTheorems`, `KeyRotationLimits`, `KeyStore`, `Lease` | two-phase signing-key rotation, cached copies, served JWKS documents, leases |
| `RefreshFamily`, `RefreshAnswers`, `RefreshProtocol`, `RefreshCalls` | refresh-token families in the DO and mirrored in D1 |
| `Selection`, `Cleanup` | bounded cleanup as a top-k refinement |
| `AuditText`, `AuditMetadata`, `AuditFolds`, `AuditTheorems`, `AuditEncoding`, `AuditSurvival`, `AuditPrograms` | audit sanitizer against audit validator, and what survives it |
| `Accounts`, `AccountTheorems`, `AccountChanges`, `AccountEvents`, `AccountRuns`, `AccountOutcomes`, `AccountStore` | security epoch, sessions, passwords, passkeys, families per user |
| `SessionTokens` | the account tables and the refresh protocol joined over one row |
| `PermissionRules`, `TokenPolicy`, `PermissionMeaning` | rule validation and resolution, token access |
| `RateLimit`, `AuthorizationCode` | fixed-window limiter, single-use code |
| `IpText`, `IpParse`, `IpPrint`, `IpAddress`, `IpRanges`, `IpSpecial` | address grammar, CIDR tests, classification |

## Where the code and its promises differ

- **External JWKS caches have no slack.** The comment at src/routes/well-known.ts:24-25 says a newly
  active kid is always known. `rotatedAt` is the scheduler's second (src/index.ts:299), the commit
  comes later, and a ring is remembered some time after it was read. With a commit lag and a read
  delay of more than 1 ms together there is a run in which a relying party meets an unknown kid
  (`ExternalCounterexample`); `ExternalExact` proves the guarantee holds in every run if and only if
  they are at most 1 ms. In-server verification holds if and only if they are at most 90 s
  (`InServerExact`).
- **The mirror may disagree with the DO at rest.** If a mirror write fails and the compensating revoke
  fails too, D1 stays one rotation behind with nothing in flight (`DisagreementAtRest`).
  `MirrorAgreement` proves that on a live row they agree exactly when no mirror write was lost, and
  that a family which lost one never rotates again.
- **Host objects vanish from audit metadata without a mark.** A Date or a Map has no enumerable
  entries, so the sanitizer returns an empty object for it and sets no `_truncated`
  (`DateIsLostUnmarked`), and the validator accepts it although it is no fixpoint. `ChangeIsMarked`
  and `FixpointsAreAccepted` state exactly when a change is marked and what is a fixpoint.

## Model

| member | source | states |
|---|---|---|
| `Keyring.RotationKeepsWellFormed` | src/tokens/key-rotation.ts:238-302 | One rotation of a well-formed ring (or of none) never finds its staged key missing, and every ring it writes is well-formed: active key usable, pending kid and time together and usable, all others retired without private material, kids distinct. |
| `Keyring.NoEarlyDrop` | src/tokens/key-rotation.ts:257-289 | A rotation drops no key except one retired at least 91 days ago. |
| `KeyringChanges.KeptIsExact` | src/tokens/key-rotation.ts:267-271 | A well-formed ring is kept exactly while its staged key is younger than 120 s, and its staged key is never missing. |
| `KeyringChanges.MissingIsExact` | src/tokens/key-rotation.ts:272-278 | Of any ring, well-formed or not, a staged key that has waited 120 s is reported missing exactly when no unretired key of its kid has private material. |
| `KeyringChanges.StagingIsExact` | src/tokens/key-rotation.ts:254-266 | With nothing staged, the written ring keeps its active kid and stages exactly the fresh kid since the rotation; it holds the fresh key first and, unchanged, every key not retired for 91 days. |
| `KeyringChanges.ActivationIsExact` | src/tokens/key-rotation.ts:279-296 | With a key staged for 120 s or more, the written ring has it active and nothing staged; it holds the prior active key, retired now and stripped, and every other key not retired for 91 days, unchanged. |
| `KeyringChanges.PublishedIsExact` | src/tokens/key-rotation.ts:73-80 | The document served from a well-formed ring names exactly the kids of its keys that are not retired for 91 days or more. |
| `KeyringChanges.TwoRotationsReplaceTheKey` | src/tokens/key-rotation.ts:254-296 | Two rotations 120 s or more apart make the key that the first one generated the active one. |
| `KeyringChanges.DueIsExact` | src/operations/maintenance.ts:50-68 | The scheduler rotates exactly when there is no ring, a staged key has waited 120 s, or nothing is staged and the active key is old enough; whenever it rotates, the rotation writes. |
| `KeyringChanges.ScheduleReplacesOldKeys` | src/operations/maintenance.ts:50-68 | An active key that is old enough is replaced by the next two scheduled runs 120 s or more apart. |
| `KeyHistory.ActivationStep` | src/tokens/key-rotation.ts:267-296 | If the active kid changes, the version before had the new one staged, rotated at least 120 s earlier. |
| `KeyHistory.ActivatedAt` | src/tokens/key-rotation.ts:254-297 | In any history, an active kid was staged in the version just before its activation, rotated at least 120 s earlier, unless it is the first boot's. |
| `KeyHistory.AfterActive` | src/tokens/key-rotation.ts:279-296 | Once active, a kid stays active, or is kept as retired with the second it retired, or a rotation at least 91 days later dropped it. |
| `KeyHistory.StagedBeforeUse` | src/tokens/key-rotation.ts:11-15 | A copy too old to hold a staged key is no longer in use when that key can sign, if lag, copy age and holding time fit in 120 s. |
| `KeyHistory.PublishedWhileRetired` | src/tokens/key-rotation.ts:73-80 | A copy of any later version publishes the signing kid for the 90-day lifetime of what was signed. |
| `KeyHistory.ServedWhereverUsed` | src/tokens/key-rotation.ts:61-80 | For any two copies, the document served from one names the kid that the other signed with, at every instant both are in use. |
| `KeyRotationTheorems.EveryRingWellFormed` | src/tokens/key-rotation.ts:73-87 | In every run every version, the row and every cached ring is well-formed, and the row's version counts the rotations. |
| `KeyRotationTheorems.NoLostUpdate` | src/tokens/key-rotation.ts:125-157 | In every run, also with overlapping writers and lapsed leases, version n+1 is one rotation step applied to version n. |
| `KeyRotationTheorems.InServerTheorem` | src/tokens/key-rotation.ts:426-452 | With lag plus delay at most 90 s, in every run whatever any isolate signs has its kid in every JWKS any isolate serves during the next 90 days. |
| `KeyRotationTheorems.ExternalTheorem` | src/routes/well-known.ts:22-28 | With lag plus delay at most 1 ms, the same holds for every document a relying party may still use under max-age 60 and stale-while-revalidate 30. |
| `KeyRotationLimits.InServerExact` | src/tokens/key-rotation.ts:11-15 | In-server safety over all runs holds if and only if lag plus delay is at most 90 s. |
| `KeyRotationLimits.ExternalExact` | src/routes/well-known.ts:22-28 | External safety over all runs holds if and only if lag plus delay is at most 1 ms. |
| `KeyRotationLimits.InServerCounterexample` | src/tokens/key-rotation.ts:61-71 | For every larger lag and delay a concrete run serves a JWKS without a kid in use. |
| `KeyRotationLimits.ExternalCounterexample` | src/index.ts:298-301 | For every larger lag and delay a concrete run leaves a usable document without a kid in use. |
| `KeyStore.SigningKeyTable.LoadPersistedKeyring` | src/tokens/key-rotation.ts:89-110 | A load finds the row, and reports a ring without a usable active key as unusable. |
| `KeyStore.SigningKeyTable.PersistKeyring` | src/tokens/key-rotation.ts:125-157 | The conditional write succeeds exactly when the expected version is in the row, then advances it by one and remembers the ring in the writing isolate; a lost race changes nothing. |
| `KeyStore.SigningKeyTable.RotatePersistedKeyring` | src/tokens/key-rotation.ts:238-302 | The write half of a rotation changes the row exactly as the commit step of the step system, reports a commit exactly when that step wins, and tells a lost race and a missing staged key apart. |
| `KeyStore.IsolateCache.RememberKeyring` | src/tokens/key-rotation.ts:61-63 | The ring is cached for 30 s, which is the step `Remember`. |
| `KeyStore.IsolateCache.CachedKeyring` | src/tokens/key-rotation.ts:65-71 | A cached ring is returned exactly while the step system has the isolate use its cache; an expired one is forgotten. |
| `Lease.LeaseTable.Acquire` | src/operations/maintenance.ts:24-42 | The lease is taken exactly when no unexpired one is in the row. |
| `Lease.LeaseTable.Release` | src/tokens/key-rotation.ts:319-323 | A release deletes the row only if it names the releasing owner. |
| `Lease.MutualExclusion` | src/tokens/key-rotation.ts:304-323 | In every run at most one owner holds an unexpired lease, and no other owner's late release frees it. |
| `Lease.TakenExactlyWhenUnheld` | src/operations/maintenance.ts:24-42 | In every run a new owner who asks gets the lease exactly when nobody holds an unexpired one; a lapsed lease can be taken. |
| `RefreshFamily.RefreshTokenFamily.InitFamily` | src/do/RefreshTokenFamilyDO.ts:52-72 | Initialization is effective once; every call sets the alarm to a minute after the absolute expiry. |
| `RefreshFamily.InitIsStartable` | src/do/RefreshTokenFamilyDO.ts:52-72 | A new family meets the condition the results on runs start from, at generation 0 with nothing used. |
| `RefreshFamily.RefreshTokenFamily.Rotate` | src/do/RefreshTokenFamilyDO.ts:75-146 | Answer and new state of every rotation request, with all refusals, the legacy list of used hashes and families without a last rotation time. |
| `RefreshFamily.RefreshTokenFamily.Revoke` | src/do/RefreshTokenFamilyDO.ts:149-154 | Revocation burns a family that exists. |
| `RefreshFamily.RunKeepsChain` | src/do/RefreshTokenFamilyDO.ts:102-146 | In every run, from a new family or one of an older version, the hashes ever current form a duplicate-free chain one longer than the rotations, the used set is exactly what was used before and the other links, the generation counts, and rotations presented exactly those links in order, at least 10 s apart. |
| `RefreshFamily.OneRotationPerHash` | src/do/RefreshTokenFamilyDO.ts:102-135 | In every run each hash yields at most one "rotated". |
| `RefreshFamily.ReuseBurns` | src/do/RefreshTokenFamilyDO.ts:136-143 | Presenting any earlier link of the chain, or any hash used before the run, to a live family is reported as reuse and burns it. |
| `RefreshFamily.DeadForever` | src/do/RefreshTokenFamilyDO.ts:96-98 | A revoked or deleted family stays dead and its chain never grows, whatever follows. |
| `RefreshFamily.RotationPace` | src/config.ts:37-44 | In every run, by time t a family of generation g (0 for a new one) has rotated at most min(10000 - g, 1 + floor((t - first) / 10)) times. |
| `RefreshFamily.TooSoonWaitIsExact` | src/do/RefreshTokenFamilyDO.ts:109-119 | "Too soon" changes nothing, and for every clock the same token rotates later in the family's life if and only if the named wait has passed since the request, or since the last rotation if the clock was behind it. |
| `RefreshAnswers.RotatedIsExact` | src/do/RefreshTokenFamilyDO.ts:87-134 | A request rotates if and only if the family exists for that client, is unrevoked and within its absolute expiry, the token presented is the current one, the generation is below 10,000, and it is 0 or 10 s have passed; then scope, generation, time, current hash and used set are the new ones and all else is kept. |
| `RefreshAnswers.RefusalsAreExact` | src/do/RefreshTokenFamilyDO.ts:87-144 | Each refusal is given exactly under its own condition on the stored fields and the request. |
| `RefreshAnswers.RefusalEffectsAreExact` | src/do/RefreshTokenFamilyDO.ts:103-144 | A refusal changes only the revocation mark, and that exactly on reuse and at the generation limit. |
| `RefreshAnswers.RotationsWithinLife` | src/do/RefreshTokenFamilyDO.ts:99-101 | In every run no rotation happens after the absolute expiry. |
| `RefreshProtocol.RunKeepsInv` | src/tokens/refresh-token.ts:155-221 | The two-store invariant holds in every interleaving of calls with failing and abandoned steps. |
| `RefreshProtocol.LostMirrorNeverRotates` | src/tokens/refresh-token.ts:173-187 | After a mirror write throws, or its call dies, no token any client can present ever rotates, even if the compensating revoke fails and whether or not the write was applied. |
| `RefreshProtocol.StuckForever` | src/tokens/refresh-token.ts:182-193 | Once no client holds the current token and no call will return it, that lasts for every continuation. |
| `RefreshProtocol.RevokedReturnsNothing` | src/tokens/refresh-token.ts:188-203 | Once D1 has revoked or deleted the family, no later mirror write returns a token, even if no revocation reaches the DO, and the DO advances at most once more. |
| `RefreshProtocol.MirrorAgreement` | src/tokens/refresh-token.ts:173-203 | D1 lags the DO by at most one rotation; on a live row with no mirror write in flight they agree on hash, scope and generation if and only if none was lost. |
| `RefreshProtocol.DisagreementAtRest` | src/tokens/refresh-token.ts:182-187 | A concrete run that ends with nothing in flight, neither store revoked, and the stores in disagreement. |
| `RefreshCalls.MirrorTable.Write` | src/tokens/refresh-token.ts:176-181 | The mirror update changes hash, scope, generation and time exactly when the row is unrevoked. |
| `RefreshCalls.RotateRefreshToken` | src/tokens/refresh-token.ts:155-221 | The call, under any injected faults, leaves the stores and answers as specified, and returns a token exactly when the DO rotated and a live row took the write without a fault. |
| `RefreshCalls.TokenMeansBoth` | src/tokens/refresh-token.ts:173-203 | A returned token is the one both stores then hold, with the same scope and generation. |
| `RefreshCalls.LostRotationIsExact` | src/tokens/refresh-token.ts:173-193 | A granted rotation that returns no token answers "invalid" or throws, burns the family exactly when the compensating revoke gets through, and leaves the new token in the row only if the write was applied to a live row. |
| `RefreshCalls.BurnedCallIsExact` | src/tokens/refresh-token.ts:204-213 | Reuse and the generation limit burn the family and, if that statement gets through, the row, with the answer of each. |
| `RefreshCalls.RefusedCallIsExact` | src/tokens/refresh-token.ts:209-217 | Every other refusal leaves both stores as they were and answers the wait, or "invalid". |
| `RefreshCalls.IssueRefreshToken` | src/tokens/refresh-token.ts:28-138 | Issuing hands out the token exactly when the guarded batch committed without a fault; otherwise the family is burned unless the compensating revoke fails. |
| `RefreshCalls.IssueIsProtocol` | src/tokens/refresh-token.ts:28-138 | An issuance under any faults is a run of the protocol from its start, and holds exactly the token it returns. |
| `RefreshCalls.CallIsProtocol` | src/tokens/refresh-token.ts:155-221 | A call run alone is the protocol's steps in a row, and hands out exactly the token it returns. |
| `RefreshCalls.FamilyObjects.RevokeRefreshFamilyDurableObjects` | src/tokens/refresh-token-revocation.ts:11-25 | Exactly the objects that one of at most two attempts reached are burned; reported as pending are exactly those both of whose attempts were rejected, and every other one is dead. |
| `Selection.FirstUnique` | src/operations/maintenance.ts:134-140 | An ordered LIMIT has one result: two sets that are both the first k are equal. |
| `Selection.FirstTwice` | src/operations/maintenance.ts:307-313 | Taking a and then b of the rest takes the first a + b. |
| `Selection.CutThenMerge` | src/operations/maintenance.ts:132-157 | Cutting every list to k, grouping by key with the minimum, and cutting to k again equals one cut of the global order. |
| `Cleanup.SelectedIsGlobalFirst` | src/operations/maintenance.ts:125-157 | For every table, all branches and every batch size the statement selects exactly the first batch of the order by (minimum terminal time, key). |
| `Cleanup.TerminalIsExact` | src/operations/maintenance.ts:132-157 | A row is selectable at a time exactly when some branch gives it that time and no branch an earlier one. |
| `Cleanup.OldestGoFirst` | src/operations/maintenance.ts:134-140 | Whatever a batch takes comes before whatever it leaves, by (terminal time, key), and a batch that leaves something is full. |
| `Cleanup.TerminalAfter` | src/operations/maintenance.ts:145-154 | Deleting selected rows leaves the order of the others unchanged. |
| `Cleanup.Table.DeleteBatch` | src/operations/maintenance.ts:143-156 | One statement deletes exactly the global first batch and reports its size. |
| `Cleanup.Table.DeleteInRounds` | src/operations/maintenance.ts:304-316 | The loop deletes exactly the first rounds * batch rows of the global order, reports min(rounds * batch, matching), and if it stopped short nothing matching remains. |
| `Cleanup.SingleBranch` | src/operations/maintenance.ts:70-93 | With one branch, as for expired audit rows, the statement is the plain ordered LIMIT. |
| `AuditText.TruncateUtf8` | src/security/audit-sanitize.ts:20-31 | The loop computes the byte-bounded truncation. |
| `AuditText.TruncatedFits` | src/security/audit-sanitize.ts:20-31 | Truncated text fits, and is unchanged exactly when it already fitted. |
| `AuditText.TruncatedIsLongest` | src/security/audit-sanitize.ts:24-29 | Truncation is a prefix of whole code points and one more would not fit. |
| `AuditEncoding.Utf8RoundTrip` | src/security/audit-sanitize.ts:13-18 | The byte count of a code point is that of its UTF-8 encoding, which decodes to it, or to U+FFFD for a lone surrogate. |
| `AuditEncoding.JsonLengthIsExact` | src/security/audit-sanitize.ts:125-127 | The byte count of a string in JSON is that of the escaped and quoted text. |
| `AuditEncoding.SerializedLengthIsExact` | src/security/audit-sanitize.ts:125-127 | The serialized length of data is the number of UTF-8 bytes of its JSON text. |
| `AuditMetadata.CheckMeaning` | src/security/audit-sanitize.ts:168-205 | The validator's stateful traversal decides the size limits at every level and the total node budget, both ways. |
| `AuditFolds.ItemsAreFold` | src/security/audit-sanitize.ts:96-103 | The items' loop is a generic left-to-right loop, so what every visit guarantees the loop does. |
| `AuditFolds.EntriesAreFold` | src/security/audit-sanitize.ts:105-122 | The same for the entries' loop with its key rule. |
| `AuditTheorems.SanitizedIsBounded` | src/security/audit-sanitize.ts:57-123 | Sanitized values obey every limit, keep keys distinct, hold no host object, and each of their nodes was paid for from the budget. |
| `AuditTheorems.UnmarkedIsUnchanged` | src/security/audit-sanitize.ts:57-123 | If the traversal of a value without host objects does not mark truncation it returned its input. |
| `AuditTheorems.BoundedPassesThrough` | src/security/audit-sanitize.ts:57-123 | A value within the limits and the budget is returned unchanged, unmarked, and costs exactly its nodes. |
| `AuditTheorems.FitKeeps` | src/security/audit-sanitize.ts:144-152 | The fitting loop keeps a part that fits in 4096 bytes, and drops nothing if everything fits. |
| `AuditTheorems.TrimKeeps` | src/security/audit-sanitize.ts:154-162 | The trimming loop ends with a prefix from which nothing more has to go. |
| `AuditTheorems.OutputAccepted` | src/security/audit-sanitize.ts:130-166 | For every value the sanitizer's output is accepted by the validator. |
| `AuditTheorems.FixpointsAreAccepted` | src/security/audit-sanitize.ts:207-217 | A value is a fixpoint of the sanitizer if and only if the validator accepts it and it holds no host object. |
| `AuditTheorems.ChangeIsMarked` | src/security/audit-sanitize.ts:154-164 | The output equals the input or carries `_truncated: true`, if and only if there is no host object, or the value is refused once host objects are read as empty, or it carries the mark itself. |
| `AuditTheorems.HostsReadAsEmpty` | src/security/audit-sanitize.ts:105-122 | The traversal does not tell a host object from an empty object, in value and in state. |
| `AuditTheorems.HostsCheckAsEmpty` | src/security/audit-sanitize.ts:168-207 | The validator's traversal, too, takes a host object for an empty one. |
| `AuditTheorems.DateIsLostUnmarked` | src/security/audit-sanitize.ts:48-55 | A concrete value with a date whose sanitized form lost it without a mark. |
| `AuditTheorems.SecondPassIsIdentity` | src/security/audit.ts:131-165 | Sanitizing again on the queue path changes nothing. |
| `AuditSurvival.LeafIsExact` | src/security/audit-sanitize.ts:57-79 | What every value without parts becomes: itself, null, or the longest prefix of whole code points within 512 bytes; it is marked exactly when it changes. |
| `AuditSurvival.CutOffIsExact` | src/security/audit-sanitize.ts:81-106 | Which text or empty object stands for a value that is too deep, over the node budget, circular, unlistable or a host object, and what each costs. |
| `AuditSurvival.ArrayIsExact` | src/security/audit-sanitize.ts:96-103 | An array keeps its first 32 items, each sanitized one level down in the state that the one before left; more items set the mark. |
| `AuditSurvival.ObjectIsExact` | src/security/audit-sanitize.ts:105-122 | An object takes its first 32 entries in order: under the key cut to 64 bytes, or dropped and marked if that is empty, forbidden or taken. |
| `AuditSurvival.MarkedExactlyWhenChanged` | src/security/audit-sanitize.ts:57-123 | Without host objects the traversal sets the mark if and only if it changes the value. |
| `AuditSurvival.GoodItemSurvives` | src/security/audit-sanitize.ts:96-103 | When the node budget covers the array, a good item among the first 32 stays in place unchanged, whatever its neighbours are. |
| `AuditSurvival.GoodEntrySurvives` | src/security/audit-sanitize.ts:105-122 | When the node budget covers the object, a good entry among the first 32 comes through unchanged unless a longer key before it is cut to its key. |
| `AuditSurvival.FitIsExact` | src/security/audit-sanitize.ts:144-152 | Fitting is greedy in order: the next entry stays exactly when the JSON text with it is at most 4096 bytes. |
| `AuditSurvival.SurvivorsAreExact` | src/security/audit-sanitize.ts:130-166 | The result for an object: the traversed entries, fitted; and once something was changed or did not fit, the longest prefix of the fitted entries that has fewer than 32 and with the mark at most 4096 bytes of JSON text, with the mark. |
| `AuditSurvival.SmallSurvivesWhole` | src/security/audit-sanitize.ts:154-165 | A traversed object that fits with and without the mark loses no entry. |
| `AuditSurvival.OthersBecomeTheMark` | src/security/audit-sanitize.ts:133-142 | Missing metadata passes through, and what is not an object becomes the mark alone. |
| `AuditPrograms.SanitizeValueInPlace` | src/security/audit-sanitize.ts:57-123 | The traversal that mutates its state computes the specified value and final state. |
| `AuditPrograms.SanitizeAuditMetadata` | src/security/audit-sanitize.ts:130-166 | The whole program with its fitting and trimming loops computes the sanitizer; its result is accepted, and without host objects is the input or marked. |
| `AuditPrograms.IsBoundedValue` | src/security/audit-sanitize.ts:168-205 | The validator's loops decide the specified check and leave the specified node count. |
| `AuditPrograms.IsBoundedAuditMetadata` | src/security/audit-sanitize.ts:207-217 | The validator program accepts exactly what the specification accepts. |
| `AccountTheorems.RecoveryIsCompareAndSet` | src/auth/password.ts:183-258 | The five guarded statements either change nothing, or leave the user with exactly the new credential, version + 1 and every session and family revoked, and all other rows untouched. |
| `AccountTheorems.FirstThreeStatements` | src/auth/password.ts:198-231 | After statements 1 to 3 the join guarding statements 4 and 5 holds exactly when the original guard held. |
| `AccountTheorems.IssuanceCapsFamilies` | src/tokens/refresh-token.ts:58-132 | After a committed issuance the pair has at most 20 active families at every later time, the new one among them, the revoked ones older than every other survivor by (created_at, id); a failed guard changes no row. |
| `AccountTheorems.ActiveAfterPrune` | src/tokens/refresh-token.ts:82-114 | The prune leaves exactly min(20, active) families and never the new one out. |
| `AccountChanges.LogOutIsExact` | src/auth/session.ts:235-251 | Row by row: the live sessions of the token and the live families on them are stamped now, every other row and table is unchanged. |
| `AccountChanges.LogOutAllIsExact` | src/auth/session.ts:253-266 | Row by row: every live session and family of the user is stamped now, every other row and table is unchanged. |
| `AccountChanges.LogOutOneIsExact` | src/auth/session.ts:308-328 | Row by row: the session, if it is the user's, and the families on it. |
| `AccountChanges.LogOutOthersIsExact` | src/auth/session.ts:348-366 | Row by row: every other session of the user, and every family that is not on the kept one. |
| `AccountChanges.SetPasswordIsExact` | src/auth/password.ts:112-138 | All passwords of the user give way to the new one, the epoch advances by one, nothing else changes. |
| `AccountChanges.AddPasswordIsExact` | src/auth/password.ts:143-180 | The password is added and the epoch advances exactly for an enabled account with fewer than five; otherwise nothing changes. |
| `AccountChanges.RecoveryIsExact` | src/auth/password.ts:183-258 | The recovery takes place exactly at the epoch of an enabled account, and then with exactly these rows; otherwise nothing changes. |
| `AccountChanges.DeletePasswordIsExact` | src/auth/password.ts:366-391 | A password goes exactly when another password or a passkey of its user stays, and nothing goes with it. |
| `AccountChanges.DeletePasskeyIsExact` | src/db/queries/webauthn.ts:171-196 | The same for a passkey. |
| `AccountChanges.IssueIsExact` | src/tokens/refresh-token.ts:48-114 | An issuance adds its own row exactly under its guard, and revokes at most other active families of the same user and client. |
| `AccountChanges.IssueRevokesOnlyExcess` | src/tokens/refresh-token.ts:82-102 | It revokes nothing while the pair has fewer than 20 active families. |
| `AccountChanges.IssueRevokesOldest` | src/tokens/refresh-token.ts:82-102 | A family it revokes is older than every other it leaves active, by (created_at, id). |
| `AccountRuns.StepEvolves` | src/auth/session.ts:235-366 | Every transaction adds rows only under its fresh identifier, never takes an epoch back, and leaves revoked rows revoked. |
| `AccountRuns.RunKeepsInv` | src/auth/session.ts:235-266 | Links, epochs and caps hold throughout every interleaving of the modelled transactions and the environment's. |
| `AccountRuns.NoLiveFamilyOnRevokedSession` | src/tokens/refresh-token.ts:48-63 | In every run no live refresh family is attached to a revoked or missing session or to another user's. |
| `AccountRuns.OneRecoveryPerEpoch` | src/auth/password.ts:183-258 | In every run at most one capability per (user, epoch) ever sets a password. |
| `AccountRuns.OldCapabilitiesAreDead` | src/auth/session.ts:61-95 | After a recovery, in every run, no capability of that or an older epoch creates a session or sets a password. |
| `AccountRuns.FamiliesAlwaysCapped` | src/config.ts:37-44 | In every run and at every moment a user has at most 20 active families with one client. |
| `AccountRuns.PasswordsAlwaysCapped` | src/auth/password.ts:70-84 | In every run a user has at most 5 passwords, so any answer of the login query with its LIMIT 5 is all of them. |
| `AccountRuns.RevocationIsFinal` | src/auth/session.ts:235-266 | In no continuation does a revoked session or family become live again. |
| `AccountOutcomes.LogOutEverywhereIsFinal` | src/auth/session.ts:253-266 | In every continuation of a run, no session or family that the user had when logging out everywhere is live. |
| `AccountOutcomes.LogOutIsFinal` | src/auth/session.ts:235-251 | The same for the session of a token and the families on it. |
| `AccountOutcomes.LogOutOneIsFinal` | src/auth/session.ts:308-328 | The same for one session of the user and the families on it. |
| `AccountOutcomes.LogOutOthersIsFinal` | src/auth/session.ts:348-366 | The same for the other sessions, and the families that are not on the kept one. |
| `AccountOutcomes.RecoveryIsLogged` | src/auth/password.ts:183-258 | In a run a recovery at the current epoch is logged and leaves its password as the only one of the user. |
| `AccountOutcomes.RecoveryIsFinal` | src/auth/password.ts:183-258 | In every continuation the user's earlier sessions and families are dead and the earlier passwords gone. |
| `AccountOutcomes.PasswordChangeIsFinal` | src/auth/password.ts:112-138 | In every continuation after a password was set, the earlier ones are gone and capabilities of the old and older epochs neither open a session nor recover the account. |
| `AccountOutcomes.PasswordAdditionIsFinal` | src/auth/password.ts:143-180 | In every continuation after a password was added, capabilities of the old and older epochs do neither. |
| `AccountOutcomes.IssuanceAddsFamily` | src/tokens/refresh-token.ts:58-78 | In a run, an issuance on a live session of an enabled account adds a live family on that session. |
| `AccountOutcomes.LoginOpensSession` | src/auth/session.ts:27-95 | In a run, a login opens a live session exactly for an enabled account, and a capability only at its own epoch. |
| `AccountRuns.DeletePasswordKeepsMethod` | src/auth/password.ts:366-391 | The guarded delete of a password leaves every user who has a login method with one. |
| `AccountRuns.DeletePasskeyKeepsMethod` | src/db/queries/webauthn.ts:171-196 | The same for the guarded delete of a passkey, whose guard reads the other table. |
| `AccountRuns.LastLoginMethodIsKept` | src/auth/password.ts:364-391 | In every interleaving of both guarded deletes with setting, adding and recovering passwords and all other transactions, an account that has a login method keeps one for as long as it exists. |
| `AccountRuns.StepKeepsCredentials` | src/auth/password.ts:112-180 | Replacing, adding and recovering passwords each keep a user at 5 credentials or fewer. |
| `AccountStore.Database.CreateSessionAtVersion` | src/auth/session.ts:61-95 | A session is created exactly when the account is enabled and its epoch is the expected one. |
| `AccountStore.Database.CreateSessionRow` | src/auth/session.ts:27-58 | A session is created exactly for an enabled account. |
| `AccountStore.Database.SetPassword` | src/auth/password.ts:112-138 | The three statements in order: the new table contents. |
| `AccountStore.Database.AddPassword` | src/auth/password.ts:143-180 | Both statements, and that success is reported exactly for an enabled account with fewer than five passwords. |
| `AccountStore.Database.LogOut` | src/auth/session.ts:235-251 | The batch revokes the session and its families, and reports exactly the families it revoked. |
| `AccountStore.Database.LogOutEverywhere` | src/auth/session.ts:253-266 | The batch revokes every session and family of the user, and reports exactly the families it revoked. |
| `AccountStore.Database.LogOutOne` | src/auth/session.ts:308-328 | Only the owner's session and its families are revoked; it reports whether the session was live. |
| `AccountStore.Database.LogOutOthers` | src/auth/session.ts:348-366 | Everything of the user but the kept session and its families is revoked; it returns the number of the user's other live sessions and the families it revoked. |
| `AccountStore.Database.SetUserPasswordAtSecurityVersion` | src/auth/password.ts:183-258 | Statement by statement the batch succeeds exactly at the current epoch, then the account is recovered; otherwise no row changes; the reported families are those it revoked. |
| `AccountStore.Database.DeletePasswordPreservingLoginMethod` | src/auth/password.ts:366-391 | Deletes, or reports not found or the last login method, each exactly when it applies. |
| `AccountStore.Database.DeletePasskeyPreservingLoginMethod` | src/db/queries/webauthn.ts:171-196 | The same for passkeys. |
| `AccountStore.Database.IssueFamily` | src/tokens/refresh-token.ts:58-132 | The guarded insert and prune as a program: whether it inserted, what it pruned, and the cap. |
| `SessionTokens.RunKeepsInv` | src/tokens/refresh-token.ts:48-132 | In every run of both systems the account tables and the protocol agree on whether the family's row exists and is revoked, and the family is on the session it was issued for unless that was deleted. |
| `SessionTokens.TokenMeansLiveSession` | src/tokens/refresh-token.ts:188-203 | In every run a step that hands out a token does so while the family's row is live and its session is not revoked. |
| `SessionTokens.RevokedSessionReturnsNothing` | src/auth/session.ts:235-251 | Once an account transaction has revoked the session, or the family, in every continuation no call whose D1 write comes later hands out a token of that family, even one whose issuance was in flight, whatever reaches the DO. |
| `PermissionRules.InspectCondition` | src/oauth/permission-rules.ts:133-160 | The loop with accumulators computes the bounded inspection. |
| `PermissionRules.InspectMeaning` | src/oauth/permission-rules.ts:133-160 | The traversal, which stops at depth 6, reports valid if and only if the true height is at most 5, the true node count at most 64 and no group is empty; then it saw every node and scope leaf. |
| `PermissionRules.ValidatePermissionGroupRules` | src/oauth/permission-rules.ts:162-189 | For any input, arrays or not, acceptance holds exactly for rules within schema, distinct ids and true bounds without standard scopes; each issue is reported exactly when it is the first. |
| `PermissionRules.MatchIgnoresScope` | src/oauth/permission-rules.ts:215-238 | A condition without scope leaves matches the same under every scope. |
| `PermissionMeaning.LeavesCompare` | src/oauth/permission-rules.ts:222-231 | "equals" and "in" compare the context component that the leaf names, and no other. |
| `PermissionMeaning.NegationsNegate` | src/oauth/permission-rules.ts:225-232 | "not_equals" and "not_in" negate them. |
| `PermissionMeaning.GroupsCombine` | src/oauth/permission-rules.ts:235-237 | An "and" group over two lists of children matches exactly when the groups over both do, an "or" group when either does. |
| `PermissionMeaning.SmallGroups` | src/oauth/permission-rules.ts:235-237 | A group of one matches as its child, an empty "and" matches and an empty "or" does not. |
| `PermissionMeaning.UsesScopeIsExact` | src/oauth/permission-rules.ts:191-201 | A condition uses scopes exactly when one of its leaves, listed at any depth, names the scope. |
| `PermissionMeaning.StandardScopeIsExact` | src/oauth/permission-rules.ts:133-160 | A condition names a standard scope exactly when one of its leaves does. |
| `PermissionMeaning.AppliesIsExact` | src/oauth/permission-rules.ts:250-254 | A rule takes part in the stage its leaves put it in, and there exactly when it matches. |
| `PermissionMeaning.SchemaIsExact` | src/oauth/permission-rules.ts:84-127 | The limits of the input schema, kind by kind; the values of a set are distinct if and only if their number is that of the set. |
| `PermissionRules.ResolveIsFirstMatch` | src/oauth/permission-rules.ts:245-261 | A decision is the resolver's if and only if it is that of a first applicable rule in the order (priority, deny before allow). |
| `PermissionRules.ResolveIgnoresOrder` | src/oauth/permission-rules.ts:245-261 | Resolution depends only on which rules are present. |
| `PermissionRules.AddingDenyIsExact` | src/oauth/permission-rules.ts:244-261 | Adding a deny rule changes the decision exactly when it applies and nothing of smaller priority does, and then to denied. |
| `TokenPolicy.BaseIgnoresScope` | src/oauth/user-token-policy.ts:40-47 | The base decision does not depend on the scope put into its context. |
| `TokenPolicy.GrantedMeansEachScope` | src/oauth/user-token-policy.ts:31-64 | Access is granted if and only if the base decision holds and each scope passes alone. |
| `TokenPolicy.DecisionDependsOnScopeSet` | src/oauth/user-token-policy.ts:31-64 | Order and duplicates of scopes do not change whether access is granted. |
| `TokenPolicy.GrantedScopesCompose` | src/oauth/user-token-policy.ts:53-63 | Granted scope sets are closed under union and subset. |
| `PermissionMeaning.EarlyAnswersAreExact` | src/oauth/user-token-policy.ts:37-51 | Each refusal before the custom scopes, exactly when it is given. |
| `PermissionMeaning.ScopeAnswersAreExact` | src/oauth/user-token-policy.ts:53-63 | After those, the first refused custom scope in the order asked for decides the answer, and without one access is granted. |
| `RateLimit.RateLimiter.Check` | src/do/RateLimitDO.ts:23-45 | Answer, stored window and alarm after a hit. |
| `RateLimit.WindowAllowsLimit` | src/do/RateLimitDO.ts:23-45 | In every monotone run each window allows exactly min(hits, limit) and reports a first denial exactly once when it overflows, never otherwise. |
| `RateLimit.RemainingIsExact` | src/do/RateLimitDO.ts:33-44 | In every run an answer names what is left of the limit in its window, and allows exactly while the hits are within it. |
| `RateLimit.AnyIntervalAllowsTwiceLimit` | src/do/RateLimitDO.ts:29-41 | Any interval of one window length sees at most 2 * limit allowed hits. |
| `RateLimit.SaturationIsUnobservable` | src/do/RateLimitDO.ts:31-42 | Over any times a counter that never saturates gives the same answers. |
| `RateLimit.RetryAfterIsLeast` | src/do/RateLimitDO.ts:43-43 | A wait of whole seconds reaches a new window if and only if it is at least `retryAfterSeconds`. |
| `RateLimit.AlarmIsUnobservable` | src/do/RateLimitDO.ts:52-54 | With or without the alarm's deletion every hit gets the same answer. |
| `AuthorizationCode.CodeObject.StoreValue` | src/do/base.ts:16-20 | Storing sets value and expiry, marks the code unconsumed and sets the alarm a minute after the expiry. |
| `AuthorizationCode.CodeObject.ConsumeIf` | src/do/AuthorizationCodeDO.ts:13-71 | Outcome and new state of an attempt, with the reason of every refusal. |
| `AuthorizationCode.RefusalsAreExact` | src/do/AuthorizationCodeDO.ts:13-71 | Each refusal of a stored code, on the stored and presented fields: the first check that fails. |
| `AuthorizationCode.CodeIsSingleUse` | src/do/AuthorizationCodeDO.ts:13-71 | After one store, over any run of attempts and of alarms no earlier than the store set, an attempt gets the payload if and only if it is the first with correct bindings, resource and PKCE proof by the expiry; alarms change no outcome. |
| `AuthorizationCode.DeletionChangesNothing` | src/do/base.ts:57-59 | Alarm deletion leaves every attempt's outcome, reason included, as it would have been. |
| `AuthorizationCode.WrongAttemptsBurnNothing` | src/do/AuthorizationCodeDO.ts:9-12 | After any number of refused attempts the next one is answered as if they had not happened. |
| `IpParse.ParseIpv4` | src/oauth/client-id-metadata.ts:74-85 | The loop computes the specified value; it never reaches 2^32, so the final conversion changes nothing. |
| `IpParse.Ipv4Exact` | src/oauth/client-id-metadata.ts:74-85 | Exactly the dotted quads of one to three digits up to 255 are accepted, with the value their octets spell. |
| `IpSpecial.OctetIsExact` | src/oauth/client-id-metadata.ts:78-82 | An octet is one to three decimal digits, leading zeros included, that read at most 255 in base ten. |
| `IpSpecial.HexIsExact` | src/oauth/client-id-metadata.ts:119-125 | A piece is one to four hexadecimal digits, read in base sixteen. |
| `IpParse.Ipv4RoundTrip` | src/oauth/client-id-metadata.ts:74-85 | Parsing inverts printing for every 32-bit value. |
| `IpParse.Ipv6Exact` | src/oauth/client-id-metadata.ts:109-139 | Exactly the texts of the form grammar are accepted, after case folding and dropping a zone, with the value of their eight words. |
| `IpPrint.Ipv6RoundTrip` | src/oauth/client-id-metadata.ts:109-139 | Every eight-word address is read back whichever run of zero words is written as `::`, if any. |
| `IpPrint.TextParses` | src/oauth/client-id-metadata.ts:109-139 | Every legal form, dotted tails and leading zeros included, is read back as its value. |
| `IpPrint.WordsAreRecovered` | src/oauth/client-id-metadata.ts:136-138 | Equal values come from equal words. |
| `IpAddress.ParseHalf` | src/oauth/client-id-metadata.ts:114-128 | The loop over pieces computes the words of one half, each below 2^16. |
| `IpAddress.ParseIpv6` | src/oauth/client-id-metadata.ts:109-139 | The program with its shift-and-or loop computes the specified value. |
| `IpAddress.Ipv4CidrIsInterval` | src/oauth/client-id-metadata.ts:87-90 | The 32-bit mask test, with signed results and shift counts modulo 32, is membership in an integer interval. |
| `IpAddress.Ipv6CidrIsInterval` | src/oauth/client-id-metadata.ts:141-144 | The shift test is membership in an integer interval. |
| `IpRanges.Classification` | src/oauth/client-id-metadata.ts:162-176 | An address is public if and only if it parses, as one kind, to a number outside every special-use interval of that kind. |
| `IpRanges.NeverBoth` | src/oauth/client-id-metadata.ts:163-171 | No text is both an IPv4 and an IPv6 address. |
| `IpSpecial.QuadIsPublic` | src/oauth/client-id-metadata.ts:92-107 | A dotted quad is public exactly when its octets are in none of the registered blocks, in dotted notation. |
| `IpSpecial.WordsArePublic` | src/oauth/client-id-metadata.ts:146-176 | An IPv6 address, in brackets or not, is public exactly when its eight words are in none of the registered blocks, word by word. |
| `IpSpecial.ClosingIsDropped` | src/oauth/client-id-metadata.ts:170-170 | A pair of brackets, or a lone closing one, is dropped. |
| `IpSpecial.CaseIsIgnored` | src/oauth/client-id-metadata.ts:110-110 | Texts that differ only in the case of ASCII letters parse alike. |
| `IpSpecial.ZoneIsIgnored` | src/oauth/client-id-metadata.ts:110-110 | What follows a `%` is not read. |
| `IpRanges.MappedIsNotPublic` | src/oauth/client-id-metadata.ts:146-176 | Every IPv4-mapped address is non-public, however it is written. |
| `IpRanges.MappedQuadIsNotPublic` | src/oauth/client-id-metadata.ts:146-176 | Any text that is `::ffff:a.b.c.d` for a legal quad once brackets are dropped is non-public. |

## Left out

Modelling choices:

- Key rotation: commit lag and read delay are parameters with upper bounds, and the bounds needed are proved exact. Rotations are not held to the lease, which makes the results stronger. The imported-key cache, the shared load promise and the 40-attempt wait at first boot are not modelled; a loaded ring may be used up to the read delay after it was read.
- KeyStore.SigningKeyTable.RotatePersistedKeyring: the load half is `LoadPersistedKeyring`, because other writers may come between the two.
- Legacy keyrings in KV: the model starts at first boot, since a migrated ring need not be well-formed.
- RefreshFamily.RefreshTokenFamily.Rotate: `userId`, `resource` and `authTime`, which rotation only carries along, are omitted.
- Refresh protocol: one family per run. A string that was never generated stands for any forged token. The alarm may delete the object at any time, which is more than the source allows.
- RefreshCalls.FamilyObjects.RevokeRefreshFamilyDurableObjects: which calls are rejected, and whether a rejected one was applied, are parameters.
- SessionTokens: revoking the row after a reuse keeps an earlier revocation time, where the source's statement overwrites it; only whether the row is revoked matters.
- Accounts: environment steps stand for account creation, status changes, purges and deletions in files outside the core; foreign keys follow migrations/0001_initial.sql:113-146. Password policy and hashing are outside; a rejected password never reaches the batch. An issued family's lifetime is positive, as every configured lifetime is.
- AccountRuns.LastLoginMethodIsKept: the unguarded `deleteCredential` (src/db/queries/webauthn.ts:155-166) has no caller and is not a step.
- AccountStore.Database.IssueFamily: `requires` a fresh identifier, because identifiers are random.
- AccountStore.Database.AddPassword: `requires` a fresh identifier, for the same reason.
- Cleanup: row keys are integers in the collation order; a branch is any function from a row to an optional terminal time, so the particular predicates are not written out.
- Audit values: object entries are in enumeration order, which truncating a key cannot disturb because a truncated key is too long to be an array index. A host object carries its serialized length as a parameter. Number text, sparse arrays, `toJSON` on plain objects and prototypes are not modelled; the `seen` set appears as back references to enclosing objects.
- AuditTheorems.FixpointsAreAccepted: for values with distinct keys at every level, as all real objects have.
- PermissionRules.ValidatePermissionGroupRules: an array item of any wrong shape, unknown properties included, is one case; the JSON types it could have are not told apart.
- TokenPolicy.DecisionDependsOnScopeSet: says nothing about why access is refused, which can depend on the order of scopes; `ScopeAnswersAreExact` says how.
- Rate limiter: limits are natural numbers and a window is at least one second; `reset` is an operator action that simply clears the storage.
- IpParse.Ipv6Exact: the grammar is the code's, which also takes a dotted quad before the last group; section 2.2 of RFC 4291 allows it only at the end.
- Special-use ranges: base texts are written as the printed form of numbers or words and parsed again, as the source does.

Not part of this model, mostly because it would add only easy members or is platform behaviour:

- The unconditional `consume` and `peek` of one-time tokens (src/do/base.ts:23-55), which are `consumeIf` without bindings.
- The order of maintenance jobs; lists of sessions and passwords; login verification.
- Cryptography, JWT encoding, WebAuthn, URL parsing, DNS, queues, object storage and email.
- Views, browser scripts, translations, routes, middleware, console and admin handlers, token grant handlers.
