# InfraPilot, verified

A Dafny model of the parts of InfraPilot whose correctness depends on order, faults
and interleaving, together with a few functions whose exact meaning matters. Each
module says in its header what it assumes; everything else is proved.

| file | what it models |
|---|---|
| `Migrations.dfy`, `MigrationEngine.dfy` | schema migrations run by several processes on one database: the state machine of all interleavings with faults and crashes, and the engine itself as an object with loops and transactions |
| `Updates.dfy` | the self-update of three binaries on a host whose every operation can fail, with its rollback, its checks, and the older single-binary installer |
| `Base64.dfy`, `Pairing.dfy` | unpadded base64url with the lenient decoder, and signed pairing tokens on top of it |
| `Registry.dfy`, `Authentication.dfy`, `PairingRuns.dfy`, `IdentityEngine.dfy` | the identity tables, the interleaved steps of pairing, revocation and challenge authentication, what holds in every run, and the repository and authenticator as objects |
| `Sessions.dfy`, `PanelRuns.dfy` | panel sessions with lazy expiry against a specification over the request history, and the panel end to end: identity runs and the sessions they lead to |
| `Lifecycle.dfy` | the agent's start-up, run loop and shutdown with its closing goroutine |
| `Paths.dfy`, `Configuration.dfy`, `Durations.dfy`, `Redaction.dfy`, `Versions.dfy`, `Text.dfy`, `Shared.dfy` | path containment, configuration loading and validation, durations in 64-bit arithmetic, log redaction, version comparison; strings and other common definitions |

State machines are functions on values: `Apply` performs one action and `Execute` a
sequence of them, so a statement about `Execute` for every sequence is a statement
about every interleaving. Objects the program mutates are classes; where other
processes can act between two of a call's steps, the class asks an environment what
they did, and a lemma shows that what the environment may answer covers their steps.

## Where the code and its documentation part

- The comment on `InstallAll` (`internal/update/update.go:242-243`) promises that the
  previous binaries are restored on any failure. Operations are numbered, nine for each
  replaced binary and then the commands, and which of them fail decides everything. The
  comment holds exactly when no rename of the rollback fails and no binary's replacement
  stops between creating its temporary file and putting it in place, lines 348-365
  (`Updates.DocumentedContract`); of all single failures, exactly six positions for each
  binary break it (`Updates.ContractUnderOneFault`). The binary's only copy is then its
  backup (`Updates.BinaryIsLost`), which a second attempt deletes (`Updates.OnlyCopyIsLost`).
  An update that is stopped can leave the same behind; `Updates.NextUpdateLosesExactly` says
  when the next one then deletes the copy.
  The variant that also restores the name in progress meets the comment whenever no rename
  of the rollback fails.
- A plain number of seconds is multiplied in 64-bit arithmetic, so some huge numbers pass
  the range check. Acceptance depends on the number modulo 2^55 only, but the accepted
  numbers are more than those that agree modulo 2^55 with an intended one
  (`Durations.AcceptedMeansIntended`, `Durations.AcceptedButNotIntended`). An accepted
  number is one an operator means exactly when its product fits 64 bits
  (`Durations.AcceptedAsWritten`).
- `Compare` ignores a leading "v" only once, and does not trim behind it:
  `Versions.LeadingV` gives the exact condition, for all strings.
  Against section 11 of Semantic Versioning 2.0.0 it is, for numbers that fit 64 bits,
  wrong exactly about pre-releases of one version that do not rank equal, and about a
  pre-release and its own release (`Versions.AgreesExactly`).
- A revocation that stops between its two statements leaves a revoked device without an
  audit row, for ever (`PairingRuns.StoppedRevocationLosesItsRow`,
  `PairingRuns.MissingRowIsNeverWritten`), and a login can be logged after the device's
  revocation is complete (`PairingRuns.LoginSucceedsAfterRevocation`).
- Session expiry matches its specification only under a clock that does not go back
  (`Sessions.ClockGoingBackLosesSession`).
- Validation promises every problem, but returns only the empty bind address when there is
  one (`Configuration.Validate`).
- The names of open log groups are not examined (`Redaction.OpenGroupNamesAreNotExamined`).

## Model

| member | source | states |
|---|---|---|
| `Migrations.ApplyKeepsInv` | internal/storage/migrate.go:87-129 | every step of every run, with faults and crashes, keeps the ledger a prefix of the newest list and the schema equal to it, and only evolves the database |
| `Migrations.AllRunsKeepInv` | internal/storage/migrate.go:82-204 | the same for every interleaving of any number of runs, of binaries old and new |
| `Migrations.UnrecordedIsNext` | internal/storage/migrate.go:190-196 | in a consistent database the ledger's key conflict catches exactly the migrations somebody else has applied since the snapshot |
| `Migrations.EndingLeavesNoPartialEffect` | internal/storage/migrate.go:173-203 | the step that ends a run changes no data and frees the lock; success means everything the binary knows is applied |
| `Migrations.NewerSchemaIsRefused` | internal/storage/migrate.go:106-117 | in every run, reading the highest version refuses exactly a ledger longer than the binary's list, and passes every other to the loop |
| `Migrations.OnlyCheckedRunsProceed` | internal/storage/migrate.go:113-129 | a run that applies migrations or reports success had, at that read, found the ledger no longer than its list |
| `Migrations.FaultsEndTheRun` | internal/storage/migrate.go:97-109 | a failing database step and a crash end the run, change no data and free the lock |
| `Migrations.FaultFreeRunsProgress` | internal/storage/migrate.go:119-126 | without faults, either nothing was recorded and nobody failed, or some run has everything recorded behind it |
| `Migrations.SomebodySucceeds` | internal/storage/migrate.go:101-128 | when all runs of one binary end with no abort but key conflicts, the ledger is full and one of them succeeded |
| `Migrations.HighestOfPrefix` | internal/storage/migrate.go:206-221 | the highest recorded version of a prefix is its last, or 0 |
| `Migrations.VersionTestIsExact` | internal/storage/health.go:66-77 | in every reachable state the health check's comparison of maxima holds exactly when ledger and schema are this binary's list |
| `Migrations.VersionTestMissesGaps` | internal/storage/health.go:74-77 | a ledger with a gap passes the test, so the prefix invariant is needed |
| `MigrationEngine.InterferenceIsEvolution` | internal/storage/migrate.go:82-86 | the interference allowed between two steps is every way a consistent database can evolve |
| `MigrationEngine.InterferenceIsWhatRunsDo` | internal/storage/migrate.go:82-86 | and exactly what some run of other processes does: every run is covered, and each instance is reached by one |
| `Migrations.EvolutionIsReached` | internal/storage/migrate.go:119-126 | every evolution of a consistent database is the effect of some run |
| `MigrationEngine.SchemaVersion` | internal/storage/migrate.go:71-80 | the loop computes the last version of a well-formed list, which is the highest |
| `MigrationEngine.Handle.EnsureLedger` | internal/storage/migrate.go:131-142 | on success the ledger table exists; alone, that is all that changes |
| `MigrationEngine.Handle.AppliedVersions` | internal/storage/migrate.go:144-167 | the versions recorded at the moment of the read |
| `MigrationEngine.Handle.CurrentVersion` | internal/storage/migrate.go:206-221 | the last recorded version, or 0 |
| `MigrationEngine.Handle.ApplyMigration` | internal/storage/migrate.go:169-204 | script and ledger entry together or not at all; success means the version is recorded |
| `MigrationEngine.Handle.ApplyMissing` | internal/storage/migrate.go:119-126 | the loop, with a snapshot that may be stale: success means the whole list is recorded; alone, exactly the missing ones are applied |
| `MigrationEngine.Handle.Migrate` | internal/storage/migrate.go:82-129 | under any interference the file stays consistent, success means the whole list is recorded, and a newer schema is refused exactly when the third step finds a longer ledger; alone, the outcome and the new state are exact |
| `Updates.Host.InstallAll` | internal/update/update.go:244-387 | the failing operations and the targets on entry decide the outcome, and what every name is left with after a failure; at every recorded moment no old binary is lost before the checks pass and nothing else changes; success means all three new, every restart, question and the doctor passed after the last replacement, and no backup left unless removing one failed; a failure ends with the restart of every service, in order, on what is left; if the rollback's renames work, every restart sees all new or all old |
| `Updates.OutcomeIsDetermined` | internal/update/update.go:340-387 | exactly one outcome comes of given faults and targets |
| `Updates.OutcomeIsComputed` | internal/update/update.go:340-387 | it is the one a function computes from them before the update |
| `Updates.LoneFaultOutcome` | internal/update/update.go:340-383 | with all targets present and one failing operation, its position alone gives the outcome |
| `Updates.OneFaultIsRolledBack` | internal/update/update.go:329-334 | then no rename of the rollback fails |
| `Updates.OneFaultCanHitTheRollback` | internal/update/update.go:330-334 | with a target missing on entry one can |
| `Updates.Host.ReplaceEach` | internal/update/update.go:340-370 | the replacement loop: how far it gets, by the operations that fail, and what each name is left with |
| `Updates.Host.ReplaceAll` | internal/update/update.go:340-370 | the loop with its rollback: the outcome and every name's state, from the faults |
| `Updates.Host.ReplaceOne` | internal/update/update.go:341-369 | one name: which of its nine operations may fail with what effect on target and backup |
| `Updates.Host.Rollback` | internal/update/update.go:329-339 | every listed name is restored or left in its backup as its rename works or fails, other names untouched, then every service restarted, each by its name and in order |
| `Updates.Host.RestartAll` | internal/update/update.go:335-337 | exactly one restart for each service, in order, whether or not it works |
| `Updates.Host.CheckAll` | internal/update/update.go:371-383 | exactly the restarts, activity checks and doctor up to the first that fails, in order |
| `Updates.Host.DiscardBackups` | internal/update/update.go:384-386 | only backups change, and none remains unless removing one failed |
| `Updates.Host.Confirm` | internal/update/update.go:371-387 | with all three in place: checks passed and backups discarded, or every name rolled back as its rename allows |
| `Updates.Host.CheckRelease` | internal/update/update.go:322-326 | accepts exactly the releases in which all three binaries are present and not empty |
| `Updates.DocumentedContract` | internal/update/update.go:242-243 | a failed update restored every old binary, leaving no backup but older ones, if and only if, as the faults and the targets on entry tell beforehand, no rename of the rollback fails and, unless the variant is used, no replacement stops in the middle |
| `Updates.ContractUnderOneFault` | internal/update/update.go:242-243 | the same for one failing operation, by its position |
| `Updates.BinaryIsLost` | internal/update/update.go:348-367 | one failure while a binary is being replaced leaves its only copy in the backup and the others as they were |
| `Updates.OnlyCopyIsLost` | internal/update/update.go:343-346 | the next update then fails without any of its operations failing, and deletes that copy |
| `Updates.Host.OneFaultLosesABinary` | internal/update/update.go:340-370 | the first, on any host on which exactly one such operation fails |
| `Updates.Host.RetryAfterFailure` | internal/update/update.go:340-370 | the second, on any such host, for two updates in a row |
| `Updates.EveryMomentHasACopy` | internal/update/update.go:327-386 | wherever an update is stopped, every binary that existed on entry has a copy, in place or in its backup |
| `Updates.NextUpdateLosesExactly` | internal/update/update.go:343-346 | the next update leaves none exactly when the copy was only in the backup, the update gets as far as that binary, and removing the backup does not fail |
| `Updates.Host.UpdateAfterStop` | internal/update/update.go:340-387 | the same for the update as it runs, with its outcome |
| `Updates.Host.Install` | internal/update/update.go:211-240 | the single-binary installer never loses the old binary; success, and the place of the old bytes after each failure, from the faults |
| `Base64.DecodeExactly` | internal/identity/identity.go:181 | a string decodes to exactly the bytes whose encoding it spells once line breaks are skipped and unused bits cleared |
| `Base64.FromSextetsExactly` | internal/identity/identity.go:181 | groups of six bits decode to bytes exactly when, unused bits cleared, they are those bytes' groups |
| `Base64.RoundTrip` | internal/identity/identity.go:172-176 | decoding inverts encoding on all byte strings |
| `Base64.OtherSpellings` | internal/identity/identity.go:181 | a line break anywhere gives another string for the same bytes |
| `Base64.UnusedBitsAreIgnored` | internal/identity/identity.go:181 | so do other unused low bits |
| `Base64.Alphabet` | internal/identity/identity.go:181 | the URL-safe alphabet and nothing else, padding included |
| `Base64.StandardExamples` | internal/identity/identity.go:172-176 | the examples of section 10 of RFC 4648 for one, two and three bytes |
| `Pairing.AcceptedUntilItExpires` | internal/identity/identity.go:167-200 | a token made at t parses back to the same device and key exactly while unix(now) <= unix(t + 10 min), for envelopes within the size limit that name a device |
| `Pairing.AcceptedExactly` | internal/identity/identity.go:179-200 | of all strings, exactly those that pass each of the tests, with their limits |
| `Pairing.AcceptedWasMadeByTheHolder` | internal/identity/identity.go:185-199 | any accepted envelope was made as a token, within its lifetime, by the holder of its key; an answer to a challenge never passes for one |
| `Registry.RegisteredExactlyWhenNew` | internal/identity/identity.go:211-240 | the transaction registers exactly when no statement fails and id, key and hash are new, whatever its look-ups answer, and otherwise changes nothing |
| `Registry.RefusedExactly` | internal/identity/identity.go:206-226 | which refusal comes: look-ups that do not fail are obeyed in order; a string that does not parse is rejected and audited |
| `Registry.RegisteringEvolves` | internal/storage/migrate.go:42-66 | a registration keeps all table invariants |
| `Registry.ReplaceEvolves` | internal/identity/identity.go:205-241 | so does every outcome of presenting a token |
| `Registry.RowsAreCounted` | internal/storage/migrate.go:42-66 | as many devices as tokens and pairing rows, never more revocation rows than revoked devices |
| `Authentication.ActOnTables` | internal/identity/identity.go:205-294 | every step keeps the tables consistent, only moves them forward, and preserves what each revocation in progress owes |
| `Authentication.ChallengesStep` | internal/identity/auth.go:30-79 | every step keeps the account of challenges, calls and successes |
| `Authentication.AllRunsKeepInv` | internal/identity/auth.go:30-79 | both invariants in every run with faults, stops and restarts |
| `Authentication.PastIsHistory` | internal/identity/auth.go:64 | the tables a call is recorded to have read are the run's own at that step |
| `PairingRuns.EverySuccessIsJustified` | internal/identity/auth.go:55-79 | every success answers its own challenge, before it expires, by a signature verifying under the registered key of a device paired earlier and active when read; no challenge yields two |
| `PairingRuns.ChallengesBalance` | internal/identity/auth.go:49-59 | challenges issued equal those open plus those taken plus those lost in a restart |
| `PairingRuns.ReplayGoesNowhere` | internal/identity/auth.go:56-63 | a challenge that was taken gets no later call any further |
| `PairingRuns.StepsAreAudited` | internal/identity/auth.go:30-79 | the one audit row each refusal and each success leaves, with its reason |
| `PairingRuns.RestartForgets` | internal/identity/auth.go:26-28 | a restart forgets the open challenges and the panel's calls, and touches no table |
| `PairingRuns.StepChallengesSoundly` | internal/identity/auth.go:31-50 | a challenge is issued only by a call that read its device as active, and dated by that call |
| `PairingRuns.OnlyRegisteredAreChallenged` | internal/identity/auth.go:30-53 | in every run only registered devices are challenged |
| `PairingRuns.DevicesOnlyMoveForward` | internal/identity/identity.go:205-294 | each step moves a device at most from absent to active or active to revoked; rows correspond at every step |
| `PairingRuns.RegistrationsDiffer` | internal/identity/identity.go:211-226 | two registrations in one run never share id, key or token hash |
| `PairingRuns.EnvelopeRegistersOnce` | internal/identity/identity.go:205-241 | however many strings read as one envelope, by spelling or by text, at most one registers it |
| `PairingRuns.HonestLoginSucceeds` | internal/identity/auth.go:30-79 | undisturbed, an active device logs in exactly when its answer verifies |
| `PairingRuns.LoginSucceedsAfterRevocation` | internal/identity/auth.go:64-78 | a login can succeed and be logged after its device's revocation is complete |
| `PairingRuns.StoppedRevocationLosesItsRow` | internal/identity/identity.go:283-294 | stopping between the two statements leaves a revoked device without its row |
| `PairingRuns.MissingRowIsNeverWritten` | internal/identity/identity.go:284-291 | and no later step writes it |
| `IdentityEngine.OthersAreFound` | internal/identity/identity.go:205-294 | every step another process can take is among the interference the repository's methods allow, for any call and for one that owes an audit row |
| `IdentityEngine.OtherCallsAreMixed` | internal/identity/auth.go:49-59 | and every step of another call is among what the authenticator's map may undergo |
| `IdentityEngine.Repository.Replace` | internal/identity/identity.go:205-241 | outcome and tables are those of the specified transaction on the tables it found; rejected exactly when the string does not parse; the invariants are kept |
| `IdentityEngine.Repository.Register` | internal/identity/identity.go:212-237 | the transaction step by step on a working copy equals its specification under the same faults |
| `IdentityEngine.Repository.Get` | internal/identity/identity.go:271-282 | the device as found, a failed read counting as none |
| `IdentityEngine.RevokingEvolves` | internal/identity/identity.go:283-294 | revoking keeps the tables consistent; recorded means marked and on record, a failed row means marked and not on record |
| `IdentityEngine.RevokedAsInTheSteps` | internal/identity/identity.go:283-294 | the two statements are the two steps of the interleavings |
| `IdentityEngine.Repository.Revoke` | internal/identity/identity.go:283-294 | refused exactly when the first statement fails or finds the device not active, and then with the tables as found; otherwise the device is revoked, and recorded exactly when the second statement does not fail; the tables stay consistent |
| `IdentityEngine.Repository.Audit` | internal/identity/identity.go:243-249 | one row at best effort, after others' steps |
| `IdentityEngine.AuditedAtEvolves` | internal/identity/identity.go:243-249 | such a row keeps the tables consistent |
| `IdentityEngine.Authenticator.IssueChallenge` | internal/identity/auth.go:30-53 | issues exactly when the read finds the device active and random bytes can be had, for two minutes, into the map as other calls left it; otherwise audits; the tables stay consistent |
| `IdentityEngine.Authenticator.Verify` | internal/identity/auth.go:55-79 | whatever other calls and processes do, the challenge is gone; success exactly for an open challenge, in time, whose device the read finds active and whose answer verifies under its key; one audit row that says which way out it was, unless writing it fails; the tables stay consistent |
| `IdentityEngine.VerifiedAsInTheSteps` | internal/identity/auth.go:55-79 | a call succeeds exactly when its steps, among those of others, add a success |
| `IdentityEngine.Authenticator.VerifyAnswer` | internal/identity/auth.go:64-78 | the verdict on a challenge taken in time |
| `IdentityEngine.JudgedAsInTheSteps` | internal/identity/auth.go:55-79 | the verdict agrees with the interleaved steps, whatever the tables become between them |
| `Sessions.Server.Verify` | internal/web/server.go:196-210 | a session for a verification that succeeded, if a token can be had, for fifteen minutes |
| `Sessions.Server.Logout` | internal/web/server.go:217-221 | the token is forgotten |
| `Sessions.Server.Protected` | internal/web/server.go:147-163 | admits exactly when the stored expiry has not passed, and so exactly when the history entitles |
| `Sessions.TableFollowsHistory` | internal/web/server.go:150-156 | for any clock, a token is stored exactly while nothing has ended it since it was issued |
| `Sessions.AdmittedExactlyWhenEntitled` | internal/web/server.go:147-163 | with fresh tokens and a monotone clock, admission means issued at most fifteen minutes ago and not logged out since |
| `Sessions.ClockGoingBackLosesSession` | internal/web/server.go:152-155 | the clock assumption is needed |
| `PanelRuns.EveryAdmissionIsEarned` | internal/web/server.go:147-210 | in every run, an admitted request carries a token issued at most fifteen minutes ago for a verification of its own, of a device paired and active when read, by a signature under its registered key |
| `PanelRuns.EarnedTokenIsAdmitted` | internal/web/server.go:206-210 | the token issued for a success is admitted for exactly fifteen minutes |
| `PanelRuns.AlwaysOwned` | internal/web/server.go:196-210 | every session belongs to a success of its own and is no older than it |
| `PanelRuns.RevokedDevicesLoseTheirSessions` | internal/web/server.go:147-163 | a session still admitted after its device was revoked is for a verification that had read the device before; it ends at most fifteen minutes after it was issued, and if it was issued before the revocation, at most fifteen minutes after that |
| `Lifecycle.Agent.Run` | internal/agent/agent.go:90-151 | no error exactly for a stop before the start, one by the time a step from the data directory to the migrations had failed, or a close in time that did not fail; database and PID file are reached exactly when no step before them fails; every heartbeat is handled; under every schedule the handle went to exactly one closer, is closed at most once and not used afterwards, and the PID file's removal was attempted, before Run's own close |
| `Lifecycle.Agent.FinishClosing` | internal/agent/agent.go:344 | when both goroutines have finished, an opened handle has been closed exactly once |
| `Lifecycle.Agent.ServeAndUnwind` | internal/agent/agent.go:133-150 | the PID file's removal is attempted and the handle closed or left to the closing goroutine, whatever serving came to |
| `Lifecycle.UnwoundIsReverseOrder` | internal/agent/agent.go:130-138 | the scan every method keeps says exactly that no close of Run's own comes before the removal attempt of an earlier PID file |
| `Lifecycle.Agent.Shutdown` | internal/agent/agent.go:340-361 | what each way of waiting for the closing goroutine means for the handle |
| `Lifecycle.Agent.CloseStorage` | internal/agent/agent.go:247-262 | the swap gives the handle to exactly one closer |
| `Lifecycle.Agent.StepCloser` | internal/agent/agent.go:247-262 | one step of the closing goroutine: it closes only a handle it took itself, and finishes |
| `Lifecycle.Agent.Heartbeat` | internal/agent/agent.go:312-331 | uses the handle only while it is in its field |
| `Lifecycle.Agent.Open` | internal/storage/storage.go:122-167 | the first step that fails decides: before the driver nothing was acquired, after it what was acquired is closed |
| `Lifecycle.ScanIsSound` | internal/agent/agent.go:238-262 | a trace whose scan is sound closes its handle at most once and uses it only in between |
| `Lifecycle.GoneIsClosedOnce` | internal/agent/agent.go:244-246 | a trace that scans as closed holds exactly one close |
| `Lifecycle.PidIsSound` | internal/agent/agent.go:135-138 | the scan says exactly whether the PID file was written and whether every write was followed by a removal attempt |
| `Paths.ResolveIsContainment` | internal/system/paths.go:184-194 | for absolute dir and relative name, accepted exactly when dir's normalised components are a prefix of those of dir/name; the result is clean and inside |
| `Paths.ResolveRefusals` | internal/system/paths.go:170-182 | the other refusals, each with its reason |
| `Paths.RootAcceptsOnlyItself` | internal/system/paths.go:189 | at the root only the root is accepted |
| `Paths.LeavingAndReturningIsAccepted` | internal/system/paths.go:184-190 | only the net result counts |
| `Paths.LeadingDotIsNothing` | internal/system/paths.go:184-194 | "./name" resolves as the name |
| `Paths.TrailingSlashIsNothing` | internal/system/paths.go:184-194 | so do "name/" and "name/." |
| `Paths.PlainNameIsAppended` | internal/system/paths.go:184-194 | a plain name gives the cleaned directory, a slash and the name |
| `Paths.PrefixTestIsContainment` | internal/system/paths.go:187-192 | the string test with the separator is the component test |
| `Paths.ProperElementIsAdded` | internal/system/paths.go:184-185 | the root has no components, and a proper element adds itself |
| `Paths.DotIsNothing` | internal/system/paths.go:184-185 | a dot element changes nothing |
| `Paths.ExtraSlashesAreNothing` | internal/system/paths.go:184-185 | nor do doubled and trailing slashes |
| `Paths.DotDotUndoes` | internal/system/paths.go:184-185 | two dots undo the proper element before them |
| `Paths.NothingAboveTheRoot` | internal/system/paths.go:184-185 | and do nothing at the root |
| `Paths.CleanIsNormal` | internal/system/paths.go:184 | cleaning keeps the components and is idempotent |
| `Paths.ComponentsOfRender` | internal/system/paths.go:184-185 | components and rendering are inverse |
| `Configuration.Validate` | internal/config/validate.go:32-77 | fine exactly for usable configurations; otherwise exactly the deserved complaints, unless the bind address is empty |
| `Configuration.CheckStoragePath` | internal/config/validate.go:64-70 | complains exactly about an empty or escaping storage path |
| `Configuration.ApplyEnv` | internal/config/config.go:226-259 | each variable that is set and not blank takes effect, others leave the value; an error exactly when a duration does not parse |
| `Configuration.Load` | internal/config/config.go:149-179 | returns exactly the layered configuration when it is usable, and its database is absolute as given or inside the data directory |
| `Configuration.LayersSpelledOut` | internal/config/config.go:226-271 | which variable, file setting or default each setting comes from |
| `Configuration.BoundsSpelledOut` | internal/config/validate.go:17-26 | the bounds in seconds |
| `Configuration.BlankMeansDefaultName` | internal/config/config.go:125-128 | a blank storage path means the default name in the data directory |
| `Configuration.UsableMeansPlaced` | internal/config/config.go:122-140 | a usable configuration's database path is clean, absolute and placed as said |
| `Configuration.RangeComplaints` | internal/config/validate.go:57-62 | range complaints are exactly the deserved ones |
| `Configuration.UsableTimeoutNotAsWritten` | internal/config/config.go:281-283 | an interval in range need not be the number of seconds written |
| `Durations.MeansWhatItSays` | internal/config/config.go:281-283 | n seconds means n seconds exactly when the product fits 64 bits |
| `Durations.SameDuration` | internal/config/config.go:281-283 | two numbers give one duration exactly when they agree modulo 2^55 |
| `Durations.BareSeconds` | internal/config/config.go:275-288 | every numeral, with an optional sign and any leading zeros, denotes that many seconds, wrapped, or is refused |
| `Durations.StandardComesFirst` | internal/config/config.go:278-280 | a string the library takes means what the library says |
| `Durations.OnlyBareSeconds` | internal/config/config.go:281-287 | nothing else is accepted beside the library's own syntax |
| `Durations.AcceptedByClass` | internal/config/validate.go:80-91 | acceptance depends on the residue modulo 2^55 only |
| `Durations.AcceptedMeansIntended` | internal/config/validate.go:80-91 | an accepted number agrees with an intended one exactly when its wrapped duration is whole seconds, and that is when its residue modulo 2^55 is intended |
| `Durations.AcceptedAsWritten` | internal/config/validate.go:80-91 | an accepted number is itself intended exactly when its product fits 64 bits |
| `Durations.AcceptedButNotIntended` | internal/config/config.go:281-283 | an accepted number that agrees with no intended one |
| `Durations.ReachableDurations` | internal/config/config.go:281-283 | the durations numbers of seconds can produce are exactly the multiples of 512 ns |
| `Redaction.IsSensitiveKey` | internal/logging/redact.go:55-66 | exactly the keys containing a fragment, ignoring case |
| `Redaction.SensitiveExactly` | internal/logging/redact.go:36-66 | that is, keys in which one of fourteen words stands, in any case |
| `Redaction.NonInterference` | internal/logging/redact.go:89-132 | over any sequence of calls, values under sensitive keys or in secrets do not influence what the inner handler receives |
| `Redaction.RecordShowsTheRest` | internal/logging/redact.go:89-98 | everything else is written unchanged |
| `Redaction.BoundAttributesShowTheRest` | internal/logging/redact.go:100-106 | bound attributes too: none is dropped and each shows what is expected |
| `Redaction.LinesSpelledOut` | internal/logging/redact.go:114-132 | what is expected of a text, a secret and a group, under a sensitive key and another |
| `Redaction.DropEmptyExactly` | internal/logging/redact.go:93-128 | exactly the empty groups are left out of a group and a record |
| `Redaction.ForwardTwice` | internal/logging/redact.go:89-110 | redacting twice is redacting once |
| `Redaction.RedactionResolvesFirst` | internal/logging/redact.go:119-131 | a value is resolved before it is walked |
| `Redaction.ForwardHandle` | internal/logging/redact.go:89-98 | the record rebuilt attribute by attribute is the specified one |
| `Redaction.ForwardWithAttrs` | internal/logging/redact.go:100-106 | so are bound attributes |
| `Redaction.OpenGroupNamesAreNotExamined` | internal/logging/redact.go:108-110 | a sensitive group name opened on the handler hides nothing |
| `Versions.Compare` | internal/update/update.go:77-96 | the loop computes the order of the two keys |
| `Versions.OrderIsLexicographic` | internal/update/update.go:80-95 | that order is lexicographic on the three numbers |
| `Versions.TotalPreorder` | internal/update/update.go:77-96 | antisymmetric in sign, transitive and total on all strings |
| `Versions.SpacesDoNotMatter` | internal/update/update.go:78 | surrounding white space changes nothing |
| `Versions.LeadingV` | internal/update/update.go:78 | for all strings, exactly when a leading "v" changes nothing |
| `Versions.DottedKey` | internal/update/update.go:79-87 | the key of a dotted version, exactly |
| `Versions.MissingPartsAreZero` | internal/update/update.go:80-87 | missing numbers are zero |
| `Versions.SignsAreRead` | internal/update/update.go:83-86 | a sign belongs to its number |
| `Versions.AgreesWithSemanticVersioning` | internal/update/update.go:77-96 | section 11 of Semantic Versioning 2.0.0 on versions without pre-release |
| `Versions.AgreesExactly` | internal/update/update.go:77-96 | for all versions with or without pre-release and build tags, exactly when the comparison agrees with section 11 of Semantic Versioning 2.0.0, whatever order pre-release tags have; numbers too large for 64 bits included |
| `Versions.PreReleaseIsNotOlder` | internal/update/update.go:82-84 | a pre-release compares equal to its release |

## Left out

- Update downloads, checksum, archive reading, the root check, and file modes: an update starts from the unpacked binaries; a release is a map from names to bytes.
- Update paths: the backups of `Install` and `InstallAll` have different suffixes but are one constructor, as no run uses both.
- Real cryptography, JSON and SHA-256: the scheme, the codec and the hash are parameters with stated laws; a presented signature is assumed not to be a forgery.
- SQLite: transactions are serial and commit or abort; busy waits, WAL files and pragmas are not modelled. A migration script is its version, not its SQL.
- IdentityEngine.Authenticator.IssueChallenge: challenge ids are assumed never issued before, by this call or another.
- Timestamps, token status and last-seen columns that no decision reads; listing devices; creating, loading and deleting the local identity files.
- HTTP handlers, request decoding, the `Authorization` header's prefix, the web assets and the signing bridge's goroutine.
- Lifecycle.Agent.Run: whether closing the database fails is one choice of the environment, like giving up; before the closing goroutine exists nothing runs beside it, so its steps yield only from there on; the PID file is a write and a removal attempt; signals are one cancellation at some step.
- Configuration.Load: the YAML file is a function on configurations; log levels, formats and the library's duration syntax are parameters; settings no property needs are not carried.
- Redaction.IsSensitiveKey: the library's lower-casing is a parameter that maps character by character.
- Redaction.NonInterference: attribute values are texts, groups, secrets and resolving values; the library's limit on the depth of resolution is not modelled.
- Versions.Compare: the library's integer scanning is written out for decimal numbers with an optional sign.
- Pairing.AcceptedUntilItExpires: is stated for times whose expiry fits 64 bits, which all representable times do.
- Command-line dispatch, rendering, doctor, status, host inspection, uninstall, firewall and installer scripts.
