# Passkey ceremonies, modelled and proved

fastapi-passkeys runs WebAuthn registration and authentication on a server: `begin` issues a random
challenge under an opaque handle, `finish` redeems the handle, has an engine verify the browser's
response, enforces ownership and the signature counter, updates the credential repository and writes
one audit event. This project models that system in Dafny and proves what it is meant to guarantee,
mostly as statements about every run.

## How the model is built

- **State machine.** `Ceremony.Step` is one server call as a function of the state (repository, audit
  log, clock) and of what the challenge store returned for the handle, so what is proved of `Run` holds
  with any challenge store. `Ceremony.Serve` closes the loop with the in-memory store.
  `Services` and `Memory` hold the source's classes, which update their fields in place in the order of
  the source; every method is proved to take exactly the step of `Ceremony.ServerStep`.
- **Engine.** An arbitrary pair of verifying functions (`Ceremony.Env`). The theorems about runs name
  what they need of it: `Agreement.Signed` (an accepted assertion was signed over the expected challenge
  by the key of the stored credential), `Counters.CountFromAssertion` / `Counters.VerdictFromKey`
  (the count is read off the assertion; the verdict depends on the stored key only) and
  `Answers.OneError` (a failed assertion is reported as such). `StandardEngine` verifies as WebAuthn
  Level 2 sections 7.1 and 7.2 say, and is shown to meet them.
- **Answers and texts.** What every call answers, offers and logs is stated a second time from the stored
  credentials, the fetched challenge and the engine alone (`Answers`, `Chronicle`, `OverlappingAnswers`);
  what leaves the process is stated as literal text, bits and offsets (`JsonText`, `WireText`,
  `DeviceText`, `Base64Table`, `AuthenticatorData`).
- **Randomness.** Challenges, handles, keys and credential ids are arguments of the calls. Where
  freshness matters it is a stated hypothesis (`Agreement.FreshChallenges`); no theorem assumes that
  handles are fresh, since `BeginOf` names the latest `begin` of a handle.
- **Bytes and text.** base64url, the JSON printer and parser, the token format and the binary
  authenticator data are modelled down to characters and bytes. Strings are sequences of code points
  including surrogates, as in Python. HMAC, SHA-256 and signatures are arbitrary functions.
- **Time.** Non-negative whole microseconds.
- **Overlap.** `Interleaving` runs calls on the SQL row table one `await` at a time, any other call in
  between. Steps use the statements of `SqlRepository`, and a call that runs alone is proved to be the
  serial call (`AloneRuns`).
- **Refinement.** The SQL row table, the Redis store and the stateless token are each related to the
  simple dict, the first two over whole runs.

## Where the code differs from its documentation

- `contrib/stateless.py` and `docs/security.md` say that a replayed assertion fails the counter check and
  a replayed attestation the duplicate check. The first is so exactly when the stored count is not zero
  (`Counters.ReplaySucceedsIff`; `StatelessReplay.ReplayedIffZero` gives the runs, with begin, handle and a
  standard engine, in which a replay is accepted), the second exactly while the credential is stored (`Provenance.RegisteredAgainIff`;
  `AttestationReplay.ReRegisteredIff` gives the runs, with a revocation in between, in which a replay registers
  the credential again).
- The documentation says the counter is required to advance. In any serial run it does
  (`Counters.CounterTraces`). When calls overlap on the SQL back end it need not, since the count is read
  and written in separate statements: `Races.RacingCallsBothSucceed` gives the runs, for any two counts.
  `InterleavedCounters.WriteAdvancesIff` says of each write exactly when it advances the count, and
  `InterleavedCounters.MonotoneIff` of each stretch of a run exactly when its count never falls.
- The audit log tells who owns what after every serial run (`AuditSource.LogTellsOwners`). When calls
  overlap it can end up wrong (`OverlappingAudit.StaleRevocation`). `OverlappingLog.LogTellsIff` says exactly
  when it tells the owner at any point of any run, `OverlappingLog.StoredToldIff` and
  `OverlappingLog.AbsentToldIff` say it in terms of the steps after the registration's report.
- Every call that is answered leaves one terminal event (`OverlappingAudit.OneTerminalEventEach`). A
  registration that crashes on a duplicate key is not answered: `OverlappingCrash.CrashIff` says exactly
  when that happens, `OverlappingCrash.CrashHappens` gives the runs.
- A user with the empty id is offered no allow list; `EndToEnd.LoginIff` says exactly when such a user can
  log in username-first, `EndToEnd.EmptyIdLockedOut` gives one who cannot.
- base64url decoding passes over characters outside the alphabet, yet they count in the length that the
  padding is rebuilt from; `Base64Url.DecodeIgnoresJunkIff` says exactly when they make a difference.
- The codec round-trips up to whole seconds, and up to the joining of surrogate halves that JSON performs;
  `StatelessStore.ConsumePutExactIff` says when nothing else is lost.
- The in-memory `add` overwrites, the SQL one refuses a duplicate (`SqlRepository.AddAgreesIff`).

## Model

| member | source | states |
|---|---|---|
| `Agreement.InjectiveAgreement` | src/fastapi_passkeys/services/authentication.py:79-120 | over every run on the single-use store, two successful authentications answer different begins, and with fresh challenges signed different challenges and so presented different assertions |
| `Agreement.SuccessAnswersItsBegin` | src/fastapi_passkeys/services/authentication.py:54-138 | a success has its own earlier begin: it issued the signed challenge, is redeemed by its expiry and for the first time, names the credential's owner if bound, and the stored key signed |
| `Agreement.StoreHistory` | src/fastapi_passkeys/contrib/memory.py:69-80 | after any run a handle is in the store exactly when it was issued and no finish has named it since; the entry is the challenge of the latest begin |
| `Agreement.FinishRedeems` | src/fastapi_passkeys/contrib/memory.py:74-80 | every successful finish of either ceremony redeems the latest begin of its handle, of its own ceremony, no later than the expiry |
| `Agreement.RedeemedOnce` | src/fastapi_passkeys/contrib/memory.py:58-80 | two successful finishes never share a begin |
| `Provenance.Provenance` | src/fastapi_passkeys/services/registration.py:46-115 | in every reachable state a stored credential was added by one finish that redeemed a registration begin for exactly its owner, carries what the engine attested then, was stored with the attested count, the call's device name and no last use, and has been stored with the same owner and key since |
| `Provenance.LoginTracesToRegistration` | src/fastapi_passkeys/services/authentication.py:79-138 | the user of a successful login is the user a registration was begun for, and the key attested by that registration made the signature |
| `Provenance.ProvenanceInjective` | src/fastapi_passkeys/services/registration.py:67-106 | different stored credentials come from different registrations answering different begins |
| `Provenance.StoredWasRegistered` | src/fastapi_passkeys/services/registration.py:90-106 | a found credential stems from the latest registration of its id and was there unchanged, up to count, name and last use, ever since |
| `Provenance.NeverReowned` | src/fastapi_passkeys/services/registration.py:80-106 | over every run, with any challenge store: while a credential is stored, no registration of its id succeeds for anyone, and owner and key stay those of the registration that added it |
| `Provenance.RegisteredAgainIff` | src/fastapi_passkeys/contrib/stateless.py:7-14 | a replayed attestation fails exactly while its id is stored; otherwise it registers the same key for the same owner again |
| `AttestationReplay.ReRegisteredIff` | src/fastapi_passkeys/contrib/stateless.py:44-71 | for every user, key, id, challenge, secret, revoker and pause: the run begin, finish, revoke, same finish again on the stateless store, with the standard engine, registers the same key for the same owner a second time iff the token is in time and the owner revoked; else it fails with the stated error |
| `AttestationReplay.ReRegistrationHappens` | src/fastapi_passkeys/contrib/stateless.py:7-14 | such a run exists, so a captured handle and attestation register twice |
| `Counters.CounterTraces` | src/fastapi_passkeys/services/authentication.py:99-104 | in every run, with any store, the counts of each stored lifetime of a credential are zeros followed by strictly increasing positive numbers, ending in the stored count |
| `Counters.AcceptedCountsRise` | src/fastapi_passkeys/services/authentication.py:140-148 | of two accepted counts of one stored lifetime the later is greater, or both are zero |
| `Counters.AcceptedAboveAttested` | src/fastapi_passkeys/services/registration.py:95 | every count accepted while a credential is stored is above the count the engine attested at its registration, or both are zero |
| `Counters.CountMonotone` | src/fastapi_passkeys/services/authentication.py:101-104 | a stored count never decreases while its credential stays stored |
| `Counters.ReplayFails` | src/fastapi_passkeys/services/authentication.py:99-104 | an assertion accepted with a positive count is rejected ever after for the same challenge, even if the store returns it again |
| `Counters.StatelessReplayFails` | src/fastapi_passkeys/contrib/stateless.py:7-14 | the same with the stateless store's own `consume` on the same handle |
| `Counters.ReplaySucceedsIff` | src/fastapi_passkeys/contrib/stateless.py:7-14 | a replay for a challenge returned again is accepted exactly if the stored count is still zero |
| `StatelessAgreement.SuccessAnswersABegin` | src/fastapi_passkeys/contrib/stateless.py:44-71 | over every run on the stateless store with an ideal MAC, each success has its challenge and subject from an earlier begin of its ceremony, before that challenge expired |
| `StatelessAgreement.LoginAnswersABegin` | src/fastapi_passkeys/services/authentication.py:54-138 | and a login was signed over that begin's challenge by the stored key, for the owner it names |
| `StatelessAgreement.AcceptedTwiceOnlyAtZero` | src/fastapi_passkeys/contrib/stateless.py:7-14 | over such runs one assertion, under any spelling of any handle, is accepted twice for a stored credential only if both counts were zero |
| `StatelessReplay.ReplayedIffZero` | src/fastapi_passkeys/contrib/stateless.py:44-71 | for every user, key, id, pair of challenges, count and secret: the run begin, finish, same finish again on the stateless store, with the standard engine, accepts the login, and accepts its replay iff the count is zero; no tag is forged, the challenges are fresh and the credential stays stored |
| `StatelessReplay.ReplayHappens` | src/fastapi_passkeys/contrib/stateless.py:7-14 | such a run with count zero exists, so a captured handle and assertion are accepted twice |
| `StatelessReplay.DemoSuits` | src/fastapi_passkeys/engine/base.py:59-68 | a setting in which every hypothesis made about engine and device anywhere in the project holds |
| `AuditSource.LogTellsOwners` | src/fastapi_passkeys/services/authentication.py:149-160 | after every run the fold of the audit log over the empty map is exactly the map from stored ids to owners |
| `AuditSource.RevokeTells` | src/fastapi_passkeys/api/router.py:143-157 | the revocation event removes from the folded map exactly what the handler removed from the repository |
| `AuditSource.RegisterTells` | src/fastapi_passkeys/services/registration.py:106-114 | the event of a registration changes the folded map exactly as the call changed the repository |
| `Isolation.UserIsolation` | src/fastapi_passkeys/contrib/memory.py:29-55 | any calls made for other users, in any order and with any outcome, leave a user's listing unchanged, order included |
| `Isolation.OthersUntouched` | src/fastapi_passkeys/services/authentication.py:122-138 | one call leaves the listing of every user but the one it resolves to |
| `Answers.LoginAnswer` | src/fastapi_passkeys/services/authentication.py:79-148 | over every run, with any store and any engine, what a login answers, told from the stored credentials, the challenge returned and the engine alone: five exclusive cases that leave none out, a refused assertion being answered with exactly the engine's error and a success with the whole credential |
| `Answers.LoginFailsIff` | src/fastapi_passkeys/services/authentication.py:79-160 | with an engine that reports failed assertions as such, each login error has exactly one cause, each as an if-and-only-if |
| `Answers.RegistrationAnswer` | src/fastapi_passkeys/services/registration.py:67-115 | over every run what a registration answers and stores: a refusal with exactly the engine's error, a stored id, or the credential with every attested field, the attested count included, the call's device name and no last use |
| `Answers.BeginOffers` | src/fastapi_passkeys/services/authentication.py:54-77 | over every run what a begin of either ceremony issues: its challenge and handle and, each once, exactly the credentials then stored for the user asked for; none without a user or with the empty id |
| `Answers.OfferedInOrder` | src/fastapi_passkeys/contrib/memory.py:35-36 | a begin lists the credentials in the order in which they were registered |
| `Answers.RunOrdered` | src/fastapi_passkeys/contrib/memory.py:23-55 | in every reachable state the repository holds its credentials in the order of their registrations |
| `Chronicle.LogIsChronicle` | src/fastapi_passkeys/services/registration.py:62-120 | the log of every run is the concatenation of what its calls write, event by event: kind, time, user, credential and counters |
| `OverlappingAnswers.LoginAnswers` | src/fastapi_passkeys/services/authentication.py:79-160 | however calls overlap, what a login answers, told from the challenge it fetched, what its own lookup found, and the engine |
| `OverlappingAnswers.RegistrationAnswers` | src/fastapi_passkeys/services/registration.py:67-115 | however calls overlap, what a registration answers, and the row it inserts with every attested field |
| `Failures.FinishIsAtomic` | src/fastapi_passkeys/services/authentication.py:79-166 | a finish appends exactly one terminal event, a success event iff it succeeds; a failing one leaves the repository unchanged except the removal of a suspected clone under flag-disable |
| `Failures.FailuresStayExplained` | src/fastapi_passkeys/services/authentication.py:79-166 | in every run each failed finish stays explained in the log, at the place where its call found the end: event, user, counters, error and the engine's verdict go together |
| `Failures.UnknownUntilRegistered` | src/fastapi_passkeys/services/authentication.py:158-160 | a removed id stays unknown through every run that does not register it |
| `Failures.AuditBalance` | src/fastapi_passkeys/services/registration.py:62-120 | the log of a run holds one terminal event per finish, one began event per begin and one success event per success |
| `Failures.WrongCeremonyRejected` | src/fastapi_passkeys/services/registration.py:75-78 | over every run: a handle used for the other ceremony is rejected, no credential changes, and the handle is dead for both ceremonies until a begin issues it anew |
| `Failures.RedeemedIsDead` | src/fastapi_passkeys/contrib/memory.py:58-80 | once a finish has named a handle, no later finish can use it unless a begin issues it anew |
| `Ceremony.FindAfterStep` | src/fastapi_passkeys/services/authentication.py:79-160 | every lookup after any call, in terms of the call's outcome |
| `Ceremony.StepEffect` | src/fastapi_passkeys/services/authentication.py:99-120 | whatever a call does, an entry changes only by being registered, by a legal counter advance of its own, by a rename, or by removal |
| `Ceremony.RunUnique` | src/fastapi_passkeys/contrib/memory.py:23-55 | ids stay unique in every reachable state |
| `Ceremony.ServeIsRun` | src/fastapi_passkeys/contrib/memory.py:58-80 | every run on the in-memory store is a run of the store-independent machine |
| `Services.RegistrationService.Begin` | src/fastapi_passkeys/services/registration.py:46-65 | the object's new state and result are the serial step's |
| `Services.RegistrationService.Finish` | src/fastapi_passkeys/services/registration.py:67-115 | the same for finish, on every branch |
| `Services.RegistrationService.Fail` | src/fastapi_passkeys/services/registration.py:117-120 | appends one event at the current time |
| `Services.AuthenticationService.Begin` | src/fastapi_passkeys/services/authentication.py:54-77 | the object's new state and result are the serial step's, an empty user id giving no allow list |
| `Services.AuthenticationService.Finish` | src/fastapi_passkeys/services/authentication.py:79-120 | the same for finish, on every branch |
| `Services.AuthenticationService.ResolveCredential` | src/fastapi_passkeys/services/authentication.py:122-138 | returns the credential the ceremony may use, or emits the failure event of the bound user and changes nothing else |
| `Services.AuthenticationService.EnforceSignCount` | src/fastapi_passkeys/services/authentication.py:140-160 | succeeds without effect iff the count advances or is zero on both sides, else emits and, under flag-disable, removes |
| `Services.Passkeys.RenameCredential` | src/fastapi_passkeys/api/router.py:133-141 | the rename handler takes the serial step |
| `Services.Passkeys.DeleteCredential` | src/fastapi_passkeys/api/router.py:143-157 | the delete handler takes the serial step, audit event included |
| `Memory.InMemoryCredentialRepository.Add` | src/fastapi_passkeys/contrib/memory.py:29-30 | assignment in the ordered dict |
| `Memory.InMemoryCredentialRepository.UpdateUsage` | src/fastapi_passkeys/contrib/memory.py:38-45 | count and last use of an existing entry, in place |
| `Memory.InMemoryCredentialRepository.Rename` | src/fastapi_passkeys/contrib/memory.py:47-50 | renames only an entry of that user |
| `Memory.InMemoryCredentialRepository.Delete` | src/fastapi_passkeys/contrib/memory.py:52-55 | removes only an entry of that user |
| `Memory.InMemoryChallengeStore.Put` | src/fastapi_passkeys/contrib/memory.py:69-72 | stores the challenge under the handle |
| `Memory.InMemoryChallengeStore.Consume` | src/fastapi_passkeys/contrib/memory.py:74-80 | pops the entry whatever its age, returns it unless expired |
| `Repository.FindOfAssign` | src/fastapi_passkeys/contrib/memory.py:29-33 | lookups after an assignment |
| `Repository.FindOfRemove` | src/fastapi_passkeys/contrib/memory.py:52-55 | lookups after a deletion |
| `Repository.ListOfAssign` | src/fastapi_passkeys/contrib/memory.py:35-50 | an assignment that keeps the owner leaves every other user's listing alone |
| `Repository.ListOfRemove` | src/fastapi_passkeys/contrib/memory.py:35-55 | so does a deletion |
| `Repository.ListHoldsOwned` | src/fastapi_passkeys/contrib/memory.py:35-36 | a listing holds exactly the stored credentials of the user |
| `Interleaving.IdentityStable` | src/fastapi_passkeys/contrib/sqlalchemy/__init__.py:48-151 | however calls overlap, a stored credential keeps owner, key and other registered data until it is deleted |
| `Interleaving.RowWasInserted` | src/fastapi_passkeys/contrib/sqlalchemy/__init__.py:87-106 | every stored row was inserted by a step of some registration and has been stored and the same since |
| `Interleaving.ActTable` | src/fastapi_passkeys/contrib/sqlalchemy/__init__.py:87-151 | every step of every call changes the table by at most one of the statements proved to refine the dict |
| `Interleaving.RedeemedOnce` | src/fastapi_passkeys/services/authentication.py:79-84 | however calls overlap, one issue of a challenge is redeemed by at most one task |
| `InterleavedCounters.EveryWriteHasRead` | src/fastapi_passkeys/services/authentication.py:122-130 | every write of a count is preceded by its own lookup, to which it owes its presented count |
| `InterleavedCounters.WriteAdvancesIff` | src/fastapi_passkeys/services/authentication.py:99-104 | exactly what a write does: with no step between lookup and write that adds, deletes or writes the credential the count advances; after a deletion nothing changes; else it advances iff the presented count advances the one the latest such step left |
| `InterleavedCounters.UndisturbedRunsAreMonotone` | src/fastapi_passkeys/services/authentication.py:86-104 | over every stretch of a run in which no lookup and write of the credential are disturbed, its count never falls |
| `InterleavedCounters.LoweredIff` | src/fastapi_passkeys/services/authentication.py:99-104 | any step of any run lowers a stored count iff it is a write overtaken by a higher count written or added since its lookup |
| `InterleavedCounters.MonotoneIff` | src/fastapi_passkeys/services/authentication.py:99-104 | over every stretch during which a credential is stored, its count is monotone iff no write is overtaken |
| `Races.RacingCallsBothSucceed` | src/fastapi_passkeys/services/authentication.py:79-120 | from every reachable state with a device's credential stored, and any two counts above the stored one: two overlapping logins with different challenges, verified by the standard engine, are both accepted and the later count stands |
| `Races.LoweredFromTheStart` | src/fastapi_passkeys/services/authentication.py:79-120 | from an empty server: a registration and two logins, both accepted, after which the stored count is the lower one |
| `OverlappingAgreement.LoginAnswers` | src/fastapi_passkeys/services/authentication.py:79-120 | however calls overlap, a successful login fetched one issued challenge in time and as the first, and verified its response over it against the credential then stored, which the challenge admits |
| `OverlappingAgreement.LoginSigned` | src/fastapi_passkeys/services/authentication.py:86-98 | with symbolic signatures: that challenge was signed by that credential's key, for the bound user |
| `OverlappingAgreement.DifferentLoginsDifferentIssues` | src/fastapi_passkeys/services/authentication.py:79-84 | different successful logins answer different issues |
| `OverlappingAgreement.StoredRowWasRegistered` | src/fastapi_passkeys/services/registration.py:67-106 | every stored row was inserted by a call that fetched a registration challenge issued for exactly its owner, with the id, key and other data the engine verified over it, first of all the attested count |
| `OverlappingAudit.OneTerminalEventEach` | src/fastapi_passkeys/services/registration.py:67-120 | in every overlapping run the log holds one terminal event per answered call, and none for a crashed one |
| `OverlappingCrash.CrashIff` | src/fastapi_passkeys/services/registration.py:84-106 | a registration about to insert crashes on a duplicate key iff, since its own lookup, another call has inserted the id and it has been stored ever since |
| `OverlappingCrash.CrashHappens` | src/fastapi_passkeys/services/registration.py:84-106 | from every reachable state without an id, and any two attestations of it that the engine accepts: two registrations overlap so that one is registered and the other crashes and leaves no event |
| `OverlappingCrash.CrashHasCause` | src/fastapi_passkeys/contrib/sqlalchemy/__init__.py:87-106 | every crashed call of every run crashed so |
| `OverlappingLog.LogTellsIff` | src/fastapi_passkeys/api/router.py:143-157 | in every overlapping run, at every point: the log tells a credential's owner iff the latest step that changed what the log tells agrees with the latest step that inserted or deleted the row |
| `OverlappingLog.TellsIff` | src/fastapi_passkeys/services/authentication.py:149-160 | the log tells a user iff a registration was reported for them and since then no registration for another, no revocation by them and no disabled clone |
| `OverlappingLog.StoredToldIff` | src/fastapi_passkeys/services/registration.py:106-114 | for a stored credential with no report outstanding: the call that inserted it has reported it, and the log tells its owner iff every later step that unsays the owner is followed by a report that names them |
| `OverlappingLog.AbsentToldIff` | src/fastapi_passkeys/api/router.py:148-156 | for an id that is not stored: the log tells no owner iff every report of a registration has been unsaid since |
| `OverlappingAudit.OrderlyLogTells` | src/fastapi_passkeys/api/router.py:143-157 | a condition on starts alone that suffices: if changes of a credential and their reports do not overlap, the log tells the owner whenever none is outstanding, whatever else overlaps |
| `OverlappingAudit.StaleRevocation` | src/fastapi_passkeys/api/router.py:148-156 | from every reachable state with the credential stored: a revocation and a registration of the id that overlap leave it stored while the log tells that it is not |
| `AloneRuns.AloneAuthentication` | src/fastapi_passkeys/services/authentication.py:79-160 | a task that runs without interruption leaves the state, log and outcome of the serial call |
| `AloneRuns.AloneRegistration` | src/fastapi_passkeys/services/registration.py:67-115 | the same for a registration, which alone never meets a duplicate key |
| `AloneRuns.AloneRenames` | src/fastapi_passkeys/api/router.py:133-141 | the same for a rename |
| `AloneRuns.AloneRevokes` | src/fastapi_passkeys/api/router.py:143-157 | the same for a revocation, event included |
| `HonestDevice.NoFalseAlarm` | src/fastapi_passkeys/testing/authenticator.py:144-157 | however many assertions an honest device makes and however many are lost, if finished in creation order none is taken for a clone's, and the stored count never exceeds the device's |
| `HonestDevice.StaysInStep` | src/fastapi_passkeys/services/authentication.py:140-160 | the joint invariant of device and server over every run |
| `HonestDevice.MakeInStep` | src/fastapi_passkeys/testing/authenticator.py:127-170 | making an assertion keeps the invariant |
| `HonestDevice.DeliverInStep` | src/fastapi_passkeys/services/authentication.py:79-120 | finishing an undelivered assertion keeps the invariant and never raises clone suspicion |
| `HonestDevice.LateAssertionAlarms` | src/fastapi_passkeys/services/authentication.py:140-160 | in every joint run: after one assertion was accepted, any other whose signature checks out, with a challenge bound or unbound, is accepted iff it was made later, and reported as a clone's otherwise |
| `EndToEnd.LoginIff` | src/fastapi_passkeys/services/authentication.py:54-120 | for every user id and delay: a login with an honest device succeeds iff it is in time and the device is ready, holding one of the user's credentials or, for the empty user id, holding one as its first key; a failing one changes no credential |
| `EndToEnd.LoginCompletes` | src/fastapi_passkeys/services/authentication.py:54-120 | a ready device always completes username-first begin, get, finish before expiry; the result is the credential then stored, with the device's count |
| `EndToEnd.EmptyIdLockedOut` | src/fastapi_passkeys/services/authentication.py:60 | a user with the empty id who registers second on a device cannot log in username-first at any time, although the device holds the credential |
| `Amidst.LoginCompletes` | src/fastapi_passkeys/services/authentication.py:54-120 | a ready device logs its user in whatever calls run between begin and finish, as long as they use other handles, concern no credential of the user, and leave the finish in time |
| `Amidst.RegistrationCompletes` | src/fastapi_passkeys/services/registration.py:46-115 | a registration with a fresh id completes whatever calls run between begin and finish, as long as they use other handles, do not register the id, and leave the finish in time |
| `EndToEnd.RegistrationCompletes` | src/fastapi_passkeys/services/registration.py:46-115 | registration through an honest device with a fresh id always succeeds in time, and says what is stored on both sides |
| `EndToEnd.RegisterThenLogin` | src/fastapi_passkeys/testing/authenticator.py:84-170 | register, then log in with the same device: always succeeds for a non-empty user id, and for the empty one iff the device's first key is the user's |
| `EndToEnd.LoginKeepsPaired` | src/fastapi_passkeys/testing/authenticator.py:144-146 | after a login the user can log in again, up to the 32-bit counter limit |
| `EndToEnd.SelectsAllowed` | src/fastapi_passkeys/testing/authenticator.py:172-180 | among descriptors of which it holds one, the device picks an allowed credential that it holds |
| `Authenticator.SoftwareAuthenticator.CreateCredential` | src/fastapi_passkeys/testing/authenticator.py:84-125 | keys and response after `create` are those of the specification, under the forced id unless it is empty, else the random one |
| `Authenticator.SoftwareAuthenticator.GetAssertion` | src/fastapi_passkeys/testing/authenticator.py:127-170 | keys and response after `get` are those of the specification |
| `Authenticator.SoftwareAuthenticator.SelectCredential` | src/fastapi_passkeys/testing/authenticator.py:172-180 | the loop returns the first candidate it holds, or fails at the first text that is no base64url, whichever comes first; with neither, the first key held, or nothing |
| `Authenticator.AssertionOutcome` | src/fastapi_passkeys/testing/authenticator.py:139-157 | an unforced `get` changes at most the selected key's count, by one, and the response carries that count |
| `AuthenticatorData.ParseLayout` | src/fastapi_passkeys/testing/authenticator.py:105-113 | a parser written from the standard recovers every field of every record from the emitted bytes |
| `AuthenticatorData.LayoutParse` | src/fastapi_passkeys/testing/authenticator.py:151-155 | whatever it parses is the layout of what it returns |
| `AuthenticatorData.AccumulateFlags` | src/fastapi_passkeys/testing/authenticator.py:72-82 | each flag bit is set iff its trait holds |
| `AuthenticatorData.FlagBits` | src/fastapi_passkeys/testing/authenticator.py:72-82 | the flags byte bit by bit at the positions of section 6.1 of WebAuthn Level 2 |
| `AuthenticatorData.LayoutOffsets` | src/fastapi_passkeys/testing/authenticator.py:105-113 | which bytes of the emitted data hold what, at the offsets of sections 6.1 and 6.5.1 |
| `AuthenticatorData.BigEndian` | src/fastapi_passkeys/testing/authenticator.py:111 | counter and id length are unsigned, most significant byte first |
| `DeviceAnswers.GetAnswers` | src/fastapi_passkeys/testing/authenticator.py:127-180 | everything `get` can do, for every key ring, request and forced count: the three errors, the count kept even when it no longer fits, and a response that a parser written from the standard reads as RP id hash, flags, count, signature and user handle |
| `DeviceAnswers.CreateAnswers` | src/fastapi_passkeys/testing/authenticator.py:84-125 | everything `create` can do: the key it holds afterwards and the attested data a parser reads |
| `DeviceText.ClientDataIs` | src/fastapi_passkeys/testing/authenticator.py:183-192 | the client data, character for character |
| `DeviceText.EnvelopeIs` | src/fastapi_passkeys/testing/authenticator.py:115-125 | the keys of a response, written out |
| `DeviceText.InnersAre` | src/fastapi_passkeys/testing/authenticator.py:159-170 | the keys inside a response, written out |
| `DeviceText.NamedCredential` | src/fastapi_passkeys/services/authentication.py:168-178 | which credential a response names: the text under rawId, or under id when that is missing or falsy |
| `StandardEngine.AssertionVerifies` | src/fastapi_passkeys/engine/pywebauthn.py:171-199 | a device's assertion verifies against the matching key, its challenge, a permitted origin and the same RP |
| `EngineAnswers.AssertionAcceptedIff` | src/fastapi_passkeys/engine/pywebauthn.py:171-199 | the standard engine accepts an assertion, with this verdict, iff it holds client data of the right type, challenge and an expected origin, data for the RP with the user present and verified as required, and a signature of the stored key |
| `EngineAnswers.LoginsAreGenuine` | src/fastapi_passkeys/engine/pywebauthn.py:171-199 | in every run with this engine, with any store, only such assertions log in |
| `StandardEngine.AttestationVerifies` | src/fastapi_passkeys/engine/pywebauthn.py:125-153 | a device's attestation verifies and yields its id and key with count zero |
| `StandardEngine.StandardIsSigned` | src/fastapi_passkeys/engine/base.py:59-68 | the standard engine meets the signature hypothesis of the agreement theorems |
| `StandardEngine.StandardCountsFromAssertion` | src/fastapi_passkeys/engine/pywebauthn.py:171-199 | and the hypotheses of the replay theorems |
| `StatelessStore.ConsumePut` | src/fastapi_passkeys/contrib/stateless.py:44-71 | for every challenge, time and secret, consuming what was put returns it cut to seconds until the cut expiry and nothing afterwards |
| `StatelessStore.ConsumePutExactIff` | src/fastapi_passkeys/contrib/_codec.py:21-69 | exactly when only sub-second parts are lost |
| `StatelessStore.AcceptedWasPut` | src/fastapi_passkeys/contrib/stateless.py:49-71 | under an ideal MAC every accepted handle, however spelled, yields an earlier challenge as received, no later than its expiry |
| `StatelessStore.HandlesSeparate` | src/fastapi_passkeys/contrib/stateless.py:44-47 | two challenges get the same handle iff they are received alike |
| `StatelessStore.PresentedPut` | src/fastapi_passkeys/contrib/stateless.py:58-66 | the split at the first dot recovers body and tag |
| `WireText.BodyIs` | src/fastapi_passkeys/contrib/stateless.py:44-47 | the body that is signed, character for character, for both ceremonies |
| `WireText.TokenIs` | src/fastapi_passkeys/contrib/stateless.py:44-47 | the token: body and tag in base64url with a dot between them |
| `WireText.EntryIs` | src/fastapi_passkeys/contrib/redis/__init__.py:41-46 | the text and the deadline that the Redis store writes, character for character |
| `WireText.DecodesIff` | src/fastapi_passkeys/contrib/_codec.py:41-69 | the decoder returns a challenge iff the payload spells exactly that challenge, with the keys written out |
| `WireText.RejectsIff` | src/fastapi_passkeys/contrib/_codec.py:41-69 | and returns nothing exactly for the payloads no challenge can be read from |
| `Codec.ChallengeToPayload` | src/fastapi_passkeys/contrib/_codec.py:21-38 | the dict built in place has exactly the stated items |
| `Codec.PayloadRoundTrip` | src/fastapi_passkeys/contrib/_codec.py:41-69 | decoding an encoded challenge after dumping, in either style, and loading gives the challenge as received |
| `Codec.ReceivedIsTruncatedIff` | src/fastapi_passkeys/contrib/_codec.py:26-27 | only the sub-second parts are lost iff no subject string spells a character as two surrogates |
| `Codec.WireLookups` | src/fastapi_passkeys/contrib/_codec.py:24-37 | what the decoder finds under each key of a transmitted payload |
| `JsonDumps.RoundTripIff` | src/fastapi_passkeys/contrib/stateless.py:46-70 | loading inverts dumping exactly for values whose strings hold no high surrogate followed by a low one |
| `JsonDumps.LoadsDumps` | src/fastapi_passkeys/contrib/stateless.py:46-70 | what loading gives back for every dump, sorted or not |
| `JsonDumps.SortValueSorts` | src/fastapi_passkeys/contrib/stateless.py:46 | sorted printing lists the keys of every nested dict in ascending order |
| `JsonDumps.GetOfSorted` | src/fastapi_passkeys/contrib/stateless.py:46 | and keeps every lookup |
| `JsonDumps.PrintPrintable` | src/fastapi_passkeys/contrib/stateless.py:46 | a dump is printable ASCII |
| `JsonDumps.PrintSeparates` | src/fastapi_passkeys/contrib/stateless.py:46 | two values print alike iff they agree once surrogate halves are joined |
| `Json.ParsePrinted` | src/fastapi_passkeys/contrib/redis/__init__.py:45-55 | the parser reads a printed value back and stops where it ended, in every style |
| `Json.ParseStringOfEscaped` | src/fastapi_passkeys/contrib/stateless.py:46-68 | string escapes, including surrogate pairs, are undone |
| `JsonText.EscapeTable` | src/fastapi_passkeys/contrib/stateless.py:46 | how each code point is printed, by the literal table of section 7 of RFC 8259 |
| `JsonText.Numeral` | src/fastapi_passkeys/contrib/stateless.py:46 | numbers are printed in decimal, most significant digit first, without leading zeros |
| `JsonText.NoLeadingZero` | src/fastapi_passkeys/contrib/stateless.py:68 | the parser refuses leading zeros |
| `JsonText.LastWins` | src/fastapi_passkeys/contrib/stateless.py:68 | of equal keys the last one counts |
| `Base64Url.DecodeEncode` | src/fastapi_passkeys/_b64.py:12-20 | decoding inverts encoding on every byte string |
| `Base64Url.DecodeEncodePadded` | src/fastapi_passkeys/_b64.py:17-20 | the padded spelling decodes alike |
| `Base64Url.EncodeInjective` | src/fastapi_passkeys/_b64.py:12-14 | encoding is injective |
| `Base64Url.EncodeShape` | src/fastapi_passkeys/_b64.py:12-14 | only the 64 digits, exactly the ceiling of 4n/3 of them |
| `Base64Table.EncodeReadsTable` | src/fastapi_passkeys/_b64.py:12-14 | digit i of an encoding is the character of the literal table of RFC 4648 section 5 at the i-th six bits of the data |
| `Base64Table.DecodeReadsTable` | src/fastapi_passkeys/_b64.py:17-20 | a text spelled by that table, or with the standard alphabet's last two characters, decodes to the bytes its six-bit values amount to, bit by bit; exactly the lengths one above a multiple of four are refused |
| `Base64Url.RebuiltPaddingIsStrippedPadding` | src/fastapi_passkeys/_b64.py:17-20 | the rebuilt padding is the stripped one |
| `Base64Url.DecodeNotInjective` | src/fastapi_passkeys/_b64.py:17-20 | two texts that decode to the same bytes |
| `Base64Url.DecodeSkipsJunk` | src/fastapi_passkeys/_b64.py:17-20 | decoding scans the text without characters outside the alphabet, padded by the length of the text with them |
| `Base64Url.DecodeIgnoresJunkIff` | src/fastapi_passkeys/_b64.py:17-20 | such characters make no difference iff the paddings rebuilt with and without them both complete the digits or neither does |
| `Base64Url.JunkCanMatter` | src/fastapi_passkeys/_b64.py:17-20 | a text that decodes and the same text with one such character that does not |
| `Base64Url.ScanThenPads` | src/fastapi_passkeys/_b64.py:17-20 | appended pads decide whether decoding succeeds, never what it yields |
| `StoreWindows.TimeAgreement` | src/fastapi_passkeys/contrib/redis/__init__.py:41-61 | on first redemption Redis accepts only if stateless does, that only if memory does, memory exactly until expiry; all accept up to one second before, and return the same challenge |
| `StoreWindows.DisagreeOnlyInLastSecond` | src/fastapi_passkeys/contrib/stateless.py:49-56 | any disagreement falls within the last second before expiry |
| `StoreWindows.StoresDiffer` | src/fastapi_passkeys/contrib/redis/__init__.py:44 | a concrete challenge on which all three differ there |
| `StoreRuns.RedisRefinesMemory` | src/fastapi_passkeys/contrib/redis/__init__.py:41-61 | at every point of every run of puts and redemptions, for every handle: what Redis would return memory would too; what memory would return Redis would too until a second before the expiry |
| `StoreRuns.RedeemedStaysGone` | src/fastapi_passkeys/contrib/redis/__init__.py:48-51 | over every run: once a handle was redeemed neither store returns anything for it at any later point unless it was put anew |
| `StoreWindows.ClampedTtl` | src/fastapi_passkeys/contrib/redis/__init__.py:44 | when the time to live is clamped to one second, the payload's expiry alone decides |
| `RedisStore.ReadPut` | src/fastapi_passkeys/contrib/redis/__init__.py:41-61 | the exact times at which Redis redeems a challenge, and what it returns |
| `RedisStore.RedisChallengeStore.Put` | src/fastapi_passkeys/contrib/redis/__init__.py:41-46 | sets one key with payload and deadline and no other |
| `RedisStore.RedisChallengeStore.Consume` | src/fastapi_passkeys/contrib/redis/__init__.py:48-61 | deletes the key whatever it returns, and returns what was stored if alive and unexpired |
| `SqlRepository.TableRefinesDict` | src/fastapi_passkeys/contrib/sqlalchemy/__init__.py:87-151 | over every sequence of calls adding only absent ids, table and dict give the same lookups and the same set of credentials per user |
| `SqlRepository.StepAgrees` | src/fastapi_passkeys/contrib/sqlalchemy/__init__.py:120-151 | one call of either kind keeps table and dict in agreement |
| `SqlRepository.AddAgreesIff` | src/fastapi_passkeys/contrib/sqlalchemy/__init__.py:87-106 | an add keeps them alike iff the id was absent or held the very same credential |
| `SqlRepository.RowRoundTrip` | src/fastapi_passkeys/contrib/sqlalchemy/__init__.py:63-78 | every credential survives the conversion to a row and back |
| `DeviceText.TransportTexts` | src/fastapi_passkeys/contrib/sqlalchemy/__init__.py:95 | the transports as the database spells them |
| `DeviceText.Columns` | src/fastapi_passkeys/contrib/sqlalchemy/__init__.py:87-106 | which column holds which field |
| `SqlRepository.SqlAlchemyCredentialRepository.ListByUser` | src/fastapi_passkeys/contrib/sqlalchemy/__init__.py:113-118 | returns each credential of the user once and no other, in any order |
| `SqlRepository.SqlAlchemyCredentialRepository.AddCredential` | src/fastapi_passkeys/contrib/sqlalchemy/__init__.py:87-106 | inserts iff the id is absent, every other lookup unchanged; a duplicate changes nothing |
| `SqlRepository.SqlAlchemyCredentialRepository.RecordUsage` | src/fastapi_passkeys/contrib/sqlalchemy/__init__.py:120-129 | afterwards every lookup is as before, except that the credential with that id, if any, has the new count and time |
| `SqlRepository.SqlAlchemyCredentialRepository.RenameCredential` | src/fastapi_passkeys/contrib/sqlalchemy/__init__.py:131-141 | afterwards every lookup is as before, except that the credential with that id has the new name if it is that user's |
| `SqlRepository.SqlAlchemyCredentialRepository.DeleteCredential` | src/fastapi_passkeys/contrib/sqlalchemy/__init__.py:143-151 | afterwards every lookup is as before, except that the credential with that id is gone if it was that user's |

## Left out

- The engine adapter and the `webauthn` library: `Env` is any engine whose failures are `PasskeyError`s, and `StandardEngine` states what such an engine checks. Other exceptions of an engine are not modelled.
- Attestation statements, CBOR and COSE: an injective wrapping of the authenticator data stands for the attestation object; the transports a response lists are left out with JSON lists.
- SHA-256, HMAC and signatures are functions with the stated properties; timing-safe comparison is equality. Quality of randomness is not modelled.
- Responses given as text: the router always passes dicts. JSON lists, floating-point numbers and non-ASCII bodies are not modelled; no body the store signs contains them.
- `Codec.PayloadRoundTrip`: microseconds are exact, so the rounding of `timestamp()` as a float, which can show only for dates beyond 2514, is not modelled; nor are dates before 1970 or after 9999.
- `Codec.PayloadToChallenge`: its outcome `Unmodelled` marks payloads on which the decoder raises what it does not catch, or builds a challenge with a subject that is not text or a time before 1970; `StatelessStore.AcceptedWasPut` shows that no handle under an ideal MAC reaches it.
- `StoreWindows.TimeAgreement`: Redis and the application share one clock, and a key lives up to its deadline inclusive, to the microsecond.
- `Interleaving.IdentityStable`: each statement commits in one step; transactions, isolation levels, retries and lost connections are not modelled, and begins appear only as the challenge they issue.
- Each serial call reads the clock once; the source reads it again for later events of the same call.
- `challenge_ttl` is not negative.
- Routing, schemas, hooks, error handlers, configuration parsing, logging sinks, the demo page: no state of their own.
