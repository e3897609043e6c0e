# A verified model of tabby-sync

tabby-sync is a small self-hosted server that keeps Tabby terminal
configurations for several users, encrypted at rest in SQLite. This project
models its core in Dafny and proves what that core promises.

* `Prelude`, `Numerals`: shared types, decimal and big-endian encodings of int64.
* `Envelope`: the encryption envelope. A ciphertext is a symbolic value tied, by
  a proved lemma, to the GCM call on the real key string and associated data.
* `ConfigStore`, `EncryptedStore`: the SQLite store and the encrypting store
  around it, as classes whose methods are proved against functions on tables.
* `PlaintextMap`, `Isolation`: every sequential run of the two stores is a run of
  a plain map, and users do not see each other.
* `Interleaving`: a step machine with any number of concurrent PATCH, POST and
  DELETE requests, arbitrary clock readings and a failure possible at any step.
  `StagedCreate`, `Versions`, `PatchHistory`, `PatchEffect`, `Outcomes`,
  `Quiescence` and `Quota` prove properties of all its runs.
* `RateLimit`: the token-bucket limiter and its sweep of idle buckets.
* `FirstBoot`: the container entrypoint's first-boot lock, with crashes.
* `Users`, `UserCommands`: the users file, its loader and index, and
  `user add | rm | rotate`.
* `Migrations`: the migration loader and any number of concurrent runners.
* `Replacement`, `SecretOrder`, `Scrub`: removal of secrets from log messages; which
  secrets can come back, and when the order of two secrets matters.

Clock readings, random nonces and fresh tokens are parameters, so every result
holds for all of them. `dafny verify dfyconfig.toml` checks the project.

Seven expectations that the repository's comments raise hold of its code only
under a condition, which is stated and proved.

* A PATCH is not always one atomic change: a name or content field that equalled
  the row when it was read is dropped from the write
  (`PatchEffect.OvertakenPatchSplits`). A changing PATCH is atomic exactly when no
  dropped field has gone stale and some named field still differs from the row it
  meets (`PatchEffect.ChangingPatchIsAtomicIff`). A PATCH that changes nothing is
  always atomic (`PatchEffect.MetadataPatchIsAtomic`).
* The quota of 50 can be exceeded by overlapping creates. The exact bound is 49
  plus the overlap (`Quota.QuotaBound`, `Quota.QuotaBoundIsReached`).
* The limiter reads its clock before it takes its mutex, so readings can be out of
  order. Over all runs with a given skew, sweeping idle buckets changes no answer,
  and the limit survives it, exactly when twice the skew is at most a window plus
  one nanosecond (`RateLimit.SkewToleranceIff`).
* The first-boot lock is not mutually exclusive, because the exit trap removes the
  lock whoever owns it (`FirstBoot.ExitTrapBreaksTheLock`). It is held exclusively
  for exactly as long as no process that has unlocked exits with its trap still set
  while another holds the lock (`FirstBoot.LockHeldIff`), and always until users.yml
  exists (`FirstBoot.ExclusiveUntilBooted`).
* The users-file loader does not check hashes, although the index it feeds treats
  a repeated hash as already excluded, and `user add` can spoil a file edited by
  hand. The result of an add loads exactly when the name is new after trimming, an
  id is to spare and the hash is new (`UserCommands.AddLoadsIff`); files made by the
  commands alone always load (`UserCommands.ReachableFilesLoad`).
* A scrubbed secret can come back through the markers that replace it and the other
  secrets. Some message and list of secrets keep a secret exactly when some part of
  the marker can help to spell it (`Replacement.CanSurviveIff`).
* The scrubber's result can depend on the order of its arguments when two secrets
  have the same length. Unless one of them ends with the marker and the other starts
  with it, the order of two such secrets is immaterial on every message exactly when
  one of them is the marker, or they do not overlap and neither can be made by
  replacing the other (`SecretOrder.OrderMattersIff`).

## Model

| member | source | states |
|---|---|---|
| Numerals.FormatIntRoundTrip | internal/crypto/crypto.go:87-89 | the decimal text of every int64, negative ones and the minimum included, parses back to it |
| Numerals.FormatIntIsCanonical | internal/crypto/crypto.go:87-89 | the decimal text is the one text without plus sign, leading zero or minus zero that reads back as the number |
| Numerals.LiberalReading | internal/cli/usercmd.go:574 | a numeric target may carry a plus sign or leading zeros |
| Numerals.FirstByteWeighsMost | internal/crypto/crypto.go:98-99 | the bytes of an id are read with the first one most significant |
| Envelope.PutUint64 | internal/crypto/crypto.go:98-99 | writes the eight big-endian bytes in place and nothing else |
| Envelope.BuildAAD | internal/crypto/crypto.go:95-101 | fills a fresh 17-byte buffer with version, user and config |
| Envelope.AadRoundTrip | internal/crypto/crypto.go:95-101 | a decoder recovers the (user, config) pair from the associated data, for all int64 pairs |
| Envelope.HkdfInfoInjective | internal/crypto/crypto.go:87-89 | two users have the same key-derivation info string exactly when they are the same user |
| Envelope.DecryptIsGcmOpen | internal/crypto/crypto.go:180-210 | the symbolic opening used by the rest of the model is GCM opening under the derived subkey and canonical associated data |
| Envelope.DecryptIff | internal/crypto/crypto.go:180-210 | any blob, tampered ones included, opens to a plaintext exactly when it is that plaintext's encryption for the same key, ids and nonce |
| Envelope.OneDecryptError | internal/crypto/crypto.go:180-210 | every failure to open is the one decrypt error |
| Envelope.KnownLayout | internal/crypto/crypto.go:87-97 | the version byte is 1, and the derivation string is the documented prefix followed by the user's decimal id |
| Envelope.OpensOnlyInItsOwnRow | internal/crypto/crypto.go:141-210 | an envelope opens, to its plaintext, for exactly the master key, user, config and nonce it was sealed under; an empty plaintext still has a non-empty envelope |
| ConfigStore.NextModifiedAt | internal/store/sqlite/sqlite.go:252-258 | the new timestamp is strictly later than the previous one under any clock: the clock's own reading if that is later, else a millisecond on |
| ConfigStore.AscendingOrders | internal/store/sqlite/sqlite.go:417-443 | the listing order is strictly ascending and holds every owned id once |
| ConfigStore.StagedCreateIsOneInsert | internal/store/sqlite/sqlite.go:310-391 | reserve then finalise equals one insert of the finished row under a fresh id, or no row at all at the last int64 |
| ConfigStore.SqliteStore.CreateConfigWithID | internal/store/sqlite/sqlite.go:310-391 | succeeds exactly when an id is left and the builder gives a valid row for it; then one insert, modified_at after created_at; otherwise no change, and the builder's own error or an invalid patch |
| ConfigStore.SqliteStore.GetConfig | internal/store/sqlite/sqlite.go:396-412 | the row if the user owns it, else not found |
| ConfigStore.SqliteStore.ListConfigsByUser | internal/store/sqlite/sqlite.go:417-443 | the user's rows, ascending by id |
| ConfigStore.SqliteStore.UpdateConfig | internal/store/sqlite/sqlite.go:457-547 | the SET list built clause by clause has the effect of one whole-patch update, with every error case |
| ConfigStore.BuildClauses | internal/store/sqlite/sqlite.go:511-547 | the SET list, built clause by clause, has the effect of the whole patch on the row |
| ConfigStore.UpdateRefusedIff | internal/store/sqlite/sqlite.go:457-510 | an update is refused exactly for a patch that contradicts itself, a row that is not the caller's, or a lost compare-and-set, each with its own error |
| ConfigStore.AnyUpdateKeepsTheClock | internal/store/sqlite/sqlite.go:457-547 | whatever the patch: one row or nothing changes, ciphertext and nonce change together, a change of name or content moves the time forward and a metadata update leaves it, an empty version is stored as none |
| ConfigStore.SqliteStore.DeleteConfig | internal/store/sqlite/sqlite.go:552-568 | removes one owned row, keeps the id counter, else not found |
| ConfigStore.SqliteStore.CountConfigsByUser | internal/store/sqlite/sqlite.go:572-582 | the number of ids the user owns |
| EncryptedStore.Store.CreateConfigPlaintext | internal/store/encrypted/encrypted.go:84-113 | the table and the outcome of an encrypted create; the answer is what a get now returns |
| EncryptedStore.Store.GetConfigPlaintext | internal/store/encrypted/encrypted.go:121-134 | the opened row, not found, or the decrypt error |
| EncryptedStore.GetPlainIff | internal/store/encrypted/encrypted.go:121-134 | a read is not found exactly when the caller does not own the row, and a decrypt error exactly when no plaintext encrypts, for this row, to what is stored |
| EncryptedStore.Store.ListConfigsByUserPlaintext | internal/store/encrypted/encrypted.go:147-161 | all opened rows in order, or the decrypt error |
| EncryptedStore.InnerPatch | internal/store/encrypted/encrypted.go:184-214 | always a valid inner patch; preserves modified_at exactly when name and content already agree |
| EncryptedStore.Store.UpdateConfigPlaintext | internal/store/encrypted/encrypted.go:173-223 | the retry loop, with rivals committing between any read and write, after any lost write and before the final read, ends with the table, answer and attempt count of its specification |
| EncryptedStore.EveryRetryHadARival | internal/store/encrypted/encrypted.go:174-222 | every attempt of that loop but the last met rivals that moved the row's timestamp, so it ends |
| EncryptedStore.LastAttemptDecides | internal/store/encrypted/encrypted.go:173-223 | for any rivals, the loop ends as its last attempt does: the error of its read, or the caller's whole patch compared against that read and written to the row it met, or not found, never a lost race |
| PlaintextMap.CreateRefines | internal/store/encrypted/encrypted.go:84-113 | an encrypted create is one put into the plaintext map |
| PlaintextMap.PatchRefines | internal/store/encrypted/encrypted.go:173-223 | an undisturbed PATCH applies the whole patch to the map and advances modified_at exactly when name or content differs |
| PlaintextMap.DeleteRefines | internal/store/sqlite/sqlite.go:552-568 | a delete is one removal from the map |
| PlaintextMap.ReadsRefine | internal/store/encrypted/encrypted.go:121-161 | get, list and count answer as the map does |
| PlaintextMap.StackRefinesPlainMap | internal/store/encrypted/encrypted.go:84-235 | every sequential run of both stores answers as the plaintext map and ends in the same map |
| PlaintextMap.ListIsPointwise | internal/store/encrypted/encrypted.go:147-161 | on any table, tampered rows included, the list is the ascending pointwise gets, and fails exactly when some owned row does |
| Isolation.OthersLeaveRowsAlone | internal/store/sqlite/sqlite.go:396-582 | another user's request leaves this user's rows as they were |
| Isolation.OwnOutcomeFromOwnRows | internal/store/sqlite/sqlite.go:310-582 | outcomes of get, list, count, update and delete depend on the user's own rows alone, and that of a create on these and the id counter |
| Isolation.AnsweredAsIfAlone | internal/store/sqlite/sqlite.go:310-582 | across any run, a user is answered as if alone on the server with the same id counter at each create |
| Isolation.NonInterference | internal/store/sqlite/sqlite.go:310-582 | two runs agreeing on a user's rows and requests, and on the id counter at that user's creates, agree on every answer to that user |
| Isolation.NoCreatesNoCounters | internal/store/sqlite/sqlite.go:396-582 | a user who creates nothing sees no id counter, so for such a user nothing has to agree but rows and requests |
| Isolation.OthersLeaveRowsAloneConcurrently | internal/store/sqlite/sqlite.go:310-582 | in every interleaving, steps taken for other users leave a user's rows as they were |
| StagedCreate.RunKeepsInvariant | internal/store/sqlite/sqlite.go:310-391 | at every point of every run, an open transaction is the committed table plus its owner's one staged row |
| StagedCreate.CommitIsOneInsert | internal/store/sqlite/sqlite.go:310-391 | the commit step is one atomic insert of the finished row, and the answer is that row |
| StagedCreate.UnfinishedCreateLeavesNothing | internal/store/sqlite/sqlite.go:310-391 | no step of a create that has not succeeded changed the committed table |
| StagedCreate.BuilderRunsOnceOnTheFinalId | internal/store/sqlite/sqlite.go:340-351 | the builder runs at most once, on the id the row is committed under |
| StagedCreate.RowsAlwaysSound | internal/store/encrypted/encrypted.go:84-113 | every committed row opens under its own user and id, was modified after it was created, and is never the sentinel |
| StagedCreate.EmptyVersionsAreNull | internal/store/sqlite/sqlite.go:633-638 | in every run an empty version is stored as none, so "" and NULL are one state |
| Versions.EqualTimestampsEqualContent | internal/store/sqlite/sqlite.go:502-547 | two observations of an id with equal modified_at saw the same owner, name, ciphertext and nonce (no ABA) |
| Versions.ContentChangeAdvances | internal/store/sqlite/sqlite.go:252-258 | modified_at never goes back, and any change of name or content moves it strictly forward |
| Versions.IdsNeverReused | internal/store/sqlite/migrations/001_init.sql:2 | an id that was committed and is gone never comes back |
| PatchHistory.LostRaceHasARival | internal/store/sqlite/sqlite.go:507-509 | a failed compare-and-set means another request moved the row since the read |
| PatchHistory.RetryBound | internal/store/encrypted/encrypted.go:174-222 | a PATCH makes at most one attempt more than other requests moved its row during the call |
| PatchEffect.MetadataPatchIsAtomic | internal/store/encrypted/encrypted.go:207-221 | a PATCH that found nothing to change is one atomic application of its whole patch, at its read or at its compare-and-set (section 2 of RFC 5789) |
| PatchEffect.ChangingPatchIsAtomicIff | internal/store/encrypted/encrypted.go:184-204 | a changing PATCH is one atomic application at its write exactly when no field it dropped has gone stale and some named field still differs from the row it meets |
| PatchEffect.UnmovedPatchIsAtomic | internal/store/encrypted/encrypted.go:184-204 | in particular when nobody moved the row between its read and its write |
| PatchEffect.ChangedRow | internal/store/encrypted/encrypted.go:184-204 | the plaintext row a changing PATCH leaves on top of the row it met |
| PatchEffect.SuccessfulPatch | internal/store/encrypted/encrypted.go:173-223 | every PATCH that answers with a row: each named field held the requested value at its read or right after its write, nothing else was touched, and the row returned is at least as new as its commit |
| PatchEffect.RetryLoopEffect | internal/store/encrypted/encrypted.go:173-223 | the same of the store object's retry loop, for any rivals: a run that answers with a row made one write, after which each named field held at its read or its write and nothing else was touched |
| Outcomes.PatchErrorHasCause | internal/store/encrypted/encrypted.go:173-223 | in every run a PATCH fails only on an injected fault, or because at that moment the row is not the caller's or does not open |
| Outcomes.PostErrorHasCause | internal/api/handlers.go:130-146 | in every run a POST is refused only on counting 50 rows or more, and fails otherwise only on an injected fault or when the ids are used up |
| Outcomes.CountDecidesAt50 | internal/api/handlers.go:130-138 | the count refuses exactly from 50 rows on and changes nothing |
| Outcomes.RequestCanMove | internal/store/encrypted/encrypted.go:173-223 | a request that has not ended can go on unless another one holds the write lock |
| PatchEffect.OvertakenPatchSplits | internal/store/encrypted/encrypted.go:184-201 | a run in which a PATCH of name and content succeeds though the row never holds both |
| Quiescence.AgreementIsQuiet | internal/store/encrypted/encrypted.go:184-221 | if every PATCH of a row agrees with its name and content, then name, ciphertext, nonce and modified_at never change and each PATCH needs one attempt |
| Quota.QuotaBound | internal/api/handlers.go:130-146 | rows plus creates past their check stay below 50 plus the largest overlap, in every run |
| Quota.NoOverlapNoOverrun | internal/api/handlers.go:130-146 | without overlap a user never owns more than 50 rows |
| Quota.QuotaBoundIsReached | internal/api/handlers.go:125-146 | for every overlap of at least one, a run of named creates from the empty table ends with exactly 49 plus that overlap |
| RateLimit.Limiter.constructor | internal/ratelimit/ratelimit.go:52-66 | a rate of at least one and a window of at least a second are kept, smaller ones become one and a second; no buckets |
| RateLimit.Limiter.Allow | internal/ratelimit/ratelimit.go:70-93 | refills, caps and spends one key's bucket and touches no other |
| RateLimit.Limiter.Sweep | internal/ratelimit/ratelimit.go:96-112 | removes exactly the buckets idle for more than two windows |
| RateLimit.DroppingIsHarmlessIff | internal/ratelimit/ratelimit.go:70-112 | forgetting a bucket before a call changes nothing exactly when it would have been full |
| RateLimit.SweepingIsUnobservable | internal/ratelimit/ratelimit.go:70-112 | with readings out of lock order by at most half a window, sweeps at any points change no answer |
| RateLimit.SkewToleranceIff | internal/ratelimit/ratelimit.go:71-72 | over all runs with a given skew, sweeping is unobservable exactly when twice the skew is at most a window plus one nanosecond, and the limit holds with sweeping exactly then; zero skew is lock order |
| RateLimit.SkewBreaksTheLimit | internal/ratelimit/ratelimit.go:96-112 | for every rate and every larger skew, a run within that skew in which a sweep lets more through than the limit |
| RateLimit.KeysAreIndependent | internal/ratelimit/ratelimit.go:70-112 | with or without sweeping, one key's bucket is that of a run with its calls and the sweeps alone |
| RateLimit.AnswersAreIndependent | internal/ratelimit/ratelimit.go:70-112 | and so is every answer to that key |
| RateLimit.LimitHolds | internal/ratelimit/ratelimit.go:70-93 | between two calls on a key, the later one allowed, at most rate plus rate times elapsed over window are allowed, whatever the order of readings |
| RateLimit.LimitHoldsWithSweeps | internal/ratelimit/ratelimit.go:70-112 | the same with sweeps anywhere, for readings out of lock order by at most half a window |
| RateLimit.SpacedIsNeverRejected | internal/ratelimit/ratelimit.go:70-112 | a key whose calls are window over rate apart is never rejected, whatever is swept and in whatever order of other readings |
| RateLimit.AllowedAgainIff | internal/ratelimit/ratelimit.go:70-93 | after any call, and however often the key is rejected since, the next call is allowed exactly when what that call left and what was earned since make a whole token |
| RateLimit.PatientCallIsAllowed | internal/ratelimit/ratelimit.go:70-112 | a call at least window over rate after the last allowed one is allowed, whatever was rejected or swept in between and in whatever order of readings |
| RateLimit.KeysNeverCollide | internal/ratelimit/ratelimit.go:148-153 | two callers share a bucket key exactly when they are the same user or the same host |
| FirstBoot.RunKeepsInvariant | docker-entrypoint.sh:29-80 | until users.yml exists only the lock's owner is between lock and bootstrap, and token and users file agree |
| FirstBoot.BootIsSafe | docker-entrypoint.sh:29-80 | a surviving token matches users.yml and nobody serves without users.yml, with crashes anywhere |
| FirstBoot.UsersWrittenOnce | internal/cli/usercmd.go:156-182 | users.yml is written at most once by any number of processes |
| FirstBoot.ExclusiveUntilBooted | docker-entrypoint.sh:41-60 | two processes are between lock and bootstrap together only once users.yml exists |
| FirstBoot.LockHeldIff | docker-entrypoint.sh:41-60 | in every run the lock excludes all others for exactly as long as no process that has unlocked exits with its trap still set while another holds the lock |
| FirstBoot.LockIsLetGo | docker-entrypoint.sh:41-60 | a live process that took the lock and still owns it is between mkdir and rmdir |
| FirstBoot.FailedBootstrapLeavesNothing | internal/cli/usercmd.go:178-182 | a bootstrap that cannot write users.yml takes its token back and its lock goes |
| FirstBoot.CrashLeavesFiles | docker-entrypoint.sh:41-60 | a crash leaves the files and the lock as they are |
| FirstBoot.TestsDecide | docker-entrypoint.sh:29-58 | each of the three tests for users.yml takes the short way exactly when it is there |
| FirstBoot.ServesUnlessItGivesUp | docker-entrypoint.sh:29-80 | a process that holds the lock, or starts or polls with users.yml there, and does not give up, serves after at most nine steps of its own |
| FirstBoot.PollsAreBounded | docker-entrypoint.sh:61-77 | a process without the lock looks for users.yml at most 51 times |
| FirstBoot.GivesUpAtTheLastLook | docker-entrypoint.sh:61-77 | it gives up only at the 51st look, with users.yml still absent |
| FirstBoot.ExitTrapBreaksTheLock | docker-entrypoint.sh:42-60 | a run in which the exit trap lets two processes hold the lock |
| Users.TrimSpaceOf | internal/auth/users.go:158-172 | trimming takes off all the space on both sides and nothing else |
| Users.HashIsAcceptedIff | internal/auth/users.go:172-176 | a stored hash, in any case and with space around it, is accepted exactly when it is 64 hex characters, and is kept in lower case |
| Users.NormalisedIsNormal | internal/auth/users.go:150-184 | what the loader makes of an entry it accepts unchanged; an accepted user has a positive id, a trimmed non-empty name and prefix and a 64-character hash |
| Users.ValidateEntry | internal/auth/users.go:150-184 | one entry is accepted exactly when it is valid and its id and name are unseen, and comes back normalised |
| Users.ValidateAndNormalise | internal/auth/users.go:144-188 | accepts exactly the files whose entries are valid and whose ids and trimmed names are unique, and returns them normalised in order |
| Users.NewUserSnapshot | internal/auth/store.go:56-77 | builds an exact hash index, or panics exactly on a repeated hash |
| Users.LookupIsScan | internal/auth/store.go:99-122 | the index answers every token hash as a linear scan for an enabled user does |
| Users.UserStore.Reload | internal/auth/store.go:138-145 | swaps in the new file entirely exactly when it loads, and then answers every token from it; an invalid file is refused, a repeated hash panics, and the old snapshot stays in both |
| Users.ReloadsAsItself | internal/auth/users.go:144-188 | a loaded file, written back as it was loaded, loads as itself |
| UserCommands.SearchUser | internal/cli/usercmd.go:572-588 | the first user with that id if there is one, else the first whose name folds equal, else -1 |
| UserCommands.MaxId | internal/cli/usercmd.go:242-247 | the largest id in the file, or zero |
| UserCommands.RunUserAdd | internal/cli/usercmd.go:210-273 | rejects an empty or existing name, otherwise appends one user with the next id, wrapping at the int64 maximum |
| UserCommands.AddRefusedIff | internal/cli/usercmd.go:215-239 | an add is refused exactly for a blank name or one that some user has up to case |
| UserCommands.AddGrantsOneToken | internal/cli/usercmd.go:210-273 | after an add that loads, the new token is the new, enabled user's, under the largest id plus one, and all other tokens are as before |
| UserCommands.CommandKeepsClean | internal/cli/usercmd.go:210-384 | add, rm and rotate keep ids, hashes and folded names distinct and every entry in normal form |
| UserCommands.ReachableFilesLoad | internal/cli/usercmd.go:210-384 | every file reached from a clean one by any commands is accepted and indexed without panic |
| UserCommands.StartingFilesAreClean | internal/cli/usercmd.go:171-177 | the empty file and the bootstrap file are clean |
| UserCommands.RotateReplacesOneToken | internal/cli/usercmd.go:345-384 | after `user rotate` of a found target and reload, the new token is that user's, the old one is nobody's, all others are as before |
| UserCommands.RmRevokesOneToken | internal/cli/usercmd.go:277-342 | after a confirmed `user rm` of a found target the file has one user fewer and loads, that user's token is nobody's, all others are as before |
| UserCommands.MissedTargetChangesNothing | internal/cli/usercmd.go:277-384 | a target nobody answers to, or a removal not confirmed, changes nothing |
| UserCommands.AddLoadsIff | internal/cli/usercmd.go:233-259 | on any loadable file, the result of a successful add loads exactly when no stored name trims to the new one, the largest id is below the int64 maximum and no stored hash is the new one |
| UserCommands.AddCanSpoilAnEditedFile | internal/cli/usercmd.go:233-239 | under any case folding, a loadable file that a successful add makes unloadable |
| UserCommands.HeldIsGapless | internal/cli/usercmd.go:242-248 | in every history from the empty or the bootstrap file, the ids ever held are 1 up to the largest |
| UserCommands.IdIsReusedIff | internal/cli/usercmd.go:242-248 | the id the next add hands out was held before exactly when a larger id than any now in the file was once held |
| Migrations.LoadMigrations | internal/store/sqlite/migrations.go:42-82 | accepts exactly when every file name matches and the versions are a permutation of 1..n; the result is in order, each migration has the digits, name and statements of a file, and no file is left out |
| Migrations.AcceptedNamesAreRendered | internal/store/sqlite/migrations.go:28 | the accepted names are exactly those written from a version below 1000 and an allowed stem |
| Migrations.FileNameParses | internal/store/sqlite/migrations.go:53-69 | reading such a name gives back the version and the stem |
| Migrations.RunAllComposes | internal/store/sqlite/migrations.go:163-167 | statements run in order: first these, then those on the result |
| Migrations.ContiguousIffPermutation | internal/store/sqlite/migrations.go:72-79 | the check after the sort passes exactly on permutations of 1..n |
| Migrations.SchemaStore.ApplyMigration | internal/store/sqlite/migrations.go:150-181 | all statements and one new bookkeeping row, or nothing |
| Migrations.SchemaStore.ApplyMigrations | internal/store/sqlite/migrations.go:91-121 | the loop over pending migrations, stopping at the first failure |
| Migrations.UpgradeStaysInStep | internal/store/sqlite/migrations.go:91-181 | from 1..k recorded, a runner alone ends with 1..k' recorded and exactly those applied, succeeds exactly when all pending ones run, and changes nothing when none is pending |
| Migrations.MigrationsStayInStep | internal/store/sqlite/migrations.go:91-181 | with any number of runners and failures at any point, the recorded versions are 1..k, the schema is exactly those migrations in order, and a runner that finishes leaves nothing pending |
| Migrations.RerunIsNoOp | internal/store/sqlite/migrations.go:84-86 | once all are recorded nothing changes again and a new runner opens no transaction |
| Migrations.StopHasCause | internal/store/sqlite/migrations.go:150-181 | a runner stops only on a fault, on a migration that does not run on the committed schema, or on one somebody else has recorded |
| Migrations.RunnerCanMove | internal/store/sqlite/migrations.go:91-181 | a runner that has not ended can go on unless another one holds the write lock |
| Migrations.RunnersEnd | internal/store/sqlite/migrations.go:91-181 | in every run each runner takes boundedly many steps |
| Replacement.OutputIsMadeOrKept | internal/cli/cli.go:273 | a text in the output of one replacement was spelt with the help of a marker, or was in the message and is not the text replaced |
| Replacement.ReplacementAddsNothing | internal/cli/cli.go:273 | one replacement leaves nothing of a clean text it replaces and creates no other clean text |
| Replacement.NoSecretSurvives | internal/cli/cli.go:263-276 | in any order, a clean secret is gone from the result, later replacements included |
| Replacement.PlainIsClean | internal/cli/cli.go:263-276 | a secret without angle brackets that is not part of the word in the marker is clean |
| Replacement.CanSurviveIff | internal/cli/cli.go:263-276 | some message and list of secrets, longest first, keep a non-empty secret of the list exactly when it is not clean |
| Replacement.SurvivesAloneIff | internal/cli/cli.go:273 | with no other secrets, some message keeps a secret exactly when it can be read from inside the marker, or runs into it and is not found earlier in its own text |
| Replacement.MarkerTextSurvives | internal/cli/cli.go:273 | under its own replacement, a secret that is part of the marker survives in exactly the messages that hold it |
| SecretOrder.IndependentCommute | internal/cli/cli.go:257-274 | the order of two secrets of one length is immaterial if one is the marker, or they do not overlap and neither can be made by replacing the other |
| SecretOrder.OrderMattersIff | internal/cli/cli.go:257-274 | and only then, for any two secrets of one length unless one ends with the marker and the other starts with it |
| SecretOrder.OverlapMatters | internal/cli/cli.go:257-274 | overlapping secrets of one length are told apart by some message, if neither is part of the marker and it is not so that one ends with the marker and the other starts with it |
| SecretOrder.AbsorbCommute | internal/cli/cli.go:257-274 | a secret that ends with the marker and one that starts with it, sharing nothing else, overlap and can still be replaced in either order |
| SecretOrder.OverlapCanBeHarmless | internal/cli/cli.go:257-274 | such a pair exists |
| Scrub.ArrangementsAgree | internal/cli/cli.go:257-268 | if different secrets of one length are independent or only absorb each other, every order the sort may produce gives one result |
| Scrub.WholeSecretIsReplaced | internal/cli/cli.go:257-262 | a secret that stands in a message between characters of no secret becomes one marker as a whole, even if its parts are secrets too |
| Scrub.ShorterFirstLeavesTheRest | internal/cli/cli.go:257-262 | with the shorter one first, the rest of a longer secret would be left behind |
| Scrub.ScrubPaths | internal/cli/cli.go:263-276 | the loop over the sorted secrets removes every clean secret, and its result depends on the argument order only through secrets of one length that are neither independent nor only absorb each other |

## Left out

- AES-GCM, HKDF and SHA-256: symbolic and injective; no cryptographic strength is claimed, and zeroing of keys is not modelled.
- Text formats: timestamps, YAML and JSON are taken as the values they carry.
- The SQL driver, pragmas, file modes and directories: only that write transactions are serial, rollback is complete and AUTOINCREMENT ids increase.
- `CreateConfig` without a builder, `Close` and `New` of the stores: they would only add easy members.
- Handler checks that reject a request before it reaches the store (empty name, content size, empty PATCH, id syntax) and the HTTP layer around them.
- Master-key providers, server lifecycle, configuration loading, backup scripts: outside the core.
- Context cancellation: the `Fail` step of `Interleaving`, not part of the retry-loop method.
- Letters outside ASCII: lowercasing a hash touches ASCII letters only; no other letter lowercases to a hex digit, so the same hashes are accepted.
- Constant-time comparison: not a functional property. Lookup takes the token's hash as its input.
- RateLimit.Limiter.Allow: tokens are real numbers, so IEEE rounding is not captured, and buckets are values in the map, not shared references.
- UserCommands.SearchUser: case folding of names is a parameter, any map on characters, where the source uses Unicode simple folding.
- UserCommands.ReachableFilesLoad: needs fresh hashes and an id to spare below the int64 maximum; without the latter the next id wraps to the minimum.
- Migrations.LoadMigrations: the sort is an insertion sort on a sequence, not the library's in-place sort; files arrive with their SQL already split into statements.
- FirstBoot.BootIsSafe: a crash takes the bootstrap child with it, and an operator removes a stale lock only after its owner is dead.
- SecretOrder.OrderMattersIff: leaves out pairs of which one ends with the marker and the other starts with it. There a replacement can complete the other secret, and overlapping alone decides nothing: `SecretOrder.AbsorbCommute` proves one direction for those that share nothing else.
- Scrub.ScrubPaths: strings are sequences of bytes. That dependent secrets of one length change some message is proved for two secrets, not for a longer list.
- PatchEffect.MetadataPatchIsAtomic: speaks of the stored row; the row returned may already include a later change, as `PatchEffect.SuccessfulPatch` says.
