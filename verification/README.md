# Kvendra CLI: a verified model of the audit log, the token refresh, the allowlist and the signed config

This project models the parts of the Kvendra CLI whose correctness spans several
functions or several processes, and proves properties of them for all inputs, all
reachable states or all runs:

- **The HMAC-chained audit log.** The four row encodings, the commitment over legacy
  rows, the one-pass chain verifier, the three write operations statement by statement
  inside a transaction, and any interleaving of any number of connections.
- **The Pro token refresh.** One process step by step, and a state machine of any number
  of processes over shared files, one lock and an identity provider that may rotate the
  refresh token (section 6 of RFC 6749), with crashes at every step.
- **The allowlist.** The glob-to-regex translation against a reading of the emitted
  text as a regular expression, the repository canonicalizer, the runtime decision
  against an order-free meaning, the static validator against that runtime decision.
- **The signed configuration file** (printer, parser, loader) and **the rolling-minute
  limiter**.

## How to read it

| module | content |
|---|---|
| `Wrappers`, `Bytes`, `StringSearch` | `Option`/`Result`; byte encoders with cancellation laws; Rust's string searches |
| `AuditRow`, `LayoutCommit`, `ChainVerifier` | row encodings, legacy digest, verifier, each as a function and as the loop that computes it |
| `ChainTheorems` | what a last tag and a commitment determine |
| `AuditTable`, `AuditInvariants` | the table, the SQL statements, what each operation decides and keeps |
| `AuditLog`, `AuditProcesses` | one connection as a class; many connections as a step relation |
| `ProSession`, `RefreshProtocol`, `RefreshRuns` | one refresh as a class; many processes as a step relation; the first as runs of the second |
| `Glob`, `RepoCanonical`, `AllowlistDsl`, `LocalOperand`, `Enforcer` | the runtime decision |
| `DecisionLaws`, `OperandLaws`, `EnforcerLaws` | when it allows and why it refuses; what it reads of a call; how it moves with the constraints |
| `DestructiveCatalog`, `AllowlistValidator` | the static rules and what they cover |
| `SignedConfig`, `ConfigStore` | trailer line, split, loader, printer |
| `ScanLimiter` | the limiter |

Conventions:

- HMAC-SHA256 under a key and SHA-256 are *arbitrary* functions from byte strings to 64
  hex digits. Nothing is assumed of them. A theorem that needs collision resistance ends
  in "or here are two different inputs with the same hash", naming the rows or the legacy
  prefixes they come from.
- Where the source works step by step on state (hashers, the connection, the session
  files, the config file, the stamp list) the model is a class with methods; each method
  is proved equal to a function, and the laws are about those functions.
- I/O failures, peers, the clock and other outside answers are parameters, and theorems
  hold for all their values. Contracts of the database methods count statements: an
  operation can fail for I/O only when the connection's budget of working statements runs out.

## Limits of the code that the proofs make exact

- `could_be_destructive` is documented as a worst-case rule. It is not for
  `kvendra.http`, whose rule reads the *declared* methods. An operation with broad scope
  accepted and no `methods` validates without `accept_destructive` and lets a POST
  through (`AllowlistValidator.OpenProfileEscapes`). `ForeseeableExactlyWhenReadable`
  gives the exact condition for one operation, `CoveredUnlessOpen` for a whole profile.
- A refresh can strand the session, and `RefreshProtocol.RunKeepsInvariant` says exactly
  when: a run that began with a live token can still be renewed if and only if no step so
  far ended the process or its storing between the provider's rotation and the rename,
  lost a rotating reply, or removed the token after a rejection. Writing the rotated
  token first rules out every other loss. A rejection can hit a live token, because an
  error about the client counts as one too (src/auth/oidc.rs:370-389).
  `RefreshRuns.EachLosingStepOccurs` gives a run for each kind of losing step.
- More `local_roots` need not mean more calls: one unusable root refuses every call with
  a local operand (`EnforcerLaws.WideningRootsCanDeny`). `LaxerAllowsExactly` proves that
  this is the only way in which widening a profile denies a call.
- A template token that ends in slash and star is documented as the glob used for
  repositories. It is wider: `OperandLaws.TokenIsWiderThanGlob` gives exactly the arguments
  it takes beyond the glob, for example `srcfoo` for the prefix `src`.
- The comment on `strip_hmac_trailer` says the newline before the trailer is removed from
  the payload; the code keeps it. The model follows the code, and so does the round trip.

## Model

| member | source | states |
|---|---|---|
| `AuditRow.LegacyEncodingInjective` | src/audit/hmac.rs:21-34 | over canonical rows the three frozen layouts are one unambiguous code: equal bytes imply the same layout and the same bound columns |
| `AuditRow.LegacyBytes` | src/audit/hmac.rs:135-170 | the frozen layouts byte for byte: id and time, the columns in their order, joined by pipes, an absent optional as nothing |
| `AuditRow.InjectiveBytes` | src/audit/hmac.rs:187-208 | the current layout byte for byte: domain, layout, id, time, eight texts and three optionals in their order |
| `AuditRow.DowngradeAliases` | src/audit/hmac.rs:23-29 | why the canonical domain is needed: every v3 row has the bytes of a v2 row whose last column swallows two others, and that row is refused |
| `AuditRow.InjectiveEncodingInjective` | src/audit/hmac.rs:187-208 | under one domain the length-prefixed encoding determines the layout number and all thirteen columns, NULL apart from empty |
| `AuditRow.LegacyIsNotInjective` | src/audit/hmac.rs:135-208 | no legacy encoding equals an encoding under either domain |
| `AuditRow.DomainsAreDisjoint` | src/audit/hmac.rs:47-48 | no encoding under the row domain equals one under the non-canonical domain |
| `AuditRow.MacInputInjective` | src/audit/hmac.rs:90-108 | over all layouts and accepted rows, MAC inputs coincide exactly when layout and bound columns do |
| `AuditRow.NonCanonicalTagVerifiesNowhere` | src/audit/hmac.rs:210-219 | what the public builders hash for a refused row is the MAC input of no accepted row |
| `AuditRow.CanonicalIsDelimited` | src/audit/hmac.rs:110-133 | a row that passes the check has no pipe in any part another part may follow |
| `AuditRow.LegacyNonCanonicalField` | src/audit/hmac.rs:110-133 | collecting the columns layout by layout finds the first one with a pipe |
| `AuditRow.LegacyMac` | src/audit/hmac.rs:135-170 | feeding the pieces one by one hashes the frozen encoding |
| `AuditRow.InjectiveMac` | src/audit/hmac.rs:187-208 | feeding domain, layout and columns hashes the injective encoding |
| `AuditRow.Hasher.UpdateText` | src/audit/hmac.rs:172-175 | appends exactly the length-prefixed text |
| `AuditRow.Hasher.UpdateOption` | src/audit/hmac.rs:177-185 | appends exactly the tagged optional |
| `AuditRow.ComputeForLayout` | src/audit/hmac.rs:90-108 | the dispatch: legacy if canonical, the row domain for layout 4, refusal otherwise |
| `AuditRow.LegacyOrNonCanonical` | src/audit/hmac.rs:210-219 | the builders' tag is over the legacy bytes exactly for canonical rows |
| `Bytes.JoinInjective` | src/audit/hmac.rs:26-32 | a pipe-joined list is read back uniquely if all parts but the last are pipe-free, and the last of the shorter list too |
| `Bytes.PutOptionCancel` | src/audit/hmac.rs:177-185 | a tagged optional is read back uniquely in front of any remainder |
| `Bytes.BigEndianDigit` | src/audit/hmac.rs:140-142 | byte `i` of a fixed-width integer is the digit of weight 256 to the number of bytes after it: most significant byte first |
| `Bytes.U64Bytes` | src/audit/hmac.rs:172-173 | an eight-byte count, byte by byte, and read back as a whole |
| `Bytes.I64Bytes` | src/audit/hmac.rs:193-195 | two's complement: the first bit is the sign, and the big-endian value is the integer, or it plus 2^64 when negative |
| `Bytes.TextBytes` | src/audit/hmac.rs:172-185 | a text is its eight-byte length and its bytes, an optional the byte 0, or the byte 1 and the text |
| `LayoutCommit.DigestInputInjective` | src/audit/layout_commit.rs:99-125 | the digest input determines every column, layout and tag of every row, their order and their number |
| `LayoutCommit.LegacyLayoutDigest` | src/audit/layout_commit.rs:102-125 | the streaming loop computes the digest of that input |
| `ChainVerifier.CheckTag` | src/audit/reader.rs:111-122 | no complaint exactly when the stored tag is the row's tag under its own layout |
| `ChainVerifier.VerdictMeaning` | src/audit/reader.rs:154-219 | success exactly on logs whose links, order, tags and pins all hold, with exact counts; otherwise the complaint is that of the least offending row |
| `ChainVerifier.VerifyChainReport` | src/audit/reader.rs:171-219 | the loop with its running link, flag, legacy list and counter returns that verdict |
| `ChainVerifier.VerifyChain` | src/audit/reader.rs:163-165 | success exactly on sound logs, else the complaint about the least offending row |
| `ChainVerifier.CurrentLayoutIsClosed` | src/audit/reader.rs:158-162 | in a sound log nothing but the current layout follows the current layout |
| `ChainVerifier.PrefixDigestIsWholeDigest` | src/audit/layout_commit.rs:20-22 | the legacy rows before a commitment are all legacy rows of the log, so prefix digest and whole digest coincide |
| `ChainVerifier.PinnedCount` | src/audit/reader.rs:136-152 | the report's committed count is what each commitment covers: all legacy rows, or none without one |
| `ChainTheorems.TipDeterminesLog` | src/audit/reader.rs:171-219 | two sound logs with the same last tag agree row by row on layout, tag and bound columns, or two of their rows are a MAC collision |
| `ChainTheorems.LegacyIsPrefix` | src/audit/layout_commit.rs:20-22 | the legacy rows of a sound log are a prefix of it |
| `ChainTheorems.CommittedTipDeterminesEverything` | src/audit/layout_commit.rs:7-14 | once a commitment is present the last tag determines the log in every column, or a MAC or digest collision is named |
| `ChainTheorems.CommitmentPinsLegacyRows` | src/audit/layout_commit.rs:11-14 | any other sequence of legacy rows in front of a commitment makes verification fail at or before it, or is a digest collision |
| `ChainTheorems.CommitmentPinsPrefix` | src/audit/reader.rs:193-205 | the same for the whole prefix, current rows included |
| `AuditTable.RecordPlanRecords` | src/audit/writer.rs:213-273 | placeholder insert plus tag update leave one new row, linked to the tip and tagged over its final columns |
| `AuditTable.RecordAppends` | src/audit/writer.rs:213-273 | recording leaves the earlier rows alone and appends one row with the next id, the current layout, every column of the event in its own place (status and severity as their texts), the link to the last tag and the tag the verifier expects |
| `AuditTable.CommitIsRecord` | src/audit/layout_commit.rs:226-239 | a commit that appends is the recording of one given event: system profile and primitive, the digest as arguments hash, ok, info, no optional |
| `AuditTable.CommitmentsAgree` | src/audit/layout_commit.rs:68-82 | a row is taken for a commitment exactly when it agrees in the five identifying columns with what a commit appends |
| `AuditTable.RewriteStep` | src/audit/writer.rs:377-398 | each update statement rewrites exactly its own row |
| `AuditTable.PerformUpdate` | src/audit/writer.rs:319-400 | the statements of an accepted update give the re-chained log, which differs only in four status columns of the target and in tags and links from there on |
| `AuditTable.UpdateOnlyResigns` | src/audit/writer.rs:281-292 | rows before the target are untouched, rows after it change in link and tag only |
| `AuditTable.PerformCommit` | src/audit/layout_commit.rs:198-245 | a commit appends one commitment row or changes nothing |
| `AuditTable.PerformKeepsValid` | src/audit/writer.rs:190-203 | every operation keeps ids strictly increasing and within the counter; a refused one changes nothing |
| `AuditInvariants.RecordKeepsSound` | src/audit/writer.rs:213-273 | recording keeps a log sound exactly when the event is not commitment-shaped or carries the right digest, and never repairs a broken one |
| `AuditInvariants.RecordCounts` | src/audit/writer.rs:213-273 | recording adds no legacy row, and a commitment only for a commitment-shaped event |
| `AuditInvariants.UpdateAccepted` | src/audit/writer.rs:336-376 | an update goes through exactly when target and all successors are authentic as they stand, a legacy target is the tip, and the new columns are encodable |
| `AuditInvariants.UpdateFindsRow` | src/audit/writer.rs:329-334 | "not found" is answered exactly for ids no row has |
| `AuditInvariants.UpdateKeepsVerdict` | src/audit/writer.rs:275-295 | an update leaves the verdict on the whole log as it was: same counts, or the same first complaint |
| `AuditInvariants.UpdateKeepsCommitments` | src/audit/writer.rs:294-295 | with a commitment in a sound log no update touches a legacy row |
| `AuditInvariants.StaleBranchIsUnreachable` | src/audit/layout_commit.rs:203-219 | after a verification that passed, no commitment disagrees with the digest of the legacy rows |
| `AuditInvariants.CommitAnswers` | src/audit/layout_commit.rs:198-245 | which of the four answers a commit gives, as a function of the log alone |
| `AuditInvariants.CommitKeepsSound` | src/audit/layout_commit.rs:172-184 | a commit keeps the log sound, changes no legacy row and never adds a second commitment |
| `AuditInvariants.CommitIsFinal` | src/audit/layout_commit.rs:23-26 | after a commit that appended, every later commit of every honest history answers with that row and that count |
| `AuditInvariants.LaterCommitsAgree` | src/audit/layout_commit.rs:220-225 | the answer "already committed" never changes again |
| `AuditInvariants.PerformKeeps` | src/audit/writer.rs:205-400 | each operation keeps a sound log sound and its commitments and pinned rows as they were |
| `AuditInvariants.HistoryKeeps` | src/audit/writer.rs:205-400 | so does every serial history of honest operations |
| `AuditProcesses.GivesUpAfterThree` | src/audit/writer.rs:155-174 | a connection that finds the lock held tries three times and gives up with nothing written |
| `AuditProcesses.StepKeepsInvariant` | src/audit/writer.rs:176-203 | in any step of any connection only a commit changes what others see, and then by exactly one whole operation |
| `AuditProcesses.RunIsSerial` | src/audit/writer.rs:176-189 | every interleaving equals the serial run of the committed operations in commit order |
| `AuditProcesses.CommittedLogIsAlwaysSound` | src/audit/writer.rs:155-273 | in every interleaving with aborts anywhere the visible log verifies, ids increase, no placeholder tag shows, at most one commitment appears and pinned rows stay |
| `AuditLog.AuditConnection.BeginImmediate` | src/audit/writer.rs:155-174 | the lock is taken exactly if some attempt up to the third gets it after only busy answers; "locked" exactly after three busy answers |
| `AuditLog.AuditConnection.EndTransaction` | src/audit/writer.rs:198-202 | all of the work becomes visible or none of it |
| `AuditLog.AuditConnection.RecordInTransaction` | src/audit/writer.rs:213-273 | the resulting table is the recorded one and the id its last; fails only for I/O or an exhausted counter |
| `AuditLog.AuditConnection.RecordEvent` | src/audit/writer.rs:205-211 | own transaction or the caller's; a failure of its own transaction leaves the log as it was |
| `AuditLog.AuditConnection.CheckResignable` | src/audit/writer.rs:336-367 | the loop reports the first of target and successors that must not be re-signed |
| `AuditLog.AuditConnection.ResignFrom` | src/audit/writer.rs:369-399 | the loop that re-links and re-tags row by row ends in the re-chained log |
| `AuditLog.AuditConnection.UpdateInTransaction` | src/audit/writer.rs:320-400 | success gives the re-chained log; a refusal is the decided one and changes nothing |
| `AuditLog.AuditConnection.UpdateEventStatus` | src/audit/writer.rs:297-317 | the same as one transaction; with the lock and working I/O the answer is the decided one |
| `AuditLog.AuditConnection.CommitInTransaction` | src/audit/layout_commit.rs:198-245 | answers and appends as decided from the table alone |
| `AuditLog.AuditConnection.CommitLegacyLayout` | src/audit/layout_commit.rs:185-196 | refused inside a foreign transaction; otherwise all or nothing |
| `ProSession.PartialWritesAreWhole` | src/auth/pro_refresh.rs:216-225 | wherever the writes stop, each file holds its complete old or complete new value |
| `ProSession.WritesMakeGrant` | src/auth/pro_refresh.rs:216-225 | all writes done, the three files are those of the grant, an absent id or unrotated refresh token left in place |
| `ProSession.FreshGrant` | src/auth/pro_refresh.rs:121-126 | a grant leaves nothing to refresh exactly when the new access token and the id token then on file outlive the lead |
| `ProSession.RefreshIsDue` | src/auth/pro_refresh.rs:111-126 | a refresh is due exactly when one of the two tokens has a known expiry within the lead |
| `ProSession.SessionIsOver` | src/auth/pro_refresh.rs:139-146 | without a refresh token the session is over exactly when one of the two tokens has a known expiry in the past |
| `ProSession.SessionStore.PersistGrant` | src/auth/pro_refresh.rs:216-225 | the files after any number of successful writes, the failing one before or after its rename |
| `ProSession.SessionStore.RefreshProTokens` | src/auth/pro_refresh.rs:186-232 | outcome and files in every case: a rejection removes the refresh token at most, any other failed exchange changes nothing, a grant goes to disk whole |
| `ProSession.SessionStore.EnsureFreshProTokens` | src/auth/pro_refresh.rs:152-162 | answer and files in every case: not due, no refresh token, not configured, and then each case of the refresh itself; "not needed" only when a check was not near expiry or there was no refresh token |
| `ProSession.Directory.WriteTmpAndRename` | src/auth/pro_refresh.rs:83-96 | on success the target has the new contents and the temporary file is gone, on failure the target is untouched |
| `ProSession.Directory.WriteSecretAtomic` | src/auth/pro_refresh.rs:60-81 | whatever fails the file is wholly old or wholly new, nothing else changes and no temporary file stays |
| `RefreshProtocol.StepKeepsInvariant` | src/auth/pro_refresh.rs:186-232 | mutual exclusion, and the files are always a prefix of the holder's writes over what it read |
| `RefreshProtocol.LiveUnlessLost` | src/auth/pro_refresh.rs:206-221 | while the stored (or about to be stored) refresh token is the provider's live one, a step leaves it so exactly when it is not an end between rotation and rename, a lost rotating reply or a rejection that removes the token |
| `RefreshProtocol.LivenessIsNotRegained` | src/auth/pro_refresh.rs:206-221 | no step of the protocol brings a live token back to a stranded session |
| `RefreshProtocol.CrashLeavesWholeFiles` | src/auth/pro_refresh.rs:60-96 | after a crash or I/O error while writing each file is whole, and the stored token is live exactly if no rotated one was still to be renamed |
| `RefreshProtocol.RunKeepsInvariant` | src/auth/pro_refresh.rs:10-16 | over every run of any number of processes: mutual exclusion, and the session is renewable at a moment if and only if it started with a token and no losing step came before |
| `RefreshProtocol.SentTokenIsLive` | src/auth/pro_refresh.rs:196-207 | in every run in which no token was retired unseen the token sent is the provider's current one, and nobody else is in the critical section |
| `RefreshProtocol.AtMostOneExchange` | src/auth/pro_refresh.rs:192-201 | in a run without failures whose grants outlive the lead at most one exchange is granted |
| `RefreshProtocol.ExactlyOneRefreshes` | src/auth/pro_refresh.rs:192-231 | and if any process saw the tokens near expiry exactly one refreshed, the others were told a peer had or nothing was needed |
| `RefreshRuns.AttemptIsRun` | src/auth/pro_refresh.rs:186-232 | whatever the one-process method answers and leaves on disk is answered and left by steps of the protocol, for all surroundings |
| `RefreshRuns.EachLosingStepOccurs` | src/auth/pro_refresh.rs:206-221 | for each kind of losing step a run that is renewable up to it and stranded after it |
| `Glob.TranslateGlob` | src/allowlist/enforcer.rs:610-623 | the loop emits the escaped pattern between anchors |
| `Glob.EmittedRegex` | src/allowlist/enforcer.rs:610-623 | read as a regular expression the emitted text is fully anchored, one item per pattern character |
| `Glob.TranslationPreservesMeaning` | src/allowlist/enforcer.rs:598-625 | the emitted regex matches exactly the strings the glob denotes |
| `Glob.MatchIsSegmentwise` | src/allowlist/enforcer.rs:598-609 | a match is a match of each slash-separated segment with its segment |
| `Glob.MatchKeepsSlashes` | src/allowlist/enforcer.rs:598-609 | a match has as many slashes as the pattern |
| `Glob.StarFreeMatchesItself` | src/allowlist/enforcer.rs:598-601 | a star-free pattern matches only itself |
| `RepoCanonical.SpellingsAgree` | src/allowlist/enforcer.rs:676-726 | every URL (any scheme, userinfo, port), scp-like and bare spelling, with or without `.git`, of a dotted host and repository path canonicalizes to `host/path` |
| `RepoCanonical.UrlWithoutPath` | src/allowlist/enforcer.rs:714-723 | a URL without a path canonicalizes to its host |
| `RepoCanonical.PortIsNotPath` | src/allowlist/enforcer.rs:699-706 | a number after the colon is no path: the text is kept |
| `RepoCanonical.UndottedIsNotHost` | src/allowlist/enforcer.rs:699-706 | nor is a text without a dot a host: the text is kept, its `.git` aside |
| `RepoCanonical.ColonlessIsKept` | src/allowlist/enforcer.rs:693-707 | a text without a colon is kept, one `.git` aside |
| `RepoCanonical.AuthorityHost` | src/allowlist/enforcer.rs:708-719 | the host is the authority after the last `@` and before the next colon, whatever the userinfo holds |
| `RepoCanonical.NormalizeIsIdempotent` | src/allowlist/enforcer.rs:826-837 | normalizing twice is normalizing once |
| `RepoCanonical.NormalizeIsExact` | src/allowlist/enforcer.rs:832-837 | the GitHub host is put in front exactly when the first segment has no dot or is the only one |
| `RepoCanonical.NormalizeFixesCanonical` | src/allowlist/enforcer.rs:832-837 | a value with a dotted host is left alone |
| `RepoCanonical.PatternPinsHost` | src/allowlist/enforcer.rs:826-837 | a pattern with a star-free host matches only repositories on that host, however spelled |
| `RepoCanonical.HostlessPatternMeansGithub` | src/allowlist/enforcer.rs:468-470 | a pattern without a host matches only repositories on github.com |
| `Enforcer.DenylistsMeaning` | src/allowlist/enforcer.rs:143-195 | the ordered denylist checks refuse exactly when some list is hit, with a denylist reason |
| `Enforcer.BucketsMeaning` | src/allowlist/enforcer.rs:234-258 | passes exactly when every bucket the call names, bare or as an operand, is listed |
| `Enforcer.LocalsMeaning` | src/allowlist/enforcer.rs:260-296 | passes exactly when every local operand can be determined and lies in a declared root |
| `Enforcer.VerdictIsConjunction` | src/allowlist/enforcer.rs:131-592 | the verdict is an order-free conjunction, and a denylist hit is the reason given whatever the allow-lists say |
| `DecisionLaws.CheckAllowsExactly` | src/allowlist/enforcer.rs:57-97 | the whole decision allows exactly when the profile has not expired, the first entry of the primitive's name exists, and it allows the raw token, or its first entry of the operation's name is stopped by no denylist and no allow-list |
| `DecisionLaws.CheckRefusals` | src/allowlist/enforcer.rs:63-94 | an expired profile answers so whatever else holds; an unlisted primitive, a raw token not enabled and an unlisted operation each get their refusal |
| `DecisionLaws.RefusalIsFirstFault` | src/allowlist/enforcer.rs:139-592 | a refusal names the first of the seventeen checks that fails, in the documented order, and what it says is true of the call |
| `OperandLaws.TokenMeaning` | src/allowlist/enforcer.rs:845-858 | what each form of template token takes |
| `OperandLaws.TokenIsWiderThanGlob` | src/allowlist/enforcer.rs:839-842 | a prefix token takes everything the glob of the same text takes, and exactly which arguments beyond it |
| `OperandLaws.AllowedArgvFits` | src/allowlist/enforcer.rs:561-575 | the texts of an allowed argv are as many as the tokens of some template and match them one by one |
| `OperandLaws.CloneTarget` | src/allowlist/enforcer.rs:787-801 | a clone acts on its `url`, on `repo` only when there is no `url` at all |
| `OperandLaws.RemoteTarget` | src/allowlist/enforcer.rs:802-814 | any other git call acts on its remote, `origin` by default: the URL itself or what git answers for the name in `cwd`; decoy fields do not matter |
| `OperandLaws.FieldTarget` | src/allowlist/enforcer.rs:490-497 | other primitives act on `repo`, on `url` only when there is no `repo` at all |
| `OperandLaws.AllowedGithubOwner` | src/allowlist/enforcer.rs:476-526 | the owner an allowed GitHub call acts on is on the `org` list |
| `OperandLaws.SpelledRemoteIsUrl` | src/allowlist/enforcer.rs:734-736 | every URL spelling and every scp-like one with a user is taken for a URL |
| `OperandLaws.UrlLikeIsExact` | src/allowlist/enforcer.rs:728-736 | what is taken for a URL, and so what is looked up as a remote's name |
| `OperandLaws.OwnerIsSecond` | src/allowlist/enforcer.rs:666-674 | the owner of a target is its second segment, however many follow |
| `OperandLaws.AllowedPublishIsListed` | src/allowlist/enforcer.rs:352-388 | an allowed publish publishes a listed package, the one its manifest names |
| `OperandLaws.AllowedPackageIsListed` | src/allowlist/enforcer.rs:352-388 | any other allowed call that names a package names a listed one |
| `LocalOperand.IsWithinRoots` | src/primitives/local_operand.rs:152-194 | the loop with its early errors answers an error exactly if some root dangles or is the filesystem root without broad scope, else whether the operand resolves under some root |
| `OperandLaws.TransferSides` | src/primitives/local_operand.rs:81-113 | a transfer's local operands pass exactly when each given side is a bucket or a path inside usable roots |
| `OperandLaws.CloneDestination` | src/primitives/local_operand.rs:93-100 | a clone's pass exactly when it has a `dst` inside usable roots |
| `OperandLaws.UploadSource` | src/primitives/local_operand.rs:93-110 | an upload's pass exactly when its `dist`, if given, lies inside usable roots |
| `OperandLaws.OthersNeedNoRoots` | src/primitives/local_operand.rs:25-32 | no other operation is asked for roots |
| `OperandLaws.LocalOperandShape` | src/primitives/local_operand.rs:51-73 | an operand is a local path exactly when it is not empty, has no scheme and does not begin like a bucket in either case |
| `OperandLaws.WhereOperandsLie` | src/primitives/local_operand.rs:115-140 | an operand lies where it resolves, or under its parent if it does not exist yet; a link to nowhere lies in no root |
| `EnforcerLaws.LaxerAllowsExactly` | src/allowlist/enforcer.rs:131-592 | widening or dropping any allow-list, adding roots or shortening any forbidden list keeps an allowed call allowed if and only if it has no local operand or every root then declared is usable |
| `EnforcerLaws.LaxerNeverDenies` | src/allowlist/enforcer.rs:131-592 | with the roots left as they are such a change never denies an allowed call |
| `EnforcerLaws.WideningRootsCanDeny` | src/allowlist/enforcer.rs:283-288 | on a machine with `/srv`, adding `/` or a link to nowhere to the root `/srv` denies an upload allowed before |
| `EnforcerLaws.AllowedTargetIsScoped` | src/allowlist/enforcer.rs:452-545 | an allowed call under an owner or repository scope acts on a resolved target that some pattern matches part by part and whose owner is listed, whatever the primitive |
| `EnforcerLaws.AllowedRemoteIsOnScopedHost` | src/allowlist/enforcer.rs:787-814 | an allowed push, pull, tag or commit with a URL remote acts on the host of a scope pattern, decoy fields notwithstanding |
| `EnforcerLaws.AllowedTransferIsBounded` | src/allowlist/enforcer.rs:234-296 | each side of an allowed S3 transfer is a listed bucket or resolves under a declared root, all roots being usable |
| `EnforcerLaws.RemoteOperandShape` | src/primitives/local_operand.rs:51-73 | an operand names a bucket exactly when it is `s3://bucket`, alone or before a slash |
| `DestructiveCatalog.SynthesizedMutates` | src/allowlist/catalog.rs:265-282 | the synthesized call mutates exactly when a declared method does |
| `DestructiveCatalog.AlwaysDestructive` | src/allowlist/catalog.rs:64-183 | every call of these fourteen operations is destructive |
| `DestructiveCatalog.NeverDestructive` | src/allowlist/catalog.rs:64-195 | no call of these nine operations is, the annotated ones included |
| `DestructiveCatalog.TagIsDestructiveWhenForced` | src/allowlist/catalog.rs:43-45 | a tag is destructive exactly when it is forced |
| `DestructiveCatalog.UnknownIsDestructive` | src/allowlist/catalog.rs:212-222 | every call of an operation in no table is destructive |
| `DestructiveCatalog.CouldBeIsWorstCase` | src/allowlist/catalog.rs:238-263 | outside HTTP an operation could be destructive exactly when some call of it is |
| `DestructiveCatalog.AnnotatedCalls` | src/allowlist/catalog.rs:224-236 | which calls are annotated: commits, invalidations, and closing an issue |
| `AllowlistValidator.HttpDestructiveness` | src/allowlist/catalog.rs:47-55 | an HTTP call is destructive exactly when its method mutates, and foreseeably so exactly when a declared method does |
| `AllowlistValidator.ValidateDestructiveOptIn` | src/allowlist/validator.rs:176-201 | the nested loops collect exactly the violations, in order |
| `AllowlistValidator.NoViolations` | src/allowlist/validator.rs:176-201 | none are found exactly when every operation outside the raw-token hatch that could be destructive, or says so, carries the opt-in |
| `AllowlistValidator.ValidateAccepts` | src/allowlist/validator.rs:38-71 | which profiles are accepted, whatever the order of the checks |
| `AllowlistValidator.HttpRulesMeaning` | src/allowlist/validator.rs:203-304 | which HTTP operations are accepted: patterns compile, and without broad scope methods are declared and every pattern pins a host |
| `AllowlistValidator.OtherRulesMeaning` | src/allowlist/validator.rs:203-237 | which operations of other primitives are accepted |
| `AllowlistValidator.RuleRefusal` | src/allowlist/validator.rs:203-304 | what each refusal of a constraint rule says of the operation is true |
| `AllowlistValidator.UserinfoIsExact` | src/allowlist/validator.rs:270-291 | a pattern floats its host exactly when an `@` stands between its first scheme mark and the next slash |
| `AllowlistValidator.ValidateRefusal` | src/allowlist/validator.rs:38-71 | the refusals of a profile in their order, about the first primitive that is not well-formed |
| `AllowlistValidator.CanariesAreDenied` | src/allowlist/validator.rs:242-261 | under an accepted profile without broad scope a call to a canary URL is denied unless listed as an endpoint |
| `AllowlistValidator.DestructiveWasForeseeable` | src/allowlist/catalog.rs:238-263 | a destructive call the enforcer lets through was foreseeable from the constraints, for HTTP when methods are declared |
| `AllowlistValidator.OptInCoversRuntime` | src/allowlist/validator.rs:170-201 | under an accepted profile an allowed destructive call runs under an operation with the owner's opt-in, unless it is HTTP with broad scope, no methods, and mutating methods not forbidden |
| `AllowlistValidator.CoveredUnlessOpen` | src/allowlist/validator.rs:38-71 | an accepted profile lets no destructive call through without the owner's opt-in if and only if its HTTP `request` entry does not combine broad scope, no methods, an unforbidden mutating method and no opt-in, or lets no call with a method through |
| `AllowlistValidator.UndeclaredMethodsEscape` | src/allowlist/catalog.rs:257-261 | the failing family: with no methods declared any unforbidden mutating method passes wherever some method passes, unforeseen |
| `AllowlistValidator.ForeseeableExactlyWhenReadable` | src/allowlist/catalog.rs:238-282 | for an HTTP operation that lets some call through: every allowed destructive call is foreseeable if and only if methods are declared or all mutating ones forbidden |
| `AllowlistValidator.OpenProfileEscapes` | src/allowlist/validator.rs:298-302 | a concrete accepted profile without opt-in that lets a POST through |
| `SignedConfig.ParserIsExact` | src/config.rs:435-446 | the line parser accepts exactly key, blanks, `=`, blanks, 64 quoted hex digits, carriage returns |
| `SignedConfig.SplitIsExact` | src/config.rs:407-424 | a file splits as signed exactly when it is whole lines, one parsable trailer line, then only line ends |
| `SignedConfig.StripUndoesSigned` | src/config.rs:356-369 | stripping what `save` writes gives back payload and tag, byte for byte |
| `SignedConfig.AppendingGrowsPayload` | src/config.rs:250-258 | a signed file with more than line ends appended is unsigned or has a strictly longer payload |
| `ConfigStore.ConfigHome.Save` | src/config.rs:343-378 | the file on disk is the signed document or still the old one, and success is exactly no fault and a canonical home |
| `ConfigStore.ConfigHome.AutoMigrate` | src/config.rs:455-473 | absent and signed files are left alone, an unsigned one is re-saved signed or left as it was, and after success the file is signed |
| `ConfigStore.VerifiedLoad` | src/config.rs:204-316 | a load with the vault accepts a file exactly when its trailer's tag is the MAC of the very bytes before it, it parses, its timeout is from 5 to 600, and this home resolves to the signed one |
| `ConfigStore.LoadAnswers` | src/config.rs:204-316 | the answer of such a load in every case: a wrong tag, no trailer (and whether one is displaced), no parse, out of range, a home that does not resolve, another home, or the configuration |
| `ConfigStore.UncheckedLoads` | src/config.rs:213-288 | without the vault only parse and range count, without the home check the signed home does not, and an absent file is the default |
| `ConfigStore.LinesAreExact` | src/config.rs:431-433 | the lines searched for a displaced trailer are exactly the lines of the file |
| `ConfigStore.AppendingIsRefused` | src/config.rs:250-278 | appending to a signed file is accepted only if someone signed a payload that strictly extends the old one |
| `ConfigStore.AppendedOrphanIsReported` | src/config.rs:260-277 | a saved file whose trailer was displaced is refused with the orphan-line diagnosis |
| `ConfigStore.LoadReturnsSaved` | src/config.rs:204-378 | loading what was saved gives the saved configuration with its home stamped, exactly when its timeout is from 5 to 600 and this home resolves to the stamped one |
| `ConfigStore.SavedInPlaceLoads` | src/config.rs:343-378 | a configuration in range that leaves its home to `save` always loads back |
| `ConfigStore.SavedIsSigned` | src/config.rs:343-369 | what `save` writes always splits into the printed payload and the MAC of it |
| `ConfigStore.StampedHomeIsHome` | src/config.rs:345-353 | the home stamped by `save` passes the redirect check of the load |
| `ScanLimiter.RateFile.Take` | src/cli/vars.rs:445-464 | the loop filters, refuses or pushes, and rewrites the file as specified |
| `ScanLimiter.AtMostSixtyPerWindow` | src/cli/vars.rs:442-464 | no window of 60,000 ms holds more than 60 admitted calls, over every run with a non-decreasing clock |
| `ScanLimiter.AdmissionIsExact` | src/cli/vars.rs:448-456 | a call is refused exactly when 60 were admitted in the minute ending with it |
| `ScanLimiter.StoredAfterAdmission` | src/cli/vars.rs:448-462 | after an admitted call the file holds exactly the admitted calls of the last minute |
| `ScanLimiter.StoredIsSufficient` | src/cli/vars.rs:448-462 | for every later decision the file is as good as the list of all admitted calls |

## Left out

- Hash, cipher and encoding internals; constant-time comparison, zeroizing, redaction, file modes beyond their error paths.
- SQLite beyond an ordered table with an AUTOINCREMENT counter, one write lock, commit and rollback: no WAL, PRAGMA or migration, and busy waiting is only the bounded retry. `list_from` is a read of the ordered table.
- The writer thread and its channel, the export bundle verifier, and the wording of error messages.
- Power loss: a crash is the death of a process, and a completed rename is durable.
- HTTP, discovery, client id resolution and the parsing of tokens; login, logout and the workspace refresh as further actors; the identity provider is one that honours exactly its live refresh token.
- In the many-process refresh a process starts at `refresh_pro_tokens_with`; the duplicate check in front of it is modelled only for one process. Under the lock, where no other process writes, the clock and the files are read in one step.
- The regular-expression engine beyond the fragment that `glob_match` emits, and its compile-size limit: URL, tag and cwd patterns are opaque predicates. JSON, YAML and TOML parsing; TOML is a print and parse pair, and the theorem that needs it to read back what it printed says so.
- `git` and `npm` lookups, `resolve_target` of the GitHub primitive, path canonicalization and splitting, and the expiry date comparison are opaque parameters of the decision.
- `validate_for_signing` and `check_local_roots`, approval modes and caches, and the flag and error-code tables.
- The limiter's text format, writes that fail silently, concurrent callers, clocks that step back and the range of 64-bit milliseconds.
- ConfigStore.LoadReturnsSaved: assumes that the TOML library reads back the document it printed with the trailer line at its end, because parsing is not modelled.
- RefreshProtocol.ExactlyOneRefreshes: only for runs without rejection, lost reply, I/O error or crash, since with them no process need finish with a refresh.
- ScanLimiter.AtMostSixtyPerWindow: only for a non-decreasing clock, the one the rolling minute is meant for.
