# LFS Cloud: a verified model

LFS Cloud lets Git LFS store large files in Google Drive through a small local server. This project models its
stateful and text-handling core in Dafny and proves what that core is meant to guarantee. `dafny verify dfyconfig.toml`
checks everything.

## What is modelled

- **Local sessions** (`session_*.dfy`). The store that issues, verifies and revokes bearer tokens: lazy expiry, three
  admission limits, a sliding issuance window, a computed retry delay, and rows in SQLite that keep times in whole
  seconds. `SessionStore` has the classes, `SessionModel` their specification, `SessionSystem` whole installations
  (start, requests, stop, key rotation, loss of the key) and the never-pruned log that the store is compared with.
  Time is an integer count of nanoseconds, and each operation carries the clock reading that it took before the lock;
  `NeverBack` says where the readings, in lock order, are assumed not to decrease. The limits need no such assumption.
- **Git LFS pointers** (`lfs_pointer*.dfy`). The parser, the printer and the extension records, with the text counted in
  UTF-8 bytes.
- **The child-process waiter** (`child_process.dfy`, `pipe_capture.dfy`). The child, its descendants, two reader threads,
  the channel and the clock are an `Environment` that may take any allowed step around every call of the waiter.
- **UTF-8-safe truncation** (`decoding.dfy`, `utf8*.dfy`, `process_output.dfy`). A theory of scanning with any decoder
  that more input never contradicts, UTF-8 as such a decoder (Table 3-7 and section 3.9 of the Unicode Standard), and
  the truncations.
- **The git-credential protocol** (`credentials.dfy`, `credential_proofs.dfy`): query printer and answer parser, from bytes.
- **Routes** (`urls.dfy`, `git_remote*.dfy`, `routes.dfy`): the URL policy, the parsing of remotes, the route of a repository
  and its recovery. The URL library is a value with stated laws (`Urls.Lawful`): what parsing yields, that printed URLs
  are parsed back, and which segments need no escaping.
- **The configuration editor** (`key_order.dfy`, `yaml_edits.dfy`, `yaml_edit_proofs.dfy`, `config_*.dfy`): a YAML tree with
  ordered mappings. Whether the mapping type moves a key to the back when it is inserted again, or when its entry is
  asked for, is a parameter (`YamlEdits.Policy`) with four values.
- **Attribute output of Git** (`git_output.dfy`).

`wrappers.dfy`, `text.dfy`, `seqs.dfy`, `splitting.dfy`, `line_text.dfy` and `decimals.dfy` hold shared text and sequence facts.

## Assumptions

- SQLite is a map from token digest to row with the statements of `src/metadata/sessions.rs`: expired means an expiry at
  or before the given second, active means after it, and recording replaces. A statement fails as a whole or not at all.
- Authenticated encryption is ideal: opening succeeds only with the secret, the nonce and the associated data that were
  sealed with. SHA-256 digests stand for tokens, and the JSON encodings of scopes and of associated data are injective.
- Randomness is arbitrary: generated tokens, nonces and keys are parameters.
- One process lock excludes a running server from key rotation and from a second server
  (`src/metadata/process_lock.rs:10-53`, taken at `src/server/runtime.rs:139` and in `src/cli/sessions.rs:94`).
- A reader thread sends exactly one event or dies without one, events of one channel arrive in order, and a stop signal by
  itself promises nothing.

## Where the code does not meet the property

Each of these is stated as an exact condition or a concrete case.

- With a clock that goes back, `verify` may miss a session that an unpruned log still has
  (`SessionTheorems.ClockGoingBackIsObservable`). It agrees with the log exactly if no look at the expiry since the issuance
  came at or after it (`SessionClock.VerifyAgreesExactlyIfSpared`); a clock that never goes back is one such case.
- With such a clock a restart may also load more sessions of one principal than the limit
  (`SessionClock.OpeningKeepsCapsIff`).
- With such a clock, the row of a session that was issued and expires within one second also blocks every start before that
  second (`SessionOpening.SameSecondRowBlocksOpening`); `SessionOpening.OpeningIsExact` says exactly when a store opens.
- The retry delay of the window limit is exact only if some window end is representable; otherwise the limit stays shut
  (`SessionAdmission.UnrepresentableWindowStaysShut`).
- The reader of stored digests accepts texts that are never printed, such as `+f` or upper case (`SessionTokenKey`).
- An accepted pointer text of 1012 to 1023 bytes can have a canonical form that is itself refused
  (`LfsPointerCanonical.LimitIsTight`).
- The dot-segment check looks behind `://` only, and a URL may be written without the slashes; a server path may then
  end with an empty segment, and its routes are not recovered (`Routes.RouteInverse`, `Routes.DotsBehindNoSlashes`).
- A second upsert of a storage provider changes the key order once more, and so answers `Updated`, when the mapping type
  treats insertion and entry access differently and a key that stays is new after one that moves
  (`ConfigEditProofs.StorageUpsertTwice`). From the second upsert on nothing changes.
- A storage upsert that fails on malformed credentials has already written the type and asked for the section, the entry
  and the credentials (`ConfigEditProofs.FailedUpsertKeepsDocumentIff`); the command does not save then.
- A removal of a served repository that finds no section adds an empty one to the document in memory
  (`ConfigRepositoryProofs.RemovalCreatesSection`); the command saves only if something was removed.
- `truncate_with_ellipsis` documents that the limit excludes the ellipsis; the model follows the code, which does the same.

## Model

| member | source | states |
|---|---|---|
| `SessionStore.MetadataDatabase.DeleteExpiredSessions` | src/metadata/sessions.rs:137-144 | rows whose expiry is at or before the given second go, the others stay, and the answer is how many went; a storage error changes nothing |
| `SessionStore.MetadataDatabase.RecordSession` | src/metadata/sessions.rs:77-115 | the row replaces any row with the same digest |
| `SessionStore.MetadataDatabase.DeleteSession` | src/metadata/sessions.rs:122-130 | the row goes, and the answer says whether there was one |
| `SessionStore.MetadataDatabase.DeleteAllSessions` | src/metadata/sessions.rs:161-165 | no row is left, and the answer is how many there were |
| `SessionStore.LocalLfsSessionStore.InMemory` | src/sessions.rs:343-345 | an empty store without a database |
| `SessionStore.LocalLfsSessionStore.OpenDurable` | src/sessions.rs:357-388 | the rows and the new store are those of the specification: expired rows swept, the rest decrypted, more than 1024 refused |
| `SessionStore.LocalLfsSessionStore.IssueSessionRecord` | src/sessions.rs:459-529 | the new state and the answer are those of `SessionModel.Issue`; the loop over generated tokens tries at most eight and takes the first unused one |
| `SessionStore.LocalLfsSessionStore.VerifyRecord` | src/sessions.rs:540-548 | the new state and the answer are those of `SessionModel.Verify` |
| `SessionStore.LocalLfsSessionStore.RevokeToken` | src/sessions.rs:558-574 | the new state and the answer are those of `SessionModel.Revoke`, including a failing deletion |
| `SessionStore.LocalLfsSessionStore.Len` | src/sessions.rs:576-584 | expired sessions are pruned before they are counted |
| `SessionModel.SecondsSurviveRoundTrip` | src/sessions.rs:763-781 | a time written as whole seconds and read back lies in the same second and not after the original |
| `SessionModel.FirstExpiryExists` | src/sessions.rs:744-753 | a non-empty set of sessions has one that expires first |
| `SessionModel.FirstUnused` | src/sessions.rs:502-508 | the first generated token whose digest no session holds, if there is one |
| `SessionIssue.NormalizedScopes` | src/sessions.rs:174-193 | the stored scopes are the given ones in order without the blank ones, each without the white space around it and nothing else |
| `SessionIssue.IssuedSessionHolds` | src/sessions.rs:478-529 | the session of an accepted request holds the provider, login, stable identifier and token of the request, was issued at its time and expires after its lifetime; verifying its token next answers it before the expiry and nothing from then on |
| `SessionIssue.IssuedRowHolds` | src/sessions.rs:867-897 | the row of an accepted request holds the same data in whole seconds, and the token sealed under the store's secret, or no token if there was none |
| `SessionIssue.RecentTimesAreThoseInWindow` | src/sessions.rs:678-691 | pruning keeps exactly the issue times whose window has not ended, each as often as it was there |
| `SessionIssue.FirstUnusedIsFirst` | src/sessions.rs:502-508 | the chosen token is the first generated one that no session uses |
| `SessionIssue.IssueSucceedsIff` | src/sessions.rs:459-529 | a request is accepted exactly if its lifetime is positive and ends at a representable time, storage works, user and store are below the three limits, and a generated token is free, of which it gets the first |
| `SessionIssue.IssueErrors` | src/sessions.rs:459-529 | which of the checks decides the error of a refused request |
| `SessionOpening.RestoringIsExact` | src/sessions.rs:820-865 | a row restores as a record exactly if it is that record's, it expires in a later second than it was issued in, and it has no token, or one that was sealed for this very row with this secret and nonce |
| `SessionOpening.OpeningIsExact` | src/sessions.rs:357-388 | for any rows and any clock a store opens exactly if there is a secret, storage works and the unexpired rows all restore and are at most 1024; it then holds their sessions and nothing else |
| `SessionOpening.OpeningSweeps` | src/sessions.rs:357-388 | whatever the answer, exactly the expired rows go, if there is a secret and the deletion succeeds |
| `SessionOpening.OpeningErrors` | src/sessions.rs:357-388 | which of secret, storage and rows decides the error |
| `SessionOpening.SameSecondRowBlocksOpening` | src/sessions.rs:820-840 | a concrete case: a session issued and expiring within one second leaves a row with which no store opens while the clock stands before that second |
| `SessionKeys.LoadOrCreateManagedSessionKey` | src/session_keys.rs:53-86 | a stored key of 32 bytes is returned; without one, a key is created only after the expired rows are deleted and only if no row is left |
| `SessionKeys.RotateManagedSessionKey` | src/session_keys.rs:94-103 | all rows are deleted before the new key is stored; a failing store leaves the old key and no rows |
| `SessionKeys.KeyIsAnsweredIff` | src/session_keys.rs:53-86 | a key is answered exactly if it is the stored one and has 32 bytes, or none is stored, no row is unexpired, and the generated key could be stored |
| `SessionKeys.LoadingKeyEffects` | src/session_keys.rs:53-86 | only the first start stores a key, namely the one it answers; no unexpired row goes, and with a stored key no row at all |
| `SessionKeys.RotationEffects` | src/session_keys.rs:94-103 | a rotation succeeds exactly if every effect does; the rows go with their deletion, and the key changes only after it |
| `SessionAdmission.CapsHoldForAnyClock` | src/sessions.rs:654-742 | over every run of the store, with any clock readings and any storage failures: total sessions, sessions per principal with a stable or login identity, and recorded issuances per principal stay within their limits |
| `SessionAdmission.StepKeepsCaps` | src/sessions.rs:459-574 | every single operation keeps the three limits |
| `SessionAdmission.IssueEvictsNothing` | src/sessions.rs:495-529 | an issue request, accepted or rejected, loses and changes no unexpired session and uses no unexpired session's digest |
| `SessionAdmission.SlidingWindow` | src/sessions.rs:678-727 | while clock readings in lock order do not go back, every half-open interval of one window length holds at most the limit of successful issuances of a principal, revoked and expired ones included |
| `SessionAdmission.RetryAfterIsExact` | src/sessions.rs:693-761 | the delay of a rejection is the least positive number of whole seconds after which the gate that rejected no longer rejects, unless it is the window gate and no window end is representable: then it always rejects |
| `SessionAdmission.GateRejectsUntilItOpens` | src/sessions.rs:693-742 | each of the three gates rejects exactly until the first expiry, or the first window end, that brings its count below the limit |
| `SessionAdmission.FirstWindowEndIsFirst` | src/sessions.rs:716-727 | the window end that the delay is computed from is the earliest representable one |
| `SessionAdmission.UnrepresentableWindowStaysShut` | src/sessions.rs:716-727 | if no window end is representable, the window gate stays shut for as long as the clock can run |
| `SessionRefinement.EveryRunMirrorsItsLog` | src/sessions.rs:459-574 | after every run with a clock that never goes back, rows and memory both agree with the never-pruned log on what outlives the present |
| `SessionRefinement.IssueKeepsMirrors` | src/sessions.rs:495-529 | an issue request keeps rows, memory and log in agreement, whether it is accepted, rejected or fails in storage |
| `SessionRefinement.RequestKeepsMirrors` | src/sessions.rs:459-574 | every request keeps rows, memory and log in agreement |
| `SessionRefinement.RevokingKeepsMirror` | src/sessions.rs:558-574 | revoking removes the session from both mirrors |
| `SessionRefinement.RestoreKept` | src/sessions.rs:820-865 | a row sealed by this store is restored under the same key as the same record with its times in whole seconds |
| `SessionRefinement.LoadingRestores` | src/sessions.rs:808-818 | loading succeeds and yields exactly the sessions that outlive the current second |
| `SessionRefinement.RestartKeepsMirror` | src/sessions.rs:357-388 | memory rebuilt from the rows agrees with the log to which the restart was added |
| `SessionRefinement.RotationKeepsMirrors` | src/session_keys.rs:94-103 | a rotation keeps rows, memory and log in agreement, also when it fails half way |
| `SessionTheorems.VerifyAnswersAsTheLog` | src/sessions.rs:540-548 | with a clock that never goes back, `verify` answers as a log that is never pruned would: the latest issuance of the digest, not revoked since, expiring strictly after now |
| `SessionTheorems.RevokeReportsWhatVerifyWould` | src/sessions.rs:558-574 | in any state and at any time, `revoke` reports true exactly when `verify` would have succeeded, and fails exactly when the deletion does |
| `SessionTheorems.RevokeAnswersAsTheLog` | src/sessions.rs:558-574 | with a clock that never goes back, `revoke` reports what the never-pruned log says |
| `SessionTheorems.ClockGoingBackIsObservable` | src/sessions.rs:661-676 | a concrete input for which the answers differ: a session is forgotten by a look-up after its expiry and missed by one whose clock reads before it |
| `SessionTheorems.FreshKeyIsFreshAmongRows` | src/sessions.rs:495-519 | with a clock that never goes back, a token that is accepted as new in memory is new among the unexpired rows |
| `SessionTheorems.RowsAgreeWithSessions` | src/sessions.rs:867-897 | the rows whose whole-second expiry is after the whole-second now are exactly the sessions in memory with that property, with the same content |
| `SessionTheorems.KeyAndRowsNeverPart` | src/session_keys.rs:53-103 | over every run of starts, requests, stops, rotations and key losses, with any clock and any storage failure: while the key store holds a key, every sealed row is sealed under it |
| `SessionTheorems.StoringBeforeDeletingPartsThem` | src/session_keys.rs:88-103 | the order matters: after any run, a rotation that stores the new key first parts key and rows exactly if the key is stored, the deletion fails and some row is sealed |
| `SessionTheorems.RotatingUnderServerPartsThem` | src/metadata/process_lock.rs:18-23 | the lock matters: after a rotation under a running server, the next issued session keeps key and rows together exactly if it has no token to seal or the key did not change |
| `SessionTheorems.RestartRestoresSessions` | src/sessions.rs:357-388 | restarting after any run, while the key is stored, succeeds and restores exactly the sessions that outlive the current second, each with its token and its times in whole seconds |
| `SessionTheorems.OpeningNeedsTheSealingKey` | src/sessions.rs:820-865 | rows with a sealed token do not open under another key |
| `SessionTheorems.StartKeepsKeyFit` | src/server/runtime.rs:296-330 | starting a server keeps key and rows together, whatever fails |
| `SessionTheorems.FirstStartCreatesKey` | src/session_keys.rs:53-86 | the first start of an installation creates and stores its key and serves without sessions |
| `SessionClock.EveryRunIsExact` | src/sessions.rs:459-574 | over every run with any clock readings and storage failures, memory and rows hold exactly the live sessions that every look at their expiry since the issuance has spared, with the issued content |
| `SessionClock.VerifyAgreesExactlyIfSpared` | src/sessions.rs:540-548 | over every run with any clock, `verify` answers as the never-pruned log exactly if no look since the issuance came at or after an expiry that now lies ahead; and it never answers anything else than the log, or nothing |
| `SessionClock.RevokeAgreesExactlyIfSpared` | src/sessions.rs:558-574 | the same condition decides whether `revoke` reports what the log says |
| `SessionClock.NeverBackSpares` | src/sessions.rs:654-676 | a clock that never goes back meets the condition |
| `SessionClock.OpeningKeepsCapsIff` | src/sessions.rs:357-388 | with any clock a store that opens holds at most the total limit, and keeps all limits exactly if the rows that it loads do so for every principal |
| `SessionTokenKey.FromHex` | src/sessions.rs:633-647 | 64 ASCII bytes are read in pairs as the standard library reads a hexadecimal byte |
| `SessionTokenKey.HexRoundTrip` | src/sessions.rs:633-652 | reading the printed digest gives the digest |
| `SessionTokenKey.AcceptedTextReprints` | src/sessions.rs:633-652 | an accepted text is printed again as itself exactly if it is lower-case hexadecimal |
| `SessionTokenKey.DigitsAreHexadecimal` | src/sessions.rs:633-652 | the digits that are printed, and those that are read in either case, in their order |
| `SessionTokenKey.PlusSignIsAccepted` | src/sessions.rs:633-647 | a pair may be a plus sign and one digit, so another text than the printed one is accepted |
| `LfsPointer.OidFromHex` | src/lfs.rs:181-195 | accepts exactly 64 hexadecimal digits of either case and lowers them |
| `LfsPointer.OidFromCanonicalHex` | src/lfs.rs:197-213 | accepts exactly 64 lower-case hexadecimal digits, unchanged |
| `LfsPointer.NewOidRoundTrip` | src/lfs.rs:161-179 | both spellings of an identifier read back as the identifier |
| `LfsPointer.CanonicalReaderIsStrict` | src/lfs.rs:197-213 | the strict reader accepts exactly the canonical spelling and agrees with the lenient one on it |
| `LfsPointer.ExtensionKeysAreExact` | src/lfs.rs:533-554 | exactly the keys `ext-`, digit, hyphen, name have a priority, and it is the digit; the name starts with a letter, a digit or an underscore and holds no ASCII white space |
| `LfsPointer.ExtensionKeyHasNoWhitespace` | src/lfs.rs:533-554 | no accepted extension key holds ASCII white space, so a printed line splits at the space behind it |
| `LfsPointer.NormalizingIsIdentity` | src/lfs.rs:574-592 | an accepted extension value is a canonical pointer identifier and is stored unchanged |
| `LfsPointer.PointerBuilder.AddExtension` | src/lfs.rs:354-366 | inserts in place as specified; on an error the pointer stays as it was |
| `LfsPointer.ToPointerFile` | src/lfs.rs:491-506 | builds the specified rendering line by line; empty for size zero |
| `LfsPointer.ParsePointer` | src/lfs.rs:394-484 | the loop over the lines, with its order check, yields the specified pointer or the specified first error |
| `LfsPointerProofs.InsertContents` | src/lfs.rs:556-572 | inserting into the sorted map replaces the key's value and keeps everything else and the order |
| `LfsPointerProofs.SortedIsCanonical` | src/lfs.rs:556-572 | two sorted maps with the same entries are equal |
| `LfsPointerProofs.InsertExtensionKeepsValid` | src/lfs.rs:354-366 | insertion keeps keys sorted, well formed and of distinct priorities |
| `LfsPointerProofs.ParseYieldsValid` | src/lfs.rs:394-484 | every parsed pointer has these properties |
| `LfsPointerProofs.InsertionOrderIsIrrelevant` | src/lfs.rs:354-366 | extensions with distinct priorities are all accepted in any order and give the same pointer and rendering |
| `LfsPointerProofs.TextParses` | src/lfs.rs:394-484 | the text of a pointer parses to it under any accepted version URL, with or without the last line feed |
| `LfsPointerProofs.PointerRoundTrip` | src/lfs.rs:394-506 | parsing the rendering gives the pointer back exactly if it is the canonical empty object, or its size is not zero and its rendering is below 1024 bytes; every zero-size pointer renders to the empty file, which parses to the canonical empty object |
| `LfsPointerProofs.BuiltAndParsedRoundTrip` | src/lfs.rs:324-366 | the same for every pointer that `new` and any successful insertions build, and for every parsed one |
| `LfsPointerAcceptance.PointerTextsAreExact` | src/lfs.rs:394-484 | a text is read as a pointer exactly if it is empty and the pointer is the canonical empty object, or it has less than 1024 bytes and its non-blank lines are a version line, the extension lines in key order, the identifier line and the size line, with keys and values of the stated forms |
| `LfsPointerAcceptance.AcceptedKeysIncrease` | src/lfs.rs:437-444 | the keys of an accepted text increase strictly |
| `LfsPointerAcceptance.OutOfOrderIsRefused` | src/lfs.rs:430-444 | the first line without a space, or whose key is not above the key before it, is answered as the unexpected line |
| `LfsPointerAcceptance.InsertionIsExact` | src/lfs.rs:354-366 | which keys and values are refused and why, a priority that another key has included; a key that is there gets the new value and every other entry stays |
| `LfsPointerAcceptance.OidTextsAreExact` | src/lfs.rs:161-195 | exactly 64 hexadecimal digits of either case, alone or behind `sha256:`, white space around them aside, are read, as their lower-case form |
| `LfsPointerAcceptance.FirstBadIsFirst` | src/lfs.rs:186-194 | the reported place is that of the first character that is no digit, in bytes |
| `LfsPointerAcceptance.RenderedText` | src/lfs.rs:491-506 | the printed text, field by field, or nothing for size zero |
| `LfsPointerCanonical.CanonicalFormIsBounded` | src/lfs.rs:17-25 | the rendering of an accepted text is at most twelve bytes longer than the text |
| `LfsPointerCanonical.CanonicalFormIsFixed` | src/lfs.rs:394-506 | an accepted text of at most 1011 bytes with a non-zero size re-parses to an equal pointer, and its rendering is a fixed point |
| `LfsPointerCanonical.BoundIsAttained` | src/lfs.rs:17-25 | every pointer has an accepted text exactly twelve bytes shorter than its rendering |
| `LfsPointerCanonical.LimitIsTight` | src/lfs.rs:394-506 | a concrete accepted text of 1012 bytes has a rendering that is refused |
| `Decimals.Decimal` | src/lfs.rs:499 | the decimal numeral of a number, without leading zeros |
| `Decimals.DecimalIsShortest` | src/lfs.rs:394-484 | no accepted spelling of a size is shorter than the printed one |
| `LineText.LinesOfTerminated` | src/credentials.rs:976-979 | text printed line by line is split into the same lines, whatever follows |
| `LineText.LineEndings` | src/lfs.rs:410 | a line ends at a line feed, a carriage return before it belongs to the ending, and the last line needs none |
| `ChildProcess.Environment.ReceiveTimeout` | src/child_process.rs:298-305 | an event of a stream that has none before, a full wait, or the news that no reader is left; the world may change in any allowed way |
| `ChildProcess.AcceptPipeEvent` | src/child_process.rs:314-340 | the stream's output is what its reader sent, and a read error or an excess is reported |
| `ChildProcess.CollectPipeEvents` | src/child_process.rs:379-433 | the outputs are those of the events that came, one per stream at most, and the error is that of the first of them that stands for one |
| `ChildProcess.FirstErrorIsFirst` | src/child_process.rs:379-433 | the remembered error is that of the first event that stands for one |
| `ChildProcess.TerminateProcessTree` | src/child_process.rs:464-484 | the tree is signalled, and the child is reaped unless a wait or a kill has failed, which is the only error |
| `ChildProcess.AcceptingTracks` | src/child_process.rs:314-340 | accepting an event keeps the waiter's outputs equal to what the readers sent |
| `ChildProcess.SteppingTracks` | src/child_process.rs:212-229 | no step of the world breaks that, and an event can be received once per stream |
| `ChildProcess.AcceptQueued` | src/child_process.rs:212-229 | all queued events are accepted, up to the first error |
| `ChildProcess.CheckExit` | src/child_process.rs:231-238 | a reported exit is the child's, whatever its status, and the drain grace starts then; the check fails only if the wait has failed |
| `ChildProcess.CheckDeadline` | src/child_process.rs:250-268 | `TimedOut` is answered only at or after the deadline, for a child of a signalled tree that no wait had seen exit and that has been reaped, with the output that had been received from each stream |
| `ChildProcess.TendExited` | src/child_process.rs:270-296 | the stop branch of an exited child runs at most once, while a pipe is open, and only after a descendant was found or two seconds passed; afterwards both outputs are complete or the wait ends |
| `ChildProcess.Rest` | src/child_process.rs:298-310 | every polling round takes a whole interval, receives an event, or learns that the readers are gone |
| `ChildProcess.WaitForChild` | src/child_process.rs:177-312 | over all interleavings: success means the child was reaped, its status is the one reported, both outputs are exactly what the readers sent without error or excess, and, if inherited pipes are errors, that nothing was signalled; time-out, output limit and inherited pipe are answered only after signalling and reaping, a time-out with the received output of a child that was not seen to exit, an inherited pipe only after a descendant or the grace, an open pipe and one more second; a failed wait is answered only if a wait or a kill has failed; the loop ends within the time to the timeout or the exit, the two-second grace and nine more intervals |
| `PipeCapture.ReadPipe` | src/child_process.rs:342-377 | for every split into reads: everything is kept, or the first limit bytes, and an excess is reported exactly for a hard limit that the total exceeds |
| `PipeCapture.ReadBoundedLossyBody` | src/http_transport.rs:15-33 | for every split into chunks the body is the lossy text of the first limit bytes |
| `Decoding.ScanCompletePrefix` | src/process_output.rs:46-62 | the scanning loop ends and returns the length without the part that the end cuts off |
| `Decoding.CuttingFollowsDecoding` | src/process_output.rs:17-31 | for any decoder that never changes its mind: decoding the cut prefix gives a prefix of decoding the whole, and the cut is the last boundary within the limit |
| `Decoding.CuttingValidInput` | src/process_output.rs:33-44 | for valid input the cut leaves valid input and is the last boundary within the limit |
| `Decoding.LossySplits` | src/process_output.rs:17-31 | at a boundary lossy decoding splits |
| `Decoding.PrefixEndsAtBoundary` | src/process_output.rs:46-62 | the complete prefix of a prefix ends at a boundary of the whole |
| `Utf8.PartialMeansExtensible` | src/process_output.rs:46-62 | the sequences called partial are exactly those that more bytes can complete |
| `Utf8.UnitKinds` | src/process_output.rs:46-62 | a character starts the input exactly if an initial part is well formed, and the input is cut off exactly if all of it is partial |
| `Utf8.BadIsMaximalSubpart` | src/process_output.rs:17-31 | an ill-formed unit is a maximal subpart in the sense of section 3.9 of the Unicode Standard |
| `Utf8.Utf8IsDecoder` | src/process_output.rs:46-62 | UTF-8 never changes a unit when more input follows |
| `Utf8.LossyTextIsText` | src/process_output.rs:17-31 | lossy decoding always yields well-formed text |
| `Utf8.LossyKeepsText` | src/process_output.rs:17-31 | well-formed text decodes to itself |
| `Utf8.LossyStep` | src/process_output.rs:17-31 | decoding goes unit by unit: a character stays, anything else becomes one U+FFFD |
| `Utf8Text.DecodesExactlyEncodings` | src/credentials.rs:929-930 | bytes decode to a text exactly if the text encodes to them, and the accepted bytes are the well-formed ones |
| `Utf8Text.DecodeAcceptsText` | src/credentials.rs:929-930 | strict decoding succeeds exactly on valid UTF-8 |
| `ProcessOutput.CompleteUtf8PrefixLen` | src/process_output.rs:46-62 | the length of the input without a cut-off character |
| `ProcessOutput.TruncatedLossyMessage` | src/process_output.rs:17-31 | the message is the specified one |
| `ProcessOutput.FewBytesAreDropped` | src/process_output.rs:46-62 | at most three bytes are dropped |
| `ProcessOutput.TruncationFollowsDecoding` | src/process_output.rs:17-31 | the text before the marker is a prefix of the lossy decoding of the whole input, and at most three bytes below the limit are dropped |
| `ProcessOutput.NothingIsCutWithinLimit` | src/process_output.rs:17-44 | within the limit input is decoded as a whole without a marker, and text stays as it is in both truncations |
| `ProcessOutput.Message.TruncateWithEllipsis` | src/process_output.rs:33-44 | edits the message in place to the specified text |
| `ProcessOutput.CharBoundariesAreUnitEnds` | src/process_output.rs:33-44 | the byte test for a character boundary agrees with the decoder on valid text |
| `ProcessOutput.EllipsisKeepsWholeCharacters` | src/process_output.rs:33-44 | what is kept is valid text, the longest run of whole characters within the limit, and at most three bytes short of it |
| `Credentials.NewLookupIsValid` | src/credentials.rs:130-151 | the attributes of every lookup are free of control characters, whether or not plain HTTP was opted in to |
| `Credentials.LookupsAreExact` | src/credentials.rs:130-151 | a lookup can be made exactly for an HTTP URL with a host and without credentials, query and fragment, which is HTTPS or loopback unless plain HTTP was opted in to, and for a user name of at most 2048 bytes that is not blank, padded or holding control characters; the other constructor supplies `lfscloud` |
| `Credentials.UrlRefusalIsJustified` | src/credentials.rs:858-893 | a refused URL breaks the rule that the error names |
| `Credentials.FieldRefusalIsJustified` | src/credentials.rs:895-916 | a refused user name breaks the rule that the error names |
| `Credentials.NormalizedPathIs` | src/credentials.rs:1016-1023 | a path is normalised to all of it but the slashes at its start, and is absent exactly if nothing is left |
| `Credentials.CredentialQueryInput` | src/credentials.rs:274-289 | writes the attribute lines of the lookup and a blank line |
| `Credentials.PrintedQuery` | src/credentials.rs:274-289 | the parts written one after the other are the attribute lines |
| `Credentials.ParseGitCredentialFields` | src/credentials.rs:974-998 | the loop over the lines, up to the first blank one, fills the specified fields or stops at the specified error |
| `Credentials.UntilBlank` | src/credentials.rs:976-979 | the lines before the first empty one |
| `Credentials.TokenError` | src/sessions.rs:597-622 | exactly the non-empty texts of at most 1024 bytes without white space and control characters are tokens |
| `Credentials.FieldsAreLastValues` | src/credentials.rs:974-998 | parsing succeeds exactly if every line before the blank one is an attribute, and every field is the last value of its key |
| `Credentials.AcceptanceIsExact` | src/credentials.rs:918-962 | an answer yields a token exactly if it is valid UTF-8 of at most 8192 bytes, all its lines before the first blank one are attributes, the last protocol and user name are the lookup's, the last host is the URL's host with its port if it has one, the last path is the URL's behind the slashes of both, and the last password is the token |
| `Credentials.RefusalsAreExact` | src/credentials.rs:918-962 | which of size, encoding, lines, password, values and token decides the error of a refused answer |
| `CredentialProofs.AnswersAreAccepted` | src/credentials.rs:918-1023 | every answer within 8192 bytes that holds the query's attributes and the password in any order, repeated or not, and any unknown attributes, is accepted and yields the token, whatever follows a blank line |
| `CredentialProofs.AnsweredValue` | src/credentials.rs:974-998 | in such an answer the last value of every known key is the expected one |
| `CredentialProofs.EchoIsAccepted` | src/credentials.rs:274-289 | in particular the query itself with a password line added |
| `CredentialProofs.QueryReadsBack` | src/credentials.rs:274-289 | the query is read back as exactly the attributes that it was printed from |
| `CredentialProofs.QueryLines` | src/credentials.rs:274-289 | the query is the lines `protocol=`, `host=` with host and port, `path=` with the path behind its slashes unless that is empty, and `username=` |
| `CredentialProofs.AnswerLines` | src/credentials.rs:974-979 | the parser sees exactly the lines of the answer |
| `Urls.HttpUrlPolicyIsExact` | src/http_transport.rs:85-126 | exactly the texts that pass the four text checks, parse to an HTTP URL with a host and without credentials, query and fragment, and use HTTPS, a loopback address or the opt-in are accepted |
| `Urls.RefusalIsJustified` | src/http_transport.rs:85-126 | a refused text breaks the rule that the error names |
| `Urls.PrintedUrl` | src/http_transport.rs:85-120 | a URL prints as its scheme, host, port if there is one, and every path segment behind a slash |
| `Urls.RawPathOf` | src/http_transport.rs:136-149 | the raw check looks at the segments between the first slash behind the authority and a query or fragment |
| `Urls.PrintedHasNoDotSegment` | src/http_transport.rs:136-156 | a printed URL with a kept path passes the raw check |
| `Urls.PrintedUrlValidates` | src/http_transport.rs:85-120 | printing a URL whose path does not end with an empty segment gives a text that is accepted as the same URL |
| `Urls.OriginValidates` | src/http_transport.rs:85-120 | the text without a path is accepted as the URL with the root path |
| `Urls.TrimmedText` | src/init.rs:137-139 | dropping the last slashes of a printed URL drops the empty segments at the end of its path |
| `Urls.TrimmedUrlValidates` | src/init.rs:137-139 | the normalised server URL is accepted as the URL with those segments dropped |
| `GitRemotes.RepositoryPathsAreExact` | src/git.rs:589-609 | exactly `owner/name` and `owner/name.git` of safe parts are accepted, slashes around them aside |
| `GitRemotes.ParsedRemoteIsValid` | src/git.rs:359-384 | every parsed remote has a host of plain labels, a safe owner and a safe name without the suffix |
| `GitRemotes.RouteIsLiteral` | src/git.rs:617-670 | host, owner and name of a parsed remote need no escaping in a path and are no dot segments |
| `GitRemotes.HostCharacters` | src/git.rs:632-646 | an accepted host consists of letters, digits, hyphens and inner dots |
| `GitRemotes.ScpSpelling` | src/git.rs:564-587 | the scp-like spelling, with or without user and suffix, names the repository |
| `GitRemotes.UrlSpelling` | src/git.rs:535-562 | the HTTPS and SSH spellings name the same repository |
| `GitRemoteAcceptance.RemotesAreExact` | src/git.rs:359-384 | a text is accepted as a remote, and as this repository, exactly if the name is clean, the text is not padded, and it is an SSH URL, or an HTTPS URL without a user, without password, query and fragment, or the scp-like form with no user or `git`, whose path is owner and name |
| `Routes.MutableUrl.PopIfEmpty` | src/init.rs:90-98 | an empty last segment is removed in place |
| `Routes.MutableUrl.Pop` | src/init.rs:90-102 | the last segment is removed in place; a path of one becomes the root |
| `Routes.MutableUrl.Extend` | src/init.rs:141-158 | the segments are added in place, one after the other |
| `Routes.ResolveRoute` | src/init.rs:54-68 | the route of the remote below the server, or the first violation of the URL policy |
| `Routes.RecoverRoute` | src/init.rs:83-120 | pops five segments, resolves again and compares |
| `Routes.RouteUrl` | src/init.rs:54-68 | the URL of a route is that of the server with its path segments, none for the root, followed by host, owner, name with `.git`, `info` and `lfs`; the server is the printed URL without the slashes at its end |
| `Routes.RecoveryIsExact` | src/init.rs:83-120 | recovery succeeds exactly if the last five segments are the remote's host, owner, name with `.git`, `info` and `lfs`, in that order, behind a base that does not end with an empty segment; the server is then the URL without the five segments |
| `Routes.RouteInverse` | src/init.rs:54-120 | recovering from a resolved route gives back the route, server base included, exactly if the server's path is the root or does not end with an empty segment |
| `Routes.RecoveredIsResolved` | src/init.rs:83-120 | a recovered route is what resolving its server gives, and its URL parses as the configured one |
| `Routes.OneRepositoryPerUrl` | src/init.rs:72-76 | no URL is the route of two repositories |
| `Routes.DotsBehindNoSlashes` | src/http_transport.rs:136-149 | the failing case is real: a text without slashes behind the scheme passes the dot-segment check, and its route is not recovered |
| `Routes.PoppedAndPushed` | src/init.rs:90-102 | popping five segments and pushing the route gives back the path exactly if it is a route |
| `KeyOrder.AgainChangesNothingIff` | src/config_edit.rs:447-526 | doing edits of a mapping twice keeps the order of its keys exactly if no key that keeps its place is new after one that is moved to the back |
| `KeyOrder.SettledAfterwards` | src/config_edit.rs:518-526 | after one run the edits always have that property |
| `KeyOrder.OrderIsSameIff` | src/config_edit.rs:447-526 | edits leave the order of the keys as it is exactly if the moved ones are at the back already, those that stay are there and the removed ones are not |
| `YamlEdits.InsertFacts` | src/config_edit.rs:524-526 | insertion sets one value, keeps the others and places the key as the mapping type does |
| `YamlEdits.EntryFacts` | src/config_edit.rs:447-458 | asking for an entry keeps every value and creates the entry if it is not there |
| `YamlEdits.StepFacts` | src/config_edit.rs:447-526 | an edit orders the keys as its operation says and changes the value below its own key only |
| `YamlEdits.ApplyAt` | src/config_edit.rs:447-526 | after a successful run every edited key holds what its edit leaves when it is done alone |
| `YamlEdits.SameKeysSameValues` | src/config_edit.rs:577-583 | mappings with the same keys in the same order and the same values are equal |
| `YamlEditProofs.ApplyTwice` | src/config_edit.rs:162-185 | a second run of successful nested edits succeeds, and changes nothing exactly if they settle at every depth |
| `YamlEditProofs.SettledAfterOnce` | src/config_edit.rs:162-185 | from the second run on nothing changes |
| `YamlEditProofs.UntouchedIsKept` | src/config_edit.rs:162-185 | a path that no edit names leads to the same value afterwards, also when the edits fail |
| `YamlEditProofs.ApplyKeepsWellFormed` | src/config_edit.rs:447-526 | edits never put a key into a mapping twice |
| `ConfigEdit.EditableServerConfig.UpsertRepositoryProvider` | src/config_edit.rs:162-185 | document and answer are the specified ones |
| `ConfigEdit.EditableServerConfig.UpsertStorageProvider` | src/config_edit.rs:230-259 | document and answer are the specified ones, also when the credentials are no mapping |
| `ConfigEdit.EditableServerConfig.UpsertRepository` | src/config_edit.rs:272-315 | document and answer are the specified ones |
| `ConfigEdit.EditableServerConfig.RemoveMapEntry` | src/config_edit.rs:495-505 | document and answer are the specified ones |
| `ConfigEdit.EditableServerConfig.RemoveRepository` | src/config_edit.rs:318-330 | document and answer are the specified ones, also when there is no section |
| `ConfigEdit.EditableServerConfig.MapEntryMut` | src/config_edit.rs:447-458 | finds or creates the section and the entry |
| `ConfigEdit.SetOptionalString` | src/config_edit.rs:518-526 | a supplied value is inserted after the fields before it, a missing one is not |
| `ConfigEdit.NestedEdits` | src/config_edit.rs:447-458 | editing an entry and putting it back is the nested edit of the document |
| `ConfigEdit.MapEntryMeans` | src/config_edit.rs:409-424 | a look-up that succeeds says that section and entry are mappings if they are there |
| `ConfigSlots.SlotAfter` | src/config_edit.rs:518-526 | a field that is edited holds what its edit leaves, one that is not holds what it held |
| `ConfigSlots.StorageSettlesIff` | src/config_edit.rs:244-256 | the exact condition under which the edits of a storage provider settle |
| `ConfigSlots.FlatSettles` | src/config_edit.rs:518-526 | fields that are only set and removed settle at once |
| `ConfigEditProofs.ProviderUpsertTwice` | src/config_edit.rs:162-185 | a second upsert of a repository provider answers `Unchanged` and leaves the document equal |
| `ConfigEditProofs.StorageUpsertTwice` | src/config_edit.rs:230-259 | a second upsert of a storage provider succeeds; it answers `Unchanged` and leaves the document equal exactly under a condition on the mapping type, the supplied fields and the entry |
| `ConfigEditProofs.UniformPolicySettles` | src/config_edit.rs:230-259 | it always does so if the mapping type keeps, or moves, keys for both ways of writing alike |
| `ConfigEditProofs.StorageUpsertThrice` | src/config_edit.rs:230-259 | the third upsert always changes nothing |
| `ConfigEditProofs.StorageUpsertLeavesTheRest` | src/config_edit.rs:230-259 | no value outside the supplied fields of the named storage provider changes, whatever the answer |
| `ConfigEditProofs.ProviderUpsertLeavesTheRest` | src/config_edit.rs:162-185 | no value outside the supplied fields of the named repository provider changes, whatever the answer |
| `ConfigEditProofs.StorageReadsBack` | src/cli/configuration.rs:287-312 | after a successful upsert the entry reads as the merge that `with_effective_values` computed before it |
| `ConfigEditProofs.ProviderReadsBack` | src/config_edit.rs:128-185 | after a successful upsert a repository provider reads as its supplied values over the old ones; clearing the API URL wins |
| `ConfigEditProofs.StorageUpsertFailsIff` | src/config_edit.rs:244-252 | past the checks an upsert fails exactly if credentials are supplied and the existing ones are no mapping |
| `ConfigEditProofs.FailedUpsertKeepsDocumentIff` | src/config_edit.rs:242-252 | for every mapping type, a failed upsert leaves the document as it was exactly if it was not to change the type and every key that the mapping type moves is at the back already |
| `ConfigEditProofs.EditedIsSameIff` | src/config_edit.rs:447-458 | for every mapping type, editing an entry leaves the document as it was exactly if the entry stays as it was and asking for section and entry moves neither |
| `ConfigEditProofs.RemovedEntryIsGone` | src/config_edit.rs:495-505 | a removal finds its entry exactly if there is one, and then it is gone |
| `ConfigEditProofs.RemovalLeavesTheRest` | src/config_edit.rs:495-505 | a removal keeps the other entries and sections, in order |
| `ConfigEditProofs.AddThenRemove` | src/config_edit.rs:495-505 | removing an entry that was just added finds it, and gives back the document exactly if the section was there and asking for it does not move it |
| `ConfigRepositoryProofs.RepositoryUpsertTwice` | src/config_edit.rs:272-315 | a second upsert of a served repository answers `Unchanged` and leaves the document equal |
| `ConfigRepositoryProofs.RepositoryUpsertMeaning` | src/config_edit.rs:272-315 | the items afterwards, when the answer is `Added`, and that `Unchanged` leaves the document equal |
| `ConfigRepositoryProofs.RepositoryUpsertLeavesTheRest` | src/config_edit.rs:272-315 | no value outside the supplied fields of the item changes: not in other sections, whatever the answer, not in other items, and not in the item, whatever its other keys hold |
| `ConfigRepositoryProofs.ItemLeavesTheRest` | src/config_edit.rs:299-309 | in the edited item every path stays that is not a supplied field |
| `ConfigRepositoryProofs.ItemsAfter` | src/config_edit.rs:272-315 | one item is edited, or added at the end, and stays the first with its identifier; the others stay |
| `ConfigRepositoryProofs.ItemReadsBack` | src/config_edit.rs:299-309 | the item has the identifier, the supplied values, and the old ones elsewhere |
| `ConfigRepositoryProofs.RemovalMeaning` | src/config_edit.rs:318-330 | the first mapping with the identifier is taken out and nothing else |
| `ConfigRepositoryProofs.MissingRemovalMeaning` | src/config_edit.rs:318-330 | a removal that does not find its repository changes no value, and leaves the document as it was exactly if the section is there and asking for it does not move it |
| `ConfigRepositoryProofs.RemovalCreatesSection` | src/config_edit.rs:318-330 | a removal that finds no section adds an empty one to the document |
| `ConfigRepositoryProofs.AddedThenRemoved` | src/config_edit.rs:318-330 | removing an added repository gives back the items |
| `ConfigChecks.ProviderUpsertAnswers` | src/config_edit.rs:162-185 | refused, with the document unchanged, exactly for a blank identifier, a section or entry that is no mapping, or a new entry without `--type`; otherwise the answer tells whether the entry is new and whether the document changed |
| `ConfigChecks.StorageUpsertAnswers` | src/config_edit.rs:230-259 | the same with the first missing one of four flags, and with credentials that are no mapping as the only later failure |
| `ConfigChecks.RepositoryUpsertAnswers` | src/config_edit.rs:272-315 | the same with the first missing one of six flags and a section that is no sequence of mappings |
| `ConfigChecks.ProviderIsWritten` | src/config_edit.rs:171-180 | the values stand at the keys of the entry, by path from the root of the document |
| `ConfigChecks.StorageIsWritten` | src/config_edit.rs:242-256 | the values stand at the keys of the entry, by path from the root of the document |
| `ConfigChecks.CredentialsAreWritten` | src/config_edit.rs:244-252 | the credentials stand at their keys below the entry |
| `ConfigChecks.RepositoryIsWritten` | src/config_edit.rs:299-309 | the values stand at the keys of the item, in the sequence at `repositories` |
| `ConfigStorageAdd.ExistingGetsNoDefaults` | src/cli/configuration.rs:245-284 | for an entry that exists the command supplies its flags alone, and after a successful upsert the entry reads as the flags with the old values behind them |
| `ConfigStorageAdd.ClientSecretIsEnough` | src/cli/configuration.rs:245-284 | with a client secret a new entry is added from the flags, and where one is missing from `google_drive`, `gcloud`, the default directory and `.lfscloud`, and reads so |
| `ConfigStorageAdd.AuthorizedValuesAreWritten` | src/cli/configuration.rs:125-145 | the entry finally reads as the values that the authorization was given, but for the root folder it may have found |
| `GitOutput.ParseLfsFilterAttributePaths` | src/git_output.rs:25-51 | the loop over the fields yields the specified paths or the specified first error |
| `GitOutput.SafeIffContained` | src/git_output.rs:54-65 | exactly the relative paths whose first piece names something and which never go up are safe |
| `GitOutput.SafePathStaysBelow` | src/git_output.rs:54-65 | a safe path leads strictly below any directory that it is followed from |
| `GitOutput.StreamParses` | src/git_output.rs:25-51 | the stream of any triples with non-empty paths and NUL-free fields yields, in order, exactly the paths marked `filter=lfs`, or fails if one of them is not contained; the last NUL may be missing |
| `GitOutput.AcceptedIsEncoded` | src/git_output.rs:25-51 | nothing else is accepted |
| `GitOutput.EmptyPathIsRejected` | src/git_output.rs:30-36 | an empty path field that is not the last field is always rejected |

## Left out

- HTTP servers and clients, GitHub and Google Drive calls: network code around short branch tables.
- The shared object cache, migration, locks of uploads and the rest of the metadata database.
- YAML text, `load` and `save`: rendering, validation of the whole configuration and atomic replacement are library and
  file-system behaviour; listing all entries of a section is a map over them.
- Cryptography, SHA-256, randomness and the JSON encodings, as stated under the assumptions.
- The configuration with an explicit session secret: the system model always uses the managed key.
- A key store whose content is replaced from outside: only its loss is an event.
- Poisoned locks, panics of threads and their joining; a reader that dies just never sends.
- Wall-clock time of the waiter: its polling rounds are bounded, each of at least one interval unless an event or the end
  of the channel cuts it short; how long the scheduler takes for one is not.
- A waiter with neither a timeout nor a child that exits: it may wait for ever.
- Signals, process groups and the platform branches of `process_tree_has_descendants`: any answer is allowed.
- The wording of error messages; the model has one constructor for each kind of error, and where the source names a value
  in the message the constructor does not always carry it.
- Paths in flags that are not UTF-8, terminal prompts, command-line parsing, logging and redaction.
- Opaque URLs and schemes without an authority, beyond their rejection, and the escaping of segments that are not literal.
- Windows: paths of attribute output are Unix bytes.
- SlidingWindow: counts from the start of the process, because the source forgets issuances at a restart.
- RetryAfterIsExact: speaks of later times that the clock type can represent, and of a clock from which the last of them
  is at most `u64` seconds away.
- StartKeepsKeyFit: models the branch with the managed key; a server that is configured with a secret of its own, or with
  none, does not use the key store.
