# Verified model of the messenger backend

A Dafny model of the stateful cores of the faceless-server-go messenger: who is online, calls in
progress, uploads and their quota, contacts, contact codes, invitations, avatars, stored messages,
the proof-of-work challenges and the placeholder rewriter. `dafny verify dfyconfig.toml` checks it.

## How it is built

- A table is a sequence or map of rows, a mutex-guarded map is a map. Each core has a class whose
  methods follow the handlers statement by statement, and a function `Step` (in `AvatarSteps`:
  `Next`) over a datatype of events. The methods are proved to do what `Step` says, so the lemmas
  about `Step` and about whole runs (`After`, `Reach`) are about the methods. `Files.Service` and
  `Cleanup.Jobs` are proved against functions of the rows instead; `Quota` has the events for them,
  which use the same functions, and lemmas there say which events a request, a deletion and a sweep
  are.
- A run is any sequence of events. Where a handler is not atomic in the source (upload requests and
  commits of files and avatars, additions and accepts of contacts, registrations, regenerations of
  codes, acknowledgements, the delivery of pending events, disconnect cleanup, sweeps, the purge of
  old messages) its parts are separate events, so that a run is an arbitrary interleaving.
- Time is a parameter or a clock that does not run backwards. Ids, codes and random bytes are
  arbitrary values that must pass the checks the code makes. SHA-256 is an arbitrary function. The
  object store is a map from keys to sizes. Emitted and broadcast events are recorded.
- History that the source does not store is named as such where it is declared: the broadcasts in
  `Presence`, numbers of offers and of sends, the time of a commit, the inviter of a user.

## Findings

Where an intended property does not hold of every run, there is a lemma with a concrete run, and a
theorem that says for every run exactly when it holds.

- Presence: a service socket that connects during the offline debounce leaves a user shown online
  for good (`StaysOnline`); a service socket that leaves as the last socket suppresses the next
  online broadcast (`NeverAnnounced`). Exactly when: `AccurateExactly`, `AlternatesExactly`.
- Calls: disconnect cleanup can take down a later call on the same pair (`LateCleanupEndsNewCall`;
  exactly when: `CleanupEndsExactly`). Its substring test finds the calls of the right user because
  all ids have one length (`ContainsParty`); with other ids it would not (`ContainsStranger`).
- Quota: two requests in flight, or one late commit, exceed it (`TwoInFlightOverrun`,
  `LateCommitOverrun`). Exactly when: `QuotaExactly`; by how much at most: `QuotaHolds`.
- Files: a sweep interrupted between reading and deleting can take a file that was just committed
  and linked (`InterruptedSweepTakesLinkedFile`; exactly when: `InterruptedSweepExactly`). A purge
  of old messages can leave a file linked to a message that is gone (`PurgeMissesFile`; exactly when:
  `InterruptedPurgeExactly`).
- Avatars: two requests at once leave two pending avatars (`TwoPending`), and committing both leaves
  two committed ones (`TwoCommitted`); exactly when: `SingleExactly`. A new request during a commit
  loses the default avatar (`RequestDuringCommit`), and so do a commit that is sent twice
  (`CommitTwice`) and a sweep during a commit (`SweepDuringCommit`), these two with the object;
  exactly when: `ShownExactly`, `BackedExactly`.
- Contacts: two crossing requests block each other until one is rejected (`CrossingRun`; exactly
  when an accept does nothing: `AcceptVoidExactly`). An accept that runs after its request is gone
  makes the table one-sided (`AcceptAfterReject`; exactly when: `ConsistentExactly`), and after that a
  request can be stuck that nobody crosses (`StuckRequest`).
- Contact codes: a code that was found free can be assigned after it has been retired
  (`HeldAndRetired`; exactly when: `NoneRetiredExactly`). A given-up code is not put on record as
  retired when its handler had read an older one, or when it has an older record already, and can
  then come back early (`ReusedAtOnce`, `ReusedAfterOldRecord`; exactly when: `RetiredExactly`).
- Messages: an acknowledgement can delete a later message that uses the id of the one it read
  (`LateAckTakesNewMessage`; exactly when: `FatesFitExactly`). An event that is queued while others
  are delivered is deleted unseen (`QueuedDuringDrain`; exactly when: `QueuedExactly`).
- Registration: two registrations at once can take the same display name (`RacingNames`; exactly
  when: `NamesExactly`). The message about the name promises 1 to 50 characters, but the code counts
  bytes (`LongName`; the two agree exactly on ASCII text: `BytesExactly`).
- Placeholders: two different queries with `$` in the text can become the same one
  (`DollarCollision`). Exactly when a text can be decoded: `DecodeExactly`.

## Model

| member | source | states |
|---|---|---|
| Placeholders.ConvertPlaceholders | internal/db/postgres.go:138-150 | The loop's output, read with maximal munch on `$digits`, is the query with its parameters numbered in order if and only if no `?` and no `$` of the input stands directly before a digit. |
| Placeholders.ReadBackExactly | internal/db/postgres.go:135-150 | The same if-and-only-if for every text and every starting number. |
| Placeholders.DecimalForm | internal/db/postgres.go:144-145 | Parameter numbers are written with the ten digits, the most significant first. |
| Placeholders.NumberedText | internal/db/postgres.go:135-137 | The intended reading, with the numbers forgotten, is the original text. |
| Placeholders.NumberedParams | internal/db/postgres.go:135-145 | The intended reading has one parameter per `?`, numbered n+1, n+2, ... without gap. |
| Placeholders.RecoverQuery | internal/db/postgres.go:135-150 | For a clean query the text and the parameters 1..n are recovered from the output. |
| Placeholders.DecodeExactly | internal/db/postgres.go:138-150 | For every text a decoder that counts parameters gives the query back if and only if no `$` of the text stands directly before the number of the parameter that comes next. |
| Placeholders.DecodeConvert | internal/db/postgres.go:138-150 | In particular on every text without `$`, also where a digit follows a `?`. |
| Placeholders.CollisionNeedsDollar | internal/db/postgres.go:138-150 | Of two different queries that are rewritten to the same one, one has such a `$`. |
| Placeholders.DollarCollision | internal/db/postgres.go:136-137 | With such a `$` in the text two queries are rewritten to the same one. |
| ProofOfWork.HasLeadingZeroBits | internal/pow/pow.go:108-127 | For every byte string of length L and every difficulty d the loop accepts if and only if the big-endian value is below 2^(8L - min(max(d, 0), 8L)). |
| ProofOfWork.MaskBound | internal/pow/pow.go:119-122 | The partial-byte mask leaves zero exactly when the byte is below the corresponding power of two. |
| Challenges.Service.constructor | internal/pow/pow.go:32-38 | The store starts empty. |
| Challenges.Service.Generate | internal/pow/pow.go:40-54 | The challenge is stored unused, with the service's difficulty and an expiry 300000 milliseconds ahead; no other entry changes. |
| Challenges.Service.Verify | internal/pow/pow.go:56-80 | The answer, and the entry afterwards, for unknown, used, expired and open challenges; no other entry changes. |
| Challenges.Service.Gc | internal/pow/pow.go:97-106 | The loop removes exactly the expired entries. |
| Challenges.RedeemableExactly | internal/pow/pow.go:40-80 | What the store says about a challenge equals what the history of calls says about it. |
| Challenges.FiveMinutes | internal/pow/pow.go:46-70 | A challenge can be redeemed for 300000 milliseconds and no longer, and after one attempt not at all. |
| Challenges.VerifyExactly | internal/pow/pow.go:40-80 | In every run an attempt succeeds if and only if its challenge was issued at most five minutes before, was neither tried nor issued again since, and the hash is below the target; sweeps play no part. |
| Challenges.NoSecondAttempt | internal/pow/pow.go:64-75 | A success after any earlier attempt needs a new issue of the same text in between. |
| Challenges.SingleUse | internal/pow/pow.go:56-80 | With fresh challenges no attempt, good or bad, is followed by a success on the same challenge. |
| Challenges.SweepsInvisible | internal/pow/pow.go:82-106 | Removing all sweeps from a run, even sweeps with an older clock reading, changes no answer. |
| Challenges.SameAnswers | internal/pow/pow.go:82-106 | Two runs that differ only in their sweeps give the same answers. |
| Presence.Tracker.constructor | internal/socketio/presence.go:30-42 | No sockets, no timers, nothing sent. |
| Presence.Tracker.HasAppSocketLocked | internal/socketio/presence.go:136-143 | The loop finds out whether any socket of the user is not a service socket. |
| Presence.Tracker.AddRaw | internal/socketio/presence.go:67-90 | The socket is stored with its type whatever else is open, the timer of the user stops, online is sent for the first app socket without a timer; nobody else is touched. |
| Presence.Tracker.RemoveRaw | internal/socketio/presence.go:92-118 | Exactly that socket goes, with the user if it was the last; the timer is armed if it was the last or the last app socket; an unknown socket changes nothing. |
| Presence.Tracker.OfflineTimer | internal/socketio/presence.go:125-133 | The callback sends offline exactly when no app socket is open; a stopped timer does nothing. |
| Presence.Tracker.GetConnectionCounts | internal/socketio/presence.go:157-171 | Every socket is counted once, in the column of its type. |
| Presence.OpenExactly | internal/socketio/presence.go:67-118 | In every run a socket is open, with its type, exactly if it connected with that type and has neither connected again nor disconnected since. |
| Presence.ReachableExactly | internal/socketio/presence.go:78-105 | In every run a user is in the table exactly while at least one of their sockets is open. |
| Presence.AppExactly | internal/socketio/presence.go:136-143 | In every run a user has an app socket exactly while a socket of another type than service is open. |
| Presence.StepExactly | internal/socketio/presence.go:67-134 | From a right view a step leads to a right view if and only if it is not one of the three breaking steps for that user. |
| Presence.RunInvariant | internal/socketio/presence.go:67-134 | In every reachable state no app socket is open while the offline timer is armed. |
| Presence.AccurateExactly | internal/socketio/presence.go:67-134 | In every run the last broadcast is online exactly while an app socket is open or the timer runs, all along, if and only if the run has no breaking step for that user. |
| Presence.BroadcastHeals | internal/socketio/presence.go:82-89 | Whatever happened before, a broadcast leaves the view of its user right. |
| Presence.AlternatesExactly | internal/socketio/presence.go:82-134 | In every run the broadcasts about a user strictly alternate, starting with online, if and only if no first app connects without a timer while the last broadcast was online, and no timer fires without an app while it was offline. |
| Presence.RunAlternates | internal/socketio/presence.go:82-134 | In particular they alternate in every run without a step that breaks the view. |
| Presence.StaysOnline | internal/socketio/presence.go:69-76 | A run after which contacts see a user online who has no app socket and no timer. |
| Presence.NeverAnnounced | internal/socketio/presence.go:106-110 | A run after which contacts see a user offline who has an app socket. |
| CallKeys.KeyForm | internal/socketio/signaling.go:47-51 | The lesser id, a colon, the other id. |
| CallKeys.KeySymmetric | internal/socketio/signaling.go:47-51 | The key does not depend on the direction of the call. |
| CallKeys.KeyInjective | internal/socketio/signaling.go:47-51 | Colon-free ids share a key only as the same pair. |
| CallKeys.KeyContains | internal/socketio/signaling.go:336-340 | A colon-free text occurs in a key exactly when it occurs in one of the two ids. |
| CallKeys.ContainsParty | internal/socketio/signaling.go:336-340 | For colon-free ids of one length the substring test holds exactly for the two parties. |
| CallKeys.ContainsStranger | internal/socketio/signaling.go:336-340 | Why one length is needed: with ids of different lengths, which the source never makes, it could hold for a stranger. |
| CallTracking.Tracker.constructor | internal/socketio/signaling.go:39-45 | The three maps start empty. |
| CallTracking.Tracker.CallOffer | internal/socketio/signaling.go:72-153 | A bad payload does nothing; an unreachable callee gets a missed call and no record; otherwise a new record with fresh counts replaces any old one, and the answer mark of the pair stays. |
| CallTracking.Tracker.CallAnswer | internal/socketio/signaling.go:155-170 | The pair is marked answered, with or without a record. |
| CallTracking.Tracker.CallIce | internal/socketio/signaling.go:184-222 | One bucket of one role is counted, only for a pair with counts. |
| CallTracking.Tracker.EndCall | internal/socketio/signaling.go:277-298 | All three entries of the key go, and at most one missed call is queued. |
| CallTracking.Tracker.CallHangup | internal/socketio/signaling.go:238-248 | A hangup ends the call of the pair with reason hangup. |
| CallTracking.Tracker.CallReject | internal/socketio/signaling.go:250-260 | A reject ends the call of the pair with reason reject. |
| CallTracking.Tracker.SnapshotKeys | internal/socketio/signaling.go:333-341 | The loop under the lock collects each selected key once and no other. |
| CallTracking.Tracker.CleanupCallTracking | internal/socketio/signaling.go:333-345 | Undisturbed cleanup empties all three maps under exactly the selected keys, consumes exactly their records, and queues one missed call, with that call's parties and type, for each of them that nobody answered and whose callee has no app socket, and no other. |
| CallTracking.RunInvariant | internal/socketio/signaling.go:142-146 | Under any interleaving timings and ICE counts have equal keys, each record sits under the key of its parties and is consumed by at most one endCall, and each forwarded offer has exactly one live, consumed or replaced record. |
| CallTracking.MissedBounded | internal/socketio/signaling.go:277-298 | Missed calls from endCall never exceed the consumed records, nor those the forwarded offers. |
| CallTracking.RecordExactly | internal/socketio/signaling.go:142-146 | A record is on file exactly while the latest offer of its pair is open, with that offer's caller, callee and type. |
| CallTracking.ActiveExactly | internal/socketio/signaling.go:163-170 | A pair is marked answered exactly if somebody answered on it since its last endCall. |
| CallTracking.MissedExactly | internal/socketio/signaling.go:288-298 | endCall queues a missed call if and only if an offer is open, nobody answered since the previous endCall, the reason is not reject and the callee has no app socket; the event names that offer's parties and type. |
| CallTracking.IceExactly | internal/socketio/signaling.go:198-222 | Each candidate count of an open call is the number of candidates of that type from that role since its offer. |
| CallTracking.CleanupSelectsOwnCalls | internal/socketio/signaling.go:333-341 | In runs with colon-free ids of one length cleanup selects exactly the open calls of the user. |
| CallTracking.CleanupEndsExactly | internal/socketio/signaling.go:333-345 | For a key that the snapshot of a cleanup selected, in every interleaving: the later endCall takes the call the snapshot saw if and only if nothing was offered or ended on the pair in between, another call if and only if one offered after the snapshot is open, and otherwise none. |
| CallTracking.LateCleanupEndsNewCall | internal/socketio/signaling.go:333-345 | A run in which cleanup ends a call that began after the snapshot that selected its key. |
| Files.Service.constructor | internal/files/service.go:38-40 | No rows and no objects at the start. |
| Files.Service.CheckUpload | internal/files/service.go:58-76 | A request passes if and only if the receiver is a contact, the size is allowed, and with the new reservation added the sender's used bytes stay within the quota; each refusal has its cause. |
| Files.Service.InsertPending | internal/files/service.go:77-83 | A pending row is added unless its id or object key is taken. |
| Files.Service.RequestUpload | internal/files/service.go:55-89 | Accepted exactly for an accepted contact, a size within the file limit, room in the sender's quota and a fresh id and key; the row it adds, field by field. |
| Files.Service.Commit | internal/files/service.go:91-114 | Accepted exactly for the sender's own pending row with an object of the declared size, whatever its age; the refusals told apart; that row alone becomes committed and linked to the message. |
| Files.Service.DeleteByMessage | internal/files/service.go:133-146 | A row goes if and only if its message is the given one and its sender the given one, and an object if and only if it belongs to such a row; everything of other senders stays. |
| Files.Service.CleanupOrphans | internal/files/service.go:148-162 | A row goes if and only if it is more than 3600 seconds old and pending or linked to no message, and an object if and only if it belongs to such a row. |
| Files.SweepMembers | internal/files/service.go:150-162 | A sweep leaves exactly the rows that are not reapable. |
| Files.CountsOrReapable | internal/files/service.go:44-53 | A pending row counts against the quota or is reapable, never both or neither; a committed row always counts. |
| Files.WindowInSeconds | internal/files/service.go:44-53 | A reservation counts for its sender for 3600 seconds and is reapable from the next second on; a commit is late from then on. |
| Files.SweepFrees | internal/files/service.go:150-162 | A sweep lowers the used bytes of each user by exactly the old unlinked committed bytes and takes no linked committed file. |
| Quota.RequestIsCheckThenInsert | internal/files/service.go:58-83 | Check and insert as two events, without interference, are the request. |
| Quota.DeleteByMessageIsDeletions | internal/files/service.go:133-146 | The loop's single deletions, without interference, leave the rows of DeleteByMessage. |
| Quota.ReclaimIsDeletions | internal/files/service.go:150-162 | The single deletions of a sweep, without interference, are the sweep as one event. |
| Quota.QuotaHolds | internal/files/service.go:44-113 | In every interleaving used plus in-flight bytes stay within the quota plus (k-1) files plus the surviving late bytes, with at most k requests of the user in flight. |
| Quota.QuotaExactly | internal/files/service.go:44-113 | In every interleaving, with any number of requests in flight, a user's used bytes stay within the quota all along if and only if no reservation is inserted that no longer fits and no expired reservation is committed that does not fit. |
| Quota.OneAtATime | internal/files/service.go:44-113 | With one request at a time and no surviving late commit used plus in-flight bytes stay within the quota. |
| Quota.QuotaIsPersonal | internal/files/service.go:42-53 | No upload, commit or deletion of one user changes the figures of another. |
| Quota.TwoInFlightOverrun | internal/files/service.go:70-83 | Two requests checked before either is inserted both pass a quota that holds one. |
| Quota.LateCommitOverrun | internal/files/service.go:94-113 | One request at a time and a commit after the window exceed the quota. |
| Cleanup.Jobs.CleanupStaleMessages | internal/db/cleanup.go:9-26 | The two statements with nothing in between: exactly the undelivered messages older than 2592000 seconds go, exactly the files linked to them are unlinked, nothing else changes; the count returned. |
| Cleanup.Jobs.CleanupRetiredCodes | internal/db/cleanup.go:28-36 | Exactly the codes retired more than 86400 seconds ago go; the count returned. |
| Cleanup.Jobs.UnlinkStale | internal/db/cleanup.go:13-18 | Exactly the files linked to messages that are stale now are unlinked. |
| Cleanup.Jobs.DeleteStale | internal/db/cleanup.go:19-25 | Exactly the messages that are stale now go; the count returned. |
| Cleanup.PurgedFileReaped | internal/db/cleanup.go:13-18 | A file linked to a purged message is gone after any later sweep that finds it past its window, whatever happens in between unless it is committed anew. |
| Cleanup.LinkedFileKept | internal/files/service.go:150-162 | A committed linked file stays unchanged through every sweep, every purge of other messages and every step on other files. |
| Cleanup.LinkExactly | internal/files/service.go:94-162 | In every run a file is linked to message m if and only if it was at an earlier time and nothing touched that link since, or a commit with m found it in between and nothing touched the link after that. |
| Cleanup.InterruptedSweepExactly | internal/files/service.go:150-162 | In every run, a file that a sweep read as reapable is, at any later time and so at its DELETE, linked to message m if and only if a commit with m found it in between and since then it was not committed again or deleted and m was not purged. |
| Cleanup.SweepWithoutCommits | internal/files/service.go:150-162 | So a sweep takes no file linked to m unless a commit of that file with m came between its read and its delete. |
| Cleanup.InterruptedSweepTakesLinkedFile | internal/files/service.go:152-161 | A run from the start in which such a commit is lost. |
| Cleanup.InterruptedPurgeExactly | internal/db/cleanup.go:11-19 | In every interleaving of other steps with the UPDATE and the DELETE of a purge: a file is afterwards linked to a deleted message if and only if it was linked before the UPDATE, which missed the message as one with that id and an old timestamp was sent later, or it was committed with that message after the UPDATE. |
| Cleanup.PurgeMissesFile | internal/db/cleanup.go:13-19 | A run in which a file stays linked to a deleted message. |
| Contacts.Book.constructor | internal/db/schema.go:46-54 | The table starts empty. |
| Contacts.Book.AddContact | internal/routes/contacts.go:102-128 | The reply in every case, and the one pending row a successful request adds. |
| Contacts.Book.AcceptContact | internal/routes/contacts.go:143-173 | The reply in every case; success makes both directions accepted and touches no other row, a crossing request rolls the transaction back. |
| Contacts.Book.RejectContact | internal/routes/contacts.go:187-195 | Exactly the pending request to the user goes; every other row stays. |
| Contacts.Book.AcceptedContactIds | internal/socketio/presence.go:217-230 | The loop returns every id as often as the two-way query has rows for it. |
| Contacts.Book.ListContacts | internal/routes/contacts.go:35-43 | The join with the pointers, grouped by contact and pointer, has every group once; on a consistent table each contact is in it once. |
| Contacts.Book.RetainPointer | internal/socketio/chat.go:152-178 | The latest pointer of an owner for an accepted contact replaces the earlier one; otherwise nothing changes. |
| Contacts.RowExactly | internal/routes/contacts.go:107-197 | What one step does to the row of any pair: only an addition, accept or rejection of that pair changes it, and how. |
| Contacts.OtherRowsKept | internal/routes/contacts.go:107-197 | In every run a row stays as it is as long as nobody adds, accepts or rejects that pair. |
| Contacts.StepExactly | internal/routes/contacts.go:107-197 | From a consistent table a step leads to a consistent table if and only if it is not an accept transaction whose request is gone. |
| Contacts.ConsistentExactly | internal/routes/contacts.go:107-197 | In every run, however additions interleave, accepted is symmetric and irreflexive and excludes a pending row of the pair, all along, if and only if no such late transaction occurs. |
| Contacts.AtomicAcceptConsistent | internal/routes/contacts.go:147-166 | With atomic accepts every reachable table is consistent. |
| Contacts.AcceptedForGood | internal/routes/contacts.go:132-197 | Once accepted, a direction stays accepted in every run. |
| Contacts.AcceptVoidExactly | internal/routes/contacts.go:155-168 | In every state, accepting a pending request does nothing if and only if there is any row in the other direction. |
| Contacts.CrossingRequests | internal/routes/contacts.go:155-168 | On a consistent table that row is a crossing request; after one side rejects, the other request can be accepted. |
| Contacts.AcceptAfterReject | internal/routes/contacts.go:147-166 | A run from the empty table in which a request is rejected between the read of its accept and the transaction, and only one direction becomes accepted. |
| Contacts.StuckRequest | internal/routes/contacts.go:107-168 | A run after which a pending request cannot be accepted although none crosses it. |
| Contacts.CrossingRun | internal/routes/contacts.go:112-168 | A run from the empty table: two interleaved additions leave both requests pending, both accepts are refused, and after one rejection both directions become accepted. |
| Contacts.QueriesAgree | internal/routes/contacts.go:35-43 | The one-way test is symmetric, the two-way query returns each user who passes it exactly twice and nobody else, and the grouped list has each of them exactly once, with the pointer they left, and nobody else. |
| Contacts.QueriesAgreeAlways | internal/routes/auth.go:185-193 | The same in every reachable state of every run with atomic accepts. |
| ContactCodes.RandomCode | internal/contactcode/code.go:13-26 | Nine characters with a dash in the middle; each other one is the letter of its own byte among the 32 letters. |
| ContactCodes.LettersUniform | internal/contactcode/code.go:13-24 | Every letter comes from one residue modulo 32 and from no other byte, so none is favoured. |
| ContactCodes.Registry.Generate | internal/contactcode/code.go:28-54 | The first of ten candidates that is neither held nor retired; failure exactly if all ten are taken. |
| ContactCodes.Registry.RegenerateCode | internal/routes/contacts.go:206-225 | The user holds a code that was free, the old one is retired; failure changes nothing. |
| ContactCodes.HolderExactly | internal/routes/contacts.go:206-225 | Whom one step gives which code, and that nobody else's code changes. |
| ContactCodes.RecordExactly | internal/db/cleanup.go:28-36 | What one step does to the retirement record of any code: when it is made, with which time, and when it goes. |
| ContactCodes.AlwaysDistinct | internal/routes/contacts.go:217-224 | In every run, however searches for codes and transactions interleave, held codes are pairwise distinct. |
| ContactCodes.NoneRetiredExactly | internal/routes/contacts.go:206-225 | In every such run no held code is retired, all along, if and only if no transaction assigns a code that is retired by then or that it retires itself, or retires a code that somebody else holds. |
| ContactCodes.RunInvariant | internal/routes/contacts.go:206-225 | In particular, when every handler is one step, held codes are distinct and none is retired. |
| ContactCodes.UndisturbedTransactions | internal/routes/contacts.go:206-225 | With a free code and the old code just read the transactions are the handlers. |
| ContactCodes.RetiredExactly | internal/routes/contacts.go:218-222 | In every state, a given-up code is on record as retired at that time if and only if it was not on record and the handler had read that code, or it was on record as of that very time. |
| ContactCodes.RetirementKept | internal/db/cleanup.go:28-36 | In every interleaving a code on record as retired is assigned only more than 86400 seconds after the time of its record, or by a transaction that assigns a code which is retired by then. |
| ContactCodes.ReusedAtOnce | internal/routes/contacts.go:212-224 | A run in which a given-up code is assigned again at once. |
| ContactCodes.HeldAndRetired | internal/routes/auth.go:105-136 | A run in which a code is found free, given up by somebody else and then assigned, so that it is held and retired. |
| ContactCodes.ReusedAfterOldRecord | internal/routes/contacts.go:218-222 | A run in which such a code is given up with its old record and assigned again after 500 seconds. |
| ContactCodes.NoEarlyReuse | internal/db/cleanup.go:28-36 | In every interleaving a given-up code that got its record is assigned again only more than 86400 seconds later, or by a transaction that assigns a code which is retired by then. |
| Registration.Registry.constructor | internal/db/schema.go:33-44 | The users there are before the run. |
| Registration.Registry.InviteValidate | internal/routes/auth.go:220-238 | Yes if and only if the UPDATE of a registration with this code would take a use, so that a registration with nothing else amiss adds a user exactly on a yes. |
| Registration.Registry.Transaction | internal/routes/auth.go:122-140 | Consume and insert happen together or not at all; the new row field by field, with 3 uses, and one use less for the holders of the code and no other change. |
| Registration.Registry.Register | internal/routes/auth.go:60-163 | Success exactly if every check passes and the code has a use left; the new row field by field; each refusal has its cause; a refusal changes nothing. |
| Registration.UsesConserved | internal/routes/auth.go:117-140 | Over every run, however checks and transactions interleave, remaining uses are the initial uses plus twice the registrations, no count is negative, and uses left plus direct invitees are the uses a user started with (three for the registered). |
| Registration.DescendsFromSeed | internal/routes/auth.go:122-140 | Inviters registered earlier, and following them leads from every user to one who was there before the run. |
| Registration.ValidationIsHonest | internal/routes/auth.go:220-238 | An otherwise acceptable registration goes through if and only if validation says yes, and takes one use from the holder of the code. |
| Registration.NamesExactly | internal/routes/auth.go:101-140 | In every run display names are distinct if and only if no transaction runs after its name, free when it was checked, has been taken. |
| Registration.RacingNames | internal/routes/auth.go:101-140 | A run in which two users get the same name. |
| Registration.BytesExactly | internal/routes/auth.go:83-86 | The length that is limited to 50 equals the number of characters exactly for ASCII names. |
| Registration.LetterBytes | internal/routes/auth.go:83-86 | How many bytes each letter counts. |
| Registration.LongName | internal/routes/auth.go:83-86 | A name of two-byte letters is refused from 26 letters on. |
| Avatars.Service.constructor | internal/avatars/service.go:32-34 | No rows and no objects at the start. |
| Avatars.Service.RequestUpload | internal/avatars/service.go:156-186 | The refusals, and the pending row, field by field, that replaces the user's pending row of that kind with its object; no other row or object goes. |
| Avatars.Service.CommitAvatar | internal/avatars/service.go:38-89 | Accepted exactly for the user's own pending row with an object of the declared size; the refusals told apart; only the user's committed avatar of that kind goes, with its object. |
| Avatars.Service.DeleteCustomAvatars | internal/avatars/service.go:113-124 | A row goes if and only if it is of this user and custom, and an object if and only if it belongs to such a row; every other row is unchanged. |
| Avatars.Service.CleanupOrphans | internal/avatars/service.go:126-137 | A row goes if and only if it is pending and more than 3600 seconds old, and an object if and only if it belongs to such a row; every other row is unchanged. |
| Avatars.RunInvariant | internal/avatars/service.go:44-186 | When each handler is one step, a user has at most one pending and one committed avatar of each kind, and every committed avatar has its object, in every run. |
| Avatars.CommitSwaps | internal/avatars/service.go:63-88 | A commit leaves the new avatar as the only committed one of its kind, takes the old object and touches no other row. |
| Avatars.DefaultForGood | internal/avatars/service.go:71-80 | When each handler is one step, once a default avatar is committed, exactly one committed default exists in every later state. |
| Avatars.CommittedObjectKept | internal/avatars/service.go:84-137 | The service neither deletes nor changes the object of a row that stays committed. |
| AvatarSteps.SingleExactly | internal/avatars/service.go:61-82 | From the start or any state where it holds, in every interleaving of the handlers' statements, a user has at most one pending (and at most one committed) avatar of a kind all along if and only if no row is inserted while a pending one is there (no transaction promotes a row while a committed one is there that it does not delete). |
| AvatarSteps.ShownExactly | internal/avatars/service.go:71-80 | From any state with a committed default avatar, in every interleaving, one is there all along if and only if no transaction deletes the last one while its own pending row is gone or is that very row, and no read row is removed that is by then the last committed one. |
| AvatarSteps.BackedExactly | internal/avatars/service.go:84-137 | From the start or any state where it holds, in every interleaving, every committed avatar has its object all along if and only if no object of a committed row is deleted and no row is promoted whose object is gone. |
| AvatarSteps.RequestReads | internal/avatars/service.go:157-171 | What an upload request takes on after its checks and lookup. |
| AvatarSteps.CommitReads | internal/avatars/service.go:45-53 | A commit takes on the caller's own pending avatar and nothing else. |
| AvatarSteps.CheckDecides | internal/avatars/service.go:54-60 | It goes on if and only if the object has the declared size. |
| AvatarSteps.DeletionReads | internal/avatars/service.go:115-122 | A deletion takes on exactly the custom avatars of its user, each once. |
| AvatarSteps.CleanupReads | internal/avatars/service.go:128-136 | A sweep takes on exactly the reservations more than 3600 seconds old, each once. |
| AvatarSteps.RunDoes | internal/avatars/service.go:71-88 | What the transaction and the deletions do to table and objects. |
| AvatarSteps.RequestUndisturbed | internal/avatars/service.go:156-186 | The statements of an upload request, without interference, are the request as one step. |
| AvatarSteps.CommitUndisturbed | internal/avatars/service.go:44-89 | The statements of a commit (read, size check, lookup, transaction, deletion of the old object), without interference, are the commit as one step. |
| AvatarSteps.DropUndisturbed | internal/avatars/service.go:113-137 | The single deletions of a deletion or a sweep, in any order and without interference, drop exactly what it read. |
| AvatarSteps.TwoPending | internal/avatars/service.go:167-178 | A run from the start with two pending avatars of one kind. |
| AvatarSteps.TwoCommitted | internal/avatars/service.go:61-82 | Its continuation with two committed ones. |
| AvatarSteps.ReadyReached | internal/avatars/service.go:44-186 | A run from the start to a committed default avatar with a new one uploaded, where the next three begin. |
| AvatarSteps.RequestDuringCommit | internal/avatars/service.go:61-80 | A request between the reads of a commit and its transaction loses the default avatar. |
| AvatarSteps.CommitTwice | internal/avatars/service.go:61-88 | A commit that is sent twice deletes the old and the new avatar with their objects. |
| AvatarSteps.SweepDuringCommit | internal/avatars/service.go:126-137 | A sweep takes object and row of an avatar that was committed since it was read. |
| Messages.Server.constructor | internal/db/schema.go:56-75 | Both tables start empty. |
| Messages.Server.MessageSend | internal/socketio/chat.go:29-64 | Stored exactly if the fields are there, the receiver is a contact and the id is free; each refusal has its cause. |
| Messages.Server.MessageAck | internal/socketio/chat.go:95-110 | With nothing between its two statements only the receiver's acknowledgement removes the message and is reported to its sender. |
| Messages.Server.MessageDelete | internal/socketio/chat.go:112-137 | Only the sender's deletion removes the message; of the files exactly those go that the caller linked to it; the relay is emitted, queued or, with a service socket only, dropped. |
| Messages.Server.DeliverMessagesToService | internal/socketio/delivery.go:11-37 | A service socket is sent exactly the undelivered messages to its user, each once and by timestamp, and nothing is used up. |
| Messages.OnlineExactly | internal/socketio/delivery.go:48-52 | Each contact with an app socket is announced as often as it stands in the list, and nobody else. |
| Messages.Server.DeliverPending | internal/socketio/delivery.go:39-91 | With nothing in between an app socket gets exactly the waiting messages and exactly the pending events of its user, each once and by timestamp; the messages stay, the events go. |
| Messages.EverySendAccounted | internal/socketio/chat.go:53-110 | In every run, also when acknowledgements interleave, each successful send is stored or has exactly one fate. |
| Messages.FatesFitExactly | internal/socketio/chat.go:95-120 | In every run each message off the table was acknowledged by its receiver, deleted by its sender or purged as stale, all along, if and only if no DELETE of an acknowledgement meets a message to somebody else under the id it read. |
| Messages.LateAckTakesNewMessage | internal/socketio/chat.go:102-108 | A run in which an acknowledgement deletes a message to somebody else. |
| Messages.StoredFrom | internal/socketio/chat.go:95-120 | A stored message is stored later if and only if its receiver did not acknowledge it, no late acknowledgement of its id deleted it, its sender did not delete it and no purge found it stale in between, even when its id is used again. |
| Messages.SentThenStored | internal/socketio/chat.go:53-64 | The same from the moment of a successful send, for the message with the sender, receiver, content and time of that send. |
| Messages.FateFinal | internal/socketio/chat.go:95-120 | A fate never changes and a send is never forgotten. |
| Messages.FateHasCause | internal/db/cleanup.go:9-26 | Every fate was brought about by an event of that kind, by that user, on that id. |
| Messages.QueuedExactly | internal/socketio/delivery.go:73-90 | In every run, also when deliveries interleave, a pending event waits unchanged exactly until the first deletion for its user, and has been handed over exactly if a socket was sent the waiting events before that. |
| Messages.QueuedThenHanded | internal/socketio/delivery.go:73-90 | When every delivery is one step, it is handed over at its user's first app connection. |
| Messages.QueuedDuringDrain | internal/socketio/delivery.go:73-90 | An event that is queued between the read and the deletion of a delivery is deleted without having been handed over. |

## Left out

- HTTP routing, JSON, rate limits, logging, configuration, and the cryptographic, push, storage and socket libraries.
- Trimming and upper-casing of input: the model starts from the trimmed name and the normalised invitation code.
- SQL syntax, drivers, migrations and foreign keys; each statement is modelled by its effect, a transaction as all or nothing.
- Failures of the database or the object store whose errors the code discards; such calls are taken to succeed.
- Scheduling below the lock regions: broadcasts and missed-call inserts happen with the step that decides on them, and a timer that was stopped does not fire.
- Text that is not valid UTF-8 in the placeholder rewriter; the text is a sequence of characters.
- The waiting loop of call offers: whether the callee becomes reachable is a parameter.
- Call durations, daily statistics, device tokens, generated names and the wake-up pushes.
- Typing events and the relay of avatar pointers; of their handler only the pointer table is modelled.
- Download URLs; their authorisation is a single comparison.
- What a client writes to an object after the commit of a file or avatar.
- How often a pending event is handed over when two sockets of its user connect at once; it is recorded that it was.
- Quota.QuotaHolds: the answer is per user; there is no bound on all users together in the source either.
