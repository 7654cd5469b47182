# kubenyx, modelled in Dafny

kubenyx runs a small Kubernetes control plane. This project models the parts of it that carry
the most state and proves what they promise over every input and every run:

- **etcd-mem**, an in-memory etcd: a sorted map with a global revision counter, an event log,
  compaction, nested transactions and leases (`StoreModel`, `Transactions`, `History`, `Runs`,
  `Leases`, `Paging`, `Answers`), and the watch streams that join log replay to a lossy broadcast channel
  (`WatchModel`, `WatchProofs`, `WatchIds`, `WatchEvents`, `WatchNotices`). The classes `EtcdStore.Store` and `WatchTask.Task` update their
  fields as the Rust code does; each method is proved against a function of the value model, and
  the run theorems are about those functions.
- **control-plane growth**: the boot guard, the join probe and the reconcile loops that bring new
  etcd members in as learners (`MemberGuard`, `JoinProbe`, `PeerUrls`, `Growth`, `GrowthProofs`).
- **address arithmetic**: parsing and printing IPv6 (section 2.2 of RFC 4291, section 4 of
  RFC 5952), hextet addition and the pod subnet of each node (`Radix`, `Ipv6`, `Subnets`).
- **the custody bundle**, a ustar stream (`Tar`), and **the load balancer's** backend health and
  dial order (`LoadBalancer`).

`dafny verify dfyconfig.toml` checks the whole project.

## Main results

- List, then watch from the next revision: at every later moment of every interleaving, the list
  plus the delivered events is the store's range at the revision delivered through
  (`WatchProofs.ListThenWatch`, and `WatchProofs.ListThenWatchOnTheWire` for what the client reads).
- Every active watch has been sent each matching event of its revisions once, in order, without a
  gap, for any channel capacity (`WatchModel.PlayTracks`). A client that leaves the ids to the
  server reads just that off the wire (`WatchIds.WireExactWhenDrawn`); with ids of its own choice,
  a watch reads exactly if and only if nothing else was sent under its id
  (`WatchIds.WireExactIff`).
- What a watch is sent is true: one response per revision with an event it wants, stamped with that
  revision, previous entries only if asked for (`WatchEvents.SentIsTrue`). A stream within the
  channel's capacity catches up (`WatchEvents.CatchesUp`), and no watch ends without a notice
  (`WatchNotices.LostWatchIsTold`).
- In every reachable store the map is the replay of the history, and rewinding it through the log
  recovers every uncompacted snapshot (`Runs.RunKeeps`, `Runs.SnapshotRecovered`).
- A nested transaction is the sequential run of its flattened operations
  (`Transactions.TxnIsSequential`); it succeeds exactly when every guard is met by what a Range of
  its key returns (`Answers.TxnSucceedsIff`), and a guarded swap at most once per key and revision
  (`Runs.SwapAtMostOnce`).
- Reconcile loops with stale lists never remove a member, never lose a started majority, and make
  a bounded number of changes (`GrowthProofs.NothingRemoved`, `QuorumKept`, `ChangesBounded`).

## Where the code decides

- A transaction bumps the revision once per put and per delete that hits a key; the header comment
  of `rust/etcd-mem/src/store.rs:4` says once per Txn (`Transactions.TxnRevision`). The comment in
  line 6 has watches start after `start_revision`; the code includes it (`WatchModel.PlayTracks`).
- A Range at a past revision filters the current map. It is the part of the snapshot that nothing
  has rewritten or deleted since (`Runs.PastRange`).
- `BTreeMap::range` panics when the start lies above the end. The model answers `Panicked`, and a
  transaction is then not all or nothing: it panics if and only if an operation it reaches has such
  a range, and what ran before that operation stays (`Transactions.TxnPanicsIff`,
  `Transactions.PutOutlivesPanic`). Without such a range anywhere in it, it always answers
  (`Transactions.UprightNeverPanics`).
- `compact` takes any revision. While compactions stay within the current revision the log is
  exactly the batches above max(1, compact_revision) (`Runs.LogExactInRuns`); one compaction
  followed by a put keeps it so if and only if the compaction was within (`Runs.LogExactIff`).
- `lease_grant` starts an empty key list even if keys already carry the id. The index stays
  complete if and only if none does (`Leases.GrantKeepsCompleteIff`). Drawn ids never repeat
  (`Leases.DrawnLeasesDiffer`) but may meet one a client named (`Leases.DrawnLeaseCollides`); for
  clients that leave the ids to the store and attach keys only to ids already drawn, the index is
  complete in every run (`Leases.DisciplinedIsComplete`).
- A progress response names the current revision without looking at the channel. It is true of a
  watch if and only if no event it wants is still on its way (`WatchEvents.ProgressTrueIff`), and
  can overtake one (`WatchEvents.ProgressOvertakes`).
- A watch whose start lies beyond the next revision still gets everything after the current one.
  Filter codes count modulo 32, as a shift in a release build does.
- Watch ids are neither checked nor avoided. A client that names id 1 and then leaves one to the
  server gets two watches under 1 and reads every event twice (`WatchIds.DrawnIdCollides`). An
  accepted create leaves an older watch exact if and only if its id is another or the replay sends
  nothing (`WatchIds.CreateKeepsExactIff`), a batch if and only if no other watch under its id
  sends for it (`WatchIds.ReceiveKeepsExactIff`). With `watch_id` 0 in every create no id is ever
  in use twice (`WatchIds.DrawnIdsUnused`).
- The expiry task revokes ids it collected under an earlier lock. They are arbitrary in the model,
  so nothing is claimed about leases kept alive in between.
- Reconcile and join probe search the member list for a peer URL as text. That finds the peer's own
  row, or a URL on its host whose port merely starts with 2380, and nothing else
  (`PeerUrls.MentionsExactly`). No server renders such a URL: on the lists of deployed servers the
  search is exact, a cluster to join includes this node (`JoinProbe.DeployedJoinIncludesSelf`), and
  reconcile adds exactly when a declared peer is missing, in every run
  (`GrowthProofs.AddsWhatIsMissing`, `GrowthProofs.RunDeployed`). With a member on port 23801 of the
  same host in the list, a joiner may get a cluster without itself (`JoinProbe.JoinWithoutSelf`,
  `JoinProbe.JoinIncludesSelfIff`) and an iteration that works on the list waits instead of adding
  (`GrowthProofs.HiddenPeerWaits`, `GrowthProofs.AddsUnlessObscured`).
- `tar_header` takes names longer than the name field and lets the mode overwrite them. The reader
  gets a name back if and only if it has no NUL and is under 100 bytes, or has 107 and ends in the
  mode's own digits (`Tar.NameRecoveredIff`).
- The round-robin cursor is a machine word. n connections in a row start at n healthy backends
  once each if and only if they do not cross the wrap or n divides the word
  (`LoadBalancer.FairIff`).
- The comment above the join probe speaks of three all-refused sweeps, the script of five; the
  model takes five.

## Model

| member | source | states |
|---|---|---|
| `EtcdStore.Store.constructor` | rust/etcd-mem/src/store.rs:67-85 | a new store is the initial state: empty map, revision 1, nothing compacted |
| `EtcdStore.Store.Emit` | rust/etcd-mem/src/store.rs:542-548 | one batch at the current revision joins the log and the history; nothing else changes |
| `EtcdStore.Store.Put` | rust/etcd-mem/src/store.rs:154-212 | the in-place put leaves exactly the state and answer of the value model: key metadata, old lease detached, new lease attached once, one event with the previous value |
| `EtcdStore.Store.DeleteRange` | rust/etcd-mem/src/store.rs:214-277 | deleting in place gives the model's state and answer: no revision when nothing matches, otherwise one revision for all keys, events in key order |
| `EtcdStore.Store.RemoveKeys` | rust/etcd-mem/src/store.rs:238-272 | the loop over keys removes exactly these from map and lease lists, and yields one tombstone with the previous value for each |
| `EtcdStore.Store.RemoveKey` | rust/etcd-mem/src/store.rs:247-254 | one key leaves the map and the list of the lease it carried |
| `EtcdStore.Store.Txn` | rust/etcd-mem/src/store.rs:281-294 | a transaction in place is the value-level transaction, however deep it nests |
| `EtcdStore.Store.ExecAll` | rust/etcd-mem/src/store.rs:289-291 | the loop over a branch equals the recursive run, stopping where an operation panics |
| `EtcdStore.Store.ExecOp` | rust/etcd-mem/src/store.rs:380-448 | each kind of operation in a branch does what its own call does |
| `EtcdStore.Store.Compact` | rust/etcd-mem/src/store.rs:452-459 | only a higher revision compacts, and it drops exactly the batches at or below it |
| `EtcdStore.Store.LeaseGrant` | rust/etcd-mem/src/store.rs:463-482 | id 0 draws the next id; the lease starts with no keys and a TTL of at least one |
| `EtcdStore.Store.LeaseRevoke` | rust/etcd-mem/src/store.rs:484-492 | removing the lease and deleting its listed keys one by one is the model's revoke |
| `EtcdStore.Store.RevokeExpired` | rust/etcd-mem/src/lib.rs:88-97 | the second lock section of the expiry task revokes every collected id, in order, without looking again |
| `EtcdStore.Store.Serve` | rust/etcd-mem/src/store.rs:154-548 | any call keeps the whole invariant: map equal to replay, log a tail of the history, lease index sound |
| `EtcdStore.DeregisterMore` | rust/etcd-mem/src/store.rs:247-254 | taking one more key out of the lease index changes the list of the lease it carries and no other |
| `Answers.InRangeIsInBounds` | rust/etcd-mem/src/store.rs:115-129 | no end means the key alone, end 0x00 everything not before the key, any other end a half-open interval |
| `Answers.RangeAnswers` | rust/etcd-mem/src/store.rs:107-150 | a Range counts all keys in bounds that pass the revision and the four filters, returns the first of them in key order up to the limit, says if it cut, and drops values or entries when asked |
| `Answers.ReadKeyIs` | rust/etcd-mem/src/store.rs:107-150 | a current Range of one key returns its entry, or nothing |
| `Answers.PutAnswers` | rust/etcd-mem/src/store.rs:154-212 | a put answers with its own revision and, if asked, the entry it replaced, and emits one PUT of the new entry |
| `Answers.DeleteAnswers` | rust/etcd-mem/src/store.rs:214-277 | a delete reports and removes exactly the keys in its bounds, with their entries in key order if asked, and emits one DELETE for each in that order |
| `Answers.CompareIsGuard` | rust/etcd-mem/src/store.rs:296-378 | a compare of any target and result holds exactly when the entry a Range of its key returns stands in that relation to the operand, a missing key counting as zero or as no bytes |
| `Answers.TxnSucceedsIff` | rust/etcd-mem/src/store.rs:281-294 | a Txn without inverted ranges succeeds exactly when all its guards are met |
| `Answers.ModGuardSucceedsIff` | rust/etcd-mem/src/store.rs:337-349 | guarded by mod_revision == m alone: exactly when the key is live at m, or missing if m is 0 |
| `Answers.CreateIfAbsent` | rust/etcd-mem/src/store.rs:281-349 | a put guarded by mod_revision == 0 succeeds exactly on a missing key, which is then live with the value, version 1 and both revisions new; otherwise nothing changes |
| `ByteOrder.Successor` | rust/etcd-mem/src/store.rs:122-125 | key ++ [0x00] is the immediate successor of key in byte order |
| `ByteOrder.AscendingSorted` | rust/etcd-mem/src/store.rs:118-131 | listing a set of keys in map order is strictly ascending |
| `ByteOrder.SortedUnique` | rust/etcd-mem/src/store.rs:118-131 | there is only one ascending listing of a set of keys |
| `Transactions.SequentialConcat` | rust/etcd-mem/src/store.rs:289-291 | running two lists in a row is running the second from where the first ended, unless it panicked |
| `Transactions.ExecIsSequential` | rust/etcd-mem/src/store.rs:281-294 | a branch of nested operations reaches the state, the panic and the answers of its flattened primitive operations |
| `Transactions.OpIsSequential` | rust/etcd-mem/src/store.rs:380-448 | the same for one operation, nested or not |
| `Transactions.TxnIsSequential` | rust/etcd-mem/src/store.rs:281-294 | the same for a whole Txn, each nested branch decided in the state reached at that point |
| `Transactions.BranchAnswers` | rust/etcd-mem/src/store.rs:289-291 | a branch gives one answer per operation, in order, each the operation's own in the state its predecessors left |
| `Transactions.UnwindsIffInverted` | rust/etcd-mem/src/store.rs:122-125 | a run of primitive operations panics exactly when one of them has its start above its end |
| `Transactions.PanicKeepsPrefix` | rust/etcd-mem/src/store.rs:232-236 | a panicking run leaves the state reached before the first such operation |
| `Transactions.TxnPanicsIff` | rust/etcd-mem/src/store.rs:281-294 | a Txn panics exactly when an operation it reaches, nested or not, is inverted; the effects before it stay |
| `Transactions.UprightNeverPanics` | rust/etcd-mem/src/store.rs:281-294 | a Txn without an inverted range anywhere in it answers, in every state |
| `Transactions.PutOutlivesPanic` | rust/etcd-mem/src/store.rs:380-448 | a put followed by an inverted Range in one Txn: no answer, and the put stays |
| `Transactions.TxnRevision` | rust/etcd-mem/src/store.rs:281-294 | the header revision is the initial one plus the puts and non-empty deletes that ran |
| `Transactions.SequentialRevision` | rust/etcd-mem/src/store.rs:163-164 | every effective primitive operation raises the revision by exactly one |
| `Transactions.HeadersAscend` | rust/etcd-mem/src/store.rs:380-448 | response headers of a branch never decrease and stay between the revisions before and after |
| `Transactions.TxnHeadersAscend` | rust/etcd-mem/src/store.rs:281-294 | the same for a Txn with its own header last |
| `History.EventTruth` | rust/etcd-mem/src/store.rs:194-272 | every event is stamped with its batch's revision and carries the key's entry one revision earlier; a DELETE is an empty value, version 0, no lease and the old create revision, a PUT counts on; and the map at that revision is as the event says |
| `History.UndoBatch` | rust/etcd-mem/src/store.rs:194-208 | undoing a batch through its `prev_kv` values gives back the map before it |
| `History.RewindRecovers` | rust/etcd-mem/src/store.rs:247-276 | winding the map back through a suffix of the history gives the map at that point |
| `History.BatchDescribes` | rust/etcd-mem/src/store.rs:194-208 | one batch keeps version, create and mod revision equal to the count, first and last of the PUT revisions since the last delete |
| `History.Metadata` | rust/etcd-mem/src/store.rs:163-208 | over a whole history: version counts the PUTs since the last delete, create and mod revision are the first and last of them, and exactly the keys with one are live |
| `History.VersionBound` | rust/etcd-mem/src/store.rs:194-208 | 1 <= version <= mod_revision - create_revision + 1, both revisions between 2 and the current one |
| `History.ModRevisionsDistinct` | rust/etcd-mem/src/store.rs:163-208 | no two live keys share a mod_revision |
| `History.UntouchedSame` | rust/etcd-mem/src/store.rs:542-548 | a key without an event since a revision has the entry it had there |
| `History.TouchedNewer` | rust/etcd-mem/src/store.rs:194-208 | a live key with an event since a revision has a later mod_revision |
| `History.AfterDense` | rust/etcd-mem/src/store.rs:534-540 | filtering the log by revision is cutting the history at an index, since each revision has one batch |
| `Runs.PutKeeps` | rust/etcd-mem/src/store.rs:154-212 | a put keeps the map equal to the replay and the log a tail of the history |
| `Runs.DeleteKeeps` | rust/etcd-mem/src/store.rs:214-277 | a range delete keeps the same |
| `Runs.CompactKeeps` | rust/etcd-mem/src/store.rs:452-459 | so does a compaction to any revision; says how many batches are then gone |
| `Runs.StepKeeps` | rust/etcd-mem/src/store.rs:154-548 | every step of the store keeps the invariant and only appends to the history |
| `Runs.RunKeeps` | rust/etcd-mem/src/store.rs:154-548 | so does every run |
| `Runs.Reachable` | rust/etcd-mem/src/store.rs:67-85 | from a new store: the map is the replay of all events, and batch i has revision i + 2 |
| `Runs.LogCovers` | rust/etcd-mem/src/store.rs:534-540 | from the compaction revision on, `events_since` returns every batch once and in order |
| `Runs.SnapshotRecovered` | rust/etcd-mem/src/store.rs:534-548 | undoing the log on the current map gives every uncompacted snapshot |
| `Runs.LogExactInRuns` | rust/etcd-mem/src/store.rs:452-459 | while compactions stay within the current revision, the log is exactly the batches above max(1, compact_revision) |
| `Runs.LogExactIff` | rust/etcd-mem/src/store.rs:452-459 | a compaction followed by a write keeps the log exact if and only if it was not beyond the current revision |
| `Runs.PastRange` | rust/etcd-mem/src/store.rs:107-150 | an unfiltered, unlimited Range at a past revision returns exactly the snapshot's keys with no event since, with the snapshot's entries, in order |
| `Runs.ReadYourWrite` | rust/etcd-mem/src/store.rs:154-212 | a Range of the key after a put returns exactly the value and lease put, or the kept ones where the request says so; every other key is as before |
| `Runs.SwapSupersedes` | rust/etcd-mem/src/store.rs:337-349 | a successful swap found the key live at the guarded revision and leaves that revision over for good |
| `Runs.SupersededForever` | rust/etcd-mem/src/store.rs:380-448 | once over, a revision of a key never comes back in any run |
| `Runs.SwapAtMostOnce` | rust/etcd-mem/src/store.rs:281-294 | in any run at most one transaction guarded by mod_revision == m that writes the key succeeds |
| `Runs.SwapSawLatest` | rust/etcd-mem/src/store.rs:337-349 | no event touched the key between revision m and the success, and the entry it saw is the one of revision m |
| `Leases.PutKeepsLeases` | rust/etcd-mem/src/store.rs:179-192 | a put keeps the index sound (listed keys are live, carry the lease, once) and complete |
| `Leases.DeleteKeepsLeases` | rust/etcd-mem/src/store.rs:247-254 | a range delete keeps both |
| `Leases.PutThenDelete` | rust/etcd-mem/src/store.rs:179-254 | deleting a key just created undoes the put in the map and in the lease index, two revisions on |
| `Leases.GrantKeepsSound` | rust/etcd-mem/src/store.rs:463-482 | a grant keeps the index sound, even over a live id |
| `Leases.GrantKeepsCompleteIff` | rust/etcd-mem/src/store.rs:463-482 | a grant keeps it complete if and only if no key carries the granted id |
| `Leases.RevokeDeletesLease` | rust/etcd-mem/src/store.rs:484-492 | revoking deletes exactly the listed keys, one revision each; with a complete index these are all keys carrying the lease |
| `Leases.RevokeInOrder` | rust/etcd-mem/src/store.rs:484-492 | the listed keys are deleted in list order, the i-th alone in the i-th new revision |
| `Leases.AttachedLast` | rust/etcd-mem/src/store.rs:186-192 | a key newly attached to a lease goes to the end of its list |
| `Leases.GrantEffect` | rust/etcd-mem/src/store.rs:463-482 | a grant takes the given id, or the next to draw, which then moves on, gives it max(ttl, 1) and no keys, and touches no other lease and nothing else |
| `Leases.RunDraws` | rust/etcd-mem/src/store.rs:463-482 | the next id to draw never falls in any run |
| `Leases.DrawnLeasesDiffer` | rust/etcd-mem/src/store.rs:464-467 | two grants of a run that leave the id to the store draw different ids |
| `Leases.DisciplinedIsComplete` | rust/etcd-mem/src/store.rs:463-482 | if every grant leaves the id to the store and every put attaches to no lease or one drawn before, the index is sound and complete in every run |
| `Leases.DrawnLeaseCollides` | rust/etcd-mem/src/store.rs:464-472 | grant id 1, attach a key, grant with id 0: the lease is overwritten and the key is lost to the index |
| `Leases.RevokeAllKeepsLeases` | rust/etcd-mem/src/lib.rs:88-97 | an expiry round leaves none of the collected leases and keeps the index |
| `Leases.StepKeepsSound` | rust/etcd-mem/src/store.rs:154-492 | every step keeps the index sound, every step but a grant keeps it complete |
| `Leases.LeaseIndexInRuns` | rust/etcd-mem/src/store.rs:154-492 | over all runs the index is sound; complete when every granted id is carried by no key |
| `Paging.NextSelection` | rust/etcd-mem/src/store.rs:115-149 | restarting at last_key ++ [0x00] selects exactly the keys after the cut |
| `Paging.NeverPastEnd` | rust/etcd-mem/src/store.rs:115-125 | the next start key never lies above range_end, so the next call cannot panic |
| `Paging.PagingLossless` | rust/etcd-mem/src/store.rs:107-150 | for any positive limit the pages end and concatenate to the unlimited answer |
| `WatchModel.CreateTracks` | rust/etcd-mem/src/svc.rs:164-251 | a new watch has been sent everything from min(start, current + 1) through the current revision, whatever the channel still holds |
| `WatchModel.OfferTracks` | rust/etcd-mem/src/svc.rs:286-310 | one batch from the channel extends what a watch was sent by one revision, or was sent already |
| `WatchModel.ReceiveTracks` | rust/etcd-mem/src/svc.rs:280-323 | receiving keeps every active watch gapless; falling behind drops all of them instead |
| `WatchModel.StoreTracks` | rust/etcd-mem/src/store.rs:542-548 | store steps in between change nothing about what was sent |
| `WatchModel.PlayTracks` | rust/etcd-mem/src/svc.rs:157-328 | over every interleaving each active watch has been sent each matching event once, in revision order, from its start through `delivered_through`, for any capacity |
| `WatchProofs.PlayLineage` | rust/etcd-mem/src/svc.rs:157-328 | a watch of a later moment goes back to one watch with the same selection and start |
| `WatchProofs.CreateOnTheWire` | rust/etcd-mem/src/svc.rs:201-250 | creating a watch under an unused id leaves the other watches' responses apart from its own |
| `WatchProofs.ReceiveOnTheWire` | rust/etcd-mem/src/svc.rs:280-323 | fan-out gives each id exactly its own watch's responses |
| `WatchProofs.PlayOnTheWire` | rust/etcd-mem/src/svc.rs:157-328 | when active ids are not reused, the event responses under an id since its creation are exactly what that watch was sent |
| `WatchProofs.WireExact` | rust/etcd-mem/src/svc.rs:152-328 | from a new store and a new stream, over any run in which no create takes an id in use: what stands on the wire under an active id is exactly the matching events from the watch's start through `delivered_through`, which is never behind the channel |
| `WatchIds.DrawnIdsUnused` | rust/etcd-mem/src/svc.rs:165-169 | ids the server draws are never in use, in any run whose creates all leave the id to it |
| `WatchIds.WireExactWhenDrawn` | rust/etcd-mem/src/svc.rs:152-328 | so for such clients the wire is exact in every run |
| `WatchIds.CreatedExact` | rust/etcd-mem/src/svc.rs:201-250 | a new watch starts out exact, whatever ids are in use |
| `WatchIds.CreateKeepsExactIff` | rust/etcd-mem/src/svc.rs:164-251 | an accepted create leaves an older watch exact if and only if the ids differ or its replay sends nothing |
| `WatchIds.ReceiveKeepsExactIff` | rust/etcd-mem/src/svc.rs:280-311 | a batch leaves a watch exact if and only if no other watch under its id sends for it |
| `WatchIds.ExactIffUndisturbed` | rust/etcd-mem/src/svc.rs:157-328 | over any run an exact watch that survives is exact at the end if and only if no move sent under its id what was not its own |
| `WatchIds.WireExactIff` | rust/etcd-mem/src/svc.rs:152-328 | from a new store, with any ids and any run around its create: an active watch reads exactly the matching events it covers if and only if nothing else was sent under its id |
| `WatchIds.DrawnIdCollides` | rust/etcd-mem/src/svc.rs:165-169 | create with id 1, create with id 0, a put: two watches under id 1, and the first reads more than it covers |
| `WatchProofs.MirrorFollows` | rust/etcd-mem/src/svc.rs:115-131 | applying the matched events of any batches to a restricted map gives the restriction of the later map |
| `WatchProofs.ListIsRestriction` | rust/etcd-mem/src/store.rs:107-150 | a current, unfiltered, unlimited Range is the store restricted to its range |
| `WatchProofs.WatchMirrors` | rust/etcd-mem/src/svc.rs:164-311 | an active unfiltered watch turns the range before its start into the range at `delivered_through` |
| `WatchProofs.ListThenWatch` | rust/etcd-mem/src/svc.rs:164-311 | list at R, watch from R + 1: the rebuilt range is the store's range at `delivered_through`, under any interleaving, and the current range once that is the current revision |
| `WatchProofs.ListThenWatchOnTheWire` | rust/etcd-mem/src/svc.rs:164-311 | the same for the responses under the created id that follow its acknowledgement on the stream |
| `WatchEvents.MatchedPicks` | rust/etcd-mem/src/svc.rs:115-131 | of a batch a watch gets exactly the events in its bounds and not of a filtered kind, each once and in order, with the previous entry only if it asked |
| `WatchEvents.SentIsTrue` | rust/etcd-mem/src/svc.rs:226-310 | over any run a watch has been sent one response for every revision in its window with an event it wants, in order, with that revision and those events, each with the key's entry one revision earlier if it asked and none otherwise |
| `WatchEvents.CatchesUp` | rust/etcd-mem/src/svc.rs:280-311 | a stream no further behind than the channel holds delivers through the current revision by reading on, and keeps every watch |
| `WatchEvents.ProgressTrueIff` | rust/etcd-mem/src/svc.rs:260-271 | a progress response names the current revision, and is true of a watch if and only if no event it wants is still unread |
| `WatchEvents.ProgressOvertakes` | rust/etcd-mem/src/svc.rs:260-271 | create, put, progress: the put's revision is reported before its event |
| `WatchNotices.CreateAnswers` | rust/etcd-mem/src/svc.rs:164-251 | a create is refused exactly when 0 < start <= compact_revision, with that revision; otherwise it is acknowledged first and the watch has the requested id, bounds, filters and prev_kv |
| `WatchNotices.RefusedIffDropped` | rust/etcd-mem/src/svc.rs:186-195 | while the log is exact, a create is refused exactly when the log lacks the batch of its start |
| `WatchNotices.LagAnswers` | rust/etcd-mem/src/svc.rs:312-323 | falling behind sends one cancel notice per watch, in order, and keeps none |
| `WatchNotices.CancelAnswers` | rust/etcd-mem/src/svc.rs:252-259 | a cancel is confirmed and takes exactly the watches under the id |
| `WatchNotices.LostWatchIsTold` | rust/etcd-mem/src/svc.rs:157-328 | over any run a watch that was active and is no longer has had a cancel notice under its id since |
| `WatchTask.Task.OnCreate` | rust/etcd-mem/src/svc.rs:164-251 | the create branch of the task is the model's create: id, rejection, acknowledgement, replay, new handle |
| `WatchTask.Task.Replay` | rust/etcd-mem/src/svc.rs:226-248 | replaying a backlog sends each batch's matching events, and nothing for a batch without any |
| `WatchTask.Task.OnCancel` | rust/etcd-mem/src/svc.rs:252-259 | cancelling drops every handle with the id and says so |
| `WatchTask.Task.OnProgress` | rust/etcd-mem/src/svc.rs:260-271 | a progress request reports the current revision and touches no handle |
| `WatchTask.Task.Forward` | rust/etcd-mem/src/svc.rs:286-310 | one handle takes a batch above what it has been sent, and skips any other |
| `WatchTask.Task.OnBatch` | rust/etcd-mem/src/svc.rs:280-311 | the fan-out loop is the model's receive of one batch |
| `WatchTask.Task.OnLagged` | rust/etcd-mem/src/svc.rs:312-323 | a lag cancels every handle and leaves none |
| `MemberGuard.ListedIsMember` | modules/datastore.nix:96-101 | for an entry without commas, the guard's substring pattern is membership in the declared list |
| `MemberGuard.Guard` | modules/datastore.nix:81-121 | an existing record is accepted exactly when every recorded field is declared, and never rewritten; without one, only an empty data dir writes the declaration |
| `MemberGuard.GuardMeansSuperset` | modules/datastore.nix:90-107 | on rendered declarations that is: every recorded entry is still declared |
| `JoinProbe.AskPeers` | modules/datastore.nix:210-244 | a sweep finds a healthy peer exactly when there is one, and otherwise says exactly whether all refused |
| `JoinProbe.ProbeWindow` | modules/datastore.nix:207-256 | the window ends at the first healthy answer or the first run of five all-refused sweeps, or undecided |
| `JoinProbe.RenderJoin` | modules/datastore.nix:271-301 | the row loop reads a member list as the model does: not yet, founder race, or a cluster |
| `JoinProbe.RenderedExact` | modules/datastore.nix:277-291 | the rendered cluster names exactly the observed peers, all named unless another member is nameless, and this node if and only if its URL is one of them |
| `JoinProbe.RenderedNames` | modules/datastore.nix:277-291 | entry by entry the cluster is the list: each row's URL under the row's name, or this node's own |
| `JoinProbe.JoinIncludesSelfIff` | modules/datastore.nix:271-301 | a list of well-formed rows, none other nameless, never gives a cluster without this node if and only if it has this node's row or no URL on its host continues its port |
| `JoinProbe.DeployedJoinIncludesSelf` | modules/datastore.nix:46-62 | on lists of rendered URLs a cluster to join always includes this node |
| `JoinProbe.JoinWithoutSelf` | modules/datastore.nix:273 | a list with a member on port 23801 of this node's host yields a cluster without this node |
| `JoinProbe.RunProbe` | modules/datastore.nix:164-328 | the fast bootstrap needs five all-refused sweeps in a row; after a healthy answer the first list that settles it decides: `new` needs this node as a voter beside a nameless member, and `existing` a fully named cluster of exactly the observed peers, which includes this node on lists of rendered URLs |
| `PeerUrls.RowMentions` | modules/datastore.nix:46-47 | a server's URL occurs in a row, on any hosts and ports, exactly when a URL there has its host and a port that starts with 2380 |
| `PeerUrls.MentionsExactly` | modules/datastore.nix:522 | searching a list as text finds the peer's own row or a stray URL on its host, and nothing else |
| `PeerUrls.DeployedMentions` | modules/datastore.nix:46-47 | on lists of rendered URLs the text search is the search for the peer |
| `Growth.ActEvolves` | modules/datastore.nix:446-540 | whatever a stale list said, an accepted call changes members only in ways every other observer allows for |
| `Growth.RecordedList` | modules/datastore.nix:541-563 | a record is written only off a list where the declaration is exactly the set of voters |
| `Growth.StepSafe` | modules/datastore.nix:409-568 | every step keeps distinct peers, at most one learner, and records that name voters |
| `GrowthProofs.RunSafe` | modules/datastore.nix:409-568 | so does every run of any number of loops |
| `GrowthProofs.NothingRemoved` | modules/datastore.nix:474-493 | no run removes a member, demotes a voter, or moves a peer URL off any address but the loopback |
| `GrowthProofs.PromotedIsStarted` | modules/datastore.nix:499-514 | a promotion, even off a stale list, promotes a started member |
| `GrowthProofs.MarginKept` | modules/datastore.nix:409-417 | no step narrows the lead of started voters over the others |
| `GrowthProofs.QuorumKept` | modules/datastore.nix:409-417 | a strict majority of started voters is never lost |
| `GrowthProofs.RemainingDrops` | modules/datastore.nix:495-540 | every accepted add or promote lowers the measure of missing peers and learners, no step raises it |
| `GrowthProofs.ChangesBounded` | modules/datastore.nix:446-540 | the accepted adds and promotes of a run are bounded by that measure at its start |
| `GrowthProofs.RecordedStayVoters` | modules/datastore.nix:541-563 | every peer in a record written by reconcile is a voting member at every later time |
| `GrowthProofs.RecordNeverDrops` | modules/datastore.nix:552-560 | a record is only ever replaced by a declaration that still has all its peers |
| `GrowthProofs.MovesIff` | modules/datastore.nix:459-472 | a peer URL is moved exactly when this node's own member has the loopback one, and to this node's URL |
| `GrowthProofs.PromotesIff` | modules/datastore.nix:499-514 | a member is promoted exactly when no loopback URL is listed and it is the learner and has started |
| `GrowthProofs.AddsFirstIff` | modules/datastore.nix:516-539 | a member is added exactly when neither loopback URL nor learner is listed and it is the first declared one whose URL occurs in no row |
| `GrowthProofs.ConvergesIff` | modules/datastore.nix:541-563 | the loop ends exactly when neither is listed and every declared peer is a started voter, and records exactly when also every listed peer is declared and the record differs |
| `GrowthProofs.AddsWhatIsUnmentioned` | modules/datastore.nix:516-539 | with neither loopback nor learner listed, a learner is added exactly when some declared URL occurs in no row; a missing peer whose URL does occur makes the iteration wait |
| `GrowthProofs.AddsUnlessObscured` | modules/datastore.nix:516-539 | on well-formed rows: exactly when some declared peer is missing and no other URL continues its own |
| `GrowthProofs.AddsWhatIsMissing` | modules/datastore.nix:516-539 | on lists of rendered URLs: exactly when some declared peer is missing |
| `GrowthProofs.HiddenPeerWaits` | modules/datastore.nix:522 | a list with a member on port 23801 hides the missing peer, and the iteration waits |
| `GrowthProofs.RunDeployed` | modules/datastore.nix:446-540 | members, declarations and lists stay rendered in every run of deployed servers, so every loop in it adds exactly when a declared peer is missing from its list |
| `GrowthProofs.Iterate` | modules/datastore.nix:446-565 | one pass of the loop, with its inner loops, takes the model's decision |
| `GrowthProofs.Extras` | modules/datastore.nix:474-493 | no extras are collected exactly when every listed peer is declared |
| `GrowthProofs.FindMissing` | modules/datastore.nix:516-528 | the loop stops at the first declared entry whose URL occurs in no row |
| `GrowthProofs.CheckVoting` | modules/datastore.nix:541-551 | the flag is set exactly when every declared peer is a started voter of the list |
| `Radix.Print` | lib/default.nix:94 | lowercase digits, no leading zero |
| `Radix.ParsePrint` | lib/default.nix:43-71 | reading a printed number gives it back |
| `Radix.ParseIgnoresCase` | lib/default.nix:43-71 | upper and lower case digits read alike |
| `Ipv6.ParseCompressedText` | lib/default.nix:74-87 | any text with one "::", whoever wrote it, is read if and only if its groups are hex and fewer than eight, with zeros filled in between |
| `Ipv6.ParseFullText` | lib/default.nix:74-87 | any text without "::" is read if and only if it has eight groups and all are hex |
| `Ipv6.BestRunLeftmostLongest` | lib/default.nix:95-115 | the fold finds the longest run of zeros, the leftmost of equals |
| `Ipv6.PrintCompresses` | lib/default.nix:91-122 | the text compresses the leftmost longest block of two or more zero hextets and nothing else |
| `Ipv6.ParsePrint` | lib/default.nix:74-122 | printing any eight hextets and parsing the text gives them back |
| `Subnets.CarryValue` | lib/default.nix:126-144 | the carrying fold keeps the value, up to the carry out of the top |
| `Subnets.V6AddValue` | lib/default.nix:126-144 | `v6Add` adds n * 2^(16 * (7 - pos)) modulo 2^128 and yields sixteen-bit hextets |
| `Subnets.CarvePair` | lib/default.nix:161-178 | two subnets of an aligned prefix do not overlap and stay inside it |
| `Subnets.CapLosesNothing` | modules/default.nix:320-333 | for indices 0 to 255 the capped bound admits exactly the indices below 2^(carve - prefix) |
| `Subnets.NodeHextetsValue` | lib/default.nix:166-176 | bumping one hextet by the scaled index adds index * 2^(128 - mask) modulo 2^128, for every mask |
| `Subnets.NodePodV6Placed` | lib/default.nix:166-176 | the printed IPv6 pod CIDR reads back as base + index * 2^(128 - mask) |
| `Subnets.IntToIpRoundTrip` | lib/default.nix:17-34 | `ipToInt` inverts `intToIp` |
| `Subnets.NodePodV4Placed` | lib/default.nix:177-178 | the printed IPv4 pod CIDR reads back as base + index * 2^(32 - mask) |
| `Subnets.NodeSubnetsV6` | modules/default.nix:320-333 | the pod CIDRs of two admitted nodes, read back, are disjoint blocks inside the IPv6 cluster prefix |
| `Subnets.NodeSubnetsV4` | modules/default.nix:320-333 | the same for IPv4 |
| `Tar.OctalRoundTrip` | rust/kubenyx-pki/src/lib.rs:860 | a number below 8^width fills its field exactly and reads back |
| `Tar.ChecksumFits` | rust/kubenyx-pki/src/lib.rs:866-869 | the header sum always fits six octal digits, and a header is 512 bytes |
| `Tar.TarHeader` | rust/kubenyx-pki/src/lib.rs:851-871 | filling the block field by field, the checksum last, gives the header with every field in its place, for every name that fits the block |
| `Tar.HeaderRoundTrip` | rust/kubenyx-pki/src/lib.rs:1018-1032 | the reader accepts the checksum and recovers name and size |
| `Tar.HeaderFixedFields` | rust/kubenyx-pki/src/lib.rs:854-865 | mode 0600, owner, group and time 0, a regular file, version 00, read back from the header |
| `Tar.NameRecoveredIff` | rust/kubenyx-pki/src/lib.rs:1027-1028 | the reader accepts every header and gets the name back if and only if it has no NUL and is under 100 bytes, or has 107 and ends in the mode's digits |
| `Tar.AppendRecord` | rust/kubenyx-pki/src/lib.rs:879-884 | one turn of the loop appends header, contents and padding, and ends on a block boundary |
| `Tar.TarBundle` | rust/kubenyx-pki/src/lib.rs:876-889 | appending and padding the growing buffer gives the records in order and the end mark |
| `Tar.HeadersAligned` | rust/kubenyx-pki/src/lib.rs:876-889 | every header starts on a 512-byte boundary and is no zero block; exactly two zero blocks follow the last file |
| `Tar.BundleRoundTrip` | rust/kubenyx-pki/src/lib.rs:1015-1038 | the reader recovers the same names, sizes and bytes in order |
| `LoadBalancer.CounterWraps` | rust/kubenyx-lb/src/lib.rs:312-316 | the stored counter is the failures since the last success modulo 2^32 |
| `LoadBalancer.HealthyIffServing` | rust/kubenyx-lb/src/lib.rs:301-318 | after any probe history a backend is healthy exactly when a success lies fewer than `fail_threshold` probes back |
| `LoadBalancer.HealthLoop.constructor` | rust/kubenyx-lb/src/lib.rs:165-185 | every backend starts unhealthy, unprobed and unannounced |
| `LoadBalancer.HealthLoop.Record` | rust/kubenyx-lb/src/lib.rs:301-318 | one probe updates one backend's health to what its history says; readiness is notified exactly once, at the first success of any backend |
| `LoadBalancer.HealthLoop.Round` | rust/kubenyx-lb/src/lib.rs:300-319 | after a round every backend's health is what its history says |
| `LoadBalancer.PickOrderSpec` | rust/kubenyx-lb/src/lib.rs:191-199 | every backend is listed, healthy ones first, each class in cyclic order from the cursor |
| `LoadBalancer.PickOrderPermutes` | rust/kubenyx-lb/src/lib.rs:191-199 | each backend occurs exactly once |
| `LoadBalancer.Connect` | rust/kubenyx-lb/src/lib.rs:378-411 | the backend connected to is the answering one of least rank; none only if none answers; the cursor moves on by one and wraps |
| `LoadBalancer.FirstDialled` | rust/kubenyx-lb/src/lib.rs:384-389 | with all backends healthy the first one dialled is the cursor modulo n |
| `LoadBalancer.FairIff` | rust/kubenyx-lb/src/lib.rs:388-389 | n connections in a row over n healthy backends start at each exactly once if and only if they do not cross the wrap of the cursor or n divides the word |

## Left out

- gRPC, protobuf conversion, sockets and task plumbing around the store; a watch task's response channel is an unbounded sequence, and the broadcast channel is a cursor into the history with its capacity a parameter.
- Store clocks: lease deadlines, `lease_keepalive`, `lease_ttl` and `lease_list`; which leases expire is a parameter.
- Revisions, versions and ids are unbounded integers; 64-bit overflow is not modelled.
- The Cluster, Maintenance and health services of etcd-mem: constant answers.
- Agreement with real etcd on compares: value comparison on a missing key, unknown targets and `range_end` follow the code and nothing more is claimed.
- WatchTask.Task.OnCreate: a create is one step of the task; the store may move between its lock section and its sends, which the interleaving of store steps before and after it covers.
- Raft, certificates, curl and etcdctl: the member calls of etcd are atomic steps that may fail, refuse a peer URL in use and a second learner, and promote only learners; starting is for good, and a member that has published a server's node name keeps it.
- A member has one peer URL in the model; names and URLs hold no commas or ", ", and the id, status and learner columns of a row, in which no URL fits, are not part of the searched text.
- `BTreeMap::range` on a map that never held a key: the standard library documents the panic for any inverted range, and the model follows that, though its present implementation returns an empty range there.
- GrowthProofs.ChangesBounded: the loopback URL must not be declared as a server's peer URL, since the reconcile moves members off it.
- The deadlines of probe and reconcile are the lengths of the observed sequences; wiping a data directory and its record is not modelled.
- The member-set record is its text without the trailing newline, which the shell strips.
- `lib.toInt` on white space and minus signs; groups of more than four hex digits parse as the Nix code parses them.
- Names longer than the tar block and sizes of 8^11 and more, for which the Rust code panics; names are bytes, without the UTF-8 check of the reader.
- Tar.BundleRoundTrip: names under 100 bytes without NUL, since the reader gets no others back (`Tar.NameRecoveredIff`).
- Reading the custody files, serving the bundle, issuing certificates and kubeconfigs.
- `cidrHost`, which is `v6Add` at the last hextet or an IPv4 addition, and `hostPort`.
- TCP pumping, TLS probes, log lines and draining in the load balancer.
- kubenyx-snap, kubenyx-ready, kubenyx-clockstep, kubenyx-tls, the dispatcher, the NixOS wiring, VM tests and benchmarks.
