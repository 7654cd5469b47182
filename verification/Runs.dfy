/** Runs of the store: any interleaving of the calls it serves, each one lock section. */
module Runs {
  import opened ByteOrder
  import opened StoreModel
  import opened Transactions
  import opened History

  /**
   `Call` is a Range, Put, DeleteRange or Txn request. `Expire` is the second half of the expiry
   task: it revokes ids collected under an earlier lock without looking at them again, so they
   are arbitrary here.
   */
  datatype Step =
    | Call(op: Op)
    | CompactTo(rev: int)
    | GrantLease(ttl: int, id: int)
    | RevokeLease(id: int)
    | Expire(ids: seq<int>)

  function RevokeAll(s: State, ids: seq<int>): State
    decreases |ids|
  {
    if ids == [] then s else RevokeAll(Revoke(s, ids[0]), ids[1..])
  }

  function Next(s: State, step: Step): State {
    match step
    case Call(op) => Exec(s, op).state
    case CompactTo(rev) => Compact(s, rev)
    case GrantLease(ttl, id) => Grant(s, ttl, id)
    case RevokeLease(id) => Revoke(s, id)
    case Expire(ids) => RevokeAll(s, ids)
  }

  function Run(s: State, steps: seq<Step>): State
    decreases |steps|
  {
    if steps == [] then s else Run(Next(s, steps[0]), steps[1..])
  }

  // ---- the invariant of every run -------------------------------------------------

  /** How many batches compaction has dropped from the log. */
  function Dropped(s: State): int {
    |s.history| - |s.log|
  }

  function AtLeastOne(n: int): int {
    if n < 1 then 1 else n
  }

  ghost predicate Consistent(s: State) {
    && s.revision == |s.history| + 1
    && Faithful(s.history)
    && s.kvs == Replay(s.history)
    && 0 <= Dropped(s)
    && s.log == s.history[Dropped(s)..]
    && Dropped(s) + 1 <= AtLeastOne(s.compactRevision)
  }

  lemma EmitKeeps(s: State, kvs: Kvs, leases: map<int, Lease>, events: seq<Event>)
    requires Consistent(s)
    requires var b := Batch(s.revision + 1, events); PutBatch(s.kvs, b) || DeleteBatch(s.kvs, b)
    requires kvs == Apply(s.kvs, events)
    ensures Consistent(Emit(s.(revision := s.revision + 1, kvs := kvs, leases := leases), events))
  {
    var b := Batch(s.revision + 1, events);
    ReplaySnoc(s.history, b);
    FaithfulSnoc(s.history, b);
    SuffixSnoc(s.history, Dropped(s), b);
  }

  lemma SuffixSnoc<T>(h: seq<T>, d: nat, b: T)
    requires d <= |h|
    ensures (h + [b])[d..] == h[d..] + [b]
  {
  }

  lemma PutKeeps(s: State, p: PutRequest)
    requires Consistent(s)
    ensures Consistent(Put(s, p)) && s.history <= Put(s, p).history
  {
    var prev := Get(s.kvs, p.key);
    var entry := PutEntry(prev, s.revision + 1, p);
    var es := [Event(PUT, entry, prev)];
    assert es[..0] == [];
    assert Apply(s.kvs, es) == s.kvs[p.key := entry];
    EmitKeeps(s, s.kvs[p.key := entry], Put(s, p).leases, es);
  }

  lemma {:induction false} DeleteEventsKeys(m: Kvs, keys: seq<Bytes>, rev: int)
    requires forall k | k in keys :: k in m
    ensures EventKeys(DeleteEvents(m, keys, rev)) == set k | k in keys
  {
    forall k
      ensures k in EventKeys(DeleteEvents(m, keys, rev)) <==> k in keys
    {
      var es := DeleteEvents(m, keys, rev);
      EventKeysExact(es, k);
      assert forall i | 0 <= i < |es| :: es[i].kv.key == keys[i];
    }
  }

  lemma DeletionBatch(m: Kvs, gone: set<Bytes>, rev: int)
    requires gone != {} && gone <= m.Keys
    ensures var es := DeleteEvents(m, Ascending(gone), rev);
            DeleteBatch(m, Batch(rev, es)) && Apply(m, es) == m - gone
  {
    var keys := Ascending(gone);
    AscendingSorted(gone);
    SortedDeletes(m, keys, rev);
    DeleteEventsKeys(m, keys, rev);
    assert gone == set k | k in keys;
    ApplyDeletes(m, DeleteEvents(m, keys, rev));
  }

  lemma SortedDeletes(m: Kvs, keys: seq<Bytes>, rev: int)
    requires Sorted(keys) && forall k | k in keys :: k in m
    ensures DeleteEventsOk(m, DeleteEvents(m, keys, rev), rev)
  {
    var es := DeleteEvents(m, keys, rev);
    assert forall i | 0 <= i < |es| :: keys[i] in keys && es[i] == Tombstone(keys[i], m[keys[i]], rev);
    forall i, j | 0 <= i < j < |es|
      ensures es[i].kv.key != es[j].kv.key
    {
      BelowAsymmetric(keys[i], keys[j]);
    }
  }

  lemma DeleteKeeps(s: State, key: Bytes, rangeEnd: Bytes)
    requires Consistent(s)
    ensures Consistent(DeleteRange(s, key, rangeEnd)) && s.history <= DeleteRange(s, key, rangeEnd).history
  {
    var gone := Covered(s.kvs, key, rangeEnd);
    if gone != {} {
      var rev := s.revision + 1;
      DeletionBatch(s.kvs, gone, rev);
      EmitKeeps(s, s.kvs - gone, Deregister(s.leases, s.kvs, gone), DeleteEvents(s.kvs, Ascending(gone), rev));
    }
  }

  lemma PerformKeeps(s: State, op: Op)
    requires Consistent(s)
    ensures Consistent(Perform(s, op).state) && s.history <= Perform(s, op).state.history
  {
    match op {
      case PutOp(p) => PutKeeps(s, p);
      case DeleteOp(d) => DeleteKeeps(s, d.key, d.rangeEnd);
      case _ =>
    }
  }

  lemma {:induction false} SequentialKeeps(s: State, ops: seq<Op>)
    requires Consistent(s)
    ensures Consistent(Sequential(s, ops).state) && s.history <= Sequential(s, ops).state.history
    decreases |ops|
  {
    if ops != [] {
      PerformKeeps(s, ops[0]);
      SequentialKeeps(Perform(s, ops[0]).state, ops[1..]);
    }
  }

  lemma {:induction false} DeleteEachKeeps(s: State, keys: seq<Bytes>)
    requires Consistent(s)
    ensures Consistent(DeleteEach(s, keys)) && s.history <= DeleteEach(s, keys).history
    decreases |keys|
  {
    if keys != [] {
      DeleteEachKeeps(s, keys[..|keys| - 1]);
      DeleteKeeps(DeleteEach(s, keys[..|keys| - 1]), keys[|keys| - 1], []);
    }
  }

  lemma RevokeKeeps(s: State, id: int)
    requires Consistent(s)
    ensures Consistent(Revoke(s, id)) && s.history <= Revoke(s, id).history
  {
    if id in s.leases {
      DeleteEachKeeps(s.(leases := s.leases - {id}), s.leases[id].keys);
    }
  }

  lemma {:induction false} RevokeAllKeeps(s: State, ids: seq<int>)
    requires Consistent(s)
    ensures Consistent(RevokeAll(s, ids)) && s.history <= RevokeAll(s, ids).history
    decreases |ids|
  {
    if ids != [] {
      RevokeKeeps(s, ids[0]);
      RevokeAllKeeps(Revoke(s, ids[0]), ids[1..]);
    }
  }

  lemma CompactKeeps(s: State, rev: int)
    requires Consistent(s)
    ensures Consistent(Compact(s, rev)) && Compact(s, rev).history == s.history
    ensures rev > s.compactRevision ==>
              Dropped(Compact(s, rev)) == Clamp(if rev - 1 > Dropped(s) then rev - 1 else Dropped(s), |s.history|)
  {
    AfterDense(s.history, Dropped(s), rev);
  }

  lemma StepKeeps(s: State, step: Step)
    requires Consistent(s)
    ensures Consistent(Next(s, step)) && s.history <= Next(s, step).history
  {
    match step {
      case Call(op) =>
        OpIsSequential(s, op);
        SequentialKeeps(s, FlattenOp(s, op));
      case CompactTo(rev) => CompactKeeps(s, rev);
      case GrantLease(_, _) =>
      case RevokeLease(id) => RevokeKeeps(s, id);
      case Expire(ids) => RevokeAllKeeps(s, ids);
    }
  }

  /** Every reachable store is consistent, and its history only grows. */
  lemma {:induction false} RunKeeps(s: State, steps: seq<Step>)
    requires Consistent(s)
    ensures Consistent(Run(s, steps)) && s.history <= Run(s, steps).history
    decreases |steps|
  {
    if steps != [] {
      StepKeeps(s, steps[0]);
      RunKeeps(Next(s, steps[0]), steps[1..]);
    }
  }

  lemma Reachable(steps: seq<Step>)
    ensures var s := Run(INITIAL, steps);
            && s.kvs == Replay(s.history)
            && s.revision == |s.history| + 1
            && (forall i | 0 <= i < |s.history| :: s.history[i].revision == i + 2)
  {
    RunKeeps(INITIAL, steps);
    var s := Run(INITIAL, steps);
    forall i | 0 <= i < |s.history|
      ensures s.history[i].revision == i + 2
    {
      Dense(s.history, i);
    }
  }

  lemma {:induction false} RunSplit(s: State, a: seq<Step>, b: seq<Step>)
    ensures Run(s, a + b) == Run(Run(s, a), b)
    decreases |a|
  {
    if a == [] {
      assert a + b == b;
    } else {
      assert (a + b)[1..] == a[1..] + b;
      RunSplit(Next(s, a[0]), a[1..], b);
    }
  }

  // ---- the log and past snapshots ----------------------------------------------------

  /** From the compaction revision on, the log holds every batch once and in order. */
  lemma LogCovers(s: State, rev: int)
    requires Consistent(s) && rev >= s.compactRevision
    ensures EventsSince(s, rev) == s.history[Clamp(rev - 1, |s.history|)..]
  {
    AfterDense(s.history, Dropped(s), rev);
  }

  /** Undoing the log on the current map gives back any snapshot that is not compacted. */
  lemma SnapshotRecovered(s: State, rev: int)
    requires Consistent(s) && rev >= s.compactRevision
    ensures Rewind(s.kvs, EventsSince(s, rev)) == Snapshot(s.history, rev)
  {
    LogCovers(s, rev);
    RewindRecovers(s.history, Clamp(rev - 1, |s.history|));
  }

  /** The log is exactly the batches above max(1, compact_revision). */
  ghost predicate LogExact(s: State) {
    s.log == s.history[Clamp(AtLeastOne(s.compactRevision) - 1, |s.history|)..]
  }

  ghost predicate CompactsWithinHistory(s: State, steps: seq<Step>)
    decreases |steps|
  {
    steps == [] ||
    (&& (steps[0].CompactTo? ==> steps[0].rev <= s.revision)
     && CompactsWithinHistory(Next(s, steps[0]), steps[1..]))
  }

  lemma LogExactDropped(s: State)
    requires Consistent(s) && s.compactRevision <= s.revision
    ensures LogExact(s) <==> Dropped(s) + 1 == AtLeastOne(s.compactRevision)
  {
    var d := Clamp(AtLeastOne(s.compactRevision) - 1, |s.history|);
    assert |s.history[d..]| == |s.history| - d;
  }

  lemma StepKeepsLog(s: State, step: Step)
    requires Consistent(s) && s.compactRevision <= s.revision && LogExact(s)
    requires step.CompactTo? ==> step.rev <= s.revision
    ensures Next(s, step).compactRevision <= Next(s, step).revision && LogExact(Next(s, step))
  {
    StepKeeps(s, step);
    LogExactDropped(s);
    if step.CompactTo? {
      CompactKeeps(s, step.rev);
    } else {
      OnlyCompactTrims(s, step);
    }
    LogExactDropped(Next(s, step));
  }

  /** Every step but a compaction appends the same batches to the log and to the history. */
  lemma OnlyCompactTrims(s: State, step: Step)
    requires Consistent(s) && !step.CompactTo?
    ensures var t := Next(s, step);
            t.compactRevision == s.compactRevision && Dropped(t) == Dropped(s) && s.history <= t.history
  {
    StepKeeps(s, step);
    match step {
      case Call(op) =>
        OpIsSequential(s, op);
        SequentialTrimsNothing(s, FlattenOp(s, op));
      case GrantLease(_, _) =>
      case RevokeLease(id) => RevokeTrimsNothing(s, id);
      case Expire(ids) => RevokeAllTrimsNothing(s, ids);
    }
  }

  lemma {:induction false} SequentialTrimsNothing(s: State, ops: seq<Op>)
    ensures var t := Sequential(s, ops).state; t.compactRevision == s.compactRevision && Dropped(t) == Dropped(s)
    decreases |ops|
  {
    if ops != [] {
      SequentialTrimsNothing(Perform(s, ops[0]).state, ops[1..]);
    }
  }

  lemma {:induction false} DeleteEachTrimsNothing(s: State, keys: seq<Bytes>)
    ensures var t := DeleteEach(s, keys); t.compactRevision == s.compactRevision && Dropped(t) == Dropped(s)
    decreases |keys|
  {
    if keys != [] {
      DeleteEachTrimsNothing(s, keys[..|keys| - 1]);
    }
  }

  lemma RevokeTrimsNothing(s: State, id: int)
    ensures var t := Revoke(s, id); t.compactRevision == s.compactRevision && Dropped(t) == Dropped(s)
  {
    if id in s.leases {
      DeleteEachTrimsNothing(s.(leases := s.leases - {id}), s.leases[id].keys);
    }
  }

  lemma {:induction false} RevokeAllTrimsNothing(s: State, ids: seq<int>)
    ensures var t := RevokeAll(s, ids); t.compactRevision == s.compactRevision && Dropped(t) == Dropped(s)
    decreases |ids|
  {
    if ids != [] {
      RevokeTrimsNothing(s, ids[0]);
      RevokeAllTrimsNothing(Revoke(s, ids[0]), ids[1..]);
    }
  }

  lemma {:induction false} LogExactInRuns(s: State, steps: seq<Step>)
    requires Consistent(s) && s.compactRevision <= s.revision && LogExact(s)
    requires CompactsWithinHistory(s, steps)
    ensures LogExact(Run(s, steps))
    decreases |steps|
  {
    if steps != [] {
      StepKeeps(s, steps[0]);
      StepKeepsLog(s, steps[0]);
      LogExactInRuns(Next(s, steps[0]), steps[1..]);
    }
  }

  /** `compact` takes any argument; beyond the current revision the next write breaks the log. */
  lemma LogExactIff(s: State, rev: int, p: PutRequest)
    requires Consistent(s) && s.compactRevision <= s.revision && LogExact(s)
    ensures LogExact(Put(Compact(s, rev), p)) <==> rev <= s.revision
  {
    CompactKeeps(s, rev);
    if rev <= s.revision {
      CompactKeepsLog(s, rev);
      PutKeepsLog(Compact(s, rev), p);
    } else {
      OvershotLog(Compact(s, rev), p);
    }
  }

  lemma CompactKeepsLog(s: State, rev: int)
    requires Consistent(s) && s.compactRevision <= s.revision && LogExact(s) && rev <= s.revision
    ensures Compact(s, rev).compactRevision <= Compact(s, rev).revision && LogExact(Compact(s, rev))
  {
    StepKeepsLog(s, CompactTo(rev));
  }

  lemma PutKeepsLog(s: State, p: PutRequest)
    requires Consistent(s) && s.compactRevision <= s.revision && LogExact(s)
    ensures LogExact(Put(s, p))
  {
    StepKeepsLog(s, Call(PutOp(p)));
  }

  lemma OvershotLog(s: State, p: PutRequest)
    requires s.revision == |s.history| + 1 < s.compactRevision
    ensures !LogExact(Put(s, p))
  {
    var t := Put(s, p);
    assert |t.history| == s.revision && |t.log| > 0;
    assert t.history[|t.history|..] == [];
  }

  // ---- reads at a past revision ---------------------------------------------------------

  predicate Unfiltered(r: RangeRequest) {
    r.limit <= 0 && r.minMod == 0 && r.maxMod == 0 && r.minCreate == 0 && r.maxCreate == 0
  }

  /** Keys of a snapshot, in a range, that nothing has written since. */
  function Surviving(h: seq<Batch>, rev: int, r: RangeRequest): set<Bytes> {
    set k | k in Snapshot(h, rev) && InRange(k, r.key, r.rangeEnd) && Untouched(h, k, Clamp(rev - 1, |h|))
  }

  lemma SurvivorsSelected(s: State, r: RangeRequest, k: Bytes)
    requires Consistent(s) && Unfiltered(r)
    ensures var at := AtRevision(s.revision, r.revision);
            && (k in Selected(s.kvs, s.revision, r) <==> k in Surviving(s.history, at, r))
            && (k in Surviving(s.history, at, r) ==> k in s.kvs && s.kvs[k] == Snapshot(s.history, at)[k])
  {
    var h := s.history;
    var at := AtRevision(s.revision, r.revision);
    var i := Clamp(at - 1, |h|);
    FaithfulPrefix(h, i);
    if Untouched(h, k, i) {
      UntouchedSame(h, k, i);
      if k in Replay(h[..i]) {
        VersionBound(h[..i], k);
      }
    } else if k in s.kvs {
      TouchedNewer(h, k, i);
    }
    if k in s.kvs {
      VersionBound(h, k);
    }
  }

  /**
   A Range at a past revision reads the current map, so it is not a snapshot: it is the part of
   the snapshot that has not been written since, with the snapshot's values.
   */
  lemma PastRange(s: State, r: RangeRequest)
    requires Consistent(s) && Unfiltered(r)
    ensures var at := AtRevision(s.revision, r.revision);
            var past := Snapshot(s.history, at);
            var keys := Ascending(Surviving(s.history, at, r));
            RangeKvs(s.kvs, s.revision, r) == Page(Values(past, keys), false, |keys|)
  {
    var at := AtRevision(s.revision, r.revision);
    forall k
      ensures k in Selected(s.kvs, s.revision, r) <==> k in Surviving(s.history, at, r)
      ensures k in Surviving(s.history, at, r) ==> k in s.kvs && s.kvs[k] == Snapshot(s.history, at)[k]
    {
      SurvivorsSelected(s, r, k);
    }
    assert Selected(s.kvs, s.revision, r) == Surviving(s.history, at, r);
    ValuesAgree(s.kvs, Snapshot(s.history, at), Ascending(Surviving(s.history, at, r)));
  }

  lemma ValuesAgree(a: Kvs, b: Kvs, keys: seq<Bytes>)
    requires forall k | k in keys :: k in a && k in b && a[k] == b[k]
    ensures Values(a, keys) == Values(b, keys)
  {
    assert forall i | 0 <= i < |keys| :: keys[i] in keys;
  }

  // ---- reads after writes ----------------------------------------------------------------

  lemma AscendingOne(k: Bytes)
    ensures Ascending({k}) == [k]
  {
    AscendingSorted({k});
    SortedUnique(Ascending({k}), [k]);
  }

  /** A single-key Range after a put reads what was put; all other keys are as before. */
  lemma ReadYourWrite(s: State, p: PutRequest, r: RangeRequest)
    requires Unfiltered(r) && r.revision == 0 && r.rangeEnd == [] && r.key == p.key
    ensures var t, prev := Put(s, p), Get(s.kvs, p.key);
            && t.revision == s.revision + 1
            && (exists kv :: RangeKvs(t.kvs, t.revision, r) == Page([kv], false, 1)
                  && kv.key == p.key && kv.modRevision == t.revision
                  && kv.value == (if !p.ignoreValue then p.value else if prev.Some? then prev.value.value else [])
                  && kv.lease == (if !p.ignoreLease then p.lease else if prev.Some? then prev.value.lease else 0))
            && forall k | k != p.key :: Get(t.kvs, k) == Get(s.kvs, k)
  {
    var t := Put(s, p);
    assert Selected(t.kvs, t.revision, r) == {p.key};
    AscendingOne(p.key);
    assert RangeKvs(t.kvs, t.revision, r) == Page([t.kvs[p.key]], false, 1);
  }

  // ---- compare and swap ---------------------------------------------------------------------

  predicate WritesDirectly(op: Op, k: Bytes) {
    || (op.PutOp? && op.put.key == k)
    || (op.DeleteOp? && InRange(k, op.delete.key, op.delete.rangeEnd))
  }

  /** Guarded by `mod_revision(k) == m`, with a write to `k` in the success branch. */
  predicate Swaps(t: TxnRequest, k: Bytes, m: int) {
    && Compare(k, EQUAL, MOD, ModRevision(m)) in t.compares
    && exists i | 0 <= i < |t.success| :: WritesDirectly(t.success[i], k)
  }

  predicate Succeeds(s: State, t: TxnRequest) {
    Txn(s, t).response.TxnResponse? && Txn(s, t).response.succeeded
  }

  /** Revision `m` is over for `k`: if the key is live, it was written later. */
  predicate Superseded(s: State, k: Bytes, m: int) {
    s.revision >= m && (k in s.kvs ==> s.kvs[k].modRevision > m)
  }

  lemma PerformSupersedes(s: State, op: Op, k: Bytes, m: int)
    requires s.revision >= m
    ensures var t := Perform(s, op);
            && t.state.revision >= m
            && (Superseded(s, k, m) ==> Superseded(t.state, k, m))
            && (!t.response.Panicked? && WritesDirectly(op, k) ==> Superseded(t.state, k, m))
  {
    if op.DeleteOp? && k in s.kvs && WritesDirectly(op, k) {
      assert k in Covered(s.kvs, op.delete.key, op.delete.rangeEnd);
    }
  }

  lemma {:induction false} SequentialSupersedes(s: State, ops: seq<Op>, k: Bytes, m: int)
    requires s.revision >= m
    ensures var t := Sequential(s, ops);
            && t.state.revision >= m
            && (Superseded(s, k, m) ==> Superseded(t.state, k, m))
            && (!Unwound(t.responses) && (exists i | 0 <= i < |ops| :: WritesDirectly(ops[i], k)) ==> Superseded(t.state, k, m))
    decreases |ops|
  {
    if ops != [] {
      var first := Perform(s, ops[0]);
      PerformSupersedes(s, ops[0], k, m);
      if !first.response.Panicked? {
        SequentialSupersedes(first.state, ops[1..], k, m);
        var rest := Sequential(first.state, ops[1..]);
        UnwoundConcat([first.response], rest.responses);
        if i :| 0 <= i < |ops| && WritesDirectly(ops[i], k) {
          assert i > 0 ==> ops[1..][i - 1] == ops[i];
        }
      }
    }
  }

  lemma {:induction false} DirectWriteFlattened(s: State, ops: seq<Op>, i: nat, k: Bytes)
    requires i < |ops| && WritesDirectly(ops[i], k)
    ensures exists j | 0 <= j < |Flatten(s, ops)| :: WritesDirectly(Flatten(s, ops)[j], k)
    decreases |ops|
  {
    var first := FlattenOp(s, ops[0]);
    var rest := Flatten(Sequential(s, first).state, ops[1..]);
    if i == 0 {
      assert Flatten(s, ops)[0] == ops[0];
    } else {
      DirectWriteFlattened(Sequential(s, first).state, ops[1..], i - 1, k);
      var j :| 0 <= j < |rest| && WritesDirectly(rest[j], k);
      assert Flatten(s, ops)[|first| + j] == rest[j];
    }
  }

  lemma SwapSupersedes(s: State, t: TxnRequest, k: Bytes, m: int)
    requires Consistent(s) && m != 0 && Swaps(t, k, m) && Succeeds(s, t)
    ensures k in s.kvs && s.kvs[k].modRevision == m
    ensures Superseded(Txn(s, t).state, k, m)
  {
    var c := Compare(k, EQUAL, MOD, ModRevision(m));
    var i :| 0 <= i < |t.compares| && t.compares[i] == c;
    assert Holds(s.kvs, t.compares[i]);
    VersionBound(s.history, k);
    TxnIsSequential(s, t);
    var j :| 0 <= j < |t.success| && WritesDirectly(t.success[j], k);
    DirectWriteFlattened(s, t.success, j, k);
    SequentialSupersedes(s, FlattenTxn(s, t), k, m);
  }

  lemma {:induction false} DeleteEachSupersedes(s: State, keys: seq<Bytes>, k: Bytes, m: int)
    requires Superseded(s, k, m)
    ensures Superseded(DeleteEach(s, keys), k, m)
    decreases |keys|
  {
    if keys != [] {
      DeleteEachSupersedes(s, keys[..|keys| - 1], k, m);
    }
  }

  lemma {:induction false} RevokeAllSupersedes(s: State, ids: seq<int>, k: Bytes, m: int)
    requires Superseded(s, k, m)
    ensures Superseded(RevokeAll(s, ids), k, m)
    decreases |ids|
  {
    if ids != [] {
      if ids[0] in s.leases {
        DeleteEachSupersedes(s.(leases := s.leases - {ids[0]}), s.leases[ids[0]].keys, k, m);
      }
      RevokeAllSupersedes(Revoke(s, ids[0]), ids[1..], k, m);
    }
  }

  lemma {:induction false} SupersededForever(s: State, steps: seq<Step>, k: Bytes, m: int)
    requires Superseded(s, k, m)
    ensures Superseded(Run(s, steps), k, m)
    decreases |steps|
  {
    if steps != [] {
      match steps[0] {
        case Call(op) =>
          OpIsSequential(s, op);
          SequentialSupersedes(s, FlattenOp(s, op), k, m);
        case RevokeLease(id) =>
          RevokeAllSupersedes(s, [id], k, m);
          assert [id][1..] == [];
          assert RevokeAll(s, [id]) == Revoke(s, id);
        case Expire(ids) => RevokeAllSupersedes(s, ids, k, m);
        case _ =>
      }
      SupersededForever(Next(s, steps[0]), steps[1..], k, m);
    }
  }

  /** The transaction at step `i` of a run succeeded. */
  ghost predicate SucceedsAt(steps: seq<Step>, i: nat)
    requires i < |steps| && steps[i].Call? && steps[i].op.TxnOp?
  {
    Succeeds(Run(INITIAL, steps[..i]), steps[i].op.txn)
  }

  /** At most one swap against the same key and revision succeeds in a run. */
  lemma SwapAtMostOnce(steps: seq<Step>, i: nat, j: nat, k: Bytes, m: int)
    requires i < j < |steps| && m != 0
    requires steps[i].Call? && steps[i].op.TxnOp? && Swaps(steps[i].op.txn, k, m)
    requires steps[j].Call? && steps[j].op.TxnOp? && Swaps(steps[j].op.txn, k, m)
    ensures !(SucceedsAt(steps, i) && SucceedsAt(steps, j))
  {
    if SucceedsAt(steps, i) {
      var s := Run(INITIAL, steps[..i]);
      RunKeeps(INITIAL, steps[..i]);
      SwapSupersedes(s, steps[i].op.txn, k, m);
      RunSplit(INITIAL, steps[..i], steps[i..j]);
      assert steps[..i] + steps[i..j] == steps[..j];
      assert steps[i..j][0] == steps[i] && steps[i..j][1..] == steps[i + 1..j];
      SupersededForever(Next(s, steps[i]), steps[i + 1..j], k, m);
      var u := Run(INITIAL, steps[..j]);
      assert Superseded(u, k, m);
      RunKeeps(INITIAL, steps[..j]);
      if Succeeds(u, steps[j].op.txn) {
        SwapSupersedes(u, steps[j].op.txn, k, m);
      }
    }
  }

  /** Between revision `m` and a successful swap against it, nothing wrote the key. */
  lemma SwapSawLatest(s: State, t: TxnRequest, k: Bytes, m: int)
    requires Consistent(s) && m != 0 && Swaps(t, k, m) && Succeeds(s, t)
    ensures 2 <= m <= s.revision && Untouched(s.history, k, m - 1)
    ensures Get(s.kvs, k) == Get(Snapshot(s.history, m), k)
  {
    SwapSupersedes(s, t, k, m);
    VersionBound(s.history, k);
    if !Untouched(s.history, k, m - 1) {
      TouchedNewer(s.history, k, m - 1);
    }
    UntouchedSame(s.history, k, m - 1);
  }
}
