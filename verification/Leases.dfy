/** The lease index against the keys it indexes. */
module Leases {
  import opened ByteOrder
  import opened StoreModel
  import opened Transactions
  import opened Runs

  ghost predicate Distinct(keys: seq<Bytes>) {
    forall i, j | 0 <= i < j < |keys| :: keys[i] != keys[j]
  }

  ghost predicate Lists(kvs: map<Bytes, Kv>, id: int, keys: seq<Bytes>) {
    Distinct(keys) && forall k | k in keys :: k in kvs && kvs[k].lease == id
  }

  /** Every listed key is live, carries the lease it is listed under, and is listed once. */
  ghost predicate Sound(s: State) {
    && s.nextLeaseId >= 1
    && 0 !in s.leases
    && forall id | id in s.leases :: Lists(s.kvs, id, s.leases[id].keys)
  }

  /** Every key carrying a live lease is listed under it. */
  ghost predicate Complete(s: State) {
    forall k | k in s.kvs && s.kvs[k].lease in s.leases :: k in s.leases[s.kvs[k].lease].keys
  }

  function Carriers(kvs: map<Bytes, Kv>, id: int): set<Bytes> {
    set k | k in kvs && kvs[k].lease == id
  }

  lemma {:induction false} WithoutDistinct(keys: seq<Bytes>, gone: set<Bytes>)
    requires Distinct(keys)
    ensures Distinct(Without(keys, gone))
  {
    if keys != [] {
      WithoutDistinct(keys[1..], gone);
      var rest := Without(keys[1..], gone);
      forall i | 0 <= i < |rest|
        ensures rest[i] != keys[0]
      {
        assert rest[i] in rest;
        var j :| 0 <= j < |keys[1..]| && keys[1..][j] == rest[i];
        assert keys[j + 1] == rest[i];
      }
    }
  }

  lemma {:induction false} WithoutNothing(keys: seq<Bytes>)
    ensures Without(keys, {}) == keys
  {
    if keys != [] {
      WithoutNothing(keys[1..]);
    }
  }

  // ---- puts ------------------------------------------------------------------------

  lemma PutLists(s: State, p: PutRequest, id: int)
    requires Sound(s) && id in s.leases
    ensures var t := Put(s, p);
            && t.leases.Keys == s.leases.Keys
            && Lists(t.kvs, id, t.leases[id].keys)
            && (forall k | k != p.key :: k in t.leases[id].keys <==> k in s.leases[id].keys)
            && (p.key in t.leases[id].keys <==> t.kvs[p.key].lease == id)
  {
    var t := Put(s, p);
    var prev := Get(s.kvs, p.key);
    var mid := Detach(s.leases, prev, p.key);
    assert Lists(s.kvs, id, s.leases[id].keys);
    WithoutDistinct(s.leases[id].keys, {p.key});
    assert Distinct(mid[id].keys);
    assert p.key !in mid[id].keys;
    assert t.leases == Attach(mid, t.kvs[p.key].lease, p.key);
  }

  lemma PutKeepsLeases(s: State, p: PutRequest)
    requires Sound(s)
    ensures Sound(Put(s, p))
    ensures Complete(s) ==> Complete(Put(s, p))
  {
    var t := Put(s, p);
    forall id | id in s.leases
      ensures t.leases.Keys == s.leases.Keys
      ensures Lists(t.kvs, id, t.leases[id].keys)
      ensures forall k | k != p.key :: k in t.leases[id].keys <==> k in s.leases[id].keys
      ensures p.key in t.leases[id].keys <==> t.kvs[p.key].lease == id
    {
      PutLists(s, p, id);
    }
    assert t.leases.Keys == s.leases.Keys;
  }

  // ---- deletes ------------------------------------------------------------------------

  lemma DeleteLists(s: State, gone: set<Bytes>, id: int)
    requires Sound(s) && id in s.leases && gone <= s.kvs.Keys
    ensures var keys := Deregister(s.leases, s.kvs, gone)[id].keys;
            Lists(s.kvs - gone, id, keys) && forall k :: k in keys <==> k in s.leases[id].keys && k !in gone
  {
    assert Lists(s.kvs, id, s.leases[id].keys);
    WithoutDistinct(s.leases[id].keys, CarriedBy(s.kvs, gone, id));
  }

  lemma DeleteKeepsLeases(s: State, key: Bytes, rangeEnd: Bytes)
    requires Sound(s)
    ensures Sound(DeleteRange(s, key, rangeEnd))
    ensures Complete(s) ==> Complete(DeleteRange(s, key, rangeEnd))
  {
    var gone := Covered(s.kvs, key, rangeEnd);
    if gone != {} {
      var t := DeleteRange(s, key, rangeEnd);
      assert t.kvs == s.kvs - gone && t.leases == Deregister(s.leases, s.kvs, gone);
      forall id | id in s.leases
        ensures Lists(t.kvs, id, t.leases[id].keys)
        ensures forall k :: k in t.leases[id].keys <==> k in s.leases[id].keys && k !in gone
      {
        DeleteLists(s, gone, id);
      }
    }
  }

  lemma {:induction false} SequentialKeepsLeases(s: State, ops: seq<Op>)
    requires Sound(s)
    ensures Sound(Sequential(s, ops).state)
    ensures Complete(s) ==> Complete(Sequential(s, ops).state)
    decreases |ops|
  {
    if ops != [] {
      PerformKeepsLeases(s, ops[0]);
      SequentialKeepsLeases(Perform(s, ops[0]).state, ops[1..]);
    }
  }

  lemma PerformKeepsLeases(s: State, op: Op)
    requires Sound(s)
    ensures Sound(Perform(s, op).state)
    ensures Complete(s) ==> Complete(Perform(s, op).state)
  {
    match op {
      case PutOp(p) => PutKeepsLeases(s, p);
      case DeleteOp(d) => DeleteKeepsLeases(s, d.key, d.rangeEnd);
      case _ =>
    }
  }

  // ---- grants ----------------------------------------------------------------------------

  lemma GrantKeepsSound(s: State, ttl: int, id: int)
    requires Sound(s)
    ensures Sound(Grant(s, ttl, id))
  {
    var t := Grant(s, ttl, id);
    forall i | i in t.leases
      ensures Lists(t.kvs, i, t.leases[i].keys)
    {
      if i != GrantedId(s, id) {
        assert Lists(s.kvs, i, s.leases[i].keys);
      }
    }
  }

  /** A grant starts with an empty key list, whoever already carries the id. */
  lemma GrantKeepsCompleteIff(s: State, ttl: int, id: int)
    requires Complete(s)
    ensures Complete(Grant(s, ttl, id)) <==> Carriers(s.kvs, GrantedId(s, id)) == {}
  {
    var t := Grant(s, ttl, id);
    var actual := GrantedId(s, id);
    assert t.leases[actual].keys == [];
    if k :| k in Carriers(s.kvs, actual) {
      assert t.kvs[k].lease in t.leases && k !in t.leases[actual].keys;
    } else {
      forall k | k in t.kvs && t.kvs[k].lease in t.leases
        ensures k in t.leases[t.kvs[k].lease].keys
      {
        assert k !in Carriers(s.kvs, actual);
      }
    }
  }

  // ---- revocation -------------------------------------------------------------------------

  lemma DeleteSingle(s: State, k: Bytes)
    requires k in s.kvs
    ensures var t := DeleteRange(s, k, []);
            && t.kvs == s.kvs - {k}
            && t.revision == s.revision + 1
            && t.leases == Deregister(s.leases, s.kvs, {k})
            && t.nextLeaseId == s.nextLeaseId
  {
    assert Covered(s.kvs, k, []) == {k};
  }

  lemma DeleteOneKey(s: State, k: Bytes, id: int)
    requires k in s.kvs && s.kvs[k].lease == id && id !in s.leases
    ensures var t := DeleteRange(s, k, []);
            && t.kvs == s.kvs - {k}
            && t.revision == s.revision + 1
            && t.leases == s.leases
            && t.nextLeaseId == s.nextLeaseId
  {
    var gone := {k};
    DeleteSingle(s, k);
    forall i | i in s.leases
      ensures Deregister(s.leases, s.kvs, gone)[i] == s.leases[i]
    {
      assert CarriedBy(s.kvs, gone, i) == {};
      WithoutNothing(s.leases[i].keys);
    }
    assert Deregister(s.leases, s.kvs, gone) == s.leases;
  }

  lemma {:induction false} WithoutLast(keys: seq<Bytes>, k: Bytes)
    requires k !in keys
    ensures Without(keys, {k}) == keys && Without(keys + [k], {k}) == keys
  {
    if keys == [] {
      assert [k][1..] == [];
    } else {
      WithoutLast(keys[1..], k);
      assert (keys + [k])[1..] == keys[1..] + [k];
    }
  }

  /** Deleting a key that was just created undoes the put: same map, same lease index, two revisions on. */
  lemma PutThenDelete(s: State, p: PutRequest)
    requires Sound(s) && p.key !in s.kvs
    ensures var t := DeleteRange(Put(s, p), p.key, []);
            t.kvs == s.kvs && t.leases == s.leases && t.revision == s.revision + 2
  {
    var mid := Put(s, p);
    DeleteSingle(mid, p.key);
    assert mid.kvs - {p.key} == s.kvs;
    forall id | id in s.leases
      ensures id in mid.leases && Deregister(mid.leases, mid.kvs, {p.key})[id] == s.leases[id]
    {
      PutThenDeregister(s, p, id);
    }
    assert mid.leases.Keys == s.leases.Keys;
    assert Deregister(mid.leases, mid.kvs, {p.key}) == s.leases;
  }

  lemma PutThenDeregister(s: State, p: PutRequest, id: int)
    requires Sound(s) && p.key !in s.kvs && id in s.leases
    ensures var mid := Put(s, p); id in mid.leases && Deregister(mid.leases, mid.kvs, {p.key})[id] == s.leases[id]
  {
    var mid := Put(s, p);
    assert Lists(s.kvs, id, s.leases[id].keys);
    WithoutLast(s.leases[id].keys, p.key);
    WithoutNothing(s.leases[id].keys);
    assert CarriedBy(mid.kvs, {p.key}, id) == if mid.kvs[p.key].lease == id then {p.key} else {};
  }

  lemma {:induction false} DeleteListed(s: State, keys: seq<Bytes>, id: int)
    requires Lists(s.kvs, id, keys) && id !in s.leases
    ensures var t := DeleteEach(s, keys);
            && t.kvs == s.kvs - (set k | k in keys)
            && t.revision == s.revision + |keys|
            && t.leases == s.leases
            && t.nextLeaseId == s.nextLeaseId
    decreases |keys|
  {
    if keys != [] {
      var n := |keys| - 1;
      var k := keys[n];
      AllButLast(s.kvs, id, keys);
      DeleteListed(s, keys[..n], id);
      DeleteOneKey(DeleteEach(s, keys[..n]), k, id);
    }
  }

  lemma AllButLast(kvs: map<Bytes, Kv>, id: int, keys: seq<Bytes>)
    requires Lists(kvs, id, keys) && keys != []
    ensures
      var rest, last := keys[..|keys| - 1], keys[|keys| - 1];
      && Lists(kvs, id, rest) && last in keys && last !in rest
      && kvs - (set k | k in keys) == kvs - (set k | k in rest) - {last}
  {
    var rest, last := keys[..|keys| - 1], keys[|keys| - 1];
    assert keys == rest + [last];
    assert (set k | k in keys) == (set k | k in rest) + {last};
  }

  /** The batch deletes this key and does nothing else. */
  ghost predicate DeletesOnly(b: Batch, rev: int, k: Bytes) {
    b.revision == rev && |b.events| == 1 && b.events[0].kind == DELETE && b.events[0].kv.key == k
  }

  lemma SingleBatch(s: State, k: Bytes)
    requires k in s.kvs
    ensures var t := DeleteRange(s, k, []);
            |t.history| == |s.history| + 1 && s.history <= t.history && DeletesOnly(t.history[|s.history|], s.revision + 1, k)
  {
    assert Covered(s.kvs, k, []) == {k};
    AscendingOne(k);
  }

  /** Listed keys go one by one in list order: the i-th is the only event of the i-th new revision. */
  lemma {:induction false} DeletesInOrder(s: State, keys: seq<Bytes>, id: int)
    requires Lists(s.kvs, id, keys) && id !in s.leases
    ensures var t := DeleteEach(s, keys);
            && |t.history| == |s.history| + |keys| && s.history <= t.history
            && forall i | 0 <= i < |keys| :: DeletesOnly(t.history[|s.history| + i], s.revision + i + 1, keys[i])
    decreases |keys|
  {
    if keys != [] {
      var n := |keys| - 1;
      var mid := DeleteEach(s, keys[..n]);
      AllButLast(s.kvs, id, keys);
      DeleteListed(s, keys[..n], id);
      DeletesInOrder(s, keys[..n], id);
      SingleBatch(mid, keys[n]);
      OrderExtends(s, keys[..n], keys[n], mid.history, DeleteEach(s, keys).history);
      assert keys[..n] + [keys[n]] == keys;
    }
  }

  lemma OrderExtends(s: State, rest: seq<Bytes>, k: Bytes, mid: seq<Batch>, now: seq<Batch>)
    requires |mid| == |s.history| + |rest| && |now| == |mid| + 1 && s.history <= mid <= now
    requires forall i | 0 <= i < |rest| :: DeletesOnly(mid[|s.history| + i], s.revision + i + 1, rest[i])
    requires DeletesOnly(now[|mid|], s.revision + |rest| + 1, k)
    ensures s.history <= now
    ensures forall i | 0 <= i <= |rest| :: DeletesOnly(now[|s.history| + i], s.revision + i + 1, (rest + [k])[i])
  {
    forall i | 0 <= i <= |rest|
      ensures DeletesOnly(now[|s.history| + i], s.revision + i + 1, (rest + [k])[i])
    {
      if i < |rest| {
        assert now[|s.history| + i] == mid[|s.history| + i] && (rest + [k])[i] == rest[i];
      }
    }
  }

  /** A revoked lease's keys are deleted in the order they were attached, each in a revision of its own. */
  lemma RevokeInOrder(s: State, id: int)
    requires Sound(s) && id in s.leases
    ensures var t, keys := Revoke(s, id), s.leases[id].keys;
            && |t.history| == |s.history| + |keys|
            && forall i | 0 <= i < |keys| :: DeletesOnly(t.history[|s.history| + i], s.revision + i + 1, keys[i])
  {
    assert Lists(s.kvs, id, s.leases[id].keys);
    DeletesInOrder(s.(leases := s.leases - {id}), s.leases[id].keys, id);
  }

  /** A key newly attached to a live lease goes to the end of its list. */
  lemma AttachedLast(s: State, p: PutRequest)
    requires Sound(s) && p.lease in s.leases && !p.ignoreLease && (p.key in s.kvs ==> s.kvs[p.key].lease != p.lease)
    ensures p.lease in Put(s, p).leases && Put(s, p).leases[p.lease].keys == s.leases[p.lease].keys + [p.key]
  {
    assert Lists(s.kvs, p.lease, s.leases[p.lease].keys);
  }

  /**
   Revoking a live lease deletes its listed keys and nothing else, one revision each. When the
   index is complete those are all the keys that carry the lease.
   */
  lemma RevokeDeletesLease(s: State, id: int)
    requires Sound(s) && id in s.leases
    ensures var t, keys := Revoke(s, id), s.leases[id].keys;
            && t.kvs == s.kvs - (set k | k in keys)
            && t.revision == s.revision + |keys|
            && t.leases == s.leases - {id}
            && (set k | k in keys) <= Carriers(s.kvs, id)
    ensures Complete(s) ==>
              && Revoke(s, id).kvs == s.kvs - Carriers(s.kvs, id)
              && Revoke(s, id).revision == s.revision + |Carriers(s.kvs, id)|
  {
    var keys := s.leases[id].keys;
    assert Lists(s.kvs, id, keys);
    DeleteListed(s.(leases := s.leases - {id}), keys, id);
    if Complete(s) {
      assert (set k | k in keys) == Carriers(s.kvs, id);
      DistinctCount(keys);
    }
  }

  lemma {:induction false} DistinctCount(keys: seq<Bytes>)
    requires Distinct(keys)
    ensures |set k | k in keys| == |keys|
  {
    if keys != [] {
      var n := |keys| - 1;
      assert keys == keys[..n] + [keys[n]];
      DistinctCount(keys[..n]);
      assert (set x | x in keys) == (set x | x in keys[..n]) + {keys[n]};
      assert keys[n] !in keys[..n];
    }
  }

  lemma RevokeKeepsLeases(s: State, id: int)
    requires Sound(s)
    ensures Sound(Revoke(s, id)) && id !in Revoke(s, id).leases && Revoke(s, id).leases.Keys <= s.leases.Keys
    ensures Complete(s) ==> Complete(Revoke(s, id))
  {
    if id in s.leases {
      RevokeDeletesLease(s, id);
      var t := Revoke(s, id);
      DeleteListed(s.(leases := s.leases - {id}), s.leases[id].keys, id);
      forall i | i in t.leases
        ensures Lists(t.kvs, i, t.leases[i].keys)
      {
        assert Lists(s.kvs, i, s.leases[i].keys);
      }
    }
  }

  /** The expiry task leaves none of the leases it collected, whatever happened in between. */
  lemma {:induction false} RevokeAllKeepsLeases(s: State, ids: seq<int>)
    requires Sound(s)
    ensures Sound(RevokeAll(s, ids))
    ensures Complete(s) ==> Complete(RevokeAll(s, ids))
    ensures RevokeAll(s, ids).leases.Keys <= s.leases.Keys
    ensures forall id | id in ids :: id !in RevokeAll(s, ids).leases
    decreases |ids|
  {
    if ids != [] {
      assert ids == [ids[0]] + ids[1..];
      RevokeKeepsLeases(s, ids[0]);
      RevokeAllKeepsLeases(Revoke(s, ids[0]), ids[1..]);
    }
  }

  // ---- runs ---------------------------------------------------------------------------------

  lemma StepKeepsSound(s: State, step: Step)
    requires Sound(s)
    ensures Sound(Next(s, step))
    ensures Complete(s) && !step.GrantLease? ==> Complete(Next(s, step))
  {
    match step {
      case Call(op) =>
        OpIsSequential(s, op);
        SequentialKeepsLeases(s, FlattenOp(s, op));
      case CompactTo(_) =>
      case GrantLease(ttl, id) => GrantKeepsSound(s, ttl, id);
      case RevokeLease(id) => RevokeKeepsLeases(s, id);
      case Expire(ids) => RevokeAllKeepsLeases(s, ids);
    }
  }

  /** No grant in the run hands out an id that some key carries at that moment. */
  ghost predicate GrantsFresh(s: State, steps: seq<Step>)
    decreases |steps|
  {
    steps == [] ||
    (&& (steps[0].GrantLease? ==> Carriers(s.kvs, GrantedId(s, steps[0].id)) == {})
     && GrantsFresh(Next(s, steps[0]), steps[1..]))
  }

  lemma {:induction false} LeaseIndexInRuns(s: State, steps: seq<Step>)
    requires Sound(s)
    ensures Sound(Run(s, steps))
    ensures Complete(s) && GrantsFresh(s, steps) ==> Complete(Run(s, steps))
    decreases |steps|
  {
    if steps != [] {
      StepKeepsSound(s, steps[0]);
      if Complete(s) && steps[0].GrantLease? {
        GrantKeepsCompleteIff(s, steps[0].ttl, steps[0].id);
      }
      LeaseIndexInRuns(Next(s, steps[0]), steps[1..]);
    }
  }

  // ---- drawn ids -------------------------------------------------------------------------

  /** A grant draws a new id or takes the given one, gives it at least a second, and touches nothing else. */
  lemma GrantEffect(s: State, ttl: int, id: int)
    ensures var t, actual := Grant(s, ttl, id), GrantedId(s, id);
            && (id != 0 ==> actual == id && t.nextLeaseId == s.nextLeaseId)
            && (id == 0 ==> actual == s.nextLeaseId < t.nextLeaseId)
            && t.leases.Keys == s.leases.Keys + {actual}
            && (forall i | i in s.leases && i != actual :: t.leases[i] == s.leases[i])
            && t.leases[actual].id == actual && t.leases[actual].keys == []
            && t.leases[actual].grantedTtl >= 1 && t.leases[actual].grantedTtl >= ttl
            && (t.leases[actual].grantedTtl == 1 || t.leases[actual].grantedTtl == ttl)
            && t.kvs == s.kvs && t.revision == s.revision && t.log == s.log && t.compactRevision == s.compactRevision
  {
  }

  /** Nothing but deletions between the two states. */
  ghost predicate Shrinks(s: State, t: State) {
    t.nextLeaseId == s.nextLeaseId && forall k | k in t.kvs :: k in s.kvs && t.kvs[k] == s.kvs[k]
  }

  lemma {:induction false} DeleteEachShrinks(s: State, keys: seq<Bytes>)
    ensures Shrinks(s, DeleteEach(s, keys))
    decreases |keys|
  {
    if keys != [] {
      DeleteEachShrinks(s, keys[..|keys| - 1]);
    }
  }

  lemma RevokeShrinks(s: State, id: int)
    ensures Shrinks(s, Revoke(s, id))
  {
    if id in s.leases {
      DeleteEachShrinks(s.(leases := s.leases - {id}), s.leases[id].keys);
    }
  }

  lemma {:induction false} RevokeAllShrinks(s: State, ids: seq<int>)
    ensures Shrinks(s, RevokeAll(s, ids))
    decreases |ids|
  {
    if ids != [] {
      RevokeShrinks(s, ids[0]);
      RevokeAllShrinks(Revoke(s, ids[0]), ids[1..]);
    }
  }

  /** Every key carries an id that has been drawn already, or none. */
  ghost predicate LeasesKnown(s: State) {
    forall k | k in s.kvs :: s.kvs[k].lease < s.nextLeaseId
  }

  ghost predicate PutsKnown(ops: seq<Op>, next: int) {
    forall i | 0 <= i < |ops| && ops[i].PutOp? :: ops[i].put.lease < next
  }

  lemma {:induction false} SequentialDraws(s: State, ops: seq<Op>)
    ensures Sequential(s, ops).state.nextLeaseId == s.nextLeaseId
    ensures s.nextLeaseId >= 1 && LeasesKnown(s) && PutsKnown(ops, s.nextLeaseId) ==> LeasesKnown(Sequential(s, ops).state)
    decreases |ops|
  {
    if ops != [] {
      SequentialDraws(Perform(s, ops[0]).state, ops[1..]);
    }
  }

  lemma NextDraws(s: State, step: Step)
    ensures Next(s, step).nextLeaseId == s.nextLeaseId + if step.GrantLease? && step.id == 0 then 1 else 0
  {
    match step {
      case Call(op) =>
        OpIsSequential(s, op);
        SequentialDraws(s, FlattenOp(s, op));
      case CompactTo(_) =>
      case GrantLease(ttl, id) =>
      case RevokeLease(id) => RevokeShrinks(s, id);
      case Expire(ids) => RevokeAllShrinks(s, ids);
    }
  }

  lemma {:induction false} RunDraws(s: State, steps: seq<Step>)
    ensures s.nextLeaseId <= Run(s, steps).nextLeaseId
    decreases |steps|
  {
    if steps != [] {
      NextDraws(s, steps[0]);
      RunDraws(Next(s, steps[0]), steps[1..]);
    }
  }

  /** Two grants of one run that leave the id to the store never draw the same. */
  lemma DrawnLeasesDiffer(s: State, steps: seq<Step>, i: nat, j: nat)
    requires i < j < |steps|
    requires steps[i].GrantLease? && steps[i].id == 0 && steps[j].GrantLease? && steps[j].id == 0
    ensures GrantedId(Run(s, steps[..i]), 0) < GrantedId(Run(s, steps[..j]), 0)
  {
    var mid := Run(s, steps[..i]);
    RunSplit(s, steps[..i], steps[i..j]);
    assert steps[..i] + steps[i..j] == steps[..j];
    assert steps[i..j][0] == steps[i] && steps[i..j][1..] == steps[i + 1..j];
    NextDraws(mid, steps[i]);
    RunDraws(Next(mid, steps[i]), steps[i + 1..j]);
  }

  /** Clients leave every id to the store, and attach keys only to ids drawn before, or to none. */
  ghost predicate Disciplined(s: State, steps: seq<Step>)
    decreases |steps|
  {
    steps == [] ||
    (&& (steps[0].GrantLease? ==> steps[0].id == 0)
     && (steps[0].Call? ==> PutsKnown(FlattenOp(s, steps[0].op), s.nextLeaseId))
     && Disciplined(Next(s, steps[0]), steps[1..]))
  }

  lemma NextKnown(s: State, step: Step)
    requires s.nextLeaseId >= 1 && LeasesKnown(s)
    requires step.Call? ==> PutsKnown(FlattenOp(s, step.op), s.nextLeaseId)
    ensures LeasesKnown(Next(s, step))
  {
    match step {
      case Call(op) =>
        OpIsSequential(s, op);
        SequentialDraws(s, FlattenOp(s, op));
      case CompactTo(_) =>
      case GrantLease(ttl, id) =>
      case RevokeLease(id) => RevokeShrinks(s, id);
      case Expire(ids) => RevokeAllShrinks(s, ids);
    }
  }

  /** Such clients never see an id granted twice over, so for them the lease index is complete in every run. */
  lemma {:induction false} DisciplinedIsFresh(s: State, steps: seq<Step>)
    requires s.nextLeaseId >= 1 && LeasesKnown(s) && Disciplined(s, steps)
    ensures GrantsFresh(s, steps)
    decreases |steps|
  {
    if steps != [] {
      NextDraws(s, steps[0]);
      NextKnown(s, steps[0]);
      DisciplinedIsFresh(Next(s, steps[0]), steps[1..]);
    }
  }

  lemma DisciplinedIsComplete(steps: seq<Step>)
    requires Disciplined(INITIAL, steps)
    ensures Sound(Run(INITIAL, steps)) && Complete(Run(INITIAL, steps))
  {
    DisciplinedIsFresh(INITIAL, steps);
    LeaseIndexInRuns(INITIAL, steps);
  }

  /** A client that names id 1 first: the store draws 1 again, and the key of the first lease is lost to the index. */
  lemma DrawnLeaseCollides(key: Bytes, ttl: int)
    ensures var p := PutRequest(key, [], 1, false, false, false);
            var s := Run(INITIAL, [GrantLease(ttl, 1), Call(PutOp(p)), GrantLease(ttl, 0)]);
            key in s.kvs && s.kvs[key].lease == 1 && 1 in s.leases && s.leases[1].keys == [] && !Complete(s)
  {
    var p := PutRequest(key, [], 1, false, false, false);
    var steps := [GrantLease(ttl, 1), Call(PutOp(p)), GrantLease(ttl, 0)];
    var s1 := Next(INITIAL, steps[0]);
    var s2 := Next(s1, steps[1]);
    var s3 := Next(s2, steps[2]);
    assert s2 == Put(s1, p);
    assert s3.leases[1].keys == [] && s3.kvs[key].lease == 1;
    assert steps[1..][1..] == [steps[2]] && steps[1..][0] == steps[1];
    assert Run(s2, [steps[2]]) == Run(s3, []);
    assert Run(s1, steps[1..]) == Run(s2, steps[1..][1..]);
  }
}
