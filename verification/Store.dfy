/** The store as its methods update it, each proved against its function in StoreModel. */
module EtcdStore {
  import opened ByteOrder
  import opened Options
  import opened StoreModel
  import Runs
  import Leases

  lemma {:induction false} WithoutTwice(keys: seq<Bytes>, a: set<Bytes>, b: set<Bytes>)
    ensures Without(Without(keys, a), b) == Without(keys, a + b)
  {
    if keys != [] {
      WithoutTwice(keys[1..], a, b);
      var rest := Without(keys[1..], a);
      if keys[0] in a {
        assert Without(keys, a) == [] + rest == rest;
      } else {
        assert Without(keys, a) == [keys[0]] + rest;
        assert ([keys[0]] + rest)[1..] == rest;
      }
    }
  }

  /** Deregistering one more key touches only the lease that key carries. */
  lemma DeregisterMore(leases: map<int, Lease>, kvs: map<Bytes, Kv>, gone: set<Bytes>, k: Bytes)
    requires k in kvs
    ensures Deregister(leases, kvs, gone + {k}) == Detach(Deregister(leases, kvs, gone), Some(kvs[k]), k)
  {
    var before, after := Deregister(leases, kvs, gone), Deregister(leases, kvs, gone + {k});
    forall id | id in leases
      ensures after[id] == Detach(before, Some(kvs[k]), k)[id]
    {
      if id != 0 {
        if kvs[k].lease == id {
          assert CarriedBy(kvs, gone + {k}, id) == CarriedBy(kvs, gone, id) + {k};
          WithoutTwice(leases[id].keys, CarriedBy(kvs, gone, id), {k});
        } else {
          assert CarriedBy(kvs, gone + {k}, id) == CarriedBy(kvs, gone, id);
        }
      }
    }
    assert after == Detach(before, Some(kvs[k]), k);
  }

  lemma DeregisterNone(leases: map<int, Lease>, kvs: map<Bytes, Kv>)
    ensures Deregister(leases, kvs, {}) == leases
  {
    forall id | id in leases
      ensures Deregister(leases, kvs, {})[id] == leases[id]
    {
      assert CarriedBy(kvs, {}, id) == {};
      Leases.WithoutNothing(leases[id].keys);
    }
  }

  lemma AscendingDistinct(keys: set<Bytes>)
    ensures Leases.Distinct(Ascending(keys))
  {
    AscendingSorted(keys);
    var s := Ascending(keys);
    forall i, j | 0 <= i < j < |s|
      ensures s[i] != s[j]
    {
      BelowAsymmetric(s[i], s[j]);
    }
  }

  lemma NothingCovered(s: State, d: DeleteRequest)
    requires !PanicsOn(d.key, d.rangeEnd) && Covered(s.kvs, d.key, d.rangeEnd) == {}
    ensures Perform(s, DeleteOp(d)) == Outcome(s, DeleteResponse(s.revision, 0, []))
  {
    assert Values(s.kvs, []) == [];
  }

  class Store {
    var kvs: map<Bytes, Kv>
    var revision: int
    var compactRevision: int
    var log: seq<Batch>
    var leases: map<int, Lease>
    var nextLeaseId: int
    ghost var history: seq<Batch>

    ghost function View(): State
      reads this
    {
      State(kvs, revision, compactRevision, log, leases, nextLeaseId, history)
    }

    constructor ()
      ensures View() == INITIAL && Valid()
    {
      kvs, revision, compactRevision, log := map[], 1, 0, [];
      leases, nextLeaseId, history := map[], 1, [];
    }

    method Emit(events: seq<Event>)
      modifies this`log, this`history
      ensures View() == StoreModel.Emit(old(View()), events)
    {
      log := log + [Batch(revision, events)];
      history := history + [Batch(revision, events)];
    }

    method Put(p: PutRequest) returns (r: Response)
      modifies this
      ensures Outcome(View(), r) == Perform(old(View()), PutOp(p))
    {
      revision := revision + 1;
      var rev := revision;
      var prev := Get(kvs, p.key);
      var useValue := PutValue(prev, p);
      var useLease := PutLease(prev, p);
      if prev.Some? && prev.value.lease != 0 && prev.value.lease in leases {
        var l := leases[prev.value.lease];
        leases := leases[prev.value.lease := l.(keys := Without(l.keys, {p.key}))];
      }
      if useLease != 0 && useLease in leases {
        var l := leases[useLease];
        if p.key !in l.keys {
          leases := leases[useLease := l.(keys := l.keys + [p.key])];
        }
      }
      var entry := Kv(
        p.key, useValue,
        if prev.Some? then prev.value.createRevision else rev, rev,
        if prev.Some? then prev.value.version + 1 else 1, useLease);
      kvs := kvs[p.key := entry];
      Emit([Event(PUT, entry, prev)]);
      r := PutResponse(revision, if p.wantPrevKv then prev else None);
    }

    method DeleteRange(d: DeleteRequest) returns (r: Response)
      modifies this
      ensures Outcome(View(), r) == Perform(old(View()), DeleteOp(d))
    {
      if PanicsOn(d.key, d.rangeEnd) {
        return Panicked;
      }
      ghost var gone := Covered(kvs, d.key, d.rangeEnd);
      var keys := Ascending(Covered(kvs, d.key, d.rangeEnd));
      assert gone == set k | k in keys;
      if keys == [] {
        NothingCovered(View(), d);
        return DeleteResponse(revision, 0, []);
      }
      assert gone != {} by {
        assert keys[0] in keys;
      }
      revision := revision + 1;
      AscendingDistinct(gone);
      var prevKvs, events := RemoveKeys(keys, revision);
      Emit(events);
      r := DeleteResponse(revision, |events|, if d.wantPrevKv then prevKvs else []);
    }

    /** The loop of `delete_range`: one event per key. */
    method RemoveKeys(keys: seq<Bytes>, rev: int) returns (prevKvs: seq<Kv>, events: seq<Event>)
      requires Leases.Distinct(keys) && forall k | k in keys :: k in kvs
      modifies this`kvs, this`leases
      ensures prevKvs == Values(old(kvs), keys)
      ensures events == DeleteEvents(old(kvs), keys, rev)
      ensures kvs == old(kvs) - set k | k in keys
      ensures leases == Deregister(old(leases), old(kvs), set k | k in keys)
    {
      prevKvs, events := [], [];
      ghost var done: set<Bytes> := {};
      DeregisterNone(leases, kvs);
      for i := 0 to |keys|
        invariant done == set k | k in keys[..i]
        invariant kvs == old(kvs) - done
        invariant leases == Deregister(old(leases), old(kvs), done)
        invariant events == DeleteEvents(old(kvs), keys, rev)[..i]
        invariant prevKvs == Values(old(kvs), keys)[..i]
      {
        var k := keys[i];
        assert k in keys && k !in keys[..i];
        assert keys[..i + 1] == keys[..i] + [k];
        DeregisterMore(old(leases), old(kvs), done, k);
        var last := RemoveKey(k);
        events := events + [Event(DELETE, Kv(k, [], last.createRevision, rev, 0, 0), Some(last))];
        prevKvs := prevKvs + [last];
        done := done + {k};
      }
      assert keys[..|keys|] == keys;
    }

    method RemoveKey(k: Bytes) returns (last: Kv)
      requires k in kvs
      modifies this`kvs, this`leases
      ensures last == old(kvs)[k] && kvs == old(kvs) - {k}
      ensures leases == Detach(old(leases), Some(last), k)
    {
      last := kvs[k];
      kvs := kvs - {k};
      if last.lease != 0 && last.lease in leases {
        var l := leases[last.lease];
        leases := leases[last.lease := l.(keys := Without(l.keys, {k}))];
      }
    }

    method Txn(t: TxnRequest) returns (r: Response)
      modifies this
      ensures Outcome(View(), r) == StoreModel.Txn(old(View()), t)
      decreases t
    {
      var ok := AllHold(kvs, t.compares);
      var responses;
      if ok {
        responses := ExecAll(t.success);
      } else {
        responses := ExecAll(t.failure);
      }
      r := if Unwound(responses) then Panicked else TxnResponse(revision, ok, responses);
    }

    method ExecAll(ops: seq<Op>) returns (rs: seq<Response>)
      modifies this
      ensures Outcomes(View(), rs) == StoreModel.ExecAll(old(View()), ops)
      decreases ops
    {
      rs := [];
      ghost var whole := StoreModel.ExecAll(View(), ops);
      assert ops[0..] == ops;
      for i := 0 to |ops|
        invariant var rest := StoreModel.ExecAll(View(), ops[i..]);
                  whole == Outcomes(rest.state, rs + rest.responses)
      {
        assert ops[i..][0] == ops[i] && ops[i..][1..] == ops[i + 1..];
        var r := ExecOp(ops[i]);
        rs := rs + [r];
        if r.Panicked? {
          return;
        }
      }
    }

    method ExecOp(op: Op) returns (r: Response)
      modifies this
      ensures Outcome(View(), r) == Exec(old(View()), op)
      decreases op
    {
      match op {
        case RangeOp(q) =>
          if PanicsOn(q.key, q.rangeEnd) {
            return Panicked;
          }
          var page := RangeKvs(kvs, revision, q);
          r := RangeResponse(
            revision,
            if q.countOnly then [] else if q.keysOnly then KeysOnly(page.kvs) else page.kvs,
            page.more, page.total);
        case PutOp(p) => r := Put(p);
        case DeleteOp(d) => r := DeleteRange(d);
        case TxnOp(t) => r := Txn(t);
        case EmptyOp => r := EmptyResponse;
      }
    }

    method Compact(rev: int)
      modifies this`compactRevision, this`log
      ensures View() == StoreModel.Compact(old(View()), rev)
    {
      if rev > compactRevision {
        compactRevision := rev;
        log := After(log, rev);
      }
    }

    method LeaseGrant(ttl: int, id: int) returns (actual: int, actualTtl: int)
      modifies this`leases, this`nextLeaseId
      ensures View() == Grant(old(View()), ttl, id)
      ensures actual == GrantedId(old(View()), id) && leases[actual] == Lease(actual, actualTtl, [])
    {
      if id == 0 {
        actual := nextLeaseId;
        nextLeaseId := nextLeaseId + 1;
      } else {
        actual := id;
      }
      actualTtl := if ttl < 1 then 1 else ttl;
      leases := leases[actual := Lease(actual, actualTtl, [])];
    }

    method LeaseRevoke(id: int)
      modifies this
      ensures View() == Revoke(old(View()), id)
    {
      if id in leases {
        var keys := leases[id].keys;
        leases := leases - {id};
        ghost var start := View();
        for i := 0 to |keys|
            invariant View() == DeleteEach(start, keys[..i])
        {
          assert keys[..i + 1][..i] == keys[..i];
          var _ := DeleteRange(DeleteRequest(keys[i], [], false));
        }
        assert keys[..|keys|] == keys;
      }
    }

    /** Second half of the expiry task: the ids were collected under an earlier lock. */
    method RevokeExpired(ids: seq<int>)
      modifies this
      ensures View() == Runs.RevokeAll(old(View()), ids)
    {
      assert ids[0..] == ids;
      for i := 0 to |ids|
        invariant Runs.RevokeAll(old(View()), ids) == Runs.RevokeAll(View(), ids[i..])
      {
        assert ids[i..][0] == ids[i] && ids[i..][1..] == ids[i + 1..];
        LeaseRevoke(ids[i]);
      }
    }

    /** The map is the replay of the history, the log its tail, the lease index agrees. */
    ghost predicate Valid()
      reads this
    {
      Runs.Consistent(View()) && Leases.Sound(View())
    }

    /** One request, or one half of an expiry round: a lock section of the service. */
    method Serve(step: Runs.Step)
      requires Valid()
      modifies this
      ensures Valid() && View() == Runs.Next(old(View()), step)
    {
      Runs.StepKeeps(View(), step);
      Leases.StepKeepsSound(View(), step);
      match step {
        case Call(op) => var _ := ExecOp(op);
        case CompactTo(rev) => Compact(rev);
        case GrantLease(ttl, id) => var _, _ := LeaseGrant(ttl, id);
        case RevokeLease(id) => LeaseRevoke(id);
        case Expire(ids) => RevokeExpired(ids);
      }
    }
  }
}
