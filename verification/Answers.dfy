/** What the answers of the store say, in the protocol's own words. */
module Answers {
  import opened ByteOrder
  import opened Options
  import opened StoreModel
  import opened Transactions
  import opened History
  import opened Runs

  // ---- bounds and filters ------------------------------------------------------------

  /** No end: the key alone. End 0x00: nothing sorts before the key. Otherwise half open. */
  predicate InBounds(k: Bytes, key: Bytes, rangeEnd: Bytes) {
    && (rangeEnd == [] ==> k == key)
    && (rangeEnd != [] ==> !Below(k, key))
    && (rangeEnd != [] && rangeEnd != [0] ==> Below(k, rangeEnd))
  }

  lemma InRangeIsInBounds(k: Bytes, key: Bytes, rangeEnd: Bytes)
    ensures InRange(k, key, rangeEnd) <==> InBounds(k, key, rangeEnd)
  {
    BelowTotal(key, k);
    BelowIrreflexive(k);
    if Below(key, k) {
      BelowAsymmetric(key, k);
    }
  }

  /** Zero switches a bound off; a requested revision bounds the mod revision like a maximum. */
  predicate Admits(r: RangeRequest, revision: int, kv: Kv) {
    && kv.modRevision <= revision
    && (r.revision != 0 ==> kv.modRevision <= r.revision)
    && (r.minMod != 0 ==> r.minMod <= kv.modRevision)
    && (r.maxMod != 0 ==> kv.modRevision <= r.maxMod)
    && (r.minCreate != 0 ==> r.minCreate <= kv.createRevision)
    && (r.maxCreate != 0 ==> kv.createRevision <= r.maxCreate)
  }

  // ---- Range ----------------------------------------------------------------------------

  /** The keys a Range is about, in order. */
  ghost predicate ListsRange(keys: seq<Bytes>, s: State, r: RangeRequest) {
    Sorted(keys) && forall k :: k in keys <==> k in s.kvs && InBounds(k, r.key, r.rangeEnd) && Admits(r, s.revision, s.kvs[k])
  }

  function Shown(kv: Kv, keysOnly: bool): Kv {
    Kv(kv.key, if keysOnly then [] else kv.value, kv.createRevision, kv.modRevision, kv.version, kv.lease)
  }

  /** A Range counts all its keys, returns as many of them from the front as the limit allows, and says if it cut. */
  lemma RangeAnswers(s: State, r: RangeRequest) returns (keys: seq<Bytes>)
    requires !PanicsOn(r.key, r.rangeEnd)
    ensures ListsRange(keys, s, r)
    ensures var cut := 0 < r.limit < |keys|;
            var a := Perform(s, RangeOp(r)).response;
            && a.RangeResponse? && a.revision == s.revision
            && a.count == |keys| && (a.more <==> cut)
            && |a.kvs| == (if r.countOnly then 0 else if cut then r.limit else |keys|)
            && forall i | 0 <= i < |a.kvs| :: keys[i] in s.kvs && a.kvs[i] == Shown(s.kvs[keys[i]], r.keysOnly)
    ensures Perform(s, RangeOp(r)).state == s
  {
    var selected := Selected(s.kvs, s.revision, r);
    keys := Ascending(selected);
    AscendingSorted(selected);
    forall k
      ensures k in keys <==> k in s.kvs && InBounds(k, r.key, r.rangeEnd) && Admits(r, s.revision, s.kvs[k])
    {
      InRangeIsInBounds(k, r.key, r.rangeEnd);
    }
    assert forall i | 0 <= i < |keys| :: keys[i] in keys;
  }

  function OneKey(k: Bytes): RangeRequest {
    RangeRequest(k, [], 0, 0, 0, 0, 0, 0, false, false)
  }

  /** What a client reads of one key now: nothing, or its entry. */
  function ReadKey(s: State, k: Bytes): seq<Kv> {
    RangeKvs(s.kvs, s.revision, OneKey(k)).kvs
  }

  lemma ReadKeyIs(s: State, k: Bytes)
    requires Consistent(s)
    ensures ReadKey(s, k) == if k in s.kvs then [s.kvs[k]] else []
  {
    if k in s.kvs {
      VersionBound(s.history, k);
      assert Selected(s.kvs, s.revision, OneKey(k)) == {k};
      AscendingOne(k);
    } else {
      assert Selected(s.kvs, s.revision, OneKey(k)) == {};
    }
  }

  // ---- Put and DeleteRange -----------------------------------------------------------------

  lemma PutAnswers(s: State, p: PutRequest)
    ensures Perform(s, PutOp(p)).response
         == PutResponse(s.revision + 1, if p.wantPrevKv && p.key in s.kvs then Some(s.kvs[p.key]) else None)
    ensures var t := Perform(s, PutOp(p)).state;
            && t.revision == s.revision + 1 && p.key in t.kvs
            && t.history == s.history + [Batch(s.revision + 1, [Event(PUT, t.kvs[p.key], Get(s.kvs, p.key))])]
  {
  }

  /**
   A delete reports how many keys were in its bounds and their entries in order if asked, removes
   just these, and emits one batch with a DELETE for each, in key order.
   */
  lemma DeleteAnswers(s: State, d: DeleteRequest) returns (keys: seq<Bytes>)
    requires !PanicsOn(d.key, d.rangeEnd)
    ensures Sorted(keys) && forall k :: k in keys <==> k in s.kvs && InBounds(k, d.key, d.rangeEnd)
    ensures var o := Perform(s, DeleteOp(d));
            && o.state.revision == s.revision + (if keys == [] then 0 else 1)
            && (forall k :: Get(o.state.kvs, k) == if k in keys then None else Get(s.kvs, k))
            && (keys == [] ==> o.state == s)
            && (keys != [] ==>
                  && |o.state.history| == |s.history| + 1 && s.history <= o.state.history
                  && var b := o.state.history[|s.history|];
                     && b.revision == s.revision + 1 && |b.events| == |keys|
                     && forall i | 0 <= i < |keys| :: b.events[i].kind == DELETE && b.events[i].kv.key == keys[i])
            && o.response.DeleteResponse? && o.response.revision == o.state.revision && o.response.deleted == |keys|
            && |o.response.prevKvs| == (if d.wantPrevKv then |keys| else 0)
            && forall i | 0 <= i < |o.response.prevKvs| :: keys[i] in s.kvs && o.response.prevKvs[i] == s.kvs[keys[i]]
  {
    var gone := Covered(s.kvs, d.key, d.rangeEnd);
    keys := Ascending(gone);
    AscendingSorted(gone);
    forall k
      ensures k in keys <==> k in s.kvs && InBounds(k, d.key, d.rangeEnd)
    {
      InRangeIsInBounds(k, d.key, d.rangeEnd);
    }
    assert forall i | 0 <= i < |keys| :: keys[i] in keys;
    assert keys == [] <==> gone == {};
  }

  // ---- compares -------------------------------------------------------------------------------

  /** EQUAL, GREATER, LESS, NOT_EQUAL are 0 to 3; any other code means EQUAL. */
  predicate Relates(result: int, a: int, b: int) {
    && (result == 1 ==> a > b)
    && (result == 2 ==> a < b)
    && (result == 3 ==> a != b)
    && (result < 1 || result > 3 ==> a == b)
  }

  predicate RelatesBytes(result: int, a: Bytes, b: Bytes) {
    && (result == 1 ==> Below(b, a))
    && (result == 2 ==> Below(a, b))
    && (result == 3 ==> a != b)
    && (result < 1 || result > 3 ==> a == b)
  }

  /** A guard against an entry, if there is one; a missing key counts as zero, or as no bytes. */
  predicate GuardsEntry(got: seq<Kv>, c: Compare) {
    var u := c.union;
    && (c.target == 0 ==> Relates(c.result, if got == [] then 0 else got[0].version, if u.Version? then u.n else 0))
    && (c.target == 1 ==> Relates(c.result, if got == [] then 0 else got[0].createRevision, if u.CreateRevision? then u.n else 0))
    && (c.target == 2 ==> Relates(c.result, if got == [] then 0 else got[0].modRevision, if u.ModRevision? then u.n else 0))
    && (c.target == 3 ==> RelatesBytes(c.result, if got == [] then [] else got[0].value, if u.Value? then u.bytes else []))
    && (c.target == 4 ==> Relates(c.result, if got == [] then 0 else got[0].lease, if u.LeaseId? then u.n else 0))
  }

  /** The guard, read off what a Range of the key returns. */
  predicate Guards(s: State, c: Compare) {
    GuardsEntry(ReadKey(s, c.key), c)
  }

  lemma CompareBytesMeans(a: Bytes, b: Bytes, result: int)
    ensures Meets(CompareBytes(a, b), result) <==> RelatesBytes(result, a, b)
  {
    BelowTotal(a, b);
    BelowIrreflexive(a);
    if Below(a, b) {
      BelowAsymmetric(a, b);
    }
  }

  /** Every compare, of any target and result, is about what a Range of its key would return. */
  lemma CompareIsGuard(s: State, c: Compare)
    requires Consistent(s)
    ensures Holds(s.kvs, c) <==> Guards(s, c)
  {
    ReadKeyIs(s, c.key);
    HoldsOfEntry(s.kvs, c);
  }

  lemma HoldsOfEntry(kvs: map<Bytes, Kv>, c: Compare)
    ensures Holds(kvs, c) <==> GuardsEntry(if c.key in kvs then [kvs[c.key]] else [], c)
  {
    CompareBytesMeans(
      if c.key in kvs then kvs[c.key].value else [], if c.union.Value? then c.union.bytes else [], c.result);
  }

  /** A transaction without inverted ranges succeeds exactly when every guard is met. */
  lemma TxnSucceedsIff(s: State, t: TxnRequest)
    requires Consistent(s) && UprightTxn(t)
    ensures Succeeds(s, t) <==> forall i | 0 <= i < |t.compares| :: Guards(s, t.compares[i])
    ensures Txn(s, t).response.TxnResponse?
  {
    UprightNeverPanics(s, t);
    TxnIsSequential(s, t);
    forall i | 0 <= i < |t.compares|
      ensures Holds(s.kvs, t.compares[i]) <==> Guards(s, t.compares[i])
    {
      CompareIsGuard(s, t.compares[i]);
    }
  }

  /** `mod_revision(k) == m` as the only guard: met by a key that is live at m, or missing if m is 0. */
  lemma ModGuardSucceedsIff(s: State, t: TxnRequest, k: Bytes, m: int)
    requires Consistent(s) && UprightTxn(t) && t.compares == [Compare(k, EQUAL, MOD, ModRevision(m))]
    ensures m != 0 ==> (Succeeds(s, t) <==> k in s.kvs && s.kvs[k].modRevision == m)
    ensures m == 0 ==> (Succeeds(s, t) <==> k !in s.kvs)
  {
    TxnSucceedsIff(s, t);
    assert Succeeds(s, t) <==> Guards(s, t.compares[0]);
    ReadKeyIs(s, k);
    if k in s.kvs {
      VersionBound(s.history, k);
    }
  }

  /** Create if absent, as the API server does it: succeeds exactly on a missing key, and else changes nothing. */
  lemma CreateIfAbsent(s: State, k: Bytes, p: PutRequest)
    requires Consistent(s) && p.key == k
    ensures var t := TxnRequest([Compare(k, EQUAL, MOD, ModRevision(0))], [PutOp(p)], []);
            && (Succeeds(s, t) <==> k !in s.kvs)
            && (k in s.kvs ==> Txn(s, t).state == s)
            && (k !in s.kvs ==>
                  && Txn(s, t).state == Put(s, p)
                  && k in Txn(s, t).state.kvs
                  && (!p.ignoreValue ==> Txn(s, t).state.kvs[k].value == p.value)
                  && Txn(s, t).state.kvs[k].createRevision == Txn(s, t).state.kvs[k].modRevision == s.revision + 1
                  && Txn(s, t).state.kvs[k].version == 1)
  {
    var t := TxnRequest([Compare(k, EQUAL, MOD, ModRevision(0))], [PutOp(p)], []);
    assert Upright(PutOp(p));
    ModGuardSucceedsIff(s, t, k, 0);
    OnePut(s, t, p);
  }

  lemma OnePut(s: State, t: TxnRequest, p: PutRequest)
    requires t.success == [PutOp(p)] && t.failure == []
    ensures Txn(s, t).response.TxnResponse?
    ensures Txn(s, t).state == if Succeeds(s, t) then Put(s, p) else s
  {
    assert t.success[1..] == [];
    assert ExecAll(Put(s, p), []) == Outcomes(Put(s, p), []);
    assert ExecAll(s, t.success) == Outcomes(Put(s, p), [Perform(s, PutOp(p)).response] + []);
    assert ExecAll(s, t.failure) == Outcomes(s, []);
  }
}
