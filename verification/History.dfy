/**
 What the event history says about the map: replaying it gives the map, rewinding the map
 through it gives every earlier snapshot, and the metadata of a key is a count of its events.
 */
module History {
  import opened ByteOrder
  import opened Options
  import opened StoreModel

  type Kvs = map<Bytes, Kv>

  // ---- replay ------------------------------------------------------------------

  /** A watch client's reading of one event. */
  function ApplyEvent(m: Kvs, e: Event): Kvs {
    if e.kind == PUT then m[e.kv.key := e.kv] else m - {e.kv.key}
  }

  function Apply(m: Kvs, es: seq<Event>): Kvs {
    if es == [] then m else ApplyEvent(Apply(m, es[..|es| - 1]), es[|es| - 1])
  }

  function Replay(h: seq<Batch>): Kvs {
    if h == [] then map[] else Apply(Replay(h[..|h| - 1]), h[|h| - 1].events)
  }

  function Clamp(i: int, n: nat): nat {
    if i < 0 then 0 else if i > n then n else i
  }

  /** The map as it was at revision `rev`. Revision r is the map after the first r - 1 batches. */
  function Snapshot(h: seq<Batch>, rev: int): Kvs {
    Replay(h[..Clamp(rev - 1, |h|)])
  }

  // ---- faithful histories --------------------------------------------------------

  predicate PutBatch(m: Kvs, b: Batch) {
    && |b.events| == 1
    && b.events[0].kind == PUT
    && var e := b.events[0];
       && e.prevKv == Get(m, e.kv.key)
       && e.kv.modRevision == b.revision
       && e.kv.createRevision == (if e.prevKv.Some? then e.prevKv.value.createRevision else b.revision)
       && e.kv.version == (if e.prevKv.Some? then e.prevKv.value.version + 1 else 1)
  }

  predicate DeleteEventsOk(m: Kvs, es: seq<Event>, rev: int) {
    && (forall i | 0 <= i < |es| ::
          && es[i].kv.key in m
          && es[i] == Tombstone(es[i].kv.key, m[es[i].kv.key], rev))
    && (forall i, j | 0 <= i < j < |es| :: es[i].kv.key != es[j].kv.key)
  }

  predicate DeleteBatch(m: Kvs, b: Batch) {
    b.events != [] && DeleteEventsOk(m, b.events, b.revision)
  }

  /** One batch for every revision from 2 on, each recording truthfully what it replaced. */
  ghost predicate Faithful(h: seq<Batch>) {
    h == [] ||
    var n := |h| - 1;
    && Faithful(h[..n])
    && h[n].revision == n + 2
    && (PutBatch(Replay(h[..n]), h[n]) || DeleteBatch(Replay(h[..n]), h[n]))
  }

  lemma {:induction false} FaithfulPrefix(h: seq<Batch>, i: nat)
    requires Faithful(h) && i <= |h|
    ensures Faithful(h[..i])
    ensures i < |h| ==> h[i].revision == i + 2 && (PutBatch(Replay(h[..i]), h[i]) || DeleteBatch(Replay(h[..i]), h[i]))
    decreases |h|
  {
    if i < |h| {
      var n := |h| - 1;
      if i < n {
        FaithfulPrefix(h[..n], i);
      }
      assert h[..n][..i] == h[..i];
    } else {
      assert h[..i] == h;
    }
  }

  lemma ReplaySnoc(h: seq<Batch>, b: Batch)
    ensures Replay(h + [b]) == Apply(Replay(h), b.events)
  {
    assert (h + [b])[..|h|] == h;
  }

  lemma FaithfulSnoc(h: seq<Batch>, b: Batch)
    requires Faithful(h) && b.revision == |h| + 2
    requires PutBatch(Replay(h), b) || DeleteBatch(Replay(h), b)
    ensures Faithful(h + [b])
  {
    assert (h + [b])[..|h|] == h;
  }

  function EventKeys(es: seq<Event>): set<Bytes> {
    if es == [] then {} else EventKeys(es[..|es| - 1]) + {es[|es| - 1].kv.key}
  }

  lemma {:induction false} EventKeysExact(es: seq<Event>, k: Bytes)
    ensures k in EventKeys(es) <==> exists i | 0 <= i < |es| :: es[i].kv.key == k
  {
    if es != [] {
      var n := |es| - 1;
      EventKeysExact(es[..n], k);
      if k in EventKeys(es[..n]) {
        var i :| 0 <= i < n && es[..n][i].kv.key == k;
        assert es[i].kv.key == k;
      }
      if i :| 0 <= i < |es| && es[i].kv.key == k {
        assert i == n || es[..n][i].kv.key == k;
      }
    }
  }

  lemma {:induction false} ApplyDeletes(m: Kvs, es: seq<Event>)
    requires forall i | 0 <= i < |es| :: es[i].kind == DELETE
    ensures Apply(m, es) == m - EventKeys(es)
  {
    if es != [] {
      var n := |es| - 1;
      ApplyDeletes(m, es[..n]);
    }
  }

  lemma {:induction false} EntriesNamed(h: seq<Batch>)
    ensures forall k | k in Replay(h) :: Replay(h)[k].key == k
  {
    if h != [] {
      EntriesNamed(h[..|h| - 1]);
      ApplyNamed(Replay(h[..|h| - 1]), h[|h| - 1].events);
    }
  }

  lemma {:induction false} ApplyNamed(m: Kvs, es: seq<Event>)
    requires forall k | k in m :: m[k].key == k
    ensures forall k | k in Apply(m, es) :: Apply(m, es)[k].key == k
  {
    if es != [] {
      ApplyNamed(m, es[..|es| - 1]);
    }
  }

  // ---- what an event says ------------------------------------------------------------

  /**
   An event of revision `rev` on a key with the entry `was`, if any. It is stamped with the
   revision and carries that entry. A DELETE is an empty value, version 0 and no lease under the
   old create revision; a PUT counts on from the old entry.
   */
  ghost predicate Says(e: Event, was: Option<Kv>, rev: int) {
    && e.kv.modRevision == rev && e.prevKv == was
    && (e.kind == DELETE ==>
          was.Some? && e.kv.value == [] && e.kv.version == 0 && e.kv.lease == 0
          && e.kv.createRevision == was.value.createRevision)
    && (e.kind == PUT ==>
          && e.kv.version == (if was.Some? then was.value.version + 1 else 1)
          && e.kv.createRevision == (if was.Some? then was.value.createRevision else rev))
  }

  lemma BatchTruth(m: Kvs, b: Batch, j: nat)
    requires (PutBatch(m, b) || DeleteBatch(m, b)) && j < |b.events|
    ensures Says(b.events[j], Get(m, b.events[j].kv.key), b.revision)
    ensures Get(Apply(m, b.events), b.events[j].kv.key)
         == if b.events[j].kind == PUT then Some(b.events[j].kv) else None
  {
    if PutBatch(m, b) {
      assert Apply(m, b.events) == ApplyEvent(m, b.events[0]);
    } else {
      ApplyDeletes(m, b.events);
      EventKeysExact(b.events, b.events[j].kv.key);
    }
  }

  lemma PrefixBatch(h: seq<Batch>, i: nat)
    requires Faithful(h) && i < |h|
    ensures h[i].revision == i + 2 && (PutBatch(Replay(h[..i]), h[i]) || DeleteBatch(Replay(h[..i]), h[i]))
    ensures Replay(h[..i + 1]) == Apply(Replay(h[..i]), h[i].events)
  {
    FaithfulPrefix(h, i);
    assert h[..i + 1] == h[..i] + [h[i]];
    ReplaySnoc(h[..i], h[i]);
  }

  /** Every event ever emitted is true of the map one revision earlier, and the map at its revision is as it says. */
  lemma EventTruth(h: seq<Batch>, i: nat, j: nat)
    requires Faithful(h) && i < |h| && j < |h[i].events|
    ensures var e := h[i].events[j];
            && h[i].revision == i + 2
            && Says(e, Get(Replay(h[..i]), e.kv.key), i + 2)
            && Get(Replay(h[..i + 1]), e.kv.key) == (if e.kind == PUT then Some(e.kv) else None)
  {
    PrefixBatch(h, i);
    BatchTruth(Replay(h[..i]), h[i], j);
  }

  // ---- rewinding -------------------------------------------------------------------

  function UndoEvent(m: Kvs, e: Event): Kvs {
    match e.prevKv
    case Some(prev) => m[e.kv.key := prev]
    case None => m - {e.kv.key}
  }

  function Undo(m: Kvs, es: seq<Event>): Kvs
    decreases |es|
  {
    if es == [] then m else Undo(UndoEvent(m, es[|es| - 1]), es[..|es| - 1])
  }

  function Rewind(m: Kvs, h: seq<Batch>): Kvs
    decreases |h|
  {
    if h == [] then m else Rewind(Undo(m, h[|h| - 1].events), h[..|h| - 1])
  }

  lemma {:induction false} UndoDeletes(m: Kvs, es: seq<Event>, rev: int)
    requires DeleteEventsOk(m, es, rev)
    ensures Undo(Apply(m, es), es) == m
  {
    if es != [] {
      var n := |es| - 1;
      var e := es[n];
      ApplyDeletes(m, es[..n]);
      EventKeysExact(es[..n], e.kv.key);
      assert UndoEvent(Apply(m, es), e) == Apply(m, es[..n]);
      UndoDeletes(m, es[..n], rev);
    }
  }

  lemma UndoBatch(m: Kvs, b: Batch)
    requires PutBatch(m, b) || DeleteBatch(m, b)
    ensures Undo(Apply(m, b.events), b.events) == m
  {
    if PutBatch(m, b) {
      var e := b.events[0];
      assert b.events == [e];
      assert Apply(m, b.events) == m[e.kv.key := e.kv];
      assert Undo(Apply(m, b.events), b.events) == UndoEvent(m[e.kv.key := e.kv], e);
    } else {
      UndoDeletes(m, b.events, b.revision);
    }
  }

  lemma SuffixParts<T>(h: seq<T>, i: nat)
    requires i < |h|
    ensures var n := |h| - 1; h[i..][..n - i] == h[..n][i..] && h[i..][n - i] == h[n] && h[..n][..i] == h[..i]
  {
  }

  /** `prev_kv` is the value one revision earlier, so the map can be wound back to any batch. */
  lemma {:induction false} RewindRecovers(h: seq<Batch>, i: nat)
    requires Faithful(h) && i <= |h|
    ensures Rewind(Replay(h), h[i..]) == Replay(h[..i])
    decreases |h|
  {
    if i == |h| {
      assert h[..i] == h;
    } else {
      var n := |h| - 1;
      UndoBatch(Replay(h[..n]), h[n]);
      RewindRecovers(h[..n], i);
      SuffixParts(h, i);
    }
  }

  // ---- metadata -----------------------------------------------------------------------

  function CountEvents(puts: seq<int>, es: seq<Event>, rev: int, k: Bytes): seq<int> {
    if es == [] then puts
    else
      var before := CountEvents(puts, es[..|es| - 1], rev, k);
      var e := es[|es| - 1];
      if e.kv.key != k then before else if e.kind == PUT then before + [rev] else []
  }

  /** Revisions of the PUT events on `k` since its last DELETE event. */
  function PutsSinceDelete(h: seq<Batch>, k: Bytes): seq<int> {
    if h == [] then []
    else
      var n := |h| - 1;
      CountEvents(PutsSinceDelete(h[..n], k), h[n].events, h[n].revision, k)
  }

  ghost predicate Increasing(s: seq<int>) {
    forall i, j | 0 <= i < j < |s| :: s[i] < s[j]
  }

  lemma {:induction false} CountDeletes(puts: seq<int>, es: seq<Event>, rev: int, k: Bytes)
    requires forall i | 0 <= i < |es| :: es[i].kind == DELETE
    ensures CountEvents(puts, es, rev, k) == if k in EventKeys(es) then [] else puts
  {
    if es != [] {
      var n := |es| - 1;
      CountDeletes(puts, es[..n], rev, k);
    }
  }

  /** What the PUT revisions `ps` of a key, the latest at most `rev`, say about its entry. */
  ghost predicate Describes(ps: seq<int>, rev: int, m: Kvs, k: Bytes) {
    && (k in m <==> ps != [])
    && Increasing(ps)
    && (forall i | 0 <= i < |ps| :: 2 <= ps[i] <= rev)
    && (k in m ==>
          && m[k].version == |ps|
          && m[k].createRevision == ps[0]
          && m[k].modRevision == ps[|ps| - 1])
  }

  lemma BatchDescribes(ps: seq<int>, m: Kvs, b: Batch, k: Bytes)
    requires b.revision >= 2 && Describes(ps, b.revision - 1, m, k)
    requires PutBatch(m, b) || DeleteBatch(m, b)
    ensures Describes(CountEvents(ps, b.events, b.revision, k), b.revision, Apply(m, b.events), k)
  {
    if PutBatch(m, b) {
      assert b.events[..0] == [];
      assert CountEvents(ps, b.events[..0], b.revision, k) == ps;
      assert Apply(m, b.events) == ApplyEvent(m, b.events[0]);
    } else {
      ApplyDeletes(m, b.events);
      CountDeletes(ps, b.events, b.revision, k);
    }
  }

  /**
   `version` counts the PUTs since the last DELETE, `create_revision` and `mod_revision` are the
   first and the last of their revisions, and exactly the keys with such a PUT are live.
   */
  lemma {:induction false} Metadata(h: seq<Batch>, k: Bytes)
    requires Faithful(h)
    ensures Describes(PutsSinceDelete(h, k), |h| + 1, Replay(h), k)
  {
    if h != [] {
      var n := |h| - 1;
      Metadata(h[..n], k);
      BatchDescribes(PutsSinceDelete(h[..n], k), Replay(h[..n]), h[n], k);
    }
  }

  lemma {:induction false} IncreasingSpread(s: seq<int>)
    requires Increasing(s) && s != []
    ensures |s| <= s[|s| - 1] - s[0] + 1
  {
    if |s| > 1 {
      IncreasingSpread(s[..|s| - 1]);
    }
  }

  lemma VersionBound(h: seq<Batch>, k: Bytes)
    requires Faithful(h) && k in Replay(h)
    ensures 1 <= Replay(h)[k].version <= Replay(h)[k].modRevision - Replay(h)[k].createRevision + 1
    ensures 2 <= Replay(h)[k].createRevision <= Replay(h)[k].modRevision <= |h| + 1
  {
    Metadata(h, k);
    IncreasingSpread(PutsSinceDelete(h, k));
  }

  /** No two live keys were last written at the same revision. */
  lemma {:induction false} ModRevisionsDistinct(h: seq<Batch>, a: Bytes, b: Bytes)
    requires Faithful(h) && a in Replay(h) && b in Replay(h) && a != b
    ensures Replay(h)[a].modRevision != Replay(h)[b].modRevision
  {
    var n := |h| - 1;
    var m := Replay(h[..n]);
    var last := h[n];
    if PutBatch(m, last) {
      assert Apply(m, last.events) == ApplyEvent(m, last.events[0]);
    } else {
      ApplyDeletes(m, last.events);
    }
    if a in m {
      VersionBound(h[..n], a);
    }
    if b in m {
      VersionBound(h[..n], b);
    }
    if a in m && b in m {
      ModRevisionsDistinct(h[..n], a, b);
    }
  }

  // ---- keys left alone ---------------------------------------------------------------

  predicate Writes(b: Batch, k: Bytes) {
    exists i | 0 <= i < |b.events| :: b.events[i].kv.key == k
  }

  /** No batch from index `i` on has an event on `k`. */
  predicate Untouched(h: seq<Batch>, k: Bytes, i: nat) {
    forall j | i <= j < |h| :: !Writes(h[j], k)
  }

  lemma BatchEffect(m: Kvs, b: Batch, k: Bytes)
    requires PutBatch(m, b) || DeleteBatch(m, b)
    ensures !Writes(b, k) ==> Get(Apply(m, b.events), k) == Get(m, k)
    ensures Writes(b, k) && k in Apply(m, b.events) ==> Apply(m, b.events)[k].modRevision == b.revision
  {
    if PutBatch(m, b) {
      assert Apply(m, b.events) == ApplyEvent(m, b.events[0]);
      if b.events[0].kv.key == k {
        assert Writes(b, k);
      }
    } else {
      ApplyDeletes(m, b.events);
      EventKeysExact(b.events, k);
    }
  }

  lemma {:induction false} UntouchedSame(h: seq<Batch>, k: Bytes, i: nat)
    requires Faithful(h) && i <= |h| && Untouched(h, k, i)
    ensures Get(Replay(h), k) == Get(Replay(h[..i]), k)
    decreases |h|
  {
    if i == |h| {
      assert h[..i] == h;
    } else {
      var n := |h| - 1;
      BatchEffect(Replay(h[..n]), h[n], k);
      UntouchedSame(h[..n], k, i);
      assert h[..n][..i] == h[..i];
    }
  }

  lemma {:induction false} TouchedNewer(h: seq<Batch>, k: Bytes, i: nat)
    requires Faithful(h) && i <= |h| && !Untouched(h, k, i) && k in Replay(h)
    ensures Replay(h)[k].modRevision >= i + 2
    decreases |h|
  {
    var n := |h| - 1;
    BatchEffect(Replay(h[..n]), h[n], k);
    if !Writes(h[n], k) {
      var j :| i <= j < |h| && Writes(h[j], k);
      assert h[..n][j] == h[j];
      TouchedNewer(h[..n], k, i);
    }
  }

  // ---- dense logs ------------------------------------------------------------------------

  lemma {:induction false} Dense(h: seq<Batch>, i: nat)
    requires Faithful(h) && i < |h|
    ensures h[i].revision == i + 2
  {
    FaithfulPrefix(h, i);
  }

  /** Filtering a suffix of the history by revision is cutting it at an index. */
  lemma {:induction false} AfterDense(h: seq<Batch>, d: nat, rev: int)
    requires Faithful(h) && d <= |h|
    ensures After(h[d..], rev) == h[Clamp(if rev - 1 > d then rev - 1 else d, |h|)..]
    decreases |h| - d
  {
    if d < |h| {
      Dense(h, d);
      AfterDense(h, d + 1, rev);
      assert h[d..][1..] == h[d + 1..];
      assert h[d..] == [h[d]] + h[d + 1..];
    }
  }
}
