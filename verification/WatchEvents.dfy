/** What the events sent to a watch say, which they are, and when they have all been sent. */
module WatchEvents {
  import opened ByteOrder
  import opened Options
  import opened StoreModel
  import opened History
  import opened Runs
  import opened WatchModel
  import Answers

  // ---- one batch -----------------------------------------------------------------------

  /** In the watch's bounds, and not of a kind it filters out. */
  predicate Wants(sel: Selector, e: Event) {
    && Answers.InBounds(e.kv.key, sel.key, sel.rangeEnd)
    && (e.kind == PUT ==> !sel.noPut)
    && (e.kind == DELETE ==> !sel.noDelete)
  }

  lemma MatchesIsWants(sel: Selector, e: Event)
    ensures Matches(sel, e) <==> Wants(sel, e)
  {
    Answers.InRangeIsInBounds(e.kv.key, sel.key, sel.rangeEnd);
  }

  ghost predicate Ascends(idx: seq<nat>) {
    forall a, b | 0 <= a < b < |idx| :: idx[a] < idx[b]
  }

  /** The sent event tells what happened; the previous entry only to a watch that asked for it. */
  predicate Tells(sel: Selector, sent: Event, e: Event) {
    && sent.kind == e.kind && sent.kv == e.kv
    && (sel.prevKv ==> sent.prevKv == e.prevKv)
    && (!sel.prevKv ==> sent.prevKv == None)
  }

  /** The events of a batch a watch is sent are those it wants, each once and in order. */
  ghost predicate Picks(sel: Selector, es: seq<Event>, sent: seq<Event>, idx: seq<nat>) {
    && Ascends(idx) && |idx| == |sent|
    && (forall l | 0 <= l < |idx| :: idx[l] < |es| && Wants(sel, es[idx[l]]) && Tells(sel, sent[l], es[idx[l]]))
    && (forall j | 0 <= j < |es| && Wants(sel, es[j]) :: j in idx)
  }

  lemma PicksSkip(sel: Selector, es: seq<Event>, e: Event, sent: seq<Event>, idx: seq<nat>)
    requires Picks(sel, es, sent, idx) && !Wants(sel, e)
    ensures Picks(sel, es + [e], sent, idx)
  {
    assert forall l | 0 <= l < |idx| :: (es + [e])[idx[l]] == es[idx[l]];
  }

  lemma PicksTake(sel: Selector, es: seq<Event>, e: Event, sent: seq<Event>, idx: seq<nat>, told: Event)
    requires Picks(sel, es, sent, idx) && Wants(sel, e) && Tells(sel, told, e)
    ensures Picks(sel, es + [e], sent + [told], idx + [|es|])
  {
    var more, longer := es + [e], idx + [|es|];
    assert forall l | 0 <= l < |idx| :: more[idx[l]] == es[idx[l]] && longer[l] == idx[l];
    assert more[|es|] == e && longer[|idx|] == |es|;
    forall j | 0 <= j < |more| && Wants(sel, more[j])
      ensures j in longer
    {
      if j < |es| {
        assert j in idx;
      }
    }
  }

  lemma {:induction false} MatchedPicks(sel: Selector, es: seq<Event>) returns (idx: seq<nat>)
    ensures Picks(sel, es, Matched(sel, es), idx)
  {
    idx := [];
    if es != [] {
      var n := |es| - 1;
      idx := MatchedPicks(sel, es[..n]);
      assert es == es[..n] + [es[n]];
      MatchesIsWants(sel, es[n]);
      if Wants(sel, es[n]) {
        PicksTake(sel, es[..n], es[n], Matched(sel, es[..n]), idx, OnWire(sel, es[n]));
        idx := idx + [n];
      } else {
        PicksSkip(sel, es[..n], es[n], Matched(sel, es[..n]), idx);
        assert Matched(sel, es) == Matched(sel, es[..n]);
      }
    }
  }

  ghost predicate AnyWanted(sel: Selector, es: seq<Event>) {
    exists j | 0 <= j < |es| :: Wants(sel, es[j])
  }

  lemma MatchedNone(sel: Selector, es: seq<Event>)
    ensures Matched(sel, es) == [] <==> !AnyWanted(sel, es)
  {
    var idx := MatchedPicks(sel, es);
    if Matched(sel, es) != [] {
      assert Wants(sel, es[idx[0]]);
    }
  }

  // ---- many batches ------------------------------------------------------------------------

  /** The batches a watch is sent something of are those with an event it wants, each once and in order. */
  ghost predicate Carries(sel: Selector, bs: seq<Batch>, sent: seq<WatchResponse>, idx: seq<nat>) {
    && Ascends(idx) && |idx| == |sent|
    && (forall l | 0 <= l < |idx| ::
          && idx[l] < |bs| && AnyWanted(sel, bs[idx[l]].events)
          && sent[l] == ResponseTo(sel, bs[idx[l]]))
    && (forall n | 0 <= n < |bs| && AnyWanted(sel, bs[n].events) :: n in idx)
  }

  function ResponseTo(sel: Selector, b: Batch): WatchResponse {
    Events(sel.id, b.revision, Matched(sel, b.events))
  }

  lemma CarriesSkip(sel: Selector, bs: seq<Batch>, b: Batch, sent: seq<WatchResponse>, idx: seq<nat>)
    requires Carries(sel, bs, sent, idx) && !AnyWanted(sel, b.events)
    ensures Carries(sel, bs + [b], sent, idx)
  {
    assert forall l | 0 <= l < |idx| :: (bs + [b])[idx[l]] == bs[idx[l]];
  }

  lemma CarriesTake(sel: Selector, bs: seq<Batch>, b: Batch, sent: seq<WatchResponse>, idx: seq<nat>)
    requires Carries(sel, bs, sent, idx) && AnyWanted(sel, b.events)
    ensures Carries(sel, bs + [b], sent + [ResponseTo(sel, b)], idx + [|bs|])
  {
    var more, longer := bs + [b], idx + [|bs|];
    assert forall l | 0 <= l < |idx| :: more[idx[l]] == bs[idx[l]] && longer[l] == idx[l];
    assert more[|bs|] == b && longer[|idx|] == |bs|;
    forall n | 0 <= n < |more| && AnyWanted(sel, more[n].events)
      ensures n in longer
    {
      if n < |bs| {
        assert n in idx;
      }
    }
  }

  lemma {:induction false} DeliverAllCarries(sel: Selector, bs: seq<Batch>) returns (idx: seq<nat>)
    ensures Carries(sel, bs, DeliverAll(sel, bs), idx)
  {
    idx := [];
    if bs != [] {
      var n := |bs| - 1;
      idx := DeliverAllCarries(sel, bs[..n]);
      assert bs == bs[..n] + [bs[n]];
      MatchedNone(sel, bs[n].events);
      if AnyWanted(sel, bs[n].events) {
        CarriesTake(sel, bs[..n], bs[n], DeliverAll(sel, bs[..n]), idx);
        idx := idx + [n];
      } else {
        CarriesSkip(sel, bs[..n], bs[n], DeliverAll(sel, bs[..n]), idx);
        assert DeliverAll(sel, bs) == DeliverAll(sel, bs[..n]);
      }
    }
  }

  lemma NothingDelivered(sel: Selector, bs: seq<Batch>)
    ensures DeliverAll(sel, bs) == [] <==> forall n | 0 <= n < |bs| :: !AnyWanted(sel, bs[n].events)
  {
    var idx := DeliverAllCarries(sel, bs);
    if DeliverAll(sel, bs) != [] {
      assert AnyWanted(sel, bs[idx[0]].events);
    }
  }

  // ---- a watch in a run -------------------------------------------------------------------

  /**
   A response for the batch of revision n + 2: its wanted events, once and in order, each with the
   entry its key had one revision earlier if the watch asked for that, and with nothing if not.
   */
  ghost predicate Reports(sel: Selector, h: seq<Batch>, n: nat, r: WatchResponse) {
    && n < |h| && r.Events? && r.id == sel.id && r.revision == n + 2 && r.events != []
    && (exists idx :: Picks(sel, h[n].events, r.events, idx))
    && forall l | 0 <= l < |r.events| ::
         && Wants(sel, r.events[l]) && r.events[l].kv.modRevision == n + 2
         && r.events[l].prevKv == if sel.prevKv then Get(Snapshot(h, n + 1), r.events[l].kv.key) else None
  }

  lemma ReportsBatch(sel: Selector, h: seq<Batch>, n: nat)
    requires Faithful(h) && n < |h| && AnyWanted(sel, h[n].events)
    ensures Reports(sel, h, n, ResponseTo(sel, h[n]))
  {
    Dense(h, n);
    MatchedNone(sel, h[n].events);
    var sent := Matched(sel, h[n].events);
    var idx := MatchedPicks(sel, h[n].events);
    forall l | 0 <= l < |sent|
      ensures Wants(sel, sent[l]) && sent[l].kv.modRevision == n + 2
      ensures sent[l].prevKv == if sel.prevKv then Get(Snapshot(h, n + 1), sent[l].kv.key) else None
    {
      EventTruth(h, n, idx[l]);
    }
  }

  /** The revisions a watch has been sent something of, as indices into the history. */
  ghost predicate Accounts(h: seq<Batch>, w: Watch, idx: seq<nat>) {
    && Ascends(idx) && |idx| == |w.track.sent|
    && (forall l | 0 <= l < |idx| ::
          w.track.from <= idx[l] + 2 <= w.deliveredThrough && Reports(w.sel, h, idx[l], w.track.sent[l]))
    && (forall n | 0 <= n < |h| && w.track.from <= n + 2 <= w.deliveredThrough && AnyWanted(w.sel, h[n].events) :: n in idx)
  }

  lemma CoveredAccounts(h: seq<Batch>, cursor: nat, w: Watch) returns (idx: seq<nat>)
    requires Faithful(h) && Covers(h, cursor, w)
    ensures Accounts(h, w, idx)
  {
    idx := SliceAccounts(h, Clamp(w.track.from - 2, |h|), Clamp(w.deliveredThrough - 1, |h|), w.sel, w.track.sent);
  }

  lemma SliceAccounts(h: seq<Batch>, lo: nat, hi: nat, sel: Selector, sent: seq<WatchResponse>) returns (idx: seq<nat>)
    requires Faithful(h) && lo <= hi <= |h| && sent == DeliverAll(sel, h[lo..hi])
    ensures Ascends(idx) && |idx| == |sent|
    ensures forall l | 0 <= l < |idx| :: lo <= idx[l] < hi && Reports(sel, h, idx[l], sent[l])
    ensures forall n | lo <= n < hi && AnyWanted(sel, h[n].events) :: n in idx
  {
    var at := DeliverAllCarries(sel, h[lo..hi]);
    idx := CarriesShift(sel, h, lo, hi, sent, at);
    forall l | 0 <= l < |idx|
      ensures Reports(sel, h, idx[l], sent[l])
    {
      ReportsBatch(sel, h, idx[l]);
    }
  }

  function Shifted(at: seq<nat>, lo: nat): seq<nat> {
    seq(|at|, l requires 0 <= l < |at| => lo + at[l])
  }

  lemma ShiftedMember(at: seq<nat>, lo: nat, n: nat)
    requires n in at
    ensures lo + n in Shifted(at, lo)
  {
    var l :| 0 <= l < |at| && at[l] == n;
    assert Shifted(at, lo)[l] == lo + n;
  }

  lemma SliceAt(h: seq<Batch>, lo: nat, hi: nat, n: nat)
    requires lo <= hi <= |h| && n < hi - lo
    ensures h[lo..hi][n] == h[lo + n]
  {
  }

  lemma CarriesShift(sel: Selector, h: seq<Batch>, lo: nat, hi: nat, sent: seq<WatchResponse>, at: seq<nat>)
    returns (idx: seq<nat>)
    requires lo <= hi <= |h| && Carries(sel, h[lo..hi], sent, at)
    ensures Ascends(idx) && |idx| == |sent|
    ensures forall l | 0 <= l < |idx| ::
              lo <= idx[l] < hi && AnyWanted(sel, h[idx[l]].events) && sent[l] == ResponseTo(sel, h[idx[l]])
    ensures forall n | lo <= n < hi && AnyWanted(sel, h[n].events) :: n in idx
  {
    idx := Shifted(at, lo);
    forall l | 0 <= l < |idx|
      ensures lo <= idx[l] < hi && AnyWanted(sel, h[idx[l]].events) && sent[l] == ResponseTo(sel, h[idx[l]])
    {
      SliceAt(h, lo, hi, at[l]);
    }
    forall n | lo <= n < hi && AnyWanted(sel, h[n].events)
      ensures n in idx
    {
      SliceAt(h, lo, hi, n - lo);
      ShiftedMember(at, lo, n - lo);
    }
  }

  /**
   Over any run: a watch has been sent one response for every revision from its start through
   `delivered_through` that has an event it wants, in order and with that revision, and each
   response holds those events and no others.
   */
  lemma SentIsTrue(sys: System, capacity: nat, moves: seq<Move>, i: nat) returns (idx: seq<nat>)
    requires Tracking(sys) && i < |Play(sys, capacity, moves).stream.watches|
    ensures var end := Play(sys, capacity, moves); Accounts(end.store.history, end.stream.watches[i], idx)
  {
    PlayTracks(sys, capacity, moves);
    var end := Play(sys, capacity, moves);
    assert Covers(end.store.history, end.stream.cursor, end.stream.watches[i]);
    idx := CoveredAccounts(end.store.history, end.stream.cursor, end.stream.watches[i]);
  }

  // ---- catching up ----------------------------------------------------------------------------

  function Receives(n: nat): seq<Move> {
    seq(n, _ => ReceiveMove)
  }

  ghost predicate SameSelectors(a: seq<Watch>, b: seq<Watch>) {
    |a| == |b| && forall i | 0 <= i < |a| :: a[i].sel == b[i].sel
  }

  ghost predicate AllThrough(ws: seq<Watch>, revision: int) {
    forall i | 0 <= i < |ws| :: ws[i].deliveredThrough == revision
  }

  /** A stream no further behind than the channel holds catches up, and loses no watch on the way. */
  lemma {:induction false} CatchesUp(sys: System, capacity: nat, n: nat)
    requires Tracking(sys) && n == |sys.store.history| - sys.stream.cursor <= capacity
    ensures var end := Play(sys, capacity, Receives(n));
            && end.store == sys.store && SameSelectors(sys.stream.watches, end.stream.watches)
            && AllThrough(end.stream.watches, sys.store.revision)
    decreases n
  {
    if n == 0 {
      assert Receives(0) == [];
      NothingPending(sys);
    } else {
      ReceiveOne(sys, capacity);
      PlayReceives(sys, capacity, n);
      CatchesUp(Advance(sys, capacity, ReceiveMove), capacity, n - 1);
    }
  }

  lemma NothingPending(sys: System)
    requires Tracking(sys) && |sys.store.history| == sys.stream.cursor
    ensures AllThrough(sys.stream.watches, sys.store.revision)
  {
    forall i | 0 <= i < |sys.stream.watches|
      ensures sys.stream.watches[i].deliveredThrough == sys.store.revision
    {
      TrackedCovers(sys, i);
    }
  }

  lemma ReceiveOne(sys: System, capacity: nat)
    requires Tracking(sys) && 0 < |sys.store.history| - sys.stream.cursor <= capacity
    ensures var next := Advance(sys, capacity, ReceiveMove);
            && Tracking(next) && next.store == sys.store && next.stream.cursor == sys.stream.cursor + 1
            && SameSelectors(sys.stream.watches, next.stream.watches)
  {
    AdvanceTracks(sys, capacity, ReceiveMove);
  }

  lemma PlayReceives(sys: System, capacity: nat, n: nat)
    requires n > 0
    ensures Play(sys, capacity, Receives(n)) == Play(Advance(sys, capacity, ReceiveMove), capacity, Receives(n - 1))
  {
    assert Receives(n)[0] == ReceiveMove && Receives(n)[1..] == Receives(n - 1);
  }

  // ---- progress ---------------------------------------------------------------------------------

  /** The watch has been sent everything it wants through the current revision. */
  ghost predicate UpToDate(s: State, w: Watch)
    requires w.track.from <= s.revision + 1
  {
    w.track.sent == DeliverAll(w.sel, Between(s.history, w.track.from, s.revision))
  }

  lemma {:induction false} DeliverAllConcat(sel: Selector, a: seq<Batch>, b: seq<Batch>)
    ensures DeliverAll(sel, a + b) == DeliverAll(sel, a) + DeliverAll(sel, b)
    decreases |b|
  {
    if b == [] {
      assert a + b == a;
    } else {
      var n := |b| - 1;
      assert b == b[..n] + [b[n]];
      assert a + b == (a + b[..n]) + [b[n]];
      DeliverAllConcat(sel, a, b[..n]);
      DeliverNext(sel, a + b[..n], b[n]);
      Regroup(DeliverAll(sel, a), DeliverAll(sel, b[..n]), Deliver(sel, b[n]));
    }
  }

  lemma Regroup<T>(a: seq<T>, b: seq<T>, c: seq<T>)
    ensures (a + b) + c == a + (b + c)
  {
  }

  /**
   A progress response names the current revision without looking at the channel. It is true of a
   watch if and only if no event the watch wants is still on its way.
   */
  lemma ProgressTrueIff(sys: System, i: nat)
    requires Tracking(sys) && i < |sys.stream.watches|
    ensures var s, w := sys.store, sys.stream.watches[i];
            && ReportProgress(s, sys.stream).out == sys.stream.out + [Progress(s.revision)]
            && w.track.from <= s.revision + 1
            && (UpToDate(s, w) <==>
                  forall n | 0 <= n < |s.history| && w.deliveredThrough < n + 2 :: !AnyWanted(w.sel, s.history[n].events))
  {
    TrackedCovers(sys, i);
    CoveredPending(sys.store.history, sys.stream.cursor, sys.stream.watches[i]);
  }

  lemma TrackedCovers(sys: System, i: nat)
    requires Tracking(sys) && i < |sys.stream.watches|
    ensures sys.store.revision == |sys.store.history| + 1
    ensures Covers(sys.store.history, sys.stream.cursor, sys.stream.watches[i])
  {
  }

  lemma CoveredPending(h: seq<Batch>, cursor: nat, w: Watch)
    requires Covers(h, cursor, w)
    ensures w.track.sent == DeliverAll(w.sel, Between(h, w.track.from, |h| + 1))
       <==> forall n | 0 <= n < |h| && w.deliveredThrough < n + 2 :: !AnyWanted(w.sel, h[n].events)
  {
    PendingIff(h, w, Clamp(w.track.from - 2, |h|), w.deliveredThrough - 1);
  }

  lemma PendingIff(h: seq<Batch>, w: Watch, lo: nat, hi: nat)
    requires lo <= hi <= |h| && w.track.sent == DeliverAll(w.sel, h[lo..hi])
    ensures w.track.sent == DeliverAll(w.sel, h[lo..|h|])
       <==> forall n | hi <= n < |h| :: !AnyWanted(w.sel, h[n].events)
  {
    assert h[lo..|h|] == h[lo..hi] + h[hi..];
    DeliverAllConcat(w.sel, h[lo..hi], h[hi..]);
    NothingDelivered(w.sel, h[hi..]);
    SumUnchanged(DeliverAll(w.sel, h[lo..hi]), DeliverAll(w.sel, h[hi..]));
    SuffixUnwanted(w.sel, h, hi);
  }

  lemma SumUnchanged<T>(a: seq<T>, b: seq<T>)
    ensures a == a + b <==> b == []
  {
    assert |a + b| == |a| + |b|;
  }

  lemma SuffixUnwanted(sel: Selector, h: seq<Batch>, hi: nat)
    requires hi <= |h|
    ensures (forall n | 0 <= n < |h[hi..]| :: !AnyWanted(sel, h[hi..][n].events))
       <==> (forall n | hi <= n < |h| :: !AnyWanted(sel, h[n].events))
  {
    assert forall n | hi <= n < |h| :: h[hi..][n - hi] == h[n];
    assert forall n | 0 <= n < |h[hi..]| :: h[hi..][n] == h[hi + n];
  }

  /** Create, put, ask for progress: the answer names the put's revision while its event is still unsent. */
  lemma ProgressOvertakes(key: Bytes, value: Bytes, capacity: nat)
    ensures var cr := CreateRequest(0, key, [], 0, false, []);
            var put := Call(PutOp(PutRequest(key, value, 0, false, false, false)));
            var end := Play(Subscribe(INITIAL), capacity, [CreateMove(cr), StoreMove(put), ProgressMove]);
            && end.stream.out == [Created(1, 1), Progress(2)] && |end.stream.watches| == 1
            && |end.store.history| == 1 && AnyWanted(end.stream.watches[0].sel, end.store.history[0].events)
  {
    var cr := CreateRequest(0, key, [], 0, false, []);
    var p := PutRequest(key, value, 0, false, false, false);
    var moves := [CreateMove(cr), StoreMove(Call(PutOp(p))), ProgressMove];
    ThreeMoves(Subscribe(INITIAL), capacity, moves);
    OpenedOnNew(cr);
    var es := Put(INITIAL, p).history[0].events;
    BelowIrreflexive(key);
    assert Wants(SelectorOf(1, cr), es[0]);
  }

  lemma OpenedOnNew(cr: CreateRequest)
    requires cr.watchId == 0 && cr.startRevision == 0
    ensures var st := Create(INITIAL, Subscribe(INITIAL).stream, cr);
            st.out == [Created(1, 1)] && st.watches == [Watch(SelectorOf(1, cr), 1, Track(2, [], 1))]
  {
  }

  lemma ThreeMoves(sys: System, capacity: nat, moves: seq<Move>)
    requires |moves| == 3
    ensures Play(sys, capacity, moves)
         == Advance(Advance(Advance(sys, capacity, moves[0]), capacity, moves[1]), capacity, moves[2])
  {
    var s1 := Advance(sys, capacity, moves[0]);
    var s2 := Advance(s1, capacity, moves[1]);
    assert Play(s2, capacity, moves[2..]) == Play(Advance(s2, capacity, moves[2]), capacity, []);
    assert moves[1..][1..] == moves[2..];
    assert Play(s1, capacity, moves[1..]) == Play(s2, capacity, moves[2..]);
  }
}
