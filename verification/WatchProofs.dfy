/** What a client of a watch stream may conclude from what it was sent. */
module WatchProofs {
  import opened ByteOrder
  import opened StoreModel
  import opened History
  import opened Runs
  import opened WatchModel

  // ---- which watch is which ---------------------------------------------------------

  /** `w` is a later state of the watch `v`. */
  predicate Descends(w: Watch, v: Watch) {
    && w.sel == v.sel
    && w.track.from == v.track.from
    && w.track.openedAt == v.track.openedAt
    && v.track.sent <= w.track.sent
    && v.deliveredThrough <= w.deliveredThrough
  }

  lemma OfferLineage(ws: seq<Watch>, b: Batch, w: Watch)
    requires w in OfferAll(ws, b)
    ensures exists v :: v in ws && Descends(w, v)
  {
    var i :| 0 <= i < |ws| && Offer(ws[i], b) == w;
    assert ws[i] in ws && Descends(w, ws[i]);
  }

  lemma AdvanceLineage(sys: System, capacity: nat, m: Move, w: Watch)
    requires Tracking(sys) && w in Advance(sys, capacity, m).stream.watches
    ensures |sys.stream.out| <= |Advance(sys, capacity, m).stream.out|
    ensures w.track.openedAt <= |sys.stream.out| ==> exists v :: v in sys.stream.watches && Descends(w, v)
  {
    var st := sys.stream;
    match m {
      case StoreMove(_) =>
        assert Descends(w, w);
      case CreateMove(cr) =>
        assert Descends(w, w);
      case CancelMove(id) =>
        RetainSubset(st.watches, id);
        var i :| 0 <= i < |Retain(st.watches, id)| && Retain(st.watches, id)[i] == w;
        assert Descends(w, w);
      case ProgressMove =>
        assert Descends(w, w);
      case ReceiveMove =>
        if st.cursor < |sys.store.history| {
          OfferLineage(st.watches, sys.store.history[st.cursor], w);
        } else {
          assert Descends(w, w);
        }
    }
  }

  lemma {:induction false} PlayLineage(sys: System, capacity: nat, moves: seq<Move>, w: Watch)
    requires Tracking(sys) && w in Play(sys, capacity, moves).stream.watches
    requires w.track.openedAt <= |sys.stream.out|
    ensures exists v :: v in sys.stream.watches && Descends(w, v)
    decreases |moves|
  {
    if moves == [] {
      assert Descends(w, w);
    } else {
      var next := Advance(sys, capacity, moves[0]);
      AdvanceTracks(sys, capacity, moves[0]);
      OutGrows(sys, capacity, moves[0]);
      PlayLineage(next, capacity, moves[1..], w);
      var u :| u in next.stream.watches && Descends(w, u);
      AdvanceLineage(sys, capacity, moves[0], u);
      var v :| v in sys.stream.watches && Descends(u, v);
      assert Descends(w, v);
    }
  }

  lemma OutGrows(sys: System, capacity: nat, m: Move)
    ensures sys.stream.out <= Advance(sys, capacity, m).stream.out
  {
  }

  lemma {:induction false} PlayHistory(sys: System, capacity: nat, moves: seq<Move>)
    requires Tracking(sys)
    ensures sys.store.history <= Play(sys, capacity, moves).store.history
    decreases |moves|
  {
    if moves != [] {
      AdvanceTracks(sys, capacity, moves[0]);
      if moves[0].StoreMove? {
        StepKeeps(sys.store, moves[0].step);
      }
      PlayHistory(Advance(sys, capacity, moves[0]), capacity, moves[1..]);
    }
  }

  // ---- on the wire ---------------------------------------------------------------------

  /** The event responses a client attributes to watch `id`. */
  function EventsFor(out: seq<WatchResponse>, id: int): seq<WatchResponse> {
    if out == [] then []
    else
      var n := |out| - 1;
      EventsFor(out[..n], id) + if out[n].Events? && out[n].id == id then [out[n]] else []
  }

  lemma {:induction false} EventsForConcat(a: seq<WatchResponse>, b: seq<WatchResponse>, id: int)
    ensures EventsFor(a + b, id) == EventsFor(a, id) + EventsFor(b, id)
    decreases |b|
  {
    if b == [] {
      assert a + b == a;
    } else {
      var n := |b| - 1;
      assert (a + b)[..|a| + n] == a + b[..n];
      EventsForConcat(a, b[..n], id);
    }
  }

  ghost predicate DistinctIds(ws: seq<Watch>) {
    forall i, j | 0 <= i < j < |ws| :: ws[i].sel.id != ws[j].sel.id
  }

  /** Since its creation, the responses under its id are exactly what the watch was sent. */
  ghost predicate OnTheWire(st: Stream) {
    && DistinctIds(st.watches)
    && forall i | 0 <= i < |st.watches| ::
         var w := st.watches[i];
         w.track.openedAt <= |st.out| && EventsFor(st.out[w.track.openedAt..], w.sel.id) == w.track.sent
  }

  lemma WireAppend(out: seq<WatchResponse>, more: seq<WatchResponse>, w: Watch)
    requires w.track.openedAt <= |out|
    ensures EventsFor((out + more)[w.track.openedAt..], w.sel.id)
         == EventsFor(out[w.track.openedAt..], w.sel.id) + EventsFor(more, w.sel.id)
  {
    assert (out + more)[w.track.openedAt..] == out[w.track.openedAt..] + more;
    EventsForConcat(out[w.track.openedAt..], more, w.sel.id);
  }

  lemma DeliverId(sel: Selector, b: Batch, id: int)
    ensures EventsFor(Deliver(sel, b), id) == if sel.id == id then Deliver(sel, b) else []
  {
    assert Deliver(sel, b)[..0] == [];
    assert EventsFor(Deliver(sel, b)[..0], id) == [];
  }

  lemma {:induction false} DeliverAllId(sel: Selector, bs: seq<Batch>, id: int)
    ensures EventsFor(DeliverAll(sel, bs), id) == if sel.id == id then DeliverAll(sel, bs) else []
  {
    if bs != [] {
      var n := |bs| - 1;
      DeliverAllId(sel, bs[..n], id);
      DeliverId(sel, bs[n], id);
      EventsForConcat(DeliverAll(sel, bs[..n]), Deliver(sel, bs[n]), id);
    }
  }

  /** The last watch's share of a fan-out, as seen under `id`. */
  lemma FanOutLast(ws: seq<Watch>, b: Batch, id: int)
    requires ws != []
    ensures var n := |ws| - 1;
            EventsFor(FanOut(ws, b), id) == EventsFor(FanOut(ws[..n], b), id) + if ws[n].sel.id == id then Fresh(ws[n], b) else []
  {
    var n := |ws| - 1;
    EventsForConcat(FanOut(ws[..n], b), Fresh(ws[n], b), id);
    DeliverId(ws[n].sel, b, id);
  }

  lemma {:induction false} FanOutId(ws: seq<Watch>, b: Batch, i: nat)
    requires DistinctIds(ws) && i < |ws|
    ensures EventsFor(FanOut(ws, b), ws[i].sel.id) == Fresh(ws[i], b)
    decreases |ws|
  {
    var n := |ws| - 1;
    FanOutLast(ws, b, ws[i].sel.id);
    if i < n {
      FanOutId(ws[..n], b, i);
    } else {
      FanOutOthers(ws[..n], b, ws[n].sel.id);
    }
  }

  lemma {:induction false} FanOutOthers(ws: seq<Watch>, b: Batch, id: int)
    requires forall i | 0 <= i < |ws| :: ws[i].sel.id != id
    ensures EventsFor(FanOut(ws, b), id) == []
  {
    if ws != [] {
      FanOutLast(ws, b, id);
      FanOutOthers(ws[..|ws| - 1], b, id);
    }
  }

  lemma {:induction false} NoticesCarryNoEvents(out: seq<WatchResponse>, id: int)
    requires forall i | 0 <= i < |out| :: !out[i].Events?
    ensures EventsFor(out, id) == []
  {
    if out != [] {
      NoticesCarryNoEvents(out[..|out| - 1], id);
    }
  }

  lemma {:induction false} RetainDistinct(ws: seq<Watch>, id: int)
    requires DistinctIds(ws)
    ensures DistinctIds(Retain(ws, id))
  {
    if ws != [] {
      var n := |ws| - 1;
      RetainDistinct(ws[..n], id);
      RetainSubset(ws[..n], id);
      var kept := Retain(ws[..n], id);
      forall i | 0 <= i < |kept|
        ensures kept[i].sel.id != ws[n].sel.id
      {
        var j :| 0 <= j < n && ws[..n][j] == kept[i];
        assert ws[j] == kept[i];
      }
    }
  }

  lemma OpeningEvents(sel: Selector, revision: int, bs: seq<Batch>, id: int)
    ensures EventsFor([Created(sel.id, revision)] + DeliverAll(sel, bs), id)
         == if sel.id == id then DeliverAll(sel, bs) else []
  {
    EventsForConcat([Created(sel.id, revision)], DeliverAll(sel, bs), id);
    NoticesCarryNoEvents([Created(sel.id, revision)], id);
    DeliverAllId(sel, bs, id);
  }

  /** Responses under other ids do not disturb the watches there are. */
  lemma SilentAppend(st: Stream, more: seq<WatchResponse>)
    requires OnTheWire(st)
    requires forall i | 0 <= i < |st.watches| :: EventsFor(more, st.watches[i].sel.id) == []
    ensures OnTheWire(st.(out := st.out + more))
  {
    forall i | 0 <= i < |st.watches|
      ensures EventsFor((st.out + more)[st.watches[i].track.openedAt..], st.watches[i].sel.id) == st.watches[i].track.sent
    {
      WireAppend(st.out, more, st.watches[i]);
    }
  }

  lemma CreateOnTheWire(s: State, st: Stream, cr: CreateRequest)
    requires OnTheWire(st)
    requires forall i | 0 <= i < |st.watches| :: st.watches[i].sel.id != CreatedId(st, cr)
    ensures OnTheWire(Create(s, st, cr))
  {
    var id := CreatedId(st, cr);
    if Rejected(s, cr) {
      NoticesOnTheWire(st, st.watches, [Canceled(id, Compacted(s.compactRevision))]);
    } else {
      OpenedOnTheWire(s, st, cr);
    }
  }

  lemma OpenedOnTheWire(s: State, st: Stream, cr: CreateRequest)
    requires OnTheWire(st) && !Rejected(s, cr)
    requires forall i | 0 <= i < |st.watches| :: st.watches[i].sel.id != CreatedId(st, cr)
    ensures OnTheWire(Create(s, st, cr))
  {
    var sel := SelectorOf(CreatedId(st, cr), cr);
    var ack, sent := [Created(sel.id, s.revision)], DeliverAll(sel, Backlog(s, cr));
    forall i | 0 <= i < |st.watches|
      ensures EventsFor(ack + sent, st.watches[i].sel.id) == []
    {
      OpeningEvents(sel, s.revision, Backlog(s, cr), st.watches[i].sel.id);
    }
    SilentAppend(st, ack + sent);
    DeliverAllId(sel, Backlog(s, cr), sel.id);
    OpenedSuffix(st.out, ack, sent);
  }

  lemma OpenedSuffix<T>(out: seq<T>, ack: seq<T>, sent: seq<T>)
    ensures out + ack + sent == out + (ack + sent) && (out + ack + sent)[|out| + |ack|..] == sent
  {
  }

  lemma ReceiveOnTheWire(s: State, st: Stream, capacity: nat)
    requires OnTheWire(st)
    ensures OnTheWire(Receive(s, st, capacity))
  {
    if !IsLagging(s, st, capacity) && st.cursor < |s.history| {
      var b := s.history[st.cursor];
      var st' := Receive(s, st, capacity);
      forall i | 0 <= i < |st.watches|
        ensures var w := st'.watches[i];
                w.track.openedAt <= |st'.out| && EventsFor(st'.out[w.track.openedAt..], w.sel.id) == w.track.sent
      {
        WireAppend(st.out, FanOut(st.watches, b), st.watches[i]);
        FanOutId(st.watches, b, i);
      }
    }
  }

  lemma CancelOnTheWire(st: Stream, id: int)
    requires OnTheWire(st)
    ensures OnTheWire(Cancel(st, id))
  {
    RetainDistinct(st.watches, id);
    RetainSubset(st.watches, id);
    NoticesOnTheWire(st, Retain(st.watches, id), [Canceled(id, Requested)]);
  }

  lemma NoticesOnTheWire(st: Stream, kept: seq<Watch>, notices: seq<WatchResponse>)
    requires OnTheWire(st) && DistinctIds(kept) && forall i | 0 <= i < |kept| :: kept[i] in st.watches
    requires forall i | 0 <= i < |notices| :: !notices[i].Events?
    ensures OnTheWire(st.(watches := kept, out := st.out + notices))
  {
    forall i | 0 <= i < |kept|
      ensures var w := kept[i];
              && w.track.openedAt <= |st.out + notices|
              && EventsFor((st.out + notices)[w.track.openedAt..], w.sel.id) == w.track.sent
    {
      var j :| 0 <= j < |st.watches| && st.watches[j] == kept[i];
      WireAppend(st.out, notices, kept[i]);
      NoticesCarryNoEvents(notices, kept[i].sel.id);
    }
  }

  /** No create in the run reuses the id of a watch that is active at that moment. */
  ghost predicate IdsUnused(sys: System, capacity: nat, moves: seq<Move>)
    decreases |moves|
  {
    moves == [] ||
    (&& (moves[0].CreateMove? ==>
           forall i | 0 <= i < |sys.stream.watches| ::
             sys.stream.watches[i].sel.id != CreatedId(sys.stream, moves[0].cr))
     && IdsUnused(Advance(sys, capacity, moves[0]), capacity, moves[1..]))
  }

  lemma AdvanceOnTheWire(sys: System, capacity: nat, m: Move)
    requires OnTheWire(sys.stream)
    requires m.CreateMove? ==>
               forall i | 0 <= i < |sys.stream.watches| :: sys.stream.watches[i].sel.id != CreatedId(sys.stream, m.cr)
    ensures OnTheWire(Advance(sys, capacity, m).stream)
  {
    match m {
      case StoreMove(_) =>
      case CreateMove(cr) => CreateOnTheWire(sys.store, sys.stream, cr);
      case CancelMove(id) => CancelOnTheWire(sys.stream, id);
      case ProgressMove =>
        NoticesOnTheWire(sys.stream, sys.stream.watches, [Progress(sys.store.revision)]);
      case ReceiveMove => ReceiveOnTheWire(sys.store, sys.stream, capacity);
    }
  }

  lemma {:induction false} PlayOnTheWire(sys: System, capacity: nat, moves: seq<Move>)
    requires OnTheWire(sys.stream) && IdsUnused(sys, capacity, moves)
    ensures OnTheWire(Play(sys, capacity, moves).stream)
    decreases |moves|
  {
    if moves != [] {
      AdvanceOnTheWire(sys, capacity, moves[0]);
      PlayOnTheWire(Advance(sys, capacity, moves[0]), capacity, moves[1..]);
    }
  }

  /**
   From a new store, over any run of it before and after a stream is opened: what a client reads
   under an id is exactly the matching events of the revisions its watch covers.
   */
  lemma WireExact(steps: seq<Step>, capacity: nat, moves: seq<Move>, i: nat)
    requires var sys := Subscribe(Run(INITIAL, steps));
             IdsUnused(sys, capacity, moves) && i < |Play(sys, capacity, moves).stream.watches|
    ensures var end := Play(Subscribe(Run(INITIAL, steps)), capacity, moves);
            var w := end.stream.watches[i];
            && w.track.openedAt <= |end.stream.out| && w.track.from <= w.deliveredThrough + 1
            && end.stream.cursor + 1 <= w.deliveredThrough <= end.store.revision
            && EventsFor(end.stream.out[w.track.openedAt..], w.sel.id)
               == DeliverAll(w.sel, Between(end.store.history, w.track.from, w.deliveredThrough))
  {
    RunKeeps(INITIAL, steps);
    var sys := Subscribe(Run(INITIAL, steps));
    PlayTracks(sys, capacity, moves);
    PlayOnTheWire(sys, capacity, moves);
    var end := Play(sys, capacity, moves);
    assert Covers(end.store.history, end.stream.cursor, end.stream.watches[i]);
  }

  // ---- list, then watch ---------------------------------------------------------------------

  function Restrict(m: Kvs, key: Bytes, rangeEnd: Bytes): Kvs {
    map k | k in m && InRange(k, key, rangeEnd) :: m[k]
  }

  /** A client's copy of the range after reading the event responses it was sent. */
  function Rebuild(m: Kvs, sent: seq<WatchResponse>): Kvs
    decreases |sent|
  {
    if sent == [] then m
    else
      var n := |sent| - 1;
      var before := Rebuild(m, sent[..n]);
      if sent[n].Events? then Apply(before, sent[n].events) else before
  }

  /** The map a list response spells out. */
  function FromList(kvs: seq<Kv>): Kvs {
    if kvs == [] then map[] else FromList(kvs[..|kvs| - 1])[kvs[|kvs| - 1].key := kvs[|kvs| - 1]]
  }

  predicate Everything(sel: Selector) {
    !sel.noPut && !sel.noDelete
  }

  lemma RestrictEvent(m: Kvs, e: Event, key: Bytes, rangeEnd: Bytes)
    ensures Restrict(ApplyEvent(m, e), key, rangeEnd)
         == if InRange(e.kv.key, key, rangeEnd) then ApplyEvent(Restrict(m, key, rangeEnd), e) else Restrict(m, key, rangeEnd)
  {
  }

  lemma {:induction false} ApplyMatched(sel: Selector, m: Kvs, es: seq<Event>)
    requires Everything(sel)
    ensures Apply(Restrict(m, sel.key, sel.rangeEnd), Matched(sel, es)) == Restrict(Apply(m, es), sel.key, sel.rangeEnd)
  {
    if es != [] {
      var n := |es| - 1;
      var before := Matched(sel, es[..n]);
      ApplyMatched(sel, m, es[..n]);
      RestrictEvent(Apply(m, es[..n]), es[n], sel.key, sel.rangeEnd);
      if Matches(sel, es[n]) {
        assert (before + [OnWire(sel, es[n])])[..|before|] == before;
      } else {
        assert before + [] == before;
      }
    }
  }

  lemma RebuildDeliver(sel: Selector, m: Kvs, sent: seq<WatchResponse>, b: Batch)
    ensures Rebuild(m, sent + Deliver(sel, b)) == Apply(Rebuild(m, sent), Matched(sel, b.events))
  {
    if Matched(sel, b.events) == [] {
      assert sent + Deliver(sel, b) == sent;
    } else {
      assert (sent + Deliver(sel, b))[..|sent|] == sent;
    }
  }

  lemma MirrorStep(sel: Selector, m: Kvs, listed: Kvs, sent: seq<WatchResponse>, b: Batch)
    requires Everything(sel) && Rebuild(listed, sent) == Restrict(m, sel.key, sel.rangeEnd)
    ensures Rebuild(listed, sent + Deliver(sel, b)) == Restrict(Apply(m, b.events), sel.key, sel.rangeEnd)
  {
    RebuildDeliver(sel, listed, sent, b);
    ApplyMatched(sel, m, b.events);
  }

  lemma ConcatLast<T>(a: seq<T>, b: seq<T>)
    requires b != []
    ensures a + b == (a + b[..|b| - 1]) + [b[|b| - 1]]
  {
  }

  lemma ConcatSlice<T>(s: seq<T>, lo: nat, hi: nat)
    requires lo <= hi <= |s|
    ensures s[..lo] + s[lo..hi] == s[..hi]
  {
  }

  lemma {:induction false} MirrorFollows(sel: Selector, start: seq<Batch>, bs: seq<Batch>)
    requires Everything(sel)
    ensures Rebuild(Restrict(Replay(start), sel.key, sel.rangeEnd), DeliverAll(sel, bs))
         == Restrict(Replay(start + bs), sel.key, sel.rangeEnd)
    decreases |bs|
  {
    if bs == [] {
      assert start + bs == start;
    } else {
      var n := |bs| - 1;
      MirrorFollows(sel, start, bs[..n]);
      ConcatLast(start, bs);
      ReplaySnoc(start + bs[..n], bs[n]);
      MirrorStep(
        sel, Replay(start + bs[..n]), Restrict(Replay(start), sel.key, sel.rangeEnd), DeliverAll(sel, bs[..n]), bs[n]);
    }
  }

  lemma {:induction false} FromListValues(m: Kvs, keys: seq<Bytes>)
    requires forall k | k in keys :: k in m && m[k].key == k
    ensures FromList(Values(m, keys)) == map k | k in keys :: m[k]
    decreases |keys|
  {
    if keys != [] {
      var n := |keys| - 1;
      assert keys == keys[..n] + [keys[n]];
      FromListValues(m, keys[..n]);
      assert Values(m, keys)[..n] == Values(m, keys[..n]);
    }
  }

  /** A current, unfiltered, unlimited Range is the store restricted to its range. */
  lemma ListIsRestriction(s: State, r: RangeRequest)
    requires Consistent(s) && Unfiltered(r) && r.revision == 0
    ensures FromList(RangeKvs(s.kvs, s.revision, r).kvs) == Restrict(s.kvs, r.key, r.rangeEnd)
  {
    var keys := Ascending(Selected(s.kvs, s.revision, r));
    EntriesNamed(s.history);
    FromListValues(s.kvs, keys);
    forall k | k in s.kvs
      ensures s.kvs[k].modRevision <= s.revision
    {
      VersionBound(s.history, k);
    }
    assert forall k :: k in keys <==> k in Restrict(s.kvs, r.key, r.rangeEnd);
  }

  /** An active watch that started at R + 1 turns the list at R into the range at any later point. */
  lemma WatchMirrors(sys: System, i: nat, listed: Kvs)
    requires Tracking(sys) && i < |sys.stream.watches|
    requires var w := sys.stream.watches[i];
             && Everything(w.sel) && w.track.from >= 2
             && listed == Restrict(Snapshot(sys.store.history, w.track.from - 1), w.sel.key, w.sel.rangeEnd)
    ensures var w := sys.stream.watches[i];
            Rebuild(listed, w.track.sent)
            == Restrict(Snapshot(sys.store.history, w.deliveredThrough), w.sel.key, w.sel.rangeEnd)
  {
    CoveredMirrors(sys.store.history, sys.stream.cursor, sys.stream.watches[i]);
  }

  lemma CoveredMirrors(h: seq<Batch>, cursor: nat, w: Watch)
    requires Covers(h, cursor, w) && Everything(w.sel) && w.track.from >= 2
    ensures Rebuild(Restrict(Snapshot(h, w.track.from - 1), w.sel.key, w.sel.rangeEnd), w.track.sent)
         == Restrict(Snapshot(h, w.deliveredThrough), w.sel.key, w.sel.rangeEnd)
  {
    SliceMirrors(h, Clamp(w.track.from - 2, |h|), Clamp(w.deliveredThrough - 1, |h|), w.sel);
  }

  lemma SliceMirrors(h: seq<Batch>, lo: nat, hi: nat, sel: Selector)
    requires lo <= hi <= |h| && Everything(sel)
    ensures Rebuild(Restrict(Replay(h[..lo]), sel.key, sel.rangeEnd), DeliverAll(sel, h[lo..hi]))
         == Restrict(Replay(h[..hi]), sel.key, sel.rangeEnd)
  {
    MirrorFollows(sel, h[..lo], h[lo..hi]);
    ConcatSlice(h, lo, hi);
  }

  /**
   List at revision R, create a watch on the same range from R + 1, and keep reading: at every
   later moment the rebuilt range is the store's range at the revision delivered through, under
   any interleaving of requests, expiries, compactions and other watches on the stream.
   */
  lemma ListThenWatch(
    sys: System, capacity: nat, r: RangeRequest, before: seq<Move>, cr: CreateRequest, after: seq<Move>, i: nat)
    requires Tracking(sys) && Unfiltered(r) && r.revision == 0
    requires cr.key == r.key && cr.rangeEnd == r.rangeEnd && cr.startRevision == sys.store.revision + 1
    requires !HasFilter(cr.filters, 0) && !HasFilter(cr.filters, 1)
    requires var mid := Play(sys, capacity, before);
             var end := Play(Advance(mid, capacity, CreateMove(cr)), capacity, after);
             && !Rejected(mid.store, cr)
             && i < |end.stream.watches|
             && end.stream.watches[i].track.openedAt == |mid.stream.out| + 1
    ensures var mid := Play(sys, capacity, before);
            var end := Play(Advance(mid, capacity, CreateMove(cr)), capacity, after);
            var w := end.stream.watches[i];
            && Rebuild(FromList(RangeKvs(sys.store.kvs, sys.store.revision, r).kvs), w.track.sent)
               == Restrict(Snapshot(end.store.history, w.deliveredThrough), r.key, r.rangeEnd)
            && (w.deliveredThrough == end.store.revision ==>
                  Restrict(Snapshot(end.store.history, w.deliveredThrough), r.key, r.rangeEnd)
                  == Restrict(end.store.kvs, r.key, r.rangeEnd))
  {
    var mid := Play(sys, capacity, before);
    var end := Play(Advance(mid, capacity, CreateMove(cr)), capacity, after);
    PlayTracks(sys, capacity, before);
    PlayHistory(sys, capacity, before);
    CreatedWatch(mid, capacity, cr, after, i);
    assert StartOf(mid.store, cr) == sys.store.revision + 1;
    MirrorsFromList(sys.store, r, end, i);
  }

  lemma MirrorsFromList(s: State, r: RangeRequest, end: System, i: nat)
    requires Consistent(s) && Unfiltered(r) && r.revision == 0
    requires Tracking(end) && s.history <= end.store.history && i < |end.stream.watches|
    requires var w := end.stream.watches[i];
             && Everything(w.sel) && w.sel.key == r.key && w.sel.rangeEnd == r.rangeEnd
             && w.track.from == s.revision + 1
    ensures var w := end.stream.watches[i];
            && Rebuild(FromList(RangeKvs(s.kvs, s.revision, r).kvs), w.track.sent)
               == Restrict(Snapshot(end.store.history, w.deliveredThrough), r.key, r.rangeEnd)
            && (w.deliveredThrough == end.store.revision ==>
                  Snapshot(end.store.history, w.deliveredThrough) == end.store.kvs)
  {
    ListIsRestriction(s, r);
    PrefixSnapshot(s, end.store);
    WatchMirrors(end, i, Restrict(s.kvs, r.key, r.rangeEnd));
    PrefixSnapshot(end.store, end.store);
  }

  /** The same for what the client reads off the stream, behind the acknowledgement of its create. */
  lemma ListThenWatchOnTheWire(
    sys: System, capacity: nat, r: RangeRequest, before: seq<Move>, cr: CreateRequest, after: seq<Move>, i: nat)
    requires Tracking(sys) && OnTheWire(sys.stream) && Unfiltered(r) && r.revision == 0
    requires cr.key == r.key && cr.rangeEnd == r.rangeEnd && cr.startRevision == sys.store.revision + 1
    requires !HasFilter(cr.filters, 0) && !HasFilter(cr.filters, 1)
    requires IdsUnused(sys, capacity, before) && IdsUnused(Play(sys, capacity, before), capacity, [CreateMove(cr)] + after)
    requires var mid := Play(sys, capacity, before);
             var end := Play(Advance(mid, capacity, CreateMove(cr)), capacity, after);
             && !Rejected(mid.store, cr)
             && i < |end.stream.watches|
             && end.stream.watches[i].track.openedAt == |mid.stream.out| + 1
    ensures var mid := Play(sys, capacity, before);
            var end := Play(Advance(mid, capacity, CreateMove(cr)), capacity, after);
            && |mid.stream.out| + 1 <= |end.stream.out|
            && Rebuild(
                 FromList(RangeKvs(sys.store.kvs, sys.store.revision, r).kvs),
                 EventsFor(end.stream.out[|mid.stream.out| + 1..], CreatedId(mid.stream, cr)))
               == Restrict(Snapshot(end.store.history, end.stream.watches[i].deliveredThrough), r.key, r.rangeEnd)
  {
    var mid := Play(sys, capacity, before);
    PlayTracks(sys, capacity, before);
    PlayOnTheWire(sys, capacity, before);
    ListThenWatch(sys, capacity, r, before, cr, after, i);
    CreatedWatch(mid, capacity, cr, after, i);
    var moves := [CreateMove(cr)] + after;
    assert moves[0] == CreateMove(cr) && moves[1..] == after;
    PlayOnTheWire(mid, capacity, moves);
  }

  lemma PrefixSnapshot(s: State, t: State)
    requires Consistent(s) && s.history <= t.history
    ensures Snapshot(t.history, s.revision) == s.kvs
  {
    assert t.history[..|s.history|] == s.history;
  }

  /** The watch opened by a create, followed to the end of a run. */
  lemma CreatedWatch(mid: System, capacity: nat, cr: CreateRequest, after: seq<Move>, i: nat)
    requires Tracking(mid) && !Rejected(mid.store, cr)
    requires var end := Play(Advance(mid, capacity, CreateMove(cr)), capacity, after);
             i < |end.stream.watches| && end.stream.watches[i].track.openedAt == |mid.stream.out| + 1
    ensures var end := Play(Advance(mid, capacity, CreateMove(cr)), capacity, after);
            var w := end.stream.watches[i];
            && Tracking(end)
            && mid.store.history <= end.store.history
            && w.sel == SelectorOf(CreatedId(mid.stream, cr), cr)
            && w.track.from == StartOf(mid.store, cr)
  {
    var made := Advance(mid, capacity, CreateMove(cr));
    AdvanceTracks(mid, capacity, CreateMove(cr));
    PlayTracks(made, capacity, after);
    PlayHistory(made, capacity, after);
    var w := Play(made, capacity, after).stream.watches[i];
    PlayLineage(made, capacity, after, w);
    var v :| v in made.stream.watches && Descends(w, v);
    NewestWatch(mid, cr, v);
  }

  lemma NewestWatch(mid: System, cr: CreateRequest, v: Watch)
    requires Tracking(mid) && !Rejected(mid.store, cr)
    requires v in Create(mid.store, mid.stream, cr).watches && v.track.openedAt == |mid.stream.out| + 1
    ensures v.sel == SelectorOf(CreatedId(mid.stream, cr), cr) && v.track.from == StartOf(mid.store, cr)
  {
    assert forall w | w in mid.stream.watches :: w.track.openedAt <= |mid.stream.out|;
  }
}
