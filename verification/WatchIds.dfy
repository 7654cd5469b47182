/**
 Watch ids on one stream. A response carries nothing but the id, and the server neither refuses
 an id in use nor looks for one when it draws the next.
 */
module WatchIds {
  import opened ByteOrder
  import opened StoreModel
  import opened Runs
  import opened WatchModel
  import opened WatchProofs
  import opened Options

  // ---- ids the server draws --------------------------------------------------------------

  /** Every create leaves the id to the server. */
  ghost predicate IdsDrawn(moves: seq<Move>) {
    forall i | 0 <= i < |moves| && moves[i].CreateMove? :: moves[i].cr.watchId == 0
  }

  ghost predicate IdsBelow(st: Stream) {
    forall i | 0 <= i < |st.watches| :: st.watches[i].sel.id < st.nextWatchId
  }

  lemma AdvanceIdsBelow(sys: System, capacity: nat, m: Move)
    requires IdsBelow(sys.stream) && (m.CreateMove? ==> m.cr.watchId == 0)
    ensures IdsBelow(Advance(sys, capacity, m).stream)
  {
    if m.CancelMove? {
      var ws := sys.stream.watches;
      RetainSubset(ws, m.id);
      forall i | 0 <= i < |Retain(ws, m.id)|
        ensures Retain(ws, m.id)[i].sel.id < sys.stream.nextWatchId
      {
        var j :| 0 <= j < |ws| && ws[j] == Retain(ws, m.id)[i];
      }
    }
  }

  /** Ids the server draws are never in use, in any run; a client need only send watch_id 0. */
  lemma {:induction false} DrawnIdsUnused(sys: System, capacity: nat, moves: seq<Move>)
    requires IdsBelow(sys.stream) && IdsDrawn(moves)
    ensures IdsUnused(sys, capacity, moves)
    decreases |moves|
  {
    if moves != [] {
      AdvanceIdsBelow(sys, capacity, moves[0]);
      DrawnIdsUnused(Advance(sys, capacity, moves[0]), capacity, moves[1..]);
    }
  }

  /** A client that leaves the ids to the server reads under each exactly what its watch covers. */
  lemma WireExactWhenDrawn(steps: seq<Step>, capacity: nat, moves: seq<Move>, i: nat)
    requires IdsDrawn(moves)
    requires i < |Play(Subscribe(Run(INITIAL, steps)), capacity, moves).stream.watches|
    ensures var end := Play(Subscribe(Run(INITIAL, steps)), capacity, moves);
            ReadsWhatItCovers(end, end.stream.watches[i])
  {
    DrawnIdsUnused(Subscribe(Run(INITIAL, steps)), capacity, moves);
    WireExact(steps, capacity, moves, i);
  }

  /** What a client reads under the watch's id is what the watch was sent. */
  ghost predicate Exact(out: seq<WatchResponse>, w: Watch) {
    w.track.openedAt <= |out| && EventsFor(out[w.track.openedAt..], w.sel.id) == w.track.sent
  }

  /** An accepted create leaves an older watch exact if and only if its id is another, or the replay sends nothing. */
  lemma CreateKeepsExactIff(s: State, st: Stream, cr: CreateRequest, w: Watch)
    requires !Rejected(s, cr) && Exact(st.out, w)
    ensures Exact(Create(s, st, cr).out, w)
       <==> w.sel.id != CreatedId(st, cr) || DeliverAll(SelectorOf(CreatedId(st, cr), cr), Backlog(s, cr)) == []
  {
    var sel := SelectorOf(CreatedId(st, cr), cr);
    var ack, sent := [Created(sel.id, s.revision)], DeliverAll(sel, Backlog(s, cr));
    OpenedSuffix(st.out, ack, sent);
    WireAppend(st.out, ack + sent, w);
    OpeningEvents(sel, s.revision, Backlog(s, cr), w.sel.id);
  }

  /** A new watch starts out exact, whatever ids are in use. */
  lemma CreatedExact(s: State, st: Stream, cr: CreateRequest)
    requires !Rejected(s, cr)
    ensures var st' := Create(s, st, cr); Exact(st'.out, st'.watches[|st'.watches| - 1])
  {
    var sel := SelectorOf(CreatedId(st, cr), cr);
    OpenedSuffix(st.out, [Created(sel.id, s.revision)], DeliverAll(sel, Backlog(s, cr)));
    DeliverAllId(sel, Backlog(s, cr), sel.id);
  }

  /** Responses a fan-out sends under `id`. */
  function Shares(ws: seq<Watch>, b: Batch, id: int): seq<WatchResponse> {
    if ws == [] then []
    else
      var n := |ws| - 1;
      Shares(ws[..n], b, id) + if ws[n].sel.id == id then Fresh(ws[n], b) else []
  }

  lemma {:induction false} FanOutShares(ws: seq<Watch>, b: Batch, id: int)
    ensures EventsFor(FanOut(ws, b), id) == Shares(ws, b, id)
  {
    if ws != [] {
      FanOutLast(ws, b, id);
      FanOutShares(ws[..|ws| - 1], b, id);
    }
  }

  /** No other watch under the id of watch `i` has anything to send for the batch. */
  ghost predicate Alone(ws: seq<Watch>, b: Batch, i: nat)
    requires i < |ws|
  {
    forall j | 0 <= j < |ws| && j != i && ws[j].sel.id == ws[i].sel.id :: Fresh(ws[j], b) == []
  }

  lemma {:induction false} NoShares(ws: seq<Watch>, b: Batch, id: int)
    ensures Shares(ws, b, id) == [] <==> forall j | 0 <= j < |ws| && ws[j].sel.id == id :: Fresh(ws[j], b) == []
  {
    if ws != [] {
      var n := |ws| - 1;
      NoShares(ws[..n], b, id);
      assert forall j | 0 <= j < n :: ws[..n][j] == ws[j];
    }
  }

  lemma {:induction false} SharesAlone(ws: seq<Watch>, b: Batch, i: nat)
    requires i < |ws|
    ensures |Shares(ws, b, ws[i].sel.id)| >= |Fresh(ws[i], b)|
    ensures |Shares(ws, b, ws[i].sel.id)| == |Fresh(ws[i], b)| ==> Shares(ws, b, ws[i].sel.id) == Fresh(ws[i], b)
    ensures Shares(ws, b, ws[i].sel.id) == Fresh(ws[i], b) <==> Alone(ws, b, i)
    decreases |ws|
  {
    var n := |ws| - 1;
    var id := ws[i].sel.id;
    var last := if ws[n].sel.id == id then Fresh(ws[n], b) else [];
    if i == n {
      AloneAtEnd(ws, b);
      SumIsLast(Shares(ws[..n], b, id), last);
    } else {
      SharesAlone(ws[..n], b, i);
      AloneLast(ws, b, i);
      SumIsFirst(Shares(ws[..n], b, id), last, Fresh(ws[i], b));
    }
  }

  lemma AloneAtEnd(ws: seq<Watch>, b: Batch)
    requires ws != []
    ensures var n := |ws| - 1; Alone(ws, b, n) <==> Shares(ws[..n], b, ws[n].sel.id) == []
  {
    var n := |ws| - 1;
    NoShares(ws[..n], b, ws[n].sel.id);
    assert forall j | 0 <= j < n :: ws[..n][j] == ws[j];
  }

  lemma SumIsLast<T>(a: seq<T>, b: seq<T>)
    ensures a + b == b <==> a == []
    ensures |a + b| == |b| ==> a == []
  {
    assert |a + b| == |a| + |b|;
  }

  lemma SumIsFirst<T>(a: seq<T>, b: seq<T>, f: seq<T>)
    requires |a| >= |f|
    ensures a + b == f <==> a == f && b == []
    ensures |a + b| == |f| ==> |a| == |f| && b == []
  {
    assert |a + b| == |a| + |b|;
    assert b == [] ==> a + b == a;
  }

  lemma SamePrefix<T>(pre: seq<T>, a: seq<T>, b: seq<T>)
    ensures pre + a == pre + b <==> a == b
  {
    assert (pre + a)[|pre|..] == a && (pre + b)[|pre|..] == b;
  }

  lemma OfferSent(w: Watch, b: Batch)
    ensures var v := Offer(w, b);
            v.sel == w.sel && v.track.openedAt == w.track.openedAt && v.track.sent == w.track.sent + Fresh(w, b)
  {
  }

  lemma AloneLast(ws: seq<Watch>, b: Batch, i: nat)
    requires i < |ws| - 1
    ensures var n := |ws| - 1;
            Alone(ws, b, i) <==> Alone(ws[..n], b, i) && (ws[n].sel.id == ws[i].sel.id ==> Fresh(ws[n], b) == [])
  {
    var n := |ws| - 1;
    assert forall j | 0 <= j < n :: ws[..n][j] == ws[j];
  }

  /** A batch leaves a watch exact if and only if no other watch under its id sends for it. */
  lemma ReceiveKeepsExactIff(s: State, st: Stream, capacity: nat, i: nat)
    requires !IsLagging(s, st, capacity) && st.cursor < |s.history| && i < |st.watches| && Exact(st.out, st.watches[i])
    ensures var st' := Receive(s, st, capacity);
            |st'.watches| == |st.watches| && (Exact(st'.out, st'.watches[i]) <==> Alone(st.watches, s.history[st.cursor], i))
  {
    var b, w := s.history[st.cursor], st.watches[i];
    WireAppend(st.out, FanOut(st.watches, b), w);
    FanOutShares(st.watches, b, w.sel.id);
    SharesAlone(st.watches, b, i);
    OfferSent(w, b);
    SamePrefix(w.track.sent, Shares(st.watches, b, w.sel.id), Fresh(w, b));
  }

  // ---- exact over a whole run ------------------------------------------------------------

  /** What a move makes of a watch, if it survives. */
  function Evolve(sys: System, capacity: nat, m: Move, w: Watch): Option<Watch> {
    match m
    case CancelMove(id) => if w.sel.id == id then None else Some(w)
    case ReceiveMove =>
      if IsLagging(sys.store, sys.stream, capacity) then None
      else if sys.stream.cursor < |sys.store.history| then Some(Offer(w, sys.store.history[sys.stream.cursor]))
      else Some(w)
    case _ => Some(w)
  }

  function Follow(sys: System, capacity: nat, moves: seq<Move>, w: Watch): Option<Watch>
    decreases |moves|
  {
    if moves == [] then Some(w)
    else
      var next := Evolve(sys, capacity, moves[0], w);
      if next.None? then None else Follow(Advance(sys, capacity, moves[0]), capacity, moves[1..], next.value)
  }

  /** No create replays anything under the watch's id, and no other watch under it has a share in the batch. */
  ghost predicate Quiet(sys: System, capacity: nat, m: Move, w: Watch) {
    && (m.CreateMove? && !Rejected(sys.store, m.cr) && CreatedId(sys.stream, m.cr) == w.sel.id ==>
          DeliverAll(SelectorOf(w.sel.id, m.cr), Backlog(sys.store, m.cr)) == [])
    && (m.ReceiveMove? && !IsLagging(sys.store, sys.stream, capacity) && sys.stream.cursor < |sys.store.history| ==>
          forall i | 0 <= i < |sys.stream.watches| && sys.stream.watches[i] == w ::
            Alone(sys.stream.watches, sys.store.history[sys.stream.cursor], i))
  }

  ghost predicate Undisturbed(sys: System, capacity: nat, moves: seq<Move>, w: Watch)
    decreases |moves|
  {
    moves == [] ||
    (&& Quiet(sys, capacity, moves[0], w)
     && (Evolve(sys, capacity, moves[0], w).Some? ==>
           Undisturbed(Advance(sys, capacity, moves[0]), capacity, moves[1..], Evolve(sys, capacity, moves[0], w).value)))
  }

  ghost function Surplus(out: seq<WatchResponse>, w: Watch): int
    requires w.track.openedAt <= |out|
  {
    |EventsFor(out[w.track.openedAt..], w.sel.id)| - |w.track.sent|
  }

  lemma {:induction false} RetainOthers(ws: seq<Watch>, id: int, w: Watch)
    requires w in ws && w.sel.id != id
    ensures w in Retain(ws, id)
  {
    var n := |ws| - 1;
    if ws[n] != w {
      RetainOthers(ws[..n], id, w);
    }
  }

  lemma EvolveActive(sys: System, capacity: nat, m: Move, w: Watch)
    requires w in sys.stream.watches && Evolve(sys, capacity, m, w).Some?
    ensures Evolve(sys, capacity, m, w).value in Advance(sys, capacity, m).stream.watches
  {
    if m.CancelMove? {
      RetainOthers(sys.stream.watches, m.id, w);
    } else if m.ReceiveMove? && sys.stream.cursor < |sys.store.history| {
      var i :| 0 <= i < |sys.stream.watches| && sys.stream.watches[i] == w;
      assert Advance(sys, capacity, m).stream.watches[i] == Offer(w, sys.store.history[sys.stream.cursor]);
    }
  }

  /** What a move adds to the wire, and what of it a client attributes to the watch. */
  function Added(sys: System, capacity: nat, m: Move): seq<WatchResponse> {
    match m
    case StoreMove(_) => []
    case CreateMove(cr) =>
      var id := CreatedId(sys.stream, cr);
      if Rejected(sys.store, cr) then [Canceled(id, Compacted(sys.store.compactRevision))]
      else [Created(id, sys.store.revision)] + DeliverAll(SelectorOf(id, cr), Backlog(sys.store, cr))
    case CancelMove(id) => [Canceled(id, Requested)]
    case ProgressMove => [Progress(sys.store.revision)]
    case ReceiveMove =>
      if IsLagging(sys.store, sys.stream, capacity) then LagNotices(sys.stream.watches)
      else if sys.stream.cursor < |sys.store.history| then FanOut(sys.stream.watches, sys.store.history[sys.stream.cursor])
      else []
  }

  lemma AddedToWire(sys: System, capacity: nat, m: Move)
    ensures Advance(sys, capacity, m).stream.out == sys.stream.out + Added(sys, capacity, m)
  {
  }

  /** The events a move sends under a surviving watch's id: at least its own, and exactly those if it is quiet. */
  lemma AddedEvents(sys: System, capacity: nat, m: Move, w: Watch)
    requires w in sys.stream.watches && Evolve(sys, capacity, m, w).Some?
    ensures var own, added := Evolve(sys, capacity, m, w).value.track.sent, EventsFor(Added(sys, capacity, m), w.sel.id);
            && |own| <= |w.track.sent| + |added|
            && (Quiet(sys, capacity, m, w) ==> own == w.track.sent + added)
            && (!Quiet(sys, capacity, m, w) ==> |own| < |w.track.sent| + |added|)
  {
    if m.CreateMove? && !Rejected(sys.store, m.cr) {
      OpeningEvents(SelectorOf(CreatedId(sys.stream, m.cr), m.cr), sys.store.revision, Backlog(sys.store, m.cr), w.sel.id);
    } else if m.ReceiveMove? && sys.stream.cursor < |sys.store.history| {
      var b := sys.store.history[sys.stream.cursor];
      FanOutShares(sys.stream.watches, b, w.sel.id);
      forall i | 0 <= i < |sys.stream.watches| && sys.stream.watches[i] == w
        ensures |Shares(sys.stream.watches, b, w.sel.id)| >= |Fresh(w, b)|
        ensures |Shares(sys.stream.watches, b, w.sel.id)| == |Fresh(w, b)| ==> Shares(sys.stream.watches, b, w.sel.id) == Fresh(w, b)
        ensures Shares(sys.stream.watches, b, w.sel.id) == Fresh(w, b) <==> Alone(sys.stream.watches, b, i)
      {
        SharesAlone(sys.stream.watches, b, i);
      }
      OfferSent(w, b);
    } else {
      NoticesCarryNoEvents(Added(sys, capacity, m), w.sel.id);
    }
  }

  lemma EvolveSurplus(sys: System, capacity: nat, m: Move, w: Watch)
    requires w in sys.stream.watches && w.track.openedAt <= |sys.stream.out| && Evolve(sys, capacity, m, w).Some?
    ensures var v, out := Evolve(sys, capacity, m, w).value, Advance(sys, capacity, m).stream.out;
            && v.sel == w.sel && v.track.openedAt == w.track.openedAt <= |out|
            && Surplus(sys.stream.out, w) <= Surplus(out, v)
            && (!Quiet(sys, capacity, m, w) ==> Surplus(sys.stream.out, w) < Surplus(out, v))
            && (Quiet(sys, capacity, m, w) && Exact(sys.stream.out, w) ==> Exact(out, v))
  {
    AddedToWire(sys, capacity, m);
    AddedEvents(sys, capacity, m, w);
    WireAppend(sys.stream.out, Added(sys, capacity, m), w);
  }

  lemma {:induction false} SurplusStays(sys: System, capacity: nat, moves: seq<Move>, w: Watch)
    requires w in sys.stream.watches && w.track.openedAt <= |sys.stream.out| && Follow(sys, capacity, moves, w).Some?
    ensures var v, out := Follow(sys, capacity, moves, w).value, Play(sys, capacity, moves).stream.out;
            v.track.openedAt <= |out| && Surplus(sys.stream.out, w) <= Surplus(out, v)
    decreases |moves|
  {
    if moves != [] {
      EvolveActive(sys, capacity, moves[0], w);
      EvolveSurplus(sys, capacity, moves[0], w);
      SurplusStays(Advance(sys, capacity, moves[0]), capacity, moves[1..], Evolve(sys, capacity, moves[0], w).value);
    }
  }

  /**
   Over any run a watch that is exact stays exact if and only if no move of the run sent under its
   id what was not its own: no replay of another create, no share of another watch.
   */
  lemma {:induction false} ExactIffUndisturbed(sys: System, capacity: nat, moves: seq<Move>, w: Watch)
    requires w in sys.stream.watches && Exact(sys.stream.out, w) && Follow(sys, capacity, moves, w).Some?
    ensures var v := Follow(sys, capacity, moves, w).value;
            v in Play(sys, capacity, moves).stream.watches
            && (Exact(Play(sys, capacity, moves).stream.out, v) <==> Undisturbed(sys, capacity, moves, w))
    decreases |moves|
  {
    if moves != [] {
      var next, v := Advance(sys, capacity, moves[0]), Evolve(sys, capacity, moves[0], w).value;
      EvolveActive(sys, capacity, moves[0], w);
      EvolveSurplus(sys, capacity, moves[0], w);
      SurplusStays(next, capacity, moves[1..], v);
      FollowActive(next, capacity, moves[1..], v);
      if Quiet(sys, capacity, moves[0], w) {
        ExactIffUndisturbed(next, capacity, moves[1..], v);
      }
    }
  }

  lemma {:induction false} FollowActive(sys: System, capacity: nat, moves: seq<Move>, w: Watch)
    requires w in sys.stream.watches && Follow(sys, capacity, moves, w).Some?
    ensures Follow(sys, capacity, moves, w).value in Play(sys, capacity, moves).stream.watches
    decreases |moves|
  {
    if moves != [] {
      EvolveActive(sys, capacity, moves[0], w);
      FollowActive(Advance(sys, capacity, moves[0]), capacity, moves[1..], Evolve(sys, capacity, moves[0], w).value);
    }
  }

  /** The wire shows the events of the revisions the watch covers, and nothing else under its id. */
  ghost predicate ReadsWhatItCovers(end: System, w: Watch) {
    && w.track.openedAt <= |end.stream.out| && w.track.from <= w.deliveredThrough + 1
    && EventsFor(end.stream.out[w.track.openedAt..], w.sel.id)
       == DeliverAll(w.sel, Between(end.store.history, w.track.from, w.deliveredThrough))
  }

  lemma CoveredMeansExact(end: System, w: Watch)
    requires Tracking(end) && w in end.stream.watches
    ensures w.track.openedAt <= |end.stream.out| && w.track.from <= w.deliveredThrough + 1
    ensures ReadsWhatItCovers(end, w) <==> Exact(end.stream.out, w)
  {
    var i :| 0 <= i < |end.stream.watches| && end.stream.watches[i] == w;
    assert Covers(end.store.history, end.stream.cursor, end.stream.watches[i]);
  }

  function Newest(st: Stream): Watch
    requires st.watches != []
  {
    st.watches[|st.watches| - 1]
  }

  /**
   From a new store, over any run before and after its create, and whatever ids are in use: an
   active watch reads exactly what it covers if and only if nothing else was sent under its id.
   */
  lemma WireExactIff(steps: seq<Step>, capacity: nat, before: seq<Move>, cr: CreateRequest, after: seq<Move>)
    requires !Rejected(Play(Subscribe(Run(INITIAL, steps)), capacity, before).store, cr)
    requires var made := Advance(Play(Subscribe(Run(INITIAL, steps)), capacity, before), capacity, CreateMove(cr));
             Follow(made, capacity, after, Newest(made.stream)).Some?
    ensures var made := Advance(Play(Subscribe(Run(INITIAL, steps)), capacity, before), capacity, CreateMove(cr));
            var w := Follow(made, capacity, after, Newest(made.stream)).value;
            && w in Play(made, capacity, after).stream.watches
            && (ReadsWhatItCovers(Play(made, capacity, after), w) <==> Undisturbed(made, capacity, after, Newest(made.stream)))
  {
    RunKeeps(INITIAL, steps);
    var mid := Play(Subscribe(Run(INITIAL, steps)), capacity, before);
    PlayTracks(Subscribe(Run(INITIAL, steps)), capacity, before);
    FromCreate(mid, capacity, cr, after);
  }

  lemma FromCreate(mid: System, capacity: nat, cr: CreateRequest, after: seq<Move>)
    requires Tracking(mid) && !Rejected(mid.store, cr)
    requires var made := Advance(mid, capacity, CreateMove(cr)); Follow(made, capacity, after, Newest(made.stream)).Some?
    ensures var made := Advance(mid, capacity, CreateMove(cr));
            var w := Follow(made, capacity, after, Newest(made.stream)).value;
            && w in Play(made, capacity, after).stream.watches
            && (ReadsWhatItCovers(Play(made, capacity, after), w) <==> Undisturbed(made, capacity, after, Newest(made.stream)))
  {
    var made := Advance(mid, capacity, CreateMove(cr));
    var w := Newest(made.stream);
    AdvanceTracks(mid, capacity, CreateMove(cr));
    PlayTracks(made, capacity, after);
    CreatedExact(mid.store, mid.stream, cr);
    ExactIffUndisturbed(made, capacity, after, w);
    CoveredMeansExact(Play(made, capacity, after), Follow(made, capacity, after, w).value);
  }

  // ---- a run that fails -----------------------------------------------------------------------

  /**
   The server draws an id without looking at the ids in use. A client that names 1 and then
   leaves one id to the server has two watches under 1, and reads each event twice.
   */
  lemma DrawnIdCollides(key: Bytes, value: Bytes, capacity: nat)
    requires capacity > 0
    ensures var end := Play(Subscribe(INITIAL), capacity, CollidingMoves(key, value));
            && |end.stream.watches| == 2 && end.stream.watches[0].sel.id == end.stream.watches[1].sel.id == 1
            && !ReadsWhatItCovers(end, end.stream.watches[0])
  {
    CollidingEnd(key, value, capacity);
    InitialTracks(capacity, CollidingMoves(key, value));
    var end := Play(Subscribe(INITIAL), capacity, CollidingMoves(key, value));
    CoveredMeansExact(end, end.stream.watches[0]);
  }

  lemma InitialTracks(capacity: nat, moves: seq<Move>)
    ensures Tracking(Play(Subscribe(INITIAL), capacity, moves))
  {
    PlayTracks(Subscribe(INITIAL), capacity, moves);
  }

  /** Create with id 1, create with id 0, a put, and the stream reads it. */
  function CollidingMoves(key: Bytes, value: Bytes): seq<Move> {
    var one := CreateRequest(1, key, [], 0, false, []);
    var put := Call(PutOp(PutRequest(key, value, 0, false, false, false)));
    [CreateMove(one), CreateMove(one.(watchId := 0)), StoreMove(put), ReceiveMove]
  }

  lemma CollidingEnd(key: Bytes, value: Bytes, capacity: nat)
    requires capacity > 0
    ensures var st := Play(Subscribe(INITIAL), capacity, CollidingMoves(key, value)).stream;
            |st.watches| == 2 && st.watches[0].sel.id == st.watches[1].sel.id == 1 && !Exact(st.out, st.watches[0])
  {
    var one := CreateRequest(1, key, [], 0, false, []);
    FourMoves(Subscribe(INITIAL), capacity, CollidingMoves(key, value));
    CollidingWatches(one);
    CollidingReceive(SelectorOf(1, one), PutRequest(key, value, 0, false, false, false), capacity);
  }

  lemma FourMoves(sys: System, capacity: nat, moves: seq<Move>)
    requires |moves| == 4
    ensures Play(sys, capacity, moves)
         == Advance(Advance(Advance(Advance(sys, capacity, moves[0]), capacity, moves[1]), capacity, moves[2]), capacity, moves[3])
  {
    var s1 := Advance(sys, capacity, moves[0]);
    var s2 := Advance(s1, capacity, moves[1]);
    var s3 := Advance(s2, capacity, moves[2]);
    assert Play(s3, capacity, moves[3..]) == Play(Advance(s3, capacity, moves[3]), capacity, []);
    assert moves[2..][1..] == moves[3..];
    assert Play(s2, capacity, moves[2..]) == Play(s3, capacity, moves[3..]);
    assert moves[1..][1..] == moves[2..];
    assert Play(s1, capacity, moves[1..]) == Play(s2, capacity, moves[2..]);
  }

  /** Two watches under id 1, opened one after the other on a new store. */
  function Colliding(sel: Selector): Stream {
    Stream([Watch(sel, 1, Track(2, [], 1)), Watch(sel, 1, Track(2, [], 2))], 2, 0, [Created(1, 1), Created(1, 1)])
  }

  lemma CollidingWatches(one: CreateRequest)
    requires one.watchId == 1 && one.startRevision == 0 && one.filters == []
    ensures Create(INITIAL, Create(INITIAL, Subscribe(INITIAL).stream, one), one.(watchId := 0))
         == Colliding(SelectorOf(1, one))
  {
  }

  lemma CollidingReceive(sel: Selector, p: PutRequest, capacity: nat)
    requires capacity > 0 && sel.id == 1 && sel.key == p.key && sel.rangeEnd == [] && !sel.noPut
    ensures var st := Receive(Put(INITIAL, p), Colliding(sel), capacity);
            && |st.watches| == 2 && st.watches[0].sel == st.watches[1].sel == sel
            && !Exact(st.out, st.watches[0])
  {
    var st := Colliding(sel);
    var first := st.watches[0];
    NoticesCarryNoEvents(st.out[1..], 1);
    assert Exact(st.out, first);
    PutDelivered(sel, p);
    ReceiveKeepsExactIff(Put(INITIAL, p), st, capacity, 0);
    assert Fresh(st.watches[1], Put(INITIAL, p).history[0]) != [];
  }

  lemma PutDelivered(sel: Selector, p: PutRequest)
    requires sel.key == p.key && sel.rangeEnd == [] && !sel.noPut
    ensures |Put(INITIAL, p).history| == 1 && Put(INITIAL, p).history[0].revision == 2
    ensures Deliver(sel, Put(INITIAL, p).history[0]) != []
  {
    var es := Put(INITIAL, p).history[0].events;
    assert Matches(sel, es[0]);
    assert Matched(sel, es) == Matched(sel, es[..0]) + [OnWire(sel, es[0])];
  }
}
