/**
 One watch stream against the store: log replay joined to a bounded, lossy broadcast channel.
 The channel is a cursor into the history; only the last `capacity` batches are retained.
 */
module WatchModel {
  import opened ByteOrder
  import opened Options
  import opened StoreModel
  import opened History
  import opened Runs

  // ---- what a watch selects ------------------------------------------------------

  datatype Selector = Selector(id: int, key: Bytes, rangeEnd: Bytes, prevKv: bool, noPut: bool, noDelete: bool)

  predicate Matches(sel: Selector, e: Event) {
    && !(sel.noPut && e.kind == PUT)
    && !(sel.noDelete && e.kind == DELETE)
    && InRange(e.kv.key, sel.key, sel.rangeEnd)
  }

  function OnWire(sel: Selector, e: Event): Event {
    if sel.prevKv then e else e.(prevKv := None)
  }

  function Matched(sel: Selector, es: seq<Event>): seq<Event> {
    if es == [] then []
    else
      var n := |es| - 1;
      Matched(sel, es[..n]) + if Matches(sel, es[n]) then [OnWire(sel, es[n])] else []
  }

  datatype Reason = Requested | Compacted(rev: int) | Lagged

  datatype WatchResponse =
    | Created(id: int, revision: int)
    | Events(id: int, revision: int, events: seq<Event>)
    | Canceled(id: int, reason: Reason)
    | Progress(revision: int)

  /** A batch with no matching event sends nothing. */
  function Deliver(sel: Selector, b: Batch): seq<WatchResponse> {
    var matched := Matched(sel, b.events);
    if matched == [] then [] else [Events(sel.id, b.revision, matched)]
  }

  function DeliverAll(sel: Selector, bs: seq<Batch>): seq<WatchResponse> {
    if bs == [] then [] else DeliverAll(sel, bs[..|bs| - 1]) + Deliver(sel, bs[|bs| - 1])
  }

  // ---- the stream ------------------------------------------------------------------

  /** `from`, `sent` and `openedAt` are history variables: no step reads them. */
  datatype Track = Track(from: int, sent: seq<WatchResponse>, openedAt: nat)

  datatype Watch = Watch(sel: Selector, deliveredThrough: int, track: Track)

  datatype Stream = Stream(watches: seq<Watch>, nextWatchId: int, cursor: nat, out: seq<WatchResponse>)

  datatype CreateRequest = CreateRequest(
    watchId: int, key: Bytes, rangeEnd: Bytes, startRevision: int, prevKv: bool, filters: seq<int>)

  /** `1 << f` keeps the low five bits of the shift, so filter codes count modulo 32. */
  predicate HasFilter(filters: seq<int>, bit: int) {
    exists i | 0 <= i < |filters| :: filters[i] % 32 == bit
  }

  function CreatedId(st: Stream, cr: CreateRequest): int {
    if cr.watchId != 0 then cr.watchId else st.nextWatchId
  }

  function SelectorOf(id: int, cr: CreateRequest): Selector {
    Selector(id, cr.key, cr.rangeEnd, cr.prevKv, HasFilter(cr.filters, 0), HasFilter(cr.filters, 1))
  }

  /** First revision a new watch is responsible for. */
  function StartOf(s: State, cr: CreateRequest): int {
    if 0 < cr.startRevision <= s.revision then cr.startRevision else s.revision + 1
  }

  predicate Rejected(s: State, cr: CreateRequest) {
    0 < cr.startRevision <= s.compactRevision
  }

  function Backlog(s: State, cr: CreateRequest): seq<Batch> {
    if cr.startRevision > 0 then EventsSince(s, cr.startRevision - 1) else []
  }

  function Create(s: State, st: Stream, cr: CreateRequest): Stream {
    var id := CreatedId(st, cr);
    var next := if cr.watchId != 0 then st.nextWatchId else st.nextWatchId + 1;
    if Rejected(s, cr) then
      st.(nextWatchId := next, out := st.out + [Canceled(id, Compacted(s.compactRevision))])
    else
      var sel := SelectorOf(id, cr);
      var sent := DeliverAll(sel, Backlog(s, cr));
      st.(nextWatchId := next,
      out := st.out + [Created(id, s.revision)] + sent,
      watches := st.watches + [Watch(sel, s.revision, Track(StartOf(s, cr), sent, |st.out| + 1))])
  }

  function Retain(ws: seq<Watch>, id: int): seq<Watch> {
    if ws == [] then []
    else Retain(ws[..|ws| - 1], id) + if ws[|ws| - 1].sel.id != id then [ws[|ws| - 1]] else []
  }

  function Cancel(st: Stream, id: int): Stream {
    st.(watches := Retain(st.watches, id), out := st.out + [Canceled(id, Requested)])
  }

  function ReportProgress(s: State, st: Stream): Stream {
    st.(out := st.out + [Progress(s.revision)])
  }

  /** Revisions already covered by the replay are skipped. */
  function Fresh(w: Watch, b: Batch): seq<WatchResponse> {
    if b.revision <= w.deliveredThrough then [] else Deliver(w.sel, b)
  }

  function Offer(w: Watch, b: Batch): Watch {
    if b.revision <= w.deliveredThrough then w
    else w.(deliveredThrough := b.revision, track := w.track.(sent := w.track.sent + Deliver(w.sel, b)))
  }

  function OfferAll(ws: seq<Watch>, b: Batch): (r: seq<Watch>) {
    seq(|ws|, i requires 0 <= i < |ws| => Offer(ws[i], b))
  }

  function FanOut(ws: seq<Watch>, b: Batch): seq<WatchResponse> {
    if ws == [] then [] else FanOut(ws[..|ws| - 1], b) + Fresh(ws[|ws| - 1], b)
  }

  function LagNotices(ws: seq<Watch>): seq<WatchResponse> {
    seq(|ws|, i requires 0 <= i < |ws| => Canceled(ws[i].sel.id, Lagged))
  }

  /** The channel overwrote a batch this stream had not read. */
  predicate IsLagging(s: State, st: Stream, capacity: nat) {
    |s.history| - st.cursor > capacity
  }

  function Receive(s: State, st: Stream, capacity: nat): Stream {
    if IsLagging(s, st, capacity) then
      st.(cursor := |s.history| - capacity, watches := [], out := st.out + LagNotices(st.watches))
    else if st.cursor < |s.history| then
      var b := s.history[st.cursor];
      st.(cursor := st.cursor + 1, watches := OfferAll(st.watches, b), out := st.out + FanOut(st.watches, b))
    else st
  }

  // ---- the stream and the store together ------------------------------------------------

  datatype System = System(store: State, stream: Stream)

  datatype Move =
    | StoreMove(step: Step)
    | CreateMove(cr: CreateRequest)
    | CancelMove(id: int)
    | ProgressMove
    | ReceiveMove

  function Subscribe(s: State): System {
    System(s, Stream([], 1, |s.history|, []))
  }

  function Advance(sys: System, capacity: nat, m: Move): System {
    match m
    case StoreMove(step) => sys.(store := Next(sys.store, step))
    case CreateMove(cr) => sys.(stream := Create(sys.store, sys.stream, cr))
    case CancelMove(id) => sys.(stream := Cancel(sys.stream, id))
    case ProgressMove => sys.(stream := ReportProgress(sys.store, sys.stream))
    case ReceiveMove => sys.(stream := Receive(sys.store, sys.stream, capacity))
  }

  function Play(sys: System, capacity: nat, moves: seq<Move>): System
    decreases |moves|
  {
    if moves == [] then sys else Play(Advance(sys, capacity, moves[0]), capacity, moves[1..])
  }

  // ---- no gap, no duplicate --------------------------------------------------------------

  /** The batches with revisions `from` to `through`. */
  function Between(h: seq<Batch>, from: int, through: int): seq<Batch>
    requires from <= through + 1
  {
    h[Clamp(from - 2, |h|)..Clamp(through - 1, |h|)]
  }

  ghost predicate Covers(h: seq<Batch>, cursor: nat, w: Watch) {
    && cursor + 1 <= w.deliveredThrough <= |h| + 1
    && w.track.from <= w.deliveredThrough + 1
    && w.track.sent == DeliverAll(w.sel, Between(h, w.track.from, w.deliveredThrough))
  }

  /** Every active watch has been sent each matching batch of its revisions once and in order. */
  ghost predicate Tracking(sys: System) {
    && Consistent(sys.store)
    && sys.stream.cursor <= |sys.store.history|
    && forall i | 0 <= i < |sys.stream.watches| ::
         && Covers(sys.store.history, sys.stream.cursor, sys.stream.watches[i])
         && sys.stream.watches[i].track.openedAt <= |sys.stream.out|
  }

  lemma BetweenGrows(h: seq<Batch>, h': seq<Batch>, from: int, through: int)
    requires h <= h' && from <= through + 1 && through <= |h| + 1
    ensures Between(h, from, through) == Between(h', from, through)
  {
  }

  lemma WholeSuffix<T>(h: seq<T>, lo: nat)
    requires lo <= |h|
    ensures h[lo..] == h[lo..|h|] && h[|h|..|h|] == []
  {
  }

  /** The replay is everything from the start revision through the current one. */
  lemma BacklogCovers(s: State, cr: CreateRequest)
    requires Consistent(s) && !Rejected(s, cr)
    ensures Backlog(s, cr) == Between(s.history, StartOf(s, cr), s.revision)
  {
    var h := s.history;
    if cr.startRevision > 0 {
      LogCovers(s, cr.startRevision - 1);
      WholeSuffix(h, Clamp(cr.startRevision - 2, |h|));
    }
  }

  lemma CreateTracks(sys: System, cr: CreateRequest)
    requires Tracking(sys)
    ensures Tracking(sys.(stream := Create(sys.store, sys.stream, cr)))
  {
    var s, st := sys.store, sys.stream;
    if !Rejected(s, cr) {
      BacklogCovers(s, cr);
      var st' := Create(s, st, cr);
      forall i | 0 <= i < |st'.watches|
        ensures Covers(s.history, st'.cursor, st'.watches[i]) && st'.watches[i].track.openedAt <= |st'.out|
      {
        if i < |st.watches| {
          assert st'.watches[i] == st.watches[i];
        }
      }
    }
  }

  lemma OfferTracks(h: seq<Batch>, cursor: nat, w: Watch)
    requires cursor < |h| && h[cursor].revision == cursor + 2 && Covers(h, cursor, w)
    ensures Covers(h, cursor + 1, Offer(w, h[cursor]))
  {
    var b := h[cursor];
    if b.revision > w.deliveredThrough {
      BetweenNext(h, w.track.from, cursor);
      DeliverNext(w.sel, Between(h, w.track.from, w.deliveredThrough), b);
    }
  }

  lemma BetweenNext(h: seq<Batch>, from: int, i: nat)
    requires i < |h| && from <= i + 2
    ensures Between(h, from, i + 2) == Between(h, from, i + 1) + [h[i]]
  {
  }

  lemma DeliverNext(sel: Selector, bs: seq<Batch>, b: Batch)
    ensures DeliverAll(sel, bs + [b]) == DeliverAll(sel, bs) + Deliver(sel, b)
  {
    assert (bs + [b])[..|bs|] == bs;
  }

  lemma ReceiveTracks(sys: System, capacity: nat)
    requires Tracking(sys)
    ensures Tracking(sys.(stream := Receive(sys.store, sys.stream, capacity)))
  {
    var h, st := sys.store.history, sys.stream;
    if !IsLagging(sys.store, st, capacity) && st.cursor < |h| {
      var b := h[st.cursor];
      Dense(h, st.cursor);
      forall i | 0 <= i < |st.watches|
        ensures Covers(h, st.cursor + 1, OfferAll(st.watches, b)[i])
        ensures OfferAll(st.watches, b)[i].track.openedAt <= |st.out|
      {
        OfferTracks(h, st.cursor, st.watches[i]);
      }
    }
  }

  lemma {:induction false} RetainSubset(ws: seq<Watch>, id: int)
    ensures forall i | 0 <= i < |Retain(ws, id)| :: Retain(ws, id)[i] in ws && Retain(ws, id)[i].sel.id != id
  {
    if ws != [] {
      RetainSubset(ws[..|ws| - 1], id);
      var r := Retain(ws, id);
      forall i | 0 <= i < |r|
        ensures r[i] in ws && r[i].sel.id != id
      {
        if i < |Retain(ws[..|ws| - 1], id)| {
          assert r[i] in ws[..|ws| - 1];
        }
      }
    }
  }

  lemma StoreTracks(sys: System, step: Step)
    requires Tracking(sys)
    ensures Tracking(sys.(store := Next(sys.store, step)))
  {
    StepKeeps(sys.store, step);
    var h, h' := sys.store.history, Next(sys.store, step).history;
    forall i | 0 <= i < |sys.stream.watches|
      ensures Covers(h', sys.stream.cursor, sys.stream.watches[i])
    {
      var w := sys.stream.watches[i];
      BetweenGrows(h, h', w.track.from, w.deliveredThrough);
    }
  }

  lemma AdvanceTracks(sys: System, capacity: nat, m: Move)
    requires Tracking(sys)
    ensures Tracking(Advance(sys, capacity, m))
  {
    match m {
      case StoreMove(step) => StoreTracks(sys, step);
      case CreateMove(cr) => CreateTracks(sys, cr);
      case CancelMove(id) => RetainSubset(sys.stream.watches, id);
      case ProgressMove =>
      case ReceiveMove => ReceiveTracks(sys, capacity);
    }
  }

  /** For any capacity, any interleaving and any backlog, however late the stream reads it. */
  lemma {:induction false} PlayTracks(sys: System, capacity: nat, moves: seq<Move>)
    requires Tracking(sys)
    ensures Tracking(Play(sys, capacity, moves))
    decreases |moves|
  {
    if moves != [] {
      AdvanceTracks(sys, capacity, moves[0]);
      PlayTracks(Advance(sys, capacity, moves[0]), capacity, moves[1..]);
    }
  }
}
