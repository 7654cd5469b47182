/** The task behind one watch stream, as its select loop updates it. */
module WatchTask {
  import opened StoreModel
  import opened WatchModel
  import opened EtcdStore

  datatype Handle = Handle(sel: Selector, deliveredThrough: int)

  ghost function Join(handles: seq<Handle>, tracks: seq<Track>): (ws: seq<Watch>)
    requires |handles| == |tracks|
  {
    seq(|handles|, i requires 0 <= i < |handles| => Watch(handles[i].sel, handles[i].deliveredThrough, tracks[i]))
  }

  ghost function RetainTracks(handles: seq<Handle>, tracks: seq<Track>, id: int): seq<Track>
    requires |handles| == |tracks|
  {
    if handles == [] then []
    else
      var n := |handles| - 1;
      RetainTracks(handles[..n], tracks[..n], id) + if handles[n].sel.id != id then [tracks[n]] else []
  }

  /** `Vec::retain` on the handles. */
  function RetainHandles(handles: seq<Handle>, id: int): seq<Handle> {
    if handles == [] then []
    else
      var n := |handles| - 1;
      RetainHandles(handles[..n], id) + if handles[n].sel.id != id then [handles[n]] else []
  }

  lemma {:induction false} RetainJoined(handles: seq<Handle>, tracks: seq<Track>, id: int)
    requires |handles| == |tracks|
    ensures |RetainHandles(handles, id)| == |RetainTracks(handles, tracks, id)|
    ensures Join(RetainHandles(handles, id), RetainTracks(handles, tracks, id)) == Retain(Join(handles, tracks), id)
  {
    if handles != [] {
      var n := |handles| - 1;
      RetainJoined(handles[..n], tracks[..n], id);
      assert Join(handles, tracks)[..n] == Join(handles[..n], tracks[..n]);
      var hs, ts := RetainHandles(handles[..n], id), RetainTracks(handles[..n], tracks[..n], id);
      assert Join(hs + [handles[n]], ts + [tracks[n]]) == Join(hs, ts) + [Join(handles, tracks)[n]];
      assert hs + [] == hs && ts + [] == ts;
    }
  }

  lemma DeliverUpTo(sel: Selector, bs: seq<Batch>, i: nat)
    requires i < |bs|
    ensures DeliverAll(sel, bs[..i + 1]) == DeliverAll(sel, bs[..i]) + Deliver(sel, bs[i])
  {
    assert bs[..i + 1][..i] == bs[..i];
  }

  lemma FanOutNext(ws: seq<Watch>, b: Batch, i: nat)
    requires i < |ws|
    ensures FanOut(ws[..i + 1], b) == FanOut(ws[..i], b) + Fresh(ws[i], b)
  {
    assert ws[..i + 1][..i] == ws[..i];
  }

  class Task {
    const store: Store
    var handles: seq<Handle>
    var nextWatchId: int
    var out: seq<WatchResponse>
    ghost var cursor: nat
    ghost var tracks: seq<Track>

    ghost predicate Shaped()
      reads this
    {
      |handles| == |tracks|
    }

    ghost function View(): Stream
      requires Shaped()
      reads this
    {
      Stream(Join(handles, tracks), nextWatchId, cursor, out)
    }

    constructor (store: Store)
      ensures this.store == store && Shaped() && System(store.View(), View()) == Subscribe(store.View())
    {
      this.store := store;
      handles, nextWatchId, out, tracks := [], 1, [], [];
      cursor := |store.history|;
      new;
      assert Join(handles, tracks) == [];
    }

    /** Send the matching events of one batch, if there are any. */
    method Send(sel: Selector, b: Batch)
      requires Shaped()
      modifies this`out
      ensures out == old(out) + Deliver(sel, b)
    {
      var matched := Matched(sel, b.events);
      if matched != [] {
        out := out + [Events(sel.id, b.revision, matched)];
      }
    }

    method OnCreate(cr: CreateRequest)
      requires Shaped()
      modifies this
      ensures Shaped() && View() == Create(store.View(), old(View()), cr)
    {
      ghost var start := StartOf(store.View(), cr);
      ghost var openedAt := |out| + 1;
      var id := cr.watchId;
      if cr.watchId == 0 {
        id := nextWatchId;
        nextWatchId := nextWatchId + 1;
      }
      var backlog := if cr.startRevision > 0 then After(store.log, cr.startRevision - 1) else [];
      var current := store.revision;
      if 0 < cr.startRevision <= store.compactRevision {
        out := out + [Canceled(id, Compacted(store.compactRevision))];
        return;
      }
      var sel := Selector(
        id, cr.key, cr.rangeEnd, cr.prevKv, HasFilter(cr.filters, 0), HasFilter(cr.filters, 1));
      out := out + [Created(id, current)];
      Replay(sel, backlog);
      ghost var before := Join(handles, tracks);
      handles := handles + [Handle(sel, current)];
      tracks := tracks + [Track(start, DeliverAll(sel, backlog), openedAt)];
      assert Join(handles, tracks) == before + [Watch(sel, current, tracks[|tracks| - 1])];
    }

    method Replay(sel: Selector, backlog: seq<Batch>)
      requires Shaped()
      modifies this`out
      ensures out == old(out) + DeliverAll(sel, backlog)
    {
      for i := 0 to |backlog|
        invariant out == old(out) + DeliverAll(sel, backlog[..i])
      {
        DeliverUpTo(sel, backlog, i);
        Send(sel, backlog[i]);
      }
      assert backlog[..|backlog|] == backlog;
    }

    method OnCancel(id: int)
      requires Shaped()
      modifies this
      ensures Shaped() && View() == Cancel(old(View()), id)
    {
      RetainJoined(handles, tracks, id);
      tracks := RetainTracks(handles, tracks, id);
      handles := RetainHandles(handles, id);
      out := out + [Canceled(id, Requested)];
    }

    method OnProgress()
      requires Shaped()
      modifies this`out
      ensures Shaped() && View() == ReportProgress(store.View(), old(View()))
    {
      out := out + [Progress(store.revision)];
    }

    /** One handle's share of a batch. */
    method Forward(i: nat, b: Batch)
      requires Shaped() && i < |handles|
      modifies this`handles, this`tracks, this`out
      ensures Shaped()
      ensures Join(handles, tracks) == old(Join(handles, tracks))[i := Offer(old(Join(handles, tracks)[i]), b)]
      ensures out == old(out) + Fresh(old(Join(handles, tracks)[i]), b)
    {
      var h := handles[i];
      if b.revision > h.deliveredThrough {
        handles := handles[i := h.(deliveredThrough := b.revision)];
        tracks := tracks[i := tracks[i].(sent := tracks[i].sent + Deliver(h.sel, b))];
        Send(h.sel, b);
      }
    }

    /** The channel handed over the next batch: fan it out to the handles that still need it. */
    method OnBatch(b: Batch, ghost capacity: nat)
      requires Shaped() && cursor < |store.history| && b == store.history[cursor]
      requires !IsLagging(store.View(), View(), capacity)
      modifies this
      ensures Shaped() && View() == Receive(store.View(), old(View()), capacity)
    {
      ghost var ws := Join(handles, tracks);
      cursor := cursor + 1;
      for i := 0 to |handles|
        invariant Shaped() && |handles| == |ws|
        invariant nextWatchId == old(nextWatchId) && cursor == old(cursor) + 1
        invariant forall j | 0 <= j < |ws| :: Join(handles, tracks)[j] == if j < i then Offer(ws[j], b) else ws[j]
        invariant out == old(out) + FanOut(ws[..i], b)
      {
        FanOutNext(ws, b, i);
        Forward(i, b);
      }
      assert ws[..|ws|] == ws;
      assert Join(handles, tracks) == OfferAll(ws, b);
    }

    /** The channel overwrote unread batches: cancel every watch rather than skip any event. */
    method OnLagged(ghost capacity: nat)
      requires Shaped() && IsLagging(store.View(), View(), capacity)
      modifies this
      ensures Shaped() && View() == Receive(store.View(), old(View()), capacity)
    {
      ghost var ws := Join(handles, tracks);
      for i := 0 to |handles|
        invariant handles == old(handles) && tracks == old(tracks) && cursor == old(cursor)
        invariant nextWatchId == old(nextWatchId)
        invariant out == old(out) + LagNotices(ws)[..i]
      {
        out := out + [Canceled(handles[i].sel.id, Lagged)];
      }
      handles, tracks := [], [];
      cursor := |store.history| - capacity;
      assert Join(handles, tracks) == [];
    }
  }
}
