/** What a client is told about the fate of its watches: created, refused, cancelled or fallen behind. */
module WatchNotices {
  import opened StoreModel
  import opened History
  import opened Runs
  import opened WatchModel
  import opened WatchProofs
  import opened WatchIds

  // ---- creating -------------------------------------------------------------------------

  /** A create is refused exactly when its start is compacted; it is told which, under the id it would have had. */
  lemma CreateAnswers(s: State, st: Stream, cr: CreateRequest)
    ensures var st', id := Create(s, st, cr), if cr.watchId != 0 then cr.watchId else st.nextWatchId;
            && st'.nextWatchId == st.nextWatchId + (if cr.watchId == 0 then 1 else 0)
            && (0 < cr.startRevision <= s.compactRevision ==>
                  st'.watches == st.watches && st'.out == st.out + [Canceled(id, Compacted(s.compactRevision))])
            && (!(0 < cr.startRevision <= s.compactRevision) ==>
                  && st.out + [Created(id, s.revision)] <= st'.out
                  && |st'.watches| == |st.watches| + 1 && st'.watches[..|st.watches|] == st.watches
                  && var w := st'.watches[|st.watches|];
                     && w.sel.id == id && w.sel.key == cr.key && w.sel.rangeEnd == cr.rangeEnd && w.sel.prevKv == cr.prevKv
                     && (w.sel.noPut <==> exists i | 0 <= i < |cr.filters| :: cr.filters[i] % 32 == 0)
                     && (w.sel.noDelete <==> exists i | 0 <= i < |cr.filters| :: cr.filters[i] % 32 == 1)
                     && w.deliveredThrough == s.revision && w.track.openedAt == |st.out| + 1)
  {
  }

  lemma LogHolds(s: State, rev: int)
    requires Consistent(s) && LogExact(s) && 2 <= rev <= s.revision
    ensures (exists b | b in s.log :: b.revision == rev) <==> rev > AtLeastOne(s.compactRevision)
  {
    var h, d := s.history, Clamp(AtLeastOne(s.compactRevision) - 1, |s.history|);
    forall i | 0 <= i < |s.log|
      ensures s.log[i].revision == d + i + 2
    {
      assert s.log[i] == h[d + i];
      Dense(h, d + i);
    }
    if rev > AtLeastOne(s.compactRevision) {
      assert s.log[rev - 2 - d] in s.log;
    }
  }

  /** While compactions stay within the history, a create is refused exactly when the log lacks its first batch. */
  lemma RefusedIffDropped(s: State, cr: CreateRequest)
    requires Consistent(s) && LogExact(s) && 2 <= cr.startRevision <= s.revision
    ensures Rejected(s, cr) <==> !exists b | b in s.log :: b.revision == cr.startRevision
  {
    LogHolds(s, cr.startRevision);
  }

  // ---- losing a watch ----------------------------------------------------------------------

  /** A stream that fell behind tells every watch so, in order, and keeps none. */
  lemma LagAnswers(s: State, st: Stream, capacity: nat)
    requires IsLagging(s, st, capacity)
    ensures var st' := Receive(s, st, capacity);
            && st'.watches == [] && |st'.out| == |st.out| + |st.watches| && st.out <= st'.out
            && forall i | 0 <= i < |st.watches| :: st'.out[|st.out| + i] == Canceled(st.watches[i].sel.id, Lagged)
  {
  }

  lemma {:induction false} RetainDrops(ws: seq<Watch>, id: int)
    ensures forall i | 0 <= i < |Retain(ws, id)| :: Retain(ws, id)[i].sel.id != id
  {
    if ws != [] {
      RetainDrops(ws[..|ws| - 1], id);
    }
  }

  /** A cancel takes every watch under the id, no other, and is confirmed. */
  lemma CancelAnswers(st: Stream, id: int, w: Watch)
    ensures Cancel(st, id).out == st.out + [Canceled(id, Requested)]
    ensures w in Cancel(st, id).watches <==> w in st.watches && w.sel.id != id
  {
    RetainDrops(st.watches, id);
    RetainSubset(st.watches, id);
    if w in Retain(st.watches, id) {
      var i :| 0 <= i < |Retain(st.watches, id)| && Retain(st.watches, id)[i] == w;
    }
    if w in st.watches && w.sel.id != id {
      RetainOthers(st.watches, id, w);
    }
  }

  /** A notice for the watch's id, sent since position `from`: asked for, or fallen behind. */
  ghost predicate ToldSince(out: seq<WatchResponse>, from: nat, id: int) {
    exists j | from <= j < |out| :: out[j] == Canceled(id, Requested) || out[j] == Canceled(id, Lagged)
  }

  lemma EvolveTold(sys: System, capacity: nat, m: Move, w: Watch)
    requires w in sys.stream.watches && Evolve(sys, capacity, m, w).None?
    ensures ToldSince(Advance(sys, capacity, m).stream.out, |sys.stream.out|, w.sel.id)
  {
    var st, out := sys.stream, Advance(sys, capacity, m).stream.out;
    if m.CancelMove? {
      assert out[|st.out|] == Canceled(w.sel.id, Requested);
    } else {
      LagAnswers(sys.store, st, capacity);
      var i :| 0 <= i < |st.watches| && st.watches[i] == w;
      assert out[|st.out| + i] == Canceled(w.sel.id, Lagged);
    }
  }

  lemma {:induction false} PlayOutGrows(sys: System, capacity: nat, moves: seq<Move>)
    ensures sys.stream.out <= Play(sys, capacity, moves).stream.out
    decreases |moves|
  {
    if moves != [] {
      OutGrows(sys, capacity, moves[0]);
      PlayOutGrows(Advance(sys, capacity, moves[0]), capacity, moves[1..]);
    }
  }

  lemma {:induction false} FollowTold(sys: System, capacity: nat, moves: seq<Move>, w: Watch)
    requires w in sys.stream.watches && Follow(sys, capacity, moves, w).None?
    ensures ToldSince(Play(sys, capacity, moves).stream.out, |sys.stream.out|, w.sel.id)
    decreases |moves|
  {
    var next := Advance(sys, capacity, moves[0]);
    var v := Evolve(sys, capacity, moves[0], w);
    OutGrows(sys, capacity, moves[0]);
    PlayOutGrows(next, capacity, moves[1..]);
    if v.None? {
      EvolveTold(sys, capacity, moves[0], w);
      ToldLater(next.stream.out, Play(sys, capacity, moves).stream.out, |sys.stream.out|, |sys.stream.out|, w.sel.id);
    } else {
      EvolveActive(sys, capacity, moves[0], w);
      FollowTold(next, capacity, moves[1..], v.value);
      var out := Play(sys, capacity, moves).stream.out;
      ToldLater(out, out, |next.stream.out|, |sys.stream.out|, w.sel.id);
    }
  }

  lemma ToldLater(out: seq<WatchResponse>, more: seq<WatchResponse>, from: nat, since: nat, id: int)
    requires ToldSince(out, from, id) && out <= more && since <= from
    ensures ToldSince(more, since, id)
  {
    var j :| from <= j < |out| && (out[j] == Canceled(id, Requested) || out[j] == Canceled(id, Lagged));
    assert more[j] == out[j];
  }

  lemma {:induction false} FollowKeepsOpening(sys: System, capacity: nat, moves: seq<Move>, w: Watch)
    ensures Follow(sys, capacity, moves, w).Some? ==> Follow(sys, capacity, moves, w).value.track.openedAt == w.track.openedAt
    decreases |moves|
  {
    if moves != [] && Evolve(sys, capacity, moves[0], w).Some? {
      FollowKeepsOpening(Advance(sys, capacity, moves[0]), capacity, moves[1..], Evolve(sys, capacity, moves[0], w).value);
    }
  }

  /**
   No watch ends in silence. Over any run, a watch that was active and of which no later state is
   active any more has had a cancel notice under its id since.
   */
  lemma LostWatchIsTold(sys: System, capacity: nat, moves: seq<Move>, w: Watch)
    requires w in sys.stream.watches
    requires forall v | v in Play(sys, capacity, moves).stream.watches :: v.track.openedAt != w.track.openedAt
    ensures ToldSince(Play(sys, capacity, moves).stream.out, |sys.stream.out|, w.sel.id)
  {
    if Follow(sys, capacity, moves, w).Some? {
      FollowActive(sys, capacity, moves, w);
      FollowKeepsOpening(sys, capacity, moves, w);
    } else {
      FollowTold(sys, capacity, moves, w);
    }
  }
}
