/**
 Nested transactions: running one is running its primitive operations one after another, each
 branch decided by the state reached when its transaction starts.
 */
module Transactions {
  import opened StoreModel

  ghost predicate Primitives(ops: seq<Op>) {
    forall i | 0 <= i < |ops| :: !ops[i].TxnOp?
  }

  /** Primitive operations in order, up to and including the first that panics. */
  function Sequential(s: State, ops: seq<Op>): Outcomes
    decreases |ops|
  {
    if ops == [] then Outcomes(s, [])
    else
      var first := Perform(s, ops[0]);
      if first.response.Panicked? then Outcomes(first.state, [Panicked])
      else
        var rest := Sequential(first.state, ops[1..]);
        Outcomes(rest.state, [first.response] + rest.responses)
  }

  /** The primitive operations of a request, nested branches resolved as they are reached. */
  function Flatten(s: State, ops: seq<Op>): (flat: seq<Op>)
    ensures Primitives(flat)
    decreases ops
  {
    if ops == [] then []
    else
      var first := FlattenOp(s, ops[0]);
      first + Flatten(Sequential(s, first).state, ops[1..])
  }

  function FlattenOp(s: State, op: Op): (flat: seq<Op>)
    ensures Primitives(flat)
    decreases op
  {
    if op.TxnOp? then FlattenTxn(s, op.txn) else [op]
  }

  function FlattenTxn(s: State, t: TxnRequest): (flat: seq<Op>)
    ensures Primitives(flat)
    decreases t
  {
    if AllHold(s.kvs, t.compares) then Flatten(s, t.success) else Flatten(s, t.failure)
  }

  /** Responses of the primitive operations, in the order they were produced. */
  function Leaves(rs: seq<Response>): seq<Response> {
    if rs == [] then []
    else (if rs[0].TxnResponse? then Leaves(rs[0].responses) else [rs[0]]) + Leaves(rs[1..])
  }

  lemma {:induction false} SequentialConcat(s: State, a: seq<Op>, b: seq<Op>)
    ensures Sequential(s, a + b) == Continue(Sequential(s, a), b)
    decreases |a|
  {
    if a == [] {
      assert a + b == b;
      assert [] + Sequential(s, b).responses == Sequential(s, b).responses;
    } else {
      assert (a + b)[0] == a[0] && (a + b)[1..] == a[1..] + b;
      var first := Perform(s, a[0]);
      if !first.response.Panicked? {
        SequentialConcat(first.state, a[1..], b);
        ContinueCons(first.response, Sequential(first.state, a[1..]), b);
      }
    }
  }

  /** What becomes of a run when `ops` are queued behind it. */
  function Continue(done: Outcomes, ops: seq<Op>): Outcomes {
    if Unwound(done.responses) then done
    else
      var rest := Sequential(done.state, ops);
      Outcomes(rest.state, done.responses + rest.responses)
  }

  lemma ContinueCons(r: Response, done: Outcomes, ops: seq<Op>)
    requires !r.Panicked?
    ensures var more := Continue(done, ops);
            Continue(Outcomes(done.state, [r] + done.responses), ops) == Outcomes(more.state, [r] + more.responses)
  {
    UnwoundConcat([r], done.responses);
    ConsConcat(r, done.responses, Sequential(done.state, ops).responses);
  }

  lemma ConsConcat<T>(x: T, a: seq<T>, b: seq<T>)
    ensures [x] + (a + b) == ([x] + a) + b
  {
  }

  lemma {:induction false} LeavesConcat(a: seq<Response>, b: seq<Response>)
    ensures Leaves(a + b) == Leaves(a) + Leaves(b)
    decreases |a|
  {
    if a == [] {
      assert a + b == b;
    } else {
      assert (a + b)[1..] == a[1..] + b;
      LeavesConcat(a[1..], b);
    }
  }

  /** Same state, same panic, and the same answers whenever there are any. */
  lemma {:induction false} ExecIsSequential(s: State, ops: seq<Op>)
    ensures var nested, flat := ExecAll(s, ops), Sequential(s, Flatten(s, ops));
            && nested.state == flat.state
            && (Unwound(nested.responses) <==> Unwound(flat.responses))
            && (!Unwound(nested.responses) ==> Leaves(nested.responses) == flat.responses)
    decreases ops
  {
    if ops != [] {
      var first := Exec(s, ops[0]);
      var flat0 := FlattenOp(s, ops[0]);
      OpIsSequential(s, ops[0]);
      var done := Sequential(s, flat0);
      var rest := Flatten(done.state, ops[1..]);
      SequentialConcat(s, flat0, rest);
      if !first.response.Panicked? {
        ExecIsSequential(first.state, ops[1..]);
        var tail := ExecAll(first.state, ops[1..]);
        LeavesConcat([first.response], tail.responses);
        UnwoundConcat([first.response], tail.responses);
        UnwoundConcat(done.responses, Sequential(done.state, rest).responses);
      }
    }
  }

  lemma UnwoundConcat(a: seq<Response>, b: seq<Response>)
    requires !Unwound(a)
    ensures Unwound(a + b) <==> Unwound(b)
  {
    if b == [] {
      assert a + b == a;
    } else {
      assert (a + b)[|a + b| - 1] == b[|b| - 1];
    }
  }

  lemma {:induction false} OpIsSequential(s: State, op: Op)
    ensures var first, flat := Exec(s, op), Sequential(s, FlattenOp(s, op));
            && first.state == flat.state
            && (first.response.Panicked? <==> Unwound(flat.responses))
            && (!first.response.Panicked? ==> Leaves([first.response]) == flat.responses)
    decreases op
  {
    var first := Exec(s, op);
    assert [first.response][1..] == [];
    if op.TxnOp? {
      TxnIsSequential(s, op.txn);
    } else {
      assert [op][1..] == [];
      assert Sequential(s, [op]) == Outcomes(first.state, [first.response]);
    }
  }

  /** A whole transaction, as the Txn call runs it. */
  lemma {:induction false} TxnIsSequential(s: State, t: TxnRequest)
    ensures var done, flat := Txn(s, t), Sequential(s, FlattenTxn(s, t));
            && done.state == flat.state
            && (done.response.Panicked? <==> Unwound(flat.responses))
            && (!done.response.Panicked? ==>
                  && done.response.TxnResponse?
                  && done.response.succeeded == AllHold(s.kvs, t.compares)
                  && Leaves(done.response.responses) == flat.responses)
    decreases t
  {
    if AllHold(s.kvs, t.compares) {
      ExecIsSequential(s, t.success);
    } else {
      ExecIsSequential(s, t.failure);
    }
  }

  /** One answer per operation, in order, each the operation's own in the state its predecessors left. */
  lemma {:induction false} BranchAnswers(s: State, ops: seq<Op>, i: nat)
    requires !Unwound(ExecAll(s, ops).responses) && i < |ops|
    ensures |ExecAll(s, ops).responses| == |ops|
    ensures !Unwound(ExecAll(s, ops[..i]).responses)
    ensures ExecAll(s, ops).responses[i] == Exec(ExecAll(s, ops[..i]).state, ops[i]).response
    decreases |ops|
  {
    var first := Exec(s, ops[0]);
    if !first.response.Panicked? {
      var rest := ExecAll(first.state, ops[1..]);
      UnwoundConcat([first.response], rest.responses);
      if i > 0 {
        BranchAnswers(first.state, ops[1..], i - 1);
        assert ops[..i][0] == ops[0] && ops[..i][1..] == ops[1..][..i - 1];
        UnwoundConcat([first.response], ExecAll(first.state, ops[1..][..i - 1]).responses);
      } else {
        assert ops[..0] == [];
        if |ops| > 1 {
          BranchAnswers(first.state, ops[1..], 0);
        }
      }
    }
  }

  // ---- panics -----------------------------------------------------------------------

  /** A Range or DeleteRange whose start lies above its end. */
  predicate Inverted(op: Op) {
    || (op.RangeOp? && PanicsOn(op.range.key, op.range.rangeEnd))
    || (op.DeleteOp? && PanicsOn(op.delete.key, op.delete.rangeEnd))
  }

  ghost predicate AnyInverted(ops: seq<Op>) {
    exists i | 0 <= i < |ops| :: Inverted(ops[i])
  }

  lemma PanicsIffInverted(s: State, op: Op)
    ensures Perform(s, op).response.Panicked? <==> Inverted(op)
    ensures Inverted(op) ==> Perform(s, op).state == s
  {
  }

  lemma AnyInvertedHead(ops: seq<Op>)
    requires ops != []
    ensures AnyInverted(ops) <==> Inverted(ops[0]) || AnyInverted(ops[1..])
  {
    if i :| 0 < i < |ops| && Inverted(ops[i]) {
      assert Inverted(ops[1..][i - 1]);
    }
    if i :| 0 <= i < |ops| - 1 && Inverted(ops[1..][i]) {
      assert Inverted(ops[i + 1]);
    }
  }

  /** A sequential run unwinds exactly when one of its operations is inverted. */
  lemma {:induction false} UnwindsIffInverted(s: State, ops: seq<Op>)
    ensures Unwound(Sequential(s, ops).responses) <==> AnyInverted(ops)
    decreases |ops|
  {
    if ops != [] {
      AnyInvertedHead(ops);
      PanicsIffInverted(s, ops[0]);
      var first := Perform(s, ops[0]);
      if !Inverted(ops[0]) {
        UnwindsIffInverted(first.state, ops[1..]);
        UnwoundConcat([first.response], Sequential(first.state, ops[1..]).responses);
      }
    }
  }

  /** What ran before the first inverted operation stays, and nothing after it runs. */
  lemma {:induction false} PanicKeepsPrefix(s: State, ops: seq<Op>, i: nat)
    requires i < |ops| && Inverted(ops[i]) && !AnyInverted(ops[..i])
    ensures Sequential(s, ops).state == Sequential(s, ops[..i]).state
    ensures Unwound(Sequential(s, ops).responses) && !Unwound(Sequential(s, ops[..i]).responses)
  {
    SequentialConcat(s, ops[..i], ops[i..]);
    assert ops[..i] + ops[i..] == ops;
    UnwindsIffInverted(s, ops[..i]);
    UnwindsIffInverted(s, ops);
    assert Inverted(ops[i]);
    PanicsIffInverted(Sequential(s, ops[..i]).state, ops[i..][0]);
  }

  /** A transaction panics exactly when an operation it reaches is inverted; its effects up to there stay. */
  lemma TxnPanicsIff(s: State, t: TxnRequest)
    ensures Txn(s, t).response.Panicked? <==> AnyInverted(FlattenTxn(s, t))
    ensures forall i | 0 <= i < |FlattenTxn(s, t)| && Inverted(FlattenTxn(s, t)[i]) && !AnyInverted(FlattenTxn(s, t)[..i]) ::
              Txn(s, t).state == Sequential(s, FlattenTxn(s, t)[..i]).state
  {
    var flat := FlattenTxn(s, t);
    TxnIsSequential(s, t);
    UnwindsIffInverted(s, flat);
    forall i | 0 <= i < |flat| && Inverted(flat[i]) && !AnyInverted(flat[..i])
      ensures Txn(s, t).state == Sequential(s, flat[..i]).state
    {
      PanicKeepsPrefix(s, flat, i);
    }
  }

  /** No inverted range anywhere in the request, taken branches or not. */
  predicate Upright(op: Op)
    decreases op
  {
    !Inverted(op) && (op.TxnOp? ==> UprightTxn(op.txn))
  }

  predicate UprightTxn(t: TxnRequest)
    decreases t
  {
    && (forall i | 0 <= i < |t.success| :: Upright(t.success[i]))
    && (forall i | 0 <= i < |t.failure| :: Upright(t.failure[i]))
  }

  lemma {:induction false} FlattenUpright(s: State, ops: seq<Op>)
    requires forall i | 0 <= i < |ops| :: Upright(ops[i])
    ensures !AnyInverted(Flatten(s, ops))
    decreases ops
  {
    if ops != [] {
      var first := FlattenOp(s, ops[0]);
      FlattenOpUpright(s, ops[0]);
      FlattenUpright(Sequential(s, first).state, ops[1..]);
    }
  }

  lemma {:induction false} FlattenOpUpright(s: State, op: Op)
    requires Upright(op)
    ensures !AnyInverted(FlattenOp(s, op))
    decreases op
  {
    if op.TxnOp? {
      if AllHold(s.kvs, op.txn.compares) {
        FlattenUpright(s, op.txn.success);
      } else {
        FlattenUpright(s, op.txn.failure);
      }
    }
  }

  /** A transaction without an inverted range answers, however deep it nests. */
  lemma UprightNeverPanics(s: State, t: TxnRequest)
    requires UprightTxn(t)
    ensures Txn(s, t).response.TxnResponse?
  {
    FlattenOpUpright(s, TxnOp(t));
    TxnPanicsIff(s, t);
  }

  /** Not all or nothing: behind a put, an inverted range takes the answer but not the put. */
  lemma PutOutlivesPanic(s: State, p: PutRequest, r: RangeRequest)
    requires PanicsOn(r.key, r.rangeEnd)
    ensures Txn(s, TxnRequest([], [PutOp(p), RangeOp(r)], [])) == Outcome(Put(s, p), Panicked)
  {
    var t := TxnRequest([], [PutOp(p), RangeOp(r)], []);
    assert t.success[1..] == [RangeOp(r)];
    assert ExecAll(Put(s, p), [RangeOp(r)]) == Outcomes(Put(s, p), [Panicked]);
    assert Exec(s, t.success[0]) == Perform(s, PutOp(p));
    assert ExecAll(s, t.success) == Outcomes(Put(s, p), [Perform(s, PutOp(p)).response] + [Panicked]);
  }

  // ---- revisions --------------------------------------------------------------------

  /** A put always bumps the revision; a delete does when it hits a key. */
  predicate Bumps(s: State, op: Op) {
    || op.PutOp?
    || (op.DeleteOp? && !PanicsOn(op.delete.key, op.delete.rangeEnd) && Covered(s.kvs, op.delete.key, op.delete.rangeEnd) != {})
  }

  function Mutations(s: State, ops: seq<Op>): nat
    decreases |ops|
  {
    if ops == [] || Perform(s, ops[0]).response.Panicked? then 0
    else (if Bumps(s, ops[0]) then 1 else 0) + Mutations(Perform(s, ops[0]).state, ops[1..])
  }

  lemma {:induction false} SequentialRevision(s: State, ops: seq<Op>)
    ensures Sequential(s, ops).state.revision == s.revision + Mutations(s, ops)
    decreases |ops|
  {
    if ops != [] && !Perform(s, ops[0]).response.Panicked? {
      SequentialRevision(Perform(s, ops[0]).state, ops[1..]);
    }
  }

  /** One revision per put and per non-empty delete that ran, not one per transaction. */
  lemma TxnRevision(s: State, t: TxnRequest)
    ensures Txn(s, t).state.revision == s.revision + Mutations(s, FlattenTxn(s, t))
    ensures Txn(s, t).response.TxnResponse? ==> Txn(s, t).response.revision == Txn(s, t).state.revision
  {
    TxnIsSequential(s, t);
    SequentialRevision(s, FlattenTxn(s, t));
  }

  /** Header revisions in the order the responses were completed. */
  function Headers(rs: seq<Response>): seq<int> {
    if rs == [] then []
    else
      var r := rs[0];
      (match r
       case TxnResponse(rev, _, inner) => Headers(inner) + [rev]
       case RangeResponse(rev, _, _, _) => [rev]
       case PutResponse(rev, _) => [rev]
       case DeleteResponse(rev, _, _) => [rev]
       case _ => []) + Headers(rs[1..])
  }

  ghost predicate Ascends(xs: seq<int>, lo: int, hi: int) {
    && (forall i | 0 <= i < |xs| :: lo <= xs[i] <= hi)
    && (forall i, j | 0 <= i < j < |xs| :: xs[i] <= xs[j])
  }

  lemma AscendsConcat(a: seq<int>, b: seq<int>, lo: int, mid: int, hi: int)
    requires Ascends(a, lo, mid) && Ascends(b, mid, hi) && lo <= mid <= hi
    ensures Ascends(a + b, lo, hi)
  {
  }

  lemma {:induction false} HeadersAscend(s: State, ops: seq<Op>)
    ensures var done := ExecAll(s, ops);
            s.revision <= done.state.revision && Ascends(Headers(done.responses), s.revision, done.state.revision)
    decreases ops
  {
    if ops != [] {
      var first := Exec(s, ops[0]);
      OpHeadersAscend(s, ops[0]);
      if !first.response.Panicked? {
        HeadersAscend(first.state, ops[1..]);
        var tail := ExecAll(first.state, ops[1..]);
        HeadersCons(first.response, tail.responses);
        AscendsConcat(
          Headers([first.response]), Headers(tail.responses), s.revision, first.state.revision, tail.state.revision);
      }
    }
  }

  lemma HeadersCons(r: Response, rs: seq<Response>)
    ensures Headers([r] + rs) == Headers([r]) + Headers(rs)
  {
    assert ([r] + rs)[1..] == rs && [r][1..] == [];
  }

  lemma {:induction false} OpHeadersAscend(s: State, op: Op)
    ensures var done := Exec(s, op);
            s.revision <= done.state.revision && Ascends(Headers([done.response]), s.revision, done.state.revision)
    decreases op
  {
    assert [Exec(s, op).response][1..] == [];
    if op.TxnOp? {
      TxnHeadersAscend(s, op.txn);
    }
  }

  lemma {:induction false} TxnHeadersAscend(s: State, t: TxnRequest)
    ensures var done := Txn(s, t);
            s.revision <= done.state.revision && Ascends(Headers([done.response]), s.revision, done.state.revision)
    decreases t
  {
    assert [Txn(s, t).response][1..] == [];
    if AllHold(s.kvs, t.compares) {
      HeadersAscend(s, t.success);
    } else {
      HeadersAscend(s, t.failure);
    }
  }
}
