module Options {
  datatype Option<+T> = None | Some(value: T)
}

/**
 The etcd-mem store as a value, one function per store operation.

 `history` is an auxiliary variable: every batch ever handed to `emit`, compacted or not.
 No operation reads it; the broadcast channel is a window on its tail.
 */
module StoreModel {
  import opened ByteOrder
  import opened Options

  datatype Kv = Kv(
    key: Bytes, value: Bytes, createRevision: int, modRevision: int, version: int, lease: int)

  datatype EventType = PUT | DELETE
  datatype Event = Event(kind: EventType, kv: Kv, prevKv: Option<Kv>)
  datatype Batch = Batch(revision: int, events: seq<Event>)

  /** The deadline is left to the clock; see the expiry step of module Runs. */
  datatype Lease = Lease(id: int, grantedTtl: int, keys: seq<Bytes>)

  datatype State = State(
    kvs: map<Bytes, Kv>,
    revision: int,
    compactRevision: int,
    log: seq<Batch>,
    leases: map<int, Lease>,
    nextLeaseId: int,
    history: seq<Batch>)

  const INITIAL := State(map[], 1, 0, [], map[], 1, [])

  // ---- key ranges ----------------------------------------------------------

  /** "\x00" as range end: every key from the start key on. */
  const OPEN_END: Bytes := [0]

  predicate InRange(k: Bytes, key: Bytes, rangeEnd: Bytes) {
    if rangeEnd == [] then k == key
    else if rangeEnd == OPEN_END then AtMost(key, k)
    else AtMost(key, k) && Below(k, rangeEnd)
  }

  /** `BTreeMap::range(start..end)` panics when start > end. */
  predicate PanicsOn(key: Bytes, rangeEnd: Bytes) {
    rangeEnd != [] && rangeEnd != OPEN_END && Below(rangeEnd, key)
  }

  function Covered(kvs: map<Bytes, Kv>, key: Bytes, rangeEnd: Bytes): set<Bytes> {
    set k | k in kvs && InRange(k, key, rangeEnd)
  }

  // ---- range ---------------------------------------------------------------

  datatype RangeRequest = RangeRequest(
    key: Bytes, rangeEnd: Bytes, limit: int, revision: int,
    minMod: int, maxMod: int, minCreate: int, maxCreate: int,
    keysOnly: bool, countOnly: bool)

  function AtRevision(revision: int, requested: int): int {
    if requested == 0 || requested > revision then revision else requested
  }

  predicate Passes(kv: Kv, at: int, r: RangeRequest) {
    && kv.modRevision <= at
    && (r.minMod == 0 || kv.modRevision >= r.minMod)
    && (r.maxMod == 0 || kv.modRevision <= r.maxMod)
    && (r.minCreate == 0 || kv.createRevision >= r.minCreate)
    && (r.maxCreate == 0 || kv.createRevision <= r.maxCreate)
  }

  function Selected(kvs: map<Bytes, Kv>, revision: int, r: RangeRequest): set<Bytes> {
    set k | k in kvs && InRange(k, r.key, r.rangeEnd) && Passes(kvs[k], AtRevision(revision, r.revision), r)
  }

  function Values(kvs: map<Bytes, Kv>, keys: seq<Bytes>): (vs: seq<Kv>)
    requires forall k | k in keys :: k in kvs
  {
    seq(|keys|, i requires 0 <= i < |keys| => kvs[keys[i]])
  }

  datatype Page = Page(kvs: seq<Kv>, more: bool, total: int)

  function RangeKvs(kvs: map<Bytes, Kv>, revision: int, r: RangeRequest): Page {
    var all := Values(kvs, Ascending(Selected(kvs, revision, r)));
    if r.limit <= 0 || |all| <= r.limit then Page(all, false, |all|)
    else Page(all[..r.limit], true, |all|)
  }

  function KeysOnly(kvs: seq<Kv>): seq<Kv> {
    seq(|kvs|, i requires 0 <= i < |kvs| => kvs[i].(value := []))
  }

  // ---- leases of keys --------------------------------------------------------

  /** `Vec::retain`: what is left of a lease's key list once `gone` are taken out. */
  function Without(keys: seq<Bytes>, gone: set<Bytes>): (rest: seq<Bytes>)
    ensures forall k :: k in rest <==> k in keys && k !in gone
  {
    if keys == [] then []
    else
      var head := if keys[0] in gone then [] else [keys[0]];
      assert keys == [keys[0]] + keys[1..];
      head + Without(keys[1..], gone)
  }

  function Detach(leases: map<int, Lease>, prev: Option<Kv>, key: Bytes): map<int, Lease> {
    if prev.Some? && prev.value.lease != 0 && prev.value.lease in leases then
      var l := leases[prev.value.lease];
      leases[prev.value.lease := l.(keys := Without(l.keys, {key}))]
    else leases
  }

  function Attach(leases: map<int, Lease>, lease: int, key: Bytes): map<int, Lease> {
    if lease != 0 && lease in leases && key !in leases[lease].keys then
      leases[lease := leases[lease].(keys := leases[lease].keys + [key])]
    else leases
  }

  // ---- mutations -------------------------------------------------------------

  function Get(kvs: map<Bytes, Kv>, key: Bytes): Option<Kv> {
    if key in kvs then Some(kvs[key]) else None
  }

  function Emit(s: State, events: seq<Event>): State {
    var b := Batch(s.revision, events);
    s.(log := s.log + [b], history := s.history + [b])
  }

  datatype PutRequest = PutRequest(
    key: Bytes, value: Bytes, lease: int, wantPrevKv: bool, ignoreValue: bool, ignoreLease: bool)

  function PutValue(prev: Option<Kv>, p: PutRequest): Bytes {
    if !p.ignoreValue then p.value else if prev.Some? then prev.value.value else []
  }

  function PutLease(prev: Option<Kv>, p: PutRequest): int {
    if !p.ignoreLease then p.lease else if prev.Some? then prev.value.lease else 0
  }

  function PutEntry(prev: Option<Kv>, rev: int, p: PutRequest): Kv {
    Kv(p.key, PutValue(prev, p),
       if prev.Some? then prev.value.createRevision else rev,
       rev,
       if prev.Some? then prev.value.version + 1 else 1,
       PutLease(prev, p))
  }

  function Put(s: State, p: PutRequest): State {
    var rev := s.revision + 1;
    var prev := Get(s.kvs, p.key);
    var entry := PutEntry(prev, rev, p);
    Emit(
      s.(revision := rev,
      leases := Attach(Detach(s.leases, prev, p.key), entry.lease, p.key),
      kvs := s.kvs[p.key := entry]),
      [Event(PUT, entry, prev)])
  }

  datatype DeleteRequest = DeleteRequest(key: Bytes, rangeEnd: Bytes, wantPrevKv: bool)

  function Tombstone(key: Bytes, last: Kv, rev: int): Event {
    Event(DELETE, Kv(key, [], last.createRevision, rev, 0, 0), Some(last))
  }

  function DeleteEvents(kvs: map<Bytes, Kv>, keys: seq<Bytes>, rev: int): seq<Event>
    requires forall k | k in keys :: k in kvs
  {
    seq(|keys|, i requires 0 <= i < |keys| => Tombstone(keys[i], kvs[keys[i]], rev))
  }

  /** The keys in `gone` whose entry names lease `id`. */
  function CarriedBy(kvs: map<Bytes, Kv>, gone: set<Bytes>, id: int): set<Bytes> {
    set k | k in gone && k in kvs && kvs[k].lease == id
  }

  function Deregister(leases: map<int, Lease>, kvs: map<Bytes, Kv>, gone: set<Bytes>): map<int, Lease> {
    map id | id in leases ::
      if id == 0 then leases[id]
      else leases[id].(keys := Without(leases[id].keys, CarriedBy(kvs, gone, id)))
  }

  function DeleteRange(s: State, key: Bytes, rangeEnd: Bytes): State {
    var gone := Covered(s.kvs, key, rangeEnd);
    if gone == {} then s
    else
      var rev := s.revision + 1;
      Emit(
        s.(revision := rev,
        kvs := s.kvs - gone,
        leases := Deregister(s.leases, s.kvs, gone)),
        DeleteEvents(s.kvs, Ascending(gone), rev))
  }

  // ---- transactions ------------------------------------------------------------

  /** The protobuf codes, unknown ones included, as they arrive on the wire. */
  const EQUAL := 0
  const GREATER := 1
  const LESS := 2
  const NOT_EQUAL := 3

  const VERSION := 0
  const CREATE := 1
  const MOD := 2
  const VALUE := 3
  const LEASE := 4

  datatype TargetUnion =
    | NoTarget | Version(n: int) | CreateRevision(n: int) | ModRevision(n: int) | LeaseId(n: int) | Value(bytes: Bytes)

  datatype Compare = Compare(key: Bytes, result: int, target: int, union: TargetUnion)

  datatype Ordering = Less | Equal | Greater

  function CompareInts(a: int, b: int): Ordering {
    if a < b then Less else if a == b then Equal else Greater
  }

  function CompareBytes(a: Bytes, b: Bytes): Ordering {
    if Below(a, b) then Less else if a == b then Equal else Greater
  }

  predicate Meets(o: Ordering, result: int) {
    if result == NOT_EQUAL then o != Equal
    else if result == GREATER then o == Greater
    else if result == LESS then o == Less
    else o == Equal
  }

  predicate Holds(kvs: map<Bytes, Kv>, c: Compare) {
    var kv := Get(kvs, c.key);
    if c.target == VERSION then
      Meets(CompareInts(if kv.Some? then kv.value.version else 0, if c.union.Version? then c.union.n else 0), c.result)
    else if c.target == CREATE then
      Meets(CompareInts(if kv.Some? then kv.value.createRevision else 0, if c.union.CreateRevision? then c.union.n else 0), c.result)
    else if c.target == MOD then
      Meets(CompareInts(if kv.Some? then kv.value.modRevision else 0, if c.union.ModRevision? then c.union.n else 0), c.result)
    else if c.target == VALUE then
      Meets(CompareBytes(if kv.Some? then kv.value.value else [], if c.union.Value? then c.union.bytes else []), c.result)
    else if c.target == LEASE then
      Meets(CompareInts(if kv.Some? then kv.value.lease else 0, if c.union.LeaseId? then c.union.n else 0), c.result)
    else true
  }

  predicate AllHold(kvs: map<Bytes, Kv>, cs: seq<Compare>) {
    forall i | 0 <= i < |cs| :: Holds(kvs, cs[i])
  }

  datatype Op =
    | RangeOp(range: RangeRequest)
    | PutOp(put: PutRequest)
    | DeleteOp(delete: DeleteRequest)
    | TxnOp(txn: TxnRequest)
    | EmptyOp

  datatype TxnRequest = TxnRequest(compares: seq<Compare>, success: seq<Op>, failure: seq<Op>)

  /** `Panicked` is no response at all: the request's task unwound and its lock was released. */
  datatype Response =
    | RangeResponse(revision: int, kvs: seq<Kv>, more: bool, count: int)
    | PutResponse(revision: int, prevKv: Option<Kv>)
    | DeleteResponse(revision: int, deleted: int, prevKvs: seq<Kv>)
    | TxnResponse(revision: int, succeeded: bool, responses: seq<Response>)
    | EmptyResponse
    | Panicked

  /** What one operation answers; `after` is the state it leaves. Transactions answer in `Exec`. */
  function Answer(s: State, op: Op, after: State): Response {
    match op
    case RangeOp(r) =>
      if PanicsOn(r.key, r.rangeEnd) then Panicked
      else
        var page := RangeKvs(s.kvs, s.revision, r);
        RangeResponse(
          s.revision,
          if r.countOnly then [] else if r.keysOnly then KeysOnly(page.kvs) else page.kvs,
          page.more, page.total)
    case PutOp(p) =>
      PutResponse(after.revision, if p.wantPrevKv then Get(s.kvs, p.key) else None)
    case DeleteOp(d) =>
      if PanicsOn(d.key, d.rangeEnd) then Panicked
      else
        var gone := Covered(s.kvs, d.key, d.rangeEnd);
        DeleteResponse(after.revision, |gone|, if d.wantPrevKv then Values(s.kvs, Ascending(gone)) else [])
    case TxnOp(_) => EmptyResponse
    case EmptyOp => EmptyResponse
  }

  /** The state a primitive operation leaves; a panicking one changes nothing. */
  function Effect(s: State, op: Op): State {
    match op
    case PutOp(p) => Put(s, p)
    case DeleteOp(d) => if PanicsOn(d.key, d.rangeEnd) then s else DeleteRange(s, d.key, d.rangeEnd)
    case _ => s
  }

  datatype Outcome = Outcome(state: State, response: Response)
  datatype Outcomes = Outcomes(state: State, responses: seq<Response>)

  /** One primitive operation. */
  function Perform(s: State, op: Op): Outcome {
    var after := Effect(s, op);
    Outcome(after, Answer(s, op, after))
  }

  predicate Unwound(rs: seq<Response>) {
    rs != [] && rs[|rs| - 1].Panicked?
  }

  function Exec(s: State, op: Op): Outcome
    decreases op
  {
    if op.TxnOp? then Txn(s, op.txn) else Perform(s, op)
  }

  /** A panic unwinds through the whole request: nothing after it runs. */
  function ExecAll(s: State, ops: seq<Op>): Outcomes
    decreases ops
  {
    if ops == [] then Outcomes(s, [])
    else
      var first := Exec(s, ops[0]);
      if first.response.Panicked? then Outcomes(first.state, [Panicked])
      else
        var rest := ExecAll(first.state, ops[1..]);
        Outcomes(rest.state, [first.response] + rest.responses)
  }

  function Txn(s: State, t: TxnRequest): Outcome
    decreases t
  {
    var done := if AllHold(s.kvs, t.compares) then ExecAll(s, t.success) else ExecAll(s, t.failure);
    Outcome(
      done.state,
      if Unwound(done.responses) then Panicked
      else TxnResponse(done.state.revision, AllHold(s.kvs, t.compares), done.responses))
  }

  // ---- compaction ----------------------------------------------------------------

  function After(log: seq<Batch>, rev: int): (kept: seq<Batch>) {
    if log == [] then []
    else (if log[0].revision > rev then [log[0]] else []) + After(log[1..], rev)
  }

  function Compact(s: State, rev: int): State {
    if rev > s.compactRevision then s.(compactRevision := rev, log := After(s.log, rev)) else s
  }

  function EventsSince(s: State, rev: int): seq<Batch> {
    After(s.log, rev)
  }

  // ---- leases ----------------------------------------------------------------------

  function GrantedId(s: State, id: int): int {
    if id == 0 then s.nextLeaseId else id
  }

  function Grant(s: State, ttl: int, id: int): State {
    var actual := GrantedId(s, id);
    s.(nextLeaseId := if id == 0 then s.nextLeaseId + 1 else s.nextLeaseId,
    leases := s.leases[actual := Lease(actual, if ttl < 1 then 1 else ttl, [])])
  }

  function DeleteEach(s: State, keys: seq<Bytes>): State
    decreases |keys|
  {
    if keys == [] then s
    else DeleteRange(DeleteEach(s, keys[..|keys| - 1]), keys[|keys| - 1], [])
  }

  function Revoke(s: State, id: int): State {
    if id in s.leases then DeleteEach(s.(leases := s.leases - {id}), s.leases[id].keys) else s
  }
}
