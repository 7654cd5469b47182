/**
 Control-plane growth: one reconcile loop per server brings declared members into a running
 etcd cluster, each loop acting on a member list that may be stale by the time it acts.

 etcd's member calls are the environment. They are atomic, may fail at any time, refuse a peer
 URL in use and a second learner, and promote nothing but a learner. A started member stays
 started, and a member that has published a server's node name keeps it.
 */
module Growth {
  import opened Options
  import opened Text

  /** An unstarted member has neither name nor client URLs. */
  datatype Member = Member(id: int, peer: string, name: string, clients: string, started: bool, learner: bool)

  datatype Entry = Entry(name: string, peer: string)

  /** The peer URL a single-server bootstrap advertised. */
  const LOOPBACK := "https://127.0.0.1:2380"

  /** `byReconcile` tells a record of the reconcile from the guard's at first bootstrap. */
  datatype Record = Record(entries: seq<Entry>, byReconcile: bool)

  /** `seen` is the member list the current iteration works on, if it has fetched one. */
  datatype Server = Server(
    name: string, peer: string, declared: seq<Entry>, seen: Option<seq<Member>>, record: Option<Record>)

  datatype System = System(members: seq<Member>, servers: seq<Server>)

  // ---- one iteration -------------------------------------------------------------

  datatype Action =
    | Wait
    | MovePeer(id: int, peer: string)
    | Promote(id: int)
    | AddLearner(name: string, peer: string)
    | Converged(writeRecord: bool)

  function FirstLoopback(list: seq<Member>): Option<Member> {
    if list == [] then None
    else if list[0].peer == LOOPBACK then Some(list[0])
    else FirstLoopback(list[1..])
  }

  function FirstLearner(list: seq<Member>): Option<Member> {
    if list == [] then None
    else if list[0].learner then Some(list[0])
    else FirstLearner(list[1..])
  }

  predicate HasPeer(list: seq<Member>, peer: string) {
    exists i | 0 <= i < |list| :: list[i].peer == peer
  }

  predicate Declares(declared: seq<Entry>, peer: string) {
    exists i | 0 <= i < |declared| :: declared[i].peer == peer
  }

  /** The columns of a `member list` row in which a URL can turn up. */
  function Line(m: Member): string {
    m.name + ", " + m.peer + ", " + m.clients
  }

  /** `grep -F` on the list: the text occurs somewhere in a row, not necessarily as its peer URL. */
  predicate Mentions(list: seq<Member>, text: string) {
    exists i | 0 <= i < |list| :: Contains(Line(list[i]), text)
  }

  lemma PeerMentioned(list: seq<Member>, peer: string)
    requires HasPeer(list, peer)
    ensures Mentions(list, peer)
  {
    var i :| 0 <= i < |list| && list[i].peer == peer;
    var line, at := Line(list[i]), |list[i].name| + 2;
    assert line[at..at + |peer|] == peer;
    assert OccursAt(line, peer, at);
  }

  function FirstMissing(declared: seq<Entry>, list: seq<Member>): Option<Entry> {
    if declared == [] then None
    else if !Mentions(list, declared[0].peer) then Some(declared[0])
    else FirstMissing(declared[1..], list)
  }

  predicate IsStartedVoter(m: Member, peer: string) {
    m.peer == peer && m.started && !m.learner
  }

  predicate AllIn(declared: seq<Entry>, list: seq<Member>) {
    forall i | 0 <= i < |declared| :: exists j | 0 <= j < |list| :: IsStartedVoter(list[j], declared[i].peer)
  }

  predicate NoExtras(declared: seq<Entry>, list: seq<Member>) {
    forall i | 0 <= i < |list| :: Declares(declared, list[i].peer)
  }

  function Decide(srv: Server, list: seq<Member>): Action {
    var loopback := FirstLoopback(list);
    if loopback.Some? then
      if loopback.value.name == srv.name then MovePeer(loopback.value.id, srv.peer) else Wait
    else
      var learner := FirstLearner(list);
      if learner.Some? then
        if learner.value.started then Promote(learner.value.id) else Wait
      else
        var missing := FirstMissing(srv.declared, list);
        if missing.Some? then AddLearner(missing.value.name, missing.value.peer)
        else if AllIn(srv.declared, list) then
          Converged(NoExtras(srv.declared, list) && (srv.record.None? || srv.record.value.entries != srv.declared))
        else Wait
  }

  // ---- etcd's side -------------------------------------------------------------------

  predicate HasLearner(members: seq<Member>) {
    exists i | 0 <= i < |members| :: members[i].learner
  }

  predicate HasId(members: seq<Member>, id: int) {
    exists i | 0 <= i < |members| :: members[i].id == id
  }

  /** `ok` is the part of the outcome only etcd knows: reachability, and a learner being in sync. */
  function Apply(members: seq<Member>, a: Action, ok: bool, newId: int): seq<Member> {
    if !ok then members
    else
      match a
      case AddLearner(_, peer) =>
        if HasPeer(members, peer) || HasLearner(members) || HasId(members, newId) then members
        else members + [Member(newId, peer, "", "", false, true)]
      case Promote(id) =>
        Update(members, id, (m: Member) => m.(learner := false))
      case MovePeer(id, peer) =>
        if HasPeer(members, peer) then members else Update(members, id, (m: Member) => m.(peer := peer))
      case _ => members
  }

  function Update(members: seq<Member>, id: int, f: Member -> Member): seq<Member> {
    seq(|members|, i requires 0 <= i < |members| => if members[i].id == id then f(members[i]) else members[i])
  }

  // ---- runs ----------------------------------------------------------------------------

  datatype Step =
    | Fetch(i: nat)
    | Act(i: nat, ok: bool, newId: int)
    | Start(id: int, name: string, clients: string)
    | Redeclare(i: nat, declared: seq<Entry>)
    | GuardRecord(i: nat)

  ghost predicate IsServer(servers: seq<Server>, name: string) {
    exists i | 0 <= i < |servers| :: servers[i].name == name
  }

  /** Starting, or restarting, a member; a name that is not a server's may be replaced. */
  ghost function Started(servers: seq<Server>, m: Member, name: string, clients: string): Member {
    m.(started := true, name := if IsServer(servers, m.name) then m.name else name, clients := clients)
  }

  ghost function Next(sys: System, step: Step): System {
    match step
    case Fetch(i) =>
      if i < |sys.servers| then sys.(servers := sys.servers[i := sys.servers[i].(seen := Some(sys.members))]) else sys
    case Act(i, ok, newId) =>
      if i < |sys.servers| && sys.servers[i].seen.Some? then
        var srv := sys.servers[i];
        var a := Decide(srv, srv.seen.value);
        var record := if a.Converged? && a.writeRecord then Some(Record(srv.declared, true)) else srv.record;
        System(Apply(sys.members, a, ok, newId), sys.servers[i := srv.(seen := None, record := record)])
      else sys
    case Start(id, name, clients) =>
      sys.(members := Update(sys.members, id, (m: Member) => Started(sys.servers, m, name, clients)))
    case Redeclare(i, declared) =>
      if i < |sys.servers| then
        sys.(servers := sys.servers[i := sys.servers[i].(declared := declared, seen := None)])
      else sys
    case GuardRecord(i) =>
      if i < |sys.servers| && sys.servers[i].record.None? then
        sys.(servers := sys.servers[i := sys.servers[i].(record := Some(Record(sys.servers[i].declared, false)))])
      else sys
  }

  ghost function Run(sys: System, steps: seq<Step>): System
    decreases |steps|
  {
    if steps == [] then sys else Run(Next(sys, steps[0]), steps[1..])
  }

  // ---- what a member keeps -----------------------------------------------------------------

  ghost predicate PeerOf(servers: seq<Server>, name: string, peer: string) {
    exists i | 0 <= i < |servers| :: servers[i].name == name && servers[i].peer == peer
  }

  /** `b` is a later state of the member `a`. */
  ghost predicate Follows(servers: seq<Server>, a: Member, b: Member) {
    && b.id == a.id
    && (a.started ==> b.started)
    && (!a.learner ==> !b.learner)
    && (IsServer(servers, a.name) ==> b.name == a.name)
    && (a.peer != LOOPBACK ==> b.peer == a.peer)
    && (a.peer == LOOPBACK && IsServer(servers, a.name) ==> b.peer == LOOPBACK || PeerOf(servers, a.name, b.peer))
  }

  /** No member is removed; each keeps its place in the list. */
  ghost predicate Evolved(servers: seq<Server>, was: seq<Member>, now: seq<Member>) {
    |was| <= |now| && forall i | 0 <= i < |was| :: Follows(servers, was[i], now[i])
  }

  ghost predicate SameServers(a: seq<Server>, b: seq<Server>) {
    |a| == |b| && forall i | 0 <= i < |a| :: a[i].name == b[i].name && a[i].peer == b[i].peer
  }

  lemma SameServersNames(a: seq<Server>, b: seq<Server>, name: string, peer: string)
    requires SameServers(a, b)
    ensures IsServer(a, name) <==> IsServer(b, name)
    ensures PeerOf(a, name, peer) <==> PeerOf(b, name, peer)
  {
    if IsServer(a, name) {
      var i :| 0 <= i < |a| && a[i].name == name;
      assert b[i].name == name;
    }
    if IsServer(b, name) {
      var i :| 0 <= i < |b| && b[i].name == name;
      assert a[i].name == name;
    }
    if PeerOf(a, name, peer) {
      var i :| 0 <= i < |a| && a[i].name == name && a[i].peer == peer;
      assert b[i].name == name && b[i].peer == peer;
    }
    if PeerOf(b, name, peer) {
      var i :| 0 <= i < |b| && b[i].name == name && b[i].peer == peer;
      assert a[i].name == name && a[i].peer == peer;
    }
  }

  lemma FollowsTransitive(servers: seq<Server>, a: Member, b: Member, c: Member)
    requires Follows(servers, a, b) && Follows(servers, b, c)
    ensures Follows(servers, a, c)
  {
  }

  lemma EvolvedTransitive(servers: seq<Server>, a: seq<Member>, b: seq<Member>, c: seq<Member>)
    requires Evolved(servers, a, b) && Evolved(servers, b, c)
    ensures Evolved(servers, a, c)
  {
    forall i | 0 <= i < |a|
      ensures Follows(servers, a[i], c[i])
    {
      FollowsTransitive(servers, a[i], b[i], c[i]);
    }
  }

  lemma EvolvedSameServers(a: seq<Server>, b: seq<Server>, ms: seq<Member>, now: seq<Member>)
    requires SameServers(a, b) && Evolved(a, ms, now)
    ensures Evolved(b, ms, now)
  {
    forall i | 0 <= i < |ms|
      ensures Follows(b, ms[i], now[i])
    {
      assert Follows(a, ms[i], now[i]);
      SameServersNames(a, b, ms[i].name, now[i].peer);
    }
  }

  // ---- the invariant ---------------------------------------------------------------------------

  ghost predicate DistinctMembers(ms: seq<Member>) {
    forall i, j | 0 <= i < j < |ms| :: ms[i].id != ms[j].id && ms[i].peer != ms[j].peer
  }

  ghost predicate OneLearner(ms: seq<Member>) {
    forall i, j | 0 <= i < j < |ms| :: !(ms[i].learner && ms[j].learner)
  }

  ghost predicate DistinctServers(servers: seq<Server>) {
    forall i, j | 0 <= i < j < |servers| :: servers[i].name != servers[j].name
  }

  ghost predicate IsVoter(ms: seq<Member>, peer: string) {
    exists i | 0 <= i < |ms| :: ms[i].peer == peer && !ms[i].learner
  }

  /** Every recorded peer is a voting member, at an address that can no longer move. */
  ghost predicate RecordHolds(r: Option<Record>, ms: seq<Member>) {
    r.Some? && r.value.byReconcile ==>
      forall i | 0 <= i < |r.value.entries| ::
        r.value.entries[i].peer != LOOPBACK && IsVoter(ms, r.value.entries[i].peer)
  }

  ghost predicate ServerOk(servers: seq<Server>, srv: Server, ms: seq<Member>) {
    && RecordHolds(srv.record, ms)
    && (srv.seen.Some? ==>
          && Evolved(servers, srv.seen.value, ms)
          && RecordHolds(srv.record, srv.seen.value))
  }

  ghost predicate Safe(sys: System) {
    && DistinctMembers(sys.members)
    && OneLearner(sys.members)
    && DistinctServers(sys.servers)
    && forall i | 0 <= i < |sys.servers| :: ServerOk(sys.servers, sys.servers[i], sys.members)
  }

  lemma VotersPersist(servers: seq<Server>, ms: seq<Member>, now: seq<Member>, peer: string)
    requires Evolved(servers, ms, now) && peer != LOOPBACK && IsVoter(ms, peer)
    ensures IsVoter(now, peer)
  {
    var i :| 0 <= i < |ms| && ms[i].peer == peer && !ms[i].learner;
    assert Follows(servers, ms[i], now[i]);
  }

  lemma RecordPersists(servers: seq<Server>, r: Option<Record>, ms: seq<Member>, now: seq<Member>)
    requires Evolved(servers, ms, now) && RecordHolds(r, ms)
    ensures RecordHolds(r, now)
  {
    if r.Some? && r.value.byReconcile {
      forall i | 0 <= i < |r.value.entries|
        ensures IsVoter(now, r.value.entries[i].peer)
      {
        VotersPersist(servers, ms, now, r.value.entries[i].peer);
      }
    }
  }

  lemma ServerPersists(servers: seq<Server>, srv: Server, ms: seq<Member>, now: seq<Member>)
    requires ServerOk(servers, srv, ms) && Evolved(servers, ms, now)
    ensures ServerOk(servers, srv, now)
  {
    RecordPersists(servers, srv.record, ms, now);
    if srv.seen.Some? {
      EvolvedTransitive(servers, srv.seen.value, ms, now);
    }
  }

  // ---- reading a list -----------------------------------------------------------------------------

  lemma {:induction false} LoopbackFound(list: seq<Member>)
    ensures FirstLoopback(list).Some? ==>
              exists i | 0 <= i < |list| :: list[i] == FirstLoopback(list).value && list[i].peer == LOOPBACK
    ensures FirstLoopback(list).None? ==> forall i | 0 <= i < |list| :: list[i].peer != LOOPBACK
  {
    if list != [] && list[0].peer != LOOPBACK {
      LoopbackFound(list[1..]);
      if FirstLoopback(list).Some? {
        var i :| 0 <= i < |list| - 1 && list[1..][i] == FirstLoopback(list).value && list[1..][i].peer == LOOPBACK;
        assert list[i + 1] == FirstLoopback(list).value;
      } else {
        assert forall i | 0 < i < |list| :: list[1..][i - 1] == list[i];
      }
    }
  }

  lemma {:induction false} LearnerFound(list: seq<Member>)
    ensures FirstLearner(list).Some? ==>
              exists i | 0 <= i < |list| :: list[i] == FirstLearner(list).value && list[i].learner
    ensures FirstLearner(list).None? ==> forall i | 0 <= i < |list| :: !list[i].learner
  {
    if list != [] && !list[0].learner {
      LearnerFound(list[1..]);
      if FirstLearner(list).Some? {
        var i :| 0 <= i < |list| - 1 && list[1..][i] == FirstLearner(list).value && list[1..][i].learner;
        assert list[i + 1] == FirstLearner(list).value;
      } else {
        assert forall i | 0 < i < |list| :: list[1..][i - 1] == list[i];
      }
    }
  }

  lemma {:induction false} MissingFound(declared: seq<Entry>, list: seq<Member>)
    ensures FirstMissing(declared, list).Some? ==>
              Declares(declared, FirstMissing(declared, list).value.peer) && !HasPeer(list, FirstMissing(declared, list).value.peer)
    ensures FirstMissing(declared, list).None? ==> forall i | 0 <= i < |declared| :: Mentions(list, declared[i].peer)
    decreases |declared|
  {
    if declared != [] && !Mentions(list, declared[0].peer) && HasPeer(list, declared[0].peer) {
      PeerMentioned(list, declared[0].peer);
    }
    if declared != [] && Mentions(list, declared[0].peer) {
      MissingFound(declared[1..], list);
      if FirstMissing(declared, list).Some? {
        var peer := FirstMissing(declared, list).value.peer;
        var i :| 0 <= i < |declared| - 1 && declared[1..][i].peer == peer;
        assert declared[i + 1].peer == peer;
      } else {
        assert forall i | 0 < i < |declared| :: declared[1..][i - 1] == declared[i];
      }
    }
  }

  /** An acted-on member is where the stale list had it, in a later state. */
  lemma StillThere(servers: seq<Server>, list: seq<Member>, ms: seq<Member>, i: nat, k: nat)
    requires DistinctMembers(ms) && Evolved(servers, list, ms) && i < |list| && k < |ms| && ms[k].id == list[i].id
    ensures k == i && Follows(servers, list[i], ms[k])
  {
    assert ms[i].id == list[i].id;
  }

  /** Whatever the list said, the call changes members only in ways every observer allows for. */
  lemma ActEvolves(sys: System, i: nat, ok: bool, newId: int)
    requires Safe(sys) && i < |sys.servers| && sys.servers[i].seen.Some?
    ensures var a := Decide(sys.servers[i], sys.servers[i].seen.value);
            var now := Apply(sys.members, a, ok, newId);
            Evolved(sys.servers, sys.members, now) && DistinctMembers(now) && OneLearner(now)
  {
    if Decide(sys.servers[i], sys.servers[i].seen.value).MovePeer? {
      MoveFollows(sys, i, ok, newId);
    }
  }

  lemma MoveFollows(sys: System, i: nat, ok: bool, newId: int)
    requires Safe(sys) && i < |sys.servers| && sys.servers[i].seen.Some?
    requires Decide(sys.servers[i], sys.servers[i].seen.value).MovePeer?
    ensures var now := Apply(sys.members, Decide(sys.servers[i], sys.servers[i].seen.value), ok, newId);
            |now| == |sys.members| && forall k | 0 <= k < |now| :: Follows(sys.servers, sys.members[k], now[k])
  {
    var srv := sys.servers[i];
    var list := srv.seen.value;
    var a := Decide(srv, list);
    var ms := sys.members;
    var now := Apply(ms, a, ok, newId);
    assert ServerOk(sys.servers, srv, ms);
    LoopbackFound(list);
    var l :| 0 <= l < |list| && list[l].id == a.id && list[l].peer == LOOPBACK && list[l].name == srv.name;
    forall k | 0 <= k < |ms|
      ensures Follows(sys.servers, ms[k], now[k])
    {
      if ms[k].id == a.id {
        StillThere(sys.servers, list, ms, l, k);
        assert IsServer(sys.servers, srv.name);
        SoleServer(sys.servers, i, ms[k].peer);
      }
    }
  }

  /** Names are distinct, so a server's name stands for one peer URL. */
  lemma SoleServer(servers: seq<Server>, i: nat, peer: string)
    requires DistinctServers(servers) && i < |servers|
    ensures PeerOf(servers, servers[i].name, peer) <==> peer == servers[i].peer
  {
    if PeerOf(servers, servers[i].name, peer) {
      var j :| 0 <= j < |servers| && servers[j].name == servers[i].name && servers[j].peer == peer;
      assert i == j;
    }
  }

  lemma StartEvolves(sys: System, id: int, name: string, clients: string)
    requires Safe(sys)
    ensures var now := Next(sys, Start(id, name, clients)).members;
            Evolved(sys.servers, sys.members, now) && DistinctMembers(now) && OneLearner(now)
  {
  }

  /** A reconcile records its declaration only off a list where it is exactly the voting set. */
  lemma RecordedList(srv: Server, list: seq<Member>)
    requires Decide(srv, list).Converged?
    ensures forall i | 0 <= i < |list| :: !list[i].learner && list[i].peer != LOOPBACK
    ensures forall i | 0 <= i < |srv.declared| :: srv.declared[i].peer != LOOPBACK && IsVoter(list, srv.declared[i].peer)
    ensures Decide(srv, list).writeRecord ==> forall i | 0 <= i < |list| :: Declares(srv.declared, list[i].peer)
  {
    LoopbackFound(list);
    LearnerFound(list);
    forall i | 0 <= i < |srv.declared|
      ensures srv.declared[i].peer != LOOPBACK && IsVoter(list, srv.declared[i].peer)
    {
      var j :| 0 <= j < |list| && IsStartedVoter(list[j], srv.declared[i].peer);
    }
  }

  lemma StepSafe(sys: System, step: Step)
    requires Safe(sys)
    ensures Safe(Next(sys, step))
    ensures Evolved(sys.servers, sys.members, Next(sys, step).members)
    ensures SameServers(sys.servers, Next(sys, step).servers)
  {
    var t := Next(sys, step);
    assert SameServers(sys.servers, t.servers);
    if step.Act? && step.i < |sys.servers| && sys.servers[step.i].seen.Some? {
      ActEvolves(sys, step.i, step.ok, step.newId);
    } else if step.Start? {
      StartEvolves(sys, step.id, step.name, step.clients);
    }
    assert Evolved(sys.servers, sys.members, t.members);
    forall i | 0 <= i < |t.servers|
      ensures ServerOk(t.servers, t.servers[i], t.members)
    {
      ServerStep(sys, step, i);
    }
  }

  lemma ServerStep(sys: System, step: Step, i: nat)
    requires Safe(sys) && i < |sys.servers|
    requires SameServers(sys.servers, Next(sys, step).servers)
    requires Evolved(sys.servers, sys.members, Next(sys, step).members)
    ensures ServerOk(Next(sys, step).servers, Next(sys, step).servers[i], Next(sys, step).members)
  {
    var t := Next(sys, step);
    var srv := sys.servers[i];
    assert ServerOk(sys.servers, srv, sys.members);
    ServerPersists(sys.servers, srv, sys.members, t.members);
    if step.Act? && step.i == i && srv.seen.Some? {
      var a := Decide(srv, srv.seen.value);
      if a.Converged? && a.writeRecord {
        RecordedList(srv, srv.seen.value);
        EvolvedTransitive(sys.servers, srv.seen.value, sys.members, t.members);
        RecordPersists(sys.servers, t.servers[i].record, srv.seen.value, t.members);
      }
    }
    if t.servers[i].seen.Some? {
      EvolvedSameServers(sys.servers, t.servers, t.servers[i].seen.value, t.members);
    }
  }
}
