/** Safety of growth over whole runs: nothing removed, quorum kept, finitely many changes, honest records. */
module GrowthProofs {
  import opened Options
  import opened Growth
  import opened Text
  import opened PeerUrls
  import Sets

  // ---- runs ---------------------------------------------------------------------

  lemma {:induction false} RunSafe(sys: System, steps: seq<Step>)
    requires Safe(sys)
    ensures Safe(Run(sys, steps))
    ensures Evolved(sys.servers, sys.members, Run(sys, steps).members)
    ensures SameServers(sys.servers, Run(sys, steps).servers)
    decreases |steps|
  {
    if steps != [] {
      var next := Next(sys, steps[0]);
      StepSafe(sys, steps[0]);
      RunSafe(next, steps[1..]);
      EvolvedSameServers(next.servers, sys.servers, next.members, Run(sys, steps).members);
      EvolvedTransitive(sys.servers, sys.members, next.members, Run(sys, steps).members);
    }
  }

  /** No run removes a member, demotes a voter or re-addresses one that is off the loopback URL. */
  lemma NothingRemoved(sys: System, steps: seq<Step>, i: nat)
    requires Safe(sys) && i < |sys.members|
    ensures var now := Run(sys, steps).members;
            && |sys.members| <= |now|
            && now[i].id == sys.members[i].id
            && (!sys.members[i].learner ==> !now[i].learner)
            && (sys.members[i].peer != LOOPBACK ==> now[i].peer == sys.members[i].peer)
  {
    RunSafe(sys, steps);
    assert Follows(sys.servers, sys.members[i], Run(sys, steps).members[i]);
  }

  // ---- quorum ------------------------------------------------------------------------

  function Voters(ms: seq<Member>): nat {
    if ms == [] then 0 else Voters(ms[..|ms| - 1]) + if ms[|ms| - 1].learner then 0 else 1
  }

  function StartedVoters(ms: seq<Member>): nat {
    if ms == [] then 0
    else StartedVoters(ms[..|ms| - 1]) + if ms[|ms| - 1].started && !ms[|ms| - 1].learner then 1 else 0
  }

  /** A strict majority of the voters is running. */
  predicate Quorate(ms: seq<Member>) {
    2 * StartedVoters(ms) > Voters(ms)
  }

  function Weight(m: Member): int {
    if m.learner then 0 else if m.started then 1 else -1
  }

  function Margin(ms: seq<Member>): int {
    if ms == [] then 0 else Margin(ms[..|ms| - 1]) + Weight(ms[|ms| - 1])
  }

  lemma {:induction false} MarginMeans(ms: seq<Member>)
    ensures Margin(ms) == 2 * StartedVoters(ms) - Voters(ms)
  {
    if ms != [] {
      MarginMeans(ms[..|ms| - 1]);
    }
  }

  lemma {:induction false} MarginGrows(a: seq<Member>, b: seq<Member>)
    requires |a| <= |b|
    requires forall i | 0 <= i < |a| :: Weight(a[i]) <= Weight(b[i])
    requires forall i | |a| <= i < |b| :: Weight(b[i]) >= 0
    ensures Margin(a) <= Margin(b)
    decreases |b|
  {
    if b != [] {
      var n := |b| - 1;
      if |a| == |b| {
        MarginGrows(a[..n], b[..n]);
      } else {
        MarginGrows(a, b[..n]);
      }
    }
  }

  /** A promotion is decided on a list that showed the learner started, and starting is for good. */
  lemma PromotedIsStarted(sys: System, i: nat, k: nat)
    requires Safe(sys) && i < |sys.servers| && sys.servers[i].seen.Some? && k < |sys.members|
    requires var a := Decide(sys.servers[i], sys.servers[i].seen.value); a.Promote? && sys.members[k].id == a.id
    ensures sys.members[k].started
  {
    var list := sys.servers[i].seen.value;
    assert ServerOk(sys.servers, sys.servers[i], sys.members);
    LearnerFound(list);
    var l :| 0 <= l < |list| && list[l] == FirstLearner(list).value && list[l].learner;
    StillThere(sys.servers, list, sys.members, l, k);
  }

  /** No step of any loop, and no member starting, narrows the margin of started voters. */
  lemma MarginKept(sys: System, step: Step)
    requires Safe(sys)
    ensures Margin(sys.members) <= Margin(Next(sys, step).members)
  {
    var now := Next(sys, step).members;
    forall k | 0 <= k < |sys.members|
      ensures |sys.members| <= |now| && Weight(sys.members[k]) <= Weight(now[k])
    {
      if step.Act? && step.i < |sys.servers| && sys.servers[step.i].seen.Some? {
        var a := Decide(sys.servers[step.i], sys.servers[step.i].seen.value);
        if a.Promote? && sys.members[k].id == a.id {
          PromotedIsStarted(sys, step.i, k);
        }
      }
    }
    MarginGrows(sys.members, now);
  }

  lemma {:induction false} QuorumKept(sys: System, steps: seq<Step>)
    requires Safe(sys) && Quorate(sys.members)
    ensures Quorate(Run(sys, steps).members)
    decreases |steps|
  {
    if steps != [] {
      StepSafe(sys, steps[0]);
      MarginKept(sys, steps[0]);
      MarginMeans(sys.members);
      MarginMeans(Next(sys, steps[0]).members);
      QuorumKept(Next(sys, steps[0]), steps[1..]);
    }
  }

  // ---- finitely many changes ------------------------------------------------------------

  function Missing(universe: set<string>, ms: seq<Member>): set<string> {
    set p | p in universe && !HasPeer(ms, p)
  }

  /** Two changes for every peer still to come, one for a learner still to be promoted. */
  function Remaining(universe: set<string>, ms: seq<Member>): nat {
    2 * |Missing(universe, ms)| + if HasLearner(ms) then 1 else 0
  }

  ghost predicate Within(declared: seq<Entry>, universe: set<string>) {
    forall i | 0 <= i < |declared| :: declared[i].peer in universe
  }

  ghost predicate AllWithin(sys: System, universe: set<string>) {
    forall i | 0 <= i < |sys.servers| :: Within(sys.servers[i].declared, universe)
  }

  ghost predicate StepWithin(step: Step, universe: set<string>) {
    step.Redeclare? ==> Within(step.declared, universe)
  }

  /** A member add or promote that etcd accepted. */
  ghost predicate Changes(sys: System, step: Step) {
    && step.Act? && step.i < |sys.servers| && sys.servers[step.i].seen.Some?
    && var a := Decide(sys.servers[step.i], sys.servers[step.i].seen.value);
       (a.AddLearner? || a.Promote?) && Next(sys, step).members != sys.members
  }

  ghost function CountChanges(sys: System, steps: seq<Step>): nat
    decreases |steps|
  {
    if steps == [] then 0
    else (if Changes(sys, steps[0]) then 1 else 0) + CountChanges(Next(sys, steps[0]), steps[1..])
  }

  lemma MissingShrinks(servers: seq<Server>, universe: set<string>, ms: seq<Member>, now: seq<Member>)
    requires Evolved(servers, ms, now) && LOOPBACK !in universe
    ensures Missing(universe, now) <= Missing(universe, ms)
    ensures |Missing(universe, now)| <= |Missing(universe, ms)|
  {
    forall p | p in universe && HasPeer(ms, p)
      ensures HasPeer(now, p)
    {
      var i :| 0 <= i < |ms| && ms[i].peer == p;
      assert Follows(servers, ms[i], now[i]);
    }
    Sets.SubsetSize(Missing(universe, now), Missing(universe, ms));
  }

  lemma AddShrinks(universe: set<string>, ms: seq<Member>, m: Member)
    requires m.peer in universe && !HasPeer(ms, m.peer)
    ensures |Missing(universe, ms + [m])| + 1 <= |Missing(universe, ms)|
  {
    var now := ms + [m];
    assert now[|ms|] == m;
    forall p | HasPeer(ms, p)
      ensures HasPeer(now, p)
    {
      var i :| 0 <= i < |ms| && ms[i].peer == p;
      assert now[i].peer == p;
    }
    assert Missing(universe, now) <= Missing(universe, ms) - {m.peer};
    Sets.SubsetSize(Missing(universe, now), Missing(universe, ms) - {m.peer});
  }

  /** The only learner is the one promoted. */
  lemma PromoteClears(ms: seq<Member>, id: int, newId: int)
    requires OneLearner(ms) && Apply(ms, Promote(id), true, newId) != ms
    ensures HasLearner(ms) && !HasLearner(Apply(ms, Promote(id), true, newId))
  {
    var now := Apply(ms, Promote(id), true, newId);
    var k :| 0 <= k < |ms| && now[k] != ms[k];
    assert ms[k].learner;
  }

  lemma RemainingDrops(sys: System, step: Step, universe: set<string>)
    requires Safe(sys) && AllWithin(sys, universe) && StepWithin(step, universe) && LOOPBACK !in universe
    ensures AllWithin(Next(sys, step), universe)
    ensures Remaining(universe, Next(sys, step).members) + (if Changes(sys, step) then 1 else 0)
         <= Remaining(universe, sys.members)
  {
    var ms, now := sys.members, Next(sys, step).members;
    StepSafe(sys, step);
    MissingShrinks(sys.servers, universe, ms, now);
    if Changes(sys, step) {
      var srv := sys.servers[step.i];
      var a := Decide(srv, srv.seen.value);
      if a.AddLearner? {
        MissingFound(srv.declared, srv.seen.value);
        AddShrinks(universe, ms, Member(step.newId, a.peer, "", "", false, true));
      } else {
        PromoteClears(ms, a.id, step.newId);
      }
    } else {
      LearnersAppearOnlyByAdd(sys, step);
    }
  }

  lemma LearnersAppearOnlyByAdd(sys: System, step: Step)
    requires !Changes(sys, step)
    ensures HasLearner(Next(sys, step).members) ==> HasLearner(sys.members)
  {
    var now := Next(sys, step).members;
    if HasLearner(now) {
      var k :| 0 <= k < |now| && now[k].learner;
      assert sys.members[k].learner;
    }
  }

  /** However the loops interleave, they add and promote no more than the declarations leave to do. */
  lemma {:induction false} ChangesBounded(sys: System, steps: seq<Step>, universe: set<string>)
    requires Safe(sys) && AllWithin(sys, universe) && LOOPBACK !in universe
    requires forall i | 0 <= i < |steps| :: StepWithin(steps[i], universe)
    ensures CountChanges(sys, steps) + Remaining(universe, Run(sys, steps).members) <= Remaining(universe, sys.members)
    decreases |steps|
  {
    if steps != [] {
      StepSafe(sys, steps[0]);
      RemainingDrops(sys, steps[0], universe);
      ChangesBounded(Next(sys, steps[0]), steps[1..], universe);
    }
  }

  // ---- records ---------------------------------------------------------------------------------

  /** A reconcile's record names voting members only, now and at every later time. */
  lemma RecordedStayVoters(sys: System, steps: seq<Step>, i: nat, e: Entry)
    requires Safe(sys) && i < |sys.servers|
    requires sys.servers[i].record.Some? && sys.servers[i].record.value.byReconcile && e in sys.servers[i].record.value.entries
    ensures IsVoter(Run(sys, steps).members, e.peer)
  {
    RunSafe(sys, steps);
    var r := sys.servers[i].record;
    assert ServerOk(sys.servers, sys.servers[i], sys.members);
    RecordPersists(sys.servers, r, sys.members, Run(sys, steps).members);
    var k :| 0 <= k < |r.value.entries| && r.value.entries[k] == e;
  }

  /** A declaration that drops a recorded peer is never recorded over it. */
  lemma RecordNeverDrops(sys: System, i: nat, ok: bool, newId: int, e: Entry)
    requires Safe(sys) && i < |sys.servers|
    requires sys.servers[i].record.Some? && sys.servers[i].record.value.byReconcile && e in sys.servers[i].record.value.entries
    requires Next(sys, Act(i, ok, newId)).servers[i].record != sys.servers[i].record
    ensures Next(sys, Act(i, ok, newId)).servers[i].record == Some(Record(sys.servers[i].declared, true))
    ensures Declares(sys.servers[i].declared, e.peer)
  {
    var srv := sys.servers[i];
    var list := srv.seen.value;
    assert ServerOk(sys.servers, srv, sys.members);
    RecordedList(srv, list);
    var k :| 0 <= k < |srv.record.value.entries| && srv.record.value.entries[k] == e;
    var j :| 0 <= j < |list| && list[j].peer == e.peer && !list[j].learner;
  }

  // ---- what a list leads to -----------------------------------------------------------------

  ghost predicate NoLoopback(list: seq<Member>) {
    forall i | 0 <= i < |list| :: list[i].peer != LOOPBACK
  }

  ghost predicate NoLearner(list: seq<Member>) {
    forall i | 0 <= i < |list| :: !list[i].learner
  }

  /** A peer URL is moved exactly when this node's own member still has the loopback one, and to this node's URL. */
  lemma MovesIff(srv: Server, list: seq<Member>, id: int, peer: string)
    requires DistinctMembers(list)
    ensures Decide(srv, list) == MovePeer(id, peer)
       <==> peer == srv.peer
            && exists i | 0 <= i < |list| :: list[i].peer == LOOPBACK && list[i].name == srv.name && list[i].id == id
  {
    LoopbackFound(list);
    if FirstLoopback(list).Some? {
      var i :| 0 <= i < |list| && list[i] == FirstLoopback(list).value && list[i].peer == LOOPBACK;
      assert forall k | 0 <= k < |list| && list[k].peer == LOOPBACK :: k == i;
    }
  }

  /** A member is promoted exactly when no loopback URL is listed and it is the learner and has started. */
  lemma PromotesIff(srv: Server, list: seq<Member>, id: int)
    requires OneLearner(list)
    ensures Decide(srv, list) == Promote(id)
       <==> NoLoopback(list) && exists i | 0 <= i < |list| :: list[i].learner && list[i].started && list[i].id == id
  {
    LoopbackFound(list);
    LearnerFound(list);
    if FirstLearner(list).Some? {
      var i :| 0 <= i < |list| && list[i] == FirstLearner(list).value && list[i].learner;
      assert forall k | 0 <= k < |list| && list[k].learner :: k == i;
    }
  }

  ghost predicate VotesStarted(list: seq<Member>, peer: string) {
    exists j | 0 <= j < |list| :: list[j].peer == peer && list[j].started && !list[j].learner
  }

  /** Every declared peer is a started voter of the list. */
  ghost predicate Joined(declared: seq<Entry>, list: seq<Member>) {
    forall i | 0 <= i < |declared| :: VotesStarted(list, declared[i].peer)
  }

  lemma AllInMeans(declared: seq<Entry>, list: seq<Member>)
    ensures AllIn(declared, list) <==> Joined(declared, list)
    ensures Joined(declared, list) ==> FirstMissing(declared, list).None?
  {
    forall i | 0 <= i < |declared|
      ensures (exists j | 0 <= j < |list| :: IsStartedVoter(list[j], declared[i].peer)) <==> VotesStarted(list, declared[i].peer)
      ensures VotesStarted(list, declared[i].peer) ==> Mentions(list, declared[i].peer)
    {
      if VotesStarted(list, declared[i].peer) {
        var j :| 0 <= j < |list| && list[j].peer == declared[i].peer && list[j].started && !list[j].learner;
        assert IsStartedVoter(list[j], declared[i].peer);
        PeerMentioned(list, declared[i].peer);
      }
    }
    UnmentionedFound(declared, list);
  }

  /**
   The loop converges exactly when there is neither loopback URL nor learner and every declared
   peer is a started voter; it records exactly when also every listed peer is declared and the
   record says something else.
   */
  lemma ConvergesIff(srv: Server, list: seq<Member>)
    ensures Decide(srv, list).Converged? <==> NoLoopback(list) && NoLearner(list) && Joined(srv.declared, list)
    ensures Decide(srv, list).Converged? ==>
              (Decide(srv, list).writeRecord <==>
                 && (forall j | 0 <= j < |list| :: Declares(srv.declared, list[j].peer))
                 && (srv.record.None? || srv.record.value.entries != srv.declared))
  {
    LoopbackFound(list);
    LearnerFound(list);
    AllInMeans(srv.declared, list);
  }

  /** A member is added exactly when neither loopback URL nor learner is listed and it is the first declared one unmentioned. */
  lemma AddsFirstIff(srv: Server, list: seq<Member>, name: string, peer: string)
    ensures Decide(srv, list) == AddLearner(name, peer)
       <==> NoLoopback(list) && NoLearner(list) && FirstUnmentioned(srv.declared, list, Entry(name, peer))
  {
    LoopbackFound(list);
    LearnerFound(list);
    FirstMissingIs(srv.declared, list, Entry(name, peer));
  }

  ghost predicate FirstUnmentioned(declared: seq<Entry>, list: seq<Member>, e: Entry) {
    exists k | 0 <= k < |declared| ::
      && declared[k] == e && !Mentions(list, e.peer)
      && forall j | 0 <= j < k :: Mentions(list, declared[j].peer)
  }

  lemma {:induction false} FirstMissingIs(declared: seq<Entry>, list: seq<Member>, e: Entry)
    ensures FirstMissing(declared, list) == Some(e) <==> FirstUnmentioned(declared, list, e)
    decreases |declared|
  {
    if declared != [] {
      var rest := declared[1..];
      if Mentions(list, declared[0].peer) {
        FirstMissingIs(rest, list, e);
        if k :| 0 <= k < |declared| && declared[k] == e && !Mentions(list, e.peer)
                && forall j | 0 <= j < k :: Mentions(list, declared[j].peer) {
          assert rest[k - 1] == e && forall j | 0 <= j < k - 1 :: rest[j] == declared[j + 1];
        }
        if k :| 0 <= k < |rest| && rest[k] == e && !Mentions(list, e.peer)
                && forall j | 0 <= j < k :: Mentions(list, rest[j].peer) {
          assert declared[k + 1] == e;
          forall j | 0 <= j < k + 1
            ensures Mentions(list, declared[j].peer)
          {
            assert j > 0 ==> rest[j - 1] == declared[j];
          }
        }
      } else {
        assert FirstMissing(declared, list) == Some(declared[0]);
        if declared[0] == e {
          assert FirstUnmentioned(declared, list, e);
        }
      }
    }
  }

  lemma AddsWhatIsUnmentioned(srv: Server, list: seq<Member>)
    requires FirstLoopback(list).None? && FirstLearner(list).None?
    ensures Decide(srv, list).AddLearner? <==> exists i | 0 <= i < |srv.declared| :: !Mentions(list, srv.declared[i].peer)
    ensures !Decide(srv, list).AddLearner? && (exists i | 0 <= i < |srv.declared| :: !HasPeer(list, srv.declared[i].peer))
            ==> Decide(srv, list) == Wait
  {
    UnmentionedFound(srv.declared, list);
    if i :| 0 <= i < |srv.declared| && !HasPeer(list, srv.declared[i].peer) {
      assert !(exists j | 0 <= j < |list| :: IsStartedVoter(list[j], srv.declared[i].peer));
    }
  }

  ghost predicate DeclaredOk(declared: seq<Entry>) {
    forall i | 0 <= i < |declared| :: IsPeerUrl(declared[i].peer)
  }

  /** A list makes the loop add exactly when some declared peer is missing from it and nothing obscures its URL. */
  lemma AddsUnlessObscured(srv: Server, list: seq<Member>)
    requires FirstLoopback(list).None? && FirstLearner(list).None?
    requires AllWellFormed(list) && DeclaredOk(srv.declared)
    ensures Decide(srv, list).AddLearner?
       <==> exists i | 0 <= i < |srv.declared| :: !HasPeer(list, srv.declared[i].peer) && !Obscured(list, srv.declared[i].peer)
  {
    AddsWhatIsUnmentioned(srv, list);
    forall i | 0 <= i < |srv.declared|
      ensures Mentions(list, srv.declared[i].peer) <==> HasPeer(list, srv.declared[i].peer) || Obscured(list, srv.declared[i].peer)
    {
      MentionsPeer(list, srv.declared[i].peer);
    }
  }

  /** On the lists of deployed servers: exactly when some declared peer is missing. */
  lemma AddsWhatIsMissing(srv: Server, list: seq<Member>)
    requires FirstLoopback(list).None? && FirstLearner(list).None?
    requires AllDeployed(list) && DeclaredOk(srv.declared)
    ensures Decide(srv, list).AddLearner? <==> exists i | 0 <= i < |srv.declared| :: !HasPeer(list, srv.declared[i].peer)
  {
    AddsWhatIsUnmentioned(srv, list);
    forall i | 0 <= i < |srv.declared|
      ensures Mentions(list, srv.declared[i].peer) <==> HasPeer(list, srv.declared[i].peer)
    {
      DeployedMentions(list, srv.declared[i].peer);
    }
  }

  /** A missing peer hidden by a member on a longer port: the loop waits. */
  lemma HiddenPeerWaits()
    ensures
      var list := [Member(1, "https://10.0.0.1:23801", "n1", "", true, false)];
      var srv := Server("n2", "https://10.0.0.1:2380", [Entry("n2", "https://10.0.0.1:2380")], None, None);
      !HasPeer(list, srv.peer) && Decide(srv, list) == Wait
  {
    var list := [Member(1, "https://10.0.0.1:23801", "n1", "", true, false)];
    var srv := Server("n2", "https://10.0.0.1:2380", [Entry("n2", "https://10.0.0.1:2380")], None, None);
    assert Line(list[0])[4..25] == srv.peer;
    assert OccursAt(Line(list[0]), srv.peer, 4);
    assert |list[0].peer| != |srv.peer| && list[0].peer[14] != LOOPBACK[14];
    assert list[1..] == [];
    AddsWhatIsUnmentioned(srv, list);
    assert !HasPeer(list, srv.declared[0].peer);
  }

  lemma {:induction false} UnmentionedFound(declared: seq<Entry>, list: seq<Member>)
    ensures FirstMissing(declared, list).Some? <==> exists i | 0 <= i < |declared| :: !Mentions(list, declared[i].peer)
    decreases |declared|
  {
    if declared != [] && Mentions(list, declared[0].peer) {
      UnmentionedFound(declared[1..], list);
      if i :| 0 <= i < |declared| && !Mentions(list, declared[i].peer) {
        assert declared[1..][i - 1] == declared[i];
      }
      if i :| 0 <= i < |declared| - 1 && !Mentions(list, declared[1..][i].peer) {
        assert !Mentions(list, declared[i + 1].peer);
      }
    }
  }

  // ---- runs of deployed servers ---------------------------------------------------------------

  ghost predicate ServerDeployed(srv: Server) {
    IsPeerUrl(srv.peer) && DeclaredOk(srv.declared) && (srv.seen.Some? ==> AllDeployed(srv.seen.value))
  }

  ghost predicate SystemDeployed(sys: System) {
    AllDeployed(sys.members) && forall i | 0 <= i < |sys.servers| :: ServerDeployed(sys.servers[i])
  }

  /** Members start under their node's name and client URL; declarations list rendered peer URLs. */
  ghost predicate StepDeployed(step: Step) {
    && (step.Start? ==> '/' !in step.name && (step.clients == "" || IsClientUrl(step.clients)))
    && (step.Redeclare? ==> DeclaredOk(step.declared))
  }

  lemma DecidedPeer(srv: Server, list: seq<Member>)
    requires ServerDeployed(srv)
    ensures var a := Decide(srv, list); a.AddLearner? || a.MovePeer? ==> IsPeerUrl(a.peer)
  {
    MissingFound(srv.declared, list);
  }

  lemma ApplyDeployed(members: seq<Member>, a: Action, ok: bool, newId: int)
    requires AllDeployed(members) && (a.AddLearner? || a.MovePeer? ==> IsPeerUrl(a.peer))
    ensures AllDeployed(Apply(members, a, ok, newId))
  {
    if a.AddLearner? {
      assert Deployed(Member(newId, a.peer, "", "", false, true));
    }
  }

  lemma NextDeployed(sys: System, step: Step)
    requires SystemDeployed(sys) && StepDeployed(step)
    ensures SystemDeployed(Next(sys, step))
  {
    if step.Act? && step.i < |sys.servers| && sys.servers[step.i].seen.Some? {
      var srv := sys.servers[step.i];
      DecidedPeer(srv, srv.seen.value);
      ApplyDeployed(sys.members, Decide(srv, srv.seen.value), step.ok, step.newId);
    }
  }

  /** Deployed servers stay deployed, so in all their runs a loop adds whenever a declared peer is missing. */
  lemma {:induction false} RunDeployed(sys: System, steps: seq<Step>)
    requires SystemDeployed(sys) && forall i | 0 <= i < |steps| :: StepDeployed(steps[i])
    ensures SystemDeployed(Run(sys, steps))
    ensures forall i | 0 <= i < |Run(sys, steps).servers| && Run(sys, steps).servers[i].seen.Some? ::
              var srv, list := Run(sys, steps).servers[i], Run(sys, steps).servers[i].seen.value;
              FirstLoopback(list).None? && FirstLearner(list).None? ==>
                (Decide(srv, list).AddLearner? <==> exists k | 0 <= k < |srv.declared| :: !HasPeer(list, srv.declared[k].peer))
    decreases |steps|
  {
    if steps != [] {
      NextDeployed(sys, steps[0]);
      RunDeployed(Next(sys, steps[0]), steps[1..]);
    } else {
      forall i | 0 <= i < |sys.servers| && sys.servers[i].seen.Some?
        ensures
          var srv, list := sys.servers[i], sys.servers[i].seen.value;
          FirstLoopback(list).None? && FirstLearner(list).None? ==>
            (Decide(srv, list).AddLearner? <==> exists k | 0 <= k < |srv.declared| :: !HasPeer(list, srv.declared[k].peer))
      {
        if FirstLoopback(sys.servers[i].seen.value).None? && FirstLearner(sys.servers[i].seen.value).None? {
          AddsWhatIsMissing(sys.servers[i], sys.servers[i].seen.value);
        }
      }
    }
  }

  // ---- the loop body, as the script computes it --------------------------------------------------

  method Iterate(srv: Server, list: seq<Member>) returns (a: Action)
    ensures a == Decide(srv, list)
  {
    var loopback := FirstLoopback(list);
    if loopback.Some? {
      return if loopback.value.name == srv.name then MovePeer(loopback.value.id, srv.peer) else Wait;
    }
    var extras := Extras(srv.declared, list);
    var learner := FirstLearner(list);
    if learner.Some? {
      return if learner.value.started then Promote(learner.value.id) else Wait;
    }
    var missing := FindMissing(srv.declared, list);
    if missing.Some? {
      return AddLearner(missing.value.name, missing.value.peer);
    }
    var allIn := CheckVoting(srv.declared, list);
    if allIn {
      return Converged(extras == [] && (srv.record.None? || srv.record.value.entries != srv.declared));
    }
    return Wait;
  }

  method Extras(declared: seq<Entry>, list: seq<Member>) returns (extras: seq<string>)
    ensures extras == [] <==> NoExtras(declared, list)
  {
    extras := [];
    for i := 0 to |list|
      invariant extras == [] <==> NoExtras(declared, list[..i])
    {
      assert list[..i + 1] == list[..i] + [list[i]];
      if !Declares(declared, list[i].peer) {
        assert !Declares(declared, list[..i + 1][i].peer);
        extras := extras + [list[i].peer];
      }
    }
    assert list[..|list|] == list;
  }

  method FindMissing(declared: seq<Entry>, list: seq<Member>) returns (missing: Option<Entry>)
    ensures missing == FirstMissing(declared, list)
  {
    var n := 0;
    assert declared[0..] == declared;
    while n < |declared| && Mentions(list, declared[n].peer)
      invariant n <= |declared|
      invariant FirstMissing(declared, list) == FirstMissing(declared[n..], list)
    {
      assert declared[n..][1..] == declared[n + 1..];
      n := n + 1;
    }
    missing := if n < |declared| then Some(declared[n]) else None;
  }

  method CheckVoting(declared: seq<Entry>, list: seq<Member>) returns (allIn: bool)
    ensures allIn <==> AllIn(declared, list)
  {
    allIn := true;
    for i := 0 to |declared|
      invariant allIn <==> AllIn(declared[..i], list)
    {
      assert declared[..i + 1] == declared[..i] + [declared[i]];
      if !(exists j | 0 <= j < |list| :: IsStartedVoter(list[j], declared[i].peer)) {
        assert !(exists j | 0 <= j < |list| :: IsStartedVoter(list[j], declared[..i + 1][i].peer));
        allIn := false;
      }
    }
    assert declared[..|declared|] == declared;
  }
}
