/**
 The join probe: should a server with an empty data directory bootstrap or join?
 What the network answers is a parameter: the outcome of every sweep that fits in the probe
 window, and every member list that the join wait obtains.
 */
module JoinProbe {
  import opened Options
  import opened Text
  import opened Growth
  import opened PeerUrls

  /** curl exit 7, curl exit 28, an answer with a failed health call, a healthy answer. */
  datatype Probe = Refused | Silent | Unhealthy | Healthy

  /** One answer per declared peer, in the order they are asked. */
  type Sweep = seq<Probe>

  predicate AllRefused(s: Sweep) {
    forall i | 0 <= i < |s| :: s[i].Refused?
  }

  predicate AnyHealthy(s: Sweep) {
    exists i | 0 <= i < |s| :: s[i].Healthy?
  }

  /** Sweep `k` completes five consecutive sweeps in which every peer refused. */
  predicate Streak(sweeps: seq<Sweep>, k: int)
    requires k < |sweeps|
  {
    k >= 4 && forall j | k - 4 <= j <= k :: AllRefused(sweeps[j])
  }

  datatype Verdict = HealthyPeer(sweep: nat) | AllFresh(sweep: nat) | WindowClosed

  /** Neither a healthy answer nor a full streak before sweep `k`. */
  ghost predicate Undecided(sweeps: seq<Sweep>, k: nat)
    requires k <= |sweeps|
  {
    forall j | 0 <= j < k :: !AnyHealthy(sweeps[j]) && !Streak(sweeps, j)
  }

  /** What the window shows: a healthy answer or a full streak, the first of either kind, or neither. */
  ghost predicate Shows(sweeps: seq<Sweep>, v: Verdict) {
    match v
    case HealthyPeer(k) => k < |sweeps| && AnyHealthy(sweeps[k]) && Undecided(sweeps, k)
    case AllFresh(k) => k < |sweeps| && Streak(sweeps, k) && Undecided(sweeps, k)
    case WindowClosed => Undecided(sweeps, |sweeps|)
  }

  method ProbeWindow(sweeps: seq<Sweep>) returns (v: Verdict)
    ensures Shows(sweeps, v)
  {
    var streak := 0;
    for k := 0 to |sweeps|
      invariant Undecided(sweeps, k)
      invariant 0 <= streak <= k && streak < 5
      invariant forall j | k - streak <= j < k :: AllRefused(sweeps[j])
      invariant streak < k ==> !AllRefused(sweeps[k - streak - 1])
    {
      var healthy, allRefused := AskPeers(sweeps[k]);
      if healthy {
        return HealthyPeer(k);
      }
      if allRefused {
        streak := streak + 1;
        if streak >= 5 {
          return AllFresh(k);
        }
      } else {
        streak := 0;
      }
      assert !Streak(sweeps, k) by {
        if streak <= k {
          assert !AllRefused(sweeps[k - streak]);
        }
      }
    }
    return WindowClosed;
  }

  method AskPeers(s: Sweep) returns (healthy: bool, allRefused: bool)
    ensures healthy <==> AnyHealthy(s)
    ensures !healthy ==> (allRefused <==> AllRefused(s))
  {
    allRefused := true;
    for i := 0 to |s|
      invariant allRefused <==> AllRefused(s[..i])
      invariant forall j | 0 <= j < i :: !s[j].Healthy?
    {
      assert s[..i + 1] == s[..i] + [s[i]];
      if !s[i].Refused? {
        assert !s[..i + 1][i].Refused?;
        allRefused := false;
        if s[i].Healthy? {
          return true, false;
        }
      }
    }
    assert s[..|s|] == s;
    healthy := false;
  }

  // ---- reading the member list -------------------------------------------------------

  datatype Reading = NotYet | FounderRace | Ready(voting: bool, cluster: seq<Entry>)

  function NameOf(r: Member, self: Entry): string {
    if r.peer == self.peer then self.name else r.name
  }

  /** The observed peers, each under its name and this node under its own. */
  function Rendered(rows: seq<Member>, self: Entry): seq<Entry> {
    if rows == [] then []
    else
      var n := |rows| - 1;
      Rendered(rows[..n], self) + if rows[n].peer != "" then [Entry(NameOf(rows[n], self), rows[n].peer)] else []
  }

  predicate NamesPeer(cluster: seq<Entry>, peer: string) {
    exists i | 0 <= i < |cluster| :: cluster[i].peer == peer
  }

  predicate SelfVotes(rows: seq<Member>, self: Entry) {
    exists i | 0 <= i < |rows| :: rows[i].peer != "" && rows[i].peer == self.peer && !rows[i].learner
  }

  predicate NamelessOther(rows: seq<Member>, self: Entry) {
    exists i | 0 <= i < |rows| :: rows[i].peer != "" && rows[i].peer != self.peer && rows[i].name == ""
  }

  /** What a member list tells a joiner. */
  function Read(rows: seq<Member>, self: Entry): Reading {
    if !Mentions(rows, self.peer) then NotYet
    else if NamelessOther(rows, self) then if SelfVotes(rows, self) then FounderRace else NotYet
    else Ready(SelfVotes(rows, self), Rendered(rows, self))
  }

  method RenderJoin(rows: seq<Member>, self: Entry) returns (r: Reading)
    ensures r == Read(rows, self)
  {
    if !Mentions(rows, self.peer) {
      return NotYet;
    }
    var cluster := [];
    var selfVoting, namelessOther := false, false;
    for i := 0 to |rows|
      invariant cluster == Rendered(rows[..i], self)
      invariant selfVoting <==> exists j | 0 <= j < i :: rows[j].peer != "" && rows[j].peer == self.peer && !rows[j].learner
      invariant namelessOther <==> exists j | 0 <= j < i :: rows[j].peer != "" && rows[j].peer != self.peer && rows[j].name == ""
    {
      assert rows[..i + 1][..i] == rows[..i];
      var row := rows[i];
      if row.peer != "" {
        var name := row.name;
        if row.peer == self.peer {
          name := self.name;
          if !row.learner {
            selfVoting := true;
          }
        } else if row.name == "" {
          namelessOther := true;
        }
        cluster := cluster + [Entry(name, row.peer)];
      }
    }
    assert rows[..|rows|] == rows;
    if namelessOther {
      return if selfVoting then FounderRace else NotYet;
    }
    return Ready(selfVoting, cluster);
  }

  /** A rendered initial cluster is the observed peer set, fully named; it includes this node exactly when its URL is one of them. */
  lemma {:induction false} RenderedExact(rows: seq<Member>, self: Entry)
    requires self.name != ""
    ensures forall p :: NamesPeer(Rendered(rows, self), p) <==> p != "" && HasPeer(rows, p)
    ensures self.peer != "" ==> (self in Rendered(rows, self) <==> HasPeer(rows, self.peer))
    ensures !NamelessOther(rows, self) ==> forall e | e in Rendered(rows, self) :: e.name != ""
  {
    forall p
      ensures NamesPeer(Rendered(rows, self), p) <==> p != "" && HasPeer(rows, p)
    {
      RenderedPeer(rows, self, p);
    }
    if self.peer != "" && HasPeer(rows, self.peer) {
      RenderedPeer(rows, self, self.peer);
      var e :| e in Rendered(rows, self) && e.peer == self.peer;
      RenderedName(rows, self, e);
      assert e == self;
    }
    forall e | e in Rendered(rows, self)
      ensures !NamelessOther(rows, self) ==> e.name != ""
    {
      RenderedName(rows, self, e);
    }
  }

  /** Entry by entry the rendered cluster is the list: each row with a URL, in order, under its name or this node's. */
  lemma {:induction false} RenderedNames(rows: seq<Member>, self: Entry)
    requires forall i | 0 <= i < |rows| :: rows[i].peer != ""
    ensures |Rendered(rows, self)| == |rows|
    ensures forall i | 0 <= i < |rows| ::
              && Rendered(rows, self)[i].peer == rows[i].peer
              && (rows[i].peer == self.peer ==> Rendered(rows, self)[i].name == self.name)
              && (rows[i].peer != self.peer ==> Rendered(rows, self)[i].name == rows[i].name)
  {
    if rows != [] {
      RenderedNames(rows[..|rows| - 1], self);
    }
  }

  lemma {:induction false} RenderedPeer(rows: seq<Member>, self: Entry, p: string)
    ensures NamesPeer(Rendered(rows, self), p) <==> p != "" && HasPeer(rows, p)
  {
    if rows != [] {
      var n := |rows| - 1;
      RenderedPeer(rows[..n], self, p);
      HasPeerLast(rows, p);
      if rows[n].peer != "" {
        NamesPeerLast(Rendered(rows[..n], self), Entry(NameOf(rows[n], self), rows[n].peer), p);
      } else {
        assert Rendered(rows, self) == Rendered(rows[..n], self);
      }
    }
  }

  lemma HasPeerLast(rows: seq<Member>, p: string)
    requires rows != []
    ensures HasPeer(rows, p) <==> HasPeer(rows[..|rows| - 1], p) || rows[|rows| - 1].peer == p
  {
    var n := |rows| - 1;
    if HasPeer(rows[..n], p) {
      var i :| 0 <= i < n && rows[..n][i].peer == p;
      assert rows[i].peer == p;
    }
    if i :| 0 <= i < n && rows[i].peer == p {
      assert rows[..n][i].peer == p;
    }
  }

  lemma NamesPeerLast(cluster: seq<Entry>, e: Entry, p: string)
    ensures NamesPeer(cluster + [e], p) <==> NamesPeer(cluster, p) || e.peer == p
  {
    var more := cluster + [e];
    assert more[|cluster|] == e;
    if i :| 0 <= i < |cluster| && cluster[i].peer == p {
      assert more[i].peer == p;
    }
  }

  lemma {:induction false} RenderedName(rows: seq<Member>, self: Entry, e: Entry)
    requires e in Rendered(rows, self)
    ensures e.peer != ""
    ensures e.peer == self.peer ==> e.name == self.name
    ensures e.peer != self.peer && e.name == "" ==> NamelessOther(rows, self)
  {
    var n := |rows| - 1;
    if e in Rendered(rows[..n], self) {
      RenderedName(rows[..n], self, e);
      if e.peer != self.peer && e.name == "" {
        var i :| 0 <= i < n && rows[..n][i].peer != "" && rows[..n][i].peer != self.peer && rows[..n][i].name == "";
        assert rows[i].name == "";
      }
    }
  }

  /**
   The list is searched for the URL as text. Without a nameless member in it, a list never yields
   a cluster that lacks this node if and only if it has this node's row or nothing obscures its URL.
   */
  lemma JoinIncludesSelfIff(rows: seq<Member>, self: Entry)
    requires AllWellFormed(rows) && IsPeerUrl(self.peer) && self.name != "" && !NamelessOther(rows, self)
    ensures (Read(rows, self).Ready? ==> self in Read(rows, self).cluster)
       <==> HasPeer(rows, self.peer) || !Obscured(rows, self.peer)
  {
    PeerUrlNotEmpty(self.peer);
    MentionsPeer(rows, self.peer);
    RenderedExact(rows, self);
  }

  /** On the lists of deployed servers, a cluster to join always includes this node. */
  lemma DeployedJoinIncludesSelf(rows: seq<Member>, self: Entry)
    requires AllDeployed(rows) && IsPeerUrl(self.peer) && self.name != ""
    ensures Read(rows, self).Ready? ==> self in Read(rows, self).cluster
  {
    PeerUrlNotEmpty(self.peer);
    DeployedMentions(rows, self.peer);
    RenderedExact(rows, self);
  }

  /** A member on a port no server renders: its URL holds this node's, and the cluster lacks this node. */
  lemma JoinWithoutSelf()
    ensures
      var rows := [Member(1, "https://10.0.0.1:23801", "n1", "", true, false)];
      var self := Entry("n2", "https://10.0.0.1:2380");
      Read(rows, self) == Ready(false, [Entry("n1", "https://10.0.0.1:23801")])
  {
    var rows := [Member(1, "https://10.0.0.1:23801", "n1", "", true, false)];
    var self := Entry("n2", "https://10.0.0.1:2380");
    assert Line(rows[0])[4..25] == self.peer;
    assert OccursAt(Line(rows[0]), self.peer, 4);
    assert rows[..0] == [];
    assert Rendered(rows[..0], self) == [];
  }

  // ---- the whole probe ---------------------------------------------------------------------

  /**
   What the probe leaves for the launcher. `Placeholder`, `Bootstrap` and `Founder` write cluster
   state "new", `Join` writes "existing"; the last two write nothing and fail the unit.
   */
  datatype Outcome =
    | Placeholder(cluster: seq<Entry>)
    | Bootstrap(cluster: seq<Entry>, fast: bool)
    | Founder(cluster: seq<Entry>)
    | Join(cluster: seq<Entry>)
    | MissingCredentials
    | Degraded

  /** List `i` is the first that settles the matter. */
  ghost predicate FirstDecisive(lists: seq<Option<seq<Member>>>, i: nat, self: Entry)
    requires i < |lists|
  {
    && lists[i].Some? && !Read(lists[i].value, self).NotYet?
    && forall j | 0 <= j < i && lists[j].Some? :: Read(lists[j].value, self).NotYet?
  }

  ghost predicate SawHealthy(sweeps: seq<Sweep>) {
    exists k | 0 <= k < |sweeps| :: Shows(sweeps, HealthyPeer(k))
  }

  /** What each outcome of a probe on an empty data directory, with credentials, says about the answers. */
  ghost predicate Justified(
    o: Outcome, sweeps: seq<Sweep>, lists: seq<Option<seq<Member>>>, declared: seq<Entry>, self: Entry)
  {
    match o
    case Bootstrap(c, fast) =>
      && c == declared
      && if fast then exists k | 0 <= k < |sweeps| :: Shows(sweeps, AllFresh(k)) else Shows(sweeps, WindowClosed)
    case Founder(c) =>
      && c == declared && SawHealthy(sweeps)
      && exists i | 0 <= i < |lists| ::
           && FirstDecisive(lists, i, self)
           && SelfVotes(lists[i].value, self) && NamelessOther(lists[i].value, self)
    case Join(c) =>
      && SawHealthy(sweeps)
      && (forall e | e in c :: e.name != "")
      && exists i | 0 <= i < |lists| ::
           && FirstDecisive(lists, i, self) && !NamelessOther(lists[i].value, self)
           && c == Rendered(lists[i].value, self)
           && (self in c <==> HasPeer(lists[i].value, self.peer))
    case Degraded =>
      && SawHealthy(sweeps)
      && forall i | 0 <= i < |lists| && lists[i].Some? :: Read(lists[i].value, self).NotYet?
    case _ => false
  }

  ghost predicate ListsDeployed(lists: seq<Option<seq<Member>>>) {
    forall i | 0 <= i < |lists| && lists[i].Some? :: AllDeployed(lists[i].value)
  }

  /** `lists` are the answers of the join wait in order; a failed call is None. */
  method RunProbe(
    memberDir: bool, credentials: bool, sweeps: seq<Sweep>, lists: seq<Option<seq<Member>>>,
    declared: seq<Entry>, self: Entry)
    returns (o: Outcome)
    requires self.peer != "" && self.name != ""
    ensures memberDir ==> o == Placeholder(declared)
    ensures !memberDir && !credentials ==> o == MissingCredentials
    ensures !memberDir && credentials ==> Justified(o, sweeps, lists, declared, self)
    ensures o.Join? && IsPeerUrl(self.peer) && ListsDeployed(lists) ==> self in o.cluster
  {
    if memberDir {
      return Placeholder(declared);
    }
    if !credentials {
      return MissingCredentials;
    }
    var v := ProbeWindow(sweeps);
    if v.AllFresh? {
      return Bootstrap(declared, true);
    }
    if v.WindowClosed? {
      return Bootstrap(declared, false);
    }
    for i := 0 to |lists|
      invariant forall j | 0 <= j < i && lists[j].Some? ::
                  Read(lists[j].value, self).NotYet?
    {
      if lists[i].Some? {
        var r := RenderJoin(lists[i].value, self);
        RenderedExact(lists[i].value, self);
        if r.Ready? {
          assert IsPeerUrl(self.peer) && ListsDeployed(lists) ==> self in r.cluster by {
            if IsPeerUrl(self.peer) && ListsDeployed(lists) {
              DeployedJoinIncludesSelf(lists[i].value, self);
            }
          }
          return Join(r.cluster);
        }
        if r.FounderRace? {
          return Founder(declared);
        }
      }
    }
    return Degraded;
  }
}
