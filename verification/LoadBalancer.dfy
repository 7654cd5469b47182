/** Backend health and dial order of the TCP load balancer. */
module LoadBalancer {
  import opened Options

  // ---- probe outcomes ---------------------------------------------------------------------

  const U32: nat := 0x1_0000_0000

  datatype Health = Health(fails: nat, healthy: bool)

  const UNPROBED := Health(0, false)

  /** One probe outcome: the stored counter wraps, the compared value saturates. */
  function Observe(h: Health, ok: bool, threshold: nat): Health {
    if ok then Health(0, true)
    else
      var f := if h.fails + 1 < U32 then h.fails + 1 else U32 - 1;
      Health((h.fails + 1) % 0x1_0000_0000, h.healthy && f < threshold)
  }

  function Observed(outcomes: seq<bool>, threshold: nat): Health {
    if outcomes == [] then UNPROBED
    else Observe(Observed(outcomes[..|outcomes| - 1], threshold), outcomes[|outcomes| - 1], threshold)
  }

  lemma ObservedNext(outcomes: seq<bool>, ok: bool, threshold: nat)
    ensures Observed(outcomes + [ok], threshold) == Observe(Observed(outcomes, threshold), ok, threshold)
  {
    assert (outcomes + [ok])[..|outcomes|] == outcomes;
  }

  /** The last success lies fewer than `threshold` probes back. */
  ghost predicate Serving(outcomes: seq<bool>, threshold: nat) {
    exists k :: SuccessAt(outcomes, k) && |outcomes| - 1 - k < threshold
  }

  predicate SuccessAt(outcomes: seq<bool>, k: int) {
    0 <= k < |outcomes| && outcomes[k]
  }

  /** Length of the trailing run of failures. */
  function Failing(outcomes: seq<bool>): (n: nat)
    ensures n <= |outcomes|
    ensures forall k | |outcomes| - n <= k < |outcomes| :: !outcomes[k]
    ensures n < |outcomes| ==> SuccessAt(outcomes, |outcomes| - 1 - n)
  {
    if outcomes == [] || outcomes[|outcomes| - 1] then 0 else 1 + Failing(outcomes[..|outcomes| - 1])
  }

  lemma ServingIsFailing(outcomes: seq<bool>, threshold: nat)
    ensures Serving(outcomes, threshold) <==> Failing(outcomes) < |outcomes| && Failing(outcomes) < threshold
  {
    var n := Failing(outcomes);
    if Serving(outcomes, threshold) {
      var k :| SuccessAt(outcomes, k) && |outcomes| - 1 - k < threshold;
      assert k < |outcomes| - n;
    }
    if n < |outcomes| && n < threshold {
      assert SuccessAt(outcomes, |outcomes| - 1 - n);
    }
  }

  lemma WrapNext(x: nat)
    ensures (x % 0x1_0000_0000 + 1) % 0x1_0000_0000 == (x + 1) % 0x1_0000_0000
    ensures x < 0x1_0000_0000 ==> x % 0x1_0000_0000 == x
  {
  }

  lemma {:induction false} CounterWraps(outcomes: seq<bool>, threshold: nat)
    requires 1 <= threshold < U32
    ensures Observed(outcomes, threshold).fails == Failing(outcomes) % 0x1_0000_0000
    ensures Observed(outcomes, threshold).healthy <==> Failing(outcomes) < |outcomes| && Failing(outcomes) < threshold
  {
    if outcomes != [] {
      var before := outcomes[..|outcomes| - 1];
      CounterWraps(before, threshold);
      WrapNext(Failing(before));
    }
  }

  /** Healthy exactly when some probe succeeded and fewer than `threshold` failed since, whatever the counter did. */
  lemma HealthyIffServing(outcomes: seq<bool>, threshold: nat)
    requires 1 <= threshold < U32
    ensures Observed(outcomes, threshold).healthy <==> Serving(outcomes, threshold)
  {
    CounterWraps(outcomes, threshold);
    ServingIsFailing(outcomes, threshold);
  }

  /** The health loop's state; `outcomes[b]` is the full probe history of backend b. */
  class HealthLoop {
    const threshold: nat
    const fails: array<nat>
    const healthy: array<bool>
    var everReady: bool
    var notified: nat
    ghost var outcomes: seq<seq<bool>>

    ghost predicate Valid()
      reads this, fails, healthy
    {
      && 1 <= threshold < U32
      && fails.Length == healthy.Length == |outcomes|
      && (forall b | 0 <= b < |outcomes| :: Health(fails[b], healthy[b]) == Observed(outcomes[b], threshold))
      && (everReady <==> AnySuccess(outcomes))
      && notified == (if everReady then 1 else 0)
    }

    constructor (n: nat, threshold: nat)
      requires 1 <= threshold < U32
      ensures Valid() && fresh(fails) && fresh(healthy)
      ensures this.threshold == threshold && outcomes == seq(n, _ => [])
    {
      this.threshold := threshold;
      fails := new nat[n](_ => 0);
      healthy := new bool[n](_ => false);
      everReady, notified := false, 0;
      outcomes := seq(n, _ => []);
    }

    /** One probe of backend b. Health is what the history says, other backends keep theirs, READY is sent once. */
    method Record(b: nat, ok: bool)
      requires Valid() && b < |outcomes|
      modifies this`everReady, this`notified, this`outcomes, fails, healthy
      ensures Valid()
      ensures outcomes == old(outcomes)[b := old(outcomes)[b] + [ok]]
      ensures healthy[b] <==> Serving(outcomes[b], threshold)
      ensures forall c | 0 <= c < |outcomes| && c != b :: healthy[c] == old(healthy[c])
      ensures notified == old(notified) + (if ok && !AnySuccess(old(outcomes)) then 1 else 0)
    {
      AnySuccessGrows(outcomes, b, ok);
      ghost var longer := outcomes[b] + [ok];
      ObservedNext(outcomes[b], ok, threshold);
      if ok {
        fails[b] := 0;
        healthy[b] := true;
        if !everReady {
          everReady := true;
          notified := notified + 1;
        }
      } else {
        var f := if fails[b] + 1 < U32 then fails[b] + 1 else U32 - 1;
        fails[b] := (fails[b] + 1) % 0x1_0000_0000;
        if f >= threshold {
          healthy[b] := false;
        }
      }
      outcomes := outcomes[b := longer];
      HealthyIffServing(longer, threshold);
    }

    /** One round over all backends, in order. */
    method Round(oks: seq<bool>)
      requires Valid() && |oks| == |outcomes|
      modifies this`everReady, this`notified, this`outcomes, fails, healthy
      ensures Valid()
      ensures |outcomes| == |oks|
      ensures forall b | 0 <= b < |oks| :: outcomes[b] == old(outcomes)[b] + [oks[b]]
      ensures forall b | 0 <= b < |oks| :: healthy[b] <==> Serving(outcomes[b], threshold)
    {
      for b := 0 to |oks|
        invariant Valid() && |outcomes| == |oks|
        invariant forall c | 0 <= c < b :: outcomes[c] == old(outcomes)[c] + [oks[c]]
        invariant forall c | b <= c < |oks| :: outcomes[c] == old(outcomes)[c]
        invariant forall c | 0 <= c < b :: healthy[c] <==> Serving(outcomes[c], threshold)
      {
        Record(b, oks[b]);
      }
    }
  }

  ghost predicate AnySuccess(outcomes: seq<seq<bool>>) {
    exists b | 0 <= b < |outcomes| :: true in outcomes[b]
  }

  lemma AnySuccessGrows(outcomes: seq<seq<bool>>, b: nat, ok: bool)
    requires b < |outcomes|
    ensures AnySuccess(outcomes[b := outcomes[b] + [ok]]) <==> ok || AnySuccess(outcomes)
  {
    var after := outcomes[b := outcomes[b] + [ok]];
    assert true in after[b] <==> ok || true in outcomes[b];
    if AnySuccess(outcomes) {
      var c :| 0 <= c < |outcomes| && true in outcomes[c];
      assert true in after[c];
    }
  }

  // ---- dial order -----------------------------------------------------------------------------

  /** The indices cursor, cursor + 1, ... modulo n, `m` of them, keeping one health class. */
  function Rotated(healthy: seq<bool>, cursor: nat, keep: bool, m: nat): seq<nat>
    requires m <= |healthy|
  {
    if m == 0 then []
    else
      var i := (cursor + (m - 1)) % |healthy|;
      Rotated(healthy, cursor, keep, m - 1) + if healthy[i] == keep then [i] else []
  }

  function PickOrder(healthy: seq<bool>, cursor: nat): seq<nat> {
    Rotated(healthy, cursor, true, |healthy|) + Rotated(healthy, cursor, false, |healthy|)
  }

  /** How far round the ring, from the cursor, backend b lies. */
  function Distance(n: nat, cursor: nat, b: nat): (d: nat)
    requires b < n
    ensures d < n
  {
    var c := cursor % n;
    if c <= b then b - c else b + n - c
  }

  lemma MultipleFar(n: nat, d: int)
    requires n > 0
    ensures d >= 1 ==> n * d >= n
    ensures d <= -1 ==> n * d + n <= 0
  {
    if d >= 1 {
      assert n * d == n + n * (d - 1);
    } else if d <= -1 {
      assert n * d + n == n * (d + 1);
    }
  }

  lemma QuotientUnique(n: nat, a: int, r: int, b: int, s: int)
    requires n > 0 && n * a + r == n * b + s && 0 <= r < n && 0 <= s < n
    ensures a == b && r == s
  {
    MultipleFar(n, a - b);
    assert n * (a - b) == n * a - n * b;
  }

  lemma ModIs(x: nat, n: nat, q: int, r: int)
    requires n > 0 && 0 <= r < n && x == n * q + r
    ensures x % n == r
  {
    QuotientUnique(n, q, r, x / n, x % n);
  }

  lemma StepRound(n: nat, cursor: nat, i: nat)
    requires 0 < n && i < n
    ensures var b := (cursor + i) % n; b < n && Distance(n, cursor, b) == i
  {
    var q, c := cursor / n, cursor % n;
    if c + i < n {
      ModIs(cursor + i, n, q, c + i);
    } else {
      ModIs(cursor + i, n, q + 1, c + i - n);
    }
  }

  lemma DistanceInjective(n: nat, cursor: nat, a: nat, b: nat)
    requires a < n && b < n && Distance(n, cursor, a) == Distance(n, cursor, b)
    ensures a == b
  {
  }

  /** Strictly ascending distance from the cursor. */
  predicate Cyclic(n: nat, cursor: nat, s: seq<nat>)
    requires forall i | 0 <= i < |s| :: s[i] < n
  {
    forall i, j | 0 <= i < j < |s| :: Distance(n, cursor, s[i]) < Distance(n, cursor, s[j])
  }

  lemma {:induction false} RotatedCyclic(healthy: seq<bool>, cursor: nat, keep: bool, m: nat)
    requires m <= |healthy|
    ensures
      var s, n := Rotated(healthy, cursor, keep, m), |healthy|;
      && (forall i | 0 <= i < |s| :: s[i] < n && healthy[s[i]] == keep && Distance(n, cursor, s[i]) < m)
      && Cyclic(n, cursor, s)
  {
    if m > 0 {
      RotatedCyclic(healthy, cursor, keep, m - 1);
      StepRound(|healthy|, cursor, m - 1);
    }
  }

  lemma {:induction false} RotatedCovers(healthy: seq<bool>, cursor: nat, m: nat, b: nat)
    requires m <= |healthy| && b < |healthy| && Distance(|healthy|, cursor, b) < m
    ensures b in Rotated(healthy, cursor, healthy[b], m)
    decreases m
  {
    var n := |healthy|;
    if Distance(n, cursor, b) == m - 1 {
      StepRound(n, cursor, m - 1);
      DistanceInjective(n, cursor, b, (cursor + (m - 1)) % n);
    } else {
      RotatedCovers(healthy, cursor, m - 1, b);
    }
  }

  /** Where backend b belongs: healthy ones first, each class by distance from the cursor. */
  function Rank(healthy: seq<bool>, cursor: nat, b: nat): nat
    requires b < |healthy|
  {
    Distance(|healthy|, cursor, b) + if healthy[b] then 0 else |healthy|
  }

  /** The dial order lists every backend, once each, in ascending rank. */
  lemma PickOrderSpec(healthy: seq<bool>, cursor: nat)
    ensures
      var s, n := PickOrder(healthy, cursor), |healthy|;
      && (forall i | 0 <= i < |s| :: s[i] < n)
      && (forall b | 0 <= b < n :: b in s)
      && (forall i, j | 0 <= i < j < |s| :: Rank(healthy, cursor, s[i]) < Rank(healthy, cursor, s[j]))
  {
    RotatedCyclic(healthy, cursor, true, |healthy|);
    RotatedCyclic(healthy, cursor, false, |healthy|);
    forall b | 0 <= b < |healthy| ensures b in PickOrder(healthy, cursor) {
      RotatedCovers(healthy, cursor, |healthy|, b);
    }
  }

  /** A list of distinct numbers that holds exactly those below n has length n. */
  lemma {:induction false} DistinctCover(s: seq<nat>, n: nat)
    requires forall i | 0 <= i < |s| :: s[i] < n
    requires forall b | 0 <= b < n :: b in s
    requires forall i, j | 0 <= i < j < |s| :: s[i] != s[j]
    ensures |s| == n
  {
    if n == 0 {
      assert s == [];
    } else {
      assert n - 1 in s;
      var k :| 0 <= k < |s| && s[k] == n - 1;
      var rest := s[..k] + s[k + 1..];
      forall b | 0 <= b < n - 1 ensures b in rest {
        assert b in s;
        var i :| 0 <= i < |s| && s[i] == b;
        assert i != k;
        assert rest[if i < k then i else i - 1] == b;
      }
      DistinctCover(rest, n - 1);
    }
  }

  lemma PickOrderPermutes(healthy: seq<bool>, cursor: nat)
    ensures
      var s, n := PickOrder(healthy, cursor), |healthy|;
      && |s| == n
      && (forall b | 0 <= b < n :: b in s)
      && (forall i, j | 0 <= i < j < |s| :: s[i] != s[j])
  {
    PickOrderSpec(healthy, cursor);
    DistinctCover(PickOrder(healthy, cursor), |healthy|);
  }

  // ---- the cursor ---------------------------------------------------------------------------

  /** The order from the reduced cursor, ranked by the full one. */
  lemma StartSpec(healthy: seq<bool>, cursor: nat)
    requires 0 < |healthy|
    ensures
      var s, n := PickOrder(healthy, cursor % |healthy|), |healthy|;
      && (forall i | 0 <= i < |s| :: s[i] < n)
      && (forall b | 0 <= b < n :: b in s)
      && (forall i, j | 0 <= i < j < |s| :: Rank(healthy, cursor, s[i]) < Rank(healthy, cursor, s[j]))
  {
    var n := |healthy|;
    PickOrderSpec(healthy, cursor % n);
    ModIs(cursor % n, n, 0, cursor % n);
    assert forall b | 0 <= b < n :: Rank(healthy, cursor, b) == Rank(healthy, cursor % n, b);
  }

  /** Dials in order until one answers; the shared cursor is a machine word of `word` values and wraps. */
  method Connect(healthy: seq<bool>, cursor: nat, word: nat, answers: seq<bool>)
    returns (chosen: Option<nat>, next: nat)
    requires 0 < |healthy| == |answers| && cursor < word
    ensures next == if cursor + 1 == word then 0 else cursor + 1
    ensures chosen.None? <==> true !in answers
    ensures chosen.Some? ==>
      && chosen.value < |healthy| && answers[chosen.value]
      && forall b | 0 <= b < |healthy| && answers[b] && b != chosen.value ::
        Rank(healthy, cursor, chosen.value) < Rank(healthy, cursor, b)
  {
    var n := |healthy|;
    next := if cursor + 1 == word then 0 else cursor + 1;
    var start := cursor % n;
    var order := PickOrder(healthy, start);
    StartSpec(healthy, cursor);
    chosen := None;
    for k := 0 to |order|
      invariant forall j | 0 <= j < k :: !answers[order[j]]
    {
      if answers[order[k]] {
        chosen := Some(order[k]);
        forall b | 0 <= b < n && answers[b] && b != order[k] ensures Rank(healthy, cursor, order[k]) < Rank(healthy, cursor, b) {
          assert b in order;
        }
        return;
      }
    }
    forall b | 0 <= b < n ensures !answers[b] {
      assert b in order;
    }
  }

  /** Which backend the k-th of a row of connections dials first when all n are healthy. */
  function First(n: nat, cursor: nat, word: nat, k: nat): nat
    requires 0 < n && 0 < word
  {
    ((cursor + k) % word) % n
  }

  lemma FirstDialled(n: nat, cursor: nat, word: nat, k: nat)
    requires 0 < n && 0 < word
    ensures var s := PickOrder(seq(n, _ => true), (cursor + k) % word); |s| == n && s[0] == First(n, cursor, word, k)
  {
    var healthy, start := seq(n, _ => true), (cursor + k) % word;
    var s := PickOrder(healthy, start);
    PickOrderPermutes(healthy, start);
    PickOrderSpec(healthy, start);
    StepRound(n, start, 0);
    var b := start % n;
    assert b in s;
    var i :| 0 <= i < |s| && s[i] == b;
    assert Rank(healthy, start, s[i]) == 0;
  }

  ghost predicate DialledFirst(n: nat, cursor: nat, word: nat, b: nat)
    requires 0 < n && 0 < word
  {
    exists k | 0 <= k < n :: First(n, cursor, word, k) == b
  }

  /** Each backend is dialled first by exactly one of n connections in a row. */
  ghost predicate Fair(n: nat, cursor: nat, word: nat)
    requires 0 < n && 0 < word
  {
    && (forall b | 0 <= b < n :: DialledFirst(n, cursor, word, b))
    && (forall j, k | 0 <= j < k < n :: First(n, cursor, word, j) != First(n, cursor, word, k))
  }

  lemma FairWithoutSeam(n: nat, cursor: nat, word: nat)
    requires 0 < n && 0 < word
    requires forall k | 0 <= k < n :: First(n, cursor, word, k) == (cursor + k) % n
    ensures Fair(n, cursor, word)
  {
    forall j, k | 0 <= j < k < n ensures First(n, cursor, word, j) != First(n, cursor, word, k) {
      StepRound(n, cursor, j);
      StepRound(n, cursor, k);
    }
    forall b | 0 <= b < n ensures DialledFirst(n, cursor, word, b) {
      var k := Distance(n, cursor, b);
      StepRound(n, cursor, k);
      DistanceInjective(n, cursor, b, (cursor + k) % n);
      assert First(n, cursor, word, k) == b;
    }
  }

  lemma ModOfMultiple(x: nat, n: nat, word: nat)
    requires 0 < n && 0 < word && word % n == 0
    ensures (x % word) % n == x % n
  {
    var q, r, t := x / word, x % word, word / n;
    assert x == n * t * q + (n * (r / n) + r % n);
    assert n * t * q == n * (t * q);
    ModIs(x, n, t * q + r / n, r % n);
  }

  /** A wrap inside the row, in a word that n does not divide, dials some backend first twice. */
  lemma SeamRepeats(n: nat, cursor: nat, word: nat) returns (j: nat, k: nat)
    requires 0 < n <= word && cursor < word < cursor + n && word % n != 0
    ensures j < k < n && First(n, cursor, word, j) == First(n, cursor, word, k)
  {
    var before, r := word - cursor, word % n;
    j, k := if r <= n - before then before - 1 else n - 1 - r, if r <= n - before then before + r - 1 else n - 1;
    var b := k - before;
    ModIs(cursor + j, word, 0, cursor + j);
    ModIs(cursor + k, word, 1, b);
    ModIs(b, n, 0, b);
    ModIs(cursor + j, n, word / n, b);
  }

  /** Round robin is fair on any n connections in a row exactly when they do not cross the wrap, or n divides the word. */
  lemma FairIff(n: nat, cursor: nat, word: nat)
    requires 0 < n <= word && cursor < word
    ensures Fair(n, cursor, word) <==> cursor + n <= word || word % n == 0
  {
    if cursor + n <= word {
      forall k | 0 <= k < n ensures First(n, cursor, word, k) == (cursor + k) % n {
        ModIs(cursor + k, word, 0, cursor + k);
      }
      FairWithoutSeam(n, cursor, word);
    } else if word % n == 0 {
      forall k | 0 <= k < n ensures First(n, cursor, word, k) == (cursor + k) % n {
        ModOfMultiple(cursor + k, n, word);
      }
      FairWithoutSeam(n, cursor, word);
    } else {
      var j, k := SeamRepeats(n, cursor, word);
    }
  }
}
