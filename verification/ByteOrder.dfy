/** Byte strings in the order a Rust `BTreeMap<Vec<u8>, _>` keeps them. */
module ByteOrder {

  type Byte = b: int | 0 <= b < 256
  type Bytes = seq<Byte>

  /** Strict lexicographic order; a proper prefix sorts first. */
  predicate Below(a: Bytes, b: Bytes) {
    b != [] && (a == [] || a[0] < b[0] || (a[0] == b[0] && Below(a[1..], b[1..])))
  }

  predicate AtMost(a: Bytes, b: Bytes) {
    a == b || Below(a, b)
  }

  lemma {:induction false} BelowIrreflexive(a: Bytes)
    ensures !Below(a, a)
  {
    if a != [] {
      BelowIrreflexive(a[1..]);
    }
  }

  lemma {:induction false} BelowTransitive(a: Bytes, b: Bytes, c: Bytes)
    requires Below(a, b) && Below(b, c)
    ensures Below(a, c)
  {
    if a != [] && a[0] == b[0] && b[0] == c[0] {
      BelowTransitive(a[1..], b[1..], c[1..]);
    }
  }

  lemma {:induction false} BelowTotal(a: Bytes, b: Bytes)
    ensures a == b || Below(a, b) || Below(b, a)
  {
    if a != [] && b != [] && a[0] == b[0] {
      BelowTotal(a[1..], b[1..]);
      assert a == [a[0]] + a[1..] && b == [b[0]] + b[1..];
    }
  }

  lemma BelowAsymmetric(a: Bytes, b: Bytes)
    requires Below(a, b)
    ensures a != b && !Below(b, a)
  {
    BelowIrreflexive(a);
    if Below(b, a) {
      BelowTransitive(a, b, a);
    }
  }

  lemma AtMostAntisymmetric(a: Bytes, b: Bytes)
    requires AtMost(a, b) && AtMost(b, a)
    ensures a == b
  {
    if Below(a, b) {
      BelowAsymmetric(a, b);
    }
  }

  /** `a ++ [0x00]` is the immediate successor of `a`: nothing sorts strictly between them. */
  lemma {:induction false} Successor(a: Bytes, b: Bytes)
    ensures Below(a, a + [0])
    ensures Below(a, b) <==> AtMost(a + [0], b)
  {
    if a != [] {
      assert (a + [0])[1..] == a[1..] + [0];
      if b != [] && a[0] == b[0] {
        Successor(a[1..], b[1..]);
        assert (a[1..] + [0] == b[1..]) <==> (a + [0] == b) by {
          if a[1..] + [0] == b[1..] {
            assert a + [0] == [a[0]] + (a[1..] + [0]) == [b[0]] + b[1..] == b;
          }
        }
      } else {
        Successor(a[1..], []);
      }
    } else if b != [] {
      assert a + [0] == [0];
      if b[0] == 0 {
        assert (a + [0])[1..] == [];
        assert b == [0] + b[1..];
        assert a + [0] == b <==> b[1..] == [];
        assert Below(a + [0], b) <==> Below([], b[1..]);
      }
    }
  }

  // ---- ascending enumeration of a finite key set -------------------------

  lemma {:induction false} LeastExists(keys: set<Bytes>) returns (least: Bytes)
    requires keys != {}
    ensures least in keys && forall k | k in keys :: AtMost(least, k)
    decreases keys
  {
    var k :| k in keys;
    if keys == {k} {
      least := k;
    } else {
      var rest := keys - {k};
      assert keys == rest + {k};
      var l := LeastExists(rest);
      BelowTotal(k, l);
      least := if Below(k, l) then k else l;
      forall x | x in keys
        ensures AtMost(least, x)
      {
        if x != k {
          assert x in rest && AtMost(l, x);
          if least == k && l != x && k != l {
            BelowTransitive(k, l, x);
          }
        }
      }
    }
  }

  lemma LeastUnique(keys: set<Bytes>)
    ensures forall x, y | x in keys && y in keys && (forall k | k in keys :: AtMost(x, k)) && (forall k | k in keys :: AtMost(y, k)) :: x == y
  {
    forall x, y | x in keys && y in keys && (forall k | k in keys :: AtMost(x, k)) && (forall k | k in keys :: AtMost(y, k))
      ensures x == y
    {
      AtMostAntisymmetric(x, y);
    }
  }

  function Least(keys: set<Bytes>): (least: Bytes)
    requires keys != {}
    ensures least in keys && forall k | k in keys :: AtMost(least, k)
  {
    LeastUnique(keys);
    assert exists l :: l in keys && forall k | k in keys :: AtMost(l, k) by {
      var l := LeastExists(keys);
    }
    var l :| l in keys && forall k | k in keys :: AtMost(l, k);
    l
  }

  /** The order in which iterating a `BTreeMap` visits its keys. */
  function Ascending(keys: set<Bytes>): (s: seq<Bytes>)
    ensures |s| == |keys|
    ensures forall k :: k in s <==> k in keys
  {
    if keys == {} then []
    else
      var l := Least(keys);
      [l] + Ascending(keys - {l})
  }

  ghost predicate Sorted(s: seq<Bytes>) {
    forall i, j | 0 <= i < j < |s| :: Below(s[i], s[j])
  }

  lemma {:induction false} AscendingSorted(keys: set<Bytes>)
    ensures Sorted(Ascending(keys))
  {
    if keys != {} {
      var l := Least(keys);
      var rest := Ascending(keys - {l});
      AscendingSorted(keys - {l});
      var s := [l] + rest;
      forall i, j | 0 <= i < j < |s|
        ensures Below(s[i], s[j])
      {
        if i == 0 {
          assert s[j] == rest[j - 1] && rest[j - 1] in rest;
        } else {
          assert s[i] == rest[i - 1] && s[j] == rest[j - 1];
        }
      }
    }
  }

  /** A strictly ascending sequence is determined by its elements. */
  lemma {:induction false} SortedUnique(s: seq<Bytes>, t: seq<Bytes>)
    requires Sorted(s) && Sorted(t)
    requires forall k :: k in s <==> k in t
    ensures s == t
    decreases |s|
  {
    HasMember(s);
    HasMember(t);
    if s != [] && t != [] {
      HeadLeast(s, t[0]);
      HeadLeast(t, s[0]);
      AtMostAntisymmetric(s[0], t[0]);
      forall k
        ensures k in s[1..] <==> k in t[1..]
      {
        TailMembers(s, k);
        TailMembers(t, k);
      }
      assert Sorted(s[1..]) && Sorted(t[1..]);
      SortedUnique(s[1..], t[1..]);
      assert s == [s[0]] + s[1..] && t == [t[0]] + t[1..];
    }
  }

  lemma HasMember(s: seq<Bytes>)
    ensures s != [] ==> exists k :: k in s
  {
    if s != [] {
      assert s[0] in s;
    }
  }

  lemma HeadLeast(s: seq<Bytes>, k: Bytes)
    requires Sorted(s) && k in s
    ensures AtMost(s[0], k)
  {
    var i :| 0 <= i < |s| && s[i] == k;
  }

  lemma TailMembers(s: seq<Bytes>, k: Bytes)
    requires Sorted(s) && s != []
    ensures k in s[1..] <==> k in s && k != s[0]
  {
    BelowIrreflexive(s[0]);
    if k in s && k != s[0] {
      var i :| 0 <= i < |s| && s[i] == k;
      assert s[1..][i - 1] == k;
    }
    if k in s[1..] {
      var i :| 0 <= i < |s| - 1 && s[1..][i] == k;
      assert Below(s[0], s[i + 1]);
    }
  }
}
