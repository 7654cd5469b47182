/** Reading a range page by page, as the API server does: the next page starts at last_key ++ [0x00]. */
module Paging {
  import opened ByteOrder
  import opened StoreModel
  import Sets

  /** Entries carry the key they are stored under (module History proves it of every run). */
  ghost predicate Named(kvs: map<Bytes, Kv>) {
    forall k | k in kvs :: kvs[k].key == k
  }

  function NextKey(page: Page): Bytes
    requires page.kvs != []
  {
    page.kvs[|page.kvs| - 1].key + [0]
  }

  /** The keys a cut page leaves: everything above its last key, and nothing of it. */
  lemma NextSelection(kvs: map<Bytes, Kv>, revision: int, r: RangeRequest, n: nat, last: Bytes)
    requires r.rangeEnd != []
    requires var keys := Ascending(Selected(kvs, revision, r)); 0 < n < |keys| && last == keys[n - 1]
    ensures var next := r.(key := last + [0]);
            && Ascending(Selected(kvs, revision, next)) == Ascending(Selected(kvs, revision, r))[n..]
            && !PanicsOn(next.key, next.rangeEnd)
  {
    var keys := Ascending(Selected(kvs, revision, r));
    AscendingSorted(Selected(kvs, revision, r));
    assert last in keys;
    var next := r.(key := last + [0]);
    var left := Selected(kvs, revision, next);
    forall k
      ensures k in left <==> k in keys[n..]
    {
      LeftAbove(kvs, revision, r, last, k);
      SuffixAbove(keys, n, k);
    }
    AscendingSorted(left);
    SortedUnique(Ascending(left), keys[n..]);
    NeverPastEnd(r, last);
  }

  lemma LeftAbove(kvs: map<Bytes, Kv>, revision: int, r: RangeRequest, last: Bytes, k: Bytes)
    requires r.rangeEnd != [] && last in Selected(kvs, revision, r)
    ensures k in Selected(kvs, revision, r.(key := last + [0])) <==> k in Selected(kvs, revision, r) && Below(last, k)
  {
    AboveLast(r, last, k);
  }

  lemma NeverPastEnd(r: RangeRequest, last: Bytes)
    requires r.rangeEnd != [] && InRange(last, r.key, r.rangeEnd)
    ensures !PanicsOn(last + [0], r.rangeEnd)
  {
    Successor(last, r.rangeEnd);
    BelowIrreflexive(last + [0]);
    if Below(r.rangeEnd, last + [0]) && Below(last + [0], r.rangeEnd) {
      BelowAsymmetric(r.rangeEnd, last + [0]);
    }
  }

  lemma NextPage(kvs: map<Bytes, Kv>, revision: int, r: RangeRequest)
    requires Named(kvs) && r.limit > 0 && RangeKvs(kvs, revision, r).more
    ensures var keys, page := Ascending(Selected(kvs, revision, r)), RangeKvs(kvs, revision, r);
            && |keys| > r.limit == |page.kvs|
            && page.kvs == Values(kvs, keys)[..r.limit]
            && var next := r.(key := NextKey(page));
               && Ascending(Selected(kvs, revision, next)) == keys[r.limit..]
               && !PanicsOn(next.key, next.rangeEnd)
  {
    MultiKeyRange(kvs, revision, r);
    CutPage(kvs, revision, r);
    NextSelection(kvs, revision, r, r.limit, Ascending(Selected(kvs, revision, r))[r.limit - 1]);
  }

  lemma CutPage(kvs: map<Bytes, Kv>, revision: int, r: RangeRequest)
    requires Named(kvs) && r.limit > 0 && RangeKvs(kvs, revision, r).more
    ensures var keys, page := Ascending(Selected(kvs, revision, r)), RangeKvs(kvs, revision, r);
            && |keys| > r.limit == |page.kvs|
            && page.kvs == Values(kvs, keys)[..r.limit]
            && NextKey(page) == keys[r.limit - 1] + [0]
  {
    var keys := Ascending(Selected(kvs, revision, r));
    assert keys[r.limit - 1] in keys;
    assert RangeKvs(kvs, revision, r).kvs[r.limit - 1] == kvs[keys[r.limit - 1]];
  }

  /** A page is cut only when the request names a range. */
  lemma MultiKeyRange(kvs: map<Bytes, Kv>, revision: int, r: RangeRequest)
    requires r.limit > 0 && RangeKvs(kvs, revision, r).more
    ensures r.rangeEnd != []
  {
    if r.rangeEnd == [] {
      assert Selected(kvs, revision, r) <= {r.key};
      Sets.SubsetSize(Selected(kvs, revision, r), {r.key});
    }
  }

  lemma AboveLast(r: RangeRequest, last: Bytes, k: Bytes)
    requires r.rangeEnd != [] && InRange(last, r.key, r.rangeEnd)
    ensures InRange(k, last + [0], r.rangeEnd) <==> InRange(k, r.key, r.rangeEnd) && Below(last, k)
  {
    Successor(last, k);
    if Below(last, k) && r.key != last {
      BelowTransitive(r.key, last, k);
    }
  }

  lemma SuffixAbove(keys: seq<Bytes>, n: nat, k: Bytes)
    requires Sorted(keys) && 0 < n < |keys|
    ensures k in keys[n..] <==> k in keys && Below(keys[n - 1], k)
  {
    if k in keys[n..] {
      var i :| 0 <= i < |keys| - n && keys[n..][i] == k;
      assert keys[n + i] == k;
    }
    if k in keys && Below(keys[n - 1], k) {
      var i :| 0 <= i < |keys| && keys[i] == k;
      BelowAsymmetric(keys[n - 1], k);
      assert i >= n;
      assert keys[n..][i - n] == k;
    }
  }

  /** All the pages of a request, one after another, on a store that does not change. */
  function Pages(kvs: map<Bytes, Kv>, revision: int, r: RangeRequest): seq<Kv>
    requires Named(kvs) && r.limit > 0
    decreases |Selected(kvs, revision, r)|
  {
    var page := RangeKvs(kvs, revision, r);
    if page.more then
      NextPage(kvs, revision, r);
      page.kvs + Pages(kvs, revision, r.(key := NextKey(page)))
    else page.kvs
  }

  lemma Unlimited(kvs: map<Bytes, Kv>, revision: int, r: RangeRequest)
    ensures RangeKvs(kvs, revision, r.(limit := 0)).kvs == Values(kvs, Ascending(Selected(kvs, revision, r)))
  {
    assert Selected(kvs, revision, r.(limit := 0)) == Selected(kvs, revision, r);
  }

  /** For any positive limit the pages end and concatenate to the unlimited answer. */
  lemma {:induction false} PagingLossless(kvs: map<Bytes, Kv>, revision: int, r: RangeRequest)
    requires Named(kvs) && r.limit > 0
    ensures Pages(kvs, revision, r) == RangeKvs(kvs, revision, r.(limit := 0)).kvs
    decreases |Selected(kvs, revision, r)|
  {
    var keys := Ascending(Selected(kvs, revision, r));
    Unlimited(kvs, revision, r);
    var page := RangeKvs(kvs, revision, r);
    if page.more {
      NextPage(kvs, revision, r);
      var next := r.(key := NextKey(page));
      PagingLossless(kvs, revision, next);
      Unlimited(kvs, revision, next);
      ValuesSplit(kvs, keys, r.limit);
    }
  }

  lemma ValuesSplit(kvs: map<Bytes, Kv>, keys: seq<Bytes>, n: nat)
    requires n <= |keys| && forall k | k in keys :: k in kvs
    ensures (forall k | k in keys[n..] :: k in kvs) && Values(kvs, keys) == Values(kvs, keys)[..n] + Values(kvs, keys[n..])
  {
    assert keys == keys[..n] + keys[n..];
  }
}
