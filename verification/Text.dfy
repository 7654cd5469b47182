/** Splitting and joining text on a separator character. */
module Text {
  /** Index of the first `c`, or the length of the text. */
  function IndexOf(s: string, c: char): (i: nat)
    ensures i <= |s|
    ensures forall j | 0 <= j < i :: s[j] != c
    ensures i < |s| ==> s[i] == c
  {
    if s == "" || s[0] == c then 0 else 1 + IndexOf(s[1..], c)
  }

  /** All the fields between separators: one more field than there are separators. */
  function SplitOn(s: string, c: char): (fields: seq<string>)
    ensures fields != []
    decreases |s|
  {
    var i := IndexOf(s, c);
    if i == |s| then [s] else [s[..i]] + SplitOn(s[i + 1..], c)
  }

  function JoinWith(fields: seq<string>, c: char): string {
    if fields == [] then ""
    else if |fields| == 1 then fields[0]
    else fields[0] + [c] + JoinWith(fields[1..], c)
  }

  predicate OccursAt(hay: string, needle: string, i: int) {
    0 <= i && i + |needle| <= |hay| && hay[i..i + |needle|] == needle
  }

  predicate Contains(hay: string, needle: string) {
    exists i | 0 <= i <= |hay| :: OccursAt(hay, needle, i)
  }

  lemma {:induction false} IndexOfUnique(s: string, c: char, n: nat)
    requires n <= |s| && (forall j | 0 <= j < n :: s[j] != c) && (n < |s| ==> s[n] == c)
    ensures IndexOf(s, c) == n
  {
    if n > 0 {
      IndexOfUnique(s[1..], c, n - 1);
    }
  }

  lemma SplitCons(head: string, rest: string, c: char)
    requires c !in head
    ensures SplitOn(head, c) == [head]
    ensures SplitOn(head + [c] + rest, c) == [head] + SplitOn(rest, c)
  {
    IndexOfUnique(head, c, |head|);
    var s := head + [c] + rest;
    IndexOfUnique(s, c, |head|);
    assert s[|head| + 1..] == rest && s[..|head|] == head;
  }

  lemma {:induction false} SplitJoin(fields: seq<string>, c: char)
    requires fields != [] && forall i | 0 <= i < |fields| :: c !in fields[i]
    ensures SplitOn(JoinWith(fields, c), c) == fields
    decreases |fields|
  {
    SplitCons(fields[0], JoinWith(fields[1..], c), c);
    if |fields| > 1 {
      SplitJoin(fields[1..], c);
    }
  }

  lemma {:induction false} FieldsFree(s: string, c: char, f: string)
    requires f in SplitOn(s, c)
    ensures c !in f
    decreases |s|
  {
    var i := IndexOf(s, c);
    if i < |s| && f != s[..i] {
      FieldsFree(s[i + 1..], c, f);
    }
  }

  lemma SplitAt(s: string, c: char)
    requires IndexOf(s, c) < |s|
    ensures s == s[..IndexOf(s, c)] + [c] + s[IndexOf(s, c) + 1..]
  {
  }
}
