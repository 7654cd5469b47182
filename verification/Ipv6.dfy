/** IPv6 literals: parsing (section 2.2 of RFC 4291) and printing (section 4 of RFC 5952). */
module Ipv6 {
  import opened Options
  import opened Text
  import Radix

  type Hextets = seq<nat>

  ghost predicate Address(h: Hextets) {
    |h| == 8 && forall i | 0 <= i < 8 :: h[i] < 65536
  }

  // ---- parsing ----------------------------------------------------------------------

  /** Index of the first "::", or the length of the text. */
  function DoubleAt(s: string): (i: nat)
    ensures i <= |s|
    ensures i < |s| ==> i + 1 < |s| && s[i] == ':' && s[i + 1] == ':'
  {
    if |s| < 2 then |s| else if s[0] == ':' && s[1] == ':' then 0 else 1 + DoubleAt(s[1..])
  }

  function Halves(s: string): (halves: seq<string>)
    ensures halves != []
    decreases |s|
  {
    var i := DoubleAt(s);
    if i == |s| then [s] else [s[..i]] + Halves(s[i + 2..])
  }

  function NonEmpty(fields: seq<string>): seq<string> {
    if fields == [] then []
    else (if fields[0] != "" then [fields[0]] else []) + NonEmpty(fields[1..])
  }

  function Groups(half: string): seq<string> {
    NonEmpty(SplitOn(half, ':'))
  }

  function ParseGroups(groups: seq<string>): Option<Hextets> {
    if groups == [] then Some([])
    else
      var first, rest := Radix.Parse(groups[0], 16), ParseGroups(groups[1..]);
      if first.None? || rest.None? then None else Some([first.value] + rest.value)
  }

  function Zeros(n: nat): Hextets {
    seq(n, _ => 0)
  }

  /** None where evaluation fails: more than one "::", a wrong group count, a bad digit. */
  function ParseAddress(s: string): Option<Hextets> {
    var halves := Halves(s);
    var compressed := |halves| == 2;
    var left := Groups(halves[0]);
    var right := if compressed then Groups(halves[1]) else [];
    var fill := 8 - |left| - |right|;
    if |halves| > 2 || (if compressed then fill < 1 else |left| != 8) then None
    else
      var l, r := ParseGroups(left), ParseGroups(right);
      if l.None? || r.None? then None
      else Some(l.value + (if compressed then Zeros(fill) else []) + r.value)
  }

  // ---- printing -----------------------------------------------------------------------

  /** Length of the run of zero hextets starting at `i`. */
  function ZeroRun(h: Hextets, i: nat): nat
    decreases |h| - i
  {
    if i >= |h| || h[i] != 0 then 0 else 1 + ZeroRun(h, i + 1)
  }

  datatype Run = Run(start: int, len: nat)

  /** The fold over positions 0 to n - 1: a run replaces the best only if it is longer. */
  function BestRun(h: Hextets, n: nat): Run {
    if n == 0 then Run(-1, 1)
    else
      var acc, len := BestRun(h, n - 1), ZeroRun(h, n - 1);
      if len > acc.len then Run(n - 1, len) else acc
  }

  function HexGroups(h: Hextets): (gs: seq<string>)
    ensures |gs| == |h| && forall i | 0 <= i < |gs| :: gs[i] == Radix.Print(h[i], 16)
  {
    seq(|h|, i requires 0 <= i < |h| => Radix.Print(h[i], 16))
  }

  function Colons(h: Hextets): string {
    JoinWith(HexGroups(h), ':')
  }

  function PrintAddress(h: Hextets): string
    requires |h| == 8
  {
    var best := BestRun(h, 8);
    BestRunFits(h, 8);
    if best.len < 2 then Colons(h)
    else Colons(h[..best.start]) + "::" + Colons(h[best.start + best.len..])
  }

  lemma {:induction false} ZeroRunZeros(h: Hextets, i: nat)
    requires i <= |h|
    ensures i + ZeroRun(h, i) <= |h|
    ensures forall j | i <= j < i + ZeroRun(h, i) :: h[j] == 0
    decreases |h| - i
  {
    if i < |h| && h[i] == 0 {
      ZeroRunZeros(h, i + 1);
    }
  }

  lemma {:induction false} BestRunFits(h: Hextets, n: nat)
    requires n <= |h|
    ensures var best := BestRun(h, n);
            best.len >= 2 ==> 0 <= best.start < n && best.start + best.len <= |h| && best.len == ZeroRun(h, best.start)
    ensures BestRun(h, n).len >= 1
  {
    if n > 0 {
      BestRunFits(h, n - 1);
      ZeroRunZeros(h, n - 1);
    }
  }

  /** Sections 4.2.2 and 4.2.3: "::" stands for the leftmost longest run of two or more zeros. */
  lemma {:induction false} BestRunLeftmostLongest(h: Hextets, n: nat)
    requires n <= |h|
    ensures var best := BestRun(h, n);
            && (best.len < 2 ==> forall i | 0 <= i < n :: ZeroRun(h, i) < 2)
            && (best.len >= 2 ==>
                  && 0 <= best.start < n && best.len == ZeroRun(h, best.start)
                  && (forall i | 0 <= i < n :: ZeroRun(h, i) <= best.len)
                  && (forall i | 0 <= i < best.start :: ZeroRun(h, i) < best.len))
  {
    if n > 0 {
      BestRunLeftmostLongest(h, n - 1);
      BestRunFits(h, n - 1);
    }
  }

  ghost predicate ZeroBlock(h: Hextets, start: nat, len: nat) {
    start + len <= |h| && forall j | start <= j < start + len :: h[j] == 0
  }

  ghost predicate LeftmostLongest(h: Hextets, start: nat, len: nat) {
    && ZeroBlock(h, start, len)
    && forall a: nat, n: nat | ZeroBlock(h, a, n) :: n < len || (n == len && (n == 0 || start <= a))
  }

  lemma {:induction false} BlockInRun(h: Hextets, start: nat, len: nat)
    requires ZeroBlock(h, start, len)
    ensures len <= ZeroRun(h, start)
    decreases len
  {
    if len > 0 {
      BlockInRun(h, start + 1, len - 1);
    }
  }

  lemma FoldFindsBlock(h: Hextets, start: nat, len: nat)
    requires |h| == 8 && LeftmostLongest(h, start, len)
    ensures var best := BestRun(h, 8);
            if len >= 2 then best.start == start && best.len == len else best.len < 2
  {
    var best := BestRun(h, 8);
    BestRunFits(h, 8);
    BestRunLeftmostLongest(h, 8);
    BlockInRun(h, start, len);
    if best.len >= 2 {
      ZeroRunZeros(h, best.start);
      assert ZeroBlock(h, best.start, best.len);
    }
  }

  /** The text compresses the leftmost longest block of two or more zeros, and only that. */
  lemma PrintCompresses(h: Hextets, start: nat, len: nat)
    requires |h| == 8 && LeftmostLongest(h, start, len)
    ensures PrintAddress(h) ==
            if len >= 2 then Colons(h[..start]) + "::" + Colons(h[start + len..]) else Colons(h)
  {
    FoldFindsBlock(h, start, len);
  }

  // ---- the round trip ------------------------------------------------------------------

  /** No two colons in a row, and none at either end. */
  ghost predicate Tidy(s: string) {
    forall i | 0 <= i < |s| && s[i] == ':' :: 0 < i < |s| - 1 && s[i + 1] != ':'
  }

  lemma GroupsTidy(g: string)
    requires ':' !in g
    ensures Tidy(g)
  {
  }

  lemma TidyCons(g: string, rest: string)
    requires ':' !in g && g != "" && Tidy(rest) && rest != ""
    ensures Tidy(g + ":" + rest)
  {
    var s := g + ":" + rest;
    assert forall j | 0 <= j < |g| :: s[j] == g[j];
    forall i | 0 <= i < |s| && s[i] == ':'
      ensures 0 < i < |s| - 1 && s[i + 1] != ':'
    {
      assert |g| <= i;
      if i == |g| {
        assert s[i + 1] == rest[0];
      } else {
        assert s[i] == rest[i - |g| - 1];
        assert s[i + 1] == rest[i - |g|];
      }
    }
  }

  lemma {:induction false} JoinTidy(gs: seq<string>)
    requires forall i | 0 <= i < |gs| :: ':' !in gs[i] && gs[i] != ""
    ensures Tidy(JoinWith(gs, ':')) && (gs != [] ==> JoinWith(gs, ':') != "")
  {
    if |gs| == 1 {
      GroupsTidy(gs[0]);
    } else if |gs| > 1 {
      JoinTidy(gs[1..]);
      TidyCons(gs[0], JoinWith(gs[1..], ':'));
    }
  }

  lemma {:induction false} TidyHasNoDouble(s: string)
    requires forall i | 0 <= i < |s| - 1 :: !(s[i] == ':' && s[i + 1] == ':')
    ensures DoubleAt(s) == |s|
  {
    if |s| >= 2 {
      TidyHasNoDouble(s[1..]);
    }
  }

  lemma {:induction false} DoubleAfter(a: string, b: string)
    requires forall i | 0 <= i < |a| && a[i] == ':' :: i < |a| - 1 && a[i + 1] != ':'
    ensures DoubleAt(a + "::" + b) == |a|
  {
    var s := a + "::" + b;
    if a != "" {
      assert s[1..] == a[1..] + "::" + b;
      assert |a| > 1 ==> s[1] == a[1];
      DoubleAfter(a[1..], b);
    }
  }

  lemma HalvesOfTwo(a: string, b: string)
    requires Tidy(a) && Tidy(b)
    ensures Halves(a) == [a]
    ensures Halves(a + "::" + b) == [a, b]
  {
    var s := a + "::" + b;
    TidyHasNoDouble(a);
    TidyHasNoDouble(b);
    DoubleAfter(a, b);
    assert s[..|a|] == a && s[|a| + 2..] == b;
  }

  lemma {:induction false} NonEmptyAll(fields: seq<string>)
    requires forall i | 0 <= i < |fields| :: fields[i] != ""
    ensures NonEmpty(fields) == fields
  {
    if fields != [] {
      NonEmptyAll(fields[1..]);
    }
  }

  lemma HexGroupsClean(h: Hextets)
    ensures forall i | 0 <= i < |h| :: ':' !in HexGroups(h)[i] && '/' !in HexGroups(h)[i] && HexGroups(h)[i] != ""
  {
  }

  ghost predicate CleanGroups(gs: seq<string>) {
    forall i | 0 <= i < |gs| :: ':' !in gs[i] && gs[i] != ""
  }

  lemma GroupsJoined(gs: seq<string>)
    requires CleanGroups(gs)
    ensures Groups(JoinWith(gs, ':')) == gs
  {
    if gs == [] {
      SplitCons("", "", ':');
      assert NonEmpty([""]) == [];
    } else {
      SplitJoin(gs, ':');
      NonEmptyAll(gs);
    }
  }

  lemma GroupsOfColons(h: Hextets)
    ensures Groups(Colons(h)) == HexGroups(h)
  {
    HexGroupsClean(h);
    GroupsJoined(HexGroups(h));
  }

  /** The groups of both halves with zeros between them, if all are hex and a group at least is left out. */
  function TwoHalves(left: seq<string>, right: seq<string>): Option<Hextets> {
    var l, r := ParseGroups(left), ParseGroups(right);
    if l.Some? && r.Some? && |left| + |right| < 8 then Some(l.value + Zeros(8 - |left| - |right|) + r.value) else None
  }

  /** Any text of two halves, whoever wrote it: read if and only if at least one group is left out and all are hex. */
  lemma ParseCompressedText(left: seq<string>, right: seq<string>)
    requires CleanGroups(left) && CleanGroups(right)
    ensures ParseAddress(JoinWith(left, ':') + "::" + JoinWith(right, ':')) == TwoHalves(left, right)
  {
    var a, b := JoinWith(left, ':'), JoinWith(right, ':');
    JoinTidy(left);
    JoinTidy(right);
    HalvesOfTwo(a, b);
    GroupsJoined(left);
    GroupsJoined(right);
    ParseOfTwo(a + "::" + b, a, b);
  }

  lemma RefusedHalves(s: string, a: string, b: string)
    requires Halves(s) == [a, b]
    requires ParseGroups(Groups(a)).None? || ParseGroups(Groups(b)).None? || |Groups(a)| + |Groups(b)| >= 8
    ensures ParseAddress(s) == None
  {
  }

  lemma ParseOfTwo(s: string, a: string, b: string)
    requires Halves(s) == [a, b]
    ensures ParseAddress(s) == TwoHalves(Groups(a), Groups(b))
  {
    var l, r := ParseGroups(Groups(a)), ParseGroups(Groups(b));
    if l.None? || r.None? || |Groups(a)| + |Groups(b)| >= 8 {
      RefusedHalves(s, a, b);
    } else {
      ParseGroupsLength(Groups(a));
      ParseGroupsLength(Groups(b));
      ParseTwoHalves(s, a, b, l.value, r.value);
    }
  }

  lemma {:induction false} ParseGroupsLength(gs: seq<string>)
    ensures ParseGroups(gs).Some? ==> |ParseGroups(gs).value| == |gs|
  {
    if gs != [] {
      ParseGroupsLength(gs[1..]);
    }
  }

  lemma ParseOfOne(s: string, groups: seq<string>)
    requires Halves(s) == [s] && Groups(s) == groups
    ensures ParseAddress(s) == if |groups| == 8 then ParseGroups(groups) else None
  {
    var l := ParseGroups(groups);
    assert l.Some? ==> l.value + [] + [] == l.value;
  }

  /** Without "::" a text is read if and only if it has eight groups and all are hex. */
  lemma ParseFullText(groups: seq<string>)
    requires CleanGroups(groups)
    ensures ParseAddress(JoinWith(groups, ':'))
         == if |groups| == 8 then ParseGroups(groups) else None
  {
    JoinTidy(groups);
    HalvesOfTwo(JoinWith(groups, ':'), "");
    GroupsJoined(groups);
    ParseOfOne(JoinWith(groups, ':'), groups);
  }

  lemma {:induction false} ParseHexGroups(h: Hextets)
    ensures ParseGroups(HexGroups(h)) == Some(h)
  {
    if h != [] {
      assert HexGroups(h)[1..] == HexGroups(h[1..]);
      ParseHexGroups(h[1..]);
      Radix.ParsePrint(h[0], 16);
      assert h == [h[0]] + h[1..];
    } else {
      assert HexGroups(h) == [];
    }
  }

  lemma ColonsTidy(h: Hextets)
    ensures Tidy(Colons(h))
  {
    HexGroupsClean(h);
    JoinTidy(HexGroups(h));
  }

  /** Printing any eight hextets and parsing the text gives them back. */
  lemma ParsePrint(h: Hextets)
    requires |h| == 8
    ensures ParseAddress(PrintAddress(h)) == Some(h)
  {
    var best := BestRun(h, 8);
    BestRunFits(h, 8);
    if best.len < 2 {
      ColonsTidy(h);
      HalvesOfTwo(Colons(h), "");
      GroupsOfColons(h);
      ParseHexGroups(h);
      assert h + [] + [] == h;
    } else {
      ParsePrintCompressed(h, best.start, best.len);
    }
  }

  lemma HalfReads(h: Hextets)
    ensures Tidy(Colons(h)) && |Groups(Colons(h))| == |h| && ParseGroups(Groups(Colons(h))) == Some(h)
  {
    ColonsTidy(h);
    GroupsOfColons(h);
    ParseHexGroups(h);
  }

  lemma ParsePrintCompressed(h: Hextets, start: nat, len: nat)
    requires |h| == 8 && len >= 2 && start + len <= 8 && len == ZeroRun(h, start)
    ensures ParseAddress(Colons(h[..start]) + "::" + Colons(h[start + len..])) == Some(h)
  {
    var before, after := h[..start], h[start + len..];
    HalfReads(before);
    HalfReads(after);
    HalvesOfTwo(Colons(before), Colons(after));
    ParseTwoHalves(Colons(before) + "::" + Colons(after), Colons(before), Colons(after), before, after);
    ZeroFill(h, start, len);
  }

  lemma ParseTwoHalves(s: string, a: string, b: string, l: Hextets, r: Hextets)
    requires Halves(s) == [a, b] && ParseGroups(Groups(a)) == Some(l) && ParseGroups(Groups(b)) == Some(r)
    requires |Groups(a)| == |l| && |Groups(b)| == |r| && |l| + |r| < 8
    ensures ParseAddress(s) == Some(l + Zeros(8 - |l| - |r|) + r)
  {
  }

  lemma ZeroFill(h: Hextets, start: nat, len: nat)
    requires start + len <= |h| && len == ZeroRun(h, start)
    ensures h[..start] + Zeros(len) + h[start + len..] == h
  {
    ZeroRunZeros(h, start);
    assert h[start..start + len] == Zeros(len);
    assert h == h[..start] + h[start..start + len] + h[start + len..];
  }
}
