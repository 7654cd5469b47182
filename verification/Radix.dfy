/** Numbers written in a base, most significant digit first. */
module Radix {
  import opened Options

  function Pow(b: nat, e: nat): (p: nat)
    ensures b > 0 ==> p > 0
  {
    if e == 0 then 1 else b * Pow(b, e - 1)
  }

  function Digits(n: nat, base: nat): (ds: seq<nat>)
    requires base >= 2
    ensures ds != [] && forall i | 0 <= i < |ds| :: ds[i] < base
    ensures |ds| > 1 ==> ds[0] != 0
  {
    if n < base then [n]
    else
      DivModSplit(n, base);
      Digits(n / base, base) + [n % base]
  }

  function FromDigits(ds: seq<nat>, base: nat): nat {
    if ds == [] then 0 else FromDigits(ds[..|ds| - 1], base) * base + ds[|ds| - 1]
  }

  lemma {:induction false} DigitsValue(n: nat, base: nat)
    requires base >= 2
    ensures FromDigits(Digits(n, base), base) == n
  {
    if n < base {
      FromDigitsSnoc([], n, base);
      assert [] + [n] == [n];
    } else {
      DivModSplit(n, base);
      DigitsValue(n / base, base);
      FromDigitsSnoc(Digits(n / base, base), n % base, base);
    }
  }

  lemma FromDigitsSnoc(ds: seq<nat>, d: nat, base: nat)
    ensures FromDigits(ds + [d], base) == FromDigits(ds, base) * base + d
  {
    assert (ds + [d])[..|ds|] == ds;
  }

  lemma DivModSplit(n: nat, base: nat)
    requires base > 0
    ensures n == (n / base) * base + n % base
    ensures n >= base >= 2 ==> 0 < n / base < n
  {
  }

  lemma {:induction false} PowAdd(b: nat, d: nat, e: nat)
    ensures Pow(b, d + e) == Pow(b, d) * Pow(b, e)
    decreases d
  {
    if d > 0 {
      PowAdd(b, d - 1, e);
      assert Pow(b, d + e) == b * Pow(b, d + e - 1);
    }
  }

  lemma {:induction false} PowMul(b: nat, d: nat, e: nat)
    ensures Pow(Pow(b, d), e) == Pow(b, d * e)
    decreases e
  {
    if e > 0 {
      PowMul(b, d, e - 1);
      PowAdd(b, d, d * (e - 1));
      assert d * e == d + d * (e - 1);
    }
  }

  lemma {:induction false} PowMonotone(b: nat, d: nat, e: nat)
    requires b > 0 && d <= e
    ensures Pow(b, d) <= Pow(b, e)
    decreases e
  {
    if d < e {
      PowMonotone(b, d, e - 1);
      assert b * Pow(b, e - 1) >= Pow(b, e - 1);
    }
  }

  /** The leading digit weighs the base to the number of digits behind it. */
  lemma {:induction false} FromDigitsCons(d: nat, rest: seq<nat>, base: nat)
    ensures FromDigits([d] + rest, base) == d * Pow(base, |rest|) + FromDigits(rest, base)
    decreases |rest|
  {
    var all := [d] + rest;
    if rest == [] {
      assert all[..0] == [];
    } else {
      var n := |rest| - 1;
      assert all[..|all| - 1] == [d] + rest[..n];
      FromDigitsCons(d, rest[..n], base);
      var p, v := Pow(base, n), FromDigits(rest[..n], base);
      assert FromDigits(all, base) == (d * p + v) * base + rest[n];
      assert (d * p + v) * base == d * (base * p) + v * base;
    }
  }

  lemma {:induction false} FromDigitsBound(ds: seq<nat>, base: nat)
    requires base > 0 && forall i | 0 <= i < |ds| :: ds[i] < base
    ensures FromDigits(ds, base) < Pow(base, |ds|)
  {
    if ds != [] {
      var n := |ds| - 1;
      FromDigitsBound(ds[..n], base);
      var v, p := FromDigits(ds[..n], base), Pow(base, n);
      BoundStep(v, p, base, ds[n]);
    }
  }

  lemma BoundStep(v: nat, p: nat, base: nat, d: nat)
    requires v < p && d < base
    ensures v * base + d < base * p
  {
    assert (v + 1) * base <= p * base;
  }

  // ---- digits as characters -----------------------------------------------------------

  function DigitChar(d: nat): (c: char)
    requires d < 16
  {
    if d < 10 then '0' + d as char else 'a' + (d - 10) as char
  }

  function CharDigit(c: char): Option<nat> {
    if '0' <= c <= '9' then Some((c - '0') as nat)
    else if 'a' <= c <= 'f' then Some((c - 'a') as nat + 10)
    else if 'A' <= c <= 'F' then Some((c - 'A') as nat + 10)
    else None
  }

  lemma CharDigitInverse(d: nat)
    requires d < 16
    ensures CharDigit(DigitChar(d)) == Some(d)
  {
  }

  function Chars(ds: seq<nat>): (s: string)
    requires forall i | 0 <= i < |ds| :: ds[i] < 16
  {
    seq(|ds|, i requires 0 <= i < |ds| => DigitChar(ds[i]))
  }

  /** Lowercase, without leading zeros. */
  function Print(n: nat, base: nat): (s: string)
    requires 2 <= base <= 16
    ensures s != "" && forall i | 0 <= i < |s| :: '0' <= s[i] <= '9' || 'a' <= s[i] <= 'f'
    ensures |s| > 1 ==> s[0] != '0'
  {
    Chars(Digits(n, base))
  }

  /** A left fold over the characters; an unknown character is an evaluation error. */
  function Parse(s: string, base: nat): Option<nat> {
    if s == "" then Some(0)
    else
      var before, d := Parse(s[..|s| - 1], base), CharDigit(s[|s| - 1]);
      if before.None? || d.None? || d.value >= base then None else Some(before.value * base + d.value)
  }

  lemma {:induction false} ParseChars(ds: seq<nat>, base: nat)
    requires base <= 16 && forall i | 0 <= i < |ds| :: ds[i] < base
    ensures Parse(Chars(ds), base) == Some(FromDigits(ds, base))
  {
    if ds != [] {
      var n := |ds| - 1;
      ParseChars(ds[..n], base);
      assert Chars(ds) == Chars(ds[..n]) + [DigitChar(ds[n])];
      ParseSnoc(Chars(ds[..n]), ds[n], base, FromDigits(ds[..n], base));
    }
  }

  lemma ParseSnoc(s: string, d: nat, base: nat, v: nat)
    requires d < base <= 16 && Parse(s, base) == Some(v)
    ensures Parse(s + [DigitChar(d)], base) == Some(v * base + d)
  {
    CharDigitInverse(d);
    assert (s + [DigitChar(d)])[..|s|] == s;
  }

  function Lower(c: char): char {
    if 'A' <= c <= 'Z' then c - 'A' + 'a' else c
  }

  /** Upper and lower case digits read alike. */
  lemma {:induction false} ParseIgnoresCase(s: string, t: string, base: nat)
    requires |s| == |t| && forall i | 0 <= i < |s| :: Lower(s[i]) == Lower(t[i])
    ensures Parse(s, base) == Parse(t, base)
  {
    if s != "" {
      var n := |s| - 1;
      ParseIgnoresCase(s[..n], t[..n], base);
      assert Lower(s[n]) == Lower(t[n]);
      CaseDigit(s[n], t[n]);
    }
  }

  lemma CaseDigit(c: char, d: char)
    requires Lower(c) == Lower(d)
    ensures CharDigit(c) == CharDigit(d)
  {
  }

  lemma ParsePrint(n: nat, base: nat)
    requires 2 <= base <= 16
    ensures Parse(Print(n, base), base) == Some(n)
  {
    ParseChars(Digits(n, base), base);
    DigitsValue(n, base);
  }
}
