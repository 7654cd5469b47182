/** The CA bundle as a ustar stream (ustar Interchange Format, pax utility, POSIX.1). */
module Tar {
  import opened ByteOrder
  import opened Options
  import Radix

  const BLOCK: nat := 512

  function Zeros(n: nat): Bytes {
    seq(n, _ => 0)
  }

  function Sum(s: Bytes): nat {
    if s == [] then 0 else Sum(s[..|s| - 1]) + s[|s| - 1]
  }

  // ---- octal fields -------------------------------------------------------------------

  function Ascii(ds: seq<nat>): Bytes
    requires forall i | 0 <= i < |ds| :: ds[i] < 8
  {
    seq(|ds|, i requires 0 <= i < |ds| => 48 + ds[i])
  }

  /** `{n:0width$o}`: zero padded, and longer than `width` if the number is. */
  function Octal(n: nat, width: nat): Bytes {
    var ds := Ascii(Radix.Digits(n, 8));
    seq(if |ds| < width then width - |ds| else 0, _ => 48) + ds
  }

  /** `from_str_radix(_, 8)` on a field. */
  function ParseOctal(s: Bytes): Option<nat> {
    if s == [] then Some(0)
    else
      var before, c := ParseOctal(s[..|s| - 1]), s[|s| - 1];
      if before.None? || c < 48 || c > 55 then None else Some(before.value * 8 + (c - 48))
  }

  lemma {:induction false} ParseAscii(zeros: nat, ds: seq<nat>)
    requires forall i | 0 <= i < |ds| :: ds[i] < 8
    ensures ParseOctal(seq(zeros, _ => 48) + Ascii(ds)) == Some(Radix.FromDigits(ds, 8))
    decreases |ds|, zeros
  {
    var s: Bytes := seq(zeros, _ => 48) + Ascii(ds);
    if ds != [] {
      var n := |ds| - 1;
      ParseAscii(zeros, ds[..n]);
      assert s[..|s| - 1] == seq(zeros, _ => 48) + Ascii(ds[..n]);
      assert s[|s| - 1] == 48 + ds[n];
    } else if zeros > 0 {
      ParseAscii(zeros - 1, ds);
      assert s[..|s| - 1] == seq(zeros - 1, _ => 48) + Ascii(ds);
    } else {
      assert s == [];
    }
  }

  lemma {:induction false} DigitCount(n: nat, width: nat)
    requires 0 < width && n < Radix.Pow(8, width)
    ensures |Radix.Digits(n, 8)| <= width
    decreases width
  {
    if n >= 8 {
      assert width > 1;
      DigitCount(n / 8, width - 1);
    }
  }

  /** A number below 8^width fills the field exactly and reads back. */
  lemma OctalRoundTrip(n: nat, width: nat)
    requires 0 < width && n < Radix.Pow(8, width)
    ensures |Octal(n, width)| == width && ParseOctal(Octal(n, width)) == Some(n)
  {
    var ds := Radix.Digits(n, 8);
    DigitCount(n, width);
    ParseAscii(width - |ds|, ds);
    Radix.DigitsValue(n, 8);
  }

  // ---- the header ------------------------------------------------------------------------

  const SIZE_LIMIT: nat := 8589934592

  /** What `tar_header` copies without a panic: a name no longer than the block, a size in eleven octal digits. */
  predicate Fits(name: Bytes, size: nat) {
    |name| <= BLOCK && size < SIZE_LIMIT
  }

  /** The zeroed block with the name at its front, however long. */
  function Padded(name: Bytes): (s: Bytes)
    requires |name| <= BLOCK
    ensures |s| == BLOCK
  {
    name + Zeros(BLOCK - |name|)
  }

  const MODE: Bytes := [48, 48, 48, 48, 54, 48, 48, 0]
  const OWNER: Bytes := [48, 48, 48, 48, 48, 48, 48, 0]
  const MTIME: Bytes := [48, 48, 48, 48, 48, 48, 48, 48, 48, 48, 48, 0]
  const MAGIC: Bytes := [117, 115, 116, 97, 114, 0]
  const VERSION: Bytes := [48, 48]
  const SPACES: Bytes := [32, 32, 32, 32, 32, 32, 32, 32]

  /** Bytes 0 to 148: name, mode, uid, gid, size, mtime. */
  function Front(name: Bytes, size: nat): Bytes
    requires |name| <= BLOCK
  {
    Padded(name)[..100] + MODE + OWNER + OWNER + (Octal(size, 11) + [0]) + MTIME
  }

  /** Bytes 156 to 512: type, link name, magic, version; all else is zero, or what a long name left there. */
  function Back(name: Bytes): Bytes
    requires |name| <= BLOCK
  {
    [48] + Padded(name)[157..257] + MAGIC + VERSION + Padded(name)[265..]
  }

  function Checksum(name: Bytes, size: nat): nat
    requires |name| <= BLOCK
  {
    Sum(Front(name, size) + SPACES + Back(name))
  }

  function Header(name: Bytes, size: nat): Bytes
    requires |name| <= BLOCK
  {
    Front(name, size) + (Octal(Checksum(name, size), 6) + [0, 32]) + Back(name)
  }

  lemma {:induction false} SumBound(s: Bytes)
    ensures Sum(s) <= 255 * |s|
  {
    if s != [] {
      SumBound(s[..|s| - 1]);
    }
  }

  lemma {:induction false} SumConcat(a: Bytes, b: Bytes)
    ensures Sum(a + b) == Sum(a) + Sum(b)
    decreases |b|
  {
    if b == [] {
      assert a + b == a;
    } else {
      var n := |b| - 1;
      assert (a + b)[..|a| + n] == a + b[..n];
      SumConcat(a, b[..n]);
    }
  }

  lemma FrontLength(name: Bytes, size: nat)
    requires Fits(name, size)
    ensures |Front(name, size)| == 148
  {
    SizeField(size);
  }

  lemma SizeField(size: nat)
    requires size < SIZE_LIMIT
    ensures |Octal(size, 11)| == 11 && ParseOctal(Octal(size, 11)) == Some(size)
  {
    assert Radix.Pow(8, 11) == SIZE_LIMIT;
    OctalRoundTrip(size, 11);
  }

  /** 512 bytes add up to at most 130560: six octal digits always hold the checksum. */
  lemma ChecksumFits(name: Bytes, size: nat)
    requires Fits(name, size)
    ensures Checksum(name, size) < 262144
    ensures |Octal(Checksum(name, size), 6)| == 6 && ParseOctal(Octal(Checksum(name, size), 6)) == Some(Checksum(name, size))
    ensures |Header(name, size)| == BLOCK
  {
    FrontLength(name, size);
    SumBound(Front(name, size) + SPACES + Back(name));
    assert Radix.Pow(8, 6) == 262144;
    OctalRoundTrip(Checksum(name, size), 6);
  }

  // ---- reading a header --------------------------------------------------------------------

  datatype Entry = Entry(name: Bytes, size: nat)

  function NulAt(s: Bytes): (i: nat)
    ensures i <= |s|
    ensures forall j | 0 <= j < i :: s[j] != 0
    ensures i < |s| ==> s[i] == 0
  {
    if s == [] || s[0] == 0 then 0 else 1 + NulAt(s[1..])
  }

  lemma {:induction false} NulAtUnique(s: Bytes, n: nat)
    requires n < |s| && s[n] == 0 && forall j | 0 <= j < n :: s[j] != 0
    ensures NulAt(s) == n
  {
    if n > 0 {
      NulAtUnique(s[1..], n - 1);
    }
  }

  /** The checks and fields of the reader; None where it would fail an assertion. */
  function ReadHeader(h: Bytes): Option<Entry>
    requires |h| == BLOCK
  {
    var stored, size := ParseOctal(h[148..154]), ParseOctal(h[124..135]);
    if h[257..263] != MAGIC || stored.None? || size.None? then None
    else if stored.value != Sum(h[..148]) + 8 * 32 + Sum(h[156..]) then None
    else if NulAt(h) == |h| then None
    else Some(Entry(h[..NulAt(h)], size.value))
  }

  lemma ThreeParts(a: Bytes, b: Bytes, c: Bytes)
    ensures var s := a + b + c; s[..|a|] == a && s[|a|..|a| + |b|] == b && s[|a| + |b|..] == c
  {
  }

  lemma BackMagic(name: Bytes)
    requires |name| <= BLOCK
    ensures |Back(name)| == 356 && Back(name)[101..107] == MAGIC
  {
    var pre, rest := [48] + Padded(name)[157..257], Padded(name)[265..];
    ThreeParts(pre, MAGIC, VERSION + rest);
    assert Back(name) == pre + MAGIC + (VERSION + rest);
  }

  lemma FrontSize(name: Bytes, size: nat)
    requires Fits(name, size)
    ensures Front(name, size)[124..135] == Octal(size, 11)
  {
    SizeField(size);
    var pre := Padded(name)[..100] + MODE + OWNER + OWNER;
    assert |pre| == 124;
    ThreeParts(pre, Octal(size, 11), [0] + MTIME);
    assert Front(name, size) == pre + Octal(size, 11) + ([0] + MTIME);
  }

  /** A name under 100 bytes is followed by a NUL of its own. */
  lemma FrontName(name: Bytes, size: nat)
    requires Fits(name, size) && |name| < 100
    ensures |Front(name, size)| == 148 && Front(name, size)[..|name|] == name && Front(name, size)[|name|] == 0
  {
    FrontLength(name, size);
    assert Padded(name)[..100] == name + Zeros(100 - |name|);
    var rest := Zeros(100 - |name|) + MODE + OWNER + OWNER + (Octal(size, 11) + [0]) + MTIME;
    assert Front(name, size) == name + rest;
    assert rest[0] == 0;
  }

  /** A longer one runs into the mode: seven digits, then the first NUL that is not the name's own. */
  lemma FrontLongName(name: Bytes, size: nat)
    requires Fits(name, size) && |name| >= 100
    ensures |Front(name, size)| == 148
    ensures Front(name, size)[..107] == name[..100] + MODE[..7] && Front(name, size)[107] == 0
  {
    FrontLength(name, size);
    assert Padded(name)[..100] == name[..100];
    var rest := [0] + OWNER + OWNER + (Octal(size, 11) + [0]) + MTIME;
    assert MODE == MODE[..7] + [0];
    assert Front(name, size) == (name[..100] + MODE[..7]) + rest;
  }

  lemma SpacesSum()
    ensures Sum(SPACES) == 256
  {
    var four: Bytes := [32, 32, 32, 32];
    assert four[..3] == [32, 32, 32] && four[..3][..2] == [32, 32] && four[..3][..2][..1] == [32];
    assert [32][..0] == [];
    assert Sum([32]) == 32;
    assert Sum([32, 32]) == 64;
    assert Sum([32, 32, 32]) == 96;
    assert Sum(four) == 128;
    assert SPACES == four + four;
    SumConcat(four, four);
  }

  /** The reader accepts every header, and reads the size and what stands before the first NUL. */
  lemma HeaderReads(name: Bytes, size: nat)
    requires Fits(name, size)
    ensures |Header(name, size)| == BLOCK && |Front(name, size)| == 148
    ensures forall n | 0 <= n <= 148 :: Header(name, size)[..n] == Front(name, size)[..n]
    ensures forall n | 0 <= n < 148 :: Header(name, size)[n] == Front(name, size)[n]
    ensures NulAt(Header(name, size)) < 148 ==>
              ReadHeader(Header(name, size)) == Some(Entry(Front(name, size)[..NulAt(Header(name, size))], size))
  {
    ChecksumFits(name, size);
    FrontLength(name, size);
    var front, back := Front(name, size), Back(name);
    var chk := Octal(Checksum(name, size), 6) + [0, 32];
    var h := Header(name, size);
    ThreeParts(front, chk, back);
    HeaderFields(h, front, chk, back);
    BackMagic(name);
    FrontSize(name, size);
    SizeField(size);
    SumConcat(front + SPACES, back);
    SumConcat(front, SPACES);
    SpacesSum();
  }

  lemma HeaderRoundTrip(name: Bytes, size: nat)
    requires Fits(name, size) && |name| < 100 && 0 !in name
    ensures |Header(name, size)| == BLOCK && ReadHeader(Header(name, size)) == Some(Entry(name, size))
  {
    HeaderReads(name, size);
    FrontName(name, size);
    assert forall j | 0 <= j < |name| :: Header(name, size)[..|name|][j] == name[j];
    NulAtUnique(Header(name, size), |name|);
  }

  /** A long name that happens to continue with the seven digits of the mode. */
  predicate EndsAsMode(name: Bytes) {
    |name| == 107 && name[100..] == MODE[..7]
  }

  /** The reader gets a name back if and only if it has no NUL and is under 100 bytes, but for that coincidence. */
  lemma NameRecoveredIff(name: Bytes, size: nat)
    requires Fits(name, size)
    ensures |Header(name, size)| == BLOCK && ReadHeader(Header(name, size)).Some?
    ensures ReadHeader(Header(name, size)).value.name == name <==> 0 !in name && (|name| < 100 || EndsAsMode(name))
  {
    var h := Header(name, size);
    HeaderReads(name, size);
    if |name| < 100 {
      FrontName(name, size);
      NulBy(h, |name|);
      if 0 !in name {
        HeaderRoundTrip(name, size);
      }
    } else {
      FrontLongName(name, size);
      NulBy(h, 107);
      LongName(name, h);
    }
  }

  lemma NulBy(h: Bytes, n: nat)
    requires n < |h| && h[n] == 0
    ensures NulAt(h) <= n && 0 !in h[..NulAt(h)]
  {
  }

  /** The digits of the mode hold no NUL, so the first one is in the name's hundred bytes or right behind the digits. */
  lemma LongNul(name: Bytes, h: Bytes)
    requires |name| >= 100 && |h| == BLOCK && h[..107] == name[..100] + MODE[..7] && h[107] == 0
    ensures if 0 in name[..100] then NulAt(h) < 100 else NulAt(h) == 107
  {
    var front := name[..100] + MODE[..7];
    assert forall j | 0 <= j < 107 :: h[j] == front[j];
    if 0 in name[..100] {
      var k :| 0 <= k < 100 && name[..100][k] == 0;
      assert h[k] == 0;
      NulBy(h, k);
    } else {
      assert forall j | 0 <= j < 100 :: front[j] == name[..100][j];
      NulAtUnique(h, 107);
    }
  }

  lemma LongName(name: Bytes, h: Bytes)
    requires |name| >= 100 && |h| == BLOCK && h[..107] == name[..100] + MODE[..7] && h[107] == 0
    ensures h[..NulAt(h)] == name <==> 0 !in name && EndsAsMode(name)
  {
    LongNul(name, h);
    TwoParts(name, MODE[..7]);
    if 0 in name[..100] {
      assert |h[..NulAt(h)]| < |name|;
    } else {
      assert h[..NulAt(h)] == name[..100] + MODE[..7];
      ModeHasNoNul();
    }
  }

  lemma ModeHasNoNul()
    ensures 0 !in MODE[..7]
  {
  }

  lemma TwoParts(name: Bytes, tail: Bytes)
    requires |name| >= 100 && |tail| == 7
    ensures name == name[..100] + name[100..]
    ensures name == name[..100] + tail <==> |name| == 107 && name[100..] == tail
    ensures 0 in name <==> 0 in name[..100] || 0 in name[100..]
  {
    assert name == name[..100] + name[100..];
    assert (name[..100] + tail)[100..] == tail;
  }

  lemma HeaderFields(h: Bytes, front: Bytes, chk: Bytes, back: Bytes)
    requires h == front + chk + back && |front| == 148 && |chk| == 8 && |back| == 356
    ensures h[..148] == front && h[156..] == back
    ensures h[148..154] == chk[..6] && h[124..135] == front[124..135] && h[257..263] == back[101..107]
    ensures forall i | 0 <= i < 148 :: h[i] == front[i]
    ensures forall n | 0 <= n <= 148 :: h[..n] == front[..n]
  {
  }

  /** The fixed fields, read back: mode 0600, owner and group 0, time 0, a regular file, ustar version 00. */
  lemma HeaderFixedFields(name: Bytes, size: nat)
    requires Fits(name, size)
    ensures |Header(name, size)| == BLOCK
    ensures var h := Header(name, size);
            && ParseOctal(h[100..107]) == Some(6 * 64) && h[107] == 0
            && ParseOctal(h[108..115]) == Some(0) && ParseOctal(h[116..123]) == Some(0)
            && ParseOctal(h[136..147]) == Some(0)
            && h[156] == '0' as int && h[263..265] == ['0' as int, '0' as int]
            && (|name| < 100 ==> forall i | 157 <= i < 257 || 265 <= i < 512 :: h[i] == 0)
  {
    HeaderReads(name, size);
    ChecksumFits(name, size);
    BackMagic(name);
    var front, back, h := Front(name, size), Back(name), Header(name, size);
    HeaderFields(h, front, Octal(Checksum(name, size), 6) + [0, 32], back);
    FrontFixed(name, size);
    assert h[100..107] == front[100..107] && h[108..115] == front[108..115];
    assert h[116..123] == front[116..123] && h[136..147] == front[136..147];
    assert forall i | 156 <= i < 512 :: h[i] == h[156..][i - 156];
    BackFixed(name);
    assert h[263..265] == h[156..][107..109];
  }

  lemma FrontFixed(name: Bytes, size: nat)
    requires Fits(name, size)
    ensures |Front(name, size)| == 148
    ensures var f := Front(name, size);
            && ParseOctal(f[100..107]) == Some(6 * 64) && f[107] == 0
            && ParseOctal(f[108..115]) == Some(0) && ParseOctal(f[116..123]) == Some(0)
            && ParseOctal(f[136..147]) == Some(0)
  {
    SizeField(size);
    var f, p := Front(name, size), Padded(name)[..100];
    var tail := Octal(size, 11) + [0];
    assert f == p + MODE + (OWNER + OWNER + tail + MTIME);
    assert f == (p + MODE) + OWNER + (OWNER + tail + MTIME);
    assert f == (p + MODE + OWNER) + OWNER + (tail + MTIME);
    assert f == (p + MODE + OWNER + OWNER + tail) + MTIME + [];
    ThreeParts(p, MODE, OWNER + OWNER + tail + MTIME);
    ThreeParts(p + MODE, OWNER, OWNER + tail + MTIME);
    ThreeParts(p + MODE + OWNER, OWNER, tail + MTIME);
    ThreeParts(p + MODE + OWNER + OWNER + tail, MTIME, []);
    assert f[100..107] == f[100..108][..7] && f[107] == f[100..108][7];
    assert f[108..115] == f[108..116][..7] && f[116..123] == f[116..124][..7] && f[136..147] == f[136..148][..11];
    ModeReads();
  }

  lemma ModeReads()
    ensures ParseOctal(MODE[..7]) == Some(6 * 64) && ParseOctal(OWNER[..7]) == Some(0) && ParseOctal(MTIME[..11]) == Some(0)
  {
    OctalRoundTrip(384, 7);
    assert Radix.Pow(8, 7) == 2097152 && Radix.Pow(8, 11) == SIZE_LIMIT;
    OctalRoundTrip(0, 7);
    OctalRoundTrip(0, 11);
    assert Octal(0, 7) == OWNER[..7] && Octal(0, 11) == MTIME[..11];
    assert Radix.Digits(6, 8) == [6];
    assert Radix.Digits(48, 8) == [6] + [0];
    assert Radix.Digits(384, 8) == [6] + [0] + [0];
    assert Octal(384, 7) == MODE[..7];
  }

  lemma BackFixed(name: Bytes)
    requires |name| <= BLOCK
    ensures |Back(name)| == 356 && Back(name)[0] == '0' as int && Back(name)[107..109] == ['0' as int, '0' as int]
    ensures |name| < 100 ==> forall i | 1 <= i < 101 || 109 <= i < 356 :: Back(name)[i] == 0
  {
    var old1, old2 := Padded(name)[157..257], Padded(name)[265..];
    assert Back(name) == ([48] + old1 + MAGIC) + VERSION + old2;
    ThreeParts([48] + old1 + MAGIC, VERSION, old2);
  }

  // ---- filling a header in place -------------------------------------------------------------

  function Splice(s: Bytes, at: nat, field: Bytes): Bytes
    requires at + |field| <= |s|
  {
    s[..at] + field + s[at + |field|..]
  }

  /** Writing at or past the end of what is written already, over an older block. */
  lemma SpliceOver(pre: Bytes, was: Bytes, at: nat, field: Bytes)
    requires |pre| <= at && at + |field| <= |was|
    ensures Splice(pre + was[|pre|..], at, field) == pre + was[|pre|..at] + field + was[at + |field|..]
    ensures at == |pre| ==> Splice(pre + was[|pre|..], at, field) == pre + field + was[at + |field|..]
  {
    var s := pre + was[|pre|..];
    assert s[..at] == pre + was[|pre|..at];
    assert s[at + |field|..] == was[at + |field|..];
    assert was[at..at] == [];
  }

  lemma SpliceMiddle(a: Bytes, b: Bytes, c: Bytes, field: Bytes)
    requires |field| == |b|
    ensures Splice(a + b + c, |a|, field) == a + field + c
  {
    ThreeParts(a, b, c);
  }

  method Fill(h: array<Byte>, at: nat, field: Bytes)
    requires at + |field| <= h.Length
    modifies h
    ensures h[..] == Splice(old(h[..]), at, field)
  {
    for k := 0 to |field|
      invariant forall j | 0 <= j < at || at + k <= j < h.Length :: h[j] == old(h[j])
      invariant forall j | at <= j < at + k :: h[j] == field[j - at]
    {
      h[at + k] := field[k];
    }
  }

  method SumBlock(h: array<Byte>) returns (sum: nat)
    ensures sum == Sum(h[..])
  {
    sum := 0;
    for k := 0 to h.Length
      invariant sum == Sum(h[..k])
    {
      assert h[..k + 1][..k] == h[..k];
      sum := sum + h[k];
    }
    assert h[..h.Length] == h[..];
  }

  /** The fields up to the modification time, written left to right over the name. */
  lemma FieldsInOrder(name: Bytes, size: nat)
    requires Fits(name, size)
    ensures |Octal(size, 11)| == 11
    ensures
      var s1 := Splice(Zeros(BLOCK), 0, name);
      var s2 := Splice(s1, 100, MODE);
      var s3 := Splice(s2, 108, OWNER);
      var s4 := Splice(s3, 116, OWNER);
      var s5 := Splice(s4, 124, Octal(size, 11) + [0]);
      var s6 := Splice(s5, 136, MTIME);
      s1 == Padded(name) && s6 == Front(name, size) + Padded(name)[148..]
  {
    SizeField(size);
    var was := Padded(name);
    assert Splice(Zeros(BLOCK), 0, name) == was;
    var n1 := was[..100];
    var n2 := n1 + MODE;
    var n3 := n2 + OWNER;
    var n4 := n3 + OWNER;
    var n5 := n4 + (Octal(size, 11) + [0]);
    assert was == n1 + was[100..];
    SpliceOver(n1, was, 100, MODE);
    SpliceOver(n2, was, 108, OWNER);
    SpliceOver(n3, was, 116, OWNER);
    SpliceOver(n4, was, 124, Octal(size, 11) + [0]);
    SpliceOver(n5, was, 136, MTIME);
  }

  lemma TrailerInOrder(front: Bytes, name: Bytes)
    requires |front| == 148 && |name| <= BLOCK
    ensures
      var s7 := Splice(front + Padded(name)[148..], 156, [48]);
      var s8 := Splice(s7, 257, MAGIC);
      var s9 := Splice(s8, 263, VERSION);
      Splice(s9, 148, SPACES) == front + SPACES + Back(name)
  {
    var was := Padded(name);
    var n7 := front + was[148..156] + [48];
    var n8 := n7 + was[157..257] + MAGIC;
    SpliceOver(front, was, 156, [48]);
    SpliceOver(n7, was, 257, MAGIC);
    SpliceOver(n8, was, 263, VERSION);
    assert n8 + VERSION + was[265..] == front + was[148..156] + Back(name);
    SpliceMiddle(front, was[148..156], Back(name), SPACES);
  }

  lemma WriteBack(front: Bytes, digits: Bytes, back: Bytes)
    requires |front| == 148 && |digits| == 6 && |back| == 356
    ensures Splice(front + SPACES + back, 148, digits + [0])[155 := 32] == front + (digits + [0, 32]) + back
  {
    SpliceMiddle(front, SPACES[..7], [32] + back, digits + [0]);
    assert front + SPACES + back == front + SPACES[..7] + ([32] + back);
  }

  method TarHeader(name: Bytes, size: nat) returns (h: array<Byte>)
    requires Fits(name, size)
    ensures fresh(h) && h[..] == Header(name, size)
  {
    FieldsInOrder(name, size);
    FrontLength(name, size);
    TrailerInOrder(Front(name, size), name);
    ChecksumFits(name, size);
    WriteBack(Front(name, size), Octal(Checksum(name, size), 6), Back(name));
    h := new Byte[BLOCK](_ => 0);
    assert h[..] == Zeros(BLOCK);
    Fill(h, 0, name);
    Fill(h, 100, MODE);
    Fill(h, 108, OWNER);
    Fill(h, 116, OWNER);
    Fill(h, 124, Octal(size, 11) + [0]);
    Fill(h, 136, MTIME);
    Fill(h, 156, [48]);
    Fill(h, 257, MAGIC);
    Fill(h, 263, VERSION);
    Fill(h, 148, SPACES);
    var sum := SumBlock(h);
    Fill(h, 148, Octal(sum, 6) + [0]);
    h[155] := 32;
  }

  // ---- the stream ------------------------------------------------------------------------------

  datatype File = File(name: Bytes, data: Bytes)

  predicate AllFit(files: seq<File>) {
    forall i | 0 <= i < |files| :: Fits(files[i].name, |files[i].data|)
  }

  /** Names the format gives back. */
  predicate WellNamed(files: seq<File>) {
    forall i | 0 <= i < |files| :: |files[i].name| < 100 && 0 !in files[i].name
  }

  function NextMultiple(n: nat): (m: nat)
    ensures m % 512 == 0 && n <= m < n + 512
  {
    (n + 511) / 512 * 512
  }

  function Record(f: File): Bytes
    requires |f.name| <= BLOCK
  {
    Header(f.name, |f.data|) + f.data + Zeros(NextMultiple(|f.data|) - |f.data|)
  }

  function Bundle(files: seq<File>): Bytes
    requires AllFit(files)
  {
    if files == [] then Zeros(2 * BLOCK) else Record(files[0]) + Bundle(files[1..])
  }

  /** The reader, extended to hand out the contents it skips; None where it would stop with a failure. */
  function ParseTar(p: Bytes): Option<seq<File>>
    decreases |p|
  {
    if |p| < BLOCK then None
    else if p[..BLOCK] == Zeros(BLOCK) then
      if p == Zeros(2 * BLOCK) then Some([]) else None
    else
      var entry := ReadHeader(p[..BLOCK]);
      if entry.None? || |p| < BLOCK + NextMultiple(entry.value.size) then None
      else
        var size := entry.value.size;
        var rest := ParseTar(p[BLOCK + NextMultiple(size)..]);
        if rest.None? then None
        else Some([File(entry.value.name, p[BLOCK..BLOCK + size])] + rest.value)
  }

  lemma RecordLength(f: File)
    requires Fits(f.name, |f.data|)
    ensures |Record(f)| == BLOCK + NextMultiple(|f.data|)
  {
    ChecksumFits(f.name, |f.data|);
  }

  lemma RecordParts(f: File, rest: Bytes)
    requires Fits(f.name, |f.data|)
    ensures
      var p, n := Record(f) + rest, |f.data|;
      && |p| >= BLOCK + NextMultiple(n)
      && p[..BLOCK] == Header(f.name, n)
      && p[BLOCK..BLOCK + n] == f.data
      && p[BLOCK + NextMultiple(n)..] == rest
  {
    RecordLength(f);
    ChecksumFits(f.name, |f.data|);
    var h, pad := Header(f.name, |f.data|), Zeros(NextMultiple(|f.data|) - |f.data|);
    ThreeParts(h, f.data, pad + rest);
    assert Record(f) + rest == h + f.data + (pad + rest);
  }

  /** No header is an all-zero block. */
  lemma HeaderNotZero(name: Bytes, size: nat)
    requires Fits(name, size)
    ensures |Header(name, size)| == BLOCK && Header(name, size) != Zeros(BLOCK)
  {
    ChecksumFits(name, size);
    FrontLength(name, size);
    BackMagic(name);
    var h := Header(name, size);
    assert h[156] == Back(name)[0] == 48;
    assert Zeros(BLOCK)[156] == 0;
  }

  lemma ParseRecord(f: File, rest: Bytes)
    requires Fits(f.name, |f.data|) && |f.name| < 100 && 0 !in f.name && ParseTar(rest).Some?
    ensures ParseTar(Record(f) + rest) == Some([f] + ParseTar(rest).value)
  {
    RecordParts(f, rest);
    HeaderNotZero(f.name, |f.data|);
    HeaderRoundTrip(f.name, |f.data|);
  }

  lemma {:induction false} BundleRoundTrip(files: seq<File>)
    requires AllFit(files) && WellNamed(files)
    ensures ParseTar(Bundle(files)) == Some(files)
  {
    var p := Bundle(files);
    if files == [] {
      assert p[..BLOCK] == Zeros(BLOCK);
    } else {
      var f := files[0];
      BundleRoundTrip(files[1..]);
      ParseRecord(f, Bundle(files[1..]));
      assert files == [f] + files[1..];
    }
  }

  function Offset(files: seq<File>, i: nat): nat
    requires i <= |files|
  {
    if i == 0 then 0 else BLOCK + NextMultiple(|files[0].data|) + Offset(files[1..], i - 1)
  }

  lemma {:induction false} OffsetAligned(files: seq<File>, i: nat)
    requires i <= |files|
    ensures Offset(files, i) % 512 == 0
    decreases i
  {
    if i > 0 {
      OffsetAligned(files[1..], i - 1);
    }
  }

  lemma DropNone<T>(s: seq<T>)
    ensures s[0..] == s
  {
  }

  lemma SkipHead<T>(head: seq<T>, rest: seq<T>, at: nat)
    requires at <= |rest|
    ensures (head + rest)[|head| + at..] == rest[at..]
  {
  }

  lemma DropDrop<T>(s: seq<T>, m: nat, n: nat)
    requires m + n <= |s|
    ensures s[m..][n..] == s[m + n..]
  {
  }

  lemma BundleLength(files: seq<File>)
    requires AllFit(files)
    ensures |Bundle(files)| >= BLOCK
  {
    if files != [] {
      RecordLength(files[0]);
    }
  }

  lemma OneRecordOn(files: seq<File>, i: nat)
    requires 0 < i <= |files| && AllFit(files)
    ensures Offset(files, i) == |Record(files[0])| + Offset(files[1..], i - 1)
    ensures |Bundle(files)| == |Record(files[0])| + |Bundle(files[1..])|
  {
    RecordLength(files[0]);
  }

  lemma {:induction false} BundleFrom(files: seq<File>, i: nat)
    requires i <= |files| && AllFit(files)
    ensures Offset(files, i) + BLOCK <= |Bundle(files)| && Bundle(files)[Offset(files, i)..] == Bundle(files[i..])
    decreases i
  {
    if i == 0 {
      DropNone(files);
      DropNone(Bundle(files));
      BundleLength(files);
    } else {
      BundleFrom(files[1..], i - 1);
      OneRecordOn(files, i);
      SkipHead(Record(files[0]), Bundle(files[1..]), Offset(files[1..], i - 1));
      DropDrop(files, 1, i - 1);
    }
  }

  /** Every header starts on a block boundary and is no zero block; after the last file come exactly two zero blocks. */
  lemma HeadersAligned(files: seq<File>, i: nat)
    requires i <= |files| && AllFit(files)
    ensures Offset(files, i) % 512 == 0 && Offset(files, i) + BLOCK <= |Bundle(files)|
    ensures i < |files| ==>
      Bundle(files)[Offset(files, i)..][..BLOCK] == Header(files[i].name, |files[i].data|) != Zeros(BLOCK)
    ensures i == |files| ==> Bundle(files)[Offset(files, i)..] == Zeros(2 * BLOCK)
  {
    BundleFrom(files, i);
    OffsetAligned(files, i);
    if i < |files| {
      RecordParts(files[i], Bundle(files[i..][1..]));
      HeaderNotZero(files[i].name, |files[i].data|);
    }
  }

  lemma PaddingAgrees(start: nat, size: nat)
    requires start % 512 == 0
    ensures NextMultiple(start + BLOCK + size) - (start + BLOCK + size) == NextMultiple(size) - size
  {
  }

  lemma BundleStep(was: Bytes, files: seq<File>, i: nat)
    requires i < |files| && AllFit(files)
    ensures was + Bundle(files[i..]) == (was + Record(files[i])) + Bundle(files[i + 1..])
  {
    assert files[i..][1..] == files[i + 1..];
  }

  lemma Appended(was: Bytes, f: File)
    requires |was| % 512 == 0 && Fits(f.name, |f.data|)
    ensures
      var out := was + Header(f.name, |f.data|) + f.data;
      was + Record(f) == out + Zeros(NextMultiple(|out|) - |out|)
    ensures |was + Record(f)| % 512 == 0
  {
    ChecksumFits(f.name, |f.data|);
    PaddingAgrees(|was|, |f.data|);
  }

  /** One turn of the loop: header, contents, padding to the block boundary. */
  method AppendRecord(out: Bytes, f: File) returns (more: Bytes)
    requires |out| % 512 == 0 && Fits(f.name, |f.data|)
    ensures more == out + Record(f) && |more| % 512 == 0
  {
    Appended(out, f);
    var header := TarHeader(f.name, |f.data|);
    more := out + header[..];
    more := more + f.data;
    more := more + Zeros(NextMultiple(|more|) - |more|);
  }

  method TarBundle(files: seq<File>) returns (out: Bytes)
    requires AllFit(files)
    ensures out == Bundle(files)
  {
    out := [];
    DropNone(files);
    for i := 0 to |files|
      invariant |out| % 512 == 0
      invariant out + Bundle(files[i..]) == Bundle(files)
    {
      BundleStep(out, files, i);
      out := AppendRecord(out, files[i]);
    }
    out := out + Zeros(2 * BLOCK);
  }
}
