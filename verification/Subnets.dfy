/** Address arithmetic: hextet addition with carry, and the pod subnet of each node. */
module Subnets {
  import opened Options
  import opened Text
  import opened Radix
  import opened Ipv6

  const HEXTET: nat := 65536

  // ---- 128-bit addition by hextets ---------------------------------------------------

  datatype Sum = Sum(carry: nat, digits: Hextets)

  /** The right fold of `v6Add`. */
  function Carry(h: Hextets): Sum {
    if h == [] then Sum(0, [])
    else
      var acc := Carry(h[1..]);
      var v := h[0] + acc.carry;
      Sum(v / HEXTET, [v % HEXTET] + acc.digits)
  }

  function Bump(h: Hextets, pos: int, n: nat): Hextets {
    seq(|h|, i requires 0 <= i < |h| => if i == pos then h[i] + n else h[i])
  }

  function V6Add(h: Hextets, pos: int, n: nat): Hextets {
    Carry(Bump(h, pos, n)).digits
  }

  /** `index` steps of `2^bits` addresses. */
  function Offset(index: nat, bits: nat): nat {
    index * Pow(2, bits)
  }

  function Value(h: Hextets): nat {
    FromDigits(h, HEXTET)
  }

  lemma {:induction false} CarryShape(h: Hextets)
    ensures |Carry(h).digits| == |h| && forall i | 0 <= i < |h| :: Carry(h).digits[i] < HEXTET
  {
    if h != [] {
      CarryShape(h[1..]);
    }
  }

  lemma {:induction false} CarryValue(h: Hextets)
    ensures Value(Carry(h).digits) + Carry(h).carry * Pow(HEXTET, |h|) == Value(h)
  {
    if h != [] {
      var acc := Carry(h[1..]);
      var v := h[0] + acc.carry;
      CarryValue(h[1..]);
      CarryShape(h[1..]);
      FromDigitsCons(v % HEXTET, acc.digits, HEXTET);
      FromDigitsCons(h[0], h[1..], HEXTET);
      assert h == [h[0]] + h[1..];
      CarryStep(h[0], acc.carry, Pow(HEXTET, |h| - 1), Value(acc.digits), Value(h[1..]));
    }
  }

  lemma CarryStep(d: nat, carry: nat, p: nat, low: nat, rest: nat)
    requires low + carry * p == rest
    ensures var v := d + carry; (v % HEXTET) * p + low + (v / HEXTET) * (HEXTET * p) == d * p + rest
  {
    var v := d + carry;
    var q, r := v / HEXTET, v % HEXTET;
    assert v == q * HEXTET + r;
    assert r * p + q * (HEXTET * p) == (q * HEXTET + r) * p;
    assert (d + carry) * p == d * p + carry * p;
  }

  lemma Distribute(a: nat, b: nat, size: nat)
    ensures (a + b) * size == a * size + b * size && a * size >= 0 && b * size >= 0
  {
  }

  lemma {:induction false} BumpValue(h: Hextets, pos: nat, n: nat)
    requires pos < |h|
    ensures Value(Bump(h, pos, n)) == Value(h) + n * Pow(HEXTET, |h| - 1 - pos)
    decreases |h|
  {
    FromDigitsCons(h[0], h[1..], HEXTET);
    assert h == [h[0]] + h[1..];
    if pos == 0 {
      assert Bump(h, pos, n) == [h[0] + n] + h[1..];
      FromDigitsCons(h[0] + n, h[1..], HEXTET);
      Distribute(h[0], n, Pow(HEXTET, |h| - 1));
    } else {
      var rest := Bump(h[1..], pos - 1, n);
      assert Bump(h, pos, n) == [h[0]] + rest;
      FromDigitsCons(h[0], rest, HEXTET);
      BumpValue(h[1..], pos - 1, n);
    }
  }

  lemma NoSmallMultiple(k: int, m: int)
    requires m > 0 && k != 0
    ensures k * m >= m || k * m <= -m
  {
    if k > 0 {
      assert (k - 1) * m >= 0;
    } else {
      assert (-k - 1) * m >= 0;
    }
  }

  lemma ModUnique(x: nat, low: nat, q: nat, m: nat)
    requires x == low + q * m && low < m
    ensures low == x % m
  {
    var d := x / m;
    assert x == d * m + x % m;
    assert (q - d) * m == x % m - low;
    if q != d {
      NoSmallMultiple(q - d, m);
    }
  }

  /** `v6Add` is addition of n * 2^(16 * (7 - pos)) modulo 2^128. */
  lemma V6AddValue(h: Hextets, pos: nat, n: nat)
    requires |h| == 8 && pos < 8
    ensures Address(V6Add(h, pos, n))
    ensures Value(V6Add(h, pos, n)) == (Value(h) + Offset(n, 16 * (7 - pos))) % Pow(2, 128)
  {
    var b := Bump(h, pos, n);
    CarryShape(b);
    CarryValue(b);
    BumpValue(h, pos, n);
    FromDigitsBound(V6Add(h, pos, n), HEXTET);
    HextetPower(7 - pos);
    HextetPower(8);
    ModUnique(Value(b), Value(V6Add(h, pos, n)), Carry(b).carry, Pow(2, 128));
  }

  lemma HextetPower(e: nat)
    ensures Pow(HEXTET, e) == Pow(2, 16 * e)
  {
    assert Pow(2, 4) == 16;
    PowAdd(2, 4, 4);
    PowAdd(2, 8, 8);
    PowMul(2, 16, e);
  }

  // ---- carving a prefix ------------------------------------------------------------------

  lemma MulRoom(i: nat, n: nat, size: nat)
    requires i < n
    ensures i * size + size <= n * size
  {
    Distribute(i + 1, n - i - 1, size);
    Distribute(i, 1, size);
  }

  lemma MulCancel(q: nat, n: nat, block: nat)
    requires q * block < n * block
    ensures q < n
  {
    if q >= n {
      MulMonotone(n, q, block);
    }
  }

  lemma MulMonotone(a: nat, b: nat, size: nat)
    requires a <= b
    ensures a * size <= b * size
  {
    Distribute(a, b - a, size);
  }

  lemma AlignedRoom(base: nat, block: nat, n: nat)
    requires block > 0 && base < n * block && base % block == 0
    ensures base + block <= n * block
  {
    var q := base / block;
    DivModSplit(base, block);
    MulCancel(q, n, block);
    MulRoom(q, n, block);
  }

  /** Subnet `i` of `2^(width - mask)` addresses, counted from an aligned base. */
  lemma CarveInside(base: nat, width: nat, prefix: nat, mask: nat, i: nat)
    requires prefix <= mask <= width && base < Pow(2, width) && base % Pow(2, width - prefix) == 0
    requires i < Pow(2, mask - prefix)
    ensures base + Offset(i, width - mask) + Pow(2, width - mask) <= base + Pow(2, width - prefix) <= Pow(2, width)
  {
    PowAdd(2, mask - prefix, width - mask);
    MulRoom(i, Pow(2, mask - prefix), Pow(2, width - mask));
    PowAdd(2, prefix, width - prefix);
    AlignedRoom(base, Pow(2, width - prefix), Pow(2, prefix));
  }

  /** Two subnets of one prefix: both inside it, the lower entirely below the higher. */
  lemma CarvePair(base: nat, width: nat, prefix: nat, mask: nat, i: nat, j: nat)
    requires prefix <= mask <= width && base < Pow(2, width) && base % Pow(2, width - prefix) == 0
    requires i < j < Pow(2, mask - prefix)
    ensures var size := Pow(2, width - mask);
            && base + Offset(i, width - mask) + size <= base + Offset(j, width - mask)
            && base + Offset(j, width - mask) + size <= base + Pow(2, width - prefix) <= Pow(2, width)
  {
    CarveInside(base, width, prefix, mask, j);
    MulRoom(i, j, Pow(2, width - mask));
  }

  /** The assertion of the module: node indices are typed 0 to 255, so the cap costs nothing. */
  predicate IndexAdmitted(prefix: nat, carve: nat, index: nat) {
    prefix <= carve && index < Pow(2, if carve - prefix < 8 then carve - prefix else 8)
  }

  lemma CapLosesNothing(prefix: nat, carve: nat, index: nat)
    requires index < 256
    ensures IndexAdmitted(prefix, carve, index) <==> prefix <= carve && index < Pow(2, carve - prefix)
  {
    assert Pow(2, 4) == 16;
    PowAdd(2, 4, 4);
    if prefix <= carve && carve - prefix >= 8 {
      PowMonotone(2, 8, carve - prefix);
    }
  }

  // ---- CIDR text ---------------------------------------------------------------------------

  function CidrBase(cidr: string): string {
    SplitOn(cidr, '/')[0]
  }

  /** `lib.toInt` refuses a leading zero as ambiguous. */
  function ParseDecimal(s: string): Option<nat> {
    if s == "" || (|s| > 1 && s[0] == '0') then None else Parse(s, 10)
  }

  function CidrPrefix(cidr: string): Option<nat> {
    var fields := SplitOn(cidr, '/');
    if |fields| < 2 then None else ParseDecimal(fields[1])
  }

  function Cidr(address: string, mask: nat): string {
    address + "/" + Print(mask, 10)
  }

  lemma DecimalRoundTrip(n: nat)
    ensures ParseDecimal(Print(n, 10)) == Some(n)
  {
    Radix.ParsePrint(n, 10);
  }

  lemma CidrParts(address: string, mask: nat)
    requires '/' !in address
    ensures CidrBase(Cidr(address, mask)) == address && CidrPrefix(Cidr(address, mask)) == Some(mask)
  {
    SplitCons(address, Print(mask, 10), '/');
    SplitCons(Print(mask, 10), "", '/');
    DecimalRoundTrip(mask);
  }

  // ---- IPv6 ---------------------------------------------------------------------------------

  /** Only the hextet at bit `128 - nodeMask` is bumped; the carry does the rest. */
  function NodeHextets(base: Hextets, mask: nat, index: nat): Hextets
    requires mask <= 128
  {
    var shift := 128 - mask;
    V6Add(base, 7 - shift / 16, Offset(index, shift % 16))
  }

  lemma NodeHextetsValue(base: Hextets, mask: nat, index: nat)
    requires |base| == 8 && mask <= 128
    ensures |NodeHextets(base, mask, index)| == 8
    ensures Value(NodeHextets(base, mask, index)) == (Value(base) + Offset(index, 128 - mask)) % Pow(2, 128)
  {
    var shift := 128 - mask;
    if mask > 0 {
      ScaledShift(shift, index);
      V6AddValue(base, 7 - shift / 16, Offset(index, shift % 16));
    } else {
      UnshiftedValue(base, -1, Offset(index, 0), index);
    }
  }

  /** Scaling by the low bits and shifting by whole hextets is shifting by all of them. */
  lemma ScaledShift(shift: nat, index: nat)
    ensures Offset(Offset(index, shift % 16), 16 * (shift / 16)) == Offset(index, shift)
  {
    PowAdd(2, shift % 16, 16 * (shift / 16));
    assert shift % 16 + 16 * (shift / 16) == shift;
    MulAssoc(index, Pow(2, shift % 16), Pow(2, 16 * (shift / 16)));
  }

  lemma MulAssoc(a: nat, b: nat, c: nat)
    ensures (a * b) * c == a * (b * c)
  {
  }

  /** A mask of zero leaves no hextet to bump, and nothing to add modulo 2^128. */
  lemma UnshiftedValue(base: Hextets, pos: int, n: nat, index: nat)
    requires |base| == 8 && pos < 0
    ensures |V6Add(base, pos, n)| == 8
    ensures Value(V6Add(base, pos, n)) == (Value(base) + Offset(index, 128)) % Pow(2, 128)
  {
    assert Bump(base, pos, n) == base;
    CarryShape(base);
    CarryValue(base);
    FromDigitsBound(V6Add(base, pos, n), HEXTET);
    HextetPower(8);
    WrapMore(Value(base), Value(V6Add(base, pos, n)), Carry(base).carry, index, Pow(2, 128));
  }

  lemma WrapMore(x: nat, low: nat, c: nat, k: nat, m: nat)
    requires x == low + c * m && low < m
    ensures low == (x + k * m) % m
  {
    assert (c + k) * m == c * m + k * m;
    ModUnique(x + k * m, low, c + k, m);
  }

  function NodePodV6(cluster: string, mask: nat, index: nat): Option<string>
    requires mask <= 128
  {
    var base := ParseAddress(CidrBase(cluster));
    if base.None? then None
    else
      ParseLength(CidrBase(cluster));
      NodeHextetsValue(base.value, mask, index);
      Some(Cidr(PrintAddress(NodeHextets(base.value, mask, index)), mask))
  }

  lemma ParseLength(s: string)
    ensures ParseAddress(s).Some? ==> |ParseAddress(s).value| == 8
  {
    var halves := Halves(s);
    ParseGroupsLength(Groups(halves[0]));
    ParseGroupsLength(if |halves| == 2 then Groups(halves[1]) else []);
  }

  lemma {:induction false} JoinFree(fields: seq<string>, sep: char, c: char)
    requires c != sep && forall i | 0 <= i < |fields| :: c !in fields[i]
    ensures c !in JoinWith(fields, sep)
  {
    if |fields| > 1 {
      JoinFree(fields[1..], sep, c);
    }
  }

  lemma PrintedHasNoSlash(h: Hextets)
    requires |h| == 8
    ensures '/' !in PrintAddress(h)
  {
    var best := BestRun(h, 8);
    BestRunFits(h, 8);
    if best.len < 2 {
      HexGroupsClean(h);
      JoinFree(HexGroups(h), ':', '/');
    } else {
      var before, after := h[..best.start], h[best.start + best.len..];
      HexGroupsClean(before);
      HexGroupsClean(after);
      JoinFree(HexGroups(before), ':', '/');
      JoinFree(HexGroups(after), ':', '/');
    }
  }

  /** The text is a CIDR of the given mask whose address has the given value. */
  ghost predicate ReadsAsV6(text: string, value: int, mask: nat) {
    && CidrPrefix(text) == Some(mask)
    && ParseAddress(CidrBase(text)).Some?
    && Value(ParseAddress(CidrBase(text)).value) == value
  }

  lemma PrintedReadsBack(h: Hextets, mask: nat)
    requires |h| == 8
    ensures ReadsAsV6(Cidr(PrintAddress(h), mask), Value(h), mask)
  {
    PrintedHasNoSlash(h);
    CidrParts(PrintAddress(h), mask);
    Ipv6.ParsePrint(h);
  }

  /** Without wrapping: base + index * 2^(128 - mask), inside the cluster prefix. */
  lemma NodeHextetsPlaced(base: Hextets, prefix: nat, mask: nat, index: nat)
    requires |base| == 8 && prefix <= mask <= 128 && index < Pow(2, mask - prefix)
    requires Value(base) < Pow(2, 128) && Value(base) % Pow(2, 128 - prefix) == 0
    ensures |NodeHextets(base, mask, index)| == 8
    ensures Value(NodeHextets(base, mask, index)) == Value(base) + Offset(index, 128 - mask)
  {
    NodeHextetsValue(base, mask, index);
    NoWrap(Value(base), 128, prefix, mask, index);
  }

  lemma NoWrap(base: nat, width: nat, prefix: nat, mask: nat, index: nat)
    requires prefix <= mask <= width && base < Pow(2, width) && base % Pow(2, width - prefix) == 0
    requires index < Pow(2, mask - prefix)
    ensures (base + Offset(index, width - mask)) % Pow(2, width) == base + Offset(index, width - mask)
  {
    CarveInside(base, width, prefix, mask, index);
    SmallMod(base + Offset(index, width - mask), Pow(2, width));
  }

  /** The printed pod CIDR of an admitted node reads back as base + index * 2^(128 - mask). */
  lemma NodePodV6Placed(cluster: string, base: Hextets, prefix: nat, mask: nat, index: nat)
    requires ParseAddress(CidrBase(cluster)) == Some(base) && prefix <= mask <= 128
    requires Value(base) < Pow(2, 128) && Value(base) % Pow(2, 128 - prefix) == 0
    requires index < Pow(2, mask - prefix)
    ensures NodePodV6(cluster, mask, index).Some?
    ensures ReadsAsV6(NodePodV6(cluster, mask, index).value, Value(base) + Offset(index, 128 - mask), mask)
  {
    ParseLength(CidrBase(cluster));
    NodePodV6Prints(cluster, base, mask, index);
    NodeHextetsPlaced(base, prefix, mask, index);
  }

  lemma NodePodV6Prints(cluster: string, base: Hextets, mask: nat, index: nat)
    requires ParseAddress(CidrBase(cluster)) == Some(base) && |base| == 8 && mask <= 128
    ensures NodePodV6(cluster, mask, index).Some?
    ensures ReadsAsV6(NodePodV6(cluster, mask, index).value, Value(NodeHextets(base, mask, index)), mask)
  {
    NodeHextetsValue(base, mask, index);
    PrintedReadsBack(NodeHextets(base, mask, index), mask);
  }

  lemma SmallMod(x: nat, m: nat)
    requires x < m
    ensures x % m == x
  {
  }

  // ---- IPv4 ---------------------------------------------------------------------------------

  function IpToInt(ip: string): Option<nat> {
    var f := SplitOn(ip, '.');
    if |f| < 4 then None
    else
      var a, b, c, d := ParseDecimal(f[0]), ParseDecimal(f[1]), ParseDecimal(f[2]), ParseDecimal(f[3]);
      if a.None? || b.None? || c.None? || d.None? then None
      else Some(a.value * 16777216 + b.value * 65536 + c.value * 256 + d.value)
  }

  function Octets(n: nat): seq<string> {
    [Print(n / 16777216, 10), Print(n / 65536 % 256, 10), Print(n / 256 % 256, 10), Print(n % 256, 10)]
  }

  function IntToIp(n: nat): string {
    JoinWith(Octets(n), '.')
  }

  lemma IpOfFields(f: seq<string>, a: nat, b: nat, c: nat, d: nat)
    requires |f| == 4 && forall i | 0 <= i < 4 :: '.' !in f[i]
    requires ParseDecimal(f[0]) == Some(a) && ParseDecimal(f[1]) == Some(b)
    requires ParseDecimal(f[2]) == Some(c) && ParseDecimal(f[3]) == Some(d)
    ensures IpToInt(JoinWith(f, '.')) == Some(a * 16777216 + b * 65536 + c * 256 + d)
  {
    SplitJoin(f, '.');
  }

  lemma DecimalClean(n: nat)
    ensures '.' !in Print(n, 10) && '/' !in Print(n, 10) && ParseDecimal(Print(n, 10)) == Some(n)
  {
    DecimalRoundTrip(n);
  }

  lemma IntToIpRoundTrip(n: nat)
    ensures IpToInt(IntToIp(n)) == Some(n) && '/' !in IntToIp(n)
  {
    DottedQuad(n / 16777216, n / 65536 % 256, n / 256 % 256, n % 256);
    OctetSum(n);
  }

  lemma DottedQuad(a: nat, b: nat, c: nat, d: nat)
    ensures
      var text := JoinWith([Print(a, 10), Print(b, 10), Print(c, 10), Print(d, 10)], '.');
      IpToInt(text) == Some(a * 16777216 + b * 65536 + c * 256 + d) && '/' !in text
  {
    DecimalClean(a);
    DecimalClean(b);
    DecimalClean(c);
    DecimalClean(d);
    var f := [Print(a, 10), Print(b, 10), Print(c, 10), Print(d, 10)];
    IpOfFields(f, a, b, c, d);
    JoinFree(f, '.', '/');
  }

  lemma OctetSum(n: nat)
    ensures n / 16777216 * 16777216 + n / 65536 % 256 * 65536 + n / 256 % 256 * 256 + n % 256 == n
  {
    assert n / 256 / 256 == n / 65536 && n / 65536 / 256 == n / 16777216;
    assert n == n / 256 * 256 + n % 256;
    assert n / 256 == n / 65536 * 256 + n / 256 % 256;
    assert n / 65536 == n / 16777216 * 256 + n / 65536 % 256;
  }

  function NodePodV4(cluster: string, mask: nat, index: nat): Option<string>
    requires mask <= 32
  {
    var base := IpToInt(CidrBase(cluster));
    if base.None? then None else Some(Cidr(IntToIp(base.value + Offset(index, 32 - mask)), mask))
  }

  ghost predicate ReadsAsV4(text: string, value: int, mask: nat) {
    CidrPrefix(text) == Some(mask) && IpToInt(CidrBase(text)) == Some(value)
  }

  /** In IPv4 the printed CIDR reads back as base + index * 2^(32 - mask) for any index. */
  lemma NodePodV4Placed(cluster: string, base: nat, mask: nat, index: nat)
    requires IpToInt(CidrBase(cluster)) == Some(base) && mask <= 32
    ensures NodePodV4(cluster, mask, index).Some?
    ensures ReadsAsV4(NodePodV4(cluster, mask, index).value, base + Offset(index, 32 - mask), mask)
  {
    var n := base + Offset(index, 32 - mask);
    assert NodePodV4(cluster, mask, index) == Some(Cidr(IntToIp(n), mask));
    IntReadsBack(n, mask);
  }

  lemma IntReadsBack(n: nat, mask: nat)
    ensures ReadsAsV4(Cidr(IntToIp(n), mask), n, mask)
  {
    IntToIpRoundTrip(n);
    CidrParts(IntToIp(n), mask);
  }

  // ---- the pod subnets of a cluster -----------------------------------------------------------

  lemma AdmittedFits(prefix: nat, carve: nat, index: nat)
    requires IndexAdmitted(prefix, carve, index)
    ensures index < Pow(2, carve - prefix)
  {
    if carve - prefix >= 8 {
      PowMonotone(2, 8, carve - prefix);
    }
  }

  /** Blocks of `size` addresses at `a` and `b`: apart, in this order, and inside `total` addresses from `base`. */
  predicate ApartWithin(a: int, b: int, size: int, base: int, total: int) {
    base <= a && a + size <= b && b + size <= base + total
  }

  /** A base address of the family whose host bits are all zero. */
  predicate AlignedBase(base: nat, width: nat, prefix: nat)
    requires prefix <= width
  {
    base < Pow(2, width) && base % Pow(2, width - prefix) == 0
  }

  /** Addresses in a block of the family with this mask. */
  function BlockSize(width: nat, mask: nat): nat
    requires mask <= width
  {
    Pow(2, width - mask)
  }

  lemma AdmittedPair(base: nat, width: nat, prefix: nat, mask: nat, i: nat, j: nat) returns (a: nat, b: nat)
    requires IndexAdmitted(prefix, mask, i) && IndexAdmitted(prefix, mask, j) && i < j && mask <= width
    requires AlignedBase(base, width, prefix)
    ensures i < Pow(2, mask - prefix) && j < Pow(2, mask - prefix)
    ensures a == base + Offset(i, width - mask) && b == base + Offset(j, width - mask)
    ensures ApartWithin(a, b, BlockSize(width, mask), base, BlockSize(width, prefix))
  {
    AdmittedFits(prefix, mask, i);
    AdmittedFits(prefix, mask, j);
    CarvePair(base, width, prefix, mask, i, j);
    a, b := base + Offset(i, width - mask), base + Offset(j, width - mask);
  }

  /** The pod CIDR of a node is a text that names the block of its mask at `value`. */
  ghost predicate PodV6At(cluster: string, mask: nat, index: nat, value: int)
    requires mask <= 128
  {
    NodePodV6(cluster, mask, index).Some? && ReadsAsV6(NodePodV6(cluster, mask, index).value, value, mask)
  }

  ghost predicate PodV4At(cluster: string, mask: nat, index: nat, value: int)
    requires mask <= 32
  {
    NodePodV4(cluster, mask, index).Some? && ReadsAsV4(NodePodV4(cluster, mask, index).value, value, mask)
  }

  /** The printed pod subnets of two admitted nodes do not overlap and lie in the cluster prefix. */
  lemma NodeSubnetsV6(cluster: string, base: Hextets, prefix: nat, mask: nat, i: nat, j: nat) returns (a: nat, b: nat)
    requires ParseAddress(CidrBase(cluster)) == Some(base) && mask <= 128
    requires IndexAdmitted(prefix, mask, i) && IndexAdmitted(prefix, mask, j) && i < j
    requires AlignedBase(Value(base), 128, prefix)
    ensures PodV6At(cluster, mask, i, a) && PodV6At(cluster, mask, j, b)
    ensures ApartWithin(a, b, BlockSize(128, mask), Value(base), BlockSize(128, prefix))
  {
    a, b := AdmittedPair(Value(base), 128, prefix, mask, i, j);
    PlaceV6(cluster, base, prefix, mask, i, a);
    PlaceV6(cluster, base, prefix, mask, j, b);
  }

  lemma PlaceV6(cluster: string, base: Hextets, prefix: nat, mask: nat, index: nat, value: nat)
    requires ParseAddress(CidrBase(cluster)) == Some(base) && prefix <= mask <= 128
    requires AlignedBase(Value(base), 128, prefix)
    requires index < Pow(2, mask - prefix) && value == Value(base) + Offset(index, 128 - mask)
    ensures PodV6At(cluster, mask, index, value)
  {
    NodePodV6Placed(cluster, base, prefix, mask, index);
  }

  lemma NodeSubnetsV4(cluster: string, base: nat, prefix: nat, mask: nat, i: nat, j: nat) returns (a: nat, b: nat)
    requires IpToInt(CidrBase(cluster)) == Some(base) && mask <= 32
    requires IndexAdmitted(prefix, mask, i) && IndexAdmitted(prefix, mask, j) && i < j
    requires AlignedBase(base, 32, prefix)
    ensures PodV4At(cluster, mask, i, a) && PodV4At(cluster, mask, j, b)
    ensures ApartWithin(a, b, BlockSize(32, mask), base, BlockSize(32, prefix))
  {
    a, b := AdmittedPair(base, 32, prefix, mask, i, j);
    PlaceV4(cluster, base, mask, i, a);
    PlaceV4(cluster, base, mask, j, b);
  }

  lemma PlaceV4(cluster: string, base: nat, mask: nat, index: nat, value: nat)
    requires IpToInt(CidrBase(cluster)) == Some(base) && mask <= 32 && value == base + Offset(index, 32 - mask)
    ensures PodV4At(cluster, mask, index, value)
  {
    NodePodV4Placed(cluster, base, mask, index);
  }
}
