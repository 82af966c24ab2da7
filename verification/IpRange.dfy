/** The DHCP pool arithmetic, written twice in the repository: web/src/utils/iputils.ts on
    signed 32-bit integers and backend/utils/ip.go on unsigned ones. */
module IpRange {
  import opened Bits
  import opened Cidr
  import opened JsInt

  type Octet = x: nat | x < 256

  datatype Ip = Ip(a: Octet, b: Octet, c: Octet, d: Octet)

  /** `ipToLong`: the octets shifted into place and or-ed. */
  function IpToLong(ip: Ip): int {
    BitOr(BitOr(BitOr(ShiftLeft(ip.a, 24), ShiftLeft(ip.b, 16)), ShiftLeft(ip.c, 8)), ip.d)
  }

  function IpFromLong(num: int): Ip {
    Ip(LowOctet(ShiftRight(num, 24)), LowOctet(ShiftRight(num, 16)), LowOctet(ShiftRight(num, 8)), LowOctet(num))
  }

  function LowOctet(num: int): Octet {
    assert BitAnd(num, 0xff) == num % 256 by { LowOctetIsMod(num); }
    BitAnd(num, 0xff)
  }

  lemma LowOctetIsMod(num: int)
    ensures BitAnd(num, 0xff) == num % 256
  {
    hide And, ToInt32;
    Powers();
    var u := Unsigned(num);
    assert Unsigned(0xff) == Pow2(8) - 1;
    AndLowMask(u, 8);
    SmallIsItself(u % 256);
    var q := 0x100_0000 * (num / WORD) + u / 256;
    assert num == WORD * (num / WORD) + u && u == 256 * (u / 256) + u % 256;
    QuotientUnique(num, 256, q, u % 256);
  }

  /** `Ipv4ToLong` on the Go side: an unsigned sum. */
  function Ipv4ToLong(ip: Ip): Addr {
    ip.a * 0x100_0000 + ip.b * 0x1_0000 + ip.c * 0x100 + ip.d
  }

  function LongToIpv4(v: Addr): Ip {
    Ip(v / 0x100_0000 % 256, v / 0x1_0000 % 256, v / 0x100 % 256, v % 256)
  }

  lemma Powers()
    ensures Pow2(8) == 0x100 && Pow2(16) == 0x1_0000 && Pow2(24) == 0x100_0000
    ensures Pow2(31) == HALF && Pow2(32) == WORD
  {
    assert Pow2(8) == 0x100;
    assert Pow2(16) == 0x1_0000;
    assert Pow2(24) == 0x100_0000;
  }

  lemma Peel(h: nat, low: Octet)
    ensures (256 * h + low) / 256 == h && (256 * h + low) % 256 == low
  {
  }

  lemma OctetPositions(v: nat)
    ensures v / 0x1_0000 == v / 256 / 256
    ensures v / 0x100_0000 == v / 256 / 256 / 256
    ensures v == 256 * (256 * (256 * (v / 256 / 256 / 256) + v / 256 / 256 % 256) + v / 256 % 256) + v % 256
  {
    assert v == 256 * (v / 256) + v % 256;
    assert v / 256 == 256 * (v / 256 / 256) + v / 256 % 256;
    assert v / 256 / 256 == 256 * (v / 256 / 256 / 256) + v / 256 / 256 % 256;
  }

  lemma GoLongRoundTrips(ip: Ip, v: Addr)
    ensures LongToIpv4(Ipv4ToLong(ip)) == ip
    ensures Ipv4ToLong(LongToIpv4(v)) == v
  {
    var l := Ipv4ToLong(ip);
    OctetPositions(l);
    Peel(256 * (256 * ip.a + ip.b) + ip.c, ip.d);
    Peel(256 * ip.a + ip.b, ip.c);
    Peel(ip.a, ip.b);
    OctetPositions(v);
  }

  /** Longs are in the order of the addresses: by the first octet in which two differ. */
  lemma OrderOfLongs(x: Ip, y: Ip)
    ensures Ipv4ToLong(x) < Ipv4ToLong(y)
            <==> x.a < y.a || (x.a == y.a && (x.b < y.b || (x.b == y.b && (x.c < y.c || (x.c == y.c && x.d < y.d)))))
    ensures Ipv4ToLong(Ip(x.a, x.b, x.c, 0)) + x.d == Ipv4ToLong(x)
  {
  }

  lemma SumOfOctets(ip: Ip)
    ensures var (a, b, c) := (ip.a * 0x100_0000, ip.b * 0x1_0000, ip.c * 0x100);
            Or(a, b) == a + b && Or(a + b, c) == a + b + c && Or(a + b + c, ip.d) == Ipv4ToLong(ip)
  {
    hide Or, Pow2;
    Powers();
    var a, b, c := ip.a * 0x100_0000, ip.b * 0x1_0000, ip.c * 0x100;
    OrIsSum(a, b, 24);
    MultipleOf(256 * ip.a + ip.b, 0x1_0000);
    OrIsSum(a + b, c, 16);
    MultipleOf(256 * (256 * ip.a + ip.b) + ip.c, 0x100);
    OrIsSum(a + b + c, ip.d, 8);
  }

  lemma MultipleOf(q: nat, size: nat)
    requires size > 0
    ensures q * size % size == 0
  {
    DivModUnique(q * size, size, q, 0);
  }

  lemma OrOfPatterns(x: nat, y: nat)
    requires x < WORD && y < WORD
    ensures BitOr(ToInt32(x), ToInt32(y)) == ToInt32(Or(x, y))
  {
    hide Or, ToInt32;
    assert Unsigned(ToInt32(x)) == x && Unsigned(ToInt32(y)) == y;
  }

  /** The browser's long is the backend's, read as signed. */
  lemma LongsCoincide(ip: Ip)
    ensures IpToLong(ip) == ToInt32(Ipv4ToLong(ip))
  {
    hide Or, Pow2, BitOr, ToInt32;
    Powers();
    var a, b, c := ip.a * 0x100_0000, ip.b * 0x1_0000, ip.c * 0x100;
    SumOfOctets(ip);
    OrOfPatterns(a, b);
    OrOfPatterns(a + b, c);
    OrOfPatterns(a + b + c, ip.d);
    SmallIsItself(ip.d);
  }

  lemma SmallIsItself(x: nat)
    requires x < 0x8000_0000
    ensures ToInt32(x) == x
  {
  }

  /** Dividing the signed reading of a negative word shifts the unsigned quotient. */
  lemma NegativeQuotient(u: nat, d: nat, q: nat)
    requires d > 0 && d * q == WORD
    ensures (u - WORD) / d == u / d - q
  {
    var p, r := u / d, u % d;
    assert u == d * p + r;
    assert d * (p - q) == d * p - d * q;
    QuotientUnique(u - WORD, d, p - q, r);
  }

  lemma QuotientUnique(x: int, d: nat, q: int, r: nat)
    requires d > 0 && r < d && x == d * q + r
    ensures x / d == q && x % d == r
  {
    var p, s := x / d, x % d;
    assert x == d * p + s;
    assert d * (q - p) == d * q - d * p == s - r;
    MulGrows(d, q - p);
  }

  lemma WholeBytes(u: nat, k: nat)
    ensures (u - 256 * k) % 256 == u % 256
  {
    QuotientUnique(u - 256 * k, 256, u / 256 - k, u % 256);
  }

  /** The octets of a negative number are those of its 32-bit pattern. */
  lemma SignedOctets(num: int)
    requires -0x8000_0000 <= num < 0x8000_0000
    ensures var u := Unsigned(num);
            && num / 0x100_0000 % 256 == u / 0x100_0000 % 256
            && num / 0x1_0000 % 256 == u / 0x1_0000 % 256
            && num / 0x100 % 256 == u / 0x100 % 256
            && num % 256 == u % 256
  {
    var u := Unsigned(num);
    if num < 0 {
      NegativeQuotient(u, 0x100_0000, 0x100);
      NegativeQuotient(u, 0x1_0000, 0x1_0000);
      NegativeQuotient(u, 0x100, 0x100_0000);
      WholeBytes(u / 0x100_0000, 1);
      WholeBytes(u / 0x1_0000, 0x100);
      WholeBytes(u / 0x100, 0x1_0000);
      WholeBytes(u, 0x100_0000);
    }
  }

  lemma ShiftedOctet(num: int, n: nat)
    requires -0x8000_0000 <= num < 0x8000_0000
    ensures LowOctet(ShiftRight(num, n)) == num / Pow2(n) % 256
  {
    hide Pow2, BitAnd;
    LowOctetIsMod(ShiftRight(num, n));
  }

  lemma OctetsArePattern(num: int)
    requires -0x8000_0000 <= num < 0x8000_0000
    ensures IpFromLong(num) == LongToIpv4(Unsigned(num))
  {
    hide Pow2, BitAnd, ToInt32, ShiftRight;
    Powers();
    ShiftedOctet(num, 24);
    ShiftedOctet(num, 16);
    ShiftedOctet(num, 8);
    LowOctetIsMod(num);
    SignedOctets(num);
  }

  /** Octets and back: the address text that a bound is shown as denotes that bound. */
  lemma OctetsOfLong(num: int)
    requires -0x8000_0000 <= num < 0x8000_0000
    ensures Ipv4ToLong(IpFromLong(num)) == Unsigned(num)
    ensures IpToLong(IpFromLong(num)) == num
  {
    hide IpToLong, IpFromLong, LongToIpv4, Ipv4ToLong;
    OctetsArePattern(num);
    GoLongRoundTrips(IpFromLong(num), Unsigned(num));
    LongsCoincide(IpFromLong(num));
  }

  // ----- the two mask validators -----

  /** `m` starts with ones down to bit `k`. */
  ghost predicate OnesDownTo(m: Addr, k: nat) {
    k <= 32 && HighMask(32, k) <= m
  }

  /** With ones down to bit `j + 1`, bit `j` is set exactly when they go on. */
  lemma NextOne(m: Addr, j: nat)
    requires j < 32 && OnesDownTo(m, j + 1)
    ensures And(m, Pow2(j)) != 0 <==> OnesDownTo(m, j)
    ensures Pow2(j + 1) == 2 * Pow2(j) <= WORD
  {
    hide And;
    Powers();
    Pow2Monotone(j + 1, 32);
    var r := m - HighMask(32, j + 1);
    AndSingleBit(m, j);
    Pow2Divides(j + 1, 32);
    ModOfSum(HighMask(32, j + 1), r, Pow2(j + 1));
    if r < Pow2(j) {
      ModOfDouble(HighMask(32, j + 1), Pow2(j), r);
    } else {
      ModOfDouble(HighMask(32, j + 1), Pow2(j), r - Pow2(j));
    }
  }

  lemma ModOfDouble(a: nat, b: nat, r: nat)
    requires b > 0 && a % (2 * b) == 0 && r < b
    ensures (a + r) % b == r && (a + b + r) % b == r
  {
    var q := a / (2 * b);
    assert a == 2 * b * q == b * (2 * q);
    assert a + b == b * (2 * q + 1);
    DivModUnique(a + r, b, 2 * q, r);
    DivModUnique(a + b + r, b, 2 * q + 1, r);
  }

  /** Ones down to bit `k` and not further: nothing is left below exactly for the prefix mask. */
  lemma LeftoverIff(m: Addr, k: nat)
    requires OnesDownTo(m, k) && (k > 0 ==> !OnesDownTo(m, k - 1))
    ensures And(Pow2(k) - 1, m) == 0 <==> IsPrefixMask(m)
    ensures Pow2(k) <= WORD
  {
    hide And, IsPrefixMask;
    Powers();
    Pow2Monotone(k, 32);
    var r := m - HighMask(32, k);
    AndLowMask(m, k);
    AndCommutes(m, Pow2(k) - 1);
    Pow2Divides(k, 32);
    ModOfSum(HighMask(32, k), r, Pow2(k));
    AtMaskIff(m, k);
  }

  lemma AtMaskIff(m: Addr, k: nat)
    requires OnesDownTo(m, k) && (k > 0 ==> !OnesDownTo(m, k - 1))
    ensures m == HighMask(32, k) <==> IsPrefixMask(m)
  {
    hide Pow2;
    if m == HighMask(32, k) {
      assert m == MaskOf(32 - k);
    }
    if IsPrefixMask(m) {
      var p: nat :| p <= 32 && m == MaskOf(p);
      SameStart(k, 32 - p);
    }
  }

  /** A mask whose ones reach down to `k` and no further clears `k` bits. */
  lemma SameStart(k: nat, j: nat)
    requires k <= 32 && j <= 32
    requires HighMask(32, k) <= HighMask(32, j)
    requires k > 0 ==> HighMask(32, j) < HighMask(32, k - 1)
    ensures j == k
  {
    hide Pow2;
    if j > k {
      Pow2Monotone(k + 1, j);
      Pow2Step(k);
    } else if j < k {
      Pow2Monotone(j, k - 1);
    }
  }

  lemma AndOfPatterns(x: nat, y: nat)
    requires x < WORD && y < WORD
    ensures BitAnd(ToInt32(x), ToInt32(y)) == ToInt32(And(x, y))
  {
    hide And, ToInt32;
    assert Unsigned(ToInt32(x)) == x && Unsigned(ToInt32(y)) == y;
  }

  lemma ZeroPattern(x: nat)
    requires x < WORD
    ensures ToInt32(x) == 0 <==> x == 0
  {
  }

  lemma SignedBitTest(m: Addr, j: nat)
    requires Pow2(j) < WORD
    ensures BitAnd(ToInt32(m), ShiftLeft(1, j)) == 0 <==> And(m, Pow2(j)) == 0
  {
    hide And, Pow2, BitAnd, ToInt32;
    AndOfPatterns(m, Pow2(j));
    ZeroPattern(And(m, Pow2(j)));
    assert 1 * Pow2(j) == Pow2(j);
  }

  lemma SignedBitAdd(j: nat)
    requires j <= 31
    ensures ToInt32(WORD - 2 * Pow2(j)) + ShiftLeft(1, j) == ToInt32(WORD - Pow2(j))
  {
    hide Pow2, ToInt32;
    Powers();
    Pow2Step(j);
    if j < 31 {
      Pow2Monotone(j + 1, 31);
    }
    SignedDoubling(Pow2(j));
    assert 1 * Pow2(j) == Pow2(j);
  }

  lemma SignedDoubling(w: nat)
    requires 0 < w && (w == HALF || 2 * w <= HALF)
    ensures ToInt32(WORD - 2 * w) + ToInt32(w) == ToInt32(WORD - w)
  {
  }

  lemma Pow2Step(j: nat)
    ensures Pow2(j + 1) == 2 * Pow2(j)
  {
  }

  lemma SignedLeftover(m: Addr, k: nat)
    requires Pow2(k) <= WORD
    ensures BitAnd(BitNot(ToInt32(WORD - Pow2(k))), ToInt32(m)) == 0 <==> And(Pow2(k) - 1, m) == 0
  {
    hide And, Pow2, BitAnd;
    if Pow2(k) == WORD {
      assert BitNot(ToInt32(0)) == ToInt32(WORD - 1);
    }
    assert BitNot(ToInt32(WORD - Pow2(k))) == ToInt32(Pow2(k) - 1);
    AndOfPatterns(Pow2(k) - 1, m);
    ZeroPattern(And(Pow2(k) - 1, m));
  }

  /** `isValidMask` of the browser, after parsing. */
  method IsValidMask(ipmask: Ip) returns (valid: bool)
    ensures valid <==> IsPrefixMask(Ipv4ToLong(ipmask))
  {
    hide And, IpToLong, HighMask, Pow2, BitAnd, BitNot, ShiftLeft, ToInt32;
    LongsCoincide(ipmask);
    Powers();
    ghost var m := Ipv4ToLong(ipmask);
    var tmp: int := 0;
    SmallIsItself(0);
    var mask := IpToLong(ipmask);
    var j := 31;
    AllClear(m);
    while j >= 0
      invariant -1 <= j <= 31
      invariant OnesDownTo(m, j + 1)
      invariant Pow2(j + 1) <= WORD && tmp == ToInt32(WORD - Pow2(j + 1))
    {
      NextOne(m, j);
      SignedBitTest(m, j);
      SignedBitAdd(j);
      if 0 == BitAnd(mask, ShiftLeft(1, j)) {
        break;
      }
      tmp := tmp + ShiftLeft(1, j);
      j := j - 1;
    }
    LeftoverIff(m, j + 1);
    SignedLeftover(m, j + 1);
    return BitAnd(BitNot(tmp), mask) == 0;
  }

  lemma AllClear(m: Addr)
    ensures OnesDownTo(m, 32) && Pow2(32) == WORD
  {
    Powers();
  }

  /** `IsValidIpv4Mask` of the backend; `uint` has the router's 32 bits. */
  method IsValidIpv4Mask(ip: Ip) returns (valid: bool)
    ensures valid <==> IsPrefixMask(Ipv4ToLong(ip))
  {
    hide And, HighMask, Pow2;
    var mask := Ipv4ToLong(ip);
    var tmp := 0;
    var j := 31;
    AllClear(mask);
    while j >= 0
      invariant -1 <= j <= 31
      invariant OnesDownTo(mask, j + 1)
      invariant Pow2(j + 1) <= WORD && tmp == WORD - Pow2(j + 1)
    {
      NextOne(mask, j);
      if 0 == And(mask, Pow2(j)) {
        break;
      }
      tmp := tmp + Pow2(j);
      j := j - 1;
    }
    LeftoverIff(mask, j + 1);
    return And(WORD - 1 - tmp, mask) == 0;
  }
}
