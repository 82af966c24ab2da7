/** The DHCP pool of a LAN: what the browser proposes (calcMaskRange), what it lets through
    (isValidMaskRange), and what the backend makes of it (CalcStartAndLimit). */
module DhcpPool {
  import opened Bits
  import opened Cidr
  import opened IpRange
  import opened JsInt
  import opened Wrappers

  predicate IsValidMaskRange(ip: Ip, mask: Ip, rangeStart: Ip, rangeEnd: Ip) {
    var ipStartLong := BitAnd(IpToLong(ip), IpToLong(mask));
    var rangeStartLong := IpToLong(rangeStart);
    var rangeEndLong := IpToLong(rangeEnd);
    var ipPoolSize := BitNot(IpToLong(mask));
    rangeStartLong < rangeEndLong && rangeStartLong > ipStartLong + 1 && rangeEndLong < ipStartLong + ipPoolSize
  }

  function CalcMaskRange(ip: Ip, mask: Ip): (Ip, Ip) {
    var maskLong := IpToLong(mask);
    var ipStartLong := BitAnd(IpToLong(ip), maskLong);
    var ipPoolSize := BitNot(maskLong);
    if ipPoolSize >= 105 then
      (IpFromLong(BitOr(ipStartLong, 100)), IpFromLong(BitOr(ipStartLong, ipPoolSize - 5)))
    else if ipPoolSize >= 3 then
      (IpFromLong(BitOr(ipStartLong, 2)), IpFromLong(BitOr(ipStartLong, ipPoolSize - 1)))
    else
      (IpFromLong(BitOr(ipStartLong, 1)), IpFromLong(BitOr(ipStartLong, 1)))
  }

  datatype Pool = InvalidInput | InvalidMask | InvalidOrder | Pool(start: nat, limit: nat)

  /** What CalcStartAndLimit computes; `None` is a text that is no IPv4 address. */
  ghost function StartAndLimit(startIp: Option<Ip>, endIp: Option<Ip>, netMask: Option<Ip>): Pool {
    if startIp.None? || endIp.None? || netMask.None? then InvalidInput
    else
      var start, end, mask := Ipv4ToLong(startIp.value), Ipv4ToLong(endIp.value), Ipv4ToLong(netMask.value);
      if !IsPrefixMask(mask) then InvalidMask
      else if end <= start then InvalidOrder
      else Pool(start - And(start, mask), end - start)
  }

  method CalcStartAndLimit(startIp: Option<Ip>, endIp: Option<Ip>, netMask: Option<Ip>) returns (pool: Pool)
    ensures pool == StartAndLimit(startIp, endIp, netMask)
  {
    if startIp.None? || endIp.None? || netMask.None? {
      return InvalidInput;
    }
    var valid := IsValidIpv4Mask(netMask.value);
    if !valid {
      return InvalidMask;
    }
    var startMask := And(Ipv4ToLong(startIp.value), Ipv4ToLong(netMask.value));
    var startLong := Ipv4ToLong(startIp.value);
    var endLong := Ipv4ToLong(endIp.value);
    if endLong <= startLong {
      return InvalidOrder;
    }
    return Pool(startLong - startMask, endLong - startLong);
  }

  /** When each answer is given. The pool starts at the offset of its first address in the block,
      and its limit reaches from there to the last. */
  lemma PoolMeans(startIp: Option<Ip>, endIp: Option<Ip>, netMask: Option<Ip>, p: nat)
    requires p <= 32
    requires netMask.Some? && IsPrefixMask(Ipv4ToLong(netMask.value)) ==> Ipv4ToLong(netMask.value) == MaskOf(p)
    ensures var pool := StartAndLimit(startIp, endIp, netMask);
            var parsed := startIp.Some? && endIp.Some? && netMask.Some?;
            var masked := parsed && exists q: nat :: q <= 32 && Ipv4ToLong(netMask.value) == MaskOf(q);
            && (pool == InvalidInput <==> !parsed)
            && (pool == InvalidMask <==> parsed && !masked)
            && (pool == InvalidOrder <==> masked && Ipv4ToLong(endIp.value) <= Ipv4ToLong(startIp.value))
            && (pool.Pool? ==>
                  && pool.start == Ipv4ToLong(startIp.value) % Pow2(32 - p)
                  && pool.limit == Ipv4ToLong(endIp.value) - Ipv4ToLong(startIp.value))
  {
    hide And, Pow2, Ipv4ToLong, MaskOf;
    if startIp.Some? && netMask.Some? && IsPrefixMask(Ipv4ToLong(netMask.value)) {
      StartInBlock(Ipv4ToLong(startIp.value), p);
    }
  }

  lemma StartInBlock(v: Addr, p: nat)
    requires p <= 32
    ensures v - And(v, MaskOf(p)) == v % Pow2(32 - p)
  {
    hide And, Pow2;
    Pow2Of32();
    AndHighMask(v, 32, 32 - p);
  }

  // ----- blocks of prefix 1 and longer, seen from both sides -----

  /** The number of addresses in a block of prefix `p`. */
  function Size(p: nat): nat
    requires p <= 32
  {
    Pow2(32 - p)
  }

  /** The first address of the block of `v`. */
  function Base(v: Addr, p: nat): Addr
    requires p <= 32
  {
    And(v, MaskOf(p))
  }

  lemma BlockFacts(v: Addr, p: nat)
    requires 1 <= p <= 32
    ensures 0 < Size(p) <= HALF && HALF % Size(p) == 0
    ensures Base(v, p) == v - v % Size(p) && Base(v, p) % Size(p) == 0
    ensures Base(v, p) + Size(p) <= WORD
  {
    hide And, Pow2;
    Powers();
    Pow2Monotone(32 - p, 31);
    Pow2Divides(32 - p, 31);
    AndHighMask(v, 32, 32 - p);
    RoundDown(v, Size(p));
    SignedInsideBlock(Base(v, p), Size(p), Size(p) - 1);
  }

  lemma RoundDown(v: nat, size: nat)
    requires size > 0
    ensures (v - v % size) % size == 0
  {
    DivModUnique(v - v % size, size, v / size, 0);
  }

  /** Addresses of one block have one base. */
  lemma SameBlock(v: Addr, p: nat, offset: nat)
    requires 1 <= p <= 32 && offset < Size(p)
    ensures Base(v, p) + offset < WORD && Base(Base(v, p) + offset, p) == Base(v, p)
  {
    hide And, Pow2;
    BlockFacts(v, p);
    BlockFacts(Base(v, p) + offset, p);
    ModOfSum(Base(v, p), offset, Size(p));
  }

  /** What the browser computes from a mask of prefix 1 or longer. */
  lemma BrowserBlock(ip: Ip, mask: Ip, p: nat)
    requires 1 <= p <= 32 && Ipv4ToLong(mask) == MaskOf(p)
    ensures BitAnd(IpToLong(ip), IpToLong(mask)) == ToInt32(Base(Ipv4ToLong(ip), p))
    ensures BitNot(IpToLong(mask)) == Size(p) - 1
  {
    hide And, Pow2, IpToLong, BitAnd, BitNot, ToInt32, Ipv4ToLong;
    LongsCoincide(ip);
    LongsCoincide(mask);
    AndOfPatterns(Ipv4ToLong(ip), MaskOf(p));
    BlockFacts(0, p);
    Powers();
    assert MaskOf(p) == WORD - Size(p);
    NotOfMask(Size(p));
  }

  lemma NotOfMask(size: nat)
    requires 0 < size <= HALF
    ensures BitNot(ToInt32(WORD - size)) == size - 1
  {
    assert Unsigned(ToInt32(WORD - size)) == WORD - size;
    assert Unsigned(size - 1) == size - 1;
  }

  /** The browser's signed comparisons accept exactly the ranges that, unsigned, lie in the
      block of the LAN address from its offset 2 to before its last. */
  lemma ValidRangeIff(ip: Ip, mask: Ip, p: nat, rangeStart: Ip, rangeEnd: Ip)
    requires p <= 32 && Ipv4ToLong(mask) == MaskOf(p)
    ensures IsValidMaskRange(ip, mask, rangeStart, rangeEnd)
            <==> p >= 1 && Base(Ipv4ToLong(ip), p) + 2 <= Ipv4ToLong(rangeStart) < Ipv4ToLong(rangeEnd)
                           < Base(Ipv4ToLong(ip), p) + Size(p) - 1
  {
    hide And, Pow2, IpToLong, BitAnd, BitNot, ToInt32, MaskOf, Ipv4ToLong, Base, Size;
    LongsCoincide(rangeStart);
    LongsCoincide(rangeEnd);
    if p == 0 {
      EmptyMask(ip, mask);
    } else {
      BrowserBlock(ip, mask, p);
      var base, size := Base(Ipv4ToLong(ip), p), Size(p);
      BlockFacts(Ipv4ToLong(ip), p);
      SignedWindow(base, size, Ipv4ToLong(rangeStart), Ipv4ToLong(rangeEnd));
    }
  }

  lemma EmptyMask(ip: Ip, mask: Ip)
    requires Ipv4ToLong(mask) == MaskOf(0)
    ensures BitAnd(IpToLong(ip), IpToLong(mask)) == 0 && BitNot(IpToLong(mask)) == -1
  {
    hide IpToLong, Pow2;
    Powers();
    LongsCoincide(mask);
  }

  lemma SignedWindow(base: nat, size: nat, r: Addr, e: Addr)
    requires 0 < size <= HALF && HALF % size == 0 && base % size == 0 && base + size <= WORD
    ensures ToInt32(r) < ToInt32(e) && ToInt32(r) > ToInt32(base) + 1 && ToInt32(e) < ToInt32(base) + (size - 1)
            <==> base + 2 <= r < e < base + size - 1
  {
    hide ToInt32;
    if base + 2 <= r < e < base + size - 1 {
      SignedInsideBlock(base, size, r - base);
      SignedInsideBlock(base, size, e - base);
    }
    if ToInt32(r) < ToInt32(e) && ToInt32(r) > ToInt32(base) + 1 && ToInt32(e) < ToInt32(base) + (size - 1) {
      var i, j := ToInt32(r) - ToInt32(base), ToInt32(e) - ToInt32(base);
      SignedInsideBlock(base, size, i);
      SignedInsideBlock(base, size, j);
      SignedIsInjective(r, base + i);
      SignedIsInjective(e, base + j);
    }
  }

  /** A range that the browser lets through is accepted by the backend: the pool starts at
      offset 2 or later of the LAN's own block and ends before the block's last address. */
  lemma AcceptedRangeIsAccepted(ip: Ip, mask: Ip, rangeStart: Ip, rangeEnd: Ip)
    requires IsPrefixMask(Ipv4ToLong(mask)) && IsValidMaskRange(ip, mask, rangeStart, rangeEnd)
    ensures var pool := StartAndLimit(Some(rangeStart), Some(rangeEnd), Some(mask));
            && pool.Pool?
            && 2 <= pool.start && 0 < pool.limit
            && exists p: nat :: p <= 32 && Ipv4ToLong(mask) == MaskOf(p)
                 && pool.start + pool.limit < Size(p) - 1
                 && Ipv4ToLong(rangeStart) == Base(Ipv4ToLong(ip), p) + pool.start
                 && Ipv4ToLong(rangeEnd) == Base(Ipv4ToLong(ip), p) + pool.start + pool.limit
  {
    hide And, Pow2, IsValidMaskRange, Ipv4ToLong, MaskOf, Size;
    var p: nat :| p <= 32 && Ipv4ToLong(mask) == MaskOf(p);
    ValidRangeIff(ip, mask, p, rangeStart, rangeEnd);
    var base := Base(Ipv4ToLong(ip), p);
    SameBlock(Ipv4ToLong(ip), p, Ipv4ToLong(rangeStart) - base);
  }

  lemma OrIntoBlockIsSum(base: nat, p: nat, low: nat)
    requires 1 <= p <= 32 && base % Size(p) == 0 && low < Size(p)
    ensures Or(base, low) == base + low && low < HALF
  {
    hide Or, Pow2, And;
    OrIsSum(base, low, 32 - p);
    BlockFacts(0, p);
  }

  lemma LongOfSum(base: Addr, low: Addr)
    requires low < HALF && base + low < WORD && Or(base, low) == base + low
    ensures Ipv4ToLong(IpFromLong(BitOr(ToInt32(base), low))) == base + low
  {
    hide Or, IpFromLong, Ipv4ToLong, ToInt32, BitOr;
    SmallIsItself(low);
    OrOfPatterns(base, low);
    OctetsOfLong(ToInt32(base + low));
    assert Unsigned(base + low) == base + low;
  }

  lemma OrIntoBlock(base: Addr, p: nat, low: nat)
    requires 1 <= p <= 32 && base % Size(p) == 0 && low < Size(p) && base + low < WORD
    ensures Ipv4ToLong(IpFromLong(BitOr(ToInt32(base), low))) == base + low
  {
    hide Or, Pow2, IpFromLong, Ipv4ToLong, ToInt32, BitOr, Size;
    OrIntoBlockIsSum(base, p, low);
    LongOfSum(base, low);
  }

  /** For any mask, prefix mask or not: the ends of the proposed pool are set into the network address,
      according to the inverted mask read as signed. */
  lemma ProposalForAnyMask(ip: Ip, mask: Ip)
    ensures var (range, s) := (CalcMaskRange(ip, mask), ToInt32(WORD - 1 - Ipv4ToLong(mask)));
            var net := And(Ipv4ToLong(ip), Ipv4ToLong(mask));
            && Ipv4ToLong(range.0) == OrWord(net, if s >= 105 then 100 else if s >= 3 then 2 else 1)
            && Ipv4ToLong(range.1) == OrWord(net, if s >= 105 then s - 5 else if s >= 3 then s - 1 else 1)
  {
    hide And, Or, IpToLong, IpFromLong, Ipv4ToLong, ToInt32, BitAnd, BitOr, BitNot;
    LongsCoincide(ip);
    LongsCoincide(mask);
    AndOfPatterns(Ipv4ToLong(ip), Ipv4ToLong(mask));
    NotOfPattern(Ipv4ToLong(mask));
    var net := And(Ipv4ToLong(ip), Ipv4ToLong(mask));
    var s := ToInt32(WORD - 1 - Ipv4ToLong(mask));
    OrOfWords(net, if s >= 105 then 100 else if s >= 3 then 2 else 1);
    OrOfWords(net, if s >= 105 then s - 5 else if s >= 3 then s - 1 else 1);
  }

  /** The bits of a word and of a small number together. */
  function OrWord(net: Addr, low: nat): nat {
    Or(net, low) % WORD
  }

  lemma NotOfPattern(x: Addr)
    ensures BitNot(ToInt32(x)) == ToInt32(WORD - 1 - x)
  {
    hide ToInt32;
    assert Unsigned(ToInt32(x)) == x;
  }

  lemma OrOfWords(net: Addr, low: nat)
    requires low < HALF
    ensures Ipv4ToLong(IpFromLong(BitOr(ToInt32(net), low))) == OrWord(net, low)
  {
    hide Or, IpFromLong, Ipv4ToLong, ToInt32, BitOr;
    SmallIsItself(low);
    OrOfPatterns(net, low);
    OctetsOfLong(ToInt32(Or(net, low)));
  }

  /** The proposed pool leaves 100 addresses at the start and five at the end of a block of 106 or
      more, and only the first two and the last of a smaller one. */
  lemma ProposedPool(ip: Ip, mask: Ip, p: nat)
    requires 1 <= p <= 30 && Ipv4ToLong(mask) == MaskOf(p)
    ensures Size(p) >= 4
    ensures var range := CalcMaskRange(ip, mask);
            var base := Base(Ipv4ToLong(ip), p);
            && Ipv4ToLong(range.0) == base + (if Size(p) >= 106 then 100 else 2)
            && Ipv4ToLong(range.1) == base + Size(p) - (if Size(p) >= 106 then 6 else 2)
  {
    hide And, Or, Pow2, IpToLong, IpFromLong, Ipv4ToLong, MaskOf, ToInt32, BitAnd, BitOr, BitNot, Base, Size;
    AtLeastFour(p);
    BrowserBlock(ip, mask, p);
    BlockFacts(Ipv4ToLong(ip), p);
    var base := Base(Ipv4ToLong(ip), p);
    OrIntoBlock(base, p, if Size(p) >= 106 then 100 else 2);
    OrIntoBlock(base, p, Size(p) - (if Size(p) >= 106 then 6 else 2));
  }

  lemma AtLeastFour(p: nat)
    requires p <= 30
    ensures Size(p) >= 4
    ensures p == 30 ==> Size(p) == 4
    ensures p <= 29 ==> Size(p) >= 8
    ensures Size(p) <= 64 || Size(p) >= 128
  {
    assert Pow2(3) == 8;
    assert Pow2(6) == 64;
    if p <= 25 {
      Pow2Monotone(7, 32 - p);
    } else {
      Pow2Monotone(32 - p, 6);
    }
    Pow2Monotone(2, 32 - p);
    if p <= 29 {
      Pow2Monotone(3, 32 - p);
    }
  }

  /** The proposed pool passes the browser's own check exactly for prefixes 1 to 29. */
  lemma ProposalIsValidIff(ip: Ip, mask: Ip, p: nat)
    requires p <= 32 && Ipv4ToLong(mask) == MaskOf(p)
    ensures var range := CalcMaskRange(ip, mask);
            IsValidMaskRange(ip, mask, range.0, range.1) <==> 1 <= p <= 29
  {
    hide And, Or, Pow2, IpToLong, IpFromLong, Ipv4ToLong, MaskOf, BitAnd, BitOr, Base, Size, IsValidMaskRange;
    var range := CalcMaskRange(ip, mask);
    ValidRangeIff(ip, mask, p, range.0, range.1);
    if 1 <= p <= 30 {
      ProposedPool(ip, mask, p);
      AtLeastFour(p);
    } else if p >= 31 {
      hide CalcMaskRange;
      TinyBlock(ip, mask, p);
    }
  }

  /** Where there is no room, both ends are the one address with the last bit set; and from an empty
      mask the proposal is 0.0.0.1. */
  lemma ProposedElsewhere(ip: Ip, mask: Ip, p: nat)
    requires p <= 32 && (p == 0 || p >= 31) && Ipv4ToLong(mask) == MaskOf(p)
    ensures var range := CalcMaskRange(ip, mask);
            range.0 == range.1 && Ipv4ToLong(range.0) == Or(if p == 0 then 0 else Base(Ipv4ToLong(ip), p), 1)
  {
    hide And, Or, Pow2, IpToLong, IpFromLong, Ipv4ToLong, MaskOf, ToInt32, BitAnd, BitOr, Base;
    if p == 0 {
      EmptyMask(ip, mask);
      SmallIsItself(0);
      LastBitSet(0);
    } else {
      BrowserBlock(ip, mask, p);
      NoRoom(p);
      LastBitSet(Base(Ipv4ToLong(ip), p));
    }
  }

  lemma NoRoom(p: nat)
    requires 31 <= p <= 32
    ensures Size(p) <= 2
  {
    Pow2Monotone(32 - p, 1);
  }

  lemma LastBitSet(v: Addr)
    ensures Ipv4ToLong(IpFromLong(BitOr(ToInt32(v), 1))) == Or(v, 1)
  {
    hide Or, IpFromLong, Ipv4ToLong, ToInt32, BitOr;
    SmallIsItself(1);
    OrOfPatterns(v, 1);
    OrOneFits(v);
    OctetsOfLong(ToInt32(Or(v, 1)));
  }

  lemma OrOneFits(v: Addr)
    ensures Or(v, 1) == v + 1 - v % 2
  {
    if v > 0 {
      assert Or(v / 2, 0) == v / 2;
    }
  }

  lemma TinyBlock(ip: Ip, mask: Ip, p: nat)
    requires 31 <= p <= 32 && Ipv4ToLong(mask) == MaskOf(p)
    ensures CalcMaskRange(ip, mask).0 == CalcMaskRange(ip, mask).1
  {
    hide And, Or, IpToLong, IpFromLong, Ipv4ToLong, MaskOf, BitAnd, BitOr, Base;
    BrowserBlock(ip, mask, p);
    Pow2Monotone(32 - p, 1);
  }
}
