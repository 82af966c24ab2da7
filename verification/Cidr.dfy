/** IPv4 networks with the behaviour of Go's `net.IPNet`, and the theory of when two
    membership tests decide whether two address blocks meet. */
module Cidr {
  import opened Bits

  type Addr = x: nat | x < 0x1_0000_0000

  /** A `net.IP` or a `net.IPMask`, as a 32-bit number; either may be nil in the original. */
  datatype Quad = Nil | Quad(bits: Addr)

  /** A network: a section whose address or netmask did not parse still carries the other part. */
  datatype IPNet = IPNet(ip: Quad, mask: Quad) {
    predicate Present() {
      ip.Quad? && mask.Quad?
    }
  }

  function Net(ip: Addr, mask: Addr): IPNet {
    IPNet(Quad(ip), Quad(mask))
  }

  /** `net.IPNet.Contains`. A network without address or mask has an empty network
      number, which "contains" exactly the nil address. */
  predicate Contains(n: IPNet, x: Quad) {
    if n.Present() then x.Quad? && Agree(n.ip.bits, x.bits, n.mask.bits) else x.Nil?
  }

  /** The pair of tests that the conflict planner and the recovery planner both run. */
  predicate Overlaps(a: IPNet, b: IPNet) {
    Contains(a, b.ip) || Contains(b, a.ip)
  }

  /** The address block that a network denotes. */
  predicate InBlock(n: IPNet, x: Addr) {
    n.Present() && Agree(x, n.ip.bits, n.mask.bits)
  }

  ghost predicate ShareAddress(a: IPNet, b: IPNet) {
    exists x: Addr :: InBlock(a, x) && InBlock(b, x)
  }

  // ----- prefix masks -----

  /** The mask with `p` leading ones. */
  function MaskOf(p: nat): Addr
    requires p <= 32
  {
    assert Pow2(32) == WORD by { Pow2Of32(); }
    HighMask(32, 32 - p)
  }

  lemma Pow2Of32()
    ensures Pow2(32) == WORD
  {
    assert Pow2(8) == 256;
    assert Pow2(16) == 0x1_0000;
    assert Pow2(24) == 0x100_0000;
  }

  ghost predicate IsPrefixMask(m: Addr) {
    exists p: nat :: p <= 32 && m == MaskOf(p)
  }

  /** CIDR blocks nest because their masks do (section 3.1 of RFC 4632). */
  lemma PrefixMasksNest(m1: Addr, m2: Addr)
    requires IsPrefixMask(m1) && IsPrefixMask(m2)
    ensures Nested(m1, m2)
  {
    hide And, Pow2;
    var p: nat :| p <= 32 && m1 == MaskOf(p);
    var q: nat :| q <= 32 && m2 == MaskOf(q);
    if p <= q {
      HighMasksMeet(32, 32 - p, 32 - q);
    } else {
      HighMasksMeet(32, 32 - q, 32 - p);
      AndCommutes(m1, m2);
    }
  }

  // ----- the overlap test is exact for nested masks, and only for those -----

  /** Two blocks meet exactly when their addresses agree where both masks look. */
  lemma ShareIffAgreeOnMeet(a: Addr, ma: Addr, b: Addr, mb: Addr)
    ensures ShareAddress(Net(a, ma), Net(b, mb)) <==> Agree(a, b, And(ma, mb))
  {
    hide And, Splice;
    if Agree(a, b, And(ma, mb)) {
      Pow2Of32();
      SpliceBelow(a, ma, b, 32);
      SpliceLeft(a, ma, b);
      SpliceRight(a, ma, b, mb);
      var x: Addr := Splice(a, ma, b);
      assert InBlock(Net(a, ma), x) && InBlock(Net(b, mb), x);
    }
    if ShareAddress(Net(a, ma), Net(b, mb)) {
      var x: Addr :| InBlock(Net(a, ma), x) && InBlock(Net(b, mb), x);
      AgreeOnMeet(x, a, ma, b, mb);
    }
  }

  lemma OverlapsExact(a: Addr, ma: Addr, b: Addr, mb: Addr)
    requires Nested(ma, mb)
    ensures Overlaps(Net(a, ma), Net(b, mb)) <==> ShareAddress(Net(a, ma), Net(b, mb))
  {
    hide And;
    ShareIffAgreeOnMeet(a, ma, b, mb);
    if Overlaps(Net(a, ma), Net(b, mb)) {
      if Agree(a, b, ma) {
        assert InBlock(Net(a, ma), b) && InBlock(Net(b, mb), b);
      } else {
        assert InBlock(Net(a, ma), a) && InBlock(Net(b, mb), a);
      }
    }
  }

  ghost predicate TestsDecideSharing(ma: Addr, mb: Addr) {
    forall a: Addr, b: Addr :: Overlaps(Net(a, ma), Net(b, mb)) <==> ShareAddress(Net(a, ma), Net(b, mb))
  }

  /** An address that agrees with `c` on one mask but on no mask that reaches outside it. */
  lemma AgreesOnlyInside(c: Addr, m: Addr, k: Addr) returns (x: Addr)
    requires And(k, m) != k
    ensures Agree(x, c, m) && !Agree(x, c, k)
  {
    hide And, Splice;
    Pow2Of32();
    var d := Flip(c, 32);
    SpliceBelow(c, m, d, 32);
    SpliceLeft(c, m, d);
    x := Splice(c, m, d);
    if Agree(x, c, k) {
      FlippedAgreesInside(c, m, k, 32);
    }
  }

  /** The two membership tests decide intersection for every pair of addresses exactly
      when the masks are nested. */
  lemma TestsDecideSharingIffNested(ma: Addr, mb: Addr)
    ensures TestsDecideSharing(ma, mb) <==> Nested(ma, mb)
  {
    hide And;
    if Nested(ma, mb) {
      forall a: Addr, b: Addr
        ensures Overlaps(Net(a, ma), Net(b, mb)) <==> ShareAddress(Net(a, ma), Net(b, mb))
      {
        OverlapsExact(a, ma, b, mb);
      }
    } else {
      AndCommutes(ma, mb);
      var x := AgreesOnlyInside(0, ma, mb);
      var y := AgreesOnlyInside(0, mb, ma);
      AgreeOnMeet(0, x, ma, y, mb);
      ShareIffAgreeOnMeet(x, ma, y, mb);
    }
  }

  /** Present networks with prefix masks: the test is sound and complete. */
  lemma OverlapsExactForPrefixMasks(a: IPNet, b: IPNet)
    requires a.Present() && IsPrefixMask(a.mask.bits)
    requires b.Present() && IsPrefixMask(b.mask.bits)
    ensures Overlaps(a, b) <==> ShareAddress(a, b)
  {
    PrefixMasksNest(a.mask.bits, b.mask.bits);
    OverlapsExact(a.ip.bits, a.mask.bits, b.ip.bits, b.mask.bits);
  }

  /** The test passes on `b` although one of the two has no block: `b` is an address without a
      mask inside the block of `a`, or `a` has no block and `b` no address. */
  predicate Misread(a: IPNet, b: IPNet) {
    if a.Present() then b.ip.Quad? && b.mask.Nil? && InBlock(a, b.ip.bits) else b.ip.Nil?
  }

  /** For all networks, parsed or not, whose masks are nested when there are two: the test says
      whether an address is shared if and only if neither network is misread. */
  lemma OverlapsExactIffNotMisread(a: IPNet, b: IPNet)
    requires a.Present() && b.Present() ==> Nested(a.mask.bits, b.mask.bits)
    ensures (Overlaps(a, b) <==> ShareAddress(a, b)) <==> !Misread(a, b) && !Misread(b, a)
  {
    hide And;
    if a.Present() && b.Present() {
      OverlapsExact(a.ip.bits, a.mask.bits, b.ip.bits, b.mask.bits);
    }
  }

  /** With any masks, the test passes only if an address is shared. */
  lemma OverlapIsShared(a: Addr, ma: Addr, b: Addr, mb: Addr)
    requires Overlaps(Net(a, ma), Net(b, mb))
    ensures ShareAddress(Net(a, ma), Net(b, mb))
  {
    var x := if Agree(a, b, ma) then b else a;
    assert InBlock(Net(a, ma), x) && InBlock(Net(b, mb), x);
  }

  /** 192.168.1.1/24 on one side and, on the other, the same address with a netmask that did not
      parse: the test passes and no address is shared. */
  lemma UnmaskedAddressOverlaps()
    ensures var (a, b) := (Net(0xC0A8_0101, MaskOf(24)), IPNet(Quad(0xC0A8_0101), Nil));
            Overlaps(a, b) && !ShareAddress(a, b)
  {
    hide MaskOf;
  }
}
