/** backend/modules/dhns/conflict/service.go and the choice of the namespace address in
    backend/service/dhns.go: moving the LAN out of the way of the WAN. */
module Conflict {
  import opened Bits
  import opened Cidr
  import opened Wrappers

  /** `ownMask` tells whether the mask stands in a `netmask` option or only behind the slash of
      the `ipaddr` option. */
  datatype NetworkSection = NetworkSection(section: string, proto: string, gateway: string, ipNet: IPNet, ownMask: bool)

  datatype Decision = Decision(needDhns: bool, newLanIP: Quad, overlaps: bool)

  datatype UciCommand = SetIpaddr(section: string, ip: Addr) | CommitNetwork

  datatype Plan = Plan(needDhns: bool, commands: seq<UciCommand>, reloadNetwork: bool)

  /** 192.168.100.1 and 192.168.101.1. */
  const CANDIDATE_1: Addr := 0xC0A8_6401
  const CANDIDATE_2: Addr := 0xC0A8_6501

  /** The empty string of the original is `Nil`. */
  function NoConflictIP(net1: IPNet, net2: IPNet): Quad {
    if !Contains(net2, Quad(CANDIDATE_1)) && !Contains(net1, Quad(CANDIDATE_1)) then Quad(CANDIDATE_1)
    else if !Contains(net2, Quad(CANDIDATE_2)) && !Contains(net1, Quad(CANDIDATE_2)) then Quad(CANDIDATE_2)
    else Nil
  }

  predicate NeedsDhns(proto: string, gateway: string) {
    proto == "dhcp" || (proto == "static" && gateway != "")
  }

  function EvaluateWANLANConflict(wan: NetworkSection, lan: NetworkSection, lanDhcpDisabled: bool): Decision {
    if NeedsDhns(lan.proto, lan.gateway) then Decision(true, Nil, false)
    else if Overlaps(wan.ipNet, lan.ipNet) then Decision(false, NoConflictIP(wan.ipNet, lan.ipNet), true)
    else if lanDhcpDisabled then Decision(true, Nil, false)
    else Decision(false, Nil, false)
  }

  function PlanWANLANConflict(wan: NetworkSection, lan: NetworkSection, lanDhcpDisabled: bool): Plan {
    var decision := EvaluateWANLANConflict(wan, lan, lanDhcpDisabled);
    if decision.overlaps then
      if decision.newLanIP.Nil? then Plan(false, [], false)
      else Plan(false, [SetIpaddr(lan.section, decision.newLanIP.bits), CommitNetwork], true)
    else if decision.needDhns then Plan(true, [], false)
    else Plan(false, [], false)
  }

  /** A new `ipaddr` option replaces the old one, and with it a mask behind its slash. */
  function WithIpaddr(sec: NetworkSection, ip: Addr): NetworkSection {
    sec.(ipNet := IPNet(Quad(ip), if sec.ownMask then sec.ipNet.mask else Nil))
  }

  /** What the planned commands do to the LAN section: only what is committed counts. */
  function Apply(lan: NetworkSection, commands: seq<UciCommand>): NetworkSection {
    Committed(lan, lan, commands)
  }

  function Committed(lan: NetworkSection, staged: NetworkSection, commands: seq<UciCommand>): NetworkSection
    decreases |commands|
  {
    if commands == [] then lan
    else match commands[0]
      case SetIpaddr(section, ip) =>
        Committed(lan, if section == lan.section then WithIpaddr(staged, ip) else staged, commands[1..])
      case CommitNetwork => Committed(staged, staged, commands[1..])
  }

  /** When the sections are read again, a static one without an address is passed over, and so
      is one that has neither a `netmask` option nor a mask. */
  function Collected(sec: NetworkSection): Option<NetworkSection> {
    if sec.ipNet.ip.Nil? then None
    else if !sec.ownMask && sec.ipNet.mask.Nil? then None
    else Some(sec)
  }

  lemma ApplyPlan(wan: NetworkSection, lan: NetworkSection, lanDhcpDisabled: bool)
    ensures var plan := PlanWANLANConflict(wan, lan, lanDhcpDisabled);
            var decision := EvaluateWANLANConflict(wan, lan, lanDhcpDisabled);
            (plan.commands != [] ==> decision.newLanIP.Quad?)
            && Apply(lan, plan.commands)
            == if plan.commands == [] then lan else WithIpaddr(lan, decision.newLanIP.bits)
  {
    hide Contains, WithIpaddr;
    var plan := PlanWANLANConflict(wan, lan, lanDhcpDisabled);
    if plan.commands != [] {
      assert plan.commands[1..] == [CommitNetwork];
      var moved := WithIpaddr(lan, plan.commands[0].ip);
      assert Apply(lan, plan.commands) == Committed(lan, moved, [CommitNetwork]);
      assert [CommitNetwork][1..] == [];
    }
  }

  /** DHNS is needed on a LAN that is itself a client or has a gateway, and otherwise exactly where
      the LAN's DHCP server is off and the blocks share no address. A plan that moves the LAN comes
      with a reload and without DHNS, and no other plan reloads. */
  lemma DhnsIsNeededIff(wan: NetworkSection, lan: NetworkSection, lanDhcpDisabled: bool)
    ensures var plan := PlanWANLANConflict(wan, lan, lanDhcpDisabled);
            var client := lan.proto == "dhcp" || (lan.proto == "static" && lan.gateway != "");
            && (plan.needDhns <==> client || (lanDhcpDisabled && !Overlaps(wan.ipNet, lan.ipNet)))
            && (wan.ipNet.Present() && lan.ipNet.Present() && Nested(wan.ipNet.mask.bits, lan.ipNet.mask.bits) ==>
                  (plan.needDhns <==> client || (lanDhcpDisabled && !ShareAddress(wan.ipNet, lan.ipNet))))
            && (plan.commands != [] <==> plan.reloadNetwork)
            && (plan.commands != [] ==> !plan.needDhns && !client && Overlaps(wan.ipNet, lan.ipNet))
  {
    if wan.ipNet.Present() && lan.ipNet.Present() && Nested(wan.ipNet.mask.bits, lan.ipNet.mask.bits) {
      OverlapsExact(wan.ipNet.ip.bits, wan.ipNet.mask.bits, lan.ipNet.ip.bits, lan.ipNet.mask.bits);
    }
  }

  /** The LAN moves to 192.168.100.1 unless that address is in one of the networks, and then to
      192.168.101.1. */
  lemma MovesTo(wan: NetworkSection, lan: NetworkSection, lanDhcpDisabled: bool)
    ensures var plan := PlanWANLANConflict(wan, lan, lanDhcpDisabled);
            plan.commands != [] ==>
              Apply(lan, plan.commands).ipNet.ip
              == Quad(if InEither(wan, lan, 0xC0A8_6401) then 0xC0A8_6501 else 0xC0A8_6401)
  {
    hide Contains, Overlaps;
    ApplyPlan(wan, lan, lanDhcpDisabled);
  }

  /** Moving one of two overlapping blocks to an address in neither separates them. */
  lemma MovedBlockIsClear(w: Addr, mw: Addr, l: Addr, ml: Addr, c: Addr)
    requires Nested(mw, ml)
    requires Overlaps(Net(w, mw), Net(l, ml))
    requires !Contains(Net(w, mw), Quad(c)) && !Contains(Net(l, ml), Quad(c))
    ensures !Overlaps(Net(w, mw), Net(c, ml))
  {
    hide And;
    if Agree(c, w, ml) {
      // The LAN mask cannot tell `c` from the WAN address, so it keeps less than the WAN mask ...
      if And(mw, ml) == mw {
        AgreeOnMeet(w, c, ml, w, mw);
        AndCommutes(mw, ml);
      } else {
        // ... and then the WAN test, the finer one, would already have placed `c` in the LAN.
        if Agree(w, l, mw) {
          AgreeOnMeet(w, l, mw, w, ml);
        }
      }
    }
  }

  /** The LAN is still there, with the mask it had, and out of the way: another evaluation
      reports no overlap and plans nothing, and the two blocks share no address. */
  ghost predicate Resolved(wan: NetworkSection, lan: NetworkSection, moved: NetworkSection, lanDhcpDisabled: bool) {
    && Collected(moved) == Some(moved)
    && moved.ipNet.mask == lan.ipNet.mask
    && !EvaluateWANLANConflict(wan, moved, lanDhcpDisabled).overlaps
    && PlanWANLANConflict(wan, moved, lanDhcpDisabled).commands == []
    && !ShareAddress(wan.ipNet, moved.ipNet)
  }

  /** Carrying out a plan resolves the overlap if and only if the LAN's mask has an option of its
      own. If it stands behind the slash of `ipaddr` the LAN is not even read any more. */
  lemma PlanResolvesOverlap(wan: NetworkSection, lan: NetworkSection, lanDhcpDisabled: bool)
    requires wan.ipNet.Present() && lan.ipNet.Present() && Nested(wan.ipNet.mask.bits, lan.ipNet.mask.bits)
    ensures var plan := PlanWANLANConflict(wan, lan, lanDhcpDisabled);
            var moved := Apply(lan, plan.commands);
            plan.commands != [] ==>
              && (Resolved(wan, lan, moved, lanDhcpDisabled) <==> lan.ownMask)
              && (moved.ipNet.mask == lan.ipNet.mask <==> lan.ownMask)
              && (Collected(moved) == None <==> !lan.ownMask)
  {
    ApplyPlan(wan, lan, lanDhcpDisabled);
    var plan := PlanWANLANConflict(wan, lan, lanDhcpDisabled);
    if plan.commands != [] && lan.ownMask {
      var (w, mw, l, ml) := (wan.ipNet.ip.bits, wan.ipNet.mask.bits, lan.ipNet.ip.bits, lan.ipNet.mask.bits);
      var c := NoConflictIP(wan.ipNet, lan.ipNet).bits;
      MovedBlockIsClear(w, mw, l, ml, c);
      OverlapsExact(w, mw, c, ml);
    }
  }

  /** LAN and WAN at 10.0.0.1/8, the LAN's mask behind the slash: the planned move leaves the LAN
      without a mask, and it is passed over from then on. */
  lemma SlashMaskIsLost()
    ensures var wan := NetworkSection("wan", "dhcp", "", Net(0x0A00_0001, MaskOf(8)), true);
            var lan := NetworkSection("lan", "static", "", Net(0x0A00_0001, MaskOf(8)), false);
            var plan := PlanWANLANConflict(wan, lan, false);
            && plan.commands == [SetIpaddr("lan", CANDIDATE_1), CommitNetwork]
            && Collected(lan) == Some(lan) && Collected(Apply(lan, plan.commands)) == None
  {
    hide And, Pow2, MaskOf;
    var wan := NetworkSection("wan", "dhcp", "", Net(0x0A00_0001, MaskOf(8)), true);
    var lan := NetworkSection("lan", "static", "", Net(0x0A00_0001, MaskOf(8)), false);
    TopOctetsDiffer();
    ApplyPlan(wan, lan, false);
  }

  lemma TopOctetsDiffer()
    ensures !Agree(0x0A00_0001, CANDIDATE_1, MaskOf(8))
  {
    hide And, Pow2;
    Pow2Of32();
    PowerOf24();
    AndHighMask(0x0A00_0001, 32, 24);
    AndHighMask(CANDIDATE_1, 32, 24);
  }

  lemma PowerOf24()
    ensures Pow2(24) == 0x100_0000
  {
    assert Pow2(8) == 256;
    assert Pow2(16) == 0x1_0000;
  }

  ghost predicate PlansResolve(mw: Addr, ml: Addr) {
    forall wan: NetworkSection, lan: NetworkSection, off: bool ::
      wan.ipNet.Present() && wan.ipNet.mask.bits == mw
      && lan.ipNet.Present() && lan.ipNet.mask.bits == ml && lan.ownMask
      && PlanWANLANConflict(wan, lan, off).commands != []
      ==> Resolved(wan, lan, Apply(lan, PlanWANLANConflict(wan, lan, off).commands), off)
  }

  /** Every plan for a LAN with its mask in an option resolves its overlap exactly when the two
      masks are nested. */
  lemma PlansResolveIffNested(mw: Addr, ml: Addr)
    ensures PlansResolve(mw, ml) <==> Nested(mw, ml)
  {
    hide Apply, PlanWANLANConflict, Resolved;
    if Nested(mw, ml) {
      forall wan: NetworkSection, lan: NetworkSection, off: bool
        | wan.ipNet.Present() && wan.ipNet.mask.bits == mw
          && lan.ipNet.Present() && lan.ipNet.mask.bits == ml && lan.ownMask
          && PlanWANLANConflict(wan, lan, off).commands != []
        ensures Resolved(wan, lan, Apply(lan, PlanWANLANConflict(wan, lan, off).commands), off)
      {
        PlanResolvesOverlap(wan, lan, off);
      }
    } else {
      var wan, lan := UnnestedPlan(mw, ml);
    }
  }

  /** With masks that are not nested some plan leaves the overlap in place. */
  lemma UnnestedPlan(mw: Addr, ml: Addr) returns (wan: NetworkSection, lan: NetworkSection)
    requires !Nested(mw, ml)
    ensures wan.ipNet.Present() && wan.ipNet.mask.bits == mw
    ensures lan.ipNet.Present() && lan.ipNet.mask.bits == ml && lan.ownMask
    ensures PlanWANLANConflict(wan, lan, false).commands != []
    ensures var moved := Apply(lan, PlanWANLANConflict(wan, lan, false).commands);
            EvaluateWANLANConflict(wan, moved, false).overlaps && !Resolved(wan, lan, moved, false)
  {
    AndCommutes(mw, ml);
    var w := AgreesOnlyInside(CANDIDATE_1, ml, mw);
    var l := AgreesOnlyInside(w, mw, ml);
    wan := NetworkSection("wan", "dhcp", "", Net(w, mw), true);
    lan := NetworkSection("lan", "static", "", Net(l, ml), true);
    ApplyPlan(wan, lan, false);
  }

  predicate InEither(wan: NetworkSection, lan: NetworkSection, c: Addr) {
    Contains(wan.ipNet, Quad(c)) || Contains(lan.ipNet, Quad(c))
  }

  /** The planner gives up, leaving the overlap, exactly when either network holds each candidate. */
  lemma PlanGivesUpIff(wan: NetworkSection, lan: NetworkSection, lanDhcpDisabled: bool)
    requires !NeedsDhns(lan.proto, lan.gateway) && Overlaps(wan.ipNet, lan.ipNet)
    ensures PlanWANLANConflict(wan, lan, lanDhcpDisabled).commands == []
            <==> InEither(wan, lan, 0xC0A8_6401) && InEither(wan, lan, 0xC0A8_6501)
  {
  }

  // ----- the address inside the other network namespace -----

  datatype NamespaceAction = StopDhns | StartDhns(net: IPNet)

  /** setupStaticIPInOtherNS: the first candidate outside the LAN, under the LAN's mask. */
  function SetupStaticIPInOtherNS(lan: IPNet): NamespaceAction {
    if !Contains(lan, Quad(CANDIDATE_1)) then StartDhns(IPNet(Quad(CANDIDATE_1), lan.mask))
    else if !Contains(lan, Quad(CANDIDATE_2)) then StartDhns(IPNet(Quad(CANDIDATE_2), lan.mask))
    else StopDhns
  }

  /** Whatever the LAN's mask, the namespace block never meets the LAN. */
  lemma NamespaceBlockIsDisjoint(lan: IPNet)
    requires lan.Present()
    ensures var action := SetupStaticIPInOtherNS(lan);
            action.StartDhns? ==>
              && !ShareAddress(action.net, lan) && action.net.mask == lan.mask
              && action.net.ip == Quad(if InBlock(lan, 0xC0A8_6401) then 0xC0A8_6501 else 0xC0A8_6401)
  {
    var action := SetupStaticIPInOtherNS(lan);
    if action.StartDhns? {
      hide And;
      forall x: Addr | InBlock(lan, x)
        ensures !InBlock(action.net, x)
      {
      }
    }
  }

  lemma SmallPowers()
    ensures Pow2(8) == 256 && Pow2(9) == 512
  {
    assert Pow2(4) == 16;
  }

  /** The two candidates differ first in bit 8: a mask sees them apart from prefix 24 on. */
  lemma CandidatesAgreeIff(p: nat)
    requires p <= 32
    ensures Agree(CANDIDATE_1, CANDIDATE_2, MaskOf(p)) <==> p <= 23
  {
    hide And, Pow2;
    Pow2Of32();
    SmallPowers();
    if p <= 23 {
      AndHighMask(CANDIDATE_1, 32, 9);
      AndHighMask(CANDIDATE_2, 32, 9);
      HighMasksMeet(32, 32 - p, 9);
      AndCommutes(MaskOf(p), HighMask(32, 9));
      AgreeOnMeet(CANDIDATE_2, CANDIDATE_1, HighMask(32, 9), CANDIDATE_2, MaskOf(p));
    } else {
      AndHighMask(CANDIDATE_1, 32, 8);
      AndHighMask(CANDIDATE_2, 32, 8);
      HighMasksMeet(32, 8, 32 - p);
      AndCommutes(MaskOf(p), HighMask(32, 8));
      if Agree(CANDIDATE_1, CANDIDATE_2, MaskOf(p)) {
        AgreeOnMeet(CANDIDATE_2, CANDIDATE_1, MaskOf(p), CANDIDATE_2, HighMask(32, 8));
      }
    }
  }

  /** DHNS can be stopped for want of an address exactly on LANs of prefix 23 or shorter. */
  lemma NamespaceStopsIff(p: nat)
    requires p <= 32
    ensures (exists ip: Addr :: SetupStaticIPInOtherNS(Net(ip, MaskOf(p))) == StopDhns) <==> p <= 23
  {
    hide And, MaskOf;
    CandidatesAgreeIff(p);
    if p <= 23 {
      assert SetupStaticIPInOtherNS(Net(CANDIDATE_1, MaskOf(p))) == StopDhns;
    } else {
      forall ip: Addr
        ensures SetupStaticIPInOtherNS(Net(ip, MaskOf(p))) != StopDhns
      {
        assert !(Agree(ip, CANDIDATE_1, MaskOf(p)) && Agree(ip, CANDIDATE_2, MaskOf(p)));
      }
    }
  }
}
