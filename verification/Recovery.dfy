/** backend/modules/dhns/recovery/service.go: what to do about a DHCP lease and about an
    interface change. */
module Recovery {
  import Bits
  import opened Cidr
  import opened Wrappers
  import Conflict

  datatype Section = Section(device: string, proto: string, gateway: string, ipNet: IPNet, up: bool)

  /** A lease, its texts parsed: `Nil` where `net.ParseIP` fails. */
  datatype Lease = Lease(ip: Quad, subnet: Quad, gateway: string)

  datatype UciCommand = CreatePlanB | SetProtoDhcp | SetDevice(device: string) | SetNoAuto

  datatype DhcpDecision = DhcpDecision(
    valid: bool, conflict: bool, restartLan: bool, createPlanB: bool, ifupPlanB: bool, commands: seq<UciCommand>)

  const NO_DECISION := DhcpDecision(false, false, false, false, false, [])

  function PlanDHCPChange(lan: Section, planB: Option<Section>, lease: Lease): DhcpDecision {
    var leased := IPNet(lease.ip, lease.subnet);
    if leased.ip.Nil? || leased.mask.Nil? then NO_DECISION
    else if Overlaps(leased, lan.ipNet) then
      NO_DECISION.(valid := true, conflict := true, restartLan := planB.Some? && planB.value.up)
    else
      NO_DECISION.(
        valid := true,
        createPlanB := planB.None?,
        commands := if planB.None? then [CreatePlanB, SetProtoDhcp, SetDevice(lan.device), SetNoAuto] else [],
        ifupPlanB := planB.None? || !planB.value.up)
  }

  /** The planb section as the commands make it; one that is just created comes up by itself. */
  datatype PlanB = PlanB(proto: string, device: string, auto: bool)

  function AfterCommands(sec: Option<PlanB>, commands: seq<UciCommand>): Option<PlanB> {
    if commands == [] then sec
    else
      var before := AfterCommands(sec, commands[..|commands| - 1]);
      match commands[|commands| - 1]
      case CreatePlanB => Some(PlanB("", "", true))
      case SetProtoDhcp => if before.None? then None else Some(before.value.(proto := "dhcp"))
      case SetDevice(device) => if before.None? then None else Some(before.value.(device := device))
      case SetNoAuto => if before.None? then None else Some(before.value.(auto := false))
  }

  lemma CommandsMakePlanB(device: string)
    ensures AfterCommands(None, []) == None
    ensures AfterCommands(None, [CreatePlanB, SetProtoDhcp, SetDevice(device), SetNoAuto])
            == Some(PlanB("dhcp", device, false))
  {
    OneMoreCommand([], CreatePlanB);
    OneMoreCommand([CreatePlanB], SetProtoDhcp);
    OneMoreCommand([CreatePlanB] + [SetProtoDhcp], SetDevice(device));
    OneMoreCommand([CreatePlanB] + [SetProtoDhcp] + [SetDevice(device)], SetNoAuto);
    assert [] + [CreatePlanB] == [CreatePlanB];
    assert [CreatePlanB] + [SetProtoDhcp] + [SetDevice(device)] + [SetNoAuto]
           == [CreatePlanB, SetProtoDhcp, SetDevice(device), SetNoAuto];
  }

  lemma OneMoreCommand(before: seq<UciCommand>, c: UciCommand)
    ensures AfterCommands(None, before + [c])
            == var sec := AfterCommands(None, before);
               match c
               case CreatePlanB => Some(PlanB("", "", true))
               case SetProtoDhcp => if sec.None? then None else Some(sec.value.(proto := "dhcp"))
               case SetDevice(device) => if sec.None? then None else Some(sec.value.(device := device))
               case SetNoAuto => if sec.None? then None else Some(sec.value.(auto := false))
  {
    assert (before + [c])[..|before|] == before;
  }

  function Leased(lease: Lease): IPNet {
    IPNet(lease.ip, lease.subnet)
  }

  /** The decision follows what is true of the blocks: planb comes up, being created when it is
      missing, for a lease that parses and shares no address with the LAN, and the LAN is
      restarted for one that does while planb is up. */
  ghost predicate FollowsSharing(lan: Section, planB: Option<Section>, lease: Lease) {
    var (decision, leased) := (PlanDHCPChange(lan, planB, lease), Leased(lease));
    var shares := ShareAddress(leased, lan.ipNet);
    && (decision.valid <==> leased.Present())
    && (decision.conflict <==> leased.Present() && shares)
    && (decision.ifupPlanB <==> leased.Present() && !shares && (planB.None? || !planB.value.up))
    && (decision.createPlanB <==> leased.Present() && !shares && planB.None?)
    && (!decision.createPlanB ==> decision.commands == [])
    && AfterCommands(None, decision.commands)
       == (if decision.createPlanB then Some(PlanB("dhcp", lan.device, false)) else None)
    && (decision.restartLan <==> leased.Present() && shares && planB.Some? && planB.value.up)
  }

  /** For any lease and LAN, parsed or not, whose masks are nested when there are two: the
      decision follows the blocks if and only if the LAN is not an address without a mask inside
      the leased block. */
  lemma PlanBOnlyForDisjointLease(lan: Section, planB: Option<Section>, lease: Lease)
    requires Leased(lease).Present() && lan.ipNet.Present() ==> Bits.Nested(lease.subnet.bits, lan.ipNet.mask.bits)
    ensures FollowsSharing(lan, planB, lease) <==> !(Leased(lease).Present() && Misread(Leased(lease), lan.ipNet))
  {
    hide Overlaps, ShareAddress;
    CommandsMakePlanB(lan.device);
    if Leased(lease).Present() {
      OverlapsExactIffNotMisread(Leased(lease), lan.ipNet);
    }
  }

  /** For these two masks the decision follows the blocks, whatever the addresses. */
  ghost predicate MasksSuffice(leaseMask: Addr, lanMask: Addr) {
    forall lan: Section, planB: Option<Section>, lease: Lease ::
      lease.ip.Quad? && lease.subnet == Quad(leaseMask) && lan.ipNet.ip.Quad? && lan.ipNet.mask == Quad(lanMask)
      ==> FollowsSharing(lan, planB, lease)
  }

  /** A lease's subnet is not checked to be a prefix mask. The decision follows the blocks for all
      addresses if and only if the two masks are nested. */
  lemma PlanBIsSoundIffNested(leaseMask: Addr, lanMask: Addr)
    ensures MasksSuffice(leaseMask, lanMask) <==> Bits.Nested(leaseMask, lanMask)
  {
    if Bits.Nested(leaseMask, lanMask) {
      forall lan: Section, planB: Option<Section>, lease: Lease
        | lease.ip.Quad? && lease.subnet == Quad(leaseMask) && lan.ipNet.ip.Quad? && lan.ipNet.mask == Quad(lanMask)
        ensures FollowsSharing(lan, planB, lease)
      {
        PlanBOnlyForDisjointLease(lan, planB, lease);
      }
    } else {
      var lan, lease := UnnestedLease(leaseMask, lanMask);
    }
  }

  /** For any two masks that are not nested there are a lease and a LAN that share an address,
      and planb is created and brought up for it. */
  lemma UnnestedLease(leaseMask: Addr, lanMask: Addr) returns (lan: Section, lease: Lease)
    requires !Bits.Nested(leaseMask, lanMask)
    ensures lease.ip.Quad? && lease.subnet == Quad(leaseMask) && lan.ipNet.ip.Quad? && lan.ipNet.mask == Quad(lanMask)
    ensures PlanDHCPChange(lan, None, lease).createPlanB && PlanDHCPChange(lan, None, lease).ifupPlanB
    ensures ShareAddress(Leased(lease), lan.ipNet) && !FollowsSharing(lan, None, lease)
  {
    TestsDecideSharingIffNested(leaseMask, lanMask);
    var a: Addr, b: Addr :|
      !(Overlaps(Net(a, leaseMask), Net(b, lanMask)) <==> ShareAddress(Net(a, leaseMask), Net(b, lanMask)));
    if Overlaps(Net(a, leaseMask), Net(b, lanMask)) {
      OverlapIsShared(a, leaseMask, b, lanMask);
    }
    lan := Section("br-lan", "static", "", Net(b, lanMask), true);
    lease := Lease(Quad(a), Quad(leaseMask), "");
  }

  /** The LAN is 192.168.1.1 with a netmask that did not parse, the lease is 192.168.1.1/24: a
      conflict is reported, and no planb is made, although no address is shared. */
  lemma UnmaskedLanConflicts()
    ensures var lan := Section("br-lan", "static", "", IPNet(Quad(0xC0A8_0101), Nil), true);
            var lease := Lease(Quad(0xC0A8_0101), Quad(MaskOf(24)), "");
            && PlanDHCPChange(lan, None, lease).conflict && !ShareAddress(Leased(lease), lan.ipNet)
            && !FollowsSharing(lan, None, lease)
  {
    UnmaskedAddressOverlaps();
  }

  datatype IfaceDecision = IfaceDecision(
    stopUdhcpc: bool, stopDhns: bool, setupStaticIPInOtherNS: bool, checkWanLanConflict: bool,
    ifdownPlanB: bool, ifdownPlanBAndIfupLan: bool, ifupLan: bool, checkLanHasIP: bool, startUdhcpc: bool)

  const IDLE := IfaceDecision(false, false, false, false, false, false, false, false, false)

  predicate LanNeedsDhns(lan: Section) {
    Conflict.NeedsDhns(lan.proto, lan.gateway)
  }

  predicate IsUp(sec: Option<Section>) {
    sec.Some? && sec.value.up
  }

  function PlanIfaceChange(lan: Section, wan: Option<Section>, planB: Option<Section>, networkOK: bool): IfaceDecision {
    if IsUp(wan) then
      IDLE.(
        stopUdhcpc := true,
        ifdownPlanB := planB.Some?,
        setupStaticIPInOtherNS := LanNeedsDhns(lan),
        checkWanLanConflict := !LanNeedsDhns(lan),
        ifupLan := !lan.up || IsUp(planB))
    else if LanNeedsDhns(lan) then
      IDLE.(
        stopUdhcpc := true,
        checkLanHasIP := true,
        setupStaticIPInOtherNS := true,
        ifdownPlanBAndIfupLan := IsUp(planB),
        ifupLan := !IsUp(planB) && !lan.up)
    else if networkOK then IDLE.(stopUdhcpc := true)
    else if IsUp(planB) && planB.value.ipNet.ip.Quad? then IDLE.(stopUdhcpc := true)
    else IDLE.(ifupLan := !lan.up, startUdhcpc := true)
  }

  /** Every interface pass either stops or starts the DHCP probe, never both; only a start
      goes on to the pending lease; and the planner itself never asks to stop DHNS. */
  lemma IfacePassIsExclusive(lan: Section, wan: Option<Section>, planB: Option<Section>, networkOK: bool)
    ensures var d := PlanIfaceChange(lan, wan, planB, networkOK);
            && d.stopUdhcpc == !d.startUdhcpc
            && (d.startUdhcpc <==> !IsUp(wan) && !LanNeedsDhns(lan) && !networkOK
                                   && !(IsUp(planB) && planB.value.ipNet.ip.Quad?))
            && !d.stopDhns
            && !(d.setupStaticIPInOtherNS && d.checkWanLanConflict)
            && (d.setupStaticIPInOtherNS <==> LanNeedsDhns(lan))
            && (d.checkWanLanConflict ==> IsUp(wan))
            && !(d.ifdownPlanBAndIfupLan && (d.ifupLan || d.ifdownPlanB))
  {
  }

  /** What a pass does to the interfaces. When the WAN is up, the LAN is a client or has a gateway,
      or the probe starts, the LAN is up or brought up; a LAN that is up is touched exactly when
      planb is up and the WAN is up or the LAN is such a one, and those are also the cases in which
      a planb that is up goes down. */
  lemma InterfacesAfterPass(lan: Section, wan: Option<Section>, planB: Option<Section>, networkOK: bool)
    ensures var d := PlanIfaceChange(lan, wan, planB, networkOK);
            var (wanUp, planBUp) := (wan.Some? && wan.value.up, planB.Some? && planB.value.up);
            var client := lan.proto == "dhcp" || (lan.proto == "static" && lan.gateway != "");
            var touched := d.ifupLan || d.ifdownPlanBAndIfupLan;
            && (wanUp || client || d.startUdhcpc ==> lan.up || touched)
            && (lan.up && touched <==> lan.up && planBUp && (wanUp || client))
            && (touched ==> wanUp || client || d.startUdhcpc)
            && (planBUp && !d.ifdownPlanB && !d.ifdownPlanBAndIfupLan <==> planBUp && !wanUp && !client)
            && (d.ifdownPlanB <==> wanUp && planB.Some?) && (d.ifdownPlanBAndIfupLan ==> planBUp && !wanUp)
            && (d.startUdhcpc <==> !wanUp && !client && !networkOK && !(planBUp && planB.value.ipNet.ip.Quad?))
            && (d.stopUdhcpc <==> !d.startUdhcpc)
            && (d.checkWanLanConflict <==> wanUp && !client)
            && (d.setupStaticIPInOtherNS <==> client)
            && (d.checkLanHasIP <==> !wanUp && client)
            && !d.stopDhns
  {
  }
}
