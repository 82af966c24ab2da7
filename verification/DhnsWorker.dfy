/** The goroutines around the event state in backend/service/dhns.go: markers, the single
    worker `dhnsChanging`, and the DHCP waiters. Each mutex-protected call is one step, so a
    list of events is an interleaving. */
module DhnsWorker {
  import opened EventState
  import opened Wrappers

  /** A worker that is about to be started (by HandleDhcpValid after its send, if it has one to
      make), one that will drain (again), one in the pass that follows a drain with something in
      it, and one that saw an empty drain and has only Finish left. A pass has its interface part
      before it, its DHCP part, or what is left of them. */
  datatype Phase = Spawning(after: Option<Waiter>) | Looping | Passing(iface: bool, dhcp: bool) | Exiting

  /** A waiter goroutine: signals in its channel (capacity one), signals sent to it so far,
      and whether it has ended. */
  datatype WaiterState = WaiterState(buffered: nat, signals: nat, ended: bool)

  datatype System = System(
    view: View,
    workers: seq<Phase>,
    waiters: seq<WaiterState>,
    /** Channels returned by MarkDHCPValid whose send is still to come. */
    sends: seq<Waiter>,
    /** A send took the default branch. */
    dropped: bool,
    /** What every drain so far reported. */
    reports: seq<Pending>,
    /** For each interface mark since the last drain: did it fall between an empty drain and Finish? */
    late: seq<bool>,
    /** The same for each DHCP mark since the last drain or reset. */
    lateDhcp: seq<bool>)

  datatype Event =
    | IfaceEvent
    | DhcpEvent(info: Lease)
    | Spawn
    | DrainPass
    | EndPass
    | FinishWorker
    | StartUdhcpc(alreadyRunning: bool)
    | StopUdhcpc
    | SendSignal(position: nat)
    | TakeSignal(waiter: Waiter)
    | Timeout(waiter: Waiter)

  const START := System(INITIAL, [], [], [], false, [], [], [])

  function Started(s: System, after: Option<Waiter>): seq<Phase> {
    if s.view.running then s.workers else s.workers + [Spawning(after)]
  }

  predicate InWindow(s: System) {
    s.workers == [Exiting]
  }

  /** The worker is in a pass that can still come to stop udhcpc. */
  predicate CanStop(s: System) {
    s.workers != [] && s.workers[0].Passing? && (s.workers[0].iface || s.workers[0].dhcp)
  }

  function Drain(s: System): System
    requires s.workers != []
  {
    var empty := !s.view.ifaceChange && !s.view.dhcpChange;
    s.(view := Drained(s.view), reports := s.reports + [Report(s.view)], late := [], lateDhcp := [],
       workers := [if empty then Exiting else Passing(s.view.ifaceChange, s.view.dhcpChange)] + s.workers[1..])
  }

  /** startUdhcpc, from the interface part of a pass: unless udhcpc runs already, a waiter is
      registered if there is none. */
  function WithUdhcpc(s: System, alreadyRunning: bool): System {
    if alreadyRunning || s.view.dhcpWaiter.Some? then s
    else s.(view := s.view.(dhcpWaiter := Some(|s.waiters|)), waiters := s.waiters + [WaiterState(0, 0, false)])
  }

  /** The non-blocking send of HandleDhcpValid. Concurrent calls send in any order. */
  function Signal(s: System, i: nat): System
    requires i < |s.sends|
  {
    var (k, rest) := (s.sends[i], s.sends[..i] + s.sends[i + 1..]);
    if k < |s.waiters| && s.waiters[k].buffered == 0 then
      s.(sends := rest,
         waiters := s.waiters[k := s.waiters[k].(buffered := 1, signals := s.waiters[k].signals + 1)])
    else
      s.(sends := rest, dropped := true)
  }

  /** The worker starts once the call that starts it has made its send. */
  predicate CanSpawn(s: System) {
    s.workers != [] && s.workers[0].Spawning?
    && (s.workers[0].after.Some? ==> s.workers[0].after.value !in s.sends)
  }

  /** udhcpc is started and stopped only by the worker, in a pass: by the interface part, which
      goes on to the DHCP part after a start and ends after a stop, or by the DHCP part. */
  predicate Enabled(s: System, e: Event) {
    match e
    case Spawn => CanSpawn(s)
    case DrainPass => s.workers != [] && s.workers[0] == Looping
    case EndPass => s.workers != [] && s.workers[0].Passing?
    case FinishWorker => s.workers != [] && s.workers[0] == Exiting
    case StartUdhcpc(_) => s.workers != [] && s.workers[0].Passing? && s.workers[0].iface
    case StopUdhcpc => CanStop(s)
    case SendSignal(i) => i < |s.sends|
    case TakeSignal(k) => k < |s.waiters| && !s.waiters[k].ended && s.waiters[k].buffered > 0
    case Timeout(k) => k < |s.waiters| && !s.waiters[k].ended
    case _ => true
  }

  function Step(s: System, e: Event): System {
    if !Enabled(s, e) then s
    else match e
      case IfaceEvent =>
        s.(view := MarkIface(s.view), workers := Started(s, None), late := s.late + [InWindow(s)])
      case DhcpEvent(info) =>
        s.(view := MarkDhcp(s.view, info), workers := Started(s, s.view.dhcpWaiter),
           lateDhcp := s.lateDhcp + [InWindow(s)],
           sends := if s.view.dhcpWaiter.Some? then s.sends + [s.view.dhcpWaiter.value] else s.sends)
      case Spawn => s.(workers := [Looping] + s.workers[1..])
      case DrainPass => Drain(s)
      case EndPass => s.(workers := [Looping] + s.workers[1..])
      case FinishWorker => s.(view := Finished(s.view), workers := s.workers[1..])
      case StartUdhcpc(alreadyRunning) =>
        WithUdhcpc(s.(workers := [Passing(false, s.workers[0].dhcp)] + s.workers[1..]), alreadyRunning)
      case StopUdhcpc =>
        s.(view := WithoutDhcp(s.view), lateDhcp := [], workers := [Passing(false, false)] + s.workers[1..])
      case SendSignal(i) => Signal(s, i)
      case TakeSignal(k) => s.(waiters := s.waiters[k := s.waiters[k].(buffered := 0, ended := true)])
      case Timeout(k) =>
        s.(view := s.view.(dhcpWaiter := None), waiters := s.waiters[k := s.waiters[k].(ended := true)])
  }

  function Run(s: System, events: seq<Event>): System
    decreases |events|
  {
    if events == [] then s else Run(Step(s, events[0]), events[1..])
  }

  // ----- what every run keeps -----

  /** One worker while `running`, none otherwise. */
  ghost predicate WorkerInv(s: System) {
    |s.workers| == if s.view.running then 1 else 0
  }

  /** A pending DHCP change has its lease, and so has every report of one. */
  ghost predicate LeaseInv(s: System) {
    && (s.view.dhcpChange ==> s.view.lastDhcp.Some?)
    && (forall i :: 0 <= i < |s.reports| && s.reports[i].dhcpChange ==> s.reports[i].dhcp.Some?)
  }

  /** A waiter is signalled at most once: it is registered, or a send to it is due, or neither. A
      signal stays in its channel until the waiter takes it and ends. */
  ghost predicate WaiterInv(s: System) {
    && !s.dropped
    && (forall k :: 0 <= k < |s.waiters| ==>
          && s.waiters[k].signals <= 1 && s.waiters[k].buffered <= s.waiters[k].signals
          && (s.waiters[k].signals == 1 && !s.waiters[k].ended ==> s.waiters[k].buffered == 1))
    && (forall i, j :: 0 <= i < j < |s.sends| ==> s.sends[i] != s.sends[j])
    && (forall k :: k in s.sends ==> k < |s.waiters| && s.waiters[k].signals == 0)
    && (s.view.dhcpWaiter.Some? ==>
          var k := s.view.dhcpWaiter.value;
          k < |s.waiters| && s.waiters[k].signals == 0 && k !in s.sends)
  }

  /** Each flag stands for its marks since it was last taken down, and once no further drain is
      coming those were all made in the window. */
  ghost predicate MarkInv(s: System) {
    && (s.view.ifaceChange <==> s.late != [])
    && (s.view.dhcpChange <==> s.lateDhcp != [])
    && (s.workers == [] || InWindow(s) ==>
          (forall i :: 0 <= i < |s.late| ==> s.late[i]) && (forall i :: 0 <= i < |s.lateDhcp| ==> s.lateDhcp[i]))
  }

  ghost predicate Inv(s: System) {
    WorkerInv(s) && LeaseInv(s) && WaiterInv(s) && MarkInv(s)
  }

  lemma StepKeepsWorkers(s: System, e: Event)
    requires WorkerInv(s)
    ensures WorkerInv(Step(s, e))
  {
    hide Drained, Report, MarkIface, MarkDhcp;
    MarksKeepRunning(s.view, e);
  }

  lemma MarksKeepRunning(v: View, e: Event)
    ensures MarkIface(v).running && Drained(v).running == v.running
    ensures e.DhcpEvent? ==> MarkDhcp(v, e.info).running
  {
  }

  /** What happens to the marks is decided by the worker alone. */
  lemma StepKeepsMarks(s: System, e: Event)
    requires WorkerInv(s) && MarkInv(s)
    ensures MarkInv(Step(s, e))
  {
    if IsMark(e) {
      MarkOutsideWindow(s, e);
      MarkAdds(s, e);
    } else {
      WorkerMoves(s, e);
      FlagsMove(s, e);
    }
  }

  lemma MarkAdds(s: System, e: Event)
    requires IsMark(e)
    ensures var r := Step(s, e);
            && r.late == (if e.IfaceEvent? then s.late + [InWindow(s)] else s.late)
            && r.lateDhcp == (if e.DhcpEvent? then s.lateDhcp + [InWindow(s)] else s.lateDhcp)
            && r.view.ifaceChange == (e.IfaceEvent? || s.view.ifaceChange)
            && r.view.dhcpChange == (e.DhcpEvent? || s.view.dhcpChange)
  {
  }

  /** Without a mark no worker comes, and only one that drains comes into the window. */
  lemma WorkerMoves(s: System, e: Event)
    requires WorkerInv(s) && !IsMark(e)
    ensures var r := Step(s, e);
            r.workers == [] || InWindow(r) ==> s.workers == [] || InWindow(s) || (e == DrainPass && Enabled(s, e))
  {
    assert |s.workers| == 1 ==> s.workers == [s.workers[0]];
  }

  lemma FlagsMove(s: System, e: Event)
    requires !IsMark(e)
    ensures var r := Step(s, e);
            if !Enabled(s, e) then r == s
            else if e == DrainPass then r.late == [] && r.lateDhcp == [] && !r.view.ifaceChange && !r.view.dhcpChange
            else
              && r.late == s.late && r.view.ifaceChange == s.view.ifaceChange
              && if e == StopUdhcpc then r.lateDhcp == [] && !r.view.dhcpChange
                 else r.lateDhcp == s.lateDhcp && r.view.dhcpChange == s.view.dhcpChange
  {
  }

  /** A mark outside the window leaves a worker that has its drain before it. */
  lemma MarkOutsideWindow(s: System, e: Event)
    requires WorkerInv(s) && IsMark(e)
    ensures var r := Step(s, e);
            && r.view.running
            && (if InWindow(s) then InWindow(r) else MustDrain(r))
            && r.workers == if s.view.running then s.workers
                            else [Spawning(if e.DhcpEvent? then s.view.dhcpWaiter else None)]
  {
    if s.view.running {
      assert s.workers == [s.workers[0]];
      assert !InWindow(s) ==> s.workers[0] != Exiting;
    }
  }

  lemma StepKeepsLeases(s: System, e: Event)
    requires LeaseInv(s)
    ensures LeaseInv(Step(s, e))
  {
    hide WorkerInv, MarkInv;
  }

  lemma StepKeepsWaiters(s: System, e: Event)
    requires WaiterInv(s)
    ensures WaiterInv(Step(s, e))
  {
    hide Signal;
    if e.SendSignal? && Enabled(s, e) {
      SignalKeepsWaiters(s, e.position);
    }
  }

  lemma SignalKeepsWaiters(s: System, i: nat)
    requires WaiterInv(s) && i < |s.sends|
    ensures WaiterInv(Signal(s, i)) && Signal(s, i) == Step(s, SendSignal(i))
  {
    var (k, rest) := (s.sends[i], s.sends[..i] + s.sends[i + 1..]);
    assert k in s.sends;
    assert forall j :: 0 <= j < |rest| ==> rest[j] == s.sends[if j < i then j else j + 1];
    assert forall x :: x in rest ==> x in s.sends && x != k;
  }

  lemma {:induction false} RunKeepsInv(s: System, events: seq<Event>)
    requires Inv(s)
    ensures Inv(Run(s, events))
    decreases |events|
  {
    hide Step, WorkerInv, LeaseInv, WaiterInv, MarkInv;
    if events != [] {
      StepKeepsWorkers(s, events[0]);
      StepKeepsMarks(s, events[0]);
      StepKeepsLeases(s, events[0]);
      StepKeepsWaiters(s, events[0]);
      RunKeepsInv(Step(s, events[0]), events[1..]);
    }
  }

  // ----- what every run guarantees -----

  lemma StartIsGood()
    ensures Inv(START)
  {
  }

  /** In every run at most one worker is alive, and exactly when `running` says so; a reported
      DHCP change always carries a lease; no signal is dropped and no waiter gets two. */
  lemma EveryRunIsSafe(events: seq<Event>)
    ensures var s := Run(START, events);
            && |s.workers| == (if s.view.running then 1 else 0)
            && (forall i :: 0 <= i < |s.reports| && s.reports[i].dhcpChange ==> s.reports[i].dhcp.Some?)
            && !s.dropped
            && (forall k :: 0 <= k < |s.waiters| ==>
                  s.waiters[k].signals <= 1
                  && (s.waiters[k].signals == 1 && !s.waiters[k].ended ==> s.waiters[k].buffered == 1))
  {
    hide Run;
    StartIsGood();
    RunKeepsInv(START, events);
  }

  // ----- who changes what -----

  /** A lease comes with a DHCP event and goes only when udhcpc is stopped; a registration comes
      with a start of udhcpc and goes with a lease, which owes the waiter a signal, or a timer. */
  lemma LeaseAndRegistrationChange(s: System, e: Event)
    requires Enabled(s, e)
    ensures var (v, r) := (s.view, Step(s, e));
            && r.view.lastDhcp == (if e.DhcpEvent? then Some(e.info) else if e == StopUdhcpc then None else v.lastDhcp)
            && r.view.dhcpWaiter == (if e.DhcpEvent? || e.Timeout? then None
                                     else if e == StartUdhcpc(false) && v.dhcpWaiter.None? then Some(|s.waiters|)
                                     else v.dhcpWaiter)
            && |r.waiters| == |s.waiters| + (if e == StartUdhcpc(false) && v.dhcpWaiter.None? then 1 else 0)
            && (e.DhcpEvent? ==> r.sends == s.sends + if v.dhcpWaiter.Some? then [v.dhcpWaiter.value] else [])
            && (!e.DhcpEvent? && !e.SendSignal? ==> r.sends == s.sends)
            && (e.SendSignal? ==> r.sends == s.sends[..e.position] + s.sends[e.position + 1..])
  {
  }

  /** A waiter changes only by its signal, by taking it, or by its timer, and ends by the last two. */
  lemma WaitersChange(s: System, e: Event, k: Waiter)
    requires Enabled(s, e) && k < |s.waiters|
    ensures var (before, after) := (s.waiters[k], Step(s, e).waiters[k]);
            && (after.ended <==> before.ended || e == TakeSignal(k) || e == Timeout(k))
            && (e.SendSignal? && s.sends[e.position] == k && before.buffered == 0 ==>
                  after == WaiterState(1, before.signals + 1, before.ended))
            && (after != before ==>
                  e == TakeSignal(k) || e == Timeout(k) || (e.SendSignal? && s.sends[e.position] == k))
  {
  }

  /** When udhcpc runs already, or a waiter is registered, a start changes nothing but the pass;
      otherwise exactly one waiter is made and registered. */
  lemma StartMakesOneWaiter(s: System, alreadyRunning: bool)
    requires Enabled(s, StartUdhcpc(alreadyRunning))
    ensures var r := Step(s, StartUdhcpc(alreadyRunning));
            if alreadyRunning || s.view.dhcpWaiter.Some? then
              r.waiters == s.waiters && r.view == s.view
            else
              && r.waiters == s.waiters + [WaiterState(0, 0, false)]
              && r.view == s.view.(dhcpWaiter := Some(|s.waiters|))
  {
  }

  /** The worker that a DHCP event starts begins its loop only after the signal to the waiter was
      sent, if there was one to send; the one that an interface event starts may begin at once. */
  lemma SendBeforeStart(s: System, info: Lease)
    requires Inv(s) && !s.view.running
    ensures var t := Step(s, DhcpEvent(info));
            && (Enabled(t, Spawn) <==> s.view.dhcpWaiter.None?)
            && (s.view.dhcpWaiter.Some? ==> Enabled(Step(t, SendSignal(|s.sends|)), Spawn))
    ensures Enabled(Step(s, IfaceEvent), Spawn)
  {
    if s.view.dhcpWaiter.Some? {
      var (k, t) := (s.view.dhcpWaiter.value, Step(s, DhcpEvent(info)));
      assert t.sends == s.sends + [k] && t.sends[|s.sends|] == k;
      assert t.sends[..|s.sends|] + t.sends[|s.sends| + 1..] == s.sends;
    }
  }

  function Starts(events: seq<Event>): nat {
    if events == [] then 0 else (if events[0] == StartUdhcpc(false) then 1 else 0) + Starts(events[1..])
  }

  /** In every run there are no more waiters than udhcpc was started. */
  lemma {:induction false} WaitersWereStarted(s: System, events: seq<Event>)
    ensures |Run(s, events).waiters| <= |s.waiters| + Starts(events)
    decreases |events|
  {
    if events != [] {
      hide Step;
      if Enabled(s, events[0]) {
        LeaseAndRegistrationChange(s, events[0]);
      }
      DisabledIsIdle(s, events[0]);
      WaitersWereStarted(Step(s, events[0]), events[1..]);
    }
  }

  lemma DisabledIsIdle(s: System, e: Event)
    ensures !Enabled(s, e) ==> Step(s, e) == s
  {
  }

  /** A drain with anything to report begins a pass. The interface part of it, which is there
      exactly when an interface change was reported, may start udhcpc, and then only the DHCP part
      may still stop it; after a stop neither is possible, and every pass comes back to a drain. */
  lemma WhatAPassMayDo(s: System, b: bool)
    requires WorkerInv(s) && Enabled(s, DrainPass)
    ensures var t := Step(s, DrainPass);
            && (t.workers == [Exiting] <==> !s.view.ifaceChange && !s.view.dhcpChange)
            && (CanStop(t) <==> s.view.ifaceChange || s.view.dhcpChange)
            && (Enabled(t, EndPass) <==> s.view.ifaceChange || s.view.dhcpChange)
            && (Enabled(t, StartUdhcpc(b)) <==> s.view.ifaceChange)
            && var (u, v) := (Step(t, StartUdhcpc(b)), Step(t, StopUdhcpc));
            && (s.view.ifaceChange ==>
                  (CanStop(u) <==> s.view.dhcpChange) && !Enabled(u, StartUdhcpc(b)) && Enabled(u, EndPass))
            && !CanStop(v) && !Enabled(v, StartUdhcpc(b))
            && (Enabled(t, EndPass) ==> Enabled(Step(t, EndPass), DrainPass) && Enabled(v, EndPass))
  {
    var t := Step(s, DrainPass);
    var (iface, dhcp) := (s.view.ifaceChange, s.view.dhcpChange);
    assert t.workers == [if !iface && !dhcp then Exiting else Passing(iface, dhcp)];
    assert Enabled(t, StartUdhcpc(b)) ==> Step(t, StartUdhcpc(b)).workers == [Passing(false, dhcp)];
    assert Enabled(t, StopUdhcpc) ==> Step(t, StopUdhcpc).workers == [Passing(false, false)];
    assert Enabled(t, EndPass) ==> Step(t, EndPass).workers == [Looping];
  }

  /** The lease of the last DHCP event, unless udhcpc was stopped after it. */
  ghost function KnownLease(events: seq<Event>): Option<Lease> {
    if events == [] then None
    else
      var (before, e) := (events[..|events| - 1], events[|events| - 1]);
      if e.DhcpEvent? then Some(e.info)
      else if e == StopUdhcpc && CanStop(Run(START, before)) then None
      else KnownLease(before)
  }

  /** In every run that is the lease on record, and every drain reports it. */
  lemma {:induction false} LeaseIsKnown(events: seq<Event>)
    ensures Run(START, events).view.lastDhcp == KnownLease(events)
    ensures Enabled(Run(START, events), DrainPass) ==>
              var reports := Run(START, events + [DrainPass]).reports;
              reports != [] && reports[|reports| - 1].dhcp == KnownLease(events)
  {
    var s := Run(START, events);
    if events == [] {
    } else {
      hide Step, Run;
      var (before, e) := (events[..|events| - 1], events[|events| - 1]);
      assert before + [e] == events;
      LeaseIsKnown(before);
      RunSnoc(START, before, e);
      if Enabled(Run(START, before), e) {
        LeaseAndRegistrationChange(Run(START, before), e);
      }
      DisabledIsIdle(Run(START, before), e);
    }
    RunSnoc(START, events, DrainPass);
    if Enabled(s, DrainPass) {
      DrainReports(s, Dhcp);
    }
  }

  /** The two kinds of change, each with its flag and its marks. */
  datatype Kind = Iface | Dhcp

  function KindOf(e: Event): Kind {
    if e.DhcpEvent? then Dhcp else Iface
  }

  predicate Flag(v: View, k: Kind) {
    if k == Iface then v.ifaceChange else v.dhcpChange
  }

  predicate Reports(p: Pending, k: Kind) {
    if k == Iface then p.ifaceChange else p.dhcpChange
  }

  function Marks(s: System, k: Kind): seq<bool> {
    if k == Iface then s.late else s.lateDhcp
  }

  predicate IsMark(e: Event) {
    e.IfaceEvent? || e.DhcpEvent?
  }

  /** A flag is taken down only by a drain, which reports it, or, for DHCP, when udhcpc is stopped. */
  lemma OnlyADrainClears(s: System, e: Event, k: Kind)
    requires Flag(s.view, k) && !Flag(Step(s, e).view, k)
    ensures (k == Dhcp && e == StopUdhcpc)
            || (e == DrainPass && |Step(s, e).reports| == |s.reports| + 1
                && Step(s, e).reports[..|s.reports|] == s.reports && Reports(Step(s, e).reports[|s.reports|], k))
  {
  }

  /** A flag that no worker will read was set only by marks between the worker's last, empty
      drain and its Finish. */
  lemma StrandedFlagWasMarkedInWindow(events: seq<Event>, k: Kind)
    ensures var s := Run(START, events);
            Flag(s.view, k) && s.workers == [] ==>
              Marks(s, k) != [] && forall i :: 0 <= i < |Marks(s, k)| ==> Marks(s, k)[i]
  {
    hide Run;
    StartIsGood();
    RunKeepsInv(START, events);
  }

  // ----- the fate of a mark -----

  /** The last word on DHCP among these events is that a pass stopped udhcpc. */
  ghost predicate Withdrawn(s: System, k: Kind, events: seq<Event>) {
    k == Dhcp && exists i :: StopsAt(s, events, i) && NoDhcpAfter(events, i)
  }

  ghost predicate StopsAt(s: System, events: seq<Event>, i: nat) {
    i < |events| && events[i] == StopUdhcpc && CanStop(Run(s, events[..i]))
  }

  predicate NoDhcpAfter(events: seq<Event>, i: nat) {
    forall j :: i < j < |events| ==> !events[j].DhcpEvent?
  }

  /** The lease of the last DHCP event, or the one there was. */
  function LatestLease(before: Option<Lease>, events: seq<Event>): Option<Lease> {
    if events == [] then before
    else
      var e := events[|events| - 1];
      if e.DhcpEvent? then Some(e.info) else LatestLease(before, events[..|events| - 1])
  }

  /** A worker is there that must drain before it can finish. */
  predicate MustDrain(s: System) {
    s.view.running && |s.workers| == 1 && s.workers[0] != Exiting
  }

  /** The change is still flagged, or was withdrawn. */
  ghost predicate Pends(s: System, r: System, k: Kind, events: seq<Event>) {
    && (Flag(r.view, k) <==> !Withdrawn(s, k, events))
    && (k == Dhcp && Flag(r.view, k) ==> r.view.lastDhcp == LatestLease(s.view.lastDhcp, events))
  }

  /** The report tells of the change unless it was withdrawn before. */
  ghost predicate Tells(s: System, p: Pending, k: Kind, before: seq<Event>) {
    && (Reports(p, k) <==> !Withdrawn(s, k, before))
    && (k == Dhcp && Reports(p, k) ==> p.dhcp == LatestLease(s.view.lastDhcp, before))
  }

  /** `events[i]` is the first drain after `s`. */
  ghost predicate FirstDrain(s: System, events: seq<Event>, i: int) {
    && 0 <= i < |events| && events[i] == DrainPass
    && |Run(s, events[..i]).reports| == |s.reports| && Enabled(Run(s, events[..i]), DrainPass)
  }

  /** Before the next drain the change pends and a worker must make that drain; afterwards the
      drain has told of it, unless a pass stopped udhcpc after the last DHCP event before it. */
  ghost predicate Fate(s: System, k: Kind, events: seq<Event>) {
    var (r, n) := (Run(s, events), |s.reports|);
    if |r.reports| <= n then
      |r.reports| == n && MustDrain(r) && Pends(s, r, k, events)
    else
      exists i :: FirstDrain(s, events, i) && Tells(s, r.reports[n], k, events[..i])
  }

  lemma {:induction false} RunSnoc(s: System, events: seq<Event>, e: Event)
    ensures Run(s, events + [e]) == Step(Run(s, events), e)
    decreases |events|
  {
    if events == [] {
      RunCons(s, e, []);
      assert [e] + [] == [e];
    } else {
      RunCons(s, events[0], events[1..]);
      RunCons(s, events[0], events[1..] + [e]);
      assert [events[0]] + events[1..] == events;
      assert [events[0]] + (events[1..] + [e]) == events + [e];
      RunSnoc(Step(s, events[0]), events[1..], e);
    }
  }

  lemma WithdrawnSnoc(s: System, k: Kind, events: seq<Event>, e: Event)
    ensures Withdrawn(s, k, events + [e])
            <==> k == Dhcp && ((e == StopUdhcpc && CanStop(Run(s, events)))
                               || (!e.DhcpEvent? && Withdrawn(s, k, events)))
  {
    hide Run, CanStop;
    var all := events + [e];
    assert all[|events|] == e && all[..|events|] == events;
    assert forall j :: 0 <= j < |events| ==> all[j] == events[j];
    forall i: nat | i < |events|
      ensures StopsAt(s, all, i) <==> StopsAt(s, events, i)
      ensures NoDhcpAfter(all, i) <==> !e.DhcpEvent? && NoDhcpAfter(events, i)
    {
      assert all[..i] == events[..i];
    }
    assert NoDhcpAfter(all, |events|);
    if e == StopUdhcpc && CanStop(Run(s, events)) {
      assert StopsAt(s, all, |events|);
    }
  }

  lemma LatestSnoc(before: Option<Lease>, events: seq<Event>, e: Event)
    ensures LatestLease(before, events + [e]) == if e.DhcpEvent? then Some(e.info) else LatestLease(before, events)
  {
    assert (events + [e])[..|events|] == events;
  }

  lemma {:induction false} MarkMeetsItsFate(s: System, k: Kind, events: seq<Event>)
    requires MustDrain(s) && Flag(s.view, k)
    ensures Fate(s, k, events)
    decreases |events|
  {
    if events == [] {
      assert !Withdrawn(s, k, events);
    } else {
      hide Run, Step, Flag, Reports, MustDrain, Withdrawn, LatestLease, Enabled, CanStop;
      var (before, e) := (events[..|events| - 1], events[|events| - 1]);
      assert before + [e] == events;
      MarkMeetsItsFate(s, k, before);
      RunSnoc(s, before, e);
      WithdrawnSnoc(s, k, before, e);
      LatestSnoc(s.view.lastDhcp, before, e);
      var (r, n) := (Run(s, before), |s.reports|);
      ReportsOnlyGrow(r, e);
      if |r.reports| > n {
        var i :| FirstDrain(s, before, i) && Tells(s, r.reports[n], k, before[..i]);
        assert events[..i] == before[..i];
        assert FirstDrain(s, events, i);
      } else if e == DrainPass && Enabled(r, e) {
        DrainReports(r, k);
        assert events[..|before|] == before;
        assert FirstDrain(s, events, |before|);
      } else {
        PendsOn(r, e, k);
      }
    }
  }

  lemma ReportsOnlyGrow(s: System, e: Event)
    ensures s.reports <= Step(s, e).reports
  {
  }

  lemma DrainReports(s: System, k: Kind)
    requires Enabled(s, DrainPass)
    ensures var reports := Step(s, DrainPass).reports;
            && |reports| == |s.reports| + 1
            && (Reports(reports[|s.reports|], k) <==> Flag(s.view, k))
            && reports[|s.reports|].dhcp == s.view.lastDhcp
  {
  }

  lemma PendsOn(s: System, e: Event, k: Kind)
    requires MustDrain(s) && !(e == DrainPass && Enabled(s, e))
    ensures var r := Step(s, e);
            && r.reports == s.reports && MustDrain(r)
            && (Flag(r.view, k) <==> if KindOf(e) == k && IsMark(e) then true
                                     else Flag(s.view, k) && !(k == Dhcp && e == StopUdhcpc && CanStop(s)))
            && (!(e == StopUdhcpc && CanStop(s)) ==>
                  r.view.lastDhcp == if e.DhcpEvent? then Some(e.info) else s.view.lastDhcp)
  {
    assert s.workers[1..] == [];
  }

  /** An event outside the window, of either kind, meets its fate whatever follows: the first
      drain after it tells of it, with the latest lease, if and only if it was not withdrawn. */
  lemma EventOutsideWindowIsReported(s: System, e: Event, events: seq<Event>)
    requires Inv(s) && !InWindow(s) && IsMark(e)
    ensures |Step(s, e).reports| == |s.reports| && Fate(Step(s, e), KindOf(e), events)
  {
    hide Fate;
    MarkOutsideWindow(s, e);
    MarkMeetsItsFate(Step(s, e), KindOf(e), events);
  }

  ghost predicate Stranded(s: System, k: Kind, n: nat) {
    Flag(s.view, k) && !s.view.running && s.workers == [] && |s.reports| == n
  }

  /** The worker that is about to end, if it has not ended, makes no drain and no pass. */
  lemma {:induction false} NoDrainComes(s: System, events: seq<Event>, k: Kind)
    requires Inv(s) && Flag(s.view, k) && (s.workers == [] || s.workers == [Exiting])
    requires forall i :: 0 <= i < |events| ==> !IsMark(events[i])
    ensures var r := Run(s, events);
            && r.reports == s.reports && Inv(r) && Flag(r.view, k)
            && r.workers == if FinishWorker in events then [] else s.workers
    decreases |events|
  {
    if events != [] {
      hide Run, Step, Flag, InWindow, WorkerInv, LeaseInv, WaiterInv, MarkInv;
      var (before, e) := (events[..|events| - 1], events[|events| - 1]);
      assert before + [e] == events;
      NoDrainComes(s, before, k);
      RunSnoc(s, before, e);
      OneStepKeepsInv(Run(s, before), e);
      NoDrainInStep(Run(s, before), e, k);
    }
  }

  lemma NoDrainInStep(s: System, e: Event, k: Kind)
    requires s.workers == [] || s.workers == [Exiting]
    requires !IsMark(e)
    ensures var r := Step(s, e);
            && r.reports == s.reports
            && (Flag(r.view, k) <==> Flag(s.view, k))
            && r.workers == if e == FinishWorker then [] else s.workers
  {
  }

  /** An event inside the window: until some other event comes no drain reports it, whatever
      else happens, and once the worker has finished it is stranded. */
  lemma EventInWindowIsStranded(s: System, e: Event, events: seq<Event>)
    requires Inv(s) && InWindow(s) && IsMark(e)
    requires FinishWorker in events && forall i :: 0 <= i < |events| ==> !IsMark(events[i])
    ensures Stranded(Run(Step(s, e), events), KindOf(e), |s.reports|)
  {
    hide Run;
    MarkOutsideWindow(s, e);
    OneStepKeepsInv(s, e);
    NoDrainComes(Step(s, e), events, KindOf(e));
  }

  lemma OneStepKeepsInv(s: System, e: Event)
    requires Inv(s)
    ensures Inv(Step(s, e))
  {
    hide Step, WorkerInv, LeaseInv, WaiterInv, MarkInv;
    StepKeepsWorkers(s, e);
    StepKeepsMarks(s, e);
    StepKeepsLeases(s, e);
    StepKeepsWaiters(s, e);
  }

  /** Any next event, of either kind, starts a worker, and a stranded change of either kind is
      reported by that worker's first drain. */
  lemma NextEventRescues(s: System, k: Kind, e: Event, events: seq<Event>)
    requires Stranded(s, k, |s.reports|) && IsMark(e)
    ensures Step(s, e).workers == [Spawning(if e.DhcpEvent? then s.view.dhcpWaiter else None)]
    ensures Fate(Step(s, e), k, events)
    ensures var r := Run(Step(s, e), events); |r.reports| > |s.reports| ==> Reports(r.reports[|s.reports|], k)
  {
    hide Fate, Run;
    MarkMeetsItsFate(Step(s, e), k, events);
    RunKeepsCertain(Step(s, e), k, events, |s.reports|);
  }

  /** So an event of either kind can be left unreported without a worker exactly when it falls in
      the window. */
  lemma StrandedIffInWindow(s: System, e: Event)
    requires Inv(s) && IsMark(e)
    ensures (exists events :: Stranded(Run(Step(s, e), events), KindOf(e), |s.reports|)) <==> InWindow(s)
  {
    hide Run, Step;
    if InWindow(s) {
      EventInWindowIsStranded(s, e, [FinishWorker]);
      assert Stranded(Run(Step(s, e), [FinishWorker]), KindOf(e), |s.reports|);
    } else {
      forall events
        ensures !Stranded(Run(Step(s, e), events), KindOf(e), |s.reports|)
      {
        EventOutsideWindowIsReported(s, e, events);
      }
    }
  }

  // ----- which leases can be lost -----

  /** The `n`-th drain, once it is made, tells of the change, and nothing can withdraw it before. */
  ghost predicate Certain(s: System, k: Kind, n: nat) {
    if |s.reports| > n then Reports(s.reports[n], k)
    else |s.reports| == n && Flag(s.view, k) && (k == Dhcp ==> !CanStop(s))
  }

  lemma StepKeepsCertain(s: System, e: Event, k: Kind, n: nat)
    requires WorkerInv(s) && Certain(s, k, n)
    ensures Certain(Step(s, e), k, n)
  {
    if !Enabled(s, e) {
    } else if e == DrainPass {
      DrainReports(s, k);
      assert Step(s, e).reports[..|s.reports|] == s.reports;
    } else {
      NoOtherDrains(s, e);
    }
  }

  lemma NoOtherDrains(s: System, e: Event)
    requires WorkerInv(s) && e != DrainPass
    ensures Step(s, e).reports == s.reports
    ensures CanStop(Step(s, e)) ==> CanStop(s)
    ensures s.view.ifaceChange ==> Step(s, e).view.ifaceChange
    ensures s.view.dhcpChange && !CanStop(s) ==> Step(s, e).view.dhcpChange
  {
  }

  lemma {:induction false} RunKeepsCertain(s: System, k: Kind, events: seq<Event>, n: nat)
    requires WorkerInv(s) && Certain(s, k, n)
    ensures Certain(Run(s, events), k, n)
    decreases |events|
  {
    hide Step, Certain, WorkerInv;
    if events != [] {
      StepKeepsWorkers(s, events[0]);
      StepKeepsCertain(s, events[0], k, n);
      RunKeepsCertain(Step(s, events[0]), k, events[1..], n);
    }
  }

  /** A drain came after `n` of them and the first did not tell of a DHCP change. */
  predicate Untold(r: System, n: nat) {
    |r.reports| > n && !r.reports[n].dhcpChange
  }

  /** The first drain after a DHCP event can come to miss it if and only if the event falls in a
      pass that can still stop udhcpc. One that starts a worker, comes before the worker's first
      drain, between passes or in the window is always in the next report. */
  lemma LeaseCanBeLostIffInPass(s: System, info: Lease)
    requires Inv(s)
    ensures (exists events :: Untold(Run(Step(s, DhcpEvent(info)), events), |s.reports|)) <==> CanStop(s)
  {
    hide Run;
    var t := Step(s, DhcpEvent(info));
    if CanStop(s) {
      LosesLease(s, info);
      assert Untold(Run(t, [StopUdhcpc, EndPass, DrainPass]), |s.reports|);
    } else {
      forall events
        ensures !Untold(Run(t, events), |s.reports|)
      {
        NoOtherDrains(s, DhcpEvent(info));
        StepKeepsWorkers(s, DhcpEvent(info));
        RunKeepsCertain(t, Dhcp, events, |s.reports|);
      }
    }
  }

  lemma LosesLease(s: System, info: Lease)
    requires Inv(s) && CanStop(s)
    ensures Untold(Run(Step(s, DhcpEvent(info)), [StopUdhcpc, EndPass, DrainPass]), |s.reports|)
  {
    hide Run;
    var t := Step(s, DhcpEvent(info));
    MarkOutsideWindow(s, DhcpEvent(info));
    RunOfFour(s, DhcpEvent(info), StopUdhcpc, EndPass, DrainPass);
    RunCons(s, DhcpEvent(info), [StopUdhcpc, EndPass, DrainPass]);
    assert [DhcpEvent(info)] + [StopUdhcpc, EndPass, DrainPass] == [DhcpEvent(info), StopUdhcpc, EndPass, DrainPass];
    var t1 := Step(t, StopUdhcpc);
    assert t1.workers == [Passing(false, false)] && !t1.view.dhcpChange && t1.reports == s.reports;
    var t2 := Step(t1, EndPass);
    assert t2.workers == [Looping] && !t2.view.dhcpChange && t2.reports == s.reports;
    DrainReports(t2, Dhcp);
  }

  /** A whole run in which that happens. An interface event starts a worker; while it passes, a
      lease comes and udhcpc is stopped, and the next drain is empty. */
  lemma WithdrawnLeaseIsNotReported(info: Lease)
    ensures var s := Run(START, [IfaceEvent, Spawn, DrainPass, DhcpEvent(info), StopUdhcpc, EndPass, DrainPass]);
            s.reports == [Pending(true, false, None), Pending(false, false, None)] && InWindow(s)
  {
    hide Run;
    var s1 := InPass();
    var s2 := s1.(view := View(true, false, true, Some(info), None), lateDhcp := [false]);
    assert Step(s1, DhcpEvent(info)) == s2;
    var s3 := s2.(view := View(true, false, false, None, None), lateDhcp := [], workers := [Passing(false, false)]);
    assert Step(s2, StopUdhcpc) == s3;
    assert Step(s3, EndPass) == s3.(workers := [Looping]);
    RunOfFour(s1, DhcpEvent(info), StopUdhcpc, EndPass, DrainPass);
    RunConcat(START, [IfaceEvent, Spawn, DrainPass], [DhcpEvent(info), StopUdhcpc, EndPass, DrainPass]);
    assert [IfaceEvent, Spawn, DrainPass] + [DhcpEvent(info), StopUdhcpc, EndPass, DrainPass]
           == [IfaceEvent, Spawn, DrainPass, DhcpEvent(info), StopUdhcpc, EndPass, DrainPass];
  }

  /** The state in the first pass, after an interface event. */
  lemma InPass() returns (s: System)
    ensures s == START.(view := INITIAL.(running := true), workers := [Passing(true, false)],
                        reports := [Pending(true, false, None)])
    ensures s == Run(START, [IfaceEvent, Spawn, DrainPass])
  {
    var s1 := START.(view := INITIAL.(running := true, ifaceChange := true), workers := [Spawning(None)],
                     late := [false]);
    assert Step(START, IfaceEvent) == s1;
    var s2 := s1.(workers := [Looping]);
    assert Step(s1, Spawn) == s2;
    s := Step(s2, DrainPass);
    RunCons(START, IfaceEvent, [Spawn, DrainPass]);
    RunCons(s1, Spawn, [DrainPass]);
    RunCons(s2, DrainPass, []);
    RunOfNone(s);
    assert [IfaceEvent] + [Spawn, DrainPass] == [IfaceEvent, Spawn, DrainPass];
    assert [Spawn] + [DrainPass] == [Spawn, DrainPass] && [DrainPass] + [] == [DrainPass];
  }

  lemma {:induction false} RunConcat(s: System, a: seq<Event>, b: seq<Event>)
    ensures Run(s, a + b) == Run(Run(s, a), b)
    decreases |a|
  {
    if a == [] {
      assert a + b == b;
    } else {
      RunCons(s, a[0], a[1..] + b);
      assert [a[0]] + (a[1..] + b) == a + b;
      RunConcat(Step(s, a[0]), a[1..], b);
    }
  }

  lemma RunOfFour(s: System, a: Event, b: Event, c: Event, d: Event)
    ensures Run(s, [a, b, c, d]) == Step(Step(Step(Step(s, a), b), c), d)
  {
    hide Step;
    RunCons(s, a, [b, c, d]);
    RunCons(Step(s, a), b, [c, d]);
    RunCons(Step(Step(s, a), b), c, [d]);
    assert [a] + [b, c, d] == [a, b, c, d] && [b] + [c, d] == [b, c, d] && [c] + [d] == [c, d];
    assert [d][1..] == [];
  }

  // ----- the timer of a waiter -----

  predicate IsLive(s: System, k: Waiter) {
    k < |s.waiters| && !s.waiters[k].ended
  }

  /** A waiter that has not ended is no longer the registered one. */
  ghost predicate HasLiveOutsider(s: System) {
    exists k: Waiter :: IsLive(s, k) && s.view.dhcpWaiter != Some(k)
  }

  /** The timer of waiter `k` can fire and would remove the registration of another waiter. */
  predicate HitsAnother(s: System, k: Waiter) {
    Enabled(s, Timeout(k)) && s.view.dhcpWaiter.Some? && s.view.dhcpWaiter != Some(k)
  }

  ghost predicate NoDhcpEvent(events: seq<Event>) {
    forall i :: 0 <= i < |events| ==> !events[i].DhcpEvent?
  }

  /** Events without a lease after which the timer of `k` hits another waiter. */
  ghost predicate LeadsToHit(s: System, events: seq<Event>, k: Waiter) {
    NoDhcpEvent(events) && HitsAnother(Run(s, events), k)
  }

  lemma {:induction false} NoOutsiderAppears(s: System, events: seq<Event>)
    requires !HasLiveOutsider(s) && NoDhcpEvent(events)
    ensures !HasLiveOutsider(Run(s, events))
    decreases |events|
  {
    if events != [] {
      var r := Step(s, events[0]);
      forall k: Waiter | IsLive(r, k)
        ensures r.view.dhcpWaiter == Some(k)
      {
        hide Run;
        assert k < |s.waiters| ==> IsLive(s, k);
        assert events[0].Timeout? && Enabled(s, events[0]) ==> IsLive(s, events[0].waiter);
      }
      NoOutsiderAppears(r, events[1..]);
    }
  }

  /** Nothing moves but the worker and the signals under way. */
  predicate SameWaiters(s: System, r: System) {
    && r.view.dhcpWaiter == s.view.dhcpWaiter && |r.waiters| == |s.waiters|
    && forall k :: 0 <= k < |s.waiters| ==> r.waiters[k].ended == s.waiters[k].ended
  }

  /** From any state the worker, or a new one, can come into the interface part of a pass. */
  lemma ReachesPass(s: System) returns (events: seq<Event>)
    requires Inv(s)
    ensures NoDhcpEvent(events)
    ensures var r := Run(s, events);
            SameWaiters(s, r) && r.workers != [] && r.workers[0].Passing? && r.workers[0].iface
  {
    hide Run, WaiterInv, LeaseInv, MarkInv, CanStop, NoDhcpEvent;
    var before := SendsBeforeSpawn(s);
    var t := Run(s, before);
    FiveSteps(t);
    var steps := [FinishWorker, IfaceEvent, Spawn, EndPass, DrainPass];
    RunOfFour(t, FinishWorker, IfaceEvent, Spawn, EndPass);
    RunSnoc(t, [FinishWorker, IfaceEvent, Spawn, EndPass], DrainPass);
    assert [FinishWorker, IfaceEvent, Spawn, EndPass] + [DrainPass] == steps;
    RunConcat(s, before, steps);
    NoDhcpConcat(before, steps);
    events := before + steps;
  }

  lemma NoDhcpConcat(a: seq<Event>, b: seq<Event>)
    requires NoDhcpEvent(a) && NoDhcpEvent(b)
    ensures NoDhcpEvent(a + b)
  {
  }

  /** A worker about to be started is started, once the send before it was made. */
  lemma SendsBeforeSpawn(s: System) returns (events: seq<Event>)
    requires Inv(s)
    ensures NoDhcpEvent(events)
    ensures var r := Run(s, events);
            SameWaiters(s, r) && WorkerInv(r) && (r.workers != [] && r.workers[0].Spawning? ==> CanSpawn(r))
  {
    events := [];
    if s.workers != [] && s.workers[0].Spawning? && !CanSpawn(s) {
      hide Step, Run, WaiterInv;
      var i: nat :| i < |s.sends| && s.sends[i] == s.workers[0].after.value;
      events := [SendSignal(i)];
      RunCons(s, SendSignal(i), []);
      RunOfNone(Step(s, SendSignal(i)));
      assert [SendSignal(i)] + [] == [SendSignal(i)];
      SentIsGone(s, i);
    } else {
      RunOfNone(s);
    }
  }

  lemma SentIsGone(s: System, i: nat)
    requires WaiterInv(s) && i < |s.sends|
    ensures var r := Step(s, SendSignal(i));
            SameWaiters(s, r) && r.workers == s.workers && r.view == s.view && s.sends[i] !in r.sends
  {
    var rest := s.sends[..i] + s.sends[i + 1..];
    assert forall j :: 0 <= j < |rest| ==> rest[j] == s.sends[if j < i then j else j + 1];
  }

  lemma FiveSteps(t: System)
    requires WorkerInv(t) && (t.workers != [] && t.workers[0].Spawning? ==> CanSpawn(t))
    ensures var r := Step(Step(Step(Step(Step(t, FinishWorker), IfaceEvent), Spawn), EndPass), DrainPass);
            SameWaiters(t, r) && r.workers != [] && r.workers[0].Passing? && r.workers[0].iface
  {
    assert t.workers == [] || t.workers == [t.workers[0]];
    var t1 := Step(t, FinishWorker);
    assert t1.workers == if t.workers == [Exiting] then [] else t.workers;
    var t2 := Step(t1, IfaceEvent);
    assert t2.workers == if t1.workers == [] then [Spawning(None)] else t1.workers;
    assert SameWaiters(t, t2) && t2.view.ifaceChange;
    ThreeSteps(t2);
  }

  lemma ThreeSteps(t: System)
    requires |t.workers| == 1 && t.workers[0] != Exiting && (t.workers[0].Spawning? ==> CanSpawn(t))
    requires t.view.ifaceChange
    ensures var r := Step(Step(Step(t, Spawn), EndPass), DrainPass);
            SameWaiters(t, r) && r.workers != [] && r.workers[0].Passing? && r.workers[0].iface
  {
    assert t.workers == [t.workers[0]];
    var t3 := Step(t, Spawn);
    assert t3.workers == if t.workers[0].Spawning? then [Looping] else t.workers;
    var t4 := Step(t3, EndPass);
    assert t4.workers == [Looping] && t4.view.ifaceChange;
  }

  /** Another waiter registers in that pass, and the timer of `k` would hit it. */
  lemma AnotherRegisters(s: System, k: Waiter) returns (events: seq<Event>)
    requires Inv(s) && IsLive(s, k) && s.view.dhcpWaiter == None
    ensures LeadsToHit(s, events, k)
  {
    hide Run, WorkerInv, WaiterInv, LeaseInv, MarkInv, CanStop, NoDhcpEvent;
    var before := ReachesPass(s);
    RunSnoc(s, before, StartUdhcpc(false));
    NoDhcpStart();
    NoDhcpConcat(before, [StartUdhcpc(false)]);
    events := before + [StartUdhcpc(false)];
  }

  lemma NoDhcpStart()
    ensures NoDhcpEvent([StartUdhcpc(false)])
  {
  }

  /** Without a further lease, some timer can come to remove another waiter's registration if
      and only if a live waiter is not the registered one now. Only a lease, which takes the
      registration from a waiter before it ends, makes such a waiter. */
  lemma TimeoutHitsAnotherIff(s: System)
    requires Inv(s)
    ensures HasLiveOutsider(s) <==> exists events: seq<Event>, k: Waiter :: LeadsToHit(s, events, k)
  {
    if HasLiveOutsider(s) {
      var k: Waiter :| IsLive(s, k) && s.view.dhcpWaiter != Some(k);
      if s.view.dhcpWaiter.Some? {
        assert LeadsToHit(s, [], k);
      } else {
        var events := AnotherRegisters(s, k);
      }
    } else {
      forall events: seq<Event>, k: Waiter
        ensures !LeadsToHit(s, events, k)
      {
        hide Run;
        if NoDhcpEvent(events) {
          NoOutsiderAppears(s, events);
          assert Enabled(Run(s, events), Timeout(k)) ==> IsLive(Run(s, events), k);
        }
      }
    }
  }

  /** A run in which that happens. In the first pass udhcpc is started and waiter 0 registers; a
      lease signals it; the next pass starts udhcpc again and waiter 1 registers. Then 0's timer
      wins over its signal, and 1 loses its registration. */
  lemma TimeoutClearsAnothersWaiter(info: Lease) returns (events: seq<Event>)
    ensures var s := Run(START, events);
            && |s.waiters| == 2 && Enabled(s, Timeout(0)) && s.view.dhcpWaiter == Some(1)
            && Step(s, Timeout(0)).view.dhcpWaiter == None && !Step(s, Timeout(0)).waiters[1].ended
  {
    hide Run, Step, Enabled;
    var s1 := InPass();
    var s5 := FirstWaiter(s1, info);
    var s6 := SecondPass(s5);
    StartedAgain(s6);
    var (first, second) := ([StartUdhcpc(false), DhcpEvent(info), SendSignal(0), IfaceEvent], [EndPass, DrainPass]);
    RunConcat(START, [IfaceEvent, Spawn, DrainPass], first);
    RunConcat(START, [IfaceEvent, Spawn, DrainPass] + first, second);
    RunSnoc(START, [IfaceEvent, Spawn, DrainPass] + first + second, StartUdhcpc(false));
    events := [IfaceEvent, Spawn, DrainPass] + first + second + [StartUdhcpc(false)];
  }

  lemma FirstWaiter(s: System, info: Lease) returns (r: System)
    requires s.workers == [Passing(true, false)] && s.view == INITIAL.(running := true)
    requires s.waiters == [] && s.sends == []
    ensures r == Run(s, [StartUdhcpc(false), DhcpEvent(info), SendSignal(0), IfaceEvent])
    ensures r.workers == [Passing(false, false)] && r.waiters == [WaiterState(1, 1, false)]
    ensures r.view == View(true, true, true, Some(info), None)
  {
    hide Run;
    var s2 := s.(view := s.view.(dhcpWaiter := Some(0)), waiters := [WaiterState(0, 0, false)],
                 workers := [Passing(false, false)]);
    assert Step(s, StartUdhcpc(false)) == s2;
    var s3 := s2.(view := View(true, false, true, Some(info), None), sends := [0], lateDhcp := s.lateDhcp + [false]);
    assert Step(s2, DhcpEvent(info)) == s3;
    var s4 := s3.(waiters := [WaiterState(1, 1, false)], sends := []);
    assert Step(s3, SendSignal(0)) == s4;
    r := Step(s4, IfaceEvent);
    RunOfFour(s, StartUdhcpc(false), DhcpEvent(info), SendSignal(0), IfaceEvent);
  }

  lemma StartedAgain(s: System)
    requires s.workers == [Passing(true, true)] && s.waiters == [WaiterState(1, 1, false)] && s.view.dhcpWaiter == None
    ensures var r := Step(s, StartUdhcpc(false));
            && |r.waiters| == 2 && Enabled(r, Timeout(0)) && r.view.dhcpWaiter == Some(1)
            && Step(r, Timeout(0)).view.dhcpWaiter == None && !Step(r, Timeout(0)).waiters[1].ended
  {
  }

  lemma SecondPass(s: System) returns (r: System)
    requires s.workers == [Passing(false, false)] && s.view.ifaceChange && s.view.dhcpChange
    ensures r == Run(s, [EndPass, DrainPass])
    ensures r.workers == [Passing(true, true)] && r.waiters == s.waiters && r.view.dhcpWaiter == s.view.dhcpWaiter
  {
    hide Run;
    var s1 := s.(workers := [Looping]);
    assert Step(s, EndPass) == s1;
    r := Step(s1, DrainPass);
    RunCons(s, EndPass, [DrainPass]);
    RunCons(s1, DrainPass, []);
    assert [EndPass] + [DrainPass] == [EndPass, DrainPass] && [DrainPass] + [] == [DrainPass];
    RunOfNone(r);
  }

  lemma RunOfNone(s: System)
    ensures Run(s, []) == s
  {
  }

  lemma RunCons(s: System, e: Event, rest: seq<Event>)
    ensures Run(s, [e] + rest) == Run(Step(s, e), rest)
  {
    assert ([e] + rest)[1..] == rest;
  }
}
