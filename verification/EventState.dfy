/** backend/modules/dhns/runtime/state.go: the shared state behind one mutex, first as
    functions on values, then as the class whose methods carry them out. */
module EventState {
  import opened Wrappers

  datatype Lease = Lease(ip: string, gateway: string, subnet: string, dns: string)

  /** The identity of a waiter's channel. */
  type Waiter = nat

  datatype Pending = Pending(ifaceChange: bool, dhcpChange: bool, dhcp: Option<Lease>)

  datatype View = View(
    running: bool, ifaceChange: bool, dhcpChange: bool, lastDhcp: Option<Lease>, dhcpWaiter: Option<Waiter>)

  const INITIAL := View(false, false, false, None, None)

  function MarkIface(v: View): View {
    v.(ifaceChange := true, running := true)
  }

  function Drained(v: View): View {
    v.(ifaceChange := false, dhcpChange := false)
  }

  function Report(v: View): Pending {
    Pending(v.ifaceChange, v.dhcpChange, v.lastDhcp)
  }

  function Finished(v: View): View {
    v.(running := false)
  }

  function MarkDhcp(v: View, info: Lease): View {
    v.(dhcpWaiter := None, dhcpChange := true, lastDhcp := Some(info), running := true)
  }

  function WithoutDhcp(v: View): View {
    v.(lastDhcp := None, dhcpChange := false)
  }

  class State {
    var running: bool
    var ifaceChange: bool
    var dhcpChange: bool
    var lastDhcp: Option<Lease>
    var dhcpWaiter: Option<Waiter>

    function Now(): View
      reads this
    {
      View(running, ifaceChange, dhcpChange, lastDhcp, dhcpWaiter)
    }

    constructor ()
      ensures Now() == INITIAL
    {
      running, ifaceChange, dhcpChange, lastDhcp, dhcpWaiter := false, false, false, None, None;
    }

    method MarkIfaceChange() returns (start: bool)
      modifies this
      ensures Now() == MarkIface(old(Now())) && start == !old(running)
    {
      ifaceChange := true;
      start := EnsureRunningLocked();
    }

    method Drain() returns (pending: Pending)
      modifies this
      ensures Now() == Drained(old(Now())) && pending == Report(old(Now()))
    {
      pending := Pending(ifaceChange, dhcpChange, lastDhcp);
      ifaceChange := false;
      dhcpChange := false;
    }

    method Finish()
      modifies this
      ensures Now() == Finished(old(Now()))
    {
      running := false;
    }

    method RegisterDHCPWaiter(waiter: Waiter) returns (ok: bool)
      modifies this
      ensures ok == old(dhcpWaiter).None?
      ensures Now() == if ok then old(Now()).(dhcpWaiter := Some(waiter)) else old(Now())
    {
      if dhcpWaiter.Some? {
        return false;
      }
      dhcpWaiter := Some(waiter);
      return true;
    }

    method ClearDHCPWaiter()
      modifies this
      ensures Now() == old(Now()).(dhcpWaiter := None)
    {
      dhcpWaiter := None;
    }

    method MarkDHCPValid(info: Lease) returns (start: bool, notify: Option<Waiter>)
      modifies this
      ensures Now() == MarkDhcp(old(Now()), info) && start == !old(running) && notify == old(dhcpWaiter)
    {
      notify := dhcpWaiter;
      dhcpWaiter := None;
      dhcpChange := true;
      lastDhcp := Some(info);
      start := EnsureRunningLocked();
    }

    method ResetDHCP()
      modifies this
      ensures Now() == WithoutDhcp(old(Now()))
    {
      lastDhcp := None;
      dhcpChange := false;
    }

    method EnsureRunningLocked() returns (start: bool)
      modifies this`running
      ensures running && start == !old(running)
    {
      if running {
        return false;
      }
      running := true;
      return true;
    }
  }
}
