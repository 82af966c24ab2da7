/** The control connection of backend/dhns/server.go: HandleConn serves one connection at a
    time, and closeConn is called by its reader and by writers that may be long out of date. */
module ControlSlot {
  import opened Wrappers

  /** The identity of a `net.Conn`. */
  type Conn = nat

  /** The field behind the lock, and every call of `Close` on a connection so far. */
  datatype View = View(lastConn: Option<Conn>, closed: seq<Conn>)

  function Offered(v: View, c: Conn): View {
    if v.lastConn.None? then v.(lastConn := Some(c)) else v.(closed := v.closed + [c])
  }

  function Released(v: View, c: Conn): View {
    if v.lastConn == Some(c) then View(None, v.closed + [c]) else v
  }

  class Slot {
    var lastConn: Option<Conn>
    var closed: seq<Conn>

    function Now(): View
      reads this
    {
      View(lastConn, closed)
    }

    /** HandleConn up to its read loop. */
    method HandleConn(c: Conn) returns (serves: bool)
      modifies this
      ensures Now() == Offered(old(Now()), c) && serves == old(lastConn).None?
    {
      var hasConn := false;
      if lastConn.None? {
        lastConn := Some(c);
      } else {
        hasConn := true;
      }
      if hasConn {
        closed := closed + [c];
        return false;
      }
      return true;
    }

    method CloseConn(c: Conn)
      modifies this
      ensures Now() == Released(old(Now()), c)
    {
      var last: Option<Conn> := None;
      if lastConn == Some(c) {
        last := lastConn;
        lastConn := None;
      }
      if last.Some? {
        closed := closed + [last.value];
      }
    }
  }

  // ----- connections coming and failing -----

  datatype System = System(view: View, offered: set<Conn>, served: set<Conn>)

  /** A connection comes in, or the reader or a writer of one that was served gives up on it. */
  datatype Event = Offer(c: Conn) | Fail(c: Conn)

  const START := System(View(None, []), {}, {})

  predicate Enabled(s: System, e: Event) {
    if e.Offer? then e.c !in s.offered else e.c in s.served
  }

  function Step(s: System, e: Event): System {
    if !Enabled(s, e) then s
    else match e
      case Offer(c) =>
        System(Offered(s.view, c), s.offered + {c}, if s.view.lastConn.None? then s.served + {c} else s.served)
      case Fail(c) => s.(view := Released(s.view, c))
  }

  function Run(s: System, events: seq<Event>): System
    decreases |events|
  {
    if events == [] then s else Run(Step(s, events[0]), events[1..])
  }

  ghost predicate Inv(s: System) {
    && (forall i, j :: 0 <= i < j < |s.view.closed| ==> s.view.closed[i] != s.view.closed[j])
    && (forall c :: c in s.view.closed ==> c in s.offered)
    && (s.view.lastConn.Some? ==> s.view.lastConn.value in s.served && s.view.lastConn.value !in s.view.closed)
    && (forall c :: c in s.offered ==> s.view.lastConn == Some(c) || c in s.view.closed)
    && s.served <= s.offered
  }

  lemma {:induction false} RunKeepsInv(s: System, events: seq<Event>)
    requires Inv(s)
    ensures Inv(Run(s, events))
    decreases |events|
  {
    if events != [] {
      RunKeepsInv(Step(s, events[0]), events[1..]);
    }
  }

  /** In every run each connection that came in is either the one being served or was closed,
      and none is closed twice, however often its reader and writers give up on it. */
  lemma ServedOrClosedOnce(events: seq<Event>, c: Conn)
    ensures var s := Run(START, events);
            c in s.offered ==>
              && (s.view.lastConn == Some(c) <==> c !in s.view.closed)
              && (forall i, j :: 0 <= i < j < |s.view.closed| && s.view.closed[i] == c ==> s.view.closed[j] != c)
  {
    hide Run;
    RunKeepsInv(START, events);
  }

  /** A connection that is being served stays so until its own reader or writer gives up on it:
      newcomers are closed, and what others give up on has no effect. */
  lemma {:induction false} OnlyItsOwnFailureReleases(s: System, events: seq<Event>, c: Conn)
    requires Inv(s) && s.view.lastConn == Some(c)
    requires forall i :: 0 <= i < |events| ==> events[i] != Fail(c)
    ensures var r := Run(s, events);
            && r.view.lastConn == Some(c) && r.served == s.served
            && forall x :: x in r.offered && x !in s.offered ==> x in r.view.closed
    decreases |events|
  {
    hide Inv;
    if events != [] {
      StepKeepsInv(s, events[0]);
      var next := Step(s, events[0]);
      OnlyItsOwnFailureReleases(next, events[1..], c);
      ClosedStaysClosed(next, events[1..]);
    }
  }

  lemma StepKeepsInv(s: System, e: Event)
    requires Inv(s)
    ensures Inv(Step(s, e))
  {
    assert Run(s, [e]) == Run(Step(s, e), []);
    RunKeepsInv(s, [e]);
  }

  lemma {:induction false} ClosedStaysClosed(s: System, events: seq<Event>)
    ensures s.view.closed <= Run(s, events).view.closed
    decreases |events|
  {
    if events != [] {
      ClosedStaysClosed(Step(s, events[0]), events[1..]);
    }
  }

  /** After its failure the slot is free, and whoever comes next is served. */
  lemma NextIsServed(s: System, c: Conn, stale: seq<Event>, next: Conn)
    requires Inv(s) && s.view.lastConn == Some(c) && next !in s.offered
    requires forall i :: 0 <= i < |stale| ==> stale[i].Fail?
    ensures var r := Step(Run(Step(s, Fail(c)), stale), Offer(next));
            r.view.lastConn == Some(next) && next in r.served && r.view.closed == s.view.closed + [c]
  {
    hide Run;
    StaleFailures(Step(s, Fail(c)), stale);
  }

  lemma {:induction false} StaleFailures(s: System, stale: seq<Event>)
    requires s.view.lastConn == None && forall i :: 0 <= i < |stale| ==> stale[i].Fail?
    ensures Run(s, stale) == s
    decreases |stale|
  {
    if stale != [] {
      StaleFailures(s, stale[1..]);
    }
  }
}
