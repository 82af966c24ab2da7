/** NetworkOnlineChecker of backend/service/network-online.go: a cached verdict that is
    refreshed by at most one background check. */
module OnlineChecker {
  import opened Wrappers

  datatype Status = Detecting | FailedDns | FailedOffline | FailedSoftSource | Online

  /** Seconds for which a verdict is good. */
  const CHECK_OK := 90
  const CHECK_FAILED := 5

  /** The checker's fields; `lastCheck` is None for the zero time. */
  datatype View = View(lastCheck: Option<int>, checking: bool, status: Status, cacheKey: string)

  const INITIAL := View(None, false, Detecting, "")

  predicate Fresh(v: View, key: string, now: int) {
    v.cacheKey == key && v.lastCheck.Some?
    && v.lastCheck.value > now - (if v.status.Online? then CHECK_OK else CHECK_FAILED)
  }

  predicate StartsCheck(v: View, key: string, now: int) {
    !v.checking && !Fresh(v, key, now)
  }

  function Answer(v: View, key: string, now: int): Status {
    if v.checking then Detecting
    else if Fresh(v, key, now) || v.status.Online? then v.status
    else Detecting
  }

  function Asked(v: View, key: string, now: int): View {
    if StartsCheck(v, key, now) then v.(checking := true, status := if v.status.Online? then Online else Detecting)
    else v
  }

  /** What doCheck concludes from its probes; an empty feed URL counts as a good one. */
  function Verdict(dnsOk: bool, dialOk: bool, hasFeed: bool, feedOk: bool): (s: Status)
    ensures s != Detecting
    ensures s == Online <==> dnsOk && (!hasFeed || feedOk)
    ensures s == FailedSoftSource <==> dnsOk && hasFeed && !feedOk
    ensures s == FailedDns <==> !dnsOk && dialOk
    ensures s == FailedOffline <==> !dnsOk && !dialOk
  {
    if !dnsOk then if dialOk then FailedDns else FailedOffline
    else if hasFeed && !feedOk then FailedSoftSource
    else Online
  }

  function Checked(v: View, key: string, now: int, verdict: Status): View {
    View(Some(now), false, verdict, key)
  }

  class Checker {
    var lastCheck: Option<int>
    var checking: bool
    var status: Status
    var cacheKey: string

    function Now(): View
      reads this
    {
      View(lastCheck, checking, status, cacheKey)
    }

    constructor ()
      ensures Now() == INITIAL
    {
      lastCheck, checking, status, cacheKey := None, false, Detecting, "";
    }

    /** The part under the lock; `needCheck` makes the caller start doCheck. */
    method GetStatus(key: string, now: int) returns (lastStatus: Status, needCheck: bool)
      modifies this
      ensures lastStatus == Answer(old(Now()), key, now)
      ensures needCheck == StartsCheck(old(Now()), key, now)
      ensures Now() == Asked(old(Now()), key, now)
    {
      lastStatus := Detecting;
      if checking {
        needCheck := false;
      } else {
        lastStatus := status;
        var checkSec := if lastStatus == Online then CHECK_OK else CHECK_FAILED;
        if cacheKey == key && lastCheck.Some? && lastCheck.value > now - checkSec {
          needCheck := false;
        } else {
          needCheck := true;
          checking := true;
          if lastStatus != Online {
            status := Detecting;
            lastStatus := Detecting;
          }
        }
      }
    }

    /** The end of doCheck. */
    method FinishCheck(key: string, now: int, verdict: Status)
      modifies this
      ensures Now() == Checked(old(Now()), key, now, verdict)
    {
      lastCheck := Some(now);
      cacheKey := key;
      status := verdict;
      checking := false;
    }

    method Reset()
      modifies this
      ensures Now() == old(Now()).(lastCheck := None)
    {
      lastCheck := None;
    }
  }

  // ----- the checker among its callers -----

  datatype Check = Check(key: string, at: int, verdict: Status)

  /** The checker, the clock, the keys of the checks in flight, and the checks that ended. */
  datatype System = System(view: View, now: int, inFlight: seq<string>, ended: seq<Check>)

  /** A call of GetStatus reads the clock before it takes the lock, so it may come with an
      earlier time. */
  datatype Event =
    | Elapse(seconds: nat)
    | Get(key: string, read: int)
    | EndCheck(dnsOk: bool, dialOk: bool, hasFeed: bool, feedOk: bool)
    | Reset

  const START := System(INITIAL, 0, [], [])

  function Step(s: System, e: Event): System {
    match e
    case Elapse(n) => s.(now := s.now + n)
    case Get(key, read) =>
      if read > s.now then s
      else
        s.(view := Asked(s.view, key, read),
           inFlight := if StartsCheck(s.view, key, read) then s.inFlight + [key] else s.inFlight)
    case EndCheck(dns, dial, has, feed) =>
      if s.inFlight == [] then s
      else
        var verdict := Verdict(dns, dial, has, feed);
        s.(view := Checked(s.view, s.inFlight[0], s.now, verdict), inFlight := s.inFlight[1..],
           ended := s.ended + [Check(s.inFlight[0], s.now, verdict)])
    case Reset => s.(view := s.view.(lastCheck := None))
  }

  function Run(s: System, events: seq<Event>): System
    decreases |events|
  {
    if events == [] then s else Run(Step(s, events[0]), events[1..])
  }

  ghost predicate Inv(s: System) {
    && |s.inFlight| == (if s.view.checking then 1 else 0)
    && (s.ended == [] ==> s.view.lastCheck == None && s.view.status == Detecting)
    && (s.ended != [] ==>
          var last := s.ended[|s.ended| - 1];
          && (s.view.lastCheck == Some(last.at) || s.view.lastCheck == None) && last.at <= s.now
          && s.view.cacheKey == last.key && last.verdict != Detecting
          && (s.view.status == last.verdict
              || (s.view.status == Detecting && s.view.checking && last.verdict != Online)))
  }

  lemma {:induction false} RunKeepsInv(s: System, events: seq<Event>)
    requires Inv(s)
    ensures Inv(Run(s, events))
    decreases |events|
  {
    if events != [] {
      RunKeepsInv(Step(s, events[0]), events[1..]);
    }
  }

  /** In every run the checks in flight are as many as the flag says, and every answer is
      justified: a failure is the verdict of the last check, for the same key, and was less than
      five seconds old when the call read the clock; a good verdict is the last one too, for the
      same key and less than ninety seconds old then, unless this very call starts its
      replacement; and while callers are told "detecting" a check is under way. */
  lemma EveryAnswerIsJustified(events: seq<Event>, key: string, read: int)
    requires read <= Run(START, events).now
    ensures var s := Run(START, events);
            var answer := Answer(s.view, key, read);
            var after := Step(s, Get(key, read));
            && |s.inFlight| == (if s.view.checking then 1 else 0)
            && (answer == Detecting <==> after.inFlight != [] && (s.view.checking || !s.view.status.Online?))
            && (answer != Detecting ==> s.ended != [] && answer == s.ended[|s.ended| - 1].verdict)
            && (answer != Detecting && answer != Online ==>
                  s.ended[|s.ended| - 1].key == key && read - s.ended[|s.ended| - 1].at < 5)
            && (answer == Online && after.inFlight == [] ==>
                  s.ended[|s.ended| - 1].key == key && read - s.ended[|s.ended| - 1].at < 90)
  {
    hide Run;
    RunKeepsInv(START, events);
  }

  /** No reset came after the last check ended. */
  predicate NoResetSince(events: seq<Event>)
    decreases |events|
  {
    events == [] || events[|events| - 1].EndCheck?
    || (!events[|events| - 1].Reset? && NoResetSince(events[..|events| - 1]))
  }

  lemma {:induction false} RunSnoc(s: System, events: seq<Event>, e: Event)
    ensures Run(s, events + [e]) == Step(Run(s, events), e)
    decreases |events|
  {
    if events == [] {
      assert [e][1..] == [];
    } else {
      assert (events + [e])[1..] == events[1..] + [e];
      RunSnoc(Step(s, events[0]), events[1..], e);
    }
  }

  /** The time of the last check is on record while no reset has come. A check that ends with none in
      flight cannot be; it is left out of the run. */
  lemma {:induction false} TimeIsKept(events: seq<Event>)
    requires forall i :: 0 <= i < |events| && events[i].EndCheck? ==> Run(START, events[..i]).inFlight != []
    ensures var s := Run(START, events);
            s.view.lastCheck.Some? <==> s.ended != [] && NoResetSince(events)
    decreases |events|
  {
    if events != [] {
      var (before, e) := (events[..|events| - 1], events[|events| - 1]);
      assert before + [e] == events;
      forall i | 0 <= i < |before| && before[i].EndCheck?
        ensures Run(START, before[..i]).inFlight != []
      {
        assert before[..i] == events[..i] && events[i] == before[i];
      }
      TimeIsKept(before);
      RunSnoc(START, before, e);
      hide Run;
    }
  }

  /** A call starts a check exactly when none is under way and there is no verdict on record for its
      key that was less than ninety seconds old if good, or five if not, when it read the clock. A
      young verdict is what it answers. */
  lemma CheckStartsIff(events: seq<Event>, key: string, read: int)
    requires forall i :: 0 <= i < |events| && events[i].EndCheck? ==> Run(START, events[..i]).inFlight != []
    requires read <= Run(START, events).now
    ensures var (s, n) := (Run(START, events), |Run(START, events).ended|);
            var after := Step(s, Get(key, read));
            var young := n > 0 && NoResetSince(events) && s.ended[n - 1].key == key
                         && read - s.ended[n - 1].at < if s.ended[n - 1].verdict == Online then 90 else 5;
            && (after.inFlight != s.inFlight <==> !s.view.checking && !young)
            && (after.inFlight != s.inFlight ==> after.inFlight == s.inFlight + [key])
            && (!s.view.checking && young ==> Answer(s.view, key, read) == s.ended[n - 1].verdict)
  {
    hide Run;
    RunKeepsInv(START, events);
    TimeIsKept(events);
  }

  ghost predicate EndsNone(events: seq<Event>) {
    forall i :: 0 <= i < |events| ==> !events[i].EndCheck?
  }

  lemma {:induction false} StaysChecking(s: System, events: seq<Event>)
    requires s.view.checking && EndsNone(events)
    ensures Run(s, events).view.checking && Run(s, events).inFlight == s.inFlight
    decreases |events|
  {
    if events != [] {
      assert EndsNone(events[1..]);
      StaysChecking(Step(s, events[0]), events[1..]);
    }
  }

  /** An expired good verdict is returned once: the call that gets it starts a check, and until
      that check ends every further call, for any key, gets "detecting". */
  lemma ExpiredVerdictIsReturnedOnce(s: System, key: string, read: int, events: seq<Event>, next: string, later: int)
    requires Inv(s) && !s.view.checking && s.view.status.Online? && read <= s.now && !Fresh(s.view, key, read)
    requires EndsNone(events)
    ensures Answer(s.view, key, read) == Online && Step(s, Get(key, read)).inFlight == [key]
    ensures var r := Run(Step(s, Get(key, read)), events);
            Answer(r.view, next, later) == Detecting && Step(r, Get(next, later)).inFlight == [key]
  {
    hide Run;
    StaysChecking(Step(s, Get(key, read)), events);
  }

  /** A reset during a check is lost when the check ends, and only then. */
  lemma ResetIsLostIffChecking(s: System, dnsOk: bool, dialOk: bool, hasFeed: bool, feedOk: bool)
    requires Inv(s)
    ensures var end := EndCheck(dnsOk, dialOk, hasFeed, feedOk);
            Step(Step(s, Reset), end).view.lastCheck.Some? <==> s.view.checking
  {
  }
}
