/** The connection bus of backend/dhns/server.go as a step system: dials register, proxy
    connections are put, and one goroutine pairs them. Every interleaving of the steps before
    Close is a list of events. */
module Rendezvous {
  import opened Wrappers

  /** The identity of a `net.Conn`. */
  type Conn = nat

  /** Seconds after which a tick gives up on a registered dial. */
  const TIMEOUT := 10

  /** Both queues are buffered channels of this capacity. */
  const QUEUE := 8

  // ----- the reply channel of a dial: Go's rules for a channel of capacity one -----

  datatype Chan = Chan(buf: seq<Conn>, closed: bool)

  datatype Outcome = Done(ch: Chan) | Blocks | Panics

  function Send(ch: Chan, c: Conn): Outcome {
    if ch.closed then Panics
    else if |ch.buf| >= 1 then Blocks
    else Done(ch.(buf := ch.buf + [c]))
  }

  function Close(ch: Chan): Outcome {
    if ch.closed then Panics else Done(ch.(closed := true))
  }

  // ----- the state -----

  /** A call of DialDhns: its item's id and reply channel, and the connection it returned. */
  datatype Dial = Dial(id: string, reply: Chan, got: Option<Conn>)

  /** A registered dial, named by its position among all dials, and its `lastTime`. */
  datatype Waiting = Waiting(dial: nat, since: int)

  datatype Notice = Notice(id: string, conn: Conn)

  datatype World = World(
    now: int,
    dials: seq<Dial>,
    registrations: seq<nat>,
    waiting: seq<Waiting>,
    notices: seq<Notice>,
    given: map<Conn, string>,
    shut: set<Conn>,
    fault: bool)

  datatype Event =
    | Advance(seconds: nat)
    | StartDial(id: string)
    | Put(id: string, conn: Conn)
    | BusTick
    | BusRegister
    | BusNotify
    | Receive(dial: nat)

  const START := World(0, [], [], [], [], map[], {}, false)

  function PositionOf(waiting: seq<Waiting>, dials: seq<Dial>, id: string): (i: nat)
    ensures i <= |waiting|
    ensures i < |waiting| ==> waiting[i].dial < |dials| && dials[waiting[i].dial].id == id
    ensures forall j :: 0 <= j < i && waiting[j].dial < |dials| ==> dials[waiting[j].dial].id != id
  {
    if waiting == [] then 0
    else if waiting[0].dial < |dials| && dials[waiting[0].dial].id == id then 0
    else PositionOf(waiting[1..], dials, id) + 1
  }

  predicate Expired(x: Waiting, now: int) {
    x.since < now - TIMEOUT
  }

  /** All registrations that a tick leaves, whatever their order. */
  function Young(waiting: seq<Waiting>, now: int): (rest: seq<Waiting>)
    ensures forall x :: x in rest <==> x in waiting && !Expired(x, now)
    ensures |rest| <= |waiting|
  {
    if waiting == [] then []
    else if Expired(waiting[0], now) then Young(waiting[1..], now)
    else [waiting[0]] + Young(waiting[1..], now)
  }

  /** An operation on the reply channel of dial `d`; blocking or panicking is a fault of the bus. */
  function OnChannel(w: World, d: nat, outcome: Outcome): World {
    if d < |w.dials| && outcome.Done? then w.(dials := w.dials[d := w.dials[d].(reply := outcome.ch)])
    else w.(fault := true)
  }

  function CloseReply(w: World, d: nat): World {
    if d < |w.dials| then OnChannel(w, d, Close(w.dials[d].reply)) else w.(fault := true)
  }

  function SendReply(w: World, d: nat, c: Conn): World {
    if d < |w.dials| then OnChannel(w, d, Send(w.dials[d].reply, c)) else w.(fault := true)
  }

  /** The replies of all expired registrations are closed. */
  function CloseExpired(w: World, waiting: seq<Waiting>): World
    decreases |waiting|
  {
    if waiting == [] then w
    else if Expired(waiting[0], w.now) then CloseExpired(CloseReply(w, waiting[0].dial), waiting[1..])
    else CloseExpired(w, waiting[1..])
  }

  function Tick(w: World): World {
    CloseExpired(w, w.waiting).(waiting := Young(w.waiting, w.now))
  }

  function Register(w: World): World
    requires w.registrations != []
  {
    var d := w.registrations[0];
    var w1 := w.(registrations := w.registrations[1..]);
    if d < |w.dials| && PositionOf(w.waiting, w.dials, w.dials[d].id) == |w.waiting| then
      w1.(waiting := w.waiting + [Waiting(d, w.now)])
    else
      CloseReply(w1, d)
  }

  function Notify(w: World): World
    requires w.notices != []
  {
    var notice := w.notices[0];
    var w1 := w.(notices := w.notices[1..]);
    var i := PositionOf(w.waiting, w.dials, notice.id);
    if i < |w.waiting| then
      var d := w.waiting[i].dial;
      CloseReply(SendReply(w1.(waiting := w.waiting[..i] + w.waiting[i + 1..]), d, notice.conn), d)
    else
      w1.(shut := w.shut + {notice.conn})
  }

  /** Can the event happen? A full queue blocks its sender, and a connection is given once. */
  predicate Enabled(w: World, e: Event) {
    match e
    case Advance(_) => true
    case StartDial(_) => |w.registrations| < QUEUE
    case Put(_, c) => |w.notices| < QUEUE && c !in w.given
    case BusTick => true
    case BusRegister => w.registrations != []
    case BusNotify => w.notices != []
    case Receive(d) => d < |w.dials| && w.dials[d].reply.buf != []
  }

  function Step(w: World, e: Event): World {
    if !Enabled(w, e) then w
    else match e
      case Advance(s) => w.(now := w.now + s)
      case StartDial(id) =>
        w.(dials := w.dials + [Dial(id, Chan([], false), None)], registrations := w.registrations + [|w.dials|])
      case Put(id, c) => w.(notices := w.notices + [Notice(id, c)], given := w.given[c := id])
      case BusTick => Tick(w)
      case BusRegister => Register(w)
      case BusNotify => Notify(w)
      case Receive(d) =>
        var dial := w.dials[d];
        w.(dials := w.dials[d := dial.(reply := dial.reply.(buf := dial.reply.buf[1..]),
                                       got := Some(dial.reply.buf[0]))])
  }

  function Run(w: World, events: seq<Event>): World
    decreases |events|
  {
    if events == [] then w else Run(Step(w, events[0]), events[1..])
  }

  // ----- what every run keeps -----

  /** The dial has the connection, in its channel or as its result. */
  predicate Holds(dial: Dial, c: Conn) {
    c in dial.reply.buf || dial.got == Some(c)
  }

  ghost predicate Fresh(dial: Dial) {
    dial.reply == Chan([], false) && dial.got == None
  }

  ghost predicate Settled(dial: Dial) {
    dial.reply.closed && |dial.reply.buf| <= 1 && (dial.got.Some? ==> dial.reply.buf == [])
  }

  ghost predicate OnList(waiting: seq<Waiting>, d: nat) {
    exists i :: 0 <= i < |waiting| && waiting[i].dial == d
  }

  ghost predicate IsWaiting(w: World, d: nat) {
    OnList(w.waiting, d)
  }

  /** Who is pending where: nobody twice, and ids on the bus are distinct. */
  ghost predicate PendingInv(w: World) {
    && (forall i, j :: 0 <= i < j < |w.registrations| ==> w.registrations[i] != w.registrations[j])
    && (forall i, j :: 0 <= i < j < |w.waiting| ==> w.waiting[i].dial != w.waiting[j].dial)
    && (forall d :: d in w.registrations ==> d < |w.dials| && !IsWaiting(w, d))
    && (forall i :: 0 <= i < |w.waiting| ==> w.waiting[i].dial < |w.dials|)
    && (forall i, j :: 0 <= i < j < |w.waiting| ==>
          w.dials[w.waiting[i].dial].id != w.dials[w.waiting[j].dial].id)
  }

  /** A pending dial's channel is open and empty; every other channel is closed for good and
      has carried at most one connection. */
  ghost predicate ChannelInv(w: World) {
    forall d :: 0 <= d < |w.dials| ==>
      if d in w.registrations || IsWaiting(w, d) then Fresh(w.dials[d]) else Settled(w.dials[d])
  }

  ghost predicate TimeInv(w: World) {
    && (forall i :: 0 <= i < |w.waiting| ==> w.waiting[i].since <= w.now)
    && (forall i, j :: 0 <= i < j < |w.waiting| ==> w.waiting[i].since <= w.waiting[j].since)
  }

  ghost predicate InNotices(w: World, c: Conn) {
    exists i :: 0 <= i < |w.notices| && w.notices[i].conn == c
  }

  ghost predicate InDial(w: World, c: Conn) {
    exists d :: 0 <= d < |w.dials| && Holds(w.dials[d], c)
  }

  /** Each connection given is in exactly one place, and only there. */
  ghost predicate PlaceInv(w: World) {
    && (forall c :: c in w.given <==> InNotices(w, c) || InDial(w, c) || c in w.shut)
    && (forall i, j :: 0 <= i < j < |w.notices| ==> w.notices[i].conn != w.notices[j].conn)
    && (forall c :: c in w.shut ==> !InNotices(w, c) && !InDial(w, c))
    && (forall c :: InNotices(w, c) ==> !InDial(w, c))
    && (forall d, e, c :: 0 <= d < e < |w.dials| ==> !(Holds(w.dials[d], c) && Holds(w.dials[e], c)))
  }

  /** A queued connection carries the id it was given with, and so does the dial that got it. */
  ghost predicate IdInv(w: World) {
    && (forall i :: 0 <= i < |w.notices| ==>
          w.notices[i].conn in w.given && w.notices[i].id == w.given[w.notices[i].conn])
    && (forall d, c :: 0 <= d < |w.dials| && Holds(w.dials[d], c) ==> c in w.given && w.dials[d].id == w.given[c])
  }

  ghost predicate Inv(w: World) {
    !w.fault && PendingInv(w) && ChannelInv(w) && TimeInv(w) && PlaceInv(w) && IdInv(w)
  }

  // ----- one step keeps the invariant -----

  /** In time order the expired registrations come first: stopping a sweep at the first
      young one misses none. */
  lemma {:induction false} YoungIsSuffix(waiting: seq<Waiting>, now: int) returns (k: nat)
    requires forall i, j :: 0 <= i < j < |waiting| ==> waiting[i].since <= waiting[j].since
    ensures k <= |waiting| && Young(waiting, now) == waiting[k..]
    ensures forall i :: 0 <= i < |waiting| ==> (Expired(waiting[i], now) <==> i < k)
  {
    if waiting == [] {
      k := 0;
    } else if Expired(waiting[0], now) {
      k := YoungIsSuffix(waiting[1..], now);
      k := k + 1;
      assert forall i :: 1 <= i < |waiting| ==> waiting[i] == waiting[1..][i - 1];
    } else {
      k := 0;
      YoungKeepsAll(waiting, now);
    }
  }

  lemma {:induction false} YoungKeepsAll(waiting: seq<Waiting>, now: int)
    requires forall i :: 0 <= i < |waiting| ==> !Expired(waiting[i], now)
    ensures Young(waiting, now) == waiting
  {
    if waiting != [] {
      YoungKeepsAll(waiting[1..], now);
    }
  }

  ghost predicate ExpiresIn(waiting: seq<Waiting>, now: int, d: nat) {
    exists i :: 0 <= i < |waiting| && waiting[i].dial == d && Expired(waiting[i], now)
  }

  /** The tick closes the reply of each expired registration, once, and touches nothing else. */
  lemma {:induction false} CloseExpiredEffect(w: World, waiting: seq<Waiting>)
    requires forall i, j :: 0 <= i < j < |waiting| ==> waiting[i].dial != waiting[j].dial
    requires forall i :: 0 <= i < |waiting| ==> waiting[i].dial < |w.dials| && !w.dials[waiting[i].dial].reply.closed
    ensures var r := CloseExpired(w, waiting);
            && r == w.(dials := r.dials) && |r.dials| == |w.dials|
            && forall d :: 0 <= d < |w.dials| ==>
                 r.dials[d] == if ExpiresIn(waiting, w.now, d)
                               then w.dials[d].(reply := w.dials[d].reply.(closed := true)) else w.dials[d]
    decreases |waiting|
  {
    if waiting != [] {
      var rest := waiting[1..];
      var w1 := if Expired(waiting[0], w.now) then CloseReply(w, waiting[0].dial) else w;
      CloseExpiredEffect(w1, rest);
      forall d | 0 <= d < |w.dials|
        ensures ExpiresIn(waiting, w.now, d)
                <==> (waiting[0].dial == d && Expired(waiting[0], w.now)) || ExpiresIn(rest, w.now, d)
      {
        if ExpiresIn(rest, w.now, d) {
          var i :| 0 <= i < |rest| && rest[i].dial == d && Expired(rest[i], w.now);
          assert waiting[i + 1] == rest[i];
        }
        if ExpiresIn(waiting, w.now, d) {
          var i :| 0 <= i < |waiting| && waiting[i].dial == d && Expired(waiting[i], w.now);
          assert i > 0 ==> rest[i - 1] == waiting[i];
        }
      }
    }
  }

  ghost predicate AmongFirst(waiting: seq<Waiting>, k: nat, d: nat) {
    exists i :: 0 <= i < k && i < |waiting| && waiting[i].dial == d
  }

  /** A tick takes the first `k` registrations, all of them expired, and closes their replies. */
  lemma TickEffect(w: World) returns (k: nat)
    requires PendingInv(w) && ChannelInv(w) && TimeInv(w)
    ensures k <= |w.waiting|
    ensures forall i :: 0 <= i < |w.waiting| ==> (Expired(w.waiting[i], w.now) <==> i < k)
    ensures var r := Tick(w);
            && r == w.(dials := r.dials, waiting := w.waiting[k..]) && |r.dials| == |w.dials|
            && forall d :: 0 <= d < |w.dials| ==>
                 r.dials[d] == if AmongFirst(w.waiting, k, d)
                               then w.dials[d].(reply := w.dials[d].reply.(closed := true)) else w.dials[d]
  {
    k := YoungIsSuffix(w.waiting, w.now);
    forall i | 0 <= i < |w.waiting|
      ensures Fresh(w.dials[w.waiting[i].dial])
    {
      assert IsWaiting(w, w.waiting[i].dial);
    }
    CloseExpiredEffect(w, w.waiting);
    assert forall d :: AmongFirst(w.waiting, k, d) <==> ExpiresIn(w.waiting, w.now, d);
  }

  lemma DropFirst(w: World, r: World, k: nat)
    requires PendingInv(w) && k <= |w.waiting| && r.waiting == w.waiting[k..]
    ensures forall d :: IsWaiting(r, d) <==> IsWaiting(w, d) && !AmongFirst(w.waiting, k, d)
    ensures forall d :: AmongFirst(w.waiting, k, d) ==> IsWaiting(w, d)
  {
    forall d
      ensures IsWaiting(r, d) <==> IsWaiting(w, d) && !AmongFirst(w.waiting, k, d)
    {
      if IsWaiting(r, d) {
        var i :| 0 <= i < |r.waiting| && r.waiting[i].dial == d;
        assert w.waiting[i + k] == r.waiting[i];
      }
      if IsWaiting(w, d) && !AmongFirst(w.waiting, k, d) {
        var i :| 0 <= i < |w.waiting| && w.waiting[i].dial == d;
        assert r.waiting[i - k] == w.waiting[i];
      }
    }
  }

  lemma TickKeepsPending(w: World)
    requires PendingInv(w) && ChannelInv(w) && TimeInv(w)
    ensures PendingInv(Tick(w)) && TimeInv(Tick(w))
  {
    hide Tick, ChannelInv, IsWaiting, AmongFirst;
    var k := TickEffect(w);
    var r := Tick(w);
    DropFirst(w, r, k);
  }

  lemma TickKeepsChannels(w: World)
    requires PendingInv(w) && ChannelInv(w) && TimeInv(w)
    ensures ChannelInv(Tick(w))
  {
    hide Tick, TimeInv, IsWaiting, AmongFirst;
    var k := TickEffect(w);
    DropFirst(w, Tick(w), k);
  }

  lemma TickKeepsInv(w: World)
    requires Inv(w)
    ensures Inv(Tick(w))
  {
    hide Tick, PendingInv, ChannelInv, TimeInv, PlaceInv, IdInv;
    TickKeepsPending(w);
    TickKeepsChannels(w);
    var k := TickEffect(w);
    SamePlaces(w, Tick(w));
  }

  /** Steps that move no connection keep every connection in its place. */
  lemma SamePlaces(w: World, r: World)
    requires PlaceInv(w) && IdInv(w)
    requires r.notices == w.notices && r.shut == w.shut && r.given == w.given && |r.dials| == |w.dials|
    requires forall d :: 0 <= d < |w.dials| ==> r.dials[d].id == w.dials[d].id
    requires forall d, c :: 0 <= d < |w.dials| ==> (Holds(r.dials[d], c) <==> Holds(w.dials[d], c))
    ensures PlaceInv(r) && IdInv(r)
  {
    forall c
      ensures InNotices(r, c) <==> InNotices(w, c)
      ensures InDial(r, c) <==> InDial(w, c)
    {
    }
  }

  lemma RegisterEffect(w: World)
    requires w.registrations != [] && PendingInv(w) && ChannelInv(w)
    ensures var (d, r) := (w.registrations[0], Register(w));
            && d < |w.dials| && Fresh(w.dials[d]) && !IsWaiting(w, d)
            && if PositionOf(w.waiting, w.dials, w.dials[d].id) == |w.waiting| then
                 r == w.(registrations := w.registrations[1..], waiting := w.waiting + [Waiting(d, w.now)])
               else
                 r == w.(registrations := w.registrations[1..],
                         dials := w.dials[d := w.dials[d].(reply := Chan([], true))])
  {
    assert w.registrations[0] in w.registrations;
  }

  lemma OnLongerList(waiting: seq<Waiting>, x: Waiting, d: nat)
    ensures OnList(waiting + [x], d) <==> OnList(waiting, d) || d == x.dial
  {
    var longer := waiting + [x];
    assert longer[|waiting|] == x;
    if OnList(waiting, d) {
      var i :| 0 <= i < |waiting| && waiting[i].dial == d;
      assert longer[i] == waiting[i];
    }
  }

  lemma RegisterWaits(w: World)
    requires w.registrations != [] && PendingInv(w) && ChannelInv(w)
    ensures forall d :: IsWaiting(Register(w), d) <==>
              IsWaiting(w, d) || (d == w.registrations[0] && Register(w).waiting != w.waiting)
  {
    hide Register, OnList;
    RegisterEffect(w);
    forall d {
      OnLongerList(w.waiting, Waiting(w.registrations[0], w.now), d);
    }
  }

  lemma RegisterKeepsPending(w: World)
    requires w.registrations != [] && PendingInv(w) && ChannelInv(w)
    ensures PendingInv(Register(w))
  {
    hide Register, IsWaiting, ChannelInv, TimeInv;
    RegisterEffect(w);
    RegisterWaits(w);
    var d := w.registrations[0];
    forall i | 0 <= i < |w.waiting|
      ensures w.waiting[i].dial != d
    {
      WaitingAt(w, i);
    }
    forall x | x in w.registrations[1..]
      ensures x != d && x in w.registrations
    {
      var i :| 1 <= i < |w.registrations| && w.registrations[i] == x;
    }
  }

  lemma RegisterKeepsTime(w: World)
    requires w.registrations != [] && PendingInv(w) && ChannelInv(w) && TimeInv(w)
    ensures TimeInv(Register(w))
  {
    hide Register, IsWaiting, ChannelInv, PendingInv;
    RegisterEffect(w);
  }

  lemma RegisterKeepsInv(w: World)
    requires w.registrations != [] && Inv(w)
    ensures Inv(Register(w))
  {
    hide Register, PlaceInv, IdInv, IsWaiting, TimeInv;
    RegisterEffect(w);
    RegisterKeepsTime(w);
    RegisterKeepsPending(w);
    RegisterWaits(w);
    var r := Register(w);
    forall d | d in w.registrations && d != w.registrations[0]
      ensures d in r.registrations
    {
    }
    assert r.registrations == w.registrations[1..];
    SamePlaces(w, r);
  }

  /** A notice reaches the waiting dial with its id, or its connection is shut. */
  lemma NotifyEffect(w: World)
    requires w.notices != [] && PendingInv(w) && ChannelInv(w)
    ensures var (n, r) := (w.notices[0], Notify(w));
            var i := PositionOf(w.waiting, w.dials, n.id);
            if i < |w.waiting| then
              var d := w.waiting[i].dial;
              && d < |w.dials| && Fresh(w.dials[d]) && w.dials[d].id == n.id
              && r == w.(notices := w.notices[1..], waiting := w.waiting[..i] + w.waiting[i + 1..],
                         dials := w.dials[d := w.dials[d].(reply := Chan([n.conn], true))])
            else
              r == w.(notices := w.notices[1..], shut := w.shut + {n.conn})
  {
    hide PositionOf, PendingInv;
    var i := PositionOf(w.waiting, w.dials, w.notices[0].id);
    if i < |w.waiting| {
      var (d, c) := (w.waiting[i].dial, w.notices[0].conn);
      assert IsWaiting(w, d);
      var dial := w.dials[d];
      assert [] + [c] == [c];
      assert w.dials[d := dial.(reply := Chan([c], false))][d := dial.(reply := Chan([c], true))]
             == w.dials[d := dial.(reply := Chan([c], true))];
    }
  }

  lemma OnShorterList(waiting: seq<Waiting>, i: nat, d: nat)
    requires i < |waiting| && d != waiting[i].dial
    ensures OnList(waiting[..i] + waiting[i + 1..], d) <==> OnList(waiting, d)
  {
    var rest := waiting[..i] + waiting[i + 1..];
    if OnList(rest, d) {
      var j :| 0 <= j < |rest| && rest[j].dial == d;
      assert waiting[if j < i then j else j + 1] == rest[j];
    }
    if OnList(waiting, d) {
      var j :| 0 <= j < |waiting| && waiting[j].dial == d;
      assert rest[if j < i then j else j - 1] == waiting[j];
    }
  }

  lemma DropOne(w: World, r: World, i: nat)
    requires PendingInv(w) && i < |w.waiting| && r.waiting == w.waiting[..i] + w.waiting[i + 1..]
    ensures forall d :: IsWaiting(r, d) <==> IsWaiting(w, d) && d != w.waiting[i].dial
    ensures forall j :: 0 <= j < |r.waiting| ==> r.waiting[j] == w.waiting[if j < i then j else j + 1]
  {
    forall d
      ensures IsWaiting(r, d) <==> IsWaiting(w, d) && d != w.waiting[i].dial
    {
      if d != w.waiting[i].dial {
        OnShorterList(w.waiting, i, d);
      } else {
        assert forall j :: 0 <= j < |r.waiting| ==> r.waiting[j] == w.waiting[if j < i then j else j + 1];
      }
    }
  }

  lemma NotifyKeepsTime(w: World)
    requires w.notices != [] && PendingInv(w) && ChannelInv(w) && TimeInv(w)
    ensures TimeInv(Notify(w))
  {
    hide Notify, ChannelInv, IsWaiting;
    NotifyEffect(w);
    var i := PositionOf(w.waiting, w.dials, w.notices[0].id);
    if i < |w.waiting| {
      DropOne(w, Notify(w), i);
    }
  }

  lemma NotifyKeepsPending(w: World)
    requires w.notices != [] && PendingInv(w) && ChannelInv(w)
    ensures PendingInv(Notify(w))
  {
    hide Notify, ChannelInv, IsWaiting, TimeInv;
    NotifyEffect(w);
    var (i, r) := (PositionOf(w.waiting, w.dials, w.notices[0].id), Notify(w));
    assert forall d :: 0 <= d < |w.dials| ==> r.dials[d].id == w.dials[d].id;
    if i < |w.waiting| {
      DropOne(w, r, i);
      ShorterPending(w, r, i);
    } else {
      SameWaiting(w, r);
    }
  }

  lemma ShorterPending(w: World, r: World, i: nat)
    requires PendingInv(w) && i < |w.waiting| && |r.waiting| == |w.waiting| - 1
    requires r.registrations == w.registrations && |r.dials| == |w.dials|
    requires forall d :: 0 <= d < |w.dials| ==> r.dials[d].id == w.dials[d].id
    requires forall d :: IsWaiting(r, d) ==> IsWaiting(w, d)
    requires forall j :: 0 <= j < |r.waiting| ==> r.waiting[j] == w.waiting[if j < i then j else j + 1]
    ensures PendingInv(r)
  {
    hide IsWaiting;
  }

  lemma SameWaiting(w: World, r: World)
    requires r.waiting == w.waiting
    ensures forall d :: IsWaiting(r, d) <==> IsWaiting(w, d)
  {
  }

  lemma NotifyKeepsChannels(w: World)
    requires w.notices != [] && PendingInv(w) && ChannelInv(w)
    ensures ChannelInv(Notify(w))
  {
    hide Notify, IsWaiting, TimeInv;
    NotifyEffect(w);
    var i := PositionOf(w.waiting, w.dials, w.notices[0].id);
    if i < |w.waiting| {
      DropOne(w, Notify(w), i);
      assert IsWaiting(w, w.waiting[i].dial) by { WaitingAt(w, i); }
    } else {
      SameWaiting(w, Notify(w));
    }
  }

  lemma WaitingAt(w: World, i: nat)
    requires i < |w.waiting|
    ensures IsWaiting(w, w.waiting[i].dial)
  {
  }

  /** The front notice leaves the queue. */
  lemma NotifyDequeues(w: World)
    requires w.notices != [] && PendingInv(w) && ChannelInv(w) && PlaceInv(w)
    ensures forall x :: InNotices(Notify(w), x) <==> InNotices(w, x) && x != w.notices[0].conn
    ensures InNotices(w, w.notices[0].conn) && Notify(w).notices == w.notices[1..] && Notify(w).given == w.given
  {
    hide Notify, IsWaiting, ChannelInv, PendingInv, PositionOf;
    NotifyEffect(w);
    var (c, r) := (w.notices[0].conn, Notify(w));
    forall x
      ensures InNotices(r, x) <==> InNotices(w, x) && x != c
    {
      if InNotices(w, x) && x != c {
        var j :| 0 <= j < |w.notices| && w.notices[j].conn == x;
        assert r.notices[j - 1] == w.notices[j];
      }
      if InNotices(r, x) {
        var j :| 0 <= j < |r.notices| && r.notices[j].conn == x;
        assert w.notices[j + 1] == r.notices[j];
      }
    }
  }

  /** Its connection, and no other, goes to the matching dial or to the shut ones. */
  lemma NotifyMoves(w: World)
    requires w.notices != [] && PendingInv(w) && ChannelInv(w) && PlaceInv(w)
    ensures var (c, r) := (w.notices[0].conn, Notify(w));
            && |r.dials| == |w.dials|
            && (forall d :: 0 <= d < |w.dials| ==> r.dials[d].id == w.dials[d].id)
            && (forall d, x :: 0 <= d < |w.dials| && x != c ==> (Holds(r.dials[d], x) <==> Holds(w.dials[d], x)))
            && (forall d :: 0 <= d < |w.dials| && Holds(r.dials[d], c) ==>
                  r.dials[d].id == w.notices[0].id && r.shut == w.shut
                  && forall e :: 0 <= e < |w.dials| && e != d ==> !Holds(r.dials[e], c))
            && (InDial(r, c) || r.shut == w.shut + {c})
            && (r.shut == w.shut || (r.shut == w.shut + {c} && r.dials == w.dials))
  {
    hide Notify, IsWaiting, ChannelInv, PendingInv, PositionOf;
    NotifyEffect(w);
    var (c, r) := (w.notices[0].conn, Notify(w));
    assert InNotices(w, c);
    var i := PositionOf(w.waiting, w.dials, w.notices[0].id);
    if i < |w.waiting| {
      assert Holds(r.dials[w.waiting[i].dial], c);
    }
  }

  lemma NotifyKeepsPlaces(w: World)
    requires w.notices != [] && PendingInv(w) && ChannelInv(w) && PlaceInv(w) && IdInv(w)
    ensures PlaceInv(Notify(w)) && IdInv(Notify(w))
  {
    hide Notify, PendingInv, ChannelInv, PlaceInv, IdInv;
    NotifyKeepsPlaceInv(w);
    NotifyKeepsIds(w);
  }

  lemma NotifyKeepsPlaceInv(w: World)
    requires w.notices != [] && PendingInv(w) && ChannelInv(w) && PlaceInv(w)
    ensures PlaceInv(Notify(w))
  {
    hide Notify, PendingInv, ChannelInv, InNotices, Holds;
    NotifyDequeues(w);
    NotifyMoves(w);
    var (c, r) := (w.notices[0].conn, Notify(w));
    forall x | x != c
      ensures InDial(r, x) <==> InDial(w, x)
    {
    }
  }

  lemma NotifyKeepsIds(w: World)
    requires w.notices != [] && PendingInv(w) && ChannelInv(w) && PlaceInv(w) && IdInv(w)
    ensures IdInv(Notify(w))
  {
    hide Notify, PendingInv, ChannelInv, InNotices, Holds, InDial;
    NotifyDequeues(w);
    NotifyMoves(w);
    var (c, r) := (w.notices[0].conn, Notify(w));
    assert c in w.given && w.notices[0].id == w.given[c];
  }

  lemma NotifyKeepsInv(w: World)
    requires w.notices != [] && Inv(w)
    ensures Inv(Notify(w))
  {
    hide Notify, PendingInv, ChannelInv, TimeInv, PlaceInv, IdInv;
    NotifyEffect(w);
    NotifyKeepsPending(w);
    NotifyKeepsTime(w);
    NotifyKeepsChannels(w);
    NotifyKeepsPlaces(w);
  }

  lemma StartDialKeepsInv(w: World, id: string)
    requires Inv(w) && Enabled(w, StartDial(id))
    ensures Inv(Step(w, StartDial(id)))
  {
    hide Young, PlaceInv, IdInv, InNotices, InDial;
    var r := Step(w, StartDial(id));
    var d := |w.dials|;
    SameWaiting(w, r);
    assert !IsWaiting(w, d);
    forall x
      ensures x in r.registrations <==> x in w.registrations || x == d
    {
    }
    NewDialKeepsPlaces(w, r);
  }

  lemma NewDialKeepsPlaces(w: World, r: World)
    requires PlaceInv(w) && IdInv(w)
    requires r.notices == w.notices && r.shut == w.shut && r.given == w.given
    requires |r.dials| == |w.dials| + 1 && r.dials[..|w.dials|] == w.dials && Fresh(r.dials[|w.dials|])
    ensures PlaceInv(r) && IdInv(r)
  {
    assert forall x :: 0 <= x < |w.dials| ==> r.dials[x] == r.dials[..|w.dials|][x];
    forall c
      ensures InDial(r, c) <==> InDial(w, c)
      ensures InNotices(r, c) <==> InNotices(w, c)
    {
      assert !Holds(r.dials[|w.dials|], c);
      if InDial(w, c) {
        var x :| 0 <= x < |w.dials| && Holds(w.dials[x], c);
        assert Holds(r.dials[x], c);
      }
    }
  }

  lemma PutKeepsInv(w: World, id: string, c: Conn)
    requires Inv(w) && Enabled(w, Put(id, c))
    ensures Inv(Step(w, Put(id, c)))
  {
    hide Young, PlaceInv, IdInv, IsWaiting;
    var r := Step(w, Put(id, c));
    assert r == w.(notices := w.notices + [Notice(id, c)], given := w.given[c := id]);
    SameWaiting(w, r);
    PutKeepsPlaces(w, r, id, c);
  }

  lemma PutKeepsPlaces(w: World, r: World, id: string, c: Conn)
    requires PlaceInv(w) && IdInv(w) && c !in w.given
    requires r == w.(notices := w.notices + [Notice(id, c)], given := w.given[c := id])
    ensures PlaceInv(r) && IdInv(r)
  {
    hide Holds;
    forall x
      ensures InNotices(r, x) <==> InNotices(w, x) || x == c
      ensures InDial(r, x) <==> InDial(w, x)
    {
      assert r.notices[|w.notices|].conn == c;
      if InNotices(w, x) {
        var i :| 0 <= i < |w.notices| && w.notices[i].conn == x;
        assert r.notices[i].conn == x;
      }
    }
    forall i | 0 <= i < |w.notices|
      ensures w.notices[i].conn != c
    {
      assert InNotices(w, w.notices[i].conn);
    }
  }

  lemma ReceiveKeepsInv(w: World, d: nat)
    requires Inv(w) && Enabled(w, Receive(d))
    ensures Inv(Step(w, Receive(d)))
  {
    hide PlaceInv, IdInv;
    var r := Step(w, Receive(d));
    SameWaiting(w, r);
    assert !Fresh(w.dials[d]);
    var buf := w.dials[d].reply.buf;
    assert buf == [buf[0]];
    assert w.dials[d].got == None;
    SamePlaces(w, r);
  }

  lemma StepKeepsInv(w: World, e: Event)
    requires Inv(w)
    ensures Inv(Step(w, e))
  {
    hide Inv, Tick, Register, Notify;
    if Enabled(w, e) {
      match e
      case Advance(s) => AdvanceKeepsInv(w, s);
      case StartDial(id) => StartDialKeepsInv(w, id);
      case Put(id, c) => PutKeepsInv(w, id, c);
      case BusTick => TickKeepsInv(w);
      case BusRegister => RegisterKeepsInv(w);
      case BusNotify => NotifyKeepsInv(w);
      case Receive(d) => ReceiveKeepsInv(w, d);
    }
  }

  lemma AdvanceKeepsInv(w: World, s: nat)
    requires Inv(w)
    ensures Inv(w.(now := w.now + s))
  {
    hide PlaceInv, IdInv;
    SameWaiting(w, w.(now := w.now + s));
    SamePlaces(w, w.(now := w.now + s));
  }

  lemma {:induction false} RunKeepsInv(w: World, events: seq<Event>)
    requires Inv(w)
    ensures Inv(Run(w, events))
    decreases |events|
  {
    hide Inv, Step;
    if events != [] {
      StepKeepsInv(w, events[0]);
      RunKeepsInv(Step(w, events[0]), events[1..]);
    }
  }

  // ----- what every run guarantees -----

  /** The connection that a dial has been answered with, if any. */
  function Answer(dial: Dial): Option<Conn> {
    if dial.reply.buf != [] then Some(dial.reply.buf[0]) else dial.got
  }

  ghost predicate WaitsSince(w: World, d: nat, since: int) {
    exists i :: 0 <= i < |w.waiting| && w.waiting[i] == Waiting(d, since)
  }

  /** Nothing is taken back: ids stay, closed replies stay closed with their answer, shut
      connections stay shut, and a registration keeps its time until its reply is closed. */
  ghost predicate Extends(w: World, r: World) {
    && w.now <= r.now && |w.dials| <= |r.dials| && w.shut <= r.shut
    && (forall c :: c in w.given ==> c in r.given && r.given[c] == w.given[c])
    && (forall d :: 0 <= d < |w.dials| ==>
          && r.dials[d].id == w.dials[d].id
          && (w.dials[d].reply.closed ==> r.dials[d].reply.closed && Answer(r.dials[d]) == Answer(w.dials[d])))
    && (forall d, since :: 0 <= d < |w.dials| && WaitsSince(w, d, since) ==>
          WaitsSince(r, d, since) || r.dials[d].reply.closed)
  }

  lemma TickExtends(w: World)
    requires Inv(w)
    ensures Extends(w, Tick(w))
  {
    hide Tick, PendingInv, ChannelInv, TimeInv, PlaceInv, IdInv;
    var k := TickEffect(w);
    var r := Tick(w);
    forall d, since | 0 <= d < |w.dials| && WaitsSince(w, d, since)
      ensures WaitsSince(r, d, since) || r.dials[d].reply.closed
    {
      var i :| 0 <= i < |w.waiting| && w.waiting[i] == Waiting(d, since);
      if i < k {
        assert AmongFirst(w.waiting, k, d);
      } else {
        assert r.waiting[i - k] == w.waiting[i];
      }
    }
  }

  lemma RegisterExtends(w: World)
    requires w.registrations != [] && Inv(w)
    ensures Extends(w, Register(w))
  {
    hide Register, PendingInv, ChannelInv, TimeInv, PlaceInv, IdInv;
    RegisterEffect(w);
    forall d, since | WaitsSince(w, d, since)
      ensures WaitsSince(Register(w), d, since)
    {
      var i :| 0 <= i < |w.waiting| && w.waiting[i] == Waiting(d, since);
      assert Register(w).waiting[i] == w.waiting[i];
    }
  }

  lemma NotifyExtends(w: World)
    requires w.notices != [] && Inv(w)
    ensures Extends(w, Notify(w))
  {
    hide Notify, PendingInv, ChannelInv, TimeInv, PlaceInv, IdInv;
    NotifyEffect(w);
    var (k, r) := (PositionOf(w.waiting, w.dials, w.notices[0].id), Notify(w));
    forall d, since | 0 <= d < |w.dials| && WaitsSince(w, d, since)
      ensures WaitsSince(r, d, since) || r.dials[d].reply.closed
    {
      var i :| 0 <= i < |w.waiting| && w.waiting[i] == Waiting(d, since);
      if k < |w.waiting| && i != k {
        assert r.waiting[if i < k then i else i - 1] == w.waiting[i];
      }
    }
  }

  lemma ReceiveExtends(w: World, d: nat)
    requires Inv(w) && Enabled(w, Receive(d))
    ensures Extends(w, Step(w, Receive(d)))
  {
    hide PendingInv, TimeInv, PlaceInv, IdInv;
    assert !Fresh(w.dials[d]);
    var r := Step(w, Receive(d));
    assert forall x, since :: WaitsSince(w, x, since) ==> WaitsSince(r, x, since);
  }

  lemma StepExtends(w: World, e: Event)
    requires Inv(w)
    ensures Extends(w, Step(w, e))
  {
    hide Inv, Tick, Register, Notify;
    var r := Step(w, e);
    if r.waiting == w.waiting {
      assert forall x, since :: WaitsSince(w, x, since) ==> WaitsSince(r, x, since);
    }
    if Enabled(w, e) {
      match e
      case BusTick => TickExtends(w);
      case BusRegister => RegisterExtends(w);
      case BusNotify => NotifyExtends(w);
      case Receive(d) => ReceiveExtends(w, d);
      case _ =>
    }
  }

  lemma ExtendsTransitive(a: World, b: World, c: World)
    requires Extends(a, b) && Extends(b, c)
    ensures Extends(a, c)
  {
    hide Answer, WaitsSince;
  }

  lemma {:induction false} RunExtends(w: World, events: seq<Event>)
    requires Inv(w)
    ensures Extends(w, Run(w, events))
    decreases |events|
  {
    hide Inv, Step, Extends;
    if events == [] {
      ExtendsItself(w);
    } else {
      StepKeepsInv(w, events[0]);
      StepExtends(w, events[0]);
      RunExtends(Step(w, events[0]), events[1..]);
      ExtendsTransitive(w, Step(w, events[0]), Run(w, events));
    }
  }

  lemma ExtendsItself(w: World)
    ensures Extends(w, w)
  {
  }

  lemma StartIsGood()
    ensures Inv(START)
  {
  }

  /** In every run the bus never blocks on a reply channel, never sends on a closed one and
      never closes one twice. */
  lemma NoRunFaults(events: seq<Event>)
    ensures !Run(START, events).fault
  {
    hide PendingInv, ChannelInv, TimeInv, PlaceInv, IdInv;
    StartIsGood();
    RunKeepsInv(START, events);
  }

  /** In every run each given connection is in exactly one place: the notice queue (once), the
      shut ones, or a single dial, and that dial has the id the connection was given with. */
  lemma EachConnectionIsInOnePlace(events: seq<Event>, c: Conn)
    ensures var w := Run(START, events);
            c in w.given ==>
              && (InNotices(w, c) || InDial(w, c) || c in w.shut)
              && !(InNotices(w, c) && InDial(w, c)) && !(InNotices(w, c) && c in w.shut)
              && !(InDial(w, c) && c in w.shut)
              && (forall i, j :: 0 <= i < j < |w.notices| && w.notices[i].conn == c ==> w.notices[j].conn != c)
              && (forall d, e :: 0 <= d < e < |w.dials| && Holds(w.dials[d], c) ==> !Holds(w.dials[e], c))
              && (forall d :: 0 <= d < |w.dials| && Holds(w.dials[d], c) ==> w.dials[d].id == w.given[c])
  {
    hide PendingInv, ChannelInv, TimeInv;
    StartIsGood();
    RunKeepsInv(START, events);
  }

  /** A dial on the list since `since` has its reply closed for good by any tick more than
      ten seconds later, whatever happens before and after. */
  lemma WaitingDialIsAnswered(w: World, d: nat, since: int, before: seq<Event>, after: seq<Event>)
    requires Inv(w) && d < |w.dials| && WaitsSince(w, d, since)
    requires Run(w, before).now > since + TIMEOUT
    ensures var r := Run(Step(Run(w, before), BusTick), after);
            d < |r.dials| && r.dials[d].reply.closed
  {
    hide PendingInv, ChannelInv, TimeInv, PlaceInv, IdInv, Run;
    var w1 := Run(w, before);
    RunKeepsInv(w, before);
    RunExtends(w, before);
    var w2 := Step(w1, BusTick);
    StepKeepsInv(w1, BusTick);
    StepExtends(w1, BusTick);
    if WaitsSince(w1, d, since) {
      hide Tick;
      var k := TickEffect(w1);
      var i :| 0 <= i < |w1.waiting| && w1.waiting[i] == Waiting(d, since);
      assert AmongFirst(w1.waiting, k, d);
    }
    RunExtends(w2, after);
  }

  /** A tick ends exactly the dials that have been on the list for more than ten seconds; all
      others stay there as they were. */
  lemma TickEndsExactlyTheOld(w: World, d: nat, since: int)
    requires Inv(w) && d < |w.dials| && WaitsSince(w, d, since)
    ensures var r := Step(w, BusTick);
            && d < |r.dials|
            && (r.dials[d].reply.closed <==> since < w.now - 10)
            && (WaitsSince(r, d, since) <==> since >= w.now - 10)
            && (since >= w.now - 10 ==> r.dials[d] == w.dials[d] && r.dials[d].reply == Chan([], false))
  {
    hide Tick, PlaceInv, IdInv;
    var k := TickEffect(w);
    var r := Tick(w);
    var i :| 0 <= i < |w.waiting| && w.waiting[i] == Waiting(d, since);
    WaitingAt(w, i);
    if i < k {
      assert AmongFirst(w.waiting, k, d);
    } else {
      assert r.waiting[i - k] == w.waiting[i];
    }
  }

  /** Along these events no notice with the id is taken, and at no tick has the clock gone past
      ten seconds after `since`. */
  predicate Undisturbed(w: World, id: string, since: int, events: seq<Event>)
    decreases |events|
  {
    events == []
    || ((events[0] == BusNotify && w.notices != [] ==> w.notices[0].id != id)
        && (events[0] == BusTick ==> w.now <= since + 10)
        && Undisturbed(Step(w, events[0]), id, since, events[1..]))
  }

  /** A dial on the list stays there, its channel open and empty, until a notice with its id is
      taken or a tick comes more than ten seconds after it was put there. */
  lemma {:induction false} YoungDialStays(w: World, d: nat, since: int, events: seq<Event>)
    requires Inv(w) && d < |w.dials| && WaitsSince(w, d, since)
    requires Undisturbed(w, w.dials[d].id, since, events)
    ensures var r := Run(w, events);
            d < |r.dials| && WaitsSince(r, d, since) && r.dials[d].reply == Chan([], false) && r.dials[d].got == None
    decreases |events|
  {
    hide Inv, Step, Extends;
    if events == [] {
      WaitingIsFresh(w, d, since);
    } else {
      var next := Step(w, events[0]);
      StepKeepsInv(w, events[0]);
      StepExtends(w, events[0]);
      IdStays(w, next, d);
      StaysOnList(w, d, since, events[0]);
      YoungDialStays(next, d, since, events[1..]);
    }
  }

  lemma WaitingIsFresh(w: World, d: nat, since: int)
    requires Inv(w) && d < |w.dials| && WaitsSince(w, d, since)
    ensures Fresh(w.dials[d])
  {
    hide PlaceInv, IdInv, TimeInv, PendingInv;
    var i :| 0 <= i < |w.waiting| && w.waiting[i] == Waiting(d, since);
    WaitingAt(w, i);
  }

  lemma StaysOnList(w: World, d: nat, since: int, e: Event)
    requires Inv(w) && d < |w.dials| && WaitsSince(w, d, since)
    requires e == BusNotify && w.notices != [] ==> w.notices[0].id != w.dials[d].id
    requires e == BusTick ==> w.now <= since + 10
    ensures WaitsSince(Step(w, e), d, since)
  {
    hide Tick, Register, Notify, PlaceInv, IdInv, TimeInv, PendingInv, ChannelInv, WaitsSince;
    if e == BusTick {
      TickEndsExactlyTheOld(w, d, since);
    } else if e == BusRegister && w.registrations != [] {
      RegisterEffect(w);
      StaysBehind(w, Register(w), d, since);
    } else if e == BusNotify && w.notices != [] {
      OtherNoticePasses(w, d, since);
    } else {
      StaysBehind(w, Step(w, e), d, since);
    }
  }

  lemma StaysBehind(w: World, r: World, d: nat, since: int)
    requires WaitsSince(w, d, since) && |w.waiting| <= |r.waiting| && r.waiting[..|w.waiting|] == w.waiting
    ensures WaitsSince(r, d, since)
  {
    var i :| 0 <= i < |w.waiting| && w.waiting[i] == Waiting(d, since);
    assert r.waiting[i] == r.waiting[..|w.waiting|][i];
  }

  lemma OtherNoticePasses(w: World, d: nat, since: int)
    requires w.notices != [] && PendingInv(w) && ChannelInv(w)
    requires d < |w.dials| && WaitsSince(w, d, since) && w.notices[0].id != w.dials[d].id
    ensures WaitsSince(Notify(w), d, since)
  {
    hide Notify, PendingInv, ChannelInv;
    NotifyEffect(w);
    var i :| 0 <= i < |w.waiting| && w.waiting[i] == Waiting(d, since);
    var k := PositionOf(w.waiting, w.dials, w.notices[0].id);
    if k < |w.waiting| {
      assert Notify(w).waiting[if i < k then i else i - 1] == w.waiting[i];
    }
  }

  /** How many registrations the bus was ready to take. */
  function Taken(events: seq<Event>): nat {
    if events == [] then 0 else (if events[0].BusRegister? then 1 else 0) + Taken(events[1..])
  }

  lemma StepQueue(w: World, e: Event)
    requires Inv(w)
    ensures Step(w, e).registrations
            == if !Enabled(w, e) then w.registrations
               else if e.StartDial? then w.registrations + [|w.dials|]
               else if e.BusRegister? then w.registrations[1..]
               else w.registrations
    ensures |w.dials| <= |Step(w, e).dials|
  {
    hide Tick, Register, Notify, PlaceInv, IdInv, ChannelInv, TimeInv;
    if Enabled(w, e) {
      match e
      case BusTick => var k := TickEffect(w);
      case BusRegister => RegisterEffect(w);
      case BusNotify => NotifyEffect(w);
      case _ =>
    }
  }

  lemma {:induction false} StaysOut(w: World, events: seq<Event>, d: nat)
    requires Inv(w) && d < |w.dials| && d !in w.registrations
    ensures d !in Run(w, events).registrations
    decreases |events|
  {
    if events != [] {
      hide Inv, Step;
      StepKeepsInv(w, events[0]);
      StepQueue(w, events[0]);
      StaysOut(Step(w, events[0]), events[1..], d);
    }
  }

  /** The queue is first in, first out. */
  lemma {:induction false} QueueMoves(w: World, events: seq<Event>, i: nat)
    requires Inv(w) && i < |w.registrations|
    ensures var r := Run(w, events);
            if Taken(events) <= i then
              i - Taken(events) < |r.registrations| && r.registrations[i - Taken(events)] == w.registrations[i]
            else
              w.registrations[i] !in r.registrations
    decreases |events|
  {
    if events != [] {
      hide Inv, Step, Enabled;
      var (e, next) := (events[0], Step(w, events[0]));
      StepKeepsInv(w, e);
      EntryMoves(w, e, i);
      if e.BusRegister? && i == 0 {
        StaysOut(next, events[1..], w.registrations[0]);
      } else {
        QueueMoves(next, events[1..], if e.BusRegister? then i - 1 else i);
      }
    }
  }

  lemma EntryMoves(w: World, e: Event, i: nat)
    requires Inv(w) && i < |w.registrations|
    ensures var next := Step(w, e);
            if e.BusRegister? && i == 0 then
              w.registrations[0] < |next.dials| && w.registrations[0] !in next.registrations
            else
              var j := if e.BusRegister? then i - 1 else i;
              j < |next.registrations| && next.registrations[j] == w.registrations[i]
  {
    StepQueue(w, e);
    QueueEntry(w, i);
    hide Inv, Step;
  }

  lemma QueueEntry(w: World, i: nat)
    requires Inv(w) && i < |w.registrations|
    ensures w.registrations[i] < |w.dials|
    ensures w.registrations[0] !in w.registrations[1..]
  {
    assert w.registrations[i] in w.registrations;
  }

  /** The registration at the front goes on the list, from now on and with its channel open, unless
      a dial with its id is there, and then its channel is closed at once without an answer. */
  lemma RegistrationIsTaken(w: World)
    requires Inv(w) && w.registrations != []
    ensures var (d, r) := (w.registrations[0], Step(w, BusRegister));
            && d < |r.dials| && r.dials[d].id == w.dials[d].id && r.dials[d].reply.buf == [] && r.dials[d].got == None
            && if exists i :: 0 <= i < |w.waiting| && w.dials[w.waiting[i].dial].id == w.dials[d].id then
                 r.dials[d].reply.closed && r.waiting == w.waiting
               else
                 !r.dials[d].reply.closed && WaitsSince(r, d, w.now)
  {
    hide Register, PlaceInv, IdInv, TimeInv;
    RegisterEffect(w);
    var (d, r) := (w.registrations[0], Register(w));
    if PositionOf(w.waiting, w.dials, w.dials[d].id) == |w.waiting| {
      assert r.waiting[|w.waiting|] == Waiting(d, w.now);
    }
  }

  /** How many notices the bus was ready to take. */
  function TakenNotices(events: seq<Event>): nat {
    if events == [] then 0 else (if events[0].BusNotify? then 1 else 0) + TakenNotices(events[1..])
  }

  lemma StepNotices(w: World, e: Event)
    requires Inv(w)
    ensures Step(w, e).notices
            == if !Enabled(w, e) then w.notices
               else if e.Put? then w.notices + [Notice(e.id, e.conn)]
               else if e.BusNotify? then w.notices[1..]
               else w.notices
  {
    hide Tick, Register, Notify, PlaceInv, IdInv, ChannelInv, TimeInv;
    if Enabled(w, e) {
      match e
      case BusTick => var k := TickEffect(w);
      case BusRegister => RegisterEffect(w);
      case BusNotify => NotifyEffect(w);
      case _ =>
    }
  }

  predicate NoticeAt(w: World, i: int, n: Notice) {
    0 <= i < |w.notices| && w.notices[i] == n
  }

  /** The queue of notices too is first in, first out: a notice is at the front when all before it
      were taken. */
  lemma {:induction false} NoticesMove(w: World, events: seq<Event>, i: nat, n: Notice)
    requires Inv(w) && NoticeAt(w, i, n) && TakenNotices(events) <= i
    ensures NoticeAt(Run(w, events), i - TakenNotices(events), n)
    decreases |events|
  {
    hide Inv, Step, NoticeAt;
    if events != [] {
      StepKeepsInv(w, events[0]);
      NoticeMoves(w, events[0], i, n);
      NoticesMove(Step(w, events[0]), events[1..], if events[0].BusNotify? then i - 1 else i, n);
    }
  }

  lemma NoticeMoves(w: World, e: Event, i: nat, n: Notice)
    requires Inv(w) && NoticeAt(w, i, n) && (e.BusNotify? ==> i > 0)
    ensures NoticeAt(Step(w, e), if e.BusNotify? then i - 1 else i, n)
  {
    hide Inv, Step;
    StepNotices(w, e);
  }

  /** A connection that is put goes to the back of that queue, under its id. */
  lemma PutGoesToTheBack(w: World, id: string, c: Conn)
    requires Enabled(w, Put(id, c))
    ensures Step(w, Put(id, c)).notices == w.notices + [Notice(id, c)]
    ensures |w.notices| < 8
  {
  }

  /** Every dial, from the moment it is made: once the bus has taken the registrations queued
      before it and its own, any tick more than ten seconds later leaves its reply closed for
      good, whatever else happens before, between and after. */
  lemma EveryDialIsAnswered(w: World, id: string, before: seq<Event>, between: seq<Event>, after: seq<Event>)
    requires Inv(w) && Enabled(w, StartDial(id))
    requires Taken(before) > |w.registrations|
    requires var taken := Run(Step(w, StartDial(id)), before);
             Run(taken, between).now > taken.now + TIMEOUT
    ensures var r := Run(Step(Run(Run(Step(w, StartDial(id)), before), between), BusTick), after);
            var d := |w.dials|;
            d < |r.dials| && r.dials[d].id == id && r.dials[d].reply.closed
  {
    hide Inv, Run, Extends;
    var (d, w1) := (|w.dials|, Step(w, StartDial(id)));
    var w2 := Run(w1, before);
    var w3 := Run(w2, between);
    var w4 := Step(w3, BusTick);
    StepKeepsInv(w, StartDial(id));
    RunKeepsInv(w1, before);
    RunKeepsInv(w2, between);
    StepKeepsInv(w3, BusTick);
    QueueMoves(w1, before, |w.registrations|);
    RunExtends(w1, before);
    IdStays(w1, w2, d);
    RunExtends(w2, between);
    StepExtends(w3, BusTick);
    ExtendsTransitive(w2, w3, w4);
    RunExtends(w4, after);
    ExtendsTransitive(w2, w4, Run(w4, after));
    IdStays(w2, Run(w4, after), d);
    if !w2.dials[d].reply.closed {
      var since := OpenDialWaits(w2, d);
      WaitingDialIsAnswered(w2, d, since, between, after);
    }
  }

  lemma IdStays(w: World, r: World, d: nat)
    requires Extends(w, r) && d < |w.dials|
    ensures d < |r.dials| && r.dials[d].id == w.dials[d].id
    ensures w.dials[d].reply.closed ==> r.dials[d].reply.closed
  {
  }

  lemma OpenDialWaits(w: World, d: nat) returns (since: int)
    requires Inv(w) && d < |w.dials| && d !in w.registrations && !w.dials[d].reply.closed
    ensures since <= w.now && WaitsSince(w, d, since)
  {
    hide PlaceInv, IdInv, PendingInv;
    var i :| 0 <= i < |w.waiting| && w.waiting[i].dial == d;
    since := w.waiting[i].since;
    assert w.waiting[i] == Waiting(d, since);
  }

  /** A notice taken while a dial with its id waits answers that dial: in every continuation the
      dial's reply is closed and its answer is that connection. */
  lemma NoticeAnswersWaitingDial(w: World, after: seq<Event>)
    requires Inv(w) && w.notices != []
    requires PositionOf(w.waiting, w.dials, w.notices[0].id) < |w.waiting|
    ensures var d := w.waiting[PositionOf(w.waiting, w.dials, w.notices[0].id)].dial;
            var r := Run(Step(w, BusNotify), after);
            && d < |r.dials| && r.dials[d].id == w.notices[0].id
            && r.dials[d].reply.closed && Answer(r.dials[d]) == Some(w.notices[0].conn)
  {
    hide PendingInv, ChannelInv, TimeInv, PlaceInv, IdInv, Run, Notify;
    NotifyEffect(w);
    StepKeepsInv(w, BusNotify);
    StepExtends(w, BusNotify);
    RunExtends(Step(w, BusNotify), after);
  }

  /** A notice that the bus picks before the dial's registration is lost to it: the connection
      is shut and no dial ever gets it. */
  lemma EarlyNoticeIsShut(w: World, after: seq<Event>)
    requires Inv(w) && w.notices != []
    requires PositionOf(w.waiting, w.dials, w.notices[0].id) == |w.waiting|
    ensures var (c, r) := (w.notices[0].conn, Run(Step(w, BusNotify), after));
            c in r.shut && !InDial(r, c)
  {
    hide PendingInv, ChannelInv, TimeInv, PlaceInv, IdInv, Run, Notify, InDial;
    NotifyEffect(w);
    StepKeepsInv(w, BusNotify);
    RunExtends(Step(w, BusNotify), after);
    RunKeepsInv(Step(w, BusNotify), after);
    ShutIsNowhereElse(Run(Step(w, BusNotify), after), w.notices[0].conn);
  }

  lemma ShutIsNowhereElse(w: World, c: Conn)
    requires PlaceInv(w) && c in w.shut
    ensures !InDial(w, c)
  {
  }

  /** The loss can hit a dial that was there first. Its registration is queued, the connection for
      it is put, and the bus picks the notice: the connection is shut, and the dial goes on
      waiting until, eleven seconds on, a tick ends it without an answer. */
  lemma EarlyNoticeStrandsDial(id: string, c: Conn)
    ensures var w := Run(START, [StartDial(id), Put(id, c), BusNotify, BusRegister]);
            && c in w.shut && w.waiting == [Waiting(0, 0)] && w.dials == [Dial(id, Chan([], false), None)]
            && Run(w, [Advance(11), BusTick]).dials == [Dial(id, Chan([], true), None)]
  {
    hide Run, Step;
    var w1 := START.(dials := [Dial(id, Chan([], false), None)], registrations := [0]);
    var w2 := w1.(notices := [Notice(id, c)], given := map[c := id]);
    var w4 := w2.(notices := [], shut := {c}, registrations := [], waiting := [Waiting(0, 0)]);
    DialThenPut(id, c);
    NoticeThenRegister(w2, id, c);
    RunOfTwo(START, StartDial(id), Put(id, c), [BusNotify, BusRegister]);
    RunOfTwo(w2, BusNotify, BusRegister, []);
    assert [StartDial(id), Put(id, c)] + [BusNotify, BusRegister]
           == [StartDial(id), Put(id, c), BusNotify, BusRegister];
    LonelyDialTimesOut(w4, id);
    RunOfTwo(w4, Advance(11), BusTick, []);
  }

  lemma DialThenPut(id: string, c: Conn)
    ensures Step(Step(START, StartDial(id)), Put(id, c))
            == START.(dials := [Dial(id, Chan([], false), None)], registrations := [0],
                      notices := [Notice(id, c)], given := map[c := id])
  {
  }

  lemma NoticeThenRegister(w: World, id: string, c: Conn)
    requires w.dials == [Dial(id, Chan([], false), None)] && w.registrations == [0] && w.waiting == []
    requires w.notices == [Notice(id, c)] && w.shut == {}
    ensures Step(Step(w, BusNotify), BusRegister)
            == w.(notices := [], shut := {c}, registrations := [], waiting := [Waiting(0, w.now)])
  {
    assert Notify(w) == w.(notices := [], shut := {c});
    assert Register(Notify(w)) == w.(notices := [], shut := {c}, registrations := [], waiting := [Waiting(0, w.now)]);
  }

  lemma LonelyDialTimesOut(w: World, id: string)
    requires w.dials == [Dial(id, Chan([], false), None)] && w.waiting == [Waiting(0, w.now)]
    ensures Step(Step(w, Advance(11)), BusTick).dials == [Dial(id, Chan([], true), None)]
  {
    var w1 := w.(now := w.now + 11);
    var w2 := w1.(dials := [Dial(id, Chan([], true), None)]);
    assert CloseReply(w1, 0) == w2;
    assert w1.waiting[1..] == [];
    assert CloseExpired(w2, []) == w2;
    assert CloseExpired(w1, w1.waiting) == w2;
  }

  lemma RunOfTwo(w: World, a: Event, b: Event, rest: seq<Event>)
    ensures Run(w, [a, b] + rest) == Run(Step(Step(w, a), b), rest)
    ensures Run(w, [a, b]) == Step(Step(w, a), b)
  {
    hide Step;
    assert ([a, b] + rest)[1..] == [b] + rest;
    assert ([b] + rest)[1..] == rest;
    assert [a, b][1..] == [b] && [b][1..] == [];
    assert Run(Step(Step(w, a), b), []) == Step(Step(w, a), b);
  }
}
