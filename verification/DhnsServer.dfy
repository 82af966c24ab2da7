/** backend/dhns/server.go itself: the map, the linked list with its back pointers and the
    one-shot channels, proved to implement the step system of module Rendezvous. */
module DhnsServer {
  import opened Rendezvous
  import opened Wrappers

  /** An element of `container/list`. */
  class Element {
    const value: ConnItem

    constructor (value: ConnItem)
      ensures this.value == value
    {
      this.value := value;
    }
  }

  class ConnItem {
    const id: string
    var lastTime: int
    var el: Element?
    /** The channel `conn`, made with capacity one and reached only through its item. */
    var buf: seq<Conn>
    var closed: bool
    /** The position of this dial among all dials. */
    ghost const number: nat

    constructor (id: string, ghost number: nat)
      ensures this.id == id && this.number == number && el == null && buf == [] && !closed
    {
      this.id, this.number := id, number;
      lastTime, el, buf, closed := 0, null, [], false;
    }

    /** `conn <- c`: panics on a closed channel and blocks on a full one. */
    method Send(c: Conn)
      requires !closed && |buf| < 1
      modifies this`buf
      ensures buf == old(buf) + [c]
    {
      buf := buf + [c];
    }

    /** `close(conn)`: panics on a closed channel. */
    method Close()
      requires !closed
      modifies this`closed
      ensures closed
    {
      closed := true;
    }
  }

  class Server {
    var connBusMap: map<string, ConnItem>
    var connBusRegist: seq<ConnItem>
    var connBusNotify: seq<Notice>
    var list: seq<Element>
    /** The connections on which `Close` was called. */
    var closedConns: set<Conn>
    /** The items of all dials so far, and the state that they represent. */
    ghost var items: seq<ConnItem>
    ghost var world: World

    ghost predicate Valid()
      reads this, items
    {
      && Inv(world)
      && ItemsMatch()
      && QueuesMatch()
      && ListMatches()
      && MapMatches()
    }

    ghost predicate ItemsMatch()
      reads `world, `items, items`buf, items`closed
    {
      && |items| == |world.dials|
      && forall i :: 0 <= i < |items| ==>
           items[i].number == i && items[i].id == world.dials[i].id
           && world.dials[i].reply == Chan(items[i].buf, items[i].closed)
    }

    /** The item belongs to one of this server's dials. */
    ghost predicate Known(item: ConnItem)
      reads `items
    {
      item.number < |items| && items[item.number] == item
    }

    ghost predicate QueuesMatch()
      reads `connBusRegist, `connBusNotify, `closedConns, `world, `items
    {
      && connBusNotify == world.notices && closedConns == world.shut
      && |connBusRegist| == |world.registrations|
      && forall i :: 0 <= i < |connBusRegist| ==>
           Known(connBusRegist[i]) && world.registrations[i] == connBusRegist[i].number
    }

    /** The list is the waiting registrations in order, each item pointing at its own element. */
    ghost predicate ListMatches()
      reads `list, `world, `items, items`el, items`lastTime
    {
      && |list| == |world.waiting|
      && forall i :: 0 <= i < |list| ==>
           Known(list[i].value) && list[i].value.el == list[i]
           && world.waiting[i] == Waiting(list[i].value.number, list[i].value.lastTime)
    }

    /** The map's keys are exactly the ids in the list. */
    ghost predicate MapMatches()
      reads `list, `connBusMap
    {
      && (forall i :: 0 <= i < |list| ==>
            list[i].value.id in connBusMap && connBusMap[list[i].value.id] == list[i].value)
      && (forall id :: id in connBusMap ==> exists i :: 0 <= i < |list| && list[i].value.id == id)
    }

    constructor ()
      ensures Valid() && world == START && items == []
    {
      connBusMap, connBusRegist, connBusNotify, list, closedConns := map[], [], [], [], {};
      items, world := [], START;
    }

    /** What the bus reads off the map is what a search of the list would find. */
    lemma MapFinds(id: string)
      requires Valid()
      ensures var i := PositionOf(world.waiting, world.dials, id);
              if id in connBusMap then
                i < |list| && connBusMap[id] == list[i].value && list[i].value.id == id
                && items[list[i].value.number] == list[i].value
              else i == |list|
    {
      hide Inv;
    }

    /** container/list.Remove of the element at `at`. */
    method RemoveElement(el: Element, ghost at: nat)
      requires at < |list| && list[at] == el && forall j :: 0 <= j < |list| && j != at ==> list[j] != el
      modifies this`list
      ensures list == old(list)[..at] + old(list)[at + 1..]
      ensures forall j :: 0 <= j < |list| ==> list[j] == old(list)[if j < at then j else j + 1]
    {
      var i := 0;
      while list[i] != el
        invariant 0 <= i <= at
        decreases at - i
      {
        i := i + 1;
      }
      list := list[..i] + list[i + 1..];
    }

    /** The clock moves on. */
    ghost method Elapse(seconds: nat)
      requires Valid()
      modifies this`world
      ensures Valid() && world == Step(old(world), Advance(seconds))
    {
      hide Inv;
      StepKeepsInv(world, Advance(seconds));
      world := Step(world, Advance(seconds));
    }

    /** The registration in DialDhns; a full queue keeps the caller waiting (null). */
    method ConnItemRegist(id: string) returns (item: ConnItem?)
      requires Valid()
      modifies this
      ensures Valid() && world == Step(old(world), StartDial(id))
      ensures if item == null then items == old(items) else fresh(item) && items == old(items) + [item]
      ensures item == null <==> |old(connBusRegist)| >= 8
    {
      hide Inv;
      StepKeepsInv(world, StartDial(id));
      world := Step(world, StartDial(id));
      if |connBusRegist| >= QUEUE {
        return null;
      }
      item := new ConnItem(id, |items|);
      items := items + [item];
      connBusRegist := connBusRegist + [item];
    }

    /** PutDhnsConn; a full queue keeps the caller waiting (false). */
    method PutDhnsConn(id: string, c: Conn) returns (ok: bool)
      requires Valid() && c !in world.given
      modifies this
      ensures Valid() && world == Step(old(world), Put(id, c)) && items == old(items)
      ensures ok <==> |old(connBusNotify)| < 8
    {
      hide Inv;
      StepKeepsInv(world, Put(id, c));
      world := Step(world, Put(id, c));
      ok := |connBusNotify| < QUEUE;
      if ok {
        connBusNotify := connBusNotify + [Notice(id, c)];
      }
    }

    /** `case item := <-srv.connBusRegist`. */
    method BusRegister(now: int)
      requires Valid() && now == world.now && connBusRegist != []
      modifies this, items
      ensures Valid() && world == Step(old(world), Event.BusRegister) && items == old(items)
    {
      hide Inv, Register, PositionOf, MapMatches;
      FrontRegistration(world);
      var item := connBusRegist[0];
      MapFinds(item.id);
      connBusRegist := connBusRegist[1..];
      world := Register(world);
      if item.id !in connBusMap {
        Enlist(item, now);
      } else {
        item.Close();
      }
    }

    /** The item enters the map and, at the back, the list. */
    method Enlist(item: ConnItem, now: int)
      requires ItemsMatch() && QueuesMatch() && MapMatches()
      requires Known(item) && item.id !in connBusMap && world.waiting != []
      requires |list| == |world.waiting| - 1 && world.waiting[|list|] == Waiting(item.number, now)
      requires forall i :: 0 <= i < |list| ==>
                 Known(list[i].value) && list[i].value.el == list[i] && list[i].value != item
                 && world.waiting[i] == Waiting(list[i].value.number, list[i].value.lastTime)
      modifies this`connBusMap, this`list, item`lastTime, item`el
      ensures ItemsMatch() && QueuesMatch() && ListMatches() && MapMatches()
    {
      hide Inv, Register, PositionOf, ItemsMatch, QueuesMatch;
      connBusMap := connBusMap[item.id := item];
      item.lastTime := now;
      var el := new Element(item);
      item.el := el;
      ghost var before := list;
      list := list + [el];
      assert list[|before|].value.id == item.id;
      assert forall i :: 0 <= i < |before| ==> list[i] == before[i] && before[i].value.id != item.id;
    }

    /** The list's item at `at` leaves the map and the list. */
    method Unlink(item: ConnItem, ghost at: nat)
      requires MapMatches() && at < |list| && list[at].value == item && item.el == list[at]
      requires forall j :: 0 <= j < |list| && j != at ==> list[j].value.id != item.id
      modifies this`connBusMap, this`list
      ensures MapMatches() && list == old(list)[..at] + old(list)[at + 1..]
      ensures forall j :: 0 <= j < |list| ==> list[j] == old(list)[if j < at then j else j + 1] && list[j].value != item
    {
      hide Inv;
      ghost var before := list;
      connBusMap := connBusMap - {item.id};
      RemoveElement(item.el, at);
      forall id | id in connBusMap
        ensures exists j :: 0 <= j < |list| && list[j].value.id == id
      {
        var j :| 0 <= j < |before| && before[j].value.id == id;
        assert list[if j < at then j else j - 1] == before[j];
      }
    }

    /** `case obj := <-srv.connBusNotify`. */
    method BusNotify()
      requires Valid() && connBusNotify != []
      modifies this, items
      ensures Valid() && world == Step(old(world), Event.BusNotify) && items == old(items)
    {
      hide Inv, Notify, PositionOf, MapMatches;
      FrontNotice(world);
      WaitingFacts(world);
      var obj := connBusNotify[0];
      ghost var at := PositionOf(world.waiting, world.dials, obj.id);
      MapFinds(obj.id);
      connBusNotify := connBusNotify[1..];
      world := Notify(world);
      if obj.id in connBusMap {
        Deliver(connBusMap[obj.id], obj.conn, at);
      } else {
        closedConns := closedConns + {obj.conn};
      }
    }

    /** The item at `at` of the list leaves the bus and gets the connection. */
    method Deliver(item: ConnItem, c: Conn, ghost at: nat)
      requires QueuesMatch() && MapMatches() && Known(item)
      requires at < |list| && list[at].value == item && item.el == list[at] && item.buf == [] && !item.closed
      requires forall j :: 0 <= j < |list| && j != at ==>
                 Known(list[j].value) && list[j].value.el == list[j] && list[j].value.id != item.id
      requires |world.waiting| == |list| - 1
      requires forall j :: 0 <= j < |world.waiting| ==>
                 var v := list[if j < at then j else j + 1].value;
                 world.waiting[j] == Waiting(v.number, v.lastTime)
      requires |items| == |world.dials|
      requires forall i :: 0 <= i < |items| ==>
                 items[i].number == i && items[i].id == world.dials[i].id
                 && world.dials[i].reply
                    == if i == item.number then Chan([c], true) else Chan(items[i].buf, items[i].closed)
      modifies this`connBusMap, this`list, item`el, item`buf, item`closed
      ensures ItemsMatch() && QueuesMatch() && ListMatches() && MapMatches()
    {
      hide Inv, Notify, Register, PositionOf, QueuesMatch, MapMatches;
      Unlink(item, at);
      if item.el != null {
        item.el := null;
      }
      item.Send(c);
      item.Close();
      assert item.buf == [c];
    }

    /** `case <-ticker.C`: the sweep stops at the first registration that is not old, and still
        carries out the whole tick. */
    method BusTick(now: int)
      requires Valid() && now == world.now
      modifies this, items
      ensures Valid() && world == Step(old(world), Event.BusTick) && items == old(items)
    {
      hide Inv, Tick, PopFirst;
      var deadline := now - TIMEOUT;
      while list != []
        invariant Valid() && items == old(items)
        invariant world.now == now && Tick(world) == Tick(old(world))
        decreases |list|
      {
        var item := list[0].value;
        if item.lastTime < deadline {
          PopThenTick(world);
          TimeOut(item);
        } else {
          break;
        }
      }
      SweepIsOver(world);
    }

    /** The first item of the list leaves the bus and its reply is closed. */
    method TimeOut(item: ConnItem)
      requires Valid() && list != [] && list[0].value == item
      modifies this, items
      ensures Valid() && world == PopFirst(old(world)) && items == old(items)
      ensures |list| == |old(list)| - 1 && world.now == old(world).now
    {
      hide Inv, Tick, PopFirst, MapMatches;
      PopEffect(world);
      PopKeepsInv(world);
      WaitingFacts(world);
      world := PopFirst(world);
      Unlink(item, 0);
      item.Close();
    }

    /** The dialing goroutine at `c, ok := <-item.conn`: it gets the connection, learns that
        there is none, or keeps waiting. */
    method Receive(item: ConnItem) returns (c: Option<Conn>, ended: bool)
      requires Valid() && Known(item)
      modifies this, item
      ensures Valid() && world == Step(old(world), Event.Receive(item.number)) && items == old(items)
      ensures c.Some? ==> c == Answer(old(world).dials[item.number]) && world.dials[item.number].got == c
      ensures ended <==> old(world).dials[item.number].reply != Chan([], false)
    {
      hide Inv, Step, PositionOf;
      ReceiveOne(world, item.number);
      world := Step(world, Event.Receive(item.number));
      c, ended := None, item.closed;
      if item.buf != [] {
        c, ended := Some(item.buf[0]), true;
        item.buf := item.buf[1..];
      }
    }
  }

  /** Receiving takes the connection, if there is one, out of one reply and nothing else. */
  lemma ReceiveOne(w: World, d: nat)
    requires Inv(w) && d < |w.dials|
    ensures var (dial, r) := (w.dials[d], Step(w, Event.Receive(d)));
            && Inv(r)
            && r == w.(dials := if dial.reply.buf == [] then w.dials else
                 w.dials[d := dial.(reply := Chan(dial.reply.buf[1..], dial.reply.closed),
                                    got := Some(dial.reply.buf[0]))])
  {
    hide Inv;
    StepKeepsInv(w, Event.Receive(d));
  }

  /** The front registration is open, no registration waits with its dial, and the bus takes
      it exactly when its id is free. */
  lemma FrontRegistration(w: World)
    requires Inv(w) && w.registrations != []
    ensures Inv(Register(w))
    ensures var (d, r) := (w.registrations[0], Register(w));
            && d < |w.dials| && w.dials[d].reply == Chan([], false)
            && (forall i :: 0 <= i < |w.waiting| ==> w.waiting[i].dial != d)
            && if PositionOf(w.waiting, w.dials, w.dials[d].id) == |w.waiting| then
                 r == w.(registrations := w.registrations[1..], waiting := w.waiting + [Waiting(d, w.now)])
               else
                 r == w.(registrations := w.registrations[1..],
                         dials := w.dials[d := w.dials[d].(reply := Chan([], true))])
  {
    hide Register;
    RegisterEffect(w);
    RegisterKeepsInv(w);
    forall i | 0 <= i < |w.waiting|
      ensures w.waiting[i].dial != w.registrations[0]
    {
      WaitingAt(w, i);
    }
  }

  /** Registrations on the bus have distinct ids and open, empty replies. */
  lemma WaitingFacts(w: World)
    requires Inv(w)
    ensures forall i :: 0 <= i < |w.waiting| ==>
              w.waiting[i].dial < |w.dials| && w.dials[w.waiting[i].dial].reply == Chan([], false)
    ensures forall i, j :: 0 <= i < j < |w.waiting| ==>
              w.dials[w.waiting[i].dial].id != w.dials[w.waiting[j].dial].id
  {
    hide TimeInv, PlaceInv, IdInv;
    forall i | 0 <= i < |w.waiting|
      ensures Fresh(w.dials[w.waiting[i].dial])
    {
      WaitingAt(w, i);
    }
  }

  /** The front notice answers the waiting dial with its id, or is shut. */
  lemma FrontNotice(w: World)
    requires Inv(w) && w.notices != []
    ensures Inv(Notify(w))
    ensures var (n, r) := (w.notices[0], Notify(w));
            var i := PositionOf(w.waiting, w.dials, n.id);
            if i < |w.waiting| then
              var d := w.waiting[i].dial;
              && d < |w.dials|
              && r == w.(notices := w.notices[1..], waiting := w.waiting[..i] + w.waiting[i + 1..],
                         dials := w.dials[d := w.dials[d].(reply := Chan([n.conn], true))])
              && |r.waiting| == |w.waiting| - 1
              && forall j :: 0 <= j < |r.waiting| ==> r.waiting[j] == w.waiting[if j < i then j else j + 1]
            else
              r == w.(notices := w.notices[1..], shut := w.shut + {n.conn})
  {
    hide Notify, PendingInv, ChannelInv, TimeInv, PlaceInv, IdInv;
    NotifyEffect(w);
    NotifyKeepsInv(w);
  }

  /** One turn of the sweep: the first registration goes and its reply is closed. */
  function PopFirst(w: World): World
    requires w.waiting != []
  {
    CloseReply(w, w.waiting[0].dial).(waiting := w.waiting[1..])
  }

  lemma {:induction false} CloseExpiredIgnoresList(w: World, waiting: seq<Waiting>, rest: seq<Waiting>)
    ensures CloseExpired(w.(waiting := rest), waiting) == CloseExpired(w, waiting).(waiting := rest)
    decreases |waiting|
  {
    if waiting != [] {
      var w1 := if Expired(waiting[0], w.now) then CloseReply(w, waiting[0].dial) else w;
      CloseExpiredIgnoresList(w1, waiting[1..], rest);
    }
  }

  /** Sweeping on after a turn amounts to the whole tick. */
  lemma PopThenTick(w: World)
    requires w.waiting != [] && Expired(w.waiting[0], w.now)
    ensures Tick(PopFirst(w)) == Tick(w)
  {
    var w1 := CloseReply(w, w.waiting[0].dial);
    CloseExpiredIgnoresList(w1, w.waiting[1..], w.waiting[1..]);
  }

  /** A sweep that meets a young registration, or none, is over. */
  lemma SweepIsOver(w: World)
    requires Inv(w) && (w.waiting == [] || !Expired(w.waiting[0], w.now))
    ensures Tick(w) == w
  {
    hide PlaceInv, IdInv, PendingInv, ChannelInv;
    var k := YoungIsSuffix(w.waiting, w.now);
    NoneExpired(w, w.waiting);
  }

  lemma {:induction false} NoneExpired(w: World, waiting: seq<Waiting>)
    requires forall i :: 0 <= i < |waiting| ==> !Expired(waiting[i], w.now)
    ensures CloseExpired(w, waiting) == w
    decreases |waiting|
  {
    if waiting != [] {
      NoneExpired(w, waiting[1..]);
    }
  }

  lemma PopEffect(w: World)
    requires Inv(w) && w.waiting != []
    ensures w.waiting[0].dial < |w.dials|
    ensures PopFirst(w) == w.(waiting := w.waiting[1..],
              dials := w.dials[w.waiting[0].dial := w.dials[w.waiting[0].dial].(reply := Chan([], true))])
  {
    WaitingFacts(w);
  }

  lemma PopKeepsPending(w: World)
    requires Inv(w) && w.waiting != []
    ensures PendingInv(PopFirst(w)) && TimeInv(PopFirst(w))
  {
    hide PopFirst, PlaceInv, IdInv, IsWaiting, ChannelInv, PendingInv;
    PopEffect(w);
    var r := PopFirst(w);
    assert r.waiting == w.waiting[..0] + w.waiting[1..];
    DropOne(w, r, 0);
    ShorterPending(w, r, 0);
  }

  lemma PopKeepsChannels(w: World)
    requires Inv(w) && w.waiting != []
    ensures ChannelInv(PopFirst(w))
  {
    hide PopFirst, PlaceInv, IdInv, IsWaiting, TimeInv;
    PopEffect(w);
    WaitingFacts(w);
    var r := PopFirst(w);
    assert r.waiting == w.waiting[..0] + w.waiting[1..];
    DropOne(w, r, 0);
    WaitingAt(w, 0);
  }

  lemma PopKeepsInv(w: World)
    requires Inv(w) && w.waiting != []
    ensures Inv(PopFirst(w))
  {
    hide PopFirst, PendingInv, ChannelInv, TimeInv, PlaceInv, IdInv;
    PopEffect(w);
    PopKeepsPending(w);
    PopKeepsChannels(w);
    SamePlaces(w, PopFirst(w)) by {
      WaitingFacts(w);
    }
  }
}
