/** backend/service/lan_stats_linux.go: per-host traffic from dumps of the connection table. */
module LanStats {
  import opened LanFlows
  import opened StatsWindow
  import opened Wrappers
  import WanStats

  /** The items have these contents, one for one. */
  ghost predicate Records(items: seq<Item>, rates: seq<Rate>)
    reads items
  {
    |items| == |rates| && forall k :: 0 <= k < |items| ==> items[k].Contents() == rates[k]
  }

  lemma RecordsOneMore(items: seq<Item>, rates: seq<Rate>, x: Item, r: Rate)
    requires Records(items, rates) && x.Contents() == r
    ensures Records(items + [x], rates + [r])
  {
  }

  lemma LastRecorded(items: seq<Item>, rates: seq<Rate>)
    requires Records(items, rates)
    ensures items == [] <==> rates == []
    ensures items != [] ==> items[|items| - 1].Contents() == rates[|rates| - 1]
  {
  }

  class Host {
    const ip: string
    var rxTotal: int
    var txTotal: int
    var lastItem: Item?
    const items: Window
    /** Every turn that the host had. */
    ghost var turns: seq<Turn>
    ghost var Repr: set<object>

    /** The items ever completed are those of the turns, and the item in progress began with the
        last turn. */
    ghost predicate Valid()
      reads this, Repr
      ensures Valid() ==> this in Repr && items in Repr
    {
      && this in Repr && items in Repr && items.data in Repr
      && (forall x :: x in items.history ==> x in Repr)
      && items.Valid()
      && TurnsOrdered(turns)
      && (lastItem == null <==> turns == [])
      && (lastItem != null ==>
            && lastItem in Repr && lastItem !in items.history && lastItem.txAvg == lastItem.rxAvg == 0
            && Turn(lastItem.startTime, lastItem.txStart, lastItem.rxStart) == turns[|turns| - 1])
      && Records(items.history, TurnItems(turns))
    }

    /** The last turn, if any, was no later than `curr`. */
    ghost predicate StartedBy(curr: int)
      reads `turns
    {
      turns != [] ==> turns[|turns| - 1].curr <= curr
    }

    constructor (ip: string, rx: int, tx: int)
      ensures Valid() && fresh(Repr) && this.ip == ip && rxTotal == rx && txTotal == tx && turns == []
    {
      this.ip, rxTotal, txTotal, lastItem, turns := ip, rx, tx, null, [];
      items := new Window(0);
      new;
      Repr := {this, items, items.data};
    }

    method AddTotals(tx: int, rx: int)
      requires Valid()
      modifies this`rxTotal, this`txTotal
      ensures Valid() && rxTotal == old(rxTotal) + rx && txTotal == old(txTotal) + tx
    {
      rxTotal := rxTotal + rx;
      txTotal := txTotal + tx;
    }

    /** The host's turn after a dump: its totals become the next sample. */
    method TakeTotals(curr: int)
      requires Valid() && StartedBy(curr)
      modifies Repr
      ensures Valid() && fresh(Repr - old(Repr)) && rxTotal == txTotal == 0
      ensures turns == old(turns) + [Turn(curr, old(txTotal), old(rxTotal))]
      ensures old(items.history) <= items.history
    {
      hide Last, TurnItems, TurnsOrdered;
      var rx, tx := rxTotal, txTotal;
      rxTotal, txTotal := 0, 0;
      ProcessHost(curr, tx, rx);
    }

    /** processHost. */
    method ProcessHost(curr: int, tx: int, rx: int)
      requires Valid() && StartedBy(curr)
      modifies this`lastItem, this`turns, this`Repr, lastItem, items, items.data
      ensures Valid() && fresh(Repr - old(Repr))
      ensures turns == old(turns) + [Turn(curr, tx, rx)]
      ensures items.history == old(items.history) + if old(lastItem) == null then [] else [old(lastItem)]
    {
      hide Last, TurnItems, TurnsOrdered, ItemBetween, Window.Valid, Records, Item.Contents;
      ghost var turn := Turn(curr, tx, rx);
      TurnItemsSnoc(turns, turn);
      if lastItem == null {
        TooFewTurns(turns);
        lastItem := new Item(curr, None, rx, tx);
        turns, Repr := turns + [turn], Repr + {lastItem};
        return;
      }
      ghost var (before, rates, last) := (items.history, TurnItems(turns), turns[|turns| - 1]);
      CompleteItem(curr, tx, rx);
      items.Push(lastItem);
      ghost var item := lastItem;
      lastItem := new Item(curr, None, rx, tx);
      turns, Repr := turns + [turn], Repr + {lastItem, items.data};
      RecordsOneMore(before, rates, item, ItemBetween(last, turn, rates));
    }

    /** The item in progress ends and gets its averages. */
    method CompleteItem(curr: int, tx: int, rx: int)
      requires Valid() && lastItem != null && lastItem.startTime <= curr
      modifies lastItem
      ensures items.Valid()
      ensures lastItem.Contents() == ItemBetween(turns[|turns| - 1], Turn(curr, tx, rx), TurnItems(turns))
    {
      hide Last, TurnItems, TurnsOrdered, Records;
      var item := lastItem;
      items.Newest();
      LastRecorded(items.history, TurnItems(turns));
      item.endTime := curr;
      var duration := Duration(item.startTime, item.endTime);
      if tx < item.txStart {
        if items.len > 0 {
          item.txAvg := items.data[items.len - 1].txAvg;
        }
      } else {
        item.txAvg := WanStats.Average(item.txStart, tx, duration);
      }
      if rx < item.rxStart {
        if items.len > 0 {
          item.rxAvg := items.data[items.len - 1].rxAvg;
        }
      } else {
        item.rxAvg := WanStats.Average(item.rxStart, rx, duration);
      }
    }

    /** What a request is answered with: the newest completed item, or the whole window. */
    ghost function Answer(speedOnly: bool): seq<Item>
      reads this, items`history
    {
      var h := items.history;
      if !speedOnly then Last(h) else if h == [] then [] else [h[|h| - 1]]
    }

    /** The answer is an array of the requester's own. */
    method Respond(speedOnly: bool) returns (ret: array<Item?>)
      requires Valid()
      ensures fresh(ret) && ret[..] == Answer(speedOnly)
    {
      items.Newest();
      if !speedOnly {
        ret := items.Snapshot();
      } else if items.len > 0 {
        ret := new Item?[1](_ => null);
        ret[0] := items.data[items.len - 1];
        assert ret[..] == [items.history[|items.history| - 1]];
      } else {
        ret := new Item?[0](_ => null);
      }
    }
  }

  // ----- the host table -----

  class Table {
    var hosts: map<string, Host>
    /** Every dump so far. */
    ghost var dumps: seq<Dump>
    ghost var Repr: set<object>

    /** Each host is filed under its own address, and hosts share nothing. */
    ghost predicate Valid()
      reads `hosts, `Repr, Repr
      ensures Valid() ==> this !in Repr && forall ip :: ip in hosts ==> hosts[ip] in Repr && hosts[ip].Repr <= Repr
    {
      && this !in Repr
      && (forall ip :: ip in hosts ==>
            && hosts[ip] in Repr && hosts[ip].Repr <= Repr
            && hosts[ip].ip == ip && hosts[ip].Valid())
      && (forall i, j :: i in hosts && j in hosts && i != j ==> hosts[i].Repr !! hosts[j].Repr)
    }

    /** Between dumps the table has exactly the hosts mentioned so far, all totals are zero, and
        each host had its turn in every dump from the first that mentions it on. */
    ghost predicate Recorded()
      reads this, hosts.Values
      ensures Recorded() ==> DumpsOrdered(dumps)
    {
      && DumpsOrdered(dumps)
      && (forall ip :: ip in hosts <==> TurnsOf(ip, dumps) != [])
      && (forall ip :: ip in hosts ==>
            hosts[ip].turns == TurnsOf(ip, dumps) && hosts[ip].txTotal == hosts[ip].rxTotal == 0)
    }

    /** The totals so far; a host not in the table has none. */
    ghost function Tx(ip: string): int
      reads `hosts, hosts.Values
    {
      if ip in hosts then hosts[ip].txTotal else 0
    }

    ghost function Rx(ip: string): int
      reads `hosts, hosts.Values
    {
      if ip in hosts then hosts[ip].rxTotal else 0
    }

    constructor ()
      ensures Valid() && Recorded() && hosts == map[] && dumps == [] && fresh(Repr)
    {
      hosts, dumps, Repr := map[], [], {};
    }

    /** Hosts stay, and a new one has no history. */
    twostate predicate Extends()
      reads `hosts, `Repr, hosts.Values
    {
      && fresh(Repr - old(Repr)) && Repr >= old(Repr)
      && (forall ip :: ip in old(hosts) ==> ip in hosts && hosts[ip] == old(hosts[ip]))
      && (forall ip :: ip in hosts && ip !in old(hosts) ==> fresh(hosts[ip]) && hosts[ip].turns == [])
    }

    method AddSpeeds(ip: string, tx: int, rx: int)
      requires Valid()
      modifies this`hosts, this`Repr, hosts.Values`rxTotal, hosts.Values`txTotal
      ensures Valid() && Extends() && hosts.Keys == old(hosts.Keys) + {ip}
      ensures forall i :: Tx(i) == old(Tx(i)) + if i == ip then tx else 0
      ensures forall i :: Rx(i) == old(Rx(i)) + if i == ip then rx else 0
    {
      hide Host.Valid, Table.Valid;
      if ip !in hosts {
        File(ip, tx, rx);
      } else {
        Credit(ip, hosts[ip], tx, rx);
      }
    }

    method Credit(ip: string, host: Host, tx: int, rx: int)
      requires Valid() && ip in hosts && hosts[ip] == host
      modifies host`rxTotal, host`txTotal
      ensures Valid()
      ensures forall i :: Tx(i) == old(Tx(i)) + if i == ip then tx else 0
      ensures forall i :: Rx(i) == old(Rx(i)) + if i == ip then rx else 0
    {
      hide Host.Valid;
      host.AddTotals(tx, rx);
    }

    method File(ip: string, tx: int, rx: int)
      requires Valid() && ip !in hosts
      modifies this`hosts, this`Repr
      ensures Valid() && Extends() && hosts.Keys == old(hosts.Keys) + {ip}
      ensures forall i :: Tx(i) == old(Tx(i)) + if i == ip then tx else 0
      ensures forall i :: Rx(i) == old(Rx(i)) + if i == ip then rx else 0
    {
      hide Host.Valid, Table.Valid;
      var host := new Host(ip, rx, tx);
      Insert(host);
    }

    method Insert(host: Host)
      requires Valid() && host.Valid() && host.Repr !! Repr && this !in host.Repr
      modifies this`hosts, this`Repr
      ensures Valid() && hosts == old(hosts)[host.ip := host] && Repr == old(Repr) + host.Repr
    {
      hide Host.Valid;
      hosts := hosts[host.ip := host];
      Repr := Repr + host.Repr;
    }

    /** One flow: skipped, or credited to its source and then, reversed, to its destination. */
    method AddFlow(flow: Flow, ghost before: seq<Flow>)
      requires Valid()
      requires forall ip :: Tx(ip) == TxOf(ip, before) && Rx(ip) == RxOf(ip, before)
      modifies this`hosts, this`Repr, hosts.Values`rxTotal, hosts.Values`txTotal
      ensures Valid() && Extends()
      ensures hosts.Keys + HostsOf(before) == old(hosts.Keys) + HostsOf(before + [flow])
      ensures HostsOf(before) <= HostsOf(before + [flow])
      ensures forall ip :: Tx(ip) == TxOf(ip, before + [flow]) && Rx(ip) == RxOf(ip, before + [flow])
    {
      hide Host.Valid, Table.Valid, Tx, Rx, TxOf, RxOf, HostsOf;
      FlowCredits(before, flow);
      if Skipped(flow) {
        return;
      }
      AddEnds(flow);
    }

    /** The flow is credited to its source and then, reversed, to its destination. */
    method AddEnds(f: Flow)
      requires Valid() && !Skipped(f)
      modifies this`hosts, this`Repr, hosts.Values`rxTotal, hosts.Values`txTotal
      ensures Valid() && Extends()
      ensures hosts.Keys == old(hosts.Keys) + (if f.src.Unicast? then {f.src.text} else {})
                            + (if f.dst.Unicast? then {f.dst.text} else {})
      ensures forall i :: Tx(i) == old(Tx(i)) + (if IsSource(f, i) then f.orig else 0)
                                   + (if IsDestination(f, i) then f.reply else 0)
      ensures forall i :: Rx(i) == old(Rx(i)) + (if IsSource(f, i) then f.reply else 0)
                                   + (if IsDestination(f, i) then f.orig else 0)
    {
      hide Host.Valid, Table.Valid, Tx, Rx;
      AddEnd(f.src, f.orig, f.reply);
      AddEnd(f.dst, f.reply, f.orig);
    }

    /** One end of a flow, if it has an address. */
    method AddEnd(end: IpAddr, tx: int, rx: int)
      requires Valid()
      modifies this`hosts, this`Repr, hosts.Values`rxTotal, hosts.Values`txTotal
      ensures Valid() && Extends() && hosts.Keys == old(hosts.Keys) + (if end.Unicast? then {end.text} else {})
      ensures forall i :: Tx(i) == old(Tx(i)) + if end == Unicast(i) then tx else 0
      ensures forall i :: Rx(i) == old(Rx(i)) + if end == Unicast(i) then rx else 0
    {
      hide Host.Valid, Table.Valid, Tx, Rx;
      if end.Unicast? {
        AddSpeeds(end.text, tx, rx);
      }
    }

    /** The loop over a dump: each host's totals become the direct sums over the flows where it
        is source or destination. */
    method Accumulate(flows: seq<Flow>)
      requires Valid() && forall ip :: Tx(ip) == Rx(ip) == 0
      modifies this`hosts, this`Repr, hosts.Values`rxTotal, hosts.Values`txTotal
      ensures Valid() && Extends() && hosts.Keys == old(hosts.Keys) + HostsOf(flows)
      ensures forall ip :: Tx(ip) == TxOf(ip, flows) && Rx(ip) == RxOf(ip, flows)
    {
      hide Host.Valid, Table.Valid, Tx, Rx, TxOf, RxOf, HostsOf;
      var n := 0;
      NoFlows();
      assert flows[..0] == [];
      while n < |flows|
        invariant 0 <= n <= |flows|
        invariant Valid() && Extends() && hosts.Keys == old(hosts.Keys) + HostsOf(flows[..n])
        invariant forall ip :: Tx(ip) == TxOf(ip, flows[..n]) && Rx(ip) == RxOf(ip, flows[..n])
      {
        assert flows[..n + 1] == flows[..n] + [flows[n]];
        AddFlow(flows[n], flows[..n]);
        n := n + 1;
      }
      assert flows[..n] == flows;
    }

    /** respHosts: one host if it is asked for by address and known, else all of them. */
    method RespHosts(hostIP: string, speedOnly: bool) returns (rets: map<string, array<Item?>>)
      requires Valid()
      ensures rets.Keys == if hostIP != "" then hosts.Keys * {hostIP} else hosts.Keys
      ensures forall ip :: ip in rets ==> fresh(rets[ip]) && rets[ip][..] == hosts[ip].Answer(speedOnly)
    {
      hide Host.Valid, Host.Answer, Table.Valid;
      if hostIP == "" {
        rets := RespAll(speedOnly);
      } else if hostIP in hosts {
        var ret := RespondFor(hostIP, speedOnly);
        rets := map[hostIP := ret];
      } else {
        rets := map[];
      }
    }

    method RespAll(speedOnly: bool) returns (rets: map<string, array<Item?>>)
      requires Valid()
      ensures rets.Keys == hosts.Keys
      ensures forall ip :: ip in rets ==> fresh(rets[ip]) && rets[ip][..] == hosts[ip].Answer(speedOnly)
    {
      hide Host.Valid, Host.Answer, Table.Valid;
      rets := map[];
      var todo := hosts.Keys;
      while todo != {}
        invariant Valid() && todo <= hosts.Keys && rets.Keys == hosts.Keys - todo
        invariant forall ip :: ip in rets ==> fresh(rets[ip]) && rets[ip][..] == hosts[ip].Answer(speedOnly)
        decreases |todo|
      {
        var ip :| ip in todo;
        var ret := RespondFor(ip, speedOnly);
        rets := rets[ip := ret];
        todo := todo - {ip};
      }
    }

    method RespondFor(ip: string, speedOnly: bool) returns (ret: array<Item?>)
      requires Valid() && ip in hosts
      ensures fresh(ret) && ret[..] == hosts[ip].Answer(speedOnly)
    {
      hide Host.Valid, Host.Answer;
      ret := hosts[ip].Respond(speedOnly);
    }

    /** The host still has these turns, and the totals from the dump. */
    ghost predicate Waits(ip: string, before: seq<Turn>, t: Turn)
      requires Valid()
      reads `hosts, `Repr, Repr
    {
      && ip in hosts && hosts[ip].turns == before && hosts[ip].StartedBy(t.curr)
      && hosts[ip].txTotal == t.tx && hosts[ip].rxTotal == t.rx
    }

    /** The host had its turn, and its totals are zero. */
    ghost predicate Sampled(ip: string, before: seq<Turn>, t: Turn)
      requires Valid()
      reads `hosts, `Repr, Repr
    {
      ip in hosts && hosts[ip].turns == before + [t] && hosts[ip].txTotal == hosts[ip].rxTotal == 0
    }

    /** What was completed before is still there. */
    ghost predicate Continues(was: map<string, seq<Item>>)
      requires Valid()
      reads `hosts, `Repr, Repr
    {
      forall ip :: ip in was ==> ip in hosts && was[ip] <= hosts[ip].items.history
    }

    ghost function Histories(): (was: map<string, seq<Item>>)
      requires Valid()
      reads `hosts, `Repr, Repr
      ensures Continues(was)
    {
      map ip | ip in hosts :: hosts[ip].items.history
    }

    method ProcessOne(ip: string, host: Host, curr: int, ghost before: seq<Turn>, ghost t: Turn,
                      ghost was: map<string, seq<Item>>)
      requires Valid() && Continues(was) && Waits(ip, before, t) && hosts[ip] == host && t.curr == curr
      modifies this`Repr, host.Repr
      ensures Valid() && fresh(Repr - old(Repr)) && Repr >= old(Repr)
      ensures Sampled(ip, before, t)
      ensures forall j, b, u :: j in hosts && j != ip && old(Waits(j, b, u)) ==> Waits(j, b, u)
      ensures forall j, b, u :: j in hosts && j != ip && old(Sampled(j, b, u)) ==> Sampled(j, b, u)
      ensures Continues(was)
    {
      hide Host.Valid, Last;
      host.TakeTotals(curr);
      Repr := Repr + host.Repr;
    }

    /** The loop over the hosts, in any order: each gives up its totals to a new item in progress. */
    method ProcessAll(curr: int, ghost before: map<string, seq<Turn>>, ghost want: map<string, Turn>,
                      ghost was: map<string, seq<Item>>)
      requires Valid() && Continues(was) && before.Keys == want.Keys == hosts.Keys
      requires forall ip :: ip in hosts ==> Waits(ip, before[ip], want[ip]) && want[ip].curr == curr
      modifies this`Repr, Repr
      ensures Valid() && hosts == old(hosts) && fresh(Repr - old(Repr)) && Repr >= old(Repr)
      ensures forall ip :: ip in hosts ==> Sampled(ip, before[ip], want[ip])
      ensures Continues(was)
    {
      hide Host.Valid, Host.StartedBy, Sampled, Waits, Continues, Last, Table.Valid;
      var todo := hosts.Keys;
      while todo != {}
        invariant todo <= hosts.Keys && hosts == old(hosts)
        invariant Valid() && fresh(Repr - old(Repr)) && Repr >= old(Repr)
        invariant forall ip :: ip in todo ==> Waits(ip, before[ip], want[ip])
        invariant forall ip :: ip in hosts && ip !in todo ==> Sampled(ip, before[ip], want[ip])
        invariant Continues(was)
        decreases |todo|
      {
        var ip :| ip in todo;
        ProcessOne(ip, hosts[ip], curr, before[ip], want[ip], was);
        todo := todo - {ip};
      }
    }

    /** fetchItems, given the dump: every host in the table, mentioned or not, takes its turn with
        the direct sums over the dump, and what was completed before stays. */
    method FetchItems(flows: seq<Flow>, curr: int, ghost was: map<string, seq<Item>>)
      requires Valid() && Recorded() && Continues(was) && (dumps != [] ==> dumps[|dumps| - 1].curr <= curr)
      modifies this, Repr
      ensures Valid() && Recorded() && fresh(Repr - old(Repr))
      ensures dumps == old(dumps) + [Dump(flows, curr)]
      ensures hosts.Keys == old(hosts.Keys) + HostsOf(flows)
      ensures forall ip :: ip in old(hosts) ==> hosts[ip] == old(hosts[ip])
      ensures Continues(was)
    {
      hide Host.Valid, Table.Valid, Table.Recorded, Continues, Tx, Rx, TxOf, RxOf, HostsOf, Last, TurnsOf;
      Gather(flows, was);
      TakeTurns(flows, curr, was);
      Record(Dump(flows, curr));
    }

    /** The first loop: totals are the sums over the dump, and nobody had a turn yet. */
    method Gather(flows: seq<Flow>, ghost was: map<string, seq<Item>>)
      requires Valid() && Recorded() && Continues(was)
      modifies this`hosts, this`Repr, hosts.Values`rxTotal, hosts.Values`txTotal
      ensures Valid() && Extends() && Continues(was)
      ensures hosts.Keys == old(hosts.Keys) + HostsOf(flows)
      ensures forall ip :: Tx(ip) == TxOf(ip, flows) && Rx(ip) == RxOf(ip, flows)
      ensures forall ip :: ip in hosts <==> TurnsOf(ip, dumps) != [] || ip in HostsOf(flows)
      ensures forall ip :: ip in hosts ==> hosts[ip].turns == TurnsOf(ip, dumps)
    {
      hide Host.Valid, Table.Valid, Tx, Rx, TxOf, RxOf, HostsOf, Last, TurnsOf;
      ZeroBetweenDumps();
      Accumulate(flows);
      forall ip | ip in hosts
        ensures hosts[ip].turns == TurnsOf(ip, dumps)
      {
        assert ip !in old(hosts) ==> TurnsOf(ip, dumps) == [];
      }
    }

    lemma ZeroBetweenDumps()
      requires Recorded()
      ensures forall ip :: Tx(ip) == Rx(ip) == 0
    {
    }

    /** Every host takes the turn that the dump gives it. */
    method TakeTurns(flows: seq<Flow>, curr: int, ghost was: map<string, seq<Item>>)
      requires Valid() && Continues(was) && forall ip :: Tx(ip) == TxOf(ip, flows) && Rx(ip) == RxOf(ip, flows)
      requires forall ip :: ip in hosts ==> hosts[ip].turns == TurnsOf(ip, dumps)
      requires dumps != [] ==> dumps[|dumps| - 1].curr <= curr
      modifies this`Repr, Repr
      ensures Valid() && hosts == old(hosts) && fresh(Repr - old(Repr))
      ensures forall ip :: ip in hosts ==>
                && hosts[ip].turns == TurnsOf(ip, dumps) + [Turn(curr, TxOf(ip, flows), RxOf(ip, flows))]
                && hosts[ip].txTotal == hosts[ip].rxTotal == 0
      ensures Continues(was)
    {
      hide Host.Valid, Table.Valid, TxOf, RxOf, HostsOf, Last, TurnsOf, Continues;
      ghost var before := map ip | ip in hosts :: TurnsOf(ip, dumps);
      ghost var want := map ip | ip in hosts :: Turn(curr, TxOf(ip, flows), RxOf(ip, flows));
      forall ip | ip in hosts
        ensures Waits(ip, before[ip], want[ip])
      {
        assert Tx(ip) == TxOf(ip, flows) && Rx(ip) == RxOf(ip, flows);
        LastTurn(ip, dumps);
      }
      ProcessAll(curr, before, want, was);
      forall ip | ip in hosts
        ensures hosts[ip].turns == before[ip] + [want[ip]] && hosts[ip].txTotal == hosts[ip].rxTotal == 0
      {
        assert Sampled(ip, before[ip], want[ip]);
      }
    }

    /** One more dump on record. */
    ghost method Record(d: Dump)
      requires Valid() && DumpsOrdered(dumps) && (dumps != [] ==> dumps[|dumps| - 1].curr <= d.curr)
      requires forall ip :: ip in hosts <==> TurnsOf(ip, dumps) != [] || ip in HostsOf(d.flows)
      requires forall ip :: ip in hosts ==>
                 && hosts[ip].turns == TurnsOf(ip, dumps) + [Turn(d.curr, TxOf(ip, d.flows), RxOf(ip, d.flows))]
                 && hosts[ip].txTotal == hosts[ip].rxTotal == 0
      modifies this`dumps
      ensures Valid() && Recorded() && dumps == old(dumps) + [d]
    {
      hide Host.Valid, Table.Valid, TxOf, RxOf, HostsOf, Last, TurnsOf, DumpsOrdered;
      DumpsSnoc(dumps, d);
      forall ip
        ensures TurnsOf(ip, dumps + [d]) == if TurnsOf(ip, dumps) == [] && ip !in HostsOf(d.flows) then []
                else TurnsOf(ip, dumps) + [Turn(d.curr, TxOf(ip, d.flows), RxOf(ip, d.flows))]
      {
        TurnsSnoc(ip, dumps, d);
      }
      dumps := dumps + [d];
    }
  }

  /** A host has completed exactly the items of the whole run of dumps. */
  lemma RecordedItems(t: Table, ip: string)
    requires t.Valid() && t.Recorded() && ip in t.hosts
    ensures var (h, all) := (t.hosts[ip].items.history, ItemsOf(ip, t.dumps));
            |h| == |all| && forall k :: 0 <= k < |h| ==> h[k].Contents() == all[k]
  {
    hide TurnItems, TurnsOf, TurnsOrdered, HostsOf;
  }

  lemma ValidWindow(t: Table, ip: string)
    requires t.Valid() && ip in t.hosts
    ensures t.hosts[ip].items.Valid()
  {
    hide TurnItems, TurnsOrdered;
  }

  /** A host's window holds the last twelve of those. */
  lemma WindowIsWholeRun(t: Table, ip: string)
    requires t.Valid() && t.Recorded() && ip in t.hosts
    ensures var (w, all) := (t.hosts[ip].items, Last(ItemsOf(ip, t.dumps)));
            && w.len == |all| <= w.data.Length
            && forall k :: 0 <= k < |all| ==> w.data[k] != null && w.data[k].Contents() == all[k]
  {
    hide ItemsOf, Table.Recorded, Table.Valid, Host.Valid, HostsOf;
    RecordedItems(t, ip);
    var w := t.hosts[ip].items;
    ValidWindow(t, ip);
    assert forall k :: 0 <= k < w.len ==> w.data[k] == w.data[..w.len][k];
  }

  /** What a request is told of a host: its newest completed item, if any, or the last twelve. */
  lemma AnswerOfRun(t: Table, ip: string, speedOnly: bool)
    requires t.Valid() && t.Recorded() && ip in t.hosts
    ensures var (answer, all) := (t.hosts[ip].Answer(speedOnly), ItemsOf(ip, t.dumps));
            var n := if speedOnly then 1 else 12;
            && |answer| == (if |all| <= n then |all| else n)
            && forall k, j :: 0 <= k < |answer| && j == |all| - |answer| + k ==> answer[k].Contents() == all[j]
  {
    hide ItemsOf, Table.Recorded, Table.Valid, Host.Valid, HostsOf;
    RecordedItems(t, ip);
  }

  // ----- the balance of a table -----

  ghost function SampledTx(t: Table, ips: seq<string>): int
    requires forall ip :: ip in ips ==> ip in t.hosts && t.hosts[ip].lastItem != null
    reads t, t.hosts.Values, set ip | ip in ips && ip in t.hosts :: t.hosts[ip].lastItem
  {
    if ips == [] then 0 else t.hosts[ips[0]].lastItem.txStart + SampledTx(t, ips[1..])
  }

  ghost function SampledRx(t: Table, ips: seq<string>): int
    requires forall ip :: ip in ips ==> ip in t.hosts && t.hosts[ip].lastItem != null
    reads t, t.hosts.Values, set ip | ip in ips && ip in t.hosts :: t.hosts[ip].lastItem
  {
    if ips == [] then 0 else t.hosts[ips[0]].lastItem.rxStart + SampledRx(t, ips[1..])
  }

  /** After a dump every host's item in progress starts from the direct sums over that dump. */
  lemma SampleIsSum(t: Table, ip: string)
    requires t.Valid() && t.Recorded() && t.dumps != [] && ip in t.hosts
    ensures var d := t.dumps[|t.dumps| - 1];
            && t.hosts[ip].lastItem != null && t.hosts[ip].lastItem.startTime == d.curr
            && t.hosts[ip].lastItem.txStart == TxOf(ip, d.flows) && t.hosts[ip].lastItem.rxStart == RxOf(ip, d.flows)
  {
    hide TurnItems, TxOf, RxOf, HostsOf;
  }

  lemma {:induction false} SamplesAreSums(t: Table, ips: seq<string>)
    requires t.Valid() && t.Recorded() && t.dumps != [] && forall ip :: ip in ips ==> ip in t.hosts
    ensures forall ip :: ip in ips ==> t.hosts[ip].lastItem != null
    ensures SampledTx(t, ips) == SumTx(ips, t.dumps[|t.dumps| - 1].flows)
    ensures SampledRx(t, ips) == SumRx(ips, t.dumps[|t.dumps| - 1].flows)
  {
    hide Table.Valid, Table.Recorded, TxOf, RxOf;
    if ips != [] {
      SampleIsSum(t, ips[0]);
      SamplesAreSums(t, ips[1..]);
      assert ips == [ips[0]] + ips[1..];
    }
  }

  lemma MentionedAreFiled(t: Table)
    requires t.Recorded() && t.dumps != []
    ensures forall ip :: ip in HostsOf(t.dumps[|t.dumps| - 1].flows) ==> ip in t.hosts
  {
    hide TxOf, RxOf, HostsOf;
  }

  /** After every dump, over all hosts of the table: the samples of what was sent and of what was
      received are equal and add up to both directions of all kept flows, if and only if no
      bytes are on a kept flow with an invalid end. */
  lemma TableIsBalancedIff(t: Table, ips: seq<string>)
    requires t.Valid() && t.Recorded() && t.dumps != []
    requires Distinct(ips) && forall ip :: ip in ips <==> ip in t.hosts
    ensures forall ip :: ip in ips ==> t.hosts[ip].lastItem != null
    ensures var flows := t.dumps[|t.dumps| - 1].flows;
            SampledTx(t, ips) == SampledRx(t, ips) == KeptBytes(flows)
            <==> forall f :: f in flows && HalfValid(f) ==> f.orig == f.reply == 0
  {
    hide Table.Valid, Table.Recorded, SampledTx, SampledRx, SumTx, SumRx, KeptBytes, HostsOf, HalfValid;
    SamplesAreSums(t, ips);
    MentionedAreFiled(t);
    TrafficIsConservedIff(ips, t.dumps[|t.dumps| - 1].flows);
  }

  // ----- answers and later dumps -----

  /** A run of dumps. */
  method TakeDumps(t: Table, later: seq<Dump>, ghost was: map<string, seq<Item>>)
    requires t.Valid() && t.Recorded() && DumpsOrdered(t.dumps + later) && t.Continues(was)
    modifies t, t.Repr
    ensures t.Valid() && t.Recorded() && t.dumps == old(t.dumps) + later && t.Continues(was)
  {
    hide Table.Valid, Table.Recorded, Host.Valid, HostsOf, Table.Continues;
    var i := 0;
    assert later[..0] == [];
    while i < |later|
      invariant 0 <= i <= |later| && t.Valid() && t.Recorded() && fresh(t.Repr - old(t.Repr))
      invariant t.dumps == old(t.dumps) + later[..i] && t.Continues(was)
    {
      EarlierThan(old(t.dumps), later, i);
      t.FetchItems(later[i].flows, later[i].curr, was);
      i := i + 1;
    }
    assert later[..i] == later;
  }

  /** Any number of later dumps leaves all answers of a table, and every item in them, as they were. */
  method AnswersSurvive(t: Table, rets: map<string, array<Item?>>, later: seq<Dump>)
    requires t.Valid() && t.Recorded() && DumpsOrdered(t.dumps + later)
    requires forall ip :: ip in rets ==>
               && ip in t.hosts && rets[ip] !in t.Repr
               && forall x :: x in rets[ip][..] ==> x != null && x in t.hosts[ip].items.history
    modifies t, t.Repr
    ensures t.Valid() && t.Recorded() && t.dumps == old(t.dumps) + later
    ensures forall ip :: ip in rets ==> rets[ip][..] == old(rets[ip][..])
    ensures forall ip :: ip in rets ==>
              forall x: Item? :: x in old(rets[ip][..]) ==> x != null && x.Contents() == old(x.Contents())
  {
    hide Table.Valid, Table.Recorded, Host.Valid, Last, ItemsOf, HostsOf, Table.Continues;
    ghost var was: map<string, seq<Item>> := t.Histories();
    forall ip | ip in t.hosts
      ensures |was[ip]| == |ItemsOf(ip, t.dumps)|
      ensures forall k :: 0 <= k < |was[ip]| ==> was[ip][k].Contents() == ItemsOf(ip, t.dumps)[k]
    {
      RecordedItems(t, ip);
    }
    TakeDumps(t, later, was);
    forall ip | ip in rets
      ensures forall x: Item :: x in was[ip] ==> x.Contents() == old(x.Contents())
    {
      ContinuesIn(t, was, ip);
      RecordedItems(t, ip);
      ItemsOfPrefix(ip, old(t.dumps), later);
    }
  }

  lemma ContinuesIn(t: Table, was: map<string, seq<Item>>, ip: string)
    requires t.Valid() && t.Continues(was) && ip in was
    ensures ip in t.hosts && was[ip] <= t.hosts[ip].items.history
  {
  }

  lemma EarlierThan(dumps: seq<Dump>, later: seq<Dump>, i: nat)
    requires i < |later| && DumpsOrdered(dumps + later)
    ensures var before := dumps + later[..i];
            before != [] ==> before[|before| - 1].curr <= later[i].curr
    ensures dumps + later[..i + 1] == dumps + later[..i] + [Dump(later[i].flows, later[i].curr)]
  {
    var before := dumps + later[..i];
    var all := dumps + later;
    assert all[|before|] == later[i];
    assert before != [] ==> before[|before| - 1] == all[|before| - 1];
  }
}
