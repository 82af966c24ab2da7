/** What dumps of the connection table amount to, in backend/service/lan_stats_linux.go: the bytes
    of each host, their balance over all hosts, and the items that a run of dumps completes. */
module LanFlows {
  import opened StatsWindow
  import opened WanStats
  import opened Wrappers

  /** An address as `netip` classifies it; the text is the key of the host table. */
  datatype IpAddr = Invalid | Unspecified | Multicast | Unicast(text: string)

  datatype Flow = Flow(src: IpAddr, dst: IpAddr, orig: nat, reply: nat)

  predicate Skipped(f: Flow) {
    f.src.Unspecified? || f.dst.Unspecified? || f.src.Multicast? || f.dst.Multicast?
  }

  // ----- what a dump amounts to -----

  predicate IsSource(f: Flow, ip: string) {
    !Skipped(f) && f.src == Unicast(ip)
  }

  predicate IsDestination(f: Flow, ip: string) {
    !Skipped(f) && f.dst == Unicast(ip)
  }

  /** The bytes a host sent: its own flows' originals and the replies of flows to it. */
  function TxOf(ip: string, flows: seq<Flow>): nat {
    if flows == [] then 0
    else var f := flows[|flows| - 1];
      TxOf(ip, flows[..|flows| - 1])
      + (if IsSource(f, ip) then f.orig else 0) + (if IsDestination(f, ip) then f.reply else 0)
  }

  function RxOf(ip: string, flows: seq<Flow>): nat {
    if flows == [] then 0
    else var f := flows[|flows| - 1];
      RxOf(ip, flows[..|flows| - 1])
      + (if IsSource(f, ip) then f.reply else 0) + (if IsDestination(f, ip) then f.orig else 0)
  }

  /** The hosts that a dump mentions. */
  function HostsOf(flows: seq<Flow>): set<string> {
    if flows == [] then {}
    else var f := flows[|flows| - 1];
      HostsOf(flows[..|flows| - 1])
      + (if !Skipped(f) && f.src.Unicast? then {f.src.text} else {})
      + (if !Skipped(f) && f.dst.Unicast? then {f.dst.text} else {})
  }

  // ----- conservation over all hosts -----

  function SumTx(ips: seq<string>, flows: seq<Flow>): nat {
    if ips == [] then 0 else TxOf(ips[0], flows) + SumTx(ips[1..], flows)
  }

  function SumRx(ips: seq<string>, flows: seq<Flow>): nat {
    if ips == [] then 0 else RxOf(ips[0], flows) + SumRx(ips[1..], flows)
  }

  /** A flow counts unless one of its ends is unspecified or multicast. */
  predicate Counts(f: Flow) {
    !(f.src.Unspecified? || f.src.Multicast? || f.dst.Unspecified? || f.dst.Multicast?)
  }

  /** Both directions of every flow that counts. */
  function KeptBytes(flows: seq<Flow>): nat {
    if flows == [] then 0
    else var f := flows[|flows| - 1];
      KeptBytes(flows[..|flows| - 1]) + if Counts(f) then f.orig + f.reply else 0
  }

  /** Bytes that no host is said to have sent: the end that sent them has no address. */
  function LostTx(flows: seq<Flow>): nat {
    if flows == [] then 0
    else var f := flows[|flows| - 1];
      LostTx(flows[..|flows| - 1])
      + if Counts(f) then (if f.src.Invalid? then f.orig else 0) + (if f.dst.Invalid? then f.reply else 0) else 0
  }

  function LostRx(flows: seq<Flow>): nat {
    if flows == [] then 0
    else var f := flows[|flows| - 1];
      LostRx(flows[..|flows| - 1])
      + if Counts(f) then (if f.src.Invalid? then f.reply else 0) + (if f.dst.Invalid? then f.orig else 0) else 0
  }

  predicate Distinct(ips: seq<string>) {
    forall i, j :: 0 <= i < j < |ips| ==> ips[i] != ips[j]
  }

  /** `bytes` for each listed host with this address. */
  function Credited(ips: seq<string>, a: IpAddr, bytes: nat): nat {
    if ips == [] then 0 else (if a == Unicast(ips[0]) then bytes else 0) + Credited(ips[1..], a, bytes)
  }

  lemma {:induction false} CreditedOnce(ips: seq<string>, a: IpAddr, bytes: nat)
    requires Distinct(ips)
    ensures Credited(ips, a, bytes) == if a.Unicast? && a.text in ips then bytes else 0
  {
    if ips != [] {
      CreditedOnce(ips[1..], a, bytes);
    }
  }

  lemma OneMoreFlow(ip: string, flows: seq<Flow>, f: Flow)
    ensures TxOf(ip, flows + [f]) == TxOf(ip, flows) + (if IsSource(f, ip) then f.orig else 0)
                                     + (if IsDestination(f, ip) then f.reply else 0)
    ensures RxOf(ip, flows + [f]) == RxOf(ip, flows) + (if IsSource(f, ip) then f.reply else 0)
                                     + (if IsDestination(f, ip) then f.orig else 0)
  {
    assert (flows + [f])[..|flows|] == flows;
  }

  lemma {:induction false} SumSnoc(ips: seq<string>, flows: seq<Flow>, f: Flow)
    ensures SumTx(ips, flows + [f]) == SumTx(ips, flows)
              + if Skipped(f) then 0 else Credited(ips, f.src, f.orig) + Credited(ips, f.dst, f.reply)
    ensures SumRx(ips, flows + [f]) == SumRx(ips, flows)
              + if Skipped(f) then 0 else Credited(ips, f.src, f.reply) + Credited(ips, f.dst, f.orig)
  {
    hide TxOf, RxOf;
    if ips != [] {
      SumSnoc(ips[1..], flows, f);
      OneMoreFlow(ips[0], flows, f);
    }
  }

  lemma {:induction false} SumNoFlows(ips: seq<string>)
    ensures SumTx(ips, []) == SumRx(ips, []) == 0
  {
    if ips != [] {
      SumNoFlows(ips[1..]);
    }
  }

  /** For any enumeration of the host table, which has every host of the dump: what all hosts
      sent, with what lost its sender, is both directions of all kept flows, and so is what all
      hosts received with what lost its receiver. */
  lemma {:induction false} TrafficIsAccountedFor(ips: seq<string>, flows: seq<Flow>)
    requires Distinct(ips)
    requires forall ip :: ip in HostsOf(flows) ==> ip in ips
    ensures SumTx(ips, flows) + LostTx(flows) == KeptBytes(flows)
    ensures SumRx(ips, flows) + LostRx(flows) == KeptBytes(flows)
    decreases |flows|
  {
    if flows == [] {
      SumNoFlows(ips);
    } else {
      var before, f := flows[..|flows| - 1], flows[|flows| - 1];
      assert before + [f] == flows;
      TrafficIsAccountedFor(ips, before);
      SumSnoc(ips, before, f);
      CreditedOnce(ips, f.src, f.orig);
      CreditedOnce(ips, f.dst, f.reply);
      CreditedOnce(ips, f.src, f.reply);
      CreditedOnce(ips, f.dst, f.orig);
    }
  }

  predicate HalfValid(f: Flow) {
    Counts(f) && (f.src.Invalid? || f.dst.Invalid?)
  }

  lemma {:induction false} NothingLostIff(flows: seq<Flow>)
    ensures LostTx(flows) == LostRx(flows) == 0
            <==> forall f :: f in flows && HalfValid(f) ==> f.orig == f.reply == 0
  {
    if flows != [] {
      var before, f := flows[..|flows| - 1], flows[|flows| - 1];
      assert flows == before + [f];
      NothingLostIff(before);
    }
  }

  /** What all hosts sent equals what all hosts received and both directions of all kept flows, if
      and only if no bytes are on a kept flow with an invalid end. */
  lemma TrafficIsConservedIff(ips: seq<string>, flows: seq<Flow>)
    requires Distinct(ips)
    requires forall ip :: ip in HostsOf(flows) ==> ip in ips
    ensures SumTx(ips, flows) == SumRx(ips, flows) == KeptBytes(flows)
            <==> forall f :: f in flows && HalfValid(f) ==> f.orig == f.reply == 0
  {
    TrafficIsAccountedFor(ips, flows);
    NothingLostIff(flows);
  }

  /** One flow with an invalid end: only its other end is counted. */
  lemma HalfValidFlowIsCountedOnce(ip: string, bytes: nat)
    requires bytes > 0
    ensures var flows := [Flow(Unicast(ip), Invalid, bytes, 0)];
            SumTx([ip], flows) == KeptBytes(flows) == bytes && SumRx([ip], flows) == 0
  {
    var f := Flow(Unicast(ip), Invalid, bytes, 0);
    SumSnoc([ip], [], f);
    SumNoFlows([ip]);
    assert [] + [f] == [f];
  }

  lemma NoFlows()
    ensures HostsOf([]) == {} && forall ip :: TxOf(ip, []) == RxOf(ip, []) == 0
  {
  }

  /** What one more flow adds to every host's sums, and to the hosts mentioned: the source sent the
      original bytes and received the reply, the destination the other way round. */
  lemma FlowCredits(before: seq<Flow>, f: Flow)
    ensures forall ip :: TxOf(ip, before + [f]) == TxOf(ip, before)
              + (if Counts(f) && f.src == Unicast(ip) then f.orig else 0)
              + (if Counts(f) && f.dst == Unicast(ip) then f.reply else 0)
    ensures forall ip :: RxOf(ip, before + [f]) == RxOf(ip, before)
              + (if Counts(f) && f.src == Unicast(ip) then f.reply else 0)
              + (if Counts(f) && f.dst == Unicast(ip) then f.orig else 0)
    ensures forall ip :: ip in HostsOf(before + [f])
                         <==> ip in HostsOf(before) || (Counts(f) && (f.src == Unicast(ip) || f.dst == Unicast(ip)))
  {
    assert (before + [f])[..|before|] == before;
  }

  // ----- one host over many dumps -----

  /** What a dump says of one host: the clock and the host's totals. */
  datatype Turn = Turn(curr: int, tx: int, rx: int)

  predicate TurnsOrdered(turns: seq<Turn>) {
    forall i, j :: 0 <= i < j < |turns| ==> turns[i].curr <= turns[j].curr
  }

  /** The rate that completes an item; a counter that went back repeats the last rate. */
  function LanAverage(before: int, after: int, duration: int, last: int): (avg: int)
    requires duration >= 1
    ensures last >= 0 ==> avg >= 0
  {
    if after < before then last else Average(before, after, duration)
  }

  /** The item between two turns, given the newest item before, if any. */
  function ItemBetween(a: Turn, b: Turn, before: seq<Rate>): Rate
    requires a.curr <= b.curr
  {
    var d := Duration(a.curr, b.curr);
    var (txLast, rxLast) := if before == [] then (0, 0) else (before[|before| - 1].txAvg, before[|before| - 1].rxAvg);
    Rate(a.curr, b.curr, a.rx, a.tx, LanAverage(a.rx, b.rx, d, rxLast), LanAverage(a.tx, b.tx, d, txLast))
  }

  /** All items that a run of turns completes. */
  function TurnItems(turns: seq<Turn>): seq<Rate>
    requires TurnsOrdered(turns)
  {
    if |turns| < 2 then []
    else
      var n := |turns| - 1;
      var before := TurnItems(turns[..n]);
      before + [ItemBetween(turns[n - 1], turns[n], before)]
  }

  lemma OneMoreTurn(turns: seq<Turn>, t: Turn)
    requires TurnsOrdered(turns) && (turns != [] ==> turns[|turns| - 1].curr <= t.curr)
    ensures TurnsOrdered(turns + [t])
  {
  }

  lemma OneTurnLess(turns: seq<Turn>)
    requires TurnsOrdered(turns) && |turns| >= 2
    ensures var (before, n) := (turns[..|turns| - 1], |turns| - 1);
            TurnsOrdered(before) && before[n - 1].curr <= turns[n].curr && before + [turns[n]] == turns
  {
  }

  lemma TurnItemsSnoc(turns: seq<Turn>, t: Turn)
    requires TurnsOrdered(turns) && (turns != [] ==> turns[|turns| - 1].curr <= t.curr)
    ensures TurnsOrdered(turns + [t])
    ensures TurnItems(turns + [t])
            == if turns == [] then []
               else TurnItems(turns) + [ItemBetween(turns[|turns| - 1], t, TurnItems(turns))]
  {
    hide Duration, LanAverage, ItemBetween, TurnsOrdered;
    OneMoreTurn(turns, t);
    var (all, n) := (turns + [t], |turns|);
    assert all[..n] == turns && all[n] == t;
    if turns != [] {
      assert all[n - 1] == turns[n - 1];
    }
  }

  /** The rate accounts for the bytes by which a total grew in so many milliseconds, up to one unit
      of rate; a total that went back repeats the rate of the item before, if there is one. */
  predicate Accounts(avg: int, ms: int, before: int, after: int, earlier: Option<int>) {
    if after >= before then avg * ms <= 1000 * (after - before) < (avg + 1) * ms
    else avg == if earlier.Some? then earlier.value else 0
  }

  /** The item goes from one turn to the other, with rates that account for both totals. */
  predicate GoesBetween(item: Rate, a: Turn, b: Turn, earlier: Option<Rate>) {
    var ms := (b.curr - a.curr) / 1_000_000 + 1;
    && item.start == a.curr && item.end == b.curr && item.rxStart == a.rx && item.txStart == a.tx
    && Accounts(item.rxAvg, ms, a.rx, b.rx, if earlier.Some? then Some(earlier.value.rxAvg) else None)
    && Accounts(item.txAvg, ms, a.tx, b.tx, if earlier.Some? then Some(earlier.value.txAvg) else None)
    && (earlier.Some? ==> earlier.value.end == item.start)
  }

  function Before(items: seq<Rate>, j: nat): Option<Rate>
    requires j <= |items|
  {
    if j == 0 then None else Some(items[j - 1])
  }

  /** One item from each turn to the next, so without a gap, with rates of zero or more. */
  predicate Contiguous(items: seq<Rate>, turns: seq<Turn>) {
    && |items| == (if |turns| == 0 then 0 else |turns| - 1)
    && (forall j :: 0 <= j < |items| ==> items[j].rxAvg >= 0 && items[j].txAvg >= 0)
    && (forall j :: 0 <= j < |items| ==> GoesBetween(items[j], turns[j], turns[j + 1], Before(items, j)))
  }

  lemma ContiguousSnoc(items: seq<Rate>, turns: seq<Turn>, item: Rate, t: Turn)
    requires Contiguous(items, turns) && turns != []
    requires GoesBetween(item, turns[|turns| - 1], t, Before(items, |items|)) && item.rxAvg >= 0 && item.txAvg >= 0
    ensures Contiguous(items + [item], turns + [t])
  {
    hide GoesBetween;
    var all, next := items + [item], turns + [t];
    assert |next| == |turns| + 1 && |all| == |next| - 1;
    assert forall j :: 0 <= j < |all| ==> all[j] == if j < |items| then items[j] else item;
    assert forall k :: 0 <= k < |next| ==> next[k] == if k < |turns| then turns[k] else t;
    assert forall j :: 0 <= j < |all| ==> Before(all, j) == Before(items, j);
  }

  /** Over any run of turns a host's items follow each other without a gap, and their rates account
      for its totals. */
  lemma {:induction false} TurnItemsAreContiguous(turns: seq<Turn>)
    requires TurnsOrdered(turns)
    ensures Contiguous(TurnItems(turns), turns)
  {
    hide TurnItems, TurnsOrdered, ItemBetween, Contiguous, GoesBetween;
    if |turns| < 2 {
      TooFewTurns(turns);
    } else {
      var (before, t) := (turns[..|turns| - 1], turns[|turns| - 1]);
      OneTurnLess(turns);
      TurnItemsAreContiguous(before);
      TurnItemsSnoc(before, t);
      var items := TurnItems(before);
      ContiguousFacts(items, before);
      ItemAccounts(before[|before| - 1], t, items);
      ContiguousSnoc(items, before, ItemBetween(before[|before| - 1], t, items), t);
    }
  }

  lemma TooFewTurns(turns: seq<Turn>)
    requires |turns| < 2 && TurnsOrdered(turns)
    ensures TurnItems(turns) == [] && Contiguous([], turns)
  {
  }

  lemma ContiguousFacts(items: seq<Rate>, turns: seq<Turn>)
    requires Contiguous(items, turns) && turns != []
    ensures forall j :: 0 <= j < |items| ==> items[j].rxAvg >= 0 && items[j].txAvg >= 0
    ensures items != [] ==> items[|items| - 1].end == turns[|turns| - 1].curr
  {
    if items != [] {
      assert GoesBetween(items[|items| - 1], turns[|items| - 1], turns[|items|], Before(items, |items| - 1));
    }
  }

  lemma ItemAccounts(a: Turn, b: Turn, before: seq<Rate>)
    requires a.curr <= b.curr
    requires forall j :: 0 <= j < |before| ==> before[j].rxAvg >= 0 && before[j].txAvg >= 0
    requires before != [] ==> before[|before| - 1].end == a.curr
    ensures var item := ItemBetween(a, b, before);
            GoesBetween(item, a, b, Before(before, |before|)) && item.rxAvg >= 0 && item.txAvg >= 0
  {
    hide Average;
    var d := (b.curr - a.curr) / 1_000_000 + 1;
    assert Duration(a.curr, b.curr) == d;
    AverageAccounts(a.rx, b.rx, d);
    AverageAccounts(a.tx, b.tx, d);
  }

  lemma AverageAccounts(before: int, after: int, ms: int)
    requires ms >= 1
    ensures before <= after ==> Accounts(Average(before, after, ms), ms, before, after, None)
  {
  }

  /** A dump of the connection table and when it was taken. */
  datatype Dump = Dump(flows: seq<Flow>, curr: int)

  predicate DumpsOrdered(dumps: seq<Dump>) {
    forall i, j :: 0 <= i < j < |dumps| ==> dumps[i].curr <= dumps[j].curr
  }

  /** A host has a turn in each dump from the first that mentions it on. */
  function TurnsOf(ip: string, dumps: seq<Dump>): seq<Turn> {
    if dumps == [] then []
    else
      var (before, d) := (TurnsOf(ip, dumps[..|dumps| - 1]), dumps[|dumps| - 1]);
      if before == [] && ip !in HostsOf(d.flows) then []
      else before + [Turn(d.curr, TxOf(ip, d.flows), RxOf(ip, d.flows))]
  }

  lemma TurnsSnoc(ip: string, dumps: seq<Dump>, d: Dump)
    ensures var before := TurnsOf(ip, dumps);
            TurnsOf(ip, dumps + [d])
            == if before == [] && ip !in HostsOf(d.flows) then []
               else before + [Turn(d.curr, TxOf(ip, d.flows), RxOf(ip, d.flows))]
  {
    assert (dumps + [d])[..|dumps|] == dumps;
  }

  lemma {:induction false} LastTurn(ip: string, dumps: seq<Dump>)
    ensures var turns := TurnsOf(ip, dumps);
            turns != [] ==> dumps != [] && turns[|turns| - 1].curr == dumps[|dumps| - 1].curr
  {
  }

  /** Turns are only added. */
  lemma {:induction false} TurnsOfPrefix(ip: string, dumps: seq<Dump>, later: seq<Dump>)
    ensures TurnsOf(ip, dumps) <= TurnsOf(ip, dumps + later)
  {
    if later == [] {
      assert dumps + later == dumps;
    } else {
      var n := |later| - 1;
      assert dumps + later == dumps + later[..n] + [later[n]];
      TurnsOfPrefix(ip, dumps, later[..n]);
      TurnsSnoc(ip, dumps + later[..n], later[n]);
    }
  }

  /** What was completed stays as it is when more turns follow. */
  lemma {:induction false} TurnItemsPrefix(turns: seq<Turn>, n: nat)
    requires TurnsOrdered(turns) && n <= |turns|
    ensures TurnItems(turns[..n]) <= TurnItems(turns)
  {
    if n == |turns| {
      assert turns[..n] == turns;
    } else {
      var (before, t) := (turns[..|turns| - 1], turns[|turns| - 1]);
      assert turns[..n] == before[..n] && before + [t] == turns;
      TurnItemsPrefix(before, n);
      TurnItemsSnoc(before, t);
      if before == [] {
        TooFewTurns(before);
      }
    }
  }

  lemma DumpsSnoc(dumps: seq<Dump>, d: Dump)
    requires DumpsOrdered(dumps) && (dumps != [] ==> dumps[|dumps| - 1].curr <= d.curr)
    ensures DumpsOrdered(dumps + [d])
  {
  }

  lemma {:induction false} TurnsOfOrdered(ip: string, dumps: seq<Dump>)
    requires DumpsOrdered(dumps)
    ensures TurnsOrdered(TurnsOf(ip, dumps))
  {
    hide HostsOf, TxOf, RxOf;
    if dumps != [] {
      var before := dumps[..|dumps| - 1];
      TurnsOfOrdered(ip, before);
      LastTurn(ip, before);
      TurnsSnoc(ip, before, dumps[|dumps| - 1]);
      assert before + [dumps[|dumps| - 1]] == dumps;
    }
  }

  /** All items that a run of dumps completes for a host. */
  function ItemsOf(ip: string, dumps: seq<Dump>): seq<Rate>
    requires DumpsOrdered(dumps)
  {
    TurnsOfOrdered(ip, dumps);
    TurnItems(TurnsOf(ip, dumps))
  }

  /** What was completed for a host stays as it is when more dumps follow. */
  lemma ItemsOfPrefix(ip: string, dumps: seq<Dump>, later: seq<Dump>)
    requires DumpsOrdered(dumps + later)
    ensures DumpsOrdered(dumps) && ItemsOf(ip, dumps) <= ItemsOf(ip, dumps + later)
  {
    hide TurnsOf, TurnItems;
    var all := dumps + later;
    assert forall i :: 0 <= i < |dumps| ==> dumps[i] == all[i];
    TurnsOfOrdered(ip, dumps);
    TurnsOfOrdered(ip, all);
    TurnsOfPrefix(ip, dumps, later);
    var n := |TurnsOf(ip, dumps)|;
    assert TurnsOf(ip, all)[..n] == TurnsOf(ip, dumps);
    TurnItemsPrefix(TurnsOf(ip, all), n);
  }

  /** The host's turns are the sums over the last dumps, from the first that mentions it on. */
  predicate AreSums(turns: seq<Turn>, ip: string, dumps: seq<Dump>) {
    var m := |dumps| - |turns|;
    && m >= 0
    && (forall i :: 0 <= i < m ==> ip !in HostsOf(dumps[i].flows))
    && (turns != [] ==> ip in HostsOf(dumps[m].flows))
    && (forall k :: 0 <= k < |turns| ==>
          turns[k] == Turn(dumps[m + k].curr, TxOf(ip, dumps[m + k].flows), RxOf(ip, dumps[m + k].flows)))
  }

  lemma OneMoreSum(turns: seq<Turn>, ip: string, dumps: seq<Dump>, d: Dump)
    requires AreSums(turns, ip, dumps) && (turns != [] || ip in HostsOf(d.flows))
    ensures AreSums(turns + [Turn(d.curr, TxOf(ip, d.flows), RxOf(ip, d.flows))], ip, dumps + [d])
  {
    hide HostsOf, TxOf, RxOf;
    var (all, m) := (dumps + [d], |dumps| - |turns|);
    var more := turns + [Turn(d.curr, TxOf(ip, d.flows), RxOf(ip, d.flows))];
    forall k | 0 <= k < |more|
      ensures more[k] == Turn(all[m + k].curr, TxOf(ip, all[m + k].flows), RxOf(ip, all[m + k].flows))
    {
      assert k < |turns| ==> more[k] == turns[k] && all[m + k] == dumps[m + k];
    }
    assert turns != [] ==> all[m] == dumps[m];
  }

  lemma {:induction false} TurnsAreSums(ip: string, dumps: seq<Dump>)
    ensures AreSums(TurnsOf(ip, dumps), ip, dumps)
  {
    if dumps != [] {
      var (before, d) := (dumps[..|dumps| - 1], dumps[|dumps| - 1]);
      assert before + [d] == dumps;
      TurnsAreSums(ip, before);
      TurnsSnoc(ip, before, d);
      if TurnsOf(ip, before) != [] || ip in HostsOf(d.flows) {
        OneMoreSum(TurnsOf(ip, before), ip, before, d);
      } else {
        hide HostsOf, TxOf, RxOf;
        assert forall i :: 0 <= i < |before| ==> before[i] == dumps[i];
      }
    }
  }

  /** A host's items over a run of dumps: one from each dump to the next, from the first that
      mentions the host on, with rates that account for the sums over those two dumps. */
  lemma ItemsAccountForDumps(ip: string, dumps: seq<Dump>)
    requires DumpsOrdered(dumps)
    ensures var (items, turns) := (ItemsOf(ip, dumps), TurnsOf(ip, dumps));
            && AreSums(turns, ip, dumps)
            && |items| == (if |turns| == 0 then 0 else |turns| - 1)
            && forall j :: 0 <= j < |items| ==>
                 && items[j].rxAvg >= 0 && items[j].txAvg >= 0
                 && GoesBetween(items[j], turns[j], turns[j + 1], Before(items, j))
  {
    hide HostsOf, TxOf, RxOf, TurnsOf, TurnItems, GoesBetween, DumpsOrdered, TurnsOrdered, AreSums;
    TurnsOfOrdered(ip, dumps);
    TurnsAreSums(ip, dumps);
    TurnItemsAreContiguous(TurnsOf(ip, dumps));
  }
}
