/** backend/service/wan_stats.go: rates of one interface from its byte counters. */
module WanStats {
  import opened StatsWindow
  import opened Wrappers

  /** What `lastItem` remembers of the sample before. */
  datatype Mark = Mark(device: Option<string>, start: int, rx: int, tx: int)

  datatype Sample = Sample(device: string, rx: int, tx: int, at: int)

  const NOTHING := Mark(None, 0, 0, 0)

  /** A different device or a counter that went back starts over. */
  predicate Resets(m: Mark, s: Sample) {
    m.device != Some(s.device) || s.rx < m.rx || s.tx < m.tx
  }

  function Average(before: int, after: int, duration: int): (avg: int)
    requires before <= after && duration >= 1
    ensures avg >= 0
    ensures avg * duration <= 1000 * (after - before) < avg * duration + duration
  {
    RemainderBound(1000 * (after - before), duration);
    1000 * (after - before) / duration
  }

  lemma RemainderBound(x: int, d: int)
    requires x >= 0 && d >= 1
    ensures x / d >= 0 && x / d * d <= x < x / d * d + d
  {
  }

  function Completed(m: Mark, s: Sample): Rate
    requires !Resets(m, s) && m.start <= s.at
  {
    var d := Duration(m.start, s.at);
    Rate(m.start, s.at, m.rx, m.tx, Average(m.rx, s.rx, d), Average(m.tx, s.tx, d))
  }

  function After(s: Sample): Mark {
    Mark(Some(s.device), s.at, s.rx, s.tx)
  }

  /** The clock is monotone. */
  predicate Ordered(m: Mark, samples: seq<Sample>)
    decreases |samples|
  {
    samples == [] || (m.start <= samples[0].at && Ordered(After(samples[0]), samples[1..]))
  }

  /** All items that a run of samples completes. */
  function Items(m: Mark, samples: seq<Sample>): seq<Rate>
    requires Ordered(m, samples)
    decreases |samples|
  {
    if samples == [] then []
    else (if Resets(m, samples[0]) then [] else [Completed(m, samples[0])]) + Items(After(samples[0]), samples[1..])
  }

  function FinalMark(m: Mark, samples: seq<Sample>): Mark {
    if samples == [] then m else After(samples[|samples| - 1])
  }

  lemma {:induction false} OrderedSnoc(m: Mark, samples: seq<Sample>, s: Sample)
    requires Ordered(m, samples) && FinalMark(m, samples).start <= s.at
    ensures Ordered(m, samples + [s])
    ensures var last := FinalMark(m, samples);
            Items(m, samples + [s]) == Items(m, samples) + if Resets(last, s) then [] else [Completed(last, s)]
    ensures FinalMark(m, samples + [s]) == After(s)
    decreases |samples|
  {
    if samples == [] {
      assert samples + [s] == [s];
    } else {
      assert (samples + [s])[1..] == samples[1..] + [s];
      OrderedSnoc(After(samples[0]), samples[1..], s);
    }
  }

  /** What one more sample adds: an item if it is of the same device and no counter went back, from
      the sample before to this one, with rates that account for both counters; nothing otherwise.
      In any case the sample is what the next one is compared with. */
  lemma OneMoreSample(m: Mark, samples: seq<Sample>, s: Sample)
    requires samples != [] && Ordered(m, samples) && samples[|samples| - 1].at <= s.at
    ensures Ordered(m, samples + [s])
    ensures var (last, items, more) := (samples[|samples| - 1], Items(m, samples), Items(m, samples + [s]));
            var ms := (s.at - last.at) / 1_000_000 + 1;
            if last.device == s.device && last.rx <= s.rx && last.tx <= s.tx then
              && |more| == |items| + 1 && more[..|items|] == items
              && var item := more[|items|];
                 && item.start == last.at && item.end == s.at && item.rxStart == last.rx && item.txStart == last.tx
                 && item.rxAvg * ms <= 1000 * (s.rx - last.rx) < (item.rxAvg + 1) * ms
                 && item.txAvg * ms <= 1000 * (s.tx - last.tx) < (item.txAvg + 1) * ms
            else
              more == items
  {
    hide Items, Ordered, Average;
    OrderedSnoc(m, samples, s);
    var last := samples[|samples| - 1];
    var ms := (s.at - last.at) / 1_000_000 + 1;
    assert FinalMark(m, samples) == Mark(Some(last.device), last.at, last.rx, last.tx);
    AverageIsExact(last.rx, s.rx, ms);
    AverageIsExact(last.tx, s.tx, ms);
  }

  lemma AverageIsExact(before: int, after: int, ms: int)
    requires ms >= 1
    ensures before <= after ==>
              var avg := Average(before, after, ms); avg * ms <= 1000 * (after - before) < (avg + 1) * ms
  {
  }

  /** The first sample completes nothing. */
  lemma FirstSample(s: Sample)
    requires s.at >= 0
    ensures Ordered(NOTHING, [s]) && Items(NOTHING, [s]) == []
  {
    assert [s][1..] == [];
  }

  // ----- conservation -----

  /** The milliseconds that an item has lasted, begun ones included. */
  function Millis(item: Rate): int {
    (item.end - item.start) / 1_000_000 + 1
  }

  function Rx(items: seq<Rate>): int
    requires forall i :: 0 <= i < |items| ==> items[i].start <= items[i].end
  {
    if items == [] then 0 else items[0].rxAvg * Millis(items[0]) + Rx(items[1..])
  }

  function Tx(items: seq<Rate>): int
    requires forall i :: 0 <= i < |items| ==> items[i].start <= items[i].end
  {
    if items == [] then 0 else items[0].txAvg * Millis(items[0]) + Tx(items[1..])
  }

  function TotalDuration(items: seq<Rate>): int
    requires forall i :: 0 <= i < |items| ==> items[i].start <= items[i].end
  {
    if items == [] then 0 else Millis(items[0]) + TotalDuration(items[1..])
  }

  predicate NoReset(m: Mark, samples: seq<Sample>)
    decreases |samples|
  {
    samples == [] || (!Resets(m, samples[0]) && NoReset(After(samples[0]), samples[1..]))
  }

  /** Items in order of time, none overlapping the next, all from `from` on and with rates of
      zero or more. */
  ghost predicate InOrder(items: seq<Rate>, from: int) {
    && (forall i :: 0 <= i < |items| ==>
          from <= items[i].start <= items[i].end && items[i].rxAvg >= 0 && items[i].txAvg >= 0)
    && (forall i, j :: 0 <= i < j < |items| ==> items[i].end <= items[j].start)
  }

  lemma InOrderCons(item: Rate, rest: seq<Rate>, from: int)
    requires from <= item.start <= item.end && item.rxAvg >= 0 && item.txAvg >= 0 && InOrder(rest, item.end)
    ensures InOrder([item] + rest, from)
  {
  }

  lemma {:induction false} ItemsAreInOrder(m: Mark, samples: seq<Sample>)
    requires Ordered(m, samples)
    ensures InOrder(Items(m, samples), m.start)
    decreases |samples|
  {
    if samples != [] {
      ItemsAreInOrder(After(samples[0]), samples[1..]);
      if !Resets(m, samples[0]) {
        InOrderCons(Completed(m, samples[0]), Items(After(samples[0]), samples[1..]), m.start);
      }
    }
  }

  /** Over any stretch without a reset the rates account for the bytes counted: multiplied by
      their durations they never exceed them, and fall short by less than one unit of rate
      times the time that passed. */
  lemma {:induction false} RatesAccountForBytes(m: Mark, samples: seq<Sample>)
    requires Ordered(m, samples) && NoReset(m, samples)
    ensures forall i :: 0 <= i < |Items(m, samples)| ==> Items(m, samples)[i].start <= Items(m, samples)[i].end
    ensures |Items(m, samples)| == |samples|
    ensures var items := Items(m, samples);
            var rxBytes := FinalMark(m, samples).rx - m.rx;
            var txBytes := FinalMark(m, samples).tx - m.tx;
            && Rx(items) <= 1000 * rxBytes <= Rx(items) + TotalDuration(items) - |items|
            && Tx(items) <= 1000 * txBytes <= Tx(items) + TotalDuration(items) - |items|
    decreases |samples|
  {
    if samples != [] {
      var s := samples[0];
      var item := Completed(m, s);
      RatesAccountForBytes(After(s), samples[1..]);
      var rest := Items(After(s), samples[1..]);
      assert Items(m, samples) == [item] + rest;
      assert ([item] + rest)[1..] == rest;
      assert FinalMark(After(s), samples[1..]) == FinalMark(m, samples);
    }
  }

  // ----- the sampler -----

  class Sampler {
    var lastItem: Item
    var items: Window
    var isRunning: bool
    var lastRunningTime: Option<int>
    /** Every sample taken so far. */
    ghost var samples: seq<Sample>

    ghost function Remembered(): Mark
      reads this, lastItem
    {
      Mark(lastItem.device, lastItem.startTime, lastItem.rxStart, lastItem.txStart)
    }

    /** The window holds the last items completed by the samples; the item in progress is none
        of those ever completed. */
    ghost predicate Valid()
      reads this, lastItem, items, items.data, items.history
    {
      && items.Valid()
      && Ordered(NOTHING, samples)
      && Remembered() == FinalMark(NOTHING, samples)
      && lastItem !in items.history
      && |items.history| == |Items(NOTHING, samples)|
      && forall i :: 0 <= i < |items.history| ==> items.history[i].Contents() == Items(NOTHING, samples)[i]
    }

    constructor ()
      ensures Valid() && fresh(lastItem) && fresh(items) && fresh(items.data)
      ensures samples == [] && items.history == [] && !isRunning
    {
      lastItem := new Item(0, None, 0, 0);
      items := new Window(0);
      isRunning, lastRunningTime, samples := false, None, [];
    }

    /** fetchItems, once the device and its counters are known. */
    method FetchItems(s: Sample)
      requires Valid() && Remembered().start <= s.at
      modifies this`lastItem, this`samples, lastItem, items, items.data
      ensures Valid() && samples == old(samples) + [s] && items == old(items)
      ensures lastItem == old(lastItem) || fresh(lastItem)
      ensures items.data == old(items.data) || fresh(items.data)
    {
      hide Items, Ordered, Last, FinalMark;
      ghost var m := Remembered();
      OrderedSnoc(NOTHING, samples, s);
      samples := samples + [s];
      if lastItem.device != Some(s.device) || s.rx < lastItem.rxStart || s.tx < lastItem.txStart {
        lastItem.device := Some(s.device);
        lastItem.rxStart := s.rx;
        lastItem.txStart := s.tx;
        lastItem.startTime := s.at;
      } else {
        lastItem.endTime := s.at;
        var duration := Duration(lastItem.startTime, lastItem.endTime);
        lastItem.rxAvg := 1000 * (s.rx - lastItem.rxStart) / duration;
        lastItem.txAvg := 1000 * (s.tx - lastItem.txStart) / duration;
        items.Push(lastItem);
        lastItem := new Item(s.at, Some(s.device), s.rx, s.tx);
      }
    }

    /** A request: it wakes a sleeping sampler, and gets a copy of the window either way.
        `s` is None when the device or its counters cannot be read. */
    method OnRequest(now: int, s: Option<Sample>) returns (copied: array<Item?>)
      requires Valid() && (s.Some? ==> Remembered().start <= s.value.at)
      modifies this, lastItem, items, items.data
      ensures Valid() && isRunning && lastRunningTime == Some(now)
      ensures samples == if !old(isRunning) && s.Some? then old(samples) + [s.value] else old(samples)
      ensures fresh(copied) && copied[..] == Last(items.history) && copied != items.data
      ensures items == old(items) && (items.data == old(items.data) || fresh(items.data))
      ensures lastItem == old(lastItem) || fresh(lastItem)
    {
      hide Items, Ordered, Last, FinalMark;
      lastRunningTime := Some(now);
      if !isRunning {
        isRunning := true;
        if s.Some? {
          FetchItems(s.value);
        }
      }
      copied := items.Snapshot();
    }

    /** The timer: with no request for ten ticks the sampler goes to sleep. */
    method OnTick(now: int, s: Option<Sample>)
      requires Valid() && (s.Some? ==> Remembered().start <= s.value.at)
      modifies this, lastItem, items, items.data
      ensures Valid() && lastRunningTime == old(lastRunningTime)
      ensures var asleep := old(lastRunningTime).None? || old(lastRunningTime).value + 50_000_000_000 < now;
              && isRunning == (!asleep && old(isRunning))
              && samples == if !asleep && s.Some? then old(samples) + [s.value] else old(samples)
      ensures items == old(items) && (items.data == old(items.data) || fresh(items.data))
      ensures lastItem == old(lastItem) || fresh(lastItem)
    {
      hide Items, Ordered, Last, FinalMark;
      if lastRunningTime.None? || lastRunningTime.value + 10 * TICK < now {
        isRunning := false;
      } else if s.Some? {
        FetchItems(s.value);
      }
    }
  }

  /** Five seconds. */
  const TICK := 5_000 * MILLISECOND

  /** Any number of later samples leaves a handed-out copy, and every item in it, as it was. */
  method CopySurvives(w: Sampler, copied: array<Item?>, later: seq<Sample>)
    requires w.Valid() && copied != w.items.data
    requires forall x :: x in copied[..] ==> x != null && x in w.items.history
    requires Ordered(w.Remembered(), later)
    modifies w, w.lastItem, w.items, w.items.data
    ensures w.Valid() && w.samples == old(w.samples) + later
    ensures copied[..] == old(copied[..])
    ensures forall x :: x in old(copied[..]) ==> x != null && x.Contents() == old(x.Contents())
  {
    hide Items, Last, FinalMark, Ordered;
    var i := 0;
    while i < |later|
      invariant 0 <= i <= |later| && w.Valid() && w.items == old(w.items)
      invariant w.samples == old(w.samples) + later[..i]
      invariant w.lastItem == old(w.lastItem) || fresh(w.lastItem)
      invariant w.items.data == old(w.items.data) || fresh(w.items.data)
      invariant Ordered(w.Remembered(), later[i..])
      invariant copied[..] == old(copied[..])
      invariant forall x :: x in old(w.items.history) ==> x.Contents() == old(x.Contents())
    {
      OrderedHead(w.Remembered(), later[i..]);
      w.FetchItems(later[i]);
      assert later[i..][1..] == later[i + 1..];
      OrderedFrom(w.samples[..|w.samples| - 1], later[i]);
      i := i + 1;
    }
    assert later[..i] == later;
  }

  lemma OrderedHead(m: Mark, samples: seq<Sample>)
    requires samples != [] && Ordered(m, samples)
    ensures m.start <= samples[0].at && Ordered(After(samples[0]), samples[1..])
  {
  }

  lemma OrderedFrom(before: seq<Sample>, s: Sample)
    ensures FinalMark(NOTHING, before + [s]) == After(s)
  {
  }
}
