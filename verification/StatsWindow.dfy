/** The sliding window of traffic items that backend/service/wan_stats.go and
    backend/service/lan_stats_linux.go both shift in place. */
module StatsWindow {
  import opened Wrappers

  const SLOTS := 12

  const MILLISECOND := 1_000_000

  /** NetworkStatisticsItem; times in nanoseconds. */
  class Item {
    var startTime: int
    var endTime: int
    var txStart: int
    var rxStart: int
    var txAvg: int
    var rxAvg: int
    var device: Option<string>

    constructor (startTime: int, device: Option<string>, rxStart: int, txStart: int)
      ensures this.startTime == startTime && this.device == device
      ensures this.rxStart == rxStart && this.txStart == txStart && txAvg == rxAvg == 0
    {
      this.startTime, this.device, this.rxStart, this.txStart := startTime, device, rxStart, txStart;
      endTime, txAvg, rxAvg := 0, 0, 0;
    }

    ghost function Contents(): Rate
      reads this
    {
      Rate(startTime, endTime, rxStart, txStart, rxAvg, txAvg)
    }
  }

  /** The contents of a completed item. */
  datatype Rate = Rate(start: int, end: int, rxStart: int, txStart: int, rxAvg: int, txAvg: int)

  /** The divisor of a rate: whole milliseconds, plus one. */
  function Duration(start: int, end: int): (d: int)
    requires start <= end
    ensures d >= 1
  {
    (end - start) / MILLISECOND + 1
  }

  function Last<T>(s: seq<T>): seq<T> {
    if |s| <= SLOTS then s else s[|s| - SLOTS..]
  }

  /** One more item pushes the oldest of a full window out. */
  lemma LastPush<T>(s: seq<T>, x: T)
    ensures Last(s + [x]) == (if |Last(s)| < SLOTS then Last(s) else Last(s)[1..]) + [x]
  {
  }

  /** A Go slice of item pointers: a backing array and a length. */
  class Window {
    var data: array<Item?>
    var len: nat
    /** Every item ever pushed. */
    ghost var history: seq<Item>

    ghost predicate Valid()
      reads this, data
    {
      len <= data.Length && data[..len] == Last(history)
    }

    constructor (capacity: nat)
      ensures Valid() && fresh(data) && history == []
    {
      data := new Item?[capacity](_ => null);
      len := 0;
      history := [];
    }

    /** The newest slot is the item pushed last. */
    lemma Newest()
      requires Valid()
      ensures len > 0 <==> history != []
      ensures len > 0 ==> data[len - 1] == history[|history| - 1]
    {
      assert len > 0 ==> data[len - 1] == data[..len][len - 1];
    }

    method Push(item: Item)
      requires Valid()
      modifies this, data
      ensures Valid() && history == old(history) + [item]
      ensures data == old(data) || fresh(data)
    {
      LastPush(history, item);
      if len >= SLOTS {
        DropOldest();
      }
      Append(item);
      history := history + [item];
    }

    /** The full window moves one place to the left. */
    method DropOldest()
      requires Valid() && len >= SLOTS
      modifies this`len, data
      ensures len == SLOTS - 1 <= data.Length && data[..len] == old(data[..len])[1..]
    {
      for i := 0 to SLOTS - 1
        invariant len == old(len)
        invariant forall k :: 0 <= k < i ==> data[k] == old(data[k + 1])
        invariant forall k :: i <= k < len ==> data[k] == old(data[k])
      {
        data[i] := data[i + 1];
      }
      len := SLOTS - 1;
    }

    /** `append`, which moves to a larger array when the old one is full. */
    method Append(item: Item)
      requires len <= data.Length
      modifies this`data, this`len, data
      ensures len == old(len) + 1 <= data.Length && data[..len] == old(data[..len]) + [item]
      ensures data == old(data) || fresh(data)
    {
      if len == data.Length {
        var bigger := new Item?[2 * len + 1](_ => null);
        forall i | 0 <= i < len {
          bigger[i] := data[i];
        }
        data := bigger;
      }
      data[len] := item;
      len := len + 1;
    }

    /** `copy(items, w.items)`: the requester gets an array of its own. */
    method Snapshot() returns (items: array<Item?>)
      requires Valid()
      ensures fresh(items) && items[..] == Last(history)
      ensures items[..] == if |history| <= 12 then history else history[|history| - 12..]
    {
      items := new Item?[len](_ => null);
      forall i | 0 <= i < len {
        items[i] := data[i];
      }
      assert items[..] == data[..len];
    }
  }
}
