/** The log recorder of backend/lib/logger/logger.go: a fixed buffer with a kept head, a
    marker, and a sliding tail. */
module Recorder {
  import opened Wrappers

  datatype Line = Line(when: int, message: string, level: int)

  function LastOf(log: seq<Line>, n: nat): seq<Line> {
    if |log| <= n then log else log[|log| - n..]
  }

  /** What a recorder of this capacity shows of everything logged since the last Clear: the
      first `initial` lines, the marker, and the most recent lines that fit. */
  function Shown(log: seq<Line>, marker: Line, initial: int, capacity: nat): seq<Line>
    requires initial > 0 ==> capacity >= initial + 2
  {
    if initial <= 0 then LastOf(log, capacity)
    else if |log| < initial then log
    else log[..initial] + [marker] + LastOf(log[initial..], capacity - initial - 1)
  }

  lemma LastOfSnoc(log: seq<Line>, x: Line, n: nat)
    requires n > 0
    ensures LastOf(log + [x], n) == (if |log| < n then log else LastOf(log, n)[1..]) + [x]
  {
  }

  /** Dropping the entry after the head and the marker is dropping the oldest of the tail. */
  lemma TailDrops(head: seq<Line>, tail: seq<Line>)
    requires tail != []
    ensures (head + tail)[..|head|] + (head + tail)[|head| + 1..] == head + tail[1..]
  {
  }

  lemma HeadGrows(log: seq<Line>, x: Line, marker: Line, initial: int, capacity: nat)
    requires 0 < initial <= capacity - 2 && |log| < initial
    ensures Shown(log + [x], marker, initial, capacity) == log + [x] + if |log| + 1 == initial then [marker] else []
  {
    if |log| + 1 == initial {
      assert (log + [x])[..initial] == log + [x];
      assert (log + [x])[initial..] == [];
    }
  }

  lemma TailSlides(log: seq<Line>, x: Line, marker: Line, initial: int, capacity: nat)
    requires 0 < initial <= capacity - 2 && initial <= |log|
    ensures var (before, after) := (Shown(log, marker, initial, capacity), Shown(log + [x], marker, initial, capacity));
            after == (if |before| == capacity then before[..initial + 1] + before[initial + 2..] else before) + [x]
  {
    hide LastOf;
    var n := capacity - initial - 1;
    var (head, tail) := (log[..initial] + [marker], LastOf(log[initial..], n));
    assert (log + [x])[..initial] == log[..initial];
    assert (log + [x])[initial..] == log[initial..] + [x];
    LastOfSnoc(log[initial..], x, n);
    TailLength(log[initial..], n);
    if |tail| == n {
      TailDrops(head, tail);
    }
  }

  lemma TailLength(log: seq<Line>, n: nat)
    ensures |LastOf(log, n)| == if |log| < n then |log| else n
    ensures |log| < n ==> LastOf(log, n) == log
  {
  }

  /** How one more line changes what is shown: a full buffer loses its oldest line outside the
      head, otherwise the buffer grows, with the marker when the head is complete. */
  lemma ShownSnoc(log: seq<Line>, x: Line, marker: Line, initial: int, capacity: nat)
    requires capacity >= 1 && (initial > 0 ==> capacity >= initial + 2)
    ensures var (before, after) := (Shown(log, marker, initial, capacity), Shown(log + [x], marker, initial, capacity));
            if |before| == capacity then
              var hole := if initial > 0 then initial + 1 else 0;
              hole < capacity && after == before[..hole] + before[hole + 1..] + [x]
            else
              after == before + [x] + if |log| + 1 == initial then [marker] else []
  {
    hide LastOf;
    if initial <= 0 {
      LastOfSnoc(log, x, capacity);
      TailLength(log, capacity);
      var before := LastOf(log, capacity);
      assert before != [] ==> before[..0] + before[1..] == before[1..];
    } else if |log| < initial {
      HeadGrows(log, x, marker, initial, capacity);
    } else {
      TailSlides(log, x, marker, initial, capacity);
    }
  }

  // ----- Since -----

  /** The suffix from the first line later than `t` on. */
  function SinceOf(lines: seq<Line>, t: int): seq<Line> {
    if lines == [] then [] else if lines[0].when > t then lines else SinceOf(lines[1..], t)
  }

  /** Exactly the lines later than `t`. */
  function Later(lines: seq<Line>, t: int): seq<Line> {
    if lines == [] then []
    else (if lines[0].when > t then [lines[0]] else []) + Later(lines[1..], t)
  }

  predicate InOrder(lines: seq<Line>) {
    forall i, j :: 0 <= i < j < |lines| ==> lines[i].when <= lines[j].when
  }

  lemma {:induction false} AllLater(lines: seq<Line>, t: int)
    requires forall i :: 0 <= i < |lines| ==> lines[i].when > t
    ensures Later(lines, t) == lines
  {
    if lines != [] {
      AllLater(lines[1..], t);
    }
  }

  lemma {:induction false} SinceOfOrdered(lines: seq<Line>, t: int)
    requires InOrder(lines)
    ensures SinceOf(lines, t) == Later(lines, t)
  {
    if lines == [] {
    } else if lines[0].when > t {
      AllLater(lines, t);
    } else {
      SinceOfOrdered(lines[1..], t);
    }
  }

  lemma {:induction false} LaterAreLater(lines: seq<Line>, t: int)
    ensures forall x :: x in Later(lines, t) ==> x.when > t
  {
    if lines != [] {
      LaterAreLater(lines[1..], t);
    }
  }

  /** And all of them, in their order: the line at `i` is among them, behind as many later ones as
      are before it in the buffer. */
  lemma {:induction false} LaterIsComplete(lines: seq<Line>, t: int, i: nat)
    requires i < |lines| && lines[i].when > t
    ensures var k := |Later(lines[..i], t)|;
            k < |Later(lines, t)| && Later(lines, t)[k] == lines[i]
  {
    if i == 0 {
      assert lines[..0] == [];
    } else {
      assert lines[..i][0] == lines[0] && lines[..i][1..] == lines[1..][..i - 1];
      LaterIsComplete(lines[1..], t, i - 1);
    }
  }

  /** An early line behind a late one is returned although it is not later. */
  lemma {:induction false} SinceReturnsTooMuch(lines: seq<Line>, i: nat, j: nat)
    requires i < j < |lines| && lines[i].when > lines[j].when
    ensures lines[j] in SinceOf(lines, lines[j].when)
  {
    if lines[0].when <= lines[j].when {
      SinceReturnsTooMuch(lines[1..], i - 1, j - 1);
    }
  }

  /** `Since` returns exactly the later lines, for every time asked, if and only if the buffer
      is in order of time. Lines are stamped before the lock is taken, so two goroutines can
      break the order. */
  lemma SinceIsExactIffInOrder(lines: seq<Line>)
    ensures (forall t :: SinceOf(lines, t) == Later(lines, t)) <==> InOrder(lines)
  {
    if InOrder(lines) {
      forall t
        ensures SinceOf(lines, t) == Later(lines, t)
      {
        SinceOfOrdered(lines, t);
      }
    } else {
      var i, j :| 0 <= i < j < |lines| && lines[i].when > lines[j].when;
      SinceReturnsTooMuch(lines, i, j);
      LaterAreLater(lines, lines[j].when);
    }
  }

  /** When the log and the marker are stamped in order, so is what is shown. */
  lemma ShownInOrder(log: seq<Line>, marker: Line, initial: int, capacity: nat)
    requires initial > 0 ==> capacity >= initial + 2
    requires InOrder(log)
    requires 0 < initial <= |log| ==> log[initial - 1].when <= marker.when
    requires 0 < initial < |log| ==> marker.when <= log[initial].when
    ensures InOrder(Shown(log, marker, initial, capacity))
  {
    hide LastOf;
    if initial <= 0 {
      LastInOrder(log, 0, capacity);
    } else if initial <= |log| {
      var (head, tail) := (log[..initial], LastOf(log[initial..], capacity - initial - 1));
      LastInOrder(log, initial, capacity - initial - 1);
      JoinInOrder(head, [marker]);
      JoinInOrder(head + [marker], tail);
    }
  }

  lemma LastInOrder(log: seq<Line>, from: nat, n: nat)
    requires InOrder(log) && from <= |log|
    ensures var tail := LastOf(log[from..], n);
            InOrder(tail) && (tail != [] ==> from < |log| && log[from].when <= tail[0].when)
  {
    var tail := LastOf(log[from..], n);
    var skipped := |log| - |tail|;
    assert forall i, k :: 0 <= i < |tail| && k == skipped + i ==> tail[i] == log[k];
  }

  lemma JoinInOrder(a: seq<Line>, b: seq<Line>)
    requires InOrder(a) && InOrder(b)
    requires a != [] && b != [] ==> a[|a| - 1].when <= b[0].when
    ensures InOrder(a + b)
  {
    forall i, j | 0 <= i < j < |a + b|
      ensures (a + b)[i].when <= (a + b)[j].when
    {
      if i < |a| <= j {
        assert a[i].when <= a[|a| - 1].when && b[0].when <= b[j - |a|].when;
      }
    }
  }

  // ----- a slice, its capacity, and `append` for any sizes -----

  datatype Slice = Slice(lines: seq<Line>, cap: nat)

  /** Go's `append`: a full slice moves to a larger array. */
  function Extended(s: Slice, x: Line): (r: Slice)
    ensures r.lines == s.lines + [x] && r.cap >= s.cap
    ensures |s.lines| <= s.cap ==> |r.lines| <= r.cap
  {
    Slice(s.lines + [x], if |s.lines| < s.cap then s.cap else Larger(s.cap))
  }

  /** Go promises only that the new array is large enough. */
  function Larger(cap: nat): (r: nat)
    ensures r > cap
  {
    2 * cap + 1
  }

  function WithoutAt(lines: seq<Line>, hole: nat): seq<Line>
    requires hole < |lines|
  {
    lines[..hole] + lines[hole + 1..]
  }

  /** The recorder's `append`; None where a slice expression is out of range and panics. */
  function Appended(s: Slice, line: Line, marker: Line, initial: int): Option<Slice>
    requires |s.lines| <= s.cap
  {
    var n := |s.lines|;
    if n == s.cap then
      if initial > 0 then
        if initial + 1 > n || initial + 2 > n then None
        else Some(s.(lines := WithoutAt(s.lines, initial + 1) + [line]))
      else if n < 1 then None
      else Some(s.(lines := WithoutAt(s.lines, 0) + [line]))
    else
      var s1 := Extended(s, line);
      if |s1.lines| == initial then Some(Extended(s1, marker)) else Some(s1)
  }

  datatype Entry = Entry(line: Line, marker: Line)

  /** A recorder made with this size and what was logged to it; None when a line panicked. */
  function Logged(size: nat, initial: int, entries: seq<Entry>): (r: Option<Slice>)
    ensures r.Some? ==> |r.value.lines| <= r.value.cap
  {
    if entries == [] then Some(Slice([], size))
    else
      var (before, e) := (Logged(size, initial, entries[..|entries| - 1]), entries[|entries| - 1]);
      if before.None? then None else Appended(before.value, e.line, e.marker, initial)
  }

  /** Whatever is logged, nothing panics and the buffer keeps to its size. */
  ghost predicate IsSafe(size: nat, initial: int) {
    forall entries :: var r := Logged(size, initial, entries); r.Some? && |r.value.lines| <= size
  }

  /** There is room for one line, or for the head, the marker and one line. */
  predicate HasRoom(size: nat, initial: int) {
    size >= 1 && (initial > 0 ==> size >= initial + 2)
  }

  lemma {:induction false} RoomSuffices(size: nat, initial: int, entries: seq<Entry>)
    requires HasRoom(size, initial)
    ensures var r := Logged(size, initial, entries); r.Some? && r.value.cap == size && |r.value.lines| <= size
  {
    if entries != [] {
      RoomSuffices(size, initial, entries[..|entries| - 1]);
    }
  }

  function Lines(n: nat): (entries: seq<Entry>)
    ensures |entries| == n
  {
    if n == 0 then [] else Lines(n - 1) + [Entry(Line(0, "", 0), Line(0, "", 0))]
  }

  lemma OneMoreLine(size: nat, initial: int, n: nat)
    ensures var (before, e) := (Logged(size, initial, Lines(n)), Entry(Line(0, "", 0), Line(0, "", 0)));
            Logged(size, initial, Lines(n + 1))
            == if before.None? then None else Appended(before.value, e.line, e.marker, initial)
  {
    assert Lines(n + 1)[..n] == Lines(n);
  }

  lemma NoLine(size: nat, initial: int)
    ensures Logged(size, initial, Lines(0)) == Some(Slice([], size))
  {
  }

  /** Until the head is complete or the buffer is full it just fills. */
  lemma {:induction false} Fills(size: nat, initial: int, n: nat)
    requires n <= size && n < initial
    ensures var r := Logged(size, initial, Lines(n)); r.Some? && |r.value.lines| == n && r.value.cap == size
  {
    hide Lines, Logged;
    if n == 0 {
      NoLine(size, initial);
    } else {
      Fills(size, initial, n - 1);
      OneMoreLine(size, initial, n - 1);
    }
  }

  /** A buffer of `initial` lines outgrows its size when the marker is due. */
  lemma MarkerOutgrows(initial: int)
    requires initial > 0
    ensures var r := Logged(initial, initial, Lines(initial)); r.Some? && |r.value.lines| == initial + 1
  {
    Fills(initial, initial, initial - 1);
    OneMoreLine(initial, initial, initial - 1);
  }

  /** With room for head and marker only, the first line after them panics. */
  lemma NoRoomForATail(initial: int)
    requires initial > 0
    ensures Logged(initial + 1, initial, Lines(initial + 1)).None?
  {
    Fills(initial + 1, initial, initial - 1);
    OneMoreLine(initial + 1, initial, initial - 1);
    OneMoreLine(initial + 1, initial, initial);
  }

  /** A buffer smaller than the head, or of no size at all, panics when it is full. */
  lemma NoRoomForTheHead(size: nat, initial: int)
    requires size < initial || (size == 0 && initial <= 0)
    ensures Logged(size, initial, Lines(size + 1)).None?
  {
    if size > 0 {
      Fills(size, initial, size);
    }
    OneMoreLine(size, initial, size);
  }

  /** A recorder is safe at exactly these sizes. */
  lemma SafeIffRoom(size: nat, initial: int)
    ensures IsSafe(size, initial) <==> HasRoom(size, initial)
  {
    if HasRoom(size, initial) {
      forall entries
        ensures var r := Logged(size, initial, entries); r.Some? && |r.value.lines| <= size
      {
        RoomSuffices(size, initial, entries);
      }
    } else if size < initial || size == 0 {
      NoRoomForTheHead(size, initial);
    } else if size == initial {
      MarkerOutgrows(initial);
    } else {
      NoRoomForATail(initial);
    }
  }

  /** With room, a line changes the buffer from what it is to show of the log to what it is to
      show of the log with that line. */
  lemma AppendedShows(log: seq<Line>, marker: Line, line: Line, dots: Line, initial: int, size: nat)
    requires HasRoom(size, initial)
    ensures var next := if |log| + 1 == initial then dots else marker;
            |Shown(log, marker, initial, size)| <= size
            && Appended(Slice(Shown(log, marker, initial, size), size), line, dots, initial)
               == Some(Slice(Shown(log + [line], next, initial, size), size))
  {
    hide Shown;
    var next := if |log| + 1 == initial then dots else marker;
    MarkerIsLater(log, marker, next, initial, size);
    ShownSnoc(log, line, next, initial, size);
    LogFits(log, marker, initial, size);
    var before := Shown(log, marker, initial, size);
    assert before + [line] + [] == before + [line];
  }

  // ----- the recorder -----

  class Recorder {
    const initial: int
    const size: nat
    /** The backing array of the `lines` slice; its length is the slice's capacity. */
    var lines: array<Line>
    var len: nat
    /** Every line handed in since the last Clear, and the marker that stands in the buffer. */
    ghost var log: seq<Line>
    ghost var marker: Line

    ghost predicate Valid()
      reads this, lines
    {
      && len <= lines.Length
      && (HasRoom(size, initial) ==>
            && lines.Length == size
            && lines[..len] == Shown(log, marker, initial, size)
            && (0 < initial <= |log| ==> marker.message == "..." && marker.level == log[initial - 1].level))
    }

    ghost function Now(): Slice
      requires len <= lines.Length
      reads this, lines
    {
      Slice(lines[..len], lines.Length)
    }

    /** NewRecorder. */
    constructor (size: nat, initial: int)
      ensures Valid() && fresh(lines) && this.size == size && this.initial == initial
      ensures log == [] && Now() == Slice([], size)
    {
      this.initial := initial;
      this.size := size;
      lines := new Line[size];
      len := 0;
      log := [];
      marker := Line(0, "", 0);
    }

    method Clear()
      requires Valid()
      modifies this`len, this`log
      ensures Valid() && log == [] && Now() == Slice([], old(lines.Length))
    {
      len := 0;
      log := [];
    }

    /** `append`, with the clock read for the line and, when it is due, for the marker. */
    method Append(level: int, msg: string, now: int, markerTime: int) returns (panics: bool)
      requires Valid()
      modifies this, lines
      ensures Valid() && log == old(log) + [Line(now, msg, level)] && (lines == old(lines) || fresh(lines))
      ensures var r := Appended(old(Now()), Line(now, msg, level), Line(markerTime, "...", level), initial);
              if panics then r == None && Now() == old(Now()) else r == Some(Now())
      ensures HasRoom(size, initial) ==> !panics
      ensures |old(log)| + 1 == initial ==> marker == Line(markerTime, "...", level)
      ensures |old(log)| + 1 != initial ==> marker == old(marker)
    {
      hide Shown, Appended;
      var line, dots := Line(now, msg, level), Line(markerTime, "...", level);
      ghost var next := if |log| + 1 == initial then dots else marker;
      if HasRoom(size, initial) {
        AppendedShows(log, marker, line, dots, initial, size);
      }
      log, marker := log + [line], next;
      panics := Put(line, dots);
    }

    /** What `append` does under the lock. */
    method Put(line: Line, dots: Line) returns (panics: bool)
      requires len <= lines.Length
      modifies this`lines, this`len, lines
      ensures len <= lines.Length && (lines == old(lines) || fresh(lines))
      ensures var r := Appended(old(Now()), line, dots, initial);
              if panics then r == None && Now() == old(Now()) else r == Some(Now())
    {
      panics := false;
      if len == lines.Length {
        var hole := if initial > 0 then initial + 1 else 0;
        if hole + 1 > len {
          return true;
        }
        ReplaceOldest(hole, line);
        return;
      }
      PushBack(line);
      if len == initial {
        PushBack(dots);
      }
    }

    /** `copy(lines[hole:], lines[hole+1:])`, and the new line at the end. */
    method ReplaceOldest(hole: nat, line: Line)
      requires hole < len == lines.Length
      modifies lines
      ensures lines[..len] == WithoutAt(old(lines[..len]), hole) + [line]
    {
      forall i | hole <= i < len - 1 {
        lines[i] := lines[i + 1];
      }
      lines[len - 1] := line;
    }

    method PushBack(line: Line)
      requires len <= lines.Length
      modifies this`lines, this`len, lines
      ensures len <= lines.Length && Now() == Extended(old(Now()), line)
      ensures lines == old(lines) || fresh(lines)
    {
      if len == lines.Length {
        var bigger := new Line[Larger(len)];
        forall i | 0 <= i < len {
          bigger[i] := lines[i];
        }
        assert bigger[..len] == lines[..len];
        lines := bigger;
      }
      lines[len] := line;
      len := len + 1;
    }

    method Since(t: int) returns (cp: array<Line>)
      requires Valid()
      ensures fresh(cp) && cp[..] == SinceOf(Now().lines, t)
      ensures HasRoom(size, initial) ==> cp[..] == SinceOf(Shown(log, marker, initial, size), t)
    {
      hide Shown;
      var i := 0;
      while i < len
        invariant 0 <= i <= len
        invariant SinceOf(lines[..len], t) == SinceOf(lines[i..len], t)
      {
        if lines[i].when > t {
          break;
        }
        assert lines[i..len][1..] == lines[i + 1..len];
        i := i + 1;
      }
      cp := new Line[len - i];
      forall k | 0 <= k < len - i {
        cp[k] := lines[i + k];
      }
      assert cp[..] == lines[i..len];
    }
  }

  /** Before the marker is written it does not matter. */
  lemma MarkerIsLater(log: seq<Line>, marker: Line, next: Line, initial: int, capacity: nat)
    requires initial > 0 ==> capacity >= initial + 2
    requires |log| >= initial ==> next == marker
    ensures Shown(log, marker, initial, capacity) == Shown(log, next, initial, capacity)
  {
  }

  /** The buffer never overflows, and it is the first `initial` lines alone, short of the
      marker, exactly while fewer were logged. */
  lemma LogFits(log: seq<Line>, marker: Line, initial: int, capacity: nat)
    requires capacity >= 1 && (initial > 0 ==> capacity >= initial + 2)
    ensures var n := |Shown(log, marker, initial, capacity)|;
            n <= capacity && (n + 1 == initial <==> |log| + 1 == initial)
  {
  }
}
