/** backend/message/msg.go: length-prefixed messages on a byte stream, and the read loop of
    backend/dhns/server.go over it. */
module Message {
  type Byte = x: int | 0 <= x < 256

  const PING := 1

  datatype Msg = Msg(dataType: nat, payload: seq<Byte>)

  datatype Result = ShortHeader | TooLarge | ShortBody(dataType: nat) | Read(size: int, dataType: nat)

  datatype Step = Step(result: Result, payload: seq<Byte>, rest: seq<Byte>)

  function PutUint16(v: nat): seq<Byte> {
    [v % 256, v / 256 % 256]
  }

  function Uint16(low: Byte, high: Byte): nat {
    low + 256 * high
  }

  /** What WriteMessage puts on the stream; both header fields are truncated to 16 bits. */
  function Encode(m: Msg): seq<Byte> {
    PutUint16(|m.payload| + 4) + PutUint16(m.dataType) + m.payload
  }

  /** What ReadMessage makes of a stream, with a buffer of `capacity` bytes. */
  function Decode(input: seq<Byte>, capacity: nat): (s: Step)
    ensures s.result.Read? ==> |s.rest| + 4 <= |input|
  {
    if |input| < 4 then Step(ShortHeader, [], [])
    else
      var size := Uint16(input[0], input[1]);
      var dataType := Uint16(input[2], input[3]);
      if size > capacity - 4 then Step(TooLarge, [], input[4..])
      else if size <= 4 then Step(Read(size - 4, dataType), [], input[4..])
      else if |input| < size then Step(ShortBody(dataType), [], [])
      else Step(Read(size - 4, dataType), input[4..size], input[size..])
  }

  class Stream {
    var input: seq<Byte>
    var output: seq<Byte>

    /** `io.ReadFull` into the first `n` bytes of the buffer. */
    method ReadFull(data: array<Byte>, n: nat) returns (ok: bool)
      requires n <= data.Length
      modifies this`input, data
      ensures ok <==> |old(input)| >= n
      ensures ok ==> input == old(input)[n..] && data[..n] == old(input)[..n]
      ensures !ok ==> input == []
      ensures forall i :: n <= i < data.Length ==> data[i] == old(data[i])
    {
      ok := |input| >= n;
      var m := if ok then n else |input|;
      forall i | 0 <= i < m {
        data[i] := input[i];
      }
      input := input[m..];
    }

    method ReadMessage(data: array<Byte>) returns (result: Result)
      requires data.Length >= 4
      modifies this`input, data
      ensures var s := Decode(old(input), data.Length);
              && result == s.result && input == s.rest
              && (result.Read? && result.size > 0 ==> result.size <= data.Length && data[..result.size] == s.payload)
    {
      ghost var before := input;
      var ok := ReadFull(data, 4);
      if !ok {
        return ShortHeader;
      }
      assert forall i :: 0 <= i < 4 ==> data[i] == data[..4][i] == before[i];
      var size := Uint16(data[0], data[1]);
      var dataType := Uint16(data[2], data[3]);
      if size > data.Length - 4 {
        return TooLarge;
      }
      if size > 4 {
        ok := ReadFull(data, size - 4);
        if !ok {
          return ShortBody(dataType);
        }
      }
      return Read(size - 4, dataType);
    }

    /** WriteMessage, given the marshalled payload. */
    method WriteMessage(m: Msg)
      modifies this`output
      ensures output == old(output) + Encode(m)
    {
      var header := PutUint16(|m.payload| + 4) + PutUint16(m.dataType);
      output := output + header;
      output := output + m.payload;
    }

    /** The loop of HandleConn: it reads until an error and answers each ping. */
    method AnswerPings(data: array<Byte>) returns (pongs: nat)
      requires data.Length >= 4
      modifies this`input, data
      ensures pongs == Pings(old(input), data.Length)
    {
      pongs := 0;
      while true
        invariant pongs + Pings(input, data.Length) == Pings(old(input), data.Length)
        decreases |input|
      {
        var result := ReadMessage(data);
        if !result.Read? {
          return;
        }
        if result.dataType == PING {
          pongs := pongs + 1;
        }
      }
    }
  }

  /** The pings on a stream up to the first error. */
  function Pings(input: seq<Byte>, capacity: nat): nat
    decreases |input|
  {
    var s := Decode(input, capacity);
    if !s.result.Read? then 0
    else (if s.result.dataType == PING then 1 else 0) + Pings(s.rest, capacity)
  }

  /** The message survives the header's 16 bits and the reader's buffer. */
  predicate Fits(m: Msg, capacity: nat) {
    |m.payload| + 4 < 0x1_0000 && |m.payload| + 8 <= capacity
  }

  /** Two bytes carry a number modulo 2^16. */
  lemma Uint16OfPut(v: nat)
    ensures |PutUint16(v)| == 2 && Uint16(PutUint16(v)[0], PutUint16(v)[1]) == v % 0x1_0000
  {
    var (q, high, low) := (v / 0x1_0000, v / 256 % 256, v % 256);
    assert v / 256 == 256 * (v / 256 / 256) + high;
    assert v / 256 / 256 == q;
    assert v == 0x1_0000 * q + (256 * high + low);
  }

  lemma HeaderFields(m: Msg, rest: seq<Byte>)
    requires m.dataType < 0x1_0000
    ensures var input := Encode(m) + rest;
            && |input| == 4 + |m.payload| + |rest|
            && Uint16(input[0], input[1]) == (|m.payload| + 4) % 0x1_0000
            && Uint16(input[2], input[3]) == m.dataType
            && input[4..] == m.payload + rest
  {
    hide PutUint16, Uint16;
    var (size, kind) := (PutUint16(|m.payload| + 4), PutUint16(m.dataType));
    Uint16OfPut(|m.payload| + 4);
    Uint16OfPut(m.dataType);
    HeaderSplits(size, kind, m.payload + rest);
    assert Encode(m) + rest == size + kind + (m.payload + rest);
  }

  lemma HeaderSplits(size: seq<Byte>, kind: seq<Byte>, body: seq<Byte>)
    requires |size| == 2 && |kind| == 2
    ensures var input := size + kind + body;
            && input[0] == size[0] && input[1] == size[1] && input[2] == kind[0] && input[3] == kind[1]
            && input[4..] == body
  {
  }

  /** On the wire a message is its size, four more than the payload's, and its type, each as two
      bytes, low one first, and then the payload. */
  lemma WireFormat(m: Msg)
    ensures var wire := Encode(m);
            && |wire| == 4 + |m.payload| && wire[4..] == m.payload
            && wire[0] == (|m.payload| + 4) % 256 && wire[1] == (|m.payload| + 4) / 256 % 256
            && wire[2] == m.dataType % 256 && wire[3] == m.dataType / 256 % 256
  {
    HeaderSplits(PutUint16(|m.payload| + 4), PutUint16(m.dataType), m.payload);
    assert Encode(m) == PutUint16(|m.payload| + 4) + PutUint16(m.dataType) + m.payload;
  }

  /** When a read fails, and what it has taken off the stream then and otherwise. */
  lemma ReadOutcomes(input: seq<Byte>, capacity: nat)
    requires capacity >= 4
    ensures var s := Decode(input, capacity);
            var size: int := if |input| < 4 then 0 else input[0] as int + 256 * (input[1] as int);
            var kind: int := if |input| < 4 then 0 else input[2] as int + 256 * (input[3] as int);
            && (s.result == ShortHeader <==> |input| < 4)
            && (s.result == TooLarge <==> |input| >= 4 && size > capacity - 4)
            && (s.result.ShortBody? <==> |input| >= 4 && 4 < size <= capacity - 4 && |input| < size)
            && (s.result.Read? <==> |input| >= 4 && size <= capacity - 4 && (size <= 4 || size <= |input|))
            && (s.result.Read? || s.result.ShortBody? ==> s.result.dataType == kind)
            && (s.result.Read? ==>
                  && s.result.size == size - 4 && |s.payload| == (if size <= 4 then 0 else size - 4)
                  && input == input[..4] + s.payload + s.rest)
            && (s.result == TooLarge ==> s.rest == input[4..])
            && (s.result == ShortHeader || s.result.ShortBody? ==> s.rest == [])
  {
    if |input| >= 4 {
      var size: int := input[0] as int + 256 * (input[1] as int);
      if 4 < size <= |input| {
        assert input == input[..4] + input[4..size] + input[size..];
      }
      assert input == input[..4] + [] + input[4..];
    }
  }

  /** Reading back a written message gives its type and payload and consumes exactly its
      bytes, precisely when it fits. */
  lemma ReadsBackIffFits(m: Msg, rest: seq<Byte>, capacity: nat)
    requires m.dataType < 0x1_0000 && capacity >= 4
    ensures Decode(Encode(m) + rest, capacity) == Step(Read(|m.payload|, m.dataType), m.payload, rest)
            <==> Fits(m, capacity)
  {
    HeaderFields(m, rest);
    var input := Encode(m) + rest;
    if Fits(m, capacity) {
      var size := |m.payload| + 4;
      assert input[4..size] == input[4..][..size - 4] == m.payload;
      assert input[size..] == input[4..][size - 4..] == rest;
    }
  }

  function EncodeAll(ms: seq<Msg>): seq<Byte> {
    if ms == [] then [] else Encode(ms[0]) + EncodeAll(ms[1..])
  }

  /** `n` calls of ReadMessage: what they read, if none fails, and what is left. */
  function ReadMany(input: seq<Byte>, capacity: nat, n: nat): (seq<Msg>, seq<Byte>)
    decreases n
  {
    if n == 0 then ([], input)
    else
      var s := Decode(input, capacity);
      if !s.result.Read? then ([], s.rest)
      else
        var (ms, rest) := ReadMany(s.rest, capacity, n - 1);
        ([Msg(s.result.dataType, s.payload)] + ms, rest)
  }

  ghost predicate AllFit(ms: seq<Msg>, capacity: nat) {
    forall i :: 0 <= i < |ms| ==> ms[i].dataType < 0x1_0000 && Fits(ms[i], capacity)
  }

  /** The concatenation of written messages is read back as the same messages in order, and
      nothing beyond them is consumed. */
  lemma {:induction false} StreamReadsBack(ms: seq<Msg>, rest: seq<Byte>, capacity: nat)
    requires AllFit(ms, capacity)
    ensures ReadMany(EncodeAll(ms) + rest, capacity, |ms|) == (ms, rest)
  {
    if ms == [] {
      assert EncodeAll(ms) + rest == rest;
    } else {
      hide Decode, Encode;
      var tail := EncodeAll(ms[1..]) + rest;
      assert EncodeAll(ms) + rest == Encode(ms[0]) + tail;
      ReadsBackIffFits(ms[0], tail, capacity);
      StreamReadsBack(ms[1..], rest, capacity);
      assert [ms[0]] + ms[1..] == ms;
    }
  }

  function CountPings(ms: seq<Msg>): nat {
    if ms == [] then 0 else (if ms[0].dataType == 1 then 1 else 0) + CountPings(ms[1..])
  }

  /** Every written ping is answered, once. */
  lemma {:induction false} EveryPingIsSeen(ms: seq<Msg>, capacity: nat)
    requires AllFit(ms, capacity) && capacity >= 4
    ensures Pings(EncodeAll(ms), capacity) == CountPings(ms)
  {
    if ms != [] {
      hide Decode, Encode;
      ReadsBackIffFits(ms[0], EncodeAll(ms[1..]), capacity);
      EveryPingIsSeen(ms[1..], capacity);
    }
  }
}
