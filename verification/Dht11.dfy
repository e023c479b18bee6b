/**
 The DHT11 reader of examples/dht11.c. Time is counted in microseconds and passes only in
 the delay calls; what gpio_get_value returns is a function of the time. The polling loops
 are methods on the driver's state, proved against functions of the line, and about those
 functions it is proved that they invert the sensor's waveform.
 */
module Dht11 {
  import opened Decimal

  const FRAME: nat := 40  // bits of a frame
  const BYTE: nat := 8    // bits of a byte

  /** The level of the data line at each microsecond: true is high. */
  type Line = nat -> bool

  const ETIMEDOUT := 110
  const EIO := 5

  // The polling loops.

  /** How a wait for the line to leave `level` ends: `timeout`, and the time. */
  datatype WaitResult = WaitResult(timeout: int, t: nat)

  /** The wait from time t on; `timeout` has reached 0 at time `deadline`. */
  function Poll(line: Line, t: nat, level: bool, deadline: nat): (r: WaitResult)
    requires t <= deadline
    ensures -1 <= r.timeout <= deadline - t && t <= r.t <= deadline
    decreases deadline - t
  {
    if line(t) != level then WaitResult(deadline - t, t)
    else if t == deadline then WaitResult(-1, t)
    else Poll(line, t + 1, level, deadline)
  }

  /** The wait as the code starts it, with `timeout = 300`. */
  function Wait(line: Line, t: nat, level: bool): (r: WaitResult)
    ensures -1 <= r.timeout <= 300 && t <= r.t <= t + 300
  {
    Poll(line, t, level, t + 300)
  }

  lemma {:induction false} PollEnds(line: Line, t: nat, level: bool, deadline: nat)
    requires t <= deadline
    ensures var r := Poll(line, t, level, deadline);
            && (r.timeout == -1 <==> forall x: nat :: t <= x <= deadline ==> line(x) == level)
            && (r.timeout != -1 ==> line(r.t) != level && r.timeout == deadline - r.t
                                    && forall x: nat :: t <= x < r.t ==> line(x) == level)
            && (r.timeout == -1 ==> r.t == deadline)
    decreases deadline - t
  {
    if line(t) == level && t < deadline {
      PollEnds(line, t + 1, level, deadline);
    }
  }

  /**
   A wait fails exactly when all its 301 samples show the line stuck, and then 300 us have
   gone by; otherwise it ends at the first sample that shows the other level.
   */
  lemma WaitFailsIffStuck(line: Line, t: nat, level: bool)
    ensures var r := Wait(line, t, level);
            && (r.timeout == -1 <==> forall x: nat :: t <= x <= t + 300 ==> line(x) == level)
            && (r.timeout == -1 ==> r.t == t + 300)
            && (r.timeout != -1 ==> line(r.t) != level && forall x: nat :: t <= x < r.t ==> line(x) == level)
  {
    PollEnds(line, t, level, t + 300);
  }

  /** A level that lasts d samples more, at most 300, is waited out in d microseconds. */
  lemma WaitedOut(line: Line, t: nat, level: bool, d: nat)
    requires d <= 300 && line(t + d) != level && Holds(line, t, t + d, level)
    ensures Wait(line, t, level) == WaitResult(300 - d, t + d)
  {
    PollEnds(line, t, level, t + 300);
    var r := Wait(line, t, level);
    assert r.timeout != -1 by { assert line(t + d) != level; }
    assert r.t <= t + d;
  }

  ghost predicate Holds(line: Line, begin: nat, end: nat, level: bool) {
    forall x: nat :: begin <= x < end ==> line(x) == level
  }

  // One attempt.

  datatype Bits = TimedOut(t: nat) | Bits(bits: seq<bool>, t: nat)

  /** One bit: wait while high, wait while low, and look again 50 microseconds later. */
  function ReadBit(line: Line, t: nat): (r: Bits)
    ensures t <= r.t <= t + 650
    ensures r.Bits? ==> |r.bits| == 1
  {
    var high := Wait(line, t, true);
    if high.timeout == -1 then TimedOut(high.t) else
    var low := Wait(line, high.t, false);
    if low.timeout == -1 then TimedOut(low.t)
    else Bits([line(low.t + 50)], low.t + 50)
  }

  function ReadBits(line: Line, t: nat, n: nat): (r: Bits)
    ensures t <= r.t <= t + 650 * n
    ensures r.Bits? ==> |r.bits| == n
    decreases n, t
  {
    if n == 0 then Bits([], t) else
    match ReadBits(line, t, n - 1)
    case TimedOut(t') => TimedOut(t')
    case Bits(bits, t') =>
      match ReadBit(line, t')
      case TimedOut(t'') => TimedOut(t'')
      case Bits(b, t'') => Bits(bits + b, t'')
  }

  /** `byte <<= 1; byte |= bit` in a uint8_t. */
  function Shift(byte: nat, bit: bool): (r: nat)
    requires byte < 256
    ensures r < 256
  {
    2 * byte % 256 + if bit then 1 else 0
  }

  function ByteOf(bits: seq<bool>): (b: nat)
    ensures b < 256
    decreases |bits|
  {
    if bits == [] then 0 else Shift(ByteOf(bits[..|bits|-1]), bits[|bits|-1])
  }

  function BytesOf(bits: seq<bool>): (data: seq<nat>)
    ensures |data| == |bits| / 8 && forall j :: 0 <= j < |data| ==> data[j] < 256
  {
    seq(|bits| / 8, j requires 0 <= j < |bits| / 8 => ByteOf(bits[8 * j..8 * j + 8]))
  }

  predicate ChecksumOk(data: seq<nat>)
    requires |data| == 5
  {
    data[4] == (data[0] + data[1] + data[2] + data[3]) % 256
  }

  datatype Outcome = Attempt(ret: int, t: nat, data: seq<nat>)

  /** A successful attempt comes with five bytes. */
  type Attempt = a: Outcome | a.ret == 0 ==> |a.data| == 5 witness Attempt(-EIO, 0, [])

  /** The time of the first sample: the start signal takes 20 ms + 30 us + 2 us. */
  function FirstSample(t: nat): nat {
    t + 20_000 + 30 + 2
  }

  /** The three waits before the data. */
  function Response(line: Line, t: nat): (r: WaitResult)
    ensures t <= r.t <= t + 900
  {
    var w1 := Wait(line, t, true);
    if w1.timeout == -1 then w1 else
    var w2 := Wait(line, w1.t, false);
    if w2.timeout == -1 then w2 else
    Wait(line, w2.t, true)
  }

  /** `dht11_read_data` called at time t. */
  function ReadData(line: Line, t: nat): (r: Attempt)
    ensures r.ret in {0, -ETIMEDOUT, -EIO}
    ensures r.ret == 0 ==> |r.data| == 5 && ChecksumOk(r.data) && forall j :: 0 <= j < 5 ==> r.data[j] < 256
  {
    var w := Response(line, FirstSample(t));
    if w.timeout == -1 then Attempt(-ETIMEDOUT, w.t, []) else
    match ReadBits(line, w.t, FRAME)
    case TimedOut(t') => Attempt(-ETIMEDOUT, t', [])
    case Bits(bits, t') =>
      Attempt(if ChecksumOk(BytesOf(bits)) then 0 else -EIO, t', BytesOf(bits))
  }

  /** Only five bytes with a right checksum are ever accepted. */
  lemma AcceptedIsRight(line: Line, t: nat)
    ensures var r := ReadData(line, t);
            r.ret == 0 ==> |r.data| == 5 && r.data[4] == (r.data[0] + r.data[1] + r.data[2] + r.data[3]) % 256
  {
    var r := ReadData(line, t);
    if r.ret == 0 { ChecksumIs(r.data); }
  }

  /** On any behaviour of the line an attempt requests at most 46,932 us of delay. */
  lemma AttemptTime(line: Line, t: nat)
    ensures t <= ReadData(line, t).t <= t + 46_932
  {
  }

  lemma {:induction false} OneByteInSum(d: seq<nat>, e: seq<nat>, j: nat)
    requires |d| == |e| == 5 && ChecksumOk(d) && ChecksumOk(e) && j < 5
    requires forall i :: 0 <= i < 5 ==> d[i] < 256 && e[i] < 256
    requires forall i :: 0 <= i < 5 && i != j ==> d[i] == e[i]
    ensures d == e
  {
    if j < 4 {
      var rest := d[0] + d[1] + d[2] + d[3] - d[j];
      SameRemainder(rest, d[j], e[j]);
    }
    assert d[j] == e[j];
  }

  lemma SameRemainder(rest: int, x: nat, y: nat)
    requires (rest + x) % 256 == (rest + y) % 256 && x < 256 && y < 256
    ensures x == y
  {
    var p, q := (rest + x) / 256, (rest + y) / 256;
    assert x - y == 256 * (p - q);
  }

  /** Two readings that differ in exactly one byte are never both accepted. */
  lemma OneByteIsCaught(line1: Line, t1: nat, line2: Line, t2: nat, j: nat)
    requires ReadData(line1, t1).ret == 0 && ReadData(line2, t2).ret == 0 && j < 5
    requires forall i :: 0 <= i < 5 && i != j ==> ReadData(line1, t1).data[i] == ReadData(line2, t2).data[i]
    ensures ReadData(line1, t1).data == ReadData(line2, t2).data
  {
    OneByteInSum(ReadData(line1, t1).data, ReadData(line2, t2).data, j);
  }

  // The sensor's waveform.

  /** One bit on the wire: low for `low`, then high for `high` microseconds. */
  datatype Pulse = Pulse(low: nat, high: nat)

  /** When the k-th pulse begins, the first beginning at t. */
  function Start(pulses: seq<Pulse>, t: nat, k: nat): nat
    requires k <= |pulses|
  {
    if k == 0 then t else Start(pulses, t, k - 1) + pulses[k-1].low + pulses[k-1].high
  }

  /** When the k-th pulse rises. */
  function Rise(pulses: seq<Pulse>, t: nat, k: nat): nat
    requires k < |pulses|
  {
    Start(pulses, t, k) + pulses[k].low
  }

  /** The k-th pulse is on the line at its time. */
  ghost predicate OnWire(line: Line, t: nat, pulses: seq<Pulse>, k: nat)
    requires k < |pulses|
  {
    && Holds(line, Start(pulses, t, k), Rise(pulses, t, k), false)
    && Holds(line, Rise(pulses, t, k), Start(pulses, t, k + 1), true)
  }

  /** From t on the line carries the pulses, and then stays low for `tail`. */
  ghost predicate Carries(line: Line, t: nat, pulses: seq<Pulse>, tail: nat) {
    && (forall k: nat :: k < |pulses| ==> OnWire(line, t, pulses, k))
    && Holds(line, Start(pulses, t, |pulses|), Start(pulses, t, |pulses|) + tail, false)
  }

  function LowAfter(pulses: seq<Pulse>, tail: nat, k: nat): nat
    requires k < |pulses|
  {
    if k + 1 < |pulses| then pulses[k + 1].low else tail
  }

  /** No phase is longer than 300 us, and after a short high the line is still low at 50 us. */
  ghost predicate InTolerance(pulses: seq<Pulse>, tail: nat) {
    forall k :: 0 <= k < |pulses| ==>
      && 1 <= pulses[k].low <= 300 && 1 <= pulses[k].high <= 300
      && (pulses[k].high <= 50 ==> pulses[k].high + LowAfter(pulses, tail, k) > 50)
  }

  /** A high of more than 50 us is a one. */
  function BitsOf(pulses: seq<Pulse>, n: nat): (bits: seq<bool>)
    requires n <= |pulses|
    ensures |bits| == n
  {
    seq(n, k requires 0 <= k < n => pulses[k].high > 50)
  }

  /** Where the decoder stands after k bits: 50 us after the last rise. */
  function Position(pulses: seq<Pulse>, t: nat, k: nat): nat
    requires k <= |pulses|
  {
    if k == 0 then t else Rise(pulses, t, k - 1) + 50
  }

  /** Waiting out the rest of the last high phase and then the low phase of pulse k. */
  lemma NextBit(line: Line, t: nat, pulses: seq<Pulse>, tail: nat, k: nat)
    requires k < |pulses| && Carries(line, t, pulses, tail) && InTolerance(pulses, tail)
    ensures ReadBit(line, Position(pulses, t, k)) == Bits([pulses[k].high > 50], Position(pulses, t, k + 1))
  {
    var c, s, r := Position(pulses, t, k), Start(pulses, t, k), Rise(pulses, t, k);
    assert OnWire(line, t, pulses, k);
    if k > 0 {
      assert OnWire(line, t, pulses, k - 1);
    }
    var d := if c < s then s - c else 0;
    WaitedOut(line, c, true, d);
    WaitedOut(line, c + d, false, r - (c + d));
    SampleAt(line, t, pulses, tail, k);
  }

  /** The level 50 us after the k-th rise tells the bit. */
  lemma SampleAt(line: Line, t: nat, pulses: seq<Pulse>, tail: nat, k: nat)
    requires k < |pulses| && Carries(line, t, pulses, tail) && InTolerance(pulses, tail)
    ensures line(Rise(pulses, t, k) + 50) == (pulses[k].high > 50)
  {
    var r, e := Rise(pulses, t, k), Start(pulses, t, k + 1);
    assert OnWire(line, t, pulses, k);
    if k + 1 < |pulses| {
      assert OnWire(line, t, pulses, k + 1);
    }
  }

  lemma BitsOfOneMore(pulses: seq<Pulse>, n: nat)
    requires n < |pulses|
    ensures BitsOf(pulses, n + 1) == BitsOf(pulses, n) + [pulses[n].high > 50]
  {
  }

  lemma ReadOneMore(line: Line, t: nat, n: nat, bits: seq<bool>, t': nat, bit: bool, t'': nat)
    requires ReadBits(line, t, n) == Bits(bits, t') && ReadBit(line, t') == Bits([bit], t'')
    ensures ReadBits(line, t, n + 1) == Bits(bits + [bit], t'')
  {
  }

  lemma {:induction false} ReadsPulses(line: Line, t: nat, pulses: seq<Pulse>, tail: nat, n: nat)
    requires n <= |pulses| && Carries(line, t, pulses, tail) && InTolerance(pulses, tail)
    ensures ReadBits(line, t, n) == Bits(BitsOf(pulses, n), Position(pulses, t, n))
  {
    if n > 0 {
      ReadsPulses(line, t, pulses, tail, n - 1);
      NextBit(line, t, pulses, tail, n - 1);
      ReadOneMore(line, t, n - 1, BitsOf(pulses, n - 1), Position(pulses, t, n - 1),
                  pulses[n-1].high > 50, Position(pulses, t, n));
      BitsOfOneMore(pulses, n - 1);
    }
  }

  /** The response before the data: high for h0, low for l1, high for h1. */
  ghost predicate Preamble(line: Line, t: nat, h0: nat, l1: nat, h1: nat) {
    && h0 <= 300 && 1 <= l1 <= 300 && 1 <= h1 <= 300
    && Holds(line, t, t + h0, true)
    && Holds(line, t + h0, t + h0 + l1, false)
    && Holds(line, t + h0 + l1, t + h0 + l1 + h1, true)
  }

  lemma ResponseWaited(line: Line, t: nat, h0: nat, l1: nat, h1: nat)
    requires Preamble(line, t, h0, l1, h1) && !line(t + h0 + l1 + h1)
    ensures Response(line, t) == WaitResult(300 - h1, t + h0 + l1 + h1)
  {
    WaitedOut(line, t, true, h0);
    WaitedOut(line, t + h0, false, l1);
    WaitedOut(line, t + h0 + l1, true, h1);
  }

  /** 8 bits of a byte, most significant first. */
  function ByteBits(b: nat, n: nat): (bits: seq<bool>)
    ensures |bits| == n
    decreases n, b
  {
    if n == 0 then [] else ByteBits(b / 2, n - 1) + [b % 2 == 1]
  }

  function FrameBits(data: seq<nat>): (bits: seq<bool>)
    ensures |bits| == 8 * |data|
    decreases |data|
  {
    if data == [] then [] else FrameBits(data[..|data|-1]) + ByteBits(data[|data|-1], BYTE)
  }

  function Power2(n: nat): (p: nat)
    ensures p > 0
  {
    if n == 0 then 1 else 2 * Power2(n - 1)
  }

  lemma {:induction false} ByteOfBits(b: nat, n: nat)
    requires n <= 8 && b < Power2(n)
    ensures ByteOf(ByteBits(b, n)) == b
    decreases n
  {
    if n > 0 {
      AtMost256(n);
      ByteOfBits(b / 2, n - 1);
      ByteOfAppend(ByteBits(b / 2, n - 1), b % 2 == 1);
      ShiftHalf(b);
    }
  }

  lemma ShiftHalf(b: nat)
    requires b < 256
    ensures Shift(b / 2, b % 2 == 1) == b
  {
  }

  lemma ByteOfAppend(bits: seq<bool>, bit: bool)
    ensures ByteOf(bits + [bit]) == Shift(ByteOf(bits), bit)
  {
    assert (bits + [bit])[..|bits|] == bits;
  }

  lemma {:induction false} AtMost256(n: nat)
    requires n <= 8
    ensures Power2(n) <= 256 && Power2(8) == 256
  {
    assert Power2(8) == 2 * 2 * 2 * 2 * 2 * 2 * 2 * 2 * Power2(0);
    if n < 8 { Doubles(n); }
  }

  lemma {:induction false} Doubles(n: nat)
    requires n <= 8
    ensures Power2(n) <= Power2(8)
    decreases 8 - n
  {
    if n < 8 { Doubles(n + 1); }
  }

  lemma BytesOfAppend(bits: seq<bool>, last: seq<bool>)
    requires |bits| % 8 == 0 && |last| == 8
    ensures BytesOf(bits + last) == BytesOf(bits) + [ByteOf(last)]
  {
    var n := |bits| / 8;
    assert (bits + last)[8 * n..8 * n + 8] == last;
    forall j | 0 <= j < n ensures (bits + last)[8 * j..8 * j + 8] == bits[8 * j..8 * j + 8] {}
  }

  /** Sending bytes most significant bit first and assembling them again. */
  lemma {:induction false} BytesOfFrame(data: seq<nat>)
    requires forall j :: 0 <= j < |data| ==> data[j] < 256
    ensures BytesOf(FrameBits(data)) == data
    decreases |data|
  {
    if data != [] {
      var front, last := data[..|data|-1], data[|data|-1];
      BytesOfFrame(front);
      OneMoreByte(FrameBits(front), ByteBits(last, BYTE), last);
      assert data == front + [last];
    }
  }

  lemma OneMoreByte(bits: seq<bool>, more: seq<bool>, b: nat)
    requires |bits| % 8 == 0 && b < 256 && more == ByteBits(b, BYTE)
    ensures BytesOf(bits + more) == BytesOf(bits) + [b]
  {
    ByteRoundTrip(b);
    BytesOfAppend(bits, more);
  }

  lemma ByteRoundTrip(b: nat)
    requires b < 256
    ensures ByteOf(ByteBits(b, BYTE)) == b
  {
    AtMost256(BYTE);
    ByteOfBits(b, BYTE);
  }

  lemma DecodesBits(line: Line, t: nat, h0: nat, l1: nat, h1: nat, pulses: seq<Pulse>, tail: nat)
    requires |pulses| == FRAME && InTolerance(pulses, tail)
    requires Preamble(line, FirstSample(t), h0, l1, h1)
    requires Carries(line, FirstSample(t) + h0 + l1 + h1, pulses, tail)
    ensures var r := ReadData(line, t);
            && r.data == BytesOf(BitsOf(pulses, FRAME))
            && r.ret == (if ChecksumOk(r.data) then 0 else -EIO)
  {
    var t4 := FirstSample(t) + h0 + l1 + h1;
    FirstPulseIsLow(line, t4, pulses, tail);
    ResponseWaited(line, FirstSample(t), h0, l1, h1);
    ReadsPulses(line, t4, pulses, tail, FRAME);
    ReadDataIs(line, t, WaitResult(300 - h1, t4), BitsOf(pulses, FRAME), Position(pulses, t4, FRAME));
  }

  /**
   The decoder inverts every in-tolerance waveform. Whatever 40 pulses of the permitted
   lengths follow a proper response, the attempt reads exactly the bits they stand for, and
   accepts them if and only if the checksum is right.
   */
  lemma DecodesWaveform(line: Line, t: nat, h0: nat, l1: nat, h1: nat, pulses: seq<Pulse>, tail: nat)
    requires |pulses| == FRAME && InTolerance(pulses, tail)
    requires Preamble(line, FirstSample(t), h0, l1, h1)
    requires Carries(line, FirstSample(t) + h0 + l1 + h1, pulses, tail)
    ensures var r := ReadData(line, t);
            && r.data == BytesOf(BitsOf(pulses, FRAME))
            && r.ret == (if r.data[4] == (r.data[0] + r.data[1] + r.data[2] + r.data[3]) % 256 then 0 else -5)
  {
    DecodesBits(line, t, h0, l1, h1, pulses, tail);
    ChecksumIs(BytesOf(BitsOf(pulses, FRAME)));
  }

  lemma ChecksumIs(data: seq<nat>)
    requires |data| == 5
    ensures ChecksumOk(data) <==> data[4] == (data[0] + data[1] + data[2] + data[3]) % 256
  {
  }

  lemma ReadDataIs(line: Line, t: nat, w: WaitResult, bits: seq<bool>, end: nat)
    requires Response(line, FirstSample(t)) == w && w.timeout != -1
    requires |bits| == FRAME && ReadBits(line, w.t, FRAME) == Bits(bits, end)
    ensures var data := BytesOf(bits);
            ReadData(line, t) == Attempt(if ChecksumOk(data) then 0 else -EIO, end, data)
  {
  }

  lemma FirstPulseIsLow(line: Line, t: nat, pulses: seq<Pulse>, tail: nat)
    requires |pulses| == FRAME && InTolerance(pulses, tail) && Carries(line, t, pulses, tail)
    ensures !line(t)
  {
    assert OnWire(line, t, pulses, 0);
  }

  /**
   The round trip for frames: five bytes with a right checksum, sent most significant bit
   first with any in-tolerance timing, are returned exactly.
   */
  lemma FrameRoundTrip(line: Line, t: nat, h0: nat, l1: nat, h1: nat, pulses: seq<Pulse>, tail: nat,
                       data: seq<nat>)
    requires |data| == 5 && data[4] == (data[0] + data[1] + data[2] + data[3]) % 256
    requires forall j :: 0 <= j < 5 ==> data[j] < 256
    requires |pulses| == FRAME && InTolerance(pulses, tail)
    requires BitsOf(pulses, FRAME) == FrameBits(data)
    requires Preamble(line, FirstSample(t), h0, l1, h1)
    requires Carries(line, FirstSample(t) + h0 + l1 + h1, pulses, tail)
    ensures ReadData(line, t).ret == 0 && ReadData(line, t).data == data
  {
    DecodesBits(line, t, h0, l1, h1, pulses, tail);
    BytesOfFrame(data);
    ChecksumIs(data);
  }

  // The encoder: a line that behaves as the sensor does.

  lemma {:induction false} StartsInOrder(pulses: seq<Pulse>, t: nat, j: nat, k: nat)
    requires j <= k <= |pulses|
    ensures t <= Start(pulses, t, j) <= Start(pulses, t, k)
    decreases k
  {
    if k > 0 {
      StartsInOrder(pulses, t, if j < k then j else k - 1, k - 1);
    }
  }

  ghost predicate HighAt(t: nat, pulses: seq<Pulse>, x: nat) {
    exists k: nat :: k < |pulses| && Rise(pulses, t, k) <= x < Start(pulses, t, k + 1)
  }

  /** High for h0, low for l1, high for h1, and then the pulses. */
  ghost function Signal(t: nat, h0: nat, l1: nat, h1: nat, pulses: seq<Pulse>): Line {
    (x: nat) => x < t + h0 || t + h0 + l1 <= x < t + h0 + l1 + h1
                || HighAt(t + h0 + l1 + h1, pulses, x)
  }

  lemma SignalPulse(t: nat, h0: nat, l1: nat, h1: nat, pulses: seq<Pulse>, k: nat)
    requires k < |pulses|
    ensures OnWire(Signal(t, h0, l1, h1, pulses), t + h0 + l1 + h1, pulses, k)
  {
    var t4 := t + h0 + l1 + h1;
    StartsInOrder(pulses, t4, 0, k);
    forall x: nat | Start(pulses, t4, k) <= x < Rise(pulses, t4, k) ensures !HighAt(t4, pulses, x) {
      if HighAt(t4, pulses, x) {
        var j: nat :| j < |pulses| && Rise(pulses, t4, j) <= x < Start(pulses, t4, j + 1);
        if j < k { StartsInOrder(pulses, t4, j + 1, k); }
        if j > k { StartsInOrder(pulses, t4, k + 1, j); }
      }
    }
  }

  lemma SignalCarries(t: nat, h0: nat, l1: nat, h1: nat, pulses: seq<Pulse>, tail: nat)
    requires h0 <= 300 && 1 <= l1 <= 300 && 1 <= h1 <= 300
    ensures Preamble(Signal(t, h0, l1, h1, pulses), t, h0, l1, h1)
    ensures Carries(Signal(t, h0, l1, h1, pulses), t + h0 + l1 + h1, pulses, tail)
  {
    var t4 := t + h0 + l1 + h1;
    forall k: nat | k < |pulses| ensures OnWire(Signal(t, h0, l1, h1, pulses), t4, pulses, k) {
      SignalPulse(t, h0, l1, h1, pulses, k);
    }
    StartsInOrder(pulses, t4, 0, |pulses|);
    forall x: nat | HighAt(t4, pulses, x) ensures t4 <= x < Start(pulses, t4, |pulses|) {
      var j: nat :| j < |pulses| && Rise(pulses, t4, j) <= x < Start(pulses, t4, j + 1);
      StartsInOrder(pulses, t4, 0, j);
      StartsInOrder(pulses, t4, j + 1, |pulses|);
    }
  }

  /** The nominal timing: 54 us low, then 70 us high for a one and 26 us for a zero. */
  function Nominal(bits: seq<bool>): (pulses: seq<Pulse>)
    ensures |pulses| == |bits|
  {
    seq(|bits|, k requires 0 <= k < |bits| => Pulse(54, if bits[k] then 70 else 26))
  }

  /** A sensor answering at nominal timing with the frame `data`. */
  ghost function Sensor(t: nat, data: seq<nat>): Line {
    Signal(FirstSample(t), 0, 80, 80, Nominal(FrameBits(data)))
  }

  /** Decoding what the nominal encoder sends. */
  lemma SensorRoundTrip(t: nat, data: seq<nat>)
    requires |data| == 5 && data[4] == (data[0] + data[1] + data[2] + data[3]) % 256
    requires forall j :: 0 <= j < 5 ==> data[j] < 256
    ensures ReadData(Sensor(t, data), t).ret == 0 && ReadData(Sensor(t, data), t).data == data
  {
    var pulses := Nominal(FrameBits(data));
    SignalCarries(FirstSample(t), 0, 80, 80, pulses, 50);
    assert BitsOf(pulses, FRAME) == FrameBits(data);
    FrameRoundTrip(Sensor(t, data), t, 0, 80, 80, pulses, 50, data);
  }

  // Opening the device: up to five attempts.

  /** The message of a successful reading. */
  function Message(data: seq<nat>): string
    requires |data| == 5
  {
    "Humidity: " + Digits(data[0]) + "%\nTemperature: " + Digits(data[2]) + " deg C\n"
  }

  /** The message: humidity from byte 0 and temperature from byte 2, as they read back. */
  predicate Shows(msg: string, humidity: string, temperature: string, data: seq<nat>)
    requires |data| == 5
  {
    && msg == "Humidity: " + humidity + "%\nTemperature: " + temperature + " deg C\n"
    && humidity != "" && AllDigits(humidity) && Number(humidity) == data[0]
    && temperature != "" && AllDigits(temperature) && Number(temperature) == data[2]
    && (humidity[0] == '0' ==> data[0] == 0) && (temperature[0] == '0' ==> data[2] == 0)
  }

  lemma MessageShows(data: seq<nat>)
    requires |data| == 5
    ensures Shows(Message(data), Digits(data[0]), Digits(data[2]), data)
  {
    NumberOfDigits(data[0]);
    NumberOfDigits(data[2]);
    FirstDigit(data[0]);
    FirstDigit(data[2]);
  }

  /** The attempts the line allows, by the time they begin. */
  function Attempts(line: Line): nat -> Attempt {
    (t: nat) => ReadData(line, t)
  }

  /** `read` gives the attempts that the line allows. */
  ghost predicate Reads(read: nat -> Attempt, line: Line) {
    forall t: nat {:trigger ReadData(line, t)} :: read(t) == ReadData(line, t)
  }

  /** The reading at which open stops, `tries` attempts being left, and the time it returns. */
  function Open(read: nat -> Attempt, t: nat, tries: nat): (r: Attempt)
    requires tries > 0
    decreases tries, t
  {
    var a := read(t);
    if a.ret == 0 then a
    else if tries == 1 then a.(t := a.t + 10_000)
    else Open(read, a.t + 10_000, tries - 1)
  }

  /** How many attempts open makes. */
  function Tries(read: nat -> Attempt, t: nat, tries: nat): (n: nat)
    requires tries > 0
    ensures 1 <= n <= tries && (n == 1 <==> read(t).ret == 0 || tries == 1)
    decreases tries, t
  {
    if read(t).ret == 0 || tries == 1 then 1 else 1 + Tries(read, read(t).t + 10_000, tries - 1)
  }

  /** The time at which the k-th attempt begins if none before it succeeds. */
  function AttemptAt(read: nat -> Attempt, t: nat, k: nat): nat
    decreases k, t
  {
    if k == 0 then t else AttemptAt(read, read(t).t + 10_000, k - 1)
  }

  lemma {:induction false} StopsAt(read: nat -> Attempt, t: nat, tries: nat) returns (k: nat)
    requires tries > 0 && forall x: nat :: x <= read(x).t <= x + 46_932
    ensures k + 1 == Tries(read, t, tries)
    ensures forall j: nat :: j < k ==> read(AttemptAt(read, t, j)).ret != 0
    ensures var a := read(AttemptAt(read, t, k));
            && (a.ret == 0 || k == tries - 1)
            && Open(read, t, tries) == (if a.ret == 0 then a else a.(t := a.t + 10_000))
    ensures t <= Open(read, t, tries).t <= t + tries * 56_932
    decreases tries
  {
    k := 0;
    if read(t).ret != 0 && tries > 1 {
      var next := read(t).t + 10_000;
      k := StopsAt(read, next, tries - 1);
      forall j: nat | j < k + 1 ensures read(AttemptAt(read, t, j)).ret != 0 {
        assert j > 0 ==> AttemptAt(read, t, j) == AttemptAt(read, next, j - 1);
      }
      k := k + 1;
    }
  }

  /**
   Open stops at some attempt k of the five: the ones before it failed, and it succeeds
   unless it is the last. The whole call requests at most 284,660 us of delay.
   */
  lemma OpenStopsAt(line: Line, t: nat) returns (k: nat)
    ensures k < 5
    ensures k + 1 == Tries(Attempts(line), t, 5)
    ensures var read := Attempts(line);
            && (forall j: nat :: j < k ==> read(AttemptAt(read, t, j)).ret != 0)
            && (var a := read(AttemptAt(read, t, k));
                && (a.ret == 0 || k == 4)
                && Open(read, t, 5) == (if a.ret == 0 then a else a.(t := a.t + 10_000)))
            && t <= Open(read, t, 5).t <= t + 284_660
  {
    forall x: nat ensures x <= Attempts(line)(x).t <= x + 46_932 { AttemptTime(line, x); }
    k := StopsAt(Attempts(line), t, 5);
  }

  lemma {:induction false} NoneSucceeds(read: nat -> Attempt, t: nat, tries: nat)
    requires tries > 0 && forall x: nat :: read(x).ret != 0 && read(x).t == x + 20_332
    ensures Tries(read, t, tries) == tries && Open(read, t, tries).t == t + tries * 30_332
    decreases tries
  {
    if tries > 1 { NoneSucceeds(read, read(t).t + 10_000, tries - 1); }
  }

  /**
   On a line that is stuck high open makes all its five attempts, and every one times out:
   20,032 us up to the first sample, 300 us of waiting and 10,000 us before the next.
   */
  lemma StuckHigh(t: nat)
    ensures var line: Line := (x: nat) => true;
            && ReadData(line, t).ret == -110 && Tries(Attempts(line), t, 5) == 5
            && Open(Attempts(line), t, 5).t == t + 5 * (20_032 + 300 + 10_000)
  {
    var line: Line := (x: nat) => true;
    forall x: nat
      ensures ReadData(line, x).ret == -ETIMEDOUT && ReadData(line, x).t == x + 20_332
    {
      WaitFailsIffStuck(line, FirstSample(x), true);
    }
    forall x: nat ensures Attempts(line)(x).ret != 0 && Attempts(line)(x).t == x + 20_332 {}
    NoneSucceeds(Attempts(line), t, 5);
  }

  lemma OneBitMore(line: Line, t: nat, n: nat, bits: seq<bool>, t': nat)
    requires ReadBits(line, t, n) == Bits(bits, t')
    ensures ReadBits(line, t, n + 1).t == ReadBit(line, t').t
    ensures ReadBits(line, t, n + 1).Bits? <==> ReadBit(line, t').Bits?
    ensures ReadBit(line, t').Bits? ==> ReadBits(line, t, n + 1).bits == bits + [ReadBit(line, t').bits[0]]
  {
  }

  lemma {:induction false} TimeoutStays(line: Line, t: nat, n: nat, m: nat)
    requires n <= m && ReadBits(line, t, n).TimedOut?
    ensures ReadBits(line, t, m) == ReadBits(line, t, n)
    decreases m
  {
    if n < m { TimeoutStays(line, t, n, m - 1); }
  }

  class Driver {
    var now: nat        // the time
    var isOutput: bool  // direction of the data pin
    var level: bool     // value last set
    var attempts: nat   // calls of dht11_read_data
    var signals: nat    // those that pulled the line low, the pin being an output
    var fell: nat       // when the last start signal pulled the line low
    var rose: nat       // and when it let go
    var msg: string

    constructor (t: nat)
      ensures now == t && isOutput && attempts == signals == 0 && msg == ""
    {
      now, isOutput, level, attempts, signals, fell, rose, msg := t, true, true, 0, 0, t, t, "";
    }

    /** `timeout = 300; while (gpio_get_value(pin) == level && timeout--) udelay(1);` */
    method WaitWhile(line: Line, level: bool) returns (timeout: int)
      modifies this`now
      ensures WaitResult(timeout, now) == Wait(line, old(now), level)
    {
      timeout := 300;
      while line(now) == level
        invariant 0 <= timeout <= 300 && now == old(now) + 300 - timeout
        invariant Wait(line, old(now), level) == Poll(line, now, level, old(now) + 300)
        decreases timeout
      {
        if timeout == 0 { return -1; }
        timeout := timeout - 1;
        now := now + 1;
      }
    }

    /** One pass of the inner loop, lines 85 to 102, when `bits` have been read since `begin`. */
    method ReadOneBit(line: Line, byte: nat, ghost begin: nat, ghost n: nat, ghost bits: seq<bool>)
      returns (ok: bool, byte': nat, ghost bit: bool)
      requires byte < 256 && ReadBits(line, begin, n) == Bits(bits, now)
      modifies this`now
      ensures ReadBits(line, begin, n + 1) == (if ok then Bits(bits + [bit], now) else TimedOut(now))
      ensures ok ==> byte' == Shift(byte, bit)
    {
      ghost var t := now;
      OneBitMore(line, begin, n, bits, t);
      byte' := byte;
      bit := false;
      var timeout := WaitWhile(line, true);
      if timeout == -1 { return false, byte, false; }
      timeout := WaitWhile(line, false);
      if timeout == -1 { return false, byte, false; }
      now := now + 50;
      byte' := 2 * byte % 256;
      if line(now) { byte' := byte' + 1; }
      bit := line(now);
      ok := true;
      assert ReadBit(line, t) == Bits([bit], now);
    }

    /** The inner loop, lines 83 to 103, when n bits have been read since `begin`. */
    method ReadByte(line: Line, ghost begin: nat, ghost n: nat, ghost before: seq<bool>)
      returns (ok: bool, byte: nat, ghost bits: seq<bool>)
      requires ReadBits(line, begin, n) == Bits(before, now)
      modifies this`now
      ensures ok ==> |bits| == 8 && byte == ByteOf(bits)
      ensures ReadBits(line, begin, n + BYTE) == (if ok then Bits(before + bits, now) else TimedOut(now))
    {
      bits := [];
      byte := 0;
      var i := 0;
      ghost var all, m := before, n;
      while i < 8
        invariant 0 <= i <= 8 && |bits| == i && byte == ByteOf(bits)
        invariant all == before + bits && m == n + i
        invariant ReadBits(line, begin, m) == Bits(all, now)
      {
        ghost var bit;
        ok, byte, bit := ReadOneBit(line, byte, begin, m, all);
        if !ok {
          TimeoutStays(line, begin, m + 1, n + BYTE);
          return;
        }
        ByteOfAppend(bits, bit);
        bits, all, m := bits + [bit], all + [bit], m + 1;
        i := i + 1;
      }
      ok := true;
    }

    /** The outer loop, lines 82 to 105. */
    method ReadFrame(line: Line) returns (ok: bool, sensorData: array<nat>)
      modifies this`now
      ensures fresh(sensorData) && sensorData.Length == 5
      ensures now == ReadBits(line, old(now), FRAME).t
      ensures ok <==> ReadBits(line, old(now), FRAME).Bits?
      ensures ok ==> sensorData[..] == BytesOf(ReadBits(line, old(now), FRAME).bits)
    {
      sensorData := new nat[5](_ => 0);
      ghost var read: seq<bool> := [];
      var j := 0;
      while j < 5
        invariant 0 <= j <= 5
        invariant ReadBits(line, old(now), BYTE * j) == Bits(read, now)
        invariant sensorData[..j] == BytesOf(read)
      {
        var byte;
        ghost var bits;
        ok, byte, bits := ReadByte(line, old(now), BYTE * j, read);
        if !ok {
          TimeoutStays(line, old(now), BYTE * j + BYTE, FRAME);
          return;
        }
        BytesOfAppend(read, bits);
        read := read + bits;
        sensorData[j] := byte;
        j := j + 1;
      }
      assert sensorData[..] == sensorData[..5];
      ok := true;
    }

    /** Lines 61 to 80. */
    method WaitForResponse(line: Line) returns (ok: bool)
      modifies this`now
      ensures ok <==> Response(line, old(now)).timeout != -1
      ensures now == Response(line, old(now)).t
    {
      var timeout := WaitWhile(line, true);
      if timeout == -1 { return false; }
      timeout := WaitWhile(line, false);
      if timeout == -1 { return false; }
      timeout := WaitWhile(line, true);
      ok := timeout != -1;
    }

    /** Lines 61 to 109: everything after the start signal. */
    method Receive(line: Line, ghost t: nat) returns (ret: int, data: seq<nat>)
      requires now == FirstSample(t)
      modifies this`now
      ensures ret == ReadData(line, t).ret && now == ReadData(line, t).t
      ensures ret == 0 ==> data == ReadData(line, t).data
    {
      data := [];
      var ok := WaitForResponse(line);
      if !ok { return -ETIMEDOUT, data; }
      var sensorData;
      ok, sensorData := ReadFrame(line);
      if !ok { return -ETIMEDOUT, data; }
      data := sensorData[..];
      ret := if data[4] != (data[0] + data[1] + data[2] + data[3]) % 256 then -EIO else 0;
    }

    /** Lines 54 to 59: low for 20 ms, then high, and the pin an input from then on. */
    method StartSignal()
      modifies `now, `signals, `level, `fell, `rose, `isOutput
      ensures now == FirstSample(old(now)) && !isOutput
      ensures signals == old(signals) + if old(isOutput) then 1 else 0
      ensures fell == old(now) && rose == fell + 20_000
    {
      if isOutput { signals := signals + 1; }
      level, fell := false, now;
      now := now + 20_000;
      level, rose := true, now;
      now := now + 30;
      isOutput := false;
      now := now + 2;
    }

    /** `dht11_read_data` */
    method ReadSensor(line: Line, ghost read: nat -> Attempt) returns (ret: int)
      requires Reads(read, line)
      modifies this
      ensures var a := read(old(now));
              && ret == a.ret && now == a.t
              && isOutput == (ret == 0)
              && msg == (if ret == 0 then Message(a.data) else old(msg))
      ensures attempts == old(attempts) + 1
      ensures signals == old(signals) + if old(isOutput) then 1 else 0
      ensures fell == old(now) && rose == fell + 20_000
    {
      attempts := attempts + 1;
      StartSignal();
      var data;
      ret, data := Receive(line, old(now));
      if ret != 0 { return; }
      isOutput, level := true, true;
      msg := Message(data);
    }

    /**
     `device_open`. Whatever happens the pin is an output again afterwards; but the pin is
     an input when any attempt but the first begins, so only the first sends a start signal:
     every attempt has sent one exactly when the first reading succeeded.
     */
    method DeviceOpen(line: Line, ghost read: nat -> Attempt) returns (ret: int)
      requires isOutput && Reads(read, line)
      modifies this
      ensures var a := Open(read, old(now), 5);
              && ret == a.ret && now == a.t
              && msg == (if ret == 0 then Message(a.data) else old(msg))
      ensures isOutput
      ensures signals == old(signals) + 1 && attempts == old(attempts) + Tries(read, old(now), 5)
      ensures attempts - old(attempts) == signals - old(signals) <==> read(old(now)).ret == 0
    {
      ret := 0;
      var retry := 0;
      while retry < 5
        invariant 0 <= retry <= 5
        invariant retry < 5 ==> Open(read, old(now), 5) == Open(read, now, 5 - retry)
        invariant retry < 5 ==> Tries(read, old(now), 5) == retry + Tries(read, now, 5 - retry)
        invariant retry == 5 ==> Tries(read, old(now), 5) == 5
        invariant attempts == old(attempts) + retry
        invariant retry > 0 ==> ret != 0 && !isOutput && signals == old(signals) + 1
        invariant retry == 0 ==> now == old(now) && isOutput && signals == old(signals)
        invariant retry == 5 ==> Open(read, old(now), 5).ret == ret && Open(read, old(now), 5).t == now
        invariant msg == old(msg)
      {
        ret := ReadSensor(line, read);
        if ret == 0 { return; }
        now := now + 10_000;
        retry := retry + 1;
      }
      isOutput, level := true, true;
    }
  }

  /**
   Open on a sensor that sends a right frame, with any in-tolerance timing: it succeeds at
   once and leaves humidity and temperature, and nothing else, in the message.
   */
  method OpenShowsFrame(d: Driver, line: Line, ghost h0: nat, ghost l1: nat, ghost h1: nat,
                        ghost pulses: seq<Pulse>, ghost tail: nat, ghost data: seq<nat>)
      returns (ret: int, ghost humidity: string, ghost temperature: string)
    requires d.isOutput && |data| == 5 && data[4] == (data[0] + data[1] + data[2] + data[3]) % 256
    requires forall j :: 0 <= j < 5 ==> data[j] < 256
    requires |pulses| == FRAME && InTolerance(pulses, tail) && BitsOf(pulses, FRAME) == FrameBits(data)
    requires Preamble(line, FirstSample(d.now), h0, l1, h1)
    requires Carries(line, FirstSample(d.now) + h0 + l1 + h1, pulses, tail)
    modifies d
    ensures ret == 0 && d.isOutput && d.attempts == old(d.attempts) + 1
    ensures d.msg == "Humidity: " + humidity + "%\nTemperature: " + temperature + " deg C\n"
    ensures humidity != "" && AllDigits(humidity) && Number(humidity) == data[0]
    ensures temperature != "" && AllDigits(temperature) && Number(temperature) == data[2]
  {
    FrameRoundTrip(line, d.now, h0, l1, h1, pulses, tail, data);
    MessageShows(data);
    humidity, temperature := Digits(data[0]), Digits(data[2]);
    ret := d.DeviceOpen(line, Attempts(line));
  }
}
