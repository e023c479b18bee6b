/**
 The statistics of examples/vnetloop.c on a 32-bit multiprocessor, where a 64-bit counter
 is two machine words and `u64_stats_sync` is a sequence counter. `vnetloop_xmit` (one at
 a time) stores one word per step, `vnetloop_get_stats64` loads one word per step, in any
 interleaving.
 */
module Vnetloop {

  const WORD: int := 0x1_0000_0000

  /** A transmitted packet: its length, whether skb_copy worked, and the copy's length. */
  datatype Packet = Packet(len: nat, copied: bool, rxLen: nat)

  datatype Counters = Counters(txPackets: int, txBytes: int, rxPackets: int, rxBytes: int)

  function U64(x: int): (r: int)
    ensures 0 <= r < WORD * WORD
  {
    x % (WORD * WORD)
  }

  /** What `vnetloop_xmit` does to the four counters. */
  function Transmit(c: Counters, p: Packet): Counters {
    var sent := c.(txPackets := U64(c.txPackets + 1), txBytes := U64(c.txBytes + p.len));
    if p.copied
    then sent.(rxPackets := U64(c.rxPackets + 1), rxBytes := U64(c.rxBytes + p.rxLen))
    else sent
  }

  // The counters as they should be: the totals over all transmissions so far.

  function SumLen(ps: seq<Packet>): nat {
    if ps == [] then 0 else SumLen(ps[..|ps|-1]) + ps[|ps|-1].len
  }

  function CountCopied(ps: seq<Packet>): nat {
    if ps == [] then 0 else CountCopied(ps[..|ps|-1]) + if ps[|ps|-1].copied then 1 else 0
  }

  function SumCopied(ps: seq<Packet>): nat {
    if ps == [] then 0 else SumCopied(ps[..|ps|-1]) + if ps[|ps|-1].copied then ps[|ps|-1].rxLen else 0
  }

  function Totals(ps: seq<Packet>): Counters {
    Counters(U64(|ps|), U64(SumLen(ps)), U64(CountCopied(ps)), U64(SumCopied(ps)))
  }

  lemma AddModulo(a: int, b: int)
    ensures U64(U64(a) + b) == U64(a + b)
  {
    var m := WORD * WORD;
    assert a == m * (a / m) + U64(a);
    assert (U64(a) + b) + m * (a / m) == a + b;
    SameModulo(U64(a) + b, a / m);
  }

  /** The counters are of 64 bits: exact up to 2^64 - 1, and 0 again after that. */
  lemma SixtyFourBits(x: int)
    ensures 0 <= x < 0x1_0000_0000_0000_0000 <==> U64(x) == x
    ensures U64(x + 0x1_0000_0000_0000_0000) == U64(x)
  {
    SameModulo(x, 1);
  }

  lemma SameModulo(x: int, k: int)
    ensures U64(x + WORD * WORD * k) == U64(x)
  {
  }

  /** A transmission takes the totals of the packets before it to the totals with it. */
  lemma TransmitAdds(ps: seq<Packet>, p: Packet)
    ensures Transmit(Totals(ps), p) == Totals(ps + [p])
  {
    assert (ps + [p])[..|ps|] == ps;
    AddModulo(|ps|, 1);
    AddModulo(SumLen(ps), p.len);
    AddModulo(CountCopied(ps), 1);
    AddModulo(SumCopied(ps), p.rxLen);
  }

  // Memory: eight words, low half first.

  function Words(c: Counters): (w: seq<int>)
    ensures |w| == 8
  {
    [c.txPackets % WORD, c.txPackets / WORD, c.txBytes % WORD, c.txBytes / WORD,
     c.rxPackets % WORD, c.rxPackets / WORD, c.rxBytes % WORD, c.rxBytes / WORD]
  }

  function Value(w: seq<int>): Counters
    requires |w| == 8
  {
    Counters(w[0] + WORD * w[1], w[2] + WORD * w[3], w[4] + WORD * w[5], w[6] + WORD * w[7])
  }

  lemma ValueOfWords(c: Counters)
    ensures Value(Words(c)) == c
  {
  }

  datatype Store = Store(at: nat, word: int)

  /** Stores of the words `from` to `end` of w, in that order. */
  function StoreRange(w: seq<int>, from: nat, end: nat): (ss: seq<Store>)
    requires |w| == 8 && from <= end <= 8
    ensures forall i :: 0 <= i < |ss| ==> ss[i].at < 8
    decreases end - from
  {
    if from == end then [] else [Store(from, w[from])] + StoreRange(w, from + 1, end)
  }

  /** The word stores of one transmission, in program order: no copy, no rx counters. */
  function Stores(mem: seq<int>, p: Packet): (ss: seq<Store>)
    requires |mem| == 8
    ensures forall i :: 0 <= i < |ss| ==> ss[i].at < 8
  {
    StoreRange(Words(Transmit(Value(mem), p)), 0, if p.copied then 8 else 4)
  }

  function Apply(mem: seq<int>, ss: seq<Store>): (r: seq<int>)
    requires |mem| == 8 && forall i :: 0 <= i < |ss| ==> ss[i].at < 8
    ensures |r| == 8
    decreases |ss|
  {
    if ss == [] then mem else Apply(mem[ss[0].at := ss[0].word], ss[1..])
  }

  datatype Writer = Quiet | Busy(p: Packet, todo: seq<Store>)

  /**
   `begun` and `ended` are the true number of sequence counter increments at the begin and
   at the passing check; the code sees them only modulo 2^32, in `start`.
   */
  datatype Reader =
    | Out
    | Reading(start: int, got: seq<int>, begun: nat)
    | Returned(words: seq<int>, begun: nat, ended: nat)

  /** `count` counts the increments of the sequence counter, `sent` the transmissions done. */
  datatype State = State(count: nat, mem: seq<int>, writer: Writer, reader: Reader, sent: seq<Packet>)

  datatype Action =
    | XmitBegin(p: Packet)  // u64_stats_update_begin
    | XmitStore             // the next word
    | XmitEnd               // u64_stats_update_end
    | FetchBegin            // u64_stats_fetch_begin
    | FetchWord             // the next word
    | FetchRetry            // u64_stats_fetch_retry

  function Init(): State {
    State(0, Words(Totals([])), Quiet, Out, [])
  }

  predicate WellFormed(s: State) {
    && |s.mem| == 8
    && (s.writer.Busy? ==> forall i :: 0 <= i < |s.writer.todo| ==> s.writer.todo[i].at < 8)
  }

  function Step(s: State, a: Action): (s': State)
    requires WellFormed(s)
    ensures WellFormed(s')
  {
    match a
    case XmitBegin(p) =>
      if s.writer.Quiet? then s.(count := s.count + 1, writer := Busy(p, Stores(s.mem, p))) else s
    case XmitStore =>
      if s.writer.Busy? && s.writer.todo != []
      then s.(mem := s.mem[s.writer.todo[0].at := s.writer.todo[0].word],
              writer := s.writer.(todo := s.writer.todo[1..]))
      else s
    case XmitEnd =>
      if s.writer.Busy? && s.writer.todo == []
      then s.(count := s.count + 1, writer := Quiet, sent := s.sent + [s.writer.p]) else s
    case FetchBegin =>
      // While the counter is odd the reader spins.
      if !s.reader.Reading? && s.count % WORD % 2 == 0
      then s.(reader := Reading(s.count % WORD, [], s.count)) else s
    case FetchWord =>
      if s.reader.Reading? && |s.reader.got| < 8
      then s.(reader := s.reader.(got := s.reader.got + [s.mem[|s.reader.got|]])) else s
    case FetchRetry =>
      if s.reader.Reading? && |s.reader.got| == 8
      then s.(reader := if s.count % WORD == s.reader.start
                        then Returned(s.reader.got, s.reader.begun, s.count) else Out)
      else s
  }

  function Execute(s: State, schedule: seq<Action>): (s': State)
    requires WellFormed(s)
    ensures WellFormed(s')
    decreases |schedule|
  {
    if schedule == [] then s
    else Step(Execute(s, schedule[..|schedule|-1]), schedule[|schedule|-1])
  }

  ghost predicate WriterOk(s: State) {
    && WellFormed(s)
    && s.count == 2 * |s.sent| + (if s.writer.Busy? then 1 else 0)
    && (if s.writer.Busy?
        then Apply(s.mem, s.writer.todo) == Words(Totals(s.sent + [s.writer.p]))
        else s.mem == Words(Totals(s.sent)))
  }

  ghost predicate ReaderOk(s: State) {
    match s.reader
    case Out => true
    case Reading(start, got, begun) =>
      && begun <= s.count && begun % 2 == 0 && start == begun % WORD && |got| <= 8
      && (begun == s.count ==> got == Words(Totals(s.sent))[..|got|])
    case Returned(words, begun, ended) =>
      && begun <= ended <= s.count && begun % 2 == 0 && ended % WORD == begun % WORD && |words| == 8
      && begun / 2 <= |s.sent|
      && (begun == ended ==> words == Words(Totals(s.sent[..begun / 2])))
  }

  lemma {:induction false} ApplyRange(mem: seq<int>, w: seq<int>, from: nat, end: nat)
    requires |mem| == |w| == 8 && from <= end <= 8
    ensures Apply(mem, StoreRange(w, from, end)) == mem[..from] + w[from..end] + mem[end..]
    decreases end - from
  {
    var ss := StoreRange(w, from, end);
    if from < end {
      assert ss[1..] == StoreRange(w, from + 1, end);
      ApplyRange(mem[from := w[from]], w, from + 1, end);
    }
  }

  /** Applying the stores of a transmission performs it. */
  lemma StoresTransmit(mem: seq<int>, ps: seq<Packet>, p: Packet)
    requires mem == Words(Totals(ps))
    ensures Apply(mem, Stores(mem, p)) == Words(Totals(ps + [p]))
  {
    ValueOfWords(Totals(ps));
    TransmitAdds(ps, p);
    ApplyRange(mem, Words(Totals(ps + [p])), 0, if p.copied then 8 else 4);
  }

  lemma WriterStep(s: State, a: Action)
    requires WriterOk(s)
    ensures WriterOk(Step(s, a))
  {
    if a.XmitBegin? && s.writer.Quiet? { StoresTransmit(s.mem, s.sent, a.p); }
  }

  lemma ReaderStep(s: State, a: Action)
    requires WriterOk(s) && ReaderOk(s)
    ensures ReaderOk(Step(s, a))
  {
    if s.reader.Returned? && s.writer.Busy? {
      var k := s.reader.begun / 2;
      assert (s.sent + [s.writer.p])[..k] == s.sent[..k];
    }
    assert s.sent[..|s.sent|] == s.sent;
  }

  lemma {:induction false} Invariant(schedule: seq<Action>)
    ensures var s := Execute(Init(), schedule); WriterOk(s) && ReaderOk(s)
    decreases |schedule|
  {
    if schedule != [] {
      var before := schedule[..|schedule|-1];
      Invariant(before);
      WriterStep(Execute(Init(), before), schedule[|schedule|-1]);
      ReaderStep(Execute(Init(), before), schedule[|schedule|-1]);
    }
  }

  /**
   Snapshot atomicity. A returned snapshot that fewer than 2^31 transmissions crossed is
   the exact state of all four counters after some whole number k of transmissions,
   reached between the reader's begin and its check; and the number that crossed is then 0.
   */
  lemma SnapshotIsAtomic(schedule: seq<Action>)
    requires var s := Execute(Init(), schedule);
             s.reader.Returned? && s.reader.ended - s.reader.begun < WORD
    ensures var s := Execute(Init(), schedule);
            var k := s.reader.begun / 2;
            && k <= |s.sent| && s.reader.begun <= 2 * k <= s.reader.ended
            && |s.reader.words| == 8
            && Value(s.reader.words) == Totals(s.sent[..k])
  {
    Invariant(schedule);
    var s := Execute(Init(), schedule);
    assert s.reader.ended == s.reader.begun by {
      MultipleBelow(s.reader.ended, s.reader.begun);
    }
    ValueOfWords(Totals(s.sent[..s.reader.begun / 2]));
  }

  lemma MultipleBelow(a: nat, b: nat)
    requires b <= a < b + WORD && a % WORD == b % WORD
    ensures a == b
  {
  }

  // The bound is sharp: after exactly 2^31 transmissions the 32-bit counter has come round
  // to the same value, and the check lets a mix of two states through.

  lemma Extend(schedule: seq<Action>, a: Action)
    ensures Execute(Init(), schedule + [a]) == Step(Execute(Init(), schedule), a)
  {
    assert (schedule + [a])[..|schedule|] == schedule;
  }

  /** Letting the writer finish the transmission it is in. */
  lemma {:induction false} Finish(schedule: seq<Action>) returns (longer: seq<Action>)
    requires Execute(Init(), schedule).writer.Busy?
    ensures var s, s' := Execute(Init(), schedule), Execute(Init(), longer);
            s'.writer.Quiet? && s'.reader == s.reader && s'.sent == s.sent + [s.writer.p]
    decreases |Execute(Init(), schedule).writer.todo|
  {
    var s := Execute(Init(), schedule);
    var a := if s.writer.todo == [] then XmitEnd else XmitStore;
    Extend(schedule, a);
    longer := schedule + [a];
    if s.writer.todo != [] { longer := Finish(longer); }
  }

  function Copies(n: nat, p: Packet): (ps: seq<Packet>)
    ensures |ps| == n
  {
    seq(n, _ => p)
  }

  lemma CopiesOneMore(n: nat, p: Packet)
    ensures Copies(n + 1, p) == Copies(n, p) + [p] && Copies(n + 1, p)[..n] == Copies(n, p)
  {
  }

  /** `n` transmissions one after the other, the reader standing still. */
  lemma {:induction false} Burst(schedule: seq<Action>, n: nat, p: Packet) returns (longer: seq<Action>)
    requires Execute(Init(), schedule).writer.Quiet?
    ensures var s, s' := Execute(Init(), schedule), Execute(Init(), longer);
            s'.writer.Quiet? && s'.reader == s.reader && s'.sent == s.sent + Copies(n, p)
  {
    longer := schedule;
    if n > 0 {
      longer := Burst(schedule, n - 1, p);
      Extend(longer, XmitBegin(p));
      longer := Finish(longer + [XmitBegin(p)]);
      CopiesOneMore(n - 1, p);
    }
  }

  /** The two states differ at most in the words the reader has got. */
  predicate SameButGot(s: State, s': State) {
    s.reader.Reading? && s'.reader.Reading? && s' == s.(reader := s.reader.(got := s'.reader.got))
  }

  lemma LoadOne(schedule: seq<Action>)
    requires var s := Execute(Init(), schedule); s.reader.Reading? && |s.reader.got| < 8
    ensures var s, s' := Execute(Init(), schedule), Execute(Init(), schedule + [FetchWord]);
            SameButGot(s, s') && s'.reader.got == s.reader.got + [s.mem[|s.reader.got|]]
  {
    Extend(schedule, FetchWord);
  }

  /** The reader loads its remaining words while the writer stands still. */
  lemma {:induction false} LoadRest(schedule: seq<Action>) returns (longer: seq<Action>)
    requires var s := Execute(Init(), schedule); s.reader.Reading? && |s.reader.got| <= 8
    ensures var s, s' := Execute(Init(), schedule), Execute(Init(), longer);
            SameButGot(s, s') && s'.reader.got == s.reader.got + s.mem[|s.reader.got|..]
    decreases 8 - |Execute(Init(), schedule).reader.got|
  {
    longer := schedule;
    var s := Execute(Init(), schedule);
    var i := |s.reader.got|;
    if i < 8 {
      LoadOne(schedule);
      longer := LoadRest(schedule + [FetchWord]);
      assert s.mem[i..] == [s.mem[i]] + s.mem[i + 1..];
    }
  }

  lemma BeginRead(schedule: seq<Action>)
    requires var s := Execute(Init(), schedule); s.writer.Quiet? && !s.reader.Reading?
    ensures var s, s' := Execute(Init(), schedule), Execute(Init(), schedule + [FetchBegin]);
            s' == s.(reader := Reading(s.count % WORD, [], s.count)) && s.mem == Words(Totals(s.sent))
  {
    Invariant(schedule);
    Extend(schedule, FetchBegin);
    TwiceIsEven(|Execute(Init(), schedule).sent|);
  }

  lemma TwiceIsEven(k: nat)
    ensures (2 * k) % WORD % 2 == 0
  {
    var q := 2 * k / WORD;
    assert (2 * k) % WORD == 2 * (k - q * 0x8000_0000);
  }

  lemma EndRead(loaded: seq<Action>)
    requires var s := Execute(Init(), loaded);
             s.reader.Reading? && |s.reader.got| == 8 && s.reader.start == s.count % WORD
    ensures var s, s' := Execute(Init(), loaded), Execute(Init(), loaded + [FetchRetry]);
            s' == s.(reader := Returned(s.reader.got, s.reader.begun, s.count))
  {
    Extend(loaded, FetchRetry);
  }

  /** A read that nothing crosses returns, with the totals. */
  lemma ReadAlone(schedule: seq<Action>) returns (longer: seq<Action>)
    requires var s := Execute(Init(), schedule); s.writer.Quiet? && !s.reader.Reading?
    ensures var s, s' := Execute(Init(), schedule), Execute(Init(), longer);
            s' == s.(reader := Returned(Words(Totals(s.sent)), s.count, s.count))
  {
    BeginRead(schedule);
    var w := Execute(Init(), schedule).mem;
    longer := LoadRest(schedule + [FetchBegin]);
    assert [] + w[0..] == w;
    EndRead(longer);
    longer := longer + [FetchRetry];
  }

  lemma Send(schedule: seq<Action>, p: Packet) returns (longer: seq<Action>)
    requires Execute(Init(), schedule).writer.Quiet?
    ensures var s, s' := Execute(Init(), schedule), Execute(Init(), longer);
            s'.writer.Quiet? && s'.reader == s.reader && s'.sent == s.sent + [p]
  {
    Extend(schedule, XmitBegin(p));
    longer := Finish(schedule + [XmitBegin(p)]);
  }

  /**
   From every moment on at which nothing is under way, sending a packet and then reading, one
   after the other, returns the totals with that packet.
   */
  lemma SendThenRead(schedule: seq<Action>, p: Packet) returns (longer: seq<Action>)
    requires var s := Execute(Init(), schedule); s.writer.Quiet? && !s.reader.Reading?
    ensures var s, s' := Execute(Init(), schedule), Execute(Init(), longer);
            && s'.writer.Quiet? && s'.sent == s.sent + [p]
            && s'.reader.Returned? && s'.reader.begun == s'.reader.ended && |s'.reader.words| == 8
            && Value(s'.reader.words) == Totals(s.sent + [p])
  {
    longer := Send(schedule, p);
    ValueOfWords(Totals(Execute(Init(), longer).sent));
    longer := ReadAlone(longer);
  }

  lemma {:induction false} SumOfOnes(n: nat)
    ensures var ps := Copies(n, Packet(1, false, 0));
            SumLen(ps) == n && CountCopied(ps) == SumCopied(ps) == 0
  {
    if n > 0 {
      CopiesOneMore(n - 1, Packet(1, false, 0));
      SumOfOnes(n - 1);
    }
  }

  lemma TotalsOfOnes(n: nat)
    requires n < WORD
    ensures Totals(Copies(n, Packet(1, false, 0))) == Counters(n, n, 0, 0)
  {
    SumOfOnes(n);
  }

  /** A read that has begun and loaded tx_packets. */
  lemma HalfRead() returns (schedule: seq<Action>)
    ensures var s := Execute(Init(), schedule);
            s == Init().(reader := s.reader) && s.reader == Reading(0, [0, 0], 0)
  {
    Extend([], FetchBegin);
    assert [] + [FetchBegin] == [FetchBegin];
    LoadOne([FetchBegin]);
    LoadOne([FetchBegin] + [FetchWord]);
    schedule := [FetchBegin] + [FetchWord] + [FetchWord];
    assert Execute(Init(), schedule).reader.got == [0, 0];
  }

  /** tx_packets from before the burst and tx_bytes from after it are no totals at all. */
  lemma NoSuchTotals(ps: seq<Packet>, k: nat)
    requires |ps| == WORD / 2 && k <= |ps|
    ensures Totals(ps[..k]) != Counters(0, WORD / 2, 0, 0)
  {
    if k == 0 {
      assert ps[..k] == [];
    }
  }

  /** The read goes on after the burst and loads the other three counters. */
  lemma FinishRead(burst: seq<Action>, ps: seq<Packet>) returns (loaded: seq<Action>)
    requires |ps| == WORD / 2 && Totals(ps) == Counters(WORD / 2, WORD / 2, 0, 0)
    requires var s := Execute(Init(), burst);
             s.writer.Quiet? && s.sent == ps && s.reader == Reading(0, [0, 0], 0)
    ensures var s := Execute(Init(), loaded);
            && s.count == WORD && s.sent == ps
            && s.reader.Reading? && s.reader.start == 0 && s.reader.begun == 0
            && s.reader.got == [0, 0, WORD / 2, 0, 0, 0, 0, 0]
  {
    MemoryOfBurst(burst, ps);
    var w := Execute(Init(), burst).mem;
    loaded := LoadRest(burst);
    assert [0, 0] + w[2..] == [0, 0, WORD / 2, 0, 0, 0, 0, 0];
  }

  lemma MemoryOfBurst(burst: seq<Action>, ps: seq<Packet>)
    requires |ps| == WORD / 2 && Totals(ps) == Counters(WORD / 2, WORD / 2, 0, 0)
    requires var s := Execute(Init(), burst); s.writer.Quiet? && s.sent == ps
    ensures var s := Execute(Init(), burst);
            s.count == WORD && s.mem == [WORD / 2, 0, WORD / 2, 0, 0, 0, 0, 0]
  {
    Invariant(burst);
    WordsOfBurst(WORD / 2);
  }

  lemma WordsOfBurst(n: int)
    requires 0 <= n < WORD
    ensures Words(Counters(n, n, 0, 0)) == [n, 0, n, 0, 0, 0, 0, 0]
  {
  }

  /** The check passes: the counter has come round. */
  lemma PassCheck(loaded: seq<Action>, got: seq<int>)
    requires var s := Execute(Init(), loaded);
             s.count == WORD && s.reader == Reading(0, got, 0) && |got| == 8
    ensures var s := Execute(Init(), loaded + [FetchRetry]);
            s.reader == Returned(got, 0, WORD) && s.sent == Execute(Init(), loaded).sent
  {
    Extend(loaded, FetchRetry);
  }

  /** The snapshot is the state after some whole number of transmissions. */
  ghost predicate Atomic(s: State)
    requires s.reader.Returned?
  {
    |s.reader.words| == 8 && exists k :: 0 <= k <= |s.sent| && Value(s.reader.words) == Totals(s.sent[..k])
  }

  /** A schedule in which 2^31 transmissions cross a read that returns no state at all. */
  lemma WrapAroundMixes() returns (schedule: seq<Action>)
    ensures var s := Execute(Init(), schedule);
            s.reader.Returned? && s.reader.ended - s.reader.begun == WORD && !Atomic(s)
  {
    var burst, ps := LongBurst();
    var loaded := FinishRead(burst, ps);
    PassCheck(loaded, [0, 0, WORD / 2, 0, 0, 0, 0, 0]);
    schedule := loaded + [FetchRetry];
    Mixed(Execute(Init(), schedule));
  }

  lemma Mixed(s: State)
    requires s.reader.Returned? && s.reader.words == [0, 0, WORD / 2, 0, 0, 0, 0, 0] && |s.sent| == WORD / 2
    ensures !Atomic(s)
  {
    assert Value(s.reader.words) == Counters(0, WORD / 2, 0, 0);
    forall k | 0 <= k <= |s.sent| ensures Value(s.reader.words) != Totals(s.sent[..k]) {
      NoSuchTotals(s.sent, k);
    }
  }

  /** 2^31 transmissions of one byte each, in the middle of a read. */
  lemma LongBurst() returns (burst: seq<Action>, ps: seq<Packet>)
    ensures var s := Execute(Init(), burst);
            s.writer.Quiet? && s.sent == ps && s.reader == Reading(0, [0, 0], 0)
    ensures |ps| == WORD / 2 && Totals(ps) == Counters(WORD / 2, WORD / 2, 0, 0)
  {
    var half := HalfRead();
    burst := Burst(half, WORD / 2, Packet(1, false, 0));
    ps := Copies(WORD / 2, Packet(1, false, 0));
    TotalsOfOnes(WORD / 2);
    assert [] + ps == ps;
  }

  /** The snapshot of this run is atomic unless more than b increments crossed it. */
  ghost predicate AtomicUpTo(b: nat, schedule: seq<Action>) {
    var s := Execute(Init(), schedule);
    s.reader.Returned? && s.reader.ended - s.reader.begun <= b ==> Atomic(s)
  }

  /** Exactly the bounds below 2^32 increments, two for each transmission, are safe in every run. */
  lemma AtomicIffBelowWrapAround(b: nat)
    ensures (forall schedule :: AtomicUpTo(b, schedule)) <==> b < WORD
  {
    if b < WORD {
      forall schedule ensures AtomicUpTo(b, schedule) {
        var s := Execute(Init(), schedule);
        if s.reader.Returned? && s.reader.ended - s.reader.begun <= b { SnapshotIsAtomic(schedule); }
      }
    } else {
      var schedule := WrapAroundMixes();
      assert !AtomicUpTo(b, schedule);
    }
  }

  /** The counters in place; begin and end of the update section change nothing here. */
  class Priv {
    var txPackets: int
    var txBytes: int
    var rxPackets: int
    var rxBytes: int
    ghost var sent: seq<Packet>

    function View(): Counters
      reads this
    {
      Counters(txPackets, txBytes, rxPackets, rxBytes)
    }

    ghost predicate Valid()
      reads this
    {
      View() == Totals(sent)
    }

    constructor ()
      ensures Valid() && sent == []
    {
      txPackets, txBytes, rxPackets, rxBytes, sent := 0, 0, 0, 0, [];
    }

    /** `vnetloop_xmit`; skb_copy gives a packet of some length, or nothing. */
    method Xmit(len: nat, copied: bool, rxLen: nat)
      requires Valid()
      modifies this
      ensures Valid() && sent == old(sent) + [Packet(len, copied, rxLen)]
      ensures View() == Transmit(old(View()), Packet(len, copied, rxLen))
    {
      TransmitAdds(sent, Packet(len, copied, rxLen));
      if copied {
        txPackets := U64(txPackets + 1);
        txBytes := U64(txBytes + len);
        rxPackets := U64(rxPackets + 1);
        rxBytes := U64(rxBytes + rxLen);
      } else {
        txPackets := U64(txPackets + 1);
        txBytes := U64(txBytes + len);
      }
      sent := sent + [Packet(len, copied, rxLen)];
    }
  }
}
