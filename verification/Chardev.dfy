/**
 The exclusive, read-only device of examples/chardev.c. The driver's functions are methods
 on its static variables; their interleavings, in which open itself is not atomic, are a
 step system.
 */
module Chardev {
  import opened Common
  import opened CString
  import opened Decimal
  import opened MessageRead

  const LENGTH: nat := 81  // BUF_LEN + 1

  /** The value of an int that has been incremented n times from 0. */
  function Int32(n: nat): int {
    var m := n % 0x1_0000_0000;
    if m < 0x8000_0000 then m else m - 0x1_0000_0000
  }

  /** `%d` */
  function Signed(n: int): string {
    if n < 0 then "-" + Digits(-n) else Digits(n)
  }

  function Sentence(number: string): string {
    "I already told you " + number + " times Hello world!\n"
  }

  /** The text of the k-th successful open, counting from 0. */
  function Greeting(k: nat): string {
    Sentence(Signed(Int32(k)))
  }

  lemma SignedFits(n: int)
    requires -0x8000_0000 <= n < 0x8000_0000
    ensures |Signed(n)| <= 11 && IsText(Signed(n))
  {
    var m := if n < 0 then -n else n;
    PowersOfTen();
    DigitsLength(m, 10);
    DigitsAreText(m);
  }

  lemma SentenceFits(number: string)
    requires |number| <= 11 && IsText(number)
    ensures |Sentence(number)| < LENGTH && IsText(Sentence(number))
  {
    assert IsText("I already told you ");
    assert IsText(" times Hello world!\n");
  }

  /** It fits the buffer with its terminator, and is a string. */
  lemma GreetingFits(k: nat)
    ensures |Greeting(k)| < LENGTH && IsText(Greeting(k))
  {
    SignedFits(Int32(k));
    SentenceFits(Signed(Int32(k)));
  }

  /** Without leading zeros, and with a minus for the negative ones. */
  predicate Tells(d: string, n: int) {
    if n >= 0 then AllDigits(d) && d != "" && Number(d) == n && (d[0] == '0' <==> n == 0)
    else |d| > 1 && d[0] == '-' && d[1] != '0' && AllDigits(d[1..]) && Number(d[1..]) == -n
  }

  lemma SignedTells(n: int)
    ensures Tells(Signed(n), n)
  {
    var m := if n < 0 then -n else n;
    NumberOfDigits(m);
    FirstDigit(m);
    assert n < 0 ==> Signed(n)[1..] == Digits(m);
  }

  /**
   Between its words stands the number of opens before, read back: exactly, as long as it is
   below 2^31, and less 2^32 for the next 2^31 opens.
   */
  lemma GreetingTells(k: nat)
    ensures var t, n := Greeting(k), k % 0x1_0000_0000;
            && |t| > 39 && t[..19] == "I already told you " && t[|t|-20..] == " times Hello world!\n"
            && Tells(t[19..|t|-20], if n < 0x8000_0000 then n else n - 0x1_0000_0000)
  {
    SignedTells(Int32(k));
    WordsAround(Signed(Int32(k)));
  }

  lemma WordsAround(number: string)
    ensures var t := Sentence(number);
            && |t| == 39 + |number| && t[19..|t|-20] == number
            && t[..19] == "I already told you " && t[|t|-20..] == " times Hello world!\n"
  {
  }

  lemma DigitsAreText(n: nat)
    ensures IsText(Digits(n))
  {
    assert forall i :: 0 <= i < |Digits(n)| ==> IsDigit(Digits(n)[i]);
  }

  predicate Holds(msg: seq<char>, text: string) {
    |msg| == LENGTH && Terminated(msg) && TextFrom(msg, 0) == text
  }

  /** A buffer that begins with a text and a terminator holds that text. */
  lemma PrefixHeld(msg: seq<char>, text: string)
    requires |msg| == LENGTH && Terminated(msg) && IsText(text) && |text| < LENGTH
    requires msg[..|text|] == text && msg[|text|] == NUL
    ensures Holds(msg, text)
  {
    TerminatedHasNul(msg, 0);
    assert msg[0..] == msg;
    forall j | 0 <= j < |text| ensures msg[j] != NUL { assert msg[j] == text[j]; }
    NulAtIs(msg, |text|);
  }

  class Device {
    var alreadyOpen: bool
    var counter: nat       // successful opens so far
    const msg: array<char>

    ghost predicate Valid()
      reads this, msg
    {
      && msg.Length == LENGTH && Terminated(msg[..])
      && (alreadyOpen ==> counter > 0 && Holds(msg[..], Greeting(counter - 1)))
    }

    constructor ()
      ensures Valid() && !alreadyOpen && counter == 0 && fresh(msg)
    {
      alreadyOpen, counter := false, 0;
      msg := new char[81](_ => NUL);
    }

    method Sprintf(text: string)
      requires msg.Length == LENGTH && Terminated(msg[..]) && IsText(text) && |text| < LENGTH
      modifies msg
      ensures Holds(msg[..], text)
    {
      var i := 0;
      while i < |text|
        invariant 0 <= i <= |text| && msg[..i] == text[..i] && Terminated(msg[..])
      {
        msg[i] := text[i];
        i := i + 1;
      }
      msg[i] := NUL;
      PrefixHeld(msg[..], text);
    }

    /** `device_open`: the first to come gets the device and its own greeting. */
    method Open() returns (ok: bool)
      requires Valid()
      modifies this, msg
      ensures Valid() && alreadyOpen && ok == !old(alreadyOpen)
      ensures if ok then counter == old(counter) + 1 && Holds(msg[..], Greeting(old(counter)))
              else counter == old(counter) && msg[..] == old(msg[..])
    {
      if alreadyOpen { return false; }
      ghost var k := counter;
      var text := Greeting(counter);
      GreetingFits(k);
      Sprintf(text);
      alreadyOpen, counter := true, counter + 1;
      assert counter - 1 == k;
      ok := true;
    }

    method Release()
      requires Valid()
      modifies this`alreadyOpen
      ensures Valid() && !alreadyOpen
    {
      alreadyOpen := false;
    }
  }

  // Interleaved opens.

  type Pid = nat

  datatype Pc =
    | Idle
    | Printing(k: nat, i: nat)  // past line 100, i characters of the text stored
    | Holding(k: nat)           // open returned 0; k opens had succeeded before

  datatype State = State(used: bool, counter: nat, msg: seq<char>, pc: seq<Pc>)

  datatype Action = OpenCall(p: Pid) | Store(p: Pid) | Close(p: Pid)

  function Init(n: nat): State {
    State(false, 0, seq(LENGTH, _ => NUL), seq(n, _ => Idle))
  }

  function Step(s: State, a: Action): State {
    if a.p >= |s.pc| then s else
    match (a, s.pc[a.p])
    case (OpenCall(p), Idle) =>
      if s.used then s  // -EBUSY
      else s.(used := true, counter := s.counter + 1, pc := s.pc[p := Printing(s.counter, 0)])
    case (Store(p), Printing(k, i)) =>
      var text := Greeting(k);
      if i >= |s.msg| then s
      else if i < |text| then s.(msg := s.msg[i := text[i]], pc := s.pc[p := Printing(k, i + 1)])
      else s.(msg := s.msg[i := NUL], pc := s.pc[p := Holding(k)])
    case (Close(p), Holding(_)) => s.(used := false, pc := s.pc[p := Idle])
    case _ => s
  }

  function Execute(s: State, schedule: seq<Action>): State
    decreases |schedule|
  {
    if schedule == [] then s
    else Step(Execute(s, schedule[..|schedule|-1]), schedule[|schedule|-1])
  }

  ghost predicate PcOk(s: State, p: Pid)
    requires p < |s.pc| && |s.msg| == LENGTH
  {
    match s.pc[p]
    case Idle => true
    case Printing(k, i) =>
      && s.used && k + 1 == s.counter && i <= |Greeting(k)|
      && i < LENGTH && s.msg[..i] == Greeting(k)[..i]
    case Holding(k) => s.used && k + 1 == s.counter && Holds(s.msg, Greeting(k))
  }

  ghost predicate Inv(s: State) {
    && |s.msg| == LENGTH && Terminated(s.msg)
    && (forall p :: 0 <= p < |s.pc| ==> PcOk(s, p))
    && (forall p, q :: 0 <= p < |s.pc| && 0 <= q < |s.pc| && !s.pc[p].Idle? && !s.pc[q].Idle? ==> p == q)
    && (s.used ==> exists p :: 0 <= p < |s.pc| && !s.pc[p].Idle?)
  }

  /** One character more of a text, or its terminator. */
  lemma StoreText(msg: seq<char>, text: string, i: nat)
    requires |msg| == LENGTH && Terminated(msg) && IsText(text) && i <= |text| < LENGTH
    requires msg[..i] == text[..i]
    ensures i < |text| ==> Terminated(msg[i := text[i]]) && msg[i := text[i]][..i + 1] == text[..i + 1]
    ensures i == |text| ==> Holds(msg[i := NUL], text)
  {
    if i == |text| { PrefixHeld(msg[i := NUL], text); }
  }

  lemma StoreOk(s: State, p: Pid)
    requires Inv(s) && p < |s.pc| && s.pc[p].Printing?
    ensures |Step(s, Store(p)).msg| == LENGTH && Terminated(Step(s, Store(p)).msg)
    ensures PcOk(Step(s, Store(p)), p)
  {
    assert PcOk(s, p);
    GreetingFits(s.pc[p].k);
    StoreText(s.msg, Greeting(s.pc[p].k), s.pc[p].i);
  }

  lemma InvStep(s: State, a: Action)
    requires Inv(s)
    ensures Inv(Step(s, a))
  {
    var s' := Step(s, a);
    if a.p < |s.pc| {
      if a.Store? && s.pc[a.p].Printing? {
        StoreOk(s, a.p);
      }
      forall q | 0 <= q < |s'.pc| ensures PcOk(s', q) {
        assert PcOk(s, q) && PcOk(s, a.p);
      }
      if s'.used {
        if s.used {
          var q :| 0 <= q < |s.pc| && !s.pc[q].Idle?;
          assert !s'.pc[q].Idle?;
        } else {
          assert !s'.pc[a.p].Idle?;
          forall q | 0 <= q < |s.pc| ensures s.pc[q].Idle? { assert PcOk(s, q); }
        }
      }
    }
  }

  lemma {:induction false} Invariant(n: nat, schedule: seq<Action>)
    ensures Inv(Execute(Init(n), schedule))
    decreases |schedule|
  {
    if schedule != [] {
      Invariant(n, schedule[..|schedule|-1]);
      InvStep(Execute(Init(n), schedule[..|schedule|-1]), schedule[|schedule|-1]);
    }
  }

  /**
   In every interleaving of opens and closes at most one process holds the device, and the
   text it reads carries the number of successful opens before its own.
   */
  lemma HolderReadsItsGreeting(n: nat, schedule: seq<Action>, p: Pid, q: Pid)
    requires var s := Execute(Init(n), schedule);
             p < |s.pc| && q < |s.pc| && s.pc[p].Holding? && !s.pc[q].Idle?
    ensures var s := Execute(Init(n), schedule);
            && p == q && s.used && s.pc[p].k == s.counter - 1
            && Holds(s.msg, Greeting(s.pc[p].k))
  {
    Invariant(n, schedule);
    assert PcOk(Execute(Init(n), schedule), p);
  }

  /** Until the holder closes, whatever anybody does, the buffer does not change. */
  lemma {:induction false} TextIsStable(n: nat, schedule: seq<Action>, more: seq<Action>, p: Pid)
    requires var s := Execute(Init(n), schedule); p < |s.pc| && s.pc[p].Holding?
    requires Close(p) !in more
    ensures var s, s' := Execute(Init(n), schedule), Execute(Init(n), schedule + more);
            |s'.pc| == |s.pc| && s'.pc[p] == s.pc[p] && s'.msg == s.msg
    decreases |more|
  {
    if more == [] {
      assert schedule + more == schedule;
    } else {
      var before := more[..|more|-1];
      TextIsStable(n, schedule, before, p);
      OneMore(n, schedule, more);
      Invariant(n, schedule + before);
      var s := Execute(Init(n), schedule + before);
      var a := more[|more|-1];
      assert PcOk(s, p);
      assert a.p < |s.pc| && !s.pc[a.p].Idle? ==> a.p == p;
    }
  }

  /** An open gets the device exactly when nobody has it or is getting it; otherwise it does nothing. */
  lemma OpenTakesTheFreeDevice(n: nat, schedule: seq<Action>, p: Pid)
    requires var s := Execute(Init(n), schedule); p < |s.pc| && s.pc[p].Idle?
    ensures var s := Execute(Init(n), schedule);
            var t := Step(s, OpenCall(p));
            if forall q :: 0 <= q < |s.pc| ==> s.pc[q].Idle?
            then |t.pc| == |s.pc| && t.pc[p] == Printing(s.counter, 0) && t.counter == s.counter + 1
            else t == s
  {
    Invariant(n, schedule);
    var s := Execute(Init(n), schedule);
    forall q | 0 <= q < |s.pc| && !s.pc[q].Idle? ensures s.used { assert PcOk(s, q); }
  }

  /** And the holder's close leaves it free for the next. */
  lemma CloseFrees(n: nat, schedule: seq<Action>, p: Pid)
    requires var s := Execute(Init(n), schedule); p < |s.pc| && s.pc[p].Holding?
    ensures var t := Step(Execute(Init(n), schedule), Close(p));
            !t.used && forall q :: 0 <= q < |t.pc| ==> t.pc[q].Idle?
  {
    Invariant(n, schedule);
  }

  /** How many steps a schedule gives an opener. */
  function StoresOf(schedule: seq<Action>, p: Pid): nat
    decreases |schedule|
  {
    if schedule == [] then 0 else
    StoresOf(schedule[..|schedule|-1], p) + if schedule[|schedule|-1] == Store(p) then 1 else 0
  }

  lemma OpenerMoves(s: State, a: Action, p: Pid)
    requires Inv(s) && p < |s.pc| && !s.pc[p].Idle? && a != Close(p)
    ensures var t := Step(s, a);
            && |t.pc| == |s.pc|
            && t.pc[p] == if a != Store(p) || s.pc[p].Holding? then s.pc[p]
                          else if s.pc[p].i < |Greeting(s.pc[p].k)| then Printing(s.pc[p].k, s.pc[p].i + 1)
                          else Holding(s.pc[p].k)
  {
    assert PcOk(s, p);
  }

  /**
   An open that has got the device returns after storing its text, one character a step, and
   the terminator: whatever the other processes do in between.
   */
  lemma {:induction false} OpenReturns(n: nat, schedule: seq<Action>, more: seq<Action>, p: Pid)
    requires var s := Execute(Init(n), schedule); p < |s.pc| && s.pc[p].Printing?
    requires Close(p) !in more
    ensures var s, t := Execute(Init(n), schedule), Execute(Init(n), schedule + more);
            var k, i := s.pc[p].k, s.pc[p].i + StoresOf(more, p);
            |t.pc| == |s.pc| && t.pc[p] == if i <= |Greeting(k)| then Printing(k, i) else Holding(k)
    decreases |more|
  {
    if more == [] {
      Invariant(n, schedule);
      assert schedule + more == schedule;
      assert PcOk(Execute(Init(n), schedule), p);
    } else {
      var before := more[..|more|-1];
      OpenReturns(n, schedule, before, p);
      OneMore(n, schedule, more);
      Invariant(n, schedule + before);
      OpenerMoves(Execute(Init(n), schedule + before), more[|more|-1], p);
    }
  }

  lemma ExecuteOne(s: State, before: seq<Action>, a: Action)
    ensures Execute(s, before + [a]) == Step(Execute(s, before), a)
  {
    assert (before + [a])[..|before|] == before;
  }

  lemma OneMore(n: nat, schedule: seq<Action>, more: seq<Action>)
    requires more != []
    ensures Execute(Init(n), schedule + more)
         == Step(Execute(Init(n), schedule + more[..|more|-1]), more[|more|-1])
  {
    Regrouped(schedule, more);
    ExecuteOne(Init(n), schedule + more[..|more|-1], more[|more|-1]);
  }
}
