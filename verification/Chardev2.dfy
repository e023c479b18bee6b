/**
 The message device of examples/chardev2.c and its client examples/other/userspace_ioctl.c:
 a buffer of 81 bytes set and read through ioctls that exclude each other by a
 compare-and-swap. Characters stand for bytes.
 */
module Chardev2 {
  import opened Common
  import opened CString
  import opened MessageRead

  const BUF_LEN: nat := 80

  /** The buffer always ends in the byte no write reaches. */
  predicate Message(msg: seq<char>) {
    |msg| == BUF_LEN + 1 && Terminated(msg)
  }

  // What the operations do.

  /** `device_write`: at most 80 bytes, and no terminator of its own. */
  function Write(msg: seq<char>, bytes: seq<char>): (r: seq<char>)
    requires Message(msg)
    ensures Message(r)
  {
    seq(|msg|, k requires 0 <= k < |msg| => if k < |bytes| && k < BUF_LEN then bytes[k] else msg[k])
  }

  /** User memory that can be scanned: a string, or at least 80 bytes. */
  predicate Scannable(user: seq<char>) {
    |user| >= BUF_LEN || NUL in user
  }

  /** What the scan takes as the length: the string with its terminator, within 80 bytes. */
  function ScanLength(user: seq<char>): (n: nat)
    requires Scannable(user)
    ensures n <= BUF_LEN && n <= |user|
  {
    if user[0] == NUL then 0
    else if NUL in user && NulAt(user) + 1 < BUF_LEN then NulAt(user) + 1
    else BUF_LEN
  }

  /** IOCTL_SET_MSG */
  function Set(msg: seq<char>, user: seq<char>): (r: seq<char>)
    requires Message(msg) && Scannable(user)
    ensures Message(r)
  {
    Write(msg, user[..ScanLength(user)])
  }

  /** IOCTL_GET_MSG: what it puts into the caller's buffer. */
  function Get(msg: seq<char>): string
    requires Message(msg)
  {
    TextFrom(msg, 0) + [NUL]
  }

  predicate Ascii(c: char) {
    c as int < 128
  }

  predicate AllAscii(s: string) {
    forall k :: 0 <= k < |s| ==> Ascii(s[k])
  }

  /** The value of a char, which is signed: bytes from 128 on are negative. */
  function SignedChar(c: char): int {
    if Ascii(c) then c as int else c as int % 256 - 256
  }

  /** The value that eight bits hold, in two's complement. */
  lemma SignedCharIs(c: char)
    ensures SignedChar(c) % 256 == c as int % 256
    ensures SignedChar(c) <= 127 && (c as int < 256 ==> SignedChar(c) >= -128)
  {
  }

  /** IOCTL_GET_NTH_BYTE */
  function NthByte(msg: seq<char>, n: nat): int
    requires n < |msg|
  {
    SignedChar(msg[n])
  }

  // What they mean.

  /** The text that reads return. */
  function TextOf(msg: seq<char>): string
    requires Message(msg)
  {
    TextFrom(msg, 0)
  }

  lemma TextIs(msg: seq<char>, n: nat)
    requires Message(msg) && n <= BUF_LEN && msg[n] == NUL
    requires forall j :: 0 <= j < n ==> msg[j] != NUL
    ensures TextOf(msg) == msg[..n]
  {
    TerminatedHasNul(msg, 0);
    assert msg[0..] == msg;
    NulAtIs(msg, n);
  }

  function First80(s: string): string {
    if |s| <= BUF_LEN then s else s[..BUF_LEN]
  }

  /** The string in user memory, if it ends, or else all that was there to scan. */
  function UserText(user: seq<char>): string {
    if NUL in user then Text(user) else user
  }

  /**
   The set/get round trip: after a non-empty string has been set, terminated or not, the
   device holds its first 80 bytes; setting the empty string changes nothing at all.
   */
  lemma SetThenGet(msg: seq<char>, user: seq<char>)
    requires Message(msg) && Scannable(user)
    ensures UserText(user) != "" ==> Get(Set(msg, user)) == First80(UserText(user)) + [NUL]
    ensures UserText(user) == "" ==> Set(msg, user) == msg
  {
    var n := |UserText(user)|;
    if n > 0 {
      TextIs(Set(msg, user), if n < BUF_LEN then n else BUF_LEN);
    }
  }

  /**
   A plain write of any bytes: up to a zero among the first 80 they are the new text; without
   one they bring no terminator, and whatever text stands behind them stays there.
   */
  lemma WriteLeavesTheTail(msg: seq<char>, bytes: seq<char>)
    requires Message(msg)
    ensures var b := First80(bytes);
            TextOf(Write(msg, bytes)) == if NUL in b then Text(b) else b + TextFrom(msg, |b|)
  {
    var b := First80(bytes);
    if NUL in b {
      TextIs(Write(msg, bytes), NulAt(b));
    } else {
      var tail := TextFrom(msg, |b|);
      assert forall k :: 0 <= k < |tail| ==> msg[|b| + k] == tail[k] && tail[k] != NUL;
      forall j | 0 <= j < |b| + |tail|
        ensures Write(msg, bytes)[j] == (b + tail)[j] != NUL
      {
        assert j >= |b| ==> msg[|b| + (j - |b|)] == tail[j - |b|];
      }
      TextIs(Write(msg, bytes), |b| + |tail|);
    }
  }

  /** No get writes more than 81 bytes into the caller's buffer of 100. */
  lemma GetFits(msg: seq<char>)
    requires Message(msg)
    ensures |Get(msg)| <= BUF_LEN + 1 < 100
  {
  }

  datatype Op = WriteOp(bytes: seq<char>) | SetOp(user: seq<char>)

  /** The buffer after any writes and sets, from the zeroed one the module starts with. */
  function After(ops: seq<Op>): (msg: seq<char>)
    requires forall i :: 0 <= i < |ops| && ops[i].SetOp? ==> Scannable(ops[i].user)
    ensures Message(msg)
    decreases |ops|
  {
    if ops == [] then seq(BUF_LEN + 1, _ => NUL) else
    var msg := After(ops[..|ops|-1]);
    match ops[|ops|-1]
    case WriteOp(bytes) => Write(msg, bytes)
    case SetOp(user) => Set(msg, user)
  }

  // The driver, on its buffer in place.

  datatype Request =
    | SetMsg(user: seq<char>)
    | GetMsg
    | GetNthByte(n: nat)
    | Other

  /** The return value, and what the caller's buffer receives; or a byte from outside the buffer. */
  datatype Reply = Busy | Reply(ret: int, filled: string) | OutOfBuffer

  function Effect(msg: seq<char>, rq: Request): seq<char>
    requires Message(msg) && (rq.SetMsg? ==> Scannable(rq.user))
  {
    if rq.SetMsg? then Set(msg, rq.user) else msg
  }

  function Answer(msg: seq<char>, rq: Request): Reply
    requires Message(msg)
  {
    match rq
    case GetMsg => Reply.Reply(0, Get(msg))
    case GetNthByte(n) => if n < |msg| then Reply.Reply(NthByte(msg, n), "") else Reply.OutOfBuffer
    case _ => Reply.Reply(0, "")
  }

  /** The reply is the byte, as the signed number of eight bits that is congruent to it. */
  predicate IsByte(reply: Reply, c: char) {
    && reply.Reply? && reply.ret % 256 == c as int % 256
    && reply.ret <= 127 && (c as int < 256 ==> -128 <= reply.ret)
  }

  class Device {
    const message: array<char>
    var alreadyOpen: bool

    ghost predicate Valid()
      reads this, message
    {
      Message(message[..])
    }

    constructor ()
      ensures Valid() && !alreadyOpen && message[..] == After([]) && fresh(message)
    {
      message := new char[81](_ => NUL);
      alreadyOpen := false;
    }

    /** `device_write` */
    method WriteBytes(buffer: seq<char>, length: nat) returns (i: nat)
      requires Valid() && length <= |buffer|
      modifies message
      ensures Valid() && message[..] == Write(old(message[..]), buffer[..length])
      ensures i == if length < BUF_LEN then length else BUF_LEN
    {
      ghost var before := message[..];
      i := 0;
      while i < length && i < 80
        invariant 0 <= i <= length && i <= BUF_LEN
        invariant forall k :: 0 <= k < message.Length ==> message[k] == if k < i then buffer[k] else before[k]
        decreases length - i
      {
        message[i] := buffer[i];
        i := i + 1;
      }
    }

    /** Lines 143 to 145: the first byte is fetched twice. */
    method Scan(user: seq<char>) returns (i: nat)
      requires Scannable(user)
      ensures i == ScanLength(user)
    {
      var ch := user[0];
      var tmp := 0;
      i := 0;
      while ch != NUL && i < 80
        invariant i == tmp <= 80 && (i > 0 ==> i <= |user| && ch == user[i-1])
        invariant if i == 0 then ch == user[0] else user[0] != NUL
        invariant forall j :: 0 <= j < i - 1 ==> user[j] != NUL
        decreases 80 - i
      {
        if i > 0 { assert forall j :: 0 <= j < i ==> user[j] != NUL; }
        if |user| < BUF_LEN { assert NUL in user && user[NulAt(user)] == NUL; }
        ch := user[tmp];
        i, tmp := i + 1, tmp + 1;
      }
      if i > 0 && ch == NUL {
        NulAtIs(user, i - 1);
      } else if NUL in user {
        assert user[NulAt(user)] == NUL;
      }
    }

    /**
     `device_ioctl`: a caller that finds another inside gets -EBUSY and changes nothing; and
     the call stays inside the buffer unless it asks for a byte past the last.
     */
    method Ioctl(rq: Request) returns (reply: Reply)
      requires Valid()
      requires rq.SetMsg? ==> Scannable(rq.user)
      modifies this`alreadyOpen, message
      ensures Valid() && alreadyOpen == old(alreadyOpen)
      ensures reply.OutOfBuffer? <==> !old(alreadyOpen) && rq.GetNthByte? && rq.n > BUF_LEN
      ensures if old(alreadyOpen) then reply == Busy && message[..] == old(message[..])
              else reply == Answer(old(message[..]), rq) && message[..] == Effect(old(message[..]), rq)
      ensures !old(alreadyOpen) && rq.GetNthByte? && rq.n <= BUF_LEN ==> IsByte(reply, old(message[rq.n]))
    {
      if rq.GetNthByte? && rq.n <= BUF_LEN { SignedCharIs(message[rq.n]); }
      if alreadyOpen { return Busy; }
      alreadyOpen := true;
      match rq {
        case SetMsg(user) =>
          var i := Scan(user);
          var _ := WriteBytes(user, i);
          reply := Reply.Reply(0, "");
        case GetMsg =>
          var r := DeviceRead(message, 99, 0);
          reply := Reply.Reply(0, r.data + [NUL]);
        case GetNthByte(n) =>
          reply := if n < message.Length then Reply.Reply(SignedChar(message[n]), "") else Reply.OutOfBuffer;
        case Other =>
          reply := Reply.Reply(0, "");
      }
      alreadyOpen := false;
    }

    /**
     `ioctl_get_nth_byte` of the client: it asks for byte after byte until the terminator,
     which it prints too, and gives up at the first byte that is not ASCII.
     */
    method GetByteByByte() returns (ret: int, printed: string, calls: nat)
      requires Valid() && !alreadyOpen
      modifies this`alreadyOpen, message
      ensures Valid() && message[..] == old(message[..]) && !alreadyOpen
      ensures calls <= BUF_LEN + 1
      ensures var text := TextOf(old(message[..]));
              if AllAscii(text)
              then ret == 0 && printed == text + [NUL] && calls == |text| + 1
              else && ret < 0 && calls == |printed| + 1 <= |text|
                   && printed == text[..|printed|] && AllAscii(printed) && !Ascii(text[|printed|])
    {
      ghost var msg := message[..];
      ghost var text := TextOf(msg);
      assert forall k :: 0 <= k < |text| ==> msg[k] == text[k];
      var i := 0;
      printed := "";
      calls := 0;
      while true
        invariant i == calls == |printed| <= |text| && printed == text[..i]
        invariant AllAscii(printed) && Valid() && !alreadyOpen && message[..] == msg
        decreases |text| - i
      {
        var reply := Ioctl(GetNthByte(i));
        var c := reply.ret;
        calls := calls + 1;
        assert c == SignedChar(msg[i]);
        if c < 0 {
          return c, printed, calls;
        }
        printed := printed + [c as char];
        i := i + 1;
        if c == 0 {
          return 0, printed, calls;
        }
      }
    }
  }

  // Concurrent ioctls, one byte at a time.

  type Pid = nat

  /** Where a caller of ioctl stands once it is past the compare-and-swap. */
  datatype Pc =
    | Idle
    | Setting(user: seq<char>, i: nat)  // i bytes of the message stored
    | Getting(got: string)              // bytes put into the caller's buffer
    | Fetching(n: nat)                  // about to read byte n
    | Leaving(rq: Request, reply: Reply)

  /** A completed ioctl. */
  datatype Done = Done(who: Pid, rq: Request, reply: Reply)

  datatype State = State(open: bool, msg: seq<char>, pc: seq<Pc>, log: seq<Done>)

  datatype Action = Call(p: Pid, rq: Request) | Run(p: Pid)

  predicate WellFormed(rq: Request) {
    rq.SetMsg? ==> Scannable(rq.user)
  }

  function Init(n: nat): State {
    State(false, seq(BUF_LEN + 1, _ => NUL), seq(n, _ => Idle), [])
  }

  function Begin(rq: Request): Pc {
    match rq
    case SetMsg(user) => Setting(user, 0)
    case GetMsg => Getting("")
    case GetNthByte(n) => Fetching(n)
    case Other => Leaving(Other, Reply.Reply(0, ""))
  }

  function RunStep(s: State, p: Pid): State
    requires p < |s.pc|
  {
    match s.pc[p]
    case Idle => s
    case Setting(user, i) =>
      if !Scannable(user) || |s.msg| != BUF_LEN + 1 then s
      else if i < ScanLength(user)
      then s.(msg := s.msg[i := user[i]], pc := s.pc[p := Setting(user, i + 1)])
      else s.(pc := s.pc[p := Leaving(SetMsg(user), Reply.Reply(0, ""))])
    case Getting(got) =>
      if |got| >= |s.msg| || |got| == 99 || s.msg[|got|] == NUL
      then s.(pc := s.pc[p := Leaving(GetMsg, Reply.Reply(0, got + [NUL]))])
      else s.(pc := s.pc[p := Getting(got + [s.msg[|got|]])])
    case Fetching(n) =>
      var reply := if n < |s.msg| then Reply.Reply(SignedChar(s.msg[n]), "") else Reply.OutOfBuffer;
      s.(pc := s.pc[p := Leaving(GetNthByte(n), reply)])
    case Leaving(rq, reply) =>
      s.(open := false, pc := s.pc[p := Idle], log := s.log + [Done(p, rq, reply)])
  }

  /** A call that finds the device busy returns -EBUSY: nothing happens. */
  function Step(s: State, a: Action): State {
    if a.p >= |s.pc| then s else
    match a
    case Call(p, rq) =>
      if s.pc[p].Idle? && !s.open && WellFormed(rq)
      then s.(open := true, pc := s.pc[p := Begin(rq)]) else s
    case Run(p) => RunStep(s, p)
  }

  function Execute(s: State, schedule: seq<Action>): State
    decreases |schedule|
  {
    if schedule == [] then s
    else Step(Execute(s, schedule[..|schedule|-1]), schedule[|schedule|-1])
  }

  /** The buffer after the completed ioctls, executed one after the other. */
  function Serial(log: seq<Done>): (msg: seq<char>)
    ensures Message(msg)
    decreases |log|
  {
    if log == [] then seq(BUF_LEN + 1, _ => NUL) else
    var d := log[|log|-1];
    if WellFormed(d.rq) then Effect(Serial(log[..|log|-1]), d.rq) else Serial(log[..|log|-1])
  }

  /** Every reply is the one the ioctl would have given in that serial order. */
  ghost predicate Serialised(log: seq<Done>) {
    forall k :: 0 <= k < |log| ==>
      WellFormed(log[k].rq) && log[k].reply == Answer(Serial(log[..k]), log[k].rq)
  }

  /** How far the caller inside has come, m being the buffer it found. */
  ghost predicate Underway(m: seq<char>, msg: seq<char>, pc: Pc)
    requires Message(m)
  {
    match pc
    case Idle => msg == m
    case Setting(user, i) => Scannable(user) && i <= ScanLength(user) && msg == Write(m, user[..i])
    case Getting(got) => msg == m && got <= TextOf(m)
    case Fetching(n) => msg == m
    case Leaving(rq, reply) => WellFormed(rq) && msg == Effect(m, rq) && reply == Answer(m, rq)
  }

  ghost predicate Inv(s: State) {
    && Serialised(s.log)
    && (!s.open ==> s.msg == Serial(s.log))
    && (forall p :: 0 <= p < |s.pc| && !s.pc[p].Idle? ==> s.open && Underway(Serial(s.log), s.msg, s.pc[p]))
    && (forall p, q :: 0 <= p < |s.pc| && 0 <= q < |s.pc| && !s.pc[p].Idle? && !s.pc[q].Idle? ==> p == q)
  }

  lemma SetByte(m: seq<char>, user: seq<char>, i: nat)
    requires Message(m) && Scannable(user) && i < ScanLength(user)
    ensures Write(m, user[..i])[i := user[i]] == Write(m, user[..i + 1])
  {
  }

  lemma NothingSet(m: seq<char>, user: seq<char>)
    requires Message(m)
    ensures Write(m, user[..0]) == m
  {
  }

  /** One step of the caller inside, other than its last. */
  lemma UnderwayStep(s: State, p: Pid)
    requires p < |s.pc| && !s.pc[p].Idle? && !s.pc[p].Leaving?
    requires Underway(Serial(s.log), s.msg, s.pc[p])
    ensures var s' := RunStep(s, p);
            && s'.log == s.log && s'.open == s.open && |s'.pc| == |s.pc|
            && !s'.pc[p].Idle? && s'.pc == s.pc[p := s'.pc[p]]
            && Underway(Serial(s.log), s'.msg, s'.pc[p])
  {
    var m := Serial(s.log);
    match s.pc[p]
    case Setting(user, i) => if i < ScanLength(user) { SetByte(m, user, i); }
    case Getting(got) =>
      var text := TextOf(m);
      assert |got| < |text| ==> m[|got|] == text[|got|];
      assert m[|text|] == NUL;
    case Fetching(n) =>
  }

  lemma SerialAppend(log: seq<Done>, d: Done)
    requires Serialised(log) && WellFormed(d.rq) && d.reply == Answer(Serial(log), d.rq)
    ensures Serialised(log + [d]) && Serial(log + [d]) == Effect(Serial(log), d.rq)
  {
    assert (log + [d])[..|log|] == log;
    forall k | 0 <= k < |log| ensures (log + [d])[..k] == log[..k] {}
  }

  /** The caller inside, and nobody else, moves on to t. */
  lemma InvKept(s: State, t: State, p: Pid)
    requires Inv(s) && p < |s.pc| == |t.pc| && t.pc == s.pc[p := t.pc[p]]
    requires forall q :: 0 <= q < |s.pc| && q != p ==> s.pc[q].Idle?
    requires t.log == s.log && (t.pc[p].Idle? ==> t.msg == Serial(t.log))
    requires !t.pc[p].Idle? ==> t.open && Underway(Serial(t.log), t.msg, t.pc[p])
    requires t.open == !t.pc[p].Idle?
    ensures Inv(t)
  {
  }

  lemma InvLeave(s: State, p: Pid)
    requires Inv(s) && p < |s.pc| && s.pc[p].Leaving?
    ensures Inv(RunStep(s, p))
  {
    var d := Done(p, s.pc[p].rq, s.pc[p].reply);
    SerialAppend(s.log, d);
  }

  lemma InvStep(s: State, a: Action)
    requires Inv(s)
    ensures Inv(Step(s, a))
  {
    if a.p < |s.pc| {
      match a
      case Call(p, rq) =>
        if s.pc[p].Idle? && !s.open && WellFormed(rq) {
          if rq.SetMsg? { NothingSet(Serial(s.log), rq.user); }
          InvKept(s, Step(s, a), p);
        }
      case Run(p) =>
        if s.pc[p].Leaving? {
          InvLeave(s, p);
        } else if !s.pc[p].Idle? {
          UnderwayStep(s, p);
          InvKept(s, RunStep(s, p), p);
        }
    }
  }

  lemma {:induction false} Invariant(n: nat, schedule: seq<Action>)
    ensures Inv(Execute(Init(n), schedule))
    decreases |schedule|
  {
    if schedule != [] {
      Invariant(n, schedule[..|schedule|-1]);
      InvStep(Execute(Init(n), schedule[..|schedule|-1]), schedule[|schedule|-1]);
    }
  }

  /**
   Concurrent ioctls are serialised: in every interleaving of their bytes, the k-th to
   complete has answered exactly as after the k before it, executed one after the other;
   whenever nobody is inside the buffer is what all of them leave; and at most one is inside.
   */
  lemma IoctlsAreSerialised(n: nat, schedule: seq<Action>)
    ensures var s := Execute(Init(n), schedule);
            && (forall k :: 0 <= k < |s.log| ==>
                  WellFormed(s.log[k].rq) && s.log[k].reply == Answer(Serial(s.log[..k]), s.log[k].rq))
            && (forall k :: 0 <= k < |s.log| ==>
                  (s.log[k].reply.OutOfBuffer? <==> s.log[k].rq.GetNthByte? && s.log[k].rq.n > BUF_LEN))
            && (forall k :: 0 <= k < |s.log| && s.log[k].rq.GetNthByte? && s.log[k].rq.n <= BUF_LEN ==>
                  IsByte(s.log[k].reply, Serial(s.log[..k])[s.log[k].rq.n]))
            && (!s.open ==> s.msg == Serial(s.log))
            && (forall p, q :: 0 <= p < |s.pc| && 0 <= q < |s.pc| && !s.pc[p].Idle? && !s.pc[q].Idle? ==> p == q)
  {
    Invariant(n, schedule);
    var s := Execute(Init(n), schedule);
    forall k | 0 <= k < |s.log|
      ensures s.log[k].reply.OutOfBuffer? <==> s.log[k].rq.GetNthByte? && s.log[k].rq.n > BUF_LEN
      ensures s.log[k].rq.GetNthByte? && s.log[k].rq.n <= BUF_LEN ==>
                IsByte(s.log[k].reply, Serial(s.log[..k])[s.log[k].rq.n])
    {
      AnswerIs(Serial(s.log[..k]), s.log[k].rq);
    }
  }

  lemma AnswerIs(msg: seq<char>, rq: Request)
    requires Message(msg)
    ensures Answer(msg, rq).OutOfBuffer? <==> rq.GetNthByte? && rq.n > BUF_LEN
    ensures rq.GetNthByte? && rq.n <= BUF_LEN ==> IsByte(Answer(msg, rq), msg[rq.n])
  {
    if rq.GetNthByte? && rq.n <= BUF_LEN { SignedCharIs(msg[rq.n]); }
  }

  /** The string set by the last completed set that was not of the empty string. */
  function LastSet(log: seq<Done>): string
    decreases |log|
  {
    if log == [] then "" else
    var d := log[|log|-1];
    if d.rq.SetMsg? && UserText(d.rq.user) != ""
    then First80(UserText(d.rq.user)) else LastSet(log[..|log|-1])
  }

  lemma {:induction false} SerialIsLastSet(log: seq<Done>)
    requires forall k :: 0 <= k < |log| ==> WellFormed(log[k].rq)
    ensures TextOf(Serial(log)) == LastSet(log)
    decreases |log|
  {
    if log == [] {
      TextIs(Serial(log), 0);
    } else {
      var before, d := log[..|log|-1], log[|log|-1];
      SerialIsLastSet(before);
      if d.rq.SetMsg? {
        SetThenGet(Serial(before), d.rq.user);
        var got := Get(Set(Serial(before), d.rq.user));
        assert got[..|got|-1] == TextOf(Set(Serial(before), d.rq.user));
      }
    }
  }

  /** A completed get returns the message of the last non-empty set completed before it. */
  lemma GetReturnsLastSet(n: nat, schedule: seq<Action>, k: nat)
    requires var log := Execute(Init(n), schedule).log;
             k < |log| && log[k].rq.GetMsg?
    ensures var log := Execute(Init(n), schedule).log;
            log[k].reply == Reply.Reply(0, LastSet(log[..k]) + [NUL])
  {
    IoctlsAreSerialised(n, schedule);
    SerialIsLastSet(Execute(Init(n), schedule).log[..k]);
  }

  // Every ioctl that is let in returns, and the next one is let in.

  lemma InsideKeepsOpen(s: State, a: Action)
    requires Inv(s) && (s.open ==> exists p :: 0 <= p < |s.pc| && !s.pc[p].Idle?)
    ensures var t := Step(s, a); t.open ==> exists p :: 0 <= p < |t.pc| && !t.pc[p].Idle?
  {
    var t := Step(s, a);
    if t.open {
      if s.open {
        var p :| 0 <= p < |s.pc| && !s.pc[p].Idle?;
        if a == Run(p) && !s.pc[p].Leaving? { UnderwayStep(s, p); }
        assert !t.pc[p].Idle?;
      } else {
        assert !t.pc[a.p].Idle?;
      }
    }
  }

  /** The device is taken exactly while somebody is inside, so that only then a caller gets -EBUSY. */
  lemma {:induction false} TakenWhileInside(n: nat, schedule: seq<Action>)
    ensures var s := Execute(Init(n), schedule); s.open <==> exists p :: 0 <= p < |s.pc| && !s.pc[p].Idle?
    decreases |schedule|
  {
    Invariant(n, schedule);
    if schedule != [] {
      var before := schedule[..|schedule|-1];
      TakenWhileInside(n, before);
      Invariant(n, before);
      InsideKeepsOpen(Execute(Init(n), before), schedule[|schedule|-1]);
    }
  }

  function RequestOf(pc: Pc): Request
    requires !pc.Idle?
  {
    match pc
    case Setting(user, _) => SetMsg(user)
    case Getting(_) => GetMsg
    case Fetching(n) => GetNthByte(n)
    case Leaving(rq, _) => rq
  }

  /** A bound on the steps a caller has left: at most 82. */
  function StepsLeft(pc: Pc): nat {
    match pc
    case Idle => 0
    case Setting(_, i) => if i <= BUF_LEN then BUF_LEN + 2 - i else 2
    case Getting(got) => if |got| <= BUF_LEN then BUF_LEN + 2 - |got| else 2
    case Fetching(_) => 2
    case Leaving(_, _) => 1
  }

  /** The caller inside moves with each of its steps, and nobody else does anything. */
  lemma CallerMoves(s: State, a: Action, p: Pid)
    requires Inv(s) && p < |s.pc| && !s.pc[p].Idle?
    ensures var t := Step(s, a);
            && |t.pc| == |s.pc|
            && (if a == Run(p) && s.pc[p].Leaving?
                then t.log == s.log + [Done(p, RequestOf(s.pc[p]), s.pc[p].reply)]
                else && t.log == s.log && !t.pc[p].Idle? && RequestOf(t.pc[p]) == RequestOf(s.pc[p])
                     && StepsLeft(t.pc[p]) + (if a == Run(p) then 1 else 0) <= StepsLeft(s.pc[p]))
  {
    assert Underway(Serial(s.log), s.msg, s.pc[p]);
    if a == Run(p) && s.pc[p].Getting? { assert |s.pc[p].got| <= |TextOf(s.msg)| <= BUF_LEN; }
  }

  function RunsOf(schedule: seq<Action>, p: Pid): nat
    decreases |schedule|
  {
    if schedule == [] then 0 else
    RunsOf(schedule[..|schedule|-1], p) + if schedule[|schedule|-1] == Run(p) then 1 else 0
  }

  /** The caller p is still inside with its request, or the first to have completed since the log was `log`. */
  ghost predicate OnItsWay(log: seq<Done>, t: State, p: Pid, rq: Request, runs: nat) {
    || (t.log == log && p < |t.pc| && !t.pc[p].Idle? && RequestOf(t.pc[p]) == rq
        && StepsLeft(t.pc[p]) + runs <= BUF_LEN + 2)
    || (|t.log| > |log| && t.log[|log|].who == p && t.log[|log|].rq == rq)
  }

  lemma ExecuteOne(s: State, before: seq<Action>, a: Action)
    ensures Execute(s, before + [a]) == Step(Execute(s, before), a)
  {
    assert (before + [a])[..|before|] == before;
  }

  lemma OneMore(n: nat, schedule: seq<Action>, more: seq<Action>)
    requires more != []
    ensures Execute(Init(n), schedule + more)
         == Step(Execute(Init(n), schedule + more[..|more|-1]), more[|more|-1])
  {
    Regrouped(schedule, more);
    ExecuteOne(Init(n), schedule + more[..|more|-1], more[|more|-1]);
  }

  lemma LogStays(s: State, a: Action, k: nat)
    requires k < |s.log|
    ensures |Step(s, a).log| >= |s.log| && Step(s, a).log[k] == s.log[k]
  {
  }

  lemma {:induction false} StaysOnItsWay(n: nat, schedule: seq<Action>, more: seq<Action>, p: Pid, rq: Request)
    requires var s := Execute(Init(n), schedule);
             p < |s.pc| && !s.pc[p].Idle? && RequestOf(s.pc[p]) == rq && StepsLeft(s.pc[p]) <= BUF_LEN + 2
    ensures OnItsWay(Execute(Init(n), schedule).log, Execute(Init(n), schedule + more), p, rq, RunsOf(more, p))
    decreases |more|
  {
    if more == [] {
      assert schedule + more == schedule;
    } else {
      var before, a := more[..|more|-1], more[|more|-1];
      StaysOnItsWay(n, schedule, before, p, rq);
      OneMore(n, schedule, more);
      Invariant(n, schedule + before);
      var log, t := Execute(Init(n), schedule).log, Execute(Init(n), schedule + before);
      if |t.log| > |log| { LogStays(t, a, |log|); } else { CallerMoves(t, a, p); }
    }
  }

  lemma IsLetIn(s: State, p: Pid, rq: Request)
    requires p < |s.pc| && s.pc[p].Idle? && !s.open && WellFormed(rq)
    ensures var t := Step(s, Call(p, rq));
            t.log == s.log && |t.pc| == |s.pc| && !t.pc[p].Idle? && RequestOf(t.pc[p]) == rq
            && StepsLeft(t.pc[p]) <= BUF_LEN + 2
  {
  }

  /**
   A call that finds nobody inside is let in; it is then the next to complete, after at most
   82 steps of its own, whatever the others try in between.
   */
  lemma IoctlReturns(n: nat, schedule: seq<Action>, p: Pid, rq: Request, more: seq<Action>)
    requires var s := Execute(Init(n), schedule);
             p < |s.pc| && WellFormed(rq) && forall q :: 0 <= q < |s.pc| ==> s.pc[q].Idle?
    requires RunsOf(more, p) >= 82
    ensures var s, t := Execute(Init(n), schedule), Execute(Init(n), schedule + [Call(p, rq)] + more);
            |t.log| > |s.log| && t.log[|s.log|].who == p && t.log[|s.log|].rq == rq
  {
    TakenWhileInside(n, schedule);
    ExecuteOne(Init(n), schedule, Call(p, rq));
    IsLetIn(Execute(Init(n), schedule), p, rq);
    StaysOnItsWay(n, schedule + [Call(p, rq)], more, p, rq);
  }
}
