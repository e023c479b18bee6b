/**
 The exclusive open of examples/sleep.c as an interleaved protocol: any number of
 processes run `module_open` and `module_close`, one shared-memory access per step,
 while signals arrive at any moment.

 `wait_event_interruptible` is unfolded into its own steps (condition, enqueue,
 condition again, sleep, dequeue), because the absence of lost wake-ups depends on
 their order.
 */
module Sleep {
  import opened Common

  type Pid = nat

  datatype Errno = EAGAIN | EINTR

  /** Where a process stands in `module_open` or `module_close`. */
  datatype Pc =
    | Idle                           // neither opening, nor holding, nor closing
    | TryFirst(nonblock: bool)       // line 96: the first compare-and-swap
    | CheckFlags(nonblock: bool)     // line 105: O_NONBLOCK?
    | Loop                           // line 108: the compare-and-swap of the loop
    | PreCheck                       // line 118: the condition, before queueing
    | Prepare                        // queue up, or notice a pending signal
    | Check(interrupted: bool)       // the condition again, now that we are queued
    | Schedule                       // about to give up the processor
    | Asleep
    | Finish                         // leave the queue
    | ScanSignals                    // line 124
    | Holding                        // open returned 0, not yet closed
    | Clear                          // line 144
    | Wake                           // line 149

  /** What the outside world sees: the order of the openings, closings and refusals. */
  datatype Event =
    | Acquired(who: Pid)
    | Released(who: Pid)
    | Refused(who: Pid, err: Errno)

  /**
   `flag` is `already_open`, `queue` is `waitq`. A process is in `pending` when any
   signal would interrupt its sleep, and in `seen` when the scan of line 125 finds one.
   */
  datatype State = State(flag: int, queue: set<Pid>, pc: seq<Pc>,
                         pending: set<Pid>, seen: set<Pid>, log: seq<Event>)

  datatype Action =
    | Open(p: Pid, nonblock: bool)   // the process calls open
    | Run(p: Pid)                    // it executes its next step
    | Close(p: Pid)                  // the holder calls close
    | Signal(p: Pid, visible: bool)  // a signal arrives; `visible` to line 125 or not
    | Deliver(p: Pid)                // its signals are delivered in user space

  function Init(n: nat): State {
    State(0, {}, seq(n, _ => Idle), {}, {}, [])
  }

  function Goto(s: State, p: Pid, pc: Pc): State
    requires p < |s.pc|
  {
    s.(pc := s.pc[p := pc])
  }

  /** `atomic_cmpxchg(&already_open, 0, 1)`, going to `otherwise` when it fails. */
  function CompareAndSwap(s: State, p: Pid, otherwise: Pc): State
    requires p < |s.pc|
  {
    if s.flag == 0
    then Goto(s, p, Holding).(flag := 1, log := s.log + [Acquired(p)])
    else Goto(s, p, otherwise)
  }

  function Refuse(s: State, p: Pid, e: Errno): State
    requires p < |s.pc|
  {
    Goto(s, p, Idle).(log := s.log + [Refused(p, e)])
  }

  /** `wake_up(&waitq)`: every queued process leaves the queue and becomes runnable. */
  function WakeAll(s: State): State {
    s.(queue := {},
       pc := seq(|s.pc|, i requires 0 <= i < |s.pc| =>
               if i in s.queue && s.pc[i].Asleep? then Prepare else s.pc[i]))
  }

  /** One step of process `p`; a process that cannot run leaves the state alone. */
  function RunStep(s: State, p: Pid): State
    requires p < |s.pc|
  {
    match s.pc[p]
    case Idle | Holding | Asleep => s
    case TryFirst(nb) => CompareAndSwap(s, p, CheckFlags(nb))
    case CheckFlags(nb) => if nb then Refuse(s, p, EAGAIN) else Goto(s, p, Loop)
    case Loop => CompareAndSwap(s, p, PreCheck)
    case PreCheck => Goto(s, p, if s.flag == 0 then ScanSignals else Prepare)
    case Prepare =>
      if p in s.pending
      then Goto(s, p, Check(true)).(queue := s.queue - {p})
      else Goto(s, p, Check(false)).(queue := s.queue + {p})
    case Check(interrupted) =>
      Goto(s, p, if s.flag == 0 then Finish
                 else if interrupted then ScanSignals
                 else Schedule)
    case Schedule =>
      Goto(s, p, if p in s.queue && p !in s.pending then Asleep else Prepare)
    case Finish => Goto(s, p, ScanSignals).(queue := s.queue - {p})
    case ScanSignals => if p in s.seen then Refuse(s, p, EINTR) else Goto(s, p, Loop)
    case Clear => Goto(s, p, Wake).(flag := 0, log := s.log + [Released(p)])
    case Wake => Goto(WakeAll(s), p, Idle)
  }

  function Step(s: State, a: Action): State {
    if a.p >= |s.pc| then s else
    match a
    case Open(p, nb) => if s.pc[p].Idle? then Goto(s, p, TryFirst(nb)) else s
    case Run(p) => RunStep(s, p)
    case Close(p) => if s.pc[p].Holding? then Goto(s, p, Clear) else s
    case Signal(p, visible) =>
      var s' := s.(pending := s.pending + {p}, seen := if visible then s.seen + {p} else s.seen);
      if s.pc[p].Asleep? then Goto(s', p, Prepare) else s'
    case Deliver(p) =>
      if s.pc[p].Idle? || s.pc[p].Holding?
      then s.(pending := s.pending - {p}, seen := s.seen - {p}) else s
  }

  function Execute(s: State, schedule: seq<Action>): State
    decreases |schedule|
  {
    if schedule == [] then s
    else Step(Execute(s, schedule[..|schedule|-1]), schedule[|schedule|-1])
  }

  // The specification: a log is legal when openings and closings alternate, each
  // closing is by the current holder, and a refused process is never the holder.

  /** The holder after a log, or None when the log breaks the rules. */
  function Replay(log: seq<Event>): Option<Option<Pid>>
    decreases |log|
  {
    if log == [] then Some(None) else
    var before := Replay(log[..|log|-1]);
    if before.None? then None else
    match log[|log|-1]
    case Acquired(p) => if before.value.None? then Some(Some(p)) else None
    case Released(p) => if before.value == Some(p) then Some(None) else None
    case Refused(p, _) => if before.value == Some(p) then None else before
  }

  /** Between the successful compare-and-swap and the clearing store of close. */
  predicate Owns(pc: Pc) {
    pc.Holding? || pc.Clear?
  }

  ghost predicate Exclusive(s: State) {
    && Replay(s.log).Some?
    && var holder := Replay(s.log).value;
    && s.flag == (if holder.None? then 0 else 1)
    && (forall p :: 0 <= p < |s.pc| ==> (Owns(s.pc[p]) <==> holder == Some(p)))
    && (holder.Some? ==> holder.value < |s.pc|)
  }

  /** Some process has cleared the flag and not yet woken the queue. */
  ghost predicate CloseInFlight(s: State) {
    exists q :: 0 <= q < |s.pc| && s.pc[q].Wake?
  }

  /** Process `p` sleeps, or is queued and about to sleep, and nobody has woken it. */
  predicate Committed(s: State, p: Pid)
    requires p < |s.pc|
  {
    s.pc[p].Asleep? || (s.pc[p].Schedule? && p in s.queue)
  }

  ghost predicate NoLostWakeup(s: State) {
    && (forall p :: 0 <= p < |s.pc| && s.pc[p].Asleep? ==> p in s.queue)
    && (forall p :: 0 <= p < |s.pc| && Committed(s, p) ==> s.flag == 1 || CloseInFlight(s))
  }

  /** Appending a legal event leads from the holder before it to the holder after it. */
  lemma ReplayAppend(log: seq<Event>, e: Event)
    requires Replay(log).Some?
    ensures Replay(log + [e]) ==
            match e
            case Acquired(p) => if Replay(log).value.None? then Some(Some(p)) else None
            case Released(p) => if Replay(log).value == Some(p) then Some(None) else None
            case Refused(p, _) => if Replay(log).value == Some(p) then None else Replay(log)
  {
    assert (log + [e])[..|log|] == log;
  }

  /** Process `p` moves on, and ownership changes only as the log and the flag say. */
  lemma ExclusiveMove(s: State, p: Pid, s': State, holder': Option<Pid>)
    requires p < |s.pc| && Exclusive(s) && |s'.pc| == |s.pc|
    requires forall q :: 0 <= q < |s.pc| && q != p ==> (Owns(s'.pc[q]) <==> Owns(s.pc[q]))
    requires Replay(s'.log) == Some(holder')
    requires s'.flag == (if holder'.None? then 0 else 1)
    requires holder' == (if Owns(s'.pc[p]) then Some(p)
                         else if Owns(s.pc[p]) then None else Replay(s.log).value)
    requires Owns(s'.pc[p]) && !Owns(s.pc[p]) ==> s.flag == 0
    ensures Exclusive(s')
  {
  }

  /** The four steps that write the log. */
  lemma ExclusiveLogged(s: State, p: Pid, e: Event)
    requires p < |s.pc| && Exclusive(s) && e.who == p
    requires |RunStep(s, p).log| > |s.log| && RunStep(s, p).log == s.log + [e]
    ensures Exclusive(RunStep(s, p))
  {
    ReplayAppend(s.log, e);
    ExclusiveMove(s, p, RunStep(s, p), Replay(RunStep(s, p).log).value);
  }

  lemma ExclusiveRunStep(s: State, p: Pid)
    requires p < |s.pc| && Exclusive(s)
    ensures Exclusive(RunStep(s, p))
  {
    var s' := RunStep(s, p);
    if |s'.log| > |s.log| {
      ExclusiveLogged(s, p, s'.log[|s.log|]);
    } else {
      ExclusiveMove(s, p, s', Replay(s.log).value);
    }
  }

  /** A wake-up in flight stays in flight until its own process delivers it. */
  lemma CloseStaysInFlight(s: State, a: Action)
    requires CloseInFlight(s)
    requires !(a.Run? && a.p < |s.pc| && s.pc[a.p].Wake?)
    ensures CloseInFlight(Step(s, a))
  {
    var q :| 0 <= q < |s.pc| && s.pc[q].Wake?;
    assert Step(s, a).pc[q].Wake?;
  }

  lemma SleepersStayQueued(s: State, p: Pid)
    requires p < |s.pc| && NoLostWakeup(s)
    ensures var s' := RunStep(s, p);
            |s'.pc| == |s.pc| && forall q :: 0 <= q < |s'.pc| && s'.pc[q].Asleep? ==> q in s'.queue
  {
    var s' := RunStep(s, p);
    forall q | 0 <= q < |s'.pc| && s'.pc[q].Asleep?
      ensures q in s'.queue
    {
      assert q != p ==> s.pc[q].Asleep?;
    }
  }

  lemma WakeupRunStep(s: State, p: Pid)
    requires p < |s.pc| && Exclusive(s) && NoLostWakeup(s)
    ensures NoLostWakeup(RunStep(s, p))
  {
    var s' := RunStep(s, p);
    SleepersStayQueued(s, p);
    if !s.pc[p].Wake? {
      if CloseInFlight(s) {
        CloseStaysInFlight(s, Run(p));
      } else if s.pc[p].Clear? {
        assert s'.pc[p].Wake?;
      }
      forall q | 0 <= q < |s'.pc| && Committed(s', q)
        ensures s'.flag == 1 || CloseInFlight(s')
      {
        assert q != p || s.pc[p].Schedule? ==> Committed(s, q);
      }
    }
  }

  lemma InvariantStep(s: State, a: Action)
    requires Exclusive(s) && NoLostWakeup(s)
    ensures Exclusive(Step(s, a)) && NoLostWakeup(Step(s, a))
  {
    if a.Run? && a.p < |s.pc| {
      ExclusiveRunStep(s, a.p);
      WakeupRunStep(s, a.p);
    } else {
      if CloseInFlight(s) {
        CloseStaysInFlight(s, a);
      }
      forall q | 0 <= q < |s.pc| && Committed(Step(s, a), q)
        ensures Committed(s, q)
      {
      }
    }
  }

  /**
   Mutual exclusion and no lost wake-up, in every state of every interleaving. The flag is
   1 exactly when one process is between its compare-and-swap and the clearing store, the
   log is a legal history in which no refused process ever owns the file, and a sleeper
   nobody has woken implies that the file is held or that a wake-up is on its way.
   */
  lemma {:induction false} Safety(n: nat, schedule: seq<Action>)
    ensures var s := Execute(Init(n), schedule); Exclusive(s) && NoLostWakeup(s)
    decreases |schedule|
  {
    if schedule != [] {
      Safety(n, schedule[..|schedule|-1]);
      InvariantStep(Execute(Init(n), schedule[..|schedule|-1]), schedule[|schedule|-1]);
    }
  }

  /** At most one owner, stated without the log. */
  lemma AtMostOneOwner(n: nat, schedule: seq<Action>, p: Pid, q: Pid)
    requires var s := Execute(Init(n), schedule);
             p < |s.pc| && q < |s.pc| && Owns(s.pc[p]) && Owns(s.pc[q])
    ensures p == q && Execute(Init(n), schedule).flag == 1
  {
    Safety(n, schedule);
  }

  // Progress: with the file free and no wake-up on its way, every process inside open,
  // even one that has been waiting in the queue, gets the file by its own steps alone.

  predicate Opening(pc: Pc) {
    !pc.Idle? && !pc.Holding? && !pc.Clear? && !pc.Wake?
  }

  /** `k` consecutive steps of `p` while nobody else runs. */
  function Alone(s: State, p: Pid, k: nat): (s': State)
    requires p < |s.pc|
    ensures |s'.pc| == |s.pc|
    decreases k
  {
    if k == 0 then s else RunStep(Alone(s, p, k - 1), p)
  }

  lemma {:induction false} AloneUnfold(s: State, p: Pid, k: nat)
    requires p < |s.pc|
    ensures Alone(s, p, k + 1) == Alone(RunStep(s, p), p, k)
    decreases k
  {
    if k > 0 { AloneUnfold(s, p, k - 1); }
  }

  /** Open has returned: with the file, or, where that is allowed, with an error. */
  predicate Settled(s: State, p: Pid, mayRefuse: bool)
    requires p < |s.pc|
  {
    || s.pc[p].Holding?
    || (mayRefuse && s.pc[p].Idle? && |s.log| > 0 && s.log[|s.log|-1].Refused? && s.log[|s.log|-1].who == p)
  }

  ghost predicate SettlesWithin(s: State, p: Pid, k: nat, mayRefuse: bool)
    requires p < |s.pc|
  {
    exists j: nat :: j <= k && Settled(Alone(s, p, j), p, mayRefuse)
  }

  lemma OneStepEarlier(s: State, p: Pid, k: nat, mayRefuse: bool)
    requires p < |s.pc| && SettlesWithin(RunStep(s, p), p, k, mayRefuse)
    ensures SettlesWithin(s, p, k + 1, mayRefuse)
  {
    var j: nat :| j <= k && Settled(Alone(RunStep(s, p), p, j), p, mayRefuse);
    AloneUnfold(s, p, j);
    assert Settled(Alone(s, p, j + 1), p, mayRefuse);
  }

  /** The number of own steps left at each point of open while the file is free. */
  function Distance(pc: Pc): nat {
    match pc
    case TryFirst(_) | Loop => 1
    case ScanSignals | CheckFlags(_) => 2
    case PreCheck | Finish => 3
    case Check(_) => 4
    case Prepare => 5
    case Schedule => 6
    case _ => 0
  }

  /** Each own step of an opening process that is not asleep brings it closer. */
  lemma CloserByOne(s: State, p: Pid, mayRefuse: bool)
    requires p < |s.pc| && Opening(s.pc[p]) && s.flag == 0 && !Committed(s, p)
    requires mayRefuse || (p !in s.seen && s.pc[p] != CheckFlags(true))
    ensures var s' := RunStep(s, p);
            || Settled(s', p, mayRefuse)
            || (&& Opening(s'.pc[p]) && s'.flag == 0 && !Committed(s', p) && s'.seen == s.seen
                && s'.pc[p] != CheckFlags(true) && Distance(s'.pc[p]) < Distance(s.pc[p]))
  {
  }

  lemma {:induction false} FreeFileIsTaken(s: State, p: Pid, mayRefuse: bool)
    requires p < |s.pc| && Opening(s.pc[p]) && s.flag == 0 && !Committed(s, p)
    requires mayRefuse || (p !in s.seen && s.pc[p] != CheckFlags(true))
    ensures SettlesWithin(s, p, Distance(s.pc[p]), mayRefuse)
    decreases Distance(s.pc[p])
  {
    var s' := RunStep(s, p);
    CloserByOne(s, p, mayRefuse);
    if Settled(s', p, mayRefuse) {
      assert Alone(s', p, 0) == s';
    } else {
      FreeFileIsTaken(s', p, mayRefuse);
    }
    var k := if Settled(s', p, mayRefuse) then 0 else Distance(s'.pc[p]);
    assert SettlesWithin(s', p, k, mayRefuse);
    OneStepEarlier(s, p, k, mayRefuse);
  }

  /**
   In every reachable state where nobody holds the file and no close is in flight, each
   process inside open is runnable and returns within six of its own steps; it returns
   with the file unless a visible signal is pending or it refused to block.
   */
  lemma WaitersProgress(n: nat, schedule: seq<Action>, p: Pid)
    requires var s := Execute(Init(n), schedule);
             p < |s.pc| && Opening(s.pc[p]) && s.flag == 0 && !CloseInFlight(s)
    ensures var s := Execute(Init(n), schedule);
            && !s.pc[p].Asleep?
            && SettlesWithin(s, p, 6, p in s.seen || s.pc[p] == CheckFlags(true))
  {
    var s := Execute(Init(n), schedule);
    Safety(n, schedule);
    var mayRefuse := p in s.seen || s.pc[p] == CheckFlags(true);
    FreeFileIsTaken(s, p, mayRefuse);
    var j: nat :| j <= Distance(s.pc[p]) && Settled(Alone(s, p, j), p, mayRefuse);
    assert j <= 6;
  }

  // How opens end, by what was called and what the log says.

  /** Whether the last open that process p got into was with O_NONBLOCK. */
  function NonBlocking(n: nat, schedule: seq<Action>, p: Pid): bool
    decreases |schedule|
  {
    if schedule == [] then false else
    var before, a := schedule[..|schedule|-1], schedule[|schedule|-1];
    var s := Execute(Init(n), before);
    if a.Open? && a.p == p && p < |s.pc| && s.pc[p].Idle? then a.nonblock
    else NonBlocking(n, before, p)
  }

  /** Inside the wait loop, from line 108 on. */
  predicate Waits(pc: Pc) {
    || pc.Loop? || pc.PreCheck? || pc.Prepare? || pc.Check? || pc.Schedule?
    || pc.Asleep? || pc.Finish? || pc.ScanSignals?
  }

  /** The points of a non-blocking open are not those of a blocking one, and only waiters queue up. */
  predicate ModeOk(s: State, p: Pid, nonblock: bool)
    requires p < |s.pc|
  {
    && (nonblock ==> !Waits(s.pc[p]) && s.pc[p] != TryFirst(false) && s.pc[p] != CheckFlags(false))
    && (!nonblock ==> s.pc[p] != TryFirst(true) && s.pc[p] != CheckFlags(true))
    && (p in s.queue ==> s.pc[p] in {Check(false), Schedule, Asleep, Prepare, Finish})
    && (s.pc[p].Asleep? ==> p !in s.pending)
  }

  lemma OthersMode(s: State, a: Action, p: Pid, nonblock: bool)
    requires p < |s.pc| && ModeOk(s, p, nonblock) && a.p != p
    ensures |Step(s, a).pc| == |s.pc| && ModeOk(Step(s, a), p, nonblock)
  {
  }

  lemma ModeStep(s: State, a: Action, p: Pid, nonblock: bool)
    requires p < |s.pc| && ModeOk(s, p, nonblock)
    ensures |Step(s, a).pc| == |s.pc|
    ensures ModeOk(Step(s, a), p, if a.Open? && a.p == p && s.pc[p].Idle? then a.nonblock else nonblock)
  {
    if a.p != p { OthersMode(s, a, p, nonblock); }
  }

  lemma {:induction false} ModeIsKept(n: nat, schedule: seq<Action>, p: Pid)
    requires p < n
    ensures |Execute(Init(n), schedule).pc| == n
    ensures ModeOk(Execute(Init(n), schedule), p, NonBlocking(n, schedule, p))
    decreases |schedule|
  {
    if schedule != [] {
      var before := schedule[..|schedule|-1];
      ModeIsKept(n, before, p);
      ModeStep(Execute(Init(n), before), schedule[|schedule|-1], p, NonBlocking(n, before, p));
    }
  }

  /**
   In every interleaving a process that opens with O_NONBLOCK is never in the wait loop,
   never asleep and never on the queue.
   */
  lemma NonBlockingNeverWaits(n: nat, schedule: seq<Action>, p: Pid)
    requires p < n && NonBlocking(n, schedule, p)
    ensures var s := Execute(Init(n), schedule); |s.pc| == n && !Waits(s.pc[p]) && p !in s.queue
  {
    ModeIsKept(n, schedule, p);
  }

  /** No process to which a signal is pending is asleep. */
  lemma SignalledIsAwake(n: nat, schedule: seq<Action>, p: Pid)
    requires p < n && p in Execute(Init(n), schedule).pending
    ensures var s := Execute(Init(n), schedule); |s.pc| == n && !s.pc[p].Asleep?
  {
    ModeIsKept(n, schedule, p);
  }

  lemma RefusedStep(s: State, a: Action, p: Pid, nonblock: bool)
    requires p < |s.pc| && ModeOk(s, p, nonblock)
    requires |Step(s, a).log| > |s.log| && Step(s, a).log[|s.log|].Refused? && Step(s, a).log[|s.log|].who == p
    ensures a == Run(p) && Step(s, a).log == s.log + [Refused(p, if nonblock then EAGAIN else EINTR)]
    ensures Step(s, a).pc[p].Idle? && !Owns(s.pc[p]) && (!nonblock ==> p in s.seen)
  {
  }

  /**
   An open is refused with -EAGAIN only if it was non-blocking, and with -EINTR only if it
   was blocking and a signal that line 125 sees was there.
   */
  lemma RefusalsAreRight(n: nat, schedule: seq<Action>, a: Action, p: Pid, e: Errno)
    requires p < n
    requires var s, t := Execute(Init(n), schedule), Execute(Init(n), schedule + [a]);
             |t.log| > |s.log| && t.log[|s.log|] == Refused(p, e)
    ensures var s, t := Execute(Init(n), schedule), Execute(Init(n), schedule + [a]);
            && a == Run(p) && t.log == s.log + [Refused(p, e)] && |t.pc| == n && t.pc[p].Idle?
            && (e == EAGAIN <==> NonBlocking(n, schedule, p))
            && (e == EINTR ==> p in s.seen)
  {
    assert (schedule + [a])[..|schedule|] == schedule;
    ModeIsKept(n, schedule, p);
    RefusedStep(Execute(Init(n), schedule), a, p, NonBlocking(n, schedule, p));
  }

  /** A signal that line 125 sees has been sent. */
  lemma {:induction false} SeenWasSent(n: nat, schedule: seq<Action>, p: Pid)
    requires p in Execute(Init(n), schedule).seen
    ensures Signal(p, true) in schedule
    decreases |schedule|
  {
    if schedule != [] {
      var before, a := schedule[..|schedule|-1], schedule[|schedule|-1];
      if p in Execute(Init(n), before).seen { SeenWasSent(n, before, p); }
      assert schedule == before + [a];
    }
  }

  predicate MovesAlone(pc: Pc) {
    pc.TryFirst? || pc.CheckFlags? || pc.Clear? || pc.Wake?
  }

  lemma OthersLeaveIt(s: State, a: Action, p: Pid)
    requires p < |s.pc| && MovesAlone(s.pc[p]) && a != Run(p)
    ensures |Step(s, a).pc| == |s.pc| && Step(s, a).pc[p] == s.pc[p]
  {
  }

  /** At the first two points of open, and inside close, nobody else moves a process on. */
  lemma {:induction false} StaysThere(s: State, more: seq<Action>, p: Pid)
    requires p < |s.pc| && Run(p) !in more
    requires MovesAlone(s.pc[p])
    ensures |Execute(s, more).pc| == |s.pc| && Execute(s, more).pc[p] == s.pc[p]
    decreases |more|
  {
    if more != [] {
      StaysThere(s, more[..|more|-1], p);
      OthersLeaveIt(Execute(s, more[..|more|-1]), more[|more|-1], p);
    }
  }

  /** The state after some more actions. */
  lemma {:induction false} ExecuteMore(s: State, first: seq<Action>, more: seq<Action>)
    ensures Execute(s, first + more) == Execute(Execute(s, first), more)
    decreases |more|
  {
    if more == [] {
      assert first + more == first;
    } else {
      var m := |more| - 1;
      assert (first + more)[..|first| + m] == first + more[..m];
      ExecuteMore(s, first, more[..m]);
    }
  }

  lemma ExecuteOne(s: State, a: Action)
    ensures Execute(s, [a]) == Step(s, a)
  {
    assert [a][..0] == [];
  }

  /**
   However others are interleaved, a process that calls a non-blocking open has the file
   after its first own step if the flag is 0 then; otherwise its second own step refuses it
   with -EAGAIN and it is out of open again.
   */
  lemma NonBlockingReturns(s: State, p: Pid, wait1: seq<Action>, wait2: seq<Action>)
    requires p < |s.pc| && s.pc[p].Idle? && Run(p) !in wait1 && Run(p) !in wait2
    ensures var t1 := Execute(s, [Open(p, true)] + wait1);
            var t2 := Execute(s, [Open(p, true)] + wait1 + [Run(p)]);
            var t3 := Execute(s, [Open(p, true)] + wait1 + [Run(p)] + wait2);
            var t4 := Execute(s, [Open(p, true)] + wait1 + [Run(p)] + wait2 + [Run(p)]);
            && |t2.pc| == |t4.pc| == |s.pc|
            && (t1.flag == 0 ==> t2.pc[p].Holding? && t2.flag == 1 && t2.log == t1.log + [Acquired(p)])
            && (t1.flag != 0 ==> t2.log == t1.log && t2.flag == t1.flag
                                 && t4.pc[p].Idle? && t4.flag == t3.flag && t4.log == t3.log + [Refused(p, EAGAIN)])
  {
    var o := [Open(p, true)];
    ExecuteOne(s, Open(p, true));
    ExecuteMore(s, o, wait1);
    StaysThere(Execute(s, o), wait1, p);
    var t1 := Execute(s, o + wait1);
    assert t1.pc[p] == TryFirst(true);
    ExecuteMore(s, o + wait1, [Run(p)]);
    ExecuteOne(t1, Run(p));
    var t2 := Execute(s, o + wait1 + [Run(p)]);
    if t1.flag != 0 {
      assert t2.pc[p] == CheckFlags(true);
      ExecuteMore(s, o + wait1 + [Run(p)], wait2);
      StaysThere(t2, wait2, p);
    } else {
      ExecuteMore(s, o + wait1 + [Run(p)], wait2);
      SameSize(t2, wait2);
    }
    var t3 := Execute(s, o + wait1 + [Run(p)] + wait2);
    ExecuteMore(s, o + wait1 + [Run(p)] + wait2, [Run(p)]);
    ExecuteOne(t3, Run(p));
  }

  lemma {:induction false} SameSize(s: State, more: seq<Action>)
    ensures |Execute(s, more).pc| == |s.pc|
    decreases |more|
  {
    if more != [] { SameSize(s, more[..|more|-1]); }
  }

  /**
   However others are interleaved, the first own step of a close releases the file, and the
   second wakes everybody: it returns with nobody queued and nobody asleep.
   */
  lemma CloseReturns(n: nat, schedule: seq<Action>, p: Pid, wait1: seq<Action>, wait2: seq<Action>)
    requires var s := Execute(Init(n), schedule); p < |s.pc| && s.pc[p].Holding?
    requires Run(p) !in wait1 && Run(p) !in wait2
    ensures var t1 := Execute(Init(n), schedule + [Close(p)] + wait1);
            var t2 := Execute(Init(n), schedule + [Close(p)] + wait1 + [Run(p)]);
            var t3 := Execute(Init(n), schedule + [Close(p)] + wait1 + [Run(p)] + wait2 + [Run(p)]);
            && |t3.pc| == |t2.pc| == n
            && t2.flag == 0 && t2.log == t1.log + [Released(p)] && t2.pc[p].Wake?
            && t3.pc[p].Idle? && t3.queue == {} && forall q :: 0 <= q < n ==> !t3.pc[q].Asleep?
  {
    var closing := schedule + [Close(p)];
    SameSize(Init(n), schedule);
    ExecuteMore(Init(n), schedule, [Close(p)]);
    ExecuteOne(Execute(Init(n), schedule), Close(p));
    ThenRun(n, closing, p, wait1);
    ThenRun(n, closing + wait1 + [Run(p)], p, wait2);
    Safety(n, closing + wait1 + [Run(p)] + wait2);
    AllAwake(Execute(Init(n), closing + wait1 + [Run(p)] + wait2), p);
  }

  /** A wait at such a point, and then the next own step. */
  lemma ThenRun(n: nat, schedule: seq<Action>, p: Pid, wait: seq<Action>)
    requires var s := Execute(Init(n), schedule);
             p < |s.pc| && (s.pc[p].Clear? || s.pc[p].Wake?) && Run(p) !in wait
    ensures var s, t := Execute(Init(n), schedule), Execute(Init(n), schedule + wait);
            |t.pc| == |s.pc| && t.pc[p] == s.pc[p]
            && Execute(Init(n), schedule + wait + [Run(p)]) == RunStep(t, p)
  {
    ExecuteMore(Init(n), schedule, wait);
    StaysThere(Execute(Init(n), schedule), wait, p);
    ExecuteMore(Init(n), schedule + wait, [Run(p)]);
    ExecuteOne(Execute(Init(n), schedule + wait), Run(p));
  }

  lemma AllAwake(s: State, p: Pid)
    requires p < |s.pc| && s.pc[p].Wake? && NoLostWakeup(s)
    ensures var t := RunStep(s, p);
            t.pc[p].Idle? && t.queue == {} && |t.pc| == |s.pc| && forall q :: 0 <= q < |t.pc| ==> !t.pc[q].Asleep?
  {
  }

  // An open that has to wait does not spin.

  /** The number of own steps until a blocking open of a held file is asleep. */
  function UntilAsleep(s: State, p: Pid): nat
    requires p < |s.pc|
  {
    match s.pc[p]
    case TryFirst(_) => 7
    case CheckFlags(_) => 6
    case Loop => 5
    case PreCheck => 4
    case Prepare => 3
    case Check(interrupted) => if interrupted then 7 else if p in s.queue then 2 else 5
    case Schedule => if p in s.queue then 1 else 4
    case Finish => 7
    case ScanSignals => 6
    case _ => 0
  }

  predicate HasToWait(s: State, p: Pid) {
    && p < |s.pc| && Opening(s.pc[p]) && s.flag != 0 && p !in s.pending && p !in s.seen
    && s.pc[p] != TryFirst(true) && s.pc[p] != CheckFlags(true)
  }

  lemma CloserToSleep(s: State, p: Pid)
    requires HasToWait(s, p) && !s.pc[p].Asleep?
    ensures var t := RunStep(s, p);
            HasToWait(t, p) && t.log == s.log && t.flag == s.flag && UntilAsleep(t, p) < UntilAsleep(s, p)
  {
  }

  /**
   While the file is held and no signal is pending, a blocking open is asleep after at most
   seven own steps: it does not go on trying.
   */
  lemma {:induction false} HeldFilePutsToSleep(s: State, p: Pid) returns (k: nat)
    requires HasToWait(s, p)
    ensures k <= UntilAsleep(s, p) <= 7
    ensures Alone(s, p, k).pc[p].Asleep? && Alone(s, p, k).log == s.log && Alone(s, p, k).flag == s.flag
    decreases UntilAsleep(s, p)
  {
    k := 0;
    if !s.pc[p].Asleep? {
      CloserToSleep(s, p);
      var j := HeldFilePutsToSleep(RunStep(s, p), p);
      AloneUnfold(s, p, j);
      k := j + 1;
    }
  }

  // A visible signal ends the wait, whoever holds the file.

  /** The most own steps a signalled process has left before open returns. */
  function SignalDistance(pc: Pc): nat {
    match pc
    case ScanSignals => 1
    case Finish => 2
    case Check(interrupted) => if interrupted then 3 else 6
    case Prepare => 4
    case PreCheck => 5
    case Schedule => 5
    case Loop => 6
    case CheckFlags(_) => 7
    case TryFirst(_) => 8
    case Idle | Asleep | Holding | Clear | Wake => 0
  }

  predicate Interrupted(s: State, p: Pid) {
    p < |s.pc| && Opening(s.pc[p]) && !s.pc[p].Asleep? && p in s.pending && p in s.seen
  }

  /** Open has just returned: what p does next is not part of it. */
  predicate Returned(s: State, p: Pid) {
    p < |s.pc| && (s.pc[p].Holding? || s.pc[p].Idle?)
  }

  /** From s to t the open has returned and logged how. */
  predicate LogsReturn(s: State, t: State, p: Pid) {
    && Returned(t, p) && |t.log| == |s.log| + 1
    && (t.log[|s.log|] == Acquired(p) || t.log[|s.log|] == Refused(p, EAGAIN) || t.log[|s.log|] == Refused(p, EINTR))
  }

  /** Its own step brings it nearer to the end, or ends the open and logs how. */
  lemma InterruptedOwnStep(s: State, p: Pid)
    requires Interrupted(s, p)
    ensures var t := RunStep(s, p);
            || (Interrupted(t, p) && SignalDistance(t.pc[p]) < SignalDistance(s.pc[p]))
            || LogsReturn(s, t, p)
  {
  }

  /** What others do leaves it where it is. */
  lemma InterruptedOtherStep(s: State, a: Action, p: Pid)
    requires Interrupted(s, p) && a != Run(p)
    ensures Interrupted(Step(s, a), p) && Step(s, a).pc[p] == s.pc[p]
  {
  }

  function RunsOf(more: seq<Action>, p: Pid): nat {
    if more == [] then 0 else (if more[0] == Run(p) then 1 else 0) + RunsOf(more[1..], p)
  }

  /**
   However others are interleaved and whatever the flag does, an opening process to which a
   visible signal is pending returns from open within eight own steps.
   */
  lemma {:induction false} InterruptedReturns(s: State, more: seq<Action>, p: Pid) returns (i: nat)
    requires Interrupted(s, p) && RunsOf(more, p) >= SignalDistance(s.pc[p])
    ensures SignalDistance(s.pc[p]) <= 8
    ensures i < |more| && more[i] == Run(p)
    ensures LogsReturn(Execute(s, more[..i]), Execute(s, more[..i+1]), p)
    decreases |more|
  {
    var a, rest := more[0], more[1..];
    ExecuteOne(s, a);
    if a == Run(p) { InterruptedOwnStep(s, p); } else { InterruptedOtherStep(s, a, p); }
    if Interrupted(Step(s, a), p) {
      var j := InterruptedReturns(Step(s, a), rest, p);
      i := j + 1;
      assert more[..i] == [a] + rest[..j] && more[..i+1] == [a] + rest[..j+1];
      ExecuteMore(s, [a], rest[..j]);
      ExecuteMore(s, [a], rest[..j+1]);
    } else {
      i := 0;
      assert more[..0] == [] && more[..1] == [a];
    }
  }
}
