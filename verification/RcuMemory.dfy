/**
 update_data and the exit of examples/example_rcu.c on memory in place, with nobody else
 running; and that the step system of module Rcu does the same then.
 */
module RcuMemory {
  import opened Common
  import opened Rcu

  /** The pointer and the cells after an update, or after an exit if there is no new value. */
  datatype Memory = Memory(shared: Option<Cell>, heap: seq<Content>, frees: nat)

  function FreeOld(m: Memory): Memory {
    if m.shared.Some? && m.shared.value < |m.heap|
    then m.(heap := m.heap[m.shared.value := Freed], frees := m.frees + 1) else m
  }

  function Updated(m: Memory, v: int, kmallocWorks: bool): Memory {
    if kmallocWorks
    then Memory(Some(|m.heap|), FreeOld(m).heap + [Value(v)], FreeOld(m).frees)
    else m
  }

  function Exited(m: Memory): Memory {
    FreeOld(m).(shared := None)
  }

  /** The published cell is there to be read. */
  predicate Usable(m: Memory) {
    m.shared.Some? ==> m.shared.value < |m.heap| && m.heap[m.shared.value].Value?
  }

  class Data {
    var shared: Option<Cell>
    var heap: seq<Content>
    var frees: nat

    function View(): Memory
      reads this
    {
      Memory(shared, heap, frees)
    }

    constructor ()
      ensures View() == Memory(None, [], 0)
    {
      shared, heap, frees := None, [], 0;
    }

    method Kfree(c: Cell)
      requires c < |heap| && !heap[c].Freed?
      modifies this
      ensures View() == Memory(old(shared), old(heap)[c := Freed], old(frees) + 1)
    {
      heap, frees := heap[c := Freed], frees + 1;
    }

    /** `update_data` */
    method UpdateData(newValue: int, kmallocWorks: bool)
      requires Usable(View())
      modifies this
      ensures Usable(View()) && View() == Updated(old(View()), newValue, kmallocWorks)
      ensures !kmallocWorks ==> View() == old(View())
      ensures kmallocWorks ==> shared == Some(|old(heap)|) && |heap| == |old(heap)| + 1
                               && heap[|old(heap)|] == Value(newValue)
      ensures forall c :: 0 <= c < |old(heap)| ==>
                heap[c] == if kmallocWorks && old(shared) == Some(c) then Freed else old(heap)[c]
      ensures frees == old(frees) + if kmallocWorks && old(shared).Some? then 1 else 0
    {
      if !kmallocWorks { return; }
      var newP := |heap|;
      heap := heap + [Garbage];
      heap := heap[newP := Value(newValue)];
      var oldP := shared;
      shared := Some(newP);
      if oldP.Some? { Kfree(oldP.value); }
    }

    /** `example_rcu_exit`, past kthread_stop. */
    method Exit()
      requires Usable(View())
      modifies this
      ensures View() == Exited(old(View())) && shared == None && |heap| == |old(heap)|
      ensures forall c :: 0 <= c < |heap| ==> heap[c] == if old(shared) == Some(c) then Freed else old(heap)[c]
      ensures frees == old(frees) + if old(shared).Some? then 1 else 0
    {
      var oldP := shared;
      shared := None;
      if oldP.Some? { Kfree(oldP.value); }
    }
  }

  // The steps of an updater that runs alone.

  function MemoryOf(s: State): Memory {
    Memory(s.shared, s.heap, s.frees)
  }

  /** What memory will be when updater u, running alone, has finished its call. */
  function Expected(s: State, u: Uid): Memory
    requires u < |s.updaters|
  {
    match s.updaters[u]
    case Idle => MemoryOf(s)
    case Allocated(c, v) =>
      if c < |s.heap| then FreeOld(Memory(s.shared, s.heap[c := Value(v)], s.frees)).(shared := Some(c))
      else MemoryOf(s)
    case Ready(p) => FreeOld(MemoryOf(s)).(shared := p)
    case Locked(p) => FreeOld(MemoryOf(s)).(shared := p)
    case Fetched(p, was) => FreeOld(Memory(was, s.heap, s.frees)).(shared := p)
    case Swapped(was) => FreeOld(Memory(was, s.heap, s.frees)).(shared := s.shared)
    case Unlocked(c) => FreeOld(Memory(Some(c), s.heap, s.frees)).(shared := s.shared)
    case Grace(c, _) => FreeOld(Memory(Some(c), s.heap, s.frees)).(shared := s.shared)
    case Reclaim(c) => FreeOld(Memory(Some(c), s.heap, s.frees)).(shared := s.shared)
  }

  /** The cell that u is to free: the one it has unpublished, or the one it is going to. */
  function ToFree(s: State, u: Uid): Option<Cell>
    requires u < |s.updaters|
  {
    if s.updaters[u].Swapped? || OldOf(s.updaters[u]).Some? then OldOf(s.updaters[u]) else s.shared
  }

  /** No reader is inside, nobody else has the lock, and the old cell of u is there to be freed. */
  predicate Undisturbed(s: State, u: Uid) {
    && u < |s.updaters| && |s.readers| == |s.sections|
    && (forall r :: 0 <= r < |s.readers| ==> s.readers[r].Outside?)
    && s.lock == (if InCritical(s.updaters[u]) then Some(u) else None)
    && (s.updaters[u].Allocated? ==> s.updaters[u].new_p < |s.heap| && s.shared != Some(s.updaters[u].new_p))
    && (s.updaters[u].Fetched? ==> s.updaters[u].seen == s.shared)
    && Usable(Memory(ToFree(s, u), s.heap, s.frees))
  }

  /** One step brings u nearer to its end and does not change what to expect there. */
  lemma StepAlone(s: State, u: Uid)
    requires Undisturbed(s, u) && !s.updaters[u].Idle?
    ensures var t := StepUpdater(s, u);
            && |t.updaters| == |s.updaters| && t.updaters == s.updaters[u := t.updaters[u]]
            && t.readers == s.readers && t.sections == s.sections && t.faults == s.faults
            && Distance(t.updaters[u]) < Distance(s.updaters[u])
            && (!t.updaters[u].Idle? ==> Undisturbed(t, u))
            && (t.updaters[u].Idle? ==> t.lock.None?)
            && Expected(t, u) == Expected(s, u)
  {
  }

  lemma ExecuteOne(s: State, before: seq<Action>, a: Action)
    requires |s.readers| == |s.sections|
    ensures Execute(s, before + [a]) == Step(Execute(s, before), a)
  {
    assert (before + [a])[..|before|] == before;
  }

  predicate OnlyStepsOf(u: Uid, schedule: seq<Action>) {
    forall i :: 0 < i < |schedule| ==> schedule[i] == UpdaterStep(u)
  }

  /** Letting u finish: it ends idle, with memory as expected, and nothing else has changed. */
  lemma {:induction false} FinishAlone(s: State, schedule: seq<Action>, u: Uid) returns (longer: seq<Action>)
    requires |s.readers| == |s.sections| && schedule != [] && OnlyStepsOf(u, schedule)
    requires Undisturbed(Execute(s, schedule), u)
    ensures |longer| >= |schedule| && longer[0] == schedule[0] && OnlyStepsOf(u, longer)
    ensures var m, t := Execute(s, schedule), Execute(s, longer);
            && t.updaters == m.updaters[u := Idle] && t.lock.None?
            && t.readers == m.readers && t.faults == m.faults && MemoryOf(t) == Expected(m, u)
    decreases Distance(Execute(s, schedule).updaters[u])
  {
    longer := schedule;
    var m := Execute(s, schedule);
    if !m.updaters[u].Idle? {
      ExecuteOne(s, schedule, UpdaterStep(u));
      StepAlone(m, u);
      longer := schedule + [UpdaterStep(u)];
      if !StepUpdater(m, u).updaters[u].Idle? { longer := FinishAlone(s, longer, u); }
    }
  }

  lemma BeginAlone(s: State, u: Uid, v: int, kmallocWorks: bool)
    requires Undisturbed(s, u) && s.updaters[u].Idle?
    ensures var t := Step(s, BeginUpdate(u, v, kmallocWorks));
            && Undisturbed(t, u) && t.readers == s.readers && t.faults == s.faults
            && t.updaters[u := Idle] == s.updaters
            && Expected(t, u) == Updated(MemoryOf(s), v, kmallocWorks)
  {
  }

  /**
   With no reader inside and no other updater at work, an update of the step system that
   runs alone does to pointer, cells and frees what `UpdateData` does in place, whether
   kmalloc works or not.
   */
  lemma UpdateIsUpdateData(s: State, u: Uid, v: int, kmallocWorks: bool) returns (schedule: seq<Action>)
    requires Undisturbed(s, u) && s.updaters[u].Idle?
    ensures schedule != [] && schedule[0] == BeginUpdate(u, v, kmallocWorks) && OnlyStepsOf(u, schedule)
    ensures var t := Execute(s, schedule);
            && MemoryOf(t) == Updated(MemoryOf(s), v, kmallocWorks)
            && t.updaters == s.updaters && t.lock.None? && t.readers == s.readers && t.faults == s.faults
  {
    var a := BeginUpdate(u, v, kmallocWorks);
    ExecuteOne(s, [], a);
    assert [] + [a] == [a];
    BeginAlone(s, u, v, kmallocWorks);
    schedule := FinishAlone(s, [a], u);
  }

  /** And an exit does what `Exit` does. */
  lemma ExitIsExit(s: State, u: Uid) returns (schedule: seq<Action>)
    requires Undisturbed(s, u) && s.updaters[u].Idle?
    ensures schedule != [] && schedule[0] == BeginExit(u) && OnlyStepsOf(u, schedule)
    ensures var t := Execute(s, schedule);
            && MemoryOf(t) == Exited(MemoryOf(s))
            && t.updaters == s.updaters && t.lock.None? && t.readers == s.readers && t.faults == s.faults
  {
    ExecuteOne(s, [], BeginExit(u));
    assert [] + [BeginExit(u)] == [BeginExit(u)];
    schedule := FinishAlone(s, [BeginExit(u)], u);
  }
}
