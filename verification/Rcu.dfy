/**
 Publish and reclaim in examples/example_rcu.c: any number of readers and updaters share
 one pointer, one shared-memory access per step. A cell is named by the allocation that
 made it, so that using or freeing it too late is visible; such errors are recorded in
 `faults` and do not stop the run. The theorems say that none is ever recorded.
 */
module Rcu {
  import opened Common

  type Cell = nat  // the n-th successful kmalloc
  type Rid = nat
  type Uid = nat

  datatype Content = Garbage | Value(v: int) | Freed

  datatype Fault = UseAfterFree(c: Cell) | Uninitialised(c: Cell) | DoubleFree(c: Cell)

  /** One pass of the loop of `reader_thread_fn`; `i` numbers the publication it saw. */
  datatype Reader =
    | Outside
    | Entered                           // after rcu_read_lock
    | Loaded(p: Option<Cell>, i: nat)   // after rcu_dereference
    | Read(val: Option<int>, i: nat)    // after p->value, before rcu_read_unlock

  /**
   `update_data`, and from `Ready(None)` on also `example_rcu_exit`, which publishes NULL.
   `Grace` remembers, for each reader inside a section when synchronize_rcu was called,
   which of its sections that was.
   */
  datatype Updater =
    | Idle
    | Allocated(new_p: Cell, v: int)               // line 45 done
    | Ready(p: Option<Cell>)                       // line 48 done
    | Locked(p: Option<Cell>)                      // line 50 done
    | Fetched(p: Option<Cell>, seen: Option<Cell>) // line 52 done
    | Swapped(old_p: Option<Cell>)                 // line 53 done
    | Unlocked(c: Cell)                            // line 55 done, old_p not NULL
    | Grace(c: Cell, inside: map<Rid, nat>)        // in line 58
    | Reclaim(c: Cell)                             // line 58 done

  /** `sections[r]` counts the sections reader r has begun; `log` lists what was published. */
  datatype State = State(shared: Option<Cell>, lock: Option<Uid>, heap: seq<Content>,
                         readers: seq<Reader>, sections: seq<nat>, updaters: seq<Updater>,
                         log: seq<Option<int>>, frees: nat, faults: set<Fault>)

  datatype Action =
    | ReaderStep(r: Rid)
    | BeginUpdate(u: Uid, v: int, kmallocWorks: bool)
    | BeginExit(u: Uid)
    | UpdaterStep(u: Uid)

  function Init(readers: nat, updaters: nat): State {
    State(None, None, [], seq(readers, _ => Outside), seq(readers, _ => 0),
          seq(updaters, _ => Idle), [None], 0, {})
  }

  predicate Inside(r: Reader) {
    !r.Outside?
  }

  /** `p->value`, and what goes wrong when the cell is not fit to be read. */
  function Dereference(s: State, r: Rid, c: Cell, i: nat): State
    requires r < |s.readers| && c < |s.heap|
  {
    match s.heap[c]
    case Value(v) => s.(readers := s.readers[r := Read(Some(v), i)])
    case Garbage => s.(readers := s.readers[r := Read(Some(0), i)], faults := s.faults + {Uninitialised(c)})
    case Freed => s.(readers := s.readers[r := Read(Some(0), i)], faults := s.faults + {UseAfterFree(c)})
  }

  function StepReader(s: State, r: Rid): State
    requires r < |s.readers| == |s.sections|
  {
    match s.readers[r]
    case Outside =>
      s.(readers := s.readers[r := Entered], sections := s.sections[r := s.sections[r] + 1])
    case Entered =>
      s.(readers := s.readers[r := Loaded(s.shared, if |s.log| == 0 then 0 else |s.log| - 1)])
    case Loaded(None, i) => s.(readers := s.readers[r := Read(None, i)])
    case Loaded(Some(c), i) => if c < |s.heap| then Dereference(s, r, c, i) else s
    case Read(_, _) => s.(readers := s.readers[r := Outside])
  }

  /** The readers inside a section, each with the number of that section. */
  function ReadersInside(s: State): map<Rid, nat>
    requires |s.readers| == |s.sections|
  {
    map r: Rid | 0 <= r < |s.readers| && Inside(s.readers[r]) :: s.sections[r]
  }

  /** Reader r is still in the section it was in when the grace period began. */
  predicate StillInside(s: State, inside: map<Rid, nat>, r: Rid)
    requires |s.readers| == |s.sections|
  {
    r in inside && r < |s.readers| && Inside(s.readers[r]) && s.sections[r] == inside[r]
  }

  predicate GraceOver(s: State, inside: map<Rid, nat>)
    requires |s.readers| == |s.sections|
  {
    forall r :: r in inside ==> !StillInside(s, inside, r)
  }

  function Kfree(s: State, c: Cell): State {
    if c < |s.heap| && !s.heap[c].Freed?
    then s.(heap := s.heap[c := Freed], frees := s.frees + 1)
    else s.(faults := s.faults + {DoubleFree(c)}, frees := s.frees + 1)
  }

  function Move(s: State, u: Uid, to: Updater): State
    requires u < |s.updaters|
  {
    s.(updaters := s.updaters[u := to])
  }

  function StepUpdater(s: State, u: Uid): State
    requires u < |s.updaters| && |s.readers| == |s.sections|
  {
    match s.updaters[u]
    case Idle => s
    case Allocated(c, v) =>
      if c < |s.heap| then Move(s, u, Ready(Some(c))).(heap := s.heap[c := Value(v)]) else s
    case Ready(p) => if s.lock.None? then Move(s, u, Locked(p)).(lock := Some(u)) else s
    case Locked(p) => Move(s, u, Fetched(p, s.shared))
    case Fetched(p, was) =>
      Move(s, u, Swapped(was)).(shared := p,
        log := s.log + [if p.Some? && p.value < |s.heap| && s.heap[p.value].Value?
                        then Some(s.heap[p.value].v) else None])
    case Swapped(was) => Move(s, u, if was.None? then Idle else Unlocked(was.value)).(lock := None)
    case Unlocked(c) => Move(s, u, Grace(c, ReadersInside(s)))
    case Grace(c, inside) => if GraceOver(s, inside) then Move(s, u, Reclaim(c)) else s
    case Reclaim(c) => Move(Kfree(s, c), u, Idle)
  }

  function Step(s: State, a: Action): State
    requires |s.readers| == |s.sections|
  {
    match a
    case ReaderStep(r) => if r < |s.readers| then StepReader(s, r) else s
    case BeginUpdate(u, v, works) =>
      if u < |s.updaters| && s.updaters[u].Idle? && works
      then Move(s, u, Allocated(|s.heap|, v)).(heap := s.heap + [Garbage]) else s
    case BeginExit(u) =>
      if u < |s.updaters| && s.updaters[u].Idle? then Move(s, u, Ready(None)) else s
    case UpdaterStep(u) => if u < |s.updaters| then StepUpdater(s, u) else s
  }

  function Execute(s: State, schedule: seq<Action>): (s': State)
    requires |s.readers| == |s.sections|
    ensures |s'.readers| == |s'.sections| == |s.readers| && |s'.updaters| == |s.updaters|
    decreases |schedule|
  {
    if schedule == [] then s
    else Step(Execute(s, schedule[..|schedule|-1]), schedule[|schedule|-1])
  }

  // Who is responsible for a cell.

  datatype Role = Private(u: Uid) | Published | Held(u: Uid) | Dead

  /** The cell an updater has allocated and not yet published. */
  function NewOf(u: Updater): Option<Cell> {
    match u
    case Allocated(c, _) => Some(c)
    case Ready(p) => p
    case Locked(p) => p
    case Fetched(p, _) => p
    case _ => None
  }

  /** The cell an updater has unpublished and not yet freed. */
  function OldOf(u: Updater): Option<Cell> {
    match u
    case Swapped(p) => p
    case Unlocked(c) => Some(c)
    case Grace(c, _) => Some(c)
    case Reclaim(c) => Some(c)
    case _ => None
  }

  predicate HasRole(s: State, c: Cell, role: Role) {
    match role
    case Private(u) => u < |s.updaters| && NewOf(s.updaters[u]) == Some(c)
    case Published => s.shared == Some(c)
    case Held(u) => u < |s.updaters| && OldOf(s.updaters[u]) == Some(c)
    case Dead => c < |s.heap| && s.heap[c].Freed?
  }

  predicate InCritical(u: Updater) {
    u.Locked? || u.Fetched? || u.Swapped?
  }

  // The invariant, one updater, one cell and one reader at a time. `own` names the role
  // of every cell.

  predicate UpdaterOk(s: State, own: seq<Role>, u: Uid)
    requires u < |s.updaters| && |own| == |s.heap|
  {
    var pc := s.updaters[u];
    && (InCritical(pc) <==> s.lock == Some(u))
    && (pc.Fetched? ==> pc.seen == s.shared)
    && (NewOf(pc).Some? ==>
          && NewOf(pc).value < |own| && own[NewOf(pc).value] == Private(u)
          && (pc.Allocated? || s.heap[NewOf(pc).value].Value?))
    && (OldOf(pc).Some? ==> OldOf(pc).value < |own| && own[OldOf(pc).value] == Held(u))
  }

  predicate CellOk(s: State, own: seq<Role>, c: Cell)
    requires c < |own| == |s.heap|
  {
    HasRole(s, c, own[c]) && (s.heap[c].Freed? ==> own[c] == Dead)
  }

  predicate SharedOk(s: State, own: seq<Role>)
    requires |own| == |s.heap|
  {
    && |s.log| > 0
    && (s.shared.None? ==> s.log[|s.log|-1] == None)
    && (s.shared.Some? ==>
          && s.shared.value < |own| && own[s.shared.value] == Published
          && s.heap[s.shared.value].Value? && s.log[|s.log|-1] == Some(s.heap[s.shared.value].v))
  }

  /** No updater may free cell c before reader r leaves its present section. */
  predicate Pinned(s: State, own: seq<Role>, r: Rid, c: Cell)
    requires |s.readers| == |s.sections| && c < |own|
  {
    || own[c] == Published
    || (own[c].Held? && own[c].u < |s.updaters| &&
        match s.updaters[own[c].u]
        case Swapped(_) => true
        case Unlocked(_) => true
        case Grace(_, inside) => StillInside(s, inside, r)
        case _ => false)
  }

  predicate ReaderOk(s: State, own: seq<Role>, r: Rid)
    requires |s.readers| == |s.sections| && r < |s.readers| && |own| == |s.heap|
  {
    match s.readers[r]
    case Loaded(None, i) => i < |s.log| && s.log[i] == None
    case Loaded(Some(c), i) =>
      && c < |own| && Pinned(s, own, r, c)
      && i < |s.log| && s.heap[c].Value? && s.log[i] == Some(s.heap[c].v)
    case Read(val, i) => i < |s.log| && s.log[i] == val
    case _ => true
  }

  ghost predicate Inv(s: State, own: seq<Role>) {
    && |s.readers| == |s.sections| && |own| == |s.heap|
    && SharedOk(s, own)
    && (forall u :: 0 <= u < |s.updaters| ==> UpdaterOk(s, own, u))
    && (forall c :: 0 <= c < |own| ==> CellOk(s, own, c))
    && (forall r :: 0 <= r < |s.readers| ==> ReaderOk(s, own, r))
    && s.faults == {}
  }

  /** How the roles change with a step of an updater. */
  function NextRoles(s: State, u: Uid, own: seq<Role>): (own': seq<Role>)
    requires u < |s.updaters| && |own| == |s.heap|
    requires UpdaterOk(s, own, u) && SharedOk(s, own)
    ensures |own'| == |own|
  {
    match s.updaters[u]
    case Fetched(p, was) =>
      var own1 := if was.Some? then own[was.value := Held(u)] else own;
      if p.Some? then own1[p.value := Published] else own1
    case Reclaim(c) => own[c := Dead]
    case _ => own
  }

  lemma SharedUpdater(s: State, own: seq<Role>, u: Uid)
    requires |s.readers| == |s.sections| && u < |s.updaters| && |own| == |s.heap|
    requires UpdaterOk(s, own, u) && SharedOk(s, own)
    ensures |StepUpdater(s, u).heap| == |s.heap|
    ensures SharedOk(StepUpdater(s, u), NextRoles(s, u, own))
  {
  }

  lemma FaultUpdater(s: State, own: seq<Role>, u: Uid)
    requires |s.readers| == |s.sections| && u < |s.updaters| && |own| == |s.heap|
    requires UpdaterOk(s, own, u) && forall c :: 0 <= c < |own| ==> CellOk(s, own, c)
    ensures StepUpdater(s, u).faults == s.faults
  {
    if s.updaters[u].Reclaim? {
      assert CellOk(s, own, s.updaters[u].c);
    }
  }

  lemma OwnUpdater(s: State, own: seq<Role>, u: Uid)
    requires |s.readers| == |s.sections| && u < |s.updaters| && |own| == |s.heap|
    requires UpdaterOk(s, own, u) && SharedOk(s, own)
    ensures |StepUpdater(s, u).heap| == |s.heap|
    ensures UpdaterOk(StepUpdater(s, u), NextRoles(s, u, own), u)
  {
  }

  lemma OtherUpdater(s: State, own: seq<Role>, u: Uid, v: Uid)
    requires |s.readers| == |s.sections| && u < |s.updaters| && |own| == |s.heap|
    requires v < |s.updaters| && v != u && UpdaterOk(s, own, v)
    requires UpdaterOk(s, own, u) && SharedOk(s, own)
    ensures |StepUpdater(s, u).heap| == |s.heap|
    ensures UpdaterOk(StepUpdater(s, u), NextRoles(s, u, own), v)
  {
    assert StepUpdater(s, u).updaters[v] == s.updaters[v];
  }

  lemma CellUpdater(s: State, own: seq<Role>, u: Uid, c: Cell)
    requires |s.readers| == |s.sections| && u < |s.updaters| && c < |own| == |s.heap|
    requires UpdaterOk(s, own, u) && SharedOk(s, own) && CellOk(s, own, c)
    ensures |StepUpdater(s, u).heap| == |s.heap|
    ensures CellOk(StepUpdater(s, u), NextRoles(s, u, own), c)
  {
    if s.updaters[u].Fetched? { CellPublish(s, own, u, c); } else { CellElse(s, own, u, c); }
  }

  lemma CellPublish(s: State, own: seq<Role>, u: Uid, c: Cell)
    requires |s.readers| == |s.sections| && u < |s.updaters| && c < |own| == |s.heap|
    requires UpdaterOk(s, own, u) && SharedOk(s, own) && CellOk(s, own, c) && s.updaters[u].Fetched?
    ensures |StepUpdater(s, u).heap| == |s.heap|
    ensures CellOk(StepUpdater(s, u), NextRoles(s, u, own), c)
  {
  }

  lemma CellElse(s: State, own: seq<Role>, u: Uid, c: Cell)
    requires |s.readers| == |s.sections| && u < |s.updaters| && c < |own| == |s.heap|
    requires UpdaterOk(s, own, u) && SharedOk(s, own) && CellOk(s, own, c) && !s.updaters[u].Fetched?
    ensures |StepUpdater(s, u).heap| == |s.heap|
    ensures CellOk(StepUpdater(s, u), NextRoles(s, u, own), c)
  {
  }

  lemma ReaderUpdater(s: State, own: seq<Role>, u: Uid, r: Rid)
    requires |s.readers| == |s.sections| && u < |s.updaters| && |own| == |s.heap|
    requires UpdaterOk(s, own, u) && SharedOk(s, own) && r < |s.readers| && ReaderOk(s, own, r)
    requires forall c :: 0 <= c < |own| ==> CellOk(s, own, c)
    ensures |StepUpdater(s, u).heap| == |s.heap|
    ensures ReaderOk(StepUpdater(s, u), NextRoles(s, u, own), r)
  {
    if s.readers[r].Loaded? && s.readers[r].p.Some? {
      assert CellOk(s, own, s.readers[r].p.value);
      HolderUpdater(s, own, u, r);
    }
  }

  /** The updater that unpublishes the cell of a reader cannot get past its grace period. */
  lemma HolderUpdater(s: State, own: seq<Role>, u: Uid, r: Rid)
    requires |s.readers| == |s.sections| && u < |s.updaters| && |own| == |s.heap|
    requires UpdaterOk(s, own, u) && SharedOk(s, own) && r < |s.readers| && ReaderOk(s, own, r)
    requires s.readers[r].Loaded? && s.readers[r].p.Some? && CellOk(s, own, s.readers[r].p.value)
    ensures |StepUpdater(s, u).heap| == |s.heap|
    ensures ReaderOk(StepUpdater(s, u), NextRoles(s, u, own), r)
  {
    if s.updaters[u].Unlocked? { assert StillInside(s, ReadersInside(s), r); }
  }

  lemma InvUpdater(s: State, own: seq<Role>, u: Uid)
    requires Inv(s, own) && u < |s.updaters|
    ensures Inv(StepUpdater(s, u), NextRoles(s, u, own))
  {
    SharedUpdater(s, own, u);
    FaultUpdater(s, own, u);
    var s', own' := StepUpdater(s, u), NextRoles(s, u, own);
    assert |s'.updaters| == |s.updaters| && s'.readers == s.readers && s'.sections == s.sections;
    forall v | 0 <= v < |s'.updaters| ensures UpdaterOk(s', own', v) {
      if v == u { OwnUpdater(s, own, u); } else { OtherUpdater(s, own, u, v); }
    }
    forall c | 0 <= c < |own'| ensures CellOk(s', own', c) { CellUpdater(s, own, u, c); }
    forall r | 0 <= r < |s'.readers| ensures ReaderOk(s', own', r) { ReaderUpdater(s, own, u, r); }
  }

  lemma StepOfReader(s: State, own: seq<Role>, r: Rid, q: Rid)
    requires |s.readers| == |s.sections| && r < |s.readers| && |own| == |s.heap|
    requires SharedOk(s, own) && ReaderOk(s, own, r) && q < |s.readers| && ReaderOk(s, own, q)
    ensures ReaderOk(StepReader(s, r), own, q) && StepReader(s, r).faults == s.faults
  {
  }

  lemma InvReader(s: State, own: seq<Role>, r: Rid)
    requires Inv(s, own) && r < |s.readers|
    ensures Inv(StepReader(s, r), own)
  {
    var s' := StepReader(s, r);
    StepOfReader(s, own, r, r);
    forall q | 0 <= q < |s'.readers| ensures ReaderOk(s', own, q) { StepOfReader(s, own, r, q); }
    forall u | 0 <= u < |s'.updaters| ensures UpdaterOk(s', own, u) { assert UpdaterOk(s, own, u); }
    forall c | 0 <= c < |own| ensures CellOk(s', own, c) { assert CellOk(s, own, c); }
  }

  lemma InvBegin(s: State, own: seq<Role>, a: Action) returns (own': seq<Role>)
    requires Inv(s, own) && (a.BeginUpdate? || a.BeginExit?)
    ensures Inv(Step(s, a), own')
  {
    var s' := Step(s, a);
    own' := if |s'.heap| > |s.heap| then own + [Private(a.u)] else own;
    forall u | 0 <= u < |s'.updaters| ensures UpdaterOk(s', own', u) { assert UpdaterOk(s, own, u); }
    forall c | 0 <= c < |own'| ensures CellOk(s', own', c) { assert c < |own| ==> CellOk(s, own, c); }
    forall r | 0 <= r < |s'.readers| ensures ReaderOk(s', own', r) { assert ReaderOk(s, own, r); }
  }

  lemma {:induction false} Invariant(readers: nat, updaters: nat, schedule: seq<Action>)
    returns (own: seq<Role>)
    ensures Inv(Execute(Init(readers, updaters), schedule), own)
    decreases |schedule|
  {
    own := [];
    if schedule != [] {
      var a := schedule[|schedule|-1];
      own := Invariant(readers, updaters, schedule[..|schedule|-1]);
      var s := Execute(Init(readers, updaters), schedule[..|schedule|-1]);
      match a
      case ReaderStep(r) => if r < |s.readers| { InvReader(s, own, r); }
      case UpdaterStep(u) =>
        if u < |s.updaters| {
          InvUpdater(s, own, u);
          own := NextRoles(s, u, own);
        }
      case _ => own := InvBegin(s, own, a);
    }
  }

  // The theorems.

  /** A reader between rcu_dereference and the load of p->value. */
  predicate Holds(s: State, r: Rid, c: Cell) {
    r < |s.readers| && s.readers[r].Loaded? && s.readers[r].p == Some(c)
  }

  /**
   In every interleaving of any number of readers and updaters, nothing is ever used
   after its kfree, used before its initialisation, or freed twice; and a cell some reader
   holds is allocated, initialised, and not yet in the hands of kfree.
   */
  lemma ReadersAreSafe(readers: nat, updaters: nat, schedule: seq<Action>, r: Rid, c: Cell)
    ensures var s := Execute(Init(readers, updaters), schedule);
            && s.faults == {}
            && (Holds(s, r, c) ==>
                  && c < |s.heap| && s.heap[c].Value?
                  && forall u :: 0 <= u < |s.updaters| ==> s.updaters[u] != Reclaim(c))
  {
    var own := Invariant(readers, updaters, schedule);
    var s := Execute(Init(readers, updaters), schedule);
    if Holds(s, r, c) {
      assert ReaderOk(s, own, r);
      forall u | 0 <= u < |s.updaters| ensures s.updaters[u] != Reclaim(c) {
        assert UpdaterOk(s, own, u);
      }
    }
  }

  /**
   What a pass reports is the value that was published when it ran rcu_dereference, NULL
   included: publication number `i`, the latest at that moment.
   */
  lemma ReadersSeeAPublication(readers: nat, updaters: nat, schedule: seq<Action>, r: Rid)
    requires var s := Execute(Init(readers, updaters), schedule);
             r < |s.readers| && s.readers[r].Read?
    ensures var s := Execute(Init(readers, updaters), schedule);
            s.readers[r].i < |s.log| && s.readers[r].val == s.log[s.readers[r].i]
  {
    var own := Invariant(readers, updaters, schedule);
    assert ReaderOk(Execute(Init(readers, updaters), schedule), own, r);
  }

  predicate HasIndex(r: Reader) {
    r.Loaded? || r.Read?
  }

  /** A reader gets its index when it runs rcu_dereference, and keeps it to the end of the pass. */
  lemma IndexStep(s: State, a: Action, r: Rid)
    requires r < |s.readers| == |s.sections| && |s.log| > 0
    ensures var t := Step(s, a);
            && r < |t.readers| == |t.sections|
            && (HasIndex(t.readers[r]) ==>
                  && t.sections[r] == s.sections[r]
                  && (|| (HasIndex(s.readers[r]) && s.readers[r].i == t.readers[r].i)
                      || (a == ReaderStep(r) && s.readers[r].Entered? && t.readers[r].i == |s.log| - 1)))
  {
  }

  /** At step m of the schedule reader r runs rcu_dereference, in its present section, with i the latest. */
  ghost predicate LoadsAt(s: State, schedule: seq<Action>, m: nat, r: Rid, i: nat)
    requires r < |s.readers| == |s.sections|
  {
    && m < |schedule| && schedule[m] == ReaderStep(r)
    && var t := Execute(s, schedule[..m]);
       && t.readers[r].Entered? && |t.log| == i + 1
       && t.sections[r] == Execute(s, schedule).sections[r]
  }

  lemma {:induction false} LoadExists(readers: nat, updaters: nat, schedule: seq<Action>, r: Rid) returns (m: nat)
    requires r < readers && HasIndex(Execute(Init(readers, updaters), schedule).readers[r])
    ensures LoadsAt(Init(readers, updaters), schedule, m, r, Execute(Init(readers, updaters), schedule).readers[r].i)
    decreases |schedule|
  {
    var n := |schedule| - 1;
    assert schedule != [];
    var before := schedule[..n];
    var s := Execute(Init(readers, updaters), before);
    var own := Invariant(readers, updaters, before);
    IndexStep(s, schedule[n], r);
    if HasIndex(s.readers[r]) && s.readers[r].i == Step(s, schedule[n]).readers[r].i {
      m := LoadExists(readers, updaters, before, r);
      assert schedule[..m] == before[..m];
    } else {
      m := n;
    }
  }

  lemma {:induction false} LogGrows(s: State, schedule: seq<Action>, m: nat)
    requires |s.readers| == |s.sections| && m <= |schedule|
    ensures Execute(s, schedule[..m]).log <= Execute(s, schedule).log
    decreases |schedule|
  {
    if m < |schedule| {
      var before := schedule[..|schedule|-1];
      LogGrows(s, before, m);
      assert before[..m] == schedule[..m];
      LogStep(Execute(s, before), schedule[|schedule|-1]);
    } else {
      assert schedule[..m] == schedule;
    }
  }

  lemma LogStep(s: State, a: Action)
    requires |s.readers| == |s.sections|
    ensures s.log <= Step(s, a).log
  {
  }

  /**
   The value a pass reports was the one published, NULL included, at the step of the run in
   which that pass ran rcu_dereference: the last entry of the log at that moment.
   */
  lemma ReadersSeeTheLatest(readers: nat, updaters: nat, schedule: seq<Action>, r: Rid) returns (m: nat)
    requires r < readers && Execute(Init(readers, updaters), schedule).readers[r].Read?
    ensures var s := Execute(Init(readers, updaters), schedule);
            && LoadsAt(Init(readers, updaters), schedule, m, r, s.readers[r].i)
            && var log := Execute(Init(readers, updaters), schedule[..m]).log;
               log != [] && s.readers[r].val == log[|log|-1]
  {
    m := LoadExists(readers, updaters, schedule, r);
    LogGrows(Init(readers, updaters), schedule, m);
    ReadersSeeAPublication(readers, updaters, schedule, r);
  }

  /** Every allocated cell has exactly one of the four roles, and nothing else has any. */
  lemma OwnershipIsExact(readers: nat, updaters: nat, schedule: seq<Action>, c: Cell)
    ensures var s := Execute(Init(readers, updaters), schedule);
            && (c < |s.heap| ==> exists role :: HasRole(s, c, role))
            && forall role1, role2 :: HasRole(s, c, role1) && HasRole(s, c, role2) ==>
                 c < |s.heap| && role1 == role2
  {
    var own := Invariant(readers, updaters, schedule);
    var s := Execute(Init(readers, updaters), schedule);
    if c < |own| {
      assert CellOk(s, own, c);
    }
    forall role | HasRole(s, c, role) ensures c < |own| && role == own[c] {
      match role
      case Private(u) => assert UpdaterOk(s, own, u);
      case Held(u) => assert UpdaterOk(s, own, u);
      case Published =>
      case Dead => assert CellOk(s, own, c);
    }
  }

  /** The cells kmalloc gave out and kfree has not taken back. */
  ghost function Live(s: State): set<Cell> {
    set c: Cell | 0 <= c < |s.heap| && !s.heap[c].Freed?
  }

  ghost function FreedCells(s: State): set<Cell> {
    set c: Cell | 0 <= c < |s.heap| && s.heap[c].Freed?
  }

  /** A step frees the cell of an updater past its grace period, and no other. */
  lemma FreedCell(s: State, own: seq<Role>, a: Action, c: Cell)
    requires |s.readers| == |s.sections| && c < |own| == |s.heap| && CellOk(s, own, c)
    requires a.UpdaterStep? && a.u < |s.updaters| ==> UpdaterOk(s, own, a.u)
    ensures c < |Step(s, a).heap|
    ensures Step(s, a).heap[c].Freed? <==>
            s.heap[c].Freed? || (a.UpdaterStep? && a.u < |s.updaters| && s.updaters[a.u] == Reclaim(c))
  {
  }

  lemma FreesOne(s: State, a: Action)
    requires |s.readers| == |s.sections|
    ensures var frees := a.UpdaterStep? && a.u < |s.updaters| && s.updaters[a.u].Reclaim?;
            Step(s, a).frees == s.frees + if frees then 1 else 0
    ensures forall c: Cell :: |s.heap| <= c < |Step(s, a).heap| ==> !Step(s, a).heap[c].Freed?
  {
  }

  lemma FreedStep(s: State, own: seq<Role>, a: Action)
    requires Inv(s, own) && s.frees == |FreedCells(s)|
    ensures Step(s, a).frees == |FreedCells(Step(s, a))|
  {
    var s' := Step(s, a);
    FreesOne(s, a);
    assert a.UpdaterStep? && a.u < |s.updaters| ==> UpdaterOk(s, own, a.u);
    forall c: Cell | c < |s.heap|
      ensures c < |s'.heap|
      ensures c in FreedCells(s') <==>
              c in FreedCells(s) || (a.UpdaterStep? && a.u < |s.updaters| && s.updaters[a.u] == Reclaim(c))
    {
      assert CellOk(s, own, c);
      FreedCell(s, own, a, c);
    }
    if a.UpdaterStep? && a.u < |s.updaters| && s.updaters[a.u].Reclaim? {
      var c := s.updaters[a.u].c;
      assert CellOk(s, own, c);
      assert FreedCells(s') == FreedCells(s) + {c};
    } else {
      assert FreedCells(s') == FreedCells(s);
    }
  }

  lemma {:induction false} FreesAreCounted(readers: nat, updaters: nat, schedule: seq<Action>)
    ensures var s := Execute(Init(readers, updaters), schedule); s.frees == |FreedCells(s)|
    decreases |schedule|
  {
    if schedule == [] {
      assert FreedCells(Init(readers, updaters)) == {};
    } else {
      var before := schedule[..|schedule|-1];
      FreesAreCounted(readers, updaters, before);
      var own := Invariant(readers, updaters, before);
      FreedStep(Execute(Init(readers, updaters), before), own, schedule[|schedule|-1]);
    }
  }

  /** Allocations equal frees plus live cells, at every moment. */
  lemma AllocationsBalance(readers: nat, updaters: nat, schedule: seq<Action>)
    ensures var s := Execute(Init(readers, updaters), schedule); |s.heap| == s.frees + |Live(s)|
  {
    var s := Execute(Init(readers, updaters), schedule);
    FreesAreCounted(readers, updaters, schedule);
    assert UpTo(|s.heap|) == FreedCells(s) + Live(s);
  }

  predicate NoUpdate(s: State) {
    forall u :: 0 <= u < |s.updaters| ==> s.updaters[u].Idle?
  }

  /**
   Whenever no update is under way, what is live is exactly what is published: one cell,
   or nothing at all after an exit.
   */
  lemma NothingElseIsLive(readers: nat, updaters: nat, schedule: seq<Action>)
    requires NoUpdate(Execute(Init(readers, updaters), schedule))
    ensures var s := Execute(Init(readers, updaters), schedule);
            Live(s) == if s.shared.Some? then {s.shared.value} else {}
  {
    var own := Invariant(readers, updaters, schedule);
    var s := Execute(Init(readers, updaters), schedule);
    forall c: Cell | c < |s.heap| ensures s.heap[c].Freed? || s.shared == Some(c) {
      assert CellOk(s, own, c);
    }
  }

  /** The cell is no longer published, and is waiting for its kfree or past it. */
  predicate Retired(s: State, c: Cell) {
    && c < |s.heap|
    && (s.heap[c].Freed? || exists u :: 0 <= u < |s.updaters| && OldOf(s.updaters[u]) == Some(c))
  }

  /** An updater keeps the cell it has unpublished until it frees it. */
  lemma OldCell(s: State, own: seq<Role>, a: Action, c: Cell, u: Uid)
    requires |s.readers| == |s.sections| && c < |own| == |s.heap|
    requires u < |s.updaters| && OldOf(s.updaters[u]) == Some(c)
    ensures c < |Step(s, a).heap| && u < |Step(s, a).updaters|
    ensures Step(s, a).heap[c].Freed? || OldOf(Step(s, a).updaters[u]) == Some(c)
  {
  }

  lemma RetiredStep(s: State, own: seq<Role>, c: Cell, a: Action)
    requires Inv(s, own) && Retired(s, c)
    ensures Retired(Step(s, a), c)
  {
    if s.heap[c].Freed? {
      assert CellOk(s, own, c);
      assert a.UpdaterStep? && a.u < |s.updaters| ==> UpdaterOk(s, own, a.u);
      FreedCell(s, own, a, c);
    } else {
      var u :| 0 <= u < |s.updaters| && OldOf(s.updaters[u]) == Some(c);
      OldCell(s, own, a, c, u);
    }
  }

  lemma NotPublished(s: State, own: seq<Role>, c: Cell)
    requires Inv(s, own) && Retired(s, c)
    ensures s.shared != Some(c)
  {
    if !s.heap[c].Freed? {
      var u :| 0 <= u < |s.updaters| && OldOf(s.updaters[u]) == Some(c);
      assert UpdaterOk(s, own, u);
    }
  }

  /**
   A retired cell is never published again: in no later state can a reader entering its
   section, or any other reader, fetch it.
   */
  lemma {:induction false} RetiredForGood(readers: nat, updaters: nat, schedule: seq<Action>,
                                          more: seq<Action>, c: Cell)
    requires Retired(Execute(Init(readers, updaters), schedule), c)
    ensures var s := Execute(Init(readers, updaters), schedule + more);
            Retired(s, c) && s.shared != Some(c)
    decreases |more|
  {
    var own := Invariant(readers, updaters, schedule + more);
    var s := Execute(Init(readers, updaters), schedule + more);
    if more == [] {
      assert schedule + more == schedule;
    } else {
      var before := more[..|more|-1];
      RetiredForGood(readers, updaters, schedule, before, c);
      assert (schedule + more)[..|schedule + more|-1] == schedule + before;
      var own1 := Invariant(readers, updaters, schedule + before);
      RetiredStep(Execute(Init(readers, updaters), schedule + before), own1, c, more[|more|-1]);
    }
    NotPublished(s, own, c);
  }

  // Who waits for whom.

  /** How many steps a schedule gives reader r. */
  function StepsOf(schedule: seq<Action>, r: Rid): nat
    decreases |schedule|
  {
    if schedule == [] then 0 else
    StepsOf(schedule[..|schedule|-1], r) + if schedule[|schedule|-1] == ReaderStep(r) then 1 else 0
  }

  /** The steps a reader needs to leave its section. */
  function Left(pc: Reader): nat {
    match pc
    case Outside => 0
    case Entered => 3
    case Loaded(_, _) => 2
    case Read(_, _) => 1
  }

  lemma ReaderMoves(s: State, own: seq<Role>, r: Rid)
    requires |s.readers| == |s.sections| && |own| == |s.heap| && r < |s.readers| && ReaderOk(s, own, r)
    ensures var t := StepReader(s, r);
            |t.readers| == |t.sections| == |s.readers| && 4 * t.sections[r] - Left(t.readers[r])
                                                       == 4 * s.sections[r] - Left(s.readers[r]) + 1
            && t.updaters == s.updaters && (Inside(s.readers[r]) ==> Left(t.readers[r]) < Left(s.readers[r]))
  {
  }

  /**
   Readers never wait: in every interleaving every fourth step of a reader ends a section,
   whatever the updaters and the other readers do in between.
   */
  lemma {:induction false} ReadersNeverWait(readers: nat, updaters: nat, schedule: seq<Action>, r: Rid)
    requires r < readers
    ensures var s := Execute(Init(readers, updaters), schedule);
            |s.readers| == |s.sections| == readers
            && StepsOf(schedule, r) == 4 * s.sections[r] - Left(s.readers[r])
    decreases |schedule|
  {
    if schedule != [] {
      var before, a := schedule[..|schedule|-1], schedule[|schedule|-1];
      ReadersNeverWait(readers, updaters, before, r);
      var s := Execute(Init(readers, updaters), before);
      if a == ReaderStep(r) {
        var own := Invariant(readers, updaters, before);
        ReaderMoves(s, own, r);
      } else {
        OtherSteps(s, a, r);
      }
    }
  }

  lemma OtherSteps(s: State, a: Action, r: Rid)
    requires |s.readers| == |s.sections| && r < |s.readers| && a != ReaderStep(r)
    ensures var t := Step(s, a);
            |t.readers| == |t.sections| == |s.readers|
            && t.readers[r] == s.readers[r] && t.sections[r] == s.sections[r]
  {
  }

  /** The steps updater u has left. */
  function Distance(pc: Updater): nat {
    match pc
    case Idle => 0
    case Reclaim(_) => 1
    case Grace(_, _) => 2
    case Unlocked(_) => 3
    case Swapped(_) => 4
    case Fetched(_, _) => 5
    case Locked(_) => 6
    case Ready(_) => 7
    case Allocated(_, _) => 8
  }

  lemma {:induction false} LockHasAHolder(readers: nat, updaters: nat, schedule: seq<Action>)
    ensures var s := Execute(Init(readers, updaters), schedule); s.lock.Some? ==> s.lock.value < updaters
    decreases |schedule|
  {
    if schedule != [] { LockHasAHolder(readers, updaters, schedule[..|schedule|-1]); }
  }

  lemma MovesUnlessWaiting(s: State, u: Uid)
    requires |s.readers| == |s.sections| && u < |s.updaters| && !s.updaters[u].Idle?
    requires s.updaters[u].Allocated? ==> s.updaters[u].new_p < |s.heap|
    ensures var t, pc := StepUpdater(s, u), s.updaters[u];
            if (pc.Ready? && s.lock.Some?) || (pc.Grace? && !GraceOver(s, pc.inside)) then t == s
            else |t.updaters| == |s.updaters| && Distance(t.updaters[u]) < Distance(pc)
  {
  }

  /** The lock is taken exactly when some other updater is past it. */
  lemma LockTaken(readers: nat, updaters: nat, schedule: seq<Action>, u: Uid)
    requires u < updaters && !InCritical(Execute(Init(readers, updaters), schedule).updaters[u])
    ensures var s := Execute(Init(readers, updaters), schedule);
            s.lock.Some? <==> exists w: Uid :: w < updaters && w != u && InCritical(s.updaters[w])
  {
    var s := Execute(Init(readers, updaters), schedule);
    var own := Invariant(readers, updaters, schedule);
    LockHasAHolder(readers, updaters, schedule);
    assert s.lock.Some? ==> UpdaterOk(s, own, s.lock.value);
    forall w: Uid | w < updaters && InCritical(s.updaters[w]) ensures s.lock == Some(w) {
      assert UpdaterOk(s, own, w);
    }
    assert UpdaterOk(s, own, u);
  }

  /**
   An updater waits exactly for the one that holds the lock, or while a reader is still in
   the section it was in when the grace period began; otherwise its step brings it nearer to
   its end. One that holds the lock never waits, nor does a reader: there is no deadlock.
   */
  lemma UpdaterWaitsExactly(readers: nat, updaters: nat, schedule: seq<Action>, u: Uid)
    requires u < updaters && !Execute(Init(readers, updaters), schedule).updaters[u].Idle?
    ensures var s := Execute(Init(readers, updaters), schedule);
            var t, pc := Step(s, UpdaterStep(u)), s.updaters[u];
            var waits :=
              || (pc.Ready? && exists w: Uid :: w < updaters && w != u && InCritical(s.updaters[w]))
              || (pc.Grace? && exists r: Rid :: r in pc.inside && r < readers && !s.readers[r].Outside?
                                                && s.sections[r] == pc.inside[r]);
            if waits then t == s else |t.updaters| == updaters && Distance(t.updaters[u]) < Distance(pc)
  {
    var s := Execute(Init(readers, updaters), schedule);
    var own := Invariant(readers, updaters, schedule);
    assert UpdaterOk(s, own, u);
    MovesUnlessWaiting(s, u);
    if s.updaters[u].Ready? { LockTaken(readers, updaters, schedule, u); }
    if s.updaters[u].Grace? {
      var inside := s.updaters[u].inside;
      assert forall r: Rid :: StillInside(s, inside, r) <==>
               r in inside && r < readers && !s.readers[r].Outside? && s.sections[r] == inside[r];
    }
  }

  // Values are published and read as they were passed to update_data.

  predicate Given(schedule: seq<Action>, v: int) {
    exists k :: 0 <= k < |schedule| && schedule[k].BeginUpdate? && schedule[k].v == v && schedule[k].kmallocWorks
  }

  ghost predicate AllGiven(s: State, schedule: seq<Action>) {
    && (forall u :: 0 <= u < |s.updaters| && s.updaters[u].Allocated? ==> Given(schedule, s.updaters[u].v))
    && (forall c :: 0 <= c < |s.heap| && s.heap[c].Value? ==> Given(schedule, s.heap[c].v))
    && (forall i :: 0 <= i < |s.log| && s.log[i].Some? ==> Given(schedule, s.log[i].value))
  }

  lemma GivenMore(before: seq<Action>, a: Action, v: int)
    requires Given(before, v) || (a.BeginUpdate? && a.v == v && a.kmallocWorks)
    ensures Given(before + [a], v)
  {
    if Given(before, v) {
      var k :| 0 <= k < |before| && before[k].BeginUpdate? && before[k].v == v && before[k].kmallocWorks;
      assert (before + [a])[k] == before[k];
    } else {
      assert (before + [a])[|before|] == a;
    }
  }

  lemma AllGivenMore(s: State, before: seq<Action>, a: Action)
    requires AllGiven(s, before)
    ensures AllGiven(s, before + [a])
  {
    forall v | Given(before, v) ensures Given(before + [a], v) { GivenMore(before, a, v); }
  }

  lemma AllGivenStep(s: State, before: seq<Action>, a: Action)
    requires |s.readers| == |s.sections| && AllGiven(s, before + [a])
    requires a.BeginUpdate? && a.kmallocWorks ==> Given(before + [a], a.v)
    ensures AllGiven(Step(s, a), before + [a])
  {
  }

  lemma {:induction false} PublishedWasGiven(readers: nat, updaters: nat, schedule: seq<Action>)
    ensures AllGiven(Execute(Init(readers, updaters), schedule), schedule)
    decreases |schedule|
  {
    if schedule != [] {
      var before, a := schedule[..|schedule|-1], schedule[|schedule|-1];
      assert before + [a] == schedule;
      PublishedWasGiven(readers, updaters, before);
      AllGivenMore(Execute(Init(readers, updaters), before), before, a);
      if a.BeginUpdate? && a.kmallocWorks { GivenMore(before, a, a.v); }
      AllGivenStep(Execute(Init(readers, updaters), before), before, a);
    }
  }

  /** A value that a reader holds, in any interleaving, was the argument of an update_data whose kmalloc worked. */
  lemma ReadersSeeGivenValues(readers: nat, updaters: nat, schedule: seq<Action>, r: Rid)
    requires var s := Execute(Init(readers, updaters), schedule);
             r < |s.readers| && s.readers[r].Read? && s.readers[r].val.Some?
    ensures var v := Execute(Init(readers, updaters), schedule).readers[r].val.value;
            exists k :: 0 <= k < |schedule| && schedule[k].BeginUpdate? && schedule[k].v == v
                        && schedule[k].kmallocWorks
  {
    ReadersSeeAPublication(readers, updaters, schedule, r);
    PublishedWasGiven(readers, updaters, schedule);
    assert Given(schedule, Execute(Init(readers, updaters), schedule).readers[r].val.value);
  }

  // The module itself: init and exit run on one thread, updater 0, beside reader 0.

  datatype Phase =
    | Start         // before line 68
    | FirstUpdate   // in update_data(42)
    | Spawned       // kthread_run succeeded
    | SpawnFailed   // line 72: init returned the error
    | SecondUpdate  // in update_data(100)
    | Installed     // init returned 0
    | Exiting       // past kthread_stop
    | Unloaded

  datatype Module = Module(rcu: State, phase: Phase, readerRuns: bool)

  /** The main thread enters its next call, or one of the threads takes a step. */
  datatype Event = Main(works: bool) | UpdaterRuns | ReaderRuns

  function Loading(): Module {
    Module(Init(1, 1), Start, false)
  }

  /** `works` is the outcome of kmalloc or kthread_run, where the call made has one. */
  function MainStep(m: Module, works: bool): Module
    requires |m.rcu.updaters| == |m.rcu.readers| == |m.rcu.sections| == 1
  {
    if !m.rcu.updaters[0].Idle? then m else
    match m.phase
    case Start => m.(rcu := Step(m.rcu, BeginUpdate(0, 42, works)), phase := FirstUpdate)
    case FirstUpdate => m.(phase := if works then Spawned else SpawnFailed, readerRuns := works)
    case Spawned => m.(rcu := Step(m.rcu, BeginUpdate(0, 100, works)), phase := SecondUpdate)
    case SecondUpdate => m.(phase := Installed)
    case Installed =>
      if m.rcu.readers[0].Outside?
      then m.(rcu := Step(m.rcu, BeginExit(0)), phase := Exiting, readerRuns := false) else m
    case Exiting => m.(phase := Unloaded)
    case SpawnFailed | Unloaded => m
  }

  function ModuleStep(m: Module, e: Event): Module
    requires |m.rcu.updaters| == |m.rcu.readers| == |m.rcu.sections| == 1
  {
    match e
    case Main(works) => MainStep(m, works)
    case UpdaterRuns => m.(rcu := Step(m.rcu, UpdaterStep(0)))
    case ReaderRuns => if m.readerRuns then m.(rcu := Step(m.rcu, ReaderStep(0))) else m
  }

  function ModuleRun(events: seq<Event>): (m: Module)
    ensures |m.rcu.updaters| == |m.rcu.readers| == |m.rcu.sections| == 1
    decreases |events|
  {
    if events == [] then Loading() else ModuleStep(ModuleRun(events[..|events|-1]), events[|events|-1])
  }

  /** Once the exit has begun, the pointer it carries is NULL and then the shared one is. */
  predicate PhaseOk(m: Module)
    requires |m.rcu.updaters| == 1
  {
    var pc := m.rcu.updaters[0];
    match m.phase
    case Start => m.rcu.shared.None? && pc.Idle? && |m.rcu.heap| == 0
    case FirstUpdate =>
      if pc.Idle? then |m.rcu.heap| <= 1 && m.rcu.shared.Some? == (|m.rcu.heap| == 1) else
      && |m.rcu.heap| == 1
      && m.rcu.shared.Some? == pc.Swapped?
      && (match pc
          case Allocated(_, _) => true
          case Swapped(p) => p.None?
          case Fetched(_, seen) => NewOf(pc).Some? && seen.None?
          case _ => NewOf(pc).Some?)
    case SpawnFailed => pc.Idle? && |m.rcu.heap| <= 1 && m.rcu.shared.Some? == (|m.rcu.heap| == 1)
    case Exiting =>
      && NewOf(pc).None?
      && (pc.Ready? || pc.Locked? || pc.Fetched? || m.rcu.shared.None?)
    case Unloaded => pc.Idle? && m.rcu.shared.None?
    case _ => true
  }

  predicate Single(m: Module) {
    |m.rcu.updaters| == |m.rcu.readers| == |m.rcu.sections| == 1
  }

  lemma PhaseReader(m: Module)
    requires Single(m) && PhaseOk(m)
    ensures PhaseOk(ModuleStep(m, ReaderRuns))
  {
  }

  lemma PhaseUpdater(m: Module)
    requires Single(m) && PhaseOk(m)
    ensures PhaseOk(ModuleStep(m, UpdaterRuns))
  {
  }

  lemma PhaseMain(m: Module, works: bool)
    requires Single(m) && PhaseOk(m)
    ensures PhaseOk(ModuleStep(m, Main(works)))
  {
  }

  /** The action of the general system behind an event of the module, if there is one. */
  lemma ActionOf(m: Module, e: Event) returns (actions: seq<Action>)
    requires Single(m)
    ensures |actions| <= 1
    ensures ModuleStep(m, e).rcu == (if actions == [] then m.rcu else Step(m.rcu, actions[0]))
  {
    match e
    case UpdaterRuns => actions := [UpdaterStep(0)];
    case ReaderRuns => actions := if m.readerRuns then [ReaderStep(0)] else [];
    case Main(works) =>
      actions := if !m.rcu.updaters[0].Idle? then [] else match m.phase
        case Start => [BeginUpdate(0, 42, works)]
        case Spawned => [BeginUpdate(0, 100, works)]
        case Installed => if m.rcu.readers[0].Outside? then [BeginExit(0)] else []
        case _ => [];
  }

  /** A run of the module is a run of the general system, with the phases in order. */
  lemma {:induction false} ModuleIsARun(events: seq<Event>) returns (schedule: seq<Action>)
    ensures ModuleRun(events).rcu == Execute(Init(1, 1), schedule)
    ensures PhaseOk(ModuleRun(events))
    decreases |events|
  {
    schedule := [];
    if events != [] {
      schedule := ModuleIsARun(events[..|events|-1]);
      var m, e := ModuleRun(events[..|events|-1]), events[|events|-1];
      match e {
        case UpdaterRuns => PhaseUpdater(m);
        case ReaderRuns => PhaseReader(m);
        case Main(works) => PhaseMain(m, works);
      }
      var actions := ActionOf(m, e);
      if actions != [] {
        assert (schedule + actions)[..|schedule|] == schedule;
        schedule := schedule + actions;
      }
    }
  }

  /** What the call made from the given phase came to, kmalloc or kthread_run; false before it. */
  predicate Worked(events: seq<Event>, phase: Phase)
    decreases |events|
  {
    if events == [] then false else
    var before := events[..|events|-1];
    if ModuleRun(before).phase == phase && events[|events|-1].Main? then events[|events|-1].works
    else Worked(before, phase)
  }

  predicate FirstCell(m: Module, worked: bool) {
    && (m.phase.Start? ==> |m.rcu.heap| == 0 && |m.rcu.updaters| == 1 && m.rcu.updaters[0].Idle?)
    && (m.phase.FirstUpdate? || m.phase.SpawnFailed? ==> |m.rcu.heap| == if worked then 1 else 0)
  }

  lemma FirstCellStep(m: Module, e: Event, worked: bool)
    requires Single(m) && PhaseOk(m) && FirstCell(m, worked)
    ensures FirstCell(ModuleStep(m, e), if m.phase.Start? && e.Main? then e.works else worked)
  {
  }

  /** Until the thread is started there is a cell if and only if the first kmalloc worked. */
  lemma {:induction false} FirstCellIs(events: seq<Event>)
    ensures FirstCell(ModuleRun(events), Worked(events, Start))
    decreases |events|
  {
    if events != [] {
      var before := events[..|events|-1];
      FirstCellIs(before);
      var _ := ModuleIsARun(before);
      FirstCellStep(ModuleRun(before), events[|events|-1], Worked(before, Start));
    }
  }

  /**
   Init followed by exit leaves nothing live and frees each cell once, whichever of its
   kmallocs failed. An init whose thread could not start returns with its cell published
   and live if and only if the first kmalloc worked.
   */
  lemma ModuleLeaves(events: seq<Event>)
    ensures var m := ModuleRun(events);
            && m.rcu.faults == {}
            && (m.phase.Unloaded? ==> Live(m.rcu) == {} && m.rcu.frees == |m.rcu.heap|)
            && (m.phase.SpawnFailed? ==> Live(m.rcu) == (if Worked(events, Start) then {0} else {})
                                         && m.rcu.shared == (if Worked(events, Start) then Some(0) else None)
                                         && m.rcu.frees == 0)
  {
    var m := ModuleRun(events);
    var schedule := ModuleIsARun(events);
    ReadersAreSafe(1, 1, schedule, 0, 0);
    AllocationsBalance(1, 1, schedule);
    FirstCellIs(events);
    if m.phase.Unloaded? || m.phase.SpawnFailed? {
      NothingElseIsLive(1, 1, schedule);
      var own := Invariant(1, 1, schedule);
    }
  }

  /** What the log will be when the call that the updater is in has returned. */
  function Upcoming(s: State): seq<Option<int>>
    requires |s.updaters| == 1
  {
    match s.updaters[0]
    case Allocated(_, v) => s.log + [Some(v)]
    case Ready(p) => s.log + [ValueAt(s, p)]
    case Locked(p) => s.log + [ValueAt(s, p)]
    case Fetched(p, _) => s.log + [ValueAt(s, p)]
    case _ => s.log
  }

  function ValueAt(s: State, p: Option<Cell>): Option<int> {
    if p.Some? && p.value < |s.heap| && s.heap[p.value].Value? then Some(s.heap[p.value].v) else None
  }

  /** What the calls of the main thread so far come to: each publishes once, in their order. */
  predicate Publishes(m: Module, first: bool, second: bool)
    requires |m.rcu.updaters| == 1
  {
    var one := [None] + if first then [Some(42)] else [];
    var two := one + if second then [Some(100)] else [];
    match m.phase
    case Start => Upcoming(m.rcu) == [None] && m.rcu.updaters[0].Idle?
    case FirstUpdate | SpawnFailed => Upcoming(m.rcu) == one
    case Spawned => Upcoming(m.rcu) == one && m.rcu.updaters[0].Idle?
    case SecondUpdate => Upcoming(m.rcu) == two
    case Installed => Upcoming(m.rcu) == two && m.rcu.updaters[0].Idle?
    case Exiting => Upcoming(m.rcu) == two + [None]
    case Unloaded => Upcoming(m.rcu) == two + [None] && m.rcu.updaters[0].Idle?
  }

  lemma UpcomingKept(s: State, a: Action)
    requires |s.updaters| == 1 && |s.readers| == |s.sections| && (a.UpdaterStep? || a.ReaderStep?)
    ensures |Step(s, a).updaters| == 1 && Upcoming(Step(s, a)) == Upcoming(s)
  {
  }

  lemma PublishesStep(m: Module, e: Event, first: bool, second: bool)
    requires Single(m) && Publishes(m, first, second)
    ensures Publishes(ModuleStep(m, e),
                      if m.phase.Start? && e.Main? then e.works else first,
                      if m.phase.Spawned? && e.Main? then e.works else second)
  {
    match e
    case UpdaterRuns => UpcomingKept(m.rcu, UpdaterStep(0));
    case ReaderRuns => UpcomingKept(m.rcu, ReaderStep(0));
    case Main(works) =>
  }

  lemma {:induction false} PublishesAlways(events: seq<Event>)
    ensures Publishes(ModuleRun(events), Worked(events, Start), Worked(events, Spawned))
    decreases |events|
  {
    if events != [] {
      var before := events[..|events|-1];
      PublishesAlways(before);
      PublishesStep(ModuleRun(before), events[|events|-1], Worked(before, Start), Worked(before, Spawned));
    }
  }

  /**
   What the module publishes: once init has returned 0 that is 42 and then 100, each if its
   kmalloc worked, and once it is unloaded NULL after them; nothing else, in any interleaving.
   */
  lemma ModulePublishes(events: seq<Event>)
    ensures var m, first, second := ModuleRun(events), Worked(events, Start), Worked(events, Spawned);
            var values := (if first then [Some(42)] else []) + (if second then [Some(100)] else []);
            && (m.phase.Installed? ==> m.rcu.log == [None] + values)
            && (m.phase.Unloaded? ==> m.rcu.log == [None] + values + [None])
  {
    PublishesAlways(events);
    var first, second := Worked(events, Start), Worked(events, Spawned);
    assert [None] + (if first then [Some(42)] else []) + (if second then [Some(100)] else [])
        == [None] + ((if first then [Some(42)] else []) + (if second then [Some(100)] else []));
  }

  lemma RunOne(before: seq<Event>, e: Event)
    ensures ModuleRun(before + [e]) == ModuleStep(ModuleRun(before), e)
  {
    assert (before + [e])[..|before|] == before;
  }

  /** While its thread does not run the reader is outside its sections. */
  predicate Stopped(m: Module)
    requires Single(m)
  {
    (m.phase.Start? || m.phase.FirstUpdate? ==> !m.readerRuns) && (!m.readerRuns ==> m.rcu.readers[0].Outside?)
  }

  lemma StoppedStep(m: Module, e: Event)
    requires Single(m) && Stopped(m)
    ensures Stopped(ModuleStep(m, e))
  {
  }

  lemma {:induction false} StoppedOutside(events: seq<Event>)
    ensures Stopped(ModuleRun(events))
    decreases |events|
  {
    if events != [] {
      StoppedOutside(events[..|events|-1]);
      StoppedStep(ModuleRun(events[..|events|-1]), events[|events|-1]);
    }
  }

  function Remaining(phase: Phase): nat {
    match phase
    case Start => 6
    case FirstUpdate => 5
    case Spawned => 4
    case SecondUpdate => 3
    case Installed => 2
    case Exiting => 1
    case _ => 0
  }

  /** The next event of a run in which everybody gets on. */
  function NextEvent(m: Module): Event
    requires Single(m)
  {
    var pc := m.rcu.updaters[0];
    if pc.Idle? then (if m.phase.Installed? && !m.rcu.readers[0].Outside? then ReaderRuns else Main(true))
    else if pc.Grace? && !GraceOver(m.rcu, pc.inside) then ReaderRuns
    else UpdaterRuns
  }

  /** The reader that the updater waits for is there. */
  lemma WaitsForReader(s: State, inside: map<Rid, nat>)
    requires |s.readers| == |s.sections| == 1 && !GraceOver(s, inside)
    ensures Inside(s.readers[0])
  {
    var r :| r in inside && StillInside(s, inside, r);
    assert r == 0;
  }

  lemma NextEventMoves(m: Module, own: seq<Role>)
    requires Single(m) && Stopped(m) && Inv(m.rcu, own) && Remaining(m.phase) > 0
    requires m.rcu.updaters[0].Ready? ==> m.rcu.lock.None?
    ensures var t := ModuleStep(m, NextEvent(m));
            || Remaining(t.phase) < Remaining(m.phase)
            || (t.phase == m.phase && Distance(t.rcu.updaters[0]) < Distance(m.rcu.updaters[0]))
            || (t.phase == m.phase && t.rcu.updaters == m.rcu.updaters
                && Left(t.rcu.readers[0]) < Left(m.rcu.readers[0]))
  {
    var pc := m.rcu.updaters[0];
    assert UpdaterOk(m.rcu, own, 0) && ReaderOk(m.rcu, own, 0);
    ReaderMoves(m.rcu, own, 0);
    if !pc.Idle? {
      if pc.Grace? && !GraceOver(m.rcu, pc.inside) { WaitsForReader(m.rcu, pc.inside); }
      MovesUnlessWaiting(m.rcu, 0);
    }
  }

  /** It brings the module nearer to its end. */
  lemma NextEventHelps(events: seq<Event>)
    requires Remaining(ModuleRun(events).phase) > 0
    ensures var m := ModuleRun(events); var t := ModuleStep(m, NextEvent(m));
            || Remaining(t.phase) < Remaining(m.phase)
            || (t.phase == m.phase && Distance(t.rcu.updaters[0]) < Distance(m.rcu.updaters[0]))
            || (t.phase == m.phase && t.rcu.updaters == m.rcu.updaters
                && Left(t.rcu.readers[0]) < Left(m.rcu.readers[0]))
  {
    var m := ModuleRun(events);
    var schedule := ModuleIsARun(events);
    var own := Invariant(1, 1, schedule);
    StoppedOutside(events);
    if m.rcu.updaters[0].Ready? { LockTaken(1, 1, schedule, 0); }
    NextEventMoves(m, own);
  }

  /** From every moment on the module can be unloaded, unless its thread failed to start. */
  lemma {:induction false} ModuleCanEnd(events: seq<Event>) returns (longer: seq<Event>)
    ensures events <= longer
    ensures ModuleRun(longer).phase.Unloaded? || ModuleRun(longer).phase.SpawnFailed?
    decreases Remaining(ModuleRun(events).phase), Distance(ModuleRun(events).rcu.updaters[0]),
              Left(ModuleRun(events).rcu.readers[0])
  {
    longer := events;
    var m := ModuleRun(events);
    if Remaining(m.phase) > 0 {
      NextEventHelps(events);
      RunOne(events, NextEvent(m));
      longer := ModuleCanEnd(events + [NextEvent(m)]);
    }
  }

  /** The updater of the module stands at pc, its one cell holding `cell`. */
  predicate FirstAt(m: Module, pc: Updater, cell: Content) {
    && Single(m) && m.phase.FirstUpdate? && m.rcu.updaters == [pc] && m.rcu.heap == [cell]
    && m.rcu.lock == (if InCritical(pc) then Some(0) else None)
  }

  /** A run in which the thread fails to start and one cell stays live. */
  lemma SpawnCanLeak() returns (events: seq<Event>)
    ensures ModuleRun(events).phase.SpawnFailed? && Live(ModuleRun(events).rcu) == {0}
  {
    RunOne([], Main(true));
    events := [] + [Main(true)];
    assert FirstAt(ModuleRun(events), Allocated(0, 42), Garbage);
    RunOne(events, UpdaterRuns);
    events := events + [UpdaterRuns];
    assert FirstAt(ModuleRun(events), Ready(Some(0)), Value(42));
    RunOne(events, UpdaterRuns);
    events := events + [UpdaterRuns];
    assert FirstAt(ModuleRun(events), Locked(Some(0)), Value(42));
    RunOne(events, UpdaterRuns);
    events := events + [UpdaterRuns];
    assert FirstAt(ModuleRun(events), Fetched(Some(0), None), Value(42));
    RunOne(events, UpdaterRuns);
    events := events + [UpdaterRuns];
    assert FirstAt(ModuleRun(events), Swapped(None), Value(42));
    RunOne(events, UpdaterRuns);
    events := events + [UpdaterRuns];
    assert FirstAt(ModuleRun(events), Idle, Value(42));
    RunOne(events, Main(false));
    events := events + [Main(false)];
  }
}
