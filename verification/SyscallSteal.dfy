/**
 Stacked hooks on one system-call table entry, examples/syscall-steal.c: each module saves
 the entry it finds and overwrites it with its own handler; on removal it writes back what
 it saved. Modules are numbered by insertion, so that a handler of a removed module is
 never mistaken for code that is still in memory.
 */
module SyscallSteal {
  import opened Common
  import opened CString

  type Mod = nat

  /** A value of the table entry, or of some module's `original_call`. */
  datatype Handler = Kernel | Hook(m: Mod)

  /** `saved[m]` is the `original_call` of the m-th module inserted, for ever. */
  datatype Table = Table(entry: Handler, saved: seq<Handler>, loaded: set<Mod>)

  const FRESH := Table(Kernel, [], {})

  datatype Event = Insert | Remove(m: Mod)

  /** `syscall_steal_start` and `syscall_steal_end`. */
  function Step(t: Table, e: Event): Table {
    match e
    case Insert =>
      Table(Hook(|t.saved|), t.saved + [t.entry], t.loaded + {|t.saved|})
    case Remove(m) =>
      if m in t.loaded && m < |t.saved|
      then t.(entry := t.saved[m], loaded := t.loaded - {m}) else t
  }

  function Execute(history: seq<Event>): Table
    decreases |history|
  {
    if history == [] then FRESH else Step(Execute(history[..|history|-1]), history[|history|-1])
  }

  predicate Below(h: Handler, n: nat) {
    h.Hook? ==> h.m < n
  }

  /** Saved pointers lead to earlier modules only, so every chain ends. */
  ghost predicate WellFormed(t: Table) {
    && Below(t.entry, |t.saved|)
    && (forall m :: 0 <= m < |t.saved| ==> Below(t.saved[m], m))
    && (forall m :: m in t.loaded ==> m < |t.saved|)
  }

  lemma {:induction false} ExecuteWellFormed(history: seq<Event>)
    ensures WellFormed(Execute(history))
    decreases |history|
  {
    if history != [] { ExecuteWellFormed(history[..|history|-1]); }
  }

  /** The modules a call passes through, from the handler h down to the kernel's own. */
  ghost function Chain(saved: seq<Handler>, h: Handler): seq<Mod>
    requires forall m :: 0 <= m < |saved| ==> Below(saved[m], m)
    requires Below(h, |saved|)
    decreases if h.Kernel? then 0 else h.m + 1
  {
    match h
    case Kernel => []
    case Hook(m) => [m] + Chain(saved, saved[m])
  }

  /** An openat can be served: its chain passes through modules still in memory only. */
  ghost predicate Safe(t: Table)
    requires WellFormed(t)
  {
    forall m :: m in Chain(t.saved, t.entry) ==> m in t.loaded
  }

  // Chains: they descend, and the part of a chain below a module is that module's chain.

  ghost predicate Linked(saved: seq<Handler>) {
    forall m :: 0 <= m < |saved| ==> Below(saved[m], m)
  }

  lemma {:induction false} ChainDescends(saved: seq<Handler>, h: Handler, m: Mod)
    requires Linked(saved) && Below(h, |saved|) && m in Chain(saved, h)
    ensures h.Hook? && m <= h.m
    decreases if h.Kernel? then 0 else h.m + 1
  {
    if m != h.m { ChainDescends(saved, saved[h.m], m); }
  }

  /** What lies below m on a chain is exactly what m's own saved pointer leads to. */
  lemma {:induction false} ChainBelow(saved: seq<Handler>, h: Handler, m: Mod, k: Mod)
    requires Linked(saved) && Below(h, |saved|) && m in Chain(saved, h)
    ensures m < |saved|
    ensures k in Chain(saved, saved[m]) <==> (k in Chain(saved, h) && k < m)
    decreases if h.Kernel? then 0 else h.m + 1
  {
    if m == h.m {
      if k in Chain(saved, saved[m]) { ChainDescends(saved, saved[m], k); }
    } else {
      ChainBelow(saved, saved[h.m], m, k);
      ChainDescends(saved, saved[h.m], m);
    }
  }

  lemma {:induction false} ChainKept(saved: seq<Handler>, more: seq<Handler>, h: Handler)
    requires Linked(saved) && Linked(saved + more) && Below(h, |saved|)
    ensures Chain(saved + more, h) == Chain(saved, h)
    decreases if h.Kernel? then 0 else h.m + 1
  {
    if h.Hook? { ChainKept(saved, more, saved[h.m]); }
  }

  // Which removals are harmless.

  /** A loaded module that calls no longer reach would lead into a removed one. */
  ghost predicate Stranded(t: Table)
    requires WellFormed(t)
  {
    forall m :: m in t.loaded && m !in Chain(t.saved, t.entry) ==>
      exists k :: k in Chain(t.saved, t.saved[m]) && k !in t.loaded
  }

  lemma InsertKeeps(t: Table)
    requires WellFormed(t) && Safe(t) && Stranded(t)
    ensures var t' := Step(t, Insert); WellFormed(t') && Safe(t') && Stranded(t')
  {
    var t' := Step(t, Insert);
    assert Linked(t'.saved) && t'.saved[|t.saved|] == t.entry;
    ChainKept(t.saved, [t.entry], t.entry);
    forall m | m in t'.loaded && m !in Chain(t'.saved, t'.entry)
      ensures exists k :: k in Chain(t'.saved, t'.saved[m]) && k !in t'.loaded
    {
      assert m in t.loaded && m !in Chain(t.saved, t.entry);
      var k :| k in Chain(t.saved, t.saved[m]) && k !in t.loaded;
      ChainKept(t.saved, [t.entry], t.saved[m]);
      ChainDescends(t.saved, t.saved[m], k);
    }
  }

  lemma RemoveKeeps(t: Table, m: Mod)
    requires WellFormed(t) && Safe(t) && Stranded(t)
    requires m in t.loaded && m in Chain(t.saved, t.entry)
    ensures var t' := Step(t, Remove(m)); WellFormed(t') && Safe(t') && Stranded(t')
  {
    var t' := Step(t, Remove(m));
    forall k: nat ensures k in Chain(t.saved, t.saved[m]) <==> (k in Chain(t.saved, t.entry) && k < m) {
      ChainBelow(t.saved, t.entry, m, k);
    }
    forall a | a in t'.loaded && a !in Chain(t.saved, t'.entry)
      ensures exists k :: k in Chain(t.saved, t.saved[a]) && k !in t'.loaded
    {
      if a in Chain(t.saved, t.entry) {
        ChainBelow(t.saved, t.entry, a, m);
        assert m in Chain(t.saved, t.saved[a]);
      }
    }
  }

  /** Removing a module that calls no longer reach makes the next call jump into a removed one. */
  lemma RemoveBreaks(t: Table, m: Mod)
    requires WellFormed(t) && Stranded(t) && m in t.loaded && m !in Chain(t.saved, t.entry)
    ensures var t' := Step(t, Remove(m)); WellFormed(t') && !Safe(t')
  {
    var k :| k in Chain(t.saved, t.saved[m]) && k !in t.loaded;
    var t' := Step(t, Remove(m));
    assert k in Chain(t'.saved, t'.entry) && k !in t'.loaded;
  }

  ghost predicate AlwaysSafe(history: seq<Event>) {
    forall i :: 0 <= i <= |history| ==>
      WellFormed(Execute(history[..i])) && Safe(Execute(history[..i]))
  }

  /** The i-th event does not remove a loaded module that calls no longer reach. */
  ghost predicate HarmlessAt(history: seq<Event>, i: nat)
    requires i < |history|
  {
    var t := Execute(history[..i]);
    history[i].Remove? && history[i].m in t.loaded ==>
      WellFormed(t) && history[i].m in Chain(t.saved, t.entry)
  }

  ghost predicate HarmlessBefore(history: seq<Event>, n: nat)
    requires n <= |history|
  {
    forall i :: 0 <= i < n ==> HarmlessAt(history, i)
  }

  lemma {:induction false} SafeSoFar(history: seq<Event>)
    requires HarmlessBefore(history, |history|)
    ensures var t := Execute(history); WellFormed(t) && Safe(t) && Stranded(t)
    decreases |history|
  {
    ExecuteWellFormed(history);
    if history != [] {
      var n := |history| - 1;
      var before := history[..n];
      forall i | 0 <= i < n ensures HarmlessAt(before, i) {
        assert HarmlessAt(history, i) && before[..i] == history[..i];
      }
      SafeSoFar(before);
      var t := Execute(before);
      assert HarmlessAt(history, n);
      match history[n]
      case Insert => InsertKeeps(t);
      case Remove(m) => if m in t.loaded { RemoveKeeps(t, m); }
    }
  }

  /**
   Over any history of any number of modules, every openat in between is served by loaded
   code if and only if each removal is of a module that calls still pass through.
   */
  lemma SafeIffRemovalsOnChain(history: seq<Event>)
    ensures AlwaysSafe(history) <==> HarmlessBefore(history, |history|)
  {
    if i :| 0 <= i < |history| && !HarmlessAt(history, i) && HarmlessBefore(history, i) {
      forall j | 0 <= j < i ensures HarmlessAt(history[..i], j) {
        assert HarmlessAt(history, j) && history[..i][..j] == history[..j];
      }
      SafeSoFar(history[..i]);
      RemoveBreaks(Execute(history[..i]), history[i].m);
      assert history[..i + 1][..i] == history[..i];
      assert !Safe(Execute(history[..i + 1]));
    } else {
      AllHarmless(history, |history|);
      forall i | 0 <= i <= |history|
        ensures WellFormed(Execute(history[..i])) && Safe(Execute(history[..i]))
      {
        forall j | 0 <= j < i ensures HarmlessAt(history[..i], j) {
          assert HarmlessAt(history, j) && history[..i][..j] == history[..j];
        }
        SafeSoFar(history[..i]);
      }
    }
  }

  /** If no first harmful event exists, none does. */
  lemma {:induction false} AllHarmless(history: seq<Event>, n: nat)
    requires n <= |history|
    requires !exists i :: 0 <= i < |history| && !HarmlessAt(history, i) && HarmlessBefore(history, i)
    ensures HarmlessBefore(history, n)
  {
    if n > 0 {
      AllHarmless(history, n - 1);
      assert HarmlessAt(history, n - 1);
    }
  }

  // The warning of line 281: the entry is not the module's own handler.

  predicate Warned(t: Table, m: Mod) {
    t.entry != Hook(m)
  }

  ghost predicate UnwarnedAt(history: seq<Event>, i: nat)
    requires i < |history|
  {
    var t := Execute(history[..i]);
    history[i].Remove? && history[i].m in t.loaded ==> !Warned(t, history[i].m)
  }

  /** No removal finds somebody else's handler in the table. */
  ghost predicate NeverWarned(history: seq<Event>) {
    forall i :: 0 <= i < |history| ==> UnwarnedAt(history, i)
  }

  /** Then calls pass through exactly the loaded modules. */
  lemma {:induction false} ChainIsLoaded(history: seq<Event>)
    requires NeverWarned(history)
    ensures var t := Execute(history);
            && WellFormed(t)
            && (forall m: Mod :: m in Chain(t.saved, t.entry) <==> m in t.loaded)
            && (t.loaded == {} <==> t.entry == Kernel)
    decreases |history|
  {
    ExecuteWellFormed(history);
    if history != [] {
      var n := |history| - 1;
      var before := history[..n];
      forall i | 0 <= i < n ensures UnwarnedAt(before, i) {
        assert UnwarnedAt(history, i) && before[..i] == history[..i];
      }
      assert UnwarnedAt(history, n);
      ChainIsLoaded(before);
      ExecuteWellFormed(before);
      var t, t' := Execute(before), Execute(history);
      match history[n] {
        case Insert =>
          ChainKept(t.saved, [t.entry], t.entry);
          assert t'.saved[|t.saved|] == t.entry;
        case Remove(m) =>
          if m in t.loaded {
            forall k: nat ensures k in Chain(t.saved, t.saved[m]) <==> (k in Chain(t.saved, t.entry) && k < m) {
              ChainBelow(t.saved, t.entry, m, k);
            }
            forall k | k in t.loaded ensures k <= m { ChainDescends(t.saved, t.entry, k); }
          }
      }
      assert t'.entry.Hook? ==> t'.entry.m in Chain(t'.saved, t'.entry);
    }
  }

  // Last in, first out, by the order of the events alone.

  /** The modules inserted so far. */
  function Inserted(history: seq<Event>): nat
    decreases |history|
  {
    if history == [] then 0 else
    Inserted(history[..|history|-1]) + if history[|history|-1].Insert? then 1 else 0
  }

  /** Those not removed again. */
  function Loaded(history: seq<Event>): set<Mod>
    decreases |history|
  {
    if history == [] then {} else
    var before := history[..|history|-1];
    match history[|history|-1]
    case Insert => Loaded(before) + {Inserted(before)}
    case Remove(m) => Loaded(before) - {m}
  }

  lemma {:induction false} LoadedIs(history: seq<Event>)
    ensures var t := Execute(history); t.loaded == Loaded(history) && |t.saved| == Inserted(history)
    decreases |history|
  {
    ExecuteWellFormed(history);
    if history != [] {
      LoadedIs(history[..|history|-1]);
      ExecuteWellFormed(history[..|history|-1]);
    }
  }

  /** A loaded module that the i-th event removes is the last inserted of the loaded ones. */
  predicate LifoAt(history: seq<Event>, i: nat)
    requires i < |history|
  {
    history[i].Remove? && history[i].m in Loaded(history[..i]) ==>
      forall k :: k in Loaded(history[..i]) ==> k <= history[i].m
  }

  ghost predicate Lifo(history: seq<Event>) {
    forall i :: 0 <= i < |history| ==> LifoAt(history, i)
  }

  /** The handler in the table is that of the last inserted of the modules in the chain. */
  lemma TopIsEntry(t: Table, m: Mod)
    requires WellFormed(t) && (forall k: Mod :: k in Chain(t.saved, t.entry) <==> k in t.loaded) && m in t.loaded
    ensures t.entry == Hook(m) <==> forall k :: k in t.loaded ==> k <= m
  {
    assert t.entry.Hook? && t.entry.m in t.loaded;
    forall k | k in t.loaded ensures k <= t.entry.m { ChainDescends(t.saved, t.entry, k); }
  }

  /** Exactly the last-in-first-out histories never draw the warning. */
  lemma {:induction false} LifoIffNeverWarned(history: seq<Event>)
    ensures Lifo(history) <==> NeverWarned(history)
    decreases |history|
  {
    if history != [] {
      var n := |history| - 1;
      var before := history[..n];
      LifoIffNeverWarned(before);
      forall i | 0 <= i < n
        ensures LifoAt(history, i) <==> LifoAt(before, i)
        ensures UnwarnedAt(history, i) <==> UnwarnedAt(before, i)
      {
        assert before[..i] == history[..i];
      }
      if NeverWarned(before) { LastStep(history, n); }
      LifoSplit(history, before, n);
    }
  }

  lemma LifoSplit(history: seq<Event>, before: seq<Event>, n: nat)
    requires |history| == n + 1 && |before| == n
    requires forall i :: 0 <= i < n ==> (LifoAt(history, i) <==> LifoAt(before, i))
    requires forall i :: 0 <= i < n ==> (UnwarnedAt(history, i) <==> UnwarnedAt(before, i))
    ensures Lifo(history) <==> Lifo(before) && LifoAt(history, n)
    ensures NeverWarned(history) <==> NeverWarned(before) && UnwarnedAt(history, n)
  {
  }

  lemma LastStep(history: seq<Event>, n: nat)
    requires n < |history| && NeverWarned(history[..n])
    ensures LifoAt(history, n) <==> UnwarnedAt(history, n)
  {
    var t := Execute(history[..n]);
    ChainIsLoaded(history[..n]);
    LoadedIs(history[..n]);
    if history[n].Remove? && history[n].m in t.loaded { TopIsEntry(t, history[n].m); }
  }

  /**
   In every last-in-first-out history calls pass through exactly the loaded modules and end
   at the kernel's handler; when all modules are removed the entry is the initial one again.
   */
  lemma LastInFirstOut(history: seq<Event>)
    requires Lifo(history)
    ensures var t := Execute(history);
            && WellFormed(t) && Safe(t) && t.loaded == Loaded(history)
            && (forall m: Mod :: m in Chain(t.saved, t.entry) <==> m in Loaded(history))
            && (Loaded(history) == {} <==> t.entry == Kernel)
  {
    LifoIffNeverWarned(history);
    ChainIsLoaded(history);
    LoadedIs(history);
  }

  /** Last-in-first-out histories are safe throughout. */
  lemma LifoIsSafe(history: seq<Event>)
    requires Lifo(history)
    ensures AlwaysSafe(history)
  {
    LifoIffNeverWarned(history);
    forall i | 0 <= i < |history| ensures HarmlessAt(history, i) {
      forall j | 0 <= j < i ensures UnwarnedAt(history[..i], j) {
        assert UnwarnedAt(history, j) && history[..i][..j] == history[..j];
      }
      ChainIsLoaded(history[..i]);
    }
    SafeIffRemovalsOnChain(history);
  }

  /** But not only they: the lower of two modules may go first, if the upper one then stays. */
  lemma SafeWithoutLifo()
    ensures var history := [Insert, Insert, Remove(0)]; AlwaysSafe(history) && !Lifo(history)
  {
    var two, all := [Insert, Insert], [Insert, Insert, Remove(0)];
    assert all[..1] == [Insert] && all[..2] == two && two[..1] == [Insert] && [Insert][..0] == [];
    assert Loaded([Insert]) == {0} && Inserted([Insert]) == 1;
    assert Loaded(two) == {0, 1};
    assert !LifoAt(all, 2);
    var t := Execute(two);
    assert Execute([Insert]) == Table(Hook(0), [Kernel], {0});
    assert t == Table(Hook(1), [Kernel, Hook(0)], {0, 1});
    ExecuteWellFormed(two);
    assert Chain(t.saved, Hook(0)) == [0] + Chain(t.saved, Kernel);
    assert Chain(t.saved, t.entry) == [1] + Chain(t.saved, Hook(0));
    assert HarmlessAt(all, 2);
    assert HarmlessAt(all, 0) && HarmlessAt(all, 1);
    SafeIffRemovalsOnChain(all);
  }

  /**
   Removing module m from under module a, which sits directly on it: calls no longer reach
   any module above m; and removing a afterwards leaves the entry at m's handler, which is
   no longer in memory.
   */
  lemma RemovedFromUnder(t: Table, m: Mod, a: Mod)
    requires WellFormed(t) && Safe(t)
    requires a in Chain(t.saved, t.entry) && m in t.loaded && t.saved[a] == Hook(m)
    ensures var t1 := Step(t, Remove(m)); var t2 := Step(t1, Remove(a));
            && WellFormed(t1) && Safe(t1) && a in t1.loaded
            && (forall k :: k in Chain(t1.saved, t1.entry) ==> k < m)
            && t2.entry == Hook(m) && m !in t2.loaded && WellFormed(t2) && !Safe(t2)
  {
    var t1 := Step(t, Remove(m));
    ChainBelow(t.saved, t.entry, a, m);
    forall k: nat ensures k in Chain(t.saved, t.saved[m]) <==> (k in Chain(t.saved, t.entry) && k < m) {
      ChainBelow(t.saved, t.entry, m, k);
    }
    var t2 := Step(t1, Remove(a));
    assert m in Chain(t2.saved, t2.entry);
  }

  // Removing a whole stack, in any order.

  /** The events of inserting n modules and then removing those in `order`. */
  function StackThenRemove(n: nat, order: seq<Mod>): seq<Event>
    decreases n, |order|
  {
    if order != [] then StackThenRemove(n, order[..|order|-1]) + [Remove(order[|order|-1])]
    else if n > 0 then StackThenRemove(n - 1, []) + [Insert]
    else []
  }

  predicate Distinct(n: nat, order: seq<Mod>) {
    && (forall i :: 0 <= i < |order| ==> order[i] < n)
    && (forall i, j :: 0 <= i < j < |order| ==> order[i] != order[j])
  }

  function Under(m: Mod): Handler {
    if m == 0 then Kernel else Hook(m - 1)
  }

  /** The table after inserting n modules and removing those in `order`. */
  ghost predicate Unstacked(t: Table, n: nat, order: seq<Mod>) {
    && |t.saved| == n && (forall m :: 0 <= m < n ==> t.saved[m] == Under(m))
    && (forall m: Mod :: m in t.loaded <==> (m < n && m !in order))
    && t.entry == (if order == [] then Under(n) else Under(order[|order|-1]))
  }

  lemma RemoveOne(t: Table, n: nat, order: seq<Mod>, m: Mod)
    requires Unstacked(t, n, order) && m < n && m !in order
    ensures Unstacked(Step(t, Remove(m)), n, order + [m])
  {
  }

  lemma InsertOne(t: Table, n: nat)
    requires Unstacked(t, n, [])
    ensures Unstacked(Step(t, Insert), n + 1, [])
  {
  }

  lemma ExecuteOne(history: seq<Event>, e: Event)
    ensures Execute(history + [e]) == Step(Execute(history), e)
  {
    assert (history + [e])[..|history|] == history;
  }

  lemma {:induction false} AfterInserts(n: nat)
    ensures Unstacked(Execute(StackThenRemove(n, [])), n, [])
  {
    if n > 0 {
      AfterInserts(n - 1);
      InsertOne(Execute(StackThenRemove(n - 1, [])), n - 1);
      ExecuteOne(StackThenRemove(n - 1, []), Insert);
    }
  }

  lemma {:induction false} AfterRemovals(n: nat, order: seq<Mod>)
    requires Distinct(n, order)
    ensures Unstacked(Execute(StackThenRemove(n, order)), n, order)
    decreases |order|
  {
    if order != [] {
      var rest, m := order[..|order|-1], order[|order|-1];
      AfterRemovals(n, rest);
      ExecuteOne(StackThenRemove(n, rest), Remove(m));
      RemoveOne(Execute(StackThenRemove(n, rest)), n, rest, m);
      assert order == rest + [m];
    } else {
      AfterInserts(n);
    }
  }

  /**
   Remove every module of a stack of n, in any order whatever: the entry ends up as the
   kernel's own handler exactly when the module inserted first is removed last. Otherwise it
   is left at the handler of a removed module.
   */
  lemma FinalEntry(n: nat, order: seq<Mod>)
    requires n > 0 && Distinct(n, order) && |order| == n
    ensures var t := Execute(StackThenRemove(n, order));
            && (t.entry == Kernel <==> order[n-1] == 0)
            && (t.entry.Hook? ==> t.entry.m !in t.loaded)
  {
    AfterRemovals(n, order);
    var t := Execute(StackThenRemove(n, order));
    if t.entry.Hook? {
      AllOccur(n, order, t.entry.m);
    }
  }

  /** n distinct numbers below n are all the numbers below n. */
  lemma AllOccur(n: nat, order: seq<Mod>, m: Mod)
    requires Distinct(n, order) && |order| == n && m < n
    ensures m in order
  {
    if m !in order {
      SubsetCount(order, UpTo(n) - {m});
    }
  }

  lemma {:induction false} SubsetCount(order: seq<Mod>, s: set<Mod>)
    requires forall i, j :: 0 <= i < j < |order| ==> order[i] != order[j]
    requires forall i :: 0 <= i < |order| ==> order[i] in s
    ensures |order| <= |s|
    decreases |order|
  {
    if order != [] {
      SubsetCount(order[1..], s - {order[0]});
    }
  }

  // The module code, on the table entry and the modules' saved pointers in place.

  datatype Report = Report(spy: Mod, name: string)

  predicate Spies(uids: seq<int>, m: Mod, uid: int) {
    m < |uids| && uids[m] == uid
  }

  /** The reports of the modules spying on `uid` along a chain, outermost first. */
  function Reports(chain: seq<Mod>, uids: seq<int>, uid: int, name: string): seq<Report>
    decreases |chain|
  {
    if chain == [] then [] else
    Reports(chain[..|chain|-1], uids, uid, name) +
    if Spies(uids, chain[|chain|-1], uid) then [Report(chain[|chain|-1], name)] else []
  }

  /** Passing through one more module of the chain. */
  lemma ChainOne(saved: seq<Handler>, h: Handler, passed: seq<Mod>)
    requires Linked(saved) && Below(h, |saved|) && h.Hook?
    ensures passed + Chain(saved, h) == (passed + [h.m]) + Chain(saved, saved[h.m])
  {
  }

  lemma ReportsOne(passed: seq<Mod>, m: Mod, uids: seq<int>, uid: int, name: string)
    requires (forall k :: k in passed ==> k < |uids|) && m < |uids|
    ensures Reports(passed + [m], uids, uid, name) ==
            Reports(passed, uids, uid, name) + if uids[m] == uid then [Report(m, name)] else []
  {
    assert (passed + [m])[..|passed|] == passed;
  }

  /** Every module of the chain that spies on the process reports, and no other. */
  lemma {:induction false} WhoReports(chain: seq<Mod>, uids: seq<int>, uid: int, name: string, r: Report)
    ensures r in Reports(chain, uids, uid, name) <==>
            r.name == name && r.spy in chain && r.spy < |uids| && uids[r.spy] == uid
    decreases |chain|
  {
    if chain != [] {
      var front, last := chain[..|chain|-1], chain[|chain|-1];
      WhoReports(front, uids, uid, name, r);
      assert r.spy in chain <==> r.spy in front || r.spy == last;
    }
  }

  /** Reports come from the module inserted last to the one inserted first. */
  lemma {:induction false} LastInReportsFirst(chain: seq<Mod>, uids: seq<int>, uid: int, name: string)
    requires forall i, j :: 0 <= i < j < |chain| ==> chain[i] > chain[j]
    ensures var rs := Reports(chain, uids, uid, name);
            forall i, j :: 0 <= i < j < |rs| ==> rs[i].spy > rs[j].spy
    decreases |chain|
  {
    if chain != [] {
      var front := chain[..|chain|-1];
      LastInReportsFirst(front, uids, uid, name);
      var rs := Reports(front, uids, uid, name);
      forall i | 0 <= i < |rs| ensures rs[i].spy > chain[|chain|-1] {
        assert rs[i] in rs;
        WhoReports(front, uids, uid, name, rs[i]);
        var k :| 0 <= k < |front| && front[k] == rs[i].spy;
        assert chain[k] == front[k];
      }
    }
  }

  lemma {:induction false} ChainSorted(saved: seq<Handler>, h: Handler)
    requires Linked(saved) && Below(h, |saved|)
    ensures forall i, j :: 0 <= i < j < |Chain(saved, h)| ==> Chain(saved, h)[i] > Chain(saved, h)[j]
    decreases if h.Kernel? then 0 else h.m + 1
  {
    if h.Hook? {
      ChainSorted(saved, saved[h.m]);
      var rest := Chain(saved, saved[h.m]);
      forall i | 0 <= i < |rest| ensures rest[i] < h.m {
        assert rest[i] in rest;
        ChainDescends(saved, saved[h.m], rest[i]);
      }
      assert Chain(saved, h) == [h.m] + rest;
    }
  }

  lemma ReportsOfCall(saved: seq<Handler>, entry: Handler, uids: seq<int>, uid: int, name: string)
    requires Linked(saved) && Below(entry, |saved|) && |uids| == |saved|
    ensures var chain, rs := Chain(saved, entry), Reports(Chain(saved, entry), uids, uid, name);
            && (forall r :: r in rs <==> r.name == name && r.spy in chain && r.spy < |uids| && uids[r.spy] == uid)
            && (forall i, j :: 0 <= i < j < |rs| ==> rs[i].spy > rs[j].spy)
  {
    var chain := Chain(saved, entry);
    ChainSorted(saved, entry);
    LastInReportsFirst(chain, uids, uid, name);
    forall r: Report
      ensures r in Reports(chain, uids, uid, name) <==>
              r.name == name && r.spy in chain && r.spy < |uids| && uids[r.spy] == uid
    {
      WhoReports(chain, uids, uid, name, r);
    }
  }

  class System {
    var entry: Handler      // sys_call_table_stolen[__NR_openat]
    var saved: seq<Handler> // original_call of each module
    var uids: seq<int>      // the parameter `uid` of each module
    var loaded: set<Mod>

    ghost function View(): Table
      reads this
    {
      Table(entry, saved, loaded)
    }

    ghost predicate Valid()
      reads this
    {
      WellFormed(View()) && |uids| == |saved|
    }

    constructor ()
      ensures Valid() && View() == FRESH
    {
      entry, saved, uids, loaded := Kernel, [], [], {};
    }

    method Start(uid: int) returns (m: Mod)
      requires Valid()
      modifies this
      ensures Valid() && View() == Step(old(View()), Insert)
      ensures m == |old(saved)| && uids == old(uids) + [uid]
    {
      m := |saved|;
      saved := saved + [entry];
      uids := uids + [uid];
      entry := Hook(m);
      loaded := loaded + {m};
    }

    /** The warning is printed, and the saved pointer written back all the same. */
    method End(m: Mod) returns (warned: bool)
      requires Valid() && m in loaded
      modifies this
      ensures Valid() && View() == Step(old(View()), Remove(m))
      ensures warned == Warned(old(View()), m) && uids == old(uids)
    {
      warned := entry != Hook(m);
      entry := saved[m];
      loaded := loaded - {m};
    }

    /** The do-while loop of lines 142 to 150, which reports the terminator as well. */
    method ReadName(filename: string) returns (name: string)
      requires NUL in filename
      ensures name == Text(filename) + [NUL]
    {
      var ch := filename[0];
      var i := 1;
      name := [ch];
      while ch != NUL
        invariant 1 <= i <= |filename| && name == filename[..i] && ch == filename[i-1]
        invariant forall j :: 0 <= j < i - 1 ==> filename[j] != NUL
        decreases |filename| - i
      {
        ch := filename[i];
        i := i + 1;
        name := name + [ch];
      }
    }

    /**
     A process opens a file. Every handler on the chain reports the name if it spies on the
     process, and calls its saved pointer. The call is served exactly when the chain is safe.
     */
    method Openat(uid: int, filename: string) returns (served: bool, reports: seq<Report>)
      requires Valid() && NUL in filename
      ensures served <==> Safe(View())
      ensures served ==> reports == Reports(Chain(saved, entry), uids, uid, Text(filename) + [NUL])
      ensures served ==> forall r :: r in reports <==>
                r.name == Text(filename) + [NUL] && r.spy in Chain(saved, entry) && uids[r.spy] == uid
      ensures served ==> forall i, j :: 0 <= i < j < |reports| ==> reports[i].spy > reports[j].spy
    {
      ReportsOfCall(saved, entry, uids, uid, Text(filename) + [NUL]);
      var h := entry;
      reports := [];
      ghost var passed: seq<Mod> := [];
      while h.Hook?
        invariant Below(h, |saved|)
        invariant Chain(saved, entry) == passed + Chain(saved, h)
        invariant forall m :: m in passed ==> m in loaded
        invariant reports == Reports(passed, uids, uid, Text(filename) + [NUL])
        decreases if h.Kernel? then 0 else h.m + 1
      {
        if h.m !in loaded {
          assert h.m in Chain(saved, h);
          return false, reports;
        }
        if uids[h.m] == uid {
          var name := ReadName(filename);
          reports := reports + [Report(h.m, name)];
        }
        ChainOne(saved, h, passed);
        ReportsOne(passed, h.m, uids, uid, Text(filename) + [NUL]);
        passed := passed + [h.m];
        h := saved[h.m];
      }
      assert Chain(saved, entry) == passed;
      served := true;
    }
  }
}
