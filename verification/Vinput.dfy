/**
 The virtual input devices of examples/vinput.c: a bitmap of ids, the list of devices and
 the list of registered types, and what export, unexport, register and unregister do to
 them. Devices are released synchronously, on their last reference.
 */
module Vinput {
  import opened Common
  import opened Decimal
  import opened KernelStrtol

  const MINORS: nat := 32
  const ENODEV: int := 19
  const ENOMEM: int := 12
  const ENOBUFS: int := 105
  const EINVAL: int := 22

  /** `key` is the address of the `struct vinput_device` that a module registers. */
  datatype Type = Type(key: nat, name: string)

  datatype Dev = Dev(id: nat, kind: nat)

  /** `vinput_ids`, `vinput_vdevices` and `vinput_devices`, each list from its head on. */
  datatype Registry = Registry(bits: seq<bool>, devs: seq<Dev>, types: seq<Type>)

  function AllClear(n: nat): seq<bool> {
    seq(n, i => false)
  }

  function Fresh(): Registry {
    Registry(AllClear(MINORS), [], [])
  }

  /** What is left of a list when the entries to drop are unlinked. */
  function Filter<T>(s: seq<T>, drop: T -> bool): seq<T>
    decreases |s|
  {
    if s == [] then [] else
    Filter(s[..|s|-1], drop) + if drop(s[|s|-1]) then [] else [s[|s|-1]]
  }

  function HasId(id: nat): Dev -> bool {
    (d: Dev) => d.id == id
  }

  function OfKind(key: nat): Dev -> bool {
    (d: Dev) => d.kind == key
  }

  function HasKey(key: nat): Type -> bool {
    (t: Type) => t.key == key
  }

  // The operations.

  /** `find_first_zero_bit` */
  function FirstClear(bits: seq<bool>): (i: nat)
    ensures i <= |bits| && (i < |bits| ==> !bits[i]) && forall j :: 0 <= j < i ==> bits[j]
    decreases |bits|
  {
    if bits == [] then 0 else
    var i := FirstClear(bits[..|bits|-1]);
    if i < |bits| - 1 || !bits[|bits|-1] then i else |bits|
  }

  predicate IsPrefix(p: string, s: string) {
    |p| <= |s| && s[..|p|] == p
  }

  /** `vinput_get_device_by_type`: the type registered last among those whose name `buf` begins with. */
  function FindType(types: seq<Type>, buf: string): (t: Option<Type>)
    ensures t.Some? ==> t.value in types && IsPrefix(t.value.name, buf)
    decreases |types|
  {
    if types == [] then None else
    if IsPrefix(types[0].name, buf) then Some(types[0]) else FindType(types[1..], buf)
  }

  /** `vinput_destroy_vdevice` */
  function Destroy(r: Registry, id: nat): Registry
    requires id < |r.bits|
  {
    r.(bits := r.bits[id := false], devs := Filter(r.devs, HasId(id)))
  }

  /** `vinput_unregister_vdevice` and `device_unregister` for every device of a type. */
  function Swept(bits: seq<bool>, devs: seq<Dev>, key: nat): seq<bool> {
    seq(|bits|, i requires 0 <= i < |bits| => bits[i] && Dev(i, key) !in devs)
  }

  /** What the kernel's allocators and registrations answer while a device is exported. */
  datatype Answers = Answers(memory: bool, input: bool, register: int, init: int)

  datatype Op =
    | Register(t: Type)
    | Unregister(key: nat)
    | Export(buf: string, answers: Answers)
    | Unexport(buf: string)

  /** `export_store`, its return value beside the new state. */
  function ExportStore(r: Registry, buf: string, a: Answers): (Registry, int)
    requires |r.bits| == MINORS
  {
    var t := FindType(r.types, buf);
    if t.None? then (r, -ENODEV) else
    if !a.memory then (r, -ENOMEM) else
    var id := FirstClear(r.bits);
    if id >= MINORS then (r, -ENOBUFS) else
    var taken := r.(bits := r.bits[id := true]);
    if !a.input then (taken, -ENOMEM) else
    var listed := taken.(devs := [Dev(id, t.value.key)] + r.devs);
    if a.register < 0 then (Destroy(listed, id), a.register) else
    if a.init < 0 then (Destroy(listed, id), a.init) else
    (listed, |buf|)
  }

  predicate Listed(devs: seq<Dev>, id: int) {
    exists i :: 0 <= i < |devs| && devs[i].id == id
  }

  /** `unexport_store` */
  function UnexportStore(r: Registry, buf: string): (Registry, int)
    requires |r.bits| == MINORS
  {
    var p := Kstrtol(buf);
    if !p.Value? then (r, -EINVAL) else
    if !(0 <= p.v < MINORS && Listed(r.devs, p.v)) then (r, -ENODEV) else
    (Destroy(r, p.v), |buf|)
  }

  predicate Registered(types: seq<Type>, key: nat) {
    exists i :: 0 <= i < |types| && types[i].key == key
  }

  /** A module registers a type while it is not registered, and unregisters it while it is. */
  function Apply(r: Registry, op: Op): (r': Registry)
    requires |r.bits| == MINORS
    ensures |r'.bits| == MINORS
  {
    match op
    case Register(t) => if Registered(r.types, t.key) then r else r.(types := [t] + r.types)
    case Unregister(key) =>
      if !Registered(r.types, key) then r else
      Registry(Swept(r.bits, r.devs, key), Filter(r.devs, OfKind(key)), Filter(r.types, HasKey(key)))
    case Export(buf, a) => ExportStore(r, buf, a).0
    case Unexport(buf) => UnexportStore(r, buf).0
  }

  function Execute(ops: seq<Op>): (r: Registry)
    ensures |r.bits| == MINORS
    decreases |ops|
  {
    if ops == [] then Fresh() else Apply(Execute(ops[..|ops|-1]), ops[|ops|-1])
  }

  // Filters.

  lemma {:induction false} FilterIs<T>(s: seq<T>, drop: T -> bool)
    ensures |Filter(s, drop)| <= |s|
    ensures forall x :: x in Filter(s, drop) <==> x in s && !drop(x)
    decreases |s|
  {
    if s != [] {
      FilterIs(s[..|s|-1], drop);
      assert s == s[..|s|-1] + [s[|s|-1]];
    }
  }

  lemma {:induction false} FilterAll<T>(s: seq<T>, drop: T -> bool)
    requires forall i :: 0 <= i < |s| ==> !drop(s[i])
    ensures Filter(s, drop) == s
    decreases |s|
  {
    if s != [] { FilterAll(s[..|s|-1], drop); }
  }

  predicate DistinctIds(devs: seq<Dev>) {
    forall i, j :: 0 <= i < j < |devs| ==> devs[i].id != devs[j].id
  }

  lemma {:induction false} FilterDistinct(s: seq<Dev>, drop: Dev -> bool)
    requires DistinctIds(s)
    ensures DistinctIds(Filter(s, drop))
    decreases |s|
  {
    if s != [] {
      var n := |s| - 1;
      FilterDistinct(s[..n], drop);
      FilterIs(s[..n], drop);
      var f := Filter(s[..n], drop);
      forall i | 0 <= i < |f|
        ensures f[i].id != s[n].id
      {
        assert f[i] in s[..n];
      }
    }
  }

  /** The position a kept entry had before. */
  function Origin<T>(s: seq<T>, drop: T -> bool, i: nat): (k: nat)
    requires i < |Filter(s, drop)|
    ensures k < |s| && s[k] == Filter(s, drop)[i]
    decreases |s|
  {
    var n := |s| - 1;
    if i < |Filter(s[..n], drop)| then Origin(s[..n], drop, i) else n
  }

  lemma {:induction false} OrderIsKept<T>(s: seq<T>, drop: T -> bool, i: nat, j: nat)
    requires i < j < |Filter(s, drop)|
    ensures Origin(s, drop, i) < Origin(s, drop, j)
    decreases |s|
  {
    var n := |s| - 1;
    if j < |Filter(s[..n], drop)| { OrderIsKept(s[..n], drop, i, j); }
  }

  // The invariant.

  predicate DistinctKeys(types: seq<Type>) {
    forall i, j :: 0 <= i < j < |types| ==> types[i].key != types[j].key
  }

  predicate BitsSet(bits: seq<bool>, devs: seq<Dev>) {
    forall i :: 0 <= i < |devs| ==> devs[i].id < |bits| && bits[devs[i].id]
  }

  predicate TypesLive(types: seq<Type>, devs: seq<Dev>) {
    forall i :: 0 <= i < |devs| ==> Registered(types, devs[i].kind)
  }

  /**
   Listed ids are distinct, below 32 and have their bit set, and no listed device has a
   type that is not registered any more.
   */
  predicate Ok(r: Registry) {
    && |r.bits| == MINORS && DistinctIds(r.devs) && BitsSet(r.bits, r.devs)
    && DistinctKeys(r.types) && TypesLive(r.types, r.devs)
  }

  lemma DestroyOk(r: Registry, id: nat)
    requires Ok(r) && id < MINORS
    ensures Ok(Destroy(r, id))
  {
    FilterDistinct(r.devs, HasId(id));
    FilterIs(r.devs, HasId(id));
    var d := Destroy(r, id).devs;
    forall i | 0 <= i < |d|
      ensures d[i].id != id && d[i] in r.devs
    {
      assert d[i] in d;
    }
  }

  lemma {:induction false} TypesDistinct(types: seq<Type>, drop: Type -> bool)
    requires DistinctKeys(types)
    ensures DistinctKeys(Filter(types, drop))
    decreases |types|
  {
    if types != [] {
      var n := |types| - 1;
      TypesDistinct(types[..n], drop);
      FilterIs(types[..n], drop);
      var f := Filter(types[..n], drop);
      forall i | 0 <= i < |f|
        ensures f[i].key != types[n].key
      {
        assert f[i] in types[..n];
      }
    }
  }

  lemma UnregisterOk(r: Registry, key: nat)
    requires Ok(r)
    ensures Ok(Apply(r, Unregister(key)))
  {
    if Registered(r.types, key) {
      var u := Apply(r, Unregister(key));
      FilterDistinct(r.devs, OfKind(key));
      FilterIs(r.devs, OfKind(key));
      TypesDistinct(r.types, HasKey(key));
      FilterIs(r.types, HasKey(key));
      forall i | 0 <= i < |u.devs|
        ensures u.devs[i].id < MINORS && u.bits[u.devs[i].id] && Registered(u.types, u.devs[i].kind)
      {
        var d := u.devs[i];
        assert d in u.devs;
        var j :| 0 <= j < |r.devs| && r.devs[j] == d;
        assert Registered(r.types, r.devs[j].kind);
        var k :| 0 <= k < |r.types| && r.types[k].key == d.kind;
        assert r.types[k] in u.types;
        assert Dev(d.id, key) !in r.devs;
      }
    }
  }

  /** Taking the least clear bit for a new device. */
  lemma AddOk(r: Registry, t: Type)
    requires Ok(r) && t in r.types && FirstClear(r.bits) < MINORS
    ensures var id := FirstClear(r.bits);
            && Ok(Registry(r.bits[id := true], [Dev(id, t.key)] + r.devs, r.types))
            && !Listed(r.devs, id)
  {
    var k :| 0 <= k < |r.types| && r.types[k] == t;
    assert Registered(r.types, t.key);
  }

  /** A device that was just listed leaves no trace when it is destroyed. */
  lemma DestroyUndoes(r: Registry, t: Type)
    requires Ok(r) && t in r.types && FirstClear(r.bits) < MINORS
    ensures var id := FirstClear(r.bits);
            Destroy(Registry(r.bits[id := true], [Dev(id, t.key)] + r.devs, r.types), id) == r
  {
    var id := FirstClear(r.bits);
    AddOk(r, t);
    forall i | 0 <= i < |r.devs|
      ensures r.devs[i].id != id
    {
    }
    DropFirst(Dev(id, t.key), r.devs, HasId(id));
    assert r.bits[id := true][id := false] == r.bits;
  }

  lemma {:induction false} DropFirst(d: Dev, devs: seq<Dev>, drop: Dev -> bool)
    requires drop(d) && forall i :: 0 <= i < |devs| ==> !drop(devs[i])
    ensures Filter([d] + devs, drop) == devs
    decreases |devs|
  {
    if devs != [] {
      var n := |devs| - 1;
      assert ([d] + devs)[..n+1] == [d] + devs[..n];
      DropFirst(d, devs[..n], drop);
    } else {
      assert ([d] + devs)[..0] == [];
    }
  }

  lemma ExportOk(r: Registry, buf: string, a: Answers)
    requires Ok(r)
    ensures Ok(ExportStore(r, buf, a).0)
  {
    var t := FindType(r.types, buf);
    if t.Some? && FirstClear(r.bits) < MINORS {
      AddOk(r, t.value);
      DestroyUndoes(r, t.value);
    }
  }

  lemma ApplyOk(r: Registry, op: Op)
    requires Ok(r)
    ensures Ok(Apply(r, op))
  {
    match op
    case Register(t) =>
      forall i | 0 <= i < |r.devs|
        ensures Registered([t] + r.types, r.devs[i].kind)
      {
        assert Registered(r.types, r.devs[i].kind);
        var k :| 0 <= k < |r.types| && r.types[k].key == r.devs[i].kind;
        assert ([t] + r.types)[k+1] == r.types[k];
      }
    case Unregister(key) => UnregisterOk(r, key);
    case Export(buf, a) => ExportOk(r, buf, a);
    case Unexport(buf) =>
      var p := Kstrtol(buf);
      if p.Value? && 0 <= p.v < MINORS { DestroyOk(r, p.v); }
  }

  /** Over every run of exports, unexports, registrations and unregistrations. */
  lemma {:induction false} Invariant(ops: seq<Op>)
    ensures Ok(Execute(ops))
    decreases |ops|
  {
    if ops != [] {
      Invariant(ops[..|ops|-1]);
      ApplyOk(Execute(ops[..|ops|-1]), ops[|ops|-1]);
    }
  }

  /** The failure on line 198: the device is unlinked, its bit stays set. */
  predicate LosesBit(r: Registry, op: Op) {
    && op.Export? && FindType(r.types, op.buf).Some?
    && op.answers.memory && FirstClear(r.bits) < MINORS && !op.answers.input
  }

  /** Export in terms of the type it finds. */
  lemma ExportCases(r: Registry, buf: string, a: Answers)
    requires Ok(r)
    ensures var (e, ret) := ExportStore(r, buf, a);
            var t, id := FindType(r.types, buf), FirstClear(r.bits);
            && (ret >= 0 <==> t.Some? && a.memory && id < MINORS && a.input && a.register >= 0 && a.init >= 0)
            && (ret >= 0 ==> && ret == |buf|
                             && e == Registry(r.bits[id := true], [Dev(id, t.value.key)] + r.devs, r.types))
            && (ret < 0 ==> (e == r <==> !LosesBit(r, Export(buf, a))))
  {
    var t := FindType(r.types, buf);
    if t.Some? && FirstClear(r.bits) < MINORS { DestroyUndoes(r, t.value); }
  }

  /**
   The type that is found: i is the position of the first, in the list from the last registered
   on, whose name the text begins with, character by character; or past the end if there is none.
   */
  lemma {:induction false} FindTypeIs(types: seq<Type>, buf: string) returns (i: nat)
    ensures i <= |types|
    ensures i < |types| ==> FindType(types, buf) == Some(types[i]) && |types[i].name| <= |buf|
                            && forall k :: 0 <= k < |types[i].name| ==> types[i].name[k] == buf[k]
    ensures i == |types| ==> FindType(types, buf) == None
    ensures forall j :: 0 <= j < i ==>
              |types[j].name| > |buf| || exists k :: 0 <= k < |types[j].name| && types[j].name[k] != buf[k]
    decreases |types|
  {
    if types == [] { return 0; }
    PrefixIs(types[0].name, buf);
    if IsPrefix(types[0].name, buf) { return 0; }
    var i' := FindTypeIs(types[1..], buf);
    i := i' + 1;
    forall j | 0 <= j < i
      ensures |types[j].name| > |buf| || exists k :: 0 <= k < |types[j].name| && types[j].name[k] != buf[k]
    {
      if j > 0 { assert types[j] == types[1..][j-1]; }
    }
  }

  lemma PrefixIs(p: string, s: string)
    ensures IsPrefix(p, s) <==> |p| <= |s| && forall k :: 0 <= k < |p| ==> p[k] == s[k]
  {
    if IsPrefix(p, s) {
      forall k | 0 <= k < |p| ensures p[k] == s[k] { assert s[..|p|][k] == p[k]; }
    }
  }

  /** Registering puts a type before all others: a text that begins with its name finds it. */
  lemma LastRegisteredWins(r: Registry, t: Type, buf: string)
    requires Ok(r) && !Registered(r.types, t.key)
    requires |t.name| <= |buf| && forall k :: 0 <= k < |t.name| ==> t.name[k] == buf[k]
    ensures FindType(Apply(r, Register(t)).types, buf) == Some(t)
    ensures Apply(r, Register(t)).bits == r.bits && Apply(r, Register(t)).devs == r.devs
  {
    PrefixIs(t.name, buf);
  }

  /**
   Exactly when export succeeds, and what it answers otherwise. The new device comes first, has
   the least clear bit and the type at position i: the last registered of those whose name the
   text begins with. A failed export changes nothing unless it is the failed input allocation.
   */
  lemma ExportOutcome(r: Registry, buf: string, a: Answers) returns (i: nat)
    requires Ok(r)
    ensures i <= |r.types|
    ensures i < |r.types| ==> |r.types[i].name| <= |buf|
                              && forall k :: 0 <= k < |r.types[i].name| ==> r.types[i].name[k] == buf[k]
    ensures forall j :: 0 <= j < i ==> |r.types[j].name| > |buf|
                                       || exists k :: 0 <= k < |r.types[j].name| && r.types[j].name[k] != buf[k]
    ensures var (e, ret) := ExportStore(r, buf, a);
            var id := FirstClear(r.bits);
            && (ret >= 0 <==> i < |r.types| && a.memory && id < 32 && a.input && a.register >= 0 && a.init >= 0)
            && (ret >= 0 ==> && ret == |buf|
                             && e == Registry(r.bits[id := true], [Dev(id, r.types[i].key)] + r.devs, r.types))
            && (ret < 0 ==> (e == r <==> i == |r.types| || !a.memory || id >= 32 || a.input))
            && (ret < 0 && e != r ==> e == Registry(r.bits[id := true], r.devs, r.types))
            && ret == (if i == |r.types| then -19 else if !a.memory then -12 else if id >= 32 then -105
                       else if !a.input then -12 else if a.register < 0 then a.register
                       else if a.init < 0 then a.init else |buf|)
  {
    i := FindTypeIs(r.types, buf);
    ExportCases(r, buf, a);
  }

  /**
   Exactly when unexport succeeds, and what it answers otherwise: the text must parse and name
   a listed id; then that device and its bit are gone and nothing else has changed.
   */
  lemma UnexportOutcome(r: Registry, buf: string)
    requires Ok(r)
    ensures var (u, ret) := UnexportStore(r, buf);
            var p := Kstrtol(buf);
            && (ret >= 0 <==> p.Value? && Listed(r.devs, p.v))
            && ret == (if !p.Value? then -22 else if !Listed(r.devs, p.v) then -19 else |buf|)
            && (ret < 0 ==> u == r)
            && (ret >= 0 ==> && u.types == r.types
                             && (forall d :: d in u.devs <==> d in r.devs && d.id != p.v)
                             && (forall i :: 0 <= i < |r.bits| ==> (u.bits[i] <==> r.bits[i] && i != p.v)))
  {
    var p := Kstrtol(buf);
    if p.Value? && Listed(r.devs, p.v) {
      var i :| 0 <= i < |r.devs| && r.devs[i].id == p.v;
      FilterIs(r.devs, HasId(p.v));
    }
  }

  /** Exporting and then writing the id to unexport changes nothing. */
  lemma ExportUnexport(r: Registry, buf: string, a: Answers, end: string)
    requires Ok(r) && ExportStore(r, buf, a).1 >= 0 && (end == "" || end == "\n")
    ensures var text := Digits(FirstClear(r.bits)) + end;
            UnexportStore(ExportStore(r, buf, a).0, text) == (r, |text|)
  {
    var id := FirstClear(r.bits);
    var e := ExportStore(r, buf, a).0;
    ExportCases(r, buf, a);
    DestroyUndoes(r, FindType(r.types, buf).value);
    KstrtolOfDigits(id, end);
    assert e.devs[0].id == id;
  }

  lemma KstrtolOfDigits(n: nat, end: string)
    requires IsLong(n) && (end == "" || end == "\n")
    ensures Kstrtol(Digits(n) + end) == Value(n)
  {
    NumberOfDigits(n);
    ParseDigits(Digits(n), end);
    assert (Digits(n) + end)[0] == Digits(n)[0];
  }

  // Lookup by id and unregistration, against a finite map.

  function AsMap(devs: seq<Dev>): (m: map<nat, nat>)
    ensures forall d :: d in devs ==> d.id in m
    ensures forall id :: id in m ==> Dev(id, m[id]) in devs
    decreases |devs|
  {
    if devs == [] then map[] else AsMap(devs[..|devs|-1])[devs[|devs|-1].id := devs[|devs|-1].kind]
  }

  lemma MapIs(devs: seq<Dev>, d: Dev)
    requires DistinctIds(devs)
    ensures d in devs <==> d.id in AsMap(devs) && AsMap(devs)[d.id] == d.kind
  {
  }

  lemma FilteredMap(devs: seq<Dev>, key: nat, id: nat)
    requires DistinctIds(devs)
    ensures var m, f := AsMap(devs), AsMap(Filter(devs, OfKind(key)));
            && (id in f <==> id in m && m[id] != key)
            && (id in f ==> f[id] == m[id])
  {
    var m, left := AsMap(devs), Filter(devs, OfKind(key));
    FilterIs(devs, OfKind(key));
    FilterDistinct(devs, OfKind(key));
    if id in m {
      MapIs(devs, Dev(id, m[id]));
      MapIs(left, Dev(id, m[id]));
    }
    if id in AsMap(left) {
      MapIs(left, Dev(id, AsMap(left)[id]));
      MapIs(devs, Dev(id, AsMap(left)[id]));
    }
  }

  lemma MapAfter(devs: seq<Dev>, key: nat)
    requires DistinctIds(devs)
    ensures var m := AsMap(devs); AsMap(Filter(devs, OfKind(key))) == (map id | id in m && m[id] != key :: m[id])
  {
    forall id: nat
      ensures var m, u := AsMap(devs), AsMap(Filter(devs, OfKind(key)));
              (id in u <==> id in m && m[id] != key) && (id in u ==> u[id] == m[id])
    {
      FilteredMap(devs, key, id);
    }
  }

  lemma BitAfter(r: Registry, key: nat, id: nat)
    requires Ok(r) && Registered(r.types, key) && id < MINORS
    ensures var m := AsMap(r.devs);
            Apply(r, Unregister(key)).bits[id] <==> r.bits[id] && !(id in m && m[id] == key)
  {
    MapIs(r.devs, Dev(id, key));
  }

  /**
   Unregistering a type leaves exactly the devices of the other types, by id as a map and
   in the list in their order, and exactly the bits of the others.
   */
  lemma UnregisterLeavesTheOthers(r: Registry, key: nat)
    requires Ok(r) && Registered(r.types, key)
    ensures var u := Apply(r, Unregister(key));
            var m := AsMap(r.devs);
            && AsMap(u.devs) == (map id | id in m && m[id] != key :: m[id])
            && (forall id :: 0 <= id < MINORS ==> (u.bits[id] <==> r.bits[id] && !(id in m && m[id] == key)))
            && (forall i, j :: 0 <= i < j < |u.devs| ==>
                  Origin(r.devs, OfKind(key), i) < Origin(r.devs, OfKind(key), j))
  {
    var u := Apply(r, Unregister(key));
    MapAfter(r.devs, key);
    forall id | 0 <= id < MINORS
      ensures var m := AsMap(r.devs); u.bits[id] <==> r.bits[id] && !(id in m && m[id] == key)
    {
      BitAfter(r, key, id);
    }
    forall i, j | 0 <= i < j < |u.devs|
      ensures Origin(r.devs, OfKind(key), i) < Origin(r.devs, OfKind(key), j)
    {
      OrderIsKept(r.devs, OfKind(key), i, j);
    }
  }

  /** And exactly the type itself is gone from the list of types. */
  lemma UnregisterDropsTheType(r: Registry, key: nat)
    requires Ok(r) && Registered(r.types, key)
    ensures var u := Apply(r, Unregister(key));
            && (forall t :: t in u.types <==> t in r.types && t.key != key)
            && (forall i, j :: 0 <= i < j < |u.types| ==>
                  Origin(r.types, HasKey(key), i) < Origin(r.types, HasKey(key), j))
  {
    var u := Apply(r, Unregister(key));
    FilterIs(r.types, HasKey(key));
    forall i, j | 0 <= i < j < |u.types|
      ensures Origin(r.types, HasKey(key), i) < Origin(r.types, HasKey(key), j)
    {
      OrderIsKept(r.types, HasKey(key), i, j);
    }
  }

  // The bits of line 209.

  /** Bits that are set although no listed device has the id. */
  function Lost(r: Registry): set<nat> {
    set i: nat | i < |r.bits| && r.bits[i] && !Listed(r.devs, i)
  }

  function Losses(ops: seq<Op>): nat
    decreases |ops|
  {
    if ops == [] then 0 else
    Losses(ops[..|ops|-1]) + if LosesBit(Execute(ops[..|ops|-1]), ops[|ops|-1]) then 1 else 0
  }

  lemma LostByDestroy(r: Registry, id: nat)
    requires Ok(r) && id < MINORS && Listed(r.devs, id)
    ensures Lost(Destroy(r, id)) == Lost(r)
  {
    FilterIs(r.devs, HasId(id));
    var d := Destroy(r, id);
    forall i: nat | i != id
      ensures Listed(d.devs, i) <==> Listed(r.devs, i)
    {
      SameListed(r.devs, d.devs, i);
    }
    forall i: nat
      ensures i in Lost(d) <==> i in Lost(r)
    {
    }
  }

  lemma SameListed(a: seq<Dev>, b: seq<Dev>, id: nat)
    requires forall d: Dev :: d.id == id ==> (d in a <==> d in b)
    ensures Listed(a, id) <==> Listed(b, id)
  {
    if Listed(a, id) {
      var i :| 0 <= i < |a| && a[i].id == id;
      assert a[i] in b;
    }
    if Listed(b, id) {
      var i :| 0 <= i < |b| && b[i].id == id;
      assert b[i] in a;
    }
  }

  lemma LostByUnregister(r: Registry, key: nat)
    requires Ok(r)
    ensures Lost(Apply(r, Unregister(key))) == Lost(r)
  {
    if Registered(r.types, key) {
      var u := Apply(r, Unregister(key));
      FilterIs(r.devs, OfKind(key));
      forall i: nat
        ensures i in Lost(u) <==> i in Lost(r)
      {
        if Dev(i, key) in r.devs {
          assert Listed(r.devs, i);
        } else {
          SameListed(r.devs, u.devs, i);
        }
      }
    }
  }

  /** Only the failed input allocation loses a bit, the one it had taken. */
  lemma LostStep(r: Registry, op: Op)
    requires Ok(r)
    ensures Lost(Apply(r, op)) == Lost(r) + if LosesBit(r, op) then {FirstClear(r.bits)} else {}
    ensures FirstClear(r.bits) !in Lost(r)
  {
    match op
    case Register(t) =>
    case Unregister(key) => LostByUnregister(r, key);
    case Export(buf, a) =>
      ExportCases(r, buf, a);
      if ExportStore(r, buf, a).1 >= 0 { LostByExport(r, FindType(r.types, buf).value); }
    case Unexport(buf) =>
      var p := Kstrtol(buf);
      if p.Value? && 0 <= p.v < MINORS && Listed(r.devs, p.v) { LostByDestroy(r, p.v); }
  }

  lemma LostByExport(r: Registry, t: Type)
    requires Ok(r) && FirstClear(r.bits) < MINORS
    ensures var id := FirstClear(r.bits);
            Lost(Registry(r.bits[id := true], [Dev(id, t.key)] + r.devs, r.types)) == Lost(r)
  {
    var id := FirstClear(r.bits);
    var e := Registry(r.bits[id := true], [Dev(id, t.key)] + r.devs, r.types);
    assert e.devs[0].id == id;
    forall i: nat | i != id
      ensures Listed(e.devs, i) <==> Listed(r.devs, i)
    {
      SameListed(r.devs, e.devs, i);
    }
  }

  lemma {:induction false} LossesAreCounted(ops: seq<Op>)
    ensures |Lost(Execute(ops))| == Losses(ops)
    decreases |ops|
  {
    if ops == [] {
      assert Lost(Fresh()) == {};
    } else {
      LossesAreCounted(ops[..|ops|-1]);
      Invariant(ops[..|ops|-1]);
      LostStep(Execute(ops[..|ops|-1]), ops[|ops|-1]);
    }
  }

  function SetBits(bits: seq<bool>): set<nat> {
    set i: nat | i < |bits| && bits[i]
  }

  function Ids(devs: seq<Dev>): (ids: set<nat>)
    ensures forall id :: id in ids <==> Listed(devs, id)
    decreases |devs|
  {
    if devs == [] then {} else
    var n := |devs| - 1;
    var ids := Ids(devs[..n]) + {devs[n].id};
    assert forall id :: Listed(devs, id) <==> Listed(devs[..n], id) || id == devs[n].id;
    ids
  }

  lemma {:induction false} IdsCount(devs: seq<Dev>)
    requires DistinctIds(devs)
    ensures |Ids(devs)| == |devs|
    decreases |devs|
  {
    if devs != [] {
      var n := |devs| - 1;
      IdsCount(devs[..n]);
      assert !Listed(devs[..n], devs[n].id);
    }
  }

  /**
   Over every run the set bits number exactly the listed devices and one more for every
   failed input allocation; bitmap and list agree exactly in the runs without one.
   */
  lemma BitsAreDevicesAndLosses(ops: seq<Op>)
    ensures var r := Execute(ops);
            && |SetBits(r.bits)| == |r.devs| + Losses(ops)
            && (Losses(ops) == 0 <==> SetBits(r.bits) == Ids(r.devs))
  {
    var r := Execute(ops);
    Invariant(ops);
    LossesAreCounted(ops);
    IdsCount(r.devs);
    assert SetBits(r.bits) == Ids(r.devs) + Lost(r);
    assert Ids(r.devs) !! Lost(r);
    if SetBits(r.bits) == Ids(r.devs) { assert Lost(r) == {}; }
  }

  lemma {:induction false} Fewer(a: set<nat>, b: set<nat>)
    requires a <= b
    ensures |a| <= |b|
  {
    assert b == a + (b - a);
  }

  lemma FullBitmap(bits: seq<bool>)
    ensures FirstClear(bits) == |bits| <==> |SetBits(bits)| == |bits|
  {
    var i, all := FirstClear(bits), UpTo(|bits|);
    if i == |bits| {
      assert SetBits(bits) == all;
    } else {
      Fewer(SetBits(bits), all - {i});
    }
  }

  /** So export runs out of ids exactly when devices and losses make 32. */
  lemma OutOfIds(ops: seq<Op>)
    ensures FirstClear(Execute(ops).bits) == MINORS <==> |Execute(ops).devs| + Losses(ops) == MINORS
  {
    BitsAreDevicesAndLosses(ops);
    FullBitmap(Execute(ops).bits);
  }

  lemma ExecuteOne(ops: seq<Op>, op: Op)
    ensures Execute(ops + [op]) == Apply(Execute(ops), op)
  {
    assert (ops + [op])[..|ops|] == ops;
  }

  lemma LostStays(r: Registry, op: Op, id: nat)
    requires Ok(r) && id in Lost(r)
    ensures id in Lost(Apply(r, op))
  {
    LostStep(r, op);
  }

  lemma LostAfterOne(ops: seq<Op>, op: Op, id: nat)
    requires id in Lost(Execute(ops))
    ensures id in Lost(Execute(ops + [op]))
  {
    Invariant(ops);
    ExecuteOne(ops, op);
    LostStays(Execute(ops), op, id);
  }

  /** A lost id stays lost: no later operation lists it again or clears its bit. */
  lemma {:induction false} LostForGood(ops: seq<Op>, more: seq<Op>, id: nat)
    requires id in Lost(Execute(ops))
    ensures id in Lost(Execute(ops + more))
    decreases |more|
  {
    if more == [] {
      assert ops + more == ops;
    } else {
      var n := |more| - 1;
      var before := ops + more[..n];
      LostForGood(ops, more[..n], id);
      assert ops + more == before + [more[n]];
      LostAfterOne(before, more[n], id);
    }
  }
}
