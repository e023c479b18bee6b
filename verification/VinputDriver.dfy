/**
 The functions of examples/vinput.c over the bitmap, the linked list of devices and the
 structures it links, proved against the operations of module Vinput. Addresses are numbers;
 a structure is in `info` from its allocation until it is freed.
 */
module VinputDriver {
  import opened Common
  import opened KernelList
  import opened KernelStrtol
  import opened Vinput

  const NULL: nat := 0

  predicate InInfo(nodes: seq<nat>, info: map<nat, Dev>) {
    forall i :: 0 <= i < |nodes| ==> nodes[i] in info
  }

  function Devs(nodes: seq<nat>, info: map<nat, Dev>): seq<Dev>
    requires InInfo(nodes, info)
  {
    seq(|nodes|, i requires 0 <= i < |nodes| => info[nodes[i]])
  }

  /** Unlinking an entry and freeing it is what `Destroy` does to the list. */
  lemma DestroyAt(front: seq<nat>, x: nat, back: seq<nat>, info: map<nat, Dev>)
    requires var nodes := front + [x] + back;
             x in info && InInfo(nodes, info) && x !in front + back && DistinctIds(Devs(nodes, info))
    ensures InInfo(front + back, info - {x})
    ensures Devs(front + back, info - {x}) == Filter(Devs(front + [x] + back, info), HasId(info[x].id))
  {
    var devs, k := Devs(front + [x] + back, info), |front|;
    assert devs[k] == info[x];
    DropOne(devs, HasId(devs[k].id), k);
    forall i | 0 <= i < |front + back|
      ensures (front + back)[i] in info - {x}
      ensures info[(front + back)[i]] == (devs[..k] + devs[k+1..])[i]
    {
      var j := if i < k then i else i + 1;
      assert (front + back)[i] in front + back;
      assert (front + back)[i] == (front + [x] + back)[j] && devs[j] == (devs[..k] + devs[k+1..])[i];
    }
    assert Devs(front + back, info - {x}) == devs[..k] + devs[k+1..];
  }

  lemma {:induction false} DropOne(devs: seq<Dev>, drop: Dev -> bool, k: nat)
    requires k < |devs| && forall i :: 0 <= i < |devs| ==> (drop(devs[i]) <==> i == k)
    ensures Filter(devs, drop) == devs[..k] + devs[k+1..]
    decreases |devs|
  {
    var n := |devs| - 1;
    if k == n {
      FilterAll(devs[..n], drop);
    } else {
      DropOne(devs[..n], drop, k);
      assert devs[..n][..k] == devs[..k] && devs[k+1..] == devs[..n][k+1..] + [devs[n]];
    }
  }

  /** An entry that is not listed does not matter; one that is listed comes first. */
  lemma DevsOfAdded(nodes: seq<nat>, info: map<nat, Dev>, x: nat, d: Dev)
    requires InInfo(nodes, info) && x !in nodes
    ensures InInfo(nodes, info[x := d]) && Devs(nodes, info[x := d]) == Devs(nodes, info)
    ensures InInfo([x] + nodes, info[x := d]) && Devs([x] + nodes, info[x := d]) == [d] + Devs(nodes, info)
    ensures [] + [x] + nodes == [x] + nodes && [] + nodes == nodes
    ensures x !in info ==> info[x := d] - {x} == info
  {
    var a, b := Devs([x] + nodes, info[x := d]), [d] + Devs(nodes, info);
    forall i | 0 <= i < |a|
      ensures a[i] == b[i]
    {
    }
  }

  /** Setting the type of the structure just listed. */
  lemma Named(nodes: seq<nat>, info: map<nat, Dev>, x: nat, id: nat, key: nat)
    requires InInfo(nodes, info) && x !in nodes
    ensures var after := info[x := Dev(id, NULL)][x := Dev(id, key)];
            InInfo([x] + nodes, after) && Devs([x] + nodes, after) == [Dev(id, key)] + Devs(nodes, info)
    ensures [] + [x] + nodes == [x] + nodes
  {
    DevsOfAdded(nodes, info, x, Dev(id, key));
    assert info[x := Dev(id, NULL)][x := Dev(id, key)] == info[x := Dev(id, key)];
  }

  /** Where export stands once the structure is listed and has its type. */
  lemma Exported(r: Registry, buf: string, a: Answers) returns (listed: Registry)
    requires Ok(r) && FindType(r.types, buf).Some? && a.memory && FirstClear(r.bits) < MINORS && a.input
    ensures var id := FirstClear(r.bits);
            && listed == Registry(r.bits[id := true], [Dev(id, FindType(r.types, buf).value.key)] + r.devs, r.types)
            && Ok(listed) && Ok(Destroy(listed, id))
            && Vinput.ExportStore(r, buf, a) ==
               if a.register < 0 then (Destroy(listed, id), a.register)
               else if a.init < 0 then (Destroy(listed, id), a.init) else (listed, |buf|)
  {
    var t, id := FindType(r.types, buf).value, FirstClear(r.bits);
    AddOk(r, t);
    DestroyUndoes(r, t);
    listed := Registry(r.bits[id := true], [Dev(id, t.key)] + r.devs, r.types);
  }

  // list_for_each_safe, unlinking entries on the way.

  /** The devices still listed when the first n have been visited. */
  function Remaining(devs: seq<Dev>, key: nat, n: nat): seq<Dev>
    requires n <= |devs|
  {
    Filter(devs[..n], OfKind(key)) + devs[n..]
  }

  /** The registry when the first n devices have been visited; the type itself is gone already. */
  function Midway(r: Registry, key: nat, n: nat): Registry
    requires n <= |r.devs|
  {
    Registry(Swept(r.bits, r.devs[..n], key), Remaining(r.devs, key, n), Filter(r.types, HasKey(key)))
  }

  lemma RemainingDistinct(devs: seq<Dev>, key: nat, n: nat)
    requires DistinctIds(devs) && n <= |devs|
    ensures DistinctIds(Remaining(devs, key, n))
  {
    var f := Filter(devs[..n], OfKind(key));
    FilterIs(devs[..n], OfKind(key));
    FilterDistinct(devs[..n], OfKind(key));
    forall i, j | 0 <= i < |f| && n <= j < |devs|
      ensures f[i].id != devs[j].id
    {
      assert f[i] in devs[..n];
    }
  }

  lemma DropMiddle(front: seq<Dev>, d: Dev, back: seq<Dev>)
    requires DistinctIds(front + [d] + back)
    ensures Filter(front + [d] + back, HasId(d.id)) == front + back
  {
    var devs, k := front + [d] + back, |front|;
    assert devs[k] == d;
    forall i | 0 <= i < |devs|
      ensures devs[i].id == d.id <==> i == k
    {
    }
    DropOne(devs, HasId(d.id), k);
    assert devs[..k] == front && devs[k+1..] == back;
  }

  lemma SweptOne(bits: seq<bool>, devs: seq<Dev>, key: nat, d: Dev)
    requires d.id < |bits|
    ensures Swept(bits, devs + [d], key) ==
            if d.kind == key then Swept(bits, devs, key)[d.id := false] else Swept(bits, devs, key)
  {
    forall i | 0 <= i < |bits|
      ensures Dev(i, key) in devs + [d] <==> Dev(i, key) in devs || Dev(i, key) == d
    {
    }
  }

  lemma RemainingStep(devs: seq<Dev>, key: nat, n: nat)
    requires DistinctIds(devs) && n < |devs|
    ensures Remaining(devs, key, n + 1) ==
            if devs[n].kind == key then Filter(Remaining(devs, key, n), HasId(devs[n].id)) else Remaining(devs, key, n)
  {
    var d, f, back := devs[n], Filter(devs[..n], OfKind(key)), devs[n+1..];
    assert devs[..n+1][..n] == devs[..n];
    assert Remaining(devs, key, n) == f + [d] + back;
    RemainingDistinct(devs, key, n);
    DropMiddle(f, d, back);
  }

  /** Visiting one more device: it is destroyed if it has the type. */
  lemma MidwayStep(r: Registry, key: nat, n: nat)
    requires Ok(r) && n < |r.devs|
    ensures Midway(r, key, n + 1) ==
            if r.devs[n].kind == key then Destroy(Midway(r, key, n), r.devs[n].id) else Midway(r, key, n)
  {
    var d := r.devs[n];
    assert r.devs[..n+1] == r.devs[..n] + [d];
    assert d.id < |r.bits|;
    RemainingStep(r.devs, key, n);
    SweptOne(r.bits, r.devs[..n], key, d);
  }

  lemma MidwayBegin(r: Registry, key: nat)
    ensures Midway(r, key, 0) == Registry(r.bits, r.devs, Filter(r.types, HasKey(key)))
  {
    assert Swept(r.bits, r.devs[..0], key) == r.bits;
  }

  lemma MidwayEnd(r: Registry, key: nat)
    requires |r.bits| == MINORS && Registered(r.types, key)
    ensures Midway(r, key, |r.devs|) == Apply(r, Op.Unregister(key))
  {
    assert r.devs[..|r.devs|] == r.devs;
  }

  lemma Split(front: seq<nat>, start: seq<nat>, done: nat)
    requires done < |start|
    ensures front + start[done..] == front + [Ring(start)[done+1]] + start[done+1..]
  {
  }

  /** The entry to visit is linked, and its successor is the next one to visit. */
  lemma SafeNext(list: List, front: seq<nat>, start: seq<nat>, done: nat)
    requires list.Valid() && done <= |start| && list.nodes == front + start[done..]
    ensures var curr := Ring(start)[done+1];
            curr in list.next && (done < |start| ==> list.next[curr] == Ring(start)[done+2])
  {
    if done < |start| { list.HasNext(|front| + 1); } else { list.HasNext(0); }
  }

  class Driver {
    const ids: array<bool>     // vinput_ids
    const vdevices: List       // vinput_vdevices
    var types: seq<Type>       // vinput_devices
    var info: map<nat, Dev>    // every struct vinput

    ghost predicate Shape()
      reads this, ids, vdevices
    {
      ids.Length == MINORS && vdevices.Valid() && forall a :: a in info <==> a in vdevices.nodes
    }

    ghost function State(): Registry
      reads this, ids, vdevices
      requires Shape()
    {
      Registry(ids[..], Devs(vdevices.nodes, info), types)
    }

    /** No structure is allocated and not listed, and the registry is as it should be. */
    ghost predicate Valid()
      reads this, ids, vdevices
    {
      Shape() && Ok(State())
    }

    constructor ()
      ensures Valid() && State() == Fresh() && fresh(ids) && fresh(vdevices)
    {
      ids := new bool[MINORS](_ => false);
      vdevices := new List();
      types, info := [], map[];
      new;
      assert ids[..] == AllClear(MINORS);
    }

    /** The first in the list whose name `buf` begins with, character by character, if there is one. */
    method GetDeviceByType(buf: string) returns (t: Option<Type>, ghost first: nat)
      ensures t == FindType(types, buf)
      ensures first <= |types| && t == if first < |types| then Some(types[first]) else None
      ensures first < |types| ==> |types[first].name| <= |buf|
                                  && forall k :: 0 <= k < |types[first].name| ==> types[first].name[k] == buf[k]
      ensures forall j :: 0 <= j < first ==>
                |types[j].name| > |buf| || exists k :: 0 <= k < |types[j].name| && types[j].name[k] != buf[k]
    {
      first := FindTypeIs(types, buf);
      var i := 0;
      while i < |types|
        invariant 0 <= i <= |types| && FindType(types, buf) == FindType(types[i..], buf)
      {
        assert types[i..][1..] == types[i+1..];
        if IsPrefix(types[i].name, buf) {
          t := Some(types[i]);
          return;
        }
        i := i + 1;
      }
      t := None;
    }

    /** Also when the walk falls off the end and leaves `vinput` at the last entry. */
    method GetVdeviceById(id: int) returns (v: Option<nat>, ghost front: seq<nat>, ghost back: seq<nat>)
      requires Shape()
      ensures v.Some? <==> Listed(State().devs, id)
      ensures v.Some? ==> vdevices.nodes == front + [v.value] + back && v.value in info && info[v.value].id == id
    {
      var vinput := None;
      ghost var ring, devs := Ring(vdevices.nodes), State().devs;
      ghost var k := 0;
      assert Joined(vdevices.next, vdevices.prev, vdevices.nodes, 0);
      var curr := vdevices.next[HEAD];
      while curr != HEAD
        invariant k <= |vdevices.nodes| && curr == ring[k+1] && k < |devs| + 1
        invariant vinput == if k == 0 then None else Some(vdevices.nodes[k-1])
        invariant vinput.Some? ==> info[vinput.value].id != id
        invariant forall i :: 0 <= i < k ==> devs[i].id != id
        decreases |vdevices.nodes| - k
      {
        vinput := Some(curr);
        assert k < |devs| && devs[k] == info[curr];
        if info[curr].id == id { break; }
        assert Joined(vdevices.next, vdevices.prev, vdevices.nodes, k + 1);
        curr := vdevices.next[curr];
        k := k + 1;
      }
      if vinput.Some? && info[vinput.value].id == id {
        assert devs[k].id == id;
        return vinput, vdevices.nodes[..k], vdevices.nodes[k+1..];
      }
      v, front, back := None, [], [];
    }

    method FindFirstZeroBit() returns (i: nat)
      ensures i == FirstClear(ids[..])
    {
      i := 0;
      while i < ids.Length && ids[i]
        invariant i <= ids.Length && forall j :: 0 <= j < i ==> ids[j]
      {
        i := i + 1;
      }
    }

    method DestroyVdevice(vinput: nat, ghost front: seq<nat>, ghost back: seq<nat>)
      requires Shape() && vdevices.nodes == front + [vinput] + back && vinput in info
      requires info[vinput].id < MINORS && DistinctIds(State().devs)
      modifies this, ids, vdevices
      ensures Shape() && State() == Destroy(old(State()), old(info[vinput].id))
      ensures vdevices.nodes == front + back && info == old(info) - {vinput}
    {
      DelApart(front, vinput, back);
      DestroyAt(front, vinput, back, info);
      vdevices.Del(vinput, front, back);
      ids[info[vinput].id] := false;
      info := info - {vinput};
    }

    /** `memory` is what kzalloc returns: an address that is not in use, or nothing. */
    method AllocVdevice(memory: Option<nat>, input: bool) returns (v: Option<nat>, err: int)
      requires Valid() && (memory.Some? ==> memory.value != HEAD && memory.value !in info)
      modifies this, ids, vdevices
      ensures Shape() && types == old(types)
      ensures var r, id := old(State()), FirstClear(old(ids[..]));
              if memory.None? then v == None && err == -ENOMEM && State() == r
              else if id >= MINORS then v == None && err == -ENOBUFS && State() == r
              else if !input then v == None && err == -ENOMEM && State() == r.(bits := r.bits[id := true])
              else v == memory && State() == r.(bits := r.bits[id := true], devs := [Dev(id, NULL)] + r.devs)
                   && vdevices.nodes == [memory.value] + old(vdevices.nodes)
                   && info == old(info)[memory.value := Dev(id, NULL)]
    {
      if memory.None? { return None, -ENOMEM; }
      var vinput := memory.value;
      ghost var nodes, was := vdevices.nodes, info;
      info := info[vinput := Dev(0, NULL)];
      label FailId: {
        label FailInputDev: {
          var id := FindFirstZeroBit();
          info := info[vinput := Dev(id, NULL)];
          DevsOfAdded(nodes, was, vinput, Dev(id, NULL));
          assert info == was[vinput := Dev(id, NULL)];
          if id >= MINORS { err := -ENOBUFS; break FailId; }
          ids[id] := true;
          vdevices.Add(vinput);
          if !input { err := -ENOMEM; break FailInputDev; }
          return Some(vinput), 0;
        }
        vdevices.Del(vinput, [], nodes);
      }
      info := info - {vinput};
      v := None;
    }

    method ExportStore(buf: string, memory: Option<nat>, input: bool, register: int, init: int) returns (ret: int)
      requires Valid() && (memory.Some? ==> memory.value != HEAD && memory.value !in info)
      modifies this, ids, vdevices
      ensures Valid()
      ensures (State(), ret) ==
              Vinput.ExportStore(old(State()), buf, Answers(memory.Some?, input, register, init))
    {
      ghost var r, nodes := State(), vdevices.nodes;
      ghost var first;
      var device;
      device, first := GetDeviceByType(buf);
      if device.None? { return -ENODEV; }
      var vinput, err := AllocVdevice(memory, input);
      if vinput.None? { return err; }
      var v := vinput.value;
      ghost var id := FirstClear(r.bits);
      assert info[v] == Dev(id, NULL) && ids[..] == r.bits[id := true];
      info := info[v := info[v].(kind := device.value.key)];
      ghost var listed := Exported(r, buf, Answers(true, true, register, init));
      Named(nodes, old(info), v, id, device.value.key);
      assert vdevices.nodes == [v] + nodes && info == old(info)[v := Dev(id, NULL)][v := Dev(id, device.value.key)];
      assert Shape();
      assert State().devs == [Dev(id, device.value.key)] + r.devs && ids[..] == listed.bits && types == listed.types;
      ret := Admit(v, nodes, register, init, |buf|);
    }

    /** The second half of export: `device_register` and the type's own init, and their failures. */
    method Admit(v: nat, ghost nodes: seq<nat>, register: int, init: int, len: nat) returns (ret: int)
      requires Valid() && vdevices.nodes == [v] + nodes && v in info && info[v].id < MINORS
      modifies this, ids, vdevices
      ensures Shape()
      ensures var was, id := old(State()), old(info[v].id);
              (State(), ret) == if register < 0 then (Destroy(was, id), register)
                                else if init < 0 then (Destroy(was, id), init) else (was, len)
    {
      assert [] + [v] + nodes == [v] + nodes;
      if register < 0 {
        DestroyVdevice(v, [], nodes);
        return register;
      }
      if init < 0 {
        ReleaseDev(v, [], nodes);
        return init;
      }
      ret := len;
    }

    /** `vinput_release_dev`, at the last reference. */
    method ReleaseDev(vinput: nat, ghost front: seq<nat>, ghost back: seq<nat>)
      requires Shape() && vdevices.nodes == front + [vinput] + back && vinput in info
      requires info[vinput].id < MINORS && DistinctIds(State().devs)
      modifies this, ids, vdevices
      ensures Shape() && State() == Destroy(old(State()), old(info[vinput].id))
      ensures vdevices.nodes == front + back && info == old(info) - {vinput}
    {
      DestroyVdevice(vinput, front, back);
    }

    method UnexportStore(buf: string) returns (ret: int)
      requires Valid()
      modifies this, ids, vdevices
      ensures Valid() && (State(), ret) == Vinput.UnexportStore(old(State()), buf)
    {
      var id := Kstrtol(buf);
      if !id.Value? { return -EINVAL; }
      var vinput, front, back := GetVdeviceById(id.v);
      if vinput.None? { return -ENODEV; }
      DestroyOk(State(), info[vinput.value].id);
      ReleaseDev(vinput.value, front, back);
      ret := |buf|;
    }

    method Register(t: Type)
      requires Valid() && !Registered(types, t.key)
      modifies this
      ensures Valid() && State() == Apply(old(State()), Op.Register(t))
    {
      ApplyOk(State(), Op.Register(t));
      types := [t] + types;
    }

    /** The body of the loop of `vinput_unregister`. */
    method Visit(curr: nat, key: nat, ghost r: Registry, ghost done: nat, ghost front: seq<nat>, ghost back: seq<nat>)
        returns (ghost kept: seq<nat>)
      requires Shape() && vdevices.nodes == front + [curr] + back
      requires Ok(r) && done < |r.devs| && State() == Midway(r, key, done) && |back| == |r.devs| - done - 1
      modifies this, ids, vdevices
      ensures Shape() && vdevices.nodes == kept + back && State() == Midway(r, key, done + 1)
    {
      RemainingDistinct(r.devs, key, done);
      MidwayStep(r, key, done);
      assert State().devs[|front|] == info[curr] == r.devs[done];
      kept := front;
      if info[curr].kind == key {
        ReleaseDev(curr, front, back);
      } else {
        kept := kept + [curr];
      }
    }

    /** The loop of `vinput_unregister`: list_for_each_safe, some entries being unlinked on the way. */
    method Sweep(key: nat, ghost r: Registry)
      requires Shape() && Ok(r) && State() == Midway(r, key, 0)
      modifies this, ids, vdevices
      ensures Shape() && State() == Midway(r, key, |r.devs|)
    {
      ghost var start, front, done := vdevices.nodes, [], 0;
      MidwayBegin(r, key);
      assert |start| == |State().devs| == |r.devs|;
      vdevices.HasNext(0);
      SafeNext(vdevices, [], start, 0);
      var curr := vdevices.next[HEAD];
      var next := vdevices.next[curr];
      while curr != HEAD
        invariant Shape() && done <= |start| == |r.devs| && vdevices.nodes == front + start[done..]
        invariant State() == Midway(r, key, done)
        invariant curr == Ring(start)[done+1] && (curr != HEAD ==> next == Ring(start)[done+2])
        decreases |start| - done
      {
        Split(front, start, done);
        front := Visit(curr, key, r, done, front, start[done+1..]);
        done := done + 1;
        curr := next;
        SafeNext(vdevices, front, start, done);
        next := vdevices.next[curr];
      }
    }

    /** `vinput_unregister`; the type is unlinked first, and then every device that has it. */
    method Unregister(key: nat)
      requires Valid() && Registered(types, key)
      modifies this, ids, vdevices
      ensures Valid() && State() == Apply(old(State()), Op.Unregister(key))
    {
      ghost var r := State();
      types := Filter(types, HasKey(key));
      MidwayBegin(r, key);
      Sweep(key, r);
      MidwayEnd(r, key);
      UnregisterOk(r, key);
    }
  }
}
