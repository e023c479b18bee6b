/**
 The doubly linked list of the kernel, as far as the modules use it: list_add, list_del and
 the links that list_for_each and list_for_each_safe follow. Entries are addresses; the two
 maps hold their links, and an entry that list_del has poisoned is in neither.
 */
module KernelList {

  const HEAD: nat := 0

  /** The entries as list_for_each meets them, from the head around to the head. */
  function Ring(nodes: seq<nat>): (c: seq<nat>)
    ensures |c| == |nodes| + 2 && c[0] == HEAD && c[|nodes|+1] == HEAD
    ensures forall i :: 1 <= i <= |nodes| ==> c[i] == nodes[i-1]
  {
    [HEAD] + nodes + [HEAD]
  }

  predicate Distinct<T(==)>(s: seq<T>) {
    forall i, j :: 0 <= i < j < |s| ==> s[i] != s[j]
  }

  predicate Follows(next: map<nat, nat>, prev: map<nat, nat>, a: nat, b: nat) {
    a in next && b in prev && next[a] == b && prev[b] == a
  }

  /** Entries k and k + 1 of the ring are linked to each other. */
  predicate Joined(next: map<nat, nat>, prev: map<nat, nat>, nodes: seq<nat>, k: nat)
    requires k <= |nodes|
  {
    Follows(next, prev, Ring(nodes)[k], Ring(nodes)[k+1])
  }

  predicate Apart(nodes: seq<nat>, i: nat, j: nat)
    requires i < j < |nodes|
  {
    nodes[i] != nodes[j]
  }

  ghost predicate Linked(next: map<nat, nat>, prev: map<nat, nat>, nodes: seq<nat>) {
    && (forall i, j :: 0 <= i < j < |nodes| ==> Apart(nodes, i, j)) && HEAD !in nodes
    && (forall k :: 0 <= k <= |nodes| ==> Joined(next, prev, nodes, k))
    && (forall a :: a in next <==> a == HEAD || a in nodes)
    && (forall a :: a in prev <==> a == HEAD || a in nodes)
  }

  lemma AllApart(nodes: seq<nat>)
    requires forall i, j :: 0 <= i < j < |nodes| ==> Apart(nodes, i, j)
    ensures Distinct(nodes)
  {
    forall i, j | 0 <= i < j < |nodes|
      ensures nodes[i] != nodes[j]
    {
      assert Apart(nodes, i, j);
    }
  }

  lemma AddLinks(next: map<nat, nat>, prev: map<nat, nat>, nodes: seq<nat>, x: nat)
    requires Linked(next, prev, nodes) && x != HEAD && x !in nodes
    ensures HEAD in next
    ensures Linked(next[x := next[HEAD]][HEAD := x], prev[next[HEAD] := x][x := HEAD], [x] + nodes)
  {
    AllApart(nodes);
    assert Joined(next, prev, nodes, 0);
    var n, p := next[x := next[HEAD]][HEAD := x], prev[next[HEAD] := x][x := HEAD];
    forall k | 0 <= k <= |nodes| + 1
      ensures Joined(n, p, [x] + nodes, k)
    {
      if k >= 1 { assert Joined(next, prev, nodes, k - 1); }
    }
  }

  /** No two entries of the ring are the same but for the head at both ends. */
  lemma RingApart(nodes: seq<nat>, i: nat, j: nat)
    requires HEAD !in nodes && (forall i, j :: 0 <= i < j < |nodes| ==> Apart(nodes, i, j))
    requires i <= |nodes| + 1 && j <= |nodes| + 1 && i != j
    requires 0 < i <= |nodes| || 0 < j <= |nodes|
    ensures Ring(nodes)[i] != Ring(nodes)[j]
  {
    if 0 < i < j <= |nodes| { assert Apart(nodes, i - 1, j - 1); }
    if 0 < j < i <= |nodes| { assert Apart(nodes, j - 1, i - 1); }
  }

  /** With x gone, entry i and the one after it are neighbours. */
  lemma DelJoined(next: map<nat, nat>, prev: map<nat, nat>, front: seq<nat>, x: nat, back: seq<nat>, i: nat)
    requires Linked(next, prev, front + [x] + back) && i <= |front + back|
    requires x in next && x in prev
    ensures Joined(next[prev[x] := next[x]] - {x}, prev[next[x] := prev[x]] - {x}, front + back, i)
  {
    var k, nodes := |front|, front + [x] + back;
    var c, d := Ring(nodes), Ring(front + back);
    assert Joined(next, prev, nodes, k) && Joined(next, prev, nodes, k + 1);
    assert Joined(next, prev, nodes, if i < k then i else i + 1);
    assert d[i] == (if i <= k then c[i] else c[i+1]) && d[i+1] == (if i + 1 <= k then c[i+1] else c[i+2]);
    RingApart(nodes, k + 1, if i <= k then i else i + 1);
    RingApart(nodes, k + 1, if i + 1 <= k then i + 1 else i + 2);
    if i < k {
      RingApart(nodes, i + 1, k + 2);
      RingApart(nodes, k, i);
    } else if i > k {
      RingApart(nodes, k, i + 1);
      RingApart(nodes, i + 2, k + 2);
    }
  }

  lemma DelLinks(next: map<nat, nat>, prev: map<nat, nat>, front: seq<nat>, x: nat, back: seq<nat>)
    requires Linked(next, prev, front + [x] + back)
    ensures x in next && x in prev
    ensures Linked(next[prev[x] := next[x]] - {x}, prev[next[x] := prev[x]] - {x}, front + back)
  {
    var nodes := front + [x] + back;
    assert nodes[|front|] == x;
    assert Joined(next, prev, nodes, |front|) && Joined(next, prev, nodes, |front| + 1);
    var n, p := next[prev[x] := next[x]] - {x}, prev[next[x] := prev[x]] - {x};
    forall i | 0 <= i <= |front + back|
      ensures Joined(n, p, front + back, i)
    {
      DelJoined(next, prev, front, x, back, i);
    }
    DelApart(front, x, back);
  }

  lemma DelApart(front: seq<nat>, x: nat, back: seq<nat>)
    requires var nodes := front + [x] + back; forall i, j :: 0 <= i < j < |nodes| ==> Apart(nodes, i, j)
    ensures x !in front + back
    ensures forall i, j :: 0 <= i < j < |front + back| ==> Apart(front + back, i, j)
  {
    var nodes, k := front + [x] + back, |front|;
    forall i | 0 <= i < |front + back|
      ensures (front + back)[i] != x
    {
      assert Apart(nodes, if i < k then i else k, if i < k then k else i + 1);
    }
    forall i, j | 0 <= i < j < |front + back|
      ensures Apart(front + back, i, j)
    {
      assert Apart(nodes, if i < k then i else i + 1, if j < k then j else j + 1);
    }
  }

  class List {
    var next: map<nat, nat>
    var prev: map<nat, nat>
    ghost var nodes: seq<nat>

    ghost predicate Valid()
      reads this
    {
      Linked(next, prev, nodes)
    }

    constructor ()
      ensures Valid() && nodes == []
    {
      next, prev, nodes := map[HEAD := HEAD], map[HEAD := HEAD], [];
    }

    /** Following a link from entry k of the ring. */
    lemma HasNext(k: nat)
      requires Valid() && k <= |nodes|
      ensures Ring(nodes)[k] in next && next[Ring(nodes)[k]] == Ring(nodes)[k+1]
    {
      assert Joined(next, prev, nodes, k);
    }

    /** list_add: right after the head. */
    method Add(x: nat)
      requires Valid() && x != HEAD && x !in nodes
      modifies this
      ensures Valid() && nodes == [x] + old(nodes)
    {
      AddLinks(next, prev, nodes, x);
      var first := next[HEAD];
      prev := prev[first := x];
      next := next[x := first];
      prev := prev[x := HEAD];
      next := next[HEAD := x];
      nodes := [x] + nodes;
    }

    method Del(x: nat, ghost front: seq<nat>, ghost back: seq<nat>)
      requires Valid() && nodes == front + [x] + back
      modifies this
      ensures Valid() && nodes == front + back
    {
      DelLinks(next, prev, front, x, back);
      var p, n := prev[x], next[x];
      prev := prev[n := p];
      next := next[p := n];
      next, prev := next - {x}, prev - {x};
      nodes := front + back;
    }
  }
}
