/** The static pool of doubly linked elements that game/include/adt/linklist.h instantiates:
    elements are named by their index in the pool, the null pointer by NULL. */
module Linklist {
  const NULL := -1

  datatype Node<T> = Node(data: T, prev: int, next: int)

  // ----- sequences of elements

  ghost predicate Distinct(s: seq<nat>) { forall i, j :: 0 <= i < j < |s| ==> s[i] != s[j] }

  predicate Within(s: seq<nat>, n: nat) { forall k :: 0 <= k < |s| ==> s[k] < n }

  function At(s: seq<nat>, k: int): int { if 0 <= k < |s| then s[k] else NULL }

  function RemoveAt<X>(s: seq<X>, k: nat): (r: seq<X>)
    requires k < |s|
    ensures |r| == |s| - 1
  {
    s[..k] + s[k + 1..]
  }

  function Iota(n: nat): (s: seq<nat>) { seq(n, i requires i >= 0 => i) }

  lemma RemoveIndex(s: seq<nat>, k: nat, i: int)
    requires k < |s|
    ensures At(RemoveAt(s, k), i) == if i < k then At(s, i) else At(s, i + 1)
  {}

  lemma RemoveDistinct(s: seq<nat>, k: nat)
    requires Distinct(s) && k < |s|
    ensures Distinct(RemoveAt(s, k)) && s[k] !in RemoveAt(s, k)
  {
    var r := RemoveAt(s, k);
    assert forall i :: 0 <= i < |r| ==> r[i] == s[if i < k then i else i + 1];
  }

  // ----- the two lists that run through the pool

  predicate Joined<T>(ls: seq<Node<T>>, s: seq<nat>, k: int) {
    0 <= k < |s| && s[k] < |ls| && ls[s[k]].next == At(s, k + 1) && ls[s[k]].prev == At(s, k - 1)
  }

  /** From head, the links in both directions visit exactly s. */
  ghost predicate Linked<T>(ls: seq<Node<T>>, head: int, s: seq<nat>) {
    Distinct(s) && Within(s, |ls|) && head == At(s, 0) && forall k :: 0 <= k < |s| ==> Joined(ls, s, k)
  }

  /** What the elements s carry, in order. */
  function Shown<T>(ls: seq<Node<T>>, s: seq<nat>): (d: seq<T>)
    requires Within(s, |ls|)
    ensures |d| == |s|
  {
    seq(|s|, k requires 0 <= k < |s| => ls[s[k]].data)
  }

  predicate Chained<T>(ls: seq<Node<T>>, s: seq<nat>, k: int) {
    0 <= k < |s| && s[k] < |ls| && ls[s[k]].next == At(s, k + 1)
  }

  /** The free list is linked forwards only. */
  ghost predicate FreeLinked<T>(ls: seq<Node<T>>, free: int, s: seq<nat>) {
    Distinct(s) && free == At(s, 0) && forall k :: 0 <= k < |s| ==> Chained(ls, s, k)
  }

  /** The two lists are the whole pool, each element once. */
  ghost predicate Partition(live: seq<nat>, idle: seq<nat>, n: nat) {
    Distinct(live + idle) && Within(live + idle, n) && |live| + |idle| == n
  }

  lemma LinkedFrame<T>(ls: seq<Node<T>>, ks: seq<Node<T>>, head: int, s: seq<nat>)
    requires Linked(ls, head, s) && |ks| == |ls|
    requires forall k :: k in s && k < |ls| ==> ks[k].next == ls[k].next && ks[k].prev == ls[k].prev
    ensures Linked(ks, head, s)
    ensures (forall k :: k in s && k < |ls| ==> ks[k].data == ls[k].data) ==> Shown(ks, s) == Shown(ls, s)
  {
    assert forall k :: 0 <= k < |s| ==> s[k] in s;
    forall k | 0 <= k < |s|
      ensures Joined(ks, s, k)
    {
      assert Joined(ls, s, k) && s[k] in s;
    }
  }

  lemma FreeFrame<T>(ls: seq<Node<T>>, ks: seq<Node<T>>, free: int, s: seq<nat>)
    requires FreeLinked(ls, free, s) && |ks| == |ls|
    requires forall k :: k in s && k < |ls| ==> ks[k].next == ls[k].next
    ensures FreeLinked(ks, free, s)
  {
    forall k | 0 <= k < |s|
      ensures Chained(ks, s, k)
    {
      assert Chained(ls, s, k) && s[k] in s;
    }
  }

  /** The source's allocation assertion fails exactly when a single element is left. */
  lemma OneKeptBack<T>(ls: seq<Node<T>>, free: int, s: seq<nat>)
    requires FreeLinked(ls, free, s) && s != []
    ensures 0 <= free < |ls| && (ls[free].next == NULL <==> |s| == 1)
  {
    assert Chained(ls, s, 0);
  }

  // ----- what insertion at the front and removal do

  function Inserted<T>(ls: seq<Node<T>>, prev: int, next: int, obj: nat): (ks: seq<Node<T>>)
    requires obj < |ls| && NULL <= prev < |ls| && NULL <= next < |ls|
    ensures |ks| == |ls|
  {
    var a := ls[obj := ls[obj].(prev := prev, next := next)];
    var b := if prev != NULL then a[prev := a[prev].(next := obj)] else a;
    if next != NULL then b[next := b[next].(prev := obj)] else b
  }

  function Removed<T>(ls: seq<Node<T>>, node: nat): (ks: seq<Node<T>>)
    requires node < |ls| && NULL <= ls[node].prev < |ls| && NULL <= ls[node].next < |ls|
    ensures |ks| == |ls|
  {
    var prev, next := ls[node].prev, ls[node].next;
    var a := if prev != NULL then ls[prev := ls[prev].(next := next)] else ls;
    if next != NULL then a[next := a[next].(prev := prev)] else a
  }

  lemma LinkedAlone<T>(ls: seq<Node<T>>, p: nat)
    requires p < |ls| && ls[p].prev == ls[p].next == NULL
    ensures Linked(ls, p, [p])
  {}

  // The sequence with one more element.
  function InsertAt<X>(s: seq<X>, k: nat, x: X): (r: seq<X>)
    requires k <= |s|
    ensures |r| == |s| + 1
  {
    s[..k] + [x] + s[k..]
  }

  // Where the element at place i of the longer sequence was before.
  function Before(k: nat, i: int): int { if i < k then i else i - 1 }

  lemma InsertIndex<X>(s: seq<X>, k: nat, x: X, i: nat)
    requires k <= |s| && i <= |s|
    ensures InsertAt(s, k, x)[i] == if i == k then x else s[Before(k, i)]
  {}

  lemma InsertNeighbour(s: seq<nat>, k: nat, p: nat, i: int)
    requires k <= |s|
    ensures At(InsertAt<nat>(s, k, p), i) == if i == k then p else At(s, Before(k, i))
  {}

  // One element of the pool after an insertion.
  lemma InsertedNode<T>(ls: seq<Node<T>>, prev: int, next: int, obj: nat, x: nat)
    requires obj < |ls| && NULL <= prev < |ls| && NULL <= next < |ls| && x < |ls|
    requires obj != prev && obj != next && (prev == NULL || prev != next)
    ensures Inserted(ls, prev, next, obj)[x] ==
      if x == obj then ls[x].(prev := prev, next := next)
      else if x == prev then ls[x].(next := obj)
      else if x == next then ls[x].(prev := obj)
      else ls[x]
  {}

  // The neighbours of place k are two elements of the list, or none.
  lemma Gap(s: seq<nat>, n: nat, k: nat, p: nat)
    requires Distinct(s) && Within(s, n) && k <= |s| && p !in s
    ensures NULL <= At(s, k - 1) < n && NULL <= At(s, k) < n && At(s, k - 1) != p && At(s, k) != p
    ensures At(s, k - 1) == NULL || At(s, k - 1) != At(s, k)
    ensures forall j :: 0 <= j < |s| ==> (s[j] == At(s, k - 1) <==> j == k - 1) && (s[j] == At(s, k) <==> j == k)
    ensures forall j :: 0 <= j < |s| ==> s[j] != p
  {
    assert k > 0 ==> s[k - 1] in s;
    assert k < |s| ==> s[k] in s;
    assert forall j :: 0 <= j < |s| ==> s[j] in s;
  }

  /** Inserting an element between two neighbours, or at either end of the list, puts exactly it there. */
  lemma InsertBetween<T>(ls: seq<Node<T>>, head: int, s: seq<nat>, k: nat, p: nat)
    requires Linked(ls, head, s) && s != [] && k <= |s| && p < |ls| && p !in s
    ensures NULL <= At(s, k - 1) < |ls| && NULL <= At(s, k) < |ls|
    ensures var ks, r := Inserted(ls, At(s, k - 1), At(s, k), p), InsertAt<nat>(s, k, p);
      && Linked(ks, if k == 0 then p else head, r) && Shown(ks, r) == InsertAt<T>(Shown(ls, s), k, ls[p].data)
    ensures forall x :: 0 <= x < |ls| && x != p && x !in s ==> Inserted(ls, At(s, k - 1), At(s, k), p)[x] == ls[x]
  {
    hide InsertAt, Inserted, At, Distinct;
    Gap(s, |ls|, k, p);
    var ks, r := Inserted(ls, At(s, k - 1), At(s, k), p), InsertAt<nat>(s, k, p);
    forall i | 0 <= i < |r|
      ensures r[i] < |ls| && Joined(ks, r, i) && ks[r[i]].data == InsertAt<T>(Shown(ls, s), k, ls[p].data)[i]
    {
      InsertIndex<nat>(s, k, p, i);
      InsertIndex<T>(Shown(ls, s), k, ls[p].data, i);
      InsertJoined(ls, head, s, k, p, i);
    }
    InsertDistinct(s, k, p);
    InsertNeighbour(s, k, p, 0);
    forall x | 0 <= x < |ls| && x != p && x !in s
      ensures ks[x] == ls[x]
    {
      EndsIn(s, k);
      InsertedNode(ls, At(s, k - 1), At(s, k), p, x);
    }
  }

  lemma EndsIn(s: seq<nat>, k: nat)
    requires k <= |s|
    ensures At(s, k - 1) == NULL || (At(s, k - 1) >= 0 && At(s, k - 1) in s)
    ensures At(s, k) == NULL || (At(s, k) >= 0 && At(s, k) in s)
  {}

  lemma InsertDistinct(s: seq<nat>, k: nat, p: nat)
    requires Distinct(s) && k <= |s| && p !in s
    ensures Distinct(InsertAt<nat>(s, k, p))
  {
    var r := InsertAt<nat>(s, k, p);
    assert forall i :: 0 <= i < |r| ==> r[i] == if i == k then p else s[Before(k, i)];
    assert forall j :: 0 <= j < |s| ==> s[j] in s;
  }

  lemma InsertJoined<T>(ls: seq<Node<T>>, head: int, s: seq<nat>, k: nat, p: nat, i: nat)
    requires Linked(ls, head, s) && s != [] && k <= |s| && p < |ls| && p !in s && i <= |s|
    ensures NULL <= At(s, k - 1) < |ls| && NULL <= At(s, k) < |ls|
    ensures var ks, r := Inserted(ls, At(s, k - 1), At(s, k), p), InsertAt<nat>(s, k, p);
      r[i] < |ls| && Joined(ks, r, i) && ks[r[i]].data == ls[r[i]].data
  {
    hide InsertAt, Inserted, At, Distinct;
    Gap(s, |ls|, k, p);
    InsertIndex<nat>(s, k, p, i);
    InsertNeighbour(s, k, p, i - 1);
    InsertNeighbour(s, k, p, i + 1);
    InsertedNode(ls, At(s, k - 1), At(s, k), p, InsertAt<nat>(s, k, p)[i]);
    if i != k {
      assert Joined(ls, s, Before(k, i));
    }
  }

  /** Inserting before the head makes the new element the head. */
  lemma PushFront<T>(ls: seq<Node<T>>, head: int, s: seq<nat>, p: nat)
    requires Linked(ls, head, s) && s != [] && p < |ls| && p !in s
    ensures 0 <= head < |ls| && Linked(Inserted(ls, NULL, head, p), p, [p] + s)
    ensures Shown(Inserted(ls, NULL, head, p), [p] + s) == [ls[p].data] + Shown(ls, s)
    ensures forall k :: 0 <= k < |ls| && k != p && k !in s ==> Inserted(ls, NULL, head, p)[k] == ls[k]
  {
    hide Inserted;
    assert Joined(ls, s, 0);
    InsertBetween(ls, head, s, 0, p);
    assert InsertAt<nat>(s, 0, p) == [p] + s;
  }

  /** Linking the neighbours of element k to each other takes exactly that element out. */
  lemma Unlink<T>(ls: seq<Node<T>>, head: int, s: seq<nat>, k: nat)
    requires Linked(ls, head, s) && k < |s|
    ensures Joined(ls, s, k) && NULL <= ls[s[k]].prev < |ls| && NULL <= ls[s[k]].next < |ls|
    ensures Linked(Removed(ls, s[k]), if k == 0 then At(s, 1) else head, RemoveAt(s, k))
    ensures Shown(Removed(ls, s[k]), RemoveAt(s, k)) == RemoveAt(Shown(ls, s), k)
    ensures forall x :: 0 <= x < |ls| && x !in s ==> Removed(ls, s[k])[x] == ls[x]
    ensures ls[s[k]] == Removed(ls, s[k])[s[k]]
  {
    hide RemoveAt, Removed, At, Distinct;
    RemoveDistinct(s, k);
    RemoveIndex(s, k, 0);
    Neighbours(ls, head, s, k);
    forall i | 0 <= i < |s| - 1
      ensures Joined(Removed(ls, s[k]), RemoveAt(s, k), i)
    {
      UnlinkAt(ls, head, s, k, i);
    }
    RemovedData(ls, s, k);
    assert At(s, 0) == head;
    assert k == 0 || At(RemoveAt(s, k), 0) == At(s, 0);
  }

  lemma Neighbours<T>(ls: seq<Node<T>>, head: int, s: seq<nat>, k: nat)
    requires Linked(ls, head, s) && k < |s|
    ensures Joined(ls, s, k) && NULL <= ls[s[k]].prev < |ls| && NULL <= ls[s[k]].next < |ls|
    ensures forall x :: 0 <= x < |ls| && x !in s ==> Removed(ls, s[k])[x] == ls[x]
    ensures ls[s[k]] == Removed(ls, s[k])[s[k]]
  {
    assert Joined(ls, s, k);
    assert k > 0 ==> Joined(ls, s, k - 1) && s[k - 1] in s;
    assert k + 1 < |s| ==> Joined(ls, s, k + 1) && s[k + 1] in s;
  }

  lemma RemovedData<T>(ls: seq<Node<T>>, s: seq<nat>, k: nat)
    requires Within(s, |ls|) && k < |s|
    requires NULL <= ls[s[k]].prev < |ls| && NULL <= ls[s[k]].next < |ls|
    ensures Within(RemoveAt(s, k), |ls|)
    ensures Shown(Removed(ls, s[k]), RemoveAt(s, k)) == RemoveAt(Shown(ls, s), k)
  {
    var r, ks := RemoveAt(s, k), Removed(ls, s[k]);
    forall i | 0 <= i < |r|
      ensures r[i] < |ls| && ks[r[i]].data == RemoveAt(Shown(ls, s), k)[i]
    {
      assert r[i] == s[if i < k then i else i + 1];
    }
  }

  lemma UnlinkAt<T>(ls: seq<Node<T>>, head: int, s: seq<nat>, k: nat, i: nat)
    requires Linked(ls, head, s) && k < |s| && i < |s| - 1
    requires Joined(ls, s, k) && NULL <= ls[s[k]].prev < |ls| && NULL <= ls[s[k]].next < |ls|
    ensures Joined(Removed(ls, s[k]), RemoveAt(s, k), i)
  {
    hide RemoveAt;
    RemoveIndex(s, k, i);
    RemoveIndex(s, k, i + 1);
    RemoveIndex(s, k, i - 1);
    var j := if i < k then i else i + 1;
    assert Joined(ls, s, j);
    assert k > 0 && j != k - 1 ==> s[j] != s[k - 1];
    assert k + 1 < |s| && j != k + 1 ==> s[j] != s[k + 1];
  }

  // ----- how elements change lists

  lemma TakeFree(live: seq<nat>, idle: seq<nat>, n: nat)
    requires Partition(live, idle, n) && idle != []
    ensures idle[0] !in live && Partition([idle[0]] + live, idle[1..], n)
    ensures forall x :: x in live ==> x !in idle
  {
    var p, all := idle[0], live + idle;
    var r := ([p] + live) + idle[1..];
    forall i | 0 <= i < |r|
      ensures r[i] == all[TakeIndex(i, |live|)]
    {}
    forall i, j | 0 <= i < j < |r|
      ensures r[i] != r[j]
    {
      assert TakeIndex(i, |live|) != TakeIndex(j, |live|);
    }
    Apart(live, idle, n);
  }

  function TakeIndex(i: nat, n: nat): int { if i == 0 then n else if i <= n then i - 1 else i }

  lemma Apart(live: seq<nat>, idle: seq<nat>, n: nat)
    requires Partition(live, idle, n)
    ensures forall x :: x in live ==> x !in idle
    ensures Distinct(live) && Distinct(idle) && Within(live, n) && Within(idle, n)
  {
    var all := live + idle;
    assert forall a :: 0 <= a < |live| ==> all[a] == live[a];
    assert forall b :: 0 <= b < |idle| ==> all[|live| + b] == idle[b];
  }

  lemma GiveBack(live: seq<nat>, idle: seq<nat>, k: nat, n: nat)
    requires Partition(live, idle, n) && k < |live|
    ensures live[k] !in idle && Partition(RemoveAt(live, k), [live[k]] + idle, n)
    ensures forall x :: x in live ==> x !in idle
  {
    var all := live + idle;
    var r := RemoveAt(live, k) + ([live[k]] + idle);
    forall i | 0 <= i < |r|
      ensures r[i] == all[GiveIndex(i, k, |live|)]
    {}
    forall i, j | 0 <= i < j < |r|
      ensures r[i] != r[j]
    {
      assert GiveIndex(i, k, |live|) != GiveIndex(j, k, |live|);
    }
    Apart(live, idle, n);
  }

  function GiveIndex(i: nat, k: nat, n: nat): int {
    if i < k then i else if i < n - 1 then i + 1 else if i == n - 1 then k else i
  }

  class Pool<T> {
    const size: nat
    const nodes: array<Node<T>>
    var free: int
    ghost var idle: seq<nat> // the free list; before the first allocation the whole pool, not yet chained

    ghost predicate Valid()
      reads this, nodes
    {
      && nodes.Length == size + 1 && size > 0 && idle != []
      && if free == NULL then idle == Iota(size + 1) && nodes[size].next == NULL
         else FreeLinked(nodes[..], free, idle)
    }

    constructor (size: nat, zero: T)
      requires size > 0
      ensures Valid() && fresh(nodes) && this.size == size && idle == Iota(size + 1)
    {
      this.size, free, idle := size, NULL, Iota(size + 1);
      nodes := new Node<T>[size + 1](_ => Node(zero, NULL, NULL));
    }

    /** Allocation keeps one element back: its assertion holds exactly while two are free. */
    method New() returns (p: nat)
      requires Valid() && |idle| > 1
      modifies this, nodes
      ensures Valid() && free != NULL
      ensures p == old(idle)[0] && idle == old(idle)[1..]
      ensures p < nodes.Length && nodes[p].prev == nodes[p].next == NULL
      ensures forall k :: 0 <= k < nodes.Length && k !in old(idle) ==> nodes[k] == old(nodes[k])
    {
      var freeHead := free;
      if freeHead == NULL {
        ChainAll();
        freeHead := 0;
      }
      ghost var ls := nodes[..];
      assert FreeLinked(ls, freeHead, idle);
      assert Chained(ls, idle, 0);
      assert nodes[freeHead].next != NULL;
      p := freeHead;
      free := nodes[freeHead].next;
      nodes[p] := nodes[p].(prev := NULL, next := NULL);
      idle := idle[1..];
      Popped(ls, nodes[..], freeHead, old(idle));
      assert p == old(idle)[0] && p in old(idle);
    }

    method ChainAll()
      requires Valid() && free == NULL
      modifies nodes
      ensures FreeLinked(nodes[..], 0, idle)
      ensures forall k :: 0 <= k < nodes.Length ==> k in idle
    {
      for i := 1 to size + 1
        invariant nodes[size].next == NULL
        invariant forall k :: 0 <= k < i - 1 ==> nodes[k].next == k + 1
      {
        nodes[i - 1] := nodes[i - 1].(next := i);
      }
      forall k | 0 <= k < nodes.Length
        ensures k in idle
      {
        assert idle[k] == k;
      }
    }

    method Insert(prev: int, next: int, obj: nat)
      requires obj < nodes.Length && NULL <= prev < nodes.Length && NULL <= next < nodes.Length
      requires prev != NULL || next != NULL
      modifies nodes
      ensures nodes[..] == Inserted(old(nodes[..]), prev, next, obj)
    {
      nodes[obj] := nodes[obj].(prev := prev, next := next);
      if prev != NULL {
        nodes[prev] := nodes[prev].(next := obj);
      }
      if next != NULL {
        nodes[next] := nodes[next].(prev := obj);
      }
    }

    method Remove(node: nat)
      requires node < nodes.Length
      requires NULL <= nodes[node].prev < nodes.Length && NULL <= nodes[node].next < nodes.Length
      modifies nodes
      ensures nodes[..] == Removed(old(nodes[..]), node)
    {
      var prev, next := nodes[node].prev, nodes[node].next;
      if prev != NULL {
        nodes[prev] := nodes[prev].(next := next);
      }
      if next != NULL {
        nodes[next] := nodes[next].(prev := prev);
      }
    }

    method Free(node: nat)
      requires Valid() && free != NULL && node < nodes.Length && node !in idle
      modifies this, nodes
      ensures Valid() && free == node && idle == [node] + old(idle)
      ensures nodes[..] == old(nodes[..])[node := nodes[node]]
      ensures nodes[node].data == old(nodes[node].data)
    {
      ghost var ls := nodes[..];
      nodes[node] := nodes[node].(next := free);
      FreePushed(ls, nodes[..], free, idle, node);
      idle := [node] + idle;
      free := node;
    }
  }

  lemma FreePushed<T>(ls: seq<Node<T>>, ks: seq<Node<T>>, free: int, s: seq<nat>, p: nat)
    requires FreeLinked(ls, free, s) && p < |ls| && p !in s
    requires |ks| == |ls| && ks == ls[p := ks[p]] && ks[p].next == free
    ensures FreeLinked(ks, p, [p] + s)
  {
    var r := [p] + s;
    forall i | 0 <= i < |r|
      ensures Chained(ks, r, i)
    {
      if i > 0 {
        assert r[i] == s[i - 1] && s[i - 1] in s && Chained(ls, s, i - 1);
      }
    }
  }

  lemma Popped<T>(ls: seq<Node<T>>, ks: seq<Node<T>>, free: int, s: seq<nat>)
    requires FreeLinked(ls, free, s) && |s| > 1 && Chained(ls, s, 0)
    requires |ks| == |ls| && ks == ls[s[0] := ks[s[0]]]
    ensures FreeLinked(ks, ls[s[0]].next, s[1..])
  {
    var r := s[1..];
    forall i | 0 <= i < |r|
      ensures Chained(ks, r, i)
    {
      assert r[i] == s[i + 1] && s[i + 1] != s[0] && Chained(ls, s, i + 1);
    }
  }
}
