// The indexed binary min-heap of src/task/timer/heaptimer.cpp.
//
// The vector of nodes is ordered by deadline; a hash map sends each timer id to
// the index of its node.  The abstract value of a Timer is the finite map from
// ids to nodes, and each operation is proved to act on it as a put or a remove.
module HeapTimer {

  // One millisecond, in the nanoseconds of the clock.
  const MS: int := 1_000_000

  datatype Node<C> = Node(id: int, expires: int, callback: C)

  function Parent(k: int): int
    requires k > 0
  {
    (k - 1) / 2
  }

  // The edge between k and its parent is in order.
  ghost predicate Edge<C>(h: seq<Node<C>>, k: int)
    requires 0 < k < |h|
  {
    h[Parent(k)].expires <= h[k].expires
  }

  // Heap order of the first n nodes.
  ghost predicate Ordered<C>(h: seq<Node<C>>, n: nat)
    requires n <= |h|
  {
    forall k :: 0 < k < n ==> Edge(h, k)
  }

  // Skipping over position i keeps order: i's parent is no later than i's children.
  ghost predicate Bridged<C>(h: seq<Node<C>>, n: nat, i: nat)
    requires n <= |h| && i < n
  {
    i > 0 ==>
      && (2 * i + 1 < n ==> h[Parent(i)].expires <= h[2 * i + 1].expires)
      && (2 * i + 2 < n ==> h[Parent(i)].expires <= h[2 * i + 2].expires)
  }

  // Order may fail only between i and its parent.
  ghost predicate OrderedButUp<C>(h: seq<Node<C>>, n: nat, i: nat)
    requires n <= |h| && i < n
  {
    && (forall k :: 0 < k < n && k != i ==> Edge(h, k))
    && Bridged(h, n, i)
  }

  // Order may fail only on the edges that touch i.
  ghost predicate OrderedButAt<C>(h: seq<Node<C>>, n: nat, i: nat)
    requires n <= |h| && i < n
  {
    && (forall k :: 0 < k < n && k != i && k != 2 * i + 1 && k != 2 * i + 2 ==> Edge(h, k))
    && Bridged(h, n, i)
  }

  // The index table is the exact inverse of the ids in the heap.
  ghost predicate RefExact<C>(h: seq<Node<C>>, ref: map<int, nat>)
  {
    && (forall i {:trigger h[i].id} :: 0 <= i < |h| ==> h[i].id in ref && ref[h[i].id] == i)
    && (forall id {:trigger ref[id]} :: id in ref ==> ref[id] < |h| && h[ref[id]].id == id)
  }

  ghost function Abstract<C>(h: seq<Node<C>>, ref: map<int, nat>): map<int, Node<C>>
    requires RefExact(h, ref)
  {
    map id | id in ref :: h[ref[id]]
  }

  lemma EmptyHeap<C>(h: seq<Node<C>>, ref: map<int, nat>)
    requires RefExact(h, ref)
    ensures h == [] ==> Abstract(h, ref) == map[]
  {
    forall id | id in ref
      ensures 0 < |h|
    {
      assert ref[id] < |h|;
    }
    assert h == [] ==> Abstract(h, ref).Keys == {};
  }

  // In an ordered heap the front is a minimum.
  lemma {:induction false} FrontIsLeast<C>(h: seq<Node<C>>, k: nat)
    requires k < |h| && Ordered(h, |h|)
    ensures h[0].expires <= h[k].expires
  {
    if k > 0 {
      assert Edge(h, k);
      FrontIsLeast(h, Parent(k));
    }
  }

  function Swapped<C>(h: seq<Node<C>>, i: nat, j: nat): (r: seq<Node<C>>)
    requires i < |h| && j < |h|
  {
    h[i := h[j]][j := h[i]]
  }

  // A node moved up past a parent that is not earlier: the fault moves to the parent.
  lemma SwapUp<C>(h: seq<Node<C>>, n: nat, i: nat)
    requires n <= |h| && 0 < i < n
    requires OrderedButUp(h, n, i)
    requires h[i].expires <= h[Parent(i)].expires
    ensures OrderedButUp(Swapped(h, i, Parent(i)), n, Parent(i))
  {
    var j := Parent(i);
    var s := Swapped(h, i, j);
    forall k | 0 < k < n && k != j
      ensures Edge(s, k)
    {
      if k != i { assert Edge(h, k); }
    }
    if j > 0 {
      assert Edge(h, j);
      if 2 * j + 1 < n && 2 * j + 1 != i { assert Edge(h, 2 * j + 1); }
      if 2 * j + 2 < n && 2 * j + 2 != i { assert Edge(h, 2 * j + 2); }
    }
  }

  // A node moved down past its earliest child j: the fault moves to that child.
  lemma SwapDown<C>(h: seq<Node<C>>, n: nat, i: nat, j: nat)
    requires n <= |h| && i < j < n && (j == 2 * i + 1 || j == 2 * i + 2)
    requires OrderedButAt(h, n, i)
    requires h[j].expires <= h[2 * i + 1].expires
    requires 2 * i + 2 < n ==> h[j].expires <= h[2 * i + 2].expires
    requires h[j].expires <= h[i].expires
    ensures OrderedButAt(Swapped(h, i, j), n, j)
    ensures Edge(Swapped(h, i, j), j)
    ensures i > 0 ==> Edge(Swapped(h, i, j), i)
  {
    var s := Swapped(h, i, j);
    forall k | 0 < k < n && k != j && k != 2 * j + 1 && k != 2 * j + 2
      ensures Edge(s, k)
    {
      if k != i && k != 2 * i + 1 && k != 2 * i + 2 { assert Edge(h, k); }
    }
    if 2 * j + 1 < n { assert Edge(h, 2 * j + 1); }
    if 2 * j + 2 < n { assert Edge(h, 2 * j + 2); }
  }

  // A node that is no later than its children can be out of order with its parent only.
  lemma SettledBelow<C>(h: seq<Node<C>>, n: nat, i: nat)
    requires n <= |h| && i < n && OrderedButAt(h, n, i)
    requires 2 * i + 1 < n ==> h[i].expires <= h[2 * i + 1].expires
    requires 2 * i + 2 < n ==> h[i].expires <= h[2 * i + 2].expires
    ensures OrderedButUp(h, n, i)
    ensures i > 0 && Edge(h, i) ==> Ordered(h, n)
    ensures i == 0 ==> Ordered(h, n)
  {
  }

  // Exchanging two nodes and their two index entries keeps the table exact and
  // the abstract map unchanged.
  lemma SwapRef<C>(h: seq<Node<C>>, ref: map<int, nat>, i: nat, j: nat)
    requires RefExact(h, ref) && i < |h| && j < |h|
    ensures var r := ref[h[j].id := i][h[i].id := j];
            RefExact(Swapped(h, i, j), r) && Abstract(Swapped(h, i, j), r) == Abstract(h, ref)
  {
    var s, r := Swapped(h, i, j), ref[h[j].id := i][h[i].id := j];
    assert r.Keys == ref.Keys;
    forall id | id in r
      ensures r[id] < |s| && s[r[id]].id == id && s[r[id]] == h[ref[id]]
    {
    }
    assert Abstract(s, r) == Abstract(h, ref);
  }

  lemma BridgedByOrder<C>(h: seq<Node<C>>, i: nat)
    requires Ordered(h, |h|) && i < |h|
    ensures Bridged(h, |h|, i)
  {
    if i > 0 {
      assert Edge(h, i);
      if 2 * i + 1 < |h| { assert Edge(h, 2 * i + 1); }
      if 2 * i + 2 < |h| { assert Edge(h, 2 * i + 2); }
    }
  }

  // Exchanging a node with the last one leaves only the edges at its place in doubt.
  lemma SwapWithLast<C>(h: seq<Node<C>>, i: nat)
    requires i < |h| - 1 && Ordered(h, |h|)
    ensures OrderedButAt(Swapped(h, i, |h| - 1), |h| - 1, i)
  {
    var n := |h| - 1;
    var s := Swapped(h, i, n);
    forall k | 0 < k < n && k != i && k != 2 * i + 1 && k != 2 * i + 2
      ensures Edge(s, k)
    {
      assert Edge(h, k);
    }
    BridgedByOrder(h, i);
  }

  lemma OrderedPrefix<C>(h: seq<Node<C>>, n: nat)
    requires n <= |h| && Ordered(h, |h|)
    ensures Ordered(h, n)
  {
  }

  lemma DropLast<C>(h: seq<Node<C>>, ref: map<int, nat>)
    requires |h| > 0 && RefExact(h, ref) && Ordered(h, |h| - 1)
    ensures var s, r := h[..|h| - 1], ref - {h[|h| - 1].id};
            RefExact(s, r) && Ordered(s, |s|) && Abstract(s, r) == Abstract(h, ref) - {h[|h| - 1].id}
  {
    var s, r := h[..|h| - 1], ref - {h[|h| - 1].id};
    forall k | 0 < k < |s|
      ensures Edge(s, k)
    {
      assert Edge(h, k);
    }
    assert RefExact(s, r);
    assert forall id :: id in r ==> s[r[id]] == h[ref[id]];
    var want := Abstract(h, ref) - {h[|h| - 1].id};
    assert Abstract(s, r).Keys == want.Keys;
    assert Abstract(s, r) == want;
  }

  // Appending a node with a fresh id leaves only its edge to its parent in doubt.
  lemma PushBack<C>(h: seq<Node<C>>, ref: map<int, nat>, x: Node<C>)
    requires RefExact(h, ref) && Ordered(h, |h|) && x.id !in ref
    ensures var s, r := h + [x], ref[x.id := |h|];
            RefExact(s, r) && OrderedButUp(s, |s|, |h|) && Abstract(s, r) == Abstract(h, ref)[x.id := x]
  {
    var s, r := h + [x], ref[x.id := |h|];
    forall k | 0 < k < |s| && k != |h|
      ensures Edge(s, k)
    {
      assert Edge(h, k);
    }
    var want := Abstract(h, ref)[x.id := x];
    assert Abstract(s, r).Keys == want.Keys;
    assert forall id :: id in ref ==> ref[id] < |h| && s[r[id]] == h[ref[id]];
    assert Abstract(s, r) == want;
  }

  // Rewriting one node under the same id leaves only the edges at it in doubt.
  lemma Rewrite<C>(h: seq<Node<C>>, ref: map<int, nat>, i: nat, x: Node<C>)
    requires RefExact(h, ref) && Ordered(h, |h|) && i < |h| && x.id == h[i].id
    ensures var s := h[i := x];
            RefExact(s, ref) && OrderedButAt(s, |s|, i) && Abstract(s, ref) == Abstract(h, ref)[x.id := x]
  {
    var s := h[i := x];
    forall k | 0 < k < |s| && k != i && k != 2 * i + 1 && k != 2 * i + 2
      ensures Edge(s, k)
    {
      assert Edge(h, k);
    }
    BridgedByOrder(h, i);
    var want := Abstract(h, ref)[x.id := x];
    assert Abstract(s, ref).Keys == want.Keys;
    forall id | id in ref
      ensures s[ref[id]] == want[id]
    {
      assert h[ref[id]].id == id;
    }
    assert Abstract(s, ref) == want;
  }

  ghost predicate SameFrom<C>(a: seq<Node<C>>, b: seq<Node<C>>, n: nat) {
    |a| == |b| && forall k :: n <= k < |a| ==> a[k] == b[k]
  }

  class Timer<C> {
    var heap: seq<Node<C>>
    var ref: map<int, nat>

    ghost predicate Valid()
      reads this
    {
      RefExact(heap, ref) && Ordered(heap, |heap|)
    }

    ghost function Model(): map<int, Node<C>>
      reads this
      requires RefExact(heap, ref)
    {
      Abstract(heap, ref)
    }

    constructor ()
      ensures Valid() && Model() == map[]
    {
      heap, ref := [], map[];
    }

    method SwapNode(i: nat, j: nat)
      requires RefExact(heap, ref)
      modifies this
      ensures RefExact(heap, ref) && Model() == old(Model())
      ensures i < |old(heap)| && j < |old(heap)| ==> heap == Swapped(old(heap), i, j)
      ensures !(i < |old(heap)| && j < |old(heap)|) ==> heap == old(heap) && ref == old(ref)
    {
      if i >= |heap| || j >= |heap| {
        return;
      }
      SwapRef(heap, ref, i, j);
      heap := heap[i := heap[j]][j := heap[i]];
      ref := ref[heap[i].id := i];
      ref := ref[heap[j].id := j];
    }

    // `n` bounds the part of the heap that is ordered; the source leaves it
    // implicit (it is the size, or the size less one while a node is deleted).
    method SiftUp(start: nat, ghost n: nat)
      requires RefExact(heap, ref)
      requires start < |heap| ==> start < n <= |heap| && OrderedButUp(heap, n, start)
      modifies this
      ensures RefExact(heap, ref) && Model() == old(Model()) && |heap| == |old(heap)|
      ensures start < |heap| ==> Ordered(heap, n) && SameFrom(old(heap), heap, n)
      ensures start >= |heap| ==> heap == old(heap) && ref == old(ref)
    {
      if start >= |heap| {
        return;
      }
      var i: nat := start;
      while i > 0
        invariant RefExact(heap, ref) && Model() == old(Model()) && |heap| == |old(heap)|
        invariant i < n && OrderedButUp(heap, n, i)
        invariant SameFrom(old(heap), heap, n)
      {
        var j: nat := (i - 1) / 2;
        if heap[j].expires < heap[i].expires {
          assert Edge(heap, i);
          break;
        }
        SwapUp(heap, n, i);
        SwapNode(i, j);
        i := j;
      }
    }

    // A node moves down only past a child that is no later, so only if it was not
    // earlier than its parent.
    method SiftDown(index: nat, n: nat) returns (moved: bool)
      requires RefExact(heap, ref)
      requires index < |heap| && n <= |heap| ==> index < n && OrderedButAt(heap, n, index)
      modifies this
      ensures RefExact(heap, ref) && Model() == old(Model()) && |heap| == |old(heap)|
      ensures !moved ==> heap == old(heap) && ref == old(ref)
      ensures index < |heap| && n <= |heap| ==>
                if moved then Ordered(heap, n) && SameFrom(old(heap), heap, n)
                else OrderedButUp(heap, n, index)
      ensures moved ==> index < |heap| && n <= |heap|
      ensures moved && index > 0 ==> Edge(old(heap), index)
    {
      if index >= |heap| || n > |heap| {
        return false;
      }
      var i := index;
      var j := i * 2 + 1;
      while j < n
        invariant index <= i < n && j == i * 2 + 1
        invariant RefExact(heap, ref) && Model() == old(Model()) && |heap| == |old(heap)|
        invariant OrderedButAt(heap, n, i)
        invariant i > index ==> i > 0 && Edge(heap, i)
        invariant i == index ==> heap == old(heap) && ref == old(ref)
        invariant i > index && index > 0 ==> Edge(old(heap), index)
        invariant SameFrom(old(heap), heap, n)
        decreases n - i
      {
        if j + 1 < n && heap[j + 1].expires < heap[j].expires {
          j := j + 1;
        }
        if heap[i].expires < heap[j].expires {
          break;
        }
        SwapDown(heap, n, i, j);
        SwapNode(i, j);
        i := j;
        j := i * 2 + 1;
      }
      SettledBelow(heap, n, i);
      return i > index;
    }

    // Source: del(index).
    method Del(index: nat)
      requires Valid()
      modifies this
      ensures Valid()
      ensures index < |old(heap)| ==> Model() == old(Model()) - {old(heap)[index].id}
      ensures index >= |old(heap)| ==> heap == old(heap) && ref == old(ref)
    {
      if index >= |heap| {
        return;
      }
      var i := index;
      var n := |heap| - 1;
      var nodeId := heap[i].id;
      if i < n {
        SwapWithLast(heap, i);
        SwapNode(i, n);
        var moved := SiftDown(i, n);
        if !moved {
          SiftUp(i, n);
        }
        assert heap[n].id == nodeId;
      } else {
        OrderedPrefix(heap, n);
      }
      PopBack(nodeId);
    }

    // The last two statements of del.
    method PopBack(nodeId: int)
      requires |heap| > 0 && heap[|heap| - 1].id == nodeId
      requires RefExact(heap, ref) && Ordered(heap, |heap| - 1)
      modifies this
      ensures Valid() && Model() == old(Model()) - {nodeId}
    {
      DropLast(heap, ref);
      ref := ref - {nodeId};
      heap := heap[..|heap| - 1];
    }

    // Adding a new id inserts it; adding a known id replaces its deadline and callback.
    method Add(id: int, timeout: int, cb: C, now: int)
      requires Valid() && id >= 0
      modifies this
      ensures Valid()
      ensures Model() == old(Model())[id := Node(id, now + timeout * MS, cb)]
    {
      if id !in ref {
        var i := |heap|;
        PushBack(heap, ref, Node(id, now + timeout * MS, cb));
        ref := ref[id := i];
        heap := heap + [Node(id, now + timeout * MS, cb)];
        SiftUp(i, |heap|);
      } else {
        var i := ref[id];
        if i >= |heap| {
          assert false;  // the branch that repairs a stale index is never taken
        }
        Rewrite(heap, ref, i, Node(id, now + timeout * MS, cb));
        heap := heap[i := heap[i].(expires := now + timeout * MS, callback := cb)];
        var moved := SiftDown(i, |heap|);
        if !moved {
          SiftUp(i, |heap|);
        }
      }
    }

    // Adjust only sifts down, so it keeps heap order exactly when the new deadline
    // is no earlier than that of the node's parent.
    method Adjust(id: int, timeout: int, now: int)
      requires Valid() && id in ref
      modifies this
      ensures RefExact(heap, ref)
      ensures Model() == old(Model())[id := old(Model())[id].(expires := now + timeout * MS)]
      ensures Valid() <==> (var i := old(ref[id]); i > 0 ==> old(heap)[Parent(i)].expires <= now + timeout * MS)
      ensures old(Model())[id].expires <= now + timeout * MS ==> Valid()
    {
      var i := ref[id];
      ghost var before := heap;
      Rewrite(heap, ref, i, heap[i].(expires := now + timeout * MS));
      heap := heap[i := heap[i].(expires := now + timeout * MS)];
      ghost var rewritten := heap;
      var moved := SiftDown(ref[id], |heap|);
      if i > 0 {
        assert Edge(before, i);
        if moved {
          assert Edge(rewritten, i);
        } else if heap[Parent(i)].expires <= heap[i].expires {
          assert Edge(heap, i);
          assert Ordered(heap, |heap|);
        } else {
          assert !Edge(heap, i);
        }
      }
    }

    method Pop()
      requires Valid()
      modifies this
      ensures Valid()
      ensures |old(heap)| > 0 ==> Model() == old(Model()) - {old(heap)[0].id}
      ensures |old(heap)| == 0 ==> heap == old(heap) && ref == old(ref)
    {
      if |heap| == 0 {
        return;
      }
      Del(0);
    }

    method Clear()
      modifies this
      ensures Valid() && Model() == map[]
    {
      ref, heap := map[], [];
    }
  }

  // Two timers, the later of which is adjusted to be the earlier: it stays behind
  // the other, so the front of the heap is no longer the next to fire.
  method AdjustBreaksOrder() returns (t: Timer<int>)
    ensures fresh(t) && RefExact(t.heap, t.ref) && !t.Valid()
    ensures t.Model() == map[1 := Node(1, 10 * MS, 0), 2 := Node(2, 5 * MS, 0)]
    ensures |t.heap| == 2 && t.heap[0].id == 1
  {
    t := new Timer();
    t.Add(1, 10, 0, 0);
    t.Add(2, 20, 0, 0);
    TwoNodes(t.heap, t.ref, 1, 2);
    t.Adjust(2, 5, 0);
    TwoNodesOut(t.heap, t.ref, 1, 2);
  }

  // The index table has as many entries as the heap has nodes.
  lemma {:induction false} AsManyIds<C>(h: seq<Node<C>>, ref: map<int, nat>)
    requires RefExact(h, ref)
    ensures |h| == |ref|
  {
    if h == [] {
      EmptyHeap(h, ref);
      assert ref.Keys == Abstract(h, ref).Keys;
    } else {
      var n := |h| - 1;
      var rest := ref - {h[n].id};
      assert h[n].id in ref && ref == rest[h[n].id := n];
      assert RefExact(h[..n], rest);
      AsManyIds(h[..n], rest);
    }
  }

  // In an ordered heap of two nodes the earlier is in front.
  lemma TwoNodes<C>(h: seq<Node<C>>, ref: map<int, nat>, a: int, b: int)
    requires RefExact(h, ref) && Ordered(h, |h|) && Abstract(h, ref).Keys == {a, b}
    requires Abstract(h, ref)[a].expires < Abstract(h, ref)[b].expires
    ensures |h| == 2 && ref[a] == 0 && ref[b] == 1
  {
    assert ref.Keys == {a, b};
    assert a != b && |ref| == |ref.Keys| == 2;
    AsManyIds(h, ref);
    FrontIsLeast(h, 1);
  }

  // In a heap of two nodes that is out of order the later is in front.
  lemma TwoNodesOut<C>(h: seq<Node<C>>, ref: map<int, nat>, a: int, b: int)
    requires RefExact(h, ref) && !Ordered(h, |h|) && Abstract(h, ref).Keys == {a, b}
    requires Abstract(h, ref)[b].expires < Abstract(h, ref)[a].expires
    ensures |h| == 2 && h[0].id == a
  {
    assert ref.Keys == {a, b};
    assert a != b && |ref| == |ref.Keys| == 2;
    AsManyIds(h, ref);
    assert h[0].id in ref && h[1].id in ref;
    var k :| 0 < k < |h| && !Edge(h, k);
    assert k == 1;
  }
}
