/**
 * The array-backed binary min-heap of both compressors (`PriorityQueue`,
 * `enqueue`, `dequeue`), keyed on node frequency. The C code moves a hole
 * up or down the array instead of swapping; the model does the same.
 */
module PriorityQueue {
  import opened Common
  import opened HuffmanTree

  /** `MAX_TREE_NODES` */
  const MaxTreeNodes := 256

  /** The edge from `c`'s parent to `c` is ordered. */
  ghost predicate EdgeOk(a: seq<HuffmanNode>, c: int)
    requires 0 < c < |a|
  {
    a[(c - 1) / 2].frequency <= a[c].frequency
  }

  /** `c`'s grandparent, seen through the hole at `c`'s parent `i`, is no larger than `c`. */
  ghost predicate SkipOk(a: seq<HuffmanNode>, i: int, c: int)
    requires 0 < i < |a| && 0 <= c < |a|
  {
    a[(i - 1) / 2].frequency <= a[c].frequency
  }

  /** Parent frequency never exceeds child frequency. */
  ghost predicate HeapOrdered(s: seq<HuffmanNode>)
  {
    forall c :: 0 < c < |s| ==> EdgeOk(s, c)
  }

  /** In a heap-ordered sequence the first element has the least frequency. */
  lemma {:induction false} RootIsMinimal(s: seq<HuffmanNode>, k: nat)
    requires HeapOrdered(s) && k < |s|
    ensures s[0].frequency <= s[k].frequency
    decreases k
  {
    if k > 0 {
      assert EdgeOk(s, k);
      RootIsMinimal(s, (k - 1) / 2);
    }
  }

  lemma UpdateMultiset(s: seq<HuffmanNode>, i: nat, v: HuffmanNode)
    requires i < |s|
    ensures multiset(s[i := v]) == multiset(s) - multiset{s[i]} + multiset{v}
  {
    assert s == s[..i] + [s[i]] + s[i + 1..];
    assert s[i := v] == s[..i] + [v] + s[i + 1..];
  }

  /**
   * `a` with its hole at `i` filled by `v` holds exactly `m`: the slot `i`
   * still carries a stale copy that `v` will overwrite.
   */
  ghost predicate HoleBag(a: seq<HuffmanNode>, i: nat, v: HuffmanNode, m: multiset<HuffmanNode>)
  {
    i < |a| && multiset(a) + multiset{v} == m + multiset{a[i]}
  }

  /** Copying `a[j]` into the hole moves the hole to `j`. */
  lemma HoleBagMove(a: seq<HuffmanNode>, i: nat, j: nat, v: HuffmanNode, m: multiset<HuffmanNode>)
    requires HoleBag(a, i, v, m) && j < |a|
    ensures HoleBag(a[i := a[j]], j, v, m)
  {
    var b := a[i := a[j]];
    assert b[j] == a[j];
    UpdateMultiset(a, i, a[j]);
    assert a[i] in multiset(a);
    calc {
      multiset(b) + multiset{v};
      multiset(a) - multiset{a[i]} + multiset{a[j]} + multiset{v};
      multiset(a) + multiset{v} - multiset{a[i]} + multiset{a[j]};
      m + multiset{a[j]};
    }
  }

  /** Filling the hole leaves exactly `m`. */
  lemma HoleBagFill(a: seq<HuffmanNode>, i: nat, v: HuffmanNode, m: multiset<HuffmanNode>)
    requires HoleBag(a, i, v, m)
    ensures multiset(a[i := v]) == m
  {
    UpdateMultiset(a, i, v);
    assert a[i] in multiset(a);
    calc {
      multiset(a[i := v]);
      multiset(a) - multiset{a[i]} + multiset{v};
      multiset(a) + multiset{v} - multiset{a[i]};
      m;
    }
  }

  /**
   * Sift-up with a hole at `i`: order holds on every edge except into `i`, the
   * hole's parent is no larger than the hole's children, and once the hole has
   * moved the value parked there is larger than the node being inserted.
   */
  ghost predicate SiftUpInv(a: seq<HuffmanNode>, i: nat, node: HuffmanNode)
  {
    && i < |a|
    && (forall c :: 0 < c < |a| && c != i ==> EdgeOk(a, c))
    && (i > 0 ==> forall c :: 0 < c < |a| && (c - 1) / 2 == i ==> SkipOk(a, i, c))
    && (i < |a| - 1 ==> node.frequency < a[i].frequency)
  }

  lemma SiftUpStart(a: seq<HuffmanNode>, x: HuffmanNode, node: HuffmanNode)
    requires HeapOrdered(a)
    ensures SiftUpInv(a + [x], |a|, node)
  {
    var b := a + [x];
    forall c | 0 < c < |b| && c != |a| ensures EdgeOk(b, c) {
      assert EdgeOk(a, c);
    }
  }

  lemma SiftUpStep(a: seq<HuffmanNode>, i: nat, node: HuffmanNode)
    requires SiftUpInv(a, i, node) && i > 0 && a[(i - 1) / 2].frequency > node.frequency
    ensures SiftUpInv(a[i := a[(i - 1) / 2]], (i - 1) / 2, node)
  {
    var p := (i - 1) / 2;
    var b := a[i := a[p]];
    forall c | 0 < c < |b| && c != p ensures EdgeOk(b, c) {
      if c == i {
      } else if (c - 1) / 2 == i {
        assert SkipOk(a, i, c);
      } else {
        assert EdgeOk(a, c);
      }
    }
    if p > 0 {
      forall c | 0 < c < |b| && (c - 1) / 2 == p ensures SkipOk(b, p, c) {
        assert EdgeOk(a, p);
        if c != i {
          assert EdgeOk(a, c);
        }
      }
    }
  }

  lemma SiftUpDone(a: seq<HuffmanNode>, i: nat, node: HuffmanNode)
    requires SiftUpInv(a, i, node) && (i == 0 || a[(i - 1) / 2].frequency <= node.frequency)
    ensures HeapOrdered(a[i := node])
  {
    var b := a[i := node];
    forall c | 0 < c < |b| ensures EdgeOk(b, c) {
      if c == i {
      } else if (c - 1) / 2 == i {
        assert EdgeOk(a, c);
      } else {
        assert EdgeOk(a, c);
      }
    }
  }

  /** The whole state of `enqueue`'s loop: heap shape around the hole and the multiset it will hold. */
  ghost predicate SiftingUp(a: seq<HuffmanNode>, i: nat, node: HuffmanNode, m: multiset<HuffmanNode>)
  {
    SiftUpInv(a, i, node) && HoleBag(a, i, node, m)
  }

  /** `enqueue` opens the hole at the new last slot, which `node` will fill. */
  lemma SiftUpBegin(a: seq<HuffmanNode>, node: HuffmanNode)
    requires HeapOrdered(a)
    ensures SiftingUp(a + [node], |a|, node, multiset(a) + multiset{node})
  {
    SiftUpStart(a, node, node);
    assert (a + [node])[|a|] == node;
  }

  lemma SiftUpIter(a: seq<HuffmanNode>, i: nat, node: HuffmanNode, m: multiset<HuffmanNode>)
    requires SiftingUp(a, i, node, m) && i > 0 && a[(i - 1) / 2].frequency > node.frequency
    ensures SiftingUp(a[i := a[(i - 1) / 2]], (i - 1) / 2, node, m)
  {
    SiftUpStep(a, i, node);
    HoleBagMove(a, i, (i - 1) / 2, node, m);
  }

  lemma SiftUpFinish(a: seq<HuffmanNode>, i: nat, node: HuffmanNode, m: multiset<HuffmanNode>)
    requires SiftingUp(a, i, node, m) && (i == 0 || a[(i - 1) / 2].frequency <= node.frequency)
    ensures HeapOrdered(a[i := node]) && multiset(a[i := node]) == m
  {
    SiftUpDone(a, i, node);
    HoleBagFill(a, i, node, m);
  }

  /**
   * Sift-down with a hole at `i` that `last` will fill: order holds on every
   * edge out of other positions, and the hole's parent is no larger than
   * `last` or than the hole's children.
   */
  ghost predicate SiftDownInv(a: seq<HuffmanNode>, i: nat, last: HuffmanNode)
  {
    && i <= |a|
    && (forall c :: 0 < c < |a| && (c - 1) / 2 != i ==> EdgeOk(a, c))
    && (0 < i < |a| ==> a[(i - 1) / 2].frequency <= last.frequency)
    && (0 < i < |a| ==> forall c :: 0 < c < |a| && (c - 1) / 2 == i ==> SkipOk(a, i, c))
  }

  lemma SiftDownStart(a: seq<HuffmanNode>, x: HuffmanNode)
    requires HeapOrdered(a + [x])
    ensures SiftDownInv(a, 0, x)
  {
    var b := a + [x];
    forall c | 0 < c < |a| && (c - 1) / 2 != 0 ensures EdgeOk(a, c) {
      assert EdgeOk(b, c);
    }
  }

  /** The child of `i` that `dequeue` descends to: the right one only when strictly lighter. */
  function ChildToFollow(a: seq<HuffmanNode>, i: nat): (c: nat)
    requires 2 * i + 1 < |a|
    ensures c < |a| && (c - 1) / 2 == i
    ensures a[c].frequency <= a[2 * i + 1].frequency
    ensures 2 * i + 2 < |a| ==> a[c].frequency <= a[2 * i + 2].frequency
  {
    if 2 * i + 2 < |a| && a[2 * i + 2].frequency < a[2 * i + 1].frequency then 2 * i + 2 else 2 * i + 1
  }

  lemma SiftDownStep(a: seq<HuffmanNode>, i: nat, last: HuffmanNode)
    requires SiftDownInv(a, i, last) && 2 * i + 1 < |a|
    requires last.frequency > a[ChildToFollow(a, i)].frequency
    ensures SiftDownInv(a[i := a[ChildToFollow(a, i)]], ChildToFollow(a, i), last)
  {
    var child := ChildToFollow(a, i);
    var b := a[i := a[child]];
    forall c | 0 < c < |b| && (c - 1) / 2 != child ensures EdgeOk(b, c) {
      if c == i {
        assert SkipOk(a, i, child);
      } else if (c - 1) / 2 == i {
      } else {
        assert EdgeOk(a, c);
      }
    }
    forall c | 0 < c < |b| && (c - 1) / 2 == child ensures SkipOk(b, child, c) {
      assert EdgeOk(a, c);
    }
  }

  /** Either `i` has no child or `last` is no heavier than the child `dequeue` would follow. */
  predicate Settled(a: seq<HuffmanNode>, i: nat, last: HuffmanNode)
  {
    2 * i + 1 < |a| ==> last.frequency <= a[ChildToFollow(a, i)].frequency
  }

  lemma SiftDownDone(a: seq<HuffmanNode>, i: nat, last: HuffmanNode)
    requires SiftDownInv(a, i, last) && i < |a| && Settled(a, i, last)
    ensures HeapOrdered(a[i := last])
  {
    var b := a[i := last];
    forall c | 0 < c < |b| ensures EdgeOk(b, c) {
      if c == i {
      } else if (c - 1) / 2 == i {
        assert c == 2 * i + 1 || c == 2 * i + 2;
      } else {
        assert EdgeOk(a, c);
      }
    }
  }

  /** The whole state of `dequeue`'s loop. */
  ghost predicate SiftingDown(a: seq<HuffmanNode>, i: nat, last: HuffmanNode, m: multiset<HuffmanNode>)
  {
    SiftDownInv(a, i, last) && HoleBag(a, i, last, m)
  }

  lemma SiftDownIter(a: seq<HuffmanNode>, i: nat, last: HuffmanNode, m: multiset<HuffmanNode>)
    requires SiftingDown(a, i, last, m) && 2 * i + 1 < |a|
    requires last.frequency > a[ChildToFollow(a, i)].frequency
    ensures SiftingDown(a[i := a[ChildToFollow(a, i)]], ChildToFollow(a, i), last, m)
  {
    SiftDownStep(a, i, last);
    HoleBagMove(a, i, ChildToFollow(a, i), last, m);
  }

  lemma SiftDownFinish(a: seq<HuffmanNode>, i: nat, last: HuffmanNode, m: multiset<HuffmanNode>)
    requires SiftingDown(a, i, last, m) && Settled(a, i, last)
    ensures HeapOrdered(a[i := last]) && multiset(a[i := last]) == m
  {
    SiftDownDone(a, i, last);
    HoleBagFill(a, i, last, m);
  }

  /**
   * Where `enqueue`'s hole walk ends: from the hole at `i`, every parent
   * heavier than `node` moves down into the hole, then `node` fills it.
   */
  function SiftUpFrom(a: seq<HuffmanNode>, i: nat, node: HuffmanNode): (r: seq<HuffmanNode>)
    requires i < |a|
    ensures |r| == |a|
    decreases i
  {
    if i > 0 && a[(i - 1) / 2].frequency > node.frequency then SiftUpFrom(a[i := a[(i - 1) / 2]], (i - 1) / 2, node)
    else a[i := node]
  }

  /** The walk never reads the hole itself. */
  lemma SiftUpFromHole(a: seq<HuffmanNode>, i: nat, node: HuffmanNode, y: HuffmanNode)
    requires i < |a|
    ensures SiftUpFrom(a[i := y], i, node) == SiftUpFrom(a, i, node)
  {
    if i > 0 && a[(i - 1) / 2].frequency > node.frequency {
      assert a[i := y][i := a[(i - 1) / 2]] == a[i := a[(i - 1) / 2]];
    } else {
      assert a[i := y][i := node] == a[i := node];
    }
  }

  lemma {:induction false} SiftUpFromHeap(a: seq<HuffmanNode>, i: nat, node: HuffmanNode, m: multiset<HuffmanNode>)
    requires SiftingUp(a, i, node, m)
    ensures HeapOrdered(SiftUpFrom(a, i, node)) && multiset(SiftUpFrom(a, i, node)) == m
    decreases i
  {
    if i > 0 && a[(i - 1) / 2].frequency > node.frequency {
      SiftUpIter(a, i, node, m);
      SiftUpFromHeap(a[i := a[(i - 1) / 2]], (i - 1) / 2, node, m);
    } else {
      SiftUpFinish(a, i, node, m);
    }
  }

  /** The walk stays inside the first `n` slots when it starts there. */
  lemma {:induction false} SiftUpFromPrefix(a: seq<HuffmanNode>, i: nat, node: HuffmanNode, n: nat)
    requires i < n <= |a|
    ensures SiftUpFrom(a, i, node)[..n] == SiftUpFrom(a[..n], i, node)
    decreases i
  {
    var p := (i - 1) / 2;
    if i > 0 && a[p].frequency > node.frequency {
      assert a[..n][p] == a[p];
      assert a[i := a[p]][..n] == a[..n][i := a[..n][p]];
      SiftUpFromPrefix(a[i := a[p]], p, node, n);
    } else {
      assert a[i := node][..n] == a[..n][i := node];
    }
  }

  /** The queue `enqueue` leaves: `node` sifted up from a new last slot. */
  function Enqueued(a: seq<HuffmanNode>, node: HuffmanNode): seq<HuffmanNode>
  {
    SiftUpFrom(a + [node], |a|, node)
  }

  /** `enqueue` on the whole array, whatever its slot `n` held, leaves the new queue in the first `n + 1` slots. */
  lemma EnqueuedInPlace(whole: seq<HuffmanNode>, n: nat, node: HuffmanNode)
    requires n < |whole|
    ensures SiftUpFrom(whole, n, node)[..n + 1] == Enqueued(whole[..n], node)
  {
    assert whole[..n + 1][n := node] == whole[..n] + [node];
    SiftUpFromHole(whole[..n + 1], n, node, node);
    SiftUpFromPrefix(whole, n, node, n + 1);
  }

  /** `enqueue` keeps the heap order and adds exactly `node`. */
  lemma EnqueuedHeap(a: seq<HuffmanNode>, node: HuffmanNode)
    requires HeapOrdered(a)
    ensures |Enqueued(a, node)| == |a| + 1
    ensures HeapOrdered(Enqueued(a, node)) && multiset(Enqueued(a, node)) == multiset(a) + multiset{node}
  {
    SiftUpBegin(a, node);
    SiftUpFromHeap(a + [node], |a|, node, multiset(a) + multiset{node});
  }

  /**
   * Where `dequeue`'s hole walk ends: from the hole at `i`, the child it
   * follows moves up while lighter than `last`, then `last` fills the hole.
   */
  function SiftDownFrom(a: seq<HuffmanNode>, i: nat, last: HuffmanNode): (r: seq<HuffmanNode>)
    requires i < |a|
    ensures |r| == |a|
    decreases |a| - i
  {
    if 2 * i + 1 < |a| && last.frequency > a[ChildToFollow(a, i)].frequency then
      SiftDownFrom(a[i := a[ChildToFollow(a, i)]], ChildToFollow(a, i), last)
    else a[i := last]
  }

  lemma {:induction false} SiftDownFromHeap(a: seq<HuffmanNode>, i: nat, last: HuffmanNode, m: multiset<HuffmanNode>)
    requires SiftingDown(a, i, last, m) && i < |a|
    ensures HeapOrdered(SiftDownFrom(a, i, last)) && multiset(SiftDownFrom(a, i, last)) == m
    decreases |a| - i
  {
    if 2 * i + 1 < |a| && last.frequency > a[ChildToFollow(a, i)].frequency {
      SiftDownIter(a, i, last, m);
      SiftDownFromHeap(a[i := a[ChildToFollow(a, i)]], ChildToFollow(a, i), last, m);
    } else {
      SiftDownFinish(a, i, last, m);
    }
  }

  /** The queue `dequeue` leaves: the last node sifted down from the emptied root. */
  function Dequeued(a: seq<HuffmanNode>): seq<HuffmanNode>
    requires |a| > 0
  {
    if |a| == 1 then [] else SiftDownFrom(a[..|a| - 1], 0, a[|a| - 1])
  }

  /** `dequeue`'s root is a lightest node, and the rest stays a heap holding everything else. */
  lemma DequeuedHeap(a: seq<HuffmanNode>)
    requires HeapOrdered(a) && |a| > 0
    ensures |Dequeued(a)| == |a| - 1
    ensures HeapOrdered(Dequeued(a)) && multiset(Dequeued(a)) == multiset(a) - multiset{a[0]}
    ensures forall n :: n in multiset(a) ==> a[0].frequency <= n.frequency
  {
    forall n: HuffmanNode | n in multiset(a) ensures a[0].frequency <= n.frequency {
      var k :| 0 <= k < |a| && a[k] == n;
      RootIsMinimal(a, k);
    }
    var b := a[..|a| - 1];
    var last := a[|a| - 1];
    assert a == b + [last];
    if |a| == 1 {
      assert a == [a[0]];
    } else {
      var m := multiset(a) - multiset{a[0]};
      SiftDownStart(b, last);
      assert b[0] == a[0];
      assert HoleBag(b, 0, last, m);
      SiftDownFromHeap(b, 0, last, m);
    }
  }

  class MinQueue {
    var nodes: array<HuffmanNode>
    var size: int

    ghost predicate Valid()
      reads this, nodes
    {
      nodes.Length == MaxTreeNodes && 0 <= size <= MaxTreeNodes && HeapOrdered(nodes[..size])
    }

    /** The nodes currently queued. */
    ghost function Contents(): multiset<HuffmanNode>
      reads this, nodes
      requires Valid()
    {
      multiset(nodes[..size])
    }

    /** `initPriorityQueue`: an empty queue. */
    constructor ()
      ensures Valid() && fresh(nodes) && size == 0 && Contents() == multiset{}
    {
      nodes := new HuffmanNode[MaxTreeNodes](_ => Leaf(0, 0));
      size := 0;
    }

    /** One store into the array, described on its first `n` slots. */
    method Put(k: int, v: HuffmanNode, ghost n: int)
      requires 0 <= k < n <= nodes.Length
      modifies nodes
      ensures nodes[..n] == old(nodes[..n])[k := v]
    {
      nodes[k] := v;
    }

    /** `enqueue`: move the hole up from position `size` past every heavier parent, then place the node. */
    method Enqueue(node: HuffmanNode)
      requires Valid() && size < MaxTreeNodes
      modifies this`size, nodes
      ensures size == old(size) + 1 && nodes[..size] == Enqueued(old(nodes[..size]), node)
      ensures Valid() && Contents() == old(Contents()) + multiset{node}
    {
      EnqueuedHeap(nodes[..size], node);
      EnqueuedInPlace(nodes[..], size, node);
      SiftUp(node);
      size := size + 1;
    }

    /** The loop of `enqueue` and the final store. */
    method SiftUp(node: HuffmanNode)
      requires 0 <= size < nodes.Length
      modifies nodes
      ensures nodes[..] == SiftUpFrom(old(nodes[..]), size, node)
    {
      ghost var target := SiftUpFrom(nodes[..], size, node);
      var i := size;
      while i > 0 && nodes[(i - 1) / 2].frequency > node.frequency
        invariant 0 <= i <= size
        invariant SiftUpFrom(nodes[..], i, node) == target
        decreases i
      {
        nodes[i] := nodes[(i - 1) / 2];
        i := (i - 1) / 2;
      }
      nodes[i] := node;
    }

    /** `dequeue` on a non-empty queue: take the root, move the hole down past every lighter child, place the last node. */
    method Dequeue() returns (minNode: HuffmanNode)
      requires Valid() && size > 0
      modifies this`size, nodes
      ensures size == old(size) - 1 && nodes[..size] == Dequeued(old(nodes[..size]))
      ensures minNode == old(nodes[0])
      ensures Valid()
      ensures minNode in old(Contents())
      ensures forall n :: n in old(Contents()) ==> minNode.frequency <= n.frequency
      ensures Contents() == old(Contents()) - multiset{minNode}
    {
      ghost var before := nodes[..size];
      DequeuedHeap(before);
      minNode := nodes[0];
      size := size - 1;
      var lastNode := nodes[size];
      if size == 0 {
        return;
      }
      assert before[..size] == nodes[..size];
      SiftDown(lastNode);
    }

    /** The loop of `dequeue` and the final store, on the first `size` slots. */
    method SiftDown(lastNode: HuffmanNode)
      requires 0 < size <= nodes.Length
      modifies nodes
      ensures nodes[..size] == SiftDownFrom(old(nodes[..size]), 0, lastNode)
    {
      ghost var target := SiftDownFrom(nodes[..size], 0, lastNode);
      var i := 0;
      while 2 * i + 1 < size
        invariant 0 <= i < size
        invariant SiftDownFrom(nodes[..size], i, lastNode) == target
        decreases size - i
      {
        var child := 2 * i + 1;
        if child + 1 < size && nodes[child + 1].frequency < nodes[child].frequency {
          child := child + 1;
        }
        assert child == ChildToFollow(nodes[..size], i);
        if lastNode.frequency <= nodes[child].frequency {
          break;
        }
        Put(i, nodes[child], size);
        i := child;
      }
      Put(i, lastNode, size);
    }
  }
}
