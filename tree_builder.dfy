/**
 * `buildHuffmanTree` of both compressors: one leaf per symbol with a
 * positive count goes into the heap, then the two lightest trees are merged
 * until one is left. The compressS.c variant wraps a lone leaf in a parent
 * so that the symbol still gets a one-bit code.
 */
module TreeBuilder {
  import opened Common
  import opened HuffmanTree
  import opened PriorityQueue

  /** Every queued tree is binary and weighted by the frequency table. */
  ghost predicate GoodForest(m: multiset<HuffmanNode>, frequencies: seq<int>)
    requires |frequencies| == 256
  {
    forall t :: t in m ==> WellWeighted(t, frequencies) && Binary(t)
  }

  /** No entry is positive exactly when no symbol is collected. */
  lemma NoPositiveSymbols(frequencies: seq<int>)
    requires |frequencies| == 256
    ensures PositiveSymbols(frequencies, 256) == multiset{} <==> forall i :: 0 <= i < 256 ==> frequencies[i] <= 0
  {
    if PositiveSymbols(frequencies, 256) == multiset{} {
      forall i | 0 <= i < 256 ensures frequencies[i] <= 0 {
        PositiveSymbolsCount(frequencies, 256, i as byte);
      }
    } else {
      var b :| b in PositiveSymbols(frequencies, 256);
      PositiveSymbolsCount(frequencies, 256, b);
    }
  }

  /** A tree with a single leaf symbol has that symbol's multiset. */
  lemma LeafHasOneSymbol(t: HuffmanNode)
    requires IsLeaf(t)
    ensures |LeafSymbols(t)| == 1
  {
  }

  /**
   * The first loop: `enqueue(createNode(i, frequencies[i]))` for every `i`
   * with a positive count, in ascending order; `symbol_count` is returned.
   */
  method EnqueueLeaves(q: MinQueue, frequencies: seq<int>) returns (count: int)
    requires |frequencies| == 256
    requires q.Valid() && q.size == 0
    modifies q, q.nodes
    ensures q.Valid() && q.nodes == old(q.nodes)
    ensures count == q.size == |PositiveSymbols(frequencies, 256)|
    ensures ForestLeaves(q.Contents()) == PositiveSymbols(frequencies, 256)
    ensures forall t :: t in q.Contents() ==> IsLeaf(t)
    ensures GoodForest(q.Contents(), frequencies)
  {
    count := 0;
    assert q.Contents() == multiset{};
    for i := 0 to 256
      invariant q.Valid() && q.nodes == old(q.nodes)
      invariant count == q.size == |PositiveSymbols(frequencies, i)|
      invariant ForestLeaves(q.Contents()) == PositiveSymbols(frequencies, i)
      invariant forall t :: t in q.Contents() ==> IsLeaf(t)
      invariant GoodForest(q.Contents(), frequencies)
    {
      LeafStep(q.Contents(), frequencies, i);
      if frequencies[i] > 0 {
        q.Enqueue(Leaf(i as byte, frequencies[i]));
        count := count + 1;
      }
    }
  }

  /** The forest after symbol `i`: its leaf joins when its count is positive. */
  lemma LeafStep(m: multiset<HuffmanNode>, frequencies: seq<int>, i: nat)
    requires |frequencies| == 256 && i < 256
    requires |m| == |PositiveSymbols(frequencies, i)| && ForestLeaves(m) == PositiveSymbols(frequencies, i)
    requires (forall t :: t in m ==> IsLeaf(t)) && GoodForest(m, frequencies)
    ensures frequencies[i] > 0 ==> |m| < MaxTreeNodes
    ensures var m' := if frequencies[i] > 0 then m + multiset{Leaf(i as byte, frequencies[i])} else m;
      && |m'| == |PositiveSymbols(frequencies, i + 1)| && ForestLeaves(m') == PositiveSymbols(frequencies, i + 1)
      && (forall t :: t in m' ==> IsLeaf(t)) && GoodForest(m', frequencies)
  {
    PositiveSymbolsSize(frequencies, i);
    if frequencies[i] > 0 {
      ForestLeavesAdd(m, Leaf(i as byte, frequencies[i]));
    }
  }

  /**
   * The merge loop: while more than one tree is queued, take the two
   * lightest, join them under a parent weighing their sum, and queue it.
   */
  method MergeForest(q: MinQueue, ghost frequencies: seq<int>)
    requires |frequencies| == 256
    requires q.Valid() && GoodForest(q.Contents(), frequencies)
    modifies q, q.nodes
    ensures q.Valid() && q.nodes == old(q.nodes)
    ensures q.size == if old(q.size) == 0 then 0 else 1
    ensures ForestLeaves(q.Contents()) == old(ForestLeaves(q.Contents()))
    ensures GoodForest(q.Contents(), frequencies)
  {
    while q.size > 1
      invariant q.Valid() && q.nodes == old(q.nodes)
      invariant if old(q.size) == 0 then q.size == 0 else q.size >= 1
      invariant ForestLeaves(q.Contents()) == old(ForestLeaves(q.Contents()))
      invariant GoodForest(q.Contents(), frequencies)
      decreases q.size
    {
      ghost var m0 := q.Contents();
      var left := q.Dequeue();
      var right := q.Dequeue();
      var parent := HuffmanNode(0, left.frequency + right.frequency, Some(left), Some(right));
      MergeStep(m0, left, right, frequencies);
      q.Enqueue(parent);
    }
  }

  /** Replacing two queued trees by their parent keeps the leaves and the forest's shape. */
  lemma MergeStep(m: multiset<HuffmanNode>, left: HuffmanNode, right: HuffmanNode, frequencies: seq<int>)
    requires |frequencies| == 256 && GoodForest(m, frequencies)
    requires left in m && right in m - multiset{left}
    ensures var rest := m - multiset{left} - multiset{right};
      var parent := HuffmanNode(0, left.frequency + right.frequency, Some(left), Some(right));
      && ForestLeaves(rest + multiset{parent}) == ForestLeaves(m)
      && GoodForest(rest + multiset{parent}, frequencies)
  {
    var m1 := m - multiset{left};
    var rest := m1 - multiset{right};
    var parent := HuffmanNode(0, left.frequency + right.frequency, Some(left), Some(right));
    MergeLeaves(m, left, right);
    assert WellWeighted(left, frequencies) && Binary(left);
    assert WellWeighted(right, frequencies) && Binary(right);
    assert WellWeighted(parent, frequencies) && Binary(parent);
    forall t | t in rest + multiset{parent} ensures WellWeighted(t, frequencies) && Binary(t) {
      if t != parent {
        assert t in m;
      }
    }
  }

  lemma MergeLeaves(m: multiset<HuffmanNode>, left: HuffmanNode, right: HuffmanNode)
    requires left in m && right in m - multiset{left}
    ensures var rest := m - multiset{left} - multiset{right};
      var parent := HuffmanNode(0, left.frequency + right.frequency, Some(left), Some(right));
      ForestLeaves(rest + multiset{parent}) == ForestLeaves(m)
  {
    var m1 := m - multiset{left};
    var rest := m1 - multiset{right};
    var parent := HuffmanNode(0, left.frequency + right.frequency, Some(left), Some(right));
    assert m1 + multiset{left} == m;
    assert rest + multiset{right} == m1;
    ForestLeavesAdd(m1, left);
    ForestLeavesAdd(rest, right);
    ForestLeavesAdd(rest, parent);
    assert LeafSymbols(parent) == LeafSymbols(left) + LeafSymbols(right);
    // ForestLeaves(rest) + (LeafSymbols(left) + LeafSymbols(right)) == (ForestLeaves(rest) + LeafSymbols(right)) + LeafSymbols(left)
    BagComm(LeafSymbols(left), LeafSymbols(right));
    BagAssoc(ForestLeaves(rest), LeafSymbols(right), LeafSymbols(left));
  }

  /** The last tree of a one-tree queue, taken out with `dequeue`. */
  method TakeLast(q: MinQueue, ghost frequencies: seq<int>) returns (root: HuffmanNode)
    requires |frequencies| == 256
    requires q.Valid() && q.size == 1 && GoodForest(q.Contents(), frequencies)
    modifies q, q.nodes
    ensures root in old(q.Contents())
    ensures LeafSymbols(root) == old(ForestLeaves(q.Contents()))
    ensures WellWeighted(root, frequencies) && Binary(root)
  {
    ghost var m := q.Contents();
    assert m == multiset{q.nodes[0]} by {
      assert q.nodes[..q.size] == [q.nodes[0]];
    }
    root := q.Dequeue();
    ForestLeavesSingle(root);
  }

  /**
   * `buildHuffmanTree` of compressFork.c: NULL exactly when no count is
   * positive; otherwise a binary tree whose leaves are the positive-count
   * symbols, once each, carrying their counts, and whose internal nodes
   * weigh the sum of their children.
   */
  method BuildTree(frequencies: seq<int>) returns (root: Option<HuffmanNode>)
    requires |frequencies| == 256
    ensures root.None? <==> forall i :: 0 <= i < 256 ==> frequencies[i] <= 0
    ensures root.Some? ==> LeafSymbols(root.value) == PositiveSymbols(frequencies, 256)
    ensures root.Some? ==> WellWeighted(root.value, frequencies) && Binary(root.value)
  {
    var q := new MinQueue();
    var _ := EnqueueLeaves(q, frequencies);
    NoPositiveSymbols(frequencies);
    MergeForest(q, frequencies);
    if q.size > 0 {
      var r := TakeLast(q, frequencies);
      root := Some(r);
    } else {
      root := None;
    }
  }

  /**
   * `buildHuffmanTree` of compressS.c. With one positive-count symbol the
   * root is a new internal node whose only child is that symbol's leaf, on
   * the left; with two or more it is the merged binary tree. In every case
   * the root is not a leaf.
   */
  method BuildTreeWithSingleCase(frequencies: seq<int>) returns (root: Option<HuffmanNode>)
    requires |frequencies| == 256
    ensures root.None? <==> forall i :: 0 <= i < 256 ==> frequencies[i] <= 0
    ensures root.Some? ==> LeafSymbols(root.value) == PositiveSymbols(frequencies, 256)
    ensures root.Some? ==> WellWeighted(root.value, frequencies) && !IsLeaf(root.value)
    ensures |PositiveSymbols(frequencies, 256)| == 1 ==>
      root.Some? && root.value.right.None? && root.value.left.Some? && IsLeaf(root.value.left.value)
    ensures |PositiveSymbols(frequencies, 256)| >= 2 ==> root.Some? && Binary(root.value)
  {
    var q := new MinQueue();
    var symbolCount := EnqueueLeaves(q, frequencies);
    NoPositiveSymbols(frequencies);
    if symbolCount == 1 {
      var only := TakeLast(q, frequencies);
      var r := HuffmanNode(0, only.frequency, Some(only), None);
      root := Some(r);
      return;
    }
    MergeForest(q, frequencies);
    if q.size > 0 {
      var r := TakeLast(q, frequencies);
      if IsLeaf(r) {
        LeafHasOneSymbol(r);
      }
      root := Some(r);
    } else {
      root := None;
    }
  }
}
