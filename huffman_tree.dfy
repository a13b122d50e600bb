/**
 * The compressor's Huffman node: the C struct with its symbol, frequency
 * and two possibly-NULL children. A node with no children is a leaf.
 */
module HuffmanTree {
  import opened Common

  datatype HuffmanNode = HuffmanNode(
    symbol: byte,
    frequency: int,
    left: Option<HuffmanNode>,
    right: Option<HuffmanNode>)

  /** `!root->left && !root->right` */
  predicate IsLeaf(n: HuffmanNode)
  {
    n.left.None? && n.right.None?
  }

  /** `createNode(symbol, frequency)` */
  function Leaf(symbol: byte, frequency: int): (n: HuffmanNode)
    ensures IsLeaf(n)
  {
    HuffmanNode(symbol, frequency, None, None)
  }

  /** The symbols of the leaves, each counted as often as it occurs. */
  function LeafSymbols(n: HuffmanNode): multiset<byte>
  {
    if IsLeaf(n) then multiset{n.symbol}
    else
      (match n.left case Some(l) => LeafSymbols(l) case None => multiset{})
      + (match n.right case Some(r) => LeafSymbols(r) case None => multiset{})
  }

  function FrequencyOf(o: Option<HuffmanNode>): int
  {
    match o case Some(n) => n.frequency case None => 0
  }

  /**
   * Every internal node's frequency is the sum of its children's, and every
   * leaf carries the frequency the table gives its symbol.
   */
  ghost predicate WellWeighted(n: HuffmanNode, frequencies: seq<int>)
    requires |frequencies| == 256
  {
    if IsLeaf(n) then n.frequency == frequencies[n.symbol as int]
    else
      n.frequency == FrequencyOf(n.left) + FrequencyOf(n.right)
      && (n.left.Some? ==> WellWeighted(n.left.value, frequencies))
      && (n.right.Some? ==> WellWeighted(n.right.value, frequencies))
  }

  /** Every internal node has both children (the merge loop builds only such nodes). */
  ghost predicate Binary(n: HuffmanNode)
  {
    IsLeaf(n) || (n.left.Some? && n.right.Some? && Binary(n.left.value) && Binary(n.right.value))
  }

  /** The symbols with a positive count among the first `i` table entries, once each. */
  function PositiveSymbols(frequencies: seq<int>, i: nat): multiset<byte>
    requires |frequencies| == 256 && i <= 256
  {
    if i == 0 then multiset{}
    else PositiveSymbols(frequencies, i - 1)
         + (if frequencies[i - 1] > 0 then multiset{(i - 1) as byte} else multiset{})
  }

  lemma {:induction false} PositiveSymbolsCount(frequencies: seq<int>, i: nat, b: byte)
    requires |frequencies| == 256 && i <= 256
    ensures PositiveSymbols(frequencies, i)[b] == if b as int < i && frequencies[b as int] > 0 then 1 else 0
  {
    if i > 0 {
      PositiveSymbolsCount(frequencies, i - 1, b);
    }
  }

  /** Upper bound on the count, used for the heap capacity. */
  lemma {:induction false} PositiveSymbolsSize(frequencies: seq<int>, i: nat)
    requires |frequencies| == 256 && i <= 256
    ensures |PositiveSymbols(frequencies, i)| <= i
  {
    if i > 0 {
      PositiveSymbolsSize(frequencies, i - 1);
    }
  }

  /** The leaf symbols of every tree in a multiset of trees, added up. */
  ghost function ForestLeaves(m: multiset<HuffmanNode>): multiset<byte>
    decreases |m|
  {
    if m == multiset{} then multiset{}
    else
      var t := Pick(m);
      LeafSymbols(t) + ForestLeaves(m - multiset{t})
  }

  ghost function Pick(m: multiset<HuffmanNode>): (t: HuffmanNode)
    requires m != multiset{}
    ensures t in m
  {
    var t :| t in m; t
  }

  lemma {:induction false} ForestLeavesAdd(m: multiset<HuffmanNode>, t: HuffmanNode)
    ensures ForestLeaves(m + multiset{t}) == ForestLeaves(m) + LeafSymbols(t)
    decreases |m|
  {
    var m' := m + multiset{t};
    var u := Pick(m');
    assert ForestLeaves(m') == LeafSymbols(u) + ForestLeaves(m' - multiset{u});
    if u == t {
      assert m' - multiset{u} == m;
    } else {
      assert u in m;
      var rest := m - multiset{u};
      assert m' - multiset{u} == rest + multiset{t};
      ForestLeavesAdd(rest, t);
      ForestLeavesAdd(rest, u);
      assert rest + multiset{u} == m;
      // LeafSymbols(u) + (ForestLeaves(rest) + LeafSymbols(t)) == (ForestLeaves(rest) + LeafSymbols(u)) + LeafSymbols(t)
      BagAssoc(LeafSymbols(u), ForestLeaves(rest), LeafSymbols(t));
      BagComm(LeafSymbols(u), ForestLeaves(rest));
    }
  }

  lemma ForestLeavesSingle(t: HuffmanNode)
    ensures ForestLeaves(multiset{t}) == LeafSymbols(t)
  {
    ForestLeavesAdd(multiset{}, t);
    assert multiset{} + multiset{t} == multiset{t};
  }
}
