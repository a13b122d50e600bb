/**
 * The decoders' tree: `insertCode` / `rebuildTreeFromCodes` walk a cursor
 * from the root along a code, creating missing children on the way, and
 * label the node they stop at. The C nodes live on the heap; here they
 * live in an arena `seq<Node>` whose index 0 is the root and in which
 * `Nil` (-1) stands for NULL. Children are always created after their
 * parent, so every link points forward.
 */
module DecodeTree {
  import opened Common

  const Nil := -1

  /** `struct HuffmanNode` of the decoders (no frequency). */
  datatype Node = Node(symbol: byte, left: int, right: int)

  /** A fresh node, as `createNode(0)` or `calloc` make it. */
  const Blank := Node(0, Nil, Nil)

  /** The child a bit selects: `0` (false) left, `1` (true) right. */
  function Child(nodes: seq<Node>, j: int, b: bool): int
    requires 0 <= j < |nodes|
  {
    if b then nodes[j].right else nodes[j].left
  }

  predicate ChildOk(nodes: seq<Node>, j: int, c: int)
  {
    c == Nil || j < c < |nodes|
  }

  /** A non-empty arena whose links are NULL or point to later nodes. */
  predicate WellFormed(nodes: seq<Node>)
  {
    |nodes| > 0 && forall j, b :: 0 <= j < |nodes| ==> ChildOk(nodes, j, Child(nodes, j, b))
  }

  predicate IsLeafNode(nodes: seq<Node>, j: int)
    requires 0 <= j < |nodes|
  {
    nodes[j].left == Nil && nodes[j].right == Nil
  }

  /** How a code character steers the cursor. */
  datatype Steering =
    | SkipOther   // Fork/decompressFork.c `insertCode`: '0' left, '1' right, anything else is skipped
    | OtherRight  // `rebuildTreeFromCodes`: '0' left, anything else right

  /** The directions a code takes under a steering. */
  function Dirs(code: string, steering: Steering): seq<bool>
  {
    if code == [] then []
    else
      (if code[0] == '0' then [false]
       else if code[0] == '1' || steering == OtherRight then [true]
       else [])
      + Dirs(code[1..], steering)
  }

  /** The bits of a string of '0' and '1'. */
  function ToBits(c: string): (bs: seq<bool>)
    ensures |bs| == |c| && forall k :: 0 <= k < |c| ==> bs[k] == (c[k] == '1')
  {
    seq(|c|, k requires 0 <= k < |c| => c[k] == '1')
  }

  /** On a bit string both steerings follow the bits. */
  lemma {:induction false} DirsOfBits(c: string, steering: Steering)
    requires forall k :: 0 <= k < |c| ==> c[k] == '0' || c[k] == '1'
    ensures Dirs(c, steering) == ToBits(c)
  {
    if c != [] {
      DirsOfBits(c[1..], steering);
      assert ToBits(c) == [c[0] == '1'] + ToBits(c[1..]);
    }
  }

  /** `current->left = createNode(0)` (or `->right`): a blank node appended and linked from `j`. */
  function Grow(nodes: seq<Node>, j: int, b: bool): (r: seq<Node>)
    requires WellFormed(nodes) && 0 <= j < |nodes| && Child(nodes, j, b) == Nil
    ensures WellFormed(r) && |r| == |nodes| + 1 && r[|nodes|] == Blank
    ensures Child(r, j, b) == |nodes|
    ensures forall i, d :: 0 <= i < |nodes| && (i != j || d != b) ==> Child(r, i, d) == Child(nodes, i, d)
    ensures forall i :: 0 <= i < |nodes| ==> r[i].symbol == nodes[i].symbol
  {
    var f := |nodes|;
    var n := nodes[j];
    var r := nodes[j := if b then n.(right := f) else n.(left := f)] + [Blank];
    assert forall i, d :: 0 <= i < |r| ==> ChildOk(r, i, Child(r, i, d)) by {
      forall i, d | 0 <= i < |r| ensures ChildOk(r, i, Child(r, i, d)) {
        if i < f && (i != j || d != b) {
          assert Child(r, i, d) == Child(nodes, i, d);
          assert ChildOk(nodes, i, Child(nodes, i, d));
        }
      }
    }
    r
  }

  /**
   * The arena after `insertCode` has walked the directions `bs` from node
   * `cur` and labelled the node it stopped at with `s`: missing children are
   * created, existing ones are followed.
   */
  function InsertBits(nodes: seq<Node>, cur: int, bs: seq<bool>, s: byte): (r: seq<Node>)
    requires WellFormed(nodes) && 0 <= cur < |nodes|
    ensures WellFormed(r) && |r| >= |nodes|
    decreases |bs|
  {
    if bs == [] then
      var r := nodes[cur := nodes[cur].(symbol := s)];
      assert forall i, d :: 0 <= i < |r| ==> Child(r, i, d) == Child(nodes, i, d);
      r
    else if Child(nodes, cur, bs[0]) == Nil then InsertBits(Grow(nodes, cur, bs[0]), |nodes|, bs[1..], s)
    else InsertBits(nodes, Child(nodes, cur, bs[0]), bs[1..], s)
  }

  /** Following `p` from node `j`; `Nil` when the walk steps off the tree. */
  function FollowBits(nodes: seq<Node>, j: int, p: seq<bool>): (r: int)
    requires WellFormed(nodes) && 0 <= j < |nodes|
    ensures r == Nil || 0 <= r < |nodes|
    decreases |p|
  {
    if p == [] then j
    else if Child(nodes, j, p[0]) == Nil then Nil
    else FollowBits(nodes, Child(nodes, j, p[0]), p[1..])
  }

  /** Links point forward, so a walk only moves to later nodes. */
  lemma {:induction false} FollowForward(nodes: seq<Node>, j: int, p: seq<bool>)
    requires WellFormed(nodes) && 0 <= j < |nodes|
    ensures FollowBits(nodes, j, p) == Nil || FollowBits(nodes, j, p) >= j
    ensures p != [] ==> FollowBits(nodes, j, p) == Nil || FollowBits(nodes, j, p) > j
    decreases |p|
  {
    if p != [] && Child(nodes, j, p[0]) != Nil {
      assert ChildOk(nodes, j, Child(nodes, j, p[0]));
      FollowForward(nodes, Child(nodes, j, p[0]), p[1..]);
    }
  }

  /** Following `p` from the root ends at a leaf labelled `s`. */
  predicate Reaches(nodes: seq<Node>, p: seq<bool>, s: byte)
    requires WellFormed(nodes)
  {
    var e := FollowBits(nodes, 0, p);
    e != Nil && IsLeafNode(nodes, e) && nodes[e].symbol == s
  }

  ghost predicate IsPrefix<T>(p: seq<T>, q: seq<T>)
  {
    |p| <= |q| && q[..|p|] == p
  }

  // ---- the tree shape, through the path of every node ----

  /** `paths[j]` is the way from the root to node `j`; every link extends it by one step. */
  ghost predicate PathsOk(nodes: seq<Node>, paths: seq<seq<bool>>)
    requires WellFormed(nodes)
  {
    && |paths| == |nodes| && paths[0] == []
    && forall j, b :: 0 <= j < |nodes| && Child(nodes, j, b) != Nil ==> paths[Child(nodes, j, b)] == paths[j] + [b]
  }

  /** The paths after `InsertBits`: each created node extends its parent's path. */
  ghost function InsertPaths(nodes: seq<Node>, paths: seq<seq<bool>>, cur: int, bs: seq<bool>): seq<seq<bool>>
    requires WellFormed(nodes) && 0 <= cur < |nodes| && |paths| == |nodes|
    decreases |bs|
  {
    if bs == [] then paths
    else if Child(nodes, cur, bs[0]) == Nil then
      InsertPaths(Grow(nodes, cur, bs[0]), paths + [paths[cur] + [bs[0]]], |nodes|, bs[1..])
    else InsertPaths(nodes, paths, Child(nodes, cur, bs[0]), bs[1..])
  }

  /** The node a walk reaches has the walk's path. So distinct paths reach distinct nodes. */
  lemma {:induction false} FollowPaths(nodes: seq<Node>, paths: seq<seq<bool>>, j: int, p: seq<bool>)
    requires WellFormed(nodes) && PathsOk(nodes, paths) && 0 <= j < |nodes|
    requires FollowBits(nodes, j, p) != Nil
    ensures paths[FollowBits(nodes, j, p)] == paths[j] + p
    decreases |p|
  {
    if p == [] {
      assert paths[j] + p == paths[j];
    } else {
      FollowPaths(nodes, paths, Child(nodes, j, p[0]), p[1..]);
      assert paths[j] + [p[0]] + p[1..] == paths[j] + p;
    }
  }

  /** A walk that stays on the tree is not changed by links set where there were none. */
  lemma {:induction false} FollowKept(nodes: seq<Node>, r: seq<Node>, j: int, p: seq<bool>)
    requires WellFormed(nodes) && WellFormed(r) && |nodes| <= |r| && 0 <= j < |nodes|
    requires forall i, b :: 0 <= i < |nodes| && Child(nodes, i, b) != Nil ==> Child(r, i, b) == Child(nodes, i, b)
    requires FollowBits(nodes, j, p) != Nil
    ensures FollowBits(r, j, p) == FollowBits(nodes, j, p)
    decreases |p|
  {
    if p != [] {
      FollowKept(nodes, r, Child(nodes, j, p[0]), p[1..]);
    }
  }

  /** A created child's path extends its parent's by the step to it. */
  lemma GrowPaths(nodes: seq<Node>, paths: seq<seq<bool>>, cur: int, b: bool)
    requires WellFormed(nodes) && PathsOk(nodes, paths) && 0 <= cur < |nodes| && Child(nodes, cur, b) == Nil
    ensures PathsOk(Grow(nodes, cur, b), paths + [paths[cur] + [b]])
  {
    var n1 := Grow(nodes, cur, b);
    var p1 := paths + [paths[cur] + [b]];
    forall j, d | 0 <= j < |n1| && Child(n1, j, d) != Nil
      ensures p1[Child(n1, j, d)] == p1[j] + [d]
    {
      if j < |nodes| && (j != cur || d != b) {
        assert Child(n1, j, d) == Child(nodes, j, d);
      }
    }
  }

  /** One direction of an insertion where the child is missing: it is created and followed. */
  lemma InsertGrown(nodes: seq<Node>, paths: seq<seq<bool>>, cur: int, b: bool, rest: seq<bool>, s: byte)
    requires WellFormed(nodes) && |paths| == |nodes| && 0 <= cur < |nodes| && Child(nodes, cur, b) == Nil
    ensures InsertBits(nodes, cur, [b] + rest, s) == InsertBits(Grow(nodes, cur, b), |nodes|, rest, s)
    ensures InsertPaths(nodes, paths, cur, [b] + rest)
      == InsertPaths(Grow(nodes, cur, b), paths + [paths[cur] + [b]], |nodes|, rest)
  {
    assert ([b] + rest)[0] == b && ([b] + rest)[1..] == rest;
  }

  /** One direction of an insertion where the child exists: it is followed. */
  lemma InsertFollowed(nodes: seq<Node>, paths: seq<seq<bool>>, cur: int, b: bool, rest: seq<bool>, s: byte)
    requires WellFormed(nodes) && |paths| == |nodes| && 0 <= cur < |nodes| && Child(nodes, cur, b) != Nil
    ensures InsertBits(nodes, cur, [b] + rest, s) == InsertBits(nodes, Child(nodes, cur, b), rest, s)
    ensures InsertPaths(nodes, paths, cur, [b] + rest) == InsertPaths(nodes, paths, Child(nodes, cur, b), rest)
  {
    assert ([b] + rest)[0] == b && ([b] + rest)[1..] == rest;
  }

  /** Labelling the node the walk stopped at: nothing else changes, the paths stay consistent. */
  lemma Label(nodes: seq<Node>, paths: seq<seq<bool>>, cur: int, s: byte)
    requires WellFormed(nodes) && PathsOk(nodes, paths) && 0 <= cur < |nodes|
    ensures InsertBits(nodes, cur, [], s) == nodes[cur := nodes[cur].(symbol := s)]
    ensures InsertPaths(nodes, paths, cur, []) == paths
    ensures PathsOk(nodes[cur := nodes[cur].(symbol := s)], paths)
  {
    var r := nodes[cur := nodes[cur].(symbol := s)];
    assert forall i, d :: 0 <= i < |r| ==> Child(r, i, d) == Child(nodes, i, d);
  }

  /** `code[i]` steers the cursor one way, or not at all. */
  lemma DirsAt(code: string, i: nat, steering: Steering)
    requires i < |code|
    ensures Dirs(code[i..], steering)
      == if code[i] == '0' then [false] + Dirs(code[i + 1..], steering)
         else if code[i] == '1' || steering == OtherRight then [true] + Dirs(code[i + 1..], steering)
         else Dirs(code[i + 1..], steering)
  {
    assert code[i..][0] == code[i] && code[i..][1..] == code[i + 1..];
  }

  /** Insertion keeps the paths consistent; created nodes lie on the inserted path. */
  lemma {:induction false} InsertShape(nodes: seq<Node>, paths: seq<seq<bool>>, cur: int, bs: seq<bool>, s: byte)
    requires WellFormed(nodes) && PathsOk(nodes, paths) && 0 <= cur < |nodes|
    ensures var r := InsertBits(nodes, cur, bs, s);
      var ps := InsertPaths(nodes, paths, cur, bs);
      && PathsOk(r, ps) && ps[..|nodes|] == paths
      && forall j :: |nodes| <= j < |r| ==> IsPrefix(ps[j], paths[cur] + bs)
    decreases |bs|
  {
    if bs == [] {
      var r := InsertBits(nodes, cur, bs, s);
      assert forall i, d :: 0 <= i < |r| ==> Child(r, i, d) == Child(nodes, i, d);
    } else if Child(nodes, cur, bs[0]) == Nil {
      var n1 := Grow(nodes, cur, bs[0]);
      var p1 := paths + [paths[cur] + [bs[0]]];
      GrowPaths(nodes, paths, cur, bs[0]);
      InsertShape(n1, p1, |nodes|, bs[1..], s);
      assert p1[|nodes|] + bs[1..] == paths[cur] + bs;
      var r := InsertBits(nodes, cur, bs, s);
      var ps := InsertPaths(nodes, paths, cur, bs);
      assert ps[..|nodes|] == p1[..|n1|][..|nodes|];
      forall j | |nodes| <= j < |r| ensures IsPrefix(ps[j], paths[cur] + bs) {
        if j == |nodes| {
          assert ps[j] == p1[|nodes|];
          assert (paths[cur] + bs)[..|paths[cur]| + 1] == paths[cur] + [bs[0]];
        }
      }
    } else {
      var c := Child(nodes, cur, bs[0]);
      InsertShape(nodes, paths, c, bs[1..], s);
      assert paths[c] + bs[1..] == paths[cur] + bs;
    }
  }

  /** Insertion never replaces an existing link, and changes links only along the inserted path. */
  lemma {:induction false} InsertLinks(nodes: seq<Node>, paths: seq<seq<bool>>, cur: int, bs: seq<bool>, s: byte)
    requires WellFormed(nodes) && PathsOk(nodes, paths) && 0 <= cur < |nodes|
    ensures var r := InsertBits(nodes, cur, bs, s);
      && (forall j, b :: 0 <= j < |nodes| && Child(nodes, j, b) != Nil ==> Child(r, j, b) == Child(nodes, j, b))
      && (forall j, b :: 0 <= j < |nodes| && Child(r, j, b) != Child(nodes, j, b) ==> IsPrefix(paths[j] + [b], paths[cur] + bs))
    decreases |bs|
  {
    if bs == [] {
    } else if Child(nodes, cur, bs[0]) == Nil {
      var n1 := Grow(nodes, cur, bs[0]);
      var p1 := paths + [paths[cur] + [bs[0]]];
      GrowPaths(nodes, paths, cur, bs[0]);
      InsertLinks(n1, p1, |nodes|, bs[1..], s);
      var r := InsertBits(nodes, cur, bs, s);
      assert p1[|nodes|] + bs[1..] == paths[cur] + bs;
      forall j, b | 0 <= j < |nodes| && Child(r, j, b) != Child(nodes, j, b)
        ensures IsPrefix(paths[j] + [b], paths[cur] + bs)
      {
        if j == cur && b == bs[0] {
          assert (paths[cur] + bs)[..|paths[cur]| + 1] == paths[cur] + [bs[0]];
        } else {
          assert Child(n1, j, b) == Child(nodes, j, b);
          assert p1[j] == paths[j];
        }
      }
    } else {
      var c := Child(nodes, cur, bs[0]);
      InsertLinks(nodes, paths, c, bs[1..], s);
      assert paths[c] + bs[1..] == paths[cur] + bs;
    }
  }

  /**
   * `insertCode` ends at a node labelled with the symbol, a fresh one when it
   * had to create it; no other existing node changes its label.
   */
  lemma {:induction false} InsertEnd(nodes: seq<Node>, cur: int, bs: seq<bool>, s: byte)
    requires WellFormed(nodes) && 0 <= cur < |nodes|
    ensures var r := InsertBits(nodes, cur, bs, s);
      var e := FollowBits(r, cur, bs);
      && e != Nil && r[e].symbol == s
      && (e >= |nodes| ==> IsLeafNode(r, e))
      && forall j :: 0 <= j < |nodes| && j != e ==> r[j].symbol == nodes[j].symbol
    decreases |bs|
  {
    if bs != [] {
      var r := InsertBits(nodes, cur, bs, s);
      var n1, c;
      if Child(nodes, cur, bs[0]) == Nil {
        n1 := Grow(nodes, cur, bs[0]);
        c := |nodes|;
      } else {
        n1 := nodes;
        c := Child(nodes, cur, bs[0]);
      }
      InsertEnd(n1, c, bs[1..], s);
      InsertLinksNoPaths(n1, c, bs[1..], s);
      assert Child(r, cur, bs[0]) == c;
      FollowForward(r, c, bs[1..]);
      if bs[1..] == [] {
        assert r == n1[c := n1[c].(symbol := s)];
      }
    }
  }

  /** The link-keeping half of `InsertLinks`, which needs no paths. */
  lemma {:induction false} InsertLinksNoPaths(nodes: seq<Node>, cur: int, bs: seq<bool>, s: byte)
    requires WellFormed(nodes) && 0 <= cur < |nodes|
    ensures var r := InsertBits(nodes, cur, bs, s);
      forall j, b :: 0 <= j < |nodes| && Child(nodes, j, b) != Nil ==> Child(r, j, b) == Child(nodes, j, b)
    decreases |bs|
  {
    if bs != [] {
      if Child(nodes, cur, bs[0]) == Nil {
        var n1 := Grow(nodes, cur, bs[0]);
        InsertLinksNoPaths(n1, |nodes|, bs[1..], s);
        forall j, b | 0 <= j < |nodes| && Child(nodes, j, b) != Nil
          ensures Child(n1, j, b) == Child(nodes, j, b)
        {
        }
      } else {
        InsertLinksNoPaths(nodes, Child(nodes, cur, bs[0]), bs[1..], s);
      }
    }
  }

  /**
   * The label property of `insertCode`: following the code's directions from
   * the root ends at a node labelled `s`, and every link that existed is
   * still there.
   */
  lemma InsertFollows(nodes: seq<Node>, code: string, s: byte, steering: Steering)
    requires WellFormed(nodes)
    ensures var r := InsertBits(nodes, 0, Dirs(code, steering), s);
      && FollowBits(r, 0, Dirs(code, steering)) != Nil
      && r[FollowBits(r, 0, Dirs(code, steering))].symbol == s
      && forall j, b :: 0 <= j < |nodes| && Child(nodes, j, b) != Nil ==> Child(r, j, b) == Child(nodes, j, b)
  {
    InsertEnd(nodes, 0, Dirs(code, steering), s);
    InsertLinksNoPaths(nodes, 0, Dirs(code, steering), s);
  }

  /** The walk of `insertCode` over an arena and its paths. */
  method InsertWalk(nodes: seq<Node>, ghost paths: seq<seq<bool>>, code: string, symbol: byte, steering: Steering)
    returns (r: seq<Node>, ghost rp: seq<seq<bool>>)
    requires WellFormed(nodes) && PathsOk(nodes, paths)
    ensures WellFormed(r) && PathsOk(r, rp)
    ensures r == InsertBits(nodes, 0, Dirs(code, steering), symbol)
    ensures rp == InsertPaths(nodes, paths, 0, Dirs(code, steering))
  {
    var ns, current, i := nodes, 0, 0;
    ghost var ps := paths;
    while i < |code|
      invariant 0 <= i <= |code| && WellFormed(ns) && PathsOk(ns, ps) && 0 <= current < |ns|
      invariant InsertBits(ns, current, Dirs(code[i..], steering), symbol) == InsertBits(nodes, 0, Dirs(code, steering), symbol)
      invariant InsertPaths(ns, ps, current, Dirs(code[i..], steering)) == InsertPaths(nodes, paths, 0, Dirs(code, steering))
    {
      DirsAt(code, i, steering);
      var ch := code[i];
      if ch == '0' || ch == '1' || steering == OtherRight {
        var b := ch != '0';
        if Child(ns, current, b) == Nil {
          InsertGrown(ns, ps, current, b, Dirs(code[i + 1..], steering), symbol);
          GrowPaths(ns, ps, current, b);
          ps := ps + [ps[current] + [b]];
          ns := Grow(ns, current, b);
          current := |ns| - 1;
        } else {
          InsertFollowed(ns, ps, current, b, Dirs(code[i + 1..], steering), symbol);
          current := Child(ns, current, b);
        }
      }
      i := i + 1;
    }
    Label(ns, ps, current, symbol);
    r, rp := ns[current := ns[current].(symbol := symbol)], ps;
  }

  // ---- the arena as a class ----

  /** The decoder tree the C code builds node by node. */
  class CodeTree {
    var nodes: seq<Node>
    ghost var paths: seq<seq<bool>>

    ghost predicate Valid()
      reads this
    {
      WellFormed(nodes) && PathsOk(nodes, paths)
    }

    /** `createNode(0)` / `calloc(1, sizeof(HuffmanNode))`: a root with no children. */
    constructor ()
      ensures Valid() && nodes == [Blank]
    {
      nodes := [Blank];
      paths := [[]];
    }

    /**
     * `insertCode(root, code, symbol)` (Fork/decompressFork.c:28-40) with
     * `SkipOther`, and the inner loop of `rebuildTreeFromCodes` with
     * `OtherRight`.
     */
    method InsertCode(code: string, symbol: byte, steering: Steering)
      requires Valid()
      modifies this
      ensures Valid()
      ensures nodes == InsertBits(old(nodes), 0, Dirs(code, steering), symbol)
      ensures paths == InsertPaths(old(nodes), old(paths), 0, Dirs(code, steering))
    {
      nodes, paths := InsertWalk(nodes, paths, code, symbol, steering);
    }
  }
}
