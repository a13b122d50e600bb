/**
 * `generateCodes` of both compressors: a depth-first walk of the Huffman
 * tree that appends '0' for a left step and '1' for a right step to the
 * shared `currentCode` buffer and hands every leaf a copy of the path that
 * led to it. A walk that reaches depth MAX_CODE_LENGTH - 1 = 255 stops, so
 * leaves that deep get no code. Also `validateCodes` of compressS.c.
 */
module CodeGen {
  import opened Common
  import opened HuffmanTree

  /** `MAX_CODE_LENGTH - 1`: the depth at which the walk gives up. */
  const DepthCap := 255

  /** The code table: `codes[i]` is NULL (`None`) or the code string of symbol `i`. */
  type CodeTable = seq<Option<string>>

  /** `char *codes[256] = {NULL}` */
  function NoCodes(): (codes: CodeTable)
    ensures |codes| == 256 && forall b: byte :: codes[b].None?
  {
    seq(256, _ => None)
  }

  /** Following `p` from `n` (`'0'` left, `'1'` right) ends at a leaf labelled `s`. */
  predicate LeafAt(n: HuffmanNode, p: string, s: byte)
    decreases |p|
  {
    if p == [] then IsLeaf(n) && n.symbol == s
    else if p[0] == '0' then n.left.Some? && LeafAt(n.left.value, p[1..], s)
    else p[0] == '1' && n.right.Some? && LeafAt(n.right.value, p[1..], s)
  }

  /** The length of the longest root-to-leaf path. */
  function Height(n: HuffmanNode): nat
  {
    if IsLeaf(n) then 0
    else
      var l := match n.left case Some(c) => Height(c) case None => 0;
      var r := match n.right case Some(c) => Height(c) case None => 0;
      1 + if l < r then r else l
  }

  /**
   * The table after `generateCodes(t, codes, currentCode, |path|)` when
   * `currentCode` holds `path`: the walk of the C function, as a function.
   */
  function Assign(t: Option<HuffmanNode>, path: string, codes: CodeTable): (r: CodeTable)
    requires |codes| == 256
    ensures |r| == 256
    decreases t
  {
    match t
    case None => codes
    case Some(n) =>
      if |path| >= DepthCap then codes
      else if IsLeaf(n) then codes[n.symbol := Some(path)]
      else Assign(n.right, path + "1", Assign(n.left, path + "0", codes))
  }

  /** The table `main` obtains from `generateCodes(root, codes, currentCode, 0)`. */
  function CodesOf(root: Option<HuffmanNode>): CodeTable
  {
    Assign(root, [], NoCodes())
  }

  /** No code of one symbol is a prefix of the code of another. */
  predicate PrefixFree(codes: CodeTable)
    requires |codes| == 256
  {
    forall a: byte, b: byte :: a != b && codes[a].Some? && codes[b].Some? ==>
      !(|codes[a].value| <= |codes[b].value| && codes[b].value[..|codes[a].value|] == codes[a].value)
  }

  /**
   * The recursive walk of compressFork.c:108-129 (compressS.c:105-127 is
   * the same). `codes` and `currentCode` are the caller's arrays; the first
   * `depth` characters of `currentCode` are the path to `root`.
   */
  method GenerateCodes(root: Option<HuffmanNode>, codes: array<Option<string>>, currentCode: array<char>, depth: int)
    requires codes.Length == 256 && currentCode.Length == 256
    requires 0 <= depth <= DepthCap
    modifies codes, currentCode
    ensures codes[..] == Assign(root, old(currentCode[..depth]), old(codes[..]))
    ensures currentCode[..depth] == old(currentCode[..depth])
    decreases root
  {
    if root.None? || depth >= DepthCap {
      return;
    }
    var n := root.value;
    ghost var path := currentCode[..depth];
    if n.left.None? && n.right.None? {
      currentCode[depth] := 0 as char;
      codes[n.symbol] := Some(currentCode[..depth]);
      return;
    }
    ghost var before := codes[..];
    if n.left.Some? {
      currentCode[depth] := '0';
      assert currentCode[..depth + 1] == path + "0";
      GenerateCodes(n.left, codes, currentCode, depth + 1);
      assert currentCode[..depth] == currentCode[..depth + 1][..depth];
    }
    assert codes[..] == Assign(n.left, path + "0", before);
    if n.right.Some? {
      currentCode[depth] := '1';
      assert currentCode[..depth + 1] == path + "1";
      GenerateCodes(n.right, codes, currentCode, depth + 1);
      assert currentCode[..depth] == currentCode[..depth + 1][..depth];
    }
  }

  /**
   * The calling sequence of `main`: a table of NULLs, a zeroed path buffer,
   * then the walk from the root at depth 0. Every code is the path to a
   * leaf with that symbol and shorter than 255; every leaf less than 255
   * steps deep has a code; and the table is prefix-free.
   */
  method GenerateCodeTable(root: Option<HuffmanNode>) returns (codes: CodeTable)
    ensures |codes| == 256 && codes == CodesOf(root)
    ensures forall b: byte :: codes[b].Some? ==>
      root.Some? && LeafAt(root.value, codes[b].value, b) && |codes[b].value| < DepthCap
    ensures forall b: byte, p: string :: root.Some? && LeafAt(root.value, p, b) && |p| < DepthCap ==> codes[b].Some?
    ensures PrefixFree(codes)
  {
    var table := new Option<string>[256](_ => None);
    var currentCode := new char[256](_ => 0 as char);
    assert table[..] == NoCodes();
    assert currentCode[..0] == [];
    GenerateCodes(root, table, currentCode, 0);
    codes := table[..];
    CodesOfSound(root);
    CodesOfComplete(root);
    CodesOfPrefixFree(root);
  }

  /** What one walk writes: either the entry is untouched, or it is `path` followed by a leaf path of `t`. */
  lemma {:induction false} AssignSound(t: Option<HuffmanNode>, path: string, codes: CodeTable, s: byte)
    requires |codes| == 256
    ensures var r := Assign(t, path, codes);
      r[s] == codes[s]
      || (r[s].Some? && |path| <= |r[s].value| < DepthCap && r[s].value[..|path|] == path
          && t.Some? && LeafAt(t.value, r[s].value[|path|..], s))
    decreases t
  {
    match t
    case None =>
    case Some(n) =>
      if |path| >= DepthCap {
      } else if IsLeaf(n) {
        if n.symbol == s {
          assert path[|path|..] == [];
        }
      } else {
        var c1 := Assign(n.left, path + "0", codes);
        var r := Assign(n.right, path + "1", c1);
        AssignSound(n.left, path + "0", codes, s);
        AssignSound(n.right, path + "1", c1, s);
        if r[s] != c1[s] {
          var v := r[s].value;
          assert v[..|path| + 1] == path + "1";
          assert v[|path|..][0] == '1' && v[|path|..][1..] == v[|path| + 1..];
          assert v[..|path|] == v[..|path| + 1][..|path|];
        } else if c1[s] != codes[s] {
          var v := c1[s].value;
          assert v[..|path| + 1] == path + "0";
          assert v[|path|..][0] == '0' && v[|path|..][1..] == v[|path| + 1..];
          assert v[..|path|] == v[..|path| + 1][..|path|];
        }
      }
  }

  /** A walk never clears an entry. */
  lemma {:induction false} AssignKeeps(t: Option<HuffmanNode>, path: string, codes: CodeTable, s: byte)
    requires |codes| == 256 && codes[s].Some?
    ensures Assign(t, path, codes)[s].Some?
    decreases t
  {
    match t
    case None =>
    case Some(n) =>
      if |path| < DepthCap && !IsLeaf(n) {
        AssignKeeps(n.left, path + "0", codes, s);
        AssignKeeps(n.right, path + "1", Assign(n.left, path + "0", codes), s);
      }
  }

  /** A walk gives a code to every leaf it reaches before the depth cap. */
  lemma {:induction false} AssignComplete(n: HuffmanNode, path: string, codes: CodeTable, q: string, s: byte)
    requires |codes| == 256 && LeafAt(n, q, s) && |path| + |q| < DepthCap
    ensures Assign(Some(n), path, codes)[s].Some?
    decreases |q|
  {
    if q != [] {
      var c1 := Assign(n.left, path + "0", codes);
      if q[0] == '0' {
        AssignComplete(n.left.value, path + "0", codes, q[1..], s);
        AssignKeeps(n.right, path + "1", c1, s);
      } else {
        AssignComplete(n.right.value, path + "1", c1, q[1..], s);
      }
    }
  }

  /** Every code `main` obtains is a leaf path of its symbol, shorter than 255. */
  lemma CodesOfSound(root: Option<HuffmanNode>)
    ensures forall b: byte :: CodesOf(root)[b].Some? ==>
      root.Some? && LeafAt(root.value, CodesOf(root)[b].value, b) && |CodesOf(root)[b].value| < DepthCap
  {
    forall b: byte | CodesOf(root)[b].Some?
      ensures root.Some? && LeafAt(root.value, CodesOf(root)[b].value, b) && |CodesOf(root)[b].value| < DepthCap
    {
      AssignSound(root, [], NoCodes(), b);
      assert CodesOf(root)[b].value[0..] == CodesOf(root)[b].value;
    }
  }

  /** Every leaf at depth below 255 gets a code. */
  lemma CodesOfComplete(root: Option<HuffmanNode>)
    ensures forall b: byte, p: string :: root.Some? && LeafAt(root.value, p, b) && |p| < DepthCap ==> CodesOf(root)[b].Some?
  {
    forall b: byte, p: string | root.Some? && LeafAt(root.value, p, b) && |p| < DepthCap
      ensures CodesOf(root)[b].Some?
    {
      AssignComplete(root.value, [], NoCodes(), p, b);
    }
  }

  /** A code is a string of '0' and '1'. */
  predicate IsBitString(c: string)
  {
    forall k :: 0 <= k < |c| ==> c[k] == '0' || c[k] == '1'
  }

  /** A leaf path is a bit string, and it is empty only when `n` itself is the leaf. */
  lemma {:induction false} LeafAtBits(n: HuffmanNode, p: string, s: byte)
    requires LeafAt(n, p, s)
    ensures IsBitString(p)
    ensures p == [] <==> IsLeaf(n)
    decreases |p|
  {
    if p != [] {
      if p[0] == '0' {
        LeafAtBits(n.left.value, p[1..], s);
      } else {
        LeafAtBits(n.right.value, p[1..], s);
      }
      assert p == [p[0]] + p[1..];
    }
  }

  /** The codes `main` obtains from a root that is not a leaf are non-empty bit strings. */
  lemma CodesAreBitStrings(root: HuffmanNode)
    requires !IsLeaf(root)
    ensures forall b: byte :: CodesOf(Some(root))[b].Some? ==>
      IsBitString(CodesOf(Some(root))[b].value) && CodesOf(Some(root))[b].value != []
  {
    CodesOfSound(Some(root));
    forall b: byte | CodesOf(Some(root))[b].Some?
      ensures IsBitString(CodesOf(Some(root))[b].value) && CodesOf(Some(root))[b].value != []
    {
      LeafAtBits(root, CodesOf(Some(root))[b].value, b);
    }
  }

  /** A leaf path is never a proper prefix of another path to a leaf. */
  lemma {:induction false} LeafAtPrefix(n: HuffmanNode, p: string, q: string, s: byte, u: byte)
    requires LeafAt(n, p, s) && LeafAt(n, q, u)
    requires |p| <= |q| && q[..|p|] == p
    ensures p == q && s == u
    decreases |p|
  {
    if p != [] {
      assert q[0] == p[0];
      assert q[1..][..|p| - 1] == p[1..];
      if p[0] == '0' {
        LeafAtPrefix(n.left.value, p[1..], q[1..], s, u);
      } else {
        LeafAtPrefix(n.right.value, p[1..], q[1..], s, u);
      }
      assert p == [p[0]] + p[1..] && q == [q[0]] + q[1..];
    }
  }

  /** The table `main` obtains is prefix-free. */
  lemma CodesOfPrefixFree(root: Option<HuffmanNode>)
    ensures PrefixFree(CodesOf(root))
  {
    var codes := CodesOf(root);
    CodesOfSound(root);
    forall a: byte, b: byte | a != b && codes[a].Some? && codes[b].Some?
      ensures !(|codes[a].value| <= |codes[b].value| && codes[b].value[..|codes[a].value|] == codes[a].value)
    {
      if |codes[a].value| <= |codes[b].value| && codes[b].value[..|codes[a].value|] == codes[a].value {
        LeafAtPrefix(root.value, codes[a].value, codes[b].value, a, b);
      }
    }
  }

  /** The leaf a path reaches is one of the tree's leaf symbols. */
  lemma {:induction false} LeafAtInSymbols(n: HuffmanNode, p: string, s: byte)
    requires LeafAt(n, p, s)
    ensures s in LeafSymbols(n)
    decreases |p|
  {
    if p != [] {
      if p[0] == '0' {
        LeafAtInSymbols(n.left.value, p[1..], s);
      } else {
        LeafAtInSymbols(n.right.value, p[1..], s);
      }
    }
  }

  /** A symbol that labels one leaf only has one path. */
  lemma {:induction false} LeafAtUnique(n: HuffmanNode, p: string, q: string, s: byte)
    requires LeafSymbols(n)[s] == 1 && LeafAt(n, p, s) && LeafAt(n, q, s)
    ensures p == q
    decreases |p|
  {
    if p != [] && q != [] {
      var l := match n.left case Some(c) => LeafSymbols(c) case None => multiset{};
      var r := match n.right case Some(c) => LeafSymbols(c) case None => multiset{};
      assert LeafSymbols(n) == l + r;
      if p[0] == '0' {
        LeafAtInSymbols(n.left.value, p[1..], s);
      } else {
        LeafAtInSymbols(n.right.value, p[1..], s);
      }
      if q[0] == '0' {
        LeafAtInSymbols(n.left.value, q[1..], s);
      } else {
        LeafAtInSymbols(n.right.value, q[1..], s);
      }
      if p[0] == '0' && q[0] == '0' {
        LeafAtUnique(n.left.value, p[1..], q[1..], s);
      } else if p[0] == '1' && q[0] == '1' {
        LeafAtUnique(n.right.value, p[1..], q[1..], s);
      }
      assert p == [p[0]] + p[1..] && q == [q[0]] + q[1..];
    }
  }

  /**
   * When each symbol labels one leaf (as in the trees `buildHuffmanTree`
   * returns), a leaf less than 255 steps deep gets exactly its root-to-leaf
   * path as its code.
   */
  lemma CodeIsLeafPath(root: HuffmanNode, p: string, s: byte)
    requires LeafSymbols(root)[s] == 1 && LeafAt(root, p, s) && |p| < DepthCap
    ensures CodesOf(Some(root))[s] == Some(p)
  {
    CodesOfComplete(Some(root));
    CodesOfSound(Some(root));
    LeafAtUnique(root, CodesOf(Some(root))[s].value, p, s);
  }

  /** A path within a tree is no longer than its height. */
  lemma {:induction false} LeafAtHeight(n: HuffmanNode, p: string, s: byte)
    requires LeafAt(n, p, s)
    ensures |p| <= Height(n)
    decreases |p|
  {
    if p != [] {
      if p[0] == '0' {
        LeafAtHeight(n.left.value, p[1..], s);
      } else {
        LeafAtHeight(n.right.value, p[1..], s);
      }
    }
  }

  /** A path to a leaf labelled `s`, for every leaf symbol `s`. */
  ghost function PathTo(n: HuffmanNode, s: byte): (p: string)
    requires s in LeafSymbols(n)
    ensures LeafAt(n, p, s)
  {
    if IsLeaf(n) then []
    else if n.left.Some? && s in LeafSymbols(n.left.value) then "0" + PathTo(n.left.value, s)
    else
      assert n.right.Some? && s in LeafSymbols(n.right.value);
      "1" + PathTo(n.right.value, s)
  }

  /** In a tree less than 255 levels high, every leaf symbol gets a code. */
  lemma ShallowTreeCodesAll(root: HuffmanNode)
    requires Height(root) < DepthCap
    ensures forall b: byte :: b in LeafSymbols(root) ==> CodesOf(Some(root))[b].Some?
  {
    forall b: byte | b in LeafSymbols(root) ensures CodesOf(Some(root))[b].Some? {
      var p := PathTo(root, b);
      LeafAtHeight(root, p, b);
      CodesOfComplete(Some(root));
    }
  }

  /**
   * compressS.c's tree for a single symbol (a root whose only child is the
   * leaf, on the left) gives that symbol the code "0" and no other symbol a
   * code.
   */
  lemma SingleSymbolCode(root: HuffmanNode)
    requires root.right.None? && root.left.Some? && IsLeaf(root.left.value)
    ensures CodesOf(Some(root))[root.left.value.symbol] == Some("0")
    ensures forall b: byte :: b != root.left.value.symbol ==> CodesOf(Some(root))[b].None?
  {
    var leaf := root.left.value;
    var zero: string := [] + "0";
    assert zero == "0";
    assert CodesOf(Some(root)) == Assign(None, [] + "1", Assign(Some(leaf), zero, NoCodes()));
  }

  /**
   * `validateCodes` (compressS.c:153-161) without the `exit`: true exactly
   * when every symbol with a positive count has a code.
   */
  method ValidateCodes(codes: CodeTable, frequencies: seq<int>) returns (ok: bool)
    requires |codes| == 256 && |frequencies| == 256
    ensures ok <==> forall b: byte :: frequencies[b] > 0 ==> codes[b].Some?
  {
    for i := 0 to 256
      invariant forall b: byte :: b as int < i && frequencies[b] > 0 ==> codes[b].Some?
    {
      if frequencies[i] > 0 && codes[i].None? {
        assert frequencies[i as byte] > 0 && codes[i as byte].None?;
        return false;
      }
    }
    return true;
  }

  /**
   * On a tree built from the table and less than 255 levels high,
   * validation succeeds: each positive-count symbol is a leaf and so has a
   * code.
   */
  lemma ValidatesShallowTree(root: HuffmanNode, frequencies: seq<int>)
    requires |frequencies| == 256
    requires LeafSymbols(root) == PositiveSymbols(frequencies, 256)
    requires Height(root) < DepthCap
    ensures forall b: byte :: frequencies[b] > 0 ==> CodesOf(Some(root))[b].Some?
  {
    ShallowTreeCodesAll(root);
    forall b: byte | frequencies[b] > 0 ensures b in LeafSymbols(root) {
      PositiveSymbolsCount(frequencies, 256, b);
    }
  }
}
