/**
 * The decoders rebuild their tree from the codebook text:
 * `buildHuffmanTreeFromFile` (Fork/decompressFork.c) with `fscanf`, and
 * `rebuildTreeFromCodes` (Serial/decompressSerial.c, decompressFork.c,
 * decompressS.c) with `fgets` and `sscanf`. Rebuilding from a saved table
 * of prefix-free bit strings puts every symbol on a leaf at the end of its code.
 */
module TreeRebuild {
  import opened Common
  import opened CodeGen
  import opened Codebook
  import opened DecodeTree

  /** `(unsigned char)symbol`. */
  function ToByte(symbol: int): byte
  {
    (symbol % 256) as byte
  }

  lemma ToByteOfByte(i: int)
    requires 0 <= i < 256
    ensures ToByte(i) == i as byte
  {
  }

  /** The arena after the `fscanf(fp, "%d:%s\n", ...)` loop has read `t`. */
  function BuildFrom(nodes: seq<Node>, t: string): (r: seq<Node>)
    requires WellFormed(nodes)
    ensures WellFormed(r)
    decreases |t|
  {
    match ScanLine(t)
    case Failed => nodes
    case Scanned(symbol, code, rest) =>
      BuildFrom(InsertBits(nodes, 0, Dirs(CString(code), SkipOther), ToByte(symbol)), rest)
  }

  /** The arena after the `fgets` loop has read `t`; a line `sscanf` cannot read is skipped. */
  function RebuildFrom(nodes: seq<Node>, t: string): (r: seq<Node>)
    requires WellFormed(nodes)
    ensures WellFormed(r)
    decreases |t|
  {
    if t == [] then nodes
    else
      var n := FgetsLength(t);
      match ScanEntry(CString(t[..n]))
      case Failed => RebuildFrom(nodes, t[n..])
      case Scanned(symbol, code, _) =>
        RebuildFrom(InsertBits(nodes, 0, Dirs(code, OtherRight), ToByte(symbol)), t[n..])
  }

  /** `buildHuffmanTreeFromFile` (Fork/decompressFork.c:42-56) on the text of codes.txt. */
  method BuildTreeFromFile(text: string) returns (tree: CodeTree)
    ensures fresh(tree) && tree.Valid()
    ensures tree.nodes == BuildFrom([Blank], text)
  {
    tree := new CodeTree();
    var rest := text;
    while true
      invariant fresh(tree) && tree.Valid()
      invariant BuildFrom(tree.nodes, rest) == BuildFrom([Blank], text)
      decreases |rest|
    {
      var scan := ScanLine(rest);
      if scan.Failed? {
        break;
      }
      tree.InsertCode(CString(scan.code), ToByte(scan.symbol), SkipOther);
      rest := scan.rest;
    }
  }

  /**
   * `rebuildTreeFromCodes` (Serial/decompressSerial.c:27-49; the copies in
   * decompressFork.c:29-51 and decompressS.c:26-48 are the same) on the
   * text of the codes file.
   */
  method RebuildTreeFromCodes(text: string) returns (tree: CodeTree)
    ensures fresh(tree) && tree.Valid()
    ensures tree.nodes == RebuildFrom([Blank], text)
  {
    tree := new CodeTree();
    var rest := text;
    while rest != []
      invariant fresh(tree) && tree.Valid()
      invariant RebuildFrom(tree.nodes, rest) == RebuildFrom([Blank], text)
      decreases |rest|
    {
      var n := FgetsLength(rest);
      var line := CString(rest[..n]);
      var scan := ScanEntry(line);
      if scan.Scanned? {
        tree.InsertCode(scan.code, ToByte(scan.symbol), OtherRight);
      }
      rest := rest[n..];
    }
  }

  // ---- rebuilding from a saved table ----

  /** The arena after inserting the table's codes for symbols `i` to 255, in ascending order. */
  function InsertTable(nodes: seq<Node>, codes: CodeTable, i: nat, steering: Steering): (r: seq<Node>)
    requires WellFormed(nodes) && |codes| == 256 && i <= 256
    ensures WellFormed(r)
    decreases 256 - i
  {
    if i == 256 then nodes
    else
      var next := match codes[i] case Some(c) => InsertBits(nodes, 0, Dirs(c, steering), i as byte) case None => nodes;
      InsertTable(next, codes, i + 1, steering)
  }

  /** The `fscanf` loop over a saved text inserts the table's codes in order. */
  lemma {:induction false} BuildSaved(codes: CodeTable, nodes: seq<Node>, i: nat)
    requires |codes| == 256 && i <= 256 && Storable(codes) && WellFormed(nodes)
    ensures BuildFrom(nodes, SavedFrom(codes, i)) == InsertTable(nodes, codes, i, SkipOther)
    decreases 256 - i
  {
    if i == 256 {
      assert ScanLine([]) == Failed;
    } else {
      var rest := SavedFrom(codes, i + 1);
      SavedFromStart(codes, i + 1);
      match codes[i] {
        case Some(c) =>
          assert StorableCode(codes[i as byte].value);
          ScanLineOfLine(i, c, rest);
          CStringNoNul(c);
          ToByteOfByte(i);
          BuildSaved(codes, InsertBits(nodes, 0, Dirs(c, SkipOther), i as byte), i + 1);
        case None =>
          assert SavedFrom(codes, i) == rest;
          BuildSaved(codes, nodes, i + 1);
      }
    }
  }

  /** The codes `fgets` can return whole, with room for the number, ':' and the newline. */
  predicate FitsLine(codes: CodeTable)
    requires |codes| == 256
  {
    forall b: byte :: codes[b].Some? ==> |codes[b].value| <= 260
  }

  /** A saved line holds no NUL, so `sscanf` sees all of it. */
  lemma LineNoNul(i: nat, c: string)
    requires StorableCode(c)
    ensures CString(Line(i, c)) == Line(i, c)
  {
    var t := Line(i, c);
    var d := Decimal(i);
    forall k | 0 <= k < |t| ensures t[k] != Nul {
      if k < |d| {
        assert t[k] == d[k];
      } else if k > |d| && k < |t| - 1 {
        assert t[k] == c[k - |d| - 1];
      }
    }
    CStringNoNul(t);
  }

  /** `fgets` returns a saved line whole and `sscanf` inserts its code. */
  lemma RebuildLine(nodes: seq<Node>, i: nat, c: string, rest: string)
    requires WellFormed(nodes) && i < 256 && StorableCode(c) && |c| <= 260
    ensures RebuildFrom(nodes, Line(i, c) + rest) == RebuildFrom(InsertBits(nodes, 0, Dirs(c, OtherRight), i as byte), rest)
  {
    SavedLineRead(i, c, rest);
    ToByteOfByte(i);
  }

  /** `fgets` reads a saved line whole, and `sscanf` reads the symbol and the code from it. */
  lemma SavedLineRead(i: nat, c: string, rest: string)
    requires i < 256 && StorableCode(c) && |c| <= 260
    ensures var t := Line(i, c) + rest;
      && FgetsLength(t) == |Line(i, c)| && t[FgetsLength(t)..] == rest
      && ScanEntry(CString(t[..FgetsLength(t)])) == Scanned(i, c, "\n")
  {
    var line := Line(i, c);
    var t := line + rest;
    FgetsLine(i, c, rest);
    assert t[..|line|] == line && t[|line|..] == rest;
    LineNoNul(i, c);
    ScanEntryOfLine(i, c, []);
    AppendNil(line);
    AppendNil("\n");
  }

  /** The `fgets` loop over a saved text inserts the table's codes in order. */
  lemma {:induction false} RebuildSaved(codes: CodeTable, nodes: seq<Node>, i: nat)
    requires |codes| == 256 && i <= 256 && Storable(codes) && FitsLine(codes) && WellFormed(nodes)
    ensures RebuildFrom(nodes, SavedFrom(codes, i)) == InsertTable(nodes, codes, i, OtherRight)
    decreases 256 - i
  {
    if i < 256 {
      var rest := SavedFrom(codes, i + 1);
      match codes[i] {
        case Some(c) =>
          assert StorableCode(codes[i as byte].value) && |codes[i as byte].value| <= 260;
          assert SavedFrom(codes, i) == Line(i, c) + rest;
          RebuildLine(nodes, i, c, rest);
          RebuildSaved(codes, InsertBits(nodes, 0, Dirs(c, OtherRight), i as byte), i + 1);
        case None =>
          assert SavedFrom(codes, i) == rest;
          RebuildSaved(codes, nodes, i + 1);
      }
    }
  }

  // ---- a prefix-free table ends on leaves ----

  /** What decoding needs of a table: its codes are non-empty bit strings, none a prefix of another's. */
  predicate DecodableTable(codes: CodeTable)
    requires |codes| == 256
  {
    PrefixFree(codes) && forall b: byte :: codes[b].Some? ==> codes[b].value != [] && IsBitString(codes[b].value)
  }

  /** Every code of the table leads from the root to a leaf with its symbol. */
  predicate AllReach(nodes: seq<Node>, codes: CodeTable)
    requires WellFormed(nodes) && |codes| == 256
  {
    forall b: byte :: codes[b].Some? ==> Reaches(nodes, ToBits(codes[b].value), b)
  }

  /** Some code among the symbols below `i` extends `p`. */
  ghost predicate CoveredBy(p: seq<bool>, codes: CodeTable, i: nat)
    requires |codes| == 256
  {
    exists b: byte :: (b as int) < i && codes[b].Some? && IsPrefix(p, ToBits(codes[b].value))
  }

  /**
   * After inserting the codes below `i`: every node other than the root is
   * on the way to one of them, and each of them ends on a leaf with its symbol.
   */
  ghost predicate TableInv(nodes: seq<Node>, paths: seq<seq<bool>>, codes: CodeTable, i: nat)
    requires |codes| == 256
  {
    && WellFormed(nodes) && PathsOk(nodes, paths)
    && (forall j :: 1 <= j < |paths| ==> CoveredBy(paths[j], codes, i))
    && (forall b: byte :: (b as int) < i && codes[b].Some? ==> Reaches(nodes, ToBits(codes[b].value), b))
  }

  /** On bit strings, a prefix of the bits is a prefix of the string. */
  lemma BitsPrefix(x: string, y: string)
    requires IsBitString(x) && IsBitString(y) && IsPrefix(ToBits(x), ToBits(y))
    ensures |x| <= |y| && y[..|x|] == x
  {
    forall k | 0 <= k < |x| ensures y[k] == x[k] {
      assert ToBits(y)[k] == ToBits(x)[k];
    }
  }

  /** No code of a decodable table is a prefix, at the bit level, of another symbol's code. */
  lemma NoBitPrefix(codes: CodeTable, a: byte, b: byte)
    requires |codes| == 256 && DecodableTable(codes)
    requires a != b && codes[a].Some? && codes[b].Some?
    ensures !IsPrefix(ToBits(codes[a].value), ToBits(codes[b].value))
  {
    if IsPrefix(ToBits(codes[a].value), ToBits(codes[b].value)) {
      BitsPrefix(codes[a].value, codes[b].value);
    }
  }

  /** A prefix of a prefix. */
  lemma PrefixTrans(p: seq<bool>, q: seq<bool>, r: seq<bool>)
    requires IsPrefix(p, q) && IsPrefix(q, r)
    ensures IsPrefix(p, r)
  {
    assert r[..|q|][..|p|] == r[..|p|];
  }

  /** Inserting the code of symbol `i` keeps every node on the way to a code. */
  lemma StepCovered(nodes: seq<Node>, paths: seq<seq<bool>>, codes: CodeTable, i: nat)
    requires |codes| == 256 && i < 256 && codes[i].Some?
    requires TableInv(nodes, paths, codes, i)
    ensures var bs := ToBits(codes[i].value);
      var ps := InsertPaths(nodes, paths, 0, bs);
      forall j :: 1 <= j < |ps| ==> CoveredBy(ps[j], codes, i + 1)
  {
    var bs := ToBits(codes[i].value);
    var r := InsertBits(nodes, 0, bs, i as byte);
    var ps := InsertPaths(nodes, paths, 0, bs);
    InsertShape(nodes, paths, 0, bs, i as byte);
    assert paths[0] + bs == bs;
    forall j | 1 <= j < |ps| ensures CoveredBy(ps[j], codes, i + 1) {
      if j < |nodes| {
        assert ps[j] == paths[j];
        var b: byte :| (b as int) < i && codes[b].Some? && IsPrefix(paths[j], ToBits(codes[b].value));
        assert (b as int) < i + 1;
      } else {
        var b: byte := i as byte;
        assert codes[b].Some? && IsPrefix(ps[j], ToBits(codes[b].value));
      }
    }
  }

  /** Inserting the code of symbol `i` leaves the earlier codes on their leaves. */
  lemma StepKeeps(nodes: seq<Node>, paths: seq<seq<bool>>, codes: CodeTable, i: nat, b: byte)
    requires |codes| == 256 && i < 256 && codes[i].Some? && DecodableTable(codes)
    requires TableInv(nodes, paths, codes, i)
    requires (b as int) < i && codes[b].Some?
    ensures Reaches(InsertBits(nodes, 0, ToBits(codes[i].value), i as byte), ToBits(codes[b].value), b)
  {
    var s := i as byte;
    var bs := ToBits(codes[i].value);
    var r := InsertBits(nodes, 0, bs, s);
    var cb := ToBits(codes[b].value);
    NoBitPrefix(codes, b, s);
    NoBitPrefix(codes, s, b);
    var eb := FollowBits(nodes, 0, cb);
    FollowKept(nodes, r, 0, cb) by {
      InsertLinksNoPaths(nodes, 0, bs, s);
    }
    FollowPaths(nodes, paths, 0, cb);
    assert paths[eb] == cb;
    KeptLeaf(nodes, paths, bs, s, eb);
    KeptSymbol(nodes, paths, bs, s, eb);
  }

  /** A leaf whose path is no prefix of the inserted code stays a leaf. */
  lemma KeptLeaf(nodes: seq<Node>, paths: seq<seq<bool>>, bs: seq<bool>, s: byte, j: int)
    requires WellFormed(nodes) && PathsOk(nodes, paths) && 0 <= j < |nodes|
    requires IsLeafNode(nodes, j) && !IsPrefix(paths[j], bs)
    ensures IsLeafNode(InsertBits(nodes, 0, bs, s), j)
  {
    var r := InsertBits(nodes, 0, bs, s);
    InsertLinks(nodes, paths, 0, bs, s);
    assert paths[0] + bs == bs;
    forall d | true ensures Child(r, j, d) == Nil {
      if Child(r, j, d) != Child(nodes, j, d) {
        PrefixTrans(paths[j], paths[j] + [d], bs);
      }
    }
  }

  /** A node whose path is not the inserted code keeps its label. */
  lemma KeptSymbol(nodes: seq<Node>, paths: seq<seq<bool>>, bs: seq<bool>, s: byte, j: int)
    requires WellFormed(nodes) && PathsOk(nodes, paths) && 0 <= j < |nodes|
    requires paths[j] != bs
    ensures InsertBits(nodes, 0, bs, s)[j].symbol == nodes[j].symbol
  {
    var r := InsertBits(nodes, 0, bs, s);
    var ps := InsertPaths(nodes, paths, 0, bs);
    InsertEnd(nodes, 0, bs, s);
    InsertShape(nodes, paths, 0, bs, s);
    var e := FollowBits(r, 0, bs);
    assert paths[0] + bs == bs;
    if e == j {
      FollowPaths(r, ps, 0, bs);
    }
  }

  /** The code of symbol `i` ends on a leaf with `i` once it is inserted. */
  lemma StepPlaces(nodes: seq<Node>, paths: seq<seq<bool>>, codes: CodeTable, i: nat)
    requires |codes| == 256 && i < 256 && codes[i].Some? && DecodableTable(codes)
    requires TableInv(nodes, paths, codes, i)
    ensures Reaches(InsertBits(nodes, 0, ToBits(codes[i].value), i as byte), ToBits(codes[i].value), i as byte)
  {
    var s := i as byte;
    var bs := ToBits(codes[i].value);
    var r := InsertBits(nodes, 0, bs, s);
    InsertEnd(nodes, 0, bs, s);
    var e := FollowBits(r, 0, bs);
    if e < |nodes| {
      NewEndLies(nodes, paths, codes, i);
    }
  }

  /** The inserted code ends on a node of its own: no existing node has its path. */
  lemma NewEndLies(nodes: seq<Node>, paths: seq<seq<bool>>, codes: CodeTable, i: nat)
    requires |codes| == 256 && i < 256 && codes[i].Some? && DecodableTable(codes)
    requires TableInv(nodes, paths, codes, i)
    ensures var bs := ToBits(codes[i].value);
      FollowBits(InsertBits(nodes, 0, bs, i as byte), 0, bs) >= |nodes|
  {
    var s := i as byte;
    var bs := ToBits(codes[i].value);
    var r := InsertBits(nodes, 0, bs, s);
    var ps := InsertPaths(nodes, paths, 0, bs);
    InsertEnd(nodes, 0, bs, s);
    InsertShape(nodes, paths, 0, bs, s);
    var e := FollowBits(r, 0, bs);
    if e < |nodes| {
      FollowPaths(r, ps, 0, bs);
      FollowForward(r, 0, bs);
      assert ps[e] == paths[e];
      var b: byte :| (b as int) < i && codes[b].Some? && IsPrefix(paths[e], ToBits(codes[b].value));
      NoBitPrefix(codes, s, b);
      assert false;
    }
  }

  /** One insertion keeps the table invariant. */
  lemma StepInv(nodes: seq<Node>, paths: seq<seq<bool>>, codes: CodeTable, i: nat)
    requires |codes| == 256 && i < 256 && codes[i].Some? && DecodableTable(codes)
    requires TableInv(nodes, paths, codes, i)
    ensures var bs := ToBits(codes[i].value);
      TableInv(InsertBits(nodes, 0, bs, i as byte), InsertPaths(nodes, paths, 0, bs), codes, i + 1)
  {
    var s := i as byte;
    var bs := ToBits(codes[i].value);
    InsertShape(nodes, paths, 0, bs, s);
    StepCovered(nodes, paths, codes, i);
    forall b: byte | (b as int) < i + 1 && codes[b].Some?
      ensures Reaches(InsertBits(nodes, 0, bs, s), ToBits(codes[b].value), b)
    {
      if (b as int) < i {
        StepKeeps(nodes, paths, codes, i, b);
      } else {
        StepPlaces(nodes, paths, codes, i);
      }
    }
  }

  /** Inserting the rest of a decodable table puts every code on its leaf. */
  lemma {:induction false} InsertTableReaches(nodes: seq<Node>, paths: seq<seq<bool>>, codes: CodeTable, i: nat, steering: Steering)
    requires |codes| == 256 && i <= 256 && DecodableTable(codes)
    requires TableInv(nodes, paths, codes, i)
    ensures AllReach(InsertTable(nodes, codes, i, steering), codes)
    decreases 256 - i
  {
    if i == 256 {
    } else if codes[i].Some? {
      var bs := ToBits(codes[i].value);
      TableSome(nodes, paths, codes, i, steering);
      InsertTableReaches(InsertBits(nodes, 0, bs, i as byte), InsertPaths(nodes, paths, 0, bs), codes, i + 1, steering);
    } else {
      TableNone(nodes, paths, codes, i);
      InsertTableReaches(nodes, paths, codes, i + 1, steering);
    }
  }

  /** A symbol with a code: its bits are inserted, under either steering, and the invariant holds after it. */
  lemma TableSome(nodes: seq<Node>, paths: seq<seq<bool>>, codes: CodeTable, i: nat, steering: Steering)
    requires |codes| == 256 && i < 256 && codes[i].Some? && DecodableTable(codes)
    requires TableInv(nodes, paths, codes, i)
    ensures var bs := ToBits(codes[i].value);
      && InsertTable(nodes, codes, i, steering) == InsertTable(InsertBits(nodes, 0, bs, i as byte), codes, i + 1, steering)
      && TableInv(InsertBits(nodes, 0, bs, i as byte), InsertPaths(nodes, paths, 0, bs), codes, i + 1)
  {
    assert IsBitString(codes[i as byte].value);
    DirsOfBits(codes[i].value, steering);
    StepInv(nodes, paths, codes, i);
  }

  /** A symbol without a code: nothing is inserted and the invariant holds after it. */
  lemma TableNone(nodes: seq<Node>, paths: seq<seq<bool>>, codes: CodeTable, i: nat)
    requires |codes| == 256 && i < 256 && codes[i].None?
    requires TableInv(nodes, paths, codes, i)
    ensures TableInv(nodes, paths, codes, i + 1)
  {
    forall b: byte | (b as int) < i + 1 && codes[b].Some? ensures Reaches(nodes, ToBits(codes[b].value), b) {
      assert (b as int) != i;
    }
  }

  /** The empty tree satisfies the invariant before any code is inserted. */
  lemma BlankInv(codes: CodeTable)
    requires |codes| == 256
    ensures TableInv([Blank], [[]], codes, 0)
  {
  }

  /** The tree `buildHuffmanTreeFromFile` builds from the saved text of `codes`. */
  function BuiltFromSaved(codes: CodeTable): (r: seq<Node>)
    requires |codes| == 256
    ensures WellFormed(r)
  {
    BuildFrom([Blank], SavedFrom(codes, 0))
  }

  /**
   * Fork's round trip of the tree: `buildHuffmanTreeFromFile` on a saved
   * decodable table puts every symbol's code on a leaf labelled with it.
   */
  lemma BuildFromSavedReaches(codes: CodeTable)
    requires |codes| == 256 && DecodableTable(codes)
    ensures AllReach(BuiltFromSaved(codes), codes)
  {
    forall b: byte | codes[b].Some? ensures StorableCode(codes[b].value) {
      BitStringStorable(codes[b].value);
    }
    BuildSaved(codes, [Blank], 0);
    BlankInv(codes);
    InsertTableReaches([Blank], [[]], codes, 0, SkipOther);
  }

  /** The same for `rebuildTreeFromCodes`, whose lines must fit `fgets`'s buffer. */
  lemma RebuildFromSavedReaches(codes: CodeTable)
    requires |codes| == 256 && DecodableTable(codes) && FitsLine(codes)
    ensures AllReach(RebuildFrom([Blank], SavedFrom(codes, 0)), codes)
  {
    forall b: byte | codes[b].Some? ensures StorableCode(codes[b].value) {
      BitStringStorable(codes[b].value);
    }
    RebuildSaved(codes, [Blank], 0);
    BlankInv(codes);
    InsertTableReaches([Blank], [[]], codes, 0, OtherRight);
  }

  /** The compressors' tables are decodable and fit a line whenever the tree is more than a leaf. */
  lemma GeneratedTableDecodable(root: HuffmanTree.HuffmanNode)
    requires !HuffmanTree.IsLeaf(root)
    ensures DecodableTable(CodesOf(Some(root))) && FitsLine(CodesOf(Some(root)))
  {
    CodesOfPrefixFree(Some(root));
    CodesAreBitStrings(root);
    CodesOfSound(Some(root));
  }
}
