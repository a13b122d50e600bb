/**
 * Walking the decoder tree: every decoder moves a cursor `current` from the
 * root, left on 0 and right on 1, emits the symbol of each leaf it reaches
 * and returns to the root. The decoders differ in when a NULL child is
 * dereferenced, which is reported here as `crashed`. Also `readBit` of
 * Serial/decompressSerial.c.
 */
module TreeDecoder {
  import opened Common
  import opened CodeGen
  import opened DecodeTree
  import opened TreeRebuild

  /** The symbols a walk emitted, whether it dereferenced NULL, and where the cursor is. */
  datatype Walk = Walk(symbols: seq<byte>, crashed: bool, cur: int)

  /** How a decoder stopped: end of stream, a NULL dereference, or a fatal buffer overflow. */
  datatype Exit = Done | Crashed | Overflow

  /**
   * The files a decoder wrote (in index order 1, 2, ...) and how the run
   * ended. After `Crashed`, the output still open holds the symbols handed
   * to `fputc` before the crash; on disk it keeps only what stdio flushed.
   */
  datatype Run = Run(files: seq<seq<byte>>, exit: Exit)

  /**
   * A decoder's `fputc` of each element of `w` to its current output, the
   * one opened last; nothing is written while none is open.
   */
  function Write(files: seq<seq<byte>>, w: seq<byte>): (r: seq<seq<byte>>)
    ensures |r| == |files|
  {
    if files == [] then [] else files[..|files| - 1] + [files[|files| - 1] + w]
  }

  lemma {:induction false} WriteAppend(files: seq<seq<byte>>, a: seq<byte>, b: seq<byte>)
    ensures Write(Write(files, a), b) == Write(files, a + b)
  {
    if files != [] {
      var n := |files| - 1;
      var w := files[..n] + [files[n] + a];
      assert Write(files, a) == w;
      assert w[..n] == files[..n] && w[n] == files[n] + a;
      assert (files[n] + a) + b == files[n] + (a + b);
    }
  }

  lemma WriteNothing(files: seq<seq<byte>>)
    ensures Write(files, []) == files
  {
    if files != [] {
      assert files[|files| - 1] + [] == files[|files| - 1];
      assert files[..|files| - 1] + [files[|files| - 1]] == files;
    }
  }

  /** Writing to a freshly opened output. */
  lemma WriteOpened(files: seq<seq<byte>>, f: seq<byte>)
    ensures Write(files + [[]], f) == files + [f]
  {
    var g := files + [[]];
    assert g[..|g| - 1] == files && g[|g| - 1] == [];
    assert [] + f == f;
  }

  function Emit(x: byte, w: Walk): Walk
  {
    w.(symbols := [x] + w.symbols)
  }

  /**
   * Fork/decompressFork.c:124-127: the cursor moves to a child and that
   * child's fields are read at once, so a missing child is a crash.
   */
  function EagerWalk(nodes: seq<Node>, cur: int, bits: seq<bool>): (w: Walk)
    requires WellFormed(nodes) && 0 <= cur < |nodes|
    decreases |bits|
  {
    if bits == [] then Walk([], false, cur)
    else
      var next := Child(nodes, cur, bits[0]);
      if next == Nil then Walk([], true, cur)
      else if IsLeafNode(nodes, next) then Emit(nodes[next].symbol, EagerWalk(nodes, 0, bits[1..]))
      else EagerWalk(nodes, next, bits[1..])
  }

  /**
   * Serial/decompressSerial.c:82-89 (and the bit branch of decompressS.c,
   * decompressFork.c): the cursor may become NULL and is tested before its
   * fields are read; the crash comes with the next bit, through NULL.
   */
  function LazyWalk(nodes: seq<Node>, cur: int, bits: seq<bool>): (w: Walk)
    requires WellFormed(nodes) && (cur == Nil || 0 <= cur < |nodes|)
    decreases |bits|
  {
    if bits == [] then Walk([], false, cur)
    else if cur == Nil then Walk([], true, cur)
    else
      var next := Child(nodes, cur, bits[0]);
      if next != Nil && IsLeafNode(nodes, next) then Emit(nodes[next].symbol, LazyWalk(nodes, 0, bits[1..]))
      else LazyWalk(nodes, next, bits[1..])
  }

  /** The code bits of a symbol sequence. */
  function CodeBits(codes: CodeTable, xs: seq<byte>): seq<bool>
    requires |codes| == 256 && forall k :: 0 <= k < |xs| ==> codes[xs[k]].Some?
  {
    if xs == [] then [] else ToBits(codes[xs[0]].value) + CodeBits(codes, xs[1..])
  }

  /** The code text of a symbol sequence, as compressS.c writes it. */
  function CodeText(codes: CodeTable, xs: seq<byte>): string
    requires |codes| == 256 && forall k :: 0 <= k < |xs| ==> codes[xs[k]].Some?
  {
    if xs == [] then [] else codes[xs[0]].value + CodeText(codes, xs[1..])
  }

  /** Every symbol of `xs` has a code. */
  predicate Coded(codes: CodeTable, xs: seq<byte>)
    requires |codes| == 256
  {
    forall k :: 0 <= k < |xs| ==> codes[xs[k]].Some?
  }

  // ---- decoding a code ----

  /** Walking one code from the root stops exactly at its leaf. */
  lemma {:induction false} EagerCode(nodes: seq<Node>, j: int, p: seq<bool>, tail: seq<bool>)
    requires WellFormed(nodes) && 0 <= j < |nodes| && p != []
    requires FollowBits(nodes, j, p) != Nil && IsLeafNode(nodes, FollowBits(nodes, j, p))
    ensures EagerWalk(nodes, j, p + tail) == Emit(nodes[FollowBits(nodes, j, p)].symbol, EagerWalk(nodes, 0, tail))
    decreases |p|
  {
    var next := Child(nodes, j, p[0]);
    assert (p + tail)[0] == p[0] && (p + tail)[1..] == p[1..] + tail;
    if p[1..] != [] {
      assert Child(nodes, next, p[1..][0]) != Nil;
      EagerCode(nodes, next, p[1..], tail);
    } else {
      assert p[1..] + tail == tail;
    }
  }

  /** The same for the lazy walk. */
  lemma {:induction false} LazyCode(nodes: seq<Node>, j: int, p: seq<bool>, tail: seq<bool>)
    requires WellFormed(nodes) && 0 <= j < |nodes| && p != []
    requires FollowBits(nodes, j, p) != Nil && IsLeafNode(nodes, FollowBits(nodes, j, p))
    ensures LazyWalk(nodes, j, p + tail) == Emit(nodes[FollowBits(nodes, j, p)].symbol, LazyWalk(nodes, 0, tail))
    decreases |p|
  {
    var next := Child(nodes, j, p[0]);
    assert (p + tail)[0] == p[0] && (p + tail)[1..] == p[1..] + tail;
    if p[1..] != [] {
      assert Child(nodes, next, p[1..][0]) != Nil;
      LazyCode(nodes, next, p[1..], tail);
    } else {
      assert p[1..] + tail == tail;
    }
  }

  /**
   * On a tree where every code of a decodable table reaches its leaf, the
   * bits of a coded sequence decode to that sequence, without a crash, and
   * the walk goes on from the root: the eager walk of Fork/decompressFork.c.
   */
  lemma {:induction false} EagerDecodes(nodes: seq<Node>, codes: CodeTable, xs: seq<byte>, tail: seq<bool>)
    requires WellFormed(nodes) && |codes| == 256 && DecodableTable(codes) && AllReach(nodes, codes)
    requires Coded(codes, xs)
    ensures EagerWalk(nodes, 0, CodeBits(codes, xs) + tail)
      == EagerWalk(nodes, 0, tail).(symbols := xs + EagerWalk(nodes, 0, tail).symbols)
  {
    if xs == [] {
      AppendNil(tail);
    } else {
      var p := ToBits(codes[xs[0]].value);
      var rest := CodeBits(codes, xs[1..]);
      assert Coded(codes, xs[1..]);
      assert codes[xs[0]].value != [];
      AppendAssoc(p, rest, tail);
      EagerCode(nodes, 0, p, rest + tail);
      EagerDecodes(nodes, codes, xs[1..], tail);
      assert [xs[0]] + xs[1..] == xs;
      AppendAssoc([xs[0]], xs[1..], EagerWalk(nodes, 0, tail).symbols);
    }
  }

  /** The same for the lazy walk of the other decoders. */
  lemma {:induction false} LazyDecodes(nodes: seq<Node>, codes: CodeTable, xs: seq<byte>, tail: seq<bool>)
    requires WellFormed(nodes) && |codes| == 256 && DecodableTable(codes) && AllReach(nodes, codes)
    requires Coded(codes, xs)
    ensures LazyWalk(nodes, 0, CodeBits(codes, xs) + tail)
      == LazyWalk(nodes, 0, tail).(symbols := xs + LazyWalk(nodes, 0, tail).symbols)
  {
    if xs == [] {
      AppendNil(tail);
    } else {
      var p := ToBits(codes[xs[0]].value);
      var rest := CodeBits(codes, xs[1..]);
      assert Coded(codes, xs[1..]);
      assert codes[xs[0]].value != [];
      AppendAssoc(p, rest, tail);
      LazyCode(nodes, 0, p, rest + tail);
      LazyDecodes(nodes, codes, xs[1..], tail);
      assert [xs[0]] + xs[1..] == xs;
      AppendAssoc([xs[0]], xs[1..], LazyWalk(nodes, 0, tail).symbols);
    }
  }

  /** A round trip with nothing after the codes: the walk ends at the root with the symbols. */
  lemma LazyRoundTrip(nodes: seq<Node>, codes: CodeTable, xs: seq<byte>)
    requires WellFormed(nodes) && |codes| == 256 && DecodableTable(codes) && AllReach(nodes, codes)
    requires Coded(codes, xs)
    ensures LazyWalk(nodes, 0, CodeBits(codes, xs)) == Walk(xs, false, 0)
  {
    LazyDecodes(nodes, codes, xs, []);
    assert CodeBits(codes, xs) + [] == CodeBits(codes, xs);
    assert xs + [] == xs;
  }

  /** The code text of a sequence is a bit string whose bits are its code bits. */
  lemma {:induction false} CodeTextBits(codes: CodeTable, xs: seq<byte>, steering: Steering)
    requires |codes| == 256 && DecodableTable(codes) && Coded(codes, xs)
    ensures IsBitString(CodeText(codes, xs))
    ensures Dirs(CodeText(codes, xs), steering) == CodeBits(codes, xs)
  {
    if xs != [] {
      assert Coded(codes, xs[1..]);
      CodeTextBits(codes, xs[1..], steering);
      var c := codes[xs[0]].value;
      assert IsBitString(c);
      DirsAppend(c, CodeText(codes, xs[1..]), steering);
      DirsOfBits(c, steering);
      var t := CodeText(codes, xs);
      forall k | 0 <= k < |t| ensures t[k] == '0' || t[k] == '1' {
        if k >= |c| {
          assert t[k] == CodeText(codes, xs[1..])[k - |c|];
        }
      }
    }
  }

  lemma {:induction false} DirsAppend(a: string, b: string, steering: Steering)
    ensures Dirs(a + b, steering) == Dirs(a, steering) + Dirs(b, steering)
  {
    if a == [] {
      AppendNil(b);
      AppendNil(Dirs(b, steering));
    } else {
      assert (a + b)[0] == a[0] && (a + b)[1..] == a[1..] + b;
      DirsAppend(a[1..], b, steering);
      var head := if a[0] == '0' then [false] else if a[0] == '1' || steering == OtherRight then [true] else [];
      AppendAssoc(head, Dirs(a[1..], steering), Dirs(b, steering));
    }
  }

  // ---- readBit ----

  /** Bit `b` of the byte last fetched is stream bit `8 * (pos - 1) + b`, and advancing `b` counts one more bit. */
  lemma NextBit(data: seq<bv8>, pos: nat, b: int)
    requires 0 < pos <= |data| && 0 <= b < 8
    ensures 8 * (pos - 1) + b < |Bits(data)|
    ensures Bits(data)[8 * (pos - 1) + b] == BitOf(data[pos - 1], b)
    ensures (if (b + 1) % 8 == 0 then 8 * pos else 8 * (pos - 1) + (b + 1) % 8) == 8 * (pos - 1) + b + 1
  {
    BitsAtByte(data, pos - 1, b);
    assert (b + 1) % 8 == if b == 7 then 0 else b + 1;
  }

  /** The end-of-file value `readBit` returns. */
  const EOF := -1

  /** `readBit` and its two out-parameters over the bytes of the compressed file. */
  class BitReader {
    const data: seq<bv8>
    /** Bytes `fread` has consumed. */
    var pos: nat
    var buffer: bv8
    var bitPos: int

    ghost predicate Valid()
      reads this
    {
      0 <= bitPos < 8 && pos <= |data| && (bitPos > 0 ==> 0 < pos && buffer == data[pos - 1])
    }

    /** How many stream bits have been returned. */
    function Consumed(): nat
      reads this
      requires Valid()
    {
      if bitPos == 0 then 8 * pos else 8 * (pos - 1) + bitPos
    }

    constructor (data: seq<bv8>)
      ensures Valid() && this.data == data && Consumed() == 0
    {
      this.data := data;
      pos := 0;
      buffer := 0;
      bitPos := 0;
    }

    /**
     * `readBit` (Serial/decompressSerial.c:51-61): a byte is fetched only
     * when `bitPos` is 0, EOF exactly when none is left at that point, and
     * otherwise the next stream bit, most significant first.
     */
    method ReadBit() returns (bit: int)
      requires Valid()
      modifies this
      ensures Valid() && pos >= old(pos)
      ensures old(Consumed()) == 8 * |data| ==> bit == EOF && Consumed() == old(Consumed())
      ensures old(Consumed()) < 8 * |data| ==>
        Consumed() == old(Consumed()) + 1 && bit == if Bits(data)[old(Consumed())] then 1 else 0
    {
      ghost var c := Consumed();
      if bitPos == 0 {
        if pos == |data| {
          return EOF;
        }
        buffer := data[pos];
        pos := pos + 1;
      }
      NextBit(data, pos, bitPos);
      // (buffer >> (7 - bitPos)) & 1
      bit := if BitOf(buffer, bitPos) then 1 else 0;
      bitPos := (bitPos + 1) % 8;
    }
  }
}
