/**
 * Bits packed into bytes as compressFork.c writes them: the first bit of a
 * byte is its most significant one, and the last byte is padded with zeros.
 */
module Packing {
  import opened Common

  /** `b |= (1 << (7 - p))` for a `'1'`; a `'0'` leaves the buffer as it is. */
  function Put(b: bv8, p: nat, bit: bool): bv8
    requires p < 8
  {
    if bit then b | (1 << (7 - p)) else b
  }

  /** Putting a bit into the buffer sets that one bit when it is a 1. */
  lemma PutBit(b: bv8, p: nat, bit: bool, k: nat)
    requires p < 8 && k < 8
    ensures BitOf(Put(b, p, bit), k) == if k == p then bit || BitOf(b, k) else BitOf(b, k)
  {
    if k == 0 {} else if k == 1 {} else if k == 2 {} else if k == 3 {}
    else if k == 4 {} else if k == 5 {} else if k == 6 {} else {}
  }

  /** The buffer after the bits `bs` are put into a zero byte, in order. */
  function ByteOf(bs: seq<bool>): bv8
    requires |bs| <= 8
    decreases |bs|
  {
    if bs == [] then 0 else Put(ByteOf(bs[..|bs| - 1]), |bs| - 1, bs[|bs| - 1])
  }

  lemma ByteOfSnoc(bs: seq<bool>, bit: bool)
    requires |bs| < 8
    ensures ByteOf(bs + [bit]) == Put(ByteOf(bs), |bs|, bit)
  {
    assert (bs + [bit])[..|bs|] == bs;
  }

  /** `n` zero bits. */
  function Zeros(n: nat): (z: seq<bool>)
    ensures |z| == n && forall k :: 0 <= k < n ==> !z[k]
  {
    seq(n, k => false)
  }

  /** The zero bits that complete `n` bits to a whole number of bytes. */
  function Pad(n: nat): (z: nat)
    ensures z < 8
  {
    if n == 0 then 0 else if n <= 8 then 8 - n else Pad(n - 8)
  }

  lemma {:induction false} ByteOfAt(bs: seq<bool>, k: nat)
    requires |bs| <= 8 && k < 8
    ensures BitOf(ByteOf(bs), k) == (k < |bs| && bs[k])
    decreases |bs|
  {
    if bs != [] {
      var n := |bs| - 1;
      ByteOfAt(bs[..n], k);
      PutBit(ByteOf(bs[..n]), n, bs[n], k);
    }
  }

  lemma ByteBitsAt(bs: seq<bool>, k: nat)
    requires |bs| <= 8 && k < 8
    ensures ByteBits(ByteOf(bs))[k] == (bs + Zeros(8 - |bs|))[k]
  {
    ByteOfAt(bs, k);
    if k >= |bs| {
      assert (bs + Zeros(8 - |bs|))[k] == Zeros(8 - |bs|)[k - |bs|];
    }
  }

  /** The buffer holds the bits put into it, most significant first, and zeros after them. */
  lemma ByteBitsOf(bs: seq<bool>)
    requires |bs| <= 8
    ensures ByteBits(ByteOf(bs)) == bs + Zeros(8 - |bs|)
  {
    var r := ByteBits(ByteOf(bs));
    var z := bs + Zeros(8 - |bs|);
    forall k | 0 <= k < 8 ensures r[k] == z[k] {
      ByteBitsAt(bs, k);
    }
  }

  /** A byte is determined by its bits. */
  lemma SameBits(a: bv8, b: bv8)
    requires ByteBits(a) == ByteBits(b)
    ensures a == b
  {
    forall k | 0 <= k < 8 ensures BitOf(a, k) == BitOf(b, k) {
      assert ByteBits(a)[k] == ByteBits(b)[k];
    }
    SameBitOf(a, b);
  }

  lemma SameBitOf(a: bv8, b: bv8)
    requires forall k :: 0 <= k < 8 ==> BitOf(a, k) == BitOf(b, k)
    ensures a == b
  {
    assert BitOf(a, 0) == BitOf(b, 0) && BitOf(a, 1) == BitOf(b, 1);
    assert BitOf(a, 2) == BitOf(b, 2) && BitOf(a, 3) == BitOf(b, 3);
    assert BitOf(a, 4) == BitOf(b, 4) && BitOf(a, 5) == BitOf(b, 5);
    assert BitOf(a, 6) == BitOf(b, 6) && BitOf(a, 7) == BitOf(b, 7);
  }

  lemma ByteOfByteBits(b: bv8)
    ensures ByteOf(ByteBits(b)) == b
  {
    ByteBitsOf(ByteBits(b));
    assert ByteBits(b) + Zeros(0) == ByteBits(b);
    SameBits(ByteOf(ByteBits(b)), b);
  }

  /** Bits packed eight to a byte, most significant first, the last byte padded with zeros. */
  function Pack(bits: seq<bool>): (r: seq<bv8>)
    ensures 8 * |r| == |bits| + Pad(|bits|)
    decreases |bits|
  {
    if bits == [] then []
    else if |bits| <= 8 then [ByteOf(bits)]
    else [ByteOf(bits[..8])] + Pack(bits[8..])
  }

  /** Packing keeps the bits in order and adds only the zero padding. */
  lemma {:induction false} PackBits(bits: seq<bool>)
    ensures Bits(Pack(bits)) == bits + Zeros(Pad(|bits|))
    decreases |bits|
  {
    if bits == [] {
    } else if |bits| <= 8 {
      ByteBitsOf(bits);
      assert Bits([ByteOf(bits)]) == ByteBits(ByteOf(bits)) + Bits([]);
    } else {
      var rest := bits[8..];
      PackBits(rest);
      PackStep(bits);
      assert bits[..8] + rest == bits;
    }
  }

  /** Past the first byte, packing goes on with the rest of the bits. */
  lemma PackStep(bits: seq<bool>)
    requires |bits| > 8
    ensures Bits(Pack(bits)) == bits[..8] + Bits(Pack(bits[8..]))
  {
    var b := ByteOf(bits[..8]);
    var p := [b] + Pack(bits[8..]);
    assert p[0] == b && p[1..] == Pack(bits[8..]);
    ByteBitsOf(bits[..8]);
    assert bits[..8] + Zeros(0) == bits[..8];
  }

  /** Whole bytes followed by fewer than eight pending bits pack to those bytes and one padded byte. */
  lemma {:induction false} PackWhole(out: seq<bv8>, pending: seq<bool>)
    requires |pending| < 8
    ensures Pack(Bits(out) + pending) == out + if pending == [] then [] else [ByteOf(pending)]
  {
    if out == [] {
      assert Bits(out) + pending == pending;
    } else {
      var head := ByteBits(out[0]);
      var rest := Bits(out[1..]) + pending;
      AppendAssoc(head, Bits(out[1..]), pending);
      ByteOfByteBits(out[0]);
      PackWhole(out[1..], pending);
      var padded := if pending == [] then [] else [ByteOf(pending)];
      assert [out[0]] + out[1..] == out;
      if rest == [] {
        assert out[1..] == [];
        AppendNil(head);
        AppendNil(out);
      } else {
        assert (head + rest)[..8] == head && (head + rest)[8..] == rest;
        AppendAssoc([out[0]], out[1..], padded);
      }
    }
  }

  /** The first `m` bytes of a packing hold the first `8 * m` bits. */
  lemma PackPrefix(bits: seq<bool>, m: nat)
    requires 8 * m <= |bits|
    ensures m <= |Pack(bits)| && Bits(Pack(bits)[..m]) == bits[..8 * m]
  {
    var p := Pack(bits);
    PackBits(bits);
    assert p == p[..m] + p[m..];
    BitsAppend(p[..m], p[m..]);
    var q := Bits(p[..m]);
    assert |q| == 8 * m;
    forall k | 0 <= k < 8 * m ensures q[k] == bits[k] {
      assert q[k] == Bits(p)[k];
    }
  }
}
