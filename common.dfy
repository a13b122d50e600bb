/**
 * Shared vocabulary of the Huffman codec: symbols, optional values, the
 * file separator token and the MSB-first view of a packed stream as bits.
 */
module Common {

  /** One unsigned char used as a symbol or a table index (0..255). */
  newtype byte = x: int | 0 <= x < 256

  /**
   * Bytes of the packed compressed stream are `bv8`, the type on which the
   * C shifts, masks and ORs are exact.
   */

  datatype Option<T> = None | Some(value: T)

  /** The separator token written before every file, as text. */
  const Delimiter: string := "FILE_SEP"

  /** The same token as the bytes a decoder sees after Huffman decoding. */
  const DelimiterBytes: seq<byte> := [0x46, 0x49, 0x4C, 0x45, 0x5F, 0x53, 0x45, 0x50]

  /** `strlen(DELIMITER)`. */
  const DelimiterLength := 8

  /** `(unsigned char)c` for a character of the token. */
  function CharToByte(c: char): byte
    requires c as int < 256
  {
    (c as int) as byte
  }

  lemma DelimiterBytesAreDelimiter()
    ensures |Delimiter| == |DelimiterBytes| == 8
    ensures forall j :: 0 <= j < 8 ==> Delimiter[j] as int < 256 && DelimiterBytes[j] == CharToByte(Delimiter[j])
  {
  }

  /** Bit `k` (0 = most significant) of `b`: `(b >> (7 - k)) & 1`. */
  function BitOf(b: bv8, k: nat): bool
    requires k < 8
  {
    (b >> (7 - k)) & 1 == 1
  }

  /** The eight bits of one byte, most significant first. */
  function ByteBits(b: bv8): (r: seq<bool>)
    ensures |r| == 8
    ensures forall k :: 0 <= k < 8 ==> r[k] == BitOf(b, k)
  {
    seq(8, k requires 0 <= k < 8 => BitOf(b, k))
  }

  /** A byte stream read bit by bit, each byte most significant bit first. */
  function Bits(data: seq<bv8>): (r: seq<bool>)
    ensures |r| == 8 * |data|
  {
    if data == [] then [] else ByteBits(data[0]) + Bits(data[1..])
  }

  /** Stream bit `i` is bit `7 - i mod 8` (counting from the least significant) of byte `i div 8`. */
  lemma BitsAt(data: seq<bv8>, i: nat)
    requires i < 8 * |data|
    ensures |Bits(data)| == 8 * |data|
    ensures i / 8 < |data| && Bits(data)[i] == BitOf(data[i / 8], i % 8)
  {
    assert 8 * (i / 8) + i % 8 == i;
    BitsAtByte(data, i / 8, i % 8);
  }

  /** Bit `b` of byte `q` is stream bit `8 * q + b`. */
  lemma {:induction false} BitsAtByte(data: seq<bv8>, q: nat, b: nat)
    requires q < |data| && b < 8
    ensures 8 * q + b < |Bits(data)| && Bits(data)[8 * q + b] == BitOf(data[q], b)
  {
    var head := ByteBits(data[0]);
    assert Bits(data) == head + Bits(data[1..]) && |head| == 8;
    if q > 0 {
      BitsAtByte(data[1..], q - 1, b);
      assert data[1..][q - 1] == data[q];
      assert Bits(data)[8 * q + b] == Bits(data[1..])[8 * (q - 1) + b];
    } else {
      assert Bits(data)[b] == head[b];
    }
  }

  lemma {:induction false} BitsAppend(a: seq<bv8>, b: seq<bv8>)
    ensures Bits(a + b) == Bits(a) + Bits(b)
  {
    if a == [] {
      AppendNil(b);
      AppendNil(Bits(b));
    } else {
      assert (a + b)[1..] == a[1..] + b;
      BitsAppend(a[1..], b);
      AppendAssoc(ByteBits(a[0]), Bits(a[1..]), Bits(b));
    }
  }

  /** Number of occurrences of `b` in `s`. */
  function Count(s: seq<byte>, b: byte): nat
  {
    if s == [] then 0 else (if s[0] == b then 1 else 0) + Count(s[1..], b)
  }

  lemma {:induction false} CountAppend(s: seq<byte>, x: byte, b: byte)
    ensures Count(s + [x], b) == Count(s, b) + (if x == b then 1 else 0)
  {
    if s == [] {
      assert s + [x] == [x];
    } else {
      assert (s + [x])[1..] == s[1..] + [x];
      CountAppend(s[1..], x, b);
    }
  }

  /** Concatenation is associative (stated once, so that proofs do not redo it bit by bit). */
  lemma AppendAssoc<T>(a: seq<T>, b: seq<T>, c: seq<T>)
    ensures (a + b) + c == a + (b + c)
  {
  }

  lemma AppendNil<T>(a: seq<T>)
    ensures a + [] == a && [] + a == a
  {
  }

  /** Multiset union is associative and commutative. */
  lemma BagAssoc<T>(a: multiset<T>, b: multiset<T>, c: multiset<T>)
    ensures (a + b) + c == a + (b + c)
  {
  }

  lemma BagComm<T>(a: multiset<T>, b: multiset<T>)
    ensures a + b == b + a
  {
  }

  /** The concatenation of a sequence of sequences. */
  function Flatten<T>(ss: seq<seq<T>>): seq<T>
  {
    if ss == [] then [] else ss[0] + Flatten(ss[1..])
  }

  lemma {:induction false} FlattenAppend<T>(ss: seq<seq<T>>, s: seq<T>)
    ensures Flatten(ss + [s]) == Flatten(ss) + s
  {
    if ss == [] {
      assert ss + [s] == [s];
    } else {
      assert (ss + [s])[1..] == ss[1..] + [s];
      FlattenAppend(ss[1..], s);
    }
  }

  /** The characters C's isspace accepts in the "C" locale. */
  predicate IsSpace(c: char)
  {
    c == ' ' || c == '\t' || c == '\n' || c == '\r' || c as int == 12 || c as int == 11
  }

  predicate IsDigit(c: char)
  {
    '0' <= c <= '9'
  }
}
