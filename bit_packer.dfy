/**
 * The bit packer of compressFork.c: `writeBits` ORs each code's bits into
 * a one-byte buffer, most significant bit first, writing the buffer out
 * whenever it fills; `compressFileChild` writes the codes of the bytes of
 * `FILE_SEP` and then those of the file's bytes, and pads the last byte with
 * zeros; the temporary outputs are then concatenated.
 */
module BitPacker {
  import opened Common
  import opened CodeGen
  import opened Codebook
  import opened DecodeTree
  import opened TreeRebuild
  import opened TreeDecoder
  import opened TextEncoder
  import opened Packing

  // ---- writeBits ----

  /** The output file of one child with `writeBits`'s `buffer` and `bitPos`. */
  class BitWriter {
    /** The bytes `fwrite` has written. */
    var out: seq<bv8>
    var buffer: bv8
    var bitPos: int
    /** The bits in the buffer that are not written yet. */
    ghost var pending: seq<bool>

    /** The buffer holds the pending bits at its top and zeros below them. */
    ghost predicate Valid()
      reads this
    {
      0 <= bitPos < 8 && |pending| == bitPos && buffer == ByteOf(pending)
    }

    /** Every bit written so far, in order. */
    ghost function Written(): seq<bool>
      reads this
    {
      Bits(out) + pending
    }

    /** `unsigned char buffer = 0; int bitPos = 0;` on a new output. */
    constructor ()
      ensures Valid() && out == [] && pending == []
    {
      out := [];
      buffer := 0;
      bitPos := 0;
      pending := [];
    }

    /**
     * `writeBits` (compressFork.c:154-166): one bit per character of the C
     * string `code`, 1 for `'1'` and 0 for anything else; each full byte is
     * written.
     */
    method WriteBits(code: string)
      requires Valid()
      modifies this
      ensures Valid()
      ensures Written() == old(Written()) + ToBits(CString(code))
      ensures old(out) <= out && 8 * |out| + bitPos == 8 * |old(out)| + old(bitPos) + |CString(code)|
    {
      ghost var c := CString(code);
      var i := 0;
      while i < |code| && code[i] != Nul
        invariant Valid() && i <= |c|
        invariant Written() == old(Written()) + ToBits(c[..i])
        invariant old(out) <= out && 8 * |out| + bitPos == 8 * |old(out)| + old(bitPos) + i
        decreases |code| - i
      {
        assert i < |c| && code[i] == c[i];
        ToBitsStep(c, i);
        AppendAssoc(old(Written()), ToBits(c[..i]), [code[i] == '1']);
        PushBit(code[i] == '1');
        i := i + 1;
      }
    }

    /** One character of a code (compressFork.c:156-164): its bit goes into the buffer, and a full buffer is written. */
    method PushBit(bit: bool)
      requires Valid()
      modifies this
      ensures Valid() && Written() == old(Written()) + [bit]
      ensures old(out) <= out && 8 * |out| + bitPos == 8 * |old(out)| + old(bitPos) + 1
    {
      ByteOfSnoc(pending, bit);
      AppendAssoc(Bits(out), pending, [bit]);
      buffer := Put(buffer, bitPos, bit);
      pending := pending + [bit];
      bitPos := bitPos + 1;
      if bitPos == 8 {
        FullByte(out, pending);
        AppendNil(Bits(out) + pending);
        out := out + [buffer];
        buffer := 0;
        bitPos := 0;
        pending := [];
      }
    }

    /** compressFork.c:207-211: a partly filled buffer is written, its low bits zero. */
    method Flush()
      requires Valid()
      modifies this
      ensures Valid() && pending == []
      ensures out == old(out) + if old(bitPos) > 0 then [old(buffer)] else []
    {
      if bitPos > 0 {
        out := out + [buffer];
        buffer := 0;
        bitPos := 0;
        pending := [];
      }
    }
  }

  lemma ToBitsStep(c: string, i: nat)
    requires i < |c|
    ensures ToBits(c[..i + 1]) == ToBits(c[..i]) + [c[i] == '1']
  {
  }

  /** A full buffer written out adds its eight bits to the output's. */
  lemma FullByte(out: seq<bv8>, pending: seq<bool>)
    requires |pending| == 8
    ensures Bits(out + [ByteOf(pending)]) == Bits(out) + pending
  {
    ByteBitsOf(pending);
    BitsAppend(out, [ByteOf(pending)]);
    assert Bits([ByteOf(pending)]) == ByteBits(ByteOf(pending)) + Bits([]);
    assert pending + Zeros(0) == pending;
  }

  // ---- compressFileChild ----

  /** The bits `writeBits` writes for the code of `b`; a byte without a code has none. */
  function SymbolBits(codes: CodeTable, b: byte): seq<bool>
    requires |codes| == 256
  {
    if codes[b].Some? then ToBits(CString(codes[b].value)) else []
  }

  /** The bits `writeBits` has written after the codes of the first `n` symbols of `xs`. */
  function Emitted(codes: CodeTable, xs: seq<byte>, n: nat): seq<bool>
    requires |codes| == 256 && n <= |xs|
  {
    if n == 0 then [] else Emitted(codes, xs, n - 1) + SymbolBits(codes, xs[n - 1])
  }

  /** Every one of the first `n` symbols of `xs` has a code. */
  predicate CodedTo(codes: CodeTable, xs: seq<byte>, n: nat)
    requires |codes| == 256 && n <= |xs|
  {
    forall k :: 0 <= k < n ==> codes[xs[k]].Some?
  }

  /**
   * The bits `compressFileChild` (compressFork.c:167-217) writes before it
   * stops: the codes of `FILE_SEP` and then those of the file's bytes, up to
   * the first byte without a code.
   */
  function Emission(codes: CodeTable, input: seq<byte>): seq<bool>
    requires |codes| == 256
  {
    var d := CodedPrefix(codes, DelimiterBytes);
    if d < DelimiterLength then Emitted(codes, DelimiterBytes, d)
    else Emitted(codes, DelimiterBytes, d) + Emitted(codes, input, CodedPrefix(codes, input))
  }

  /** Every byte of `FILE_SEP` and of the file has a code: the child gets to the end. */
  predicate Completes(codes: CodeTable, input: seq<byte>)
    requires |codes| == 256
  {
    CodedPrefix(codes, DelimiterBytes) == DelimiterLength && CodedPrefix(codes, input) == |input|
  }

  /** What one child writes to its temporary file, and whether it got to the end (false: `exit(EXIT_FAILURE)`). */
  datatype Packed = Packed(bytes: seq<bv8>, ok: bool)

  /**
   * The temporary output of `compressFileChild` for the contents `input`:
   * the bits of `Emission` packed and padded when the child completes;
   * otherwise only the whole bytes, since the buffer is never flushed.
   */
  function ChildOutput(codes: CodeTable, input: seq<byte>): Packed
    requires |codes| == 256
  {
    var bits := Emission(codes, input);
    if Completes(codes, input) then Packed(Pack(bits), true) else Packed(Pack(bits)[..|bits| / 8], false)
  }

  /**
   * The temporary output of the child for an input that may not open
   * (`None`): the output file is already created by then, so it stays empty
   * and the child exits (compressFork.c:171-176).
   */
  function ChildResult(codes: CodeTable, input: Option<seq<byte>>): Packed
    requires |codes| == 256
  {
    match input
    case None => Packed([], false)
    case Some(f) => ChildOutput(codes, f)
  }

  /** `compressFileChild` on the loaded table and the file's contents, if it opens, writing to a sequence. */
  method CompressFileChild(codes: CodeTable, file: Option<seq<byte>>) returns (output: seq<bv8>, ok: bool)
    requires |codes| == 256
    ensures Packed(output, ok) == ChildResult(codes, file)
  {
    if file.None? {
      output, ok := [], false;
      return;
    }
    var input := file.value;
    var w := new BitWriter();
    var done, stop := WriteCodes(w, codes, DelimiterBytes, []);
    if !done {
      StopsInDelimiter(codes, input, stop, w.out, w.pending);
      output, ok := w.out, false;
      return;
    }
    ghost var head := w.Written();
    done, stop := WriteCodes(w, codes, input, head);
    if !done {
      StopsInInput(codes, input, stop, w.out, w.pending);
      output, ok := w.out, false;
      return;
    }
    ghost var written, pending := w.out, w.pending;
    Finishes(codes, input, written, pending);
    w.Flush();
    output, ok := w.out, true;
  }

  /** `w` holds `before` and then the codes of the first `n` symbols of `xs`, each of which has a code. */
  ghost predicate Wrote(w: BitWriter, codes: CodeTable, xs: seq<byte>, before: seq<bool>, n: nat)
    reads w
  {
    |codes| == 256 && n <= |xs| && w.Valid() && CodedTo(codes, xs, n) && w.Written() == before + Emitted(codes, xs, n)
  }

  /**
   * One loop of `compressFileChild` (compressFork.c:183-192 for `FILE_SEP`,
   * 194-204 for the file): the code of each symbol of `xs` after the bits
   * `before`, up to the first symbol without a code, where the child ends.
   */
  method WriteCodes(w: BitWriter, codes: CodeTable, xs: seq<byte>, ghost before: seq<bool>)
    returns (ok: bool, ghost stop: nat)
    requires |codes| == 256 && w.Valid() && w.Written() == before
    modifies w
    ensures Wrote(w, codes, xs, before, stop) && (ok <==> stop == |xs|)
    ensures !ok ==> codes[xs[stop]].None?
  {
    WroteNothing(w, codes, xs, before);
    var i := 0;
    while i < |xs| && codes[xs[i]].Some?
      invariant Wrote(w, codes, xs, before, i)
      decreases |xs| - i
    {
      WriteSymbol(w, codes, xs, i, before);
      i := i + 1;
    }
    ok, stop := i == |xs|, i;
  }

  lemma WroteNothing(w: BitWriter, codes: CodeTable, xs: seq<byte>, before: seq<bool>)
    requires |codes| == 256 && w.Valid() && w.Written() == before
    ensures Wrote(w, codes, xs, before, 0)
  {
    AppendNil(before);
  }

  /** The code of the symbol at `i` (compressFork.c:186-191, 197-203). */
  method WriteSymbol(w: BitWriter, codes: CodeTable, xs: seq<byte>, i: nat, ghost before: seq<bool>)
    requires Wrote(w, codes, xs, before, i) && i < |xs| && codes[xs[i]].Some?
    modifies w
    ensures Wrote(w, codes, xs, before, i + 1)
  {
    w.WriteBits(codes[xs[i]].value);
    AppendAssoc(before, Emitted(codes, xs, i), SymbolBits(codes, xs[i]));
  }

  /** The whole bytes of what was written, when the rest waits in the buffer. */
  lemma WholeBytes(bits: seq<bool>, out: seq<bv8>, pending: seq<bool>)
    requires |pending| < 8 && Bits(out) + pending == bits
    ensures |bits| / 8 <= |Pack(bits)| && Pack(bits)[..|bits| / 8] == out
  {
    PackWhole(out, pending);
    assert |bits| == 8 * |out| + |pending|;
    assert |bits| / 8 == |out|;
  }

  lemma CodedToPrefix(codes: CodeTable, xs: seq<byte>, k: nat)
    requires |codes| == 256 && k <= |xs| && CodedTo(codes, xs, k)
    ensures Coded(codes, xs[..k])
  {
    assert forall j :: 0 <= j < k ==> xs[..k][j] == xs[j];
  }

  /** A byte of `FILE_SEP` at `k` without a code: the child stops with the whole bytes of what came before. */
  lemma StopsInDelimiter(codes: CodeTable, input: seq<byte>, k: nat, out: seq<bv8>, pending: seq<bool>)
    requires |codes| == 256 && k < DelimiterLength
    requires CodedTo(codes, DelimiterBytes, k) && codes[DelimiterBytes[k]].None?
    requires |pending| < 8 && Bits(out) + pending == [] + Emitted(codes, DelimiterBytes, k)
    ensures ChildOutput(codes, input) == Packed(out, false)
  {
    CodedToPrefix(codes, DelimiterBytes, k);
    CodedPrefixAt(codes, DelimiterBytes, k);
    AppendNil(Emitted(codes, DelimiterBytes, k));
    WholeBytes(Emission(codes, input), out, pending);
  }

  /** A byte of the file at `k` without a code: the child stops with the whole bytes of what came before. */
  lemma StopsInInput(codes: CodeTable, input: seq<byte>, k: nat, out: seq<bv8>, pending: seq<bool>)
    requires |codes| == 256 && k < |input|
    requires CodedTo(codes, DelimiterBytes, DelimiterLength) && CodedTo(codes, input, k) && codes[input[k]].None?
    requires |pending| < 8
    requires Bits(out) + pending == ([] + Emitted(codes, DelimiterBytes, DelimiterLength)) + Emitted(codes, input, k)
    ensures ChildOutput(codes, input) == Packed(out, false)
  {
    CodedToPrefix(codes, DelimiterBytes, DelimiterLength);
    assert DelimiterBytes[..DelimiterLength] == DelimiterBytes;
    CodedToPrefix(codes, input, k);
    CodedPrefixAt(codes, input, k);
    AppendNil(Emitted(codes, DelimiterBytes, DelimiterLength));
    WholeBytes(Emission(codes, input), out, pending);
  }

  /** Every symbol coded: the bytes written and the padded last byte are the packed bits. */
  lemma Finishes(codes: CodeTable, input: seq<byte>, out: seq<bv8>, pending: seq<bool>)
    requires |codes| == 256
    requires CodedTo(codes, DelimiterBytes, DelimiterLength) && CodedTo(codes, input, |input|)
    requires |pending| < 8
    requires Bits(out) + pending == ([] + Emitted(codes, DelimiterBytes, DelimiterLength)) + Emitted(codes, input, |input|)
    ensures ChildOutput(codes, input) == Packed(out + if pending == [] then [] else [ByteOf(pending)], true)
  {
    CompleteEmission(codes, input);
    AppendNil(Emitted(codes, DelimiterBytes, DelimiterLength));
    PackWhole(out, pending);
  }

  /** With every symbol coded, the child completes after the codes of all of `FILE_SEP` and of the file. */
  lemma CompleteEmission(codes: CodeTable, input: seq<byte>)
    requires |codes| == 256
    requires CodedTo(codes, DelimiterBytes, DelimiterLength) && CodedTo(codes, input, |input|)
    ensures Completes(codes, input)
    ensures Emission(codes, input) == Emitted(codes, DelimiterBytes, DelimiterLength) + Emitted(codes, input, |input|)
  {
    CodedToPrefix(codes, DelimiterBytes, DelimiterLength);
    assert DelimiterBytes[..DelimiterLength] == DelimiterBytes;
    CodedToPrefix(codes, input, |input|);
    assert input[..|input|] == input;
  }

  // ---- properties of a child's output ----

  /** A child fails exactly when a byte of `FILE_SEP` or of its file has no code. */
  lemma ChildFails(codes: CodeTable, input: seq<byte>)
    requires |codes| == 256
    ensures !ChildOutput(codes, input).ok
      <==> ((exists j :: 0 <= j < DelimiterLength && codes[DelimiterBytes[j]].None?)
        || (exists k :: 0 <= k < |input| && codes[input[k]].None?))
  {
    var d := CodedPrefix(codes, DelimiterBytes);
    var n := CodedPrefix(codes, input);
    if d == DelimiterLength {
      assert DelimiterBytes[..d] == DelimiterBytes;
      assert forall j :: 0 <= j < DelimiterLength ==> codes[DelimiterBytes[j]].Some?;
    }
    if n == |input| {
      assert input[..n] == input;
      assert forall k :: 0 <= k < |input| ==> codes[input[k]].Some?;
    }
  }

  /**
   * A child that succeeds writes the code bits of `FILE_SEP`, then those of
   * its file, then the zero bits that fill the last byte.
   */
  lemma ChildBits(codes: CodeTable, input: seq<byte>)
    requires |codes| == 256 && Coded(codes, DelimiterBytes) && Coded(codes, input)
    ensures ChildOutput(codes, input).ok
    ensures var bits := Emitted(codes, DelimiterBytes, DelimiterLength) + Emitted(codes, input, |input|);
      Bits(ChildOutput(codes, input).bytes) == bits + Zeros(Pad(|bits|))
  {
    assert CodedPrefix(codes, DelimiterBytes) == DelimiterLength && CodedPrefix(codes, input) == |input|;
    PackBits(Emission(codes, input));
  }

  /** A child that fails writes the code bits of what came before the byte without a code, cut to whole bytes. */
  lemma ChildStopped(codes: CodeTable, input: seq<byte>)
    requires |codes| == 256
    ensures var bits := Emission(codes, input);
      !ChildOutput(codes, input).ok ==> Bits(ChildOutput(codes, input).bytes) == bits[..|bits| / 8 * 8]
  {
    var bits := Emission(codes, input);
    PackPrefix(bits, |bits| / 8);
  }

  /** Appending one symbol appends its code's bits. */
  lemma {:induction false} CodeBitsSnoc(codes: CodeTable, xs: seq<byte>, x: byte)
    requires |codes| == 256 && Coded(codes, xs) && codes[x].Some?
    ensures Coded(codes, xs + [x])
    ensures CodeBits(codes, xs + [x]) == CodeBits(codes, xs) + ToBits(codes[x].value)
  {
    var ys := xs + [x];
    assert forall k :: 0 <= k < |xs| ==> ys[k] == xs[k];
    if xs == [] {
      assert ys[1..] == [];
      AppendNil(ToBits(codes[x].value));
    } else {
      assert ys[0] == xs[0] && ys[1..] == xs[1..] + [x];
      assert Coded(codes, xs[1..]);
      CodeBitsSnoc(codes, xs[1..], x);
      AppendAssoc(ToBits(codes[xs[0]].value), CodeBits(codes, xs[1..]), ToBits(codes[x].value));
    }
  }

  lemma {:induction false} EmittedPrefixBits(codes: CodeTable, xs: seq<byte>, n: nat)
    requires |codes| == 256 && DecodableTable(codes) && n <= |xs| && Coded(codes, xs[..n])
    ensures Emitted(codes, xs, n) == CodeBits(codes, xs[..n])
  {
    if n > 0 {
      var x := xs[n - 1];
      assert xs[..n] == xs[..n - 1] + [x];
      assert forall k :: 0 <= k < n - 1 ==> xs[..n - 1][k] == xs[..n][k];
      assert xs[..n][n - 1] == x;
      EmittedPrefixBits(codes, xs, n - 1);
      CodeBitsSnoc(codes, xs[..n - 1], x);
      CStringOfBits(codes[x].value);
    }
  }

  /** On a decodable table the bits of a code are its characters: the C strings hold no NUL. */
  lemma EmittedIsCodeBits(codes: CodeTable, xs: seq<byte>)
    requires |codes| == 256 && DecodableTable(codes) && Coded(codes, xs)
    ensures Emitted(codes, xs, |xs|) == CodeBits(codes, xs)
  {
    assert xs[..|xs|] == xs;
    EmittedPrefixBits(codes, xs, |xs|);
  }

  lemma CStringOfBits(c: string)
    requires IsBitString(c)
    ensures CString(c) == c
  {
    CStringNoNul(c);
  }

  // ---- mergeTemporaryFiles ----

  /**
   * The children's outputs one after another, as `mergeTemporaryFiles`
   * (compressFork.c:221-249) copies them: each file's padding stays in
   * front of the next file's bits.
   */
  lemma {:induction false} MergedBits(outs: seq<seq<bv8>>)
    ensures Bits(Flatten(outs)) == Flatten(seq(|outs|, k requires 0 <= k < |outs| => Bits(outs[k])))
  {
    if outs != [] {
      MergedBits(outs[1..]);
      BitsAppend(outs[0], Flatten(outs[1..]));
      var bs := seq(|outs|, k requires 0 <= k < |outs| => Bits(outs[k]));
      var rest := seq(|outs[1..]|, k requires 0 <= k < |outs[1..]| => Bits(outs[1..][k]));
      assert bs[0] == Bits(outs[0]) && bs[1..] == rest;
    }
  }

  /**
   * Two files merged: the second file's `FILE_SEP` code starts at a byte
   * boundary, after the first file's zero padding, not right after its bits.
   */
  lemma MergedPadding(codes: CodeTable, f: seq<byte>, g: seq<byte>)
    requires |codes| == 256 && Coded(codes, DelimiterBytes) && Coded(codes, f) && Coded(codes, g)
    ensures var first := Emitted(codes, DelimiterBytes, DelimiterLength) + Emitted(codes, f, |f|);
      var second := Emitted(codes, DelimiterBytes, DelimiterLength) + Emitted(codes, g, |g|);
      Bits(ChildOutput(codes, f).bytes + ChildOutput(codes, g).bytes)
        == first + Zeros(Pad(|first|)) + second + Zeros(Pad(|second|))
  {
    ChildBits(codes, f);
    ChildBits(codes, g);
    BitsAppend(ChildOutput(codes, f).bytes, ChildOutput(codes, g).bytes);
  }
}
