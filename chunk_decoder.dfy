/**
 * The text decoder of decompressFork.c: the compressed text is read whole
 * into a NUL-terminated buffer, a `FILE_SEP` at offset 0 is skipped, the
 * rest is cut at each `strstr` match, and every non-empty chunk is decoded
 * (in a child process of its own) into the next numbered output.
 */
module ChunkDecoder {
  import opened Common
  import opened CodeGen
  import opened Codebook
  import opened DecodeTree
  import opened TreeRebuild
  import opened TreeDecoder
  import opened Framing
  import opened TextEncoder

  /**
   * The symbols one child hands to `fputc`, and whether it dereferenced
   * NULL; after a crash its file on disk keeps only what stdio flushed.
   */
  datatype Chunk = Chunk(symbols: seq<byte>, crashed: bool)

  /**
   * `decompressChunk` (decompressFork.c:62-72): `'0'` and `'1'` move the
   * cursor and any other character is skipped; the cursor may become NULL,
   * which the next `'0'` or `'1'` dereferences.
   */
  function Decompressed(nodes: seq<Node>, chunk: string): Chunk
    requires WellFormed(nodes)
  {
    var w := LazyWalk(nodes, 0, Dirs(chunk, SkipOther));
    Chunk(w.symbols, w.crashed)
  }

  lemma DirsFrom(s: string, i: nat)
    requires i < |s|
    ensures Dirs(s[i..], SkipOther)
      == (if s[i] == '0' then [false] else if s[i] == '1' then [true] else []) + Dirs(s[i + 1..], SkipOther)
  {
    assert s[i..][0] == s[i] && s[i..][1..] == s[i + 1..];
  }

  function Prepend(out: seq<byte>, w: Walk): Walk
  {
    w.(symbols := out + w.symbols)
  }

  /** `decompressChunk`'s loop over the chunk, writing to a sequence. */
  method DecompressChunk(nodes: seq<Node>, chunk: string) returns (out: seq<byte>, crashed: bool)
    requires WellFormed(nodes)
    ensures Chunk(out, crashed) == Decompressed(nodes, chunk)
  {
    ghost var whole := LazyWalk(nodes, 0, Dirs(chunk, SkipOther));
    var current := 0;
    out := [];
    for i := 0 to |chunk|
      invariant current == Nil || 0 <= current < |nodes|
      invariant Prepend(out, LazyWalk(nodes, current, Dirs(chunk[i..], SkipOther))) == whole
    {
      DirsFrom(chunk, i);
      ghost var rest := Dirs(chunk[i + 1..], SkipOther);
      var c := chunk[i];
      if c != '0' && c != '1' {
        assert [] + rest == rest;
        continue;
      }
      if current == Nil {
        // `current->left` or `current->right` through NULL
        assert [c == '1'] + rest != [];
        crashed := true;
        return;
      }
      var next := if c == '0' then nodes[current].left else nodes[current].right;
      PrependStep(nodes, out, current, c == '1', rest);
      if next != Nil && nodes[next].left == Nil && nodes[next].right == Nil {
        out := out + [nodes[next].symbol];
        current := 0;
      } else {
        current := next;
      }
    }
    crashed := false;
  }

  /** One bit of the lazy walk from a node, after the symbols `out` already written. */
  lemma PrependStep(nodes: seq<Node>, out: seq<byte>, cur: int, b: bool, rest: seq<bool>)
    requires WellFormed(nodes) && 0 <= cur < |nodes|
    ensures Child(nodes, cur, b) == Nil || 0 <= Child(nodes, cur, b) < |nodes|
    ensures Prepend(out, LazyWalk(nodes, cur, [b] + rest))
      == var next := Child(nodes, cur, b);
         if next != Nil && IsLeafNode(nodes, next) then Prepend(out + [nodes[next].symbol], LazyWalk(nodes, 0, rest))
         else Prepend(out, LazyWalk(nodes, next, rest))
  {
    assert ([b] + rest)[0] == b && ([b] + rest)[1..] == rest;
    var next := Child(nodes, cur, b);
    if next != Nil && IsLeafNode(nodes, next) {
      var w := LazyWalk(nodes, 0, rest);
      assert out + ([nodes[next].symbol] + w.symbols) == (out + [nodes[next].symbol]) + w.symbols;
    }
  }

  // ---- the split ----

  /** The text after the initial `FILE_SEP`, skipped only when it sits at offset 0. */
  function AfterLeading(t: string): string
  {
    if StartsAt(t, Delimiter, 0) then t[DelimiterLength..] else t
  }

  /** The chunks decompressFork.c decodes, in output order 1, 2, ...: the non-empty pieces. */
  function Chunks(t: string): seq<string>
  {
    NonEmpty(Split(AfterLeading(t), Delimiter))
  }

  function DecodeAll(nodes: seq<Node>, chunks: seq<string>): (r: seq<Chunk>)
    requires WellFormed(nodes)
    ensures |r| == |chunks|
  {
    if chunks == [] then [] else [Decompressed(nodes, chunks[0])] + DecodeAll(nodes, chunks[1..])
  }

  lemma DecodeAllAppend(nodes: seq<Node>, a: seq<string>, b: seq<string>)
    requires WellFormed(nodes)
    ensures DecodeAll(nodes, a + b) == DecodeAll(nodes, a) + DecodeAll(nodes, b)
  {
    if a != [] {
      assert (a + b)[0] == a[0] && (a + b)[1..] == a[1..] + b;
      DecodeAllAppend(nodes, a[1..], b);
    } else {
      assert a + b == b;
    }
  }

  lemma NonEmptyCons<T>(p: seq<T>, ps: seq<seq<T>>)
    ensures NonEmpty([p] + ps) == (if p == [] then [] else [p]) + NonEmpty(ps)
  {
    assert ([p] + ps)[1..] == ps;
  }

  /**
   * `decompressToMultipleFiles` (decompressFork.c:78-157) on the contents
   * of the compressed file: what each numbered output receives, in order.
   */
  method DecompressToMultipleFiles(nodes: seq<Node>, contents: string) returns (outs: seq<Chunk>)
    requires WellFormed(nodes)
    ensures outs == DecodeAll(nodes, Chunks(CString(contents)))
  {
    // `fileBuffer` as the string functions see it: up to its first NUL
    var buffer := CString(contents);
    var start := 0;
    if |buffer| >= DelimiterLength && buffer[..DelimiterLength] == Delimiter {
      start := DelimiterLength;
    }
    SplitStart(buffer, start);
    ghost var target := Undecoded(nodes, buffer, start);
    AppendNil(target);
    var fileIndex := 1;
    outs := [];
    while true
      invariant start <= |buffer| && fileIndex == |outs| + 1
      invariant outs + Undecoded(nodes, buffer, start) == target
      decreases |buffer| - start
    {
      var found, got, next := NextChunk(nodes, buffer, start);
      TurnStep(nodes, buffer, start);
      ghost var rest := if found then Undecoded(nodes, buffer, next) else [];
      AppendAssoc(outs, got, rest);
      AppendNil(got);
      outs := outs + got;
      fileIndex := fileIndex + |got|;
      if !found {
        break;
      }
      start := next;
    }
  }

  /** What one turn of the `strstr` loop yields: whether a `FILE_SEP` was found, the output, and where the next turn starts. */
  datatype Turn = Turn(found: bool, got: seq<Chunk>, next: nat)

  /**
   * One turn of the `strstr` loop (decompressFork.c:107-134) from `start`:
   * the chunk before the next `FILE_SEP`, decoded when non-empty, and the
   * offset after that separator; with no separator left, the final chunk
   * (decompressFork.c:136-149), decoded when non-empty.
   */
  function TurnAt(nodes: seq<Node>, buffer: string, start: nat): Turn
    requires WellFormed(nodes) && start <= |buffer|
  {
    match Find(buffer[start..], Delimiter)
    case None => Turn(false, DecodedIfAny(nodes, buffer[start..]), |buffer|)
    case Some(j) => Turn(true, DecodedIfAny(nodes, buffer[start..start + j]), start + j + DelimiterLength)
  }

  /** A turn yields at most one output, moves forward, and takes the chunks from `start` apart at their head. */
  lemma TurnStep(nodes: seq<Node>, buffer: string, start: nat)
    requires WellFormed(nodes) && start <= |buffer|
    ensures var t := TurnAt(nodes, buffer, start);
      && |t.got| <= 1
      && (t.found ==> start < t.next <= |buffer|)
      && Undecoded(nodes, buffer, start) == t.got + if t.found then Undecoded(nodes, buffer, t.next) else []
  {
    var sep := Find(buffer[start..], Delimiter);
    if sep.None? {
      var got := DecodedIfAny(nodes, buffer[start..]);
      assert TurnAt(nodes, buffer, start) == Turn(false, got, |buffer|);
      ChunkLast(nodes, buffer, start);
      AppendNil(got);
    } else {
      var j := sep.value;
      ChunkStep(nodes, buffer, start, j);
      assert TurnAt(nodes, buffer, start) == Turn(true, DecodedIfAny(nodes, buffer[start..start + j]), start + j + DelimiterLength);
    }
  }

  /** The loop body of decompressFork.c:107-149, one turn from `start`. */
  method NextChunk(nodes: seq<Node>, buffer: string, start: nat) returns (found: bool, got: seq<Chunk>, next: nat)
    requires WellFormed(nodes) && start <= |buffer|
    ensures Turn(found, got, next) == TurnAt(nodes, buffer, start)
  {
    var sep := Find(buffer[start..], Delimiter);
    if sep.None? {
      got := DecodeChunk(nodes, buffer[start..]);
      return false, got, |buffer|;
    }
    var chunkLen := sep.value;
    got := DecodeChunk(nodes, buffer[start..start + chunkLen]);
    found, next := true, start + chunkLen + DelimiterLength;
  }

  /** The `if (chunkLen > 0)` of both branches: only a non-empty chunk is decoded. */
  method DecodeChunk(nodes: seq<Node>, chunk: string) returns (got: seq<Chunk>)
    requires WellFormed(nodes)
    ensures got == DecodedIfAny(nodes, chunk)
  {
    if |chunk| > 0 {
      var out, crashed := DecompressChunk(nodes, chunk);
      got := [Chunk(out, crashed)];
    } else {
      got := [];
    }
  }

  /** A chunk's output, or none for an empty chunk. */
  function DecodedIfAny(nodes: seq<Node>, chunk: string): seq<Chunk>
    requires WellFormed(nodes)
  {
    if chunk == [] then [] else [Decompressed(nodes, chunk)]
  }

  /** What the chunks from offset `start` on decode to. */
  function Undecoded(nodes: seq<Node>, buffer: string, start: nat): seq<Chunk>
    requires WellFormed(nodes) && start <= |buffer|
  {
    DecodeAll(nodes, NonEmpty(Split(buffer[start..], Delimiter)))
  }

  /** One `strstr` match: the piece before it, if non-empty, is the next chunk decoded. */
  lemma ChunkStep(nodes: seq<Node>, buffer: string, start: nat, j: nat)
    requires WellFormed(nodes)
    requires start <= |buffer| && Find(buffer[start..], Delimiter) == Some(j)
    ensures start + j + DelimiterLength <= |buffer|
    ensures Undecoded(nodes, buffer, start)
      == DecodedIfAny(nodes, buffer[start..start + j]) + Undecoded(nodes, buffer, start + j + DelimiterLength)
  {
    SplitStep(buffer, start, j);
    var later := NonEmpty(Split(buffer[start + j + DelimiterLength..], Delimiter));
    if j > 0 {
      DecodeAllCons(nodes, buffer[start..start + j], later);
    } else {
      assert [] + later == later;
    }
  }

  /** No match left: the rest, if non-empty, is the last chunk decoded. */
  lemma ChunkLast(nodes: seq<Node>, buffer: string, start: nat)
    requires WellFormed(nodes)
    requires start <= |buffer| && Find(buffer[start..], Delimiter).None?
    ensures Undecoded(nodes, buffer, start) == DecodedIfAny(nodes, buffer[start..])
  {
    SplitLast(buffer[start..]);
    DecodeAllCons(nodes, buffer[start..], []);
  }

  lemma DecodeAllCons(nodes: seq<Node>, chunk: string, later: seq<string>)
    requires WellFormed(nodes)
    ensures DecodeAll(nodes, [chunk] + later) == [Decompressed(nodes, chunk)] + DecodeAll(nodes, later)
  {
    assert ([chunk] + later)[1..] == later;
  }

  /** One `strstr` match: the piece before it, if non-empty, is the next chunk. */
  lemma SplitStep(buffer: string, start: nat, j: nat)
    requires start <= |buffer| && Find(buffer[start..], Delimiter) == Some(j)
    ensures start + j + DelimiterLength <= |buffer|
    ensures NonEmpty(Split(buffer[start..], Delimiter))
      == (if j == 0 then [] else [buffer[start..start + j]])
        + NonEmpty(Split(buffer[start + j + DelimiterLength..], Delimiter))
  {
    var s := buffer[start..];
    assert s[..j] == buffer[start..start + j];
    assert s[j + DelimiterLength..] == buffer[start + j + DelimiterLength..];
    NonEmptyCons(s[..j], Split(s[j + DelimiterLength..], Delimiter));
  }

  /** The text the split loop starts on. */
  lemma SplitStart(buffer: string, start: nat)
    requires start == if |buffer| >= DelimiterLength && buffer[..DelimiterLength] == Delimiter then DelimiterLength else 0
    ensures Chunks(buffer) == NonEmpty(Split(buffer[start..], Delimiter))
  {
    assert AfterLeading(buffer) == buffer[start..];
  }

  /** No match left: the rest, if non-empty, is the last chunk. */
  lemma SplitLast(s: string)
    requires Find(s, Delimiter).None?
    ensures NonEmpty(Split(s, Delimiter)) == if s == [] then [] else [s]
  {
    NonEmptyCons(s, []);
  }

  // ---- properties of the split ----

  /** The chunks are non-empty, hold no `FILE_SEP`, and with the empty pieces and the separators rebuild the text. */
  lemma ChunksOfText(t: string)
    ensures forall k :: 0 <= k < |Chunks(t)| ==> Chunks(t)[k] != [] && Free(Chunks(t)[k], Delimiter)
    ensures Join(Split(AfterLeading(t), Delimiter), Delimiter) == AfterLeading(t)
  {
    SplitFree(AfterLeading(t), Delimiter);
    JoinSplit(AfterLeading(t), Delimiter);
    NonEmptyFree(Split(AfterLeading(t), Delimiter));
  }

  lemma {:induction false} NonEmptyFree(ps: seq<string>)
    requires forall k :: 0 <= k < |ps| ==> Free(ps[k], Delimiter)
    ensures forall k :: 0 <= k < |NonEmpty(ps)| ==> Free(NonEmpty(ps)[k], Delimiter)
  {
    if ps != [] {
      NonEmptyFree(ps[1..]);
      NonEmptyCons(ps[0], ps[1..]);
      assert [ps[0]] + ps[1..] == ps;
    }
  }

  // ---- the text pipeline ----

  /** A code text, made of `'0'` and `'1'`, holds no `FILE_SEP`. */
  lemma CodeTextFree(codes: CodeTable, f: seq<byte>)
    requires |codes| == 256 && DecodableTable(codes) && Coded(codes, f)
    ensures Free(CodeText(codes, f), Delimiter)
    ensures CodeText(codes, f) == [] <==> f == []
  {
    CodeTextBits(codes, f, SkipOther);
    var t := CodeText(codes, f);
    assert Delimiter[0] == 'F';
    FreeOfHead(t, Delimiter);
    if f != [] {
      assert codes[f[0]].value != [];
      assert Coded(codes, f[1..]);
    }
  }

  /** A file's code text decodes to the file, without a crash. */
  lemma DecompressedCodeText(nodes: seq<Node>, codes: CodeTable, f: seq<byte>)
    requires WellFormed(nodes) && |codes| == 256 && DecodableTable(codes) && AllReach(nodes, codes)
    requires Coded(codes, f)
    ensures Decompressed(nodes, CodeText(codes, f)) == Chunk(f, false)
  {
    CodeTextBits(codes, f, SkipOther);
    LazyRoundTrip(nodes, codes, f);
  }

  /** The clean output of each file. */
  function Clean(fs: seq<seq<byte>>): (r: seq<Chunk>)
    ensures |r| == |fs|
  {
    if fs == [] then [] else [Chunk(fs[0], false)] + Clean(fs[1..])
  }

  lemma {:induction false} DecodeCodeTexts(nodes: seq<Node>, codes: CodeTable, fs: seq<seq<byte>>)
    requires WellFormed(nodes) && |codes| == 256 && DecodableTable(codes) && AllReach(nodes, codes)
    requires forall k :: 0 <= k < |fs| ==> Coded(codes, fs[k])
    ensures DecodeAll(nodes, NonEmpty(CodeTexts(codes, fs))) == Clean(NonEmpty(fs))
  {
    if fs != [] {
      var ts := CodeTexts(codes, fs);
      assert ts == [CodeText(codes, fs[0])] + CodeTexts(codes, fs[1..]);
      NonEmptyCons(ts[0], ts[1..]);
      assert [fs[0]] + fs[1..] == fs;
      NonEmptyCons(fs[0], fs[1..]);
      CodeTextFree(codes, fs[0]);
      DecodeCodeTexts(nodes, codes, fs[1..]);
      if fs[0] != [] {
        DecompressedCodeText(nodes, codes, fs[0]);
        DecodeAllAppend(nodes, [ts[0]], NonEmpty(ts[1..]));
      }
    }
  }

  lemma CodeTextsFree(codes: CodeTable, fs: seq<seq<byte>>)
    requires |codes| == 256 && DecodableTable(codes) && forall k :: 0 <= k < |fs| ==> Coded(codes, fs[k])
    ensures forall k :: 0 <= k < |CodeTexts(codes, fs)| ==> Free(CodeTexts(codes, fs)[k], Delimiter)
  {
    forall k | 0 <= k < |fs| ensures Free(CodeTexts(codes, fs)[k], Delimiter) {
      CodeTextsAt(codes, fs, k);
      CodeTextFree(codes, fs[k]);
    }
  }

  /**
   * The text pipeline through decompressFork.c: on the text compressS.c
   * writes for files whose bytes all have codes, through a tree on which
   * every code reaches its leaf, output `i` is the `i`-th non-empty file;
   * an empty input file gets no output and shifts the numbering of the
   * rest.
   */
  lemma TextRoundTrip(nodes: seq<Node>, codes: CodeTable, fs: seq<seq<byte>>)
    requires WellFormed(nodes) && |codes| == 256 && DecodableTable(codes) && AllReach(nodes, codes)
    requires forall k :: 0 <= k < |fs| ==> Coded(codes, fs[k])
    ensures DecodeAll(nodes, Chunks(CString(Frame(CodeTexts(codes, fs), Delimiter)))) == Clean(NonEmpty(fs))
  {
    var ts := CodeTexts(codes, fs);
    CodeTextsFree(codes, fs);
    CodeTextsBits(codes, fs);
    ChunksOfFrame(ts);
    DecodeCodeTexts(nodes, codes, fs);
  }

  /** The chunks of a framed text of bit strings are its non-empty pieces. */
  lemma ChunksOfFrame(ts: seq<string>)
    requires forall k :: 0 <= k < |ts| ==> IsBitString(ts[k]) && Free(ts[k], Delimiter)
    ensures Chunks(CString(Frame(ts, Delimiter))) == NonEmpty(ts)
  {
    FramedNoNul(ts);
    CStringNoNul(Frame(ts, Delimiter));
    if ts == [] {
      assert Find([], Delimiter).None?;
      NonEmptyCons<char>([], []);
    } else {
      SplitAfterLeading(ts);
    }
  }

  lemma SplitAfterLeading(ts: seq<string>)
    requires ts != [] && forall k :: 0 <= k < |ts| ==> Free(ts[k], Delimiter)
    ensures Split(AfterLeading(Frame(ts, Delimiter)), Delimiter) == ts
  {
    var rest := ts[1..];
    HeadTail(ts);
    assert Free(ts[0], Delimiter);
    forall k | 0 <= k < |rest| ensures Free(rest[k], Delimiter) {
      assert rest[k] == ts[k + 1];
    }
    SplitAfterLeadingFiles(ts[0], rest);
  }

  lemma HeadTail<T>(s: seq<T>)
    requires s != []
    ensures [s[0]] + s[1..] == s
  {
  }

  lemma SplitAfterLeadingFiles(f: string, fs: seq<string>)
    requires Free(f, Delimiter) && forall k :: 0 <= k < |fs| ==> Free(fs[k], Delimiter)
    ensures Split(AfterLeading(Frame([f] + fs, Delimiter)), Delimiter) == [f] + fs
  {
    LeadingOfFrame(f, fs);
    DelimiterBorderless();
    SplitGlued(f, fs, Delimiter);
  }

  /** The compressor's stream starts with `FILE_SEP`, which is skipped. */
  lemma LeadingOfFrame(f: string, fs: seq<string>)
    ensures AfterLeading(Frame([f] + fs, Delimiter)) == f + Frame(fs, Delimiter)
  {
    var t := Frame([f] + fs, Delimiter);
    var rest := f + Frame(fs, Delimiter);
    assert ([f] + fs)[0] == f && ([f] + fs)[1..] == fs;
    assert t == Delimiter + rest;
    assert t[..DelimiterLength] == Delimiter && t[DelimiterLength..] == rest;
  }

  /** A framed text of bit strings holds no NUL. */
  lemma {:induction false} FramedNoNul(ts: seq<string>)
    requires forall k :: 0 <= k < |ts| ==> IsBitString(ts[k])
    ensures forall i :: 0 <= i < |Frame(ts, Delimiter)| ==> Frame(ts, Delimiter)[i] != Nul
  {
    if ts != [] {
      FramedNoNul(ts[1..]);
      var t := Frame(ts, Delimiter);
      var r := Frame(ts[1..], Delimiter);
      assert t == Delimiter + ts[0] + r;
      forall i | 0 <= i < |t| ensures t[i] != Nul {
        if i < DelimiterLength {
          assert t[i] == Delimiter[i];
        } else if i < DelimiterLength + |ts[0]| {
          assert t[i] == ts[0][i - DelimiterLength];
        } else {
          assert t[i] == r[i - DelimiterLength - |ts[0]|];
        }
      }
    }
  }

  lemma CodeTextsBits(codes: CodeTable, fs: seq<seq<byte>>)
    requires |codes| == 256 && DecodableTable(codes) && forall k :: 0 <= k < |fs| ==> Coded(codes, fs[k])
    ensures forall k :: 0 <= k < |CodeTexts(codes, fs)| ==> IsBitString(CodeTexts(codes, fs)[k])
  {
    forall k | 0 <= k < |fs| ensures IsBitString(CodeTexts(codes, fs)[k]) {
      CodeTextsAt(codes, fs, k);
      CodeTextBits(codes, fs[k], SkipOther);
    }
  }
}
