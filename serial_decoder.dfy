/**
 * The binary decoder of Serial/decompressSerial.c
 * (`decompressToMultipleFiles`): bits come from `readBit`, the cursor walks
 * the rebuilt tree, and each decoded symbol drives a prefix-match cursor
 * `delim_index` over `FILE_SEP` that opens a new output on a full match and
 * writes the abandoned prefix back on a mismatch.
 */
module SerialDecoder {
  import opened Common
  import opened CodeGen
  import opened DecodeTree
  import opened TreeRebuild
  import opened TreeDecoder
  import opened Framing

  /** `delim_index` and the outputs opened so far; the last one is `current_output`. */
  datatype SerialState = SerialState(index: nat, files: seq<seq<byte>>)

  const Initial := SerialState(0, [])

  /**
   * One decoded symbol (Serial/decompressSerial.c:91-137). In a match, a
   * mismatching symbol writes the matched prefix and then itself, and the
   * cursor returns to 0 without testing that symbol against `'F'`; a
   * matching one advances, and a full match opens a new, empty output. Out
   * of a match, `'F'` starts one and any other symbol is written.
   */
  function SerialStep(st: SerialState, x: byte): (r: SerialState)
    requires st.index < DelimiterLength
    ensures r.index < DelimiterLength
  {
    if st.index > 0 then
      if x != DelimiterBytes[st.index] then SerialState(0, Write(st.files, DelimiterBytes[..st.index] + [x]))
      else if st.index + 1 == DelimiterLength then SerialState(0, st.files + [[]])
      else SerialState(st.index + 1, st.files)
    else if x == DelimiterBytes[0] then SerialState(1, st.files)
    else SerialState(0, Write(st.files, [x]))
  }

  function SerialAll(st: SerialState, xs: seq<byte>): (r: SerialState)
    requires st.index < DelimiterLength
    ensures r.index < DelimiterLength
    decreases |xs|
  {
    if xs == [] then st else SerialAll(SerialStep(st, xs[0]), xs[1..])
  }

  /** Serial/decompressSerial.c:148-157: a dangling partial match goes to the last output, if any. */
  function SerialFinish(st: SerialState): seq<seq<byte>>
    requires st.index < DelimiterLength
  {
    if st.index > 0 && st.files != [] then Write(st.files, DelimiterBytes[..st.index]) else st.files
  }

  /**
   * The loop over the remaining stream bits from cursor `cur`
   * (Serial/decompressSerial.c:75-141): a bit read while the cursor is NULL
   * dereferences it; a non-NULL leaf is decoded.
   */
  function SerialFrom(nodes: seq<Node>, cur: int, bits: seq<bool>, st: SerialState): Run
    requires WellFormed(nodes) && (cur == Nil || 0 <= cur < |nodes|) && st.index < DelimiterLength
    decreases |bits|
  {
    if bits == [] then Run(SerialFinish(st), Done)
    else if cur == Nil then Run(st.files, Crashed)
    else
      var next := Child(nodes, cur, bits[0]);
      if next != Nil && IsLeafNode(nodes, next) then SerialFrom(nodes, 0, bits[1..], SerialStep(st, nodes[next].symbol))
      else SerialFrom(nodes, next, bits[1..], st)
  }

  /** What `decompressToMultipleFiles` writes for the packed stream `data`. */
  function SerialDecode(nodes: seq<Node>, data: seq<bv8>): Run
    requires WellFormed(nodes)
  {
    SerialFrom(nodes, 0, Bits(data), Initial)
  }

  /** The loop is the lazy tree walk followed by the prefix matcher. */
  lemma {:induction false} SerialFromWalk(nodes: seq<Node>, cur: int, bits: seq<bool>, st: SerialState)
    requires WellFormed(nodes) && (cur == Nil || 0 <= cur < |nodes|) && st.index < DelimiterLength
    ensures SerialFrom(nodes, cur, bits, st) ==
      var w := LazyWalk(nodes, cur, bits);
      var st' := SerialAll(st, w.symbols);
      if w.crashed then Run(st'.files, Crashed) else Run(SerialFinish(st'), Done)
    decreases |bits|
  {
    if bits != [] && cur != Nil {
      var next := Child(nodes, cur, bits[0]);
      if next != Nil && IsLeafNode(nodes, next) {
        var x := nodes[next].symbol;
        var w := LazyWalk(nodes, 0, bits[1..]);
        assert LazyWalk(nodes, cur, bits).symbols == [x] + w.symbols;
        assert ([x] + w.symbols)[1..] == w.symbols;
        SerialFromWalk(nodes, 0, bits[1..], SerialStep(st, x));
      } else {
        SerialFromWalk(nodes, next, bits[1..], st);
      }
    }
  }

  // ---- the loop ----

  lemma SerialFromLeaf(nodes: seq<Node>, cur: int, bits: seq<bool>, st: SerialState)
    requires WellFormed(nodes) && 0 <= cur < |nodes| && st.index < DelimiterLength && bits != []
    requires Child(nodes, cur, bits[0]) != Nil && IsLeafNode(nodes, Child(nodes, cur, bits[0]))
    ensures SerialFrom(nodes, cur, bits, st)
      == SerialFrom(nodes, 0, bits[1..], SerialStep(st, nodes[Child(nodes, cur, bits[0])].symbol))
  {
  }

  lemma SerialFromInner(nodes: seq<Node>, cur: int, bits: seq<bool>, st: SerialState)
    requires WellFormed(nodes) && 0 <= cur < |nodes| && st.index < DelimiterLength && bits != []
    requires !(Child(nodes, cur, bits[0]) != Nil && IsLeafNode(nodes, Child(nodes, cur, bits[0])))
    ensures SerialFrom(nodes, cur, bits, st) == SerialFrom(nodes, Child(nodes, cur, bits[0]), bits[1..], st)
  {
  }

  /**
   * `decompressToMultipleFiles` (Serial/decompressSerial.c:63-158), with
   * `readBit` over the packed stream and the outputs as values.
   */
  method DecompressToMultipleFiles(nodes: seq<Node>, data: seq<bv8>) returns (files: seq<seq<byte>>, exit: Exit)
    requires WellFormed(nodes)
    ensures Run(files, exit) == SerialDecode(nodes, data)
  {
    var input := new BitReader(data);
    var current := 0;
    var fileCount := 0;
    var delimBuffer: seq<byte> := seq(DelimiterLength, _ => 0);
    var delimIndex := 0;
    files := [];
    while true
      invariant input.Valid() && input.data == data
      invariant current == Nil || 0 <= current < |nodes|
      invariant 0 <= delimIndex < DelimiterLength && |delimBuffer| == DelimiterLength
      invariant delimBuffer[..delimIndex] == DelimiterBytes[..delimIndex]
      invariant fileCount == |files|
      invariant SerialFrom(nodes, current, Bits(data)[input.Consumed()..], SerialState(delimIndex, files)) == SerialDecode(nodes, data)
      decreases 8 * |data| - input.Consumed()
    {
      ghost var rest := Bits(data)[input.Consumed()..];
      ghost var st := SerialState(delimIndex, files);
      var bit := input.ReadBit();
      if bit == EOF {
        break;
      }
      assert rest[0] == (bit == 1) && rest[1..] == Bits(data)[input.Consumed()..];
      if current == Nil {
        exit := Crashed;
        return;
      }
      var next := if bit == 0 then nodes[current].left else nodes[current].right;
      assert next == Child(nodes, current, rest[0]);
      if next != Nil && nodes[next].left == Nil && nodes[next].right == Nil {
        SerialFromLeaf(nodes, current, rest, st);
        var symbol := nodes[next].symbol;
        var started;
        files, delimBuffer, delimIndex, started := Accept(symbol, files, delimBuffer, delimIndex);
        if started {
          fileCount := fileCount + 1;
        }
        current := 0;
      } else {
        SerialFromInner(nodes, current, rest, st);
        current := next;
      }
    }
    assert Bits(data)[input.Consumed()..] == [];
    if delimIndex > 0 && fileCount > 0 {
      files := WritePrefix(files, delimBuffer, delimIndex);
    }
    exit := Done;
  }

  /** The handling of one decoded symbol, Serial/decompressSerial.c:91-137. */
  method Accept(symbol: byte, files: seq<seq<byte>>, delimBuffer: seq<byte>, delimIndex: int)
    returns (files': seq<seq<byte>>, delimBuffer': seq<byte>, delimIndex': int, started: bool)
    requires 0 <= delimIndex < DelimiterLength && |delimBuffer| == DelimiterLength
    requires delimBuffer[..delimIndex] == DelimiterBytes[..delimIndex]
    ensures 0 <= delimIndex' < DelimiterLength && |delimBuffer'| == DelimiterLength
    ensures delimBuffer'[..delimIndex'] == DelimiterBytes[..delimIndex']
    ensures SerialState(delimIndex', files') == SerialStep(SerialState(delimIndex, files), symbol)
    ensures |files'| == |files| + if started then 1 else 0
  {
    files', delimBuffer', delimIndex', started := files, delimBuffer, delimIndex, false;
    if delimIndex > 0 {
      if symbol != DelimiterBytes[delimIndex] {
        files' := WritePrefix(files, DelimiterBytes, delimIndex);
        WriteAppend(files, DelimiterBytes[..delimIndex], [symbol]);
        files' := Write(files', [symbol]);
        delimIndex' := 0;
      } else {
        delimBuffer' := delimBuffer[delimIndex := symbol];
        assert delimBuffer'[..delimIndex + 1] == DelimiterBytes[..delimIndex + 1] by {
          assert delimBuffer'[..delimIndex + 1] == delimBuffer[..delimIndex] + [symbol];
          assert DelimiterBytes[..delimIndex + 1] == DelimiterBytes[..delimIndex] + [DelimiterBytes[delimIndex]];
        }
        delimIndex' := delimIndex + 1;
        if delimIndex' == DelimiterLength {
          files' := files + [[]];
          started := true;
          delimIndex' := 0;
        }
      }
    } else {
      if symbol == DelimiterBytes[0] {
        delimBuffer' := delimBuffer[0 := symbol];
        assert delimBuffer'[..1] == [symbol];
        delimIndex' := 1;
      } else {
        files' := Write(files, [symbol]);
      }
    }
  }

  /**
   * The loops `for (i = 0; i < delim_index; i++) fputc(..., current_output)`
   * writing `DELIMITER` or `delim_buffer` up to `delim_index`.
   */
  method WritePrefix(files: seq<seq<byte>>, buffer: seq<byte>, n: int) returns (files': seq<seq<byte>>)
    requires 0 <= n <= |buffer|
    ensures files' == Write(files, buffer[..n])
  {
    files' := files;
    WriteNothing(files);
    for i := 0 to n
      invariant files' == Write(files, buffer[..i])
    {
      WriteAppend(files, buffer[..i], [buffer[i]]);
      assert buffer[..i] + [buffer[i]] == buffer[..i + 1];
      files' := Write(files', [buffer[i]]);
    }
  }

  // ---- the matcher on a framed stream ----

  /** `'F'` occurs in `FILE_SEP` only at its start. */
  lemma HeadUnique()
    ensures forall i :: 0 < i < DelimiterLength ==> DelimiterBytes[i] != DelimiterBytes[0]
  {
  }

  /** A symbol other than `'F'` outside a match is written as it is. */
  lemma {:induction false} PlainRun(files: seq<seq<byte>>, f: seq<byte>)
    requires forall k :: 0 <= k < |f| ==> f[k] != DelimiterBytes[0]
    ensures SerialAll(SerialState(0, files), f) == SerialState(0, Write(files, f))
    decreases |f|
  {
    if f == [] {
      WriteNothing(files);
    } else {
      WriteAppend(files, [f[0]], f[1..]);
      assert [f[0]] + f[1..] == f;
      PlainRun(Write(files, [f[0]]), f[1..]);
    }
  }

  /** Continuing a match at position `i` through the rest of the delimiter opens a new output. */
  lemma {:induction false} MatchRest(i: nat, files: seq<seq<byte>>)
    requires 0 < i < DelimiterLength
    ensures SerialAll(SerialState(i, files), DelimiterBytes[i..]) == SerialState(0, files + [[]])
    decreases DelimiterLength - i
  {
    assert DelimiterBytes[i..][0] == DelimiterBytes[i] && DelimiterBytes[i..][1..] == DelimiterBytes[i + 1..];
    if i + 1 < DelimiterLength {
      MatchRest(i + 1, files);
    }
  }

  /** A delimiter read outside a match opens a new output. */
  lemma FeedDelimiter(files: seq<seq<byte>>)
    ensures SerialAll(SerialState(0, files), DelimiterBytes) == SerialState(0, files + [[]])
  {
    MatchRest(1, files);
    assert DelimiterBytes[1..] == DelimiterBytes[1..];
  }

  lemma {:induction false} SerialAppend(st: SerialState, a: seq<byte>, b: seq<byte>)
    requires st.index < DelimiterLength
    ensures SerialAll(st, a + b) == SerialAll(SerialAll(st, a), b)
    decreases |a|
  {
    if a == [] {
      assert a + b == b;
    } else {
      assert (a + b)[0] == a[0] && (a + b)[1..] == a[1..] + b;
      SerialAppend(SerialStep(st, a[0]), a[1..], b);
    }
  }

  /** Framed files that contain no `'F'` are written back as they were. */
  lemma {:induction false} SerialFramedFrom(files: seq<seq<byte>>, fs: seq<seq<byte>>)
    requires forall k, i :: 0 <= k < |fs| && 0 <= i < |fs[k]| ==> fs[k][i] != DelimiterBytes[0]
    ensures SerialAll(SerialState(0, files), Frame(fs, DelimiterBytes)) == SerialState(0, files + fs)
    decreases |fs|
  {
    if fs == [] {
      assert files + fs == files;
    } else {
      var rest := Frame(fs[1..], DelimiterBytes);
      AppendAssoc(DelimiterBytes, fs[0], rest);
      SerialAppend(SerialState(0, files), DelimiterBytes, fs[0] + rest);
      FeedDelimiter(files);
      SerialAppend(SerialState(0, files + [[]]), fs[0], rest);
      PlainRun(files + [[]], fs[0]);
      WriteOpened(files, fs[0]);
      SerialFramedFrom(files + [fs[0]], fs[1..]);
      assert [fs[0]] + fs[1..] == fs;
      AppendAssoc(files, [fs[0]], fs[1..]);
    }
  }

  lemma SerialFramed(fs: seq<seq<byte>>)
    requires forall k, i :: 0 <= k < |fs| && 0 <= i < |fs[k]| ==> fs[k][i] != DelimiterBytes[0]
    ensures SerialFinish(SerialAll(Initial, Frame(fs, DelimiterBytes))) == fs
  {
    SerialFramedFrom([], fs);
  }

  /**
   * On a padding-free stream of framed files with no `'F'` in them, through
   * a tree on which every code reaches its leaf, the decoder writes the files.
   */
  lemma SerialRoundTrip(nodes: seq<Node>, codes: CodeTable, fs: seq<seq<byte>>)
    requires WellFormed(nodes) && |codes| == 256 && DecodableTable(codes) && AllReach(nodes, codes)
    requires forall k, i :: 0 <= k < |fs| && 0 <= i < |fs[k]| ==> fs[k][i] != DelimiterBytes[0]
    requires Coded(codes, Frame(fs, DelimiterBytes))
    ensures SerialFrom(nodes, 0, CodeBits(codes, Frame(fs, DelimiterBytes)), Initial) == Run(fs, Done)
  {
    LazyRoundTrip(nodes, codes, Frame(fs, DelimiterBytes));
    SerialFromWalk(nodes, 0, CodeBits(codes, Frame(fs, DelimiterBytes)), Initial);
    SerialFramed(fs);
  }

  // ---- re-testing the mismatching symbol ----

  /**
   * The matcher with the mismatching symbol re-tested: the matched prefix
   * is written and the symbol is then handled as outside a match.
   */
  function RetestStep(st: SerialState, x: byte): (r: SerialState)
    requires st.index < DelimiterLength
    ensures r.index < DelimiterLength
  {
    if st.index > 0 && x != DelimiterBytes[st.index] then
      SerialStep(SerialState(0, Write(st.files, DelimiterBytes[..st.index])), x)
    else SerialStep(st, x)
  }

  function RetestAll(st: SerialState, xs: seq<byte>): (r: SerialState)
    requires st.index < DelimiterLength
    ensures r.index < DelimiterLength
    decreases |xs|
  {
    if xs == [] then st else RetestAll(RetestStep(st, xs[0]), xs[1..])
  }

  /** The outputs the re-testing matcher writes for the symbol stream `s`. */
  function Retested(s: seq<byte>): seq<seq<byte>>
  {
    SerialFinish(RetestAll(Initial, s))
  }

  lemma {:induction false} RetestAppend(st: SerialState, a: seq<byte>, b: seq<byte>)
    requires st.index < DelimiterLength
    ensures RetestAll(st, a + b) == RetestAll(RetestAll(st, a), b)
    decreases |a|
  {
    if a == [] {
      assert a + b == b;
    } else {
      assert (a + b)[0] == a[0] && (a + b)[1..] == a[1..] + b;
      RetestAppend(RetestStep(st, a[0]), a[1..], b);
    }
  }

  lemma {:induction false} RetestMatchRest(i: nat, files: seq<seq<byte>>)
    requires 0 < i < DelimiterLength
    ensures RetestAll(SerialState(i, files), DelimiterBytes[i..]) == SerialState(0, files + [[]])
    decreases DelimiterLength - i
  {
    assert DelimiterBytes[i..][0] == DelimiterBytes[i] && DelimiterBytes[i..][1..] == DelimiterBytes[i + 1..];
    if i + 1 < DelimiterLength {
      RetestMatchRest(i + 1, files);
    }
  }

  /** A delimiter read anywhere, even inside a partial match, flushes that match and opens a new output. */
  lemma RetestDelimiter(index: nat, files: seq<seq<byte>>)
    requires index < DelimiterLength
    ensures RetestAll(SerialState(index, files), DelimiterBytes)
      == SerialState(0, Write(files, DelimiterBytes[..index]) + [[]])
  {
    HeadUnique();
    var f1 := Write(files, DelimiterBytes[..index]);
    if index == 0 {
      assert DelimiterBytes[..index] == [];
      WriteNothing(files);
    }
    var st := SerialState(index, files);
    assert RetestStep(st, DelimiterBytes[0]) == SerialState(1, f1);
    assert RetestAll(st, DelimiterBytes) == RetestAll(RetestStep(st, DelimiterBytes[0]), DelimiterBytes[1..]);
    RetestMatchRest(1, f1);
  }

  /** `a` ends with `d` when a suffix of it does. */
  lemma EndsWithSuffix(a: seq<byte>, b: seq<byte>, c: seq<byte>)
    requires EndsWith(c, DelimiterBytes)
    ensures EndsWith(a + b + c, DelimiterBytes)
  {
    assert (a + b + c)[|a + b + c| - |DelimiterBytes|..] == c[|c| - |DelimiterBytes|..];
  }

  /**
   * One symbol after a pending prefix that completes no delimiter: the
   * matcher writes `w` and keeps a pending prefix `DELIMITER[..k]`, which
   * together are the text read so far.
   */
  lemma RetestOne(index: nat, files: seq<seq<byte>>, x: byte) returns (k: nat, w: seq<byte>)
    requires index < DelimiterLength
    requires !EndsWith(DelimiterBytes[..index] + [x], DelimiterBytes)
    ensures k < DelimiterLength && DelimiterBytes[..index] + [x] == w + DelimiterBytes[..k]
    ensures RetestStep(SerialState(index, files), x) == SerialState(k, Write(files, w))
  {
    var p := DelimiterBytes[..index];
    assert EndsWith(DelimiterBytes[..DelimiterLength], DelimiterBytes);
    assert p + [DelimiterBytes[index]] == DelimiterBytes[..index + 1];
    if index > 0 && x != DelimiterBytes[index] {
      if x == DelimiterBytes[0] {
        k, w := 1, p;
        assert DelimiterBytes[..1] == [x];
      } else {
        k, w := 0, p + [x];
        WriteAppend(files, p, [x]);
      }
    } else if index > 0 {
      k, w := index + 1, [];
      WriteNothing(files);
    } else if x == DelimiterBytes[0] {
      k, w := 1, [];
      assert DelimiterBytes[..1] == [x];
      WriteNothing(files);
    } else {
      k, w := 0, [x];
    }
  }

  /** After the text `p`, no prefix of `xs` completes a delimiter. */
  predicate NoDelimiterIn(p: seq<byte>, xs: seq<byte>)
  {
    forall m :: 0 < m <= |xs| ==> !EndsWith(p + xs[..m], DelimiterBytes)
  }

  lemma NoDelimiterHead(p: seq<byte>, xs: seq<byte>)
    requires xs != [] && NoDelimiterIn(p, xs)
    ensures !EndsWith(p + [xs[0]], DelimiterBytes)
  {
    assert p + xs[..1] == p + [xs[0]];
  }

  /** A text that completes no delimiter still completes none after a prefix of it is cut off. */
  lemma NoDelimiterTail(p: seq<byte>, xs: seq<byte>, u1: seq<byte>, p1: seq<byte>)
    requires xs != [] && NoDelimiterIn(p, xs) && p + [xs[0]] == u1 + p1
    ensures NoDelimiterIn(p1, xs[1..])
  {
    forall m | 0 < m <= |xs[1..]| ensures !EndsWith(p1 + xs[1..][..m], DelimiterBytes) {
      assert xs[..m + 1] == [xs[0]] + xs[1..][..m];
      assert p + xs[..m + 1] == (p + [xs[0]]) + xs[1..][..m];
      assert p + xs[..m + 1] == [] + u1 + (p1 + xs[1..][..m]);
      if EndsWith(p1 + xs[1..][..m], DelimiterBytes) {
        EndsWithSuffix([], u1, p1 + xs[1..][..m]);
      }
    }
  }

  /** A stream before its first delimiter completes none. */
  lemma NoDelimiterBefore(s: seq<byte>, n: nat)
    requires n <= |s| && forall i :: 0 <= i < n ==> !StartsAt(s, DelimiterBytes, i)
    ensures NoDelimiterIn(DelimiterBytes[..0], s[..n])
  {
    forall m | 0 < m <= n ensures !EndsWith(DelimiterBytes[..0] + s[..n][..m], DelimiterBytes) {
      assert DelimiterBytes[..0] + s[..n][..m] == s[..m];
      if m >= DelimiterLength {
        assert !StartsAt(s, DelimiterBytes, m - DelimiterLength);
        assert s[..m][m - DelimiterLength..] == s[m - DelimiterLength..m];
      }
    }
  }

  /**
   * A stream in which, after the pending prefix, no delimiter is completed:
   * the matcher writes `w` and keeps a pending prefix `DELIMITER[..k]`,
   * which together are the whole text.
   */
  lemma {:induction false} RetestNoMatch(index: nat, files: seq<seq<byte>>, xs: seq<byte>) returns (k: nat, w: seq<byte>)
    requires index < DelimiterLength && NoDelimiterIn(DelimiterBytes[..index], xs)
    ensures k < DelimiterLength && DelimiterBytes[..index] + xs == w + DelimiterBytes[..k]
    ensures RetestAll(SerialState(index, files), xs) == SerialState(k, Write(files, w))
    decreases |xs|
  {
    if xs == [] {
      k, w := index, [];
      assert DelimiterBytes[..index] + xs == w + DelimiterBytes[..k];
      WriteNothing(files);
    } else {
      var p := DelimiterBytes[..index];
      NoDelimiterHead(p, xs);
      var k1, w1 := RetestOne(index, files, xs[0]);
      NoDelimiterTail(p, xs, w1, DelimiterBytes[..k1]);
      var w2;
      k, w2 := RetestNoMatch(k1, Write(files, w1), xs[1..]);
      w := w1 + w2;
      WriteAppend(files, w1, w2);
      var st := SerialState(index, files);
      assert RetestAll(st, xs) == RetestAll(RetestStep(st, xs[0]), xs[1..]);
      // p + xs == (p + [xs[0]]) + xs[1..] == (w1 + DELIMITER[..k1]) + xs[1..] == w1 + (w2 + DELIMITER[..k])
      assert [xs[0]] + xs[1..] == xs;
      AppendAssoc(p, [xs[0]], xs[1..]);
      AppendAssoc(w1, DelimiterBytes[..k1], xs[1..]);
      AppendAssoc(w1, w2, DelimiterBytes[..k]);
    }
  }

  /** The first piece of a stream and the delimiter after it. */
  lemma {:induction false} RetestFirstPiece(files: seq<seq<byte>>, a: seq<byte>, rest: seq<byte>)
    requires NoDelimiterIn(DelimiterBytes[..0], a)
    ensures RetestAll(SerialState(0, files), a + DelimiterBytes + rest)
      == RetestAll(SerialState(0, Write(files, a) + [[]]), rest)
  {
    var k, w := RetestNoMatch(0, files, a);
    assert a == w + DelimiterBytes[..k];
    AppendAssoc(a, DelimiterBytes, rest);
    RetestAppend(SerialState(0, files), a, DelimiterBytes + rest);
    RetestAppend(SerialState(k, Write(files, w)), DelimiterBytes, rest);
    RetestDelimiter(k, Write(files, w));
    WriteAppend(files, w, DelimiterBytes[..k]);
  }

  /** The same, for a stream whose first delimiter is at `j`. */
  lemma RetestAt(files: seq<seq<byte>>, s: seq<byte>, j: nat)
    requires StartsAt(s, DelimiterBytes, j) && NoDelimiterIn(DelimiterBytes[..0], s[..j])
    ensures RetestAll(SerialState(0, files), s)
      == RetestAll(SerialState(0, Write(files, s[..j]) + [[]]), s[j + DelimiterLength..])
  {
    AroundAt(s, DelimiterBytes, j);
    RetestFirstPiece(files, s[..j], s[j + DelimiterLength..]);
  }

  /** The last piece of a stream: a dangling partial match is written back. */
  lemma RetestLastPiece(files: seq<seq<byte>>, s: seq<byte>)
    requires NoDelimiterIn(DelimiterBytes[..0], s)
    ensures SerialFinish(RetestAll(SerialState(0, files), s)) == Write(files, s)
  {
    var k, w := RetestNoMatch(0, files, s);
    assert s == w + DelimiterBytes[..k];
    WriteAppend(files, w, DelimiterBytes[..k]);
    if k == 0 {
      assert w == s;
    }
  }

  /**
   * What the re-testing matcher writes, piece by piece: the piece before
   * the first delimiter goes to the output open at the start, and every
   * later piece, empty or not, becomes an output of its own.
   */
  lemma {:induction false} RetestPieces(files: seq<seq<byte>>, s: seq<byte>)
    ensures SerialFinish(RetestAll(SerialState(0, files), s))
      == Write(files, Split(s, DelimiterBytes)[0]) + Split(s, DelimiterBytes)[1..]
    decreases |s|
  {
    var ps := Split(s, DelimiterBytes);
    match Find(s, DelimiterBytes)
    case None =>
      assert ps == [s] && s[..|s|] == s;
      NoDelimiterBefore(s, |s|);
      RetestLastPiece(files, s);
    case Some(j) =>
      var rest := s[j + DelimiterLength..];
      var qs := Split(rest, DelimiterBytes);
      assert ps == [s[..j]] + qs;
      NoDelimiterBefore(s, j);
      RetestAt(files, s, j);
      RetestPieces(Write(files, s[..j]) + [[]], rest);
      WriteOpened(Write(files, s[..j]), qs[0]);
      assert [qs[0]] + qs[1..] == qs;
  }

  /** The re-testing matcher writes exactly the pieces after the first delimiter. */
  lemma RetestedSplits(s: seq<byte>)
    ensures Retested(s) == Split(s, DelimiterBytes)[1..]
  {
    RetestPieces([], s);
  }

  /** It hands back any framed files in which the delimiter does not occur, empty ones included. */
  lemma RetestedFrame(fs: seq<seq<byte>>)
    requires forall k :: 0 <= k < |fs| ==> Free(fs[k], DelimiterBytes)
    ensures Retested(Frame(fs, DelimiterBytes)) == fs
  {
    DelimiterBorderless();
    SplitFrame(fs, DelimiterBytes);
    RetestedSplits(Frame(fs, DelimiterBytes));
    assert ([[]] + fs)[1..] == fs;
  }

  /**
   * The missed re-test on the files "F" and "x": the code writes one file
   * holding "F" followed by the whole second delimiter and "x".
   */
  lemma SerialCounterexample()
    ensures SerialFinish(SerialAll(Initial, Frame([[0x46], [0x78]], DelimiterBytes)))
      == [[0x46] + DelimiterBytes + [0x78]]
  {
    var tail := DelimiterBytes[1..] + [0x78];
    CounterexampleText();
    SerialAppend(Initial, DelimiterBytes, [0x46, 0x46] + tail);
    FeedDelimiter([]);
    SerialAppend(SerialState(0, [[]]), [0x46, 0x46], tail);
    TwoHeads();
    CounterexampleTail(tail);
  }

  /** "F" then "F" on a fresh output: the second is written with the first instead of being tested. */
  lemma TwoHeads()
    ensures SerialAll(SerialState(0, [[]]), [0x46, 0x46]) == SerialState(0, [[0x46, 0x46]])
  {
    var st1 := SerialState(0, [[]]);
    assert SerialStep(st1, 0x46) == SerialState(1, [[]]);
    assert DelimiterBytes[..1] + [0x46] == [0x46, 0x46];
    WriteOpened([], [0x46, 0x46]);
    assert SerialStep(SerialState(1, [[]]), 0x46) == SerialState(0, [[0x46, 0x46]]);
    assert [0x46, 0x46][1..] == [0x46] && [0x46][1..] == [];
  }

  /** The rest of the second delimiter, and "x", go to the same output. */
  lemma CounterexampleTail(tail: seq<byte>)
    requires tail == DelimiterBytes[1..] + [0x78]
    ensures SerialAll(SerialState(0, [[0x46, 0x46]]), tail) == SerialState(0, [[0x46, 0x46] + tail])
  {
    HeadUnique();
    PlainRun([[0x46, 0x46]], tail);
  }

  /** The framed stream of "F" and "x", cut where the matcher of decompressSerial.c sees it. */
  lemma CounterexampleText()
    ensures Frame([[0x46], [0x78]], DelimiterBytes) == DelimiterBytes + ([0x46, 0x46] + (DelimiterBytes[1..] + [0x78]))
    ensures [0x46, 0x46] + (DelimiterBytes[1..] + [0x78]) == [0x46] + DelimiterBytes + [0x78]
  {
    var fs: seq<seq<byte>> := [[0x46], [0x78]];
    assert Frame(fs[1..], DelimiterBytes) == DelimiterBytes + [0x78] + Frame([], DelimiterBytes);
  }

  /** With the re-test, the same stream gives back both files. */
  lemma RetestedCounterexample()
    ensures Retested(Frame([[0x46], [0x78]], DelimiterBytes)) == [[0x46], [0x78]]
  {
    var fs: seq<seq<byte>> := [[0x46], [0x78]];
    assert Free(fs[0], DelimiterBytes) && Free(fs[1], DelimiterBytes);
    RetestedFrame(fs);
  }
}
