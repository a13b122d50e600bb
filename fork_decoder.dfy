/**
 * The binary decoder of Fork/decompressFork.c (`main`): the packed stream is
 * walked bit by bit through the rebuilt tree, and each decoded symbol passes
 * through a 64-byte lookahead window that recognises `FILE_SEP` and feeds
 * the segment buffer with a lag of eight symbols.
 */
module ForkDecoder {
  import opened Common
  import opened CodeGen
  import opened DecodeTree
  import opened TreeRebuild
  import opened TreeDecoder
  import opened Framing

  /** `MAX_SYMBOLS`: the size of the segment buffer. */
  const MaxSymbols := 4096
  /** `sizeof(lookaheadBuffer)`. */
  const WindowSize := 64

  /**
   * The detector's state: `started`, the symbols decoded since the last
   * reset (what the lookahead window is a suffix of), the segment buffer
   * and the files written so far.
   */
  datatype ForkState = ForkState(started: bool, since: seq<byte>, out: seq<byte>, files: seq<seq<byte>>)

  datatype Detected = Running(st: ForkState) | Stopped(files: seq<seq<byte>>)

  const Start := ForkState(false, [], [], [])

  /** `bufferMatchesDelimiter`: `memcmp` of the first eight bytes with the token. */
  predicate BufferMatchesDelimiter(buffer: seq<byte>)
    requires |buffer| >= DelimiterLength
  {
    buffer[..DelimiterLength] == DelimiterBytes
  }

  /**
   * One decoded symbol (Fork/decompressFork.c:129-172): a delimiter ending
   * the symbols since the reset starts or closes a segment; otherwise, once
   * started and past eight symbols, the symbol decoded eight positions
   * earlier joins the segment, and a full segment buffer is fatal.
   */
  function ForkStep(st: ForkState, x: byte): Detected
  {
    var since := st.since + [x];
    if EndsWith(since, DelimiterBytes) then
      Running(ForkState(true, [], [], if st.started && st.out != [] then st.files + [st.out] else st.files))
    else if st.started && |since| > DelimiterLength then
      var out := st.out + [since[|since| - DelimiterLength - 1]];
      if |out| >= MaxSymbols then Stopped(st.files) else Running(st.(since := since, out := out))
    else
      Running(st.(since := since))
  }

  /** Feeding a symbol sequence through the detector. */
  function DetectAll(st: ForkState, xs: seq<byte>): Detected
    decreases |xs|
  {
    if xs == [] then Running(st)
    else match ForkStep(st, xs[0])
      case Stopped(files) => Stopped(files)
      case Running(st') => DetectAll(st', xs[1..])
  }

  /** Fork/decompressFork.c:182-198: a non-empty segment buffer becomes the last file. */
  function Finish(st: ForkState): seq<seq<byte>>
  {
    if st.out != [] then st.files + [st.out] else st.files
  }

  /** The end of a run: the overflow exit, a crash with the files written so far, or the final flush. */
  function Close(d: Detected, crashed: bool): Run
  {
    match d
    case Stopped(files) => Run(files, Overflow)
    case Running(st) => if crashed then Run(st.files, Crashed) else Run(Finish(st), Done)
  }

  /**
   * The decoding loop over the remaining stream bits from cursor `cur`
   * (Fork/decompressFork.c:119-198), step by step as the code interleaves
   * walking and detection.
   */
  function ForkFrom(nodes: seq<Node>, cur: int, bits: seq<bool>, st: ForkState): Run
    requires WellFormed(nodes) && 0 <= cur < |nodes|
    decreases |bits|
  {
    if bits == [] then Run(Finish(st), Done)
    else
      var next := Child(nodes, cur, bits[0]);
      if next == Nil then Run(st.files, Crashed)
      else if !IsLeafNode(nodes, next) then ForkFrom(nodes, next, bits[1..], st)
      else match ForkStep(st, nodes[next].symbol)
        case Stopped(files) => Run(files, Overflow)
        case Running(st') => ForkFrom(nodes, 0, bits[1..], st')
  }

  lemma ForkFromInner(nodes: seq<Node>, cur: int, bits: seq<bool>, st: ForkState)
    requires WellFormed(nodes) && 0 <= cur < |nodes| && bits != []
    requires Child(nodes, cur, bits[0]) != Nil && !IsLeafNode(nodes, Child(nodes, cur, bits[0]))
    ensures ForkFrom(nodes, cur, bits, st) == ForkFrom(nodes, Child(nodes, cur, bits[0]), bits[1..], st)
  {
  }

  lemma ForkFromLeaf(nodes: seq<Node>, cur: int, bits: seq<bool>, st: ForkState)
    requires WellFormed(nodes) && 0 <= cur < |nodes| && bits != []
    requires Child(nodes, cur, bits[0]) != Nil && IsLeafNode(nodes, Child(nodes, cur, bits[0]))
    ensures ForkFrom(nodes, cur, bits, st) == match ForkStep(st, nodes[Child(nodes, cur, bits[0])].symbol)
      case Stopped(files) => Run(files, Overflow)
      case Running(st') => ForkFrom(nodes, 0, bits[1..], st')
  {
  }

  /** What `main` writes for the packed stream `data`. */
  function ForkDecode(nodes: seq<Node>, data: seq<bv8>): Run
    requires WellFormed(nodes)
  {
    ForkFrom(nodes, 0, Bits(data), Start)
  }

  /**
   * The loop is the eager tree walk followed by the detector: the symbols
   * the walk emits before any crash go through the window in order.
   */
  lemma {:induction false} ForkFromWalk(nodes: seq<Node>, cur: int, bits: seq<bool>, st: ForkState)
    requires WellFormed(nodes) && 0 <= cur < |nodes|
    ensures ForkFrom(nodes, cur, bits, st)
      == Close(DetectAll(st, EagerWalk(nodes, cur, bits).symbols), EagerWalk(nodes, cur, bits).crashed)
    decreases |bits|
  {
    if bits != [] {
      var next := Child(nodes, cur, bits[0]);
      if next != Nil {
        if !IsLeafNode(nodes, next) {
          ForkFromWalk(nodes, next, bits[1..], st);
        } else {
          var w := EagerWalk(nodes, 0, bits[1..]);
          assert EagerWalk(nodes, cur, bits).symbols == [nodes[next].symbol] + w.symbols;
          assert ([nodes[next].symbol] + w.symbols)[1..] == w.symbols;
          match ForkStep(st, nodes[next].symbol)
          case Stopped(files) =>
          case Running(st') =>
            ForkFromWalk(nodes, 0, bits[1..], st');
        }
      }
    }
  }

  lemma ForkDecodeWalk(nodes: seq<Node>, data: seq<bv8>)
    requires WellFormed(nodes)
    ensures ForkDecode(nodes, data)
      == Close(DetectAll(Start, EagerWalk(nodes, 0, Bits(data)).symbols), EagerWalk(nodes, 0, Bits(data)).crashed)
  {
    ForkFromWalk(nodes, 0, Bits(data), Start);
  }

  // ---- the lookahead window ----

  /**
   * `lookaheadBuffer` holds, right-aligned, the last `lookaheadSize`
   * symbols decoded since the reset, and `lookaheadSize` is their number
   * capped at the window size.
   */
  predicate Window(w: seq<byte>, size: int, since: seq<byte>)
  {
    |w| == WindowSize && size == (if |since| < WindowSize then |since| else WindowSize)
    && w[WindowSize - size..] == since[|since| - size..]
  }

  const EmptyWindow: seq<byte> := seq(WindowSize, _ => 0)

  lemma WindowReset()
    ensures Window(EmptyWindow, 0, [])
  {
  }

  /** `memmove` by one and the new symbol at the end keep the window. */
  lemma WindowShift(w: seq<byte>, size: int, since: seq<byte>, x: byte)
    requires Window(w, size, since)
    ensures Window(w[1..] + [x], if size < WindowSize then size + 1 else size, since + [x])
  {
    var w' := w[1..] + [x];
    var size' := if size < WindowSize then size + 1 else size;
    var since' := since + [x];
    assert w'[WindowSize - size'..] == w[WindowSize - size' + 1..] + [x];
    assert since'[|since'| - size'..] == since[|since| - size' + 1..] + [x];
    if size == WindowSize {
      assert w[1..] == w[WindowSize - size..][1..];
      assert since[|since| - size + 1..] == since[|since| - size..][1..];
    }
  }

  /** The last `k` window entries are the last `k` symbols since the reset. */
  lemma WindowSuffix(w: seq<byte>, size: int, since: seq<byte>, k: nat)
    requires Window(w, size, since) && k <= size
    ensures w[WindowSize - k..] == since[|since| - k..]
  {
    assert w[WindowSize - k..] == w[WindowSize - size..][size - k..];
    assert since[|since| - k..] == since[|since| - size..][size - k..];
  }

  /**
   * The decoding loop of `main` (Fork/decompressFork.c:108-198): the bit
   * at `bitPos` is bit `7 - bitPos % 8` of byte `bitPos / 8`; the cursor
   * steps and is dereferenced at once; a leaf's symbol enters the window,
   * which either recognises a delimiter or releases the symbol eight places
   * back into the segment buffer.
   */
  method DecodeStream(nodes: seq<Node>, data: seq<bv8>) returns (files: seq<seq<byte>>, exit: Exit)
    requires WellFormed(nodes)
    ensures Run(files, exit) == ForkDecode(nodes, data)
  {
    ghost var bits := Bits(data);
    var current := 0;
    var outputBuffer := new byte[MaxSymbols];
    var outputBufferPos := 0;
    var lookahead := EmptyWindow;
    var lookaheadSize := 0;
    var fileIndex := 0;
    var started := false;
    var bitPos := 0;
    ghost var since: seq<byte> := [];
    ghost var out: seq<byte> := [];
    files := [];
    WindowReset();
    while bitPos < |data| * 8
      invariant 0 <= bitPos <= |data| * 8 == |bits|
      invariant 0 <= current < |nodes|
      invariant Window(lookahead, lookaheadSize, since)
      invariant 0 <= outputBufferPos < MaxSymbols && outputBuffer[..outputBufferPos] == out
      invariant fileIndex == |files|
      invariant ForkFrom(nodes, current, bits[bitPos..], ForkState(started, since, out, files)) == ForkDecode(nodes, data)
      decreases |data| * 8 - bitPos
    {
      BitsAt(data, bitPos);
      var byteIndex := bitPos / 8;
      // (compressedData[byteIndex] >> (7 - bitPos % 8)) & 1
      var bit := if BitOf(data[byteIndex], bitPos % 8) then 1 else 0;
      ghost var rest := bits[bitPos..];
      assert rest[0] == bits[bitPos] && rest[1..] == bits[bitPos + 1..];
      ghost var st := ForkState(started, since, out, files);
      var next := if bit == 0 then nodes[current].left else nodes[current].right;
      assert next == Child(nodes, current, rest[0]);
      if next == Nil {
        exit := Crashed;
        return;
      }
      if nodes[next].left == Nil && nodes[next].right == Nil {
        ForkFromLeaf(nodes, current, rest, st);
        var stopped;
        lookahead, lookaheadSize, started, outputBufferPos, files, fileIndex, stopped, since, out :=
          Accept(nodes[next].symbol, lookahead, lookaheadSize, started, outputBuffer, outputBufferPos, files, fileIndex, since, out);
        if stopped {
          exit := Overflow;
          return;
        }
        current := 0;
      } else {
        ForkFromInner(nodes, current, rest, st);
        current := next;
      }
      bitPos := bitPos + 1;
    }
    assert bits[bitPos..] == [];
    if outputBufferPos > 0 {
      fileIndex := fileIndex + 1;
      files := files + [outputBuffer[..outputBufferPos]];
    }
    exit := Done;
  }

  /**
   * The handling of one decoded symbol in `main` (Fork/decompressFork.c:
   * 129-172): the window shifts in the symbol; a delimiter at its end
   * starts or closes a segment and clears the buffer and the window;
   * otherwise, once started and past eight symbols, the ninth most recent
   * symbol is stored, and a full buffer stops the decoder.
   */
  method Accept(decoded: byte, lookahead: seq<byte>, lookaheadSize: int, started: bool,
                outputBuffer: array<byte>, outputBufferPos: int, files: seq<seq<byte>>, fileIndex: int,
                ghost since: seq<byte>, ghost out: seq<byte>)
    returns (lookahead': seq<byte>, lookaheadSize': int, started': bool, outputBufferPos': int,
             files': seq<seq<byte>>, fileIndex': int, stopped: bool, ghost since': seq<byte>, ghost out': seq<byte>)
    requires Window(lookahead, lookaheadSize, since)
    requires outputBuffer.Length == MaxSymbols && 0 <= outputBufferPos < MaxSymbols && outputBuffer[..outputBufferPos] == out
    requires fileIndex == |files|
    modifies outputBuffer
    ensures stopped ==> ForkStep(ForkState(started, since, out, files), decoded) == Stopped(files')
    ensures !stopped ==> ForkStep(ForkState(started, since, out, files), decoded) == Running(ForkState(started', since', out', files'))
    ensures !stopped ==> Window(lookahead', lookaheadSize', since')
    ensures !stopped ==> 0 <= outputBufferPos' < MaxSymbols && outputBuffer[..outputBufferPos'] == out'
    ensures fileIndex' == |files'|
  {
    ghost var st := ForkState(started, since, out, files);
    WindowShift(lookahead, lookaheadSize, since, decoded);
    lookahead' := lookahead[1..] + [decoded];
    lookaheadSize' := if lookaheadSize < WindowSize then lookaheadSize + 1 else lookaheadSize;
    since' := since + [decoded];
    started', outputBufferPos', files', fileIndex', stopped, out' := started, outputBufferPos, files, fileIndex, false, out;
    if lookaheadSize' >= DelimiterLength {
      WindowSuffix(lookahead', lookaheadSize', since', DelimiterLength);
    }
    if lookaheadSize' >= DelimiterLength && BufferMatchesDelimiter(lookahead'[WindowSize - DelimiterLength..]) {
      assert EndsWith(since', DelimiterBytes);
      if !started {
        started' := true;
      } else if outputBufferPos > 0 {
        fileIndex' := fileIndex + 1;
        files' := files + [outputBuffer[..outputBufferPos]];
      }
      outputBufferPos' := 0;
      out' := [];
      lookahead' := EmptyWindow;
      lookaheadSize' := 0;
      since' := [];
      WindowReset();
      return;
    }
    assert !EndsWith(since', DelimiterBytes);
    if started && lookaheadSize' > DelimiterLength {
      WindowSuffix(lookahead', lookaheadSize', since', DelimiterLength + 1);
      var x := lookahead'[WindowSize - DelimiterLength - 1];
      Store(outputBuffer, outputBufferPos, out, x);
      outputBufferPos' := outputBufferPos + 1;
      out' := out + [x];
      if outputBufferPos' >= MaxSymbols {
        stopped := true;
      }
    }
  }

  /** Writing one entry past the filled part of the buffer extends its contents by that entry. */
  method Store(buffer: array<byte>, pos: int, ghost contents: seq<byte>, x: byte)
    requires 0 <= pos < buffer.Length && buffer[..pos] == contents
    modifies buffer
    ensures buffer[..pos + 1] == contents + [x]
  {
    buffer[pos] := x;
    assert buffer[..pos + 1] == buffer[..pos] + [x];
  }

  // ---- what the detector writes, piece by piece ----

  /** The segment buffer lags eight symbols behind the symbols since the reset. */
  function Lag(s: seq<byte>): seq<byte>
  {
    if |s| > DelimiterLength then s[..|s| - DelimiterLength] else []
  }

  /** The files the code writes for the pieces of `Split(S, FILE_SEP)`. */
  function AsWritten(started: bool, ps: seq<seq<byte>>): seq<seq<byte>>
    requires |ps| > 0
    decreases |ps|
  {
    if |ps| == 1 then (if started && |ps[0]| > DelimiterLength then [Lag(ps[0])] else [])
    else
      (if started && |ps[0]| >= 2 then [ps[0][..|ps[0]| - 1]] else []) + AsWritten(true, ps[1..])
  }

  /** The pieces a started detector fills stay below the segment buffer's size. */
  predicate Fits(started: bool, ps: seq<seq<byte>>)
  {
    forall k :: 0 <= k < |ps| && (started || k > 0) ==> |ps[k]| <= MaxSymbols
  }

  predicate LagInv(st: ForkState)
  {
    st.out == if st.started then Lag(st.since) else []
  }

  lemma LagStep(since: seq<byte>, x: byte)
    requires |since + [x]| > DelimiterLength
    ensures Lag(since) + [(since + [x])[|since + [x]| - DelimiterLength - 1]] == Lag(since + [x])
  {
  }

  /** Symbols that complete no delimiter only grow the window and, once started, the lagging buffer. */
  lemma {:induction false} NoDetect(st: ForkState, xs: seq<byte>)
    requires LagInv(st)
    requires forall m :: 0 < m <= |xs| ==> !EndsWith(st.since + xs[..m], DelimiterBytes)
    requires st.started ==> |st.since + xs| < MaxSymbols + DelimiterLength
    ensures DetectAll(st, xs)
      == Running(st.(since := st.since + xs, out := if st.started then Lag(st.since + xs) else []))
    decreases |xs|
  {
    if xs != [] {
      var since := st.since + [xs[0]];
      assert xs[..1] == [xs[0]];
      if st.started && |since| > DelimiterLength {
        LagStep(st.since, xs[0]);
      }
      var st' := st.(since := since, out := if st.started then Lag(since) else []);
      assert ForkStep(st, xs[0]) == Running(st');
      forall m | 0 < m <= |xs[1..]| ensures !EndsWith(st'.since + xs[1..][..m], DelimiterBytes) {
        assert xs[..m + 1] == [xs[0]] + xs[1..][..m];
        AppendAssoc(st.since, [xs[0]], xs[1..][..m]);
      }
      assert xs == [xs[0]] + xs[1..];
      AppendAssoc(st.since, [xs[0]], xs[1..]);
      NoDetect(st', xs[1..]);
    }
  }

  lemma {:induction false} DetectAppend(st: ForkState, a: seq<byte>, b: seq<byte>)
    ensures DetectAll(st, a + b) == match DetectAll(st, a)
      case Stopped(files) => Stopped(files)
      case Running(st') => DetectAll(st', b)
    decreases |a|
  {
    if a == [] {
      assert a + b == b;
    } else {
      assert (a + b)[0] == a[0] && (a + b)[1..] == a[1..] + b;
      match ForkStep(st, a[0])
      case Stopped(files) =>
      case Running(st') => DetectAppend(st', a[1..], b);
    }
  }

  /** With no delimiter in the stream, nothing after the reset is detected. */
  lemma LastPiece(started: bool, files: seq<seq<byte>>, s: seq<byte>)
    requires Find(s, DelimiterBytes).None?
    requires started ==> |s| <= MaxSymbols
    ensures Close(DetectAll(ForkState(started, [], [], files), s), false)
      == Run(files + AsWritten(started, [s]), Done)
  {
    var st := ForkState(started, [], [], files);
    forall m | 0 < m <= |s| ensures !EndsWith(st.since + s[..m], DelimiterBytes) {
      assert st.since + s[..m] == s[..m];
      if m >= DelimiterLength && EndsWith(s[..m], DelimiterBytes) {
        EndsWithAt(s, DelimiterBytes, m);
      }
    }
    assert [] + s == s;
    NoDetect(st, s);
  }

  /** The symbols up to the last one of the first delimiter complete no delimiter. */
  lemma BeforeDelimiter(started: bool, files: seq<seq<byte>>, s: seq<byte>, j: nat)
    requires Find(s, DelimiterBytes) == Some(j)
    requires started ==> j <= MaxSymbols
    ensures j + DelimiterLength <= |s|
    ensures DetectAll(ForkState(started, [], [], files), s[..j + DelimiterLength - 1])
      == Running(ForkState(started, s[..j + DelimiterLength - 1], if started then Lag(s[..j + DelimiterLength - 1]) else [], files))
  {
    var st := ForkState(started, [], [], files);
    var a := s[..j + DelimiterLength - 1];
    forall m | 0 < m <= |a| ensures !EndsWith(st.since + a[..m], DelimiterBytes) {
      assert st.since + a[..m] == s[..m];
      if m >= DelimiterLength && EndsWith(s[..m], DelimiterBytes) {
        EndsWithAt(s, DelimiterBytes, m);
      }
    }
    assert [] + a == a;
    NoDetect(st, a);
  }

  lemma DelimiterStep(st: ForkState, x: byte, written: seq<seq<byte>>)
    requires EndsWith(st.since + [x], DelimiterBytes)
    requires written == if st.started && st.out != [] then [st.out] else []
    ensures ForkStep(st, x) == Running(ForkState(true, [], [], st.files + written))
  {
    AppendNil(st.files);
  }

  lemma Cut(s: seq<byte>, k: nat)
    requires k < |s|
    ensures s == s[..k] + ([s[k]] + s[k + 1..])
    ensures s[..k] + [s[k]] == s[..k + 1]
  {
  }

  /** The bytes up to the end of the first delimiter end with it, after the bytes before it. */
  lemma DelimiterEnd(s: seq<byte>, j: nat)
    requires Find(s, DelimiterBytes) == Some(j)
    ensures j + DelimiterLength <= |s|
    ensures var k := j + DelimiterLength - 1;
      EndsWith(s[..k] + [s[k]], DelimiterBytes) && (s[..k] + [s[k]])[..k + 1 - DelimiterLength] == s[..j]
  {
    var k := j + DelimiterLength - 1;
    assert StartsAt(s, DelimiterBytes, j);
    assert s[..k] + [s[k]] == s[..k + 1];
    assert s[..k + 1][j..] == s[j..j + DelimiterLength];
  }

  lemma DetectCons(st: ForkState, st': ForkState, x: byte, rest: seq<byte>)
    requires ForkStep(st, x) == Running(st')
    ensures DetectAll(st, [x] + rest) == DetectAll(st', rest)
  {
    assert ([x] + rest)[0] == x && ([x] + rest)[1..] == rest;
  }

  /** The piece before the first delimiter, then the delimiter itself. */
  lemma FirstPiece(started: bool, files: seq<seq<byte>>, s: seq<byte>, j: nat)
    requires Find(s, DelimiterBytes) == Some(j)
    requires started ==> j <= MaxSymbols
    ensures DetectAll(ForkState(started, [], [], files), s)
      == DetectAll(ForkState(true, [], [], files + (if started && j >= 2 then [s[..j - 1]] else [])), s[j + DelimiterLength..])
  {
    var k := j + DelimiterLength - 1;
    assert k < |s| by { DelimiterEnd(s, j); }
    var st := ForkState(started, [], [], files);
    var st1 := ForkState(started, s[..k], if started then Lag(s[..k]) else [], files);
    var written := if started && j >= 2 then [s[..j - 1]] else [];
    var st2 := ForkState(true, [], [], files + written);
    assert DetectAll(st, s[..k]) == Running(st1) by { BeforeDelimiter(started, files, s, j); }
    assert ForkStep(st1, s[k]) == Running(st2) by {
      DelimiterEnd(s, j);
      LagBefore(started, s, j);
      DelimiterStep(st1, s[k], written);
    }
    DetectThrough(st, s, k, j + DelimiterLength, st1, st2);
  }

  /** What the detector holds just before the last byte of the first delimiter. */
  lemma LagBefore(started: bool, s: seq<byte>, j: nat)
    requires j + DelimiterLength <= |s|
    ensures var out := if started then Lag(s[..j + DelimiterLength - 1]) else [];
      (out != [] <==> started && j >= 2) && (started && j >= 2 ==> out == s[..j - 1])
  {
  }

  /** Running through `s[..k]` to `st1`, then `s[k]` to `st2`, leaves the rest of `s` to `st2`. */
  lemma DetectThrough(st: ForkState, s: seq<byte>, k: nat, m: nat, st1: ForkState, st2: ForkState)
    requires k < |s| && m == k + 1 && DetectAll(st, s[..k]) == Running(st1) && ForkStep(st1, s[k]) == Running(st2)
    ensures DetectAll(st, s) == DetectAll(st2, s[m..])
  {
    Cut(s, k);
    DetectCons(st1, st2, s[k], s[k + 1..]);
    DetectAppend(st, s[..k], [s[k]] + s[k + 1..]);
  }

  /**
   * The as-written behaviour over the pieces between delimiters: nothing
   * before the first delimiter; every later piece loses its last symbol
   * and the final piece its last eight; empty results are not written.
   */
  lemma {:induction false} DetectPieces(started: bool, files: seq<seq<byte>>, s: seq<byte>)
    requires Fits(started, Split(s, DelimiterBytes))
    ensures Close(DetectAll(ForkState(started, [], [], files), s), false)
      == Run(files + AsWritten(started, Split(s, DelimiterBytes)), Done)
    decreases |s|
  {
    var ps := Split(s, DelimiterBytes);
    match Find(s, DelimiterBytes)
    case None =>
      assert ps == [s] && ps[0] == s;
      LastPiece(started, files, s);
    case Some(j) =>
      var rest := s[j + DelimiterLength..];
      assert ps == [s[..j]] + Split(rest, DelimiterBytes);
      assert ps[1..] == Split(rest, DelimiterBytes);
      assert Fits(true, Split(rest, DelimiterBytes)) by {
        forall k | 0 <= k < |ps[1..]| ensures |ps[1..][k]| <= MaxSymbols {
          assert ps[1..][k] == ps[k + 1];
        }
      }
      assert started ==> |ps[0]| <= MaxSymbols;
      FirstPiece(started, files, s, j);
      var files' := files + (if started && j >= 2 then [s[..j - 1]] else []);
      DetectPieces(true, files', rest);
      assert |ps| >= 2 && ps[0] == s[..j] && |ps[0]| == j;
      assert j >= 2 ==> ps[0][..|ps[0]| - 1] == s[..j - 1];
      assert AsWritten(started, ps) == (if started && j >= 2 then [s[..j - 1]] else []) + AsWritten(true, ps[1..]);
      AppendAssoc(files, if started && j >= 2 then [s[..j - 1]] else [], AsWritten(true, ps[1..]));
  }

  /** The whole symbol stream, from the initial state: the characterisation of Fork/decompressFork.c:129-198. */
  lemma ForkFiles(s: seq<byte>)
    requires Fits(false, Split(s, DelimiterBytes))
    ensures Close(DetectAll(Start, s), false) == Run(AsWritten(false, Split(s, DelimiterBytes)), Done)
  {
    DetectPieces(false, [], s);
  }

  /**
   * On a framed symbol stream (each file after a delimiter, no file
   * containing it) with no padding, the code writes every file but the last
   * without its last symbol, and the last without its last eight.
   */
  lemma ForkFramed(fs: seq<seq<byte>>)
    requires fs != []
    requires forall k :: 0 <= k < |fs| ==> Free(fs[k], DelimiterBytes) && |fs[k]| <= MaxSymbols
    ensures Close(DetectAll(Start, Frame(fs, DelimiterBytes)), false) == Run(AsWritten(true, fs), Done)
  {
    DelimiterBorderless();
    SplitFrame(fs, DelimiterBytes);
    var ps := [[]] + fs;
    assert ps[1..] == fs;
    assert Fits(false, ps) by {
      forall k | 0 < k < |ps| ensures |ps[k]| <= MaxSymbols {
        assert ps[k] == fs[k - 1];
      }
    }
    ForkFiles(Frame(fs, DelimiterBytes));
  }

  /** The same at the bit level, through a tree on which every code reaches its leaf. */
  lemma ForkRoundTripAsWritten(nodes: seq<Node>, codes: CodeTable, fs: seq<seq<byte>>)
    requires WellFormed(nodes) && |codes| == 256 && DecodableTable(codes) && AllReach(nodes, codes)
    requires fs != []
    requires forall k :: 0 <= k < |fs| ==> Free(fs[k], DelimiterBytes) && |fs[k]| <= MaxSymbols
    requires Coded(codes, Frame(fs, DelimiterBytes))
    ensures ForkFrom(nodes, 0, CodeBits(codes, Frame(fs, DelimiterBytes)), Start) == Run(AsWritten(true, fs), Done)
  {
    LazyOrEager(nodes, codes, Frame(fs, DelimiterBytes));
    ForkFromWalk(nodes, 0, CodeBits(codes, Frame(fs, DelimiterBytes)), Start);
    ForkFramed(fs);
  }

  lemma LazyOrEager(nodes: seq<Node>, codes: CodeTable, xs: seq<byte>)
    requires WellFormed(nodes) && |codes| == 256 && DecodableTable(codes) && AllReach(nodes, codes)
    requires Coded(codes, xs)
    ensures EagerWalk(nodes, 0, CodeBits(codes, xs)) == Walk(xs, false, 0)
  {
    EagerDecodes(nodes, codes, xs, []);
    assert CodeBits(codes, xs) + [] == CodeBits(codes, xs);
    assert xs + [] == xs;
  }

  // ---- the lag-free segmenter ----

  /** The segmenter's state: `started`, the symbols since the reset, the files so far. */
  datatype SegState = SegState(started: bool, out: seq<byte>, files: seq<seq<byte>>)

  /**
   * Every symbol goes into the buffer; a delimiter ending it closes the
   * segment before the delimiter, which is written if non-empty.
   */
  function SegStep(st: SegState, x: byte): SegState
  {
    var out := st.out + [x];
    if EndsWith(out, DelimiterBytes) then
      SegState(true, [], if st.started && |out| > DelimiterLength then st.files + [out[..|out| - DelimiterLength]] else st.files)
    else st.(out := out)
  }

  function SegAll(st: SegState, xs: seq<byte>): SegState
    decreases |xs|
  {
    if xs == [] then st else SegAll(SegStep(st, xs[0]), xs[1..])
  }

  function SegFinish(st: SegState): seq<seq<byte>>
  {
    if st.started && st.out != [] then st.files + [st.out] else st.files
  }

  /** The files a lag-free detector writes for the symbol stream `s`. */
  function Segment(s: seq<byte>): seq<seq<byte>>
  {
    SegFinish(SegAll(SegState(false, [], []), s))
  }

  lemma {:induction false} SegNoDetect(st: SegState, xs: seq<byte>)
    requires forall m :: 0 < m <= |xs| ==> !EndsWith(st.out + xs[..m], DelimiterBytes)
    ensures SegAll(st, xs) == st.(out := st.out + xs)
    decreases |xs|
  {
    if xs != [] {
      assert st.out + [xs[0]] == st.out + xs[..1];
      var st' := st.(out := st.out + [xs[0]]);
      assert SegStep(st, xs[0]) == st';
      forall m | 0 < m <= |xs[1..]| ensures !EndsWith(st'.out + xs[1..][..m], DelimiterBytes) {
        assert st'.out + xs[1..][..m] == st.out + xs[..m + 1];
      }
      assert st'.out + xs[1..] == st.out + xs;
      SegNoDetect(st', xs[1..]);
    }
  }

  lemma {:induction false} SegAppend(st: SegState, a: seq<byte>, b: seq<byte>)
    ensures SegAll(st, a + b) == SegAll(SegAll(st, a), b)
    decreases |a|
  {
    if a == [] {
      assert a + b == b;
    } else {
      assert (a + b)[0] == a[0] && (a + b)[1..] == a[1..] + b;
      SegAppend(SegStep(st, a[0]), a[1..], b);
    }
  }

  lemma SegBefore(started: bool, files: seq<seq<byte>>, s: seq<byte>, j: nat)
    requires Find(s, DelimiterBytes) == Some(j)
    ensures j + DelimiterLength <= |s|
    ensures SegAll(SegState(started, [], files), s[..j + DelimiterLength - 1])
      == SegState(started, s[..j + DelimiterLength - 1], files)
  {
    var st := SegState(started, [], files);
    var a := s[..j + DelimiterLength - 1];
    forall m | 0 < m <= |a| ensures !EndsWith(st.out + a[..m], DelimiterBytes) {
      assert st.out + a[..m] == s[..m];
      if m >= DelimiterLength && EndsWith(s[..m], DelimiterBytes) {
        EndsWithAt(s, DelimiterBytes, m);
      }
    }
    assert [] + a == a;
    SegNoDetect(st, a);
  }

  lemma SegFirstPiece(started: bool, files: seq<seq<byte>>, s: seq<byte>, j: nat)
    requires Find(s, DelimiterBytes) == Some(j)
    ensures SegAll(SegState(started, [], files), s)
      == SegAll(SegState(true, [], files + (if started && j > 0 then [s[..j]] else [])), s[j + DelimiterLength..])
  {
    SegBefore(started, files, s, j);
    var k := j + DelimiterLength - 1;
    var a := s[..k];
    var x := s[k];
    var rest := s[k + 1..];
    Cut(s, k);
    DelimiterEnd(s, j);
    var st1 := SegState(started, a, files);
    assert SegStep(st1, x) == SegState(true, [], files + (if started && j > 0 then [s[..j]] else []));
    assert ([x] + rest)[0] == x && ([x] + rest)[1..] == rest;
    SegAppend(SegState(started, [], files), a, [x] + rest);
  }

  /**
   * The lag-free detector writes exactly the non-empty pieces after the
   * first delimiter, in order.
   */
  lemma {:induction false} SegmentPieces(started: bool, files: seq<seq<byte>>, s: seq<byte>)
    ensures SegFinish(SegAll(SegState(started, [], files), s))
      == files + NonEmpty(if started then Split(s, DelimiterBytes) else Split(s, DelimiterBytes)[1..])
    decreases |s|
  {
    var ps := Split(s, DelimiterBytes);
    match Find(s, DelimiterBytes)
    case None =>
      assert ps == [s];
      var st := SegState(started, [], files);
      forall m | 0 < m <= |s| ensures !EndsWith(st.out + s[..m], DelimiterBytes) {
        assert st.out + s[..m] == s[..m];
        if m >= DelimiterLength && EndsWith(s[..m], DelimiterBytes) {
          EndsWithAt(s, DelimiterBytes, m);
        }
      }
      SegNoDetect(st, s);
      assert [] + s == s;
      assert ps[1..] == [];
      assert NonEmpty(ps[1..]) == [];
      assert NonEmpty([s]) == if s != [] then [s] else [];
    case Some(j) =>
      var rest := s[j + DelimiterLength..];
      assert ps == [s[..j]] + Split(rest, DelimiterBytes);
      assert ps[1..] == Split(rest, DelimiterBytes);
      SegFirstPiece(started, files, s, j);
      var files' := files + (if started && j > 0 then [s[..j]] else []);
      SegmentPieces(true, files', rest);
      if started {
        assert NonEmpty(ps) == (if j > 0 then [s[..j]] else []) + NonEmpty(ps[1..]);
        AppendAssoc(files, if j > 0 then [s[..j]] else [], NonEmpty(ps[1..]));
      } else {
        assert files' == files;
      }
  }

  /** The corrected detector hands back every framed file, whole. */
  lemma SegmentFrame(fs: seq<seq<byte>>)
    requires forall k :: 0 <= k < |fs| ==> fs[k] != [] && Free(fs[k], DelimiterBytes)
    ensures Segment(Frame(fs, DelimiterBytes)) == fs
  {
    DelimiterBorderless();
    SplitFrame(fs, DelimiterBytes);
    SegmentPieces(false, [], Frame(fs, DelimiterBytes));
    assert ([[]] + fs)[1..] == fs;
    NonEmptyOfNonEmpty(fs);
  }

  /**
   * With the lag-free detector, a padding-free stream of framed files
   * decodes back to those files.
   */
  lemma ForkRoundTripCorrected(nodes: seq<Node>, codes: CodeTable, fs: seq<seq<byte>>)
    requires WellFormed(nodes) && |codes| == 256 && DecodableTable(codes) && AllReach(nodes, codes)
    requires forall k :: 0 <= k < |fs| ==> fs[k] != [] && Free(fs[k], DelimiterBytes)
    requires Coded(codes, Frame(fs, DelimiterBytes))
    ensures EagerWalk(nodes, 0, CodeBits(codes, Frame(fs, DelimiterBytes))) == Walk(Frame(fs, DelimiterBytes), false, 0)
    ensures Segment(EagerWalk(nodes, 0, CodeBits(codes, Frame(fs, DelimiterBytes))).symbols) == fs
  {
    LazyOrEager(nodes, codes, Frame(fs, DelimiterBytes));
    SegmentFrame(fs);
  }

  /**
   * The lag shown on two two-symbol files "ab" and "cd": the code writes
   * the single file "a", where the lag-free detector writes both.
   */
  lemma ForkLagCounterexample()
    ensures Close(DetectAll(Start, Frame([[0x61, 0x62], [0x63, 0x64]], DelimiterBytes)), false) == Run([[0x61]], Done)
    ensures Segment(Frame([[0x61, 0x62], [0x63, 0x64]], DelimiterBytes)) == [[0x61, 0x62], [0x63, 0x64]]
  {
    var fs: seq<seq<byte>> := [[0x61, 0x62], [0x63, 0x64]];
    FreeOfHead(fs[0], DelimiterBytes);
    FreeOfHead(fs[1], DelimiterBytes);
    ForkFramed(fs);
    SegmentFrame(fs);
    assert fs[0][..|fs[0]| - 1] == [0x61];
    assert AsWritten(true, fs) == [[0x61]] + AsWritten(true, fs[1..]);
    assert fs[1..] == [[0x63, 0x64]];
  }
}
