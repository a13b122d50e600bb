/**
 * The text decoder of decompressS.c (`decompressToMultipleFiles`): one
 * pass over the compressed text with `fgetc`, matching `FILE_SEP`
 * character by character; a full match opens the next numbered output and
 * sends the cursor back to the root, a broken partial match seeks back to
 * where it began and reads that character again as data. Data characters
 * `'0'` and `'1'` move the cursor (which may be NULL), and after every data
 * character a leaf writes its symbol to the open output, if any.
 */
module StreamDecoder {
  import opened Common
  import opened CodeGen
  import opened DecodeTree
  import opened TreeRebuild
  import opened TreeDecoder
  import opened Framing
  import opened TextEncoder

  /**
   * The decoder's variables: the file position, `delim_pos`, the cursor
   * `current` (an arena index or NULL), and what each output opened so far
   * holds (none open while the sequence is empty).
   */
  datatype Machine = Machine(pos: nat, delimPos: nat, cur: int, files: seq<seq<byte>>)

  /**
   * The symbols handed to `fputc` for each output, and whether the run ended
   * by dereferencing NULL; after a crash the open output on disk keeps only
   * what stdio flushed of its entry.
   */
  datatype Outcome = Outcome(files: seq<seq<byte>>, crashed: bool)

  /** The start of the run on the tree `root`. */
  const Start := Machine(0, 0, 0, [])

  predicate Valid(nodes: seq<Node>, t: string, m: Machine)
  {
    m.delimPos < DelimiterLength && m.delimPos <= m.pos <= |t| && (m.cur == Nil || 0 <= m.cur < |nodes|)
  }

  /** The cursor and the outputs after one data character, or a NULL dereference. */
  datatype Moved = Crash | Moved(cur: int, files: seq<seq<byte>>)

  /** decompressS.c:91-97: a data character `c` read with the cursor at `cur`. */
  function Consume(nodes: seq<Node>, cur: int, files: seq<seq<byte>>, c: char): (r: Moved)
    requires WellFormed(nodes) && (cur == Nil || 0 <= cur < |nodes|)
    ensures r.Moved? ==> r.cur == Nil || 0 <= r.cur < |nodes|
  {
    var bit := c == '0' || c == '1';
    if bit && cur == Nil then Crash
    else
      var next := if bit then Child(nodes, cur, c == '1') else cur;
      if next != Nil && IsLeafNode(nodes, next) then Moved(0, Write(files, [nodes[next].symbol]))
      else Moved(next, files)
  }

  /**
   * The run of decompressS.c:60-99 on the text `t` from the state `m`.
   * Each turn either extends a partial match, completes one (opening the
   * next output), or takes the character at the start of the broken match
   * as data and goes on from the character after it.
   */
  function Stream(nodes: seq<Node>, t: string, m: Machine): Outcome
    requires WellFormed(nodes) && Valid(nodes, t, m)
    decreases |t| - (m.pos - m.delimPos), |t| - m.pos
  {
    if m.pos == |t| then Outcome(m.files, false)
    else if t[m.pos] == Delimiter[m.delimPos] then
      if m.delimPos + 1 == DelimiterLength then Stream(nodes, t, Machine(m.pos + 1, 0, 0, m.files + [[]]))
      else Stream(nodes, t, m.(pos := m.pos + 1, delimPos := m.delimPos + 1))
    else
      // `fseek(input, -delim_pos-1, SEEK_CUR)` and `fgetc` again when a match broke
      var at := if m.delimPos > 0 then m.pos - m.delimPos else m.pos;
      match Consume(nodes, m.cur, m.files, t[at])
      case Crash => Outcome(m.files, true)
      case Moved(cur, files) => Stream(nodes, t, Machine(at + 1, 0, cur, files))
  }

  /** `decompressToMultipleFiles` (decompressS.c:50-102) on the compressed text, writing to sequences. */
  method DecompressToMultipleFiles(nodes: seq<Node>, input: string) returns (files: seq<seq<byte>>, crashed: bool)
    requires WellFormed(nodes)
    ensures Outcome(files, crashed) == Stream(nodes, input, Start)
  {
    var current := 0;
    var delimPos := 0;
    var pos := 0;
    files := [];
    while true
      invariant Valid(nodes, input, Machine(pos, delimPos, current, files))
      invariant Stream(nodes, input, Machine(pos, delimPos, current, files)) == Stream(nodes, input, Start)
      decreases |input| - (pos - delimPos), |input| - pos
    {
      if pos == |input| {
        // `fgetc` returns EOF
        break;
      }
      var c := input[pos];
      pos := pos + 1;
      if c == Delimiter[delimPos] {
        delimPos := delimPos + 1;
        if delimPos == DelimiterLength {
          // `fopen` of the next `archivo_<n>.txt`
          files := files + [[]];
          delimPos := 0;
          current := 0;
        }
        continue;
      }
      if delimPos > 0 {
        pos := pos - delimPos - 1;
        delimPos := 0;
        c := input[pos];
        pos := pos + 1;
      }
      var moved := Consume(nodes, current, files, c);
      if moved.Crash? {
        // `current->left` or `current->right` through NULL
        crashed := true;
        return;
      }
      current, files := moved.cur, moved.files;
    }
    crashed := false;
  }

  // ---- runs of the machine ----

  /**
   * A run of `n` characters `'0'` and `'1'` from a state with no partial
   * match: the machine makes the lazy walk over their bits, writing its
   * symbols to the open output, and stops where the walk crashes.
   */
  lemma {:induction false} BitRun(nodes: seq<Node>, t: string, pos: nat, cur: int, files: seq<seq<byte>>, n: nat)
    requires WellFormed(nodes) && (cur == Nil || 0 <= cur < |nodes|)
    requires pos + n <= |t| && IsBitString(t[pos..pos + n])
    ensures LazyWalk(nodes, cur, ToBits(t[pos..pos + n])).cur == Nil || 0 <= LazyWalk(nodes, cur, ToBits(t[pos..pos + n])).cur < |nodes|
    ensures Stream(nodes, t, Machine(pos, 0, cur, files))
      == var w := LazyWalk(nodes, cur, ToBits(t[pos..pos + n]));
         if w.crashed then Outcome(Write(files, w.symbols), true)
         else Stream(nodes, t, Machine(pos + n, 0, w.cur, Write(files, w.symbols)))
    decreases n
  {
    if n == 0 {
      assert ToBits(t[pos..pos]) == [];
      WriteNothing(files);
    } else {
      var c := t[pos];
      BitsHead(t, pos, n);
      BitAt(nodes, t, pos, cur, files);
      if cur == Nil {
        WriteNothing(files);
      } else {
        var next := Child(nodes, cur, c == '1');
        match Consume(nodes, cur, files, c)
        case Moved(cur', files') =>
          BitRun(nodes, t, pos + 1, cur', files', n - 1);
          if next != Nil && IsLeafNode(nodes, next) {
            var w := LazyWalk(nodes, 0, ToBits(t[pos + 1..pos + n]));
            WriteAppend(files, [nodes[next].symbol], w.symbols);
          }
      }
    }
  }

  /** The first of a run of bit characters, and the run after it. */
  lemma BitsHead(t: string, pos: nat, n: nat)
    requires 0 < n && pos + n <= |t| && IsBitString(t[pos..pos + n])
    ensures t[pos] == '0' || t[pos] == '1'
    ensures IsBitString(t[pos + 1..pos + n])
    ensures var bits := ToBits(t[pos..pos + n]);
      bits != [] && bits[0] == (t[pos] == '1') && bits[1..] == ToBits(t[pos + 1..pos + n])
  {
    assert t[pos] == t[pos..pos + n][0];
    var u := t[pos + 1..pos + n];
    forall k | 0 <= k < |u| ensures u[k] == '0' || u[k] == '1' {
      assert u[k] == t[pos..pos + n][k + 1];
    }
  }

  /** A bit character read with no partial match is data. */
  lemma BitAt(nodes: seq<Node>, t: string, pos: nat, cur: int, files: seq<seq<byte>>)
    requires WellFormed(nodes) && (cur == Nil || 0 <= cur < |nodes|)
    requires pos < |t| && (t[pos] == '0' || t[pos] == '1')
    ensures Stream(nodes, t, Machine(pos, 0, cur, files)) == match Consume(nodes, cur, files, t[pos])
      case Crash => Outcome(files, true)
      case Moved(cur', files') => Stream(nodes, t, Machine(pos + 1, 0, cur', files'))
  {
    assert t[pos] != Delimiter[0];
  }

  /** A `FILE_SEP` read from a state with no partial match opens the next output and resets the cursor. */
  lemma DelimiterRun(nodes: seq<Node>, t: string, pos: nat, cur: int, files: seq<seq<byte>>)
    requires WellFormed(nodes) && (cur == Nil || 0 <= cur < |nodes|)
    requires StartsAt(t, Delimiter, pos)
    ensures Stream(nodes, t, Machine(pos, 0, cur, files)) == Stream(nodes, t, Machine(pos + DelimiterLength, 0, 0, files + [[]]))
  {
    DelimiterFrom(nodes, t, pos, 0, cur, files);
  }

  lemma {:induction false} DelimiterFrom(nodes: seq<Node>, t: string, pos: nat, k: nat, cur: int, files: seq<seq<byte>>)
    requires WellFormed(nodes) && (cur == Nil || 0 <= cur < |nodes|)
    requires StartsAt(t, Delimiter, pos) && k < DelimiterLength
    ensures Stream(nodes, t, Machine(pos + k, k, cur, files)) == Stream(nodes, t, Machine(pos + DelimiterLength, 0, 0, files + [[]]))
    decreases DelimiterLength - k
  {
    assert t[pos + k] == t[pos..pos + DelimiterLength][k];
    if k + 1 < DelimiterLength {
      DelimiterFrom(nodes, t, pos, k + 1, cur, files);
    }
  }

  /** `a` then `b` from position `pos` of `t`: `a` occurs at `pos` and `b` is what follows it. */
  lemma AtPrefix<T>(t: seq<T>, pos: nat, a: seq<T>, b: seq<T>)
    requires pos <= |t| && t[pos..] == a + b
    ensures StartsAt(t, a, pos) && t[pos + |a|..] == b
  {
    assert t[pos..pos + |a|] == t[pos..][..|a|];
    assert t[pos + |a|..] == t[pos..][|a|..];
  }

  // ---- the rewinding matcher reads each character once ----

  /** From `w` to the end, `t` is a proper prefix of `FILE_SEP`: a partial match that meets EOF. */
  predicate Dangling(t: string, w: nat)
  {
    w < |t| && |t| - w < DelimiterLength && forall j :: 0 <= j < |t| - w ==> t[w + j] == Delimiter[j]
  }

  /**
   * A reference for the decoder: one pass over `t` in which each position
   * either starts a `FILE_SEP`, starts a dangling partial match (the rest is
   * dropped), or holds a data character.
   */
  function OnePass(nodes: seq<Node>, t: string, w: nat, cur: int, files: seq<seq<byte>>): Outcome
    requires WellFormed(nodes) && w <= |t| && (cur == Nil || 0 <= cur < |nodes|)
    decreases |t| - w
  {
    if w == |t| || Dangling(t, w) then Outcome(files, false)
    else if StartsAt(t, Delimiter, w) then OnePass(nodes, t, w + DelimiterLength, 0, files + [[]])
    else match Consume(nodes, cur, files, t[w])
      case Crash => Outcome(files, true)
      case Moved(c, f) => OnePass(nodes, t, w + 1, c, f)
  }

  /** How many characters of `FILE_SEP` match from `w`, given that the first `i` do. */
  function MatchLength(t: string, w: nat, i: nat): (r: nat)
    requires i <= DelimiterLength && w + i <= |t|
    ensures i <= r <= DelimiterLength && w + r <= |t|
    ensures forall j :: i <= j < r ==> t[w + j] == Delimiter[j]
    ensures r < DelimiterLength && w + r < |t| ==> t[w + r] != Delimiter[r]
    decreases DelimiterLength - i
  {
    if i == DelimiterLength || w + i == |t| || t[w + i] != Delimiter[i] then i else MatchLength(t, w, i + 1)
  }

  /** A match of all of `FILE_SEP` is an occurrence; one cut short by EOF is dangling. */
  lemma MatchCases(t: string, w: nat)
    requires w < |t|
    ensures MatchLength(t, w, 0) == DelimiterLength ==> StartsAt(t, Delimiter, w)
    ensures MatchLength(t, w, 0) < DelimiterLength && w + MatchLength(t, w, 0) == |t| ==> Dangling(t, w)
  {
    var r := MatchLength(t, w, 0);
    if r == DelimiterLength {
      var u := t[w..w + DelimiterLength];
      forall j | 0 <= j < DelimiterLength ensures u[j] == Delimiter[j] {
        assert u[j] == t[w + j];
      }
    }
  }

  /** A partial match that meets EOF: nothing more is written. */
  lemma {:induction false} DanglingRun(nodes: seq<Node>, t: string, w: nat, k: nat, cur: int, files: seq<seq<byte>>)
    requires WellFormed(nodes) && (cur == Nil || 0 <= cur < |nodes|)
    requires Dangling(t, w) && w + k <= |t|
    ensures Stream(nodes, t, Machine(w + k, k, cur, files)) == Outcome(files, false)
    decreases |t| - (w + k)
  {
    if w + k < |t| {
      assert t[w + k] == Delimiter[k];
      DanglingRun(nodes, t, w, k + 1, cur, files);
    }
  }

  /**
   * A partial match of `r` characters from `w` that breaks before EOF: the
   * machine seeks back and takes `t[w]` as data, going on from `w + 1`.
   */
  lemma {:induction false} BrokenRun(nodes: seq<Node>, t: string, w: nat, r: nat, i: nat, cur: int, files: seq<seq<byte>>)
    requires WellFormed(nodes) && (cur == Nil || 0 <= cur < |nodes|)
    requires r < DelimiterLength && w + r < |t| && t[w + r] != Delimiter[r]
    requires i <= r && forall j :: i <= j < r ==> t[w + j] == Delimiter[j]
    ensures Stream(nodes, t, Machine(w + i, i, cur, files))
      == match Consume(nodes, cur, files, t[w])
         case Crash => Outcome(files, true)
         case Moved(c, f) => Stream(nodes, t, Machine(w + 1, 0, c, f))
    decreases DelimiterLength - i
  {
    if i < r {
      MatchOn(nodes, t, w, i, cur, files);
      BrokenRun(nodes, t, w, r, i + 1, cur, files);
    } else {
      BreakAt(nodes, t, w, i, cur, files);
    }
  }

  /** One more character of `FILE_SEP` matches, short of the whole of it. */
  lemma MatchOn(nodes: seq<Node>, t: string, w: nat, i: nat, cur: int, files: seq<seq<byte>>)
    requires WellFormed(nodes) && (cur == Nil || 0 <= cur < |nodes|)
    requires i + 1 < DelimiterLength && w + i < |t| && t[w + i] == Delimiter[i]
    ensures Stream(nodes, t, Machine(w + i, i, cur, files)) == Stream(nodes, t, Machine(w + i + 1, i + 1, cur, files))
  {
  }

  /** Where the partial match breaks, the machine seeks back to `w` and reads `t[w]` as data. */
  lemma BreakAt(nodes: seq<Node>, t: string, w: nat, i: nat, cur: int, files: seq<seq<byte>>)
    requires WellFormed(nodes) && (cur == Nil || 0 <= cur < |nodes|)
    requires i < DelimiterLength && w + i < |t| && t[w + i] != Delimiter[i]
    ensures Stream(nodes, t, Machine(w + i, i, cur, files))
      == match Consume(nodes, cur, files, t[w])
         case Crash => Outcome(files, true)
         case Moved(c, f) => Stream(nodes, t, Machine(w + 1, 0, c, f))
  {
  }

  /** The `fseek`-rewinding decoder computes the one-pass reference. */
  lemma {:induction false} StreamIsOnePass(nodes: seq<Node>, t: string, w: nat, cur: int, files: seq<seq<byte>>)
    requires WellFormed(nodes) && w <= |t| && (cur == Nil || 0 <= cur < |nodes|)
    ensures Stream(nodes, t, Machine(w, 0, cur, files)) == OnePass(nodes, t, w, cur, files)
    decreases |t| - w
  {
    if w == |t| {
    } else if Dangling(t, w) {
      DanglingRun(nodes, t, w, 0, cur, files);
    } else if StartsAt(t, Delimiter, w) {
      DelimiterRun(nodes, t, w, cur, files);
      StreamIsOnePass(nodes, t, w + DelimiterLength, 0, files + [[]]);
    } else {
      MatchCases(t, w);
      BrokenRun(nodes, t, w, MatchLength(t, w, 0), 0, cur, files);
      match Consume(nodes, cur, files, t[w])
      case Crash =>
      case Moved(c, f) => StreamIsOnePass(nodes, t, w + 1, c, f);
    }
  }

  /** The whole run from the start of the text. */
  lemma StreamDecodes(nodes: seq<Node>, t: string)
    requires WellFormed(nodes)
    ensures Stream(nodes, t, Start) == OnePass(nodes, t, 0, 0, [])
  {
    StreamIsOnePass(nodes, t, 0, 0, []);
  }

  /** An occurrence of `a + b` is one of `a` followed by one of `b`. */
  lemma AtConcat<T>(t: seq<T>, pos: nat, a: seq<T>, b: seq<T>)
    requires StartsAt(t, a + b, pos)
    ensures StartsAt(t, a, pos) && t[pos + |a|..pos + |a| + |b|] == b
  {
    var u := t[pos..pos + |a| + |b|];
    assert t[pos..pos + |a|] == u[..|a|];
    assert t[pos + |a|..pos + |a| + |b|] == u[|a|..];
  }

  /** One framed file: its `FILE_SEP` opens an output and its code text writes the file there. */
  lemma FileRun(nodes: seq<Node>, codes: CodeTable, t: string, pos: nat, cur: int, files: seq<seq<byte>>, f: seq<byte>)
    requires WellFormed(nodes) && |codes| == 256 && DecodableTable(codes) && AllReach(nodes, codes)
    requires Coded(codes, f) && (cur == Nil || 0 <= cur < |nodes|)
    requires StartsAt(t, Delimiter + CodeText(codes, f), pos)
    ensures Stream(nodes, t, Machine(pos, 0, cur, files))
      == Stream(nodes, t, Machine(pos + DelimiterLength + |CodeText(codes, f)|, 0, 0, files + [f]))
  {
    var c := CodeText(codes, f);
    AtConcat(t, pos, Delimiter, c);
    DelimiterRun(nodes, t, pos, cur, files);
    CodeRun(nodes, codes, t, pos + DelimiterLength, files, f);
  }

  /** A file's code text read just after its `FILE_SEP` writes the file to the output that opened. */
  lemma CodeRun(nodes: seq<Node>, codes: CodeTable, t: string, pos: nat, files: seq<seq<byte>>, f: seq<byte>)
    requires WellFormed(nodes) && |codes| == 256 && DecodableTable(codes) && AllReach(nodes, codes)
    requires Coded(codes, f) && pos + |CodeText(codes, f)| <= |t| && t[pos..pos + |CodeText(codes, f)|] == CodeText(codes, f)
    ensures Stream(nodes, t, Machine(pos, 0, 0, files + [[]]))
      == Stream(nodes, t, Machine(pos + |CodeText(codes, f)|, 0, 0, files + [f]))
  {
    var c := CodeText(codes, f);
    CodeTextWalk(nodes, codes, f);
    BitRun(nodes, t, pos, 0, files + [[]], |c|);
    WriteOpened(files, f);
  }

  /** A file's code text is bits, and the lazy walk over them gives the file back. */
  lemma CodeTextWalk(nodes: seq<Node>, codes: CodeTable, f: seq<byte>)
    requires WellFormed(nodes) && |codes| == 256 && DecodableTable(codes) && AllReach(nodes, codes)
    requires Coded(codes, f)
    ensures IsBitString(CodeText(codes, f))
    ensures LazyWalk(nodes, 0, ToBits(CodeText(codes, f))) == Walk(f, false, 0)
  {
    CodeTextBits(codes, f, SkipOther);
    DirsOfBits(CodeText(codes, f), SkipOther);
    LazyRoundTrip(nodes, codes, f);
  }

  /**
   * The text after position `pos` is the framed code texts of `fs`: each
   * `FILE_SEP` opens an output that receives its file, and the run ends
   * without a crash.
   */
  lemma {:induction false} FrameRun(nodes: seq<Node>, codes: CodeTable, t: string, pos: nat, cur: int, files: seq<seq<byte>>, fs: seq<seq<byte>>)
    requires WellFormed(nodes) && |codes| == 256 && DecodableTable(codes) && AllReach(nodes, codes)
    requires forall k :: 0 <= k < |fs| ==> Coded(codes, fs[k])
    requires (cur == Nil || 0 <= cur < |nodes|) && pos <= |t| && t[pos..] == Frame(CodeTexts(codes, fs), Delimiter)
    ensures Stream(nodes, t, Machine(pos, 0, cur, files)) == Outcome(files + fs, false)
    decreases |fs|
  {
    if fs == [] {
      AppendNil(files);
    } else {
      var f := fs[0];
      var tail := fs[1..];
      FrameStep(codes, t, pos, fs);
      FileRun(nodes, codes, t, pos, cur, files, f);
      FrameRun(nodes, codes, t, pos + DelimiterLength + |CodeText(codes, f)|, 0, files + [f], tail);
      assert [f] + tail == fs;
      AppendAssoc(files, [f], tail);
    }
  }

  /** Framed code texts from `pos`: the first file's `FILE_SEP` and code text, then the others framed. */
  lemma FrameStep(codes: CodeTable, t: string, pos: nat, fs: seq<seq<byte>>)
    requires |codes| == 256 && fs != [] && forall k :: 0 <= k < |fs| ==> Coded(codes, fs[k])
    requires pos <= |t| && t[pos..] == Frame(CodeTexts(codes, fs), Delimiter)
    ensures Coded(codes, fs[0]) && forall k :: 0 <= k < |fs[1..]| ==> Coded(codes, fs[1..][k])
    ensures StartsAt(t, Delimiter + CodeText(codes, fs[0]), pos)
    ensures var next := pos + DelimiterLength + |CodeText(codes, fs[0])|;
      next <= |t| && t[next..] == Frame(CodeTexts(codes, fs[1..]), Delimiter)
  {
    FrameHead(codes, fs);
    AtPrefix(t, pos, Delimiter + CodeText(codes, fs[0]), Frame(CodeTexts(codes, fs[1..]), Delimiter));
  }

  /** The framed code texts start with the first file's. */
  lemma FrameHead(codes: CodeTable, fs: seq<seq<byte>>)
    requires |codes| == 256 && fs != [] && forall k :: 0 <= k < |fs| ==> Coded(codes, fs[k])
    ensures Coded(codes, fs[0]) && forall k :: 0 <= k < |fs[1..]| ==> Coded(codes, fs[1..][k])
    ensures Frame(CodeTexts(codes, fs), Delimiter)
      == (Delimiter + CodeText(codes, fs[0])) + Frame(CodeTexts(codes, fs[1..]), Delimiter)
  {
    assert Coded(codes, fs[0]);
    var ts := CodeTexts(codes, fs);
    assert ts[0] == CodeText(codes, fs[0]) && ts[1..] == CodeTexts(codes, fs[1..]);
    forall k | 0 <= k < |fs[1..]| ensures Coded(codes, fs[1..][k]) {
      assert fs[1..][k] == fs[k + 1];
    }
  }

  /** decompressS.c decodes the framed code texts back to the files, in order, without a crash. */
  lemma StreamRoundTrip(nodes: seq<Node>, codes: CodeTable, fs: seq<seq<byte>>)
    requires WellFormed(nodes) && |codes| == 256 && DecodableTable(codes) && AllReach(nodes, codes)
    requires forall k :: 0 <= k < |fs| ==> Coded(codes, fs[k])
    ensures Stream(nodes, Frame(CodeTexts(codes, fs), Delimiter), Start) == Outcome(fs, false)
  {
    var t := Frame(CodeTexts(codes, fs), Delimiter);
    assert t[0..] == t;
    FrameRun(nodes, codes, t, 0, 0, [], fs);
    assert [] + fs == fs;
  }

  /**
   * compressS.c followed by decompressS.c: when every byte of every input
   * that opens has a code, the compressor succeeds and the decoder gives
   * back the contents of those inputs, in order.
   */
  lemma TextPipeline(nodes: seq<Node>, codes: CodeTable, inputs: seq<Option<seq<byte>>>)
    requires WellFormed(nodes) && |codes| == 256 && DecodableTable(codes) && AllReach(nodes, codes)
    requires forall k :: 0 <= k < |Opened(inputs)| ==> Coded(codes, Opened(inputs)[k])
    ensures Compressed(codes, inputs).ok
    ensures Stream(nodes, Compressed(codes, inputs).text, Start) == Outcome(Opened(inputs), false)
  {
    CompressedFrame(codes, inputs);
    StreamRoundTrip(nodes, codes, Opened(inputs));
  }
}
