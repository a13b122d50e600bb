/**
 * The text compressor of compressS.c (`compressMultipleFiles`): for each
 * input file that opens, the ASCII text `FILE_SEP` and then the code string
 * of each of its bytes; a byte without a code ends the run with
 * `exit(EXIT_FAILURE)` after what was already written.
 */
module TextEncoder {
  import opened Common
  import opened CodeGen
  import opened TreeDecoder
  import opened Framing

  /** The number of leading symbols of `xs` that have a code. */
  function CodedPrefix(codes: CodeTable, xs: seq<byte>): (n: nat)
    requires |codes| == 256
    ensures n <= |xs| && Coded(codes, xs[..n])
    ensures n < |xs| ==> codes[xs[n]].None?
  {
    if xs == [] || codes[xs[0]].None? then 0
    else
      var n := 1 + CodedPrefix(codes, xs[1..]);
      assert forall k :: 1 <= k < n ==> xs[..n][k] == xs[1..][..n - 1][k - 1];
      n
  }

  /** The text written, and whether the run got to the end (false: it ended in `exit(EXIT_FAILURE)`). */
  datatype Output = Output(text: string, ok: bool)

  /**
   * What `compressMultipleFiles` (compressS.c:163-184) writes for `inputs`,
   * where `None` is a file `fopen` could not open: that file is skipped.
   */
  function Compressed(codes: CodeTable, inputs: seq<Option<seq<byte>>>): Output
    requires |codes| == 256
  {
    if inputs == [] then Output([], true)
    else match inputs[0]
      case None => Compressed(codes, inputs[1..])
      case Some(f) =>
        var t := FileText(codes, f);
        if CodedPrefix(codes, f) < |f| then Output(t, false)
        else
          var r := Compressed(codes, inputs[1..]);
          Output(t + r.text, r.ok)
  }

  /** The contents of the files that open, in order. */
  function Opened(inputs: seq<Option<seq<byte>>>): seq<seq<byte>>
  {
    if inputs == [] then []
    else if inputs[0].Some? then [inputs[0].value] + Opened(inputs[1..])
    else Opened(inputs[1..])
  }

  /** The code text of each file. */
  function CodeTexts(codes: CodeTable, fs: seq<seq<byte>>): (ts: seq<string>)
    requires |codes| == 256 && forall k :: 0 <= k < |fs| ==> Coded(codes, fs[k])
    ensures |ts| == |fs|
  {
    if fs == [] then []
    else
      assert Coded(codes, fs[0]);
      [CodeText(codes, fs[0])] + CodeTexts(codes, fs[1..])
  }

  lemma CodeTextsAt(codes: CodeTable, fs: seq<seq<byte>>, k: nat)
    requires |codes| == 256 && forall j :: 0 <= j < |fs| ==> Coded(codes, fs[j])
    requires k < |fs|
    ensures CodeTexts(codes, fs)[k] == CodeText(codes, fs[k])
  {
    if k > 0 {
      CodeTextsAt(codes, fs[1..], k - 1);
    }
  }

  lemma {:induction false} CodeTextAppend(codes: CodeTable, xs: seq<byte>, x: byte)
    requires |codes| == 256 && Coded(codes, xs) && codes[x].Some?
    ensures Coded(codes, xs + [x])
    ensures CodeText(codes, xs + [x]) == CodeText(codes, xs) + codes[x].value
  {
    if xs == [] {
      assert CodeText(codes, [x]) == codes[x].value + CodeText(codes, []);
    } else {
      assert (xs + [x])[1..] == xs[1..] + [x];
      assert Coded(codes, xs[1..]);
      CodeTextAppend(codes, xs[1..], x);
    }
  }

  /**
   * When every byte of every file that opens has a code, the run succeeds
   * and writes the files' code texts, each after a `FILE_SEP`.
   */
  lemma {:induction false} CompressedFrame(codes: CodeTable, inputs: seq<Option<seq<byte>>>)
    requires |codes| == 256
    requires forall k :: 0 <= k < |Opened(inputs)| ==> Coded(codes, Opened(inputs)[k])
    ensures Compressed(codes, inputs) == Output(Frame(CodeTexts(codes, Opened(inputs)), Delimiter), true)
  {
    if inputs != [] {
      var os := Opened(inputs);
      if inputs[0].Some? {
        var f := inputs[0].value;
        assert os == [f] + Opened(inputs[1..]);
        assert os[0] == f && os[1..] == Opened(inputs[1..]);
        assert forall k :: 0 <= k < |os[1..]| ==> os[1..][k] == os[k + 1];
        assert Coded(codes, f);
        var n := CodedPrefix(codes, f);
        assert n == |f| && f[..n] == f;
        CompressedFrame(codes, inputs[1..]);
        var ts := CodeTexts(codes, os);
        assert ts == [CodeText(codes, f)] + CodeTexts(codes, os[1..]);
        assert ts[0] == CodeText(codes, f) && ts[1..] == CodeTexts(codes, os[1..]);
        assert Frame(ts, Delimiter) == Delimiter + CodeText(codes, f) + Frame(ts[1..], Delimiter);
      } else {
        CompressedFrame(codes, inputs[1..]);
      }
    }
  }

  /** Some file of `fs` has a byte without a code. */
  predicate SomeUncoded(codes: CodeTable, fs: seq<seq<byte>>)
    requires |codes| == 256
  {
    exists k :: 0 <= k < |fs| && !Coded(codes, fs[k])
  }

  lemma SomeUncodedCons(codes: CodeTable, f: seq<byte>, fs: seq<seq<byte>>)
    requires |codes| == 256
    ensures SomeUncoded(codes, [f] + fs) <==> !Coded(codes, f) || SomeUncoded(codes, fs)
  {
    var gs := [f] + fs;
    if SomeUncoded(codes, fs) {
      var k :| 0 <= k < |fs| && !Coded(codes, fs[k]);
      assert gs[k + 1] == fs[k];
    }
    if !Coded(codes, f) {
      assert gs[0] == f;
    }
    if SomeUncoded(codes, gs) {
      var k :| 0 <= k < |gs| && !Coded(codes, gs[k]);
      if k > 0 {
        assert fs[k - 1] == gs[k];
      }
    }
  }

  /** The run fails exactly when some file that opens has a byte without a code. */
  lemma {:induction false} CompressedFails(codes: CodeTable, inputs: seq<Option<seq<byte>>>)
    requires |codes| == 256
    ensures !Compressed(codes, inputs).ok <==> SomeUncoded(codes, Opened(inputs))
  {
    if inputs != [] {
      CompressedFails(codes, inputs[1..]);
      if inputs[0].Some? {
        var f := inputs[0].value;
        SomeUncodedCons(codes, f, Opened(inputs[1..]));
        var n := CodedPrefix(codes, f);
        if n < |f| {
          assert codes[f[n]].None?;
        } else {
          assert f[..n] == f;
        }
      }
    }
  }

  /** `compressMultipleFiles` over the inputs' contents, writing to a string. */
  method CompressMultipleFiles(codes: CodeTable, inputs: seq<Option<seq<byte>>>) returns (output: string, ok: bool)
    requires |codes| == 256
    ensures Output(output, ok) == Compressed(codes, inputs)
  {
    output := [];
    assert inputs[0..] == inputs;
    for i := 0 to |inputs|
      invariant Compressed(codes, inputs) == Resumed(output, Compressed(codes, inputs[i..]))
    {
      CompressedStep(codes, inputs, i, output);
      if inputs[i].None? {
        continue;
      }
      var done;
      output, done := CompressFile(codes, inputs[i].value, output);
      if !done {
        ok := false;
        return;
      }
    }
    ok := true;
  }

  /** `text` written before the run `r`. */
  function Resumed(text: string, r: Output): Output
  {
    Output(text + r.text, r.ok)
  }

  /** One file of the run: what it writes comes before what the rest writes, unless it ends the run. */
  lemma CompressedStep(codes: CodeTable, inputs: seq<Option<seq<byte>>>, i: nat, text: string)
    requires |codes| == 256 && i < |inputs|
    ensures var rest := Compressed(codes, inputs[i + 1..]);
      Resumed(text, Compressed(codes, inputs[i..])) == match inputs[i]
        case None => Resumed(text, rest)
        case Some(f) =>
          var t := text + FileText(codes, f);
          if CodedPrefix(codes, f) < |f| then Output(t, false) else Resumed(t, rest)
  {
    assert inputs[i..][0] == inputs[i] && inputs[i..][1..] == inputs[i + 1..];
    if inputs[i].Some? {
      var f := inputs[i].value;
      AppendAssoc(text, FileText(codes, f), Compressed(codes, inputs[i + 1..]).text);
    }
  }

  /** What one file contributes: `FILE_SEP`, then the codes of its bytes up to the first without a code. */
  function FileText(codes: CodeTable, f: seq<byte>): string
    requires |codes| == 256
  {
    Delimiter + CodeText(codes, f[..CodedPrefix(codes, f)])
  }

  /** compressS.c:170-180: one file's `FILE_SEP` and codes after `output`; false at a byte without a code. */
  method CompressFile(codes: CodeTable, f: seq<byte>, output: string) returns (result: string, ok: bool)
    requires |codes| == 256
    ensures result == output + FileText(codes, f) && (ok <==> CodedPrefix(codes, f) == |f|)
  {
    result := output + Delimiter;
    assert f[..0] == [];
    AppendNil(result);
    for j := 0 to |f|
      invariant Coded(codes, f[..j]) && CodedPrefix(codes, f) >= j
      invariant result == output + Delimiter + CodeText(codes, f[..j])
    {
      if codes[f[j]].None? {
        CodedPrefixAt(codes, f, j);
        AppendAssoc(output, Delimiter, CodeText(codes, f[..j]));
        return result, false;
      }
      CodeTextStep(codes, f, j, output + Delimiter);
      result := result + codes[f[j]].value;
    }
    assert f[..|f|] == f;
    AppendAssoc(output, Delimiter, CodeText(codes, f));
    ok := true;
  }

  /** One more coded byte: its code follows the text of those before it. */
  lemma CodeTextStep(codes: CodeTable, f: seq<byte>, j: nat, prefix: string)
    requires |codes| == 256 && j < |f| && Coded(codes, f[..j]) && codes[f[j]].Some? && CodedPrefix(codes, f) >= j
    ensures Coded(codes, f[..j + 1]) && CodedPrefix(codes, f) >= j + 1
    ensures prefix + CodeText(codes, f[..j + 1]) == (prefix + CodeText(codes, f[..j])) + codes[f[j]].value
  {
    assert f[..j + 1] == f[..j] + [f[j]];
    CodeTextAppend(codes, f[..j], f[j]);
    CodedPrefixStep(codes, f, j);
    AppendAssoc(prefix, CodeText(codes, f[..j]), codes[f[j]].value);
  }

  /** The coded prefix stops at the first byte without a code. */
  lemma {:induction false} CodedPrefixAt(codes: CodeTable, xs: seq<byte>, j: nat)
    requires |codes| == 256 && j < |xs| && Coded(codes, xs[..j]) && codes[xs[j]].None?
    ensures CodedPrefix(codes, xs) == j
  {
    if j > 0 {
      assert xs[..j][0] == xs[0];
      var ys := xs[1..][..j - 1];
      forall k | 0 <= k < |ys| ensures codes[ys[k]].Some? {
        assert ys[k] == xs[..j][k + 1];
      }
      CodedPrefixAt(codes, xs[1..], j - 1);
    }
  }

  lemma CodedPrefixStep(codes: CodeTable, xs: seq<byte>, j: nat)
    requires |codes| == 256 && j < |xs| && CodedPrefix(codes, xs) >= j && codes[xs[j]].Some?
    ensures CodedPrefix(codes, xs) >= j + 1
  {
  }
}
