/**
 * The symbol-count table both compressors fill before building the tree:
 * one pass over every input that opens, the forced delimiter entries of
 * compressFork.c and the "no characters at all" test of compressS.c.
 * An input is `Some(bytes)` when `fopen` succeeds and `None` when it fails.
 */
module Frequencies {
  import opened Common

  /** Occurrences of `b` across every input that opens. */
  function TotalCount(files: seq<Option<seq<byte>>>, b: byte): nat
  {
    if files == [] then 0
    else (match files[0] case Some(data) => Count(data, b) case None => 0) + TotalCount(files[1..], b)
  }

  /** Bytes across every input that opens. */
  function TotalLength(files: seq<Option<seq<byte>>>): nat
  {
    if files == [] then 0
    else (match files[0] case Some(data) => |data| case None => 0) + TotalLength(files[1..])
  }

  /** The sum of the first `n` table entries. */
  function Sum(t: seq<int>, n: nat): int
    requires n <= |t|
  {
    if n == 0 then 0 else Sum(t, n - 1) + t[n - 1]
  }

  lemma {:induction false} TotalCountAppend(files: seq<Option<seq<byte>>>, f: Option<seq<byte>>, b: byte)
    ensures TotalCount(files + [f], b)
            == TotalCount(files, b) + (match f case Some(data) => Count(data, b) case None => 0)
  {
    if files == [] {
      assert files + [f] == [f];
    } else {
      assert (files + [f])[1..] == files[1..] + [f];
      TotalCountAppend(files[1..], f, b);
    }
  }

  /** Raising one entry by one raises the sum of any prefix covering it by one. */
  lemma {:induction false} SumBump(t: seq<int>, n: nat, k: nat)
    requires n <= |t| && k < |t|
    ensures Sum(t[k := t[k] + 1], n) == Sum(t, n) + (if k < n then 1 else 0)
  {
    if n > 0 {
      SumBump(t, n - 1, k);
    }
  }

  /**
   * The counts of `data` over the table sum to `|data|`: each byte read
   * raises exactly one entry.
   */
  lemma {:induction false} SumOfCounts(data: seq<byte>)
    ensures Sum(CountTable(data), 256) == |data|
  {
    if data != [] {
      var init := data[..|data| - 1];
      var x := data[|data| - 1];
      assert data == init + [x];
      SumOfCounts(init);
      var t := CountTable(init);
      assert CountTable(data) == t[x as int := t[x as int] + 1] by {
        forall i | 0 <= i < 256 ensures CountTable(data)[i] == t[x as int := t[x as int] + 1][i] {
          CountAppend(init, x, i as byte);
        }
      }
      SumBump(t, 256, x as int);
    } else {
      SumZero(CountTable(data), 256);
    }
  }

  /** The table of the counts of one byte sequence. */
  function CountTable(data: seq<byte>): (t: seq<int>)
    ensures |t| == 256 && forall b: byte :: t[b] == Count(data, b)
  {
    seq(256, i requires 0 <= i < 256 => Count(data, i as byte))
  }

  /** The table of the counts across all inputs that open. */
  function TotalTable(files: seq<Option<seq<byte>>>): (t: seq<int>)
    ensures |t| == 256 && forall b: byte :: t[b] == TotalCount(files, b)
  {
    seq(256, i requires 0 <= i < 256 => TotalCount(files, i as byte))
  }

  /** The total counted over the whole table is the number of bytes read. */
  lemma {:induction false} SumOfTotalCounts(files: seq<Option<seq<byte>>>)
    ensures Sum(TotalTable(files), 256) == TotalLength(files)
  {
    if files != [] {
      SumOfTotalCounts(files[1..]);
      var rest := TotalTable(files[1..]);
      var here := match files[0] case Some(data) => CountTable(data) case None => seq(256, _ => 0);
      forall i | 0 <= i < 256 ensures TotalTable(files)[i] == here[i] + rest[i] {
        assert TotalTable(files)[i] == TotalCount(files, i as byte);
      }
      SumAdd(here, rest, TotalTable(files), 256);
      if files[0].Some? {
        SumOfCounts(files[0].value);
      } else {
        SumZero(here, 256);
      }
    } else {
      SumZero(TotalTable(files), 256);
    }
  }

  lemma {:induction false} SumAdd(a: seq<int>, b: seq<int>, c: seq<int>, n: nat)
    requires n <= |a| == |b| == |c|
    requires forall i :: 0 <= i < n ==> c[i] == a[i] + b[i]
    ensures Sum(c, n) == Sum(a, n) + Sum(b, n)
  {
    if n > 0 {
      SumAdd(a, b, c, n - 1);
    }
  }

  lemma {:induction false} SumZero(a: seq<int>, n: nat)
    requires n <= |a| && forall i :: 0 <= i < n ==> a[i] == 0
    ensures Sum(a, n) == 0
  {
    if n > 0 {
      SumZero(a, n - 1);
    }
  }

  /**
   * `calculateFrequencies` (and the identical inner loop of compressFork.c's
   * `main`): one increment of `frequencies[symbol]` per byte read.
   */
  method CountFile(frequencies: array<int>, data: seq<byte>)
    requires frequencies.Length == 256
    modifies frequencies
    ensures forall b: byte :: frequencies[b] == old(frequencies[b]) + Count(data, b)
  {
    var k := 0;
    assert data[..0] == [];
    while k < |data|
      invariant 0 <= k <= |data|
      invariant forall b: byte :: frequencies[b] == old(frequencies[b]) + Count(data[..k], b)
    {
      var symbol := data[k];
      frequencies[symbol] := frequencies[symbol] + 1;
      assert data[..k + 1] == data[..k] + [symbol];
      forall b: byte ensures Count(data[..k + 1], b) == Count(data[..k], b) + (if symbol == b then 1 else 0) {
        CountAppend(data[..k], symbol, b);
      }
      k := k + 1;
    }
    assert data[..k] == data;
  }

  /**
   * The counting loop of `main`: a zeroed table, then every input that opens
   * is read to its end. Inputs that fail to open are skipped.
   */
  method CountFrequencies(files: seq<Option<seq<byte>>>) returns (frequencies: seq<int>)
    ensures |frequencies| == 256
    ensures forall b: byte :: frequencies[b] == TotalCount(files, b)
  {
    var table := new int[256](_ => 0);
    assert files[..0] == [];
    for k := 0 to |files|
      invariant forall b: byte :: table[b] == TotalCount(files[..k], b)
    {
      assert files[..k + 1] == files[..k] + [files[k]];
      forall b: byte {
        TotalCountAppend(files[..k], files[k], b);
      }
      match files[k] {
        case Some(data) => CountFile(table, data);
        case None =>
      }
    }
    assert files[..|files|] == files;
    frequencies := table[..];
  }

  /**
   * The forced-delimiter loop of compressFork.c's `main`: a byte of
   * "FILE_SEP" whose count is 0 is given the count 1, so that the tree
   * always has a code for the separator; nothing else changes.
   */
  method ForceDelimiter(frequencies: array<int>)
    requires frequencies.Length == 256
    modifies frequencies
    ensures forall b: byte :: b in DelimiterBytes ==>
      frequencies[b] == (if old(frequencies[b]) == 0 then 1 else old(frequencies[b]))
    ensures forall b: byte :: b !in DelimiterBytes ==> frequencies[b] == old(frequencies[b])
  {
    for j := 0 to |DelimiterBytes|
      invariant forall b: byte :: b in DelimiterBytes[..j] ==>
        frequencies[b] == (if old(frequencies[b]) == 0 then 1 else old(frequencies[b]))
      invariant forall b: byte :: b !in DelimiterBytes[..j] ==> frequencies[b] == old(frequencies[b])
    {
      var ch := DelimiterBytes[j];
      assert DelimiterBytes[..j + 1] == DelimiterBytes[..j] + [ch];
      if frequencies[ch] == 0 {
        frequencies[ch] := 1;
      }
    }
    assert DelimiterBytes[..|DelimiterBytes|] == DelimiterBytes;
  }

  /**
   * compressFork.c's table: every byte's count is its number of occurrences
   * across the inputs, except that a separator byte that never occurs
   * counts 1. So every separator byte has a positive count.
   */
  method ForkFrequencies(files: seq<Option<seq<byte>>>) returns (frequencies: seq<int>)
    ensures |frequencies| == 256
    ensures forall b: byte ::
      frequencies[b] == (if b in DelimiterBytes && TotalCount(files, b) == 0 then 1 else TotalCount(files, b))
    ensures forall b: byte :: b in DelimiterBytes ==> frequencies[b] >= 1
  {
    var counted := CountFrequencies(files);
    var table := new int[256](i requires 0 <= i < 256 => counted[i]);
    ForceDelimiter(table);
    frequencies := table[..];
  }

  /** The sum loop of compressS.c's `main`. */
  method TotalChars(frequencies: seq<int>) returns (total: int)
    requires |frequencies| == 256
    ensures total == Sum(frequencies, 256)
  {
    total := 0;
    for i := 0 to 256
      invariant total == Sum(frequencies, i)
    {
      total := total + frequencies[i];
    }
  }

  /**
   * compressS.c refuses to build a tree when the total is 0: that happens
   * exactly when every input that opens is empty.
   */
  method EmptyInput(files: seq<Option<seq<byte>>>) returns (empty: bool)
    ensures empty <==> forall i :: 0 <= i < |files| && files[i].Some? ==> files[i].value == []
  {
    var frequencies := CountFrequencies(files);
    var total := TotalChars(frequencies);
    assert frequencies == TotalTable(files);
    SumOfTotalCounts(files);
    TotalLengthZero(files);
    empty := total == 0;
  }

  lemma {:induction false} TotalLengthZero(files: seq<Option<seq<byte>>>)
    ensures TotalLength(files) == 0 <==> forall i :: 0 <= i < |files| && files[i].Some? ==> files[i].value == []
  {
    if files != [] {
      TotalLengthZero(files[1..]);
      assert forall i :: 1 <= i < |files| ==> files[i] == files[1..][i - 1];
    }
  }
}
