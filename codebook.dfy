/**
 * The codebook file "codes.txt": `saveCodesToFile` writes one line
 * "<symbol>:<code>\n" per symbol that has a code, in ascending symbol
 * order, and `loadCodesFromFile` (compressFork.c) reads it back with
 * `fscanf(fp, "%d:%s\n", ...)` until a read fails. The C library's
 * conversions are modelled as functions on the unread rest of the text,
 * and the line reader `fgets` the other decoders use is modelled here too.
 */
module Codebook {
  import opened Common
  import opened CodeGen

  const Nul: char := 0 as char

  /** The characters of a C string held in `s`: everything before the first NUL. */
  function CString(s: string): (r: string)
    ensures |r| <= |s| && r == s[..|r|]
    ensures forall k :: 0 <= k < |r| ==> r[k] != Nul
    ensures |r| < |s| ==> s[|r|] == Nul
  {
    if s == [] || s[0] == Nul then [] else [s[0]] + CString(s[1..])
  }

  lemma {:induction false} CStringNoNul(s: string)
    requires forall k :: 0 <= k < |s| ==> s[k] != Nul
    ensures CString(s) == s
  {
    if s != [] {
      CStringNoNul(s[1..]);
      assert s == [s[0]] + s[1..];
    }
  }

  // ---- printf("%d") ----

  function DigitChar(d: nat): (c: char)
    requires d < 10
    ensures IsDigit(c)
  {
    ('0' as int + d) as char
  }

  /** The decimal text `%d` prints for a non-negative value. */
  function Decimal(n: nat): (s: string)
    ensures s != [] && forall k :: 0 <= k < |s| ==> IsDigit(s[k])
  {
    if n < 10 then [DigitChar(n)] else Decimal(n / 10) + [DigitChar(n % 10)]
  }

  function DigitValue(c: char): nat
    requires IsDigit(c)
  {
    c as int - '0' as int
  }

  /** The value of a run of decimal digits, as strtol computes it. */
  function DigitsValue(s: string): nat
    requires forall k :: 0 <= k < |s| ==> IsDigit(s[k])
  {
    if s == [] then 0 else 10 * DigitsValue(s[..|s| - 1]) + DigitValue(s[|s| - 1])
  }

  lemma {:induction false} DecimalValue(n: nat)
    ensures DigitsValue(Decimal(n)) == n
    ensures n < 1000 ==> |Decimal(n)| <= 3
  {
    if n >= 10 {
      DecimalValue(n / 10);
      var s := Decimal(n);
      assert s[..|s| - 1] == Decimal(n / 10);
    }
  }

  // ---- scanf ----

  /** What is left after the white space a conversion skips. */
  function SkipSpaces(t: string): (r: string)
    ensures |r| <= |t|
    ensures r == [] || !IsSpace(r[0])
  {
    if t != [] && IsSpace(t[0]) then SkipSpaces(t[1..]) else t
  }

  /** The number of leading decimal digits. */
  function DigitRun(t: string): (n: nat)
    ensures n <= |t| && forall k :: 0 <= k < n ==> IsDigit(t[k])
    ensures n < |t| ==> !IsDigit(t[n])
  {
    if t != [] && IsDigit(t[0]) then 1 + DigitRun(t[1..]) else 0
  }

  /** The number of leading characters up to the first white space (a `%s` token). */
  function TokenRun(t: string): (n: nat)
    ensures n <= |t| && forall k :: 0 <= k < n ==> !IsSpace(t[k])
    ensures n < |t| ==> IsSpace(t[n])
  {
    if t != [] && !IsSpace(t[0]) then 1 + TokenRun(t[1..]) else 0
  }

  /** The outcome of one scan: both conversions succeeded, or the scan returned less than 2. */
  datatype Scan = Scanned(symbol: int, code: string, rest: string) | Failed

  /**
   * `scanf("%d:%s")` on the unread text `t`: white space, an optionally
   * signed decimal number, a literal ':', white space and a non-empty run of
   * non-space characters. Anything else is a failed scan.
   */
  function ScanEntry(t: string): (r: Scan)
    ensures r.Scanned? ==> |r.rest| < |t| && r.code != []
  {
    ScanSigned(SkipSpaces(t))
  }

  /** `%d` after its white space: an optional sign, then the digits. */
  function ScanSigned(t: string): (r: Scan)
    ensures r.Scanned? ==> |r.rest| < |t| && r.code != []
  {
    if t != [] && t[0] == '-' then ScanDigits(true, t[1..])
    else if t != [] && t[0] == '+' then ScanDigits(false, t[1..])
    else ScanDigits(false, t)
  }

  /** The digits of `%d`, which must be followed by the literal ':'. */
  function ScanDigits(negative: bool, t: string): (r: Scan)
    ensures r.Scanned? ==> |r.rest| < |t| && r.code != []
  {
    var n := DigitRun(t);
    if n == 0 || n == |t| || t[n] != ':' then Failed
    else
      var value: int := DigitsValue(t[..n]);
      ScanCode(if negative then -value else value, t[n + 1..])
  }

  /** `%s`: white space, then a non-empty token. */
  function ScanCode(symbol: int, t: string): (r: Scan)
    ensures r.Scanned? ==> |r.rest| < |t| && r.code != []
  {
    var t3 := SkipSpaces(t);
    var m := TokenRun(t3);
    if m == 0 then Failed else Scanned(symbol, t3[..m], t3[m..])
  }

  /** `fscanf(fp, "%d:%s\n", ...)`: the trailing "\n" directive skips any white space that follows. */
  function ScanLine(t: string): (r: Scan)
    ensures r.Scanned? ==> |r.rest| < |t| && r.code != []
  {
    match ScanEntry(t)
    case Failed => Failed
    case Scanned(symbol, code, rest) => Scanned(symbol, code, SkipSpaces(rest))
  }

  // ---- saveCodesToFile ----

  /** The line `fprintf(output, "%d:%s\n", i, codes[i])` writes. */
  function Line(i: nat, code: string): string
  {
    Decimal(i) + ":" + code + "\n"
  }

  /** The lines for symbols `i` to 255. */
  function SavedFrom(codes: CodeTable, i: nat): string
    requires |codes| == 256 && i <= 256
    decreases 256 - i
  {
    if i == 256 then [] else EntryText(codes, i) + SavedFrom(codes, i + 1)
  }

  /** The line for symbol `i`, empty when it has no code. */
  function EntryText(codes: CodeTable, i: nat): string
    requires |codes| == 256 && i < 256
  {
    match codes[i] case Some(c) => Line(i, c) case None => []
  }

  /** `saveCodesToFile` (compressFork.c:100-106, the same in compressS.c:145-151). */
  method SaveCodes(codes: CodeTable) returns (text: string)
    requires |codes| == 256
    ensures text == SavedFrom(codes, 0)
  {
    text := [];
    for i := 0 to 256
      invariant text + SavedFrom(codes, i) == SavedFrom(codes, 0)
    {
      AppendEntry(codes, i, text);
      if codes[i].Some? {
        text := text + Line(i, codes[i].value);
      } else {
        assert text + EntryText(codes, i) == text;
      }
    }
    assert text + [] == text;
  }

  lemma AppendEntry(codes: CodeTable, i: nat, prev: string)
    requires |codes| == 256 && i < 256
    ensures (prev + EntryText(codes, i)) + SavedFrom(codes, i + 1) == prev + SavedFrom(codes, i)
  {
  }

  // ---- loadCodesFromFile ----

  /**
   * The table after the `fscanf` loop has read `t` into `codes`. A symbol
   * outside 0..255 is an out-of-bounds store into `codes[symbol]`, which is
   * reported as `None`; the code kept is what `strdup` copies.
   */
  function LoadFrom(codes: CodeTable, t: string): Option<CodeTable>
    requires |codes| == 256
    decreases |t|
  {
    match ScanLine(t)
    case Failed => Some(codes)
    case Scanned(symbol, code, rest) =>
      if 0 <= symbol < 256 then LoadFrom(codes[symbol := Some(CString(code))], rest) else None
  }

  /** `loadCodesFromFile` (compressFork.c:139-151) on the file's text, without the `fopen` failure. */
  method LoadCodes(text: string) returns (codes: Option<CodeTable>)
    ensures codes == LoadFrom(NoCodes(), text)
  {
    var table := new Option<string>[256](_ => None);
    var rest := text;
    assert table[..] == NoCodes();
    while true
      invariant table.Length == 256
      invariant LoadFrom(table[..], rest) == LoadFrom(NoCodes(), text)
      decreases |rest|
    {
      var scan := ScanLine(rest);
      if scan.Failed? {
        break;
      }
      if !(0 <= scan.symbol < 256) {
        return None;
      }
      table[scan.symbol] := Some(CString(scan.code));
      rest := scan.rest;
    }
    codes := Some(table[..]);
  }

  // ---- the round trip ----

  /** A code the text format carries intact: non-empty, without white space or NUL. */
  predicate StorableCode(c: string)
  {
    c != [] && forall k :: 0 <= k < |c| ==> !IsSpace(c[k]) && c[k] != Nul
  }

  predicate Storable(codes: CodeTable)
    requires |codes| == 256
  {
    forall b: byte :: codes[b].Some? ==> StorableCode(codes[b].value)
  }

  /** Bit strings are storable. */
  lemma BitStringStorable(c: string)
    requires IsBitString(c) && c != []
    ensures StorableCode(c)
  {
  }

  lemma {:induction false} DigitRunOf(d: string, rest: string)
    requires forall k :: 0 <= k < |d| ==> IsDigit(d[k])
    requires rest == [] || !IsDigit(rest[0])
    ensures DigitRun(d + rest) == |d|
  {
    if d != [] {
      assert (d + rest)[1..] == d[1..] + rest;
      DigitRunOf(d[1..], rest);
    } else {
      assert d + rest == rest;
    }
  }

  lemma {:induction false} TokenRunOf(c: string, rest: string)
    requires forall k :: 0 <= k < |c| ==> !IsSpace(c[k])
    requires rest == [] || IsSpace(rest[0])
    ensures TokenRun(c + rest) == |c|
  {
    if c != [] {
      assert (c + rest)[1..] == c[1..] + rest;
      TokenRunOf(c[1..], rest);
    } else {
      assert c + rest == rest;
    }
  }

  /** `sscanf(line, "%d:%s")` on a saved line reads back its symbol and code; "\n" is left. */
  lemma ScanEntryOfLine(i: nat, c: string, rest: string)
    requires StorableCode(c)
    ensures ScanEntry(Line(i, c) + rest) == Scanned(i, c, "\n" + rest)
  {
    var t := Line(i, c) + rest;
    var d := Decimal(i);
    var tail := c + ("\n" + rest);
    LineThen(i, c, rest);
    ScanCodeOfToken(i, c, "\n" + rest);
    ScanDigitsOfDecimal(i, tail);
    assert t[0] == d[0];
    SkipNoSpaces(t);
  }

  /** A line and what follows it, regrouped from the front. */
  lemma LineThen(i: nat, c: string, rest: string)
    ensures Line(i, c) + rest == Decimal(i) + (":" + (c + ("\n" + rest)))
  {
    var d := Decimal(i);
    AppendAssoc(d + ":" + c, "\n", rest);
    AppendAssoc(d + ":", c, "\n" + rest);
    AppendAssoc(d, ":", c + ("\n" + rest));
  }

  /** Skipping white space in front of a non-space character skips nothing. */
  lemma SkipNoSpaces(t: string)
    requires t == [] || !IsSpace(t[0])
    ensures SkipSpaces(t) == t
  {
  }

  /** `%s` reads a whole storable code that is followed by white space. */
  lemma ScanCodeOfToken(symbol: int, c: string, rest: string)
    requires StorableCode(c) && rest != [] && IsSpace(rest[0])
    ensures ScanCode(symbol, c + rest) == Scanned(symbol, c, rest)
  {
    var tail := c + rest;
    assert SkipSpaces(tail) == tail;
    TokenRunOf(c, rest);
    assert tail[..|c|] == c && tail[|c|..] == rest;
  }

  /** `%d` followed by ':' reads back the value `%d` printed. */
  lemma ScanDigitsOfDecimal(i: nat, tail: string)
    ensures ScanDigits(false, Decimal(i) + (":" + tail)) == ScanCode(i, tail)
  {
    var d := Decimal(i);
    var t := d + (":" + tail);
    DigitRunOf(d, ":" + tail);
    assert t[..|d|] == d && t[|d| + 1..] == tail;
    DecimalValue(i);
  }

  /** What follows a saved line is empty or starts with a digit. */
  lemma SavedFromStart(codes: CodeTable, i: nat)
    requires |codes| == 256 && i <= 256
    ensures SavedFrom(codes, i) == [] || IsDigit(SavedFrom(codes, i)[0])
    decreases 256 - i
  {
    if i < 256 {
      SavedFromStart(codes, i + 1);
    }
  }

  /** `fscanf(fp, "%d:%s\n")` on a saved line reads its symbol and code and stops at the next line. */
  lemma ScanLineOfLine(i: nat, c: string, rest: string)
    requires StorableCode(c)
    requires rest == [] || IsDigit(rest[0])
    ensures ScanLine(Line(i, c) + rest) == Scanned(i, c, rest)
  {
    ScanEntryOfLine(i, c, rest);
    assert SkipSpaces("\n" + rest) == SkipSpaces(rest);
    SkipNoSpaces(rest);
  }

  /** The `fscanf` loop reads one saved line into its entry and goes on after it. */
  lemma LoadLine(acc: CodeTable, i: nat, c: string, rest: string)
    requires |acc| == 256 && i < 256 && StorableCode(c)
    requires rest == [] || IsDigit(rest[0])
    ensures LoadFrom(acc, Line(i, c) + rest) == LoadFrom(acc[i := Some(c)], rest)
  {
    ScanEntryOfLine(i, c, rest);
    assert SkipSpaces("\n" + rest) == SkipSpaces(rest);
    SkipNoSpaces(rest);
    CStringNoNul(c);
  }

  /** Reading a saved text into a table already holding the entries below `i` completes it. */
  lemma {:induction false} LoadSavedFrom(codes: CodeTable, acc: CodeTable, i: nat)
    requires |codes| == 256 && |acc| == 256 && i <= 256 && Storable(codes)
    requires forall b: byte :: acc[b] == if (b as int) < i then codes[b] else None
    ensures LoadFrom(acc, SavedFrom(codes, i)) == Some(codes)
    decreases 256 - i
  {
    if i == 256 {
      assert acc == codes;
    } else {
      var rest := SavedFrom(codes, i + 1);
      SavedFromStart(codes, i + 1);
      match codes[i] {
        case Some(c) =>
          assert StorableCode(codes[i as byte].value);
          LoadLine(acc, i, c, rest);
          LoadSavedFrom(codes, acc[i := Some(c)], i + 1);
        case None =>
          assert EntryText(codes, i) == [];
          assert SavedFrom(codes, i) == rest;
          LoadSavedFrom(codes, acc, i + 1);
      }
    }
  }

  /** `loadCodesFromFile` restores the table `saveCodesToFile` wrote. */
  lemma LoadSaved(codes: CodeTable)
    requires |codes| == 256 && Storable(codes)
    ensures LoadFrom(NoCodes(), SavedFrom(codes, 0)) == Some(codes)
  {
    LoadSavedFrom(codes, NoCodes(), 0);
  }

  /** The codebook `main` writes is read back intact: every generated code is a non-empty bit string. */
  lemma GeneratedCodesRoundTrip(root: HuffmanTree.HuffmanNode)
    requires !HuffmanTree.IsLeaf(root)
    ensures LoadFrom(NoCodes(), SavedFrom(CodesOf(Some(root)), 0)) == Some(CodesOf(Some(root)))
  {
    CodesAreBitStrings(root);
    LoadSaved(CodesOf(Some(root)));
  }

  // ---- fgets ----

  /** `fgets(line, MAX_CODE_LENGTH + 10, fp)` stores at most 265 characters. */
  const LineCapacity := 265

  /** How many characters `fgets` takes from `t`: through the first newline, at most 265. */
  function FgetsLength(t: string): (n: nat)
    requires t != []
    ensures 0 < n <= |t| && n <= LineCapacity
    ensures forall k :: 0 <= k < n - 1 ==> t[k] != '\n'
    ensures n < |t| && n < LineCapacity ==> t[n - 1] == '\n'
  {
    FgetsScan(t, 0)
  }

  function FgetsScan(t: string, k: nat): (n: nat)
    requires k < |t| && k < LineCapacity
    requires forall j :: 0 <= j < k ==> t[j] != '\n'
    ensures k < n <= |t| && n <= LineCapacity
    ensures forall j :: 0 <= j < n - 1 ==> t[j] != '\n'
    ensures n < |t| && n < LineCapacity ==> t[n - 1] == '\n'
    decreases LineCapacity - k
  {
    if t[k] == '\n' || k + 1 == |t| || k + 1 == LineCapacity then k + 1 else FgetsScan(t, k + 1)
  }

  /** A saved line is short enough for `fgets` to return it whole. */
  lemma FgetsLine(i: nat, c: string, rest: string)
    requires i < 256 && StorableCode(c) && |c| <= 260
    ensures FgetsLength(Line(i, c) + rest) == |Line(i, c)|
  {
    var t := Line(i, c) + rest;
    var n := FgetsLength(t);
    DecimalValue(i);
    var L := |Line(i, c)|;
    assert t[L - 1] == '\n';
    assert forall k :: 0 <= k < L - 1 ==> t[k] != '\n' by {
      forall k | 0 <= k < L - 1 ensures t[k] != '\n' {
        var d := Decimal(i);
        if k < |d| {
          assert t[k] == d[k];
        } else if k > |d| {
          assert t[k] == c[k - |d| - 1];
        }
      }
    }
  }
}
