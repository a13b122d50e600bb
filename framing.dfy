/**
 * Framing of several files into one stream by the separator `FILE_SEP`:
 * `strstr`-style search for the first occurrence, the split of a stream at
 * successive non-overlapping occurrences scanned left to right, and the
 * stream a compressor writes, a separator before each file.
 */
module Framing {
  import opened Common

  /** `d` occurs in `s` starting at position `j`. */
  predicate StartsAt<T(==)>(s: seq<T>, d: seq<T>, j: int)
  {
    0 <= j && j + |d| <= |s| && s[j..j + |d|] == d
  }

  /** An occurrence of `d` at `j` cuts `s` into what comes before it, `d` and what follows. */
  lemma AroundAt<T>(s: seq<T>, d: seq<T>, j: nat)
    requires StartsAt(s, d, j)
    ensures s == s[..j] + d + s[j + |d|..]
  {
    assert s == s[..j] + s[j..j + |d|] + s[j + |d|..];
  }

  /** `s` ends with `d`. */
  predicate EndsWith<T(==)>(s: seq<T>, d: seq<T>)
  {
    |s| >= |d| && s[|s| - |d|..] == d
  }

  /** A `d` ending the first `m` elements of `s` is an occurrence at `m - |d|`. */
  lemma EndsWithAt<T>(s: seq<T>, d: seq<T>, m: nat)
    requires m <= |s| && EndsWith(s[..m], d)
    ensures StartsAt(s, d, m - |d|)
  {
    assert s[..m][m - |d|..] == s[m - |d|..m];
  }

  /** `s` contains no occurrence of `d`. */
  predicate Free<T(==)>(s: seq<T>, d: seq<T>)
  {
    forall j :: 0 <= j < |s| ==> !StartsAt(s, d, j)
  }

  /** The first occurrence of `d` in `s` at or after `i`, scanning left to right. */
  function FindFrom<T(==)>(s: seq<T>, d: seq<T>, i: nat): (r: Option<nat>)
    ensures r.Some? ==> i <= r.value && StartsAt(s, d, r.value)
    ensures r.Some? ==> forall j :: i <= j < r.value ==> !StartsAt(s, d, j)
    ensures r.None? ==> forall j :: i <= j ==> !StartsAt(s, d, j)
    decreases |s| - i
  {
    if i + |d| > |s| then None
    else if s[i..i + |d|] == d then Some(i)
    else FindFrom(s, d, i + 1)
  }

  /** `strstr(s, d)`: the position of the first occurrence of `d` in `s`. */
  function Find<T(==)>(s: seq<T>, d: seq<T>): Option<nat>
  {
    FindFrom(s, d, 0)
  }

  /** The pieces of `s` between successive occurrences of `d`, left to right. */
  function Split<T(==)>(s: seq<T>, d: seq<T>): (ps: seq<seq<T>>)
    requires d != []
    ensures |ps| > 0
    decreases |s|
  {
    match Find(s, d)
    case None => [s]
    case Some(j) => [s[..j]] + Split(s[j + |d|..], d)
  }

  /** The pieces glued back with `d` between neighbours. */
  function Join<T>(ps: seq<seq<T>>, d: seq<T>): seq<T>
    requires |ps| > 0
  {
    if |ps| == 1 then ps[0] else ps[0] + d + Join(ps[1..], d)
  }

  /** Splitting loses nothing: the pieces and the separators rebuild the stream. */
  lemma {:induction false} JoinSplit<T>(s: seq<T>, d: seq<T>)
    requires d != []
    ensures Join(Split(s, d), d) == s
    decreases |s|
  {
    match Find(s, d)
    case None =>
    case Some(j) =>
      JoinSplit(s[j + |d|..], d);
      assert s[..j] + d + s[j + |d|..] == s by {
        assert s[j..j + |d|] == d;
        assert s == s[..j] + s[j..j + |d|] + s[j + |d|..];
      }
  }

  /** No piece contains the separator. */
  lemma {:induction false} SplitFree<T>(s: seq<T>, d: seq<T>)
    requires d != []
    ensures forall k :: 0 <= k < |Split(s, d)| ==> Free(Split(s, d)[k], d)
    decreases |s|
  {
    match Find(s, d)
    case None =>
      assert Split(s, d) == [s];
    case Some(j) =>
      SplitFree(s[j + |d|..], d);
      var p := s[..j];
      forall i | 0 <= i < |p| ensures !StartsAt(p, d, i) {
        if i + |d| <= |p| {
          assert s[i..i + |d|] == p[i..i + |d|];
          assert !StartsAt(s, d, i);
        }
      }
      var ps := Split(s, d);
      forall k | 0 <= k < |ps| ensures Free(ps[k], d) {
        if k > 0 {
          assert ps[k] == Split(s[j + |d|..], d)[k - 1];
        }
      }
  }

  // ---- framing: a separator before each file ----

  /** The stream of `d` followed by each file in turn. */
  function Frame<T>(fs: seq<seq<T>>, d: seq<T>): seq<T>
  {
    if fs == [] then [] else d + fs[0] + Frame(fs[1..], d)
  }

  /** No proper suffix of `d` is also a prefix of `d`. */
  predicate Borderless<T(==)>(d: seq<T>)
  {
    forall k :: 0 < k < |d| ==> d[k..] != d[..|d| - k]
  }

  /** A separator whose last element occurs nowhere else has no border. */
  lemma LastUniqueBorderless<T>(d: seq<T>)
    requires |d| > 0
    requires forall k :: 0 <= k < |d| - 1 ==> d[k] != d[|d| - 1]
    ensures Borderless(d)
  {
    forall k | 0 < k < |d| ensures d[k..] != d[..|d| - k] {
      assert d[k..][|d| - k - 1] == d[|d| - 1];
      assert d[..|d| - k][|d| - k - 1] == d[|d| - k - 1];
    }
  }

  lemma DelimiterBorderless()
    ensures Borderless(Delimiter) && Borderless(DelimiterBytes)
  {
    LastUniqueBorderless(Delimiter);
    LastUniqueBorderless(DelimiterBytes);
  }

  /**
   * A separator-free piece followed by a separator of no border is found
   * as the first piece: no occurrence starts inside the piece or straddles
   * it and the separator.
   */
  lemma FindAfterFree<T>(f: seq<T>, d: seq<T>, rest: seq<T>)
    requires d != [] && Borderless(d) && Free(f, d)
    ensures Find(f + d + rest, d) == Some(|f|)
  {
    var s := f + d + rest;
    assert s[|f|..|f| + |d|] == d;
    assert StartsAt(s, d, |f|);
    forall j | 0 <= j < |f| ensures !StartsAt(s, d, j) {
      if j + |d| <= |f| {
        assert f[j..j + |d|] == s[j..j + |d|];
        assert !StartsAt(f, d, j);
      } else {
        var k := |f| - j;
        assert s[j..j + |d|][k..] == d[..|d| - k];
        assert d[k..] != d[..|d| - k];
      }
    }
  }

  /** A separator-free piece glued in front of framed files comes back as a piece of its own. */
  lemma {:induction false} SplitGlued<T>(f: seq<T>, fs: seq<seq<T>>, d: seq<T>)
    requires d != [] && Borderless(d) && Free(f, d)
    requires forall k :: 0 <= k < |fs| ==> Free(fs[k], d)
    ensures Split(f + Frame(fs, d), d) == [f] + fs
    decreases |fs|
  {
    if fs == [] {
      assert f + Frame(fs, d) == f;
      assert Find(f, d).None?;
    } else {
      var rest := fs[0] + Frame(fs[1..], d);
      assert f + Frame(fs, d) == f + d + rest;
      FindAfterFree(f, d, rest);
      assert (f + d + rest)[..|f|] == f;
      assert (f + d + rest)[|f| + |d|..] == rest;
      SplitGlued(fs[0], fs[1..], d);
      assert [fs[0]] + fs[1..] == fs;
    }
  }

  /**
   * Splitting a framed stream gives back the files, after an empty piece
   * for what precedes the first separator, when no file contains the
   * separator.
   */
  lemma SplitFrame<T>(fs: seq<seq<T>>, d: seq<T>)
    requires d != [] && Borderless(d)
    requires forall k :: 0 <= k < |fs| ==> Free(fs[k], d)
    ensures Split(Frame(fs, d), d) == [[]] + fs
  {
    assert Free([], d);
    SplitGlued([], fs, d);
    assert [] + Frame(fs, d) == Frame(fs, d);
  }

  /** A piece none of whose elements is the separator's first element contains no separator. */
  lemma FreeOfHead<T>(f: seq<T>, d: seq<T>)
    requires d != []
    requires forall k :: 0 <= k < |f| ==> f[k] != d[0]
    ensures Free(f, d)
  {
    forall j | 0 <= j < |f| ensures !StartsAt(f, d, j) {
      if j + |d| <= |f| {
        assert f[j..j + |d|][0] == f[j];
      }
    }
  }

  /** The non-empty pieces of `ps`, in order. */
  function NonEmpty<T>(ps: seq<seq<T>>): (r: seq<seq<T>>)
    ensures forall k :: 0 <= k < |r| ==> r[k] != []
    ensures |r| <= |ps|
  {
    if ps == [] then []
    else if ps[0] == [] then NonEmpty(ps[1..])
    else [ps[0]] + NonEmpty(ps[1..])
  }

  lemma {:induction false} NonEmptyOfNonEmpty<T>(ps: seq<seq<T>>)
    requires forall k :: 0 <= k < |ps| ==> ps[k] != []
    ensures NonEmpty(ps) == ps
  {
    if ps != [] {
      NonEmptyOfNonEmpty(ps[1..]);
      assert [ps[0]] + ps[1..] == ps;
    }
  }
}
