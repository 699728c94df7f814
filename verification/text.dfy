/** The string operations of Python the reporting code relies on: `str.strip`, and collecting subprocess output. */
module Text {

  /** `str.isspace` for one character: the ASCII whitespace and separators, and the Unicode space characters. */
  predicate IsSpace(c: char)
  {
    || '\U{9}' <= c <= '\U{D}' || '\U{1C}' <= c <= '\U{20}' || c == '\U{85}' || c == '\U{A0}'
    || c == '\U{1680}' || '\U{2000}' <= c <= '\U{200A}' || c == '\U{2028}' || c == '\U{2029}'
    || c == '\U{202F}' || c == '\U{205F}' || c == '\U{3000}'
  }

  predicate IsNewline(c: char)
  {
    c == '\n'
  }

  /** The number of leading characters of `s` that `drop` selects. */
  function LeadCount(s: string, drop: char -> bool): (n: nat)
    ensures n <= |s|
  {
    if s == [] || !drop(s[0]) then 0 else 1 + LeadCount(s[1..], drop)
  }

  /** `LeadCount` is the length of the longest prefix made of selected characters. */
  lemma {:induction false} LeadCountSpec(s: string, drop: char -> bool)
    ensures var n := LeadCount(s, drop);
      && (forall k :: 0 <= k < n ==> drop(s[k]))
      && (n < |s| ==> !drop(s[n]))
  {
    if s != [] && drop(s[0]) {
      LeadCountSpec(s[1..], drop);
      var n := LeadCount(s, drop);
      forall k | 0 <= k < n
        ensures drop(s[k])
      {
        if k > 0 {
          assert s[k] == s[1..][k - 1];
        }
      }
    }
  }

  /** The number of trailing characters of `s` that `drop` selects. */
  function TrailCount(s: string, drop: char -> bool): (n: nat)
    ensures n <= |s|
  {
    if s == [] || !drop(s[|s| - 1]) then 0 else 1 + TrailCount(s[..|s| - 1], drop)
  }

  /** `TrailCount` is the length of the longest suffix made of selected characters. */
  lemma {:induction false} TrailCountSpec(s: string, drop: char -> bool)
    ensures var n := TrailCount(s, drop);
      && (forall k :: |s| - n <= k < |s| ==> drop(s[k]))
      && (n < |s| ==> !drop(s[|s| - n - 1]))
  {
    if s != [] && drop(s[|s| - 1]) {
      var init := s[..|s| - 1];
      TrailCountSpec(init, drop);
      var n := TrailCount(s, drop);
      forall k | |s| - n <= k < |s|
        ensures drop(s[k])
      {
        if k < |s| - 1 {
          assert s[k] == init[k];
        }
      }
      if n < |s| {
        assert s[|s| - n - 1] == init[|init| - (n - 1) - 1];
      }
    }
  }

  /** `s.strip(chars)`, with the characters to remove given as a predicate. */
  function StripBy(s: string, drop: char -> bool): (r: string)
    ensures |r| <= |s|
  {
    var i := LeadCount(s, drop);
    var rest := s[i..];
    rest[..|rest| - TrailCount(rest, drop)]
  }

  /**
   * What `strip` keeps: the longest middle part of `s` that neither starts nor
   * ends with a selected character; only selected characters are removed, and
   * nothing is kept exactly when every character is selected.
   */
  lemma StripBySpec(s: string, drop: char -> bool)
    ensures var r, i := StripBy(s, drop), LeadCount(s, drop);
      && i + |r| <= |s| && r == s[i..i + |r|]
      && (forall k :: 0 <= k < i ==> drop(s[k]))
      && (forall k :: i + |r| <= k < |s| ==> drop(s[k]))
      && (r != [] ==> !drop(r[0]) && !drop(r[|r| - 1]))
      && (r == [] <==> forall k :: 0 <= k < |s| ==> drop(s[k]))
  {
    var i := LeadCount(s, drop);
    var r := StripBy(s, drop);
    StripByRemoves(s, drop);
    LeadCountSpec(s, drop);
  }

  /** `strip` keeps a slice of `s`, removes selected characters on both sides of it, and keeps none at its ends. */
  lemma StripByRemoves(s: string, drop: char -> bool)
    ensures var r, i := StripBy(s, drop), LeadCount(s, drop);
      && i + |r| <= |s| && r == s[i..i + |r|]
      && (forall k :: i + |r| <= k < |s| ==> drop(s[k]))
      && (r != [] ==> !drop(r[0]) && !drop(r[|r| - 1]))
  {
    var i := LeadCount(s, drop);
    var rest := s[i..];
    var r := StripBy(s, drop);
    StripBySlice(s, drop);
    TrailCountSpec(rest, drop);
    forall k | i + |r| <= k < |s|
      ensures drop(s[k])
    {
      assert s[k] == rest[k - i];
    }
    StripByEnds(s, drop);
  }

  /** What `strip` keeps neither starts nor ends with a selected character. */
  lemma StripByEnds(s: string, drop: char -> bool)
    ensures var r := StripBy(s, drop);
      r != [] ==> !drop(r[0]) && !drop(r[|r| - 1])
  {
    var i := LeadCount(s, drop);
    var rest := s[i..];
    var n := TrailCount(rest, drop);
    var r := StripBy(s, drop);
    StripBySlice(s, drop);
    if r != [] {
      LeadCountSpec(s, drop);
      TrailCountSpec(rest, drop);
      assert r[0] == rest[0] && r[|r| - 1] == rest[|rest| - n - 1];
    }
  }

  /** What `strip` keeps is the slice between the leading and the trailing run of selected characters. */
  lemma StripBySlice(s: string, drop: char -> bool)
    ensures var r, i := StripBy(s, drop), LeadCount(s, drop);
      && i + |r| <= |s| && r == s[i..i + |r|] && r == s[i..][..|s[i..]| - TrailCount(s[i..], drop)]
      && |r| == |s| - i - TrailCount(s[i..], drop)
  {
  }

  /** `s.strip()`. */
  function Strip(s: string): string
  {
    StripBy(s, IsSpace)
  }

  /** `s.strip('\n')`. */
  function StripNewlines(s: string): string
  {
    StripBy(s, IsNewline)
  }

  /**
   * `r` is `s` without a run of selected characters at each end, and neither
   * end of `r` is selected: what `s.strip(chars)` is documented to return.
   */
  ghost predicate IsStripOf(r: string, s: string, drop: char -> bool)
  {
    && (exists i :: StrippedAt(r, s, i, drop))
    && (r != [] ==> !drop(r[0]) && !drop(r[|r| - 1]))
  }

  /** `r` sits at `i` in `s`, and only selected characters lie on either side of it. */
  predicate StrippedAt(r: string, s: string, i: int, drop: char -> bool)
  {
    && 0 <= i && i + |r| <= |s| && s[i..i + |r|] == r
    && (forall k :: 0 <= k < i ==> drop(s[k]))
    && (forall k :: i + |r| <= k < |s| ==> drop(s[k]))
  }

  lemma StripByIsStripOf(s: string, drop: char -> bool)
    ensures IsStripOf(StripBy(s, drop), s, drop)
  {
    StripBySpec(s, drop);
    assert StrippedAt(StripBy(s, drop), s, LeadCount(s, drop), drop);
  }

  /** Only one string is a strip of `s`: `StripBy` is the unique solution of `IsStripOf`. */
  lemma StripOfUnique(r: string, s: string, drop: char -> bool)
    requires IsStripOf(r, s, drop)
    ensures r == StripBy(s, drop)
  {
    var i :| StrippedAt(r, s, i, drop);
    var r0, n := StripBy(s, drop), LeadCount(s, drop);
    StripBySpec(s, drop);
    LeadCountSpec(s, drop);
    if r == [] {
      forall k | 0 <= k < |s|
        ensures drop(s[k])
      {
        if k >= i {
          assert i + |r| <= k;
        }
      }
    } else {
      assert s[i] == r[0] && s[i + |r| - 1] == r[|r| - 1];
      assert !drop(s[i]) && !drop(s[i + |r| - 1]);
      assert r0 != [];
      assert n == i;
      assert s[n + |r0| - 1] == r0[|r0| - 1];
      assert |r0| == |r|;
    }
  }

  /**
   * `for line in stdout, stderr: if line: result_list.append(line.strip('\n'))`:
   * the whole captured streams, not their lines, each kept when non-empty,
   * stdout first, and each with the newlines at its ends removed.
   */
  function Captured(stdout: string, stderr: string): (r: seq<string>)
    ensures |r| == (if stdout != "" then 1 else 0) + (if stderr != "" then 1 else 0)
    ensures stdout != "" ==> IsStripOf(r[0], stdout, IsNewline)
    ensures stderr != "" ==> IsStripOf(r[|r| - 1], stderr, IsNewline)
  {
    StripByIsStripOf(stdout, IsNewline);
    StripByIsStripOf(stderr, IsNewline);
    var out := if stdout != "" then [StripNewlines(stdout)] else [];
    out + (if stderr != "" then [StripNewlines(stderr)] else [])
  }

  /** The entries that pass `if line:`. */
  function NonEmpty(lines: seq<string>): (r: seq<string>)
    ensures |r| <= |lines|
  {
    if lines == [] then [] else (if lines[0] != "" then [lines[0]] else []) + NonEmpty(lines[1..])
  }

  /** `NonEmpty` keeps exactly the entries that are not empty. */
  lemma {:induction false} NonEmptyMembers(lines: seq<string>, x: string)
    ensures x in NonEmpty(lines) <==> x in lines && x != ""
  {
    if lines != [] {
      NonEmptyMembers(lines[1..], x);
      assert lines == [lines[0]] + lines[1..];
    }
  }

  /** `'-' * 120`. */
  function Rule(): (r: string)
    ensures |r| == 120 && forall k :: 0 <= k < |r| ==> r[k] == '-'
  {
    seq(120, _ => '-')
  }

  predicate OccursAt(s: string, t: string, i: int)
  {
    0 <= i <= |s| - |t| && s[i..i + |t|] == t
  }

  ghost predicate Contains(s: string, t: string)
  {
    exists i :: OccursAt(s, t, i)
  }

  /** The concatenation of `f(x)` over `xs`, in order: a comprehension that keeps what `f` yields for each item. */
  function FlatMap<T, U>(xs: seq<T>, f: T -> seq<U>): seq<U>
  {
    if xs == [] then [] else f(xs[0]) + FlatMap(xs[1..], f)
  }

  lemma {:induction false} FlatMapAppend<T, U>(a: seq<T>, b: seq<T>, f: T -> seq<U>)
    ensures FlatMap(a + b, f) == FlatMap(a, f) + FlatMap(b, f)
  {
    if a != [] {
      FlatMapAppend(a[1..], b, f);
      assert (a + b)[1..] == a[1..] + b;
    } else {
      assert a + b == b;
    }
  }

  lemma {:induction false} FlatMapMembers<T, U>(xs: seq<T>, f: T -> seq<U>, y: U)
    ensures y in FlatMap(xs, f) <==> exists k :: 0 <= k < |xs| && y in f(xs[k])
  {
    if xs != [] {
      FlatMapMembers(xs[1..], f, y);
      if exists k :: 0 <= k < |xs| && y in f(xs[k]) {
        var k :| 0 <= k < |xs| && y in f(xs[k]);
        if k > 0 {
          assert xs[1..][k - 1] == xs[k];
        }
      }
      if y in FlatMap(xs[1..], f) {
        var k :| 0 <= k < |xs[1..]| && y in f(xs[1..][k]);
        assert xs[k + 1] == xs[1..][k];
      }
    }
  }

  /** A slice of a slice is a slice of the original. */
  lemma SliceOfSlice<T>(s: seq<T>, a: nat, b: nat, c: nat, d: nat)
    requires a <= b <= |s| && c <= d <= b - a
    ensures s[a..b][c..d] == s[a + c..a + d]
  {
    var u := s[a..b];
    forall i | 0 <= i < d - c
      ensures u[c..d][i] == s[a + c..a + d][i]
    {
      assert u[c..d][i] == u[c + i];
      assert u[c + i] == s[a + c + i];
    }
  }
}
