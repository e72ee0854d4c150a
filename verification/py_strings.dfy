/**
 * The Python `str` operations the core relies on: `strip()`, `splitlines()`, slicing
 * `[:k]`, and the "is a subsequence of" relation the cleaner's passes respect.
 */
module PyStrings {
  import opened CharClasses

  /** Every character of `s` is whitespace. */
  ghost predicate AllSpace(s: string) {
    forall i :: 0 <= i < |s| ==> IsSpace(s[i])
  }

  /** `s` neither starts nor ends with whitespace: what `strip()` leaves behind. */
  predicate IsStripped(s: string) {
    |s| == 0 || (!IsSpace(s[0]) && !IsSpace(s[|s| - 1]))
  }

  /** `t` occurs contiguously inside `s`. */
  ghost predicate IsInfix(t: string, s: string) {
    exists i, j :: 0 <= i <= j <= |s| && s[i..j] == t
  }

  /** Length of the longest prefix of `s` whose characters all satisfy `p`. */
  function LeadingCount(s: string, p: char -> bool): (n: nat)
    ensures n <= |s|
    ensures forall i :: 0 <= i < n ==> p(s[i])
    ensures n < |s| ==> !p(s[n])
  {
    if |s| > 0 && p(s[0]) then 1 + LeadingCount(s[1..], p) else 0
  }

  /** `LeadingCount` is determined by where the run of `p` ends. */
  lemma LeadingCountIs(s: string, p: char -> bool, n: nat)
    requires n <= |s|
    requires forall i :: 0 <= i < n ==> p(s[i])
    requires n < |s| ==> !p(s[n])
    ensures LeadingCount(s, p) == n
  {
  }

  /** Length of the longest suffix of `s` whose characters all satisfy `p`. */
  function TrailingCount(s: string, p: char -> bool): (n: nat)
    ensures n <= |s|
    ensures forall i :: |s| - n <= i < |s| ==> p(s[i])
    ensures n < |s| ==> !p(s[|s| - n - 1])
  {
    if |s| > 0 && p(s[|s| - 1]) then 1 + TrailingCount(s[..|s| - 1], p) else 0
  }

  /** `TrailingCount` is determined by where the run of `p` starts. */
  lemma TrailingCountIs(s: string, p: char -> bool, n: nat)
    requires n <= |s|
    requires forall i :: |s| - n <= i < |s| ==> p(s[i])
    requires n < |s| ==> !p(s[|s| - n - 1])
    ensures TrailingCount(s, p) == n
  {
  }

  /** `str.lstrip()`: drop leading whitespace. */
  function StripStart(s: string): (r: string)
    ensures |r| <= |s| && r == s[|s| - |r|..]
    ensures AllSpace(s[..|s| - |r|])
    ensures |r| > 0 ==> !IsSpace(r[0])
  {
    var n := LeadingCount(s, IsSpace);
    assert AllSpace(s[..n]) by {
      forall i | 0 <= i < n ensures IsSpace(s[..n][i]) {
        assert s[..n][i] == s[i];
      }
    }
    s[n..]
  }

  /** `str.rstrip()`: drop trailing whitespace. */
  function StripEnd(s: string): (r: string)
    ensures |r| <= |s| && r == s[..|r|]
    ensures AllSpace(s[|r|..])
    ensures |r| > 0 ==> !IsSpace(r[|r| - 1])
  {
    var k := |s| - TrailingCount(s, IsSpace);
    assert AllSpace(s[k..]) by {
      forall i | 0 <= i < |s| - k ensures IsSpace(s[k..][i]) {
        assert s[k..][i] == s[k + i];
      }
    }
    s[..k]
  }

  /** `str.strip()` with no argument: the text between the leading and trailing whitespace. */
  function Strip(s: string): (r: string)
    ensures IsStripped(r)
    ensures |r| <= |s|
    ensures StripOffset(s) + |r| <= |s|
    ensures r == s[StripOffset(s)..StripOffset(s) + |r|]
    ensures AllSpace(s[..StripOffset(s)])
    ensures AllSpace(s[StripOffset(s) + |r|..])
  {
    var a := StripStart(s);
    var r := StripEnd(a);
    StripPieces(s, a, r);
    r
  }

  /**
   * A prefix `r` of a suffix `a` of `s` is a slice of `s`, whitespace after it in `a` is
   * whitespace in `s`, and it is stripped when `a` starts and `r` ends with a non-space.
   */
  lemma StripPieces(s: string, a: string, r: string)
    requires |a| <= |s| && a == s[|s| - |a|..]
    requires |r| <= |a| && r == a[..|r|] && AllSpace(a[|r|..])
    requires |a| > 0 ==> !IsSpace(a[0])
    requires |r| > 0 ==> !IsSpace(r[|r| - 1])
    ensures IsStripped(r)
    ensures r == s[|s| - |a|..|s| - |a| + |r|]
    ensures AllSpace(s[|s| - |a| + |r|..])
  {
    assert |r| > 0 ==> r[0] == a[0];
    var k := |s| - |a|;
    var t := s[k + |r|..];
    forall i | 0 <= i < |t| ensures IsSpace(t[i]) {
      assert t[i] == a[|r|..][i];
    }
  }

  /** A slice of `s` occurs contiguously in `s`. */
  lemma InfixAt(s: string, i: nat, j: nat)
    requires i <= j <= |s|
    ensures IsInfix(s[i..j], s)
  {
  }

  /** Number of leading whitespace characters `strip()` removes. */
  function StripOffset(s: string): (k: nat)
    ensures k <= |s|
  {
    |s| - |StripStart(s)|
  }

  /** `lstrip()` removes exactly a whitespace prefix that is followed by a non-space. */
  lemma StripStartSkips(w: string, u: string)
    requires AllSpace(w) && (|u| == 0 || !IsSpace(u[0]))
    ensures StripStart(w + u) == u
  {
    var s := w + u;
    assert forall i :: 0 <= i < |w| ==> s[i] == w[i];
    assert |w| < |s| ==> s[|w|] == u[0];
    LeadingCountIs(s, IsSpace, |w|);
    assert s[|w|..] == u;
  }

  /** `rstrip()` removes exactly a whitespace suffix that follows a non-space. */
  lemma StripEndSkips(u: string, w: string)
    requires AllSpace(w) && (|u| == 0 || !IsSpace(u[|u| - 1]))
    ensures StripEnd(u + w) == u
  {
    var s := u + w;
    assert forall i :: |u| <= i < |s| ==> s[i] == w[i - |u|];
    assert |u| > 0 ==> s[|u| - 1] == u[|u| - 1];
    TrailingCountIs(s, IsSpace, |w|);
    assert s[..|u|] == u;
  }

  /** `strip()` returns exactly the stripped core, whatever whitespace surrounds it. */
  lemma StripUnique(w1: string, t: string, w2: string)
    requires AllSpace(w1) && AllSpace(w2) && IsStripped(t)
    ensures Strip(w1 + t + w2) == t
  {
    if |t| == 0 {
      assert w1 + t + w2 == (w1 + w2) + [];
      StripStartSkips(w1 + w2, []);
      assert [] + [] == t;
      StripEndSkips([], []);
    } else {
      assert w1 + t + w2 == w1 + (t + w2);
      assert (t + w2)[0] == t[0];
      StripStartSkips(w1, t + w2);
      StripEndSkips(t, w2);
    }
  }

  /** Leading whitespace never changes the result of `strip()`. */
  lemma {:induction false} StripIgnoresLeadingSpace(w: string, s: string)
    requires AllSpace(w)
    ensures Strip(w + s) == Strip(s)
    decreases |w|
  {
    if |w| == 0 {
      assert w + s == s;
    } else {
      assert (w + s)[0] == w[0];
      assert (w + s)[1..] == w[1..] + s;
      StripIgnoresLeadingSpace(w[1..], s);
    }
  }

  /** Text without edge whitespace is its own `strip()`. */
  lemma StrippedIsFixed(s: string)
    requires IsStripped(s)
    ensures Strip(s) == s
  {
    StripUnique([], s, []);
    assert [] + s + [] == s;
  }

  /** Text made only of whitespace strips to the empty string. */
  lemma AllSpaceStripsToEmpty(s: string)
    requires AllSpace(s)
    ensures Strip(s) == []
  {
    StripUnique(s, [], []);
    assert s + [] + [] == s;
  }

  /** A piece of a piece of `s` is a piece of `s`. */
  lemma SliceOfSlice(s: string, b: nat, e: nat, i: nat, j: nat)
    requires b <= e <= |s| && i <= j <= e - b
    ensures s[b..e][i..j] == s[b + i..b + j]
  {
    forall k | 0 <= k < j - i ensures s[b..e][i..j][k] == s[b + i..b + j][k] {
      assert s[b..e][i..j][k] == s[b..e][i + k] == s[b + i + k];
    }
  }

  /** The result of `strip()` is a contiguous piece of its argument. */
  lemma StripIsInfix(s: string)
    ensures IsInfix(Strip(s), s)
  {
    var k := StripOffset(s);
    assert s[k..k + |Strip(s)|] == Strip(s);
  }

  /** A piece of a piece of `s` is a piece of `s`. */
  lemma InfixTrans(t: string, u: string, s: string)
    requires IsInfix(t, u) && IsInfix(u, s)
    ensures IsInfix(t, s)
  {
    var i, j :| 0 <= i <= j <= |u| && u[i..j] == t;
    var b, e :| 0 <= b <= e <= |s| && s[b..e] == u;
    SliceOfSlice(s, b, e, i, j);
    InfixAt(s, b + i, b + j);
  }

  // ---------------------------------------------------------------------------
  // Subsequences

  /** `t` can be obtained from `s` by deleting characters. */
  predicate IsSubseq(t: string, s: string)
    decreases |s|
  {
    if |t| == 0 then true
    else if |s| == 0 then false
    else (t[0] == s[0] && IsSubseq(t[1..], s[1..])) || IsSubseq(t, s[1..])
  }

  lemma {:induction false} SubseqLength(t: string, s: string)
    requires IsSubseq(t, s)
    ensures |t| <= |s|
    decreases |s|
  {
    if |t| > 0 {
      if t[0] == s[0] && IsSubseq(t[1..], s[1..]) {
        SubseqLength(t[1..], s[1..]);
      } else {
        SubseqLength(t, s[1..]);
      }
    }
  }

  lemma {:induction false} SubseqRefl(s: string)
    ensures IsSubseq(s, s)
    decreases |s|
  {
    if |s| > 0 {
      SubseqRefl(s[1..]);
    }
  }

  /** Deleting characters twice is deleting characters. */
  lemma {:induction false} SubseqTrans(a: string, b: string, c: string)
    requires IsSubseq(a, b) && IsSubseq(b, c)
    ensures IsSubseq(a, c)
    decreases |c|
  {
    if |a| == 0 {
    } else if |b| == 0 {
    } else if b[0] == c[0] && IsSubseq(b[1..], c[1..]) {
      if a[0] == b[0] && IsSubseq(a[1..], b[1..]) {
        SubseqTrans(a[1..], b[1..], c[1..]);
      } else {
        SubseqTrans(a, b[1..], c[1..]);
      }
    } else {
      SubseqTrans(a, b, c[1..]);
    }
  }

  /** A subsequence of a suffix is a subsequence of the whole. */
  lemma {:induction false} SubseqOfSuffix(t: string, s: string, j: nat)
    requires j <= |s| && IsSubseq(t, s[j..])
    ensures IsSubseq(t, s)
    decreases j
  {
    if j > 0 {
      assert s[j..] == s[1..][j - 1..];
      SubseqOfSuffix(t, s[1..], j - 1);
      assert |s| > 0;
      if |t| > 0 {
        assert IsSubseq(t, s[1..]);
      }
    }
  }

  /** A subsequence of a prefix is a subsequence of the whole. */
  lemma {:induction false} SubseqOfPrefix(t: string, s: string, j: nat)
    requires j <= |s| && IsSubseq(t, s[..j])
    ensures IsSubseq(t, s)
    decreases |s|
  {
    if |t| > 0 {
      assert s[..j][1..] == s[1..][..j - 1];
      if t[0] == s[..j][0] && IsSubseq(t[1..], s[..j][1..]) {
        SubseqOfPrefix(t[1..], s[1..], j - 1);
      } else {
        SubseqOfPrefix(t, s[1..], j - 1);
      }
    }
  }

  /** Every contiguous piece of `s` is a subsequence of `s`. */
  lemma SubseqOfInfix(s: string, i: nat, j: nat)
    requires i <= j <= |s|
    ensures IsSubseq(s[i..j], s)
  {
    SubseqRefl(s[i..j]);
    assert s[i..j] == s[..j][i..];
    SubseqOfSuffix(s[i..j], s[..j], i);
    SubseqOfPrefix(s[i..j], s, j);
  }

  /** `strip()` only deletes characters. */
  lemma StripIsSubseq(s: string)
    ensures IsSubseq(Strip(s), s)
  {
    var k := StripOffset(s);
    SubseqOfInfix(s, k, k + |Strip(s)|);
  }

  /** A subsequence only holds characters of the original. */
  lemma {:induction false} SubseqChars(t: string, s: string)
    requires IsSubseq(t, s)
    ensures forall i :: 0 <= i < |t| ==> t[i] in s
    decreases |s|
  {
    if |t| > 0 {
      if t[0] == s[0] && IsSubseq(t[1..], s[1..]) {
        SubseqChars(t[1..], s[1..]);
        forall i | 0 <= i < |t| ensures t[i] in s {
          if i > 0 { assert t[i] == t[1..][i - 1]; assert t[i] in s[1..]; }
        }
      } else {
        SubseqChars(t, s[1..]);
      }
    }
  }

  /** Function value testing for one particular character. */
  function Is(c: char): char -> bool {
    x => x == c
  }

  // ---------------------------------------------------------------------------
  // Lines

  /** Index of the first line boundary in `s`, or `|s|` when there is none. */
  function LineEnd(s: string): (i: nat)
    ensures i <= |s|
    ensures forall k :: 0 <= k < i ==> !IsLineBreak(s[k])
    ensures i < |s| ==> IsLineBreak(s[i])
  {
    if |s| == 0 || IsLineBreak(s[0]) then 0 else 1 + LineEnd(s[1..])
  }

  /** Characters the boundary at `i` occupies: `\r\n` is one boundary of two characters. */
  function BreakWidth(s: string, i: nat): nat
    requires i < |s|
  {
    if s[i] == '\r' && i + 1 < |s| && s[i + 1] == '\n' then 2 else 1
  }

  /** No character of `line` is a line boundary. */
  ghost predicate IsLine(line: string) {
    forall k :: 0 <= k < |line| ==> !IsLineBreak(line[k])
  }

  /**
   * `str.splitlines()` (no `keepends`): the pieces between boundaries, without the
   * boundaries; a trailing boundary does not open an empty last line, and "" has no lines.
   */
  function SplitLines(s: string): (lines: seq<string>)
    ensures forall n :: 0 <= n < |lines| ==> IsLine(lines[n])
    ensures |lines| <= |s|
    decreases |s|
  {
    if |s| == 0 then []
    else
      var i := LineEnd(s);
      if i == |s| then [s]
      else [s[..i]] + SplitLines(s[i + BreakWidth(s, i)..])
  }

  /** A single line without a boundary is one line. */
  lemma SingleLine(s: string)
    requires |s| > 0 && IsLine(s)
    ensures SplitLines(s) == [s]
  {
    LineEndOfLine(s, []);
    assert s + [] == s;
  }

  /** A boundary ending `line`: `\r\n`, or one boundary character that is not a `\r` before `\n`. */
  predicate IsBreakBefore(br: string, rest: string) {
    br == "\r\n" ||
    (|br| == 1 && IsLineBreak(br[0]) && !(br[0] == '\r' && |rest| > 0 && rest[0] == '\n'))
  }

  /**
   * `splitlines()` cuts at the first boundary: the piece before it is the first line and
   * splitting resumes after it. With `rest == ""` this is the trailing-boundary case, and
   * with `line == ""` an empty line.
   */
  lemma SplitLinesCons(line: string, br: string, rest: string)
    requires IsLine(line) && IsBreakBefore(br, rest)
    ensures SplitLines(line + br + rest) == [line] + SplitLines(rest)
  {
    var s := line + br + rest;
    assert s == line + (br + rest);
    LineEndOfLine(line, br + rest);
    var i := |line|;
    assert s[i] == br[0];
    if br == "\r\n" {
      assert s[i + 1] == '\n';
    } else if i + 1 < |s| {
      assert s[i + 1] == rest[0];
    }
    assert BreakWidth(s, i) == |br|;
    assert s[..i] == line;
    assert s[i + |br|..] == rest;
  }

  /** `"a\r\nb"`: `\r\n` is one boundary. */
  lemma SplitCrLf()
    ensures SplitLines("a\r\nb") == ["a", "b"]
  {
    assert "a\r\nb" == "a" + "\r\n" + "b";
    assert IsLine("a") && IsLine("b");
    SplitLinesCons("a", "\r\n", "b");
    SingleLine("b");
  }

  /** `"a\n\n"`: an empty line between two boundaries, and no line after the last one. */
  lemma SplitEmptyLine()
    ensures SplitLines("a\n\n") == ["a", ""]
  {
    assert SplitLines("\n") == [""] by {
      assert "\n" == "" + "\n" + "";
      SplitLinesCons("", "\n", "");
    }
    assert SplitLines("a\n\n") == ["a"] + SplitLines("\n") by {
      assert "a\n\n" == "a" + "\n" + "\n";
      assert IsLine("a");
      SplitLinesCons("a", "\n", "\n");
    }
  }

  /** A lone `\r` is a boundary: `"\r"` is one empty line. */
  lemma SplitLoneCr()
    ensures SplitLines("\r") == [""]
  {
    assert "\r" == "" + "\r" + "";
    SplitLinesCons("", "\r", "");
  }

  /** `"\n".join(lines)`. */
  function JoinLines(lines: seq<string>): string {
    if |lines| == 0 then []
    else if |lines| == 1 then lines[0]
    else lines[0] + "\n" + JoinLines(lines[1..])
  }

  /**
   * Splitting undoes joining with `\n`, provided no line holds a boundary and the last
   * line is not empty (an empty last line would be taken for a trailing boundary).
   */
  lemma {:induction false} SplitJoin(lines: seq<string>)
    requires forall n :: 0 <= n < |lines| ==> IsLine(lines[n])
    requires |lines| > 0 ==> |lines[|lines| - 1]| > 0
    ensures SplitLines(JoinLines(lines)) == lines
  {
    if |lines| == 1 {
      var s := lines[0];
      LineEndOfLine(s, []);
      assert s + [] == s;
    } else if |lines| > 1 {
      SplitLinesCons(lines[0], "\n", JoinLines(lines[1..]));
      SplitJoin(lines[1..]);
      assert [lines[0]] + lines[1..] == lines;
    }
  }

  /** The first boundary of `line + t` is where `t` starts, when `t` starts with one. */
  lemma {:induction false} LineEndOfLine(line: string, t: string)
    requires IsLine(line)
    requires |t| == 0 || IsLineBreak(t[0])
    ensures LineEnd(line + t) == |line|
    decreases |line|
  {
    if |line| > 0 {
      assert (line + t)[1..] == line[1..] + t;
      LineEndOfLine(line[1..], t);
    } else {
      assert line + t == t;
    }
  }
}
