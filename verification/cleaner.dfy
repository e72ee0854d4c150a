/**
 * `clean_text`: four regular-expression passes over the text, in a fixed order —
 * squeeze newline runs, delete characters outside the allowed alphabet, squeeze
 * space runs, strip surrounding whitespace.
 */
module Cleaner {
  import opened CharClasses
  import opened PyStrings

  /**
   * The complement of the deletion class of the second pass: `\x00-\x7F` (all ASCII,
   * which already covers `\n . , ; : ? ! % ( ) - _`), `¡`, `¿`, and `\s`.
   */
  predicate IsKept(c: char) {
    c as int <= 0x7F || c == '¡' || c == '¿' || IsSpace(c)
  }

  predicate AllKept(s: string) {
    forall i :: 0 <= i < |s| ==> IsKept(s[i])
  }

  /** `s` never has `c` twice in a row. */
  predicate NoRepeat(s: string, c: char) {
    forall i :: 0 <= i < |s| - 1 ==> !(s[i] == c && s[i + 1] == c)
  }

  /**
   * `re.sub(c{2,}, c, s)`, scanning left to right: where a run of two or more `c`
   * starts, the whole (greedy) run is replaced by one `c`; anything else is copied.
   */
  function CollapseRuns(s: string, c: char): (r: string)
    ensures |s| > 0 ==> |r| > 0 && r[0] == s[0]
    ensures |r| <= |s|
    ensures NoRepeat(r, c)
    ensures NoRepeat(s, c) ==> r == s
    ensures !NoRepeat(s, c) ==> |r| < |s|
    decreases |s|
  {
    if |s| == 0 then []
    else
      var k := LeadingCount(s, Is(c));
      if k >= 2 then
        assert s[0] == c && s[1] == c;
        [c] + CollapseRuns(s[k..], c)
      else
        assert !NoRepeat(s, c) ==> !NoRepeat(s[1..], c) by {
          if !NoRepeat(s, c) {
            var i :| 0 <= i < |s| - 1 && s[i] == c && s[i + 1] == c;
            assert i > 0;
            assert s[1..][i - 1] == s[i];
          }
        }
        [s[0]] + CollapseRuns(s[1..], c)
  }

  /**
   * Reference reading of the same substitution: a character is dropped exactly when it
   * is `c` and the next character is `c` too, so each run keeps one of its own members.
   */
  function DropRepeats(s: string, c: char): string {
    if |s| == 0 then []
    else (if |s| >= 2 && s[0] == c && s[1] == c then [] else [s[0]]) + DropRepeats(s[1..], c)
  }

  /** The run-by-run substitution and the per-character reading agree on every input. */
  lemma {:induction false} CollapseRunsIsDropRepeats(s: string, c: char)
    ensures CollapseRuns(s, c) == DropRepeats(s, c)
    decreases |s|
  {
    if |s| > 0 {
      var k := LeadingCount(s, Is(c));
      if k >= 2 {
        DropRepeatsRun(s, c, k);
        CollapseRunsIsDropRepeats(s[k..], c);
      } else {
        CollapseRunsIsDropRepeats(s[1..], c);
      }
    }
  }

  /** A run of exactly `k` copies of `c` at the front of `s` leaves one `c` behind. */
  lemma {:induction false} DropRepeatsRun(s: string, c: char, k: nat)
    requires 1 <= k <= |s|
    requires forall i :: 0 <= i < k ==> s[i] == c
    requires k < |s| ==> s[k] != c
    ensures DropRepeats(s, c) == [c] + DropRepeats(s[k..], c)
    decreases k
  {
    if k > 1 {
      DropRepeatsRun(s[1..], c, k - 1);
      assert s[1..][k - 1..] == s[k..];
    }
  }

  /** `s` with every `c` removed. */
  function Without(s: string, c: char): string {
    if |s| == 0 then [] else (if s[0] == c then [] else [s[0]]) + Without(s[1..], c)
  }

  /** Squeezing runs of `c` touches nothing but `c`: tabs, `\r` and every other character stay. */
  lemma {:induction false} CollapseRunsOnlyTouches(s: string, c: char)
    ensures Without(CollapseRuns(s, c), c) == Without(s, c)
  {
    CollapseRunsIsDropRepeats(s, c);
    DropRepeatsOnlyTouches(s, c);
  }

  lemma {:induction false} DropRepeatsOnlyTouches(s: string, c: char)
    ensures Without(DropRepeats(s, c), c) == Without(s, c)
    decreases |s|
  {
    if |s| > 0 {
      DropRepeatsOnlyTouches(s[1..], c);
      var head := if |s| >= 2 && s[0] == c && s[1] == c then [] else [s[0]];
      WithoutAppend(head, DropRepeats(s[1..], c), c);
    }
  }

  lemma {:induction false} WithoutAppend(a: string, b: string, c: char)
    ensures Without(a + b, c) == Without(a, c) + Without(b, c)
    decreases |a|
  {
    if |a| == 0 {
      assert a + b == b;
    } else {
      assert (a + b)[1..] == a[1..] + b;
      WithoutAppend(a[1..], b, c);
    }
  }

  /** Squeezing runs of `c` never puts two copies of another character `d` side by side. */
  lemma {:induction false} CollapseRunsKeepsNoRepeat(s: string, c: char, d: char)
    requires c != d && NoRepeat(s, d)
    ensures NoRepeat(CollapseRuns(s, c), d)
    decreases |s|
  {
    if |s| > 0 {
      var k := LeadingCount(s, Is(c));
      if k >= 2 {
        assert NoRepeat(s[k..], d) by {
          forall i | 0 <= i < |s[k..]| - 1 ensures !(s[k..][i] == d && s[k..][i + 1] == d) {
            assert s[k..][i] == s[k + i] && s[k..][i + 1] == s[k + i + 1];
          }
        }
        CollapseRunsKeepsNoRepeat(s[k..], c, d);
      } else {
        assert NoRepeat(s[1..], d) by {
          forall i | 0 <= i < |s[1..]| - 1 ensures !(s[1..][i] == d && s[1..][i + 1] == d) {
            assert s[1..][i] == s[1 + i] && s[1..][i + 1] == s[1 + i + 1];
          }
        }
        CollapseRunsKeepsNoRepeat(s[1..], c, d);
      }
    }
  }

  /**
   * The second pass, `re.sub("[^...]+", "", s)`: deleting every maximal run of
   * characters outside the allowed class deletes exactly those characters.
   */
  function RemoveDisallowed(s: string): (r: string)
    ensures AllKept(r)
    ensures IsSubseq(r, s)
    ensures AllKept(s) ==> r == s
    decreases |s|
  {
    if |s| == 0 then []
    else
      var rest := RemoveDisallowed(s[1..]);
      assert AllKept(s) ==> AllKept(s[1..]) by {
        if AllKept(s) {
          forall i | 0 <= i < |s[1..]| ensures IsKept(s[1..][i]) { assert s[1..][i] == s[i + 1]; }
        }
      }
      if IsKept(s[0]) then [s[0]] + rest
      else
        SubseqOfSuffix(rest, s, 1);
        rest
  }

  /** Nothing allowed is lost: every allowed-alphabet subsequence of `s` survives the pass. */
  lemma {:induction false} RemoveDisallowedIsMaximal(t: string, s: string)
    requires IsSubseq(t, s) && AllKept(t)
    ensures IsSubseq(t, RemoveDisallowed(s))
    decreases |s|
  {
    if |t| > 0 {
      assert AllKept(t[1..]) by {
        forall i | 0 <= i < |t[1..]| ensures IsKept(t[1..][i]) { assert t[1..][i] == t[i + 1]; }
      }
      if IsKept(s[0]) {
        if t[0] == s[0] && IsSubseq(t[1..], s[1..]) {
          RemoveDisallowedIsMaximal(t[1..], s[1..]);
        } else {
          RemoveDisallowedIsMaximal(t, s[1..]);
        }
      } else {
        assert t[0] != s[0];
        RemoveDisallowedIsMaximal(t, s[1..]);
      }
    }
  }

  /** Characters of a subsequence of allowed text are allowed. */
  lemma SubseqKeepsAlphabet(t: string, s: string)
    requires IsSubseq(t, s) && AllKept(s)
    ensures AllKept(t)
  {
    SubseqChars(t, s);
  }

  /** A contiguous piece of text without repeated `c` has none either. */
  lemma NoRepeatInfix(s: string, i: nat, j: nat, c: char)
    requires i <= j <= |s| && NoRepeat(s, c)
    ensures NoRepeat(s[i..j], c)
  {
    forall n | 0 <= n < |s[i..j]| - 1 ensures !(s[i..j][n] == c && s[i..j][n + 1] == c) {
      assert s[i..j][n] == s[i + n] && s[i..j][n + 1] == s[i + n + 1];
    }
  }

  lemma AllKeptInfix(s: string, i: nat, j: nat)
    requires i <= j <= |s| && AllKept(s)
    ensures AllKept(s[i..j])
  {
    forall n | 0 <= n < |s[i..j]| ensures IsKept(s[i..j][n]) {
      assert s[i..j][n] == s[i + n];
    }
  }

  /** Result of the first three passes, before the final `strip()`. */
  function Squeezed(s: string): (r: string)
    ensures IsSubseq(r, s)
    ensures AllKept(r)
    ensures NoRepeat(r, ' ')
  {
    var a := CollapseRuns(s, '\n');
    var b := RemoveDisallowed(a);
    CollapseRunsIsSubseq(s, '\n');
    CollapseRunsIsSubseq(b, ' ');
    SubseqTrans(b, a, s);
    SubseqTrans(CollapseRuns(b, ' '), b, s);
    SubseqKeepsAlphabet(CollapseRuns(b, ' '), b);
    CollapseRuns(b, ' ')
  }

  /**
   * `clean_text(text)`: the output is obtained from the input by deleting characters,
   * holds only allowed characters, never two spaces in a row, and no edge whitespace.
   */
  function CleanText(s: string): (r: string)
    ensures IsSubseq(r, s) && |r| <= |s|
    ensures AllKept(r)
    ensures NoRepeat(r, ' ')
    ensures IsStripped(r)
  {
    var c := Squeezed(s);
    StripIsSubseq(c);
    SubseqTrans(Strip(c), c, s);
    SubseqLength(Strip(c), s);
    StripKeepsAlphabet(c);
    StripKeepsNoRepeat(c, ' ');
    Strip(Squeezed(s))
  }

  /** Stripping cannot bring two equal characters together. */
  lemma StripKeepsNoRepeat(s: string, c: char)
    requires NoRepeat(s, c)
    ensures NoRepeat(Strip(s), c)
  {
    var k, t := StripOffset(s), Strip(s);
    NoRepeatInfix(s, k, k + |t|, c);
    assert t == s[k..k + |t|];
  }

  /** Stripping keeps text inside the allowed alphabet. */
  lemma StripKeepsAlphabet(s: string)
    requires AllKept(s)
    ensures AllKept(Strip(s))
  {
    var k := StripOffset(s);
    AllKeptInfix(s, k, k + |Strip(s)|);
  }

  /** Squeezing runs only deletes characters. */
  lemma {:induction false} CollapseRunsIsSubseq(s: string, c: char)
    ensures IsSubseq(CollapseRuns(s, c), s)
    decreases |s|
  {
    if |s| > 0 {
      var k := LeadingCount(s, Is(c));
      if k >= 2 {
        CollapseRunsIsSubseq(s[k..], c);
        assert s[1..][k - 1..] == s[k..];
        SubseqOfSuffix(CollapseRuns(s[k..], c), s[1..], k - 1);
      } else {
        CollapseRunsIsSubseq(s[1..], c);
      }
    }
  }

  /**
   * `clean_text` returns its input unchanged exactly when the input is already clean:
   * allowed alphabet, no `\n\n`, no two spaces, no edge whitespace.
   */
  lemma CleanFixpoint(s: string)
    ensures CleanText(s) == s <==>
      AllKept(s) && NoRepeat(s, '\n') && NoRepeat(s, ' ') && IsStripped(s)
  {
    if AllKept(s) && NoRepeat(s, '\n') && NoRepeat(s, ' ') && IsStripped(s) {
      CleanOfClean(s);
    }
    if CleanText(s) == s {
      FixedHasNoNewlineRepeat(s);
    }
  }

  /** Text that is already clean comes back unchanged: no pass finds anything to do. */
  lemma CleanOfClean(s: string)
    requires AllKept(s) && NoRepeat(s, '\n') && NoRepeat(s, ' ') && IsStripped(s)
    ensures CleanText(s) == s
  {
    assert Squeezed(s) == s by {
      assert CollapseRuns(s, '\n') == s;
      assert RemoveDisallowed(s) == s;
    }
    StrippedIsFixed(s);
  }

  /** If cleaning leaves `s` alone, `s` had no `\n\n`: squeezing one would shorten it for good. */
  lemma FixedHasNoNewlineRepeat(s: string)
    requires CleanText(s) == s
    ensures NoRepeat(s, '\n')
  {
    var a := CollapseRuns(s, '\n');
    var b := RemoveDisallowed(a);
    var c := CollapseRuns(b, ' ');
    assert c == Squeezed(s);
    SubseqLength(b, a);
    assert |CleanText(s)| <= |c| <= |b| <= |a|;
  }

  /** A second cleaning changes the text exactly when the first left a `\n\n` behind. */
  lemma CleanTwiceIff(s: string)
    ensures CleanText(CleanText(s)) == CleanText(s) <==> NoRepeat(CleanText(s), '\n')
  {
    CleanFixpoint(CleanText(s));
  }

  /** On allowed-alphabet input, no pass after the first can join two newlines. */
  lemma CleanAllowedHasNoNewlineRepeat(s: string)
    requires AllKept(s)
    ensures NoRepeat(CleanText(s), '\n')
  {
    SqueezedAllowedHasNoNewlineRepeat(s);
    StripKeepsNoRepeat(Squeezed(s), '\n');
  }

  /** On allowed-alphabet input, the deletion pass finds nothing, so `\n\n` stays squeezed. */
  lemma SqueezedAllowedHasNoNewlineRepeat(s: string)
    requires AllKept(s)
    ensures NoRepeat(Squeezed(s), '\n')
  {
    var a := CollapseRuns(s, '\n');
    CollapseRunsIsSubseq(s, '\n');
    SubseqKeepsAlphabet(a, s);
    assert RemoveDisallowed(a) == a;
    CollapseRunsKeepsNoRepeat(a, ' ', '\n');
  }

  /**
   * On text already inside the allowed alphabet, newline squeezing happens with nothing
   * left to delete afterwards, so cleaning is idempotent.
   */
  lemma CleanIdempotentOnAllowed(s: string)
    requires AllKept(s)
    ensures CleanText(CleanText(s)) == CleanText(s)
  {
    CleanAllowedHasNoNewlineRepeat(s);
    CleanTwiceIff(s);
  }

  /** The second pass deletes the `é` of `"a\né\nb"`. */
  lemma ExampleDeletion()
    ensures RemoveDisallowed("a\né\nb") == "a\n\nb"
  {
    var s := "a\né\nb";
    assert !IsKept('é');
    assert RemoveDisallowed(s[4..]) == "b";
    assert RemoveDisallowed(s[3..]) == "\nb";
    assert RemoveDisallowed(s[2..]) == "\nb";
    assert RemoveDisallowed(s[1..]) == "\n\nb";
  }

  /** The passes that find nothing to do on `"a\né\nb"` and on what it becomes. */
  lemma ExampleUntouched()
    ensures CollapseRuns("a\né\nb", '\n') == "a\né\nb"
    ensures CollapseRuns("a\n\nb", ' ') == "a\n\nb"
    ensures Strip("a\n\nb") == "a\n\nb"
  {
    assert NoRepeat("a\né\nb", '\n');
    assert NoRepeat("a\n\nb", ' ');
    assert IsStripped("a\n\nb");
    StrippedIsFixed("a\n\nb");
  }

  /** Deleting the accented letter of `"a\né\nb"` joins its two newlines. */
  lemma DeletionJoinsNewlines()
    ensures CleanText("a\né\nb") == "a\n\nb"
  {
    ExampleUntouched();
    ExampleDeletion();
  }

  /** The first pass squeezes the joined newlines of `"a\n\nb"`. */
  lemma ExampleSqueeze()
    ensures CollapseRuns("a\n\nb", '\n') == "a\nb"
  {
    var t := "a\n\nb";
    CollapseRunsIsDropRepeats(t, '\n');
    assert DropRepeats(t[3..], '\n') == "b";
    assert DropRepeats(t[2..], '\n') == "\nb";
    assert DropRepeats(t[1..], '\n') == "\nb";
  }

  /** `"a\nb"` is clean already. */
  lemma ExampleClean()
    ensures RemoveDisallowed("a\nb") == "a\nb"
    ensures CollapseRuns("a\nb", ' ') == "a\nb"
    ensures Strip("a\nb") == "a\nb"
  {
    var u := "a\nb";
    assert AllKept(u) && NoRepeat(u, ' ');
    assert IsStripped(u);
    StrippedIsFixed(u);
  }

  /**
   * Deletion runs after newline squeezing, so deleting a character can join two
   * newlines: `"a\né\nb"` cleans to `"a\n\nb"`, which cleans again to `"a\nb"`.
   */
  lemma CleanNotIdempotent()
    ensures CleanText("a\né\nb") == "a\n\nb"
    ensures CleanText(CleanText("a\né\nb")) == "a\nb"
  {
    DeletionJoinsNewlines();
    ExampleSqueeze();
    ExampleClean();
  }

  /** Only space runs are squeezed: a run of tabs survives cleaning. */
  lemma CleanKeepsTabRuns()
    ensures CleanText("a\t\tb") == "a\t\tb"
  {
    var s := "a\t\tb";
    assert AllKept(s) && NoRepeat(s, '\n') && NoRepeat(s, ' ') && IsStripped(s);
    CleanOfClean(s);
  }
}
