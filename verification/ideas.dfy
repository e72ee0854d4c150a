/**
 * The parsing tail of `call_gemini`: the response text is split into lines, every line
 * numbered like `3. text` yields its text stripped, empty and repeated ideas are
 * dropped (first occurrence wins), and at most eight are returned.
 */
module Ideas {
  import opened Wrappers
  import opened CharClasses
  import opened PyStrings

  /** The slice `ideas[:8]` of the return statement. */
  const MaxIdeas: nat := 8

  /**
   * `line` reads as optional whitespace, one or more digits, a dot, and a non-empty
   * remainder: positions `i` (first digit) and `j` (the dot) witness it.
   */
  ghost predicate MarkedAt(line: string, i: int, j: int) {
    0 <= i < j && j + 1 < |line| && line[j] == '.'
    && (forall k :: 0 <= k < i ==> IsSpace(line[k]))
    && (forall k :: i <= k < j ==> IsDigit(line[k]))
  }

  ghost predicate HasMarker(line: string) {
    exists i, j :: MarkedAt(line, i, j)
  }

  predicate IsNotNewline(c: char) {
    c != '\n'
  }

  /** Index of the last character of `s` that is not `\n`, if any. */
  function LastNonNewline(s: string): (r: Option<nat>)
    ensures r.Some? ==> r.value < |s| && s[r.value] != '\n'
    ensures r.Some? ==> forall k :: r.value < k < |s| ==> s[k] == '\n'
    ensures r.None? ==> forall k :: 0 <= k < |s| ==> s[k] == '\n'
  {
    if |s| == 0 then None
    else if s[|s| - 1] != '\n' then Some(|s| - 1)
    else LastNonNewline(s[..|s| - 1])
  }

  /**
   * Group 1 of `\s*(.+)` matched at the start of `tail`, or None. `\s*` is greedy; when it
   * has swallowed everything, it gives characters back until `(.+)` — which does not
   * match `\n` — finds one; `(.+)` then takes the greedy run up to the next `\n`.
   */
  function RemainderGroup(tail: string): (r: Option<string>)
    ensures r.Some? ==> |r.value| > 0 && |tail| > 0
  {
    var b := LeadingCount(tail, IsSpace);
    if b < |tail| then
      var rest := tail[b..];
      Some(rest[..LeadingCount(rest, IsNotNewline)])
    else
      match LastNonNewline(tail)
      case None => None
      case Some(j) => Some(tail[j..j + 1])
  }

  /**
   * Group 1 of `re.match(r"^\s*\d+\.\s*(.+)", line)`, or None when the pattern fails.
   * `\s` and `\d` are disjoint and `\d` never matches `.`, so neither `^\s*` nor `\d+`
   * can usefully give characters back: only the `\s*` after the dot backtracks.
   */
  function MarkerMatch(line: string): (r: Option<string>)
    ensures r.Some? ==> HasMarker(line)
    ensures r.Some? ==> |r.value| > 0
  {
    var a := LeadingCount(line, IsSpace);
    var rest := line[a..];
    var d := LeadingCount(rest, IsDigit);
    if d == 0 || d >= |rest| || rest[d] != '.' then None
    else
      var g := RemainderGroup(rest[d + 1..]);
      if g.Some? then MarkerWitness(line, a, d); g else g
  }

  /** The runs `MarkerMatch` measures witness `MarkedAt` once a remainder follows the dot. */
  lemma MarkerWitness(line: string, a: nat, d: nat)
    requires 0 < d && a + d + 1 < |line|
    requires forall k :: 0 <= k < a ==> IsSpace(line[k])
    requires forall k :: 0 <= k < d ==> IsDigit(line[a..][k])
    requires line[a..][d] == '.'
    ensures MarkedAt(line, a, a + d)
  {
    var rest := line[a..];
    assert line[a + d] == rest[d];
    forall k | a <= k < a + d ensures IsDigit(line[k]) {
      assert line[k] == rest[k - a];
    }
  }

  /** The stripped text a line offers as an idea (possibly empty), or None if unnumbered. */
  function Idea(line: string): (r: Option<string>)
    ensures r.Some? ==> IsStripped(r.value)
  {
    match MarkerMatch(line)
    case None => None
    case Some(g) => Some(Strip(g))
  }

  /** Without newlines, `(.+)` takes everything after the leading whitespace. */
  lemma GroupAfterSpace(tail: string, b: nat)
    requires b == LeadingCount(tail, IsSpace) && b < |tail|
    requires LeadingCount(tail[b..], IsNotNewline) == |tail| - b
    ensures RemainderGroup(tail) == Some(tail[b..])
  {
    var rest := tail[b..];
    var e := LeadingCount(rest, IsNotNewline);
    assert RemainderGroup(tail) == Some(rest[..e]);
    assert rest[..e] == rest;
  }

  /** In newline-free text, `.+` from any position runs to the end. */
  lemma WholeLineRun(tail: string, b: nat)
    requires b <= |tail| && forall k :: 0 <= k < |tail| ==> tail[k] != '\n'
    ensures LeadingCount(tail[b..], IsNotNewline) == |tail| - b
  {
    var t := tail[b..];
    forall i | 0 <= i < |t| ensures IsNotNewline(t[i]) {
      assert t[i] == tail[b + i];
    }
    LeadingCountIs(t, IsNotNewline, |t|);
  }

  /** Without newlines, an all-whitespace remainder gives back its last character. */
  lemma GroupOfAllSpace(tail: string)
    requires |tail| > 0 && AllSpace(tail)
    requires forall k :: 0 <= k < |tail| ==> tail[k] != '\n'
    ensures RemainderGroup(tail) == Some(tail[|tail| - 1..])
  {
    LeadingCountIs(tail, IsSpace, |tail|);
    var j := |tail| - 1;
    assert LastNonNewline(tail) == Some(j);
    assert tail[j..j + 1] == tail[j..];
  }

  /** Without newlines, `\s*(.+)` matches any non-empty remainder, and stripping undoes `\s*`. */
  lemma RemainderGroupStrip(tail: string)
    requires |tail| > 0 && forall k :: 0 <= k < |tail| ==> tail[k] != '\n'
    ensures RemainderGroup(tail).Some?
    ensures Strip(RemainderGroup(tail).value) == Strip(tail)
  {
    var b := LeadingCount(tail, IsSpace);
    if b < |tail| {
      WholeLineRun(tail, b);
      GroupAfterSpace(tail, b);
      assert tail == tail[..b] + tail[b..];
      StripIgnoresLeadingSpace(tail[..b], tail[b..]);
    } else {
      GroupOfAllSpace(tail);
      AllSpaceStripsToEmpty(tail[|tail| - 1..]);
      assert tail[..b] == tail;
      AllSpaceStripsToEmpty(tail);
    }
  }

  /** A numbered line offers its remainder after the dot, stripped. */
  lemma MarkedLineIdea(line: string, i: int, j: int)
    requires '\n' !in line && MarkedAt(line, i, j)
    ensures Idea(line) == Some(Strip(line[j + 1..]))
  {
    MarkerPrefix(line, i, j);
    var rest := line[i..];
    assert rest[j - i] == '.';
    var tail := line[j + 1..];
    assert rest[j - i + 1..] == tail;
    assert MarkerMatch(line) == RemainderGroup(tail);
    assert forall k :: 0 <= k < |tail| ==> tail[k] != '\n' by {
      forall k | 0 <= k < |tail| ensures tail[k] != '\n' {
        assert tail[k] == line[j + 1 + k];
      }
    }
    RemainderGroupStrip(tail);
  }

  /** On a numbered line the leading whitespace and digits end where the witnesses say. */
  lemma MarkerPrefix(line: string, i: int, j: int)
    requires MarkedAt(line, i, j)
    ensures LeadingCount(line, IsSpace) == i
    ensures LeadingCount(line[i..], IsDigit) == j - i
  {
    MarkerClassesDisjoint(line[i]);
    LeadingCountIs(line, IsSpace, i);
    var rest := line[i..];
    forall k | 0 <= k < j - i ensures IsDigit(rest[k]) {
      assert rest[k] == line[i + k];
    }
    assert rest[j - i] == '.';
    MarkerClassesDisjoint('.');
    LeadingCountIs(rest, IsDigit, j - i);
  }

  /** Within one line, the pattern matches exactly the numbered lines. */
  lemma MarkerMatchIff(line: string)
    requires '\n' !in line
    ensures MarkerMatch(line).Some? <==> HasMarker(line)
  {
    if HasMarker(line) {
      var i, j :| MarkedAt(line, i, j);
      MarkedLineIdea(line, i, j);
    }
  }

  /** What each line offers: the stripped group of its match, or None. */
  function Offers(lines: seq<string>): (r: seq<Option<string>>)
    ensures |r| == |lines|
    ensures forall k :: 0 <= k < |lines| ==> r[k] == Idea(lines[k])
  {
    seq(|lines|, k requires 0 <= k < |lines| => Idea(lines[k]))
  }

  /** One pass of the loop body: keep the offered idea if it is non-empty and new. */
  function Step(ideas: seq<string>, offer: Option<string>): (r: seq<string>)
    ensures IsPrefix(ideas, r) && |r| <= |ideas| + 1
    ensures |r| == |ideas| + 1 <==> offer.Some? && offer.value != [] && offer.value !in ideas
    ensures |r| == |ideas| + 1 ==> r[|ideas|] == offer.value
    ensures Distinct(ideas) ==> Distinct(r)
  {
    match offer
    case Some(idea) => if idea != [] && idea !in ideas then ideas + [idea] else ideas
    case None => ideas
  }

  /** The `for line in content.splitlines()` loop, from the list built so far. */
  function Collect(ideas: seq<string>, offers: seq<Option<string>>): (r: seq<string>)
    ensures IsPrefix(ideas, r) && |r| <= |ideas| + |offers|
    ensures Distinct(ideas) ==> Distinct(r)
    decreases |offers|
  {
    if |offers| == 0 then ideas
    else
      var next := Step(ideas, offers[0]);
      var r := Collect(next, offers[1..]);
      assert r[..|ideas|] == next[..|next|][..|ideas|];
      r
  }

  /** Python `ideas[:n]`. */
  function Take(xs: seq<string>, n: nat): (r: seq<string>)
    ensures |r| <= n && IsPrefix(r, xs)
    ensures |r| == if |xs| <= n then |xs| else n
    ensures |xs| <= n ==> r == xs
  {
    if |xs| <= n then xs else xs[..n]
  }

  predicate IsPrefix(r: seq<string>, xs: seq<string>) {
    |r| <= |xs| && r == xs[..|r|]
  }

  predicate Distinct(xs: seq<string>) {
    forall i, j :: 0 <= i < j < |xs| ==> xs[i] != xs[j]
  }

  /** The non-empty ideas the lines of `content` offer, in line order, repeats included. */
  function IdeasOffered(content: string): seq<string> {
    Candidates(Offers(SplitLines(content)))
  }

  /** The ideas of `call_gemini`, computed from the response text `content`. */
  function ParseIdeas(content: string): (r: seq<string>)
    ensures |r| <= MaxIdeas
    ensures Distinct(r)
    ensures forall n :: 0 <= n < |r| ==> |r[n]| > 0 && IsStripped(r[n])
    ensures IsPrefix(r, Dedup(IdeasOffered(content)))
    ensures |r| < MaxIdeas ==> forall x :: x in IdeasOffered(content) ==> x in r
  {
    Select(Offers(SplitLines(content)))
  }

  /** The loop over the offers of the lines, then the cut to `MaxIdeas`. */
  function Select(offers: seq<Option<string>>): (r: seq<string>)
    requires forall k :: 0 <= k < |offers| && offers[k].Some? ==> IsStripped(offers[k].value)
    ensures |r| <= MaxIdeas
    ensures Distinct(r)
    ensures forall n :: 0 <= n < |r| ==> |r[n]| > 0 && IsStripped(r[n])
    ensures IsPrefix(r, Dedup(Candidates(offers)))
    ensures |r| < MaxIdeas ==> forall x :: x in Candidates(offers) ==> x in r
  {
    var d := Dedup(Candidates(offers));
    var r := Take(Collect([], offers), MaxIdeas);
    assert r == Take(d, MaxIdeas) by {
      CollectFromEmpty(offers);
    }
    assert Distinct(r) && forall x :: x in r ==> x in d by {
      TakeOfDistinct(d, MaxIdeas);
    }
    assert |r| < MaxIdeas ==> forall x :: x in Candidates(offers) ==> x in r by {
      TakeOfDistinct(d, MaxIdeas);
    }
    assert forall n :: 0 <= n < |r| ==> |r[n]| > 0 && IsStripped(r[n]) by {
      DedupOfStripped(offers);
      forall n | 0 <= n < |r| ensures |r[n]| > 0 && IsStripped(r[n]) {
        assert r[n] in d;
      }
    }
    r
  }

  /** A prefix of a repetition-free list is repetition-free, and holds everything when short. */
  lemma TakeOfDistinct(xs: seq<string>, n: nat)
    requires Distinct(xs)
    ensures Distinct(Take(xs, n))
    ensures forall x :: x in Take(xs, n) ==> x in xs
    ensures |Take(xs, n)| < n ==> forall x :: x in xs ==> x in Take(xs, n)
  {
    var r := Take(xs, n);
    assert forall k :: 0 <= k < |r| ==> r[k] == xs[k];
  }

  /** The loop, started from the empty list, computes the reference deduplication. */
  lemma CollectFromEmpty(offers: seq<Option<string>>)
    ensures Collect([], offers) == Dedup(Candidates(offers))
  {
    CollectIsDedup([], offers);
    assert [] + offers == offers;
  }

  /** Deduplicated candidates of stripped offers are non-empty and stripped. */
  lemma DedupOfStripped(offers: seq<Option<string>>)
    requires forall k :: 0 <= k < |offers| && offers[k].Some? ==> IsStripped(offers[k].value)
    ensures forall x :: x in Dedup(Candidates(offers)) ==> |x| > 0 && IsStripped(x)
  {
    var c := Candidates(offers);
    CandidatesStripped(offers);
    assert forall x :: x in c ==> |x| > 0;
  }

  // ---------------------------------------------------------------------------
  // Reference definitions

  /** The non-empty offered ideas, in order, repeats included. */
  function Candidates(offers: seq<Option<string>>): (r: seq<string>)
    ensures forall n :: 0 <= n < |r| ==> |r[n]| > 0
  {
    if |offers| == 0 then []
    else
      var init := Candidates(offers[..|offers| - 1]);
      match offers[|offers| - 1]
      case Some(x) => if x != [] then init + [x] else init
      case None => init
  }

  /** Candidates are stripped when every offer is. */
  lemma {:induction false} CandidatesStripped(offers: seq<Option<string>>)
    requires forall k :: 0 <= k < |offers| && offers[k].Some? ==> IsStripped(offers[k].value)
    ensures forall x :: x in Candidates(offers) ==> IsStripped(x)
    decreases |offers|
  {
    if |offers| > 0 {
      var init := offers[..|offers| - 1];
      assert forall k :: 0 <= k < |init| ==> init[k] == offers[k];
      CandidatesStripped(init);
    }
  }

  /** Every non-empty offer is a candidate. */
  lemma {:induction false} CandidatesComplete(offers: seq<Option<string>>, k: nat)
    requires k < |offers| && offers[k].Some? && offers[k].value != []
    ensures offers[k].value in Candidates(offers)
    decreases |offers|
  {
    var init := offers[..|offers| - 1];
    if k < |offers| - 1 {
      assert init[k] == offers[k];
      CandidatesComplete(init, k);
    }
  }

  /** Every candidate is some non-empty offer. */
  lemma {:induction false} CandidatesSound(offers: seq<Option<string>>, x: string)
    requires x in Candidates(offers)
    ensures exists k :: 0 <= k < |offers| && offers[k] == Some(x) && x != []
    decreases |offers|
  {
    var init := offers[..|offers| - 1];
    if x in Candidates(init) {
      CandidatesSound(init, x);
      var k :| 0 <= k < |init| && init[k] == Some(x) && x != [];
      assert init[k] == offers[k];
    } else {
      assert offers[|offers| - 1] == Some(x) && x != [];
    }
  }

  /** First occurrences of `xs`, in order. */
  function Dedup(xs: seq<string>): (r: seq<string>)
    ensures Distinct(r)
    ensures forall x :: x in r <==> x in xs
  {
    if |xs| == 0 then []
    else
      var init := xs[..|xs| - 1];
      var last := xs[|xs| - 1];
      assert xs == init + [last];
      if last in init then Dedup(init) else Dedup(init) + [last]
  }

  /** The loop, run from the deduplicated ideas of the offers already seen, finishes the job. */
  lemma {:induction false} CollectIsDedup(done: seq<Option<string>>, rest: seq<Option<string>>)
    ensures Collect(Dedup(Candidates(done)), rest) == Dedup(Candidates(done + rest))
    decreases |rest|
  {
    if |rest| == 0 {
      assert done + rest == done;
    } else {
      var next := done + [rest[0]];
      assert done + rest == next + rest[1..];
      StepIsDedup(done, rest[0]);
      CollectIsDedup(next, rest[1..]);
    }
  }

  /** One loop step extends the deduplicated ideas by the next offer. */
  lemma StepIsDedup(done: seq<Option<string>>, offer: Option<string>)
    ensures Step(Dedup(Candidates(done)), offer) == Dedup(Candidates(done + [offer]))
  {
    var next := done + [offer];
    assert next[..|next| - 1] == done;
    var c := Candidates(done);
    match offer
    case None =>
    case Some(x) =>
      if x != [] {
        assert Candidates(next) == c + [x];
        assert (c + [x])[..|c|] == c;
      }
  }

  /** Position of the first `x` in `xs`. */
  function FirstIndex(xs: seq<string>, x: string): (k: nat)
    requires x in xs
    ensures k < |xs| && xs[k] == x
    ensures forall m :: 0 <= m < k ==> xs[m] != x
  {
    if xs[0] == x then 0 else 1 + FirstIndex(xs[1..], x)
  }

  /** Appending never moves a first occurrence. */
  lemma FirstIndexAppend(xs: seq<string>, y: string, x: string)
    requires x in xs
    ensures FirstIndex(xs + [y], x) == FirstIndex(xs, x)
  {
    var k := FirstIndex(xs, x);
    assert (xs + [y])[k] == x;
  }

  /** Deduplication lists the values in the order of their first occurrence. */
  lemma {:induction false} DedupOrder(xs: seq<string>, i: nat, j: nat)
    requires i < j < |Dedup(xs)|
    ensures FirstIndex(xs, Dedup(xs)[i]) < FirstIndex(xs, Dedup(xs)[j])
    decreases |xs|
  {
    var init := xs[..|xs| - 1];
    var last := xs[|xs| - 1];
    assert xs == init + [last];
    var d := Dedup(init);
    assert d[i] in init;
    FirstIndexAppend(init, last, d[i]);
    if j < |d| {
      assert d[j] in init;
      FirstIndexAppend(init, last, d[j]);
      DedupOrder(init, i, j);
    } else {
      assert Dedup(xs)[j] == last && last !in init;
      assert FirstIndex(xs, last) == |xs| - 1 by {
        assert forall m :: 0 <= m < |xs| - 1 ==> xs[m] == init[m];
      }
    }
  }

  /** Ideas are returned in the order in which each first appears in the response. */
  lemma ParseIdeasOrder(content: string, i: nat, j: nat)
    requires i < j < |ParseIdeas(content)|
    ensures var c := IdeasOffered(content);
            var r := ParseIdeas(content);
            r[i] in c && r[j] in c && FirstIndex(c, r[i]) < FirstIndex(c, r[j])
  {
    var c := IdeasOffered(content);
    var r := ParseIdeas(content);
    assert r[i] == Dedup(c)[i] && r[j] == Dedup(c)[j];
    DedupOrder(c, i, j);
  }

  /** The result is empty exactly when no line offers a non-empty idea. */
  lemma ParseIdeasEmptyIff(content: string)
    ensures ParseIdeas(content) == [] <==> IdeasOffered(content) == []
  {
    var c := IdeasOffered(content);
    if c != [] {
      assert c[0] in c;
    }
  }

  /** Text in which no line is numbered yields no ideas. */
  lemma UnnumberedTextHasNoIdeas(content: string)
    requires forall k :: 0 <= k < |SplitLines(content)| ==> !HasMarker(SplitLines(content)[k])
    ensures ParseIdeas(content) == []
  {
    var lines := SplitLines(content);
    var c := IdeasOffered(content);
    if c != [] {
      CandidatesSound(Offers(lines), c[0]);
    }
    ParseIdeasEmptyIff(content);
  }

  /** Every idea starts and ends with a character that is not a line boundary: stripping removed them. */
  lemma IdeaEdgesNotBreaks(content: string)
    ensures forall n :: 0 <= n < |ParseIdeas(content)| ==>
      !IsLineBreak(ParseIdeas(content)[n][0]) && !IsLineBreak(ParseIdeas(content)[n][|ParseIdeas(content)[n]| - 1])
  {
    var r := ParseIdeas(content);
    forall n | 0 <= n < |r| ensures !IsLineBreak(r[n][0]) && !IsLineBreak(r[n][|r[n]| - 1]) {
      if IsLineBreak(r[n][0]) {
        LineBreakIsSpace(r[n][0]);
      }
      if IsLineBreak(r[n][|r[n]| - 1]) {
        LineBreakIsSpace(r[n][|r[n]| - 1]);
      }
    }
  }

  /**
   * `call_gemini` once the prompt is sent: `response` is the reply text, or None when
   * creating the model, the request or reading `.text` raised (printed, then `[]`).
   */
  function CallGemini(response: Option<string>): (r: seq<string>)
    ensures |r| <= MaxIdeas && Distinct(r)
    ensures forall n :: 0 <= n < |r| ==> |r[n]| > 0 && IsStripped(r[n])
    ensures r != [] ==> response.Some? && IdeasOffered(response.value) != []
    ensures response.Some? ==> IsPrefix(r, Dedup(IdeasOffered(response.value)))
    ensures response.Some? && |r| < MaxIdeas ==>
      forall x :: x in IdeasOffered(response.value) ==> x in r
  {
    match response
    case None => []
    case Some(content) =>
      ParseIdeasEmptyIff(content);
      ParseIdeas(content)
  }

  // ---------------------------------------------------------------------------
  // Examples

  lemma MarkedOneDot()
    ensures MarkedAt("1.2. foo", 0, 1)
    ensures MarkedAt("1.   ", 0, 1)
  {
    assert "1.2. foo"[0..1] == "1";
    assert "1.   "[0..1] == "1";
    assert IsDigit('1');
  }

  lemma StrippedTwoDotFoo()
    ensures Strip("2. foo") == "2. foo"
  {
    assert IsStripped("2. foo");
    StrippedIsFixed("2. foo");
  }

  /** Only the first number-dot marker is consumed: `"1.2. foo"` offers `"2. foo"`. */
  lemma FirstMarkerOnly()
    ensures Idea("1.2. foo") == Some("2. foo")
  {
    MarkedOneDot();
    MarkedLineIdea("1.2. foo", 0, 1);
    assert "1.2. foo"[2..] == "2. foo";
    StrippedTwoDotFoo();
  }

  /** Content of one line yields that line's idea, or nothing when the idea is empty. */
  lemma SingleLineContent(line: string)
    requires |line| > 0 && IsLine(line)
    ensures ParseIdeas(line) == match Idea(line) case Some(x) => if x != [] then [x] else [] case None => []
  {
    SingleLine(line);
    var o := Idea(line);
    assert Offers([line]) == [o];
    assert Collect([], [o]) == Collect(Step([], o), []);
  }

  lemma ParseFirstMarkerOnly()
    ensures ParseIdeas("1.2. foo") == ["2. foo"]
  {
    var line := "1.2. foo";
    assert IsLine(line);
    assert Idea(line) == Some("2. foo") && |"2. foo"| == 6 by {
      FirstMarkerOnly();
    }
    SingleLineContent(line);
  }

  /** A marker followed by nothing but whitespace offers the empty idea. */
  lemma BlankRemainder(line: string, i: int, j: int)
    requires '\n' !in line && MarkedAt(line, i, j) && AllSpace(line[j + 1..])
    ensures Idea(line) == Some([])
  {
    MarkedLineIdea(line, i, j);
    AllSpaceStripsToEmpty(line[j + 1..]);
  }

  /** A marker followed only by spaces offers an empty idea, which is dropped. */
  lemma BlankIdeaDropped()
    ensures ParseIdeas("1.   ") == []
  {
    var line := "1.   ";
    assert IsLine(line);
    MarkedOneDot();
    assert AllSpace(line[2..]);
    BlankRemainder(line, 0, 1);
    SingleLineContent(line);
  }

  /** Bulleted and "Idea 1:" lines are not numbered ideas. */
  lemma UnnumberedLinesIgnored()
    ensures Idea("- foo") == None
    ensures Idea("Idea 1: foo") == None
  {
    LeadingCountIs("- foo", IsSpace, 0);
    LeadingCountIs("- foo", IsDigit, 0);
    assert "- foo"[0..] == "- foo";
    LeadingCountIs("Idea 1: foo", IsSpace, 0);
    LeadingCountIs("Idea 1: foo", IsDigit, 0);
    assert "Idea 1: foo"[0..] == "Idea 1: foo";
  }
}
