/**
 * The tail of `call_deepseek`: the reply may wrap its JSON in a Markdown fence, so the
 * first block matched by ```` ```(?:json)?\n([\s\S]+?)``` ```` supplies the payload
 * (stripped); without one the whole reply, stripped, is the payload. The payload is
 * decoded and its `"questions"` entry returned; every failure gives `[]`.
 */
module Payload {
  import opened Wrappers
  import opened PyStrings

  /** A match of the fence pattern: where it starts and the body `[body, end)` it captures. */
  datatype Match = Match(start: nat, body: nat, end: nat)

  /** Three backticks start at `i`. */
  predicate FenceAt(s: string, i: int) {
    0 <= i && i + 3 <= |s| && s[i] == '`' && s[i + 1] == '`' && s[i + 2] == '`'
  }

  /**
   * Where the body would start if an opening fence ```` ``` ```` + optional `json` + `\n`
   * sits at `p`. The optional group is greedy, so `json` is tried first; the two forms
   * never both apply, because one needs `s[p + 3] == 'j'` and the other `'\n'`.
   */
  function OpenAt(s: string, p: nat): (r: Option<nat>)
    ensures r.Some? ==> FenceAt(s, p) && p + 4 <= r.value <= |s| && s[r.value - 1] == '\n'
    ensures r.Some? ==> r.value == p + 4 || (r.value == p + 8 && s[p + 3..p + 8] == "json\n")
    ensures FenceAt(s, p) && p + 4 <= |s| && s[p + 3] == '\n' ==> r == Some(p + 4)
    ensures FenceAt(s, p) && p + 8 <= |s| && s[p + 3..p + 8] == "json\n" ==> r == Some(p + 8)
  {
    if !FenceAt(s, p) then None
    else if p + 8 <= |s| && s[p + 3..p + 8] == "json\n" then Some(p + 8)
    else if p + 4 <= |s| && s[p + 3] == '\n' then Some(p + 4)
    else None
  }

  /** The first fence starting at or after `e`: the lazy `+?` stops at the first that fits. */
  function FenceFrom(s: string, e: nat): (r: Option<nat>)
    ensures r.Some? ==> e <= r.value && FenceAt(s, r.value)
    ensures r.Some? ==> forall k :: e <= k < r.value ==> !FenceAt(s, k)
    ensures r.None? ==> forall k :: e <= k ==> !FenceAt(s, k)
    decreases |s| - e
  {
    if e + 3 > |s| then None
    else if FenceAt(s, e) then Some(e)
    else FenceFrom(s, e + 1)
  }

  /**
   * A block matches at `p` with body `[b, e)`: an opening fence at `p` ends at `b`, the
   * body has at least one character, and `e` is the first fence from `b + 1` on.
   */
  ghost predicate MatchesAt(s: string, p: nat, b: nat, e: nat) {
    && OpenAt(s, p) == Some(b)
    && b + 1 <= e
    && FenceAt(s, e)
    && forall k :: b + 1 <= k < e ==> !FenceAt(s, k)
  }

  /** Some block matches at `p`: an opening fence there and a closing fence after a non-empty body. */
  ghost predicate OpensBlock(s: string, p: nat) {
    OpenAt(s, p).Some? && exists e :: OpenAt(s, p).value + 1 <= e && FenceAt(s, e)
  }

  /** `re.search` from position `p` on: the leftmost position where a block matches wins. */
  function SearchFrom(s: string, p: nat): (r: Option<Match>)
    ensures r.Some? ==> p <= r.value.start && MatchesAt(s, r.value.start, r.value.body, r.value.end)
    ensures r.Some? ==> forall q :: p <= q < r.value.start ==> !OpensBlock(s, q)
    ensures r.None? ==> forall q :: p <= q ==> !OpensBlock(s, q)
    decreases |s| + 1 - p
  {
    if p > |s| then
      assert forall q :: p <= q ==> OpenAt(s, q).None?;
      None
    else
      match OpenAt(s, p)
      case Some(b) =>
        (match FenceFrom(s, b + 1)
         case Some(e) => Some(Match(p, b, e))
         case None => SearchFrom(s, p + 1))
      case None => SearchFrom(s, p + 1)
  }

  /** A match at `p` means a block opens at `p`. */
  lemma MatchOpensBlock(s: string, p: nat, b: nat, e: nat)
    requires MatchesAt(s, p, b, e)
    ensures OpensBlock(s, p)
  {
    assert OpenAt(s, p).value + 1 <= e && FenceAt(s, e);
  }

  /** Stripping a contiguous piece of `s` leaves a contiguous piece of `s`. */
  lemma StripOfInfix(s: string, b: nat, e: nat)
    requires b <= e <= |s|
    ensures IsInfix(Strip(s[b..e]), s)
  {
    StripIsInfix(s[b..e]);
    InfixAt(s, b, e);
    InfixTrans(Strip(s[b..e]), s[b..e], s);
  }

  /** The `payload` of `call_deepseek`: the first fenced body, or else the whole reply, stripped. */
  function ExtractPayload(raw: string): (r: string)
    ensures IsStripped(r)
    ensures IsInfix(r, raw)
    ensures (forall q: nat :: !OpensBlock(raw, q)) ==> r == Strip(raw)
  {
    match SearchFrom(raw, 0)
    case Some(m) =>
      MatchOpensBlock(raw, m.start, m.body, m.end);
      StripOfInfix(raw, m.body, m.end);
      Strip(raw[m.body..m.end])
    case None =>
      StripIsInfix(raw);
      Strip(raw)
  }

  /**
   * The payload is determined declaratively: if a block matches at `p` with body `[b, e)`
   * and no earlier position opens a block, the payload is that body, stripped.
   */
  lemma PayloadOfLeftmostBlock(raw: string, p: nat, b: nat, e: nat)
    requires MatchesAt(raw, p, b, e)
    requires forall q: nat :: q < p ==> !OpensBlock(raw, q)
    ensures ExtractPayload(raw) == Strip(raw[b..e])
  {
    MatchOpensBlock(raw, p, b, e);
    var r := SearchFrom(raw, 0);
    assert r.Some?;
    var m := r.value;
    MatchOpensBlock(raw, m.start, m.body, m.end);
    assert m.start == p;
    assert m.body == b;
    assert m.end == e;
  }

  /** Only a `json` tag, or none, opens a block: ```` ```python\n ```` opens nothing. */
  lemma OtherTagDoesNotOpen(s: string, p: nat, tag: string)
    requires tag != [] && tag != "json" && '\n' !in tag
    requires p + 3 + |tag| < |s| && s[p..p + 3 + |tag| + 1] == "```" + tag + "\n"
    ensures OpenAt(s, p) == None
  {
    var n := |tag|;
    assert forall i :: 0 <= i < n ==> s[p + 3 + i] == tag[i] by {
      forall i | 0 <= i < n ensures s[p + 3 + i] == tag[i] {
        assert s[p + 3 + i] == s[p..p + 3 + n + 1][3 + i];
      }
    }
    assert s[p + 3 + n] == s[p..p + 3 + n + 1][3 + n];
    if p + 8 <= |s| {
      var w := s[p + 3..p + 8];
      if n < 4 {
        assert w[n] == '\n' != "json\n"[n];
      } else if n == 4 {
        assert exists i :: 0 <= i < 4 && tag[i] != "json"[i];
        var i :| 0 <= i < 4 && tag[i] != "json"[i];
        assert w[i] == tag[i];
      } else {
        assert w[4] == tag[4] && tag[4] != '\n';
      }
    }
    assert p + 3 < |s| && s[p + 3] == tag[0] && tag[0] != '\n';
  }

  /** Without any block the payload is the whole reply, stripped. */
  lemma PayloadWithoutBlock(raw: string)
    requires forall q: nat :: !FenceAt(raw, q)
    ensures ExtractPayload(raw) == Strip(raw)
  {
  }

  // ---------------------------------------------------------------------------
  // Decoding and result selection

  /** A value `json.loads` can produce; objects are Python dicts (later duplicate keys win). */
  datatype Json =
    | JObject(fields: map<string, Json>)
    | JArray(items: seq<Json>)
    | JString(text: string)
    | JNumber(literal: string)
    | JBool(truth: bool)
    | JNull

  /** The empty list `[]`, the function's fallback result. */
  const EmptyList: Json := JArray([])

  /**
   * `call_deepseek` after the request: `response` is the reply text, or None when the request,
   * `choices[0]` or the reply content failed; `decode` is `json.loads`, None when it raises.
   * `data.get("questions", [])` raises for anything but a dict, and that is caught too.
   */
  function CallDeepseek(response: Option<string>, decode: string -> Option<Json>): (r: Json)
    ensures r != EmptyList ==>
      && response.Some?
      && decode(ExtractPayload(response.value)).Some?
      && decode(ExtractPayload(response.value)).value.JObject?
      && "questions" in decode(ExtractPayload(response.value)).value.fields
      && decode(ExtractPayload(response.value)).value.fields["questions"] == r
    ensures response.Some? && decode(ExtractPayload(response.value)).Some? ==>
      var data := decode(ExtractPayload(response.value)).value;
      data.JObject? && "questions" in data.fields ==> r == data.fields["questions"]
  {
    match response
    case None => EmptyList
    case Some(raw) =>
      match decode(ExtractPayload(raw))
      case None => EmptyList
      case Some(data) =>
        match data
        case JObject(fields) => if "questions" in fields then fields["questions"] else EmptyList
        case _ => EmptyList
  }

  // ---------------------------------------------------------------------------
  // Examples

  lemma JsonFenceMatches()
    ensures MatchesAt("```json\n{}\n```", 0, 8, 11)
    ensures "```json\n{}\n```"[8..11] == "{}\n"
  {
    var s := "```json\n{}\n```";
    assert s[3..8] == "json\n";
    assert FenceAt(s, 11);
    assert forall k :: 9 <= k < 11 ==> !FenceAt(s, k);
  }

  lemma StripExamples()
    ensures Strip("{}\n") == "{}"
    ensures Strip("ab") == "ab"
  {
    assert Strip("{}\n") == "{}" by {
      var w: string := "\n";
      assert AllSpace(w);
      StripUnique([], "{}", w);
      assert [] + "{}" + w == "{}\n";
    }
    assert Strip("ab") == "ab" by {
      StrippedIsFixed("ab");
    }
  }

  /** A ```` ```json ```` fence is unwrapped and its body stripped. */
  lemma JsonFencePayload()
    ensures ExtractPayload("```json\n{}\n```") == "{}"
  {
    JsonFenceMatches();
    PayloadOfLeftmostBlock("```json\n{}\n```", 0, 8, 11);
    StripExamples();
  }

  lemma LazyBodyMatches()
    ensures MatchesAt("```\nab```cd```", 0, 4, 6)
    ensures "```\nab```cd```"[4..6] == "ab"
  {
    var s := "```\nab```cd```";
    assert !FenceAt(s, 5);
    assert FenceAt(s, 6);
  }

  /** The body ends at the first closing fence, not the last one. */
  lemma LazyBodyPayload()
    ensures ExtractPayload("```\nab```cd```") == "ab"
  {
    LazyBodyMatches();
    PayloadOfLeftmostBlock("```\nab```cd```", 0, 4, 6);
    StripExamples();
  }

  lemma PythonFenceOpensNothing(q: nat)
    ensures !OpensBlock("```python\n{}\n```", q)
  {
    var s := "```python\n{}\n```";
    if q == 0 {
      assert s[0..10] == "```" + "python" + "\n";
      OtherTagDoesNotOpen(s, 0, "python");
    } else if q != 13 {
      assert !FenceAt(s, q);
    }
  }

  /** A fence tagged with anything but `json` is not unwrapped: the whole reply is the payload. */
  lemma PythonFencePayload()
    ensures ExtractPayload("```python\n{}\n```") == Strip("```python\n{}\n```")
  {
    forall q: nat ensures !OpensBlock("```python\n{}\n```", q) {
      PythonFenceOpensNothing(q);
    }
  }
}
