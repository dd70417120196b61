/** Pulling the JSON payload out of a Gemini generateContent reply: the leftmost
    ```json fenced block (the regex ```json\n([\s\S]*?)\n``` under re.search),
    stripped of the control characters U+0000 to U+001F, or the raw text when
    there is no such block. */
module GeminiApi {
  import opened InterviewTypes

  /** What call_gemini_api hands back: None when the HTTP call failed, otherwise
      the decoded body, seen through its "candidates" entry. A candidate is
      represented by the text of its first part; `candidates` is None when the
      key is absent or null. */
  datatype Reply = NoReply | Reply(candidates: Option<seq<string>>)

  /** `"candidates" in reply and reply["candidates"]` */
  predicate HasCandidates(reply: Reply) {
    reply.Reply? && reply.candidates.Some? && |reply.candidates.value| > 0
  }

  /** candidates[0]["content"]["parts"][0]["text"] */
  function FirstText(reply: Reply): string
    requires HasCandidates(reply)
  {
    reply.candidates.value[0]
  }

  const OpenFence: string := "```json\n"
  const CloseFence: string := "\n```"

  predicate OpensAt(text: string, i: int) {
    0 <= i && i + |OpenFence| <= |text| && text[i..i + |OpenFence|] == OpenFence
  }

  predicate ClosesAt(text: string, k: int) {
    0 <= k && k + |CloseFence| <= |text| && text[k..k + |CloseFence|] == CloseFence
  }

  /** The pattern matches at position i: an opening fence there and a closing
      fence somewhere after it (the body [\s\S]*? may be empty). */
  ghost predicate MatchesAt(text: string, i: int) {
    OpensAt(text, i) && exists k :: i + |OpenFence| <= k && ClosesAt(text, k)
  }

  /** The first closing fence at or after `from`: where the lazy body stops. */
  function FindClose(text: string, from: nat): (r: Option<nat>)
    decreases |text| - from
    ensures r.Some? ==> from <= r.value && ClosesAt(text, r.value)
    ensures r.Some? ==> forall k :: from <= k < r.value ==> !ClosesAt(text, k)
    ensures r.None? ==> forall k :: from <= k ==> !ClosesAt(text, k)
  {
    if from + |CloseFence| > |text| then None
    else if ClosesAt(text, from) then Some(from)
    else FindClose(text, from + 1)
  }

  /** re.search: try each start position from `from` on; at the first one where
      the pattern matches, return (start of the opening fence, start of the
      closing fence that ends the lazy body). */
  function FindFence(text: string, from: nat): (r: Option<(nat, nat)>)
    decreases |text| - from
    ensures r.Some? ==>
      var (i, k) := r.value;
      && from <= i && OpensAt(text, i) && i + |OpenFence| <= k && ClosesAt(text, k)
      && (forall k' :: i + |OpenFence| <= k' < k ==> !ClosesAt(text, k'))
      && (forall j :: from <= j < i ==> !MatchesAt(text, j))
    ensures r.None? ==> forall j :: from <= j ==> !MatchesAt(text, j)
  {
    if from + |OpenFence| > |text| then None
    else if OpensAt(text, from) then
      match FindClose(text, from + |OpenFence|)
      case Some(k) => Some((from, k))
      case None => FindFence(text, from + 1)
    else FindFence(text, from + 1)
  }

  /** json_match.group(1), or None when re.search finds nothing. */
  function FencedBody(text: string): (r: Option<string>)
    ensures r.Some? ==> |OpenFence| + |r.value| + |CloseFence| <= |text|
    ensures r.Some? ==>
      exists i :: OpensAt(text, i) && ClosesAt(text, i + |OpenFence| + |r.value|)
        && text[i + |OpenFence|..i + |OpenFence| + |r.value|] == r.value
  {
    match FindFence(text, 0)
    case Some((i, k)) =>
      assert MatchesAt(text, i);
      Some(text[i + |OpenFence|..k])
    case None => None
  }

  /** The character class [\x00-\x1F]. */
  predicate IsControl(c: char) {
    c < ' '
  }

  /** re.sub(r'[\x00-\x1F]', '', text) */
  function StripControl(text: string): (r: string)
    ensures |r| <= |text|
    ensures forall i :: 0 <= i < |r| ==> !IsControl(r[i])
  {
    if text == [] then []
    else (if IsControl(text[0]) then [] else [text[0]]) + StripControl(text[1..])
  }

  /** What extract_json_from_gemini_response returns once it has a candidate. */
  function ExtractFromText(text: string): (r: string)
    ensures |r| <= |text|
    ensures FencedBody(text).Some? ==> forall i :: 0 <= i < |r| ==> !IsControl(r[i])
    ensures FencedBody(text).None? ==> r == text
  {
    match FencedBody(text)
    case Some(body) => StripControl(body)
    case None => text
  }

  /** The fenced body without the control-character filter, or the raw text:
      the inline extraction of main.py. */
  function FenceOrRaw(text: string): (r: string)
    ensures exists i :: OccursAt(text, r, i)
    ensures FencedBody(text).None? ==> r == text
    ensures FencedBody(text).Some? ==> |r| + |OpenFence| + |CloseFence| <= |text|
  {
    match FencedBody(text)
    case Some(body) =>
      var i :| OpensAt(text, i) && ClosesAt(text, i + |OpenFence| + |body|)
        && text[i + |OpenFence|..i + |OpenFence| + |body|] == body;
      assert OccursAt(text, body, i + |OpenFence|);
      body
    case None =>
      assert OccursAt(text, text, 0);
      text
  }

  /** extract_json_from_gemini_response. A None reply raises TypeError on the
      membership test; a reply without candidates raises ValueError. */
  function ExtractJson(reply: Reply): (r: Result<string, PyError>)
    ensures reply.NoReply? ==> r == Err(TypeError)
    ensures reply.Reply? ==> (r.Ok? <==> HasCandidates(reply))
    ensures reply.Reply? && !HasCandidates(reply) ==> r == Err(ValueError)
    ensures r.Ok? && FencedBody(FirstText(reply)).None? ==> r.value == FirstText(reply)
    ensures r.Ok? && FencedBody(FirstText(reply)).Some? ==>
      r.value == StripControl(FencedBody(FirstText(reply)).value)
  {
    match reply
    case NoReply => Err(TypeError)
    case Reply(candidates) =>
      if !HasCandidates(reply) then Err(ValueError)
      else Ok(ExtractFromText(FirstText(reply)))
  }

  // ---------------------------------------------------------------------------
  // The regex search: FencedBody against the leftmost-match, lazy-body reading.

  /** No start position in the text matches exactly when there is no fenced body,
      and a body, when found, starts right after the leftmost matching opening
      fence and ends at the first closing fence after it. */
  lemma FencedBodyIsLeftmostLazy(text: string)
    ensures FencedBody(text).None? <==> forall j :: 0 <= j ==> !MatchesAt(text, j)
    ensures FencedBody(text).Some? ==>
      exists i, k :: 0 <= i && i + |OpenFence| <= k <= |text|
        && FencedBody(text).value == text[i + |OpenFence|..k]
        && MatchesAt(text, i) && ClosesAt(text, k)
        && (forall j :: 0 <= j < i ==> !MatchesAt(text, j))
        && (forall k' :: i + |OpenFence| <= k' < k ==> !ClosesAt(text, k'))
  {
    match FindFence(text, 0)
    case Some((i, k)) =>
      assert MatchesAt(text, i);
      assert !(forall j :: 0 <= j ==> !MatchesAt(text, j));
    case None =>
  }

  /** A closing fence never occurs inside the body: the lazy body stops at the
      first one. */
  lemma BodyHasNoCloseFence(text: string)
    requires FencedBody(text).Some?
    ensures forall p :: 0 <= p ==> !ClosesAt(FencedBody(text).value, p)
  {
    var (i, k) := FindFence(text, 0).value;
    assert FencedBody(text).value == text[i + |OpenFence|..k];
    NoCloseInSlice(text, i + |OpenFence|, k);
  }

  /** A slice of the text holds a closing fence only where the text does. */
  lemma NoCloseInSlice(text: string, lo: nat, hi: nat)
    requires lo <= hi <= |text|
    requires forall k :: lo <= k < hi ==> !ClosesAt(text, k)
    ensures forall p :: 0 <= p ==> !ClosesAt(text[lo..hi], p)
  {
    forall p | 0 <= p
      ensures !ClosesAt(text[lo..hi], p)
    {
      var m := |CloseFence|;
      assert m == 4;
      if p + m <= hi - lo {
        var slice := text[lo..hi];
        var inSlice, inText := slice[p..p + m], text[lo + p..lo + p + m];
        forall j | 0 <= j < m
          ensures inSlice[j] == inText[j]
        {
          assert slice[p + j] == text[lo + p + j];
        }
        assert inSlice == inText;
        assert !ClosesAt(text, lo + p);
      }
    }
  }

  /** A text that opens with a fence, holds the given body (free of closing
      fences) and closes the fence, yields exactly that body, whatever follows. */
  lemma FencedBodyOfWrapped(body: string, rest: string)
    requires forall p :: 0 <= p ==> !ClosesAt(body, p)
    ensures FencedBody(OpenFence + body + CloseFence + rest) == Some(body)
  {
    var text := OpenFence + body + CloseFence + rest;
    var n := |OpenFence|;
    var e := n + |body|;
    assert n == 8 && |CloseFence| == 4;
    assert text[..n] == OpenFence;
    assert text[n..e] == body;
    assert text[e..e + 4] == CloseFence;
    assert OpensAt(text, 0);
    assert ClosesAt(text, e);
    forall k | n <= k < e
      ensures !ClosesAt(text, k)
    {
      if k + 4 <= e {
        if ClosesAt(text, k) {
          assert text[k..k + 4] == body[k - n..k - n + 4];
          assert ClosesAt(body, k - n);
        }
      } else {
        // A closing fence straddling the end of the body would need a backtick
        // where the text has the newline of the real closing fence.
        assert text[e] == '\n';
        assert CloseFence[e - k] == '`';
      }
    }
    FindCloseFirst(text, n, e);
    assert FindFence(text, 0) == Some((0, e));
  }

  /** FindClose returns the first closing fence. */
  lemma {:induction false} FindCloseFirst(text: string, from: nat, k: nat)
    requires from <= k && ClosesAt(text, k)
    requires forall k' :: from <= k' < k ==> !ClosesAt(text, k')
    ensures FindClose(text, from) == Some(k)
    decreases k - from
  {
    if from < k {
      FindCloseFirst(text, from + 1, k);
    }
  }

  // ---------------------------------------------------------------------------
  // The control-character filter.

  /** The filter works character by character: it distributes over
      concatenation. */
  lemma {:induction false} StripControlAppend(a: string, b: string)
    ensures StripControl(a + b) == StripControl(a) + StripControl(b)
  {
    if a == [] {
      assert a + b == b;
    } else {
      assert (a + b)[0] == a[0];
      assert (a + b)[1..] == a[1..] + b;
      StripControlAppend(a[1..], b);
    }
  }

  /** A text is left unchanged exactly when it holds no control character. */
  lemma {:induction false} StripControlFixedPoint(text: string)
    ensures StripControl(text) == text <==> forall i :: 0 <= i < |text| ==> !IsControl(text[i])
  {
    if text != [] {
      StripControlFixedPoint(text[1..]);
      if IsControl(text[0]) {
        assert |StripControl(text)| <= |text[1..]| < |text|;
      } else {
        assert StripControl(text) == [text[0]] + StripControl(text[1..]);
        if StripControl(text) == text {
          assert StripControl(text[1..]) == text[1..];
        }
        if forall i :: 0 <= i < |text| ==> !IsControl(text[i]) {
          assert forall i :: 0 <= i < |text[1..]| ==> !IsControl(text[1..][i]) by {
            forall i | 0 <= i < |text[1..]| ensures !IsControl(text[1..][i]) {
              assert text[1..][i] == text[i + 1];
            }
          }
        }
      }
    }
  }

  /** Filtering twice gives the same result as filtering once. */
  lemma StripControlIdempotent(text: string)
    ensures StripControl(StripControl(text)) == StripControl(text)
  {
    StripControlFixedPoint(StripControl(text));
  }

  /** The filter keeps exactly the non-control characters, in order: it removes
      a single control character and keeps any other single character. */
  lemma StripControlSingle(c: char)
    ensures StripControl([c]) == if IsControl(c) then [] else [c]
  {
    assert [c][1..] == [];
  }

  /** In the fenced case the extracted text is the body of a substring of the
      reply text with the control characters removed; it holds no control
      character and is no longer than the body. */
  lemma ExtractFencedProperties(reply: Reply)
    requires HasCandidates(reply) && FencedBody(FirstText(reply)).Some?
    ensures var text := FirstText(reply);
      var body := FencedBody(text).value;
      && ExtractJson(reply).Ok?
      && (exists i :: OccursAt(text, body, i))
      && |ExtractJson(reply).value| <= |body|
      && (forall i :: 0 <= i < |ExtractJson(reply).value| ==> !IsControl(ExtractJson(reply).value[i]))
      && StripControl(ExtractJson(reply).value) == ExtractJson(reply).value
  {
    var text := FirstText(reply);
    var (i, k) := FindFence(text, 0).value;
    assert OccursAt(text, FencedBody(text).value, i + |OpenFence|);
    StripControlIdempotent(FencedBody(text).value);
  }
}
