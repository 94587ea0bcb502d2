/** The tolerant array locator of `extract_json`: trim the response, remove
    a code fence, then find the first `[` and scan forward with a bracket
    depth counter until the depth returns to zero. The scan counts raw
    bracket characters and does not know about JSON string quoting. */
module Extractor {
  import opened Common
  import opened PyText

  datatype ExtractError =
    | NoArrayStart   // no `[` in the text
    | Unterminated   // the depth never returned to zero
    | Unparsable     // the candidate text is not a JSON array of objects

  const Fence := "```"
  const JsonFence := "```json"

  /** `re.sub("^" + p, "", t)`: an anchored pattern matches at most once. */
  function DropLeading(t: string, p: string): string
  {
    if p <= t then t[|p|..] else t
  }

  /** `re.sub(r"```$", "", t)`: `$` matches at the very end and also just
      before a final newline. */
  function DropTrailingFence(t: string): string
  {
    if |t| >= 3 && t[|t| - 3..] == Fence then t[..|t| - 3]
    else if |t| >= 4 && t[|t| - 4..] == Fence + "\n" then t[..|t| - 4] + "\n"
    else t
  }

  /** Lines 66-71: the text that the bracket scan sees. The result is
      always stripped of surrounding whitespace. */
  function StripFences(text: string): (t: string)
    ensures t != [] ==> t[0] !in SpaceChars && t[|t| - 1] !in SpaceChars
  {
    var t := Strip(text, SpaceChars);
    if Fence <= t then
      Strip(DropTrailingFence(DropLeading(DropLeading(t, JsonFence), Fence)), SpaceChars)
    else t
  }

  /** Without a leading fence the text is only trimmed. */
  lemma UnfencedIsTrimmed(text: string)
    requires !(Fence <= Strip(text, SpaceChars))
    ensures StripFences(text) == Strip(text, SpaceChars)
  {
  }

  /** The three substitutions of lines 68-70 on a tagged fenced body. */
  lemma TaggedFenceSubs(body: string)
    requires body != [] && body[0] != '`'
    ensures DropTrailingFence(DropLeading(DropLeading(JsonFence + body + Fence, JsonFence), Fence)) == body
  {
    var fenced := JsonFence + body + Fence;
    assert JsonFence <= fenced;
    var rest := fenced[|JsonFence|..];
    assert rest == body + Fence;
    assert rest[0] == body[0];
    assert DropLeading(rest, Fence) == rest;
    assert rest[|rest| - 3..] == Fence;
    assert rest[..|rest| - 3] == body;
  }

  /** A tagged fence around `body`, with any whitespace outside it, is
      removed and the body trimmed. */
  lemma TaggedFenceRemoved(pad1: string, body: string, pad2: string)
    requires AllDrop(pad1, SpaceChars) && AllDrop(pad2, SpaceChars)
    requires body != [] && body[0] != '`'
    ensures StripFences(pad1 + JsonFence + body + Fence + pad2) == Strip(body, SpaceChars)
  {
    var fenced := JsonFence + body + Fence;
    assert pad1 + JsonFence + body + Fence + pad2 == pad1 + fenced + pad2;
    assert fenced[0] == '`' && fenced[|fenced| - 1] == '`';
    StripPadding(pad1, fenced, pad2, SpaceChars);
    assert Fence <= fenced;
    TaggedFenceSubs(body);
  }

  /** The three substitutions of lines 68-70 on a plainly fenced body. */
  lemma PlainFenceSubs(body: string)
    requires body != [] && body[0] != '`' && !("json" <= body)
    ensures DropTrailingFence(DropLeading(DropLeading(Fence + body + Fence, JsonFence), Fence)) == body
  {
    var fenced := Fence + body + Fence;
    assert fenced[3..7] != "json" by {
      if |body| >= 4 {
        assert fenced[3..7] == body[..4];
      } else {
        assert fenced[3..7][|body|] == '`';
      }
    }
    assert JsonFence[3..7] == "json";
    assert !(JsonFence <= fenced);
    var rest := fenced[|Fence|..];
    assert rest == body + Fence;
    assert rest[|rest| - 3..] == Fence;
    assert rest[..|rest| - 3] == body;
  }

  /** A plain fence around `body` is removed the same way, provided the body
      does not itself begin with the `json` tag. */
  lemma PlainFenceRemoved(pad1: string, body: string, pad2: string)
    requires AllDrop(pad1, SpaceChars) && AllDrop(pad2, SpaceChars)
    requires body != [] && body[0] != '`' && !("json" <= body)
    ensures StripFences(pad1 + Fence + body + Fence + pad2) == Strip(body, SpaceChars)
  {
    var fenced := Fence + body + Fence;
    assert pad1 + Fence + body + Fence + pad2 == pad1 + fenced + pad2;
    assert fenced[0] == '`' && fenced[|fenced| - 1] == '`';
    StripPadding(pad1, fenced, pad2, SpaceChars);
    assert Fence <= fenced;
    PlainFenceSubs(body);
  }

  /** The change of depth when the scan reads `c`. */
  function Step(c: char): int
  {
    if c == '[' then 1 else if c == ']' then -1 else 0
  }

  /** The bracket depth after reading `s` from depth zero: the number of
      `[` minus the number of `]` in `s`. */
  function Depth(s: string): int
  {
    if s == [] then 0 else Depth(s[..|s| - 1]) + Step(s[|s| - 1])
  }

  /** The depth after reading `t[f..k]`. */
  function DepthOver(t: string, f: nat, k: nat): int
    requires f <= k <= |t|
  {
    Depth(t[f..k])
  }

  lemma DepthSnoc(s: string, c: char)
    ensures Depth(s + [c]) == Depth(s) + Step(c)
  {
    assert (s + [c])[..|s|] == s;
  }

  /** A bracketed span as the scan delimits it: it opens with `[`, closes
      with `]`, is balanced, and every proper non-empty prefix still has
      more `[` than `]`, so no earlier `]` closes it. */
  predicate IsBracketSpan(a: string)
  {
    && |a| >= 2
    && a[0] == '['
    && a[|a| - 1] == ']'
    && Depth(a) == 0
    && forall k :: 0 < k < |a| ==> DepthOver(a, 0, k) > 0
  }

  /** `t.find(c)`: the position of the first `c`, or None. */
  function FirstIndex(t: string, c: char): (r: Option<nat>)
    ensures r.None? ==> forall i :: 0 <= i < |t| ==> t[i] != c
    ensures r.Some? ==> r.value < |t| && t[r.value] == c && forall i :: 0 <= i < r.value ==> t[i] != c
  {
    if t == [] then None
    else if t[0] == c then Some(0)
    else match FirstIndex(t[1..], c)
      case None => None
      case Some(i) => Some(i + 1)
  }

  /** The scan from position `i` with current depth `depth`: the index of
      the `]` that brings the depth to zero, if any. */
  function CloseFrom(t: string, i: nat, depth: int): (e: Option<nat>)
    requires i <= |t|
    ensures e.Some? ==> i <= e.value < |t| && t[e.value] == ']'
    decreases |t| - i
  {
    if i == |t| then None
    else if t[i] == '[' then CloseFrom(t, i + 1, depth + 1)
    else if t[i] == ']' then
      if depth - 1 == 0 then Some(i) else CloseFrom(t, i + 1, depth - 1)
    else CloseFrom(t, i + 1, depth)
  }

  /** Lines 73-86 up to the parse: the candidate array text, or the error. */
  function Locate(t: string): Result<string, ExtractError>
  {
    match FirstIndex(t, '[')
    case None => Failure(NoArrayStart)
    case Some(f) =>
      match CloseFrom(t, f, 0)
      case None => Failure(Unterminated)
      case Some(e) => Success(t[f..e + 1])
  }

  /** What the scan computes, by induction over the positions it reads:
      it stops at the first position after `f` where the depth is zero. */
  lemma {:induction false} CloseFromSpec(t: string, f: nat, i: nat, depth: int)
    requires f < i <= |t| && t[f] == '['
    requires depth == DepthOver(t, f, i)
    requires forall k :: f < k <= i ==> DepthOver(t, f, k) > 0
    ensures CloseFrom(t, i, depth).None? ==> forall k :: f < k <= |t| ==> DepthOver(t, f, k) > 0
    ensures CloseFrom(t, i, depth).Some? ==>
              var e := CloseFrom(t, i, depth).value;
              DepthOver(t, f, e + 1) == 0 && forall k :: f < k <= e ==> DepthOver(t, f, k) > 0
    decreases |t| - i
  {
    if i < |t| {
      DepthOverSnoc(t, f, i);
      if t[i] != ']' || depth - 1 != 0 {
        CloseFromSpec(t, f, i + 1, depth + Step(t[i]));
      }
    }
  }

  lemma DepthOverSnoc(t: string, f: nat, i: nat)
    requires f <= i < |t|
    ensures DepthOver(t, f, i + 1) == DepthOver(t, f, i) + Step(t[i])
  {
    assert t[f..i + 1] == t[f..i] + [t[i]];
    DepthSnoc(t[f..i], t[i]);
  }

  /** The located span is a bracket span starting at the first `[`. */
  lemma SpanAt(t: string, f: nat, e: nat)
    requires f <= e < |t| && t[f] == '[' && t[e] == ']'
    requires DepthOver(t, f, e + 1) == 0 && forall k :: f < k <= e ==> DepthOver(t, f, k) > 0
    ensures IsBracketSpan(t[f..e + 1])
  {
    var a := t[f..e + 1];
    forall k | 0 < k < |a| ensures DepthOver(a, 0, k) > 0 {
      assert a[0..k] == t[f..f + k];
      assert DepthOver(t, f, f + k) > 0;
    }
  }

  /** What the locator promises: it fails with NoArrayStart exactly when the
      text has no `[`; it fails with Unterminated exactly when, from the
      first `[`, the depth never returns to zero; otherwise it returns the
      bracket span that starts at the first `[`. */
  lemma {:induction false} LocateSpec(t: string)
    ensures Locate(t) == Failure(NoArrayStart) <==> '[' !in t
    ensures '[' in t ==>
      var f := FirstIndex(t, '[').value;
      && (Locate(t) == Failure(Unterminated) <==> forall k :: f < k <= |t| ==> DepthOver(t, f, k) > 0)
      && (Locate(t).Success? ==> IsBracketSpan(Locate(t).value) && Locate(t).value <= t[f..])
      && (Locate(t).Success? || Locate(t) == Failure(Unterminated))
  {
    if '[' in t {
      LocateFrom(t, FirstIndex(t, '[').value);
    }
  }

  /** `LocateSpec` once the first `[` is known to be at `f`. */
  lemma {:induction false} LocateFrom(t: string, f: nat)
    requires FirstIndex(t, '[') == Some(f)
    ensures Locate(t) == Failure(Unterminated) <==> forall k :: f < k <= |t| ==> DepthOver(t, f, k) > 0
    ensures Locate(t).Success? ==> IsBracketSpan(Locate(t).value) && Locate(t).value <= t[f..]
    ensures Locate(t).Success? || Locate(t) == Failure(Unterminated)
  {
    ScanStart(t, f);
    CloseFromSpec(t, f, f + 1, 1);
    var close := CloseFrom(t, f, 0);
    if close.None? {
      LocateOpen(t, f);
    } else {
      LocateClosed(t, f, close.value);
    }
  }

  lemma LocateOpen(t: string, f: nat)
    requires FirstIndex(t, '[') == Some(f) && f < |t| && CloseFrom(t, f, 0).None?
    ensures Locate(t) == Failure(Unterminated)
  {
  }

  lemma {:induction false} LocateClosed(t: string, f: nat, e: nat)
    requires FirstIndex(t, '[') == Some(f) && f < |t| && CloseFrom(t, f, 0) == Some(e)
    requires DepthOver(t, f, e + 1) == 0 && forall k :: f < k <= e ==> DepthOver(t, f, k) > 0
    ensures Locate(t) == Success(t[f..e + 1])
    ensures IsBracketSpan(t[f..e + 1]) && t[f..e + 1] <= t[f..]
    ensures !(forall k :: f < k <= |t| ==> DepthOver(t, f, k) > 0)
  {
    LocateAt(t, f, e);
    SpanAt(t, f, e);
    SliceIsPrefix(t, f, e + 1);
  }

  lemma LocateAt(t: string, f: nat, e: nat)
    requires FirstIndex(t, '[') == Some(f) && f <= |t| && CloseFrom(t, f, 0) == Some(e)
    ensures Locate(t) == Success(t[f..e + 1])
  {
  }

  /** Reading the first `[` takes the depth from zero to one. */
  lemma ScanStart(t: string, f: nat)
    requires f < |t| && t[f] == '['
    ensures DepthOver(t, f, f + 1) == 1
    ensures CloseFrom(t, f, 0) == CloseFrom(t, f + 1, 1)
  {
    assert t[f..f + 1] == [] + ['['];
    DepthSnoc([], '[');
  }

  lemma SliceIsPrefix(t: string, f: nat, j: nat)
    requires f <= j <= |t|
    ensures t[f..j] <= t[f..]
  {
    assert t[f..j] == t[f..][..j - f];
  }

  /** If the depth returns to zero somewhere after the first `[`, the
      locator succeeds. */
  lemma LocateCloses(t: string, f: nat, k: nat)
    requires FirstIndex(t, '[') == Some(f) && f < k <= |t| && DepthOver(t, f, k) == 0
    ensures Locate(t).Success?
  {
    LocateFrom(t, f);
  }

  /** Over a text that begins with a bracket span, the depth is positive
      inside the span and zero at its end. */
  lemma DepthsAlongSpan(u: string, a: string)
    requires IsBracketSpan(a) && a <= u
    ensures forall n :: 0 < n < |a| ==> DepthOver(u, 0, n) > 0
    ensures DepthOver(u, 0, |a|) == 0
  {
    forall n | 0 < n <= |a|
      ensures DepthOver(u, 0, n) == DepthOver(a, 0, n)
    {
      assert u[0..n] == a[0..n];
    }
    assert a[0..|a|] == a;
  }

  /** Two bracket spans that are both prefixes of the same text are equal:
      the span is determined by where it starts. */
  lemma SpanUnique(u: string, a: string, b: string)
    requires IsBracketSpan(a) && IsBracketSpan(b) && a <= u && b <= u
    ensures a == b
  {
    DepthsAlongSpan(u, a);
    DepthsAlongSpan(u, b);
    assert |a| == |b|;
    assert a == u[..|a|] && b == u[..|b|];
  }

  /** Round trip: an array text that is a bracket span, preceded by prose
      without `[` and followed by anything, is located exactly. */
  lemma LocateFindsSpan(p: string, a: string, s: string)
    requires '[' !in p && IsBracketSpan(a)
    ensures Locate(p + a + s) == Success(a)
  {
    var t := p + a + s;
    assert t[|p|] == '[' && t[..|p|] == p;
    var f := FirstIndex(t, '[').value;
    assert f == |p|;
    LocateSpec(t);
    assert t[f..][..|a|] == a;
    assert t[f..f + |a|] == a;
    LocateCloses(t, f, f + |a|);
    SpanUnique(t[f..], Locate(t).value, a);
  }

  lemma NoBracketInSuffix(p: string, q: string)
    requires '[' !in p && |q| <= |p| && q == p[|p| - |q|..]
    ensures '[' !in q
  {
    assert forall i :: 0 <= i < |q| ==> q[i] == p[|p| - |q| + i];
  }

  /** Trimming prose-array-prose keeps the array and adds no `[` before it. */
  lemma StrippedBodyLocated(p: string, a: string, s: string)
    requires '[' !in p && IsBracketSpan(a)
    ensures Locate(Strip(p + a + s, SpaceChars)) == Success(a)
  {
    StripAround(p, a, s, SpaceChars);
    var p' := p[StartOfKept(p, SpaceChars, 0)..];
    NoBracketInSuffix(p, p');
    LocateFindsSpan(p', a, s[..EndOfKept(s, SpaceChars, |s|)]);
  }

  /** End to end: prose and an array inside a tagged code fence, padded
      with whitespace, yields exactly the array text. */
  lemma FencedArrayLocated(pad1: string, p: string, a: string, s: string, pad2: string)
    requires AllDrop(pad1, SpaceChars) && AllDrop(pad2, SpaceChars)
    requires '[' !in p && IsBracketSpan(a)
    requires p == [] || p[0] != '`'
    ensures Locate(StripFences(pad1 + JsonFence + (p + a + s) + Fence + pad2)) == Success(a)
  {
    var body := p + a + s;
    assert body[0] == (if p == [] then a[0] else p[0]);
    TaggedFenceRemoved(pad1, body, pad2);
    StrippedBodyLocated(p, a, s);
  }

  /** The scan does not know about JSON strings: a `]` inside a string
      literal closes the span early, so `["]"]` yields `["]`. */
  lemma BracketInStringClosesEarly()
    ensures Locate("[\"]\"]") == Success("[\"]")
  {
    var t := "[\"]\"]";
    assert FirstIndex(t, '[') == Some(0);
    assert CloseFrom(t, 2, 1) == Some(2);
    assert CloseFrom(t, 1, 1) == Some(2);
    assert CloseFrom(t, 0, 0) == Some(2);
    LocateAt(t, 0, 2);
    assert t[0..3] == "[\"]";
  }

  /** A nested array inside an element does not end the span. */
  lemma NestedArrayKept()
    ensures Locate("[{\"a\":[1,2]}]") == Success("[{\"a\":[1,2]}]")
  {
    var t := "[{\"a\":[1,2]}]";
    assert FirstIndex(t, '[') == Some(0);
    assert CloseFrom(t, 12, 1) == Some(12);
    assert CloseFrom(t, 11, 1) == Some(12);
    assert CloseFrom(t, 10, 2) == Some(12);
    assert CloseFrom(t, 9, 2) == Some(12);
    assert CloseFrom(t, 8, 2) == Some(12);
    assert CloseFrom(t, 7, 2) == Some(12);
    assert CloseFrom(t, 6, 1) == Some(12);
    assert CloseFrom(t, 5, 1) == Some(12);
    assert CloseFrom(t, 4, 1) == Some(12);
    assert CloseFrom(t, 3, 1) == Some(12);
    assert CloseFrom(t, 2, 1) == Some(12);
    assert CloseFrom(t, 1, 1) == Some(12);
    assert CloseFrom(t, 0, 0) == Some(12);
    LocateAt(t, 0, 12);
    assert t[0..13] == t;
  }

  /** The scan loop of lines 77-86. */
  method ScanArray(t: string) returns (r: Result<string, ExtractError>)
    ensures r == Locate(t)
  {
    var first := FirstIndex(t, '[');
    if first.None? {
      return Failure(NoArrayStart);
    }
    var f := first.value;
    var depth := 0;
    var i := f;
    while i < |t|
      invariant f <= i <= |t|
      invariant CloseFrom(t, i, depth) == CloseFrom(t, f, 0)
    {
      if t[i] == '[' {
        depth := depth + 1;
      } else if t[i] == ']' {
        depth := depth - 1;
        if depth == 0 {
          return Success(t[f..i + 1]);
        }
      }
      i := i + 1;
    }
    return Failure(Unterminated);
  }

  /** What `json.loads` makes of each candidate text that reaches it: the
      array of records it decodes to, or no entry where it raises. */
  type Decoder = map<string, seq<Record>>

  function Loads(parse: Decoder, text: string): (r: Option<seq<Record>>)
    ensures r.Some? <==> text in parse
  {
    if text in parse then Some(parse[text]) else None
  }

  /** `extract_json`: locate the array text and hand it to the JSON
      decoder. */
  method ExtractJson(text: string, parse: Decoder)
    returns (r: Result<seq<Record>, ExtractError>)
    ensures Locate(StripFences(text)).Failure? ==> r == Failure(Locate(StripFences(text)).error)
    ensures Locate(StripFences(text)).Success? ==>
              match Loads(parse, Locate(StripFences(text)).value)
              case None => r == Failure(Unparsable)
              case Some(records) => r == Success(records)
  {
    var t := StripFences(text);
    var span := ScanArray(t);
    if span.Failure? {
      return Failure(span.error);
    }
    match Loads(parse, span.value)
    case None => r := Failure(Unparsable);
    case Some(records) => r := Success(records);
  }

  /** The records one provider call contributes, as a function: a failed
      HTTP exchange (None) or a failed extraction gives no records. */
  function SafeRecords(response: Option<string>, parse: Decoder): seq<Record>
  {
    match response
    case None => []
    case Some(text) =>
      match Locate(StripFences(text))
      case Failure(_) => []
      case Success(span) => match Loads(parse, span) case None => [] case Some(records) => records
  }

  /** A non-empty result always comes from a successful exchange whose
      located array parsed to exactly these records: no record is ever
      fabricated, and a failed exchange contributes nothing. */
  lemma SafeRecordsGenuine(response: Option<string>, parse: Decoder)
    ensures response.None? ==> SafeRecords(response, parse) == []
    ensures SafeRecords(response, parse) != [] ==>
              && response.Some?
              && Locate(StripFences(response.value)).Success?
              && Loads(parse, Locate(StripFences(response.value)).value) == Some(SafeRecords(response, parse))
  {
  }

  /** `call_deepseek_safe` / `call_gemini_safe`: the exception of a failed
      call is caught and turned into an empty result; otherwise the result
      is what `extract_json` returned. */
  method CallSafe(response: Option<string>, parse: Decoder)
    returns (records: seq<Record>)
    ensures records == SafeRecords(response, parse)
  {
    if response.None? {
      return [];
    }
    var r := ExtractJson(response.value, parse);
    records := if r.Success? then r.value else [];
  }
}
