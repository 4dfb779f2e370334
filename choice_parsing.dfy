/** `generate_choices`: cutting the model's reply down to its outermost
    braces and decoding it, with a fixed pair of choices whenever anything
    fails (app.py:119-141). */
module ChoiceParsing {
  import opened Json
  import opened PyText

  const FallbackChoice1: string := "Continue cautiously and investigate further"
  const FallbackChoice2: string := "Take a bold approach and face the situation head-on"

  /** The pair returned from the `except` branch. */
  function Fallback(): (r: Json)
    ensures r.JObject? && r.fields.Keys == {"choice1", "choice2"}
    ensures r.fields["choice1"] == JString(FallbackChoice1)
    ensures r.fields["choice2"] == JString(FallbackChoice2)
  {
    JObject(map["choice1" := JString(FallbackChoice1), "choice2" := JString(FallbackChoice2)])
  }

  /** Lines 123-127: unless the text already starts with `{`, drop
      everything before the first `{`; with no `{` at all, keep it whole. */
  function TrimFront(s: string): (r: string)
    ensures |r| <= |s| && r == s[|s| - |r|..]
    ensures StartsWith(s, "{") || !Contains(s, "{") ==> r == s
    ensures !StartsWith(s, "{") && Contains(s, "{") ==>
              0 < |r| <= |s| && r[0] == '{' && r == s[|s| - |r|..] &&
              forall k :: 0 <= k < |s| - |r| ==> s[k] != '{'
  {
    if !StartsWith(s, "{") then
      var start := Find(s, "{");
      if start != -1 then
        OccursCharAt(s, '{', start);
        forall k | 0 <= k < start ensures s[k] != '{' {
          OccursCharAt(s, '{', k);
        }
        s[start..]
      else s
    else s
  }

  /** Lines 128-132: unless the text already ends with `}`, drop everything
      after the last `}`, which is kept; with no `}` at all, keep it whole. */
  function TrimBack(s: string): (r: string)
    ensures |r| <= |s| && r == s[..|r|]
    ensures EndsWith(s, "}") || !Contains(s, "}") ==> r == s
    ensures !EndsWith(s, "}") && Contains(s, "}") ==>
              0 < |r| <= |s| && r[|r| - 1] == '}' && r == s[..|r|] &&
              forall k :: |r| <= k < |s| ==> s[k] != '}'
  {
    if !EndsWith(s, "}") then
      var end := RFind(s, "}");
      if end != -1 then
        OccursCharAt(s, '}', end);
        forall k | end < k < |s| ensures s[k] != '}' {
          OccursCharAt(s, '}', k);
        }
        s[..end + 1]
      else s
    else s
  }

  /** Lines 122-132 after the strip: the front cut, then the back cut. */
  function BraceTrim(s: string): string {
    TrimBack(TrimFront(s))
  }

  /** The text handed to `json.loads`: the stripped reply, brace-trimmed. */
  function CandidateJson(reply: string): string {
    BraceTrim(Strip(reply))
  }

  /** The trimmed text is one contiguous slice of the stripped text. */
  lemma BraceTrimIsSlice(s: string) returns (i: nat)
    ensures i + |BraceTrim(s)| <= |s| && s[i..i + |BraceTrim(s)|] == BraceTrim(s)
  {
    var f := TrimFront(s);
    var c := TrimBack(f);
    i := |s| - |f|;
    SliceOfSuffix(s, f, c);
  }

  /** The reply the prompt asks for, with chatter around it: if the chatter
      before the object holds no `{` and the chatter after it no `}`, the
      trimmed text is exactly the object's text, however many braces the
      object nests. */
  lemma BraceTrimOfWrappedObject(before: string, obj: string, after: string)
    requires |obj| >= 2 && obj[0] == '{' && obj[|obj| - 1] == '}'
    requires forall k :: 0 <= k < |before| ==> before[k] != '{'
    requires forall k :: 0 <= k < |after| ==> after[k] != '}'
    ensures BraceTrim(before + obj + after) == obj
  {
    ConcatAssoc(before, obj, after);
    TrimFrontAtFirstBrace(before, obj + after);
    TrimBackAtLastBrace(obj, after);
  }

  /** The front cut stops at the first `{`: text free of `{` before it goes. */
  lemma {:induction false} TrimFrontAtFirstBrace(before: string, rest: string)
    requires rest != [] && rest[0] == '{'
    requires forall k :: 0 <= k < |before| ==> before[k] != '{'
    ensures TrimFront(before + rest) == rest
  {
    var s := before + rest;
    assert s[|before|] == '{';
    OccursCharAt(s, '{', |before|);
    var f := TrimFront(s);
    if StartsWith(s, "{") {
      if before != [] {
        assert false;
      }
      assert s == rest;
    } else {
      assert |f| == |rest|;
      assert s[|before|..] == rest;
    }
  }

  /** The back cut stops at the last `}`: text free of `}` after it goes. */
  lemma {:induction false} TrimBackAtLastBrace(rest: string, after: string)
    requires rest != [] && rest[|rest| - 1] == '}'
    requires forall k :: 0 <= k < |after| ==> after[k] != '}'
    ensures TrimBack(rest + after) == rest
  {
    var f := rest + after;
    assert f[|rest| - 1] == '}';
    OccursCharAt(f, '}', |rest| - 1);
    var c := TrimBack(f);
    if EndsWith(f, "}") {
      assert f[|f| - 1] == f[|f| - 1..][0] == '}';
      if after != [] {
        assert false;
      }
      assert f == rest;
    } else {
      assert |c| == |rest|;
      assert f[..|rest|] == rest;
    }
  }

  /** The same, read from the raw reply: whatever whitespace surrounds it is
      stripped first, and what the strip leaves of the chatter still holds
      no `{` before the object and no `}` after it. */
  lemma CandidateOfWrappedObject(before: string, obj: string, after: string)
    requires |obj| >= 2 && obj[0] == '{' && obj[|obj| - 1] == '}'
    requires forall k :: 0 <= k < |before| ==> before[k] != '{'
    requires forall k :: 0 <= k < |after| ==> after[k] != '}'
    ensures CandidateJson(before + obj + after) == obj
  {
    var s := before + obj + after;
    var lo, hi := |before|, |before| + |obj|;
    assert s[lo] == '{' && s[hi - 1] == '}';
    assert !IsSpace('{') && !IsSpace('}');
    var i := StripKeepsInterior(s, lo, hi);
    var stripped := Strip(s);
    var kept, rest := WrappedSlice(before, obj, after, i, i + |stripped|);
    assert stripped == kept + obj + rest;
    BraceTrimOfWrappedObject(kept, obj, rest);
    assert CandidateJson(s) == BraceTrim(stripped);
  }

  /** The strip keeps every character from the first non-space one given to
      the last. */
  lemma StripKeepsInterior(s: string, lo: nat, hi: nat) returns (i: nat)
    requires lo < hi <= |s| && !IsSpace(s[lo]) && !IsSpace(s[hi - 1])
    ensures i <= lo && hi <= i + |Strip(s)| <= |s| && s[i..i + |Strip(s)|] == Strip(s)
  {
    i := StripSpec(s);
  }

  /** A slice of `before + obj + after` that covers all of `obj` is what it
      keeps of `before`, then `obj`, then what it keeps of `after`; the kept
      parts inherit the absence of braces. */
  lemma WrappedSlice(before: string, obj: string, after: string, lo: nat, hi: nat)
    returns (kept: string, rest: string)
    requires lo <= |before| && |before| + |obj| <= hi <= |before| + |obj| + |after|
    requires forall k :: 0 <= k < |before| ==> before[k] != '{'
    requires forall k :: 0 <= k < |after| ==> after[k] != '}'
    ensures (before + obj + after)[lo..hi] == kept + obj + rest
    ensures forall k :: 0 <= k < |kept| ==> kept[k] != '{'
    ensures forall k :: 0 <= k < |rest| ==> rest[k] != '}'
  {
    kept, rest := before[lo..], after[..hi - |before| - |obj|];
    var s := before + obj + after;
    var t := kept + obj + rest;
    assert |s[lo..hi]| == |t|;
    forall k | 0 <= k < |t| ensures s[lo..hi][k] == t[k] {
      if k < |kept| {
        assert t[k] == before[lo + k];
      } else if k < |kept| + |obj| {
        assert t[k] == obj[k - |kept|];
      } else {
        assert t[k] == after[k - |kept| - |obj|];
      }
    }
    forall k | 0 <= k < |kept| ensures kept[k] != '{' {
      assert kept[k] == before[lo + k];
    }
  }

  /** What `generate_choices` returns, given what `generate_story` returned
      and `json.loads` as a partial decoder (None where it raises). A reply
      that is not a str has no `.strip()`, which raises as well. */
  function ExtractChoices(generated: Json, decode: string -> Option<Json>): (r: Json)
    ensures !generated.JString? ==> r == Fallback()
    ensures generated.JString? && decode(CandidateJson(generated.s)).None? ==> r == Fallback()
    ensures generated.JString? && decode(CandidateJson(generated.s)).Some? ==>
              r == decode(CandidateJson(generated.s)).value
  {
    match generated
    case JString(reply) =>
      (match decode(CandidateJson(reply))
       case Some(choices) => choices
       case None => Fallback())
    case _ => Fallback()
  }
}
