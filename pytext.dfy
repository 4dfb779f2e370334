/** The handful of Python `str` operations the story core relies on:
    `isspace`/`strip`, `startswith`/`endswith`, `in`, `find`, `rfind`,
    `split` and `join`, with Python's own results (including `-1` for
    "not found"). `Split` takes only a non-empty separator; the ValueError
    Python raises for an empty one is modelled where the story core splits,
    in `SceneContinuation.NextSceneAsWritten`. */
module PyText {

  /** Python's `str.isspace()` for one character. */
  predicate IsSpace(c: char) {
    var n := c as int;
    (0x09 <= n <= 0x0D) || (0x1C <= n <= 0x20) || n == 0x85 || n == 0xA0 ||
    n == 0x1680 || (0x2000 <= n <= 0x200A) || n == 0x2028 || n == 0x2029 ||
    n == 0x202F || n == 0x205F || n == 0x3000
  }

  /** `s.lstrip()` */
  function StripStart(s: string): string {
    if s != [] && IsSpace(s[0]) then StripStart(s[1..]) else s
  }

  /** `s.lstrip()` drops a run of whitespace from the front and stops at the
      first other character. */
  lemma {:induction false} StripStartSpec(s: string)
    ensures var r := StripStart(s);
            |r| <= |s| && r == s[|s| - |r|..] &&
            (r == [] || !IsSpace(r[0])) &&
            forall k :: 0 <= k < |s| - |r| ==> IsSpace(s[k])
  {
    if s != [] && IsSpace(s[0]) {
      StripStartSpec(s[1..]);
    }
  }

  /** `s.rstrip()` */
  function StripEnd(s: string): string {
    if s != [] && IsSpace(s[|s| - 1]) then StripEnd(s[..|s| - 1]) else s
  }

  /** `s.rstrip()` drops a run of whitespace from the back and stops at the
      last other character. */
  lemma {:induction false} StripEndSpec(s: string)
    ensures var r := StripEnd(s);
            |r| <= |s| && r == s[..|r|] &&
            (r == [] || !IsSpace(r[|r| - 1])) &&
            forall k :: |r| <= k < |s| ==> IsSpace(s[k])
  {
    if s != [] && IsSpace(s[|s| - 1]) {
      StripEndSpec(s[..|s| - 1]);
    }
  }

  /** `s.strip()` */
  function Strip(s: string): string {
    StripEnd(StripStart(s))
  }

  /** `s.strip()` keeps one contiguous slice `s[i..i + |r|]`, drops only
      whitespace around it, and neither end of what it keeps is
      whitespace. */
  lemma StripSpec(s: string) returns (i: nat)
    ensures var r := Strip(s);
            i + |r| <= |s| && s[i..i + |r|] == r &&
            (r == [] || (!IsSpace(r[0]) && !IsSpace(r[|r| - 1]))) &&
            (forall k :: 0 <= k < i ==> IsSpace(s[k])) &&
            (forall k :: i + |r| <= k < |s| ==> IsSpace(s[k]))
  {
    var t := StripStart(s);
    StripStartSpec(s);
    i := |s| - |t|;
    var r := StripEnd(t);
    StripEndSpec(t);
    SliceOfSuffix(s, t, r);
  }

  /** A prefix `r` of a suffix `t` of `s` is the slice of `s` starting
      where `t` does, and what `t` drops at its end is the end of `s`. */
  lemma SliceOfSuffix(s: string, t: string, r: string)
    requires |t| <= |s| && t == s[|s| - |t|..]
    requires |r| <= |t| && r == t[..|r|]
    ensures var i := |s| - |t|;
            s[i..i + |r|] == r &&
            (forall k :: i + |r| <= k < |s| ==> s[k] == t[k - i])
  {
  }

  /** Stripping twice is stripping once. */
  lemma StripIdempotent(s: string)
    ensures Strip(Strip(s)) == Strip(s)
  {
    var i := StripSpec(s);
    var r := Strip(s);
    StripOfTrimmed(r);
  }

  /** A string without whitespace at either end is its own strip. */
  lemma StripOfTrimmed(s: string)
    requires s == [] || (!IsSpace(s[0]) && !IsSpace(s[|s| - 1]))
    ensures Strip(s) == s
  {
    assert StripStart(s) == s;
    assert StripEnd(s) == s;
  }

  /** `s.startswith(p)` */
  predicate StartsWith(s: string, p: string) {
    |p| <= |s| && s[..|p|] == p
  }

  /** `s.endswith(p)` */
  predicate EndsWith(s: string, p: string) {
    |p| <= |s| && s[|s| - |p|..] == p
  }

  /** `sub` occurs in `s` starting at index `i`. */
  predicate OccursAt(s: string, sub: string, i: int) {
    0 <= i && i + |sub| <= |s| && s[i..i + |sub|] == sub
  }

  /** A one-character `sub` occurs exactly where that character stands. */
  lemma OccursCharAt(s: string, c: char, k: int)
    ensures OccursAt(s, [c], k) <==> (0 <= k < |s| && s[k] == c)
  {
    if 0 <= k < |s| {
      assert s[k..k + 1] == [s[k]];
    }
  }

  /** Python's `sub in s`. */
  predicate Contains(s: string, sub: string) {
    exists i | 0 <= i <= |s| :: OccursAt(s, sub, i)
  }

  /** The empty string occurs in every string, as Python's `"" in s` says. */
  lemma EmptyOccurs(s: string)
    ensures Contains(s, [])
  {
    assert OccursAt(s, [], 0);
  }

  /** `s.find(sub, from)`: the first index at or after `from` where `sub`
      occurs, or -1. */
  function FindFrom(s: string, sub: string, from: nat): (r: int)
    requires from <= |s|
    decreases |s| - from
    ensures r == -1 || (from <= r && OccursAt(s, sub, r))
    ensures r == -1 ==> forall k :: from <= k ==> !OccursAt(s, sub, k)
    ensures r != -1 ==> forall k :: from <= k < r ==> !OccursAt(s, sub, k)
  {
    if OccursAt(s, sub, from) then from
    else if |s| <= from + |sub| then -1
    else FindFrom(s, sub, from + 1)
  }

  /** `s.find(sub)`: the first index where `sub` occurs, or -1 exactly when
      `sub in s` is false. */
  function Find(s: string, sub: string): (r: int)
    ensures r == -1 <==> !Contains(s, sub)
    ensures r != -1 ==> OccursAt(s, sub, r) && forall k :: 0 <= k < r ==> !OccursAt(s, sub, k)
  {
    FindFrom(s, sub, 0)
  }

  /** `s.rfind(sub, 0, upTo + |sub|)`: the last index at or before `upTo`
      where `sub` occurs, or -1. */
  function RFindUpTo(s: string, sub: string, upTo: int): (r: int)
    decreases if upTo < 0 then 0 else upTo + 1
    ensures r == -1 || (r <= upTo && OccursAt(s, sub, r))
    ensures forall k :: r < k <= upTo ==> !OccursAt(s, sub, k)
  {
    if upTo < 0 then -1
    else if OccursAt(s, sub, upTo) then upTo
    else RFindUpTo(s, sub, upTo - 1)
  }

  /** `s.rfind(sub)`: the last index where `sub` occurs, or -1 exactly when
      `sub in s` is false. */
  function RFind(s: string, sub: string): (r: int)
    ensures r == -1 <==> !Contains(s, sub)
    ensures r != -1 ==> OccursAt(s, sub, r) && forall k :: r < k ==> !OccursAt(s, sub, k)
  {
    RFindUpTo(s, sub, |s| - |sub|)
  }

  /** `sep.join(parts)` */
  function Join(sep: string, parts: seq<string>): string {
    if parts == [] then ""
    else if |parts| == 1 then parts[0]
    else parts[0] + sep + Join(sep, parts[1..])
  }

  /** An occurrence inside a prefix is an occurrence in the whole string
      that ends within the prefix. */
  lemma OccursInPrefix(s: string, sub: string, hi: nat, k: int)
    requires hi <= |s|
    ensures OccursAt(s[..hi], sub, k) <==> (OccursAt(s, sub, k) && k + |sub| <= hi)
  {
    if 0 <= k && k + |sub| <= hi {
      var a, b := s[..hi][k..k + |sub|], s[k..k + |sub|];
      forall j | 0 <= j < |sub| ensures a[j] == b[j] {
        assert s[..hi][k + j] == s[k + j];
      }
      assert a == b;
    }
  }

  /** An occurrence inside a suffix is an occurrence in the whole string,
      shifted by where the suffix starts. */
  lemma OccursInSuffix(s: string, sub: string, lo: nat, k: int)
    requires lo <= |s|
    ensures OccursAt(s[lo..], sub, k) <==> (0 <= k && OccursAt(s, sub, lo + k))
  {
    if 0 <= k && lo + k + |sub| <= |s| {
      var a, b := s[lo..][k..k + |sub|], s[lo + k..lo + k + |sub|];
      forall j | 0 <= j < |sub| ensures a[j] == b[j] {
        assert s[lo..][k + j] == s[lo + k + j];
      }
      assert a == b;
    }
  }

  /** A stretch of the string free of occurrences stays free of them when
      read inside a suffix. */
  lemma NoOccurrenceInSuffix(s: string, sub: string, lo: nat, hi: nat)
    requires lo <= hi <= |s|
    requires forall k :: lo <= k < hi ==> !OccursAt(s, sub, k)
    ensures forall k :: 0 <= k < hi - lo ==> !OccursAt(s[lo..], sub, k)
  {
    forall k | 0 <= k < hi - lo ensures !OccursAt(s[lo..], sub, k) {
      OccursInSuffix(s, sub, lo, k);
    }
  }

  /** `s.split(sep)` for a non-empty separator: the pieces between
      non-overlapping occurrences of `sep`, found left to right. */
  function Split(s: string, sep: string): (parts: seq<string>)
    requires sep != []
    decreases |s|
    ensures |parts| >= 1
  {
    var i := Find(s, sep);
    if i == -1 then [s] else [s[..i]] + Split(s[i + |sep|..], sep)
  }

  /** `s.split(sep)` has a second piece exactly when `sep in s`. */
  lemma SplitHasSecondPiece(s: string, sep: string)
    requires sep != []
    ensures |Split(s, sep)| >= 2 <==> Contains(s, sep)
  {
  }

  /** Joining a non-empty list behind a first piece puts one separator
      between them. */
  lemma JoinCons(sep: string, head: string, tail: seq<string>)
    requires |tail| >= 1
    ensures Join(sep, [head] + tail) == head + sep + Join(sep, tail)
  {
    assert ([head] + tail)[1..] == tail;
  }

  /** Cutting out an occurrence and gluing the three parts back together
      gives the string again. */
  lemma Reassemble(s: string, sep: string, i: nat)
    requires OccursAt(s, sep, i)
    ensures s[..i] + sep + s[i + |sep|..] == s
  {
    assert s == s[..i] + s[i..i + |sep|] + s[i + |sep|..];
  }

  /** `sep.join(s.split(sep)) == s`: splitting loses nothing. */
  lemma {:induction false} SplitJoin(s: string, sep: string)
    requires sep != []
    decreases |s|
    ensures Join(sep, Split(s, sep)) == s
  {
    var i := Find(s, sep);
    if i != -1 {
      var rest := s[i + |sep|..];
      var tailParts := Split(rest, sep);
      SplitJoin(rest, sep);
      JoinAroundOccurrence(s, sep, i, tailParts);
    }
  }

  /** Joining the piece before an occurrence of `sep` with pieces that
      join back to the text after it gives the whole text. */
  lemma JoinAroundOccurrence(s: string, sep: string, i: nat, tailParts: seq<string>)
    requires OccursAt(s, sep, i)
    requires |tailParts| >= 1 && Join(sep, tailParts) == s[i + |sep|..]
    ensures Join(sep, [s[..i]] + tailParts) == s
  {
    JoinCons(sep, s[..i], tailParts);
    Reassemble(s, sep, i);
  }

  /** No piece of `s.split(sep)` contains `sep`. */
  lemma {:induction false} SplitPiecesAvoidSeparator(s: string, sep: string)
    requires sep != []
    decreases |s|
    ensures forall k :: 0 <= k < |Split(s, sep)| ==> !Contains(Split(s, sep)[k], sep)
  {
    var i := Find(s, sep);
    if i != -1 {
      var head := s[..i];
      forall k | OccursAt(head, sep, k) ensures false {
        OccursInPrefix(s, sep, i, k);
      }
      var rest := s[i + |sep|..];
      SplitPiecesAvoidSeparator(rest, sep);
      var parts := Split(s, sep);
      assert parts == [head] + Split(rest, sep);
    }
  }

  /** Concatenation is associative (stated once so that proofs about long
      texts need not rediscover it element by element). */
  lemma ConcatAssoc(a: string, b: string, c: string)
    ensures (a + b) + c == a + (b + c)
  {
  }

  /** ASCII upper-casing of one character, as `str.upper` does for ASCII. */
  function Upper(c: char): char {
    if 'a' <= c <= 'z' then (c as int - 32) as char else c
  }

  /** ASCII lower-casing of one character, as `str.lower` does for ASCII. */
  function Lower(c: char): char {
    if 'A' <= c <= 'Z' then (c as int + 32) as char else c
  }

  /** `s.capitalize()` on ASCII text: the first character upper-cased, every
      other one lower-cased. */
  function Capitalize(s: string): (r: string)
    ensures |r| == |s|
    ensures |s| > 0 ==> r[0] == Upper(s[0])
    ensures forall k :: 1 <= k < |s| ==> r[k] == Lower(s[k])
  {
    if s == [] then [] else [Upper(s[0])] + seq(|s| - 1, k requires 0 <= k < |s| - 1 => Lower(s[k + 1]))
  }
}
