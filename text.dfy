/**
 * The .NET string operations the source relies on: `char.IsWhiteSpace`,
 * `string.IsNullOrWhiteSpace`, `Trim`, ordinal case-insensitive comparison and
 * `Split` with `StringSplitOptions.RemoveEmptyEntries`.
 */
module Text {
  import opened Wrappers

  /** `char.IsWhiteSpace`: the Unicode separators (Zs, Zl, Zp) and the controls U+0009-U+000D and U+0085. */
  predicate IsWhiteSpace(c: char)
    ensures c < '\U{80}' ==> (IsWhiteSpace(c) <==> c == ' ' || '\t' <= c <= '\r')
    ensures IsWhiteSpace(c) ==> c <= '\U{3000}'
  {
    || ('\t' <= c <= '\r')
    || c == ' '
    || c == '\U{85}'
    || c == '\U{A0}'
    || c == '\U{1680}'
    || ('\U{2000}' <= c <= '\U{200A}')
    || c == '\U{2028}'
    || c == '\U{2029}'
    || c == '\U{202F}'
    || c == '\U{205F}'
    || c == '\U{3000}'
  }

  /** Every character is white space (this includes the empty string). */
  predicate IsBlank(s: string) {
    forall i :: 0 <= i < |s| ==> IsWhiteSpace(s[i])
  }

  /**
   * `string.IsNullOrWhiteSpace`, with `None` standing for a null reference: null,
   * or nothing is left once white space is trimmed.
   */
  predicate IsNullOrWhiteSpace(s: Option<string>)
    ensures IsNullOrWhiteSpace(s) <==> s.None? || Trim(s.value) == []
  {
    match s
    case None => true
    case Some(v) => BlankTrimsToEmpty(v); IsBlank(v)
  }

  /** The first position from `i` on that holds a character `drop` keeps, or `|s|`. */
  function SkipForward(s: string, drop: char -> bool, i: nat): (j: nat)
    requires i <= |s|
    ensures i <= j <= |s|
    ensures forall k :: i <= k < j ==> drop(s[k])
    ensures j < |s| ==> !drop(s[j])
    decreases |s| - i
  {
    if i < |s| && drop(s[i]) then SkipForward(s, drop, i + 1) else i
  }

  /** The end of the last kept character in `s[lo..j]`, or `lo` when there is none. */
  function SkipBackward(s: string, drop: char -> bool, lo: nat, j: nat): (e: nat)
    requires lo <= j <= |s|
    ensures lo <= e <= j
    ensures forall k :: e <= k < j ==> drop(s[k])
    ensures e > lo ==> !drop(s[e - 1])
    decreases j - lo
  {
    if j > lo && drop(s[j - 1]) then SkipBackward(s, drop, lo, j - 1) else j
  }

  /** `r` stands in `s` at offset `i`. */
  predicate OccursAt(s: string, r: string, i: int) {
    0 <= i <= |s| - |r| && s[i..i + |r|] == r
  }

  /** `r` is `s` with some characters satisfying `drop` cut from its start and some from its end. */
  ghost predicate TrimmedOf(s: string, r: string, drop: char -> bool) {
    exists i :: OccursAt(s, r, i) && (forall k :: 0 <= k < i ==> drop(s[k]))
                && (forall k :: i + |r| <= k < |s| ==> drop(s[k]))
  }

  /**
   * Removes the characters that satisfy `drop` from both ends: the result is a
   * piece of `s` with nothing but dropped characters before and after it, and
   * it neither starts nor ends with one.
   */
  function TrimBoth(s: string, drop: char -> bool): (r: string)
    ensures s != [] && !drop(s[0]) && !drop(s[|s| - 1]) ==> r == s
    ensures TrimmedOf(s, r, drop)
    ensures r != [] ==> !drop(r[0]) && !drop(r[|r| - 1])
  {
    var i := SkipForward(s, drop, 0);
    var j := SkipBackward(s, drop, i, |s|);
    assert OccursAt(s, s[i..j], i);
    assert s != [] && !drop(s[0]) && !drop(s[|s| - 1]) ==> i == 0 && j == |s|;
    s[i..j]
  }

  /** `string.Trim()`: removes leading and trailing white space, and only that. */
  function Trim(s: string): (r: string)
    ensures TrimmedOf(s, r, IsWhiteSpace)
    ensures r != [] ==> !IsWhiteSpace(r[0]) && !IsWhiteSpace(r[|r| - 1])
    ensures s != [] && !IsWhiteSpace(s[0]) && !IsWhiteSpace(s[|s| - 1]) ==> r == s
  {
    TrimBoth(s, IsWhiteSpace)
  }

  /** A string is blank exactly when trimming leaves nothing of it. */
  lemma BlankTrimsToEmpty(s: string)
    ensures IsBlank(s) <==> Trim(s) == []
  {
    if Trim(s) == [] {
      var i :| OccursAt(s, [], i) && (forall k :: 0 <= k < i ==> IsWhiteSpace(s[k]))
               && (forall k :: i <= k < |s| ==> IsWhiteSpace(s[k]));
    }
  }

  /** Ordinal case folding of ASCII letters. */
  function ToLowerAscii(c: char): (d: char)
    ensures 'A' <= c <= 'Z' ==> d as int == c as int + 32
    ensures !('A' <= c <= 'Z') ==> d == c
  {
    if 'A' <= c <= 'Z' then (c as int + 32) as char else c
  }

  /** `string.Equals(a, b, StringComparison.OrdinalIgnoreCase)`, for the ASCII letters. */
  predicate EqualsIgnoreCase(a: string, b: string) {
    |a| == |b| && forall i :: 0 <= i < |a| ==> ToLowerAscii(a[i]) == ToLowerAscii(b[i])
  }

  /**
   * The key under which an ordinal case-insensitive comparer files `s`: its ASCII
   * letters folded to lower case. It equals `s` ignoring case and holds no
   * upper-case letter.
   */
  function FoldCase(s: string): (f: string)
    ensures EqualsIgnoreCase(f, s)
    ensures forall i :: 0 <= i < |f| ==> !('A' <= f[i] <= 'Z')
  {
    seq(|s|, i requires 0 <= i < |s| => ToLowerAscii(s[i]))
  }

  /** Two strings are equal ignoring case exactly when they fold to the same key. */
  lemma FoldCaseDecides(a: string, b: string)
    ensures EqualsIgnoreCase(a, b) <==> FoldCase(a) == FoldCase(b)
  {
    if FoldCase(a) == FoldCase(b) {
      forall i | 0 <= i < |a|
        ensures ToLowerAscii(a[i]) == ToLowerAscii(b[i])
      {
        assert FoldCase(a)[i] == FoldCase(b)[i];
      }
    }
  }

  /** Folding a folded key changes nothing. */
  lemma FoldCaseIdempotent(s: string)
    ensures FoldCase(FoldCase(s)) == FoldCase(s)
  {
    FoldCaseDecides(FoldCase(s), s);
  }

  /** `needle` occurs in `s` at offset `i`, ignoring ASCII case. */
  predicate MatchesAt(s: string, needle: string, i: int)
    requires 0 <= i <= |s| - |needle|
  {
    EqualsIgnoreCase(s[i..i + |needle|], needle)
  }

  /** `s.Contains(needle, StringComparison.OrdinalIgnoreCase)`. */
  function ContainsIgnoreCase(s: string, needle: string): (b: bool)
    ensures b <==> exists i :: 0 <= i <= |s| - |needle| && MatchesAt(s, needle, i)
  {
    if |s| < |needle| then false
    else if MatchesAt(s, needle, 0) then true
    else
      var b := ContainsIgnoreCase(s[1..], needle);
      forall i | 1 <= i <= |s| - |needle|
        ensures MatchesAt(s, needle, i) <==> MatchesAt(s[1..], needle, i - 1)
      {
        SliceOfTail(s, i, i + |needle|);
      }
      if b then
        var j :| 0 <= j <= |s| - 1 - |needle| && MatchesAt(s[1..], needle, j);
        assert MatchesAt(s, needle, j + 1);
        true
      else false
  }

  lemma SliceOfTail(s: string, a: int, b: int)
    requires 1 <= a <= b <= |s|
    ensures s[1..][a - 1..b - 1] == s[a..b]
  {
    assert |s[1..][a - 1..b - 1]| == b - a;
    forall k | 0 <= k < b - a ensures s[1..][a - 1..b - 1][k] == s[a..b][k] {
      assert s[1..][a - 1..b - 1][k] == s[1..][a - 1 + k] == s[a + k];
    }
  }

  /** The characters of `s` other than `sep`, in order. */
  function Without(s: string, sep: char): (r: string)
  {
    if s == [] then [] else (if s[0] == sep then [] else [s[0]]) + Without(s[1..], sep)
  }

  /** The strings of `parts`, concatenated. */
  function Concat(parts: seq<string>): string
  {
    if parts == [] then [] else parts[0] + Concat(parts[1..])
  }

  /** The position of the first `sep` in `s`, or `|s|` when there is none. */
  function FirstOf(s: string, sep: char): (k: nat)
    ensures k <= |s| && sep !in s[..k]
    ensures k < |s| ==> s[k] == sep
  {
    if s == [] || s[0] == sep then 0
    else
      var k := FirstOf(s[1..], sep);
      assert s[..k + 1] == [s[0]] + s[1..][..k];
      k + 1
  }

  lemma {:induction false} WithoutAppend(a: string, b: string, sep: char)
    ensures Without(a + b, sep) == Without(a, sep) + Without(b, sep)
  {
    if a != [] {
      assert (a + b)[1..] == a[1..] + b;
      WithoutAppend(a[1..], b, sep);
    } else {
      assert a + b == b;
    }
  }

  lemma {:induction false} WithoutAbsent(s: string, sep: char)
    requires sep !in s
    ensures Without(s, sep) == s
  {
    if s != [] {
      WithoutAbsent(s[1..], sep);
    }
  }

  /** Cutting `s` at its first `sep` leaves the run before it and the rest after it. */
  lemma WithoutAtFirst(s: string, sep: char)
    ensures var k := FirstOf(s, sep);
      Without(s, sep) == s[..k] + Without(if k < |s| then s[k + 1..] else [], sep)
  {
    var k := FirstOf(s, sep);
    var head, rest := s[..k], if k < |s| then s[k + 1..] else [];
    if k < |s| {
      assert s == head + ([sep] + rest);
      WithoutAppend(head, [sep] + rest, sep);
      assert ([sep] + rest)[1..] == rest;
    } else {
      assert s == head + rest;
      WithoutAppend(head, rest, sep);
    }
    WithoutAbsent(head, sep);
  }

  /**
   * `s.Split(sep, StringSplitOptions.RemoveEmptyEntries)`: the maximal runs of
   * characters other than `sep`, in order. No part is empty or holds `sep`.
   */
  function SplitRemoveEmpty(s: string, sep: char): (parts: seq<string>)
    ensures forall i :: 0 <= i < |parts| ==> parts[i] != [] && sep !in parts[i]
    decreases |s|
  {
    if s == [] then []
    else
      var k := FirstOf(s, sep);
      var head := s[..k];
      var rest := if k < |s| then s[k + 1..] else [];
      var tail := SplitRemoveEmpty(rest, sep);
      if head == [] then tail else [head] + tail
  }

  /** Splitting loses no character but the separators: the parts together are `s` without its `sep`s. */
  lemma {:induction false} SplitKeepsText(s: string, sep: char)
    ensures Concat(SplitRemoveEmpty(s, sep)) == Without(s, sep)
    decreases |s|
  {
    if s != [] {
      var k := FirstOf(s, sep);
      var head := s[..k];
      var rest := if k < |s| then s[k + 1..] else [];
      var tail := SplitRemoveEmpty(rest, sep);
      var parts := SplitRemoveEmpty(s, sep);
      SplitKeepsText(rest, sep);
      assert Concat(parts) == head + Concat(tail) by {
        if head != [] { assert parts[1..] == tail; }
      }
      WithoutAtFirst(s, sep);
    }
  }

  /**
   * The runs of `s` read one character at a time, `cur` being the run read so
   * far: a separator ends the current run, which is kept when it is not empty,
   * and any other character extends it.
   */
  function Runs(s: string, sep: char, cur: string): seq<string>
  {
    if s == [] then (if cur == [] then [] else [cur])
    else if s[0] == sep then (if cur == [] then [] else [cur]) + Runs(s[1..], sep, [])
    else Runs(s[1..], sep, cur + [s[0]])
  }

  /** The scan, from a run `cur` read so far, up to the next separator. */
  lemma {:induction false} RunsToFirst(s: string, sep: char, cur: string)
    ensures var k := FirstOf(s, sep);
      var head := cur + s[..k];
      Runs(s, sep, cur) == (if head == [] then [] else [head]) + Runs(if k < |s| then s[k + 1..] else [], sep, [])
  {
    if s != [] && s[0] != sep {
      var k := FirstOf(s, sep);
      var k' := FirstOf(s[1..], sep);
      assert k == k' + 1;
      RunsToFirst(s[1..], sep, cur + [s[0]]);
      assert cur + [s[0]] + s[1..][..k'] == cur + s[..k];
      if k < |s| {
        assert s[1..][k' + 1..] == s[k + 1..];
      }
    } else if s != [] {
      assert cur + s[..0] == cur;
    } else {
      assert cur + s[..0] == cur;
    }
  }

  /**
   * `SplitRemoveEmpty` agrees with the character-by-character scan: its parts are
   * exactly the maximal non-empty runs of characters other than `sep`, in order.
   */
  lemma {:induction false} SplitIsRuns(s: string, sep: char)
    ensures SplitRemoveEmpty(s, sep) == Runs(s, sep, [])
    decreases |s|
  {
    if s != [] {
      var k := FirstOf(s, sep);
      var rest := if k < |s| then s[k + 1..] else [];
      RunsToFirst(s, sep, []);
      assert [] + s[..k] == s[..k];
      SplitIsRuns(rest, sep);
    }
  }

  /** A leading separator contributes no part. */
  lemma SplitLeadingSep(s: string, sep: char)
    requires s != [] && s[0] == sep
    ensures SplitRemoveEmpty(s, sep) == SplitRemoveEmpty(s[1..], sep)
  {
    assert FirstOf(s, sep) == 0;
  }

  /** A non-empty run before a separator (or the end) is the first part. */
  lemma SplitFirstPart(part: string, rest: string, sep: char)
    requires part != [] && sep !in part && (rest == [] || rest[0] == sep)
    ensures SplitRemoveEmpty(part + rest, sep) == [part] + SplitRemoveEmpty(if rest == [] then [] else rest[1..], sep)
  {
    var s := part + rest;
    assert s[..|part|] == part;
    var j := FirstOf(s, sep);
    assert j == |part|;
    if rest != [] { assert s[|part| + 1..] == rest[1..]; }
  }

  /** A leading '/' contributes no part. */
  lemma SplitSlash(s: string)
    ensures SplitRemoveEmpty("/" + s, '/') == SplitRemoveEmpty(s, '/')
  {
    assert ("/" + s)[1..] == s;
    SplitLeadingSep("/" + s, '/');
  }

  /** A word followed by '/' is the first part. */
  lemma SplitWord(word: string, s: string)
    requires word != [] && '/' !in word
    ensures SplitRemoveEmpty(word + "/" + s, '/') == [word] + SplitRemoveEmpty(s, '/')
  {
    assert word + "/" + s == word + ("/" + s);
    assert ("/" + s)[1..] == s;
    SplitFirstPart(word, "/" + s, '/');
  }

  /** A word between two slashes at the start is the first part. */
  lemma SlashWord(word: string, tail: string)
    requires word != [] && '/' !in word
    ensures SplitRemoveEmpty("/" + word + "/" + tail, '/') == [word] + SplitRemoveEmpty(tail, '/')
  {
    var u := word + "/" + tail;
    SplitSlash(u);
    SplitWord(word, tail);
    assert "/" + u == "/" + word + "/" + tail;
  }
}
