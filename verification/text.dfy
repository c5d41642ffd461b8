/**
  The few Python string primitives the modelled code relies on: `lower()`,
  `strip()`, `startswith`, `in` (substring), `find`, `count` and `replace`.
  Strings are sequences of Unicode scalar values.
 */
module Text {

  /** Python's `str.isspace()`: the characters `strip()` and the regex class `\s` remove. */
  predicate IsSpace(c: char) {
    || c == ' '
    || ('\t' <= c <= '\r')
    || ('\U{1C}' <= c <= '\U{1F}')
    || c == '\U{85}'
    || c == '\U{A0}'
    || c == '\U{1680}'
    || ('\U{2000}' <= c <= '\U{200A}')
    || c == '\U{2028}'
    || c == '\U{2029}'
    || c == '\U{202F}'
    || c == '\U{205F}'
    || c == '\U{3000}'
  }

  predicate IsDigit(c: char) {
    '0' <= c <= '9'
  }

  predicate IsUpper(c: char) {
    'A' <= c <= 'Z'
  }

  /** The regex class `\w`, restricted to ASCII. */
  predicate IsWordChar(c: char) {
    IsDigit(c) || IsUpper(c) || ('a' <= c <= 'z') || c == '_'
  }

  function LowerChar(c: char): char {
    if IsUpper(c) then (c as int + 32) as char else c
  }

  /** `s.lower()` on ASCII letters; every other character is kept. */
  function Lower(s: string): (r: string)
    ensures |r| == |s|
    ensures forall i :: 0 <= i < |s| ==> r[i] == LowerChar(s[i])
  {
    seq(|s|, i requires 0 <= i < |s| => LowerChar(s[i]))
  }

  predicate IsLower(s: string) {
    forall i :: 0 <= i < |s| ==> !IsUpper(s[i])
  }

  /** `s.lstrip()`: the longest suffix of `s` that does not start with whitespace. */
  function LStrip(s: string): (r: string)
    ensures |r| <= |s| && r == s[|s| - |r|..]
    ensures forall i :: 0 <= i < |s| - |r| ==> IsSpace(s[i])
    ensures r == [] || !IsSpace(r[0])
  {
    if |s| > 0 && IsSpace(s[0]) then LStrip(s[1..]) else s
  }

  /** `s.rstrip()`: the longest prefix of `s` that does not end with whitespace. */
  function RStrip(s: string): (r: string)
    ensures |r| <= |s| && r == s[..|r|]
    ensures forall i :: |r| <= i < |s| ==> IsSpace(s[i])
    ensures r == [] || !IsSpace(r[|r| - 1])
  {
    if |s| > 0 && IsSpace(s[|s| - 1]) then RStrip(s[..|s| - 1]) else s
  }

  /** `s.strip()`. */
  function Strip(s: string): (r: string)
    ensures r == [] || (!IsSpace(r[0]) && !IsSpace(r[|r| - 1]))
  {
    RStrip(LStrip(s))
  }

  predicate StartsWith(s: string, p: string) {
    |p| <= |s| && s[..|p|] == p
  }

  /** `p` occurs in `s` starting at index `k`. */
  predicate OccursAt(s: string, p: string, k: int) {
    0 <= k && k + |p| <= |s| && s[k..k + |p|] == p
  }

  /** `s.find(p, i)`: the first occurrence of `p` at or after `i`, or -1. */
  function FindFrom(s: string, p: string, i: nat): (r: int)
    requires i <= |s|
    ensures r == -1 || (i <= r && OccursAt(s, p, r))
    ensures r == -1 ==> forall k :: i <= k <= |s| ==> !OccursAt(s, p, k)
    ensures r != -1 ==> forall k :: i <= k < r ==> !OccursAt(s, p, k)
    decreases |s| - i
  {
    if i + |p| > |s| then -1
    else if s[i..i + |p|] == p then i
    else FindFrom(s, p, i + 1)
  }

  /** `s.find(p)`. */
  function Find(s: string, p: string): int {
    FindFrom(s, p, 0)
  }

  /** `p in s`. */
  predicate Contains(s: string, p: string) {
    Find(s, p) >= 0
  }

  lemma ContainsIff(s: string, p: string)
    ensures Contains(s, p) <==> exists k :: OccursAt(s, p, k)
  {
    if exists k :: OccursAt(s, p, k) {
      var k :| OccursAt(s, p, k);
      assert 0 <= k <= |s|;
    }
  }

  /** A pattern whose first three characters never occur together in `s` is not a substring of it. */
  lemma AbsentByTriple(s: string, p: string)
    requires |p| >= 3
    requires forall i :: 0 <= i < |s| - 2 ==> !(s[i] == p[0] && s[i + 1] == p[1] && s[i + 2] == p[2])
    ensures !Contains(s, p)
  {
    forall k: int
      ensures !OccursAt(s, p, k)
    {
      if 0 <= k && k + |p| <= |s| {
        var w := s[k..k + |p|];
        assert w[0] == s[k] && w[1] == s[k + 1] && w[2] == s[k + 2];
      }
    }
    ContainsIff(s, p);
  }

  /** A pattern with a character that `s` lacks is not a substring of it. */
  lemma AbsentByChar(s: string, p: string, j: nat)
    requires j < |p| && p[j] !in s
    ensures !Contains(s, p)
  {
    forall k: int
      ensures !OccursAt(s, p, k)
    {
      if 0 <= k && k + |p| <= |s| {
        assert s[k..k + |p|][j] == s[k + j];
      }
    }
    ContainsIff(s, p);
  }

  /** Any of the `patterns` is a substring of `s`. */
  predicate ContainsAny(s: string, patterns: seq<string>) {
    exists i :: 0 <= i < |patterns| && Contains(s, patterns[i])
  }

  /** `s.count(p)` for non-empty `p`: non-overlapping occurrences, scanned left to right. */
  function CountOf(s: string, p: string): nat
    requires |p| > 0
  {
    if |s| < |p| then 0
    else if s[..|p|] == p then 1 + CountOf(s[|p|..], p)
    else CountOf(s[1..], p)
  }

  /** `s.replace(pat, rep)`: leftmost non-overlapping occurrences replaced. */
  function ReplaceAll(s: string, pat: string, rep: string): (r: string)
    requires |pat| > 0
  {
    if |s| < |pat| then s
    else if s[..|pat|] == pat then rep + ReplaceAll(s[|pat|..], pat, rep)
    else [s[0]] + ReplaceAll(s[1..], pat, rep)
  }

  /** Text that does not contain the pattern comes out of `replace` unchanged. */
  lemma {:induction false} ReplaceAbsent(s: string, pat: string, rep: string)
    requires |pat| > 0
    requires !Contains(s, pat)
    ensures ReplaceAll(s, pat, rep) == s
    decreases |s|
  {
    ContainsIff(s, pat);
    if |s| >= |pat| {
      assert !OccursAt(s, pat, 0);
      assert s[..|pat|] != pat;
      ContainsIff(s[1..], pat);
      if Contains(s[1..], pat) {
        var k :| OccursAt(s[1..], pat, k);
        assert s[k + 1..k + 1 + |pat|] == s[1..][k..k + |pat|];
        assert OccursAt(s, pat, k + 1);
      }
      ReplaceAbsent(s[1..], pat, rep);
    }
  }

  /** A prefix in which no occurrence of the pattern starts passes through `replace` untouched. */
  lemma {:induction false} ReplaceAfterPrefix(p: string, s: string, pat: string, rep: string)
    requires |pat| > 0
    requires forall k :: 0 <= k < |p| ==> !OccursAt(p + s, pat, k)
    ensures ReplaceAll(p + s, pat, rep) == p + ReplaceAll(s, pat, rep)
    decreases |p|
  {
    if |p| > 0 {
      NoOccurrenceInTail(p, s, pat);
      ReplaceAfterPrefix(p[1..], s, pat, rep);
      ReplaceKeepsHead(p, s, pat, rep);
    } else {
      assert p + s == s;
    }
  }

  /** Dropping the first character of the prefix keeps its occurrence-free positions free. */
  lemma NoOccurrenceInTail(p: string, s: string, pat: string)
    requires |p| > 0
    requires forall k :: 0 <= k < |p| ==> !OccursAt(p + s, pat, k)
    ensures forall k :: 0 <= k < |p| - 1 ==> !OccursAt(p[1..] + s, pat, k)
  {
    var t := p + s;
    assert t[1..] == p[1..] + s;
    forall k | 0 <= k < |p| - 1 ensures !OccursAt(p[1..] + s, pat, k) {
      assert !OccursAt(t, pat, k + 1);
      if k + |pat| <= |t| - 1 {
        assert t[k + 1..k + 1 + |pat|] == (p[1..] + s)[k..k + |pat|];
      }
    }
  }

  /** With no occurrence at the front, `replace` keeps the first character and carries on after it. */
  lemma ReplaceKeepsHead(p: string, s: string, pat: string, rep: string)
    requires |pat| > 0 && |p| > 0
    requires !OccursAt(p + s, pat, 0)
    requires ReplaceAll(p[1..] + s, pat, rep) == p[1..] + ReplaceAll(s, pat, rep)
    ensures ReplaceAll(p + s, pat, rep) == p + ReplaceAll(s, pat, rep)
  {
    var t := p + s;
    if |t| >= |pat| {
      assert t[..|pat|] != pat;
      ReplaceSkipsHead(t, pat, rep);
      assert t[1..] == p[1..] + s;
      assert t[0] == p[0];
      assert p == [p[0]] + p[1..];
    } else {
      assert ReplaceAll(s, pat, rep) == s;
      assert ReplaceAll(t, pat, rep) == t;
    }
  }

  /** Text that does not start with the pattern keeps its first character through `replace`. */
  lemma ReplaceSkipsHead(t: string, pat: string, rep: string)
    requires |pat| > 0 && |t| >= |pat| && t[..|pat|] != pat
    ensures ReplaceAll(t, pat, rep) == [t[0]] + ReplaceAll(t[1..], pat, rep)
  {
  }

  /** Number of occurrences of the character `c`. */
  function Occurrences(s: string, c: char): nat {
    if |s| == 0 then 0 else (if s[0] == c then 1 else 0) + Occurrences(s[1..], c)
  }

  /** `s` with every `c` dropped. */
  function Without(s: string, c: char): string {
    if |s| == 0 then [] else (if s[0] == c then [] else [s[0]]) + Without(s[1..], c)
  }

  lemma {:induction false} WithoutFacts(s: string, c: char)
    ensures forall i :: 0 <= i < |Without(s, c)| ==> Without(s, c)[i] != c
    ensures |Without(s, c)| == |s| - Occurrences(s, c)
  {
    if |s| > 0 {
      WithoutFacts(s[1..], c);
    }
  }

  /** Removing a one-character pattern with `replace(c, '')` is the same as filtering it out. */
  lemma {:induction false} ReplaceCharByNothing(s: string, c: char)
    ensures ReplaceAll(s, [c], "") == Without(s, c)
  {
    if |s| > 0 {
      ReplaceCharByNothing(s[1..], c);
      if s[0] == c {
        assert s[..1] == [c];
      } else {
        assert s[..1] != [c];
      }
    }
  }

  lemma {:induction false} WithoutConcat(a: string, b: string, c: char)
    ensures Without(a + b, c) == Without(a, c) + Without(b, c)
  {
    if |a| == 0 {
      assert a + b == b;
    } else {
      assert (a + b)[1..] == a[1..] + b;
      WithoutConcat(a[1..], b, c);
    }
  }

  lemma {:induction false} WithoutNone(s: string, c: char)
    requires forall i :: 0 <= i < |s| ==> s[i] != c
    ensures Without(s, c) == s
  {
    if |s| > 0 {
      WithoutNone(s[1..], c);
    }
  }

  lemma LowerIsLower(s: string)
    ensures IsLower(Lower(s))
  {
  }

  lemma LowerIdempotent(s: string)
    ensures Lower(Lower(s)) == Lower(s)
  {
  }

  /** Lower-casing keeps whitespace where it is, so it commutes with `strip()`. */
  lemma {:induction false} LowerStripCommute(s: string)
    ensures Strip(Lower(s)) == Lower(Strip(s))
  {
    LowerLStrip(s);
    LowerRStrip(LStrip(s));
  }

  lemma {:induction false} LowerLStrip(s: string)
    ensures LStrip(Lower(s)) == Lower(LStrip(s))
    decreases |s|
  {
    if |s| > 0 {
      LowerCharSpace(s[0]);
      assert Lower(s)[0] == LowerChar(s[0]);
      if IsSpace(s[0]) {
        LowerSuffix(s, 1);
        LowerLStrip(s[1..]);
      }
    }
  }

  lemma LowerPrefix(s: string, n: nat)
    requires n <= |s|
    ensures Lower(s)[..n] == Lower(s[..n])
  {
  }

  lemma LowerSuffix(s: string, n: nat)
    requires n <= |s|
    ensures Lower(s)[n..] == Lower(s[n..])
  {
  }

  /** Lower-casing a character never makes or unmakes whitespace. */
  lemma LowerCharSpace(c: char)
    ensures IsSpace(LowerChar(c)) <==> IsSpace(c)
  {
  }

  lemma LowerRStrip(s: string)
    ensures RStrip(Lower(s)) == Lower(RStrip(s))
  {
    var r := RStrip(s);
    var u := Lower(s);
    LowerPrefix(s, |r|);
    forall i | |r| <= i < |u| ensures IsSpace(u[i]) {
      LowerCharSpace(s[i]);
    }
    if r != [] {
      LowerCharSpace(r[|r| - 1]);
    }
    RStripUnique(u, Lower(r));
  }

  /** A prefix followed only by whitespace and not itself ending in whitespace is what `rstrip()` leaves. */
  lemma RStripUnique(s: string, r: string)
    requires |r| <= |s| && r == s[..|r|]
    requires forall i :: |r| <= i < |s| ==> IsSpace(s[i])
    requires r == [] || !IsSpace(r[|r| - 1])
    ensures RStrip(s) == r
  {
    var q := RStrip(s);
    assert |q| >= |r| by {
      if |r| > 0 { assert r[|r| - 1] == s[|r| - 1]; }
    }
    assert |q| <= |r| by {
      if |q| > 0 { assert q[|q| - 1] == s[|q| - 1]; }
    }
  }

  lemma {:induction false} LStripIdempotent(s: string)
    ensures LStrip(LStrip(s)) == LStrip(s)
  {
  }

  lemma {:induction false} StripIdempotent(s: string)
    ensures Strip(Strip(s)) == Strip(s)
  {
    var l := LStrip(s);
    var r := RStrip(l);
    assert r == [] || !IsSpace(r[0]);
    assert LStrip(r) == r;
    assert RStrip(r) == r;
  }
}
