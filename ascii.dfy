/**
 * ASCII string primitives standing for the JavaScript built-ins the bot relies on:
 * `\s`, line terminators, `String.prototype.trim`, `toUpperCase`, `startsWith`,
 * `endsWith` and `includes`. Only the ASCII members of each character class are modelled.
 */
module Ascii {

  /** The ASCII members of ECMAScript's WhiteSpace and LineTerminator sets (`\s`, `trim`). */
  predicate IsSpace(c: char) {
    c == ' ' || c == '\t' || c == '\n' || c == '\r' || c == '\U{0B}' || c == '\U{0C}'
  }

  /** The ASCII line terminators, which a regular-expression `.` does not match. */
  predicate IsLineBreak(c: char) {
    c == '\n' || c == '\r'
  }

  predicate AllSpace(s: string) {
    forall i :: 0 <= i < |s| ==> IsSpace(s[i])
  }

  predicate NoSpace(s: string) {
    forall i :: 0 <= i < |s| ==> !IsSpace(s[i])
  }

  predicate NoLineBreak(s: string) {
    forall i :: 0 <= i < |s| ==> !IsLineBreak(s[i])
  }

  /** Neither the first nor the last character is whitespace. */
  predicate Trimmed(s: string) {
    s == [] || (!IsSpace(s[0]) && !IsSpace(s[|s| - 1]))
  }

  predicate IsLower(c: char) {
    'a' <= c <= 'z'
  }

  predicate NoLower(s: string) {
    forall i :: 0 <= i < |s| ==> !IsLower(s[i])
  }

  predicate EndsWith(s: string, suffix: string) {
    |suffix| <= |s| && s[|s| - |suffix|..] == suffix
  }

  /** `String.prototype.startsWith`, compared one character at a time. */
  predicate StartsWith(s: string, p: string)
    decreases |p|
  {
    p == [] || (s != [] && s[0] == p[0] && StartsWith(s[1..], p[1..]))
  }

  /** `startsWith` holds exactly when `p` is a prefix of `s`. */
  lemma {:induction false} StartsWithPrefix(s: string, p: string)
    ensures StartsWith(s, p) <==> p <= s
    decreases |p|
  {
    if p != [] && s != [] {
      StartsWithPrefix(s[1..], p[1..]);
      if p <= s {
        assert p[1..] <= s[1..];
      }
    }
  }

  /** Length of the longest all-whitespace prefix of `s` (what a greedy `\s+` consumes). */
  function SpaceRun(s: string): (n: nat)
    ensures n <= |s|
    ensures AllSpace(s[..n])
    ensures n < |s| ==> !IsSpace(s[n])
  {
    if s == [] || !IsSpace(s[0]) then 0 else 1 + SpaceRun(s[1..])
  }

  /** Length of the longest whitespace-free prefix of `s` (what a greedy `\S+` consumes). */
  function WordRun(s: string): (n: nat)
    ensures n <= |s|
    ensures NoSpace(s[..n])
    ensures n < |s| ==> IsSpace(s[n])
  {
    if s == [] || IsSpace(s[0]) then 0 else 1 + WordRun(s[1..])
  }

  /** Length of the longest all-whitespace suffix of `s`. */
  function TrailingSpaceRun(s: string): (n: nat)
    ensures n <= |s|
    ensures AllSpace(s[|s| - n..])
    ensures n < |s| ==> !IsSpace(s[|s| - n - 1])
  {
    if s == [] || !IsSpace(s[|s| - 1]) then 0 else 1 + TrailingSpaceRun(s[..|s| - 1])
  }

  /** `String.prototype.trim`: removes whitespace at both ends. */
  function Trim(s: string): (r: string)
    ensures Trimmed(r)
    ensures |r| <= |s|
  {
    var a := s[SpaceRun(s)..];
    a[..|a| - TrailingSpaceRun(a)]
  }

  /** The run lengths are determined by where the whitespace stops. */
  lemma {:induction false} SpaceRunOf(w: string, x: string)
    requires AllSpace(w)
    requires x == [] || !IsSpace(x[0])
    ensures SpaceRun(w + x) == |w|
  {
    if w != [] {
      assert (w + x)[1..] == w[1..] + x;
      SpaceRunOf(w[1..], x);
    }
  }

  lemma {:induction false} WordRunOf(w: string, x: string)
    requires NoSpace(w)
    requires x == [] || IsSpace(x[0])
    ensures WordRun(w + x) == |w|
  {
    if w != [] {
      assert (w + x)[1..] == w[1..] + x;
      WordRunOf(w[1..], x);
    }
  }

  lemma {:induction false} TrailingSpaceRunOf(x: string, w: string)
    requires AllSpace(w)
    requires x == [] || !IsSpace(x[|x| - 1])
    ensures TrailingSpaceRun(x + w) == |w|
  {
    if w != [] {
      assert (x + w)[..|x + w| - 1] == x + w[..|w| - 1];
      TrailingSpaceRunOf(x, w[..|w| - 1]);
    }
  }

  /** Trim removes exactly the surrounding whitespace and nothing else. */
  lemma TrimExact(w1: string, m: string, w2: string)
    requires AllSpace(w1) && AllSpace(w2) && Trimmed(m)
    ensures Trim(w1 + m + w2) == m
  {
    if m == [] {
      assert w1 + m + w2 == w1 + w2;
      AllSpaceRun(w1 + w2);
      assert (w1 + w2)[|w1 + w2|..] == [];
    } else {
      assert w1 + m + w2 == w1 + (m + w2);
      SpaceRunOf(w1, m + w2);
      assert (w1 + m + w2)[|w1|..] == m + w2;
      TrailingSpaceRunOf(m, w2);
      assert (m + w2)[..|m|] == m;
    }
  }

  lemma {:induction false} AllSpaceRun(w: string)
    requires AllSpace(w)
    ensures SpaceRun(w) == |w|
  {
    assert w + [] == w;
    SpaceRunOf(w, []);
  }

  /** Trim of a string without surrounding whitespace is the string itself. */
  lemma TrimTrimmed(s: string)
    requires Trimmed(s)
    ensures Trim(s) == s
  {
    assert [] + s + [] == s;
    TrimExact([], s, []);
  }

  /** Trim leaves a trimmed string: it is idempotent. */
  lemma TrimIdempotent(s: string)
    ensures Trim(Trim(s)) == Trim(s)
  {
    TrimTrimmed(Trim(s));
  }

  function UpperChar(c: char): (u: char)
    ensures !IsLower(u)
    ensures IsSpace(u) == IsSpace(c) && IsLineBreak(u) == IsLineBreak(c)
  {
    if IsLower(c) then (c as int - 32) as char else c
  }

  /** `String.prototype.toUpperCase` on ASCII letters; every other character is kept. */
  function Upper(s: string): (r: string)
    ensures |r| == |s| && NoLower(r)
    ensures forall i :: 0 <= i < |s| ==> IsSpace(r[i]) == IsSpace(s[i]) && IsLineBreak(r[i]) == IsLineBreak(s[i])
  {
    seq(|s|, i requires 0 <= i < |s| => UpperChar(s[i]))
  }

  /** Upper-casing works character by character, so it distributes over concatenation. */
  lemma UpperConcat(a: string, b: string)
    ensures Upper(a + b) == Upper(a) + Upper(b)
  {
  }

  /** Upper-casing a text that has no lower-case letters changes nothing. */
  lemma UpperNoLower(s: string)
    requires NoLower(s)
    ensures Upper(s) == s
  {
  }

  /** `String.prototype.includes`. */
  predicate Contains(s: string, p: string) {
    p <= s || (s != [] && Contains(s[1..], p))
  }

  /** A text in which character `c` does not occur does not contain a pattern that has `c`. */
  lemma {:induction false} NotContains(s: string, p: string, c: char)
    requires c in p && c !in s
    ensures !Contains(s, p)
  {
    if s != [] {
      NotContains(s[1..], p, c);
    }
  }

  /** Index of the first occurrence of `c` in `s`, if any (`indexOf`). */
  function IndexOf(s: string, c: char): (r: nat)
    ensures r <= |s|
    ensures c !in s[..r]
    ensures r < |s| ==> s[r] == c
  {
    if s == [] then 0 else if s[0] == c then 0 else 1 + IndexOf(s[1..], c)
  }
}
