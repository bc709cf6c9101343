/**
  Character classes and small string facts shared by the recognisers and the rules
  engine. Strings are sequences of Unicode scalar values (JavaScript counts UTF-16 code
  units instead, so positions agree only on text inside the Basic Multilingual Plane); the
  character classes are the ASCII ones a JavaScript regular expression without the `u` or
  `i` flag uses.
*/
module Text {

  predicate IsDigit(ch: char) { '0' <= ch <= '9' }

  predicate IsAsciiLetter(ch: char) { 'a' <= ch <= 'z' || 'A' <= ch <= 'Z' }

  /** `\w` */
  predicate IsWordChar(ch: char) { IsDigit(ch) || IsAsciiLetter(ch) || ch == '_' }

  /** Position `p` holds a word character (positions outside the text do not). */
  predicate WordAt(text: string, p: int) { 0 <= p < |text| && IsWordChar(text[p]) }

  /** `\b` at position `p`: exactly one of the characters either side is a word character. */
  predicate AtBoundary(text: string, p: nat) { WordAt(text, p - 1) != WordAt(text, p) }

  /** `\d{n}` at position `p`. */
  predicate DigitsAt(text: string, p: nat, n: nat)
  {
    p + n <= |text| && forall k {:trigger IsDigit(text[k])} :: p <= k < p + n ==> IsDigit(text[k])
  }

  /** The `n` characters at `p` are all `'0'` (the text has them). */
  predicate ZerosAt(text: string, p: nat, n: nat)
    requires p + n <= |text|
  {
    forall k :: p <= k < p + n ==> text[k] == '0'
  }

  /** `'*'.repeat(n)` */
  function Stars(n: nat): (r: string)
    ensures |r| == n
    ensures forall k :: 0 <= k < n ==> r[k] == '*'
  {
    seq(n, _ => '*')
  }

  /** Number of occurrences of `ch` in `s`. */
  function Count(s: string, ch: char): nat
  {
    if s == [] then 0 else (if s[0] == ch then 1 else 0) + Count(s[1..], ch)
  }

  lemma {:induction false} CountConcat(a: string, b: string, ch: char)
    ensures Count(a + b, ch) == Count(a, ch) + Count(b, ch)
    decreases |a|
  {
    if a == [] {
      assert a + b == b;
    } else {
      assert (a + b)[1..] == a[1..] + b;
      CountConcat(a[1..], b, ch);
    }
  }

  lemma {:induction false} CountAbsent(s: string, ch: char)
    requires forall k :: 0 <= k < |s| ==> s[k] != ch
    ensures Count(s, ch) == 0
    decreases |s|
  {
    if s != [] {
      CountAbsent(s[1..], ch);
    }
  }

  /** The first index of `ch` in `s`, or `|s|` when it does not occur. */
  function IndexOf(s: string, ch: char): (i: nat)
    ensures i <= |s|
    ensures i < |s| ==> s[i] == ch
    ensures forall k :: 0 <= k < i ==> s[k] != ch
  {
    if s == [] then 0 else if s[0] == ch then 0 else 1 + IndexOf(s[1..], ch)
  }

  /** `IndexOf` finds the first occurrence. */
  lemma {:induction false} IndexOfFirst(s: string, ch: char, k: nat)
    requires k < |s| && s[k] == ch
    requires forall j :: 0 <= j < k ==> s[j] != ch
    ensures IndexOf(s, ch) == k
    decreases k
  {
    if k > 0 {
      IndexOfFirst(s[1..], ch, k - 1);
    }
  }

  /** The character is found exactly when it occurs. */
  lemma {:induction false} IndexOfCount(s: string, ch: char)
    ensures IndexOf(s, ch) < |s| <==> Count(s, ch) > 0
    decreases |s|
  {
    if s != [] {
      IndexOfCount(s[1..], ch);
    }
  }

  /** Every occurrence lies at or after the first one. */
  lemma CountFromIndexOf(s: string, ch: char)
    ensures Count(s[IndexOf(s, ch)..], ch) == Count(s, ch)
  {
    var i := IndexOf(s, ch);
    assert s == s[..i] + s[i..];
    CountConcat(s[..i], s[i..], ch);
    CountAbsent(s[..i], ch);
  }

  /** ASCII `toLowerCase` of one character. */
  function LowerChar(ch: char): char
  {
    if 'A' <= ch <= 'Z' then (ch as int + 32) as char else ch
  }

  /** ASCII `toLowerCase`. */
  function ToLower(s: string): (r: string)
    ensures |r| == |s|
    ensures forall k :: 0 <= k < |s| ==> r[k] == LowerChar(s[k])
  {
    seq(|s|, k requires 0 <= k < |s| => LowerChar(s[k]))
  }

  /** `needle` occurs in `haystack` starting at index `i`. */
  predicate OccursAt(haystack: string, needle: string, i: nat)
  {
    i + |needle| <= |haystack| && haystack[i..i + |needle|] == needle
  }

  /** An occurrence stays one when text is put in front. */
  lemma OccursAtShift(prefix: string, haystack: string, needle: string, i: nat)
    requires OccursAt(haystack, needle, i)
    ensures OccursAt(prefix + haystack, needle, |prefix| + i)
  {
    assert (prefix + haystack)[|prefix| + i..|prefix| + i + |needle|] == haystack[i..i + |needle|];
  }

  /** `haystack.includes(needle)` */
  predicate Includes(haystack: string, needle: string)
  {
    exists i :: 0 <= i <= |haystack| && OccursAt(haystack, needle, i)
  }
}
