/** ASCII character classes used by the patterns of the privacy pipeline, and the
    two primitive scanning notions built on them: a maximal run of a class
    (`Span`) and a fixed-length stretch of a class (`Fits`). */
module Chars {

  predicate IsDigit(c: char) { '0' <= c <= '9' }
  predicate IsUpper(c: char) { 'A' <= c <= 'Z' }
  predicate IsLower(c: char) { 'a' <= c <= 'z' }
  predicate IsAlpha(c: char) { IsUpper(c) || IsLower(c) }
  predicate IsAlnum(c: char) { IsAlpha(c) || IsDigit(c) }

  /** A word character of `\b`, restricted to ASCII: letters, digits and '_'. */
  predicate IsWord(c: char) { IsAlnum(c) || c == '_' }

  /** `\s` restricted to ASCII: space, tab, line feed, vertical tab, form feed,
      carriage return and the four separators U+001C to U+001F. */
  predicate IsSpace(c: char) { c == ' ' || '\t' <= c <= '\r' || '\U{1C}' <= c <= '\U{1F}' }

  /** The bracketed character classes that occur in the patterns. */
  datatype Class =
    | Digit        // \d  and [0-9]
    | Upper        // [A-Z]
    | Alpha        // [a-zA-Z]
    | Space        // \s
    | EmailLocal   // [a-zA-Z0-9_.+-]
    | EmailDomain  // [a-zA-Z0-9-]
    | EmailTail    // [a-zA-Z0-9-.]
    | MaskLocal    // [a-zA-Z0-9._%+-]
    | MaskDomain   // [a-zA-Z0-9.-]

  predicate In(cl: Class, c: char) {
    match cl
    case Digit => IsDigit(c)
    case Upper => IsUpper(c)
    case Alpha => IsAlpha(c)
    case Space => IsSpace(c)
    case EmailLocal => IsAlnum(c) || c == '_' || c == '.' || c == '+' || c == '-'
    case EmailDomain => IsAlnum(c) || c == '-'
    case EmailTail => IsAlnum(c) || c == '-' || c == '.'
    case MaskLocal => IsAlnum(c) || c == '.' || c == '_' || c == '%' || c == '+' || c == '-'
    case MaskDomain => IsAlnum(c) || c == '.' || c == '-'
  }

  /** `u[i..i+n]` exists and every character of it is in `cl`. */
  predicate Fits(cl: Class, u: string, i: nat, n: nat) {
    i + n <= |u| && forall k :: i <= k < i + n ==> In(cl, u[k])
  }

  /** Length of the maximal run of `cl` characters starting at `i`: what a greedy
      `cl*` consumes there. */
  function Span(cl: Class, u: string, i: nat): (n: nat)
    requires i <= |u|
    ensures Fits(cl, u, i, n)
    ensures i + n < |u| ==> !In(cl, u[i + n])
    decreases |u| - i
  {
    if i < |u| && In(cl, u[i]) then 1 + Span(cl, u, i + 1) else 0
  }

  /** A stretch of `cl` that ends at the end of the text or before a character
      outside `cl` is the maximal run. */
  lemma {:induction false} SpanIs(cl: Class, u: string, i: nat, n: nat)
    requires Fits(cl, u, i, n)
    requires i + n == |u| || !In(cl, u[i + n])
    ensures Span(cl, u, i) == n
    decreases n
  {
    if n > 0 {
      SpanIs(cl, u, i + 1, n - 1);
    }
  }

  /** A run that starts with a `cl` character is one longer than the run after it. */
  lemma SpanCons(cl: Class, u: string, i: nat)
    requires i < |u| && In(cl, u[i])
    ensures Span(cl, u, i) == 1 + Span(cl, u, i + 1)
  {
  }

  /** The run length depends only on the characters up to and including the
      first one outside the class. */
  lemma {:induction false} SpanAgree(cl: Class, u: string, v: string, i: nat)
    requires i <= |u| && i <= |v|
    requires i + Span(cl, u, i) < |u|
    requires i + Span(cl, u, i) < |v|
    requires forall k :: i <= k <= i + Span(cl, u, i) ==> v[k] == u[k]
    ensures Span(cl, v, i) == Span(cl, u, i)
    decreases |u| - i
  {
    if In(cl, u[i]) {
      SpanAgree(cl, u, v, i + 1);
    }
  }

  /** Prepending a character shifts every run by one position. */
  lemma {:induction false} SpanShift(cl: Class, c: char, w: string, i: nat)
    requires i <= |w|
    ensures Span(cl, [c] + w, i + 1) == Span(cl, w, i)
    decreases |w| - i
  {
    var u := [c] + w;
    assert u[i + 1..] == w[i..];
    if i < |w| {
      assert u[i + 1] == w[i];
      if In(cl, w[i]) {
        SpanShift(cl, c, w, i + 1);
      }
    }
  }

  /** How many characters of `s` are in `cl`. */
  function CountIn(cl: Class, s: string): (n: nat)
    ensures n <= |s|
  {
    if s == [] then 0 else (if In(cl, s[0]) then 1 else 0) + CountIn(cl, s[1..])
  }

  /** A text with no character of `cl` counts zero of them. */
  lemma {:induction false} CountNone(cl: Class, s: string)
    requires forall k :: 0 <= k < |s| ==> !In(cl, s[k])
    ensures CountIn(cl, s) == 0
    decreases |s|
  {
    if s != [] {
      assert forall k :: 0 <= k < |s[1..]| ==> s[1..][k] == s[k + 1];
      CountNone(cl, s[1..]);
    }
  }

  /** Counting distributes over concatenation. */
  lemma {:induction false} CountInConcat(cl: Class, a: string, b: string)
    ensures CountIn(cl, a + b) == CountIn(cl, a) + CountIn(cl, b)
    decreases |a|
  {
    if a == [] {
      assert a + b == b;
    } else {
      assert (a + b)[0] == a[0] && (a + b)[1..] == a[1..] + b;
      CountInConcat(cl, a[1..], b);
    }
  }

  /** A text holding a stretch of `n` characters of `cl` holds at least `n` of them. */
  lemma FitsCount(cl: Class, s: string, i: nat, n: nat)
    requires Fits(cl, s, i, n)
    ensures CountIn(cl, s) >= n
  {
    var w := s[i..i + n];
    assert s == s[..i] + w + s[i + n..];
    CountInConcat(cl, s[..i] + w, s[i + n..]);
    CountInConcat(cl, s[..i], w);
    CountAll(cl, w);
  }

  /** A text made only of `cl` characters counts all of them. */
  lemma {:induction false} CountAll(cl: Class, w: string)
    requires forall k :: 0 <= k < |w| ==> In(cl, w[k])
    ensures CountIn(cl, w) == |w|
    decreases |w|
  {
    if w != [] {
      CountAll(cl, w[1..]);
    }
  }
}
