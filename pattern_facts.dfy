/** Facts about the matchers of module Patterns that the scanning proofs rely on:
    what a match of a redaction rule looks like at its edges, and how little of
    the text a match depends on. */
module PatternFacts {
  import opened Chars
  import opened Wrappers
  import opened Patterns

  /** `u` and `v` have the same first `n` characters. */
  predicate Agree(u: string, v: string, n: nat) {
    n <= |u| && n <= |v| && forall k :: 0 <= k < n ==> u[k] == v[k]
  }

  /** What the character after a match of `p` has to satisfy for `p` to match. */
  predicate StopOK(p: Pattern, c: char) {
    EndsAtBoundary(p) ==> !IsWord(c)
  }

  /** Every match of every pattern contains a digit or an '@'; the
      placeholders contain neither. */
  lemma MatchHasWitness(p: Pattern, b: bool, u: string)
    requires MatchCore(p, b, u).Some?
    ensures exists i :: 0 <= i < MatchCore(p, b, u).value && IsWitness(u[i])
  {
    var n := MatchCore(p, b, u).value;
    match p
    case Cvv =>
      var r := CvvDigitsStart(u);
      assert In(Digit, u[r]);
      assert IsWitness(u[r]);
    case Card =>
      assert In(Digit, u[0]);
      assert IsWitness(u[0]);
    case Email =>
      var a := Span(EmailLocal, u, 0);
      assert IsWitness(u[a]);
    case MaskEmail =>
      var a := Span(MaskLocal, u, 0);
      assert IsWitness(u[a]);
    case Pan =>
      assert IsWitness(u[5]);
    case MaskPan =>
      assert IsWitness(u[5]);
    case _ =>
      assert IsWitness(u[0]);
  }

  /** The edges of a match of a redaction rule: it holds no bracket, the
      character after it is not a letter or digit, a `\b` at its start means
      it starts with a letter or digit after a non-word character, and a `\b`
      at its end means it ends with a word character before a non-word one. */
  lemma RuleMatchShape(p: Pattern, b: bool, u: string)
    requires IsRule(p) && MatchCore(p, b, u).Some?
    ensures forall i :: 0 <= i < MatchCore(p, b, u).value ==> u[i] != '[' && u[i] != ']'
    ensures MatchCore(p, b, u).value < |u| ==> !IsAlnum(u[MatchCore(p, b, u).value])
    ensures StartsAtBoundary(p) ==> !b && IsAlnum(u[0])
    ensures EndsAtBoundary(p) ==> IsWord(u[MatchCore(p, b, u).value - 1])
    ensures MatchCore(p, b, u).value < |u| ==> StopOK(p, u[MatchCore(p, b, u).value])
  {
    var n := MatchCore(p, b, u).value;
    match p
    case Aadhaar => DigitWordShape(12, b, u); NoBracket(u, n);
    case Phone => DigitWordShape(10, b, u); NoBracket(u, n);
    case Pincode => DigitWordShape(6, b, u); NoBracket(u, n);
    case Pan => PanShape(b, u); NoBracket(u, n);
    case Card => CardShape(b, u); NoBracket(u, n);
    case Cvv => CvvShape(b, u); NoBracket(u, n);
    case Email => EmailShape(u); NoBracket(u, n);
  }

  /** Every character the rules' matches are made of differs from the brackets. */
  lemma NoBracket(u: string, n: nat)
    requires n <= |u|
    requires forall i :: 0 <= i < n ==> In(EmailLocal, u[i]) || IsSpace(u[i]) || u[i] == '@' || u[i] == ':' || u[i] == '-'
    ensures forall i :: 0 <= i < n ==> u[i] != '[' && u[i] != ']'
  {
  }

  lemma DigitWordShape(w: nat, b: bool, u: string)
    requires 1 <= w && DigitWord(w, b, u).Some?
    ensures forall i :: 0 <= i < w ==> IsDigit(u[i])
    ensures !b && EndsWord(u, w)
  {
    forall i | 0 <= i < w
      ensures IsDigit(u[i])
    {
      assert In(Digit, u[i]);
    }
  }

  lemma PanShape(b: bool, u: string)
    requires PanWord(b, u).Some?
    ensures forall i :: 0 <= i < 10 ==> IsUpper(u[i]) || IsDigit(u[i])
    ensures !b && IsUpper(u[0]) && IsUpper(u[9]) && EndsWord(u, 10)
  {
    forall i | 0 <= i < 10
      ensures IsUpper(u[i]) || IsDigit(u[i])
    {
      if i < 5 {
        assert In(Upper, u[i]);
      } else if i < 9 {
        assert In(Digit, u[i]);
      } else {
        assert In(Upper, u[i]);
      }
    }
  }

  /** A card match is digits with at most three separators in it. */
  lemma CardShape(b: bool, u: string)
    requires CardMatch(b, u).Some?
    ensures var n := CardMatch(b, u).value;
      && (forall i :: 0 <= i < n ==> IsDigit(u[i]) || IsSpace(u[i]) || u[i] == '-')
      && !b && IsDigit(u[0]) && IsDigit(u[n - 1]) && EndsWord(u, n)
  {
    var n := CardMatch(b, u).value;
    var p1 := Sep(u, 4);
    var p2 := Sep(u, p1 + 4);
    var p3 := Sep(u, p2 + 4);
    assert GreedyDigits(u, p3, 1, 7) == Some(n);
    assert Fits(Digit, u, p3, n - p3);
    forall i | 0 <= i < n
      ensures IsDigit(u[i]) || IsSpace(u[i]) || u[i] == '-'
    {
      if i < 4 {
        assert In(Digit, u[i]);
      } else if i < p1 {
      } else if i < p1 + 4 {
        assert In(Digit, u[i]);
      } else if i < p2 {
      } else if i < p2 + 4 {
        assert In(Digit, u[i]);
      } else if i < p3 {
      } else {
        assert In(Digit, u[i]);
      }
    }
    assert In(Digit, u[0]);
    assert In(Digit, u[n - 1]);
  }

  /** A CVV match is the keyword (`c`, then `v`, then `v` or `c`), spaces with
      at most one colon among them, then three or four digits ending at a word
      boundary. */
  lemma CvvShape(b: bool, u: string)
    requires CvvMatch(b, u).Some?
    ensures var n := CvvMatch(b, u).value; var r := CvvDigitsStart(u);
      && !b && IsC(u[0]) && IsV(u[1]) && (IsV(u[2]) || IsC(u[2]))
      && 3 <= r && r + 3 <= n <= r + 4 && Fits(Digit, u, r, n - r) && EndsWord(u, n)
      && (forall i :: 3 <= i < r ==> IsSpace(u[i]) || u[i] == ':')
      && (forall i :: 3 <= i < r && u[i] == ':' ==> i == 3 + Span(Space, u, 3))
      && (forall i :: 0 <= i < n ==> IsC(u[i]) || IsV(u[i]) || IsSpace(u[i]) || u[i] == ':' || IsDigit(u[i]))
      && IsDigit(u[n - 1])
  {
    var n := CvvMatch(b, u).value;
    var r := CvvDigitsStart(u);
    CvvGap(u);
    assert Fits(Digit, u, r, n - r);
    forall i | 0 <= i < n
      ensures IsC(u[i]) || IsV(u[i]) || IsSpace(u[i]) || u[i] == ':' || IsDigit(u[i])
    {
      if r <= i {
        assert In(Digit, u[i]);
      }
    }
    assert In(Digit, u[n - 1]);
  }

  /** Between the keyword and the digits of a CVV match there are only spaces
      and at most one colon, which sits right after the first run of spaces. */
  lemma CvvGap(u: string)
    requires 3 <= |u|
    ensures 3 <= CvvDigitsStart(u)
    ensures forall i :: 3 <= i < CvvDigitsStart(u) ==> IsSpace(u[i]) || u[i] == ':'
    ensures forall i :: 3 <= i < CvvDigitsStart(u) && u[i] == ':' ==> i == 3 + Span(Space, u, 3)
  {
    var p0 := 3 + Span(Space, u, 3);
    var q := if p0 < |u| && u[p0] == ':' then p0 + 1 else p0;
    var r := CvvDigitsStart(u);
    assert r == q + Span(Space, u, q);
    forall i | 3 <= i < r
      ensures (IsSpace(u[i]) || u[i] == ':') && (u[i] == ':' ==> i == p0)
    {
      if i < p0 {
        assert In(Space, u[i]);
      } else if q <= i {
        assert In(Space, u[i]);
      }
    }
  }

  /** An e-mail match is made of the three e-mail classes and '@'; the
      character after it is outside the last class. */
  lemma EmailShape(u: string)
    requires EmailMatch(u).Some?
    ensures var n := EmailMatch(u).value;
      && (forall i :: 0 <= i < n ==> In(EmailLocal, u[i]) || u[i] == '@')
      && (n < |u| ==> !In(EmailTail, u[n]))
  {
    var n := EmailMatch(u).value;
    var a := Span(EmailLocal, u, 0);
    var d := Span(EmailDomain, u, a + 1);
    var t := Span(EmailTail, u, a + 2 + d);
    assert n == a + 2 + d + t;
    forall i | 0 <= i < n
      ensures In(EmailLocal, u[i]) || u[i] == '@'
    {
      if i < a {
      } else if i == a {
      } else if i < a + 1 + d {
        assert In(EmailDomain, u[i]);
      } else if i == a + 1 + d {
      } else {
        assert In(EmailTail, u[i]);
      }
    }
  }

  lemma {:induction false} FitsAgree(cl: Class, u: string, v: string, i: nat, n: nat, m: nat)
    requires Fits(cl, u, i, n) && i + n <= m && Agree(u, v, m)
    ensures Fits(cl, v, i, n)
  {
    forall k | i <= k < i + n
      ensures In(cl, v[k])
    {
      assert v[k] == u[k];
    }
  }

  /** The greedy digit count settles on the same end when the text agrees up
      to that end and the character after it still stops `\b`. */
  lemma {:induction false} GreedyAgree(u: string, v: string, q: nat, lo: nat, hi: nat)
    requires 1 <= lo
    requires GreedyDigits(u, q, lo, hi).Some?
    requires var e := GreedyDigits(u, q, lo, hi).value; Agree(u, v, e) && (e < |v| ==> !IsWord(v[e]))
    ensures GreedyDigits(v, q, lo, hi) == GreedyDigits(u, q, lo, hi)
    decreases hi
  {
    var e := GreedyDigits(u, q, lo, hi).value;
    if q + hi == e {
      FitsAgree(Digit, u, v, q, hi, e);
    } else {
      GreedyAgree(u, v, q, lo, hi - 1);
    }
  }

  /** A match of a redaction rule is decided by the text it covers and, for
      rules ending in `\b`, by the word-ness of the character after it. */
  lemma TransferMatch(p: Pattern, b: bool, u: string, v: string)
    requires IsRule(p) && MatchCore(p, b, u).Some?
    requires var n := MatchCore(p, b, u).value; Agree(u, v, n) && (n < |v| ==> StopOK(p, v[n]))
    ensures MatchCore(p, b, v).Some?
  {
    var n := MatchCore(p, b, u).value;
    match p
    case Aadhaar => FitsAgree(Digit, u, v, 0, 12, n);
    case Phone => FitsAgree(Digit, u, v, 0, 10, n);
    case Pincode => FitsAgree(Digit, u, v, 0, 6, n);
    case Pan =>
      FitsAgree(Upper, u, v, 0, 5, n);
      FitsAgree(Digit, u, v, 5, 4, n);
      FitsAgree(Upper, u, v, 9, 1, n);
    case Card => CardAgree(b, u, v);
    case Cvv => CvvAgree(b, u, v);
    case Email => EmailAgree(u, v);
  }

  lemma CardAgree(b: bool, u: string, v: string)
    requires CardMatch(b, u).Some?
    requires var n := CardMatch(b, u).value; Agree(u, v, n) && (n < |v| ==> !IsWord(v[n]))
    ensures CardMatch(b, v) == CardMatch(b, u)
  {
    var n := CardMatch(b, u).value;
    var p1 := Sep(u, 4);
    var p2 := Sep(u, p1 + 4);
    var p3 := Sep(u, p2 + 4);
    assert GreedyDigits(u, p3, 1, 7) == Some(n);
    FitsAgree(Digit, u, v, 0, 4, n);
    assert Sep(v, 4) == p1 by { assert v[4] == u[4]; }
    FitsAgree(Digit, u, v, p1, 4, n);
    assert Sep(v, p1 + 4) == p2 by { assert v[p1 + 4] == u[p1 + 4]; }
    FitsAgree(Digit, u, v, p2, 4, n);
    assert Sep(v, p2 + 4) == p3 by { assert v[p2 + 4] == u[p2 + 4]; }
    GreedyAgree(u, v, p3, 1, 7);
  }

  lemma CvvAgree(b: bool, u: string, v: string)
    requires CvvMatch(b, u).Some?
    requires var n := CvvMatch(b, u).value; Agree(u, v, n) && (n < |v| ==> !IsWord(v[n]))
    ensures CvvMatch(b, v) == CvvMatch(b, u)
  {
    var n := CvvMatch(b, u).value;
    var r := CvvDigitsStart(u);
    assert GreedyDigits(u, r, 3, 4) == Some(n);
    assert v[0] == u[0] && v[1] == u[1] && v[2] == u[2];
    CvvStartAgree(u, v, n);
    GreedyAgree(u, v, r, 3, 4);
  }

  lemma CvvStartAgree(u: string, v: string, n: nat)
    requires 3 <= |u| && CvvDigitsStart(u) < n && Agree(u, v, n)
    ensures CvvDigitsStart(v) == CvvDigitsStart(u)
  {
    var p0 := 3 + Span(Space, u, 3);
    var q := if p0 < |u| && u[p0] == ':' then p0 + 1 else p0;
    SpanAgree(Space, u, v, 3);
    assert v[p0] == u[p0];
    SpanAgree(Space, u, v, q);
  }

  lemma EmailAgree(u: string, v: string)
    requires EmailMatch(u).Some?
    requires Agree(u, v, EmailMatch(u).value)
    ensures EmailMatch(v).Some?
  {
    var a, d := EmailParts(u);
    SpanAgree(EmailLocal, u, v, 0);
    assert v[a] == u[a];
    SpanAgree(EmailDomain, u, v, a + 1);
    assert v[a + 1 + d] == u[a + 1 + d];
    assert v[a + 2 + d] == u[a + 2 + d];
    EmailIntro(v, a, d);
  }

  /** The conditions of EmailMatch on the run lengths, read back from a match. */
  lemma EmailParts(u: string) returns (a: nat, d: nat)
    requires EmailMatch(u).Some?
    ensures a == Span(EmailLocal, u, 0) && d == Span(EmailDomain, u, a + 1)
    ensures 1 <= a && a + 2 + d <= EmailMatch(u).value && u[a] == '@'
    ensures 1 <= d && u[a + 1 + d] == '.' && In(EmailTail, u[a + 2 + d])
    ensures Span(EmailTail, u, a + 2 + d) >= 1
  {
    a := Span(EmailLocal, u, 0);
    d := Span(EmailDomain, u, a + 1);
  }

  /** A local-part character in front of an e-mail match extends it: the
      match one position earlier succeeds as well. */
  lemma EmailExtends(c: char, w: string)
    requires In(EmailLocal, c) && EmailMatch(w).Some?
    ensures EmailMatch([c] + w).Some?
  {
    var a, d := EmailParts(w);
    EmailExtendsParts(c, w, a, d);
  }

  /** EmailExtends, stated on the run lengths of the shorter text. */
  lemma EmailExtendsParts(c: char, w: string, a: nat, d: nat)
    requires In(EmailLocal, c)
    requires a == Span(EmailLocal, w, 0) && 1 <= a && a + 2 + d <= |w| && w[a] == '@'
    requires d == Span(EmailDomain, w, a + 1) && 1 <= d && w[a + 1 + d] == '.'
    requires Span(EmailTail, w, a + 2 + d) >= 1
    ensures EmailMatch([c] + w).Some?
  {
    hide *;
    ConsLocal(c, w, a);
    ConsDomain(c, w, a, d);
    EmailIntro([c] + w, a + 1, d);
  }

  /** The local part and the '@' of `w`, one position further in `[c] + w`. */
  lemma ConsLocal(c: char, w: string, a: nat)
    requires In(EmailLocal, c)
    requires a == Span(EmailLocal, w, 0) && a < |w| && w[a] == '@'
    ensures Span(EmailLocal, [c] + w, 0) == a + 1 && ([c] + w)[a + 1] == '@'
  {
    SpanShift(EmailLocal, c, w, 0);
    ConsIndex(c, w, 0);
    ConsIndex(c, w, a + 1);
    SpanCons(EmailLocal, [c] + w, 0);
  }

  /** The domain, the dot and the tail of `w`, one position further in `[c] + w`. */
  lemma ConsDomain(c: char, w: string, a: nat, d: nat)
    requires a + 2 + d <= |w| && d == Span(EmailDomain, w, a + 1) && w[a + 1 + d] == '.'
    requires Span(EmailTail, w, a + 2 + d) >= 1
    ensures Span(EmailDomain, [c] + w, a + 2) == d && ([c] + w)[a + 2 + d] == '.'
    ensures Span(EmailTail, [c] + w, a + 3 + d) >= 1
  {
    SpanShift(EmailDomain, c, w, a + 1);
    SpanShift(EmailTail, c, w, a + 2 + d);
    ConsIndex(c, w, a + 2 + d);
  }

  lemma ConsIndex(c: char, w: string, k: nat)
    requires k <= |w|
    ensures k == 0 ==> ([c] + w)[k] == c
    ensures k > 0 ==> ([c] + w)[k] == w[k - 1]
  {
  }

  /** The conditions of EmailMatch, stated on the run lengths `a` (local part)
      and `d` (domain before the dot). */
  lemma EmailIntro(u: string, a: nat, d: nat)
    requires a == Span(EmailLocal, u, 0) && 1 <= a < |u| && u[a] == '@'
    requires d == Span(EmailDomain, u, a + 1) && 1 <= d && a + 1 + d < |u| && u[a + 1 + d] == '.'
    requires Span(EmailTail, u, a + 2 + d) >= 1
    ensures EmailMatch(u).Some?
  {
  }
}
