/** The worked examples in the comments of `mask_sensitive_data`, proved for
    the model: in each, one substitution rewrites the sample and the other
    four leave it as it is. Each fact about a literal text is proved in a
    lemma of its own and the lemmas are then chained through the definition
    of `Mask`. */
module MaskerSamples {
  import opened Chars
  import opened Wrappers
  import opened Patterns
  import opened Scan
  import opened Masker

  // 123456789012 -> 123******012

  lemma AadhaarRewrite(s: string, r: string)
    requires s == "123456789012" && r == "123******012"
    ensures ReplaceAll(MaskAadhaar, s) == r
  {
    assert MatchAt(MaskAadhaar, "123456789012", 0) == Some(12);
    WholeMatch(MaskAadhaar, "123456789012");
  }

  lemma AadhaarNoCapitals(r: string)
    requires r == "123******012"
    ensures CountIn(Upper, r) == 0
  {
    CountNone(Upper, "123******012");
  }

  lemma AadhaarKeepsPan(r: string)
    requires r == "123******012"
    ensures ReplaceAll(MaskPan, r) == r
  {
    AadhaarNoCapitals(r);
    FewCapitalsNoPan(MaskPan, r);
  }

  lemma AadhaarKeepsPhone(r: string)
    requires r == "123******012"
    ensures ReplaceAll(MaskPhone, r) == r
  {
    assert !IsDigit(r[8]);
    hide MatchCore;
    forall i | 0 <= i <= |r|
      ensures MatchAt(MaskPhone, r, i).None?
    {
      if MatchAt(MaskPhone, r, i).Some? {
        MatchFits(MaskPhone, r, i);
        assert false;
      }
    }
    ReplaceAllNoMatch(MaskPhone, r);
  }

  lemma AadhaarKeepsCard(r: string)
    requires r == "123******012"
    ensures ReplaceAll(MaskCard, r) == r
  {
    FewDigitsNoMatch(MaskCard, r);
  }

  lemma AadhaarKeepsEmail(r: string)
    requires r == "123******012"
    ensures ReplaceAll(MaskEmail, r) == r
  {
    NoAtNoEmail(MaskEmail, "123******012");
  }

  lemma AadhaarSteps(s: string, r: string)
    requires s == "123456789012" && r == "123******012"
    ensures Mask(s) == r
  {
    AadhaarRewrite(s, r);
    AadhaarKeepsPan(r);
    AadhaarKeepsPhone(r);
    AadhaarKeepsCard(r);
    AadhaarKeepsEmail(r);
  }

  /** An Aadhaar number keeps its first three and last three digits. */
  lemma AadhaarMasked()
    ensures Mask("123456789012") == "123******012"
  {
    AadhaarSteps("123456789012", "123******012");
  }

  // ABCDE1234F -> ABC**1234*

  lemma PanKeepsAadhaar(s: string)
    requires s == "ABCDE1234F"
    ensures ReplaceAll(MaskAadhaar, s) == s
  {
    FewDigitsNoMatch(MaskAadhaar, s);
  }

  lemma PanRewrite(s: string, r: string)
    requires s == "ABCDE1234F" && r == "ABC**1234*"
    ensures ReplaceAll(MaskPan, s) == r
  {
    assert MatchAt(MaskPan, "ABCDE1234F", 0) == Some(10);
    WholeMatch(MaskPan, "ABCDE1234F");
  }

  lemma PanKeepsPhone(r: string)
    requires r == "ABC**1234*"
    ensures ReplaceAll(MaskPhone, r) == r
  {
    assert !IsDigit(r[0]);
    forall i | 0 <= i <= |r|
      ensures MatchAt(MaskPhone, r, i).None?
    {
      if MatchAt(MaskPhone, r, i).Some? {
        MatchFits(MaskPhone, r, i);
        assert false;
      }
    }
    ReplaceAllNoMatch(MaskPhone, r);
  }

  lemma PanKeepsCard(r: string)
    requires r == "ABC**1234*"
    ensures ReplaceAll(MaskCard, r) == r
  {
    FewDigitsNoMatch(MaskCard, r);
  }

  lemma PanKeepsEmail(r: string)
    requires r == "ABC**1234*"
    ensures ReplaceAll(MaskEmail, r) == r
  {
    NoAtNoEmail(MaskEmail, "ABC**1234*");
  }

  lemma PanSteps(s: string, r: string)
    requires s == "ABCDE1234F" && r == "ABC**1234*"
    ensures Mask(s) == r
  {
    PanKeepsAadhaar(s);
    PanRewrite(s, r);
    PanKeepsPhone(r);
    PanKeepsCard(r);
    PanKeepsEmail(r);
  }

  /** A PAN keeps its first three letters and its four digits. */
  lemma PanMasked()
    ensures Mask("ABCDE1234F") == "ABC**1234*"
  {
    PanSteps("ABCDE1234F", "ABC**1234*");
  }

  // 9876543210 -> 987****210

  lemma PhoneKeepsAadhaar(s: string)
    requires s == "9876543210"
    ensures ReplaceAll(MaskAadhaar, s) == s
  {
    FewDigitsNoMatch(MaskAadhaar, s);
  }

  lemma PhoneKeepsPan(s: string)
    requires s == "9876543210"
    ensures ReplaceAll(MaskPan, s) == s
  {
    DigitRunNoMatch(MaskPan, "9876543210");
  }

  lemma PhoneRewrite(s: string, r: string)
    requires s == "9876543210" && r == "987****210"
    ensures ReplaceAll(MaskPhone, s) == r
  {
    assert MatchAt(MaskPhone, "9876543210", 0) == Some(10);
    WholeMatch(MaskPhone, "9876543210");
  }

  lemma PhoneKeepsCard(r: string)
    requires r == "987****210"
    ensures ReplaceAll(MaskCard, r) == r
  {
    FewDigitsNoMatch(MaskCard, r);
  }

  lemma PhoneKeepsEmail(r: string)
    requires r == "987****210"
    ensures ReplaceAll(MaskEmail, r) == r
  {
    NoAtNoEmail(MaskEmail, "987****210");
  }

  lemma PhoneSteps(s: string, r: string)
    requires s == "9876543210" && r == "987****210"
    ensures Mask(s) == r
  {
    PhoneKeepsAadhaar(s);
    PhoneKeepsPan(s);
    PhoneRewrite(s, r);
    PhoneKeepsCard(r);
    PhoneKeepsEmail(r);
  }

  /** A phone number keeps its first three and last three digits. */
  lemma PhoneMasked()
    ensures Mask("9876543210") == "987****210"
  {
    PhoneSteps("9876543210", "987****210");
  }

  // 1234567890123456 -> 1234********3456

  lemma CardKeepsAadhaar(s: string)
    requires s == "1234567890123456"
    ensures ReplaceAll(MaskAadhaar, s) == s
  {
    DigitRunNoMatch(MaskAadhaar, "1234567890123456");
  }

  lemma CardKeepsPan(s: string)
    requires s == "1234567890123456"
    ensures ReplaceAll(MaskPan, s) == s
  {
    DigitRunNoMatch(MaskPan, "1234567890123456");
  }

  lemma CardKeepsPhone(s: string)
    requires s == "1234567890123456"
    ensures ReplaceAll(MaskPhone, s) == s
  {
    DigitRunNoMatch(MaskPhone, "1234567890123456");
  }

  lemma CardRewrite(s: string, r: string)
    requires s == "1234567890123456" && r == "1234********3456"
    ensures ReplaceAll(MaskCard, s) == r
  {
    assert MatchAt(MaskCard, "1234567890123456", 0) == Some(16);
    WholeMatch(MaskCard, "1234567890123456");
  }

  lemma CardKeepsEmail(r: string)
    requires r == "1234********3456"
    ensures ReplaceAll(MaskEmail, r) == r
  {
    NoAtNoEmail(MaskEmail, "1234********3456");
  }

  lemma CardSteps(s: string, r: string)
    requires s == "1234567890123456" && r == "1234********3456"
    ensures Mask(s) == r
  {
    CardKeepsAadhaar(s);
    CardKeepsPan(s);
    CardKeepsPhone(s);
    CardRewrite(s, r);
    CardKeepsEmail(r);
  }

  /** A card number keeps its first four and last four digits. */
  lemma CardMasked()
    ensures Mask("1234567890123456") == "1234********3456"
  {
    CardSteps("1234567890123456", "1234********3456");
  }

  // john@gmail.com -> j***@gmail.com

  lemma EmailNoDigits(s: string)
    requires s == "john@gmail.com"
    ensures CountIn(Digit, s) == 0
  {
    CountNone(Digit, "john@gmail.com");
  }

  lemma EmailNoCapitals(s: string)
    requires s == "john@gmail.com"
    ensures CountIn(Upper, s) == 0
  {
    CountNone(Upper, "john@gmail.com");
  }

  lemma EmailLastDot(s: string)
    requires s == "john@gmail.com"
    ensures LastDot(s, 6, 13) == Some(10)
  {
    assert LastDot("john@gmail.com", 6, 13) == Some(10);
  }

  lemma EmailSpans(s: string)
    requires s == "john@gmail.com"
    ensures Span(MaskLocal, s, 0) == 4 && Span(MaskDomain, s, 5) == 9 && Span(Alpha, s, 11) == 3 && s[4] == '@'
  {
    SpanIs(MaskLocal, s, 0, 4);
    SpanIs(MaskDomain, s, 5, 9);
    SpanIs(Alpha, s, 11, 3);
  }

  lemma EmailMatchWhole(s: string)
    requires s == "john@gmail.com"
    ensures MatchAt(MaskEmail, s, 0) == Some(14)
  {
    EmailSpans(s);
    EmailLastDot(s);
    assert s[0..] == s;
  }

  lemma EmailReplacement(s: string, r: string)
    requires s == "john@gmail.com" && r == "j***@gmail.com"
    ensures FixedWidth(MaskEmail, |s|) && Replacement(MaskEmail, s) == r
  {
    EmailSpans(s);
  }

  lemma EmailRewrite(s: string, r: string)
    requires s == "john@gmail.com" && r == "j***@gmail.com"
    ensures ReplaceAll(MaskEmail, s) == r
  {
    EmailMatchWhole(s);
    EmailReplacement(s, r);
    hide *;
    WholeMatch(MaskEmail, s);
  }

  lemma EmailSteps(s: string, r: string)
    requires s == "john@gmail.com" && r == "j***@gmail.com"
    ensures Mask(s) == r
  {
    EmailNoDigits(s);
    EmailNoCapitals(s);
    NoDigitsNoCapitalsUnchanged(s);
    EmailRewrite(s, r);
  }

  /** An e-mail address keeps the first character of its local part and its whole domain. */
  lemma EmailMasked()
    ensures Mask("john@gmail.com") == "j***@gmail.com"
  {
    EmailSteps("john@gmail.com", "j***@gmail.com");
  }

  // a@b.co@c.org -> a***@b.co@c.org -> a***@b***@c.org: a second pass masks again

  lemma FirstNoDigits(s: string)
    requires s == "a@b.co@c.org"
    ensures CountIn(Digit, s) == 0
  {
    CountNone(Digit, "a@b.co@c.org");
  }

  lemma FirstNoCapitals(s: string)
    requires s == "a@b.co@c.org"
    ensures CountIn(Upper, s) == 0
  {
    CountNone(Upper, "a@b.co@c.org");
  }

  lemma SecondNoDigits(s: string)
    requires s == "a***@b.co@c.org"
    ensures CountIn(Digit, s) == 0
  {
    CountNone(Digit, "a***@b.co@c.org");
  }

  lemma SecondNoCapitals(s: string)
    requires s == "a***@b.co@c.org"
    ensures CountIn(Upper, s) == 0
  {
    CountNone(Upper, "a***@b.co@c.org");
  }

  lemma FirstPassSpans(s: string)
    requires s == "a@b.co@c.org"
    ensures Span(MaskLocal, s, 0) == 1 && s[1] == '@' && Span(MaskDomain, s, 2) == 4 && Span(Alpha, s, 4) == 2
  {
    SpanIs(MaskLocal, s, 0, 1);
    SpanIs(MaskDomain, s, 2, 4);
    SpanIs(Alpha, s, 4, 2);
  }

  lemma FirstPassDot(s: string)
    requires s == "a@b.co@c.org"
    ensures LastDot(s, 3, 5) == Some(3)
  {
    assert LastDot("a@b.co@c.org", 3, 5) == Some(3);
  }

  lemma FirstPassMatch(s: string)
    requires s == "a@b.co@c.org"
    ensures MatchAt(MaskEmail, s, 0) == Some(6)
  {
    FirstPassSpans(s);
    FirstPassDot(s);
    assert s[0..] == s;
  }

  lemma FirstPassNoMore(s: string)
    requires s == "a@b.co@c.org"
    ensures forall j :: 6 <= j <= |s| ==> MatchAt(MaskEmail, s, j).None?
  {
    assert !In(MaskLocal, s[6]);
    assert forall k :: 7 <= k < |s| ==> s[k] != '@';
    forall j | 6 <= j <= |s|
      ensures MatchAt(MaskEmail, s, j).None?
    {
      if MatchAt(MaskEmail, s, j).Some? {
        MaskEmailStart(s, j);
        assert false;
      }
    }
  }

  lemma FirstPass(s: string, r: string)
    requires s == "a@b.co@c.org" && r == "a***@b.co@c.org"
    ensures ReplaceAll(MaskEmail, s) == r
  {
    FirstPassMatch(s);
    FirstPassNoMore(s);
    FindFirst(MaskEmail, s, 0, 0, 6);
    FindNothing(MaskEmail, s, 6);
    SingleMatch(MaskEmail, s, Hit(0, 6));
    FirstPassPieces(s, r);
  }

  lemma FirstPassPieces(s: string, r: string)
    requires s == "a@b.co@c.org" && r == "a***@b.co@c.org"
    ensures s[..0] + Replacement(MaskEmail, s[0..6]) + s[6..] == r
  {
    var m := s[0..6];
    assert m == "a@b.co";
    SpanIs(MaskLocal, m, 0, 1);
    assert Replacement(MaskEmail, m) == "a***@b.co";
  }

  lemma SecondPassMatch(r: string)
    requires r == "a***@b.co@c.org"
    ensures MatchAt(MaskEmail, r, 5) == Some(10)
  {
    var u := r[5..];
    assert u == "b.co@c.org";
    SuffixMatch(u);
    hide MaskEmailMatch;
    hide Span;
    hide LastDot;
    hide PrevWord;
  }

  lemma SuffixSpans(u: string)
    requires u == "b.co@c.org"
    ensures Span(MaskLocal, u, 0) == 4 && u[4] == '@' && Span(MaskDomain, u, 5) == 5 && Span(Alpha, u, 7) == 3
  {
    SpanIs(MaskLocal, u, 0, 4);
    SpanIs(MaskDomain, u, 5, 5);
    SpanIs(Alpha, u, 7, 3);
  }

  lemma SuffixDot(u: string)
    requires u == "b.co@c.org"
    ensures LastDot(u, 6, 9) == Some(6)
  {
    assert LastDot("b.co@c.org", 6, 9) == Some(6);
  }

  lemma SuffixMatch(u: string)
    requires u == "b.co@c.org"
    ensures MaskEmailMatch(u) == Some(10)
  {
    SuffixSpans(u);
    SuffixDot(u);
  }

  lemma SecondPassNoneBefore(r: string)
    requires r == "a***@b.co@c.org"
    ensures forall j :: 0 <= j < 5 ==> MatchAt(MaskEmail, r, j).None?
  {
    SpanIs(MaskLocal, r, 0, 1);
    assert r[1] != '@';
    assert forall k :: 1 <= k < 5 ==> !In(MaskLocal, r[k]);
    forall j | 0 <= j < 5
      ensures MatchAt(MaskEmail, r, j).None?
    {
      if MatchAt(MaskEmail, r, j).Some? {
        MaskEmailStart(r, j);
        assert false;
      }
    }
  }

  lemma SecondPass(r: string, z: string)
    requires r == "a***@b.co@c.org" && z == "a***@b***@c.org"
    ensures ReplaceAll(MaskEmail, r) == z
  {
    SecondPassMatch(r);
    SecondPassNoneBefore(r);
    FindFirst(MaskEmail, r, 0, 5, 10);
    FindNothing(MaskEmail, r, 15);
    SingleMatch(MaskEmail, r, Hit(5, 15));
    SecondPassPieces(r, z);
  }

  lemma SecondPassPieces(r: string, z: string)
    requires r == "a***@b.co@c.org" && z == "a***@b***@c.org"
    ensures r[..5] + Replacement(MaskEmail, r[5..15]) + r[15..] == z
  {
    var m := r[5..15];
    assert m == "b.co@c.org";
    SpanIs(MaskLocal, m, 0, 4);
    assert Replacement(MaskEmail, m) == "b***@c.org";
    assert r[..5] == "a***@" && r[15..] == [];
  }

  lemma TwoPasses(s: string, r: string, z: string)
    requires s == "a@b.co@c.org" && r == "a***@b.co@c.org" && z == "a***@b***@c.org"
    ensures Mask(s) == r && Mask(r) == z
  {
    FirstNoDigits(s);
    FirstNoCapitals(s);
    NoDigitsNoCapitalsUnchanged(s);
    FirstPass(s, r);
    SecondNoDigits(r);
    SecondNoCapitals(r);
    NoDigitsNoCapitalsUnchanged(r);
    SecondPass(r, z);
  }

  /** Masking is not idempotent: text that was masked once changes again when
      masked a second time, as it does when an already masked prompt is
      logged. */
  lemma MaskNotIdempotent()
    ensures Mask("a@b.co@c.org") == "a***@b.co@c.org"
    ensures Mask(Mask("a@b.co@c.org")) == "a***@b***@c.org" != Mask("a@b.co@c.org")
  {
    TwoPasses("a@b.co@c.org", "a***@b.co@c.org", "a***@b***@c.org");
  }
}
