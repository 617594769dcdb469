/** `mask_sensitive_data`: five unconditional global substitutions that keep
    the edges of a number or of an e-mail address's local part and hide the
    rest behind '*'. Used for the log records. */
module Masker {
  import opened Chars
  import opened Wrappers
  import opened Patterns
  import opened PatternFacts
  import opened Scan

  /** The four numeric substitutions, in source order: Aadhaar, PAN, phone, card. */
  function MaskNumbers(t: string): string {
    ReplaceAll(MaskCard, ReplaceAll(MaskPhone, ReplaceAll(MaskPan, ReplaceAll(MaskAadhaar, t))))
  }

  /** `mask_sensitive_data(text)`: the numeric substitutions, then the e-mail one. */
  function Mask(t: string): string {
    ReplaceAll(MaskEmail, MaskNumbers(t))
  }

  /** The function as the source writes it: the text is rebound five times. */
  method MaskSensitiveData(input: string) returns (text: string)
    ensures text == Mask(input)
  {
    text := input;
    text := ReplaceAll(MaskAadhaar, text);
    text := ReplaceAll(MaskPan, text);
    text := ReplaceAll(MaskPhone, text);
    text := ReplaceAll(MaskCard, text);
    text := ReplaceAll(MaskEmail, text);
  }

  /** The substitutions whose template only hides characters. */
  predicate HidesOnly(p: Pattern) {
    p.MaskAadhaar? || p.MaskPan? || p.MaskPhone? || p.MaskCard?
  }

  /** `r` is `s` with some characters replaced by '*'. */
  predicate Starred(s: string, r: string) {
    |r| == |s| && forall i :: 0 <= i < |s| ==> r[i] == s[i] || r[i] == '*'
  }

  /** The numeric templates keep the matched length and only write '*'. */
  lemma ReplacementStarred(p: Pattern, m: string)
    requires HidesOnly(p) && 1 <= |m| && FixedWidth(p, |m|)
    ensures Starred(m, Replacement(p, m))
  {
    var r := Replacement(p, m);
    forall i | 0 <= i < |m|
      ensures r[i] == m[i] || r[i] == '*'
    {
    }
  }

  /** Concatenating starred pieces gives a starred whole. */
  lemma StarredConcat(s1: string, r1: string, s2: string, r2: string)
    requires Starred(s1, r1) && Starred(s2, r2)
    ensures Starred(s1 + s2, r1 + r2)
  {
    forall i | 0 <= i < |s1 + s2|
      ensures (r1 + r2)[i] == (s1 + s2)[i] || (r1 + r2)[i] == '*'
    {
      if i >= |s1| {
        assert (r1 + r2)[i] == r2[i - |s1|] && (s1 + s2)[i] == s2[i - |s1|];
      }
    }
  }

  /** A text whose middle and tail are starred is starred as a whole. */
  lemma StarredPieces(a: string, m: string, rm: string, c: string, rc: string)
    requires Starred(m, rm) && Starred(c, rc)
    ensures Starred(a + m + c, a + rm + rc)
  {
    StarredConcat(a, a, m, rm);
    StarredConcat(a + m, a + rm, c, rc);
  }

  /** A numeric substitution keeps the length of the text and changes
      characters only into '*'. */
  lemma {:induction false} SubFromStarred(p: Pattern, s: string, pos: nat)
    requires HidesOnly(p) && pos <= |s|
    ensures Starred(s[pos..], SubFrom(p, s, pos))
    decreases |s| - pos
  {
    hide MatchCore;
    match Find(p, s, pos)
    case None =>
      assert SubFrom(p, s, pos) == s[pos..];
    case Some(h) =>
      SubFromStarred(p, s, h.end);
      StarredStep(p, s, pos, h, SubFrom(p, s, h.end));
  }

  /** One step of a numeric substitution, followed by a starred rest, is starred. */
  lemma StarredStep(p: Pattern, s: string, pos: nat, h: Hit, rest: string)
    requires HidesOnly(p) && pos <= |s| && Find(p, s, pos) == Some(h)
    requires Starred(s[h.end..], rest)
    ensures Starred(s[pos..], s[pos..h.start] + Replacement(p, s[h.start..h.end]) + rest)
  {
    var m := s[h.start..h.end];
    hide MatchCore;
    assert 1 <= |m| && FixedWidth(p, |m|);
    hide *;
    ReplacementStarred(p, m);
    assert s[pos..] == s[pos..h.start] + m + s[h.end..];
    StarredPieces(s[pos..h.start], m, Replacement(p, m), s[h.end..], rest);
  }

  /** `Starred` composes. */
  lemma StarredTrans(a: string, b: string, c: string)
    requires Starred(a, b) && Starred(b, c)
    ensures Starred(a, c)
  {
  }

  /** The Aadhaar, PAN, phone and card substitutions together keep the length
      of the text and only turn characters into '*': only the e-mail
      substitution can change the length. */
  lemma MaskNumbersStarred(t: string)
    ensures Starred(t, MaskNumbers(t))
  {
    var t1 := ReplaceAll(MaskAadhaar, t);
    var t2 := ReplaceAll(MaskPan, t1);
    var t3 := ReplaceAll(MaskPhone, t2);
    SubFromStarred(MaskAadhaar, t, 0);
    SubFromStarred(MaskPan, t1, 0);
    SubFromStarred(MaskPhone, t2, 0);
    SubFromStarred(MaskCard, t3, 0);
    assert t[0..] == t && t1[0..] == t1 && t2[0..] == t2 && t3[0..] == t3;
    StarredTrans(t, t1, t2);
    StarredTrans(t, t2, t3);
    StarredTrans(t, t3, MaskNumbers(t));
  }

  /** The e-mail template keeps the first character, writes three '*' in
      place of the rest of the local part, and keeps the '@' and the whole
      domain. */
  lemma MaskEmailKeepsDomain(m: string)
    requires MaskEmailMatch(m) == Some(|m|)
    ensures var a := Span(MaskLocal, m, 0); var r := Replacement(MaskEmail, m);
      1 <= a < |m| && m[a] == '@'
      && r == [m[0]] + "***" + m[a..]
      && |r| == |m| - a + 4
  {
  }

  /** Text with no ASCII digit and no '@' comes back unchanged. */
  lemma NoWitnessUnchanged(t: string)
    requires forall i :: 0 <= i < |t| ==> !IsWitness(t[i])
    ensures Mask(t) == t
  {
    NoWitnessNoMatch(MaskAadhaar, t);
    ReplaceAllNoMatch(MaskAadhaar, t);
    NoWitnessNoMatch(MaskPan, t);
    ReplaceAllNoMatch(MaskPan, t);
    NoWitnessNoMatch(MaskPhone, t);
    ReplaceAllNoMatch(MaskPhone, t);
    NoWitnessNoMatch(MaskCard, t);
    ReplaceAllNoMatch(MaskCard, t);
    NoWitnessNoMatch(MaskEmail, t);
    ReplaceAllNoMatch(MaskEmail, t);
  }

  /** The numeric substitutions need digits, and the PAN one capitals: a text
      with neither comes through them unchanged. */
  lemma NoDigitsNoCapitalsUnchanged(t: string)
    requires CountIn(Digit, t) == 0 && CountIn(Upper, t) == 0
    ensures MaskNumbers(t) == t
  {
    FewDigitsNoMatch(MaskAadhaar, t);
    FewCapitalsNoPan(MaskPan, t);
    FewDigitsNoMatch(MaskPhone, t);
    FewDigitsNoMatch(MaskCard, t);
  }
}
