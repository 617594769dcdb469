/** `re.search` and `re.sub` over the hand-made matchers, and what a global
    substitution by a redaction rule guarantees about the text it leaves. */
module Scan {
  import opened Chars
  import opened Wrappers
  import opened Patterns
  import opened PatternFacts

  /** Whether the character before position `i` is a word character: the
      look-behind of a `\b` at `i`. */
  predicate PrevWord(s: string, i: nat)
    requires i <= |s|
  {
    i > 0 && IsWord(s[i - 1])
  }

  /** The length of the match of `p` starting at position `i` of `s`. */
  function MatchAt(p: Pattern, s: string, i: nat): (r: Option<nat>)
    requires i <= |s|
    ensures r.Some? ==> 1 <= r.value <= |s| - i
  {
    MatchCore(p, PrevWord(s, i), s[i..])
  }

  /** `s` holds no match of `p` anywhere. */
  predicate NoMatch(p: Pattern, s: string) {
    forall i :: 0 <= i <= |s| ==> MatchAt(p, s, i).None?
  }

  /** A match found by a scan: `s[start..end]`. */
  datatype Hit = Hit(start: nat, end: nat)

  /** `re.search` from `pos`: the leftmost position at which the pattern
      matches, with the end of that match. */
  function Find(p: Pattern, s: string, pos: nat): (r: Option<Hit>)
    requires pos <= |s|
    ensures r.Some? ==> pos <= r.value.start < r.value.end <= |s|
    ensures r.Some? ==> MatchAt(p, s, r.value.start) == Some(r.value.end - r.value.start)
    ensures r.Some? ==> forall i :: pos <= i < r.value.start ==> MatchAt(p, s, i).None?
    ensures r.None? ==> forall i :: pos <= i <= |s| ==> MatchAt(p, s, i).None?
    decreases |s| - pos
  {
    match MatchAt(p, s, pos)
    case Some(n) => Some(Hit(pos, pos + n))
    case None => if pos == |s| then None else Find(p, s, pos + 1)
  }

  /** `re.search(pattern, text)` is truthy. */
  predicate Matches(p: Pattern, s: string) {
    Find(p, s, 0).Some?
  }

  /** `re.sub` from `pos`: copy the text up to the leftmost match, write its
      replacement, and resume right after the match. */
  function SubFrom(p: Pattern, s: string, pos: nat): string
    requires pos <= |s|
    decreases |s| - pos
  {
    match Find(p, s, pos)
    case None => s[pos..]
    case Some(h) => s[pos..h.start] + Replacement(p, s[h.start..h.end]) + SubFrom(p, s, h.end)
  }

  /** `re.sub(pattern, replacement, text)`: every match replaced. */
  function ReplaceAll(p: Pattern, s: string): string {
    SubFrom(p, s, 0)
  }

  /** `re.search` succeeds exactly when the text holds a match somewhere. */
  lemma MatchesIffNotNoMatch(p: Pattern, s: string)
    ensures Matches(p, s) <==> !NoMatch(p, s)
  {
    var r := Find(p, s, 0);
    if r.Some? {
      assert MatchAt(p, s, r.value.start).Some?;
    }
  }

  /** Without a match, `re.sub` returns the text unchanged. */
  lemma ReplaceAllNoMatch(p: Pattern, s: string)
    requires NoMatch(p, s)
    ensures ReplaceAll(p, s) == s
  {
    MatchesIffNotNoMatch(p, s);
  }

  /** A text with no digit and no '@' holds no match of any pattern. */
  lemma NoWitnessNoMatch(p: Pattern, s: string)
    requires forall i :: 0 <= i < |s| ==> !IsWitness(s[i])
    ensures NoMatch(p, s)
  {
    forall i | 0 <= i <= |s|
      ensures MatchAt(p, s, i).None?
    {
      if MatchAt(p, s, i).Some? {
        MatchHasWitness(p, PrevWord(s, i), s[i..]);
        assert false;
      }
    }
  }

  /** Each placeholder is bracketed and holds no digit and no '@'. */
  lemma TokenShape(j: Pattern)
    requires IsRule(j)
    ensures |Token(j)| >= 2 && Token(j)[0] == '[' && Token(j)[|Token(j)| - 1] == ']'
    ensures forall i :: 0 <= i < |Token(j)| ==> !IsWitness(Token(j)[i])
  {
  }

  /** A leftmost match of a redaction rule that does not start the scanned
      region is preceded by a non-word character: for the `\b` rules by the
      boundary itself, for the e-mail rule because a word character in front
      would have let the match start one position earlier. */
  lemma LeftmostPrecededByNonWord(j: Pattern, s: string, m: nat)
    requires IsRule(j) && 0 < m <= |s|
    requires MatchAt(j, s, m).Some? && MatchAt(j, s, m - 1).None?
    ensures !IsWord(s[m - 1])
  {
    RuleMatchShape(j, PrevWord(s, m), s[m..]);
    if !StartsAtBoundary(j) && IsWord(s[m - 1]) {
      assert s[m - 1..] == [s[m - 1]] + s[m..];
      EmailExtends(s[m - 1], s[m..]);
      assert false;
    }
  }

  /** A match of rule `k` at `x` in `t` is also a match at `y` in `s` when the
      two texts agree on the `m` characters from there, the match lies inside
      them, and the characters just before and just after it look the same to
      `k`. */
  lemma TransferAt(k: Pattern, t: string, x: nat, s: string, y: nat, m: nat)
    requires IsRule(k) && x + m <= |t| && y + m <= |s|
    requires forall i :: x <= i < x + m ==> t[i] == s[i - x + y]
    requires MatchAt(k, t, x).Some? && MatchAt(k, t, x).value <= m
    requires MatchAt(k, t, x).value == m && y + m < |s| ==> StopOK(k, s[y + m])
    requires StartsAtBoundary(k) ==> PrevWord(t, x) == PrevWord(s, y)
    ensures MatchAt(k, s, y).Some?
  {
    var n := MatchAt(k, t, x).value;
    var u := t[x..];
    var v := s[y..];
    RuleMatchShape(k, PrevWord(t, x), u);
    assert Agree(u, v, n) by {
      forall i | 0 <= i < n
        ensures u[i] == v[i]
      {
        assert u[i] == t[x + i];
      }
    }
    if n < m && n < |v| {
      assert v[n] == u[n] by { assert u[n] == t[x + n]; }
    }
    TransferMatch(k, PrevWord(t, x), u, v);
  }

  /** The text before `pos` has already been written out as `L`: either
      nothing has been, or `L` ends with a placeholder's ']' and the scan
      resumes right after a match, in front of a character that is not a
      letter or digit. */
  predicate Context(L: string, s: string, pos: nat)
    requires pos <= |s|
  {
    (L == [] && pos == 0) || (|L| > 0 && L[|L| - 1] == ']' && (pos == |s| || !IsAlnum(s[pos])))
  }

  /** Where the output of a scan copies a stretch of `s`, a match of `k`
      found in that stretch would be a match of `k` in `s`. */
  lemma CopiedStretch(j: Pattern, k: Pattern, s: string, pos: nat, L: string, t: string,
                      stop: nat, x: nat)
    requires IsRule(j) && IsRule(k) && pos <= stop <= |s| && Context(L, s, pos)
    requires |L| + (stop - pos) <= |t| && t[..|L|] == L
    requires forall i :: |L| <= i < |L| + (stop - pos) ==> t[i] == s[pos + i - |L|]
    requires stop < |s| ==> |L| + (stop - pos) < |t| && t[|L| + (stop - pos)] == '['
    requires stop < |s| ==> MatchAt(j, s, stop).Some?
    requires stop < |s| && pos < stop ==> MatchAt(j, s, stop - 1).None?
    requires stop == |s| ==> |t| == |L| + (stop - pos)
    requires |L| <= x <= |L| + (stop - pos)
    requires MatchAt(k, t, x).Some?
    ensures pos + (x - |L|) < stop && MatchAt(k, s, pos + (x - |L|)).Some?
  {
    hide MatchCore;
    var y := pos + (x - |L|);
    var m := stop - y;
    var n := MatchAt(k, t, x).value;
    RuleMatchShape(k, PrevWord(t, x), t[x..]);
    if StartsAtBoundary(k) && x > |L| {
      assert t[x - 1] == s[y - 1];
    }
    if n == m && y + m < |s| && EndsAtBoundary(k) {
      assert t[x..][n - 1] == t[x + n - 1] == s[stop - 1];
      LeftmostPrecededByNonWord(j, s, stop);
      assert false;
    }
    TransferAt(k, t, x, s, y, m);
  }

  /** Every match of a redaction rule holds a digit or an '@' and no bracket. */
  lemma RuleMatchFacts(k: Pattern, t: string, x: nat)
    requires IsRule(k) && x <= |t| && MatchAt(k, t, x).Some?
    ensures forall i :: x <= i < x + MatchAt(k, t, x).value ==> t[i] != ']'
    ensures exists i :: x <= i < x + MatchAt(k, t, x).value && IsWitness(t[i])
  {
    var u := t[x..];
    RuleMatchShape(k, PrevWord(t, x), u);
    MatchHasWitness(k, PrevWord(t, x), u);
    var w :| 0 <= w < MatchAt(k, t, x).value && IsWitness(u[w]);
    assert t[x + w] == u[w];
  }

  /** A stretch of `n` characters starting inside a placeholder either runs
      past its closing ']' or lies inside the placeholder, where there is no
      digit and no '@'. */
  lemma PlaceholderWindow(j: Pattern, t: string, B: nat, x: nat, n: nat)
    requires IsRule(j)
    requires B + |Token(j)| <= |t| && t[B..B + |Token(j)|] == Token(j)
    requires B <= x < B + |Token(j)| && x + n <= |t|
    ensures x + n > B + |Token(j)| ==> t[B + |Token(j)| - 1] == ']'
    ensures x + n <= B + |Token(j)| ==> forall i :: x <= i < x + n ==> !IsWitness(t[i])
  {
    var T := Token(j);
    TokenShape(j);
    assert t[B + |T| - 1] == T[|T| - 1];
    forall i | B <= i < B + |T|
      ensures t[i] == T[i - B]
    {
    }
  }

  /** No match of `k` starts inside a placeholder written by the scan. */
  lemma InsidePlaceholder(j: Pattern, k: Pattern, t: string, B: nat, x: nat)
    requires IsRule(j) && IsRule(k)
    requires B + |Token(j)| <= |t| && t[B..B + |Token(j)|] == Token(j)
    requires B <= x < B + |Token(j)|
    ensures MatchAt(k, t, x).None?
  {
    if MatchAt(k, t, x).Some? {
      PlaceholderWindow(j, t, B, x, MatchAt(k, t, x).value);
      RuleMatchFacts(k, t, x);
      assert false;
    }
  }

  /** A stretch of `s` copied to the output, in front of either the end of
      the text or the placeholder of the next match, holds no match of `k`. */
  lemma CopiedClean(j: Pattern, k: Pattern, s: string, pos: nat, L: string, stop: nat, R: string)
    requires IsRule(j) && IsRule(k) && pos <= stop <= |s| && Context(L, s, pos)
    requires k == j || NoMatch(k, s)
    requires forall i :: pos <= i < stop ==> MatchAt(j, s, i).None?
    requires stop < |s| ==> |R| > 0 && R[0] == '[' && MatchAt(j, s, stop).Some?
    requires stop == |s| ==> R == []
    ensures forall x :: |L| <= x <= |L| + (stop - pos) ==> MatchAt(k, L + s[pos..stop] + R, x).None?
  {
    var t := L + s[pos..stop] + R;
    assert t[..|L|] == L;
    forall i | |L| <= i < |L| + (stop - pos)
      ensures t[i] == s[pos + i - |L|]
    {
    }
    assert stop < |s| ==> t[|L| + (stop - pos)] == R[0];
    forall x | |L| <= x <= |L| + (stop - pos)
      ensures MatchAt(k, t, x).None?
    {
      if MatchAt(k, t, x).Some? {
        CopiedStretch(j, k, s, pos, L, t, stop, x);
        assert false;
      }
    }
  }

  /** Concatenation regrouped. */
  lemma Regroup(L: string, a: string, T: string, r: string)
    ensures L + (a + T + r) == L + a + T + r
    ensures L + a + T + r == L + a + (T + r)
  {
  }

  /** After a step of the scan, the output ends with a placeholder's ']' and
      the text resumes in front of a character that is not a letter or digit. */
  lemma StepContext(j: Pattern, s: string, pos: nat, L: string, h: Hit)
    requires IsRule(j) && pos <= |s|
    requires Find(j, s, pos) == Some(h)
    ensures Context(L + s[pos..h.start] + Token(j), s, h.end)
  {
    hide MatchCore;
    TokenShape(j);
    RuleMatchShape(j, PrevWord(s, h.start), s[h.start..]);
    assert h.end < |s| ==> s[h.start..][h.end - h.start] == s[h.end];
  }

  /** The output written for one step of the scan, the copied stretch up to
      the leftmost match and its placeholder, holds no match of `k`, whatever
      follows it. */
  lemma StepClean(j: Pattern, k: Pattern, s: string, pos: nat, L: string, h: Hit, rest: string)
    requires IsRule(j) && IsRule(k) && pos <= |s|
    requires k == j || NoMatch(k, s)
    requires Context(L, s, pos)
    requires Find(j, s, pos) == Some(h)
    ensures var t := L + s[pos..h.start] + Token(j) + rest;
      forall x :: |L| <= x < |L| + (h.start - pos) + |Token(j)| ==> MatchAt(k, t, x).None?
  {
    var T := Token(j);
    var t := L + s[pos..h.start] + T + rest;
    Regroup(L, s[pos..h.start], T, rest);
    TokenShape(j);
    CopiedClean(j, k, s, pos, L, h.start, T + rest);
    var B := |L| + (h.start - pos);
    assert t[B..B + |T|] == T;
    forall x | B <= x < B + |T|
      ensures MatchAt(k, t, x).None?
    {
      InsidePlaceholder(j, k, t, B, x);
    }
  }

  /** One step of a rule's scan: the text up to the leftmost match, the
      rule's placeholder, and the scan resumed after the match. */
  lemma SubFromStep(j: Pattern, s: string, pos: nat, h: Hit)
    requires IsRule(j) && pos <= |s| && Find(j, s, pos) == Some(h)
    ensures SubFrom(j, s, pos) == s[pos..h.start] + Token(j) + SubFrom(j, s, h.end)
  {
    hide MatchCore;
    assert Replacement(j, s[h.start..h.end]) == Token(j);
  }

  /** No match of `k` starts at or after `lo` in `t`. */
  predicate CleanFrom(k: Pattern, t: string, lo: nat) {
    forall x :: lo <= x <= |t| ==> MatchAt(k, t, x).None?
  }

  /** The scan from `pos` never writes text in which rule `k` matches, when
      `k` is the rule being substituted or `s` holds no match of `k`. */
  lemma {:induction false} SubFromClean(j: Pattern, k: Pattern, s: string, pos: nat, L: string)
    requires IsRule(j) && IsRule(k) && pos <= |s|
    requires k == j || NoMatch(k, s)
    requires Context(L, s, pos)
    ensures CleanFrom(k, L + SubFrom(j, s, pos), |L|)
    decreases |s| - pos
  {
    hide MatchCore;
    match Find(j, s, pos)
    case None =>
      assert L + SubFrom(j, s, pos) == L + s[pos..|s|] + [];
      CopiedClean(j, k, s, pos, L, |s|, []);
    case Some(h) =>
      SubFromStep(j, s, pos, h);
      StepContext(j, s, pos, L, h);
      SubFromClean(j, k, s, h.end, L + s[pos..h.start] + Token(j));
      StepCleanJoin(j, k, s, pos, L, h, SubFrom(j, s, h.end));
  }

  /** A step whose output is clean, followed by a clean rest, gives a clean whole. */
  lemma StepCleanJoin(j: Pattern, k: Pattern, s: string, pos: nat, L: string, h: Hit, rest: string)
    requires IsRule(j) && IsRule(k) && pos <= |s|
    requires k == j || NoMatch(k, s)
    requires Context(L, s, pos)
    requires Find(j, s, pos) == Some(h)
    requires CleanFrom(k, L + s[pos..h.start] + Token(j) + rest, |L + s[pos..h.start] + Token(j)|)
    ensures CleanFrom(k, L + (s[pos..h.start] + Token(j) + rest), |L|)
  {
    hide MatchCore;
    Regroup(L, s[pos..h.start], Token(j), rest);
    StepClean(j, k, s, pos, L, h, rest);
  }

  /** After `re.sub` with a redaction rule, that rule no longer matches. */
  lemma ReplaceAllRemovesMatches(j: Pattern, s: string)
    requires IsRule(j)
    ensures NoMatch(j, ReplaceAll(j, s))
  {
    SubFromClean(j, j, s, 0, []);
    assert [] + SubFrom(j, s, 0) == ReplaceAll(j, s);
  }

  /** `re.sub` with a redaction rule never creates a match of another rule. */
  lemma ReplaceAllKeepsNoMatch(j: Pattern, k: Pattern, s: string)
    requires IsRule(j) && IsRule(k) && NoMatch(k, s)
    ensures NoMatch(k, ReplaceAll(j, s))
  {
    SubFromClean(j, k, s, 0, []);
    assert [] + SubFrom(j, s, 0) == ReplaceAll(j, s);
  }

  /** The length of the digit run a fixed-width numeric pattern needs. */
  function DigitWidth(p: Pattern): nat {
    match p
    case Aadhaar => 12
    case Phone => 10
    case Pincode => 6
    case MaskAadhaar => 12
    case MaskPhone => 10
    case MaskCard => 16
    case _ => 0
  }

  /** A match of a numeric pattern is a run of digits of its width; a match
      of a PAN pattern starts with five capitals. */
  lemma MatchFits(p: Pattern, s: string, i: nat)
    requires i <= |s| && MatchAt(p, s, i).Some?
    ensures DigitWidth(p) > 0 ==> Fits(Digit, s, i, DigitWidth(p))
    ensures p.Pan? || p.MaskPan? ==> Fits(Upper, s, i, 5)
    ensures DigitWidth(p) > 0 ==> !PrevWord(s, i)
    ensures DigitWidth(p) > 0 ==> i + DigitWidth(p) == |s| || !IsWord(s[i + DigitWidth(p)])
  {
    var u := s[i..];
    if DigitWidth(p) > 0 {
      forall k | i <= k < i + DigitWidth(p)
        ensures In(Digit, s[k])
      {
        assert s[k] == u[k - i];
      }
    }
    if p.Pan? || p.MaskPan? {
      forall k | i <= k < i + 5
        ensures In(Upper, s[k])
      {
        assert s[k] == u[k - i];
      }
    }
  }

  /** A run of digits holds no PAN, and no numeric match unless the run is
      exactly the pattern's width: `\b` on both sides needs the match to be
      the whole run. */
  lemma DigitRunNoMatch(p: Pattern, s: string)
    requires forall k :: 0 <= k < |s| ==> IsDigit(s[k])
    requires (DigitWidth(p) > 0 && DigitWidth(p) != |s|) || p.Pan? || p.MaskPan?
    ensures NoMatch(p, s) && ReplaceAll(p, s) == s
  {
    forall i | 0 <= i <= |s|
      ensures MatchAt(p, s, i).None?
    {
      if i > 0 {
        assert IsDigit(s[i - 1]);
      }
      if i + DigitWidth(p) < |s| {
        assert IsDigit(s[i + DigitWidth(p)]);
      }
      if MatchAt(p, s, i).Some? {
        MatchFits(p, s, i);
        assert false;
      }
    }
    ReplaceAllNoMatch(p, s);
  }

  /** A text with fewer digits than a numeric pattern's width holds no match of it. */
  lemma FewDigitsNoMatch(p: Pattern, s: string)
    requires DigitWidth(p) > 0 && CountIn(Digit, s) < DigitWidth(p)
    ensures NoMatch(p, s) && ReplaceAll(p, s) == s
  {
    forall i | 0 <= i <= |s|
      ensures MatchAt(p, s, i).None?
    {
      if MatchAt(p, s, i).Some? {
        MatchFits(p, s, i);
        FitsCount(Digit, s, i, DigitWidth(p));
        assert false;
      }
    }
    ReplaceAllNoMatch(p, s);
  }

  /** A text with fewer than five capitals holds no PAN. */
  lemma FewCapitalsNoPan(p: Pattern, s: string)
    requires (p.Pan? || p.MaskPan?) && CountIn(Upper, s) < 5
    ensures NoMatch(p, s) && ReplaceAll(p, s) == s
  {
    forall i | 0 <= i <= |s|
      ensures MatchAt(p, s, i).None?
    {
      if MatchAt(p, s, i).Some? {
        MatchFits(p, s, i);
        FitsCount(Upper, s, i, 5);
        assert false;
      }
    }
    ReplaceAllNoMatch(p, s);
  }

  /** A match of an e-mail pattern contains an '@'. */
  lemma EmailMatchHasAt(p: Pattern, s: string, i: nat)
    requires (p.Email? || p.MaskEmail?) && i <= |s| && MatchAt(p, s, i).Some?
    ensures '@' in s
  {
    var u := s[i..];
    var a := if p.Email? then Span(EmailLocal, u, 0) else Span(MaskLocal, u, 0);
    assert u[a] == '@' && u[a] == s[i + a];
  }

  /** A text without '@' holds no e-mail address. */
  lemma NoAtNoEmail(p: Pattern, s: string)
    requires (p.Email? || p.MaskEmail?) && '@' !in s
    ensures NoMatch(p, s) && ReplaceAll(p, s) == s
  {
    forall i | 0 <= i <= |s|
      ensures MatchAt(p, s, i).None?
    {
      if MatchAt(p, s, i).Some? {
        EmailMatchHasAt(p, s, i);
        assert false;
      }
    }
    ReplaceAllNoMatch(p, s);
  }

  /** A text that is one whole match is replaced by that match's replacement. */
  lemma WholeMatch(p: Pattern, s: string)
    requires MatchAt(p, s, 0) == Some(|s|)
    ensures ReplaceAll(p, s) == Replacement(p, s)
  {
    hide MatchCore;
    FindHere(p, s, 0, |s|);
    SubFromEnd(p, s);
    SubFromHit(p, s, 0, Hit(0, |s|));
    assert ReplaceAll(p, s) == SubFrom(p, s, 0);
    hide *;
    assert s[0..|s|] == s && s[0..0] == [];
  }

  /** One step of the scan: the text before the hit, its replacement, and the
      scan from the end of the hit. */
  lemma SubFromHit(p: Pattern, s: string, pos: nat, h: Hit)
    requires pos <= |s| && Find(p, s, pos) == Some(h)
    ensures SubFrom(p, s, pos) == s[pos..h.start] + Replacement(p, s[h.start..h.end]) + SubFrom(p, s, h.end)
  {
    hide MatchCore;
  }

  /** Nothing is left to replace at the end of the text. */
  lemma SubFromEnd(p: Pattern, s: string)
    ensures SubFrom(p, s, |s|) == []
  {
    hide MatchCore;
    assert MatchAt(p, s, |s|).None?;
  }

  /** The scan from `pos` finds the first match at or after `pos`. */
  lemma {:induction false} FindFirst(p: Pattern, s: string, pos: nat, i: nat, n: nat)
    requires pos <= i && i + n <= |s| && MatchAt(p, s, i) == Some(n)
    requires forall j :: pos <= j < i ==> MatchAt(p, s, j).None?
    ensures Find(p, s, pos) == Some(Hit(i, i + n))
    decreases i - pos
  {
    hide MatchCore;
    if pos < i {
      FindSkip(p, s, pos);
      FindFirst(p, s, pos + 1, i, n);
    } else {
      FindHere(p, s, pos, n);
    }
  }

  /** The scan moves past a position where the pattern does not match. */
  lemma FindSkip(p: Pattern, s: string, pos: nat)
    requires pos < |s| && MatchAt(p, s, pos).None?
    ensures Find(p, s, pos) == Find(p, s, pos + 1)
  {
    hide MatchCore;
  }

  /** The scan stops at a position where the pattern matches. */
  lemma FindHere(p: Pattern, s: string, pos: nat, n: nat)
    requires pos <= |s| && MatchAt(p, s, pos) == Some(n)
    ensures Find(p, s, pos) == Some(Hit(pos, pos + n))
  {
    hide MatchCore;
  }

  /** The scan from `pos` finds nothing when nothing matches at or after `pos`. */
  lemma {:induction false} FindNothing(p: Pattern, s: string, pos: nat)
    requires pos <= |s|
    requires forall j :: pos <= j <= |s| ==> MatchAt(p, s, j).None?
    ensures Find(p, s, pos).None?
    decreases |s| - pos
  {
    hide MatchCore;
    assert MatchAt(p, s, pos).None?;
    if pos < |s| {
      FindNothing(p, s, pos + 1);
    }
  }

  /** A text in which the scan finds one match and nothing after it is that
      match replaced and everything else kept. */
  lemma SingleMatch(p: Pattern, s: string, h: Hit)
    requires Find(p, s, 0) == Some(h) && Find(p, s, h.end).None?
    ensures ReplaceAll(p, s) == s[..h.start] + Replacement(p, s[h.start..h.end]) + s[h.end..]
  {
    assert SubFrom(p, s, h.end) == s[h.end..];
    assert s[0..h.start] == s[..h.start];
  }

  /** The run of a class in a suffix is the run in the whole text. */
  lemma {:induction false} SpanSuffix(cl: Class, s: string, i: nat, j: nat)
    requires i + j <= |s|
    ensures Span(cl, s[i..], j) == Span(cl, s, i + j)
    decreases |s| - i - j
  {
    if i + j < |s| {
      assert s[i..][j] == s[i + j];
      SpanSuffix(cl, s, i, j + 1);
    }
  }

  /** A match of the masking e-mail pattern at `i` starts with a local-part
      character, and the run of local-part characters there stops at an '@'. */
  lemma MaskEmailStart(s: string, i: nat)
    requires i <= |s| && MatchAt(MaskEmail, s, i).Some?
    ensures i < |s| && In(MaskLocal, s[i])
    ensures i + Span(MaskLocal, s, i) < |s| && s[i + Span(MaskLocal, s, i)] == '@'
  {
    SpanSuffix(MaskLocal, s, i, 0);
    var a := Span(MaskLocal, s, i);
    assert s[i..][a] == s[i + a];
    assert s[i..][0] == s[i];
  }
}
