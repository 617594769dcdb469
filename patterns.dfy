/** The twelve regular expressions of the privacy pipeline, each written as a
    hand-made matcher.

    `MatchCore(p, prevWord, u)` is what Python's `re` engine does when it tries
    pattern `p` at one position of a string: `u` is the rest of the string from
    that position and `prevWord` says whether the character just before it is a
    word character (the only look-behind `\b` needs). The result is the length
    of the match the backtracking engine settles on, or None.

    Every pattern here works on ASCII classes only (see module Chars). Where the
    pattern has quantifiers whose backtracking could matter, the comment on its
    matcher says which alternative wins and why no other can. */
module Patterns {
  import opened Chars
  import opened Wrappers

  datatype Pattern =
    // the seven redaction rules of redact_sensitive_data, in the order they run
    | Aadhaar      // \b\d{12}\b
    | Pan          // \b[A-Z]{5}[0-9]{4}[A-Z]\b
    | Card         // \b(?:\d{4}[\s\-]?){3}\d{1,7}\b
    | Cvv          // \b(?:cvv|cvc)\s*:?\s*\d{3,4}\b, case-insensitive
    | Phone        // \b\d{10}\b
    | Email        // [a-zA-Z0-9_.+-]+@[a-zA-Z0-9-]+\.[a-zA-Z0-9-.]+
    | Pincode      // \b\d{6}\b
    // the five substitutions of mask_sensitive_data, in the order they run
    | MaskAadhaar  // \b(\d{3})\d{6}(\d{3})\b
    | MaskPan      // \b([A-Z]{3})[A-Z]{2}(\d{4})[A-Z]\b
    | MaskPhone    // \b(\d{3})\d{4}(\d{3})\b
    | MaskCard     // \b(\d{4})\d{8}(\d{4})\b
    | MaskEmail    // ([a-zA-Z0-9._%+-])[a-zA-Z0-9._%+-]*(@[a-zA-Z0-9.-]+\.[a-zA-Z]{2,})

  predicate IsRule(p: Pattern) {
    p.Aadhaar? || p.Pan? || p.Card? || p.Cvv? || p.Phone? || p.Email? || p.Pincode?
  }

  /** Every pattern except the two e-mail ones starts and ends with `\b`. */
  predicate StartsAtBoundary(p: Pattern) { !p.Email? && !p.MaskEmail? }
  predicate EndsAtBoundary(p: Pattern) { !p.Email? && !p.MaskEmail? }

  /** `\b` after a match whose last character is a word character. */
  predicate EndsWord(u: string, n: nat)
    requires n <= |u|
  {
    n == |u| || !IsWord(u[n])
  }

  /** `\b\d{w}\b`: a fixed-width run of digits; nothing to backtrack. */
  function DigitWord(w: nat, prevWord: bool, u: string): Option<nat> {
    if !prevWord && Fits(Digit, u, 0, w) && EndsWord(u, w) then Some(w) else None
  }

  /** `\b[A-Z]{5}[0-9]{4}[A-Z]\b` (and the masking variant, which only adds groups). */
  function PanWord(prevWord: bool, u: string): Option<nat> {
    if !prevWord && Fits(Upper, u, 0, 5) && Fits(Digit, u, 5, 4) && Fits(Upper, u, 9, 1)
       && EndsWord(u, 10)
    then Some(10)
    else None
  }

  /** `j` digits start at `q` and a word boundary follows them. */
  predicate DigitsEndWord(u: string, q: nat, j: nat) {
    Fits(Digit, u, q, j) && EndsWord(u, q + j)
  }

  /** `\d{lo,hi}\b` at `q`: the greedy quantifier tries the longest count first
      and gives back one digit at a time until `\b` holds. The result is the
      end of the match. */
  function GreedyDigits(u: string, q: nat, lo: nat, hi: nat): (r: Option<nat>)
    requires 1 <= lo
    ensures r.Some? ==> q + lo <= r.value <= q + hi
    ensures r.Some? ==> Fits(Digit, u, q, r.value - q) && EndsWord(u, r.value)
    ensures r.Some? ==> forall j: nat :: r.value - q < j <= hi ==> !DigitsEndWord(u, q, j)
    ensures r.None? ==> forall j: nat :: lo <= j <= hi ==> !DigitsEndWord(u, q, j)
    decreases hi
  {
    if hi < lo then None
    else if DigitsEndWord(u, q, hi) then Some(q + hi)
    else GreedyDigits(u, q, lo, hi - 1)
  }

  /** `[\s\-]?` at `q`, taken whenever the character is there: the alternative
      that skips it would need a digit at `q`, which a separator is not. */
  function Sep(u: string, q: nat): (r: nat)
    ensures r == q || (r == q + 1 && q < |u|)
    ensures r == q + 1 <==> q < |u| && (IsSpace(u[q]) || u[q] == '-')
  {
    if q < |u| && (IsSpace(u[q]) || u[q] == '-') then q + 1 else q
  }

  /** `\b(?:\d{4}[\s\-]?){3}\d{1,7}\b`. */
  function CardMatch(prevWord: bool, u: string): Option<nat> {
    if prevWord || !Fits(Digit, u, 0, 4) then None
    else
      var p1 := Sep(u, 4);
      if !Fits(Digit, u, p1, 4) then None
      else
        var p2 := Sep(u, p1 + 4);
        if !Fits(Digit, u, p2, 4) then None
        else GreedyDigits(u, Sep(u, p2 + 4), 1, 7)
  }

  predicate IsC(c: char) { c == 'c' || c == 'C' }
  predicate IsV(c: char) { c == 'v' || c == 'V' }

  /** Where the digits of `\b(?:cvv|cvc)\s*:?\s*\d{3,4}\b` start: after the
      longest run of spaces, an optional colon, and the longest run of spaces.
      Backtracking into the two `\s*` or the `:?` only moves that start onto a
      space or a colon, where `\d` fails, so no other start can succeed. */
  function CvvDigitsStart(u: string): (r: nat)
    requires 3 <= |u|
    ensures r <= |u|
  {
    var p := 3 + Span(Space, u, 3);
    var q := if p < |u| && u[p] == ':' then p + 1 else p;
    q + Span(Space, u, q)
  }

  /** `\b(?:cvv|cvc)\s*:?\s*\d{3,4}\b` with re.IGNORECASE. */
  function CvvMatch(prevWord: bool, u: string): Option<nat> {
    if prevWord || |u| < 3 || !IsC(u[0]) || !IsV(u[1]) || !(IsV(u[2]) || IsC(u[2])) then None
    else GreedyDigits(u, CvvDigitsStart(u), 3, 4)
  }

  /** `[a-zA-Z0-9_.+-]+@[a-zA-Z0-9-]+\.[a-zA-Z0-9-.]+`. '@' is not a local
      character and '.' is not a domain character, so giving back characters
      of either run never helps: both runs are maximal, and the last run takes
      everything it can. */
  function EmailMatch(u: string): Option<nat> {
    var a := Span(EmailLocal, u, 0);
    if a == 0 || a == |u| || u[a] != '@' then None
    else
      var d := Span(EmailDomain, u, a + 1);
      if d == 0 || a + 1 + d == |u| || u[a + 1 + d] != '.' then None
      else
        var t := Span(EmailTail, u, a + 2 + d);
        if t == 0 then None else Some(a + 2 + d + t)
  }

  /** The position of the `\.` in `[a-zA-Z0-9.-]+\.[a-zA-Z]{2,}`: the greedy
      domain run gives back one character at a time, so the dot chosen is the
      rightmost one in `lo..k` that is followed by two letters. */
  function LastDot(u: string, lo: nat, k: nat): (r: Option<nat>)
    requires 1 <= lo && k < |u|
    ensures r.Some? ==> lo <= r.value <= k && u[r.value] == '.' && Fits(Alpha, u, r.value + 1, 2)
    ensures r.Some? ==> forall j :: r.value < j <= k ==> !(u[j] == '.' && Fits(Alpha, u, j + 1, 2))
    ensures r.None? ==> forall j :: lo <= j <= k ==> !(u[j] == '.' && Fits(Alpha, u, j + 1, 2))
    decreases k
  {
    if k < lo then None
    else if u[k] == '.' && Fits(Alpha, u, k + 1, 2) then Some(k)
    else LastDot(u, lo, k - 1)
  }

  /** `([a-zA-Z0-9._%+-])[a-zA-Z0-9._%+-]*(@[a-zA-Z0-9.-]+\.[a-zA-Z]{2,})`. */
  function MaskEmailMatch(u: string): Option<nat> {
    var a := Span(MaskLocal, u, 0);
    if a == 0 || a == |u| || u[a] != '@' then None
    else
      var d := Span(MaskDomain, u, a + 1);
      match LastDot(u, a + 2, a + d)
      case None => None
      case Some(k) => Some(k + 1 + Span(Alpha, u, k + 1))
  }

  /** The length of the match of `p` at the start of `u`, if any. */
  function MatchCore(p: Pattern, prevWord: bool, u: string): (r: Option<nat>)
    ensures r.Some? ==> 1 <= r.value <= |u| && FixedWidth(p, r.value)
  {
    match p
    case Aadhaar => DigitWord(12, prevWord, u)
    case Pan => PanWord(prevWord, u)
    case Card => CardMatch(prevWord, u)
    case Cvv => CvvMatch(prevWord, u)
    case Phone => DigitWord(10, prevWord, u)
    case Email => EmailMatch(u)
    case Pincode => DigitWord(6, prevWord, u)
    case MaskAadhaar => DigitWord(12, prevWord, u)
    case MaskPan => PanWord(prevWord, u)
    case MaskPhone => DigitWord(10, prevWord, u)
    case MaskCard => DigitWord(16, prevWord, u)
    case MaskEmail => MaskEmailMatch(u)
  }

  /** The fixed placeholder of each redaction rule. */
  function Token(p: Pattern): string
    requires IsRule(p)
  {
    match p
    case Aadhaar => "[REDACTED_AADHAAR]"
    case Pan => "[REDACTED_PAN]"
    case Card => "[REDACTED_CARD]"
    case Cvv => "[REDACTED_CVV]"
    case Phone => "[REDACTED_PHONE]"
    case Email => "[REDACTED_EMAIL]"
    case Pincode => "[REDACTED_PINCODE]"
  }

  /** The match length of the fixed-width patterns. */
  predicate FixedWidth(p: Pattern, n: nat) {
    match p
    case Aadhaar => n == 12
    case Pan => n == 10
    case Phone => n == 10
    case Pincode => n == 6
    case MaskAadhaar => n == 12
    case MaskPan => n == 10
    case MaskPhone => n == 10
    case MaskCard => n == 16
    case _ => true
  }

  /** What `re.sub` writes in place of the matched text `m`: the rule's token,
      or the masking template with its groups filled in. */
  function Replacement(p: Pattern, m: string): string
    requires 1 <= |m| && FixedWidth(p, |m|)
  {
    match p
    case MaskAadhaar => m[..3] + "******" + m[9..]
    case MaskPan => m[..3] + "**" + m[5..9] + "*"
    case MaskPhone => m[..3] + "****" + m[7..]
    case MaskCard => m[..4] + "********" + m[12..]
    case MaskEmail => [m[0]] + "***" + m[Span(MaskLocal, m, 0)..]
    case Aadhaar => Token(p)
    case Pan => Token(p)
    case Card => Token(p)
    case Cvv => Token(p)
    case Phone => Token(p)
    case Email => Token(p)
    case Pincode => Token(p)
  }

  /** A character every match contains and no token does. */
  predicate IsWitness(c: char) { IsDigit(c) || c == '@' }
}
