/** `redact_sensitive_data`: seven rules run in a fixed order; a rule whose
    pattern occurs in the current text adds one alert and replaces every match
    with its placeholder, and later rules see the text it leaves. */
module Redactor {
  import opened Wrappers
  import opened Patterns
  import opened PatternFacts
  import opened Scan
  import opened Alerts

  /** A pattern that is one of the seven redaction rules. */
  type Rule = p: Pattern | IsRule(p) witness Aadhaar

  /** The redaction rules in the order they run. */
  const Rules: seq<Rule> := [Aadhaar, Pan, Card, Cvv, Phone, Email, Pincode]

  /** The fixed severity of each rule. */
  function SeverityOf(p: Pattern): SeverityLevel
    requires IsRule(p)
  {
    match p
    case Aadhaar => HIGH
    case Pan => HIGH
    case Card => HIGH
    case Cvv => HIGH
    case Phone => MEDIUM
    case Email => MEDIUM
    case Pincode => MEDIUM
  }

  /** The alert a rule appends when it fires: identity numbers, cards and
      CVVs are red HIGH alerts, phones, e-mails and postal codes amber MEDIUM. */
  function AlertFor(p: Pattern): (a: Alert)
    requires IsRule(p)
    ensures (p.Aadhaar? || p.Pan? || p.Card? || p.Cvv?) ==> a.severity == "\U{1F534}" && a.level == "HIGH"
    ensures (p.Phone? || p.Email? || p.Pincode?) ==> a.severity == "\U{1F7E1}" && a.level == "MEDIUM"
  {
    var s := SeverityOf(p);
    match p
    case Aadhaar => Alert(Value(s), "Aadhaar number detected and redacted", Name(s))
    case Pan => Alert(Value(s), "PAN card detected and redacted", Name(s))
    case Card => Alert(Value(s), "Card number detected and redacted", Name(s))
    case Cvv => Alert(Value(s), "CVV detected and redacted", Name(s))
    case Phone => Alert(Value(s), "Phone number detected and redacted", Name(s))
    case Email => Alert(Value(s), "Email address detected and redacted", Name(s))
    case Pincode => Alert(Value(s), "Postal code detected and redacted", Name(s))
  }

  /** One block of the source: when the pattern occurs in the text, append
      the rule's alert and replace every match with the placeholder. */
  function Run(p: Pattern, text: string, alerts: seq<Alert>): (string, seq<Alert>)
    requires IsRule(p)
  {
    if Matches(p, text) then (ReplaceAll(p, text), alerts + [AlertFor(p)]) else (text, alerts)
  }

  /** The blocks of `rules` run one after the other. */
  function RunAll(rules: seq<Pattern>, text: string, alerts: seq<Alert>): (string, seq<Alert>)
    requires forall i :: 0 <= i < |rules| ==> IsRule(rules[i])
  {
    if rules == [] then (text, alerts)
    else
      var st := Run(rules[0], text, alerts);
      RunAll(rules[1..], st.0, st.1)
  }

  /** `redact_sensitive_data(text)`: the redacted text and the alerts. */
  function Redact(t: string): (string, seq<Alert>) {
    RunAll(Rules, t, [])
  }

  /** The state after the first `i` blocks: the reference the properties
      below are stated against. */
  function Staged(i: nat, t: string): (string, seq<Alert>)
    requires i <= |Rules|
  {
    if i == 0 then (t, [])
    else
      var st := Staged(i - 1, t);
      Run(Rules[i - 1], st.0, st.1)
  }

  /** The text after the first `i` rules have run. */
  function Stage(i: nat, t: string): string
    requires i <= |Rules|
  {
    Staged(i, t).0
  }

  /** The alerts appended by the first `i` rules. */
  function AlertsUpTo(i: nat, t: string): seq<Alert>
    requires i <= |Rules|
  {
    Staged(i, t).1
  }

  /** Whether rule `i` fires: its pattern occurs in the text the earlier rules left. */
  predicate Fires(i: nat, t: string)
    requires i < |Rules|
  {
    Matches(Rules[i], Stage(i, t))
  }

  /** Whether each rule fires, in rule order. */
  function FiredFlags(t: string): (f: seq<bool>)
    ensures |f| == |Rules| && forall r :: 0 <= r < |Rules| ==> f[r] == Fires(r, t)
  {
    seq(|Rules|, r requires 0 <= r < |Rules| => Fires(r, t))
  }

  /** The positions among the first `i` whose flag is set, in increasing order. */
  function Picked(flags: seq<bool>, i: nat): seq<nat>
    requires i <= |flags|
  {
    if i == 0 then [] else Picked(flags, i - 1) + (if flags[i - 1] then [i - 1] else [])
  }

  /** The indices of the rules that fire among the first `i`. */
  function FiredUpTo(i: nat, t: string): seq<nat>
    requires i <= |Rules|
  {
    Picked(FiredFlags(t), i)
  }

  /** One rule's step, unfolded. */
  lemma Step(i: nat, t: string)
    requires i < |Rules|
    ensures IsRule(Rules[i])
    ensures Stage(i + 1, t) == if Fires(i, t) then ReplaceAll(Rules[i], Stage(i, t)) else Stage(i, t)
    ensures AlertsUpTo(i + 1, t) == AlertsUpTo(i, t) + if Fires(i, t) then [AlertFor(Rules[i])] else []
  {
  }

  /** Running the remaining blocks from the state after the first `k` gives
      the state after all seven. */
  lemma {:induction false} RunAllFromStage(k: nat, t: string)
    requires k <= |Rules|
    ensures RunAll(Rules[k..], Stage(k, t), AlertsUpTo(k, t)) == Staged(|Rules|, t)
    decreases |Rules| - k
  {
    if k < |Rules| {
      assert Rules[k..][0] == Rules[k] && Rules[k..][1..] == Rules[k + 1..];
      RunAllFromStage(k + 1, t);
    }
  }

  /** Once the text after the first `k` rules holds no match of any later
      rule, the later rules change neither the text nor the alerts. */
  lemma {:induction false} QuietFrom(k: nat, i: nat, t: string)
    requires k <= i <= |Rules|
    requires forall r :: k <= r < |Rules| ==> NoMatch(Rules[r], Stage(k, t))
    ensures Staged(i, t) == Staged(k, t)
    decreases i
  {
    hide MatchCore;
    if i > k {
      QuietFrom(k, i - 1, t);
      MatchesIffNotNoMatch(Rules[i - 1], Stage(k, t));
    }
  }

  /** The pipeline agrees with the staged reference: the redaction is the
      state after all seven rules. */
  lemma RedactIsStaged(t: string)
    ensures Redact(t) == (Stage(|Rules|, t), AlertsUpTo(|Rules|, t))
  {
    RunAllFromStage(0, t);
    assert Rules[0..] == Rules;
  }

  /** Running the blocks from the `k`-th on is block `k` then the rest. */
  lemma FoldStep(k: nat, text: string, alerts: seq<Alert>)
    requires k < |Rules|
    ensures RunAll(Rules[k..], text, alerts)
      == RunAll(Rules[k + 1..], Run(Rules[k], text, alerts).0, Run(Rules[k], text, alerts).1)
  {
    assert Rules[k..][1..] == Rules[k + 1..];
  }

  /** The function as the source writes it: seven rule blocks in a row, each
      rebinding the text and growing the alert list. */
  method RedactSensitiveData(input: string) returns (text: string, alerts: seq<Alert>)
    ensures (text, alerts) == Redact(input)
  {
    text := input;
    alerts := [];
    assert Rules[0..] == Rules;
    FoldStep(0, text, alerts);
    text, alerts := RunRule(Aadhaar, text, alerts);
    FoldStep(1, text, alerts);
    text, alerts := RunRule(Pan, text, alerts);
    FoldStep(2, text, alerts);
    text, alerts := RunRule(Card, text, alerts);
    FoldStep(3, text, alerts);
    text, alerts := RunRule(Cvv, text, alerts);
    FoldStep(4, text, alerts);
    text, alerts := RunRule(Phone, text, alerts);
    FoldStep(5, text, alerts);
    text, alerts := RunRule(Email, text, alerts);
    FoldStep(6, text, alerts);
    text, alerts := RunRule(Pincode, text, alerts);
    assert Rules[7..] == [];
  }

  /** One block of the source, as written: the alert is appended and then
      the text is rebound to the substitution's result. */
  method RunRule(p: Pattern, text: string, alerts: seq<Alert>) returns (text': string, alerts': seq<Alert>)
    requires IsRule(p)
    ensures (text', alerts') == Run(p, text, alerts)
  {
    text', alerts' := text, alerts;
    if Matches(p, text) {
      alerts' := alerts' + [AlertFor(p)];
      text' := ReplaceAll(p, text');
    }
  }

  /** Rules 0 to 3 (Aadhaar, PAN, card, CVV) are HIGH with the red circle;
      rules 4 to 6 (phone, e-mail, postal code) MEDIUM with the yellow one;
      no rule is LOW. */
  lemma RuleSeverities(i: nat)
    requires i < |Rules|
    ensures AlertFor(Rules[i]).level == "HIGH" <==> i < 4
    ensures AlertFor(Rules[i]).level == "MEDIUM" <==> 4 <= i
    ensures AlertFor(Rules[i]).level == "HIGH" ==> AlertFor(Rules[i]).severity == "\U{1F534}"
    ensures AlertFor(Rules[i]).level == "MEDIUM" ==> AlertFor(Rules[i]).severity == "\U{1F7E1}"
  {
  }

  /** The `k`-th alert is the alert of the `k`-th firing rule. */
  lemma {:induction false} AlertsOfFired(i: nat, t: string)
    requires i <= |Rules|
    ensures |AlertsUpTo(i, t)| == |FiredUpTo(i, t)|
    ensures forall k :: 0 <= k < |FiredUpTo(i, t)| ==>
      FiredUpTo(i, t)[k] < |Rules| && AlertsUpTo(i, t)[k] == AlertFor(Rules[FiredUpTo(i, t)[k]])
  {
    hide Matches;
    if i > 0 {
      AlertsOfFired(i - 1, t);
      Step(i - 1, t);
      var A := AlertsUpTo(i - 1, t);
      var P := FiredUpTo(i - 1, t);
      if Fires(i - 1, t) {
        assert AlertsUpTo(i, t) == A + [AlertFor(Rules[i - 1])];
        assert FiredUpTo(i, t) == P + [i - 1];
      } else {
        assert AlertsUpTo(i, t) == A;
        assert FiredUpTo(i, t) == P;
      }
    }
  }

  /** The picked positions are increasing, each below `i`, and are exactly
      the positions whose flag is set. */
  lemma {:induction false} PickedInOrder(flags: seq<bool>, i: nat)
    requires i <= |flags|
    ensures |Picked(flags, i)| <= i
    ensures forall k :: 0 <= k < |Picked(flags, i)| ==> Picked(flags, i)[k] < i
    ensures forall k, m :: 0 <= k < m < |Picked(flags, i)| ==> Picked(flags, i)[k] < Picked(flags, i)[m]
    ensures forall r :: 0 <= r < i ==> (r in Picked(flags, i) <==> flags[r])
  {
    if i > 0 {
      PickedInOrder(flags, i - 1);
      var A := Picked(flags, i - 1);
      var B: seq<nat> := if flags[i - 1] then [i - 1] else [];
      assert Picked(flags, i) == A + B;
      forall r | 0 <= r < i
        ensures r in Picked(flags, i) <==> flags[r]
      {
        assert r in A + B <==> r in A || r in B;
        if r == i - 1 {
          assert r !in A;
        }
      }
    }
  }

  /** The `k`-th alert after all seven rules names the `k`-th firing rule. */
  lemma StagedAlertIndices(t: string)
    ensures var al := AlertsUpTo(|Rules|, t); var idx := FiredUpTo(|Rules|, t);
      |al| == |idx|
      && forall k :: 0 <= k < |al| ==> idx[k] < |Rules| && al[k] == AlertFor(Rules[idx[k]]) && RuleIndex(al[k]) == idx[k]
  {
    AlertsOfFired(|Rules|, t);
    var al := AlertsUpTo(|Rules|, t);
    var idx := FiredUpTo(|Rules|, t);
    forall k | 0 <= k < |al|
      ensures RuleIndex(al[k]) == idx[k]
    {
      AlertIndex(idx[k]);
    }
  }

  /** The alerts after all seven rules are at most seven, in rule order. */
  lemma StagedAlertsOrdered(t: string)
    ensures var al := AlertsUpTo(|Rules|, t);
      |al| <= 7 && forall k, m :: 0 <= k < m < |al| ==> RuleIndex(al[k]) < RuleIndex(al[m])
  {
    StagedAlertIndices(t);
    PickedInOrder(FiredFlags(t), |Rules|);
  }

  /** A rule's alert is among those after all seven rules exactly when the
      rule fires. */
  lemma StagedAlertsPresent(t: string)
    ensures forall r :: 0 <= r < |Rules| ==> (AlertFor(Rules[r]) in AlertsUpTo(|Rules|, t) <==> Fires(r, t))
  {
    StagedAlertIndices(t);
    PickedInOrder(FiredFlags(t), |Rules|);
    forall r | 0 <= r < |Rules|
      ensures AlertFor(Rules[r]) in AlertsUpTo(|Rules|, t) <==> Fires(r, t)
    {
      AlertPresent(AlertsUpTo(|Rules|, t), FiredUpTo(|Rules|, t), r, Fires(r, t));
    }
  }

  /** When the `k`-th alert is the alert of the `k`-th picked rule, a rule's
      alert is present exactly when the rule is picked. */
  lemma AlertPresent(al: seq<Alert>, idx: seq<nat>, r: nat, picked: bool)
    requires r < |Rules| && |al| == |idx|
    requires forall k :: 0 <= k < |al| ==> idx[k] < |Rules| && al[k] == AlertFor(Rules[idx[k]])
    requires r in idx <==> picked
    ensures AlertFor(Rules[r]) in al <==> picked
  {
    if AlertFor(Rules[r]) in al {
      var k :| 0 <= k < |al| && al[k] == AlertFor(Rules[r]);
      AlertIndex(r);
      AlertIndex(idx[k]);
    }
    if picked {
      var k :| 0 <= k < |idx| && idx[k] == r;
      assert al[k] == AlertFor(Rules[r]);
    }
  }

  /** At most seven alerts, in the order Aadhaar, PAN, card, CVV, phone,
      e-mail, postal code, each present exactly when its rule fires on the
      text the earlier rules left. */
  lemma AlertsInRuleOrder(t: string)
    ensures |Redact(t).1| <= 7
    ensures forall k, m :: 0 <= k < m < |Redact(t).1| ==>
      RuleIndex(Redact(t).1[k]) < RuleIndex(Redact(t).1[m])
    ensures forall r :: 0 <= r < |Rules| ==> (AlertFor(Rules[r]) in Redact(t).1 <==> Fires(r, t))
  {
    RedactIsStaged(t);
    StagedAlertsOrdered(t);
    StagedAlertsPresent(t);
  }

  /** Which rule an alert comes from, told by its message. */
  function RuleIndex(a: Alert): nat {
    if a.message == "Aadhaar number detected and redacted" then 0
    else if a.message == "PAN card detected and redacted" then 1
    else if a.message == "Card number detected and redacted" then 2
    else if a.message == "CVV detected and redacted" then 3
    else if a.message == "Phone number detected and redacted" then 4
    else if a.message == "Email address detected and redacted" then 5
    else 6
  }

  /** Each rule's alert identifies the rule. */
  lemma AlertIndex(r: nat)
    requires r < |Rules|
    ensures RuleIndex(AlertFor(Rules[r])) == r
  {
    var m := AlertFor(Rules[r]).message;
    if r == 0 {
      assert m == "Aadhaar number detected and redacted";
    } else if r == 1 {
      assert m == "PAN card detected and redacted";
    } else if r == 2 {
      assert m == "Card number detected and redacted";
    } else if r == 3 {
      assert m == "CVV detected and redacted";
    } else if r == 4 {
      assert m == "Phone number detected and redacted";
    } else if r == 5 {
      assert m == "Email address detected and redacted";
    } else {
      assert m == "Postal code detected and redacted";
    }
  }

  /** The alerts after all seven rules are HIGH or MEDIUM, never LOW. */
  lemma StagedAlertLevels(t: string)
    ensures forall a :: a in AlertsUpTo(|Rules|, t) ==> Consistent(a) && a.level in {"HIGH", "MEDIUM"}
  {
    AlertsOfFired(|Rules|, t);
    var al := AlertsUpTo(|Rules|, t);
    var idx := FiredUpTo(|Rules|, t);
    forall a | a in al
      ensures Consistent(a) && a.level in {"HIGH", "MEDIUM"}
    {
      var k :| 0 <= k < |al| && al[k] == a;
      RuleSeverities(idx[k]);
      assert a.severity == Value(SeverityOf(Rules[idx[k]]));
    }
  }

  /** Every alert is HIGH or MEDIUM with the matching emoji; the tallies of a
      redaction count each alert once and never LOW. */
  lemma AlertLevels(t: string)
    ensures forall a :: a in Redact(t).1 ==> Consistent(a) && a.level in {"HIGH", "MEDIUM"}
    ensures CountLevel(Redact(t).1, "LOW") == 0
    ensures CountLevel(Redact(t).1, "HIGH") + CountLevel(Redact(t).1, "MEDIUM") == |Redact(t).1|
  {
    RedactIsStaged(t);
    StagedAlertLevels(t);
    var al := Redact(t).1;
    assert forall i :: 0 <= i < |al| ==> al[i] in al;
    CountPartition(al);
  }

  /** After rule `i` has run, its pattern occurs nowhere in the text, and the
      later rules never bring it back. */
  lemma {:induction false} StageClean(i: nat, n: nat, t: string)
    requires i < n <= |Rules|
    ensures NoMatch(Rules[i], Stage(n, t))
  {
    hide *;
    RuleAt(i);
    if n == i + 1 {
      Step(i, t);
      FiresIffMatches(i, t);
      RunClean(Rules[i], Stage(i, t), Fires(i, t), Stage(n, t));
    } else {
      StageClean(i, n - 1, t);
      Step(n - 1, t);
      RuleAt(n - 1);
      RunKeepsClean(Rules[n - 1], Rules[i], Stage(n - 1, t), Fires(n - 1, t), Stage(n, t));
    }
  }

  lemma RuleAt(r: nat)
    requires r < |Rules|
    ensures IsRule(Rules[r])
  {
  }

  /** A rule's block leaves no match of its own pattern. */
  lemma RunClean(j: Pattern, s: string, fires: bool, s': string)
    requires IsRule(j) && (fires <==> Matches(j, s))
    requires s' == if fires then ReplaceAll(j, s) else s
    ensures NoMatch(j, s')
  {
    if fires {
      ReplaceAllRemovesMatches(j, s);
    } else {
      MatchesIffNotNoMatch(j, s);
    }
  }

  /** A rule's block keeps text clean of another rule's pattern. */
  lemma RunKeepsClean(j: Pattern, k: Pattern, s: string, fires: bool, s': string)
    requires IsRule(j) && IsRule(k) && NoMatch(k, s)
    requires s' == if fires then ReplaceAll(j, s) else s
    ensures NoMatch(k, s')
  {
    if fires {
      ReplaceAllKeepsNoMatch(j, k, s);
    }
  }

  /** Rule `i` fires exactly when its pattern occurs in the text it is given. */
  lemma FiresIffMatches(i: nat, t: string)
    requires i < |Rules|
    ensures Fires(i, t) <==> Matches(Rules[i], Stage(i, t))
  {
  }

  /** The redacted text holds no match of any of the seven patterns. */
  lemma RedactedIsClean(t: string)
    ensures forall i :: 0 <= i < |Rules| ==> NoMatch(Rules[i], Redact(t).0)
  {
    RedactIsStaged(t);
    forall i | 0 <= i < |Rules|
      ensures NoMatch(Rules[i], Redact(t).0)
    {
      StageClean(i, |Rules|, t);
    }
  }

  /** No pattern occurs exactly when no alert is raised, and then the text
      comes back unchanged. */
  lemma {:induction false} NoAlertIffClean(t: string)
    ensures Redact(t).1 == [] <==> forall i :: 0 <= i < |Rules| ==> NoMatch(Rules[i], t)
    ensures Redact(t).1 == [] ==> Redact(t).0 == t
  {
    RedactIsStaged(t);
    AlertsOfFired(|Rules|, t);
    PickedInOrder(FiredFlags(t), |Rules|);
    if Redact(t).1 == [] {
      forall i | 0 <= i <= |Rules|
        ensures Stage(i, t) == t
      {
        QuietStages(i, t);
      }
      forall i | 0 <= i < |Rules|
        ensures NoMatch(Rules[i], t)
      {
        assert !Fires(i, t);
        MatchesIffNotNoMatch(Rules[i], t);
      }
    } else {
      var k := FiredUpTo(|Rules|, t)[0];
      assert k in FiredUpTo(|Rules|, t);
      if forall r :: 0 <= r < |Rules| ==> NoMatch(Rules[r], t) {
        CleanStagesBefore(k, t);
        MatchesIffNotNoMatch(Rules[k], t);
        assert false;
      }
    }
  }

  /** Without any firing rule among the first `i`, the text is untouched. */
  lemma {:induction false} QuietStages(i: nat, t: string)
    requires i <= |Rules|
    requires forall r :: 0 <= r < i ==> !Fires(r, t)
    ensures Stage(i, t) == t
  {
    if i > 0 {
      QuietStages(i - 1, t);
      assert !Fires(i - 1, t);
    }
  }

  /** When the text holds none of the patterns, no stage changes it. */
  lemma {:induction false} CleanStagesBefore(i: nat, t: string)
    requires i <= |Rules|
    requires forall r :: 0 <= r < |Rules| ==> NoMatch(Rules[r], t)
    ensures Stage(i, t) == t
  {
    if i > 0 {
      CleanStagesBefore(i - 1, t);
      MatchesIffNotNoMatch(Rules[i - 1], t);
    }
  }

  /** Redacting twice changes nothing more and raises no alert. */
  lemma RedactIdempotent(t: string)
    ensures Redact(Redact(t).0) == (Redact(t).0, [])
  {
    RedactedIsClean(t);
    NoAlertIffClean(Redact(t).0);
  }
}
