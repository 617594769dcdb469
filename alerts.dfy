/** Privacy alerts: the severity enumeration, the alert record the redactor
    emits, and the per-level tallies written into log records and API
    replies. */
module Alerts {

  /** The `SeverityLevel` enumeration; each member's value is a coloured
      circle emoji. */
  datatype SeverityLevel = LOW | MEDIUM | HIGH

  /** The member's value: a green, yellow or red circle. */
  function Value(s: SeverityLevel): string {
    match s
    case LOW => "\U{1F7E2}"
    case MEDIUM => "\U{1F7E1}"
    case HIGH => "\U{1F534}"
  }

  /** The level name written into an alert's "level" key. */
  function Name(s: SeverityLevel): string {
    match s
    case LOW => "LOW"
    case MEDIUM => "MEDIUM"
    case HIGH => "HIGH"
  }

  /** An alert dictionary: {"severity": emoji, "message": text, "level": name}. */
  datatype Alert = Alert(severity: string, message: string, level: string)

  /** The emoji and the level name of an alert belong to the same member. */
  predicate Consistent(a: Alert) {
    exists s: SeverityLevel :: a.severity == Value(s) && a.level == Name(s)
  }

  /** `sum(1 for a in alerts if a.get("level") == level)`. */
  function CountLevel(alerts: seq<Alert>, level: string): (n: nat)
    ensures n <= |alerts|
    ensures n == 0 <==> forall i :: 0 <= i < |alerts| ==> alerts[i].level != level
    ensures n == |alerts| <==> forall i :: 0 <= i < |alerts| ==> alerts[i].level == level
  {
    if alerts == [] then 0
    else
      CountLevel(alerts[..|alerts| - 1], level) + (if alerts[|alerts| - 1].level == level then 1 else 0)
  }

  /** The tally of a concatenation is the sum of the tallies. */
  lemma {:induction false} CountConcat(a: seq<Alert>, b: seq<Alert>, level: string)
    ensures CountLevel(a + b, level) == CountLevel(a, level) + CountLevel(b, level)
    decreases |b|
  {
    if b != [] {
      var b' := b[..|b| - 1];
      assert (a + b)[..|a + b| - 1] == a + b';
      CountConcat(a, b', level);
    } else {
      assert a + b == a;
    }
  }

  /** When every alert carries one of the three level names, the three
      tallies add up to the number of alerts. */
  lemma {:induction false} CountPartition(alerts: seq<Alert>)
    requires forall i :: 0 <= i < |alerts| ==> alerts[i].level in {"HIGH", "MEDIUM", "LOW"}
    ensures CountLevel(alerts, "HIGH") + CountLevel(alerts, "MEDIUM") + CountLevel(alerts, "LOW") == |alerts|
    decreases |alerts|
  {
    if alerts != [] {
      CountPartition(alerts[..|alerts| - 1]);
    }
  }

  /** The "severity_summary" of a log record. */
  datatype SeveritySummary = SeveritySummary(high: nat, medium: nat, low: nat)

  function Summarize(alerts: seq<Alert>): SeveritySummary {
    SeveritySummary(CountLevel(alerts, "HIGH"), CountLevel(alerts, "MEDIUM"), CountLevel(alerts, "LOW"))
  }

  /** The "severity_summary" of a reply of the /chat route: HIGH and MEDIUM only. */
  datatype ChatTally = ChatTally(high: nat, medium: nat)

  function Tally(alerts: seq<Alert>): ChatTally {
    ChatTally(CountLevel(alerts, "HIGH"), CountLevel(alerts, "MEDIUM"))
  }

  /** The alerts of a whole exchange: the prompt's followed by the reply's,
      nothing dropped and nothing merged. */
  function MergeAlerts(prompt: seq<Alert>, reply: seq<Alert>): (all: seq<Alert>)
    ensures |all| == |prompt| + |reply|
    ensures all[..|prompt|] == prompt && all[|prompt|..] == reply
  {
    prompt + reply
  }

  /** The summary of merged alerts is the sum of the two summaries. */
  lemma SummarizeMerge(prompt: seq<Alert>, reply: seq<Alert>)
    ensures var s := Summarize(MergeAlerts(prompt, reply));
      s.high == Summarize(prompt).high + Summarize(reply).high
      && s.medium == Summarize(prompt).medium + Summarize(reply).medium
      && s.low == Summarize(prompt).low + Summarize(reply).low
  {
    CountConcat(prompt, reply, "HIGH");
    CountConcat(prompt, reply, "MEDIUM");
    CountConcat(prompt, reply, "LOW");
  }

  /** The HIGH alerts in their original order: what a blocked message lists. */
  function FilterHigh(alerts: seq<Alert>): (r: seq<Alert>)
    ensures |r| == CountLevel(alerts, "HIGH")
    ensures forall i :: 0 <= i < |r| ==> r[i].level == "HIGH"
    ensures forall a :: a in alerts && a.level == "HIGH" ==> a in r
    ensures forall a :: a in r ==> a in alerts
  {
    if alerts == [] then []
    else
      var init, last := alerts[..|alerts| - 1], alerts[|alerts| - 1];
      assert alerts == init + [last];
      FilterHigh(init) + (if last.level == "HIGH" then [last] else [])
  }
}
