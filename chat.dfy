/** The Gradio handler `gradio_chat` and the `/chat` route: redact the user's
    message, block it in strict mode when it carries a HIGH alert, otherwise
    send the redacted text to the language model, redact the reply, log the
    exchange with masked text, and answer with the reply and a badge. The
    model's answer and the outcome of writing the log are parameters; the
    HTML around each notice is left out and only what it shows is kept. */
module Chat {
  import opened Wrappers
  import opened Patterns
  import opened Scan
  import opened Alerts
  import opened Redactor
  import opened Masker

  datatype Role = User | Assistant

  /** One coloured line of a notice: an alert's emoji and message. */
  datatype Line = Line(color: string, text: string)

  /** The box under an answer: the alerts of the exchange, or the all-clear. */
  datatype Badge =
    | AlertBadge(lines: seq<Line>, mode: string, sensitivity: string)
    | SafeBadge(mode: string, sensitivity: string)

  /** What a history entry shows. */
  datatype Content =
    | Said(text: string)                   // the user's message as typed
    | Blocked(lines: seq<Line>)            // the strict-mode block notice
    | Answer(reply: string, badge: Badge)  // the redacted reply and its badge
    | Failed(error: string)                // the error notice

  datatype Entry = Entry(role: Role, content: Content)

  /** The outcome of a call to the language model. */
  datatype LlmResult = Completion(text: string) | LlmError(error: string)

  /** A record of the log file, without its timestamp. */
  datatype LogRecord = LogRecord(prompt: string, answer: string, alerts: seq<Alert>, summary: SeveritySummary)

  /** One call of `gradio_chat`: the new history, the text sent to the model
      (if it was called) and the record appended to the log (if any). */
  datatype Turn = Turn(history: seq<Entry>, sent: Option<string>, logged: Option<LogRecord>)

  const Red := "#dc2626"
  const Amber := "#f59e0b"
  const StrictLabel := "\U{1F512} Strict"
  const RedactedLabel := "\U{1F512} Strict (Redacted)"
  const RelaxedLabel := "\U{1F513} Relaxed"

  /** `any(alert['level'] == 'HIGH' for alert in alerts)`. */
  predicate AnyHigh(alerts: seq<Alert>) {
    exists i :: 0 <= i < |alerts| && alerts[i].level == "HIGH"
  }

  /** The text of a notice line: the emoji, a space, the message. */
  function Show(a: Alert): string {
    a.severity + " " + a.message
  }

  /** The colour of a badge line: red for HIGH, amber otherwise. */
  function Tint(a: Alert): string {
    if a.level == "HIGH" then Red else Amber
  }

  /** The lines of the block notice: every HIGH alert, in red, in order. */
  function BlockLines(alerts: seq<Alert>): seq<Line> {
    if alerts == [] then []
    else
      var last := alerts[|alerts| - 1];
      BlockLines(alerts[..|alerts| - 1]) + (if last.level == "HIGH" then [Line(Red, Show(last))] else [])
  }

  /** The lines of the alert badge: every alert, tinted by its level, in order. */
  function BadgeLines(alerts: seq<Alert>): seq<Line> {
    if alerts == [] then []
    else
      var last := alerts[|alerts| - 1];
      BadgeLines(alerts[..|alerts| - 1]) + [Line(Tint(last), Show(last))]
  }

  /** The loop that appends one red line per HIGH alert to the block notice. */
  method BlockNoticeLines(alerts: seq<Alert>) returns (lines: seq<Line>)
    ensures lines == BlockLines(alerts)
  {
    lines := [];
    for i := 0 to |alerts|
      invariant lines == BlockLines(alerts[..i])
    {
      assert alerts[..i + 1][..i] == alerts[..i];
      if alerts[i].level == "HIGH" {
        lines := lines + [Line(Red, Show(alerts[i]))];
      }
    }
    assert alerts[..|alerts|] == alerts;
  }

  /** The loop that appends one tinted line per alert to the alert badge. */
  method AlertBadgeLines(alerts: seq<Alert>) returns (lines: seq<Line>)
    ensures lines == BadgeLines(alerts)
  {
    lines := [];
    for i := 0 to |alerts|
      invariant lines == BadgeLines(alerts[..i])
    {
      assert alerts[..i + 1][..i] == alerts[..i];
      lines := lines + [Line(Tint(alerts[i]), Show(alerts[i]))];
    }
    assert alerts[..|alerts|] == alerts;
  }

  /** The badge under an answer: the alert badge when the exchange raised
      any alert, the all-clear otherwise, each with its mode label. */
  function MakeBadge(all: seq<Alert>, strict: bool, sensitivity: string): Badge {
    if all != [] then AlertBadge(BadgeLines(all), if !strict then RedactedLabel else StrictLabel, sensitivity)
    else SafeBadge(if !strict then RelaxedLabel else StrictLabel, sensitivity)
  }

  /** The record `log_interaction` builds: both texts masked, the alerts, and
      their per-level tallies. */
  function LogInteraction(prompt: string, answer: string, alerts: seq<Alert>): LogRecord {
    LogRecord(Mask(prompt), Mask(answer), alerts, Summarize(alerts))
  }

  /** The history with the user's message and the assistant's content appended. */
  function Append(history: seq<Entry>, message: string, content: Content): seq<Entry> {
    history + [Entry(User, Said(message)), Entry(Assistant, content)]
  }

  /** `gradio_chat` as a value: `logFailure` is the error raised while writing
      the log, if writing it fails. */
  function Respond(message: string, history: seq<Entry>, strict: bool, logging: bool, sensitivity: string,
                   llm: string -> LlmResult, logFailure: Option<string>): (t: Turn)
    ensures |t.history| == |history| + 2 && t.history[..|history|] == history
    ensures t.history[|history|] == Entry(User, Said(message)) && t.history[|history| + 1].role == Assistant
  {
    var asked := Redact(message);
    if strict && AnyHigh(asked.1) then
      Turn(Append(history, message, Blocked(BlockLines(asked.1))), None, None)
    else
      match llm(asked.0)
      case LlmError(e) => Turn(Append(history, message, Failed(e)), Some(asked.0), None)
      case Completion(reply) =>
        var answered := Redact(reply);
        var all := MergeAlerts(asked.1, answered.1);
        if logging && logFailure.Some? then
          Turn(Append(history, message, Failed(logFailure.value)), Some(asked.0), None)
        else
          var record := if logging then Some(LogInteraction(Mask(message), Mask(reply), all)) else None;
          Turn(Append(history, message, Answer(answered.0, MakeBadge(all, strict, sensitivity))), Some(asked.0), record)
  }

  /** The handler as the source writes it, step by step. */
  method GradioChat(message: string, history: seq<Entry>, strict: bool, logging: bool, sensitivity: string,
                    llm: string -> LlmResult, logFailure: Option<string>) returns (turn: Turn)
    ensures turn == Respond(message, history, strict, logging, sensitivity, llm, logFailure)
  {
    var userMessage, alerts := RedactSensitiveData(message);
    if strict && AnyHigh(alerts) {
      var lines := BlockNoticeLines(alerts);
      return Turn(Append(history, message, Blocked(lines)), None, None);
    }
    var response := llm(userMessage);
    if response.LlmError? {
      return Turn(Append(history, message, Failed(response.error)), Some(userMessage), None);
    }
    var reply := response.text;
    var safeReply, replyAlerts := RedactSensitiveData(reply);
    var all := alerts + replyAlerts;
    var logged: Option<LogRecord> := None;
    if logging {
      var maskedUser := MaskSensitiveData(message);
      var maskedReply := MaskSensitiveData(reply);
      if logFailure.Some? {
        return Turn(Append(history, message, Failed(logFailure.value)), Some(userMessage), None);
      }
      logged := Some(LogInteraction(maskedUser, maskedReply, all));
    }
    var badge: Badge;
    if all != [] {
      var lines := AlertBadgeLines(all);
      badge := AlertBadge(lines, if !strict then RedactedLabel else StrictLabel, sensitivity);
    } else {
      badge := SafeBadge(if !strict then RelaxedLabel else StrictLabel, sensitivity);
    }
    turn := Turn(Append(history, message, Answer(safeReply, badge)), Some(userMessage), logged);
  }

  /** The lines of the alert badge follow the alerts one for one: each shows
      its alert, in red exactly when the alert is HIGH. */
  lemma {:induction false} BadgeLinesShape(alerts: seq<Alert>)
    ensures |BadgeLines(alerts)| == |alerts|
    ensures forall i :: 0 <= i < |alerts| ==>
      BadgeLines(alerts)[i].text == Show(alerts[i]) && (BadgeLines(alerts)[i].color == Red <==> alerts[i].level == "HIGH")
    decreases |alerts|
  {
    if alerts != [] {
      var init := alerts[..|alerts| - 1];
      BadgeLinesShape(init);
      assert forall i :: 0 <= i < |init| ==> init[i] == alerts[i];
    }
  }

  /** The block notice shows the HIGH alerts exactly as the alert badge would. */
  lemma {:induction false} BlockLinesAreHigh(alerts: seq<Alert>)
    ensures BlockLines(alerts) == BadgeLines(FilterHigh(alerts))
    decreases |alerts|
  {
    if alerts != [] {
      var init, last := alerts[..|alerts| - 1], alerts[|alerts| - 1];
      BlockLinesAreHigh(init);
      var lines := if last.level == "HIGH" then [Line(Red, Show(last))] else [];
      var high := if last.level == "HIGH" then [last] else [];
      assert BlockLines(alerts) == BlockLines(init) + lines;
      assert FilterHigh(alerts) == FilterHigh(init) + high;
      hide *;
      if last.level == "HIGH" {
        BadgeLinesSnoc(FilterHigh(init), last);
      } else {
        assert FilterHigh(init) + high == FilterHigh(init);
      }
    }
  }

  /** Appending an alert appends its line. */
  lemma BadgeLinesSnoc(alerts: seq<Alert>, a: Alert)
    ensures BadgeLines(alerts + [a]) == BadgeLines(alerts) + [Line(Tint(a), Show(a))]
  {
    assert (alerts + [a])[..|alerts|] == alerts;
  }

  /** Some alert is HIGH exactly when the HIGH tally is positive, that is,
      when the block notice has something to list. */
  lemma AnyHighIff(alerts: seq<Alert>)
    ensures AnyHigh(alerts) <==> CountLevel(alerts, "HIGH") > 0
    ensures AnyHigh(alerts) <==> BlockLines(alerts) != []
  {
    BlockLinesAreHigh(alerts);
    BadgeLinesShape(FilterHigh(alerts));
  }

  /** The strict-mode rule: the message is blocked exactly when strict mode is
      on and redacting it raised a HIGH alert; then the notice lists those
      alerts in order, nothing reaches the model and nothing is logged. */
  lemma BlockRule(message: string, history: seq<Entry>, strict: bool, logging: bool, sensitivity: string,
                  llm: string -> LlmResult, logFailure: Option<string>)
    ensures var t := Respond(message, history, strict, logging, sensitivity, llm, logFailure);
      var c := t.history[|history| + 1].content; var alerts := Redact(message).1;
      (c.Blocked? <==> strict && AnyHigh(alerts))
      && (c.Blocked? ==> c.lines == BadgeLines(FilterHigh(alerts)) && c.lines != [] && t.sent == None && t.logged == None)
  {
    hide Redact;
    var alerts := Redact(message).1;
    BlockLinesAreHigh(alerts);
    AnyHighIff(alerts);
  }

  /** The model is called exactly when the message is not blocked, and it is
      only ever sent the redacted message, in which no rule matches. */
  lemma SentRule(message: string, history: seq<Entry>, strict: bool, logging: bool, sensitivity: string,
                 llm: string -> LlmResult, logFailure: Option<string>)
    ensures var t := Respond(message, history, strict, logging, sensitivity, llm, logFailure);
      (t.sent.Some? <==> !(strict && AnyHigh(Redact(message).1)))
      && (t.sent.Some? ==> t.sent.value == Redact(message).0
                           && forall i :: 0 <= i < |Rules| ==> NoMatch(Rules[i], t.sent.value))
  {
    RedactedIsClean(message);
    hide Redact;
  }

  /** The error notice replaces the answer exactly when the model call failed
      or, with logging on, writing the log failed; it shows that error. */
  lemma ErrorRule(message: string, history: seq<Entry>, strict: bool, logging: bool, sensitivity: string,
                  llm: string -> LlmResult, logFailure: Option<string>)
    ensures var t := Respond(message, history, strict, logging, sensitivity, llm, logFailure);
      var c := t.history[|history| + 1].content; var out := llm(Redact(message).0);
      !(strict && AnyHigh(Redact(message).1)) ==>
        (c.Failed? <==> out.LlmError? || (logging && logFailure.Some?))
        && (c.Failed? ==> c.error == if out.LlmError? then out.error else logFailure.value)
  {
    hide Redact;
  }

  /** Both tallies of redactor alerts from two texts: none LOW, and HIGH and
      MEDIUM add up to all of them. */
  lemma MergedTally(prompt: string, reply: string)
    ensures var all := MergeAlerts(Redact(prompt).1, Redact(reply).1);
      CountLevel(all, "LOW") == 0 && CountLevel(all, "HIGH") + CountLevel(all, "MEDIUM") == |all|
  {
    AlertLevels(prompt);
    AlertLevels(reply);
    var a, b := Redact(prompt).1, Redact(reply).1;
    assert MergeAlerts(a, b) == a + b;
    hide *;
    CountConcat(a, b, "LOW");
    CountConcat(a, b, "HIGH");
    CountConcat(a, b, "MEDIUM");
  }

  /** A record is logged exactly when logging is on, the message was not
      blocked, the model answered and the write succeeded. The record holds
      the message and the reply masked twice (the handler masks them and
      `log_interaction` masks them again), the prompt's alerts followed by the
      reply's, and tallies that count no LOW alert. */
  lemma LogRule(message: string, history: seq<Entry>, strict: bool, logging: bool, sensitivity: string,
                llm: string -> LlmResult, logFailure: Option<string>)
    ensures var t := Respond(message, history, strict, logging, sensitivity, llm, logFailure);
      var out := llm(Redact(message).0);
      (t.logged.Some? <==> logging && !(strict && AnyHigh(Redact(message).1)) && out.Completion? && logFailure.None?)
      && (t.logged.Some? ==>
            var r := t.logged.value;
            r.prompt == Mask(Mask(message)) && r.answer == Mask(Mask(out.text))
            && r.alerts == Redact(message).1 + Redact(out.text).1
            && r.summary.low == 0 && r.summary.high + r.summary.medium == |r.alerts|
            && r.summary.high == CountLevel(r.alerts, "HIGH"))
  {
    var out := llm(Redact(message).0);
    if out.Completion? {
      MergedTally(message, out.text);
    }
    hide Redact;
    hide Mask;
  }

  /** The assistant answers exactly when the message is not blocked, the
      model answers and the log write, if logging is on, succeeds; the
      assistant never echoes the user. An answer shows the redacted reply, in which no rule matches, and the
      all-clear badge exactly when no rule matched the message or the reply;
      otherwise the badge lists every alert of the exchange in order. The
      mode label says strict only in strict mode, except that the alert
      badge labels relaxed mode "Strict (Redacted)". */
  lemma AnswerRule(message: string, history: seq<Entry>, strict: bool, logging: bool, sensitivity: string,
                   llm: string -> LlmResult, logFailure: Option<string>)
    ensures var t := Respond(message, history, strict, logging, sensitivity, llm, logFailure);
      var c := t.history[|history| + 1].content; var out := llm(Redact(message).0);
      (c.Answer? <==> !(strict && AnyHigh(Redact(message).1)) && out.Completion? && !(logging && logFailure.Some?))
      && !c.Said?
      && (c.Answer? ==>
        out.Completion? && c.reply == Redact(out.text).0
        && (forall i :: 0 <= i < |Rules| ==> NoMatch(Rules[i], c.reply))
        && (c.badge.SafeBadge? <==> forall i :: 0 <= i < |Rules| ==> NoMatch(Rules[i], message) && NoMatch(Rules[i], out.text))
        && (c.badge.AlertBadge? ==> c.badge.lines == BadgeLines(Redact(message).1 + Redact(out.text).1)
                                    && c.badge.mode == if strict then StrictLabel else RedactedLabel)
        && (c.badge.SafeBadge? ==> c.badge.mode == if strict then StrictLabel else RelaxedLabel)
        && c.badge.sensitivity == sensitivity)
  {
    var out := llm(Redact(message).0);
    if out.Completion? {
      RedactedIsClean(out.text);
      NoAlertIffClean(message);
      NoAlertIffClean(out.text);
    }
    hide Redact;
  }

  /** What the `/chat` route returns: the redacted reply with the alerts of
      the exchange and their HIGH and MEDIUM tallies, or the error. */
  datatype ApiReply = Replied(reply: string, alerts: seq<Alert>, summary: ChatTally) | ApiError(error: string)

  /** The `/chat` route: no strict mode, and the exchange is always logged.
      The result pairs the reply with the record appended to the log. */
  function ChatRoute(message: string, llm: string -> LlmResult, logFailure: Option<string>): (ApiReply, Option<LogRecord>) {
    var asked := Redact(message);
    match llm(asked.0)
    case LlmError(e) => (ApiError(e), None)
    case Completion(response) =>
      var answered := Redact(response);
      var all := MergeAlerts(asked.1, answered.1);
      if logFailure.Some? then (ApiError(logFailure.value), None)
      else (Replied(answered.0, all, Tally(all)), Some(LogInteraction(Mask(message), Mask(response), all)))
  }

  /** A reply of the `/chat` route carries the prompt's alerts followed by
      the reply's, HIGH and MEDIUM tallies that add up to all of them, and the
      redacted model answer, in which no rule matches; exactly the replies are
      logged, with the same alerts and the prompt and answer masked twice. */
  lemma ChatRouteRule(message: string, llm: string -> LlmResult, logFailure: Option<string>)
    ensures var (api, logged) := ChatRoute(message, llm, logFailure); var out := llm(Redact(message).0);
      (api.Replied? <==> out.Completion? && logFailure.None?)
      && (logged.Some? <==> api.Replied?)
      && (api.Replied? ==>
            api.alerts == Redact(message).1 + Redact(out.text).1
            && api.summary.high == CountLevel(api.alerts, "HIGH")
            && api.summary.medium == CountLevel(api.alerts, "MEDIUM")
            && api.summary.high + api.summary.medium == |api.alerts|
            && api.reply == Redact(out.text).0
            && (forall i :: 0 <= i < |Rules| ==> NoMatch(Rules[i], api.reply))
            && logged.value.alerts == api.alerts
            && logged.value.prompt == Mask(Mask(message))
            && logged.value.answer == Mask(Mask(out.text)))
  {
    var out := llm(Redact(message).0);
    if out.Completion? {
      MergedTally(message, out.text);
      RedactedIsClean(out.text);
    }
    hide Redact;
    hide Mask;
  }
}
