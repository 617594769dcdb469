# Privacy pipeline of the privacy-preserving chatbot

This project models the privacy pipeline of a chatbot. The chatbot redacts personal data from what a user types before the text reaches a language model. It redacts the model's reply the same way, logs each exchange with partly masked text, and in strict mode refuses messages that carry high-risk data. The model covers these parts:

- **`redact_sensitive_data`**: seven rules run in a fixed order: Aadhaar number, PAN, card number, CVV, phone number, e-mail address, postal code. A rule fires when its pattern occurs in the text the earlier rules left. When it fires, it appends one alert and replaces every match with its placeholder (`[REDACTED_AADHAAR]` …). The rule's severity is HIGH (🔴) for the first four and MEDIUM (🟡) for the last three.
- **`mask_sensitive_data`**: five unconditional substitutions that keep the edges of a number or of an e-mail address's local part and write `*` over the rest.
- **Alert bookkeeping**: the `SeverityLevel` enumeration, the concatenation of prompt and reply alerts, and the per-level tallies of a log record and of a `/chat` reply.
- **`gradio_chat`**:
  - the strict-mode block;
  - the call to the model, which here is a parameter;
  - the optional log record;
  - the badge under an answer;
  - the two history entries appended on every path, including the error path.

  The `/chat` route's reply and tally are modelled as well.

Modules, one per file:

- **`Chars`**: ASCII character classes, plus the maximal run `Span` and the fixed stretch `Fits`.
- **`Patterns`**: the twelve regular expressions as hand-written matchers at the start of a suffix. A flag tells each matcher whether the character before the suffix is a word character, which is how `\b` is decided. The module also holds the rule placeholders and the masking templates.
- **`PatternFacts`**: the shape of every match, and the facts that decide a match from a prefix of the text.
- **`Scan`**: `re.search` as the leftmost match (`Find`) and `re.sub` as a left-to-right, non-overlapping scan (`SubFrom`, `ReplaceAll`). Its main theorem is that after a rule's substitution, no match of that rule remains, and no match of any rule is created where none was.
- **`Alerts`**: severities, alerts, tallies, merging, and the filter for HIGH alerts.
- **`Redactor`**: the rule fold `Redact`, the step-by-step method `RedactSensitiveData`, and the reference `Staged`. `Staged` gives the text and the alerts after the first `i` rules, and the properties are stated against it.
- **`Masker`** and **`MaskerSamples`**: `Mask`, the method `MaskSensitiveData`, length and `*`-only facts, the five worked examples from the source's comments, and a counterexample to idempotence.
- **`RedactorSamples`**: a lone twelve-digit number raises only the Aadhaar alert.
- **`Chat`**: `gradio_chat` as the value `Respond` and as the step-by-step method `GradioChat`, and the `/chat` route as `ChatRoute`.

Notes on how the model reads the code:

- **Regex backtracking** is resolved by hand for each pattern:
  - The card pattern takes the optional separator whenever one is present, and tries `\d{1,7}` longest-first before the final `\b`.
  - The CVV digits start after the longest run of spaces, the optional colon, and the longest run of spaces.
  - The two runs of the redaction e-mail pattern are maximal.
  - The masking e-mail pattern puts its `\.` at the rightmost dot that two letters follow.
- **Masked Aadhaar**: the comment at `main.py:99` shows five stars. The code writes six, and the model follows the code: `Mask("123456789012") == "123******012"`.
- **No highest severity**: the code never computes a single "highest severity" for a response. It only chooses between the alert badge and the all-clear badge, and the model does the same.
- **Mode label** (`main.py:265`): the alert badge labels relaxed mode "🔒 Strict (Redacted)" and strict mode "🔒 Strict". The model keeps both labels as written.
- **Double masking**: both callers mask the texts before calling `log_interaction`, which masks them again. A log record therefore holds `Mask(Mask(text))`. Masking is not idempotent: `"a@b.co@c.org"` masks to `"a***@b.co@c.org"` and then to `"a***@b***@c.org"` (`MaskerSamples.MaskNotIdempotent`).

## Model

| member | source | states |
|---|---|---|
| Chars.Span | main.py:78 | the greedy run of a class: every character in it is in the class, and the next one is not |
| Chars.SpanIs | main.py:78 | a stretch of the class that ends at the end of the text or before an outside character is exactly the greedy run |
| Chars.SpanAgree | main.py:78 | the greedy run depends only on the characters up to and including the first one outside the class |
| Chars.CountInConcat | main.py:100-109 | the digit (or capital) count of a text is the sum of the counts of its pieces, which bounds how many digits a numeric mask pattern can find |
| Chars.FitsCount | main.py:33 | a text holding n consecutive digits holds at least n digits |
| Patterns.GreedyDigits | main.py:51 | `\d{lo,hi}\b` tried longest-first: the match ends after a digit run within the bounds that ends at a word boundary, and no longer run within the bounds would |
| Patterns.Sep | main.py:51 | `[\s\-]?` consumes at most one character, and consumes one exactly when a space or '-' is there |
| Patterns.CvvDigitsStart | main.py:60 | where the CVV digits begin lies within the text |
| Patterns.LastDot | main.py:112 | the dot picked by the masking e-mail domain is followed by two letters, and no later dot in range is |
| Patterns.MatchCore | main.py:33-112 | every match of every pattern is non-empty, lies in the text, and has the fixed width of a fixed-width pattern |
| PatternFacts.MatchHasWitness | main.py:33-112 | every match contains a digit or an '@' |
| PatternFacts.RuleMatchShape | main.py:33-93 | a rule match has no brackets; the next character is not alphanumeric; a `\b` pattern starts after a non-word character on an alphanumeric one and ends on a word character |
| PatternFacts.DigitWordShape | main.py:33 | a `\b\d{w}\b` match is w digits between word boundaries |
| PatternFacts.PanShape | main.py:42 | a PAN match is ten capitals and digits, starts and ends with a capital, between word boundaries |
| PatternFacts.CardShape | main.py:51 | a card match is digits, spaces and dashes, starts and ends with a digit, between word boundaries |
| PatternFacts.CvvShape | main.py:60 | a CVV match starts with `c`, then `v`, then `v` or `c`; then spaces with at most one colon; then three or four digits ending at a word boundary |
| PatternFacts.CvvGap | main.py:60 | between the keyword and the digits there are only spaces, and a colon can sit only right after the first run of spaces |
| PatternFacts.EmailShape | main.py:78 | an e-mail match is made of local-part characters and '@', and the character after it is outside the last class |
| PatternFacts.TransferMatch | main.py:33-93 | a text that agrees with a match and has an admissible next character also matches |
| PatternFacts.GreedyAgree | main.py:51 | the longest-first digit choice is decided by the matched prefix and the character after it |
| PatternFacts.CardAgree | main.py:51 | a card match is decided by the matched prefix and the character after it |
| PatternFacts.CvvAgree | main.py:60 | a CVV match is decided by the matched prefix and the character after it |
| PatternFacts.CvvStartAgree | main.py:60 | the start of the CVV digits is decided by the prefix before it |
| PatternFacts.EmailAgree | main.py:78 | an e-mail match survives any change after its end |
| PatternFacts.EmailParts | main.py:78 | an e-mail match splits into a non-empty local part, '@', a non-empty domain, '.', and a non-empty tail |
| PatternFacts.EmailExtends | main.py:78 | a local-part character before an e-mail match gives a match one position earlier |
| PatternFacts.EmailIntro | main.py:78 | the three non-empty runs around '@' and '.' make an e-mail match |
| Scan.MatchAt | main.py:33 | a match at a position is non-empty and inside the text |
| Scan.Find | main.py:33 | `re.search` finds the leftmost match, and reports none only when no position matches |
| Scan.MatchesIffNotNoMatch | main.py:33 | `re.search` succeeds exactly when some position matches |
| Scan.ReplaceAllNoMatch | main.py:39 | `re.sub` leaves a text without matches unchanged |
| Scan.NoWitnessNoMatch | main.py:33-113 | a text with no digit and no '@' matches no pattern |
| Scan.TokenShape | main.py:39-93 | each placeholder is bracketed and holds no digit and no '@' |
| Scan.LeftmostPrecededByNonWord | main.py:33-93 | a leftmost rule match never follows a word character |
| Scan.TransferAt | main.py:33-93 | a match in one text carries over to an agreeing stretch of another text with the same context |
| Scan.CopiedStretch | main.py:39-93 | a match inside text copied by the substitution was already a match of the original |
| Scan.RuleMatchFacts | main.py:33-93 | a rule match contains no ']' and contains a digit or an '@' |
| Scan.PlaceholderWindow | main.py:39-93 | a window starting inside a placeholder either runs past its ']' or holds no digit and no '@' |
| Scan.InsidePlaceholder | main.py:39-93 | no rule matches at a position inside a placeholder |
| Scan.CopiedClean | main.py:39-93 | no match of a later rule starts in the copied stretch before a substituted match |
| Scan.StepContext | main.py:39 | after one replacement, the output ends with the placeholder's ']' and the text resumes in front of a character that is not a letter or digit |
| Scan.StepClean | main.py:39-93 | one copied stretch plus its placeholder holds no match of a rule that had none |
| Scan.SubFromStep | main.py:39 | one step of the substitution: the copied text, the placeholder, and the rest of the scan |
| Scan.SubFromClean | main.py:39-93 | the substituted text holds no match of the substituted rule, and none of a rule that had none |
| Scan.StepCleanJoin | main.py:39-93 | a clean rest after a clean step gives a clean whole |
| Scan.ReplaceAllRemovesMatches | main.py:39 | after a rule's global substitution no match of that rule remains |
| Scan.ReplaceAllKeepsNoMatch | main.py:48 | a rule's substitution creates no match of another rule where there was none |
| Scan.MatchFits | main.py:33 | a numeric match is a digit run of its width between word boundaries; a PAN match starts with five capitals |
| Scan.DigitRunNoMatch | main.py:33-109 | a digit run of another width than a numeric pattern's matches neither it nor PAN, and is left unchanged |
| Scan.FewDigitsNoMatch | main.py:100-109 | fewer digits than a numeric pattern's width: no match, text unchanged |
| Scan.FewCapitalsNoPan | main.py:103 | fewer than five capitals: no PAN match, text unchanged |
| Scan.EmailMatchHasAt | main.py:78 | an e-mail match needs an '@' in the text |
| Scan.NoAtNoEmail | main.py:112 | a text without '@' is untouched by either e-mail pattern |
| Scan.WholeMatch | main.py:100 | a text that is one whole match becomes its replacement |
| Scan.SubFromHit | main.py:39 | one step of `re.sub`: text before the match, its replacement, the rest of the scan |
| Scan.SubFromEnd | main.py:39 | the scan at the end of the text produces nothing |
| Scan.FindFirst | main.py:33 | the first matching position after `pos` is the one `re.search` reports |
| Scan.FindSkip | main.py:33 | a position without a match is skipped |
| Scan.FindHere | main.py:33 | a matching position is reported |
| Scan.FindNothing | main.py:33 | no matching position: the search fails |
| Scan.SingleMatch | main.py:100-112 | a text with exactly one match is rewritten only there |
| Scan.MaskEmailStart | main.py:112 | a masking e-mail match starts on a local-part character and reaches an '@' |
| Alerts.CountLevel | main.py:128-130 | the tally is at most the number of alerts; it is zero exactly when no alert has the level, and full exactly when all do |
| Alerts.CountConcat | main.py:127-131 | the tally of a concatenation is the sum of the tallies |
| Alerts.CountPartition | main.py:127-131 | when every level is HIGH, MEDIUM or LOW, the three tallies add up to the number of alerts |
| Alerts.MergeAlerts | main.py:250 | the merged list is the prompt's alerts followed by the reply's, nothing dropped or merged |
| Alerts.SummarizeMerge | main.py:181 | each tally of the merged alerts is the prompt's tally plus the reply's |
| Alerts.FilterHigh | main.py:225-227 | the listed alerts are exactly the HIGH ones, as many as the HIGH tally, all taken from the input |
| Redactor.AlertFor | main.py:33-93 | Aadhaar, PAN, card and CVV alerts are red HIGH alerts; phone, e-mail and postal code alerts are amber MEDIUM alerts |
| Redactor.Step | main.py:33-39 | one rule's block: replace every match and append the alert exactly when it fires |
| Redactor.RunAllFromStage | main.py:28-95 | running the remaining blocks from the state after the first k gives the final state |
| Redactor.QuietFrom | main.py:28-95 | rules that find nothing change neither the text nor the alerts |
| Redactor.RedactIsStaged | main.py:28-95 | the redactor's result is the state after all seven rules |
| Redactor.FoldStep | main.py:28-95 | the fold runs one block and continues with the rest |
| Redactor.RedactSensitiveData | main.py:28-95 | the seven blocks run in a row compute `Redact` |
| Redactor.RunRule | main.py:33-39 | one block computes `Run` |
| Redactor.RuleSeverities | main.py:22-93 | rules 0-3 are HIGH with 🔴, rules 4-6 MEDIUM with 🟡 |
| Redactor.AlertsOfFired | main.py:33-93 | the alerts are the alerts of the rules that fire, one each, in rule order |
| Redactor.PickedInOrder | main.py:33-93 | the fired rule indices are increasing, at most one per rule, and include exactly the flagged rules |
| Redactor.StagedAlertIndices | main.py:33-93 | each alert is the alert of a fired rule and identifies that rule |
| Redactor.StagedAlertsOrdered | main.py:33-93 | at most seven alerts, in strictly increasing rule order |
| Redactor.StagedAlertsPresent | main.py:33-93 | a rule's alert is present exactly when the rule fires |
| Redactor.AlertPresent | main.py:33-93 | an alert list built from fired rules contains a rule's alert exactly when that rule fired |
| Redactor.AlertsInRuleOrder | main.py:33-93 | at most seven alerts, one per firing rule, in the order Aadhaar, PAN, card, CVV, phone, e-mail, postal code; a rule's alert is present exactly when its pattern occurs in the text the earlier rules left |
| Redactor.AlertIndex | main.py:36-90 | each rule's alert message is different, so the alert identifies its rule |
| Redactor.StagedAlertLevels | main.py:22-93 | every alert's emoji and level agree, and the level is HIGH or MEDIUM |
| Redactor.AlertLevels | main.py:22-93 | every alert is consistent and HIGH or MEDIUM; no LOW alert, and HIGH plus MEDIUM tallies equal the number of alerts |
| Redactor.StageClean | main.py:33-93 | after rule i has run, no later rule brings back a match of rule i |
| Redactor.RunClean | main.py:33-39 | a rule's block leaves no match of its own pattern |
| Redactor.RunKeepsClean | main.py:33-93 | a rule's block keeps another rule's pattern absent |
| Redactor.RedactedIsClean | main.py:28-95 | the redacted text holds no match of any of the seven patterns |
| Redactor.NoAlertIffClean | main.py:28-95 | no alert exactly when no pattern occurs in the input, and then the text comes back unchanged |
| Redactor.QuietStages | main.py:28-95 | while no rule fires the text is unchanged |
| Redactor.CleanStagesBefore | main.py:28-95 | a text with no match of any rule passes every stage unchanged |
| Redactor.RedactIdempotent | main.py:28-95 | redacting redacted text changes nothing and raises no alert |
| RedactorSamples.TokenMatchesNothing | main.py:39-93 | no placeholder matches any rule |
| RedactorSamples.LoneAadhaarFirstRule | main.py:33-39 | the Aadhaar rule turns a lone twelve-digit number into its placeholder with one alert |
| RedactorSamples.LoneAadhaar | main.py:28-95 | a lone twelve-digit number redacts to the Aadhaar placeholder with the Aadhaar alert only |
| RedactorSamples.LoneAadhaarRedacted | main.py:33-93 | a lone twelve-digit number never raises the phone or postal-code alert |
| Masker.MaskSensitiveData | main.py:97-115 | the five substitutions in a row compute `Mask` |
| Masker.ReplacementStarred | main.py:100-109 | each numeric template keeps the matched length and only writes '*' |
| Masker.SubFromStarred | main.py:100-109 | a numeric substitution keeps the length and turns characters only into '*' |
| Masker.StarredStep | main.py:100-109 | one numeric replacement followed by a starred rest is starred |
| Masker.StarredTrans | main.py:100-109 | starring twice is starring |
| Masker.MaskNumbersStarred | main.py:100-109 | the Aadhaar, PAN, phone and card substitutions together keep the length and only write '*' |
| Masker.MaskEmailKeepsDomain | main.py:112-113 | the e-mail template keeps the first character and the '@'-domain and writes three '*' in between |
| Masker.NoWitnessUnchanged | main.py:97-115 | text with no ASCII digit and no '@' is returned unchanged |
| Masker.NoDigitsNoCapitalsUnchanged | main.py:100-109 | text with no digit and no capital passes the numeric substitutions unchanged |
| MaskerSamples.AadhaarRewrite | main.py:100 | the Aadhaar template rewrites the sample |
| MaskerSamples.AadhaarMasked | main.py:99-100 | "123456789012" masks to "123******012" |
| MaskerSamples.PanRewrite | main.py:103 | the PAN template rewrites the sample |
| MaskerSamples.PanMasked | main.py:102-103 | "ABCDE1234F" masks to "ABC**1234*" |
| MaskerSamples.PhoneRewrite | main.py:106 | the phone template rewrites the sample |
| MaskerSamples.PhoneMasked | main.py:105-106 | "9876543210" masks to "987****210" |
| MaskerSamples.CardRewrite | main.py:109 | the card template rewrites the sample |
| MaskerSamples.CardMasked | main.py:108-109 | "1234567890123456" masks to "1234********3456" |
| MaskerSamples.EmailRewrite | main.py:112-113 | the e-mail template rewrites the sample |
| MaskerSamples.EmailMasked | main.py:111-113 | "john@gmail.com" masks to "j***@gmail.com" |
| MaskerSamples.FirstPass | main.py:112-113 | "a@b.co@c.org" is masked once, at its start |
| MaskerSamples.SecondPass | main.py:112-113 | masking "a***@b.co@c.org" masks its second address too |
| MaskerSamples.TwoPasses | main.py:119-120 | masking twice gives a different text from masking once |
| MaskerSamples.MaskNotIdempotent | main.py:119-120 | `Mask(Mask(t))` differs from `Mask(t)` for "a@b.co@c.org" |
| Chat.BlockNoticeLines | main.py:225-227 | the loop over the alerts produces exactly the block notice's lines |
| Chat.AlertBadgeLines | main.py:262-264 | the loop over the merged alerts produces exactly the badge's lines |
| Chat.Respond | main.py:212-288 | every path, the error paths included, appends exactly two entries: the user's message as typed, then the assistant's content |
| Chat.GradioChat | main.py:212-288 | the handler, step by step, computes `Respond` |
| Chat.BadgeLinesShape | main.py:262-264 | one badge line per alert, in order, showing it, red exactly for HIGH |
| Chat.BlockLinesAreHigh | main.py:225-227 | the block notice lists the HIGH alerts exactly as the badge would show them |
| Chat.AnyHighIff | main.py:218 | some alert is HIGH exactly when the HIGH tally is positive and exactly when the block notice lists something |
| Chat.BlockRule | main.py:218-235 | blocked exactly when strict mode is on and some alert of the message is HIGH; then the notice lists the HIGH alerts in order, nothing is sent to the model, and nothing is logged |
| Chat.SentRule | main.py:215-248 | the model is called exactly when the message is not blocked, and only with the redacted message, in which no rule matches |
| Chat.ErrorRule | main.py:241-288 | the error notice appears exactly when the model call fails or a log write fails, and shows that error |
| Chat.MergedTally | main.py:127-131 | merged redactor alerts tally no LOW, and their HIGH and MEDIUM tallies add up to all of them |
| Chat.LogRule | main.py:117-131 | a record is logged exactly when logging is on, the message passes, the model answers and the write succeeds; it holds the texts masked twice, the prompt's alerts followed by the reply's, and tallies with no LOW |
| Chat.AnswerRule | main.py:249-274 | the assistant's entry is an answer exactly when the message is not blocked, the model answers and the log write (when logging is on) succeeds, and it never repeats the user's words; the answer shows the redacted reply, in which no rule matches. The all-clear badge appears exactly when no rule matched the message or the reply; otherwise the badge lists every alert. The mode labels are as written |
| Chat.ChatRouteRule | main.py:168-197 | a `/chat` reply carries the prompt's alerts then the reply's, HIGH and MEDIUM tallies that add up to all of them, and the redacted model answer, in which no rule matches; exactly the replies are logged, with the same alerts and with the prompt and the raw answer masked twice |

## Left out

- The FastAPI application, CORS, the other routes, the manifest and the redirect are not modelled: they are web plumbing. The `/chat` route is modelled only as a value.
- The Hugging Face client calls are not modelled. The model's answer is a parameter `llm: string -> LlmResult`. A completion that is not text is not modelled.
- File reading and writing and the timestamp in `log_interaction` are not modelled. The record is a value, and the outcome of the write is a parameter. A write that fails after a partial write is modelled as writing no record.
- Python exceptions other than a failed model call or a failed log write are not modelled.
- The HTML and CSS around every notice and badge are left out. Only the shown lines, colours, mode labels and sensitivity are kept.
- The Gradio UI, `update_settings` and `toggle_settings` are left out. `sensitivity_level` has no effect on behaviour: it is only shown in the badge, and the model carries it for that.
- `\d`, `\s` and `\b` are restricted to ASCII digits, ASCII whitespace (including the separators U+001C to U+001F, which Python's `\s` also matches) and ASCII word characters. Python's Unicode classes are wider, so non-ASCII digits, letters and spaces are not modelled.
- Redactor.RedactedIsClean, Redactor.RedactIdempotent and Scan.ReplaceAllKeepsNoMatch hold only for the ASCII classes above. In Python they fail on `" "` followed by the ten Arabic-Indic digits U+0661..U+0669, U+0660 and then `a@b.c`. No rule but e-mail fires, because the digit run is followed by the word character `a` and the e-mail local part takes only ASCII digits. The placeholder `[REDACTED_EMAIL]` then puts a word boundary after the digits, so the phone pattern matches the redacted text and a second redaction changes it.
- `re.IGNORECASE` on the CVV pattern is modelled as case folding of the ASCII letters c and v only.
