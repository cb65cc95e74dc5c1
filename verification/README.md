# Truth-Seeker-JS fact-check core in Dafny

This project models the string-processing core of the Truth-Seeker-JS fact
checker and proves properties of it. A language model answers a claim with
free text. The backend turns that text into a verdict record
`{verdict, explanation, corrections}`. The frontend colours the verdict,
decides whether to show the corrections, and refuses blank submissions.

Modules, one per file:

- `Strings` (`strings.dfy`): the JavaScript string built-ins the core relies on.
  - `trim` removes the full ECMAScript whitespace and line-terminator set.
  - `toLowerCase` handles ASCII letters only.
  - `includes` and `indexOf`.
  - `split` with a string separator, and `join`.
- `Sanitizer` (`sanitizer.dfy`): `cleanText`.
  - It makes one global pass of `/\[\d+\](?:\[\d+\])*/g` that deletes every maximal run of `[digits]` groups, then trims.
- `FactCheckParser` (`fact_check_parser.dfy`): `parseFactCheckResponse`, an ordered cascade with three stages.
  - `JSON.parse` is a function parameter (an oracle) that reports the three properties read afterwards. A non-string truthy property makes `cleanText` throw.
  - The labelled sections `VERDICT:` / `EXPLANATION:` / `CORRECTIONS:` are read with the lazy, dot-all regular expressions.
  - The keyword heuristic splits paragraphs on `"\n\n"`.
  - Exceptions are values (`Completion`), so both `try`/`catch` blocks are followed exactly.
- `App` (`app.dfy`): `getVerdictColor`, the condition that shows the corrections panel, and the blank-input guard with the button's `disabled` state.

Three facts about the code that the model makes precise:

- `cleanText` is not idempotent. One pass turns `[[1]1]` into `[1]`, and a second pass turns that into the empty string (`Sanitizer.CleanTextNotIdempotent`).
- The labelled stage's fallbacks (`"Undetermined"`, the whole cleaned text, and `"No corrections provided."`) are never used. The code tests only whether each expression matched, and with all three markers present every expression matches (`FactCheckParser.LabelledCaptures`). An empty verdict section therefore gives the empty verdict (`FactCheckParser.EmptyVerdictSectionStaysEmpty`).
- The outer `catch`, which produces the `"Error"` verdict, cannot be reached from a string input (`FactCheckParser.OuterCatchUnreachable`). Group 1 of each labelled expression takes part in every match, and `split` never returns an empty array, so no `trim` is ever called on `undefined`.

## Model

| member | source | states |
|---|---|---|
| Strings.Trim | backend/index.js:33 | the result of `trim` has no whitespace at either end and is no longer than its input |
| Strings.TrimKeepsMiddle | backend/index.js:33 | `trim` keeps a slice of the input that has only whitespace on both sides, and keeps nothing exactly when the input is all whitespace |
| Strings.TrimPadded | backend/index.js:33 | trimming a text that has no whitespace at its ends, padded with whitespace on both sides, gives back exactly that text |
| Strings.TrimIdempotent | backend/index.js:60-62 | trimming twice is trimming once (the labelled stage trims before `cleanText` trims again) |
| Strings.ToLower | backend/index.js:67-68 | `toLowerCase` keeps the length, lowers every ASCII capital at its position and leaves no capital behind |
| Strings.ToLowerIdempotent | frontend/src/App.jsx:28 | lower-casing twice is lower-casing once |
| Strings.IndexOf | backend/index.js:54 | a found index is an occurrence of the pattern |
| Strings.IndexOfFirst | backend/index.js:54 | `indexOf` finds something exactly when `includes` holds, and what it finds is the first occurrence |
| Strings.NegationsContainRoots | backend/index.js:67-79 | a text containing "incorrect" also contains "correct", and one containing "inaccurate" also contains "accurate" |
| Strings.SplitJoin | backend/index.js:70-71 | joining the pieces of `split("\n\n")` with the separator gives back the text |
| Strings.SplitPiecesAvoidSeparator | backend/index.js:70-71 | no piece of the split contains the separator |
| Strings.SplitFirstPiece | backend/index.js:81 | text without the separator splits into itself alone; otherwise the first piece is the prefix that ends at the first occurrence |
| Strings.SplitLastPiece | backend/index.js:71 | the last piece (what `pop` returns) is what follows the other pieces joined by the separator, plus one more separator |
| Strings.SplitLastFits | backend/index.js:75 | the last piece is a suffix of the text, so `substring(0, length - last.length)` is defined |
| Sanitizer.DigitRun | backend/index.js:33 | `\d+` takes the longest prefix of digits: every character inside is a digit and the next one is not |
| Sanitizer.GroupLen | backend/index.js:33 | the measured prefix is a `\[\d+\]` group whenever one starts the text |
| Sanitizer.GroupLenUnique | backend/index.js:33 | every group that starts a text has exactly the length that was measured |
| Sanitizer.RunLen | backend/index.js:33 | a run is present exactly where a group starts, it stays inside the text, and what it covers is one or more adjacent `\[\d+\]` groups |
| Sanitizer.RunIsMaximal | backend/index.js:33 | the greedy `(?:\[\d+\])*` stops only where no further group follows |
| Sanitizer.RemoveCitationRuns | backend/index.js:33 | the global replace never lengthens the text |
| Sanitizer.RunsAreGroups | backend/index.js:33 | deleting maximal runs in one pass equals deleting single groups in one pass |
| Sanitizer.NoCitationUnchanged | backend/index.js:33 | text without a citation group passes the replace unchanged |
| Sanitizer.CitationShortens | backend/index.js:33 | a citation group anywhere in the text makes the replace strictly shorten it |
| Sanitizer.GroupCleansAway | backend/index.js:31-34 | a text that is one citation group cleans to the empty string |
| Sanitizer.RemovalChangesExactlyCitedText | backend/index.js:33 | the replace changes the text exactly when it holds a citation group |
| Sanitizer.CleanText | backend/index.js:31-34 | the output has no whitespace at its ends and is never longer than the input; input without a group is only trimmed |
| Sanitizer.CleanPlainText | backend/index.js:31-34 | text without `[` and without surrounding whitespace is returned unchanged |
| Sanitizer.GroupsBetweenPlainText | backend/index.js:33 | two adjacent groups between bracket-free texts vanish and the texts are joined unchanged |
| Sanitizer.CleanTextRemovesRunBetweenWords | backend/index.js:31-34 | `foo [1][2] bar` and its kind clean to the trimmed words with both spaces kept |
| Sanitizer.CleanTextNotIdempotent | backend/index.js:33 | for every digit string `d`, `[[d]d]` cleans to `[d]` and a second cleaning gives the empty string |
| FactCheckParser.JsonStage | backend/index.js:40-51 | the JSON stage returns exactly when the three properties are non-empty strings, and then returns each of them cleaned |
| FactCheckParser.InnerCatchCases | backend/index.js:40-51 | the inner `catch` is reached exactly for unparsable text, a `null` document, or three truthy properties that are not all strings |
| FactCheckParser.JsonTakenAsIs | backend/index.js:41-47 | a JSON answer with three plain, non-empty string properties comes back unchanged |
| FactCheckParser.CaptureBefore | backend/index.js:55-56 | the lazy capture fails exactly when the opening marker is absent, and otherwise runs from the first opening marker to the first closing marker after it, or to the end |
| FactCheckParser.CaptureRest | backend/index.js:57 | the corrections capture fails exactly when the marker is absent, and otherwise is everything after its first occurrence |
| FactCheckParser.LabelledCaptures | backend/index.js:54-63 | with all three markers present every capture matches, so no default is used, and each field is its capture trimmed and cleaned |
| FactCheckParser.LabelledSections | backend/index.js:54-63 | an answer laid out as `VERDICT:v EXPLANATION:e CORRECTIONS:c`, with no colon in the sections, passes the marker test and yields exactly the three sections, trimmed and cleaned |
| FactCheckParser.MarkedTextIsNotJson | backend/index.js:40-51 | given a `JSON.parse` that, like the real one, accepts only text opening an object, a text starting with `VERDICT:` never passes the JSON stage |
| FactCheckParser.LabelledAnswerTakenAsIs | backend/index.js:54-63 | `VERDICT: False\n\nEXPLANATION: reasons\n\nCORRECTIONS: fix it` and every answer in that layout yields its plain sections unchanged, for any `JSON.parse` that, like the real one, accepts only text opening an object |
| FactCheckParser.EmptyVerdictSectionStaysEmpty | backend/index.js:60 | an empty verdict section yields the empty verdict, not `"Undetermined"` |
| FactCheckParser.NegatedAffirmationsAffirm | backend/index.js:67-79 | any text containing "incorrect" or "inaccurate" already passes the affirming test |
| FactCheckParser.HeuristicStage | backend/index.js:67-95 | "Likely True" exactly when an affirming token is present; "Likely False" exactly when there is no affirming token and "false" or "misleading" is present; "Undetermined" exactly when neither token class is present; the fixed corrections of the first and last cases |
| FactCheckParser.LikelyTrueExplanation | backend/index.js:70-77 | "Likely True" explains with everything before the last paragraph, separator included, trimmed and cleaned; without a blank line the explanation is empty |
| FactCheckParser.LikelyFalseParagraphs | backend/index.js:81-88 | "Likely False" explains with the first paragraph cleaned, and corrects with the trimmed, cleaned rest from the first blank line on; the corrections are empty without a blank line |
| FactCheckParser.ParseFactCheckResponse | backend/index.js:37-104 | the JSON stage decides when it accepts; otherwise the labelled stage decides exactly when all three markers are present; otherwise the heuristic stage decides |
| FactCheckParser.OuterCatchUnreachable | backend/index.js:96-102 | the cascade never throws on a string, so an "Error" verdict can only be copied from the JSON document or the labelled sections |
| App.GetVerdictColor | frontend/src/App.jsx:27-38 | green exactly when "true", "correct" or "accurate" occurs in the lower-cased verdict; red exactly when "false" occurs without those; yellow exactly when "partially" occurs without any of them; gray otherwise |
| App.NegatedTokensAreGreen | frontend/src/App.jsx:29-31 | "incorrect" and "inaccurate" already pass the green test, so they never reach the red test |
| App.VerdictColorIgnoresCase | frontend/src/App.jsx:28 | the colour of a verdict equals the colour of its lower-cased form |
| App.ClassNamesDistinct | frontend/src/App.jsx:29-37 | the four colours have four different class names |
| App.TrueVerdictIsGreen | frontend/src/App.jsx:29-30 | every verdict containing "True", "Partially True" among them, is green |
| App.LikelyTrueHidesCorrections | frontend/src/App.jsx:159 | a "Likely True" result of the heuristic never shows its corrections |
| App.UndeterminedShowsCorrections | frontend/src/App.jsx:159 | an "Undetermined" result of the heuristic always shows its corrections |
| App.SingleParagraphFalseHidesCorrections | frontend/src/App.jsx:159 | a "Likely False" result from a single paragraph has empty corrections, which are not shown |
| App.IsBlank | frontend/src/App.jsx:41 | an input trims to the empty string exactly when it is all whitespace |
| App.AcceptSubmission | frontend/src/App.jsx:41-46 | a submission is ignored exactly when the input is all whitespace; otherwise it carries the input untrimmed |
| App.SubmitDisabled | frontend/src/App.jsx:205 | the button is disabled exactly while loading or when the input is all whitespace |
| App.ButtonMatchesHandler | frontend/src/App.jsx:205 | while nothing is loading, the button is disabled for exactly the inputs the handler ignores |

## Left out

- The Express routes, static file serving and the 400/500 responses (backend/index.js:106-150). They are HTTP plumbing around a foreign call.
- The Socket.IO connection and broadcast handlers (backend/index.js:152-192). They are event-driven transport whose order depends on asynchronous completion.
- The OpenAI/Perplexity client, the environment configuration and the prompt text. They are network calls and configuration.
- The `JSON.parse` grammar. The parser takes it as a parameter that returns the parsed document's three properties. The only property of the real parser the model relies on is `FactCheckParser.ParsesObjectsOnly`: a document with string properties comes from text whose first non-whitespace character is `{`.
- React state, effects, `fetch`, scrolling, timestamps and rendering in `App.jsx`. The blank-input guard and the corrections condition are modelled as pure functions of their inputs.
- `console.error` in the outer `catch`. It is output only. The handler cannot run: the inner `catch` takes every JSON-stage exception, and the later stages call `trim` only on strings (a regex group that is always matched, and the last element of a `split`, which is never empty).
- Strings.ToLower: lowers ASCII letters only. Every token searched is ASCII, and the only non-ASCII characters whose lower case is ASCII (U+0130 and U+212A) cannot complete any of these tokens. The verdicts therefore agree with full Unicode lowering.
- Strings: characters are Unicode scalar values, not UTF-16 code units. `length` and `substring` are used only on whole strings and on boundaries found by searching, where the two views agree.
