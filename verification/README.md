# webex exercise grading engine — a Dafny model

This project models the grading engine in `include/webex.js`. That engine serves the interactive
exercises of a rendered book. It grades three kinds of widget:

- free-text inputs (`webex-solveme`);
- dropdown selects (`webex-select`);
- radio-button groups (`webex-radiogroup`).

It marks each widget (for a radio group, the checked button's label) with `webex-correct` and/or
`webex-incorrect`. It writes each widget's
feedback into one element whose id is `"feedbackDiv"` + the widget's id. Each "check answers"
section (`webex-check`) moves between `unchecked` ("Show Answers") and revealed ("Hide Answers").
Each section's `webex-total_correct` span shows `"<c> of <n> correct"`.

Files:

- `wrappers.dfy`: `Option`, for attributes that may be absent.
- `normalise.dfy`: the normalisation that submissions and stored answers both undergo. Lower-casing
  comes first, then space removal.
- `summary.dfy`: the decimal rendering of counts and the summary text. `ParseSummary` reads the text
  back.
- `grading.dfy`: the widget configuration, marks and feedback elements as values. It also holds the
  closed-form verdict for each widget kind, the counting behind a summary, and the restyling done by a
  section toggle.
- `engine.dfy`: the class `Engine`. It holds the state the handlers change in place: values, marks,
  feedback elements, section flags and labels, summaries, and solution boxes. Each handler is one
  method. The step-by-step mark updates are the methods `TextMarks`, `SelectMarks` and `RadioMarks`.
  They change no state and are proved equal to the closed-form verdicts.

The invariant `Engine.Valid()` states four facts:

- every widget's feedback element is hidden exactly when its section is `unchecked`;
- each widget has at most one feedback element;
- a radio group has at most one marked label;
- every summary equals the recount from the current marks.

The constructor and every handler keep this invariant.

The model follows the code as written, including where it departs from a tidier design:

- The tolerance step removes `correct` from an exact match when no answer is within tolerance. A purely
  additive tolerance step would keep that mark (`ToleranceClearsExactMatch`).
- Radio groups have no `"blank"` sentinel: a checked `"blank"` button is marked `incorrect`.
- The stored answers are lower-cased and stripped once, at load. Grading does not normalise the answer
  side again (`NormaliseIdempotent` shows that doing so would change nothing).
- An empty normalised value does not end grading: the tolerance and regex steps still run on it. `Math.abs(x - "")` treats "" as 0, so an empty tolerant input is marked `correct` when 0 is within tolerance of an answer. On a miss, its feedback is filled and inserted (`EmptyTolerant`).
- A section toggle does not recompute the summaries. It changes no mark, so they stay correct.
- A malformed tolerance or regex configuration is not reported when the page loads. It surfaces as an exception thrown inside the text handler (see "## Left out").

## Model

| member | source | states |
|---|---|---|
| Normalisation.Lower | include/webex.js:116-118 | lower-casing keeps the length, leaves no upper-case letter, keeps every other character and shifts each upper-case letter to its lower-case form |
| Normalisation.StripSpaces | include/webex.js:119-121 | space removal leaves no space, never lengthens, keeps the count of every other character and adds no character |
| Normalisation.Normalise | include/webex.js:116-121 | with `nospaces` the result has no space; with `ignorecase` it has no upper-case letter; with neither flag it is the value itself |
| Normalisation.StripSpacesConcat | include/webex.js:120 | space removal distributes over concatenation, so it works character by character |
| Normalisation.NormaliseIdempotent | include/webex.js:305-312 | normalising twice equals normalising once, so the answers normalised at load are fixed points of the submission's normalisation |
| Normalisation.MatchAfterLoad | include/webex.js:126 | the normalised submission is in the normalised answer list iff some original answer normalises to the same string |
| Summary.NatToString | include/webex.js:15 | a count renders as a non-empty digit string with no leading zero unless it is 0 |
| Summary.NatToStringValue | include/webex.js:15 | the rendered digits denote the count |
| Summary.SummaryRoundTrip | include/webex.js:15 | parsing the summary text gives back both the number correct and the total |
| Summary.EmptySummary | include/webex.js:15 | zero correct out of zero renders as "0 of 0 correct" |
| Grading.FeedbackKeyInjective | include/webex.js:96 | two widgets have the same feedback id iff they have the same id |
| Grading.Html | include/webex.js:132 | the rendered feedback is empty exactly when the attribute is absent (`null`) or the empty string |
| Grading.RadioFeedback | include/webex.js:212-213 | absent feedback renders ""; present feedback is kept as a prefix; "<b></b>" stays as it is; anything else is followed by "</br></br>" |
| Grading.Load | include/webex.js:305-312 | loading changes only a text input's answers; each becomes its normalised form, which further normalisation leaves unchanged |
| Grading.TextVerdict | include/webex.js:123-155 | an empty normalised value is never `incorrect`; both marks together arise only from a tolerance or regex hit; no mark at all arises only from an empty value or a tolerance miss |
| Grading.TextFilled | include/webex.js:129-147 | the feedback is filled exactly when the membership step marks `incorrect` or the tolerance step finds nothing within tolerance |
| Grading.SelectVerdict | include/webex.js:193-200 | a select never carries both marks, and is marked at all exactly when its value is not "blank" |
| Grading.CountCorrect | include/webex.js:10 | with no `correct` mark anywhere, or no widget in the section, the count correct is 0 |
| Grading.CountWidgets | include/webex.js:11-13 | the section's widget count is at most the number of widgets: all of them when every widget is in the section, 0 when none is |
| Grading.ShownFlip | include/webex.js:106-114 | setting one section's `unchecked` flag changes the visibility of exactly that section's widgets, which become hidden iff the flag is set |
| Summary.SummaryText | include/webex.js:15 | the summary begins with the decimal count correct, ends with " correct", and is 12 characters longer than the two numbers |
| Webex.LabelToggles | include/webex.js:37-59 | the labels of the two states differ, so every toggle changes the label |
| Grading.TextOutcomes | include/webex.js:123-134 | without tolerance or regex: an empty normalised value carries no mark and no feedback; an answer carries `correct` alone; anything else carries `incorrect` alone and gets the feedback |
| Grading.LoadedMatch | include/webex.js:116-126 | without tolerance or regex, and after load normalisation, a submission is marked correct iff it is non-empty after normalisation and normalises like one of the original answers |
| Grading.RegexOnlyAdds | include/webex.js:149-155 | a regex hit adds `correct` and leaves `incorrect` as it was; a miss changes nothing |
| Grading.ToleranceKeepsIncorrect | include/webex.js:136-147 | the tolerance step never changes `incorrect`; when nothing is within tolerance and the regex does not match, `correct` is off |
| Grading.ToleranceClearsExactMatch | include/webex.js:123-147 | for every tolerant text input, a non-empty normalised value that is an answer, is not within tolerance and has no regex hit would be `correct` alone without the tolerance step, and ends with neither mark |
| Grading.EmptyTolerant | include/webex.js:123-147 | on a tolerant text input, an empty normalised value is never `incorrect`; it is `correct` exactly when something is within tolerance or the regex hits, and its feedback is filled exactly on a tolerance miss |
| Grading.SelectOutcomes | include/webex.js:193-200 | a select is `correct` iff its value is "answer", unmarked iff "blank", and never carries both marks |
| Grading.RadioVerdict | include/webex.js:243-254 | after checking button k, only label k is marked: `correct` iff its value is "answer", otherwise `incorrect` ("blank" included) |
| Grading.CorrectMarks | include/webex.js:10 | the number of `correct` elements in a group is at most the group's size |
| Grading.AtMostOneCorrect | include/webex.js:243-254 | a group with at most one marked label has at most one `correct` label |
| Grading.CorrectAtMostTotal | include/webex.js:10-15 | if each widget carries at most one `correct`, a section's count correct is at most its number of gradable widgets |
| Grading.CountOtherSection | include/webex.js:7-16 | changing a widget outside a section leaves that section's count correct unchanged |
| Grading.EmptyScope | include/webex.js:7-16 | a section without widgets counts 0 widgets and 0 correct, and its summary is "0 of 0 correct" |
| Grading.Restyle | include/webex.js:41-75 | a toggle changes no feedback element's existence or text, only visibility |
| Grading.RestyleTwice | include/webex.js:32-79 | hiding then showing a section's feedback, or the reverse, restores every element that started in the restored state |
| Webex.FeedbackUpdate | include/webex.js:93-114 | writing one widget's feedback element with its section's visibility keeps every element in sync and keeps one element per widget |
| Webex.ToggleUpdate | include/webex.js:32-79 | flipping a section and restyling its widgets' elements keeps every element's visibility in sync with its section |
| Webex.TextMarks | include/webex.js:116-155 | the step-by-step updates (normalise, membership, tolerance, regex) end in the closed-form text verdict, whatever the prior marks, and fill the feedback exactly when the closed form says so |
| Webex.SelectMarks | include/webex.js:193-200 | clearing both marks and then applying the sentinel rule gives the select verdict, whatever the prior marks |
| Webex.RadioMarks | include/webex.js:243-254 | the loop clears every label's marks, then marks only the checked button's label |
| Webex.RadioText | include/webex.js:212-213 | the step-by-step construction of the radio feedback text equals `RadioFeedback` |
| Webex.Engine.constructor | include/webex.js:270-312 | at load: every section is `unchecked` with label "Show Answers"; text inputs hold ""; answers are normalised; nothing is marked; no feedback element exists; summaries are computed |
| Webex.Engine.UpdateTotalCorrect | include/webex.js:4-17 | every section's summary is recounted from scratch from the current marks |
| Webex.Engine.ToggleSolution | include/webex.js:20-29 | a solution box's `open` flag flips, nothing else changes, and the invariant is kept |
| Webex.Engine.ToggleCheck | include/webex.js:32-79 | the section's `unchecked` flag flips; the label becomes "Hide Answers" on reveal and "Show Answers" on hide; its widgets' feedback elements become visible or hidden to match; no mark or value changes |
| Webex.Engine.ToggleTwiceRestores | include/webex.js:32-79 | under the invariant, toggling a section twice restores every feedback element |
| Webex.Engine.GradeText | include/webex.js:82-158 | the value is stored; the marks become the text verdict; the feedback element is created or reused, gets the feedback text only when filled, and is hidden iff the section is `unchecked`; other sections' summaries stay the same |
| Webex.Engine.GradeSelect | include/webex.js:161-203 | the selected option's value is stored; the marks become the select verdict; its feedback is always written, even when correct, and is hidden iff the section is `unchecked`; other summaries stay the same |
| Webex.Engine.GradeRadio | include/webex.js:206-257 | the checked button's value is stored; the labels' marks become the radio verdict; its feedback (with separator) is written and hidden iff the section is `unchecked`; other summaries stay the same |
| Webex.Engine.OtherSummaries | include/webex.js:7-16 | after one widget's marks change, every section not containing it shows the summary it showed before |
| Webex.Engine.ScoreBounded | include/webex.js:4-17 | in every section, the count correct is at most the number of gradable widgets |

## Left out

- Webex.Engine.GradeText: the tolerance arithmetic is not modelled, because it uses JavaScript's string-to-number coercion and floating-point `Math.abs(x - v) < tol`. Its outcome is the parameter `withinTol`.
- Webex.Engine.GradeText: the regular expression built from the joined answers is not modelled, because it is a foreign engine. Its outcome is the parameter `regexHit`.
- Webex.Engine.GradeText: the model does not cover a handler that throws because of its configuration. `JSON.parse(data-tol)` throws on a value such as ".5" that passes the `> 0` test. `RegExp` throws on an invalid pattern, such as an answer "f(x" on a `regex` widget. In the code, the marks and feedback set by the steps before the throwing call then remain. If `RegExp` throws on a tolerant widget, the tolerance step has already run: it may have removed `correct`, and filled and inserted the feedback element. `update_total_correct` is skipped, so the section's summary is stale. The model always completes the handler and recounts.
- Webex.Engine.constructor: the load handler clears neither the marks nor existing feedback elements. The model's "nothing is marked, no feedback element exists" relies on fresh markup carrying no `webex-correct` or `webex-incorrect` class and no `feedbackDiv…` element.
- `JSON.parse` of `data-answer` and `data-tol` is not modelled. A text input's answers are given as an already-parsed list of strings, and `data-tol > 0` is the flag `tolerant`.
- Numeric answers are not modelled. `includes` never matches a string against a number, so those answers act only through the tolerance step and, on a `regex` widget, through the joined pattern. The model abstracts both as the parameters `withinTol` and `regexHit`.
- Grading.Load: normalisation at load is applied to each answer. The code applies it to the JSON text of the answer list. The two agree unless an answer uses JSON escape sequences.
- Normalisation.Lower: it folds only the ASCII letters A-Z. Full Unicode case mapping is not modelled.
- Each widget's enclosing check section is given as `section`. The handlers inspect a fixed ancestor: the grandparent for text inputs and selects, and the parent for radio groups. The model assumes the usual markup, where that ancestor is the section that also contains the feedback element.
- Widget ids must be distinct, as the document's id lookups assume.
- A radio event always has a checked button, and a select event always has a selected option. Without one, the handlers dereference `null` or `undefined`.
- DOM plumbing is not modelled: `console.log`, the `autocomplete`/`autocorrect`/`autocapitalize`/`spellcheck` attributes, icon spans, creating and appending the check buttons and summary spans, `onclick`/`onchange`/`onkeyup` wiring, and where feedback elements are inserted. A feedback element that a text input creates but does not insert never enters the document. The model drops it too.
- test.py and data/get_hospitals.py are not part of this model. They hold network routing, HTTP scraping, file and CSV I/O, dataframe processing and plotting, all through libraries outside the repository.
