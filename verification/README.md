# Exam client core, modelled in Dafny

The repository is a browser exam client. Three small pieces of it carry
checkable logic, and this project models those three and proves properties
of them.

- **The exam-taking page** (`app/exam/page.jsx`): the `mm:ss` clock text,
  the once-a-second countdown that submits the exam when it runs out, the
  answer map, the Previous/Next/sidebar navigation, and the warning and
  submit-confirmation dialogs. `ExamPage.dfy` models the page's `useState`
  fields as the class `ExamSession`, with one method per handler. The
  formatter and the state updaters are functions.
- **The helper library** (`opes-frontend-zip/lib/utils.js`):
  - `getAnswerStatus`, over a datatype of JavaScript values, so strict
    equality is explicit;
  - `getEffectiveDuration`, over integer milliseconds;
  - `formatDuration`;
  - `formatDateTimeLocal`, over the integer fields a `Date`'s local getters
    return.

  `Utils.dfy` models these as pure functions plus lemmas.
- **The anti-cheat hook** (`opes-frontend-zip/hooks/useAntiCheat.js`): six
  listeners. Leaving the tab, leaving the window or leaving fullscreen
  raises a warning and then reports a violation. Context menu, copy and
  paste only have their default action prevented. A cleanup removes the
  six listeners. `AntiCheat.dfy` gives:
  - the reaction to each event as a function;
  - the hook as the class `AntiCheatHook`, holding the registrations in
    place and the log of effects.

`Text.dfy` holds the JavaScript string behaviour these rely on:
`String(n)` / `n.toString()` for integer values below 2^53, and `padStart` with a
one-character pad. It also holds the partners needed to state round trips:
digit parsing, splitting at a separator, and reading a run of numbers
between given separators.

The page starts its countdown at a fixed 3600 seconds
(`app/exam/page.jsx:25`). Computing a start from an exam's end time is
`getEffectiveDuration`, which is modelled on its own.

## Model

| member | source | states |
|---|---|---|
| ExamPage.FormatTime | app/exam/page.jsx:79-83 | formatTime: the whole minutes, padded to two digits, then ':', then the remaining seconds padded to two digits; its layout is stated by ExamPage.FormatTimeLayout, and ExamPage.FormatTimeRoundTrip shows the two fields read back as minutes and seconds |
| ExamPage.FormatTimeLayout | app/exam/page.jsx:79-83 | below 6000 seconds the clock text is exactly five characters: two digits, ':' at index 2, two digits |
| ExamPage.FormatTimeRoundTrip | app/exam/page.jsx:80-82 | reading the two fields back gives the whole minutes and the remaining seconds; minutes * 60 + seconds is the time, and the seconds field is below 60 |
| ExamPage.NextTimeLeft | app/exam/page.jsx:59-65 | the updater's result is never negative: prev - 1 from prev >= 1 on, and 0 when prev <= 1 |
| ExamPage.TimeAfter | app/exam/page.jsx:58-66 | the time left after n firings of the interval, each applying the setTimeLeft updater; ExamPage.TimeAfterCountsDown gives its closed form, ExamPage.TimeAfterMonotone shows it never grows or goes negative |
| ExamPage.TimeAfterCountsDown | app/exam/page.jsx:58-66 | n ticks from a non-negative start leave start - n, or 0 once n reaches start |
| ExamPage.TimeAfterMonotone | app/exam/page.jsx:59-65 | tick after tick the time never increases and never goes below zero |
| ExamPage.CountdownFromOneHour | app/exam/page.jsx:25 | from 3600, the time is positive for the first 3599 ticks; the 3600th tick is the first whose updater submits, and it leaves 0 |
| ExamPage.PreviousIndex | app/exam/page.jsx:154 | Math.max(0, prev - 1): never negative, one back from index 1 on |
| ExamPage.NextIndex | app/exam/page.jsx:160 | Math.min(count - 1, prev + 1): never past the last index, one on before it |
| ExamPage.NavigationStaysInRange | app/exam/page.jsx:154-161 | both updaters keep an in-range index in range; Previous at 0 and Next at the last index are no-ops |
| ExamPage.ExamSession.constructor | app/exam/page.jsx:23-29 | the initial state: question 0, no answers, 3600 seconds with the interval running, both dialogs closed, empty warning |
| ExamPage.ExamSession.SubmitExam | app/exam/page.jsx:90-96 | handleSubmitExam hands on the current answers and closes the confirmation dialog |
| ExamPage.ExamSession.Tick | app/exam/page.jsx:57-70 | one firing of the interval with the evidently intended submission: the time follows NextTimeLeft and never grows; the tick that finds at most one second left clears the interval and submits the current answers; otherwise nothing is submitted |
| ExamPage.ExamSession.TickAsWritten | app/exam/page.jsx:57-70 | the same firing as the page writes it: the submission carries the empty answers of the first render |
| ExamPage.ExamSession.RunOut | app/exam/page.jsx:58-67 | the interval firing until it clears itself ends at 0 with exactly one submission, carrying the current answers, and the confirmation dialog closed by that submission; a stopped interval changes nothing |
| ExamPage.ExamSession.TickTimes | app/exam/page.jsx:57-70 | n firings of the interval leave exactly TimeAfter(time before, n), so with ExamPage.CountdownFromOneHour 3600 ticks from the constructor reach 0; the exam is submitted once, with the current answers, when the interval stops, and that closes the confirmation dialog; a run that does not stop the interval leaves the dialog as it was |
| ExamPage.ExamSession.RunOutAsWritten | app/exam/page.jsx:58-67 | the same run as written: the one submission carries the empty map, and the confirmation dialog ends closed |
| ExamPage.ExamSession.Answer | app/exam/page.jsx:72-77 | handleAnswer sets answers[id] to the answer and leaves every other entry, present or absent, as it was |
| ExamPage.ExamSession.AnswerCurrent | app/exam/page.jsx:132-133 | the shown question's input answers the question at the current index |
| ExamPage.ExamSession.Previous | app/exam/page.jsx:154 | the Previous button keeps the index in range, and is a no-op at 0 |
| ExamPage.ExamSession.Next | app/exam/page.jsx:160 | the Next button keeps the index in range, and is a no-op at the last question |
| ExamPage.ExamSession.SelectQuestion | app/exam/page.jsx:113-118 | a sidebar button sets the index to its own, which is in range |
| ExamPage.ExamSession.VisibilityChange | app/exam/page.jsx:43-48 | hidden: sets the tab-left message and opens the warning; visible: changes nothing |
| ExamPage.ExamSession.ToggleFullscreen | app/exam/page.jsx:31-41 | requests fullscreen without a fullscreen element; otherwise leaves it only when exitFullscreen exists |
| ExamPage.ExamSession.AcknowledgeWarning | app/exam/page.jsx:85-88 | closes the warning, then toggles fullscreen as above |
| ExamPage.ExamSession.SetWarningOpen | app/exam/page.jsx:168 | the warning dialog's onOpenChange sets its flag |
| ExamPage.ExamSession.RequestSubmit | app/exam/page.jsx:105 | the header's Submit Exam button opens the confirmation dialog |
| ExamPage.ExamSession.SetSubmitConfirmationOpen | app/exam/page.jsx:179-188 | Cancel and onOpenChange set the confirmation flag |
| ExamPage.StaleAutoSubmit | app/exam/page.jsx:57-70 | after answering question 1 with "Paris", running out the clock as written submits map[], while the corrected tick submits the answer |
| Utils.AnswerStatus | opes-frontend-zip/lib/utils.js:8-19 | "Correct" exactly for the boolean true, "Incorrect" exactly for false, "InApplicable" exactly for that string, and "" for every other value |
| Utils.SecondsLeft | opes-frontend-zip/lib/utils.js:62 | Math.floor((end - now) / 1000): the largest whole number of seconds within the window, negative when the window has passed |
| Utils.EffectiveDuration | opes-frontend-zip/lib/utils.js:58-64 | never negative; not above the configured duration when that is >= 0, nor above the seconds left when those are >= 0; 0 once the window has ended, and 0 when the configured duration is at most 0; exactly the configured duration when it fits, exactly the seconds left when they do; always one of 0, the duration, the seconds left |
| Utils.JsRemainder60 | opes-frontend-zip/lib/utils.js:50 | JavaScript's `%`: the remainder takes the dividend's sign, stays within 60 of zero, and differs from the dividend by a multiple of 60 |
| Utils.FormatDuration | opes-frontend-zip/lib/utils.js:47-55 | formatDuration for whole minutes: the hours and the signed remainder of the minutes, shown as both, the hours alone or the minutes alone as each part is zero or not; Utils.FormatDurationCases gives the three texts, Utils.FormatDurationZero the zero case, Utils.FormatDurationRoundTrip the read-back |
| Utils.FormatDurationCases | opes-frontend-zip/lib/utils.js:47-54 | for a non-negative multiple of 60: "h hr m min" when both parts are non-zero, "h hr" for whole hours, "m min" under an hour |
| Utils.FormatDurationZero | opes-frontend-zip/lib/utils.js:52-54 | zero hours falls through to the minutes branch: "0 min" |
| Utils.FormatDurationRoundTrip | opes-frontend-zip/lib/utils.js:47-55 | reading the text back gives the number of seconds formatted |
| Utils.FormatDateTimeLocal | opes-frontend-zip/lib/utils.js:34-45 | formatDateTimeLocal on the getters' fields: the year, the 1-based month, the day, the hours and the minutes, the last four padded to two digits, joined by '-', '-', 'T' and ':'; Utils.FormatDateTimeLocalLayout gives the shape, Utils.FormatDateTimeLocalRoundTrip the read-back |
| Utils.FormatDateTimeLocalLayout | opes-frontend-zip/lib/utils.js:37-44 | for a four-digit year and fields in the getters' ranges, the value has the shape ####-##-##T##:## |
| Utils.FormatDateTimeLocalRoundTrip | opes-frontend-zip/lib/utils.js:37-44 | reading the value back gives the year, the 0-based month, the day, the hours and the minutes, so the month is written 1-based and every padded field keeps its value |
| Text.NatToString | app/exam/page.jsx:82 | toString of a non-negative integer is a numeral, with no leading zero from 10 on |
| Text.IntToString | opes-frontend-zip/lib/utils.js:44 | String(i): the natural number's text from 0 on, a '-' before the magnitude's text below 0 |
| Text.PadStart | app/exam/page.jsx:82 | padStart: the text is the width long, or kept when already longer; the original ends it and the pad fills the front |
| Text.Pad2 | opes-frontend-zip/lib/utils.js:38-42 | toString().padStart(2, '0') is a numeral, two characters below 100 |
| Text.Pad2Wide | opes-frontend-zip/lib/utils.js:38-42 | from 10 on, padding adds no zero: the text is exactly toString() |
| Text.ParseNatToString | app/exam/page.jsx:82 | the decimal text of n reads back as n |
| Text.ParsePad2 | opes-frontend-zip/lib/utils.js:38-42 | zero padding keeps the value: the padded text reads back as n |
| AntiCheat.ListenerFor | opes-frontend-zip/hooks/useAntiCheat.js:36-41 | every event is received by one of the six registrations, the one made for its own event type, and on the window exactly for blur |
| AntiCheat.EveryListenerReached | opes-frontend-zip/hooks/useAntiCheat.js:36-41 | each of the six registrations receives some event, so the six event kinds go to six different listeners |
| AntiCheat.ViolationOf | opes-frontend-zip/hooks/useAntiCheat.js:7-22 | the three violations are exactly a hidden tab, a blur and no fullscreen element left |
| AntiCheat.WarnAndReport | opes-frontend-zip/hooks/useAntiCheat.js:9-20 | a violation raises its warning and then sends one report |
| AntiCheat.Reaction | opes-frontend-zip/hooks/useAntiCheat.js:7-33 | at most two effects, every report right behind a warning, one report exactly for a violation, a prevented default exactly for context menu, copy and paste |
| AntiCheat.ReactionByEvent | opes-frontend-zip/hooks/useAntiCheat.js:7-33 | the exact effects: the three warning/report text pairs, nothing when visible or on entering fullscreen, only a prevented default for context menu, copy and paste |
| AntiCheat.AppendReaction | opes-frontend-zip/hooks/useAntiCheat.js:9-20 | handling one more event keeps every report right behind its warning |
| AntiCheat.Replay | opes-frontend-zip/hooks/useAntiCheat.js:7-41 | the effects a run of events leaves, each event adding its reaction while the handlers are registered and nothing otherwise; AntiCheat.ReplayKeepsOrder and AntiCheat.OneReportPerViolation state its order and report count, and AntiCheat.AntiCheatHook.DispatchAll shows the hook produces it |
| AntiCheat.ReplayKeepsOrder | opes-frontend-zip/hooks/useAntiCheat.js:9-20 | however many events arrive, every report stays right behind a warning |
| AntiCheat.OneReportPerViolation | opes-frontend-zip/hooks/useAntiCheat.js:7-22 | while registered, the reports sent number exactly the violations received |
| AntiCheat.ReplayAfterCleanup | opes-frontend-zip/hooks/useAntiCheat.js:43-50 | the replay without registered handlers is empty; this is immediate from AntiCheat.Replay, and the property of the hook rests on AntiCheat.AntiCheatHook.Cleanup leaving no registration and AntiCheat.AntiCheatHook.Dispatch running a handler only while its registration is in place, combined in AntiCheat.MountedThenCleanedUp |
| AntiCheat.AntiCheatHook.constructor | opes-frontend-zip/hooks/useAntiCheat.js:3-4 | before the effect runs: nothing registered, nothing logged |
| AntiCheat.AntiCheatHook.Mount | opes-frontend-zip/hooks/useAntiCheat.js:36-41 | the effect body registers exactly the six listeners |
| AntiCheat.AntiCheatHook.Cleanup | opes-frontend-zip/hooks/useAntiCheat.js:43-50 | the cleanup removes exactly those six, leaving none, so that afterwards AntiCheat.AntiCheatHook.Dispatch runs no handler |
| AntiCheat.AntiCheatHook.RaiseWarning | opes-frontend-zip/hooks/useAntiCheat.js:5 | raise appends its warning to the log; a step of the handlers, which keep Valid() |
| AntiCheat.AntiCheatHook.SendReport | opes-frontend-zip/hooks/useAntiCheat.js:10 | a reportViolation call appends its report to the log |
| AntiCheat.AntiCheatHook.PreventDefaultAction | opes-frontend-zip/hooks/useAntiCheat.js:24 | e.preventDefault() appends a prevented default |
| AntiCheat.AntiCheatHook.HandleVisibilityChange | opes-frontend-zip/hooks/useAntiCheat.js:7-12 | appends the reaction to a visibility change, keeping every report behind its warning |
| AntiCheat.AntiCheatHook.HandleBlur | opes-frontend-zip/hooks/useAntiCheat.js:13-16 | appends the switched-away warning, then its report |
| AntiCheat.AntiCheatHook.HandleFullscreenChange | opes-frontend-zip/hooks/useAntiCheat.js:17-22 | appends the exited-fullscreen warning and report only when no fullscreen element remains |
| AntiCheat.AntiCheatHook.HandleContextMenu | opes-frontend-zip/hooks/useAntiCheat.js:23-27 | appends only a prevented default |
| AntiCheat.AntiCheatHook.HandleCopyPaste | opes-frontend-zip/hooks/useAntiCheat.js:28-33 | the one handler for copy and for paste appends only a prevented default |
| AntiCheat.AntiCheatHook.Dispatch | opes-frontend-zip/hooks/useAntiCheat.js:36-41 | an event has its reaction exactly when its registration is in place, and no effect otherwise |
| AntiCheat.AntiCheatHook.DispatchAll | opes-frontend-zip/hooks/useAntiCheat.js:36-41 | a run of events appends the replay of their reactions, or nothing when the handlers are not registered |
| AntiCheat.MountedThenCleanedUp | opes-frontend-zip/hooks/useAntiCheat.js:36-51 | the "no effect after cleanup" property of the hook itself: mounting, receiving events, cleaning up and receiving more leaves only the effects of the events before the cleanup, in order, with one report per violation |

## Left out

- `cn` (opes-frontend-zip/lib/utils.js:4-6): it wraps the clsx and tailwind-merge libraries, which are not part of this model.
- `formatDateTime` (opes-frontend-zip/lib/utils.js:21-32): its output is decided by the locale tables behind `toLocaleString`.
- Parsing of `new Date(dateString)`, invalid dates and NaN: the date comes in as the integer fields its getters return.
- The real clock, `setInterval` and `clearInterval`: `now` and `end` are parameters, each firing of the interval is one call of `Tick`, and the `timerRunning` flag stands for the interval being scheduled.
- Utils.FormatDuration: defined only for multiples of 60 seconds. For other inputs `seconds / 60` is a floating-point division, and its decimal text is not modelled.
- Utils.FormatDurationCases: stated for non-negative multiples of 60. For negative inputs the model still computes JavaScript's floor and signed remainder, but no lemma describes that text.
- Utils.FormatDateTimeLocalRoundTrip: stated for years from 0 on. A negative year's '-' is not told apart from the field separator.
- Utils.FormatDateTimeLocalLayout: stated for four-digit years and fields in the getters' ranges. Other years are longer or shorter.
- JavaScript numbers are doubles, while the model's integers are exact and unbounded: `toString`, `Math.floor`, `%` and the arithmetic agree with the model only below 2^53 (and `toString` switches to exponent form from 1e21), far above any time, duration or date field handled here.
- ExamPage.FormatTime: takes a natural number, because the countdown never makes the time negative (ExamPage.NextTimeLeft).
- ExamPage.ExamSession.VisibilityChange: the page's own registration of this listener (app/exam/page.jsx:50-55) is not modelled, only what the handler does.
- Browser fullscreen calls (`requestFullscreen`, `exitFullscreen`, `document.fullscreenElement`, `document.hidden`): these become boolean inputs.
- AntiCheat.AntiCheatHook.SendReport: `reportViolation` is an asynchronous remote call. Only the moment it is called is logged, after the warning. The await, the network and failures are not modelled.
- AntiCheat.AntiCheatHook.Mount: requires that nothing is registered yet, as React runs the cleanup before running the effect body again (the `[setWarningMessage]` dependency, opes-frontend-zip/hooks/useAntiCheat.js:51).
- The `console.log` calls in handleSubmitExam and in the context-menu and copy/paste handlers. `submitted` records what handleSubmitExam would send instead.
- Rendering: the JSX, the RadioGroup/Textarea wiring beyond which question an input answers, and `components/Error.jsx` and `components/Navbar.jsx`, which hold no logic beyond opening a dialog.
- The camera, microphone and voice-activity checks of other pages: these are not part of this model.

## Findings

| source | as written | input that shows it | evidently intended | confidence | as-written member | corrected member |
|---|---|---|---|---|---|---|
| app/exam/page.jsx:57-70 | the interval is created once, with an empty dependency list, so the handleSubmitExam it calls at zero is the first render's, and that closes over the initial empty `answers` | answer question 1 with "Paris", then let the 3600 ticks run out: the auto-submission carries `{}` | the auto-submission at zero sends the answers given so far | not executed | ExamPage.ExamSession.TickAsWritten | ExamPage.ExamSession.Tick |
