# Portfolio site script: contact-form gate, theme and mobile menu

This project models the stateful and logical core of a personal portfolio
site's `script.js`:

- **ContactForm**, the handler behind the site's contact form. It holds a
  client-side rate limiter with two fields, `lastSubmissionTime` and
  `submissionCount`. Together they allow at most 3 successful submissions,
  with a window of 60 000 ms measured from the latest success. The handler
  also has an input validator `validateInput`. `handleSubmit` orders the
  steps: rate check, then validation, then the send with the submit button
  disabled, then the count update on success only, then the button restored.
- **ThemeManager**: the light/dark theme. It is mirrored in the document's
  `data-theme` attribute and persisted under the key `theme` in the
  browser's preference store.
- **MobileNav**: whether the mobile menu is open.

Modules:

- `Validation` (validation.dfy) holds `validateInput` as pure predicates. Each
  regular expression is written out as a scanner or predicate over strings.
  - The e-mail pattern becomes a split into local part, domain and
    top-level domain.
  - The URL pattern becomes the global-match scan, which resumes after each
    greedy match.
  - The keyword pattern becomes whole-word occurrences with `\b` on both
    sides.
  - The repeat pattern becomes a window of eleven equal characters, none of
    them a line terminator.
  - Each is then characterised without the scanner, for example "more than
    one URL match exactly when two URL-like words are separated by
    whitespace".
- `RateLimit` (rate_limit.dfy) holds the limiter as functions on its two
  fields, and `handleSubmit`'s effect on them. Its main theorem covers any
  sequence of attempts whose clock never goes back: the successful
  submissions come in time order, any four of them span more than 60 000 ms
  (so no 60 000 ms window holds more than three), and the counter never
  exceeds 3.
- `Contact` (contact.dfy) holds the class `ContactForm`. Its fields are
  updated in place by `CheckRateLimit`, `UpdateRateLimit`, `SendEmail` and
  `HandleSubmit`. The new state of `CheckRateLimit`, `UpdateRateLimit` and
  `HandleSubmit` is tied to the `RateLimit` functions; `SendEmail` appends
  the message to the log of sends.
- `Theme` (theme.dfy) holds the class `ThemeManager`, with the preference
  store as a `map<string, string>`.
- `Navigation` (navigation.dfy) holds the class `MobileNav`.

Inputs the model takes as parameters:

- Clock readings (`Date.now()`). `handleSubmit` reads the clock twice, at the
  check and at the update after the send, so both readings are parameters.
- The delivery service's answer: `delivered`, true when the send resolves
  and false when it rejects.
- The preference store's initial contents.

Form values are `Option<string>`, where `None` means the form has no input
of that name. JavaScript truthiness of a value is `Filled`, meaning present
and non-empty. A Dafny `char` is a Unicode scalar value, while the source's
lengths and patterns count UTF-16 code units. The model is meant for text in
the Basic Multilingual Plane (up to U+FFFF), where the two agree and lengths
are sequence lengths. Above U+FFFF it gives different answers: a character
such as U+1F600 counts once here and twice in the source, for the length
limits and the repeat check alike.

The limiter is easily read as a fixed window that starts at the first
submission. On that reading, a fourth submission 60 001 ms after the first
would succeed. The code does something else: `lastSubmissionTime` is written
only by `updateRateLimit` (script.js:386), so the window is measured from the
**most recent** success. The model follows the code.
`RateLimit.WindowSlidesFromLastSuccess` shows a fourth attempt, more than a
window after the first success, still being rate-limited.

## Model

| member | source | states |
|---|---|---|
| Validation.LowerChar | script.js:419 | lowercasing maps no character to an upper-case ASCII letter and keeps word, whitespace and line-terminator characters in their classes |
| Validation.LowerText | script.js:419 | definition: `toLowerCase` on ASCII letters, applied character by character |
| Validation.LowerTextLaws | script.js:419 | lowercasing distributes over concatenation, leaves no upper-case ASCII letter, and changes nothing when applied again |
| Validation.IsSpace | script.js:397 | definition: the characters ECMAScript's `\s` matches, i.e. its WhiteSpace and LineTerminator code points |
| Validation.IsWordChar | script.js:413 | definition: the characters ECMAScript's `\w` matches, `[A-Za-z0-9_]`, which decide where `\b` lies |
| Validation.IsLineTerminator | script.js:414 | definition: the four characters `.` does not match |
| Validation.Filled | script.js:391 | definition: JavaScript truthiness of a form value, present and not the empty string |
| Validation.EmailSplit | script.js:396 | definition: the string is a run of `[^\s@]`, '@', a run, '.', a run, each run non-empty, with the '@' and the '.' at the given positions |
| Validation.EmailMatches | script.js:396-397 | definition: the e-mail pattern's test, i.e. some such split exists |
| Validation.EmailMatchesIff | script.js:396-399 | the e-mail pattern accepts exactly the strings with no whitespace, exactly one '@' which is not first, and a '.' after the '@' with text on both sides of it |
| Validation.MatchAt | script.js:412 | definition: a URL match starts here, "http://" or "https://" followed by at least one non-whitespace character |
| Validation.RunEnd | script.js:412 | the greedy `[^\s]+` of a URL match stops at the first whitespace character or at the end of the text |
| Validation.UrlMatchesFrom | script.js:422-423 | definition: the number of matches a global `match` finds from a position, resuming after the greedy end of each match and otherwise moving on by one |
| Validation.UrlMatchCount | script.js:422-423 | definition: the length of the array `fullText.match(...)` returns, 0 for null |
| Validation.UrlMatchesPositive | script.js:422-425 | the global URL match finds something from a position exactly when a match starts at or after it |
| Validation.UrlMatchesTwo | script.js:422-425 | the global URL match from a position finds more than one match exactly when two match starts at or after it are separated by whitespace |
| Validation.UrlCountIff | script.js:422-425 | the URL count exceeds the allowed one exactly when two URL-like words sit in different whitespace-separated runs of the text |
| Validation.MatchNeedsColon | script.js:412 | every URL match has a ':' within its first six characters, none of them whitespace |
| Validation.NoColonNoUrl | script.js:422-425 | text without a ':' has no URL match |
| Validation.OneWordOneUrl | script.js:422-425 | a single whitespace-free word amid text without ':' yields at most one URL match, whatever the word holds |
| Validation.KeywordAt | script.js:413 | definition: the keyword occurs at the position with a `\b` word boundary on both sides |
| Validation.HasSpamKeyword | script.js:428 | definition: the keyword pattern's test, i.e. one of the seven keywords occurs somewhere as a whole word |
| Validation.WholeWordAt | script.js:413 | a word whose lowercase form is a keyword, bounded by non-word characters or the text's ends, is a whole-word keyword occurrence in the lowercased text |
| Validation.SpamKeywordDetected | script.js:428-430 | any of the seven keywords, in any ASCII letter case and standing as a whole word, is detected |
| Validation.NoKeywordWithoutMarkers | script.js:413 | a text containing none of 'v', 'c', 'y', 'w', 'f' holds no keyword |
| Validation.WinnersIsNotSpam | script.js:413 | "winners" does not trigger the keyword "winner", since there is no word boundary after the 'r' |
| Validation.RepeatAt | script.js:414 | definition: a character other than a line terminator starts here, and the next ten characters are the same character |
| Validation.HasRepeatRun | script.js:433 | definition: the repeat pattern's test, i.e. such a run starts somewhere |
| Validation.RepeatRunDetected | script.js:433-435 | eleven or more equal characters in a row, other than a line terminator, anywhere in the text are detected |
| Validation.LineBreaksAreNotRepeats | script.js:414 | a run of any one line terminator ('\n', '\r', U+2028, U+2029) is never a repeat, because `.` does not match a line terminator |
| Validation.HasSuspiciousChar | script.js:415 | definition: the suspicious-character pattern's test, which the validator never performs |
| Validation.RepeatFreeJoin | script.js:414 | joining two repeat-free texts with a separator different from both neighbours gives a repeat-free text |
| Validation.FullText | script.js:418-419 | definition: name, subject and message joined by single spaces, then lowercased |
| Validation.ValidateInput | script.js:389-438 | definition: the checks in the source's order (required fields, e-mail, lengths, URL count, keywords, repeats), the first failing one deciding false |
| Validation.ValidateInputIff | script.js:389-438 | the validator accepts exactly the submissions where all four fields are filled, the e-mail has the plain shape, the three lengths are within 100/200/2000, and the combined lowercased text has no two separated URLs, no whole-word keyword and no run of eleven equal characters other than a line terminator; the suspicious-character pattern plays no part |
| Validation.MissingFieldRejected | script.js:391-393 | a missing or empty field is rejected |
| Validation.MalformedEmailRejected | script.js:396-399 | an e-mail with no '@', or with no '.' after its '@', is rejected |
| Validation.TooLongRejected | script.js:402-408 | a name over 100, a subject over 200 or a message over 2000 characters is rejected |
| Validation.TwoUrlsRejected | script.js:422-425 | two URL-like words separated by whitespace in the combined text reject the submission |
| Validation.AcceptedWhen | script.js:389-438 | filled fields, a matching e-mail, lengths within the caps and a clean combined text are accepted |
| Validation.SampleAccepted | script.js:389-438 | {Jo, jo@x.com, Hi, Hello there} is accepted |
| Validation.SuspiciousCharactersIgnored | script.js:415 | a submission whose text the unused suspicious-character pattern matches ("Hi!") is still accepted |
| Validation.TenRepeatsAccepted | script.js:433-435 | a character repeated ten times is accepted |
| Validation.ElevenRepeatsRejected | script.js:433-435 | a character repeated eleven times is rejected |
| Validation.OneUrlAccepted | script.js:422-425 | a message holding one URL is accepted |
| Validation.TwoUrlsInMessageRejected | script.js:422-425 | a message holding two URLs is rejected |
| RateLimit.Check | script.js:366-375 | definition: `checkRateLimit`, the counter reset to 0 when more than 60 000 ms have passed since the last success, and the answer whether the counter is below 3 |
| RateLimit.Update | script.js:377-387 | definition: `updateRateLimit`, the time recorded, the counter set to 1 after more than 60 000 ms and increased by one otherwise |
| RateLimit.Submit | script.js:311-348 | definition: `handleSubmit`'s effect on the limiter and its outcome, with the check first, then validation, then the send, and the update only after a successful send |
| RateLimit.Run | script.js:311-348 | definition: a sequence of submissions applied in order, returning the final limiter and the update times of the delivered ones |
| RateLimit.CheckOnlyResets | script.js:366-375 | the check never moves the window; it resets the counter to 0 exactly when more than 60 000 ms have passed since the last success; it allows the attempt exactly when the window has passed or the counter is below 3 |
| RateLimit.AdmittedUpdateStaysWithinLimit | script.js:366-387 | after a check that lets the attempt through and on a clock that does not go back, the update of a non-negative counter records its time and leaves the counter between 1 and 3, restarting at 1 exactly when the previous counter was 0 or more than 60 000 ms have passed since the last success |
| RateLimit.CheckResetAgreesWithUpdate | script.js:366-387 | when the clock does not go back between check and update, the check's reset does not change what the update computes |
| RateLimit.RateLimitedFirst | script.js:315-318 | a failed rate check decides the outcome before validation or delivery are consulted, leaving the state as the check left it |
| RateLimit.FailuresDoNotConsume | script.js:315-347 | an attempt that is not delivered leaves the window where it was and the state as the check left it, and never raises a non-negative counter |
| RateLimit.DeliveryFailureDoesNotBlock | script.js:335-347 | after a rejected send, a retry at the same time or later passes the rate check |
| RateLimit.SubmitKeepsCountBounded | script.js:366-387 | a counter between 0 and 3 stays between 0 and 3 across a submission, whatever the clock readings |
| RateLimit.ExpiredWindowAdmits | script.js:366-375 | once more than 60 000 ms have passed since the last success, the check allows the attempt |
| RateLimit.RunKeepsInv | script.js:311-387 | from any state satisfying the limiter's invariant, a chronological sequence of attempts keeps the successes sorted, ensures that no four consecutive successes are chained by three gaps of 60 000 ms or less, and keeps the counter within 3 |
| RateLimit.RateLimitHolds | script.js:311-387 | from the initial state, over any chronological sequence of attempts: the counter ends within 3, the successful submissions are in time order with no four consecutive ones chained by gaps of 60 000 ms or less, and any two successes at least three places apart (so any four successes) are more than 60 000 ms apart |
| RateLimit.AtMostThreePerWindow | script.js:311-387 | from the initial state, over any chronological sequence of attempts: the successes falling in any window [w, w + 60 000] are at most three |
| RateLimit.SpanOfFour | script.js:366-387 | in sorted success times with no four consecutive ones chained, any two entries three or more places apart differ by more than 60 000 ms |
| RateLimit.WindowSlidesFromLastSuccess | script.js:377-387 | after successes at t, t+30 000 and t+60 000, an attempt at t+60 001 is rate-limited and one at t+120 001 goes through |
| RateLimit.ValidationFailuresDoNotCount | script.js:324-327 | three attempts failing validation followed by three valid ones within a second: all three valid ones are delivered and the counter ends at 3 |
| Contact.ContactForm.constructor | script.js:295-303 | both limiter fields start at 0, the button is enabled, nothing has been sent |
| Contact.ContactForm.CheckRateLimit | script.js:366-375 | the counter drops to 0 exactly when more than 60 000 ms have passed since the last success and is unchanged otherwise; the answer is whether the counter is now below 3; only the counter may change |
| Contact.ContactForm.UpdateRateLimit | script.js:377-387 | the last-submission time becomes now; the counter becomes 1 after a gap over 60 000 ms, otherwise one more |
| Contact.ContactForm.SendEmail | script.js:350-364 | exactly the submitted message is handed to the delivery service, after those sent before |
| Contact.ContactForm.HandleSubmit | script.js:311-348 | the limiter and the outcome follow check, then validation, then delivery, then update on success only; nothing is sent on a rate-limit or validation failure; the button label is restored; the button ends enabled whenever the send was tried; a counter within 3 and an enabled button are kept |
| Contact.FourthQuickSubmissionIsLimited | script.js:311-348 | on a fresh form, a valid message sent four times within a second goes through three times and is rate-limited the fourth time; three messages are sent |
| Theme.InitialTheme | script.js:14 | the initial theme is never empty: it is the stored theme when that is present and non-empty, otherwise "dark" |
| Theme.Toggled | script.js:31 | toggling always yields "light" or "dark" and differs from the current theme; it yields "dark" exactly from "light" |
| Theme.ToggleTwice | script.js:30-33 | toggling twice restores "light" and "dark" and turns any other theme into "dark" |
| Theme.InitialThemePersists | script.js:13-28 | a manager created over the store the previous manager left behind starts with the same theme |
| Theme.StoredThemeRestored | script.js:14 | after a theme is stored, a new manager starts with it, unless it is empty, when it starts with "dark" |
| Theme.ThemeManager.constructor | script.js:13-21 | the manager starts with the initial theme, stores it under "theme" and shows it in the attribute |
| Theme.ThemeManager.SetTheme | script.js:23-28 | the current theme and the attribute become the given theme, the store maps "theme" to it, and no other key changes |
| Theme.ThemeManager.ToggleTheme | script.js:30-33 | the theme becomes the toggled one, shown and stored as setTheme does |
| Theme.ToggleTwiceRestores | script.js:30-33 | toggling a consistent light or dark manager twice restores its theme and leaves the store exactly as it was |
| Navigation.MobileNav.constructor | script.js:57-60 | the menu starts closed |
| Navigation.MobileNav.Toggle | script.js:69-73 | the open flag and the menu's "active" class are both flipped, so if they agreed before they agree after |
| Navigation.MobileNav.Close | script.js:75-79 | the menu ends closed without its "active" class, whatever its state before |
| Navigation.CloseIsIdempotent | script.js:75-79 | closing a second time leaves the menu as the first close left it |
| Navigation.ToggleTwiceRestores | script.js:69-73 | toggling twice restores the open flag and the class |
| Navigation.EscapePressed | script.js:713-719 | the Escape listener removes the menu's "active" class and leaves the open flag unchanged |
| Navigation.EscapeDesynchronisesMenu | script.js:713-719 | opening the menu, pressing Escape, then pressing the hamburger leaves the menu shown while the flag says closed |
| Navigation.CloseOnEscape | script.js:75-79 | Escape handled by `close()` ends with the menu closed and the flag and the class agreeing |
| Navigation.EscapeThenToggleReopens | script.js:69-79 | with Escape handled by `close()`, the same sequence leaves the menu open with the flag and the class agreeing |

## Left out

- DOM presentation is left out: the toast messages (`showMessage` and the
  `show…` helpers), the theme icon (`updateThemeIcon`), the hamburger
  animation, the modal, the navbar styling and the event wiring (`init`,
  `bindEvents`). Which message is shown is the `Outcome` of a submission.
  The wiring only decides when the modelled methods run: a hamburger click
  runs `Toggle`, and a click on a link or outside the menu runs `Close`.
  The one listener that changes modelled state by itself is the page-wide
  Escape handler (script.js:713-719). It is modelled as
  `Navigation.EscapePressed`, and it breaks the agreement between `isOpen`
  and the menu's class (see Findings). The agreement (`MobileNav.Valid`) is
  therefore kept by `toggle` and `close` only, not by the page as a whole.
- The call to the delivery service (`emailjs.send`) is left out, together
  with its service, template and key constants and the mapping to template
  parameters. `SendEmail` records the message, and the send's result is the
  `delivered` parameter.
- `await`/Promise mechanics are left out. The single suspension point in
  `handleSubmit` becomes the `delivered` and `updateNow` parameters.
  Concurrent or re-entrant submissions while a send is pending are not
  modelled.
- `e.preventDefault()`, reading the form into an object and
  `this.form.reset()` are left out. The method takes the form's values
  directly, and the form's own inputs are not modelled.
- The typing animation, `simulateSubmission`, lazy loading, the scroll
  effects and the smooth-scroll polyfill are not part of this model.
- Character handling is simplified:
  - Lowercasing changes ASCII letters only. Unicode case mapping is not
    modelled, nor the case-insensitive flag of the URL and keyword patterns
    beyond the lowercased text.
  - `\s` is the fixed set of ECMAScript whitespace and line-terminator code
    points.
  - Characters outside the Basic Multilingual Plane are one `char` here but
    a surrogate pair in the source, so for such text the length limits and
    the repeat check give different answers from the source.
- The preference store is a map held by one manager. Its behaviour across
  sessions or tabs, and storage errors, are not modelled.
- Navigation.MobileNav.constructor: assumes the page's menu element starts
  without the "active" class. The source does not set that class.
- Contact.ContactForm.constructor: assumes the page's submit button starts
  enabled. The source does not set its disabled flag.

## Findings

| source | as written | input that shows it | evidently intended | confidence | as-written member | corrected member |
|---|---|---|---|---|---|---|
| script.js:713-719 | the Escape listener removes the "active" class from the menu but leaves `MobileNav.isOpen` true | open the menu with the hamburger, press Escape, press the hamburger again: `toggle` sets `isOpen` to false and adds "active" back, so the menu is shown while the hamburger is drawn closed | Escape closes the menu through `MobileNav.close()`, which clears the flag and the class together | medium, not executed | Navigation.EscapeDesynchronisesMenu | Navigation.EscapeThenToggleReopens |
