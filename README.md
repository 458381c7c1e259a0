# Schulhelfer Rittergasse: verified model of the registration widget's logic

The widget (`js/app.js`) lists school-helper events (*Anlässe*) fetched from a
backend, lets a visitor pick one and register for it with name, e-mail and
phone. This project models the parts of that file that are logic rather than
DOM plumbing, and proves what they promise:

- `text.dfy` (`Text`): JavaScript strings as sequences of UTF-16 code units,
  the ECMAScript white-space set shared by `String.prototype.trim` and the
  regular-expression class `\s`, and `trim` itself.
- `validation.dfy` (`Validation`): `validateName` and `validateEmail` with
  their four German messages; the address pattern
  `/^[^\s@]+@[^\s@]+\.[^\s@]+$/` as a reference predicate and a matcher proved
  equal to it.
- `submission.dfy` (`Submission`): the gate in `handleSubmit`: which field gets
  focus when validation fails, and the payload (`anlassId`, `name`, `email`,
  `telefon`) built from the hidden event id and the trimmed name, e-mail and
  phone when it passes.
- `badge.dfy` (`Badge`): the free-slot badge of `createEventCard`: CSS class and
  label chosen by the thresholds 1 and 3.
- `navigation.dfy` (`Navigation`): the key-to-index computation of
  `setupKeyboardNavigation`, with JavaScript's truncating `%`.
- `selection.dfy` (`Selection`): the module-level state (`events`,
  `selectedEvent`) and the cards' `aria-selected` flags as the class
  `EventBoard`, with `loadEvents`, `selectEvent`, the card click/keydown
  handlers and `resetForm`. `Consistent()` is the agreement predicate between the
  selection, the marked cards, the hidden event-id input and the open form:
  `Reset` and a `Select` that finds its id establish it, while `Load` with an
  event selected and a `Select` of an unknown id can break it.
- `wrappers.dfy` (`Wrappers`): `Option`, where `None` is JavaScript's
  `null`/`undefined`.

Form values, event ids and names are sequences of UTF-16 code units, so that
`length` and `trim` mean what they mean in JavaScript: a single character
outside the Basic Multilingual Plane has length 2 and passes the name check.
Messages, CSS classes, key names and badge labels are plain strings.

`loadEvents` (js/app.js:64-68) replaces `events` and re-renders every card
unmarked, but does not clear `selectedEvent`, the hidden event-id input or the
open form. `EventBoard.Load` therefore keeps the selection, and promises
`Consistent()` afterwards only when nothing was selected (as on the reload
after a successful submission, which runs after `resetForm`).

## Model

| member | source | states |
|---|---|---|
| `Text.Trim` | js/app.js:221 | the trimmed value is no longer than the input, has white space at neither end, and is empty exactly when the input is all white space |
| `Text.TrimRemovesOnlyWhitespace` | js/app.js:221 | the input is the trimmed value with a white-space run on each side, and nothing else is removed |
| `Text.TrimIdempotent` | js/app.js:250-252 | trimming an already trimmed value changes nothing |
| `Text.TrimAtLeastTwo` | js/app.js:221-223 | the trimmed value has two or more code units exactly when the input has two non-white-space code units |
| `Validation.ValidateName` | js/app.js:220-225 | "Bitte geben Sie Ihren Namen ein." exactly when the trimmed name is empty, the minimum-length message exactly when it has one code unit, `None` exactly when it has two or more |
| `Validation.NameValidIff` | js/app.js:220-225 | in terms of the raw value: valid exactly when two non-white-space code units occur; the missing-name message exactly when the value is all white space |
| `Validation.IndexOf` | js/app.js:230 | the result is the position of the first `@` (or the length when there is none) |
| `Validation.EmailShapedIff` | js/app.js:230 | the split-at-first-`@` matcher accepts exactly the language of the address pattern (both directions) |
| `Validation.ValidateEmail` | js/app.js:227-232 | the missing-address message exactly when the trimmed value is empty, `None` exactly when the trimmed value matches the pattern, the invalid-address message otherwise |
| `Validation.ValidatorsIgnoreSurroundingWhitespace` | js/app.js:220-232 | both validators give the same answer for a value and for its trimmed form |
| `Validation.ValidEmailShape` | js/app.js:230 | an accepted address has no white space, exactly one `@`, and that `@` is neither first nor last |
| `Submission.HandleSubmit` | js/app.js:239-253 | a payload is sent exactly when both validators pass; otherwise both messages are reported and focus goes to the name field exactly when the name is invalid (so also when both are); the payload holds the hidden event id unchanged and the trimmed name, e-mail and phone |
| `Submission.SentPayloadIsStable` | js/app.js:248-253 | a sent payload's values are trimmed, pass both validators, and submitting them again sends the same payload |
| `Submission.SurroundingWhitespaceIrrelevant` | js/app.js:239-253 | trimming the three text inputs beforehand does not change the outcome |
| `Submission.SendIff` | js/app.js:239-246 | in terms of the raw inputs: sent exactly when the name has two non-white-space code units and the trimmed e-mail matches the pattern |
| `Badge.Decimal` | js/app.js:100 | the number in the label is a non-empty run of decimal digits without a leading zero |
| `Badge.DecimalRoundTrip` | js/app.js:100 | reading the label's digits back gives the free-slot count |
| `Badge.BadgeFor` | js/app.js:97-100 | at most 1 free slot gives `event-badge--last` with "Letzter Platz!"; 2 or 3 give `event-badge--limited` with "Nur n Plätze"; more give `event-badge--available` with "n Plätze frei" |
| `Badge.TierOf` | js/app.js:97-100 | the three tiers split the integers at 1 and 3, each tier exactly its range |
| `Badge.TierMonotone` | js/app.js:97-100 | fewer free slots never give a less urgent tier |
| `Badge.BadgeTiersAgree` | js/app.js:97-100 | the tier named by the CSS class and the tier read off the label are both the count's tier |
| `Navigation.JsRemainder` | js/app.js:183-184 | JavaScript's `%` for a positive divisor: the remainder differs from the dividend by a multiple of the divisor and takes the dividend's sign (Dafny's remainder on non-negative dividends, a value in `(-b, 0]` on negative ones), which fixes it uniquely |
| `Navigation.FocusTarget` | js/app.js:177-189 | no move when no card has focus or for any other key; ArrowDown/ArrowRight go to the next card and wrap from the last to the first, ArrowUp/ArrowLeft to the previous and wrap from the first to the last, Home to 0, End to the last; every result is a valid card index |
| `Navigation.StepsAreInverse` | js/app.js:183-184 | one step down and one step up cancel out, in both orders |
| `Navigation.StepDownIsModular` | js/app.js:183 | pressing ArrowDown `k` times from `idx` lands on `(idx + k) % n` |
| `Navigation.FullCycle` | js/app.js:183 | `n` presses of ArrowDown return to the starting card |
| `Selection.FirstWithId` | js/app.js:154 | the position of the first event with the given id, or the list's length when none has it |
| `Selection.Find` | js/app.js:154 | `None` exactly when no event has the id; otherwise the first event that has it |
| `Selection.SelectionFlags` | js/app.js:157-159 | one flag per event, true exactly for the events with the given id |
| `Selection.OneCardMarked` | js/app.js:154-159 | with distinct ids, selecting marks exactly one card when the id is found and none when it is not |
| `Selection.EventBoard.constructor` | js/app.js:34-35 | the initial state: no events and nothing selected, as at lines 34-35; no cards, the form closed and empty hidden id and name are assumed page defaults (see Left out) |
| `Selection.EventBoard.Load` | js/app.js:64-68 | the list becomes the fetched list, or the empty list when the response has none; one fresh, unmarked card per event; selection and form inputs unchanged |
| `Selection.EventBoard.Select` | js/app.js:153-163 | the selection becomes the first event with the id; if there is none nothing else changes; if there is, exactly the cards with that id are marked, the hidden input holds the id, the name is shown, the form opens, and `Consistent()` holds |
| `Selection.EventBoard.ActivateCard` | js/app.js:142-151 | a click, Enter or Space on card `k` selects the first event with card `k`'s id, marks exactly the cards with that id (card `k` among them), puts the id in the hidden input, shows card `k`'s name and opens the form; other keys change nothing |
| `Selection.EventBoard.Reset` | js/app.js:291-296 | nothing selected, every card unmarked, form closed, events unchanged, `Consistent()` holds |

## Left out

- Network I/O: the `fetch` calls, HTTP status checks, `response.json()`, the backend's `error` member and the POST of the payload, with its success and error messages. The model starts from the `events` member of a successful response and ends at the payload.
- The failure path of `loadEvents`: it only shows an error message and leaves the state as it was.
- DOM rendering: the HTML template of `createEventCard`, `innerHTML`, `hidden` and `aria-*` writes other than the card flags, `scrollIntoView`, `focus`, `announce`, the loading indicator and `setSubmitLoading`.
- `esc`: it depends on the browser's HTML serialisation. Card ids and names are taken to reach the handlers unchanged.
- `setTimeout` scheduling: the delayed scroll and focus after selecting, the reload 2500 ms after a successful submission, and clearing the status message.
- Selection.EventBoard.constructor: assumes the page starts with no rendered cards, the registration form closed and the hidden id and shown name empty; those are defaults of `index.html`, which is not part of this model.
- `form.reset()`'s effect on the inputs depends on their default values in `index.html`, which is not part of this model. `EventBoard.Reset` leaves the modelled inputs as they were.
- `init`'s configuration check, the blur/input wiring of `setupFormValidation`, `validateField`'s display writes (the messages it shows are the `nameError`/`emailError` of `Submission.Blocked`), `cancelRegistration` (which is `resetForm` plus scrolling and focus), and `closeError`.
- JavaScript's loose `==` between an event id and a card's `data-id` is modelled as equality of strings. Ids are strings here, not numbers.
- Badge.BadgeFor: takes the free-slot count as an exact integer. Its labels agree with JavaScript only for counts up to 2^53. Above that, a JavaScript number no longer holds every integer and prints rounded digits padded with zeros, or exponent notation from 10^21 on. Non-integer counts are not modelled either.
- Retry and backoff, form-draft persistence with its one-hour expiry, the client identifier, date parsing and the calendar-file export do not appear in `js/app.js`, so they are not part of this model.
