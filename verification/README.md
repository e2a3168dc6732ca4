# Contact form and project filter of the Asebø Bygg & Betong website, in Dafny

The site's script `js/main.js` does three things with real logic in it, and
this project models each of them as pure functions over small records:

- **the field validator** `validateField`. It trims a control's value and
  then checks three things in order: required and empty, the email pattern
  `^[^\s@]+@[^\s@]+\.[^\s@]+$`, and the Norwegian phone pattern
  `^(\+47)?[\s]?[0-9]{8}$`, applied after all whitespace is removed. Each
  check that fails overwrites the verdict so far. It then marks or clears
  the control's `error` class. The blur/input listeners re-validate a
  control on blur, and on input only when the control is already marked.
- **the contact form's submit handler**. It disables the button and shows
  `Sender...` with the `loading` class. It then builds the request payload
  and awaits the transport. On success it shows the thanks and calls
  `form.reset()`; on failure it shows the apology. In `finally` it restores
  the button. The transport is a parameter (`Delivered | Rejected`), and the
  handler is cut at its `await` into `Begin` and `Complete`.
- **the project filter**. A click on a category button makes it the only
  active button and shows exactly the cards of that category, or all of
  them for `all`.

Modules, in dependency order:

- `Wrappers` holds `Option`.
- `Text` holds JavaScript's `trim` and `replace(/\s/g, '')` over one shared
  whitespace predicate: the ECMAScript WhiteSpace and LineTerminator code
  points.
- `Patterns` holds the two regular expressions, each as a predicate. Each
  is paired with a plain-words characterisation and an equivalence proof.
- `Validator` holds the verdict.
- `Fields` holds a control, `validateField` and the listeners.
- `ContactForm` holds the submit handler.
- `ProjectFilter` holds the filter.

Behaviours of the code worth knowing:

- The handler builds and sends the request without calling
  `validateField`, whatever the fields hold (`RequestBuiltWithoutValidation`).
- Nothing guards against a second submit while one is in flight, other
  than the disabled button. A second run saves the busy label as the
  "original" one (`ReentrantSubmitKeepsBusyLabel`).
- The validator lets each later failing check overwrite the verdict so
  far. A precedence list in which the first failing rule decides gives the
  same verdict, because at most one rule can fail for a given input
  (`OverwriteOrderIrrelevant`).
- `form.reset()` restores values but not the `error` class. A control can
  therefore stay marked after a successful submit although its reset value
  passes (`DeliveredSubmitCanLeaveStaleFlag`).
- If one of the five controls the payload reads without a null check is
  missing, the handler throws after it has disabled the button. The button
  stays busy (`SubmitMissingControlLeavesBusy`).

## Model

| member | source | states |
|---|---|---|
| Text.Trim | js/main.js:216 | the result is the unique slice of the value with only whitespace cut before and after it and no whitespace at either end |
| Text.TrimStart | js/main.js:216 | leading whitespace removed: a suffix, everything cut is whitespace, and the result does not start with whitespace |
| Text.TrimEnd | js/main.js:216 | trailing whitespace removed: a prefix, everything cut is whitespace, and the result does not end with whitespace |
| Text.TrimStartThenEnd | js/main.js:216 | cutting the leading, then the trailing whitespace gives a trim of the value |
| Text.TrimUnique | js/main.js:216 | there is only one trim of a value |
| Text.TrimEmptyIff | js/main.js:216 | a value trims to the empty string exactly when it is all whitespace |
| Text.TrimIdempotent | js/main.js:216 | trimming a trimmed value changes nothing |
| Text.TrimNoop | js/main.js:216 | a non-empty value that neither starts nor ends with whitespace is its own trim |
| Text.TrimBounds | js/main.js:216 | a value is whitespace, then its trim, then whitespace |
| Text.RemoveWhitespace | js/main.js:238 | the cleaned phone value holds no whitespace, is no longer than the value, and keeps every other character with its multiplicity |
| Text.RemoveWhitespaceConcat | js/main.js:238 | stripping distributes over concatenation, so kept characters keep their order |
| Text.RemoveWhitespaceNoop | js/main.js:238 | a value without whitespace is left as it is |
| Text.RemoveWhitespaceJoins | js/main.js:238 | a space between two runs is dropped and the runs are joined |
| Text.RemoveWhitespaceEmptyIff | js/main.js:238 | stripping leaves nothing exactly when the value is all whitespace |
| Text.RemoveWhitespaceOfBlank | js/main.js:238 | an all-whitespace value strips to nothing |
| Text.RemoveWhitespaceOfTrim | js/main.js:216-238 | stripping the trimmed value gives what stripping the raw value gives |
| Text.RemoveWhitespaceIdempotent | js/main.js:238 | stripping twice is stripping once |
| Patterns.EmailPatternIffShape | js/main.js:228-229 | the email regex matches exactly the values without whitespace that hold one `@` with something before it, followed by a `.` that has a character on each side within the domain |
| Patterns.PhonePatternOnStripped | js/main.js:237-239 | on a value with its whitespace removed, the phone regex accepts exactly eight ASCII digits, optionally after `+47` |
| Patterns.PhonePatternAdmitsSpace | js/main.js:237 | the regex alone would accept `+47 12345678`, which is not eight digits after `+47`; only stripping makes the optional `[\s]` irrelevant |
| Patterns.PhonePatternExamples | js/main.js:237 | `12345678` and `+4712345678` match the phone regex |
| Patterns.EmailExampleValid | js/main.js:228 | `a@b.co` matches the email regex |
| Patterns.EmailExamplesInvalid | js/main.js:228 | `a@b` (no dot in the domain) and `abc` (no `@`) do not match |
| Patterns.EmailExamplesRefused | js/main.js:228 | a value with whitespace and one with two `@` do not match |
| Validator.Validate | js/main.js:215-243 | the verdict is valid exactly when its message is empty, and otherwise carries one of the three messages |
| Validator.RequiredEmpty | js/main.js:216-243 | a required field whose value trims to nothing fails with the required-field message, whatever its type |
| Validator.OptionalEmpty | js/main.js:216-243 | an optional field whose value trims to nothing passes with an empty message, whatever its type |
| Validator.EmailRule | js/main.js:227-233 | a non-empty email value passes exactly when its trim has the shape of an email address, and otherwise fails with the email message, required or not |
| Validator.PhoneRule | js/main.js:236-243 | a non-empty tel value passes exactly when its trim, stripped of whitespace, is eight digits optionally after `+47`, and otherwise fails with the phone message |
| Validator.PhoneIgnoresWhitespace | js/main.js:236-243 | a tel value and the same value with all whitespace removed get the same verdict |
| Validator.OtherRule | js/main.js:215-243 | any non-empty value of another type passes |
| Validator.DependsOnTrimmedValue | js/main.js:216-243 | two values with the same trim get the same verdict |
| Validator.TrimmedValueSameVerdict | js/main.js:216-243 | validating the trimmed value gives the same verdict as validating the raw one |
| Validator.OverwriteOrderIrrelevant | js/main.js:220-243 | letting each later failing check overwrite gives the same verdict as letting the first failing rule decide |
| Validator.EmailFieldAccepts | js/main.js:227-233 | `a@b.co` passes a required email field |
| Validator.EmailFieldRejects | js/main.js:227-233 | `a@b` fails a required email field with the email message |
| Validator.PhoneFieldAcceptsPlain | js/main.js:236-243 | `12345678` passes a required tel field |
| Validator.PhoneFieldAcceptsPrefixed | js/main.js:236-243 | `+4712345678` passes a required tel field |
| Validator.PhoneFieldAcceptsGrouped | js/main.js:236-243 | `+47 12 34 56 78` passes a required tel field |
| Validator.PhoneFieldRejectsShort | js/main.js:236-243 | seven digits fail with the phone message |
| Validator.PhoneFieldRejectsLetters | js/main.js:236-243 | eight letters fail with the phone message |
| Fields.ValidateField | js/main.js:215-255 | the return value is the verdict's validity, the `error` class is set exactly when it is false, and nothing else about the control changes |
| Fields.ValidateFieldIdempotent | js/main.js:215-255 | re-validating a validated control gives the same control and the same answer |
| Fields.BlurSyncsFlag | js/main.js:162-164 | after a blur the control is marked exactly when its value fails, and its value is unchanged |
| Fields.InputNeverMarksUnflagged | js/main.js:166-170 | an input event on an unmarked control only stores the new value |
| Fields.InputRevalidatesFlagged | js/main.js:166-170 | an input event on a marked control re-validates at once, so the mark stays exactly while the new value fails |
| Fields.EventKeepsFlagCurrent | js/main.js:160-171 | no event leaves a marked control holding a passing value |
| Fields.RunChangesOnlyValueAndFlag | js/main.js:160-171 | any sequence of events changes only a control's value and mark |
| Fields.RunKeepsFlagCurrent | js/main.js:160-171 | from an unmarked or correctly marked control, any sequence of blur and input events keeps the mark correct |
| Fields.TypingNeverMarks | js/main.js:166-170 | input events alone never mark an unmarked control |
| ContactForm.Find | js/main.js:123-129 | `querySelector('#id')` gives the first control in document order with that id, and nothing exactly when no control has it |
| ContactForm.ResetControls | js/main.js:143 | `form.reset()` puts every control back to its default value and checked state and changes nothing else, the `error` class included |
| ContactForm.Begin | js/main.js:109-135 | without a button nothing changes; otherwise the button is disabled, busy and loading, the original label is saved, and the request goes out exactly when the payload can be built, and it is the payload built from the controls |
| ContactForm.Complete | js/main.js:133-156 | the button comes back enabled with the saved label and without `loading`; delivery shows the thanks and resets the controls; rejection shows the apology and leaves the controls; without a message box nothing is shown |
| ContactForm.RequestBuiltWithoutValidation | js/main.js:122-131 | a payload is built exactly when the five controls it reads without a null check exist, whatever their values |
| ContactForm.RequestFields | js/main.js:122-131 | the payload carries the controls' values untrimmed, `''` for a missing address, `false` for a missing site-visit box, and the given timestamp |
| ContactForm.SubmitRestoresButton | js/main.js:112-156 | whichever way the transport ends, the button ends enabled, with its original label and without `loading` |
| ContactForm.SubmitDelivered | js/main.js:133-143 | on delivery the built request is sent, the thanks is shown and every control goes back to its default |
| ContactForm.SubmitRejected | js/main.js:145-150 | on rejection the built request is sent, the apology is shown and the controls keep what the user typed |
| ContactForm.SubmitWithoutButton | js/main.js:112-113 | without a submit button the handler changes nothing and sends nothing |
| ContactForm.SubmitMissingControlLeavesBusy | js/main.js:116-128 | with a payload control missing, nothing is sent and the button stays disabled, busy and loading |
| ContactForm.InFlightButtonBusy | js/main.js:116-119 | while the request is in flight the button is disabled, shows `Sender...` and carries `loading` |
| ContactForm.ReentrantSubmitKeepsBusyLabel | js/main.js:112-156 | a second submit during the first sends again, saving `Sender...` as the original label, and if it finishes last the button keeps that label |
| ContactForm.ResetIdempotent | js/main.js:143 | resetting twice is resetting once |
| ContactForm.HandleFieldEvent | js/main.js:160-171 | an event on one control applies the listener to that control and leaves every other control and the rest of the page alone |
| ContactForm.FieldEventKeepsFlagsCurrent | js/main.js:160-171 | field events keep every mark on the page correct |
| ContactForm.RejectedSubmitKeepsFlagsCurrent | js/main.js:145-156 | a rejected submit keeps every mark on the page correct |
| ContactForm.DeliveredSubmitKeepsMarks | js/main.js:143 | after a delivered submit every control holds its default value and keeps its mark |
| ContactForm.DeliveredSubmitCanLeaveStaleFlag | js/main.js:133-143 | once the transport delivers, a marked control whose default value passes is left marked although its reset value passes |
| ProjectFilter.MarkActive | js/main.js:271-272 | exactly the clicked button carries `active`, and categories are unchanged |
| ProjectFilter.FilterCards | js/main.js:275-291 | a card is shown exactly when the category is `all` or equals the card's category, and categories are unchanged |
| ProjectFilter.Click | js/main.js:264-293 | with no cards a click changes nothing; otherwise exactly the clicked button is active and exactly the matching cards are shown |
| ProjectFilter.ExactlyClickedActive | js/main.js:271-272 | after a click the set of active buttons is exactly the clicked one |
| ProjectFilter.ShownAreThoseOfCategory | js/main.js:275-291 | the shown cards are exactly those of the clicked category, and every card for `all` |
| ProjectFilter.LastClickWins | js/main.js:266-293 | once the first click's transitions have run, what the page shows after two clicks depends only on the second |
| ProjectFilter.ClickIdempotent | js/main.js:266-293 | clicking the same button again changes nothing |
| ProjectFilter.SameCategorySameCards | js/main.js:275-291 | two buttons of the same category show the same cards |

## Left out

- Everything in `js/main.js` outside the three parts above is not part of this model. That covers the mobile menu, the header scroll class, anchor smoothing, the scroll animations and the analytics listeners. It is DOM and animation glue with no decision in it.
- Timers are collapsed to the states they lead to. The 1500 ms transport delay, the 50/300 ms card transitions and the 10 s auto-hide of the success message are not modelled.
- Complete: a shown notice stays displayed. The source hides the success message 10 s later, without checking whether a newer message has replaced it meanwhile.
- ProjectFilter.Click: a card's final display is modelled, not its opacity and transform. Neither are the timeouts of an earlier click that can still fire after a later one.
- The transport `simulateFormSubmission` and its `Math.random` are replaced by the `TransportOutcome` parameter. The clock's `timestamp` is an opaque input.
- `scrollIntoView`, `console.error` and `console.log` are side effects with no state of the page in them.
- Fields.ValidateField: the red `borderColor` is set and cleared together with the `error` class, so it is not modelled separately.
- The message that `validateField` computes is modelled in `Verdict`, though the source never displays it.
- The browser's own constraint validation is not modelled. It can stop a submit event before the handler sees it, so the model starts from a submit event that has reached the handler.
- Strings are sequences of Unicode scalar values, while JavaScript strings are UTF-16 code units. No verdict changes: every whitespace code point is a single unit, and so are `@`, `.`, `+` and the digits. Lone surrogates have no counterpart in the model.
