# Publisher application form: submission logic

This project models the submit handler of the adChain Registry's publisher
application form (`PublisherApplicationForm.onFormSubmit`). A publisher fills in
a domain, some contact details, an e-mail address and the number of ADT tokens
to stake. The handler then does the following:

1. It reads the stake with `parseInt(text.replace(/[^\d]/, ''), 10)`.
2. It coerces the minimum deposit it holds with `| 0`.
3. It checks the domain, then the e-mail address if one was given, then the
   stake against the minimum deposit. It stops at the first failure and shows
   that failure's message.
4. It sets the in-progress flag and asks the registry to `apply`.
5. If the registry fails, it shows the error and clears the flag. Otherwise it
   saves, clears the flag and opens `/domains`.

Modules:

- `JsText` (js_text.dfy): models JavaScript strings as UTF-16 code units. The
  regular expression has no `u` flag, so it works on code units. The module
  also holds the character classes the handler depends on: ASCII digits and
  ECMAScript's StrWhiteSpaceChar.
- `StakeParsing` (stake_parsing.dfy): the stake field's parsing.
  - `RemoveFirstNonDigit` deletes only the first non-digit, because the pattern
    has no `g` flag.
  - `ParseInt` is `parseInt(…, 10)`: skip leading white space, take one
    optional sign, read the leading decimal digits. `None` stands for NaN.
  - `DecimalString` is the reference definition the parser is proved against.
- `StakeExamples` (stake_examples.dfy): worked instances, such as
  "1,500,000" → 1500, "1.5" → 15 and "$1,500" → 1.
- `ApplicationValidation` (validation.dfy): the `| 0` coercion (ECMAScript
  ToInt32 on integers, with the placeholder `'-'` giving 0), JavaScript
  truthiness of the parsed stake, and the three ordered checks as `Validate`.
- `ValidationExamples` (validation_examples.dfy): worked instances of the
  checks on typed stakes, such as "1,500,000" against a minimum of 2000.
- `ApplicationForm` (application_form.dfy): the component as a class.
  - The class holds the `minDeposit` state, the `inProgress` flag and a ghost
    log of the effects the handler causes: notifications, flag changes, the
    registry call, the save and the navigation.
  - `Valid()` ties the flag to the last flag change in the log.
  - `SubmitEffects` is the specification function that the handler's log is
    proved against.

These external pieces are parameters:

- The two validation libraries (`is-valid-domain`, `is-valid-email`) are the
  function parameters `isValidDomain` and `isValidEmail`.
- How the registry's `apply` call settles is the `ApplyResult` parameter.
- The registry's answer for `minDeposit` is the argument of
  `MinDepositLoaded`.

Points of the code's behaviour worth knowing:

- Before the registry answers, the code checks against `'-' | 0`, which is 0,
  so any positive stake passes the deposit check at that point.
- The code only requires the parsed stake to be non-zero and at least the
  coerced minimum; it does not require it to be positive. A negative stake,
  such as "x-5" read as -5, passes when it is at or above a negative coerced
  minimum. A loaded minimum coerces to a negative number exactly when its
  residue modulo 2^32 lies in [2^31, 2^32): for example a minimum in
  [-2^31, 0), which is kept, or one in [2^31, 2^32), which wraps.
- Which domains are acceptable is decided entirely by the `is-valid-domain`
  library; the code adds no rule of its own, and the model keeps the library
  as a parameter.

## Model

| member | source | states |
|---|---|---|
| JsText.Utf16 | src/components/PublisherApplicationForm.js:156-162 | Field text becomes a JavaScript string of UTF-16 code units: one or two units per character. |
| JsText.Utf16OfBasicPlane | src/components/PublisherApplicationForm.js:156-162 | Text whose characters are all below U+10000 becomes one code unit per character, with the same values. |
| JsText.DigitOrSignNotWhiteSpace | src/components/PublisherApplicationForm.js:162 | No ASCII digit and no '+' or '-' is among the StrWhiteSpaceChar units that `parseInt` skips. |
| StakeParsing.FirstNonDigit | src/components/PublisherApplicationForm.js:162 | The index where `/[^\d]/` first matches: every unit before it is an ASCII digit, and the unit at it is not. It is the length of the text if there is no match. |
| StakeParsing.RemoveFirstNonDigit | src/components/PublisherApplicationForm.js:162 | `replace` without the `g` flag deletes exactly one unit, the first non-digit, and keeps every other unit in order. All-digit text is unchanged. |
| StakeParsing.TrimStart | src/components/PublisherApplicationForm.js:162 | `parseInt` drops exactly the leading StrWhiteSpaceChar units: every dropped unit is white space, and what is left is empty or starts with a non-white-space unit. |
| StakeParsing.TrimStartIsSuffix | src/components/PublisherApplicationForm.js:162 | What `parseInt` reads after the white space is a suffix of the text. |
| StakeParsing.DigitsValue | src/components/PublisherApplicationForm.js:162 | The value of n decimal digits is a natural number below 10^n. |
| StakeParsing.DecimalString | src/components/PublisherApplicationForm.js:162 | Reference definition: the canonical digits of a number are non-empty, all ASCII digits, and have a leading '0' exactly when the number is 0. |
| StakeParsing.DecimalRoundTrip | src/components/PublisherApplicationForm.js:162 | Reading the canonical digits of n gives back n. |
| StakeParsing.ParseInt | src/components/PublisherApplicationForm.js:162 | `parseInt(…, 10)` as white-space trimming, one optional sign and the leading digit run. What it returns is stated by `ParseIntReadsDigits` and `ParseIntDefinedIff`. |
| StakeParsing.ParseStake | src/components/PublisherApplicationForm.js:162 | The whole stake expression: `parseInt` of the text with its first non-digit removed. What it returns is stated by `ParseStakeDropsOneSeparator`, `ParseStakeOfDecimal` and `ParseStakeWithoutDigits`. |
| StakeParsing.ParseIntReadsDigits | src/components/PublisherApplicationForm.js:162 | `parseInt` of white space, an optional sign, a digit run and a non-digit remainder gives the digit run's value, negated after '-'. |
| StakeParsing.ParseIntDefinedIff | src/components/PublisherApplicationForm.js:162 | `parseInt` gives a number exactly when a digit follows white space and at most one sign. Otherwise it gives NaN. |
| StakeParsing.ParseStakeOfDecimal | src/components/PublisherApplicationForm.js:162 | A stake typed as plain canonical digits is read as exactly that number. |
| StakeParsing.ParseStakeDropsOneSeparator | src/components/PublisherApplicationForm.js:162 | With one non-digit between two digit runs, the stake is the value of the two runs joined. A second non-digit ends the number. |
| StakeParsing.ParseStakeWithoutDigits | src/components/PublisherApplicationForm.js:162 | Text with no ASCII digit is read as NaN. |
| StakeExamples.PlainDigits | src/components/PublisherApplicationForm.js:162 | "1500" is read as 1500. |
| StakeExamples.OneThousandsSeparator | src/components/PublisherApplicationForm.js:162 | "1,500" is read as 1500. |
| StakeExamples.TwoThousandsSeparators | src/components/PublisherApplicationForm.js:162 | "1,500,000" is read as 1500. |
| StakeExamples.DecimalPoint | src/components/PublisherApplicationForm.js:162 | "1.5" is read as 15. |
| StakeExamples.InnerSpace | src/components/PublisherApplicationForm.js:162 | "12 34" is read as 1234. |
| StakeExamples.CurrencySign | src/components/PublisherApplicationForm.js:162 | "$1,500" is read as 1, because the '$' uses up the one removal. |
| StakeExamples.LetterBeforeMinus | src/components/PublisherApplicationForm.js:162 | "x-5" is read as -5: the 'x' uses up the one removal and the minus sign stays. |
| StakeExamples.EmptyField | src/components/PublisherApplicationForm.js:162 | "" is read as NaN. |
| StakeExamples.Letters | src/components/PublisherApplicationForm.js:162 | "abc" is read as NaN. |
| ApplicationValidation.ToInt32 | src/components/PublisherApplicationForm.js:163 | `x \| 0` on an integer is the unique value in [-2^31, 2^31) congruent to x modulo 2^32. |
| ApplicationValidation.CoerceMinDeposit | src/components/PublisherApplicationForm.js:163 | The unloaded placeholder `'-'` (line 20) coerces to 0. A loaded 32-bit value is kept. Any loaded integer is reduced modulo 2^32 into the signed 32-bit range. |
| ApplicationValidation.Validate | src/components/PublisherApplicationForm.js:162-178 | Exactly one outcome. InvalidDomain iff the domain check fails. InvalidEmail iff the domain passes and a non-empty e-mail fails its check. Proceed iff both pass and the parsed stake is neither NaN nor 0 and is at least the minimum. Proceed carries that parsed stake. |
| ApplicationValidation.IsTruthy | src/components/PublisherApplicationForm.js:175 | The truthiness of `stake` in `stake && …`: NaN and 0 are false. `Validate` and `FalsyStakeRefused` state its effect on the outcome. |
| ApplicationValidation.FailureMessage | src/components/PublisherApplicationForm.js:165-178 | The message shown for each failed check ("Invalid domain", "Invalid email", "Deposit must be equal or greater than the minimum required"), never empty. |
| ApplicationValidation.FailureMessagesDistinct | src/components/PublisherApplicationForm.js:165-178 | Two failed checks show the same message exactly when they are the same check. |
| ApplicationValidation.DomainCheckedFirst | src/components/PublisherApplicationForm.js:165-168 | An invalid domain gives "Invalid domain" whatever the e-mail, the stake and the minimum are. |
| ApplicationValidation.EmptyEmailNotChecked | src/components/PublisherApplicationForm.js:170-173 | An empty e-mail field never reaches the e-mail check: the outcome is independent of it and never InvalidEmail. |
| ApplicationValidation.FalsyStakeRefused | src/components/PublisherApplicationForm.js:175-178 | A stake read as 0 or NaN is refused after the other checks pass, whatever the minimum is, including 0 and below. |
| ApplicationValidation.UnloadedMinimumAcceptsPositiveStake | src/components/PublisherApplicationForm.js:163 | Before the minimum deposit has loaded (placeholder '-', line 20), any positive parsed stake passes the deposit check. |
| ApplicationValidation.WideMinimumWraps | src/components/PublisherApplicationForm.js:163 | A loaded minimum in [2^31, 2^32) becomes negative under `\| 0`. |
| ApplicationValidation.CoercedMinimumNegativeIff | src/components/PublisherApplicationForm.js:163 | `minDeposit \| 0` is negative exactly when the loaded minimum's residue modulo 2^32 is 2^31 or more. |
| ValidationExamples.SecondSeparatorUnderstatesStake | src/components/PublisherApplicationForm.js:162-178 | "1,500,000" is refused against a minimum of 2000 and accepted as 1500 against a minimum of 1000. |
| ValidationExamples.NegativeStakeAgainstWrappedMinimum | src/components/PublisherApplicationForm.js:162-178 | Loaded minimums 2^32-16 and 2^32-1 coerce to -16 and -1. "x-5" passes as -5 against the first and is refused against the second. |
| ApplicationForm.ApplyEffects | src/components/PublisherApplicationForm.js:180-209 | Specification of the effects after the checks pass: flag set, `apply`; then error toast and flag cleared, or save, "Submitted", flag cleared and navigation. `FailedApplyStops`, `SuccessfulApplyOrder` and `ApplyAskedOnce` state its properties. |
| ApplicationForm.SubmitEffects | src/components/PublisherApplicationForm.js:151-210 | Specification of one submission's effects: one error toast on a failed check, otherwise `ApplyEffects` with the parsed stake. `FailedCheckOnlyNotifies` and `ApplyGetsCheckedValues` state its properties. |
| ApplicationForm.InProgressAfterAppend | src/components/PublisherApplicationForm.js:180-207 | Replaying the flag changes of two logs in sequence is replaying their concatenation. The flag invariant `Valid()` rests on this. |
| ApplicationForm.FailedCheckOnlyNotifies | src/components/PublisherApplicationForm.js:165-178 | A failed check shows its one message and does nothing else: no flag change, no registry call, no save, no navigation. |
| ApplicationForm.FailedApplyStops | src/components/PublisherApplicationForm.js:184-193 | When `apply` fails, its message is shown, the flag ends false, and neither `save` nor navigation happens. |
| ApplicationForm.SuccessfulApplyOrder | src/components/PublisherApplicationForm.js:180-209 | When `apply` succeeds, the order is: flag set true, then `apply`, then `save`, then flag set false, then navigation to `/domains`. The flag ends false. |
| ApplicationForm.ApplyAskedOnce | src/components/PublisherApplicationForm.js:185 | After the checks pass, the registry is asked exactly once, for the form's domain with the checked stake. |
| ApplicationForm.ApplyGetsCheckedValues | src/components/PublisherApplicationForm.js:165-185 | Any registry call made by a submission comes after every check passed. It carries exactly the form's domain, which passed the domain check, and the parsed stake, which is non-zero and at least the minimum. |
| ApplicationForm.PublisherApplicationForm.constructor | src/components/PublisherApplicationForm.js:14-28 | The component starts with the `'-'` placeholder as its minimum deposit, the flag false and no effects. |
| ApplicationForm.PublisherApplicationForm.MinDepositLoaded | src/components/PublisherApplicationForm.js:30-34 | Storing the registry's answer replaces the placeholder and changes nothing else. |
| ApplicationForm.PublisherApplicationForm.SetInProgress | src/components/PublisherApplicationForm.js:180-182 | `setState({inProgress})` sets the flag and records the change, which keeps the flag invariant. |
| ApplicationForm.PublisherApplicationForm.Emit | src/components/PublisherApplicationForm.js:165-209 | A `toastr` notification, the `registry.apply` call, `save` or `history.push` is appended to the log as one effect; the flag and its invariant are unchanged. |
| ApplicationForm.PublisherApplicationForm.Save | src/components/PublisherApplicationForm.js:213-216 | `save` stores nothing. It only shows "Submitted". |
| ApplicationForm.PublisherApplicationForm.ApplyAndSave | src/components/PublisherApplicationForm.js:180-209 | After the checks, the log grows by exactly `ApplyEffects`, the flag ends false, and the result says whether `apply` failed. |
| ApplicationForm.PublisherApplicationForm.OnFormSubmit | src/components/PublisherApplicationForm.js:151-210 | The log grows by exactly `SubmitEffects` of the form, the coerced minimum and the registry's answer. On a failed check the flag is untouched; otherwise it ends false. The result names the failed check, the registry error, or success. The minimum deposit is unchanged. |

## Left out

- Rendering, markup, CSS and `commafy` (src/components/PublisherApplicationForm.js:36-149) and src/index.js: these are view code with no logic to state.
- Prefilling the domain from the query string (src/components/PublisherApplicationForm.js:17-21): this is browser I/O. The constructor leaves the domain field out.
- The call to `registry.getParameter('minDeposit')`: src/services/registry is not part of this model. Only its answer is modelled, as the argument of `MinDepositLoaded`.
- The internals of `is-valid-domain` and `is-valid-email`: they are foreign libraries. They are arbitrary function parameters.
- `event.preventDefault()` and `console.error(error)`: these are browser and debugging side effects with no bearing on the outcome. `toastr` notifications appear only as `Toast` entries in the log.
- Interleaving: `setState` may apply its update later, and a second submission can start while the registry call is pending. The model runs each submission to completion, and the flag changes immediately.
- `StakeParsing.ParseInt` and `ApplicationValidation.Validate`: stakes are unbounded integers, because the model does not follow `parseInt`'s IEEE double result. It does not capture precision loss beyond 2^53, Infinity for very long digit runs, or negative zero (which, like zero, is refused).
- `ApplicationValidation.CoerceMinDeposit`: a loaded minimum deposit is an integer. A fractional or non-numeric answer from the registry, which `| 0` would truncate or turn into 0, is not modelled.
- src/components/single_domain/DomainPendingContainer.js: its `updateStatus` only forwards to the registry service and publishes an event. The registry's stage machine, commit/reveal voting and tally live in src/services/registry, which is not part of this model.
