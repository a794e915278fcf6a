# Form controller validation, modelled in Dafny

This project models the validation handler of a Stimulus form controller
(`app/javascript/controllers/form_controller.js`). When `onChange` is invoked
for a tracked field, the controller validates that field. If the field fails,
it shows an error and disables the submit button. If the field passes, it re-validates the tracked
fields in order, stopping at the first that fails, and enables the submit
button only if none fails.

The DOM is abstracted away:

- A `Field` keeps what validation reads: `required`, whether the type is
  `email`, the value, and the browser's `validity.valid` as an opaque boolean.
- A `Field` also keeps what validation writes: the number of `.form__error`
  elements among its parent node's descendants, and whether it has the
  `input--error` class.
- A `Form` is the list of tracked fields plus the submit button's `disabled`
  flag.

Files:

- `email.dfy`, module `EmailPattern`. This is `validEmail`. It runs the
  anchored regular expression `^[^\s@]+@[^\s@]+\.[^\s@]+$` as a deterministic
  automaton over the string. `\s` is JavaScript's whitespace class: the
  ECMAScript WhiteSpace and LineTerminator code points. The automaton is proved
  equal to two ghost readings:
  - a structural one: `local "@" domain`, where both parts are non-empty and free
    of whitespace and `@`, and the domain has a `.` at neither end;
  - a piece-by-piece transcription of the expression.
- `form.dfy`, module `FormController`. This holds the datatypes and the
  operations:
  - `showErrorMessage` and `removeErrorMessage` become counter and flag
    updates;
  - `disableSubmitButton` and `enableSubmitButton` set the flag;
  - `CheckField` and `ValidField` model `validField`;
  - `Every` models `Array.from(formFields).every(validField)`;
  - `OnChange` models `onChange`.
- `form_properties.dfy`, modules `FormProperties` and `EmailScenario`. These
  hold the lemmas about single validations, repeated validations and
  `onChange`, plus a worked example.

The model follows the code in three places where a reader might expect
something else:

- One might expect at most one error div per field. Instead,
  `showErrorMessage` appends on every failed validation, and
  `removeErrorMessage` removes only the first div. `ErrorsPileUp` states this
  behaviour.
- One might expect the submit button to stay in its prior state when another
  field is still invalid. It does not. The pass over all fields reaches that
  first invalid field, and `validField` disables the button. After
  `onChange`, the button is disabled exactly when some field fails (`OnChange`, `OnChangeGatesSubmit`).
- One might expect the changed field to be validated once per change. A
  passing changed field is validated twice: once on its own, and once inside
  the pass over all fields, if it comes before the first failing field. One
  change can therefore remove two of its error divs (`OnChangeClearsTargetTwice`).

## Model

| member | source | states |
|---|---|---|
| EmailPattern.ValidEmailIsAddress | app/javascript/controllers/form_controller.js:35-37 | `validEmail(s)` holds iff `s` is `local "@" domain`, with both parts non-empty and free of whitespace and `@`, and with a `.` in the domain that is neither its first nor its last character |
| EmailPattern.AddressIsRegex | app/javascript/controllers/form_controller.js:36 | the structural reading and the piece-by-piece reading of the expression (`[^\s@]+` `@` `[^\s@]+` `\.` `[^\s@]+`) accept the same strings |
| EmailPattern.ValidEmailMatchesRegex | app/javascript/controllers/form_controller.js:35-37 | the automaton accepts exactly the strings the anchored expression matches |
| EmailPattern.ScanClassifies | app/javascript/controllers/form_controller.js:36 | after any prefix, the automaton is in the phase that the prefix's shape dictates: no `@` yet, just after the `@`, in the domain before a usable dot, or matched |
| FormController.CheckField | app/javascript/controllers/form_controller.js:40-75 | a field passes iff it is optional, or it is platform-valid and (for email fields) matches the pattern. Validation never changes the field's inputs. An optional field is returned unchanged. A failing required field gains exactly one error div and the error class. A passing required field loses one div (if any) and the class |
| FormController.ValidField | app/javascript/controllers/form_controller.js:40-57 | validating field `i` changes only field `i`. The button ends up disabled iff the field fails or the button already was disabled |
| FormController.Every | app/javascript/controllers/form_controller.js:81-83 | the pass succeeds iff no field from `k` on fails. It validates exactly the fields from `k` up to and including the first failing one. Later fields are untouched. It disables the button iff it stops at a failing field |
| FormController.OnChange | app/javascript/controllers/form_controller.js:77-88 | after a change on field `t`, the button is disabled iff some field fails. Field `j` has been validated exactly `Visits(t, j)` times: once if it is the target, plus once if the target passed and `j` is at or before the first failing field |
| FormProperties.OptionalFieldAlwaysValid | app/javascript/controllers/form_controller.js:41 | an optional field passes for every value, and the form (button, error count, error class) is left exactly as it was |
| FormProperties.BadEmailRejected | app/javascript/controllers/form_controller.js:43-46 | a required email field whose value fails the pattern is rejected. The button becomes disabled, the error count rises by exactly one, and the error class is set |
| FormProperties.PlatformVerdictDecides | app/javascript/controllers/form_controller.js:43-53 | a required field that is not email, or whose value matches the pattern, passes iff the browser calls it valid. A matching email is rejected, and the button disabled, when the browser says invalid |
| FormProperties.PassingFieldClearsOne | app/javascript/controllers/form_controller.js:55-75 | a passing required field loses one error div (stays at zero if none), loses the error class, and leaves the button as it was |
| FormProperties.ErrorsPileUp | app/javascript/controllers/form_controller.js:59-65 | `n` failed validations of a required field add exactly `n` error divs. Nothing deduplicates them |
| FormProperties.ErrorsDrain | app/javascript/controllers/form_controller.js:68-75 | `n` passing validations of a required field remove `min(n, count)` error divs and clear the class |
| FormProperties.OptionalFieldUntouched | app/javascript/controllers/form_controller.js:41 | any number of validations leave an optional field unchanged |
| FormProperties.RevalidationNoOp | app/javascript/controllers/form_controller.js:40-75 | validation leaves a field unchanged iff the field passes and, if required, shows no error div or class |
| FormProperties.ShowThenRemove | app/javascript/controllers/form_controller.js:59-75 | showing and then removing an error restores the error count and leaves the class cleared |
| FormProperties.OnChangeFailingTarget | app/javascript/controllers/form_controller.js:77-79 | when the changed field fails, the button ends disabled, that field gains one error div and the class, and no other field is touched |
| FormProperties.OnChangeGatesSubmit | app/javascript/controllers/form_controller.js:81-87 | the button ends enabled iff the changed field and every field pass. A disabled button is never enabled while some field fails |
| FormProperties.OnChangeShortCircuits | app/javascript/controllers/form_controller.js:81-83 | when the changed field passes, the first failing field gains one error div. Every later field other than the changed one keeps its error display |
| FormProperties.OnChangeClearsTargetTwice | app/javascript/controllers/form_controller.js:77-83 | a passing required changed field that precedes the first failing field loses up to two error divs, and its class, in one change |
| FormProperties.OnChangeAllPass | app/javascript/controllers/form_controller.js:81-87 | when every field passes, the button ends enabled and every required field has lost its error class |
| EmailScenario.MissingDotRejected | app/javascript/controllers/form_controller.js:36 | "bob@example" does not match the pattern |
| EmailScenario.DottedDomainAccepted | app/javascript/controllers/form_controller.js:36 | "bob@example.com" matches the pattern |
| EmailScenario.CorrectedAddressEnablesSubmit | app/javascript/controllers/form_controller.js:77-88 | on a one-field form, "bob@example" disables the button and shows one error. After the value is corrected to "bob@example.com", the next change removes the error and enables the button |

## Left out

- Controller lifecycle: `connect`, the `form` target and the `querySelectorAll`/`querySelector` lookups (lines 7-19). The field list and the button flag are given state.
- Listener wiring in `attachChangeListeners` (lines 21-25). `addEventListener('change blur', …)` registers one event type whose name is literally "change blur". No browser fires that event, so the listener registered at line 23 never fires, and this file gives `onChange` no other caller. The model studies the handler as if it were called: `OnChange` takes the index of the changed field, which must be one of the tracked fields.
- HTML constraint validation (`validity.valid`). The browser computes it, so it is an opaque boolean input that validation never changes.
- Error element contents: `document.createElement`, `innerText`, `dataset.errorMessage` and `classList`. Only the number of error divs and the error-class flag are modelled.
- Shared parent nodes. Each field's error divs are counted in its own parent. If two tracked fields shared a parent, `removeErrorMessage` could remove another field's div, and the model does not cover that.
- String encoding. Strings are sequences of Unicode scalar values, not UTF-16 code units. Without the `u` flag the expression sees an astral character as two code units, but both units fall in `[^\s@]`, so the outcome is the same. Lone surrogates cannot be represented.
- The unused `lodash/debounce` import (line 2).
