/**
 The form controller with the DOM abstracted away.

 A tracked input is a `Field`: the parts validation reads (`required`, whether
 its type is `email`, its value, and the browser's own `validity.valid`) and
 the parts it writes (how many `.form__error` elements sit among its parent
 node's descendants, and whether it carries the `input--error` class). The
 controller's state is the list of tracked fields plus the submit button's
 `disabled` flag.
 */
module FormController {
  import opened EmailPattern

  datatype Field = Field(
    required: bool,
    isEmail: bool,        // the input's type is "email"
    value: string,
    platformValid: bool,  // the browser's constraint-validation verdict
    errorCount: nat,      // `.form__error` elements under the field's parent node
    errorMarked: bool)    // the field carries the `input--error` class

  datatype Form = Form(fields: seq<Field>, submitDisabled: bool)

  /** The verdict of validating one field and the field as validation left it. */
  datatype Checked = Checked(valid: bool, field: Field)

  /** The verdict of a validation pass and the form as it left it. */
  datatype Validated = Validated(valid: bool, form: Form)

  /** Validation never changes what it reads. */
  predicate SameInputs(f: Field, g: Field) {
    && f.required == g.required
    && f.isEmail == g.isEmail
    && f.value == g.value
    && f.platformValid == g.platformValid
  }

  /** When a field passes, stated over its inputs alone: optional, or platform-valid and (for an email field) a match of the email pattern. */
  predicate Acceptable(f: Field) {
    !f.required || (f.platformValid && (!f.isEmail || ValidEmail(f.value)))
  }

  predicate AllAcceptable(fields: seq<Field>) {
    forall j :: 0 <= j < |fields| ==> Acceptable(fields[j])
  }

  /** `showErrorMessage`: one more error div in the parent, and the error class set. */
  function ShowErrorMessage(f: Field): Field {
    f.(errorCount := f.errorCount + 1, errorMarked := true)
  }

  /** `removeErrorMessage`: the first `.form__error` element under the parent (if any) removed, and the error class cleared. */
  function RemoveErrorMessage(f: Field): Field {
    f.(errorCount := if f.errorCount > 0 then f.errorCount - 1 else 0, errorMarked := false)
  }

  function DisableSubmitButton(s: Form): Form {
    s.(submitDisabled := true)
  }

  function EnableSubmitButton(s: Form): Form {
    s.(submitDisabled := false)
  }

  /** The field-level part of `validField`: the verdict and the error display it leaves. */
  function CheckField(f: Field): (r: Checked)
    ensures SameInputs(r.field, f)
    ensures r.valid <==> Acceptable(f)
    ensures !f.required ==> r.field == f
    ensures f.required && !r.valid ==> r.field.errorCount == f.errorCount + 1 && r.field.errorMarked
    ensures f.required && r.valid ==> r.field.errorCount == (if f.errorCount > 0 then f.errorCount - 1 else 0)
    ensures f.required && r.valid ==> !r.field.errorMarked
  {
    if !f.required then Checked(true, f)
    else if f.isEmail && !ValidEmail(f.value) then Checked(false, ShowErrorMessage(f))
    else if !f.platformValid then Checked(false, ShowErrorMessage(f))
    else Checked(true, RemoveErrorMessage(f))
  }

  /** `validField` on the field at index `i`: only that field changes, and an invalid verdict disables the submit button. */
  function ValidField(s: Form, i: nat): (r: Validated)
    requires i < |s.fields|
    ensures r.valid <==> Acceptable(s.fields[i])
    ensures r.form.fields == s.fields[i := CheckField(s.fields[i]).field]
    ensures r.form.submitDisabled == (!r.valid || s.submitDisabled)
  {
    var c := CheckField(s.fields[i]);
    var s' := s.(fields := s.fields[i := c.field]);
    if c.valid then Validated(true, s') else Validated(false, DisableSubmitButton(s'))
  }

  /** Index of the first field at or after `k` that fails validation, or `|fields|` when none does. */
  function FirstInvalid(fields: seq<Field>, k: nat): (m: nat)
    requires k <= |fields|
    ensures k <= m <= |fields|
    ensures forall j :: k <= j < m ==> Acceptable(fields[j])
    ensures m < |fields| ==> !Acceptable(fields[m])
    decreases |fields| - k
  {
    if k == |fields| then |fields|
    else if !Acceptable(fields[k]) then k
    else FirstInvalid(fields, k + 1)
  }

  lemma FirstInvalidIs(fields: seq<Field>, k: nat, m: nat)
    requires k <= m <= |fields|
    requires forall j :: k <= j < m ==> Acceptable(fields[j])
    requires m < |fields| ==> !Acceptable(fields[m])
    ensures FirstInvalid(fields, k) == m
  {
  }

  /**
   `Array.from(formFields).every(validField)` from index `k` on: fields are
   validated in order up to and including the first that fails; the ones after
   it are never visited.
   */
  function Every(s: Form, k: nat): (r: Validated)
    requires k <= |s.fields|
    ensures r.valid <==> FirstInvalid(s.fields, k) == |s.fields|
    ensures |r.form.fields| == |s.fields|
    ensures forall j :: 0 <= j < |s.fields| ==>
      r.form.fields[j] == (if k <= j <= FirstInvalid(s.fields, k) then CheckField(s.fields[j]).field else s.fields[j])
    ensures r.form.submitDisabled == (!r.valid || s.submitDisabled)
    decreases |s.fields| - k
  {
    if k == |s.fields| then Validated(true, s)
    else
      var c := ValidField(s, k);
      if !c.valid then c
      else
        var r := Every(c.form, k + 1);
        FirstInvalidIs(c.form.fields, k + 1, FirstInvalid(s.fields, k));
        r
  }

  /** How many times one `onChange` on field `t` validates field `j`. */
  function Visits(fields: seq<Field>, t: nat, j: nat): nat
    requires t < |fields|
  {
    (if j == t then 1 else 0)
    + (if Acceptable(fields[t]) && j <= FirstInvalid(fields, 0) then 1 else 0)
  }

  /** The field after `n` validations in a row. */
  function Revalidate(f: Field, n: nat): Field {
    if n == 0 then f else CheckField(Revalidate(f, n - 1)).field
  }

  lemma RevalidateFew(f: Field)
    ensures Revalidate(f, 0) == f
    ensures Revalidate(f, 1) == CheckField(f).field
    ensures Revalidate(f, 2) == CheckField(CheckField(f).field).field
  {
  }

  /**
   `onChange` for a change on field `t`: validate it; if it fails, stop;
   otherwise validate every field in order and enable the submit button only
   if all of them pass. Afterwards the button is disabled exactly when some
   field fails, and each field has been validated `Visits` times: the target
   once more than the others, the fields up to the first failing one once,
   the rest not at all.
   */
  function OnChange(s: Form, t: nat): (r: Form)
    requires t < |s.fields|
    ensures |r.fields| == |s.fields|
    ensures r.submitDisabled <==> !AllAcceptable(s.fields)
    ensures forall j :: 0 <= j < |s.fields| ==> r.fields[j] == Revalidate(s.fields[j], Visits(s.fields, t, j))
  {
    var first := ValidField(s, t);
    if !first.valid then
      RevalidateFew(s.fields[t]);
      first.form
    else
      var all := Every(first.form, 0);
      var r := if all.valid then EnableSubmitButton(all.form) else all.form;
      FirstInvalidIs(first.form.fields, 0, FirstInvalid(s.fields, 0));
      assert forall j :: 0 <= j < |s.fields| ==> r.fields[j] == Revalidate(s.fields[j], Visits(s.fields, t, j)) by {
        forall j | 0 <= j < |s.fields|
          ensures r.fields[j] == Revalidate(s.fields[j], Visits(s.fields, t, j))
        {
          RevalidateFew(s.fields[j]);
        }
      }
      r
  }
}
