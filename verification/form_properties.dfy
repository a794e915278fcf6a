/**
 Properties of the form controller's validation: what one `validField` does to
 a field and to the submit button, what repeated validation does to the error
 display, and how `onChange` gates the submit button.
 */
module FormProperties {
  import opened EmailPattern
  import opened FormController

  /** An optional field passes whatever its value, and validating it changes nothing. */
  lemma OptionalFieldAlwaysValid(s: Form, i: nat, v: string)
    requires i < |s.fields|
    requires !s.fields[i].required
    ensures var s' := s.(fields := s.fields[i := s.fields[i].(value := v)]);
      ValidField(s', i) == Validated(true, s')
  {
  }

  /** A required email field whose value fails the pattern is rejected: the button is disabled and one more error div appears. */
  lemma BadEmailRejected(s: Form, i: nat)
    requires i < |s.fields|
    requires s.fields[i].required && s.fields[i].isEmail && !ValidEmail(s.fields[i].value)
    ensures var r := ValidField(s, i);
      && !r.valid
      && r.form.submitDisabled
      && r.form.fields[i].errorCount == s.fields[i].errorCount + 1
      && r.form.fields[i].errorMarked
  {
  }

  /**
   Once a required field is past the email check, the browser's verdict
   decides; in particular a value matching the pattern is still rejected when
   the browser says the field is invalid.
   */
  lemma PlatformVerdictDecides(s: Form, i: nat)
    requires i < |s.fields|
    requires s.fields[i].required
    requires !s.fields[i].isEmail || ValidEmail(s.fields[i].value)
    ensures ValidField(s, i).valid <==> s.fields[i].platformValid
    ensures !s.fields[i].platformValid ==> ValidField(s, i).form.submitDisabled
  {
  }

  /** A required field that passes loses one error div (none when there were none) and its error class; the button is left alone. */
  lemma PassingFieldClearsOne(s: Form, i: nat)
    requires i < |s.fields|
    requires s.fields[i].required && Acceptable(s.fields[i])
    ensures var r := ValidField(s, i);
      && r.valid
      && r.form.submitDisabled == s.submitDisabled
      && r.form.fields[i].errorCount == (if s.fields[i].errorCount > 0 then s.fields[i].errorCount - 1 else 0)
      && !r.form.fields[i].errorMarked
  {
  }

  lemma {:induction false} RevalidateKeepsInputs(f: Field, n: nat)
    ensures SameInputs(Revalidate(f, n), f)
    ensures Acceptable(Revalidate(f, n)) == Acceptable(f)
  {
    if n > 0 {
      RevalidateKeepsInputs(f, n - 1);
    }
  }

  /** Error divs are never deduplicated: each failed validation of a required field adds exactly one. */
  lemma {:induction false} ErrorsPileUp(f: Field, n: nat)
    requires f.required && !Acceptable(f)
    ensures Revalidate(f, n).errorCount == f.errorCount + n
    ensures n > 0 ==> Revalidate(f, n).errorMarked
  {
    if n > 0 {
      ErrorsPileUp(f, n - 1);
      RevalidateKeepsInputs(f, n - 1);
    }
  }

  /** Each passing validation of a required field removes one error div until none are left. */
  lemma {:induction false} ErrorsDrain(f: Field, n: nat)
    requires f.required && Acceptable(f)
    ensures Revalidate(f, n).errorCount == (if f.errorCount > n then f.errorCount - n else 0)
    ensures n > 0 ==> !Revalidate(f, n).errorMarked
  {
    if n > 0 {
      ErrorsDrain(f, n - 1);
      RevalidateKeepsInputs(f, n - 1);
    }
  }

  /** Validating an optional field any number of times leaves it as it was. */
  lemma {:induction false} OptionalFieldUntouched(f: Field, n: nat)
    requires !f.required
    ensures Revalidate(f, n) == f
  {
    if n > 0 {
      OptionalFieldUntouched(f, n - 1);
    }
  }

  /**
   Validation is a no-op exactly on fields that pass and show no error: a
   failing required field always gains a div, and a passing one with an error
   showing always loses something.
   */
  lemma RevalidationNoOp(f: Field)
    ensures CheckField(f).field == f <==> Acceptable(f) && (!f.required || (f.errorCount == 0 && !f.errorMarked))
  {
  }

  /** Showing an error and then removing it restores the count and leaves the class cleared. */
  lemma ShowThenRemove(f: Field)
    ensures RemoveErrorMessage(ShowErrorMessage(f)) == f.(errorMarked := false)
  {
  }

  /** When the changed field fails, `onChange` disables the button, adds one error div to that field and touches no other field. */
  lemma OnChangeFailingTarget(s: Form, t: nat)
    requires t < |s.fields|
    requires !Acceptable(s.fields[t])
    ensures var r := OnChange(s, t);
      && r.submitDisabled
      && r.fields == s.fields[t := ShowErrorMessage(s.fields[t])]
  {
  }

  /**
   `onChange` only ever writes `false` to the button when the changed field
   and every other field pass; whenever some field fails the button ends up
   disabled, whatever it was before.
   */
  lemma OnChangeGatesSubmit(s: Form, t: nat)
    requires t < |s.fields|
    ensures !OnChange(s, t).submitDisabled <==> Acceptable(s.fields[t]) && AllAcceptable(s.fields)
    ensures s.submitDisabled && !OnChange(s, t).submitDisabled ==> AllAcceptable(s.fields)
  {
  }

  /**
   The pass over all fields stops at the first failing one: it gains one
   error div, and every later field other than the changed one keeps its
   error display.
   */
  lemma OnChangeShortCircuits(s: Form, t: nat, m: nat)
    requires t < |s.fields|
    requires Acceptable(s.fields[t])
    requires m == FirstInvalid(s.fields, 0) && m < |s.fields|
    ensures OnChange(s, t).fields[m].errorCount == s.fields[m].errorCount + 1
    ensures forall j :: m < j < |s.fields| && j != t ==> OnChange(s, t).fields[j] == s.fields[j]
  {
  }

  /**
   A passing changed field that comes before the first failing field is
   validated twice, so one `onChange` removes up to two of its error divs.
   */
  lemma OnChangeClearsTargetTwice(s: Form, t: nat)
    requires t < |s.fields|
    requires s.fields[t].required && Acceptable(s.fields[t])
    requires t < FirstInvalid(s.fields, 0)
    ensures OnChange(s, t).fields[t].errorCount == (if s.fields[t].errorCount > 2 then s.fields[t].errorCount - 2 else 0)
    ensures !OnChange(s, t).fields[t].errorMarked
  {
  }

  /** When every field passes, `onChange` enables the button and clears the error class of every required field. */
  lemma OnChangeAllPass(s: Form, t: nat)
    requires t < |s.fields|
    requires AllAcceptable(s.fields)
    ensures !OnChange(s, t).submitDisabled
    ensures forall j :: 0 <= j < |s.fields| && s.fields[j].required ==> !OnChange(s, t).fields[j].errorMarked
  {
  }
}

module EmailScenario {
  import opened EmailPattern
  import opened FormController

  /** A one-field form holding a required email field with the given value, the browser satisfied with it. */
  function Single(value: string, errors: nat, marked: bool, disabled: bool): Form {
    Form([Field(true, true, value, true, errors, marked)], disabled)
  }

  /** "bob@example" has no dot after the `@`. */
  lemma MissingDotRejected()
    ensures !ValidEmail("bob@example")
  {
    var s := "bob@example";
    ScanClassifies(s);
    FirstAtIs(s, 3);
    assert s[4..] == "example";
    assert !HasInnerDot("example");
  }

  /** "bob@example.com" splits as "bob" and "example.com". */
  lemma DottedDomainAccepted()
    ensures ValidEmail("bob@example.com")
  {
    var s := "bob@example.com";
    assert s == "bob" + "@" + "example.com";
    assert AllInClass("bob");
    assert AllInClass("example.com");
    assert "example.com"[7] == '.';
    assert SplitsAs(s, "bob", "example.com");
    ValidEmailIsAddress(s);
  }

  /**
   "bob@example" is rejected: the button is disabled and an error div
   appears. With the value corrected to "bob@example.com" the next change
   removes the div and enables the button.
   */
  lemma CorrectedAddressEnablesSubmit()
    ensures OnChange(Single("bob@example", 0, false, false), 0) == Single("bob@example", 1, true, true)
    ensures OnChange(Single("bob@example.com", 1, true, true), 0) == Single("bob@example.com", 0, false, false)
  {
    MissingDotRejected();
    DottedDomainAccepted();
    var bad := Single("bob@example", 0, false, false);
    RevalidateFew(bad.fields[0]);
    var good := Single("bob@example.com", 1, true, true);
    FirstInvalidIs(good.fields, 0, 1);
    assert Visits(good.fields, 0, 0) == 2;
    RevalidateFew(good.fields[0]);
  }
}
