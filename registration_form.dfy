/**
 * The registration form on the client: the eight text fields it holds,
 * the check it runs before sending (blank required fields first, then
 * the shape of the email), and the reset after a successful submission.
 * The HTTP request is a parameter: whether the server accepted it.
 */
module RegistrationForm {
  import opened Wrappers
  import opened Text
  import opened Seqs
  import opened Validators
  import opened RegistrationModel

  /**
   * The form's email pattern `^[^\s@]+@[^\s@]+\.[^\s@]+$`: no white space,
   * exactly one '@' with something before it, and after it a '.' with
   * something on both sides.
   */
  predicate FormEmailShape(s: string) {
    exists at, dot ::
      && 0 < at < |s|
      && at + 1 < dot < |s| - 1
      && s[at] == '@'
      && s[dot] == '.'
      && forall i :: 0 <= i < |s| && i != at ==> s[i] != '@' && !IsSpace(s[i])
  }

  /** What `validateForm` decides; a refusal also shows a toast, which is not modelled. */
  datatype FormCheck = MissingRequired(fields: seq<Field>) | InvalidEmail | Passed

  /**
   * `validateForm`: the blank required fields, in declaration order, when
   * there are any; otherwise the email's shape decides.
   */
  function ValidateForm(data: map<Field, string>): (c: FormCheck)
    ensures c.MissingRequired? <==> exists f :: f in RequiredFields && Blank(data, f)
    ensures c.MissingRequired? ==> c.fields == MissingFields(data) && Institution !in c.fields
    ensures c.InvalidEmail? ==> !FormEmailShape(FieldValue(data, Email))
    ensures c.Passed? <==>
      (forall f :: f in RequiredFields ==> !Blank(data, f)) && FormEmailShape(FieldValue(data, Email))
  {
    var missing := MissingFields(data);
    InstitutionNeverMissing(data);
    NoneMissingIff(data);
    if missing != [] then
      MissingRequired(missing)
    else if !FormEmailShape(FieldValue(data, Email)) then InvalidEmail
    else Passed
  }

  /** Whatever the institution holds, the check decides the same. */
  lemma InstitutionNeverBlocks(data: map<Field, string>, v: string)
    ensures ValidateForm(data[Institution := v]) == ValidateForm(data)
  {
    MissingIgnoresInstitution(data, v);
    assert FieldValue(data[Institution := v], Email) == FieldValue(data, Email);
  }

  lemma MissingIgnoresInstitution(data: map<Field, string>, v: string)
    ensures MissingFields(data[Institution := v]) == MissingFields(data)
  {
    var changed := data[Institution := v];
    forall k | 0 <= k < |RequiredFields|
      ensures BlankIn(changed)(RequiredFields[k]) == BlankIn(data)(RequiredFields[k])
    {
      assert RequiredFields[k] != Institution;
    }
    FilterAgree(RequiredFields, BlankIn(changed), BlankIn(data));
  }

  /** Every address the server's pattern accepts also passes the form's pattern. */
  lemma ServerEmailPassesForm(s: string)
    requires MatchesEmail(s)
    ensures FormEmailShape(s)
  {
    var at, dot := EmailShape(s);
  }

  /** The form's pattern is looser: "a@b.c" passes it, and the server then refuses it. */
  lemma FormLooserThanServer()
    ensures FormEmailShape("a@b.c") && !MatchesEmail("a@b.c")
  {
    var s := "a@b.c";
    assert s[1] == '@' && s[3] == '.';
    assert forall i :: 0 <= i < |s| && i != 1 ==> s[i] != '@' && !IsSpace(s[i]);
    RefusesOneLetterDomain();
  }

  /** The eight fields of the form. */
  const AllFields: set<Field> := {FullName, Email, Phone, Institution, Address, City, State, ZipCode}

  /** The initial state of `formData`, and the one the form is reset to. */
  const EmptyForm: map<Field, string> :=
    map[FullName := "", Email := "", Phone := "", Institution := "",
        Address := "", City := "", State := "", ZipCode := ""]

  /** The reset value covers every field. */
  lemma EmptyFormComplete()
    ensures EmptyForm.Keys == AllFields
  {
  }

  /** The form's state: `formData` and `isSubmitting`. */
  class FormState {
    var formData: map<Field, string>
    var isSubmitting: bool

    /** Every field of the form has a value. */
    ghost predicate Valid()
      reads this
    {
      formData.Keys == AllFields
    }

    constructor ()
      ensures Valid()
      ensures formData == EmptyForm && !isSubmitting
    {
      EmptyFormComplete();
      formData := EmptyForm;
      isSubmitting := false;
    }

    /** `handleChange`: the field named by the input takes the new value; no other field changes. */
    method HandleChange(name: Field, value: string)
      requires Valid()
      modifies this
      ensures Valid()
      ensures formData == old(formData)[name := value]
      ensures unchanged(this`isSubmitting)
    {
      formData := formData[name := value];
    }

    /**
     * `handleSubmit`: a form that fails the check is not sent and nothing
     * changes. Otherwise the data is sent as it stands; on success the
     * fields are reset, on failure they are kept, and `isSubmitting` is
     * false again either way.
     */
    method HandleSubmit(accepted: bool) returns (sent: Option<map<Field, string>>)
      requires Valid()
      modifies this
      ensures Valid()
      ensures sent == if ValidateForm(old(formData)).Passed? then Some(old(formData)) else None
      ensures sent.None? ==> unchanged(this`formData, this`isSubmitting)
      ensures sent.Some? ==> !isSubmitting
      ensures sent.Some? && accepted ==> formData == EmptyForm
      ensures sent.Some? && !accepted ==> unchanged(this`formData)
    {
      var check := ValidateForm(formData);
      if !check.Passed? {
        return None;
      }
      isSubmitting := true;
      sent := Some(formData);
      if accepted {
        EmptyFormComplete();
        formData := EmptyForm;
      }
      isSubmitting := false;
    }
  }
}
