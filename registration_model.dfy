/**
 * The registration schema: eight string paths with `trim` setters (email
 * also `lowercase`), the required/length/pattern validators with their
 * messages, a unique index on email, and `createdAt` defaulting to the time
 * of creation.
 */
module RegistrationModel {
  import opened Wrappers
  import opened Text
  import opened Validators
  import opened Seqs

  /** The eight submitted paths, as stored: after the schema's setters ran. */
  datatype Applicant = Applicant(
    fullName: string,
    email: string,
    phone: string,
    institution: Option<string>,
    address: string,
    city: string,
    state: string,
    zipCode: string)

  /** A stored registration: its `_id` (an ObjectId, here a number), the paths and `createdAt`. */
  datatype Registration = Registration(id: nat, applicant: Applicant, createdAt: int)

  /** The eight paths of a registration, in declaration order. */
  datatype Field = FullName | Email | Phone | Institution | Address | City | State | ZipCode

  /** The path's name, as it appears in a request body and in error details. */
  function FieldName(f: Field): string {
    match f
    case FullName => "fullName"
    case Email => "email"
    case Phone => "phone"
    case Institution => "institution"
    case Address => "address"
    case City => "city"
    case State => "state"
    case ZipCode => "zipCode"
  }

  /** The seven required paths, in the order both the handler and the form list them. */
  const RequiredFields: seq<Field> := [FullName, Email, Phone, Address, City, State, ZipCode]

  function FieldNames(fs: seq<Field>): (names: seq<string>)
    ensures |names| == |fs|
    ensures forall i :: 0 <= i < |fs| ==> names[i] == FieldName(fs[i])
    decreases |fs|
  {
    if fs == [] then [] else [FieldName(fs[0])] + FieldNames(fs[1..])
  }

  /** `!data[f]` on a string-valued record: the field is absent or the empty string. */
  predicate Blank(data: map<Field, string>, f: Field) {
    f !in data || data[f] == ""
  }

  /** The value a present field contributes, "" for an absent one. */
  function FieldValue(data: map<Field, string>, f: Field): (v: string)
    ensures v == "" <==> Blank(data, f)
  {
    if f in data then data[f] else ""
  }

  /** The filter callback `field => !data[field]`. */
  function BlankIn(data: map<Field, string>): Field -> bool {
    f => Blank(data, f)
  }

  /**
   * `requiredFields.filter(field => !data[field])`: exactly the blank
   * required fields, in the order of RequiredFields.
   */
  function MissingFields(data: map<Field, string>): (fs: seq<Field>)
    ensures forall f :: f in fs <==> f in RequiredFields && Blank(data, f)
    ensures SubsequenceOf(fs, RequiredFields)
  {
    var p := BlankIn(data);
    var fs := Filter(RequiredFields, p);
    FilterIsSubsequence(RequiredFields, p);
    forall f ensures f in fs <==> f in RequiredFields && p(f) {
      FilterMember(RequiredFields, p, f);
    }
    fs
  }

  /** No field is reported missing exactly when every required field has a value. */
  lemma NoneMissingIff(data: map<Field, string>)
    ensures MissingFields(data) == [] <==> forall f :: f in RequiredFields ==> !Blank(data, f)
  {
    var fs := MissingFields(data);
    if fs != [] {
      assert fs[0] in fs;
    }
  }

  /** The optional institution is never reported missing, whatever the record holds. */
  lemma InstitutionNeverMissing(data: map<Field, string>)
    ensures Institution !in MissingFields(data)
  {
    assert Institution !in RequiredFields;
  }

  const FullNameRequired := "Full name is required"
  const FullNameTooShort := "Name must be at least 2 characters long"
  const FullNameTooLong := "Name cannot exceed 50 characters"
  const EmailRequired := "Email is required"
  const EmailInvalid := "Please enter a valid email"
  const PhoneRequired := "Phone number is required"
  const PhoneInvalid := "Please enter a valid phone number"
  const AddressRequired := "Address is required"
  const CityRequired := "City is required"
  const StateRequired := "State/Province is required"
  const ZipCodeRequired := "Postal/Zip code is required"
  const ZipCodeInvalid := "Please enter a valid postal/zip code"

  const MinNameLength := 2
  const MaxNameLength := 50

  /** The setters: every path is trimmed, the email is also lower-cased. */
  function Cast(
    fullName: string, email: string, phone: string, institution: Option<string>,
    address: string, city: string, state: string, zipCode: string): (a: Applicant)
    ensures a.institution.Some? <==> institution.Some?
  {
    Applicant(
      Trim(fullName), Lower(Trim(email)), Trim(phone),
      if institution.Some? then Some(Trim(institution.value)) else None,
      Trim(address), Trim(city), Trim(state), Trim(zipCode))
  }

  /**
   * The stored email is the same whichever of `trim` and `lowercase` runs
   * first, and casting it again changes nothing.
   */
  lemma CastEmailNormal(
    fullName: string, email: string, phone: string, institution: Option<string>,
    address: string, city: string, state: string, zipCode: string)
    ensures Cast(fullName, email, phone, institution, address, city, state, zipCode).email == Trim(Lower(email))
    ensures Trim(Lower(Trim(Lower(email)))) == Trim(Lower(email))
  {
    LowerTrimCommute(email);
    var e := Lower(Trim(email));
    LowerTrimCommute(e);
    TrimIdempotent(email);
    LowerIdempotent(Trim(email));
  }

  /** The first failing validator of `fullName`: required, then minlength 2, then maxlength 50. */
  function FullNameError(v: string): Option<string> {
    if |v| == 0 then Some(FullNameRequired)
    else if |v| < MinNameLength then Some(FullNameTooShort)
    else if |v| > MaxNameLength then Some(FullNameTooLong)
    else None
  }

  /** A required path with a `match` pattern: required first, then the pattern. */
  function PatternError(v: string, matches: bool, required: string, invalid: string): Option<string> {
    if |v| == 0 then Some(required) else if !matches then Some(invalid) else None
  }

  /** A required path with no other validator. */
  function RequiredError(v: string, required: string): Option<string> {
    if |v| == 0 then Some(required) else None
  }

  /** The messages of the failing validators, in the order of the paths. */
  function Messages(errors: seq<Option<string>>): seq<string> {
    if errors == [] then []
    else (if errors[0].Some? then [errors[0].value] else []) + Messages(errors[1..])
  }

  /** One optional error per path, in schema order; `institution` has no validator. */
  function PathErrors(a: Applicant): seq<Option<string>> {
    [ FullNameError(a.fullName),
      PatternError(a.email, MatchesEmail(a.email), EmailRequired, EmailInvalid),
      PatternError(a.phone, MatchesPhone(a.phone), PhoneRequired, PhoneInvalid),
      RequiredError(a.address, AddressRequired),
      RequiredError(a.city, CityRequired),
      RequiredError(a.state, StateRequired),
      PatternError(a.zipCode, MatchesZipCode(a.zipCode), ZipCodeRequired, ZipCodeInvalid) ]
  }

  /** `validateSync()`: the messages of the validation error, or none. */
  function ValidationErrors(a: Applicant): seq<string> {
    Messages(PathErrors(a))
  }

  /** What the schema demands of a stored registration. */
  predicate IsValid(a: Applicant) {
    && MinNameLength <= |a.fullName| <= MaxNameLength
    && MatchesEmail(a.email)
    && MatchesPhone(a.phone)
    && a.address != []
    && a.city != []
    && a.state != []
    && MatchesZipCode(a.zipCode)
  }

  lemma {:induction false} MessagesEmptyIff(errors: seq<Option<string>>)
    ensures Messages(errors) == [] <==> forall k :: 0 <= k < |errors| ==> errors[k].None?
  {
    if errors != [] {
      MessagesEmptyIff(errors[1..]);
      if errors[0].None? {
        assert forall k :: 1 <= k < |errors| ==> errors[k] == errors[1..][k - 1];
      }
    }
  }

  lemma {:induction false} MessagesContain(errors: seq<Option<string>>, k: nat)
    requires k < |errors| && errors[k].Some?
    ensures errors[k].value in Messages(errors)
  {
    if k > 0 {
      MessagesContain(errors[1..], k - 1);
    }
  }

  /** Validation passes exactly when every schema rule holds. */
  lemma ValidIffNoErrors(a: Applicant)
    ensures ValidationErrors(a) == [] <==> IsValid(a)
  {
    var e := PathErrors(a);
    MessagesEmptyIff(e);
    assert (forall k :: 0 <= k < |e| ==> e[k].None?) <==>
      e[0].None? && e[1].None? && e[2].None? && e[3].None? && e[4].None? && e[5].None? && e[6].None?;
  }

  /** A valid registration keeps its name between 2 and 50 characters after trimming. */
  lemma ValidNameLength(a: Applicant)
    requires ValidationErrors(a) == []
    ensures 2 <= |a.fullName| <= 50
  {
    ValidIffNoErrors(a);
  }

  /** A path that trims to "" reports its `required` message; the institution never reports anything. */
  lemma {:induction false} RequiredMessages(a: Applicant)
    ensures a.fullName == "" ==> FullNameRequired in ValidationErrors(a)
    ensures a.email == "" ==> EmailRequired in ValidationErrors(a)
    ensures a.phone == "" ==> PhoneRequired in ValidationErrors(a)
    ensures a.address == "" ==> AddressRequired in ValidationErrors(a)
    ensures a.city == "" ==> CityRequired in ValidationErrors(a)
    ensures a.state == "" ==> StateRequired in ValidationErrors(a)
    ensures a.zipCode == "" ==> ZipCodeRequired in ValidationErrors(a)
    ensures ValidationErrors(a) == ValidationErrors(a.(institution := None))
  {
    var e := PathErrors(a);
    if a.fullName == "" { MessagesContain(e, 0); }
    if a.email == "" { MessagesContain(e, 1); }
    if a.phone == "" { MessagesContain(e, 2); }
    if a.address == "" { MessagesContain(e, 3); }
    if a.city == "" { MessagesContain(e, 4); }
    if a.state == "" { MessagesContain(e, 5); }
    if a.zipCode == "" { MessagesContain(e, 6); }
  }

  /** A valid registration's stored email is already trimmed (its pattern has no white space). */
  lemma ValidEmailTrimmed(a: Applicant)
    requires IsValid(a)
    ensures Trim(a.email) == a.email
  {
    EmailTrimStable(a.email);
  }

  /** The unique index on `email`: no two stored registrations share one. */
  predicate EmailsUnique(rs: seq<Registration>) {
    forall i, j :: 0 <= i < j < |rs| ==> rs[i].applicant.email != rs[j].applicant.email
  }

  /** `Registration.findOne({ email })`, with the query value cast by the same setters. */
  predicate EmailTaken(rs: seq<Registration>, email: string) {
    exists i :: 0 <= i < |rs| && rs[i].applicant.email == email
  }

  /** Appending a registration whose email is not taken keeps the emails unique. */
  lemma AppendKeepsUnique(rs: seq<Registration>, r: Registration)
    requires EmailsUnique(rs) && !EmailTaken(rs, r.applicant.email)
    ensures EmailsUnique(rs + [r])
  {
    var t := rs + [r];
    forall i, j | 0 <= i < j < |t| ensures t[i].applicant.email != t[j].applicant.email {
      if j == |rs| {
        assert t[i] == rs[i];
      }
    }
  }
}
