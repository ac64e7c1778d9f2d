/** The contact form of the landing page: its field state, the validation schema
    that decides whether a submission is accepted, the record that is stored, and
    the state after a submission. */
module Contact {

  import opened Optional
  import opened Text

  // ---------------------------------------------------------------------------
  // Inquiry types
  // ---------------------------------------------------------------------------

  /** The three values the schema's enum allows. */
  datatype InquiryType = Problem | Requirement | Inquiry

  /** The wire name of an inquiry type (`inquiry_type` of the stored record). */
  function InquiryName(t: InquiryType): string {
    match t
    case Problem => "problem"
    case Requirement => "requirement"
    case Inquiry => "inquiry"
  }

  /** The enum check: a string is accepted exactly when it names one of the three types. */
  function ParseInquiryType(s: string): (r: Option<InquiryType>)
    ensures r.Some? ==> InquiryName(r.value) == s
  {
    if s == "problem" then Some(Problem)
    else if s == "requirement" then Some(Requirement)
    else if s == "inquiry" then Some(Inquiry)
    else None
  }

  /** Every type's name parses back to that type. */
  lemma ParseInquiryName(t: InquiryType)
    ensures ParseInquiryType(InquiryName(t)) == Some(t)
  {
  }

  /** A string the enum accepts is the name of some type, and of only one. */
  lemma ParseInquiryTypeIff(s: string)
    ensures ParseInquiryType(s).Some? <==> exists t :: InquiryName(t) == s
    ensures forall t, u :: InquiryName(t) == InquiryName(u) ==> t == u
  {
    if exists t :: InquiryName(t) == s {
      var t :| InquiryName(t) == s;
      ParseInquiryName(t);
    }
  }

  // ---------------------------------------------------------------------------
  // Form state
  // ---------------------------------------------------------------------------

  /** `formData`. The inquiry type is held as the raw string the buttons write. */
  datatype Form = Form(
    name: string,
    email: string,
    designation: string,
    organization: string,
    inquiryType: string,
    message: string)

  /** The initial state, also the state after a successful submission. */
  function EmptyForm(): (f: Form)
    ensures ParseInquiryType(f.inquiryType) == Some(Problem)
    ensures forall field :: field != "inquiryType" && Field(f, field).Some? ==> Field(f, field).value == []
  {
    Form("", "", "", "", "problem", "")
  }

  /** Reads the field with the given property name, if the form has one. */
  function Field(f: Form, field: string): Option<string> {
    if field == "name" then Some(f.name)
    else if field == "email" then Some(f.email)
    else if field == "designation" then Some(f.designation)
    else if field == "organization" then Some(f.organization)
    else if field == "inquiryType" then Some(f.inquiryType)
    else if field == "message" then Some(f.message)
    else None
  }

  /** `handleChange`: the input's `name` selects the property its value replaces.
      A name that is not a property of the form adds a property nothing reads, so
      the form as seen by the rest of the component is unchanged. */
  function HandleChange(f: Form, field: string, value: string): (r: Form)
    ensures Field(f, field).Some? ==> Field(r, field) == Some(value)
    ensures forall g :: g != field ==> Field(r, g) == Field(f, g)
    ensures Field(f, field).None? ==> r == f
  {
    if field == "name" then f.(name := value)
    else if field == "email" then f.(email := value)
    else if field == "designation" then f.(designation := value)
    else if field == "organization" then f.(organization := value)
    else if field == "inquiryType" then f.(inquiryType := value)
    else if field == "message" then f.(message := value)
    else f
  }

  /** A form is determined by what its six properties read. */
  lemma FieldsDetermineForm(f: Form, g: Form)
    requires forall field :: Field(f, field) == Field(g, field)
    ensures f == g
  {
    assert Field(f, "name") == Field(g, "name");
    assert Field(f, "email") == Field(g, "email");
    assert Field(f, "designation") == Field(g, "designation");
    assert Field(f, "organization") == Field(g, "organization");
    assert Field(f, "inquiryType") == Field(g, "inquiryType");
    assert Field(f, "message") == Field(g, "message");
  }

  /** Typing into the same field twice keeps only the last value. */
  lemma HandleChangeOverwrites(f: Form, field: string, a: string, b: string)
    ensures HandleChange(HandleChange(f, field, a), field, b) == HandleChange(f, field, b)
  {
    var lhs, rhs := HandleChange(HandleChange(f, field, a), field, b), HandleChange(f, field, b);
    forall g ensures Field(lhs, g) == Field(rhs, g) {
    }
    FieldsDetermineForm(lhs, rhs);
  }

  /** Changes to two different fields do not interfere. */
  lemma HandleChangeCommutes(f: Form, x: string, a: string, y: string, b: string)
    requires x != y
    ensures HandleChange(HandleChange(f, x, a), y, b) == HandleChange(HandleChange(f, y, b), x, a)
  {
    var lhs, rhs := HandleChange(HandleChange(f, x, a), y, b), HandleChange(HandleChange(f, y, b), x, a);
    forall g ensures Field(lhs, g) == Field(rhs, g) {
    }
    FieldsDetermineForm(lhs, rhs);
  }

  /** The type buttons: only the inquiry type changes, and it becomes valid. */
  function SelectInquiryType(f: Form, t: InquiryType): (r: Form)
    ensures ParseInquiryType(r.inquiryType) == Some(t)
    ensures forall g :: g != "inquiryType" ==> Field(r, g) == Field(f, g)
  {
    ParseInquiryName(t);
    HandleChange(f, "inquiryType", InquiryName(t))
  }

  // ---------------------------------------------------------------------------
  // The schema
  // ---------------------------------------------------------------------------

  const NameMax: nat := 100
  const OptionalMax: nat := 100
  const MessageMin: nat := 10
  const MessageMax: nat := 2000

  /** One schema violation. The constructors are listed in the order the schema
      checks them: property by property, and within a property bound by bound. */
  datatype Issue =
    | NameTooShort
    | NameTooLong
    | BadEmail
    | DesignationTooLong
    | OrganizationTooLong
    | BadInquiryType
    | MessageTooShort
    | MessageTooLong

  /** Every check of the schema, in order. */
  function SchemaOrder(): seq<Issue> {
    [NameTooShort, NameTooLong, BadEmail, DesignationTooLong, OrganizationTooLong,
     BadInquiryType, MessageTooShort, MessageTooLong]
  }

  /** Where an issue sits in `SchemaOrder()`. */
  function Rank(i: Issue): (n: nat)
    ensures n < |SchemaOrder()| && SchemaOrder()[n] == i
  {
    match i
    case NameTooShort => 0
    case NameTooLong => 1
    case BadEmail => 2
    case DesignationTooLong => 3
    case OrganizationTooLong => 4
    case BadInquiryType => 5
    case MessageTooShort => 6
    case MessageTooLong => 7
  }

  /** Whether one check fails. Lengths are JavaScript lengths of the raw field
      values; the email check is the library's email pattern, a parameter here. */
  predicate Violated(f: Form, isEmail: string -> bool, i: Issue) {
    match i
    case NameTooShort => Utf16Length(f.name) < 1
    case NameTooLong => Utf16Length(f.name) > NameMax
    case BadEmail => !isEmail(f.email)
    case DesignationTooLong => Utf16Length(f.designation) > OptionalMax
    case OrganizationTooLong => Utf16Length(f.organization) > OptionalMax
    case BadInquiryType => ParseInquiryType(f.inquiryType).None?
    case MessageTooShort => Utf16Length(f.message) < MessageMin
    case MessageTooLong => Utf16Length(f.message) > MessageMax
  }

  /** The failing checks among `checks`, in their order. */
  function Failing(f: Form, isEmail: string -> bool, checks: seq<Issue>): (r: seq<Issue>)
    ensures forall i :: i in r <==> i in checks && Violated(f, isEmail, i)
    ensures |r| <= |checks|
  {
    if checks == [] then []
    else
      var rest := Failing(f, isEmail, checks[1..]);
      if Violated(f, isEmail, checks[0]) then [checks[0]] + rest else rest
  }

  /** The issues `contactSchema.parse` collects: each failing check once, in schema order. */
  function Issues(f: Form, isEmail: string -> bool): (r: seq<Issue>)
    ensures forall i :: i in r <==> Violated(f, isEmail, i)
  {
    Failing(f, isEmail, SchemaOrder())
  }

  /** The bounds the schema states, field by field. */
  predicate Accepted(f: Form, isEmail: string -> bool) {
    && 1 <= Utf16Length(f.name) <= NameMax
    && isEmail(f.email)
    && Utf16Length(f.designation) <= OptionalMax
    && Utf16Length(f.organization) <= OptionalMax
    && ParseInquiryType(f.inquiryType).Some?
    && MessageMin <= Utf16Length(f.message) <= MessageMax
  }

  /** A form is accepted exactly when the schema reports no issue. */
  lemma IssuesEmptyIffAccepted(f: Form, isEmail: string -> bool)
    ensures Issues(f, isEmail) == [] <==> Accepted(f, isEmail)
  {
    if Issues(f, isEmail) != [] {
      assert Issues(f, isEmail)[0] in Issues(f, isEmail);
    } else {
      assert NameTooShort !in Issues(f, isEmail) && NameTooLong !in Issues(f, isEmail);
      assert BadEmail !in Issues(f, isEmail) && BadInquiryType !in Issues(f, isEmail);
      assert DesignationTooLong !in Issues(f, isEmail) && OrganizationTooLong !in Issues(f, isEmail);
      assert MessageTooShort !in Issues(f, isEmail) && MessageTooLong !in Issues(f, isEmail);
    }
  }

  /** Issues strictly ascending in schema order. */
  predicate InSchemaOrder(issues: seq<Issue>) {
    forall a, b :: 0 <= a < b < |issues| ==> Rank(issues[a]) < Rank(issues[b])
  }

  lemma OrderedTail(issues: seq<Issue>)
    requires issues != [] && InSchemaOrder(issues)
    ensures InSchemaOrder(issues[1..])
    ensures forall x :: x in issues[1..] ==> Rank(issues[0]) < Rank(x)
  {
    var tail := issues[1..];
    forall a, b | 0 <= a < b < |tail| ensures Rank(tail[a]) < Rank(tail[b]) {
      assert tail[a] == issues[a + 1] && tail[b] == issues[b + 1];
    }
    forall x | x in tail ensures Rank(issues[0]) < Rank(x) {
      var m :| 0 <= m < |tail| && tail[m] == x;
      assert issues[m + 1] == x;
    }
  }

  lemma OrderedCons(x: Issue, rest: seq<Issue>)
    requires InSchemaOrder(rest) && forall y :: y in rest ==> Rank(x) < Rank(y)
    ensures InSchemaOrder([x] + rest)
  {
    var r := [x] + rest;
    forall a, b | 0 <= a < b < |r| ensures Rank(r[a]) < Rank(r[b]) {
      assert r[b] == rest[b - 1] && r[b] in rest;
      if a > 0 {
        assert r[a] == rest[a - 1];
      }
    }
  }

  /** The schema's checks are listed in rank order. */
  lemma SchemaOrderRanked()
    ensures InSchemaOrder(SchemaOrder())
  {
    var o := SchemaOrder();
    assert Rank(o[0]) == 0 && Rank(o[1]) == 1 && Rank(o[2]) == 2 && Rank(o[3]) == 3;
    assert Rank(o[4]) == 4 && Rank(o[5]) == 5 && Rank(o[6]) == 6 && Rank(o[7]) == 7;
  }

  /** The failing checks keep the order in which they are listed. */
  lemma {:induction false} FailingKeepsOrder(f: Form, isEmail: string -> bool, checks: seq<Issue>)
    requires InSchemaOrder(checks)
    ensures InSchemaOrder(Failing(f, isEmail, checks))
  {
    if checks != [] {
      OrderedTail(checks);
      FailingKeepsOrder(f, isEmail, checks[1..]);
      if Violated(f, isEmail, checks[0]) {
        OrderedCons(checks[0], Failing(f, isEmail, checks[1..]));
      }
    }
  }

  /** The issue reported (`error.errors[0]`) is the earliest failing check:
      every check before it in schema order passes. */
  lemma FirstIssueIsEarliest(f: Form, isEmail: string -> bool)
    requires Issues(f, isEmail) != []
    ensures forall i :: Rank(i) < Rank(Issues(f, isEmail)[0]) ==> !Violated(f, isEmail, i)
  {
    var r := Issues(f, isEmail);
    assert r == Failing(f, isEmail, SchemaOrder());
    SchemaOrderRanked();
    FailingKeepsOrder(f, isEmail, SchemaOrder());
    assert InSchemaOrder(r);
    forall i | Rank(i) < Rank(r[0]) ensures !Violated(f, isEmail, i) {
      forall j | 0 <= j < |r| ensures r[j] != i {
        assert j == 0 || Rank(r[0]) < Rank(r[j]);
      }
    }
  }

  // ---------------------------------------------------------------------------
  // The stored record
  // ---------------------------------------------------------------------------

  /** A row of `contact_submissions`. */
  datatype Record = Record(
    name: string,
    email: string,
    designation: Option<string>,
    organization: Option<string>,
    inquiryType: InquiryType,
    message: string)

  /** The insert payload built from a validated form. */
  function ToRecord(f: Form, t: InquiryType): (r: Record)
    ensures r.inquiryType == t
    ensures r.name == Trim(f.name) && r.message == Trim(f.message)
    ensures r.email == ToLower(Trim(f.email))
    ensures r.designation.Some? ==> r.designation.value == Trim(f.designation)
    ensures r.organization.Some? ==> r.organization.value == Trim(f.organization)
    ensures Trim(r.name) == r.name && Trim(r.message) == r.message
    ensures Trim(r.email) == r.email && ToLower(r.email) == r.email
    ensures r.designation.Some? ==> r.designation.value != [] && Trim(r.designation.value) == r.designation.value
    ensures r.organization.Some? ==> r.organization.value != [] && Trim(r.organization.value) == r.organization.value
    ensures r.designation.None? <==> IsBlank(f.designation)
    ensures r.organization.None? <==> IsBlank(f.organization)
  {
    var email := ToLower(Trim(f.email));
    TrimIdempotent(f.name);
    TrimIdempotent(f.message);
    TrimIdempotent(f.email);
    TrimToLower(Trim(f.email));
    ToLowerIdempotent(Trim(f.email));
    Record(Trim(f.name), email, TrimOrNull(f.designation), TrimOrNull(f.organization), t, Trim(f.message))
  }

  /** The form with every field trimmed and the email lower-cased as well. */
  function Normalised(f: Form): Form {
    f.(name := Trim(f.name), email := ToLower(Trim(f.email)), designation := Trim(f.designation),
       organization := Trim(f.organization), message := Trim(f.message))
  }

  /** The stored record depends on the fields only through their trimmed
      (and, for the email, lower-cased) text. */
  lemma ToRecordNormalises(f: Form, t: InquiryType)
    ensures ToRecord(Normalised(f), t) == ToRecord(f, t)
  {
    TrimIdempotent(f.name);
    TrimIdempotent(f.message);
    TrimIdempotent(f.designation);
    TrimIdempotent(f.organization);
    TrimIdempotent(f.email);
    TrimToLower(Trim(f.email));
    ToLowerIdempotent(Trim(f.email));
  }

  // ---------------------------------------------------------------------------
  // Submitting
  // ---------------------------------------------------------------------------

  /** The toast a submission ends with. */
  datatype Toast =
    | Success(text: string)
    | Invalid(issue: Issue)
    | Failed(text: string)

  /** `successMessages`, keyed by inquiry type. */
  function SuccessMessage(t: InquiryType): string {
    match t
    case Problem => "Problem submitted successfully! Our AI agents will analyze your challenge."
    case Requirement => "Requirements received! We'll get back to you with a tailored solution."
    case Inquiry => "Thank you for reaching out! We'll respond to your inquiry shortly."
  }

  const FailureMessage: string := "Failed to submit. Please try again."

  /** The component state and the table after `handleSubmit`. */
  datatype Submitted = Submitted(form: Form, submitting: bool, table: seq<Record>, toast: Toast)

  /** `handleSubmit`. The insert is the backend's: `insertFails` says whether it
      returns an error. */
  function HandleSubmit(f: Form, table: seq<Record>, isEmail: string -> bool, insertFails: bool): (s: Submitted)
    ensures !s.submitting
    ensures s.toast.Invalid? <==> Issues(f, isEmail) != []
    ensures s.toast.Invalid? ==> s.toast.issue == Issues(f, isEmail)[0]
    ensures s.toast.Success? <==> Accepted(f, isEmail) && !insertFails
    ensures !s.toast.Success? ==> s.form == f && s.table == table
    ensures s.toast.Success? ==>
      var t := ParseInquiryType(f.inquiryType).value;
      && s.table == table + [ToRecord(f, t)]
      && s.form == EmptyForm()
      && s.toast.text == SuccessMessage(t)
    ensures s.toast.Failed? ==> s.toast.text == FailureMessage
  {
    var issues := Issues(f, isEmail);
    IssuesEmptyIffAccepted(f, isEmail);
    if issues != [] then
      Submitted(f, false, table, Invalid(issues[0]))
    else if insertFails then
      Submitted(f, false, table, Failed(FailureMessage))
    else
      var t := ParseInquiryType(f.inquiryType).value;
      Submitted(EmptyForm(), false, table + [ToRecord(f, t)], Success(SuccessMessage(t)))
  }

  /** The form as first shown is rejected, with the name check reported. */
  lemma EmptyFormRejected(isEmail: string -> bool, table: seq<Record>, insertFails: bool)
    ensures HandleSubmit(EmptyForm(), table, isEmail, insertFails).toast == Invalid(NameTooShort)
  {
    assert Violated(EmptyForm(), isEmail, NameTooShort);
  }

  /** The name bounds apply to the raw value: a name of one space passes them
      and is stored empty. */
  lemma BlankNamePasses(f: Form, isEmail: string -> bool, t: InquiryType)
    requires f.name == " "
    ensures !Violated(f, isEmail, NameTooShort) && !Violated(f, isEmail, NameTooLong)
    ensures ToRecord(f, t).name == ""
  {
    Utf16LengthBmp(f.name);
    assert IsTrimmable(f.name[0]);
  }

  /** The message bounds apply to the raw value too: ten spaces pass them and
      are stored as an empty message. */
  lemma BlankMessagePasses(f: Form, isEmail: string -> bool, t: InquiryType)
    requires f.message == "          "
    ensures !Violated(f, isEmail, MessageTooShort) && !Violated(f, isEmail, MessageTooLong)
    ensures ToRecord(f, t).message == ""
  {
    var m := f.message;
    assert forall i :: 0 <= i < |m| ==> m[i] == ' ';
    Utf16LengthBmp(m);
  }
}
