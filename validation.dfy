/**
 * The registration request schema: `eventId` a number of at least 1, `name` a
 * string of 2 to 100 characters that is then trimmed, `email` a syntactically
 * valid address ending in the organisational domain. A failed submission reports
 * every violated rule, field by field, in schema order.
 */
module Validation {
  import opened Wrappers
  import opened Strings
  import opened Domain
  import Models

  /** A JSON value as far as the schema distinguishes it; `JOther` is an absent field, null, a boolean, an array or an object. */
  datatype JsonValue = JNumber(n: real) | JString(s: string) | JOther

  /** The parsed request body: an object with the three fields, or anything else. */
  datatype Body = ObjectBody(eventId: JsonValue, name: JsonValue, email: JsonValue) | NonObjectBody

  datatype InputField = BodyInput | EventIdInput | NameInput | EmailInput

  datatype IssueCode = InvalidType | TooSmall | TooBig | InvalidEmail | WrongDomain

  datatype Issue = Issue(path: InputField, code: IssueCode)

  /** An accepted submission, with the name already trimmed. */
  datatype Submission = Submission(eventId: EventId, name: string, email: string)

  /** The `eventId` rule: a number, at least 1; integrality is not demanded. */
  predicate EventIdOk(v: JsonValue) {
    v.JNumber? && v.n >= 1.0
  }

  /** The `email` rule: a string that passes the e-mail syntax check and ends with the domain, compared case-sensitively. */
  predicate EmailOk(v: JsonValue, isEmail: string -> bool) {
    v.JString? && isEmail(v.s) && EndsWith(v.s, DomainSuffix)
  }

  /** The intended `name` rule: a string whose trimmed form has 2 to 100 characters. */
  predicate NameOk(v: JsonValue) {
    v.JString? && 2 <= |Trim(v.s)| <= 100
  }

  /** The `name` rule as the schema's check order applies it: the length bounds are checked before trimming. */
  predicate NameOkAsWritten(v: JsonValue) {
    v.JString? && 2 <= |v.s| <= 100
  }

  function EventIdIssues(v: JsonValue): (r: seq<Issue>)
    ensures r == [] <==> EventIdOk(v)
    ensures forall i :: i in r ==> i.path == EventIdInput
  {
    if !v.JNumber? then [Issue(EventIdInput, InvalidType)]
    else if v.n < 1.0 then [Issue(EventIdInput, TooSmall)]
    else []
  }

  /** Length bounds checked on `s` itself. */
  function LengthIssues(s: string): (r: seq<Issue>)
    ensures r == [] <==> 2 <= |s| <= 100
    ensures forall i :: i in r ==> i.path == NameInput
  {
    if |s| < 2 then [Issue(NameInput, TooSmall)]
    else if |s| > 100 then [Issue(NameInput, TooBig)]
    else []
  }

  function NameIssues(v: JsonValue): (r: seq<Issue>)
    ensures r == [] <==> NameOk(v)
    ensures forall i :: i in r ==> i.path == NameInput
  {
    if !v.JString? then [Issue(NameInput, InvalidType)] else LengthIssues(Trim(v.s))
  }

  function NameIssuesAsWritten(v: JsonValue): (r: seq<Issue>)
    ensures r == [] <==> NameOkAsWritten(v)
    ensures forall i :: i in r ==> i.path == NameInput
  {
    if !v.JString? then [Issue(NameInput, InvalidType)] else LengthIssues(v.s)
  }

  /** The syntax check and the domain refinement both run on a string, so both can be reported. */
  function EmailIssues(v: JsonValue, isEmail: string -> bool): (r: seq<Issue>)
    ensures r == [] <==> EmailOk(v, isEmail)
    ensures forall i :: i in r ==> i.path == EmailInput
    ensures v.JString? && !EndsWith(v.s, DomainSuffix) ==> Issue(EmailInput, WrongDomain) in r
  {
    if !v.JString? then [Issue(EmailInput, InvalidType)]
    else
      var syntax := if isEmail(v.s) then [] else [Issue(EmailInput, InvalidEmail)];
      var domain := if EndsWith(v.s, DomainSuffix) then [] else [Issue(EmailInput, WrongDomain)];
      syntax + domain
  }

  /** Validation with the name trimmed before its length is checked. */
  function Validate(body: Body, isEmail: string -> bool): (r: Result<Submission, seq<Issue>>)
    ensures r.Success? <==>
      body.ObjectBody? && EventIdOk(body.eventId) && NameOk(body.name) && EmailOk(body.email, isEmail)
    ensures r.Success? ==>
      r.value == Submission(body.eventId.n, Trim(body.name.s), body.email.s)
    ensures r.Failure? ==> r.error != []
  {
    if !body.ObjectBody? then Failure([Issue(BodyInput, InvalidType)])
    else
      var issues := EventIdIssues(body.eventId) + NameIssues(body.name) + EmailIssues(body.email, isEmail);
      if issues == [] then Success(Submission(body.eventId.n, Trim(body.name.s), body.email.s))
      else Failure(issues)
  }

  /** Validation as the request schema is written: length bounds on the raw name, trimming afterwards. */
  function ValidateAsWritten(body: Body, isEmail: string -> bool): (r: Result<Submission, seq<Issue>>)
    ensures r.Success? <==>
      body.ObjectBody? && EventIdOk(body.eventId) && NameOkAsWritten(body.name) && EmailOk(body.email, isEmail)
    ensures r.Success? ==>
      r.value == Submission(body.eventId.n, Trim(body.name.s), body.email.s)
    ensures r.Failure? ==> r.error != []
  {
    if !body.ObjectBody? then Failure([Issue(BodyInput, InvalidType)])
    else
      var issues := EventIdIssues(body.eventId) + NameIssuesAsWritten(body.name) + EmailIssues(body.email, isEmail);
      if issues == [] then Success(Submission(body.eventId.n, Trim(body.name.s), body.email.s))
      else Failure(issues)
  }

  /** Every violated field is reported, not only the first one. */
  lemma ReportsEveryViolatedField(eventId: JsonValue, name: JsonValue, email: JsonValue, isEmail: string -> bool)
    ensures var r := Validate(ObjectBody(eventId, name, email), isEmail);
      && (!EventIdOk(eventId) ==> r.Failure? && exists i :: i in r.error && i.path == EventIdInput)
      && (!NameOk(name) ==> r.Failure? && exists i :: i in r.error && i.path == NameInput)
      && (!EmailOk(email, isEmail) ==> r.Failure? && exists i :: i in r.error && i.path == EmailInput)
      && (r.Failure? ==> forall i :: i in r.error ==>
            || (i.path == EventIdInput && !EventIdOk(eventId))
            || (i.path == NameInput && !NameOk(name))
            || (i.path == EmailInput && !EmailOk(email, isEmail)))
  {
    var a, b, c := EventIdIssues(eventId), NameIssues(name), EmailIssues(email, isEmail);
    assert a != [] ==> a[0] in a + b + c;
    assert b != [] ==> b[0] in a + b + c;
    assert c != [] ==> c[0] in a + b + c;
  }

  /** An e-mail outside the domain is always rejected with a domain error, whatever the other fields hold. */
  lemma ForeignDomainAlwaysRejected(eventId: JsonValue, name: JsonValue, email: string, isEmail: string -> bool)
    requires !EndsWith(email, DomainSuffix)
    ensures var r := Validate(ObjectBody(eventId, name, JString(email)), isEmail);
      r.Failure? && Issue(EmailInput, WrongDomain) in r.error
    ensures var r := ValidateAsWritten(ObjectBody(eventId, name, JString(email)), isEmail);
      r.Failure? && Issue(EmailInput, WrongDomain) in r.error
  {
    var e := EmailIssues(JString(email), isEmail);
    assert Issue(EmailInput, WrongDomain) in e;
    assert Issue(EmailInput, WrongDomain) in EventIdIssues(eventId) + NameIssues(name) + e;
    assert Issue(EmailInput, WrongDomain) in EventIdIssues(eventId) + NameIssuesAsWritten(name) + e;
  }

  /** The domain comparison is case-sensitive on the raw input: an upper-case domain is refused. */
  lemma UpperCaseDomainRejected(isEmail: string -> bool, eventId: JsonValue, name: JsonValue)
    ensures Validate(ObjectBody(eventId, name, JString("ann@SCHOOLS.NYC.GOV")), isEmail).Failure?
  {
    assert "ann@SCHOOLS.NYC.GOV"[3..][1] != DomainSuffix[1];
  }

  /**
   * An accepted submission always yields a storable registration: the
   * lower-cased e-mail keeps the domain and the trimmed name keeps its bounds.
   */
  lemma AcceptedSubmissionIsStorable(body: Body, isEmail: string -> bool)
    requires Validate(body, isEmail).Success?
    ensures var v := Validate(body, isEmail).value;
      Models.EmailAccepted(Lower(v.email)) && Models.NameAccepted(Trim(v.name))
  {
    var v := Validate(body, isEmail).value;
    var lowered := Lower(v.email);
    Models.DomainSuffixIsLower();
    LowerKeepsLowerSuffix(v.email, DomainSuffix);
    LowerIdempotent(v.email);
    assert Lower(lowered) == lowered;
    assert Models.EmailAccepted(lowered);
    TrimIdempotent(body.name.s);
  }

  /** As written, a one-letter name padded with a space passes validation and comes out one character long. */
  lemma PaddedShortNameAcceptedAsWritten(email: string, isEmail: string -> bool)
    requires isEmail(email) && EndsWith(email, DomainSuffix)
    ensures ValidateAsWritten(ObjectBody(JNumber(1.0), JString(" a"), JString(email)), isEmail)
         == Success(Submission(1.0, "a", email))
    ensures !Models.NameAccepted("a")
  {
    PaddedLetterTrimsToLetter();
  }

  lemma PaddedLetterTrimsToLetter()
    ensures Trim(" a") == "a" && Trim("a") == "a"
  {
    TrimOfTrimmed("a");
    assert " a"[1..] == "a";
    assert TrimStart(" a") == TrimStart("a");
  }
}
