/**
 * The stored-record schemas: what the document store demands of an event and
 * of a registration before it keeps them, the defaults it fills in, and the
 * unique indexes it maintains.
 */
module Models {
  import opened Wrappers
  import opened Strings
  import opened Domain

  // ---------------------------------------------------------------- events

  /** An event document as submitted for storage; `None` is an absent (undefined) field. */
  datatype EventDoc = EventDoc(
    id: Option<EventId>,
    schoolNumber: Option<string>,
    principal: Option<string>,
    date: Option<string>,
    time: Option<string>,
    location: Option<string>,
    address: Option<string>,
    ceremonyType: Option<string>,
    title: Option<string>,
    year: Option<string>,
    rawText: Option<string>,
    extractedAt: Option<string>)

  /** The event fields the schema marks as required. */
  datatype EventField =
    | IdField | SchoolNumberField | PrincipalField | DateField | TimeField
    | LocationField | CeremonyTypeField | TitleField | YearField | ExtractedAtField

  /** The required fields, in schema order. */
  const RequiredEventFields: seq<EventField> := [
    IdField, SchoolNumberField, PrincipalField, DateField, TimeField,
    LocationField, CeremonyTypeField, TitleField, YearField, ExtractedAtField]

  /** A required string is present and non-empty (the store's `required` check on strings rejects ""). */
  predicate PresentText(f: Option<string>) {
    f.Some? && f.value != ""
  }

  /** Whether the document meets the `required` rule for one field. */
  predicate Satisfies(d: EventDoc, f: EventField) {
    match f
    case IdField => d.id.Some?
    case SchoolNumberField => PresentText(d.schoolNumber)
    case PrincipalField => PresentText(d.principal)
    case DateField => PresentText(d.date)
    case TimeField => PresentText(d.time)
    case LocationField => PresentText(d.location)
    case CeremonyTypeField => PresentText(d.ceremonyType)
    case TitleField => PresentText(d.title)
    case YearField => PresentText(d.year)
    case ExtractedAtField => PresentText(d.extractedAt)
  }

  /** The fields of `fields` that `d` fails, in order. */
  function Unsatisfied(d: EventDoc, fields: seq<EventField>): (r: seq<EventField>)
    ensures forall f :: f in r <==> f in fields && !Satisfies(d, f)
  {
    if fields == [] then []
    else (if Satisfies(d, fields[0]) then [] else [fields[0]]) + Unsatisfied(d, fields[1..])
  }

  /** The list of required fields names every field. */
  lemma AllFieldsListed(f: EventField)
    ensures f in RequiredEventFields
  {
    match f
    case IdField => assert RequiredEventFields[0] == f;
    case SchoolNumberField => assert RequiredEventFields[1] == f;
    case PrincipalField => assert RequiredEventFields[2] == f;
    case DateField => assert RequiredEventFields[3] == f;
    case TimeField => assert RequiredEventFields[4] == f;
    case LocationField => assert RequiredEventFields[5] == f;
    case CeremonyTypeField => assert RequiredEventFields[6] == f;
    case TitleField => assert RequiredEventFields[7] == f;
    case YearField => assert RequiredEventFields[8] == f;
    case ExtractedAtField => assert RequiredEventFields[9] == f;
  }

  /** A string field with the schema default "" for an absent value. */
  function WithDefault(f: Option<string>): string {
    if f.Some? then f.value else ""
  }

  /**
   * Storing an event document: every required field must be present, and the
   * two optional fields `address` and `raw_text` default to "". The failure lists
   * every violated field.
   */
  function EventFromDoc(d: EventDoc): (r: Result<Event, seq<EventField>>)
    ensures r.Success? <==> forall f :: Satisfies(d, f)
    ensures r.Failure? ==> r.error != [] && forall f :: f in r.error <==> !Satisfies(d, f)
    ensures r.Success? ==>
      && Some(r.value.id) == d.id
      && Some(r.value.schoolNumber) == d.schoolNumber && Some(r.value.principal) == d.principal
      && Some(r.value.date) == d.date && Some(r.value.time) == d.time
      && Some(r.value.location) == d.location && Some(r.value.ceremonyType) == d.ceremonyType
      && Some(r.value.title) == d.title && Some(r.value.year) == d.year
      && Some(r.value.extractedAt) == d.extractedAt
    ensures r.Success? ==> r.value.address == (if d.address.Some? then d.address.value else "")
    ensures r.Success? ==> r.value.rawText == (if d.rawText.Some? then d.rawText.value else "")
  {
    var missing := Unsatisfied(d, RequiredEventFields);
    assert forall f :: f in missing <==> !Satisfies(d, f) by {
      forall f ensures f in RequiredEventFields { AllFieldsListed(f); }
    }
    if missing == [] then
      assert Satisfies(d, IdField) && Satisfies(d, SchoolNumberField) && Satisfies(d, PrincipalField);
      assert Satisfies(d, DateField) && Satisfies(d, TimeField) && Satisfies(d, LocationField);
      assert Satisfies(d, CeremonyTypeField) && Satisfies(d, TitleField) && Satisfies(d, YearField);
      assert Satisfies(d, ExtractedAtField);
      Success(Event(
        d.id.value, d.schoolNumber.value, d.principal.value, d.date.value, d.time.value,
        d.location.value, WithDefault(d.address), d.ceremonyType.value, d.title.value,
        d.year.value, WithDefault(d.rawText), d.extractedAt.value))
    else
      assert !Satisfies(d, missing[0]);
      Failure(missing)
  }

  // --------------------------------------------------------- registrations

  /** The registration fields the schema validates. */
  datatype RegistrationField = StoredEmail | StoredName

  /** The store's constraints on a kept registration: lower-case e-mail in the domain, trimmed name of 2 to 100 characters. */
  predicate ValidRecord(r: Registration) {
    && IsLower(r.email)
    && EndsWith(r.email, DomainSuffix)
    && IsTrimmed(r.name)
    && 2 <= |r.name| <= 100
  }

  /** The e-mail rule, applied after the lower-casing setter. */
  predicate EmailAccepted(email: string) {
    EndsWith(Lower(email), DomainSuffix)
  }

  /** The name rules, applied after the trimming setter. */
  predicate NameAccepted(name: string) {
    2 <= |Trim(name)| <= 100
  }

  /**
   * Building a registration document: the setters lower-case the e-mail and
   * trim the name, `registeredAt` defaults to the current time, and the
   * validators then check the domain suffix and the name length. The failure
   * names every violated field.
   */
  function RecordFor(id: string, eventId: EventId, email: string, name: string,
                     registeredAt: Option<nat>, now: nat): (r: Result<Registration, seq<RegistrationField>>)
    ensures r.Success? <==> EmailAccepted(email) && NameAccepted(name)
    ensures r.Success? ==>
      && r.value.id == id && r.value.eventId == eventId
      && r.value.email == Lower(email) && r.value.name == Trim(name)
      && r.value.registeredAt == (if registeredAt.Some? then registeredAt.value else now)
    ensures r.Failure? ==> (StoredEmail in r.error <==> !EmailAccepted(email))
    ensures r.Failure? ==> (StoredName in r.error <==> !NameAccepted(name))
  {
    var emailOk, nameOk := EmailAccepted(email), NameAccepted(name);
    if emailOk && nameOk then
      Success(Registration(id, eventId, Lower(email), Trim(name),
                           if registeredAt.Some? then registeredAt.value else now))
    else if !emailOk && !nameOk then Failure([StoredEmail, StoredName])
    else if !emailOk then Failure([StoredEmail])
    else Failure([StoredName])
  }

  /** The domain suffix is already lower case, so lower-casing an address never removes it. */
  lemma DomainSuffixIsLower()
    ensures IsLower(DomainSuffix)
  {
    NoUpperIsLower(DomainSuffix);
  }

  /** Whatever the schema accepts meets the stored-record constraints. */
  lemma AcceptedRecordIsValid(id: string, eventId: EventId, email: string, name: string,
                              registeredAt: Option<nat>, now: nat)
    requires RecordFor(id, eventId, email, name, registeredAt, now).Success?
    ensures ValidRecord(RecordFor(id, eventId, email, name, registeredAt, now).value)
  {
    StoredFieldsValid(email, name);
  }

  /** What the setters produce from accepted input meets the stored-record constraints. */
  lemma StoredFieldsValid(email: string, name: string)
    requires EmailAccepted(email) && NameAccepted(name)
    ensures IsLower(Lower(email)) && EndsWith(Lower(email), DomainSuffix)
    ensures IsTrimmed(Trim(name)) && 2 <= |Trim(name)| <= 100
  {
    LowerIdempotent(email);
    TrimResultIsTrimmed(name);
  }

  /** The unique compound index on (eventId, email). */
  ghost predicate UniqueIndex(regs: seq<Registration>) {
    forall i, j :: 0 <= i < j < |regs| ==> !(regs[i].eventId == regs[j].eventId && regs[i].email == regs[j].email)
  }

  /** Whether inserting `r` would violate the unique index. */
  predicate IndexClash(regs: seq<Registration>, r: Registration) {
    exists i :: 0 <= i < |regs| && regs[i].eventId == r.eventId && regs[i].email == r.email
  }

  /** Appending a record that does not clash keeps the index unique. */
  lemma AppendKeepsIndexUnique(regs: seq<Registration>, r: Registration)
    requires UniqueIndex(regs) && !IndexClash(regs, r)
    ensures UniqueIndex(regs + [r])
  {
  }
}
