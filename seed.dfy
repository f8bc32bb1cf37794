/**
 * The seeding script's cleaning step: the events file must hold an `events`
 * array, and in each event the five display fields that are missing or blank
 * are replaced by the placeholder "N/A" before the events are stored.
 */
module Seed {
  import opened Wrappers
  import opened Strings
  import opened Models

  /** The placeholder written into a missing or blank field. */
  const Placeholder: string := "N/A"

  /** The parsed file: `None` when it has no `events` field or the field is not an array. */
  datatype SeedFile = SeedFile(events: Option<seq<EventDoc>>)

  /** A field counts as filled when it is present and not blank after trimming. */
  predicate Filled(f: Option<string>) {
    f.Some? && Trim(f.value) != ""
  }

  /** The placeholder is not blank. */
  lemma PlaceholderIsFilled()
    ensures Filled(Some(Placeholder))
  {
    TrimEmptyIffBlank(Placeholder);
    assert !IsWhitespace(Placeholder[0]);
  }

  /** A filled field is kept as it is (untrimmed); any other becomes the placeholder. */
  function CleanField(f: Option<string>): (r: Option<string>)
    ensures Filled(r) && PresentText(r)
    ensures Filled(f) ==> r == f
    ensures !Filled(f) ==> r == Some(Placeholder)
  {
    PlaceholderIsFilled();
    if Filled(f) then f else Some(Placeholder)
  }

  /** One event with its school number, time, principal, location and date cleaned. */
  function CleanEvent(d: EventDoc): (r: EventDoc)
    ensures Filled(r.schoolNumber) && Filled(r.principal) && Filled(r.date) && Filled(r.time) && Filled(r.location)
    ensures r.id == d.id
  {
    d.(schoolNumber := CleanField(d.schoolNumber),
       time := CleanField(d.time),
       principal := CleanField(d.principal),
       location := CleanField(d.location),
       date := CleanField(d.date))
  }

  /** The cleaning step: an error when the file has no events array, otherwise every event cleaned, in order. */
  function CleanEvents(file: SeedFile): (r: Result<seq<EventDoc>, string>)
    ensures r.Failure? <==> file.events.None?
    ensures r.Failure? ==> r.error == "Invalid events data format"
    ensures r.Success? ==> |r.value| == |file.events.value|
    ensures r.Success? ==> forall i :: 0 <= i < |r.value| ==> r.value[i] == CleanEvent(file.events.value[i])
  {
    match file.events
    case None => Failure("Invalid events data format")
    case Some(docs) => Success(seq(|docs|, i requires 0 <= i < |docs| => CleanEvent(docs[i])))
  }

  /** `after` is `before` when that was filled, and the placeholder otherwise. */
  predicate KeptOrPlaceholder(before: Option<string>, after: Option<string>) {
    if Filled(before) then after == before else after == Some(Placeholder)
  }

  /**
   * Cleaning touches only the five display fields: each is kept when filled and
   * becomes the placeholder otherwise; afterwards all five are filled, so they
   * meet the store's `required` rule; every other field is copied unchanged.
   */
  lemma CleanEventFillsDisplayFields(d: EventDoc)
    ensures var c := CleanEvent(d);
      && Filled(c.schoolNumber) && Filled(c.time) && Filled(c.principal)
      && Filled(c.location) && Filled(c.date)
      && Satisfies(c, SchoolNumberField) && Satisfies(c, TimeField) && Satisfies(c, PrincipalField)
      && Satisfies(c, LocationField) && Satisfies(c, DateField)
      && KeptOrPlaceholder(d.schoolNumber, c.schoolNumber) && KeptOrPlaceholder(d.time, c.time)
      && KeptOrPlaceholder(d.principal, c.principal) && KeptOrPlaceholder(d.location, c.location)
      && KeptOrPlaceholder(d.date, c.date)
      && c.id == d.id && c.address == d.address && c.ceremonyType == d.ceremonyType
      && c.title == d.title && c.year == d.year && c.rawText == d.rawText
      && c.extractedAt == d.extractedAt
  {
  }

  /** Cleaning an already cleaned event changes nothing. */
  lemma CleanEventIdempotent(d: EventDoc)
    ensures CleanEvent(CleanEvent(d)) == CleanEvent(d)
  {
  }

  /** Cleaning an already cleaned file changes nothing. */
  lemma CleanEventsIdempotent(file: SeedFile)
    requires file.events.Some?
    ensures var once := CleanEvents(file);
      once.Success? && CleanEvents(SeedFile(Some(once.value))) == once
  {
    var once := CleanEvents(file).value;
    var twice := CleanEvents(SeedFile(Some(once))).value;
    forall i | 0 <= i < |once| ensures twice[i] == once[i] {
      CleanEventIdempotent(file.events.value[i]);
    }
    assert twice == once;
  }
}
