# Graduation ceremony registration — a verified Dafny model

This project models the registration logic of a small web application. The
application lets staff of an organisation register for graduation ceremonies
("events"). It covers:

- **Who may register.** A request body is validated: `eventId` a number ≥ 1,
  `name` 2 to 100 characters and then trimmed, `email` a well-formed address
  ending in `@schools.nyc.gov`.
- **Admission.** Checks run in a fixed order:
  - the event must exist;
  - the same e-mail, in any letter case, must not already be registered for
    that event;
  - the event must have fewer than two registrations.
  On success exactly one record is appended, with the e-mail lower-cased and
  the name trimmed.
- **Two stores.**
  - The in-memory store (`MockDatabase.MockStore`) numbers its records 1, 2,
    3, … and limits every event.
  - The database-backed endpoint (`RegisterRoute`) exempts events 14 and 15
    from the limit.
  Both decide by `Admission.Check`, with a set of exempt event ids. For the
  endpoint this holds under either request schema: past validation it
  creates exactly when the decision admits and the trimmed name is storable,
  and it refuses with exactly the decision's reason.
- **Read side.**
  - Events listed with their registration counts and a fully-booked flag.
  - Registrations joined to a summary of their event, or to nothing when the
    id names no event.
  - Summary statistics and the per-event breakdown.
- **Small helpers.** The seeding script's cleaning of blank event fields, and
  the display helpers.

Modules, in dependency order:

- `Wrappers`: `Option` and `Result`.
- `Strings`: JavaScript `trim`, ASCII `toLowerCase`, `endsWith`, and decimal
  `toString` of the counter.
- `Domain`: the records and the constants: the domain suffix and the limit of 2.
- `Models`: the event and registration document schemas, their defaults and
  the unique indexes.
- `Validation`: the request schema.
- `Admission`: counting, lookup, the ordered admission decision and the store
  invariant.
- `Sorting`: a stable insertion sort by a key.
- `Aggregation`:
  - counts per event;
  - the group-by on event id;
  - the count table;
  - the statistics;
  - the event table and the join.
- `MockDatabase`: the in-memory store as a class.
- `RegisterRoute`: the registration endpoint. It is a pure decision plus a
  `Database` class whose `Register` method saves the record.
- `EventsRoute`, `RegistrationsRoute`: the two listing endpoints.
- `Seed`: the seeding script's cleaning step.
- `Utils`: the display helpers.

Three behaviours of the code worth knowing:

- The request schema checks the domain suffix on the raw e-mail, so letter case
  matters. It is not checked after lower-casing.
- `isFullyBooked` is `count >= 2` for every event, events 14 and 15 included.
- The order among registrations with equal time and groups with equal count is
  left open by the database. The model sorts stably, and no proved property
  depends on how ties are broken.

## Model

| member | source | states |
|---|---|---|
| `Strings.TrimStartIsSuffix` | src/lib/validations.ts:8 | dropping leading whitespace keeps a suffix of the input |
| `Strings.TrimEndIsPrefix` | src/lib/validations.ts:8 | dropping trailing whitespace keeps a prefix of the input |
| `Strings.TrimIsTrimmedSlice` | src/lib/validations.ts:8 | `trim` returns a slice of the input with no whitespace at either end, and only whitespace is removed around it |
| `Strings.TrimIdempotent` | src/lib/models/Registration.ts:31 | trimming an already trimmed name changes nothing |
| `Strings.TrimEmptyIffBlank` | scripts/seed.ts:25-29 | `s.trim() !== ''` holds exactly when `s` has a non-whitespace character |
| `Strings.LowerIdempotent` | src/lib/models/Registration.ts:20 | a lower-cased e-mail is lower case, so the lower-casing setter is idempotent |
| `Strings.EndsWithIffConcat` | src/lib/utils.ts:9 | `endsWith(suffix)` holds exactly when the string is some prefix followed by the suffix |
| `Strings.LowerKeepsLowerSuffix` | src/lib/models/Registration.ts:20-26 | lower-casing keeps a lower-case suffix such as the domain in place |
| `Strings.DecimalString` | src/lib/mockDatabase.ts:129 | `toString` of the counter is a non-empty string of decimal digits that ends in the counter's last digit |
| `Strings.DecimalStringInjective` | src/lib/mockDatabase.ts:129 | different counters give different string ids |
| `Models.Unsatisfied` | src/lib/models/Event.ts:19-34 | the reported fields are exactly the required fields the document fails |
| `Models.AllFieldsListed` | src/lib/models/Event.ts:20-31 | the list of required fields names every required field of the schema |
| `Models.EventFromDoc` | src/lib/models/Event.ts:19-34 | an event document is stored exactly when every required field is present and non-empty; the failure lists exactly the failing fields; stored fields are copied, and `address` and `raw_text` default to "" |
| `Models.RecordFor` | src/lib/models/Registration.ts:11-41 | a registration document is kept exactly when the lower-cased e-mail ends with the domain and the trimmed name has 2 to 100 characters; it stores exactly those normalised values and defaults `registeredAt` to now; the failure names exactly the failing fields |
| `Models.AcceptedRecordIsValid` | src/lib/models/Registration.ts:17-34 | every kept registration has a lower-case e-mail in the domain and a trimmed name of 2 to 100 characters |
| `Models.StoredFieldsValid` | src/lib/models/Registration.ts:20-33 | what the setters make of accepted input meets every field constraint |
| `Models.DomainSuffixIsLower` | src/lib/models/Registration.ts:20-23 | the domain suffix is lower case |
| `Models.AppendKeepsIndexUnique` | src/lib/models/Registration.ts:44 | inserting a record that does not clash keeps the (eventId, email) index unique |
| `Validation.EventIdIssues` | src/lib/validations.ts:4 | `eventId` is accepted exactly when it is a number of at least 1, integral or not |
| `Validation.LengthIssues` | src/lib/validations.ts:6-7 | a name is within bounds exactly when its length is 2 to 100 |
| `Validation.NameIssues` | src/lib/validations.ts:5-8 | the corrected name rule: a string whose trimmed length is 2 to 100 |
| `Validation.NameIssuesAsWritten` | src/lib/validations.ts:5-8 | the name rule as written: a string whose raw length is 2 to 100 |
| `Validation.EmailIssues` | src/lib/validations.ts:9-14 | `email` is accepted exactly when it is a string that passes the syntax check and ends with the domain; a foreign domain is reported as such |
| `Validation.Validate` | src/lib/validations.ts:3-15 | a body is accepted exactly when it is an object whose three fields pass; the accepted name is trimmed; a rejection carries at least one issue |
| `Validation.ValidateAsWritten` | src/lib/validations.ts:3-15 | the same, with the name's length checked before trimming |
| `Validation.ReportsEveryViolatedField` | src/lib/validations.ts:3-15 | every violated field is reported, and only violated fields are reported |
| `Validation.ForeignDomainAlwaysRejected` | src/lib/validations.ts:11-14 | an address outside the domain is rejected with the domain error whatever the other fields hold |
| `Validation.UpperCaseDomainRejected` | src/lib/validations.ts:12 | the suffix check is case-sensitive on the raw input |
| `Validation.AcceptedSubmissionIsStorable` | src/lib/validations.ts:5-14 | with the name trimmed before its length check, every accepted submission passes the registration schema |
| `Validation.PaddedShortNameAcceptedAsWritten` | src/lib/validations.ts:5-8 | as written, `" a"` is accepted and comes out as `"a"`, which the registration schema refuses |
| `Admission.CountFor` | src/lib/mockDatabase.ts:122 | the count of registrations for an event never exceeds the number of registrations |
| `Admission.CountIsNumberOfMatchingRecords` | src/lib/mockDatabase.ts:122 | the count equals the number of positions holding a registration for that id |
| `Admission.CountAppend` | src/lib/mockDatabase.ts:136 | appending a record raises only its own event's count, by one |
| `Admission.FindEvent` | src/lib/mockDatabase.ts:98 | `find` yields an event exactly when one has the id; it is the first event with that id |
| `Admission.FoundEventIsTheOne` | src/lib/models/Event.ts:20 | with unique ids, `find` returns the one event with the id |
| `Admission.ExactQueryIsCaseInsensitive` | src/app/api/register/route.ts:45-48 | with stored e-mails in lower case, the exact query on the lower-cased e-mail finds a registration exactly when one matches ignoring case |
| `Admission.Check` | src/lib/mockDatabase.ts:108-125 | an admitted request names a known event, is not yet registered, and finds a limited event below capacity |
| `Admission.CheckDecidesInOrder` | src/lib/mockDatabase.ts:108-125 | each refusal holds exactly when its own check fails and all earlier ones pass; admission holds exactly when all pass; exempt events are never full |
| `Admission.NewRecord` | src/lib/mockDatabase.ts:128-134 | the kept record has a lower-case e-mail equal to the input ignoring case, a trimmed name, and the given id, event and time |
| `Admission.AdmissionPreservesInvariant` | src/lib/mockDatabase.ts:108-137 | an admitted record keeps the store free of case-insensitive duplicates, keeps lower-case e-mails, keeps limited events at two or fewer, keeps every event reference known, and raises only its event's count |
| `Admission.AdmitOne` | src/lib/mockDatabase.ts:108-137 | one request: the verdict is the admission decision; the list grows by the new record exactly on admission, raising only that event's count, by one; the store invariant is kept |
| `Admission.AdmitEach` | src/lib/mockDatabase.ts:102-140 | successive requests yield one verdict per request |
| `Admission.FreshAfterAdmitting` | src/lib/mockDatabase.ts:114-119 | e-mails not yet registered stay unregistered after another e-mail is admitted |
| `Admission.StandardEventFillsUp` | src/lib/mockDatabase.ts:122-125 | for a limited event, fresh e-mails are admitted until the event holds two and refused as full afterwards |
| `Admission.ExemptEventTakesEveryone` | src/app/api/register/route.ts:61-63 | for an exempt event, every fresh e-mail is admitted and the count grows by their number |
| `Sorting.InsertKeepsSorted` | src/app/api/events/route.ts:19 | insertion into a sorted list keeps it sorted |
| `Sorting.SortBy` | src/app/api/events/route.ts:19 | the sort returns a sorted permutation of its input |
| `Sorting.SortKeepsElements` | src/app/api/registrations/route.ts:14-16 | sorting keeps exactly the elements it was given |
| `Aggregation.WithCount` | src/lib/mockDatabase.ts:82-89 | an event with its count is fully booked exactly at two or more |
| `Aggregation.EventsWithCounts` | src/lib/mockDatabase.ts:77-90 | one entry per event, in event order, each with that event's registration count |
| `Aggregation.EventCountsMatchRecords` | src/lib/mockDatabase.ts:82-89 | the counted view carries exactly the events, and each count is the number of matching records |
| `Aggregation.RegistrationsFor` | src/lib/mockDatabase.ts:156 | the filtered list holds exactly the registrations for the id, and as many as counted |
| `Aggregation.GroupFor` | src/lib/mockDatabase.ts:155-161 | a group's count is its list's length and the id's registration count |
| `Aggregation.EventGroups` | src/lib/mockDatabase.ts:155-162 | every group is its id's group, non-empty and for a known event; every event with registrations has its group |
| `Aggregation.GroupByEvent` | src/app/api/events/route.ts:23-30 | every group is its id's group with a positive count, and every registration's event has its group |
| `Aggregation.RegistrationsByEvent` | src/app/api/registrations/route.ts:50-61 | the group-by's groups, reordered, with counts in non-increasing order |
| `Aggregation.IdleEvents` | src/lib/mockDatabase.ts:152 | the events with no registration, exactly, and no more of them than events |
| `Aggregation.StatisticsOf` | src/lib/mockDatabase.ts:148-172 | the totals are the numbers of registrations and events; the events with registrations are the distinct registered ids; with those without they make up the events; no events gives average 0 |
| `Aggregation.NonEmpty` | src/lib/mockDatabase.ts:162 | the filter keeps exactly the groups with a positive count |
| `Aggregation.DistinctIds` | src/app/api/registrations/route.ts:50-57 | the group-by keys are distinct and are exactly the registered event ids |
| `Aggregation.SumOfNonEmpty` | src/lib/mockDatabase.ts:162 | dropping empty groups does not change the total |
| `Aggregation.SortKeepsDistinct` | src/app/api/registrations/route.ts:58-60 | sorting groups keeps their ids distinct |
| `Aggregation.RegistrationsByEventAccountsForAll` | src/app/api/registrations/route.ts:50-61 | the breakdown is sorted by count, largest first; ids are distinct; each group holds exactly its event's registrations; every registration is in its group; the counts add up to the number of registrations |
| `Aggregation.CountMap` | src/app/api/events/route.ts:33-37 | the table has a key exactly for each group id |
| `Aggregation.CountMapGivesCount` | src/app/api/events/route.ts:33-54 | looking an id up with default 0 gives its registration count |
| `Aggregation.CountPositiveIffRegistered` | src/lib/mockDatabase.ts:151 | an id has a positive count exactly when some registration names it |
| `Aggregation.Average` | src/app/api/registrations/route.ts:73 | the average is 0 without events, otherwise the quotient of registrations by events |
| `Aggregation.GroupsAreBookedEvents` | src/lib/mockDatabase.ts:155-162 | with unique event ids, the breakdown has one group per event with registrations |
| `Aggregation.GroupsAndIdlePartition` | src/lib/mockDatabase.ts:148-162 | each event has a group in the breakdown exactly when it is not among the idle events, and the two together number the events |
| `Aggregation.StatisticsAccountForEveryEvent` | src/lib/mockDatabase.ts:148-172 | with unique ids and known references, the total is the sum of the breakdown, the events with registrations are its groups, and the events without are the idle events, never negative |
| `Aggregation.EventMap` | src/app/api/registrations/route.ts:19-23 | the table has a key exactly for each event id, and maps it to an event with that id |
| `Aggregation.EventMapLastWins` | src/app/api/registrations/route.ts:20-23 | an event with no later event of the same id is the one the table holds for that id: the last `set` wins |
| `Aggregation.EventMapAgreesWithFind` | src/app/api/registrations/route.ts:19-23 | with unique ids, the table returns the event `find` returns |
| `Aggregation.JoinEvents` | src/app/api/registrations/route.ts:26-40 | one entry per registration in order, with an event exactly when its id is in the table |
| `Aggregation.JoinAttachesOwnEvent` | src/app/api/registrations/route.ts:26-40 | each registration carries its own event's seven display fields, or nothing exactly when no event has its id |
| `MockDatabase.FileEvents` | src/lib/mockDatabase.ts:12-74 | the file's events when it has an events array, otherwise three samples with unique ids stamped with the load time |
| `MockDatabase.MessageIdentifiesReason` | src/lib/mockDatabase.ts:108-126 | the three refusals are thrown with three different messages, so the message tells the reason |
| `MockDatabase.CreateStep` | src/lib/mockDatabase.ts:102-140 | an attempt succeeds exactly when the admission decision admits; the list grows by one record exactly on success and is otherwise unchanged; the counter rises with it |
| `MockDatabase.FallbackEvents` | src/lib/mockDatabase.ts:27-70 | the samples are three events with ids 1, 2 and 3, unique ids, stamped with the load time |
| `MockDatabase.LoadedEvents` | src/lib/mockDatabase.ts:78-80 | the events are loaded only when none are held |
| `MockDatabase.NumberedIdsAreDistinct` | src/lib/mockDatabase.ts:129-137 | records numbered by position have pairwise distinct ids |
| `MockDatabase.AppendKeepsNumbering` | src/lib/mockDatabase.ts:128-137 | appending the record numbered by the counter keeps the numbering |
| `MockDatabase.CreateStepKeepsStoreInvariant` | src/lib/mockDatabase.ts:102-140 | one registration attempt keeps the store invariant and known references, succeeds exactly when the admission decision admits, fails with that decision's reason otherwise, gives a success the id after the list's length, and changes the list as the admission model does |
| `MockDatabase.MockStore.constructor` | src/lib/mockDatabase.ts:7-9 | the store starts empty with the counter at 1, valid and consistent |
| `MockDatabase.MockStore.LoadEventsFromFile` | src/lib/mockDatabase.ts:12-74 | the events become the file's events or the samples; nothing else changes |
| `MockDatabase.MockStore.LoadIfEmpty` | src/lib/mockDatabase.ts:78-80 | the lazy load changes only an empty event list, and keeps every reference known |
| `MockDatabase.MockStore.GetAllEventsWithRegistrations` | src/lib/mockDatabase.ts:77-90 | after the lazy load, one counted entry per event, in order |
| `MockDatabase.MockStore.GetEventById` | src/lib/mockDatabase.ts:93-99 | after the lazy load, the first event with the id, as `find` returns it, and nothing exactly when no event has the id |
| `MockDatabase.MockStore.CreateRegistration` | src/lib/mockDatabase.ts:102-140 | it succeeds exactly when the admission decision admits, and otherwise fails with that decision's reason and changes nothing; a success appends the record with the old counter as id, lower-cased e-mail and trimmed name, and raises the counter by one; the store invariant and known references are kept |
| `MockDatabase.MockStore.Refusal` | src/lib/mockDatabase.ts:109-126 | the checks run in order on the held lists give exactly the admission decision |
| `MockDatabase.MockStore.AdmitFound` | src/lib/mockDatabase.ts:108-139 | once the event has been looked up, the outcome, the new list and the new counter are those of one registration attempt on the old list and counter; the events are untouched |
| `MockDatabase.MockStore.AllRegistrations` | src/lib/mockDatabase.ts:143-145 | the list has one record per counter value used, numbered in order, with lower-case e-mails |
| `MockDatabase.MockStore.RegistrationStatistics` | src/lib/mockDatabase.ts:148-172 | the statistics over the held lists, and a breakdown in event order of non-empty groups, each holding exactly its event's registrations |
| `MockDatabase.MockStore.ClearAllData` | src/lib/mockDatabase.ts:175-179 | both lists become empty and the counter 1 |
| `RegisterRoute.RefusalField` | src/app/api/register/route.ts:33-74 | a duplicate is reported against the e-mail, an unknown event and a full event against the event id |
| `RegisterRoute.Respond` | src/app/api/register/route.ts:13-111 | invalid input exactly when validation fails, carrying its issues; 500 when the store is unreachable; an unknown event exactly when connected and no event has the id; a creation only for a known event, a fresh lower-cased e-mail, and room unless the event is 14 or 15, with the store's id and time and no index clash |
| `RegisterRoute.RegisterResponse` | src/app/api/register/route.ts:8-113 | with the corrected schema, invalid input exactly when it rejects the body; 500 when the store is unreachable |
| `RegisterRoute.RegisterResponseAsWritten` | src/app/api/register/route.ts:8-113 | with the schema as written, invalid input exactly when it rejects the body; 500 when the store is unreachable |
| `RegisterRoute.CreatedKeepsAdmission` | src/app/api/register/route.ts:32-85 | a 200 answer keeps the store free of duplicates and every event but 14 and 15 at two or fewer |
| `RegisterRoute.Status` | src/app/api/register/route.ts:15-111 | 200 exactly on creation, 400 on invalid input, 404 for an unknown event, 409 for a duplicate or a full event, 500 on a server error |
| `RegisterRoute.SavedRecordIsNormalised` | src/app/api/register/route.ts:78-83 | the saved document is the admission record: e-mail lower-cased and name trimmed once, whichever of the route and the setters apply them |
| `RegisterRoute.AcceptedSubmissionIsSaved` | src/app/api/register/route.ts:78-98 | a storable submission never yields 500 while connected, and a creation returns the normalised record |
| `RegisterRoute.ConnectedHandlerNeverFails` | src/app/api/register/route.ts:13-98 | with the corrected schema and a reachable store, the endpoint never answers 500, and a created record is the normalised submission |
| `RegisterRoute.HandlerDecidesLikeAdmission` | src/app/api/register/route.ts:32-75 | with lower-case stored e-mails, the endpoint creates exactly when the admission decision with 14 and 15 exempt admits, and refuses with exactly its reason |
| `RegisterRoute.RespondDecidesLikeAdmission` | src/app/api/register/route.ts:27-98 | for a validated submission in the domain and lower-case stored e-mails: created exactly when the admission decision with 14 and 15 exempt admits and the trimmed name is storable, with the normalised record; refused exactly when the decision refuses, with its reason; 500 exactly when an admitted name is not storable |
| `RegisterRoute.HandlerDecidesLikeAdmissionAsWritten` | src/app/api/register/route.ts:8-113 | the endpoint as written, past validation: the same decision, so the two 409 answers and the 404 come exactly from the admission decision's reasons, and a 500 only from an admitted name the store rejects |
| `RegisterRoute.CreatedKeepsCapacity` | src/app/api/register/route.ts:61-85 | a created registration keeps the invariant with 14 and 15 exempt, so no other event exceeds two, and raises only its event's count |
| `RegisterRoute.PaddedShortNameGives500AsWritten` | src/app/api/register/route.ts:13-111 | as written, a valid request named `" a"` gets 500; with the corrected schema it gets 400 |
| `RegisterRoute.SaveKeepsStoreValid` | src/lib/models/Registration.ts:11-44 | saving an accepted, non-clashing document keeps unique event ids, valid records and the unique index |
| `RegisterRoute.CreatedKeepsStoreValid` | src/app/api/register/route.ts:78-85 | a 200 answer saves a document that keeps the store's constraints |
| `RegisterRoute.Database.constructor` | src/lib/models/Event.ts:20 | a store with uniquely numbered events and no registrations is valid |
| `RegisterRoute.Database.Register` | src/app/api/register/route.ts:8-113 | the answer is the endpoint's decision as written (so a padded one-letter name gets 500) on the state before the call; the registration is appended exactly on 200; events are untouched; the store's constraints, including at most two registrations for every event but 14 and 15, are kept |
| `EventsRoute.Entry` | src/app/api/events/route.ts:40-55 | the entry is the event with its looked-up count (0 when absent), fully booked exactly at two or more |
| `EventsRoute.Events` | src/app/api/events/route.ts:10-75 | the error response exactly when the store is unreachable; otherwise one entry per event |
| `EventsRoute.ListingCountsEveryEvent` | src/app/api/events/route.ts:10-75 | a reachable store gives one entry per event, in ascending id order, a permutation of the events; each count is that event's registrations (0 when none); fully booked exactly at two or more; otherwise the 500 response |
| `EventsRoute.GroupedCountsCoverRegistrations` | src/app/api/events/route.ts:23-30 | the grouped counts have distinct ids and positive counts equal to each id's registrations; every registration falls under its id; they add up to the number of registrations |
| `RegistrationsRoute.DistinctHasNoRepeats` | src/app/api/registrations/route.ts:44 | a list without repeats has as many distinct elements as entries |
| `RegistrationsRoute.GroupsPerRegisteredEvent` | src/app/api/registrations/route.ts:44-61 | the breakdown has one group per distinct registered event id |
| `RegistrationsRoute.DatabaseListing` | src/app/api/registrations/route.ts:14-75 | the database listing is marked as such and holds one entry per registration |
| `RegistrationsRoute.NewestFirstJoin` | src/app/api/registrations/route.ts:14-40 | the newest-first sort joined to the event table is a permutation of the registrations, ordered by time, each with the summary of an event with its id or nothing exactly when none exists |
| `RegistrationsRoute.JoinedSummariesFromEvents` | src/app/api/registrations/route.ts:26-40 | with unique event ids, each joined registration carries the summary of an event with its id, or nothing exactly when no event has it |
| `RegistrationsRoute.DatabaseListingJoinsEvents` | src/app/api/registrations/route.ts:14-40 | the listing is a permutation of the registrations, newest first, each with the summary of an event with its id, or nothing exactly when none exists |
| `RegistrationsRoute.DatabaseListingStatistics` | src/app/api/registrations/route.ts:43-73 | the total is the number of registrations and the breakdown's sum; the events with registrations are the distinct ids, one group each; the rest are the events without; the average is guarded |
| `RegistrationsRoute.MockListing` | src/app/api/registrations/route.ts:83-119 | the store's registrations, joined against the events after the lazy load, with the statistics and breakdown taken before it; only the lazy load changes the store |
| `RegistrationsRoute.ListRegistrations` | src/app/api/registrations/route.ts:7-120 | the database listing when reachable, with the in-memory store untouched; otherwise the in-memory listing: its registrations, the statistics and breakdown over the events held before the lazy load, and the store's events after that load |
| `RegistrationsRoute.MockStatisticsMatchLoadedEvents` | src/app/api/registrations/route.ts:84-85 | once a registration for a known event exists, the lazy load changes nothing, and the events without registrations are the idle events |
| `Seed.PlaceholderIsFilled` | scripts/seed.ts:25-29 | the placeholder `N/A` is not blank |
| `Seed.CleanField` | scripts/seed.ts:25-29 | a present, non-blank field is kept unchanged and untrimmed; any other becomes `N/A`; the result is always filled |
| `Seed.CleanEvent` | scripts/seed.ts:23-30 | the five display fields are filled afterwards and the id is kept |
| `Seed.CleanEvents` | scripts/seed.ts:18-30 | a file without an events array is an error; otherwise one cleaned event per input event, in order |
| `Seed.CleanEventFillsDisplayFields` | scripts/seed.ts:23-30 | the five display fields are kept or replaced and then meet the schema's `required` rule; every other field is copied |
| `Seed.CleanEventIdempotent` | scripts/seed.ts:25-29 | cleaning a cleaned event changes nothing |
| `Seed.CleanEventsIdempotent` | scripts/seed.ts:23-30 | cleaning a cleaned list changes nothing |
| `Utils.ValidateEmail` | src/lib/utils.ts:8-10 | true exactly when the address is some local part followed by the domain suffix |
| `Utils.FormatDate` | src/lib/utils.ts:12-15 | the date is returned unchanged |
| `Utils.FormatTime` | src/lib/utils.ts:17-20 | the time is returned unchanged |
| `Utils.FormatLocation` | src/lib/utils.ts:22-25 | no line feed remains; the result is one character longer per line feed; a location without line feeds is unchanged |
| `Utils.FormatLocationAppend` | src/lib/utils.ts:24 | the replacement works part by part over a concatenation |
| `Utils.FormatLocationIdempotent` | src/lib/utils.ts:24 | formatting twice is formatting once |
| `Utils.TruncateText` | src/lib/utils.ts:27-30 | a text within the limit is unchanged; a longer one ends in `...`; for a limit ≥ 0 it is the first `maxLength` characters and has length `maxLength + 3`; a negative limit gives `...` |
| `Utils.TruncatedIsPrefixWithEllipsis` | src/lib/utils.ts:27-30 | a truncation is the text itself or the text's first `maxLength` characters followed by `...`, never longer than the limit plus three |

## Left out

- File and database I/O are not modelled: reading and parsing the events file,
  connecting, and the queries themselves. The stores are sequences. The file's
  contents are a parameter (`None` for a missing file or one without an events
  array). Reachability of the database is a boolean parameter. A file whose
  JSON does not parse makes the loader throw; that path is not modelled.
- The endpoint's JSON parsing of the request body is not modelled. A body that
  is not JSON makes the endpoint answer 500; the model starts from the parsed
  value.
- The response wrapping (`NextResponse`, messages, the `success`/`source`
  flags) is not modelled. Each endpoint's answer is a datatype. The messages of
  the in-memory store's refusals are `MockDatabase.Message`.
- Concurrency is not modelled: one request runs at a time, so the race
  between the duplicate and capacity checks and the save is outside the model.
  The unique index, and so `RegisterRoute.SaveKeepsStoreValid`, stands where
  that race would surface.
- Clocks and identifiers are parameters: `now` for `new Date()` and `objectId`
  for the database's generated id. Timestamps are natural numbers.
- `Aggregation.Average`: the average is the exact quotient. The two-decimal
  rounding of `toFixed(2)` is floating-point formatting and is not modelled;
  neither is the in-memory store returning the string `'0'` rather than the
  number 0 when there are no events.
- Zod's e-mail syntax check is an uninterpreted predicate `isEmail`. It is
  library behaviour.
- Lower-casing is ASCII only, and lengths count code points, not UTF-16 units.
  Non-ASCII case mapping and surrogate pairs are not modelled.
- The request schema is modelled on JSON values. The finer kinds of a
  non-number or non-string field (null, boolean, array, object, absent) are
  one case.
- `Seed.CleanField`: a field holding a non-string truthy value (a number, say)
  makes the script throw on `trim`. This is not modelled; fields are strings or
  absent.
- The seeding script's deletion, insertion and count, and the seed endpoint,
  are database plumbing and are not modelled.
- The user interface files are not modelled: the pages, the form and the event
  card, including the CSV export. `cn` in `src/lib/utils.ts` only merges class
  names and is not modelled either.
- `RegisterRoute.Database.Register` delegates the decision to the pure
  `RegisterRoute.Respond` instead of repeating each check as a statement. The
  order of the checks is proved about `Respond` for any validated submission
  (`RegisterRoute.RespondDecidesLikeAdmission`), and so for the endpoint as
  written (`RegisterRoute.HandlerDecidesLikeAdmissionAsWritten`) and with the
  corrected schema (`RegisterRoute.HandlerDecidesLikeAdmission`). It validates
  with the schema as written, so it keeps the 500 answer to a padded
  one-letter name.
- `Utils.TruncateText`: the limit is an integer. A fractional JavaScript limit,
  which `substring` truncates toward zero, is not modelled.
- `Sorting.SortBy` is stable. The database's order among equal keys is
  unspecified, so nothing proved depends on it.
- `mongodb.ts` (the connection helper) is not part of this model.

## Findings

| source | as written | input that shows it | evidently intended | confidence | as-written member | corrected member |
|---|---|---|---|---|---|---|
| src/lib/validations.ts:5-8 | the name's length bounds are checked on the raw input, before `.trim()` runs | name `" a"` with a valid event and e-mail: the schema accepts it, the trimmed `"a"` fails the registration schema's `minlength: 2` on save, and the endpoint answers 500 | the bounds apply to the trimmed name, so the request is refused with 400 | high (not executed) | `Validation.PaddedShortNameAcceptedAsWritten`, `RegisterRoute.PaddedShortNameGives500AsWritten` | `Validation.AcceptedSubmissionIsStorable`, `RegisterRoute.ConnectedHandlerNeverFails` |

`RegisterRoute.Database.Register` and `RegisterRoute.RegisterResponseAsWritten`
use the schema as written (`Validation.ValidateAsWritten`), as the endpoint
does. The corrected schema (`Validation.Validate`) is the one
`RegisterRoute.RegisterResponse` and the lemmas about the intended behaviour
use.
