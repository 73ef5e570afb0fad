# Gym CRM backend: attendance state machine and member directory

A Dafny model of the core of a small gym-management backend. Two collections
are modelled in memory:

- the **member directory**: member documents keyed by a human-facing `gymId`,
  created through a presence check, a plan table (price and length in months)
  and the max+1 gymId rule, and deleted by internal id;
- the **attendance ledger**: check-in and check-out records per `gymId`, with
  one open session (no `checkOut`) per gymId at a time, and three reads
  (everything, one member's records, the records of one day).

Modules, one per source file:

| module | file | models |
|---|---|---|
| `Wrappers` | `wrappers.dfy` | `Option`, `Result` |
| `MemberModel` | `member_model.dfy` | `models/member.js`: the `Member` document, the `membershipType` enum, the `trim`/`lowercase` setters, the defaults, the `required` validators and the `unique` indexes |
| `MemberRoutes` | `member_routes.dfy` | `routes/members.js`: the plan table, `getNextGymId`, and the `Directory` class with list, create and delete |
| `AttendanceRoutes` | `attendance_routes.dfy` | `routes/attendance.js`: the `Attendance` record, the `Ledger` class with check-in, check-out and the listings, and the day-window search |
| `Scenarios` | `scenarios.dfy` | call sequences on a fresh gym, proved from the contracts above |

Each HTTP handler becomes a method or a function returning a `Result`; status
codes become error constructors (`MissingField` and `InvalidMembershipType`
are the 400s of the create handler, `StoreRejected` is its 500 when `save()`
fails, `NotFound`, `AlreadyCheckedIn`, `NoActiveCheckIn` and `InvalidDate` are
the handlers' 404/400 answers). The store's document id is an abstract `key`
drawn from a counter. The clock is a parameter: member dates are `Instant`s
(a month index and an offset into the month, so that adding months is month
arithmetic), attendance timestamps are integer milliseconds with a day of
86 400 000 ms. `new Date(dateString)` is a parameter `parse` that returns
`None` where the source sees `NaN`.

Behaviour that follows from the code and that the model makes explicit:

- A name made only of whitespace passes the handler's presence check, is
  trimmed to the empty string by the schema setter and then fails the
  `required` validator inside `save()`, so the create ends in the catch-all
  500 (`StoreRejected`), not in a 400. Duplicate emails (compared after
  lowercasing) and duplicate phones end the same way through the unique
  indexes.
- gymIds are not monotonic across deletions: the rule is max+1, not a
  counter, so after the member with the largest gymId is deleted the next
  member receives the same gymId, inherits the old attendance records, and is
  refused check-in if the deleted member left a session open
  (`Scenarios.DeletedGymIdIsReused`).
- Check-in does not look at the membership's expiry date; it only reports it.

## Model

| member | source | states |
|---|---|---|
| `MemberModel.ParseMembershipType` | models/member.js:10-14 | the enum accepts exactly the three strings Monthly, Quarterly, Yearly, and the accepted value spells the input back |
| `MemberModel.TypeNameRoundTrip` | models/member.js:10-14 | every enum value is accepted under its own name |
| `MemberModel.Trim` | models/member.js:4 | the stored name is a contiguous slice of the input with only whitespace before and after it, has no whitespace at either end, and is empty exactly when the input is whitespace only |
| `MemberModel.TrimIdempotent` | models/member.js:4 | trimming a trimmed name changes nothing |
| `MemberModel.Lower` | models/member.js:5 | the stored email has the input's length, each character lowered, and no upper-case letter |
| `MemberModel.LowerFixesLowercase` | models/member.js:5 | an email without upper-case letters is stored unchanged |
| `MemberModel.LowerIdempotent` | models/member.js:5 | lowering a lowered email changes nothing |
| `MemberModel.NewMember` | models/member.js:3-21 | a new document stores the trimmed name and the lowercased email, `isActive` true and `startDate` now, the other fields as given; it passes the required validators exactly when the name is not all whitespace and email, phone and address are non-empty |
| `MemberModel.ValidMember` | models/member.js:4-7 | the `required` validators on the string fields: name, email, phone and address are non-empty (membershipType, expiryDate and price are present by construction) |
| `MemberModel.UniqueFields` | models/member.js:5-16 | the `unique` indexes together with the internal id: no two stored documents share an id, gymId, email or phone |
| `MemberModel.Accepts` | routes/members.js:58 | `save()` succeeds exactly when the document passes the validators and clashes with no stored document on a unique field |
| `MemberModel.AcceptedKeepsValid` | models/member.js:4-16 | adding a document that passes validation and clashes on no unique field (id, gymId, email, phone) keeps the whole collection valid and unique |
| `MemberModel.RemovalKeepsValid` | models/member.js:4-16 | removing any one document keeps the collection valid and unique, and leaves exactly the documents whose internal id differs from the removed one's |
| `MemberModel.EmailsDifferIgnoringCase` | models/member.js:5 | in a valid collection no two members' emails are equal after lowercasing, so email is unique ignoring case |
| `MemberRoutes.PlanOf` | routes/members.js:31-35 | the plan table: Monthly 999 for 1 month, Quarterly 2499 for 3, Yearly 8999 for 12; every plan has a positive price and at least one month |
| `MemberRoutes.AddMonths` | routes/members.js:44-45 | `setMonth(getMonth() + k)`: adding a positive number of months gives a later instant, a negative number an earlier one, zero the same instant |
| `MemberRoutes.AddMonthsUndo` | routes/members.js:44-45 | going k months forward and then k months back returns to the starting instant |
| `MemberRoutes.ExpiryAfterStart` | routes/members.js:44-45 | a document built with its plan's price and expiry expires strictly after it starts |
| `MemberRoutes.StoredMembershipsExpireAfterStart` | routes/members.js:43-58 | in a directory that keeps its invariant, every stored membership expires strictly after it starts |
| `MemberRoutes.AllPresent` | routes/members.js:26 | the presence check: every one of the five fields is given and non-empty |
| `MemberRoutes.LookupPlan` | routes/members.js:31-41 | the plan table has a plan exactly for the names the enum accepts: Monthly 999 for 1 month, Quarterly 2499 for 3, Yearly 8999 for 12 |
| `MemberRoutes.PlansArePositive` | routes/members.js:31-35 | every membership type finds its own plan under its name, with a positive price and at least one month |
| `MemberRoutes.NextGymId` | routes/members.js:16-19 | the next gymId is 101 on an empty collection, otherwise one more than some stored gymId, and greater than every stored gymId |
| `MemberRoutes.NextGymIdAfterAppend` | routes/members.js:17-18 | after appending the member that received the next gymId g, the next gymId is g + 1, so successive creates assign strictly increasing gymIds |
| `MemberRoutes.NextGymIdAfterRemoval` | routes/members.js:17-18 | removing a member never raises the next gymId (when all gymIds are at least 100) |
| `MemberRoutes.IndexOfKey` | routes/members.js:70 | finds the first document with the given internal id, or reports that none has it |
| `MemberRoutes.Candidate` | routes/members.js:31-56 | the document the create handler builds stores the trimmed name, the lowercased email, phone and address as given, and carries the next gymId, the requested type, the plan's price, an expiry the plan's months after now, and the schema's normalisation and defaults |
| `MemberRoutes.CandidateGymIdIsFresh` | routes/members.js:43 | the new gymId exceeds every stored gymId, so the gymId index never rejects a create |
| `MemberRoutes.Directory.ListMembers` | routes/members.js:6-13 | returns the whole collection |
| `MemberRoutes.Directory.CreateMember` | routes/members.js:22-65 | a missing or empty field gives MissingField and an unknown type InvalidMembershipType, both with the collection unchanged; otherwise the built document is appended and its gymId and price returned when the store accepts it, else StoreRejected with nothing changed; the collection stays valid, unique and plan-consistent |
| `MemberRoutes.AppendKeepsInvariant` | routes/members.js:43-58 | appending an accepted document built with the next internal id, a gymId from 101 up and the plan's price and expiry keeps the collection's invariant |
| `MemberRoutes.RemovalKeepsInvariant` | routes/members.js:70 | deleting any member keeps the collection's invariant (validity, uniqueness, plan consistency, gymIds from 101) |
| `MemberRoutes.Directory.DeleteMember` | routes/members.js:67-79 | an unknown id gives NotFound with nothing changed; otherwise exactly that member is removed and the others keep their order; the deleted document is returned, a choice of this model (the handler answers only with a message) |
| `AttendanceRoutes.MemberWithGymId` | routes/attendance.js:77 | finds a stored member with the gymId, or reports that no member has it |
| `AttendanceRoutes.HasOpen` | routes/attendance.js:82 | check-in's query `findOne({ gymId, checkOut: null })` finds a record: some record of the gymId has no checkOut |
| `AttendanceRoutes.LatestOpen` | routes/attendance.js:108 | finds an open record of the gymId with the largest checkIn (the earliest such in ledger order), and finds none exactly when the gymId has no open record |
| `AttendanceRoutes.OnlyOpenIsLatest` | routes/attendance.js:108 | while at most one record per gymId is open, check-out's query picks that record |
| `AttendanceRoutes.RecordsFor` | routes/attendance.js:64 | the listing for a gymId holds exactly the ledger's records with that gymId |
| `AttendanceRoutes.RecordsForConcat` | routes/attendance.js:64 | the listing keeps ledger order: it distributes over concatenation of ledgers |
| `AttendanceRoutes.StartOfDay` | routes/attendance.js:34 | the start of day is a multiple of a day, at or before the instant and less than a day before it |
| `AttendanceRoutes.SameDayWindow` | routes/attendance.js:34-43 | the half-open window of a day holds exactly the instants of that day: its last millisecond is in, the next day's first is out |
| `AttendanceRoutes.RecordsInWindow` | routes/attendance.js:38-51 | the day query holds exactly the records whose checkIn lies in the window |
| `AttendanceRoutes.RecordsInWindowConcat` | routes/attendance.js:38-51 | the day query keeps ledger order: it distributes over concatenation of ledgers |
| `AttendanceRoutes.DateGiven` | routes/attendance.js:22 | the search's `if (date)`: a date parameter is given and is not the empty string |
| `AttendanceRoutes.SearchByDay` | routes/attendance.js:17-58 | a given date that does not parse gives InvalidDate and nothing else fails; otherwise the answer is the window query for the given day, or for today when no date is given, and holds exactly the records checked in on that day |
| `AttendanceRoutes.CheckInKeepsAtMostOneOpen` | routes/attendance.js:82-89 | appending an open record for a gymId with no open record keeps at most one open record per gymId |
| `AttendanceRoutes.CheckOutClosesSession` | routes/attendance.js:108-115 | closing the open record of a gymId keeps at most one open record per gymId and leaves that gymId with none |
| `AttendanceRoutes.CheckOutKeepsClosedAfterOpened` | routes/attendance.js:114 | with a clock that does not run backwards, closing a record at a time not before its checkIn keeps every closed record's checkOut at or after its checkIn |
| `AttendanceRoutes.CheckInKeepsClosedAfterOpened` | routes/attendance.js:88-89 | a check-in, which appends only an open record, keeps every closed record's checkOut at or after its checkIn, on any ledger including the empty one |
| `AttendanceRoutes.Ledger.ListAll` | routes/attendance.js:7-14 | returns every record |
| `AttendanceRoutes.Ledger.ListFor` | routes/attendance.js:62-69 | returns the records of one gymId in ledger order |
| `AttendanceRoutes.Ledger.CheckIn` | routes/attendance.js:73-101 | an unknown gymId gives NotFound and an open session AlreadyCheckedIn, both with the ledger unchanged; otherwise exactly one open record (gymId, now) is appended and returned with the member's name and expiry, which are not stored; at most one open record per gymId is kept, and so is checkOut-not-before-checkIn for every closed record |
| `AttendanceRoutes.Ledger.CheckOut` | routes/attendance.js:104-121 | no open session gives NoActiveCheckIn with the ledger unchanged; otherwise only the checkOut of the latest open record of the gymId is set to now, that record (of this gymId, with checkOut now) is returned, the gymId has no open record left, and at most one open record per gymId is kept; when now is not before the record's checkIn, the returned record's checkOut is not before its checkIn and every closed record of the ledger stays closed after it was opened |
| `Scenarios.CreateOnEmpty` | routes/members.js:16-19 | the first member created in an empty collection gets gymId 101 |
| `Scenarios.VisitOnce` | routes/attendance.js:73-121 | a member with no history checks in and out and the ledger then holds exactly one closed record with those two timestamps |
| `Scenarios.RoundTrip` | routes/attendance.js:73-121 | create, check in, check out, then list: one record with both timestamps set, check-out not before check-in |
| `Scenarios.ReplaceOnlyMember` | routes/members.js:16-19 | deleting the only member and creating another gives gymId 101 again |
| `Scenarios.DeletedGymIdIsReused` | routes/members.js:16-19 | after the only member is deleted, the next member gets the same gymId 101 and is refused check-in because of the deleted member's open session |

## Left out

- HTTP routing, status codes, response messages and route registration order: outcomes are error constructors.
- MongoDB persistence and the document id: the collections are sequences, the id is an abstract `key` taken from a counter.
- The `populate('gymId', 'name')` join of the list-all handler: the attendance schema that declares the reference is not part of this model, so `ListAll` returns the records unenriched.
- The attendance schema file itself is not part of this model; the record shape (gymId, checkIn, optional checkOut) is taken from its uses in the handlers. Its internal id and version key are not modelled, so the day search's projection to (gymId, checkIn, checkOut) is the identity here.
- JavaScript `Date`: local time zones and daylight-saving days (a day is a constant 86 400 000 ms and start of day is taken on that grid), `setMonth` overflowing the day of the month, and `new Date(string)` parsing (a parameter). The create handler reads the clock twice (expiry and the `startDate` default); the model uses one instant for both.
- The gymId of check-in, check-out and the per-member listing is an integer: a request body or path without a gymId, or with a non-numeric one, is not modelled.
- Inputs of the member handlers are strings or absent; JSON numbers, booleans or objects in the body and the string-to-number or string-to-id casts of path parameters (which fail with a 500) are not modelled.
- A `membershipType` naming an inherited JavaScript object property (such as `constructor`) finds a truthy non-plan value in the plan table; that request fails later in the 500 path, and the model treats such names as unknown types (400).
- `MemberModel.Lower`: lowers only ASCII A-Z, whereas JavaScript's `toLowerCase` also lowers non-ASCII letters.
- `AttendanceRoutes.LatestOpen`: among open records with equal checkIn the store's order is unspecified; the model picks the earliest in ledger order.
- Concurrency: the read-then-write races of check-in and of max+1 gymId assignment; every call is sequential here.
- Logging and the generic catch-all error paths other than the failing `save()` of a create.
