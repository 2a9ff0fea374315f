# Restaurant table booking: the booking and availability core

This project models the decision-making part of a small restaurant table
booking server, `backend/server.js`. It covers four things:

- the **slot catalog**: the day's bookable half-hour labels, `"11:00"` to
  `"22:00"`;
- the **reservation ledger**: the in-memory list of accepted bookings;
- the **availability query**: the catalog minus the times already booked on
  a date;
- the **booking submission**: validate, reject a taken (date, time), append.

It also models the server's cross-origin (CORS) acceptance test.

Files:

- `wrappers.dfy`: module `Wrappers`, an `Option` type.
- `timeslots.dfy`: module `TimeSlots`. `GenerateTimeSlots` is the server's
  hour loop, written as a `while` loop. It is proved equal to `Catalog()`,
  which is defined independently: the labels of every half-hour mark from
  11:00 to 22:00 inclusive. `ParseLabel` reads a label back as minutes of
  the day. This is how "strictly increasing, 30 minutes apart" is stated.
- `reservations.dfy`: module `Reservations`.
  - `Booking` is the record.
  - `SlotTaken`, `BookedTimes` and `Available` are the handlers' `some`,
    `filter`/`map` and `filter`/`includes` expressions.
  - `Query` and `Submit` are the two endpoints as functions of the ledger.
  - `Ledger` is the class holding the shared `bookings` sequence. Its
    `Availability` and `Book` methods are proved against `Query` and `Submit`.
  - The lemmas state the properties that involve several calls.
- `cors.dfy`: module `Cors`, the origin predicate and the allowlist.

Conventions:

- A field that JavaScript treats as absent (undefined or empty) is the empty
  string. An absent guest count is `0`. The phone number is an
  `Option<string>`.
- Both endpoints' replies are datatypes: `AvailabilityResult` and
  `BookingOutcome`. Their texts and HTTP status come from the small
  functions `AvailabilityMessage`, `BookingMessage` and `BookingStatus`
  (backend/server.js:36, 52, 57, 63-64). The contracts of `Query` and
  `Submit` state which text and status each request gets.

The catalog has **23** labels. Twelve hours with two labels each would
give 24, but the loop skips the `:30` label of hour 22, so the last label is
"22:00". One booking at 19:00 therefore leaves 22 slots for its date, not 23
(`CatalogBounds`, `FirstBookingOfDate`).

## Model

| member | source | states |
|---|---|---|
| `TimeSlots.GenerateTimeSlots` | backend/server.js:24-31 | the hour loop produces exactly the catalog, whatever the date argument is |
| `TimeSlots.CatalogBounds` | backend/server.js:24-31 | the catalog has 23 labels, the first is "11:00", the last is "22:00", and "22:30" is not among them |
| `TimeSlots.CatalogIncreasing` | backend/server.js:24-31 | catalog labels strictly increase in minutes of the day, and consecutive labels are exactly 30 minutes apart |
| `TimeSlots.CatalogMinutes` | backend/server.js:26-28 | the k-th catalog label denotes 11:00 plus 30·k minutes |
| `TimeSlots.HourSlots` | backend/server.js:26-28 | the labels pushed for an hour are the catalog's two slots for that hour, on the hour and half past |
| `TimeSlots.AfterClosingNotInCatalog` | backend/server.js:26-28 | no time of day after 22:00 has its label in the catalog |
| `TimeSlots.CatalogDistinct` | backend/server.js:24-31 | no label occurs twice in the catalog |
| `TimeSlots.HourLabels` | backend/server.js:27-28 | the decimal hour followed by ":00" or ":30" is the label of minute 60·hour or 60·hour+30 |
| `TimeSlots.MinutesLabelRoundTrip` | backend/server.js:27-28 | parsing the label of a time of day gives back that time of day |
| `TimeSlots.MinutesLabelInjective` | backend/server.js:27-28 | two times of day have the same label iff they are equal |
| `TimeSlots.NatToDecimal` | backend/server.js:27 | the rendered hour is a non-empty string of decimal digits, one digit exactly when the number is below 10 |
| `TimeSlots.DecimalRoundTrip` | backend/server.js:27 | reading back a rendered number gives the number |
| `TimeSlots.Digit` | backend/server.js:27 | a digit character is a decimal digit whose code is '0' plus the digit's value |
| `Reservations.SlotTaken` | backend/server.js:55 | the conflict test is true iff some ledger record has the request's date and time |
| `Reservations.BookedTimes` | backend/server.js:39-41 | a time is among a date's booked times iff the ledger holds a record with that date and time; there are no more of them than records |
| `Reservations.Available` | backend/server.js:43 | the result holds exactly the catalog entries not booked, and is a subsequence of the catalog, so catalog order is kept |
| `Reservations.Query` | backend/server.js:33-43 | an empty date gives the MissingParameter reply with text "Date is required", and only then; otherwise the answer is a subsequence of the catalog holding exactly the slots not taken on that date |
| `Reservations.Submit` | backend/server.js:48-67 | missing fields are reported iff a field is absent, even when the slot is also taken; a conflict is reported iff the request is complete and its (date, time) is already in the ledger; otherwise the request is appended at the end and returned, and on either error the ledger is unchanged; the reply text is "All fields are required" iff a field is absent, "This time slot is already booked" iff complete and taken, "Booking confirmed!" iff the record was appended; the status is 200 iff the record was appended, otherwise 400 |
| `Reservations.CompleteIgnoresPhone` | backend/server.js:51 | the presence check never looks at the phone number: changing it does not change whether a request is complete |
| `Reservations.SubmitPreservesInvariant` | backend/server.js:51-61 | a submission keeps every record complete and keeps (date, time) pairs pairwise distinct |
| `Reservations.Ledger.constructor` | backend/server.js:22 | the ledger starts empty and valid |
| `Reservations.Ledger.Availability` | backend/server.js:33-46 | the query method answers `Query` of the current ledger and changes nothing, so two calls with no booking between them answer the same |
| `Reservations.Ledger.Book` | backend/server.js:48-67 | the booking method answers what `Submit` answers, leaves the ledger `Submit` leaves, and keeps the ledger invariant |
| `Reservations.QueryUnbookedDate` | backend/server.js:39-43 | with no record on a date, the query answers the full catalog in catalog order |
| `Reservations.AvailableNoneBooked` | backend/server.js:43 | filtering a catalog none of whose entries is booked returns it unchanged |
| `Reservations.BookedTimesNone` | backend/server.js:39-41 | a date that no record carries has no booked times |
| `Reservations.QueryIncreasing` | backend/server.js:39-43 | every availability answer is strictly increasing in minutes of the day |
| `Reservations.ConfirmedSlotUnavailable` | backend/server.js:39-61 | after a confirmed booking, the query for its date no longer offers its time and offers every other time exactly as before |
| `Reservations.SecondSubmissionConflicts` | backend/server.js:55-61 | a second complete submission for the same date and time is refused as a conflict, so the two grow the ledger by exactly one record |
| `Reservations.BookedTimesAppend` | backend/server.js:39-41 | appending a record adds its time at the end of its date's booked times and nothing elsewhere |
| `Reservations.AvailableRemovesOne` | backend/server.js:43 | removing one entry of a duplicate-free catalog leaves one entry fewer |
| `Reservations.FirstBookingOfDate` | backend/server.js:39-61 | booking a catalog slot on a date with no bookings is confirmed and leaves exactly the 22 other catalog slots on offer for that date |
| `Cors.IndexOf` | backend/server.js:12 | `indexOf` gives the first position of the origin in the list, and -1 iff it does not occur |
| `Cors.OriginAllowed` | backend/server.js:12 | an origin is accepted iff it is absent or listed |
| `Cors.ServerOrigins` | backend/server.js:9-12 | the server accepts exactly the deployed front-end origin and requests with no origin |

## Left out

- Express wiring, JSON body parsing, `app.listen`, the `"/"` route and the `console.log` calls (backend/server.js:1-5, 19-20, 69-75). They are framework and I/O glue.
- The CORS middleware's callback mechanics (backend/server.js:13-16). Only the boolean test of line 12 is modelled.
- The defect at backend/server.js:44. The handler logs `err.message` with no `err` in scope, so in the running server it throws before answering. The model answers with the value computed at line 43 and does not model the exception.
- JavaScript truthiness corner cases, for example a guest count sent as the string `"0"`, which is truthy. Absence is modelled explicitly: an empty string, or a guest count of 0.
- `guests` is an unbounded integer. The source does not bound it and validates only that it is present.
- The React client, myapp/src/App.jsx. Its required-field check and email pattern run in the browser and are not enforced by the server. Regex matching is not modelled.
- Concurrency and persistence. The server relies on the single-threaded event loop, so each handler runs to completion. No locking is modelled, and the ledger lives only as long as the object.
- The reply bodies are represented by the result datatypes. The `message`/`booking` JSON shape is not modelled.
