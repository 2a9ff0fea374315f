/**
 * The reservation ledger of the booking service (backend/server.js:22,
 * 33-67): the in-memory list of accepted bookings, the availability query
 * that subtracts a date's booked times from the slot catalog, and the
 * booking submission that validates, rejects a taken slot, and appends.
 *
 * A request field that JavaScript treats as absent (undefined or empty) is
 * the empty string here; an absent guest count is 0.
 */
module Reservations {
  import opened Wrappers
  import opened TimeSlots

  /** A reservation record, exactly the fields the submission carries (backend/server.js:60). */
  datatype Booking = Booking(
    date: string,
    time: string,
    guests: int,
    name: string,
    email: string,
    phone: Option<string>)

  /** Response of the availability endpoint. */
  datatype AvailabilityResult = Times(times: seq<string>) | MissingParameter

  /** Response of the booking endpoint. */
  datatype BookingOutcome = Confirmed(booking: Booking) | MissingFields | SlotConflict

  /** What a booking submission answers, and the ledger it leaves behind. */
  datatype Submission = Submission(outcome: BookingOutcome, ledger: seq<Booking>)

  /** The error and confirmation texts the endpoints send. */
  function AvailabilityMessage(r: AvailabilityResult): string {
    if r.MissingParameter? then "Date is required" else ""
  }

  function BookingMessage(o: BookingOutcome): string {
    match o
    case Confirmed(_) => "Booking confirmed!"
    case MissingFields => "All fields are required"
    case SlotConflict => "This time slot is already booked"
  }

  /** HTTP status of a booking response: 200 on confirmation, 400 on either error. */
  function BookingStatus(o: BookingOutcome): nat {
    if o.Confirmed? then 200 else 400
  }

  // ---------------------------------------------------------------------------
  // The pure expressions of the handlers

  /** The presence check of backend/server.js:51; the phone is not required. */
  predicate Complete(b: Booking) {
    b.date != "" && b.time != "" && b.guests != 0 && b.name != "" && b.email != ""
  }

  /** Whether a request is complete does not depend on its phone number. */
  lemma CompleteIgnoresPhone(b: Booking, phone: Option<string>)
    ensures Complete(b.(phone := phone)) == Complete(b)
  {
  }

  /** The conflict test (backend/server.js:55): does some record carry this date and this time? Scans left to right. */
  function SlotTaken(bookings: seq<Booking>, date: string, time: string): (taken: bool)
    ensures taken <==> exists i | 0 <= i < |bookings| :: bookings[i].date == date && bookings[i].time == time
    decreases |bookings|
  {
    if bookings == [] then false
    else
      (bookings[0].date == date && bookings[0].time == time)
      || (assert forall i | 0 <= i < |bookings| - 1 :: bookings[1..][i] == bookings[i + 1];
          SlotTaken(bookings[1..], date, time))
  }

  /** The times of the records on a date, in ledger order (backend/server.js:39-41). */
  function BookedTimes(bookings: seq<Booking>, date: string): (times: seq<string>)
    ensures forall t :: t in times <==> SlotTaken(bookings, date, t)
    ensures |times| <= |bookings|
    decreases |bookings|
  {
    if bookings == [] then []
    else (if bookings[0].date == date then [bookings[0].time] else []) + BookedTimes(bookings[1..], date)
  }

  /** `a` can be obtained from `b` by deleting elements. */
  ghost predicate IsSubsequence(a: seq<string>, b: seq<string>)
    decreases |b|
  {
    a == [] || (b != [] && ((a[0] == b[0] && IsSubsequence(a[1..], b[1..])) || IsSubsequence(a, b[1..])))
  }

  /** The catalog entries that are not among the booked times, in catalog order (backend/server.js:43). */
  function Available(catalog: seq<string>, booked: seq<string>): (free: seq<string>)
    ensures forall t :: t in free <==> t in catalog && t !in booked
    ensures IsSubsequence(free, catalog)
    decreases |catalog|
  {
    if catalog == [] then []
    else if catalog[0] in booked then Available(catalog[1..], booked)
    else [catalog[0]] + Available(catalog[1..], booked)
  }

  // ---------------------------------------------------------------------------
  // The two operations as functions of the ledger

  /**
   * The availability query (backend/server.js:33-43): an empty date is an
   * error; otherwise the catalog without the times booked on that date, in
   * catalog order.
   */
  function Query(bookings: seq<Booking>, date: string): (r: AvailabilityResult)
    ensures r.MissingParameter? <==> date == ""
    ensures AvailabilityMessage(r) == "Date is required" <==> date == ""
    ensures r.Times? ==> IsSubsequence(r.times, Catalog())
    ensures r.Times? ==> forall t :: t in r.times <==> t in Catalog() && !SlotTaken(bookings, date, t)
  {
    if date == "" then MissingParameter else Times(Available(Catalog(), BookedTimes(bookings, date)))
  }

  /**
   * The booking submission (backend/server.js:48-67): missing fields are
   * reported first, then a taken (date, time); otherwise the request is
   * appended and echoed back.
   */
  function Submit(bookings: seq<Booking>, request: Booking): (r: Submission)
    ensures r.outcome == MissingFields <==> !Complete(request)
    ensures r.outcome == SlotConflict <==>
      Complete(request) && exists i | 0 <= i < |bookings| :: bookings[i].date == request.date && bookings[i].time == request.time
    ensures r.outcome.Confirmed? ==> r.outcome.booking == request && r.ledger == bookings + [request]
    ensures !r.outcome.Confirmed? ==> r.ledger == bookings
    ensures BookingMessage(r.outcome) == "All fields are required" <==> !Complete(request)
    ensures BookingMessage(r.outcome) == "This time slot is already booked" <==>
      Complete(request) && exists i | 0 <= i < |bookings| :: bookings[i].date == request.date && bookings[i].time == request.time
    ensures BookingMessage(r.outcome) == "Booking confirmed!" <==> r.ledger == bookings + [request]
    ensures BookingStatus(r.outcome) == (if r.ledger == bookings + [request] then 200 else 400)
  {
    if !Complete(request) then Submission(MissingFields, bookings)
    else if SlotTaken(bookings, request.date, request.time) then Submission(SlotConflict, bookings)
    else Submission(Confirmed(request), bookings + [request])
  }

  /** The ledger's invariant: every record is complete and no two share a (date, time). */
  ghost predicate LedgerInvariant(bookings: seq<Booking>) {
    (forall i | 0 <= i < |bookings| :: Complete(bookings[i]))
    && (forall i, j | 0 <= i < j < |bookings| ::
          bookings[i].date != bookings[j].date || bookings[i].time != bookings[j].time)
  }

  // ---------------------------------------------------------------------------
  // The shared ledger (backend/server.js:22)

  class Ledger {
    var bookings: seq<Booking>

    ghost predicate Valid()
      reads this
    {
      LedgerInvariant(bookings)
    }

    constructor ()
      ensures Valid() && bookings == []
    {
      bookings := [];
    }

    /**
     * GET /api/availability. Reads the ledger and changes nothing.
     * The handler at backend/server.js:44 refers to an undefined variable before
     * answering; the model answers with the value computed at line 43.
     */
    method Availability(date: string) returns (r: AvailabilityResult)
      ensures r == Query(bookings, date)
    {
      if date == "" {
        return MissingParameter;
      }
      var booked := BookedTimes(bookings, date);
      var slots := GenerateTimeSlots(date);
      r := Times(Available(slots, booked));
    }

    /** POST /api/booking. */
    method Book(request: Booking) returns (outcome: BookingOutcome)
      requires Valid()
      modifies this
      ensures Valid()
      ensures Submission(outcome, bookings) == Submit(old(bookings), request)
    {
      if !Complete(request) {
        return MissingFields;
      }
      if SlotTaken(bookings, request.date, request.time) {
        return SlotConflict;
      }
      SubmitPreservesInvariant(bookings, request);
      bookings := bookings + [request];
      outcome := Confirmed(request);
    }
  }

  // ---------------------------------------------------------------------------
  // Properties

  /** Each submission keeps the ledger's invariant. */
  lemma SubmitPreservesInvariant(bookings: seq<Booking>, request: Booking)
    requires LedgerInvariant(bookings)
    ensures LedgerInvariant(Submit(bookings, request).ledger)
  {
  }

  /** With nothing booked on a date, the query answers the whole catalog in catalog order. */
  lemma QueryUnbookedDate(bookings: seq<Booking>, date: string)
    requires date != ""
    requires forall i | 0 <= i < |bookings| :: bookings[i].date != date
    ensures Query(bookings, date) == Times(Catalog())
  {
    BookedTimesNone(bookings, date);
    AvailableNoneBooked(Catalog(), []);
  }

  lemma {:induction false} BookedTimesNone(bookings: seq<Booking>, date: string)
    requires forall i | 0 <= i < |bookings| :: bookings[i].date != date
    ensures BookedTimes(bookings, date) == []
    decreases |bookings|
  {
    if bookings != [] {
      assert forall i | 0 <= i < |bookings| - 1 :: bookings[1..][i] == bookings[i + 1];
      BookedTimesNone(bookings[1..], date);
    }
  }

  lemma {:induction false} AvailableNoneBooked(catalog: seq<string>, booked: seq<string>)
    requires forall t | t in catalog :: t !in booked
    ensures Available(catalog, booked) == catalog
    decreases |catalog|
  {
    if catalog != [] {
      AvailableNoneBooked(catalog[1..], booked);
    }
  }

  /** Every answer of the query is strictly increasing in time of day. */
  lemma QueryIncreasing(bookings: seq<Booking>, date: string)
    requires date != ""
    ensures Query(bookings, date).Times?
    ensures Increasing(Query(bookings, date).times)
  {
    CatalogIncreasing();
    SubsequenceIncreasing(Query(bookings, date).times, Catalog());
  }

  lemma {:induction false} SubsequenceMembers(a: seq<string>, b: seq<string>)
    requires IsSubsequence(a, b)
    ensures forall t | t in a :: t in b
    decreases |b|
  {
    if a != [] {
      if a[0] == b[0] && IsSubsequence(a[1..], b[1..]) {
        SubsequenceMembers(a[1..], b[1..]);
        assert forall t | t in a :: t == a[0] || t in a[1..];
      } else {
        SubsequenceMembers(a, b[1..]);
      }
    }
  }

  lemma {:induction false} SubsequenceIncreasing(a: seq<string>, b: seq<string>)
    requires IsSubsequence(a, b) && Increasing(b)
    ensures Increasing(a)
    decreases |b|
  {
    if a != [] {
      assert Increasing(b[1..]) by {
        forall i, j | 0 <= i < j < |b| - 1 ensures LabelMinutes(b[1..][i]) < LabelMinutes(b[1..][j]) {
          assert b[1..][i] == b[i + 1] && b[1..][j] == b[j + 1];
        }
      }
      if a[0] == b[0] && IsSubsequence(a[1..], b[1..]) {
        SubsequenceIncreasing(a[1..], b[1..]);
        SubsequenceMembers(a[1..], b[1..]);
        forall i, j | 0 <= i < j < |a| ensures LabelMinutes(a[i]) < LabelMinutes(a[j]) {
          assert a[j] == a[1..][j - 1];
          if i > 0 {
            assert a[i] == a[1..][i - 1];
          } else {
            assert a[j] in a[1..];
            var k :| 0 <= k < |b[1..]| && b[1..][k] == a[j];
            assert b[k + 1] == a[j];
          }
        }
      } else {
        SubsequenceIncreasing(a, b[1..]);
      }
    }
  }

  /** After a confirmed booking the query for its date no longer offers its time, and offers every other slot as before. */
  lemma ConfirmedSlotUnavailable(bookings: seq<Booking>, request: Booking)
    requires Submit(bookings, request).outcome.Confirmed?
    ensures Query(Submit(bookings, request).ledger, request.date).Times?
    ensures request.time !in Query(Submit(bookings, request).ledger, request.date).times
    ensures forall t | t != request.time ::
      t in Query(Submit(bookings, request).ledger, request.date).times
      <==> t in Query(bookings, request.date).times
  {
    var after := Submit(bookings, request).ledger;
    assert after[|bookings|] == request;
    forall t | t != request.time
      ensures SlotTaken(after, request.date, t) <==> SlotTaken(bookings, request.date, t)
    {
      if SlotTaken(after, request.date, t) {
        var i :| 0 <= i < |after| && after[i].date == request.date && after[i].time == t;
        assert i < |bookings| && bookings[i] == after[i];
      }
      if SlotTaken(bookings, request.date, t) {
        var i :| 0 <= i < |bookings| && bookings[i].date == request.date && bookings[i].time == t;
        assert after[i] == bookings[i];
      }
    }
  }

  /** A second submission for the same date and time is refused, so two such submissions grow the ledger by one. */
  lemma SecondSubmissionConflicts(bookings: seq<Booking>, first: Booking, second: Booking)
    requires Submit(bookings, first).outcome.Confirmed?
    requires Complete(second) && second.date == first.date && second.time == first.time
    ensures Submit(Submit(bookings, first).ledger, second).outcome == SlotConflict
    ensures |Submit(Submit(bookings, first).ledger, second).ledger| == |bookings| + 1
  {
    var after := Submit(bookings, first).ledger;
    assert after[|bookings|] == first;
  }

  lemma {:induction false} BookedTimesAppend(bookings: seq<Booking>, b: Booking, date: string)
    ensures BookedTimes(bookings + [b], date)
         == BookedTimes(bookings, date) + (if b.date == date then [b.time] else [])
    decreases |bookings|
  {
    var last := if b.date == date then [b.time] else [];
    if bookings == [] {
      assert bookings + [b] == [b];
      assert BookedTimes([b], date) == last + BookedTimes([], date);
    } else {
      var rest := bookings[1..];
      var head := if bookings[0].date == date then [bookings[0].time] else [];
      assert (bookings + [b])[1..] == rest + [b];
      BookedTimesAppend(rest, b, date);
      calc {
        BookedTimes(bookings + [b], date);
        head + BookedTimes(rest + [b], date);
        head + (BookedTimes(rest, date) + last);
        (head + BookedTimes(rest, date)) + last;
        BookedTimes(bookings, date) + last;
      }
    }
  }

  lemma {:induction false} AvailableRemovesOne(catalog: seq<string>, x: string)
    requires Distinct(catalog) && x in catalog
    ensures |Available(catalog, [x])| == |catalog| - 1
    decreases |catalog|
  {
    assert Distinct(catalog[1..]) by {
      forall i, j | 0 <= i < j < |catalog| - 1 ensures catalog[1..][i] != catalog[1..][j] {
        assert catalog[1..][i] == catalog[i + 1] && catalog[1..][j] == catalog[j + 1];
      }
    }
    if catalog[0] == x {
      assert forall t | t in catalog[1..] :: t !in [x] by {
        forall t | t in catalog[1..] ensures t != x {
          var k :| 0 <= k < |catalog[1..]| && catalog[1..][k] == t;
          assert catalog[k + 1] == t;
        }
      }
      AvailableNoneBooked(catalog[1..], [x]);
    } else {
      AvailableRemovesOne(catalog[1..], x);
    }
  }

  /**
   * Booking a catalog slot on a date with no other bookings leaves the other
   * 22 slots of the catalog on offer for that date.
   */
  lemma FirstBookingOfDate(bookings: seq<Booking>, request: Booking)
    requires forall i | 0 <= i < |bookings| :: bookings[i].date != request.date
    requires Complete(request) && request.time in Catalog()
    ensures Submit(bookings, request).outcome == Confirmed(request)
    ensures Query(Submit(bookings, request).ledger, request.date).Times?
    ensures |Query(Submit(bookings, request).ledger, request.date).times| == 22
    ensures forall t | t in Catalog() ::
      t in Query(Submit(bookings, request).ledger, request.date).times <==> t != request.time
  {
    var after := Submit(bookings, request).ledger;
    assert BookedTimes(after, request.date) == [request.time] by {
      assert after == bookings + [request];
      BookedTimesNone(bookings, request.date);
      BookedTimesAppend(bookings, request, request.date);
    }
    var free := Available(Catalog(), [request.time]);
    assert Query(after, request.date) == Times(free);
    assert |free| == 22 by {
      CatalogBounds();
      CatalogDistinct();
      AvailableRemovesOne(Catalog(), request.time);
    }
  }
}
