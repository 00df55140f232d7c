/**
 * The decisions of the customer's bookings window (`MyBookingsWindow.java`):
 * cancelling seats of the selected booking, and choosing the bookings whose
 * payment is still pending. Dialogs become parameters: the text of the seats
 * field and the answer to the confirmation question.
 */
module MyBookings {
  import opened Wrappers
  import opened JavaInt
  import opened JavaText
  import opened JavaParse
  import opened Bookings
  import opened People
  import opened Store
  import Database
  import BookingSystem

  /** What the window ends with after the Cancel button. */
  datatype CancelOutcome =
    | NoSelection
    | NoSeatCount
    | NotANumber
    | NotPositive
    | MoreThanBooked
    | Declined
    | NotLoggedIn
    | CancelFailed
    | Cancelled(flightId: int, seats: I32)

  /** The requests the window turns away before asking for confirmation. */
  predicate RejectedByWindow(o: CancelOutcome) {
    o.NoSelection? || o.NoSeatCount? || o.NotANumber? || o.NotPositive? || o.MoreThanBooked?
  }

  /**
   * `cancelSelectedBooking`: validate the seats text against the selected
   * booking as listed, ask for confirmation, call the core, and on a
   * two-element result lower the flight's booked seats by the count returned.
   */
  function CancelSelectedBooking(s: Store, user: Option<User>, selected: Option<Booking>, seatsText: string,
                                 confirmed: bool, ok: bool, seatWriteOk: bool): (r: (Store, CancelOutcome))
    ensures selected.None? ==> r == (s, NoSelection)
    ensures selected.Some? && IsBlank(seatsText) ==> r == (s, NoSeatCount)
    ensures RejectedByWindow(r.1) || r.1.Declined? || r.1.NotLoggedIn? || r.1.CancelFailed? ==> r.0 == s
    ensures !confirmed ==> r.0 == s
    ensures !RejectedByWindow(r.1) ==>
              && selected.Some? && ParseInt(Trim(seatsText)).Some?
              && 0 < ParseInt(Trim(seatsText)).value <= selected.value.numSeats
    ensures selected.Some? && ParseInt(Trim(seatsText)).Some? && ParseInt(Trim(seatsText)).value <= 0 ==>
              r == (s, NotPositive)
    ensures r.1.Cancelled? ==>
              var id := selected.value.bookingId;
              && user.Some? && confirmed && ok && r.1.seats == ParseInt(Trim(seatsText)).value
              && Database.OwnedBy(s, id, user.value.id) && r.1.seats <= s.bookings[id].numSeats
              && r.1.flightId == s.bookings[id].flightId
    ensures r.1.Cancelled? ==>
              r.0.bookings == Database.CancelBooking(s, selected.value.bookingId, user.value.id, r.1.seats, ok).0.bookings
    ensures r.1.Cancelled? ==>
              r.0 == BookingSystem.AdjustSeats(Database.CancelBooking(s, selected.value.bookingId, user.value.id, r.1.seats, ok).0,
                                               r.1.flightId, -(r.1.seats as int), seatWriteOk)
    ensures r.1.Cancelled? && seatWriteOk && r.1.flightId in s.flights && UniqueFlightNumbers(s.flights) ==>
              r.0.flights == s.flights[r.1.flightId := Flights.SetBookedSeats(s.flights[r.1.flightId],
                                                         Wrap32(s.flights[r.1.flightId].bookedSeats - r.1.seats))]
    ensures r.1.Cancelled? && (!seatWriteOk || r.1.flightId !in s.flights) ==> r.0.flights == s.flights
    ensures r.0 == s.(flights := r.0.flights, bookings := r.0.bookings)
  {
    if selected.None? then (s, NoSelection)
    else
      var text := Trim(seatsText);
      if |text| == 0 then (s, NoSeatCount)
      else
        match ParseInt(text)
        case None => (s, NotANumber)
        case Some(n) =>
          if n <= 0 then (s, NotPositive)
          else if n > selected.value.numSeats then (s, MoreThanBooked)
          else if !confirmed then (s, Declined)
          else if user.None? then (s, NotLoggedIn)
          else
            var (t, c) := BookingSystem.CancelBookingSeats(s, user, selected.value.bookingId, n, ok);
            if c.None? then (s, CancelFailed)
            else
              (BookingSystem.AdjustSeats(t, c.value.flightId, -(c.value.seats as int), seatWriteOk),
               Cancelled(c.value.flightId, c.value.seats))
  }

  /** The bookings of the list whose status is `Pending`, in list order. */
  function PendingBookings(list: seq<Booking>): (pending: seq<Booking>)
    ensures |pending| <= |list|
    ensures forall b :: b in pending <==> b in list && b.status == PENDING
  {
    if |list| == 0 then []
    else if list[0].status == PENDING then [list[0]] + PendingBookings(list[1..])
    else PendingBookings(list[1..])
  }

  /** Filtering a concatenation filters each part: the filter keeps list order. */
  lemma {:induction false} PendingOfConcat(a: seq<Booking>, b: seq<Booking>)
    ensures PendingBookings(a + b) == PendingBookings(a) + PendingBookings(b)
    decreases |a|
  {
    if |a| > 0 {
      assert (a + b)[1..] == a[1..] + b;
      PendingOfConcat(a[1..], b);
    } else {
      assert a + b == b;
    }
  }

  /**
   * `handlePendingPayments`: the booking ids for which a payment window is
   * opened, in list order. None when nothing is pending or the customer
   * declines the total.
   */
  function HandlePendingPayments(list: seq<Booking>, confirmed: bool): (windows: seq<int>)
    ensures PendingBookings(list) == [] || !confirmed ==> windows == []
    ensures confirmed ==> |windows| == |PendingBookings(list)|
    ensures confirmed ==> forall i :: 0 <= i < |windows| ==> windows[i] == PendingBookings(list)[i].bookingId
    ensures forall id :: id in windows ==> exists b :: b in list && b.status == PENDING && b.bookingId == id
  {
    var pending := PendingBookings(list);
    if |pending| == 0 || !confirmed then []
    else seq(|pending|, i requires 0 <= i < |pending| => pending[i].bookingId)
  }
}
