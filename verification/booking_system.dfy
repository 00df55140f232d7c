/**
 * The business layer of `BookingSystem.java`: booking creation, modification
 * and payment, cancellation by customers and agents, and the agent's flight
 * administration, each a transition of the store.
 *
 * A `false` flag stands for an `SQLException` in the statement group it
 * names; the source catches those and carries on with its failure value.
 */
module BookingSystem {
  import opened Wrappers
  import opened JavaInt
  import opened Flights
  import opened Bookings
  import opened People
  import opened Store
  import Database

  /**
   * The flight numbers the constructor loads into the in-memory list
   * (`loadFlights` adds every row of the flights table). The list is not
   * reloaded afterwards, and only `addFlight`'s duplicate check reads it.
   */
  function LoadedNumbers(db: Store): (loaded: set<string>)
    ensures forall n :: n in loaded <==> NumberInUse(db.flights, n)
  {
    set id | id in db.flights :: db.flights[id].flightNumber
  }

  /**
   * Read flight `flightId`, add `delta` to its booked seats in Java `int`
   * arithmetic, and write the count back with `updateFlightSeats`, which
   * matches rows by flight number. A missing flight changes nothing. `ok`
   * is false when the read or the write throws: either way the count stays.
   */
  function AdjustSeats(s: Store, flightId: int, delta: int, ok: bool): (t: Store)
    ensures !ok || flightId !in s.flights ==> t == s
    ensures ok && flightId in s.flights && UniqueFlightNumbers(s.flights) ==>
              t.flights == s.flights[flightId := SetBookedSeats(s.flights[flightId], Wrap32(s.flights[flightId].bookedSeats + delta))]
    ensures t.flights.Keys == s.flights.Keys
    ensures forall id :: id in s.flights && flightId in s.flights && s.flights[id].flightNumber != s.flights[flightId].flightNumber
              ==> t.flights[id] == s.flights[id]
    ensures t == s.(flights := t.flights)
  {
    match Database.GetFlightById(s, flightId, ok)
    case None => s
    case Some(f) =>
      var g := SetBookedSeats(f, Wrap32(f.bookedSeats + delta));
      var t := Database.UpdateFlightSeats(s, g.flightNumber, g.bookedSeats, ok);
      assert ok && UniqueFlightNumbers(s.flights) ==> t.flights == s.flights[flightId := g] by {
        if ok && UniqueFlightNumbers(s.flights) {
          forall id | id in s.flights
            ensures t.flights[id] == s.flights[flightId := g][id]
          {
            if id != flightId {
              assert s.flights[id].flightNumber != f.flightNumber;
            }
          }
        }
      }
      t
  }

  /**
   * `createBooking`: with a user, a known flight and enough available seats,
   * insert a `Pending` booking and then raise the flight's booked seats. The
   * seat write reuses the flight read before the insert; the insert does not
   * touch the flights table, so re-reading it here is the same. `readOk`
   * is false when the first read of the flight throws, which the source
   * reports as a missing flight.
   */
  function CreateBooking(s: Store, user: Option<User>, flightId: int, numSeats: I32, today: string,
                         readOk: bool, insertOk: bool, seatWriteOk: bool): (r: (Store, bool))
    ensures r.1 <==> user.Some? && readOk && flightId in s.flights && numSeats <= AvailableSeats(s.flights[flightId]) && insertOk
    ensures !r.1 ==> r.0 == s
    ensures r.1 ==> r.0.bookings == s.bookings[s.nextBookingId := BookingRow(user.value.id, flightId, numSeats, today, PENDING)]
    ensures r.1 ==> r.0 == s.(flights := r.0.flights, bookings := r.0.bookings, nextBookingId := s.nextBookingId + 1)
    ensures r.1 && seatWriteOk && UniqueFlightNumbers(s.flights) ==>
              r.0.flights == s.flights[flightId := SetBookedSeats(s.flights[flightId], Wrap32(s.flights[flightId].bookedSeats + numSeats))]
    ensures r.1 && !seatWriteOk ==> r.0.flights == s.flights
    ensures r.1 ==> r.0.flights.Keys == s.flights.Keys
    ensures forall id :: r.1 && id in s.flights && s.flights[id].flightNumber != s.flights[flightId].flightNumber
              ==> r.0.flights[id] == s.flights[id]
    ensures r.1 && InRange(s.flights[flightId].capacity - s.flights[flightId].bookedSeats) ==>
              s.flights[flightId].bookedSeats + numSeats <= s.flights[flightId].capacity
  {
    if user.None? then (s, false)
    else
      match Database.GetFlightById(s, flightId, readOk)
      case None => (s, false)
      case Some(f) =>
        if AvailableSeats(f) < numSeats then (s, false)
        else
          var (t, saved) := Database.SaveBooking(s, NewBooking(user.value.id, flightId, numSeats, today), insertOk);
          if !saved then (s, false)
          else (AdjustSeats(t, flightId, numSeats, seatWriteOk), true)
  }

  /** `processPayment`: mark the booking `Paid`; false when no such booking. */
  function ProcessPayment(s: Store, bookingId: int, ok: bool): (r: (Store, bool))
    ensures r.1 <==> ok && bookingId in s.bookings
    ensures !r.1 ==> r.0 == s
    ensures r.1 ==> r.0.bookings == s.bookings[bookingId := s.bookings[bookingId].(status := PAID)]
    ensures r.0 == s.(bookings := r.0.bookings)
    ensures r.0.bookings.Keys == s.bookings.Keys
  {
    Database.UpdateBookingStatus(s, bookingId, PAID, ok)
  }

  /** Paying twice leaves the store as paying once, and the second payment still succeeds. */
  lemma ProcessPaymentIdempotent(s: Store, bookingId: int)
    requires bookingId in s.bookings
    ensures ProcessPayment(ProcessPayment(s, bookingId, true).0, bookingId, true)
         == (ProcessPayment(s, bookingId, true).0, true)
  {
    var t := ProcessPayment(s, bookingId, true).0;
    assert t.bookings[bookingId].(status := PAID) == t.bookings[bookingId];
    assert t.bookings[bookingId := t.bookings[bookingId]] == t.bookings;
  }

  /** `cancelBookingSeats`: the customer cancel of the database layer, for a logged-in user. */
  function CancelBookingSeats(s: Store, user: Option<User>, bookingId: int, n: I32, ok: bool)
    : (r: (Store, Option<Database.Cancellation>))
    ensures user.None? ==> r == (s, None)
    ensures r.1.Some? <==> user.Some? && ok && Database.OwnedBy(s, bookingId, user.value.id)
                           && 0 < n <= s.bookings[bookingId].numSeats
    ensures r.1.None? ==> r.0 == s
    ensures r.1.Some? ==> r.1.value == Database.Cancellation(s.bookings[bookingId].flightId, n)
    ensures r.0 == s.(bookings := r.0.bookings)
  {
    if user.None? then (s, None)
    else Database.CancelBooking(s, bookingId, user.value.id, n, ok)
  }

  /**
   * `cancelBooking` by an agent: delete the booking whoever owns it, then
   * lower its flight's booked seats by the booking's seats.
   */
  function CancelBookingByAgent(s: Store, bookingId: int, ok: bool, seatWriteOk: bool): (r: (Store, bool))
    ensures r.1 <==> ok && bookingId in s.bookings
    ensures !r.1 ==> r.0 == s
    ensures r.1 ==> r.0.bookings == s.bookings - {bookingId}
    ensures r.0 == s.(flights := r.0.flights, bookings := r.0.bookings)
    ensures r.1 && seatWriteOk && s.bookings[bookingId].flightId in s.flights && UniqueFlightNumbers(s.flights) ==>
              var fid := s.bookings[bookingId].flightId;
              r.0.flights == s.flights[fid := SetBookedSeats(s.flights[fid], Wrap32(s.flights[fid].bookedSeats - s.bookings[bookingId].numSeats))]
    ensures r.1 && (!seatWriteOk || s.bookings[bookingId].flightId !in s.flights) ==> r.0.flights == s.flights
  {
    var (t, c) := Database.AgentCancelBooking(s, bookingId, ok);
    if c.None? then (s, false)
    else (AdjustSeats(t, c.value.flightId, -(c.value.seats as int), seatWriteOk), true)
  }

  /**
   * `addFlight`: refuse a number the in-memory list already holds, otherwise
   * save the flight (an upsert) and report success whatever the save did.
   */
  function AddFlight(s: Store, loaded: set<string>, f: Flight, ok: bool): (r: (Store, bool))
    ensures r.1 <==> f.flightNumber !in loaded
    ensures !r.1 ==> r.0 == s
    ensures r.1 && ok ==> NumberInUse(r.0.flights, f.flightNumber)
    ensures r.1 && ok && !NumberInUse(s.flights, f.flightNumber) ==>
              r.0.flights == s.flights[s.nextFlightId := f] && r.0.nextFlightId == s.nextFlightId + 1
    ensures r.0.bookings == s.bookings && r.0.users == s.users && r.0.passengers == s.passengers
  {
    if f.flightNumber in loaded then (s, false)
    else (Database.SaveFlight(s, f, ok), true)
  }

  /**
   * `updateFlight`: refuse a number `getFlightId` does not find (-1: the
   * table lacks it, or the query threw, `readOk` false), otherwise overwrite
   * that flight's row. The result is true even when the save itself fails.
   */
  function UpdateFlight(s: Store, f: Flight, readOk: bool, ok: bool): (r: (Store, bool))
    ensures r.1 <==> readOk && NumberInUse(s.flights, f.flightNumber)
    ensures !r.1 || !ok ==> r.0 == s
    ensures r.0.flights.Keys == s.flights.Keys
    ensures forall id :: r.1 && ok && id in s.flights && s.flights[id].flightNumber == f.flightNumber ==> r.0.flights[id] == f
    ensures forall id :: id in s.flights && s.flights[id].flightNumber != f.flightNumber ==> r.0.flights[id] == s.flights[id]
    ensures r.0 == s.(flights := r.0.flights)
  {
    if !readOk || !NumberInUse(s.flights, f.flightNumber) then (s, false)
    else (Database.SaveFlight(s, f, ok), true)
  }

  /**
   * `deleteFlight`: refuse a number `getFlightId` does not find (missing,
   * or `readOk` false), otherwise delete its rows. Bookings on the flight
   * are not looked at.
   */
  function DeleteFlight(s: Store, flightNumber: string, readOk: bool, ok: bool): (r: (Store, bool))
    ensures r.1 <==> readOk && ok && NumberInUse(s.flights, flightNumber)
    ensures !r.1 ==> r.0 == s
    ensures r.1 ==> !NumberInUse(r.0.flights, flightNumber)
    ensures r.1 ==> r.0.flights == map id | id in s.flights && s.flights[id].flightNumber != flightNumber :: s.flights[id]
    ensures r.0 == s.(flights := r.0.flights)
  {
    if !readOk || !NumberInUse(s.flights, flightNumber) then (s, false)
    else Database.DeleteFlight(s, flightNumber, ok)
  }

  /**
   * `createBookingForCustomer`: look the customer up by username
   * (`userReadOk` false when that query throws) and book for them when
   * the object built for them is a `Customer`: any stored role other than
   * `Administrator` and `Agent`.
   */
  ghost function CreateBookingForCustomer(s: Store, username: string, flightId: int, numSeats: I32, today: string,
                                          userReadOk: bool, readOk: bool, insertOk: bool, seatWriteOk: bool): (r: (Store, bool))
    ensures !userReadOk || !Database.UsernameTaken(s, username) ==> r == (s, false)
    ensures r.1 ==> exists id :: id in s.users && s.users[id].username == username
                                 && s.users[id].role != Database.ADMINISTRATOR && s.users[id].role != Database.AGENT
                                 && r.0.bookings == s.bookings[s.nextBookingId := BookingRow(id, flightId, numSeats, today, PENDING)]
    ensures !r.1 ==> r.0 == s
  {
    var u := Database.GetUserByUsername(s, username, userReadOk);
    if u.None? || u.value.role != CUSTOMER then (s, false)
    else CreateBooking(s, u, flightId, numSeats, today, readOk, insertOk, seatWriteOk)
  }

  /** The UNIQUE constraint on `users.username`. */
  ghost predicate UniqueUsernames(s: Store) {
    forall a, b :: a in s.users && b in s.users && s.users[a].username == s.users[b].username ==> a == b
  }

  /**
   * Booking for a customer by name is booking for that customer's row: with
   * usernames unique, a user stored with any role but `Administrator` or
   * `Agent` gets exactly the booking `createBooking` makes for it, and
   * those two roles get none.
   */
  lemma CreateBookingForCustomerIsCreateBooking(s: Store, id: int, flightId: int, numSeats: I32, today: string,
                                                readOk: bool, insertOk: bool, seatWriteOk: bool)
    requires UniqueUsernames(s) && id in s.users
    ensures var u := s.users[id];
            CreateBookingForCustomer(s, u.username, flightId, numSeats, today, true, readOk, insertOk, seatWriteOk)
            == if u.role != Database.ADMINISTRATOR && u.role != Database.AGENT
               then CreateBooking(s, Some(Database.UserFromRow(id, u)), flightId, numSeats, today, readOk, insertOk, seatWriteOk)
               else (s, false)
  {
    var u := Database.GetUserByUsername(s, s.users[id].username, true);
    assert Database.UsernameTaken(s, s.users[id].username);
    assert u.value.id == id;
  }

  /**
   * `modifyBooking`: check the seat difference against the flight's available
   * seats, then rewrite only the booking's seat count. The flight's booked
   * seats are left as they were. `readOk` is false when one of the two
   * reads throws, which the source reports as a missing booking or flight.
   */
  function ModifyBooking(s: Store, bookingId: int, newNumSeats: I32, readOk: bool, ok: bool): (r: (Store, bool))
    ensures r.1 <==> && readOk && ok && bookingId in s.bookings && s.bookings[bookingId].flightId in s.flights
                     && Wrap32(newNumSeats - s.bookings[bookingId].numSeats) <= AvailableSeats(s.flights[s.bookings[bookingId].flightId])
    ensures !r.1 ==> r.0 == s
    ensures r.1 ==> r.0.bookings == s.bookings[bookingId := s.bookings[bookingId].(numSeats := newNumSeats)]
    ensures r.0 == s.(bookings := r.0.bookings)
  {
    match Database.GetBookingById(s, bookingId, readOk)
    case None => (s, false)
    case Some(b) =>
      match Database.GetFlightById(s, b.flightId, readOk)
      case None => (s, false)
      case Some(f) =>
        var seatDifference := Wrap32(newNumSeats - b.numSeats);
        if AvailableSeats(f) < seatDifference then (s, false)
        else Database.UpdateBooking(s, bookingId, newNumSeats, ok)
  }
}
