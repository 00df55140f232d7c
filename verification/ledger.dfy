/**
 * The seat ledger across operations: which transitions keep a valid store
 * valid (well-formed ids, unique flight numbers, and every flight's booked
 * seats equal to the seats of its bookings), and which do not.
 */
module Ledger {
  import opened Wrappers
  import opened JavaInt
  import opened Flights
  import opened Bookings
  import opened People
  import opened Store
  import Database
  import BookingSystem
  import MyBookings

  /** The store invariant: AUTOINCREMENT ids, the UNIQUE flight number, and the seat ledger. */
  ghost predicate Valid(s: Store) {
    WellFormed(s) && UniqueFlightNumbers(s.flights) && Consistent(s)
  }

  /** A flight no booking refers to holds no booked seats in the sum. */
  lemma {:induction false} SeatsOnAbsent(bookings: map<int, BookingRow>, flightId: int)
    requires forall id :: id in bookings ==> bookings[id].flightId != flightId
    ensures SeatsOn(bookings, flightId) == 0
    decreases |bookings|
  {
    if bookings.Keys != {} {
      var k := AnyKey(bookings);
      SeatsOnRemove(bookings, k, flightId);
      assert |bookings - {k}| < |bookings| by {
        assert (bookings - {k}).Keys == bookings.Keys - {k};
      }
      SeatsOnAbsent(bookings - {k}, flightId);
    }
  }

  /**
   * When the bookings change the seat total of flight `fid` by `delta` and
   * nothing else, and the flight's column moves by `delta` in `int`
   * arithmetic, the ledger still balances.
   */
  lemma SeatsMatchShift(s: Store, t: Store, fid: int, delta: int)
    requires SeatsMatch(s) && fid in s.flights
    requires t.flights == s.flights[fid := SetBookedSeats(s.flights[fid], Wrap32(s.flights[fid].bookedSeats + delta))]
    requires forall g :: SeatsOn(t.bookings, g) == SeatsOn(s.bookings, g) + (if g == fid then delta else 0)
    ensures SeatsMatch(t)
  {
    forall g | g in t.flights
      ensures t.flights[g].bookedSeats == Wrap32(SeatsOn(t.bookings, g))
    {
      if g == fid {
        WrapAdd(SeatsOn(s.bookings, fid), delta);
      }
    }
  }

  /** Rewriting booked seats only keeps flight numbers, so their uniqueness. */
  lemma UniqueAfterSeatWrite(flights: map<int, Flight>, fid: int, n: I32)
    requires UniqueFlightNumbers(flights) && fid in flights
    ensures UniqueFlightNumbers(flights[fid := SetBookedSeats(flights[fid], n)])
  {
    var g := flights[fid := SetBookedSeats(flights[fid], n)];
    forall a, b | a in g && b in g && g[a].flightNumber == g[b].flightNumber
      ensures a == b
    {
      assert g[a].flightNumber == flights[a].flightNumber && g[b].flightNumber == flights[b].flightNumber;
    }
  }

  /** A successful booking whose seat write succeeds keeps the store valid. */
  lemma CreateBookingPreserves(s: Store, user: Option<User>, flightId: int, numSeats: I32, today: string,
                               readOk: bool, insertOk: bool)
    requires Valid(s)
    ensures Valid(BookingSystem.CreateBooking(s, user, flightId, numSeats, today, readOk, insertOk, true).0)
  {
    var (t, ok) := BookingSystem.CreateBooking(s, user, flightId, numSeats, today, readOk, insertOk, true);
    if ok {
      var row := BookingRow(user.value.id, flightId, numSeats, today, PENDING);
      assert s.nextBookingId !in s.bookings;
      forall g
        ensures SeatsOn(t.bookings, g) == SeatsOn(s.bookings, g) + (if g == flightId then numSeats as int else 0)
      {
        SeatsOnWrite(s.bookings, s.nextBookingId, row, g);
      }
      SeatsMatchShift(s, t, flightId, numSeats as int);
      UniqueAfterSeatWrite(s.flights, flightId, Wrap32(s.flights[flightId].bookedSeats + numSeats));
    }
  }

  /** Booking for a customer by username keeps the store valid when the seat write succeeds. */
  lemma CreateBookingForCustomerPreserves(s: Store, username: string, flightId: int, numSeats: I32, today: string,
                                          userReadOk: bool, readOk: bool, insertOk: bool)
    requires Valid(s)
    ensures Valid(BookingSystem.CreateBookingForCustomer(s, username, flightId, numSeats, today, userReadOk, readOk, insertOk, true).0)
  {
    var u := Database.GetUserByUsername(s, username, userReadOk);
    if u.Some? && u.value.role == CUSTOMER {
      CreateBookingPreserves(s, u, flightId, numSeats, today, readOk, insertOk);
    }
  }

  /** An agent cancellation whose seat write succeeds keeps the store valid. */
  lemma AgentCancelPreserves(s: Store, bookingId: int, ok: bool)
    requires Valid(s)
    ensures Valid(BookingSystem.CancelBookingByAgent(s, bookingId, ok, true).0)
  {
    var (t, cancelled) := BookingSystem.CancelBookingByAgent(s, bookingId, ok, true);
    if cancelled {
      var row := s.bookings[bookingId];
      forall g
        ensures SeatsOn(t.bookings, g) == SeatsOn(s.bookings, g) + (if g == row.flightId then -(row.numSeats as int) else 0)
      {
        SeatsOnDelete(s.bookings, bookingId, g);
      }
      SeatsMatchShift(s, t, row.flightId, -(row.numSeats as int));
      UniqueAfterSeatWrite(s.flights, row.flightId, Wrap32(s.flights[row.flightId].bookedSeats - row.numSeats));
    }
  }

  /** Paying changes only a status, which the ledger does not count. */
  lemma ProcessPaymentPreserves(s: Store, bookingId: int, ok: bool)
    requires Valid(s)
    ensures Valid(BookingSystem.ProcessPayment(s, bookingId, ok).0)
  {
    var (t, paid) := BookingSystem.ProcessPayment(s, bookingId, ok);
    if paid {
      forall g
        ensures SeatsOn(t.bookings, g) == SeatsOn(s.bookings, g)
      {
        SeatsOnWrite(s.bookings, bookingId, s.bookings[bookingId].(status := PAID), g);
      }
    }
  }

  /**
   * Cancelling `n` seats of a customer's booking, then lowering its flight's
   * booked seats by the count returned, keeps the store valid when the seat
   * write succeeds: a partial cancel and a full one alike.
   */
  lemma CancelSeatsPreserves(s: Store, bookingId: int, userId: int, n: I32, ok: bool)
    requires Valid(s)
    ensures var (c, res) := Database.CancelBooking(s, bookingId, userId, n, ok);
            res.Some? ==> Valid(BookingSystem.AdjustSeats(c, res.value.flightId, -(n as int), true))
  {
    var (c, res) := Database.CancelBooking(s, bookingId, userId, n, ok);
    if res.Some? {
      var row := s.bookings[bookingId];
      var t := BookingSystem.AdjustSeats(c, row.flightId, -(n as int), true);
      if n < row.numSeats {
        var row' := row.(numSeats := row.numSeats - n);
        assert c.bookings == s.bookings[bookingId := row'];
        forall g
          ensures SeatsOn(t.bookings, g) == SeatsOn(s.bookings, g) + (if g == row.flightId then -(n as int) else 0)
        {
          SeatsOnWrite(s.bookings, bookingId, row', g);
        }
      } else {
        assert c.bookings == s.bookings - {bookingId};
        forall g
          ensures SeatsOn(t.bookings, g) == SeatsOn(s.bookings, g) + (if g == row.flightId then -(n as int) else 0)
        {
          SeatsOnDelete(s.bookings, bookingId, g);
        }
      }
      SeatsMatchShift(s, t, row.flightId, -(n as int));
      UniqueAfterSeatWrite(s.flights, row.flightId, Wrap32(s.flights[row.flightId].bookedSeats - n));
    }
  }

  /** The customer cancel of the bookings window keeps the store valid when the seat write succeeds. */
  lemma CustomerCancelPreserves(s: Store, user: Option<User>, selected: Option<Booking>, seatsText: string,
                                confirmed: bool, ok: bool)
    requires Valid(s)
    ensures Valid(MyBookings.CancelSelectedBooking(s, user, selected, seatsText, confirmed, ok, true).0)
  {
    var r := MyBookings.CancelSelectedBooking(s, user, selected, seatsText, confirmed, ok, true);
    if r.1.Cancelled? {
      var id, n := selected.value.bookingId, r.1.seats;
      var (c, res) := Database.CancelBooking(s, id, user.value.id, n, ok);
      assert res.Some? && res.value.flightId == r.1.flightId;
      assert r.0 == BookingSystem.AdjustSeats(c, res.value.flightId, -(n as int), true);
      CancelSeatsPreserves(s, id, user.value.id, n, ok);
    }
  }

  /** Updating a flight keeps the store valid when the new object carries the booked seats the row already had. */
  lemma UpdateFlightPreserves(s: Store, f: Flight, readOk: bool, ok: bool)
    requires Valid(s)
    requires forall id :: id in s.flights && s.flights[id].flightNumber == f.flightNumber ==> s.flights[id].bookedSeats == f.bookedSeats
    ensures Valid(BookingSystem.UpdateFlight(s, f, readOk, ok).0)
  {
    var t := BookingSystem.UpdateFlight(s, f, readOk, ok).0;
    forall a, b | a in t.flights && b in t.flights && t.flights[a].flightNumber == t.flights[b].flightNumber
      ensures a == b
    {
      assert t.flights[a].flightNumber == s.flights[a].flightNumber;
      assert t.flights[b].flightNumber == s.flights[b].flightNumber;
    }
  }

  /**
   * `updateFlight` fed an object whose booked seats differ from the row's:
   * the update succeeds and the flight's booked seats no longer match its
   * bookings.
   */
  lemma UpdateFlightStaleCountBreaksLedger(s: Store, f: Flight, id: int)
    requires Valid(s)
    requires id in s.flights && s.flights[id].flightNumber == f.flightNumber
    requires f.bookedSeats != s.flights[id].bookedSeats
    ensures BookingSystem.UpdateFlight(s, f, true, true).1
    ensures !SeatsMatch(BookingSystem.UpdateFlight(s, f, true, true).0)
  {
    var t := BookingSystem.UpdateFlight(s, f, true, true).0;
    assert NumberInUse(s.flights, f.flightNumber);
    assert t.flights[id] == f;
  }

  /**
   * The session that shows it: the flight editor copies booked seats from
   * the flight object loaded at start-up (`edited` carries the start-up
   * count). A customer books seats on that flight first, and then the edit
   * is saved. The edit succeeds, and the seats just booked drop out of the
   * flight's count.
   */
  lemma EditAfterBookingBreaksLedger(s: Store, id: int, user: User, numSeats: I32, today: string, edited: Flight)
    requires Valid(s) && id in s.flights
    requires 0 < numSeats <= AvailableSeats(s.flights[id])
    requires edited.flightNumber == s.flights[id].flightNumber && edited.bookedSeats == s.flights[id].bookedSeats
    ensures var s1 := BookingSystem.CreateBooking(s, Some(user), id, numSeats, today, true, true, true);
            var s2 := BookingSystem.UpdateFlight(s1.0, edited, true, true);
            s1.1 && s2.1 && !SeatsMatch(s2.0)
  {
    var s1 := BookingSystem.CreateBooking(s, Some(user), id, numSeats, today, true, true, true);
    assert s1.1;
    CreateBookingPreserves(s, Some(user), id, numSeats, today, true, true);
    var b := s.flights[id].bookedSeats;
    assert s1.0.flights[id].bookedSeats == Wrap32(b + numSeats);
    WrapShiftChanges(b, numSeats as int);
    UpdateFlightStaleCountBreaksLedger(s1.0, edited, id);
  }

  /**
   * `updateFlight` keeping the booked seats the row already holds, so that
   * an edit of route, capacity or price never rewrites the seat count.
   */
  ghost function UpdateFlightKeepingSeats(s: Store, f: Flight, readOk: bool, ok: bool): (r: (Store, bool))
    ensures r.1 <==> readOk && NumberInUse(s.flights, f.flightNumber)
    ensures !r.1 || !ok ==> r.0 == s
    ensures r.0.flights.Keys == s.flights.Keys
    ensures forall id :: r.1 && ok && UniqueFlightNumbers(s.flights) && id in s.flights && s.flights[id].flightNumber == f.flightNumber
              ==> r.0.flights[id] == SetBookedSeats(f, s.flights[id].bookedSeats)
    ensures forall id :: id in s.flights && s.flights[id].flightNumber != f.flightNumber ==> r.0.flights[id] == s.flights[id]
    ensures r.0 == s.(flights := r.0.flights)
  {
    if !readOk || !NumberInUse(s.flights, f.flightNumber) then (s, false)
    else
      var id :| id in s.flights && s.flights[id].flightNumber == f.flightNumber;
      BookingSystem.UpdateFlight(s, SetBookedSeats(f, s.flights[id].bookedSeats), readOk, ok)
  }

  /** Whatever booked seats the edited object carries, the seat-keeping update keeps the store valid. */
  lemma UpdateFlightKeepingSeatsPreserves(s: Store, f: Flight, readOk: bool, ok: bool)
    requires Valid(s)
    ensures Valid(UpdateFlightKeepingSeats(s, f, readOk, ok).0)
  {
    if readOk && NumberInUse(s.flights, f.flightNumber) {
      var id :| id in s.flights && s.flights[id].flightNumber == f.flightNumber;
      var g := SetBookedSeats(f, s.flights[id].bookedSeats);
      assert UpdateFlightKeepingSeats(s, f, readOk, ok) == BookingSystem.UpdateFlight(s, g, readOk, ok);
      UpdateFlightPreserves(s, g, readOk, ok);
    }
  }

  /**
   * With the in-memory list as loaded from this very store, adding a flight
   * built by the constructor (no booked seats) keeps the store valid.
   */
  lemma AddFlightPreserves(s: Store, f: Flight, ok: bool)
    requires Valid(s)
    requires f.bookedSeats == 0
    ensures Valid(BookingSystem.AddFlight(s, BookingSystem.LoadedNumbers(s), f, ok).0)
  {
    var (t, added) := BookingSystem.AddFlight(s, BookingSystem.LoadedNumbers(s), f, ok);
    if added && ok {
      assert forall id :: id in s.bookings ==> s.bookings[id].flightId != s.nextFlightId;
      SeatsOnAbsent(s.bookings, s.nextFlightId);
      forall a, b | a in t.flights && b in t.flights && t.flights[a].flightNumber == t.flights[b].flightNumber
        ensures a == b
      {
      }
    }
  }

  // ------------------------------------------------------------ modifyBooking

  /** Moving an `int` by a non-zero amount smaller than 2^32 always changes it. */
  lemma WrapShiftChanges(x: int, d: int)
    requires d != 0 && -MODULUS < d < MODULUS
    ensures Wrap32(x + d) != Wrap32(x)
  {
    var w: int := Wrap32(x);
    var v: int := Wrap32(x + d);
    assert d % MODULUS != 0;
    assert (x + d - v) - (x - w) == d - (v - w);
    assert (x + d - v) % MODULUS == 0 && (x - w) % MODULUS == 0;
    var k1 := (x + d - v) / MODULUS;
    var k2 := (x - w) / MODULUS;
    assert (x + d - v) - (x - w) == (k1 - k2) * MODULUS;
  }

  /**
   * `modifyBooking` as written: once it succeeds with a different seat count
   * on a valid store, the flight's booked seats no longer match its bookings.
   */
  lemma ModifyBookingBreaksLedger(s: Store, bookingId: int, newNumSeats: I32, readOk: bool, ok: bool)
    requires Valid(s)
    requires BookingSystem.ModifyBooking(s, bookingId, newNumSeats, readOk, ok).1
    requires newNumSeats != s.bookings[bookingId].numSeats
    ensures !SeatsMatch(BookingSystem.ModifyBooking(s, bookingId, newNumSeats, readOk, ok).0)
  {
    var t := BookingSystem.ModifyBooking(s, bookingId, newNumSeats, readOk, ok).0;
    var row := s.bookings[bookingId];
    var fid := row.flightId;
    var d := newNumSeats - row.numSeats;
    SeatsOnWrite(s.bookings, bookingId, row.(numSeats := newNumSeats), fid);
    assert SeatsOn(t.bookings, fid) == SeatsOn(s.bookings, fid) + d;
    WrapShiftChanges(SeatsOn(s.bookings, fid), d);
    assert t.flights[fid].bookedSeats != Wrap32(SeatsOn(t.bookings, fid));
  }

  /**
   * `modifyBooking` with the evident intent: the same checks, then the new
   * seat count and the flight's booked seats are written together, the
   * latter moved by the seat difference.
   */
  function ModifyBookingReconciled(s: Store, bookingId: int, newNumSeats: I32, readOk: bool, ok: bool): (r: (Store, bool))
    ensures r.1 == BookingSystem.ModifyBooking(s, bookingId, newNumSeats, readOk, ok).1
    ensures r.0.bookings == BookingSystem.ModifyBooking(s, bookingId, newNumSeats, readOk, ok).0.bookings
    ensures r.1 && UniqueFlightNumbers(s.flights) ==>
              var fid := s.bookings[bookingId].flightId;
              r.0.flights == s.flights[fid := SetBookedSeats(s.flights[fid],
                                         Wrap32(s.flights[fid].bookedSeats + (newNumSeats - s.bookings[bookingId].numSeats)))]
    ensures !r.1 ==> r.0 == s
    ensures r.0 == s.(flights := r.0.flights, bookings := r.0.bookings)
  {
    var (t, updated) := BookingSystem.ModifyBooking(s, bookingId, newNumSeats, readOk, ok);
    if !updated then (s, false)
    else
      var row := s.bookings[bookingId];
      (BookingSystem.AdjustSeats(t, row.flightId, newNumSeats - row.numSeats, true), true)
  }

  /** The reconciled modification keeps the store valid. */
  lemma ModifyBookingReconciledPreserves(s: Store, bookingId: int, newNumSeats: I32, readOk: bool, ok: bool)
    requires Valid(s)
    ensures Valid(ModifyBookingReconciled(s, bookingId, newNumSeats, readOk, ok).0)
  {
    var (t, updated) := ModifyBookingReconciled(s, bookingId, newNumSeats, readOk, ok);
    if updated {
      var row := s.bookings[bookingId];
      var d := newNumSeats - row.numSeats;
      forall g
        ensures SeatsOn(t.bookings, g) == SeatsOn(s.bookings, g) + (if g == row.flightId then d else 0)
      {
        SeatsOnWrite(s.bookings, bookingId, row.(numSeats := newNumSeats), g);
      }
      SeatsMatchShift(s, t, row.flightId, d);
      UniqueAfterSeatWrite(s.flights, row.flightId, Wrap32(s.flights[row.flightId].bookedSeats + d));
    }
  }

  // ------------------------------------------------------------ deleteFlight

  /** Some booking is on a flight row with this number. */
  predicate FlightHasBookings(s: Store, flightNumber: string) {
    exists id :: id in s.bookings && s.bookings[id].flightId in s.flights
                 && s.flights[s.bookings[id].flightId].flightNumber == flightNumber
  }

  /** `deleteFlight` as written: deleting a booked flight succeeds and leaves its bookings pointing at no flight. */
  lemma DeleteFlightOrphans(s: Store, flightNumber: string)
    requires Valid(s)
    requires FlightHasBookings(s, flightNumber)
    ensures BookingSystem.DeleteFlight(s, flightNumber, true, true).1
    ensures !NoOrphans(BookingSystem.DeleteFlight(s, flightNumber, true, true).0)
  {
    var id :| id in s.bookings && s.bookings[id].flightId in s.flights
              && s.flights[s.bookings[id].flightId].flightNumber == flightNumber;
    var t := BookingSystem.DeleteFlight(s, flightNumber, true, true).0;
    assert NumberInUse(s.flights, flightNumber);
    assert id in t.bookings && t.bookings[id].flightId !in t.flights;
  }

  /** `deleteFlight` with the check its comment asks for: refuse while bookings exist on the flight. */
  function DeleteFlightGuarded(s: Store, flightNumber: string, readOk: bool, ok: bool): (r: (Store, bool))
    ensures r.1 <==> readOk && ok && NumberInUse(s.flights, flightNumber) && !FlightHasBookings(s, flightNumber)
    ensures !r.1 ==> r.0 == s
    ensures r.1 ==> r.0 == BookingSystem.DeleteFlight(s, flightNumber, readOk, ok).0
  {
    if FlightHasBookings(s, flightNumber) then (s, false)
    else BookingSystem.DeleteFlight(s, flightNumber, readOk, ok)
  }

  /** The guarded delete keeps the store valid. */
  lemma DeleteFlightGuardedPreserves(s: Store, flightNumber: string, readOk: bool, ok: bool)
    requires Valid(s)
    ensures Valid(DeleteFlightGuarded(s, flightNumber, readOk, ok).0)
  {
    var (t, deleted) := DeleteFlightGuarded(s, flightNumber, readOk, ok);
    if deleted {
      forall id | id in t.bookings
        ensures t.bookings[id].flightId in t.flights
      {
        assert s.flights[s.bookings[id].flightId].flightNumber != flightNumber;
      }
    }
  }

  // --------------------------------------------------------------- addFlight

  /**
   * `addFlight` as written: a number missing from the in-memory list passes
   * the check even when the table holds it, and the upsert then overwrites
   * that row's booked seats with the new object's.
   */
  lemma AddFlightStaleListOverwrites(s: Store, loaded: set<string>, f: Flight)
    requires Valid(s)
    requires f.flightNumber !in loaded
    requires exists id :: id in s.flights && s.flights[id].flightNumber == f.flightNumber && s.flights[id].bookedSeats != f.bookedSeats
    ensures BookingSystem.AddFlight(s, loaded, f, true).1
    ensures !SeatsMatch(BookingSystem.AddFlight(s, loaded, f, true).0)
  {
    var id :| id in s.flights && s.flights[id].flightNumber == f.flightNumber && s.flights[id].bookedSeats != f.bookedSeats;
    var t := BookingSystem.AddFlight(s, loaded, f, true).0;
    assert NumberInUse(s.flights, f.flightNumber);
    assert t.flights[id] == f;
  }

  /**
   * The session that shows it: the list is loaded at start-up, a new flight
   * is added, seats are booked on it, and the same flight is added again.
   * The second add succeeds and resets the booked seats to zero.
   */
  lemma AddFlightTwiceInOneSession(s: Store, f: Flight, user: User, numSeats: I32, today: string)
    requires Valid(s)
    requires !NumberInUse(s.flights, f.flightNumber) && f.bookedSeats == 0
    requires 0 < numSeats <= f.capacity
    ensures var loaded := BookingSystem.LoadedNumbers(s);
            var s1 := BookingSystem.AddFlight(s, loaded, f, true).0;
            var s2 := BookingSystem.CreateBooking(s1, Some(user), s.nextFlightId, numSeats, today, true, true, true);
            var s3 := BookingSystem.AddFlight(s2.0, loaded, f, true);
            s2.1 && s3.1 && !SeatsMatch(s3.0)
  {
    var loaded := BookingSystem.LoadedNumbers(s);
    var s1 := BookingSystem.AddFlight(s, loaded, f, true).0;
    AddFlightPreserves(s, f, true);
    assert s1.flights[s.nextFlightId] == f;
    var s2 := BookingSystem.CreateBooking(s1, Some(user), s.nextFlightId, numSeats, today, true, true, true);
    assert s2.1;
    CreateBookingPreserves(s1, Some(user), s.nextFlightId, numSeats, today, true, true);
    assert s2.0.flights[s.nextFlightId].bookedSeats == numSeats;
    assert s2.0.flights[s.nextFlightId].flightNumber == f.flightNumber;
    AddFlightStaleListOverwrites(s2.0, loaded, f);
  }

  /** `addFlight` checking the table itself, as `updateFlight` and `deleteFlight` do. */
  function AddFlightChecked(s: Store, f: Flight, ok: bool): (r: (Store, bool))
    ensures r.1 <==> !NumberInUse(s.flights, f.flightNumber)
    ensures !r.1 ==> r.0 == s
    ensures r.1 && ok ==> r.0.flights == s.flights[s.nextFlightId := f] && r.0.nextFlightId == s.nextFlightId + 1
    ensures r.1 && !ok ==> r.0 == s
    ensures r.0.bookings == s.bookings && r.0.users == s.users && r.0.passengers == s.passengers
  {
    if NumberInUse(s.flights, f.flightNumber) then (s, false)
    else (Database.SaveFlight(s, f, ok), true)
  }

  /** With a list loaded from the current store the two checks agree. */
  lemma AddFlightFreshListAgrees(s: Store, f: Flight, ok: bool)
    ensures BookingSystem.AddFlight(s, BookingSystem.LoadedNumbers(s), f, ok) == AddFlightChecked(s, f, ok)
  {
  }

  /** The checked add of a flight with no booked seats keeps the store valid, whatever happened earlier in the session. */
  lemma AddFlightCheckedPreserves(s: Store, f: Flight, ok: bool)
    requires Valid(s)
    requires f.bookedSeats == 0
    ensures Valid(AddFlightChecked(s, f, ok).0)
  {
    AddFlightFreshListAgrees(s, f, ok);
    AddFlightPreserves(s, f, ok);
  }

  // ----------------------------------------------------------- createBooking

  /** Every flight's booked seats lie between zero and its capacity. */
  ghost predicate WithinCapacity(s: Store) {
    forall fid :: fid in s.flights ==> 0 <= s.flights[fid].bookedSeats <= s.flights[fid].capacity
  }

  /**
   * `createBooking` as written: a seat count of zero or less passes the
   * availability check, so the booking is stored with it, and the flight's
   * booked seats drop below zero when the count exceeds them.
   */
  lemma CreateBookingAcceptsNonPositive(s: Store, user: User, flightId: int, numSeats: I32, today: string)
    requires WithinCapacity(s) && UniqueFlightNumbers(s.flights)
    requires flightId in s.flights && numSeats <= 0
    ensures var r := BookingSystem.CreateBooking(s, Some(user), flightId, numSeats, today, true, true, true);
            r.1 && r.0.bookings[s.nextBookingId].numSeats == numSeats
    ensures s.flights[flightId].bookedSeats + numSeats < 0 ==>
              !WithinCapacity(BookingSystem.CreateBooking(s, Some(user), flightId, numSeats, today, true, true, true).0)
  {
    var f := s.flights[flightId];
    assert AvailableSeats(f) == f.capacity - f.bookedSeats;
    var t := BookingSystem.CreateBooking(s, Some(user), flightId, numSeats, today, true, true, true).0;
    assert t.flights[flightId].bookedSeats == f.bookedSeats + numSeats;
  }

  /** `createBooking` refusing a seat count below one. */
  function CreateBookingChecked(s: Store, user: Option<User>, flightId: int, numSeats: I32, today: string,
                                readOk: bool, insertOk: bool, seatWriteOk: bool): (r: (Store, bool))
    ensures r.1 <==> numSeats > 0 && BookingSystem.CreateBooking(s, user, flightId, numSeats, today, readOk, insertOk, seatWriteOk).1
    ensures !r.1 ==> r.0 == s
    ensures r.1 ==> r.0 == BookingSystem.CreateBooking(s, user, flightId, numSeats, today, readOk, insertOk, seatWriteOk).0
    ensures r.1 ==> r.0.bookings[s.nextBookingId].numSeats > 0
  {
    if numSeats <= 0 then (s, false)
    else BookingSystem.CreateBooking(s, user, flightId, numSeats, today, readOk, insertOk, seatWriteOk)
  }

  /** The checked booking keeps every flight's booked seats within zero and its capacity. */
  lemma CreateBookingCheckedKeepsCapacity(s: Store, user: Option<User>, flightId: int, numSeats: I32, today: string,
                                          readOk: bool, insertOk: bool, seatWriteOk: bool)
    requires WithinCapacity(s) && UniqueFlightNumbers(s.flights)
    ensures WithinCapacity(CreateBookingChecked(s, user, flightId, numSeats, today, readOk, insertOk, seatWriteOk).0)
  {
    var (t, booked) := CreateBookingChecked(s, user, flightId, numSeats, today, readOk, insertOk, seatWriteOk);
    if booked && seatWriteOk {
      var f := s.flights[flightId];
      assert AvailableSeats(f) == f.capacity - f.bookedSeats;
      assert t.flights[flightId].bookedSeats == f.bookedSeats + numSeats;
    }
  }

  /** With the check in place, a valid store stays valid as well. */
  lemma CreateBookingCheckedPreserves(s: Store, user: Option<User>, flightId: int, numSeats: I32, today: string,
                                      readOk: bool, insertOk: bool)
    requires Valid(s)
    ensures Valid(CreateBookingChecked(s, user, flightId, numSeats, today, readOk, insertOk, true).0)
  {
    CreateBookingPreserves(s, user, flightId, numSeats, today, readOk, insertOk);
  }
}
