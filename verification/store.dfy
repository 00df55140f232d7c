/**
 * The SQLite database as an abstract store: one map per table, keyed by the
 * AUTOINCREMENT id, plus the next id each table will hand out. The seat
 * ledger (a flight's booked seats against the seats of its bookings) is
 * stated here; which operations keep it is proved in module Ledger.
 */
module Store {
  import opened Wrappers
  import opened JavaInt
  import opened Flights
  import opened Bookings

  datatype UserRow = UserRow(
    username: string,
    password: string,
    email: string,
    phoneNumber: string,
    userId: string,
    role: string)

  /** `special_requests` is the one nullable text column. */
  datatype PassengerRow = PassengerRow(
    name: string,
    passportNumber: string,
    dateOfBirth: string,
    specialRequests: Option<string>)

  datatype Store = Store(
    flights: map<int, Flight>,
    nextFlightId: int,
    bookings: map<int, BookingRow>,
    nextBookingId: int,
    users: map<int, UserRow>,
    nextUserId: int,
    passengers: map<int, PassengerRow>,
    nextPassengerId: int)

  /** AUTOINCREMENT never hands out an id that is already in use, and ids start at 1. */
  ghost predicate WellFormed(s: Store) {
    && 1 <= s.nextFlightId && 1 <= s.nextBookingId && 1 <= s.nextUserId && 1 <= s.nextPassengerId
    && (forall id :: id in s.flights ==> id < s.nextFlightId)
    && (forall id :: id in s.bookings ==> id < s.nextBookingId)
    && (forall id :: id in s.users ==> id < s.nextUserId)
    && (forall id :: id in s.passengers ==> id < s.nextPassengerId)
  }

  /** The UNIQUE constraint on `flights.flight_number`. */
  ghost predicate UniqueFlightNumbers(flights: map<int, Flight>) {
    forall a, b :: a in flights && b in flights && flights[a].flightNumber == flights[b].flightNumber ==> a == b
  }

  /** `SELECT id FROM flights WHERE flight_number = ?` finds a row. */
  predicate NumberInUse(flights: map<int, Flight>, flightNumber: string) {
    exists id :: id in flights && flights[id].flightNumber == flightNumber
  }

  /** The seats one booking row holds on flight `flightId`. */
  function SeatsFor(r: BookingRow, flightId: int): int {
    if r.flightId == flightId then r.numSeats else 0
  }

  lemma SomeKey(keys: set<int>)
    requires keys != {}
    ensures exists k :: k in keys
  {
    if forall k :: k !in keys {
      assert false;
    }
  }

  /** An arbitrary id of a non-empty table. */
  ghost function AnyKey<V>(m: map<int, V>): (k: int)
    requires m.Keys != {}
    ensures k in m
  {
    SomeKey(m.Keys);
    var k :| k in m.Keys; k
  }

  /** The total seats of the bookings on flight `flightId`, in unbounded arithmetic. */
  ghost function SeatsOn(bookings: map<int, BookingRow>, flightId: int): int
    decreases |bookings|
  {
    if bookings.Keys == {} then 0
    else
      var k := AnyKey(bookings);
      assert |bookings - {k}| < |bookings| by {
        assert (bookings - {k}).Keys == bookings.Keys - {k};
      }
      SeatsFor(bookings[k], flightId) + SeatsOn(bookings - {k}, flightId)
  }

  /** The sum does not depend on which row is taken out first. */
  lemma {:induction false} SeatsOnRemove(bookings: map<int, BookingRow>, k: int, flightId: int)
    requires k in bookings
    ensures SeatsOn(bookings, flightId) == SeatsFor(bookings[k], flightId) + SeatsOn(bookings - {k}, flightId)
    decreases |bookings|
  {
    var j :| j in bookings && SeatsOn(bookings, flightId) == SeatsFor(bookings[j], flightId) + SeatsOn(bookings - {j}, flightId);
    if j != k {
      var rest := bookings - {j} - {k};
      assert (bookings - {j}).Keys == bookings.Keys - {j};
      assert (bookings - {k}).Keys == bookings.Keys - {k};
      SeatsOnRemove(bookings - {j}, k, flightId);
      SeatsOnRemove(bookings - {k}, j, flightId);
      assert bookings - {j} - {k} == bookings - {k} - {j};
    }
  }

  /** Writing row `r` under id `k` (insert or overwrite) changes the sum by the difference of the two rows. */
  lemma SeatsOnWrite(bookings: map<int, BookingRow>, k: int, r: BookingRow, flightId: int)
    ensures SeatsOn(bookings[k := r], flightId)
         == SeatsOn(bookings, flightId) + SeatsFor(r, flightId) - (if k in bookings then SeatsFor(bookings[k], flightId) else 0)
  {
    var m := bookings[k := r];
    SeatsOnRemove(m, k, flightId);
    if k in bookings {
      SeatsOnRemove(bookings, k, flightId);
      assert m - {k} == bookings - {k};
    } else {
      assert m - {k} == bookings;
    }
  }

  /** Deleting row `k` lowers the sum by that row's seats. */
  lemma SeatsOnDelete(bookings: map<int, BookingRow>, k: int, flightId: int)
    ensures SeatsOn(bookings - {k}, flightId)
         == SeatsOn(bookings, flightId) - (if k in bookings then SeatsFor(bookings[k], flightId) else 0)
  {
    if k in bookings {
      SeatsOnRemove(bookings, k, flightId);
    } else {
      assert bookings - {k} == bookings;
    }
  }

  /** Every booking refers to a flight row (the schema's foreign key on `bookings.flight_id`). */
  ghost predicate NoOrphans(s: Store) {
    forall id :: id in s.bookings ==> s.bookings[id].flightId in s.flights
  }

  /** Each flight's booked-seat column equals the seats of its bookings, as a Java `int`. */
  ghost predicate SeatsMatch(s: Store) {
    forall fid :: fid in s.flights ==> s.flights[fid].bookedSeats == Wrap32(SeatsOn(s.bookings, fid))
  }

  /** The seat-ledger invariant. */
  ghost predicate Consistent(s: Store) {
    NoOrphans(s) && SeatsMatch(s)
  }

  /** When the total fits in an `int` the ledger is exact: booked seats equal the plain sum. */
  lemma ConsistentIsExact(s: Store, fid: int)
    requires SeatsMatch(s) && fid in s.flights
    requires InRange(SeatsOn(s.bookings, fid))
    ensures s.flights[fid].bookedSeats == SeatsOn(s.bookings, fid)
  {
  }

  /** An empty database is consistent. */
  lemma EmptyIsConsistent()
    ensures Consistent(Store(map[], 1, map[], 1, map[], 1, map[], 1))
    ensures WellFormed(Store(map[], 1, map[], 1, map[], 1, map[], 1))
  {
  }
}
