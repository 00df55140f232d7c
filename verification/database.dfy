/**
 * The operations of `DatabaseManager.java` as pure transitions over the
 * abstract store. Each SQL statement group that can throw `SQLException`
 * takes an `ok` flag: `false` means the statement threw, which the source
 * catches, prints and turns into its failure value. Reads take a `readOk`
 * flag in the same way: a read that throws returns `null`, as for a missing
 * row. Operations run through `executeWithRetry` take instead one
 * environment outcome per attempt.
 */
module Database {
  import opened Wrappers
  import opened JavaInt
  import opened Flights
  import opened Bookings
  import opened People
  import opened Store
  import opened Retry

  /** The `int[]{flightId, seatsCancelled}` pair the cancel methods return. */
  datatype Cancellation = Cancellation(flightId: int, seats: I32)

  // ---------------------------------------------------------------- flights

  /**
   * `getFlightById`. `readOk` is false when the query throws (for instance
   * on the shared connection after another method closed it); the source
   * catches that and returns `null`, as for an unknown id.
   */
  function GetFlightById(s: Store, flightId: int, readOk: bool): (r: Option<Flight>)
    ensures r.Some? <==> readOk && flightId in s.flights
    ensures r.Some? ==> r.value == s.flights[flightId]
  {
    if readOk && flightId in s.flights then Some(s.flights[flightId]) else None
  }

  /** `updateFlightSeats`: every row with that flight number takes the new booked-seat count. */
  function UpdateFlightSeats(s: Store, flightNumber: string, bookedSeats: I32, ok: bool): (t: Store)
    ensures t.flights.Keys == s.flights.Keys
    ensures forall id :: id in s.flights && ok && s.flights[id].flightNumber == flightNumber
              ==> t.flights[id] == SetBookedSeats(s.flights[id], bookedSeats)
    ensures forall id :: id in s.flights && !(ok && s.flights[id].flightNumber == flightNumber)
              ==> t.flights[id] == s.flights[id]
    ensures t.bookings == s.bookings && t.users == s.users && t.passengers == s.passengers
    ensures t.nextFlightId == s.nextFlightId && t.nextBookingId == s.nextBookingId
    ensures t.nextUserId == s.nextUserId && t.nextPassengerId == s.nextPassengerId
  {
    if !ok then s
    else
      s.(flights := map id | id in s.flights ::
        if s.flights[id].flightNumber == flightNumber then SetBookedSeats(s.flights[id], bookedSeats) else s.flights[id])
  }

  /**
   * `saveFlight`: an upsert keyed by flight number. An existing row takes the
   * object's route, capacity, booked seats and price; otherwise a row is
   * inserted under the next id.
   */
  function SaveFlight(s: Store, f: Flight, ok: bool): (t: Store)
    ensures !ok ==> t == s
    ensures ok ==> NumberInUse(t.flights, f.flightNumber)
    ensures forall id :: ok && id in t.flights && t.flights[id].flightNumber == f.flightNumber ==> t.flights[id] == f
    ensures NumberInUse(s.flights, f.flightNumber) ==>
              && t.flights.Keys == s.flights.Keys
              && forall id :: id in s.flights && s.flights[id].flightNumber != f.flightNumber ==> t.flights[id] == s.flights[id]
    ensures ok && !NumberInUse(s.flights, f.flightNumber) ==>
              t.flights == s.flights[s.nextFlightId := f] && t.nextFlightId == s.nextFlightId + 1
    ensures t.bookings == s.bookings && t.users == s.users && t.passengers == s.passengers
  {
    if !ok then s
    else if NumberInUse(s.flights, f.flightNumber) then
      var t := s.(flights := map id | id in s.flights :: if s.flights[id].flightNumber == f.flightNumber then f else s.flights[id]);
      assert NumberInUse(t.flights, f.flightNumber) by {
        var id :| id in s.flights && s.flights[id].flightNumber == f.flightNumber;
        assert t.flights[id] == f;
      }
      t
    else
      var t := s.(flights := s.flights[s.nextFlightId := f], nextFlightId := s.nextFlightId + 1);
      assert t.flights[s.nextFlightId].flightNumber == f.flightNumber;
      t
  }

  /** A flight saved under a new number reads back by the id it was given, with the fields written; the other flights read as before. */
  lemma SavedFlightReadsBack(s: Store, f: Flight)
    requires WellFormed(s) && !NumberInUse(s.flights, f.flightNumber)
    ensures GetFlightById(SaveFlight(s, f, true), s.nextFlightId, true) == Some(f)
    ensures forall id :: id in s.flights ==> GetFlightById(SaveFlight(s, f, true), id, true) == GetFlightById(s, id, true)
  {
  }

  /** After a successful seat write, a flight with that number reads back with the new count, and its available seats follow. */
  lemma SeatWriteReadsBack(s: Store, flightNumber: string, bookedSeats: I32, flightId: int)
    requires flightId in s.flights && s.flights[flightId].flightNumber == flightNumber
    ensures var f := GetFlightById(UpdateFlightSeats(s, flightNumber, bookedSeats, true), flightId, true);
            && f == Some(SetBookedSeats(s.flights[flightId], bookedSeats))
            && AvailableSeats(f.value) == Wrap32(s.flights[flightId].capacity - bookedSeats)
  {
    var t := UpdateFlightSeats(s, flightNumber, bookedSeats, true);
    assert t.flights[flightId] == SetBookedSeats(s.flights[flightId], bookedSeats);
  }

  /** `saveFlight` keeps flight numbers unique and ids fresh, and leaves the rows of other numbers alone. */
  lemma SaveFlightKeepsKeys(s: Store, f: Flight, ok: bool)
    requires WellFormed(s) && UniqueFlightNumbers(s.flights)
    ensures WellFormed(SaveFlight(s, f, ok)) && UniqueFlightNumbers(SaveFlight(s, f, ok).flights)
    ensures forall id :: id in s.flights && s.flights[id].flightNumber != f.flightNumber
              ==> id in SaveFlight(s, f, ok).flights && SaveFlight(s, f, ok).flights[id] == s.flights[id]
  {
  }

  /** `deleteFlight` (DatabaseManager): removes the rows with that number; true when some row went. Bookings are left alone. */
  function DeleteFlight(s: Store, flightNumber: string, ok: bool): (r: (Store, bool))
    ensures r.1 <==> ok && NumberInUse(s.flights, flightNumber)
    ensures !r.1 ==> r.0 == s
    ensures ok ==> !NumberInUse(r.0.flights, flightNumber)
    ensures forall id :: id in s.flights && s.flights[id].flightNumber != flightNumber
              ==> id in r.0.flights && r.0.flights[id] == s.flights[id]
    ensures r.0.flights.Keys <= s.flights.Keys
    ensures r.0.bookings == s.bookings && r.0.users == s.users && r.0.passengers == s.passengers
  {
    if !ok || !NumberInUse(s.flights, flightNumber) then (s, false)
    else
      (s.(flights := map id | id in s.flights && s.flights[id].flightNumber != flightNumber :: s.flights[id]), true)
  }

  // --------------------------------------------------------------- bookings

  /** `getBookingById`, built with the six-argument constructor; a query that throws (`readOk` false) gives `null`. */
  function GetBookingById(s: Store, bookingId: int, readOk: bool): (r: Option<Booking>)
    ensures r.Some? <==> readOk && bookingId in s.bookings
    ensures r.Some? ==> r.value.bookingId == bookingId && ToRow(r.value) == s.bookings[bookingId]
  {
    if readOk && bookingId in s.bookings then Some(FromRow(bookingId, s.bookings[bookingId])) else None
  }

  /** A booking saved by `saveBooking` reads back under the id the table gave it, with every field but the id as written. */
  lemma SavedBookingReadsBack(s: Store, b: Booking)
    ensures GetBookingById(SaveBooking(s, b, true).0, s.nextBookingId, true) == Some(b.(bookingId := s.nextBookingId))
  {
  }

  /** `saveBooking`: inserts the booking's fields under the next id; false when the insert throws. */
  function SaveBooking(s: Store, b: Booking, ok: bool): (r: (Store, bool))
    ensures r.1 == ok
    ensures !ok ==> r.0 == s
    ensures ok ==> r.0.bookings == s.bookings[s.nextBookingId := ToRow(b)]
    ensures ok ==> r.0.nextBookingId == s.nextBookingId + 1
    ensures r.0.flights == s.flights && r.0.users == s.users && r.0.passengers == s.passengers
    ensures r.0.nextFlightId == s.nextFlightId
  {
    if !ok then (s, false)
    else (s.(bookings := s.bookings[s.nextBookingId := ToRow(b)], nextBookingId := s.nextBookingId + 1), true)
  }

  /** The booking row `bookingId`, when it exists and belongs to `userId`. */
  predicate OwnedBy(s: Store, bookingId: int, userId: int) {
    bookingId in s.bookings && s.bookings[bookingId].userId == userId
  }

  /**
   * `cancelBooking` (customer): cancel `n` seats of the user's own booking.
   * Fewer than all seats keeps the row with the rest; all seats deletes it.
   * The flights table is not touched: the caller adjusts booked seats.
   */
  function CancelBooking(s: Store, bookingId: int, userId: int, n: I32, ok: bool): (r: (Store, Option<Cancellation>))
    ensures r.1.None? ==> r.0 == s
    ensures r.1.Some? <==> ok && OwnedBy(s, bookingId, userId) && 0 < n <= s.bookings[bookingId].numSeats
    ensures r.1.Some? ==> r.1.value == Cancellation(s.bookings[bookingId].flightId, n)
    ensures r.1.Some? && n < s.bookings[bookingId].numSeats ==>
              && bookingId in r.0.bookings
              && r.0.bookings[bookingId] == s.bookings[bookingId].(numSeats := s.bookings[bookingId].numSeats - n)
    ensures r.1.Some? && n == s.bookings[bookingId].numSeats ==> bookingId !in r.0.bookings
    ensures forall id :: id != bookingId ==> (id in r.0.bookings <==> id in s.bookings)
    ensures forall id :: id != bookingId && id in s.bookings ==> r.0.bookings[id] == s.bookings[id]
    ensures r.0.flights == s.flights && r.0.users == s.users && r.0.passengers == s.passengers
    ensures r.0.nextBookingId == s.nextBookingId && r.0.nextFlightId == s.nextFlightId
  {
    if !ok || !OwnedBy(s, bookingId, userId) then (s, None)
    else
      var row := s.bookings[bookingId];
      if n <= 0 || n > row.numSeats then (s, None)
      else if n < row.numSeats then
        (s.(bookings := s.bookings[bookingId := row.(numSeats := row.numSeats - n)]), Some(Cancellation(row.flightId, n)))
      else
        (s.(bookings := s.bookings - {bookingId}), Some(Cancellation(row.flightId, row.numSeats)))
  }

  /** `agentCancelBooking`: deletes the booking whoever owns it and reports its flight and seats. */
  function AgentCancelBooking(s: Store, bookingId: int, ok: bool): (r: (Store, Option<Cancellation>))
    ensures r.1.Some? <==> ok && bookingId in s.bookings
    ensures r.1.None? ==> r.0 == s
    ensures r.1.Some? ==> r.1.value == Cancellation(s.bookings[bookingId].flightId, s.bookings[bookingId].numSeats)
    ensures r.1.Some? ==> r.0.bookings == s.bookings - {bookingId}
    ensures r.0.flights == s.flights && r.0.users == s.users && r.0.passengers == s.passengers
    ensures r.0.nextBookingId == s.nextBookingId && r.0.nextFlightId == s.nextFlightId
  {
    if !ok || bookingId !in s.bookings then (s, None)
    else
      var row := s.bookings[bookingId];
      (s.(bookings := s.bookings - {bookingId}), Some(Cancellation(row.flightId, row.numSeats)))
  }

  /** `updateBooking`: rewrites the seat count of one booking row, and nothing else. */
  function UpdateBooking(s: Store, bookingId: int, newNumSeats: I32, ok: bool): (r: (Store, bool))
    ensures r.1 <==> ok && bookingId in s.bookings
    ensures !r.1 ==> r.0 == s
    ensures r.1 ==> r.0.bookings == s.bookings[bookingId := s.bookings[bookingId].(numSeats := newNumSeats)]
    ensures r.0.flights == s.flights && r.0.users == s.users && r.0.passengers == s.passengers
    ensures r.0.nextBookingId == s.nextBookingId && r.0.nextFlightId == s.nextFlightId
  {
    if !ok || bookingId !in s.bookings then (s, false)
    else (s.(bookings := s.bookings[bookingId := s.bookings[bookingId].(numSeats := newNumSeats)]), true)
  }

  /** `updateBookingStatus`: rewrites the status of one booking row, and nothing else. */
  function UpdateBookingStatus(s: Store, bookingId: int, status: string, ok: bool): (r: (Store, bool))
    ensures r.1 <==> ok && bookingId in s.bookings
    ensures !r.1 ==> r.0 == s
    ensures r.1 ==> r.0.bookings == s.bookings[bookingId := s.bookings[bookingId].(status := status)]
    ensures r.0.flights == s.flights && r.0.users == s.users && r.0.passengers == s.passengers
    ensures r.0.nextBookingId == s.nextBookingId && r.0.nextFlightId == s.nextFlightId
  {
    if !ok || bookingId !in s.bookings then (s, false)
    else (s.(bookings := s.bookings[bookingId := s.bookings[bookingId].(status := status)]), true)
  }

  // ------------------------------------------------------------------ users

  predicate HasBookings(s: Store, userId: int) {
    exists id :: id in s.bookings && s.bookings[id].userId == userId
  }

  predicate UsernameTaken(s: Store, username: string) {
    exists id :: id in s.users && s.users[id].username == username
  }

  predicate UserIdTaken(s: Store, userId: string) {
    exists id :: id in s.users && s.users[id].userId == userId
  }

  /** The unit of work of `deleteUser` when the database lets it run: refuse while the user has bookings. */
  function DeleteUserWork(s: Store, userId: int): Attempt<bool> {
    if HasBookings(s, userId) then Ok(false) else Ok(userId in s.users)
  }

  /**
   * `deleteUser`, run through `executeWithRetry`. The method returns the
   * wrapper's `Boolean` as a `boolean`, so a `null` from the wrapper is
   * unboxed: `None` here is the exception that unboxing throws.
   */
  function DeleteUser(s: Store, userId: int, env: Environment): (r: (Store, Option<bool>))
    requires MAX_RETRIES <= |env|
    ensures r.1 == RunWithRetry(RunEach(env, DeleteUserWork(s, userId)))
    ensures r.1 == Some(true) <==> RunWithRetry(env).Some? && !HasBookings(s, userId) && userId in s.users
    ensures r.1 == Some(true) ==> r.0.users == s.users - {userId}
    ensures r.1 != Some(true) ==> r.0 == s
    ensures HasBookings(s, userId) ==> r.0 == s && r.1 != Some(true)
    ensures r.1.None? <==> RunWithRetry(env).None?
    ensures r.0.bookings == s.bookings && r.0.flights == s.flights && r.0.passengers == s.passengers
  {
    RunEachRetry(env, DeleteUserWork(s, userId));
    if RunWithRetry(env).None? then (s, None)
    else if HasBookings(s, userId) || userId !in s.users then (s, Some(false))
    else (s.(users := s.users - {userId}), Some(true))
  }

  /** Three locked attempts make the wrapper give up, and the unboxing of its `null` throws. */
  lemma DeleteUserThrowsAfterLocks(s: Store, userId: int)
    ensures DeleteUser(s, userId, [Locked, Locked, Locked]).1.None?
    ensures DeleteUserOrFalse(s, userId, [Locked, Locked, Locked]) == (s, false)
  {
    var env: Environment := [Locked, Locked, Locked];
    ThreeLocksGiveUp(env);
  }

  /** `deleteUser` as evidently intended: a wrapper that gives up reads as `false`. */
  function DeleteUserOrFalse(s: Store, userId: int, env: Environment): (r: (Store, bool))
    requires MAX_RETRIES <= |env|
    ensures r.1 <==> RunWithRetry(env).Some? && !HasBookings(s, userId) && userId in s.users
    ensures r.1 ==> r.0.users == s.users - {userId}
    ensures !r.1 ==> r.0 == s
    ensures r.1 <==> DeleteUser(s, userId, env).1 == Some(true)
    ensures r.0 == DeleteUser(s, userId, env).0
  {
    var (t, deleted) := DeleteUser(s, userId, env);
    (t, deleted == Some(true))
  }

  /**
   * The unit of work of `registerUser` when the database lets it run. A null
   * role violates the NOT NULL constraint, an SQL error the lambda rethrows;
   * duplicates of the UNIQUE columns map to -1 (username) and -2 (user id);
   * otherwise the generated key.
   */
  function RegisterWork(s: Store, username: string, userId: string, role: Option<string>): Attempt<int> {
    if role.None? then OtherError
    else if UsernameTaken(s, username) then Ok(-1)
    else if UserIdTaken(s, userId) then Ok(-2)
    else Ok(s.nextUserId)
  }

  /** `registerUser`: the generated id, or -1 / -2 for a duplicate username / user id, or -3 for any other failure. */
  function RegisterUser(s: Store, username: string, password: string, email: string, phoneNumber: string,
                        userId: string, role: Option<string>, env: Environment): (r: (Store, int))
    requires MAX_RETRIES <= |env|
    ensures r.1 == RunWithRetry(RunEach(env, RegisterWork(s, username, userId, role))).GetOr(-3)
    ensures RunWithRetry(env).None? || role.None? ==> r == (s, -3)
    ensures RunWithRetry(env).Some? && role.Some? && UsernameTaken(s, username) ==> r == (s, -1)
    ensures RunWithRetry(env).Some? && role.Some? && !UsernameTaken(s, username) && UserIdTaken(s, userId) ==> r == (s, -2)
    ensures RunWithRetry(env).Some? && role.Some? && !UsernameTaken(s, username) && !UserIdTaken(s, userId) ==>
              && r.1 == s.nextUserId
              && r.0.users == s.users[s.nextUserId := UserRow(username, password, email, phoneNumber, userId, role.value)]
              && r.0.nextUserId == s.nextUserId + 1
    ensures r.0.bookings == s.bookings && r.0.flights == s.flights && r.0.passengers == s.passengers
  {
    RunEachRetry(env, RegisterWork(s, username, userId, role));
    if RunWithRetry(env).None? || role.None? then (s, -3)
    else if UsernameTaken(s, username) then (s, -1)
    else if UserIdTaken(s, userId) then (s, -2)
    else
      (s.(users := s.users[s.nextUserId := UserRow(username, password, email, phoneNumber, userId, role.value)],
          nextUserId := s.nextUserId + 1), s.nextUserId)
  }

  const ADMINISTRATOR: string := "Administrator"
  const AGENT: string := "Agent"

  /**
   * The role of the object `getUserByUsername` builds: the switch on the
   * stored role makes an `Administrator` or an `Agent` for those two names
   * and a `Customer` for every other string.
   */
  function BuiltRole(stored: string): (role: string)
    ensures role == ADMINISTRATOR || role == AGENT || role == CUSTOMER
    ensures stored == ADMINISTRATOR || stored == AGENT || stored == CUSTOMER ==> role == stored
    ensures role == CUSTOMER <==> stored != ADMINISTRATOR && stored != AGENT
  {
    if stored == ADMINISTRATOR || stored == AGENT then stored else CUSTOMER
  }

  /** A user row read back as a `User` object of the subclass its role selects. */
  function UserFromRow(id: int, u: UserRow): (user: User)
    ensures user.id == id && user.username == u.username && user.password == u.password
    ensures user.email == u.email && user.phoneNumber == u.phoneNumber && user.userId == u.userId
    ensures user.role == BuiltRole(u.role)
  {
    User(id, u.username, u.password, u.email, u.phoneNumber, u.userId, BuiltRole(u.role))
  }

  /**
   * `getUserByUsername`: the row with that (unique) username, as a `User`
   * whose role is the subclass's; a query that throws (`readOk` false)
   * gives `null`.
   */
  ghost function GetUserByUsername(s: Store, username: string, readOk: bool): (r: Option<User>)
    ensures r.Some? <==> readOk && UsernameTaken(s, username)
    ensures r.Some? ==> r.value.id in s.users && r.value.username == username
    ensures r.Some? ==> r.value == UserFromRow(r.value.id, s.users[r.value.id])
  {
    if readOk && UsernameTaken(s, username) then
      var id :| id in s.users && s.users[id].username == username;
      Some(UserFromRow(id, s.users[id]))
    else None
  }

  /**
   * `updateUser` as written: both of its statements filter on a `db_id`
   * column that the users table does not have (the key is `id`), so the
   * statement throws when it is prepared and the method returns false
   * without writing, whatever the arguments.
   */
  function UpdateUser(s: Store, dbId: int, email: string, phoneNumber: string, newPassword: Option<string>, ok: bool)
    : (r: (Store, bool))
    ensures !r.1 && r.0 == s
  {
    (s, false)
  }

  /**
   * `updateUser` as evidently intended (`WHERE id = ?`): set the e-mail and
   * phone number of the user row, and the password too when a non-empty new
   * one is given.
   */
  function UpdateUserById(s: Store, dbId: int, email: string, phoneNumber: string, newPassword: Option<string>, ok: bool)
    : (r: (Store, bool))
    ensures r.1 <==> ok && dbId in s.users
    ensures !r.1 ==> r.0 == s
    ensures r.0.users.Keys == s.users.Keys
    ensures forall id :: id in s.users && id != dbId ==> r.0.users[id] == s.users[id]
    ensures r.1 ==> r.0.users[dbId] == s.users[dbId].(email := email, phoneNumber := phoneNumber, password := r.0.users[dbId].password)
    ensures r.1 && newPassword.Some? && |newPassword.value| > 0 ==> r.0.users[dbId].password == newPassword.value
    ensures newPassword.None? || |newPassword.value| == 0 ==>
              forall id :: id in s.users ==> r.0.users[id].password == s.users[id].password
    ensures r.0 == s.(users := r.0.users)
  {
    if !ok || dbId !in s.users then (s, false)
    else
      var u := s.users[dbId];
      var password := if newPassword.Some? && |newPassword.value| > 0 then newPassword.value else u.password;
      (s.(users := s.users[dbId := u.(email := email, phoneNumber := phoneNumber, password := password)]), true)
  }

  /**
   * For an existing user, whatever the new password and whether or not the
   * statement would otherwise run, the update as written reports failure and
   * leaves the row as it was, where the intended one succeeds and the new
   * e-mail and phone number read back.
   */
  lemma UpdateUserMissesExistingRow(s: Store, dbId: int, email: string, phoneNumber: string, newPassword: Option<string>)
    requires dbId in s.users
    ensures forall ok: bool :: UpdateUser(s, dbId, email, phoneNumber, newPassword, ok) == (s, false)
    ensures UpdateUserById(s, dbId, email, phoneNumber, newPassword, true).1
    ensures UpdateUserById(s, dbId, email, phoneNumber, newPassword, true).0.users[dbId].email == email
    ensures UpdateUserById(s, dbId, email, phoneNumber, newPassword, true).0.users[dbId].phoneNumber == phoneNumber
    ensures email != s.users[dbId].email ==>
              UpdateUser(s, dbId, email, phoneNumber, newPassword, true).0 != UpdateUserById(s, dbId, email, phoneNumber, newPassword, true).0
  {
  }

  // ------------------------------------------------------------- passengers

  predicate PassportTaken(s: Store, passportNumber: string) {
    exists id :: id in s.passengers && s.passengers[id].passportNumber == passportNumber
  }

  /** The UNIQUE constraint on `passengers.passport_number`. */
  ghost predicate UniquePassports(passengers: map<int, PassengerRow>) {
    forall a, b :: a in passengers && b in passengers && passengers[a].passportNumber == passengers[b].passportNumber ==> a == b
  }

  /** `savePassenger`: the generated id, or -1 when the insert fails (a passport number already on file violates UNIQUE). */
  function SavePassenger(s: Store, name: string, passportNumber: string, dateOfBirth: string,
                         specialRequests: Option<string>, ok: bool): (r: (Store, int))
    ensures r.1 == -1 || r.1 == s.nextPassengerId
    ensures (!ok || PassportTaken(s, passportNumber)) ==> r == (s, -1)
    ensures ok && !PassportTaken(s, passportNumber) ==>
              && r.0.passengers == s.passengers[s.nextPassengerId := PassengerRow(name, passportNumber, dateOfBirth, specialRequests)]
              && r.0.nextPassengerId == s.nextPassengerId + 1
    ensures r.0.bookings == s.bookings && r.0.flights == s.flights && r.0.users == s.users
  {
    if !ok || PassportTaken(s, passportNumber) then (s, -1)
    else
      (s.(passengers := s.passengers[s.nextPassengerId := PassengerRow(name, passportNumber, dateOfBirth, specialRequests)],
          nextPassengerId := s.nextPassengerId + 1), s.nextPassengerId)
  }

  /** `updatePassenger`: rewrites one passenger row; false when it is missing or the new passport belongs to another row. */
  function UpdatePassenger(s: Store, passengerId: int, name: string, passportNumber: string, dateOfBirth: string,
                           specialRequests: Option<string>, ok: bool): (r: (Store, bool))
    ensures r.1 <==> ok && passengerId in s.passengers
                      && forall id :: id in s.passengers && id != passengerId ==> s.passengers[id].passportNumber != passportNumber
    ensures !r.1 ==> r.0 == s
    ensures r.1 ==> r.0.passengers == s.passengers[passengerId := PassengerRow(name, passportNumber, dateOfBirth, specialRequests)]
    ensures r.0.bookings == s.bookings && r.0.flights == s.flights && r.0.users == s.users
  {
    if !ok || passengerId !in s.passengers
       || exists id :: id in s.passengers && id != passengerId && s.passengers[id].passportNumber == passportNumber
    then (s, false)
    else (s.(passengers := s.passengers[passengerId := PassengerRow(name, passportNumber, dateOfBirth, specialRequests)]), true)
  }

  /**
   * Both passenger writes keep passport numbers unique and ids fresh, and a
   * successful write reads back: the row under its id holds what was written.
   */
  lemma PassengerWritesKeepPassportsUnique(s: Store, passengerId: int, name: string, passportNumber: string,
                                           dateOfBirth: string, specialRequests: Option<string>, ok: bool)
    requires WellFormed(s) && UniquePassports(s.passengers)
    ensures var (t, id) := SavePassenger(s, name, passportNumber, dateOfBirth, specialRequests, ok);
            && WellFormed(t) && UniquePassports(t.passengers)
            && (id != -1 ==> t.passengers[id] == PassengerRow(name, passportNumber, dateOfBirth, specialRequests))
    ensures var (t, updated) := UpdatePassenger(s, passengerId, name, passportNumber, dateOfBirth, specialRequests, ok);
            && WellFormed(t) && UniquePassports(t.passengers)
            && (updated ==> t.passengers[passengerId] == PassengerRow(name, passportNumber, dateOfBirth, specialRequests))
  {
    var (t, id) := SavePassenger(s, name, passportNumber, dateOfBirth, specialRequests, ok);
    if id != -1 {
      forall a, b | a in t.passengers && b in t.passengers && t.passengers[a].passportNumber == t.passengers[b].passportNumber
        ensures a == b
      {
        if a != id && b != id {
          assert s.passengers[a].passportNumber == s.passengers[b].passportNumber;
        }
      }
    }
    var (u, updated) := UpdatePassenger(s, passengerId, name, passportNumber, dateOfBirth, specialRequests, ok);
    if updated {
      forall a, b | a in u.passengers && b in u.passengers && u.passengers[a].passportNumber == u.passengers[b].passportNumber
        ensures a == b
      {
        if a != passengerId && b != passengerId {
          assert s.passengers[a].passportNumber == s.passengers[b].passportNumber;
        }
      }
    }
  }
}
