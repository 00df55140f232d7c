/**
 * The flight record (`Flight.java`). A flight object carries no database id:
 * the flights table keys it by an AUTOINCREMENT id and by its unique flight
 * number.
 */
module Flights {
  import opened JavaInt

  /** `price` is a Java `double`; the model only stores and copies it. */
  datatype Flight = Flight(
    flightNumber: string,
    departure: string,
    destination: string,
    capacity: I32,
    bookedSeats: I32,
    price: real)

  /** The five-argument constructor: booked seats start at the field default 0. */
  function NewFlight(flightNumber: string, departure: string, destination: string, capacity: I32, price: real): (f: Flight)
    ensures f.bookedSeats == 0
    ensures f.flightNumber == flightNumber && f.departure == departure && f.destination == destination
    ensures f.capacity == capacity && f.price == price
  {
    Flight(flightNumber, departure, destination, capacity, 0, price)
  }

  /** `getAvailableSeats`: capacity minus booked seats, in Java `int` arithmetic. */
  function AvailableSeats(f: Flight): (r: I32)
    ensures InRange(f.capacity - f.bookedSeats) ==> r == f.capacity - f.bookedSeats
    ensures (f.capacity - f.bookedSeats - r) % MODULUS == 0
  {
    Wrap32(f.capacity - f.bookedSeats)
  }

  /** `setBookedSeats` accepts any `int`: nothing bounds it by zero or by the capacity. */
  function SetBookedSeats(f: Flight, bookedSeats: I32): (g: Flight)
    ensures g.bookedSeats == bookedSeats
    ensures g.flightNumber == f.flightNumber && g.departure == f.departure && g.destination == f.destination
    ensures g.capacity == f.capacity && g.price == f.price
  {
    f.(bookedSeats := bookedSeats)
  }

  function SetPrice(f: Flight, price: real): (g: Flight)
    ensures g.price == price
    ensures g.flightNumber == f.flightNumber && g.departure == f.departure && g.destination == f.destination
    ensures g.capacity == f.capacity && g.bookedSeats == f.bookedSeats
  {
    f.(price := price)
  }

  /** The two mutators a `Flight` object offers. */
  datatype FlightUpdate = ToBookedSeats(n: I32) | ToPrice(p: real)

  function Apply(f: Flight, updates: seq<FlightUpdate>): Flight
    decreases |updates|
  {
    if |updates| == 0 then f
    else
      var g := match updates[0]
        case ToBookedSeats(n) => SetBookedSeats(f, n)
        case ToPrice(p) => SetPrice(f, p);
      Apply(g, updates[1..])
  }

  /** Flight number, route and capacity have no setters, so no sequence of updates changes them. */
  lemma {:induction false} IdentityIsFixed(f: Flight, updates: seq<FlightUpdate>)
    ensures Apply(f, updates).flightNumber == f.flightNumber
    ensures Apply(f, updates).capacity == f.capacity
    ensures Apply(f, updates).departure == f.departure && Apply(f, updates).destination == f.destination
    decreases |updates|
  {
    if |updates| > 0 {
      var g := match updates[0]
        case ToBookedSeats(n) => SetBookedSeats(f, n)
        case ToPrice(p) => SetPrice(f, p);
      IdentityIsFixed(g, updates[1..]);
    }
  }

  /** After `setBookedSeats(n)` the available seats are capacity minus `n` (when that does not overflow). */
  lemma AvailableAfterSetBookedSeats(f: Flight, n: I32)
    requires InRange(f.capacity - n)
    ensures AvailableSeats(SetBookedSeats(f, n)) == f.capacity - n
    ensures AvailableSeats(SetBookedSeats(f, n)) + n == f.capacity
  {
  }

  /** A new flight offers its whole capacity. */
  lemma NewFlightIsEmpty(number: string, departure: string, destination: string, capacity: I32, price: real)
    ensures AvailableSeats(NewFlight(number, departure, destination, capacity, price)) == capacity
  {
  }
}

/**
 * The booking record (`Booking.java`) and the row the bookings table keeps
 * for it. Statuses are the free-form strings the source writes.
 */
module Bookings {
  import opened JavaInt

  const PENDING: string := "Pending"
  const PAID: string := "Paid"

  datatype Booking = Booking(
    bookingId: int,
    userId: int,
    flightId: int,
    numSeats: I32,
    bookingDate: string,
    status: string)

  /** A row of the bookings table: everything but the id, which keys the row. */
  datatype BookingRow = BookingRow(
    userId: int,
    flightId: int,
    numSeats: I32,
    bookingDate: string,
    status: string)

  /**
   * The three-argument constructor. `today` stands for `LocalDate.now()`; the id
   * keeps its field default 0 (unassigned) and the status starts as Pending.
   */
  function NewBooking(userId: int, flightId: int, numSeats: I32, today: string): (b: Booking)
    ensures b.status == PENDING
    ensures b.bookingId == 0
    ensures b.userId == userId && b.flightId == flightId && b.numSeats == numSeats
    ensures b.bookingDate == today
  {
    Booking(0, userId, flightId, numSeats, today, PENDING)
  }

  /** What `saveBooking` writes: every field except the id, which the table assigns. */
  function ToRow(b: Booking): (r: BookingRow)
    ensures r.userId == b.userId && r.flightId == b.flightId && r.numSeats == b.numSeats
    ensures r.bookingDate == b.bookingDate && r.status == b.status
  {
    BookingRow(b.userId, b.flightId, b.numSeats, b.bookingDate, b.status)
  }

  /** What the readers build with the six-argument constructor from a row and its id. */
  function FromRow(id: int, r: BookingRow): (b: Booking)
    ensures b.bookingId == id
    ensures b.userId == r.userId && b.flightId == r.flightId && b.numSeats == r.numSeats
    ensures b.bookingDate == r.bookingDate && b.status == r.status
  {
    Booking(id, r.userId, r.flightId, r.numSeats, r.bookingDate, r.status)
  }

  /** Reading a row back and writing it again loses nothing. */
  lemma RowRoundTrip(id: int, r: BookingRow)
    ensures ToRow(FromRow(id, r)) == r
  {
  }

  /** A booking written and read back under its own id is the same booking. */
  lemma BookingRoundTrip(b: Booking)
    ensures FromRow(b.bookingId, ToRow(b)) == b
  {
  }

  function SetNumSeats(b: Booking, numSeats: I32): (c: Booking)
    ensures c.numSeats == numSeats
    ensures c.bookingId == b.bookingId && c.userId == b.userId && c.flightId == b.flightId
    ensures c.bookingDate == b.bookingDate && c.status == b.status
  {
    b.(numSeats := numSeats)
  }

  function SetStatus(b: Booking, status: string): (c: Booking)
    ensures c.status == status
    ensures c.bookingId == b.bookingId && c.userId == b.userId && c.flightId == b.flightId
    ensures c.numSeats == b.numSeats && c.bookingDate == b.bookingDate
  {
    b.(status := status)
  }

  function SetBookingId(b: Booking, bookingId: int): (c: Booking)
    ensures c.bookingId == bookingId
    ensures c.userId == b.userId && c.flightId == b.flightId && c.numSeats == b.numSeats
    ensures c.bookingDate == b.bookingDate && c.status == b.status
  {
    b.(bookingId := bookingId)
  }

  function SetUserId(b: Booking, userId: int): (c: Booking)
    ensures c.userId == userId
    ensures c.bookingId == b.bookingId && c.flightId == b.flightId && c.numSeats == b.numSeats
    ensures c.bookingDate == b.bookingDate && c.status == b.status
  {
    b.(userId := userId)
  }

  function SetFlightId(b: Booking, flightId: int): (c: Booking)
    ensures c.flightId == flightId
    ensures c.bookingId == b.bookingId && c.userId == b.userId && c.numSeats == b.numSeats
    ensures c.bookingDate == b.bookingDate && c.status == b.status
  {
    b.(flightId := flightId)
  }

  function SetBookingDate(b: Booking, bookingDate: string): (c: Booking)
    ensures c.bookingDate == bookingDate
    ensures c.bookingId == b.bookingId && c.userId == b.userId && c.flightId == b.flightId
    ensures c.numSeats == b.numSeats && c.status == b.status
  {
    b.(bookingDate := bookingDate)
  }
}

/** The plain records of `User.java`, `Passenger.java` and `Payment.java`. */
module People {
  import opened Wrappers

  const CUSTOMER: string := "Customer"

  /** `id` is the database id; `userId` is the user-chosen identifier string. */
  datatype User = User(
    id: int,
    username: string,
    password: string,
    email: string,
    phoneNumber: string,
    userId: string,
    role: string)

  datatype Passenger = Passenger(
    passengerId: int,
    name: string,
    passportNumber: string,
    dateOfBirth: string,
    specialRequests: string)

  /** The four-argument `Passenger` constructor: special requests start empty. */
  function NewPassenger(passengerId: int, name: string, passportNumber: string, dateOfBirth: string): (p: Passenger)
    ensures p.specialRequests == ""
    ensures p.passengerId == passengerId && p.name == name
    ensures p.passportNumber == passportNumber && p.dateOfBirth == dateOfBirth
  {
    Passenger(passengerId, name, passportNumber, dateOfBirth, "")
  }

  /** `Payment.java` is a stub no operation uses; `amount` is a Java `double`. */
  datatype Payment = Payment(
    paymentId: int,
    bookingReference: string,
    amount: real,
    paymentMethod: string,
    status: string,
    transactionDate: Option<string>)
}
