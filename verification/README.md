# Flight booking: seat ledger, booking lifecycle and input validation

A Dafny model of the core of a Java/Swing flight-booking application backed by
SQLite. The database is an abstract store: one immutable map per table (flights,
bookings, users, passengers), keyed by the AUTOINCREMENT id, plus the next id
each table hands out. Every operation of `DatabaseManager`, `BookingSystem`,
`PassengerService` and `UserService` that the booking flow uses is a pure
transition `(store, arguments) -> (store', result)`. The decision logic of the
customer's bookings window, the payment window and the passenger dialog is
modelled the same way, with dialogs and typed text as parameters.

The central property is the seat ledger. Every flight's `booked_seats` column
equals the sum of the seats of the bookings on that flight, computed in Java
`int` arithmetic. The model does not assume the ledger holds. Module `Ledger`
proves which operations keep it: booking creation, agent cancellation,
customer cancellation and payment, plus updating and adding flights under
stated conditions. It also proves which operations break it: modifying a
booking, deleting a booked flight, re-adding a flight within one session, and
editing a flight whose seats were booked after start-up.

Modules, in dependency order:

- `Wrappers`: `Option`.
- `JavaInt`: the 32-bit `int` and its two's-complement wrap-around.
- `JavaText`: `String.trim()`, blankness and the `[0-9]` class.
- `JavaParse`: `Integer.parseInt` and `Integer.toString`.
- `Flights`, `Bookings`, `People`: the record classes.
- `Store`: the tables, AUTOINCREMENT well-formedness, the UNIQUE flight number, and the ledger invariant.
- `Retry`: `executeWithRetry`, as functions and as the source's loop.
- `Database`: `DatabaseManager`.
- `BookingSystem`.
- `MyBookings`: `MyBookingsWindow`.
- `PaymentWindow`.
- `PassengerService`.
- `PassengerDialog`: `PassengerInfoDialog`.
- `UserService`.
- `Ledger`: preservation lemmas, counterexamples and corrected operations.

Modelling conventions:

- A Java `null` argument or result is `None`.
- An `SQLException` is a `false` flag on the statement group it would abort. The source catches it, prints it and returns its failure value.
- A read that fails is a `readOk` (or `userReadOk`) flag. The source catches the `SQLException` and returns `null` or -1, which its callers cannot tell from a missing row. So a `false` flag takes the caller's not-found branch.
- Operations run through `executeWithRetry` take an environment instead: one outcome per attempt (`Ok`, `Locked`, `OtherError`, `Interrupted`).
- `LocalDate.now()` is the `today` parameter.
- Ids are unbounded integers. Seat counts and capacities are Java `int` (`I32`), and every `+`/`-` on them is wrapped explicitly.

Behaviour of the code that the model keeps as written:

- `modifyBooking` rewrites only the booking's seat count and leaves the flight's booked seats as they were (BookingSystem.java:258-261).
- `createBooking` inserts the booking and then writes the flight's booked seats as two separate statements with no transaction around them (BookingSystem.java:86-94). Its comment at BookingSystem.java:90-92 says the seats are taken at creation, while the booking is still pending.
- Every failure comes back as `false`, `null` or -1 (for example DatabaseManager.java:661-664). The exception is `deleteUser` when the retry wrapper gives up: it unboxes a `null` and throws (DatabaseManager.java:1096-1116; see Findings).
- A customer's cancel lowers the flight's booked seats in the window, after `cancelBookingSeats` returns (MyBookingsWindow.java:112-126).
- `createBooking` compares the seat count only with the available seats, so a count of zero or less passes (BookingSystem.java:79).
- `deleteFlight` does not look at bookings; its TODO at BookingSystem.java:174 says so.

## Model

| member | source | states |
|---|---|---|
| JavaInt.Wrap32 | BookingSystem.java:93 | the `int` a Java sum yields: the value itself when it fits, and otherwise the value congruent to it modulo 2^32 in the `int` range |
| Flights.NewFlight | Flight.java:9-15 | a new flight keeps the given number, route, capacity and price, with 0 booked seats |
| Flights.AvailableSeats | Flight.java:17-19 | available seats are capacity minus booked seats, congruent modulo 2^32 and exact when the difference fits in an `int` |
| Flights.SetBookedSeats | Flight.java:47-49 | sets booked seats to any `int`, changing no other field |
| Flights.SetPrice | Flight.java:51-53 | sets the price, changing no other field |
| Flights.IdentityIsFixed | Flight.java:46-53 | no sequence of setter calls changes a flight's number, route or capacity |
| Flights.AvailableAfterSetBookedSeats | Flight.java:17-19 | after `setBookedSeats(n)`, available seats plus `n` give back the capacity |
| Flights.NewFlightIsEmpty | Flight.java:9-19 | a new flight offers its whole capacity |
| Bookings.NewBooking | Booking.java:9-15 | the three-argument constructor gives status Pending, id 0 and today's date, with the given user, flight and seats |
| Bookings.ToRow | DatabaseManager.java:483-511 | the row `saveBooking` writes holds every field of the booking except its id |
| Bookings.FromRow | Booking.java:17-24 | the six-argument constructor stores every field as given |
| Bookings.RowRoundTrip | Booking.java:17-24 | a row read back into a booking and written again is unchanged |
| Bookings.BookingRoundTrip | Booking.java:17-24 | a booking written and read back under its own id is the same booking |
| Bookings.SetBookingId | Booking.java:35 | changes only the booking id |
| Bookings.SetUserId | Booking.java:36 | changes only the user id |
| Bookings.SetFlightId | Booking.java:37 | changes only the flight id |
| Bookings.SetNumSeats | Booking.java:38 | changes only the seat count |
| Bookings.SetBookingDate | Booking.java:39 | changes only the date |
| Bookings.SetStatus | Booking.java:40 | changes only the status |
| People.NewPassenger | Passenger.java:9-15 | the four-argument constructor keeps id, name, passport and date of birth and leaves special requests empty |
| JavaText.Trim | PaymentWindow.java:56-58 | the result is no longer than the input, has no trimmable character at either end, and is empty exactly when the input is blank |
| JavaText.TrimIsInfix | PaymentWindow.java:56-58 | the result is the piece of the input between a block of trimmable characters at the front and one at the back; with `Trim`, those blocks are as long as they can be |
| JavaText.TrimIdempotent | PaymentWindow.java:56-58 | trimming twice is trimming once |
| JavaText.IsNotBlankMeans | UserService.java:93-95 | `isNotEmpty` holds exactly for a non-null string whose trim is non-empty, that is, one holding a character above U+0020 |
| JavaParse.ParseInt | MyBookingsWindow.java:88-90 | a parsed value comes from a sign or digit followed by digits only, and a negative value from a leading minus |
| JavaParse.ParseIntRoundTrip | MyBookingsWindow.java:88-90 | every `int` parses back from its decimal text |
| JavaParse.ParseDigits | MyBookingsWindow.java:88-90 | a digit string parses exactly when it is non-empty and its value fits in an `int`, and then to that value |
| JavaParse.ParseSigned | MyBookingsWindow.java:88-90 | a leading `+` parses like the bare digits; a leading `-` gives the negated value exactly when there is at least one digit and the value is at most 2147483648, and nothing otherwise |
| Retry.RunWithRetryMeans | DatabaseManager.java:27-48 | the wrapper returns the value of the first attempt after nothing but locks, unchanged, and `null` when that attempt is not a success |
| Retry.ThreeLocksGiveUp | DatabaseManager.java:11-48 | three locked attempts (MAX_RETRIES = 3) give up with `null` |
| Retry.RunEachRetry | DatabaseManager.java:27-48 | a unit of work whose outcome does not vary between attempts yields its value exactly when the database lets one attempt run |
| Retry.ExecuteWithRetry | DatabaseManager.java:27-48 | the loop makes 1 to 3 attempts, all but the last locked, and returns the last attempt's value when it succeeded; it re-sets the interrupt flag only after an interrupted sleep; it agrees with `RunWithRetry` |
| Database.SavedFlightReadsBack | DatabaseManager.java:629-651 | a flight saved under a new number reads back by the next id as that flight, and every earlier id reads back as before |
| Database.SeatWriteReadsBack | DatabaseManager.java:355-368 | after a seat write, the flight reads back with the new booked seats, its other fields, and available seats of capacity minus the new count |
| Database.UpdateFlightSeats | DatabaseManager.java:355-368 | every row with that flight number takes the new count, and no other row or table changes |
| Database.SaveFlight | DatabaseManager.java:277-326 | upsert by flight number: afterwards the number is in use with this flight's fields; an existing number keeps the ids and other rows; a new number is inserted under the next id |
| Database.SaveFlightKeepsKeys | DatabaseManager.java:230-231 | on a well-formed store with unique numbers, saving keeps both, and rows of other numbers stay as they were |
| Database.DeleteFlight | DatabaseManager.java:729-739 | removes exactly the rows with that number, true when some went; bookings are untouched |
| Database.GetBookingById | DatabaseManager.java:970-1007 | finds the booking exactly when the read succeeds and its id exists, and it carries that row's fields |
| Database.SavedBookingReadsBack | DatabaseManager.java:970-1007 | a booking just inserted reads back by the next id with its fields and that id |
| Database.SaveBooking | DatabaseManager.java:483-511 | a successful insert adds the booking's row under the next id and touches nothing else |
| Database.CancelBooking | DatabaseManager.java:553-613 | `null` with no change unless the booking is the user's and 0 < n <= its seats; a partial cancel keeps the row with n fewer seats, a full cancel deletes it; other rows and the flights table are untouched; returns (flight, n) |
| Database.AgentCancelBooking | DatabaseManager.java:813-844 | deletes the booking whoever owns it and returns its flight and seats, or `null` when absent |
| Database.UpdateBooking | DatabaseManager.java:1009-1037 | rewrites only the seat count of an existing booking |
| Database.UpdateBookingStatus | DatabaseManager.java:1068-1093 | rewrites only the status of an existing booking |
| Database.DeleteUser | DatabaseManager.java:1096-1116 | agrees with the retry wrapper over its unit of work: true exactly when an attempt runs, the user exists and has no bookings, and then the row is gone; a user with bookings is never deleted; `None` exactly when the wrapper gives up |
| Database.RegisterUser | DatabaseManager.java:370-403 | agrees with the retry wrapper over its unit of work: -3 when it gives up or the role is null, -1 for a taken username, -2 for a taken user id, otherwise the row is inserted under the returned next id |
| Database.GetUserByUsername | DatabaseManager.java:742-771 | finds a user exactly when the read succeeds and the username is taken, with that row's fields; the role is Administrator or Agent when stored so, and Customer for every other stored role |
| Database.SavePassenger | DatabaseManager.java:1127-1149 | returns the next id and inserts the row, or -1 with no change when the statement fails or the passport number is taken |
| Database.UpdatePassenger | DatabaseManager.java:1214-1232 | true exactly when the row exists and no other passenger holds the passport number, and then only that row is rewritten |
| Database.PassengerWritesKeepPassportsUnique | DatabaseManager.java:1214-1232 | an update, and likewise an insert, keeps passport numbers unique and ids fresh, and a successful write reads back under its id |
| Database.UpdateUserById | DatabaseManager.java:451-481 | the intended update: e-mail and phone set on an existing row; the password changes only for a non-empty new one; other rows untouched |
| Database.UpdateUserMissesExistingRow | DatabaseManager.java:458-466 | for an existing user, the update as written fails and changes nothing, while the intended one succeeds and sets e-mail and phone |
| Database.DeleteUserOrFalse | DatabaseManager.java:1096-1116 | the intended `deleteUser`: a plain boolean, true exactly when the as-written method returns true, with the same store |
| Database.DeleteUserThrowsAfterLocks | DatabaseManager.java:1096-1097 | after three locked attempts the as-written method has no boolean to return, and the intended one returns false |
| BookingSystem.LoadedNumbers | BookingSystem.java:10-16 | the start-up list holds exactly the flight numbers of the table |
| BookingSystem.AdjustSeats | BookingSystem.java:53-59 | read a flight and write back its booked seats moved by delta (wrapped); a missing flight, a failed read or a failed write changes nothing; rows of other numbers and other tables stay |
| BookingSystem.CreateBooking | BookingSystem.java:67-98 | succeeds exactly with a user, a successful read of a known flight, numSeats <= available seats and a successful insert; on failure nothing changes; on success exactly one Pending row (user, flight, numSeats) is added and that flight's booked seats rise by numSeats; a failed seat write leaves flights as they were; when capacity minus booked seats fits in an `int`, success implies booked + numSeats <= capacity |
| BookingSystem.ProcessPayment | BookingSystem.java:101-112 | true exactly for an existing booking, whose status alone becomes Paid |
| BookingSystem.ProcessPaymentIdempotent | BookingSystem.java:101-112 | paying twice leaves the store as paying once |
| BookingSystem.CancelBookingSeats | BookingSystem.java:124-131 | `null` for no user; otherwise the database cancel for that user |
| BookingSystem.CancelBookingByAgent | BookingSystem.java:207-233 | true exactly when the booking exists; it is removed and its flight's booked seats drop by its seats; otherwise nothing changes |
| BookingSystem.AddFlight | BookingSystem.java:136-149 | refused exactly when the number is in the start-up list; otherwise the flight is saved and true is returned |
| BookingSystem.UpdateFlight | BookingSystem.java:152-163 | refused exactly when `getFlightId` gives -1 (the table lacks the number or the query fails); otherwise true, and rows with that number take the new fields when the save succeeds |
| BookingSystem.DeleteFlight | BookingSystem.java:166-183 | true exactly when the id lookup succeeds, the number exists and the delete runs; its rows are gone, bookings untouched |
| BookingSystem.CreateBookingForCustomer | BookingSystem.java:186-197 | books only for an existing user whose stored role is neither Administrator nor Agent (the lookup builds a Customer for them), with that user's id; a failed user lookup books nothing |
| BookingSystem.CreateBookingForCustomerIsCreateBooking | BookingSystem.java:186-197 | with unique usernames, booking by username for a user stored with any role but Administrator or Agent is `createBooking` for that user's row, and those two roles book nothing |
| BookingSystem.ModifyBooking | BookingSystem.java:238-266 | succeeds exactly when both reads succeed, the booking and its flight exist and the seat difference is within the available seats; only the booking's seat count changes, flights untouched |
| MyBookings.CancelSelectedBooking | MyBookingsWindow.java:75-143 | nothing changes without a selection, with blank or bad text, n <= 0, n above the listed seats, a declined dialog, no user or a failed cancel; a successful cancel is the database cancel followed by lowering the flight's booked seats by the returned count |
| MyBookings.PendingBookings | MyBookingsWindow.java:150-155 | keeps exactly the bookings whose status is Pending |
| MyBookings.PendingOfConcat | MyBookingsWindow.java:150-155 | the filter keeps list order |
| MyBookings.HandlePendingPayments | MyBookingsWindow.java:146-190 | no payment window without pending bookings or confirmation; otherwise one per pending booking, in list order |
| PaymentWindow.ExpiryMeansMonth | PaymentWindow.java:72-75 | an expiry is MM/YY with MM a month from 01 to 12 |
| PaymentWindow.CheckPaymentDetails | PaymentWindow.java:55-80 | passes exactly when card, expiry and CVV have their shapes; a blank field is reported first; a bad card number exactly when nothing is blank and the card fails its shape; a bad expiry exactly when, in addition, the card passes and the expiry fails; a bad CVV exactly when card and expiry pass and the CVV fails |
| PaymentWindow.CheckedDetailsAreApproved | PaymentWindow.java:83-86 | details that pass the checks are always approved |
| PaymentWindow.SubmitPayment | PaymentWindow.java:55-97 | a failed check changes nothing and reaches no payment; otherwise `processPayment` runs once and marks the booking Paid when it exists |
| PassengerService.ValidatePassengerInfoMeans | PassengerService.java:18-30 | valid exactly when name, passport and date of birth are non-null and each holds a character `trim` keeps |
| PassengerService.CreatePassenger | PassengerService.java:40-52 | invalid input changes nothing; a passenger exactly when valid and the insert succeeds, carrying the new id, the given fields and empty requests, with the row stored and the id counter advanced by one |
| PassengerService.UpdatePassengerInfo | PassengerService.java:82-88 | invalid input writes nothing; otherwise the database update |
| PassengerService.UpdatePassengerInfoKeepsPassportsUnique | PassengerService.java:82-88 | updating a passenger keeps passport numbers unique and ids fresh, and a successful update reads back under the passenger's id |
| PassengerService.GetPassengerDetails | PassengerService.java:95-101 | the text is the name line, the passport line, the date-of-birth line and the special-requests line, in that order; the last shows the requests, or None when they are empty |
| PassengerService.NoRequestsLookLikeNone | PassengerService.java:100 | the details of a passenger with no requests equal those of one whose request is the text None |
| PassengerService.CreatedPassengerShowsNoRequests | PassengerService.java:95-101 | the details of a passenger just created end in None, whatever requests were stored |
| PassengerDialog.DateShapeMeans | PassengerInfoDialog.java:124 | a date of birth has four digits, a hyphen, two digits, a hyphen and two digits |
| PassengerDialog.CheckFormMeans | PassengerInfoDialog.java:109-130 | a form is refused for a missing field exactly when name, passport or date is blank, and passes exactly when none is and the date has the shape |
| PassengerDialog.SaveForm | PassengerInfoDialog.java:109-141 | a passenger exactly when no error; a saved passenger came from the trimmed form, which passed its checks; the error is the check's own or a failed save |
| PassengerDialog.SaveFormStores | PassengerInfoDialog.java:109-141 | a saved passenger has the next passenger id, the counter moves on by one, and the store gains exactly the form's trimmed row under that id; a turn that saves nothing leaves the store as it was |
| PassengerDialog.SaveFrom | PassengerInfoDialog.java:108-142 | without a failure there is one passenger per remaining form; a failure index lies between the start and the end with a passenger for every form before it |
| PassengerDialog.SaveFromSaved | PassengerInfoDialog.java:108-142 | every passenger came, in order, from the form at its position, which passed its checks |
| PassengerDialog.SaveFromStopsAt | PassengerInfoDialog.java:108-142 | the loop stops at a form that failed its checks, or passed them and could not be saved |
| PassengerDialog.SaveFromGrows | PassengerInfoDialog.java:108-142 | the loop keeps passenger ids fresh, hands out one id per saved passenger, keeps every earlier row unchanged and adds rows only under the ids it handed out |
| PassengerDialog.SaveFromStored | PassengerInfoDialog.java:108-142 | the passenger at position `k` has id `nextPassengerId + k`, and the store holds the trimmed row of its form under that id |
| PassengerDialog.ValidateAndSavePassengers | PassengerInfoDialog.java:103-144 | no seats means success with an empty list; success means one passenger per form in order; a failure keeps the passengers of the forms before it |
| PassengerDialog.PressConfirm | PassengerInfoDialog.java:47-52 | the flag is raised exactly when validation succeeds (or it was already raised), and then the list has one passenger per seat |
| PassengerDialog.ConfirmStartsFromEmptyList | PassengerInfoDialog.java:105 | what Confirm leaves in the list and the store does not depend on the earlier list |
| PassengerDialog.ConfirmedMeansAllSaved | PassengerInfoDialog.java:103-144 | a fresh dialog is confirmed only when every form was saved in order, and always for no seats |
| PassengerDialog.ConfirmedLeavesOneRowPerPassenger | PassengerInfoDialog.java:103-144 | on a well-formed store, a confirmed fresh dialog left one stored row per passenger in its list, under consecutive new ids, each holding its form's trimmed fields; earlier rows are untouched and no other row appears |
| UserService.IsValidUserDataMeans | UserService.java:85-95 | valid exactly when none of the five fields is null or trims to empty |
| UserService.CreateUser | UserService.java:19-26 | invalid data reaches no store; a user exactly when the data is valid, the wrapper runs, the role is given, username and user id are free and the generated id is positive; it carries the narrowed id, the given fields and the role as passed |
| UserService.CreatedUserReadsBack | UserService.java:19-26 | a user just created reads back by username as the object returned, with the role the lookup's subclass carries; for Customer, Agent and Administrator, exactly the object returned |
| UserService.UpdateUserInfo | UserService.java:40-42 | as written: returns false and leaves the store unchanged for every input, because `updateUser` always fails |
| UserService.UpdateUserInfoIntended | UserService.java:40-42 | the intended update: sets e-mail and phone of an existing user and never changes any password |
| UserService.UpdateUserInfoLosesEdit | UserService.java:40-42 | for an existing user the edit is reported failed and no lookup by username sees a change, while the intended update sets e-mail and phone |
| Ledger.CreateBookingPreserves | BookingSystem.java:85-95 | booking creation keeps the store valid when the seat write succeeds |
| Ledger.CreateBookingForCustomerPreserves | BookingSystem.java:186-197 | booking for a customer by username keeps the store valid when the seat write succeeds |
| Ledger.AgentCancelPreserves | BookingSystem.java:207-233 | agent cancellation keeps the store valid when the seat write succeeds |
| Ledger.ProcessPaymentPreserves | BookingSystem.java:101-112 | payment keeps the store valid |
| Ledger.CancelSeatsPreserves | DatabaseManager.java:553-613 | a customer cancel, partial or full, followed by the decrement by the returned count keeps the store valid |
| Ledger.CustomerCancelPreserves | MyBookingsWindow.java:112-126 | the window's cancel keeps the store valid when the seat write succeeds |
| Ledger.UpdateFlightPreserves | BookingSystem.java:152-163 | updating a flight that keeps its booked seats keeps the store valid |
| Ledger.UpdateFlightStaleCountBreaksLedger | BookingSystem.java:152-163 | an update whose object carries booked seats other than the row's succeeds and leaves the flight's booked seats off its bookings' total |
| Ledger.EditAfterBookingBreaksLedger | FlightSystemGUI.java:849-883 | booking seats on a flight and then saving an edit built from the start-up object succeeds and breaks the ledger |
| Ledger.UpdateFlightKeepingSeats | BookingSystem.java:152-163 | same success condition as `updateFlight`; the row takes the new fields but keeps its own booked seats |
| Ledger.UpdateFlightKeepingSeatsPreserves | BookingSystem.java:152-163 | the seat-keeping update keeps the store valid whatever count the edited object carries |
| Ledger.AddFlightPreserves | BookingSystem.java:136-149 | with the list loaded from the current store, adding a new flight keeps the store valid |
| Ledger.ModifyBookingBreaksLedger | BookingSystem.java:258-261 | a successful modification to a different seat count leaves the flight's booked seats off its bookings' total |
| Ledger.ModifyBookingReconciled | BookingSystem.java:238-266 | same success condition and booking change as `modifyBooking`, and the flight's booked seats move by the seat difference |
| Ledger.ModifyBookingReconciledPreserves | BookingSystem.java:238-266 | the reconciled modification keeps the store valid |
| Ledger.DeleteFlightOrphans | BookingSystem.java:174-178 | deleting a booked flight succeeds and leaves a booking referring to no flight |
| Ledger.DeleteFlightGuarded | BookingSystem.java:166-183 | refuses while bookings exist on the flight, otherwise deletes as before (including the failed-lookup case) |
| Ledger.DeleteFlightGuardedPreserves | BookingSystem.java:166-183 | the guarded delete keeps the store valid |
| Ledger.AddFlightStaleListOverwrites | BookingSystem.java:136-149 | a number missing from the start-up list but present in the table passes, and the upsert leaves that flight's booked seats off its bookings' total |
| Ledger.AddFlightTwiceInOneSession | BookingSystem.java:136-149 | adding a flight, booking on it and adding it again in one session succeeds and breaks the ledger |
| Ledger.AddFlightChecked | BookingSystem.java:136-149 | refused exactly when the table holds the number; otherwise a new row under the next id |
| Ledger.AddFlightFreshListAgrees | BookingSystem.java:136-149 | with a list loaded from the current store the two checks agree |
| Ledger.AddFlightCheckedPreserves | BookingSystem.java:136-149 | the checked add of a flight with no booked seats keeps the store valid |
| Ledger.CreateBookingAcceptsNonPositive | BookingSystem.java:79-85 | a seat count of zero or less is accepted and stored, and drives booked seats below zero when it exceeds them |
| Ledger.CreateBookingChecked | BookingSystem.java:67-98 | refuses a seat count below one, otherwise books as before |
| Ledger.CreateBookingCheckedKeepsCapacity | BookingSystem.java:79-95 | the checked booking keeps every flight's booked seats between zero and capacity |
| Ledger.CreateBookingCheckedPreserves | BookingSystem.java:85-95 | the checked booking keeps the store valid when the seat write succeeds |

## Left out

- JDBC plumbing is not modelled: connections, PRAGMAs, statement lifecycle and logging. The schema appears only as the table maps, the UNIQUE flight number and the AUTOINCREMENT counters.
- Concurrency is not modelled: the check-then-insert race between two bookings and the `busy_timeout`. The retry wrapper's one-second sleep is not modelled, only whether it was interrupted.
- Floating point is not modelled: prices are stored and copied as `real`; the Haversine pricing, the seed flights drawn at random and the payment totals are left out.
- Swing is not modelled. The windows' dialogs are parameters (typed text, the confirmation answer, the selected booking) and their messages are outcomes.
- `loginUser`, `updateUserRole`, `getAllUsers`, `getAllCustomerUsers`, `getUserById`, `getUserBookings`, `getAllBookings` and `getAllFlightsFromDB` are plain reads or authentication, outside the booking flow.
- `addNewFlight`, `addFlightLoaded`, `findFlight`, `getAllFlights` and `displayAllFlights` are left out. Only the set of numbers the in-memory list holds is modelled, since `addFlight`'s check reads nothing else.
- `linkPassengerToBooking` and `getPassengersForBooking` are left out, and so is the link table.
- `getCities` and `calculatePrice` are left out.
- `createTables`, `close` and the service getters are left out. The schema's constraints are stated on the store instead.
- A `loadFlights` that fails part-way is not modelled: the start-up list is the table's full set of numbers.
- The `Customer`, `Agent` and `Administrator` classes are not part of this model. Their constructors are taken to set the role to the class's own name, which is how `getUserByUsername`'s switch turns any other stored role into Customer.
- `getFlightId` is not a separate member. It gives -1 both for a missing number and for a failed query, so `UpdateFlight` and `DeleteFlight` test `readOk` and `Store.NumberInUse` instead.
- The shared connection is not modelled. `savePassenger`, `updatePassenger` and the other methods with `try (Connection conn = getConnection(); ...)` close it, and the statements that use the field directly then fail. Those failures are the operations' `readOk` and `ok` flags; which calls close the connection is not tracked.
- Database ids are unbounded integers. The `(int)` narrowing of the generated user id is modelled with `Wrap32`; reading other ids back through `getInt` is not.
- Java strings are sequences of `char`. `Integer.parseInt` is modelled for ASCII digits only (Java also accepts other Unicode decimal digits), and regular expressions are written out as predicates.
- BookingSystem.CreateBooking: the flights after a successful seat write are stated under unique flight numbers, since `updateFlightSeats` rewrites every row with the number. Without that condition only the rows of other numbers are stated.
- BookingSystem.AdjustSeats: the same condition on unique flight numbers applies to the exact new flights map.
- BookingSystem.CancelBookingByAgent: the same condition on unique flight numbers applies to the exact new flights map.
- MyBookings.CancelSelectedBooking: the same condition on unique flight numbers applies to the exact new flights map.
- Ledger.CreateBookingPreserves: proved for a successful seat write only. The insert and the seat write are separate statements, so a failure between them leaves the ledger off.
- Ledger.AgentCancelPreserves: proved for a successful seat write only, for the same reason.
- Ledger.CustomerCancelPreserves: proved for a successful seat write only, for the same reason.
- Ledger.UpdateFlightPreserves: assumes the new flight object carries the booked seats the row already had. `updateFlight` writes whatever count the object holds, and the flight editor copies the count from the start-up list, which can be older (see Findings). `Ledger.UpdateFlightKeepingSeatsPreserves` holds without the assumption.
- PassengerDialog.SaveFrom: its own contract states only the shape of the result and the frame. What the passengers are, why the loop stopped and which rows it stored is stated by `SaveFromSaved`, `SaveFromStopsAt`, `SaveFromGrows` and `SaveFromStored`.
- PassengerDialog.SaveForm: which row it writes and which id the passenger gets is stated by the companion lemma `SaveFormStores`, not by its own contract.

## Findings

| source | as written | input that shows it | evidently intended | confidence | as-written member | corrected member |
|---|---|---|---|---|---|---|
| BookingSystem.java:238-266 | `modifyBooking` checks the seat difference against the available seats but writes only the booking's seat count | a flight with 2 booked seats and one booking of 2 seats, modified to 3 seats: the booking holds 3, the flight still 2 | the flight's booked seats move by the seat difference together with the booking | high (not executed) | Ledger.ModifyBookingBreaksLedger | Ledger.ModifyBookingReconciled |
| BookingSystem.java:166-183 | `deleteFlight` deletes a flight whatever bookings refer to it (its TODO comment says so) | a flight with one booking, deleted by number while the start-up connection is still open (DatabaseManager.java:132 opens it without `PRAGMA foreign_keys = ON`): the booking's flight id names no row. After `getConnection` has reopened the connection with foreign keys on (DatabaseManager.java:15-23) the delete fails instead | refuse while bookings exist | high (not executed) | Ledger.DeleteFlightOrphans | Ledger.DeleteFlightGuarded |
| BookingSystem.java:136-149 | `addFlight` checks the in-memory list, which is loaded once at start-up and not updated by `addFlight`, then upserts by number | add flight X, book 2 seats on it, add X again in the same session with 0 booked seats: the second add succeeds and the row's booked seats become 0 | refuse a number the table already holds | high (not executed) | Ledger.AddFlightStaleListOverwrites | Ledger.AddFlightChecked |
| DatabaseManager.java:1096-1116 | `deleteUser` returns the wrapper's `Boolean` as a `boolean`, so a `null` from the wrapper is unboxed | three attempts that all hit "database is locked": unboxing the `null` throws | return false when the wrapper gives up | high (not executed) | Database.DeleteUserThrowsAfterLocks | Database.DeleteUserOrFalse |
| DatabaseManager.java:451-481 | both statements of `updateUser` filter on `db_id`, a column the users table does not have (its key is `id`) | any existing user: the statement fails to prepare, so `updateUserInfo` returns false and nothing changes | `WHERE id = ?` | high (not executed) | Database.UpdateUserMissesExistingRow | Database.UpdateUserById |
| BookingSystem.java:67-98 | `createBooking` has no lower bound on `numSeats`, and the booking form parses any `int` | a flight with 0 booked seats and a request for -3 seats: a booking of -3 seats is stored and booked seats become -3 | refuse a seat count below one | medium (not executed) | Ledger.CreateBookingAcceptsNonPositive | Ledger.CreateBookingChecked |
| FlightSystemGUI.java:849-883 | the flight editor builds the updated flight from `findFlight`, the list loaded at start-up, and copies its booked seats; bookings and cancels never update that list | flight X loaded with 0 booked seats, 2 seats booked on X, then X's price edited: `updateFlight` writes 0 booked seats while the bookings hold 2 | keep the row's booked seats when route, capacity or price are edited | high (not executed) | Ledger.EditAfterBookingBreaksLedger | Ledger.UpdateFlightKeepingSeats |
