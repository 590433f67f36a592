# Seat booking: booking-consistency rules in Dafny

This project models the write side of a small seat-booking API: venues,
seats that belong to venues, and bookings that hold one seat for one event
date and time. The model is a pure state machine over an immutable store.
The store has three tables (id → record maps) plus the next id each table
hands out. Every request is a function from a store to either a new store
or an error. A rejected request yields no store, so it writes nothing. This
matches the source, where validation raises before any save.

Modules follow the source:

- `Models` (`models.dfy`) holds the records, the seat-class codes, and the
  schema rules as predicates: unique venue names, unique
  `(venue, seat_number)`, one booking per seat, `(seat, date, time)`
  uniqueness, valid seat classes, and foreign keys that resolve.
- `Serializers` (`serializers.dfy`) holds the create and update paths of the
  three serializers. Each path runs the same stages in the source's order:
  field validation (a foreign key must exist, the seat class must be a
  declared choice, a one-field uniqueness rule), then the multi-column
  uniqueness rule, then the serializer's own `validate`, then the write.
- `Deletion` (`deletion.dfy`) holds the delete endpoints with the schema's
  referential actions. A venue's seats cascade with it. A booking protects
  its seat, so it also protects that seat's venue.
- `Clock` (`clock.dfy`) models the clock as an input: a day number plus a
  time of day in microsecond ticks.
- `Invariants` and `Machine` show that every request keeps the schema rules.
  They also show that every request except a venue edit keeps each venue
  within its capacity, over any sequence of requests.
- `Scenarios` proves what the booked flag does and does not track, and how
  the capacity and one-booking rules appear to a client.

The create paths assume one thing of the store: every stored id is below
its table's next id, because the database's id sequences never reuse an id.
Venue creation also assumes that foreign keys resolve, which the schema
enforces. Everything else a request needs, it checks itself.

Behaviour of the code that a client might not expect, all of it modelled
as written:

- Deleting a booking removes only the booking row. The seat's `is_booked`
  flag stays set. From then on the serializer refuses every booking of that
  seat (`Scenarios.FlagOutlivesBooking`, `Scenarios.FlaggedSeatRefused`)
  until a seat edit clears the flag.
- `is_booked` is an ordinary writable seat field
  (`core/serializers.py:16`). So "flag set iff a booking exists" is not an
  invariant. `Scenarios.FlagClearedUnderBookingHappens` and
  `Scenarios.FlagOutlivesBookingHappens` give a concrete store for each
  direction failing. The only
  guarantee is that a booking made through the serializer leaves its seat
  flagged.
- Once the seat is known to exist, the first check on a new booking is the
  one-to-one uniqueness of `seat` ("booking with this seat already
  exists.", `core/tests.py:201`). It runs before the `(seat, date, time)`
  rule and before `validate`. A clash on `(seat, date, time)` is already a
  second booking of the seat (`Models.ShowingTakenIsSeatReferenced`), so
  that rule never fires (`Serializers.CreateBooking` and
  `Serializers.UpdateBooking` both promise no `DuplicateShowing` error).
- An event at exactly the current moment is accepted. The comparison is
  strict.
- A venue's capacity is any integer, and a venue edit does not check it
  against the venue's existing seats (`Machine.VenueEditCanOverfill`).
- Bookings can be updated, because the viewset exposes update. An update
  runs the same validation, so a booking whose seat is flagged cannot be
  re-saved on that seat.

## Model

Definitions without a contract of their own are covered through the members
below: the past-event guard `Clock.InPast` (`core/serializers.py:46-49`) by
`Clock.InPastIffBeforeNow` and `Clock.NowIsNotPast`, and the request
dispatcher `Machine.Step` (`core/views.py:6-19`) by `Machine.StepKeepsWf`,
`Machine.Apply` and `Machine.StepKeepsCapacity`.

| member | source | states |
|---|---|---|
| Clock.InPastIffBeforeNow | core/serializers.py:46-49 | the date-then-time test rejects exactly the events whose instant on one time line lies before the clock's instant |
| Clock.NowIsNotPast | core/serializers.py:46-49 | an event at exactly the current date and time of day is not in the past |
| Models.ShowingTakenIsSeatReferenced | core/models.py:39-47 | a booking clashing on (seat, date, time) is in particular a second booking of that seat |
| Models.OneBookingPerSeatGivesUniqueShowings | core/models.py:39-47 | one booking per seat implies (seat, event_date, event_time) uniqueness |
| Models.EmptyIsWf | core/models.py:11-47 | the empty database meets every schema rule and every capacity |
| Serializers.CreateVenue | core/models.py:11-14 | a venue is created exactly when its name is new; the new venue owns no seats and nothing else changes |
| Serializers.UpdateVenue | core/models.py:11-14 | a venue edit fails for an unknown id or for a name another venue holds, and is accepted in every other case; only that venue's fields change |
| Serializers.ValidateSeat | core/serializers.py:18-25 | capacity error exactly when the venue's stored seat count is at least its capacity; otherwise the data is returned unchanged |
| Serializers.CreateSeat | core/serializers.py:11-25 | each error (unknown venue, bad class, duplicate number, capacity) exactly when its guard fails and the earlier ones pass, and the seat is created exactly when every guard passes; on success one seat is added with defaults REGULAR and unflagged, its venue's count rises by one and stays within capacity, other venues' counts are unchanged |
| Serializers.UpdateSeat | core/serializers.py:18-25 | a seat save is refused for capacity exactly when the target venue's count, which includes the edited seat, is at least its capacity; a save passing the existence, class, number and capacity guards is accepted; a missing class or flag keeps the stored value; only that seat changes |
| Serializers.ValidateBooking | core/serializers.py:36-55 | past-event error exactly when the event is before now; already-booked error exactly when it is not past and the seat's flag is set; it succeeds exactly when neither holds, returning the data unchanged |
| Serializers.CreateBooking | core/serializers.py:29-64 | each error exactly when its guard fails in source order; the triple-uniqueness error never occurs; the booking is accepted exactly when the seat exists, has no booking, the event is not past and the flag is clear; on success the seat's flag is set, exactly one booking is added, and no other seat or venue changes |
| Serializers.BookSeat | core/serializers.py:57-64 | the create step flags the seat, inserts one booking under a fresh id, and changes nothing else |
| Serializers.UpdateBooking | core/serializers.py:36-55 | a booking edit runs the same checks with itself excused from uniqueness, and is accepted exactly when every check passes; on success only that booking changes and no seat flag is touched |
| Deletion.DeleteBooking | core/views.py:17-19 | deleting a booking fails only for an unknown id; it removes exactly that booking and leaves every seat, including its flag, unchanged |
| Deletion.DeleteSeat | core/models.py:38-39 | deleting a seat fails for an unknown id or exactly when a booking references it, and succeeds in every other case; only that seat goes |
| Deletion.DeleteVenue | core/models.py:24-39 | deleting a venue fails for an unknown id or exactly when a booking references one of its seats, and succeeds in every other case; then the venue and exactly its seats go, and bookings are untouched |
| Invariants.CreateVenueKeepsWf | core/models.py:12 | an accepted venue creation keeps every schema rule |
| Invariants.UpdateVenueKeepsWf | core/models.py:12 | an accepted venue edit keeps every schema rule |
| Invariants.DeleteVenueKeepsWf | core/models.py:24-39 | an accepted venue deletion leaves no seat or booking dangling |
| Invariants.CreateSeatKeepsWf | core/models.py:24-32 | an accepted seat creation keeps seat numbers unique per venue and classes valid |
| Invariants.UpdateSeatKeepsWf | core/models.py:24-32 | an accepted seat edit keeps seat numbers unique per venue and classes valid |
| Invariants.SeatOverwriteKeepsNumbers | core/models.py:31-32 | overwriting a seat with a number its venue does not already use keeps `(venue, seat_number)` unique |
| Invariants.DeleteSeatKeepsWf | core/models.py:38-39 | an accepted seat deletion leaves no booking dangling |
| Invariants.BookingInsertKeepsWf | core/serializers.py:57-64 | flagging a seat and inserting one booking for an unbooked seat keeps every schema rule |
| Invariants.CreateBookingKeepsWf | core/models.py:38-47 | an accepted booking keeps one booking per seat |
| Invariants.UpdateBookingKeepsWf | core/models.py:38-47 | an accepted booking edit keeps one booking per seat |
| Invariants.DeleteBookingKeepsWf | core/views.py:17-19 | an accepted booking deletion keeps every schema rule |
| Invariants.CreateSeatKeepsCapacity | core/serializers.py:20-22 | a seat created through the serializer never takes a venue past its capacity |
| Invariants.UpdateSeatKeepsCapacity | core/serializers.py:20-22 | a seat saved through the serializer never takes a venue past its capacity |
| Invariants.CreateVenueKeepsCapacity | core/models.py:11-14 | an accepted venue creation keeps every venue within its capacity, the new one holding no seats |
| Invariants.DeleteVenueKeepsCapacity | core/models.py:24-25 | an accepted venue deletion, cascading to its seats, keeps every remaining venue within its capacity |
| Invariants.DeleteSeatKeepsCapacity | core/models.py:38-39 | an accepted seat deletion keeps every venue within its capacity |
| Invariants.CreateBookingKeepsCapacity | core/serializers.py:57-64 | an accepted booking, which only flags a seat, keeps every venue within its capacity |
| Invariants.UpdateBookingKeepsCapacity | core/serializers.py:36-55 | an accepted booking edit keeps every venue within its capacity |
| Invariants.DeleteBookingKeepsCapacity | core/views.py:17-19 | an accepted booking deletion keeps every venue within its capacity |
| Invariants.UpdateVenueCapacity | core/models.py:14 | a venue edit keeps capacities respected exactly when the new capacity leaves room for the seats the venue already has |
| Invariants.MovedSeatCounts | core/models.py:25 | moving a seat between venues moves one unit of count between them and leaves every other count alone |
| Machine.StepKeepsWf | core/serializers.py:11-64 | every accepted request keeps every schema rule |
| Machine.Apply | core/views.py:6-19 | the store after any request, accepted or rejected, meets every schema rule; an accepted request yields its new store and a rejected one leaves the store unchanged |
| Machine.Run | core/views.py:6-19 | the store after any sequence of requests meets every schema rule |
| Machine.ReachableStoresAreWf | core/models.py:39-47 | every store reachable from an empty database meets the schema rules, including (seat, date, time) uniqueness, and its seat classes are 0 or 1 |
| Machine.StepKeepsCapacity | core/serializers.py:18-25 | every request other than a venue edit keeps every venue within its capacity |
| Machine.RunKeepsCapacity | core/serializers.py:20-22 | any sequence of requests without venue edits keeps every venue within its capacity |
| Machine.ReachableWithinCapacity | core/serializers.py:20-22 | from an empty database, with no venue edits, no venue ever holds more seats than its capacity |
| Machine.VenueEditCanOverfill | core/models.py:14 | a concrete well-formed store where lowering a full venue's capacity is accepted and leaves it over capacity |
| Scenarios.BookedSeatIsFlagged | core/serializers.py:57-64 | a seat booked through the serializer is flagged and referenced right after the create |
| Scenarios.FlagOutlivesBooking | core/views.py:17-19 | after creating a booking and deleting it, the seat is still flagged but no booking references it |
| Scenarios.LastBookingGone | core/models.py:39 | deleting a seat's only booking leaves the seat unreferenced |
| Scenarios.FlaggedSeatRefused | core/serializers.py:51-53 | a flagged seat refuses every new booking: as past, as already having a booking, or as already booked |
| Scenarios.FlagClearedUnderBooking | core/serializers.py:16 | whenever a seat edit sending `is_booked = false` is accepted for a booked seat, the seat ends up unflagged with its booking still in place |
| Scenarios.FlagClearedUnderBookingHappens | core/serializers.py:16 | a concrete well-formed store where such an edit is accepted, leaving a referenced seat unflagged |
| Scenarios.FlagOutlivesBookingHappens | core/views.py:17-19 | a concrete well-formed store where a seat is booked, the booking is deleted, and the seat stays flagged, unreferenced, and refuses the same booking request again |
| Scenarios.SecondBookingRejected | core/tests.py:188-201 | a seat with a booking refuses a second one with the one-to-one error, whatever its date, time or flag |
| Scenarios.FlaggedBookingCannotBeEdited | core/serializers.py:52-53 | a booking on a flagged seat cannot be re-saved on that seat |
| Scenarios.FullVenueRejectsResave | core/serializers.py:18-23 | in a full venue, saving a seat back with its own values is refused for capacity |
| Scenarios.NoSeatsNoNumbers | core/models.py:32 | a venue without seats has no seat number in use |
| Scenarios.CapacityOneScenario | core/tests.py:94-103 | in an empty venue with capacity one, the first seat is accepted and a second is refused for capacity, leaving the count at one |
| Scenarios.UnbookedVenueDeletes | core/tests.py:76-81 | a venue with no booked seat is always deleted, and none of its seats remains |
| Scenarios.NewSeatDefaults | core/models.py:27-29 | a seat created without class or flag is an unflagged REGULAR seat |

## Left out

- HTTP routing, viewset wiring, status codes and the read endpoints (list and retrieve). They change no state.
- The admin configuration: it only affects display.
- The `created_at` and `updated_at` timestamps.
- `price` is a floating-point column. It is an integer here because no rule reads it.
- E-mail format, `max_length` limits, and date and time parsing. Dates are day numbers and times are tick counts.
- Response shaping (`venue_name`, nested `seat_details`) and the keys errors are reported under.
- Concurrency and transaction boundaries. The source uses no locks or transactions, so requests are applied one at a time.
- Partial updates (PATCH), including the crash when `venue` is absent from the data.
- The framework reports all failing field validators of a request together. The model reports the first one in field-declaration order.
- The source reads the clock three times in one check. The model uses a single reading per request.
- Direct ORM writes, as used by the test fixtures, are not an operation of the model. They bypass the serializer and never set the flag.
- The 32-bit range of the integer columns. Integers are unbounded here.
- The blank check and whitespace stripping of the text fields. The columns are `blank=False` (`core/models.py:12`, `core/models.py:26`), so the framework refuses an empty name or seat number and strips surrounding spaces before the uniqueness rules run. Here every string input stands for the already-trimmed, non-blank field value; the model would accept `""` and would treat `" Hall"` and `"Hall"` as different names.
