/** Consequences of the rules across several requests: what the booked flag
    does and does not track, and how the capacity and one-booking rules
    show up to a client. */
module Scenarios {
  import opened Results
  import opened Models
  import opened Clock
  import opened Serializers
  import opened Deletion
  import Invariants

  /** A booking made through the serializer leaves its seat flagged. */
  lemma BookedSeatIsFlagged(s: Store, input: BookingInput, now: Now)
    requires Wf(s) && CreateBooking(s, input, now).Success?
    ensures input.seat in CreateBooking(s, input, now).value.seats
    ensures CreateBooking(s, input, now).value.seats[input.seat].isBooked
    ensures SeatReferenced(CreateBooking(s, input, now).value, input.seat, None)
  {
    var t := CreateBooking(s, input, now).value;
    assert t.bookings[s.nextBooking].seat == input.seat;
  }

  /** Deleting that booking leaves the flag set with no booking behind
      it. */
  lemma FlagOutlivesBooking(s: Store, input: BookingInput, now: Now)
    requires Wf(s) && CreateBooking(s, input, now).Success?
    ensures
      var t := CreateBooking(s, input, now).value;
      var u := DeleteBooking(t, s.nextBooking);
      && u.Success?
      && input.seat in u.value.seats && u.value.seats[input.seat].isBooked
      && !SeatReferenced(u.value, input.seat, None)
  {
    var t := CreateBooking(s, input, now).value;
    Invariants.CreateBookingKeepsWf(s, input, now);
    var u := DeleteBooking(t, s.nextBooking).value;
    LastBookingGone(t, u, s.nextBooking);
  }

  /** Deleting the one booking of a seat leaves the seat unreferenced. */
  lemma LastBookingGone(t: Store, u: Store, b: BookingId)
    requires OneBookingPerSeat(t) && b in t.bookings
    requires Dropped(t.bookings, u.bookings, {b})
    ensures !SeatReferenced(u, t.bookings[b].seat, None)
  {
    assert forall c :: c in u.bookings ==> c in t.bookings && u.bookings[c] == t.bookings[c];
  }

  /** A flagged seat can never again be booked through the serializer:
      events in the past are refused as before, a seat with a booking as
      such, and every other request as already booked. Together with the
      lemma above, a seat whose booking was deleted stays unbookable until a
      seat edit clears its flag. */
  lemma FlaggedSeatRefused(s: Store, input: BookingInput, now: Now)
    requires Wf(s) && input.seat in s.seats && s.seats[input.seat].isBooked
    ensures CreateBooking(s, input, now).Failure?
    ensures !InPast(input.date, input.time, now) && !SeatReferenced(s, input.seat, None) ==>
            CreateBooking(s, input, now).error == SeatAlreadyBooked
  {
  }

  /** The flag is an ordinary seat field: a seat edit may clear it while a
      booking still references the seat. */
  lemma FlagClearedUnderBooking(s: Store, b: BookingId, input: SeatInput)
    requires b in s.bookings
    requires input.isBooked == Some(false)
    requires UpdateSeat(s, s.bookings[b].seat, input).Success?
    ensures
      var t := UpdateSeat(s, s.bookings[b].seat, input).value;
      SeatReferenced(t, s.bookings[b].seat, None) && !t.seats[s.bookings[b].seat].isBooked
  {
    var t := UpdateSeat(s, s.bookings[b].seat, input).value;
    assert b in t.bookings && t.bookings[b].seat == s.bookings[b].seat;
  }

  /** The flag outliving its booking does happen: a seat booked through the
      serializer and then freed by deleting the booking is still flagged,
      has no booking, and refuses the very same request again. */
  lemma FlagOutlivesBookingHappens()
    ensures
      var s := Store(map[1 := Venue("Hall", "Town", 2)], map[1 := Seat(1, "A1", REGULAR, 50, false)], map[], 2, 2, 1);
      var input := BookingInput(1, "Ann", "555", "ann@example.com", 10, 0);
      var r := CreateBooking(s, input, Now(9, 0));
      && Wf(s) && r.Success?
      && var u := DeleteBooking(r.value, 1);
      && u.Success? && 1 in u.value.seats && u.value.seats[1].isBooked
      && !SeatReferenced(u.value, 1, None)
      && CreateBooking(u.value, input, Now(9, 0)) == Failure(SeatAlreadyBooked)
  {
    var s := Store(map[1 := Venue("Hall", "Town", 2)], map[1 := Seat(1, "A1", REGULAR, 50, false)], map[], 2, 2, 1);
    var input := BookingInput(1, "Ann", "555", "ann@example.com", 10, 0);
    assert !SeatReferenced(s, 1, None);
    FlagOutlivesBooking(s, input, Now(9, 0));
  }

  /** Clearing the flag under a booking does happen: a seat edit sending
      `is_booked = false` is accepted for a seat whose booking remains. */
  lemma FlagClearedUnderBookingHappens()
    ensures
      var s := Store(map[1 := Venue("Hall", "Town", 2)], map[1 := Seat(1, "A1", REGULAR, 50, true)],
                     map[1 := Booking(1, "Ann", "555", "ann@example.com", 10, 0)], 2, 2, 2);
      var r := UpdateSeat(s, 1, SeatInput(1, "A1", None, 50, Some(false)));
      && Wf(s) && r.Success?
      && SeatReferenced(r.value, 1, None) && !r.value.seats[1].isBooked
  {
    var s := Store(map[1 := Venue("Hall", "Town", 2)], map[1 := Seat(1, "A1", REGULAR, 50, true)],
                   map[1 := Booking(1, "Ann", "555", "ann@example.com", 10, 0)], 2, 2, 2);
    assert SeatsOf(s, 1) == {1};
    assert !NumberTaken(s, 1, "A1", Some(1));
    FlagClearedUnderBooking(s, 1, SeatInput(1, "A1", None, 50, Some(false)));
  }

  /** A seat that already has a booking refuses a second one, whatever its
      date or time and whatever the seat's flag says. */
  lemma SecondBookingRejected(s: Store, b: BookingId, input: BookingInput, now: Now)
    requires Wf(s) && b in s.bookings && input.seat == s.bookings[b].seat
    ensures CreateBooking(s, input, now) == Failure(SeatHasBooking)
  {
    assert input.seat in s.seats;
    assert SeatReferenced(s, input.seat, None);
  }

  /** A booking whose seat is flagged cannot be re-saved on that seat: its
      own seat's flag fails the serializer's check. */
  lemma FlaggedBookingCannotBeEdited(s: Store, b: BookingId, input: BookingInput, now: Now)
    requires Wf(s) && b in s.bookings && input.seat == s.bookings[b].seat
    requires s.seats[input.seat].isBooked
    ensures UpdateBooking(s, b, input, now).Failure?
    ensures !InPast(input.date, input.time, now) ==> UpdateBooking(s, b, input, now).error == SeatAlreadyBooked
  {
    assert input.seat in s.seats;
    assert !SeatReferenced(s, input.seat, Some(b));
  }

  /** In a venue that is full, even saving a seat back with its own stored
      values is refused for capacity. */
  lemma FullVenueRejectsResave(s: Store, id: SeatId)
    requires Wf(s) && id in s.seats
    requires SeatCount(s, s.seats[id].venue) >= s.venues[s.seats[id].venue].capacity
    ensures
      var seat := s.seats[id];
      UpdateSeat(s, id, SeatInput(seat.venue, seat.number, Some(seat.kind), seat.price, Some(seat.isBooked)))
        == Failure(CapacityExceeded)
  {
    var seat := s.seats[id];
    assert !NumberTaken(s, seat.venue, seat.number, Some(id));
  }

  /** A venue without seats has no seat numbers in use. */
  lemma NoSeatsNoNumbers(s: Store, v: VenueId, number: string)
    requires SeatCount(s, v) == 0
    ensures !NumberTaken(s, v, number, None)
  {
    assert forall id :: id in s.seats && s.seats[id].venue == v ==> id in SeatsOf(s, v);
  }

  /** An empty venue with room for one seat: the first seat is accepted,
      a second one with another number is refused for capacity, and the
      count stays at one. */
  lemma CapacityOneScenario(s: Store, v: VenueId, first: string, second: string)
    requires Wf(s) && v in s.venues && s.venues[v].capacity == 1 && SeatCount(s, v) == 0
    requires first != second
    ensures
      var s2 := CreateSeat(s, SeatInput(v, first, None, 50, None));
      && s2.Success? && SeatCount(s2.value, v) == 1 && Wf(s2.value)
      && CreateSeat(s2.value, SeatInput(v, second, None, 50, None)) == Failure(CapacityExceeded)
  {
    NoSeatsNoNumbers(s, v, first);
    var s2 := CreateSeat(s, SeatInput(v, first, None, 50, None)).value;
    Invariants.CreateSeatKeepsWf(s, SeatInput(v, first, None, 50, None));
    OnlySeatNumber(s, s2, v, first, second);
  }

  lemma OnlySeatNumber(s1: Store, s2: Store, v: VenueId, first: string, second: string)
    requires SeatCount(s1, v) == 0 && first != second
    requires Inserted(s1.seats, s2.seats, s1.nextSeat, Seat(v, first, REGULAR, 50, false))
    ensures !NumberTaken(s2, v, second, None)
  {
    assert forall id :: id in s1.seats && s1.seats[id].venue == v ==> id in SeatsOf(s1, v);
  }

  /** A venue none of whose seats is booked can always be deleted, and with
      it every seat it owns. */
  lemma UnbookedVenueDeletes(s: Store, id: VenueId)
    requires id in s.venues
    requires forall b :: b in s.bookings ==> s.bookings[b].seat !in SeatsOf(s, id)
    ensures DeleteVenue(s, id).Success?
    ensures SeatCount(DeleteVenue(s, id).value, id) == 0
  {
    assert !VenueHasBookedSeat(s, id);
  }

  /** A new seat left to its defaults is an unflagged regular seat. */
  lemma NewSeatDefaults(s: Store, venue: VenueId, number: string, price: int)
    requires Wf(s) && CreateSeat(s, SeatInput(venue, number, None, price, None)).Success?
    ensures
      var t := CreateSeat(s, SeatInput(venue, number, None, price, None)).value;
      s.nextSeat in t.seats && t.seats[s.nextSeat].kind == REGULAR && !t.seats[s.nextSeat].isBooked
  {
  }
}
