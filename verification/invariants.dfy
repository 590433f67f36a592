/** Every successful write keeps the store well formed, and every write
    except a venue edit keeps each venue within its capacity. */
module Invariants {
  import opened Results
  import opened Models
  import opened Clock
  import opened Serializers
  import opened Deletion

  // ---- Seat counts under table changes ----

  /** Writes that keep every seat in its venue keep every count. */
  lemma SameVenuesSameCounts(s: Store, t: Store)
    requires t.seats.Keys == s.seats.Keys
    requires forall id :: id in s.seats ==> t.seats[id].venue == s.seats[id].venue
    ensures forall v :: SeatCount(t, v) == SeatCount(s, v)
  {
    forall v ensures SeatCount(t, v) == SeatCount(s, v) {
      assert SeatsOf(t, v) == SeatsOf(s, v);
    }
  }

  /** Dropping seats never raises a count. */
  lemma DroppedSeatsCounts(s: Store, t: Store, ks: set<SeatId>)
    requires Dropped(s.seats, t.seats, ks)
    ensures forall v :: SeatCount(t, v) <= SeatCount(s, v)
  {
    forall v ensures SeatCount(t, v) <= SeatCount(s, v) {
      assert SeatsOf(t, v) <= SeatsOf(s, v);
      SubsetCard(SeatsOf(t, v), SeatsOf(s, v));
    }
  }

  lemma {:induction false} SubsetCard(a: set<SeatId>, b: set<SeatId>)
    requires a <= b
    ensures |a| <= |b|
    decreases |b|
  {
    if a != {} {
      var x :| x in a;
      SubsetCard(a - {x}, b - {x});
    }
  }

  /** Moving one seat from one venue to another (possibly the same one)
      moves one unit of count between them and leaves all others alone. */
  lemma MovedSeatCounts(s: Store, t: Store, id: SeatId, seat: Seat)
    requires Overwritten(s.seats, t.seats, id, seat)
    ensures seat.venue == s.seats[id].venue ==> forall v :: SeatCount(t, v) == SeatCount(s, v)
    ensures seat.venue != s.seats[id].venue ==>
      && SeatCount(t, seat.venue) == SeatCount(s, seat.venue) + 1
      && SeatCount(t, s.seats[id].venue) == SeatCount(s, s.seats[id].venue) - 1
    ensures forall v :: v != seat.venue && v != s.seats[id].venue ==> SeatCount(t, v) == SeatCount(s, v)
  {
    MovedSeatOtherCounts(s, t, id, seat);
    if seat.venue == s.seats[id].venue {
      SameVenuesSameCounts(s, t);
    } else {
      MovedSeatEndCounts(s, t, id, seat);
    }
  }

  lemma MovedSeatOtherCounts(s: Store, t: Store, id: SeatId, seat: Seat)
    requires Overwritten(s.seats, t.seats, id, seat)
    ensures forall v :: v != seat.venue && v != s.seats[id].venue ==> SeatCount(t, v) == SeatCount(s, v)
  {
    forall v | v != seat.venue && v != s.seats[id].venue
      ensures SeatCount(t, v) == SeatCount(s, v)
    {
      assert SeatsOf(t, v) == SeatsOf(s, v);
    }
  }

  lemma MovedSeatEndCounts(s: Store, t: Store, id: SeatId, seat: Seat)
    requires Overwritten(s.seats, t.seats, id, seat) && seat.venue != s.seats[id].venue
    ensures SeatCount(t, seat.venue) == SeatCount(s, seat.venue) + 1
    ensures SeatCount(t, s.seats[id].venue) == SeatCount(s, s.seats[id].venue) - 1
  {
    assert SeatsOf(t, seat.venue) == SeatsOf(s, seat.venue) + {id};
    assert SeatsOf(s, s.seats[id].venue) == SeatsOf(t, s.seats[id].venue) + {id};
  }

  // ---- Well-formedness, operation by operation ----

  lemma CreateVenueKeepsWf(s: Store, input: VenueInput)
    requires Wf(s) && CreateVenue(s, input).Success?
    ensures Wf(CreateVenue(s, input).value)
  {
  }

  lemma UpdateVenueKeepsWf(s: Store, id: VenueId, input: VenueInput)
    requires Wf(s) && UpdateVenue(s, id, input).Success?
    ensures Wf(UpdateVenue(s, id, input).value)
  {
  }

  lemma DeleteVenueKeepsWf(s: Store, id: VenueId)
    requires Wf(s) && DeleteVenue(s, id).Success?
    ensures Wf(DeleteVenue(s, id).value)
  {
    var t := DeleteVenue(s, id).value;
    forall b | b in t.bookings ensures t.bookings[b].seat in t.seats {
      assert !VenueHasBookedSeat(s, id);
      assert s.bookings[b].seat !in SeatsOf(s, id);
    }
  }

  lemma CreateSeatKeepsWf(s: Store, input: SeatInput)
    requires Wf(s) && CreateSeat(s, input).Success?
    ensures Wf(CreateSeat(s, input).value)
  {
  }

  lemma UpdateSeatKeepsWf(s: Store, id: SeatId, input: SeatInput)
    requires Wf(s) && UpdateSeat(s, id, input).Success?
    ensures Wf(UpdateSeat(s, id, input).value)
  {
    var t := UpdateSeat(s, id, input).value;
    SeatOverwriteKeepsNumbers(s, t, id, t.seats[id]);
  }

  /** Overwriting a seat with a number its venue does not already use keeps
      seat numbers unique within venues. */
  lemma SeatOverwriteKeepsNumbers(s: Store, t: Store, id: SeatId, seat: Seat)
    requires UniqueSeatNumbers(s) && Overwritten(s.seats, t.seats, id, seat)
    requires !NumberTaken(s, seat.venue, seat.number, Some(id))
    ensures UniqueSeatNumbers(t)
  {
  }

  lemma DeleteSeatKeepsWf(s: Store, id: SeatId)
    requires Wf(s) && DeleteSeat(s, id).Success?
    ensures Wf(DeleteSeat(s, id).value)
  {
  }

  /** Writes that change no seat's venue, number or class keep the seat
      rules. */
  lemma SeatFieldsKeptKeepsSeatRules(s: Store, t: Store)
    requires UniqueSeatNumbers(s) && SeatTypesValid(s)
    requires t.seats.Keys == s.seats.Keys
    requires forall id :: id in s.seats ==>
      t.seats[id].venue == s.seats[id].venue && t.seats[id].number == s.seats[id].number
      && t.seats[id].kind == s.seats[id].kind
    ensures UniqueSeatNumbers(t) && SeatTypesValid(t)
  {
  }

  /** Setting one seat's flag and inserting one booking for a seat nobody
      had booked keeps every integrity rule. */
  lemma BookingInsertKeepsWf(s: Store, t: Store, booking: Booking)
    requires Wf(s) && booking.seat in s.seats && !SeatReferenced(s, booking.seat, None)
    requires Overwritten(s.seats, t.seats, booking.seat, s.seats[booking.seat].(isBooked := true))
    requires Inserted(s.bookings, t.bookings, s.nextBooking, booking)
    requires t.venues == s.venues && t.nextVenue == s.nextVenue && t.nextSeat == s.nextSeat
    requires t.nextBooking == s.nextBooking + 1
    ensures Wf(t)
  {
    SeatFieldsKeptKeepsSeatRules(s, t);
    BookingInsertKeepsOnePerSeat(s, t, booking);
    BookingInsertKeepsReferences(s, t, booking);
  }

  lemma BookingInsertKeepsReferences(s: Store, t: Store, booking: Booking)
    requires KeysBelowCounters(s) && ForeignKeysResolve(s) && booking.seat in s.seats
    requires t.seats.Keys == s.seats.Keys
    requires forall id :: id in s.seats ==> t.seats[id].venue == s.seats[id].venue
    requires Inserted(s.bookings, t.bookings, s.nextBooking, booking)
    requires t.venues == s.venues && t.nextVenue == s.nextVenue && t.nextSeat == s.nextSeat
    requires t.nextBooking == s.nextBooking + 1
    ensures KeysBelowCounters(t) && ForeignKeysResolve(t)
  {
  }

  lemma BookingInsertKeepsOnePerSeat(s: Store, t: Store, booking: Booking)
    requires OneBookingPerSeat(s) && !SeatReferenced(s, booking.seat, None)
    requires Inserted(s.bookings, t.bookings, s.nextBooking, booking)
    ensures OneBookingPerSeat(t)
  {
  }

  lemma CreateBookingKeepsWf(s: Store, input: BookingInput, now: Now)
    requires Wf(s) && CreateBooking(s, input, now).Success?
    ensures Wf(CreateBooking(s, input, now).value)
  {
    var t := CreateBooking(s, input, now).value;
    BookingInsertKeepsWf(s, t, Booking(input.seat, input.customer, input.phone, input.email, input.date, input.time));
  }

  lemma UpdateBookingKeepsWf(s: Store, id: BookingId, input: BookingInput, now: Now)
    requires Wf(s) && UpdateBooking(s, id, input, now).Success?
    ensures Wf(UpdateBooking(s, id, input, now).value)
  {
    var t := UpdateBooking(s, id, input, now).value;
    BookingOverwriteKeepsOnePerSeat(s, t, id, t.bookings[id]);
  }

  /** Overwriting a booking with a seat no other booking holds keeps one
      booking per seat. */
  lemma BookingOverwriteKeepsOnePerSeat(s: Store, t: Store, id: BookingId, booking: Booking)
    requires OneBookingPerSeat(s) && Overwritten(s.bookings, t.bookings, id, booking)
    requires !SeatReferenced(s, booking.seat, Some(id))
    ensures OneBookingPerSeat(t)
  {
  }

  lemma DeleteBookingKeepsWf(s: Store, id: BookingId)
    requires Wf(s) && DeleteBooking(s, id).Success?
    ensures Wf(DeleteBooking(s, id).value)
  {
  }

  // ---- Capacity ----

  /** A seat created through the serializer never takes its venue past its
      capacity. */
  lemma CreateSeatKeepsCapacity(s: Store, input: SeatInput)
    requires Wf(s) && WithinCapacity(s) && CreateSeat(s, input).Success?
    ensures WithinCapacity(CreateSeat(s, input).value)
  {
  }

  /** A seat saved into a venue through the serializer never takes that venue
      past its capacity; the venue it left only loses a seat. */
  lemma UpdateSeatKeepsCapacity(s: Store, id: SeatId, input: SeatInput)
    requires WithinCapacity(s) && UpdateSeat(s, id, input).Success?
    ensures WithinCapacity(UpdateSeat(s, id, input).value)
  {
    var t := UpdateSeat(s, id, input).value;
    MovedSeatCounts(s, t, id, t.seats[id]);
  }

  lemma CreateVenueKeepsCapacity(s: Store, input: VenueInput)
    requires Wf(s) && WithinCapacity(s) && CreateVenue(s, input).Success?
    ensures WithinCapacity(CreateVenue(s, input).value)
  {
  }

  /** A venue edit keeps the venue within capacity exactly when the new
      capacity leaves room for the seats it already has. */
  lemma UpdateVenueCapacity(s: Store, id: VenueId, input: VenueInput)
    requires WithinCapacity(s) && UpdateVenue(s, id, input).Success?
    ensures WithinCapacity(UpdateVenue(s, id, input).value) <==>
            SeatCount(s, id) <= Room(Venue(input.name, input.location, input.capacity))
  {
    var t := UpdateVenue(s, id, input).value;
    assert forall v :: SeatCount(t, v) == SeatCount(s, v);
    assert t.venues[id] == Venue(input.name, input.location, input.capacity);
  }

  lemma DeleteVenueKeepsCapacity(s: Store, id: VenueId)
    requires WithinCapacity(s) && DeleteVenue(s, id).Success?
    ensures WithinCapacity(DeleteVenue(s, id).value)
  {
    var t := DeleteVenue(s, id).value;
    DroppedSeatsCounts(s, t, SeatsOf(s, id));
  }

  lemma DeleteSeatKeepsCapacity(s: Store, id: SeatId)
    requires WithinCapacity(s) && DeleteSeat(s, id).Success?
    ensures WithinCapacity(DeleteSeat(s, id).value)
  {
    var t := DeleteSeat(s, id).value;
    DroppedSeatsCounts(s, t, {id});
  }

  lemma CreateBookingKeepsCapacity(s: Store, input: BookingInput, now: Now)
    requires Wf(s) && WithinCapacity(s) && CreateBooking(s, input, now).Success?
    ensures WithinCapacity(CreateBooking(s, input, now).value)
  {
    SameVenuesSameCounts(s, CreateBooking(s, input, now).value);
  }

  lemma UpdateBookingKeepsCapacity(s: Store, id: BookingId, input: BookingInput, now: Now)
    requires WithinCapacity(s) && UpdateBooking(s, id, input, now).Success?
    ensures WithinCapacity(UpdateBooking(s, id, input, now).value)
  {
    SameVenuesSameCounts(s, UpdateBooking(s, id, input, now).value);
  }

  lemma DeleteBookingKeepsCapacity(s: Store, id: BookingId)
    requires WithinCapacity(s) && DeleteBooking(s, id).Success?
    ensures WithinCapacity(DeleteBooking(s, id).value)
  {
    SameVenuesSameCounts(s, DeleteBooking(s, id).value);
  }
}
