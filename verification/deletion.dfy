/** Deleting records. A venue's seats go with it; a seat that a booking
    references may not be deleted, and neither may a venue owning such a
    seat. Deleting a booking removes that row and writes nothing else: in
    particular the seat's booked flag stays as it was. */
module Deletion {
  import opened Results
  import opened Models

  /** Deleting a booking: only the booking row goes. */
  function DeleteBooking(s: Store, id: BookingId): (r: Result<Store, Error>)
    ensures r.Failure? <==> id !in s.bookings
    ensures r.Failure? ==> r.error == NotFound
    ensures r.Success? ==>
      && Dropped(s.bookings, r.value.bookings, {id})
      && |r.value.bookings| == |s.bookings| - 1
      && r.value.seats == s.seats && r.value.venues == s.venues
  {
    if id !in s.bookings then Failure(NotFound)
    else Success(s.(bookings := s.bookings - {id}))
  }

  /** Deleting a seat: refused while any booking references it. */
  function DeleteSeat(s: Store, id: SeatId): (r: Result<Store, Error>)
    ensures r == Failure(NotFound) <==> id !in s.seats
    ensures r == Failure(Protected) <==> id in s.seats && SeatReferenced(s, id, None)
    ensures r.Success? <==> id in s.seats && !SeatReferenced(s, id, None)
    ensures r.Success? ==>
      && Dropped(s.seats, r.value.seats, {id})
      && r.value.venues == s.venues && r.value.bookings == s.bookings
      && (forall b :: b in r.value.bookings ==> r.value.bookings[b].seat != id)
  {
    if id !in s.seats then Failure(NotFound)
    else if SeatReferenced(s, id, None) then Failure(Protected)
    else Success(s.(seats := s.seats - {id}))
  }

  /** Some booking references a seat the venue owns. */
  predicate VenueHasBookedSeat(s: Store, v: VenueId) {
    exists b :: b in s.bookings && s.bookings[b].seat in SeatsOf(s, v)
  }

  /** Deleting a venue: every seat it owns goes with it, unless a booking
      references one of them, in which case nothing is deleted. */
  function DeleteVenue(s: Store, id: VenueId): (r: Result<Store, Error>)
    ensures r == Failure(NotFound) <==> id !in s.venues
    ensures r == Failure(Protected) <==>
      id in s.venues && exists b :: b in s.bookings && s.bookings[b].seat in s.seats
                                    && s.seats[s.bookings[b].seat].venue == id
    ensures r.Success? <==> id in s.venues && !VenueHasBookedSeat(s, id)
    ensures r.Success? ==>
      && Dropped(s.venues, r.value.venues, {id})
      && Dropped(s.seats, r.value.seats, SeatsOf(s, id))
      && SeatCount(r.value, id) == 0
      && r.value.bookings == s.bookings
  {
    if id !in s.venues then Failure(NotFound)
    else if VenueHasBookedSeat(s, id) then Failure(Protected)
    else
      var t := s.(venues := s.venues - {id}, seats := s.seats - SeatsOf(s, id));
      assert SeatsOf(t, id) == {};
      Success(t)
  }
}
