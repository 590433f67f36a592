/** The write paths of the three serializers. Each request goes through the
    same stages in the same order: field validation (a foreign key must name
    a stored record, a seat class must be one of the choices, a unique field
    must not repeat), then the multi-column uniqueness rule, then the
    serializer's own `validate`, and only then the write. The first stage
    that objects decides the error, and nothing is written. */
module Serializers {
  import opened Results
  import opened Models
  import opened Clock

  datatype VenueInput = VenueInput(name: string, location: string, capacity: int)

  /** `kind` and `isBooked` have model defaults and may be left out of a
      request; `isBooked` is an ordinary writable field. */
  datatype SeatInput = SeatInput(
    venue: VenueId, number: string, kind: Option<int>, price: int, isBooked: Option<bool>)

  datatype BookingInput = BookingInput(
    seat: SeatId, customer: string, phone: string, email: string, date: int, time: int)

  /** The seat-class field accepts only the declared choices. */
  predicate KindOk(kind: Option<int>) {
    kind.None? || IsSeatType(kind.value)
  }

  // ---- Venues ----

  /** Creating a venue: the name must be new. No rule reads the capacity. */
  function CreateVenue(s: Store, input: VenueInput): (r: Result<Store, Error>)
    requires KeysBelowCounters(s) && ForeignKeysResolve(s)
    ensures r.Failure? <==> NameTaken(s, input.name, None)
    ensures r.Failure? ==> r.error == DuplicateVenueName
    ensures r.Success? ==>
      && Inserted(s.venues, r.value.venues, s.nextVenue, Venue(input.name, input.location, input.capacity))
      && r.value.seats == s.seats && r.value.bookings == s.bookings
      && SeatCount(r.value, s.nextVenue) == 0
  {
    if NameTaken(s, input.name, None) then Failure(DuplicateVenueName)
    else
      var t := s.(venues := s.venues[s.nextVenue := Venue(input.name, input.location, input.capacity)],
                  nextVenue := s.nextVenue + 1);
      assert SeatsOf(t, s.nextVenue) == {};
      Success(t)
  }

  /** Replacing a venue's fields: the new name must not belong to another
      venue. The capacity is not checked against the seats it already has. */
  function UpdateVenue(s: Store, id: VenueId, input: VenueInput): (r: Result<Store, Error>)
    ensures r == Failure(NotFound) <==> id !in s.venues
    ensures r == Failure(DuplicateVenueName) <==> id in s.venues && NameTaken(s, input.name, Some(id))
    ensures r.Success? <==> id in s.venues && !NameTaken(s, input.name, Some(id))
    ensures r.Success? ==>
      && Overwritten(s.venues, r.value.venues, id, Venue(input.name, input.location, input.capacity))
      && r.value.seats == s.seats && r.value.bookings == s.bookings
  {
    if id !in s.venues then Failure(NotFound)
    else if NameTaken(s, input.name, Some(id)) then Failure(DuplicateVenueName)
    else Success(s.(venues := s.venues[id := Venue(input.name, input.location, input.capacity)]))
  }

  // ---- Seats ----

  /** The seat serializer's `validate`: the venue's stored seats, every one
      of them, are counted against its capacity; otherwise the data passes
      through untouched. */
  function ValidateSeat(s: Store, data: SeatInput): (r: Result<SeatInput, Error>)
    requires data.venue in s.venues
    ensures r.Failure? <==> SeatCount(s, data.venue) >= s.venues[data.venue].capacity
    ensures r.Failure? ==> r.error == CapacityExceeded
    ensures r.Success? ==> r.value == data
  {
    if SeatCount(s, data.venue) >= s.venues[data.venue].capacity then Failure(CapacityExceeded)
    else Success(data)
  }

  /** Creating a seat through the serializer. */
  function CreateSeat(s: Store, input: SeatInput): (r: Result<Store, Error>)
    requires KeysBelowCounters(s)
    ensures r == Failure(NoSuchVenue) <==> input.venue !in s.venues
    ensures r == Failure(InvalidSeatType) <==> input.venue in s.venues && !KindOk(input.kind)
    ensures r == Failure(DuplicateSeatNumber) <==>
      input.venue in s.venues && KindOk(input.kind) && NumberTaken(s, input.venue, input.number, None)
    ensures r == Failure(CapacityExceeded) <==>
      && input.venue in s.venues && KindOk(input.kind) && !NumberTaken(s, input.venue, input.number, None)
      && SeatCount(s, input.venue) >= s.venues[input.venue].capacity
    ensures r.Success? <==>
      && input.venue in s.venues && KindOk(input.kind) && !NumberTaken(s, input.venue, input.number, None)
      && SeatCount(s, input.venue) < s.venues[input.venue].capacity
    ensures r.Success? ==>
      && Inserted(s.seats, r.value.seats, s.nextSeat,
                  Seat(input.venue, input.number, input.kind.GetOr(REGULAR), input.price, input.isBooked.GetOr(false)))
      && r.value.venues == s.venues && r.value.bookings == s.bookings
      && SeatCount(r.value, input.venue) == SeatCount(s, input.venue) + 1 <= s.venues[input.venue].capacity
      && forall v :: v != input.venue ==> SeatCount(r.value, v) == SeatCount(s, v)
  {
    if input.venue !in s.venues then Failure(NoSuchVenue)
    else if !KindOk(input.kind) then Failure(InvalidSeatType)
    else if NumberTaken(s, input.venue, input.number, None) then Failure(DuplicateSeatNumber)
    else match ValidateSeat(s, input)
      case Failure(e) => Failure(e)
      case Success(data) =>
        var seat := Seat(data.venue, data.number, data.kind.GetOr(REGULAR), data.price, data.isBooked.GetOr(false));
        var t := s.(seats := s.seats[s.nextSeat := seat], nextSeat := s.nextSeat + 1);
        InsertedSeatCounts(s, t, s.nextSeat, seat);
        Success(t)
  }

  /** Replacing a seat's fields through the serializer. The capacity check
      counts the seat being edited too, so a venue that is full rejects every
      save, even one that changes nothing. A class or flag left out of the
      request keeps its stored value. */
  function UpdateSeat(s: Store, id: SeatId, input: SeatInput): (r: Result<Store, Error>)
    ensures r == Failure(NotFound) <==> id !in s.seats
    ensures r == Failure(NoSuchVenue) <==> id in s.seats && input.venue !in s.venues
    ensures r == Failure(InvalidSeatType) <==> id in s.seats && input.venue in s.venues && !KindOk(input.kind)
    ensures r == Failure(DuplicateSeatNumber) <==>
      id in s.seats && input.venue in s.venues && KindOk(input.kind)
      && NumberTaken(s, input.venue, input.number, Some(id))
    ensures r == Failure(CapacityExceeded) <==>
      && id in s.seats && input.venue in s.venues && KindOk(input.kind)
      && !NumberTaken(s, input.venue, input.number, Some(id))
      && SeatCount(s, input.venue) >= s.venues[input.venue].capacity
    ensures r.Success? <==>
      && id in s.seats && input.venue in s.venues && KindOk(input.kind)
      && !NumberTaken(s, input.venue, input.number, Some(id))
      && SeatCount(s, input.venue) < s.venues[input.venue].capacity
    ensures r.Success? ==>
      && Overwritten(s.seats, r.value.seats, id,
                     Seat(input.venue, input.number, input.kind.GetOr(s.seats[id].kind), input.price,
                          input.isBooked.GetOr(s.seats[id].isBooked)))
      && r.value.venues == s.venues && r.value.bookings == s.bookings
      && SeatCount(s, input.venue) < s.venues[input.venue].capacity
  {
    if id !in s.seats then Failure(NotFound)
    else if input.venue !in s.venues then Failure(NoSuchVenue)
    else if !KindOk(input.kind) then Failure(InvalidSeatType)
    else if NumberTaken(s, input.venue, input.number, Some(id)) then Failure(DuplicateSeatNumber)
    else match ValidateSeat(s, input)
      case Failure(e) => Failure(e)
      case Success(data) =>
        var stored := s.seats[id];
        var seat := Seat(data.venue, data.number, data.kind.GetOr(stored.kind), data.price,
                         data.isBooked.GetOr(stored.isBooked));
        Success(s.(seats := s.seats[id := seat]))
  }

  // ---- Bookings ----

  /** The booking serializer's `validate`: first the event must not be in the
      past, then the seat's flag must be clear; otherwise the data passes
      through untouched. */
  function ValidateBooking(s: Store, data: BookingInput, now: Now): (r: Result<BookingInput, Error>)
    requires data.seat in s.seats
    ensures r == Failure(PastEvent) <==> InPast(data.date, data.time, now)
    ensures r == Failure(SeatAlreadyBooked) <==> !InPast(data.date, data.time, now) && s.seats[data.seat].isBooked
    ensures r.Success? <==> !InPast(data.date, data.time, now) && !s.seats[data.seat].isBooked
    ensures r.Success? ==> r.value == data
  {
    if InPast(data.date, data.time, now) then Failure(PastEvent)
    else if s.seats[data.seat].isBooked then Failure(SeatAlreadyBooked)
    else Success(data)
  }

  /** Creating a booking through the serializer: after validation the seat's
      flag is set and one booking is inserted. The one-to-one rule on the seat
      is checked before the three-column rule, so the latter never fires. */
  function CreateBooking(s: Store, input: BookingInput, now: Now): (r: Result<Store, Error>)
    requires KeysBelowCounters(s)
    ensures r == Failure(NoSuchSeat) <==> input.seat !in s.seats
    ensures r == Failure(SeatHasBooking) <==> input.seat in s.seats && SeatReferenced(s, input.seat, None)
    ensures r != Failure(DuplicateShowing)
    ensures r == Failure(PastEvent) <==>
      input.seat in s.seats && !SeatReferenced(s, input.seat, None) && InPast(input.date, input.time, now)
    ensures r == Failure(SeatAlreadyBooked) <==>
      && input.seat in s.seats && !SeatReferenced(s, input.seat, None) && !InPast(input.date, input.time, now)
      && s.seats[input.seat].isBooked
    ensures r.Success? <==>
      && input.seat in s.seats && !SeatReferenced(s, input.seat, None) && !InPast(input.date, input.time, now)
      && !s.seats[input.seat].isBooked
    ensures r.Success? ==>
      && Overwritten(s.seats, r.value.seats, input.seat, s.seats[input.seat].(isBooked := true))
      && Inserted(s.bookings, r.value.bookings, s.nextBooking,
                  Booking(input.seat, input.customer, input.phone, input.email, input.date, input.time))
      && |r.value.bookings| == |s.bookings| + 1
      && r.value.venues == s.venues
  {
    if input.seat !in s.seats then Failure(NoSuchSeat)
    else if SeatReferenced(s, input.seat, None) then Failure(SeatHasBooking)
    else if ShowingTaken(s, input.seat, input.date, input.time, None) then Failure(DuplicateShowing)
    else match ValidateBooking(s, input, now)
      case Failure(e) => Failure(e)
      case Success(data) => Success(BookSeat(s, data))
  }

  /** The serializer's `create`: flag the seat, then insert the booking
      under a fresh id. */
  function BookSeat(s: Store, data: BookingInput): (t: Store)
    requires data.seat in s.seats && s.nextBooking !in s.bookings
    ensures Overwritten(s.seats, t.seats, data.seat, s.seats[data.seat].(isBooked := true))
    ensures Inserted(s.bookings, t.bookings, s.nextBooking,
                     Booking(data.seat, data.customer, data.phone, data.email, data.date, data.time))
    ensures |t.bookings| == |s.bookings| + 1
    ensures t.venues == s.venues && t.nextVenue == s.nextVenue && t.nextSeat == s.nextSeat
    ensures t.nextBooking == s.nextBooking + 1
  {
    var seat := s.seats[data.seat];
    var booking := Booking(data.seat, data.customer, data.phone, data.email, data.date, data.time);
    s.(seats := s.seats[data.seat := seat.(isBooked := true)],
       bookings := s.bookings[s.nextBooking := booking],
       nextBooking := s.nextBooking + 1)
  }

  /** Replacing a booking's fields. The same validation runs, with the
      stored booking itself excused from the uniqueness rules; no seat flag
      is touched. */
  function UpdateBooking(s: Store, id: BookingId, input: BookingInput, now: Now): (r: Result<Store, Error>)
    ensures r == Failure(NotFound) <==> id !in s.bookings
    ensures r == Failure(NoSuchSeat) <==> id in s.bookings && input.seat !in s.seats
    ensures r == Failure(SeatHasBooking) <==>
      id in s.bookings && input.seat in s.seats && SeatReferenced(s, input.seat, Some(id))
    ensures r != Failure(DuplicateShowing)
    ensures r == Failure(PastEvent) <==>
      && id in s.bookings && input.seat in s.seats && !SeatReferenced(s, input.seat, Some(id))
      && InPast(input.date, input.time, now)
    ensures r == Failure(SeatAlreadyBooked) <==>
      && id in s.bookings && input.seat in s.seats && !SeatReferenced(s, input.seat, Some(id))
      && !InPast(input.date, input.time, now) && s.seats[input.seat].isBooked
    ensures r.Success? <==>
      && id in s.bookings && input.seat in s.seats && !SeatReferenced(s, input.seat, Some(id))
      && !InPast(input.date, input.time, now) && !s.seats[input.seat].isBooked
    ensures r.Success? ==>
      && Overwritten(s.bookings, r.value.bookings, id,
                     Booking(input.seat, input.customer, input.phone, input.email, input.date, input.time))
      && r.value.venues == s.venues && r.value.seats == s.seats
  {
    if id !in s.bookings then Failure(NotFound)
    else if input.seat !in s.seats then Failure(NoSuchSeat)
    else if SeatReferenced(s, input.seat, Some(id)) then Failure(SeatHasBooking)
    else if ShowingTaken(s, input.seat, input.date, input.time, Some(id)) then Failure(DuplicateShowing)
    else match ValidateBooking(s, input, now)
      case Failure(e) => Failure(e)
      case Success(data) =>
        var booking := Booking(data.seat, data.customer, data.phone, data.email, data.date, data.time);
        Success(s.(bookings := s.bookings[id := booking]))
  }
}
