/** Venues, seats and bookings as stored records, and the integrity rules
    the database schema puts on them: unique venue names, unique seat numbers
    within a venue, at most one booking per seat, valid seat classes and
    foreign keys that resolve. */
module Models {
  import opened Results

  type VenueId = nat
  type SeatId = nat
  type BookingId = nat

  /** The integer codes of the two seat classes. */
  const REGULAR: int := 0
  const VIP: int := 1

  predicate IsSeatType(code: int) {
    code == REGULAR || code == VIP
  }

  /** The capacity column is a plain integer: nothing forces it positive. */
  datatype Venue = Venue(name: string, location: string, capacity: int)

  /** `price` stands in for a floating-point column that no rule reads. */
  datatype Seat = Seat(venue: VenueId, number: string, kind: int, price: int, isBooked: bool)

  /** `date` is a day number and `time` a time of day in clock ticks. */
  datatype Booking = Booking(
    seat: SeatId, customer: string, phone: string, email: string, date: int, time: int)

  /** The three tables, with the next id each one hands out. */
  datatype Store = Store(
    venues: map<VenueId, Venue>,
    seats: map<SeatId, Seat>,
    bookings: map<BookingId, Booking>,
    nextVenue: nat,
    nextSeat: nat,
    nextBooking: nat)

  /** A fresh database; auto-increment ids start at 1. */
  const Empty: Store := Store(map[], map[], map[], 1, 1, 1)

  /** Why a request was rejected. `NotFound` is the record named in the URL;
      `NoSuchVenue` and `NoSuchSeat` are a foreign key in the request body. */
  datatype Error =
    | NotFound
    | NoSuchVenue
    | NoSuchSeat
    | DuplicateVenueName
    | InvalidSeatType
    | DuplicateSeatNumber
    | CapacityExceeded
    | SeatHasBooking
    | DuplicateShowing
    | PastEvent
    | SeatAlreadyBooked
    | Protected

  /** The seats a venue owns. */
  function SeatsOf(s: Store, v: VenueId): set<SeatId> {
    set id | id in s.seats && s.seats[id].venue == v
  }

  /** The number the capacity rule compares against the venue's capacity. */
  function SeatCount(s: Store, v: VenueId): nat {
    |SeatsOf(s, v)|
  }

  /** Some venue other than `except` already has this name. */
  predicate NameTaken(s: Store, name: string, except: Option<VenueId>) {
    exists v :: v in s.venues && s.venues[v].name == name && except != Some(v)
  }

  /** Some seat other than `except` already has this number in this venue. */
  predicate NumberTaken(s: Store, venue: VenueId, number: string, except: Option<SeatId>) {
    exists id :: id in s.seats && s.seats[id].venue == venue && s.seats[id].number == number && except != Some(id)
  }

  /** Some booking other than `except` references this seat. */
  predicate SeatReferenced(s: Store, seat: SeatId, except: Option<BookingId>) {
    exists b :: b in s.bookings && s.bookings[b].seat == seat && except != Some(b)
  }

  /** Some booking other than `except` is for this seat at this date and time. */
  predicate ShowingTaken(s: Store, seat: SeatId, date: int, time: int, except: Option<BookingId>) {
    exists b :: b in s.bookings && s.bookings[b].seat == seat && s.bookings[b].date == date
      && s.bookings[b].time == time && except != Some(b)
  }

  /** A second showing of the same seat is in particular a second booking
      of that seat, so the triple check can never fire after the seat check. */
  lemma ShowingTakenIsSeatReferenced(s: Store, seat: SeatId, date: int, time: int, except: Option<BookingId>)
    ensures ShowingTaken(s, seat, date, time, except) ==> SeatReferenced(s, seat, except)
  {
  }

  // ---- Integrity of a store ----

  ghost predicate KeysBelowCounters(s: Store) {
    && (forall v :: v in s.venues ==> v < s.nextVenue)
    && (forall id :: id in s.seats ==> id < s.nextSeat)
    && (forall b :: b in s.bookings ==> b < s.nextBooking)
  }

  ghost predicate ForeignKeysResolve(s: Store) {
    && (forall id :: id in s.seats ==> s.seats[id].venue in s.venues)
    && (forall b :: b in s.bookings ==> s.bookings[b].seat in s.seats)
  }

  ghost predicate UniqueVenueNames(s: Store) {
    forall v, w :: v in s.venues && w in s.venues && s.venues[v].name == s.venues[w].name ==> v == w
  }

  ghost predicate UniqueSeatNumbers(s: Store) {
    forall a, b ::
      (a in s.seats && b in s.seats && s.seats[a].venue == s.seats[b].venue
       && s.seats[a].number == s.seats[b].number) ==> a == b
  }

  ghost predicate OneBookingPerSeat(s: Store) {
    forall a, b :: a in s.bookings && b in s.bookings && s.bookings[a].seat == s.bookings[b].seat ==> a == b
  }

  ghost predicate UniqueShowings(s: Store) {
    forall a, b ::
      (a in s.bookings && b in s.bookings && s.bookings[a].seat == s.bookings[b].seat
       && s.bookings[a].date == s.bookings[b].date && s.bookings[a].time == s.bookings[b].time) ==> a == b
  }

  ghost predicate SeatTypesValid(s: Store) {
    forall id :: id in s.seats ==> IsSeatType(s.seats[id].kind)
  }

  /** Everything the schema guarantees of a stored state. */
  ghost predicate Wf(s: Store) {
    && KeysBelowCounters(s)
    && ForeignKeysResolve(s)
    && UniqueVenueNames(s)
    && UniqueSeatNumbers(s)
    && OneBookingPerSeat(s)
    && SeatTypesValid(s)
  }

  /** The seats a venue may hold: its capacity, read as zero when negative. */
  function Room(v: Venue): nat {
    if v.capacity < 0 then 0 else v.capacity
  }

  /** No venue holds more seats than it has room for. */
  ghost predicate WithinCapacity(s: Store) {
    forall v :: v in s.venues ==> SeatCount(s, v) <= Room(s.venues[v])
  }

  // ---- Shapes of a table change ----

  /** `m'` is `m` with one entry added under a key `m` did not use. */
  ghost predicate Inserted<K, V>(m: map<K, V>, m': map<K, V>, k: K, v: V) {
    && k !in m
    && m'.Keys == m.Keys + {k}
    && m'[k] == v
    && forall j :: j in m ==> m'[j] == m[j]
  }

  /** `m'` is `m` with the entry under `k` replaced and nothing else changed. */
  ghost predicate Overwritten<K, V>(m: map<K, V>, m': map<K, V>, k: K, v: V) {
    && k in m
    && m'.Keys == m.Keys
    && m'[k] == v
    && forall j :: j in m && j != k ==> m'[j] == m[j]
  }

  /** `m'` is `m` with the entries under `ks` dropped and nothing else changed. */
  ghost predicate Dropped<K, V>(m: map<K, V>, m': map<K, V>, ks: set<K>) {
    && m'.Keys == m.Keys - ks
    && forall j :: j in m' ==> m'[j] == m[j]
  }

  /** Adding a seat under a new id adds one to its venue's count and leaves
      every other venue's count alone. */
  lemma InsertedSeatCounts(s: Store, t: Store, id: SeatId, seat: Seat)
    requires id !in s.seats && t.seats == s.seats[id := seat]
    ensures SeatCount(t, seat.venue) == SeatCount(s, seat.venue) + 1
    ensures forall v :: v != seat.venue ==> SeatCount(t, v) == SeatCount(s, v)
  {
    assert SeatsOf(t, seat.venue) == SeatsOf(s, seat.venue) + {id};
    forall v | v != seat.venue
      ensures SeatCount(t, v) == SeatCount(s, v)
    {
      assert SeatsOf(t, v) == SeatsOf(s, v);
    }
  }

  /** The empty database satisfies every integrity rule and every capacity. */
  lemma EmptyIsWf()
    ensures Wf(Empty) && WithinCapacity(Empty)
  {
  }

  /** One booking per seat already rules out two bookings of the same
      showing, so the three-column uniqueness rule holds wherever the
      one-to-one rule does. */
  lemma OneBookingPerSeatGivesUniqueShowings(s: Store)
    requires OneBookingPerSeat(s)
    ensures UniqueShowings(s)
  {
  }
}
