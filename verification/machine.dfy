/** The API as a state machine: each request is one step on the store, a
    rejected step leaves the store as it was, and a run is a sequence of
    steps from the empty database. */
module Machine {
  import opened Results
  import opened Models
  import opened Clock
  import opened Serializers
  import opened Deletion
  import opened Invariants

  /** One write request. Booking writes carry the clock reading at the
      moment the request is validated. */
  datatype Op =
    | CreateVenueOp(venue: VenueInput)
    | UpdateVenueOp(id: nat, venue: VenueInput)
    | DeleteVenueOp(id: nat)
    | CreateSeatOp(seat: SeatInput)
    | UpdateSeatOp(id: nat, seat: SeatInput)
    | DeleteSeatOp(id: nat)
    | CreateBookingOp(booking: BookingInput, now: Now)
    | UpdateBookingOp(id: nat, booking: BookingInput, now: Now)
    | DeleteBookingOp(id: nat)

  function Step(s: Store, op: Op): Result<Store, Error>
    requires Wf(s)
  {
    match op
    case CreateVenueOp(input) => CreateVenue(s, input)
    case UpdateVenueOp(id, input) => UpdateVenue(s, id, input)
    case DeleteVenueOp(id) => DeleteVenue(s, id)
    case CreateSeatOp(input) => CreateSeat(s, input)
    case UpdateSeatOp(id, input) => UpdateSeat(s, id, input)
    case DeleteSeatOp(id) => DeleteSeat(s, id)
    case CreateBookingOp(input, now) => CreateBooking(s, input, now)
    case UpdateBookingOp(id, input, now) => UpdateBooking(s, id, input, now)
    case DeleteBookingOp(id) => DeleteBooking(s, id)
  }

  /** Every accepted request keeps every integrity rule. */
  lemma StepKeepsWf(s: Store, op: Op)
    requires Wf(s) && Step(s, op).Success?
    ensures Wf(Step(s, op).value)
  {
    match op
    case CreateVenueOp(input) => CreateVenueKeepsWf(s, input);
    case UpdateVenueOp(id, input) => UpdateVenueKeepsWf(s, id, input);
    case DeleteVenueOp(id) => DeleteVenueKeepsWf(s, id);
    case CreateSeatOp(input) => CreateSeatKeepsWf(s, input);
    case UpdateSeatOp(id, input) => UpdateSeatKeepsWf(s, id, input);
    case DeleteSeatOp(id) => DeleteSeatKeepsWf(s, id);
    case CreateBookingOp(input, now) => CreateBookingKeepsWf(s, input, now);
    case UpdateBookingOp(id, input, now) => UpdateBookingKeepsWf(s, id, input, now);
    case DeleteBookingOp(id) => DeleteBookingKeepsWf(s, id);
  }

  /** The store after one request: the new store, or the old one untouched
      when the request is rejected. */
  function Apply(s: Store, op: Op): (t: Store)
    requires Wf(s)
    ensures Wf(t)
    ensures Step(s, op).Success? ==> t == Step(s, op).value
    ensures Step(s, op).Failure? ==> t == s
  {
    match Step(s, op)
    case Success(t) => StepKeepsWf(s, op); t
    case Failure(_) => s
  }

  /** The store after a sequence of requests. */
  function Run(s: Store, ops: seq<Op>): (t: Store)
    requires Wf(s)
    ensures Wf(t)
    decreases |ops|
  {
    if ops == [] then s else Run(Apply(s, ops[0]), ops[1..])
  }

  /** Every store the API can reach from an empty database satisfies the
      integrity rules, and so also the (seat, date, time) uniqueness rule. */
  lemma ReachableStoresAreWf(ops: seq<Op>)
    ensures Wf(Empty)
    ensures Wf(Run(Empty, ops)) && UniqueShowings(Run(Empty, ops))
    ensures SeatTypesValid(Run(Empty, ops))
  {
    EmptyIsWf();
    OneBookingPerSeatGivesUniqueShowings(Run(Empty, ops));
  }

  // ---- Capacity over runs ----

  /** No request in the sequence edits a venue. */
  predicate NoVenueEdits(ops: seq<Op>) {
    forall i :: 0 <= i < |ops| ==> !ops[i].UpdateVenueOp?
  }

  /** Every request other than a venue edit keeps every venue within its
      capacity. */
  lemma StepKeepsCapacity(s: Store, op: Op)
    requires Wf(s) && WithinCapacity(s) && !op.UpdateVenueOp?
    ensures WithinCapacity(Apply(s, op))
  {
    if Step(s, op).Success? {
      match op
      case CreateVenueOp(input) => CreateVenueKeepsCapacity(s, input);
      case DeleteVenueOp(id) => DeleteVenueKeepsCapacity(s, id);
      case CreateSeatOp(input) => CreateSeatKeepsCapacity(s, input);
      case UpdateSeatOp(id, input) => UpdateSeatKeepsCapacity(s, id, input);
      case DeleteSeatOp(id) => DeleteSeatKeepsCapacity(s, id);
      case CreateBookingOp(input, now) => CreateBookingKeepsCapacity(s, input, now);
      case UpdateBookingOp(id, input, now) => UpdateBookingKeepsCapacity(s, id, input, now);
      case DeleteBookingOp(id) => DeleteBookingKeepsCapacity(s, id);
    }
  }

  /** Seat writes through the serializer, in any number and order, never
      take a venue past its capacity, as long as no venue is edited. */
  lemma {:induction false} RunKeepsCapacity(s: Store, ops: seq<Op>)
    requires Wf(s) && WithinCapacity(s) && NoVenueEdits(ops)
    ensures WithinCapacity(Run(s, ops))
    decreases |ops|
  {
    if ops != [] {
      StepKeepsCapacity(s, ops[0]);
      assert NoVenueEdits(ops[1..]) by {
        forall i | 0 <= i < |ops[1..]| ensures !ops[1..][i].UpdateVenueOp? {
          assert ops[1..][i] == ops[i + 1];
        }
      }
      RunKeepsCapacity(Apply(s, ops[0]), ops[1..]);
    }
  }

  /** Hence from an empty database no venue ever holds more seats than its
      capacity allows, unless a venue edit intervened. */
  lemma ReachableWithinCapacity(ops: seq<Op>)
    requires NoVenueEdits(ops)
    ensures Wf(Empty)
    ensures WithinCapacity(Run(Empty, ops))
  {
    EmptyIsWf();
    RunKeepsCapacity(Empty, ops);
  }

  /** A venue edit is not checked against the seats it has: lowering the
      capacity of a full venue is accepted and leaves it over capacity. */
  lemma VenueEditCanOverfill()
    ensures
      var s := Store(map[1 := Venue("Hall", "Town", 1)], map[1 := Seat(1, "A1", REGULAR, 50, false)], map[], 2, 2, 1);
      var r := UpdateVenue(s, 1, VenueInput("Hall", "Town", 0));
      && Wf(s) && WithinCapacity(s)
      && r.Success? && !WithinCapacity(r.value)
  {
    var s := Store(map[1 := Venue("Hall", "Town", 1)], map[1 := Seat(1, "A1", REGULAR, 50, false)], map[], 2, 2, 1);
    assert SeatsOf(s, 1) == {1};
    assert !NameTaken(s, "Hall", Some(1));
    var t := UpdateVenue(s, 1, VenueInput("Hall", "Town", 0)).value;
    assert SeatsOf(t, 1) == {1};
  }
}
