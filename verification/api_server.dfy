/** The hotel state of api/index.js, the variant: the rooms, the map from booking
    id to booking record, and the next booking id. Its `bookRooms` takes room
    numbers, not a count, and skips every number that names no room or a room
    already taken; its random fill leaves the booking map empty. */
module ApiServer {
  import opened Basics
  import opened Rooms
  import opened Sorting
  import opened Availability
  import opened Occupancy
  import opened ApiAllocator

  /** `{ id, rooms }` as `this.bookings` stores it, the rooms by index. */
  datatype BookingRecord = BookingRecord(id: nat, rooms: seq<nat>)

  /** `this.rooms`, `this.bookings` (booking id to record), `this.nextBookingId`. */
  datatype Hotel = Hotel(rooms: seq<Room>, bookings: map<nat, BookingRecord>, nextBookingId: nat)

  /** The constructor: the 97 rooms of the catalogue, all free, no bookings, next
      id 1. */
  function NewHotel(): (h: Hotel)
    ensures |h.rooms| == 97 && h.bookings == map[] && h.nextBookingId == 1
    ensures forall i :: 0 <= i < |h.rooms| ==> h.rooms[i].available && h.rooms[i].bookingId == None
  {
    Hotel(InitializeRooms(), map[], 1)
  }

  /** `this.rooms.find(r => r.number === roomNumber)`: the index of the first room
      with that number, if any. */
  function FindRoom(rooms: seq<Room>, number: int): (r: Option<nat>)
    ensures r.Some? ==> r.value < |rooms| && rooms[r.value].number == number
    ensures r.Some? ==> forall j :: 0 <= j < r.value ==> rooms[j].number != number
    ensures r.None? ==> forall j :: 0 <= j < |rooms| ==> rooms[j].number != number
  {
    if rooms == [] then None
    else if rooms[0].number == number then Some(0)
    else
      match FindRoom(rooms[1..], number)
      case None => None
      case Some(i) => Some(i + 1)
  }

  /** With unique numbers, looking up a room's number finds that room. */
  lemma FindRoomOfNumber(rooms: seq<Room>, i: nat)
    requires DistinctNumbers(rooms)
    requires i < |rooms|
    ensures FindRoom(rooms, rooms[i].number) == Some(i)
  {
  }

  /** The lookup sees numbers only: booking or freeing rooms does not change it. */
  lemma FindRoomIgnoresBookings(a: seq<Room>, b: seq<Room>, number: int)
    requires SameIdentities(a, b)
    ensures FindRoom(a, number) == FindRoom(b, number)
  {
  }

  /** The loop `for (const roomNumber of roomNumbers)` of `bookRooms`: each number
      whose room exists and is available occupies that room under `id` and adds
      it to the booked list; any other number is skipped. */
  function BookEach(rooms: seq<Room>, numbers: seq<int>, id: nat): (r: (seq<Room>, seq<nat>))
    ensures InRange(rooms, r.1) && Distinct(r.1)
    ensures r.0 == MarkRooms(rooms, r.1, id)
    ensures forall x: int :: x in r.1 <==>
      && 0 <= x < |rooms| && rooms[x].available
      && rooms[x].number in numbers
      && FindRoom(rooms, rooms[x].number) == Some(x)
    decreases |numbers|
  {
    if numbers == [] then (rooms, [])
    else
      match FindRoom(rooms, numbers[0])
      case Some(i) =>
        if rooms[i].available then
          var next := rooms[i := Occupied(rooms[i], id)];
          var (rs, booked) := BookEach(next, numbers[1..], id);
          BookEachStep(rooms, numbers, id, i, booked);
          MarkRoomsFirst(rooms, i, booked, id);
          (rs, [i] + booked)
        else
          var (rs, booked) := BookEach(rooms, numbers[1..], id);
          BookEachSkip(rooms, numbers, booked);
          (rs, booked)
      case None =>
        var (rs, booked) := BookEach(rooms, numbers[1..], id);
        BookEachSkip(rooms, numbers, booked);
        (rs, booked)
  }

  /** Occupying `[i] + rest` is occupying `i` first, then `rest`. */
  lemma MarkRoomsFirst(rooms: seq<Room>, i: nat, rest: seq<nat>, id: nat)
    requires i < |rooms| && InRange(rooms, rest)
    ensures InRange(rooms, [i] + rest)
    ensures MarkRooms(rooms, [i] + rest, id) == MarkRooms(rooms[i := Occupied(rooms[i], id)], rest, id)
  {
    assert ([i] + rest)[1..] == rest;
  }

  /** The step of `BookEach` that books room `i`, the room of the first number. */
  lemma BookEachStep(rooms: seq<Room>, numbers: seq<int>, id: nat, i: nat, booked: seq<nat>)
    requires |numbers| > 0
    requires FindRoom(rooms, numbers[0]) == Some(i) && rooms[i].available
    requires forall x: int :: x in booked <==>
      var next := rooms[i := Occupied(rooms[i], id)];
      && 0 <= x < |next| && next[x].available
      && next[x].number in numbers[1..]
      && FindRoom(next, next[x].number) == Some(x)
    ensures forall x: int :: x in [i] + booked <==>
      && 0 <= x < |rooms| && rooms[x].available
      && rooms[x].number in numbers
      && FindRoom(rooms, rooms[x].number) == Some(x)
    ensures i !in booked
  {
    var next := rooms[i := Occupied(rooms[i], id)];
    assert SameIdentities(rooms, next);
    forall x: int
      ensures x in [i] + booked <==>
        && 0 <= x < |rooms| && rooms[x].available
        && rooms[x].number in numbers
        && FindRoom(rooms, rooms[x].number) == Some(x)
    {
      if 0 <= x < |rooms| {
        FindRoomIgnoresBookings(rooms, next, rooms[x].number);
        assert numbers == [numbers[0]] + numbers[1..];
      }
    }
  }

  /** The step of `BookEach` that skips the first number: its room is missing or
      taken, so it adds no room. */
  lemma BookEachSkip(rooms: seq<Room>, numbers: seq<int>, booked: seq<nat>)
    requires |numbers| > 0
    requires FindRoom(rooms, numbers[0]).None? || !rooms[FindRoom(rooms, numbers[0]).value].available
    requires forall x: int :: x in booked <==>
      && 0 <= x < |rooms| && rooms[x].available
      && rooms[x].number in numbers[1..]
      && FindRoom(rooms, rooms[x].number) == Some(x)
    ensures forall x: int :: x in booked <==>
      && 0 <= x < |rooms| && rooms[x].available
      && rooms[x].number in numbers
      && FindRoom(rooms, rooms[x].number) == Some(x)
  {
    assert numbers == [numbers[0]] + numbers[1..];
  }

  /** The variant's `bookRooms(roomNumbers)`: it always takes the next id and
      records a booking under it, even when no number could be booked. */
  function BookRooms(h: Hotel, numbers: seq<int>): (r: (Hotel, BookingRecord))
    ensures r.1.id == h.nextBookingId && r.0.nextBookingId == h.nextBookingId + 1
    ensures r.0.bookings == h.bookings[r.1.id := r.1]
    ensures IsRoomChoice(h.rooms, |r.1.rooms|, r.1.rooms)
    ensures r.0.rooms == MarkRooms(h.rooms, r.1.rooms, r.1.id)
  {
    var id := h.nextBookingId;
    var (rooms, booked) := BookEach(h.rooms, numbers, id);
    var record := BookingRecord(id, booked);
    (Hotel(rooms, h.bookings[id := record], id + 1), record)
  }

  /** With unique room numbers, a booking takes exactly the available rooms whose
      numbers were asked for. */
  lemma BookRoomsTakesListedAvailable(h: Hotel, numbers: seq<int>)
    requires DistinctNumbers(h.rooms)
    ensures var booked := BookRooms(h, numbers).1.rooms;
      forall x: int :: x in booked <==> 0 <= x < |h.rooms| && h.rooms[x].available && h.rooms[x].number in numbers
  {
    var booked := BookRooms(h, numbers).1.rooms;
    forall x: int | 0 <= x < |h.rooms|
      ensures x in booked <==> h.rooms[x].available && h.rooms[x].number in numbers
    {
      FindRoomOfNumber(h.rooms, x);
    }
  }

  /** When no asked-for number names an available room, the booking is still
      recorded, empty, and the id is used up. */
  lemma EmptyBookingUsesId(h: Hotel, numbers: seq<int>)
    requires forall i :: 0 <= i < |h.rooms| && h.rooms[i].available ==> h.rooms[i].number !in numbers
    ensures var (g, record) := BookRooms(h, numbers);
      && record.rooms == []
      && g.rooms == h.rooms
      && g.nextBookingId == h.nextBookingId + 1
      && h.nextBookingId in g.bookings && g.bookings[h.nextBookingId] == BookingRecord(h.nextBookingId, [])
  {
  }

  /** Booking the numbers of distinct available rooms, in a hotel with unique
      numbers, books exactly those rooms in that order: what the booking route
      does with the allocator's answer. */
  lemma {:induction false} BookEachOfNumbers(rooms: seq<Room>, sel: seq<nat>, id: nat)
    requires DistinctNumbers(rooms)
    requires InRange(rooms, sel) && Distinct(sel)
    requires forall t :: 0 <= t < |sel| ==> rooms[sel[t]].available
    ensures BookEach(rooms, NumbersOf(rooms, sel), id).1 == sel
    decreases |sel|
  {
    if sel != [] {
      var numbers := NumbersOf(rooms, sel);
      var i := sel[0];
      var next := rooms[i := Occupied(rooms[i], id)];
      var rest := sel[1..];
      FindRoomOfNumber(rooms, i);
      BookEachBooksFirst(rooms, numbers, id, i);
      NumbersOfRest(rooms, sel, id);
      BookEachOfNumbers(next, rest, id);
      assert sel == [i] + rest;
    }
  }

  /** When the first number names an available room, that room heads the list. */
  lemma BookEachBooksFirst(rooms: seq<Room>, numbers: seq<int>, id: nat, i: nat)
    requires |numbers| > 0
    requires FindRoom(rooms, numbers[0]) == Some(i) && rooms[i].available
    ensures BookEach(rooms, numbers, id).1 == [i] + BookEach(rooms[i := Occupied(rooms[i], id)], numbers[1..], id).1
  {
  }

  /** After the first room of `sel` is occupied, the rest of `sel` still meets the
      conditions of `BookEachOfNumbers` and has the same numbers. */
  lemma NumbersOfRest(rooms: seq<Room>, sel: seq<nat>, id: nat)
    requires DistinctNumbers(rooms)
    requires InRange(rooms, sel) && Distinct(sel) && |sel| > 0
    requires forall t :: 0 <= t < |sel| ==> rooms[sel[t]].available
    ensures var next := rooms[sel[0] := Occupied(rooms[sel[0]], id)];
      && DistinctNumbers(next)
      && InRange(next, sel[1..]) && Distinct(sel[1..])
      && (forall t :: 0 <= t < |sel[1..]| ==> next[sel[1..][t]].available)
      && NumbersOf(rooms, sel)[1..] == NumbersOf(next, sel[1..])
  {
    var next := rooms[sel[0] := Occupied(rooms[sel[0]], id)];
    assert SameIdentities(rooms, next);
    SameIdentitiesKeepsOrder(rooms, next);
    assert forall t :: 0 <= t < |sel| - 1 ==> sel[1..][t] == sel[t + 1] && sel[t + 1] != sel[0];
  }

  /** The booking route: the allocator's rooms, booked by number. With unique
      room numbers, exactly the rooms the allocator chose are booked, under the
      next id. */
  lemma RouteBooksAllocatorChoice(h: Hotel, k: nat)
    requires k >= 1
    requires DistinctNumbers(h.rooms)
    ensures var found := FindOptimalRooms(h.rooms, k);
      found.Found? ==>
        var (g, record) := BookRooms(h, NumbersOf(h.rooms, found.rooms));
        && record.rooms == found.rooms
        && record.id == h.nextBookingId
        && |AvailableIndices(g.rooms)| == |AvailableIndices(h.rooms)| - k
  {
    var found := FindOptimalRooms(h.rooms, k);
    if found.Found? {
      SelectionIsValid(h.rooms, k);
      BookEachOfNumbers(h.rooms, found.rooms, h.nextBookingId);
      MarkRoomsCount(h.rooms, found.rooms, h.nextBookingId);
    }
  }

  /** The variant's `resetAllBookings`. */
  function ResetAllBookings(h: Hotel): (r: Hotel)
    ensures r.bookings == map[] && r.nextBookingId == 1
    ensures SameIdentities(h.rooms, r.rooms)
    ensures forall i :: 0 <= i < |r.rooms| ==> r.rooms[i].available && r.rooms[i].bookingId == None
  {
    ResetRoomsFreesAll(h.rooms);
    Hotel(ResetRooms(h.rooms), map[], 1)
  }

  /** The variant's `generateRandomOccupancy`, with the shuffle `perm` and the
      count given: reset, then occupy the first rooms of the shuffle under ids
      1, 2, ...; unlike server.js it records no booking, and the count it reports
      is the requested one, not the number of rooms `slice` kept. */
  function GenerateRandomOccupancy(h: Hotel, perm: seq<nat>, count: int): (r: (Hotel, int))
    requires IsShuffle(h.rooms, perm)
    ensures r.1 == count
    ensures r.0.nextBookingId == SliceEnd(|h.rooms|, count) + 1
    ensures r.0.bookings == map[]
    ensures SameIdentities(h.rooms, r.0.rooms)
    ensures forall t :: 0 <= t < r.0.nextBookingId - 1 ==>
      !r.0.rooms[perm[t]].available && r.0.rooms[perm[t]].bookingId == Some(t + 1)
    ensures forall i :: 0 <= i < |h.rooms| && i !in perm[..r.0.nextBookingId - 1] ==>
      r.0.rooms[i].available && r.0.rooms[i].bookingId == None
  {
    var cleared := ResetAllBookings(h);
    var n := SliceEnd(|perm|, count);
    var order := perm[..n];
    assert forall t :: 0 <= t < n ==> order[t] == perm[t];
    var rooms := AssignIds(cleared.rooms, order, 1);
    assert SameIdentities(h.rooms, rooms) by {
      forall i | 0 <= i < |rooms|
        ensures rooms[i].number == h.rooms[i].number && rooms[i].floor == h.rooms[i].floor
          && rooms[i].position == h.rooms[i].position
      {
        if i in order {
          var t :| 0 <= t < |order| && order[t] == i;
        }
      }
    }
    (Hotel(rooms, map[], 1 + n), count)
  }

  /** The reported count is the number of rooms booked exactly when it lies
      between 0 and the number of rooms: a larger count books every room, and a
      negative one books all but that many, as `slice(0, end)` does. */
  lemma ReportedCountIsBooked(h: Hotel, perm: seq<nat>, count: int)
    requires IsShuffle(h.rooms, perm)
    ensures var (g, reported) := GenerateRandomOccupancy(h, perm, count);
      reported == g.nextBookingId - 1 <==> 0 <= count <= |h.rooms|
  {
  }

  /** What every reachable state of the variant keeps: the rooms are in (floor,
      position) order with unique numbers, availability and booking ids agree,
      and every id in use was handed out. */
  ghost predicate Consistent(h: Hotel)
  {
    && InPlaceOrder(h.rooms)
    && DistinctNumbers(h.rooms)
    && h.nextBookingId >= 1
    && FlagsAgree(h.rooms)
    && IdsIssued(h.rooms, h.nextBookingId)
  }

  lemma NewHotelConsistent()
    ensures Consistent(NewHotel())
  {
    CatalogueConsistent(InitializeRooms());
  }

  /** Booking keeps a consistent hotel consistent. */
  lemma BookingKeepsConsistent(h: Hotel, numbers: seq<int>)
    requires Consistent(h)
    ensures Consistent(BookRooms(h, numbers).0)
  {
    var (g, record) := BookRooms(h, numbers);
    MarkKeepsFlags(h.rooms, record.rooms, h.nextBookingId);
    SameIdentitiesKeepsOrder(h.rooms, g.rooms);
  }

  /** Resetting leaves the hotel consistent. */
  lemma ResetKeepsConsistent(h: Hotel)
    requires Consistent(h)
    ensures Consistent(ResetAllBookings(h))
  {
    SameIdentitiesKeepsOrder(h.rooms, ResetAllBookings(h).rooms);
  }

  /** Random fill leaves the hotel consistent. */
  lemma RandomFillKeepsConsistent(h: Hotel, perm: seq<nat>, count: int)
    requires Consistent(h)
    requires IsShuffle(h.rooms, perm)
    ensures Consistent(GenerateRandomOccupancy(h, perm, count).0)
  {
    var f := GenerateRandomOccupancy(h, perm, count).0;
    SameIdentitiesKeepsOrder(h.rooms, f.rooms);
    PrefixFillAgrees(f.rooms, perm, f.nextBookingId - 1);
  }

  /** Rooms occupied along a prefix of `perm` under ids `1, 2, ...`, every other
      room free: flags and ids agree, and every id is below the next one. */
  lemma PrefixFillAgrees(rooms: seq<Room>, perm: seq<nat>, n: nat)
    requires n <= |perm|
    requires forall t :: 0 <= t < n ==>
      perm[t] < |rooms| && !rooms[perm[t]].available && rooms[perm[t]].bookingId == Some(t + 1)
    requires forall i :: 0 <= i < |rooms| && i !in perm[..n] ==> rooms[i].available && rooms[i].bookingId == None
    ensures FlagsAgree(rooms) && IdsIssued(rooms, n + 1)
  {
    forall i | 0 <= i < |rooms|
      ensures rooms[i].available <==> rooms[i].bookingId.None?
      ensures rooms[i].bookingId.Some? ==> 1 <= rooms[i].bookingId.value < n + 1
    {
      if i in perm[..n] {
        var t :| 0 <= t < n && perm[..n][t] == i;
        assert perm[t] == i;
      }
    }
  }
}
