/** The hotel state of server.js: the rooms, the map from room number to booking
    id, and the next booking id, with the transitions `bookRooms`,
    `resetAllBookings`, `generateRandomOccupancy` and the `getRoomStatus` report. */
module Server {
  import opened Basics
  import opened Rooms
  import opened Sorting
  import opened Availability
  import opened Allocator
  import opened Occupancy

  /** `this.rooms`, `this.bookings` (room number to booking id), `this.nextBookingId`. */
  datatype Hotel = Hotel(rooms: seq<Room>, bookings: map<int, nat>, nextBookingId: nat)

  /** The constructor: the 97 rooms of the catalogue, all free, no bookings, next
      id 1. */
  function NewHotel(): (h: Hotel)
    ensures |h.rooms| == 97 && h.bookings == map[] && h.nextBookingId == 1
    ensures forall i :: 0 <= i < |h.rooms| ==> h.rooms[i].available && h.rooms[i].bookingId == None
  {
    Hotel(InitializeRooms(), map[], 1)
  }

  /** What `bookRooms` answers: the booking, or the allocator's failure with the
      number of available rooms. */
  datatype BookingOutcome =
    | Booked(bookingId: nat, rooms: seq<nat>, travelTime: Option<int>)
    | Rejected(available: nat)

  /** `this.bookings.set(room.number, bookingId)` for every room of `sel`: the
      numbers of `sel` now map to `id`, every other entry is kept. */
  function RecordBooking(bookings: map<int, nat>, rooms: seq<Room>, sel: seq<nat>, id: nat): (r: map<int, nat>)
    requires InRange(rooms, sel)
    ensures forall n :: n in r <==> n in bookings || n in NumbersOf(rooms, sel)
    ensures forall n :: n in r ==> r[n] == if n in NumbersOf(rooms, sel) then id else bookings[n]
    decreases |sel|
  {
    if sel == [] then bookings
    else
      assert NumbersOf(rooms, sel) == [rooms[sel[0]].number] + NumbersOf(rooms, sel[1..]);
      RecordBooking(bookings[rooms[sel[0]].number := id], rooms, sel[1..], id)
  }

  /** `this.bookings.set(room.number, room.bookingId)` as random fill runs: the
      `t`-th room of `order` maps to `first + t`; nothing else is kept. With
      distinct room numbers, no entry is overwritten. */
  function RecordSequential(bookings: map<int, nat>, rooms: seq<Room>, order: seq<nat>, first: nat): (r: map<int, nat>)
    requires InRange(rooms, order)
    requires Distinct(order) && DistinctNumbers(rooms)
    ensures forall n :: n in r <==> n in bookings || n in NumbersOf(rooms, order)
    ensures forall t :: 0 <= t < |order| ==> rooms[order[t]].number in r && r[rooms[order[t]].number] == first + t
    ensures forall n :: n in bookings && n !in NumbersOf(rooms, order) ==> r[n] == bookings[n]
    decreases |order|
  {
    if order == [] then bookings
    else
      assert NumbersOf(rooms, order) == [rooms[order[0]].number] + NumbersOf(rooms, order[1..]);
      assert forall t :: 1 <= t < |order| ==> order[t] == order[1..][t - 1];
      assert rooms[order[0]].number !in NumbersOf(rooms, order[1..]) by {
        forall t | 0 <= t < |order| - 1
          ensures NumbersOf(rooms, order[1..])[t] != rooms[order[0]].number
        {
          assert order[1..][t] == order[t + 1] != order[0];
        }
      }
      RecordSequential(bookings[rooms[order[0]].number := first], rooms, order[1..], first + 1)
  }

  /** `bookRooms(numRooms)`: ask `findOptimalRooms`; on success take the next
      booking id, occupy the chosen rooms under it and record their numbers. */
  function BookRooms(h: Hotel, k: nat): (r: (Hotel, BookingOutcome))
    requires k >= 1
    ensures r.1.Rejected? <==> |AvailableIndices(h.rooms)| < k
    ensures r.1.Rejected? ==> r.0 == h && r.1.available == |AvailableIndices(h.rooms)|
    ensures r.1.Booked? ==> FindOptimalRooms(h.rooms, k) == Allocated(r.1.rooms, r.1.travelTime)
    ensures r.1.Booked? ==>
      && r.1.bookingId == h.nextBookingId
      && r.0.nextBookingId == h.nextBookingId + 1
      && |r.1.rooms| == k && InRange(h.rooms, r.1.rooms)
      && r.0.rooms == MarkRooms(h.rooms, r.1.rooms, h.nextBookingId)
      && r.0.bookings == RecordBooking(h.bookings, h.rooms, r.1.rooms, h.nextBookingId)
  {
    match FindOptimalRooms(h.rooms, k)
    case Unavailable(n) => (h, Rejected(n))
    case Allocated(sel, tt) =>
      var id := h.nextBookingId;
      (Hotel(MarkRooms(h.rooms, sel, id), RecordBooking(h.bookings, h.rooms, sel, id), id + 1), Booked(id, sel, tt))
  }

  /** `resetAllBookings`: every room vacated, bookings cleared, next id 1. */
  function ResetAllBookings(h: Hotel): (r: Hotel)
    ensures r.bookings == map[] && r.nextBookingId == 1
    ensures SameIdentities(h.rooms, r.rooms)
    ensures forall i :: 0 <= i < |r.rooms| ==> r.rooms[i].available && r.rooms[i].bookingId == None
  {
    ResetRoomsFreesAll(h.rooms);
    Hotel(ResetRooms(h.rooms), map[], 1)
  }

  /** After a reset the status report counts every room available and none
      booked. */
  lemma ResetReportsAllAvailable(h: Hotel)
    ensures var st := GetRoomStatus(ResetAllBookings(h).rooms);
      st.availableRooms == |h.rooms| && st.bookedRooms == 0
  {
    ResetRoomsFreesAll(h.rooms);
  }

  /** `generateRandomOccupancy`, with the shuffle `perm` and the count
      `Math.floor(totalRooms * percentage)` given: reset, then book the first rooms
      of the shuffle one by one, each under the next id. */
  function GenerateRandomOccupancy(h: Hotel, perm: seq<nat>, count: int): (r: (Hotel, RandomFill))
    requires IsShuffle(h.rooms, perm)
    requires DistinctNumbers(h.rooms)
    ensures r.1.totalRooms == |h.rooms|
    ensures r.1.bookedRooms == SliceEnd(|h.rooms|, count)
    ensures r.0.nextBookingId == r.1.bookedRooms + 1
    ensures SameIdentities(h.rooms, r.0.rooms)
  {
    var cleared := ResetAllBookings(h);
    var n := SliceEnd(|perm|, count);
    var order := perm[..n];
    SameIdentitiesKeepsOrder(h.rooms, cleared.rooms);
    var rooms := AssignIds(cleared.rooms, order, cleared.nextBookingId);
    var bookings := RecordSequential(cleared.bookings, cleared.rooms, order, cleared.nextBookingId);
    assert SameIdentities(h.rooms, rooms) by {
      forall i | 0 <= i < |rooms|
        ensures rooms[i].number == h.rooms[i].number && rooms[i].floor == h.rooms[i].floor
          && rooms[i].position == h.rooms[i].position
      {
        if i in order {
          var t :| 0 <= t < |order| && order[t] == i;
        }
      }
    }
    (Hotel(rooms, bookings, cleared.nextBookingId + n), RandomFill(n, |h.rooms|))
  }

  /** Random fill numbers its bookings from 1 over the reset rooms. */
  lemma RandomFillUnfolds(h: Hotel, perm: seq<nat>, count: int)
    requires IsShuffle(h.rooms, perm)
    requires DistinctNumbers(h.rooms)
    ensures DistinctNumbers(ResetRooms(h.rooms))
    ensures var n := SliceEnd(|perm|, count);
      NumbersOf(ResetRooms(h.rooms), perm[..n]) == NumbersOf(h.rooms, perm[..n])
    ensures var n := SliceEnd(|perm|, count);
      var cleared := ResetRooms(h.rooms);
      GenerateRandomOccupancy(h, perm, count).0
        == Hotel(AssignIds(cleared, perm[..n], 1), RecordSequential(map[], cleared, perm[..n], 1), n + 1)
  {
    var n := SliceEnd(|perm|, count);
    var cleared := ResetRooms(h.rooms);
    assert DistinctNumbers(cleared) by {
      ResetRoomsFreesAll(h.rooms);
      SameIdentitiesKeepsOrder(h.rooms, cleared);
    }
    assert NumbersOf(cleared, perm[..n]) == NumbersOf(h.rooms, perm[..n]) by {
      forall t | 0 <= t < n
        ensures NumbersOf(cleared, perm[..n])[t] == NumbersOf(h.rooms, perm[..n])[t]
      {
      }
    }
  }

  /** After random fill the `t`-th room of the shuffle, for `t` below the count,
      is booked under id `t + 1`, and `bookings` maps its number to that id. */
  lemma RandomFillBooksPrefix(h: Hotel, perm: seq<nat>, count: int)
    requires IsShuffle(h.rooms, perm)
    requires DistinctNumbers(h.rooms)
    ensures var (g, fill) := GenerateRandomOccupancy(h, perm, count);
      forall t :: 0 <= t < fill.bookedRooms ==>
        && !g.rooms[perm[t]].available
        && g.rooms[perm[t]].bookingId == Some(t + 1)
        && h.rooms[perm[t]].number in g.bookings
        && g.bookings[h.rooms[perm[t]].number] == t + 1
  {
    var n := SliceEnd(|perm|, count);
    RandomFillUnfolds(h, perm, count);
    var cleared := ResetRooms(h.rooms);
    var order := perm[..n];
    var g := GenerateRandomOccupancy(h, perm, count).0;
    forall t | 0 <= t < n
      ensures !g.rooms[perm[t]].available && g.rooms[perm[t]].bookingId == Some(t + 1)
      ensures h.rooms[perm[t]].number in g.bookings && g.bookings[h.rooms[perm[t]].number] == t + 1
    {
      assert order[t] == perm[t];
      assert cleared[perm[t]].number == h.rooms[perm[t]].number;
    }
  }

  /** After random fill the rooms of the shuffle from the count on are free. */
  lemma RandomFillLeavesRest(h: Hotel, perm: seq<nat>, count: int)
    requires IsShuffle(h.rooms, perm)
    requires DistinctNumbers(h.rooms)
    ensures var (g, fill) := GenerateRandomOccupancy(h, perm, count);
      forall t :: fill.bookedRooms <= t < |perm| ==>
        g.rooms[perm[t]].available && g.rooms[perm[t]].bookingId == None
  {
    var n := SliceEnd(|perm|, count);
    RandomFillUnfolds(h, perm, count);
    var order := perm[..n];
    forall t | n <= t < |perm|
      ensures perm[t] !in order
    {
      forall u | 0 <= u < n
        ensures perm[t] != order[u]
      {
        assert order[u] == perm[u];
      }
    }
  }

  /** After random fill `bookings` holds exactly the numbers of the booked rooms. */
  lemma RandomFillRecordsBooked(h: Hotel, perm: seq<nat>, count: int)
    requires IsShuffle(h.rooms, perm)
    requires DistinctNumbers(h.rooms)
    ensures var (g, fill) := GenerateRandomOccupancy(h, perm, count);
      forall m :: m in g.bookings <==> m in NumbersOf(h.rooms, perm[..fill.bookedRooms])
  {
    RandomFillUnfolds(h, perm, count);
  }

  /** The numbers of the booked rooms. */
  ghost function BookedNumbers(rooms: seq<Room>): set<int>
  {
    set i | 0 <= i < |rooms| && rooms[i].bookingId.Some? :: rooms[i].number
  }

  /** `bookings` maps exactly the numbers of the booked rooms to their ids. */
  ghost predicate BookingsMatch(h: Hotel)
  {
    && (forall i :: 0 <= i < |h.rooms| && h.rooms[i].bookingId.Some? ==>
          h.rooms[i].number in h.bookings && h.bookings[h.rooms[i].number] == h.rooms[i].bookingId.value)
    && (forall n :: n in h.bookings ==> n in BookedNumbers(h.rooms))
  }

  /** What every reachable state keeps: the rooms are in (floor, position) order
      with unique numbers, as the catalogue is; availability and booking ids
      agree; every id in use was handed out; and `bookings` matches the rooms. */
  ghost predicate Consistent(h: Hotel)
  {
    && InPlaceOrder(h.rooms)
    && DistinctNumbers(h.rooms)
    && h.nextBookingId >= 1
    && FlagsAgree(h.rooms)
    && IdsIssued(h.rooms, h.nextBookingId)
    && BookingsMatch(h)
  }

  /** A successful booking occupies exactly the chosen rooms, all previously
      available and none twice, under the old next id; it records each of their
      numbers under that id; every other room and every other entry is kept. */
  lemma BookingMarksChosenRooms(h: Hotel, k: nat)
    requires k >= 1
    ensures var (g, out) := BookRooms(h, k);
      out.Booked? ==>
        && IsRoomChoice(h.rooms, k, out.rooms)
        && |g.rooms| == |h.rooms|
        && (forall i :: 0 <= i < |h.rooms| ==>
              g.rooms[i] == if i in out.rooms then Occupied(h.rooms[i], out.bookingId) else h.rooms[i])
        && (forall t :: 0 <= t < k ==>
              h.rooms[out.rooms[t]].number in g.bookings && g.bookings[h.rooms[out.rooms[t]].number] == out.bookingId)
        && (forall n :: n in h.bookings && n !in NumbersOf(h.rooms, out.rooms) ==>
              n in g.bookings && g.bookings[n] == h.bookings[n])
  {
    AllocationIsValid(h.rooms, k);
    var out := BookRooms(h, k).1;
    if out.Booked? {
      assert forall t :: 0 <= t < k ==> h.rooms[out.rooms[t]].number == NumbersOf(h.rooms, out.rooms)[t];
    }
  }

  /** The travel time a booking reports is the allocator's: the cost of walking
      the booked rooms in order when some floor had `k` free rooms, and none (the
      source's `Infinity`) exactly when the rooms had to span floors. */
  lemma BookingReportsTravelTime(h: Hotel, k: nat)
    requires k >= 1
    ensures var out := BookRooms(h, k).1;
      out.Booked? ==>
        && (out.travelTime.None? <==> forall f :: |FloorGroup(h.rooms, AvailableIndices(h.rooms), f)| < k)
        && (out.travelTime.Some? ==> out.travelTime.value == SelectionCost(h.rooms, out.rooms))
  {
    var out := BookRooms(h, k).1;
    if out.Booked? {
      AllocationIsValid(h.rooms, k);
      if forall f :: |FloorGroup(h.rooms, AvailableIndices(h.rooms), f)| < k {
        CrossFloorFallback(h.rooms, k);
      } else {
        var f0 :| |FloorGroup(h.rooms, AvailableIndices(h.rooms), f0)| >= k;
        SingleFloorPreference(h.rooms, k, f0);
      }
    }
  }

  /** A successful booking of `k` rooms takes exactly `k` off the available count. */
  lemma BookingTakesK(h: Hotel, k: nat)
    requires k >= 1
    ensures var (g, out) := BookRooms(h, k);
      out.Booked? ==> |AvailableIndices(g.rooms)| == |AvailableIndices(h.rooms)| - k
  {
    AllocationIsValid(h.rooms, k);
    var out := BookRooms(h, k).1;
    if out.Booked? {
      MarkRoomsCount(h.rooms, out.rooms, out.bookingId);
    }
  }

  /** The hotel as constructed is consistent. */
  lemma NewHotelConsistent()
    ensures Consistent(NewHotel())
  {
    CatalogueConsistent(InitializeRooms());
    FreshIsConsistent(NewHotel());
  }

  lemma FreshIsConsistent(h: Hotel)
    requires InPlaceOrder(h.rooms) && DistinctNumbers(h.rooms)
    requires forall i :: 0 <= i < |h.rooms| ==> h.rooms[i].available && h.rooms[i].bookingId == None
    requires h.bookings == map[] && h.nextBookingId == 1
    ensures Consistent(h)
  {
  }

  /** Booking keeps the hotel consistent. */
  lemma BookingKeepsConsistent(h: Hotel, k: nat)
    requires k >= 1
    requires Consistent(h)
    ensures Consistent(BookRooms(h, k).0)
  {
    var g := BookRooms(h, k).0;
    var out := BookRooms(h, k).1;
    if out.Booked? {
      MarkKeepsFlags(h.rooms, out.rooms, h.nextBookingId);
      SameIdentitiesKeepsOrder(h.rooms, g.rooms);
      BookingKeepsBookingsMatch(h, k);
    }
  }

  lemma BookingKeepsBookingsMatch(h: Hotel, k: nat)
    requires k >= 1
    requires Consistent(h)
    ensures BookingsMatch(BookRooms(h, k).0)
  {
    var out := BookRooms(h, k).1;
    if out.Booked? {
      RecordKeepsMatch(h, out.rooms, h.nextBookingId, h.nextBookingId + 1);
    }
  }

  /** Occupying rooms under one id and recording their numbers under it keeps
      `bookings` matching the rooms, since no two rooms share a number. */
  lemma RecordKeepsMatch(h: Hotel, sel: seq<nat>, id: nat, next: nat)
    requires InRange(h.rooms, sel)
    requires DistinctNumbers(h.rooms) && BookingsMatch(h)
    ensures BookingsMatch(Hotel(MarkRooms(h.rooms, sel, id), RecordBooking(h.bookings, h.rooms, sel, id), next))
  {
    RecordCoversBooked(h, sel, id);
    RecordHoldsOnlyBooked(h, sel, id);
  }

  /** Every booked room's number is recorded under its id after the booking. */
  lemma RecordCoversBooked(h: Hotel, sel: seq<nat>, id: nat)
    requires InRange(h.rooms, sel)
    requires DistinctNumbers(h.rooms) && BookingsMatch(h)
    ensures var rooms := MarkRooms(h.rooms, sel, id);
      var bookings := RecordBooking(h.bookings, h.rooms, sel, id);
      forall i :: 0 <= i < |rooms| && rooms[i].bookingId.Some? ==>
        rooms[i].number in bookings && bookings[rooms[i].number] == rooms[i].bookingId.value
  {
    CoversBooked(h, sel, id, MarkRooms(h.rooms, sel, id), RecordBooking(h.bookings, h.rooms, sel, id));
  }

  /** `RecordCoversBooked` over the updated rooms and map, given by what they hold. */
  lemma CoversBooked(h: Hotel, sel: seq<nat>, id: nat, rooms: seq<Room>, bookings: map<int, nat>)
    requires InRange(h.rooms, sel)
    requires DistinctNumbers(h.rooms) && BookingsMatch(h)
    requires |rooms| == |h.rooms|
    requires forall i :: 0 <= i < |h.rooms| ==> rooms[i] == if i in sel then Occupied(h.rooms[i], id) else h.rooms[i]
    requires forall n :: n in bookings <==> n in h.bookings || n in NumbersOf(h.rooms, sel)
    requires forall n :: n in bookings ==> bookings[n] == if n in NumbersOf(h.rooms, sel) then id else h.bookings[n]
    ensures forall i :: 0 <= i < |rooms| && rooms[i].bookingId.Some? ==>
      rooms[i].number in bookings && bookings[rooms[i].number] == rooms[i].bookingId.value
  {
    var ns := NumbersOf(h.rooms, sel);
    forall i | 0 <= i < |rooms| && rooms[i].bookingId.Some?
      ensures rooms[i].number in bookings && bookings[rooms[i].number] == rooms[i].bookingId.value
    {
      if i in sel {
        var t :| 0 <= t < |sel| && sel[t] == i;
        assert ns[t] == h.rooms[i].number;
      } else {
        assert h.rooms[i].number !in ns;
      }
    }
  }

  /** Every recorded number belongs to a booked room after the booking. */
  lemma RecordHoldsOnlyBooked(h: Hotel, sel: seq<nat>, id: nat)
    requires InRange(h.rooms, sel)
    requires BookingsMatch(h)
    ensures var rooms := MarkRooms(h.rooms, sel, id);
      forall n :: n in RecordBooking(h.bookings, h.rooms, sel, id) ==> n in BookedNumbers(rooms)
  {
    var rooms := MarkRooms(h.rooms, sel, id);
    var ns := NumbersOf(h.rooms, sel);
    forall n | n in RecordBooking(h.bookings, h.rooms, sel, id)
      ensures n in BookedNumbers(rooms)
    {
      if n in ns {
        var t :| 0 <= t < |sel| && ns[t] == n;
        assert sel[t] in sel;
        assert rooms[sel[t]].bookingId.Some?;
      } else {
        assert n in BookedNumbers(h.rooms);
        var i :| 0 <= i < |h.rooms| && h.rooms[i].bookingId.Some? && h.rooms[i].number == n;
        assert rooms[i].bookingId.Some?;
      }
    }
  }

  /** Resetting leaves the hotel consistent. */
  lemma ResetKeepsConsistent(h: Hotel)
    requires Consistent(h)
    ensures Consistent(ResetAllBookings(h))
  {
    var g := ResetAllBookings(h);
    SameIdentitiesKeepsOrder(h.rooms, g.rooms);
  }

  /** Random fill leaves the hotel consistent. */
  lemma RandomFillKeepsConsistent(h: Hotel, perm: seq<nat>, count: int)
    requires Consistent(h)
    requires IsShuffle(h.rooms, perm)
    ensures Consistent(GenerateRandomOccupancy(h, perm, count).0)
  {
    var g := GenerateRandomOccupancy(h, perm, count).0;
    SameIdentitiesKeepsOrder(h.rooms, g.rooms);
    RandomFillRoomsAgree(h, perm, count);
    RandomFillBookingsMatch(h, perm, count);
  }

  lemma RandomFillRoomsAgree(h: Hotel, perm: seq<nat>, count: int)
    requires DistinctNumbers(h.rooms)
    requires IsShuffle(h.rooms, perm)
    ensures var g := GenerateRandomOccupancy(h, perm, count).0;
      FlagsAgree(g.rooms) && IdsIssued(g.rooms, g.nextBookingId)
  {
    var (g, fill) := GenerateRandomOccupancy(h, perm, count);
    RandomFillBooksPrefix(h, perm, count);
    RandomFillLeavesRest(h, perm, count);
    forall i | 0 <= i < |g.rooms|
      ensures g.rooms[i].available <==> g.rooms[i].bookingId.None?
      ensures g.rooms[i].bookingId.Some? ==> 1 <= g.rooms[i].bookingId.value < g.nextBookingId
    {
      PermutationCovers(h.rooms, perm, i);
      var t :| 0 <= t < |perm| && perm[t] == i;
    }
  }

  lemma RandomFillBookingsMatch(h: Hotel, perm: seq<nat>, count: int)
    requires DistinctNumbers(h.rooms)
    requires IsShuffle(h.rooms, perm)
    ensures BookingsMatch(GenerateRandomOccupancy(h, perm, count).0)
  {
    RandomFillBooksPrefix(h, perm, count);
    RandomFillLeavesRest(h, perm, count);
    RandomFillRecordsBooked(h, perm, count);
    var (g, fill) := GenerateRandomOccupancy(h, perm, count);
    FillMatches(h.rooms, g, perm, fill.bookedRooms);
  }

  /** Rooms booked along a prefix of a shuffle under ids `1, 2, ...`, the rest
      free, and `bookings` holding just the prefix's numbers: then `bookings`
      matches the rooms. */
  lemma FillMatches(rooms: seq<Room>, g: Hotel, perm: seq<nat>, n: nat)
    requires IsShuffle(rooms, perm) && n <= |perm|
    requires SameIdentities(rooms, g.rooms)
    requires forall t :: 0 <= t < n ==>
      && g.rooms[perm[t]].bookingId == Some(t + 1)
      && rooms[perm[t]].number in g.bookings && g.bookings[rooms[perm[t]].number] == t + 1
    requires forall t :: n <= t < |perm| ==> g.rooms[perm[t]].bookingId == None
    requires forall m :: m in g.bookings <==> m in NumbersOf(rooms, perm[..n])
    ensures BookingsMatch(g)
  {
    var ns := NumbersOf(rooms, perm[..n]);
    forall i | 0 <= i < |g.rooms| && g.rooms[i].bookingId.Some?
      ensures g.rooms[i].number in g.bookings && g.bookings[g.rooms[i].number] == g.rooms[i].bookingId.value
    {
      PermutationCovers(rooms, perm, i);
      var t :| 0 <= t < |perm| && perm[t] == i;
    }
    forall m | m in g.bookings
      ensures m in BookedNumbers(g.rooms)
    {
      var t :| 0 <= t < n && ns[t] == m;
      assert perm[..n][t] == perm[t];
      assert g.rooms[perm[t]].bookingId.Some?;
    }
  }
}
