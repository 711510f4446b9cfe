/** What both versions of the hotel share: the room-level updates (freeing every
    room, occupying a list of rooms under one booking id, occupying rooms in a
    given order under consecutive ids, each the `forEach` of the source, one room
    at a time), the shuffle and count that random fill takes, and the status
    report. */
module Occupancy {
  import opened Basics
  import opened Rooms
  import opened Sorting
  import opened Availability

  /** A room after `room.available = false; room.bookingId = id`. */
  function Occupied(room: Room, id: nat): Room
  {
    room.(available := false, bookingId := Some(id))
  }

  /** A room after `room.available = true; room.bookingId = null`. */
  function Vacated(room: Room): Room
  {
    room.(available := true, bookingId := None)
  }

  /** Both lists hold the same rooms: same numbers, floors and positions at every
      index; only availability and booking ids may differ. */
  ghost predicate SameIdentities(a: seq<Room>, b: seq<Room>)
  {
    && |a| == |b|
    && forall i :: 0 <= i < |a| ==>
      a[i].number == b[i].number && a[i].floor == b[i].floor && a[i].position == b[i].position
  }

  /** No two rooms share a number. */
  ghost predicate DistinctNumbers(rooms: seq<Room>)
  {
    forall i, j :: 0 <= i < j < |rooms| ==> rooms[i].number != rooms[j].number
  }

  /** An update that keeps identities keeps the (floor, position) order of the
      list and the uniqueness of room numbers. */
  lemma SameIdentitiesKeepsOrder(a: seq<Room>, b: seq<Room>)
    requires SameIdentities(a, b)
    ensures InPlaceOrder(a) ==> InPlaceOrder(b)
    ensures DistinctNumbers(a) ==> DistinctNumbers(b)
  {
  }

  /** The `forEach` of `resetAllBookings`: every room vacated, front to back. */
  function ResetRooms(rooms: seq<Room>): (r: seq<Room>)
    ensures |r| == |rooms|
    ensures forall i :: 0 <= i < |r| ==> r[i] == Vacated(rooms[i])
  {
    if rooms == [] then [] else [Vacated(rooms[0])] + ResetRooms(rooms[1..])
  }

  /** After a reset every room is available and unbooked, no identity changes,
      every room is listed as available and none as booked, and resetting again
      changes nothing. */
  lemma ResetRoomsFreesAll(rooms: seq<Room>)
    ensures SameIdentities(rooms, ResetRooms(rooms))
    ensures forall i :: 0 <= i < |rooms| ==> ResetRooms(rooms)[i].available && ResetRooms(rooms)[i].bookingId == None
    ensures |AvailableIndices(ResetRooms(rooms))| == |rooms|
    ensures IndicesWhere(ResetRooms(rooms), false) == []
    ensures ResetRooms(ResetRooms(rooms)) == ResetRooms(rooms)
  {
    var r := ResetRooms(rooms);
    ResetIsIdempotent(r);
    AllAvailable(r);
  }

  /** Vacating rooms that are all vacated already changes nothing. */
  lemma ResetIsIdempotent(r: seq<Room>)
    requires forall i :: 0 <= i < |r| ==> r[i].available && r[i].bookingId == None
    ensures ResetRooms(r) == r
  {
    assert forall i :: 0 <= i < |r| ==> Vacated(r[i]) == r[i];
  }

  /** When every room is available, all of them are listed as available and none
      as booked. */
  lemma {:induction false} AllAvailable(rooms: seq<Room>)
    requires forall i :: 0 <= i < |rooms| ==> rooms[i].available
    ensures IndicesWhere(rooms, false) == []
    ensures |IndicesWhere(rooms, true)| == |rooms|
  {
    if rooms != [] {
      AllAvailable(rooms[..|rooms| - 1]);
    }
  }

  /** The `forEach` that occupies each room of `sel` under booking `id`. */
  function MarkRooms(rooms: seq<Room>, sel: seq<nat>, id: nat): (r: seq<Room>)
    requires InRange(rooms, sel)
    ensures |r| == |rooms|
    ensures forall i :: 0 <= i < |rooms| ==> r[i] == if i in sel then Occupied(rooms[i], id) else rooms[i]
    decreases |sel|
  {
    if sel == [] then rooms
    else
      var next := rooms[sel[0] := Occupied(rooms[sel[0]], id)];
      assert forall i :: i in sel <==> i == sel[0] || i in sel[1..] by {
        assert sel == [sel[0]] + sel[1..];
      }
      MarkRooms(next, sel[1..], id)
  }

  /** The `forEach` of random fill: the `t`-th room of `order` is occupied under
      id `first + t`; rooms not in `order` are left alone. */
  function AssignIds(rooms: seq<Room>, order: seq<nat>, first: nat): (r: seq<Room>)
    requires InRange(rooms, order)
    requires Distinct(order)
    ensures |r| == |rooms|
    ensures forall t :: 0 <= t < |order| ==> r[order[t]] == Occupied(rooms[order[t]], first + t)
    ensures forall i :: 0 <= i < |rooms| && i !in order ==> r[i] == rooms[i]
    decreases |order|
  {
    if order == [] then rooms
    else
      var next := rooms[order[0] := Occupied(rooms[order[0]], first)];
      TailOfDistinct(order);
      AssignIds(next, order[1..], first + 1)
  }

  /** The tail of a distinct list: the same entries shifted by one, none equal
      to the head, and membership splits into the head or the tail. */
  lemma TailOfDistinct(order: seq<nat>)
    requires Distinct(order) && |order| > 0
    ensures Distinct(order[1..])
    ensures forall t :: 1 <= t < |order| ==> order[t] == order[1..][t - 1] && order[t] != order[0]
    ensures forall i :: i in order <==> i == order[0] || i in order[1..]
  {
    assert order == [order[0]] + order[1..];
  }

  /** The set of rooms available, by index. */
  ghost function AvailableSet(rooms: seq<Room>): set<nat>
  {
    set i: nat | i < |rooms| && rooms[i].available
  }

  /** `rooms.filter(room => room.available).length` counts the available rooms. */
  lemma AvailableCount(rooms: seq<Room>)
    ensures |AvailableIndices(rooms)| == |AvailableSet(rooms)|
  {
    var a := AvailableIndices(rooms);
    IncreasingIsDistinct(a);
    DistinctCardinality<nat>(a);
    assert |set y: nat | y in a| == |a|;
    forall x: nat
      ensures x in (set y: nat | y in a) <==> x in AvailableSet(rooms)
    {
      assert x in a <==> x < |rooms| && rooms[x].available;
    }
    assert (set y: nat | y in a) == AvailableSet(rooms);
    assert |AvailableSet(rooms)| == |a|;
  }

  /** Occupying `k` distinct available rooms takes exactly `k` off the available
      count. */
  lemma MarkRoomsCount(rooms: seq<Room>, sel: seq<nat>, id: nat)
    requires InRange(rooms, sel)
    requires Distinct(sel)
    requires forall t :: 0 <= t < |sel| ==> rooms[sel[t]].available
    ensures |AvailableIndices(MarkRooms(rooms, sel, id))| == |AvailableIndices(rooms)| - |sel|
  {
    var s := set x | x in sel;
    AvailableCount(rooms);
    AvailableCount(MarkRooms(rooms, sel, id));
    DistinctCardinality(sel);
    MarkRoomsAvailableSet(rooms, sel, id);
    RemoveSubsetCardinality(AvailableSet(rooms), s);
  }

  /** Occupying the rooms of `sel`, all available, removes exactly them from the
      available set. */
  lemma MarkRoomsAvailableSet(rooms: seq<Room>, sel: seq<nat>, id: nat)
    requires InRange(rooms, sel)
    requires forall t :: 0 <= t < |sel| ==> rooms[sel[t]].available
    ensures AvailableSet(MarkRooms(rooms, sel, id)) == AvailableSet(rooms) - (set x | x in sel)
    ensures (set x | x in sel) <= AvailableSet(rooms)
  {
  }

  /** A room is available exactly when it has no booking id. */
  ghost predicate FlagsAgree(rooms: seq<Room>)
  {
    forall i :: 0 <= i < |rooms| ==> (rooms[i].available <==> rooms[i].bookingId.None?)
  }

  /** Every booking id in use was handed out: it is at least 1 and below `next`. */
  ghost predicate IdsIssued(rooms: seq<Room>, next: nat)
  {
    forall i :: 0 <= i < |rooms| && rooms[i].bookingId.Some? ==> 1 <= rooms[i].bookingId.value < next
  }

  /** Occupying rooms under the next id keeps flags and ids in agreement once the
      next id has moved on, and changes no identity. */
  lemma MarkKeepsFlags(rooms: seq<Room>, sel: seq<nat>, next: nat)
    requires InRange(rooms, sel)
    requires FlagsAgree(rooms) && IdsIssued(rooms, next) && next >= 1
    ensures FlagsAgree(MarkRooms(rooms, sel, next))
    ensures IdsIssued(MarkRooms(rooms, sel, next), next + 1)
    ensures SameIdentities(rooms, MarkRooms(rooms, sel, next))
  {
  }

  /** The numbers of the rooms at `sel`, in that order. */
  function NumbersOf(rooms: seq<Room>, sel: seq<nat>): (ns: seq<int>)
    requires InRange(rooms, sel)
    ensures |ns| == |sel|
  {
    seq(|sel|, t requires 0 <= t < |sel| => rooms[sel[t]].number)
  }

  /** Position `t` of a list of `len` elements survives `slice(0, end)`, by
      section 23.1.3.28 of ECMA-262 (Array.prototype.slice): a non-negative end
      keeps the positions below it, a negative end drops that many from the back,
      and nothing past the list is kept. */
  predicate SliceKeeps(len: nat, end: int, t: int)
  {
    0 <= t < len && ((end >= 0 && t < end) || (end < 0 && t < len + end))
  }

  /** The length of `slice(0, end)` on `len` elements. */
  function SliceEnd(len: nat, end: int): (n: nat)
    ensures n <= len
  {
    if end < 0 then (if len + end < 0 then 0 else len + end)
    else if end > len then len
    else end
  }

  /** `SliceEnd` is the one length whose positions below it are exactly the
      positions `slice(0, end)` keeps. */
  lemma SliceEndUnique(len: nat, end: int, m: nat)
    requires m <= len
    ensures m == SliceEnd(len, end) <==> forall t :: SliceKeeps(len, end, t) <==> 0 <= t < m
  {
    var n := SliceEnd(len, end);
    if m == n {
      forall t
        ensures SliceKeeps(len, end, t) <==> 0 <= t < m
      {
      }
    } else if m < n {
      assert SliceKeeps(len, end, m);
    } else {
      assert !SliceKeeps(len, end, n);
    }
  }

  /** `perm` lists every room index exactly once: the shuffled copy of the rooms. */
  ghost predicate IsShuffle(rooms: seq<Room>, perm: seq<nat>)
  {
    && |perm| == |rooms|
    && InRange(rooms, perm)
    && Distinct(perm)
  }

  /** The answer of `generateRandomOccupancy`: rooms booked, rooms in total. */
  datatype RandomFill = RandomFill(bookedRooms: nat, totalRooms: nat)

  /** A shuffle of all room indices lists every index. */
  lemma PermutationCovers(rooms: seq<Room>, perm: seq<nat>, i: nat)
    requires IsShuffle(rooms, perm)
    requires i < |rooms|
    ensures i in perm
  {
    if i !in perm {
      var others := seq(|rooms| - 1, j requires 0 <= j < |rooms| - 1 => if j < i then j else j + 1);
      forall x | x in perm
        ensures x in others
      {
        if x < i {
          assert others[x] == x;
        } else {
          assert others[x - 1] == x;
        }
      }
      DistinctSubsetLength(perm, others);
    }
  }

  /** What `getRoomStatus` reports besides the rooms themselves. */
  datatype RoomStatus = RoomStatus(rooms: seq<Room>, totalRooms: nat, availableRooms: nat, bookedRooms: nat)

  /** `getRoomStatus`: the available count is the number of available rooms, and
      available and booked rooms together are all rooms. */
  function GetRoomStatus(rooms: seq<Room>): (s: RoomStatus)
    ensures s.rooms == rooms && s.totalRooms == |rooms|
    ensures s.availableRooms == |AvailableSet(rooms)|
    ensures s.availableRooms + s.bookedRooms == s.totalRooms
  {
    AvailableCount(rooms);
    AvailablePlusBooked(rooms);
    RoomStatus(rooms, |rooms|, |IndicesWhere(rooms, true)|, |IndicesWhere(rooms, false)|)
  }

  /** The catalogue is in (floor, position) order, numbers its rooms uniquely, and
      starts with every room free. */
  lemma CatalogueConsistent(rooms: seq<Room>)
    requires rooms == InitializeRooms()
    ensures InPlaceOrder(rooms) && DistinctNumbers(rooms)
    ensures forall i :: 0 <= i < |rooms| ==> rooms[i].available && rooms[i].bookingId == None
  {
    InitializeRoomsLayout(rooms);
  }
}
