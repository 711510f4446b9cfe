/** The views of the room list that both versions of the allocator and the status
    report take: the available rooms, and those of one floor, grouped the way
    `roomsByFloor` groups them. */
module Availability {
  import opened Basics
  import opened Rooms
  import opened Sorting

  /** The indices of the rooms whose `available` flag equals `want`, ascending:
      `rooms.filter(room => room.available)` for `want`, `!room.available` otherwise. */
  function IndicesWhere(rooms: seq<Room>, want: bool): (r: seq<nat>)
    ensures StrictlyIncreasing(r)
    ensures InRange(rooms, r)
    ensures forall e: int :: e in r <==> 0 <= e < |rooms| && rooms[e].available == want
  {
    if rooms == [] then []
    else
      var n := |rooms| - 1;
      var init := IndicesWhere(rooms[..n], want);
      assert forall e: int :: e in init ==> e < n;
      init + (if rooms[n].available == want then [n] else [])
  }

  /** `availableRooms` of `findOptimalRooms`. */
  function AvailableIndices(rooms: seq<Room>): (r: seq<nat>)
  {
    IndicesWhere(rooms, true)
  }

  /** Every room is counted exactly once, as available or as booked. */
  lemma {:induction false} AvailablePlusBooked(rooms: seq<Room>)
    ensures |IndicesWhere(rooms, true)| + |IndicesWhere(rooms, false)| == |rooms|
  {
    if rooms != [] {
      AvailablePlusBooked(rooms[..|rooms| - 1]);
    }
  }

  /** Two room lists that agree on every availability flag have the same
      available and booked indices. */
  lemma {:induction false} IndicesWhereDependsOnFlags(a: seq<Room>, b: seq<Room>, want: bool)
    requires |a| == |b|
    requires forall i :: 0 <= i < |a| ==> a[i].available == b[i].available
    ensures IndicesWhere(a, want) == IndicesWhere(b, want)
  {
    if a != [] {
      IndicesWhereDependsOnFlags(a[..|a| - 1], b[..|b| - 1], want);
    }
  }

  /** `roomsByFloor[f]`: the members of `avail` on floor `f`, in `avail`'s order. */
  function FloorGroup(rooms: seq<Room>, avail: seq<nat>, f: int): (g: seq<nat>)
    requires InRange(rooms, avail)
    ensures InRange(rooms, g)
    ensures |g| <= |avail|
    ensures forall e: int {:trigger e in g} :: e in g <==> e in avail && 0 <= e < |rooms| && rooms[e].floor == f
    ensures StrictlyIncreasing(avail) ==> StrictlyIncreasing(g)
  {
    if avail == [] then []
    else
      var rest := FloorGroup(rooms, avail[1..], f);
      assert avail == [avail[0]] + avail[1..];
      assert StrictlyIncreasing(avail) ==> forall t :: 0 <= t < |rest| ==> avail[0] < rest[t] by {
        if StrictlyIncreasing(avail) {
          forall t | 0 <= t < |rest|
            ensures avail[0] < rest[t]
          {
            assert rest[t] in rest;
            assert rest[t] in avail[1..];
            var u :| 0 <= u < |avail[1..]| && avail[1..][u] == rest[t];
            assert avail[u + 1] == rest[t];
          }
        }
      }
      (if rooms[avail[0]].floor == f then [avail[0]] else []) + rest
  }

  /** Inserts `x` into a strictly increasing list, keeping it strictly increasing. */
  function InsertKey(x: int, keys: seq<int>): (r: seq<int>)
    requires StrictlyIncreasing(keys)
    ensures StrictlyIncreasing(r)
    ensures forall y :: y in r <==> y == x || y in keys
  {
    if keys == [] then [x]
    else if x < keys[0] then [x] + keys
    else if x == keys[0] then keys
    else
      var rest := InsertKey(x, keys[1..]);
      assert forall t :: 0 <= t < |rest| ==> keys[0] < rest[t] by {
        forall t | 0 <= t < |rest|
          ensures keys[0] < rest[t]
        {
          if rest[t] != x {
            assert rest[t] in rest;
            assert rest[t] in keys[1..];
            var u :| 0 <= u < |keys[1..]| && keys[1..][u] == rest[t];
            assert keys[u + 1] == rest[t];
          }
        }
      }
      [keys[0]] + rest
  }

  /** The floors `for (const floor in roomsByFloor)` visits. Array-index property
      keys (non-negative integers) are enumerated first, in ascending numeric
      order (section 10.1.11.1 of ECMA-262, OrdinaryOwnPropertyKeys); floors are
      taken to be such keys, so this is every floor with an available room, each
      once, lowest first. */
  function FloorKeys(rooms: seq<Room>, avail: seq<nat>): (keys: seq<int>)
    requires InRange(rooms, avail)
    ensures StrictlyIncreasing(keys)
    ensures forall f :: f in keys <==> |FloorGroup(rooms, avail, f)| > 0
  {
    if avail == [] then []
    else
      var rest := FloorKeys(rooms, avail[1..]);
      InsertKey(rooms[avail[0]].floor, rest)
  }

  /** The available rooms of floor `f` in position order: the result of
      `floorRooms.sort((a, b) => a.position - b.position)`. */
  function SortedFloor(rooms: seq<Room>, f: int): (r: seq<nat>)
    ensures |r| == |FloorGroup(rooms, AvailableIndices(rooms), f)|
    ensures InRange(rooms, r)
  {
    SortIndices(rooms, ByPosition, FloorGroup(rooms, AvailableIndices(rooms), f))
  }

  /** The position-sorted list of floor `f` holds exactly the available rooms of
      that floor, once each, in ascending position order. */
  lemma SortedFloorContents(rooms: seq<Room>, f: int)
    ensures forall e: int :: e in SortedFloor(rooms, f) <==> 0 <= e < |rooms| && rooms[e].available && rooms[e].floor == f
    ensures Distinct(SortedFloor(rooms, f))
    ensures SortedBy(rooms, ByPosition, SortedFloor(rooms, f))
  {
    var group := FloorGroup(rooms, AvailableIndices(rooms), f);
    IncreasingIsDistinct(group);
    SortIndicesCorrect(rooms, ByPosition, group);
  }

  /** `d` is a k-subset of the available rooms, written in ascending index order. */
  ghost predicate IsAvailableSubset(rooms: seq<Room>, k: nat, d: seq<nat>)
  {
    && |d| == k
    && StrictlyIncreasing(d)
    && forall t :: 0 <= t < |d| ==> d[t] < |rooms| && rooms[d[t]].available
  }

  /** `sel` is a valid pick of `k` rooms: no room twice, each one available. */
  ghost predicate IsRoomChoice(rooms: seq<Room>, k: nat, sel: seq<nat>)
  {
    && |sel| == k
    && Distinct(sel)
    && forall t :: 0 <= t < |sel| ==> sel[t] < |rooms| && rooms[sel[t]].available
  }
}
