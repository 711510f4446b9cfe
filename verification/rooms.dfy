/** The hotel's fixed room catalogue, built the way `initializeRooms` builds it:
    floors 1 to 9 with ten rooms each, then floor 10 with seven. */
module Rooms {
  import opened Basics

  /** One room. `number`, `floor` and `position` never change after start-up;
      `available` and `bookingId` are what booking, reset and random fill rewrite. */
  datatype Room = Room(number: int, floor: int, position: int, available: bool, bookingId: Option<nat>)

  /** A freshly created room: available and without a booking. */
  function NewRoom(number: int, floor: int, position: int): Room
  {
    Room(number, floor, position, true, None)
  }

  /** Positions 1..n of a floor below the top, numbered `floor * 100 + position`. */
  function LowerFloor(floor: int, n: nat): seq<Room>
  {
    if n == 0 then [] else LowerFloor(floor, n - 1) + [NewRoom(floor * 100 + n, floor, n)]
  }

  /** Floors 1..f, ten rooms each, in ascending floor order. */
  function LowerFloors(f: nat): seq<Room>
  {
    if f == 0 then [] else LowerFloors(f - 1) + LowerFloor(f, 10)
  }

  /** Positions 1..n of floor 10, numbered `1000 + position`. */
  function TopFloor(n: nat): seq<Room>
  {
    if n == 0 then [] else TopFloor(n - 1) + [NewRoom(1000 + n, 10, n)]
  }

  /** The room the catalogue holds at index `i` below 90. */
  function LowerRoomAt(i: nat): Room
  {
    NewRoom((i / 10 + 1) * 100 + i % 10 + 1, i / 10 + 1, i % 10 + 1)
  }

  /** The room the catalogue holds at index `i` below 97. */
  function CatalogueRoomAt(i: nat): Room
  {
    if i < 90 then LowerRoomAt(i) else NewRoom(1000 + i - 89, 10, i - 89)
  }

  /** `initializeRooms()`: the 97 rooms in creation order, room by room. That this
      is what the two loops push is `InitializeRoomsIsLoops`. */
  function InitializeRooms(): (rooms: seq<Room>)
    ensures |rooms| == 97
    ensures forall i :: 0 <= i < |rooms| ==>
      && rooms[i].available && rooms[i].bookingId == None
      && 1 <= rooms[i].floor <= 10
      && 1 <= rooms[i].position <= (if rooms[i].floor <= 9 then 10 else 7)
  {
    CatalogueFields();
    seq(97, i requires 0 <= i < 97 => CatalogueRoomAt(i))
  }

  lemma {:induction false} LowerFloorShape(floor: int, n: nat)
    ensures |LowerFloor(floor, n)| == n
    ensures forall p :: 0 <= p < n ==> LowerFloor(floor, n)[p] == NewRoom(floor * 100 + p + 1, floor, p + 1)
  {
    if n > 0 {
      LowerFloorShape(floor, n - 1);
    }
  }

  lemma DivModTen(f: nat, p: nat)
    requires p < 10
    ensures (10 * f + p) / 10 == f && (10 * f + p) % 10 == p
  {
  }

  lemma {:induction false} LowerFloorsShape(f: nat)
    ensures |LowerFloors(f)| == 10 * f
    ensures forall i :: 0 <= i < 10 * f ==> LowerFloors(f)[i] == LowerRoomAt(i)
  {
    if f > 0 {
      LowerFloorsShape(f - 1);
      LowerFloorShape(f, 10);
      forall i | 10 * (f - 1) <= i < 10 * f
        ensures LowerFloors(f)[i] == LowerRoomAt(i)
      {
        var p := i - 10 * (f - 1);
        DivModTen(f - 1, p);
        assert LowerFloors(f)[i] == LowerFloor(f, 10)[p];
      }
    }
  }

  lemma {:induction false} TopFloorShape(n: nat)
    ensures |TopFloor(n)| == n
    ensures forall p :: 0 <= p < n ==> TopFloor(n)[p] == NewRoom(1000 + p + 1, 10, p + 1)
  {
    if n > 0 {
      TopFloorShape(n - 1);
    }
  }

  /** `(floor, position)` of `a` comes strictly before that of `b`. */
  predicate PlacedBefore(a: Room, b: Room)
  {
    a.floor < b.floor || (a.floor == b.floor && a.position < b.position)
  }

  lemma LowerOrder(i: nat, j: nat)
    requires i < j < 90
    ensures PlacedBefore(LowerRoomAt(i), LowerRoomAt(j))
  {
    var fi, pi, fj, pj := i / 10, i % 10, j / 10, j % 10;
    assert i == 10 * fi + pi && j == 10 * fj + pj;
    assert fi <= fj;
  }

  /** The two loops of `initializeRooms`, ten rooms on each of `lower` floors and
      then `top` rooms on floor 10, push exactly the catalogue's rooms in its
      order precisely for the bounds the source uses: nine floors, then seven
      rooms. */
  lemma InitializeRoomsIsLoops(lower: nat, top: nat)
    ensures LowerFloors(lower) + TopFloor(top) == InitializeRooms() <==> lower == 9 && top == 7
  {
    if LowerFloors(lower) + TopFloor(top) == InitializeRooms() {
      LoopsOnlyForSourceBounds(lower, top);
    }
    if lower == 9 && top == 7 {
      LoopsForSourceBounds(lower, top);
    }
  }

  /** The source's bounds build the catalogue. */
  lemma LoopsForSourceBounds(lower: nat, top: nat)
    requires lower == 9 && top == 7
    ensures LowerFloors(lower) + TopFloor(top) == InitializeRooms()
  {
    LowerFloorsShape(lower);
    TopFloorShape(top);
    JoinFloors(LowerFloors(lower), TopFloor(top));
  }

  /** No other bounds build it: the length fixes `10 * lower + top` at 97, and
      fewer than nine lower floors put a top-floor room too early. */
  lemma LoopsOnlyForSourceBounds(lower: nat, top: nat)
    requires LowerFloors(lower) + TopFloor(top) == InitializeRooms()
    ensures lower == 9 && top == 7
  {
    LoopsShape(lower, top);
    if lower < 9 {
      LoopsDifferBelowNine(lower, top);
    }
  }

  /** With fewer than nine lower floors, the first top-floor room lands where the
      catalogue still has a room below floor 10. */
  lemma LoopsDifferBelowNine(lower: nat, top: nat)
    requires lower < 9 && top > 0
    ensures 10 * lower < |LowerFloors(lower) + TopFloor(top)|
    ensures (LowerFloors(lower) + TopFloor(top))[10 * lower].floor == 10
    ensures CatalogueRoomAt(10 * lower).floor == lower + 1
  {
    LoopsShape(lower, top);
    DivModTen(lower, 0);
  }

  /** Whatever their bounds, the two loops push `10 * lower + top` rooms: the room
      of floor `f`, position `p` of the first loop at index `10 * (f - 1) + p - 1`,
      then position `p` of the top floor right after the lower floors. */
  lemma LoopsShape(lower: nat, top: nat)
    ensures |LowerFloors(lower) + TopFloor(top)| == 10 * lower + top
    ensures forall i :: 0 <= i < 10 * lower ==> (LowerFloors(lower) + TopFloor(top))[i] == LowerRoomAt(i)
    ensures forall i :: 10 * lower <= i < 10 * lower + top ==>
      (LowerFloors(lower) + TopFloor(top))[i] == NewRoom(1000 + i - 10 * lower + 1, 10, i - 10 * lower + 1)
  {
    LowerFloorsShape(lower);
    TopFloorShape(top);
  }

  /** Ninety rooms of the lower floors followed by seven of the top floor, each
      where the catalogue has it, make up the catalogue. */
  lemma JoinFloors(lower: seq<Room>, top: seq<Room>)
    requires |lower| == 90 && |top| == 7
    requires forall i :: 0 <= i < 90 ==> lower[i] == LowerRoomAt(i)
    requires forall p :: 0 <= p < 7 ==> top[p] == NewRoom(1000 + p + 1, 10, p + 1)
    ensures lower + top == InitializeRooms()
  {
    var built := lower + top;
    forall i | 0 <= i < 97
      ensures built[i] == CatalogueRoomAt(i)
    {
      if i >= 90 {
        assert built[i] == top[i - 90];
      }
    }
  }

  /** Earlier indices of the catalogue hold earlier places and lower numbers. */
  lemma CatalogueOrder(i: nat, j: nat)
    requires i < j < 97
    ensures PlacedBefore(CatalogueRoomAt(i), CatalogueRoomAt(j))
    ensures CatalogueRoomAt(i).number < CatalogueRoomAt(j).number
  {
    if j < 90 {
      LowerOrder(i, j);
    }
  }

  /** The catalogue: 97 rooms, floors 1-9 holding positions 1-10 and floor 10
      holding positions 1-7, numbered `floor * 100 + position` (which is
      `1000 + position` on floor 10), all available and unbooked, in ascending
      (floor, position) order, so that no two rooms share a number or a place. */
  lemma InitializeRoomsLayout(rooms: seq<Room>)
    requires rooms == InitializeRooms()
    ensures |rooms| == 97
    ensures forall i :: 0 <= i < 90 ==>
      rooms[i].floor == i / 10 + 1 && rooms[i].position == i % 10 + 1
      && rooms[i].number == rooms[i].floor * 100 + rooms[i].position
    ensures forall i :: 90 <= i < 97 ==>
      rooms[i].floor == 10 && rooms[i].position == i - 89 && rooms[i].number == 1000 + rooms[i].position
    ensures forall i :: 0 <= i < 97 ==>
      rooms[i].available && rooms[i].bookingId == None
      && 1 <= rooms[i].position <= (if rooms[i].floor <= 9 then 10 else 7)
      && 1 <= rooms[i].floor <= 10
    ensures forall i, j :: 0 <= i < j < 97 ==> PlacedBefore(rooms[i], rooms[j])
    ensures forall i, j :: 0 <= i < j < 97 ==> rooms[i].number < rooms[j].number
  {
    CatalogueFields();
    forall i, j | 0 <= i < j < 97
      ensures PlacedBefore(rooms[i], rooms[j]) && rooms[i].number < rooms[j].number
    {
      CatalogueOrder(i, j);
    }
  }

  /** The fields of every catalogue room. */
  lemma CatalogueFields()
    ensures forall i: nat :: i < 90 ==>
      CatalogueRoomAt(i).floor == i / 10 + 1 && CatalogueRoomAt(i).position == i % 10 + 1
      && CatalogueRoomAt(i).number == CatalogueRoomAt(i).floor * 100 + CatalogueRoomAt(i).position
    ensures forall i: nat :: 90 <= i < 97 ==>
      CatalogueRoomAt(i).floor == 10 && CatalogueRoomAt(i).position == i - 89
      && CatalogueRoomAt(i).number == 1000 + CatalogueRoomAt(i).position
    ensures forall i: nat :: i < 97 ==>
      CatalogueRoomAt(i).available && CatalogueRoomAt(i).bookingId == None
      && 1 <= CatalogueRoomAt(i).position <= (if CatalogueRoomAt(i).floor <= 9 then 10 else 7)
      && 1 <= CatalogueRoomAt(i).floor <= 10
  {
  }

  /** Floor `f` in 1..9, position `p` in 1..10 sits at index `10 * (f - 1) + p - 1`;
      floor 10, position `p` in 1..7 at index `89 + p`: every place of the layout
      has a room. */
  lemma InitializeRoomsCoversLayout(rooms: seq<Room>, f: int, p: int)
    requires rooms == InitializeRooms()
    requires (1 <= f <= 9 && 1 <= p <= 10) || (f == 10 && 1 <= p <= 7)
    ensures var i := if f <= 9 then 10 * (f - 1) + p - 1 else 89 + p;
      0 <= i < |rooms| && rooms[i].floor == f && rooms[i].position == p
  {
    if f <= 9 {
      DivModTen(f - 1, p - 1);
      assert rooms[10 * (f - 1) + p - 1] == LowerRoomAt(10 * (f - 1) + p - 1);
    } else {
      assert rooms[89 + p] == CatalogueRoomAt(89 + p);
    }
  }

  /** The rooms are listed in ascending (floor, position) order, so no two share
      a place. */
  ghost predicate InPlaceOrder(rooms: seq<Room>)
  {
    forall i, j :: 0 <= i < j < |rooms| ==> PlacedBefore(rooms[i], rooms[j])
  }
}
