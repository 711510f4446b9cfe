/** `findOptimalRooms` of api/index.js, the variant: the first available room when
    one is wanted; otherwise the first `k` available rooms of the lowest floor
    that has `k`, with no costing; otherwise the k-subset of the available rooms
    whose travel times summed over all pairs are least. */
module ApiAllocator {
  import opened Basics
  import opened Rooms
  import opened Travel
  import opened Sorting
  import opened Combinations
  import opened Availability

  /** What the variant's `findOptimalRooms` answers: the chosen room indices, or
      "Not enough available rooms". */
  datatype Selection = Found(rooms: seq<nat>) | NotEnough

  /** The travel times from `a` to every room of `rs`: one run of the inner loop. */
  function RowCost(a: Room, rs: seq<Room>): nat
  {
    if rs == [] then 0 else RowCost(a, rs[..|rs| - 1]) + TravelTime(a, rs[|rs| - 1])
  }

  /** Reference definition of the variant's combination cost: the travel times
      summed over every unordered pair of rooms. */
  function AllPairsCost(rs: seq<Room>): nat
  {
    if rs == [] then 0 else RowCost(rs[0], rs[1..]) + AllPairsCost(rs[1..])
  }

  /** The nested loop of the variant as written: `totalTime += travel(i, j)` for
      every `i < j`. */
  method PairTravelTime(rs: seq<Room>) returns (total: int)
    ensures total == AllPairsCost(rs)
  {
    total := 0;
    var i := 0;
    while i < |rs|
      invariant 0 <= i <= |rs|
      invariant total + AllPairsCost(rs[i..]) == AllPairsCost(rs)
    {
      ghost var before := total;
      var j := i + 1;
      while j < |rs|
        invariant i + 1 <= j <= |rs|
        invariant total == before + RowCost(rs[i], rs[i + 1..j])
      {
        assert rs[i + 1..j + 1][..j - i - 1] == rs[i + 1..j];
        total := total + TravelTime(rs[i], rs[j]);
        j := j + 1;
      }
      assert rs[i + 1..j] == rs[i..][1..];
      i := i + 1;
    }
  }

  lemma {:induction false} RowCostCoversFirst(a: Room, rs: seq<Room>)
    requires |rs| > 0
    ensures RowCost(a, rs) >= TravelTime(a, rs[0])
  {
    if |rs| > 1 {
      RowCostCoversFirst(a, rs[..|rs| - 1]);
    }
  }

  /** Summing over all pairs never costs less than summing over consecutive pairs
      only, as the primary version does: every consecutive pair is a pair. */
  lemma {:induction false} AllPairsAtLeastPath(rs: seq<Room>)
    ensures AllPairsCost(rs) >= PathCost(rs)
  {
    if |rs| > 1 {
      RowCostCoversFirst(rs[0], rs[1..]);
      AllPairsAtLeastPath(rs[1..]);
    }
  }

  /** The cost the variant gives a combination of room indices. */
  function CombinationCost(rooms: seq<Room>, c: seq<nat>): nat
  {
    if InRange(rooms, c) then AllPairsCost(Pick(rooms, c)) else 0
  }

  /** `CombinationCost` with the room list fixed, as the running minimum takes it. */
  function CombinationCostOf(rooms: seq<Room>): seq<nat> -> int
  {
    c => CombinationCost(rooms, c)
  }

  /** The loop `for (const floor in roomsByFloor)`: the first key whose group has
      at least `k` rooms. */
  function FirstQualifyingFloor(rooms: seq<Room>, avail: seq<nat>, k: nat, keys: seq<int>): (r: Option<int>)
    requires InRange(rooms, avail)
    ensures r.Some? ==> r.value in keys && |FloorGroup(rooms, avail, r.value)| >= k
    ensures r.None? ==> forall t :: 0 <= t < |keys| ==> |FloorGroup(rooms, avail, keys[t])| < k
    ensures r.Some? && StrictlyIncreasing(keys) ==>
      forall t :: 0 <= t < |keys| && keys[t] < r.value ==> |FloorGroup(rooms, avail, keys[t])| < k
  {
    if keys == [] then None
    else if |FloorGroup(rooms, avail, keys[0])| >= k then Some(keys[0])
    else
      var r := FirstQualifyingFloor(rooms, avail, k, keys[1..]);
      assert forall t :: 1 <= t < |keys| ==> keys[t] == keys[1..][t - 1];
      r
  }

  /** The combination the running minimum settles on: a k-subset of `avail` with
      the least all-pairs cost, every k-subset lexicographically before it being
      strictly dearer. */
  function CheapestCombination(rooms: seq<Room>, avail: seq<nat>, k: nat): (c: seq<nat>)
    requires StrictlyIncreasing(avail)
    requires k <= |avail|
    ensures IsCombination(avail, k, c)
    ensures forall d :: IsCombination(avail, k, d) ==> CombinationCost(rooms, c) <= CombinationCost(rooms, d)
    ensures forall d :: IsCombination(avail, k, d) && LexLess(d, c) ==> CombinationCost(rooms, c) < CombinationCost(rooms, d)
  {
    FirstCheapestCombination(avail, k, CombinationCostOf(rooms));
    var combos := GenerateCombinations(avail, k);
    combos[FirstMin(combos, CombinationCostOf(rooms)).value.index]
  }

  /** The variant's `findOptimalRooms(numRooms)`. */
  function FindOptimalRooms(rooms: seq<Room>, k: nat): (r: Selection)
    requires k >= 1
    ensures r.NotEnough? <==> |AvailableIndices(rooms)| < k
    ensures r.Found? ==> |r.rooms| == k
  {
    var avail := AvailableIndices(rooms);
    if |avail| < k then NotEnough
    else if k == 1 then Found([avail[0]])
    else
      match FirstQualifyingFloor(rooms, avail, k, FloorKeys(rooms, avail))
      case Some(f) => Found(FloorGroup(rooms, avail, f)[..k])
      case None => Found(CheapestCombination(rooms, avail, k))
  }

  /** One room: the first available room in catalogue order. */
  lemma SingleRoomIsFirstAvailable(rooms: seq<Room>)
    requires |AvailableIndices(rooms)| >= 1
    ensures exists i: nat ::
      && FindOptimalRooms(rooms, 1) == Found([i])
      && 0 <= i < |rooms| && rooms[i].available
      && forall j :: 0 <= j < i ==> !rooms[j].available
  {
    var avail := AvailableIndices(rooms);
    var i := avail[0];
    assert avail[0] in avail;
    forall j | 0 <= j < i
      ensures !rooms[j].available
    {
    }
  }

  /** The lowest floor that has `k` available rooms, for `k` of two or more. */
  lemma LowestQualifyingFloor(rooms: seq<Room>, k: nat, f0: int)
    requires k >= 2
    requires |FloorGroup(rooms, AvailableIndices(rooms), f0)| >= k
    ensures var avail := AvailableIndices(rooms);
      var r := FirstQualifyingFloor(rooms, avail, k, FloorKeys(rooms, avail));
      && r.Some?
      && |FloorGroup(rooms, avail, r.value)| >= k
      && forall g :: g < r.value ==> |FloorGroup(rooms, avail, g)| < k
  {
    var avail := AvailableIndices(rooms);
    var keys := FloorKeys(rooms, avail);
    assert f0 in keys;
    var r := FirstQualifyingFloor(rooms, avail, k, keys);
    if r.Some? {
      forall g | g < r.value
        ensures |FloorGroup(rooms, avail, g)| < k
      {
        if |FloorGroup(rooms, avail, g)| > 0 {
          assert g in keys;
        }
      }
    }
  }

  /** For two or more rooms, when some floor has that many available rooms: the
      answer is the first `k` available rooms, in catalogue order, of the lowest
      such floor; no cost is compared. */
  lemma SingleFloorIsLowestFloor(rooms: seq<Room>, k: nat, f0: int)
    requires k >= 2
    requires |FloorGroup(rooms, AvailableIndices(rooms), f0)| >= k
    ensures exists f ::
      && |FloorGroup(rooms, AvailableIndices(rooms), f)| >= k
      && (forall g :: g < f ==> |FloorGroup(rooms, AvailableIndices(rooms), g)| < k)
      && FindOptimalRooms(rooms, k) == Found(FloorGroup(rooms, AvailableIndices(rooms), f)[..k])
  {
    LowestQualifyingFloor(rooms, k, f0);
  }

  /** For two or more rooms, when no floor has that many: the answer is a k-subset
      of the available rooms whose all-pairs cost is least, and every k-subset
      lexicographically before it costs strictly more. */
  lemma CrossFloorMinimisesAllPairs(rooms: seq<Room>, k: nat)
    requires k >= 2
    requires k <= |AvailableIndices(rooms)|
    requires forall f :: |FloorGroup(rooms, AvailableIndices(rooms), f)| < k
    ensures var r := FindOptimalRooms(rooms, k);
      && r.Found?
      && IsAvailableSubset(rooms, k, r.rooms)
      && (forall d :: IsAvailableSubset(rooms, k, d) ==> CombinationCost(rooms, r.rooms) <= CombinationCost(rooms, d))
      && (forall d :: IsAvailableSubset(rooms, k, d) && LexLess(d, r.rooms) ==>
            CombinationCost(rooms, r.rooms) < CombinationCost(rooms, d))
  {
    var avail := AvailableIndices(rooms);
    var keys := FloorKeys(rooms, avail);
    var q := FirstQualifyingFloor(rooms, avail, k, keys);
    assert q.None?;
    assert forall d :: IsCombination(avail, k, d) <==> IsAvailableSubset(rooms, k, d);
  }

  /** The first `k` rooms of a floor's group are distinct available rooms. */
  lemma FloorPrefixValid(rooms: seq<Room>, k: nat, f: int)
    requires k <= |FloorGroup(rooms, AvailableIndices(rooms), f)|
    ensures IsRoomChoice(rooms, k, FloorGroup(rooms, AvailableIndices(rooms), f)[..k])
  {
    var g := FloorGroup(rooms, AvailableIndices(rooms), f);
    IncreasingIsDistinct(g);
    forall t | 0 <= t < k
      ensures g[t] < |rooms| && rooms[g[t]].available
    {
      assert g[t] in g;
    }
  }

  /** A k-subset of the available rooms is a pick of `k` distinct available rooms. */
  lemma CombinationValid(rooms: seq<Room>, k: nat, c: seq<nat>)
    requires IsCombination(AvailableIndices(rooms), k, c)
    ensures IsRoomChoice(rooms, k, c)
  {
    IncreasingIsDistinct(c);
    forall t | 0 <= t < k
      ensures c[t] < |rooms| && rooms[c[t]].available
    {
      assert c[t] in AvailableIndices(rooms);
    }
  }

  /** Whatever the variant answers is a pick of `k` distinct available rooms. */
  lemma SelectionIsValid(rooms: seq<Room>, k: nat)
    requires k >= 1
    ensures var r := FindOptimalRooms(rooms, k);
      r.Found? ==> IsRoomChoice(rooms, k, r.rooms)
  {
    var avail := AvailableIndices(rooms);
    if k <= |avail| {
      if k == 1 {
        assert avail[0] in avail;
      } else {
        var q := FirstQualifyingFloor(rooms, avail, k, FloorKeys(rooms, avail));
        if q.Some? {
          FloorPrefixValid(rooms, k, q.value);
        } else {
          CombinationValid(rooms, k, CheapestCombination(rooms, avail, k));
        }
      }
    }
  }
}
