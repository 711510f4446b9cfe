/** `findOptimalRooms` of server.js: prefer the cheapest contiguous run of
    position-sorted rooms on a single floor; when no floor has enough available
    rooms, try every k-subset of the available rooms. */
module Allocator {
  import opened Basics
  import opened Rooms
  import opened Travel
  import opened Sorting
  import opened Combinations
  import opened Availability
  import opened Scan

  /** What `findOptimalRooms` answers: the chosen room indices with the reported
      travel time (`None` where the source reports `Infinity`), or the failure
      "Only N rooms available" with its count. */
  datatype Allocation =
    | Allocated(rooms: seq<nat>, travelTime: Option<int>)
    | Unavailable(available: nat)

  /** `calculateTotalTravelTime` of the rooms at `sel`, visited in that order. */
  function SelectionCost(rooms: seq<Room>, sel: seq<nat>): nat
    requires InRange(rooms, sel)
  {
    PathCost(Pick(rooms, sel))
  }

  /** The run of `k` rooms starting at `s` in floor `f`'s position-sorted list
      (`floorRooms.slice(i, i + numRooms)`), or nothing when there is no such run. */
  function WindowAt(rooms: seq<Room>, k: nat, f: int, s: int): (w: seq<nat>)
    ensures InRange(rooms, w)
  {
    var ls := SortedFloor(rooms, f);
    if 0 <= s && s + k <= |ls| then ls[s..s + k] else []
  }

  /** There is a run of `k` rooms starting at `s` on floor `f`. */
  ghost predicate ValidWindow(rooms: seq<Room>, k: nat, f: int, s: int)
  {
    0 <= s && s + k <= |SortedFloor(rooms, f)|
  }

  function WindowCost(rooms: seq<Room>, k: nat, f: int, s: int): nat
  {
    SelectionCost(rooms, WindowAt(rooms, k, f, s))
  }

  /** `floorRooms.length`: the number of available rooms on floor `f`. */
  function FloorSizeOf(rooms: seq<Room>): int -> nat
  {
    f => |FloorGroup(rooms, AvailableIndices(rooms), f)|
  }

  /** `WindowCost` with the room list and `k` fixed, as the scan takes it. */
  function WindowCostOf(rooms: seq<Room>, k: nat): (int, int) -> int
  {
    (f, s) => WindowCost(rooms, k, f, s)
  }

  /** The two nested loops of the single-floor search over this hotel: floors in
      the order of `keys`, a floor searched only when it has at least `k`
      available rooms, starts ascending, and a window replacing the held one only
      when strictly cheaper. */
  function ScanFloors(rooms: seq<Room>, k: nat, keys: seq<int>, best: Option<Window>): Option<Window>
    requires k >= 1
  {
    ScanFloorsWith(FloorSizeOf(rooms), WindowCostOf(rooms, k), k, keys, best)
  }

  /** Cost of a combination as `findCrossFloorOptimalRooms` computes it: after
      sorting by floor, then position. */
  function CrossFloorCost(rooms: seq<Room>, c: seq<nat>): nat
  {
    if InRange(rooms, c) then SelectionCost(rooms, SortIndices(rooms, ByFloorThenPosition, c)) else 0
  }

  /** `CrossFloorCost` with the room list fixed, as the running minimum takes it. */
  function CrossFloorCostOf(rooms: seq<Room>): seq<nat> -> int
  {
    c => CrossFloorCost(rooms, c)
  }

  /** `findCrossFloorOptimalRooms`: the first cheapest combination, sorted by floor
      then position; `None` (the source's `null`) only when there is no combination. */
  function FindCrossFloorOptimalRooms(rooms: seq<Room>, avail: seq<nat>, k: nat): (r: Option<seq<nat>>)
    requires InRange(rooms, avail)
    requires StrictlyIncreasing(avail)
    ensures r.Some? <==> k <= |avail|
    ensures r.Some? ==> |r.value| == k && InRange(rooms, r.value)
    ensures r.Some? ==> r.value == SortIndices(rooms, ByFloorThenPosition, CrossFloorChoice(rooms, avail, k))
  {
    var combos := GenerateCombinations(avail, k);
    GeneratedCombinations(avail, k);
    var best := FirstMin(combos, CrossFloorCostOf(rooms));
    if best.None? then None
    else
      var c := combos[best.value.index];
      assert IsCombination(avail, k, c);
      IncreasingIsDistinct(c);
      DistinctSubsetLength(c, avail);
      Some(SortIndices(rooms, ByFloorThenPosition, c))
  }

  /** The combination the running minimum settles on: a k-subset of `avail` that
      costs no more than any other, with every k-subset lexicographically before
      it strictly dearer. */
  function CrossFloorChoice(rooms: seq<Room>, avail: seq<nat>, k: nat): (c: seq<nat>)
    requires InRange(rooms, avail)
    requires StrictlyIncreasing(avail)
    requires k <= |avail|
    ensures IsCombination(avail, k, c)
    ensures InRange(rooms, c)
    ensures forall d :: IsCombination(avail, k, d) ==> CrossFloorCost(rooms, c) <= CrossFloorCost(rooms, d)
    ensures forall d :: IsCombination(avail, k, d) && LexLess(d, c) ==> CrossFloorCost(rooms, c) < CrossFloorCost(rooms, d)
  {
    FirstCheapestCombination(avail, k, CrossFloorCostOf(rooms));
    var combos := GenerateCombinations(avail, k);
    var c := combos[FirstMin(combos, CrossFloorCostOf(rooms)).value.index];
    assert InRange(rooms, c) by {
      forall t | 0 <= t < |c|
        ensures c[t] < |rooms|
      {
        var u :| 0 <= u < |avail| && avail[u] == c[t];
      }
    }
    c
  }

  /** `findOptimalRooms(numRooms)`. Fails, carrying the number of available rooms,
      exactly when fewer than `k` rooms are available. */
  function FindOptimalRooms(rooms: seq<Room>, k: nat): (r: Allocation)
    requires k >= 1
    ensures r.Unavailable? <==> |AvailableIndices(rooms)| < k
    ensures r.Unavailable? ==> r.available == |AvailableIndices(rooms)|
    ensures r.Allocated? ==> |r.rooms| == k && InRange(rooms, r.rooms)
  {
    var avail := AvailableIndices(rooms);
    if |avail| < k then Unavailable(|avail|)
    else
      match ScanFloors(rooms, k, FloorKeys(rooms, avail), None)
      case Some(w) =>
        ScanResultFits(rooms, k);
        Allocated(WindowAt(rooms, k, w.floor, w.start), Some(w.cost))
      case None =>
        // with at least `k` rooms available there is a combination, so the
        // source's `null` cannot reach the caller
        Allocated(FindCrossFloorOptimalRooms(rooms, avail, k).value, None)
  }

  /** `best` is the first cheapest window of all, or nothing if there is none. */
  ghost predicate FirstBest(rooms: seq<Room>, k: nat, best: Option<Window>)
  {
    match best
    case None => forall g, j :: !ValidWindow(rooms, k, g, j)
    case Some(w) =>
      && ValidWindow(rooms, k, w.floor, w.start)
      && w.cost == WindowCost(rooms, k, w.floor, w.start)
      && (forall g, j :: ValidWindow(rooms, k, g, j) ==> w.cost <= WindowCost(rooms, k, g, j))
      && (forall g, j :: ValidWindow(rooms, k, g, j) && Earlier(g, j, w.floor, w.start) ==> w.cost < WindowCost(rooms, k, g, j))
  }

  /** The scan over floors and windows ends holding the first cheapest window,
      in (floor, start) order, or nothing when no floor has `k` available rooms. */
  lemma ScanFindsFirstCheapestWindow(rooms: seq<Room>, k: nat)
    requires k >= 1
    ensures FirstBest(rooms, k, ScanFloors(rooms, k, FloorKeys(rooms, AvailableIndices(rooms)), None))
  {
    var avail := AvailableIndices(rooms);
    var keys := FloorKeys(rooms, avail);
    ScanFindsBest(FloorSizeOf(rooms), WindowCostOf(rooms, k), k, keys);
    BestOfAllIsFirstBest(rooms, k, ScanFloors(rooms, k, keys, None));
  }

  /** The abstract scan's "first cheapest of all" is `FirstBest` for this hotel. */
  lemma BestOfAllIsFirstBest(rooms: seq<Room>, k: nat, best: Option<Window>)
    requires BestOfAll(FloorSizeOf(rooms), WindowCostOf(rooms, k), k, best)
    ensures FirstBest(rooms, k, best)
  {
    assert forall g, j :: ValidWindow(rooms, k, g, j) <==> Fits(FloorSizeOf(rooms), k, g, j);
  }

  /** A window the scan settles on holds `k` rooms. */
  lemma ScanResultFits(rooms: seq<Room>, k: nat)
    requires k >= 1
    ensures var s := ScanFloors(rooms, k, FloorKeys(rooms, AvailableIndices(rooms)), None);
      s.Some? ==> |WindowAt(rooms, k, s.value.floor, s.value.start)| == k
  {
    ScanFindsFirstCheapestWindow(rooms, k);
  }

  /** The answer when the scan found a window: that window and its cost. */
  lemma WindowAnswer(rooms: seq<Room>, k: nat)
    requires k >= 1
    requires k <= |AvailableIndices(rooms)|
    requires ScanFloors(rooms, k, FloorKeys(rooms, AvailableIndices(rooms)), None).Some?
    ensures var w := ScanFloors(rooms, k, FloorKeys(rooms, AvailableIndices(rooms)), None).value;
      FindOptimalRooms(rooms, k) == Allocated(WindowAt(rooms, k, w.floor, w.start), Some(w.cost))
  {
  }

  /** The answer when the scan found no window: the cheapest combination, sorted. */
  lemma CrossFloorAnswer(rooms: seq<Room>, k: nat)
    requires k >= 1
    requires k <= |AvailableIndices(rooms)|
    requires ScanFloors(rooms, k, FloorKeys(rooms, AvailableIndices(rooms)), None).None?
    ensures var avail := AvailableIndices(rooms);
      FindOptimalRooms(rooms, k) == Allocated(SortIndices(rooms, ByFloorThenPosition, CrossFloorChoice(rooms, avail, k)), None)
  {
  }

  /** The rooms of a window are available rooms of its floor, none twice. */
  lemma WindowRooms(rooms: seq<Room>, k: nat, f: int, s: int)
    requires ValidWindow(rooms, k, f, s)
    ensures IsRoomChoice(rooms, k, WindowAt(rooms, k, f, s))
    ensures forall t :: 0 <= t < k ==> rooms[WindowAt(rooms, k, f, s)[t]].floor == f
  {
    SortedFloorContents(rooms, f);
    var ls := SortedFloor(rooms, f);
    var w := WindowAt(rooms, k, f, s);
    assert w == ls[s..s + k];
    forall t | 0 <= t < k
      ensures w[t] < |rooms| && rooms[w[t]].available && rooms[w[t]].floor == f
    {
      assert w[t] == ls[s + t];
      assert w[t] in ls;
    }
    forall i, j | 0 <= i < j < k
      ensures w[i] != w[j]
    {
      assert w[i] == ls[s + i] && w[j] == ls[s + j];
    }
  }

  /** With a floor holding at least `k` available rooms, the answer is the first
      cheapest window: a run of `k` rooms of one floor's position-sorted available
      rooms, reported with its cost, such that no run of `k` rooms on any floor is
      cheaper and every run that comes earlier (lower floor, or same floor and
      earlier start) is strictly dearer, since the comparison is a strict `<`. */
  lemma SingleFloorPreference(rooms: seq<Room>, k: nat, f0: int)
    requires k >= 1
    requires |FloorGroup(rooms, AvailableIndices(rooms), f0)| >= k
    ensures FindOptimalRooms(rooms, k).Allocated?
    ensures exists w ::
      && FirstBest(rooms, k, Some(w))
      && FindOptimalRooms(rooms, k) == Allocated(WindowAt(rooms, k, w.floor, w.start), Some(w.cost))
      && forall t :: 0 <= t < k ==> rooms[WindowAt(rooms, k, w.floor, w.start)[t]].floor == w.floor
  {
    var avail := AvailableIndices(rooms);
    assert ValidWindow(rooms, k, f0, 0);
    ScanFindsFirstCheapestWindow(rooms, k);
    var w := ScanFloors(rooms, k, FloorKeys(rooms, avail), None).value;
    WindowAnswer(rooms, k);
    WindowRooms(rooms, k, w.floor, w.start);
  }

  /** No floor with `k` available rooms means the scan holds nothing at the end. */
  lemma NoWindowWhenFloorsTooSmall(rooms: seq<Room>, k: nat)
    requires k >= 1
    requires forall f :: |FloorGroup(rooms, AvailableIndices(rooms), f)| < k
    ensures ScanFloors(rooms, k, FloorKeys(rooms, AvailableIndices(rooms)), None).None?
  {
    ScanFindsFirstCheapestWindow(rooms, k);
  }

  /** A k-subset of the available list is a k-subset of the available rooms. */
  lemma CombinationOfAvailable(rooms: seq<Room>, k: nat)
    ensures forall d :: IsCombination(AvailableIndices(rooms), k, d) <==> IsAvailableSubset(rooms, k, d)
  {
  }

  /** When no floor has `k` available rooms but the hotel does: the answer reports
      no travel time (the source's `Infinity`); it is some k-subset of the
      available rooms sorted by floor then position; that subset's cost, which is
      the cost of the answer, is no more than that of any k-subset; and every
      k-subset lexicographically before it is strictly dearer. */
  lemma CrossFloorFallback(rooms: seq<Room>, k: nat)
    requires k >= 1
    requires k <= |AvailableIndices(rooms)|
    requires forall f :: |FloorGroup(rooms, AvailableIndices(rooms), f)| < k
    ensures var r := FindOptimalRooms(rooms, k);
      && r.Allocated? && r.travelTime.None?
      && SortedBy(rooms, ByFloorThenPosition, r.rooms)
      && exists c ::
        && IsAvailableSubset(rooms, k, c)
        && r.rooms == SortIndices(rooms, ByFloorThenPosition, c)
        && CrossFloorCost(rooms, c) == SelectionCost(rooms, r.rooms)
        && (forall d :: IsAvailableSubset(rooms, k, d) ==> CrossFloorCost(rooms, c) <= CrossFloorCost(rooms, d))
        && (forall d :: IsAvailableSubset(rooms, k, d) && LexLess(d, c) ==> CrossFloorCost(rooms, c) < CrossFloorCost(rooms, d))
  {
    var avail := AvailableIndices(rooms);
    NoWindowWhenFloorsTooSmall(rooms, k);
    CrossFloorAnswer(rooms, k);
    var c := CrossFloorChoice(rooms, avail, k);
    CombinationOfAvailable(rooms, k);
    SortIndicesCorrect(rooms, ByFloorThenPosition, c);
  }

  /** Cross-floor answers for two or more rooms do span more than one floor: were
      they all on one floor, that floor would have `k` available rooms. */
  lemma CrossFloorSpansFloors(rooms: seq<Room>, k: nat)
    requires k >= 2
    requires k <= |AvailableIndices(rooms)|
    requires forall f :: |FloorGroup(rooms, AvailableIndices(rooms), f)| < k
    ensures var r := FindOptimalRooms(rooms, k);
      r.Allocated? && exists a, b :: 0 <= a < b < k && rooms[r.rooms[a]].floor != rooms[r.rooms[b]].floor
  {
    var avail := AvailableIndices(rooms);
    NoWindowWhenFloorsTooSmall(rooms, k);
    CrossFloorAnswer(rooms, k);
    var c := CrossFloorChoice(rooms, avail, k);
    var sel := FindOptimalRooms(rooms, k).rooms;
    assert forall x :: x in c ==> x in sel;
    PickSpansFloors(rooms, avail, c, sel, k);
  }

  /** `k` rooms holding a k-subset of the available rooms cannot all share a
      floor when no floor has `k` available rooms. */
  lemma PickSpansFloors(rooms: seq<Room>, avail: seq<nat>, c: seq<nat>, sel: seq<nat>, k: nat)
    requires InRange(rooms, avail) && k >= 1
    requires IsCombination(avail, k, c)
    requires |sel| == k && InRange(rooms, sel)
    requires forall x :: x in c ==> x in sel
    requires forall f :: |FloorGroup(rooms, avail, f)| < k
    ensures exists a, b :: 0 <= a < b < k && rooms[sel[a]].floor != rooms[sel[b]].floor
  {
    var f := rooms[sel[0]].floor;
    if forall b :: 0 <= b < k ==> rooms[sel[b]].floor == f {
      var group := FloorGroup(rooms, avail, f);
      forall x | x in c
        ensures x in group
      {
        var u :| 0 <= u < k && sel[u] == x;
      }
      IncreasingIsDistinct(c);
      DistinctSubsetLength(c, group);
      assert false;
    }
    var b0 :| 0 <= b0 < k && rooms[sel[b0]].floor != f;
    assert 0 < b0;
  }

  /** The sorted cheapest combination is a pick of `k` distinct available rooms. */
  lemma CrossFloorChoiceValid(rooms: seq<Room>, k: nat)
    requires k <= |AvailableIndices(rooms)|
    ensures IsRoomChoice(rooms, k, SortIndices(rooms, ByFloorThenPosition, CrossFloorChoice(rooms, AvailableIndices(rooms), k)))
  {
    var c := CrossFloorChoice(rooms, AvailableIndices(rooms), k);
    var sel := SortIndices(rooms, ByFloorThenPosition, c);
    IncreasingIsDistinct(c);
    SortIndicesCorrect(rooms, ByFloorThenPosition, c);
    forall t | 0 <= t < k
      ensures sel[t] < |rooms| && rooms[sel[t]].available
    {
      assert sel[t] in sel;
      var u :| 0 <= u < |c| && c[u] == sel[t];
    }
  }

  /** Whatever `findOptimalRooms` answers is a pick of `k` distinct available
      rooms, and a reported travel time is the cost of visiting them in the
      order given. */
  lemma AllocationIsValid(rooms: seq<Room>, k: nat)
    requires k >= 1
    ensures var r := FindOptimalRooms(rooms, k);
      r.Allocated? ==>
        && IsRoomChoice(rooms, k, r.rooms)
        && (r.travelTime.Some? ==> r.travelTime.value == SelectionCost(rooms, r.rooms))
  {
    var avail := AvailableIndices(rooms);
    if k <= |avail| {
      var best := ScanFloors(rooms, k, FloorKeys(rooms, avail), None);
      if best.Some? {
        assert ValidWindow(rooms, k, best.value.floor, best.value.start) by {
          ScanFindsFirstCheapestWindow(rooms, k);
        }
        WindowAnswer(rooms, k);
        WindowRooms(rooms, k, best.value.floor, best.value.start);
        assert best.value.cost == WindowCost(rooms, k, best.value.floor, best.value.start) by {
          ScanFindsFirstCheapestWindow(rooms, k);
        }
      } else {
        CrossFloorAnswer(rooms, k);
        CrossFloorChoiceValid(rooms, k);
      }
    }
  }

  /** One room, when any is free, always comes back with travel time 0. */
  lemma SingleRoomCostsNothing(rooms: seq<Room>)
    requires |AvailableIndices(rooms)| >= 1
    ensures FindOptimalRooms(rooms, 1).Allocated?
    ensures FindOptimalRooms(rooms, 1).travelTime == Some(0)
  {
    var avail := AvailableIndices(rooms);
    var e := avail[0];
    assert e in FloorGroup(rooms, avail, rooms[e].floor);
    SingleFloorPreference(rooms, 1, rooms[e].floor);
  }

  /** When rooms are listed in (floor, position) order, as the catalogue lists
      them, a floor's position-sorted available rooms lie on that floor with
      strictly rising positions. */
  lemma SortedFloorRises(rooms: seq<Room>, f: int)
    requires InPlaceOrder(rooms)
    ensures RisingOnOneFloor(Pick(rooms, SortedFloor(rooms, f)))
  {
    var ls := SortedFloor(rooms, f);
    var p := Pick(rooms, ls);
    SortedFloorContents(rooms, f);
    forall t | 0 <= t < |p|
      ensures p[t].floor == f
    {
      assert ls[t] in ls;
    }
    forall i, j | 0 <= i < j < |p|
      ensures p[i].position < p[j].position
    {
      assert ls[i] in ls && ls[j] in ls;
      assert !Before(ByPosition, rooms[ls[j]], rooms[ls[i]]);
      assert ls[i] != ls[j];
    }
  }

  /** The rooms of floor `f`'s position-sorted list at the ascending offsets `idx`. */
  function FloorPick(rooms: seq<Room>, f: int, idx: seq<nat>): (sel: seq<nat>)
    requires forall t :: 0 <= t < |idx| ==> idx[t] < |SortedFloor(rooms, f)|
    ensures InRange(rooms, sel)
  {
    var ls := SortedFloor(rooms, f);
    seq(|idx|, t requires 0 <= t < |idx| => ls[idx[t]])
  }

  /** On one floor of a hotel listed in (floor, position) order, the run of `k` rooms
      starting where a position-ordered pick of `k` rooms starts is no dearer than
      the pick: the cost of rising positions telescopes. */
  lemma WindowBeatsFloorPick(rooms: seq<Room>, k: nat, f: int, idx: seq<nat>)
    requires InPlaceOrder(rooms)
    requires k >= 1 && |idx| == k
    requires StrictlyIncreasing(idx)
    requires forall t :: 0 <= t < k ==> idx[t] < |SortedFloor(rooms, f)|
    ensures ValidWindow(rooms, k, f, idx[0])
    ensures WindowCost(rooms, k, f, idx[0]) <= SelectionCost(rooms, FloorPick(rooms, f, idx))
  {
    SliceBeatsFloorPick(rooms, k, f, idx);
    WindowIsSlice(rooms, k, f, idx[0]);
  }

  /** The run of `k` entries of floor `f`'s position-sorted list that starts where
      the pick starts costs no more than the pick. */
  lemma SliceBeatsFloorPick(rooms: seq<Room>, k: nat, f: int, idx: seq<nat>)
    requires InPlaceOrder(rooms)
    requires k >= 1 && |idx| == k
    requires StrictlyIncreasing(idx)
    requires forall t :: 0 <= t < k ==> idx[t] < |SortedFloor(rooms, f)|
    ensures idx[0] + k <= |SortedFloor(rooms, f)|
    ensures SelectionCost(rooms, SortedFloor(rooms, f)[idx[0]..idx[0] + k]) <= SelectionCost(rooms, FloorPick(rooms, f, idx))
  {
    SortedFloorRises(rooms, f);
    RunBeatsPick(rooms, SortedFloor(rooms, f), idx, FloorPick(rooms, f, idx));
  }

  /** A valid window is a slice of the floor's position-sorted list. */
  lemma WindowIsSlice(rooms: seq<Room>, k: nat, f: int, s: int)
    requires ValidWindow(rooms, k, f, s)
    ensures WindowAt(rooms, k, f, s) == SortedFloor(rooms, f)[s..s + k]
  {
  }

  /** For a list `ls` of rooms on one floor with rising positions, the run of
      `|idx|` entries starting at `idx[0]` costs no more than the entries at `idx`. */
  lemma RunBeatsPick(rooms: seq<Room>, ls: seq<nat>, idx: seq<nat>, sel: seq<nat>)
    requires InRange(rooms, ls)
    requires RisingOnOneFloor(Pick(rooms, ls))
    requires |idx| > 0 && StrictlyIncreasing(idx)
    requires forall t :: 0 <= t < |idx| ==> idx[t] < |ls|
    requires |sel| == |idx| && forall t :: 0 <= t < |idx| ==> sel[t] == ls[idx[t]]
    ensures idx[0] + |idx| <= |ls|
    ensures InRange(rooms, sel)
    ensures SelectionCost(rooms, ls[idx[0]..idx[0] + |idx|]) <= SelectionCost(rooms, sel)
  {
    var p := Pick(rooms, ls);
    WindowNoWorseThanSubset(p, idx);
    PickSlice(rooms, ls, idx[0], idx[0] + |idx|);
    PickCompose(rooms, ls, idx, sel);
  }

  /** In a hotel listed in (floor, position) order, as the catalogue is, whenever
      a floor has `k` available rooms the travel time reported for `k` rooms is
      no more than that of any `k` available rooms of a single floor walked in
      position order. */
  lemma SingleFloorBeatsEverySubset(rooms: seq<Room>, k: nat, f: int, idx: seq<nat>)
    requires InPlaceOrder(rooms)
    requires k >= 1 && |idx| == k
    requires StrictlyIncreasing(idx)
    requires forall t :: 0 <= t < k ==> idx[t] < |SortedFloor(rooms, f)|
    ensures FindOptimalRooms(rooms, k).Allocated?
    ensures FindOptimalRooms(rooms, k).travelTime.Some?
    ensures FindOptimalRooms(rooms, k).travelTime.value <= SelectionCost(rooms, FloorPick(rooms, f, idx))
  {
    WindowBeatsFloorPick(rooms, k, f, idx);
    SingleFloorPreference(rooms, k, f);
    var w :| FirstBest(rooms, k, Some(w))
      && FindOptimalRooms(rooms, k) == Allocated(WindowAt(rooms, k, w.floor, w.start), Some(w.cost));
  }
}
