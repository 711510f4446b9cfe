/** The travel-time metric: two minutes per floor climbed plus one minute per room
    walked along a corridor, and the cost of visiting a list of rooms in order. */
module Travel {
  import opened Basics
  import opened Rooms

  /** `calculateTravelTime`: vertical distance counts double. It is zero exactly
      between rooms at the same place; along one floor it is the number of rooms
      walked, and straight up or down it is two minutes a floor. */
  function TravelTime(a: Room, b: Room): (d: nat)
    ensures d == 0 <==> a.floor == b.floor && a.position == b.position
    ensures a.floor == b.floor ==> d == Abs(a.position - b.position)
    ensures a.position == b.position ==> d == 2 * Abs(a.floor - b.floor)
  {
    Abs(a.floor - b.floor) * 2 + Abs(a.position - b.position)
  }

  /** The travel time is a metric: symmetric, and obeying the triangle
      inequality, so no detour through a third room is ever quicker. */
  lemma TravelTimeIsMetric(a: Room, b: Room, c: Room)
    ensures TravelTime(a, b) == TravelTime(b, a)
    ensures TravelTime(a, c) <= TravelTime(a, b) + TravelTime(b, c)
  {
  }

  /** Reference definition of `calculateTotalTravelTime`: the sum of the travel
      times between consecutive rooms (0 for fewer than two rooms). */
  function PathCost(rs: seq<Room>): nat
  {
    if |rs| <= 1 then 0 else TravelTime(rs[0], rs[1]) + PathCost(rs[1..])
  }

  /** `calculateTotalTravelTime` as written: one loop over consecutive pairs. */
  method CalculateTotalTravelTime(rs: seq<Room>) returns (total: int)
    ensures total == PathCost(rs)
    ensures |rs| <= 1 ==> total == 0
    ensures |rs| == 2 ==> total == TravelTime(rs[0], rs[1])
  {
    if |rs| <= 1 {
      return 0;
    }
    total := 0;
    var i := 0;
    while i < |rs| - 1
      invariant 0 <= i <= |rs| - 1
      invariant total + PathCost(rs[i..]) == PathCost(rs)
    {
      assert rs[i..][1..] == rs[i + 1..];
      total := total + TravelTime(rs[i], rs[i + 1]);
      i := i + 1;
    }
  }

  /** The cost of a path splits at any interior room. */
  lemma {:induction false} PathCostSplit(rs: seq<Room>, m: nat)
    requires 0 < m < |rs|
    ensures PathCost(rs) == PathCost(rs[..m]) + TravelTime(rs[m - 1], rs[m]) + PathCost(rs[m..])
  {
    if m > 1 {
      PathCostSplit(rs[1..], m - 1);
      assert rs[1..][..m - 1] == rs[..m][1..];
      assert rs[1..][m - 1..] == rs[m..];
    } else {
      assert rs[..1] == [rs[0]];
    }
  }

  /** All rooms are on one floor and their positions rise strictly. */
  ghost predicate RisingOnOneFloor(rs: seq<Room>)
  {
    && (forall i :: 0 <= i < |rs| ==> rs[i].floor == rs[0].floor)
    && (forall i, j :: 0 <= i < j < |rs| ==> rs[i].position < rs[j].position)
  }

  /** On one floor, walking along rising positions costs exactly the distance
      from the first position to the last: the sum telescopes. */
  lemma {:induction false} PathCostTelescopes(rs: seq<Room>)
    requires |rs| > 0
    requires RisingOnOneFloor(rs)
    ensures PathCost(rs) == rs[|rs| - 1].position - rs[0].position
  {
    if |rs| > 1 {
      assert RisingOnOneFloor(rs[1..]);
      PathCostTelescopes(rs[1..]);
    }
  }

  /** The rooms of `ls` picked at the indices `idx`, in that order. */
  function Pick(ls: seq<Room>, idx: seq<nat>): seq<Room>
    requires forall t :: 0 <= t < |idx| ==> idx[t] < |ls|
  {
    seq(|idx|, t requires 0 <= t < |idx| => ls[idx[t]])
  }

  /** Picking from a slice of the indices is slicing the pick. */
  lemma PickSlice(ls: seq<Room>, idx: seq<nat>, s: nat, e: nat)
    requires forall t :: 0 <= t < |idx| ==> idx[t] < |ls|
    requires s <= e <= |idx|
    ensures Pick(ls, idx[s..e]) == Pick(ls, idx)[s..e]
  {
  }

  /** Picking at `outer` and then at `idx` is picking at the composed indices. */
  lemma PickCompose(ls: seq<Room>, outer: seq<nat>, idx: seq<nat>, comp: seq<nat>)
    requires forall t :: 0 <= t < |outer| ==> outer[t] < |ls|
    requires forall t :: 0 <= t < |idx| ==> idx[t] < |outer|
    requires |comp| == |idx| && forall t :: 0 <= t < |idx| ==> comp[t] == outer[idx[t]]
    ensures Pick(ls, comp) == Pick(Pick(ls, outer), idx)
  {
  }

  /** On a floor whose rooms are listed in rising position order, the contiguous
      run of `|idx|` rooms that starts where a selection `idx` starts costs no more
      than the selection itself: the best contiguous window beats every subset. */
  lemma WindowNoWorseThanSubset(ls: seq<Room>, idx: seq<nat>)
    requires RisingOnOneFloor(ls)
    requires |idx| > 0
    requires StrictlyIncreasing(idx)
    requires forall t :: 0 <= t < |idx| ==> idx[t] < |ls|
    ensures idx[0] + |idx| <= |ls|
    ensures PathCost(ls[idx[0]..idx[0] + |idx|]) <= PathCost(Pick(ls, idx))
  {
    var k := |idx|;
    IncreasingSpread(idx);
    var w := ls[idx[0]..idx[0] + k];
    assert RisingOnOneFloor(w);
    PathCostTelescopes(w);
    var p := Pick(ls, idx);
    assert RisingOnOneFloor(p);
    PathCostTelescopes(p);
    assert w[k - 1] == ls[idx[0] + k - 1];
    if idx[0] + k - 1 < idx[k - 1] {
      assert ls[idx[0] + k - 1].position < ls[idx[k - 1]].position;
    }
  }
}
