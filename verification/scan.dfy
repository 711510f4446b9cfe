/** The two nested loops of the single-floor search in `findOptimalRooms`, with
    the floor sizes and the window costs left abstract: floors are visited in the
    order of `keys`, starts in ascending order, and the held window is replaced
    only by a strictly cheaper one. */
module Scan {
  import opened Basics

  /** The window a running minimum holds: its floor, where it starts, its cost. */
  datatype Window = Window(floor: int, start: nat, cost: int)

  /** Window `(g, j)` comes before window `(f, s)` in scan order. */
  predicate Earlier(g: int, j: int, f: int, s: int)
  {
    g < f || (g == f && j < s)
  }

  /** A run of `k` rooms starting at `s` fits on floor `f`, which has `size(f)`. */
  predicate Fits(size: int -> nat, k: nat, f: int, s: int)
  {
    0 <= s && s + k <= size(f)
  }

  /** The inner loop over window starts `i = 0 .. size(f) - k`. It either keeps
      the window it was given or ends holding a window of floor `f`, starting at
      `i` or later, that fits and carries its own cost; and the cost it holds
      never rises. */
  function ScanWindowsWith(size: int -> nat, cost: (int, int) -> int, k: nat, f: int, i: nat, best: Option<Window>): (r: Option<Window>)
    requires k >= 1
    ensures r == best || (r.Some? && r.value.floor == f && i <= r.value.start
      && Fits(size, k, f, r.value.start) && r.value.cost == cost(f, r.value.start))
    ensures best.Some? ==> r.Some? && r.value.cost <= best.value.cost
    decreases size(f) - i
  {
    if i + k > size(f) then best
    else
      var t := cost(f, i);
      ScanWindowsWith(size, cost, k, f, i + 1, if best.None? || t < best.value.cost then Some(Window(f, i, t)) else best)
  }

  /** The outer loop over floors; a floor is searched only when it has at least
      `k` rooms. The running minimum is shared by all floors: it either keeps the
      window it was given or ends holding a fitting window of one of the `keys`
      with its own cost, and the cost it holds never rises. */
  function ScanFloorsWith(size: int -> nat, cost: (int, int) -> int, k: nat, keys: seq<int>, best: Option<Window>): (r: Option<Window>)
    requires k >= 1
    ensures r == best || (r.Some? && r.value.floor in keys
      && Fits(size, k, r.value.floor, r.value.start) && r.value.cost == cost(r.value.floor, r.value.start))
    ensures best.Some? ==> r.Some? && r.value.cost <= best.value.cost
  {
    if keys == [] then best
    else
      ScanFloorsWith(size, cost, k, keys[1..],
        if size(keys[0]) >= k then ScanWindowsWith(size, cost, k, keys[0], 0, best) else best)
  }

  /** `best` is what the running minimum holds after scanning every window before
      `(f, s)`: the first cheapest of them, or nothing if there were none. */
  ghost predicate BestBefore(size: int -> nat, cost: (int, int) -> int, k: nat, best: Option<Window>, f: int, s: int)
  {
    match best
    case None => forall g, j :: Fits(size, k, g, j) ==> !Earlier(g, j, f, s)
    case Some(w) =>
      && Fits(size, k, w.floor, w.start)
      && Earlier(w.floor, w.start, f, s)
      && w.cost == cost(w.floor, w.start)
      && (forall g, j :: Fits(size, k, g, j) && Earlier(g, j, f, s) ==> w.cost <= cost(g, j))
      && (forall g, j :: Fits(size, k, g, j) && Earlier(g, j, w.floor, w.start) ==> w.cost < cost(g, j))
  }

  /** `best` is the first cheapest window of all, or nothing if no window fits. */
  ghost predicate BestOfAll(size: int -> nat, cost: (int, int) -> int, k: nat, best: Option<Window>)
  {
    match best
    case None => forall g, j :: !Fits(size, k, g, j)
    case Some(w) =>
      && Fits(size, k, w.floor, w.start)
      && w.cost == cost(w.floor, w.start)
      && (forall g, j :: Fits(size, k, g, j) ==> w.cost <= cost(g, j))
      && (forall g, j :: Fits(size, k, g, j) && Earlier(g, j, w.floor, w.start) ==> w.cost < cost(g, j))
  }

  /** The first window scanned becomes the running minimum. */
  lemma StepFromNothing(size: int -> nat, cost: (int, int) -> int, k: nat, f: int, i: nat)
    requires i + k <= size(f)
    requires BestBefore(size, cost, k, None, f, i)
    ensures BestBefore(size, cost, k, Some(Window(f, i, cost(f, i))), f, i + 1)
  {
    forall g, j | Fits(size, k, g, j) && Earlier(g, j, f, i + 1)
      ensures g == f && j == i
    {
      assert !Earlier(g, j, f, i);
    }
  }

  /** A strictly cheaper window replaces the running minimum. */
  lemma StepReplaces(size: int -> nat, cost: (int, int) -> int, k: nat, f: int, i: nat, w: Window)
    requires i + k <= size(f)
    requires BestBefore(size, cost, k, Some(w), f, i)
    requires cost(f, i) < w.cost
    ensures BestBefore(size, cost, k, Some(Window(f, i, cost(f, i))), f, i + 1)
  {
    forall g, j | Fits(size, k, g, j) && Earlier(g, j, f, i + 1)
      ensures cost(f, i) <= cost(g, j)
    {
      if !(g == f && j == i) {
        assert Earlier(g, j, f, i);
      }
    }
  }

  /** A window no cheaper than the running minimum leaves it in place. */
  lemma StepKeeps(size: int -> nat, cost: (int, int) -> int, k: nat, f: int, i: nat, w: Window)
    requires i + k <= size(f)
    requires BestBefore(size, cost, k, Some(w), f, i)
    requires w.cost <= cost(f, i)
    ensures BestBefore(size, cost, k, Some(w), f, i + 1)
  {
    forall g, j | Fits(size, k, g, j) && Earlier(g, j, f, i + 1)
      ensures w.cost <= cost(g, j)
    {
      if !(g == f && j == i) {
        assert Earlier(g, j, f, i);
      }
    }
  }

  /** One step of the inner loop keeps the running minimum the first cheapest
      window seen so far. */
  lemma ScanWindowsStep(size: int -> nat, cost: (int, int) -> int, k: nat, f: int, i: nat, best: Option<Window>)
    requires i + k <= size(f)
    requires BestBefore(size, cost, k, best, f, i)
    ensures var t := cost(f, i);
      BestBefore(size, cost, k, if best.None? || t < best.value.cost then Some(Window(f, i, t)) else best, f, i + 1)
  {
    match best
    case None => StepFromNothing(size, cost, k, f, i);
    case Some(w) =>
      if cost(f, i) < w.cost {
        StepReplaces(size, cost, k, f, i, w);
      } else {
        StepKeeps(size, cost, k, f, i, w);
      }
  }

  /** Moving the scan mark past no window keeps the running minimum valid. */
  lemma BestBeforeMoves(size: int -> nat, cost: (int, int) -> int, k: nat, best: Option<Window>, f1: int, s1: int, f2: int, s2: int)
    requires BestBefore(size, cost, k, best, f1, s1)
    requires forall g, j :: Fits(size, k, g, j) ==> (Earlier(g, j, f1, s1) <==> Earlier(g, j, f2, s2))
    ensures BestBefore(size, cost, k, best, f2, s2)
  {
  }

  /** The inner loop, run to its end, leaves the first cheapest window before the
      next floor. */
  lemma {:induction false} ScanWindowsCorrect(size: int -> nat, cost: (int, int) -> int, k: nat, f: int, i: nat, best: Option<Window>)
    requires k >= 1
    requires BestBefore(size, cost, k, best, f, i)
    ensures BestBefore(size, cost, k, ScanWindowsWith(size, cost, k, f, i, best), f + 1, 0)
    decreases size(f) - i
  {
    if i + k > size(f) {
      BestBeforeMoves(size, cost, k, best, f, i, f + 1, 0);
    } else {
      var t := cost(f, i);
      ScanWindowsStep(size, cost, k, f, i, best);
      ScanWindowsCorrect(size, cost, k, f, i + 1, if best.None? || t < best.value.cost then Some(Window(f, i, t)) else best);
    }
  }

  /** One floor of the outer loop: after it, the running minimum is the first
      cheapest window below the next floor, and the remaining keys still cover
      every floor above. */
  lemma ScanFloorStep(size: int -> nat, cost: (int, int) -> int, k: nat, keys: seq<int>, best: Option<Window>, lo: int)
    requires k >= 1 && keys != []
    requires StrictlyIncreasing(keys)
    requires forall t :: 0 <= t < |keys| ==> lo <= keys[t]
    requires forall g :: lo <= g && size(g) > 0 ==> g in keys
    requires BestBefore(size, cost, k, best, lo, 0)
    ensures var f := keys[0];
      BestBefore(size, cost, k, if size(f) >= k then ScanWindowsWith(size, cost, k, f, 0, best) else best, f + 1, 0)
    ensures StrictlyIncreasing(keys[1..])
    ensures forall t :: 0 <= t < |keys[1..]| ==> keys[0] + 1 <= keys[1..][t]
    ensures forall g :: keys[0] + 1 <= g && size(g) > 0 ==> g in keys[1..]
  {
    var f := keys[0];
    forall g | lo <= g && size(g) > 0
      ensures f <= g
    {
      var t :| 0 <= t < |keys| && keys[t] == g;
    }
    BestBeforeMoves(size, cost, k, best, lo, 0, f, 0);
    if size(f) >= k {
      ScanWindowsCorrect(size, cost, k, f, 0, best);
    } else {
      BestBeforeMoves(size, cost, k, best, f, 0, f + 1, 0);
    }
    forall g | f + 1 <= g && size(g) > 0
      ensures g in keys[1..]
    {
      var t :| 0 <= t < |keys| && keys[t] == g;
      assert keys[1..][t - 1] == g;
    }
  }

  /** The outer loop, run to its end, leaves the first cheapest window of all. */
  lemma {:induction false} ScanFloorsCorrect(size: int -> nat, cost: (int, int) -> int, k: nat, keys: seq<int>, best: Option<Window>, lo: int)
    requires k >= 1
    requires StrictlyIncreasing(keys)
    requires forall t :: 0 <= t < |keys| ==> lo <= keys[t]
    requires forall g :: lo <= g && size(g) > 0 ==> g in keys
    requires BestBefore(size, cost, k, best, lo, 0)
    ensures BestOfAll(size, cost, k, ScanFloorsWith(size, cost, k, keys, best))
    decreases |keys|
  {
    if keys == [] {
      assert forall g, j :: Fits(size, k, g, j) ==> Earlier(g, j, lo, 0);
    } else {
      var f := keys[0];
      ScanFloorStep(size, cost, k, keys, best, lo);
      ScanFloorsCorrect(size, cost, k, keys[1..], if size(f) >= k then ScanWindowsWith(size, cost, k, f, 0, best) else best, f + 1);
    }
  }

  /** Scanning every floor with a room, lowest first, from an empty running
      minimum ends with the first cheapest window of all, in (floor, start)
      order, or with nothing when no floor has `k` rooms. */
  lemma ScanFindsBest(size: int -> nat, cost: (int, int) -> int, k: nat, keys: seq<int>)
    requires k >= 1
    requires StrictlyIncreasing(keys)
    requires forall g :: size(g) > 0 ==> g in keys
    ensures BestOfAll(size, cost, k, ScanFloorsWith(size, cost, k, keys, None))
  {
    var lo := if keys == [] then 0 else keys[0];
    forall g, j | Fits(size, k, g, j)
      ensures !Earlier(g, j, lo, 0)
    {
      var t :| 0 <= t < |keys| && keys[t] == g;
    }
    ScanFloorsCorrect(size, cost, k, keys, None, lo);
  }
}
