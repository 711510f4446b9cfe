/** The two `Array.prototype.sort` calls of the allocator, on room indices: by
    position within a floor, and by floor then position across floors. The
    comparators are consistent, and the engine's sort is stable (section 23.1.3.30
    of ECMA-262), so its result is the one a stable insertion sort produces:
    sorted, a permutation of its input, and keeping tied entries in input order. */
module Sorting {
  import opened Basics
  import opened Rooms

  /** Which comparator is in use. */
  datatype Order = ByPosition | ByFloorThenPosition

  /** The comparator returns a negative number: `a` is placed before `b`. */
  predicate Before(o: Order, a: Room, b: Room)
  {
    match o
    case ByPosition => a.position < b.position
    case ByFloorThenPosition => PlacedBefore(a, b)
  }

  /** Every index in `s` names a room. */
  predicate InRange(rooms: seq<Room>, s: seq<nat>)
  {
    forall t :: 0 <= t < |s| ==> s[t] < |rooms|
  }

  /** No room of `s` should come before an earlier one. */
  ghost predicate SortedBy(rooms: seq<Room>, o: Order, s: seq<nat>)
    requires InRange(rooms, s)
  {
    forall i, j :: 0 <= i < j < |s| ==> !Before(o, rooms[s[j]], rooms[s[i]])
  }

  /** Inserts `x` after every element it does not strictly precede. */
  function Insert(rooms: seq<Room>, o: Order, x: nat, t: seq<nat>): (r: seq<nat>)
    requires x < |rooms| && InRange(rooms, t)
    ensures |r| == |t| + 1
    ensures forall y :: y in r <==> y == x || y in t
    ensures InRange(rooms, r)
  {
    if t == [] then [x]
    else if Before(o, rooms[x], rooms[t[0]]) then [x] + t
    else
      assert t == [t[0]] + t[1..];
      [t[0]] + Insert(rooms, o, x, t[1..])
  }

  lemma {:induction false} InsertSorted(rooms: seq<Room>, o: Order, x: nat, t: seq<nat>)
    requires x < |rooms| && InRange(rooms, t)
    requires SortedBy(rooms, o, t)
    ensures SortedBy(rooms, o, Insert(rooms, o, x, t))
  {
    if t != [] && !Before(o, rooms[x], rooms[t[0]]) {
      InsertSorted(rooms, o, x, t[1..]);
      var rest := Insert(rooms, o, x, t[1..]);
      var r := [t[0]] + rest;
      forall i, j | 0 <= i < j < |r|
        ensures !Before(o, rooms[r[j]], rooms[r[i]])
      {
        if i == 0 {
          assert r[j] in rest;
          if r[j] != x {
            var u :| 0 <= u < |t[1..]| && t[1..][u] == r[j];
            assert t[u + 1] == r[j];
          }
        }
      }
    }
  }

  lemma {:induction false} InsertPermutes(rooms: seq<Room>, o: Order, x: nat, t: seq<nat>)
    requires x < |rooms| && InRange(rooms, t)
    ensures multiset(Insert(rooms, o, x, t)) == multiset(t) + multiset{x}
  {
    if t != [] && !Before(o, rooms[x], rooms[t[0]]) {
      InsertPermutes(rooms, o, x, t[1..]);
      assert t == [t[0]] + t[1..];
    }
  }

  lemma {:induction false} InsertAtEnd(rooms: seq<Room>, o: Order, x: nat, t: seq<nat>)
    requires x < |rooms| && InRange(rooms, t)
    requires forall u :: 0 <= u < |t| ==> !Before(o, rooms[x], rooms[t[u]])
    ensures Insert(rooms, o, x, t) == t + [x]
  {
    if t != [] {
      InsertAtEnd(rooms, o, x, t[1..]);
      assert t == [t[0]] + t[1..];
    }
  }

  lemma {:induction false} InsertDistinct(rooms: seq<Room>, o: Order, x: nat, t: seq<nat>)
    requires x < |rooms| && InRange(rooms, t)
    requires Distinct(t) && x !in t
    ensures Distinct(Insert(rooms, o, x, t))
  {
    if t != [] && !Before(o, rooms[x], rooms[t[0]]) {
      InsertDistinct(rooms, o, x, t[1..]);
      assert t[0] !in t[1..];
    }
  }

  /** A stable insertion sort of room indices. */
  function SortIndices(rooms: seq<Room>, o: Order, s: seq<nat>): (r: seq<nat>)
    requires InRange(rooms, s)
    ensures |r| == |s|
    ensures forall y {:trigger y in r} :: y in r <==> y in s
    ensures InRange(rooms, r)
  {
    if s == [] then []
    else
      var init := s[..|s| - 1];
      assert s == init + [s[|s| - 1]];
      Insert(rooms, o, s[|s| - 1], SortIndices(rooms, o, init))
  }

  /** The result of the sort is sorted, is the input itself when the input is
      already sorted, and has no duplicates when the input has none. */
  lemma {:induction false} SortIndicesCorrect(rooms: seq<Room>, o: Order, s: seq<nat>)
    requires InRange(rooms, s)
    ensures SortedBy(rooms, o, SortIndices(rooms, o, s))
    ensures SortedBy(rooms, o, s) ==> SortIndices(rooms, o, s) == s
    ensures Distinct(s) ==> Distinct(SortIndices(rooms, o, s))
  {
    if s != [] {
      var init := s[..|s| - 1];
      var x := s[|s| - 1];
      assert s == init + [x];
      SortIndicesCorrect(rooms, o, init);
      var sortedInit := SortIndices(rooms, o, init);
      InsertSorted(rooms, o, x, sortedInit);
      if SortedBy(rooms, o, s) {
        assert SortedBy(rooms, o, init);
        assert sortedInit == init;
        InsertAtEnd(rooms, o, x, init);
      }
      if Distinct(s) {
        assert x !in init;
        InsertDistinct(rooms, o, x, sortedInit);
      }
    }
  }

  /** The result of the sort is a permutation of the input. */
  lemma {:induction false} SortIndicesPermutes(rooms: seq<Room>, o: Order, s: seq<nat>)
    requires InRange(rooms, s)
    ensures multiset(SortIndices(rooms, o, s)) == multiset(s)
  {
    if s != [] {
      var init := s[..|s| - 1];
      assert s == init + [s[|s| - 1]];
      SortIndicesPermutes(rooms, o, init);
      InsertPermutes(rooms, o, s[|s| - 1], SortIndices(rooms, o, init));
    }
  }

  /** The comparator puts neither room before the other. */
  predicate Tied(o: Order, a: Room, b: Room)
  {
    !Before(o, a, b) && !Before(o, b, a)
  }

  /** Both comparators order by a key: "before" passes through "not after", and
      ties are transitive. */
  lemma OrderIsWeak(o: Order, a: Room, b: Room, c: Room)
    ensures Before(o, a, b) && !Before(o, c, b) ==> Before(o, a, c)
    ensures Tied(o, a, c) && Tied(o, b, c) ==> Tied(o, a, b)
  {
  }

  /** The entries of `s` whose rooms tie with room `y`, in their order in `s`. */
  function TiedWith(rooms: seq<Room>, o: Order, s: seq<nat>, y: Room): seq<nat>
    requires InRange(rooms, s)
  {
    if s == [] then []
    else (if Tied(o, rooms[s[0]], y) then [s[0]] else []) + TiedWith(rooms, o, s[1..], y)
  }

  lemma {:induction false} TiedWithAppend(rooms: seq<Room>, o: Order, a: seq<nat>, b: seq<nat>, y: Room)
    requires InRange(rooms, a) && InRange(rooms, b)
    ensures InRange(rooms, a + b)
    ensures TiedWith(rooms, o, a + b, y) == TiedWith(rooms, o, a, y) + TiedWith(rooms, o, b, y)
  {
    if a != [] {
      assert (a + b)[1..] == a[1..] + b;
      TiedWithAppend(rooms, o, a[1..], b, y);
    } else {
      assert a + b == b;
    }
  }

  lemma {:induction false} TiedWithNone(rooms: seq<Room>, o: Order, t: seq<nat>, y: Room)
    requires InRange(rooms, t)
    requires forall u :: 0 <= u < |t| ==> !Tied(o, rooms[t[u]], y)
    ensures TiedWith(rooms, o, t, y) == []
  {
    if t != [] {
      TiedWithNone(rooms, o, t[1..], y);
    }
  }

  /** Inserting `x` into a sorted list puts it after every entry it ties with. */
  lemma {:induction false} InsertKeepsTies(rooms: seq<Room>, o: Order, x: nat, t: seq<nat>, y: Room)
    requires x < |rooms| && InRange(rooms, t)
    requires SortedBy(rooms, o, t)
    ensures TiedWith(rooms, o, Insert(rooms, o, x, t), y)
      == TiedWith(rooms, o, t, y) + (if Tied(o, rooms[x], y) then [x] else [])
  {
    if t == [] {
    } else if Before(o, rooms[x], rooms[t[0]]) {
      TiedWithAppend(rooms, o, [x], t, y);
      if Tied(o, rooms[x], y) {
        forall u | 0 <= u < |t|
          ensures !Tied(o, rooms[t[u]], y)
        {
          if u > 0 {
            OrderIsWeak(o, rooms[x], rooms[t[0]], rooms[t[u]]);
          }
          OrderIsWeak(o, rooms[x], rooms[t[u]], y);
        }
        TiedWithNone(rooms, o, t, y);
      }
    } else {
      var rest := Insert(rooms, o, x, t[1..]);
      InsertKeepsTies(rooms, o, x, t[1..], y);
      assert ([t[0]] + rest)[1..] == rest;
    }
  }

  /** The sort is stable: for every room `y`, the entries tying with `y` come out
      in the order they went in. */
  lemma {:induction false} SortIndicesStable(rooms: seq<Room>, o: Order, s: seq<nat>, y: Room)
    requires InRange(rooms, s)
    ensures TiedWith(rooms, o, SortIndices(rooms, o, s), y) == TiedWith(rooms, o, s, y)
  {
    if s != [] {
      var init := s[..|s| - 1];
      var x := s[|s| - 1];
      assert s == init + [x];
      SortIndicesStable(rooms, o, init, y);
      SortIndicesCorrect(rooms, o, init);
      InsertKeepsTies(rooms, o, x, SortIndices(rooms, o, init), y);
      TiedWithAppend(rooms, o, init, [x], y);
    }
  }
}
