/** `generateCombinations` and the running-minimum loop that consumes its output:
    every k-element subsequence of a list, in lexicographic order of the chosen
    positions, and the first candidate of least cost. */
module Combinations {
  import opened Basics

  /** Every sequence of `s`, with `p` put in front. */
  function PrefixAll(p: seq<nat>, s: seq<seq<nat>>): (r: seq<seq<nat>>)
  {
    seq(|s|, j requires 0 <= j < |s| => p + s[j])
  }

  /** Reference enumeration: the k-element subsequences that keep `xs[0]`
      (in order), followed by those that skip it. */
  function Choose(xs: seq<nat>, k: nat): seq<seq<nat>>
    decreases |xs|
  {
    if k == 0 then [[]]
    else if xs == [] then []
    else PrefixAll([xs[0]], Choose(xs[1..], k - 1)) + Choose(xs[1..], k)
  }

  /** `backtrack(start, current)` of `generateCombinations`: emits `current` once it
      holds `k` elements, otherwise extends it by each `xs[i]` with `i >= start`.
      Everything it emits holds `k` elements and starts with `current`; started
      with more than `k`, it emits nothing. */
  function Backtrack(xs: seq<nat>, k: nat, start: nat, current: seq<nat>): (r: seq<seq<nat>>)
    requires start <= |xs|
    ensures |current| > k ==> r == []
    ensures |current| <= k ==> forall j :: 0 <= j < |r| ==> |r[j]| == k && r[j][..|current|] == current
    decreases |xs| - start, 1
  {
    if |current| == k then [current]
    else BacktrackFrom(xs, k, start, current)
  }

  /** The `for (let i = start; i < rooms.length; i++)` loop of `backtrack`. Below
      `k` elements everything it emits holds `k` and starts with `current`; at
      `k` or more it emits nothing. */
  function BacktrackFrom(xs: seq<nat>, k: nat, i: nat, current: seq<nat>): (r: seq<seq<nat>>)
    requires i <= |xs|
    ensures |current| >= k ==> r == []
    ensures |current| < k ==> forall j :: 0 <= j < |r| ==> |r[j]| == k && r[j][..|current|] == current
    decreases |xs| - i, 0
  {
    if i == |xs| then []
    else
      var taken := Backtrack(xs, k, i + 1, current + [xs[i]]);
      var skipped := BacktrackFrom(xs, k, i + 1, current);
      assert forall j :: 0 <= j < |taken| && |current| < k ==> taken[j][..|current|] == current by {
        forall j | 0 <= j < |taken| && |current| < k
          ensures taken[j][..|current|] == current
        {
          assert taken[j][..|current|] == taken[j][..|current| + 1][..|current|];
        }
      }
      taken + skipped
  }

  /** `generateCombinations(rooms, numRooms)`: every combination it emits holds
      `k` rooms. */
  function GenerateCombinations(xs: seq<nat>, k: nat): (r: seq<seq<nat>>)
    ensures forall j :: 0 <= j < |r| ==> |r[j]| == k
  {
    Backtrack(xs, k, 0, [])
  }

  lemma PrefixAllConcat(p: seq<nat>, a: seq<seq<nat>>, b: seq<seq<nat>>)
    ensures PrefixAll(p, a + b) == PrefixAll(p, a) + PrefixAll(p, b)
  {
  }

  lemma PrefixAllNested(p: seq<nat>, x: nat, s: seq<seq<nat>>)
    ensures PrefixAll(p, PrefixAll([x], s)) == PrefixAll(p + [x], s)
  {
    forall j | 0 <= j < |s|
      ensures PrefixAll(p, PrefixAll([x], s))[j] == PrefixAll(p + [x], s)[j]
    {
      assert p + ([x] + s[j]) == (p + [x]) + s[j];
    }
  }

  /** The backtracking generator emits exactly `current` followed by each
      combination `Choose` lists, in `Choose`'s order. */
  lemma {:induction false} BacktrackMatchesChoose(xs: seq<nat>, k: nat, start: nat, current: seq<nat>)
    requires start <= |xs|
    requires |current| <= k
    ensures Backtrack(xs, k, start, current) == PrefixAll(current, Choose(xs[start..], k - |current|))
    decreases |xs| - start, 1
  {
    if |current| == k {
      assert current + [] == current;
    } else {
      BacktrackFromMatchesChoose(xs, k, start, current);
    }
  }

  lemma {:induction false} BacktrackFromMatchesChoose(xs: seq<nat>, k: nat, i: nat, current: seq<nat>)
    requires i <= |xs|
    requires |current| < k
    ensures BacktrackFrom(xs, k, i, current) == PrefixAll(current, Choose(xs[i..], k - |current|))
    decreases |xs| - i, 0
  {
    var r := k - |current|;
    if i < |xs| {
      var rest := xs[i..];
      assert rest[0] == xs[i] && rest[1..] == xs[i + 1..];
      BacktrackMatchesChoose(xs, k, i + 1, current + [xs[i]]);
      BacktrackFromMatchesChoose(xs, k, i + 1, current);
      calc {
        PrefixAll(current, Choose(rest, r));
        PrefixAll(current, PrefixAll([xs[i]], Choose(xs[i + 1..], r - 1)) + Choose(xs[i + 1..], r));
        { PrefixAllConcat(current, PrefixAll([xs[i]], Choose(xs[i + 1..], r - 1)), Choose(xs[i + 1..], r)); }
        PrefixAll(current, PrefixAll([xs[i]], Choose(xs[i + 1..], r - 1))) + PrefixAll(current, Choose(xs[i + 1..], r));
        { PrefixAllNested(current, xs[i], Choose(xs[i + 1..], r - 1)); }
        PrefixAll(current + [xs[i]], Choose(xs[i + 1..], r - 1)) + PrefixAll(current, Choose(xs[i + 1..], r));
      }
    }
  }

  /** The generator and the reference enumeration agree. */
  lemma GenerateCombinationsIsChoose(xs: seq<nat>, k: nat)
    ensures GenerateCombinations(xs, k) == Choose(xs, k)
  {
    BacktrackMatchesChoose(xs, k, 0, []);
    assert xs[0..] == xs;
    forall j | 0 <= j < |Choose(xs, k)|
      ensures PrefixAll([], Choose(xs, k))[j] == Choose(xs, k)[j]
    {
      assert [] + Choose(xs, k)[j] == Choose(xs, k)[j];
    }
  }

  /** `c` picks `k` elements of `xs` in increasing order: a k-subset of `xs`
      written in ascending order. */
  ghost predicate IsCombination(xs: seq<nat>, k: nat, c: seq<nat>)
  {
    && |c| == k
    && StrictlyIncreasing(c)
    && forall t :: 0 <= t < |c| ==> c[t] in xs
  }

  /** Lexicographic order on sequences of indices. */
  predicate LexLess(a: seq<nat>, b: seq<nat>)
    decreases |a|
  {
    |a| > 0 && |b| > 0 && (a[0] < b[0] || (a[0] == b[0] && LexLess(a[1..], b[1..])))
  }

  lemma {:induction false} LexLessAsymmetric(a: seq<nat>, b: seq<nat>)
    ensures LexLess(a, b) ==> !LexLess(b, a)
    decreases |a|
  {
    if |a| > 0 && |b| > 0 && a[0] == b[0] {
      LexLessAsymmetric(a[1..], b[1..]);
    }
  }

  lemma {:induction false} ChooseSound(xs: seq<nat>, k: nat)
    requires StrictlyIncreasing(xs)
    ensures forall j :: 0 <= j < |Choose(xs, k)| ==> IsCombination(xs, k, Choose(xs, k)[j])
    decreases |xs|
  {
    if k > 0 && xs != [] {
      var tail := xs[1..];
      ChooseSound(tail, k - 1);
      ChooseSound(tail, k);
      var left := PrefixAll([xs[0]], Choose(tail, k - 1));
      forall j | 0 <= j < |left|
        ensures IsCombination(xs, k, left[j])
      {
        var c := Choose(tail, k - 1)[j];
        assert left[j] == [xs[0]] + c;
        forall t | 0 <= t < |c|
          ensures xs[0] < c[t]
        {
          var u :| 0 <= u < |tail| && tail[u] == c[t];
          assert xs[u + 1] == c[t];
        }
      }
      forall j | 0 <= j < |Choose(tail, k)|
        ensures IsCombination(xs, k, Choose(tail, k)[j])
      {
        var c := Choose(tail, k)[j];
        forall t | 0 <= t < |c|
          ensures c[t] in xs
        {
          var u :| 0 <= u < |tail| && tail[u] == c[t];
          assert xs[u + 1] == c[t];
        }
      }
    }
  }

  lemma {:induction false} ChooseComplete(xs: seq<nat>, k: nat, c: seq<nat>)
    requires StrictlyIncreasing(xs)
    requires IsCombination(xs, k, c)
    ensures c in Choose(xs, k)
    decreases |xs|
  {
    if k == 0 {
      assert c == [];
    } else {
      assert c[0] in xs;
      var tail := xs[1..];
      if c[0] == xs[0] {
        var rest := c[1..];
        forall t | 0 <= t < |rest|
          ensures rest[t] in tail
        {
          var u :| 0 <= u < |xs| && xs[u] == rest[t];
          assert u != 0;
          assert tail[u - 1] == rest[t];
        }
        ChooseComplete(tail, k - 1, rest);
        var j :| 0 <= j < |Choose(tail, k - 1)| && Choose(tail, k - 1)[j] == rest;
        assert PrefixAll([xs[0]], Choose(tail, k - 1))[j] == c;
      } else {
        forall t | 0 <= t < |c|
          ensures c[t] in tail
        {
          var u :| 0 <= u < |xs| && xs[u] == c[t];
          assert tail[u - 1] == c[t];
        }
        ChooseComplete(tail, k, c);
      }
    }
  }

  /** `Choose` lists its combinations in strictly increasing lexicographic order. */
  lemma {:induction false} ChooseOrdered(xs: seq<nat>, k: nat)
    requires StrictlyIncreasing(xs)
    ensures forall i, j :: 0 <= i < j < |Choose(xs, k)| ==> LexLess(Choose(xs, k)[i], Choose(xs, k)[j])
    decreases |xs|
  {
    if k > 0 && xs != [] {
      var tail := xs[1..];
      var keep := Choose(tail, k - 1);
      var left := PrefixAll([xs[0]], keep);
      var right := Choose(tail, k);
      ChooseOrdered(tail, k - 1);
      ChooseOrdered(tail, k);
      ChooseSound(tail, k);
      var all := left + right;
      forall i, j | 0 <= i < j < |all|
        ensures LexLess(all[i], all[j])
      {
        if j < |left| {
          assert all[i] == [xs[0]] + keep[i] && all[j] == [xs[0]] + keep[j];
          assert all[i][1..] == keep[i] && all[j][1..] == keep[j];
        } else if i < |left| {
          var c := right[j - |left|];
          assert IsCombination(tail, k, c);
          var u :| 0 <= u < |tail| && tail[u] == c[0];
          assert xs[u + 1] == c[0];
        } else {
          assert all[i] == right[i - |left|] && all[j] == right[j - |left|];
        }
      }
    }
  }

  /** The generator's output, in one statement: it lists every k-subset of an
      increasing `xs` exactly once, nothing else, in strictly increasing
      lexicographic order. */
  lemma GeneratedCombinations(xs: seq<nat>, k: nat)
    requires StrictlyIncreasing(xs)
    ensures forall j :: 0 <= j < |GenerateCombinations(xs, k)| ==> IsCombination(xs, k, GenerateCombinations(xs, k)[j])
    ensures forall c :: IsCombination(xs, k, c) ==> c in GenerateCombinations(xs, k)
    ensures forall i, j :: 0 <= i < j < |GenerateCombinations(xs, k)| ==>
      LexLess(GenerateCombinations(xs, k)[i], GenerateCombinations(xs, k)[j])
    ensures k <= |xs| ==> |GenerateCombinations(xs, k)| > 0
  {
    GenerateCombinationsIsChoose(xs, k);
    ChooseSound(xs, k);
    ChooseOrdered(xs, k);
    forall c | IsCombination(xs, k, c)
      ensures c in GenerateCombinations(xs, k)
    {
      ChooseComplete(xs, k, c);
    }
    if k <= |xs| {
      var c := xs[..k];
      assert IsCombination(xs, k, c);
      ChooseComplete(xs, k, c);
    }
  }

  /** The candidate a running minimum currently holds: where it is and its cost. */
  datatype Best = Best(index: nat, cost: int)

  /** The `for…of` loop with `if (travelTime < minTravelTime)`: a candidate replaces
      the held one only when strictly cheaper; `None` is the initial `Infinity`. */
  function FirstMinFrom<T>(cands: seq<T>, cost: T -> int, i: nat, best: Option<Best>): Option<Best>
    requires i <= |cands|
    decreases |cands| - i
  {
    if i == |cands| then best
    else
      var t := cost(cands[i]);
      FirstMinFrom(cands, cost, i + 1, if best.None? || t < best.value.cost then Some(Best(i, t)) else best)
  }

  /** `best` is the first candidate of least cost among `cands[..n]`. */
  ghost predicate FirstMinOf<T>(cands: seq<T>, cost: T -> int, n: nat, best: Option<Best>)
    requires n <= |cands|
  {
    match best
    case None => n == 0
    case Some(b) =>
      && b.index < n
      && b.cost == cost(cands[b.index])
      && (forall j :: 0 <= j < n ==> b.cost <= cost(cands[j]))
      && (forall j :: 0 <= j < b.index ==> b.cost < cost(cands[j]))
  }

  lemma {:induction false} FirstMinFromCorrect<T>(cands: seq<T>, cost: T -> int, i: nat, best: Option<Best>)
    requires i <= |cands|
    requires FirstMinOf(cands, cost, i, best)
    ensures FirstMinOf(cands, cost, |cands|, FirstMinFrom(cands, cost, i, best))
    decreases |cands| - i
  {
    if i < |cands| {
      var t := cost(cands[i]);
      var next := if best.None? || t < best.value.cost then Some(Best(i, t)) else best;
      assert FirstMinOf(cands, cost, i + 1, next);
      FirstMinFromCorrect(cands, cost, i + 1, next);
    }
  }

  /** The running minimum over all candidates: nothing for an empty list,
      otherwise a cheapest candidate, and every earlier candidate is strictly
      dearer (the strict `<` keeps the first of equal-cost candidates). */
  function FirstMin<T>(cands: seq<T>, cost: T -> int): (r: Option<Best>)
    ensures r.None? <==> |cands| == 0
    ensures r.Some? ==>
      && r.value.index < |cands|
      && r.value.cost == cost(cands[r.value.index])
      && (forall j :: 0 <= j < |cands| ==> r.value.cost <= cost(cands[j]))
      && (forall j :: 0 <= j < r.value.index ==> r.value.cost < cost(cands[j]))
  {
    FirstMinFromCorrect(cands, cost, 0, None);
    FirstMinFrom(cands, cost, 0, None)
  }

  /** The first cheapest combination: over the generator's output, the running
      minimum picks a k-subset of `xs` that costs no more than any other, and
      every k-subset lexicographically before it costs strictly more. */
  lemma FirstCheapestCombination(xs: seq<nat>, k: nat, cost: seq<nat> -> int)
    requires StrictlyIncreasing(xs)
    requires k <= |xs|
    ensures var combos := GenerateCombinations(xs, k);
      var b := FirstMin(combos, cost);
      && b.Some?
      && IsCombination(xs, k, combos[b.value.index])
      && (forall d :: IsCombination(xs, k, d) ==> cost(combos[b.value.index]) <= cost(d))
      && (forall d :: IsCombination(xs, k, d) && LexLess(d, combos[b.value.index]) ==>
            cost(combos[b.value.index]) < cost(d))
  {
    var combos := GenerateCombinations(xs, k);
    GeneratedCombinations(xs, k);
    var b := FirstMin(combos, cost);
    var m := b.value.index;
    forall d | IsCombination(xs, k, d)
      ensures cost(combos[m]) <= cost(d)
      ensures LexLess(d, combos[m]) ==> cost(combos[m]) < cost(d)
    {
      var j :| 0 <= j < |combos| && combos[j] == d;
      if LexLess(d, combos[m]) {
        if m < j {
          LexLessAsymmetric(combos[m], combos[j]);
        } else if m == j {
          LexLessAsymmetric(d, d);
        }
      }
    }
  }
}
