/** Small vocabulary shared by every module of the hotel model: an optional value,
    absolute value, and facts about duplicate-free and increasing sequences. */
module Basics {

  /** A value that may be missing; `None` stands for JavaScript's `null` and, for a
      running minimum, for its `Infinity` starting value. */
  datatype Option<T> = None | Some(value: T)

  function Abs(x: int): nat
  {
    if x < 0 then -x else x
  }

  /** Every later element is larger than every earlier one. */
  ghost predicate StrictlyIncreasing(s: seq<int>)
  {
    forall i, j :: 0 <= i < j < |s| ==> s[i] < s[j]
  }

  /** No element occurs twice. */
  ghost predicate Distinct<T>(s: seq<T>)
  {
    forall i, j :: 0 <= i < j < |s| ==> s[i] != s[j]
  }

  lemma IncreasingIsDistinct(s: seq<int>)
    requires StrictlyIncreasing(s)
    ensures Distinct(s)
  {
  }

  /** A duplicate-free sequence has exactly as many elements as its set. */
  lemma {:induction false} DistinctCardinality<T>(s: seq<T>)
    requires Distinct(s)
    ensures |set x | x in s| == |s|
  {
    if s != [] {
      var init := s[..|s| - 1];
      assert Distinct(init);
      DistinctCardinality(init);
      assert (set x | x in s) == (set x | x in init) + {s[|s| - 1]};
      assert s[|s| - 1] !in (set x | x in init);
    }
  }

  /** The set of a sequence is never larger than the sequence. */
  lemma {:induction false} SetOfSeqBound<T>(s: seq<T>)
    ensures |set x | x in s| <= |s|
  {
    if s != [] {
      var init := s[..|s| - 1];
      SetOfSeqBound(init);
      assert (set x | x in s) == (set x | x in init) + {s[|s| - 1]};
    }
  }

  /** Removing a subset takes off exactly its size. */
  lemma RemoveSubsetCardinality<T>(a: set<T>, s: set<T>)
    requires s <= a
    ensures |a - s| == |a| - |s|
  {
    assert a == (a - s) + s;
    assert (a - s) * s == {};
  }

  lemma SubsetCardinality<T>(a: set<T>, b: set<T>)
    requires a <= b
    ensures |a| <= |b|
  {
    assert b == a + (b - a);
    assert a * (b - a) == {};
  }

  /** A duplicate-free sequence whose elements all occur in `t` is no longer than `t`. */
  lemma DistinctSubsetLength<T>(s: seq<T>, t: seq<T>)
    requires Distinct(s)
    requires forall x :: x in s ==> x in t
    ensures |s| <= |t|
  {
    DistinctCardinality(s);
    SetOfSeqBound(t);
    SubsetCardinality(set x | x in s, set x | x in t);
  }

  /** In a strictly increasing sequence of integers the last element is at least
      `|s| - 1` above the first. */
  lemma {:induction false} IncreasingSpread(s: seq<int>)
    requires StrictlyIncreasing(s)
    requires |s| > 0
    ensures s[|s| - 1] >= s[0] + |s| - 1
  {
    if |s| > 1 {
      IncreasingSpread(s[..|s| - 1]);
      assert s[|s| - 2] < s[|s| - 1];
    }
  }
}
