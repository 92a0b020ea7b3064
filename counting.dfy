/** Cardinality facts about finite sets and sequences that the Sudoku
    properties rest on (pigeonhole arguments). */
module Counting {
  /** A subset is no larger than its superset. */
  lemma {:induction false} SubsetCard<T>(a: set<T>, b: set<T>)
    requires a <= b
    ensures |a| <= |b|
    decreases |a|
  {
    if a != {} {
      var x :| x in a;
      SubsetCard(a - {x}, b - {x});
    }
  }

  /** A sequence has at most as many distinct elements as it has positions. */
  lemma {:induction false} SeqSetCard<T>(s: seq<T>)
    ensures |set x | x in s| <= |s|
  {
    if s != [] {
      var init := s[..|s| - 1];
      SeqSetCard(init);
      assert (set x | x in s) == (set x | x in init) + {s[|s| - 1]} by {
        assert s == init + [s[|s| - 1]];
      }
    }
  }

  /** A sequence without repeats has as many distinct elements as positions. */
  lemma {:induction false} DistinctSeqSetCard<T>(s: seq<T>)
    requires forall k, l | 0 <= k < l < |s| :: s[k] != s[l]
    ensures |set x | x in s| == |s|
  {
    if s != [] {
      var init := s[..|s| - 1];
      DistinctSeqSetCard(init);
      assert s == init + [s[|s| - 1]];
      assert (set x | x in s) == (set x | x in init) + {s[|s| - 1]};
      assert s[|s| - 1] !in init;
    }
  }

  predicate Distinct(s: seq<int>) {
    forall k, l | 0 <= k < l < |s| :: s[k] != s[l]
  }

  /** A sequence of distinct elements drawn from `S` is no longer than `S`. */
  lemma {:induction false} DistinctSeqCard(s: seq<int>, S: set<int>)
    requires Distinct(s)
    requires forall k | 0 <= k < |s| :: s[k] in S
    ensures |s| <= |S|
  {
    if s != [] {
      var rest := s[1..];
      assert forall k | 0 <= k < |rest| :: rest[k] == s[k + 1];
      DistinctSeqCard(rest, S - {s[0]});
    }
  }

  /** The integer interval [lo, hi) as a set. */
  function Interval(lo: int, hi: int): (r: set<int>)
    ensures forall x :: x in r <==> lo <= x < hi
    decreases hi - lo
  {
    if lo >= hi then {} else Interval(lo, hi - 1) + {hi - 1}
  }

  /** The interval [lo, hi) has hi - lo elements. */
  lemma {:induction false} IntervalCard(lo: int, hi: int)
    requires lo <= hi
    ensures |Interval(lo, hi)| == hi - lo
    decreases hi - lo
  {
    if lo < hi {
      IntervalCard(lo, hi - 1);
    }
  }

  /** Nine distinct digits in 1..9 cover every digit (pigeonhole). */
  lemma NineDistinctDigitsCover(s: seq<int>, d: int)
    requires |s| == 9 && Distinct(s)
    requires forall k | 0 <= k < 9 :: 1 <= s[k] <= 9
    requires 1 <= d <= 9
    ensures d in s
  {
    if d !in s {
      var others := Interval(1, 10) - {d};
      IntervalCard(1, 10);
      assert |others| == 8;
      forall k | 0 <= k < 9 ensures s[k] in others {
        assert s[k] in Interval(1, 10) && s[k] != d;
      }
      DistinctSeqCard(s, others);
      assert false;
    }
  }
}
