// Finite sets of integers and their sizes.
module Sets {

  /** The integers from lo up to, not including, hi. */
  function Range(lo: int, hi: int): (r: set<int>)
    ensures forall n :: n in r <==> lo <= n < hi
    ensures |r| == if lo < hi then hi - lo else 0
    decreases hi - lo
  {
    if lo >= hi then {} else Range(lo, hi - 1) + {hi - 1}
  }

  lemma {:induction false} SubsetSize<T>(x: set<T>, y: set<T>)
    requires x <= y
    ensures |x| <= |y|
    ensures |x| == |y| ==> x == y
    decreases |x|
  {
    if x == {} {
      assert |y| == 0 ==> y == {};
    } else {
      var e :| e in x;
      SubsetSize(x - {e}, y - {e});
      assert x == (x - {e}) + {e} && y == (y - {e}) + {e};
    }
  }

  lemma DisjointSize<T>(x: set<T>, y: set<T>)
    requires x !! y
    ensures |x + y| == |x| + |y|
  {
    assert x * y == {};
  }

  ghost function ToSet<T>(s: seq<T>): set<T> {
    set x | x in s
  }

  ghost predicate Distinct<T>(s: seq<T>) {
    forall i, j | 0 <= i < j < |s| :: s[i] != s[j]
  }

  lemma {:induction false} DistinctSize<T>(s: seq<T>)
    requires Distinct(s)
    ensures |ToSet(s)| == |s|
  {
    if s != [] {
      var init, last := s[..|s| - 1], s[|s| - 1];
      DistinctSize(init);
      assert ToSet(s) == ToSet(init) + {last};
      assert last !in ToSet(init);
    }
  }
}
