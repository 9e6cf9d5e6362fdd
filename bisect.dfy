/** bisect_left and bisect_right from Python's bisect module. Interval.__contains__ runs them on
    the endpoint list, which is sorted for canonical intervals but not for every interval the
    constructor can build, so the binary search itself is modelled, not only its sorted-case result. */
module Bisect {
  import opened ExtReals

  /** How many elements of xs are below x. */
  function CountLess(xs: seq<Ext>, x: Ext): (r: nat)
    ensures r <= |xs|
  {
    if xs == [] then 0 else (if Lt(xs[0], x) then 1 else 0) + CountLess(xs[1..], x)
  }

  /** How many elements of xs are at most x. */
  function CountAtMost(xs: seq<Ext>, x: Ext): (r: nat)
    ensures r <= |xs|
  {
    if xs == [] then 0 else (if Le(xs[0], x) then 1 else 0) + CountAtMost(xs[1..], x)
  }

  /** In a list split by a predicate into a true prefix and a false suffix, the count of the
      prefix is the split point; instantiated below for < x and for <= x. */
  lemma {:induction false} CountLessAtSplit(xs: seq<Ext>, x: Ext, k: nat)
    requires k <= |xs|
    requires forall i :: 0 <= i < k ==> Lt(xs[i], x)
    requires forall i :: k <= i < |xs| ==> !Lt(xs[i], x)
    ensures CountLess(xs, x) == k
  {
    if xs != [] {
      CountLessAtSplit(xs[1..], x, if k == 0 then 0 else k - 1);
    }
  }

  lemma {:induction false} CountAtMostAtSplit(xs: seq<Ext>, x: Ext, k: nat)
    requires k <= |xs|
    requires forall i :: 0 <= i < k ==> Le(xs[i], x)
    requires forall i :: k <= i < |xs| ==> !Le(xs[i], x)
    ensures CountAtMost(xs, x) == k
  {
    if xs != [] {
      CountAtMostAtSplit(xs[1..], x, if k == 0 then 0 else k - 1);
    }
  }

  // ---------------------------------------------------------------------------------------
  // bisect_left

  /** The search of bisect_left narrowed to a[lo..hi]: halve until the window is empty, moving
      right past an element below x and left otherwise. */
  function SearchLeft(a: seq<Ext>, x: Ext, lo: nat, hi: nat): (r: nat)
    requires lo <= hi <= |a|
    ensures lo <= r <= hi
    decreases hi - lo
  {
    if lo == hi then lo
    else
      var mid := (lo + hi) / 2;
      if Lt(a[mid], x) then SearchLeft(a, x, mid + 1, hi) else SearchLeft(a, x, lo, mid)
  }

  function BisectLeftOf(a: seq<Ext>, x: Ext): nat {
    SearchLeft(a, x, 0, |a|)
  }

  lemma {:induction false} SearchLeftSorted(a: seq<Ext>, x: Ext, lo: nat, hi: nat)
    requires Sorted(a) && lo <= hi <= |a|
    requires forall i :: 0 <= i < lo ==> Lt(a[i], x)
    requires forall i :: hi <= i < |a| ==> Le(x, a[i])
    ensures SearchLeft(a, x, lo, hi) == CountLess(a, x)
    ensures forall i :: 0 <= i < SearchLeft(a, x, lo, hi) ==> Lt(a[i], x)
    ensures forall i :: SearchLeft(a, x, lo, hi) <= i < |a| ==> Le(x, a[i])
    decreases hi - lo
  {
    if lo == hi {
      CountLessFound(a, x, lo);
    } else {
      var mid := (lo + hi) / 2;
      if Lt(a[mid], x) {
        BelowUpTo(a, x, mid);
        assert SearchLeft(a, x, lo, hi) == SearchLeft(a, x, mid + 1, hi);
        SearchLeftSorted(a, x, mid + 1, hi);
      } else {
        AtLeastFrom(a, x, mid);
        assert SearchLeft(a, x, lo, hi) == SearchLeft(a, x, lo, mid);
        SearchLeftSorted(a, x, lo, mid);
      }
    }
  }

  /** When the window of bisect_left is empty its position is the count of elements below x. */
  lemma CountLessFound(a: seq<Ext>, x: Ext, k: nat)
    requires k <= |a|
    requires forall i :: 0 <= i < k ==> Lt(a[i], x)
    requires forall i :: k <= i < |a| ==> Le(x, a[i])
    ensures CountLess(a, x) == k
  {
    forall i | k <= i < |a| ensures !Lt(a[i], x) {
      LtIsStrictLe(a[i], x);
    }
    CountLessAtSplit(a, x, k);
  }

  /** In a sorted list everything up to an element below x is below x. */
  lemma BelowUpTo(a: seq<Ext>, x: Ext, m: nat)
    requires Sorted(a) && m < |a| && Lt(a[m], x)
    ensures forall i :: 0 <= i <= m ==> Lt(a[i], x)
  {
    forall i | 0 <= i <= m ensures Lt(a[i], x) {
      LtLeTransitive(a[i], a[m], x);
    }
  }

  /** In a sorted list everything from an element at least x on is at least x. */
  lemma AtLeastFrom(a: seq<Ext>, x: Ext, m: nat)
    requires Sorted(a) && m < |a| && Le(x, a[m])
    ensures forall i :: m <= i < |a| ==> Le(x, a[i])
  {
    forall i | m <= i < |a| ensures Le(x, a[i]) {
      LeTransitive(x, a[m], a[i]);
    }
  }

  /** On a sorted list bisect_left is the number of elements below x: everything before it is
      below x and nothing from it on is. */
  lemma BisectLeftSorted(a: seq<Ext>, x: Ext)
    requires Sorted(a)
    ensures BisectLeftOf(a, x) == CountLess(a, x)
    ensures forall i :: 0 <= i < BisectLeftOf(a, x) ==> Lt(a[i], x)
    ensures forall i :: BisectLeftOf(a, x) <= i < |a| ==> Le(x, a[i])
  {
    SearchLeftSorted(a, x, 0, |a|);
  }

  /** bisect_left(a, x). */
  method BisectLeft(a: seq<Ext>, x: Ext) returns (lo: nat)
    ensures lo <= |a|
    ensures lo == BisectLeftOf(a, x)
  {
    lo := 0;
    var hi := |a|;
    while lo < hi
      invariant 0 <= lo <= hi <= |a|
      invariant SearchLeft(a, x, lo, hi) == BisectLeftOf(a, x)
      decreases hi - lo
    {
      var mid := (lo + hi) / 2;
      if Lt(a[mid], x) {
        lo := mid + 1;
      } else {
        hi := mid;
      }
    }
  }

  // ---------------------------------------------------------------------------------------
  // bisect_right

  /** The search of bisect_right narrowed to a[lo..hi]: move left past an element above x and
      right otherwise. */
  function SearchRight(a: seq<Ext>, x: Ext, lo: nat, hi: nat): (r: nat)
    requires lo <= hi <= |a|
    ensures lo <= r <= hi
    decreases hi - lo
  {
    if lo == hi then lo
    else
      var mid := (lo + hi) / 2;
      if Lt(x, a[mid]) then SearchRight(a, x, lo, mid) else SearchRight(a, x, mid + 1, hi)
  }

  function BisectRightOf(a: seq<Ext>, x: Ext): nat {
    SearchRight(a, x, 0, |a|)
  }

  lemma {:induction false} SearchRightSorted(a: seq<Ext>, x: Ext, lo: nat, hi: nat)
    requires Sorted(a) && lo <= hi <= |a|
    requires forall i :: 0 <= i < lo ==> Le(a[i], x)
    requires forall i :: hi <= i < |a| ==> Lt(x, a[i])
    ensures SearchRight(a, x, lo, hi) == CountAtMost(a, x)
    ensures forall i :: 0 <= i < SearchRight(a, x, lo, hi) ==> Le(a[i], x)
    ensures forall i :: SearchRight(a, x, lo, hi) <= i < |a| ==> Lt(x, a[i])
    decreases hi - lo
  {
    if lo == hi {
      CountAtMostFound(a, x, lo);
    } else {
      var mid := (lo + hi) / 2;
      if Lt(x, a[mid]) {
        AboveFrom(a, x, mid);
        assert SearchRight(a, x, lo, hi) == SearchRight(a, x, lo, mid);
        SearchRightSorted(a, x, lo, mid);
      } else {
        AtMostUpTo(a, x, mid);
        assert SearchRight(a, x, lo, hi) == SearchRight(a, x, mid + 1, hi);
        SearchRightSorted(a, x, mid + 1, hi);
      }
    }
  }

  /** When the window of bisect_right is empty its position is the count of elements at most x. */
  lemma CountAtMostFound(a: seq<Ext>, x: Ext, k: nat)
    requires k <= |a|
    requires forall i :: 0 <= i < k ==> Le(a[i], x)
    requires forall i :: k <= i < |a| ==> Lt(x, a[i])
    ensures CountAtMost(a, x) == k
  {
    forall i | k <= i < |a| ensures !Le(a[i], x) {
      LtIsStrictLe(x, a[i]);
    }
    CountAtMostAtSplit(a, x, k);
  }

  /** In a sorted list everything from an element above x on is above x. */
  lemma AboveFrom(a: seq<Ext>, x: Ext, m: nat)
    requires Sorted(a) && m < |a| && Lt(x, a[m])
    ensures forall i :: m <= i < |a| ==> Lt(x, a[i])
  {
    forall i | m <= i < |a| ensures Lt(x, a[i]) {
      LtLeTransitive(x, a[m], a[i]);
    }
  }

  /** In a sorted list everything up to an element at most x is at most x. */
  lemma AtMostUpTo(a: seq<Ext>, x: Ext, m: nat)
    requires Sorted(a) && m < |a| && Le(a[m], x)
    ensures forall i :: 0 <= i <= m ==> Le(a[i], x)
  {
    forall i | 0 <= i <= m ensures Le(a[i], x) {
      LeTransitive(a[i], a[m], x);
    }
  }

  /** On a sorted list bisect_right is the number of elements at most x: everything before it is
      at most x and everything from it on is above x. */
  lemma BisectRightSorted(a: seq<Ext>, x: Ext)
    requires Sorted(a)
    ensures BisectRightOf(a, x) == CountAtMost(a, x)
    ensures forall i :: 0 <= i < BisectRightOf(a, x) ==> Le(a[i], x)
    ensures forall i :: BisectRightOf(a, x) <= i < |a| ==> Lt(x, a[i])
  {
    SearchRightSorted(a, x, 0, |a|);
  }

  /** bisect_right(a, x). */
  method BisectRight(a: seq<Ext>, x: Ext) returns (lo: nat)
    ensures lo <= |a|
    ensures lo == BisectRightOf(a, x)
  {
    lo := 0;
    var hi := |a|;
    while lo < hi
      invariant 0 <= lo <= hi <= |a|
      invariant SearchRight(a, x, lo, hi) == BisectRightOf(a, x)
      decreases hi - lo
    {
      var mid := (lo + hi) / 2;
      if Lt(x, a[mid]) {
        hi := mid;
      } else {
        lo := mid + 1;
      }
    }
  }
}
