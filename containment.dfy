/** Interval.__contains__ for numbers, components and intervals: a bisection of the endpoint
    list picks the one component that can hold the item, and that component decides. */
module Containment {
  import opened ExtReals
  import opened Components
  import opened Normalization
  import opened Bisect
  import opened Algebra

  /** Whatever a later component of a canonical list holds lies after every earlier component's sup. */
  lemma {:induction false} CanonicalBefore(cs: seq<Component>, k: nat, i: nat, x: Ext)
    requires Canonical(cs) && k < i < |cs| && Contains(cs[i], x)
    ensures Lt(cs[k].sup, x)
    decreases i - k
  {
    var a, b := cs[k], cs[k + 1];
    assert Separated(a, b);
    if i == k + 1 {
      LtLeTransitive(a.sup, b.inf, x);
    } else {
      CanonicalBefore(cs, k + 1, i, x);
      assert WellFormed(b);
      LtLeTransitive(b.inf, b.sup, x);
      LtLeTransitive(a.sup, b.inf, x);
    }
  }

  // ---------------------------------------------------------------------------------------
  // value in interval

  /** `value in interval`: idx = bisect_left(endpoints, value); the answer is no when idx runs off
      the end, and otherwise whether component idx // 2 holds the value. */
  predicate ValueIn(cs: seq<Component>, x: Ext) {
    var e := Endpoints(cs);
    var idx := BisectLeftOf(e, x);
    idx < |e| && Contains(cs[idx / 2], x)
  }

  /** A yes is always right: the value lies in the component that was consulted. */
  lemma ValueInSound(cs: seq<Component>, x: Ext)
    ensures ValueIn(cs, x) ==> Member(cs, x)
  {
    var e := Endpoints(cs);
    var idx := BisectLeftOf(e, x);
    if ValueIn(cs, x) {
      assert Contains(cs[idx / 2], x);
    }
  }

  /** On a canonical interval bisect_left lands in the slot pair of the component holding x. */
  lemma BisectLeftFindsComponent(cs: seq<Component>, i: nat, x: Ext)
    requires Canonical(cs) && i < |cs| && Contains(cs[i], x)
    ensures BisectLeftOf(Endpoints(cs), x) / 2 == i
  {
    var e := Endpoints(cs);
    CanonicalEndpointsSorted(cs);
    BisectLeftSorted(e, x);
    var idx := BisectLeftOf(e, x);
    assert e[2 * i + 1] == cs[i].sup;
    ContainsIff(cs[i], x);
    assert !Lt(e[2 * i + 1], x) by { LtIsStrictLe(e[2 * i + 1], x); }
    assert idx <= 2 * i + 1;
    if i > 0 {
      var k := i - 1;
      assert e[2 * k + 1] == cs[k].sup;
      CanonicalBefore(cs, k, i, x);
      LtIsStrictLe(e[2 * k + 1], x);
      assert idx >= 2 * k + 2;
    }
  }

  /** On a canonical interval the bisection finds the component that holds the value. */
  lemma ValueInComplete(cs: seq<Component>, i: nat, x: Ext)
    requires Canonical(cs) && i < |cs| && Contains(cs[i], x)
    ensures ValueIn(cs, x)
  {
    BisectLeftFindsComponent(cs, i, x);
  }

  /** For canonical intervals `value in interval` is exactly membership. */
  lemma ValueInIff(cs: seq<Component>, x: Ext)
    requires Canonical(cs)
    ensures ValueIn(cs, x) <==> Member(cs, x)
  {
    ValueInSound(cs, x);
    if Member(cs, x) {
      var i :| 0 <= i < |cs| && Contains(cs[i], x);
      ValueInComplete(cs, i, x);
    }
  }

  // ---------------------------------------------------------------------------------------
  // component in interval

  /** `component in interval`: bisect_left on inf and bisect_right on sup; no when either runs off
      the end or they are more than one apart; otherwise component inf_idx // 2 must hold both
      ends. */
  predicate ComponentIn(cs: seq<Component>, c: Component) {
    var e := Endpoints(cs);
    var n := |e|;
    var i, j := BisectLeftOf(e, c.inf), BisectRightOf(e, c.sup);
    if i >= n || j >= n || j - i > 1 then false
    else Contains(cs[i / 2], c.inf) && Contains(cs[i / 2], c.sup)
  }

  /** A yes is always right: every value of c lies in the interval. */
  lemma ComponentInSound(cs: seq<Component>, c: Component, v: Ext)
    requires ComponentIn(cs, c) && Contains(c, v)
    ensures Member(cs, v)
  {
    var e := Endpoints(cs);
    var k := BisectLeftOf(e, c.inf) / 2;
    ContainsIff(c, v);
    ContainsConvex(cs[k], c.inf, v, c.sup);
  }

  /** A component that ends strictly inside a component of a canonical interval, and starts in it,
      is found. */
  lemma ComponentInComplete(cs: seq<Component>, i: nat, c: Component)
    requires Canonical(cs) && WellFormed(c) && i < |cs|
    requires Contains(cs[i], c.inf) && Contains(cs[i], c.sup) && Lt(c.sup, cs[i].sup)
    ensures ComponentIn(cs, c)
  {
    BisectLeftFindsComponent(cs, i, c.inf);
    ContainsIff(cs[i], c.sup);
    BisectRightInside(cs, i, c.sup);
  }

  /** On a canonical interval bisect_right of a value in [inf, sup) of component i is 2 * i + 1. */
  lemma BisectRightInside(cs: seq<Component>, i: nat, y: Ext)
    requires Canonical(cs) && i < |cs| && Le(cs[i].inf, y) && Lt(y, cs[i].sup)
    ensures BisectRightOf(Endpoints(cs), y) == 2 * i + 1
  {
    var e := Endpoints(cs);
    CanonicalEndpointsSorted(cs);
    BisectRightSorted(e, y);
    assert e[2 * i] == cs[i].inf && e[2 * i + 1] == cs[i].sup;
  }

  /** A component reaching the interval's last endpoint is never found, even when the last
      component holds it. */
  lemma ComponentInAtEnd(cs: seq<Component>, c: Component)
    requires Canonical(cs) && cs != [] && Le(Last(cs).sup, c.sup)
    ensures !ComponentIn(cs, c)
  {
    var e := Endpoints(cs);
    CanonicalEndpointsSorted(cs);
    BisectRightSorted(e, c.sup);
    assert e[|e| - 1] == Last(cs).sup;
  }

  /** A component of a canonical interval, asked about with both of its own ends, is never found:
      bisect_left lands at or before its inf and bisect_right after its sup. */
  lemma ComponentInOwnEnds(cs: seq<Component>, i: nat, c: Component)
    requires Canonical(cs) && i < |cs| && c.inf == cs[i].inf && c.sup == cs[i].sup
    ensures !ComponentIn(cs, c)
  {
    var e := Endpoints(cs);
    CanonicalEndpointsSorted(cs);
    BisectLeftSorted(e, c.inf);
    BisectRightSorted(e, c.sup);
    assert e[2 * i] == c.inf && e[2 * i + 1] == c.sup;
  }

  // ---------------------------------------------------------------------------------------
  // interval in interval

  /** `other in interval`: every component of the other interval is in it. */
  predicate IntervalIn(cs: seq<Component>, ds: seq<Component>) {
    forall k :: 0 <= k < |ds| ==> ComponentIn(cs, ds[k])
  }

  /** A yes is always right: every value of the other interval lies in the interval. */
  lemma IntervalInSound(cs: seq<Component>, ds: seq<Component>, v: Ext)
    requires IntervalIn(cs, ds) && Member(ds, v)
    ensures Member(cs, v)
  {
    var k :| 0 <= k < |ds| && Contains(ds[k], v);
    ComponentInSound(cs, ds[k], v);
  }
}
