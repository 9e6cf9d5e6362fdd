/** The Interval class: a list of components and its cached endpoint list, built by the
    normalising constructor or stored as given by _from_valid_values, and the operations that
    read an interval and build new ones. */
module Intervals {
  import opened Errors
  import opened ExtReals
  import opened ComponentTypes
  import opened Components
  import opened Normalization
  import opened Bisect
  import opened Algebra
  import opened Containment
  import opened Queries

  class Interval {
    var comps: seq<Component>
    var endpoints: seq<Ext>

    /** The endpoint cache agrees with the components. */
    ghost predicate Valid()
      reads this
    {
      endpoints == Endpoints(comps)
    }

    /** cls() with no arguments: the empty interval. */
    constructor Empty()
      ensures Valid() && comps == []
    {
      comps := [];
      endpoints := [];
    }

    /** Interval(*cs) for components that are already built: sort by (inf, sup), scan neighbours
        (the last one paired with itself) into runs of continuous components, and merge each run
        from its first member to the first member with the largest sup. */
    constructor FromComponents(cs: seq<Component>)
      requires Mergeable(cs)
      ensures Valid() && comps == Normalize(cs)
    {
      var s := Sort(cs);
      if |s| <= 1 {
        comps := s;
        endpoints := Endpoints(s);
      } else {
        var partition := ScanRuns(s);
        PartitionEnds(s, |s|);
        var merged := MergeRuns(partition);
        comps := merged;
        endpoints := Endpoints(merged);
      }
    }

    /** Stores the components as given, with their endpoint list, as _from_valid_values does. */
    static method Store(cs: seq<Component>) returns (r: Interval)
      ensures fresh(r) && r.Valid() && r.comps == cs
    {
      r := new Interval.Empty();
      r.comps := cs;
      r.endpoints := Endpoints(cs);
    }

    /** Interval(*values): create each component (the first failure raises), then normalise; the
        scan raises IndexError when it ends in an empty run. */
    static method New(values: seq<RawValue>) returns (r: Result<Interval>)
      requires forall i :: 0 <= i < |values| ==> WellShaped(values[i])
      ensures CreateAll(values).Failure? ==> r == Failure(CreateAll(values).error)
      ensures CreateAll(values).Success? && !Mergeable(CreateAll(values).value) ==>
        r == Failure(IndexOutOfRange(0))
      ensures r.Success? <==> CreateAll(values).Success? && Mergeable(CreateAll(values).value)
      ensures r.Success? ==>
        fresh(r.value) && r.value.Valid() && r.value.comps == Normalize(CreateAll(values).value)
    {
      var created := CreateAll(values);
      if created.Failure? {
        r := Failure(created.error);
      } else if !Mergeable(created.value) {
        r := Failure(IndexOutOfRange(0));
      } else {
        var iv := new Interval.FromComponents(created.value);
        r := Success(iv);
      }
    }

    /** _from_valid_values(values, from_endpoints=True): the endpoint list is stored as given and
        each pair of it becomes a CLOSED component (a trailing odd value has no component). */
    static method FromEndpointList(values: seq<Ext>) returns (r: Interval)
      ensures fresh(r) && r.endpoints == values
      ensures |r.comps| == |values| / 2
      ensures forall i :: 0 <= i < |r.comps| ==>
        r.comps[i] == Component(values[2 * i], values[2 * i + 1], Closed)
      ensures |values| % 2 == 0 ==> r.Valid()
    {
      r := new Interval.Empty();
      if values != [] {
        var pairs := GroupPairs(values);
        r.endpoints := values;
        r.comps := seq(|pairs|, i requires 0 <= i < |pairs| => Component(pairs[i].0, pairs[i].1, Closed));
        if |values| % 2 == 0 {
          assert Endpoints(r.comps) == values by {
            forall k | 0 <= k < |values| ensures Endpoints(r.comps)[k] == values[k] {
              var i := k / 2;
              assert r.comps[i] == Component(values[2 * i], values[2 * i + 1], Closed);
            }
          }
        }
      }
    }

    /** _from_valid_values(values, from_endpoints=False): each value through Component.create. */
    static method FromComponentValues(values: seq<RawValue>) returns (r: Result<Interval>)
      requires forall i :: 0 <= i < |values| ==> WellShaped(values[i])
      ensures r.Success? <==> CreateAll(values).Success?
      ensures r.Failure? ==> r.error == CreateAll(values).error
      ensures r.Success? ==> fresh(r.value) && r.value.Valid() && r.value.comps == CreateAll(values).value
    {
      var created := CreateAll(values);
      if created.Failure? {
        r := Failure(created.error);
      } else {
        var iv := Store(created.value);
        r := Success(iv);
      }
    }

    // -------------------------------------------------------------------------------------
    // __contains__

    /** `x in self` for a number. */
    method ContainsValue(x: Ext) returns (b: bool)
      requires Valid()
      ensures b == ValueIn(comps, x)
      ensures Canonical(comps) ==> (b <==> Member(comps, x))
    {
      var idx := BisectLeft(endpoints, x);
      var n := |endpoints|;
      if idx >= n {
        b := false;
      } else {
        b := Contains(comps[idx / 2], x);
      }
      if Canonical(comps) {
        ValueInIff(comps, x);
      }
    }

    /** `c in self` for a component. */
    method ContainsComponent(c: Component) returns (b: bool)
      requires Valid()
      ensures b == ComponentIn(comps, c)
      ensures b ==> forall v :: Contains(c, v) ==> Member(comps, v)
    {
      var infIdx := BisectLeft(endpoints, c.inf);
      var supIdx := BisectRight(endpoints, c.sup);
      var n := |endpoints|;
      if infIdx >= n || supIdx >= n || (supIdx as int) - (infIdx as int) > 1 {
        b := false;
      } else {
        var comp := comps[infIdx / 2];
        b := Contains(comp, c.inf) && Contains(comp, c.sup);
      }
      if b {
        forall v | Contains(c, v) ensures Member(comps, v) {
          ComponentInSound(comps, c, v);
        }
      }
    }

    /** `other in self` for an interval: all(comp in self for comp in other), stopping at the
        first component that is not in. */
    method ContainsInterval(other: Interval) returns (b: bool)
      requires Valid()
      ensures b == IntervalIn(comps, other.comps)
      ensures b ==> forall v :: Member(other.comps, v) ==> Member(comps, v)
    {
      var k := 0;
      b := true;
      while k < |other.comps| && b
        invariant 0 <= k <= |other.comps|
        invariant b <==> forall t :: 0 <= t < k ==> ComponentIn(comps, other.comps[t])
      {
        b := ContainsComponent(other.comps[k]);
        k := k + 1;
      }
      if b {
        forall v | Member(other.comps, v) ensures Member(comps, v) {
          IntervalInSound(comps, other.comps, v);
        }
      }
    }

    // -------------------------------------------------------------------------------------
    // __getitem__, components, extrema, midpoint

    /** self[index] for an int. */
    method GetItem(index: int) returns (r: Result<Component>)
      requires Valid()
      ensures r == At(comps, index)
    {
      r := At(comps, index);
    }

    /** self[start:stop]: the slice of the components, stored as given. */
    method GetSlice(start: Option<int>, stop: Option<int>) returns (r: Interval)
      requires Valid()
      ensures fresh(r) && r.Valid() && r.comps == Slice(comps, start, stop)
      ensures Canonical(comps) ==> Canonical(r.comps)
    {
      r := Store(Slice(comps, start, stop));
      if Canonical(comps) {
        SliceCanonical(comps, start, stop);
      }
    }

    /** self[i, j:k, ...]: the picked components sorted by (inf, sup), stored as given. */
    method GetTuple(items: seq<Index>) returns (r: Result<Interval>)
      requires Valid()
      ensures r.Success? <==> Select(comps, items).Success?
      ensures r.Failure? ==> r.error == Select(comps, items).error
      ensures r.Success? ==> fresh(r.value) && r.value.Valid() && r.value.comps == Select(comps, items).value
    {
      var picked := Select(comps, items);
      if picked.Failure? {
        r := Failure(picked.error);
      } else {
        var iv := Store(picked.value);
        r := Success(iv);
      }
    }

    /** `components`: one single-component interval per component, in order. */
    method Components() returns (r: seq<Interval>)
      requires Valid()
      ensures |r| == |comps|
      ensures forall i :: 0 <= i < |r| ==> fresh(r[i]) && r[i].Valid() && r[i].comps == [comps[i]]
    {
      r := [];
      var i := 0;
      while i < |comps|
        invariant 0 <= i <= |comps| && |r| == i
        invariant forall t :: 0 <= t < i ==> fresh(r[t]) && r[t].Valid() && r[t].comps == [comps[t]]
      {
        var iv := new Interval.FromComponents([comps[i]]);
        r := r + [iv];
        i := i + 1;
      }
    }

    /** `extrema`: the distinct endpoints as closed points. */
    method ExtremaInterval() returns (r: Interval)
      requires Valid()
      ensures fresh(r) && r.Valid() && r.comps == Extrema(comps)
      ensures forall v :: Member(r.comps, v) <==> v in endpoints
    {
      r := Store(Extrema(comps));
      forall v ensures Member(r.comps, v) <==> v in endpoints {
        ExtremaMember(comps, v);
      }
    }

    /** `midpoint`: each component's half-sum, stored as an OPEN point. */
    method MidpointInterval() returns (r: Interval)
      requires Valid() && HalfSumsDefined(comps)
      ensures fresh(r) && r.Valid() && r.comps == Midpoint(comps)
      ensures forall v :: !Member(r.comps, v)
    {
      r := Store(Midpoint(comps));
      forall v ensures !Member(r.comps, v) {
        MidpointHoldsNothing(comps, v);
      }
    }

    // -------------------------------------------------------------------------------------
    // __invert__, __or__, __and__, __xor__, __eq__

    /** ~self. */
    method Invert() returns (r: Interval)
      requires Valid()
      ensures fresh(r) && r.Valid() && r.comps == Complement(comps)
      ensures Canonical(comps) && AllSolid(comps) ==>
        forall v: Ext :: v.Fin? ==> (Member(r.comps, v) <==> !Member(comps, v))
    {
      r := Store(Complement(comps));
      if Canonical(comps) && AllSolid(comps) {
        forall v: Ext | v.Fin? ensures Member(r.comps, v) <==> !Member(comps, v) {
          ComplementMember(comps, v);
        }
      }
    }

    /** self | other: Interval(*self, *other), which raises when the scan ends in an empty run. */
    method Union(other: Interval) returns (r: Result<Interval>)
      requires Valid()
      ensures r.Success? <==> Mergeable(comps + other.comps)
      ensures r.Failure? ==> r.error == IndexOutOfRange(0)
      ensures r.Success? ==>
        fresh(r.value) && r.value.Valid() && r.value.comps == Algebra.Union(comps, other.comps)
      ensures r.Success? ==>
        forall v :: Member(r.value.comps, v) ==> Member(comps, v) || Member(other.comps, v)
    {
      if !Mergeable(comps + other.comps) {
        r := Failure(IndexOutOfRange(0));
      } else {
        var iv := new Interval.FromComponents(comps + other.comps);
        r := Success(iv);
        forall v | Member(iv.comps, v) ensures Member(comps, v) || Member(other.comps, v) {
          UnionSound(comps, other.comps, v);
        }
      }
    }

    /** self & other: ~(~self | ~other). */
    method Intersect(other: Interval) returns (r: Result<Interval>)
      requires Valid() && other.Valid()
      ensures r.Success? <==> IntersectDefined(comps, other.comps)
      ensures r.Failure? ==> r.error == IndexOutOfRange(0)
      ensures r.Success? ==>
        fresh(r.value) && r.value.Valid() && r.value.comps == Algebra.Intersect(comps, other.comps)
    {
      var a := Invert();
      var b := other.Invert();
      var u := a.Union(b);
      if u.Failure? {
        r := Failure(u.error);
      } else {
        var iv := u.value.Invert();
        r := Success(iv);
      }
    }

    /** self ^ other: (self & ~other) | (~self & other). */
    method SymmetricDifference(other: Interval) returns (r: Result<Interval>)
      requires Valid() && other.Valid()
      ensures r.Success? <==> XorDefined(comps, other.comps)
      ensures r.Failure? ==> r.error == IndexOutOfRange(0)
      ensures r.Success? ==>
        fresh(r.value) && r.value.Valid() && r.value.comps == Algebra.SymmetricDifference(comps, other.comps)
    {
      var notOther := other.Invert();
      var left := Intersect(notOther);
      if left.Failure? {
        r := Failure(left.error);
        return;
      }
      var notSelf := Invert();
      var right := notSelf.Intersect(other);
      if right.Failure? {
        r := Failure(right.error);
        return;
      }
      r := left.value.Union(right.value);
    }

    /** self == other: the endpoint lists agree. */
    predicate Equals(other: Interval)
      reads this, other
    {
      endpoints == other.endpoints
    }

    /** For valid intervals equality compares inf and sup pairwise and ignores closures. */
    lemma EqualsIff(other: Interval)
      requires Valid() && other.Valid()
      ensures Equals(other) <==>
        |comps| == |other.comps| &&
        forall i :: 0 <= i < |comps| ==> comps[i].inf == other.comps[i].inf && comps[i].sup == other.comps[i].sup
    {
      EqualIff(comps, other.comps);
    }

    // -------------------------------------------------------------------------------------
    // hull, union, cast

    /** Interval.hull(intervals). */
    static method HullOf(ivs: seq<Interval>) returns (r: Result<Interval>)
      requires forall k :: 0 <= k < |ivs| ==> ivs[k].Valid()
      ensures r.Success? <==> Hull(CompsOf(ivs)).Success?
      ensures r.Failure? ==> r.error == Hull(CompsOf(ivs)).error
      ensures r.Success? ==> fresh(r.value) && r.value.Valid() && r.value.comps == Hull(CompsOf(ivs)).value
    {
      var h := Hull(CompsOf(ivs));
      if h.Failure? {
        r := Failure(h.error);
      } else {
        var iv := new Interval.FromComponents(h.value);
        r := Success(iv);
      }
    }

    /** Interval.union(intervals): all their components through the normalising constructor. */
    static method UnionOf(ivs: seq<Interval>) returns (r: Result<Interval>)
      ensures r.Success? <==> Mergeable(Flatten(CompsOf(ivs)))
      ensures r.Failure? ==> r.error == IndexOutOfRange(0)
      ensures r.Success? ==>
        fresh(r.value) && r.value.Valid() && r.value.comps == UnionAll(CompsOf(ivs))
      ensures r.Success? ==>
        forall v :: Member(r.value.comps, v) ==> exists k :: 0 <= k < |ivs| && Member(ivs[k].comps, v)
    {
      var all := Flatten(CompsOf(ivs));
      if !Mergeable(all) {
        r := Failure(IndexOutOfRange(0));
      } else {
        var iv := new Interval.FromComponents(all);
        r := Success(iv);
        forall v | Member(iv.comps, v) ensures exists k :: 0 <= k < |ivs| && Member(ivs[k].comps, v) {
          UnionAllSound(CompsOf(ivs), v);
        }
      }
    }

    /** Interval.cast(x) == Interval([x]). */
    static method CastOf(x: Ext) returns (r: Interval)
      ensures fresh(r) && r.Valid() && r.comps == Cast(x)
      ensures forall v :: Member(r.comps, v) <==> v == x
    {
      r := new Interval.FromComponents(Cast(x));
      forall v ensures Member(r.comps, v) <==> v == x {
        CastMember(x, v);
      }
    }
  }

  /** The scan of __init__ over the sorted components: each component joins the current run, and
      a new run is opened after it when it is not continuous with its successor (the last
      component is paired with itself). */
  method ScanRuns(s: seq<Component>) returns (partition: seq<seq<Component>>)
    ensures partition == Partition(s, |s|)
  {
    partition := [[]];
    var k := 0;
    while k < |s|
      invariant 0 <= k <= |s|
      invariant partition == Partition(s, k)
    {
      var comp1, comp2 := s[k], if k + 1 < |s| then s[k + 1] else s[|s| - 1];
      partition := partition[..|partition| - 1] + [partition[|partition| - 1] + [comp1]];
      if !AreContinuous(comp1, comp2) {
        partition := partition + [[]];
      }
      k := k + 1;
    }
  }

  /** The merge loop of __init__: each run becomes one component from its first member to the
      first member with the largest sup. */
  method MergeRuns(partition: seq<seq<Component>>) returns (merged: seq<Component>)
    requires forall j :: 0 <= j < |partition| ==> partition[j] != []
    ensures merged == Merge(partition)
  {
    merged := [];
    var j := 0;
    while j < |partition|
      invariant 0 <= j <= |partition|
      invariant |merged| == j
      invariant forall t :: 0 <= t < j ==> merged[t] == MergeRun(partition[t])
    {
      var part := partition[j];
      var inf, sup := part[0], MaxSupMember(part);
      merged := merged + [FromExtrema(inf, sup)];
      j := j + 1;
    }
  }

  /** The component lists of a sequence of intervals. */
  function CompsOf(ivs: seq<Interval>): (r: seq<seq<Component>>)
    reads set k | 0 <= k < |ivs| :: ivs[k]
    ensures |r| == |ivs| && forall k :: 0 <= k < |ivs| ==> r[k] == ivs[k].comps
  {
    seq(|ivs|, k requires 0 <= k < |ivs| reads set k | 0 <= k < |ivs| :: ivs[k] => ivs[k].comps)
  }
}
