/** The read-only views of an interval: indexing and slicing (Interval.__getitem__), the
    `components`, `extrema` and `midpoint` properties, and the class-level `hull`, `union` and
    `cast`, all on component lists. */
module Queries {
  import opened Errors
  import opened ExtReals
  import opened ComponentTypes
  import opened Components
  import opened Normalization
  import opened Algebra

  // ---------------------------------------------------------------------------------------
  // interval[int], interval[slice], interval[tuple]

  /** interval[index] for an int: Python list indexing, negative indices counting from the end. */
  function At(cs: seq<Component>, index: int): (r: Result<Component>)
    ensures r.Success? <==> -|cs| <= index < |cs|
    ensures r.Failure? ==> r.error == IndexOutOfRange(index)
  {
    if 0 <= index < |cs| then Success(cs[index])
    else if -|cs| <= index < 0 then Success(cs[index + |cs|])
    else Failure(IndexOutOfRange(index))
  }

  /** A negative index names the same component as its distance from the end. */
  lemma AtNegative(cs: seq<Component>, k: int)
    requires 0 < k <= |cs|
    ensures At(cs, -k) == At(cs, |cs| - k) == Success(cs[|cs| - k])
  {
  }

  /** One bound of a slice with step 1, clamped into 0..n as Python does: None takes the default,
      a negative bound counts from the end and stops at 0, a large one stops at n. */
  function Clamp(bound: Option<int>, default: nat, n: nat): (r: nat)
    requires default <= n
    ensures r <= n
  {
    match bound
    case None => default
    case Some(b) => if b < 0 then (if b + n < 0 then 0 else b + n) else if b > n then n else b
  }

  /** comps[start:stop]; an empty slice when stop falls at or before start. */
  function Slice(cs: seq<Component>, start: Option<int>, stop: Option<int>): (r: seq<Component>)
    ensures |r| <= |cs|
  {
    var s, t := Clamp(start, 0, |cs|), Clamp(stop, |cs|, |cs|);
    if s < t then cs[s..t] else []
  }

  /** a[:k] + a[k:] == a, for every k. */
  lemma SliceSplit(cs: seq<Component>, k: int)
    ensures Slice(cs, None, Some(k)) + Slice(cs, Some(k), None) == cs
  {
    var m := Clamp(Some(k), 0, |cs|);
    assert cs[..m] + cs[m..] == cs;
  }

  /** a[:] == a. */
  lemma SliceAll(cs: seq<Component>)
    ensures Slice(cs, None, None) == cs
  {
  }

  /** A slice of a canonical interval is canonical. */
  lemma SliceCanonical(cs: seq<Component>, start: Option<int>, stop: Option<int>)
    requires Canonical(cs)
    ensures Canonical(Slice(cs, start, stop))
  {
    var r := Slice(cs, start, stop);
    var s, t := Clamp(start, 0, |cs|), Clamp(stop, |cs|, |cs|);
    if s < t {
      forall i | 0 < i < |r| ensures Separated(r[i - 1], r[i]) {
        assert r[i - 1] == cs[s + i - 1] && r[i] == cs[s + i];
      }
      forall i | 0 <= i < |r| ensures WellFormed(r[i]) {
        assert r[i] == cs[s + i];
      }
    }
  }

  /** One member of the tuple in interval[i, j:k, ...]. */
  datatype Index = Position(index: int) | Range(start: Option<int>, stop: Option<int>)

  /** What one member of the tuple picks: one component for a position, a run for a slice. */
  function Pick(cs: seq<Component>, item: Index): Result<seq<Component>> {
    match item
    case Position(i) => (match At(cs, i) case Success(c) => Success([c]) case Failure(e) => Failure(e))
    case Range(s, t) => Success(Slice(cs, s, t))
  }

  /** The components the tuple's members pick, in the tuple's order; the first bad position
      raises. */
  function Gather(cs: seq<Component>, items: seq<Index>): (r: Result<seq<Component>>)
    ensures r.Success? <==>
      forall k :: 0 <= k < |items| ==> items[k].Position? ==> -|cs| <= items[k].index < |cs|
    ensures r.Failure? ==>
      exists k :: 0 <= k < |items| && items[k].Position? && !(-|cs| <= items[k].index < |cs|) &&
        r.error == IndexOutOfRange(items[k].index) &&
        forall t :: 0 <= t < k ==> items[t].Position? ==> -|cs| <= items[t].index < |cs|
    ensures r.Success? && (forall k :: 0 <= k < |items| ==> items[k].Position?) ==>
      |r.value| == |items| && forall k :: 0 <= k < |items| ==> r.value[k] == At(cs, items[k].index).value
    ensures |items| == 1 && items[0].Range? ==> r == Success(Slice(cs, items[0].start, items[0].stop))
  {
    if items == [] then Success([])
    else
      match Pick(cs, items[0])
      case Failure(e) => Failure(e)
      case Success(h) =>
        match Gather(cs, items[1..])
        case Failure(e) => Failure(e)
        case Success(rest) =>
          assert |items| == 1 ==> rest == [] && h + rest == h;
          Success(h + rest)
  }

  /** A tuple picks its members' components one after the other: gathering a concatenation of
      members yields the two gatherings concatenated (a slice member contributes its slice). */
  lemma {:induction false} GatherConcat(cs: seq<Component>, a: seq<Index>, b: seq<Index>)
    ensures Gather(cs, a + b).Success? <==> Gather(cs, a).Success? && Gather(cs, b).Success?
    ensures Gather(cs, a + b).Success? ==> Gather(cs, a + b).value == Gather(cs, a).value + Gather(cs, b).value
  {
    if a == [] {
      assert a + b == b;
    } else {
      var ab := a + b;
      assert ab[0] == a[0] && ab[1..] == a[1..] + b;
      GatherConcat(cs, a[1..], b);
      GatherStep(cs, ab);
      GatherStep(cs, a);
    }
  }

  /** One step of Gather: the first member's pick, then the rest. */
  lemma GatherStep(cs: seq<Component>, items: seq<Index>)
    requires items != []
    ensures var head, rest := Pick(cs, items[0]), Gather(cs, items[1..]);
      && (Gather(cs, items).Success? <==> head.Success? && rest.Success?)
      && (Gather(cs, items).Success? ==> Gather(cs, items).value == head.value + rest.value)
  {
  }

  /** interval[tuple]: the picked components, sorted by (inf, sup) and stored without merging. */
  function Select(cs: seq<Component>, items: seq<Index>): (r: Result<seq<Component>>)
    ensures r.Success? <==> Gather(cs, items).Success?
    ensures r.Success? ==>
      SortedByKey(r.value) && multiset(r.value) == multiset(Gather(cs, items).value)
  {
    match Gather(cs, items)
    case Failure(e) => Failure(e)
    case Success(picked) => Success(Sort(picked))
  }

  /** Picking the same component twice keeps both copies: the tuple form does not normalise. */
  lemma SelectKeepsDuplicates(cs: seq<Component>)
    requires cs != []
    ensures Select(cs, [Position(0), Position(0)]) == Success([cs[0], cs[0]])
  {
    var one, two := [Position(0)], [Position(0), Position(0)];
    assert one[1..] == [] && two[1..] == one;
    assert At(cs, 0) == Success(cs[0]);
    assert Gather(cs, []) == Success([]);
    assert [cs[0]] + [] == [cs[0]];
    assert Gather(cs, one) == Success([cs[0]]);
    assert [cs[0]] + [cs[0]] == [cs[0], cs[0]];
    assert Gather(cs, two) == Success([cs[0], cs[0]]);
    assert SortedByKey([cs[0], cs[0]]);
    SortOfSorted([cs[0], cs[0]]);
  }

  // ---------------------------------------------------------------------------------------
  // components, extrema, midpoint

  /** `components`: each component as an interval of its own. */
  function ComponentIntervals(cs: seq<Component>): (r: seq<seq<Component>>)
    ensures |r| == |cs|
    ensures forall i :: 0 <= i < |r| ==> |r[i]| == 1
  {
    seq(|cs|, i requires 0 <= i < |cs| => [cs[i]])
  }

  /** Flattening the component intervals gives the components back. */
  lemma ComponentIntervalsFlatten(cs: seq<Component>)
    ensures Flatten(ComponentIntervals(cs)) == cs
  {
    if cs != [] {
      ComponentIntervalsFlatten(cs[1..]);
      assert ComponentIntervals(cs)[1..] == ComponentIntervals(cs[1..]);
    }
  }

  /** Position i starts a run of equal neighbours: it is the first one, or its element differs
      from the one before it. */
  predicate RunStart(e: seq<Ext>, i: int)
    requires 0 <= i < |e|
  {
    i == 0 || e[i - 1] != e[i]
  }

  /** The positions where a run starts, in increasing order. */
  function RunStarts(e: seq<Ext>): (s: seq<nat>)
    ensures forall k :: 0 <= k < |s| ==> s[k] < |e|
    ensures forall k, l :: 0 <= k < l < |s| ==> s[k] < s[l]
    ensures forall i :: 0 <= i < |e| ==> (i in s <==> RunStart(e, i))
  {
    if e == [] then []
    else
      var n := |e| - 1;
      var f := e[..n];
      var p := RunStarts(f);
      assert forall i :: 0 <= i < n ==> RunStart(f, i) == RunStart(e, i);
      assert n !in p;
      if RunStart(e, n) then p + [n] else p
  }

  /** itertools.groupby keys: the element at each run start, in order. */
  function Dedup(e: seq<Ext>): (r: seq<Ext>)
    ensures |r| == |RunStarts(e)|
    ensures forall k :: 0 <= k < |r| ==> r[k] == e[RunStarts(e)[k]]
  {
    if e == [] then []
    else
      var n := |e| - 1;
      var p := Dedup(e[..n]);
      if RunStart(e, n) then p + [e[n]] else p
  }

  /** The keys are no more than the elements, and the first and last keys are the first and
      last elements. */
  lemma {:induction false} DedupEnds(e: seq<Ext>)
    ensures |Dedup(e)| <= |e|
    ensures e != [] ==> Dedup(e) != [] && Dedup(e)[0] == e[0] && Last(Dedup(e)) == Last(e)
  {
    if e != [] {
      var n := |e| - 1;
      DedupEnds(e[..n]);
    }
  }

  /** The keys are exactly the values of the list. */
  lemma {:induction false} DedupSameValues(e: seq<Ext>)
    ensures forall x :: x in Dedup(e) <==> x in e
  {
    if e != [] {
      var n := |e| - 1;
      var f := e[..n];
      DedupSameValues(f);
      assert e == f + [e[n]];
      if n > 0 {
        assert e[n - 1] in f;
      }
    }
  }

  /** No two neighbouring keys are equal. */
  lemma {:induction false} DedupNoRepeats(e: seq<Ext>)
    ensures forall i :: 0 < i < |Dedup(e)| ==> Dedup(e)[i - 1] != Dedup(e)[i]
  {
    if e != [] {
      var n := |e| - 1;
      var f := e[..n];
      var p := Dedup(f);
      DedupNoRepeats(f);
      if n > 0 && RunStart(e, n) {
        DedupEnds(f);
        var d := p + [e[n]];
        assert Dedup(e) == d;
        forall i | 0 < i < |d| ensures d[i - 1] != d[i] {
          if i == |p| {
            assert d[i - 1] == Last(p) == e[n - 1];
          } else {
            assert d[i - 1] == p[i - 1] && d[i] == p[i];
          }
        }
      }
    }
  }

  /** In a sorted list, a run start holds a larger value than any earlier position. */
  lemma RunStartAbove(e: seq<Ext>, a: nat, b: nat)
    requires Sorted(e) && a < b < |e| && RunStart(e, b)
    ensures Lt(e[a], e[b])
  {
    if a < b - 1 {
      LeTransitive(e[a], e[b - 1], e[b]);
    }
    if e[a] == e[b] {
      LeAntisymmetric(e[b - 1], e[b]);
    }
    LtIsStrictLe(e[a], e[b]);
  }

  /** Collapsing runs of a sorted list leaves a strictly increasing list. */
  lemma DedupSorted(e: seq<Ext>)
    requires Sorted(e)
    ensures forall i, j :: 0 <= i < j < |Dedup(e)| ==> Lt(Dedup(e)[i], Dedup(e)[j])
  {
    var s, d := RunStarts(e), Dedup(e);
    forall i, j | 0 <= i < j < |d| ensures Lt(d[i], d[j]) {
      var a, b := s[i], s[j];
      assert d[i] == e[a] && d[j] == e[b];
      assert a < b && b in s && RunStart(e, b);
      RunStartAbove(e, a, b);
    }
  }

  /** `extrema`: every distinct endpoint (consecutive repeats collapsed) as a closed point. */
  function Extrema(cs: seq<Component>): (r: seq<Component>)
    ensures |r| == |Dedup(Endpoints(cs))|
  {
    var d := Dedup(Endpoints(cs));
    seq(|d|, i requires 0 <= i < |d| => Component(d[i], d[i], Closed))
  }

  /** The extrema hold exactly the endpoints of the interval. */
  lemma ExtremaMember(cs: seq<Component>, v: Ext)
    ensures Member(Extrema(cs), v) <==> v in Endpoints(cs)
  {
    var d := Dedup(Endpoints(cs));
    var r := Extrema(cs);
    DedupSameValues(Endpoints(cs));
    if v in Endpoints(cs) {
      var i :| 0 <= i < |d| && d[i] == v;
      assert Contains(r[i], v);
    }
    if Member(r, v) {
      var i :| 0 <= i < |r| && Contains(r[i], v);
      DegenerateContains(d[i], Closed, v);
      assert d[i] in d;
    }
  }

  /** The extrema of a canonical interval are again canonical: increasing, distinct closed points. */
  lemma ExtremaCanonical(cs: seq<Component>)
    requires Canonical(cs)
    ensures Canonical(Extrema(cs))
  {
    CanonicalEndpointsSorted(cs);
    DedupSorted(Endpoints(cs));
    var r := Extrema(cs);
    forall i | 0 < i < |r| ensures Separated(r[i - 1], r[i]) {
      assert Lt(Dedup(Endpoints(cs))[i - 1], Dedup(Endpoints(cs))[i]);
    }
  }

  /** (a + b) / 2 on extended reals; a half-sum with an infinity is that infinity. */
  function Mid(a: Ext, b: Ext): (m: Ext)
    requires !(a == NegInf && b == PosInf) && !(a == PosInf && b == NegInf)
    ensures a.Fin? && b.Fin? ==> m.Fin? && m.r - a.r == b.r - m.r
    ensures a == NegInf || b == NegInf ==> m == NegInf
    ensures a == PosInf || b == PosInf ==> m == PosInf
    ensures Le(a, b) ==> Le(a, m) && Le(m, b)
  {
    match (a, b)
    case (Fin(x), Fin(y)) => Fin((x + y) / 2.0)
    case (NegInf, _) => NegInf
    case (_, NegInf) => NegInf
    case (PosInf, _) => PosInf
    case (_, PosInf) => PosInf
  }

  /** No component spans both infinities (their half-sum would be NaN). */
  predicate HalfSumsDefined(cs: seq<Component>) {
    forall i :: 0 <= i < |cs| ==>
      !(cs[i].inf == NegInf && cs[i].sup == PosInf) && !(cs[i].inf == PosInf && cs[i].sup == NegInf)
  }

  /** `midpoint`: zip(midpoints, midpoints) hands create one 2-tuple per component, and a 2-tuple
      makes an OPEN component, so each midpoint is stored as the empty (m, m). */
  function Midpoint(cs: seq<Component>): (r: seq<Component>)
    requires HalfSumsDefined(cs)
    ensures |r| == |cs|
    ensures forall i :: 0 <= i < |cs| ==>
      r[i].inf == r[i].sup == Mid(cs[i].inf, cs[i].sup) && r[i].ctype == Open
    ensures forall i :: 0 <= i < |cs| ==> WellFormed(cs[i]) ==>
      Le(cs[i].inf, r[i].inf) && Le(r[i].sup, cs[i].sup)
  {
    seq(|cs|, i requires 0 <= i < |cs| && HalfSumsDefined(cs) =>
      var m := Mid(cs[i].inf, cs[i].sup);
      Create(TupleOf([m, m])).value)
  }

  /** The midpoint interval holds no value at all. */
  lemma MidpointHoldsNothing(cs: seq<Component>, v: Ext)
    requires HalfSumsDefined(cs)
    ensures !Member(Midpoint(cs), v)
  {
    var r := Midpoint(cs);
    forall i | 0 <= i < |r| ensures !Contains(r[i], v) {
      DegenerateContains(r[i].inf, Open, v);
    }
  }

  // ---------------------------------------------------------------------------------------
  // hull, union, cast

  /** The first endpoint of each interval. */
  function Firsts(ivs: seq<seq<Component>>): (r: seq<Ext>)
    requires forall k :: 0 <= k < |ivs| ==> ivs[k] != []
    ensures |r| == |ivs| && forall k :: 0 <= k < |ivs| ==> r[k] == ivs[k][0].inf
  {
    seq(|ivs|, k requires 0 <= k < |ivs| && ivs[k] != [] => ivs[k][0].inf)
  }

  /** The last endpoint of each interval. */
  function Lasts(ivs: seq<seq<Component>>): (r: seq<Ext>)
    requires forall k :: 0 <= k < |ivs| ==> ivs[k] != []
    ensures |r| == |ivs| && forall k :: 0 <= k < |ivs| ==> r[k] == Last(ivs[k]).sup
  {
    seq(|ivs|, k requires 0 <= k < |ivs| && ivs[k] != [] => Last(ivs[k]).sup)
  }

  /** Interval.hull: one component from the smallest first endpoint to the largest last endpoint;
      each closure comes from the first interval that attains that extreme. An empty interval has
      no `_endpoints[0]` (IndexError) and no intervals leave min() nothing (ValueError). */
  function Hull(ivs: seq<seq<Component>>): (r: Result<seq<Component>>)
    ensures (exists k :: 0 <= k < |ivs| && ivs[k] == []) ==> r == Failure(IndexOutOfRange(0))
    ensures ivs == [] ==> r == Failure(EmptyArgument)
    ensures r.Success? <==> ivs != [] && forall k :: 0 <= k < |ivs| ==> ivs[k] != []
    ensures r.Success? ==> |r.value| == 1
    ensures r.Success? ==> forall k :: 0 <= k < |ivs| ==> Le(r.value[0].inf, ivs[k][0].inf)
    ensures r.Success? ==> forall k :: 0 <= k < |ivs| ==> Le(Last(ivs[k]).sup, r.value[0].sup)
    ensures r.Success? ==>
      exists k :: 0 <= k < |ivs| &&
        r.value[0].inf == ivs[k][0].inf && r.value[0].ctype.LeftClosed() == ivs[k][0].ctype.LeftClosed() &&
        forall t :: 0 <= t < k ==> Lt(r.value[0].inf, ivs[t][0].inf)
    ensures r.Success? ==>
      exists k :: 0 <= k < |ivs| &&
        r.value[0].sup == Last(ivs[k]).sup && r.value[0].ctype.RightClosed() == Last(ivs[k]).ctype.RightClosed() &&
        forall t :: 0 <= t < k ==> Lt(Last(ivs[t]).sup, r.value[0].sup)
  {
    if exists k :: 0 <= k < |ivs| && ivs[k] == [] then Failure(IndexOutOfRange(0))
    else if ivs == [] then Failure(EmptyArgument)
    else
      var lo, hi := FirstMinIndex(Firsts(ivs)), FirstMaxIndex(Lasts(ivs));
      var left, right := ivs[lo][0], Last(ivs[hi]);
      Success([Component(left.inf, right.sup, Get(left.ctype.LeftClosed(), right.ctype.RightClosed()))])
  }

  /** Every value of a canonical interval lies between its first and its last endpoint. */
  lemma CanonicalBounds(cs: seq<Component>, i: nat, v: Ext)
    requires Canonical(cs) && i < |cs| && Contains(cs[i], v)
    ensures Le(cs[0].inf, v) && Le(v, Last(cs).sup)
  {
    CanonicalEndpointsSorted(cs);
    var e := Endpoints(cs);
    assert e[0] == cs[0].inf && e[2 * i] == cs[i].inf && e[2 * i + 1] == cs[i].sup;
    assert e[|e| - 1] == Last(cs).sup;
    ContainsIff(cs[i], v);
    LeTransitive(e[0], e[2 * i], v);
    LeTransitive(v, e[2 * i + 1], e[|e| - 1]);
  }

  /** Every value of a canonical interval lies within the hull's bounds, and inside the hull when
      it is strictly between them. */
  lemma HullCovers(ivs: seq<seq<Component>>, k: nat, v: Ext)
    requires Hull(ivs).Success? && k < |ivs| && Canonical(ivs[k]) && Member(ivs[k], v)
    ensures var h := Hull(ivs).value[0];
      Le(h.inf, v) && Le(v, h.sup) && (Lt(h.inf, v) && Lt(v, h.sup) ==> Contains(h, v))
  {
    var h := Hull(ivs).value[0];
    var cs := ivs[k];
    var i :| 0 <= i < |cs| && Contains(cs[i], v);
    CanonicalBounds(cs, i, v);
    assert Le(h.inf, cs[0].inf) && Le(Last(cs).sup, h.sup);
    LeTransitive(h.inf, cs[0].inf, v);
    LeTransitive(v, Last(cs).sup, h.sup);
  }

  /** Interval.union: all the components of all the intervals, normalised together. */
  function UnionAll(ivs: seq<seq<Component>>): (r: seq<Component>)
    requires Mergeable(Flatten(ivs))
    ensures |r| <= |Flatten(ivs)|
  {
    Normalize(Flatten(ivs))
  }

  /** Every value of the union of several intervals is a value of one of them. */
  lemma UnionAllSound(ivs: seq<seq<Component>>, v: Ext)
    requires Mergeable(Flatten(ivs)) && Member(UnionAll(ivs), v)
    ensures exists k :: 0 <= k < |ivs| && Member(ivs[k], v)
  {
    var all := Flatten(ivs);
    NormalizeSound(all, v);
    var i :| 0 <= i < |all| && Contains(all[i], v);
    var k, t := FlattenFind(ivs, all[i]);
    assert Contains(ivs[k][t], v);
  }

  /** Interval.cast(x) is Interval([x]): the closed point [x, x]. */
  function Cast(x: Ext): (r: seq<Component>)
    ensures |r| == 1
  {
    [Create(ListOf([x])).value]
  }

  /** The cast of x holds x and nothing else. */
  lemma CastMember(x: Ext, v: Ext)
    ensures Member(Cast(x), v) <==> v == x
  {
    DegenerateContains(x, Closed, v);
    assert Cast(x)[0] == Component(x, x, Closed);
  }
}
