/** Complement, union, intersection, symmetric difference and equality of intervals
    (Interval.__invert__, __or__, __and__, __xor__ and __eq__), on component lists. */
module Algebra {
  import opened ExtReals
  import opened ComponentTypes
  import opened Components
  import opened Normalization

  /** v lies in one of the components. */
  predicate Member(cs: seq<Component>, v: Ext) {
    exists i :: 0 <= i < |cs| && Contains(cs[i], v)
  }

  // ---------------------------------------------------------------------------------------
  // _group_by_len

  /** _group_by_len(xs, 2): consecutive pairs; zip drops a trailing odd element. */
  function GroupPairs<T>(xs: seq<T>): (r: seq<(T, T)>)
    ensures |r| == |xs| / 2
    ensures forall i :: 0 <= i < |r| ==> r[i] == (xs[2 * i], xs[2 * i + 1])
  {
    if |xs| < 2 then [] else [(xs[0], xs[1])] + GroupPairs(xs[2..])
  }

  function FlattenPairs<T>(ps: seq<(T, T)>): (r: seq<T>) {
    if ps == [] then [] else [ps[0].0, ps[0].1] + FlattenPairs(ps[1..])
  }

  /** Grouping a list of even length into pairs and flattening the pairs gives the list back. */
  lemma {:induction false} GroupPairsRoundTrip<T>(xs: seq<T>)
    requires |xs| % 2 == 0
    ensures FlattenPairs(GroupPairs(xs)) == xs
  {
    if |xs| >= 2 {
      GroupPairsRoundTrip(xs[2..]);
      assert GroupPairs(xs)[1..] == GroupPairs(xs[2..]);
      assert xs == [xs[0], xs[1]] + xs[2..];
    }
  }

  // ---------------------------------------------------------------------------------------
  // __invert__

  /** The flags [not left_closed, not right_closed, ...] of the components. */
  function Flags(cs: seq<Component>): (t: seq<bool>)
    ensures |t| == 2 * |cs|
    ensures forall i :: 0 <= i < |cs| ==>
      t[2 * i] == !cs[i].ctype.LeftClosed() && t[2 * i + 1] == !cs[i].ctype.RightClosed()
  {
    if cs == [] then [] else [!cs[0].ctype.LeftClosed(), !cs[0].ctype.RightClosed()] + Flags(cs[1..])
  }

  /** The four boundary cases: pad a finite side with `lo`/`hi`, drop an infinite side. */
  function Reshape<T>(xs: seq<T>, lo: T, hi: T, firstInf: bool, lastInf: bool): seq<T>
    requires |xs| >= 2
  {
    if !firstInf && !lastInf then [lo] + xs + [hi]
    else if firstInf && lastInf then xs[1..|xs| - 1]
    else if firstInf then xs[1..] + [hi]
    else [lo] + xs[..|xs| - 1]
  }

  function Off(firstInf: bool): nat { if firstInf then 0 else 1 }

  lemma ReshapeLength<T>(xs: seq<T>, lo: T, hi: T, firstInf: bool, lastInf: bool)
    requires |xs| >= 2
    ensures |Reshape(xs, lo, hi, firstInf, lastInf)| == |xs| - 2 + 2 * Off(firstInf) + 2 * Off(lastInf)
  {
  }

  lemma ReshapeEnds<T>(xs: seq<T>, lo: T, hi: T, firstInf: bool, lastInf: bool)
    requires |xs| >= 2
    ensures var r := Reshape(xs, lo, hi, firstInf, lastInf);
      && |r| == |xs| - 2 + 2 * Off(firstInf) + 2 * Off(lastInf)
      && (!firstInf ==> r[0] == lo)
      && (!lastInf ==> r[|r| - 1] == hi)
  {
  }

  lemma ReshapeIndex<T>(xs: seq<T>, lo: T, hi: T, firstInf: bool, lastInf: bool, k: nat)
    requires |xs| >= 2
    requires Off(firstInf) <= k < |xs| - 2 + 2 * Off(firstInf) + Off(lastInf)
    ensures |Reshape(xs, lo, hi, firstInf, lastInf)| == |xs| - 2 + 2 * Off(firstInf) + 2 * Off(lastInf)
    ensures Reshape(xs, lo, hi, firstInf, lastInf)[k] == xs[k + 1 - 2 * Off(firstInf)]
  {
  }

  /** zip(_group_by_len(bounds), _group_by_len(flags)) made into components. */
  function Pieces(bounds: seq<Ext>, flags: seq<bool>): (r: seq<Component>)
    requires |bounds| == |flags|
    ensures |r| == |bounds| / 2
  {
    var bp, fp := GroupPairs(bounds), GroupPairs(flags);
    seq(|bp|, i requires 0 <= i < |bp| => Component(bp[i].0, bp[i].1, Get(fp[i].0, fp[i].1)))
  }

  lemma PiecesEndpoints(bounds: seq<Ext>, flags: seq<bool>)
    requires |bounds| == |flags| && |bounds| % 2 == 0
    ensures Endpoints(Pieces(bounds, flags)) == bounds
  {
    var r := Pieces(bounds, flags);
    var e := Endpoints(r);
    assert |e| == |bounds|;
    forall k | 0 <= k < |e| ensures e[k] == bounds[k] {
      var i := k / 2;
      assert r[i] == Component(bounds[2 * i], bounds[2 * i + 1], r[i].ctype);
    }
  }

  /** The first endpoint is -inf (no piece is added on the left). */
  predicate FirstInf(cs: seq<Component>)
    requires cs != []
  {
    cs[0].inf == NegInf
  }

  /** The last endpoint is +inf (no piece is added on the right). */
  predicate LastInf(cs: seq<Component>)
    requires cs != []
  {
    cs[|cs| - 1].sup == PosInf
  }

  /** `compl`: the endpoint list of the complement of a nonempty interval. */
  function ComplementBounds(cs: seq<Component>): seq<Ext>
    requires cs != []
  {
    Reshape(Endpoints(cs), NegInf, PosInf, FirstInf(cs), LastInf(cs))
  }

  /** `types`: the closure flags of the complement of a nonempty interval. */
  function ComplementFlags(cs: seq<Component>): seq<bool>
    requires cs != []
  {
    Reshape(Flags(cs), false, false, FirstInf(cs), LastInf(cs))
  }

  /** ~interval: the gaps between the components, with each gap's closures the inverse of its
      neighbours', plus an open unbounded piece on each side whose outermost endpoint is finite. */
  function Complement(cs: seq<Component>): seq<Component> {
    if cs == [] then [Component(NegInf, PosInf, Closed)]
    else
      ReshapeLength(Endpoints(cs), NegInf, PosInf, FirstInf(cs), LastInf(cs));
      ReshapeLength(Flags(cs), false, false, FirstInf(cs), LastInf(cs));
      Pieces(ComplementBounds(cs), ComplementFlags(cs))
  }

  /** The piece of the complement between cs[i - 1] and cs[i]. */
  function Gap(cs: seq<Component>, i: nat): Component
    requires 0 < i < |cs|
  {
    Component(cs[i - 1].sup, cs[i].inf, Get(!cs[i - 1].ctype.RightClosed(), !cs[i].ctype.LeftClosed()))
  }

  /** The complement of the empty interval is everything, closed. */
  lemma ComplementOfEmpty(v: Ext)
    ensures Complement([]) == [Component(NegInf, PosInf, Closed)]
    ensures Member(Complement([]), v)
  {
    assert Contains(Complement([])[0], v);
  }

  lemma PieceAt(bounds: seq<Ext>, flags: seq<bool>, j: nat)
    requires |bounds| == |flags| && j < |bounds| / 2
    ensures Pieces(bounds, flags)[j] ==
      Component(bounds[2 * j], bounds[2 * j + 1], Get(flags[2 * j], flags[2 * j + 1]))
  {
  }

  function HeadCount(cs: seq<Component>): nat
    requires cs != []
  {
    Off(FirstInf(cs))
  }

  function TailCount(cs: seq<Component>): nat
    requires cs != []
  {
    Off(LastInf(cs))
  }

  lemma ComplementCount(cs: seq<Component>)
    requires cs != []
    ensures |Complement(cs)| == |cs| - 1 + HeadCount(cs) + TailCount(cs)
  {
    ReshapeLength(Endpoints(cs), NegInf, PosInf, FirstInf(cs), LastInf(cs));
  }

  /** Complement(cs) is made of the pieces of the complement's bounds and flags. */
  lemma ComplementIsPieces(cs: seq<Component>)
    requires cs != []
    ensures |ComplementBounds(cs)| == |ComplementFlags(cs)| == 2 * (|cs| - 1 + HeadCount(cs) + TailCount(cs))
    ensures Complement(cs) == Pieces(ComplementBounds(cs), ComplementFlags(cs))
  {
    ReshapeLength(Endpoints(cs), NegInf, PosInf, FirstInf(cs), LastInf(cs));
    ReshapeLength(Flags(cs), false, false, FirstInf(cs), LastInf(cs));
  }

  lemma ComplementBoundsAt(cs: seq<Component>, i: nat)
    requires 0 < i < |cs|
    ensures var j := i - 1 + HeadCount(cs);
      && 2 * j + 1 < |ComplementBounds(cs)|
      && ComplementBounds(cs)[2 * j] == cs[i - 1].sup
      && ComplementBounds(cs)[2 * j + 1] == cs[i].inf
  {
    var e := Endpoints(cs);
    var j := i - 1 + HeadCount(cs);
    ReshapeIndex(e, NegInf, PosInf, FirstInf(cs), LastInf(cs), 2 * j);
    ReshapeIndex(e, NegInf, PosInf, FirstInf(cs), LastInf(cs), 2 * j + 1);
    assert e[2 * (i - 1) + 1] == cs[i - 1].sup && e[2 * i] == cs[i].inf;
  }

  lemma ComplementFlagsAt(cs: seq<Component>, i: nat)
    requires 0 < i < |cs|
    ensures var j := i - 1 + HeadCount(cs);
      && 2 * j + 1 < |ComplementFlags(cs)|
      && ComplementFlags(cs)[2 * j] == !cs[i - 1].ctype.RightClosed()
      && ComplementFlags(cs)[2 * j + 1] == !cs[i].ctype.LeftClosed()
  {
    var t := Flags(cs);
    var j := i - 1 + HeadCount(cs);
    ReshapeIndex(t, false, false, FirstInf(cs), LastInf(cs), 2 * j);
    ReshapeIndex(t, false, false, FirstInf(cs), LastInf(cs), 2 * j + 1);
    assert t[2 * (i - 1) + 1] == !cs[i - 1].ctype.RightClosed() && t[2 * i] == !cs[i].ctype.LeftClosed();
  }

  lemma ComplementGap(cs: seq<Component>, i: nat)
    requires 0 < i < |cs|
    ensures |Complement(cs)| == |cs| - 1 + HeadCount(cs) + TailCount(cs)
    ensures Complement(cs)[i - 1 + HeadCount(cs)] == Gap(cs, i)
  {
    ComplementIsPieces(cs);
    ComplementBoundsAt(cs, i);
    ComplementFlagsAt(cs, i);
    PieceAt(ComplementBounds(cs), ComplementFlags(cs), i - 1 + HeadCount(cs));
  }

  lemma ComplementHead(cs: seq<Component>)
    requires cs != [] && !FirstInf(cs)
    ensures Complement(cs)[0] == Component(NegInf, cs[0].inf, Get(false, !cs[0].ctype.LeftClosed()))
  {
    ComplementCount(cs);
    var e, t := Endpoints(cs), Flags(cs);
    var b, f := ComplementBounds(cs), ComplementFlags(cs);
    ReshapeEnds(e, NegInf, PosInf, FirstInf(cs), LastInf(cs));
    ReshapeEnds(t, false, false, FirstInf(cs), LastInf(cs));
    ReshapeIndex(e, NegInf, PosInf, FirstInf(cs), LastInf(cs), 1);
    ReshapeIndex(t, false, false, FirstInf(cs), LastInf(cs), 1);
    PieceAt(b, f, 0);
    assert b[1] == e[0] && f[1] == t[0];
  }

  lemma ComplementTail(cs: seq<Component>)
    requires cs != [] && !LastInf(cs)
    ensures |Complement(cs)| > 0
    ensures var n := |cs|;
      Complement(cs)[|Complement(cs)| - 1] ==
        Component(cs[n - 1].sup, PosInf, Get(!cs[n - 1].ctype.RightClosed(), false))
  {
    ComplementIsPieces(cs);
    var n := |cs|;
    var e, t := Endpoints(cs), Flags(cs);
    var b, f := ComplementBounds(cs), ComplementFlags(cs);
    ReshapeTail(e, NegInf, PosInf, FirstInf(cs), LastInf(cs));
    ReshapeTail(t, false, false, FirstInf(cs), LastInf(cs));
    var j := |b| / 2 - 1;
    PieceAt(b, f, j);
    assert e[|e| - 1] == cs[n - 1].sup && t[|t| - 1] == !cs[n - 1].ctype.RightClosed();
  }

  /** With a finite last endpoint, the reshaped list ends with that endpoint and then hi. */
  lemma ReshapeTail<T>(xs: seq<T>, lo: T, hi: T, firstInf: bool, lastInf: bool)
    requires |xs| >= 2 && !lastInf
    ensures var r := Reshape(xs, lo, hi, firstInf, lastInf);
      |r| >= 2 && r[|r| - 2] == xs[|xs| - 1] && r[|r| - 1] == hi
  {
  }

  /** The complement of a nonempty interval: an open piece (-inf, inf0) when the first endpoint is
      not -inf, then one gap per pair of neighbours, then an open piece (sup_last, inf) when the
      last endpoint is not +inf; so n + 1, n, n or n - 1 pieces. */
  lemma ComplementShape(cs: seq<Component>)
    requires cs != []
    ensures var r := Complement(cs); var n := |cs|;
      var head := if cs[0].inf != NegInf then 1 else 0;
      var tail := if cs[n - 1].sup != PosInf then 1 else 0;
      && |r| == n - 1 + head + tail
      && (head == 1 ==> r[0] == Component(NegInf, cs[0].inf, Get(false, !cs[0].ctype.LeftClosed())))
      && (forall i :: 0 < i < n ==> r[i - 1 + head] == Gap(cs, i))
      && (tail == 1 ==> r[|r| - 1] == Component(cs[n - 1].sup, PosInf, Get(!cs[n - 1].ctype.RightClosed(), false)))
  {
    ComplementCount(cs);
    forall i | 0 < i < |cs| ensures Complement(cs)[i - 1 + HeadCount(cs)] == Gap(cs, i) {
      ComplementGap(cs, i);
    }
    if !FirstInf(cs) {
      ComplementHead(cs);
    }
    if !LastInf(cs) {
      ComplementTail(cs);
    }
  }

  /** The endpoint list of the complement. */
  function ComplementEndpoints(e: seq<Ext>): seq<Ext> {
    if |e| < 2 then [NegInf, PosInf]
    else Reshape(e, NegInf, PosInf, e[0] == NegInf, e[|e| - 1] == PosInf)
  }

  lemma EndpointsOfComplement(cs: seq<Component>)
    ensures Endpoints(Complement(cs)) == ComplementEndpoints(Endpoints(cs))
  {
    if cs != [] {
      ComplementEndpointsAreBounds(cs);
      ComplementBoundsAsList(cs);
    } else {
      assert Endpoints(Complement(cs)) == [NegInf, PosInf];
    }
  }

  /** The endpoints of a nonempty interval's complement are its `compl` list. */
  lemma ComplementEndpointsAreBounds(cs: seq<Component>)
    requires cs != []
    ensures Endpoints(Complement(cs)) == ComplementBounds(cs)
  {
    var b, f := ComplementBounds(cs), ComplementFlags(cs);
    ComplementIsPieces(cs);
    PiecesEndpoints(b, f);
  }

  /** `compl` depends only on the endpoint list. */
  lemma ComplementBoundsAsList(cs: seq<Component>)
    requires cs != []
    ensures ComplementBounds(cs) == ComplementEndpoints(Endpoints(cs))
  {
    var e := Endpoints(cs);
    assert e[0] == cs[0].inf && e[|e| - 1] == cs[|cs| - 1].sup;
  }

  /** Only the outermost endpoints may be infinite, and not with the opposite sign. */
  predicate InnerFinite(e: seq<Ext>) {
    && (forall k :: 0 < k < |e| - 1 ==> e[k].Fin?)
    && (|e| > 0 ==> e[0] != PosInf && e[|e| - 1] != NegInf)
  }

  /** Complementing an endpoint list twice restores it when only its outermost endpoints may be infinite. */
  lemma DoubleComplementList(e: seq<Ext>)
    requires |e| >= 2 && |e| % 2 == 0 && InnerFinite(e)
    ensures ComplementEndpoints(ComplementEndpoints(e)) == e
  {
    var n := |e|;
    if e[0] != NegInf && e[n - 1] != PosInf {
      DoubleComplementBounded(e);
    } else if e[0] == NegInf && e[n - 1] == PosInf {
      DoubleComplementUnbounded(e);
    } else if e[0] == NegInf {
      DoubleComplementLeftUnbounded(e);
    } else {
      DoubleComplementRightUnbounded(e);
    }
  }

  lemma DoubleComplementBounded(e: seq<Ext>)
    requires |e| >= 2 && e[0] != NegInf && e[|e| - 1] != PosInf
    ensures ComplementEndpoints(ComplementEndpoints(e)) == e
  {
    var c := ComplementEndpoints(e);
    assert c == [NegInf] + e + [PosInf];
    assert c[1..|c| - 1] == e;
  }

  lemma DoubleComplementUnbounded(e: seq<Ext>)
    requires |e| >= 2 && |e| % 2 == 0 && InnerFinite(e)
    requires e[0] == NegInf && e[|e| - 1] == PosInf
    ensures ComplementEndpoints(ComplementEndpoints(e)) == e
  {
    var n := |e|;
    var c := ComplementEndpoints(e);
    assert c == e[1..n - 1];
    if n > 2 {
      assert c[0] == e[1] && c[|c| - 1] == e[n - 2];
      assert ComplementEndpoints(c) == [NegInf] + c + [PosInf];
      assert [NegInf] + c + [PosInf] == e;
    }
  }

  lemma DoubleComplementLeftUnbounded(e: seq<Ext>)
    requires |e| >= 2 && InnerFinite(e)
    requires e[0] == NegInf && e[|e| - 1] != PosInf
    ensures ComplementEndpoints(ComplementEndpoints(e)) == e
  {
    var n := |e|;
    var c := ComplementEndpoints(e);
    assert c == e[1..] + [PosInf];
    assert c[0] != NegInf by {
      if n > 2 { assert c[0] == e[1]; } else { assert c[0] == e[n - 1]; }
    }
    assert [NegInf] + c[..|c| - 1] == e;
  }

  lemma DoubleComplementRightUnbounded(e: seq<Ext>)
    requires |e| >= 2 && InnerFinite(e)
    requires e[0] != NegInf && e[|e| - 1] == PosInf
    ensures ComplementEndpoints(ComplementEndpoints(e)) == e
  {
    var n := |e|;
    var c := ComplementEndpoints(e);
    assert c == [NegInf] + e[..n - 1];
    assert c[|c| - 1] != PosInf by {
      if n > 2 { assert c[|c| - 1] == e[n - 2]; } else { assert c[|c| - 1] == e[0]; }
    }
    assert c[1..] + [PosInf] == e;
  }

  /** Complementing twice restores the endpoint list when only the outermost endpoints may be infinite. */
  lemma DoubleComplementEndpoints(cs: seq<Component>)
    requires InnerFinite(Endpoints(cs))
    ensures Endpoints(Complement(Complement(cs))) == Endpoints(cs)
  {
    if cs != [] {
      var e := Endpoints(cs);
      assert |e| >= 2 && |e| % 2 == 0;
      DoubleComplementList(e);
      ComplementTwice(cs);
    } else {
      DoubleComplementOfEmpty();
    }
  }

  /** The endpoints of ~~cs are those of cs complemented twice as a list. */
  lemma ComplementTwice(cs: seq<Component>)
    ensures Endpoints(Complement(Complement(cs))) == ComplementEndpoints(ComplementEndpoints(Endpoints(cs)))
  {
    EndpointsOfComplement(cs);
    EndpointsOfComplement(Complement(cs));
  }

  /** ~~[] has no endpoints: ~[] is [-inf, inf], whose complement is empty. */
  lemma DoubleComplementOfEmpty()
    ensures Endpoints(Complement(Complement([]))) == []
  {
    var c := Complement([]);
    EndpointsOfComplement(c);
    EndpointsOfComplement([]);
    assert Endpoints(c) == [NegInf, PosInf];
    assert ComplementEndpoints([NegInf, PosInf]) == [];
  }

  // ---------------------------------------------------------------------------------------
  // What ~interval holds

  /** v lies before c: left of inf, or at an open inf. */
  predicate BelowStart(c: Component, v: Ext) {
    Lt(v, c.inf) || (v == c.inf && !c.ctype.LeftClosed())
  }

  /** v lies after c: right of sup, or at an open sup. */
  predicate AboveEnd(c: Component, v: Ext) {
    Lt(c.sup, v) || (v == c.sup && !c.ctype.RightClosed())
  }

  /** A component holds exactly what lies neither before nor after it. */
  lemma ContainsSides(c: Component, v: Ext)
    ensures Contains(c, v) <==> !BelowStart(c, v) && !AboveEnd(c, v)
  {
    ContainsIff(c, v);
    LtIsStrictLe(v, c.inf);
    LtIsStrictLe(c.sup, v);
  }

  /** The component holds some value: its endpoints differ, or it is a closed point. */
  predicate Solid(c: Component) {
    Lt(c.inf, c.sup) || c.ctype == Closed
  }

  predicate AllSolid(cs: seq<Component>) {
    forall i :: 0 <= i < |cs| ==> Solid(cs[i])
  }

  /** Before one component of a canonical list of solid components means before every later one. */
  lemma {:induction false} BelowStartPropagates(cs: seq<Component>, i: nat, k: nat, v: Ext)
    requires Canonical(cs) && AllSolid(cs)
    requires i <= k < |cs| && BelowStart(cs[i], v)
    ensures BelowStart(cs[k], v)
    decreases k - i
  {
    if i < k {
      var a, b := cs[i], cs[i + 1];
      assert Separated(a, b);
      assert Solid(a) && WellFormed(a);
      assert Lt(v, b.inf) by {
        LtLeTransitive(a.inf, a.sup, b.inf);
        LtLeTransitive(v, a.inf, a.sup);
        LtLeTransitive(v, a.sup, b.inf);
      }
      BelowStartPropagates(cs, i + 1, k, v);
    }
  }

  /** After one component of a canonical list of solid components means after every earlier one. */
  lemma {:induction false} AboveEndPropagates(cs: seq<Component>, i: nat, k: nat, v: Ext)
    requires Canonical(cs) && AllSolid(cs)
    requires i <= k < |cs| && AboveEnd(cs[k], v)
    ensures AboveEnd(cs[i], v)
    decreases k - i
  {
    if i < k {
      var a, b := cs[k - 1], cs[k];
      assert Separated(a, b);
      assert Solid(b) && WellFormed(b);
      assert Lt(a.sup, v) by {
        LtLeTransitive(a.sup, b.inf, b.sup);
        LtLeTransitive(b.inf, b.sup, v);
        LtLeTransitive(a.sup, b.inf, v);
      }
      AboveEndPropagates(cs, i, k - 1, v);
    }
  }

  /** Between a component that v is not before and a later one that v is before there is a first
      component that v is before. */
  lemma {:induction false} FirstBelow(cs: seq<Component>, lo: nat, hi: nat, v: Ext) returns (m: nat)
    requires lo < hi < |cs| && !BelowStart(cs[lo], v) && BelowStart(cs[hi], v)
    ensures lo < m <= hi && !BelowStart(cs[m - 1], v) && BelowStart(cs[m], v)
    decreases hi - lo
  {
    if BelowStart(cs[lo + 1], v) {
      m := lo + 1;
    } else {
      m := FirstBelow(cs, lo + 1, hi, v);
    }
  }

  /** The left piece of the complement holds what lies before the first component. */
  lemma HeadPieceContains(c: Component, v: Ext)
    requires v.Fin?
    ensures Contains(Component(NegInf, c.inf, Get(false, !c.ctype.LeftClosed())), v) <==> BelowStart(c, v)
  {
    LtIsStrictLe(v, c.inf);
  }

  /** A gap holds what lies after the component on its left and before the one on its right. */
  lemma GapContains(cs: seq<Component>, i: nat, v: Ext)
    requires 0 < i < |cs|
    ensures Contains(Gap(cs, i), v) <==> AboveEnd(cs[i - 1], v) && BelowStart(cs[i], v)
  {
    LtIsStrictLe(v, cs[i].inf);
    LtIsStrictLe(cs[i - 1].sup, v);
  }

  /** The right piece of the complement holds what lies after the last component. */
  lemma TailPieceContains(c: Component, v: Ext)
    requires v.Fin?
    ensures Contains(Component(c.sup, PosInf, Get(!c.ctype.RightClosed(), false)), v) <==> AboveEnd(c, v)
  {
    LtIsStrictLe(c.sup, v);
  }

  /** ~interval holds exactly the finite values the interval does not hold, when the interval is
      canonical and each of its components holds something. */
  lemma ComplementMember(cs: seq<Component>, v: Ext)
    requires Canonical(cs) && AllSolid(cs) && v.Fin?
    ensures Member(Complement(cs), v) <==> !Member(cs, v)
  {
    if cs == [] {
      ComplementOfEmpty(v);
    } else if Member(cs, v) {
      var i :| 0 <= i < |cs| && Contains(cs[i], v);
      ComplementNotMember(cs, i, v);
    } else {
      ComplementCovers(cs, v);
    }
  }

  /** The left piece of the complement of a nonempty interval, if any. */
  function HeadPiece(cs: seq<Component>): seq<Component>
    requires cs != []
  {
    if FirstInf(cs) then [] else [Component(NegInf, cs[0].inf, Get(false, !cs[0].ctype.LeftClosed()))]
  }

  /** The right piece of the complement of a nonempty interval, if any. */
  function TailPiece(cs: seq<Component>): seq<Component>
    requires cs != []
  {
    var n := |cs|;
    if LastInf(cs) then [] else [Component(cs[n - 1].sup, PosInf, Get(!cs[n - 1].ctype.RightClosed(), false))]
  }

  /** The complement described piece by piece rather than through the endpoint and flag lists. */
  function GapList(cs: seq<Component>): seq<Component>
    requires cs != []
  {
    HeadPiece(cs) + seq(|cs| - 1, i requires 0 <= i < |cs| - 1 => Gap(cs, i + 1)) + TailPiece(cs)
  }

  lemma GapListAt(cs: seq<Component>, k: nat)
    requires cs != [] && k < |cs| - 1 + HeadCount(cs) + TailCount(cs)
    ensures |GapList(cs)| == |cs| - 1 + HeadCount(cs) + TailCount(cs)
    ensures k < HeadCount(cs) ==> GapList(cs)[k] == HeadPiece(cs)[0]
    ensures HeadCount(cs) <= k < HeadCount(cs) + |cs| - 1 ==> GapList(cs)[k] == Gap(cs, k - HeadCount(cs) + 1)
    ensures HeadCount(cs) + |cs| - 1 <= k ==> GapList(cs)[k] == TailPiece(cs)[0]
  {
  }

  lemma ComplementAt(cs: seq<Component>, k: nat)
    requires cs != [] && k < |cs| - 1 + HeadCount(cs) + TailCount(cs)
    ensures |Complement(cs)| == |cs| - 1 + HeadCount(cs) + TailCount(cs)
    ensures Complement(cs)[k] == GapList(cs)[k]
  {
    ComplementCount(cs);
    if k < HeadCount(cs) {
      ComplementAtHead(cs, k);
    } else if k < HeadCount(cs) + |cs| - 1 {
      ComplementAtGap(cs, k);
    } else {
      ComplementAtTail(cs, k);
    }
  }

  lemma ComplementAtHead(cs: seq<Component>, k: nat)
    requires cs != [] && k < HeadCount(cs)
    ensures |Complement(cs)| == |cs| - 1 + HeadCount(cs) + TailCount(cs)
    ensures Complement(cs)[k] == GapList(cs)[k]
  {
    ComplementCount(cs);
    GapListAt(cs, k);
    ComplementHead(cs);
  }

  lemma ComplementAtGap(cs: seq<Component>, k: nat)
    requires cs != [] && HeadCount(cs) <= k < HeadCount(cs) + |cs| - 1
    ensures |Complement(cs)| == |cs| - 1 + HeadCount(cs) + TailCount(cs)
    ensures Complement(cs)[k] == GapList(cs)[k]
  {
    GapListAt(cs, k);
    ComplementGap(cs, k - HeadCount(cs) + 1);
  }

  lemma ComplementAtTail(cs: seq<Component>, k: nat)
    requires cs != [] && HeadCount(cs) + |cs| - 1 <= k < |cs| - 1 + HeadCount(cs) + TailCount(cs)
    ensures |Complement(cs)| == |cs| - 1 + HeadCount(cs) + TailCount(cs)
    ensures Complement(cs)[k] == GapList(cs)[k]
  {
    ComplementCount(cs);
    assert TailCount(cs) == 1 && !LastInf(cs);
    assert k == |Complement(cs)| - 1;
    GapListAt(cs, k);
    ComplementTail(cs);
  }

  /** __invert__'s reshaping of the endpoint and flag lists yields the pieces one by one. */
  lemma ComplementAsGaps(cs: seq<Component>)
    requires cs != []
    ensures Complement(cs) == GapList(cs)
  {
    ComplementCount(cs);
    assert |Complement(cs)| == |GapList(cs)|;
    forall k | 0 <= k < |Complement(cs)| ensures Complement(cs)[k] == GapList(cs)[k] {
      ComplementAt(cs, k);
    }
  }

  /** No piece of the complement holds a value that cs[i] holds. */
  lemma NotInPiece(cs: seq<Component>, i: nat, j: nat, v: Ext)
    requires Canonical(cs) && AllSolid(cs) && v.Fin?
    requires i < |cs| && Contains(cs[i], v) && j < |cs| - 1 + HeadCount(cs) + TailCount(cs)
    ensures !Contains(GapList(cs)[j], v)
  {
    var n := |cs|;
    GapListAt(cs, j);
    var head := HeadCount(cs);
    ContainsSides(cs[i], v);
    if j < head {
      HeadPieceContains(cs[0], v);
      if BelowStart(cs[0], v) {
        BelowStartPropagates(cs, 0, i, v);
      }
    } else if j < head + n - 1 {
      var m := j - head + 1;
      GapContains(cs, m, v);
      if i < m && AboveEnd(cs[m - 1], v) {
        AboveEndPropagates(cs, i, m - 1, v);
      } else if m <= i && BelowStart(cs[m], v) {
        BelowStartPropagates(cs, m, i, v);
      }
    } else {
      TailPieceContains(cs[n - 1], v);
      if AboveEnd(cs[n - 1], v) {
        AboveEndPropagates(cs, i, n - 1, v);
      }
    }
  }

  lemma ComplementNotMember(cs: seq<Component>, i: nat, v: Ext)
    requires Canonical(cs) && AllSolid(cs) && v.Fin?
    requires i < |cs| && Contains(cs[i], v)
    ensures !Member(Complement(cs), v)
  {
    ComplementCount(cs);
    forall j | 0 <= j < |Complement(cs)| ensures !Contains(Complement(cs)[j], v) {
      ComplementAt(cs, j);
      NotInPiece(cs, i, j, v);
    }
  }

  /** A value no component holds lies in some piece of the complement. */
  lemma ComplementCovers(cs: seq<Component>, v: Ext)
    requires Canonical(cs) && AllSolid(cs) && v.Fin? && cs != []
    requires !Member(cs, v)
    ensures Member(Complement(cs), v)
  {
    var n := |cs|;
    if BelowStart(cs[0], v) {
      ComplementCoversHead(cs, v);
    } else if !BelowStart(cs[n - 1], v) {
      ComplementCoversTail(cs, v);
    } else {
      ComplementCoversGap(cs, v);
    }
  }

  lemma ComplementCoversHead(cs: seq<Component>, v: Ext)
    requires Canonical(cs) && AllSolid(cs) && v.Fin? && cs != []
    requires BelowStart(cs[0], v)
    ensures Member(Complement(cs), v)
  {
    ComplementAsGaps(cs);
    var g := GapList(cs);
    assert cs[0].inf != NegInf;
    GapListAt(cs, 0);
    HeadPieceContains(cs[0], v);
    assert Contains(g[0], v);
  }

  lemma ComplementCoversTail(cs: seq<Component>, v: Ext)
    requires Canonical(cs) && AllSolid(cs) && v.Fin? && cs != []
    requires !Member(cs, v) && !BelowStart(cs[|cs| - 1], v)
    ensures Member(Complement(cs), v)
  {
    var n := |cs|;
    ComplementAsGaps(cs);
    var g := GapList(cs);
    assert !Contains(cs[n - 1], v);
    ContainsSides(cs[n - 1], v);
    assert cs[n - 1].sup != PosInf;
    var j := n - 1 + HeadCount(cs);
    GapListAt(cs, j);
    TailPieceContains(cs[n - 1], v);
    assert Contains(g[j], v);
  }

  lemma ComplementCoversGap(cs: seq<Component>, v: Ext)
    requires Canonical(cs) && AllSolid(cs) && v.Fin? && cs != []
    requires !Member(cs, v) && !BelowStart(cs[0], v) && BelowStart(cs[|cs| - 1], v)
    ensures Member(Complement(cs), v)
  {
    var n := |cs|;
    ComplementAsGaps(cs);
    var g := GapList(cs);
    var m := FirstBelow(cs, 0, n - 1, v);
    assert !Contains(cs[m - 1], v);
    ContainsSides(cs[m - 1], v);
    var j := m - 1 + HeadCount(cs);
    GapListAt(cs, j);
    GapContains(cs, m, v);
    assert Contains(g[j], v);
  }

  // ---------------------------------------------------------------------------------------
  // __or__, __and__, __xor__, __eq__

  /** a | b: the components of both, normalised together. */
  function Union(a: seq<Component>, b: seq<Component>): (r: seq<Component>)
    requires Mergeable(a + b)
    ensures |r| <= |a| + |b|
  {
    Normalize(a + b)
  }

  /** Along a run whose neighbours are continuous, a value admitted by the left side of the first
      member and by the right side of some member lies in one of the members. */
  lemma {:induction false} RunCovers(run: seq<Component>, n: nat, i: nat, v: Ext)
    requires i < n <= |run|
    requires forall t :: 0 < t < |run| ==> AreContinuous(run[t - 1], run[t])
    requires LeftCompare(run[0].ctype, run[0].inf, v)
    requires RightCompare(run[i].ctype, v, run[i].sup)
    ensures exists t :: 0 <= t < n && Contains(run[t], v)
    decreases n
  {
    if i < n - 1 {
      RunCovers(run, n - 1, i, v);
    } else if !LeftCompare(run[i].ctype, run[i].inf, v) {
      assert i > 0;
      var prev, cur := run[i - 1], run[i];
      AreContinuousIff(prev, cur);
      LtIsStrictLe(v, cur.inf);
      if Lt(cur.inf, prev.sup) {
        LtLeTransitive(v, cur.inf, prev.sup);
      }
      assert RightCompare(prev.ctype, v, prev.sup);
      RunCovers(run, n - 1, i - 1, v);
    } else {
      assert Contains(run[i], v);
    }
  }

  /** Merging a run adds no value: whatever the merged component holds, a member holds. */
  lemma MergeRunSound(run: seq<Component>, v: Ext)
    requires run != [] && Contains(MergeRun(run), v)
    requires forall t :: 0 < t < |run| ==> AreContinuous(run[t - 1], run[t])
    ensures exists t :: 0 <= t < |run| && Contains(run[t], v)
  {
    MergeRunSpans(run);
    var m := MergeRun(run);
    var i :| 0 <= i < |run| && run[i].sup == m.sup && m.ctype.RightClosed() == run[i].ctype.RightClosed();
    RunCovers(run, |run|, i, v);
  }

  /** A merged run holds every value strictly inside one of its members, provided the run starts
      at its smallest inf. */
  lemma MergeRunComplete(run: seq<Component>, i: nat, v: Ext)
    requires i < |run| && forall t :: 0 <= t < |run| ==> Le(run[0].inf, run[t].inf)
    requires Lt(run[i].inf, v) && Lt(v, run[i].sup)
    ensures Contains(MergeRun(run), v)
  {
    MergeRunSpans(run);
    var m := MergeRun(run);
    LtLeTransitive(run[0].inf, run[i].inf, v);
    LtLeTransitive(v, run[i].sup, m.sup);
  }

  /** Interval(*cs) holds nothing that no input component holds. */
  lemma NormalizeSound(cs: seq<Component>, v: Ext)
    requires Mergeable(cs) && Member(Normalize(cs), v)
    ensures Member(cs, v)
  {
    if |cs| >= 2 {
      var s := Sort(cs);
      var p := Partition(s, |s|);
      NormalizeRuns(cs);
      var r := Normalize(cs);
      var j :| 0 <= j < |r| && Contains(r[j], v);
      assert r[j] == MergeRun(p[j]);
      MergeRunSound(p[j], v);
      var t :| 0 <= t < |p[j]| && Contains(p[j][t], v);
      FlattenMember(p, j, t);
      assert p[j][t] in multiset(cs);
    }
  }

  /** Interval(*cs) holds every value strictly inside an input component. Values at an input's
      endpoint can be lost: the merged closure comes from the run's first member and from its
      first member of largest sup. */
  lemma NormalizeComplete(cs: seq<Component>, i: nat, v: Ext)
    requires Mergeable(cs) && i < |cs|
    requires Lt(cs[i].inf, v) && Lt(v, cs[i].sup)
    ensures Member(Normalize(cs), v)
  {
    if |cs| >= 2 {
      NormalizeCompleteRuns(cs, i, v);
    } else {
      assert Normalize(cs) == cs;
      assert Contains(cs[i], v);
    }
  }

  /** The merged run holding cs[i] covers v. */
  lemma NormalizeCompleteRuns(cs: seq<Component>, i: nat, v: Ext)
    requires |cs| >= 2 && Mergeable(cs) && i < |cs|
    requires Lt(cs[i].inf, v) && Lt(v, cs[i].sup)
    ensures Member(Normalize(cs), v)
  {
    var s := Sort(cs);
    var p := Partition(s, |s|);
    NormalizeRuns(cs);
    PartitionStartLowest(s, |s|);
    assert cs[i] in multiset(s);
    var j, t := FlattenFind(p, cs[i]);
    MergeRunComplete(p[j], t, v);
    assert Normalize(cs)[j] == MergeRun(p[j]);
  }

  /** Every value of a | b is a value of a or of b. */
  lemma UnionSound(a: seq<Component>, b: seq<Component>, v: Ext)
    requires Mergeable(a + b) && Member(Union(a, b), v)
    ensures Member(a, v) || Member(b, v)
  {
    NormalizeSound(a + b, v);
    var k :| 0 <= k < |a + b| && Contains((a + b)[k], v);
    if k >= |a| {
      assert Contains(b[k - |a|], v);
    }
  }

  /** Every value strictly inside a component of a or of b is a value of a | b. */
  lemma UnionComplete(a: seq<Component>, b: seq<Component>, c: Component, v: Ext)
    requires Mergeable(a + b) && (c in a || c in b)
    requires Lt(c.inf, v) && Lt(v, c.sup)
    ensures Member(Union(a, b), v)
  {
    assert c in a + b;
    var k :| 0 <= k < |a + b| && (a + b)[k] == c;
    NormalizeComplete(a + b, k, v);
  }

  /** The union that a & b performs is defined. */
  predicate IntersectDefined(a: seq<Component>, b: seq<Component>) {
    Mergeable(Complement(a) + Complement(b))
  }

  /** a & b == ~(~a | ~b). */
  function Intersect(a: seq<Component>, b: seq<Component>): seq<Component>
    requires IntersectDefined(a, b)
  {
    Complement(Union(Complement(a), Complement(b)))
  }

  /** The three unions that a ^ b performs are defined. */
  predicate XorDefined(a: seq<Component>, b: seq<Component>) {
    && IntersectDefined(a, Complement(b))
    && IntersectDefined(Complement(a), b)
    && Mergeable(Intersect(a, Complement(b)) + Intersect(Complement(a), b))
  }

  /** a ^ b == (a & ~b) | (~a & b). */
  function SymmetricDifference(a: seq<Component>, b: seq<Component>): seq<Component>
    requires XorDefined(a, b)
  {
    Union(Intersect(a, Complement(b)), Intersect(Complement(a), b))
  }

  /** A value both canonical intervals hold is in a & b, provided the union ~a | ~b that & builds
      comes out canonical. Without that proviso the equation fails: see Scenarios. */
  lemma IntersectKeepsCommon(a: seq<Component>, b: seq<Component>, v: Ext)
    requires IntersectDefined(a, b) && v.Fin?
    requires Canonical(a) && AllSolid(a) && Canonical(b) && AllSolid(b)
    requires Canonical(Union(Complement(a), Complement(b))) && AllSolid(Union(Complement(a), Complement(b)))
    requires Member(a, v) && Member(b, v)
    ensures Member(Intersect(a, b), v)
  {
    var u := Union(Complement(a), Complement(b));
    ComplementMember(a, v);
    ComplementMember(b, v);
    if Member(u, v) {
      UnionSound(Complement(a), Complement(b), v);
      assert false;
    }
    ComplementMember(u, v);
  }

  /** Every value of a ^ b is a value of a & ~b or of ~a & b. */
  lemma XorSound(a: seq<Component>, b: seq<Component>, v: Ext)
    requires XorDefined(a, b) && Member(SymmetricDifference(a, b), v)
    ensures Member(Intersect(a, Complement(b)), v) || Member(Intersect(Complement(a), b), v)
  {
    UnionSound(Intersect(a, Complement(b)), Intersect(Complement(a), b), v);
  }

  /** a == b compares the endpoint lists only. */
  predicate Equal(a: seq<Component>, b: seq<Component>) {
    Endpoints(a) == Endpoints(b)
  }

  /** Equality holds exactly when the components agree pairwise on inf and sup, whatever their closures. */
  lemma EqualIff(a: seq<Component>, b: seq<Component>)
    ensures Equal(a, b) <==>
      |a| == |b| && forall i :: 0 <= i < |a| ==> a[i].inf == b[i].inf && a[i].sup == b[i].sup
  {
    if |a| == |b| && forall i :: 0 <= i < |a| ==> a[i].inf == b[i].inf && a[i].sup == b[i].sup {
      var ea, eb := Endpoints(a), Endpoints(b);
      forall k | 0 <= k < |ea| ensures ea[k] == eb[k] {
        var i := k / 2;
        if k % 2 == 0 {
          assert k == 2 * i && ea[2 * i] == a[i].inf && eb[2 * i] == b[i].inf;
        } else {
          assert k == 2 * i + 1 && ea[2 * i + 1] == a[i].sup && eb[2 * i + 1] == b[i].sup;
        }
      }
    }
    if Equal(a, b) {
      assert |Endpoints(a)| == |Endpoints(b)|;
    }
  }

  /** So two intervals with the same endpoints and different closures compare equal though
      they hold different points: [1, 2] == (1, 2). */
  lemma EqualIgnoresClosures()
    ensures var closed := [Component(Fin(1.0), Fin(2.0), Closed)];
      var open := [Component(Fin(1.0), Fin(2.0), Open)];
      Equal(closed, open) && Member(closed, Fin(1.0)) && !Member(open, Fin(1.0))
  {
    var closed := [Component(Fin(1.0), Fin(2.0), Closed)];
    var open := [Component(Fin(1.0), Fin(2.0), Open)];
    EqualIff(closed, open);
    assert Contains(closed[0], Fin(1.0));
  }
}
