/** Concrete behaviours of &, of the constructor's dependence on input order, and of the
    groupby and midpoint views, worked out step by step. */
module AlgebraScenarios {
  import opened ExtReals
  import opened ComponentTypes
  import opened Components
  import opened Normalization
  import opened Algebra
  import opened Queries
  import opened Scenarios

  // ---------------------------------------------------------------------------------------
  // Normalising four components that form two runs of two

  /** The scan over four components where the third starts the second run. */
  lemma ScanTwoPairs(s: seq<Component>)
    requires |s| == 4 && AreContinuous(s[0], s[1]) && !AreContinuous(s[1], s[2])
    requires AreContinuous(s[2], s[3]) && AreContinuous(s[3], s[3])
    ensures Partition(s, 4) == [[s[0], s[1]], [s[2], s[3]]]
  {
    assert Neighbour(s, 0) == s[1] && Neighbour(s, 1) == s[2];
    assert Neighbour(s, 2) == s[3] && Neighbour(s, 3) == s[3];
    assert Partition(s, 0) == [[]];
    var g1 := Grow([[]], s[0]);
    assert Last(g1) == [] + [s[0]] == [s[0]];
    assert Partition(s, 1) == [[s[0]]];
    var g2 := Grow([[s[0]]], s[1]);
    assert Last(g2) == [s[0]] + [s[1]] == [s[0], s[1]];
    assert Partition(s, 2) == [[s[0], s[1]], []];
    var g3 := Grow([[s[0], s[1]], []], s[2]);
    assert Last(g3) == [] + [s[2]] == [s[2]];
    assert Partition(s, 3) == [[s[0], s[1]], [s[2]]];
    var g4 := Grow([[s[0], s[1]], [s[2]]], s[3]);
    assert Last(g4) == [s[2]] + [s[3]] == [s[2], s[3]];
  }

  /** A list whose sorted order is two continuous pairs normalises into the two pairs' merges. */
  lemma NormalizeTwoPairs(cs: seq<Component>, s: seq<Component>)
    requires |cs| == 4 && s == Sort(cs)
    requires AreContinuous(s[0], s[1]) && !AreContinuous(s[1], s[2])
    requires AreContinuous(s[2], s[3]) && AreContinuous(s[3], s[3])
    ensures Mergeable(cs) && Normalize(cs) == [MergeRun([s[0], s[1]]), MergeRun([s[2], s[3]])]
  {
    assert |s| == 4 && Last(s) == s[3];
    assert Mergeable(cs);
    ScanTwoPairs(s);
    MergeTwo([s[0], s[1]], [s[2], s[3]]);
  }

  lemma MergeTwo(r0: seq<Component>, r1: seq<Component>)
    requires r0 != [] && r1 != []
    ensures Merge([r0, r1]) == [MergeRun(r0), MergeRun(r1)]
  {
    var m := Merge([r0, r1]);
    assert |m| == 2 && m[0] == MergeRun(r0) && m[1] == MergeRun(r1);
  }

  // ---------------------------------------------------------------------------------------
  // [a, b] & [c, d] for overlapping closed components

  /** The pieces of ~[a, b] and ~[c, d] with a < c < b < d sort as (-inf, a), (-inf, c), (b, inf),
      (d, inf). */
  lemma OverlapGapsSort(a: real, b: real, c: real, d: real)
    requires a < c < b < d
    ensures Sort([Component(NegInf, Fin(a), Open), Component(Fin(b), PosInf, Open),
                  Component(NegInf, Fin(c), Open), Component(Fin(d), PosInf, Open)])
      == [Component(NegInf, Fin(a), Open), Component(NegInf, Fin(c), Open),
          Component(Fin(b), PosInf, Open), Component(Fin(d), PosInf, Open)]
  {
    var x0, x1 := Component(NegInf, Fin(a), Open), Component(Fin(b), PosInf, Open);
    var x2, x3 := Component(NegInf, Fin(c), Open), Component(Fin(d), PosInf, Open);
    assert KeyLe(x2, x3) && !KeyLe(x1, x2) && KeyLe(x1, x3) && KeyLe(x0, x2);
    SortFourMiddle(x0, x1, x2, x3);
  }

  /** ~[a, b] | ~[c, d] with a < c < b < d is (-inf, c), (b, inf): the two lower pieces merge, and
      so do the two upper ones. */
  lemma OverlapGapsNormalize(a: real, b: real, c: real, d: real)
    requires a < c < b < d
    ensures var cs := [Component(NegInf, Fin(a), Open), Component(Fin(b), PosInf, Open),
                       Component(NegInf, Fin(c), Open), Component(Fin(d), PosInf, Open)];
      Mergeable(cs) && Normalize(cs) == [Component(NegInf, Fin(c), Open), Component(Fin(b), PosInf, Open)]
  {
    var cs := [Component(NegInf, Fin(a), Open), Component(Fin(b), PosInf, Open),
               Component(NegInf, Fin(c), Open), Component(Fin(d), PosInf, Open)];
    var s := [Component(NegInf, Fin(a), Open), Component(NegInf, Fin(c), Open),
              Component(Fin(b), PosInf, Open), Component(Fin(d), PosInf, Open)];
    OverlapGapsSort(a, b, c, d);
    OverlapGapsContinuous(a, b, c, d);
    NormalizeTwoPairs(cs, s);
    OverlapGapsMerge(a, b, c, d);
  }

  /** In that order the lower pair touches, the upper pair touches, and the two pairs do not. */
  lemma OverlapGapsContinuous(a: real, b: real, c: real, d: real)
    requires a < c < b < d
    ensures var s := [Component(NegInf, Fin(a), Open), Component(NegInf, Fin(c), Open),
                      Component(Fin(b), PosInf, Open), Component(Fin(d), PosInf, Open)];
      && AreContinuous(s[0], s[1]) && !AreContinuous(s[1], s[2])
      && AreContinuous(s[2], s[3]) && AreContinuous(s[3], s[3])
  {
  }

  /** The lower pair merges into (-inf, c) and the upper pair into (b, inf). */
  lemma OverlapGapsMerge(a: real, b: real, c: real, d: real)
    requires a < c < b < d
    ensures MergeRun([Component(NegInf, Fin(a), Open), Component(NegInf, Fin(c), Open)])
      == Component(NegInf, Fin(c), Open)
    ensures MergeRun([Component(Fin(b), PosInf, Open), Component(Fin(d), PosInf, Open)])
      == Component(Fin(b), PosInf, Open)
  {
    MergePair(Component(NegInf, Fin(a), Open), Component(NegInf, Fin(c), Open));
    MergePair(Component(Fin(b), PosInf, Open), Component(Fin(d), PosInf, Open));
    GetOfFlags(Open);
  }

  /** ~((-inf, c), (b, inf)) with c < b is the one gap [c, b]. */
  lemma ComplementOfTwoRays(b: real, c: real)
    ensures Complement([Component(NegInf, Fin(c), Open), Component(Fin(b), PosInf, Open)])
      == [C(c, b, Closed)]
  {
    var u := [Component(NegInf, Fin(c), Open), Component(Fin(b), PosInf, Open)];
    ComplementShape(u);
    assert Gap(u, 1) == C(c, b, Closed);
  }

  /** [a, b] & [c, d] with a < c < b < d is [c, b] (for instance [1, 4] & [2, 5] == [2, 4]). */
  lemma OverlapIntersection(a: real, b: real, c: real, d: real)
    requires a < c < b < d
    ensures var x, y := [C(a, b, Closed)], [C(c, d, Closed)];
      IntersectDefined(x, y) && Intersect(x, y) == [C(c, b, Closed)]
  {
    ComplementsSideBySide(a, b, c, d);
    OverlapGapsNormalize(a, b, c, d);
    ComplementOfTwoRays(b, c);
  }

  // ---------------------------------------------------------------------------------------
  // a & b holding a value that a does not hold

  /** The first interval: (-inf, l1], [h1, inf). */
  function Outer(l1: real, h1: real): seq<Component> {
    [Component(NegInf, Fin(l1), HalfClosedRight), Component(Fin(h1), PosInf, HalfClosedLeft)]
  }

  /** The second interval: (-inf, l2], [m1, m2], [h2, inf). */
  function Inner(l2: real, m1: real, m2: real, h2: real): seq<Component> {
    [Component(NegInf, Fin(l2), HalfClosedRight), C(m1, m2, Closed), Component(Fin(h2), PosInf, HalfClosedLeft)]
  }

  /** ~((-inf, l1], [h1, inf)) is (l1, h1). */
  lemma ComplementOfOuter(l1: real, h1: real)
    ensures Complement(Outer(l1, h1)) == [C(l1, h1, Open)]
  {
    var a := Outer(l1, h1);
    ComplementShape(a);
    assert Gap(a, 1) == C(l1, h1, Open);
  }

  /** ~((-inf, l2], [m1, m2], [h2, inf)) is (l2, m1), (m2, h2). */
  lemma ComplementOfInner(l2: real, m1: real, m2: real, h2: real)
    ensures Complement(Inner(l2, m1, m2, h2)) == [C(l2, m1, Open), C(m2, h2, Open)]
  {
    var b := Inner(l2, m1, m2, h2);
    ComplementShape(b);
    assert Gap(b, 1) == C(l2, m1, Open) && Gap(b, 2) == C(m2, h2, Open);
  }

  /** (l1, h1), (l2, m1), (m2, h2) with l1 < l2 < m1 < m2 < h2 < h1 are in key order; the first
      two touch, the last two do not. */
  lemma SpannedGapsScan(l1: real, l2: real, m1: real, m2: real, h2: real, h1: real)
    requires l1 < l2 < m1 < m2 < h2 < h1
    ensures var cs := [C(l1, h1, Open), C(l2, m1, Open), C(m2, h2, Open)];
      && KeyLe(cs[0], cs[1]) && KeyLe(cs[1], cs[2])
      && AreContinuous(cs[0], cs[1]) && !AreContinuous(cs[1], cs[2]) && AreContinuous(cs[2], cs[2])
      && !Lt(cs[0].sup, cs[1].sup)
  {
  }

  /** (l1, h1) | (l2, m1), (m2, h2): the scan cuts between (l2, m1) and (m2, h2) although
      (l1, h1) spans both, so the union keeps two overlapping components. */
  lemma SpannedGapsUnion(l1: real, l2: real, m1: real, m2: real, h2: real, h1: real)
    requires l1 < l2 < m1 < m2 < h2 < h1
    ensures Mergeable([C(l1, h1, Open)] + [C(l2, m1, Open), C(m2, h2, Open)])
    ensures Union([C(l1, h1, Open)], [C(l2, m1, Open), C(m2, h2, Open)])
      == [C(l1, h1, Open), C(m2, h2, Open)]
  {
    var cs := [C(l1, h1, Open), C(l2, m1, Open), C(m2, h2, Open)];
    assert [C(l1, h1, Open)] + [C(l2, m1, Open), C(m2, h2, Open)] == cs;
    SpannedGapsScan(l1, l2, m1, m2, h2, h1);
    NormalizeTwoRuns(cs);
    GetOfFlags(Open);
  }

  /** ~((l1, h1), (m2, h2)) is (-inf, l1], [h1, m2], [h2, inf): a reversed gap and a tail ray. */
  lemma ComplementOfOverlapping(l1: real, h1: real, m2: real, h2: real)
    ensures Complement([C(l1, h1, Open), C(m2, h2, Open)])
      == [Component(NegInf, Fin(l1), HalfClosedRight), C(h1, m2, Closed),
          Component(Fin(h2), PosInf, HalfClosedLeft)]
  {
    var u := [C(l1, h1, Open), C(m2, h2, Open)];
    ComplementHead(u);
    ComplementGap(u, 1);
    ComplementTail(u);
    var r := Complement(u);
    assert |r| == 3 && HeadCount(u) == 1;
    assert Gap(u, 1) == C(h1, m2, Closed);
  }

  /** With l1 < l2 < m1 < m2 < h2 < h1, (-inf, l1], [h1, inf) & (-inf, l2], [m1, m2], [h2, inf) is
      (-inf, l1], [h1, m2], [h2, inf): ~a | ~b keeps (m2, h2) beside (l1, h1), and complementing
      that list produces a reversed gap and the ray [h2, inf). */
  lemma IntersectOfRays(l1: real, l2: real, m1: real, m2: real, h2: real, h1: real)
    requires l1 < l2 < m1 < m2 < h2 < h1
    ensures IntersectDefined(Outer(l1, h1), Inner(l2, m1, m2, h2))
    ensures Intersect(Outer(l1, h1), Inner(l2, m1, m2, h2))
      == [Component(NegInf, Fin(l1), HalfClosedRight), C(h1, m2, Closed),
          Component(Fin(h2), PosInf, HalfClosedLeft)]
  {
    ComplementOfOuter(l1, h1);
    ComplementOfInner(l2, m1, m2, h2);
    SpannedGapsUnion(l1, l2, m1, m2, h2, h1);
    ComplementOfOverlapping(l1, h1, m2, h2);
  }

  /** So for those two canonical intervals a & b holds every v in [h2, h1), which b holds and a
      does not (for instance a = (-inf, 1], [10, inf), b = (-inf, 2], [3, 5], [6, inf) and
      v = 7): a & b is not the pointwise intersection in general. */
  lemma IntersectAddsValue(l1: real, l2: real, m1: real, m2: real, h2: real, h1: real, v: real)
    requires l1 < l2 < m1 < m2 < h2 <= v < h1
    ensures Canonical(Outer(l1, h1)) && Canonical(Inner(l2, m1, m2, h2))
    ensures IntersectDefined(Outer(l1, h1), Inner(l2, m1, m2, h2))
    ensures Member(Inner(l2, m1, m2, h2), Fin(v)) && !Member(Outer(l1, h1), Fin(v))
    ensures Member(Intersect(Outer(l1, h1), Inner(l2, m1, m2, h2)), Fin(v))
  {
    IntersectOfRays(l1, l2, m1, m2, h2, h1);
    RaysHold(l1, l2, m1, m2, h2, h1, v);
  }

  /** Where v lies with respect to the components involved. */
  lemma RaysHold(l1: real, l2: real, m1: real, m2: real, h2: real, h1: real, v: real)
    requires l1 < l2 < m1 < m2 < h2 <= v < h1
    ensures Canonical(Outer(l1, h1)) && Canonical(Inner(l2, m1, m2, h2))
    ensures Member(Inner(l2, m1, m2, h2), Fin(v)) && !Member(Outer(l1, h1), Fin(v))
    ensures Member([Component(NegInf, Fin(l1), HalfClosedRight), C(h1, m2, Closed),
                    Component(Fin(h2), PosInf, HalfClosedLeft)], Fin(v))
  {
    var a, b := Outer(l1, h1), Inner(l2, m1, m2, h2);
    var r := [Component(NegInf, Fin(l1), HalfClosedRight), C(h1, m2, Closed),
              Component(Fin(h2), PosInf, HalfClosedLeft)];
    assert Contains(r[2], Fin(v)) && Contains(b[2], Fin(v));
    assert !Contains(a[0], Fin(v)) && !Contains(a[1], Fin(v));
  }

  // ---------------------------------------------------------------------------------------
  // The constructor depends on the order of components with equal keys

  /** The run [a, b), [a, b], (b, c) merges into [a, c): the last member has the largest sup. */
  lemma MergeHalfOpenFirst(a: real, b: real, c: real)
    requires b < c
    ensures MergeRun([C(a, b, HalfClosedLeft), C(a, b, Closed), C(b, c, Open)]) == C(a, c, HalfClosedLeft)
  {
    var cs := [C(a, b, HalfClosedLeft), C(a, b, Closed), C(b, c, Open)];
    var sups := Sups(cs);
    assert sups == [Fin(b), Fin(b), Fin(c)];
    var m := FirstMaxIndex(sups);
    assert Le(sups[2], sups[m]);
    assert m == 2;
  }

  /** [a, b), [a, b], (b, c) are in key order and touch in turn; [a, b], [a, b), (b, c) are in key
      order too, but [a, b) and (b, c) do not touch. */
  lemma TiedScan(a: real, b: real, c: real)
    requires a < b < c
    ensures var x := [C(a, b, HalfClosedLeft), C(a, b, Closed), C(b, c, Open)];
      && KeyLe(x[0], x[1]) && KeyLe(x[1], x[2])
      && AreContinuous(x[0], x[1]) && AreContinuous(x[1], x[2]) && AreContinuous(x[2], x[2])
    ensures var y := [C(a, b, Closed), C(a, b, HalfClosedLeft), C(b, c, Open)];
      && KeyLe(y[0], y[1]) && KeyLe(y[1], y[2]) && !Lt(y[0].sup, y[1].sup)
      && AreContinuous(y[0], y[1]) && !AreContinuous(y[1], y[2]) && AreContinuous(y[2], y[2])
  {
  }

  /** [a, b), [a, b], (b, c) in this order form one run, which merges into [a, c). */
  lemma HalfOpenFirstMerges(a: real, b: real, c: real)
    requires a < b < c
    ensures var cs := [C(a, b, HalfClosedLeft), C(a, b, Closed), C(b, c, Open)];
      Mergeable(cs) && Normalize(cs) == [C(a, c, HalfClosedLeft)]
  {
    var cs := [C(a, b, HalfClosedLeft), C(a, b, Closed), C(b, c, Open)];
    TiedScan(a, b, c);
    SortedThree(cs);
    NormalizeSingleRun(cs, cs);
    MergeHalfOpenFirst(a, b, c);
  }

  lemma SortedThree(cs: seq<Component>)
    requires |cs| == 3 && KeyLe(cs[0], cs[1]) && KeyLe(cs[1], cs[2])
    ensures Sort(cs) == cs
  {
    SortOfSorted(cs);
  }

  /** [a, b], [a, b), (b, c) in this order form two runs: [a, b), which does not hold b, cuts
      the scan before (b, c). */
  lemma ClosedFirstSplits(a: real, b: real, c: real)
    requires a < b < c
    ensures var cs := [C(a, b, Closed), C(a, b, HalfClosedLeft), C(b, c, Open)];
      Mergeable(cs) && Normalize(cs) == [C(a, b, Closed), C(b, c, Open)]
  {
    var cs := [C(a, b, Closed), C(a, b, HalfClosedLeft), C(b, c, Open)];
    TiedScan(a, b, c);
    NormalizeTwoRuns(cs);
    GetOfFlags(Closed);
  }

  /** The stored components depend on the order of two components with equal (inf, sup): the same
      three components give one component in one order and two in the other, and the two
      results do not compare equal (for instance [0, 1), [0, 1], (1, 2) against
      [0, 1], [0, 1), (1, 2)). */
  lemma NormalizeOrderDependent(a: real, b: real, c: real)
    requires a < b < c
    ensures var x := [C(a, b, HalfClosedLeft), C(a, b, Closed), C(b, c, Open)];
      var y := [C(a, b, Closed), C(a, b, HalfClosedLeft), C(b, c, Open)];
      && multiset(x) == multiset(y)
      && Mergeable(x) && Mergeable(y)
      && !Equal(Normalize(x), Normalize(y))
  {
    HalfOpenFirstMerges(a, b, c);
    ClosedFirstSplits(a, b, c);
    var x := [C(a, b, HalfClosedLeft), C(a, b, Closed), C(b, c, Open)];
    var y := [C(a, b, Closed), C(a, b, HalfClosedLeft), C(b, c, Open)];
    SwapFirstTwo(x, y);
    assert |Endpoints(Normalize(x))| != |Endpoints(Normalize(y))|;
  }

  lemma SwapFirstTwo(x: seq<Component>, y: seq<Component>)
    requires |x| == |y| == 3 && y[0] == x[1] && y[1] == x[0] && y[2] == x[2]
    ensures multiset(x) == multiset(y)
  {
    assert x == [x[0], x[1]] + [x[2]] && y == [x[1], x[0]] + [x[2]];
    assert multiset([x[0], x[1]]) == multiset([x[1], x[0]]);
  }

  // ---------------------------------------------------------------------------------------
  // extrema and midpoint on small inputs

  /** A single value is its own key. */
  lemma DedupSingle(x: Ext)
    ensures Dedup([x]) == [x]
  {
    assert [x][..0] == [];
  }

  /** groupby collapses neighbours: x, x, y gives x, y. */
  lemma DedupCollapsesNeighbours(x: Ext, y: Ext)
    requires x != y
    ensures Dedup([x, x, y]) == [x, y]
  {
    DedupSingle(x);
    assert [x, x][..1] == [x];
    assert Dedup([x, x]) == [x];
    assert [x, x, y][..2] == [x, x];
  }

  /** groupby keeps repeats that are not neighbours: x, y, x keeps all three. */
  lemma DedupKeepsDistantRepeats(x: Ext, y: Ext)
    requires x != y
    ensures Dedup([x, y, x]) == [x, y, x]
  {
    DedupSingle(x);
    assert [x, y][..1] == [x];
    assert Dedup([x, y]) == [x, y];
    assert [x, y, x][..2] == [x, y];
  }

  /** The midpoint of [a, b], [c, c] holds the empty components (m, m) and (c, c) with m the
      half-sum of a and b, which compare equal to the closed points m and c (for instance [1, 2],
      [3, 3] gives 1.5 and 3). */
  lemma MidpointOfPair(a: real, b: real, c: real)
    ensures var m := (a + b) / 2.0;
      Midpoint([C(a, b, Closed), C(c, c, Closed)]) == [C(m, m, Open), C(c, c, Open)]
    ensures var m := (a + b) / 2.0;
      Equal(Midpoint([C(a, b, Closed), C(c, c, Closed)]), [C(m, m, Closed), C(c, c, Closed)])
  {
    var m := (a + b) / 2.0;
    var cs := [C(a, b, Closed), C(c, c, Closed)];
    var r := Midpoint(cs);
    assert Mid(cs[0].inf, cs[0].sup) == Fin(m) && Mid(cs[1].inf, cs[1].sup) == Fin(c);
    assert r[0] == C(m, m, Open) && r[1] == C(c, c, Open);
    EqualIff(r, [C(m, m, Closed), C(c, c, Closed)]);
  }
}
