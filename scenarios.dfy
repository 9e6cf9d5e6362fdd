/** Concrete behaviours of the normalising constructor, of hull and of & that the general lemmas
    leave open: which inputs merge, which points are lost, when the constructor raises, and what
    the intersection of two disjoint intervals is. */
module Scenarios {
  import opened Errors
  import opened ExtReals
  import opened ComponentTypes
  import opened Components
  import opened Normalization
  import opened Algebra
  import opened Queries

  function C(a: real, b: real, t: ComponentType): Component {
    Component(Fin(a), Fin(b), t)
  }

  /** The scan over two components that form one run. */
  lemma ScanOneRun(cs: seq<Component>)
    requires |cs| == 2 && AreContinuous(cs[0], cs[1]) && AreContinuous(cs[1], cs[1])
    ensures Partition(cs, 2) == [[cs[0], cs[1]]]
  {
    assert Neighbour(cs, 0) == cs[1] && Neighbour(cs, 1) == cs[1];
    assert Partition(cs, 0) == [[]];
    var g1 := Grow([[]], cs[0]);
    assert Last(g1) == [] + [cs[0]] == [cs[0]];
    assert Partition(cs, 1) == [[cs[0]]];
    var g2 := Grow([[cs[0]]], cs[1]);
    assert Last(g2) == [cs[0]] + [cs[1]] == [cs[0], cs[1]];
  }

  /** The scan over three components where the third starts a run of its own. */
  lemma ScanTwoRuns(cs: seq<Component>)
    requires |cs| == 3 && AreContinuous(cs[0], cs[1])
    requires !AreContinuous(cs[1], cs[2]) && AreContinuous(cs[2], cs[2])
    ensures Partition(cs, 3) == [[cs[0], cs[1]], [cs[2]]]
  {
    assert Neighbour(cs, 0) == cs[1] && Neighbour(cs, 1) == cs[2] && Neighbour(cs, 2) == cs[2];
    assert Partition(cs, 0) == [[]];
    var g1 := Grow([[]], cs[0]);
    assert Last(g1) == [] + [cs[0]] == [cs[0]];
    assert Partition(cs, 1) == [[cs[0]]];
    var g2 := Grow([[cs[0]]], cs[1]);
    assert Last(g2) == [cs[0]] + [cs[1]] == [cs[0], cs[1]];
    assert Partition(cs, 2) == [[cs[0], cs[1]], []];
    var g3 := Grow([[cs[0], cs[1]], []], cs[2]);
    assert Last(g3) == [] + [cs[2]] == [cs[2]];
  }

  /** For components already in key order, normalising merges the runs the scan produces. */
  lemma NormalizeSorted(cs: seq<Component>, p: seq<seq<Component>>)
    requires |cs| >= 2 && SortedByKey(cs) && AreContinuous(Last(cs), Last(cs))
    requires Partition(cs, |cs|) == p && forall j :: 0 <= j < |p| ==> p[j] != []
    ensures Mergeable(cs) && Normalize(cs) == Merge(p)
  {
    SortOfSorted(cs);
  }

  /** The merge of a two-member run ends with the first member of larger sup. */
  lemma MergePair(x: Component, y: Component)
    ensures MergeRun([x, y]) == FromExtrema(x, if Lt(x.sup, y.sup) then y else x)
  {
    assert Sups([x, y]) == [x.sup, y.sup];
    assert Sups([x, y])[..1] == [x.sup];
  }

  /** A one-member run merges into that member. */
  lemma MergeSingle(x: Component)
    ensures MergeRun([x]) == x
  {
    GetOfFlags(x.ctype);
  }

  /** Two sorted components that touch merge into one. */
  lemma NormalizeOneRun(cs: seq<Component>)
    requires |cs| == 2 && KeyLe(cs[0], cs[1])
    requires AreContinuous(cs[0], cs[1]) && AreContinuous(cs[1], cs[1])
    ensures Mergeable(cs)
    ensures Normalize(cs) == [FromExtrema(cs[0], if Lt(cs[0].sup, cs[1].sup) then cs[1] else cs[0])]
  {
    SortOfSorted(cs);
    NormalizeSingleRun(cs, cs);
    assert cs == [cs[0], cs[1]];
    MergePair(cs[0], cs[1]);
  }

  /** Three sorted components, the last apart from the second, merge into two. */
  lemma NormalizeTwoRuns(cs: seq<Component>)
    requires |cs| == 3 && KeyLe(cs[0], cs[1]) && KeyLe(cs[1], cs[2])
    requires AreContinuous(cs[0], cs[1]) && !AreContinuous(cs[1], cs[2]) && AreContinuous(cs[2], cs[2])
    ensures Mergeable(cs)
    ensures Normalize(cs) == [FromExtrema(cs[0], if Lt(cs[0].sup, cs[1].sup) then cs[1] else cs[0]), cs[2]]
  {
    ScanTwoRuns(cs);
    var p := [[cs[0], cs[1]], [cs[2]]];
    NormalizeSorted(cs, p);
    assert Merge(p) == [MergeRun(p[0]), MergeRun(p[1])];
    MergePair(cs[0], cs[1]);
    MergeSingle(cs[2]);
  }

  /** A run is cut between neighbours that do not touch, even when an earlier member spans the
      later run: [a, f], [b, c], [d, e] with c < d <= e <= f normalises to [a, f], [d, e]
      (for instance [0, 10], [1, 2], [5, 6] to [0, 10], [5, 6]). */
  lemma SpannedRunIsKept(a: real, b: real, c: real, d: real, e: real, f: real)
    requires a < b <= c < d <= e <= f
    ensures var cs := [C(a, f, Closed), C(b, c, Closed), C(d, e, Closed)];
      Mergeable(cs) && Normalize(cs) == [C(a, f, Closed), C(d, e, Closed)]
  {
    var cs := [C(a, f, Closed), C(b, c, Closed), C(d, e, Closed)];
    assert KeyLe(cs[0], cs[1]) && KeyLe(cs[1], cs[2]);
    assert AreContinuous(cs[0], cs[1]) && !AreContinuous(cs[1], cs[2]) && AreContinuous(cs[2], cs[2]);
    NormalizeTwoRuns(cs);
    GetOfFlags(Closed);
  }

  /** Normalising twice can merge further: [a, b], [c, b), (b, d) with a < c < b < d becomes
      [a, b], (b, d), whose two components touch at b and merge into [a, d) the second time. */
  lemma NormalizeNotIdempotent(a: real, b: real, c: real, d: real)
    requires a < c < b < d
    ensures var cs := [C(a, b, Closed), C(c, b, HalfClosedLeft), C(b, d, Open)];
      && Mergeable(cs) && Normalize(cs) == [C(a, b, Closed), C(b, d, Open)]
      && Mergeable(Normalize(cs)) && Normalize(Normalize(cs)) == [C(a, d, HalfClosedLeft)]
  {
    NormalizeFirstPass(a, b, c, d);
    NormalizeSecondPass(a, b, d);
  }

  lemma NormalizeFirstPass(a: real, b: real, c: real, d: real)
    requires a < c < b < d
    ensures var cs := [C(a, b, Closed), C(c, b, HalfClosedLeft), C(b, d, Open)];
      Mergeable(cs) && Normalize(cs) == [C(a, b, Closed), C(b, d, Open)]
  {
    var cs := [C(a, b, Closed), C(c, b, HalfClosedLeft), C(b, d, Open)];
    assert KeyLe(cs[0], cs[1]) && KeyLe(cs[1], cs[2]);
    assert AreContinuous(cs[0], cs[1]) && !AreContinuous(cs[1], cs[2]) && AreContinuous(cs[2], cs[2]);
    NormalizeTwoRuns(cs);
    GetOfFlags(Closed);
  }

  lemma NormalizeSecondPass(a: real, b: real, d: real)
    requires a < b < d
    ensures var once := [C(a, b, Closed), C(b, d, Open)];
      Mergeable(once) && Normalize(once) == [C(a, d, HalfClosedLeft)]
  {
    var once := [C(a, b, Closed), C(b, d, Open)];
    assert KeyLe(once[0], once[1]);
    assert AreContinuous(once[0], once[1]) && AreContinuous(once[1], once[1]);
    NormalizeOneRun(once);
  }

  /** A tie on inf lets the merged component lose a point: (a, b] and [a, c] with a < b <= c sort
      with (a, b] first (by sup when b < c, by input order when b = c), so the merge is (a, c]
      and a, which [a, c] holds, is gone. */
  lemma TiedInfLosesPoint(a: real, b: real, c: real)
    requires a < b <= c
    ensures var cs := [C(a, b, HalfClosedRight), C(a, c, Closed)];
      && Mergeable(cs) && Normalize(cs) == [C(a, c, HalfClosedRight)]
      && Member(cs, Fin(a)) && !Member(Normalize(cs), Fin(a))
  {
    var cs := [C(a, b, HalfClosedRight), C(a, c, Closed)];
    assert KeyLe(cs[0], cs[1]);
    assert AreContinuous(cs[0], cs[1]) && AreContinuous(cs[1], cs[1]);
    NormalizeOneRun(cs);
    assert Contains(cs[1], Fin(a));
  }

  /** An open degenerate point that sorts last leaves the scan with an empty run:
      Interval((x, x)) | Interval([a, b]) with a < x raises IndexError; the closed point does not. */
  lemma OpenPointLastRaises(a: real, b: real, x: real)
    requires a < x
    ensures !Mergeable([C(x, x, Open), C(a, b, Closed)])
    ensures Mergeable([C(x, x, Closed), C(a, b, Closed)])
  {
    PointSortsLast(a, b, x, Open);
    PointSortsLast(a, b, x, Closed);
  }

  /** The point x sorts after [a, b] when a < x, so its own continuity decides Mergeable. */
  lemma PointSortsLast(a: real, b: real, x: real, t: ComponentType)
    requires a < x
    ensures Mergeable([C(x, x, t), C(a, b, Closed)]) <==> AreContinuous(C(x, x, t), C(x, x, t))
  {
    var cs := [C(x, x, t), C(a, b, Closed)];
    assert !KeyLe(cs[0], cs[1]);
    SortTwoSwapped(cs[0], cs[1]);
    assert Last(Sort(cs)) == cs[0];
  }

  lemma SortTwoSwapped(x: Component, y: Component)
    requires !KeyLe(x, y)
    ensures Sort([x, y]) == [y, x]
  {
    assert [x] + [y] == [x, y];
    SortCons(y, [], []);
    InsertFront(y, []);
    assert [y] + [] == [y];
    SortCons(x, [y], [y]);
    InsertFront(x, []);
    InsertPast(x, y, []);
    assert [y] + [x] == [y, x];
  }

  /** hull takes each closure from the first interval that attains the extreme, so it can drop a
      point another interval holds: hull((a, b), [a, b]) is (a, b), without a. */
  lemma HullDropsEndpoint(a: real, b: real)
    requires a < b
    ensures var ivs := [[C(a, b, Open)], [C(a, b, Closed)]];
      && Hull(ivs) == Success([C(a, b, Open)])
      && Member(ivs[1], Fin(a)) && !Member(Hull(ivs).value, Fin(a))
  {
    var ivs := [[C(a, b, Open)], [C(a, b, Closed)]];
    assert ivs[0] != [] && ivs[1] != [];
    assert Firsts(ivs) == [Fin(a), Fin(a)];
    assert Lasts(ivs) == [Fin(b), Fin(b)];
    assert FirstMinIndex(Firsts(ivs)) == 0;
    assert FirstMaxIndex(Lasts(ivs)) == 0;
    assert Contains(ivs[1][0], Fin(a));
  }

  /** When every neighbour pair touches, the scan keeps one run: the prefix read so far. */
  lemma {:induction false} PartitionSingleRun(s: seq<Component>, k: nat)
    requires k <= |s| && s != []
    requires forall t :: 0 < t < |s| ==> AreContinuous(s[t - 1], s[t])
    requires AreContinuous(Last(s), Last(s))
    ensures Partition(s, k) == [s[..k]]
  {
    if k > 0 {
      PartitionSingleRun(s, k - 1);
      var g := Grow([s[..k - 1]], s[k - 1]);
      assert Last(g) == s[..k - 1] + [s[k - 1]] == s[..k];
      assert AreContinuous(s[k - 1], Neighbour(s, k - 1));
    }
  }

  /** A list whose sorted order is one continuous run normalises into that run's merge. */
  lemma NormalizeSingleRun(cs: seq<Component>, s: seq<Component>)
    requires |cs| >= 2 && s == Sort(cs)
    requires forall t :: 0 < t < |s| ==> AreContinuous(s[t - 1], s[t])
    requires AreContinuous(Last(s), Last(s))
    ensures Mergeable(cs) && Normalize(cs) == [MergeRun(s)]
  {
    assert Mergeable(cs);
    NormalizeRuns(cs);
    PartitionWhole(s);
    MergeOne(s);
  }

  /** The scan over a whole continuous list yields the list as its only run. */
  lemma PartitionWhole(s: seq<Component>)
    requires s != []
    requires forall t :: 0 < t < |s| ==> AreContinuous(s[t - 1], s[t])
    requires AreContinuous(Last(s), Last(s))
    ensures Partition(s, |s|) == [s]
  {
    PartitionSingleRun(s, |s|);
    assert s[..|s|] == s;
  }

  /** Merging a single run gives one component. */
  lemma MergeOne(run: seq<Component>)
    requires run != []
    ensures Merge([run]) == [MergeRun(run)]
  {
    var m := Merge([run]);
    assert |m| == 1 && m[0] == MergeRun(run);
  }

  /** ~[a, b] is (-inf, a), (b, inf). */
  lemma ComplementOfClosed(a: real, b: real)
    ensures Complement([C(a, b, Closed)]) == [Component(NegInf, Fin(a), Open), Component(Fin(b), PosInf, Open)]
  {
    ComplementShape([C(a, b, Closed)]);
  }

  /** ~(-inf, inf) is empty. */
  lemma ComplementOfWhole()
    ensures Complement([Component(NegInf, PosInf, Open)]) == []
  {
    ComplementShape([Component(NegInf, PosInf, Open)]);
  }

  // Sorting short lists one insertion at a time.

  lemma SortTwoOrdered(x2: Component, x3: Component)
    requires KeyLe(x2, x3)
    ensures Sort([x2, x3]) == [x2, x3]
  {
    assert [x2] + [x3] == [x2, x3];
    SortCons(x3, [], []);
    InsertFront(x3, []);
    assert [x3] + [] == [x3];
    SortCons(x2, [x3], [x3]);
    InsertFront(x2, [x3]);
  }

  lemma SortThreeLast(x1: Component, x2: Component, x3: Component)
    requires KeyLe(x2, x3) && !KeyLe(x1, x2) && !KeyLe(x1, x3)
    ensures Sort([x1, x2, x3]) == [x2, x3, x1]
  {
    SortThreeStep(x1, x2, x3);
    InsertPastTwo(x1, x2, x3);
  }

  lemma SortThreeStep(x1: Component, x2: Component, x3: Component)
    requires KeyLe(x2, x3)
    ensures Sort([x1, x2, x3]) == Insert(x1, [x2, x3])
  {
    assert [x1] + [x2, x3] == [x1, x2, x3];
    SortTwoOrdered(x2, x3);
    SortCons(x1, [x2, x3], [x2, x3]);
  }

  lemma InsertPastTwo(x1: Component, x2: Component, x3: Component)
    requires !KeyLe(x1, x2) && !KeyLe(x1, x3)
    ensures Insert(x1, [x2, x3]) == [x2, x3, x1]
  {
    InsertFront(x1, []);
    InsertPast(x1, x3, []);
    assert [x2, x3] == [x2] + [x3];
    InsertPast(x1, x2, [x3]);
    assert [x2] + ([x3] + [x1]) == [x2, x3, x1];
  }

  /** The insertion steps of sorting four components whose keys order them x2, x0, x3, x1. */
  lemma SortFour(x0: Component, x1: Component, x2: Component, x3: Component)
    requires KeyLe(x2, x3) && !KeyLe(x1, x2) && !KeyLe(x1, x3) && !KeyLe(x0, x2) && KeyLe(x0, x3)
    ensures Sort([x0, x1, x2, x3]) == [x2, x0, x3, x1]
  {
    SortFourStep(x0, x1, x2, x3);
    InsertSecond(x0, x2, x3, x1);
  }

  lemma SortFourStep(x0: Component, x1: Component, x2: Component, x3: Component)
    requires KeyLe(x2, x3) && !KeyLe(x1, x2) && !KeyLe(x1, x3)
    ensures Sort([x0, x1, x2, x3]) == Insert(x0, [x2, x3, x1])
  {
    assert [x0] + [x1, x2, x3] == [x0, x1, x2, x3];
    SortThreeLast(x1, x2, x3);
    SortCons(x0, [x1, x2, x3], [x2, x3, x1]);
  }

  lemma InsertSecond(x: Component, y0: Component, y1: Component, y2: Component)
    requires !KeyLe(x, y0) && KeyLe(x, y1)
    ensures Insert(x, [y0, y1, y2]) == [y0, x, y1, y2]
  {
    InsertFront(x, [y1, y2]);
    assert [y0, y1, y2] == [y0] + [y1, y2];
    InsertPast(x, y0, [y1, y2]);
    assert [y0] + ([x] + [y1, y2]) == [y0, x, y1, y2];
  }

  lemma SortCons(x: Component, rest: seq<Component>, sorted: seq<Component>)
    requires Sort(rest) == sorted
    ensures Sort([x] + rest) == Insert(x, sorted)
  {
    assert ([x] + rest)[1..] == rest;
  }

  lemma InsertFront(x: Component, s: seq<Component>)
    requires s == [] || KeyLe(x, s[0])
    ensures Insert(x, s) == [x] + s
  {}

  lemma InsertPast(x: Component, y: Component, s: seq<Component>)
    requires !KeyLe(x, y)
    ensures Insert(x, [y] + s) == [y] + Insert(x, s)
  {
    assert ([y] + s)[1..] == s;
  }

  /** The four open pieces of the two complements merge into the whole line. */
  lemma MergeGaps(a: real, c: real, d: real, b: real)
    ensures MergeRun([Component(NegInf, Fin(c), Open), Component(NegInf, Fin(a), Open),
                      Component(Fin(d), PosInf, Open), Component(Fin(b), PosInf, Open)])
      == Component(NegInf, PosInf, Open)
  {
    var s := [Component(NegInf, Fin(c), Open), Component(NegInf, Fin(a), Open),
              Component(Fin(d), PosInf, Open), Component(Fin(b), PosInf, Open)];
    var sups := Sups(s);
    assert sups == [Fin(c), Fin(a), PosInf, PosInf];
    var m := FirstMaxIndex(sups);
    assert Le(sups[2], sups[m]);
    assert s[m].ctype == Open;
  }

  /** The pieces of ~[a, b] and ~[c, d] with c < d < a < b sort as (-inf, c), (-inf, a), (d, inf),
      (b, inf). */
  lemma GapsSort(a: real, b: real, c: real, d: real)
    requires c < d < a < b
    ensures Sort([Component(NegInf, Fin(a), Open), Component(Fin(b), PosInf, Open),
                  Component(NegInf, Fin(c), Open), Component(Fin(d), PosInf, Open)])
      == [Component(NegInf, Fin(c), Open), Component(NegInf, Fin(a), Open),
          Component(Fin(d), PosInf, Open), Component(Fin(b), PosInf, Open)]
  {
    var x0, x1 := Component(NegInf, Fin(a), Open), Component(Fin(b), PosInf, Open);
    var x2, x3 := Component(NegInf, Fin(c), Open), Component(Fin(d), PosInf, Open);
    assert KeyLe(x2, x3) && !KeyLe(x1, x2) && !KeyLe(x1, x3) && !KeyLe(x0, x2) && KeyLe(x0, x3);
    SortFour(x0, x1, x2, x3);
  }

  /** In that order the pieces form one run. */
  lemma GapsContinuous(a: real, b: real, c: real, d: real)
    requires c < d < a < b
    ensures var s := [Component(NegInf, Fin(c), Open), Component(NegInf, Fin(a), Open),
                      Component(Fin(d), PosInf, Open), Component(Fin(b), PosInf, Open)];
      && (forall t :: 0 < t < |s| ==> AreContinuous(s[t - 1], s[t]))
      && AreContinuous(Last(s), Last(s))
  {
    var s := [Component(NegInf, Fin(c), Open), Component(NegInf, Fin(a), Open),
              Component(Fin(d), PosInf, Open), Component(Fin(b), PosInf, Open)];
    assert AreContinuous(s[0], s[1]) && AreContinuous(s[1], s[2]) && AreContinuous(s[2], s[3]);
    assert AreContinuous(s[3], s[3]);
  }

  /** ~[a, b] + ~[c, d] with c < d < a < b, in that order, normalises into the whole line. */
  lemma GapsNormalize(a: real, b: real, c: real, d: real)
    requires c < d < a < b
    ensures var cs := [Component(NegInf, Fin(a), Open), Component(Fin(b), PosInf, Open),
                       Component(NegInf, Fin(c), Open), Component(Fin(d), PosInf, Open)];
      Mergeable(cs) && Normalize(cs) == [Component(NegInf, PosInf, Open)]
  {
    var cs := [Component(NegInf, Fin(a), Open), Component(Fin(b), PosInf, Open),
               Component(NegInf, Fin(c), Open), Component(Fin(d), PosInf, Open)];
    var s := [Component(NegInf, Fin(c), Open), Component(NegInf, Fin(a), Open),
              Component(Fin(d), PosInf, Open), Component(Fin(b), PosInf, Open)];
    GapsSort(a, b, c, d);
    GapsContinuous(a, b, c, d);
    NormalizeSingleRun(cs, s);
    MergeGaps(a, c, d, b);
  }

  /** The complements of [a, b] and [c, d], side by side. */
  lemma ComplementsSideBySide(a: real, b: real, c: real, d: real)
    ensures Complement([C(a, b, Closed)]) + Complement([C(c, d, Closed)])
      == [Component(NegInf, Fin(a), Open), Component(Fin(b), PosInf, Open),
          Component(NegInf, Fin(c), Open), Component(Fin(d), PosInf, Open)]
  {
    ComplementOfClosed(a, b);
    ComplementOfClosed(c, d);
  }

  /** [a, b] & [c, d] with c < d < a < b is empty, because ~[a, b] | ~[c, d] is the whole line
      (for instance [7, 10] & [0, 3]). */
  lemma DisjointIntersection(a: real, b: real, c: real, d: real)
    requires c < d < a < b
    ensures var x, y := [C(a, b, Closed)], [C(c, d, Closed)];
      && IntersectDefined(x, y)
      && Union(Complement(x), Complement(y)) == [Component(NegInf, PosInf, Open)]
      && Intersect(x, y) == []
  {
    ComplementsSideBySide(a, b, c, d);
    GapsNormalize(a, b, c, d);
    ComplementOfWhole();
  }

  lemma InsertSecondOfTwo(x: Component, y0: Component, y1: Component)
    requires !KeyLe(x, y0) && KeyLe(x, y1)
    ensures Insert(x, [y0, y1]) == [y0, x, y1]
  {
    InsertFront(x, [y1]);
    assert [y0, y1] == [y0] + [y1];
    InsertPast(x, y0, [y1]);
    assert [y0] + ([x] + [y1]) == [y0, x, y1];
  }

  /** The insertion steps of sorting four components whose keys order them x0, x2, x1, x3. */
  lemma SortFourMiddle(x0: Component, x1: Component, x2: Component, x3: Component)
    requires KeyLe(x2, x3) && !KeyLe(x1, x2) && KeyLe(x1, x3) && KeyLe(x0, x2)
    ensures Sort([x0, x1, x2, x3]) == [x0, x2, x1, x3]
  {
    SortFourMiddleStep(x0, x1, x2, x3);
    InsertFirstOfThree(x0, x2, x1, x3);
  }

  lemma InsertFirstOfThree(x: Component, y0: Component, y1: Component, y2: Component)
    requires KeyLe(x, y0)
    ensures Insert(x, [y0, y1, y2]) == [x, y0, y1, y2]
  {
    InsertFront(x, [y0, y1, y2]);
    assert [x] + [y0, y1, y2] == [x, y0, y1, y2];
  }

  lemma SortFourMiddleStep(x0: Component, x1: Component, x2: Component, x3: Component)
    requires KeyLe(x2, x3) && !KeyLe(x1, x2) && KeyLe(x1, x3)
    ensures Sort([x0, x1, x2, x3]) == Insert(x0, [x2, x1, x3])
  {
    assert [x0] + [x1, x2, x3] == [x0, x1, x2, x3];
    SortThreeMiddle(x1, x2, x3);
    SortCons(x0, [x1, x2, x3], [x2, x1, x3]);
  }

  lemma SortThreeMiddle(x1: Component, x2: Component, x3: Component)
    requires KeyLe(x2, x3) && !KeyLe(x1, x2) && KeyLe(x1, x3)
    ensures Sort([x1, x2, x3]) == [x2, x1, x3]
  {
    SortThreeStep(x1, x2, x3);
    InsertSecondOfTwo(x1, x2, x3);
  }

  /** The pieces of ~[c, d] and ~[a, b] with c < d < a < b sort the same way. */
  lemma GapsSortReversed(a: real, b: real, c: real, d: real)
    requires c < d < a < b
    ensures Sort([Component(NegInf, Fin(c), Open), Component(Fin(d), PosInf, Open),
                  Component(NegInf, Fin(a), Open), Component(Fin(b), PosInf, Open)])
      == [Component(NegInf, Fin(c), Open), Component(NegInf, Fin(a), Open),
          Component(Fin(d), PosInf, Open), Component(Fin(b), PosInf, Open)]
  {
    var x0, x1 := Component(NegInf, Fin(c), Open), Component(Fin(d), PosInf, Open);
    var x2, x3 := Component(NegInf, Fin(a), Open), Component(Fin(b), PosInf, Open);
    assert KeyLe(x2, x3) && !KeyLe(x1, x2) && KeyLe(x1, x3) && KeyLe(x0, x2);
    SortFourMiddle(x0, x1, x2, x3);
  }

  /** ~[c, d] + ~[a, b] with c < d < a < b, in that order, normalises into the whole line too. */
  lemma GapsNormalizeReversed(a: real, b: real, c: real, d: real)
    requires c < d < a < b
    ensures var cs := [Component(NegInf, Fin(c), Open), Component(Fin(d), PosInf, Open),
                       Component(NegInf, Fin(a), Open), Component(Fin(b), PosInf, Open)];
      Mergeable(cs) && Normalize(cs) == [Component(NegInf, PosInf, Open)]
  {
    var cs := [Component(NegInf, Fin(c), Open), Component(Fin(d), PosInf, Open),
               Component(NegInf, Fin(a), Open), Component(Fin(b), PosInf, Open)];
    var s := [Component(NegInf, Fin(c), Open), Component(NegInf, Fin(a), Open),
              Component(Fin(d), PosInf, Open), Component(Fin(b), PosInf, Open)];
    GapsSortReversed(a, b, c, d);
    GapsContinuous(a, b, c, d);
    NormalizeSingleRun(cs, s);
    MergeGaps(a, c, d, b);
  }

  /** With the operands swapped, [c, d] & [a, b] is empty as well (for instance [0, 3] & [7, 10]). */
  lemma DisjointIntersectionReversed(a: real, b: real, c: real, d: real)
    requires c < d < a < b
    ensures var x, y := [C(c, d, Closed)], [C(a, b, Closed)];
      && IntersectDefined(x, y)
      && Union(Complement(x), Complement(y)) == [Component(NegInf, PosInf, Open)]
      && Intersect(x, y) == []
  {
    ComplementsSideBySide(c, d, a, b);
    GapsNormalizeReversed(a, b, c, d);
    ComplementOfWhole();
  }
}
