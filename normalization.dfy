/** What Interval.__init__ computes: stable sort by (inf, sup), a run scan over neighbours
    with a sentinel, and one merged component per run. */
module Normalization {
  import opened ExtReals
  import opened ComponentTypes
  import opened Components

  function Last<T>(xs: seq<T>): T
    requires xs != []
  {
    xs[|xs| - 1]
  }

  /** The `_endpoints` cache: [inf0, sup0, inf1, sup1, ...]. */
  function Endpoints(cs: seq<Component>): (e: seq<Ext>)
    ensures |e| == 2 * |cs|
    ensures forall i :: 0 <= i < |cs| ==> e[2 * i] == cs[i].inf && e[2 * i + 1] == cs[i].sup
  {
    if cs == [] then [] else [cs[0].inf, cs[0].sup] + Endpoints(cs[1..])
  }

  // ---------------------------------------------------------------------------------------
  // sorted(components, key=_compare_key)

  /** The sort key (inf, sup), compared lexicographically. */
  predicate KeyLe(a: Component, b: Component) {
    Lt(a.inf, b.inf) || (a.inf == b.inf && Le(a.sup, b.sup))
  }

  predicate SortedByKey(s: seq<Component>) {
    forall i :: 0 < i < |s| ==> KeyLe(s[i - 1], s[i])
  }

  /** Inserts x in front of the first element whose key is not below x's. */
  function Insert(x: Component, s: seq<Component>): (r: seq<Component>)
    ensures multiset(r) == multiset(s) + multiset{x}
    ensures r[0] == x || (s != [] && r[0] == s[0])
  {
    if s == [] || KeyLe(x, s[0]) then [x] + s
    else
      assert s == [s[0]] + s[1..];
      [s[0]] + Insert(x, s[1..])
  }

  /** Any two keys are ordered one way or the other. */
  lemma KeyLeTotal(a: Component, b: Component)
    ensures KeyLe(a, b) || KeyLe(b, a)
  {
    LtIsStrictLe(a.inf, b.inf);
    LtIsStrictLe(b.inf, a.inf);
    LtIsStrictLe(a.sup, b.sup);
    LtIsStrictLe(b.sup, a.sup);
  }

  /** Inserting into a list in key order keeps it in key order. */
  lemma {:induction false} InsertSorted(x: Component, s: seq<Component>)
    requires SortedByKey(s)
    ensures SortedByKey(Insert(x, s))
  {
    if s != [] && !KeyLe(x, s[0]) {
      var rest := Insert(x, s[1..]);
      InsertSorted(x, s[1..]);
      KeyLeTotal(x, s[0]);
      assert KeyLe(s[0], rest[0]);
      assert Insert(x, s) == [s[0]] + rest;
    }
  }

  /** A stable sort by key: an element is inserted before every element that follows it in the
      input and has an equal key, so ties keep their input order. */
  function Sort(cs: seq<Component>): (r: seq<Component>)
    ensures multiset(r) == multiset(cs) && |r| == |cs|
    ensures SortedByKey(r)
  {
    if cs == [] then []
    else
      assert cs == [cs[0]] + cs[1..];
      InsertSorted(cs[0], Sort(cs[1..]));
      Insert(cs[0], Sort(cs[1..]))
  }

  /** The elements of s whose key is (lo, hi), in their order in s. */
  function OfKey(s: seq<Component>, lo: Ext, hi: Ext): (r: seq<Component>)
  {
    if s == [] then []
    else (if s[0].inf == lo && s[0].sup == hi then [s[0]] else []) + OfKey(s[1..], lo, hi)
  }

  lemma OfKeyCons(c: Component, s: seq<Component>, lo: Ext, hi: Ext)
    ensures OfKey([c] + s, lo, hi) == OfKey([c], lo, hi) + OfKey(s, lo, hi)
  {
    assert ([c] + s)[1..] == s;
    assert OfKey([c], lo, hi) == (if c.inf == lo && c.sup == hi then [c] else []) + OfKey([], lo, hi);
  }

  /** Insert passes only over elements whose key differs from x's, so among the elements
      with one key x lands in front. */
  lemma {:induction false} InsertOfKey(x: Component, s: seq<Component>, lo: Ext, hi: Ext)
    ensures OfKey(Insert(x, s), lo, hi) == OfKey([x], lo, hi) + OfKey(s, lo, hi)
  {
    if s == [] || KeyLe(x, s[0]) {
      OfKeyCons(x, s, lo, hi);
    } else {
      var y, t := s[0], s[1..];
      assert s == [y] + t;
      assert Insert(x, s) == [y] + Insert(x, t);
      InsertOfKey(x, t, lo, hi);
      OfKeyCons(y, Insert(x, t), lo, hi);
      OfKeyCons(y, t, lo, hi);
      assert !(x.inf == y.inf && x.sup == y.sup) by { LtIsStrictLe(y.sup, x.sup); }
      assert OfKey([x], lo, hi) == [] || OfKey([y], lo, hi) == [];
    }
  }

  /** The sort is stable: for every key, the elements with that key come out in their input
      order. */
  lemma {:induction false} SortStable(cs: seq<Component>, lo: Ext, hi: Ext)
    ensures OfKey(Sort(cs), lo, hi) == OfKey(cs, lo, hi)
  {
    if cs != [] {
      SortStable(cs[1..], lo, hi);
      InsertOfKey(cs[0], Sort(cs[1..]), lo, hi);
      assert OfKey([cs[0]], lo, hi) == (if cs[0].inf == lo && cs[0].sup == hi then [cs[0]] else []);
    }
  }

  /** Sorting a list that is already in key order leaves it as it is. */
  lemma {:induction false} SortOfSorted(cs: seq<Component>)
    requires SortedByKey(cs)
    ensures Sort(cs) == cs
  {
    if cs != [] {
      SortOfSorted(cs[1..]);
      assert cs == [cs[0]] + cs[1..];
    }
  }

  // ---------------------------------------------------------------------------------------
  // partition = [[]]; for comp1, comp2 in pairwise(chain(components, [components[-1]])): ...

  /** The partner of s[k] in the pairwise scan: its successor, or s[k] itself for the last one. */
  function Neighbour(s: seq<Component>, k: nat): Component
    requires k < |s|
  {
    if k + 1 < |s| then s[k + 1] else s[|s| - 1]
  }

  /** partition[-1].append(x) */
  function Grow(p: seq<seq<Component>>, x: Component): (g: seq<seq<Component>>)
    requires p != []
    ensures |g| == |p| && Last(g) == Last(p) + [x]
    ensures forall j :: 0 <= j < |p| - 1 ==> g[j] == p[j]
  {
    p[..|p| - 1] + [p[|p| - 1] + [x]]
  }

  /** The partition after the first k pairs of the scan: s[k - 1] joins the current run,
      and a new empty run is opened when s[k - 1] and its partner are not continuous. */
  function Partition(s: seq<Component>, k: nat): (p: seq<seq<Component>>)
    requires k <= |s|
    ensures |p| >= 1
  {
    if k == 0 then [[]]
    else
      var g := Grow(Partition(s, k - 1), s[k - 1]);
      if AreContinuous(s[k - 1], Neighbour(s, k - 1)) then g else g + [[]]
  }

  function Flatten<T>(p: seq<seq<T>>): seq<T> {
    if p == [] then [] else p[0] + Flatten(p[1..])
  }

  lemma {:induction false} FlattenAppend<T>(p: seq<seq<T>>, q: seq<seq<T>>)
    ensures Flatten(p + q) == Flatten(p) + Flatten(q)
  {
    if p != [] {
      assert (p + q)[1..] == p[1..] + q;
      FlattenAppend(p[1..], q);
    } else {
      assert p + q == q;
    }
  }

  lemma FlattenMember<T>(p: seq<seq<T>>, j: nat, i: nat)
    requires j < |p| && i < |p[j]|
    ensures p[j][i] in Flatten(p)
  {
    if j > 0 {
      FlattenMember(p[1..], j - 1, i);
    }
  }

  lemma FlattenGrow(p: seq<seq<Component>>, x: Component)
    requires p != []
    ensures Flatten(Grow(p, x)) == Flatten(p) + [x]
    ensures Flatten(Grow(p, x) + [[]]) == Flatten(p) + [x]
  {
    var n := |p|;
    var g: seq<seq<Component>> := Grow(p, x);
    assert g == p[..n - 1] + [p[n - 1] + [x]];
    FlattenAppend(p[..n - 1], [p[n - 1] + [x]]);
    assert Flatten([p[n - 1] + [x]]) == p[n - 1] + [x] + Flatten<Component>([]);
    FlattenAppend(p[..n - 1], [p[n - 1]]);
    assert p == p[..n - 1] + [p[n - 1]];
    assert Flatten([p[n - 1]]) == p[n - 1] + Flatten<Component>([]);
    FlattenAppend(g, [[]]);
    assert Flatten<Component>([[]]) == [];
  }

  /** Sups never decrease along s: the condition under which the scan yields ordered output. */
  predicate SupsMonotone(s: seq<Component>) {
    forall i :: 0 < i < |s| ==> Le(s[i - 1].sup, s[i].sup)
  }

  /** The runs of a partition are all nonempty except possibly the last one. */
  predicate RunsFilled(p: seq<seq<Component>>) {
    forall j :: 0 <= j < |p| - 1 ==> p[j] != []
  }

  /** Inside a run every member is continuous with the one before it. */
  predicate RunsContinuous(p: seq<seq<Component>>) {
    forall j, i :: 0 <= j < |p| && 0 < i < |p[j]| ==> AreContinuous(p[j][i - 1], p[j][i])
  }

  /** A run starts where its first member is not continuous with the last member of the run before. */
  predicate RunsBroken(p: seq<seq<Component>>) {
    forall j :: 0 < j < |p| && p[j] != [] && p[j - 1] != [] ==> !AreContinuous(Last(p[j - 1]), p[j][0])
  }

  /** Every member of a run has a sup no larger than the sup of the run's last member. */
  predicate RunsTopped(p: seq<seq<Component>>) {
    forall j, i :: 0 <= j < |p| && 0 <= i < |p[j]| ==> Le(p[j][i].sup, Last(p[j]).sup)
  }

  /** The scan's record of where it is: the last run is empty exactly after a break, and the
      component just placed ends the last nonempty run. */
  predicate AtStep(s: seq<Component>, k: nat, p: seq<seq<Component>>)
    requires 0 < k <= |s| && p != []
  {
    && (Last(p) == [] <==> !AreContinuous(s[k - 1], Neighbour(s, k - 1)))
    && (Last(p) != [] ==> Last(Last(p)) == s[k - 1])
    && (Last(p) == [] ==> |p| >= 2 && p[|p| - 2] != [] && Last(p[|p| - 2]) == s[k - 1])
  }

  lemma {:induction false} PartitionFlatten(s: seq<Component>, k: nat)
    requires k <= |s|
    ensures Flatten(Partition(s, k)) == s[..k]
  {
    if k > 0 {
      PartitionFlatten(s, k - 1);
      FlattenGrow(Partition(s, k - 1), s[k - 1]);
      assert s[..k] == s[..k - 1] + [s[k - 1]];
    }
  }

  lemma {:induction false} PartitionEnds(s: seq<Component>, k: nat)
    requires k <= |s|
    ensures var p := Partition(s, k);
      && RunsFilled(p)
      && (k == 0 ==> p == [[]])
      && (k > 0 ==> AtStep(s, k, p))
      && |p| <= k + (if Last(p) == [] then 1 else 0)
  {
    if k > 0 {
      var p := Partition(s, k - 1);
      PartitionEnds(s, k - 1);
      var g := Grow(p, s[k - 1]);
      assert RunsFilled(g);
      if AreContinuous(s[k - 1], Neighbour(s, k - 1)) {
        assert Partition(s, k) == g;
      } else {
        var h := g + [[]];
        assert Partition(s, k) == h;
        assert h[|h| - 2] == Last(g);
        assert forall j :: 0 <= j < |h| - 1 ==> h[j] == g[j];
      }
    }
  }

  lemma GrowContinuous(p: seq<seq<Component>>, x: Component)
    requires p != [] && RunsContinuous(p)
    requires Last(p) != [] ==> AreContinuous(Last(Last(p)), x)
    ensures RunsContinuous(Grow(p, x)) && RunsContinuous(Grow(p, x) + [[]])
  {
    var g: seq<seq<Component>> := Grow(p, x);
    var n := |p|;
    forall j, i | 0 <= j < n && 0 < i < |g[j]|
      ensures AreContinuous(g[j][i - 1], g[j][i])
    {
      if j == n - 1 && i == |g[j]| - 1 {
        assert g[j][i - 1] == Last(p[n - 1]);
      } else if j == n - 1 {
        assert g[j][i - 1] == p[j][i - 1] && g[j][i] == p[j][i];
      }
    }
    var h: seq<seq<Component>> := g + [[]];
    forall j, i | 0 <= j < n + 1 && 0 < i < |h[j]|
      ensures AreContinuous(h[j][i - 1], h[j][i])
    {
      assert h[j] == g[j];
    }
  }

  lemma GrowBroken(p: seq<seq<Component>>, x: Component)
    requires p != [] && RunsBroken(p)
    requires Last(p) == [] && |p| >= 2 && p[|p| - 2] != [] ==> !AreContinuous(Last(p[|p| - 2]), x)
    ensures RunsBroken(Grow(p, x)) && RunsBroken(Grow(p, x) + [[]])
  {
    var g: seq<seq<Component>> := Grow(p, x);
    var n := |p|;
    forall j | 0 < j < n && g[j] != [] && g[j - 1] != []
      ensures !AreContinuous(Last(g[j - 1]), g[j][0])
    {
      if j == n - 1 && p[n - 1] != [] {
        assert g[j][0] == p[j][0];
      }
    }
    var h: seq<seq<Component>> := g + [[]];
    forall j | 0 < j < n + 1 && h[j] != [] && h[j - 1] != []
      ensures !AreContinuous(Last(h[j - 1]), h[j][0])
    {
      assert h[j] == g[j] && h[j - 1] == g[j - 1];
    }
  }

  lemma GrowTopped(p: seq<seq<Component>>, x: Component)
    requires p != [] && RunsTopped(p)
    requires Last(p) != [] ==> Le(Last(Last(p)).sup, x.sup)
    ensures RunsTopped(Grow(p, x)) && RunsTopped(Grow(p, x) + [[]])
  {
    var g: seq<seq<Component>> := Grow(p, x);
    var n := |p|;
    forall j, i | 0 <= j < n && 0 <= i < |g[j]|
      ensures Le(g[j][i].sup, Last(g[j]).sup)
    {
      if j == n - 1 && i < |g[j]| - 1 {
        assert g[j][i] == p[j][i];
        LeTransitive(p[j][i].sup, Last(p[j]).sup, x.sup);
      }
    }
    var h: seq<seq<Component>> := g + [[]];
    forall j, i | 0 <= j < n + 1 && 0 <= i < |h[j]|
      ensures Le(h[j][i].sup, Last(h[j]).sup)
    {
      assert h[j] == g[j];
    }
  }

  lemma {:induction false} PartitionContinuous(s: seq<Component>, k: nat)
    requires k <= |s|
    ensures RunsContinuous(Partition(s, k))
  {
    if k > 0 {
      PartitionContinuous(s, k - 1);
      PartitionEnds(s, k - 1);
      if k >= 2 {
        assert Neighbour(s, k - 2) == s[k - 1];
      }
      GrowContinuous(Partition(s, k - 1), s[k - 1]);
    }
  }

  lemma {:induction false} PartitionBroken(s: seq<Component>, k: nat)
    requires k <= |s|
    ensures RunsBroken(Partition(s, k))
  {
    if k > 0 {
      PartitionBroken(s, k - 1);
      PartitionEnds(s, k - 1);
      if k >= 2 {
        assert Neighbour(s, k - 2) == s[k - 1];
      }
      GrowBroken(Partition(s, k - 1), s[k - 1]);
    }
  }

  lemma {:induction false} PartitionTopped(s: seq<Component>, k: nat)
    requires k <= |s| && SupsMonotone(s)
    ensures RunsTopped(Partition(s, k))
  {
    if k > 0 {
      PartitionTopped(s, k - 1);
      PartitionEnds(s, k - 1);
      if k >= 2 {
        assert Le(s[k - 2].sup, s[k - 1].sup);
      }
      GrowTopped(Partition(s, k - 1), s[k - 1]);
    }
  }

  /** Every run starts with its member of smallest inf. */
  predicate RunsStartLowest(p: seq<seq<Component>>) {
    forall j, i :: 0 <= j < |p| && 0 <= i < |p[j]| ==> Le(p[j][0].inf, p[j][i].inf)
  }

  lemma GrowStartLowest(p: seq<seq<Component>>, x: Component)
    requires p != [] && RunsStartLowest(p)
    requires Last(p) != [] ==> Le(Last(p)[0].inf, x.inf)
    ensures RunsStartLowest(Grow(p, x)) && RunsStartLowest(Grow(p, x) + [[]])
  {
    var g: seq<seq<Component>> := Grow(p, x);
    var n := |p|;
    forall j, i | 0 <= j < n && 0 <= i < |g[j]|
      ensures Le(g[j][0].inf, g[j][i].inf)
    {
      if j == n - 1 && i < |g[j]| - 1 {
        assert g[j][i] == p[j][i] && g[j][0] == p[j][0];
      } else if j == n - 1 && p[j] != [] {
        assert g[j][0] == p[j][0];
      }
    }
    var h: seq<seq<Component>> := g + [[]];
    forall j, i | 0 <= j < n + 1 && 0 <= i < |h[j]|
      ensures Le(h[j][0].inf, h[j][i].inf)
    {
      assert h[j] == g[j];
    }
  }

  /** Scanning key-sorted components, each run starts with the smallest inf of its members. */
  lemma {:induction false} PartitionStartLowest(s: seq<Component>, k: nat)
    requires k <= |s| && SortedByKey(s)
    ensures RunsStartLowest(Partition(s, k))
  {
    if k > 0 {
      var p := Partition(s, k - 1);
      PartitionStartLowest(s, k - 1);
      PartitionEnds(s, k - 1);
      if k >= 2 && Last(p) != [] {
        var run: seq<Component> := Last(p);
        assert Last(run) == s[k - 2];
        KeyLeInf(s[k - 2], s[k - 1]);
        assert Le(run[0].inf, s[k - 2].inf);
        LeTransitive(run[0].inf, s[k - 2].inf, s[k - 1].inf);
      }
      GrowStartLowest(p, s[k - 1]);
    }
  }

  lemma KeyLeInf(a: Component, b: Component)
    requires KeyLe(a, b)
    ensures Le(a.inf, b.inf)
  {
    LtIsStrictLe(a.inf, b.inf);
  }

  /** Every element of a flattened partition sits in one of its runs. */
  lemma {:induction false} FlattenFind<T>(p: seq<seq<T>>, x: T) returns (j: nat, i: nat)
    requires x in Flatten(p)
    ensures j < |p| && i < |p[j]| && p[j][i] == x
  {
    if x in p[0] {
      j := 0;
      i :| 0 <= i < |p[0]| && p[0][i] == x;
    } else {
      var j', i' := FlattenFind(p[1..], x);
      j, i := j' + 1, i';
    }
  }

  // ---------------------------------------------------------------------------------------
  // for part in partition: components.append(Component.from_extrema(part[0], max(part, key=sup)))

  function Sups(run: seq<Component>): (r: seq<Ext>)
    ensures |r| == |run| && forall i :: 0 <= i < |run| ==> r[i] == run[i].sup
  {
    seq(|run|, i requires 0 <= i < |run| => run[i].sup)
  }

  /** The member max(part, key=sup) returns. */
  function MaxSupMember(run: seq<Component>): Component
    requires run != []
  {
    run[FirstMaxIndex(Sups(run))]
  }

  /** The component a run is merged into. */
  function MergeRun(run: seq<Component>): Component
    requires run != []
  {
    FromExtrema(run[0], MaxSupMember(run))
  }

  /** One merged component per run. */
  function Merge(p: seq<seq<Component>>): (r: seq<Component>)
    requires forall j :: 0 <= j < |p| ==> p[j] != []
    ensures |r| == |p|
  {
    seq(|p|, j requires 0 <= j < |p| => MergeRun(p[j]))
  }

  /** A merged run spans from its first member's inf (with that member's left closure) to the
      largest sup of its members (with the right closure of the first member that reaches it). */
  lemma MergeRunSpans(run: seq<Component>)
    requires run != []
    ensures var m := MergeRun(run);
      && m.inf == run[0].inf && m.ctype.LeftClosed() == run[0].ctype.LeftClosed()
      && (forall i :: 0 <= i < |run| ==> Le(run[i].sup, m.sup))
      && (exists i :: 0 <= i < |run| && run[i].sup == m.sup
            && m.ctype.RightClosed() == run[i].ctype.RightClosed()
            && forall t :: 0 <= t < i ==> Lt(run[t].sup, m.sup))
  {
    var idx := FirstMaxIndex(Sups(run));
    assert run[idx].sup == MergeRun(run).sup;
    assert forall t :: 0 <= t < idx ==> Lt(Sups(run)[t], Sups(run)[idx]);
  }

  // ---------------------------------------------------------------------------------------
  // Interval.__init__

  /** The scan does not end in an empty run: otherwise `part[0]` raises IndexError. The empty run
      appears exactly when the largest component by key is not continuous with itself
      (a degenerate OPEN point, or inf > sup). */
  predicate Mergeable(cs: seq<Component>) {
    |cs| <= 1 || AreContinuous(Last(Sort(cs)), Last(Sort(cs)))
  }

  /** The components Interval(*cs) stores. */
  function Normalize(cs: seq<Component>): (r: seq<Component>)
    requires Mergeable(cs)
    ensures |cs| <= 1 ==> r == cs
    ensures |r| <= |cs|
    ensures |cs| > 0 ==> |r| > 0
  {
    var s := Sort(cs);
    if |s| <= 1 then
      assert |cs| == 1 ==> s == cs by {
        if |cs| == 1 {
          assert cs == [cs[0]] && multiset(s) == multiset{cs[0]};
          assert s[0] in multiset(s);
        }
      }
      s
    else
      PartitionEnds(s, |s|);
      Merge(Partition(s, |s|))
  }

  /** For two or more inputs, the result is one merged component per run, where the runs cut the
      sorted input exactly between neighbours that are not continuous. */
  lemma NormalizeRuns(cs: seq<Component>)
    requires Mergeable(cs) && |cs| >= 2
    ensures var s := Sort(cs); var p := Partition(s, |s|);
      && Flatten(p) == s
      && (forall j :: 0 <= j < |p| ==> p[j] != [])
      && RunsContinuous(p) && RunsBroken(p)
      && Normalize(cs) == Merge(p)
  {
    var s := Sort(cs);
    var p := Partition(s, |s|);
    PartitionEnds(s, |s|);
    PartitionFlatten(s, |s|);
    PartitionContinuous(s, |s|);
    PartitionBroken(s, |s|);
    assert s[..|s|] == s;
    assert Neighbour(s, |s| - 1) == Last(s);
    assert Last(p) != [];
    assert Normalize(cs) == Merge(p);
  }

  // ---------------------------------------------------------------------------------------
  // ordered output

  /** b lies wholly after a: a gap between them, or they meet at a point b leaves out. */
  predicate Separated(a: Component, b: Component) {
    Lt(a.sup, b.inf) || (a.sup == b.inf && !b.ctype.LeftClosed())
  }

  /** Well-formed components in increasing, pairwise separated order. */
  predicate Canonical(cs: seq<Component>) {
    && (forall i :: 0 <= i < |cs| ==> WellFormed(cs[i]))
    && (forall i :: 0 < i < |cs| ==> Separated(cs[i - 1], cs[i]))
  }

  /** The endpoints of a canonical list are sorted, as bisect requires. */
  lemma CanonicalEndpointsSorted(cs: seq<Component>)
    requires Canonical(cs)
    ensures Sorted(Endpoints(cs))
  {
    var e := Endpoints(cs);
    forall k | 0 < k < |e| ensures Le(e[k - 1], e[k]) {
      var i := k / 2;
      if k % 2 == 1 {
        assert e[k - 1] == cs[i].inf && e[k] == cs[i].sup;
      } else {
        assert e[k - 1] == cs[i - 1].sup && e[k] == cs[i].inf;
        assert Separated(cs[i - 1], cs[i]);
      }
    }
    SortedFromNeighbours(e);
  }

  /** A run whose members are well formed and whose last member has the largest sup merges into
      a well-formed component ending at that sup. */
  lemma MergeRunTopped(run: seq<Component>)
    requires run != []
    requires forall i :: 0 <= i < |run| ==> WellFormed(run[i]) && Le(run[i].sup, Last(run).sup)
    ensures WellFormed(MergeRun(run)) && MergeRun(run).sup == Last(run).sup
  {
    var m := MergeRun(run);
    MergeRunSpans(run);
    LeTransitive(run[0].inf, run[0].sup, m.sup);
    var i :| 0 <= i < |run| && run[i].sup == m.sup;
    LeAntisymmetric(Last(run).sup, m.sup);
  }

  lemma MergeCanonical(p: seq<seq<Component>>)
    requires forall j :: 0 <= j < |p| ==> p[j] != []
    requires forall j, i :: 0 <= j < |p| && 0 <= i < |p[j]| ==> WellFormed(p[j][i])
    requires RunsTopped(p) && RunsBroken(p)
    ensures Canonical(Merge(p))
  {
    var r := Merge(p);
    forall j | 0 <= j < |p| ensures WellFormed(r[j]) && r[j].sup == Last(p[j]).sup {
      MergeRunTopped(p[j]);
    }
    forall j | 0 < j < |p| ensures Separated(r[j - 1], r[j]) {
      MergeRunTopped(p[j - 1]);
      AreContinuousIff(Last(p[j - 1]), p[j][0]);
      assert r[j].inf == p[j][0].inf;
      assert r[j].ctype.LeftClosed() == p[j][0].ctype.LeftClosed();
    }
  }

  /** When every input is well formed and the sorted inputs' sups never decrease, the merged
      components come out well formed and separated. */
  lemma NormalizeCanonical(cs: seq<Component>)
    requires Mergeable(cs)
    requires forall i :: 0 <= i < |cs| ==> WellFormed(cs[i])
    requires SupsMonotone(Sort(cs))
    ensures Canonical(Normalize(cs))
  {
    var s := Sort(cs);
    if |cs| >= 2 {
      var p := Partition(s, |s|);
      NormalizeRuns(cs);
      PartitionTopped(s, |s|);
      forall j, i | 0 <= j < |p| && 0 <= i < |p[j]| ensures WellFormed(p[j][i]) {
        FlattenMember(p, j, i);
        assert p[j][i] in multiset(s);
        assert p[j][i] in multiset(cs);
      }
      MergeCanonical(p);
    }
  }
}
