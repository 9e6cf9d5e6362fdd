# extents in Dafny

A model of `extents/extents.py`, a small algebra over subsets of the real line. An interval is a
list of components, each a pair `(inf, sup)` with a closure variant (`[a, b]`, `(a, b)`,
`[a, b)`, `(a, b]`), together with the cached flat list of its endpoints. The normalising
constructor sorts the components by `(inf, sup)`, cuts the sorted list into runs of continuous
neighbours and merges each run into one component. The other operations build on it: the
complement `~`, the set operations `|`, `&` and `^`, endpoint equality, membership by binary
search over the endpoint list, indexing, `extrema`, `midpoint`, `components`, `hull`, `union` and
`cast`.

Endpoints are extended reals (`NegInf | Fin(real) | PosInf`) and are compared exactly. The value
logic lives in modules of functions and lemmas:

- `ComponentTypes` holds the closure variants.
- `Components` holds a single component.
- `Normalization` holds the constructor's sort, scan and merge.
- `Bisect` holds Python's `bisect_left` and `bisect_right`.
- `Algebra` holds the complement, the set operations and equality.
- `Containment` holds `__contains__`.
- `Queries` holds indexing, `extrema`, `midpoint`, `hull`, `union` and `cast`.

The mutable object is modelled in `Intervals`. `Intervals.Interval` is a class with the two fields
`comps` and `endpoints`. Its constructor runs the scan and merge loops. Its methods fill fresh
intervals the way `_from_valid_values` assigns their fields.

`Scenarios` and `AlgebraScenarios` prove concrete cases of the library's behaviour. They include the regression
scenarios of `tests/extents_test.py` and the places where the code's behaviour differs from the
set it is meant to denote.

Exceptions are values of `Errors.Error` inside a `Result`:

- `ValueError` for an unknown alias or `min()` of nothing;
- `IndexError` for a bad index or a scan that ends in an empty run;
- the assertion in `create` on the length of a sequence.

## Model

| member | source | states |
|---|---|---|
| ComponentTypes.Invert | extents/extents.py:71-82 | `~t` flips both closure flags |
| ComponentTypes.InvertInvolution | extents/extents.py:71-82 | `~~t == t`, and `~t` is never `t` |
| ComponentTypes.Get | extents/extents.py:84-93 | `get(l, r)` is total and returns the variant whose flags are exactly `l` and `r` |
| ComponentTypes.GetOfFlags | extents/extents.py:84-93 | every variant is `get` of its own flags, so `get` is onto the four variants |
| ComponentTypes.InvertIsGetOfNegatedFlags | extents/extents.py:71-93 | `~t` is `get` of the negated flags of `t` |
| ComponentTypes.GetFromName | extents/extents.py:95-127 | succeeds exactly on the 16 aliases of the table; any other name fails with an unknown-alias error that carries the name |
| ComponentTypes.GlyphAliases | extents/extents.py:103-127 | each variant is found under its own two glyphs; the closed and open variants are also found with `_` between the glyphs |
| ComponentTypes.WordAliases | extents/extents.py:103-126 | `closed` and `open` find those variants, and each half-open variant is found under all four of its word spellings |
| Components.NewComponent | extents/extents.py:130-138 | a variant is stored as given; a name becomes its table variant, or fails exactly when it is not in the table |
| Components.ContainsIff | extents/extents.py:188-189 | `v in c` iff `inf < v`, or `inf == v` with a closed left side; and `v < sup`, or `v == sup` with a closed right side |
| Components.DegenerateContains | extents/extents.py:188-189 | `[x, x]` holds `v` iff `v == x` and the component is CLOSED |
| Components.ContainsConvex | extents/extents.py:188-189 | a component holds everything between two of its members |
| Components.GetItem | extents/extents.py:194-200 | index 0 gives inf and 1 gives sup; every other index raises IndexError with that index |
| Components.Length | extents/extents.py:140-142 | `sup - inf` is finite iff both ends are, and then their difference; it is `inf` exactly when sup is `inf` or inf is `-inf`; it is non-negative iff `inf <= sup`, and zero iff the ends coincide |
| Components.AreContinuousIff | extents/extents.py:211-213 | c1 and c2 are continuous iff `c2.inf < c1.sup`, or the two meet at c1's sup with c1 closed on the right or c2 closed on the left |
| Components.FromExtrema | extents/extents.py:240-246 | inf and left closure come from the first argument; sup and right closure come from the second |
| Components.Create | extents/extents.py:216-238 | an existing component is returned as is; a scalar or 1-list gives a CLOSED point; a 2-list is CLOSED and a 2-tuple OPEN; a triple names its own type; lengths outside 1..3 fail the length assertion |
| Components.PairShapesDiffer | extents/extents.py:226-230 | a 2-tuple and a 2-list of the same scalars give components of inverse closure |
| Components.CreateAll | extents/extents.py:259 | creating a list succeeds iff every element is created, and then yields them in order |
| Normalization.Endpoints | extents/extents.py:263 | `_endpoints` has length `2 * len(comps)`, with component i's inf at `2i` and its sup at `2i + 1` |
| Normalization.Sort | extents/extents.py:260 | the sorted list is a permutation of the input, ordered by `(inf, sup)` |
| Normalization.InsertSorted | extents/extents.py:260 | inserting into a key-ordered list keeps it key-ordered |
| Normalization.SortOfSorted | extents/extents.py:260 | an input already in key order is left as it is |
| Normalization.InsertOfKey | extents/extents.py:260 | inserting a component puts it ahead of every component with the same `(inf, sup)`, and keeps those in their order |
| Normalization.SortStable | extents/extents.py:260 | the sort is stable: the components sharing one `(inf, sup)` key come out in their input order |
| Normalization.PartitionFlatten | extents/extents.py:267-271 | the scan puts every sorted component into a run, in order, and nothing else |
| Normalization.PartitionContinuous | extents/extents.py:267-271 | inside a run each member is continuous with the one before |
| Normalization.PartitionBroken | extents/extents.py:267-271 | a run starts exactly where a member is not continuous with the previous member |
| Normalization.PartitionEnds | extents/extents.py:267-271 | every run but the last is nonempty, and the last is empty exactly after a break |
| Normalization.PartitionStartLowest | extents/extents.py:260-275 | over a key-sorted list every run starts with its member of smallest inf |
| Normalization.MergeRunSpans | extents/extents.py:273-277 | a merged run has the first member's inf and left closure; its sup is the largest sup of the run; its right closure is that of the first member reaching that sup |
| Normalization.Normalize | extents/extents.py:258-280 | zero or one input passes through unchanged; otherwise there are no more outputs than inputs, and at least one |
| Normalization.NormalizeRuns | extents/extents.py:258-280 | for two or more inputs, the output is one merged component per run; the runs cut the sorted input exactly between neighbours that are not continuous |
| Normalization.NormalizeCanonical | extents/extents.py:258-280 | well-formed inputs whose sorted sups never decrease give well-formed, increasing, pairwise separated components |
| Normalization.CanonicalEndpointsSorted | extents/extents.py:316 | the endpoint list of such an interval is sorted, as bisect requires |
| Bisect.BisectLeftSorted | extents/extents.py:316 | on a sorted list `bisect_left(a, x)` is the count of elements below x: everything before it is below x and nothing from it on is |
| Bisect.BisectLeft | extents/extents.py:316 | the binary-search loop returns `bisect_left(a, x)` |
| Bisect.BisectRightSorted | extents/extents.py:316 | on a sorted list `bisect_right(a, x)` is the count of elements at most x: everything before it is at most x and everything from it on is above x |
| Bisect.BisectRight | extents/extents.py:316 | the binary-search loop returns `bisect_right(a, x)` |
| Containment.ValueInSound | extents/extents.py:324-330 | a yes from `value in interval` is always right |
| Containment.ValueInComplete | extents/extents.py:324-330 | on a canonical interval every member value is found |
| Containment.ValueInIff | extents/extents.py:324-330 | on a canonical interval `value in interval` is exactly membership |
| Containment.BisectLeftFindsComponent | extents/extents.py:325-330 | on a canonical interval bisect_left lands in the slot pair of the component that holds x |
| Containment.ComponentInSound | extents/extents.py:314-322 | a yes from `component in interval` means every value of the component lies in the interval |
| Containment.ComponentInComplete | extents/extents.py:314-322 | a component lying in one component of a canonical interval, and ending strictly before that component's sup, is found |
| Containment.ComponentInAtEnd | extents/extents.py:316-318 | a component reaching the interval's last endpoint is never found |
| Containment.ComponentInOwnEnds | extents/extents.py:316-318 | a component is never found in a canonical interval that has a component with the same ends, so `[1, 2] in interval[1, 2]` is false |
| Containment.IntervalInSound | extents/extents.py:311-312 | a yes from `interval in interval` means every value of the other interval lies in this one |
| Algebra.GroupPairsRoundTrip | extents/extents.py:27-38 | grouping a list of even length into pairs and flattening the pairs gives the list back |
| Algebra.GroupPairs | extents/extents.py:27-38 | pair i is the elements at 2i and 2i + 1, and a trailing odd element is dropped |
| Algebra.ComplementOfEmpty | extents/extents.py:354-355 | `~` of the empty interval is the single closed `[-inf, inf]`, which holds every value |
| Algebra.ComplementShape | extents/extents.py:357-377 | the result has n - 1 gaps plus one open piece on each side whose outer endpoint is finite. Each gap's left end is closed iff the component before it is right-open, and its right end is closed iff the component after it is left-open |
| Algebra.ComplementGap | extents/extents.py:357-377 | the piece between components i - 1 and i runs from the first's sup to the second's inf, with inverted closures |
| Algebra.ComplementHead | extents/extents.py:357-366 | with a finite first endpoint, the first piece is `(-inf, inf0` with the inverse of the first component's left closure |
| Algebra.ComplementTail | extents/extents.py:357-370 | with a finite last endpoint, the last piece is `supN, inf)` with the inverse of the last component's right closure |
| Algebra.ComplementAsGaps | extents/extents.py:357-377 | the list reshaping of `__invert__` yields exactly the head piece, the gaps and the tail piece |
| Algebra.EndpointsOfComplement | extents/extents.py:352-377 | the endpoints of `~x` depend only on the endpoints of x |
| Algebra.DoubleComplementList | extents/extents.py:357-370 | complementing an endpoint list twice restores it when only its outermost endpoints may be infinite |
| Algebra.DoubleComplementEndpoints | extents/extents.py:352-377 | `~~x` has the endpoints of x when only the outermost endpoints of x may be infinite |
| Algebra.ComplementMember | extents/extents.py:352-377 | on a canonical interval whose components each hold a value, `~x` holds exactly the finite values that x does not |
| Algebra.ComplementNotMember | extents/extents.py:352-377 | on a canonical interval whose components each hold a value, no piece of `~x` holds a finite value of x |
| Algebra.ComplementCovers | extents/extents.py:352-377 | every finite value outside x lies in a piece of `~x` |
| Algebra.Union | extents/extents.py:379-385 | the union `a.__or__(b)` has no more components than a and b together |
| Algebra.MergeRunSound | extents/extents.py:273-277 | a merged run holds nothing that no member holds |
| Algebra.MergeRunComplete | extents/extents.py:273-277 | a merged run holds every value strictly inside one of its members |
| Algebra.NormalizeSound | extents/extents.py:258-280 | the constructor's interval holds nothing that no input component holds |
| Algebra.NormalizeComplete | extents/extents.py:258-280 | the constructor's interval holds every value strictly inside an input component |
| Algebra.UnionSound | extents/extents.py:379-385 | every value of the union of a and b is a value of a or of b |
| Algebra.UnionComplete | extents/extents.py:379-385 | every value strictly inside a component of a or b is a value of their union |
| Algebra.IntersectKeepsCommon | extents/extents.py:387-390 | when the complements of a and b and their union are canonical with solid components, every finite value of both a and b is a value of `a & b` |
| Algebra.XorSound | extents/extents.py:392-395 | every value of `a ^ b` is a value of `a & ~b` or of `~a & b` |
| Algebra.EqualIff | extents/extents.py:397-398 | `a == b` iff the components agree pairwise on inf and sup, whatever their closures |
| Algebra.EqualIgnoresClosures | extents/extents.py:397-398 | `[1, 2] == (1, 2)` although only the first holds 1 |
| Queries.At | extents/extents.py:340-341 | `interval[i]` succeeds iff `-n <= i < n`, and otherwise raises IndexError (the model records i in the error) |
| Queries.AtNegative | extents/extents.py:340-341 | index `-k` names the component at `n - k` |
| Queries.SliceSplit | extents/extents.py:342-343 | `x[:k] + x[k:]` is x, for every k |
| Queries.SliceAll | extents/extents.py:342-343 | `x[:]` is x |
| Queries.SliceCanonical | extents/extents.py:342-343 | a slice of a canonical interval is canonical |
| Queries.Gather | extents/extents.py:344-346 | picking by a tuple succeeds iff every position is in range, and otherwise raises for the first position out of range; a tuple of positions picks the indexed components in tuple order, and a lone slice picks that slice |
| Queries.GatherConcat | extents/extents.py:344-346 | a tuple picks member after member: picking from a joined tuple succeeds iff both parts do, and yields the two parts' picks one after the other |
| Queries.Select | extents/extents.py:344-348 | the picked components are sorted by `(inf, sup)` and kept as a permutation, without merging |
| Queries.SelectKeepsDuplicates | extents/extents.py:344-348 | picking the same component twice stores it twice |
| Queries.ComponentIntervals | extents/extents.py:294-297 | one single-component interval per component |
| Queries.ComponentIntervalsFlatten | extents/extents.py:294-297 | flattening the component intervals gives the components back |
| Queries.RunStarts | extents/extents.py:299-300 | the runs of equal neighbours start at position 0 and at each position whose element differs from the one before, listed in increasing order |
| Queries.Dedup | extents/extents.py:299-300 | the `groupby` keys are the elements at the run starts, one key per run, in order |
| Queries.DedupEnds | extents/extents.py:299-300 | there are no more keys than elements, and the first and last keys are the list's first and last elements |
| Queries.DedupSameValues | extents/extents.py:299-300 | the keys hold exactly the values of the list |
| Queries.DedupNoRepeats | extents/extents.py:299-300 | no two neighbouring keys are equal |
| Queries.DedupSorted | extents/extents.py:299-302 | on a sorted endpoint list the keys are strictly increasing |
| Queries.ExtremaMember | extents/extents.py:299-302 | `extrema` holds exactly the endpoints of the interval |
| Queries.ExtremaCanonical | extents/extents.py:299-302 | `extrema` of a canonical interval is canonical |
| Queries.Mid | extents/extents.py:305 | the half-sum of two finite ends is as far from one as from the other; with `-inf` at either end it is `-inf`, with `inf` it is `inf`; between ordered ends it lies between them |
| Queries.Midpoint | extents/extents.py:304-307 | one OPEN point `(m, m)` per component, m the half-sum of that component's ends, lying inside the component when it is well formed |
| Queries.MidpointHoldsNothing | extents/extents.py:304-307 | the midpoint interval holds no value |
| Queries.Hull | extents/extents.py:409-416 | fails with ValueError on no intervals and with IndexError on an empty one. Otherwise one component from the least first endpoint to the greatest last endpoint, each closure taken from the first interval that attains that extreme |
| Queries.HullCovers | extents/extents.py:409-416 | every value of a canonical interval lies within the hull's bounds, and inside the hull when strictly between them |
| Queries.UnionAll | extents/extents.py:418-421 | no more components than all the intervals together |
| Queries.UnionAllSound | extents/extents.py:418-421 | every value of the union is a value of one of the intervals |
| Queries.CastMember | extents/extents.py:423-425 | `cast(x)` holds x and nothing else |
| Intervals.Interval.Empty | extents/extents.py:258-265 | `cls()` is an empty interval with an empty endpoint list |
| Intervals.Interval.FromComponents | extents/extents.py:258-280 | the constructor's loops store the normalised components and their endpoint list |
| Intervals.ScanRuns | extents/extents.py:267-271 | the loop over neighbour pairs, with the last component paired with itself, builds the run partition |
| Intervals.MergeRuns | extents/extents.py:273-277 | the loop over runs appends one merged component per run |
| Intervals.Interval.New | extents/extents.py:258-280 | `Interval(*values)`: the first creation failure is raised; a scan that ends in an empty run raises IndexError; otherwise the normalised interval |
| Intervals.Interval.FromEndpointList | extents/extents.py:282-288 | stores the endpoint list as given, with each pair of it as a CLOSED component; the fields agree when the list has even length |
| Intervals.Interval.FromComponentValues | extents/extents.py:282-292 | creates each value, stores the components unmerged with their endpoints, and raises the first creation failure |
| Intervals.Interval.ContainsValue | extents/extents.py:324-330 | runs the bisection; on a canonical interval the answer is membership |
| Intervals.Interval.ContainsComponent | extents/extents.py:314-322 | runs both bisections; a yes means every value of the component lies in the interval |
| Intervals.Interval.ContainsInterval | extents/extents.py:311-312 | checks each component of the other interval in turn; a yes means every value of the other lies in this one |
| Intervals.Interval.GetItem | extents/extents.py:340-341 | Python list indexing of the components |
| Intervals.Interval.GetSlice | extents/extents.py:342-343 | a fresh interval holding the slice unmerged, canonical when the source is |
| Intervals.Interval.GetTuple | extents/extents.py:344-348 | a fresh interval holding the picked components sorted and unmerged, or the first indexing failure |
| Intervals.Interval.Components | extents/extents.py:294-297 | one fresh single-component interval per component, in order |
| Intervals.Interval.ExtremaInterval | extents/extents.py:299-302 | a fresh interval holding exactly the endpoints |
| Intervals.Interval.MidpointInterval | extents/extents.py:304-307 | a fresh interval of OPEN points that holds nothing |
| Intervals.Interval.Invert | extents/extents.py:352-377 | a fresh `~self`; on a canonical interval of solid components it holds exactly the finite values self does not |
| Intervals.Interval.Union | extents/extents.py:379-385 | the union of self and other, or IndexError exactly when the scan ends in an empty run; every value of the result lies in an operand |
| Intervals.Interval.Intersect | extents/extents.py:387-390 | the complement of the union of the complements, or IndexError exactly when that union fails |
| Intervals.Interval.SymmetricDifference | extents/extents.py:392-395 | the union of `self & ~other` and `~self & other`, or IndexError exactly when one of its unions fails |
| Intervals.Interval.EqualsIff | extents/extents.py:397-398 | equality compares inf and sup pairwise and ignores closures |
| Intervals.Interval.HullOf | extents/extents.py:409-416 | a fresh interval holding the hull, or the hull's failure |
| Intervals.Interval.UnionOf | extents/extents.py:418-421 | all the intervals' components normalised together, or IndexError; every value of the result lies in one of the intervals |
| Intervals.Interval.CastOf | extents/extents.py:423-425 | a fresh interval that holds x and nothing else |
| Scenarios.NormalizeOneRun | extents/extents.py:258-280 | two sorted touching components merge into one, ending at the first member of larger sup |
| Scenarios.NormalizeTwoRuns | extents/extents.py:258-280 | three sorted components whose third does not touch the second normalise into two |
| Scenarios.NormalizeSingleRun | extents/extents.py:258-280 | a list whose sorted order is one continuous run normalises into that run's merge |
| Scenarios.SpannedRunIsKept | extents/extents.py:270 | `[0, 10], [1, 2], [5, 6]` normalises to the overlapping `[0, 10], [5, 6]`, because continuity is checked against the previous neighbour only |
| Scenarios.NormalizeNotIdempotent | extents/extents.py:258-280 | normalising a normalised interval can merge further |
| Scenarios.TiedInfLosesPoint | extents/extents.py:260-277 | `(a, b], [a, c]` with `a < b <= c` sorts with `(a, b]` first (by the key when `b < c`, by input order when `b = c`) and merges into `(a, c]`, losing a, which `[a, c]` holds |
| Scenarios.OpenPointLastRaises | extents/extents.py:268-275 | an OPEN point sorted last leaves an empty run, so the constructor raises; the CLOSED point does not |
| Scenarios.HullDropsEndpoint | extents/extents.py:409-416 | `hull((a, b), [a, b])` is `(a, b)`, so it drops a point one of the intervals holds |
| Scenarios.ComplementOfClosed | extents/extents.py:357-363 | `~[a, b]` is `(-inf, a), (b, inf)` |
| Scenarios.ComplementOfWhole | extents/extents.py:365-367 | `~(-inf, inf)` is empty |
| Scenarios.GapsNormalize | extents/extents.py:379-385 | the union of `~[a, b]` and `~[c, d]` with `c < d < a < b` has one component, the whole line, as for `~[7, 10]` and `~[0, 3]` |
| Scenarios.GapsNormalizeReversed | extents/extents.py:379-385 | the same with the operands swapped, as for `~[0, 3]` and `~[7, 10]` |
| Scenarios.DisjointIntersection | extents/extents.py:387-390 | `[a, b] & [c, d]` with `c < d < a < b` has no components, as in `[7, 10] & [0, 3]` |
| Scenarios.DisjointIntersectionReversed | extents/extents.py:387-390 | `[c, d] & [a, b]` has no components either, as in `[0, 3] & [7, 10]` |
| AlgebraScenarios.OverlapIntersection | tests/extents_test.py:73-75 | `[a, b] & [c, d]` with `a < c < b < d` is `[c, b]`, as `[1, 4] & [2, 5]` is `[2, 4]` |
| AlgebraScenarios.SpannedGapsUnion | extents/extents.py:379-385 | the union of `(l1, h1)` with `(l2, m1), (m2, h2)`, where `l1 < l2 < m1 < m2 < h2 < h1`, keeps the two overlapping components `(l1, h1)` and `(m2, h2)` |
| AlgebraScenarios.ComplementOfOverlapping | extents/extents.py:357-377 | `~((l1, h1), (m2, h2))` is `(-inf, l1], [h1, m2], [h2, inf)`, a gap that runs backwards when the components overlap |
| AlgebraScenarios.IntersectOfRays | extents/extents.py:387-390 | `(-inf, l1], [h1, inf) & (-inf, l2], [m1, m2], [h2, inf)` with `l1 < l2 < m1 < m2 < h2 < h1` is `(-inf, l1], [h1, m2], [h2, inf)` |
| AlgebraScenarios.IntersectAddsValue | extents/extents.py:387-390 | for those two canonical intervals `a & b` holds every v in `[h2, h1)`, which the second holds and the first does not |
| AlgebraScenarios.HalfOpenFirstMerges | extents/extents.py:258-280 | `[a, b), [a, b], (b, c)` in this order is one run and becomes `[a, c)` |
| AlgebraScenarios.ClosedFirstSplits | extents/extents.py:258-280 | `[a, b], [a, b), (b, c)` in this order is two runs and becomes `[a, b], (b, c)` |
| AlgebraScenarios.NormalizeOrderDependent | extents/extents.py:258-280 | the same three components in two orders normalise into intervals that do not compare equal |
| AlgebraScenarios.DedupCollapsesNeighbours | extents/extents.py:299-300 | `groupby` turns x, x, y into x, y |
| AlgebraScenarios.DedupKeepsDistantRepeats | extents/extents.py:299-300 | `groupby` keeps x, y, x whole: only neighbours collapse |
| AlgebraScenarios.MidpointOfPair | tests/extents_test.py:123-125 | the midpoint of `[a, b], [c, c]` is `(m, m), (c, c)` with m the half-sum of a and b, equal to the points m and c, as `[1, 2], 3` gives `1.5, 3` |

## Left out

- Floating point. Endpoints are exact reals plus the two infinities: there is no NaN, rounding or
  overflow.
- `inf_inv` and `sup_inv` are floating-point reciprocals and are not part of this model.
- `__str__` and `__repr__` of both classes are display-only and not part of this model. The glyphs
  appear only as the variants' `OpenParens`/`ClosingParens`.
- The `MetaInterval` subscript sugar is not part of this model. `interval[a, b]` is taken as the
  constructor on the list `[a, b]`.
- The `isinstance` dispatch and its `TypeError` branches are not modelled. Closed input datatypes
  (`RawValue`, `Index`, and separate methods per kind of operand) make those inputs unrepresentable.
- Components.Create: the "other iterable" branch, the 1-tuple path (which nests a tuple) and a
  3-sequence of plain scalars (whose third scalar would become the type) are excluded by
  `WellShaped`. The `copy` flag is not modelled, because a value model has no identity to copy.
- Components.NewComponent: `__post_init__` replacing a name by its variant is modelled as building
  the component value. The in-place overwrite of `self.type` has no counterpart.
- A `Component` operand of `|`, `&` and `^` is not modelled separately. It is wrapped into a
  one-component interval first, which is the constructor on a single value.
- `__len__` and iteration are not modelled; the components are the `comps` field.
- Slices take start and stop only. A step is not modelled.
- `difference`, which the tests call, is not defined in `extents/extents.py` and is not part of
  this model.
- Running time. The O(log n) search is modelled, but only its result is proved.
- Algebra.ComplementMember, Algebra.ComplementCovers: proved only for canonical intervals whose
  components each hold some value, and for finite values.
- Algebra.ComplementNotMember: likewise proved only for a canonical interval of components that
  each hold some value, and for finite values. On overlapping components a gap of `~x` can run
  backwards over values of x (AlgebraScenarios.ComplementOfOverlapping).
- Containment.ComponentInComplete: covers only components that end strictly before the sup of the
  component holding them. The code rejects components reaching the last endpoint
  (Containment.ComponentInAtEnd) and a component's own ends (Containment.ComponentInOwnEnds).
- Algebra.NormalizeComplete, Algebra.UnionComplete: proved only for values strictly inside an input
  component. At a shared endpoint the merged closure comes from the first member of largest sup and
  can drop the point (Scenarios.TiedInfLosesPoint).
- Algebra.Intersect, Algebra.SymmetricDifference: defined as the compositions the source uses.
  What is proved of them is Algebra.IntersectKeepsCommon (under canonical complements) and
  Algebra.XorSound. Pointwise intersection fails in general for the code:
  AlgebraScenarios.IntersectAddsValue gives two canonical intervals whose `&` holds a value that
  only one of them holds.
- The six-component `~forbidden & k` case of `test_invert` is not worked through as a scenario; the
  two-component `test_intersection` case is (AlgebraScenarios.OverlapIntersection).
- Components.Length: the same infinity at both ends, where `sup - inf` is NaN, is excluded.
- Normalization.Normalize: the constructor's result depends on the order of components that share
  an `(inf, sup)` key, because the sort is stable and the merge takes closures from particular
  members (AlgebraScenarios.NormalizeOrderDependent). No order-independence is claimed.
- Normalization.NormalizeCanonical: "canonical" means only that the components are well formed
  and separated: each starts after the previous sup, or at it with an open left end. Separated
  neighbours may still touch, as `[a, b], (b, d)` do, so a canonical result is not a fixed point
  of the constructor: Scenarios.NormalizeNotIdempotent has sorted inputs whose sups never
  decrease, and normalising its result again merges further.
- Normalization.NormalizeCanonical: requires sorted inputs whose sups never decrease. Without that,
  the output can overlap (Scenarios.SpannedRunIsKept).
- Queries.Mid, Queries.Midpoint: exclude a component from `-inf` to `inf`, whose half-sum is NaN.
- Algebra.DoubleComplementEndpoints: states that the endpoint list comes back, not the closures.
