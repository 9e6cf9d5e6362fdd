/** A single contiguous piece: Component in extents/extents.py. */
module Components {
  import opened Errors
  import opened ExtReals
  import opened ComponentTypes

  /** The pair (inf, sup) with its closure variant. The order inf <= sup is not enforced. */
  datatype Component = Component(inf: Ext, sup: Ext, ctype: ComponentType)

  /** The `type` argument of the dataclass: a variant, or a name resolved in __post_init__. */
  datatype TypeArg = Variant(t: ComponentType) | Name(name: string)

  /** The raw values Interval(...) and Component.create accept. */
  datatype RawValue =
    | Existing(c: Component)                       // a Component
    | Number(v: Ext)                               // a bare scalar
    | ListOf(items: seq<Ext>)                      // a list of scalars
    | TupleOf(items: seq<Ext>)                     // a tuple of scalars
    | Triple(lo: Ext, hi: Ext, kind: TypeArg)      // a 3-sequence that carries its own type

  /** The left comparator of the variant applied to (a, b). */
  predicate LeftCompare(t: ComponentType, a: Ext, b: Ext) {
    if t.LeftClosed() then Le(a, b) else Lt(a, b)
  }

  /** The right comparator of the variant applied to (a, b). */
  predicate RightCompare(t: ComponentType, a: Ext, b: Ext) {
    if t.RightClosed() then Le(a, b) else Lt(a, b)
  }

  /** `value in component`. */
  predicate Contains(c: Component, v: Ext) {
    LeftCompare(c.ctype, c.inf, v) && RightCompare(c.ctype, v, c.sup)
  }

  /** inf <= sup: the order the algebra relies on. */
  predicate WellFormed(c: Component) {
    Le(c.inf, c.sup)
  }

  /** Component(inf, sup, type) followed by __post_init__, which replaces a name by its variant. */
  function NewComponent(inf: Ext, sup: Ext, kind: TypeArg): (r: Result<Component>)
    ensures kind.Variant? ==> r == Success(Component(inf, sup, kind.t))
    ensures kind.Name? ==>
      (r.Success? <==> kind.name in Aliases) &&
      (r.Success? ==> r.value == Component(inf, sup, Aliases[kind.name]))
  {
    match kind
    case Variant(t) => Success(Component(inf, sup, t))
    case Name(name) =>
      match GetFromName(name)
      case Success(t) => Success(Component(inf, sup, t))
      case Failure(e) => Failure(e)
  }

  /** Membership spelled out: each side is strict unless that side is closed. */
  lemma ContainsIff(c: Component, v: Ext)
    ensures Contains(c, v) <==>
      (Lt(c.inf, v) || (c.inf == v && c.ctype.LeftClosed())) &&
      (Lt(v, c.sup) || (v == c.sup && c.ctype.RightClosed()))
  {
  }

  /** A degenerate [v, v] holds v exactly when it is CLOSED, and never holds anything else. */
  lemma DegenerateContains(x: Ext, t: ComponentType, v: Ext)
    ensures Contains(Component(x, x, t), v) <==> v == x && t == Closed
  {
  }

  /** A component is convex: it holds everything between two of its members. */
  lemma ContainsConvex(c: Component, a: Ext, v: Ext, b: Ext)
    requires Contains(c, a) && Contains(c, b) && Le(a, v) && Le(v, b)
    ensures Contains(c, v)
  {
    LtLeTransitive(c.inf, a, v);
    LtLeTransitive(v, b, c.sup);
  }

  /** component[index]: 0 is inf, 1 is sup, anything else an IndexError. */
  function GetItem(c: Component, index: int): (r: Result<Ext>)
    ensures r.Success? <==> index == 0 || index == 1
    ensures index == 0 ==> r == Success(c.inf)
    ensures index == 1 ==> r == Success(c.sup)
    ensures r.Failure? ==> r.error == IndexOutOfRange(index)
  {
    if index == 0 then Success(c.inf)
    else if index == 1 then Success(c.sup)
    else Failure(IndexOutOfRange(index))
  }

  /** component.length: sup - inf in float arithmetic, where an infinity minus anything finite
      (or minus the opposite infinity) is that infinity. The same infinity at both ends gives NaN,
      which the requires leaves out. */
  function Length(c: Component): (r: Ext)
    requires !(c.inf == c.sup && !c.inf.Fin?)
    ensures r.Fin? <==> c.inf.Fin? && c.sup.Fin?
    ensures r.Fin? ==> r.r == c.sup.r - c.inf.r
    ensures r == PosInf <==> c.sup == PosInf || c.inf == NegInf
    ensures WellFormed(c) <==> Le(Fin(0.0), r)
    ensures r == Fin(0.0) <==> c.inf == c.sup
  {
    match (c.inf, c.sup)
    case (Fin(x), Fin(y)) => Fin(y - x)
    case (NegInf, _) => PosInf
    case (_, PosInf) => PosInf
    case _ => NegInf
  }

  /** Component.are_continuous(c1, c2): c2 starts inside c1, or c2's own left side admits c1.sup. */
  predicate AreContinuous(c1: Component, c2: Component) {
    RightCompare(c1.ctype, c2.inf, c1.sup) || LeftCompare(c2.ctype, c2.inf, c1.sup)
  }

  /** The two components touch or overlap: c2 starts before c1 ends, or at c1's end with one side closed. */
  lemma AreContinuousIff(c1: Component, c2: Component)
    ensures AreContinuous(c1, c2) <==>
      Lt(c2.inf, c1.sup) ||
      (c2.inf == c1.sup && (c1.ctype.RightClosed() || c2.ctype.LeftClosed()))
  {
  }

  /** Component.from_extrema: inf and left closure of c1, sup and right closure of c2. */
  function FromExtrema(c1: Component, c2: Component): (r: Component)
    ensures r.inf == c1.inf && r.sup == c2.sup
    ensures r.ctype.LeftClosed() == c1.ctype.LeftClosed()
    ensures r.ctype.RightClosed() == c2.ctype.RightClosed()
  {
    Component(c1.inf, c2.sup, Get(c1.ctype.LeftClosed(), c2.ctype.RightClosed()))
  }

  /** The raw values the model can express. A 3-sequence of plain scalars (whose third scalar
      would become the type) and a 1-tuple (which create nests into a tuple of tuples) are not. */
  predicate WellShaped(raw: RawValue) {
    match raw
    case ListOf(items) => |items| != 3
    case TupleOf(items) => |items| != 1 && |items| != 3
    case _ => true
  }

  /** Component.create: sniff the shape of the raw value. */
  function Create(raw: RawValue): (r: Result<Component>)
    requires WellShaped(raw)
    ensures raw.Existing? ==> r == Success(raw.c)
    ensures raw.Number? ==> r == Success(Component(raw.v, raw.v, Closed))
    ensures (raw.ListOf? || raw.TupleOf?) ==>
      (r.Failure? <==> !(1 <= |raw.items| <= 3)) &&
      (r.Failure? ==> r.error == InvalidShape(|raw.items|))
    ensures raw.ListOf? && |raw.items| == 1 ==> r == Success(Component(raw.items[0], raw.items[0], Closed))
    ensures raw.ListOf? && |raw.items| == 2 ==> r == Success(Component(raw.items[0], raw.items[1], Closed))
    ensures raw.TupleOf? && |raw.items| == 2 ==> r == Success(Component(raw.items[0], raw.items[1], Open))
    ensures raw.Triple? ==> r == NewComponent(raw.lo, raw.hi, raw.kind)
  {
    match raw
    case Existing(c) => Success(c)
    case Number(v) => Success(Component(v, v, Closed))
    case ListOf(items) =>
      if !(1 <= |items| <= 3) then Failure(InvalidShape(|items|))
      else if |items| == 1 then Success(Component(items[0], items[0], Closed))
      else Success(Component(items[0], items[1], Closed))
    case TupleOf(items) =>
      if !(1 <= |items| <= 3) then Failure(InvalidShape(|items|))
      else Success(Component(items[0], items[1], Open))
    case Triple(lo, hi, kind) => NewComponent(lo, hi, kind)
  }

  /** A 2-tuple and a 2-list with the same scalars give the same endpoints and opposite closures. */
  lemma PairShapesDiffer(a: Ext, b: Ext)
    ensures Create(TupleOf([a, b])).Success? && Create(ListOf([a, b])).Success?
    ensures Create(TupleOf([a, b])).value.ctype == Invert(Create(ListOf([a, b])).value.ctype)
  {
  }

  /** `[Component.create(v) for v in values]`: the first failure is raised. */
  function CreateAll(raws: seq<RawValue>): (r: Result<seq<Component>>)
    requires forall i :: 0 <= i < |raws| ==> WellShaped(raws[i])
    ensures r.Success? <==> forall i :: 0 <= i < |raws| ==> Create(raws[i]).Success?
    ensures r.Success? ==>
      |r.value| == |raws| && forall i :: 0 <= i < |raws| ==> r.value[i] == Create(raws[i]).value
  {
    if raws == [] then Success([])
    else
      match Create(raws[0])
      case Failure(e) => Failure(e)
      case Success(c) =>
        match CreateAll(raws[1..])
        case Failure(e) => Failure(e)
        case Success(cs) => Success([c] + cs)
  }
}
