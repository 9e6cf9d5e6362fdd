/** The four closure variants of a component: ComponentType in extents/extents.py. */
module ComponentTypes {
  import opened Errors

  /** CLOSED [a, b], OPEN (a, b), HALF_CLOSED_LEFT [a, b), HALF_CLOSED_RIGHT (a, b]. */
  datatype ComponentType = Closed | Open | HalfClosedLeft | HalfClosedRight {

    /** The left comparator is <= (otherwise <). */
    predicate LeftClosed() {
      this == Closed || this == HalfClosedLeft
    }

    /** The right comparator is <= (otherwise <). */
    predicate RightClosed() {
      this == Closed || this == HalfClosedRight
    }

    /** The opening glyph used when the component is displayed. */
    function OpenParens(): string {
      if LeftClosed() then "[" else "("
    }

    /** The closing glyph used when the component is displayed. */
    function ClosingParens(): string {
      if RightClosed() then "]" else ")"
    }
  }

  /** `~t`: CLOSED and OPEN swap, HALF_CLOSED_LEFT and HALF_CLOSED_RIGHT swap. */
  function Invert(t: ComponentType): (r: ComponentType)
    ensures r.LeftClosed() == !t.LeftClosed() && r.RightClosed() == !t.RightClosed()
  {
    match t
    case Closed => Open
    case Open => Closed
    case HalfClosedLeft => HalfClosedRight
    case HalfClosedRight => HalfClosedLeft
  }

  /** ComponentType.get(is_left_closed, is_right_closed). */
  function Get(isLeftClosed: bool, isRightClosed: bool): (r: ComponentType)
    ensures r.LeftClosed() == isLeftClosed && r.RightClosed() == isRightClosed
  {
    if isLeftClosed && isRightClosed then Closed
    else if !isLeftClosed && !isRightClosed then Open
    else if isLeftClosed && !isRightClosed then HalfClosedLeft
    else HalfClosedRight
  }

  /** `~` is an involution. */
  lemma InvertInvolution(t: ComponentType)
    ensures Invert(Invert(t)) == t
    ensures Invert(t) != t
  {
  }

  /** A variant is determined by its two flags, so `get` is a bijection onto the variants. */
  lemma GetOfFlags(t: ComponentType)
    ensures Get(t.LeftClosed(), t.RightClosed()) == t
  {
  }

  /** Inverting is `get` of the negated flags. */
  lemma InvertIsGetOfNegatedFlags(t: ComponentType)
    ensures Invert(t) == Get(!t.LeftClosed(), !t.RightClosed())
  {
  }

  /** The alias table _COMPONENT_TYPE_ALIASES. */
  const Aliases: map<string, ComponentType> := map[
    "closed" := Closed, "[]" := Closed, "[_]" := Closed,
    "open" := Open, "()" := Open, "(_)" := Open,
    "closedopen" := HalfClosedLeft, "closed_open" := HalfClosedLeft,
    "half_closed_left" := HalfClosedLeft, "half_open_right" := HalfClosedLeft,
    "[)" := HalfClosedLeft,
    "openclosed" := HalfClosedRight, "open_closed" := HalfClosedRight,
    "half_open_left" := HalfClosedRight, "half_closed_right" := HalfClosedRight,
    "(]" := HalfClosedRight
  ]

  /** ComponentType.get_from_name: table lookup, ValueError on any other string. */
  function GetFromName(name: string): (r: Result<ComponentType>)
    ensures r.Success? <==> name in Aliases
    ensures r.Failure? ==> r.error == UnknownAlias(name)
  {
    if name in Aliases then Success(Aliases[name]) else Failure(UnknownAlias(name))
  }

  /** Every variant is named by its own two glyphs, and by the glyphs with `_` between them. */
  lemma GlyphAliases(t: ComponentType)
    ensures GetFromName(t.OpenParens() + t.ClosingParens()) == Success(t)
    ensures t.LeftClosed() == t.RightClosed() ==>
      GetFromName(t.OpenParens() + "_" + t.ClosingParens()) == Success(t)
  {
    match t
    case Closed =>
      assert t.OpenParens() + t.ClosingParens() == "[]";
      assert t.OpenParens() + "_" + t.ClosingParens() == "[_]";
    case Open =>
      assert t.OpenParens() + t.ClosingParens() == "()";
      assert t.OpenParens() + "_" + t.ClosingParens() == "(_)";
    case HalfClosedLeft =>
      assert t.OpenParens() + t.ClosingParens() == "[)";
    case HalfClosedRight =>
      assert t.OpenParens() + t.ClosingParens() == "(]";
  }

  /** The word aliases name the closure of each side: "closed" both, "open" neither, the
      closed-open spellings the left side only and the open-closed spellings the right side only. */
  lemma WordAliases()
    ensures GetFromName("closed") == Success(Get(true, true))
    ensures GetFromName("open") == Success(Get(false, false))
    ensures forall w :: w in ["closedopen", "closed_open", "half_closed_left", "half_open_right"] ==>
      GetFromName(w) == Success(Get(true, false))
    ensures forall w :: w in ["openclosed", "open_closed", "half_open_left", "half_closed_right"] ==>
      GetFromName(w) == Success(Get(false, true))
  {
  }
}
