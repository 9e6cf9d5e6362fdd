/** The extended real line: endpoints are exact reals or one of the two infinities. */
module ExtReals {

  datatype Ext = NegInf | Fin(r: real) | PosInf

  /** a <= b (Python's operator.le on non-NaN floats). */
  predicate Le(a: Ext, b: Ext) {
    match (a, b)
    case (NegInf, _) => true
    case (_, PosInf) => true
    case (Fin(x), Fin(y)) => x <= y
    case _ => false
  }

  /** a < b (Python's operator.lt on non-NaN floats). */
  predicate Lt(a: Ext, b: Ext) {
    !Le(b, a)
  }

  lemma LtIsStrictLe(a: Ext, b: Ext)
    ensures Lt(a, b) <==> Le(a, b) && a != b
  {
  }

  lemma LeAntisymmetric(a: Ext, b: Ext)
    requires Le(a, b) && Le(b, a)
    ensures a == b
  {
  }

  lemma LeTransitive(a: Ext, b: Ext, c: Ext)
    requires Le(a, b) && Le(b, c)
    ensures Le(a, c)
  {
  }

  lemma LtLeTransitive(a: Ext, b: Ext, c: Ext)
    ensures Lt(a, b) && Le(b, c) ==> Lt(a, c)
    ensures Le(a, b) && Lt(b, c) ==> Lt(a, c)
  {
  }

  /** Every earlier element is at most every later one. */
  predicate Sorted(xs: seq<Ext>) {
    forall i, j :: 0 <= i < j < |xs| ==> Le(xs[i], xs[j])
  }

  /** Sortedness follows from sortedness of neighbours. */
  lemma {:induction false} SortedFromNeighbours(xs: seq<Ext>)
    requires forall i :: 0 < i < |xs| ==> Le(xs[i - 1], xs[i])
    ensures Sorted(xs)
  {
    if |xs| > 1 {
      var t := xs[..|xs| - 1];
      assert forall i :: 0 < i < |t| ==> Le(t[i - 1], t[i]) by {
        forall i | 0 < i < |t| ensures Le(t[i - 1], t[i]) {
          assert t[i - 1] == xs[i - 1] && t[i] == xs[i];
        }
      }
      SortedFromNeighbours(t);
      forall i, j | 0 <= i < j < |xs| ensures Le(xs[i], xs[j]) {
        if j < |xs| - 1 {
          assert xs[i] == t[i] && xs[j] == t[j];
        } else if i < j - 1 {
          assert xs[i] == t[i] && xs[j - 1] == t[j - 1];
          LeTransitive(xs[i], xs[j - 1], xs[j]);
        }
      }
    }
  }

  /** The index max() returns: the first occurrence of a largest value. */
  function FirstMaxIndex(xs: seq<Ext>): (m: nat)
    requires xs != []
    ensures m < |xs|
    ensures forall i :: 0 <= i < |xs| ==> Le(xs[i], xs[m])
    ensures forall i :: 0 <= i < m ==> Lt(xs[i], xs[m])
  {
    if |xs| == 1 then 0
    else
      var m := FirstMaxIndex(xs[..|xs| - 1]);
      if Lt(xs[m], xs[|xs| - 1]) then
        assert forall i :: 0 <= i < |xs| - 1 ==> Le(xs[i], xs[m]) by {
          forall i | 0 <= i < |xs| - 1 ensures Le(xs[i], xs[m]) {
            assert xs[i] == xs[..|xs| - 1][i];
          }
        }
        forall i | 0 <= i < |xs| - 1 ensures Lt(xs[i], xs[|xs| - 1]) {
          LtLeTransitive(xs[i], xs[m], xs[|xs| - 1]);
        }
        |xs| - 1
      else
        assert forall i :: 0 <= i < m ==> Lt(xs[i], xs[m]) by {
          forall i | 0 <= i < m ensures Lt(xs[i], xs[m]) {
            assert xs[i] == xs[..|xs| - 1][i];
          }
        }
        assert forall i :: 0 <= i < |xs| - 1 ==> Le(xs[i], xs[m]) by {
          forall i | 0 <= i < |xs| - 1 ensures Le(xs[i], xs[m]) {
            assert xs[i] == xs[..|xs| - 1][i];
          }
        }
        m
  }

  /** The index min() returns: the first occurrence of a smallest value. */
  function FirstMinIndex(xs: seq<Ext>): (m: nat)
    requires xs != []
    ensures m < |xs|
    ensures forall i :: 0 <= i < |xs| ==> Le(xs[m], xs[i])
    ensures forall i :: 0 <= i < m ==> Lt(xs[m], xs[i])
  {
    if |xs| == 1 then 0
    else
      var m := FirstMinIndex(xs[..|xs| - 1]);
      if Lt(xs[|xs| - 1], xs[m]) then
        assert forall i :: 0 <= i < |xs| - 1 ==> Le(xs[m], xs[i]) by {
          forall i | 0 <= i < |xs| - 1 ensures Le(xs[m], xs[i]) {
            assert xs[i] == xs[..|xs| - 1][i];
          }
        }
        forall i | 0 <= i < |xs| - 1 ensures Lt(xs[|xs| - 1], xs[i]) {
          LtLeTransitive(xs[|xs| - 1], xs[m], xs[i]);
        }
        |xs| - 1
      else
        assert forall i :: 0 <= i < m ==> Lt(xs[m], xs[i]) by {
          forall i | 0 <= i < m ensures Lt(xs[m], xs[i]) {
            assert xs[i] == xs[..|xs| - 1][i];
          }
        }
        assert forall i :: 0 <= i < |xs| - 1 ==> Le(xs[m], xs[i]) by {
          forall i | 0 <= i < |xs| - 1 ensures Le(xs[m], xs[i]) {
            assert xs[i] == xs[..|xs| - 1][i];
          }
        }
        m
  }
}
