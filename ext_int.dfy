/**
 * Distances as they appear in discrete_lab.py: an integer or `float('inf')`.
 * Every weight is an integer, so the only non-integer value ever stored is
 * +infinity; this module gives it the arithmetic Python gives it.
 */
module ExtInt {

  /** A tentative or final distance: finite, or `float('inf')`. */
  datatype Dist = Fin(val: int) | Inf

  /** Python's `a + b` when either side may be `float('inf')`: infinity absorbs. */
  function Add(a: Dist, b: Dist): Dist
  {
    if a.Fin? && b.Fin? then Fin(a.val + b.val) else Inf
  }

  /** Python's `a < b`: `inf < inf` is false and every integer is below `inf`. */
  predicate Less(a: Dist, b: Dist)
  {
    match (a, b)
    case (Fin(x), Fin(y)) => x < y
    case (Fin(_), Inf) => true
    case (Inf, _) => false
  }

  predicate LessEq(a: Dist, b: Dist)
  {
    !Less(b, a)
  }

  /** Python's `min(a, b)`: the first argument unless the second is strictly smaller. */
  function Min(a: Dist, b: Dist): Dist
  {
    if Less(b, a) then b else a
  }

  lemma LessEqTrans(a: Dist, b: Dist, c: Dist)
    requires LessEq(a, b) && LessEq(b, c)
    ensures LessEq(a, c)
  {
  }

  lemma AddMono(a: Dist, a': Dist, b: Dist, b': Dist)
    requires LessEq(a, a') && LessEq(b, b')
    ensures LessEq(Add(a, b), Add(a', b'))
  {
  }
}
