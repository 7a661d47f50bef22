/**
 * Search values: a real number or one of the two infinities the searchers use
 * as sentinels (`math.inf` and `-math.inf`).
 */
module Extended {

  datatype Ext = NegInf | Fin(r: real) | PosInf

  /** The order on values: `-inf` below every number, `+inf` above. */
  predicate Le(a: Ext, b: Ext) {
    a.NegInf? || b.PosInf? || (a.Fin? && b.Fin? && a.r <= b.r)
  }

  predicate Lt(a: Ext, b: Ext) {
    !Le(b, a)
  }

  lemma LeTrans(a: Ext, b: Ext, c: Ext)
    requires Le(a, b) && Le(b, c)
    ensures Le(a, c)
  {
  }

  /** Python's `max(a, b)`: the first argument unless the second is strictly larger. */
  function Max(a: Ext, b: Ext): (m: Ext)
    ensures Le(a, m) && Le(b, m)
    ensures m == a || m == b
  {
    if Lt(a, b) then b else a
  }

  /** Python's `min(a, b)`: the first argument unless the second is strictly smaller. */
  function Min(a: Ext, b: Ext): (m: Ext)
    ensures Le(m, a) && Le(m, b)
    ensures m == a || m == b
  {
    if Lt(b, a) then b else a
  }

  function Neg(a: Ext): (n: Ext)
    ensures Le(a, Fin(0.0)) <==> Le(Fin(0.0), n)
  {
    match a
    case NegInf => PosInf
    case Fin(x) => Fin(-x)
    case PosInf => NegInf
  }
}
