/** Small value types shared by the board and the search: an optional value
    (the source's `None`) and integers extended with the two infinities
    (the source's `float("-inf")` and `float("inf")`). */
module Common {

  datatype Option<+T> = None | Some(value: T)

  /** An integer or one of the two infinities. */
  datatype Ext = NegInf | Fin(v: int) | PosInf

  /** Negation; it swaps the two infinities. */
  function Neg(e: Ext): (r: Ext)
    ensures r.Fin? <==> e.Fin?
  {
    match e
    case NegInf => PosInf
    case Fin(v) => Fin(-v)
    case PosInf => NegInf
  }

  /** Strict order: -inf below every integer, +inf above. */
  predicate Lt(a: Ext, b: Ext) {
    match (a, b)
    case (NegInf, NegInf) => false
    case (NegInf, _) => true
    case (Fin(x), Fin(y)) => x < y
    case (Fin(_), PosInf) => true
    case (_, _) => false
  }

  predicate Le(a: Ext, b: Ext) {
    a == b || Lt(a, b)
  }

  /** Python's `max(a, b)`: the first argument unless the second is strictly larger. */
  function Max(a: Ext, b: Ext): (r: Ext)
    ensures Le(a, r) && Le(b, r)
    ensures r == a || r == b
  {
    if Lt(a, b) then b else a
  }

  /** `Lt` is a strict total order and `Neg` reverses it. */
  lemma LtFacts(a: Ext, b: Ext, c: Ext)
    ensures Neg(Neg(a)) == a
    ensures !Lt(a, a)
    ensures Lt(a, b) ==> !Lt(b, a)
    ensures Lt(a, b) || a == b || Lt(b, a)
    ensures Lt(a, b) && Lt(b, c) ==> Lt(a, c)
    ensures Lt(a, b) <==> Lt(Neg(b), Neg(a))
  {
  }

  /** `Le` is a total order that `Lt` refines. */
  lemma LeFacts(a: Ext, b: Ext, c: Ext)
    ensures Le(a, b) && Le(b, c) ==> Le(a, c)
    ensures Lt(a, b) && Le(b, c) ==> Lt(a, c)
    ensures Le(a, b) && Lt(b, c) ==> Lt(a, c)
    ensures !Lt(a, b) <==> Le(b, a)
  {
    LtFacts(a, b, c);
  }
}
