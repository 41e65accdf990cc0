/** The infinity sentinels of pyreasoner/sets.py, together with the finite
    integers they are compared against. */
module Sentinels {

  /** `NegativeInfinity`, an ordinary int, or `Infinity`. */
  datatype Extended = NegInf | Fin(n: int) | PosInf

  /** The order the sentinels are meant to realise: the integers with a least
      and a greatest element added. */
  predicate Below(x: Extended, y: Extended)
  {
    match (x, y)
    case (NegInf, NegInf) => false
    case (NegInf, _) => true
    case (Fin(a), Fin(b)) => a < b
    case (Fin(_), PosInf) => true
    case _ => false
  }

  /** `Infinity < other`: never. */
  function InfinityLess(other: Extended): (r: bool)
    ensures r == Below(PosInf, other)
  {
    false
  }

  /** `Infinity > other`: whenever `other` is not `Infinity` itself. */
  function InfinityGreater(other: Extended): (r: bool)
    ensures r == Below(other, PosInf)
  {
    other != PosInf
  }

  /** `Infinity == other` (the comparison with a float infinity is not modelled). */
  function InfinityEquals(other: Extended): (r: bool)
    ensures r == (!Below(other, PosInf) && !Below(PosInf, other))
  {
    other.PosInf?
  }

  /** `NegativeInfinity < other`: whenever `other` is not `NegativeInfinity`. */
  function NegInfinityLess(other: Extended): (r: bool)
    ensures r == Below(NegInf, other)
  {
    other != NegInf
  }

  /** `NegativeInfinity > other`: never. */
  function NegInfinityGreater(other: Extended): (r: bool)
    ensures r == Below(other, NegInf)
  {
    false
  }

  /** `NegativeInfinity == other` (the float case is not modelled). */
  function NegInfinityEquals(other: Extended): (r: bool)
    ensures r == (!Below(other, NegInf) && !Below(NegInf, other))
  {
    other.NegInf?
  }

  /** Unary minus: `-Infinity` is `NegativeInfinity` and back; an int is negated as usual. */
  function Negate(x: Extended): (r: Extended)
    ensures x.PosInf? <==> r.NegInf?
    ensures x.NegInf? <==> r.PosInf?
  {
    match x
    case PosInf => NegInf
    case NegInf => PosInf
    case Fin(n) => Fin(-n)
  }

  /** Negating twice gives back the value. */
  lemma NegateInvolution(x: Extended)
    ensures Negate(Negate(x)) == x
  {
  }

  /** Negation reverses the order. */
  lemma NegateReversesOrder(x: Extended, y: Extended)
    ensures Below(x, y) <==> Below(Negate(y), Negate(x))
  {
  }

  /** `Below` is a strict total order. */
  lemma BelowIsStrictTotalOrder(x: Extended, y: Extended, z: Extended)
    ensures !Below(x, x)
    ensures Below(x, y) ==> !Below(y, x)
    ensures Below(x, y) && Below(y, z) ==> Below(x, z)
    ensures x == y || Below(x, y) || Below(y, x)
  {
  }

  /** Every finite value lies strictly between the two sentinels, and each
      sentinel equals itself and not the other. */
  lemma FiniteBetweenSentinels(n: int)
    ensures InfinityGreater(Fin(n)) && !InfinityLess(Fin(n))
    ensures NegInfinityLess(Fin(n)) && !NegInfinityGreater(Fin(n))
    ensures NegInfinityLess(PosInf) && InfinityGreater(NegInf)
    ensures !InfinityGreater(PosInf) && !NegInfinityLess(NegInf)
    ensures InfinityEquals(PosInf) && !InfinityEquals(NegInf) && !InfinityEquals(Fin(n))
    ensures NegInfinityEquals(NegInf) && !NegInfinityEquals(PosInf) && !NegInfinityEquals(Fin(n))
  {
  }
}
