/** Real numbers extended with the two infinities that the JavaScript code
    uses as sentinels (`Infinity`, `-Infinity`). Only the operations the
    modelled code performs are defined. */
module ExtReal {

  datatype ExtReal = NegInf | Fin(r: real) | PosInf {

    /** Strict order, as JavaScript's `<` on numbers that are not NaN. */
    predicate Lt(other: ExtReal) {
      match (this, other)
      case (NegInf, NegInf) => false
      case (NegInf, _) => true
      case (Fin(a), Fin(b)) => a < b
      case (Fin(_), PosInf) => true
      case (_, _) => false
    }

    predicate Le(other: ExtReal) {
      this == other || Lt(other)
    }

    /** `this + d` for a finite `d`: an infinity absorbs a finite addend. */
    function Plus(d: real): (s: ExtReal)
      ensures Fin? <==> s.Fin?
      ensures Fin? ==> s.r == r + d
    {
      match this
      case Fin(a) => Fin(a + d)
      case _ => this
    }

    /** `this + other` where the sum is not `Infinity - Infinity` (which is
        NaN in JavaScript and never arises in the modelled code). */
    function Add(other: ExtReal): (s: ExtReal)
      requires !(NegInf? && other.PosInf?) && !(PosInf? && other.NegInf?)
      ensures Fin? && other.Fin? ==> s == Fin(r + other.r)
      ensures NegInf? || other.NegInf? ==> s.NegInf?
      ensures PosInf? || other.PosInf? ==> s.PosInf?
    {
      match (this, other)
      case (Fin(a), Fin(b)) => Fin(a + b)
      case (NegInf, _) => NegInf
      case (_, NegInf) => NegInf
      case (_, _) => PosInf
    }

    /** `Math.min(this, x)`. */
    function MinWith(x: real): (m: ExtReal)
      ensures m.Le(this) && m.Le(Fin(x))
      ensures m == this || m == Fin(x)
    {
      if Fin(x).Lt(this) then Fin(x) else this
    }

    /** `Math.max(this, x)`. */
    function MaxWith(x: real): (m: ExtReal)
      ensures this.Le(m) && Fin(x).Le(m)
      ensures m == this || m == Fin(x)
    {
      if this.Lt(Fin(x)) then Fin(x) else this
    }
  }

  lemma LeTransitive(a: ExtReal, b: ExtReal, c: ExtReal)
    requires a.Le(b) && b.Le(c)
    ensures a.Le(c)
  {
  }

  lemma LeLt(a: ExtReal, b: ExtReal, c: ExtReal)
    requires a.Le(b) && b.Lt(c)
    ensures a.Lt(c)
  {
  }

  /** Exactly one of `a < b`, `a == b`, `b < a` holds. */
  lemma Trichotomy(a: ExtReal, b: ExtReal)
    ensures a.Lt(b) || a == b || b.Lt(a)
    ensures !(a.Lt(b) && b.Lt(a))
    ensures !a.Lt(a)
  {
  }
}
