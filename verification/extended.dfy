/**
 * Integers extended with the two infinities. The searches start their running
 * best at `float("-inf")` or `float("inf")` and compare those with integer
 * scores; `ExtInt` is exactly that ordered set.
 */
module Extended {

  datatype ExtInt = NegInf | Fin(n: int) | PosInf

  predicate Le(x: ExtInt, y: ExtInt) {
    x.NegInf? || y.PosInf? || (x.Fin? && y.Fin? && x.n <= y.n)
  }

  predicate Lt(x: ExtInt, y: ExtInt) {
    !Le(y, x)
  }

  function Max(x: ExtInt, y: ExtInt): (r: ExtInt)
    ensures Le(x, r) && Le(y, r)
    ensures r == x || r == y
  {
    if Le(x, y) then y else x
  }

  function Min(x: ExtInt, y: ExtInt): (r: ExtInt)
    ensures Le(r, x) && Le(r, y)
    ensures r == x || r == y
  {
    if Le(x, y) then x else y
  }

  /** `x` forced into the window `[lo, hi]`. */
  function Clamp(x: ExtInt, lo: ExtInt, hi: ExtInt): ExtInt {
    Max(lo, Min(x, hi))
  }

  lemma LeTransitive(x: ExtInt, y: ExtInt, z: ExtInt)
    requires Le(x, y) && Le(y, z)
    ensures Le(x, z)
  {
  }

  /** `x` and `y` look the same to an observer that only sees values clamped into `[lo, hi]`. */
  predicate Agree(x: ExtInt, y: ExtInt, lo: ExtInt, hi: ExtInt) {
    Clamp(x, lo, hi) == Clamp(y, lo, hi)
  }

  /**
   * Two values with the same clamp into a window `(lo, hi)` agree inside it
   * and fall on the same side of it outside.
   */
  lemma ClampCases(r: ExtInt, v: ExtInt, lo: ExtInt, hi: ExtInt)
    requires Lt(lo, hi)
    requires Clamp(r, lo, hi) == Clamp(v, lo, hi)
    ensures Lt(lo, v) && Lt(v, hi) ==> r == v
    ensures Le(v, lo) ==> Le(r, lo)
    ensures Le(hi, v) ==> Le(hi, r)
  {
  }

  /**
   * One step of a maximising node: the running best and the raised lower
   * bound keep the clamp of the pruned search equal to the full one.
   */
  lemma MaxStep(lo: ExtInt, hi: ExtInt, accAB: ExtInt, accMM: ExtInt, e: ExtInt, v: ExtInt)
    requires Lt(lo, hi) && Lt(Max(lo, accAB), hi)
    requires Clamp(accAB, lo, hi) == Clamp(accMM, lo, hi)
    requires Clamp(e, Max(lo, accAB), hi) == Clamp(v, Max(lo, accAB), hi)
    ensures Clamp(Max(accAB, e), lo, hi) == Clamp(Max(accMM, v), lo, hi)
  {
  }

  /** The mirror image of `MaxStep` for a minimising node. */
  lemma MinStep(lo: ExtInt, hi: ExtInt, accAB: ExtInt, accMM: ExtInt, e: ExtInt, v: ExtInt)
    requires Lt(lo, hi) && Lt(lo, Min(hi, accAB))
    requires Clamp(accAB, lo, hi) == Clamp(accMM, lo, hi)
    requires Clamp(e, lo, Min(hi, accAB)) == Clamp(v, lo, Min(hi, accAB))
    ensures Clamp(Min(accAB, e), lo, hi) == Clamp(Min(accMM, v), lo, hi)
  {
  }

  /** Once a value clamps to the top of the window, so does anything above it. */
  lemma ClampTop(x: ExtInt, y: ExtInt, lo: ExtInt, hi: ExtInt)
    requires Lt(lo, hi) && Le(x, y) && Clamp(x, lo, hi) == hi
    ensures Clamp(y, lo, hi) == hi
  {
  }

  /** Once a value clamps to the bottom of the window, so does anything below it. */
  lemma ClampBottom(x: ExtInt, y: ExtInt, lo: ExtInt, hi: ExtInt)
    requires Lt(lo, hi) && Le(y, x) && Clamp(x, lo, hi) == lo
    ensures Clamp(y, lo, hi) == lo
  {
  }

  /** Keeping the running best unless a value beats it strictly yields the maximum. */
  lemma MaxUpdate(x: ExtInt, y: ExtInt)
    ensures (if Lt(x, y) then y else x) == Max(x, y)
    ensures Max(x, y) == Max(y, x)
  {
  }

  /** Keeping the running best unless a value undercuts it strictly yields the minimum. */
  lemma MinUpdate(x: ExtInt, y: ExtInt)
    ensures (if Lt(y, x) then y else x) == Min(x, y)
    ensures Min(x, y) == Min(y, x)
  {
  }

  lemma MaxAssoc(x: ExtInt, y: ExtInt, z: ExtInt)
    ensures Max(Max(x, y), z) == Max(x, Max(y, z))
  {
  }

  lemma MinAssoc(x: ExtInt, y: ExtInt, z: ExtInt)
    ensures Min(Min(x, y), z) == Min(x, Min(y, z))
  {
  }

  /** A window whose lower bound has reached `hi` clamps the value to `hi`. */
  lemma MaxCutoff(lo: ExtInt, hi: ExtInt, x: ExtInt)
    requires Lt(lo, hi) && Le(hi, Max(lo, x))
    ensures Clamp(x, lo, hi) == hi
  {
  }

  /** A window whose upper bound has fallen to `lo` clamps the value to `lo`. */
  lemma MinCutoff(lo: ExtInt, hi: ExtInt, x: ExtInt)
    requires Lt(lo, hi) && Le(Min(hi, x), lo)
    ensures Clamp(x, lo, hi) == lo
  {
  }

  /** With no upper bound, clamping only raises to the lower bound. */
  lemma ClampNoTop(x: ExtInt, lo: ExtInt)
    ensures Clamp(x, lo, PosInf) == Max(lo, x)
  {
  }

  /** With no lower bound, clamping only lowers to the upper bound. */
  lemma ClampNoBottom(x: ExtInt, hi: ExtInt)
    ensures Clamp(x, NegInf, hi) == Min(hi, x)
  {
  }

  /** Two values that raise `x` to the same maximum beat `x` together, and then coincide. */
  lemma MaxAgree(x: ExtInt, e: ExtInt, v: ExtInt)
    requires Max(x, e) == Max(x, v)
    ensures Lt(x, e) <==> Lt(x, v)
    ensures Lt(x, e) ==> e == v
  {
  }

  /** Two values that lower `x` to the same minimum undercut `x` together, and then coincide. */
  lemma MinAgree(x: ExtInt, e: ExtInt, v: ExtInt)
    requires Min(x, e) == Min(x, v)
    ensures Lt(e, x) <==> Lt(v, x)
    ensures Lt(e, x) ==> e == v
  {
  }

  /** `x` is a finite value of magnitude at most `k`. */
  predicate Within(x: ExtInt, k: int) {
    x.Fin? && -k <= x.n <= k
  }
}
