/** Clamping a requested delay into a closed range, as both blink programs do
    before they use a value typed on the console. */
module Bounds {

  /** v raised to lo when below the range, lowered to hi when above it, and
      passed through unchanged inside it. */
  function Clamp(v: int, lo: int, hi: int): (r: int)
    requires lo <= hi
    ensures lo <= r <= hi
    ensures r == v || (v < lo && r == lo) || (v > hi && r == hi)
  {
    if v < lo then lo else if v > hi then hi else v
  }

  /** The clamp is the identity exactly on the range. */
  lemma ClampFixesRange(v: int, lo: int, hi: int)
    requires lo <= hi
    ensures Clamp(v, lo, hi) == v <==> lo <= v <= hi
  {
  }

  /** Clamping twice is clamping once: a value already in range, such as the
      current interval, is left as it is. */
  lemma ClampIdempotent(v: int, lo: int, hi: int)
    requires lo <= hi
    ensures Clamp(Clamp(v, lo, hi), lo, hi) == Clamp(v, lo, hi)
  {
  }

  /** The clamp never reverses the order of two requests. */
  lemma ClampMonotone(v: int, w: int, lo: int, hi: int)
    requires lo <= hi && v <= w
    ensures Clamp(v, lo, hi) <= Clamp(w, lo, hi)
  {
  }
}
