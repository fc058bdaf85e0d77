/** Fringe values of Prim's algorithm: a real length, or the sentinel that stands for
    "no edge to the tree known yet". The sentinel compares above every real length and
    is not below itself, which is how the program's largest-double sentinel behaves
    against the finite distances it is compared with. */
module ExtendedReals {

  datatype Extended = Finite(value: real) | Infinity

  /** The strict order `a < b` used by the candidate scan and by the selector. */
  predicate Below(a: Extended, b: Extended) {
    match a
    case Infinity => false
    case Finite(x) => b.Infinity? || x < b.value
  }

  /** `a` is a real length no greater than `r`. */
  predicate AtMost(a: Extended, r: real) {
    a.Finite? && a.value <= r
  }

  /** `std::min(a, b)`: `b` when `b < a`, otherwise `a`. */
  function Min(a: Extended, b: Extended): (m: Extended)
    ensures m == a || m == b
    ensures !Below(a, m) && !Below(b, m)
  {
    if Below(b, a) then b else a
  }
}
