/** What several modules share. */
module Common {

  datatype Option<+T> = None | Some(value: T)

  function Min(a: nat, b: nat): nat { if a < b then a else b }

  function Max(a: nat, b: nat): nat { if a < b then b else a }

  /** q is the floor of x / p. */
  ghost predicate IsFloor(q: int, x: int, p: int) {
    q * p <= x < (q + 1) * p
  }

  lemma Scale(a: int, b: int, p: nat)
    requires a <= b
    ensures a * p <= b * p
  {
  }

  lemma FloorIsQuotient(q: nat, x: nat, p: nat)
    requires p >= 1 && IsFloor(q, x, p)
    ensures q == x / p
  {
    var d := x / p;
    assert d * p <= x < (d + 1) * p;
    if q < d {
      Scale(q + 1, d, p);
    } else if d < q {
      Scale(d + 1, q, p);
    }
  }
}
