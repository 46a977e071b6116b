/** Euclidean division by a positive number, in the small steps the solver is sure of. */
module Division {

  lemma MulOrder(a: int, b: int, m: int)
    requires a <= b && m >= 0
    ensures a * m <= b * m
  {
  }

  lemma MulNext(a: int, m: int)
    ensures (a + 1) * m == a * m + m
  {
  }

  lemma DivMod(m: int, x: int)
    requires m > 0
    ensures x == (x / m) * m + x % m && 0 <= x % m < m
  {
  }

  /** Quotient and remainder are determined. */
  lemma DivUnique(m: int, x: int, q: int, r: int)
    requires m > 0 && x == q * m + r && 0 <= r < m
    ensures x / m == q && x % m == r
  {
    DivMod(m, x);
    MulNext(q, m);
    MulNext(x / m, m);
    if q < x / m {
      MulOrder(q + 1, x / m, m);
    } else if q > x / m {
      MulOrder(x / m + 1, q, m);
    }
  }

  /** A multiple of the modulus does not matter. */
  lemma ModShift(m: int, x: int, q: int)
    requires m > 0
    ensures (x + q * m) % m == x % m
  {
    DivMod(m, x);
    assert (x / m + q) * m == (x / m) * m + q * m;
    DivUnique(m, x + q * m, x / m + q, x % m);
  }

  /** A number between two multiples has its quotient between them. */
  lemma DivBetween(m: int, x: int, lo: int, hi: int)
    requires m > 0 && lo * m <= x < hi * m
    ensures lo <= x / m < hi
  {
    DivMod(m, x);
    MulNext(x / m, m);
    if x / m < lo {
      MulOrder(x / m + 1, lo, m);
    } else if x / m >= hi {
      MulOrder(hi, x / m, m);
    }
  }

  /** Dividing upwards. */
  lemma RoundUp(m: int, n: nat)
    requires m > 0
    ensures 0 <= (n + m - 1) / m && n <= (n + m - 1) / m * m < n + m
  {
    var x := n + m - 1;
    DivMod(m, x);
    MulNext(x / m, m);
    if x / m < 0 {
      MulOrder(x / m + 1, 0, m);
    }
  }
}
