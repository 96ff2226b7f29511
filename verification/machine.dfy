/** The C integer types the firmware's aggregation state is stored in, and the
    arithmetic facts about their wrap-around that the rest of the model needs.
    Dafny integers are unbounded, so every store into a fixed-width unsigned
    field is written out as a reduction modulo the field's modulus. */
module Machine {

  /** `uint16_t` holds values modulo 2^16. */
  const U16_MODULUS: int := 0x1_0000

  /** `unsigned long` on the 32-bit targets this firmware is built for. */
  const ULONG_MODULUS: int := 0x1_0000_0000

  /** A C `int`, as decoded by `%d`. */
  type Int32 = x: int | -0x8000_0000 <= x < 0x8000_0000

  type U16 = x: int | 0 <= x < U16_MODULUS

  type ULong = x: int | 0 <= x < ULONG_MODULUS

  /** The value a `uint16_t` receives when the integer `x` is stored into it. */
  function ToU16(x: int): (r: U16)
    ensures (r - x) % U16_MODULUS == 0
  {
    x % U16_MODULUS
  }

  /** The value an `unsigned long` receives when the integer `x` is stored into it. */
  function ToULong(x: int): (r: ULong)
    ensures (r - x) % ULONG_MODULUS == 0
    ensures 0 <= x < ULONG_MODULUS ==> r == x
  {
    x % ULONG_MODULUS
  }

  /** C division of `a` by a positive `b`: the quotient truncated toward zero
      (Dafny's own `/` is Euclidean and rounds negative quotients down). */
  function TruncDiv(a: int, b: int): (q: int)
    requires b > 0
    ensures a >= 0 ==> q * b <= a < (q + 1) * b
    ensures a < 0 ==> (q - 1) * b < a <= q * b
  {
    if a >= 0 then a / b else -((-a) / b)
  }

  /** Adding a multiple of `m` does not change a remainder modulo `m`. */
  lemma ModAddMultiple(x: int, k: int, m: int)
    requires m > 0
    ensures (x + k * m) % m == x % m
  {
    var q, r := x / m, x % m;
    assert x == q * m + r;
    assert x + k * m == (q + k) * m + r;
    ModUnique(x + k * m, q + k, r, m);
  }

  /** The Euclidean remainder is determined by any decomposition with a
      remainder in range. */
  lemma ModUnique(a: int, q: int, r: int, m: int)
    requires m > 0
    requires a == q * m + r
    requires 0 <= r < m
    ensures a % m == r
  {
    var q', r' := a / m, a % m;
    assert a == q' * m + r';
    if q' != q {
      var d := if q' > q then q' - q else q - q';
      AtLeastOneMultiple(d, m);
      assert false;
    }
  }

  lemma AtLeastOneMultiple(d: int, m: int)
    requires d >= 1 && m > 0
    ensures d * m >= m
  {
    assert d * m == (d - 1) * m + m;
  }

  /** Reducing an operand first does not change a sum's remainder. */
  lemma ModAddReduced(a: int, p: int, m: int)
    requires m > 0
    ensures (a % m + p) % m == (a + p) % m
  {
    var q := a / m;
    assert a == q * m + a % m;
    ModAddMultiple(a % m + p, q, m);
    assert a % m + p + q * m == a + p;
  }

  /** A value congruent to `x` modulo 2^32 is congruent to it modulo 2^16, so
      an `unsigned long` total and a `uint16_t` total of the same additions
      agree in their low sixteen bits. */
  lemma ULongCongruenceIsU16Congruence(x: int, y: int)
    requires (x - y) % ULONG_MODULUS == 0
    ensures x % U16_MODULUS == y % U16_MODULUS
  {
    var k := (x - y) / ULONG_MODULUS;
    assert x - y == k * ULONG_MODULUS;
    assert x == y + (k * U16_MODULUS) * U16_MODULUS;
    ModAddMultiple(y, k * U16_MODULUS, U16_MODULUS);
  }
}
