/** The parts of Java's semantics the model depends on: 32-bit `int` arithmetic,
    truncating division and the exceptions the core can raise. */
module Java {

  const IntMin: int := -0x8000_0000
  const IntMax: int := 0x7fff_ffff

  /** The exceptions that can escape from the modelled code. */
  datatype Exception =
    | IllegalArgumentException
    | ArithmeticException
    | DuplicateKeyException
    | DataIntegrityViolationException
    | IncorrectResultSizeDataAccessException

  /** x is a value of Java's `int`. */
  predicate IsInt(x: int) {
    IntMin <= x <= IntMax
  }

  /** Two's complement wrap-around of a mathematical integer into the `int` range. */
  function Wrap(x: int): (r: int)
    ensures IsInt(r)
    ensures IsInt(x) ==> r == x
    ensures (x - r) % 0x1_0000_0000 == 0
  {
    (x - IntMin) % 0x1_0000_0000 + IntMin
  }

  /** `a + b` on Java `int`. */
  function Add(a: int, b: int): int
    requires IsInt(a) && IsInt(b)
  {
    Wrap(a + b)
  }

  /** `a - b` on Java `int`. */
  function Sub(a: int, b: int): int
    requires IsInt(a) && IsInt(b)
  {
    Wrap(a - b)
  }

  /** `a * b` on Java `int`. */
  function Mul(a: int, b: int): int
    requires IsInt(a) && IsInt(b)
  {
    Wrap(a * b)
  }

  function Abs(x: int): nat {
    if x < 0 then -x else x
  }

  /** Java's `/` on integral types: the quotient rounded toward zero (Dafny's `/`
      rounds so that the remainder is never negative). */
  function Div(a: int, b: int): (q: int)
    requires b != 0
    ensures a >= 0 && b > 0 ==> q >= 0
    ensures Abs(a - q * b) < Abs(b)
    ensures a - q * b == 0 || (a - q * b < 0 <==> a < 0)
  {
    var d, m := Abs(a) / Abs(b), Abs(a) % Abs(b);
    var q := if (a < 0) == (b < 0) then d else -d;
    TruncatedRemainder(a, b, d, m, q);
    q
  }

  /** The remainder truncating division leaves has the dividend's sign and is
      smaller than the divisor in magnitude. */
  lemma TruncatedRemainder(a: int, b: int, d: int, m: int, q: int)
    requires b != 0 && d == Abs(a) / Abs(b) && m == Abs(a) % Abs(b)
    requires q == if (a < 0) == (b < 0) then d else -d
    ensures Abs(a - q * b) < Abs(b)
    ensures a - q * b == 0 || (a - q * b < 0 <==> a < 0)
  {
    var na: int, nb: int := Abs(a), Abs(b);
    assert na == d * nb + m;
    if b < 0 {
      assert q * b == (if a < 0 then -(d * nb) else d * nb) by {
        assert b == -nb;
      }
    } else {
      assert q * b == (if a < 0 then -(d * nb) else d * nb) by {
        assert b == nb;
      }
    }
    assert a - q * b == (if a < 0 then -m else m);
  }
}
