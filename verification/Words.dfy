/**
 Machine integers, bytes and the small amount of divisibility theory that the
 block arithmetic of the gateway rests on.  Go's unsigned arithmetic wraps, so
 every place where a sum or product could leave 64 bits goes through `Wrap`.
 */
module Words {

  datatype Option<+T> = None | Some(value: T)

  const TWO64: int := 0x1_0000_0000_0000_0000
  const TWO63: int := 0x8000_0000_0000_0000

  type U64 = x: int | 0 <= x < 0x1_0000_0000_0000_0000
  type U32 = x: int | 0 <= x < 0x1_0000_0000
  type Byte = x: int | 0 <= x < 256

  /** The value of an unsigned 64-bit expression whose mathematical value is `x`. */
  function Wrap(x: int): (r: U64)
    ensures 0 <= x < TWO64 ==> r == x
  {
    x % TWO64
  }

  function Min(a: int, b: int): int {
    if a <= b then a else b
  }

  /** Quotient and remainder are unique. */
  lemma DivModUnique(x: int, m: int, q: int, r: int)
    requires m > 0 && x == q * m + r && 0 <= r < m
    ensures x / m == q && x % m == r
  {
    var d := q - x / m;
    assert x == (x / m) * m + x % m;
    assert d * m == x % m - r;
    assert d > 0 ==> d * m >= m;
    assert d < 0 ==> d * m <= -m;
  }

  /** Reducing before an addition changes nothing modulo `m`. */
  lemma ModShift(x: int, b: int, m: int)
    requires m > 0
    ensures (x % m + b) % m == (x + b) % m
  {
    var y := x % m + b;
    assert x + b == (x / m) * m + y == (x / m) * m + (y / m) * m + y % m == (x / m + y / m) * m + y % m;
    DivModUnique(x + b, m, x / m + y / m, y % m);
  }

  lemma MulMono(x: int, y: int, m: nat)
    requires x <= y
    ensures x * m <= y * m
  {
  }

  lemma MultipleOf(k: int, m: int)
    requires m > 0
    ensures (k * m) % m == 0 && (k * m) / m == k
  {
    DivModUnique(k * m, m, k, 0);
  }

  /** Sums and differences of multiples are multiples. */
  lemma AddMultiples(a: int, b: int, m: int)
    requires m > 0 && a % m == 0 && b % m == 0
    ensures (a + b) % m == 0 && (a - b) % m == 0
  {
    var p, q := a / m, b / m;
    assert a + b == (p + q) * m && a - b == (p - q) * m;
    MultipleOf(p + q, m);
    MultipleOf(p - q, m);
  }

  /** Divisibility is transitive. */
  lemma MultipleTransitive(a: int, b: int, c: int)
    requires b > 0 && c > 0 && a % b == 0 && b % c == 0
    ensures a % c == 0
  {
    var p, q := a / b, b / c;
    assert a == p * b && b == q * c;
    assert a == (p * q) * c;
    MultipleOf(p * q, c);
  }

  /** A multiple strictly above another multiple is at least one unit above it. */
  lemma MultipleGap(a: int, b: int, m: int)
    requires m > 0 && a % m == 0 && b % m == 0 && a < b
    ensures a + m <= b
  {
    var p, q := a / m, b / m;
    assert a == p * m && b == q * m;
    assert q <= p ==> q * m <= p * m;
    assert q * m >= (p + 1) * m;
  }

  /** Rounding down to a multiple removes exactly the remainder. */
  function DownTo(x: nat, m: nat): (r: nat)
    requires m > 0
    ensures r % m == 0 && x - m < r <= x
    ensures x % m == 0 ==> r == x
    ensures r == 0 <==> x < m
  {
    assert x < m ==> x % m == x;
    assert x - x % m == (x / m) * m;
    MultipleOf(x / m, m);
    x - x % m
  }
}
