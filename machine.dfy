/** Rust's fixed-width integer semantics as used by stats_utils: the ranges of
    i32, i64 and usize, two's-complement wrap-around (`wrapping_mul`,
    `wrapping_add`, a release-build `+`), division that truncates toward zero,
    and the outcome of a call that may panic. */
module Machine {

  const TWO_31: int := 0x8000_0000
  const TWO_32: int := 0x1_0000_0000
  const TWO_63: int := 0x8000_0000_0000_0000
  const TWO_64: int := 0x1_0000_0000_0000_0000

  type Int32 = x: int | -0x8000_0000 <= x < 0x8000_0000
  type Int64 = x: int | -0x8000_0000_0000_0000 <= x < 0x8000_0000_0000_0000
  type Usize = x: int | 0 <= x < 0x1_0000_0000_0000_0000

  /** What a Rust call does: return a value, or panic (a failed `assert!`,
      an index out of bounds). */
  datatype Outcome<+T> = Returns(value: T) | Panics

  /** The i64 whose bit pattern is the low 64 bits of x: the unique value of
      the signed range congruent to x modulo 2^64. */
  function Wrap64(x: int): (r: Int64)
    ensures (x - r) % TWO_64 == 0
    ensures -TWO_63 <= x < TWO_63 ==> r == x
  {
    var m := x % TWO_64;
    if m < TWO_63 then m else m - TWO_64
  }

  /** The i32 whose bit pattern is the low 32 bits of x. */
  function Wrap32(x: int): (r: Int32)
    ensures (x - r) % TWO_32 == 0
    ensures -TWO_31 <= x < TWO_31 ==> r == x
  {
    var m := x % TWO_32;
    if m < TWO_31 then m else m - TWO_32
  }

  /** Two values of the i64 range that agree modulo 2^64 are equal, so the
      two ensures of Wrap64 determine its result. */
  lemma Wrap64Unique(x: int, y: Int64)
    requires (x - y) % TWO_64 == 0
    ensures Wrap64(x) == y
  {
    var r := Wrap64(x);
    var d := y - r;
    assert d == (x - r) - (x - y);
    assert d % TWO_64 == 0 by {
      MultipleDifference(x - r, x - y);
    }
    assert -TWO_64 < d < TWO_64;
  }

  /** The difference of two multiples of 2^64 is a multiple of 2^64. */
  lemma MultipleDifference(a: int, b: int)
    requires a % TWO_64 == 0 && b % TWO_64 == 0
    ensures (a - b) % TWO_64 == 0
  {
    var qa, qb := a / TWO_64, b / TWO_64;
    assert a == TWO_64 * qa;
    assert b == TWO_64 * qb;
    assert a - b == TWO_64 * (qa - qb);
  }

  /** `wrapping_mul` on i64. */
  function WrappingMul(a: Int64, b: Int64): (r: Int64)
    ensures (a * b - r) % TWO_64 == 0
  {
    Wrap64(a * b)
  }

  /** `wrapping_add` on i64. */
  function WrappingAdd(a: Int64, b: Int64): (r: Int64)
    ensures (a + b - r) % TWO_64 == 0
  {
    Wrap64(a + b)
  }

  /** Wrapping after each operation is the same as wrapping once at the end:
      the i64 chain `m.wrapping_mul(x).wrapping_add(c)` is m * x + c reduced
      into the signed 64-bit range. */
  lemma WrappingMulAdd(m: Int64, x: Int64, c: Int64)
    ensures WrappingAdd(WrappingMul(m, x), c) == Wrap64(m * x + c)
  {
    var p := WrappingMul(m, x);
    var r := WrappingAdd(p, c);
    assert (m * x + c - r) % TWO_64 == 0 by {
      MultipleDifference(m * x - p, r - (p + c)) by {
        assert (r - (p + c)) % TWO_64 == 0 by {
          assert r - (p + c) == 0 - (p + c - r);
          MultipleDifference(0, p + c - r);
        }
      }
      assert m * x + c - r == (m * x - p) - (r - (p + c));
    }
    Wrap64Unique(m * x + c, r);
  }

  /** Rust's `/` on signed integers: the quotient truncated toward zero
      (Dafny's own `/` is Euclidean). */
  function TruncDiv(a: int, d: int): (q: int)
    requires d > 0
    ensures a >= 0 ==> 0 <= q && q * d <= a < q * d + d
    ensures a < 0 ==> q <= 0 && q * d - d < a <= q * d
  {
    if a >= 0 then a / d
    else
      var m := (-a) / d;
      assert m * d <= -a < m * d + d;
      -m
  }
}
