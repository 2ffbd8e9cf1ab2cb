/** Fixed-width C++ integer types and C++'s truncating integer division.
    Dafny's integers are unbounded and its `/` is Euclidean, so the widths the
    examples use (`int`, `int64_t`, `uint8_t`) are subset types and the C++
    quotient, which truncates toward zero, is written out. */
module IntTypes {

  const MIN_INT32: int := -0x8000_0000
  const MAX_INT32: int := 0x7fff_ffff
  const MIN_INT64: int := -0x8000_0000_0000_0000
  const MAX_INT64: int := 0x7fff_ffff_ffff_ffff

  /** C++ `int` on the targets the examples run on. */
  type Int32 = x: int | MIN_INT32 <= x <= MAX_INT32
  /** C++ `int64_t`. */
  type Int64 = x: int | MIN_INT64 <= x <= MAX_INT64
  /** C++ `uint8_t`. */
  type UInt8 = x: int | 0 <= x < 0x100
  /** C++ `uint32_t`. */
  type UInt32 = x: int | 0 <= x < 0x1_0000_0000

  predicate InInt64(x: int) { MIN_INT64 <= x <= MAX_INT64 }

  function Abs(x: int): nat { if x < 0 then -x else x }

  /** The C++ quotient `x / y`: the exact quotient truncated toward zero. */
  function TruncDiv(x: int, y: int): int
    requires y != 0
  {
    var q := Abs(x) / Abs(y);
    if (x < 0) == (y < 0) then q else -q
  }

  /** The remainder that goes with TruncDiv, i.e. C++'s `x % y`. */
  function TruncRem(x: int, y: int): int
    requires y != 0
  {
    x - TruncDiv(x, y) * y
  }

  /** TruncDiv is C++ division: `(x / y) * y + x % y == x`, the remainder is
      smaller than the divisor in magnitude and is zero or has the sign of the
      dividend. These three facts determine the quotient uniquely
      (TruncDivUnique). */
  lemma TruncDivIsCDivision(x: int, y: int)
    requires y != 0
    ensures TruncDiv(x, y) * y + TruncRem(x, y) == x
    ensures Abs(TruncRem(x, y)) < Abs(y)
    ensures TruncRem(x, y) == 0 || (TruncRem(x, y) < 0 <==> x < 0)
  {
    var a, b := Abs(x), Abs(y);
    var q: int, m: int := a / b, a % b;
    assert a == q * b + m && 0 <= m < b;
    TruncDivTimesDivisor(x, y);
    if x < 0 {
      assert TruncRem(x, y) == -m;
    } else {
      assert TruncRem(x, y) == m;
    }
  }

  /** `(x / y) * y` is the multiple of |y| that Euclidean division of |x| by
      |y| gives, with the sign of `x`. */
  lemma TruncDivTimesDivisor(x: int, y: int)
    requires y != 0
    ensures var p := (Abs(x) / Abs(y)) * Abs(y);
            TruncDiv(x, y) * y == if x < 0 then -p else p
  {
    var q: int, b: int := Abs(x) / Abs(y), Abs(y);
    if y < 0 {
      NegateFactor(q, b);
      NegateFactor(-q, b);
    }
    if (x < 0) != (y < 0) {
      NegateFactor(q, y);
    }
  }

  lemma NegateFactor(a: int, b: int)
    ensures (-a) * b == -(a * b) && a * (-b) == -(a * b)
  {
  }

  /** Any quotient that satisfies the three C++ division facts is TruncDiv. */
  lemma TruncDivUnique(x: int, y: int, q: int)
    requires y != 0
    requires Abs(x - q * y) < Abs(y)
    requires x - q * y == 0 || (x - q * y < 0 <==> x < 0)
    ensures q == TruncDiv(x, y)
  {
    TruncDivIsCDivision(x, y);
    var t := TruncDiv(x, y);
    var r1, r2 := x - q * y, x - t * y;
    // r1 and r2 differ by a multiple of y, have the same sign and are both
    // smaller than |y|, so they are equal
    assert r2 - r1 == (q - t) * y;
    if q != t {
      MultipleAtLeast(q - t, y);
    }
  }

  lemma MultipleAtLeast(k: int, y: int)
    requires k != 0 && y != 0
    ensures Abs(k * y) >= Abs(y)
  {
    if k > 0 && y > 0 {
      assert k * y >= y;
    } else if k > 0 {
      assert k * y <= y;
    } else if y > 0 {
      assert k * y <= -y;
    } else {
      assert k * y >= -y;
    }
  }

  /** The quotient is never larger in magnitude than the dividend. */
  lemma TruncDivShrinks(x: int, y: int)
    requires y != 0
    ensures Abs(TruncDiv(x, y)) <= Abs(x)
  {
    QuotientAtMost(Abs(x), Abs(y));
  }

  lemma QuotientAtMost(a: nat, b: nat)
    requires b >= 1
    ensures a / b <= a
    ensures b >= 2 ==> 2 * (a / b) <= a
  {
    var q := a / b;
    assert a == q * b + a % b;
    MulMonotone(q, 1, b);
    if b >= 2 {
      MulMonotone(q, 2, b);
    }
  }

  lemma MulMonotone(q: nat, b1: nat, b2: nat)
    requires b1 <= b2
    ensures q * b1 <= q * b2
  {
  }

  /** Dividing two `int64_t` values overflows only for INT64_MIN / -1. */
  lemma TruncDivInInt64(x: Int64, y: Int64)
    requires y != 0
    requires !(x == MIN_INT64 && y == -1)
    ensures InInt64(TruncDiv(x, y))
  {
    TruncDivShrinks(x, y);
    if x == MIN_INT64 {
      if y == 1 {
        assert TruncDiv(x, y) == x;
      } else {
        QuotientAtMost(Abs(x), Abs(y));
      }
    }
  }
}
