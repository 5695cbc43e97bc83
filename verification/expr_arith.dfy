/** src/bin/expr/expr.c: the arithmetic of eval3 and eval4 on 64-bit integers that wrap around, and
    the tests by which it tells an overflow. */
module ExprArith {

  const TWO63: int := 0x8000_0000_0000_0000
  const TWO64: int := 0x1_0000_0000_0000_0000
  const INT64_MIN: int := -TWO63
  const INT64_MAX: int := TWO63 - 1

  type Int64 = x: int | INT64_MIN <= x <= INT64_MAX

  predicate InRange(x: int) {
    INT64_MIN <= x <= INT64_MAX
  }

  /** Two's complement. */
  function Wrap(x: int): Int64 {
    (x + TWO63) % TWO64 - TWO63
  }

  function Abs(x: int): nat {
    if x < 0 then -x else x
  }

  /** The quotient of C, which truncates toward zero. Only INT64_MIN / -1 is out of range. */
  function Quotient(x: int, y: int): int
    requires y != 0
  {
    if (x < 0) == (y < 0) then Abs(x) / Abs(y) else -(Abs(x) / Abs(y))
  }

  /** The remainder of C, with the sign of the dividend. */
  function Remainder(x: int, y: int): int
    requires y != 0
  {
    x - Quotient(x, y) * y
  }

  /** q and m are the quotient and the remainder of a division that truncates toward zero. */
  predicate Divided(l: int, r: int, q: int, m: int) {
    && q * r + m == l
    && (-r < m < r || r < m < -r)
    && (m < 0 ==> l < 0) && (m > 0 ==> l > 0)
  }

  lemma QuotientDivides(l: int, r: int)
    requires r != 0
    ensures Divided(l, r, Quotient(l, r), Remainder(l, r))
  {
    var a, b := Abs(l), Abs(r);
    var q, m: int := a / b, a % b;
    assert a == q * b + m;
    Products(q, b, l, r);
    assert Quotient(l, r) * r == if l < 0 then -(q * b) else q * b;
    hide Quotient, Remainder;
    assert Remainder(l, r) == l - Quotient(l, r) * r by { RemainderIs(l, r); }
  }

  lemma RemainderIs(l: int, r: int)
    requires r != 0
    ensures Remainder(l, r) == l - Quotient(l, r) * r
  {
  }

  /** There is only one such pair. */
  lemma DividedOnce(l: int, r: int, q: int, m: int, q1: int, m1: int)
    requires Divided(l, r, q, m) && Divided(l, r, q1, m1)
    ensures q == q1 && m == m1
  {
    assert (q - q1) * r == m1 - m;
    SmallProduct(q - q1, r);
  }

  /** What becomes of an operation: the errors of expr, or a division that is out of range itself and
      leaves nothing defined. */
  datatype Result = Ok(i: Int64) | Overflow | DivisionByZero | Undefined

  datatype Op = Add | Sub | Mul | Div | Mod

  /** Wrapping changes a number by a multiple of 2^64. */
  lemma WrapBy(x: int) returns (k: int)
    ensures Wrap(x) == x + k * TWO64 && (InRange(x) <==> k == 0)
  {
    k := -((x + TWO63) / TWO64);
  }

  lemma QuotientSize(x: int, y: int)
    requires y != 0
    ensures Abs(Quotient(x, y)) == Abs(x) / Abs(y) <= Abs(x)
    ensures Abs(x - Quotient(x, y) * y) < Abs(y)
    ensures Abs(x) >= Abs(y) ==> Quotient(x, y) != 0
  {
    var a, b := Abs(x), Abs(y);
    assert a == a / b * b + a % b;
    Products(a / b, b, x, y);
    DivLess(a, b);
  }

  lemma DivLess(a: nat, b: nat)
    requires b > 0
    ensures a / b <= a && (a >= b ==> a / b >= 1)
  {
    assert a == a / b * b + a % b;
    Times(a / b, b, 1);
  }

  lemma Times(q: nat, b: nat, n: nat)
    requires b >= n
    ensures q * b >= q * n
  {
  }

  lemma Products(q: int, b: int, x: int, y: int)
    requires q >= 0 && b == Abs(y) && y != 0
    ensures (if (x < 0) == (y < 0) then q else -q) * y == if x < 0 then -(q * b) else q * b
  {
  }

  /** A product that can be divided again. */
  lemma QuotientOfProduct(x: int, y: int)
    requires y != 0
    ensures Quotient(x * y, y) == x
  {
    QuotientSize(x * y, y);
    var d := x - Quotient(x * y, y);
    assert Abs(d * y) < Abs(y) by { assert d * y == x * y - Quotient(x * y, y) * y; }
    SmallProduct(d, y);
  }

  lemma SmallProduct(d: int, y: int)
    requires Abs(d * y) < Abs(y)
    ensures d == 0
  {
    if d != 0 {
      assert Abs(d * y) == Abs(d) * Abs(y);
      Times(Abs(y), Abs(d), 1);
    }
  }

  /** The overflow test of eval4 is exact: a product that was wrapped is never divided back. */
  lemma MulTest(l: Int64, r: Int64)
    requires r != 0
    ensures Quotient(Wrap(l * r), r) == l <==> InRange(l * r)
  {
    var k := WrapBy(l * r);
    if k == 0 {
      QuotientOfProduct(l, r);
    } else {
      QuotientSize(Wrap(l * r), r);
      assert Abs(k * TWO64) >= TWO64;
    }
  }

  /** Only the product of INT64_MIN and -1 makes the test itself divide out of range. */
  lemma MulTestDefined(l: Int64, r: Int64)
    requires r != 0
    ensures InRange(Quotient(Wrap(l * r), r)) <==> !(l == INT64_MIN && r == -1)
  {
    var p := Wrap(l * r);
    QuotientSize(p, r);
    if r == -1 {
      var k := WrapBy(l * r);
      assert Abs(p) / 1 == Abs(p);
    } else if Abs(p) == TWO63 {
      Halved(p, r);
    }
  }

  lemma HalfOf(a: nat, b: nat)
    requires b >= 2
    ensures a / b * 2 <= a
  {
    assert a == a / b * b + a % b;
    Times(a / b, b, 2);
  }

  lemma Halved(p: Int64, r: Int64)
    requires r != 0 && r != -1
    ensures InRange(Quotient(p, r))
  {
    QuotientSize(p, r);
    if r == 1 {
      assert Abs(p) / 1 == Abs(p);
    } else {
      HalfOf(Abs(p), Abs(r));
      hide Quotient;
    }
  }

  /** The true result of an operation. */
  function Exact(op: Op, l: Int64, r: Int64): int
    requires op.Div? || op.Mod? ==> r != 0
  {
    match op
    case Add => l + r
    case Sub => l - r
    case Mul => l * r
    case Div => Quotient(l, r)
    case Mod => Remainder(l, r)
  }

  lemma RemainderSmall(l: Int64, r: Int64)
    requires r != 0
    ensures InRange(Remainder(l, r)) && (l == INT64_MIN && r == -1 ==> Remainder(l, r) == 0)
    ensures InRange(Quotient(l, r)) <==> !(l == INT64_MIN && r == -1)
  {
    QuotientSize(l, r);
    if r == -1 {
      assert Abs(l) / 1 == Abs(l);
    } else {
      Halved(l, r);
    }
  }

  /** The loop bodies of eval3 and eval4. For all operands but INT64_MIN * -1 an overflow is reported
      exactly when the true result does not fit, and otherwise the true result is what is stored. */
  method Apply(op: Op, l: Int64, r: Int64) returns (v: Result)
    ensures (op.Div? || op.Mod?) && r == 0 ==> v == DivisionByZero
    ensures op.Mul? && l == INT64_MIN && r == -1 ==> v == Undefined
    ensures !((op.Div? || op.Mod?) && r == 0) && !(op.Mul? && l == INT64_MIN && r == -1) ==>
      v == if InRange(Exact(op, l, r)) then Ok(Exact(op, l, r)) else Overflow
    ensures op.Add? ==> (v.Overflow? <==> !(INT64_MIN <= l + r <= INT64_MAX)) && (v.Ok? ==> v.i == l + r)
    ensures op.Sub? ==> (v.Overflow? <==> !(INT64_MIN <= l - r <= INT64_MAX)) && (v.Ok? ==> v.i == l - r)
    ensures op.Mul? && !(l == INT64_MIN && r == -1) ==> (v.Overflow? <==> !(INT64_MIN <= l * r <= INT64_MAX)) && (v.Ok? ==> v.i == l * r)
    ensures op.Div? && r != 0 ==> (v.Overflow? <==> l == INT64_MIN && r == -1) && (v.Ok? ==> Divided(l, r, v.i, l - v.i * r))
    ensures op.Mod? && r != 0 ==> v.Ok? && exists q :: Divided(l, r, q, v.i)
  {
    match op {
      case Add =>
        ghost var k := WrapBy(l + r);
        var res := Wrap(l + r);
        if (l > 0 && r > 0 && res <= 0) || (l < 0 && r < 0 && res >= 0) {
          return Overflow;
        }
        v := Ok(res);
      case Sub =>
        ghost var k := WrapBy(l - r);
        var res := Wrap(l - r);
        if (l >= 0 && r < 0 && res <= 0) || (l < 0 && r > 0 && res >= 0) {
          return Overflow;
        }
        v := Ok(res);
      case Mul =>
        ghost var k := WrapBy(l * r);
        var res := Wrap(l * r);
        if r != 0 {
          MulTest(l, r);
          MulTestDefined(l, r);
          if !InRange(Quotient(res, r)) {
            return Undefined;
          }
          if l != Quotient(res, r) {
            return Overflow;
          }
        }
        v := Ok(res);
      case Div =>
        if r == 0 {
          return DivisionByZero;
        }
        RemainderSmall(l, r);
        QuotientDivides(l, r);
        v := if l != INT64_MIN || r != -1 then Ok(Quotient(l, r)) else Overflow;
      case Mod =>
        if r == 0 {
          return DivisionByZero;
        }
        RemainderSmall(l, r);
        QuotientDivides(l, r);
        v := if l != INT64_MIN || r != -1 then Ok(Remainder(l, r)) else Ok(0);
    }
  }
}
