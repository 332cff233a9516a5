/** The "Basic arithmetic functions" of `wasm/src/lib.rs`: `add`, `subtract`,
    `multiply` and `divide` on `i32`.

    Rust's `+`, `-`, `*` and `/` on `i32` panic on overflow in debug builds and
    wrap in release builds; each function therefore asks its caller to stay in
    range, and models neither behaviour beyond it. */
module Arithmetic {
  import opened Primitives

  function Abs(x: int): nat {
    if x < 0 then -x else x
  }

  /** `add`: the exact sum; overflow is excluded by the precondition. */
  function Add(a: I32, b: I32): I32
    requires InI32(a + b)
  {
    a + b
  }

  /** `subtract`: the exact difference. */
  function Subtract(a: I32, b: I32): I32
    requires InI32(a - b)
  {
    a - b
  }

  /** `multiply`: the exact product. */
  function Multiply(a: I32, b: I32): I32
    requires InI32(a * b)
  {
    a * b
  }

  /** What Rust's `/` promises: `q` is `a / b` rounded toward zero, that is,
      the remainder `a - q * b` is smaller than `b` in magnitude and is zero or
      has the sign of `a`. */
  ghost predicate IsTruncatedQuotient(a: int, b: int, q: int) {
    var rem := a - q * b;
    Abs(rem) < Abs(b) && (rem == 0 || (rem < 0 <==> a < 0))
  }

  /** Integer division rounding toward zero, as Rust's `/` does (Dafny's own
      `/` is Euclidean and differs for negative operands). */
  function TruncDiv(a: int, b: int): (q: int)
    requires b != 0
    ensures IsTruncatedQuotient(a, b, q)
    ensures Abs(b) == 1 ==> q == a * b
    ensures Abs(b) >= 2 ==> 2 * Abs(q) <= Abs(a)
  {
    var q0: int := Abs(a) / Abs(b);
    var q := if (a < 0) == (b < 0) then q0 else -q0;
    TruncDivCorrect(a, b, q0, q);
    q
  }

  lemma TruncDivCorrect(a: int, b: int, q0: int, q: int)
    requires b != 0 && q0 == Abs(a) / Abs(b)
    requires q == if (a < 0) == (b < 0) then q0 else -q0
    ensures IsTruncatedQuotient(a, b, q)
    ensures Abs(b) == 1 ==> q == a * b
    ensures Abs(b) >= 2 ==> 2 * Abs(q) <= Abs(a)
  {
    NaturalDivision(Abs(a), Abs(b));
    SignedRemainder(a, b, q0, q, Abs(a) % Abs(b));
    UnitDivisor(a, b, q0, q);
  }

  /** Dividing by 1 or -1 multiplies by it. */
  lemma UnitDivisor(a: int, b: int, q0: int, q: int)
    requires b != 0 && q0 == Abs(a) / Abs(b)
    requires q == if (a < 0) == (b < 0) then q0 else -q0
    ensures Abs(b) == 1 ==> q == a * b
  {
  }

  /** Euclidean division of naturals, with the bounds `TruncDiv` needs. */
  lemma NaturalDivision(n: nat, d: nat)
    requires d > 0
    ensures n == (n / d) * d + n % d && 0 <= n % d < d
    ensures d == 1 ==> n / d == n
    ensures d >= 2 ==> 2 * (n / d) <= n
  {
  }

  /** Undoing the signs: a quotient of magnitude `q0` with the sign of
      `a * b` leaves a remainder of magnitude `r0` with the sign of `a`. */
  lemma SignedRemainder(a: int, b: int, q0: int, q: int, r0: int)
    requires b != 0 && 0 <= q0 && 0 <= r0 < Abs(b) && Abs(a) == q0 * Abs(b) + r0
    requires q == if (a < 0) == (b < 0) then q0 else -q0
    ensures IsTruncatedQuotient(a, b, q)
  {
  }

  /** `divide`: an error exactly on a zero divisor, otherwise the quotient
      rounded toward zero. `i32::MIN / -1` overflows and panics in Rust, so the
      caller must not ask for it. */
  function Divide(a: I32, b: I32): (r: Result<I32, string>)
    requires !(a == I32_MIN && b == -1)
    ensures r.Err? <==> b == 0
    ensures r.Err? ==> r.error == "Division by zero"
    ensures r.Ok? ==> IsTruncatedQuotient(a, b, r.value)
  {
    if b == 0 then Err("Division by zero")
    else Ok(TruncDiv(a, b))
  }

  lemma AbsProduct(x: int, y: int)
    ensures Abs(x * y) == Abs(x) * Abs(y)
  {
  }

  /** The quotient rounded toward zero is unique: the specification of `/`
      determines `divide`'s result. */
  lemma TruncatedQuotientUnique(a: int, b: int, q1: int, q2: int)
    requires b != 0
    requires IsTruncatedQuotient(a, b, q1) && IsTruncatedQuotient(a, b, q2)
    ensures q1 == q2
  {
    var r1, r2 := a - q1 * b, a - q2 * b;
    // Both remainders have the sign of a (or are zero), so their difference
    // is smaller than b in magnitude; it is also a multiple of b.
    assert Abs(r1 - r2) < Abs(b);
    assert r1 - r2 == (q2 - q1) * b;
    AbsProduct(q2 - q1, b);
    SmallMultiple(Abs(q2 - q1), Abs(b));
  }

  lemma SmallMultiple(k: nat, m: nat)
    requires m > 0 && k * m < m
    ensures k == 0
  {
  }

  /** `subtract` undoes `add`. */
  lemma SubtractUndoesAdd(a: I32, b: I32)
    requires InI32(a + b)
    ensures Subtract(Add(a, b), b) == a
  {
  }

  /** `add` is commutative. */
  lemma AddCommutes(a: I32, b: I32)
    requires InI32(a + b)
    ensures Add(a, b) == Add(b, a)
  {
  }

  /** `divide` undoes `multiply` for every non-zero divisor whose product
      stays in range. */
  lemma DivideUndoesMultiply(a: I32, b: I32)
    requires b != 0 && InI32(a * b)
    ensures !(Multiply(a, b) == I32_MIN && b == -1)
    ensures Divide(Multiply(a, b), b) == Ok(a)
  {
    var p := Multiply(a, b);
    assert IsTruncatedQuotient(p, b, a);
    TruncatedQuotientUnique(p, b, a, Divide(p, b).value);
  }

  /** The cases pinned down by the module's unit tests. */
  lemma UnitTestCases()
    ensures Add(2, 3) == 5 && Add(-1, 1) == 0
    ensures Subtract(5, 3) == 2 && Subtract(0, 5) == -5
    ensures Multiply(3, 4) == 12 && Multiply(-2, 3) == -6
    ensures Divide(10, 2) == Ok(5) && Divide(7, 3) == Ok(2) && Divide(5, 0).Err?
  {
  }
}
