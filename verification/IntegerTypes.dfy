/** Fixed-width integers with C++'s promotion, conversion and overflow rules. */
module IntegerTypes {
  /** An integer type of 8, 16, 32 or 64 bits. */
  datatype IntType = IntType(bits: nat, signed: bool)

  predicate IsType(t: IntType) {
    t.bits == 8 || t.bits == 16 || t.bits == 32 || t.bits == 64
  }

  function Modulus(bits: nat): (m: nat)
    ensures m > 0
  {
    if bits == 8 then 0x100
    else if bits == 16 then 0x1_0000
    else if bits == 32 then 0x1_0000_0000
    else 0x1_0000_0000_0000_0000
  }

  function Min(t: IntType): int {
    if t.signed then -(Modulus(t.bits) / 2) else 0
  }

  function Max(t: IntType): int {
    if t.signed then Modulus(t.bits) / 2 - 1 else Modulus(t.bits) - 1
  }

  predicate InRange(t: IntType, v: int) {
    Min(t) <= v <= Max(t)
  }

  /** `static_cast`: the value of the type that is congruent to `v`. */
  function Convert(t: IntType, v: int): int {
    if t.signed && v % Modulus(t.bits) > Max(t) then v % Modulus(t.bits) - Modulus(t.bits) else v % Modulus(t.bits)
  }

  const INT := IntType(32, true)
  const SIZE_T := IntType(64, false)

  /** Types narrower than `int` are computed with as `int`. */
  function Promoted(t: IntType): IntType {
    if t.bits < 32 then INT else t
  }

  /** The usual arithmetic conversions. */
  function Common(a: IntType, b: IntType): IntType {
    var p, q := Promoted(a), Promoted(b);
    if p.signed == q.signed then (if p.bits >= q.bits then p else q)
    else if p.signed then (if q.bits >= p.bits then q else p)
    else (if p.bits >= q.bits then p else q)
  }

  /** `x <= y` for operands of types `s` and `t`. */
  predicate LessEqual(s: IntType, x: int, t: IntType, y: int) {
    Convert(Common(s, t), x) <= Convert(Common(s, t), y)
  }

  lemma ConvertIsInRange(t: IntType, v: int)
    requires IsType(t)
    ensures InRange(t, Convert(t, v))
    ensures InRange(t, v) ==> Convert(t, v) == v
  {
  }

  /** The value of the type that differs from `v` by a multiple of the modulus. */
  function Wrapped(t: IntType, v: int): int {
    (v - Min(t)) % Modulus(t.bits) + Min(t)
  }

  lemma MultiplesAreFarApart(d: int, m: int)
    requires m > 0
    ensures d > 0 ==> d * m >= m
    ensures d < 0 ==> d * m <= -m
  {
    if d > 0 {
      MulAtLeast(m, d, 1);
      assert d * m == m * d;
    } else if d < 0 {
      MulAtLeast(m, -d, 1);
      assert d * m == -(m * -d);
    }
  }

  /** Numbers within one modulus that differ by a multiple of it are equal. */
  lemma OnlyOneInRange(r: int, c: int, d: int, m: int)
    requires m > 0 && -m < r - c < m && r - c == d * m
    ensures r == c
  {
    MultiplesAreFarApart(d, m);
  }

  lemma MultiplesDisappear(x: int, k: int, m: nat)
    requires m > 0
    ensures (x + k * m) % m == x % m
  {
    var y := x + k * m;
    var d := x / m + k - y / m;
    assert x == (x / m) * m + x % m && y == (y / m) * m + y % m;
    assert d * m == (x / m) * m + k * m - (y / m) * m;
    OnlyOneInRange(y % m, x % m, d, m);
  }

  /** A cast to any integer type gives the only value of the type that is congruent to its operand. */
  lemma ConvertIsCongruent(t: IntType, v: int)
    requires IsType(t)
    ensures InRange(t, Convert(t, v)) && (Convert(t, v) - v) % Modulus(t.bits) == 0
    ensures forall r :: InRange(t, r) && (r - v) % Modulus(t.bits) == 0 ==> r == Convert(t, v)
    ensures Convert(t, v) == Wrapped(t, v)
  {
    ConvertIsInRange(t, v);
    ConvertMoves(t, v);
    WrappedMoves(v, Min(t), Modulus(t.bits));
    assert forall r :: InRange(t, r) <==> Min(t) <= r < Min(t) + Modulus(t.bits);
    hide Convert, Modulus, Min, Max, InRange;
    forall r | InRange(t, r) && (r - v) % Modulus(t.bits) == 0 ensures r == Convert(t, v) {
      CongruentIsUnique(Modulus(t.bits), Min(t), v, Convert(t, v), r);
    }
    CongruentIsUnique(Modulus(t.bits), Min(t), v, Convert(t, v), Wrapped(t, v));
  }

  lemma WrappedMoves(v: int, low: int, m: int)
    requires m > 0
    ensures var w := (v - low) % m + low; low <= w < low + m && (w - v) % m == 0
  {
    var q := (v - low) / m;
    assert v - low == q * m + (v - low) % m;
    MultiplesDisappear(0, -q, m);
  }

  /** Of the `m` numbers from `low` on, one is congruent to `v`. */
  lemma CongruentIsUnique(m: int, low: int, v: int, c: int, r: int)
    requires m > 0 && low <= c < low + m && low <= r < low + m
    requires (c - v) % m == 0 && (r - v) % m == 0
    ensures r == c
  {
    var j, k := (r - v) / m, (c - v) / m;
    Distribute(j, k, m);
    OnlyOneInRange(r, c, j - k, m);
  }

  lemma Distribute(j: int, k: int, m: int)
    ensures j * m - k * m == (j - k) * m
  {
  }

  lemma ConvertMoves(t: IntType, v: int)
    ensures (Convert(t, v) - v) % Modulus(t.bits) == 0
  {
    var m := Modulus(t.bits);
    var q, r := v / m, v % m;
    assert v == q * m + r;
    hide Modulus, Max;
    assert r - v == 0 + -q * m && r - m - v == 0 + (-q - 1) * m;
    MultiplesDisappear(0, -q, m);
    MultiplesDisappear(0, -q - 1, m);
  }

  lemma PromotionHolds(t: IntType, v: int)
    requires IsType(t) && InRange(t, v)
    ensures IsType(Promoted(t)) && Common(t, t) == Promoted(t)
    ensures InRange(Promoted(t), v)
  {
  }

  /** Division that truncates toward zero, and its remainder. */
  function Quotient(a: int, b: int): int
    requires b != 0
  {
    if (a >= 0) == (b > 0) then Abs(a) / Abs(b) else -(Abs(a) / Abs(b))
  }

  function Remainder(a: int, b: int): int
    requires b != 0
  {
    a - Quotient(a, b) * b
  }

  function Abs(a: int): nat {
    if a >= 0 then a else -a
  }

  lemma MulAtLeast(q: nat, d: nat, k: nat)
    requires d >= k
    ensures q * d >= q * k
  {
    assert q * d - q * k == q * (d - k);
  }

  lemma QuotientTimesDivisor(n: nat, d: nat)
    requires d > 0
    ensures 0 <= n / d <= n && 0 <= (n / d) * d <= n
    ensures d > 1 && n > 0 ==> n / d < n
    ensures d == 1 ==> n / d == n
  {
    var q, r := n / d, n % d;
    assert n == q * d + r && 0 <= r < d;
    MulAtLeast(q, d, 1);
    assert q * d >= q >= 0;
    if d > 1 {
      MulAtLeast(q, d, 2);
    }
  }

  /** The quotient and the product with it stay between zero and the dividend, except for sign. */
  lemma QuotientBounds(a: int, b: int)
    requires b != 0
    ensures Abs(Quotient(a, b)) <= Abs(a)
    ensures Abs(Quotient(a, b) * b) <= Abs(a)
    ensures a >= 0 ==> 0 <= Quotient(a, b) * b <= a
    ensures a <= 0 ==> a <= Quotient(a, b) * b <= 0
    ensures Abs(b) != 1 && a != 0 ==> Abs(Quotient(a, b)) < Abs(a)
    ensures b == 1 ==> Quotient(a, b) == a
    ensures b == -1 ==> Quotient(a, b) == -a
  {
    var n, d := Abs(a) / Abs(b), Abs(b);
    QuotientTimesDivisor(Abs(a), d);
    var q := Quotient(a, b);
    assert q * b == if a >= 0 then n * d else -(n * d) by {
      SignedProducts(n, d);
    }
    hide Quotient;
  }

  lemma SignedProducts(n: int, d: int)
    ensures (-n) * d == -(n * d) && n * (-d) == -(n * d) && (-n) * (-d) == n * d
  {
  }
}
