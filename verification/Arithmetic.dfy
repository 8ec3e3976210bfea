/**
 The two lowerings of integer arithmetic (checked calls, or plain operators under `optimize`),
 and the cast helpers of the runtime library.
 */
module Arithmetic {
  import opened Wrappers
  import opened IntegerTypes

  datatype Operator = Add | Subtract | Multiply | Divide | Modulo

  /** Undefined is C++'s undefined behaviour. */
  datatype Outcome = Value(v: int) | Panic | Undefined

  // ----- Plain C++ operators -----

  function Exact(op: Operator, a: int, b: int): int
    requires op.Divide? || op.Modulo? ==> b != 0
  {
    match op
    case Add => a + b
    case Subtract => a - b
    case Multiply => a * b
    case Divide => Quotient(a, b)
    case Modulo => Remainder(a, b)
  }

  /** `a op b` on two operands already converted to type `t`, which is its own promotion. */
  function Compute(op: Operator, t: IntType, a: int, b: int): Outcome {
    if (op.Divide? || op.Modulo?) && b == 0 then Undefined
    else if op.Modulo? && !InRange(t, Quotient(a, b)) then Undefined
    else if InRange(t, Exact(op, a, b)) then Value(Exact(op, a, b))
    else if t.signed then Undefined
    else Value(Convert(t, Exact(op, a, b)))
  }

  /** `a op b` on operands of types `s` and `t`. */
  function Plain(op: Operator, s: IntType, a: int, t: IntType, b: int): Outcome {
    var c := Common(s, t);
    Compute(op, c, Convert(c, a), Convert(c, b))
  }

  /** `a op= b` on a variable of type `t`. */
  function Compound(op: Operator, t: IntType, a: int, b: int): Outcome {
    var r := Plain(op, t, a, t, b);
    if r.Value? then Value(Convert(t, r.v)) else r
  }

  // ----- `Checked<T>` -----

  /** A value with a sticky overflow flag. */
  datatype Checked = Checked(value: int, overflow: bool)

  /** `__builtin_add_overflow` and its relatives. */
  function BuiltinOverflow(t: IntType, exact: int): Checked {
    Checked(Convert(t, exact), !InRange(t, exact))
  }

  /** `Checked::div`, with the flag it sets. */
  function CheckedDiv(t: IntType, a: int, b: int): Checked {
    if t.signed && b == -1 && a == Min(t) then Checked(a, true)
    else if b == 0 then Checked(a, true)
    else Checked(Convert(t, Quotient(a, b)), false)
  }

  /** `Checked::mod` computes the remainder from the quotient, whatever the flag says. */
  function CheckedMod(t: IntType, a: int, b: int): (Outcome, bool) {
    var q := CheckedDiv(t, a, b);
    var product := Compound(Multiply, t, q.value, b);
    if !product.Value? then (product, q.overflow)
    else (Compound(Subtract, t, a, product.v), q.overflow)
  }

  function Judged(c: Checked): Outcome {
    if c.overflow then Panic else Value(c.value)
  }

  /** `checked_add` to `checked_mod`. */
  function CheckedCall(op: Operator, t: IntType, a: int, b: int): Outcome {
    match op
    case Add => Judged(BuiltinOverflow(t, a + b))
    case Subtract => Judged(BuiltinOverflow(t, a - b))
    case Multiply => Judged(BuiltinOverflow(t, a * b))
    case Divide => Judged(CheckedDiv(t, a, b))
    case Modulo =>
      var (r, overflow) := CheckedMod(t, a, b);
      if r.Value? && overflow then Panic else r
  }

  /** The one division whose quotient does not fit. */
  predicate QuotientOverflows(t: IntType, a: int, b: int) {
    t.signed && a == Min(t) && b == -1
  }

  predicate Divides(op: Operator) {
    op.Divide? || op.Modulo?
  }

  /** A result that fits the promoted type is computed exactly. */
  lemma PlainIsExact(op: Operator, t: IntType, a: int, b: int)
    requires IsType(t) && InRange(t, a) && InRange(t, b) && (Divides(op) ==> b != 0)
    requires op.Modulo? ==> InRange(Promoted(t), Quotient(a, b))
    requires InRange(Promoted(t), Exact(op, a, b))
    ensures Plain(op, t, a, t, b) == Value(Exact(op, a, b))
  {
    var p := Promoted(t);
    PromotionHolds(t, a);
    PromotionHolds(t, b);
    ConvertIsInRange(p, a);
    ConvertIsInRange(p, b);
    hide Exact, Convert, InRange, Common, Promoted, IsType;
  }

  /** A result that fits the type itself survives the cast back. */
  lemma CompoundIsExact(op: Operator, t: IntType, a: int, b: int)
    requires IsType(t) && InRange(t, a) && InRange(t, b) && (Divides(op) ==> b != 0)
    requires op.Modulo? ==> InRange(t, Quotient(a, b))
    requires InRange(t, Exact(op, a, b))
    ensures Compound(op, t, a, b) == Value(Exact(op, a, b))
  {
    var x := Exact(op, a, b);
    PromotionHolds(t, x);
    if op.Modulo? {
      PromotionHolds(t, Quotient(a, b));
    }
    PlainIsExact(op, t, a, b);
    ConvertIsInRange(t, x);
  }

  lemma ModuloOfQuotient(t: IntType, a: int, b: int)
    requires IsType(t) && InRange(t, a) && InRange(t, b) && b != 0 && !QuotientOverflows(t, a, b)
    ensures InRange(t, Quotient(a, b)) && InRange(t, Remainder(a, b))
    ensures CheckedMod(t, a, b) == (Value(Remainder(a, b)), false)
  {
    QuotientFits(t, a, b);
    var q := Quotient(a, b);
    ConvertIsInRange(t, q);
    hide Quotient, Compound, Convert, InRange, IsType;
    CompoundIsExact(Multiply, t, q, b);
    CompoundIsExact(Subtract, t, a, q * b);
  }

  lemma QuotientFits(t: IntType, a: int, b: int)
    requires IsType(t) && InRange(t, a) && InRange(t, b) && b != 0 && !QuotientOverflows(t, a, b)
    ensures InRange(t, Quotient(a, b)) && InRange(t, Quotient(a, b) * b) && InRange(t, a - Quotient(a, b) * b)
  {
    QuotientBounds(a, b);
    hide Quotient;
  }

  lemma ModuloByZero(t: IntType, a: int)
    requires IsType(t) && InRange(t, a)
    ensures CheckedMod(t, a, 0) == (Value(a), true)
  {
    CompoundIsExact(Multiply, t, a, 0);
    CompoundIsExact(Subtract, t, a, 0);
  }

  lemma NegatedMinimum(t: IntType)
    requires IsType(t) && t.signed
    ensures InRange(Promoted(t), -Min(t)) <==> t.bits < 32
    ensures Convert(t, -Min(t)) == Min(t)
    ensures InRange(t, Min(t)) && InRange(t, -1) && InRange(t, 0)
  {
    var m, h := Modulus(t.bits), Modulus(t.bits) / 2;
    assert m == 2 * h && h >= 128 && (h < 0x8000_0000 <==> t.bits < 32);
    RemainderOf(h, m);
    assert t.bits < 32 ==> Modulus(INT.bits) / 2 == 0x8000_0000;
    hide Modulus;
  }

  lemma ProductOfMinimum(t: IntType)
    requires IsType(t) && t.signed
    ensures Compound(Multiply, t, Min(t), -1) == if t.bits < 32 then Value(Min(t)) else Undefined
  {
    var m, p := Min(t), Promoted(t);
    NegatedMinimum(t);
    assert Exact(Multiply, m, -1) == -m;
    if t.bits < 32 {
      PlainIsExact(Multiply, t, m, -1);
    } else {
      PromotionHolds(t, m);
      PromotionHolds(t, -1);
      ConvertIsInRange(p, m);
      ConvertIsInRange(p, -1);
    }
  }

  lemma ModuloOfMinimum(t: IntType)
    requires IsType(t) && t.signed
    ensures CheckedMod(t, Min(t), -1) == if t.bits < 32 then (Value(0), true) else (Undefined, true)
  {
    var m := Min(t);
    NegatedMinimum(t);
    ProductOfMinimum(t);
    CompoundIsExact(Subtract, t, m, m);
    hide Compound;
  }

  /**
   What a checked call does, for every type and operands: its exact result, or a panic when that
   does not fit or the divisor is zero. `min % -1` also panics, although its result 0 would fit,
   and for 32 and 64 bits the multiplication back overflows before the panic is reached.
   */
  lemma CheckedCallMeans(op: Operator, t: IntType, a: int, b: int)
    requires IsType(t) && InRange(t, a) && InRange(t, b)
    ensures CheckedCall(op, t, a, b) ==
            if Divides(op) && b == 0 then Panic
            else if op.Modulo? && QuotientOverflows(t, a, b) then (if t.bits < 32 then Panic else Undefined)
            else if InRange(t, Exact(op, a, b)) then Value(Exact(op, a, b))
            else Panic
  {
    if !Divides(op) {
      ConvertIsInRange(t, Exact(op, a, b));
    } else if b == 0 {
      ModuloByZero(t, a);
    } else if QuotientOverflows(t, a, b) {
      QuotientBounds(a, b);
      ModuloOfMinimum(t);
    } else {
      ModuloOfQuotient(t, a, b);
      ConvertIsInRange(t, Quotient(a, b));
    }
  }

  /** Whatever a checked call returns, the plain operator followed by the cast returns too. */
  lemma PlainAgrees(op: Operator, t: IntType, a: int, b: int)
    requires IsType(t) && InRange(t, a) && InRange(t, b)
    requires CheckedCall(op, t, a, b).Value?
    ensures Compound(op, t, a, b) == CheckedCall(op, t, a, b)
  {
    CheckedCallMeans(op, t, a, b);
    if Divides(op) {
      ModuloOfQuotient(t, a, b);
    }
    CompoundIsExact(op, t, a, b);
  }

  lemma PlainOfMinimum(t: IntType)
    requires IsType(t) && t.signed
    ensures Compound(Modulo, t, Min(t), -1) == if t.bits < 32 then Value(0) else Undefined
    ensures Exact(Modulo, Min(t), -1) == 0
  {
    var m := Min(t);
    QuotientBounds(m, -1);
    assert Quotient(m, -1) == -m;
    assert Remainder(m, -1) == m - (-m) * -1 == 0;
    PromotionHolds(t, m);
    PromotionHolds(t, -1);
    ConvertIsInRange(Promoted(t), m);
    ConvertIsInRange(Promoted(t), -1);
  }

  lemma PlainReturnsInRange(op: Operator, t: IntType, a: int, b: int)
    requires IsType(t) && Compound(op, t, a, b).Value?
    ensures InRange(t, Compound(op, t, a, b).v)
  {
    ConvertIsInRange(t, Plain(op, t, a, t, b).v);
  }

  /**
   Conversely, the plain operator returns the exact result in no other case, except that it
   accepts `min % -1` on 8 and 16 bits.
   */
  lemma PlainIsExactOnlyThen(op: Operator, t: IntType, a: int, b: int)
    requires IsType(t) && InRange(t, a) && InRange(t, b)
    requires Divides(op) ==> b != 0
    ensures Compound(op, t, a, b) == Value(Exact(op, a, b)) <==>
            CheckedCall(op, t, a, b).Value? || (op.Modulo? && QuotientOverflows(t, a, b) && t.bits < 32)
  {
    CheckedCallMeans(op, t, a, b);
    hide Exact, Convert, CheckedCall, Compound;
    if CheckedCall(op, t, a, b).Value? {
      PlainAgrees(op, t, a, b);
    } else if op.Modulo? && QuotientOverflows(t, a, b) {
      PlainOfMinimum(t);
    } else {
      if op.Modulo? {
        ModuloOfQuotient(t, a, b);
        RemainderIsExact(a, b);
        assert false;
      }
      if Compound(op, t, a, b).Value? {
        PlainReturnsInRange(op, t, a, b);
      }
    }
  }

  /**
   What the plain operator with its cast means: nothing for a zero divisor, for the smallest value of 32
   or 64 bits modulo -1, for a result that a signed type of these widths does not hold, and for one that
   the promotion to `int` does not hold; otherwise the value congruent to the exact result.
   */
  function PlainMeaning(op: Operator, t: IntType, a: int, b: int): Outcome {
    if Divides(op) && b == 0 then Undefined
    else if op.Modulo? && QuotientOverflows(t, a, b) then (if t.bits < 32 then Value(0) else Undefined)
    else
      var x := Exact(op, a, b);
      if t.bits < 32 && !(-0x8000_0000 <= x < 0x8000_0000) then Undefined
      else if t.bits >= 32 && t.signed && !InRange(t, x) then Undefined
      else Value(Wrapped(t, x))
  }

  /** A result fits the promoted type if it fits `int`, or the type itself where that is as wide. */
  lemma FitsPromoted(t: IntType, x: int)
    requires IsType(t)
    ensures var p := Promoted(t);
            && (InRange(p, x) <==> if t.bits < 32 then -0x8000_0000 <= x < 0x8000_0000 else InRange(t, x))
            && (p.signed <==> t.bits < 32 || t.signed)
            && (t.bits >= 32 ==> p == t)
  {
  }

  /** The plain operator on operands that fit their type, before its cast. */
  lemma PlainComputes(op: Operator, t: IntType, a: int, b: int)
    requires IsType(t) && InRange(t, a) && InRange(t, b) && (Divides(op) ==> b != 0)
    requires op.Modulo? ==> !QuotientOverflows(t, a, b)
    ensures Plain(op, t, a, t, b) ==
            var p, x := Promoted(t), Exact(op, a, b);
            if InRange(p, x) then Value(x) else if p.signed then Undefined else Value(Convert(p, x))
  {
    var p := Promoted(t);
    PromotionHolds(t, a);
    PromotionHolds(t, b);
    ConvertIsInRange(p, a);
    ConvertIsInRange(p, b);
    if op.Modulo? {
      QuotientFits(t, a, b);
      PromotionHolds(t, Quotient(a, b));
    }
    hide Exact, Convert, InRange, Common, Promoted, IsType, Quotient;
  }

  lemma PlainDividesByZero(op: Operator, t: IntType, a: int)
    requires IsType(t) && Divides(op)
    ensures Compound(op, t, a, 0) == Undefined
  {
    PromotionHolds(t, 0);
    ConvertIsInRange(Promoted(t), 0);
    hide Convert, InRange, Exact;
  }

  lemma PlainMeans(op: Operator, t: IntType, a: int, b: int)
    requires IsType(t) && InRange(t, a) && InRange(t, b)
    ensures Compound(op, t, a, b) == PlainMeaning(op, t, a, b)
  {
    if Divides(op) && b == 0 {
      PlainDividesByZero(op, t, a);
    } else if op.Modulo? && QuotientOverflows(t, a, b) {
      PlainOfMinimum(t);
    } else {
      var x := Exact(op, a, b);
      PlainComputes(op, t, a, b);
      FitsPromoted(t, x);
      ConvertIsCongruent(t, x);
      ConvertTwice(t, x);
      hide Exact, Convert, Wrapped, Plain, InRange, Promoted, IsType;
    }
  }

  lemma ConvertTwice(t: IntType, v: int)
    requires IsType(t)
    ensures Convert(t, Convert(t, v)) == Convert(t, v)
  {
    ConvertIsInRange(t, v);
    ConvertIsInRange(t, Convert(t, v));
    hide Convert;
  }

  /** Of the narrow types, only the product of two unsigned 16-bit numbers can leave `int`. */
  lemma PromotionSuffices(op: Operator, t: IntType, a: int, b: int)
    requires IsType(t) && t.bits < 32 && InRange(t, a) && InRange(t, b)
    requires PlainMeaning(op, t, a, b) == Undefined && !(Divides(op) && b == 0)
    ensures op.Multiply? && t == IntType(16, false)
  {
    assert Abs(a) <= 0x1_0000 && Abs(b) <= 0x1_0000 && (t != IntType(16, false) ==> Abs(a) <= 0x8000 && Abs(b) <= 0x8000);
    hide InRange, IsType, Wrapped;
    if Divides(op) {
      QuotientBounds(a, b);
      hide Quotient;
    } else if op.Multiply? && t != IntType(16, false) {
      NarrowProducts(a, b);
    }
  }

  /** And it does: the checked product panics, the plain one means nothing although the type is unsigned. */
  lemma UnsignedProductOverflowsInt()
    ensures PlainMeaning(Multiply, IntType(16, false), 0xFFFF, 0xFFFF) == Undefined
    ensures Compound(Multiply, IntType(16, false), 0xFFFF, 0xFFFF) == Undefined
    ensures CheckedCall(Multiply, IntType(16, false), 0xFFFF, 0xFFFF) == Panic
  {
    PlainMeans(Multiply, IntType(16, false), 0xFFFF, 0xFFFF);
  }

  lemma NarrowProducts(a: int, b: int)
    requires Abs(a) <= 0x8000 && Abs(b) <= 0x8000
    ensures -0x4000_0000 <= a * b <= 0x4000_0000
  {
    MulAtLeast(Abs(a), 0x8000, Abs(b));
    SignedProducts(a, b);
  }

  lemma RemainderIsExact(a: int, b: int)
    requires b != 0
    ensures Exact(Modulo, a, b) == Remainder(a, b)
  {
  }

  // ----- Casts -----

  /** `TypeBoundsChecker`, one branch per specialisation, with C++'s comparisons between mixed types. */
  predicate IsWithinRange(d: IntType, s: IntType, v: int) {
    var wider := d.bits >= s.bits;
    if !wider && !d.signed && !s.signed then LessEqual(s, v, d, Max(d))
    else if !wider && d.signed && s.signed then LessEqual(s, v, d, Max(d)) && LessEqual(d, Min(d), s, v)
    else if !wider && !d.signed && s.signed then LessEqual(INT, 0, s, v) && LessEqual(s, v, d, Max(d))
    else if !wider && d.signed && !s.signed then LessEqual(s, v, s, Convert(s, Max(d)))
    else if d.signed == s.signed then true
    else if !d.signed && s.signed then LessEqual(INT, 0, s, v)
    else d.bits > s.bits || LessEqual(s, v, s, Convert(s, Max(d)))
  }

  lemma ComparisonIsExact(s: IntType, x: int, t: IntType, y: int)
    requires IsType(Common(s, t)) && InRange(Common(s, t), x) && InRange(Common(s, t), y)
    ensures LessEqual(s, x, t, y) <==> x <= y
  {
    ConvertIsInRange(Common(s, t), x);
    ConvertIsInRange(Common(s, t), y);
  }

  /** The check against zero is only made on signed values, where no conversion happens. */
  lemma SignCheckIsExact(s: IntType, v: int)
    requires IsType(s) && InRange(s, v)
    ensures LessEqual(INT, 0, s, v) <==> 0 <= v
  {
    ComparisonIsExact(INT, 0, s, v);
  }

  lemma NarrowingCheckIsExact(d: IntType, s: IntType, v: int)
    requires IsType(d) && IsType(s) && InRange(s, v) && d.bits < s.bits && (v < 0 ==> d.signed)
    ensures LessEqual(s, v, d, Max(d)) <==> v <= Max(d) || (d.signed && !s.signed && v <= Max(d))
    ensures s.signed ==> (LessEqual(d, Min(d), s, v) <==> Min(d) <= v)
  {
    ComparisonIsExact(s, v, d, Max(d));
    if s.signed {
      ComparisonIsExact(d, Min(d), s, v);
    }
  }

  lemma UnsignedCheckIsExact(d: IntType, s: IntType, v: int)
    requires IsType(d) && IsType(s) && InRange(s, v) && d.bits <= s.bits && d.signed && !s.signed
    ensures LessEqual(s, v, s, Convert(s, Max(d))) <==> v <= Max(d)
  {
    ConvertIsInRange(s, Max(d));
    PromotionHolds(s, v);
    PromotionHolds(s, Max(d));
    ComparisonIsExact(s, v, s, Max(d));
  }

  /** No comparison is spoilt by a conversion. */
  lemma RangeCheckIsExact(d: IntType, s: IntType, v: int)
    requires IsType(d) && IsType(s) && InRange(s, v)
    ensures IsWithinRange(d, s, v) <==> InRange(d, v)
  {
    SignCheckIsExact(s, v);
    if d.bits < s.bits && (v >= 0 || d.signed) {
      NarrowingCheckIsExact(d, s, v);
    }
    if d.bits <= s.bits && d.signed && !s.signed {
      UnsignedCheckIsExact(d, s, v);
    }
    hide LessEqual, Convert;
  }

  function FallibleCast(d: IntType, s: IntType, v: int): Option<int> {
    if !IsWithinRange(d, s, v) then None else Some(Convert(d, v))
  }

  function InfallibleCast(d: IntType, s: IntType, v: int): Outcome {
    if !IsWithinRange(d, s, v) then Panic else Value(Convert(d, v))
  }

  function SaturatedCast(d: IntType, s: IntType, v: int): int {
    if !IsWithinRange(d, s, v) then
      (if s.signed && !LessEqual(INT, 0, s, v) then Min(d) else Max(d))
    else Convert(d, v)
  }

  function Clamped(low: int, v: int, high: int): int {
    if v < low then low else if v > high then high else v
  }

  /** The fallible casts keep the value or fail, the saturating one clamps, and they agree where both give a value. */
  lemma CastsMean(d: IntType, s: IntType, v: int)
    requires IsType(d) && IsType(s) && InRange(s, v)
    ensures FallibleCast(d, s, v) == if InRange(d, v) then Some(v) else None
    ensures InfallibleCast(d, s, v) == if InRange(d, v) then Value(v) else Panic
    ensures SaturatedCast(d, s, v) == Clamped(Min(d), v, Max(d))
    ensures FallibleCast(d, s, v).Some? ==> SaturatedCast(d, s, v) == FallibleCast(d, s, v).value == Convert(d, v)
  {
    RangeCheckIsExact(d, s, v);
    ConvertIsInRange(d, v);
    SignCheckIsExact(s, v);
    hide LessEqual, Convert, IsWithinRange;
  }

  // ----- Arithmetic shift -----

  function Pow2(n: nat): (p: nat)
    ensures p > 0
  {
    if n == 0 then 1 else 2 * Pow2(n - 1)
  }

  /** Bit `k` of the two's complement form. */
  predicate Bit(v: int, k: nat) {
    (v / Pow2(k)) % 2 == 1
  }

  function AndBit(v: int, k: nat): int {
    if Bit(v, k) then Pow2(k) else 0
  }

  function OrBit(v: int, bit: int, k: nat): int {
    if bit == 0 || Bit(v, k) then v else v + Pow2(k)
  }

  /** `>>` on a promoted operand keeps the sign; shifting by the width or more is undefined. */
  function ShiftRight(t: IntType, v: int, steps: nat): Outcome {
    if steps >= Promoted(t).bits then Undefined else Value(v / Pow2(steps))
  }

  /**
   `arithmetic_shift_right`: the sign bit of the operand is or-ed onto the shifted value. The mask
   is an `int` literal for 8 and 16 bits and an unsigned one, converting its operands, above.
   */
  function ArithmeticShiftRight(t: IntType, v: int, steps: nat): Outcome
    requires IsType(t)
  {
    var shifted := ShiftRight(t, v, steps);
    if !t.signed || !shifted.Value? then (if shifted.Value? then Value(Convert(t, shifted.v)) else shifted)
    else
      var mask := if t.bits < 32 then INT else IntType(t.bits, false);
      var sign := AndBit(Convert(mask, v), t.bits - 1);
      Value(Convert(t, OrBit(Convert(mask, shifted.v), sign, t.bits - 1)))
  }

  lemma FloorDivision(v: int, p: nat)
    requires p > 0
    ensures v >= 0 ==> 0 <= v / p <= v
    ensures v < 0 ==> v <= v / p < 0
  {
    var q, r := v / p, v % p;
    assert v == q * p + r && 0 <= r < p;
    Signs(q, p);
  }

  lemma Signs(q: int, p: nat)
    requires p > 0
    ensures q >= 0 ==> q * p >= q
    ensures q < 0 ==> q * p <= q - (p - 1)
  {
    if q >= 0 {
      MulAtLeast(q, p, 1);
    } else {
      assert (-q - 1) * (p - 1) == (-q) * p - (-q) - (p - 1);
      assert (-q) * p == -(q * p);
      MulAtLeast(p - 1, -q, 1);
      assert (p - 1) * (-q) == (-q) * p - (-q);
    }
  }

  lemma {:induction false} Pow2Sum(a: nat, b: nat)
    ensures Pow2(a + b) == Pow2(a) * Pow2(b)
  {
    if a > 0 {
      Pow2Sum(a - 1, b);
    }
  }

  lemma HalfIsPow2(bits: nat)
    requires bits == 8 || bits == 16 || bits == 32 || bits == 64
    ensures Pow2(bits - 1) == Modulus(bits) / 2
  {
    SmallPowers();
    hide Pow2;
    Pow2Sum(8, 7);
    Pow2Sum(8, 8);
    Pow2Sum(16, 15);
    Pow2Sum(16, 16);
    Pow2Sum(32, 31);
  }

  lemma SmallPowers()
    ensures Pow2(7) == 0x80 && Pow2(8) == 0x100
  {
    assert Pow2(3) == 8;
  }

  lemma DivisionIsUnique(x: int, h: nat, q: int, r: int)
    requires h > 0 && x == q * h + r && 0 <= r < h
    ensures x / h == q
  {
    var q', r' := x / h, x % h;
    assert x == q' * h + r' && 0 <= r' < h;
    assert (q - q') * h == r' - r;
    Signs(q - q', h);
    Signs(q' - q, h);
    assert (q' - q) * h == -((q - q') * h);
  }

  lemma HalfBits(x: int, h: int)
    requires h > 0
    ensures -h <= x < 0 ==> (x / h) % 2 == 1
    ensures 0 <= x < h ==> (x / h) % 2 == 0
    ensures h <= x < 2 * h ==> (x / h) % 2 == 1
  {
    if -h <= x < 0 {
      DivisionIsUnique(x, h, -1, x + h);
    } else if 0 <= x < h {
      DivisionIsUnique(x, h, 0, x);
    } else if h <= x < 2 * h {
      DivisionIsUnique(x, h, 1, x - h);
    }
  }

  lemma UnsignedForm(t: IntType, x: int)
    requires IsType(t) && t.signed && InRange(t, x)
    ensures Convert(IntType(t.bits, false), x) == if x < 0 then x + Modulus(t.bits) else x
    ensures Convert(t, Convert(IntType(t.bits, false), x)) == x
  {
    var m := Modulus(t.bits);
    assert -m <= x < m && Max(t) == m / 2 - 1 && Min(t) == -(m / 2);
    hide Modulus, Max, Min, InRange;
    RemainderOf(x, m);
    if x < 0 {
      RemainderOf(x + m, m);
    }
  }

  lemma RemainderOf(x: int, m: int)
    requires 0 < m && -m <= x < m
    ensures x % m == if x < 0 then x + m else x
  {
    if x < 0 {
      assert x == -1 * m + (x + m);
    }
  }

  /** The sign bit of a value that fits is set exactly when it is negative. */
  lemma SignBit(t: IntType, x: int)
    requires IsType(t) && t.signed && InRange(t, x)
    ensures Bit(x, t.bits - 1) <==> x < 0
    ensures Bit(Convert(IntType(t.bits, false), x), t.bits - 1) <==> x < 0
  {
    HalfIsPow2(t.bits);
    var h := Modulus(t.bits) / 2;
    assert Modulus(t.bits) == 2 * h;
    HalfBits(x, h);
    UnsignedForm(t, x);
    HalfBits(Convert(IntType(t.bits, false), x), h);
    hide Convert, Pow2;
  }

  /**
   For every type and every value, the result is the quotient by the power of two rounded down;
   a shift by at least the promoted width has no meaning in C++.
   */
  lemma ShiftIsFloorDivision(t: IntType, v: int, steps: nat)
    requires IsType(t) && InRange(t, v)
    ensures ArithmeticShiftRight(t, v, steps) ==
            if steps < (if t.bits < 32 then 32 else t.bits) then Value(v / Pow2(steps)) else Undefined
  {
    if steps < Promoted(t).bits {
      var x := v / Pow2(steps);
      FloorDivision(v, Pow2(steps));
      assert InRange(t, x);
      ConvertIsInRange(t, x);
      if t.signed {
        SignBit(t, v);
        SignBit(t, x);
        SignedShift(t, v, x);
      }
    }
  }

  /** Or-ing the sign bit changes nothing: an arithmetic shift has already kept it. */
  lemma SignedShift(t: IntType, v: int, x: int)
    requires IsType(t) && t.signed && InRange(t, v) && InRange(t, x) && (v < 0 <==> x < 0)
    ensures var mask := if t.bits < 32 then INT else IntType(t.bits, false);
            Convert(t, OrBit(Convert(mask, x), AndBit(Convert(mask, v), t.bits - 1), t.bits - 1)) == x
  {
    var mask := if t.bits < 32 then INT else IntType(t.bits, false);
    SignBit(t, v);
    SignBit(t, x);
    if t.bits < 32 {
      ConvertIsInRange(INT, v);
      ConvertIsInRange(INT, x);
      ConvertIsInRange(t, x);
    } else {
      UnsignedForm(t, x);
    }
    hide Bit, Pow2, Convert;
  }
}
