/**
 Integer expressions, their two emitted forms, and an unbounded reference meaning: the checked
 form computes the reference meaning or stops, and the optimized form returns whatever the
 checked one returns.
 */
module OptimizedArithmetic {
  import opened Wrappers
  import opened IntegerTypes
  import opened Arithmetic

  /** A leaf is a literal or the current value of a variable. */
  datatype Expr =
    | Leaf(t: IntType, v: int)
    | Binary(op: Operator, t: IntType, lhs: Expr, rhs: Expr)
    | Cast(kind: CastKind, t: IntType, e: Expr)
    | Shift(lhs: Expr, steps: Expr)

  datatype CastKind = Infallible | Saturated | Truncated

  function TypeOf(e: Expr): IntType {
    match e
    case Leaf(t, _) => t
    case Binary(_, t, _, _) => t
    case Cast(_, t, _) => t
    case Shift(lhs, _) => TypeOf(lhs)
  }

  /** Both operands of an arithmetic operator have its type. */
  predicate WellTyped(e: Expr) {
    match e
    case Leaf(t, v) => IsType(t) && InRange(t, v)
    case Binary(_, t, lhs, rhs) => IsType(t) && WellTyped(lhs) && WellTyped(rhs) && TypeOf(lhs) == t == TypeOf(rhs)
    case Cast(_, t, e) => IsType(t) && WellTyped(e)
    case Shift(lhs, steps) => WellTyped(lhs) && WellTyped(steps)
  }

  // ----- Emitted expressions -----

  datatype CExpr =
    | Atom(t: IntType, v: int)
    | CheckedOp(op: Operator, t: IntType, lhs: CExpr, rhs: CExpr)   // checked_add<T>(lhs, rhs)
    | PlainOp(op: Operator, lhs: CExpr, rhs: CExpr)                 // lhs + rhs
    | StaticCast(t: IntType, e: CExpr)
    | CastCall(kind: CastKind, t: IntType, e: CExpr)
    | ShiftCall(lhs: CExpr, steps: CExpr)

  function CType(e: CExpr): IntType {
    match e
    case Atom(t, _) => t
    case CheckedOp(_, t, _, _) => t
    case PlainOp(_, lhs, rhs) => Common(CType(lhs), CType(rhs))
    case StaticCast(t, _) => t
    case CastCall(_, t, _) => t
    case ShiftCall(lhs, _) => CType(lhs)
  }

  /** The `optimize` flag chooses the form of the five plain operators and nothing else. */
  function Emit(optimize: bool, e: Expr): CExpr {
    match e
    case Leaf(t, v) => Atom(t, v)
    case Binary(op, t, lhs, rhs) =>
      var l, r := Emit(optimize, lhs), Emit(optimize, rhs);
      if optimize then StaticCast(t, PlainOp(op, l, r)) else CheckedOp(op, t, l, r)
    case Cast(kind, t, e) => CastCall(kind, t, Emit(optimize, e))
    case Shift(lhs, steps) => ShiftCall(Emit(optimize, lhs), Emit(optimize, steps))
  }

  function RunCast(kind: CastKind, d: IntType, s: IntType, v: int): Outcome {
    match kind
    case Infallible => InfallibleCast(d, s, v)
    case Saturated => Value(SaturatedCast(d, s, v))
    case Truncated => Value(Convert(d, v))
  }

  function RunShift(t: IntType, v: int, steps: int): Outcome
    requires IsType(t)
  {
    ArithmeticShiftRight(t, v, ShiftSteps(steps))
  }

  /** The steps are passed as a `size_t`. */
  function ShiftSteps(steps: int): nat {
    Convert(SIZE_T, steps)
  }

  predicate CWellTyped(e: CExpr) {
    match e
    case Atom(t, _) => IsType(t)
    case CheckedOp(_, t, lhs, rhs) => IsType(t) && CWellTyped(lhs) && CWellTyped(rhs)
    case PlainOp(_, lhs, rhs) => CWellTyped(lhs) && CWellTyped(rhs)
    case StaticCast(t, e) => IsType(t) && CWellTyped(e)
    case CastCall(_, t, e) => IsType(t) && CWellTyped(e)
    case ShiftCall(lhs, steps) => CWellTyped(lhs) && CWellTyped(steps) && IsType(CType(lhs))
  }

  /** The first operand that does not return a value decides. */
  function Run(e: CExpr): Outcome
    requires CWellTyped(e)
  {
    match e
    case Atom(_, v) => Value(v)
    case CheckedOp(op, t, lhs, rhs) =>
      var a, b := Run(lhs), Run(rhs);
      if !a.Value? then a else if !b.Value? then b else CheckedCall(op, t, Convert(t, a.v), Convert(t, b.v))
    case PlainOp(op, lhs, rhs) =>
      var a, b := Run(lhs), Run(rhs);
      if !a.Value? then a else if !b.Value? then b else Plain(op, CType(lhs), a.v, CType(rhs), b.v)
    case StaticCast(t, e) =>
      var a := Run(e);
      if a.Value? then Value(Convert(t, a.v)) else a
    case CastCall(kind, t, e) =>
      var a := Run(e);
      if a.Value? then RunCast(kind, t, CType(e), a.v) else a
    case ShiftCall(lhs, steps) =>
      var a, b := Run(lhs), Run(steps);
      if !a.Value? then a else if !b.Value? then b else RunShift(CType(lhs), a.v, b.v)
  }

  // ----- Reference meaning -----

  /** The meaning on unbounded integers; None where some result does not fit its type. */
  function Meaning(e: Expr): Option<int> {
    match e
    case Leaf(_, v) => Some(v)
    case Binary(op, t, lhs, rhs) =>
      var a, b := Meaning(lhs), Meaning(rhs);
      if a.None? || b.None? then None
      else if Divides(op) && (b.value == 0 || QuotientOverflows(t, a.value, b.value)) then None
      else if InRange(t, Exact(op, a.value, b.value)) then Some(Exact(op, a.value, b.value))
      else None
    case Cast(kind, t, e) =>
      var a := Meaning(e);
      if a.None? then None
      else (match kind
        case Infallible => if InRange(t, a.value) then a else None
        case Saturated => Some(Clamped(Min(t), a.value, Max(t)))
        case Truncated => Some(Convert(t, a.value)))
    case Shift(lhs, steps) =>
      var a, b := Meaning(lhs), Meaning(steps);
      if a.None? || b.None? || !(0 <= b.value < Promoted(TypeOf(lhs)).bits) then None
      else Some(a.value / Pow2(b.value))
  }

  /** What evaluating the tree comes to if an operator on two numbers of type `t` comes to `of`. */
  function Evaluated(e: Expr, of: (Operator, IntType, int, int) -> Outcome): Outcome {
    match e
    case Leaf(_, v) => Value(v)
    case Binary(op, t, lhs, rhs) =>
      var a, b := Evaluated(lhs, of), Evaluated(rhs, of);
      if !a.Value? then a else if !b.Value? then b else of(op, t, a.v, b.v)
    case Cast(kind, t, e) =>
      var a := Evaluated(e, of);
      if !a.Value? then a
      else (match kind
        case Infallible => if InRange(t, a.v) then a else Panic
        case Saturated => Value(Clamped(Min(t), a.v, Max(t)))
        case Truncated => Value(Wrapped(t, a.v)))
    case Shift(lhs, steps) =>
      var a, b := Evaluated(lhs, of), Evaluated(steps, of);
      if !a.Value? then a
      else if !b.Value? then b
      else if 0 <= b.v < (if TypeOf(lhs).bits < 32 then 32 else TypeOf(lhs).bits) then Value(a.v / Pow2(b.v))
      else Undefined
  }

  /** A checked operator: a result that fits, or a panic, but for the modulo that overflows on the way. */
  function CheckedMeaning(op: Operator, t: IntType, a: int, b: int): Outcome {
    if Divides(op) && b == 0 then Panic
    else if op.Modulo? && QuotientOverflows(t, a, b) then (if t.bits < 32 then Panic else Undefined)
    else if InRange(t, Exact(op, a, b)) then Value(Exact(op, a, b))
    else Panic
  }

  lemma {:induction false} EmittedTypes(optimize: bool, e: Expr)
    requires WellTyped(e)
    ensures CWellTyped(Emit(optimize, e)) && CType(Emit(optimize, e)) == TypeOf(e) && IsType(TypeOf(e))
  {
    match e
    case Leaf(_, _) =>
    case Binary(_, _, lhs, rhs) =>
      EmittedTypes(optimize, lhs);
      EmittedTypes(optimize, rhs);
    case Cast(_, _, e) => EmittedTypes(optimize, e);
    case Shift(lhs, steps) =>
      EmittedTypes(optimize, lhs);
      EmittedTypes(optimize, steps);
  }

  lemma {:induction false} MeaningFits(e: Expr)
    requires WellTyped(e) && Meaning(e).Some?
    ensures IsType(TypeOf(e)) && InRange(TypeOf(e), Meaning(e).value)
  {
    match e
    case Leaf(_, _) =>
    case Binary(_, _, _, _) =>
    case Cast(kind, t, e') =>
      ConvertIsInRange(t, Meaning(e').value);
      RangeIsNonEmpty(t);
    case Shift(lhs, steps) =>
      MeaningFits(lhs);
      hide InRange;
      ShiftFits(TypeOf(lhs), Meaning(lhs).value, Meaning(steps).value);
  }

  lemma RangeIsNonEmpty(t: IntType)
    requires IsType(t)
    ensures Min(t) <= Max(t)
  {
  }

  lemma ShiftFits(t: IntType, v: int, steps: nat)
    requires IsType(t) && InRange(t, v)
    ensures InRange(t, v / Pow2(steps))
  {
    FloorDivision(v, Pow2(steps));
  }

  lemma StepsFit(s: IntType, steps: int, width: nat)
    requires IsType(s) && InRange(s, steps) && width <= 64
    ensures ShiftSteps(steps) < width <==> 0 <= steps < width
    ensures 0 <= steps < width ==> ShiftSteps(steps) == steps
  {
  }

  /** The checked form returns a value exactly where the reference meaning has one, and it is that value. */
  lemma {:induction false} CheckedFormIsExact(e: Expr)
    requires WellTyped(e)
    ensures CWellTyped(Emit(false, e))
    ensures var r := Run(Emit(false, e));
            if Meaning(e).Some? then r == Value(Meaning(e).value) else !r.Value?
  {
    EmittedTypes(false, e);
    match e
    case Leaf(_, _) =>
    case Binary(op, t, lhs, rhs) =>
      CheckedFormIsExact(lhs);
      CheckedFormIsExact(rhs);
      if Meaning(lhs).Some? && Meaning(rhs).Some? {
        BinaryIsExact(op, t, lhs, rhs);
      }
    case Cast(kind, t, e') =>
      CheckedFormIsExact(e');
      if Meaning(e').Some? {
        EmittedTypes(false, e');
        MeaningFits(e');
        CastsMean(t, TypeOf(e'), Meaning(e').value);
      }
    case Shift(lhs, steps) =>
      CheckedFormIsExact(lhs);
      CheckedFormIsExact(steps);
      if Meaning(lhs).Some? && Meaning(steps).Some? {
        ShiftIsExact(lhs, steps);
      }
  }

  lemma BinaryIsExact(op: Operator, t: IntType, lhs: Expr, rhs: Expr)
    requires WellTyped(Binary(op, t, lhs, rhs)) && Meaning(lhs).Some? && Meaning(rhs).Some?
    ensures var a, b := Meaning(lhs).value, Meaning(rhs).value;
            var m := Meaning(Binary(op, t, lhs, rhs));
            var r := CheckedCall(op, t, Convert(t, a), Convert(t, b));
            if m.Some? then r == Value(m.value) else !r.Value?
  {
    var a, b := Meaning(lhs).value, Meaning(rhs).value;
    MeaningFits(lhs);
    MeaningFits(rhs);
    ConvertIsInRange(t, a);
    ConvertIsInRange(t, b);
    CheckedCallMeans(op, t, a, b);
    if Divides(op) && b != 0 && QuotientOverflows(t, a, b) {
      MinimumHasNoNegation(t);
    }
    hide CheckedCall, Convert, WellTyped;
  }

  lemma MinimumHasNoNegation(t: IntType)
    requires IsType(t) && t.signed
    ensures !InRange(t, Quotient(Min(t), -1))
  {
    QuotientBounds(Min(t), -1);
  }

  lemma ShiftIsExact(lhs: Expr, steps: Expr)
    requires WellTyped(lhs) && WellTyped(steps) && Meaning(lhs).Some? && Meaning(steps).Some?
    ensures IsType(TypeOf(lhs))
    ensures var m := Meaning(Shift(lhs, steps));
            var r := RunShift(TypeOf(lhs), Meaning(lhs).value, Meaning(steps).value);
            if m.Some? then r == Value(m.value) else !r.Value?
  {
    MeaningFits(lhs);
    MeaningFits(steps);
    ShiftIsFloorDivision(TypeOf(lhs), Meaning(lhs).value, ShiftSteps(Meaning(steps).value));
    StepsFit(TypeOf(steps), Meaning(steps).value, Promoted(TypeOf(lhs)).bits);
  }

  /**
   For every tree over the five operators, casts and shifts, at any mix of widths: if the checked
   form returns a value, the optimized form returns the same value and runs into no undefined behaviour.
   */
  lemma {:induction false} OptimizedRefinesChecked(e: Expr)
    requires WellTyped(e)
    ensures CWellTyped(Emit(false, e)) && CWellTyped(Emit(true, e))
    ensures Run(Emit(false, e)).Value? ==> Run(Emit(true, e)) == Run(Emit(false, e))
  {
    EmittedTypes(false, e);
    EmittedTypes(true, e);
    match e
    case Leaf(_, _) =>
    case Binary(op, t, lhs, rhs) =>
      OptimizedRefinesChecked(lhs);
      OptimizedRefinesChecked(rhs);
      EmittedTypes(true, lhs);
      EmittedTypes(true, rhs);
      if Run(Emit(false, e)).Value? {
        OperandsFit(lhs);
        OperandsFit(rhs);
        var a, b := Run(Emit(false, lhs)).v, Run(Emit(false, rhs)).v;
        ConvertIsInRange(t, a);
        ConvertIsInRange(t, b);
        PlainAgrees(op, t, a, b);
        hide CheckedCall, Convert, Plain;
      }
    case Cast(kind, t, e') =>
      OptimizedRefinesChecked(e');
      EmittedTypes(false, e');
      EmittedTypes(true, e');
    case Shift(lhs, steps) =>
      OptimizedRefinesChecked(lhs);
      OptimizedRefinesChecked(steps);
      EmittedTypes(false, lhs);
      EmittedTypes(true, lhs);
      EmittedTypes(false, steps);
      EmittedTypes(true, steps);
  }

  lemma OperandsFit(e: Expr)
    requires WellTyped(e) && CWellTyped(Emit(false, e)) && Run(Emit(false, e)).Value?
    ensures InRange(TypeOf(e), Run(Emit(false, e)).v)
  {
    CheckedFormIsExact(e);
    MeaningFits(e);
  }

  // ----- What each form means, where it stops included -----

  /**
   For every tree: the checked form stops with a panic or in undefined behaviour, or returns, as its
   operators, casts and shifts say; and so does the optimized form, whose operators wrap around instead
   of stopping wherever C++ lets them.
   */
  lemma {:induction false} FormMeans(optimize: bool, e: Expr)
    requires WellTyped(e)
    ensures CWellTyped(Emit(optimize, e))
    ensures Run(Emit(optimize, e)) == Evaluated(e, if optimize then PlainMeaning else CheckedMeaning)
    ensures Run(Emit(optimize, e)).Value? ==> InRange(TypeOf(e), Run(Emit(optimize, e)).v)
  {
    EmittedTypes(optimize, e);
    match e
    case Leaf(_, _) =>
    case Binary(op, t, lhs, rhs) =>
      FormMeans(optimize, lhs);
      FormMeans(optimize, rhs);
      EmittedTypes(optimize, lhs);
      EmittedTypes(optimize, rhs);
      BinaryMeans(optimize, op, t, Emit(optimize, lhs), Emit(optimize, rhs));
    case Cast(kind, t, e') =>
      FormMeans(optimize, e');
      EmittedTypes(optimize, e');
      var a := Run(Emit(optimize, e'));
      if a.Value? {
        CastsMean(t, TypeOf(e'), a.v);
        ConvertIsCongruent(t, a.v);
        RangeIsNonEmpty(t);
      }
      hide SaturatedCast, InfallibleCast, Convert, Wrapped;
    case Shift(lhs, steps) =>
      FormMeans(optimize, lhs);
      FormMeans(optimize, steps);
      EmittedTypes(optimize, lhs);
      EmittedTypes(optimize, steps);
      var a, b := Run(Emit(optimize, lhs)), Run(Emit(optimize, steps));
      if a.Value? && b.Value? {
        ShiftMeans(TypeOf(lhs), a.v, TypeOf(steps), b.v);
      }
      hide ArithmeticShiftRight;
  }

  lemma ShiftMeans(t: IntType, v: int, s: IntType, steps: int)
    requires IsType(t) && InRange(t, v) && IsType(s) && InRange(s, steps)
    ensures RunShift(t, v, steps) == if 0 <= steps < (if t.bits < 32 then 32 else t.bits) then Value(v / Pow2(steps)) else Undefined
    ensures RunShift(t, v, steps).Value? ==> InRange(t, RunShift(t, v, steps).v)
  {
    var width := if t.bits < 32 then 32 else t.bits;
    StepsFit(s, steps, width);
    ShiftIsFloorDivision(t, v, ShiftSteps(steps));
    if 0 <= steps < width {
      ShiftFits(t, v, steps);
    }
    hide ArithmeticShiftRight, ShiftSteps;
  }

  lemma BinaryMeans(optimize: bool, op: Operator, t: IntType, l: CExpr, r: CExpr)
    requires IsType(t) && CWellTyped(l) && CWellTyped(r) && CType(l) == t == CType(r)
    requires Run(l).Value? ==> InRange(t, Run(l).v)
    requires Run(r).Value? ==> InRange(t, Run(r).v)
    ensures var c := if optimize then StaticCast(t, PlainOp(op, l, r)) else CheckedOp(op, t, l, r);
            var a, b := Run(l), Run(r);
            && Run(c) == (if !a.Value? then a else if !b.Value? then b
                          else if optimize then PlainMeaning(op, t, a.v, b.v) else CheckedMeaning(op, t, a.v, b.v))
            && (Run(c).Value? ==> InRange(t, Run(c).v))
  {
    var a, b := Run(l), Run(r);
    if a.Value? && b.Value? {
      ConvertIsInRange(t, a.v);
      ConvertIsInRange(t, b.v);
      CheckedCallMeans(op, t, a.v, b.v);
      PlainMeans(op, t, a.v, b.v);
      if Compound(op, t, a.v, b.v).Value? {
        PlainReturnsInRange(op, t, a.v, b.v);
      }
      assert Run(PlainOp(op, l, r)) == Plain(op, t, a.v, t, b.v);
      hide CheckedCall, Plain, PlainMeaning, Convert, InRange, Exact, QuotientOverflows;
    }
  }

  predicate HasInfallibleCast(e: Expr) {
    match e
    case Leaf(_, _) => false
    case Binary(_, _, lhs, rhs) => HasInfallibleCast(lhs) || HasInfallibleCast(rhs)
    case Cast(kind, _, e) => kind.Infallible? || HasInfallibleCast(e)
    case Shift(lhs, steps) => HasInfallibleCast(lhs) || HasInfallibleCast(steps)
  }

  /** Optimized code panics in casts alone. */
  lemma {:induction false} OptimizedPanicsInCastsOnly(e: Expr)
    requires WellTyped(e) && !HasInfallibleCast(e)
    ensures CWellTyped(Emit(true, e)) && Run(Emit(true, e)) != Panic
  {
    FormMeans(true, e);
    NeverPanics(e);
  }

  lemma {:induction false} NeverPanics(e: Expr)
    requires !HasInfallibleCast(e)
    ensures Evaluated(e, PlainMeaning) != Panic
  {
    match e
    case Leaf(_, _) =>
    case Binary(_, _, lhs, rhs) =>
      NeverPanics(lhs);
      NeverPanics(rhs);
    case Cast(_, _, e') => NeverPanics(e');
    case Shift(lhs, steps) =>
      NeverPanics(lhs);
      NeverPanics(steps);
  }

  /** `250u8 + 10u8` wraps around when optimized and stops otherwise. */
  lemma OptimizedWrapsAround()
    ensures var e := Binary(Add, IntType(8, false), Leaf(IntType(8, false), 250), Leaf(IntType(8, false), 10));
            WellTyped(e) && CWellTyped(Emit(true, e)) && CWellTyped(Emit(false, e))
            && Run(Emit(true, e)) == Value(4) && Run(Emit(false, e)) == Panic
  {
    var e := Binary(Add, IntType(8, false), Leaf(IntType(8, false), 250), Leaf(IntType(8, false), 10));
    FormMeans(true, e);
    FormMeans(false, e);
    hide Run;
  }
}
