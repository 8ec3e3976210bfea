/**
 The part of the checked Jakt program that the control-flow lowering rewrites:
 statements, match expressions and yielding blocks, with their meaning.

 A run is indexed by `fuel`, the number of further loop iterations it may start;
 every other construct is executed by recursion on the syntax.
 */
module Jakt {
  import opened Wrappers

  datatype Value = Void | Int(n: int)

  /** What the lowering asks of a type: is it void, never, or does it have values? */
  datatype Ty = VoidTy | NeverTy | IntTy

  datatype BinOp = Add | Less | And

  /** How `codegen_match` dispatches: sum enum, enum with an underlying type, anything else. */
  datatype MatchKind = SumEnum(variantCount: nat) | ValueEnum | Generic

  datatype Pattern =
    | Variant(index: nat)
    | Equals(n: int)
    | InRange(from: Option<int>, to: Option<int>)
    | Instance(derived: set<int>)   // dynamic class ids that derive from the named class
    | CatchAll

  datatype Expr =
    | Lit(n: int)
    | Var(x: string)
    | Bin(op: BinOp, lhs: Expr, rhs: Expr)
    | Print(arg: Expr)              // a call of void type with a visible effect
    | Abort                         // a call of never type
    | Match(kind: MatchKind, t: Ty, subject: Expr, cases: Cases)
    | BlockExpr(block: Block)

  datatype Cases = NoCase | Case(pattern: Pattern, body: MatchBody, rest: Cases)

  datatype MatchBody = BodyBlock(block: Block) | BodyExpr(e: Expr)

  /** `isYielding` is `yielded_type.has_value()`. */
  datatype Block = Block(isYielding: bool, stmts: Stmts)

  datatype Stmts = Nil | Cons(head: Stmt, tail: Stmts)

  datatype Else = NoElse | ElseStmt(s: Stmt)

  datatype Stmt =
    | ExprStmt(e: Expr)
    | Assign(x: string, e: Expr)
    | Loop(body: Block)
    | While(cond: Expr, body: Block)
    | If(cond: Expr, thenBlock: Block, els: Else)
    | BlockStmt(block: Block)
    | Break
    | Continue
    | Return(val: Option<Expr>)
    | Yield(e: Expr)

  /**
   The function being generated, as `codegen_function_return_type` looks at it. `isMain` says that
   its emitted name is `main`; `isUntypedMethod`, that it is a method of an enum and was written
   without a result type, which is then not known yet when its returns are checked.
   */
  datatype Fn = Fn(resultType: Ty, canThrow: bool, isMain: bool, isUntypedMethod: bool) {
    /** The emitted function returns `void` or `ErrorOr<void>`: never becomes void, main ErrorOr<int>. */
    predicate ValueIsVoid() { !isMain && !resultType.IntTy? }

    predicate CppReturnsVoid() { ValueIsVoid() && !canThrow }

    /** What `apply_control_flow_macro` takes for a function that returns `void`. */
    predicate SeemsVoid() { !canThrow && !resultType.IntTy? }
  }

  // ----- Static reading -----

  function TypeOf(e: Expr): Ty {
    match e
    case Print(_) => VoidTy
    case Abort => NeverTy
    case Match(_, t, _, _) => t
    case _ => IntTy
  }

  predicate IsVoidOrNever(e: Expr) {
    !TypeOf(e).IntTy?
  }

  function CaseCount(cases: Cases): nat {
    match cases
    case NoCase => 0
    case Case(_, _, rest) => 1 + CaseCount(rest)
  }

  predicate HasCatchAll(cases: Cases) {
    cases.Case? && (cases.pattern.CatchAll? || HasCatchAll(cases.rest))
  }

  /**
   How much is asked of a program: what the type checker asks; also that every `return` and every
   match fits the type that the function is emitted with; or also that every loop exit is received
   by a loop, for which the condition of a `while` counts as outside that loop.
   */
  datatype Rule = Accepted | Fitting | Taken

  /** Where the checked program stands. The type checker takes the condition of a `while` to be inside it. */
  datatype Scope = Scope(fn: Fn, inLoop: bool, inMatch: bool, canYield: bool, rule: Rule) {
    function EnterLoop(): Scope { this.(inLoop := true) }
    function EnterCondition(): Scope { if rule.Taken? then this else EnterLoop() }
    function EnterMatch(): Scope { this.(inMatch := true, canYield := false) }
    function EnterYieldingBlock(): Scope { this.(canYield := true) }
  }

  function FunctionScope(fn: Fn, rule: Rule): Scope {
    Scope(fn, false, false, false, rule)
  }

  /** `typecheck_return`: while the result type is unknown, every return passes. */
  predicate ReturnIsAccepted(val: Option<Expr>, fn: Fn) {
    fn.isUntypedMethod || (if val.None? then VoidTy else TypeOf(val.value)) == fn.resultType
  }

  /** The emitted `return` fits the emitted type: C++ takes a void operand in a void function only, and in no lambda. */
  predicate ReturnFits(val: Option<Expr>, fn: Fn, inMatch: bool) {
    if val.Some? && !IsVoidOrNever(val.value) then !fn.ValueIsVoid()
    else fn.ValueIsVoid() && (val.None? || fn.canThrow || !inMatch)
  }

  /** Inside another match, what is forwarded for a function that seems void is `{}`. */
  predicate MatchFits(fn: Fn, inMatch: bool) {
    inMatch && fn.SeemsVoid() ==> fn.ValueIsVoid()
  }

  predicate WellScopedExpr(e: Expr, c: Scope) {
    match e
    case Lit(_) => true
    case Var(_) => true
    case Bin(_, l, r) => WellScopedExpr(l, c) && WellScopedExpr(r, c)
    case Print(arg) => WellScopedExpr(arg, c)
    case Abort => true
    case Match(kind, t, subject, cases) =>
      && (c.rule.Accepted? || MatchFits(c.fn, c.inMatch))
      && WellScopedExpr(subject, c.EnterMatch())
      && WellScopedCases(cases, kind, t, c.EnterMatch())
      && (kind.SumEnum? && !HasCatchAll(cases) ==> CaseCount(cases) == kind.variantCount)
    case BlockExpr(b) => b.isYielding && WellScopedStmts(b.stmts, c.EnterYieldingBlock())
  }

  predicate WellScopedCases(cases: Cases, kind: MatchKind, t: Ty, c: Scope) {
    match cases
    case NoCase => true
    case Case(pattern, body, rest) =>
      && (if kind.Generic? then pattern.Variant? || pattern.CatchAll? || pattern.Instance? || pattern.Equals?
                                || (pattern.InRange? && (pattern.from.Some? || pattern.to.Some?))
          else pattern.Variant? || pattern.CatchAll?)
      && (pattern.CatchAll? ==> rest.NoCase?)
      && WellScopedBody(body, t, c)
      && WellScopedCases(rest, kind, t, c)
  }

  predicate WellScopedBody(body: MatchBody, t: Ty, c: Scope) {
    match body
    case BodyBlock(b) => !b.isYielding && WellScopedStmts(b.stmts, c)
    case BodyExpr(e) => TypeOf(e) == t && WellScopedExpr(e, c)
  }

  predicate WellScopedStmts(ss: Stmts, c: Scope) {
    match ss
    case Nil => true
    case Cons(s, rest) => WellScopedStmt(s, c) && WellScopedStmts(rest, c)
  }

  predicate WellScopedElse(els: Else, c: Scope) {
    match els
    case NoElse => true
    case ElseStmt(s) => (s.If? || s.BlockStmt?) && WellScopedStmt(s, c)
  }

  predicate WellScopedStmt(s: Stmt, c: Scope) {
    match s
    case ExprStmt(e) => WellScopedExpr(e, c)
    case Assign(_, e) => WellScopedExpr(e, c)
    case Loop(b) => !b.isYielding && WellScopedStmts(b.stmts, c.EnterLoop())
    case While(cond, b) => WellScopedExpr(cond, c.EnterCondition()) && !b.isYielding && WellScopedStmts(b.stmts, c.EnterLoop())
    case If(cond, b, els) =>
      WellScopedExpr(cond, c) && !b.isYielding && WellScopedStmts(b.stmts, c) && WellScopedElse(els, c)
    case BlockStmt(b) => !b.isYielding && WellScopedStmts(b.stmts, c)
    case Break => c.inLoop
    case Continue => c.inLoop
    case Return(val) =>
      && (val.Some? ==> WellScopedExpr(val.value, c))
      && ReturnIsAccepted(val, c.fn)
      && (c.rule.Accepted? || ReturnFits(val, c.fn, c.inMatch))
    case Yield(e) => c.canYield && WellScopedExpr(e, c)
  }

  // ----- Dynamic meaning -----

  datatype State = State(vars: map<string, int>, trace: seq<int>)

  /**
   `Unmatched`: a match on an enum with an underlying type met a value that no case names. The type
   checker asks for the variants only, but a cast can make such values of other numbers.
   `EndReached`: a function ended without the value it should return. `Stuck` marks all other runs
   without a meaning: a void value used as a number, any other match without an accepting case, and
   a block within an expression that ended without the value it should give.
   */
  datatype Outcome =
    | Normal
    | Broke
    | Continued
    | Returned(v: Value)
    | Yielded(v: Value)
    | Aborted
    | Timeout
    | Unmatched
    | EndReached
    | Stuck

  datatype Eval = Val(v: Value) | Exit(o: Outcome)

  predicate IsInt(r: Eval) {
    r.Val? && r.v.Int?
  }

  function Propagate(r: Eval): Outcome {
    if r.Exit? then r.o else Stuck
  }

  function Lookup(s: State, x: string): int {
    if x in s.vars then s.vars[x] else 0
  }

  function Apply(op: BinOp, a: int, b: int): int {
    match op
    case Add => a + b
    case Less => if a < b then 1 else 0
    case And => if b != 0 then 1 else 0
  }

  predicate Accepts(p: Pattern, v: int) {
    match p
    case Variant(index) => v == index
    case Equals(n) => v == n
    case InRange(from, to) => (from.Some? ==> v >= from.value) && (to.Some? ==> v < to.value)
    case Instance(derived) => v in derived
    case CatchAll => true
  }

  /** The first case that accepts `v`, in source order. */
  function Select(cases: Cases, v: int): (r: Option<MatchBody>)
    ensures r.Some? ==> (cases decreases to r.value)
  {
    match cases
    case NoCase => None
    case Case(pattern, body, rest) => if Accepts(pattern, v) then Some(body) else Select(rest, v)
  }

  /** Whether the cases name the number `v`. */
  predicate NamesVariant(cases: Cases, v: int) {
    cases.Case? && ((cases.pattern.Variant? && cases.pattern.index == v) || NamesVariant(cases.rest, v))
  }

  /** Without a catch-all, the cases of an enum match accept the variants they name and nothing else. */
  lemma {:induction false} SelectsNothing(cases: Cases, kind: MatchKind, t: Ty, c: Scope, v: int)
    requires !kind.Generic? && WellScopedCases(cases, kind, t, c)
    ensures Select(cases, v).None? <==> !HasCatchAll(cases) && !NamesVariant(cases, v)
  {
    if cases.Case? {
      SelectsNothing(cases.rest, kind, t, c, v);
    }
  }

  function EvalExpr(e: Expr, s: State, fuel: nat): (Eval, State)
    decreases fuel, e
  {
    match e
    case Lit(n) => (Val(Int(n)), s)
    case Var(x) => (Val(Int(Lookup(s, x))), s)
    case Bin(op, lhs, rhs) =>
      var (l, s1) := EvalExpr(lhs, s, fuel);
      if !IsInt(l) then (Exit(Propagate(l)), s1)
      else if op.And? && l.v.n == 0 then (Val(Int(0)), s1)
      else
        var (r, s2) := EvalExpr(rhs, s1, fuel);
        if !IsInt(r) then (Exit(Propagate(r)), s2) else (Val(Int(Apply(op, l.v.n, r.v.n))), s2)
    case Print(arg) =>
      var (r, s1) := EvalExpr(arg, s, fuel);
      if !IsInt(r) then (Exit(Propagate(r)), s1) else (Val(Void), s1.(trace := s1.trace + [r.v.n]))
    case Abort => (Exit(Aborted), s)
    case Match(kind, t, subject, cases) =>
      var (r, s1) := EvalExpr(subject, s, fuel);
      if !IsInt(r) then (Exit(Propagate(r)), s1)
      else
        var body := Select(cases, r.v.n);
        if body.None? then (Exit(if kind.ValueEnum? then Unmatched else Stuck), s1)
        else EvalBody(body.value, t, s1, fuel)
    case BlockExpr(b) =>
      var (o, s1) := ExecStmts(b.stmts, s, fuel);
      if o.Yielded? && o.v.Int? then (Val(o.v), s1)
      else if o.Yielded? || o.Normal? then (Exit(Stuck), s1)
      else (Exit(o), s1)
  }

  function EvalBody(body: MatchBody, t: Ty, s: State, fuel: nat): (Eval, State)
    decreases fuel, body
  {
    match body
    case BodyExpr(e) =>
      var (r, s1) := EvalExpr(e, s, fuel);
      if r.Val? && r.v.Void? == t.IntTy? then (Exit(Stuck), s1) else (r, s1)
    case BodyBlock(b) =>
      var (o, s1) := ExecStmts(b.stmts, s, fuel);
      if !o.Normal? then (Exit(o), s1)
      else if t.VoidTy? then (Val(Void), s1)
      else (Exit(Stuck), s1)
  }

  function ExecStmts(ss: Stmts, s: State, fuel: nat): (Outcome, State)
    decreases fuel, ss
  {
    match ss
    case Nil => (Normal, s)
    case Cons(head, tail) =>
      var (o, s1) := ExecStmt(head, s, fuel);
      if o.Normal? then ExecStmts(tail, s1, fuel) else (o, s1)
  }

  /** What a loop does after one execution of its body. */
  function AfterBody(o: Outcome): Outcome {
    match o
    case Normal => Continued
    case Broke => Normal
    case _ => o
  }

  function ExecStmt(stmt: Stmt, s: State, fuel: nat): (Outcome, State)
    decreases fuel, stmt
  {
    match stmt
    case ExprStmt(e) =>
      var (r, s1) := EvalExpr(e, s, fuel);
      (if r.Val? then Normal else r.o, s1)
    case Assign(x, e) =>
      var (r, s1) := EvalExpr(e, s, fuel);
      if !IsInt(r) then (Propagate(r), s1) else (Normal, s1.(vars := s1.vars[x := r.v.n]))
    case Loop(b) =>
      var (o, s1) := ExecStmts(b.stmts, s, fuel);
      var after := AfterBody(o);
      if !after.Continued? then (after, s1)
      else if fuel == 0 then (Timeout, s1)
      else ExecStmt(stmt, s1, fuel - 1)
    case While(cond, b) =>
      var (r, s1) := EvalExpr(cond, s, fuel);
      if !IsInt(r) then (Propagate(r), s1)
      else if r.v.n == 0 then (Normal, s1)
      else
        var (o, s2) := ExecStmts(b.stmts, s1, fuel);
        var after := AfterBody(o);
        if !after.Continued? then (after, s2)
        else if fuel == 0 then (Timeout, s2)
        else ExecStmt(stmt, s2, fuel - 1)
    case If(cond, b, els) =>
      var (r, s1) := EvalExpr(cond, s, fuel);
      if !IsInt(r) then (Propagate(r), s1)
      else if r.v.n != 0 then ExecStmts(b.stmts, s1, fuel)
      else if els.ElseStmt? then ExecStmt(els.s, s1, fuel)
      else (Normal, s1)
    case BlockStmt(b) => ExecStmts(b.stmts, s, fuel)
    case Break => (Broke, s)
    case Continue => (Continued, s)
    case Return(None) => (Returned(Void), s)
    case Return(Some(e)) =>
      var (r, s1) := EvalExpr(e, s, fuel);
      (if r.Val? then Returned(r.v) else r.o, s1)
    case Yield(e) =>
      var (r, s1) := EvalExpr(e, s, fuel);
      (if r.Val? then Yielded(r.v) else r.o, s1)
  }

  /** A whole function: falling off the end returns nothing, and 0 from `main`. */
  function RunFunction(body: Stmts, fn: Fn, s: State, fuel: nat): (Outcome, State) {
    var (o, s1) := ExecStmts(body, s, fuel);
    (if !o.Normal? then o
     else if fn.isMain then Returned(Int(0))
     else if fn.resultType.VoidTy? then Returned(Void)
     else EndReached, s1)
  }
}
