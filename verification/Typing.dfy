/**
 Programs whose values have types: with the type checker's own rules for the ends of blocks, they
 never get stuck, so that nothing is left out of what the lowering preserves for them.
 */
module Typing {
  import opened Wrappers
  import opened ControlFlow
  import opened Jakt
  import opened Cpp
  import opened Lowering
  import opened Placement
  import opened Preservation
  import opened BlockFlow

  /** The values of a type: numbers, variants of a sum enum, or the numbers and class ids listed. */
  datatype Domain = Anything | Below(n: nat) | OneOf(all: set<int>)

  predicate Has(d: Domain, v: int) {
    match d
    case Anything => true
    case Below(n) => 0 <= v < n
    case OneOf(all) => v in all
  }

  /**
   The types of the variables and of the value that is yielded. With `total`, matches on enums with
   an underlying type cover all values of their subject's type as other matches do.
   */
  datatype Env = Env(vars: map<string, Domain>, yieldType: Domain, total: bool)

  ghost predicate TypedState(s: State, env: Env) {
    forall x :: x in env.vars ==> Has(env.vars[x], Lookup(s, x))
  }

  ghost predicate Covers(cases: Cases, d: Domain) {
    forall v :: Has(d, v) ==> Select(cases, v).Some?
  }

  /** Void values are not used as numbers, and if `e` gives a number, it is one of `d`. */
  ghost predicate TypedExpr(e: Expr, d: Domain, env: Env) {
    match e
    case Lit(n) => Has(d, n)
    case Var(x) => x in env.vars && (d.Anything? || env.vars[x] == d)
    case Bin(op, l, r) =>
      && TypeOf(l).IntTy? && TypedExpr(l, Anything, env)
      && TypeOf(r).IntTy? && TypedExpr(r, Anything, env)
      && (d.Anything? || (!op.Add? && Has(d, 0) && Has(d, 1)))
    case Print(arg) => TypeOf(arg).IntTy? && TypedExpr(arg, Anything, env)
    case Abort => true
    case Match(kind, t, subject, cases) =>
      && TypeOf(subject).IntTy?
      && (exists sd :: TypedExpr(subject, sd, env) && ((kind.ValueEnum? && !env.total) || Covers(cases, sd)))
      && TypedCases(cases, t, d, env)
    case BlockExpr(b) => TypedStmts(b.stmts, env.(yieldType := d)) && FlowOfStmts(b.stmts, MayReturn).IsDefinite()
  }

  ghost predicate TypedCases(cases: Cases, t: Ty, d: Domain, env: Env) {
    cases.Case? ==> TypedBody(cases.body, t, d, env) && TypedCases(cases.rest, t, d, env)
  }

  /** A block that may reach its end makes a match void. */
  ghost predicate TypedBody(body: MatchBody, t: Ty, d: Domain, env: Env) {
    match body
    case BodyBlock(b) => TypedStmts(b.stmts, env) && (t.VoidTy? || FlowOfStmts(b.stmts, MayReturn).IsDefinite())
    case BodyExpr(e) => TypeOf(e) == t && TypedExpr(e, d, env)
  }

  ghost predicate TypedStmts(ss: Stmts, env: Env) {
    ss.Cons? ==> TypedStmt(ss.head, env) && TypedStmts(ss.tail, env)
  }

  ghost predicate TypedStmt(s: Stmt, env: Env) {
    match s
    case ExprStmt(e) => TypedExpr(e, Anything, env)
    case Assign(x, e) => TypeOf(e).IntTy? && x in env.vars && TypedExpr(e, env.vars[x], env)
    case Loop(b) => TypedStmts(b.stmts, env)
    case While(cond, b) => TypeOf(cond).IntTy? && TypedExpr(cond, Anything, env) && TypedStmts(b.stmts, env)
    case If(cond, b, els) =>
      && TypeOf(cond).IntTy? && TypedExpr(cond, Anything, env) && TypedStmts(b.stmts, env)
      && (els.ElseStmt? ==> TypedStmt(els.s, env))
    case BlockStmt(b) => TypedStmts(b.stmts, env)
    case Break => true
    case Continue => true
    case Return(val) => val.Some? ==> TypedExpr(val.value, Anything, env)
    case Yield(e) => TypeOf(e).IntTy? && TypedExpr(e, env.yieldType, env)
  }

  /** The type checker's last look at a function: is there a value behind its last statement, if it needs one? */
  ghost predicate TypedFunction(body: Stmts, fn: Fn, env: Env) {
    && TypedStmts(body, env)
    && (fn.isMain || fn.resultType.VoidTy? || FlowOfStmts(body, MayReturn).IsDefinite())
  }

  // ----- Types are kept -----

  ghost predicate TypedOutcome(o: Outcome, env: Env) {
    && !o.Stuck? && !o.EndReached?
    && (o.Yielded? ==> o.v.Int? && Has(env.yieldType, o.v.n))
    && (env.total ==> !o.Unmatched?)
  }

  ghost predicate TypedEval(r: Eval, t: Ty, d: Domain, env: Env) {
    match r
    case Val(v) => !t.NeverTy? && v.Int? == t.IntTy? && (v.Int? ==> Has(d, v.n))
    case Exit(o) => !o.Normal? && TypedOutcome(o, env)
  }

  lemma {:induction false} ExprKeepsTypes(e: Expr, d: Domain, env: Env, s: State, fuel: nat)
    requires TypedExpr(e, d, env) && EverywhereInExpr(e, LosesNoBreak) && TypedState(s, env)
    ensures var (r, s1) := EvalExpr(e, s, fuel);
            TypedState(s1, env) && TypedEval(r, TypeOf(e), d, env)
    decreases fuel, e, 1
  {
    match e
    case Bin(_, l, r) =>
      ExprKeepsTypes(l, Anything, env, s, fuel);
      ExprKeepsTypes(r, Anything, env, EvalExpr(l, s, fuel).1, fuel);
    case Print(arg) => ExprKeepsTypes(arg, Anything, env, s, fuel);
    case Match(_, _, _, _) => MatchKeepsTypes(e, d, env, s, fuel);
    case BlockExpr(b) =>
      StmtsKeepTypes(b.stmts, env.(yieldType := d), s, fuel);
      RunsWithin(b.stmts, s, fuel);
      DefiniteStmts(b.stmts, MayReturn);
    case _ =>
  }

  lemma {:induction false} MatchKeepsTypes(e: Expr, d: Domain, env: Env, s: State, fuel: nat)
    requires e.Match? && TypedExpr(e, d, env) && EverywhereInExpr(e, LosesNoBreak) && TypedState(s, env)
    ensures var (r, s1) := EvalExpr(e, s, fuel);
            TypedState(s1, env) && TypedEval(r, e.t, d, env)
    decreases fuel, e, 0
  {
    var sd :| TypedExpr(e.subject, sd, env) && ((e.kind.ValueEnum? && !env.total) || Covers(e.cases, sd));
    ExprKeepsTypes(e.subject, sd, env, s, fuel);
    var (r, s1) := EvalExpr(e.subject, s, fuel);
    if IsInt(r) && Select(e.cases, r.v.n).Some? {
      CasesKeepTypes(e.cases, e.t, r.v.n, d, env, s1, fuel);
    }
  }

  lemma {:induction false} CasesKeepTypes(cases: Cases, t: Ty, v: int, d: Domain, env: Env, s: State, fuel: nat)
    requires Select(cases, v).Some?
    requires TypedCases(cases, t, d, env) && EverywhereInCases(cases, LosesNoBreak) && TypedState(s, env)
    ensures var (r, s1) := EvalBody(Select(cases, v).value, t, s, fuel);
            TypedState(s1, env) && TypedEval(r, t, d, env)
    decreases fuel, cases, 0
  {
    if Accepts(cases.pattern, v) {
      match cases.body
      case BodyBlock(b) =>
        StmtsKeepTypes(b.stmts, env, s, fuel);
        RunsWithin(b.stmts, s, fuel);
        DefiniteStmts(b.stmts, MayReturn);
      case BodyExpr(e) => ExprKeepsTypes(e, d, env, s, fuel);
    } else {
      CasesKeepTypes(cases.rest, t, v, d, env, s, fuel);
    }
  }

  lemma {:induction false} StmtsKeepTypes(ss: Stmts, env: Env, s: State, fuel: nat)
    requires TypedStmts(ss, env) && EverywhereIn(ss, LosesNoBreak) && TypedState(s, env)
    ensures var (o, s1) := ExecStmts(ss, s, fuel);
            TypedState(s1, env) && TypedOutcome(o, env)
    decreases fuel, ss, 0
  {
    if ss.Cons? {
      StmtKeepsTypes(ss.head, env, s, fuel);
      StmtsKeepTypes(ss.tail, env, ExecStmt(ss.head, s, fuel).1, fuel);
    }
  }

  lemma {:induction false} StmtKeepsTypes(stmt: Stmt, env: Env, s: State, fuel: nat)
    requires TypedStmt(stmt, env) && Everywhere(stmt, LosesNoBreak) && TypedState(s, env)
    ensures var (o, s1) := ExecStmt(stmt, s, fuel);
            TypedState(s1, env) && TypedOutcome(o, env)
    decreases fuel, stmt, 0
  {
    match stmt
    case ExprStmt(e) => ExprKeepsTypes(e, Anything, env, s, fuel);
    case Assign(x, e) => ExprKeepsTypes(e, env.vars[x], env, s, fuel);
    case Loop(b) =>
      StmtsKeepTypes(b.stmts, env, s, fuel);
      if fuel > 0 {
        StmtKeepsTypes(stmt, env, ExecStmts(b.stmts, s, fuel).1, fuel - 1);
      }
    case While(cond, b) =>
      ExprKeepsTypes(cond, Anything, env, s, fuel);
      var (_, s1) := EvalExpr(cond, s, fuel);
      StmtsKeepTypes(b.stmts, env, s1, fuel);
      if fuel > 0 {
        StmtKeepsTypes(stmt, env, ExecStmts(b.stmts, s1, fuel).1, fuel - 1);
      }
    case If(cond, b, els) =>
      ExprKeepsTypes(cond, Anything, env, s, fuel);
      var (_, s1) := EvalExpr(cond, s, fuel);
      StmtsKeepTypes(b.stmts, env, s1, fuel);
      if els.ElseStmt? {
        StmtKeepsTypes(els.s, env, s1, fuel);
      }
    case BlockStmt(b) => StmtsKeepTypes(b.stmts, env, s, fuel);
    case Return(Some(e)) => ExprKeepsTypes(e, Anything, env, s, fuel);
    case Yield(e) => ExprKeepsTypes(e, env.yieldType, env, s, fuel);
    case _ =>
  }

  /** No run of a typed function gets stuck or misses a value, if the analysis of its block ends loses no break. */
  lemma TypedFunctionsNeverGetStuck(body: Stmts, fn: Fn, env: Env, s: State, fuel: nat)
    requires TypedFunction(body, fn, env) && EverywhereIn(body, LosesNoBreak) && TypedState(s, env)
    ensures TypedOutcome(RunFunction(body, fn, s, fuel).0, env)
  {
    StmtsKeepTypes(body, env, s, fuel);
    RunsWithin(body, s, fuel);
    DefiniteStmts(body, MayReturn);
  }

  /**
   For typed functions nothing is left out: the emitted function, if it is one that C++ takes and
   that receives its loop exits, ends as the source does, with the same variables and effects. It
   faults on a value of an enum that no case names, and not at all if these matches are total too.
   */
  lemma TypedFunctionsKeepTheirMeaning(body: Stmts, fn: Fn, env: Env, g: Gen, s: State, slots: map<nat, Value>, fuel: nat)
    requires WellScopedStmts(body, FunctionScope(fn, Accepted))
    requires TypedFunction(body, fn, env) && EverywhereIn(body, LosesNoBreak) && TypedState(s, env)
    requires PlacedStmts(LowerFunction(body, fn, g).0, FunctionSpot(fn, true))
    ensures var run := RunFunction(body, fn, s, fuel);
            var crun := RunFunctionC(LowerFunction(body, fn, g).0, fn, CState(s, slots), fuel);
            && crun.0 == Finished(run.0) && crun.1.base == run.1
            && (crun.0 == CFault <==> run.0.Unmatched?)
            && (env.total ==> crun.0 != CFault)
  {
    LoweringPreservesMeaning(body, fn, g, s, slots, fuel);
    TypedFunctionsNeverGetStuck(body, fn, env, s, fuel);
  }

  /**
   A break that the analysis loses, in the emitted code: a function that the type checker accepts
   runs off its end.
   */
  lemma LostBreakRunsOffTheEnd(g: Gen, s: State, slots: map<nat, Value>, fuel: nat)
    requires Lookup(s, "y") == 0
    ensures var fn := Declared(IntTy);
            var body := Cons(BREAK_IN_VALUE, Nil);
            && WellScopedStmts(body, FunctionScope(fn, Accepted)) && FlowOfStmts(body, MayReturn) == AlwaysReturns
            && RunFunctionC(LowerFunction(body, fn, g).0, fn, CState(s, slots), fuel).0 == CFault
  {
    var fn, body := Declared(IntTy), Cons(BREAK_IN_VALUE, Nil);
    BreakInValue(s, fuel);
    OneWellScoped(BREAK_IN_VALUE, FunctionScope(fn, Accepted));
    DeclaredReturnsFit(body, FunctionScope(fn, Accepted));
    LoweringPreservesMeaning(body, fn, g, s, slots, fuel);
    OneStatement(BREAK_IN_VALUE, s, fuel);
    hide LowerFunction, ExecStmt, WellScopedStmts, PlacedStmts, RunFunctionC, FlowOfStmt;
  }

  /** `match 0 { A => { loop }  B => 7 }` for an enum of two variants, with a loop that loses a break. */
  const FALLING_CASE := Match(SumEnum(2), IntTy, Lit(0),
    Case(Variant(0), BodyBlock(Block(false, FALLING_BLOCK)), Case(Variant(1), BodyExpr(Lit(7)), NoCase)))

  /**
   In a case of a match, a lost break is worse: the type checker takes the case for one that needs no
   value, and when it ends the switch goes on with the body of the next case, whose value the match
   then has.
   */
  lemma LostBreakRunsTheNextCase(c: Scope, st: ControlFlowState, y: Option<Slot>, g: Gen, s: CState, fuel: nat, cx: Context)
    requires Fits(c, st, y, cx) && c.fn == Declared(IntTy) && Lookup(s.base, "y") == 0
    ensures WellScopedExpr(FALLING_CASE, c) && TypedExpr(FALLING_CASE, Anything, NUMBERS)
    ensures EvalExpr(FALLING_CASE, s.base, fuel).0 == Exit(Stuck)
    ensures EvalC(LowerExpr(FALLING_CASE, st, c.fn, y, g).0, s, fuel, cx).0 == CVal(Int(7))
  {
    FallingIsTyped();
    FallingIsWellScoped(c);
    FallingIsStuck(s.base, fuel);
    FallingRuns(c, st, y, g, s, fuel, cx);
    hide *;
  }

  const NUMBERS := Env(map["x" := Anything, "y" := Anything], Anything, true)

  const FALLING_BLOCK := Cons(BREAK_IN_VALUE, Nil)

  lemma FallingIsTyped()
    ensures TypedExpr(FALLING_CASE, Anything, NUMBERS)
  {
    FallingBlockIsTyped();
    FallingBlockReturns();
    FallingIsCovered();
    assert TypedBody(FALLING_CASE.cases.body, IntTy, Anything, NUMBERS);
    assert TypedCases(FALLING_CASE.cases.rest, IntTy, Anything, NUMBERS);
    hide FALLING_BLOCK, BREAK_IN_VALUE, Covers;
  }

  lemma FallingBlockReturns()
    ensures FlowOfStmts(FALLING_BLOCK, MayReturn) == AlwaysReturns
  {
    var s := State(map["y" := 0], []);
    BreakInValue(s, 0);
    OneStatement(BREAK_IN_VALUE, s, 0);
    hide *;
  }

  lemma FallingBlockIsTyped()
    ensures TypedStmts(FALLING_BLOCK, NUMBERS)
  {
    BreakingMatchIsTyped();
    var ss := BREAK_IN_VALUE.body.stmts;
    hide TypedExpr;
    assert TypedStmts(Nil, NUMBERS);
    VariableIsTyped();
    assert TypedStmts(ss.tail, NUMBERS);
    assert TypedStmt(ss.head, NUMBERS);
    assert TypedStmts(ss, NUMBERS);
  }

  lemma VariableIsTyped()
    ensures TypedExpr(Var("x"), Anything, NUMBERS)
  {
  }

  lemma BreakingMatchIsTyped()
    ensures TypedExpr(BREAK_IN_VALUE.body.stmts.head.e, Anything, NUMBERS)
  {
    var m := BREAK_IN_VALUE.body.stmts.head.e;
    var last := m.cases.rest;
    forall v ensures Select(m.cases, v).Some? {
      assert Select(last, v) == Some(last.body);
    }
    assert Covers(m.cases, Anything);
    assert TypedExpr(m.subject, Anything, NUMBERS);
    assert TypedCases(last, IntTy, Anything, NUMBERS);
    var breaking := Cons(Break, Nil);
    assert FlowOfStmts(breaking, MayReturn) == FlowOfStmts(Nil, AlwaysTransfersControl(true));
    assert TypedStmts(Nil, NUMBERS) && TypedStmts(breaking, NUMBERS);
    assert TypedCases(m.cases, IntTy, Anything, NUMBERS);
  }

  lemma FallingIsCovered()
    ensures TypedExpr(FALLING_CASE.subject, Below(2), NUMBERS) && Covers(FALLING_CASE.cases, Below(2))
  {
    forall v | Has(Below(2), v) ensures Select(FALLING_CASE.cases, v).Some? {
      assert Select(FALLING_CASE.cases, v) == if v == 0 then Some(FALLING_CASE.cases.body) else Select(FALLING_CASE.cases.rest, v);
    }
  }

  lemma FallingBlockIsWellScoped(c: Scope)
    requires c.fn == Declared(IntTy) && !c.rule.Accepted?
    ensures WellScopedStmts(FALLING_BLOCK, c)
  {
    var d, ss := c.EnterLoop(), BREAK_IN_VALUE.body.stmts;
    var m := ss.head.e;
    assert WellScopedStmts(Cons(Break, Nil), d.EnterMatch());
    assert WellScopedCases(m.cases.rest, Generic, IntTy, d.EnterMatch());
    assert WellScopedStmts(ss.tail, d);
    OneWellScoped(BREAK_IN_VALUE, c);
  }

  lemma FallingIsWellScoped(c: Scope)
    requires c.fn == Declared(IntTy) && !c.rule.Accepted?
    ensures WellScopedExpr(FALLING_CASE, c)
  {
    var cases := FALLING_CASE.cases;
    FallingBlockIsWellScoped(c.EnterMatch());
    assert WellScopedCases(cases.rest, SumEnum(2), IntTy, c.EnterMatch());
    assert WellScopedBody(cases.body, IntTy, c.EnterMatch());
    assert CaseCount(cases.rest) == 1 && !HasCatchAll(cases.rest);
    hide BREAK_IN_VALUE;
  }

  lemma FallingIsStuck(s: State, fuel: nat)
    requires Lookup(s, "y") == 0
    ensures EvalExpr(FALLING_CASE, s, fuel).0 == Exit(Stuck)
    ensures ExecStmts(FALLING_BLOCK, s, fuel).0 == Normal
  {
    BreakInValue(s, fuel);
    OneStatement(BREAK_IN_VALUE, s, fuel);
    assert Select(FALLING_CASE.cases, 0) == Some(FALLING_CASE.cases.body);
    assert EvalExpr(FALLING_CASE.subject, s, fuel) == (Val(Int(0)), s);
    hide BREAK_IN_VALUE, ReachesItsEnd;
  }

  /** The emitted switch, the first body of which runs to its end. */
  lemma FallingRuns(c: Scope, st: ControlFlowState, y: Option<Slot>, g: Gen, s: CState, fuel: nat, cx: Context)
    requires Fits(c, st, y, cx) && c.fn == Declared(IntTy) && Lookup(s.base, "y") == 0
    ensures EvalC(LowerExpr(FALLING_CASE, st, c.fn, y, g).0, s, fuel, cx).0 == CVal(Int(7))
  {
    var c', st' := c.EnterMatch(), st.EnterMatch();
    var cx0, cx' := Context(cx.fn, InLambda(false, 0)), Context(cx.fn, InLambda(false, 0));
    var block := LowerStmts(FALLING_BLOCK, st', c.fn, y, g).0;
    FallingLowers(st, c.fn, y, g);
    FitsMatch(c, st, y, cx, false, 0);
    FallingBlockIsWellScoped(c');
    PreservesStmts(FALLING_BLOCK, c', st', y, g, s, fuel, cx');
    FallingIsStuck(s.base, fuel);
    var (co, s1) := ExecC(block, s, fuel, cx');
    assert co == CNormal;
    ForwardingFits(st, c.fn);
    assert ForwardFits(cx.fn, cx.place.InLambda?, ReturnForwarding(st, c.fn));
    hide Fits, SameRun, LowerExpr, LowerStmts, FALLING_CASE, FALLING_BLOCK, BREAK_IN_VALUE, ReturnForwarding, LoopForwarding, ForwardFits;
    FallsThrough(block, s, s1, fuel, cx');
  }

  function FallingSwitch(block: CStmts): CStmt {
    CSwitch(CCase(0, One(CBlockStmt(CBraces(block))), CCase(1, One(CReturn(RetExplicit(CLit(7)))), CDefault(One(CUnreachable), CNoCase))))
  }

  lemma FallingLowers(st: ControlFlowState, fn: Fn, y: Option<Slot>, g: Gen)
    ensures LowerExpr(FALLING_CASE, st, fn, y, g).0 ==
            CMatch(false, CLit(0), One(FallingSwitch(LowerStmts(FALLING_BLOCK, st.EnterMatch(), fn, y, g).0)),
                   ReturnForwarding(st, fn), LoopForwarding(st))
  {
    var cases, st' := FALLING_CASE.cases, st.EnterMatch();
    var (block, g1) := LowerStmts(FALLING_BLOCK, st', fn, y, g);
    assert LowerBlock(Block(false, FALLING_BLOCK), st', fn, y, g) == (CBraces(block), g1);
    assert LowerBody(cases.body, IntTy, st', fn, y, g) == (One(CBlockStmt(CBraces(block))), g1);
    assert LowerBody(cases.rest.body, IntTy, st', fn, y, g1) == (One(CReturn(RetExplicit(CLit(7)))), g1);
    assert LowerCases(NoCase, IntTy, st', fn, y, g1) == (CNoCase, g1);
    assert LowerCases(cases.rest, IntTy, st', fn, y, g1).0 == CCase(1, One(CReturn(RetExplicit(CLit(7)))), CNoCase);
    assert LowerCases(cases, IntTy, st', fn, y, g).0 == CCase(0, One(CBlockStmt(CBraces(block))), CCase(1, One(CReturn(RetExplicit(CLit(7)))), CNoCase));
    assert !HasCatchAll(cases.rest) && !HasCatchAll(cases);
    var last := CCase(1, One(CReturn(RetExplicit(CLit(7)))), CNoCase);
    assert WithDefault(CNoCase) == CDefault(One(CUnreachable), CNoCase);
    assert WithDefault(last) == CCase(1, One(CReturn(RetExplicit(CLit(7)))), WithDefault(CNoCase));
    assert LowerDispatch(SumEnum(2), IntTy, cases, st', fn, y, g).0 == One(FallingSwitch(block));
    assert LowerExpr(Lit(0), st', fn, y, g) == (CLit(0), g);
    hide LowerStmts, LowerDispatch, BREAK_IN_VALUE;
  }

  lemma FallsThrough(block: CStmts, s: CState, s1: CState, fuel: nat, cx: Context)
    requires cx.place == InLambda(false, 0) && ExecC(block, s, fuel, cx) == (CNormal, s1)
    ensures ExecC(One(FallingSwitch(block)), s, fuel, cx) == (CReturned(Explicit(Int(7))), s1)
  {
    var last := CCase(1, One(CReturn(RetExplicit(CLit(7)))), CDefault(One(CUnreachable), CNoCase));
    var all := CCase(0, One(CBlockStmt(CBraces(block))), last);
    RunOne(CBlockStmt(CBraces(block)), s, fuel, cx);
    RunOne(CReturn(RetExplicit(CLit(7))), s1, fuel, cx);
    assert EvalC(CLit(7), s1, fuel, cx) == (CVal(Int(7)), s1);
    assert FallThrough(last, s1, fuel, cx) == (CReturned(Explicit(Int(7))), s1);
    assert FallThrough(all, s, fuel, cx) == (CReturned(Explicit(Int(7))), s1);
    assert Entry(all, 0) == all;
    RunOne(FallingSwitch(block), s, fuel, cx);
  }

  lemma OneStatement(stmt: Stmt, s: State, fuel: nat)
    ensures ExecStmts(Cons(stmt, Nil), s, fuel) == ExecStmt(stmt, s, fuel)
    ensures FlowOfStmts(Cons(stmt, Nil), MayReturn) == FlowOfStmt(stmt)
  {
    var (o, s1) := ExecStmt(stmt, s, fuel);
    assert ExecStmts(Nil, s1, fuel) == (Normal, s1);
  }
}
