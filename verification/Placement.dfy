/**
 Static facts about every emitted tree, run or not: which programs are emitted as C++ whose
 returns fit their places, and which also as C++ where each `break` and `continue` binds to a
 loop of its own lambda and each exit object that leaves a lambda meets a test for it. Every
 `goto` aims at the innermost yielding block of its lambda, and every `else` follows an `if`.
 */
module Placement {
  import opened Wrappers
  import opened ControlFlow
  import opened Jakt
  import opened Cpp
  import opened Lowering

  /** What a plain `break` at this spot would leave. */
  datatype Binder = NoBinder | LoopBinder | SwitchBinder

  /** The lambda around a spot, and what is done with the loop exits it hands back. */
  datatype Lambda = Lambda(isVoid: bool, onLoop: ForwardLoops)

  /** `innermost` is the innermost yielding block of the same lambda; with `exits`, loop exits are looked at too. */
  datatype Spot = Spot(fn: Fn, binder: Binder, lambda: Option<Lambda>, innermost: Option<Slot>, exits: bool) {
    function InLoop(): Spot { this.(binder := LoopBinder) }
    function InSwitch(): Spot { this.(binder := SwitchBinder) }
    function InYielding(own: Slot): Spot { this.(innermost := Some(own)) }
    function Inside(isVoid: bool, onLoop: ForwardLoops): Spot {
      Spot(fn, NoBinder, Some(Lambda(isVoid, onLoop)), None, exits)
    }

    predicate TakesExplicit(explicitIsVoid: bool) { lambda.Some? && lambda.value.isVoid == explicitIsVoid }
    predicate TakesExitObject() { lambda.Some? && !lambda.value.onLoop.NoLoopTests? }
  }

  function FunctionSpot(fn: Fn, exits: bool): Spot {
    Spot(fn, NoBinder, None, None, exits)
  }

  predicate PlacedExpr(e: CExpr, at: Spot) {
    match e
    case CBin(_, l, r) => PlacedExpr(l, at) && PlacedExpr(r, at)
    case CPrint(arg) => PlacedExpr(arg, at)
    case CMatch(isVoid, subject, body, onReturn, onLoop) =>
      && ForwardFits(at.fn, at.lambda.Some?, onReturn)
      && PlacedExpr(subject, at.Inside(isVoid, onLoop))
      && PlacedStmts(body, at.Inside(isVoid, onLoop))
      && (onLoop.PlainExits? ==> at.binder.LoopBinder?)
      && (onLoop.ExitObjects? ==> at.TakesExitObject())
    case CBlockExpr(b) => b.CYielding? && PlacedStmts(b.body, at.InYielding(Slot(b.slot, b.yieldLabel)))
    case _ => true
  }

  predicate PlacedStmts(ss: CStmts, at: Spot) {
    match ss
    case CNil => true
    case CCons(s, rest) => PlacedStmt(s, at) && PlacedStmts(rest, at)
  }

  predicate PlacedElse(els: CElse, at: Spot) {
    match els
    case CNoElse => true
    case CElseStmt(s) => PlacedStmts(s, at)
  }

  predicate PlacedReturn(form: CReturnForm, at: Spot) {
    match form
    case RetExpr(e) => OperandFits(at.fn, at.lambda.Some?, IsVoidC(e)) && PlacedExpr(e, at)
    case RetExplicit(e) => at.TakesExplicit(false) && !IsVoidC(e) && PlacedExpr(e, at)
    case RetCommaExplicitVoid(e) => at.TakesExplicit(true) && PlacedExpr(e, at)
    case RetExplicitVoid => at.TakesExplicit(true)
    case RetLoopBreak => at.exits ==> at.TakesExitObject()
    case RetLoopContinue => at.exits ==> at.TakesExitObject()
    case RetNaked => NakedFits(at.fn, at.lambda.Some?)
    case RetBraces => BracesFit(at.fn, at.lambda.Some?)
  }

  predicate PlacedStmt(s: CStmt, at: Spot) {
    match s
    case CExprStmt(e) => PlacedExpr(e, at)
    case CAssign(_, e) => PlacedExpr(e, at)
    case CFor(b) => b.CBraces? && PlacedStmts(b.body, at.InLoop())
    case CWhile(cond, b) => PlacedExpr(cond, at) && b.CBraces? && PlacedStmts(b.body, at.InLoop())
    case CIf(cond, b, els) => PlacedExpr(cond, at) && b.CBraces? && PlacedStmts(b.body, at) && PlacedElse(els, at)
    case CBlockStmt(b) => b.CBraces? && PlacedStmts(b.body, at)
    case CBreak => at.exits ==> at.binder.LoopBinder?
    case CContinue => at.exits ==> at.binder.LoopBinder?
    case CReturn(form) => PlacedReturn(form, at)
    case CSetSlot(slot, e) => at.innermost.Some? && at.innermost.value.name == slot && PlacedExpr(e, at)
    case CGoto(target) => at.innermost.Some? && at.innermost.value.yieldLabel == target
    case CSwitch(cases) => at.lambda.Some? && PlacedCases(cases, at.InSwitch())
    case CChain(pieces) => at.lambda.Some? && PlacedPieces(pieces, at, false)
    case CUnreachable => true
  }

  predicate PlacedCases(cases: CCases, at: Spot) {
    match cases
    case CNoCase => true
    case CCase(_, body, rest) => PlacedStmts(body, at) && PlacedCases(rest, at)
    case CDefault(body, rest) => PlacedStmts(body, at) && PlacedCases(rest, at)
  }

  /** Also: every `else` follows an `if`. */
  predicate PlacedPieces(pieces: CPieces, at: Spot, open: bool) {
    match pieces
    case CNoPiece => true
    case IfPiece(_, body, rest) => PlacedStmts(body, at) && PlacedPieces(rest, at, true)
    case ElseIfPiece(_, body, rest) => open && PlacedStmts(body, at) && PlacedPieces(rest, at, true)
    case ElsePiece(body, rest) => open && PlacedStmts(body, at) && PlacedPieces(rest, at, false)
    case BracePiece(body, rest) => PlacedStmts(body, at) && PlacedPieces(rest, at, false)
  }

  /** The spot takes loop exits, in the form they have here, exactly where the state allows them. */
  ghost predicate Offers(at: Spot, c: Scope, st: ControlFlowState, y: Option<Slot>) {
    && c.rule.Accepted? && at.fn == c.fn
    && c.inMatch == st.indirectlyInsideMatch == at.lambda.Some?
    && (st.directlyInsideMatch ==> st.indirectlyInsideMatch)
    && (if st.directlyInsideMatch then at.TakesExitObject() else at.binder.LoopBinder?) == AreLoopExitsAllowed(st.allowedExits)
    && (c.canYield ==> y.Some? && at.innermost == y)
  }

  /** What the source has to satisfy here: with `exits`, the loops that count are those the state knows. */
  function Asked(c: Scope, at: Spot, st: ControlFlowState): Scope {
    if at.exits then c.(rule := Taken, inLoop := AreLoopExitsAllowed(st.allowedExits)) else c.(rule := Fitting)
  }

  lemma LoweredVoidness(e: Expr, st: ControlFlowState, fn: Fn, y: Option<Slot>, g: Gen)
    ensures IsVoidC(LowerExpr(e, st, fn, y, g).0) == IsVoidOrNever(e)
  {
  }

  lemma {:induction false} PlacesExpr(e: Expr, c: Scope, st: ControlFlowState, y: Option<Slot>, g: Gen, at: Spot)
    requires WellScopedExpr(e, c) && Offers(at, c, st, y)
    ensures PlacedExpr(LowerExpr(e, st, c.fn, y, g).0, at) <==> WellScopedExpr(e, Asked(c, at, st))
    decreases e, 1
  {
    match e
    case Bin(_, l, r) =>
      PlacesExpr(l, c, st, y, g, at);
      PlacesExpr(r, c, st, y, LowerExpr(l, st, c.fn, y, g).1, at);
    case Print(arg) => PlacesExpr(arg, c, st, y, g, at);
    case Match(_, _, _, _) => PlacesMatch(e, c, st, y, g, at);
    case BlockExpr(b) =>
      var own := Slot(g.vars, g.labels);
      PlacesStmts(b.stmts, c.EnterYieldingBlock(), st, Some(own), Gen(g.vars + 1, g.labels + 1), at.InYielding(own));
    case _ =>
  }

  /** A match forwards returns in a form for its place exactly when it fits. */
  lemma ForwardingFits(st: ControlFlowState, fn: Fn)
    ensures ForwardFits(fn, st.indirectlyInsideMatch, ReturnForwarding(st, fn)) <==> MatchFits(fn, st.indirectlyInsideMatch)
  {
  }

  /** Inside the lambda of a match the spot offers its exits as objects. */
  lemma OffersInside(t: Ty, c: Scope, st: ControlFlowState, y: Option<Slot>, at: Spot)
    requires Offers(at, c, st, y)
    ensures var at' := at.Inside(!t.IntTy?, LoopForwarding(st));
            && Offers(at', c.EnterMatch(), st.EnterMatch(), y)
            && Asked(c.EnterMatch(), at', st.EnterMatch()) == Asked(c, at, st).EnterMatch()
            && at'.TakesExplicit(!t.IntTy?)
    ensures LoopForwarding(st).PlainExits? ==> at.binder.LoopBinder?
    ensures LoopForwarding(st).ExitObjects? ==> at.TakesExitObject()
  {
  }

  lemma {:induction false} PlacesMatch(e: Expr, c: Scope, st: ControlFlowState, y: Option<Slot>, g: Gen, at: Spot)
    requires e.Match?
    requires WellScopedExpr(e, c) && Offers(at, c, st, y)
    ensures PlacedExpr(LowerExpr(e, st, c.fn, y, g).0, at) <==> WellScopedExpr(e, Asked(c, at, st))
    decreases e, 0
  {
    var Match(kind, t, subject, cases) := e;
    var c', st' := c.EnterMatch(), st.EnterMatch();
    var at' := at.Inside(!t.IntTy?, LoopForwarding(st));
    var g0 := (if kind.Generic? then (CAbort, g) else LowerExpr(subject, st', c.fn, y, g)).1;
    var (subject', g1) := LowerExpr(subject, st', c.fn, y, g0);
    var body := LowerDispatch(kind, t, cases, st', c.fn, y, g1).0;
    var m := CMatch(!t.IntTy?, subject', body, ReturnForwarding(st, c.fn), LoopForwarding(st));
    assert LowerExpr(e, st, c.fn, y, g).0 == m;
    hide LowerExpr, LowerDispatch;
    OffersInside(t, c, st, y, at);
    ForwardingFits(st, c.fn);
    assert at.fn == c.fn && at.lambda.Some? == st.indirectlyInsideMatch == c.inMatch;
    hide ReturnForwarding, ForwardFits, MatchFits, WellScopedCases, Offers, LoopForwarding;
    PlacesExpr(subject, c', st', y, g0, at');
    PlacesDispatch(kind, t, cases, c', st', y, g1, at');
  }

  lemma {:induction false} PlacesDispatch(kind: MatchKind, t: Ty, cases: Cases, c: Scope,
          st: ControlFlowState, y: Option<Slot>, g: Gen, at: Spot)
    requires WellScopedCases(cases, kind, t, c) && Offers(at, c, st, y)
    requires st.directlyInsideMatch && at.TakesExplicit(!t.IntTy?)
    ensures PlacedStmts(LowerDispatch(kind, t, cases, st, c.fn, y, g).0, at) <==> WellScopedCases(cases, kind, t, Asked(c, at, st))
    decreases cases, 1
  {
    if kind.Generic? {
      PlacesPieces(cases, kind, true, false, t, c, st, y, g, at);
      PlacedOne(CReturn(RetExplicitVoid), at);
      PlacedOne(CUnreachable, at);
    } else {
      PlacesCases(cases, kind, t, c, st, y, g, at.InSwitch());
      var (cases', _) := LowerCases(cases, t, st, c.fn, y, g);
      PlacesDefault(cases', at.InSwitch());
      PlacedOne(CSwitch(if kind.SumEnum? && !HasCatchAll(cases) then WithDefault(cases') else cases'), at);
      assert Asked(c, at.InSwitch(), st) == Asked(c, at, st);
    }
  }

  lemma PlacedOne(s: CStmt, at: Spot)
    ensures PlacedStmts(One(s), at) <==> PlacedStmt(s, at)
  {
    assert PlacedStmts(CNil, at);
  }

  lemma {:induction false} PlacesDefault(cases: CCases, at: Spot)
    ensures PlacedCases(WithDefault(cases), at) <==> PlacedCases(cases, at)
  {
    if cases.CNoCase? {
      PlacedOne(CUnreachable, at);
    } else {
      PlacesDefault(cases.rest, at);
    }
  }

  lemma {:induction false} PlacesPieces(cases: Cases, kind: MatchKind, first: bool, open: bool, t: Ty,
          c: Scope, st: ControlFlowState, y: Option<Slot>, g: Gen, at: Spot)
    requires WellScopedCases(cases, kind, t, c) && Offers(at, c, st, y)
    requires st.directlyInsideMatch && at.TakesExplicit(!t.IntTy?)
    requires first || open || cases.NoCase?
    ensures PlacedPieces(LowerPieces(cases, first, t, st, c.fn, y, g).0, at, open) <==> WellScopedCases(cases, kind, t, Asked(c, at, st))
    decreases cases, 0
  {
    if cases.Case? {
      PlacesBody(cases.body, t, c, st, y, g, at);
      var (_, g1) := LowerBody(cases.body, t, st, c.fn, y, g);
      PlacesPieces(cases.rest, kind, false, !cases.pattern.CatchAll?, t, c, st, y, g1, at);
    }
  }

  lemma {:induction false} PlacesCases(cases: Cases, kind: MatchKind, t: Ty, c: Scope, st: ControlFlowState,
          y: Option<Slot>, g: Gen, at: Spot)
    requires WellScopedCases(cases, kind, t, c) && Offers(at, c, st, y)
    requires st.directlyInsideMatch && at.TakesExplicit(!t.IntTy?)
    ensures PlacedCases(LowerCases(cases, t, st, c.fn, y, g).0, at) <==> WellScopedCases(cases, kind, t, Asked(c, at, st))
    decreases cases, 0
  {
    if cases.Case? {
      PlacesBody(cases.body, t, c, st, y, g, at);
      var (_, g1) := LowerBody(cases.body, t, st, c.fn, y, g);
      PlacesCases(cases.rest, kind, t, c, st, y, g1, at);
    }
  }

  lemma {:induction false} PlacesBody(body: MatchBody, t: Ty, c: Scope, st: ControlFlowState, y: Option<Slot>,
          g: Gen, at: Spot)
    requires WellScopedBody(body, t, c) && Offers(at, c, st, y)
    requires st.directlyInsideMatch && at.TakesExplicit(!t.IntTy?)
    ensures PlacedStmts(LowerBody(body, t, st, c.fn, y, g).0, at) <==> WellScopedBody(body, t, Asked(c, at, st))
    decreases body
  {
    match body
    case BodyBlock(b) =>
      PlacesStmts(b.stmts, c, st, y, g, at);
      PlacedOne(CReturn(RetExplicitVoid), at);
      assert PlacedStmts(CNil, at);
    case BodyExpr(e) =>
      PlacesExpr(e, c, st, y, g, at);
      LoweredVoidness(e, st, c.fn, y, g);
      var (e', _) := LowerExpr(e, st, c.fn, y, g);
      PlacedOne(CReturn(if IsVoidOrNever(e) then RetCommaExplicitVoid(e') else RetExplicit(e')), at);
  }

  lemma {:induction false} PlacedAppend(a: CStmts, b: CStmts, at: Spot)
    ensures PlacedStmts(Append(a, b), at) <==> PlacedStmts(a, at) && PlacedStmts(b, at)
  {
    if a.CCons? {
      PlacedAppend(a.tail, b, at);
    }
  }

  lemma {:induction false} PlacesStmts(ss: Stmts, c: Scope, st: ControlFlowState, y: Option<Slot>, g: Gen, at: Spot)
    requires WellScopedStmts(ss, c) && Offers(at, c, st, y)
    ensures PlacedStmts(LowerStmts(ss, st, c.fn, y, g).0, at) <==> WellScopedStmts(ss, Asked(c, at, st))
    decreases ss
  {
    if ss.Cons? {
      PlacesStmt(ss.head, c, st, y, g, at);
      var (head', g1) := LowerStmt(ss.head, st, c.fn, y, g);
      PlacesStmts(ss.tail, c, st, y, g1, at);
      PlacedAppend(head', LowerStmts(ss.tail, st, c.fn, y, g1).0, at);
    }
  }

  lemma {:induction false} PlacesStmt(s: Stmt, c: Scope, st: ControlFlowState, y: Option<Slot>, g: Gen, at: Spot)
    requires WellScopedStmt(s, c) && Offers(at, c, st, y)
    ensures PlacedStmts(LowerStmt(s, st, c.fn, y, g).0, at) <==> WellScopedStmt(s, Asked(c, at, st))
    decreases s, 1
  {
    var (out, _) := LowerStmt(s, st, c.fn, y, g);
    if out.CCons? && out.tail.CNil? {
      PlacedOne(out.head, at);
    }
    match s
    case ExprStmt(e) => PlacesExpr(e, c, st, y, g, at);
    case Assign(_, e) => PlacesExpr(e, c, st, y, g, at);
    case Loop(_) => PlacesLoop(s, c, st, y, g, at);
    case While(_, _) => PlacesLoop(s, c, st, y, g, at);
    case If(cond, b, els) =>
      PlacesExpr(cond, c, st, y, g, at);
      var (_, g1) := LowerExpr(cond, st, c.fn, y, g);
      PlacesStmts(b.stmts, c, st, y, g1, at);
      if els.ElseStmt? {
        PlacesStmt(els.s, c, st, y, LowerBlock(b, st, c.fn, y, g1).1, at);
      }
    case BlockStmt(b) => PlacesStmts(b.stmts, c, st, y, g, at);
    case Break =>
    case Continue =>
    case Return(val) => PlacesReturn(val, c, st, y, g, at);
    case Yield(e) =>
      PlacesExpr(e, c, st, y, g, at);
      PlacedOne(CGoto(y.value.yieldLabel), at);
  }

  /** The condition is emitted at the outer spot, the body at one where plain exits leave the loop. */
  lemma {:induction false} PlacesLoop(s: Stmt, c: Scope, st: ControlFlowState, y: Option<Slot>, g: Gen, at: Spot)
    requires s.Loop? || s.While?
    requires WellScopedStmt(s, c) && Offers(at, c, st, y)
    ensures PlacedStmts(LowerStmt(s, st, c.fn, y, g).0, at) <==> WellScopedStmt(s, Asked(c, at, st))
    decreases s, 0
  {
    PlacedOne(LowerStmt(s, st, c.fn, y, g).0.head, at);
    assert Asked(c.EnterLoop(), at.InLoop(), st.EnterLoop()) == Asked(c, at, st).EnterLoop();
    if s.Loop? {
      PlacesStmts(s.body.stmts, c.EnterLoop(), st.EnterLoop(), y, g, at.InLoop());
    } else {
      PlacesExpr(s.cond, c.EnterCondition(), st, y, g, at);
      assert Asked(c.EnterCondition(), at, st) == Asked(c, at, st).EnterCondition();
      PlacesStmts(s.body.stmts, c.EnterLoop(), st.EnterLoop(), y, LowerExpr(s.cond, st, c.fn, y, g).1, at.InLoop());
    }
  }

  lemma {:induction false} PlacesReturn(val: Option<Expr>, c: Scope, st: ControlFlowState, y: Option<Slot>, g: Gen, at: Spot)
    requires WellScopedStmt(Return(val), c) && Offers(at, c, st, y)
    ensures PlacedStmts(LowerStmt(Return(val), st, c.fn, y, g).0, at) <==> WellScopedStmt(Return(val), Asked(c, at, st))
    decreases Return(val), 0
  {
    match val
    case None =>
      PlacedOne(CReturn(if c.fn.canThrow || st.indirectlyInsideMatch then RetBraces else RetNaked), at);
    case Some(e) =>
      PlacesExpr(e, c, st, y, g, at);
      LoweredVoidness(e, st, c.fn, y, g);
      PlacedOne(CReturn(RetExpr(LowerExpr(e, st, c.fn, y, g).0)), at);
      PlacedOne(CReturn(RetBraces), at);
  }

  /**
   For every function that the type checker accepts: its emitted returns and forwarded returns fit
   their places exactly when those of the source fit the emitted type. And besides, no loop exit is
   lost, captured by a switch, or left without a test when it leaves a lambda, exactly when the
   source has no exit from an outermost loop in that loop's condition.
   */
  lemma ExitsBindToTheirTargets(body: Stmts, fn: Fn, g: Gen)
    requires WellScopedStmts(body, FunctionScope(fn, Accepted))
    ensures PlacedStmts(LowerFunction(body, fn, g).0, FunctionSpot(fn, false)) <==> WellScopedStmts(body, FunctionScope(fn, Fitting))
    ensures PlacedStmts(LowerFunction(body, fn, g).0, FunctionSpot(fn, true)) <==> WellScopedStmts(body, FunctionScope(fn, Taken))
  {
    var st := ControlFlowState.NoControlFlow().EnterFunction();
    var c := FunctionScope(fn, Accepted);
    PlacesStmts(body, c, st, None, g, FunctionSpot(fn, false));
    PlacesStmts(body, c, st, None, g, FunctionSpot(fn, true));
    assert Asked(c, FunctionSpot(fn, false), st) == FunctionScope(fn, Fitting);
    assert Asked(c, FunctionSpot(fn, true), st) == FunctionScope(fn, Taken);
  }

  // ----- Returns that the type checker accepts and C++ does not -----

  /**
   When a return that the type checker accepts is emitted in a form that C++ takes in its place. One
   with a number as its operand: in functions with such a result, and in main. Any other one: in
   functions whose result is void or never, apart from main; and if there is an operand, only if
   the function may throw or no match is around.
   */
  lemma ReturnPlacedExactlyWhen(val: Option<Expr>, c: Scope, st: ControlFlowState, y: Option<Slot>, g: Gen, at: Spot)
    requires WellScopedStmt(Return(val), c) && Offers(at, c, st, y)
    requires val.Some? ==> PlacedExpr(LowerExpr(val.value, st, c.fn, y, g).0, at)
    ensures PlacedStmts(LowerStmt(Return(val), st, c.fn, y, g).0, at) <==>
            if val.Some? && TypeOf(val.value).IntTy? then c.fn.isMain || c.fn.resultType.IntTy?
            else !c.fn.isMain && !c.fn.resultType.IntTy? && (val.None? || c.fn.canThrow || !c.inMatch)
  {
    PlacesReturn(val, c, st, y, g, at);
    if val.Some? {
      PlacesExpr(val.value, c, st, y, g, at);
    }
  }

  /** `match 1 { else => { stmt } }` */
  function InMatch(stmt: Stmt, t: Ty): Stmt {
    ExprStmt(Match(Generic, t, Lit(1), Case(CatchAll, BodyBlock(Block(false, Cons(stmt, Nil))), NoCase)))
  }

  /** A bare return in a function whose emitted name is main: it is emitted as `return;`, into ErrorOr<int>. */
  const BARE_IN_MAIN := Cons(Return(None), Nil)

  /** `fn f() { match 1 { else => { return print(0) } } }` */
  const VOID_IN_MATCH := Cons(InMatch(Return(Some(Print(Lit(0)))), VoidTy), Nil)

  /** `fn f() -> never { match 1 { else => { return abort() } } }` */
  const NEVER_IN_MATCH := Cons(InMatch(Return(Some(Abort)), VoidTy), Nil)

  /** A match inside a match of a function renamed to main: it forwards `{}`, and nothing in it returns. */
  const NESTED_IN_MAIN := Cons(InMatch(InMatch(ExprStmt(Lit(0)), VoidTy), VoidTy), Nil)

  /** In an enum, `fn f(this) => match 1 { 0 => { return }  else => 2 }`: its result is taken to be that of the match. */
  const BARE_IN_UNTYPED := Cons(Return(Some(
    Match(Generic, IntTy, Lit(1), Case(Equals(0), BodyBlock(Block(false, Cons(Return(None), Nil))),
          Case(CatchAll, BodyExpr(Lit(2)), NoCase))))), Nil)

  /** In an enum, `fn f(this) { return 5 }`: its result is taken to be void. */
  const VALUE_IN_UNTYPED := Cons(Return(Some(Lit(5))), Nil)

  function Untyped(resultType: Ty): Fn {
    Fn(resultType, false, false, true)
  }

  function Declared(resultType: Ty): Fn {
    Fn(resultType, false, false, false)
  }

  function RenamedToMain(): Fn {
    Fn(VoidTy, false, true, false)
  }

  /** The smallest functions that the type checker accepts and C++ refuses, one for each way. */
  lemma RefusedFunctions(g: Gen)
    ensures RefusedByCpp(BARE_IN_MAIN, RenamedToMain(), g)
    ensures RefusedByCpp(VOID_IN_MATCH, Declared(VoidTy), g)
    ensures RefusedByCpp(NEVER_IN_MATCH, Declared(NeverTy), g)
    ensures RefusedByCpp(NESTED_IN_MAIN, RenamedToMain(), g)
    ensures RefusedByCpp(BARE_IN_UNTYPED, Untyped(IntTy), g)
    ensures RefusedByCpp(VALUE_IN_UNTYPED, Untyped(VoidTy), g)
  {
    BareReturnIsRefused(g);
    ReturnInMatchIsRefused(Some(Print(Lit(0))), Declared(VoidTy), g);
    ReturnInMatchIsRefused(Some(Abort), Declared(NeverTy), g);
    NestedMatchIsRefused(g);
    UntypedBareReturnIsRefused(g);
    UntypedValueIsRefused(g);
  }

  ghost predicate RefusedByCpp(body: Stmts, fn: Fn, g: Gen) {
    && WellScopedStmts(body, FunctionScope(fn, Accepted))
    && !PlacedStmts(LowerFunction(body, fn, g).0, FunctionSpot(fn, false))
  }

  lemma BareReturnIsRefused(g: Gen)
    ensures RefusedByCpp(BARE_IN_MAIN, RenamedToMain(), g)
  {
    ExitsBindToTheirTargets(BARE_IN_MAIN, RenamedToMain(), g);
  }

  lemma OneWellScoped(s: Stmt, c: Scope)
    ensures WellScopedStmts(Cons(s, Nil), c) <==> WellScopedStmt(s, c)
  {
    assert WellScopedStmts(Nil, c);
  }

  lemma InMatchWellScoped(s: Stmt, t: Ty, c: Scope)
    ensures WellScopedStmt(InMatch(s, t), c) <==>
            (c.rule.Accepted? || MatchFits(c.fn, c.inMatch)) && WellScopedStmt(s, c.EnterMatch())
  {
    OneWellScoped(s, c.EnterMatch());
    var arm := BodyBlock(Block(false, Cons(s, Nil)));
    var m := InMatch(s, t).e;
    assert WellScopedBody(arm, t, c.EnterMatch()) <==> WellScopedStmt(s, c.EnterMatch());
    assert WellScopedCases(m.cases, Generic, t, c.EnterMatch()) <==> WellScopedStmt(s, c.EnterMatch());
    assert WellScopedExpr(m.subject, c.EnterMatch());
  }

  lemma ReturnInMatchIsRefused(val: Option<Expr>, fn: Fn, g: Gen)
    requires val == Some(Print(Lit(0))) || val == Some(Abort)
    requires fn == Declared(TypeOf(val.value))
    ensures RefusedByCpp(Cons(InMatch(Return(val), VoidTy), Nil), fn, g)
  {
    var s := InMatch(Return(val), VoidTy);
    OneWellScoped(s, FunctionScope(fn, Accepted));
    OneWellScoped(s, FunctionScope(fn, Fitting));
    InMatchWellScoped(Return(val), VoidTy, FunctionScope(fn, Accepted));
    InMatchWellScoped(Return(val), VoidTy, FunctionScope(fn, Fitting));
    ExitsBindToTheirTargets(Cons(s, Nil), fn, g);
    hide InMatch, LowerFunction, PlacedStmts;
  }

  lemma NestedMatchIsRefused(g: Gen)
    ensures RefusedByCpp(NESTED_IN_MAIN, RenamedToMain(), g)
  {
    var inner := InMatch(ExprStmt(Lit(0)), VoidTy);
    var c, d := FunctionScope(RenamedToMain(), Accepted), FunctionScope(RenamedToMain(), Fitting);
    OneWellScoped(InMatch(inner, VoidTy), c);
    OneWellScoped(InMatch(inner, VoidTy), d);
    InMatchWellScoped(inner, VoidTy, c);
    InMatchWellScoped(ExprStmt(Lit(0)), VoidTy, c.EnterMatch());
    InMatchWellScoped(inner, VoidTy, d);
    InMatchWellScoped(ExprStmt(Lit(0)), VoidTy, d.EnterMatch());
    ExitsBindToTheirTargets(NESTED_IN_MAIN, RenamedToMain(), g);
    hide InMatch, LowerFunction, PlacedStmts;
  }

  lemma UntypedValueIsRefused(g: Gen)
    ensures RefusedByCpp(VALUE_IN_UNTYPED, Untyped(VoidTy), g)
  {
    ExitsBindToTheirTargets(VALUE_IN_UNTYPED, Untyped(VoidTy), g);
  }

  lemma UntypedBareReturnIsRefused(g: Gen)
    ensures RefusedByCpp(BARE_IN_UNTYPED, Untyped(IntTy), g)
  {
    var fn := Untyped(IntTy);
    var c, d := FunctionScope(fn, Accepted), FunctionScope(fn, Fitting);
    var m := BARE_IN_UNTYPED.head.val.value;
    OneWellScoped(Return(None), c.EnterMatch());
    OneWellScoped(Return(None), d.EnterMatch());
    assert !WellScopedBody(m.cases.body, IntTy, d.EnterMatch());
    assert WellScopedBody(m.cases.body, IntTy, c.EnterMatch());
    assert WellScopedCases(m.cases.rest, Generic, IntTy, c.EnterMatch());
    OneWellScoped(Return(Some(m)), c);
    OneWellScoped(Return(Some(m)), d);
    ExitsBindToTheirTargets(BARE_IN_UNTYPED, fn, g);
    hide LowerFunction, PlacedStmts;
  }

  /** A result with values, or a function that may throw and is not main: then nothing is refused. */
  predicate IsPlain(fn: Fn) {
    !fn.isUntypedMethod && (fn.resultType.IntTy? || (fn.canThrow && !fn.isMain))
  }

  /**
   A function with a written result type is refused for none of its returns and matches if that type
   has values, or if it may throw and its emitted name is not main.
   */
  lemma {:induction false} DeclaredReturnsFit(ss: Stmts, c: Scope)
    requires WellScopedStmts(ss, c) && c.rule.Accepted? && IsPlain(c.fn)
    ensures WellScopedStmts(ss, c.(rule := Fitting))
    decreases ss
  {
    if ss.Cons? {
      DeclaredReturnFits(ss.head, c);
      DeclaredReturnsFit(ss.tail, c);
    }
  }

  lemma {:induction false} DeclaredReturnFits(s: Stmt, c: Scope)
    requires WellScopedStmt(s, c) && c.rule.Accepted? && IsPlain(c.fn)
    ensures WellScopedStmt(s, c.(rule := Fitting))
    decreases s
  {
    match s
    case Loop(b) => DeclaredReturnsFit(b.stmts, c.EnterLoop());
    case While(cond, b) =>
      OperandFitsToo(cond, c.EnterLoop());
      DeclaredReturnsFit(b.stmts, c.EnterLoop());
    case If(cond, b, els) =>
      OperandFitsToo(cond, c);
      DeclaredReturnsFit(b.stmts, c);
      if els.ElseStmt? {
        DeclaredReturnFits(els.s, c);
      }
    case BlockStmt(b) => DeclaredReturnsFit(b.stmts, c);
    case ExprStmt(e) => OperandFitsToo(e, c);
    case Assign(_, e) => OperandFitsToo(e, c);
    case Yield(e) => OperandFitsToo(e, c);
    case Return(Some(e)) => OperandFitsToo(e, c);
    case _ =>
  }

  lemma {:induction false} OperandFitsToo(e: Expr, c: Scope)
    requires WellScopedExpr(e, c) && c.rule.Accepted? && IsPlain(c.fn)
    ensures WellScopedExpr(e, c.(rule := Fitting))
    decreases e
  {
    match e
    case Bin(_, l, r) =>
      OperandFitsToo(l, c);
      OperandFitsToo(r, c);
    case Print(arg) => OperandFitsToo(arg, c);
    case Match(kind, t, subject, cases) =>
      OperandFitsToo(subject, c.EnterMatch());
      CasesFitToo(cases, kind, t, c.EnterMatch());
    case BlockExpr(b) => DeclaredReturnsFit(b.stmts, c.EnterYieldingBlock());
    case _ =>
  }

  lemma {:induction false} CasesFitToo(cases: Cases, kind: MatchKind, t: Ty, c: Scope)
    requires WellScopedCases(cases, kind, t, c) && c.rule.Accepted? && IsPlain(c.fn)
    ensures WellScopedCases(cases, kind, t, c.(rule := Fitting))
    decreases cases
  {
    if cases.Case? {
      match cases.body {
        case BodyBlock(b) => DeclaredReturnsFit(b.stmts, c);
        case BodyExpr(e) => OperandFitsToo(e, c);
      }
      CasesFitToo(cases.rest, kind, t, c);
    }
  }
}
