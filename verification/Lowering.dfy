/**
 What `codegen_statement`, `codegen_block`, `codegen_match` and the functions under
 them emit, as functions from the source to the emitted tree.

 `st` is the control-flow state, `y` the top of `entered_yieldable_blocks`, and
 `Gen` holds the two fresh-name counters, which every function hands on.
 */
module Lowering {
  import opened Wrappers
  import opened ControlFlow
  import opened Jakt
  import opened Cpp

  datatype Slot = Slot(name: nat, yieldLabel: nat)

  datatype Gen = Gen(vars: nat, labels: nat)

  /** The forwarding macro that `apply_control_flow_macro` puts around a match. */
  function ReturnForwarding(st: ControlFlowState, fn: Fn): ForwardReturn {
    if st.indirectlyInsideMatch && fn.SeemsVoid() then NakedBraces else ReleaseReturn
  }

  function LoopForwarding(st: ControlFlowState): ForwardLoops {
    if !AreLoopExitsAllowed(st.allowedExits) then NoLoopTests
    else if st.directlyInsideMatch then ExitObjects
    else PlainExits
  }

  function LowerExpr(e: Expr, st: ControlFlowState, fn: Fn, y: Option<Slot>, g: Gen): (CExpr, Gen) {
    match e
    case Lit(n) => (CLit(n), g)
    case Var(x) => (CVar(x), g)
    case Bin(op, l, r) =>
      var (l', g1) := LowerExpr(l, st, fn, y, g);
      var (r', g2) := LowerExpr(r, st, fn, y, g1);
      (CBin(op, l', r'), g2)
    case Print(arg) =>
      var (arg', g1) := LowerExpr(arg, st, fn, y, g);
      (CPrint(arg'), g1)
    case Abort => (CAbort, g)
    case Match(kind, t, subject, cases) =>
      // An enum match first generates its subject into a scratch builder, which only moves the counters on.
      var (_, g0) := if kind.Generic? then (CAbort, g) else LowerExpr(subject, st.EnterMatch(), fn, y, g);
      var (subject', g1) := LowerExpr(subject, st.EnterMatch(), fn, y, g0);
      var (body, g2) := LowerDispatch(kind, t, cases, st.EnterMatch(), fn, y, g1);
      (CMatch(!t.IntTy?, subject', body, ReturnForwarding(st, fn), LoopForwarding(st)), g2)
    case BlockExpr(b) =>
      var (b', g1) := LowerBlock(b, st, fn, y, g);
      (CBlockExpr(b'), g1)
  }

  /** The statements of the lambda after its subject. */
  function LowerDispatch(kind: MatchKind, t: Ty, cases: Cases, st: ControlFlowState, fn: Fn, y: Option<Slot>,
          g: Gen): (CStmts, Gen)
    decreases cases, 1
  {
    if kind.Generic? then
      var (pieces, g1) := LowerPieces(cases, true, t, st, fn, y, g);
      (CCons(CChain(pieces), ChainEnd(t, HasCatchAll(cases))), g1)
    else
      var (cases', g1) := LowerCases(cases, t, st, fn, y, g);
      (One(CSwitch(if kind.SumEnum? && !HasCatchAll(cases) then WithDefault(cases') else cases')), g1)
  }

  function ChainEnd(t: Ty, hasDefault: bool): CStmts {
    if t.VoidTy? then One(CReturn(RetExplicitVoid))
    else if !hasDefault then One(CUnreachable)
    else CNil
  }

  /** `default: VERIFY_NOT_REACHED();` after the last case. */
  function WithDefault(cases: CCases): CCases {
    match cases
    case CNoCase => CDefault(One(CUnreachable), CNoCase)
    case CCase(index, body, rest) => CCase(index, body, WithDefault(rest))
    case CDefault(body, rest) => CDefault(body, WithDefault(rest))
  }

  function LowerPieces(cases: Cases, first: bool, t: Ty, st: ControlFlowState, fn: Fn, y: Option<Slot>,
          g: Gen): (CPieces, Gen)
    decreases cases, 0
  {
    match cases
    case NoCase => (CNoPiece, g)
    case Case(pattern, body, rest) =>
      var (body', g1) := LowerBody(body, t, st, fn, y, g);
      var (rest', g2) := LowerPieces(rest, false, t, st, fn, y, g1);
      (Piece(pattern, body', rest', first), g2)
  }

  /** Only value patterns and the catch-all are chained with `else`. */
  function Piece(pattern: Pattern, body: CStmts, rest: CPieces, first: bool): CPieces {
    if pattern.Variant? || pattern.Instance? then IfPiece(Test(pattern), body, rest)
    else if pattern.CatchAll? then (if first then BracePiece(body, rest) else ElsePiece(body, rest))
    else if first then IfPiece(Test(pattern), body, rest)
    else ElseIfPiece(Test(pattern), body, rest)
  }

  function Test(pattern: Pattern): CTest
    requires !pattern.CatchAll?
  {
    match pattern
    case Variant(index) => HasIndex(index)
    case Instance(derived) => IsInstance(derived)
    case Equals(n) => Compared([EqualTo(n)])
    case InRange(from, to) =>
      Compared((if from.Some? then [AtLeast(from.value)] else []) + (if to.Some? then [LessThan(to.value)] else []))
  }

  /** The emitted test is the pattern's meaning but for a range without any bound, which the type checker rejects. */
  lemma TestsMean(pattern: Pattern)
    requires !pattern.CatchAll?
    ensures (forall v :: Passes(Test(pattern), v) <==> Accepts(pattern, v)) <==> !(pattern.InRange? && pattern.from.None? && pattern.to.None?)
  {
    if pattern.InRange? {
      RangeTestMeans(pattern.from, pattern.to);
    } else if pattern.Equals? {
      var tests := Test(pattern).comparisons;
      assert tests[0] == EqualTo(pattern.n);
    }
  }

  lemma RangeTestMeans(from: Option<int>, to: Option<int>)
    ensures from.None? && to.None? ==> Accepts(InRange(from, to), 0) && !Passes(Test(InRange(from, to)), 0)
    ensures from.Some? || to.Some? ==> forall v :: Passes(Test(InRange(from, to)), v) <==> Accepts(InRange(from, to), v)
  {
    var tests := Test(InRange(from, to)).comparisons;
    if from.Some? && to.Some? {
      assert tests[0] == AtLeast(from.value) && tests[1] == LessThan(to.value);
    } else if from.Some? {
      assert tests[0] == AtLeast(from.value);
    } else if to.Some? {
      assert tests[0] == LessThan(to.value);
    }
  }

  function LowerCases(cases: Cases, t: Ty, st: ControlFlowState, fn: Fn, y: Option<Slot>, g: Gen): (CCases, Gen)
    decreases cases, 0
  {
    match cases
    case NoCase => (CNoCase, g)
    case Case(pattern, body, rest) =>
      var (body', g1) := LowerBody(body, t, st, fn, y, g);
      var (rest', g2) := LowerCases(rest, t, st, fn, y, g1);
      (if pattern.Variant? then CCase(pattern.index, body', rest') else CDefault(body', rest'), g2)
  }

  function LowerBody(body: MatchBody, t: Ty, st: ControlFlowState, fn: Fn, y: Option<Slot>, g: Gen): (CStmts, Gen) {
    match body
    case BodyBlock(b) =>
      var (b', g1) := LowerBlock(b, st, fn, y, g);
      (CCons(CBlockStmt(b'), if t.VoidTy? then One(CReturn(RetExplicitVoid)) else CNil), g1)
    case BodyExpr(e) =>
      var (e', g1) := LowerExpr(e, st, fn, y, g);
      (One(CReturn(if IsVoidOrNever(e) then RetCommaExplicitVoid(e') else RetExplicit(e'))), g1)
  }

  /** A yielding block takes a fresh slot and label and is the target of the yields inside it. */
  function LowerBlock(b: Block, st: ControlFlowState, fn: Fn, y: Option<Slot>, g: Gen): (CBlock, Gen) {
    if b.isYielding then
      var own := Slot(g.vars, g.labels);
      var (body, g1) := LowerStmts(b.stmts, st, fn, Some(own), Gen(g.vars + 1, g.labels + 1));
      (CYielding(own.name, own.yieldLabel, body), g1)
    else
      var (body, g1) := LowerStmts(b.stmts, st, fn, y, g);
      (CBraces(body), g1)
  }

  function LowerStmts(ss: Stmts, st: ControlFlowState, fn: Fn, y: Option<Slot>, g: Gen): (CStmts, Gen) {
    match ss
    case Nil => (CNil, g)
    case Cons(s, rest) =>
      var (s', g1) := LowerStmt(s, st, fn, y, g);
      var (rest', g2) := LowerStmts(rest, st, fn, y, g1);
      (Append(s', rest'), g2)
  }

  function LowerElse(els: Else, st: ControlFlowState, fn: Fn, y: Option<Slot>, g: Gen): (CElse, Gen) {
    match els
    case NoElse => (CNoElse, g)
    case ElseStmt(s) =>
      var (s', g1) := LowerStmt(s, st, fn, y, g);
      (CElseStmt(s'), g1)
  }

  function LowerStmt(s: Stmt, st: ControlFlowState, fn: Fn, y: Option<Slot>, g: Gen): (CStmts, Gen) {
    match s
    case ExprStmt(e) =>
      var (e', g1) := LowerExpr(e, st, fn, y, g);
      (One(CExprStmt(e')), g1)
    case Assign(x, e) =>
      var (e', g1) := LowerExpr(e, st, fn, y, g);
      (One(CAssign(x, e')), g1)
    case Loop(b) =>
      var (b', g1) := LowerBlock(b, st.EnterLoop(), fn, y, g);
      (One(CFor(b')), g1)
    case While(cond, b) =>
      var (cond', g1) := LowerExpr(cond, st, fn, y, g);
      var (b', g2) := LowerBlock(b, st.EnterLoop(), fn, y, g1);
      (One(CWhile(cond', b')), g2)
    case If(cond, b, els) =>
      var (cond', g1) := LowerExpr(cond, st, fn, y, g);
      var (b', g2) := LowerBlock(b, st, fn, y, g1);
      var (els', g3) := LowerElse(els, st, fn, y, g2);
      (One(CIf(cond', b', els')), g3)
    case BlockStmt(b) =>
      var (b', g1) := LowerBlock(b, st, fn, y, g);
      (One(CBlockStmt(b')), g1)
    case Break => (One(if st.directlyInsideMatch then CReturn(RetLoopBreak) else CBreak), g)
    case Continue => (One(if st.directlyInsideMatch then CReturn(RetLoopContinue) else CContinue), g)
    case Return(None) =>
      (One(CReturn(if fn.canThrow || st.indirectlyInsideMatch then RetBraces else RetNaked)), g)
    case Return(Some(e)) =>
      var (e', g1) := LowerExpr(e, st, fn, y, g);
      (if fn.canThrow && IsVoidOrNever(e) then CCons(CExprStmt(e'), One(CReturn(RetBraces)))
       else One(CReturn(RetExpr(e'))), g1)
    case Yield(e) =>
      // Outside any yieldable block the generator panics; well-scoped programs never get there.
      var (e', g1) := LowerExpr(e, st, fn, y, g);
      (if y.Some? then CCons(CSetSlot(y.value.name, e'), One(CGoto(y.value.yieldLabel))) else One(CUnreachable), g1)
  }

  function LowerFunction(body: Stmts, fn: Fn, g: Gen): (CStmts, Gen) {
    LowerStmts(body, ControlFlowState.NoControlFlow().EnterFunction(), fn, None, g)
  }
}
