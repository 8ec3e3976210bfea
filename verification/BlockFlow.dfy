/**
 The type checker's control-flow analysis (`BlockControlFlow`): which blocks never reach their
 ends. It decides whether a function may do without a value behind its last statement, and
 whether a case of a match needs one.
 */
module BlockFlow {
  import opened Wrappers
  import opened Jakt

  datatype Way = Returning | Aborting | Transferring

  /** `mightBreak` is meant to say that a break is among the exits. */
  datatype Flow =
    | AlwaysReturns
    | AlwaysTransfersControl(mightBreak: bool)
    | NeverReturns
    | MayReturn
    | PartialAlwaysReturns(mightBreak: bool)
    | PartialAlwaysTransfersControl(mightBreak: bool)
    | PartialNeverReturns(mightBreak: bool)
  {
    predicate IsDefinite() { AlwaysReturns? || AlwaysTransfersControl? || NeverReturns? }

    predicate MayBreak() {
      (PartialAlwaysReturns? || PartialAlwaysTransfersControl? || PartialNeverReturns? || AlwaysTransfersControl?) && mightBreak
    }

    predicate IsPartial() { PartialAlwaysReturns? || PartialAlwaysTransfersControl? || PartialNeverReturns? }

    predicate Transfers() { AlwaysTransfersControl? || PartialAlwaysTransfersControl? }

    predicate Returns() { AlwaysReturns? || PartialAlwaysReturns? }

    /** The way of not reaching the end that the flow names. */
    predicate Names(k: Way) {
      match k
      case Returning => Returns()
      case Aborting => NeverReturns? || PartialNeverReturns?
      case Transferring => Transfers()
    }

    /** What follows is `second`. */
    function UnifyWith(second: Flow): Flow {
      match this
      case NeverReturns => second
      case AlwaysReturns =>
        (match second
         case NeverReturns => AlwaysReturns
         case AlwaysReturns => AlwaysReturns
         case AlwaysTransfersControl(b) => AlwaysTransfersControl(b)
         case MayReturn => MayReturn
         case PartialAlwaysReturns(_) => AlwaysReturns
         case PartialAlwaysTransfersControl(b) => AlwaysTransfersControl(b)
         case PartialNeverReturns(b) => AlwaysTransfersControl(b))
      case AlwaysTransfersControl(a) =>
        AlwaysTransfersControl(a || (second.AlwaysTransfersControl? && second.mightBreak))
      case MayReturn =>
        (match second
         case NeverReturns => MayReturn
         case AlwaysReturns => MayReturn
         case _ => second)
      case PartialAlwaysReturns(a) =>
        (match second
         case PartialAlwaysReturns(b) => PartialAlwaysReturns(a || b)
         case PartialAlwaysTransfersControl(b) => PartialAlwaysTransfersControl(a || b)
         case PartialNeverReturns(b) => PartialAlwaysTransfersControl(a || b)
         case AlwaysReturns => AlwaysReturns
         case NeverReturns => AlwaysTransfersControl(a)
         case AlwaysTransfersControl(b) => AlwaysTransfersControl(a || b)
         case MayReturn => MayReturn)
      case PartialAlwaysTransfersControl(a) =>
        (match second
         case PartialAlwaysReturns(b) => PartialAlwaysTransfersControl(a || b)
         case PartialAlwaysTransfersControl(b) => PartialAlwaysTransfersControl(a || b)
         case PartialNeverReturns(b) => PartialAlwaysTransfersControl(a || b)
         case AlwaysReturns => AlwaysTransfersControl(a)
         case NeverReturns => AlwaysTransfersControl(a)
         case AlwaysTransfersControl(b) => AlwaysTransfersControl(a || b)
         case MayReturn => PartialAlwaysTransfersControl(a))
      case PartialNeverReturns(a) =>
        (match second
         case PartialNeverReturns(b) => PartialNeverReturns(a || b)
         case PartialAlwaysTransfersControl(b) => PartialAlwaysTransfersControl(a || b)
         case PartialAlwaysReturns(b) => PartialAlwaysTransfersControl(a || b)
         case AlwaysReturns => AlwaysTransfersControl(a)
         case NeverReturns => NeverReturns
         case AlwaysTransfersControl(b) => AlwaysTransfersControl(a || b)
         case MayReturn => PartialNeverReturns(a))
    }

    /** The other branch is `second`. */
    function BranchUnifyWith(second: Flow): Flow {
      match this
      case NeverReturns => second
      case AlwaysReturns => if second.NeverReturns? then AlwaysReturns else second
      case MayReturn =>
        (match second
         case NeverReturns => MayReturn
         case AlwaysReturns => MayReturn
         case AlwaysTransfersControl(b) => PartialAlwaysTransfersControl(b)
         case _ => second)
      case PartialNeverReturns(a) =>
        (match second
         case NeverReturns => this
         case AlwaysReturns => this
         case MayReturn => this
         case AlwaysTransfersControl(b) => PartialAlwaysTransfersControl(a || b)
         case PartialNeverReturns(b) => PartialNeverReturns(a || b)
         case PartialAlwaysReturns(b) => PartialAlwaysReturns(a || b)
         case PartialAlwaysTransfersControl(b) => PartialAlwaysTransfersControl(a || b))
      case PartialAlwaysReturns(a) =>
        (match second
         case NeverReturns => this
         case AlwaysReturns => this
         case MayReturn => this
         case AlwaysTransfersControl(b) => PartialAlwaysTransfersControl(a || b)
         case PartialNeverReturns(b) => PartialAlwaysReturns(a || b)
         case PartialAlwaysReturns(b) => PartialAlwaysReturns(a || b)
         case PartialAlwaysTransfersControl(b) => PartialAlwaysTransfersControl(a || b))
      case PartialAlwaysTransfersControl(a) =>
        if second.NeverReturns? || second.AlwaysReturns? || second.MayReturn? then this
        else PartialAlwaysTransfersControl(a || second.mightBreak)
      case AlwaysTransfersControl(a) =>
        (match second
         case NeverReturns => this
         case AlwaysReturns => this
         case MayReturn => PartialAlwaysTransfersControl(a)
         case AlwaysTransfersControl(b) => AlwaysTransfersControl(a || b)
         case PartialNeverReturns(b) => PartialNeverReturns(a || b)
         case PartialAlwaysReturns(b) => PartialAlwaysReturns(a || b)
         case PartialAlwaysTransfersControl(b) => PartialAlwaysTransfersControl(a || b))
    }

    function Updated(second: Flow): Flow {
      if IsDefinite() then this
      else if MayReturn? then second
      else UnifyWith(second)
    }

    function Partial(): Flow {
      match this
      case NeverReturns => PartialNeverReturns(false)
      case AlwaysReturns => PartialAlwaysReturns(false)
      case AlwaysTransfersControl(b) => PartialAlwaysTransfersControl(b)
      case _ => this
    }

    /** Behind a `loop`, given the flow of its block. */
    function Looped(): Flow {
      match this
      case AlwaysTransfersControl(b) => if b then MayReturn else this
      case PartialAlwaysReturns(b) => if b then MayReturn else AlwaysReturns
      case PartialNeverReturns(b) => if b then MayReturn else NeverReturns
      case PartialAlwaysTransfersControl(b) => if b then MayReturn else AlwaysTransfersControl(b)
      case _ => this
    }

    /** Behind a `while true`. */
    function LoopedWhile(): Flow {
      if AlwaysReturns? || NeverReturns? then this else MayReturn
    }
  }

  // ----- The analysis -----

  function FlowOfExpr(e: Expr): Flow {
    match e
    case Match(_, _, _, cases) => FlowOfCases(cases, None)
    case Abort => NeverReturns
    case _ => MayReturn
  }

  /** `before` is the flow of the cases before these. */
  function FlowOfCases(cases: Cases, before: Option<Flow>): Flow {
    match cases
    case NoCase => if before.Some? then before.value else MayReturn
    case Case(_, body, rest) =>
      var flow := FlowOfBody(body);
      FlowOfCases(rest, Some(if before.Some? then before.value.BranchUnifyWith(flow) else flow))
  }

  function FlowOfBody(body: MatchBody): Flow {
    match body
    case BodyBlock(b) => FlowOfStmts(b.stmts, MayReturn)
    case BodyExpr(e) => FlowOfExpr(e)
  }

  /** `before` is the flow of the statements before these. */
  function FlowOfStmts(ss: Stmts, before: Flow): Flow {
    match ss
    case Nil => before
    case Cons(s, rest) => FlowOfStmts(rest, before.Updated(FlowOfStmt(s)))
  }

  function FlowOfStmt(s: Stmt): Flow {
    match s
    case Return(_) => AlwaysReturns
    case Break => AlwaysTransfersControl(true)
    case Continue => AlwaysTransfersControl(false)
    case Yield(e) => FlowOfExpr(e).Updated(AlwaysTransfersControl(false))
    case If(cond, b, els) =>
      var yes := FlowOfStmts(b.stmts, MayReturn);
      if cond.Lit? then
        (if cond.n != 0 then yes else if els.ElseStmt? then FlowOfStmt(els.s) else MayReturn)
      else
        yes.BranchUnifyWith(if els.ElseStmt? then FlowOfStmt(els.s) else yes.Partial())
    case BlockStmt(b) => FlowOfStmts(b.stmts, MayReturn)
    case While(cond, b) =>
      if cond.Lit? && cond.n != 0 then FlowOfStmts(b.stmts, MayReturn).LoopedWhile() else MayReturn
    case Loop(b) => FlowOfStmts(b.stmts, MayReturn).Looped()
    case ExprStmt(e) => FlowOfExpr(e)
    case Assign(_, _) => MayReturn
  }

  // ----- What blocks can do -----

  /** A break in here leaves a loop around it. */
  predicate BreaksExpr(e: Expr) {
    match e
    case Bin(_, l, r) => BreaksExpr(l) || BreaksExpr(r)
    case Print(arg) => BreaksExpr(arg)
    case Match(_, _, subject, cases) => BreaksExpr(subject) || BreaksCases(cases)
    case BlockExpr(b) => BreaksStmts(b.stmts)
    case _ => false
  }

  predicate BreaksCases(cases: Cases) {
    match cases
    case NoCase => false
    case Case(_, BodyBlock(b), rest) => BreaksStmts(b.stmts) || BreaksCases(rest)
    case Case(_, BodyExpr(e), rest) => BreaksExpr(e) || BreaksCases(rest)
  }

  predicate BreaksStmts(ss: Stmts) {
    ss.Cons? && (BreaksStmt(ss.head) || BreaksStmts(ss.tail))
  }

  predicate BreaksStmt(s: Stmt) {
    match s
    case ExprStmt(e) => BreaksExpr(e)
    case Assign(_, e) => BreaksExpr(e)
    case Loop(_) => false
    case While(cond, _) => BreaksExpr(cond)
    case If(cond, b, els) => BreaksExpr(cond) || BreaksStmts(b.stmts) || (els.ElseStmt? && BreaksStmt(els.s))
    case BlockStmt(b) => BreaksStmts(b.stmts)
    case Break => true
    case Continue => false
    case Return(val) => val.Some? && BreaksExpr(val.value)
    case Yield(e) => BreaksExpr(e)
  }

  /** Some way through the expression ends in a value. */
  predicate HasValue(e: Expr) {
    match e
    case Abort => false
    case Match(_, _, _, cases) => SomeCaseHasValue(cases)
    case _ => true
  }

  predicate SomeCaseHasValue(cases: Cases) {
    match cases
    case NoCase => false
    case Case(_, BodyBlock(b), rest) => Completes(b.stmts) || SomeCaseHasValue(rest)
    case Case(_, BodyExpr(e), rest) => HasValue(e) || SomeCaseHasValue(rest)
  }

  /** Some way through the statements reaches their end, if every condition but a literal may come out either way. */
  predicate Completes(ss: Stmts) {
    ss.Cons? ==> CompletesStmt(ss.head) && Completes(ss.tail)
  }

  predicate CompletesStmt(s: Stmt) {
    match s
    case ExprStmt(e) => HasValue(e)
    case Assign(_, _) => true
    case Loop(b) => BreaksStmts(b.stmts)
    case While(cond, b) => cond.Lit? && cond.n != 0 ==> BreaksStmts(b.stmts)
    case If(cond, b, els) =>
      || (!(cond.Lit? && cond.n == 0) && Completes(b.stmts))
      || (!(cond.Lit? && cond.n != 0) && (els.ElseStmt? ==> CompletesStmt(els.s)))
    case BlockStmt(b) => Completes(b.stmts)
    case Break => false
    case Continue => false
    case Return(_) => false
    case Yield(_) => false
  }

  // ----- Runs stay within what blocks can do -----

  /** How an expression or statement of this shape may end. */
  ghost predicate CanEnd(o: Outcome, completes: bool, breaks: bool) {
    (o.Normal? ==> completes) && (o.Broke? ==> breaks)
  }

  lemma {:induction false} RunsWithinExpr(e: Expr, s: State, fuel: nat)
    ensures var r := EvalExpr(e, s, fuel).0;
            (r.Val? ==> HasValue(e)) && (r.Exit? ==> CanEnd(r.o, false, BreaksExpr(e)))
    decreases fuel, e
  {
    match e
    case Bin(_, l, r) =>
      RunsWithinExpr(l, s, fuel);
      RunsWithinExpr(r, EvalExpr(l, s, fuel).1, fuel);
    case Print(arg) => RunsWithinExpr(arg, s, fuel);
    case Match(_, t, subject, cases) =>
      RunsWithinExpr(subject, s, fuel);
      var (r, s1) := EvalExpr(subject, s, fuel);
      if IsInt(r) && Select(cases, r.v.n).Some? {
        RunsWithinCases(cases, t, r.v.n, s1, fuel);
      }
    case BlockExpr(b) => RunsWithin(b.stmts, s, fuel);
    case _ =>
  }

  lemma {:induction false} RunsWithinCases(cases: Cases, t: Ty, v: int, s: State, fuel: nat)
    requires Select(cases, v).Some?
    ensures var r := EvalBody(Select(cases, v).value, t, s, fuel).0;
            (r.Val? ==> SomeCaseHasValue(cases)) && (r.Exit? ==> CanEnd(r.o, false, BreaksCases(cases)))
    decreases fuel, cases
  {
    if Accepts(cases.pattern, v) {
      match cases.body
      case BodyBlock(b) => RunsWithin(b.stmts, s, fuel);
      case BodyExpr(e) => RunsWithinExpr(e, s, fuel);
    } else {
      RunsWithinCases(cases.rest, t, v, s, fuel);
    }
  }

  lemma {:induction false} RunsWithin(ss: Stmts, s: State, fuel: nat)
    ensures CanEnd(ExecStmts(ss, s, fuel).0, Completes(ss), BreaksStmts(ss))
    decreases fuel, ss
  {
    if ss.Cons? {
      RunsWithinStmt(ss.head, s, fuel);
      RunsWithin(ss.tail, ExecStmt(ss.head, s, fuel).1, fuel);
    }
  }

  /** A run reaches the end of a statement, or leaves a loop from it, only where the statement's shape says so. */
  lemma {:induction false} RunsWithinStmt(stmt: Stmt, s: State, fuel: nat)
    ensures CanEnd(ExecStmt(stmt, s, fuel).0, CompletesStmt(stmt), BreaksStmt(stmt))
    decreases fuel, stmt
  {
    match stmt
    case ExprStmt(e) => RunsWithinExpr(e, s, fuel);
    case Assign(_, e) => RunsWithinExpr(e, s, fuel);
    case Loop(b) =>
      RunsWithin(b.stmts, s, fuel);
      if fuel > 0 {
        RunsWithinStmt(stmt, ExecStmts(b.stmts, s, fuel).1, fuel - 1);
      }
    case While(cond, b) =>
      RunsWithinExpr(cond, s, fuel);
      var (_, s1) := EvalExpr(cond, s, fuel);
      RunsWithin(b.stmts, s1, fuel);
      if fuel > 0 {
        RunsWithinStmt(stmt, ExecStmts(b.stmts, s1, fuel).1, fuel - 1);
      }
    case If(cond, b, els) =>
      RunsWithinExpr(cond, s, fuel);
      var (_, s1) := EvalExpr(cond, s, fuel);
      RunsWithin(b.stmts, s1, fuel);
      if els.ElseStmt? {
        RunsWithinStmt(els.s, s1, fuel);
      }
    case BlockStmt(b) => RunsWithin(b.stmts, s, fuel);
    case Return(Some(e)) => RunsWithinExpr(e, s, fuel);
    case Yield(e) => RunsWithinExpr(e, s, fuel);
    case _ =>
  }

  // ----- When the analysis is right -----

  /** The statement satisfies `p`, and so do all statements inside it. */
  predicate Everywhere(s: Stmt, p: Stmt -> bool) {
    p(s) &&
    match s
    case ExprStmt(e) => EverywhereInExpr(e, p)
    case Assign(_, e) => EverywhereInExpr(e, p)
    case Loop(b) => EverywhereIn(b.stmts, p)
    case While(cond, b) => EverywhereInExpr(cond, p) && EverywhereIn(b.stmts, p)
    case If(cond, b, els) =>
      EverywhereInExpr(cond, p) && EverywhereIn(b.stmts, p) && (els.ElseStmt? ==> Everywhere(els.s, p))
    case BlockStmt(b) => EverywhereIn(b.stmts, p)
    case Break => true
    case Continue => true
    case Return(val) => val.Some? ==> EverywhereInExpr(val.value, p)
    case Yield(e) => EverywhereInExpr(e, p)
  }

  predicate EverywhereIn(ss: Stmts, p: Stmt -> bool) {
    ss.Cons? ==> Everywhere(ss.head, p) && EverywhereIn(ss.tail, p)
  }

  predicate EverywhereInExpr(e: Expr, p: Stmt -> bool) {
    match e
    case Bin(_, l, r) => EverywhereInExpr(l, p) && EverywhereInExpr(r, p)
    case Print(arg) => EverywhereInExpr(arg, p)
    case Match(_, _, subject, cases) => EverywhereInExpr(subject, p) && EverywhereInCases(cases, p)
    case BlockExpr(b) => EverywhereIn(b.stmts, p)
    case _ => true
  }

  predicate EverywhereInCases(cases: Cases, p: Stmt -> bool) {
    match cases
    case NoCase => true
    case Case(_, BodyBlock(b), rest) => EverywhereIn(b.stmts, p) && EverywhereInCases(rest, p)
    case Case(_, BodyExpr(e), rest) => EverywhereInExpr(e, p) && EverywhereInCases(rest, p)
  }

  /** What the analysis takes for unreachable behind `s` is unreachable. */
  predicate IsJudgedRight(s: Stmt) {
    FlowOfStmt(s).IsDefinite() ==> !CompletesStmt(s)
  }

  /** An endless loop that is taken to have no way out has no break. */
  predicate LosesNoBreak(s: Stmt) {
    s.Loop? || (s.While? && s.cond.Lit? && s.cond.n != 0) ==> FlowOfStmt(s).IsDefinite() ==> !BreaksStmts(s.body.stmts)
  }

  lemma BranchesAreBothDefinite(a: Flow, b: Flow)
    ensures a.BranchUnifyWith(b).IsDefinite() <==> a.IsDefinite() && b.IsDefinite()
    ensures !a.BranchUnifyWith(a.Partial()).IsDefinite()
  {
  }

  lemma OneOfTwoIsDefinite(a: Flow, b: Flow)
    ensures a.Updated(b).IsDefinite() <==> a.IsDefinite() || b.IsDefinite()
  {
  }

  lemma {:induction false} DefiniteStmts(ss: Stmts, before: Flow)
    requires EverywhereIn(ss, LosesNoBreak)
    ensures FlowOfStmts(ss, before).IsDefinite() ==> before.IsDefinite() || !Completes(ss)
    decreases ss
  {
    if ss.Cons? {
      DefiniteStmt(ss.head);
      OneOfTwoIsDefinite(before, FlowOfStmt(ss.head));
      DefiniteStmts(ss.tail, before.Updated(FlowOfStmt(ss.head)));
    }
  }

  lemma {:induction false} DefiniteExpr(e: Expr)
    requires EverywhereInExpr(e, LosesNoBreak)
    ensures FlowOfExpr(e).IsDefinite() ==> !HasValue(e)
    decreases e
  {
    if e.Match? {
      DefiniteCases(e.cases, None);
    }
  }

  lemma {:induction false} DefiniteCases(cases: Cases, before: Option<Flow>)
    requires EverywhereInCases(cases, LosesNoBreak)
    ensures FlowOfCases(cases, before).IsDefinite() ==>
              !SomeCaseHasValue(cases) && (before.Some? ==> before.value.IsDefinite())
    decreases cases
  {
    if cases.Case? {
      match cases.body {
        case BodyBlock(b) => DefiniteStmts(b.stmts, MayReturn);
        case BodyExpr(e) => DefiniteExpr(e);
      }
      var flow := FlowOfBody(cases.body);
      if before.Some? {
        BranchesAreBothDefinite(before.value, flow);
      }
      DefiniteCases(cases.rest, Some(if before.Some? then before.value.BranchUnifyWith(flow) else flow));
    }
  }

  lemma {:induction false} DefiniteStmt(s: Stmt)
    requires Everywhere(s, LosesNoBreak)
    ensures IsJudgedRight(s)
    decreases s
  {
    match s
    case ExprStmt(e) => DefiniteExpr(e);
    case If(cond, b, els) =>
      DefiniteStmts(b.stmts, MayReturn);
      var yes := FlowOfStmts(b.stmts, MayReturn);
      if els.ElseStmt? {
        DefiniteStmt(els.s);
        BranchesAreBothDefinite(yes, FlowOfStmt(els.s));
      } else {
        BranchesAreBothDefinite(yes, yes.Partial());
      }
    case BlockStmt(b) => DefiniteStmts(b.stmts, MayReturn);
    case _ =>
  }

  // What follows at each statement follows everywhere.

  ghost predicate Follows(p: Stmt -> bool, q: Stmt -> bool) {
    forall s :: Everywhere(s, p) ==> q(s)
  }

  lemma {:induction false} FollowsIn(ss: Stmts, p: Stmt -> bool, q: Stmt -> bool)
    requires EverywhereIn(ss, p) && Follows(p, q)
    ensures EverywhereIn(ss, q)
    decreases ss
  {
    if ss.Cons? {
      FollowsAt(ss.head, p, q);
      FollowsIn(ss.tail, p, q);
    }
  }

  lemma {:induction false} FollowsInExpr(e: Expr, p: Stmt -> bool, q: Stmt -> bool)
    requires EverywhereInExpr(e, p) && Follows(p, q)
    ensures EverywhereInExpr(e, q)
    decreases e
  {
    match e
    case Bin(_, l, r) =>
      FollowsInExpr(l, p, q);
      FollowsInExpr(r, p, q);
    case Print(arg) => FollowsInExpr(arg, p, q);
    case Match(_, _, subject, cases) =>
      FollowsInExpr(subject, p, q);
      FollowsInCases(cases, p, q);
    case BlockExpr(b) => FollowsIn(b.stmts, p, q);
    case _ =>
  }

  lemma {:induction false} FollowsInCases(cases: Cases, p: Stmt -> bool, q: Stmt -> bool)
    requires EverywhereInCases(cases, p) && Follows(p, q)
    ensures EverywhereInCases(cases, q)
    decreases cases
  {
    if cases.Case? {
      match cases.body {
        case BodyBlock(b) => FollowsIn(b.stmts, p, q);
        case BodyExpr(e) => FollowsInExpr(e, p, q);
      }
      FollowsInCases(cases.rest, p, q);
    }
  }

  lemma {:induction false} FollowsAt(s: Stmt, p: Stmt -> bool, q: Stmt -> bool)
    requires Everywhere(s, p) && Follows(p, q)
    ensures Everywhere(s, q)
    decreases s
  {
    match s
    case ExprStmt(e) => FollowsInExpr(e, p, q);
    case Assign(_, e) => FollowsInExpr(e, p, q);
    case Loop(b) => FollowsIn(b.stmts, p, q);
    case While(cond, b) =>
      FollowsInExpr(cond, p, q);
      FollowsIn(b.stmts, p, q);
    case If(cond, b, els) =>
      FollowsInExpr(cond, p, q);
      FollowsIn(b.stmts, p, q);
      if els.ElseStmt? {
        FollowsAt(els.s, p, q);
      }
    case BlockStmt(b) => FollowsIn(b.stmts, p, q);
    case Return(Some(e)) => FollowsInExpr(e, p, q);
    case Yield(e) => FollowsInExpr(e, p, q);
    case _ =>
  }

  /**
   The analysis is right about every statement of a block exactly when it loses no break of an
   endless loop.
   */
  lemma AnalysisIsRightExactlyWhen(ss: Stmts)
    ensures EverywhereIn(ss, IsJudgedRight) <==> EverywhereIn(ss, LosesNoBreak)
  {
    forall s | Everywhere(s, LosesNoBreak) ensures IsJudgedRight(s) {
      DefiniteStmt(s);
    }
    assert Follows(LosesNoBreak, IsJudgedRight) && Follows(IsJudgedRight, LosesNoBreak);
    if EverywhereIn(ss, LosesNoBreak) {
      FollowsIn(ss, LosesNoBreak, IsJudgedRight);
    }
    if EverywhereIn(ss, IsJudgedRight) {
      FollowsIn(ss, IsJudgedRight, LosesNoBreak);
    }
  }

  // ----- What it gives up on -----

  /** A match without cases is one of the ends of the expression. */
  predicate EndsInEmptyMatch(e: Expr) {
    e.Match? && (e.cases.NoCase? || SomeCaseEndsInEmptyMatch(e.cases))
  }

  predicate SomeCaseEndsInEmptyMatch(cases: Cases) {
    cases.Case? && ((cases.body.BodyExpr? && EndsInEmptyMatch(cases.body.e)) || SomeCaseEndsInEmptyMatch(cases.rest))
  }

  predicate IsEndless(s: Stmt) {
    s.Loop? || (s.While? && s.cond.Lit? && s.cond.n != 0)
  }

  /** What is left reachable behind `s` can be reached, and nothing else can. */
  predicate IsJudgedExactly(s: Stmt) {
    FlowOfStmt(s).IsDefinite() <==> !CompletesStmt(s)
  }

  /**
   An endless loop is taken to have no way out exactly if it has no break; and a match without cases
   does not stand where all else leaves the statement.
   */
  predicate IsDecided(s: Stmt) {
    && (IsEndless(s) ==> (FlowOfStmt(s).IsDefinite() <==> !BreaksStmts(s.body.stmts)))
    && (s.ExprStmt? && EndsInEmptyMatch(s.e) ==> HasValue(s.e))
  }

  lemma {:induction false} ExactStmts(ss: Stmts, before: Flow)
    requires EverywhereIn(ss, IsDecided)
    ensures FlowOfStmts(ss, before).IsDefinite() <==> before.IsDefinite() || !Completes(ss)
    decreases ss
  {
    if ss.Cons? {
      ExactStmt(ss.head);
      OneOfTwoIsDefinite(before, FlowOfStmt(ss.head));
      ExactStmts(ss.tail, before.Updated(FlowOfStmt(ss.head)));
    }
  }

  lemma {:induction false} ExactExpr(e: Expr)
    requires EverywhereInExpr(e, IsDecided)
    ensures FlowOfExpr(e).IsDefinite() <==> !HasValue(e) && !EndsInEmptyMatch(e)
    decreases e
  {
    if e.Match? {
      ExactCases(e.cases, None);
    }
  }

  lemma {:induction false} ExactCases(cases: Cases, before: Option<Flow>)
    requires EverywhereInCases(cases, IsDecided)
    ensures FlowOfCases(cases, before).IsDefinite() <==>
            && !SomeCaseHasValue(cases) && !SomeCaseEndsInEmptyMatch(cases)
            && (if before.Some? then before.value.IsDefinite() else cases.Case?)
    decreases cases
  {
    if cases.Case? {
      match cases.body {
        case BodyBlock(b) => ExactStmts(b.stmts, MayReturn);
        case BodyExpr(e) => ExactExpr(e);
      }
      var flow := FlowOfBody(cases.body);
      if before.Some? {
        BranchesAreBothDefinite(before.value, flow);
      }
      ExactCases(cases.rest, Some(if before.Some? then before.value.BranchUnifyWith(flow) else flow));
    }
  }

  lemma {:induction false} ExactStmt(s: Stmt)
    requires Everywhere(s, IsDecided)
    ensures IsJudgedExactly(s)
    decreases s
  {
    match s
    case ExprStmt(e) => ExactExpr(e);
    case If(cond, b, els) =>
      ExactStmts(b.stmts, MayReturn);
      var yes := FlowOfStmts(b.stmts, MayReturn);
      if els.ElseStmt? {
        ExactStmt(els.s);
        BranchesAreBothDefinite(yes, FlowOfStmt(els.s));
      } else {
        BranchesAreBothDefinite(yes, yes.Partial());
      }
    case BlockStmt(b) => ExactStmts(b.stmts, MayReturn);
    case Yield(e) => OneOfTwoIsDefinite(FlowOfExpr(e), AlwaysTransfersControl(false));
    case _ =>
  }

  /**
   Every statement of a block is judged exactly, unreachable behind it and reachable behind it, if and
   only if every endless loop is decided by whether it has a break and no match without cases matters.
   */
  lemma EverythingIsJudgedExactlyWhen(ss: Stmts)
    ensures EverywhereIn(ss, IsJudgedExactly) <==> EverywhereIn(ss, IsDecided)
    ensures EverywhereIn(ss, IsDecided) ==> (FlowOfStmts(ss, MayReturn).IsDefinite() <==> !Completes(ss))
  {
    forall s | Everywhere(s, IsDecided) ensures IsJudgedExactly(s) {
      ExactStmt(s);
    }
    assert Follows(IsDecided, IsJudgedExactly);
    if EverywhereIn(ss, IsDecided) {
      FollowsIn(ss, IsDecided, IsJudgedExactly);
      ExactStmts(ss, MayReturn);
    }
    if EverywhereIn(ss, IsJudgedExactly) {
      ExactIsDecidedIn(ss);
    }
  }

  // The other way, from the inside out.

  lemma {:induction false} ExactIsDecidedIn(ss: Stmts)
    requires EverywhereIn(ss, IsJudgedExactly)
    ensures EverywhereIn(ss, IsDecided)
    decreases ss
  {
    if ss.Cons? {
      ExactIsDecided(ss.head);
      ExactIsDecidedIn(ss.tail);
    }
  }

  lemma {:induction false} ExactIsDecidedInExpr(e: Expr)
    requires EverywhereInExpr(e, IsJudgedExactly)
    ensures EverywhereInExpr(e, IsDecided)
    decreases e
  {
    match e
    case Bin(_, l, r) =>
      ExactIsDecidedInExpr(l);
      ExactIsDecidedInExpr(r);
    case Print(arg) => ExactIsDecidedInExpr(arg);
    case Match(_, _, subject, cases) =>
      ExactIsDecidedInExpr(subject);
      ExactIsDecidedInCases(cases);
    case BlockExpr(b) => ExactIsDecidedIn(b.stmts);
    case _ =>
  }

  lemma {:induction false} ExactIsDecidedInCases(cases: Cases)
    requires EverywhereInCases(cases, IsJudgedExactly)
    ensures EverywhereInCases(cases, IsDecided)
    decreases cases
  {
    if cases.Case? {
      match cases.body {
        case BodyBlock(b) => ExactIsDecidedIn(b.stmts);
        case BodyExpr(e) => ExactIsDecidedInExpr(e);
      }
      ExactIsDecidedInCases(cases.rest);
    }
  }

  lemma {:induction false} ExactIsDecided(s: Stmt)
    requires Everywhere(s, IsJudgedExactly)
    ensures Everywhere(s, IsDecided)
    decreases s
  {
    match s
    case ExprStmt(e) =>
      ExactIsDecidedInExpr(e);
      ExactExpr(e);
    case Assign(_, e) => ExactIsDecidedInExpr(e);
    case Loop(b) => ExactIsDecidedIn(b.stmts);
    case While(cond, b) =>
      ExactIsDecidedInExpr(cond);
      ExactIsDecidedIn(b.stmts);
    case If(cond, b, els) =>
      ExactIsDecidedInExpr(cond);
      ExactIsDecidedIn(b.stmts);
      if els.ElseStmt? {
        ExactIsDecided(els.s);
      }
    case BlockStmt(b) => ExactIsDecidedIn(b.stmts);
    case Return(Some(e)) => ExactIsDecidedInExpr(e);
    case Yield(e) => ExactIsDecidedInExpr(e);
    case _ =>
  }

  // ----- What decides about a loop -----

  /** An endless loop is judged by its block: by whether something happens in it for sure, and by the flag. */
  lemma LoopsAreJudgedByTheirBlocks(b: Block, n: int)
    ensures var flow := FlowOfStmts(b.stmts, MayReturn);
            && (FlowOfStmt(Loop(b)).IsDefinite() <==> !flow.MayReturn? && !flow.MayBreak())
            && (n != 0 ==> (FlowOfStmt(While(Lit(n), b)).IsDefinite() <==> flow.IsDefinite() && !flow.Transfers()))
            && (forall k :: FlowOfStmt(Loop(b)).Names(k) ==> flow.Names(k))
  {
  }

  /** What two branches come to. The order of the branches matters. */
  lemma BranchLaws(a: Flow, b: Flow)
    ensures var both := a.BranchUnifyWith(b);
            && (both.MayBreak() <==> a.MayBreak() || b.MayBreak())
            && (both.MayReturn? <==> (a.MayReturn? && !b.Transfers() && !b.IsPartial()) || (b.MayReturn? && !a.Transfers() && !a.IsPartial()))
            && (both.Transfers() <==> b.Transfers() || (a.Transfers() && !(a.IsDefinite() && b.IsPartial())))
            && (both.Returns() <==>
                  || (b.PartialAlwaysReturns? && !a.PartialAlwaysTransfersControl?) || (a.PartialAlwaysReturns? && !b.Transfers())
                  || (b.AlwaysReturns? && (a.NeverReturns? || a.AlwaysReturns?)) || (a.AlwaysReturns? && b.NeverReturns?))
            && (both.IsDefinite() <==> a.IsDefinite() && b.IsDefinite())
    ensures a.BranchUnifyWith(b) == b.BranchUnifyWith(a) <==>
            !(a.AlwaysTransfersControl? && b.IsPartial() && !b.Transfers()) && !(b.AlwaysTransfersControl? && a.IsPartial() && !a.Transfers())
  {
  }

  /**
   What two statements in a row come to. The flag of the first is lost where what may have happened in
   the first and what happens in the second are of the same kind, or where the first only may return.
   */
  lemma SequenceLaws(a: Flow, b: Flow)
    ensures var both := a.Updated(b);
            && (both.MayReturn? <==> b.MayReturn? && (a.MayReturn? || a.PartialAlwaysReturns?))
            && (both.Transfers() <==>
                  if a.IsDefinite() then a.Transfers()
                  else if a.MayReturn? then b.Transfers()
                  else a.Transfers() || b.Transfers() || (a.Returns() != b.Returns() && !b.MayReturn?))
            && (both.Returns() <==> if a.IsDefinite() then a.Returns() else b.Returns() && (a.MayReturn? || a.Returns()))
            && (both.IsDefinite() <==> a.IsDefinite() || b.IsDefinite())
            && (both.MayBreak() <==> (a.MayBreak() && !LosesFlag(a, b)) || (b.MayBreak() && !a.IsDefinite()))
    ensures a.Partial().MayReturn? == a.MayReturn? && a.Partial().MayBreak() == a.MayBreak() && a.Partial().Transfers() == a.Transfers()
    ensures a.Partial().Returns() == a.Returns() && !a.Partial().IsDefinite()
  {
  }

  predicate LosesFlag(a: Flow, b: Flow) {
    || (a.PartialAlwaysReturns? && (b.AlwaysReturns? || b.MayReturn?))
    || (a.PartialNeverReturns? && b.NeverReturns?)
  }

  /** The flag is never made up: where it is set, there is a break. */
  lemma {:induction false} FlagMeansBreak(ss: Stmts, before: Flow)
    ensures FlowOfStmts(ss, before).MayBreak() ==> before.MayBreak() || BreaksStmts(ss)
    decreases ss
  {
    if ss.Cons? {
      StmtFlagMeansBreak(ss.head);
      SequenceLaws(before, FlowOfStmt(ss.head));
      FlagMeansBreak(ss.tail, before.Updated(FlowOfStmt(ss.head)));
    }
  }

  lemma {:induction false} ExprFlagMeansBreak(e: Expr)
    ensures FlowOfExpr(e).MayBreak() ==> BreaksExpr(e)
    decreases e
  {
    if e.Match? {
      CasesFlagMeansBreak(e.cases, None);
    }
  }

  lemma {:induction false} CasesFlagMeansBreak(cases: Cases, before: Option<Flow>)
    ensures FlowOfCases(cases, before).MayBreak() ==> (before.Some? && before.value.MayBreak()) || BreaksCases(cases)
    decreases cases
  {
    if cases.Case? {
      match cases.body {
        case BodyBlock(b) => FlagMeansBreak(b.stmts, MayReturn);
        case BodyExpr(e) => ExprFlagMeansBreak(e);
      }
      var flow := FlowOfBody(cases.body);
      if before.Some? {
        BranchLaws(before.value, flow);
      }
      CasesFlagMeansBreak(cases.rest, Some(if before.Some? then before.value.BranchUnifyWith(flow) else flow));
    }
  }

  lemma {:induction false} StmtFlagMeansBreak(s: Stmt)
    ensures FlowOfStmt(s).MayBreak() ==> BreaksStmt(s)
    decreases s
  {
    match s
    case ExprStmt(e) => ExprFlagMeansBreak(e);
    case Yield(e) =>
      ExprFlagMeansBreak(e);
      SequenceLaws(FlowOfExpr(e), AlwaysTransfersControl(false));
    case If(cond, b, els) =>
      FlagMeansBreak(b.stmts, MayReturn);
      var yes := FlowOfStmts(b.stmts, MayReturn);
      SequenceLaws(yes, yes);
      if els.ElseStmt? {
        StmtFlagMeansBreak(els.s);
        BranchLaws(yes, FlowOfStmt(els.s));
      } else {
        BranchLaws(yes, yes.Partial());
      }
    case BlockStmt(b) => FlagMeansBreak(b.stmts, MayReturn);
    case _ =>
  }

  // ----- The way it ends -----

  predicate HasIn(k: Way, ss: Stmts) {
    ss.Cons? && (Has(k, ss.head) || HasIn(k, ss.tail))
  }

  /** A statement in here ends so; a yield does not transfer control if its operand never has a value. */
  predicate Has(k: Way, s: Stmt) {
    match s
    case Return(_) => k.Returning?
    case Break => k.Transferring?
    case Continue => k.Transferring?
    case Yield(e) => (k.Transferring? && !FlowOfExpr(e).IsDefinite()) || HasInExpr(k, e)
    case If(_, b, els) => HasIn(k, b.stmts) || (els.ElseStmt? && Has(k, els.s))
    case BlockStmt(b) => HasIn(k, b.stmts)
    case While(_, b) => HasIn(k, b.stmts)
    case Loop(b) => HasIn(k, b.stmts)
    case ExprStmt(e) => HasInExpr(k, e)
    case Assign(_, _) => false
  }

  predicate HasInExpr(k: Way, e: Expr) {
    match e
    case Match(_, _, _, cases) => HasInCases(k, cases)
    case Abort => k.Aborting?
    case _ => false
  }

  predicate HasInCases(k: Way, cases: Cases) {
    cases.Case? && (HasInBody(k, cases.body) || HasInCases(k, cases.rest))
  }

  predicate HasInBody(k: Way, body: MatchBody) {
    match body
    case BodyBlock(b) => HasIn(k, b.stmts)
    case BodyExpr(e) => HasInExpr(k, e)
  }

  /** `flow` names no way that neither of the two has; returning here and aborting there is called a transfer. */
  ghost predicate NamesOnly(flow: Flow, has: Way -> bool) {
    && (flow.Names(Returning) ==> has(Returning))
    && (flow.Names(Aborting) ==> has(Aborting))
    && (flow.Names(Transferring) ==> has(Transferring) || (has(Returning) && has(Aborting)))
  }

  lemma WaysTogether(a: Flow, b: Flow, has: Way -> bool)
    requires NamesOnly(a, has) && NamesOnly(b, has)
    ensures NamesOnly(a.Updated(b), has) && NamesOnly(a.BranchUnifyWith(b), has) && NamesOnly(a.Partial(), has)
  {
  }

  /** No way of ending is made up: where the analysis names one, some statement ends so. */
  lemma {:induction false} WaysAreReal(ss: Stmts, before: Flow, has: Way -> bool)
    requires NamesOnly(before, has) && forall k :: HasIn(k, ss) ==> has(k)
    ensures NamesOnly(FlowOfStmts(ss, before), has)
    decreases ss
  {
    if ss.Cons? {
      WaysOfStmt(ss.head, has);
      WaysTogether(before, FlowOfStmt(ss.head), has);
      WaysAreReal(ss.tail, before.Updated(FlowOfStmt(ss.head)), has);
    }
  }

  lemma {:induction false} WaysOfExpr(e: Expr, has: Way -> bool)
    requires forall k :: HasInExpr(k, e) ==> has(k)
    ensures NamesOnly(FlowOfExpr(e), has)
    decreases e
  {
    if e.Match? {
      WaysOfCases(e.cases, None, has);
    }
  }

  lemma {:induction false} WaysOfCases(cases: Cases, before: Option<Flow>, has: Way -> bool)
    requires forall k :: HasInCases(k, cases) ==> has(k)
    requires before.Some? ==> NamesOnly(before.value, has)
    ensures NamesOnly(FlowOfCases(cases, before), has)
    decreases cases
  {
    if cases.Case? {
      assert forall k :: HasInBody(k, cases.body) ==> HasInCases(k, cases);
      match cases.body {
        case BodyBlock(b) => WaysAreReal(b.stmts, MayReturn, has);
        case BodyExpr(e) => WaysOfExpr(e, has);
      }
      var flow := FlowOfBody(cases.body);
      if before.Some? {
        WaysTogether(before.value, flow, has);
      }
      WaysOfCases(cases.rest, Some(if before.Some? then before.value.BranchUnifyWith(flow) else flow), has);
    }
  }

  lemma {:induction false} WaysOfStmt(s: Stmt, has: Way -> bool)
    requires forall k :: Has(k, s) ==> has(k)
    ensures NamesOnly(FlowOfStmt(s), has)
    decreases s
  {
    match s
    case ExprStmt(e) => WaysOfExpr(e, has);
    case Yield(e) =>
      assert forall k :: HasInExpr(k, e) ==> Has(k, s);
      WaysOfExpr(e, has);
      if !FlowOfExpr(e).IsDefinite() {
        assert Has(Transferring, s);
        WaysTogether(FlowOfExpr(e), AlwaysTransfersControl(false), has);
      }
    case If(cond, b, els) =>
      assert forall k :: HasIn(k, b.stmts) ==> Has(k, s);
      WaysAreReal(b.stmts, MayReturn, has);
      var yes := FlowOfStmts(b.stmts, MayReturn);
      WaysTogether(yes, yes, has);
      if els.ElseStmt? {
        assert forall k :: Has(k, els.s) ==> Has(k, s);
        WaysOfStmt(els.s, has);
        WaysTogether(yes, FlowOfStmt(els.s), has);
      } else {
        WaysTogether(yes, yes.Partial(), has);
      }
    case BlockStmt(b) => WaysAreReal(b.stmts, MayReturn, has);
    case Loop(b) => WaysAreReal(b.stmts, MayReturn, has);
    case While(_, b) => WaysAreReal(b.stmts, MayReturn, has);
    case Return(_) => assert Has(Returning, s);
    case Break => assert Has(Transferring, s);
    case Continue => assert Has(Transferring, s);
    case Assign(_, _) =>
  }

  /**
   A function that is judged to always return has a return in it, one judged never to return has a call
   that never does, and one judged to transfer control has a transfer or both of these.
   */
  lemma NoWayIsMadeUp(ss: Stmts)
    ensures NamesOnly(FlowOfStmts(ss, MayReturn), k => HasIn(k, ss))
  {
    WaysAreReal(ss, MayReturn, k => HasIn(k, ss));
  }

  // ----- Where it is not -----

  /** `loop { x = match y { 0 => { break }  else => 3 }  return x }` */
  const BREAK_IN_VALUE := Loop(Block(false,
    Cons(Assign("x", Match(Generic, IntTy, Var("y"),
           Case(Equals(0), BodyBlock(Block(false, Cons(Break, Nil))), Case(CatchAll, BodyExpr(Lit(3)), NoCase)))),
    Cons(Return(Some(Var("x"))), Nil))))

  /** `loop { if c { break } else { if d { return 1 } }  return 2 }` */
  const BREAK_BEFORE_RETURN := Loop(Block(false,
    Cons(If(Var("c"), Block(false, Cons(Break, Nil)),
            ElseStmt(BlockStmt(Block(false, Cons(If(Var("d"), Block(false, Cons(Return(Some(Lit(1))), Nil)), NoElse), Nil))))),
    Cons(Return(Some(Lit(2))), Nil))))

  /**
   Two functions that the type checker accepts, whose loops the analysis takes for loops that always
   return. They can break out of them, and reach the ends of their bodies without a value.
   */
  lemma BreaksAreLost(s: State, fuel: nat)
    ensures ReachesItsEnd(BREAK_IN_VALUE, s.(vars := map["y" := 0]), fuel)
    ensures ReachesItsEnd(BREAK_BEFORE_RETURN, s.(vars := map["c" := 1]), fuel)
  {
    BreakInValue(s.(vars := map["y" := 0]), fuel);
    BreakBeforeReturn(s.(vars := map["c" := 1]), fuel);
  }

  /** Accepted as the body of a function with a number for a result, and yet completed by this run. */
  ghost predicate ReachesItsEnd(loop: Stmt, s: State, fuel: nat) {
    && WellScopedStmt(loop, FunctionScope(Fn(IntTy, false, false, false), Accepted))
    && FlowOfStmt(loop) == AlwaysReturns
    && ExecStmt(loop, s, fuel).0 == Normal
  }

  lemma BreakInValue(s: State, fuel: nat)
    requires Lookup(s, "y") == 0
    ensures ReachesItsEnd(BREAK_IN_VALUE, s, fuel)
  {
    var c := FunctionScope(Fn(IntTy, false, false, false), Accepted).EnterLoop();
    var breaking := Cons(Break, Nil);
    var ss := BREAK_IN_VALUE.body.stmts;
    var m := ss.head.e;
    assert ExecStmts(breaking, s, fuel) == (Broke, s);
    assert Select(m.cases, 0) == Some(m.cases.body);
    assert EvalBody(m.cases.body, IntTy, s, fuel) == (Exit(Broke), s);
    assert EvalExpr(m, s, fuel) == (Exit(Broke), s);
    assert ExecStmts(ss, s, fuel) == (Broke, s);
    assert FlowOfStmts(ss.tail, MayReturn) == FlowOfStmts(Nil, AlwaysReturns) == AlwaysReturns;
    assert WellScopedStmts(breaking, c.EnterMatch());
    assert WellScopedCases(m.cases.rest, Generic, IntTy, c.EnterMatch());
    assert WellScopedStmts(ss.tail, c);
  }

  lemma BreakBeforeReturn(s: State, fuel: nat)
    requires Lookup(s, "c") != 0
    ensures ReachesItsEnd(BREAK_BEFORE_RETURN, s, fuel)
  {
    var c := FunctionScope(Fn(IntTy, false, false, false), Accepted).EnterLoop();
    var breaking := Cons(Break, Nil);
    var ss := BREAK_BEFORE_RETURN.body.stmts;
    var other := ss.head.els.s;
    var inner := other.block.stmts.head;
    assert ExecStmts(breaking, s, fuel) == (Broke, s);
    assert EvalExpr(ss.head.cond, s, fuel) == (Val(Int(Lookup(s, "c"))), s);
    assert ss.head.thenBlock.stmts == breaking;
    assert ExecStmt(ss.head, s, fuel) == (Broke, s);
    assert ExecStmts(ss, s, fuel) == (Broke, s);
    assert FlowOfStmts(breaking, MayReturn) == FlowOfStmts(Nil, AlwaysTransfersControl(true));
    assert FlowOfStmts(inner.thenBlock.stmts, MayReturn) == FlowOfStmts(Nil, AlwaysReturns);
    assert FlowOfStmt(inner) == PartialAlwaysReturns(false);
    assert FlowOfStmts(other.block.stmts, MayReturn) == FlowOfStmts(Nil, PartialAlwaysReturns(false));
    assert FlowOfStmt(other) == PartialAlwaysReturns(false);
    assert AlwaysTransfersControl(true).BranchUnifyWith(PartialAlwaysReturns(false)) == PartialAlwaysReturns(true);
    assert FlowOfStmts(breaking, MayReturn) == AlwaysTransfersControl(true);
    assert FlowOfStmt(ss.head) == PartialAlwaysReturns(true);
    assert FlowOfStmts(ss.tail, PartialAlwaysReturns(true)) == FlowOfStmts(Nil, AlwaysReturns);
    assert WellScopedStmts(inner.thenBlock.stmts, c) && WellScopedStmts(other.block.stmts, c);
    assert WellScopedStmts(breaking, c) && WellScopedStmts(ss.tail, c);
  }
}
