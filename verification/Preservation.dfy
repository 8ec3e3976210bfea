/**
 The lowering preserves meaning: whatever a well-scoped statement does, the emitted
 C++ does the same, in the form of exit that its surroundings understand.
 */
module Preservation {
  import opened Wrappers
  import opened ControlFlow
  import opened Jakt
  import opened Cpp
  import opened Lowering
  import opened Placement

  /** Scope, generator state, yield target and C++ surroundings all describe the same place. */
  ghost predicate Fits(c: Scope, st: ControlFlowState, y: Option<Slot>, cx: Context) {
    && !c.rule.Accepted?
    && (AreLoopExitsAllowed(st.allowedExits) ==> c.inLoop)
    && (c.inLoop && c.rule.Taken? ==> AreLoopExitsAllowed(st.allowedExits))
    && c.inMatch == st.indirectlyInsideMatch == cx.place.InLambda?
    && (st.directlyInsideMatch ==> st.indirectlyInsideMatch)
    && (st.indirectlyInsideMatch && !st.directlyInsideMatch ==> AreLoopExitsAllowed(st.allowedExits))
    && (c.canYield ==> y.Some?)
    && cx.fn == c.fn
  }

  /**
   Where loop exits are allowed, an exit takes its form. Elsewhere it comes from the condition
   of a loop that no other loop surrounds, and ends in a fault sooner or later.
   */
  ghost predicate LeavesLoop(c: Scope, st: ControlFlowState, co: COutcome, form: COutcome) {
    if AreLoopExitsAllowed(st.allowedExits) then co == form
    else c.rule.Fitting? && (co == form || co == CFault)
  }

  /** `co` is the C++ form, at this place, of the source outcome `o`. */
  ghost predicate Renders(c: Scope, st: ControlFlowState, y: Option<Slot>, o: Outcome, co: COutcome, slots: map<nat, Value>) {
    match o
    case Normal => co == CNormal
    case Broke => LeavesLoop(c, st, co, if st.directlyInsideMatch then CReturned(LoopBreak) else CBroke)
    case Continued => LeavesLoop(c, st, co, if st.directlyInsideMatch then CReturned(LoopContinue) else CContinued)
    case Returned(v) => v.Void? == c.fn.ValueIsVoid() && co == CReturned(Plain(v))
    case Yielded(v) =>
      && c.canYield && y.Some?
      && co == CJump(y.value.yieldLabel)
      && y.value.name in slots && slots[y.value.name] == v
    case Aborted => co == CAborted
    case Timeout => co == CTimeout
    case Unmatched => co == CFault
    case EndReached => false
    case Stuck => true
  }

  ghost predicate SameRun(c: Scope, st: ControlFlowState, y: Option<Slot>, run: (Outcome, State), crun: (COutcome, CState)) {
    run.0.Stuck? || (Renders(c, st, y, run.0, crun.0, crun.1.slots) && crun.1.base == run.1)
  }

  ghost predicate SameEval(c: Scope, st: ControlFlowState, y: Option<Slot>, run: (Eval, State), crun: (CEval, CState)) {
    match run.0
    case Val(v) => crun.0 == CVal(v) && crun.1.base == run.1
    case Exit(o) => o != Normal && (o.Stuck? || (crun.0.CExit? && SameRun(c, st, y, (o, run.1), (crun.0.o, crun.1))))
  }

  /** A match body leaves its lambda: with an explicit value, or with the rendered exit. */
  ghost predicate SameBody(c: Scope, st: ControlFlowState, y: Option<Slot>, run: (Eval, State), crun: (COutcome, CState)) {
    match run.0
    case Val(v) => crun.0 == CReturned(Explicit(v)) && crun.1.base == run.1
    case Exit(o) => o != Normal && (o.Stuck? || SameRun(c, st, y, (o, run.1), crun))
  }

  /** Static and dynamic voidness agree. */
  lemma ValueVoidness(e: Expr, s: State, fuel: nat)
    requires EvalExpr(e, s, fuel).0.Val?
    ensures EvalExpr(e, s, fuel).0.v.Void? == IsVoidOrNever(e)
  {
  }

  lemma {:induction false} PreservesExpr(e: Expr, c: Scope, st: ControlFlowState, y: Option<Slot>, g: Gen, s: CState,
          fuel: nat, cx: Context)
    requires WellScopedExpr(e, c) && Fits(c, st, y, cx)
    ensures SameEval(c, st, y, EvalExpr(e, s.base, fuel), EvalC(LowerExpr(e, st, c.fn, y, g).0, s, fuel, cx))
    decreases fuel, e, 1
  {
    match e
    case Lit(_) =>
    case Var(_) =>
    case Abort =>
    case Bin(op, l, r) =>
      PreservesExpr(l, c, st, y, g, s, fuel, cx);
      var (l', g1) := LowerExpr(l, st, c.fn, y, g);
      var (_, s1) := EvalC(l', s, fuel, cx);
      PreservesExpr(r, c, st, y, g1, s1, fuel, cx);
    case Print(arg) =>
      PreservesExpr(arg, c, st, y, g, s, fuel, cx);
    case Match(_, _, _, _) =>
      PreservesMatch(e, c, st, y, g, s, fuel, cx);
    case BlockExpr(_) =>
      PreservesBlockExpr(e, c, st, y, g, s, fuel, cx);
  }

  /** A yielding block hands over what its yield left in its own slot. */
  lemma {:induction false} PreservesBlockExpr(e: Expr, c: Scope, st: ControlFlowState, y: Option<Slot>, g: Gen,
          s: CState, fuel: nat, cx: Context)
    requires e.BlockExpr?
    requires WellScopedExpr(e, c) && Fits(c, st, y, cx)
    ensures SameEval(c, st, y, EvalExpr(e, s.base, fuel), EvalC(LowerExpr(e, st, c.fn, y, g).0, s, fuel, cx))
    decreases fuel, e, 0
  {
    var own := Slot(g.vars, g.labels);
    PreservesStmts(e.block.stmts, c.EnterYieldingBlock(), st, Some(own), Gen(g.vars + 1, g.labels + 1),
                   s.(slots := s.slots - {own.name}), fuel, cx);
  }

  lemma FitsMatch(c: Scope, st: ControlFlowState, y: Option<Slot>, cx: Context, isVoid: bool, subject: int)
    requires Fits(c, st, y, cx)
    ensures Fits(c.EnterMatch(), st.EnterMatch(), y, Context(cx.fn, InLambda(isVoid, subject)))
  {
  }

  /** An exit in the subject leaves the lambda as one in a body does. */
  lemma SubjectExits(c: Scope, st: ControlFlowState, y: Option<Slot>, run: (Eval, State), crun: (CEval, CState))
    requires SameEval(c, st, y, run, crun) && run.0.Exit?
    ensures run.0.o.Stuck? || (crun.0.CExit? && SameBody(c, st, y, run, (crun.0.o, crun.1)))
  {
  }

  lemma ValueKeepsState(c: Scope, st: ControlFlowState, y: Option<Slot>, run: (Eval, State), crun: (CEval, CState))
    requires SameEval(c, st, y, run, crun) && run.0.Val?
    ensures crun.1.base == run.1
  {
  }

  /** How the lambda goes on when no case of the match accepts its subject: only a switch without a default runs off its end. */
  function UnmatchedEnd(kind: MatchKind, t: Ty): COutcome {
    match kind
    case ValueEnum => CNormal
    case SumEnum(_) => CAborted
    case Generic => if t.VoidTy? then CReturned(Explicit(Void)) else CAborted
  }

  /** The lambda of the match `e` after its subject `v`: the first accepting body leaves it, or no body runs at all. */
  ghost predicate SameDispatch(e: Expr, v: int, c: Scope, st: ControlFlowState, y: Option<Slot>, s: State, cs: CState,
          fuel: nat, crun: (COutcome, CState))
    requires e.Match?
  {
    if Select(e.cases, v).Some? then SameBody(c, st, y, EvalBody(Select(e.cases, v).value, e.t, s, fuel), crun)
    else crun == (UnmatchedEnd(e.kind, e.t), cs)
  }

  /** A match whose subject and selected body run alike runs alike. */
  lemma MatchRuns(e: Expr, m: CExpr, c: Scope, st: ControlFlowState, y: Option<Slot>, s: CState, fuel: nat, cx: Context)
    requires e.Match? && Fits(c, st, y, cx) && MatchFits(c.fn, c.inMatch)
    requires m.CMatch? && m.isVoid == !e.t.IntTy?
    requires m.onReturn == ReturnForwarding(st, c.fn) && m.onLoop == LoopForwarding(st)
    requires SameEval(c.EnterMatch(), st.EnterMatch(), y, EvalExpr(e.subject, s.base, fuel),
                      EvalC(m.subject, s, fuel, Context(cx.fn, InLambda(m.isVoid, 0))))
    requires var (r, s1) := EvalExpr(e.subject, s.base, fuel);
             var (_, cs1) := EvalC(m.subject, s, fuel, Context(cx.fn, InLambda(m.isVoid, 0)));
             IsInt(r) ==> SameDispatch(e, r.v.n, c.EnterMatch(), st.EnterMatch(), y, s1, cs1, fuel,
                                       ExecC(m.body, cs1, fuel, Context(cx.fn, InLambda(m.isVoid, r.v.n))))
    ensures SameEval(c, st, y, EvalExpr(e, s.base, fuel), EvalC(m, s, fuel, cx))
  {
    var (r, s1) := EvalExpr(e.subject, s.base, fuel);
    var (cr, cs1) := EvalC(m.subject, s, fuel, Context(cx.fn, InLambda(m.isVoid, 0)));
    if IsInt(r) {
      if Select(e.cases, r.v.n).Some? {
        var cx' := Context(cx.fn, InLambda(m.isVoid, r.v.n));
        ForwardsExits(c, st, y, EvalBody(Select(e.cases, r.v.n).value, e.t, s1, fuel), ExecC(m.body, cs1, fuel, cx'), cx);
      } else {
        ValueKeepsState(c.EnterMatch(), st.EnterMatch(), y, (r, s1), (cr, cs1));
      }
    } else if r.Exit? && !r.o.Stuck? {
      SubjectExits(c.EnterMatch(), st.EnterMatch(), y, (r, s1), (cr, cs1));
      ForwardsExits(c, st, y, (r, s1), (cr.o, cs1), cx);
    }
  }

  lemma {:induction false} PreservesMatch(e: Expr, c: Scope, st: ControlFlowState, y: Option<Slot>, g: Gen,
          s: CState, fuel: nat, cx: Context)
    requires e.Match?
    requires WellScopedExpr(e, c) && Fits(c, st, y, cx)
    ensures SameEval(c, st, y, EvalExpr(e, s.base, fuel), EvalC(LowerExpr(e, st, c.fn, y, g).0, s, fuel, cx))
    decreases fuel, e, 0
  {
    var Match(kind, t, subject, cases) := e;
    var c', st' := c.EnterMatch(), st.EnterMatch();
    var g0 := (if kind.Generic? then (CAbort, g) else LowerExpr(subject, st', c.fn, y, g)).1;
    var (subject', g1) := LowerExpr(subject, st', c.fn, y, g0);
    var body := LowerDispatch(kind, t, cases, st', c.fn, y, g1).0;
    var m := CMatch(!t.IntTy?, subject', body, ReturnForwarding(st, c.fn), LoopForwarding(st));
    assert LowerExpr(e, st, c.fn, y, g).0 == m;
    assert !c.rule.Accepted?;
    var cx0 := Context(cx.fn, InLambda(!t.IntTy?, 0));
    FitsMatch(c, st, y, cx, !t.IntTy?, 0);
    hide Fits, SameEval, SameBody, SameDispatch, EvalC, ExecC;
    PreservesExpr(subject, c', st', y, g0, s, fuel, cx0);
    var (r, s1) := EvalExpr(subject, s.base, fuel);
    var (_, cs1) := EvalC(subject', s, fuel, cx0);
    if IsInt(r) {
      FitsMatch(c, st, y, cx, !t.IntTy?, r.v.n);
      ValueKeepsState(c', st', y, (r, s1), EvalC(subject', s, fuel, cx0));
      PreservesDispatch(e, c', st', y, g1, cs1, fuel, Context(cx.fn, InLambda(!t.IntTy?, r.v.n)));
    }
    MatchRuns(e, m, c, st, y, s, fuel, cx);
  }

  /** The forwarding macro turns what leaves the lambda into the exit this place needs. */
  lemma ForwardsExits(c: Scope, st: ControlFlowState, y: Option<Slot>, run: (Eval, State), crun: (COutcome, CState), cx: Context)
    requires Fits(c, st, y, cx) && MatchFits(c.fn, c.inMatch)
    requires SameBody(c.EnterMatch(), st.EnterMatch(), y, run, crun)
    ensures SameEval(c, st, y, run, (Forward(crun.0, cx, ReturnForwarding(st, c.fn), LoopForwarding(st)), crun.1))
  {
    ForwardingFits(st, c.fn);
  }

  /** For every subject, the if chain and the switch do what the source's first accepting case does. */
  lemma {:induction false} PreservesDispatch(e: Expr, c: Scope, st: ControlFlowState, y: Option<Slot>, g: Gen,
          s: CState, fuel: nat, cx: Context)
    requires e.Match? && WellScopedCases(e.cases, e.kind, e.t, c) && Fits(c, st, y, cx)
    requires st.directlyInsideMatch && !c.canYield
    requires cx.place.InLambda? && cx.place.isVoid == !e.t.IntTy?
    ensures SameDispatch(e, cx.place.subject, c, st, y, s.base, s, fuel,
                         ExecC(LowerDispatch(e.kind, e.t, e.cases, st, c.fn, y, g).0, s, fuel, cx))
    decreases fuel, e.cases, 2
  {
    if Select(e.cases, cx.place.subject).Some? {
      PreservesSelected(e.kind, e.t, e.cases, c, st, y, g, s, fuel, cx);
    } else {
      NothingSelected(e.kind, e.t, e.cases, c, st, y, g, s, fuel, cx);
    }
  }

  /** Without an accepting case the chain and the switch come to their ends. */
  lemma NothingSelected(kind: MatchKind, t: Ty, cases: Cases, c: Scope, st: ControlFlowState, y: Option<Slot>, g: Gen,
          s: CState, fuel: nat, cx: Context)
    requires WellScopedCases(cases, kind, t, c) && cx.place.InLambda? && cx.place.isVoid == !t.IntTy?
    requires Select(cases, cx.place.subject).None?
    ensures ExecC(LowerDispatch(kind, t, cases, st, c.fn, y, g).0, s, fuel, cx) == (UnmatchedEnd(kind, t), s)
  {
    NoCatchAll(cases, cx.place.subject);
    if kind.Generic? {
      NoPieceRuns(cases, kind, true, false, t, c, st, y, g, s, fuel, cx);
      ChainEnds(LowerPieces(cases, true, t, st, c.fn, y, g).0, t, s, fuel, cx);
    } else {
      NoCaseEntered(cases, kind, t, kind.SumEnum?, c, st, y, g, cx.place.subject);
      SwitchEnds(LowerCases(cases, t, st, c.fn, y, g).0, kind.SumEnum?, s, fuel, cx);
    }
  }

  lemma ChainEnds(pieces: CPieces, t: Ty, s: CState, fuel: nat, cx: Context)
    requires cx.place.InLambda? && cx.place.isVoid == !t.IntTy?
    requires ExecPieces(pieces, false, false, s, fuel, cx) == (CNormal, s)
    ensures ExecC(CCons(CChain(pieces), ChainEnd(t, false)), s, fuel, cx) == (UnmatchedEnd(Generic, t), s)
  {
    RunOne(CReturn(RetExplicitVoid), s, fuel, cx);
    RunOne(CUnreachable, s, fuel, cx);
  }

  lemma SwitchEnds(cases: CCases, addDefault: bool, s: CState, fuel: nat, cx: Context)
    requires cx.place.InLambda?
    requires Entry(WithDefaultIf(addDefault, cases), cx.place.subject) == if addDefault then CDefault(One(CUnreachable), CNoCase) else CNoCase
    ensures ExecC(One(CSwitch(WithDefaultIf(addDefault, cases))), s, fuel, cx) == (if addDefault then CAborted else CNormal, s)
  {
    hide WithDefaultIf, Entry;
    RunOne(CUnreachable, s, fuel, cx);
    assert FallThrough(CNoCase, s, fuel, cx) == (CNormal, s);
    RunOne(CSwitch(WithDefaultIf(addDefault, cases)), s, fuel, cx);
  }

  lemma {:induction false} NoCatchAll(cases: Cases, v: int)
    requires Select(cases, v).None?
    ensures !HasCatchAll(cases)
  {
    if cases.Case? {
      NoCatchAll(cases.rest, v);
    }
  }

  lemma {:induction false} NoPieceRuns(cases: Cases, kind: MatchKind, first: bool, open: bool, t: Ty, c: Scope,
          st: ControlFlowState, y: Option<Slot>, g: Gen, s: CState, fuel: nat, cx: Context)
    requires WellScopedCases(cases, kind, t, c) && cx.place.InLambda?
    requires Select(cases, cx.place.subject).None? && (first || open)
    ensures ExecPieces(LowerPieces(cases, first, t, st, c.fn, y, g).0, open, false, s, fuel, cx) == (CNormal, s)
    decreases cases
  {
    if cases.Case? {
      TestsMean(cases.pattern);
      var (_, g1) := LowerBody(cases.body, t, st, c.fn, y, g);
      NoPieceRuns(cases.rest, kind, false, true, t, c, st, y, g1, s, fuel, cx);
    }
  }

  lemma {:induction false} NoCaseEntered(cases: Cases, kind: MatchKind, t: Ty, addDefault: bool, c: Scope,
          st: ControlFlowState, y: Option<Slot>, g: Gen, v: int)
    requires WellScopedCases(cases, kind, t, c) && !kind.Generic? && Select(cases, v).None?
    ensures Entry(WithDefaultIf(addDefault, LowerCases(cases, t, st, c.fn, y, g).0), v) ==
            if addDefault then CDefault(One(CUnreachable), CNoCase) else CNoCase
    decreases cases
  {
    if cases.Case? {
      var (body', g1) := LowerBody(cases.body, t, st, c.fn, y, g);
      var rest' := LowerCases(cases.rest, t, st, c.fn, y, g1).0;
      EntersHere(cases.pattern, body', rest', addDefault, v);
      NoCaseEntered(cases.rest, kind, t, addDefault, c, st, y, g1, v);
    } else {
      assert FromLabel(CDefault(One(CUnreachable), CNoCase), v) == FromLabel(CNoCase, v) == CNoCase;
    }
  }

  lemma {:induction false} PreservesSelected(kind: MatchKind, t: Ty, cases: Cases, c: Scope,
          st: ControlFlowState, y: Option<Slot>, g: Gen, s: CState, fuel: nat, cx: Context)
    requires WellScopedCases(cases, kind, t, c) && Fits(c, st, y, cx) && st.directlyInsideMatch && !c.canYield
    requires cx.place.InLambda? && cx.place.isVoid == !t.IntTy?
    requires Select(cases, cx.place.subject).Some?
    ensures SameBody(c, st, y, EvalBody(Select(cases, cx.place.subject).value, t, s.base, fuel),
                     ExecC(LowerDispatch(kind, t, cases, st, c.fn, y, g).0, s, fuel, cx))
    decreases fuel, cases, 1
  {
    var body := EvalBody(Select(cases, cx.place.subject).value, t, s.base, fuel);
    if kind.Generic? {
      PreservesPieces(cases, kind, true, false, t, c, st, y, g, s, fuel, cx);
      var (pieces, _) := LowerPieces(cases, true, t, st, c.fn, y, g);
      assert StepC(CChain(pieces), s, fuel, cx) == ExecPieces(pieces, false, false, s, fuel, cx);
      hide SameBody, Fits;
      LeavesFirst(c, st, y, body, CChain(pieces), ChainEnd(t, HasCatchAll(cases)), s, fuel, cx);
    } else {
      PreservesCases(cases, kind, t, kind.SumEnum? && !HasCatchAll(cases), c, st, y, g, s, fuel, cx);
      var (cases', _) := LowerCases(cases, t, st, c.fn, y, g);
      var all := WithDefaultIf(kind.SumEnum? && !HasCatchAll(cases), cases');
      NoBreakLeaves(c, st, y, body, FallThrough(Entry(all, cx.place.subject), s, fuel, cx));
      hide SameBody, Fits;
      LeavesFirst(c, st, y, body, CSwitch(all), CNil, s, fuel, cx);
    }
  }

  /** Directly inside a match no body ends in a plain break, which the switch would capture. */
  lemma NoBreakLeaves(c: Scope, st: ControlFlowState, y: Option<Slot>, run: (Eval, State), crun: (COutcome, CState))
    requires st.directlyInsideMatch && SameBody(c, st, y, run, crun)
    ensures SameBody(c, st, y, run, (if crun.0.CBroke? then CNormal else crun.0, crun.1))
  {
  }

  /** Once a body has left the lambda, nothing that follows it matters. */
  lemma LeavesFirst(c: Scope, st: ControlFlowState, y: Option<Slot>, run: (Eval, State), first: CStmt, rest: CStmts,
          s: CState, fuel: nat, cx: Context)
    requires st.directlyInsideMatch
    requires SameBody(c, st, y, run, StepC(first, s, fuel, cx))
    ensures SameBody(c, st, y, run, ExecC(CCons(first, rest), s, fuel, cx))
  {
  }

  /** A piece runs if its pattern accepts, whichever way it is chained, and is passed over otherwise. */
  lemma PieceRuns(pattern: Pattern, body: CStmts, rest: CPieces, first: bool, open: bool, s: CState, fuel: nat, cx: Context)
    requires cx.place.InLambda? && (first || open)
    requires pattern.InRange? ==> pattern.from.Some? || pattern.to.Some?
    ensures var run := ExecPieces(Piece(pattern, body, rest, first), open, false, s, fuel, cx);
            if Accepts(pattern, cx.place.subject) then ExecC(body, s, fuel, cx).0.CNormal? || run == ExecC(body, s, fuel, cx)
            else run == ExecPieces(rest, true, false, s, fuel, cx)
  {
    if !pattern.CatchAll? {
      TestsMean(pattern);
    }
    hide Test, Passes;
  }

  /** The if chain runs the body of the first accepting case and leaves the lambda from there. */
  lemma {:induction false} PreservesPieces(cases: Cases, kind: MatchKind, first: bool, open: bool, t: Ty,
          c: Scope, st: ControlFlowState, y: Option<Slot>, g: Gen, s: CState, fuel: nat, cx: Context)
    requires WellScopedCases(cases, kind, t, c) && Fits(c, st, y, cx) && st.directlyInsideMatch && !c.canYield
    requires cx.place.InLambda? && cx.place.isVoid == !t.IntTy?
    requires Select(cases, cx.place.subject).Some?
    requires first || open
    ensures SameBody(c, st, y, EvalBody(Select(cases, cx.place.subject).value, t, s.base, fuel),
                     ExecPieces(LowerPieces(cases, first, t, st, c.fn, y, g).0, open, false, s, fuel, cx))
    decreases fuel, cases, 0
  {
    var Case(pattern, body, rest) := cases;
    var (body', g1) := LowerBody(body, t, st, c.fn, y, g);
    PieceRuns(pattern, body', LowerPieces(rest, false, t, st, c.fn, y, g1).0, first, open, s, fuel, cx);
    hide Fits, ExecPieces, Piece, Accepts;
    if Accepts(pattern, cx.place.subject) {
      PreservesBody(body, t, c, st, y, g, s, fuel, cx);
    } else {
      PreservesPieces(rest, kind, false, true, t, c, st, y, g1, s, fuel, cx);
    }
  }

  /** The cases, with a default behind them if one is called for. */
  function WithDefaultIf(addDefault: bool, cases: CCases): CCases {
    if addDefault then WithDefault(cases) else cases
  }

  /** An accepting case is the one that the switch enters, and one that does not accept is passed over. */
  lemma EntersHere(pattern: Pattern, body: CStmts, rest: CCases, addDefault: bool, v: int)
    requires pattern.Variant? || (pattern.CatchAll? && rest.CNoCase? && !addDefault)
    ensures var all := WithDefaultIf(addDefault, if pattern.Variant? then CCase(pattern.index, body, rest) else CDefault(body, rest));
            if Accepts(pattern, v) then !all.CNoCase? && Entry(all, v) == all && all.body == body
            else Entry(all, v) == Entry(WithDefaultIf(addDefault, rest), v)
  {
    if pattern.CatchAll? {
      assert FromLabel(CDefault(body, CNoCase), v) == FromLabel(CNoCase, v) == CNoCase;
    }
  }

  /** The switch enters at the selected case and never falls through to the next one. */
  lemma {:induction false} PreservesCases(cases: Cases, kind: MatchKind, t: Ty, addDefault: bool, c: Scope,
          st: ControlFlowState, y: Option<Slot>, g: Gen, s: CState, fuel: nat, cx: Context)
    requires WellScopedCases(cases, kind, t, c) && Fits(c, st, y, cx) && st.directlyInsideMatch && !c.canYield
    requires !kind.Generic?
    requires cx.place.InLambda? && cx.place.isVoid == !t.IntTy?
    requires Select(cases, cx.place.subject).Some?
    requires addDefault ==> !HasCatchAll(cases)
    ensures SameBody(c, st, y, EvalBody(Select(cases, cx.place.subject).value, t, s.base, fuel),
                     FallThrough(Entry(WithDefaultIf(addDefault, LowerCases(cases, t, st, c.fn, y, g).0), cx.place.subject), s, fuel, cx))
    decreases fuel, cases, 0
  {
    var Case(pattern, body, rest) := cases;
    var (body', g1) := LowerBody(body, t, st, c.fn, y, g);
    var rest' := LowerCases(rest, t, st, c.fn, y, g1).0;
    EntersHere(pattern, body', rest', addDefault, cx.place.subject);
    hide Fits, Entry, WithDefaultIf;
    if Accepts(pattern, cx.place.subject) {
      PreservesBody(body, t, c, st, y, g, s, fuel, cx);
    } else {
      PreservesCases(rest, kind, t, addDefault, c, st, y, g1, s, fuel, cx);
    }
  }

  lemma {:induction false} PreservesBody(body: MatchBody, t: Ty, c: Scope, st: ControlFlowState,
          y: Option<Slot>, g: Gen, s: CState, fuel: nat, cx: Context)
    requires WellScopedBody(body, t, c) && Fits(c, st, y, cx) && st.directlyInsideMatch && !c.canYield
    requires cx.place.InLambda? && cx.place.isVoid == !t.IntTy?
    ensures SameBody(c, st, y, EvalBody(body, t, s.base, fuel),
                     ExecC(LowerBody(body, t, st, c.fn, y, g).0, s, fuel, cx))
    decreases fuel, body
  {
    match body
    case BodyBlock(b) =>
      PreservesStmts(b.stmts, c, st, y, g, s, fuel, cx);
      var (stmts', _) := LowerStmts(b.stmts, st, c.fn, y, g);
      assert LowerBlock(b, st, c.fn, y, g).0 == CBraces(stmts');
      var (_, s1) := StepC(CBlockStmt(CBraces(stmts')), s, fuel, cx);
      assert ExecBlockC(CBraces(stmts'), s, fuel, cx) == ExecC(stmts', s, fuel, cx);
      RunOne(CReturn(RetExplicitVoid), s1, fuel, cx);
      assert ExecC(CNil, s1, fuel, cx) == (CNormal, s1);
    case BodyExpr(e) =>
      PreservesExpr(e, c, st, y, g, s, fuel, cx);
      var (e', _) := LowerExpr(e, st, c.fn, y, g);
      RunOne(CReturn(if IsVoidOrNever(e) then RetCommaExplicitVoid(e') else RetExplicit(e')), s, fuel, cx);
      if EvalExpr(e, s.base, fuel).0.Val? {
        ValueVoidness(e, s.base, fuel);
      }
  }

  lemma {:induction false} PreservesStmts(ss: Stmts, c: Scope, st: ControlFlowState, y: Option<Slot>, g: Gen,
          s: CState, fuel: nat, cx: Context)
    requires WellScopedStmts(ss, c) && Fits(c, st, y, cx)
    ensures SameRun(c, st, y, ExecStmts(ss, s.base, fuel), ExecC(LowerStmts(ss, st, c.fn, y, g).0, s, fuel, cx))
    decreases fuel, ss
  {
    if ss.Cons? {
      PreservesStmt(ss.head, c, st, y, g, s, fuel, cx);
      var (head', g1) := LowerStmt(ss.head, st, c.fn, y, g);
      var (tail', _) := LowerStmts(ss.tail, st, c.fn, y, g1);
      ExecAppend(head', tail', s, fuel, cx);
      var (o, s1) := ExecC(head', s, fuel, cx);
      PreservesStmts(ss.tail, c, st, y, g1, s1, fuel, cx);
    }
  }

  lemma RunOne(stmt: CStmt, s: CState, fuel: nat, cx: Context)
    ensures ExecC(One(stmt), s, fuel, cx) == StepC(stmt, s, fuel, cx)
  {
    assert forall s1 :: ExecC(CNil, s1, fuel, cx) == (CNormal, s1);
  }

  lemma {:induction false} PreservesStmt(stmt: Stmt, c: Scope, st: ControlFlowState, y: Option<Slot>, g: Gen,
          s: CState, fuel: nat, cx: Context)
    requires WellScopedStmt(stmt, c) && Fits(c, st, y, cx)
    ensures SameRun(c, st, y, ExecStmt(stmt, s.base, fuel), ExecC(LowerStmt(stmt, st, c.fn, y, g).0, s, fuel, cx))
    decreases fuel, stmt, 1
  {
    match stmt
    case ExprStmt(e) =>
      PreservesExpr(e, c, st, y, g, s, fuel, cx);
      RunOne(CExprStmt(LowerExpr(e, st, c.fn, y, g).0), s, fuel, cx);
    case Assign(x, e) =>
      PreservesExpr(e, c, st, y, g, s, fuel, cx);
      RunOne(CAssign(x, LowerExpr(e, st, c.fn, y, g).0), s, fuel, cx);
    case Loop(_) => PreservesLoop(stmt, c, st, y, g, s, fuel, cx);
    case While(_, _) => PreservesWhile(stmt, c, st, y, g, s, fuel, cx);
    case If(_, _, _) => PreservesIf(stmt, c, st, y, g, s, fuel, cx);
    case BlockStmt(b) =>
      PreservesStmts(b.stmts, c, st, y, g, s, fuel, cx);
      RunOne(CBlockStmt(LowerBlock(b, st, c.fn, y, g).0), s, fuel, cx);
    case Break => PreservesLoopExit(stmt, c, st, y, g, s, fuel, cx);
    case Continue => PreservesLoopExit(stmt, c, st, y, g, s, fuel, cx);
    case Return(val) => PreservesReturn(val, c, st, y, g, s, fuel, cx);
    case Yield(e) =>
      PreservesExpr(e, c, st, y, g, s, fuel, cx);
      PreservesYield(e, c, st, y, g, s, fuel, cx);
  }

  lemma PreservesLoopExit(stmt: Stmt, c: Scope, st: ControlFlowState, y: Option<Slot>, g: Gen, s: CState, fuel: nat, cx: Context)
    requires stmt.Break? || stmt.Continue?
    requires WellScopedStmt(stmt, c) && Fits(c, st, y, cx)
    ensures SameRun(c, st, y, ExecStmt(stmt, s.base, fuel), ExecC(LowerStmt(stmt, st, c.fn, y, g).0, s, fuel, cx))
  {
    RunOne(LowerStmt(stmt, st, c.fn, y, g).0.head, s, fuel, cx);
  }

  /** A yield writes its block's slot and jumps to its block's end. */
  lemma PreservesYield(e: Expr, c: Scope, st: ControlFlowState, y: Option<Slot>, g: Gen, s: CState, fuel: nat, cx: Context)
    requires WellScopedStmt(Yield(e), c) && Fits(c, st, y, cx)
    requires SameEval(c, st, y, EvalExpr(e, s.base, fuel), EvalC(LowerExpr(e, st, c.fn, y, g).0, s, fuel, cx))
    ensures SameRun(c, st, y, ExecStmt(Yield(e), s.base, fuel), ExecC(LowerStmt(Yield(e), st, c.fn, y, g).0, s, fuel, cx))
  {
    var (e', _) := LowerExpr(e, st, c.fn, y, g);
    var (_, s1) := StepC(CSetSlot(y.value.name, e'), s, fuel, cx);
    RunOne(CGoto(y.value.yieldLabel), s1, fuel, cx);
  }

  /** A bare return is emitted in the form that its place takes. */
  lemma PreservesBareReturn(c: Scope, st: ControlFlowState, y: Option<Slot>, g: Gen, s: CState, fuel: nat, cx: Context)
    requires WellScopedStmt(Return(None), c) && Fits(c, st, y, cx)
    ensures SameRun(c, st, y, ExecStmt(Return(None), s.base, fuel), ExecC(LowerStmt(Return(None), st, c.fn, y, g).0, s, fuel, cx))
  {
    RunOne(CReturn(if c.fn.canThrow || st.indirectlyInsideMatch then RetBraces else RetNaked), s, fuel, cx);
  }

  lemma {:induction false} PreservesReturn(val: Option<Expr>, c: Scope, st: ControlFlowState, y: Option<Slot>,
          g: Gen, s: CState, fuel: nat, cx: Context)
    requires WellScopedStmt(Return(val), c) && Fits(c, st, y, cx)
    ensures SameRun(c, st, y, ExecStmt(Return(val), s.base, fuel), ExecC(LowerStmt(Return(val), st, c.fn, y, g).0, s, fuel, cx))
    decreases fuel, Return(val), 0
  {
    match val
    case None => PreservesBareReturn(c, st, y, g, s, fuel, cx);
    case Some(e) =>
      PreservesExpr(e, c, st, y, g, s, fuel, cx);
      LoweredVoidness(e, st, c.fn, y, g);
      var (e', _) := LowerExpr(e, st, c.fn, y, g);
      if EvalExpr(e, s.base, fuel).0.Val? {
        ValueVoidness(e, s.base, fuel);
      }
      if c.fn.canThrow && IsVoidOrNever(e) {
        var (_, s1) := StepC(CExprStmt(e'), s, fuel, cx);
        RunOne(CReturn(RetBraces), s1, fuel, cx);
      } else {
        RunOne(CReturn(RetExpr(e')), s, fuel, cx);
      }
  }

  lemma {:induction false} PreservesIf(stmt: Stmt, c: Scope, st: ControlFlowState, y: Option<Slot>, g: Gen,
          s: CState, fuel: nat, cx: Context)
    requires stmt.If?
    requires WellScopedStmt(stmt, c) && Fits(c, st, y, cx)
    ensures SameRun(c, st, y, ExecStmt(stmt, s.base, fuel), ExecC(LowerStmt(stmt, st, c.fn, y, g).0, s, fuel, cx))
    decreases fuel, stmt, 0
  {
    var If(cond, b, els) := stmt;
    PreservesExpr(cond, c, st, y, g, s, fuel, cx);
    var (cond', g1) := LowerExpr(cond, st, c.fn, y, g);
    var (b', g2) := LowerBlock(b, st, c.fn, y, g1);
    var (els', _) := LowerElse(els, st, c.fn, y, g2);
    var (_, s1) := EvalC(cond', s, fuel, cx);
    PreservesStmts(b.stmts, c, st, y, g1, s1, fuel, cx);
    if els.ElseStmt? {
      PreservesStmt(els.s, c, st, y, g2, s1, fuel, cx);
    }
    RunOne(CIf(cond', b', els'), s, fuel, cx);
  }

  /** One execution of a loop body is followed by the same thing on both sides. */
  lemma AfterBodyAgrees(c: Scope, st: ControlFlowState, y: Option<Slot>, run: (Outcome, State), crun: (COutcome, CState))
    requires SameRun(c.EnterLoop(), st.EnterLoop(), y, run, crun)
    requires !run.0.Stuck?
    ensures crun.1.base == run.1
    ensures AfterBodyC(crun.0).CContinued? <==> AfterBody(run.0).Continued?
    ensures !AfterBody(run.0).Continued? ==>
              SameRun(c, st, y, (AfterBody(run.0), run.1), (AfterBodyC(crun.0), crun.1))
  {
  }

  lemma {:induction false} PreservesLoop(stmt: Stmt, c: Scope, st: ControlFlowState, y: Option<Slot>, g: Gen,
          s: CState, fuel: nat, cx: Context)
    requires stmt.Loop?
    requires WellScopedStmt(stmt, c) && Fits(c, st, y, cx)
    ensures SameRun(c, st, y, ExecStmt(stmt, s.base, fuel), ExecC(LowerStmt(stmt, st, c.fn, y, g).0, s, fuel, cx))
    decreases fuel, stmt, 0
  {
    var b := stmt.body;
    var (b', _) := LowerBlock(b, st.EnterLoop(), c.fn, y, g);
    PreservesStmts(b.stmts, c.EnterLoop(), st.EnterLoop(), y, g, s, fuel, cx);
    RunOne(CFor(b'), s, fuel, cx);
    var (o, s1) := ExecStmts(b.stmts, s.base, fuel);
    var (co, cs1) := ExecBlockC(b', s, fuel, cx);
    if !o.Stuck? {
      AfterBodyAgrees(c, st, y, (o, s1), (co, cs1));
      if AfterBody(o).Continued? && fuel > 0 {
        PreservesStmt(stmt, c, st, y, g, cs1, fuel - 1, cx);
        RunOne(CFor(b'), cs1, fuel - 1, cx);
      }
    }
  }

  /** The body of a loop stands in a loop; its condition may, but the generator does not know. */
  lemma FitsLoop(c: Scope, st: ControlFlowState, y: Option<Slot>, cx: Context)
    requires Fits(c, st, y, cx)
    ensures Fits(c.EnterLoop(), st.EnterLoop(), y, cx) && Fits(c.EnterCondition(), st, y, cx)
  {
  }

  lemma {:induction false} PreservesWhile(stmt: Stmt, c: Scope, st: ControlFlowState, y: Option<Slot>, g: Gen,
          s: CState, fuel: nat, cx: Context)
    requires stmt.While?
    requires WellScopedStmt(stmt, c) && Fits(c, st, y, cx)
    ensures SameRun(c, st, y, ExecStmt(stmt, s.base, fuel), ExecC(LowerStmt(stmt, st, c.fn, y, g).0, s, fuel, cx))
    decreases fuel, stmt, 0
  {
    var While(cond, b) := stmt;
    FitsLoop(c, st, y, cx);
    assert cx.fn == c.fn == c.EnterLoop().fn == c.EnterCondition().fn;
    hide Fits;
    PreservesExpr(cond, c.EnterCondition(), st, y, g, s, fuel, cx);
    var (cond', g1) := LowerExpr(cond, st, c.fn, y, g);
    var (b', _) := LowerBlock(b, st.EnterLoop(), c.fn, y, g1);
    RunOne(CWhile(cond', b'), s, fuel, cx);
    var (r, s1) := EvalExpr(cond, s.base, fuel);
    if IsInt(r) && r.v.n != 0 {
      var (_, cs1) := EvalC(cond', s, fuel, cx);
      PreservesStmts(b.stmts, c.EnterLoop(), st.EnterLoop(), y, g1, cs1, fuel, cx);
      var (o, s2) := ExecStmts(b.stmts, s1, fuel);
      var (co, cs2) := ExecBlockC(b', cs1, fuel, cx);
      if !o.Stuck? {
        AfterBodyAgrees(c, st, y, (o, s2), (co, cs2));
        if AfterBody(o).Continued? && fuel > 0 {
          PreservesStmt(stmt, c, st, y, g, cs2, fuel - 1, cx);
          RunOne(CWhile(cond', b'), cs2, fuel - 1, cx);
        }
      }
    }
  }

  /** The C++ reading of a finished function. */
  function Finished(o: Outcome): COutcome {
    match o
    case Returned(v) => CReturned(Plain(v))
    case Aborted => CAborted
    case Timeout => CTimeout
    case _ => CFault
  }

  predicate ExitsNoLoop(o: Outcome) {
    !o.Broke? && !o.Continued?
  }

  /** Outcomes for which there is no C++. */
  predicate HasNoRendering(o: Outcome) {
    !ExitsNoLoop(o) || o.Unmatched? || o.EndReached?
  }

  /** The emitted function's run is the source's; it faults if a loop exit has left the function, a match was left unmatched, or a value is missing. */
  ghost predicate SameFunction(run: (Outcome, State), crun: (COutcome, CState)) {
    || run.0.Stuck?
    || (&& crun.0 == Finished(run.0) && crun.1.base == run.1
        && (crun.0 == CFault <==> HasNoRendering(run.0)))
  }

  /**
   The main result, for every function that the type checker accepts, every starting state and
   every number of loop iterations. The emitted function consists of returns and matches that C++
   takes exactly when those of the source fit the type it is emitted with. If so, it returns, aborts
   or keeps running as the source does, with the same variables and the same visible effects, but
   for three kinds of runs: those in which the source leaves a loop from the condition of an outermost
   loop, those in which a match on an enum with an underlying type meets a value that it has no case
   for, and those that reach the end of a function without the value it should return. These fault.
   If every loop exit in the emitted function is received, which again is a matter of the source text,
   the first kind is ruled out.
   */
  lemma LoweringPreservesMeaning(body: Stmts, fn: Fn, g: Gen, s: State, slots: map<nat, Value>, fuel: nat)
    requires WellScopedStmts(body, FunctionScope(fn, Accepted))
    ensures var emitted := LowerFunction(body, fn, g).0;
            var run := RunFunction(body, fn, s, fuel);
            var crun := RunFunctionC(emitted, fn, CState(s, slots), fuel);
            && (PlacedStmts(emitted, FunctionSpot(fn, false)) <==> WellScopedStmts(body, FunctionScope(fn, Fitting)))
            && (PlacedStmts(emitted, FunctionSpot(fn, true)) <==> WellScopedStmts(body, FunctionScope(fn, Taken)))
            && (PlacedStmts(emitted, FunctionSpot(fn, false)) ==> SameFunction(run, crun))
            && (PlacedStmts(emitted, FunctionSpot(fn, true)) ==>
                  SameFunction(run, crun) && (run.0.Stuck? || ExitsNoLoop(run.0)))
  {
    ExitsBindToTheirTargets(body, fn, g);
    if WellScopedStmts(body, FunctionScope(fn, Fitting)) {
      FunctionRunsAlike(body, FunctionScope(fn, Fitting), g, s, slots, fuel);
    }
    if WellScopedStmts(body, FunctionScope(fn, Taken)) {
      FunctionRunsAlike(body, FunctionScope(fn, Taken), g, s, slots, fuel);
    }
  }

  lemma FunctionRunsAlike(body: Stmts, c: Scope, g: Gen, s: State, slots: map<nat, Value>, fuel: nat)
    requires c == FunctionScope(c.fn, c.rule) && !c.rule.Accepted? && WellScopedStmts(body, c)
    ensures var run := RunFunction(body, c.fn, s, fuel);
            && SameFunction(run, RunFunctionC(LowerFunction(body, c.fn, g).0, c.fn, CState(s, slots), fuel))
            && (c.rule.Taken? ==> run.0.Stuck? || ExitsNoLoop(run.0))
  {
    PreservesStmts(body, c, ControlFlowState.NoControlFlow().EnterFunction(), None, g, CState(s, slots), fuel,
                   Context(c.fn, InFunction));
  }

  // ----- Where the lowering does not hold its promise -----

  /**
   `return f()` for a void or never-returning `f` is emitted as it stands unless the function
   throws. Inside a match that hands a void expression to the lambda's result type, and in a
   function that is emitted as main to ErrorOr<int>; C++ refuses both. The emitted return is right
   exactly when the function's own result is void and it may throw or no match surrounds it.
   */
  lemma ReturnOfVoidCall(e: Expr, c: Scope, st: ControlFlowState, y: Option<Slot>, g: Gen, s: CState, fuel: nat, cx: Context)
    requires WellScopedExpr(e, c) && IsVoidOrNever(e) && ReturnIsAccepted(Some(e), c.fn) && Fits(c, st, y, cx)
    requires EvalExpr(e, s.base, fuel).0.Val? || (EvalExpr(e, s.base, fuel).0 == Exit(Aborted) && !c.fn.canThrow)
    ensures SameRun(c, st, y, ExecStmt(Return(Some(e)), s.base, fuel), ExecC(LowerStmt(Return(Some(e)), st, c.fn, y, g).0, s, fuel, cx))
            <==> c.fn.ValueIsVoid() && (c.fn.canThrow || !c.inMatch)
  {
    if c.fn.ValueIsVoid() && (c.fn.canThrow || !c.inMatch) {
      PreservesStmt(Return(Some(e)), c, st, y, g, s, fuel, cx);
    } else {
      LoweredVoidness(e, st, c.fn, y, g);
      var (e', _) := LowerExpr(e, st, c.fn, y, g);
      RunOne(CReturn(RetExpr(e')), s, fuel, cx);
      if EvalExpr(e, s.base, fuel).0.Val? {
        ValueVoidness(e, s.base, fuel);
      }
    }
  }

  /** `match v as! E { A => {} }` for an enum E with an underlying type and one variant A, of number 0. */
  function CastMatch(v: int): Expr {
    Match(ValueEnum, VoidTy, Lit(v), Case(Variant(0), BodyBlock(Block(false, Nil)), NoCase))
  }

  /**
   The type checker accepts a match on an enum with an underlying type if all variants are named, and
   the emitted switch has no default. A value that is no variant's, as a cast can make it, runs off
   the end of the lambda. The smallest case, which faults for every number but the variant's.
   */
  lemma UnmatchedCast(v: int, c: Scope, st: ControlFlowState, y: Option<Slot>, g: Gen, s: CState, fuel: nat, cx: Context)
    requires Fits(c, st, y, cx) && MatchFits(c.fn, c.inMatch)
    ensures WellScopedExpr(CastMatch(v), c) && WellScopedExpr(CastMatch(v), c.(rule := Accepted))
    ensures var r := EvalExpr(CastMatch(v), s.base, fuel).0;
            var cr := EvalC(LowerExpr(CastMatch(v), st, c.fn, y, g).0, s, fuel, cx).0;
            if v == 0 then r == Val(Void) && cr == CVal(Void) else r == Exit(Unmatched) && cr == CExit(CFault)
  {
    var cases := CastMatch(v).cases;
    assert forall d: Scope :: WellScopedCases(cases, ValueEnum, VoidTy, d) by {
      assert forall d: Scope :: WellScopedBody(cases.body, VoidTy, d);
    }
    assert forall d: Scope :: WellScopedExpr(Lit(v), d);
    assert Select(cases, v) == if v == 0 then Some(cases.body) else Select(NoCase, v);
    assert EvalBody(cases.body, VoidTy, s.base, fuel) == (Val(Void), s.base);
    PreservesExpr(CastMatch(v), c, st, y, g, s, fuel, cx);
  }

  /** `while match 0 { else => { break } } { body }` */
  function BreakingCondition(body: Block): Stmt {
    While(Match(Generic, IntTy, Lit(0), Case(CatchAll, BodyBlock(Block(false, Cons(Break, Nil))), NoCase)), body)
  }

  /**
   The type checker accepts loop exits in a condition, but the condition is generated in
   the state outside the loop: such an exit reaches a loop exactly when the state outside
   allows loop exits, and otherwise ends in `release_value()` on a LoopBreak.
   */
  lemma ExitInWhileCondition(body: Block, c: Scope, st: ControlFlowState, y: Option<Slot>, g: Gen, s: CState,
          fuel: nat, cx: Context)
    requires Fits(c, st, y, cx) && c.rule.Fitting? && MatchFits(c.fn, c.inMatch)
    requires !body.isYielding && WellScopedStmts(body.stmts, c.EnterLoop())
    ensures var w := BreakingCondition(body);
            && WellScopedStmt(w, c)
            && ExecStmt(w, s.base, fuel).0 == Broke
            && (ExecC(LowerStmt(w, st, c.fn, y, g).0, s, fuel, cx).0 == CFault <==> !AreLoopExitsAllowed(st.allowedExits))
  {
    var w := BreakingCondition(body);
    var breaking := Cons(Break, Nil);
    var arm := BodyBlock(Block(false, breaking));
    assert WellScopedStmts(breaking, c.EnterLoop().EnterMatch());
    assert ExecStmts(breaking, s.base, fuel) == (Broke, s.base);
    assert EvalBody(arm, IntTy, s.base, fuel) == (Exit(Broke), s.base);
    assert EvalExpr(w.cond, s.base, fuel) == (Exit(Broke), s.base) by {
      assert Select(w.cond.cases, 0) == Some(arm);
    }
    assert WellScopedCases(w.cond.cases, Generic, IntTy, c.EnterLoop().EnterMatch()) by {
      assert WellScopedBody(arm, IntTy, c.EnterLoop().EnterMatch());
    }
    assert WellScopedExpr(w.cond, c.EnterLoop()) by {
      assert WellScopedExpr(Lit(0), c.EnterLoop().EnterMatch());
    }
    if AreLoopExitsAllowed(st.allowedExits) {
      PreservesStmt(w, c, st, y, g, s, fuel, cx);
    } else {
      ConditionFaults(w.cond, st, c.fn, y, g, s, fuel, cx);
      var (cond', g1) := LowerExpr(w.cond, st, c.fn, y, g);
      RunOne(CWhile(cond', LowerBlock(body, st.EnterLoop(), c.fn, y, g1).0), s, fuel, cx);
    }
  }

  lemma ConditionFaults(cond: Expr, st: ControlFlowState, fn: Fn, y: Option<Slot>, g: Gen, s: CState, fuel: nat, cx: Context)
    requires cond == BreakingCondition(Block(false, Nil)).cond
    requires !AreLoopExitsAllowed(st.allowedExits)
    ensures EvalC(LowerExpr(cond, st, fn, y, g).0, s, fuel, cx).0 == CExit(CFault)
  {
    var inside := Context(cx.fn, InLambda(false, 0));
    var exit := One(CReturn(RetLoopBreak));
    var piece := One(CBlockStmt(CBraces(exit)));
    ConditionLowers(cond, st, fn, y, g);
    hide LowerExpr;
    RunOne(CReturn(RetLoopBreak), s, fuel, inside);
    RunOne(CBlockStmt(CBraces(exit)), s, fuel, inside);
    RunOne(CChain(BracePiece(piece, CNoPiece)), s, fuel, inside);
  }

  lemma ConditionLowers(cond: Expr, st: ControlFlowState, fn: Fn, y: Option<Slot>, g: Gen)
    requires cond == BreakingCondition(Block(false, Nil)).cond
    requires !AreLoopExitsAllowed(st.allowedExits)
    ensures var chain := CChain(BracePiece(One(CBlockStmt(CBraces(One(CReturn(RetLoopBreak))))), CNoPiece));
            LowerExpr(cond, st, fn, y, g).0 == CMatch(false, CLit(0), One(chain), ReturnForwarding(st, fn), NoLoopTests)
  {
    var exit := One(CReturn(RetLoopBreak));
    var piece := One(CBlockStmt(CBraces(exit)));
    assert LowerStmts(Cons(Break, Nil), st.EnterMatch(), fn, y, g).0 == exit;
    assert LowerBody(cond.cases.body, IntTy, st.EnterMatch(), fn, y, g).0 == piece;
    assert LowerPieces(cond.cases, true, IntTy, st.EnterMatch(), fn, y, g).0 == BracePiece(piece, CNoPiece);
  }
}
