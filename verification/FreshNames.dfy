/** All slots and labels generated in one run of the code generator are distinct. */
module FreshNames {
  import opened Wrappers
  import opened ControlFlow
  import opened Jakt
  import opened Cpp
  import opened Lowering

  // ----- The names a tree declares, in the order of the text -----

  function NamesOfExpr(e: CExpr): seq<Slot> {
    match e
    case CBin(_, l, r) => NamesOfExpr(l) + NamesOfExpr(r)
    case CPrint(arg) => NamesOfExpr(arg)
    case CMatch(_, subject, body, _, _) => NamesOfExpr(subject) + NamesOfStmts(body)
    case CBlockExpr(b) => NamesOfBlock(b)
    case _ => []
  }

  function NamesOfBlock(b: CBlock): seq<Slot> {
    match b
    case CBraces(body) => NamesOfStmts(body)
    case CYielding(slot, yieldLabel, body) => [Slot(slot, yieldLabel)] + NamesOfStmts(body)
  }

  function NamesOfStmts(ss: CStmts): seq<Slot> {
    match ss
    case CNil => []
    case CCons(s, rest) => NamesOfStmt(s) + NamesOfStmts(rest)
  }

  function NamesOfReturn(form: CReturnForm): seq<Slot> {
    match form
    case RetExpr(e) => NamesOfExpr(e)
    case RetExplicit(e) => NamesOfExpr(e)
    case RetCommaExplicitVoid(e) => NamesOfExpr(e)
    case _ => []
  }

  function NamesOfElse(els: CElse): seq<Slot> {
    match els
    case CNoElse => []
    case CElseStmt(s) => NamesOfStmts(s)
  }

  function NamesOfStmt(s: CStmt): seq<Slot> {
    match s
    case CExprStmt(e) => NamesOfExpr(e)
    case CAssign(_, e) => NamesOfExpr(e)
    case CFor(b) => NamesOfBlock(b)
    case CWhile(cond, b) => NamesOfExpr(cond) + NamesOfBlock(b)
    case CIf(cond, b, els) => NamesOfExpr(cond) + (NamesOfBlock(b) + NamesOfElse(els))
    case CBlockStmt(b) => NamesOfBlock(b)
    case CReturn(form) => NamesOfReturn(form)
    case CSetSlot(_, e) => NamesOfExpr(e)
    case CSwitch(cases) => NamesOfCases(cases)
    case CChain(pieces) => NamesOfPieces(pieces)
    case _ => []
  }

  function NamesOfCases(cases: CCases): seq<Slot> {
    match cases
    case CNoCase => []
    case CCase(_, body, rest) => NamesOfStmts(body) + NamesOfCases(rest)
    case CDefault(body, rest) => NamesOfStmts(body) + NamesOfCases(rest)
  }

  function NamesOfPieces(pieces: CPieces): seq<Slot> {
    match pieces
    case CNoPiece => []
    case IfPiece(_, body, rest) => NamesOfStmts(body) + NamesOfPieces(rest)
    case ElseIfPiece(_, body, rest) => NamesOfStmts(body) + NamesOfPieces(rest)
    case ElsePiece(body, rest) => NamesOfStmts(body) + NamesOfPieces(rest)
    case BracePiece(body, rest) => NamesOfStmts(body) + NamesOfPieces(rest)
  }

  /** Names drawn, in order, from the counters between `g` and `g'`. */
  ghost predicate Drawn(names: seq<Slot>, g: Gen, g': Gen) {
    if names == [] then
      g.vars <= g'.vars && g.labels <= g'.labels
    else
      && g.vars <= names[0].name && g.labels <= names[0].yieldLabel
      && Drawn(names[1..], Gen(names[0].name + 1, names[0].yieldLabel + 1), g')
  }

  lemma {:induction false} DrawnConcat(a: seq<Slot>, b: seq<Slot>, g: Gen, g1: Gen, g2: Gen)
    requires Drawn(a, g, g1) && Drawn(b, g1, g2)
    ensures Drawn(a + b, g, g2)
  {
    if a == [] {
      assert a + b == b;
    } else {
      assert (a + b)[0] == a[0] && (a + b)[1..] == a[1..] + b;
      DrawnConcat(a[1..], b, Gen(a[0].name + 1, a[0].yieldLabel + 1), g1, g2);
    }
  }

  lemma {:induction false} DrawnIsRising(names: seq<Slot>, g: Gen, g': Gen)
    requires Drawn(names, g, g')
    ensures g.vars <= g'.vars && g.labels <= g'.labels
    ensures forall i :: 0 <= i < |names| ==>
              g.vars <= names[i].name < g'.vars && g.labels <= names[i].yieldLabel < g'.labels
    ensures forall i, j :: 0 <= i < j < |names| ==>
              names[i].name < names[j].name && names[i].yieldLabel < names[j].yieldLabel
  {
    if names != [] {
      var first, rest := names[0], names[1..];
      assert names == [first] + rest;
      DrawnIsRising(rest, Gen(first.name + 1, first.yieldLabel + 1), g');
    }
  }

  lemma {:induction false} NamesOfAppend(a: CStmts, b: CStmts)
    ensures NamesOfStmts(Append(a, b)) == NamesOfStmts(a) + NamesOfStmts(b)
  {
    if a.CCons? {
      NamesOfAppend(a.tail, b);
    }
  }

  lemma {:induction false} DrawsExpr(e: Expr, st: ControlFlowState, fn: Fn, y: Option<Slot>, g: Gen)
    ensures Drawn(NamesOfExpr(LowerExpr(e, st, fn, y, g).0), g, LowerExpr(e, st, fn, y, g).1)
    decreases e, 1
  {
    match e
    case Bin(_, l, r) =>
      var (l', g1) := LowerExpr(l, st, fn, y, g);
      var (r', g2) := LowerExpr(r, st, fn, y, g1);
      DrawsExpr(l, st, fn, y, g);
      DrawsExpr(r, st, fn, y, g1);
      DrawnConcat(NamesOfExpr(l'), NamesOfExpr(r'), g, g1, g2);
    case Print(arg) => DrawsExpr(arg, st, fn, y, g);
    case Match(_, _, _, _) => DrawsMatch(e, st, fn, y, g);
    case BlockExpr(b) => DrawsBlock(b, st, fn, y, g);
    case _ =>
  }

  lemma {:induction false} DrawsMatch(e: Expr, st: ControlFlowState, fn: Fn, y: Option<Slot>, g: Gen)
    requires e.Match?
    ensures Drawn(NamesOfExpr(LowerExpr(e, st, fn, y, g).0), g, LowerExpr(e, st, fn, y, g).1)
    decreases e, 0
  {
    var Match(kind, t, subject, cases) := e;
    var (_, g0) := if kind.Generic? then (CAbort, g) else LowerExpr(subject, st.EnterMatch(), fn, y, g);
    var (subject', g1) := LowerExpr(subject, st.EnterMatch(), fn, y, g0);
    var (body, g2) := LowerDispatch(kind, t, cases, st.EnterMatch(), fn, y, g1);
    var names := NamesOfExpr(subject') + NamesOfStmts(body);
    DrawsExpr(subject, st.EnterMatch(), fn, y, g0);
    DrawsDispatch(kind, t, cases, st.EnterMatch(), fn, y, g1);
    DrawnConcat(NamesOfExpr(subject'), NamesOfStmts(body), g0, g1, g2);
    if !kind.Generic? {
      DrawsExpr(subject, st.EnterMatch(), fn, y, g);
      DrawnIsRising(NamesOfExpr(LowerExpr(subject, st.EnterMatch(), fn, y, g).0), g, g0);
      DrawnConcat([], names, g, g0, g2);
      assert [] + names == names;
    }
    assert NamesOfExpr(LowerExpr(e, st, fn, y, g).0) == names;
  }

  lemma {:induction false} DrawsDispatch(kind: MatchKind, t: Ty, cases: Cases, st: ControlFlowState, fn: Fn,
          y: Option<Slot>, g: Gen)
    ensures var (body, g') := LowerDispatch(kind, t, cases, st, fn, y, g);
            Drawn(NamesOfStmts(body), g, g')
    decreases cases, 1
  {
    NamesOfDispatch(kind, t, cases, st, fn, y, g);
    if kind.Generic? {
      DrawsPieces(cases, true, t, st, fn, y, g);
    } else {
      DrawsCases(cases, t, st, fn, y, g);
    }
  }

  lemma NamesOfDispatch(kind: MatchKind, t: Ty, cases: Cases, st: ControlFlowState, fn: Fn, y: Option<Slot>, g: Gen)
    ensures NamesOfStmts(LowerDispatch(kind, t, cases, st, fn, y, g).0) ==
            if kind.Generic? then NamesOfPieces(LowerPieces(cases, true, t, st, fn, y, g).0)
            else NamesOfCases(LowerCases(cases, t, st, fn, y, g).0)
  {
    if kind.Generic? {
      var (pieces, _) := LowerPieces(cases, true, t, st, fn, y, g);
      NamesOfChainEnd(t, HasCatchAll(cases));
      assert NamesOfStmts(CCons(CChain(pieces), ChainEnd(t, HasCatchAll(cases)))) == NamesOfPieces(pieces) + [];
    } else {
      var (cases', _) := LowerCases(cases, t, st, fn, y, g);
      NamesOfDefault(cases');
      NamesOfOne(CSwitch(if kind.SumEnum? && !HasCatchAll(cases) then WithDefault(cases') else cases'));
    }
  }

  lemma NamesOfChainEnd(t: Ty, hasDefault: bool)
    ensures NamesOfStmts(ChainEnd(t, hasDefault)) == []
  {
    NamesOfOne(CReturn(RetExplicitVoid));
    NamesOfOne(CUnreachable);
  }

  lemma {:induction false} NamesOfDefault(cases: CCases)
    ensures NamesOfCases(WithDefault(cases)) == NamesOfCases(cases)
  {
    if cases.CNoCase? {
      assert NamesOfStmts(One(CUnreachable)) == [];
    } else {
      NamesOfDefault(cases.rest);
    }
  }

  lemma {:induction false} DrawsPieces(cases: Cases, first: bool, t: Ty, st: ControlFlowState, fn: Fn,
          y: Option<Slot>, g: Gen)
    ensures var (pieces, g') := LowerPieces(cases, first, t, st, fn, y, g);
            Drawn(NamesOfPieces(pieces), g, g')
    decreases cases, 0
  {
    if cases.Case? {
      var (body', g1) := LowerBody(cases.body, t, st, fn, y, g);
      var (rest', g2) := LowerPieces(cases.rest, false, t, st, fn, y, g1);
      DrawsBody(cases.body, t, st, fn, y, g);
      DrawsPieces(cases.rest, false, t, st, fn, y, g1);
      DrawnConcat(NamesOfStmts(body'), NamesOfPieces(rest'), g, g1, g2);
    }
  }

  lemma {:induction false} DrawsCases(cases: Cases, t: Ty, st: ControlFlowState, fn: Fn, y: Option<Slot>, g: Gen)
    ensures var (cases', g') := LowerCases(cases, t, st, fn, y, g);
            Drawn(NamesOfCases(cases'), g, g')
    decreases cases, 0
  {
    if cases.Case? {
      var (body', g1) := LowerBody(cases.body, t, st, fn, y, g);
      var (rest', g2) := LowerCases(cases.rest, t, st, fn, y, g1);
      DrawsBody(cases.body, t, st, fn, y, g);
      DrawsCases(cases.rest, t, st, fn, y, g1);
      DrawnConcat(NamesOfStmts(body'), NamesOfCases(rest'), g, g1, g2);
    }
  }

  lemma {:induction false} DrawsBody(body: MatchBody, t: Ty, st: ControlFlowState, fn: Fn, y: Option<Slot>, g: Gen)
    ensures var (body', g') := LowerBody(body, t, st, fn, y, g);
            Drawn(NamesOfStmts(body'), g, g')
    decreases body
  {
    match body
    case BodyBlock(b) =>
      DrawsBlock(b, st, fn, y, g);
      var (b', g1) := LowerBlock(b, st, fn, y, g);
      NamesOfOne(CReturn(RetExplicitVoid));
      var tail := if t.VoidTy? then One(CReturn(RetExplicitVoid)) else CNil;
      assert NamesOfStmts(CCons(CBlockStmt(b'), tail)) == NamesOfBlock(b') + [] == NamesOfBlock(b');
    case BodyExpr(e) =>
      DrawsExpr(e, st, fn, y, g);
      var (e', _) := LowerExpr(e, st, fn, y, g);
      NamesOfOne(CReturn(if IsVoidOrNever(e) then RetCommaExplicitVoid(e') else RetExplicit(e')));
  }

  lemma {:induction false} DrawsBlock(b: Block, st: ControlFlowState, fn: Fn, y: Option<Slot>, g: Gen)
    ensures Drawn(NamesOfBlock(LowerBlock(b, st, fn, y, g).0), g, LowerBlock(b, st, fn, y, g).1)
    decreases b
  {
    if b.isYielding {
      var own, g0 := Slot(g.vars, g.labels), Gen(g.vars + 1, g.labels + 1);
      var (body, g1) := LowerStmts(b.stmts, st, fn, Some(own), g0);
      DrawsStmts(b.stmts, st, fn, Some(own), g0);
      DrawnConcat([own], NamesOfStmts(body), g, g0, g1);
    } else {
      DrawsStmts(b.stmts, st, fn, y, g);
    }
  }

  lemma {:induction false} DrawsStmts(ss: Stmts, st: ControlFlowState, fn: Fn, y: Option<Slot>, g: Gen)
    ensures Drawn(NamesOfStmts(LowerStmts(ss, st, fn, y, g).0), g, LowerStmts(ss, st, fn, y, g).1)
    decreases ss
  {
    if ss.Cons? {
      var (head', g1) := LowerStmt(ss.head, st, fn, y, g);
      var (tail', g2) := LowerStmts(ss.tail, st, fn, y, g1);
      DrawsStmt(ss.head, st, fn, y, g);
      DrawsStmts(ss.tail, st, fn, y, g1);
      NamesOfAppend(head', tail');
      DrawnConcat(NamesOfStmts(head'), NamesOfStmts(tail'), g, g1, g2);
    }
  }

  lemma NamesOfOne(s: CStmt)
    ensures NamesOfStmts(One(s)) == NamesOfStmt(s)
  {
    assert NamesOfStmts(CNil) == [];
  }

  lemma NamesOfTwo(a: CStmt, b: CStmt)
    ensures NamesOfStmts(CCons(a, One(b))) == NamesOfStmt(a) + NamesOfStmt(b)
  {
    NamesOfOne(b);
  }

  /** The expression, if any, that makes up a simple statement. */
  function ExprOf(s: Stmt): Option<Expr>
    requires !s.While? && !s.If? && !s.Loop? && !s.BlockStmt?
  {
    match s
    case ExprStmt(e) => Some(e)
    case Assign(_, e) => Some(e)
    case Return(val) => val
    case Yield(e) => Some(e)
    case _ => None
  }

  lemma NamesOfSimple(s: Stmt, st: ControlFlowState, fn: Fn, y: Option<Slot>, g: Gen)
    requires !s.While? && !s.If? && !s.Loop? && !s.BlockStmt?
    ensures match ExprOf(s)
            case None => NamesOfStmts(LowerStmt(s, st, fn, y, g).0) == [] && LowerStmt(s, st, fn, y, g).1 == g
            case Some(e) =>
              && (NamesOfStmts(LowerStmt(s, st, fn, y, g).0) == NamesOfExpr(LowerExpr(e, st, fn, y, g).0)
                  || NamesOfStmts(LowerStmt(s, st, fn, y, g).0) == [])
              && LowerStmt(s, st, fn, y, g).1 == LowerExpr(e, st, fn, y, g).1
  {
    var out := LowerStmt(s, st, fn, y, g).0;
    if out.tail.CNil? {
      NamesOfOne(out.head);
    } else {
      NamesOfTwo(out.head, out.tail.head);
    }
  }

  lemma {:induction false} DrawsStmt(s: Stmt, st: ControlFlowState, fn: Fn, y: Option<Slot>, g: Gen)
    ensures Drawn(NamesOfStmts(LowerStmt(s, st, fn, y, g).0), g, LowerStmt(s, st, fn, y, g).1)
    decreases s, 1
  {
    if s.Loop? {
      DrawsBlock(s.body, st.EnterLoop(), fn, y, g);
      NamesOfOne(CFor(LowerBlock(s.body, st.EnterLoop(), fn, y, g).0));
    } else if s.While? {
      DrawsWhile(s, st, fn, y, g);
    } else if s.If? {
      DrawsIf(s, st, fn, y, g);
    } else if s.BlockStmt? {
      DrawsBlock(s.block, st, fn, y, g);
      NamesOfOne(CBlockStmt(LowerBlock(s.block, st, fn, y, g).0));
    } else {
      NamesOfSimple(s, st, fn, y, g);
      if ExprOf(s).Some? {
        DrawsExpr(ExprOf(s).value, st, fn, y, g);
        var (e', g1) := LowerExpr(ExprOf(s).value, st, fn, y, g);
        DrawnIsRising(NamesOfExpr(e'), g, g1);
      }
    }
  }

  lemma {:induction false} DrawsWhile(s: Stmt, st: ControlFlowState, fn: Fn, y: Option<Slot>, g: Gen)
    requires s.While?
    ensures Drawn(NamesOfStmts(LowerStmt(s, st, fn, y, g).0), g, LowerStmt(s, st, fn, y, g).1)
    decreases s, 0
  {
    var While(cond, b) := s;
    var (cond', g1) := LowerExpr(cond, st, fn, y, g);
    var (b', g2) := LowerBlock(b, st.EnterLoop(), fn, y, g1);
    DrawsExpr(cond, st, fn, y, g);
    DrawsBlock(b, st.EnterLoop(), fn, y, g1);
    DrawnConcat(NamesOfExpr(cond'), NamesOfBlock(b'), g, g1, g2);
    NamesOfOne(CWhile(cond', b'));
  }

  lemma {:induction false} DrawsIf(s: Stmt, st: ControlFlowState, fn: Fn, y: Option<Slot>, g: Gen)
    requires s.If?
    ensures Drawn(NamesOfStmts(LowerStmt(s, st, fn, y, g).0), g, LowerStmt(s, st, fn, y, g).1)
    decreases s, 0
  {
    var If(cond, b, els) := s;
    var (cond', g1) := LowerExpr(cond, st, fn, y, g);
    var (b', g2) := LowerBlock(b, st, fn, y, g1);
    var (els', g3) := LowerElse(els, st, fn, y, g2);
    DrawsExpr(cond, st, fn, y, g);
    DrawsBlock(b, st, fn, y, g1);
    if els.ElseStmt? {
      DrawsStmt(els.s, st, fn, y, g2);
    }
    DrawnConcat(NamesOfBlock(b'), NamesOfElse(els'), g1, g2, g3);
    DrawnConcat(NamesOfExpr(cond'), NamesOfBlock(b') + NamesOfElse(els'), g, g1, g3);
    NamesOfOne(CIf(cond', b', els'));
  }

  datatype Source = Source(body: Stmts, fn: Fn)

  /** The names of functions generated one after another; the counters are never reset. */
  function NamesOfRun(functions: seq<Source>, g: Gen): seq<Slot> {
    if functions == [] then []
    else
      var (emitted, g1) := LowerFunction(functions[0].body, functions[0].fn, g);
      NamesOfStmts(emitted) + NamesOfRun(functions[1..], g1)
  }

  lemma {:induction false} RunDraws(functions: seq<Source>, g: Gen) returns (end: Gen)
    ensures Drawn(NamesOfRun(functions, g), g, end)
  {
    end := g;
    if functions != [] {
      var st := ControlFlowState.NoControlFlow().EnterFunction();
      var (emitted, g1) := LowerFunction(functions[0].body, functions[0].fn, g);
      DrawsStmts(functions[0].body, st, functions[0].fn, None, g);
      end := RunDraws(functions[1..], g1);
      DrawnConcat(NamesOfStmts(emitted), NamesOfRun(functions[1..], g1), g, g1, end);
    }
  }

  /** In a whole run, over any number of functions, no two slots and no two labels are the same. */
  lemma NamesAreDistinct(functions: seq<Source>, g: Gen)
    ensures var names := NamesOfRun(functions, g);
            forall i, j :: 0 <= i < j < |names| ==> names[i].name != names[j].name && names[i].yieldLabel != names[j].yieldLabel
  {
    var end := RunDraws(functions, g);
    DrawnIsRising(NamesOfRun(functions, g), g, end);
  }
}
