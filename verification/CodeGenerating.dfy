/**
 The generator itself: an object whose control-flow state, yieldable-block stack and
 counters the `codegen_*` methods update and restore while they append to their output.
 Each method is proved to emit exactly what the functions of `Lowering` say.
 */
module CodeGenerating {
  import opened Wrappers
  import opened ControlFlow
  import opened Jakt
  import opened Cpp
  import opened Lowering

  // ----- Appending at the end of each kind of output -----

  function AppendPieces(a: CPieces, b: CPieces): CPieces {
    match a
    case CNoPiece => b
    case IfPiece(test, body, rest) => IfPiece(test, body, AppendPieces(rest, b))
    case ElseIfPiece(test, body, rest) => ElseIfPiece(test, body, AppendPieces(rest, b))
    case ElsePiece(body, rest) => ElsePiece(body, AppendPieces(rest, b))
    case BracePiece(body, rest) => BracePiece(body, AppendPieces(rest, b))
  }

  function AppendCases(a: CCases, b: CCases): CCases {
    match a
    case CNoCase => b
    case CCase(index, body, rest) => CCase(index, body, AppendCases(rest, b))
    case CDefault(body, rest) => CDefault(body, AppendCases(rest, b))
  }

  lemma {:induction a} AppendAssociative(a: CStmts, b: CStmts, c: CStmts)
    ensures Append(Append(a, b), c) == Append(a, Append(b, c))
  {
  }

  lemma {:induction a} AppendNothing(a: CStmts)
    ensures Append(a, CNil) == a
  {
  }

  lemma {:induction a} AppendPiecesAssociative(a: CPieces, b: CPieces, c: CPieces)
    ensures AppendPieces(AppendPieces(a, b), c) == AppendPieces(a, AppendPieces(b, c))
    ensures AppendPieces(a, CNoPiece) == a
  {
  }

  lemma {:induction a} AppendCasesAssociative(a: CCases, b: CCases, c: CCases)
    ensures AppendCases(AppendCases(a, b), c) == AppendCases(a, AppendCases(b, c))
    ensures AppendCases(a, CNoCase) == a
  {
  }

  lemma {:induction a} AppendDefault(a: CCases)
    ensures AppendCases(a, CDefault(One(CUnreachable), CNoCase)) == WithDefault(a)
  {
  }

  class CodeGenerator {
    var controlFlowState: ControlFlowState
    var enteredYieldableBlocks: seq<Slot>
    var freshVarCounter: nat
    var freshLabelCounter: nat
    const currentFunction: Fn

    constructor (fn: Fn)
      ensures controlFlowState == ControlFlowState.NoControlFlow()
      ensures enteredYieldableBlocks == [] && Counters() == Gen(0, 0) && currentFunction == fn
    {
      controlFlowState := ControlFlowState.NoControlFlow();
      enteredYieldableBlocks := [];
      freshVarCounter, freshLabelCounter := 0, 0;
      currentFunction := fn;
    }

    function Counters(): Gen
      reads this
    {
      Gen(freshVarCounter, freshLabelCounter)
    }

    function YieldTarget(): Option<Slot>
      reads this
    {
      if enteredYieldableBlocks == [] then None
      else Some(enteredYieldableBlocks[|enteredYieldableBlocks| - 1])
    }

    method FreshVar() returns (name: nat)
      modifies this`freshVarCounter
      ensures name == old(freshVarCounter) && freshVarCounter == name + 1
    {
      name := freshVarCounter;
      freshVarCounter := freshVarCounter + 1;
    }

    method FreshLabel() returns (name: nat)
      modifies this`freshLabelCounter
      ensures name == old(freshLabelCounter) && freshLabelCounter == name + 1
    {
      name := freshLabelCounter;
      freshLabelCounter := freshLabelCounter + 1;
    }

    method CodegenExpression(e: Expr) returns (out: CExpr)
      modifies this
      ensures (out, Counters()) == LowerExpr(e, old(controlFlowState), currentFunction, old(YieldTarget()), old(Counters()))
      ensures controlFlowState == old(controlFlowState) && enteredYieldableBlocks == old(enteredYieldableBlocks)
      decreases e, 1
    {
      match e {
        case Lit(n) => out := CLit(n);
        case Var(x) => out := CVar(x);
        case Bin(op, lhs, rhs) =>
          var l := CodegenExpression(lhs);
          var r := CodegenExpression(rhs);
          out := CBin(op, l, r);
        case Print(arg) =>
          var a := CodegenExpression(arg);
          out := CPrint(a);
        case Abort => out := CAbort;
        case Match(_, _, _, _) => out := CodegenMatch(e);
        case BlockExpr(block) =>
          var b := CodegenBlock(block);
          out := CBlockExpr(b);
      }
    }

    method CodegenMatch(e: Expr) returns (out: CExpr)
      requires e.Match?
      modifies this
      ensures (out, Counters()) == LowerExpr(e, old(controlFlowState), currentFunction, old(YieldTarget()), old(Counters()))
      ensures controlFlowState == old(controlFlowState) && enteredYieldableBlocks == old(enteredYieldableBlocks)
      decreases e, 0
    {
      var lastControlFlow := controlFlowState;
      controlFlowState := controlFlowState.EnterMatch();
      if !e.kind.Generic? {
        var subjectText := CodegenExpression(e.subject);
      }
      var subject := CodegenExpression(e.subject);
      var body;
      if e.kind.Generic? {
        body := CodegenGenericMatch(e.t, e.cases);
      } else {
        body := CodegenEnumMatch(e.kind, e.t, e.cases);
      }
      controlFlowState := lastControlFlow;
      out := CMatch(!e.t.IntTy?, subject, body, ReturnForwarding(controlFlowState, currentFunction), LoopForwarding(controlFlowState));
    }

    method CodegenGenericMatch(t: Ty, cases: Cases) returns (out: CStmts)
      modifies this
      ensures (out, Counters()) == LowerDispatch(Generic, t, cases, old(controlFlowState), currentFunction, old(YieldTarget()), old(Counters()))
      ensures controlFlowState == old(controlFlowState) && enteredYieldableBlocks == old(enteredYieldableBlocks)
      decreases cases, 1
    {
      ghost var st, y := controlFlowState, YieldTarget();
      ghost var whole := LowerPieces(cases, true, t, st, currentFunction, y, Counters());
      var hasDefault, first := false, true;
      var pieces := CNoPiece;
      var rest := cases;
      while rest.Case?
        invariant controlFlowState == st && enteredYieldableBlocks == old(enteredYieldableBlocks)
        invariant rest == cases || (cases decreases to rest)
        invariant var (rest', g) := LowerPieces(rest, first, t, st, currentFunction, y, Counters());
                  AppendPieces(pieces, rest') == whole.0 && g == whole.1
        invariant HasCatchAll(cases) == (hasDefault || HasCatchAll(rest))
        decreases rest
      {
        if rest.pattern.CatchAll? {
          hasDefault := true;
        }
        ghost var tail := LowerPieces(rest, first, t, st, currentFunction, y, Counters()).0;
        var body := CodegenMatchBody(rest.body, t);
        ghost var rest' := LowerPieces(rest.rest, false, t, st, currentFunction, y, Counters()).0;
        assert tail == AppendPieces(Piece(rest.pattern, body, CNoPiece, first), rest');
        AppendPiecesAssociative(pieces, Piece(rest.pattern, body, CNoPiece, first), rest');
        pieces := AppendPieces(pieces, Piece(rest.pattern, body, CNoPiece, first));
        first := false;
        rest := rest.rest;
      }
      AppendPiecesAssociative(pieces, CNoPiece, CNoPiece);
      out := CCons(CChain(pieces), ChainEnd(t, hasDefault));
    }

    method CodegenEnumMatch(kind: MatchKind, t: Ty, cases: Cases) returns (out: CStmts)
      requires !kind.Generic?
      modifies this
      ensures (out, Counters()) == LowerDispatch(kind, t, cases, old(controlFlowState), currentFunction, old(YieldTarget()), old(Counters()))
      ensures controlFlowState == old(controlFlowState) && enteredYieldableBlocks == old(enteredYieldableBlocks)
      decreases cases, 1
    {
      ghost var st, y := controlFlowState, YieldTarget();
      ghost var whole := LowerCases(cases, t, st, currentFunction, y, Counters());
      var hasDefault := false;
      var emitted := CNoCase;
      var rest := cases;
      while rest.Case?
        invariant controlFlowState == st && enteredYieldableBlocks == old(enteredYieldableBlocks)
        invariant rest == cases || (cases decreases to rest)
        invariant var (rest', g) := LowerCases(rest, t, st, currentFunction, y, Counters());
                  AppendCases(emitted, rest') == whole.0 && g == whole.1
        invariant HasCatchAll(cases) == (hasDefault || HasCatchAll(rest))
        decreases rest
      {
        if rest.pattern.CatchAll? {
          hasDefault := true;
        }
        var body := CodegenMatchBody(rest.body, t);
        var next := if rest.pattern.Variant? then CCase(rest.pattern.index, body, CNoCase) else CDefault(body, CNoCase);
        ghost var rest' := LowerCases(rest.rest, t, st, currentFunction, y, Counters()).0;
        AppendCasesAssociative(emitted, next, rest');
        emitted := AppendCases(emitted, next);
        rest := rest.rest;
      }
      AppendCasesAssociative(emitted, CNoCase, CNoCase);
      if kind.SumEnum? && !hasDefault {
        AppendDefault(emitted);
        emitted := AppendCases(emitted, CDefault(One(CUnreachable), CNoCase));
      }
      out := One(CSwitch(emitted));
    }

    method CodegenMatchBody(body: MatchBody, t: Ty) returns (out: CStmts)
      modifies this
      ensures (out, Counters()) == LowerBody(body, t, old(controlFlowState), currentFunction, old(YieldTarget()), old(Counters()))
      ensures controlFlowState == old(controlFlowState) && enteredYieldableBlocks == old(enteredYieldableBlocks)
      decreases body
    {
      match body {
        case BodyBlock(block) =>
          var b := CodegenBlock(block);
          out := CCons(CBlockStmt(b), if t.VoidTy? then One(CReturn(RetExplicitVoid)) else CNil);
        case BodyExpr(expr) =>
          var e := CodegenExpression(expr);
          out := One(CReturn(if IsVoidOrNever(expr) then RetCommaExplicitVoid(e) else RetExplicit(e)));
      }
    }

    /** A yielding block is on the stack exactly while its statements are generated. */
    method CodegenBlock(block: Block) returns (out: CBlock)
      modifies this
      ensures (out, Counters()) == LowerBlock(block, old(controlFlowState), currentFunction, old(YieldTarget()), old(Counters()))
      ensures controlFlowState == old(controlFlowState) && enteredYieldableBlocks == old(enteredYieldableBlocks)
      decreases block
    {
      if block.isYielding {
        var freshVar := FreshVar();
        var freshLabel := FreshLabel();
        enteredYieldableBlocks := enteredYieldableBlocks + [Slot(freshVar, freshLabel)];
      }
      ghost var st, y, entered := controlFlowState, YieldTarget(), enteredYieldableBlocks;
      ghost var whole := LowerStmts(block.stmts, st, currentFunction, y, Counters());
      var body := CNil;
      var rest := block.stmts;
      while rest.Cons?
        invariant controlFlowState == st && enteredYieldableBlocks == entered
        invariant block decreases to rest
        invariant var (rest', g) := LowerStmts(rest, st, currentFunction, y, Counters());
                  Append(body, rest') == whole.0 && g == whole.1
        decreases rest
      {
        var s := CodegenStatement(rest.head);
        AppendAssociative(body, s, LowerStmts(rest.tail, st, currentFunction, y, Counters()).0);
        body := Append(body, s);
        rest := rest.tail;
      }
      AppendNothing(body);
      if block.isYielding {
        var own := enteredYieldableBlocks[|enteredYieldableBlocks| - 1];
        enteredYieldableBlocks := enteredYieldableBlocks[..|enteredYieldableBlocks| - 1];
        out := CYielding(own.name, own.yieldLabel, body);
      } else {
        out := CBraces(body);
      }
    }

    method CodegenStatement(s: Stmt) returns (out: CStmts)
      modifies this
      ensures (out, Counters()) == LowerStmt(s, old(controlFlowState), currentFunction, old(YieldTarget()), old(Counters()))
      ensures controlFlowState == old(controlFlowState) && enteredYieldableBlocks == old(enteredYieldableBlocks)
      decreases s
    {
      match s {
        case ExprStmt(expr) =>
          var e := CodegenExpression(expr);
          out := One(CExprStmt(e));
        case Assign(x, expr) =>
          var e := CodegenExpression(expr);
          out := One(CAssign(x, e));
        case Loop(block) =>
          var lastControlFlow := controlFlowState;
          controlFlowState := lastControlFlow.EnterLoop();
          var b := CodegenBlock(block);
          controlFlowState := lastControlFlow;
          out := One(CFor(b));
        case While(condition, block) =>
          var c := CodegenExpression(condition);
          var lastControlFlow := controlFlowState;
          controlFlowState := lastControlFlow.EnterLoop();
          var b := CodegenBlock(block);
          controlFlowState := lastControlFlow;
          out := One(CWhile(c, b));
        case If(condition, thenBlock, els) =>
          var c := CodegenExpression(condition);
          var b := CodegenBlock(thenBlock);
          var e := CNoElse;
          if els.ElseStmt? {
            var inner := CodegenStatement(els.s);
            e := CElseStmt(inner);
          }
          out := One(CIf(c, b, e));
        case BlockStmt(block) =>
          var b := CodegenBlock(block);
          out := One(CBlockStmt(b));
        case Break =>
          out := One(if controlFlowState.directlyInsideMatch then CReturn(RetLoopBreak) else CBreak);
        case Continue =>
          out := One(if controlFlowState.directlyInsideMatch then CReturn(RetLoopContinue) else CContinue);
        case Return(val) =>
          if val.Some? {
            var e := CodegenExpression(val.value);
            if currentFunction.canThrow && IsVoidOrNever(val.value) {
              out := CCons(CExprStmt(e), One(CReturn(RetBraces)));
            } else {
              out := One(CReturn(RetExpr(e)));
            }
          } else {
            var braces := currentFunction.canThrow || controlFlowState.indirectlyInsideMatch;
            out := One(CReturn(if braces then RetBraces else RetNaked));
          }
        case Yield(expr) =>
          var target := YieldTarget();
          var e := CodegenExpression(expr);
          if target.Some? {
            out := CCons(CSetSlot(target.value.name, e), One(CGoto(target.value.yieldLabel)));
          } else {
            out := One(CUnreachable);
          }
      }
    }

    /** A function's block, from whatever state the generator is in, which it is left in. */
    method CodegenFunction(body: Block) returns (out: CBlock)
      requires !body.isYielding && enteredYieldableBlocks == []
      modifies this
      ensures out.CBraces? && (out.body, Counters()) == LowerFunction(body.stmts, currentFunction, old(Counters()))
      ensures controlFlowState == old(controlFlowState) && enteredYieldableBlocks == []
    {
      var lastControlFlow := controlFlowState;
      controlFlowState := lastControlFlow.EnterFunction();
      out := CodegenBlock(body);
      controlFlowState := lastControlFlow;
    }
  }
}
