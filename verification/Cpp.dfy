/**
 The C++ that the lowering emits, as a tree, with its meaning.

 A match becomes a lambda that is called on the spot and returns an
 `ExplicitValueOrControlFlow` (runtime/Jakt/ControlFlow.h); a macro around the call
 inspects what came back. `CFault` stands for everything a C++ compiler or the
 runtime would refuse: an exit that leaves a lambda by `break`, `continue` or `goto`,
 a lambda whose end is reached, `release_value()` on a result that holds no value, a
 `return` form that does not fit the return type.
 */
module Cpp {
  import opened Jakt

  /** `return {1};` in the forwarding macro. */
  datatype ForwardReturn = ReleaseReturn | NakedBraces

  /** The two loop-control tests of the forwarding macro. */
  datatype ForwardLoops = NoLoopTests | PlainExits | ExitObjects

  datatype CExpr =
    | CLit(n: int)
    | CVar(x: string)
    | CBin(op: BinOp, lhs: CExpr, rhs: CExpr)
    | CPrint(arg: CExpr)
    | CAbort
    | CMatch(isVoid: bool, subject: CExpr, body: CStmts, onReturn: ForwardReturn, onLoop: ForwardLoops)
    | CBlockExpr(block: CBlock)

  /** `{ ... }`, or `({ Optional<T> slot; { ... } label:; slot.release_value(); })`. */
  datatype CBlock = CBraces(body: CStmts) | CYielding(slot: nat, yieldLabel: nat, body: CStmts)

  datatype CStmts = CNil | CCons(head: CStmt, tail: CStmts)

  datatype CElse = CNoElse | CElseStmt(s: CStmts)

  datatype CReturnForm =
    | RetNaked                           // return;
    | RetBraces                          // return {};
    | RetExpr(e: CExpr)                  // return e;
    | RetExplicit(e: CExpr)              // return JaktInternal::ExplicitValue(e);
    | RetExplicitVoid                    // return JaktInternal::ExplicitValue<void>();
    | RetCommaExplicitVoid(e: CExpr)     // return (e), JaktInternal::ExplicitValue<void>();
    | RetLoopBreak                       // return JaktInternal::LoopBreak{};
    | RetLoopContinue                    // return JaktInternal::LoopContinue{};

  datatype CStmt =
    | CExprStmt(e: CExpr)
    | CAssign(x: string, e: CExpr)
    | CFor(block: CBlock)
    | CWhile(cond: CExpr, block: CBlock)
    | CIf(cond: CExpr, thenBlock: CBlock, els: CElse)
    | CBlockStmt(block: CBlock)
    | CBreak
    | CContinue
    | CReturn(form: CReturnForm)
    | CSetSlot(slot: nat, e: CExpr)
    | CGoto(target: nat)
    | CSwitch(cases: CCases)             // over the lambda's subject
    | CChain(pieces: CPieces)            // the if / else if / else run over the lambda's subject
    | CUnreachable                       // VERIFY_NOT_REACHED();

  datatype CCases =
    | CNoCase
    | CCase(index: nat, body: CStmts, rest: CCases)
    | CDefault(body: CStmts, rest: CCases)

  /** The pieces of an if chain, in the order they are appended to the output. */
  datatype CPieces =
    | CNoPiece
    | IfPiece(test: CTest, body: CStmts, rest: CPieces)
    | ElseIfPiece(test: CTest, body: CStmts, rest: CPieces)
    | ElsePiece(body: CStmts, rest: CPieces)
    | BracePiece(body: CStmts, rest: CPieces)

  /** The condition of a piece: calls on the subject, or the subject followed by comparisons, which `&&` joins. */
  datatype CTest =
    | HasIndex(index: nat)                      // subject.__jakt_init_index() == index
    | IsInstance(derived: set<int>)             // is<T>(subject.ptr())
    | Compared(comparisons: seq<Comparison>)

  datatype Comparison = EqualTo(n: int) | AtLeast(n: int) | LessThan(n: int)

  function Append(a: CStmts, b: CStmts): CStmts {
    match a
    case CNil => b
    case CCons(head, tail) => CCons(head, Append(tail, b))
  }

  function One(s: CStmt): CStmts {
    CCons(s, CNil)
  }

  // ----- Meaning -----

  datatype CState = CState(base: State, slots: map<nat, Value>)

  datatype Place = InFunction | InLambda(isVoid: bool, subject: int)

  datatype Context = Context(fn: Fn, place: Place)

  /** What a `return` hands back: the function's own value, or one of the lambda's extra results. */
  datatype Handed = Plain(v: Value) | Explicit(v: Value) | LoopBreak | LoopContinue

  datatype COutcome =
    | CNormal
    | CBroke
    | CContinued
    | CReturned(r: Handed)
    | CJump(target: nat)
    | CAborted
    | CTimeout
    | CFault

  datatype CEval = CVal(v: Value) | CExit(o: COutcome)

  predicate IsIntC(r: CEval) {
    r.CVal? && r.v.Int?
  }

  function PropagateC(r: CEval): COutcome {
    if r.CExit? then r.o else CFault
  }

  /** A subject that is compared with nothing stands alone in the condition. */
  predicate Passes(test: CTest, v: int) {
    match test
    case HasIndex(index) => v == index
    case IsInstance(derived) => v in derived
    case Compared(comparisons) =>
      if comparisons == [] then v != 0 else forall i :: 0 <= i < |comparisons| ==> Holds(comparisons[i], v)
  }

  predicate Holds(comparison: Comparison, v: int) {
    match comparison
    case EqualTo(n) => v == n
    case AtLeast(n) => v >= n
    case LessThan(n) => v < n
  }

  // ----- What C++ takes in a place -----

  /** The operand has type `void`. */
  predicate IsVoidC(e: CExpr) {
    e.CPrint? || e.CAbort? || (e.CMatch? && e.isVoid)
  }

  /** `return;` */
  predicate NakedFits(fn: Fn, inLambda: bool) {
    !inLambda && fn.CppReturnsVoid()
  }

  /** `return {};` needs a result that is void in the end, or else one that is a plain number. */
  predicate BracesFit(fn: Fn, inLambda: bool) {
    if inLambda then fn.ValueIsVoid()
    else if fn.ValueIsVoid() then fn.canThrow
    else !fn.canThrow && !fn.isMain
  }

  /** `return e;`: a class is not built from a void operand, nor anything void from a number. */
  predicate OperandFits(fn: Fn, inLambda: bool, isVoid: bool) {
    if isVoid then NakedFits(fn, inLambda) else !fn.ValueIsVoid()
  }

  /** `return _jakt_value.release_return();`, or `return {};`. */
  predicate ForwardFits(fn: Fn, inLambda: bool, onReturn: ForwardReturn) {
    if onReturn.ReleaseReturn? then inLambda ==> !fn.CppReturnsVoid() else BracesFit(fn, inLambda)
  }

  function ReturnBraces(cx: Context): COutcome {
    if !BracesFit(cx.fn, cx.place.InLambda?) then CFault
    else CReturned(Plain(if cx.fn.ValueIsVoid() then Void else Int(0)))
  }

  function ReturnExplicit(cx: Context, v: Value): COutcome {
    if cx.place.InLambda? && cx.place.isVoid == v.Void? then CReturned(Explicit(v)) else CFault
  }

  function ReturnExitObject(cx: Context, r: Handed): COutcome {
    if cx.place.InLambda? then CReturned(r) else CFault
  }

  /** What the forwarding macro makes of the lambda's result. */
  function Forward(o: COutcome, cx: Context, onReturn: ForwardReturn, onLoop: ForwardLoops): CEval {
    if !ForwardFits(cx.fn, cx.place.InLambda?, onReturn) then CExit(CFault) else
    match o
    case CReturned(Plain(v)) => CExit(if onReturn.ReleaseReturn? then CReturned(Plain(v)) else ReturnBraces(cx))
    case CReturned(Explicit(v)) => CVal(v)
    case CReturned(LoopBreak) =>
      CExit(match onLoop
            case NoLoopTests => CFault      // release_value() on a LoopBreak
            case PlainExits => CBroke
            case ExitObjects => ReturnExitObject(cx, LoopBreak))
    case CReturned(LoopContinue) =>
      CExit(match onLoop
            case NoLoopTests => CFault
            case PlainExits => CContinued
            case ExitObjects => ReturnExitObject(cx, LoopContinue))
    case CAborted => CExit(CAborted)
    case CTimeout => CExit(CTimeout)
    case _ => CExit(CFault)                 // the end of the lambda, or a jump across it
  }

  /** Where a yielding block ends: the value is read from its slot. */
  function AtLabel(o: COutcome, slot: nat, yieldLabel: nat, s: CState): CEval {
    if o.CNormal? || o == CJump(yieldLabel) then
      if slot in s.slots && s.slots[slot].Int? then CVal(s.slots[slot]) else CExit(CFault)
    else CExit(o)
  }

  function AfterBodyC(o: COutcome): COutcome {
    match o
    case CNormal => CContinued
    case CBroke => CNormal
    case _ => o
  }

  function EvalC(e: CExpr, s: CState, fuel: nat, cx: Context): (CEval, CState)
    decreases fuel, e
  {
    match e
    case CLit(n) => (CVal(Int(n)), s)
    case CVar(x) => (CVal(Int(Lookup(s.base, x))), s)
    case CBin(op, lhs, rhs) =>
      var (l, s1) := EvalC(lhs, s, fuel, cx);
      if !IsIntC(l) then (CExit(PropagateC(l)), s1)
      else if op.And? && l.v.n == 0 then (CVal(Int(0)), s1)
      else
        var (r, s2) := EvalC(rhs, s1, fuel, cx);
        if !IsIntC(r) then (CExit(PropagateC(r)), s2) else (CVal(Int(Apply(op, l.v.n, r.v.n))), s2)
    case CPrint(arg) =>
      var (r, s1) := EvalC(arg, s, fuel, cx);
      if !IsIntC(r) then (CExit(PropagateC(r)), s1)
      else (CVal(Void), s1.(base := s1.base.(trace := s1.base.trace + [r.v.n])))
    case CAbort => (CExit(CAborted), s)
    case CMatch(isVoid, subject, body, onReturn, onLoop) =>
      // The subject is evaluated inside the lambda, before any case looks at it.
      var (r, s1) := EvalC(subject, s, fuel, Context(cx.fn, InLambda(isVoid, 0)));
      if !IsIntC(r) then (Forward(PropagateC(r), cx, onReturn, onLoop), s1)
      else
        var (o, s2) := ExecC(body, s1, fuel, Context(cx.fn, InLambda(isVoid, r.v.n)));
        (Forward(o, cx, onReturn, onLoop), s2)
    case CBlockExpr(CBraces(_)) => (CExit(CFault), s)
    case CBlockExpr(CYielding(slot, yieldLabel, body)) =>
      var (o, s1) := ExecC(body, s.(slots := s.slots - {slot}), fuel, cx);
      (AtLabel(o, slot, yieldLabel, s1), s1)
  }

  function ExecC(ss: CStmts, s: CState, fuel: nat, cx: Context): (COutcome, CState)
    decreases fuel, ss
  {
    match ss
    case CNil => (CNormal, s)
    case CCons(head, tail) =>
      var (o, s1) := StepC(head, s, fuel, cx);
      if o.CNormal? then ExecC(tail, s1, fuel, cx) else (o, s1)
  }

  /** A block in statement position. */
  function ExecBlockC(b: CBlock, s: CState, fuel: nat, cx: Context): (COutcome, CState)
    decreases fuel, b
  {
    if b.CBraces? then ExecC(b.body, s, fuel, cx) else (CFault, s)
  }

  function ReturnC(form: CReturnForm, s: CState, fuel: nat, cx: Context): (COutcome, CState)
    decreases fuel, form
  {
    match form
    case RetNaked => (if NakedFits(cx.fn, cx.place.InLambda?) then CReturned(Plain(Void)) else CFault, s)
    case RetBraces => (ReturnBraces(cx), s)
    case RetExpr(e) =>
      if !OperandFits(cx.fn, cx.place.InLambda?, IsVoidC(e)) then (CFault, s)
      else
        var (r, s1) := EvalC(e, s, fuel, cx);
        (if r.CVal? then CReturned(Plain(r.v)) else r.o, s1)
    case RetExplicit(e) =>
      var (r, s1) := EvalC(e, s, fuel, cx);
      (if r.CExit? then r.o else if r.v.Void? then CFault else ReturnExplicit(cx, r.v), s1)
    case RetExplicitVoid => (ReturnExplicit(cx, Void), s)
    case RetCommaExplicitVoid(e) =>
      var (r, s1) := EvalC(e, s, fuel, cx);
      (if r.CVal? then ReturnExplicit(cx, Void) else r.o, s1)
    case RetLoopBreak => (ReturnExitObject(cx, LoopBreak), s)
    case RetLoopContinue => (ReturnExitObject(cx, LoopContinue), s)
  }

  function StepC(stmt: CStmt, s: CState, fuel: nat, cx: Context): (COutcome, CState)
    decreases fuel, stmt
  {
    match stmt
    case CExprStmt(e) =>
      var (r, s1) := EvalC(e, s, fuel, cx);
      (if r.CVal? then CNormal else r.o, s1)
    case CAssign(x, e) =>
      var (r, s1) := EvalC(e, s, fuel, cx);
      if !IsIntC(r) then (PropagateC(r), s1)
      else (CNormal, s1.(base := s1.base.(vars := s1.base.vars[x := r.v.n])))
    case CFor(b) =>
      var (o, s1) := ExecBlockC(b, s, fuel, cx);
      var after := AfterBodyC(o);
      if !after.CContinued? then (after, s1)
      else if fuel == 0 then (CTimeout, s1)
      else StepC(stmt, s1, fuel - 1, cx)
    case CWhile(cond, b) =>
      // An exit in the condition leaves it for the enclosing loop (GCC's rule for statement expressions).
      var (r, s1) := EvalC(cond, s, fuel, cx);
      if !IsIntC(r) then (PropagateC(r), s1)
      else if r.v.n == 0 then (CNormal, s1)
      else
        var (o, s2) := ExecBlockC(b, s1, fuel, cx);
        var after := AfterBodyC(o);
        if !after.CContinued? then (after, s2)
        else if fuel == 0 then (CTimeout, s2)
        else StepC(stmt, s2, fuel - 1, cx)
    case CIf(cond, b, els) =>
      var (r, s1) := EvalC(cond, s, fuel, cx);
      if !IsIntC(r) then (PropagateC(r), s1)
      else if r.v.n != 0 then ExecBlockC(b, s1, fuel, cx)
      else if els.CElseStmt? then ExecC(els.s, s1, fuel, cx)
      else (CNormal, s1)
    case CBlockStmt(b) => ExecBlockC(b, s, fuel, cx)
    case CBreak => (CBroke, s)
    case CContinue => (CContinued, s)
    case CReturn(form) => ReturnC(form, s, fuel, cx)
    case CSetSlot(slot, e) =>
      var (r, s1) := EvalC(e, s, fuel, cx);
      if r.CVal? then (CNormal, s1.(slots := s1.slots[slot := r.v])) else (r.o, s1)
    case CGoto(target) => (CJump(target), s)
    case CSwitch(cases) =>
      if cx.place.InFunction? then (CFault, s)
      else
        var (o, s1) := FallThrough(Entry(cases, cx.place.subject), s, fuel, cx);
        (if o.CBroke? then CNormal else o, s1)
    case CChain(pieces) =>
      if cx.place.InFunction? then (CFault, s) else ExecPieces(pieces, false, false, s, fuel, cx)
    case CUnreachable => (CAborted, s)
  }

  /** The rest of the switch from the case labelled `v`, if there is one. */
  function FromLabel(cases: CCases, v: int): (r: CCases)
    ensures r == cases || (cases decreases to r)
  {
    match cases
    case CNoCase => CNoCase
    case CCase(index, _, rest) => if index == v then cases else FromLabel(rest, v)
    case CDefault(_, rest) => FromLabel(rest, v)
  }

  function FromDefault(cases: CCases): (r: CCases)
    ensures r == cases || (cases decreases to r)
  {
    match cases
    case CNoCase => CNoCase
    case CCase(_, _, rest) => FromDefault(rest)
    case CDefault(_, _) => cases
  }

  function Entry(cases: CCases, v: int): (r: CCases)
    ensures r == cases || (cases decreases to r)
  {
    if FromLabel(cases, v) != CNoCase then FromLabel(cases, v) else FromDefault(cases)
  }

  /** From a label on, C++ runs one case body after the other. */
  function FallThrough(cases: CCases, s: CState, fuel: nat, cx: Context): (COutcome, CState)
    decreases fuel, cases
  {
    match cases
    case CNoCase => (CNormal, s)
    case CCase(_, body, rest) =>
      var (o, s1) := ExecC(body, s, fuel, cx);
      if o.CNormal? then FallThrough(rest, s1, fuel, cx) else (o, s1)
    case CDefault(body, rest) =>
      var (o, s1) := ExecC(body, s, fuel, cx);
      if o.CNormal? then FallThrough(rest, s1, fuel, cx) else (o, s1)
  }

  /** `open`: an `else` may follow here; `taken`: a branch of the open chain has run. */
  function ExecPieces(pieces: CPieces, open: bool, taken: bool, s: CState, fuel: nat, cx: Context): (COutcome, CState)
    requires cx.place.InLambda?
    decreases fuel, pieces
  {
    match pieces
    case CNoPiece => (CNormal, s)
    case IfPiece(test, body, rest) =>
      if !Passes(test, cx.place.subject) then ExecPieces(rest, true, false, s, fuel, cx)
      else
        var (o, s1) := ExecC(body, s, fuel, cx);
        if o.CNormal? then ExecPieces(rest, true, true, s1, fuel, cx) else (o, s1)
    case ElseIfPiece(test, body, rest) =>
      if !open then (CFault, s)
      else if taken then ExecPieces(rest, true, true, s, fuel, cx)
      else if !Passes(test, cx.place.subject) then ExecPieces(rest, true, false, s, fuel, cx)
      else
        var (o, s1) := ExecC(body, s, fuel, cx);
        if o.CNormal? then ExecPieces(rest, true, true, s1, fuel, cx) else (o, s1)
    case ElsePiece(body, rest) =>
      if !open then (CFault, s)
      else if taken then ExecPieces(rest, false, false, s, fuel, cx)
      else
        var (o, s1) := ExecC(body, s, fuel, cx);
        if o.CNormal? then ExecPieces(rest, false, false, s1, fuel, cx) else (o, s1)
    case BracePiece(body, rest) =>
      var (o, s1) := ExecC(body, s, fuel, cx);
      if o.CNormal? then ExecPieces(rest, false, false, s1, fuel, cx) else (o, s1)
  }

  /**
   A whole function: `main` ends in `return 0;`, one that may throw and returns nothing in
   `return {};`. A break, continue or goto that nothing in the function takes is refused.
   */
  function RunFunctionC(body: CStmts, fn: Fn, s: CState, fuel: nat): (COutcome, CState) {
    var (o, s1) := ExecC(body, s, fuel, Context(fn, InFunction));
    (match o
     case CNormal =>
       if fn.isMain then CReturned(Plain(Int(0)))
       else if fn.resultType.VoidTy? then CReturned(Plain(Void))
       else CFault
     case CBroke => CFault
     case CContinued => CFault
     case CJump(_) => CFault
     case _ => o, s1)
  }

  lemma {:induction false} ExecAppend(a: CStmts, b: CStmts, s: CState, fuel: nat, cx: Context)
    ensures ExecC(Append(a, b), s, fuel, cx) ==
            var (o, s1) := ExecC(a, s, fuel, cx);
            if o.CNormal? then ExecC(b, s1, fuel, cx) else (o, s1)
    decreases a
  {
    if a.CCons? {
      var (o, s1) := StepC(a.head, s, fuel, cx);
      ExecAppend(a.tail, b, s1, fuel, cx);
    }
  }
}
