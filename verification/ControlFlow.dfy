/**
 The code generator's record of which exits the statement being emitted may use
 (codegen.cpp, `AllowedControlExits` and `ControlFlowState`).
 */
module ControlFlow {

  datatype AllowedControlExits = Nothing | JustReturn | AtLoop {

    function AllowReturn(): AllowedControlExits {
      match this
      case Nothing => JustReturn
      case JustReturn => JustReturn
      case AtLoop => AtLoop
    }
  }

  predicate AreLoopExitsAllowed(allowed: AllowedControlExits) {
    allowed.AtLoop?
  }

  predicate IsReturnAllowed(allowed: AllowedControlExits) {
    !allowed.Nothing?
  }

  datatype ControlFlowState = ControlFlowState(
    allowedExits: AllowedControlExits,
    passesThroughTry: bool,
    directlyInsideMatch: bool,
    indirectlyInsideMatch: bool)
  {
    static function NoControlFlow(): ControlFlowState {
      ControlFlowState(Nothing, false, false, false)
    }

    function EnterFunction(): ControlFlowState {
      ControlFlowState(JustReturn, false, false, false)
    }

    function EnterLoop(): ControlFlowState {
      ControlFlowState(AtLoop, passesThroughTry, false, indirectlyInsideMatch)
    }

    function EnterMatch(): ControlFlowState {
      ControlFlowState(allowedExits.AllowReturn(), passesThroughTry, true, true)
    }
  }

  // ----- The state after a path of entries, outermost first -----

  datatype Frame = FunctionFrame | LoopFrame | MatchFrame

  function StateOf(path: seq<Frame>): ControlFlowState {
    if path == [] then
      ControlFlowState.NoControlFlow()
    else
      var outer := StateOf(path[..|path| - 1]);
      match path[|path| - 1]
      case FunctionFrame => outer.EnterFunction()
      case LoopFrame => outer.EnterLoop()
      case MatchFrame => outer.EnterMatch()
  }

  /** Some frame of kind `f` encloses the end of the path without a function in between. */
  ghost predicate EnclosedBy(path: seq<Frame>, f: Frame) {
    exists i :: 0 <= i < |path| && path[i] == f && FunctionFrame !in path[i + 1..]
  }

  lemma EnclosedByStep(path: seq<Frame>, last: Frame, f: Frame)
    ensures EnclosedBy(path + [last], f) <==> last == f || (!last.FunctionFrame? && EnclosedBy(path, f))
  {
    var whole := path + [last];
    if last == f {
      assert whole[|path| + 1..] == [];
      assert whole[|path|] == f;
    }
    if i :| 0 <= i < |path| && path[i] == f && FunctionFrame !in path[i + 1..] {
      assert whole[i + 1..] == path[i + 1..] + [last];
      assert whole[i] == f;
    }
    if i :| 0 <= i < |whole| && whole[i] == f && FunctionFrame !in whole[i + 1..] {
      if i < |path| {
        assert whole[i + 1..] == path[i + 1..] + [last];
        assert whole[i + 1..][|path| - i - 1] == last;
      }
    }
  }

  /** The three flags say exactly where in the source the emitted statement stands. */
  lemma {:induction false} StateCharacterisesContext(path: seq<Frame>)
    ensures StateOf(path).directlyInsideMatch <==> path != [] && path[|path| - 1].MatchFrame?
    ensures StateOf(path).indirectlyInsideMatch <==> EnclosedBy(path, MatchFrame)
    ensures AreLoopExitsAllowed(StateOf(path).allowedExits) <==> EnclosedBy(path, LoopFrame)
    ensures IsReturnAllowed(StateOf(path).allowedExits) <==> path != []
    ensures !StateOf(path).passesThroughTry
  {
    if path != [] {
      var outer, last := path[..|path| - 1], path[|path| - 1];
      assert path == outer + [last];
      StateCharacterisesContext(outer);
      EnclosedByStep(outer, last, MatchFrame);
      EnclosedByStep(outer, last, LoopFrame);
    }
  }
}
