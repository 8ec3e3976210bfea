# Jakt compiler back end: a Dafny verification project

The self-hosted Jakt compiler turns checked Jakt programs into C++. This project models the parts of
its C++ back end (and of four small companions) whose correctness is not obvious from any one
function, and proves what they are meant to guarantee.

| module | what it models |
|---|---|
| `ControlFlow`, `Jakt`, `Cpp`, `Lowering` | the control-flow state, the source statements and match expressions with their meaning, the emitted C++ as a tree with its meaning, and the lowering between them |
| `Preservation`, `Placement`, `FreshNames` | the lowering preserves meaning; which functions are emitted in a form that C++ takes and whose exits all bind to their targets; generated names are distinct |
| `BlockFlow`, `Typing` | the type checker's analysis of where blocks end and when it is right; typed programs, for which preservation leaves nothing out |
| `CodeGenerating` | the generator object whose methods update and restore state while they emit; proved to emit exactly what `Lowering` says |
| `ModuleSort` | Kahn's algorithm over module imports |
| `Postorder`, `TypeDependencies`, `NamespaceForward` | the order of type definitions: shared-state depth-first search, memoised dependency extraction, and the emission on top, with the exact conditions under which one definition precedes another |
| `TaggedUnion`, `EnumGenerator`, `TaggedUnionLifetimes` | the enums the type checker hands over, the special members emitted for sum enums, the loops that emit them, and their lifetime discipline over whole programs |
| `IntegerTypes`, `Arithmetic`, `OptimizedArithmetic` | fixed-width integers under C++'s rules, `Checked<T>`, the runtime's cast and shift helpers, and the two lowerings of integer expressions |
| `Processes`, `ProcessPool`, `Building` | the operating system's processes, the bounded job pool, and the builder that uses it |
| `LineSpans`, `SourceLocations`, `Diagnostics`, `ReportLayout` | the line index, its second version in the generator, the diagnostic printer, and what its reports look like in terms of the file's bytes |
| `ArgvPacking` | one allocation holding a pointer table and the strings it points to |
| `Wrappers`, `Sequences` | `Option` and `Result`; sequences and finite sets in general |

`dafny verify dfyconfig.toml` checks everything.

## How the models read the source

- Loops that update variables are methods with loops, objects whose methods change them are classes, and
  each such method is proved equal to a function on values; the theorems are about those functions. The
  comparison lambdas of the bootstrap compiler encode `<` as `== 0`, `>=` as `!= 0`, `>` as `== 2` and
  `<=` as `!= 2`.
- Text is a tree or a list of events, never a string. `Cpp.CFault` and `Arithmetic.Undefined` stand for
  everything C++ refuses or leaves undefined.
- `fuel` in the two semantics is the number of further loop iterations a run may start; the preservation
  theorem holds for every fuel, so it covers runs that end and all finite parts of runs that do not.
- `rank` in the type modules is a ghost witness that unboxed containment and super chains are well
  founded; the source recurses without end when they are not.
- Dictionaries and sets are iterated in an arbitrary order. The behaviour of the operating system is left
  open: which child ends when, how, and which one a wait returns.
- `hide` statements only shorten proof search; they weaken nothing.

## Where the code does less than its design promises

Each of these is a lemma about the code as it stands.

- Some functions that the type checker accepts are emitted with a `return` that C++ refuses. The return of a
  void or never-returning call is emitted as it stands, and no lambda of a match takes it. A function that an
  attribute renames to `main` is emitted with the result `ErrorOr<int>`, so that a bare `return` and the `{}`
  that its nested matches forward do not fit. And in a method of an enum that is written without a result type
  all returns pass, because the type is not known yet when they are checked: without `=>` it is emitted as a
  void function whatever it returns. `Placement.ReturnPlacedExactlyWhen` says which returns fit,
  `Placement.ExitsBindToTheirTargets` which functions, `Placement.RefusedFunctions` has the smallest ones that
  do not, and by `Placement.DeclaredReturnsFit` no function is affected whose written result has values, or
  that may throw and is not called main. `Preservation.ReturnOfVoidCall` is the same for runs.
- The switch of a match on an enum with an underlying type has no default. The type checker asks for all
  variants, but a cast makes values that are no variant, and such a value runs off the end of the lambda
  (`Preservation.UnmatchedCast`). It can happen without a catch-all only, and for no number that a case names
  (`Jakt.SelectsNothing`).
- The type checker's analysis of where blocks end loses breaks: one inside an expression, and some that a
  `return` follows. A function with a value for its result is then accepted although it can reach its end
  without one (`BlockFlow.BreaksAreLost`), and the emitted function runs off its end
  (`Typing.LostBreakRunsOffTheEnd`). A case of an enum match that ends in such a way runs into the body of the
  next case (`Typing.LostBreakRunsTheNextCase`). The analysis is right everywhere in a block exactly when it loses no break
  of an endless loop (`BlockFlow.AnalysisIsRightExactlyWhen`). It also gives up on some loops without a way out and on
  matches without cases, and judges everything exactly when neither happens (`BlockFlow.EverythingIsJudgedExactlyWhen`).
  What two branches come to depends on which of them is written first (`BlockFlow.BranchLaws`).
- A loop exit inside the condition of a `while` is accepted by the type checker but generated under the state
  outside the loop: it leaves the loop around that one, and without such a loop it ends in
  `release_value()` on a LoopBreak (`Preservation.ExitInWhileCondition`). `Preservation.LoweringPreservesMeaning`
  has the exact fault clause for every accepted function that C++ takes, apart from runs without a meaning in
  the source (`Stuck`). `Typing.TypedFunctionsKeepTheirMeaning` exempts no run: a typed function that loses no
  break and whose exits are received faults on unnamed enum values only.
- Type arguments are followed only if they are a plain struct or enum. What a definition holds behind another
  argument, an instance of a generic type, is extracted exactly if the definition also leads there in some
  other way (`TypeDependencies.ExtractionIsComplete`), so that a struct with a field of type
  `Optional<Box<i64>>` can be emitted before Box (`NamespaceForward.OverlookedIsUnordered`).
- Definitions are ordered for the types the scope declares. A dependency that it does not declare can be
  emitted before what it holds (`NamespaceForward.UndeclaredDependenciesAreUnordered`); none is emitted if
  the scope declares what its types depend on (`NamespaceForward.EmittedAreDeclared`). For any two
  definitions, however they are held, `NamespaceForward.EveryOrderEmits` says exactly when one is emitted
  before the other whatever the iteration order.
- Constructors and the struct declaration select a variant's own fields by comparing source names with
  emitted names, assignment and destruction by position (`TaggedUnion.FieldListsAgree`). That is harmless:
  the parser rejects attributes on enum fields and the type checker repeated names, so the two always agree
  (`TaggedUnion.CheckedEnumsAgree`).
- Enum fields of a type for which the generator has no destructor name, such as that of functions, are never
  destroyed. All programs over an enum keep the lifetime discipline exactly when it has no such field
  (`TaggedUnionLifetimes.SafeExactlyWhen`).
- The checked modulo of the smallest value by -1 multiplies back before it looks at its overflow flag, and
  for 32 and 64 bits that multiplication overflows (`Arithmetic.CheckedCallMeans`).
- Without checks, the product of two unsigned 16-bit numbers is computed as `int` and can overflow it: it is
  undefined, where other unsigned results wrap around (`Arithmetic.UnsignedProductOverflowsInt`,
  `Arithmetic.PromotionSuffices`).
- A compiler ended by a signal is recorded with status 0, which `build_all` takes for success
  (`Building.NormalReturnMeans`).
- The diagnostic printer stops on spans that end past the file or before the line they start in, and on no
  others (`Diagnostics.TrapCondition`). Under an empty span it draws its mark one byte early
  (`Diagnostics.MarksAreUnderSpan`), and the last line of a span that ends at that line's start is not printed at
  all, also when the span is empty (`ReportLayout.PrintedExactly`).
- The generator's line index has no empty last line, so the offset behind a final newline has no location
  (`SourceLocations.CodegenDebugInfo.SpanToSourceLocation`).
- When the string sizes alone overflow, `dup_argv` aborts instead of returning EOVERFLOW
  (`ArgvPacking.ComputeSizes`, `ArgvPacking.RepeatedStringAborts`).

## Model

| member | source | states |
|---|---|---|
| ControlFlow.StateCharacterisesContext | bootstrap/stage0/codegen.cpp:4-48 | after any path of function, loop and match entries, the state's flags and allowed exits say which of them is innermost and which enclose the statement within its function |
| Preservation.LoweringPreservesMeaning | bootstrap/stage0/codegen.cpp:8048-8360 | for every function that the type checker accepts: C++ takes the emitted returns and forwarded returns exactly when every return and match of the source fits the emitted result type; if so, for every state and fuel, the emitted function ends as the source does, with the same variables and effects, faulting exactly when the source leaves a loop from the condition of an outermost loop, meets a value of an enum with underlying type that no case names, or reaches its end without a value; and if every emitted loop exit is received, the first does not happen. Runs that get stuck, because types are violated or a case of a match ends without its value, are exempt here and ruled out in Typing |
| Preservation.PreservesMatch | bootstrap/stage0/codegen.cpp:5825-5843 | an emitted match, lambda and forwarding included, gives the source match's value or exit, at any nesting depth |
| Preservation.ForwardsExits | bootstrap/stage0/codegen.cpp:52-110 | whatever a match lambda hands back, the forwarding macro re-issues as the source's value or exit in the surrounding state |
| Preservation.PreservesDispatch | bootstrap/stage0/codegen.cpp:5846-6462 | for every subject, the if chain of a generic match and the switch of an enum match run the source's first accepting case, and without one panic, give void, or run off the lambda's end, by kind and type of the match |
| Preservation.PieceRuns | selfhost/codegen.jakt:3388-3525 | whichever way a piece of the if chain is joined to those before it, its body runs if its pattern accepts the subject, and the rest of the chain otherwise |
| Lowering.TestsMean | selfhost/codegen.jakt:3400-3505 | the emitted test holds of exactly the numbers that the pattern accepts, ranges half-open, except for a range without any bound, which tests the subject itself |
| Preservation.UnmatchedCast | bootstrap/stage0/codegen.cpp:6395-6455 | a match on a number cast to an enum with one variant faults for every number but the variant's, though accepted |
| Jakt.SelectsNothing | bootstrap/stage0/codegen.cpp:6395-6455 | an enum match has no case for a number exactly when it has no catch-all and does not name the number |
| Preservation.PreservesBody | bootstrap/stage0/codegen.cpp:6463-6502 | a case body hands its lambda the case's value, or its exit as LoopBreak, LoopContinue or return |
| Preservation.PreservesLoop | bootstrap/stage0/codegen.cpp:8201-8215 | an emitted endless loop runs like the source loop through any number of iterations |
| Preservation.PreservesWhile | bootstrap/stage0/codegen.cpp:8216-8236 | an emitted while loop runs like the source loop through any number of iterations, exits in its condition included |
| Preservation.PreservesReturn | bootstrap/stage0/codegen.cpp:8133-8200 | a return that fits the emitted result type returns the source's value, also through any number of matches |
| Preservation.PreservesYield | bootstrap/stage0/codegen.cpp:8335-8354 | a yield leaves its value in the slot of the innermost yielding block and jumps to that block's label |
| Preservation.ReturnOfVoidCall | bootstrap/stage0/codegen.cpp:8133-8200 | returning a void or never-returning call is right exactly when the function's emitted result is void and it may throw or no match surrounds the return |
| Preservation.ExitInWhileCondition | bootstrap/stage0/codegen.cpp:8216-8236 | a break in the condition of a loop faults exactly when the state outside that loop allows no loop exits |
| Placement.ExitsBindToTheirTargets | bootstrap/stage0/codegen.cpp:52-110 | for every accepted function: every emitted return and forwarding fits its place exactly when those of the source fit the emitted result; and besides no break or continue binds to a switch or leaves a lambda without a test that takes it, exactly when no outermost loop is left from its condition. Every goto aims at its innermost yielding block and every else follows an if |
| Placement.ReturnPlacedExactlyWhen | bootstrap/stage0/codegen.cpp:8133-8200 | which accepted returns are emitted in a form that C++ takes, by operand, result type, throwing, name and surrounding match |
| Placement.RefusedFunctions | bootstrap/stage0/codegen.cpp:6507-6518 | six accepted functions whose emitted form C++ refuses: a bare return and a nested match in a function renamed to main, a returned void call and a returned never call in a match, and two methods of an enum without a written result type, a bare return beside a value and a value in a block body |
| Placement.DeclaredReturnsFit | bootstrap/stage0/codegen.cpp:6507-6518 | a function with a written result type is never refused for its returns if the result has values, or if it may throw and is not main |
| BlockFlow.AnalysisIsRightExactlyWhen | selfhost/types.jakt:1056-1224 | at every depth of a block, whatever the analysis takes for unreachable is so, exactly when it takes no endless loop with a break for one without a way out |
| BlockFlow.EverythingIsJudgedExactlyWhen | selfhost/typechecker.jakt:4856-4913 | both directions: behind every statement at every depth the analysis says unreachable exactly when no syntactic way leads there, if and only if every endless loop is judged by whether it has a break and no match without cases decides; then the same holds of the whole block |
| BlockFlow.LoopsAreJudgedByTheirBlocks | selfhost/typechecker.jakt:4878-4909 | an endless `loop` counts as without a way out exactly if something happens in its block for sure and no break is flagged, a `while true` exactly if its block returns or never ends; a loop ends in no other way than its block |
| BlockFlow.BranchLaws | selfhost/types.jakt:1113-1163 | when two branches together are definite, transfer control, return, break or may be passed, for any two flows; and exactly when their order matters |
| BlockFlow.SequenceLaws | selfhost/types.jakt:1066-1171 | the same for two statements in a row, with the cases in which the break flag of the first is lost |
| BlockFlow.FlagMeansBreak | selfhost/types.jakt:1066-1224 | the break flag is never made up: where it is set, a break leaves the block |
| BlockFlow.NoWayIsMadeUp | selfhost/types.jakt:1056-1224 | what is judged to return, to abort or to transfer control has a statement in it that does so, where a return and an abort together count as a transfer |
| BlockFlow.RunsWithinStmt | selfhost/typechecker.jakt:4856-4908 | a run completes a statement, or breaks out of it, only if some syntactic way through it does |
| BlockFlow.BreaksAreLost | selfhost/typechecker.jakt:4838-4848 | two accepted function bodies that count as always returning and reach their ends |
| Typing.TypedFunctionsNeverGetStuck | selfhost/typechecker.jakt:10069-10130 | with typed variables, exhaustive matches and the type checker's test for block ends, no run uses a void value as a number, leaves a match without a case or misses a value, if no break is lost |
| Typing.TypedFunctionsKeepTheirMeaning | bootstrap/stage0/codegen.cpp:8048-8360 | for such functions, if C++ takes them and receives their exits, every run of the emitted function ends as the source's does; it faults exactly on an unnamed enum value, and never if those matches are total |
| Typing.LostBreakRunsOffTheEnd | selfhost/typechecker.jakt:4838-4848 | an accepted function with a break inside a value is emitted as one that runs off its end |
| Typing.LostBreakRunsTheNextCase | selfhost/typechecker.jakt:10083-10106 | an accepted case of an enum match that can end without a value goes on in the emitted switch with the next case, whose value the match takes |
| FreshNames.NamesAreDistinct | bootstrap/stage0/codegen.cpp:277-287 | over any number of functions generated in one run no two slots and no two labels coincide |
| CodeGenerating.CodeGenerator.CodegenExpression | bootstrap/stage0/codegen.cpp:4283-4300 | emits the lowering of the expression and leaves the state and the stack of yielding blocks as they were |
| CodeGenerating.CodeGenerator.CodegenMatch | bootstrap/stage0/codegen.cpp:5825-5843 | enters the match state for subject and cases only, and wraps the lambda in the forwarding of the state outside |
| CodeGenerating.CodeGenerator.CodegenGenericMatch | bootstrap/stage0/codegen.cpp:5846-6162 | emits the chain of cases in order, with the end that its result type and catch-all call for |
| CodeGenerating.CodeGenerator.CodegenEnumMatch | bootstrap/stage0/codegen.cpp:6163-6462 | emits the switch, with a default that cannot be reached for a sum enum without catch-all |
| CodeGenerating.CodeGenerator.CodegenMatchBody | bootstrap/stage0/codegen.cpp:6463-6502 | emits a case body that ends in the right kind of explicit value |
| CodeGenerating.CodeGenerator.CodegenBlock | bootstrap/stage0/codegen.cpp:8000-8043 | a yielding block takes a fresh slot and label, is on the stack exactly while its statements are emitted, and the stack is the same afterwards |
| CodeGenerating.CodeGenerator.CodegenStatement | bootstrap/stage0/codegen.cpp:8048-8360 | emits the lowering of the statement in the current state and restores the state it changes for loops |
| CodeGenerating.CodeGenerator.CodegenFunction | bootstrap/stage0/codegen.cpp:9621-9624 | a function body is emitted in the function state whatever the state was, and that state is restored |
| ModuleSort.CountInDegrees | bootstrap/stage0/codegen.cpp:289-330 | counts, per module, the import statements that name it, repetitions included |
| ModuleSort.TopologicallySortModules | bootstrap/stage0/codegen.cpp:289-371 | returns every module once with importers before what they import exactly when the imports have no cycle, and reaches the cycle panic otherwise |
| ModuleSort.OrderedIsAcyclic | bootstrap/stage0/codegen.cpp:289-371 | an arrangement with importers first rules out every cycle |
| ModuleSort.StuckRemainder | bootstrap/stage0/codegen.cpp:352-371 | with no module ready and some left over, the imports have a cycle |
| ModuleSort.BackwardWalkSeesImportsFirst | bootstrap/stage0/codegen.cpp:385-398 | walking the list backwards, a module comes up after everything it imports |
| ModuleSort.GetTopologicallySortedModules | bootstrap/stage0/codegen.cpp:880-905 | the selection of used modules keeps exactly these, once each, in the order of the sorted list and with importers first |
| Postorder.PostorderTraversal | bootstrap/stage0/codegen.cpp:933-958 | appends the traversal's types to the shared output and adds them to the shared visited set, and terminates on every graph |
| Postorder.TraversalIsPostorder | bootstrap/stage0/codegen.cpp:933-958 | from any visited set, exactly the types reachable around it are appended, once each, nothing they depend on is left out, and a dependency that cannot lead back comes first |
| Postorder.VisitFromExplores | bootstrap/stage0/codegen.cpp:943-955 | the same for a list of types visited one after the other on the same visited set |
| Postorder.VisitLeavesGaps | bootstrap/stage0/codegen.cpp:933-958 | a traversal after other roots lists what a fresh one lists, in the same order, without what those roots have visited |
| Postorder.EveryOrderKeeps | bootstrap/stage0/codegen.cpp:1737-1816 | one type is listed before another in every iteration order of the roots exactly when it is in the traversal of each root alone |
| TypeDependencies.ExtractDependenciesFrom | bootstrap/stage0/codegen.cpp:983-1051 | computes the extraction, through the graph built so far where the type is unboxed and known |
| TypeDependencies.ExtractDependenciesFromEnum | bootstrap/stage0/codegen.cpp:1055-1183 | computes an enum's extraction over its underlying type and variants |
| TypeDependencies.ExtractDependenciesFromStruct | bootstrap/stage0/codegen.cpp:1185-1295 | computes a struct's extraction over arguments, super chain and fields |
| TypeDependencies.ProduceCodegenDependencyGraph | bootstrap/stage0/codegen.cpp:961-981 | for every iteration order of the scope, each entry is what an extraction without any graph gives |
| TypeDependencies.MemoAgrees | bootstrap/stage0/codegen.cpp:983-1001 | extraction through a partly filled graph returns the same list as extraction through an empty one |
| TypeDependencies.ExtractedRanksBelow | bootstrap/stage0/codegen.cpp:983-1295 | everything extracted is a definition, and apart from the type's own it is strictly below the type |
| TypeDependencies.ExtractedExactly | bootstrap/stage0/codegen.cpp:983-1295 | what is extracted for a type is exactly the definitions to which members, followed arguments and super structs lead in any number of steps |
| TypeDependencies.HeldIsExtracted | bootstrap/stage0/codegen.cpp:1055-1295 | what a definition holds by value, behind type arguments of any depth included, is extracted exactly when the definition leads there by a followed way; it can be missed only behind an argument that is not looked at |
| TypeDependencies.ExtractionIsComplete | bootstrap/stage0/codegen.cpp:1200-1245 | the extraction misses nothing held by value exactly when every definition behind an overlooked argument is also led to in another way |
| TypeDependencies.PlainArgumentsAreFollowed | bootstrap/stage0/codegen.cpp:1200-1245 | nothing is overlooked where the members' arguments that are used by value are plain structs and enums |
| TypeDependencies.BoxIsOverlooked | bootstrap/stage0/codegen.cpp:1200-1245 | for a struct with a field of type Optional<Box<i64>> the extraction does not list Box |
| NamespaceForward.ForwardTypes | bootstrap/stage0/codegen.cpp:1737-1816 | emits the local definitions of the whole traversal, on one visited set |
| NamespaceForward.ForwardScope | bootstrap/stage0/codegen.cpp:1737-1816 | for any two iteration orders, each local definition of the scope is emitted once and after every other local definition that it leads to, which without overlooked arguments is all that it holds; the panic is reached exactly when the scope declares a type of another kind |
| NamespaceForward.ListingIsOrdered | bootstrap/stage0/codegen.cpp:1737-1816 | each type is listed once, all of the scope's are, and each comes after its dependencies in spite of the self-edges |
| NamespaceForward.DefinitionsPrecedeUses | bootstrap/stage0/codegen.cpp:1737-1816 | an emitted definition of the scope comes after every local definition that it leads to, or that it holds other than behind an overlooked argument |
| NamespaceForward.EveryOrderEmits | bootstrap/stage0/codegen.cpp:1737-1816 | for any two local definitions, declared by the scope or not, one is emitted before the other in every iteration order exactly when each single root's traversal lists it first |
| NamespaceForward.OverlookedIsUnordered | bootstrap/stage0/codegen.cpp:1737-1816 | a struct holding an Optional of a Box can be emitted before Box, both declared by the scope |
| NamespaceForward.NoneEmittedTwice | bootstrap/stage0/codegen.cpp:1737-1816 | no definition is emitted twice |
| NamespaceForward.EmittedAreDeclared | bootstrap/stage0/codegen.cpp:1737-1816 | if the scope declares the local definitions its types depend on, only types that the order covers are emitted |
| NamespaceForward.PanicsOnScopeTypes | bootstrap/stage0/codegen.cpp:1786-1797 | the unexpected-type panic is reached exactly when the scope itself declares such a type |
| NamespaceForward.UndeclaredDependenciesAreUnordered | bootstrap/stage0/codegen.cpp:1737-1816 | a nested dependency outside the scope is emitted before the type it holds |
| TaggedUnion.FieldListsAgree | bootstrap/stage0/codegen.cpp:3611-3714 | the fields that constructors build are those that assignment and destruction visit exactly when common fields alone carry common emitted names |
| TaggedUnion.CheckedEnumsAgree | selfhost/typechecker.jakt:3651-3760 | for every enum that the type checker hands over the two agree |
| TaggedUnion.CheckedEnumMeans | selfhost/typechecker.jakt:3651-3760 | a checked struct-like variant has the common fields and behind them exactly those of its own, in order, whose name is no common one and was not used before |
| TaggedUnion.DeclaredAreSlots | bootstrap/stage0/codegen.cpp:3040-3080 | the generated struct has a member for exactly the fields that the constructors build |
| EnumGenerator.ForEnumVariants | bootstrap/stage0/codegen.cpp:3276-3353 | the emitted switch has one case per variant, over its own fields in order |
| EnumGenerator.CodegenAssignmentBody | bootstrap/stage0/codegen.cpp:3356-3461 | emits the four assignment and constructor bodies from the two flags |
| EnumGenerator.CodegenFieldLists | bootstrap/stage0/codegen.cpp:3611-3714 | lists per variant the fields whose names are not in the set of common names |
| EnumGenerator.CodegenConstructors | bootstrap/stage0/codegen.cpp:3506-3560 | one constructor per variant: index, common fields, own fields |
| EnumGenerator.CodegenDestroyVariant | bootstrap/stage0/codegen.cpp:3875-3960 | one case per variant, destroying the fields with a destructor name |
| EnumGenerator.CodegenDestructorBody | bootstrap/stage0/codegen.cpp:3963-3987 | destroys the common fields with a destructor name |
| EnumGenerator.CodegenMembers | bootstrap/stage0/codegen.cpp:3464-3606 | all special members of an enum together |
| TaggedUnionLifetimes.Constructs | bootstrap/stage0/codegen.cpp:3356-3461 | copy and move construction fail the check exactly on an operand without a variant, and otherwise give the new object the operand's value |
| TaggedUnionLifetimes.Assigns | bootstrap/stage0/codegen.cpp:3356-3461 | copy and move assignment, also to itself and across variants, fail the check exactly on unset operands and otherwise, if the non-trivial field types have destructor names, transfer the value without touching a dead slot |
| TaggedUnionLifetimes.Creates | bootstrap/stage0/codegen.cpp:3506-3560 | a constructor call builds exactly the slots of its variant from its arguments |
| TaggedUnionLifetimes.VariantEnds | bootstrap/stage0/codegen.cpp:3875-3960 | destroying the variant ends its non-trivial fields, if their types have destructor names, and leaves the common ones |
| TaggedUnionLifetimes.Destructs | bootstrap/stage0/codegen.cpp:3963-3987 | after the destructor no non-trivial slot of the object is live, if their types have destructor names |
| TaggedUnionLifetimes.EveryStepIsSafe | bootstrap/stage0/codegen.cpp:3356-3987 | in a valid memory, if every non-trivial field type has a destructor name, every operation either reports an unset operand or succeeds with its intended effect on any set of objects, and the memory stays valid |
| TaggedUnionLifetimes.EveryProgramIsSafe | bootstrap/stage0/error.cpp:461-590 | for every enum that the type checker hands over whose non-trivial field types have destructor names, no sequence of operations reads, assigns, destroys or builds over a slot it must not; live slots are those of the current variants, and once every object is gone each slot was destroyed as often as it was built |
| TaggedUnionLifetimes.SafeExactlyWhen | selfhost/codegen.jakt:2321-2340 | all programs over an enum are safe in this sense exactly when every non-trivial field type has a destructor name |
| TaggedUnionLifetimes.FunctionFieldIsLeaked | selfhost/codegen.jakt:2321-2340 | an enum with a variant that holds a function does not meet the condition |
| IntegerTypes.QuotientBounds | runtime/lib.h:120-123 | bounds of the quotient that truncates toward zero and of its product with the divisor |
| IntegerTypes.ConvertIsCongruent | runtime/lib.h:335-344 | a truncating cast gives the only value of the target type that is congruent to its operand, for operands of any size |
| Arithmetic.CheckedCallMeans | runtime/lib.h:125-176 | for every width and operands, which of result, panic and undefined behaviour each checked operation has |
| Arithmetic.PlainAgrees | bootstrap/stage0/codegen.cpp:6891-6932 | whatever a checked operation returns, the plain operator with its cast returns too, promotion and conversions included |
| Arithmetic.PlainIsExactOnlyThen | bootstrap/stage0/codegen.cpp:6891-6932 | the plain operator is exact in no other case but the modulo of the smallest 8 or 16 bit value by -1 |
| Arithmetic.PlainMeans | bootstrap/stage0/codegen.cpp:6891-6932 | for every width and operands, the plain operator with its cast gives the number congruent to the exact result modulo the width, except where it is undefined: zero divisors, signed 32 and 64 bit results that do not fit, the smallest value of these modulo -1, and narrow results that do not fit `int` |
| Arithmetic.PromotionSuffices | bootstrap/stage0/codegen.cpp:6891-6932 | of the narrow types, only the product of two unsigned 16-bit numbers can fail to fit `int` |
| Arithmetic.UnsignedProductOverflowsInt | bootstrap/stage0/codegen.cpp:6891-6932 | and 65535 times 65535 does |
| Arithmetic.RangeCheckIsExact | bootstrap/stage0/runtime/AK/Checked.h:37-111 | the eight range checks are right for all pairs of integer types in spite of C++'s mixed comparisons |
| Arithmetic.CastsMean | runtime/lib.h:317-333 | the saturating cast clamps, the fallible casts keep the value or fail, and they agree where both give a value |
| Arithmetic.ShiftIsFloorDivision | runtime/lib.h:178-202 | the arithmetic shift divides by the power of two rounding down, for every type and every shift below the promoted width |
| OptimizedArithmetic.CheckedFormIsExact | bootstrap/stage0/codegen.cpp:6934-6977 | the checked form of any expression tree returns a value exactly where the unbounded meaning fits throughout, and returns that value |
| OptimizedArithmetic.OptimizedRefinesChecked | bootstrap/stage0/codegen.cpp:6614-6693 | for every expression tree, what the checked form returns the optimized form returns, with no undefined behaviour |
| OptimizedArithmetic.FormMeans | bootstrap/stage0/codegen.cpp:6614-6693 | for every expression tree, what either form comes to: value, panic or undefined behaviour, operator by operator; the optimized operators wrap around where the checked ones panic |
| OptimizedArithmetic.OptimizedPanicsInCastsOnly | bootstrap/stage0/codegen.cpp:6614-6693 | without an infallible cast the optimized form of a tree never panics |
| OptimizedArithmetic.OptimizedWrapsAround | bootstrap/stage0/codegen.cpp:6622-6624 | the unsigned 8-bit sum of 250 and 10 is 4 when optimized and a panic otherwise |
| Processes.Os.WaitAny | bootstrap/stage0/runtime/jaktlib/platform/posix_process.jakt:99-117 | a wait fails exactly without children, and otherwise reaps one child, any one, that has ended by then, and reports how |
| Processes.Os.Poll | bootstrap/stage0/runtime/jaktlib/platform/posix_process.jakt:61-80 | a poll fails exactly for a reaped child, and reaps the child and reports its end exactly if it has ended by then |
| ProcessPool.ParallelExecutionPool.Run | bootstrap/stage0/build.cpp:22-40 | with room, nothing is waited for, completed or reaped, and one new child is the new job; a full pool waits once, which completes every job that had ended. It fails exactly if no child can be made, or for a limit of 0 with no job to wait for. Jobs are numbered in order, completed statuses stay, and if all children are jobs their number never exceeds the limit |
| ProcessPool.ParallelExecutionPool.Status | bootstrap/stage0/build.cpp:42-49 | gives a job's own exit status once it has completed, and nothing before |
| ProcessPool.ParallelExecutionPool.WaitForAnyJobToComplete | bootstrap/stage0/build.cpp:51-113 | jobs stay partitioned into running and completed, completed ones with their own status; a child is reaped each time, every job that had ended before is completed, and a job completes if all children are jobs |
| ProcessPool.ParallelExecutionPool.Sweep | bootstrap/stage0/build.cpp:63-92 | polling all jobs in any order finds those that ended, and the one the wait itself reaped |
| ProcessPool.ParallelExecutionPool.WaitForAllJobsToComplete | bootstrap/stage0/build.cpp:115-122 | terminates with every job completed |
| ProcessPool.ParallelExecutionPool.KillAll | bootstrap/stage0/build.cpp:124-145 | afterwards every running job has ended, by its own fate or by the signal; the pool stays consistent and what was recorded stays |
| ProcessPool.SweepReaped | bootstrap/stage0/build.cpp:74-79 | a failing poll is that of the job the wait reaped, so the status it is given is its own |
| ProcessPool.RetiringIsConsistent | bootstrap/stage0/build.cpp:93-112 | moving the ended jobs over keeps running and completed disjoint, together all jobs |
| ProcessPool.WaitMakesProgress | bootstrap/stage0/build.cpp:51-113 | every wait leaves fewer children, and fewer running jobs if all children are jobs |
| Building.Builder.BuildAll | bootstrap/stage0/build.cpp:167-239 | a normal return means one command and one object per file in order, the list cleared, and every job ever run completed with status 0. Each error is that of the first file that could not be planned or started, with the objects and jobs of the files before it, or a failed compilation, which a job's status shows and which leaves no job running. If all files can be planned and no child fails to be made, the result is a normal return exactly if all statuses are 0. No job is started once a failure was recorded |
| Building.Builder.StartJob | bootstrap/stage0/build.cpp:202-206 | lists the object and starts the job of one file, or hands on the error of its path, its command line or the pool, with the object listed in the last two cases |
| Building.NormalReturnMeans | bootstrap/stage0/build.cpp:180-230 | after a normal return every compiler exited with code 0 exactly when none was ended by a signal |
| LineSpans.GatherLineSpans | bootstrap/stage0/error.cpp:391-424 | computes the line index |
| LineSpans.ExactlyOneLineCovers | bootstrap/stage0/error.cpp:391-424 | each offset up to the size is in exactly one line, the one after as many newlines as precede the offset |
| LineSpans.JoiningRestoresFile | bootstrap/stage0/error.cpp:391-424 | the lines joined with newlines are the file |
| SourceLocations.ShortIsAllButEmptyLast | bootstrap/stage0/codegen.cpp:199-224 | the generator's index is the same list without an empty last line |
| SourceLocations.CodegenDebugInfo.GatherLineSpans | bootstrap/stage0/codegen.cpp:178-224 | indexes every file but the prelude, in any order |
| SourceLocations.CodegenDebugInfo.SpanToSourceLocation | bootstrap/stage0/codegen.cpp:134-176 | gives one more than the newlines before the offset, nothing for unknown files, and panics exactly past the end or behind a final newline |
| Diagnostics.PrintSourceLine | bootstrap/stage0/error.cpp:267-328 | prints the line's bytes with the span's colours, or stops when the number is wider than the largest |
| Diagnostics.PrintUnderline | bootstrap/stage0/error.cpp:330-389 | draws one mark per byte of the line |
| Diagnostics.DisplayMessageWithSpan | bootstrap/stage0/error.cpp:81-265 | prints the report, or stops on a checked operation exactly for the spans named by the trap condition; ReportLayout says what the report is |
| Diagnostics.TrapCondition | bootstrap/stage0/error.cpp:81-265 | these spans end past the file or before the line they start in |
| Diagnostics.SpanPastEmptyFileTraps | bootstrap/stage0/error.cpp:81-265 | the span from 0 to 1 of an empty file stops the printer |
| Diagnostics.SpansInFileNeverTrap | bootstrap/stage0/error.cpp:81-265 | no span inside the file stops the printer |
| Diagnostics.NumbersAreAligned | bootstrap/stage0/error.cpp:81-265 | no printed line number exceeds the largest one scanned for, and all are padded to its width |
| Diagnostics.EveryByteIsShown | bootstrap/stage0/error.cpp:81-265 | the line of every byte of the span is printed |
| Diagnostics.ShownLineIsTheLine | bootstrap/stage0/error.cpp:267-328 | a printed line holds the file's bytes, coloured exactly from the span's start to its end |
| Diagnostics.MarksAreUnderSpan | bootstrap/stage0/error.cpp:330-389 | the rule is under exactly the span's bytes of the line |
| ReportLayout.HeaderNamesTheLocation | bootstrap/stage0/error.cpp:81-159 | the second event names the line of the span's start, one more than the newlines before it, and its column, one more than the bytes since the last newline |
| ReportLayout.ReportIsLaidOut | bootstrap/stage0/error.cpp:81-265 | every report, event by event in terms of newlines and bytes: message, location, line before, the span's lines with their bytes, the rule directly behind the last of them, the tail with as many blanks as the end is behind its line's start, line after, footer |
| ReportLayout.PrintedExactly | bootstrap/stage0/error.cpp:160-255 | which lines are printed: that before the span and that after it exactly if they exist, and the span's, the last only if the span reaches beyond its start; each one once, in rising order |
| ReportLayout.IndexedExactly | bootstrap/stage0/error.cpp:391-424 | the line index holds exactly the stretches between newlines, numbered by the newlines before them |
| ReportLayout.DebugLineIsReportedLine | bootstrap/stage0/codegen.cpp:134-176 | the line in the debug information of an offset is the line that a diagnostic starting there names, and is missing only behind a newline that ends the file |
| ArgvPacking.ComputeSizes | jakttest/process.cpp:29-55 | for all argument lists, which of the true sizes, EOVERFLOW and an abort the checked size computation comes to |
| ArgvPacking.RepeatedStringAborts | jakttest/process.cpp:29-55 | 2^24 entries for one string of 2^40 bytes make the computation abort |
| ArgvPacking.DupArgv | jakttest/process.cpp:29-79 | errors exactly as the sizes and the allocator say, and otherwise fills the whole allocation, of the true size, with table and strings |
| ArgvPacking.PackingRoundTrips | jakttest/process.cpp:57-77 | each table entry points at its argument's copy inside the allocation, and reading there gives the argument exactly when it has no NUL inside |
| ArgvPacking.TableEndsWithNull | jakttest/process.cpp:74-76 | the entry behind the last argument is null |

## Left out

- Emitted text as such: headers, `#line` comments, formatter specialisations, debug descriptions, generics, namespaces and method-call printing.
- `try`, `must`, `catch` and `defer` bodies: they run in lambdas of their own with the flags reset, and no exit may escape them.
- Typing in full: `Typing` has the types that matter for where a value is missing, and `Stuck` marks programs that violate them; nothing is said of their emitted form.
- Boolean literals as conditions are the literals 0 and 1 of the model.
- A static method named main, which is declared with one result type and defined with another.
- Expressions without control flow other than literals, variables, three operators, print and abort; function literals; patterns with effects of their own; duplicate case labels; `yielded_none`.
- The order in which C++ evaluates operands is taken to be left to right.
- Exits in the condition of a `while` belong to the loop around it in the model's source meaning; which loop the language means is not said anywhere.
- The compound-assignment operators, whose generator arms fall through to the generic emission, and floating-point casts.
- `JAKT_CONTINUE_ON_PANIC`: a panic stops the program.
- `WithValue` variants in the special members: an enum with an underlying type gets none.
- The index type of a sum enum, which is always wide enough for its variant count.
- Self move-assignment of a field is taken to leave it live with an unspecified value.
- The Windows process functions; a wait interrupted by a signal; any errno of a failing `fork` but EAGAIN.
- `Builder::link_into_archive` and `link_into_executable`, and the progress messages.
- Overflow of `size_t` in line numbers and offsets of the diagnostic printer; the message's and file name's text.
- Arithmetic on enums: the helpers first convert an enum to its underlying integer.
- ide, ids, compiler, git, cpp_import, fs and os sources: queries, wrappers and input/output without a deeper property.
