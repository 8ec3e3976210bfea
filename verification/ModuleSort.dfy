/**
 The order in which modules are generated (`topologically_sort_modules`): Kahn's
 algorithm over the import graph, with in-degree counts in a dictionary and the ready
 modules on a stack.

 `imports[m]` lists what module `m` imports, in order and with repetitions.
 */
module ModuleSort {
  import opened Wrappers
  import opened Sequences

  ghost predicate ImportsExist(imports: seq<seq<nat>>) {
    forall m, i :: 0 <= m < |imports| && 0 <= i < |imports[m]| ==> imports[m][i] < |imports|
  }

  /** A walk along import edges. */
  ghost predicate IsWalk(imports: seq<seq<nat>>, walk: seq<nat>) {
    && (forall i :: 0 <= i < |walk| ==> walk[i] < |imports|)
    && (forall i :: 0 < i < |walk| ==> Imports(imports, walk[i - 1], walk[i]))
  }

  ghost predicate IsCycle(imports: seq<seq<nat>>, walk: seq<nat>) {
    |walk| > 1 && IsWalk(imports, walk) && walk[0] == walk[|walk| - 1]
  }

  ghost predicate Acyclic(imports: seq<seq<nat>>) {
    forall walk :: !IsCycle(imports, walk)
  }

  /** Module `m` names `imported` in an import. */
  ghost predicate Imports(imports: seq<seq<nat>>, m: nat, imported: nat) {
    m < |imports| && imported in imports[m]
  }

  /** Every module once. */
  ghost predicate IsArrangement(s: seq<nat>, n: nat) {
    NoRepeats(s) && (forall m: nat :: m in s <==> m < n)
  }

  ghost predicate ImportersFirst(imports: seq<seq<nat>>, s: seq<nat>) {
    forall i, j :: 0 <= i < |s| && 0 <= j < |s| && Imports(imports, s[i], s[j]) ==> i < j
  }

  // ----- In-degrees -----

  /** How often modules below `k` that are not in `done` import `m`. */
  ghost function Importers(imports: seq<seq<nat>>, done: set<nat>, k: nat, m: nat): nat
    requires k <= |imports|
  {
    if k == 0 then 0
    else Importers(imports, done, k - 1, m) + if k - 1 in done then 0 else multiset(imports[k - 1])[m]
  }

  lemma {:induction false} ImportersWithout(imports: seq<seq<nat>>, done: set<nat>, id: nat, k: nat, m: nat)
    requires k <= |imports| && id < |imports| && id !in done
    ensures Importers(imports, done, k, m) ==
            Importers(imports, done + {id}, k, m) + if id < k then multiset(imports[id])[m] else 0
  {
    if k > 0 {
      ImportersWithout(imports, done, id, k - 1, m);
    }
  }

  lemma {:induction false} ImportersPositive(imports: seq<seq<nat>>, done: set<nat>, k: nat, m: nat)
    requires k <= |imports|
    ensures Importers(imports, done, k, m) > 0 <==> exists j :: 0 <= j < k && j !in done && Imports(imports, j, m)
  {
    if k > 0 {
      ImportersPositive(imports, done, k - 1, m);
      assert m in multiset(imports[k - 1]) <==> m in imports[k - 1];
    }
  }

  // ----- Finite sequences of module ids -----

  ghost function Below(n: nat): (all: set<nat>)
    ensures forall m: nat :: m in all <==> m < n
    ensures |all| == n
  {
    if n == 0 then {} else Below(n - 1) + {n - 1}
  }

  lemma FitsBelow(s: seq<nat>, n: nat)
    requires NoRepeats(s) && forall m: nat :: m in s ==> m < n
    ensures |s| <= n
    ensures |s| == n <==> Elements(s) == Below(n)
  {
    DistinctCount(s);
    assert Elements(s) <= Below(n);
    SubsetSize(Elements(s), Below(n));
    if |s| == n {
      SubsetOfSameSize(Elements(s), Below(n));
    }
  }

  lemma {:induction false} DistinctCount(s: seq<nat>)
    requires NoRepeats(s)
    ensures |Elements(s)| == |s|
  {
    if s != [] {
      var front, last := s[..|s| - 1], s[|s| - 1];
      assert s == front + [last];
      DistinctCount(front);
      assert last !in front;
      assert Elements(s) == Elements(front) + {last};
    }
  }

  lemma SubsetOfSameSize(a: set<nat>, b: set<nat>)
    requires a <= b && |a| == |b|
    ensures a == b
  {
    if m :| m in b && m !in a {
      SubsetSize(a, b - {m});
    }
  }

  // ----- Cycles and orders -----

  /** A walk goes up in any order that puts importers first. */
  lemma {:induction false} WalkGoesUp(imports: seq<seq<nat>>, s: seq<nat>, walk: seq<nat>, k: nat)
    requires IsArrangement(s, |imports|) && ImportersFirst(imports, s)
    requires IsWalk(imports, walk) && 0 < k < |walk|
    ensures exists i, j :: 0 <= i < j < |s| && s[i] == walk[0] && s[j] == walk[k]
  {
    assert walk[k - 1] in s && walk[k] in s;
    var j :| 0 <= j < |s| && s[j] == walk[k];
    if k == 1 {
      var i :| 0 <= i < |s| && s[i] == walk[0];
      assert Imports(imports, s[i], s[j]);
    } else {
      WalkGoesUp(imports, s, walk, k - 1);
      var i, i' :| 0 <= i < i' < |s| && s[i] == walk[0] && s[i'] == walk[k - 1];
      assert Imports(imports, s[i'], s[j]);
    }
  }

  lemma OrderedIsAcyclic(imports: seq<seq<nat>>, s: seq<nat>)
    requires IsArrangement(s, |imports|) && ImportersFirst(imports, s)
    ensures Acyclic(imports)
  {
    forall walk ensures !IsCycle(imports, walk) {
      if IsCycle(imports, walk) {
        WalkGoesUp(imports, s, walk, |walk| - 1);
      }
    }
  }

  ghost predicate ImportedFrom(imports: seq<seq<nat>>, some: set<nat>, m: nat) {
    exists j :: j in some && Imports(imports, j, m)
  }

  ghost predicate AllImported(imports: seq<seq<nat>>, some: set<nat>) {
    forall m :: m in some ==> m < |imports| && ImportedFrom(imports, some, m)
  }

  lemma WalkPrepend(imports: seq<seq<nat>>, m: nat, walk: seq<nat>)
    requires walk != [] && IsWalk(imports, walk) && Imports(imports, m, walk[0])
    ensures IsWalk(imports, [m] + walk)
  {
    var longer := [m] + walk;
    assert forall i :: 0 < i < |longer| ==> longer[i] == walk[i - 1];
  }

  lemma WalkPart(imports: seq<seq<nat>>, walk: seq<nat>, i: nat, j: nat)
    requires IsWalk(imports, walk) && i <= j <= |walk|
    ensures IsWalk(imports, walk[i..j])
  {
    var part := walk[i..j];
    assert forall k :: 0 <= k < |part| ==> part[k] == walk[i + k];
  }

  /** Modules that all have an importer among themselves can be walked backwards for ever. */
  lemma {:induction false} WalkBackwards(imports: seq<seq<nat>>, stuck: set<nat>, from: nat, steps: nat) returns (walk: seq<nat>)
    requires AllImported(imports, stuck) && from in stuck
    ensures |walk| == steps + 1 && IsWalk(imports, walk) && walk[0] in stuck
  {
    if steps == 0 {
      walk := [from];
    } else {
      var rest := WalkBackwards(imports, stuck, from, steps - 1);
      assert ImportedFrom(imports, stuck, rest[0]);
      var j :| j in stuck && Imports(imports, j, rest[0]);
      walk := [j] + rest;
      WalkPrepend(imports, j, rest);
    }
  }

  lemma StuckIsCyclic(imports: seq<seq<nat>>, stuck: set<nat>, from: nat)
    requires AllImported(imports, stuck) && from in stuck
    ensures !Acyclic(imports)
  {
    var walk := WalkBackwards(imports, stuck, from, |imports|);
    if NoRepeats(walk) {
      FitsBelow(walk, |imports|);
    }
    var i, j :| 0 <= i < j < |walk| && walk[i] == walk[j];
    var cycle := walk[i..j + 1];
    WalkPart(imports, walk, i, j + 1);
    assert IsCycle(imports, cycle);
  }

  // ----- The algorithm -----

  /** Counts, for each module, the import statements that name it. */
  method CountInDegrees(imports: seq<seq<nat>>) returns (inDegrees: map<nat, int>)
    requires ImportsExist(imports)
    ensures forall m :: 0 <= m < |imports| ==> m in inDegrees && inDegrees[m] == Importers(imports, {}, |imports|, m)
  {
    inDegrees := map[];
    NothingCounted(imports);
    hide CountsTo;
    for k := 0 to |imports|
      invariant forall m :: 0 <= m < k ==> m in inDegrees
      invariant CountsTo(imports, inDegrees, k, [])
    {
      for i := 0 to |imports[k]|
        invariant forall m :: 0 <= m < k ==> m in inDegrees
        invariant CountsTo(imports, inDegrees, k, imports[k][..i])
      {
        var imported := imports[k][i];
        var existing := if imported in inDegrees then inDegrees[imported] else 0;
        CountOneMore(imports, inDegrees, k, imports[k][..i], imported);
        assert imports[k][..i + 1] == imports[k][..i] + [imported];
        inDegrees := inDegrees[imported := existing + 1];
      }
      assert imports[k][..|imports[k]|] == imports[k];
      CountModule(imports, inDegrees, k);
      if k !in inDegrees {
        inDegrees := inDegrees[k := 0];
      }
    }
    AllCounted(imports, inDegrees);
  }

  /** The dictionary counts the imports of the modules below `k` and those in `seen`; a missing entry counts 0. */
  ghost predicate CountsTo(imports: seq<seq<nat>>, inDegrees: map<nat, int>, k: nat, seen: seq<nat>)
    requires k <= |imports|
  {
    forall m: nat :: CountOf(inDegrees, m) == Importers(imports, {}, k, m) + multiset(seen)[m]
  }

  function CountOf(inDegrees: map<nat, int>, m: nat): int {
    if m in inDegrees then inDegrees[m] else 0
  }

  lemma NothingCounted(imports: seq<seq<nat>>)
    ensures CountsTo(imports, map[], 0, [])
  {
  }

  lemma AllCounted(imports: seq<seq<nat>>, inDegrees: map<nat, int>)
    requires CountsTo(imports, inDegrees, |imports|, []) && forall m :: 0 <= m < |imports| ==> m in inDegrees
    ensures forall m :: 0 <= m < |imports| ==> inDegrees[m] == Importers(imports, {}, |imports|, m)
  {
    forall m: nat | m < |imports| ensures inDegrees[m] == Importers(imports, {}, |imports|, m) {
      assert CountOf(inDegrees, m) == Importers(imports, {}, |imports|, m) + multiset([])[m];
    }
  }

  lemma CountOneMore(imports: seq<seq<nat>>, inDegrees: map<nat, int>, k: nat, seen: seq<nat>, imported: nat)
    requires k <= |imports| && CountsTo(imports, inDegrees, k, seen)
    ensures CountsTo(imports, inDegrees[imported := CountOf(inDegrees, imported) + 1], k, seen + [imported])
  {
    hide Importers;
    assert multiset(seen + [imported]) == multiset(seen) + multiset{imported};
  }

  lemma CountModule(imports: seq<seq<nat>>, inDegrees: map<nat, int>, k: nat)
    requires k < |imports| && CountsTo(imports, inDegrees, k, imports[k])
    ensures CountsTo(imports, inDegrees, k + 1, [])
    ensures k !in inDegrees ==> CountsTo(imports, inDegrees[k := 0], k + 1, [])
  {
  }

  /** No module is listed twice, and a sorted module comes after all its importers. */
  ghost predicate Progress(imports: seq<seq<nat>>, sorted: seq<nat>, stack: seq<nat>) {
    && NoRepeats(sorted + stack)
    && (forall m: nat :: m in sorted + stack ==> m < |imports|)
    && (forall i, m: nat :: 0 <= i < |sorted| && Imports(imports, m, sorted[i]) ==> m in sorted[..i])
  }

  /** The dictionary counts the importers outside `done`, plus those still listed in `pending`. */
  ghost predicate Counts(imports: seq<seq<nat>>, inDegrees: map<nat, int>, done: set<nat>, pending: seq<nat>) {
    forall m: nat :: m < |imports| ==>
      m in inDegrees && inDegrees[m] == Importers(imports, done, |imports|, m) + multiset(pending)[m]
  }

  /** The ready modules are exactly those whose count has reached zero. */
  ghost predicate Ready(imports: seq<seq<nat>>, inDegrees: map<nat, int>, sorted: seq<nat>, stack: seq<nat>) {
    forall m: nat :: m < |imports| && m in inDegrees ==> (inDegrees[m] == 0 <==> m in sorted + stack)
  }

  ghost predicate Consistent(imports: seq<seq<nat>>, inDegrees: map<nat, int>, sorted: seq<nat>, stack: seq<nat>,
          pending: seq<nat>) {
    && Progress(imports, sorted, stack)
    && Counts(imports, inDegrees, Elements(sorted), pending)
    && Ready(imports, inDegrees, sorted, stack)
  }

  /**
   The modules, importers before what they import; the cycle panic exactly when the
   imports have a cycle.
   */
  method TopologicallySortModules(imports: seq<seq<nat>>) returns (r: Result<seq<nat>, string>)
    requires ImportsExist(imports)
    ensures r.Ok? <==> Acyclic(imports)
    ensures r.Ok? ==> IsArrangement(r.value, |imports|) && ImportersFirst(imports, r.value)
    ensures r.Err? ==> r.error == "Cyclic module imports"
  {
    var inDegrees: map<nat, int> := CountInDegrees(imports);
    var stack: seq<nat> := [];
    for k := 0 to |imports|
      invariant NoRepeats(stack)
      invariant forall m: nat :: m in stack <==> m < k && inDegrees[m] == 0
    {
      if inDegrees[k] == 0 {
        stack := stack + [k];
      }
    }
    var sorted: seq<nat> := [];
    assert sorted + stack == stack && Elements(sorted) == {};
    assert Consistent(imports, inDegrees, sorted, stack, []);
    hide Consistent, NoRepeats, Importers, Imports, Acyclic, IsArrangement, ImportersFirst;
    while stack != []
      invariant Consistent(imports, inDegrees, sorted, stack, [])
      decreases |imports| - |sorted|
    {
      var id := stack[|stack| - 1];
      Pop(imports, inDegrees, sorted, stack);
      stack := stack[..|stack| - 1];
      sorted := sorted + [id];
      inDegrees, stack := CountOffImports(imports, inDegrees, sorted, stack, id);
      SortedFits(imports, inDegrees, sorted, stack);
    }
    SortedFits(imports, inDegrees, sorted, stack);
    if |sorted| == |imports| {
      OrderedIsAcyclic(imports, sorted);
      return Ok(sorted);
    }
    StuckRemainder(imports, inDegrees, sorted);
    return Err("Cyclic module imports");
  }

  /** The inner loop: every import of the module just sorted is counted off. */
  method CountOffImports(imports: seq<seq<nat>>, before: map<nat, int>, sorted: seq<nat>, ready: seq<nat>, id: nat)
    returns (inDegrees: map<nat, int>, stack: seq<nat>)
    requires ImportsExist(imports) && id < |imports| && Consistent(imports, before, sorted, ready, imports[id])
    ensures Consistent(imports, inDegrees, sorted, stack, [])
  {
    inDegrees, stack := before, ready;
    var i := 0;
    assert imports[id][0..] == imports[id];
    while i < |imports[id]|
      invariant 0 <= i <= |imports[id]|
      invariant Consistent(imports, inDegrees, sorted, stack, imports[id][i..])
    {
      var imported := imports[id][i];
      IsCounted(imports, inDegrees, sorted, stack, imports[id][i..], imported);
      hide Consistent;
      var inDegree := inDegrees[imported];
      assert imports[id][i..] == [imported] + imports[id][i + 1..];
      CountOff(imports, inDegrees, sorted, stack, imported, imports[id][i + 1..]);
      inDegrees := inDegrees[imported := inDegree - 1];
      if inDegree == 1 {
        stack := stack + [imported];
      }
      i := i + 1;
    }
    assert imports[id][i..] == [];
  }

  lemma SortedFits(imports: seq<seq<nat>>, inDegrees: map<nat, int>, sorted: seq<nat>, stack: seq<nat>)
    requires Consistent(imports, inDegrees, sorted, stack, [])
    ensures |sorted| <= |imports|
    ensures |sorted| == |imports| ==> IsArrangement(sorted, |imports|) && ImportersFirst(imports, sorted)
  {
    var all := sorted + stack;
    assert forall i :: 0 <= i < |sorted| ==> all[i] == sorted[i];
    assert forall m: nat :: m in sorted ==> m in all;
    FitsBelow(sorted, |imports|);
    if |sorted| == |imports| {
      assert forall m: nat :: m in sorted <==> m in Elements(sorted);
      assert forall m: nat :: m < |imports| <==> m in Below(|imports|);
    }
  }

  lemma IsCounted(imports: seq<seq<nat>>, inDegrees: map<nat, int>, sorted: seq<nat>, stack: seq<nat>, pending: seq<nat>, m: nat)
    requires Consistent(imports, inDegrees, sorted, stack, pending) && m < |imports|
    ensures m in inDegrees
  {
  }

  /** Counting off one import statement, and putting its module on the stack when it was the last. */
  lemma CountOff(imports: seq<seq<nat>>, inDegrees: map<nat, int>, sorted: seq<nat>, stack: seq<nat>, imported: nat,
          pending: seq<nat>)
    requires Consistent(imports, inDegrees, sorted, stack, [imported] + pending)
    requires imported < |imports|
    ensures var inDegree := inDegrees[imported];
            Consistent(imports, inDegrees[imported := inDegree - 1], sorted,
                       if inDegree == 1 then stack + [imported] else stack, pending)
  {
    assert multiset([imported] + pending) == multiset{imported} + multiset(pending);
    var longer := sorted + (stack + [imported]);
    assert longer == (sorted + stack) + [imported];
    assert imported !in sorted + stack;
  }

  /** With nothing ready and modules left over, the imports have a cycle among those. */
  lemma StuckRemainder(imports: seq<seq<nat>>, inDegrees: map<nat, int>, sorted: seq<nat>)
    requires Consistent(imports, inDegrees, sorted, [], []) && |sorted| != |imports|
    ensures !Acyclic(imports)
  {
    assert sorted + [] == sorted;
    FitsBelow(sorted, |imports|);
    var left := Below(|imports|) - Elements(sorted);
    forall m | m in left ensures ImportedFrom(imports, left, m) {
      ImportersPositive(imports, Elements(sorted), |imports|, m);
      var j :| 0 <= j < |imports| && j !in Elements(sorted) && Imports(imports, j, m);
      assert j in left;
    }
    assert forall m: nat :: m in Elements(sorted) ==> m in sorted + [];
    assert Elements(sorted) <= Below(|imports|) && Elements(sorted) != Below(|imports|);
    var from: nat :| from < |imports| && from !in Elements(sorted);
    StuckIsCyclic(imports, left, from);
  }

  /** Taking the top module off the stack keeps every invariant, with its imports still to be counted off. */
  lemma Pop(imports: seq<seq<nat>>, inDegrees: map<nat, int>, sorted: seq<nat>, stack: seq<nat>)
    requires stack != []
    requires Consistent(imports, inDegrees, sorted, stack, [])
    ensures var id := stack[|stack| - 1];
            id < |imports| && Consistent(imports, inDegrees, sorted + [id], stack[..|stack| - 1], imports[id])
  {
    var id, rest := stack[|stack| - 1], stack[..|stack| - 1];
    assert stack == rest + [id];
    TopIsReady(imports, inDegrees, sorted, rest, id);
    PopProgress(imports, sorted, rest, id);
    PopCounts(imports, inDegrees, sorted, id);
    hide Progress, Counts, Imports, Importers;
  }

  lemma TopIsReady(imports: seq<seq<nat>>, inDegrees: map<nat, int>, sorted: seq<nat>, rest: seq<nat>, id: nat)
    requires Consistent(imports, inDegrees, sorted, rest + [id], [])
    ensures id < |imports| && forall m: nat :: Imports(imports, m, id) ==> m in Elements(sorted)
  {
    var all := sorted + (rest + [id]);
    assert all[|all| - 1] == id;
    assert id in all && inDegrees[id] == 0;
    hide Ready, Progress, NoRepeats;
    ImportersPositive(imports, Elements(sorted), |imports|, id);
  }

  lemma PopCounts(imports: seq<seq<nat>>, inDegrees: map<nat, int>, sorted: seq<nat>, id: nat)
    requires Counts(imports, inDegrees, Elements(sorted), []) && id < |imports| && id !in sorted
    ensures Counts(imports, inDegrees, Elements(sorted + [id]), imports[id])
  {
    assert Elements(sorted + [id]) == Elements(sorted) + {id};
    forall m: nat | m < |imports|
      ensures m in inDegrees && inDegrees[m] == Importers(imports, Elements(sorted + [id]), |imports|, m) + multiset(imports[id])[m]
    {
      ImportersWithout(imports, Elements(sorted), id, |imports|, m);
    }
  }

  lemma Rearranged(a: seq<nat>, b: seq<nat>, x: nat)
    requires NoRepeats(a + (b + [x]))
    ensures NoRepeats((a + [x]) + b) && x !in a
    ensures forall m: nat :: m in a + (b + [x]) <==> m in (a + [x]) + b
  {
    var before, after := a + (b + [x]), (a + [x]) + b;
    assert before[|a| + |b|] == x;
    forall i, j | 0 <= i < j < |after| ensures after[i] != after[j] {
      assert after[i] == before[MovedFrom(|a|, |b|, i)] && after[j] == before[MovedFrom(|a|, |b|, j)];
    }
    assert forall i :: 0 <= i < |a| ==> before[i] == a[i];
    assert forall m: nat :: m in before <==> m in a || m in b || m == x;
  }

  /** Where the element at `i` was before the last one was moved behind the first `n`. */
  function MovedFrom(n: nat, k: nat, i: nat): nat
    requires i <= n + k
  {
    if i < n then i else if i == n then n + k else i - 1
  }

  lemma PopProgress(imports: seq<seq<nat>>, sorted: seq<nat>, rest: seq<nat>, id: nat)
    requires Progress(imports, sorted, rest + [id])
    requires forall m: nat :: Imports(imports, m, id) ==> m in Elements(sorted)
    ensures Progress(imports, sorted + [id], rest) && id !in sorted
    ensures forall m: nat :: m in sorted + (rest + [id]) <==> m in (sorted + [id]) + rest
  {
    Rearranged(sorted, rest, id);
    forall i, m: nat | 0 <= i < |sorted + [id]| && Imports(imports, m, (sorted + [id])[i])
      ensures m in (sorted + [id])[..i]
    {
      assert (sorted + [id])[..i] == sorted[..i];
      if i == |sorted| {
        assert m in Elements(sorted);
        assert sorted[..i] == sorted;
      }
    }
  }

  /** `generate` walks the list from its end, so a module is generated after what it imports. */
  lemma BackwardWalkSeesImportsFirst(imports: seq<seq<nat>>, s: seq<nat>, earlier: nat, later: nat)
    requires IsArrangement(s, |imports|) && ImportersFirst(imports, s)
    requires earlier < |s| && later < |s|
    requires Imports(imports, Backward(s, later), Backward(s, earlier))
    ensures earlier < later
  {
    var i, j := |s| - 1 - later, |s| - 1 - earlier;
    assert Imports(imports, s[i], s[j]);
  }

  /** The module that `generate` takes up after `k` others. */
  function Backward(s: seq<nat>, k: nat): nat
    requires k < |s|
  {
    s[|s| - 1 - k]
  }

  /** What `some` lists, it lists in the order of `all`. */
  ghost predicate SameOrder(some: seq<nat>, all: seq<nat>) {
    forall i, j, k, l :: 0 <= i < j < |some| && 0 <= k < |all| && 0 <= l < |all| && all[k] == some[i] && all[l] == some[j] ==> k < l
  }

  /** The used modules, in the sorted order: importers still come first, each used module once. */
  method GetTopologicallySortedModules(imports: seq<seq<nat>>, allSorted: seq<nat>, used: set<nat>) returns (deps: seq<nat>)
    requires NoRepeats(allSorted) && ImportersFirst(imports, allSorted)
    ensures NoRepeats(deps) && ImportersFirst(imports, deps)
    ensures forall m :: m in deps <==> m in allSorted && m in used
    ensures SameOrder(deps, allSorted)
  {
    deps := [];
    ghost var at: seq<nat> := [];
    for k := 0 to |allSorted|
      invariant |at| == |deps|
      invariant forall i :: 0 <= i < |at| ==> at[i] < k && allSorted[at[i]] == deps[i] && deps[i] in used
      invariant forall i, j :: 0 <= i < j < |at| ==> at[i] < at[j]
      invariant forall m :: m in allSorted[..k] && m in used ==> m in deps
    {
      if allSorted[k] in used {
        deps := deps + [allSorted[k]];
        at := at + [k];
      }
    }
    assert allSorted[..|allSorted|] == allSorted;
    PickedInOrder(imports, allSorted, deps, at);
  }

  lemma PickedInOrder(imports: seq<seq<nat>>, all: seq<nat>, some: seq<nat>, at: seq<nat>)
    requires NoRepeats(all) && ImportersFirst(imports, all) && |at| == |some|
    requires forall i :: 0 <= i < |at| ==> at[i] < |all| && all[at[i]] == some[i]
    requires forall i, j :: 0 <= i < j < |at| ==> at[i] < at[j]
    ensures NoRepeats(some) && ImportersFirst(imports, some) && SameOrder(some, all)
  {
    forall i, j | 0 <= i < |some| && 0 <= j < |some| && Imports(imports, some[i], some[j]) ensures i < j {
      assert Imports(imports, all[at[i]], all[at[j]]);
    }
    forall i, j, k, l | 0 <= i < j < |some| && 0 <= k < |all| && 0 <= l < |all| && all[k] == some[i] && all[l] == some[j]
      ensures k < l
    {
      assert k == at[i] && l == at[j];
    }
  }
}
