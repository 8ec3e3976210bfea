/**
 The traversal phase of `codegen_namespace_forward`: the definitions of a scope's types,
 and when each of them comes after what it holds by value.
 */
module NamespaceForward {
  import opened Wrappers
  import opened Postorder
  import opened Sequences
  import opened TypeDependencies

  /** What is emitted for the listed types; `panicked` if a type is neither enum, struct nor trait. */
  datatype Emission = Emission(definitions: seq<TypeId>, panicked: bool)

  function Emit(p: Program, local: set<TypeId>, listed: seq<TypeId>): Emission {
    if listed == [] then Emission([], false)
    else
      var before := Emit(p, local, listed[..|listed| - 1]);
      var t := listed[|listed| - 1];
      if before.panicked then before
      else if IsDefinition(p, t) then
        (if t in local then Emission(before.definitions + [t], false) else before)
      else if t < |p.types| && p.types[t].TraitType? then before
      else Emission(before.definitions, true)
  }

  /** `entries` are the keys of the graph in the order of its iterator; `local` is the current module. */
  method ForwardTypes(p: Program, g: Graph, entries: seq<TypeId>, local: set<TypeId>) returns (r: Emission)
    requires AllIn(entries, Universe(g))
    ensures r == Emit(p, local, VisitFrom(g, entries, 0, {}))
  {
    var seenTypes := new TypeSet();
    r := Emission([], false);
    ghost var listed: seq<TypeId> := [];
    assert r == Emit(p, local, listed);
    hide Emit, Visit, VisitFrom, Universe, AllIn;
    for i := 0 to |entries|
      invariant fresh(seenTypes)
      invariant seenTypes.elements == Elements(listed)
      invariant VisitFrom(g, entries, 0, {}) == listed + VisitFrom(g, entries, i, seenTypes.elements)
      invariant r == Emit(p, local, listed)
    {
      OneMoreEntry(g, entries, i, listed, seenTypes.elements);
      var traversal := new TypeArray();
      ghost var first := Visit(g, entries[i], seenTypes.elements);
      PostorderTraversal(entries[i], seenTypes, g, traversal);
      assert traversal.items == first;
      r := EmitTraversal(p, traversal.items, local, seenTypes, listed, r);
      listed := listed + first;
    }
    NoMoreEntries(g, entries, listed, seenTypes.elements);
  }

  /** Visiting one more entry extends the listing by its traversal. */
  lemma OneMoreEntry(g: Graph, entries: seq<TypeId>, i: nat, listed: seq<TypeId>, seen: set<TypeId>)
    requires AllIn(entries, Universe(g)) && i < |entries| && seen == Elements(listed)
    ensures entries[i] in Universe(g)
    ensures var first := Visit(g, entries[i], seen);
            && Elements(listed + first) == seen + Elements(first)
            && listed + VisitFrom(g, entries, i, seen) == (listed + first) + VisitFrom(g, entries, i + 1, seen + Elements(first))
  {
    assert entries[i] in entries;
    var first := Visit(g, entries[i], seen);
    var rest := VisitFrom(g, entries, i + 1, seen + Elements(first));
    Regroup({}, listed, first, rest, [], seen);
    ElementsOfConcat(listed, first);
  }

  lemma NoMoreEntries(g: Graph, entries: seq<TypeId>, listed: seq<TypeId>, seen: set<TypeId>)
    requires AllIn(entries, Universe(g))
    ensures listed + VisitFrom(g, entries, |entries|, seen) == listed
  {
  }

  /** The loop over one traversal; every type it sees is already marked as visited. */
  method EmitTraversal(p: Program, traversal: seq<TypeId>, local: set<TypeId>, seenTypes: TypeSet,
          ghost listed: seq<TypeId>, before: Emission) returns (r: Emission)
    requires Elements(traversal) <= seenTypes.elements
    requires before == Emit(p, local, listed)
    modifies seenTypes
    ensures seenTypes.elements == old(seenTypes.elements)
    ensures r == Emit(p, local, listed + traversal)
  {
    r := before;
    assert listed + traversal[..0] == listed;
    for k := 0 to |traversal|
      invariant seenTypes.elements == old(seenTypes.elements)
      invariant r == Emit(p, local, listed + traversal[..k])
    {
      var t := traversal[k];
      EmitNext(p, local, listed + traversal[..k], t);
      assert listed + traversal[..k + 1] == (listed + traversal[..k]) + [t];
      if !r.panicked {
        if IsDefinition(p, t) {
          if t in local {
            r := Emission(r.definitions + [t], false);
          }
        } else if !(t < |p.types| && p.types[t].TraitType?) {
          r := Emission(r.definitions, true);
        }
      }
      assert t in Elements(traversal);
      seenTypes.Add(t);
    }
    assert traversal[..|traversal|] == traversal;
  }

  lemma EmitNext(p: Program, local: set<TypeId>, listed: seq<TypeId>, t: TypeId)
    ensures var before := Emit(p, local, listed);
            Emit(p, local, listed + [t]) ==
            if before.panicked then before
            else if IsDefinition(p, t) then (if t in local then Emission(before.definitions + [t], false) else before)
            else if t < |p.types| && p.types[t].TraitType? then before
            else Emission(before.definitions, true)
  {
    var longer := listed + [t];
    assert longer[..|longer| - 1] == listed;
  }

  // ----- The order -----

  /** Along dependencies, ranks never rise. */
  lemma {:induction false} PathGoesDown(p: Program, rank: TypeId -> nat, g: Graph, path: seq<TypeId>)
    requires Sound(p, rank) && Faithful(p, rank, g)
    requires path != [] && IsPath(g, path)
    ensures path[|path| - 1] == path[0] || rank(path[|path| - 1]) < rank(path[0])
  {
    if |path| > 1 {
      var front := path[..|path| - 1];
      PathGoesDown(p, rank, g, front);
      var t := front[|front| - 1];
      assert path[|path| - 1] in Deps(g, t);
      ExtractedRanksBelow(p, rank, t, true);
    }
  }

  lemma DependencyCannotLeadBack(p: Program, rank: TypeId -> nat, g: Graph, t: TypeId, d: TypeId)
    requires Sound(p, rank) && Faithful(p, rank, g)
    requires t in g && d in g[t] && d != t
    ensures !Reaches(g, d, t)
  {
    ExtractedRanksBelow(p, rank, t, true);
    if Reaches(g, d, t) {
      var path :| IsPathAvoiding(g, path, d, t, {});
      PathGoesDown(p, rank, g, path);
    }
  }

  /**
   Each type is listed once, every type of the scope is listed, and a type of the scope
   comes after all its dependencies, in spite of the self-edges.
   */
  lemma ListingIsOrdered(p: Program, rank: TypeId -> nat, g: Graph, entries: seq<TypeId>)
    requires Sound(p, rank) && Faithful(p, rank, g)
    requires Elements(entries) == g.Keys && AllIn(entries, Universe(g))
    ensures var listed := VisitFrom(g, entries, 0, {});
            && NoRepeats(listed)
            && (forall t :: t in g ==> t in listed)
            && (forall i, d :: 0 <= i < |listed| && DependsOn(g, listed[i], d) && d != listed[i] ==> d in listed[..i])
  {
    var listed := VisitFrom(g, entries, 0, {});
    ListingIsExplored(g, entries);
    EveryEntryListed(g, entries);
    forall i, d | 0 <= i < |listed| && DependsOn(g, listed[i], d) && d != listed[i] ensures d in listed[..i] {
      DependencyListedFirst(p, rank, g, listed, i, d);
    }
  }

  lemma ListingIsExplored(g: Graph, entries: seq<TypeId>)
    requires AllIn(entries, Universe(g))
    ensures Explored(g, VisitFrom(g, entries, 0, {}), {})
  {
    VisitFromExplores(g, entries, 0, {});
  }

  lemma DependencyListedFirst(p: Program, rank: TypeId -> nat, g: Graph, listed: seq<TypeId>, i: nat, d: TypeId)
    requires Sound(p, rank) && Faithful(p, rank, g)
    requires Explored(g, listed, {})
    requires i < |listed| && DependsOn(g, listed[i], d) && d != listed[i]
    ensures d in listed[..i]
  {
    DependencyCannotLeadBack(p, rank, g, listed[i], d);
    FirstUnlessBack(g, listed, {}, i, d);
  }

  ghost predicate DependsOn(g: Graph, t: TypeId, d: TypeId) {
    t in g && d in g[t]
  }

  lemma EveryEntryListed(g: Graph, entries: seq<TypeId>)
    requires Elements(entries) == g.Keys && AllIn(entries, Universe(g))
    ensures forall t :: t in g ==> t in VisitFrom(g, entries, 0, {})
  {
    VisitFromExplores(g, entries, 0, {});
    forall t | t in g ensures t in VisitFrom(g, entries, 0, {}) {
      assert t in Elements(entries);
    }
  }

  lemma {:induction false} EmittedIfLocal(p: Program, local: set<TypeId>, listed: seq<TypeId>, d: TypeId)
    requires !Emit(p, local, listed).panicked
    requires d in listed && IsDefinition(p, d) && d in local
    ensures d in Emit(p, local, listed).definitions
  {
    var front := listed[..|listed| - 1];
    if d in front {
      EmittedIfLocal(p, local, front, d);
    }
  }

  lemma {:induction false} EmittedAreListed(p: Program, local: set<TypeId>, listed: seq<TypeId>)
    ensures forall d :: d in Emit(p, local, listed).definitions ==> d in listed && d in local && IsDefinition(p, d)
  {
    if listed != [] {
      var front, last := listed[..|listed| - 1], listed[|listed| - 1];
      EmittedAreListed(p, local, front);
      assert listed == front + [last];
    }
  }

  /** Of two local definitions, emission keeps the order of the listing. */
  lemma {:induction false} EmissionKeepsOrder(p: Program, local: set<TypeId>, listed: seq<TypeId>, d: TypeId, t: TypeId)
    requires !Emit(p, local, listed).panicked
    requires IsLocalDefinition(p, local, d) && IsLocalDefinition(p, local, t)
    ensures Before(Emit(p, local, listed).definitions, d, t) <==> Before(listed, d, t)
  {
    if listed != [] {
      var front, last := listed[..|listed| - 1], listed[|listed| - 1];
      var before, all := Emit(p, local, front).definitions, Emit(p, local, listed).definitions;
      EmissionKeepsOrder(p, local, front, d, t);
      assert listed == front + [last];
      BeforeOneMore(front, last, d, t);
      if all != before {
        BeforeOneMore(before, last, d, t);
      }
      EmittedAreListed(p, local, front);
      if d in front {
        EmittedIfLocal(p, local, front, d);
      }
    }
  }

  lemma BeforeOneMore(s: seq<TypeId>, last: TypeId, d: TypeId, t: TypeId)
    ensures Before(s + [last], d, t) <==> Before(s, d, t) && (last == t ==> d in s)
  {
    var longer := s + [last];
    assert longer[..|s|] == s && longer[|s|] == last;
    assert forall k :: 0 <= k < |s| ==> longer[..k] == s[..k] && longer[k] == s[k];
  }

  predicate IsLocalDefinition(p: Program, local: set<TypeId>, t: TypeId) {
    t in local && IsDefinition(p, t)
  }

  /** What is listed once is defined at most once. */
  lemma {:induction false} NoneEmittedTwice(p: Program, local: set<TypeId>, listed: seq<TypeId>)
    requires NoRepeats(listed)
    ensures NoRepeats(Emit(p, local, listed).definitions)
  {
    if listed != [] {
      var front, last := listed[..|listed| - 1], listed[|listed| - 1];
      NoneEmittedTwice(p, local, front);
      EmittedAreListed(p, local, front);
      assert forall i :: 0 <= i < |front| ==> front[i] == listed[i] != last;
    }
  }

  lemma {:induction false} PanicsAt(p: Program, local: set<TypeId>, listed: seq<TypeId>)
    ensures Emit(p, local, listed).panicked <==>
            exists t :: t in listed && !IsDefinition(p, t) && !(t < |p.types| && p.types[t].TraitType?)
  {
    if listed != [] {
      var front, last := listed[..|listed| - 1], listed[|listed| - 1];
      PanicsAt(p, local, front);
      assert listed == front + [last];
    }
  }

  /**
   Whatever order the two dictionaries are iterated in, an emitted definition of the scope comes
   after every other local definition that it leads to by members, followed arguments and supers.
   That is what it holds by value, apart from what is held behind an overlooked argument alone.
   */
  lemma DefinitionsPrecedeUses(p: Program, rank: TypeId -> nat, g: Graph, entries: seq<TypeId>, local: set<TypeId>,
          t: TypeId, d: TypeId)
    requires Sound(p, rank) && Faithful(p, rank, g)
    requires Elements(entries) == g.Keys && AllIn(entries, Universe(g))
    requires !Emit(p, local, VisitFrom(g, entries, 0, {})).panicked
    requires t in g && IsLocalDefinition(p, local, t) && Opens(p, t, true)
    requires IsLocalDefinition(p, local, d) && d != t && (LeadsTo(p, rank, t, d) || (Holds(p, t, d) && !Overlooks(p, t, d)))
    ensures Before(Emit(p, local, VisitFrom(g, entries, 0, {})).definitions, d, t)
  {
    var listed := VisitFrom(g, entries, 0, {});
    ListingIsOrdered(p, rank, g, entries);
    if Holds(p, t, d) {
      HeldIsExtracted(p, rank, t, d);
    }
    ExtractedExactly(p, rank, t, true, d);
    forall k | 0 <= k < |listed| && listed[k] == t ensures d in listed[..k] {
      assert DependsOn(g, listed[k], d);
    }
    EmissionKeepsOrder(p, local, listed, d, t);
  }

  /**
   The order for any two local definitions, be they declared by the scope or not and held in
   whatever way: `d` is emitted before `t`, in whatever order the dictionary is iterated, exactly
   when the traversal of each root alone lists it first.
   */
  lemma EveryOrderEmits(p: Program, rank: TypeId -> nat, g: Graph, local: set<TypeId>, d: TypeId, t: TypeId)
    requires Sound(p, rank) && Faithful(p, rank, g)
    requires forall x :: x in g ==> IsDefinition(p, x) || p.types[x].TraitType?
    requires IsLocalDefinition(p, local, d) && IsLocalDefinition(p, local, t)
    ensures (forall entries: seq<TypeId> :: IsOrder(g, entries) ==>
               Before(Emit(p, local, VisitFrom(g, entries, 0, {})).definitions, d, t)) <==>
            (forall x :: x in g ==> Before(Visit(g, x, {}), d, t))
  {
    forall entries: seq<TypeId> | IsOrder(g, entries)
      ensures Before(Emit(p, local, VisitFrom(g, entries, 0, {})).definitions, d, t) <==>
              Before(VisitFrom(g, entries, 0, {}), d, t)
    {
      PanicsOnScopeTypes(p, rank, g, entries, local);
      EmissionKeepsOrder(p, local, VisitFrom(g, entries, 0, {}), d, t);
    }
    EveryOrderKeeps(g, d, t);
  }

  ghost predicate EmittedInOrder(p: Program, rank: TypeId -> nat, scope: set<TypeId>, local: set<TypeId>, definitions: seq<TypeId>)
    requires Sound(p, rank)
  {
    forall t, d :: t in scope && IsLocalDefinition(p, local, t) && Opens(p, t, true)
        && IsLocalDefinition(p, local, d) && d != t && LeadsTo(p, rank, t, d)
      ==> Before(definitions, d, t)
  }

  /** Whatever the scope's definitions hold by value comes first. */
  ghost predicate HeldFirst(p: Program, scope: set<TypeId>, local: set<TypeId>, definitions: seq<TypeId>)
    requires RefersInside(p)
  {
    forall t, d :: t in scope && IsLocalDefinition(p, local, t) && IsLocalDefinition(p, local, d) && Holds(p, t, d)
      ==> Before(definitions, d, t)
  }

  /** The scope declares every local definition that its types depend on. */
  ghost predicate DeclaresDependencies(p: Program, rank: TypeId -> nat, scopeTypes: seq<TypeId>, local: set<TypeId>)
    requires Sound(p, rank) && TypesExist(p, scopeTypes)
  {
    forall t, d :: t in scopeTypes && d in Extract(p, rank, t, map[], true) && d in local && IsDefinition(p, d) ==> d in scopeTypes
  }

  /** Then nothing is listed that the order is not promised for. */
  lemma EmittedAreDeclared(p: Program, rank: TypeId -> nat, g: Graph, scopeTypes: seq<TypeId>, entries: seq<TypeId>,
          local: set<TypeId>, d: TypeId)
    requires Sound(p, rank) && TypesExist(p, scopeTypes) && Faithful(p, rank, g)
    requires Elements(entries) == g.Keys == Elements(scopeTypes) && AllIn(entries, Universe(g))
    requires DeclaresDependencies(p, rank, scopeTypes, local)
    requires d in Emit(p, local, VisitFrom(g, entries, 0, {})).definitions
    ensures d in g
  {
    EmittedAreListed(p, local, VisitFrom(g, entries, 0, {}));
    VisitFromExplores(g, entries, 0, {});
    var root :| root in entries && ReachesAvoiding(g, root, d, {});
    var path :| IsPathAvoiding(g, path, root, d, {});
    if |path| > 1 {
      var before := path[|path| - 2];
      assert d in Deps(g, before);
      assert before in Elements(scopeTypes);
    } else {
      assert root in Elements(entries);
    }
  }

  /** Both steps for one scope: the graph in one iteration order, the traversal in another. */
  method ForwardScope(p: Program, ghost rank: TypeId -> nat, scopeTypes: seq<TypeId>, entries: seq<TypeId>,
          local: set<TypeId>) returns (r: Emission)
    requires Sound(p, rank) && TypesExist(p, scopeTypes)
    requires Elements(entries) == Elements(scopeTypes)
    ensures r.panicked <==> exists t :: t in scopeTypes && !IsDefinition(p, t) && !p.types[t].TraitType?
    ensures !r.panicked ==> EmittedInOrder(p, rank, Elements(scopeTypes), local, r.definitions)
    ensures !r.panicked && (forall t :: t in scopeTypes ==> HasPlainArguments(p, t)) ==>
              HeldFirst(p, Elements(scopeTypes), local, r.definitions)
    ensures NoRepeats(r.definitions)
    ensures DeclaresDependencies(p, rank, scopeTypes, local) ==> forall d :: d in r.definitions ==> d in scopeTypes
    ensures !r.panicked ==> forall t :: t in scopeTypes && IsDefinition(p, t) && t in local ==> t in r.definitions
  {
    var g := ProduceCodegenDependencyGraph(p, rank, scopeTypes);
    forall t | t in entries ensures t in Universe(g) {
      assert t in Elements(entries);
    }
    r := ForwardTypes(p, g, entries, local);
    ListingIsOrdered(p, rank, g, entries);
    NoneEmittedTwice(p, local, VisitFrom(g, entries, 0, {}));
    PanicsOnScopeTypes(p, rank, g, entries, local);
    assert forall t :: t in scopeTypes <==> t in g;
    if DeclaresDependencies(p, rank, scopeTypes, local) {
      forall d | d in r.definitions ensures d in scopeTypes {
        EmittedAreDeclared(p, rank, g, scopeTypes, entries, local, d);
      }
    }
    if !r.panicked {
      EveryEntryListed(g, entries);
      forall t | t in scopeTypes && IsDefinition(p, t) && t in local ensures t in r.definitions {
        EmittedIfLocal(p, local, VisitFrom(g, entries, 0, {}), t);
      }
      ScopeInOrder(p, rank, g, entries, local);
    }
  }

  lemma ScopeInOrder(p: Program, rank: TypeId -> nat, g: Graph, entries: seq<TypeId>, local: set<TypeId>)
    requires Sound(p, rank) && Faithful(p, rank, g)
    requires Elements(entries) == g.Keys && AllIn(entries, Universe(g))
    requires !Emit(p, local, VisitFrom(g, entries, 0, {})).panicked
    ensures EmittedInOrder(p, rank, g.Keys, local, Emit(p, local, VisitFrom(g, entries, 0, {})).definitions)
    ensures (forall t :: t in g ==> HasPlainArguments(p, t)) ==>
              HeldFirst(p, g.Keys, local, Emit(p, local, VisitFrom(g, entries, 0, {})).definitions)
  {
    var definitions := Emit(p, local, VisitFrom(g, entries, 0, {})).definitions;
    forall t, d | t in g.Keys && IsLocalDefinition(p, local, t) && Opens(p, t, true)
                  && IsLocalDefinition(p, local, d) && d != t && LeadsTo(p, rank, t, d)
      ensures Before(definitions, d, t)
    {
      DefinitionsPrecedeUses(p, rank, g, entries, local, t, d);
    }
    if forall t :: t in g ==> HasPlainArguments(p, t) {
      forall t, d | t in g.Keys && IsLocalDefinition(p, local, t) && IsLocalDefinition(p, local, d) && Holds(p, t, d)
        ensures Before(definitions, d, t)
      {
        PlainArgumentsAreFollowed(p, t, d);
        DefinitionsPrecedeUses(p, rank, g, entries, local, t, d);
      }
    }
  }

  /** The generator stops on an unexpected type exactly when the scope itself declares one. */
  lemma PanicsOnScopeTypes(p: Program, rank: TypeId -> nat, g: Graph, entries: seq<TypeId>, local: set<TypeId>)
    requires Sound(p, rank) && Faithful(p, rank, g)
    requires Elements(entries) == g.Keys && AllIn(entries, Universe(g))
    ensures Emit(p, local, VisitFrom(g, entries, 0, {})).panicked <==>
            exists t :: t in g && !IsDefinition(p, t) && !p.types[t].TraitType?
  {
    var listed := VisitFrom(g, entries, 0, {});
    EveryEntryListed(g, entries);
    PanicsAt(p, local, listed);
    forall t | t in listed ensures t in g || IsDefinition(p, t) {
      ListedIsEntryOrDefinition(p, rank, g, entries, t);
    }
  }

  lemma ListedIsEntryOrDefinition(p: Program, rank: TypeId -> nat, g: Graph, entries: seq<TypeId>, t: TypeId)
    requires Sound(p, rank) && Faithful(p, rank, g)
    requires Elements(entries) == g.Keys && AllIn(entries, Universe(g))
    requires t in VisitFrom(g, entries, 0, {})
    ensures t in g || IsDefinition(p, t)
  {
    VisitFromExplores(g, entries, 0, {});
    var root :| root in entries && ReachesAvoiding(g, root, t, {});
    var path :| IsPathAvoiding(g, path, root, t, {});
    if |path| > 1 {
      var before := path[|path| - 2];
      assert t in Deps(g, before);
      ExtractedRanksBelow(p, rank, before, true);
    } else {
      assert root in Elements(entries);
    }
  }

  // ----- Where the order is not kept -----

  /** Struct 0 holds struct 1, which holds struct 2. */
  predicate IsNested(p: Program) {
    && p.types == [StructType(0), StructType(1), StructType(2)]
    && p.structs == [Struct(0, false, false, false, None, [1]), Struct(1, false, false, false, None, [2]), Struct(2, false, false, false, None, [])]
    && p.enums == []
  }

  function NestedRank(t: TypeId): nat {
    if t == 0 then 2 else if t == 1 then 1 else 0
  }

  /**
   A dependency that the scope does not declare is listed where it was extracted, before
   its own members: with only struct 0 in the scope, struct 1 comes before the struct 2
   that it holds.
   */
  lemma UndeclaredDependenciesAreUnordered(p: Program) returns (g: Graph)
    requires IsNested(p)
    ensures Sound(p, NestedRank) && g.Keys == {0} && Faithful(p, NestedRank, g)
    ensures Holds(p, 1, 2) && HasPlainArguments(p, 1)
    ensures IsOrder(g, [0]) && Emit(p, {0, 1, 2}, VisitFrom(g, [0], 0, {})) == Emission([1, 2, 0], false)
  {
    g := map[0 := [0, 1, 2]];
    NestedIsSound(p);
    NestedNeeds(p);
    NestedExtraction(p);
    NestedListing(g);
    EmitAll(p, {0, 1, 2}, [1, 2, 0]);
  }

  /** What consists of local definitions is emitted as it is listed. */
  lemma {:induction false} EmitAll(p: Program, local: set<TypeId>, listed: seq<TypeId>)
    requires forall t :: t in listed ==> IsLocalDefinition(p, local, t)
    ensures Emit(p, local, listed) == Emission(listed, false)
  {
    if listed != [] {
      var front, last := listed[..|listed| - 1], listed[|listed| - 1];
      assert listed == front + [last] && last in listed;
      EmitAll(p, local, front);
    }
  }

  lemma NestedNeeds(p: Program)
    requires IsNested(p) && RefersInside(p)
    ensures Holds(p, 1, 2) && HasPlainArguments(p, 1)
  {
    assert p.types[2] == StructType(2) && p.types[1] == StructType(1);
    assert Unfolds(p, 2) && ArgumentPathTo(p, [2], 2, 2);
    assert IsMember(p, 1, 2) && MemberNeeds(p, 2, 2);
  }

  lemma NestedIsSound(p: Program)
    requires IsNested(p)
    ensures Sound(p, NestedRank)
  {
    assert RefersInside(p);
    forall t | 0 <= t < |p.types| ensures p.types[t] == StructType(t) && p.structs[t].typeId == t && StructBelow(p, NestedRank, t, [], NestedRank(t)) {
      assert t == 0 || t == 1 || t == 2;
    }
  }

  lemma NestedExtraction(p: Program)
    requires IsNested(p) && Sound(p, NestedRank)
    ensures Extract(p, NestedRank, 0, map[], true) == [0, 1, 2]
  {
    PlainStruct(p, NestedRank, 2, false, []);
    PlainStruct(p, NestedRank, 1, false, [2]);
    PlainStruct(p, NestedRank, 0, true, [1]);
  }

  /** A type without dependencies is listed alone. */
  lemma VisitLeaf(g: Graph, t: TypeId, visited: set<TypeId>)
    requires t in Universe(g) && t !in visited && Deps(g, t) == []
    ensures Visit(g, t, visited) == [t]
  {
    assert VisitFrom(g, [], 0, visited + {t}) == [];
  }

  lemma VisitTwo(g: Graph, ts: seq<TypeId>, i: nat, visited: set<TypeId>, first: seq<TypeId>, visited': set<TypeId>)
    requires AllIn(ts, Universe(g)) && i < |ts|
    requires Visit(g, ts[i], visited) == first && visited' == visited + Elements(first)
    ensures VisitFrom(g, ts, i, visited) == first + VisitFrom(g, ts, i + 1, visited')
  {
  }

  lemma NestedListing(g: Graph)
    requires g == map[0 := [0, 1, 2]]
    ensures IsOrder(g, [0]) && VisitFrom(g, [0], 0, {}) == [1, 2, 0]
  {
    var ts := [0, 1, 2];
    assert 0 in g && 1 in g[0] && 2 in g[0];
    assert AllIn(ts, Universe(g)) && AllIn([0], Universe(g)) && Elements([0]) == {0};
    assert Visit(g, 0, {0}) == [];
    VisitLeaf(g, 1, {0});
    VisitLeaf(g, 2, {0, 1});
    VisitTwo(g, ts, 0, {0}, [], {0});
    VisitTwo(g, ts, 1, {0}, [1], {0, 1});
    VisitTwo(g, ts, 2, {0, 1}, [2], {0, 1, 2});
    assert VisitFrom(g, ts, 3, {0, 1, 2}) == [];
    assert {} + {0} == {0};
    assert Visit(g, 0, {}) == [1, 2] + [0];
    VisitTwo(g, [0], 0, {}, [1, 2, 0], {0, 1, 2});
    assert VisitFrom(g, [0], 1, {0, 1, 2}) == [];
  }

  /**
   A struct with a field of type Optional<Box<i64>> may be emitted before the Box that it holds,
   although the scope declares both: the argument of the Optional is an instance.
   */
  lemma OverlookedIsUnordered(p: Program) returns (g: Graph)
    requires IsBoxInOptional(p)
    ensures Sound(p, BoxRank) && g.Keys == {0, 1} && Faithful(p, BoxRank, g)
    ensures Holds(p, 0, 1)
    ensures IsOrder(g, [0, 1]) && Emit(p, {0, 1}, VisitFrom(g, [0, 1], 0, {})) == Emission([0, 1], false)
  {
    g := map[0 := [0, 2], 1 := [1]];
    BoxIsOverlooked(p);
    OverlookedListing(g);
    OverlookedEmission(p);
    OverlookedIsFaithful(p, g);
    hide *;
  }

  lemma OverlookedIsFaithful(p: Program, g: Graph)
    requires |p.types| == 6 && Sound(p, BoxRank)
    requires Extract(p, BoxRank, 0, map[], true) == [0, 2] && Extract(p, BoxRank, 1, map[], true) == [1]
    requires g == map[0 := [0, 2], 1 := [1]]
    ensures g.Keys == {0, 1} && Faithful(p, BoxRank, g)
  {
    hide Extract, WellFounded, RefersInside;
  }

  lemma OverlookedEmission(p: Program)
    requires IsBoxInOptional(p)
    ensures Emit(p, {0, 1}, [2, 0, 1]) == Emission([0, 1], false)
  {
    assert IsDefinition(p, 0) && IsDefinition(p, 1) && IsDefinition(p, 2);
    assert Emit(p, {0, 1}, []) == Emission([], false);
    EmitNext(p, {0, 1}, [], 2);
    EmitNext(p, {0, 1}, [2], 0);
    EmitNext(p, {0, 1}, [2, 0], 1);
    assert [] + [2] == [2] && [2] + [0] == [2, 0] && [2, 0] + [1] == [2, 0, 1];
    hide Emit;
  }

  lemma OverlookedListing(g: Graph)
    requires g == map[0 := [0, 2], 1 := [1]]
    ensures IsOrder(g, [0, 1]) && VisitFrom(g, [0, 1], 0, {}) == [2, 0, 1]
  {
    assert 0 in g && 1 in g && 2 in g[0];
    var roots := [0, 1];
    assert AllIn([0, 2], Universe(g)) && AllIn([1], Universe(g)) && AllIn(roots, Universe(g)) && Elements(roots) == {0, 1};
    OverlookedVisits(g);
    VisitTwo(g, roots, 0, {}, [2, 0], {0, 2});
    VisitTwo(g, roots, 1, {0, 2}, [1], {0, 1, 2});
    assert VisitFrom(g, roots, 2, {0, 1, 2}) == [];
  }

  lemma OverlookedVisits(g: Graph)
    requires g == map[0 := [0, 2], 1 := [1]]
    requires AllIn([0, 2], Universe(g)) && AllIn([1], Universe(g))
    ensures 0 in Universe(g) && 1 in Universe(g)
    ensures Visit(g, 0, {}) == [2, 0] && Visit(g, 1, {0, 2}) == [1]
  {
    assert 0 in g && 1 in g && 2 in g[0];
    assert Visit(g, 0, {0}) == [] && Visit(g, 1, {0, 1, 2}) == [];
    VisitLeaf(g, 2, {0});
    VisitTwo(g, [0, 2], 0, {0}, [], {0});
    VisitTwo(g, [0, 2], 1, {0}, [2], {0, 2});
    assert VisitFrom(g, [0, 2], 2, {0, 2}) == [];
    VisitTwo(g, [1], 0, {0, 1, 2}, [], {0, 1, 2});
    assert VisitFrom(g, [1], 1, {0, 1, 2}) == [];
    assert {} + {0} == {0} && {0, 2} + {1} == {0, 1, 2};
    assert Visit(g, 0, {}) == [2] + [0] && Visit(g, 1, {0, 2}) == [] + [1];
  }
}
