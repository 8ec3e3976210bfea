/**
 `postorder_traversal`: a depth-first search whose visited set and output array are
 shared by all its recursive calls and by the calls that follow each other.
 */
module Postorder {
  import opened Sequences

  type TypeId = nat

  type Graph = map<TypeId, seq<TypeId>>

  function Deps(g: Graph, t: TypeId): seq<TypeId> {
    if t in g then g[t] else []
  }

  ghost predicate AllIn(ts: seq<TypeId>, all: set<TypeId>) {
    forall t :: t in ts ==> t in all
  }

  /** Every type that the graph mentions. */
  ghost function Universe(g: Graph): (all: set<TypeId>)
    ensures forall t :: t in g ==> t in all && AllIn(g[t], all)
  {
    g.Keys + set t, d | t in g && d in g[t] :: d
  }

  // ----- Reachability -----

  ghost predicate IsPath(g: Graph, p: seq<TypeId>) {
    forall i :: 0 < i < |p| ==> p[i] in Deps(g, p[i - 1])
  }

  /** A path from `a` to `b` none of whose types is in `avoid`. */
  ghost predicate IsPathAvoiding(g: Graph, p: seq<TypeId>, a: TypeId, b: TypeId, avoid: set<TypeId>) {
    p != [] && IsPath(g, p) && p[0] == a && p[|p| - 1] == b && forall t :: t in p ==> t !in avoid
  }

  ghost predicate ReachesAvoiding(g: Graph, a: TypeId, b: TypeId, avoid: set<TypeId>) {
    exists p :: IsPathAvoiding(g, p, a, b, avoid)
  }

  ghost predicate Reaches(g: Graph, a: TypeId, b: TypeId) {
    ReachesAvoiding(g, a, b, {})
  }

  lemma ReachesItself(g: Graph, t: TypeId, avoid: set<TypeId>)
    requires t !in avoid
    ensures ReachesAvoiding(g, t, t, avoid)
  {
    assert IsPathAvoiding(g, [t], t, t, avoid);
  }

  lemma AvoidingLess(g: Graph, a: TypeId, b: TypeId, more: set<TypeId>, less: set<TypeId>)
    requires ReachesAvoiding(g, a, b, more) && less <= more
    ensures ReachesAvoiding(g, a, b, less)
  {
    var p :| IsPathAvoiding(g, p, a, b, more);
    assert IsPathAvoiding(g, p, a, b, less);
  }

  lemma ReachesThrough(g: Graph, t: TypeId, d: TypeId, n: TypeId, avoid: set<TypeId>)
    requires d in Deps(g, t) && t !in avoid && ReachesAvoiding(g, d, n, avoid)
    ensures ReachesAvoiding(g, t, n, avoid)
  {
    var p :| IsPathAvoiding(g, p, d, n, avoid);
    assert IsPathAvoiding(g, [t] + p, t, n, avoid);
  }

  /** What is closed under dependencies cannot be left along a path. */
  lemma {:induction false} PathStaysInside(g: Graph, p: seq<TypeId>, inside: set<TypeId>, avoid: set<TypeId>)
    requires p != [] && IsPath(g, p) && p[0] in inside && forall t :: t in p ==> t !in avoid
    requires forall t, d :: t in inside && d in Deps(g, t) ==> d in inside || d in avoid
    ensures p[|p| - 1] in inside
  {
    if |p| > 1 {
      var front := p[..|p| - 1];
      assert forall t :: t in front ==> t in p;
      PathStaysInside(g, front, inside, avoid);
      assert p[|p| - 1] in Deps(g, front[|front| - 1]);
    }
  }

  // ----- The order in which types are pushed -----

  ghost function Visit(g: Graph, t: TypeId, visited: set<TypeId>): seq<TypeId>
    requires t in Universe(g)
    decreases Universe(g) - visited, 0
  {
    if t in visited then [] else VisitFrom(g, Deps(g, t), 0, visited + {t}) + [t]
  }

  /** Visits `ts[i..]` one after the other. */
  ghost function VisitFrom(g: Graph, ts: seq<TypeId>, i: nat, visited: set<TypeId>): seq<TypeId>
    requires AllIn(ts, Universe(g)) && i <= |ts|
    decreases Universe(g) - visited, |ts| - i + 1
  {
    if i == |ts| then []
    else
      var first := Visit(g, ts[i], visited);
      assert Universe(g) - (visited + Elements(first)) <= Universe(g) - visited;
      first + VisitFrom(g, ts, i + 1, visited + Elements(first))
  }

  // ----- What the order guarantees -----

  /** A dependency is pushed first, unless it was visited before or leads back. */
  ghost predicate DependenciesFirst(g: Graph, out: seq<TypeId>, visited: set<TypeId>) {
    forall i, d :: 0 <= i < |out| && d in Deps(g, out[i]) && d !in visited ==>
      d in out[..i] || Reaches(g, d, out[i])
  }

  lemma FirstUnlessBack(g: Graph, out: seq<TypeId>, visited: set<TypeId>, i: nat, d: TypeId)
    requires DependenciesFirst(g, out, visited)
    requires i < |out| && d in Deps(g, out[i]) && d !in visited
    ensures d in out[..i] || Reaches(g, d, out[i])
  {
  }

  /** `out` is new, lists nothing twice, and leaves nothing of its own unvisited. */
  ghost predicate Explored(g: Graph, out: seq<TypeId>, visited: set<TypeId>) {
    && NoRepeats(out)
    && (forall n :: n in out ==> n !in visited)
    && (forall n, d :: n in out && d in Deps(g, n) ==> d in visited || d in out)
    && DependenciesFirst(g, out, visited)
  }

  lemma {:induction false} VisitExplores(g: Graph, t: TypeId, visited: set<TypeId>)
    requires t in Universe(g)
    ensures Explored(g, Visit(g, t, visited), visited)
    ensures t in visited || t in Visit(g, t, visited)
    ensures forall n :: n in Visit(g, t, visited) ==> ReachesAvoiding(g, t, n, visited)
    decreases Universe(g) - visited, 0
  {
    if t !in visited {
      var inner := VisitFrom(g, Deps(g, t), 0, visited + {t});
      VisitFromExplores(g, Deps(g, t), 0, visited + {t});
      forall n | n in inner + [t] ensures ReachesAvoiding(g, t, n, visited) {
        if n in inner {
          var d :| d in Deps(g, t) && ReachesAvoiding(g, d, n, visited + {t});
          AvoidingLess(g, d, n, visited + {t}, visited);
          ReachesThrough(g, t, d, n, visited);
        } else {
          ReachesItself(g, t, visited);
        }
      }
      forall n | n in inner + [t] ensures Reaches(g, t, n) {
        AvoidingLess(g, t, n, visited, {});
      }
      CloseWith(g, inner, t, visited);
    }
  }

  lemma CloseWith(g: Graph, inner: seq<TypeId>, t: TypeId, visited: set<TypeId>)
    requires Explored(g, inner, visited + {t}) && t !in visited
    requires forall d :: d in Deps(g, t) ==> d in visited + {t} || d in inner
    requires forall n :: n in inner + [t] ==> Reaches(g, t, n)
    ensures Explored(g, inner + [t], visited)
  {
    var out := inner + [t];
    forall i, d | 0 <= i < |out| && d in Deps(g, out[i]) && d !in visited
      ensures d in out[..i] || Reaches(g, d, out[i])
    {
      if i < |inner| {
        assert out[..i] == inner[..i];
        assert out[i] in inner;
      } else {
        assert out[..i] == inner;
      }
    }
  }

  lemma {:induction false} VisitFromExplores(g: Graph, ts: seq<TypeId>, i: nat, visited: set<TypeId>)
    requires AllIn(ts, Universe(g)) && i <= |ts|
    ensures Explored(g, VisitFrom(g, ts, i, visited), visited)
    ensures forall k :: i <= k < |ts| ==> ts[k] in visited || ts[k] in VisitFrom(g, ts, i, visited)
    ensures forall n :: n in VisitFrom(g, ts, i, visited) ==> exists t :: t in ts && ReachesAvoiding(g, t, n, visited)
    decreases Universe(g) - visited, |ts| - i + 1
  {
    if i < |ts| {
      var first := Visit(g, ts[i], visited);
      var visited' := visited + Elements(first);
      assert Universe(g) - visited' <= Universe(g) - visited;
      var rest := VisitFrom(g, ts, i + 1, visited');
      VisitExplores(g, ts[i], visited);
      VisitFromExplores(g, ts, i + 1, visited');
      JoinExplored(g, first, rest, visited);
      forall n | n in first + rest ensures exists t :: t in ts && ReachesAvoiding(g, t, n, visited) {
        if n in first {
          assert ts[i] in ts;
        } else {
          var t :| t in ts && ReachesAvoiding(g, t, n, visited');
          AvoidingLess(g, t, n, visited', visited);
        }
      }
    }
  }

  lemma JoinExplored(g: Graph, a: seq<TypeId>, b: seq<TypeId>, visited: set<TypeId>)
    requires Explored(g, a, visited) && Explored(g, b, visited + Elements(a))
    ensures Explored(g, a + b, visited)
  {
    var out := a + b;
    assert forall t :: t in a <==> t in Elements(a);
    forall i, j | 0 <= i < j < |out| ensures out[i] != out[j] {
      if i < |a| <= j {
        assert out[i] in a && out[j] in b;
      }
    }
    forall i, d | 0 <= i < |out| && d in Deps(g, out[i]) && d !in visited
      ensures d in out[..i] || Reaches(g, d, out[i])
    {
      if i < |a| {
        assert out[..i] == a[..i];
      } else {
        assert out[..i] == a + b[..i - |a|];
      }
    }
    forall n, d | n in out && d in Deps(g, n) ensures d in visited || d in out {
      if n in b {
        assert d in visited + Elements(a) || d in b;
      }
    }
  }

  /**
   From any initial visited set: exactly the types that were newly reachable are pushed,
   each once, and a dependency that was not visited before and cannot lead back is
   pushed before what depends on it.
   */
  lemma TraversalIsPostorder(g: Graph, t: TypeId, visited: set<TypeId>)
    requires t in Universe(g)
    ensures var out := Visit(g, t, visited);
            && NoRepeats(out)
            && (forall n :: n in out <==> ReachesAvoiding(g, t, n, visited))
            && (forall n, d :: n in out && d in Deps(g, n) ==> d in visited || d in out)
            && DependenciesFirst(g, out, visited)
  {
    var out := Visit(g, t, visited);
    VisitExplores(g, t, visited);
    forall n | ReachesAvoiding(g, t, n, visited) ensures n in out {
      var p :| IsPathAvoiding(g, p, t, n, visited);
      assert p[0] in p;
      PathStaysInside(g, p, Elements(out), visited);
    }
  }

  // ----- Every order of the roots -----

  /** Wherever `t` is listed, `d` is listed before it. */
  ghost predicate Before(s: seq<TypeId>, d: TypeId, t: TypeId) {
    forall k :: 0 <= k < |s| && s[k] == t ==> d in s[..k]
  }

  /** The keys of the graph, each once, as some iterator of the dictionary gives them. */
  ghost predicate IsOrder(g: Graph, entries: seq<TypeId>) {
    NoRepeats(entries) && Elements(entries) == g.Keys && AllIn(entries, Universe(g))
  }

  ghost predicate Closed(g: Graph, all: set<TypeId>) {
    forall t, d :: t in all && d in Deps(g, t) ==> d in all
  }

  ghost function Without(s: seq<TypeId>, gone: set<TypeId>): seq<TypeId> {
    if s == [] then []
    else Without(s[..|s| - 1], gone) + if s[|s| - 1] in gone then [] else [s[|s| - 1]]
  }

  lemma {:induction false} WithoutConcat(a: seq<TypeId>, b: seq<TypeId>, gone: set<TypeId>)
    ensures Without(a + b, gone) == Without(a, gone) + Without(b, gone)
  {
    if b == [] {
      assert a + b == a;
    } else {
      var front, last := b[..|b| - 1], b[|b| - 1];
      assert (a + b)[..|a + b| - 1] == a + front;
      WithoutConcat(a, front, gone);
    }
  }

  lemma {:induction false} WithoutElements(s: seq<TypeId>, gone: set<TypeId>)
    ensures Elements(Without(s, gone)) == Elements(s) - gone
  {
    if s != [] {
      var front, last := s[..|s| - 1], s[|s| - 1];
      WithoutElements(front, gone);
      assert s == front + [last];
      ElementsOfConcat(front, [last]);
      ElementsOfConcat(Without(front, gone), if last in gone then [] else [last]);
    }
  }

  lemma {:induction false} WithoutAll(s: seq<TypeId>, gone: set<TypeId>)
    requires forall n :: n in s ==> n in gone
    ensures Without(s, gone) == []
  {
    if s != [] {
      WithoutAll(s[..|s| - 1], gone);
    }
  }

  /** What other roots have visited only leaves gaps: the order of the rest is that of a fresh traversal. */
  lemma {:induction false} VisitLeavesGaps(g: Graph, t: TypeId, visited: set<TypeId>, gone: set<TypeId>)
    requires t in Universe(g) && Closed(g, gone)
    ensures Visit(g, t, visited + gone) == Without(Visit(g, t, visited), gone)
    decreases Universe(g) - visited, 0
  {
    if t in visited {
    } else if t in gone {
      VisitExplores(g, t, visited);
      var out := Visit(g, t, visited);
      forall n | n in out ensures n in gone {
        var p :| IsPathAvoiding(g, p, t, n, visited);
        PathStaysInside(g, p, gone, {});
      }
      WithoutAll(out, gone);
    } else {
      VisitFromLeavesGaps(g, Deps(g, t), 0, visited + {t}, gone);
      assert visited + gone + {t} == visited + {t} + gone;
      var inner := VisitFrom(g, Deps(g, t), 0, visited + {t});
      assert (inner + [t])[..|inner + [t]| - 1] == inner;
    }
  }

  lemma {:induction false} VisitFromLeavesGaps(g: Graph, ts: seq<TypeId>, i: nat, visited: set<TypeId>, gone: set<TypeId>)
    requires AllIn(ts, Universe(g)) && i <= |ts| && Closed(g, gone)
    ensures VisitFrom(g, ts, i, visited + gone) == Without(VisitFrom(g, ts, i, visited), gone)
    decreases Universe(g) - visited, |ts| - i + 1
  {
    if i < |ts| {
      var first := Visit(g, ts[i], visited);
      var visited' := visited + Elements(first);
      var rest := VisitFrom(g, ts, i + 1, visited');
      assert VisitFrom(g, ts, i, visited) == first + rest;
      var first' := Visit(g, ts[i], visited + gone);
      var rest' := VisitFrom(g, ts, i + 1, visited + gone + Elements(first'));
      assert VisitFrom(g, ts, i, visited + gone) == first' + rest';
      assert ts[i] in Universe(g);
      Shrinks(Universe(g), visited, visited');
      hide *;
      VisitLeavesGaps(g, ts[i], visited, gone);
      VisitFromLeavesGaps(g, ts, i + 1, visited', gone);
      WithoutElements(first, gone);
      Gaps(visited, gone, Elements(first));
      WithoutConcat(first, rest, gone);
    }
  }

  lemma Gaps(a: set<TypeId>, b: set<TypeId>, c: set<TypeId>)
    ensures a + b + (c - b) == a + c + b
  {
  }

  lemma {:induction false} BeforeInRest(s: seq<TypeId>, gone: set<TypeId>, d: TypeId, t: TypeId)
    requires Before(s, d, t) && d !in gone
    ensures Before(Without(s, gone), d, t)
  {
    if s != [] {
      var front, last := s[..|s| - 1], s[|s| - 1];
      forall k | 0 <= k < |front| && front[k] == t ensures d in front[..k] {
        assert s[k] == t && s[..k] == front[..k];
      }
      BeforeInRest(front, gone, d, t);
      WithoutElements(front, gone);
      var rest, whole := Without(front, gone), Without(s, gone);
      forall k | 0 <= k < |whole| && whole[k] == t ensures d in whole[..k] {
        if k < |rest| {
          assert whole[..k] == rest[..k];
        } else {
          assert last == t && s[|s| - 1] == t && s[..|s| - 1] == front;
          assert d in Elements(front) - gone && whole[..k] == rest;
          assert d in Elements(rest);
        }
      }
    }
  }

  lemma {:induction false} OrderIsKept(g: Graph, entries: seq<TypeId>, i: nat, visited: set<TypeId>, d: TypeId, t: TypeId)
    requires AllIn(entries, Universe(g)) && i <= |entries| && Closed(g, visited)
    requires forall x :: x in entries ==> x in Universe(g) && Before(Visit(g, x, {}), d, t)
    requires d !in visited
    ensures Before(VisitFrom(g, entries, i, visited), d, t)
    decreases |entries| - i
  {
    if i < |entries| {
      var first := Visit(g, entries[i], visited);
      var rest := VisitFrom(g, entries, i + 1, visited + Elements(first));
      assert entries[i] in entries;
      assert {} + visited == visited;
      VisitLeavesGaps(g, entries[i], {}, visited);
      BeforeInRest(Visit(g, entries[i], {}), visited, d, t);
      VisitExplores(g, entries[i], visited);
      if d !in first {
        OrderIsKept(g, entries, i + 1, visited + Elements(first), d, t);
      }
      BeforeJoin(first, rest, d, t);
    }
  }

  lemma BeforeJoin(a: seq<TypeId>, b: seq<TypeId>, d: TypeId, t: TypeId)
    requires Before(a, d, t) && (d in a || Before(b, d, t))
    ensures Before(a + b, d, t)
  {
    forall k | 0 <= k < |a + b| && (a + b)[k] == t ensures d in (a + b)[..k] {
      if k < |a| {
        assert (a + b)[..k] == a[..k];
      } else {
        assert (a + b)[..k] == a + b[..k - |a|];
      }
    }
  }

  /** Some order of a finite set. */
  ghost function SomeOrder(keys: set<TypeId>): (s: seq<TypeId>)
    ensures NoRepeats(s) && Elements(s) == keys
  {
    if keys == {} then []
    else
      var x :| x in keys;
      var rest := SomeOrder(keys - {x});
      ElementsOfConcat([x], rest);
      assert x !in Elements(rest);
      [x] + rest
  }

  /**
   In every order in which the dictionary may be iterated, `d` is listed before `t`, exactly when
   that is so in the traversal of each root alone.
   */
  lemma EveryOrderKeeps(g: Graph, d: TypeId, t: TypeId)
    ensures (forall entries: seq<TypeId> :: IsOrder(g, entries) ==> Before(VisitFrom(g, entries, 0, {}), d, t)) <==>
            (forall x :: x in g ==> Before(Visit(g, x, {}), d, t))
  {
    if forall x :: x in g ==> Before(Visit(g, x, {}), d, t) {
      forall entries: seq<TypeId> | IsOrder(g, entries) ensures Before(VisitFrom(g, entries, 0, {}), d, t) {
        assert forall x :: x in entries ==> x in Elements(entries);
        OrderIsKept(g, entries, 0, {}, d, t);
      }
    }
    if forall entries: seq<TypeId> :: IsOrder(g, entries) ==> Before(VisitFrom(g, entries, 0, {}), d, t) {
      forall x | x in g ensures Before(Visit(g, x, {}), d, t) {
        FirstRoot(g, x, d, t);
      }
    }
  }

  /** The iterator may start with any root. */
  lemma FirstRoot(g: Graph, x: TypeId, d: TypeId, t: TypeId)
    requires x in g
    requires forall entries: seq<TypeId> :: IsOrder(g, entries) ==> Before(VisitFrom(g, entries, 0, {}), d, t)
    ensures Before(Visit(g, x, {}), d, t)
  {
    var rest := SomeOrder(g.Keys - {x});
    var entries := [x] + rest;
    ElementsOfConcat([x], rest);
    assert x !in Elements(rest);
    assert forall y :: y in entries ==> y in Elements(entries);
    assert IsOrder(g, entries);
    var first := Visit(g, x, {});
    var listed := VisitFrom(g, entries, 0, {});
    var others := VisitFrom(g, entries, 1, {} + Elements(first));
    assert listed == first + others;
    assert Before(listed, d, t);
    hide Visit, VisitFrom, IsOrder, Universe;
    forall k | 0 <= k < |first| && first[k] == t ensures d in first[..k] {
      assert listed[k] == t && listed[..k] == first[..k];
    }
  }

  // ----- The method, on shared objects -----

  /** Jakt's `Set` and `Array` are handles on shared storage. */
  class TypeSet {
    var elements: set<TypeId>

    constructor ()
      ensures elements == {}
    {
      elements := {};
    }

    method Add(t: TypeId)
      modifies this
      ensures elements == old(elements) + {t}
    {
      elements := elements + {t};
    }
  }

  class TypeArray {
    var items: seq<TypeId>

    constructor ()
      ensures items == []
    {
      items := [];
    }

    method Push(t: TypeId)
      modifies this
      ensures items == old(items) + [t]
    {
      items := items + [t];
    }
  }

  method PostorderTraversal(t: TypeId, visited: TypeSet, g: Graph, output: TypeArray)
    requires t in Universe(g)
    modifies visited, output
    ensures output.items == old(output.items) + Visit(g, t, old(visited.elements))
    ensures visited.elements == old(visited.elements) + Elements(Visit(g, t, old(visited.elements)))
    decreases Universe(g) - visited.elements, 0
  {
    if t in visited.elements {
      return;
    }
    ghost var inner := VisitFrom(g, Deps(g, t), 0, visited.elements + {t});
    visited.Add(t);
    if t in g {
      TraverseDependencies(g[t], visited, g, output);
    }
    output.Push(t);
    assert Elements(inner + [t]) == Elements(inner) + {t};
  }

  /** The loop of `postorder_traversal` over the dependencies of one type. */
  method TraverseDependencies(dependencies: seq<TypeId>, visited: TypeSet, g: Graph, output: TypeArray)
    requires AllIn(dependencies, Universe(g))
    modifies visited, output
    ensures output.items == old(output.items) + VisitFrom(g, dependencies, 0, old(visited.elements))
    ensures visited.elements == old(visited.elements) + Elements(VisitFrom(g, dependencies, 0, old(visited.elements)))
    decreases Universe(g) - visited.elements, 1
  {
    ghost var before, items := visited.elements, output.items;
    ghost var done: seq<TypeId> := [];
    for i := 0 to |dependencies|
      invariant output.items == items + done
      invariant visited.elements == before + Elements(done)
      invariant VisitFrom(g, dependencies, 0, before) == done + VisitFrom(g, dependencies, i, visited.elements)
    {
      ghost var seen, first := visited.elements, Visit(g, dependencies[i], visited.elements);
      Shrinks(Universe(g), before, seen);
      PostorderTraversal(dependencies[i], visited, g, output);
      Regroup(before, done, first, VisitFrom(g, dependencies, i + 1, visited.elements), items, seen);
      done := done + first;
    }
  }

  lemma Shrinks(all: set<TypeId>, less: set<TypeId>, more: set<TypeId>)
    requires less <= more
    ensures all - more <= all - less
  {
  }

  lemma Regroup(before: set<TypeId>, done: seq<TypeId>, first: seq<TypeId>, rest: seq<TypeId>, items: seq<TypeId>,
          seen: set<TypeId>)
    requires seen == before + Elements(done)
    ensures seen + Elements(first) == before + Elements(done + first)
    ensures (items + done) + first == items + (done + first)
    ensures done + (first + rest) == (done + first) + rest
  {
    ElementsOfConcat(done, first);
    Associative(items, done, first);
    Associative(done, first, rest);
  }
}
