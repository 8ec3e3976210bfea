/**
 Over any program of constructions, assignments and destructions, the emitted members never
 read, assign or destroy a dead slot, never build over a live one, and leave the live slots
 of every object exactly those of its current variant.
 */
module TaggedUnionLifetimes {
  import opened Wrappers
  import opened TaggedUnion

  // ----- Construction and destruction stay balanced -----

  lemma BuildBalances(e: EnumDef, m: Memory, id: nat, s: Slot, c: Content)
    requires id in m.objects && Balanced(e, m)
    requires Build(e, m, id, s, c).Done?
    ensures Balanced(e, Build(e, m, id, s, c).m)
  {
    var r := Build(e, m, id, s, c).m;
    forall i: nat, t: Slot ensures r.built[(i, t)] == r.destroyed[(i, t)] + Lives(e, r, i, t) {
      assert m.built[(i, t)] == m.destroyed[(i, t)] + Lives(e, m, i, t);
    }
  }

  lemma OverwriteBalances(e: EnumDef, m: Memory, id: nat, s: Slot, c: Content)
    requires id in m.objects && s in m.objects[id].cells && Balanced(e, m)
    ensures Balanced(e, Overwrite(m, id, s, c))
  {
    var r := Overwrite(m, id, s, c);
    forall i: nat, t: Slot ensures r.built[(i, t)] == r.destroyed[(i, t)] + Lives(e, r, i, t) {
      assert m.built[(i, t)] == m.destroyed[(i, t)] + Lives(e, m, i, t);
    }
  }

  lemma LeafBalances(e: EnumDef, leaf: Leaf, this_: nat, rhs: nat, m: Memory)
    requires this_ in m.objects && rhs in m.objects && Balanced(e, m)
    requires RunLeaf(e, leaf, this_, rhs, m).Done?
    ensures Balanced(e, RunLeaf(e, leaf, this_, rhs, m).m)
  {
    var r := RunLeaf(e, leaf, this_, rhs, m).m;
    match leaf
    case New(s, move) =>
      var c := m.objects[rhs].cells[s];
      if move {
        OverwriteBalances(e, m, rhs, s, None);
        BuildBalances(e, Overwrite(m, rhs, s, None), this_, s, c);
      } else {
        BuildBalances(e, m, this_, s, c);
      }
    case Assign(s, move) =>
      var c := m.objects[rhs].cells[s];
      OverwriteBalances(e, m, this_, s, c);
      if move {
        OverwriteBalances(e, Overwrite(m, this_, s, c), rhs, s, None);
      }
    case Destroy(s) =>
      forall i: nat, t: Slot ensures r.built[(i, t)] == r.destroyed[(i, t)] + Lives(e, r, i, t) {
        assert m.built[(i, t)] == m.destroyed[(i, t)] + Lives(e, m, i, t);
      }
  }

  lemma {:induction false} LeavesBalance(e: EnumDef, leaves: seq<Leaf>, this_: nat, rhs: nat, m: Memory)
    requires this_ in m.objects && rhs in m.objects && Balanced(e, m)
    requires RunLeaves(e, leaves, this_, rhs, m).Done?
    ensures Balanced(e, RunLeaves(e, leaves, this_, rhs, m).m)
  {
    if leaves != [] {
      var front := leaves[..|leaves| - 1];
      LeavesBalance(e, front, this_, rhs, m);
      LeafBalances(e, leaves[|leaves| - 1], this_, rhs, RunLeaves(e, front, this_, rhs, m).m);
    }
  }

  lemma {:induction false} ParamsBalance(e: EnumDef, params: seq<Slot>, args: map<Slot, int>, id: nat, m: Memory)
    requires id in m.objects && Balanced(e, m) && forall s :: s in params ==> s in args
    requires RunParams(e, params, args, id, m).Done?
    ensures Balanced(e, RunParams(e, params, args, id, m).m)
  {
    if params != [] {
      var front := params[..|params| - 1];
      var last := params[|params| - 1];
      ParamsBalance(e, front, args, id, m);
      BuildBalances(e, RunParams(e, front, args, id, m).m, id, last, Some(args[last]));
    }
  }

  lemma SwitchBalances(e: EnumDef, cases: seq<seq<Leaf>>, index: nat, this_: nat, rhs: nat, m: Memory)
    requires this_ in m.objects && rhs in m.objects && Balanced(e, m)
    requires RunSwitch(e, cases, index, this_, rhs, m).Done?
    ensures Balanced(e, RunSwitch(e, cases, index, this_, rhs, m).m)
  {
    if 1 <= index <= |cases| {
      LeavesBalance(e, cases[index - 1], this_, rhs, m);
    }
  }

  lemma InnerBalances(e: EnumDef, inner: Inner, this_: nat, rhs: nat, m: Memory)
    requires WellFormed(e) && this_ in m.objects && rhs in m.objects && Balanced(e, m)
    requires RunInner(e, inner, this_, rhs, m).Done?
    ensures Balanced(e, RunInner(e, inner, this_, rhs, m).m)
  {
    match inner
    case DestroyVariant => SwitchBalances(e, DestroyCases(e, |e.variants|), m.objects[this_].index, this_, this_, m);
    case SwitchOnRhs(cases) => SwitchBalances(e, cases, m.objects[rhs].index, this_, rhs, m);
  }

  lemma {:induction false} InnersBalance(e: EnumDef, inners: seq<Inner>, this_: nat, rhs: nat, m: Memory)
    requires WellFormed(e) && this_ in m.objects && rhs in m.objects && Balanced(e, m)
    requires RunInners(e, inners, this_, rhs, m).Done?
    ensures Balanced(e, RunInners(e, inners, this_, rhs, m).m)
  {
    if inners != [] {
      InnerBalances(e, inners[0], this_, rhs, m);
      InnersBalance(e, inners[1..], this_, rhs, RunInner(e, inners[0], this_, rhs, m).m);
    }
  }

  lemma SetIndexBalances(e: EnumDef, m: Memory, id: nat, index: nat)
    requires id in m.objects && Balanced(e, m)
    ensures Balanced(e, SetIndex(m, id, index))
  {
    var r := SetIndex(m, id, index);
    forall i: nat, t: Slot ensures r.built[(i, t)] == r.destroyed[(i, t)] + Lives(e, r, i, t) {
      assert m.built[(i, t)] == m.destroyed[(i, t)] + Lives(e, m, i, t);
    }
  }

  lemma {:induction false} BodyBalances(e: EnumDef, body: seq<Stmt>, this_: nat, rhs: nat, m: Memory)
    requires WellFormed(e) && this_ in m.objects && rhs in m.objects && Balanced(e, m)
    requires RunBody(e, body, this_, rhs, m).Done?
    ensures Balanced(e, RunBody(e, body, this_, rhs, m).m)
  {
    if body != [] {
      match body[0] {
        case Verify(_) =>
        case Do(leaves) => LeavesBalance(e, leaves, this_, rhs, m);
        case Then(inner) => InnerBalances(e, inner, this_, rhs, m);
        case IfOtherVariant(yes, no) =>
          InnersBalance(e, if m.objects[this_].index != m.objects[rhs].index then yes else no, this_, rhs, m);
        case TakeIndex => SetIndexBalances(e, m, this_, m.objects[rhs].index);
      }
      BodyBalances(e, body[1..], this_, rhs, RunStmt(e, body[0], this_, rhs, m).m);
    }
  }

  // ----- What a run of one kind of statement does to the objects -----

  ghost predicate OnlyThese(o: Objects, o': Objects, a: nat, b: nat) {
    o'.Keys == o.Keys && forall id :: id in o && id != a && id != b ==> o'[id] == o[id]
  }

  /** The contents moved from become unspecified; a copy leaves them. */
  ghost predicate Source(slots: seq<Slot>, move: bool, o: Obj, o': Obj) {
    && o'.index == o.index && o'.cells.Keys == o.cells.Keys
    && forall t :: t in o.cells ==> o'.cells[t] == if move && t in slots then None else o.cells[t]
  }

  /** `slots` are now live with the contents of `from`; nothing compatible with them was lost. */
  ghost predicate Gained(slots: seq<Slot>, from: map<Slot, Content>, o: Obj, o': Obj) {
    && o'.index == o.index
    && (forall s :: s in slots ==> s in o'.cells && s in from && o'.cells[s] == from[s])
    && (forall t :: t in o'.cells && t !in slots ==> t in o.cells && o'.cells[t] == o.cells[t])
    && (forall t :: t in o.cells && (forall s :: s in slots ==> !Overlapping(s, t)) ==> t in o'.cells)
  }

  /** Building `slots` meets no live non-trivial slot. */
  ghost predicate Room(e: EnumDef, slots: seq<Slot>, o: Obj) {
    forall t, s :: t in o.cells && NeedsDestructor(e, t) && s in slots ==> t != s && !Overlapping(s, t)
  }

  lemma Split(slots: seq<Slot>, front: seq<Slot>, last: Slot)
    requires slots == front + [last] && Compatible(slots)
    ensures Compatible(front) && last !in front
    ensures forall s :: s in front ==> !Overlapping(last, s) && !Overlapping(s, last)
    ensures forall s :: s in slots <==> s in front || s == last
  {
    var n := |front|;
    assert slots[n] == last;
    assert forall i :: 0 <= i < n ==> front[i] == slots[i] && slots[i] != slots[n] && !Overlapping(slots[i], slots[n]);
  }

  lemma RoomForFront(e: EnumDef, slots: seq<Slot>, front: seq<Slot>, last: Slot, o: Obj)
    requires slots == front + [last] && Room(e, slots, o)
    ensures Room(e, front, o) && Room(e, [last], o)
  {
    assert forall s :: s in front ==> s in slots;
    assert last in slots;
  }

  lemma BuildGains(e: EnumDef, front: seq<Slot>, last: Slot, from: map<Slot, Content>, o: Obj, m: Memory, id: nat)
    requires Compatible(front + [last]) && Room(e, [last], o)
    requires IsSlot(e, last) && last in from
    requires id in m.objects && Gained(front, from, o, m.objects[id])
    ensures var r := Build(e, m, id, last, from[last]);
            r.Done? && Gained(front + [last], from, o, r.m.objects[id]) && OnlyThese(m.objects, r.m.objects, id, id)
  {
    var slots := front + [last];
    Split(slots, front, last);
    var cells := m.objects[id].cells;
    forall t | t in cells && NeedsDestructor(e, t) ensures t != last && !Overlapping(last, t) {
      if t !in front {
        assert t in o.cells && last in [last];
      }
    }
  }

  lemma NewStep(e: EnumDef, front: seq<Slot>, last: Slot, move: bool, this_: nat, rhs: nat, m: Memory, mid: Memory)
    requires this_ in m.objects && rhs in m.objects && this_ != rhs
    requires Compatible(front + [last]) && Room(e, [last], m.objects[this_])
    requires IsSlot(e, last) && last in m.objects[rhs].cells
    requires OnlyThese(m.objects, mid.objects, this_, rhs)
    requires Gained(front, m.objects[rhs].cells, m.objects[this_], mid.objects[this_])
    requires Source(front, move, m.objects[rhs], mid.objects[rhs])
    ensures var r := RunLeaf(e, New(last, move), this_, rhs, mid);
            && r.Done? && OnlyThese(m.objects, r.m.objects, this_, rhs)
            && Gained(front + [last], m.objects[rhs].cells, m.objects[this_], r.m.objects[this_])
            && Source(front + [last], move, m.objects[rhs], r.m.objects[rhs])
  {
    Split(front + [last], front, last);
    var ready := if move then Overwrite(mid, rhs, last, None) else mid;
    BuildGains(e, front, last, m.objects[rhs].cells, m.objects[this_], ready, this_);
  }

  lemma {:induction false} NewsGain(e: EnumDef, slots: seq<Slot>, move: bool, this_: nat, rhs: nat,
          m: Memory) returns (m': Memory)
    requires this_ in m.objects && rhs in m.objects && this_ != rhs
    requires Compatible(slots) && Room(e, slots, m.objects[this_])
    requires forall s :: s in slots ==> IsSlot(e, s) && s in m.objects[rhs].cells
    ensures RunLeaves(e, Each(slots, false, move), this_, rhs, m) == Done(m')
    ensures OnlyThese(m.objects, m'.objects, this_, rhs)
    ensures Gained(slots, m.objects[rhs].cells, m.objects[this_], m'.objects[this_])
    ensures Source(slots, move, m.objects[rhs], m'.objects[rhs])
  {
    m' := m;
    if slots != [] {
      var front, last := slots[..|slots| - 1], slots[|slots| - 1];
      assert slots == front + [last];
      Split(slots, front, last);
      RoomForFront(e, slots, front, last, m.objects[this_]);
      var mid := NewsGain(e, front, move, this_, rhs, m);
      var leaves := Each(slots, false, move);
      assert leaves[..|leaves| - 1] == Each(front, false, move);
      NewStep(e, front, last, move, this_, rhs, m, mid);
      m' := RunLeaf(e, New(last, move), this_, rhs, mid).m;
    }
  }

  lemma {:induction false} ParamsGain(e: EnumDef, slots: seq<Slot>, args: map<Slot, int>, id: nat, m: Memory) returns (m': Memory)
    requires id in m.objects && Compatible(slots) && Room(e, slots, m.objects[id])
    requires forall s :: s in slots ==> IsSlot(e, s) && s in args
    ensures RunParams(e, slots, args, id, m) == Done(m') && OnlyThese(m.objects, m'.objects, id, id)
    ensures Gained(slots, map s | s in args :: Some(args[s]), m.objects[id], m'.objects[id])
  {
    m' := m;
    if slots != [] {
      var front, last := slots[..|slots| - 1], slots[|slots| - 1];
      assert slots == front + [last];
      Split(slots, front, last);
      RoomForFront(e, slots, front, last, m.objects[id]);
      var mid := ParamsGain(e, front, args, id, m);
      BuildGains(e, front, last, map s | s in args :: Some(args[s]), m.objects[id], mid, id);
      m' := Build(e, mid, id, last, Some(args[last])).m;
    }
  }

  /** Assignment keeps every slot live, also when both operands are the same object. */
  ghost predicate Assigned(slots: seq<Slot>, from: map<Slot, Content>, same: bool, move: bool, o: Obj, o': Obj) {
    && o'.index == o.index && o'.cells.Keys == o.cells.Keys
    && forall t :: t in o.cells ==>
         if t !in slots then o'.cells[t] == o.cells[t]
         else t in from && o'.cells[t] == if same && move then None else from[t]
  }

  lemma AssignStepToItself(e: EnumDef, front: seq<Slot>, last: Slot, move: bool, this_: nat, m: Memory, mid: Memory)
    requires this_ in m.objects && Compatible(front + [last]) && last in m.objects[this_].cells
    requires OnlyThese(m.objects, mid.objects, this_, this_)
    requires Assigned(front, m.objects[this_].cells, true, move, m.objects[this_], mid.objects[this_])
    ensures var r := RunLeaf(e, Assign(last, move), this_, this_, mid);
            && r.Done? && OnlyThese(m.objects, r.m.objects, this_, this_)
            && Assigned(front + [last], m.objects[this_].cells, true, move, m.objects[this_], r.m.objects[this_])
  {
    Split(front + [last], front, last);
  }

  lemma AssignStepFromOther(e: EnumDef, front: seq<Slot>, last: Slot, move: bool, this_: nat, rhs: nat, m: Memory, mid: Memory)
    requires this_ in m.objects && rhs in m.objects && this_ != rhs && Compatible(front + [last])
    requires last in m.objects[this_].cells && last in m.objects[rhs].cells
    requires OnlyThese(m.objects, mid.objects, this_, rhs)
    requires Assigned(front, m.objects[rhs].cells, false, move, m.objects[this_], mid.objects[this_])
    requires Source(front, move, m.objects[rhs], mid.objects[rhs])
    ensures var r := RunLeaf(e, Assign(last, move), this_, rhs, mid);
            && r.Done? && OnlyThese(m.objects, r.m.objects, this_, rhs)
            && Assigned(front + [last], m.objects[rhs].cells, false, move, m.objects[this_], r.m.objects[this_])
            && Source(front + [last], move, m.objects[rhs], r.m.objects[rhs])
  {
    Split(front + [last], front, last);
  }

  lemma AssignStep(e: EnumDef, front: seq<Slot>, last: Slot, move: bool, this_: nat, rhs: nat, m: Memory, mid: Memory)
    requires this_ in m.objects && rhs in m.objects && Compatible(front + [last])
    requires last in m.objects[this_].cells && last in m.objects[rhs].cells
    requires OnlyThese(m.objects, mid.objects, this_, rhs)
    requires Assigned(front, m.objects[rhs].cells, this_ == rhs, move, m.objects[this_], mid.objects[this_])
    requires this_ != rhs ==> Source(front, move, m.objects[rhs], mid.objects[rhs])
    ensures var r := RunLeaf(e, Assign(last, move), this_, rhs, mid);
            && r.Done? && OnlyThese(m.objects, r.m.objects, this_, rhs)
            && Assigned(front + [last], m.objects[rhs].cells, this_ == rhs, move, m.objects[this_], r.m.objects[this_])
            && (this_ != rhs ==> Source(front + [last], move, m.objects[rhs], r.m.objects[rhs]))
  {
    Split(front + [last], front, last);
    if this_ == rhs {
      AssignStepToItself(e, front, last, move, this_, m, mid);
    } else {
      AssignStepFromOther(e, front, last, move, this_, rhs, m, mid);
    }
    hide *;
  }

  lemma {:induction false} AssignsKeep(e: EnumDef, slots: seq<Slot>, move: bool, this_: nat, rhs: nat,
          m: Memory) returns (m': Memory)
    requires this_ in m.objects && rhs in m.objects && Compatible(slots)
    requires forall s :: s in slots ==> s in m.objects[this_].cells && s in m.objects[rhs].cells
    ensures RunLeaves(e, Each(slots, true, move), this_, rhs, m) == Done(m')
    ensures OnlyThese(m.objects, m'.objects, this_, rhs)
    ensures Assigned(slots, m.objects[rhs].cells, this_ == rhs, move, m.objects[this_], m'.objects[this_])
    ensures this_ != rhs ==> Source(slots, move, m.objects[rhs], m'.objects[rhs])
    ensures m'.objects[this_].index == m.objects[this_].index && m'.objects[rhs].index == m.objects[rhs].index
  {
    m' := m;
    if slots != [] {
      var front, last := slots[..|slots| - 1], slots[|slots| - 1];
      assert slots == front + [last];
      Split(slots, front, last);
      var mid := AssignsKeep(e, front, move, this_, rhs, m);
      var leaves := Each(slots, true, move);
      assert leaves[..|leaves| - 1] == Each(front, true, move);
      AssignStep(e, front, last, move, this_, rhs, m, mid);
      m' := RunLeaf(e, Assign(last, move), this_, rhs, mid).m;
    }
  }

  /** The non-trivial slots among `slots` are dead; the rest is as before. */
  ghost predicate Ended(e: EnumDef, slots: seq<Slot>, o: Obj, o': Obj) {
    && o'.index == o.index
    && (forall t :: t in o'.cells <==> t in o.cells && !(t in slots && NeedsDestructor(e, t)))
    && (forall t :: t in o'.cells ==> o'.cells[t] == o.cells[t])
  }

  lemma DestroyStep(e: EnumDef, front: seq<Slot>, last: Slot, id: nat, m: Memory, mid: Memory)
    requires id in m.objects && Compatible(front + [last])
    requires last in m.objects[id].cells && NeedsDestructor(e, last)
    requires OnlyThese(m.objects, mid.objects, id, id) && Ended(e, front, m.objects[id], mid.objects[id])
    ensures var r := RunLeaf(e, Destroy(last), id, id, mid);
            r.Done? && OnlyThese(m.objects, r.m.objects, id, id) && Ended(e, front + [last], m.objects[id], r.m.objects[id])
  {
    Split(front + [last], front, last);
  }

  lemma {:induction false} DestroysEnd(e: EnumDef, slots: seq<Slot>, id: nat, m: Memory) returns (m': Memory)
    requires id in m.objects && Compatible(slots) && DestructorsNamed(e)
    requires forall s :: s in slots ==> IsSlot(e, s) && s in m.objects[id].cells
    ensures RunLeaves(e, Destroys(e, slots), id, id, m) == Done(m')
    ensures OnlyThese(m.objects, m'.objects, id, id) && Ended(e, slots, m.objects[id], m'.objects[id])
  {
    m' := m;
    if slots != [] {
      var front, last := slots[..|slots| - 1], slots[|slots| - 1];
      assert slots == front + [last];
      Split(slots, front, last);
      var mid := DestroysEnd(e, front, id, m);
      if NeedsDestructor(e, last) {
        var leaves := Destroys(e, slots);
        assert leaves == Destroys(e, front) + [Destroy(last)];
        assert leaves[..|leaves| - 1] == Destroys(e, front) && leaves[|leaves| - 1] == Destroy(last);
        DestroyStep(e, front, last, id, m, mid);
        m' := RunLeaf(e, Destroy(last), id, id, mid).m;
      } else {
        m' := mid;
        assert Destroys(e, slots) == Destroys(e, front);
      }
    }
  }

  // ----- Each member -----

  /** The same variant with the same contents. */
  ghost predicate HasValue(e: EnumDef, o': Obj, o: Obj) {
    && o'.index == o.index
    && forall s :: Current(e, o.index, s) ==> s in o'.cells && s in o.cells && o'.cells[s] == o.cells[s]
  }

  /** What a copy or a move leaves of its operand: everything, or unspecified contents. */
  ghost predicate LeftBehind(e: EnumDef, move: bool, o: Obj, o': Obj) {
    && o'.index == o.index && o'.cells.Keys == o.cells.Keys
    && forall t :: t in o.cells ==> o'.cells[t] == if move && Current(e, o.index, t) then None else o.cells[t]
  }

  lemma LeftBehindIsValid(e: EnumDef, move: bool, o: Obj, o': Obj)
    requires ValidObject(e, o) && LeftBehind(e, move, o, o')
    ensures ValidObject(e, o')
  {
  }

  lemma Unroll(e: EnumDef, s: Stmt, rest: seq<Stmt>, this_: nat, rhs: nat, m: Memory)
    requires WellFormed(e) && this_ in m.objects && rhs in m.objects
    ensures RunBody(e, [s] + rest, this_, rhs, m) ==
            var r := RunStmt(e, s, this_, rhs, m);
            if r.Done? then RunBody(e, rest, this_, rhs, r.m) else r
  {
    assert ([s] + rest)[1..] == rest;
  }

  /** A body whose check succeeds runs its two middle statements and takes the index. */
  lemma BodyRuns(e: EnumDef, a: Stmt, b: Stmt, c: Stmt, this_: nat, rhs: nat, m: Memory, m1: Memory, m2: Memory)
    requires WellFormed(e) && this_ in m.objects && rhs in m.objects
    requires RunStmt(e, a, this_, rhs, m) == Done(m)
    requires RunStmt(e, b, this_, rhs, m) == Done(m1)
    requires RunStmt(e, c, this_, rhs, m1) == Done(m2)
    ensures RunBody(e, [a, b, c, TakeIndex], this_, rhs, m) == Done(SetIndex(m2, this_, m2.objects[rhs].index))
  {
    assert [a, b, c, TakeIndex] == [a] + ([b] + ([c] + ([TakeIndex] + [])));
    Unroll(e, a, [b] + ([c] + ([TakeIndex] + [])), this_, rhs, m);
    Unroll(e, b, [c] + ([TakeIndex] + []), this_, rhs, m);
    Unroll(e, c, [TakeIndex] + [], this_, rhs, m1);
    Unroll(e, TakeIndex, [], this_, rhs, m2);
  }

  lemma SwitchTakes(e: EnumDef, cases: seq<seq<Leaf>>, leaves: seq<Leaf>, this_: nat, rhs: nat, m: Memory)
    requires WellFormed(e) && this_ in m.objects && rhs in m.objects
    requires 1 <= m.objects[rhs].index <= |cases| && cases[m.objects[rhs].index - 1] == leaves
    ensures RunInner(e, SwitchOnRhs(cases), this_, rhs, m) == RunLeaves(e, leaves, this_, rhs, m)
  {
    hide RunLeaves;
  }

  lemma SwitchRuns(e: EnumDef, assign: bool, move: bool, own: seq<Slot>, this_: nat, rhs: nat, m: Memory)
    requires WellFormed(e) && this_ in m.objects && rhs in m.objects
    requires 1 <= m.objects[rhs].index <= |e.variants| && own == Visited(e, m.objects[rhs].index - 1)
    ensures RunInner(e, SwitchOnRhs(Cases(e, |e.variants|, assign, move)), this_, rhs, m)
         == RunLeaves(e, Each(own, assign, move), this_, rhs, m)
  {
    hide *;
    CasesAt(e, |e.variants|, assign, move, m.objects[rhs].index - 1);
    SwitchTakes(e, Cases(e, |e.variants|, assign, move), Each(own, assign, move), this_, rhs, m);
  }

  /** The slots of an object's current variant, split as the emitted code visits them. */
  ghost predicate Parts(e: EnumDef, index: nat, common: seq<Slot>, own: seq<Slot>) {
    && Compatible(common) && Compatible(own)
    && (forall s :: Current(e, index, s) <==> s in common || s in own)
    && (forall s :: s in common ==> s.Common?)
    && (forall s :: s in own ==> s.Of? && s.variant == index - 1)
  }

  lemma CurrentParts(e: EnumDef, index: nat)
    requires Agreeing(e) && 1 <= index <= |e.variants|
    ensures Parts(e, index, CommonSlots(|e.common|), Visited(e, index - 1))
  {
    VisitedAreSlots(e, index - 1);
    CommonMembers(|e.common|);
  }

  /** What the parts of an object's variant say about its live slots. */
  lemma PartsAreLive(e: EnumDef, common: seq<Slot>, own: seq<Slot>, o: Obj)
    requires ValidObject(e, o) && Parts(e, o.index, common, own)
    ensures Compatible(common) && Compatible(own)
    ensures forall s :: s in common || s in own ==> s in o.cells && IsSlot(e, s)
  {
    forall s | s in common || s in own ensures s in o.cells && IsSlot(e, s) {
      assert Current(e, o.index, s);
    }
  }

  /** After two rounds of building, every slot visited is live with its new content. */
  lemma TwoGains(e: EnumDef, index: nat, common: seq<Slot>, own: seq<Slot>, from: map<Slot, Content>,
          from': map<Slot, Content>, o1: Obj, o2: Obj)
    requires index <= |e.variants| && Parts(e, index, common, own)
    requires forall s :: s in common ==> s in o1.cells && s in from && o1.cells[s] == from[s]
    requires forall t :: t in o1.cells && NeedsDestructor(e, t) ==> t in common
    requires Gained(own, from', o1, o2)
    requires forall s :: s in own && s in from' ==> s in from && from'[s] == from[s]
    ensures ValidObject(e, o2.(index := index))
    ensures forall s :: Current(e, index, s) ==> s in o2.cells && s in from && o2.cells[s] == from[s]
  {
    forall s | s in common ensures s in o2.cells && o2.cells[s] == from[s] {
    }
  }

  /** Going through the common slots and then the variant's empties or keeps all current slots. */
  lemma TwoSources(e: EnumDef, move: bool, common: seq<Slot>, own: seq<Slot>, o: Obj, o1: Obj, o2: Obj)
    requires Parts(e, o.index, common, own)
    requires Source(common, move, o, o1) && Source(own, move, o1, o2)
    ensures LeftBehind(e, move, o, o2)
    ensures forall s :: s in own && s in o1.cells ==> s in o.cells && o1.cells[s] == o.cells[s]
  {
  }

  lemma OnlyTheseTwice(o: Objects, o1: Objects, o2: Objects, a: nat, b: nat)
    requires OnlyThese(o, o1, a, b) && OnlyThese(o1, o2, a, b)
    ensures OnlyThese(o, o2, a, b)
  {
  }

  lemma IndexInRange(e: EnumDef, o: Obj)
    requires ValidObject(e, o)
    ensures o.index <= |e.variants|
  {
  }

  lemma RoomInNew(e: EnumDef, slots: seq<Slot>, index: nat)
    ensures Room(e, slots, Obj(index, map[]))
  {
  }

  /** What the first round of building leaves for the second one. */
  lemma BetweenGains(e: EnumDef, move: bool, common: seq<Slot>, own: seq<Slot>, rhs: Obj, this1: Obj, rhs1: Obj)
    requires ValidObject(e, rhs) && Parts(e, rhs.index, common, own)
    requires Gained(common, rhs.cells, Obj(0, map[]), this1) && Source(common, move, rhs, rhs1)
    ensures Room(e, own, this1)
    ensures forall s :: s in own ==> IsSlot(e, s) && s in rhs1.cells
  {
    forall s | s in own ensures IsSlot(e, s) && s in rhs1.cells {
      assert Current(e, rhs.index, s);
    }
  }

  lemma AfterGains(e: EnumDef, move: bool, common: seq<Slot>, own: seq<Slot>, rhs: Obj, this1: Obj, rhs1: Obj,
          this2: Obj, rhs2: Obj)
    requires ValidObject(e, rhs) && Parts(e, rhs.index, common, own)
    requires Gained(common, rhs.cells, Obj(0, map[]), this1) && Source(common, move, rhs, rhs1)
    requires Gained(own, rhs1.cells, this1, this2) && Source(own, move, rhs1, rhs2)
    ensures ValidObject(e, this2.(index := rhs.index)) && HasValue(e, this2.(index := rhs.index), rhs)
    ensures LeftBehind(e, move, rhs, rhs2)
  {
    TwoSources(e, move, common, own, rhs, rhs1, rhs2);
    TwoGains(e, rhs.index, common, own, rhs.cells, rhs1.cells, this1, this2);
  }

  /** The common part and then the variant part of the copy or move constructor, before the index is taken. */
  lemma ConstructorBuilds(e: EnumDef, move: bool, this_: nat, rhs: nat, m: Memory) returns (m1: Memory, m2: Memory)
    requires Agreeing(e) && this_ != rhs && this_ in m.objects && rhs in m.objects
    requires m.objects[this_] == Obj(0, map[]) && ValidObject(e, m.objects[rhs]) && m.objects[rhs].index != 0
    ensures RunLeaves(e, Each(CommonSlots(|e.common|), false, move), this_, rhs, m) == Done(m1)
    ensures OnlyThese(m.objects, m1.objects, this_, rhs)
    ensures RunInner(e, SwitchOnRhs(Cases(e, |e.variants|, false, move)), this_, rhs, m1) == Done(m2)
    ensures OnlyThese(m.objects, m2.objects, this_, rhs) && m2.objects[rhs].index == m.objects[rhs].index
    ensures ValidObject(e, m2.objects[this_].(index := m.objects[rhs].index))
    ensures HasValue(e, m2.objects[this_].(index := m.objects[rhs].index), m.objects[rhs])
    ensures LeftBehind(e, move, m.objects[rhs], m2.objects[rhs])
  {
    var o := m.objects[rhs];
    var common, own := CommonSlots(|e.common|), Visited(e, o.index - 1);
    hide *;
    IndexInRange(e, o);
    CurrentParts(e, o.index);
    PartsAreLive(e, common, own, o);
    RoomInNew(e, common, 0);
    m1 := NewsGain(e, common, move, this_, rhs, m);
    BetweenGains(e, move, common, own, o, m1.objects[this_], m1.objects[rhs]);
    m2 := NewsGain(e, own, move, this_, rhs, m1);
    SwitchRuns(e, false, move, own, this_, rhs, m1);
    OnlyTheseTwice(m.objects, m1.objects, m2.objects, this_, rhs);
    SourceKeepsIndex(common, move, o, m1.objects[rhs]);
    SourceKeepsIndex(own, move, m1.objects[rhs], m2.objects[rhs]);
    AfterGains(e, move, common, own, o, m1.objects[this_], m1.objects[rhs], m2.objects[this_], m2.objects[rhs]);
  }

  /** Copy and move construction. */
  lemma Constructs(e: EnumDef, move: bool, this_: nat, rhs: nat, m: Memory)
    requires Agreeing(e) && this_ !in m.objects && rhs in m.objects && ValidObject(e, m.objects[rhs])
    ensures var r := RunBody(e, AssignmentBody(e, true, move), this_, rhs, WithNew(m, this_));
            if m.objects[rhs].index == 0 then r == VerifyFailed
            else
              && r.Done? && OnlyThese(WithNew(m, this_).objects, r.m.objects, this_, rhs)
              && ValidObject(e, r.m.objects[this_]) && HasValue(e, r.m.objects[this_], m.objects[rhs])
              && LeftBehind(e, move, m.objects[rhs], r.m.objects[rhs])
  {
    hide RunLeaves, RunInner, Each, Cases, CommonSlots, ValidObject, HasValue, LeftBehind, WellFormed, NamesAgree;
    var body := AssignmentBody(e, true, move);
    var n := WithNew(m, this_);
    if m.objects[rhs].index != 0 {
      var m1, m2 := ConstructorBuilds(e, move, this_, rhs, n);
      BodyRuns(e, body[0], body[1], body[2], this_, rhs, n, m1, m2);
      assert body == [body[0], body[1], body[2], TakeIndex];
    }
  }

  /** Destroying the current variant leaves room for any other one. */
  lemma VariantEnds(e: EnumDef, id: nat, m: Memory) returns (m': Memory)
    requires Disciplined(e) && id in m.objects && ValidObject(e, m.objects[id]) && m.objects[id].index != 0
    ensures RunInner(e, DestroyVariant, id, id, m) == Done(m') && OnlyThese(m.objects, m'.objects, id, id)
    ensures Ended(e, Visited(e, m.objects[id].index - 1), m.objects[id], m'.objects[id])
    ensures forall t :: t in m'.objects[id].cells && NeedsDestructor(e, t) ==> t in CommonSlots(|e.common|)
  {
    var o := m.objects[id];
    var common, own := CommonSlots(|e.common|), Visited(e, o.index - 1);
    hide *;
    IndexInRange(e, o);
    DestroyRuns(e, own, id, m);
    CurrentParts(e, o.index);
    PartsAreLive(e, common, own, o);
    m' := DestroysEnd(e, own, id, m);
    OthersEnded(e, common, own, o, m'.objects[id]);
  }

  lemma DestroyTakes(e: EnumDef, leaves: seq<Leaf>, id: nat, m: Memory)
    requires WellFormed(e) && id in m.objects
    requires 1 <= m.objects[id].index <= |e.variants| && DestroyCases(e, |e.variants|)[m.objects[id].index - 1] == leaves
    ensures RunInner(e, DestroyVariant, id, id, m) == RunLeaves(e, leaves, id, id, m)
  {
    hide RunLeaves;
  }

  lemma DestroyRuns(e: EnumDef, own: seq<Slot>, id: nat, m: Memory)
    requires WellFormed(e) && id in m.objects
    requires 1 <= m.objects[id].index <= |e.variants| && own == Visited(e, m.objects[id].index - 1)
    ensures RunInner(e, DestroyVariant, id, id, m) == RunLeaves(e, Destroys(e, own), id, id, m)
  {
    hide *;
    CasesAt(e, |e.variants|, true, true, m.objects[id].index - 1);
    DestroyTakes(e, Destroys(e, own), id, m);
  }

  lemma OthersEnded(e: EnumDef, common: seq<Slot>, own: seq<Slot>, o: Obj, o': Obj)
    requires ValidObject(e, o) && Parts(e, o.index, common, own) && Ended(e, own, o, o')
    ensures forall t :: t in o'.cells && NeedsDestructor(e, t) ==> t in common
  {
  }

  lemma AssignedIsValid(e: EnumDef, slots: seq<Slot>, from: map<Slot, Content>, same: bool, move: bool, o: Obj, o': Obj)
    requires ValidObject(e, o) && Assigned(slots, from, same, move, o, o')
    ensures ValidObject(e, o') && o'.index == o.index && o'.cells.Keys == o.cells.Keys
  {
  }

  /** The common fields were assigned and the old variant destroyed: there is room for the new one. */
  lemma BetweenVariants(e: EnumDef, move: bool, common: seq<Slot>, own: seq<Slot>, rhs: Obj, this2: Obj, rhs1: Obj)
    requires ValidObject(e, rhs) && Parts(e, rhs.index, common, own)
    requires Source(common, move, rhs, rhs1)
    requires Refreshed(e, common, rhs.cells, this2)
    ensures Room(e, own, this2)
    ensures forall s :: s in own ==> IsSlot(e, s) && s in rhs1.cells
  {
    forall s | s in own ensures IsSlot(e, s) && s in rhs1.cells {
      assert Current(e, rhs.index, s);
    }
  }

  /** Both operands have the common slots, so these can be assigned. */
  lemma AssignsCommon(e: EnumDef, move: bool, this_: nat, rhs: nat, m: Memory) returns (m1: Memory)
    requires Disciplined(e) && this_ in m.objects && rhs in m.objects && this_ != rhs
    requires ValidObject(e, m.objects[this_]) && ValidObject(e, m.objects[rhs])
    requires m.objects[this_].index != 0 && m.objects[rhs].index != 0
    ensures RunLeaves(e, Each(CommonSlots(|e.common|), true, move), this_, rhs, m) == Done(m1)
    ensures OnlyThese(m.objects, m1.objects, this_, rhs) && m1.objects.Keys == m.objects.Keys
    ensures Source(CommonSlots(|e.common|), move, m.objects[rhs], m1.objects[rhs])
    ensures Assigned(CommonSlots(|e.common|), m.objects[rhs].cells, false, move, m.objects[this_], m1.objects[this_])
    ensures forall s :: s in CommonSlots(|e.common|) ==> s in m.objects[this_].cells
  {
    var t, o := m.objects[this_], m.objects[rhs];
    var common, own, old_ := CommonSlots(|e.common|), Visited(e, o.index - 1), Visited(e, t.index - 1);
    hide *;
    IndexInRange(e, o);
    IndexInRange(e, t);
    CurrentParts(e, o.index);
    CurrentParts(e, t.index);
    PartsAreLive(e, common, own, o);
    PartsAreLive(e, common, old_, t);
    m1 := AssignsKeep(e, common, move, this_, rhs, m);
  }

  /** The common fields are assigned and the old variant destroyed. */
  lemma ClearsVariant(e: EnumDef, move: bool, this_: nat, rhs: nat, m: Memory) returns (m1: Memory, m2: Memory)
    requires Disciplined(e) && this_ in m.objects && rhs in m.objects && this_ != rhs
    requires ValidObject(e, m.objects[this_]) && ValidObject(e, m.objects[rhs])
    requires m.objects[this_].index != 0 && m.objects[rhs].index != 0
    ensures RunLeaves(e, Each(CommonSlots(|e.common|), true, move), this_, rhs, m) == Done(m1)
    ensures m1.objects.Keys == m.objects.Keys
    ensures m1.objects[this_].index == m.objects[this_].index && m1.objects[rhs].index == m.objects[rhs].index
    ensures RunInner(e, DestroyVariant, this_, rhs, m1) == Done(m2)
    ensures OnlyThese(m.objects, m2.objects, this_, rhs)
    ensures Source(CommonSlots(|e.common|), move, m.objects[rhs], m2.objects[rhs])
    ensures Refreshed(e, CommonSlots(|e.common|), m.objects[rhs].cells, m2.objects[this_])
  {
    var t, o := m.objects[this_], m.objects[rhs];
    var common, old_ := CommonSlots(|e.common|), Visited(e, t.index - 1);
    hide *;
    m1 := AssignsCommon(e, move, this_, rhs, m);
    SourceKeepsIndex(common, move, o, m1.objects[rhs]);
    AssignedIsValid(e, common, o.cells, false, move, t, m1.objects[this_]);
    m2 := VariantEnds(e, this_, m1);
    DestroyIgnoresRhs(e, this_, rhs, m1);
    OnlyTheseWider(m1.objects, m2.objects, this_, rhs);
    OnlyTheseTwice(m.objects, m1.objects, m2.objects, this_, rhs);
    IndexInRange(e, t);
    CurrentParts(e, t.index);
    RefreshedBoth(e, move, t.index, common, old_, t, o.cells, m1.objects[this_], m2.objects[this_]);
  }

  /** The common slots are live with new contents, and no other non-trivial slot is. */
  ghost predicate Refreshed(e: EnumDef, common: seq<Slot>, from: map<Slot, Content>, o: Obj) {
    && (forall s :: s in common ==> s in o.cells && s in from && o.cells[s] == from[s])
    && (forall t :: t in o.cells && NeedsDestructor(e, t) ==> t in common)
  }

  lemma RefreshedBoth(e: EnumDef, move: bool, index: nat, common: seq<Slot>, old_: seq<Slot>, this0: Obj,
          from: map<Slot, Content>, this1: Obj, this2: Obj)
    requires Parts(e, index, common, old_) && forall s :: s in common ==> s in this0.cells
    requires Assigned(common, from, false, move, this0, this1) && Ended(e, old_, this1, this2)
    requires forall t :: t in this2.cells && NeedsDestructor(e, t) ==> t in common
    ensures Refreshed(e, common, from, this2)
  {
  }

  lemma AfterReplacing(e: EnumDef, move: bool, common: seq<Slot>, own: seq<Slot>, rhs: Obj, this2: Obj, rhs2: Obj,
          this3: Obj, rhs3: Obj)
    requires ValidObject(e, rhs) && Parts(e, rhs.index, common, own)
    requires Refreshed(e, common, rhs.cells, this2) && Source(common, move, rhs, rhs2)
    requires Gained(own, rhs2.cells, this2, this3) && Source(own, move, rhs2, rhs3)
    ensures ValidObject(e, this3.(index := rhs.index)) && HasValue(e, this3.(index := rhs.index), rhs)
    ensures LeftBehind(e, move, rhs, rhs3)
  {
    TwoSources(e, move, common, own, rhs, rhs2, rhs3);
    TwoGains(e, rhs.index, common, own, rhs.cells, rhs2.cells, this2, this3);
  }

  /** Assignment to an object that holds another variant, before the index is taken. */
  lemma Replaces(e: EnumDef, move: bool, this_: nat, rhs: nat, m: Memory) returns (m1: Memory, m2: Memory, m3: Memory)
    requires Disciplined(e) && this_ in m.objects && rhs in m.objects && this_ != rhs
    requires ValidObject(e, m.objects[this_]) && ValidObject(e, m.objects[rhs])
    requires m.objects[this_].index != 0 && m.objects[rhs].index != 0
    ensures RunLeaves(e, Each(CommonSlots(|e.common|), true, move), this_, rhs, m) == Done(m1)
    ensures m1.objects.Keys == m.objects.Keys
    ensures m1.objects[this_].index == m.objects[this_].index && m1.objects[rhs].index == m.objects[rhs].index
    ensures RunInner(e, DestroyVariant, this_, rhs, m1) == Done(m2)
    ensures m2.objects.Keys == m.objects.Keys
    ensures RunInner(e, SwitchOnRhs(Cases(e, |e.variants|, false, move)), this_, rhs, m2) == Done(m3)
    ensures OnlyThese(m.objects, m3.objects, this_, rhs) && m3.objects[rhs].index == m.objects[rhs].index
    ensures ValidObject(e, m3.objects[this_].(index := m.objects[rhs].index))
    ensures HasValue(e, m3.objects[this_].(index := m.objects[rhs].index), m.objects[rhs])
    ensures LeftBehind(e, move, m.objects[rhs], m3.objects[rhs])
  {
    var o := m.objects[rhs];
    var common, own := CommonSlots(|e.common|), Visited(e, o.index - 1);
    hide *;
    IndexInRange(e, o);
    CurrentParts(e, o.index);
    m1, m2 := ClearsVariant(e, move, this_, rhs, m);
    SourceKeepsIndex(common, move, o, m2.objects[rhs]);
    SwitchRuns(e, false, move, own, this_, rhs, m2);
    BetweenVariants(e, move, common, own, o, m2.objects[this_], m2.objects[rhs]);
    m3 := NewsGain(e, own, move, this_, rhs, m2);
    OnlyTheseTwice(m.objects, m2.objects, m3.objects, this_, rhs);
    SourceKeepsIndex(own, move, m2.objects[rhs], m3.objects[rhs]);
    AfterReplacing(e, move, common, own, o, m2.objects[this_], m2.objects[rhs], m3.objects[this_], m3.objects[rhs]);
  }

  lemma SourceKeepsIndex(slots: seq<Slot>, move: bool, o: Obj, o': Obj)
    requires Source(slots, move, o, o')
    ensures o'.index == o.index && o'.cells.Keys == o.cells.Keys
  {
  }

  lemma DestroyIgnoresRhs(e: EnumDef, this_: nat, rhs: nat, m: Memory)
    requires WellFormed(e) && this_ in m.objects && rhs in m.objects
    ensures RunInner(e, DestroyVariant, this_, rhs, m) == RunInner(e, DestroyVariant, this_, this_, m)
  {
  }

  lemma OnlyTheseWider(o: Objects, o': Objects, a: nat, b: nat)
    requires OnlyThese(o, o', a, a) && a != b
    ensures OnlyThese(o, o', a, b) && (b in o ==> b in o' && o'[b] == o[b])
  {
  }

  lemma AfterUpdating(e: EnumDef, move: bool, same: bool, common: seq<Slot>, own: seq<Slot>,
                      this0: Obj, rhs: Obj, this1: Obj, rhs1: Obj, this2: Obj, rhs2: Obj)
    requires ValidObject(e, this0) && ValidObject(e, rhs) && this0.index == rhs.index && Parts(e, rhs.index, common, own)
    requires Assigned(common, rhs.cells, same, move, this0, this1)
    requires Assigned(own, rhs1.cells, same, move, this1, this2)
    requires if same then this0 == rhs && this1 == rhs1 && this2 == rhs2
             else Source(common, move, rhs, rhs1) && Source(own, move, rhs1, rhs2)
    ensures ValidObject(e, this2) && this2.index == rhs.index
    ensures !same ==> HasValue(e, this2, rhs)
    ensures LeftBehind(e, move, rhs, rhs2)
  {
    if same {
      AssignedToItself(move, common, rhs, rhs1);
      AssignedToItself(move, own, rhs1, rhs2);
    }
    TwoSources(e, move, common, own, rhs, rhs1, rhs2);
    AssignedIsValid(e, common, rhs.cells, same, move, this0, this1);
    AssignedIsValid(e, own, rhs1.cells, same, move, this1, this2);
    if !same {
      PartsAreLive(e, common, own, this0);
      PartsAreLive(e, common, own, rhs);
    }
  }

  /** Assignment between objects of one variant, or of an object to itself. */
  lemma Updates(e: EnumDef, move: bool, this_: nat, rhs: nat, m: Memory) returns (m1: Memory, m2: Memory)
    requires Disciplined(e) && this_ in m.objects && rhs in m.objects
    requires ValidObject(e, m.objects[this_]) && ValidObject(e, m.objects[rhs])
    requires m.objects[rhs].index != 0 && m.objects[this_].index == m.objects[rhs].index
    ensures RunLeaves(e, Each(CommonSlots(|e.common|), true, move), this_, rhs, m) == Done(m1)
    ensures OnlyThese(m.objects, m1.objects, this_, rhs)
    ensures m1.objects[this_].index == m1.objects[rhs].index == m.objects[rhs].index
    ensures RunInner(e, SwitchOnRhs(Cases(e, |e.variants|, true, move)), this_, rhs, m1) == Done(m2)
    ensures OnlyThese(m.objects, m2.objects, this_, rhs)
    ensures m2.objects[this_].index == m2.objects[rhs].index == m.objects[rhs].index
    ensures ValidObject(e, m2.objects[this_])
    ensures this_ != rhs ==> HasValue(e, m2.objects[this_], m.objects[rhs])
    ensures LeftBehind(e, move, m.objects[rhs], m2.objects[rhs])
  {
    var t, o := m.objects[this_], m.objects[rhs];
    var common, own := CommonSlots(|e.common|), Visited(e, o.index - 1);
    hide *;
    IndexInRange(e, o);
    CurrentParts(e, o.index);
    PartsAreLive(e, common, own, o);
    PartsAreLive(e, common, own, t);
    m1 := AssignsKeep(e, common, move, this_, rhs, m);
    AssignedIsValid(e, common, o.cells, this_ == rhs, move, t, m1.objects[this_]);
    SwitchRuns(e, true, move, own, this_, rhs, m1);
    m2 := AssignsKeep(e, own, move, this_, rhs, m1);
    OnlyTheseTwice(m.objects, m1.objects, m2.objects, this_, rhs);
    AfterUpdating(e, move, this_ == rhs, common, own, t, o, m1.objects[this_], m1.objects[rhs], m2.objects[this_], m2.objects[rhs]);
  }

  lemma AssignedToItself(move: bool, slots: seq<Slot>, o: Obj, o': Obj)
    requires Assigned(slots, o.cells, true, move, o, o')
    ensures Source(slots, move, o, o')
  {
  }

  /** The effect of copy or move assignment, self-assignment included. */
  ghost predicate AssignmentEffect(e: EnumDef, move: bool, this_: nat, rhs: nat, o: Objects, o': Objects)
    requires this_ in o && rhs in o
  {
    && OnlyThese(o, o', this_, rhs)
    && ValidObject(e, o'[this_])
    && (this_ != rhs ==> HasValue(e, o'[this_], o[rhs]))
    && LeftBehind(e, move, o[rhs], o'[rhs])
  }

  lemma SetSameIndex(m: Memory, id: nat)
    requires id in m.objects
    ensures SetIndex(m, id, m.objects[id].index) == m
  {
    assert SetIndex(m, id, m.objects[id].index).objects == m.objects;
  }

  lemma SameVariantBody(e: EnumDef, move: bool, this_: nat, rhs: nat, m: Memory, m1: Memory, m2: Memory)
    requires WellFormed(e) && this_ in m.objects && rhs in m.objects && m1.objects.Keys == m.objects.Keys
    requires m.objects[rhs].index != 0 && m1.objects[this_].index == m1.objects[rhs].index
    requires m.objects[this_].index != 0
    requires RunLeaves(e, Each(CommonSlots(|e.common|), true, move), this_, rhs, m) == Done(m1)
    requires RunInner(e, SwitchOnRhs(Cases(e, |e.variants|, true, move)), this_, rhs, m1) == Done(m2)
    ensures RunBody(e, AssignmentBody(e, false, move), this_, rhs, m) == Done(SetIndex(m2, this_, m2.objects[rhs].index))
  {
    hide RunLeaves, RunInner, RunInners, RunBody, Each, Cases, CommonSlots, WellFormed, SetIndex;
    var build, assign := SwitchOnRhs(Cases(e, |e.variants|, false, move)), SwitchOnRhs(Cases(e, |e.variants|, true, move));
    var choice := IfOtherVariant([DestroyVariant, build], [assign]);
    assert RunStmt(e, choice, this_, rhs, m1) == Done(m2) by {
      OneInner(e, assign, this_, rhs, m1);
    }
    BodyRuns(e, Verify(true), Do(Each(CommonSlots(|e.common|), true, move)), choice, this_, rhs, m, m1, m2);
  }

  /** With another variant in place, the first branch runs: the old variant ends, then the new one is built. */
  lemma OtherVariantIsReplaced(e: EnumDef, build: Inner, assign: Inner, this_: nat, rhs: nat, m: Memory, m1: Memory, m2: Memory)
    requires WellFormed(e) && this_ in m.objects && rhs in m.objects && m1.objects.Keys == m.objects.Keys
    requires m.objects[this_].index != m.objects[rhs].index
    requires RunInner(e, DestroyVariant, this_, rhs, m) == Done(m1) && RunInner(e, build, this_, rhs, m1) == Done(m2)
    ensures RunStmt(e, IfOtherVariant([DestroyVariant, build], [assign]), this_, rhs, m) == Done(m2)
  {
    hide RunInner, RunInners, WellFormed;
    TwoInners(e, DestroyVariant, build, this_, rhs, m, m1);
  }

  lemma OtherVariantBody(e: EnumDef, move: bool, this_: nat, rhs: nat, m: Memory, m1: Memory, m2: Memory, m3: Memory)
    requires WellFormed(e) && this_ in m.objects && rhs in m.objects
    requires m1.objects.Keys == m.objects.Keys && m2.objects.Keys == m.objects.Keys
    requires m.objects[rhs].index != 0 && m1.objects[this_].index != m1.objects[rhs].index
    requires m.objects[this_].index != 0
    requires RunLeaves(e, Each(CommonSlots(|e.common|), true, move), this_, rhs, m) == Done(m1)
    requires RunInner(e, DestroyVariant, this_, rhs, m1) == Done(m2)
    requires RunInner(e, SwitchOnRhs(Cases(e, |e.variants|, false, move)), this_, rhs, m2) == Done(m3)
    ensures RunBody(e, AssignmentBody(e, false, move), this_, rhs, m) == Done(SetIndex(m3, this_, m3.objects[rhs].index))
  {
    hide RunLeaves, RunInner, RunInners, RunBody, Each, Cases, CommonSlots, WellFormed, SetIndex;
    var build, assign := SwitchOnRhs(Cases(e, |e.variants|, false, move)), SwitchOnRhs(Cases(e, |e.variants|, true, move));
    var choice := IfOtherVariant([DestroyVariant, build], [assign]);
    OtherVariantIsReplaced(e, build, assign, this_, rhs, m1, m2, m3);
    BodyRuns(e, Verify(true), Do(Each(CommonSlots(|e.common|), true, move)), choice, this_, rhs, m, m1, m3);
  }

  lemma AssignsSameVariant(e: EnumDef, move: bool, this_: nat, rhs: nat, m: Memory) returns (m': Memory)
    requires Disciplined(e) && this_ in m.objects && rhs in m.objects
    requires ValidObject(e, m.objects[this_]) && ValidObject(e, m.objects[rhs])
    requires m.objects[rhs].index != 0 && m.objects[this_].index == m.objects[rhs].index
    ensures RunBody(e, AssignmentBody(e, false, move), this_, rhs, m) == Done(m')
    ensures AssignmentEffect(e, move, this_, rhs, m.objects, m'.objects)
  {
    assert WellFormed(e);
    hide Disciplined, Agreeing, WellFormed, ValidObject, HasValue, LeftBehind, RunBody, RunInner, RunLeaves, AssignmentBody, Each, Cases, CommonSlots;
    var m1, m2 := Updates(e, move, this_, rhs, m);
    SameVariantBody(e, move, this_, rhs, m, m1, m2);
    SetSameIndex(m2, this_);
    m' := m2;
  }

  lemma AssignsOtherVariant(e: EnumDef, move: bool, this_: nat, rhs: nat, m: Memory) returns (m': Memory)
    requires Disciplined(e) && this_ in m.objects && rhs in m.objects
    requires ValidObject(e, m.objects[this_]) && ValidObject(e, m.objects[rhs])
    requires m.objects[rhs].index != 0 && m.objects[this_].index != 0 && m.objects[this_].index != m.objects[rhs].index
    ensures RunBody(e, AssignmentBody(e, false, move), this_, rhs, m) == Done(m')
    ensures AssignmentEffect(e, move, this_, rhs, m.objects, m'.objects)
  {
    assert WellFormed(e);
    hide Disciplined, Agreeing, WellFormed, ValidObject, HasValue, LeftBehind, RunBody, RunInner, RunLeaves, AssignmentBody, Each, Cases, CommonSlots;
    var m1, m2, m3 := Replaces(e, move, this_, rhs, m);
    OtherVariantBody(e, move, this_, rhs, m, m1, m2, m3);
    m' := SetIndex(m3, this_, m3.objects[rhs].index);
  }

  /** Copy and move assignment. */
  lemma Assigns(e: EnumDef, move: bool, this_: nat, rhs: nat, m: Memory)
    requires Disciplined(e) && this_ in m.objects && rhs in m.objects
    requires ValidObject(e, m.objects[this_]) && ValidObject(e, m.objects[rhs])
    ensures var r := RunBody(e, AssignmentBody(e, false, move), this_, rhs, m);
            if m.objects[this_].index == 0 || m.objects[rhs].index == 0 then r == VerifyFailed
            else r.Done? && AssignmentEffect(e, move, this_, rhs, m.objects, r.m.objects)
  {
    if m.objects[this_].index == 0 || m.objects[rhs].index == 0 {
      var body := AssignmentBody(e, false, move);
    } else if m.objects[this_].index == m.objects[rhs].index {
      var m' := AssignsSameVariant(e, move, this_, rhs, m);
    } else {
      var m' := AssignsOtherVariant(e, move, this_, rhs, m);
    }
  }

  lemma OneInner(e: EnumDef, a: Inner, this_: nat, rhs: nat, m: Memory)
    requires WellFormed(e) && this_ in m.objects && rhs in m.objects && RunInner(e, a, this_, rhs, m).Done?
    ensures RunInners(e, [a], this_, rhs, m) == RunInner(e, a, this_, rhs, m)
  {
    assert [a][1..] == [];
  }

  lemma TwoInners(e: EnumDef, a: Inner, b: Inner, this_: nat, rhs: nat, m: Memory, m': Memory)
    requires WellFormed(e) && this_ in m.objects && rhs in m.objects
    requires RunInner(e, a, this_, rhs, m) == Done(m') && RunInner(e, b, this_, rhs, m').Done?
    ensures RunInners(e, [a, b], this_, rhs, m) == RunInner(e, b, this_, rhs, m')
  {
    assert [a, b][1..] == [b];
    OneInner(e, b, this_, rhs, m');
  }

  lemma AllEnded(e: EnumDef, common: seq<Slot>, own: seq<Slot>, o: Obj, o1: Obj, o2: Obj)
    requires ValidObject(e, o) && Parts(e, o.index, common, own) && Ended(e, common, o, o1) && Ended(e, own, o1, o2)
    ensures forall t :: t in o2.cells ==> !NeedsDestructor(e, t)
  {
  }

  lemma BetweenDestroys(e: EnumDef, common: seq<Slot>, own: seq<Slot>, o: Obj, o1: Obj)
    requires Parts(e, o.index, common, own) && Ended(e, common, o, o1) && forall s :: s in own ==> s in o.cells
    ensures forall s :: s in own ==> s in o1.cells
    ensures o1.index == o.index
  {
  }

  /** The destructor ends every non-trivial lifetime. */
  lemma Destructs(e: EnumDef, id: nat, m: Memory) returns (m': Memory)
    requires Disciplined(e) && id in m.objects && ValidObject(e, m.objects[id])
    ensures RunDestructor(e, id, m) == Done(m') && OnlyThese(m.objects, m'.objects, id, id)
    ensures forall t :: t in m'.objects[id].cells ==> !NeedsDestructor(e, t)
  {
    var o := m.objects[id];
    if o.index == 0 {
      m' := m;
    } else {
      var common, own := CommonSlots(|e.common|), Visited(e, o.index - 1);
      hide IsSlot, NeedsDestructor, ValidObject, WellFormed, NamesAgree, RunInner, RunLeaves, CommonSlots, Visited, Ended, Current, Compatible, Destroys;
      IndexInRange(e, o);
      CurrentParts(e, o.index);
      PartsAreLive(e, common, own, o);
      var m1 := DestroysEnd(e, common, id, m);
      BetweenDestroys(e, common, own, o, m1.objects[id]);
      DestroyRuns(e, own, id, m1);
      m' := DestroysEnd(e, own, id, m1);
      AllEnded(e, common, own, o, m1.objects[id], m'.objects[id]);
    }
  }

  lemma ConstructorOf(e: EnumDef, v: nat)
    requires Agreeing(e) && v < |e.variants|
    ensures MembersOf(e).constructors[v] == Constructor(v + 1, CommonSlots(|e.common|) + Visited(e, v))
    ensures Declared(e, v) == Visited(e, v)
  {
    ConstructorsAt(e, |e.variants|, v);
    FieldListsAgree(e, v);
  }

  lemma ConstructorRuns(e: EnumDef, id: nat, v: nat, args: map<Slot, int>, m: Memory)
    requires Agreeing(e) && Legal(e, Create(id, v, args), m)
    ensures forall s :: s in CommonSlots(|e.common|) + Visited(e, v) ==> s in args
    ensures Step(e, Create(id, v, args), m)
         == RunParams(e, CommonSlots(|e.common|) + Visited(e, v), args, id, SetIndex(WithNew(m, id), id, v + 1))
  {
    ConstructorOf(e, v);
    hide MembersOf, Declared, Visited, CommonSlots, RunParams, WellFormed, NamesAgree, Compatible;
  }

  lemma BeforeCreating(e: EnumDef, v: nat, common: seq<Slot>, own: seq<Slot>, o: Obj)
    requires Parts(e, v + 1, common, own) && o == Obj(v + 1, map[])
    ensures Room(e, common + own, o)
    ensures forall s :: s in common + own ==> IsSlot(e, s)
  {
    forall s | s in common + own ensures IsSlot(e, s) {
      assert Current(e, v + 1, s);
    }
  }

  lemma AfterCreating(e: EnumDef, v: nat, common: seq<Slot>, own: seq<Slot>, args: map<Slot, int>, o: Obj, o': Obj)
    requires v < |e.variants| && Parts(e, v + 1, common, own) && o == Obj(v + 1, map[])
    requires Gained(common + own, map s | s in args :: Some(args[s]), o, o')
    ensures ValidObject(e, o') && o'.index == v + 1
    ensures forall s :: Current(e, v + 1, s) ==> s in args && s in o'.cells && o'.cells[s] == Some(args[s])
  {
    forall s | Current(e, v + 1, s) ensures s in args && s in o'.cells && o'.cells[s] == Some(args[s]) {
      assert s in common + own;
    }
  }

  /** A constructor function builds the object from its arguments. */
  lemma Creates(e: EnumDef, id: nat, v: nat, args: map<Slot, int>, m: Memory) returns (m': Memory)
    requires Agreeing(e) && Legal(e, Create(id, v, args), m)
    ensures Step(e, Create(id, v, args), m) == Done(m')
    ensures OnlyThese(WithNew(m, id).objects, m'.objects, id, id)
    ensures ValidObject(e, m'.objects[id]) && m'.objects[id].index == v + 1
    ensures forall s :: Current(e, v + 1, s) ==> s in args && s in m'.objects[id].cells && m'.objects[id].cells[s] == Some(args[s])
  {
    var common, own := CommonSlots(|e.common|), Visited(e, v);
    var n := SetIndex(WithNew(m, id), id, v + 1);
    assert n.objects[id] == Obj(v + 1, map[]);
    assert OnlyThese(WithNew(m, id).objects, n.objects, id, id);
    ConstructorRuns(e, id, v, args, m);
    hide *;
    CurrentParts(e, v + 1);
    Joined(e, v + 1, common, own);
    BeforeCreating(e, v, common, own, n.objects[id]);
    m' := ParamsGain(e, common + own, args, id, n);
    OnlyTheseTwice(WithNew(m, id).objects, n.objects, m'.objects, id, id);
    AfterCreating(e, v, common, own, args, n.objects[id], m'.objects[id]);
  }

  lemma Joined(e: EnumDef, index: nat, a: seq<Slot>, b: seq<Slot>)
    requires Parts(e, index, a, b)
    ensures Compatible(a + b)
  {
    var c := a + b;
    forall i, j | 0 <= i < j < |c| ensures c[i] != c[j] && !Overlapping(c[i], c[j]) {
      if i < |a| {
        assert c[i] in a;
        if |a| <= j {
          assert c[j] in b;
        }
      } else {
        assert c[i] == b[i - |a|] && c[j] == b[j - |a|];
      }
    }
  }

  // ----- Every step, every program -----

  /** A member checks that the objects it reads from, and the one it assigns to, have a variant. */
  predicate ReadsUnset(op: Op, o: Objects) {
    match op
    case Declare(_) => false
    case Create(_, _, _) => false
    case Copy(_, from) => from in o && o[from].index == 0
    case Move(_, from) => from in o && o[from].index == 0
    case CopyAssign(id, from) => (id in o && o[id].index == 0) || (from in o && o[from].index == 0)
    case MoveAssign(id, from) => (id in o && o[id].index == 0) || (from in o && o[from].index == 0)
    case Drop(_) => false
  }

  /** What an operation means: the new value of its object, what is left of its operand, and nothing else. */
  ghost predicate Effect(e: EnumDef, op: Op, o: Objects, o': Objects) {
    match op
    case Declare(id) => o' == o[id := Obj(0, map[])]
    case Create(id, v, args) =>
      && o'.Keys == o.Keys + {id} && (forall i :: i in o && i != id ==> o'[i] == o[i])
      && o'[id].index == v + 1
      && forall s :: Current(e, v + 1, s) ==> s in args && s in o'[id].cells && o'[id].cells[s] == Some(args[s])
    case Copy(id, from) => Transferred(e, false, id, from, o, o') && o'[from] == o[from]
    case Move(id, from) => Transferred(e, true, id, from, o, o')
    case CopyAssign(id, from) => Transferred(e, false, id, from, o, o') && o'[from] == o[from]
    case MoveAssign(id, from) => Transferred(e, true, id, from, o, o')
    case Drop(id) => o' == o - {id}
  }

  ghost predicate Transferred(e: EnumDef, move: bool, id: nat, from: nat, o: Objects, o': Objects) {
    && from in o && o'.Keys == o.Keys + {id}
    && (forall i :: i in o && i != id && i != from ==> o'[i] == o[i])
    && (id != from ==> HasValue(e, o'[id], o[from]))
    && LeftBehind(e, move, o[from], o'[from])
  }

  lemma NewIsBalanced(e: EnumDef, m: Memory, id: nat)
    requires Balanced(e, m) && id !in m.objects
    ensures Balanced(e, WithNew(m, id))
  {
    var r := WithNew(m, id);
    forall i: nat, t: Slot ensures r.built[(i, t)] == r.destroyed[(i, t)] + Lives(e, r, i, t) {
      assert m.built[(i, t)] == m.destroyed[(i, t)] + Lives(e, m, i, t);
    }
  }

  lemma DroppedIsBalanced(e: EnumDef, m: Memory, id: nat)
    requires Balanced(e, m) && id in m.objects
    requires forall t :: t in m.objects[id].cells ==> !NeedsDestructor(e, t)
    ensures Balanced(e, m.(objects := m.objects - {id}))
  {
    var r := m.(objects := m.objects - {id});
    forall i: nat, t: Slot ensures r.built[(i, t)] == r.destroyed[(i, t)] + Lives(e, r, i, t) {
      assert m.built[(i, t)] == m.destroyed[(i, t)] + Lives(e, m, i, t);
    }
  }

  lemma CopyLeaves(e: EnumDef, o: Obj, o': Obj)
    requires LeftBehind(e, false, o, o')
    ensures o' == o
  {
    assert o'.cells == o.cells;
  }

  lemma TransfersKeepValid(e: EnumDef, move: bool, id: nat, from: nat, o: Objects, o': Objects)
    requires (forall i :: i in o ==> ValidObject(e, o[i])) && Transferred(e, move, id, from, o, o') && ValidObject(e, o'[id])
    ensures forall i :: i in o' ==> ValidObject(e, o'[i])
    ensures !move ==> o'[from] == o[from]
  {
    LeftBehindIsValid(e, move, o[from], o'[from]);
    if !move {
      CopyLeaves(e, o[from], o'[from]);
    }
  }

  lemma ConstructStep(e: EnumDef, move: bool, id: nat, from: nat, m: Memory)
    requires Disciplined(e) && Valid(e, m) && id !in m.objects && from in m.objects
    ensures var r := RunBody(e, AssignmentBody(e, true, move), id, from, WithNew(m, id));
            if m.objects[from].index == 0 then r == VerifyFailed
            else r.Done? && Valid(e, r.m) && Transferred(e, move, id, from, m.objects, r.m.objects) && (!move ==> r.m.objects[from] == m.objects[from])
  {
    Constructs(e, move, id, from, m);
    NewIsBalanced(e, m, id);
    hide RunBody, AssignmentBody, WellFormed, NamesAgree, ValidObject, HasValue, LeftBehind;
    var r := RunBody(e, AssignmentBody(e, true, move), id, from, WithNew(m, id));
    if m.objects[from].index != 0 {
      BodyBalances(e, AssignmentBody(e, true, move), id, from, WithNew(m, id));
      TransfersKeepValid(e, move, id, from, m.objects, r.m.objects);
    }
  }

  lemma EffectTransfers(e: EnumDef, move: bool, id: nat, from: nat, m: Memory, r: Memory)
    requires Valid(e, m) && id in m.objects && from in m.objects && Balanced(e, r)
    requires AssignmentEffect(e, move, id, from, m.objects, r.objects)
    ensures Valid(e, r) && Transferred(e, move, id, from, m.objects, r.objects)
    ensures !move ==> r.objects[from] == m.objects[from]
  {
    hide ValidObject, HasValue, LeftBehind, Balanced;
    assert r.objects.Keys == m.objects.Keys + {id};
    TransfersKeepValid(e, move, id, from, m.objects, r.objects);
  }

  lemma AssignStepIsSafe(e: EnumDef, move: bool, id: nat, from: nat, m: Memory)
    requires Disciplined(e) && Valid(e, m) && id in m.objects && from in m.objects
    ensures var r := RunBody(e, AssignmentBody(e, false, move), id, from, m);
            if m.objects[id].index == 0 || m.objects[from].index == 0 then r == VerifyFailed
            else r.Done? && Valid(e, r.m) && Transferred(e, move, id, from, m.objects, r.m.objects) && (!move ==> r.m.objects[from] == m.objects[from])
  {
    Assigns(e, move, id, from, m);
    assert Balanced(e, m) && WellFormed(e);
    hide *;
    var r := RunBody(e, AssignmentBody(e, false, move), id, from, m);
    if m.objects[id].index != 0 && m.objects[from].index != 0 {
      BodyBalances(e, AssignmentBody(e, false, move), id, from, m);
      EffectTransfers(e, move, id, from, m, r.m);
    }
  }

  lemma DestructorBalances(e: EnumDef, id: nat, m: Memory)
    requires WellFormed(e) && id in m.objects && Balanced(e, m) && RunDestructor(e, id, m).Done?
    ensures Balanced(e, RunDestructor(e, id, m).m)
  {
    hide RunLeaves, RunInner, Destroys, CommonSlots, WellFormed, Balanced, DestroyCases, Constructors, AssignmentBody;
    if m.objects[id].index != 0 {
      var leaves := Destroys(e, CommonSlots(|e.common|));
      LeavesBalance(e, leaves, id, id, m);
      InnerBalances(e, DestroyVariant, id, id, RunLeaves(e, leaves, id, id, m).m);
    }
  }

  lemma DropsObject(e: EnumDef, id: nat, m: Memory, r: Memory)
    requires Valid(e, m) && id in m.objects && Balanced(e, r) && OnlyThese(m.objects, r.objects, id, id)
    requires forall t :: t in r.objects[id].cells ==> !NeedsDestructor(e, t)
    ensures var m' := r.(objects := r.objects - {id});
            Valid(e, m') && m'.objects == m.objects - {id}
  {
    hide ValidObject;
    DroppedIsBalanced(e, r, id);
    hide Balanced;
    assert r.objects - {id} == m.objects - {id};
  }

  lemma DropStep(e: EnumDef, id: nat, m: Memory)
    requires Disciplined(e) && Valid(e, m) && id in m.objects
    ensures var r := Step(e, Drop(id), m);
            r.Done? && Valid(e, r.m) && Effect(e, Drop(id), m.objects, r.m.objects)
  {
    hide ValidObject, Balanced, WellFormed, NamesAgree, RunDestructor, OnlyThese, NeedsDestructor;
    var m' := Destructs(e, id, m);
    DestructorBalances(e, id, m);
    DropsObject(e, id, m, m');
  }

  lemma CreatesObject(e: EnumDef, id: nat, m: Memory, r: Memory)
    requires Valid(e, m) && id !in m.objects && Balanced(e, r)
    requires OnlyThese(WithNew(m, id).objects, r.objects, id, id) && ValidObject(e, r.objects[id])
    ensures Valid(e, r) && r.objects.Keys == m.objects.Keys + {id}
    ensures forall i :: i in m.objects && i != id ==> r.objects[i] == m.objects[i]
  {
    hide ValidObject, Balanced;
  }

  lemma CreateStep(e: EnumDef, id: nat, v: nat, args: map<Slot, int>, m: Memory)
    requires Agreeing(e) && Valid(e, m) && Legal(e, Create(id, v, args), m)
    ensures var r := Step(e, Create(id, v, args), m);
            r.Done? && Valid(e, r.m) && Effect(e, Create(id, v, args), m.objects, r.m.objects)
  {
    hide Step, WellFormed, NamesAgree, ValidObject, Balanced, Current, RunParams, CommonSlots, Visited, Declared, OnlyThese;
    var m' := Creates(e, id, v, args, m);
    ConstructorRuns(e, id, v, args, m);
    NewIsBalanced(e, m, id);
    SetIndexBalances(e, WithNew(m, id), id, v + 1);
    ParamsBalance(e, CommonSlots(|e.common|) + Visited(e, v), args, id, SetIndex(WithNew(m, id), id, v + 1));
    CreatesObject(e, id, m, m');
  }

  /**
   In a valid memory every legal operation succeeds unless it reads an object without a variant,
   which its check reports; it has its intended effect and leaves a valid memory.
   */
  lemma EveryStepIsSafe(e: EnumDef, op: Op, m: Memory)
    requires Disciplined(e) && Valid(e, m) && Legal(e, op, m)
    ensures var r := Step(e, op, m);
            if ReadsUnset(op, m.objects) then r == VerifyFailed
            else r.Done? && Valid(e, r.m) && Effect(e, op, m.objects, r.m.objects)
  {
    hide RunBody, AssignmentBody, RunDestructor, Destroys, Constructors, DestroyCases, ValidObject, Balanced, Transferred;
    match op
    case Declare(id) =>
      NewIsBalanced(e, m, id);
      NewIsValid(e);
    case Create(id, v, args) => CreateStep(e, id, v, args, m);
    case Copy(id, from) => ConstructStep(e, false, id, from, m);
    case Move(id, from) => ConstructStep(e, true, id, from, m);
    case CopyAssign(id, from) => AssignStepIsSafe(e, false, id, from, m);
    case MoveAssign(id, from) => AssignStepIsSafe(e, true, id, from, m);
    case Drop(id) => DropStep(e, id, m);
  }

  lemma NewIsValid(e: EnumDef)
    ensures ValidObject(e, Obj(0, map[]))
  {
  }

  const START := Memory(map[], multiset{}, multiset{})

  lemma {:induction false} EveryProgramKeepsValid(e: EnumDef, ops: seq<Op>, m: Memory)
    requires Disciplined(e) && Valid(e, m) && AllLegal(e, ops, m)
    ensures var r := RunProgram(e, ops, m);
            r != Fault && (r.Done? ==> Valid(e, r.m))
  {
    hide Step, Effect, Valid, ReadsUnset, Legal;
    if ops != [] {
      assert WellFormed(e) && Legal(e, ops[0], m);
      EveryStepIsSafe(e, ops[0], m);
      var r := Step(e, ops[0], m);
      if r.Done? {
        EveryProgramKeepsValid(e, ops[1..], r.m);
      }
    }
  }

  /**
   Nothing dead was touched and nothing live built over; the live non-trivial slots are those of the
   current variants, each built exactly once more than it was destroyed; and if no object is left,
   nothing is left alive.
   */
  ghost predicate IsSafe(e: EnumDef, r: Run) {
    && r != Fault
    && (r.Done? ==> Valid(e, r.m))
    && (r.Done? && r.m.objects == map[] ==> r.m.built == r.m.destroyed)
  }

  /**
   For every enum that the type checker hands over, if no field is of a type whose destructor has no
   name: every program of legal operations, on any number of objects, is safe.
   */
  lemma EveryProgramIsSafe(parsed: ParsedEnum, ops: seq<Op>)
    requires DestructorsNamed(CheckedEnum(parsed)) && AllLegal(CheckedEnum(parsed), ops, START)
    ensures IsSafe(CheckedEnum(parsed), RunProgram(CheckedEnum(parsed), ops, START))
  {
    var e := CheckedEnum(parsed);
    CheckedEnumsAgree(parsed);
    assert Disciplined(e);
    hide CheckedEnum, Agreeing, Disciplined, DestructorsNamed;
    assert Valid(e, START);
    EveryProgramKeepsValid(e, ops, START);
    var r := RunProgram(e, ops, START);
    if r.Done? && r.m.objects == map[] {
      forall p: (nat, Slot) ensures r.m.built[p] == r.m.destroyed[p] {
        assert r.m.built[(p.0, p.1)] == r.m.destroyed[(p.0, p.1)] + Lives(e, r.m, p.0, p.1);
      }
      assert r.m.built == r.m.destroyed;
    }
  }

  // ----- Fields whose destructor has no name -----

  /** Destructor calls build nothing, and leave out what they have no name for. */
  lemma {:induction false} DestroysSpare(e: EnumDef, slots: seq<Slot>, s: Slot, id: nat, m: Memory)
    requires id in m.objects && !HasDestructor(e, s)
    ensures var r := RunLeaves(e, Destroys(e, slots), id, id, m);
            && !r.VerifyFailed?
            && (r.Done? ==> r.m.built == m.built && r.m.destroyed[(id, s)] == m.destroyed[(id, s)]
                            && r.m.objects[id].index == m.objects[id].index)
  {
    if slots != [] {
      var front, last := slots[..|slots| - 1], slots[|slots| - 1];
      DestroysSpare(e, front, s, id, m);
      if HasDestructor(e, last) {
        var leaves := Destroys(e, slots);
        assert leaves[..|leaves| - 1] == Destroys(e, front) && leaves[|leaves| - 1] == Destroy(last);
      } else {
        assert Destroys(e, slots) == Destroys(e, front);
      }
    }
  }

  lemma DropSpares(e: EnumDef, s: Slot, id: nat, m: Memory)
    requires WellFormed(e) && id in m.objects && m.objects[id].index <= |e.variants| && !HasDestructor(e, s)
    ensures var r := RunDestructor(e, id, m);
            && !r.VerifyFailed?
            && (r.Done? ==> r.m.built == m.built && r.m.destroyed[(id, s)] == m.destroyed[(id, s)])
  {
    if m.objects[id].index != 0 {
      DestroysSpare(e, CommonSlots(|e.common|), s, id, m);
      var r := RunLeaves(e, MembersOf(e).destroyCommon, id, id, m);
      if r.Done? {
        var own := Visited(e, m.objects[id].index - 1);
        DestroyRuns(e, own, id, r.m);
        DestroysSpare(e, own, s, id, r.m);
      }
    }
  }

  /** A new object is the only one, and each of its slots was built once more than it was destroyed. */
  lemma FirstObject(e: EnumDef, s: Slot, v: nat, args: map<Slot, int>) returns (m: Memory)
    requires Agreeing(e) && v < |e.variants| && NeedsDestructor(e, s) && (s.Of? ==> s.variant == v)
    requires Legal(e, Create(0, v, args), START)
    ensures Step(e, Create(0, v, args), START) == Done(m)
    ensures m.objects.Keys == {0} && m.objects[0].index == v + 1
    ensures m.built[(0, s)] == m.destroyed[(0, s)] + 1
  {
    assert Valid(e, START);
    CreateStep(e, 0, v, args, START);
    m := Step(e, Create(0, v, args), START).m;
    var m' := Creates(e, 0, v, args, START);
    ConstructorRuns(e, 0, v, args, START);
    assert m == m' && m.objects.Keys == {0} && m.objects[0].index == v + 1;
    hide Step, CommonSlots, Declared, RunParams, Agreeing;
    assert Current(e, v + 1, s) && s in m.objects[0].cells;
    assert Lives(e, m, 0, s) == 1;
  }

  /** A new object is dropped at once: a slot that the destructor has no name for stays alive. */
  lemma NamelessIsLeaked(e: EnumDef, s: Slot, v: nat) returns (ops: seq<Op>)
    requires Agreeing(e) && v < |e.variants| && NeedsDestructor(e, s) && !HasDestructor(e, s)
    requires s.Of? ==> s.variant == v
    ensures AllLegal(e, ops, START) && !IsSafe(e, RunProgram(e, ops, START))
  {
    var args := map slot | slot in CommonSlots(|e.common|) + Declared(e, v) :: 0;
    var create := Create(0, v, args);
    ops := [create, Drop(0)];
    assert Legal(e, create, START);
    var m := FirstObject(e, s, v, args);
    DropSpares(e, s, 0, m);
    assert Legal(e, Drop(0), m);
    TwoSteps(e, create, Drop(0), START, m);
    DroppedUnsafe(e, s, m);
    hide *;
  }

  lemma DroppedUnsafe(e: EnumDef, s: Slot, m: Memory)
    requires WellFormed(e) && m.objects.Keys == {0} && m.built[(0, s)] == m.destroyed[(0, s)] + 1
    requires var r := RunDestructor(e, 0, m);
             !r.VerifyFailed? && (r.Done? ==> r.m.built == m.built && r.m.destroyed[(0, s)] == m.destroyed[(0, s)])
    ensures Legal(e, Drop(0), m) && !IsSafe(e, Step(e, Drop(0), m))
  {
    hide RunDestructor, WellFormed, Valid;
    var r := RunDestructor(e, 0, m);
    if r.Done? {
      assert r.m.objects - {0} == map[];
    }
  }

  lemma TwoSteps(e: EnumDef, a: Op, b: Op, m: Memory, m': Memory)
    requires WellFormed(e) && Legal(e, a, m) && Step(e, a, m) == Done(m') && Legal(e, b, m')
    ensures AllLegal(e, [a, b], m) && RunProgram(e, [a, b], m) == Step(e, b, m')
  {
    hide Step, Legal, WellFormed;
    OneStep(e, b, m');
    assert [a, b][1..] == [b];
  }

  lemma OneStep(e: EnumDef, op: Op, m: Memory)
    requires WellFormed(e) && Legal(e, op, m)
    ensures AllLegal(e, [op], m) && RunProgram(e, [op], m) == Step(e, op, m)
  {
    hide Step, Legal, WellFormed;
    assert [op][1..] == [];
  }

  /** All programs over an enum are safe exactly when no field is of a type whose destructor has no name. */
  lemma SafeExactlyWhen(parsed: ParsedEnum)
    requires parsed.variants != []
    ensures var e := CheckedEnum(parsed);
            (forall ops :: AllLegal(e, ops, START) ==> IsSafe(e, RunProgram(e, ops, START))) <==> DestructorsNamed(e)
  {
    var e := CheckedEnum(parsed);
    if DestructorsNamed(e) {
      forall ops | AllLegal(e, ops, START) ensures IsSafe(e, RunProgram(e, ops, START)) {
        EveryProgramIsSafe(parsed, ops);
      }
    } else {
      CheckedEnumsAgree(parsed);
      var s :| NeedsDestructor(e, s) && !HasDestructor(e, s);
      var ops := NamelessIsLeaked(e, s, if s.Of? then s.variant else 0);
    }
  }

  /** `enum E { A(fn() -> void) }`, the smallest enum of the other kind. */
  lemma FunctionFieldIsLeaked()
    ensures !DestructorsNamed(CheckedEnum(ParsedEnum([], [TypedVariant(Nameless)])))
  {
    var e := CheckedEnum(ParsedEnum([], [TypedVariant(Nameless)]));
    assert NeedsDestructor(e, Of(0, 0)) && !HasDestructor(e, Of(0, 0));
  }
}
