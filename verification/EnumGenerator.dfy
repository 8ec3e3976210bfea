/** The generator's loops over an enum's fields and variants, as they append one statement at a time. */
module EnumGenerator {
  import opened TaggedUnion

  method ForEnumVariants(e: EnumDef, assign: bool, move: bool) returns (cases: seq<seq<Leaf>>)
    requires WellFormed(e)
    ensures cases == Cases(e, |e.variants|, assign, move)
  {
    cases := [];
    var variantIndex := 0;
    while variantIndex < |e.variants|
      invariant variantIndex <= |e.variants|
      invariant cases == Cases(e, variantIndex, assign, move)
    {
      var leaves := ForVariantFields(e, variantIndex, assign, move);
      cases := cases + [leaves];
      variantIndex := variantIndex + 1;
    }
  }

  method ForVariantFields(e: EnumDef, v: nat, assign: bool, move: bool) returns (leaves: seq<Leaf>)
    requires WellFormed(e) && v < |e.variants|
    ensures leaves == Each(Visited(e, v), assign, move)
  {
    leaves := [];
    match e.variants[v] {
      case Untyped =>
      case Typed(_) =>
        leaves := [if assign then Assign(Of(v, 0), move) else New(Of(v, 0), move)];
        assert [Of(v, 0)][..0] == [];
      case StructLike(fields) =>
        var field := |e.common|;
        assert leaves == Each(RangeFrom(v, |e.common|, field), assign, move);
        hide RangeFrom, Each;
        while field < |fields|
          invariant |e.common| <= field <= |fields|
          invariant leaves == Each(RangeFrom(v, |e.common|, field), assign, move)
        {
          RangeOneMore(v, |e.common|, field);
          EachOneMore(RangeFrom(v, |e.common|, field), Of(v, field), assign, move);
          leaves := leaves + [if assign then Assign(Of(v, field), move) else New(Of(v, field), move)];
          field := field + 1;
        }
    }
  }

  lemma {:induction false} RangeOneMore(v: nat, i: nat, n: nat)
    requires i <= n
    ensures RangeFrom(v, i, n + 1) == RangeFrom(v, i, n) + [Of(v, n)]
    decreases n - i
  {
    if i < n {
      RangeOneMore(v, i + 1, n);
      assert RangeFrom(v, i, n) + [Of(v, n)] == [Of(v, i)] + (RangeFrom(v, i + 1, n) + [Of(v, n)]);
    }
  }

  lemma EachOneMore(slots: seq<Slot>, slot: Slot, assign: bool, move: bool)
    ensures Each(slots + [slot], assign, move) == Each(slots, assign, move) + [if assign then Assign(slot, move) else New(slot, move)]
  {
    assert (slots + [slot])[..|slots|] == slots;
  }

  method ForCommonFields(e: EnumDef, assign: bool, move: bool) returns (leaves: seq<Leaf>)
    ensures leaves == Each(CommonSlots(|e.common|), assign, move)
  {
    leaves := [];
    assert leaves == Each(CommonSlots(0), assign, move);
    hide CommonSlots, Each;
    var field := 0;
    while field < |e.common|
      invariant field <= |e.common|
      invariant leaves == Each(CommonSlots(field), assign, move)
    {
      CommonOneMore(field);
      EachOneMore(CommonSlots(field), Common(field), assign, move);
      leaves := leaves + [if assign then Assign(Common(field), move) else New(Common(field), move)];
      field := field + 1;
    }
  }

  method CodegenAssignmentBody(e: EnumDef, isConstructor: bool, useMove: bool) returns (body: seq<Stmt>)
    requires WellFormed(e)
    ensures body == AssignmentBody(e, isConstructor, useMove)
  {
    body := [Verify(!isConstructor)];
    var common := ForCommonFields(e, !isConstructor, useMove);
    body := body + [Do(common)];
    var build := ForEnumVariants(e, false, useMove);
    if isConstructor {
      body := body + [Then(SwitchOnRhs(build))];
    } else {
      var assign := ForEnumVariants(e, true, useMove);
      body := body + [IfOtherVariant([DestroyVariant, SwitchOnRhs(build)], [SwitchOnRhs(assign)])];
    }
    body := body + [TakeIndex];
  }

  /** The declared fields per variant, filtered by a set of common field names. */
  method CodegenFieldLists(e: EnumDef) returns (lists: seq<seq<Slot>>)
    ensures |lists| == |e.variants|
    ensures forall v :: 0 <= v < |lists| ==> lists[v] == Declared(e, v)
  {
    var commonFieldNames: set<string> := {};
    var i := 0;
    while i < |e.common|
      invariant i <= |e.common|
      invariant forall name :: name in commonFieldNames <==> IsCommonName(e.common[..i], name)
    {
      commonFieldNames := commonFieldNames + {e.common[i].codegenName};
      assert forall name :: IsCommonName(e.common[..i + 1], name) <==> IsCommonName(e.common[..i], name) || name == e.common[i].codegenName by {
        NamesOneMore(e.common, i);
      }
      i := i + 1;
    }
    assert e.common[..i] == e.common;
    lists := [];
    var variantIndex := 0;
    while variantIndex < |e.variants|
      invariant |lists| == variantIndex <= |e.variants|
      invariant forall v :: 0 <= v < variantIndex ==> lists[v] == Declared(e, v)
    {
      var slots: seq<Slot> := [];
      match e.variants[variantIndex] {
        case Untyped =>
        case Typed(_) => slots := [Of(variantIndex, 0)];
        case StructLike(fields) =>
          var field := 0;
          while field < |fields|
            invariant field <= |fields|
            invariant slots + KeptFrom(e.common, variantIndex, fields, field) == KeptFrom(e.common, variantIndex, fields, 0)
          {
            ghost var rest := KeptFrom(e.common, variantIndex, fields, field + 1);
            if fields[field].name !in commonFieldNames {
              assert slots + ([Of(variantIndex, field)] + rest) == (slots + [Of(variantIndex, field)]) + rest;
              slots := slots + [Of(variantIndex, field)];
            } else {
              assert [] + rest == rest;
            }
            field := field + 1;
          }
          assert slots + [] == slots;
      }
      lists := lists + [slots];
      variantIndex := variantIndex + 1;
    }
  }

  lemma NamesOneMore(common: seq<Field>, i: nat)
    requires i < |common|
    ensures forall name :: IsCommonName(common[..i + 1], name) <==> IsCommonName(common[..i], name) || name == common[i].codegenName
  {
    forall name ensures IsCommonName(common[..i + 1], name) <==> IsCommonName(common[..i], name) || name == common[i].codegenName {
      if IsCommonName(common[..i], name) {
        var k :| 0 <= k < i && common[..i][k].codegenName == name;
        assert common[..i + 1][k].codegenName == name;
      }
      if name == common[i].codegenName {
        assert common[..i + 1][i].codegenName == name;
      }
      if IsCommonName(common[..i + 1], name) && name != common[i].codegenName {
        var k :| 0 <= k < i + 1 && common[..i + 1][k].codegenName == name;
        assert common[..i][k].codegenName == name;
      }
    }
  }

  method CodegenConstructors(e: EnumDef, lists: seq<seq<Slot>>) returns (constructors: seq<Constructor>)
    requires |lists| == |e.variants|
    requires forall v :: 0 <= v < |lists| ==> lists[v] == Declared(e, v)
    ensures constructors == Constructors(e, |e.variants|)
  {
    constructors := [];
    var variantIndex := 0;
    while variantIndex < |lists|
      invariant variantIndex <= |lists|
      invariant constructors == Constructors(e, variantIndex)
    {
      var params: seq<Slot> := [];
      var field := 0;
      while field < |e.common|
        invariant field <= |e.common|
        invariant params == CommonSlots(field)
      {
        params := params + [Common(field)];
        field := field + 1;
      }
      constructors := constructors + [Constructor(variantIndex + 1, params + lists[variantIndex])];
      variantIndex := variantIndex + 1;
    }
  }

  method CodegenDestroyVariant(e: EnumDef) returns (cases: seq<seq<Leaf>>)
    requires WellFormed(e)
    ensures cases == DestroyCases(e, |e.variants|)
  {
    cases := [];
    var variantIndex := 0;
    while variantIndex < |e.variants|
      invariant variantIndex <= |e.variants|
      invariant cases == DestroyCases(e, variantIndex)
    {
      var leaves := CodegenDestroy(e, variantIndex);
      cases := cases + [leaves];
      variantIndex := variantIndex + 1;
    }
  }

  method CodegenDestroy(e: EnumDef, v: nat) returns (leaves: seq<Leaf>)
    requires WellFormed(e) && v < |e.variants|
    ensures leaves == Destroys(e, Visited(e, v))
  {
    leaves := [];
    match e.variants[v] {
      case Untyped =>
      case Typed(t) =>
        if t.Named? {
          leaves := [Destroy(Of(v, 0))];
        }
        assert [Of(v, 0)][..0] == [];
      case StructLike(fields) =>
        var field := |e.common|;
        assert leaves == Destroys(e, RangeFrom(v, |e.common|, field));
        hide RangeFrom, Destroys;
        while field < |fields|
          invariant |e.common| <= field <= |fields|
          invariant leaves == Destroys(e, RangeFrom(v, |e.common|, field))
        {
          RangeOneMore(v, |e.common|, field);
          DestroysOneMore(e, RangeFrom(v, |e.common|, field), Of(v, field));
          if fields[field].t.Named? {
            leaves := leaves + [Destroy(Of(v, field))];
          }
          field := field + 1;
        }
    }
  }

  lemma DestroysOneMore(e: EnumDef, slots: seq<Slot>, slot: Slot)
    ensures Destroys(e, slots + [slot]) == Destroys(e, slots) + if HasDestructor(e, slot) then [Destroy(slot)] else []
  {
    assert (slots + [slot])[..|slots|] == slots;
  }

  method CodegenDestructorBody(e: EnumDef) returns (leaves: seq<Leaf>)
    ensures leaves == Destroys(e, CommonSlots(|e.common|))
  {
    leaves := [];
    assert leaves == Destroys(e, CommonSlots(0));
    hide Destroys, CommonSlots;
    var field := 0;
    while field < |e.common|
      invariant field <= |e.common|
      invariant leaves == Destroys(e, CommonSlots(field))
    {
      CommonOneMore(field);
      DestroysOneMore(e, CommonSlots(field), Common(field));
      if e.common[field].t.Named? {
        leaves := leaves + [Destroy(Common(field))];
      }
      field := field + 1;
    }
  }

  lemma CommonOneMore(n: nat)
    ensures CommonSlots(n + 1) == CommonSlots(n) + [Common(n)]
  {
  }

  method CodegenMembers(e: EnumDef) returns (members: Members)
    requires WellFormed(e)
    ensures members == MembersOf(e)
  {
    var lists := CodegenFieldLists(e);
    var constructors := CodegenConstructors(e, lists);
    var copyAssign := CodegenAssignmentBody(e, false, false);
    var copyConstruct := CodegenAssignmentBody(e, true, false);
    var moveAssign := CodegenAssignmentBody(e, false, true);
    var moveConstruct := CodegenAssignmentBody(e, true, true);
    var destroyCommon := CodegenDestructorBody(e);
    var destroyVariant := CodegenDestroyVariant(e);
    members := Members(constructors, copyAssign, copyConstruct, moveAssign, moveConstruct, destroyVariant, destroyCommon);
  }
}
