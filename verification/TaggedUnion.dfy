/**
 The special members that the generator emits for a sum enum (constructors, copy, move,
 assignment, destructor), run on a memory in which every field slot is dead or live.

 Nothing is emitted to end the lifetime of a slot whose type has no `destructor_name`; where the
 type is trivial that is right, and building a slot of another variant over it ends it silently.
 */
module TaggedUnion {
  import opened Wrappers

  /**
   What counts of a field's type: it is trivial in C++; or it is not and `destructor_name` has a name
   for it; or it is not and has none, like the type of functions.
   */
  datatype FieldType = Trivial | Named | Nameless

  /** A field has a source name and the name used in the emitted code; they may differ. */
  datatype Field = Field(name: string, codegenName: string, t: FieldType)

  datatype VariantDef =
    | Untyped
    | Typed(t: FieldType)
    | StructLike(fields: seq<Field>)

  datatype EnumDef = EnumDef(common: seq<Field>, variants: seq<VariantDef>)

  /** A common field, or field number `field` of variant number `variant`. */
  datatype Slot = Common(field: nat) | Of(variant: nat, field: nat)

  /** The type checker lists the common fields first in every struct-like variant. */
  predicate WellFormed(e: EnumDef) {
    forall v :: 0 <= v < |e.variants| && e.variants[v].StructLike? ==> e.common <= e.variants[v].fields
  }

  /** Membership in the set of common field names, which holds emitted names. */
  predicate IsCommonName(common: seq<Field>, name: string) {
    exists i :: 0 <= i < |common| && common[i].codegenName == name
  }

  // ----- The two ways of choosing a variant's own fields -----

  /** What the declaration and the constructors list: fields whose source name is no common field's emitted name. */
  function Declared(e: EnumDef, v: nat): seq<Slot>
    requires v < |e.variants|
  {
    match e.variants[v]
    case Untyped => []
    case Typed(_) => [Of(v, 0)]
    case StructLike(fields) => KeptFrom(e.common, v, fields, 0)
  }

  function KeptFrom(common: seq<Field>, v: nat, fields: seq<Field>, i: nat): seq<Slot>
    requires i <= |fields|
    decreases |fields| - i
  {
    if i == |fields| then []
    else (if IsCommonName(common, fields[i].name) then [] else [Of(v, i)]) + KeptFrom(common, v, fields, i + 1)
  }

  lemma {:induction false} KeptMembers(common: seq<Field>, v: nat, fields: seq<Field>, i: nat)
    requires i <= |fields|
    ensures forall s :: s in KeptFrom(common, v, fields, i) <==>
              s.Of? && s.variant == v && i <= s.field < |fields| && !IsCommonName(common, fields[s.field].name)
    decreases |fields| - i
  {
    if i < |fields| {
      KeptMembers(common, v, fields, i + 1);
    }
  }

  /** What assignment and destruction visit: the fields after the common ones. */
  function Visited(e: EnumDef, v: nat): seq<Slot>
    requires WellFormed(e) && v < |e.variants|
  {
    match e.variants[v]
    case Untyped => []
    case Typed(_) => [Of(v, 0)]
    case StructLike(fields) => RangeFrom(v, |e.common|, |fields|)
  }

  function RangeFrom(v: nat, i: nat, n: nat): seq<Slot>
    requires i <= n
    decreases n - i
  {
    if i == n then [] else [Of(v, i)] + RangeFrom(v, i + 1, n)
  }

  lemma {:induction false} RangeMembers(v: nat, i: nat, n: nat)
    requires i <= n
    ensures forall s :: s in RangeFrom(v, i, n) <==> s.Of? && s.variant == v && i <= s.field < n
    ensures Compatible(RangeFrom(v, i, n))
    decreases n - i
  {
    if i < n {
      RangeMembers(v, i + 1, n);
    }
  }

  /** Exactly the common fields carry a name that counts as common. */
  predicate NamesAgree(e: EnumDef, v: nat)
    requires v < |e.variants|
  {
    e.variants[v].StructLike? ==>
      forall i :: 0 <= i < |e.variants[v].fields| ==> (IsCommonName(e.common, e.variants[v].fields[i].name) <==> i < |e.common|)
  }

  predicate Agreeing(e: EnumDef) {
    WellFormed(e) && forall v :: 0 <= v < |e.variants| ==> NamesAgree(e, v)
  }

  /** The two choices differ if a common field were renamed, or a name were repeated; in no other case. */
  lemma FieldListsAgree(e: EnumDef, v: nat)
    requires WellFormed(e) && v < |e.variants|
    ensures Declared(e, v) == Visited(e, v) <==> NamesAgree(e, v)
  {
    var d := e.variants[v];
    if d.StructLike? {
      var n := |d.fields|;
      if NamesAgree(e, v) {
        KeptIsRange(e.common, v, d.fields, 0);
      } else {
        KeptMembers(e.common, v, d.fields, 0);
        RangeMembers(v, |e.common|, n);
        var i :| 0 <= i < n && (IsCommonName(e.common, d.fields[i].name) <==> !(i < |e.common|));
        assert Of(v, i) in KeptFrom(e.common, v, d.fields, 0) <==> !IsCommonName(e.common, d.fields[i].name);
        assert Of(v, i) in RangeFrom(v, |e.common|, n) <==> |e.common| <= i;
      }
    }
  }

  lemma {:induction false} KeptIsRange(common: seq<Field>, v: nat, fields: seq<Field>, i: nat)
    requires i <= |fields| && |common| <= |fields|
    requires forall k :: i <= k < |fields| ==> (IsCommonName(common, fields[k].name) <==> k < |common|)
    ensures KeptFrom(common, v, fields, i) == RangeFrom(v, if i < |common| then |common| else i, |fields|)
    decreases |fields| - i
  {
    if i < |fields| {
      KeptIsRange(common, v, fields, i + 1);
    }
  }

  // ----- What the front end hands over -----

  /** A field as it is parsed: attributes, and with them other names, are rejected on enum fields. */
  datatype Param = Param(name: string, t: FieldType)

  datatype ParsedVariant = PlainVariant | TypedVariant(t: FieldType) | StructVariant(params: seq<Param>)

  datatype ParsedEnum = ParsedEnum(common: seq<Param>, variants: seq<ParsedVariant>)

  function CheckedField(param: Param): Field {
    Field(param.name, param.name, param.t)
  }

  function CheckedFields(params: seq<Param>): (fields: seq<Field>)
    ensures |fields| == |params| && forall i :: 0 <= i < |params| ==> fields[i] == CheckedField(params[i])
  {
    if params == [] then [] else [CheckedField(params[0])] + CheckedFields(params[1..])
  }

  /** A name seen before is reported, and its field is left out. */
  function OwnFields(params: seq<Param>, seen: set<string>): seq<Field> {
    if params == [] then []
    else if params[0].name in seen then OwnFields(params[1..], seen)
    else [CheckedField(params[0])] + OwnFields(params[1..], seen + {params[0].name})
  }

  function CheckedVariant(common: seq<Param>, v: ParsedVariant): VariantDef {
    match v
    case PlainVariant => Untyped
    case TypedVariant(t) => Typed(t)
    case StructVariant(params) =>
      StructLike(CheckedFields(common) + OwnFields(params, set i | 0 <= i < |common| :: common[i].name))
  }

  function CheckedEnum(parsed: ParsedEnum): (e: EnumDef)
    ensures WellFormed(e)
  {
    EnumDef(CheckedFields(parsed.common), seq(|parsed.variants|, i requires 0 <= i < |parsed.variants| => CheckedVariant(parsed.common, parsed.variants[i])))
  }

  lemma {:induction false} OwnFieldsAreNew(params: seq<Param>, seen: set<string>)
    ensures forall i :: 0 <= i < |OwnFields(params, seen)| ==> OwnFields(params, seen)[i].name !in seen
    ensures forall i, j :: 0 <= i < j < |OwnFields(params, seen)| ==> OwnFields(params, seen)[i].name != OwnFields(params, seen)[j].name
  {
    if params != [] {
      if params[0].name in seen {
        OwnFieldsAreNew(params[1..], seen);
      } else {
        OwnFieldsAreNew(params[1..], seen + {params[0].name});
      }
    }
  }

  /** The parameter's name is not a common one, and none before it has the same. */
  predicate IsNew(params: seq<Param>, seen: set<string>, i: nat)
    requires i < |params|
  {
    params[i].name !in seen && forall j :: 0 <= j < i ==> params[j].name != params[i].name
  }

  /** The fields with new names among the first `n`, in order. */
  function NewFields(params: seq<Param>, seen: set<string>, n: nat): seq<Field>
    requires n <= |params|
  {
    if n == 0 then []
    else NewFields(params, seen, n - 1) + if IsNew(params, seen, n - 1) then [CheckedField(params[n - 1])] else []
  }

  lemma {:induction false} OwnFieldsExactly(params: seq<Param>, seen: set<string>)
    ensures OwnFields(params, seen) == NewFields(params, seen, |params|)
  {
    if params != [] {
      NewFieldsFrom(params, seen, |params|);
      OwnFieldsExactly(params[1..], seen + {params[0].name});
      assert params[0].name in seen ==> seen + {params[0].name} == seen;
    }
  }

  lemma {:induction false} NewFieldsFrom(params: seq<Param>, seen: set<string>, n: nat)
    requires 0 < n <= |params|
    ensures NewFields(params, seen, n) ==
            (if params[0].name in seen then [] else [CheckedField(params[0])])
            + NewFields(params[1..], seen + {params[0].name}, n - 1)
  {
    if n == 1 {
      assert NewFields(params, seen, 0) == [];
    } else {
      NewFieldsFrom(params, seen, n - 1);
      NewBehind(params, seen, n - 1);
      hide IsNew;
    }
  }

  lemma NewBehind(params: seq<Param>, seen: set<string>, i: nat)
    requires 0 < i < |params|
    ensures IsNew(params, seen, i) <==> IsNew(params[1..], seen + {params[0].name}, i - 1)
  {
    var more := params[1..];
    assert forall j :: 0 < j < i ==> params[j] == more[j - 1];
    assert forall j :: 0 <= j < i - 1 ==> more[j] == params[j + 1];
  }

  /**
   What is handed over: the common fields as declared, and in each struct-like variant behind them its own
   fields in order, without those whose name is a common one or was used before.
   */
  lemma CheckedEnumMeans(parsed: ParsedEnum, v: nat)
    requires v < |parsed.variants|
    ensures var e := CheckedEnum(parsed);
      && |e.variants| == |parsed.variants| && |e.common| == |parsed.common|
      && (forall i :: 0 <= i < |e.common| ==> e.common[i] == CheckedField(parsed.common[i]))
      && match parsed.variants[v] {
           case PlainVariant => e.variants[v] == Untyped
           case TypedVariant(t) => e.variants[v] == Typed(t)
           case StructVariant(params) =>
             var names := set i | 0 <= i < |parsed.common| :: parsed.common[i].name;
             e.variants[v] == StructLike(e.common + NewFields(params, names, |params|))
         }
  {
    if parsed.variants[v].StructVariant? {
      OwnFieldsExactly(parsed.variants[v].params, set i | 0 <= i < |parsed.common| :: parsed.common[i].name);
    }
  }

  /** In every enum that the type checker hands over, the two ways of choosing a variant's own fields agree. */
  lemma CheckedEnumsAgree(parsed: ParsedEnum)
    ensures var e := CheckedEnum(parsed);
            && Agreeing(e)
            && forall v :: 0 <= v < |e.variants| ==> Declared(e, v) == Visited(e, v)
  {
    var e := CheckedEnum(parsed);
    forall v | 0 <= v < |e.variants| ensures NamesAgree(e, v) {
      VariantAgrees(parsed, v);
    }
    forall v | 0 <= v < |e.variants| ensures Declared(e, v) == Visited(e, v) {
      FieldListsAgree(e, v);
    }
  }

  lemma VariantAgrees(parsed: ParsedEnum, v: nat)
    requires v < |parsed.variants|
    ensures NamesAgree(CheckedEnum(parsed), v)
  {
    var e := CheckedEnum(parsed);
    if parsed.variants[v].StructVariant? {
      var seen := set i | 0 <= i < |parsed.common| :: parsed.common[i].name;
      var params := parsed.variants[v].params;
      OwnFieldsAreNew(params, seen);
      var fields := CheckedFields(parsed.common) + OwnFields(params, seen);
      assert e.variants[v] == StructLike(fields);
      forall i | 0 <= i < |fields| ensures IsCommonName(e.common, fields[i].name) <==> i < |e.common| {
        if i < |e.common| {
          assert fields[i] == e.common[i] && e.common[i].codegenName == fields[i].name;
        } else {
          assert fields[i] == OwnFields(params, seen)[i - |e.common|];
          forall k | 0 <= k < |e.common| ensures e.common[k].codegenName != fields[i].name {
            assert parsed.common[k].name in seen;
          }
        }
      }
    }
  }

  /** The generated struct has a member for every common field and every declared one. */
  predicate IsSlot(e: EnumDef, s: Slot) {
    match s
    case Common(i) => i < |e.common|
    case Of(v, i) => v < |e.variants| && IsMember(e.common, e.variants[v], i)
  }

  predicate IsMember(common: seq<Field>, d: VariantDef, i: nat) {
    match d
    case Untyped => false
    case Typed(_) => i == 0
    case StructLike(fields) => i < |fields| && !IsCommonName(common, fields[i].name)
  }

  lemma DeclaredAreSlots(e: EnumDef, v: nat)
    requires v < |e.variants|
    ensures forall s :: s in Declared(e, v) <==> s.Of? && s.variant == v && IsSlot(e, s)
  {
    var d := e.variants[v];
    if d.StructLike? {
      KeptMembers(e.common, v, d.fields, 0);
    }
  }

  lemma VisitedAreSlots(e: EnumDef, v: nat)
    requires Agreeing(e) && v < |e.variants|
    ensures forall s :: s in Visited(e, v) <==> s.Of? && s.variant == v && IsSlot(e, s)
    ensures Compatible(Visited(e, v))
  {
    assert NamesAgree(e, v);
    var d := e.variants[v];
    if d.StructLike? {
      RangeMembers(v, |e.common|, |d.fields|);
    }
  }

  function TypeOfSlot(e: EnumDef, s: Slot): FieldType {
    match s
    case Common(i) => if i < |e.common| then e.common[i].t else Trivial
    case Of(v, i) => if v < |e.variants| then TypeOfMember(e.variants[v], i) else Trivial
  }

  function TypeOfMember(d: VariantDef, i: nat): FieldType {
    match d
    case Untyped => Trivial
    case Typed(t) => if i == 0 then t else Trivial
    case StructLike(fields) => if i < |fields| then fields[i].t else Trivial
  }

  /** `destructor_name` has a value for the slot's type. */
  predicate HasDestructor(e: EnumDef, s: Slot) {
    TypeOfSlot(e, s).Named?
  }

  predicate NeedsDestructor(e: EnumDef, s: Slot) {
    IsSlot(e, s) && !TypeOfSlot(e, s).Trivial?
  }

  /** Every slot that needs a destructor call gets one. */
  ghost predicate DestructorsNamed(e: EnumDef) {
    forall s :: NeedsDestructor(e, s) ==> HasDestructor(e, s)
  }

  /** The two ways of choosing fields agree, and no field's destruction is left out. */
  ghost predicate Disciplined(e: EnumDef) {
    Agreeing(e) && DestructorsNamed(e)
  }

  /** Two slots of different variants share storage. */
  predicate Overlapping(s: Slot, t: Slot) {
    s.Of? && t.Of? && s.variant != t.variant
  }

  ghost predicate Compatible(slots: seq<Slot>) {
    forall i, j :: 0 <= i < j < |slots| ==> slots[i] != slots[j] && !Overlapping(slots[i], slots[j])
  }

  function CommonSlots(n: nat): seq<Slot> {
    if n == 0 then [] else CommonSlots(n - 1) + [Common(n - 1)]
  }

  lemma {:induction false} CommonMembers(n: nat)
    ensures forall s :: s in CommonSlots(n) <==> s.Common? && s.field < n
    ensures Compatible(CommonSlots(n))
  {
    if n > 0 {
      CommonMembers(n - 1);
    }
  }

  // ----- Emitted members -----

  datatype Leaf =
    | New(slot: Slot, move: bool)        // new (&this->slot) (decltype(this->slot))(rhs.slot);
    | Assign(slot: Slot, move: bool)     // this->slot = rhs.slot;
    | Destroy(slot: Slot)                // this->slot.~T();

  datatype Inner = DestroyVariant | SwitchOnRhs(cases: seq<seq<Leaf>>)

  datatype Stmt =
    | Verify(thisToo: bool)
    | Do(leaves: seq<Leaf>)
    | Then(inner: Inner)
    | IfOtherVariant(yes: seq<Inner>, no: seq<Inner>)
    | TakeIndex

  /** Set the index, then build each slot from the parameter of the same name. */
  datatype Constructor = Constructor(index: nat, params: seq<Slot>)

  datatype Members = Members(
    constructors: seq<Constructor>,
    copyAssign: seq<Stmt>,
    copyConstruct: seq<Stmt>,
    moveAssign: seq<Stmt>,
    moveConstruct: seq<Stmt>,
    destroyVariant: seq<seq<Leaf>>,
    destroyCommon: seq<Leaf>)

  function Each(slots: seq<Slot>, assign: bool, move: bool): seq<Leaf> {
    if slots == [] then []
    else Each(slots[..|slots| - 1], assign, move) + [if assign then Assign(slots[|slots| - 1], move) else New(slots[|slots| - 1], move)]
  }

  /** Only slots with a destructor name get a destructor call. */
  function Destroys(e: EnumDef, slots: seq<Slot>): seq<Leaf> {
    if slots == [] then []
    else Destroys(e, slots[..|slots| - 1]) + if HasDestructor(e, slots[|slots| - 1]) then [Destroy(slots[|slots| - 1])] else []
  }

  function Cases(e: EnumDef, n: nat, assign: bool, move: bool): (r: seq<seq<Leaf>>)
    requires WellFormed(e) && n <= |e.variants|
    ensures |r| == n
  {
    if n == 0 then [] else Cases(e, n - 1, assign, move) + [Each(Visited(e, n - 1), assign, move)]
  }

  function DestroyCases(e: EnumDef, n: nat): (r: seq<seq<Leaf>>)
    requires WellFormed(e) && n <= |e.variants|
    ensures |r| == n
  {
    if n == 0 then [] else DestroyCases(e, n - 1) + [Destroys(e, Visited(e, n - 1))]
  }

  lemma {:induction false} CasesAt(e: EnumDef, n: nat, assign: bool, move: bool, v: nat)
    requires WellFormed(e) && v < n <= |e.variants|
    ensures Cases(e, n, assign, move)[v] == Each(Visited(e, v), assign, move)
    ensures DestroyCases(e, n)[v] == Destroys(e, Visited(e, v))
  {
    hide Visited, Each, Destroys, WellFormed;
    if v < n - 1 {
      CasesAt(e, n - 1, assign, move, v);
    }
  }

  function AssignmentBody(e: EnumDef, isConstructor: bool, move: bool): seq<Stmt>
    requires WellFormed(e)
  {
    var build := SwitchOnRhs(Cases(e, |e.variants|, false, move));
    var assign := SwitchOnRhs(Cases(e, |e.variants|, true, move));
    [ Verify(!isConstructor),
      Do(Each(CommonSlots(|e.common|), !isConstructor, move)),
      if isConstructor then Then(build) else IfOtherVariant([DestroyVariant, build], [assign]),
      TakeIndex ]
  }

  function Constructors(e: EnumDef, n: nat): (r: seq<Constructor>)
    requires n <= |e.variants|
    ensures |r| == n
  {
    if n == 0 then [] else Constructors(e, n - 1) + [Constructor(n, CommonSlots(|e.common|) + Declared(e, n - 1))]
  }

  lemma {:induction false} ConstructorsAt(e: EnumDef, n: nat, v: nat)
    requires v < n <= |e.variants|
    ensures Constructors(e, n)[v] == Constructor(v + 1, CommonSlots(|e.common|) + Declared(e, v))
  {
    hide CommonSlots, Declared;
    if v < n - 1 {
      ConstructorsAt(e, n - 1, v);
    }
  }

  function MembersOf(e: EnumDef): Members
    requires WellFormed(e)
  {
    Members(
      Constructors(e, |e.variants|),
      AssignmentBody(e, false, false),
      AssignmentBody(e, true, false),
      AssignmentBody(e, false, true),
      AssignmentBody(e, true, true),
      DestroyCases(e, |e.variants|),
      Destroys(e, CommonSlots(|e.common|)))
  }

  // ----- Memory -----

  /** A live slot's content; None is the unspecified value left by a move. */
  type Content = Option<int>

  /** `index` 0 is an enum that was never given a variant; the live slots are the keys of `cells`. */
  datatype Obj = Obj(index: nat, cells: map<Slot, Content>)

  type Objects = map<nat, Obj>

  /** `built` and `destroyed` count, per object and slot, the constructor and destructor calls of non-trivial slots. */
  datatype Memory = Memory(objects: Objects, built: multiset<(nat, Slot)>, destroyed: multiset<(nat, Slot)>)

  datatype Run = Done(m: Memory) | VerifyFailed | Fault

  function Settle(cells: map<Slot, Content>, s: Slot): map<Slot, Content> {
    map t | t in cells && !Overlapping(s, t) :: cells[t]
  }

  /** A lifetime is lost when a live non-trivial slot is built over. */
  predicate BuildsOverLive(e: EnumDef, cells: map<Slot, Content>, s: Slot) {
    exists t :: t in cells && NeedsDestructor(e, t) && (t == s || Overlapping(s, t))
  }

  function Build(e: EnumDef, m: Memory, id: nat, s: Slot, c: Content): (r: Run)
    requires id in m.objects
    ensures r.Done? ==> r.m.objects.Keys == m.objects.Keys
  {
    var o := m.objects[id];
    if !IsSlot(e, s) || BuildsOverLive(e, o.cells, s) then Fault
    else
      var built := if NeedsDestructor(e, s) then m.built + multiset{(id, s)} else m.built;
      Done(Memory(m.objects[id := o.(cells := Settle(o.cells, s)[s := c])], built, m.destroyed))
  }

  function Overwrite(m: Memory, id: nat, s: Slot, c: Content): Memory
    requires id in m.objects
  {
    var o := m.objects[id];
    m.(objects := m.objects[id := o.(cells := o.cells[s := c])])
  }

  function RunLeaf(e: EnumDef, leaf: Leaf, this_: nat, rhs: nat, m: Memory): (r: Run)
    requires this_ in m.objects && rhs in m.objects
    ensures r.Done? ==> r.m.objects.Keys == m.objects.Keys
  {
    match leaf
    case New(s, move) =>
      if s !in m.objects[rhs].cells then Fault
      else
        var c := m.objects[rhs].cells[s];
        Build(e, if move then Overwrite(m, rhs, s, None) else m, this_, s, c)
    case Assign(s, move) =>
      if s !in m.objects[rhs].cells || s !in m.objects[this_].cells then Fault
      else
        var c := m.objects[rhs].cells[s];
        var written := Overwrite(m, this_, s, c);
        Done(if move then Overwrite(written, rhs, s, None) else written)
    case Destroy(s) =>
      var o := m.objects[this_];
      if s !in o.cells || !NeedsDestructor(e, s) then Fault
      else Done(Memory(m.objects[this_ := o.(cells := o.cells - {s})], m.built, m.destroyed + multiset{(this_, s)}))
  }

  function RunLeaves(e: EnumDef, leaves: seq<Leaf>, this_: nat, rhs: nat, m: Memory): (r: Run)
    requires this_ in m.objects && rhs in m.objects
    ensures r.Done? ==> r.m.objects.Keys == m.objects.Keys
  {
    if leaves == [] then Done(m)
    else
      var r := RunLeaves(e, leaves[..|leaves| - 1], this_, rhs, m);
      if r.Done? then RunLeaf(e, leaves[|leaves| - 1], this_, rhs, r.m) else r
  }

  /** A switch over an index that is one more than the case label. */
  function RunSwitch(e: EnumDef, cases: seq<seq<Leaf>>, index: nat, this_: nat, rhs: nat, m: Memory): (r: Run)
    requires this_ in m.objects && rhs in m.objects
    ensures r.Done? ==> r.m.objects.Keys == m.objects.Keys
  {
    if 1 <= index <= |cases| then RunLeaves(e, cases[index - 1], this_, rhs, m) else Done(m)
  }

  function RunInner(e: EnumDef, inner: Inner, this_: nat, rhs: nat, m: Memory): (r: Run)
    requires WellFormed(e) && this_ in m.objects && rhs in m.objects
    ensures r.Done? ==> r.m.objects.Keys == m.objects.Keys
  {
    match inner
    case DestroyVariant => RunSwitch(e, DestroyCases(e, |e.variants|), m.objects[this_].index, this_, this_, m)
    case SwitchOnRhs(cases) => RunSwitch(e, cases, m.objects[rhs].index, this_, rhs, m)
  }

  function RunInners(e: EnumDef, inners: seq<Inner>, this_: nat, rhs: nat, m: Memory): (r: Run)
    requires WellFormed(e) && this_ in m.objects && rhs in m.objects
    ensures r.Done? ==> r.m.objects.Keys == m.objects.Keys
  {
    if inners == [] then Done(m)
    else
      var r := RunInner(e, inners[0], this_, rhs, m);
      if r.Done? then RunInners(e, inners[1..], this_, rhs, r.m) else r
  }

  function RunStmt(e: EnumDef, s: Stmt, this_: nat, rhs: nat, m: Memory): (r: Run)
    requires WellFormed(e) && this_ in m.objects && rhs in m.objects
    ensures r.Done? ==> r.m.objects.Keys == m.objects.Keys
  {
    match s
    case Verify(thisToo) =>
      if m.objects[rhs].index == 0 || (thisToo && m.objects[this_].index == 0) then VerifyFailed else Done(m)
    case Do(leaves) => RunLeaves(e, leaves, this_, rhs, m)
    case Then(inner) => RunInner(e, inner, this_, rhs, m)
    case IfOtherVariant(yes, no) =>
      RunInners(e, if m.objects[this_].index != m.objects[rhs].index then yes else no, this_, rhs, m)
    case TakeIndex => Done(SetIndex(m, this_, m.objects[rhs].index))
  }

  function SetIndex(m: Memory, id: nat, index: nat): (r: Memory)
    requires id in m.objects
    ensures r.objects.Keys == m.objects.Keys
  {
    m.(objects := m.objects[id := m.objects[id].(index := index)])
  }

  function RunBody(e: EnumDef, body: seq<Stmt>, this_: nat, rhs: nat, m: Memory): (r: Run)
    requires WellFormed(e) && this_ in m.objects && rhs in m.objects
    ensures r.Done? ==> r.m.objects.Keys == m.objects.Keys
  {
    if body == [] then Done(m)
    else
      var r := RunStmt(e, body[0], this_, rhs, m);
      if r.Done? then RunBody(e, body[1..], this_, rhs, r.m) else r
  }

  function RunParams(e: EnumDef, params: seq<Slot>, args: map<Slot, int>, id: nat, m: Memory): (r: Run)
    requires id in m.objects && forall s :: s in params ==> s in args
    ensures r.Done? ==> r.m.objects.Keys == m.objects.Keys
  {
    if params == [] then Done(m)
    else
      var last := params[|params| - 1];
      var r := RunParams(e, params[..|params| - 1], args, id, m);
      if r.Done? then Build(e, r.m, id, last, Some(args[last])) else r
  }

  // ----- Programs -----

  datatype Op =
    | Declare(id: nat)
    | Create(id: nat, variant: nat, args: map<Slot, int>)
    | Copy(id: nat, from: nat)
    | Move(id: nat, from: nat)
    | CopyAssign(id: nat, from: nat)
    | MoveAssign(id: nat, from: nat)
    | Drop(id: nat)

  /** Constructors make new objects, the other members need existing ones, and a constructor call has all its arguments. */
  predicate Legal(e: EnumDef, op: Op, m: Memory) {
    match op
    case Declare(id) => id !in m.objects
    case Create(id, v, args) =>
      id !in m.objects && v < |e.variants| && forall s :: s in CommonSlots(|e.common|) + Declared(e, v) ==> s in args
    case Copy(id, from) => id !in m.objects && from in m.objects
    case Move(id, from) => id !in m.objects && from in m.objects
    case CopyAssign(id, from) => id in m.objects && from in m.objects
    case MoveAssign(id, from) => id in m.objects && from in m.objects
    case Drop(id) => id in m.objects
  }

  function WithNew(m: Memory, id: nat): Memory {
    m.(objects := m.objects[id := Obj(0, map[])])
  }

  function RunDestructor(e: EnumDef, id: nat, m: Memory): (r: Run)
    requires WellFormed(e) && id in m.objects
    ensures r.Done? ==> r.m.objects.Keys == m.objects.Keys
  {
    if m.objects[id].index == 0 then Done(m)
    else
      var r := RunLeaves(e, MembersOf(e).destroyCommon, id, id, m);
      if r.Done? then RunInner(e, DestroyVariant, id, id, r.m) else r
  }

  function Step(e: EnumDef, op: Op, m: Memory): Run
    requires WellFormed(e) && Legal(e, op, m)
  {
    match op
    case Declare(id) => Done(WithNew(m, id))
    case Create(id, v, args) =>
      var c := MembersOf(e).constructors[v];
      ConstructorsAt(e, |e.variants|, v);
      RunParams(e, c.params, args, id, SetIndex(WithNew(m, id), id, c.index))
    case Copy(id, from) => RunBody(e, MembersOf(e).copyConstruct, id, from, WithNew(m, id))
    case Move(id, from) => RunBody(e, MembersOf(e).moveConstruct, id, from, WithNew(m, id))
    case CopyAssign(id, from) => RunBody(e, MembersOf(e).copyAssign, id, from, m)
    case MoveAssign(id, from) => RunBody(e, MembersOf(e).moveAssign, id, from, m)
    case Drop(id) =>
      var r := RunDestructor(e, id, m);
      if r.Done? then Done(r.m.(objects := r.m.objects - {id})) else r
  }

  predicate AllLegal(e: EnumDef, ops: seq<Op>, m: Memory)
    requires WellFormed(e)
  {
    ops == [] ||
    (Legal(e, ops[0], m) &&
     var r := Step(e, ops[0], m);
     r.Done? ==> AllLegal(e, ops[1..], r.m))
  }

  function RunProgram(e: EnumDef, ops: seq<Op>, m: Memory): Run
    requires WellFormed(e) && AllLegal(e, ops, m)
  {
    if ops == [] then Done(m)
    else
      var r := Step(e, ops[0], m);
      if r.Done? then RunProgram(e, ops[1..], r.m) else r
  }

  // ----- The lifetime discipline -----

  /** A slot that must be live: a common field, or a field of the current variant. */
  predicate Current(e: EnumDef, index: nat, s: Slot) {
    IsSlot(e, s) && index != 0 && (s.Common? || s.variant == index - 1)
  }

  /** The non-trivial live slots are exactly the current ones, and all current ones are live. */
  ghost predicate ValidObject(e: EnumDef, o: Obj) {
    && o.index <= |e.variants|
    && (forall s :: Current(e, o.index, s) ==> s in o.cells)
    && (forall s :: s in o.cells && NeedsDestructor(e, s) ==> Current(e, o.index, s))
  }

  /** Each slot was built once more than it was destroyed if it is live, and equally often otherwise. */
  ghost predicate Balanced(e: EnumDef, m: Memory) {
    forall id: nat, s: Slot :: m.built[(id, s)] == m.destroyed[(id, s)] + Lives(e, m, id, s)
  }

  function Lives(e: EnumDef, m: Memory, id: nat, s: Slot): nat {
    if id in m.objects && s in m.objects[id].cells && NeedsDestructor(e, s) then 1 else 0
  }

  ghost predicate Valid(e: EnumDef, m: Memory) {
    (forall id :: id in m.objects ==> ValidObject(e, m.objects[id])) && Balanced(e, m)
  }
}
