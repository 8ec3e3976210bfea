/**
 The definitions that must precede a type's own (`extract_dependencies_from` and its
 two helpers), and the dependency graph that `produce_codegen_dependency_graph`
 memoises them in.
 */
module TypeDependencies {
  import opened Wrappers
  import opened Postorder
  import opened Sequences

  datatype Type =
    | EnumType(id: nat)
    | GenericEnumInstance(id: nat, args: seq<TypeId>)
    | StructType(id: nat)
    | GenericInstance(id: nat, args: seq<TypeId>)
    | TraitType
    | OtherType

  datatype Variant = Untyped | Typed(t: TypeId) | WithValue | StructLike(fields: seq<TypeId>)

  /** `underlying` is None for the unknown type. */
  datatype Enum = Enum(typeId: TypeId, isExternal: bool, isBoxed: bool, underlying: Option<TypeId>, variants: seq<Variant>)

  datatype Struct = Struct(typeId: TypeId, isExternal: bool, isOptional: bool, isClass: bool, super: Option<nat>, fields: seq<TypeId>)

  datatype Program = Program(types: seq<Type>, structs: seq<Struct>, enums: seq<Enum>)

  // ----- Well-formed programs -----

  predicate TypesExist(p: Program, ts: seq<TypeId>) {
    forall t :: t in ts ==> t < |p.types|
  }

  predicate TypeRefersInside(p: Program, t: Type) {
    match t
    case EnumType(id) => id < |p.enums|
    case GenericEnumInstance(id, args) => id < |p.enums| && TypesExist(p, args)
    case StructType(id) => id < |p.structs|
    case GenericInstance(id, args) => id < |p.structs| && TypesExist(p, args)
    case _ => true
  }

  function Payload(v: Variant): seq<TypeId> {
    match v
    case Typed(t) => [t]
    case StructLike(fields) => fields
    case _ => []
  }

  predicate RefersInside(p: Program) {
    && (forall i :: 0 <= i < |p.types| ==> TypeRefersInside(p, p.types[i]))
    && (forall i :: 0 <= i < |p.structs| ==>
          && p.structs[i].typeId < |p.types| && p.types[p.structs[i].typeId] == StructType(i)
          && TypesExist(p, p.structs[i].fields)
          && (p.structs[i].super.Some? ==> p.structs[i].super.value < |p.structs|))
    && (forall i :: 0 <= i < |p.enums| ==>
          && p.enums[i].typeId < |p.types| && p.types[p.enums[i].typeId] == EnumType(i)
          && (p.enums[i].underlying.Some? ==> p.enums[i].underlying.value < |p.types|)
          && forall v :: v in p.enums[i].variants ==> TypesExist(p, Payload(v)))
  }

  /** `Type::is_boxed`. */
  predicate IsBoxed(p: Program, t: TypeId)
    requires RefersInside(p) && t < |p.types|
  {
    match p.types[t]
    case EnumType(id) => p.enums[id].isBoxed
    case GenericEnumInstance(id, _) => p.enums[id].isBoxed
    case StructType(id) => p.structs[id].isClass
    case GenericInstance(id, _) => p.structs[id].isClass
    case _ => false
  }

  /** The struct is defined elsewhere; the prelude's Optional is looked into all the same. */
  predicate Foreign(s: Struct) {
    s.isExternal && !s.isOptional
  }

  /** A use of `t` by value requires definitions. */
  predicate Unfolds(p: Program, t: TypeId)
    requires RefersInside(p) && t < |p.types|
  {
    && !IsBoxed(p, t)
    && match p.types[t]
       case EnumType(id) => !p.enums[id].isExternal
       case GenericEnumInstance(id, _) => !p.enums[id].isExternal
       case StructType(id) => !Foreign(p.structs[id])
       case GenericInstance(id, _) => !Foreign(p.structs[id])
       case _ => false
  }

  // ----- Containment is well-founded -----

  /** Type arguments are followed only when they are a plain enum or struct. */
  predicate FollowsArgument(p: Program, t: TypeId)
    requires t < |p.types|
  {
    p.types[t].EnumType? || p.types[t].StructType?
  }

  /** Everything that is unfolded for `parts` ranks below `bound`. */
  ghost predicate PartsBelow(p: Program, rank: TypeId -> nat, parts: seq<TypeId>, bound: nat)
    requires RefersInside(p) && TypesExist(p, parts)
  {
    forall t :: t in parts && Unfolds(p, t) ==> rank(t) < bound
  }

  ghost predicate ArgumentsBelow(p: Program, rank: TypeId -> nat, args: seq<TypeId>, bound: nat)
    requires RefersInside(p) && TypesExist(p, args)
  {
    forall t :: t in args && FollowsArgument(p, t) && Unfolds(p, t) ==> rank(t) < bound
  }

  ghost predicate StructBelow(p: Program, rank: TypeId -> nat, id: nat, args: seq<TypeId>, bound: nat)
    requires RefersInside(p) && id < |p.structs| && TypesExist(p, args)
  {
    var s := p.structs[id];
    && ArgumentsBelow(p, rank, args, bound)
    && PartsBelow(p, rank, s.fields, bound)
    && (s.super.Some? ==> rank(p.structs[s.super.value].typeId) < bound)
  }

  ghost predicate EnumBelow(p: Program, rank: TypeId -> nat, id: nat, bound: nat)
    requires RefersInside(p) && id < |p.enums|
  {
    var e := p.enums[id];
    && (e.underlying.Some? ==> PartsBelow(p, rank, [e.underlying.value], bound))
    && forall v :: v in e.variants ==> PartsBelow(p, rank, Payload(v), bound)
  }

  /** Every type ranks above what its definition unfolds, and an instance not below its template. */
  ghost predicate WellFounded(p: Program, rank: TypeId -> nat)
    requires RefersInside(p)
  {
    forall t :: 0 <= t < |p.types| ==>
      match p.types[t]
      case EnumType(id) => EnumBelow(p, rank, id, rank(t)) && (t == p.enums[id].typeId || rank(p.enums[id].typeId) < rank(t))
      case GenericEnumInstance(id, _) => EnumBelow(p, rank, id, rank(t)) && rank(p.enums[id].typeId) < rank(t)
      case StructType(id) => StructBelow(p, rank, id, [], rank(t)) && (t == p.structs[id].typeId || rank(p.structs[id].typeId) < rank(t))
      case GenericInstance(id, args) => StructBelow(p, rank, id, args, rank(t)) && rank(p.structs[id].typeId) < rank(t)
      case _ => true
  }

  ghost predicate Sound(p: Program, rank: TypeId -> nat) {
    RefersInside(p) && WellFounded(p, rank)
  }

  // ----- Extraction -----

  /** How much of a use of `t` is left to unfold. */
  ghost function Weight(p: Program, rank: TypeId -> nat, t: TypeId, topLevel: bool): nat
    requires RefersInside(p) && t < |p.types|
  {
    if topLevel || Unfolds(p, t) then rank(t) + 1 else 0
  }

  ghost function Extract(p: Program, rank: TypeId -> nat, t: TypeId, g: Graph, topLevel: bool): seq<TypeId>
    requires Sound(p, rank) && t < |p.types|
    decreases Weight(p, rank, t, topLevel), 3
  {
    if !IsBoxed(p, t) && t in g then g[t]
    else
      match p.types[t]
      case EnumType(id) => ExtractEnum(p, rank, id, g, topLevel, rank(t))
      case GenericEnumInstance(id, _) => ExtractEnum(p, rank, id, g, topLevel, rank(t))
      case StructType(id) => ExtractStruct(p, rank, id, g, topLevel, [], rank(t))
      case GenericInstance(id, args) => ExtractStruct(p, rank, id, g, topLevel, args, rank(t))
      case _ => []
  }

  ghost function ExtractParts(p: Program, rank: TypeId -> nat, parts: seq<TypeId>, g: Graph, bound: nat): seq<TypeId>
    requires Sound(p, rank) && TypesExist(p, parts) && PartsBelow(p, rank, parts, bound)
    decreases bound + 1, 0, |parts|
  {
    if parts == [] then []
    else
      assert parts[0] in parts && forall t :: t in parts[1..] ==> t in parts;
      Extract(p, rank, parts[0], g, false) + ExtractParts(p, rank, parts[1..], g, bound)
  }

  ghost function ExtractArguments(p: Program, rank: TypeId -> nat, args: seq<TypeId>, g: Graph, bound: nat): seq<TypeId>
    requires Sound(p, rank) && TypesExist(p, args) && ArgumentsBelow(p, rank, args, bound)
    decreases bound + 1, 0, |args|
  {
    if args == [] then []
    else
      assert args[0] in args && forall t :: t in args[1..] ==> t in args;
      (if FollowsArgument(p, args[0]) then Extract(p, rank, args[0], g, false) else [])
      + ExtractArguments(p, rank, args[1..], g, bound)
  }

  ghost function ExtractVariants(p: Program, rank: TypeId -> nat, variants: seq<Variant>, g: Graph, bound: nat): seq<TypeId>
    requires Sound(p, rank)
    requires forall v :: v in variants ==> TypesExist(p, Payload(v)) && PartsBelow(p, rank, Payload(v), bound)
    decreases bound + 1, 1, |variants|
  {
    if variants == [] then []
    else ExtractParts(p, rank, Payload(variants[0]), g, bound) + ExtractVariants(p, rank, variants[1..], g, bound)
  }

  ghost function ExtractEnum(p: Program, rank: TypeId -> nat, id: nat, g: Graph, topLevel: bool, bound: nat): seq<TypeId>
    requires Sound(p, rank) && id < |p.enums| && EnumBelow(p, rank, id, bound)
    decreases if p.enums[id].isExternal || (p.enums[id].isBoxed && !topLevel) then 0 else bound + 1, 2
  {
    var e := p.enums[id];
    if e.isExternal || (e.isBoxed && !topLevel) then []
    else
      [e.typeId]
      + (if e.underlying.Some? then Extract(p, rank, e.underlying.value, g, false) else [])
      + ExtractVariants(p, rank, e.variants, g, bound)
  }

  ghost function ExtractStruct(p: Program, rank: TypeId -> nat, id: nat, g: Graph, topLevel: bool, args: seq<TypeId>,
          bound: nat): seq<TypeId>
    requires Sound(p, rank) && id < |p.structs| && TypesExist(p, args) && StructBelow(p, rank, id, args, bound)
    decreases if Foreign(p.structs[id]) || (p.structs[id].isClass && !topLevel) then 0 else bound + 1, 2
  {
    var s := p.structs[id];
    if Foreign(s) || (s.isClass && !topLevel) then []
    else
      ExtractArguments(p, rank, args, g, bound)
      + ExtractSupers(p, rank, s.super, g, bound)
      + [s.typeId]
      + ExtractParts(p, rank, s.fields, g, bound)
  }

  /** Up the whole super chain, each struct at top level. */
  ghost function ExtractSupers(p: Program, rank: TypeId -> nat, super: Option<nat>, g: Graph, bound: nat): seq<TypeId>
    requires Sound(p, rank)
    requires super.Some? ==> super.value < |p.structs| && rank(p.structs[super.value].typeId) < bound
    decreases bound + 1, 0, if super.Some? then rank(p.structs[super.value].typeId) + 1 else 0
  {
    if super.None? then []
    else
      var s := p.structs[super.value];
      ExtractStruct(p, rank, super.value, g, true, [], rank(s.typeId)) + ExtractSupers(p, rank, s.super, g, bound)
  }

  // ----- The memo changes nothing -----

  /** Unboxed types are extracted alike at top level and below it. */
  lemma UnboxedIgnoresTopLevel(p: Program, rank: TypeId -> nat, t: TypeId, g: Graph)
    requires Sound(p, rank) && t < |p.types| && !IsBoxed(p, t)
    ensures Extract(p, rank, t, g, true) == Extract(p, rank, t, g, false)
  {
  }

  /** Every entry is what a fresh top-level extraction gives. */
  ghost predicate Faithful(p: Program, rank: TypeId -> nat, g: Graph)
    requires Sound(p, rank)
  {
    forall t :: t in g ==> t < |p.types| && g[t] == Extract(p, rank, t, map[], true)
  }

  lemma {:induction false} MemoAgrees(p: Program, rank: TypeId -> nat, t: TypeId, g: Graph, topLevel: bool)
    requires Sound(p, rank) && t < |p.types| && Faithful(p, rank, g)
    ensures Extract(p, rank, t, g, topLevel) == Extract(p, rank, t, map[], topLevel)
    decreases Weight(p, rank, t, topLevel), 3
  {
    if !IsBoxed(p, t) && t in g {
      UnboxedIgnoresTopLevel(p, rank, t, map[]);
    } else {
      match p.types[t]
      case EnumType(id) => EnumMemoAgrees(p, rank, id, g, topLevel, rank(t));
      case GenericEnumInstance(id, _) => EnumMemoAgrees(p, rank, id, g, topLevel, rank(t));
      case StructType(id) => StructMemoAgrees(p, rank, id, g, topLevel, [], rank(t));
      case GenericInstance(id, args) => StructMemoAgrees(p, rank, id, g, topLevel, args, rank(t));
      case TraitType =>
      case OtherType =>
    }
  }

  lemma {:induction false} PartsMemoAgrees(p: Program, rank: TypeId -> nat, parts: seq<TypeId>, g: Graph, bound: nat)
    requires Sound(p, rank) && TypesExist(p, parts) && PartsBelow(p, rank, parts, bound) && Faithful(p, rank, g)
    ensures ExtractParts(p, rank, parts, g, bound) == ExtractParts(p, rank, parts, map[], bound)
    decreases bound + 1, 0, |parts|
  {
    if parts != [] {
      assert parts[0] in parts && forall t :: t in parts[1..] ==> t in parts;
      MemoAgrees(p, rank, parts[0], g, false);
      PartsMemoAgrees(p, rank, parts[1..], g, bound);
    }
  }

  lemma {:induction false} ArgumentsMemoAgrees(p: Program, rank: TypeId -> nat, args: seq<TypeId>, g: Graph, bound: nat)
    requires Sound(p, rank) && TypesExist(p, args) && ArgumentsBelow(p, rank, args, bound) && Faithful(p, rank, g)
    ensures ExtractArguments(p, rank, args, g, bound) == ExtractArguments(p, rank, args, map[], bound)
    decreases bound + 1, 0, |args|
  {
    if args != [] {
      assert args[0] in args && forall t :: t in args[1..] ==> t in args;
      if FollowsArgument(p, args[0]) {
        MemoAgrees(p, rank, args[0], g, false);
      }
      ArgumentsMemoAgrees(p, rank, args[1..], g, bound);
    }
  }

  lemma {:induction false} VariantsMemoAgrees(p: Program, rank: TypeId -> nat, variants: seq<Variant>, g: Graph, bound: nat)
    requires Sound(p, rank) && Faithful(p, rank, g)
    requires forall v :: v in variants ==> TypesExist(p, Payload(v)) && PartsBelow(p, rank, Payload(v), bound)
    ensures ExtractVariants(p, rank, variants, g, bound) == ExtractVariants(p, rank, variants, map[], bound)
    decreases bound + 1, 1, |variants|
  {
    if variants != [] {
      PartsMemoAgrees(p, rank, Payload(variants[0]), g, bound);
      VariantsMemoAgrees(p, rank, variants[1..], g, bound);
    }
  }

  lemma {:induction false} EnumMemoAgrees(p: Program, rank: TypeId -> nat, id: nat, g: Graph, topLevel: bool, bound: nat)
    requires Sound(p, rank) && id < |p.enums| && EnumBelow(p, rank, id, bound) && Faithful(p, rank, g)
    ensures ExtractEnum(p, rank, id, g, topLevel, bound) == ExtractEnum(p, rank, id, map[], topLevel, bound)
    decreases if p.enums[id].isExternal || (p.enums[id].isBoxed && !topLevel) then 0 else bound + 1, 2
  {
    var e := p.enums[id];
    if !(e.isExternal || (e.isBoxed && !topLevel)) {
      if e.underlying.Some? {
        assert e.underlying.value in [e.underlying.value];
        MemoAgrees(p, rank, e.underlying.value, g, false);
      }
      VariantsMemoAgrees(p, rank, e.variants, g, bound);
    }
  }

  lemma {:induction false} StructMemoAgrees(p: Program, rank: TypeId -> nat, id: nat, g: Graph, topLevel: bool,
          args: seq<TypeId>, bound: nat)
    requires Sound(p, rank) && id < |p.structs| && TypesExist(p, args) && StructBelow(p, rank, id, args, bound) && Faithful(p, rank, g)
    ensures ExtractStruct(p, rank, id, g, topLevel, args, bound) == ExtractStruct(p, rank, id, map[], topLevel, args, bound)
    decreases if Foreign(p.structs[id]) || (p.structs[id].isClass && !topLevel) then 0 else bound + 1, 2
  {
    var s := p.structs[id];
    if !(Foreign(s) || (s.isClass && !topLevel)) {
      ArgumentsMemoAgrees(p, rank, args, g, bound);
      SupersMemoAgrees(p, rank, s.super, g, bound);
      PartsMemoAgrees(p, rank, s.fields, g, bound);
    }
  }

  lemma {:induction false} SupersMemoAgrees(p: Program, rank: TypeId -> nat, super: Option<nat>, g: Graph, bound: nat)
    requires Sound(p, rank) && Faithful(p, rank, g)
    requires super.Some? ==> super.value < |p.structs| && rank(p.structs[super.value].typeId) < bound
    ensures ExtractSupers(p, rank, super, g, bound) == ExtractSupers(p, rank, super, map[], bound)
    decreases bound + 1, 0, if super.Some? then rank(p.structs[super.value].typeId) + 1 else 0
  {
    if super.Some? {
      var s := p.structs[super.value];
      StructMemoAgrees(p, rank, super.value, g, true, [], rank(s.typeId));
      SupersMemoAgrees(p, rank, s.super, g, bound);
    }
  }

  // ----- What is extracted -----

  /** A definition: the own type of an enum or a struct. */
  predicate IsDefinition(p: Program, t: TypeId) {
    t < |p.types| && (p.types[t].EnumType? || p.types[t].StructType?)
  }

  ghost predicate AllBelow(p: Program, rank: TypeId -> nat, ts: seq<TypeId>, bound: nat) {
    forall t :: t in ts ==> IsDefinition(p, t) && rank(t) < bound
  }

  /** Everything extracted for a type ranks below it, except the type itself. */
  lemma {:induction false} ExtractedRanksBelow(p: Program, rank: TypeId -> nat, t: TypeId, topLevel: bool)
    requires Sound(p, rank) && t < |p.types|
    ensures forall d :: d in Extract(p, rank, t, map[], topLevel) ==> IsDefinition(p, d) && (d == t || rank(d) < rank(t))
    ensures !topLevel && !Unfolds(p, t) ==> Extract(p, rank, t, map[], topLevel) == []
    decreases Weight(p, rank, t, topLevel), 3
  {
    match p.types[t]
    case EnumType(id) => EnumRanksBelow(p, rank, id, topLevel, rank(t));
    case GenericEnumInstance(id, _) => EnumRanksBelow(p, rank, id, topLevel, rank(t));
    case StructType(id) => StructRanksBelow(p, rank, id, topLevel, [], rank(t));
    case GenericInstance(id, args) => StructRanksBelow(p, rank, id, topLevel, args, rank(t));
    case TraitType =>
    case OtherType =>
  }

  lemma {:induction false} PartsRankBelow(p: Program, rank: TypeId -> nat, parts: seq<TypeId>, bound: nat)
    requires Sound(p, rank) && TypesExist(p, parts) && PartsBelow(p, rank, parts, bound)
    ensures AllBelow(p, rank, ExtractParts(p, rank, parts, map[], bound), bound)
    decreases bound + 1, 0, |parts|
  {
    if parts != [] {
      assert parts[0] in parts && forall t :: t in parts[1..] ==> t in parts;
      ExtractedRanksBelow(p, rank, parts[0], false);
      PartsRankBelow(p, rank, parts[1..], bound);
    }
  }

  lemma {:induction false} ArgumentsRankBelow(p: Program, rank: TypeId -> nat, args: seq<TypeId>, bound: nat)
    requires Sound(p, rank) && TypesExist(p, args) && ArgumentsBelow(p, rank, args, bound)
    ensures AllBelow(p, rank, ExtractArguments(p, rank, args, map[], bound), bound)
    decreases bound + 1, 0, |args|
  {
    if args != [] {
      assert args[0] in args && forall t :: t in args[1..] ==> t in args;
      if FollowsArgument(p, args[0]) {
        ExtractedRanksBelow(p, rank, args[0], false);
      }
      ArgumentsRankBelow(p, rank, args[1..], bound);
    }
  }

  lemma {:induction false} VariantsRankBelow(p: Program, rank: TypeId -> nat, variants: seq<Variant>, bound: nat)
    requires Sound(p, rank)
    requires forall v :: v in variants ==> TypesExist(p, Payload(v)) && PartsBelow(p, rank, Payload(v), bound)
    ensures AllBelow(p, rank, ExtractVariants(p, rank, variants, map[], bound), bound)
    decreases bound + 1, 1, |variants|
  {
    if variants != [] {
      PartsRankBelow(p, rank, Payload(variants[0]), bound);
      VariantsRankBelow(p, rank, variants[1..], bound);
    }
  }

  lemma {:induction false} EnumRanksBelow(p: Program, rank: TypeId -> nat, id: nat, topLevel: bool, bound: nat)
    requires Sound(p, rank) && id < |p.enums| && EnumBelow(p, rank, id, bound)
    ensures forall d :: d in ExtractEnum(p, rank, id, map[], topLevel, bound) ==>
              IsDefinition(p, d) && (d == p.enums[id].typeId || rank(d) < bound)
    decreases if p.enums[id].isExternal || (p.enums[id].isBoxed && !topLevel) then 0 else bound + 1, 2
  {
    var e := p.enums[id];
    if !(e.isExternal || (e.isBoxed && !topLevel)) {
      if e.underlying.Some? {
        assert e.underlying.value in [e.underlying.value];
        ExtractedRanksBelow(p, rank, e.underlying.value, false);
      }
      VariantsRankBelow(p, rank, e.variants, bound);
    }
  }

  lemma {:induction false} StructRanksBelow(p: Program, rank: TypeId -> nat, id: nat, topLevel: bool,
          args: seq<TypeId>, bound: nat)
    requires Sound(p, rank) && id < |p.structs| && TypesExist(p, args) && StructBelow(p, rank, id, args, bound)
    ensures forall d :: d in ExtractStruct(p, rank, id, map[], topLevel, args, bound) ==>
              IsDefinition(p, d) && (d == p.structs[id].typeId || rank(d) < bound)
    decreases if Foreign(p.structs[id]) || (p.structs[id].isClass && !topLevel) then 0 else bound + 1, 2
  {
    var s := p.structs[id];
    if !(Foreign(s) || (s.isClass && !topLevel)) {
      ArgumentsRankBelow(p, rank, args, bound);
      SupersRankBelow(p, rank, s.super, bound);
      PartsRankBelow(p, rank, s.fields, bound);
    }
  }

  lemma {:induction false} SupersRankBelow(p: Program, rank: TypeId -> nat, super: Option<nat>, bound: nat)
    requires Sound(p, rank)
    requires super.Some? ==> super.value < |p.structs| && rank(p.structs[super.value].typeId) < bound
    ensures AllBelow(p, rank, ExtractSupers(p, rank, super, map[], bound), bound)
    decreases bound + 1, 0, if super.Some? then rank(p.structs[super.value].typeId) + 1 else 0
  {
    if super.Some? {
      var s := p.structs[super.value];
      StructRanksBelow(p, rank, super.value, true, [], rank(s.typeId));
      SupersRankBelow(p, rank, s.super, bound);
    }
  }

  // ----- Exactly what is extracted -----

  /** The definition behind a use of `t`. */
  function DefinitionOf(p: Program, t: TypeId): Option<TypeId>
    requires RefersInside(p) && t < |p.types|
  {
    match p.types[t]
    case EnumType(id) => Some(p.enums[id].typeId)
    case GenericEnumInstance(id, _) => Some(p.enums[id].typeId)
    case StructType(id) => Some(p.structs[id].typeId)
    case GenericInstance(id, _) => Some(p.structs[id].typeId)
    case _ => None
  }

  /** The definition of `t` is not skipped; below the top level, boxed ones are. */
  predicate Opens(p: Program, t: TypeId, topLevel: bool)
    requires RefersInside(p) && t < |p.types|
  {
    match p.types[t]
    case EnumType(id) => !p.enums[id].isExternal && (topLevel || !p.enums[id].isBoxed)
    case GenericEnumInstance(id, _) => !p.enums[id].isExternal && (topLevel || !p.enums[id].isBoxed)
    case StructType(id) => !Foreign(p.structs[id]) && (topLevel || !p.structs[id].isClass)
    case GenericInstance(id, _) => !Foreign(p.structs[id]) && (topLevel || !p.structs[id].isClass)
    case _ => false
  }

  /** `c` is the type of a field, of a payload, or the underlying type in the definition behind `t`. */
  ghost predicate IsMember(p: Program, t: TypeId, c: TypeId)
    requires RefersInside(p) && t < |p.types|
  {
    match p.types[t]
    case EnumType(id) => IsEnumMember(p.enums[id], c)
    case GenericEnumInstance(id, _) => IsEnumMember(p.enums[id], c)
    case StructType(id) => c in p.structs[id].fields
    case GenericInstance(id, _) => c in p.structs[id].fields
    case _ => false
  }

  ghost predicate IsEnumMember(e: Enum, c: TypeId) {
    e.underlying == Some(c) || exists v :: v in e.variants && c in Payload(v)
  }

  function Arguments(p: Program, t: TypeId): seq<TypeId>
    requires t < |p.types|
  {
    if p.types[t].GenericInstance? || p.types[t].GenericEnumInstance? then p.types[t].args else []
  }

  /** The extraction looks at this argument: not at an instance, and at no argument of an enum. */
  ghost predicate IsFollowed(p: Program, t: TypeId, a: TypeId)
    requires t < |p.types| && a < |p.types|
  {
    p.types[t].GenericInstance? && a in p.types[t].args && FollowsArgument(p, a)
  }

  /** The super structs of a struct, nearest first, without those defined elsewhere. */
  ghost function Ancestors(p: Program, rank: TypeId -> nat, super: Option<nat>): (all: seq<TypeId>)
    requires Sound(p, rank) && (super.Some? ==> super.value < |p.structs|)
    ensures forall b :: b in all ==> b < |p.types| && Opens(p, b, true)
    decreases if super.Some? then rank(p.structs[super.value].typeId) + 1 else 0
  {
    if super.None? then []
    else
      var s := p.structs[super.value];
      (if Foreign(s) then [] else [s.typeId]) + Ancestors(p, rank, s.super)
  }

  ghost predicate IsAncestor(p: Program, rank: TypeId -> nat, t: TypeId, b: TypeId)
    requires Sound(p, rank) && t < |p.types|
  {
    (p.types[t].StructType? || p.types[t].GenericInstance?) && b in Ancestors(p, rank, p.structs[p.types[t].id].super)
  }

  /** The definition behind `t` cannot be laid out before that behind `c`. */
  ghost predicate Requires(p: Program, rank: TypeId -> nat, t: TypeId, c: TypeId)
    requires Sound(p, rank)
  {
    && t < |p.types| && c < |p.types|
    && (((IsMember(p, t, c) || IsFollowed(p, t, c)) && Unfolds(p, c)) || IsAncestor(p, rank, t, c))
  }

  ghost predicate IsRequirePath(p: Program, rank: TypeId -> nat, q: seq<TypeId>)
    requires Sound(p, rank)
  {
    forall i :: 0 < i < |q| ==> Requires(p, rank, q[i - 1], q[i])
  }

  ghost predicate IsRequirePathTo(p: Program, rank: TypeId -> nat, q: seq<TypeId>, t: TypeId, d: TypeId)
    requires Sound(p, rank)
  {
    && q != [] && q[0] == t && IsRequirePath(p, rank, q)
    && q[|q| - 1] < |p.types| && DefinitionOf(p, q[|q| - 1]) == Some(d)
  }

  /** From `t`, members, followed arguments and super structs lead to the definition `d`. */
  ghost predicate LeadsTo(p: Program, rank: TypeId -> nat, t: TypeId, d: TypeId)
    requires Sound(p, rank)
  {
    exists q :: IsRequirePathTo(p, rank, q, t, d)
  }

  ghost predicate Extracted(p: Program, rank: TypeId -> nat, t: TypeId, topLevel: bool, d: TypeId)
    requires Sound(p, rank)
  {
    t < |p.types| && d in Extract(p, rank, t, map[], topLevel)
  }

  lemma {:induction false} InParts(p: Program, rank: TypeId -> nat, parts: seq<TypeId>, bound: nat, d: TypeId)
    requires Sound(p, rank) && TypesExist(p, parts) && PartsBelow(p, rank, parts, bound)
    ensures d in ExtractParts(p, rank, parts, map[], bound) <==> exists c :: c in parts && Extracted(p, rank, c, false, d)
  {
    if parts != [] {
      assert parts[0] in parts && forall t :: t in parts[1..] ==> t in parts;
      InParts(p, rank, parts[1..], bound, d);
      assert Extracted(p, rank, parts[0], false, d) <==> d in Extract(p, rank, parts[0], map[], false);
      assert parts == [parts[0]] + parts[1..];
    }
  }

  lemma {:induction false} InArguments(p: Program, rank: TypeId -> nat, args: seq<TypeId>, bound: nat, d: TypeId)
    requires Sound(p, rank) && TypesExist(p, args) && ArgumentsBelow(p, rank, args, bound)
    ensures d in ExtractArguments(p, rank, args, map[], bound) <==>
            exists c :: c in args && FollowsArgument(p, c) && Extracted(p, rank, c, false, d)
  {
    if args != [] {
      assert args[0] in args && forall t :: t in args[1..] ==> t in args;
      InArguments(p, rank, args[1..], bound, d);
      assert Extracted(p, rank, args[0], false, d) <==> d in Extract(p, rank, args[0], map[], false);
      assert args == [args[0]] + args[1..];
    }
  }

  lemma {:induction false} InVariants(p: Program, rank: TypeId -> nat, variants: seq<Variant>, bound: nat, d: TypeId)
    requires Sound(p, rank)
    requires forall v :: v in variants ==> TypesExist(p, Payload(v)) && PartsBelow(p, rank, Payload(v), bound)
    ensures d in ExtractVariants(p, rank, variants, map[], bound) <==>
            exists v, c :: v in variants && c in Payload(v) && Extracted(p, rank, c, false, d)
  {
    if variants != [] {
      InParts(p, rank, Payload(variants[0]), bound, d);
      InVariants(p, rank, variants[1..], bound, d);
      assert variants == [variants[0]] + variants[1..];
    }
  }

  lemma {:induction false} InSupers(p: Program, rank: TypeId -> nat, super: Option<nat>, bound: nat, d: TypeId)
    requires Sound(p, rank)
    requires super.Some? ==> super.value < |p.structs| && rank(p.structs[super.value].typeId) < bound
    ensures d in ExtractSupers(p, rank, super, map[], bound) <==>
            exists b :: b in Ancestors(p, rank, super) && Extracted(p, rank, b, true, d)
    decreases if super.Some? then rank(p.structs[super.value].typeId) + 1 else 0
  {
    if super.Some? {
      var s := p.structs[super.value];
      InSupers(p, rank, s.super, bound, d);
      var first := ExtractStruct(p, rank, super.value, map[], true, [], rank(s.typeId));
      assert Extract(p, rank, s.typeId, map[], true) == first;
      assert Extracted(p, rank, s.typeId, true, d) <==> d in first;
      assert Foreign(s) ==> first == [];
      assert !Foreign(s) ==> s.typeId in Ancestors(p, rank, super);
      assert Ancestors(p, rank, super) == (if Foreign(s) then [] else [s.typeId]) + Ancestors(p, rank, s.super);
      assert ExtractSupers(p, rank, super, map[], bound) == first + ExtractSupers(p, rank, s.super, map[], bound);
    }
  }

  /** One level of the extraction. */
  ghost predicate ExtractedNext(p: Program, rank: TypeId -> nat, t: TypeId, topLevel: bool, d: TypeId)
    requires Sound(p, rank) && t < |p.types|
  {
    && Opens(p, t, topLevel)
    && (|| DefinitionOf(p, t) == Some(d)
        || (exists c: TypeId :: c < |p.types| && (IsMember(p, t, c) || IsFollowed(p, t, c)) && Extracted(p, rank, c, false, d))
        || (exists b :: IsAncestor(p, rank, t, b) && Extracted(p, rank, b, true, d)))
  }

  lemma InExtract(p: Program, rank: TypeId -> nat, t: TypeId, topLevel: bool, d: TypeId)
    requires Sound(p, rank) && t < |p.types|
    ensures Extracted(p, rank, t, topLevel, d) <==> ExtractedNext(p, rank, t, topLevel, d)
  {
    match p.types[t]
    case EnumType(id) => InEnumType(p, rank, t, topLevel, d);
    case GenericEnumInstance(id, _) => InEnumType(p, rank, t, topLevel, d);
    case StructType(id) => InStructType(p, rank, t, [], topLevel, d);
    case GenericInstance(id, args) => InStructType(p, rank, t, args, topLevel, d);
    case TraitType =>
    case OtherType =>
  }

  lemma InEnumType(p: Program, rank: TypeId -> nat, t: TypeId, topLevel: bool, d: TypeId)
    requires Sound(p, rank) && t < |p.types| && (p.types[t].EnumType? || p.types[t].GenericEnumInstance?)
    ensures Extracted(p, rank, t, topLevel, d) <==> ExtractedNext(p, rank, t, topLevel, d)
  {
    var id := p.types[t].id;
    InEnum(p, rank, id, topLevel, rank(t), d);
    assert Extract(p, rank, t, map[], topLevel) == ExtractEnum(p, rank, id, map[], topLevel, rank(t));
    assert forall c: TypeId :: c < |p.types| ==> (IsMember(p, t, c) <==> IsEnumMember(p.enums[id], c)) && !IsFollowed(p, t, c);
    hide Extract, ExtractEnum, IsEnumMember, WellFounded;
  }

  lemma InStructType(p: Program, rank: TypeId -> nat, t: TypeId, args: seq<TypeId>, topLevel: bool, d: TypeId)
    requires Sound(p, rank) && t < |p.types|
    requires (p.types[t].StructType? && args == []) || (p.types[t].GenericInstance? && args == p.types[t].args)
    ensures Extracted(p, rank, t, topLevel, d) <==> ExtractedNext(p, rank, t, topLevel, d)
  {
    var id := p.types[t].id;
    InStruct(p, rank, id, topLevel, args, rank(t), d);
    assert Extract(p, rank, t, map[], topLevel) == ExtractStruct(p, rank, id, map[], topLevel, args, rank(t));
    assert forall c: TypeId :: c < |p.types| ==> (IsMember(p, t, c) <==> c in p.structs[id].fields);
    assert forall c: TypeId :: c < |p.types| ==> (IsFollowed(p, t, c) <==> c in args && FollowsArgument(p, c));
    hide Extract, ExtractStruct, WellFounded;
  }

  lemma InEnum(p: Program, rank: TypeId -> nat, id: nat, topLevel: bool, bound: nat, d: TypeId)
    requires Sound(p, rank) && id < |p.enums| && EnumBelow(p, rank, id, bound)
    ensures d in ExtractEnum(p, rank, id, map[], topLevel, bound) <==>
            && !p.enums[id].isExternal && (topLevel || !p.enums[id].isBoxed)
            && (d == p.enums[id].typeId || exists c: TypeId :: IsEnumMember(p.enums[id], c) && Extracted(p, rank, c, false, d))
  {
    var e := p.enums[id];
    InVariants(p, rank, e.variants, bound, d);
    if e.underlying.Some? {
      assert e.underlying.value in [e.underlying.value];
      assert IsEnumMember(e, e.underlying.value);
      assert Extracted(p, rank, e.underlying.value, false, d) <==> d in Extract(p, rank, e.underlying.value, map[], false);
    }
    forall v, c | v in e.variants && c in Payload(v) ensures IsEnumMember(e, c) {
    }
  }

  lemma InStruct(p: Program, rank: TypeId -> nat, id: nat, topLevel: bool, args: seq<TypeId>, bound: nat, d: TypeId)
    requires Sound(p, rank) && id < |p.structs| && TypesExist(p, args) && StructBelow(p, rank, id, args, bound)
    ensures d in ExtractStruct(p, rank, id, map[], topLevel, args, bound) <==>
            && !Foreign(p.structs[id]) && (topLevel || !p.structs[id].isClass)
            && (|| d == p.structs[id].typeId
                || (exists c :: c in p.structs[id].fields && Extracted(p, rank, c, false, d))
                || (exists c :: c in args && FollowsArgument(p, c) && Extracted(p, rank, c, false, d))
                || (exists b :: b in Ancestors(p, rank, p.structs[id].super) && Extracted(p, rank, b, true, d)))
  {
    InParts(p, rank, p.structs[id].fields, bound, d);
    InArguments(p, rank, args, bound, d);
    InSupers(p, rank, p.structs[id].super, bound, d);
  }

  lemma LeadsOn(p: Program, rank: TypeId -> nat, t: TypeId, c: TypeId, d: TypeId)
    requires Sound(p, rank) && Requires(p, rank, t, c) && LeadsTo(p, rank, c, d)
    ensures LeadsTo(p, rank, t, d)
  {
    var q :| IsRequirePathTo(p, rank, q, c, d);
    assert IsRequirePathTo(p, rank, [t] + q, t, d);
  }

  /** The extraction lists exactly the definitions that the type leads to. */
  lemma ExtractedExactly(p: Program, rank: TypeId -> nat, t: TypeId, topLevel: bool, d: TypeId)
    requires Sound(p, rank) && t < |p.types|
    ensures d in Extract(p, rank, t, map[], topLevel) <==> Opens(p, t, topLevel) && LeadsTo(p, rank, t, d)
  {
    if d in Extract(p, rank, t, map[], topLevel) {
      assert Extracted(p, rank, t, topLevel, d);
      ExtractedIsLedTo(p, rank, t, topLevel, d);
    }
    if Opens(p, t, topLevel) && LeadsTo(p, rank, t, d) {
      var q :| IsRequirePathTo(p, rank, q, t, d);
      PathIsExtracted(p, rank, q, topLevel, d);
    }
  }

  lemma {:induction false} ExtractedIsLedTo(p: Program, rank: TypeId -> nat, t: TypeId, topLevel: bool, d: TypeId)
    requires Sound(p, rank) && Extracted(p, rank, t, topLevel, d)
    ensures Opens(p, t, topLevel) && LeadsTo(p, rank, t, d)
    decreases rank(t)
  {
    InExtract(p, rank, t, topLevel, d);
    if DefinitionOf(p, t) == Some(d) {
      assert IsRequirePathTo(p, rank, [t], t, d);
    } else if c: TypeId :| c < |p.types| && (IsMember(p, t, c) || IsFollowed(p, t, c)) && Extracted(p, rank, c, false, d) {
      InExtract(p, rank, c, false, d);
      MembersRankBelow(p, rank, t, c);
      ExtractedIsLedTo(p, rank, c, false, d);
      LeadsOn(p, rank, t, c, d);
    } else {
      var b :| IsAncestor(p, rank, t, b) && Extracted(p, rank, b, true, d);
      AncestorsRankBelow(p, rank, p.structs[p.types[t].id].super, rank(t));
      ExtractedIsLedTo(p, rank, b, true, d);
      LeadsOn(p, rank, t, b, d);
    }
  }

  lemma MembersRankBelow(p: Program, rank: TypeId -> nat, t: TypeId, c: TypeId)
    requires Sound(p, rank) && t < |p.types| && c < |p.types|
    requires (IsMember(p, t, c) || IsFollowed(p, t, c)) && Unfolds(p, c)
    ensures rank(c) < rank(t)
  {
    if p.types[t].EnumType? || p.types[t].GenericEnumInstance? {
      var e := p.enums[p.types[t].id];
      if e.underlying == Some(c) {
        assert c in [e.underlying.value];
      }
    }
  }

  lemma {:induction false} AncestorsRankBelow(p: Program, rank: TypeId -> nat, super: Option<nat>, bound: nat)
    requires Sound(p, rank)
    requires super.Some? ==> super.value < |p.structs| && rank(p.structs[super.value].typeId) < bound
    ensures forall b :: b in Ancestors(p, rank, super) ==> rank(b) < bound
    decreases if super.Some? then rank(p.structs[super.value].typeId) + 1 else 0
  {
    if super.Some? {
      AncestorsRankBelow(p, rank, p.structs[super.value].super, bound);
    }
  }

  lemma {:induction false} PathIsExtracted(p: Program, rank: TypeId -> nat, q: seq<TypeId>, topLevel: bool, d: TypeId)
    requires Sound(p, rank) && q != [] && q[0] < |p.types| && Opens(p, q[0], topLevel)
    requires IsRequirePathTo(p, rank, q, q[0], d)
    ensures Extracted(p, rank, q[0], topLevel, d)
  {
    var t := q[0];
    if |q| > 1 {
      var c := q[1];
      assert Requires(p, rank, t, c);
      forall i | 0 < i < |q[1..]| ensures Requires(p, rank, q[1..][i - 1], q[1..][i]) {
        assert Requires(p, rank, q[i], q[i + 1]);
      }
      assert IsRequirePathTo(p, rank, q[1..], c, d);
      PathIsExtracted(p, rank, q[1..], IsAncestor(p, rank, t, c), d);
    }
    InExtract(p, rank, t, topLevel, d);
  }

  // ----- What a definition holds by value -----

  /** Type arguments within type arguments, all of them used by value. */
  ghost predicate IsArgumentPath(p: Program, path: seq<TypeId>)
    requires RefersInside(p)
  {
    && path != []
    && (forall i :: 0 <= i < |path| ==> path[i] < |p.types| && Unfolds(p, path[i]))
    && (forall i :: 0 < i < |path| ==> path[i] in Arguments(p, path[i - 1]))
  }

  ghost predicate ArgumentPathTo(p: Program, path: seq<TypeId>, c: TypeId, d: TypeId)
    requires RefersInside(p)
  {
    IsArgumentPath(p, path) && path[0] == c && DefinitionOf(p, path[|path| - 1]) == Some(d)
  }

  /** A member of type `c` needs the definition `d`: its own, or that of an argument at any depth. */
  ghost predicate MemberNeeds(p: Program, c: TypeId, d: TypeId)
    requires RefersInside(p)
  {
    exists path :: ArgumentPathTo(p, path, c, d)
  }

  /** The definition `t` holds another one, `d`, by value: through a member, or as its super struct. */
  ghost predicate Holds(p: Program, t: TypeId, d: TypeId)
    requires RefersInside(p)
  {
    && t != d && IsDefinition(p, t) && Opens(p, t, true)
    && (|| (exists c :: IsMember(p, t, c) && MemberNeeds(p, c, d))
        || (p.types[t].StructType? && IsSuper(p, p.structs[p.types[t].id].super, d)))
  }

  ghost predicate IsSuper(p: Program, super: Option<nat>, d: TypeId)
    requires RefersInside(p)
  {
    super.Some? && super.value < |p.structs| && !Foreign(p.structs[super.value]) && p.structs[super.value].typeId == d
  }

  /** All the arguments on the path are of the kind that the extraction looks at. */
  ghost predicate IsFollowedPath(p: Program, path: seq<TypeId>)
    requires RefersInside(p) && IsArgumentPath(p, path)
  {
    forall i :: 0 < i < |path| ==> IsFollowed(p, path[i - 1], path[i])
  }

  /** Some member of `t` needs `d` through an argument that the extraction does not look at. */
  ghost predicate Overlooks(p: Program, t: TypeId, d: TypeId)
    requires RefersInside(p)
  {
    && t != d && IsDefinition(p, t) && Opens(p, t, true)
    && exists c, path :: IsMember(p, t, c) && ArgumentPathTo(p, path, c, d) && !IsFollowedPath(p, path)
  }

  lemma FollowedPathLeads(p: Program, rank: TypeId -> nat, t: TypeId, c: TypeId, path: seq<TypeId>, d: TypeId)
    requires Sound(p, rank) && t < |p.types| && IsMember(p, t, c)
    requires ArgumentPathTo(p, path, c, d) && IsFollowedPath(p, path)
    ensures LeadsTo(p, rank, t, d)
  {
    var q := [t] + path;
    forall i | 0 < i < |q| ensures Requires(p, rank, q[i - 1], q[i]) {
      assert q[i] == path[i - 1] && Unfolds(p, path[i - 1]);
      if i > 1 {
        assert IsFollowed(p, path[i - 2], path[i - 1]);
      }
    }
    assert IsRequirePathTo(p, rank, q, t, d);
  }

  /**
   What a definition holds by value is extracted exactly when it leads there by a way that the
   extraction looks at; and that can fail only behind an overlooked argument.
   */
  lemma HeldIsExtracted(p: Program, rank: TypeId -> nat, t: TypeId, d: TypeId)
    requires Sound(p, rank) && Holds(p, t, d)
    ensures d in Extract(p, rank, t, map[], true) <==> LeadsTo(p, rank, t, d)
    ensures !Overlooks(p, t, d) ==> d in Extract(p, rank, t, map[], true)
  {
    ExtractedExactly(p, rank, t, true, d);
    if !Overlooks(p, t, d) {
      if c :| IsMember(p, t, c) && MemberNeeds(p, c, d) {
        var path :| ArgumentPathTo(p, path, c, d);
        FollowedPathLeads(p, rank, t, c, path, d);
      } else {
        assert IsAncestor(p, rank, t, d);
        assert Requires(p, rank, t, d);
        assert IsRequirePathTo(p, rank, [t, d], t, d);
      }
    }
  }

  /**
   The extraction misses nothing that a definition holds by value exactly when each definition
   behind an overlooked argument is also held in some other way, by it or by what it holds.
   */
  lemma ExtractionIsComplete(p: Program, rank: TypeId -> nat, t: TypeId)
    requires Sound(p, rank) && t < |p.types|
    ensures (forall d :: Holds(p, t, d) ==> d in Extract(p, rank, t, map[], true)) <==>
            (forall d :: Overlooks(p, t, d) ==> LeadsTo(p, rank, t, d))
  {
    forall d | Holds(p, t, d)
      ensures d in Extract(p, rank, t, map[], true) <==> LeadsTo(p, rank, t, d)
      ensures !Overlooks(p, t, d) ==> d in Extract(p, rank, t, map[], true)
    {
      HeldIsExtracted(p, rank, t, d);
    }
    forall d | Overlooks(p, t, d) ensures Holds(p, t, d) {
    }
  }

  /** No member of `t` is an instance with an argument, used by value, that is itself an instance; nor one of an enum. */
  ghost predicate HasPlainArguments(p: Program, t: TypeId)
    requires RefersInside(p) && t < |p.types|
  {
    forall c: TypeId, a: TypeId :: c < |p.types| && a < |p.types| && IsMember(p, t, c) && Unfolds(p, c) && a in Arguments(p, c) && Unfolds(p, a)
      ==> p.types[c].GenericInstance? && FollowsArgument(p, a)
  }

  /** Then nothing is overlooked. */
  lemma PlainArgumentsAreFollowed(p: Program, t: TypeId, d: TypeId)
    requires RefersInside(p) && t < |p.types| && HasPlainArguments(p, t)
    ensures !Overlooks(p, t, d)
  {
    if Overlooks(p, t, d) {
      var c, path :| IsMember(p, t, c) && ArgumentPathTo(p, path, c, d) && !IsFollowedPath(p, path);
      PlainPathIsFollowed(p, t, path);
    }
  }

  lemma NextIsArgument(p: Program, path: seq<TypeId>, i: nat)
    requires RefersInside(p) && IsArgumentPath(p, path) && i + 1 < |path|
    ensures path[i + 1] in Arguments(p, path[i])
  {
    hide Unfolds, RefersInside, Arguments;
  }

  lemma PlainPathIsFollowed(p: Program, t: TypeId, path: seq<TypeId>)
    requires RefersInside(p) && t < |p.types| && HasPlainArguments(p, t)
    requires IsArgumentPath(p, path) && IsMember(p, t, path[0])
    ensures IsFollowedPath(p, path)
  {
    if |path| > 1 {
      var c, a := path[0], path[1];
      assert c < |p.types| && Unfolds(p, c) && a < |p.types| && Unfolds(p, a) && a in Arguments(p, c);
      assert IsFollowed(p, c, a) && Arguments(p, a) == [];
      if |path| > 2 {
        NextIsArgument(p, path, 1);
        assert false;
      }
    }
  }

  /** Struct 0 has a field of type Optional<Box<i64>>, for a generic struct Box of the same scope. */
  predicate IsBoxInOptional(p: Program) {
    && p.types == [StructType(0), StructType(1), StructType(2), GenericInstance(2, [4]), GenericInstance(1, [5]), OtherType]
    && p.structs == [Struct(0, false, false, false, None, [3]), Struct(1, false, false, false, None, [5]), Struct(2, true, true, false, None, [])]
    && p.enums == []
  }

  function BoxRank(t: TypeId): nat {
    if t == 0 then 2 else if t == 3 || t == 4 then 1 else 0
  }

  lemma BoxInOptionalIsSound(p: Program)
    requires IsBoxInOptional(p)
    ensures Sound(p, BoxRank)
  {
    assert RefersInside(p);
    forall t | 0 <= t < |p.types| ensures
      match p.types[t]
      case EnumType(id) => false
      case GenericEnumInstance(id, _) => false
      case StructType(id) => t == p.structs[id].typeId && StructBelow(p, BoxRank, id, [], BoxRank(t))
      case GenericInstance(id, args) => StructBelow(p, BoxRank, id, args, BoxRank(t)) && BoxRank(p.structs[id].typeId) < BoxRank(t)
      case _ => true
    {
      assert t == 0 || t == 1 || t == 2 || t == 3 || t == 4 || t == 5;
    }
  }

  /** The struct holds a Box by value, and the extraction does not find it. */
  lemma BoxIsOverlooked(p: Program)
    requires IsBoxInOptional(p)
    ensures Sound(p, BoxRank) && Holds(p, 0, 1) && Overlooks(p, 0, 1)
    ensures Extract(p, BoxRank, 0, map[], true) == [0, 2] && Extract(p, BoxRank, 1, map[], true) == [1]
  {
    BoxInOptionalIsSound(p);
    BoxIsHeld(p);
    HolderExtraction(p);
    BoxExtraction(p);
    hide *;
  }

  lemma HolderExtraction(p: Program)
    requires IsBoxInOptional(p) && Sound(p, BoxRank)
    ensures Extract(p, BoxRank, 0, map[], true) == [0, 2]
  {
    OptionalExtraction(p);
    PlainStruct(p, BoxRank, 0, true, [3]);
    hide *;
  }

  lemma BoxExtraction(p: Program)
    requires IsBoxInOptional(p) && Sound(p, BoxRank)
    ensures Extract(p, BoxRank, 1, map[], true) == [1]
  {
    assert p.types[5] == OtherType && Extract(p, BoxRank, 5, map[], false) == [];
    PlainStruct(p, BoxRank, 1, true, [5]);
    hide *;
  }

  lemma OptionalExtraction(p: Program)
    requires IsBoxInOptional(p) && Sound(p, BoxRank)
    ensures Extract(p, BoxRank, 3, map[], false) == [2]
  {
    assert p.types[3] == GenericInstance(2, [4]) && p.types[4] == GenericInstance(1, [5]);
    var args := ExtractArguments(p, BoxRank, [4], map[], 1);
    assert args == [] + ExtractArguments(p, BoxRank, [4][1..], map[], 1) == [];
    var parts := ExtractParts(p, BoxRank, [], map[], 1);
    assert Extract(p, BoxRank, 3, map[], false) == ExtractStruct(p, BoxRank, 2, map[], false, [4], 1);
    assert ExtractStruct(p, BoxRank, 2, map[], false, [4], 1) == args + [] + [2] + parts;
  }

  /** A struct with at most one field lists itself and what the field needs. */
  lemma PlainStruct(p: Program, rank: TypeId -> nat, t: TypeId, topLevel: bool, fields: seq<TypeId>)
    requires Sound(p, rank) && t < |p.types| && p.types[t] == StructType(t)
    requires p.structs[t] == Struct(t, false, false, false, None, fields) && |fields| <= 1
    requires fields != [] ==> fields[0] < |p.types|
    ensures Extract(p, rank, t, map[], topLevel) ==
            [t] + if fields == [] then [] else Extract(p, rank, fields[0], map[], false)
  {
    var parts := ExtractParts(p, rank, fields, map[], rank(t));
    assert Extract(p, rank, t, map[], topLevel) == ExtractStruct(p, rank, t, map[], topLevel, [], rank(t)) == [t] + parts;
    if fields != [] {
      assert fields[1..] == [];
      assert parts == Extract(p, rank, fields[0], map[], false) + ExtractParts(p, rank, [], map[], rank(t));
    }
  }

  lemma BoxIsHeld(p: Program)
    requires IsBoxInOptional(p) && RefersInside(p)
    ensures Holds(p, 0, 1) && Overlooks(p, 0, 1)
  {
    var path := [3, 4];
    assert Unfolds(p, 3) && Unfolds(p, 4) && 4 in Arguments(p, 3);
    assert ArgumentPathTo(p, path, 3, 1);
    assert IsMember(p, 0, 3) && MemberNeeds(p, 3, 1);
    assert !IsFollowed(p, path[0], path[1]);
    assert !IsFollowedPath(p, path);
  }

  // ----- The methods -----

  method ExtractDependenciesFrom(p: Program, ghost rank: TypeId -> nat, t: TypeId, g: Graph,
          topLevel: bool) returns (dependencies: seq<TypeId>)
    requires Sound(p, rank) && t < |p.types|
    ensures dependencies == Extract(p, rank, t, g, topLevel)
    decreases Weight(p, rank, t, topLevel), 3
  {
    dependencies := [];
    if !IsBoxed(p, t) && t in g {
      for i := 0 to |g[t]|
        invariant dependencies == g[t][..i]
      {
        dependencies := dependencies + [g[t][i]];
      }
      return;
    }
    match p.types[t] {
      case EnumType(id) => dependencies := ExtractDependenciesFromEnum(p, rank, id, g, topLevel, rank(t));
      case GenericEnumInstance(id, _) => dependencies := ExtractDependenciesFromEnum(p, rank, id, g, topLevel, rank(t));
      case StructType(id) => dependencies := ExtractDependenciesFromStruct(p, rank, id, g, topLevel, [], rank(t));
      case GenericInstance(id, args) => dependencies := ExtractDependenciesFromStruct(p, rank, id, g, topLevel, args, rank(t));
      case TraitType =>
      case OtherType =>
    }
  }

  /** The inner loop over the fields of a struct or of a struct-like variant. */
  method ExtractFromParts(p: Program, ghost rank: TypeId -> nat, parts: seq<TypeId>, g: Graph,
          ghost bound: nat) returns (dependencies: seq<TypeId>)
    requires Sound(p, rank) && TypesExist(p, parts) && PartsBelow(p, rank, parts, bound)
    ensures dependencies == ExtractParts(p, rank, parts, g, bound)
    decreases bound + 1, 0, |parts|
  {
    dependencies := [];
    Tails(parts);
    for i := 0 to |parts|
      invariant PartsBelow(p, rank, parts[i..], bound) && TypesExist(p, parts[i..])
      invariant dependencies + ExtractParts(p, rank, parts[i..], g, bound) == ExtractParts(p, rank, parts, g, bound)
    {
      assert parts[i..][0] == parts[i] && parts[i..][1..] == parts[i + 1..];
      var inner := ExtractDependenciesFrom(p, rank, parts[i], g, false);
      Associative(dependencies, inner, ExtractParts(p, rank, parts[i + 1..], g, bound));
      dependencies := dependencies + inner;
    }
  }

  lemma Tails(ts: seq<TypeId>)
    ensures forall i :: 0 <= i < |ts| ==> ts[i] in ts
    ensures forall i, t :: 0 <= i <= |ts| && t in ts[i..] ==> t in ts
  {
  }

  method ExtractDependenciesFromEnum(p: Program, ghost rank: TypeId -> nat, id: nat, g: Graph, topLevel: bool,
          ghost bound: nat) returns (dependencies: seq<TypeId>)
    requires Sound(p, rank) && id < |p.enums| && EnumBelow(p, rank, id, bound)
    ensures dependencies == ExtractEnum(p, rank, id, g, topLevel, bound)
    decreases if p.enums[id].isExternal || (p.enums[id].isBoxed && !topLevel) then 0 else bound + 1, 2
  {
    var e := p.enums[id];
    if e.isExternal || (e.isBoxed && !topLevel) {
      return [];
    }
    dependencies := [e.typeId];
    if e.underlying.Some? {
      assert e.underlying.value in [e.underlying.value];
      var inner := ExtractDependenciesFrom(p, rank, e.underlying.value, g, false);
      dependencies := dependencies + inner;
    }
    ghost var head := dependencies;
    ghost var listed: seq<TypeId> := [];
    for i := 0 to |e.variants|
      invariant dependencies == head + listed
      invariant forall v :: v in e.variants[i..] ==> v in e.variants
      invariant listed + ExtractVariants(p, rank, e.variants[i..], g, bound) == ExtractVariants(p, rank, e.variants, g, bound)
    {
      var v := e.variants[i];
      assert v in e.variants && e.variants[i..][0] == v && e.variants[i..][1..] == e.variants[i + 1..];
      var inner := ExtractFromParts(p, rank, Payload(v), g, bound);
      Associative(listed, inner, ExtractVariants(p, rank, e.variants[i + 1..], g, bound));
      Associative(head, listed, inner);
      dependencies := dependencies + inner;
      listed := listed + inner;
    }
  }

  method ExtractDependenciesFromStruct(p: Program, ghost rank: TypeId -> nat, id: nat, g: Graph, topLevel: bool,
          args: seq<TypeId>, ghost bound: nat) returns (dependencies: seq<TypeId>)
    requires Sound(p, rank) && id < |p.structs| && TypesExist(p, args) && StructBelow(p, rank, id, args, bound)
    ensures dependencies == ExtractStruct(p, rank, id, g, topLevel, args, bound)
    decreases if Foreign(p.structs[id]) || (p.structs[id].isClass && !topLevel) then 0 else bound + 1, 2
  {
    var s := p.structs[id];
    if Foreign(s) || (s.isClass && !topLevel) {
      return [];
    }
    var fromArguments := ExtractFromArguments(p, rank, args, g, bound);
    var fromSupers := ExtractFromSupers(p, rank, s.super, g, bound);
    var fromFields := ExtractFromParts(p, rank, s.fields, g, bound);
    dependencies := fromArguments + fromSupers + [s.typeId] + fromFields;
  }

  /** The loop up the super chain. */
  method ExtractFromSupers(p: Program, ghost rank: TypeId -> nat, first: Option<nat>, g: Graph,
          ghost bound: nat) returns (dependencies: seq<TypeId>)
    requires Sound(p, rank)
    requires first.Some? ==> first.value < |p.structs| && rank(p.structs[first.value].typeId) < bound
    ensures dependencies == ExtractSupers(p, rank, first, g, bound)
    decreases bound + 1, 0
  {
    dependencies := [];
    var super: Option<nat> := first;
    while super.Some?
      invariant super.Some? ==> super.value < |p.structs| && rank(p.structs[super.value].typeId) < bound
      invariant dependencies + ExtractSupers(p, rank, super, g, bound) == ExtractSupers(p, rank, first, g, bound)
      decreases if super.Some? then rank(p.structs[super.value].typeId) + 1 else 0
    {
      var s := p.structs[super.value];
      var inner := ExtractDependenciesFromStruct(p, rank, super.value, g, true, [], rank(s.typeId));
      Associative(dependencies, inner, ExtractSupers(p, rank, s.super, g, bound));
      dependencies := dependencies + inner;
      super := s.super;
    }
  }

  method ExtractFromArguments(p: Program, ghost rank: TypeId -> nat, args: seq<TypeId>, g: Graph,
          ghost bound: nat) returns (dependencies: seq<TypeId>)
    requires Sound(p, rank) && TypesExist(p, args) && ArgumentsBelow(p, rank, args, bound)
    ensures dependencies == ExtractArguments(p, rank, args, g, bound)
    decreases bound + 1, 0, |args|
  {
    dependencies := [];
    Tails(args);
    for i := 0 to |args|
      invariant ArgumentsBelow(p, rank, args[i..], bound) && TypesExist(p, args[i..])
      invariant dependencies + ExtractArguments(p, rank, args[i..], g, bound) == ExtractArguments(p, rank, args, g, bound)
    {
      assert args[i..][0] == args[i] && args[i..][1..] == args[i + 1..];
      var inner: seq<TypeId> := [];
      if FollowsArgument(p, args[i]) {
        inner := ExtractDependenciesFrom(p, rank, args[i], g, false);
      }
      Associative(dependencies, inner, ExtractArguments(p, rank, args[i + 1..], g, bound));
      dependencies := dependencies + inner;
    }
  }

  /**
   The graph of a scope. `scopeTypes` is the scope's dictionary in whatever order its
   iterator gives; the graph is the same for all of them.
   */
  method ProduceCodegenDependencyGraph(p: Program, ghost rank: TypeId -> nat, scopeTypes: seq<TypeId>) returns (g: Graph)
    requires Sound(p, rank) && TypesExist(p, scopeTypes)
    ensures g.Keys == Elements(scopeTypes)
    ensures Faithful(p, rank, g)
  {
    g := map[];
    for i := 0 to |scopeTypes|
      invariant g.Keys == Elements(scopeTypes[..i])
      invariant Faithful(p, rank, g)
    {
      var t := scopeTypes[i];
      assert t in scopeTypes && scopeTypes[..i + 1] == scopeTypes[..i] + [t];
      MemoAgrees(p, rank, t, g, true);
      var dependencies := ExtractDependenciesFrom(p, rank, t, g, true);
      g := g[t := dependencies];
    }
    assert scopeTypes[..|scopeTypes|] == scopeTypes;
  }
}
