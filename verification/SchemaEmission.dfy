/** Which JSON a type puts on the wire, where undefined has no encoding of its own, and when the
    compiled schemas accept all of it. */
module SchemaEmission {
  import opened Basics
  import opened JsonSchema
  import opened SchemaSynthesis
  import opened SchemaMeaning

  // ---- Emission. ----

  /** A value of type `t` may be undefined. */
  least predicate MayBeUndefined(g: Graph, t: TypeId) {
    t < |g| &&
    match g[t]
    case AnyOrUnknown => true
    case Exotic => true
    case Undefined => true
    case Union(members) => exists i :: 0 <= i < |members| && MayBeUndefined(g, members[i])
    case _ => false
  }

  /** Some value of type `t` is encoded as `v`: a property that is undefined is left out, and an
      array element that is undefined is written as null. */
  least predicate Emits(g: Graph, v: Json, t: TypeId) {
    t < |g| &&
    match g[t]
    case AnyOrUnknown => true
    case Exotic => true
    case Undefined => false
    case Null => v.JNull?
    case Boolean => v.JBool?
    case BooleanLiteral(b) => v == JBool(b)
    case String => v.JStr?
    case StringLiteral(s) => v == JStr(s)
    case Number => v.JNum?
    case NumberLiteral(n) => v == JNum(n)
    case Union(members) => exists i :: 0 <= i < |members| && Emits(g, v, members[i])
    case Array(element) =>
      v.JArr? && (element.Some? ==> forall i :: 0 <= i < |v.items| ==>
        Emits(g, v.items[i], element.value) || (v.items[i].JNull? && MayBeUndefined(g, element.value)))
    case Tuple(args) =>
      v.JArr? && |v.items| == |args| && forall i :: 0 <= i < |args| ==>
        Emits(g, v.items[i], args[i]) || (v.items[i].JNull? && MayBeUndefined(g, args[i]))
    case Object(props, index) =>
      && v.JObj?
      && (forall i :: 0 <= i < |props| ==>
            props[i].optional || props[i].name in v.fields || MayBeUndefined(g, props[i].ty))
      && (forall i :: 0 <= i < |props| && props[i].name in v.fields ==>
            Emits(g, v.fields[props[i].name], props[i].ty))
      && (forall k :: k in v.fields && !Declares(props, k) ==>
            index.Some? && Emits(g, v.fields[k], index.value))
  }

  // ---- Which types emit anything. ----

  /** Some value of type `t` has an encoding. */
  least predicate CanEmit(g: Graph, t: TypeId) {
    t < |g| &&
    match g[t]
    case Undefined => false
    case Union(members) => exists i :: 0 <= i < |members| && CanEmit(g, members[i])
    case Tuple(args) => forall i :: 0 <= i < |args| ==> CanEmit(g, args[i]) || MayBeUndefined(g, args[i])
    case Object(props, _) => forall i :: 0 <= i < |props| ==>
      props[i].optional || MayBeUndefined(g, props[i].ty) || CanEmit(g, props[i].ty)
    case _ => true
  }

  least lemma EmittingCanEmit(g: Graph, v: Json, t: TypeId)
    requires Emits(g, v, t)
    ensures CanEmit(g, t)
  {
  }

  ghost predicate EmitsSomething(g: Graph, t: TypeId) {
    exists v :: Emits(g, v, t)
  }

  /** An encoding of the type, or null where it has none. */
  ghost function Sample(g: Graph, t: TypeId): (v: Json)
    ensures EmitsSomething(g, t) ==> Emits(g, v, t)
    ensures !EmitsSomething(g, t) ==> v.JNull?
  {
    if EmitsSomething(g, t) then var v :| Emits(g, v, t); v else JNull
  }

  lemma TupleSample(g: Graph, t: TypeId)
    requires t < |g| && g[t].Tuple?
    requires forall i :: 0 <= i < |g[t].args| ==> EmitsSomething(g, g[t].args[i]) || MayBeUndefined(g, g[t].args[i])
    ensures EmitsSomething(g, t)
  {
    var args := g[t].args;
    var v := JArr(seq(|args|, i requires 0 <= i < |args| => Sample(g, args[i])));
    assert Emits(g, v, t);
  }

  predicate DistinctNames(props: seq<Prop>) {
    forall i, j :: 0 <= i < j < |props| ==> props[i].name != props[j].name
  }

  ghost function Named(props: seq<Prop>, name: string): (p: Prop)
    requires Declares(props, name)
    ensures p in props && p.name == name
  {
    var i :| 0 <= i < |props| && props[i].name == name;
    props[i]
  }

  /** Every property that has an encoding, with one. */
  lemma SampledFields(g: Graph, props: seq<Prop>) returns (fields: map<string, Json>)
    requires DistinctNames(props)
    ensures forall k :: k in fields ==> Declares(props, k)
    ensures forall i :: 0 <= i < |props| ==> (props[i].name in fields <==> EmitsSomething(g, props[i].ty))
    ensures forall i :: 0 <= i < |props| && props[i].name in fields ==> Emits(g, fields[props[i].name], props[i].ty)
  {
    var names := set i | 0 <= i < |props| :: props[i].name;
    fields := map k | k in names && EmitsSomething(g, Named(props, k).ty) :: Sample(g, Named(props, k).ty);
    forall i | 0 <= i < |props|
      ensures props[i].name in fields <==> EmitsSomething(g, props[i].ty)
      ensures props[i].name in fields ==> Emits(g, fields[props[i].name], props[i].ty)
    {
      assert props[i].name in names && Named(props, props[i].name) == props[i];
    }
  }

  lemma ObjectSample(g: Graph, t: TypeId)
    requires t < |g| && g[t].Object?
    requires forall i :: 0 <= i < |g[t].props| ==> var p := g[t].props[i];
      p.optional || MayBeUndefined(g, p.ty) || EmitsSomething(g, p.ty)
    ensures EmitsSomething(g, t)
  {
    assert ValidNode(g[t], |g|);
    var fields := SampledFields(g, g[t].props);
    assert Emits(g, JObj(fields), t);
  }

  lemma LeafSample(g: Graph, t: TypeId)
    requires t < |g| && !g[t].Union? && !g[t].Tuple? && !g[t].Object? && !g[t].Undefined?
    ensures EmitsSomething(g, t)
  {
    match g[t]
    case Boolean => assert Emits(g, JBool(true), t);
    case BooleanLiteral(b) => assert Emits(g, JBool(b), t);
    case String => assert Emits(g, JStr(""), t);
    case StringLiteral(s) => assert Emits(g, JStr(s), t);
    case Number => assert Emits(g, JNum(0.0), t);
    case NumberLiteral(n) => assert Emits(g, JNum(n), t);
    case Array(_) => assert Emits(g, JArr([]), t);
    case Null => assert Emits(g, JNull, t);
    case AnyOrUnknown => assert Emits(g, JNull, t);
    case Exotic => assert Emits(g, JNull, t);
  }

  least lemma CanEmitEmits(g: Graph, t: TypeId)
    requires CanEmit(g, t)
    ensures EmitsSomething(g, t)
  {
    match g[t]
    case Union(members) =>
      var i :| 0 <= i < |members| && CanEmit#[_k - 1](g, members[i]);
      CanEmitEmits#[_k - 1](g, members[i]);
      var v :| Emits(g, v, members[i]);
      assert Emits(g, v, t);
    case Tuple(args) => TupleSample(g, t);
    case Object(_, _) => ObjectSample(g, t);
    case _ => LeafSample(g, t);
  }

  /** That is, exactly the types of which some value has an encoding. */
  lemma CanEmitExactly(g: Graph, t: TypeId)
    ensures CanEmit(g, t) <==> EmitsSomething(g, t)
  {
    if CanEmit(g, t) { CanEmitEmits(g, t); }
    if EmitsSomething(g, t) { EmittingCanEmit(g, Sample(g, t), t); }
  }

  // ---- Unions. ----

  ghost predicate EmitsOne(g: Graph, v: Json, ts: seq<TypeId>) {
    exists i :: 0 <= i < |ts| && Emits(g, v, ts[i])
  }

  lemma UnionEmits(g: Graph, t: TypeId, v: Json)
    requires t < |g| && g[t].Union? && Emits(g, v, t)
    ensures (Nullable(g, g[t].members) && v.JNull?) || EmitsOne(g, v, Kept(g, g[t].members))
  {
    assert ValidNode(g[t], |g|);
    var members := g[t].members;
    KeptMembers(g, members);
    var i :| 0 <= i < |members| && Emits(g, v, members[i]);
    if !g[members[i]].Null? {
      assert members[i] in Kept(g, members);
    }
  }

  // ---- Which schemas accept null. ----

  /** The schema of `t`, compiled at this depth, accepts null. */
  predicate AcceptsNull(g: Graph, t: TypeId, depth: nat)
    requires t < |g|
    decreases Room(depth), 0
  {
    depth > MAX_SYNTHESIS_DEPTH ||
    match g[t]
    case AnyOrUnknown => true
    case Exotic => true
    case Undefined => true
    case Null => true
    case Union(members) =>
      assert ValidNode(g[t], |g|);
      var kept := Kept(g, members);
      || kept == [] || Nullable(g, members)
      || (VariantUnion(g, kept) && OneAcceptsNull(g, kept, depth + 1))
    case _ => false
  }

  lemma LeafAcceptsNull(g: Graph, t: TypeId, seen: set<TypeId>, depth: nat)
    requires t < |g| && !g[t].Union?
    ensures Accepts(TypeSchema(g, t, seen, depth), JNull) <==> AcceptsNull(g, t, depth)
  {
  }

  /** Some member of the list has a schema that accepts null. */
  predicate OneAcceptsNull(g: Graph, ts: seq<TypeId>, depth: nat)
    requires forall i :: 0 <= i < |ts| ==> ts[i] < |g|
    decreases Room(depth), 1
  {
    exists i :: 0 <= i < |ts| && AcceptsNull(g, ts[i], depth)
  }

  lemma LiteralsRejectNull(g: Graph, kept: seq<TypeId>)
    requires AllBooleanLiterals(g, kept) || AllStringLiterals(g, kept) || AllNumberLiterals(g, kept)
    ensures !InhabitsOne(g, JNull, kept)
  {
  }

  lemma UnionAcceptsNull(g: Graph, t: TypeId, seen: set<TypeId>, depth: nat)
    requires t < |g| && g[t].Union? && depth <= MAX_SYNTHESIS_DEPTH
    requires var kept := Kept(g, g[t].members);
      VariantAccepts(g, kept, seen, depth + 1, JNull) <==> OneAcceptsNull(g, kept, depth + 1)
    ensures Accepts(UnionSchema(g, g[t].members, seen, depth), JNull) <==> AcceptsNull(g, t, depth)
  {
    var kept := Kept(g, g[t].members);
    var accepted := Accepts(UnionSchema(g, g[t].members, seen, depth), JNull);
    UnionAccepts(g, t, seen, depth, JNull);
    if kept != [] && !VariantUnion(g, kept) {
      LiteralsRejectNull(g, kept);
      assert accepted <==> Nullable(g, g[t].members);
    } else {
      assert accepted <==> kept == [] || Nullable(g, g[t].members) || OneAcceptsNull(g, kept, depth + 1);
    }
  }

  lemma {:induction false} VariantsAcceptNull(g: Graph, ts: seq<TypeId>, seen: set<TypeId>, depth: nat)
    requires forall i :: 0 <= i < |ts| ==> ts[i] < |g|
    ensures VariantAccepts(g, ts, seen, depth, JNull) <==> OneAcceptsNull(g, ts, depth)
    decreases Room(depth), 1
  {
    forall i | 0 <= i < |ts|
      ensures Accepts(TypeSchema(g, ts[i], seen, depth), JNull) <==> AcceptsNull(g, ts[i], depth)
    {
      AcceptsNullExactly(g, ts[i], seen, depth);
    }
  }

  lemma {:induction false} AcceptsNullExactly(g: Graph, t: TypeId, seen: set<TypeId>, depth: nat)
    requires t < |g|
    ensures Accepts(TypeSchema(g, t, seen, depth), JNull) <==> AcceptsNull(g, t, depth)
    decreases Room(depth), 0
  {
    if depth <= MAX_SYNTHESIS_DEPTH {
      if g[t].Union? {
        VariantsAcceptNull(g, Kept(g, g[t].members), seen, depth + 1);
        UnionAcceptsNull(g, t, seen, depth);
        assert TypeSchema(g, t, seen, depth) == UnionSchema(g, g[t].members, seen, depth);
      } else {
        LeafAcceptsNull(g, t, seen, depth);
      }
    }
  }

  /** Deeper schemas only widen. */
  lemma {:induction false} AcceptsNullDeeper(g: Graph, t: TypeId, depth: nat, deeper: nat)
    requires t < |g| && depth <= deeper && AcceptsNull(g, t, depth)
    ensures AcceptsNull(g, t, deeper)
    decreases Room(depth), 0
  {
    if deeper <= MAX_SYNTHESIS_DEPTH && g[t].Union? {
      var kept := Kept(g, g[t].members);
      if kept != [] && !Nullable(g, g[t].members) {
        OneAcceptsNullDeeper(g, kept, depth + 1, deeper + 1);
      }
    }
  }

  lemma {:induction false} OneAcceptsNullDeeper(g: Graph, ts: seq<TypeId>, depth: nat, deeper: nat)
    requires (forall i :: 0 <= i < |ts| ==> ts[i] < |g|) && depth <= deeper && OneAcceptsNull(g, ts, depth)
    ensures OneAcceptsNull(g, ts, deeper)
    decreases Room(depth), 1
  {
    var i :| 0 <= i < |ts| && AcceptsNull(g, ts[i], depth);
    AcceptsNullDeeper(g, ts[i], depth, deeper);
  }

  // ---- The condition on the graph. ----

  ghost predicate OneMayBeUndefined(g: Graph, ts: seq<TypeId>) {
    exists i :: 0 <= i < |ts| && MayBeUndefined(g, ts[i])
  }

  /** Nothing of the node that may be undefined is written in a way its schema rejects: such a property is
      optional, and such an element or tuple argument has a schema beside it that accepts null. An index
      type may be undefined, because the key is then left out. */
  ghost predicate Fits(g: Graph, t: TypeId)
    requires t < |g|
  {
    assert ValidNode(g[t], |g|);
    match g[t]
    case Object(props, _) =>
      CanEmit(g, t) ==> forall i :: 0 <= i < |props| && MayBeUndefined(g, props[i].ty) ==> props[i].optional
    case Array(element) =>
      element.Some? && MayBeUndefined(g, element.value) ==> AcceptsNull(g, element.value, 1)
    case Tuple(args) =>
      CanEmit(g, t) && OneMayBeUndefined(g, args) ==> OneAcceptsNull(g, args, 1)
    case _ => true
  }

  ghost predicate AllFit(g: Graph) {
    forall t :: 0 <= t < |g| ==> Fits(g, t)
  }

  // ---- It suffices. ----

  lemma NullIsAccepted(g: Graph, t: TypeId, seen: set<TypeId>, depth: nat)
    requires t < |g| && depth > 0 && AcceptsNull(g, t, 1)
    ensures Accepts(TypeSchema(g, t, seen, depth), JNull)
  {
    AcceptsNullDeeper(g, t, 1, depth);
    AcceptsNullExactly(g, t, seen, depth);
  }

  lemma LeafEmissionIsSound(g: Graph, t: TypeId, seen: set<TypeId>, depth: nat, v: Json)
    requires t < |g| && Emits(g, v, t)
    requires !g[t].Union? && !g[t].Array? && !g[t].Tuple? && !g[t].Object?
    ensures Accepts(TypeSchema(g, t, seen, depth), v)
  {
  }

  /** On a graph that fits, every schema at every depth and below every ancestor accepts each encoding
      that its type emits. */
  lemma {:induction false} EmissionIsSound(g: Graph, t: TypeId, seen: set<TypeId>, depth: nat, v: Json)
    requires AllFit(g) && t < |g| && Emits(g, v, t)
    ensures Accepts(TypeSchema(g, t, seen, depth), v)
    decreases Room(depth), 1
  {
    if depth <= MAX_SYNTHESIS_DEPTH {
      match g[t]
      case Union(_) => UnionEmissionIsSound(g, t, seen, depth, v);
      case Array(_) => ArrayEmissionIsSound(g, t, seen, depth, v);
      case Tuple(_) => TupleEmissionIsSound(g, t, seen, depth, v);
      case Object(_, _) => ObjectEmissionIsSound(g, t, seen, depth, v);
      case _ => LeafEmissionIsSound(g, t, seen, depth, v);
    }
  }

  lemma {:induction false} VariantsEmissionIsSound(g: Graph, ts: seq<TypeId>, seen: set<TypeId>, depth: nat, v: Json)
    requires AllFit(g) && forall i :: 0 <= i < |ts| ==> ts[i] < |g|
    requires EmitsOne(g, v, ts)
    ensures VariantAccepts(g, ts, seen, depth, v)
    decreases Room(depth), 2
  {
    var i :| 0 <= i < |ts| && Emits(g, v, ts[i]);
    EmissionIsSound(g, ts[i], seen, depth, v);
  }

  lemma LiteralsEmitInhabitants(g: Graph, kept: seq<TypeId>, v: Json)
    requires forall i :: 0 <= i < |kept| ==> kept[i] < |g|
    requires AllBooleanLiterals(g, kept) || AllStringLiterals(g, kept) || AllNumberLiterals(g, kept)
    requires EmitsOne(g, v, kept)
    ensures InhabitsOne(g, v, kept) && (AllBooleanLiterals(g, kept) ==> v.JBool?)
  {
    var i :| 0 <= i < |kept| && Emits(g, v, kept[i]);
    assert Inhabits(g, v, kept[i]);
  }

  lemma UnionEmissionIsAccepted(g: Graph, t: TypeId, seen: set<TypeId>, depth: nat, v: Json)
    requires t < |g| && g[t].Union? && Emits(g, v, t) && depth <= MAX_SYNTHESIS_DEPTH
    requires var kept := Kept(g, g[t].members);
      EmitsOne(g, v, kept) && VariantUnion(g, kept) ==> VariantAccepts(g, kept, seen, depth + 1, v)
    ensures Accepts(UnionSchema(g, g[t].members, seen, depth), v)
  {
    var kept := Kept(g, g[t].members);
    UnionEmits(g, t, v);
    UnionAccepts(g, t, seen, depth, v);
    if EmitsOne(g, v, kept) && !VariantUnion(g, kept) {
      LiteralsEmitInhabitants(g, kept, v);
    }
  }

  lemma {:induction false} UnionEmissionIsSound(g: Graph, t: TypeId, seen: set<TypeId>, depth: nat, v: Json)
    requires AllFit(g) && t < |g| && g[t].Union? && Emits(g, v, t) && depth <= MAX_SYNTHESIS_DEPTH
    ensures Accepts(UnionSchema(g, g[t].members, seen, depth), v)
    decreases Room(depth), 0
  {
    var kept := Kept(g, g[t].members);
    if EmitsOne(g, v, kept) { VariantsEmissionIsSound(g, kept, seen, depth + 1, v); }
    UnionEmissionIsAccepted(g, t, seen, depth, v);
  }

  lemma {:induction false} ArrayEmissionIsSound(g: Graph, t: TypeId, seen: set<TypeId>, depth: nat, v: Json)
    requires AllFit(g) && t < |g| && g[t].Array? && Emits(g, v, t) && depth <= MAX_SYNTHESIS_DEPTH
    ensures Accepts(TypeSchema(g, t, seen, depth), v)
    decreases Room(depth), 0
  {
    assert ValidNode(g[t], |g|) && Fits(g, t);
    if g[t].element.Some? {
      var e := g[t].element.value;
      ItemsAccept(TypeSchema(g, e, seen, depth + 1), v);
      forall i | 0 <= i < |v.items| ensures Accepts(TypeSchema(g, e, seen, depth + 1), v.items[i]) {
        if Emits(g, v.items[i], e) {
          EmissionIsSound(g, e, seen, depth + 1, v.items[i]);
        } else {
          NullIsAccepted(g, e, seen, depth + 1);
        }
      }
    }
  }

  /** The item is emitted for its argument, or is a null that the schema of some argument accepts. */
  ghost predicate ItemFits(g: Graph, args: seq<TypeId>, i: nat, item: Json)
    requires i < |args| && forall j :: 0 <= j < |args| ==> args[j] < |g|
  {
    Emits(g, item, args[i]) || (item.JNull? && OneAcceptsNull(g, args, 1))
  }

  lemma {:induction false} TupleItemIsSound(
      g: Graph, args: seq<TypeId>, seen: set<TypeId>, depth: nat, i: nat, item: Json)
    requires AllFit(g) && depth > 0 && i < |args| && forall j :: 0 <= j < |args| ==> args[j] < |g|
    requires ItemFits(g, args, i, item)
    ensures Accepts(CollapseVariants(Variants(g, args, seen, depth)), item)
    decreases Room(depth), 2
  {
    var variants := Variants(g, args, seen, depth);
    CollapseAccepts(variants, item);
    if Emits(g, item, args[i]) {
      EmissionIsSound(g, args[i], seen, depth, item);
      VariantAt(g, args, seen, depth, i);
    } else {
      var j :| 0 <= j < |args| && AcceptsNull(g, args[j], 1);
      NullIsAccepted(g, args[j], seen, depth);
      VariantAt(g, args, seen, depth, j);
    }
  }

  lemma FittingItems(g: Graph, t: TypeId, v: Json)
    requires AllFit(g) && t < |g| && g[t].Tuple? && Emits(g, v, t)
    ensures v.JArr? && |v.items| == |g[t].args|
    ensures forall i :: 0 <= i < |v.items| ==> ItemFits(g, g[t].args, i, v.items[i])
  {
    EmittingCanEmit(g, v, t);
    assert ValidNode(g[t], |g|) && Fits(g, t);
    forall i | 0 <= i < |v.items| ensures ItemFits(g, g[t].args, i, v.items[i]) {
      assert Emits(g, v.items[i], g[t].args[i]) || MayBeUndefined(g, g[t].args[i]);
    }
  }

  lemma {:induction false} TupleEmissionIsSound(g: Graph, t: TypeId, seen: set<TypeId>, depth: nat, v: Json)
    requires AllFit(g) && t < |g| && g[t].Tuple? && Emits(g, v, t) && depth <= MAX_SYNTHESIS_DEPTH
    requires forall i :: 0 <= i < |g[t].args| ==> g[t].args[i] < |g|
    ensures Accepts(TupleSchema(g, g[t].args, seen, depth), v)
    decreases Room(depth), 0
  {
    FittingItems(g, t, v);
    var items := CollapseVariants(Variants(g, g[t].args, seen, depth + 1));
    forall i | 0 <= i < |v.items| ensures Accepts(items, v.items[i]) {
      TupleItemIsSound(g, g[t].args, seen, depth + 1, i, v.items[i]);
    }
    TupleAccepts(g, g[t].args, seen, depth, v.items);
  }

  /** The fields emitted for a type's properties and index. */
  ghost predicate FieldsEmitted(g: Graph, props: seq<Prop>, index: Option<TypeId>, fields: map<string, Json>) {
    && (forall i :: 0 <= i < |props| && props[i].name in fields ==> Emits(g, fields[props[i].name], props[i].ty))
    && (forall k :: k in fields && !Declares(props, k) ==> index.Some? && Emits(g, fields[k], index.value))
  }

  lemma {:induction false} FieldsEmissionIsSound(
      g: Graph, t: TypeId, seen: set<TypeId>, depth: nat, fields: map<string, Json>)
    requires AllFit(g) && t < |g| && g[t].Object? && FieldsEmitted(g, g[t].props, g[t].index, fields)
    ensures DeclaredAccepted(g, g[t].props, seen, depth, fields)
    ensures ExtrasAccepted(g, g[t].props, g[t].index, seen, depth, fields)
    decreases Room(depth), 2
  {
    var props, index := g[t].props, g[t].index;
    assert ValidNode(g[t], |g|);
    forall i | 0 <= i < |props| && props[i].name in fields
      ensures Accepts(TypeSchema(g, props[i].ty, seen, depth), fields[props[i].name])
    {
      EmissionIsSound(g, props[i].ty, seen, depth, fields[props[i].name]);
    }
    forall k | k in fields && !Declares(props, k)
      ensures index.Some? && Accepts(TypeSchema(g, index.value, seen, depth), fields[k])
    {
      EmissionIsSound(g, index.value, seen, depth, fields[k]);
    }
  }

  lemma FittingFields(g: Graph, t: TypeId, v: Json)
    requires AllFit(g) && t < |g| && g[t].Object? && Emits(g, v, t)
    ensures v.JObj? && RequiredPresent(g[t].props, v.fields) && FieldsEmitted(g, g[t].props, g[t].index, v.fields)
  {
    EmittingCanEmit(g, v, t);
    assert Fits(g, t);
  }

  /** The parts of an object schema accept the fields, unless the schema is cut off by an ancestor. */
  ghost predicate PartsAccept(g: Graph, t: TypeId, seen: set<TypeId>, depth: nat, v: Json)
    requires t < |g| && g[t].Object?
  {
    assert ValidNode(g[t], |g|);
    && v.JObj?
    && (t !in seen ==>
          && RequiredPresent(g[t].props, v.fields)
          && DeclaredAccepted(g, g[t].props, seen + {t}, depth + 1, v.fields)
          && ExtrasAccepted(g, g[t].props, g[t].index, seen + {t}, depth + 1, v.fields))
  }

  lemma {:induction false} PartsAcceptEmission(g: Graph, t: TypeId, seen: set<TypeId>, depth: nat, v: Json)
    requires AllFit(g) && t < |g| && g[t].Object? && Emits(g, v, t) && depth <= MAX_SYNTHESIS_DEPTH
    ensures PartsAccept(g, t, seen, depth, v)
    decreases Room(depth), 0, 0
  {
    FittingFields(g, t, v);
    if t !in seen { FieldsEmissionIsSound(g, t, seen + {t}, depth + 1, v.fields); }
  }

  lemma {:induction false} ObjectEmissionIsSound(g: Graph, t: TypeId, seen: set<TypeId>, depth: nat, v: Json)
    requires AllFit(g) && t < |g| && g[t].Object? && Emits(g, v, t) && depth <= MAX_SYNTHESIS_DEPTH
    ensures Accepts(ObjectSchema(g, t, seen, depth), v)
    decreases Room(depth), 0, 1
  {
    PartsAcceptEmission(g, t, seen, depth, v);
    if t in seen {
      AncestorAccepts(g, t, seen, depth, v);
    } else {
      ObjectAccepts(g, t, seen, depth, v);
    }
  }

  // ---- It is needed: what does not fit emits an encoding that is rejected. ----

  /** The encoding without the property. */
  function LeftOut(v: Json, name: string): Json
    requires v.JObj?
  {
    JObj(v.fields - {name})
  }

  lemma UndefinedPropertyIsLeftOut(g: Graph, t: TypeId, i: nat, v: Json)
    requires t < |g| && g[t].Object? && i < |g[t].props| && MayBeUndefined(g, g[t].props[i].ty)
    requires v.JObj? && Emits(g, v, t)
    ensures Emits(g, LeftOut(v, g[t].props[i].name), t)
  {
    var less := LeftOut(v, g[t].props[i].name).fields;
    assert ValidNode(g[t], |g|);
    assert forall k :: k in less ==> k in v.fields && less[k] == v.fields[k];
    assert forall j :: 0 <= j < |g[t].props| && g[t].props[j].name in v.fields && j != i ==> g[t].props[j].name in less;
  }

  lemma AbsentPropertyIsRejected(g: Graph, t: TypeId, seen: set<TypeId>, depth: nat, i: nat, fields: map<string, Json>)
    requires t < |g| && g[t].Object? && t !in seen && depth <= MAX_SYNTHESIS_DEPTH
    requires i < |g[t].props| && !g[t].props[i].optional && g[t].props[i].name !in fields
    ensures !Accepts(ObjectSchema(g, t, seen, depth), JObj(fields))
  {
    ObjectAccepts(g, t, seen, depth, JObj(fields));
  }

  /** A property that may be undefined but is not optional: every encoding can leave it out, and the
      schema rejects it then. */
  lemma UndefinedPropertyIsRejected(g: Graph, t: TypeId, seen: set<TypeId>, depth: nat, i: nat, v: Json)
    requires t < |g| && g[t].Object? && t !in seen && depth <= MAX_SYNTHESIS_DEPTH
    requires i < |g[t].props| && !g[t].props[i].optional && MayBeUndefined(g, g[t].props[i].ty)
    requires v.JObj? && Emits(g, v, t)
    ensures Emits(g, LeftOut(v, g[t].props[i].name), t)
    ensures !Accepts(TypeSchema(g, t, seen, depth), LeftOut(v, g[t].props[i].name))
  {
    UndefinedPropertyIsLeftOut(g, t, i, v);
    AbsentPropertyIsRejected(g, t, seen, depth, i, v.fields - {g[t].props[i].name});
    assert TypeSchema(g, t, seen, depth) == ObjectSchema(g, t, seen, depth);
  }

  /** An element that may be undefined: the array with one null is emitted, and accepted exactly when the
      element's schema accepts null. */
  lemma UndefinedElementIsRejected(g: Graph, t: TypeId, seen: set<TypeId>, depth: nat)
    requires t < |g| && g[t].Array? && g[t].element.Some? && depth <= MAX_SYNTHESIS_DEPTH
    requires g[t].element.value < |g| && MayBeUndefined(g, g[t].element.value)
    ensures Emits(g, JArr([JNull]), t)
    ensures Accepts(TypeSchema(g, t, seen, depth), JArr([JNull])) <==> AcceptsNull(g, g[t].element.value, depth + 1)
  {
    var items := [JNull];
    assert items[0] == JNull;
    ItemsAccept(TypeSchema(g, g[t].element.value, seen, depth + 1), JArr(items));
    AcceptsNullExactly(g, g[t].element.value, seen, depth + 1);
  }

  /** The encoding with null at the argument. */
  function NullAt(v: Json, i: nat): Json
    requires v.JArr? && i < |v.items|
  {
    JArr(v.items[i := JNull])
  }

  lemma UndefinedArgumentIsNull(g: Graph, t: TypeId, i: nat, v: Json)
    requires t < |g| && g[t].Tuple? && v.JArr? && Emits(g, v, t)
    requires i < |g[t].args| && MayBeUndefined(g, g[t].args[i])
    ensures i < |v.items| && Emits(g, NullAt(v, i), t)
  {
  }

  lemma NoVariantAcceptsNull(g: Graph, args: seq<TypeId>, seen: set<TypeId>, depth: nat)
    requires args != [] && (forall j :: 0 <= j < |args| ==> args[j] < |g|) && !OneAcceptsNull(g, args, depth)
    ensures !Accepts(CollapseVariants(Variants(g, args, seen, depth)), JNull)
  {
    var variants := Variants(g, args, seen, depth);
    CollapseAccepts(variants, JNull);
    forall j | 0 <= j < |variants| ensures !Accepts(variants[j], JNull) {
      AcceptsNullExactly(g, args[j], seen, depth);
      VariantAt(g, args, seen, depth, j);
    }
  }

  /** A tuple argument that may be undefined: null can stand in its place, and is rejected there unless the
      schema of some argument accepts null. */
  lemma UndefinedArgumentIsRejected(g: Graph, t: TypeId, seen: set<TypeId>, depth: nat, i: nat, v: Json)
    requires t < |g| && g[t].Tuple? && depth <= MAX_SYNTHESIS_DEPTH && v.JArr? && Emits(g, v, t)
    requires forall j :: 0 <= j < |g[t].args| ==> g[t].args[j] < |g|
    requires i < |g[t].args| && MayBeUndefined(g, g[t].args[i])
    ensures i < |v.items| && Emits(g, NullAt(v, i), t)
    ensures !OneAcceptsNull(g, g[t].args, depth + 1) ==>
      !Accepts(TupleSchema(g, g[t].args, seen, depth), NullAt(v, i))
  {
    UndefinedArgumentIsNull(g, t, i, v);
    if !OneAcceptsNull(g, g[t].args, depth + 1) {
      NoVariantAcceptsNull(g, g[t].args, seen, depth + 1);
      var items := v.items[i := JNull];
      assert items[i] == JNull;
      TupleAccepts(g, g[t].args, seen, depth, items);
    }
  }

  ghost predicate AcceptsAllEmitted(g: Graph) {
    forall t: TypeId, v :: t < |g| && Emits(g, v, t) ==> Accepts(TypeSchema(g, t, {}, 0), v)
  }

  lemma ObjectMisfit(g: Graph, t: TypeId, i: nat) returns (v: Json)
    requires t < |g| && g[t].Object? && CanEmit(g, t)
    requires i < |g[t].props| && MayBeUndefined(g, g[t].props[i].ty) && !g[t].props[i].optional
    ensures Emits(g, v, t) && !Accepts(TypeSchema(g, t, {}, 0), v)
  {
    CanEmitExactly(g, t);
    var w := Sample(g, t);
    v := LeftOut(w, g[t].props[i].name);
    UndefinedPropertyIsRejected(g, t, {}, 0, i, w);
  }

  lemma TupleMisfit(g: Graph, t: TypeId, i: nat) returns (v: Json)
    requires t < |g| && g[t].Tuple? && CanEmit(g, t) && forall j :: 0 <= j < |g[t].args| ==> g[t].args[j] < |g|
    requires i < |g[t].args| && MayBeUndefined(g, g[t].args[i]) && !OneAcceptsNull(g, g[t].args, 1)
    ensures Emits(g, v, t) && !Accepts(TupleSchema(g, g[t].args, {}, 0), v)
  {
    CanEmitExactly(g, t);
    var w := Sample(g, t);
    v := NullAt(w, i);
    UndefinedArgumentIsRejected(g, t, {}, 0, i, w);
  }

  lemma TupleMisfitIsRejected(g: Graph, t: TypeId) returns (v: Json)
    requires t < |g| && g[t].Tuple? && !Fits(g, t)
    ensures Emits(g, v, t) && !Accepts(TypeSchema(g, t, {}, 0), v)
  {
    assert ValidNode(g[t], |g|);
    var i :| 0 <= i < |g[t].args| && MayBeUndefined(g, g[t].args[i]);
    v := TupleMisfit(g, t, i);
  }

  lemma MisfitIsRejected(g: Graph, t: TypeId) returns (v: Json)
    requires t < |g| && !Fits(g, t)
    ensures Emits(g, v, t) && !Accepts(TypeSchema(g, t, {}, 0), v)
  {
    assert ValidNode(g[t], |g|);
    match g[t]
    case Object(props, _) =>
      var i :| 0 <= i < |props| && MayBeUndefined(g, props[i].ty) && !props[i].optional;
      v := ObjectMisfit(g, t, i);
    case Array(_) =>
      v := JArr([JNull]);
      UndefinedElementIsRejected(g, t, {}, 0);
    case Tuple(_) =>
      v := TupleMisfitIsRejected(g, t);
  }

  /** The compiled schemas of a graph accept everything its types put on the wire if and only if every
      node fits. */
  lemma EmissionIsSoundExactly(g: Graph)
    ensures AcceptsAllEmitted(g) <==> AllFit(g)
  {
    if AllFit(g) {
      forall t: TypeId, v | t < |g| && Emits(g, v, t) ensures Accepts(TypeSchema(g, t, {}, 0), v) {
        EmissionIsSound(g, t, {}, 0, v);
      }
    }
    if AcceptsAllEmitted(g) {
      forall t | 0 <= t < |g| ensures Fits(g, t) {
        if !Fits(g, t) { var v := MisfitIsRejected(g, t); }
      }
    }
  }

  /** The type of an object with one property that is a string or undefined, without the optional flag. */
  const STRING_OR_UNDEFINED: seq<Node> :=
    [Object([Prop("a", 1, false)], None), Union([2, 3]), String, Undefined]

  lemma StringOrUndefinedIsAGraph() returns (g: Graph)
    ensures g == STRING_OR_UNDEFINED
  {
    var nodes := STRING_OR_UNDEFINED;
    assert ValidNode(nodes[0], 4) && ValidNode(nodes[1], 4) && ValidNode(nodes[2], 4) && ValidNode(nodes[3], 4);
    g := nodes;
  }

  /** With that property undefined the object is written as `{}`, which its schema rejects. */
  lemma EmptyObjectIsRejected() returns (g: Graph)
    ensures g == STRING_OR_UNDEFINED
    ensures Emits(g, JObj(map[]), 0) && !Accepts(TypeSchema(g, 0, {}, 0), JObj(map[]))
  {
    g := StringOrUndefinedIsAGraph();
    assert g[1].members[1] == 3 && MayBeUndefined(g, 3);
    assert MayBeUndefined(g, 1);
    assert Emits(g, JObj(map[]), 0);
    AbsentPropertyIsRejected(g, 0, {}, 0, 0, map[]);
    assert TypeSchema(g, 0, {}, 0) == ObjectSchema(g, 0, {}, 0);
  }
}
