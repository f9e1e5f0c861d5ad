/** What the compiled schemas mean: sound everywhere, exact where nothing is cut off. */
module SchemaMeaning {
  import opened Basics
  import opened JsonSchema
  import opened SchemaSynthesis
  import Ordering

  // ---- Facts about the pieces. ----

  lemma DeclaresOneMore(props: seq<Prop>, k: string)
    requires props != []
    ensures Declares(props, k) <==> Declares(props[..|props| - 1], k) || props[|props| - 1].name == k
  {
    var front := props[..|props| - 1];
    if Declares(props, k) && props[|props| - 1].name != k {
      var i :| 0 <= i < |props| && props[i].name == k;
      assert front[i].name == k;
    }
    if Declares(front, k) {
      var i :| 0 <= i < |front| && front[i].name == k;
      assert props[i].name == k;
    }
    assert props[|props| - 1].name == k ==> Declares(props, k);
  }

  lemma {:induction false} PropertyNames(g: Graph, props: seq<Prop>, seen: set<TypeId>, depth: nat, k: string)
    requires forall i :: 0 <= i < |props| ==> props[i].ty < |g|
    ensures k in Properties(g, props, seen, depth) <==> Declares(props, k)
  {
    if props != [] {
      PropertyNames(g, props[..|props| - 1], seen, depth, k);
      DeclaresOneMore(props, k);
    }
  }

  lemma {:induction false} PropertyAt(g: Graph, props: seq<Prop>, seen: set<TypeId>, depth: nat, i: nat)
    requires forall j :: 0 <= j < |props| ==> props[j].ty < |g|
    requires forall j, k :: 0 <= j < k < |props| ==> props[j].name != props[k].name
    requires i < |props|
    ensures props[i].name in Properties(g, props, seen, depth)
    ensures Properties(g, props, seen, depth)[props[i].name] == TypeSchema(g, props[i].ty, seen, depth)
  {
    var front := props[..|props| - 1];
    if i < |front| {
      assert front[i] == props[i] && props[i].name != props[|front|].name;
      PropertyAt(g, front, seen, depth, i);
    }
  }

  lemma PropertiesAt(g: Graph, props: seq<Prop>, seen: set<TypeId>, depth: nat)
    requires forall i :: 0 <= i < |props| ==> props[i].ty < |g|
    requires forall i, j :: 0 <= i < j < |props| ==> props[i].name != props[j].name
    ensures forall k :: k in Properties(g, props, seen, depth) <==> Declares(props, k)
    ensures forall i :: 0 <= i < |props| ==>
      props[i].name in Properties(g, props, seen, depth) &&
      Properties(g, props, seen, depth)[props[i].name] == TypeSchema(g, props[i].ty, seen, depth)
  {
    forall k ensures k in Properties(g, props, seen, depth) <==> Declares(props, k) {
      PropertyNames(g, props, seen, depth, k);
    }
    forall i | 0 <= i < |props|
      ensures props[i].name in Properties(g, props, seen, depth) &&
              Properties(g, props, seen, depth)[props[i].name] == TypeSchema(g, props[i].ty, seen, depth)
    {
      PropertyAt(g, props, seen, depth, i);
    }
  }

  /** Some property without the optional flag has that name. */
  predicate Requires(props: seq<Prop>, k: string) {
    exists i :: 0 <= i < |props| && props[i].name == k && !props[i].optional
  }

  lemma {:induction false} RequiredAt(props: seq<Prop>, k: string)
    ensures k in RequiredNames(props) <==> Requires(props, k)
  {
    if props != [] {
      var front, last := props[..|props| - 1], props[|props| - 1];
      RequiredAt(front, k);
      if Requires(front, k) {
        var i :| 0 <= i < |front| && front[i].name == k && !front[i].optional;
        assert props[i].name == k && !props[i].optional;
      }
      if Requires(props, k) && !(last.name == k && !last.optional) {
        var i :| 0 <= i < |props| && props[i].name == k && !props[i].optional;
        assert front[i].name == k && !front[i].optional;
      }
      assert last.name == k && !last.optional ==> Requires(props, k);
    }
  }

  lemma {:induction false} CollapseAccepts(variants: seq<Schema>, v: Json)
    requires variants != []
    ensures Accepts(CollapseVariants(variants), v) <==> exists i :: 0 <= i < |variants| && Accepts(variants[i], v)
  {
    if |variants| == 1 && Accepts(variants[0], v) {
      assert 0 <= 0 < |variants| && Accepts(variants[0], v);
    }
  }

  lemma {:induction false} NullableAccepts(schema: Schema, nullable: bool, v: Json)
    ensures Accepts(WithNullable(schema, nullable), v) <==> Accepts(schema, v) || (nullable && v.JNull?)
  {
    if nullable {
      var whole := WithNullable(schema, true);
      assert whole.anyOf[0] == schema && whole.anyOf[1] == Keywords(ty := Some(TNull));
      assert Accepts(whole.anyOf[1], v) <==> v.JNull?;
      if Accepts(schema, v) {
        assert Accepts(whole.anyOf[0], v);
      }
    }
  }

  lemma {:induction false} EnumAccepts(values: seq<Json>, ty: JsonType, v: Json)
    requires values != [] && forall i :: 0 <= i < |values| ==> TypeOf(values[i]) == ty
    ensures Accepts(EnumOrConst(values, ty), v) <==> v in values
  {
    if v in values {
      var i :| 0 <= i < |values| && values[i] == v;
    }
  }

  lemma {:induction false} KeptMembers(g: Graph, members: seq<TypeId>)
    requires forall i :: 0 <= i < |members| ==> members[i] < |g|
    ensures forall t :: t in Kept(g, members) <==> t in members && !g[t].Undefined? && !g[t].Null?
  {
    if members != [] {
      var front := members[..|members| - 1];
      KeptMembers(g, front);
      assert members == front + [members[|members| - 1]];
    }
  }

  /** `v` inhabits one of the listed types. */
  ghost predicate InhabitsOne(g: Graph, v: Json, ts: seq<TypeId>) {
    exists i :: 0 <= i < |ts| && Inhabits(g, v, ts[i])
  }

  /** A union is inhabited by what its kept members are, and by null if it lists null. */
  lemma UnionInhabits(g: Graph, t: TypeId, v: Json)
    requires t < |g| && g[t].Union?
    ensures Inhabits(g, v, t) <==>
      (Nullable(g, g[t].members) && v.JNull?) || InhabitsOne(g, v, Kept(g, g[t].members))
  {
    assert ValidNode(g[t], |g|);
    var members := g[t].members;
    var kept := Kept(g, members);
    KeptMembers(g, members);
    if i :| 0 <= i < |members| && Inhabits(g, v, members[i]) {
      if !g[members[i]].Null? {
        assert members[i] in kept;
        var j :| 0 <= j < |kept| && kept[j] == members[i];
        assert Inhabits(g, v, kept[j]);
      }
    }
    if Nullable(g, members) && v.JNull? {
      var i :| 0 <= i < |members| && g[members[i]].Null?;
      assert Inhabits(g, v, members[i]);
    }
    if j :| 0 <= j < |kept| && Inhabits(g, v, kept[j]) {
      assert kept[j] in members;
      var i :| 0 <= i < |members| && members[i] == kept[j];
      assert Inhabits(g, v, members[i]);
    }
  }

  lemma StringEnumMeaning(g: Graph, kept: seq<TypeId>, v: Json)
    requires kept != [] && AllStringLiterals(g, kept)
    ensures Accepts(EnumOrConst(StringValues(g, kept), TString), v)
      <==> InhabitsOne(g, v, kept)
  {
    var values := StringValues(g, kept);
    EnumAccepts(values, TString, v);
    assert forall i :: 0 <= i < |kept| ==> (Inhabits(g, v, kept[i]) <==> v == values[i]);
  }

  lemma NumberEnumMeaning(g: Graph, kept: seq<TypeId>, v: Json)
    requires kept != [] && AllNumberLiterals(g, kept)
    ensures Accepts(EnumOrConst(NumberValues(g, kept), TNumber), v)
      <==> InhabitsOne(g, v, kept)
  {
    var values := NumberValues(g, kept);
    EnumAccepts(values, TNumber, v);
    assert forall i :: 0 <= i < |kept| ==> (Inhabits(g, v, kept[i]) <==> v == values[i]);
  }

  /** The union branches for nothing but undefined and null, and for boolean literals. */
  lemma SmallUnionAccepts(g: Graph, members: seq<TypeId>, seen: set<TypeId>, depth: nat, v: Json)
    requires depth <= MAX_SYNTHESIS_DEPTH
    requires forall i :: 0 <= i < |members| ==> members[i] < |g|
    requires AllBooleanLiterals(g, Kept(g, members))
    ensures Accepts(UnionSchema(g, members, seen, depth), v) <==>
      if Kept(g, members) == [] then Nullable(g, members) ==> v.JNull?
      else v.JBool? || (Nullable(g, members) && v.JNull?)
  {
    NullableAccepts(Keywords(ty := Some(TBoolean)), Nullable(g, members), v);
  }

  /** The union branch that lists literals loses nothing. */
  lemma LiteralUnionMeaning(g: Graph, t: TypeId, seen: set<TypeId>, depth: nat, v: Json)
    requires t < |g| && g[t].Union? && depth <= MAX_SYNTHESIS_DEPTH
    requires var kept := Kept(g, g[t].members);
      kept != [] && (AllStringLiterals(g, kept) || AllNumberLiterals(g, kept))
    ensures Accepts(UnionSchema(g, g[t].members, seen, depth), v) <==> Inhabits(g, v, t)
  {
    var kept := Kept(g, g[t].members);
    var nullable := Nullable(g, g[t].members);
    UnionInhabits(g, t, v);
    assert g[kept[0]].StringLiteral? || g[kept[0]].NumberLiteral?;
    if AllStringLiterals(g, kept) {
      var values := StringValues(g, kept);
      StringEnumMeaning(g, kept, v);
      NullableAccepts(EnumOrConst(values, TString), nullable, v);
    } else {
      var values := NumberValues(g, kept);
      NumberEnumMeaning(g, kept, v);
      NullableAccepts(EnumOrConst(values, TNumber), nullable, v);
    }
  }

  ghost predicate OneAccepts(schemas: seq<Schema>, v: Json) {
    exists i :: 0 <= i < |schemas| && Accepts(schemas[i], v)
  }

  lemma NullableVariants(plain: seq<Schema>, nullable: bool, v: Json)
    requires plain != []
    ensures Accepts(UnionOf(plain, nullable), v) <==>
      (nullable && v.JNull?) || OneAccepts(plain, v)
  {
    var variants := plain + if nullable then [Keywords(ty := Some(TNull))] else [];
    CollapseAccepts(variants, v);
    if nullable {
      assert Accepts(variants[|plain|], v) <==> v.JNull?;
    }
    if i :| 0 <= i < |plain| && Accepts(plain[i], v) {
      assert variants[i] == plain[i];
    }
    if i :| 0 <= i < |variants| && Accepts(variants[i], v) {
      assert i < |plain| ==> variants[i] == plain[i];
    }
  }

  ghost predicate VariantAccepts(g: Graph, ts: seq<TypeId>, seen: set<TypeId>, depth: nat, v: Json)
    requires forall i :: 0 <= i < |ts| ==> ts[i] < |g|
  {
    exists i :: 0 <= i < |ts| && Accepts(TypeSchema(g, ts[i], seen, depth), v)
  }

  lemma EachVariant(g: Graph, ts: seq<TypeId>, seen: set<TypeId>, depth: nat, variants: seq<Schema>, v: Json)
    requires forall i :: 0 <= i < |ts| ==> ts[i] < |g|
    requires variants == Variants(g, ts, seen, depth)
    ensures OneAccepts(variants, v) <==> VariantAccepts(g, ts, seen, depth, v)
  {
    if i :| 0 <= i < |variants| && Accepts(variants[i], v) {
      VariantAt(g, ts, seen, depth, i);
    }
    if i :| 0 <= i < |ts| && Accepts(TypeSchema(g, ts[i], seen, depth), v) {
      VariantAt(g, ts, seen, depth, i);
    }
  }

  /** The union branch that compiles each kept member accepts what one of them accepts. */
  lemma VariantUnionAccepts(g: Graph, members: seq<TypeId>, seen: set<TypeId>, depth: nat, v: Json)
    requires depth <= MAX_SYNTHESIS_DEPTH
    requires forall i :: 0 <= i < |members| ==> members[i] < |g|
    requires var kept := Kept(g, members);
      kept != [] && !AllBooleanLiterals(g, kept) && !AllStringLiterals(g, kept) && !AllNumberLiterals(g, kept)
    ensures Accepts(UnionSchema(g, members, seen, depth), v) <==>
      (Nullable(g, members) && v.JNull?) || VariantAccepts(g, Kept(g, members), seen, depth + 1, v)
  {
    var variants := UnionKeepsVariants(g, members, seen, depth);
    NullableVariants(variants, Nullable(g, members), v);
    EachVariant(g, Kept(g, members), seen, depth + 1, variants, v);
  }

  /** Everything an object schema asks of the declared properties. */
  ghost predicate DeclaredAccepted(g: Graph, props: seq<Prop>, seen: set<TypeId>, depth: nat, fields: map<string, Json>)
    requires forall i :: 0 <= i < |props| ==> props[i].ty < |g|
  {
    forall i :: 0 <= i < |props| && props[i].name in fields ==>
      Accepts(TypeSchema(g, props[i].ty, seen, depth), fields[props[i].name])
  }

  ghost predicate RequiredPresent(props: seq<Prop>, fields: map<string, Json>) {
    forall i :: 0 <= i < |props| ==> props[i].optional || props[i].name in fields
  }

  /** ... and of the keys no property declares. */
  ghost predicate ExtrasAccepted(
      g: Graph, props: seq<Prop>, index: Option<TypeId>, seen: set<TypeId>, depth: nat, fields: map<string, Json>)
    requires (index.Some? ==> index.value < |g|)
  {
    forall k :: k in fields && !Declares(props, k) ==>
      index.Some? && Accepts(TypeSchema(g, index.value, seen, depth), fields[k])
  }

  /** Every listed name is a key. */
  predicate AllPresent(names: seq<string>, fields: map<string, Json>) {
    forall i :: 0 <= i < |names| ==> names[i] in fields
  }

  lemma RequiredMeaning(props: seq<Prop>, fields: map<string, Json>)
    ensures AllPresent(Ordering.Sort(RequiredNames(props)), fields) <==> RequiredPresent(props, fields)
  {
    var required := Ordering.Sort(RequiredNames(props));
    Ordering.SortKeepsMembers(RequiredNames(props));
    if AllPresent(required, fields) {
      forall i | 0 <= i < |props| ensures props[i].optional || props[i].name in fields {
        RequiredAt(props, props[i].name);
        if !props[i].optional {
          assert props[i].name in required;
          var j :| 0 <= j < |required| && required[j] == props[i].name;
        }
      }
    }
    if RequiredPresent(props, fields) {
      forall i | 0 <= i < |required| ensures required[i] in fields {
        assert required[i] in required;
        RequiredAt(props, required[i]);
        var j :| 0 <= j < |props| && props[j].name == required[i] && !props[j].optional;
      }
    }
  }

  lemma DeclaredMeaning(g: Graph, props: seq<Prop>, seen: set<TypeId>, depth: nat, fields: map<string, Json>)
    requires forall i :: 0 <= i < |props| ==> props[i].ty < |g|
    requires forall i, j :: 0 <= i < j < |props| ==> props[i].name != props[j].name
    ensures var schemas := Properties(g, props, seen, depth);
      (forall k :: k in schemas && k in fields ==> Accepts(schemas[k], fields[k]))
        <==> DeclaredAccepted(g, props, seen, depth, fields)
  {
    var schemas := Properties(g, props, seen, depth);
    PropertiesAt(g, props, seen, depth);
    if DeclaredAccepted(g, props, seen, depth, fields) {
      forall k | k in schemas && k in fields ensures Accepts(schemas[k], fields[k]) {
        var i :| 0 <= i < |props| && props[i].name == k;
      }
    }
  }

  lemma ExtrasMeaning(
      g: Graph, props: seq<Prop>, index: Option<TypeId>, seen: set<TypeId>, depth: nat, fields: map<string, Json>)
    requires forall i :: 0 <= i < |props| ==> props[i].ty < |g|
    requires forall i, j :: 0 <= i < j < |props| ==> props[i].name != props[j].name
    requires index.Some? ==> index.value < |g|
    ensures
      var additional := if index.Some? then TypeSchema(g, index.value, seen, depth) else Always(false);
      (forall k :: k in fields && k !in Properties(g, props, seen, depth) ==> Accepts(additional, fields[k]))
        <==> ExtrasAccepted(g, props, index, seen, depth, fields)
  {
    PropertiesAt(g, props, seen, depth);
  }

  lemma ObjectKeywordsAccept(
      properties: map<string, Schema>, required: seq<string>, additional: Schema, v: Json)
    ensures Accepts(Keywords(ty := Some(TObject), properties := properties, required := required,
                             additional := Some(additional)), v) <==>
      && v.JObj?
      && AllPresent(required, v.fields)
      && (forall k :: k in properties && k in v.fields ==> Accepts(properties[k], v.fields[k]))
      && (forall k :: k in v.fields && k !in properties ==> Accepts(additional, v.fields[k]))
  {
  }

  /** What an object's schema accepts when the object is not its own ancestor. */
  lemma ObjectAccepts(g: Graph, t: TypeId, seen: set<TypeId>, depth: nat, v: Json)
    requires t < |g| && g[t].Object? && depth <= MAX_SYNTHESIS_DEPTH && t !in seen
    ensures Accepts(ObjectSchema(g, t, seen, depth), v) <==>
      && v.JObj?
      && RequiredPresent(g[t].props, v.fields)
      && DeclaredAccepted(g, g[t].props, seen + {t}, depth + 1, v.fields)
      && ExtrasAccepted(g, g[t].props, g[t].index, seen + {t}, depth + 1, v.fields)
  {
    var props, index, next := g[t].props, g[t].index, seen + {t};
    var properties := Properties(g, props, next, depth + 1);
    var additional := if index.Some? then TypeSchema(g, index.value, next, depth + 1) else Always(false);
    ObjectKeywordsAccept(properties, Ordering.Sort(RequiredNames(props)), additional, v);
    if v.JObj? {
      RequiredMeaning(props, v.fields);
      DeclaredMeaning(g, props, next, depth + 1, v.fields);
      ExtrasMeaning(g, props, index, next, depth + 1, v.fields);
    }
  }

  /** Every field inhabits the type the object gives it. */
  ghost predicate FieldsInhabit(g: Graph, props: seq<Prop>, index: Option<TypeId>, fields: map<string, Json>) {
    && (forall i :: 0 <= i < |props| && props[i].name in fields ==> Inhabits(g, fields[props[i].name], props[i].ty))
    && (forall k :: k in fields && !Declares(props, k) ==> index.Some? && Inhabits(g, fields[k], index.value))
  }

  lemma ObjectInhabits(g: Graph, t: TypeId, v: Json)
    requires t < |g| && g[t].Object?
    ensures Inhabits(g, v, t) <==>
      v.JObj? && RequiredPresent(g[t].props, v.fields) && FieldsInhabit(g, g[t].props, g[t].index, v.fields)
  {
  }

  lemma ItemsAccept(items: Schema, v: Json)
    ensures Accepts(Keywords(ty := Some(TArray), items := Some(items)), v) <==>
      v.JArr? && forall i :: 0 <= i < |v.items| ==> Accepts(items, v.items[i])
  {
  }

  /** A tuple's schema asks the same of every item: that the schema of some argument accepts it. */
  lemma TupleAccepts(g: Graph, args: seq<TypeId>, seen: set<TypeId>, depth: nat, items: seq<Json>)
    requires depth <= MAX_SYNTHESIS_DEPTH && forall i :: 0 <= i < |args| ==> args[i] < |g|
    ensures Accepts(TupleSchema(g, args, seen, depth), JArr(items)) <==>
      (args == [] ||
       forall i :: 0 <= i < |items| ==> Accepts(CollapseVariants(Variants(g, args, seen, depth + 1)), items[i]))
  {
    var variants := Variants(g, args, seen, depth + 1);
    ItemsAccept(if variants != [] then CollapseVariants(variants) else Always(true), JArr(items));
  }

  /** The union is compiled member by member. */
  predicate VariantUnion(g: Graph, kept: seq<TypeId>) {
    kept != [] && !AllBooleanLiterals(g, kept) && !AllStringLiterals(g, kept) && !AllNumberLiterals(g, kept)
  }

  /** What a union's schema accepts, branch by branch. */
  ghost predicate UnionVerdict(g: Graph, t: TypeId, seen: set<TypeId>, depth: nat, v: Json)
    requires t < |g| && g[t].Union?
  {
    var kept := Kept(g, g[t].members);
    var isNull := Nullable(g, g[t].members) && v.JNull?;
    if kept == [] then Nullable(g, g[t].members) ==> v.JNull?
    else if AllBooleanLiterals(g, kept) then v.JBool? || isNull
    else if AllStringLiterals(g, kept) || AllNumberLiterals(g, kept) then InhabitsOne(g, v, kept) || isNull
    else VariantAccepts(g, kept, seen, depth + 1, v) || isNull
  }

  lemma UnionAccepts(g: Graph, t: TypeId, seen: set<TypeId>, depth: nat, v: Json)
    requires t < |g| && g[t].Union? && depth <= MAX_SYNTHESIS_DEPTH
    ensures Accepts(UnionSchema(g, g[t].members, seen, depth), v) <==> UnionVerdict(g, t, seen, depth, v)
  {
    var kept := Kept(g, g[t].members);
    if AllBooleanLiterals(g, kept) {
      SmallUnionAccepts(g, g[t].members, seen, depth, v);
    } else if AllStringLiterals(g, kept) || AllNumberLiterals(g, kept) {
      LiteralUnionMeaning(g, t, seen, depth, v);
      UnionInhabits(g, t, v);
    } else {
      VariantUnionAccepts(g, g[t].members, seen, depth, v);
    }
  }

  // ---- Soundness. ----

  /** Whatever the graph, its cycles, the ancestors and the depth: a value that inhabits the
      type is accepted. The cycle guard and the depth cut-off only widen the schema. */
  lemma {:induction false} SynthesisIsSound(g: Graph, t: TypeId, seen: set<TypeId>, depth: nat, v: Json)
    requires t < |g| && Inhabits(g, v, t)
    ensures Accepts(TypeSchema(g, t, seen, depth), v)
    decreases Room(depth), 1
  {
    if depth <= MAX_SYNTHESIS_DEPTH {
      match g[t]
      case Union(members) =>
        if InhabitsOne(g, v, Kept(g, members)) {
          VariantsAreSound(g, Kept(g, members), seen, depth + 1, v);
        }
        UnionIsSound(g, t, seen, depth, v);
      case Array(_) => ArrayIsSound(g, t, seen, depth, v);
      case Tuple(_) => TupleIsSound(g, t, seen, depth, v);
      case Object(_, _) => ObjectIsSound(g, t, seen, depth, v);
      case _ => LeafIsSound(g, t, seen, depth, v);
    }
  }

  lemma LeafIsSound(g: Graph, t: TypeId, seen: set<TypeId>, depth: nat, v: Json)
    requires t < |g| && Inhabits(g, v, t)
    requires !g[t].Union? && !g[t].Array? && !g[t].Tuple? && !g[t].Object?
    ensures Accepts(TypeSchema(g, t, seen, depth), v)
  {
  }

  lemma AncestorAccepts(g: Graph, t: TypeId, seen: set<TypeId>, depth: nat, v: Json)
    requires t < |g| && g[t].Object? && depth <= MAX_SYNTHESIS_DEPTH && t in seen
    ensures Accepts(ObjectSchema(g, t, seen, depth), v) <==> v.JObj?
  {
  }

  lemma {:induction false} ObjectIsSound(g: Graph, t: TypeId, seen: set<TypeId>, depth: nat, v: Json)
    requires t < |g| && g[t].Object? && Inhabits(g, v, t) && depth <= MAX_SYNTHESIS_DEPTH
    ensures Accepts(ObjectSchema(g, t, seen, depth), v)
    decreases Room(depth), 0
  {
    ObjectInhabits(g, t, v);
    if t in seen {
      AncestorAccepts(g, t, seen, depth, v);
    } else {
      FieldsAreSound(g, t, seen + {t}, depth + 1, v.fields);
      ObjectAccepts(g, t, seen, depth, v);
    }
  }

  lemma {:induction false} VariantsAreSound(g: Graph, ts: seq<TypeId>, seen: set<TypeId>, depth: nat, v: Json)
    requires forall i :: 0 <= i < |ts| ==> ts[i] < |g|
    requires InhabitsOne(g, v, ts)
    ensures VariantAccepts(g, ts, seen, depth, v)
    decreases Room(depth), 2
  {
    var i :| 0 <= i < |ts| && Inhabits(g, v, ts[i]);
    SynthesisIsSound(g, ts[i], seen, depth, v);
  }

  lemma UnionIsSound(g: Graph, t: TypeId, seen: set<TypeId>, depth: nat, v: Json)
    requires t < |g| && g[t].Union? && Inhabits(g, v, t) && depth <= MAX_SYNTHESIS_DEPTH
    requires InhabitsOne(g, v, Kept(g, g[t].members)) ==> VariantAccepts(g, Kept(g, g[t].members), seen, depth + 1, v)
    ensures Accepts(UnionSchema(g, g[t].members, seen, depth), v)
  {
    UnionInhabits(g, t, v);
    UnionAccepts(g, t, seen, depth, v);
    var kept := Kept(g, g[t].members);
    if AllBooleanLiterals(g, kept) && InhabitsOne(g, v, kept) {
      var i :| 0 <= i < |kept| && Inhabits(g, v, kept[i]);
      assert v.JBool?;
    }
  }

  lemma {:induction false} ArrayIsSound(g: Graph, t: TypeId, seen: set<TypeId>, depth: nat, v: Json)
    requires t < |g| && g[t].Array? && Inhabits(g, v, t) && depth <= MAX_SYNTHESIS_DEPTH
    ensures Accepts(TypeSchema(g, t, seen, depth), v)
    decreases Room(depth), 0
  {
    assert ValidNode(g[t], |g|);
    if g[t].element.Some? {
      var e := g[t].element.value;
      ItemsAccept(TypeSchema(g, e, seen, depth + 1), v);
      forall i | 0 <= i < |v.items| ensures Accepts(TypeSchema(g, e, seen, depth + 1), v.items[i]) {
        SynthesisIsSound(g, e, seen, depth + 1, v.items[i]);
      }
    }
  }

  lemma {:induction false} TupleIsSound(g: Graph, t: TypeId, seen: set<TypeId>, depth: nat, v: Json)
    requires t < |g| && g[t].Tuple? && Inhabits(g, v, t) && depth <= MAX_SYNTHESIS_DEPTH
    requires forall i :: 0 <= i < |g[t].args| ==> g[t].args[i] < |g|
    ensures Accepts(TupleSchema(g, g[t].args, seen, depth), v)
    decreases Room(depth), 0
  {
    var args := g[t].args;
    var variants := Variants(g, args, seen, depth + 1);
    forall i | 0 <= i < |v.items| ensures Accepts(CollapseVariants(variants), v.items[i]) {
      SynthesisIsSound(g, args[i], seen, depth + 1, v.items[i]);
      VariantAt(g, args, seen, depth + 1, i);
      CollapseAccepts(variants, v.items[i]);
    }
    TupleAccepts(g, args, seen, depth, v.items);
  }

  lemma {:induction false} FieldsAreSound(g: Graph, t: TypeId, seen: set<TypeId>, depth: nat, fields: map<string, Json>)
    requires t < |g| && g[t].Object? && FieldsInhabit(g, g[t].props, g[t].index, fields)
    ensures DeclaredAccepted(g, g[t].props, seen, depth, fields)
    ensures ExtrasAccepted(g, g[t].props, g[t].index, seen, depth, fields)
    decreases Room(depth), 2
  {
    var props, index := g[t].props, g[t].index;
    assert ValidNode(g[t], |g|);
    forall i | 0 <= i < |props| && props[i].name in fields
      ensures Accepts(TypeSchema(g, props[i].ty, seen, depth), fields[props[i].name])
    {
      SynthesisIsSound(g, props[i].ty, seen, depth, fields[props[i].name]);
    }
    forall k | k in fields && !Declares(props, k)
      ensures index.Some? && Accepts(TypeSchema(g, index.value, seen, depth), fields[k])
    {
      SynthesisIsSound(g, index.value, seen, depth, fields[k]);
    }
  }

  // ---- Exactness. ----

  /** Nothing below `t` loses information: its unfolding is at most `budget` levels deep (so it
      is acyclic) and has no exotic type, no tuple, no undefined outside a union that keeps some
      other member, and no union whose kept members are just one of the two boolean literals. */
  predicate Plain(g: Graph, t: TypeId, budget: nat)
    decreases budget
  {
    t < |g| &&
    match g[t]
    case Undefined => false
    case Exotic => false
    case Tuple(_) => false
    case Union(members) =>
      var kept := Kept(g, members);
      if kept == [] then Nullable(g, members)
      else if AllBooleanLiterals(g, kept) then
        (exists i :: 0 <= i < |kept| && g[kept[i]].b) && (exists i :: 0 <= i < |kept| && !g[kept[i]].b)
      else
        || AllStringLiterals(g, kept)
        || AllNumberLiterals(g, kept)
        || (budget > 0 && forall i :: 0 <= i < |kept| ==> Plain(g, kept[i], budget - 1))
    case Array(element) => element.Some? ==> budget > 0 && Plain(g, element.value, budget - 1)
    case Object(props, index) =>
      && (forall i :: 0 <= i < |props| ==> budget > 0 && Plain(g, props[i].ty, budget - 1))
      && (index.Some? ==> budget > 0 && Plain(g, index.value, budget - 1))
    case _ => true
  }

  lemma {:induction false} PlainGrows(g: Graph, t: TypeId, small: nat, large: nat)
    requires Plain(g, t, small) && small <= large
    ensures Plain(g, t, large)
    decreases small
  {
    if small > 0 {
      forall c: TypeId {:trigger Plain(g, c, small - 1)} | Plain(g, c, small - 1) ensures Plain(g, c, large - 1) {
        PlainGrows(g, c, small - 1, large - 1);
      }
    }
  }

  /** No type in `seen` is plain within `budget`. */
  ghost predicate NonePlain(g: Graph, seen: set<TypeId>, budget: nat) {
    forall s :: s in seen ==> !Plain(g, s, budget)
  }

  lemma NonePlainShrinks(g: Graph, seen: set<TypeId>, budget: nat)
    requires budget > 0 && NonePlain(g, seen, budget)
    ensures NonePlain(g, seen, budget - 1)
  {
    forall s | s in seen ensures !Plain(g, s, budget - 1) {
      if Plain(g, s, budget - 1) {
        PlainGrows(g, s, budget - 1, budget);
      }
    }
  }

  lemma NoneBelowPlain(g: Graph, t: TypeId, seen: set<TypeId>, budget: nat)
    requires budget > 0 && NonePlain(g, seen, budget) && !Plain(g, t, budget - 1)
    ensures NonePlain(g, seen + {t}, budget - 1)
  {
    NonePlainShrinks(g, seen, budget);
  }

  lemma ObjectIsPlain(g: Graph, t: TypeId, budget: nat)
    requires Plain(g, t, budget) && g[t].Object?
    ensures budget == 0 ==> |g[t].props| == 0 && g[t].index.None?
    ensures budget > 0 ==> forall i :: 0 <= i < |g[t].props| ==> Plain(g, g[t].props[i].ty, budget - 1)
    ensures budget > 0 && g[t].index.Some? ==> Plain(g, g[t].index.value, budget - 1)
  {
    if |g[t].props| > 0 {
      assert budget > 0 by { var first := g[t].props[0]; }
    }
  }

  /** The schema of a plain type within the depth bound accepts only inhabitants. No ancestor is
      plain within the least budget that fits the type, so the cycle guard cannot fire. */
  lemma {:induction false} SynthesisIsTight(
      g: Graph, t: TypeId, seen: set<TypeId>, depth: nat, budget: nat, v: Json)
    requires Plain(g, t, budget) && depth + budget <= MAX_SYNTHESIS_DEPTH && NonePlain(g, seen, budget)
    requires Accepts(TypeSchema(g, t, seen, depth), v)
    ensures Inhabits(g, v, t)
    decreases budget, 1
  {
    if budget > 0 && Plain(g, t, budget - 1) {
      NonePlainShrinks(g, seen, budget);
      SynthesisIsTight(g, t, seen, depth, budget - 1, v);
    } else {
      match g[t]
      case Union(_) => UnionIsTight(g, t, seen, depth, budget, v);
      case Array(_) => ArrayIsTight(g, t, seen, depth, budget, v);
      case Object(_, _) =>
        ObjectAccepts(g, t, seen, depth, v);
        ObjectIsTight(g, t, seen, depth, budget, v.fields);
        ObjectInhabits(g, t, v);
      case _ =>
    }
  }

  lemma {:induction false} VariantsAreTight(
      g: Graph, ts: seq<TypeId>, seen: set<TypeId>, depth: nat, budget: nat, v: Json)
    requires forall i :: 0 <= i < |ts| ==> ts[i] < |g| && Plain(g, ts[i], budget)
    requires depth + budget <= MAX_SYNTHESIS_DEPTH && NonePlain(g, seen, budget)
    requires VariantAccepts(g, ts, seen, depth, v)
    ensures InhabitsOne(g, v, ts)
    decreases budget, 2
  {
    var i :| 0 <= i < |ts| && Accepts(TypeSchema(g, ts[i], seen, depth), v);
    SynthesisIsTight(g, ts[i], seen, depth, budget, v);
  }

  lemma UnionTightens(g: Graph, t: TypeId, seen: set<TypeId>, depth: nat, budget: nat, v: Json)
    requires t < |g| && g[t].Union? && Plain(g, t, budget) && depth <= MAX_SYNTHESIS_DEPTH
    requires Accepts(UnionSchema(g, g[t].members, seen, depth), v)
    requires var kept := Kept(g, g[t].members);
      VariantUnion(g, kept) && VariantAccepts(g, kept, seen, depth + 1, v) ==> InhabitsOne(g, v, kept)
    ensures Inhabits(g, v, t)
  {
    UnionInhabits(g, t, v);
    UnionAccepts(g, t, seen, depth, v);
    var kept := Kept(g, g[t].members);
    if kept != [] && AllBooleanLiterals(g, kept) && v.JBool? {
      var i :| 0 <= i < |kept| && g[kept[i]].b == v.b;
      assert Inhabits(g, v, kept[i]);
    }
  }

  lemma {:induction false} UnionIsTight(
      g: Graph, t: TypeId, seen: set<TypeId>, depth: nat, budget: nat, v: Json)
    requires Plain(g, t, budget) && depth + budget <= MAX_SYNTHESIS_DEPTH && NonePlain(g, seen, budget)
    requires g[t].Union? && Accepts(UnionSchema(g, g[t].members, seen, depth), v)
    ensures Inhabits(g, v, t)
    decreases budget, 0
  {
    var kept := Kept(g, g[t].members);
    if VariantUnion(g, kept) && VariantAccepts(g, kept, seen, depth + 1, v) {
      NonePlainShrinks(g, seen, budget);
      VariantsAreTight(g, kept, seen, depth + 1, budget - 1, v);
    }
    UnionTightens(g, t, seen, depth, budget, v);
  }

  lemma {:induction false} ArrayIsTight(
      g: Graph, t: TypeId, seen: set<TypeId>, depth: nat, budget: nat, v: Json)
    requires Plain(g, t, budget) && depth + budget <= MAX_SYNTHESIS_DEPTH && NonePlain(g, seen, budget)
    requires g[t].Array? && Accepts(TypeSchema(g, t, seen, depth), v)
    ensures Inhabits(g, v, t)
    decreases budget, 0
  {
    if g[t].element.Some? {
      var e := g[t].element.value;
      NonePlainShrinks(g, seen, budget);
      ItemsAccept(TypeSchema(g, e, seen, depth + 1), v);
      forall i | 0 <= i < |v.items| ensures Inhabits(g, v.items[i], e) {
        SynthesisIsTight(g, e, seen, depth + 1, budget - 1, v.items[i]);
      }
    }
  }

  lemma {:induction false} DeclaredIsTight(
      g: Graph, props: seq<Prop>, seen: set<TypeId>, depth: nat, budget: nat, fields: map<string, Json>)
    requires forall i :: 0 <= i < |props| ==> props[i].ty < |g| && Plain(g, props[i].ty, budget)
    requires depth + budget <= MAX_SYNTHESIS_DEPTH && NonePlain(g, seen, budget)
    requires DeclaredAccepted(g, props, seen, depth, fields)
    ensures forall i :: 0 <= i < |props| && props[i].name in fields ==>
      Inhabits(g, fields[props[i].name], props[i].ty)
    decreases budget, 2
  {
    forall i | 0 <= i < |props| && props[i].name in fields
      ensures Inhabits(g, fields[props[i].name], props[i].ty)
    {
      SynthesisIsTight(g, props[i].ty, seen, depth, budget, fields[props[i].name]);
    }
  }

  lemma {:induction false} ExtrasAreTight(
      g: Graph, props: seq<Prop>, index: TypeId, seen: set<TypeId>, depth: nat, budget: nat, fields: map<string, Json>)
    requires index < |g| && Plain(g, index, budget)
    requires depth + budget <= MAX_SYNTHESIS_DEPTH && NonePlain(g, seen, budget)
    requires ExtrasAccepted(g, props, Some(index), seen, depth, fields)
    ensures forall k :: k in fields && !Declares(props, k) ==> Inhabits(g, fields[k], index)
    decreases budget, 2
  {
    forall k | k in fields && !Declares(props, k) ensures Inhabits(g, fields[k], index) {
      SynthesisIsTight(g, index, seen, depth, budget, fields[k]);
    }
  }

  lemma {:induction false} FieldsAreTight(
      g: Graph, t: TypeId, seen: set<TypeId>, depth: nat, budget: nat, fields: map<string, Json>)
    requires t < |g| && g[t].Object? && Plain(g, t, budget + 1)
    requires depth + budget <= MAX_SYNTHESIS_DEPTH && NonePlain(g, seen, budget)
    requires DeclaredAccepted(g, g[t].props, seen, depth, fields)
    requires ExtrasAccepted(g, g[t].props, g[t].index, seen, depth, fields)
    ensures FieldsInhabit(g, g[t].props, g[t].index, fields)
    decreases budget, 3
  {
    ObjectIsPlain(g, t, budget + 1);
    DeclaredIsTight(g, g[t].props, seen, depth, budget, fields);
    if g[t].index.Some? {
      ExtrasAreTight(g, g[t].props, g[t].index.value, seen, depth, budget, fields);
    }
  }

  lemma {:induction false} ObjectIsTight(
      g: Graph, t: TypeId, seen: set<TypeId>, depth: nat, budget: nat, fields: map<string, Json>)
    requires Plain(g, t, budget) && depth + budget <= MAX_SYNTHESIS_DEPTH && NonePlain(g, seen, budget)
    requires budget > 0 ==> !Plain(g, t, budget - 1)
    requires g[t].Object? && DeclaredAccepted(g, g[t].props, seen + {t}, depth + 1, fields)
    requires ExtrasAccepted(g, g[t].props, g[t].index, seen + {t}, depth + 1, fields)
    ensures FieldsInhabit(g, g[t].props, g[t].index, fields)
    decreases budget, 0
  {
    if budget > 0 {
      NoneBelowPlain(g, t, seen, budget);
      FieldsAreTight(g, t, seen + {t}, depth + 1, budget - 1, fields);
    } else {
      ObjectIsPlain(g, t, budget);
    }
  }

  /** Meaning is preserved: the compiled schema accepts a value if and only if the value
      inhabits the type. */
  lemma SynthesisIsExact(g: Graph, t: TypeId, v: Json)
    requires Plain(g, t, 32)
    ensures Accepts(TypeSchema(g, t, {}, 0), v) <==> Inhabits(g, v, t)
  {
    if Inhabits(g, v, t) {
      SynthesisIsSound(g, t, {}, 0, v);
    }
    if Accepts(TypeSchema(g, t, {}, 0), v) {
      SynthesisIsTight(g, t, {}, 0, 32, v);
    }
  }

  // ---- Each exclusion of `Plain` is needed: what the excluded nodes let through. ----

  lemma LoneBooleanLiteralWidens(g: Graph, t: TypeId, seen: set<TypeId>, depth: nat, b: bool)
    requires t < |g| && g[t].Union? && depth <= MAX_SYNTHESIS_DEPTH
    requires var kept := Kept(g, g[t].members);
      kept != [] && forall i :: 0 <= i < |kept| ==> g[kept[i]] == BooleanLiteral(b)
    ensures Accepts(TypeSchema(g, t, seen, depth), JBool(!b)) && !Inhabits(g, JBool(!b), t)
  {
    UnionInhabits(g, t, JBool(!b));
    UnionAccepts(g, t, seen, depth, JBool(!b));
    assert forall i :: 0 <= i < |Kept(g, g[t].members)| ==> !Inhabits(g, JBool(!b), Kept(g, g[t].members)[i]);
  }

  /** A tuple's schema forgets the length: the empty array passes every tuple but the empty one,
      which in turn lets a one-element array pass. */
  lemma {:induction false} TupleWidens(g: Graph, t: TypeId, seen: set<TypeId>, depth: nat)
    requires t < |g| && g[t].Tuple? && depth <= MAX_SYNTHESIS_DEPTH
    ensures var v := JArr(if g[t].args == [] then [JNull] else []);
      Accepts(TypeSchema(g, t, seen, depth), v) && !Inhabits(g, v, t)
  {
    assert ValidNode(g[t], |g|);
    TupleAccepts(g, g[t].args, seen, depth, if g[t].args == [] then [JNull] else []);
  }

  lemma UndefinedWidens(g: Graph, t: TypeId, seen: set<TypeId>, depth: nat, v: Json)
    requires t < |g|
    requires g[t].Undefined? ||
      (g[t].Union? && Kept(g, g[t].members) == [] && !Nullable(g, g[t].members))
    ensures Accepts(TypeSchema(g, t, seen, depth), v) && !Inhabits(g, v, t)
  {
    if g[t].Union? {
      UnionInhabits(g, t, v);
    }
  }

  /** Below its own ancestor an object type accepts every object, whatever its fields. */
  lemma CycleWidens(g: Graph, t: TypeId, seen: set<TypeId>, depth: nat, v: Json)
    requires t < |g| && g[t].Object? && t in seen && depth <= MAX_SYNTHESIS_DEPTH
    ensures Accepts(TypeSchema(g, t, seen, depth), v) <==> v.JObj?
  {
  }
}
