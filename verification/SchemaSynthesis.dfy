/** The type-to-JSON-Schema compiler of port/contract/generate-ws-contract.ts. */
module SchemaSynthesis {
  import opened Basics
  import opened JsonSchema
  import Ordering

  // ---- Resolved types: a finite table of nodes that refer to each other by index. ----

  type TypeId = nat

  datatype Prop = Prop(name: string, ty: TypeId, optional: bool)

  datatype Node =
    | AnyOrUnknown
    | Undefined
    | Null
    | Boolean
    | BooleanLiteral(b: bool)
    | String
    | StringLiteral(s: string)
    | Number
    | NumberLiteral(n: real)
    | Union(members: seq<TypeId>)
    | Array(element: Option<TypeId>)
    | Tuple(args: seq<TypeId>)
    | Object(props: seq<Prop>, index: Option<TypeId>)
    | Exotic

  /** Every reference is below `size`, and one object declares a name at most once. */
  predicate ValidNode(node: Node, size: nat) {
    match node
    case Union(members) => forall i :: 0 <= i < |members| ==> members[i] < size
    case Array(element) => element.Some? ==> element.value < size
    case Tuple(args) => forall i :: 0 <= i < |args| ==> args[i] < size
    case Object(props, index) =>
      && (forall i :: 0 <= i < |props| ==> props[i].ty < size)
      && (forall i, j :: 0 <= i < j < |props| ==> props[i].name != props[j].name)
      && (index.Some? ==> index.value < size)
    case _ => true
  }

  type Graph = nodes: seq<Node> | forall t :: 0 <= t < |nodes| ==> ValidNode(nodes[t], |nodes|) witness []

  predicate Declares(props: seq<Prop>, name: string) {
    exists i :: 0 <= i < |props| && props[i].name == name
  }

  /** `v` inhabits type `t`, by a finite derivation: a union chain that leads nowhere has no
      inhabitants. Nothing is known of an exotic type, so any value may inhabit it. */
  least predicate Inhabits(g: Graph, v: Json, t: TypeId) {
    t < |g| &&
    match g[t]
    case AnyOrUnknown => true
    case Exotic => true
    case Undefined => false
    case Null => v.JNull?
    case Boolean => v.JBool?
    case BooleanLiteral(b) => v == JBool(b)
    case String => v.JStr?
    case StringLiteral(s) => v == JStr(s)
    case Number => v.JNum?
    case NumberLiteral(n) => v == JNum(n)
    case Union(members) => exists i :: 0 <= i < |members| && Inhabits(g, v, members[i])
    case Array(element) =>
      v.JArr? && (element.Some? ==> forall i :: 0 <= i < |v.items| ==> Inhabits(g, v.items[i], element.value))
    case Tuple(args) =>
      v.JArr? && |v.items| == |args| && forall i :: 0 <= i < |args| ==> Inhabits(g, v.items[i], args[i])
    case Object(props, index) =>
      && v.JObj?
      && (forall i :: 0 <= i < |props| ==> props[i].optional || props[i].name in v.fields)
      && (forall i :: 0 <= i < |props| && props[i].name in v.fields ==>
            Inhabits(g, v.fields[props[i].name], props[i].ty))
      && (forall k :: k in v.fields && !Declares(props, k) ==>
            index.Some? && Inhabits(g, v.fields[k], index.value))
  }

  // ---- The compiler. ----

  const MAX_SYNTHESIS_DEPTH := 32

  function Room(depth: nat): nat {
    if depth > MAX_SYNTHESIS_DEPTH then 0 else MAX_SYNTHESIS_DEPTH + 1 - depth
  }

  function CollapseVariants(variants: seq<Schema>): Schema {
    if |variants| == 1 then variants[0] else Keywords(anyOf := variants)
  }

  function EnumOrConst(values: seq<Json>, ty: JsonType): Schema {
    if |values| == 1 then Keywords(ty := Some(ty), constant := Some(values[0]))
    else Keywords(ty := Some(ty), choices := values)
  }

  function WithNullable(schema: Schema, nullable: bool): Schema {
    if nullable then Keywords(anyOf := [schema, Keywords(ty := Some(TNull))]) else schema
  }

  function Kept(g: Graph, members: seq<TypeId>): (kept: seq<TypeId>)
    requires forall i :: 0 <= i < |members| ==> members[i] < |g|
    ensures forall i :: 0 <= i < |kept| ==> kept[i] < |g|
  {
    if members == [] then [] else
    var rest := Kept(g, members[..|members| - 1]);
    var last := members[|members| - 1];
    if g[last].Undefined? || g[last].Null? then rest else rest + [last]
  }

  predicate Nullable(g: Graph, members: seq<TypeId>)
    requires forall i :: 0 <= i < |members| ==> members[i] < |g|
  {
    exists i :: 0 <= i < |members| && g[members[i]].Null?
  }

  predicate AllBooleanLiterals(g: Graph, ts: seq<TypeId>) {
    forall i :: 0 <= i < |ts| ==> ts[i] < |g| && g[ts[i]].BooleanLiteral?
  }

  predicate AllStringLiterals(g: Graph, ts: seq<TypeId>) {
    forall i :: 0 <= i < |ts| ==> ts[i] < |g| && g[ts[i]].StringLiteral?
  }

  predicate AllNumberLiterals(g: Graph, ts: seq<TypeId>) {
    forall i :: 0 <= i < |ts| ==> ts[i] < |g| && g[ts[i]].NumberLiteral?
  }

  function StringValues(g: Graph, ts: seq<TypeId>): seq<Json>
    requires AllStringLiterals(g, ts)
  {
    seq(|ts|, i requires 0 <= i < |ts| => JStr(g[ts[i]].s))
  }

  function NumberValues(g: Graph, ts: seq<TypeId>): seq<Json>
    requires AllNumberLiterals(g, ts)
  {
    seq(|ts|, i requires 0 <= i < |ts| => JNum(g[ts[i]].n))
  }

  function TypeSchema(g: Graph, t: TypeId, seen: set<TypeId>, depth: nat): Schema
    requires t < |g|
    decreases Room(depth), 2, 0
  {
    if depth > MAX_SYNTHESIS_DEPTH then Always(true) else
    match g[t]
    case AnyOrUnknown => Always(true)
    case Null => Keywords(ty := Some(TNull))
    case Boolean => Keywords(ty := Some(TBoolean))
    case BooleanLiteral(b) => Keywords(ty := Some(TBoolean), constant := Some(JBool(b)))
    case StringLiteral(s) => Keywords(ty := Some(TString), constant := Some(JStr(s)))
    case String => Keywords(ty := Some(TString))
    case NumberLiteral(n) => Keywords(ty := Some(TNumber), constant := Some(JNum(n)))
    case Number => Keywords(ty := Some(TNumber))
    case Union(members) => UnionSchema(g, members, seen, depth)
    case Array(element) =>
      Keywords(ty := Some(TArray), items := Some(
        if element.Some? then TypeSchema(g, element.value, seen, depth + 1) else Always(true)))
    case Tuple(args) => TupleSchema(g, args, seen, depth)
    case Object(_, _) => ObjectSchema(g, t, seen, depth)
    case Undefined => Always(true)
    case Exotic => Always(true)
  }

  function Variants(g: Graph, ts: seq<TypeId>, seen: set<TypeId>, depth: nat): (r: seq<Schema>)
    requires forall i :: 0 <= i < |ts| ==> ts[i] < |g|
    ensures |r| == |ts|
    decreases Room(depth), 3, |ts|
  {
    if ts == [] then [] else
    Variants(g, ts[..|ts| - 1], seen, depth) + [TypeSchema(g, ts[|ts| - 1], seen, depth)]
  }

  function TupleSchema(g: Graph, args: seq<TypeId>, seen: set<TypeId>, depth: nat): Schema
    requires depth <= MAX_SYNTHESIS_DEPTH
    requires forall i :: 0 <= i < |args| ==> args[i] < |g|
    decreases Room(depth), 1, 0
  {
    var variants := Variants(g, args, seen, depth + 1);
    Keywords(ty := Some(TArray), items := Some(if variants != [] then CollapseVariants(variants) else Always(true)))
  }

  lemma {:induction false} VariantAt(g: Graph, ts: seq<TypeId>, seen: set<TypeId>, depth: nat, i: nat)
    requires forall j :: 0 <= j < |ts| ==> ts[j] < |g|
    requires i < |ts|
    ensures Variants(g, ts, seen, depth)[i] == TypeSchema(g, ts[i], seen, depth)
    decreases |ts|
  {
    var last := |ts| - 1;
    if i < last {
      VariantAt(g, ts[..last], seen, depth, i);
    }
  }

  /** The early returns of the union case: nothing kept, or only literals of one kind. */
  function EarlySchema(g: Graph, kept: seq<TypeId>, nullable: bool): Option<Schema> {
    if kept == [] then
      Some(if nullable then Keywords(ty := Some(TNull)) else Always(true))
    else if AllBooleanLiterals(g, kept) then
      Some(WithNullable(Keywords(ty := Some(TBoolean)), nullable))
    else if AllStringLiterals(g, kept) then
      Some(WithNullable(EnumOrConst(StringValues(g, kept), TString), nullable))
    else if AllNumberLiterals(g, kept) then
      Some(WithNullable(EnumOrConst(NumberValues(g, kept), TNumber), nullable))
    else None
  }

  /** The last step of the union case: null, if it was a member, is the last variant. */
  function UnionOf(variants: seq<Schema>, nullable: bool): Schema {
    CollapseVariants(variants + if nullable then [Keywords(ty := Some(TNull))] else [])
  }

  function UnionSchema(g: Graph, members: seq<TypeId>, seen: set<TypeId>, depth: nat): Schema
    requires depth <= MAX_SYNTHESIS_DEPTH
    requires forall i :: 0 <= i < |members| ==> members[i] < |g|
    decreases Room(depth), 1, 0
  {
    var kept := Kept(g, members);
    var nullable := Nullable(g, members);
    var early := EarlySchema(g, kept, nullable);
    if early.Some? then early.value else
    UnionOf(Variants(g, kept, seen, depth + 1), nullable)
  }

  /** The schemas of the declared properties; a later declaration of a name would win. */
  function Properties(g: Graph, props: seq<Prop>, seen: set<TypeId>, depth: nat): map<string, Schema>
    requires forall i :: 0 <= i < |props| ==> props[i].ty < |g|
    decreases Room(depth), 3, |props|
  {
    if props == [] then map[] else
    var last := props[|props| - 1];
    Properties(g, props[..|props| - 1], seen, depth)[last.name := TypeSchema(g, last.ty, seen, depth)]
  }

  function RequiredNames(props: seq<Prop>): seq<string> {
    if props == [] then [] else
    var last := props[|props| - 1];
    RequiredNames(props[..|props| - 1]) + if last.optional then [] else [last.name]
  }

  function ObjectSchema(g: Graph, t: TypeId, seen: set<TypeId>, depth: nat): Schema
    requires t < |g| && g[t].Object? && depth <= MAX_SYNTHESIS_DEPTH
    decreases Room(depth), 1, 0
  {
    if t in seen then Keywords(ty := Some(TObject)) else
    var next := seen + {t};
    assert ValidNode(g[t], |g|);
    Keywords(
      ty := Some(TObject),
      properties := Properties(g, g[t].props, next, depth + 1),
      required := Ordering.Sort(RequiredNames(g[t].props)),
      additional := Some(
        if g[t].index.Some? then TypeSchema(g, g[t].index.value, next, depth + 1) else Always(false)))
  }

  // ---- The same compiler as the generator runs it: loops that fill local arrays and records. ----

  method SynthesizeType(g: Graph, t: TypeId, seen: set<TypeId>, depth: nat) returns (schema: Schema)
    requires t < |g|
    ensures schema == TypeSchema(g, t, seen, depth)
    decreases Room(depth), 2, 0
  {
    if depth > MAX_SYNTHESIS_DEPTH {
      return Always(true);
    }
    assert ValidNode(g[t], |g|);
    match g[t]
    case Union(members) =>
      schema := SynthesizeUnion(g, members, seen, depth);
    case Array(element) =>
      var items := Always(true);
      if element.Some? {
        items := SynthesizeType(g, element.value, seen, depth + 1);
      }
      schema := Keywords(ty := Some(TArray), items := Some(items));
    case Tuple(args) =>
      var variants := SynthesizeEach(g, args, seen, depth + 1);
      schema := Keywords(ty := Some(TArray), items := Some(
        if |variants| > 0 then CollapseVariants(variants) else Always(true)));
    case Object(_, _) =>
      schema := SynthesizeObject(g, t, seen, depth);
    case _ =>
      schema := TypeSchema(g, t, seen, depth);
  }

  method SynthesizeEach(g: Graph, ts: seq<TypeId>, seen: set<TypeId>, depth: nat) returns (variants: seq<Schema>)
    requires forall i :: 0 <= i < |ts| ==> ts[i] < |g|
    ensures variants == Variants(g, ts, seen, depth)
    decreases Room(depth), 3, 0
  {
    variants := [];
    for i := 0 to |ts|
      invariant variants == Variants(g, ts[..i], seen, depth)
    {
      var variant := SynthesizeType(g, ts[i], seen, depth);
      assert ts[..i + 1][..i] == ts[..i];
      variants := variants + [variant];
    }
    assert ts[..|ts|] == ts;
  }

  /** The first loop of the union case: drops undefined, notes null, keeps the rest. */
  method ScanMembers(g: Graph, members: seq<TypeId>) returns (kept: seq<TypeId>, nullable: bool)
    requires forall i :: 0 <= i < |members| ==> members[i] < |g|
    ensures kept == Kept(g, members) && nullable == Nullable(g, members)
  {
    nullable := false;
    kept := [];
    for i := 0 to |members|
      invariant kept == Kept(g, members[..i])
      invariant nullable == Nullable(g, members[..i])
    {
      assert members[..i + 1][..i] == members[..i];
      if g[members[i]].Undefined? { continue; }
      if g[members[i]].Null? {
        nullable := true;
        assert members[..i + 1][i] == members[i];
        continue;
      }
      kept := kept + [members[i]];
    }
    assert members[..|members|] == members;
  }

  lemma UnionEndsEarly(g: Graph, members: seq<TypeId>, seen: set<TypeId>, depth: nat) returns (early: Option<Schema>)
    requires depth <= MAX_SYNTHESIS_DEPTH
    requires forall i :: 0 <= i < |members| ==> members[i] < |g|
    ensures early == EarlySchema(g, Kept(g, members), Nullable(g, members))
    ensures early.Some? ==> UnionSchema(g, members, seen, depth) == early.value
  {
    early := EarlySchema(g, Kept(g, members), Nullable(g, members));
  }

  lemma UnionKeepsVariants(g: Graph, members: seq<TypeId>, seen: set<TypeId>, depth: nat)
      returns (variants: seq<Schema>)
    requires depth <= MAX_SYNTHESIS_DEPTH
    requires forall i :: 0 <= i < |members| ==> members[i] < |g|
    requires EarlySchema(g, Kept(g, members), Nullable(g, members)).None?
    ensures variants == Variants(g, Kept(g, members), seen, depth + 1)
    ensures UnionSchema(g, members, seen, depth) == UnionOf(variants, Nullable(g, members))
  {
    variants := Variants(g, Kept(g, members), seen, depth + 1);
  }

  method SynthesizeUnion(g: Graph, members: seq<TypeId>, seen: set<TypeId>, depth: nat) returns (schema: Schema)
    requires depth <= MAX_SYNTHESIS_DEPTH
    requires forall i :: 0 <= i < |members| ==> members[i] < |g|
    ensures schema == UnionSchema(g, members, seen, depth)
    decreases Room(depth), 1, 0
  {
    var kept, nullable := ScanMembers(g, members);
    var early := EarlySchema(g, kept, nullable);
    if early.Some? {
      ghost var _ := UnionEndsEarly(g, members, seen, depth);
      return early.value;
    }
    ghost var expected := UnionKeepsVariants(g, members, seen, depth);
    var variants := SynthesizeEach(g, kept, seen, depth + 1);
    schema := UnionOf(variants, nullable);
  }

  method SynthesizeProperties(g: Graph, props: seq<Prop>, seen: set<TypeId>, depth: nat)
      returns (properties: map<string, Schema>, required: seq<string>)
    requires forall i :: 0 <= i < |props| ==> props[i].ty < |g|
    ensures properties == Properties(g, props, seen, depth)
    ensures required == RequiredNames(props)
    decreases Room(depth), 3, 0
  {
    properties := map[];
    required := [];
    for i := 0 to |props|
      invariant properties == Properties(g, props[..i], seen, depth)
      invariant required == RequiredNames(props[..i])
    {
      var property := SynthesizeType(g, props[i].ty, seen, depth);
      assert props[..i + 1][..i] == props[..i];
      properties := properties[props[i].name := property];
      if !props[i].optional {
        required := required + [props[i].name];
      }
    }
    assert props[..|props|] == props;
  }

  method SynthesizeObject(g: Graph, t: TypeId, seen: set<TypeId>, depth: nat) returns (schema: Schema)
    requires t < |g| && g[t].Object? && depth <= MAX_SYNTHESIS_DEPTH
    ensures schema == ObjectSchema(g, t, seen, depth)
    decreases Room(depth), 1, 0
  {
    if t in seen {
      return Keywords(ty := Some(TObject));
    }
    assert ValidNode(g[t], |g|);
    var next := seen + {t};
    var properties, required := SynthesizeProperties(g, g[t].props, next, depth + 1);
    var additional := Always(false);
    if g[t].index.Some? {
      additional := SynthesizeType(g, g[t].index.value, next, depth + 1);
    }
    schema := Keywords(ty := Some(TObject), properties := properties,
                       required := Ordering.Sort(required), additional := Some(additional));
  }
}
