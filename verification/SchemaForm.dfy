/** What the compiled schemas look like: which variants, in which order. */
module SchemaForm {
  import opened Basics
  import opened JsonSchema
  import opened SchemaSynthesis
  import opened SchemaMeaning
  import Ordering

  /** The depth at which everything is cut off: a number is asked for at depth 32, and nothing at 33. */
  lemma DepthCutsOff(g: Graph, t: TypeId, seen: set<TypeId>, depth: nat)
    requires t < |g|
    ensures depth > 32 ==> TypeSchema(g, t, seen, depth) == Always(true)
    ensures g[t].Number? && depth <= 32 ==> TypeSchema(g, t, seen, depth) == Keywords(ty := Some(TNumber))
  {
  }

  // ---- Unions. ----

  predicate Listed(g: Graph, members: seq<TypeId>, i: nat)
    requires i < |members|
  {
    members[i] < |g| && !g[members[i]].Undefined? && !g[members[i]].Null?
  }

  predicate ListsNull(g: Graph, members: seq<TypeId>) {
    exists i :: 0 <= i < |members| && members[i] < |g| && g[members[i]].Null?
  }

  /** `at` are the positions of the members that are neither undefined nor null, in order. */
  predicate IsSelection(g: Graph, members: seq<TypeId>, at: seq<nat>) {
    Ascends(at) && SelectsListed(g, members, at) && SelectsAll(g, members, at)
  }

  predicate Ascends(at: seq<nat>) {
    forall j, k :: 0 <= j < k < |at| ==> at[j] < at[k]
  }

  predicate SelectsListed(g: Graph, members: seq<TypeId>, at: seq<nat>) {
    forall j :: 0 <= j < |at| ==> at[j] < |members| && Listed(g, members, at[j])
  }

  predicate SelectsAll(g: Graph, members: seq<TypeId>, at: seq<nat>) {
    forall i :: 0 <= i < |members| && Listed(g, members, i) ==> i in at
  }

  predicate KeptAt(g: Graph, members: seq<TypeId>, at: seq<nat>)
    requires forall i :: 0 <= i < |members| ==> members[i] < |g|
  {
    |Kept(g, members)| == |at| &&
    forall j :: 0 <= j < |at| ==> at[j] < |members| && Kept(g, members)[j] == members[at[j]]
  }

  lemma KeptOneMore(g: Graph, members: seq<TypeId>, at: seq<nat>) returns (next: seq<nat>)
    requires members != [] && forall i :: 0 <= i < |members| ==> members[i] < |g|
    requires IsSelection(g, members[..|members| - 1], at) && KeptAt(g, members[..|members| - 1], at)
    ensures next == (if Listed(g, members, |members| - 1) then at + [|members| - 1] else at)
    ensures KeptAt(g, members, next)
  {
    var last := |members| - 1;
    next := if Listed(g, members, last) then at + [last] else at;
    var kept := Kept(g, members[..last]);
    assert Kept(g, members) == if Listed(g, members, last) then kept + [members[last]] else kept;
    forall j | 0 <= j < |next| ensures next[j] < |members| && Kept(g, members)[j] == members[next[j]] {
    }
  }

  lemma ListedInFront(g: Graph, members: seq<TypeId>, i: nat)
    requires i < |members| - 1
    ensures Listed(g, members[..|members| - 1], i) <==> Listed(g, members, i)
  {
  }

  lemma SelectsListedOneMore(g: Graph, members: seq<TypeId>, at: seq<nat>, next: seq<nat>)
    requires members != [] && SelectsListed(g, members[..|members| - 1], at)
    requires next == if Listed(g, members, |members| - 1) then at + [|members| - 1] else at
    ensures SelectsListed(g, members, next) && forall j :: 0 <= j < |at| ==> at[j] < |members| - 1
  {
    forall j | 0 <= j < |next| ensures next[j] < |members| && Listed(g, members, next[j]) {
      if j < |at| { ListedInFront(g, members, at[j]); }
    }
  }

  lemma SelectsAllOneMore(g: Graph, members: seq<TypeId>, at: seq<nat>, next: seq<nat>)
    requires members != [] && SelectsAll(g, members[..|members| - 1], at)
    requires next == if Listed(g, members, |members| - 1) then at + [|members| - 1] else at
    ensures SelectsAll(g, members, next)
  {
    forall i | 0 <= i < |members| && Listed(g, members, i) ensures i in next {
      if i < |members| - 1 {
        ListedInFront(g, members, i);
        assert i in at;
      }
    }
  }

  lemma AscendsOneMore(at: seq<nat>, last: nat)
    requires Ascends(at) && forall j :: 0 <= j < |at| ==> at[j] < last
    ensures Ascends(at + [last])
  {
  }

  lemma SelectionOneMore(g: Graph, members: seq<TypeId>, at: seq<nat>)
    requires members != [] && IsSelection(g, members[..|members| - 1], at)
    ensures IsSelection(g, members, if Listed(g, members, |members| - 1) then at + [|members| - 1] else at)
  {
    var next := if Listed(g, members, |members| - 1) then at + [|members| - 1] else at;
    SelectsListedOneMore(g, members, at, next);
    SelectsAllOneMore(g, members, at, next);
    AscendsOneMore(at, |members| - 1);
  }

  lemma {:induction false} Selection(g: Graph, members: seq<TypeId>) returns (at: seq<nat>)
    requires forall i :: 0 <= i < |members| ==> members[i] < |g|
    ensures IsSelection(g, members, at) && KeptAt(g, members, at)
  {
    if members == [] {
      at := [];
    } else {
      var before := Selection(g, members[..|members| - 1]);
      SelectionOneMore(g, members, before);
      at := KeptOneMore(g, members, before);
    }
  }

  /** `{ anyOf: [schema, { type: "null" }] }` when null is listed. */
  function OrNull(schema: Schema, nullable: bool): Schema {
    if nullable then Keywords(anyOf := [schema, Keywords(ty := Some(TNull))]) else schema
  }

  predicate SelectsOnly(g: Graph, members: seq<TypeId>, at: seq<nat>, p: Node -> bool)
    requires IsSelection(g, members, at)
  {
    forall j :: 0 <= j < |at| ==> p(g[members[at[j]]])
  }

  /** One literal becomes a `const`, several become an `enum` in the order of the union. */
  predicate IsLiteralForm(schema: Schema, ty: JsonType, values: seq<Json>) {
    if |values| == 1 then schema == Keywords(ty := Some(ty), constant := Some(values[0]))
    else schema == Keywords(ty := Some(ty), choices := values)
  }

  function Strings(g: Graph, members: seq<TypeId>, at: seq<nat>): seq<Json>
    requires IsSelection(g, members, at) && SelectsOnly(g, members, at, (n: Node) => n.StringLiteral?)
  {
    seq(|at|, j requires 0 <= j < |at| => JStr(g[members[at[j]]].s))
  }

  function Numbers(g: Graph, members: seq<TypeId>, at: seq<nat>): seq<Json>
    requires IsSelection(g, members, at) && SelectsOnly(g, members, at, (n: Node) => n.NumberLiteral?)
  {
    seq(|at|, j requires 0 <= j < |at| => JNum(g[members[at[j]]].n))
  }

  lemma StringsInOrder(g: Graph, members: seq<TypeId>, at: seq<nat>)
    requires forall i :: 0 <= i < |members| ==> members[i] < |g|
    requires IsSelection(g, members, at) && KeptAt(g, members, at)
    requires SelectsOnly(g, members, at, (n: Node) => n.StringLiteral?)
    ensures AllStringLiterals(g, Kept(g, members)) && StringValues(g, Kept(g, members)) == Strings(g, members, at)
  {
  }

  lemma NumbersInOrder(g: Graph, members: seq<TypeId>, at: seq<nat>)
    requires forall i :: 0 <= i < |members| ==> members[i] < |g|
    requires IsSelection(g, members, at) && KeptAt(g, members, at)
    requires SelectsOnly(g, members, at, (n: Node) => n.NumberLiteral?)
    ensures AllNumberLiterals(g, Kept(g, members)) && NumberValues(g, Kept(g, members)) == Numbers(g, members, at)
  {
  }

  /** A union of string literals, with or without undefined and null: its values at increasing positions. */
  lemma StringEnumInOrder(g: Graph, t: TypeId, seen: set<TypeId>, depth: nat) returns (at: seq<nat>, literals: Schema)
    requires t < |g| && g[t].Union? && depth <= 32
    requires exists i :: 0 <= i < |g[t].members| && Listed(g, g[t].members, i)
    requires forall i :: 0 <= i < |g[t].members| && Listed(g, g[t].members, i) ==> g[g[t].members[i]].StringLiteral?
    ensures IsSelection(g, g[t].members, at) && SelectsOnly(g, g[t].members, at, (n: Node) => n.StringLiteral?)
    ensures IsLiteralForm(literals, TString, Strings(g, g[t].members, at))
    ensures TypeSchema(g, t, seen, depth) == OrNull(literals, ListsNull(g, g[t].members))
  {
    assert ValidNode(g[t], |g|);
    var members := g[t].members;
    at := Selection(g, members);
    StringsInOrder(g, members, at);
    var kept := Kept(g, members);
    assert |kept| > 0 && kept[0] == members[at[0]];
    literals := EnumOrConst(StringValues(g, kept), TString);
    var early := UnionEndsEarly(g, members, seen, depth);
  }

  lemma NumberEnumInOrder(g: Graph, t: TypeId, seen: set<TypeId>, depth: nat) returns (at: seq<nat>, literals: Schema)
    requires t < |g| && g[t].Union? && depth <= 32
    requires exists i :: 0 <= i < |g[t].members| && Listed(g, g[t].members, i)
    requires forall i :: 0 <= i < |g[t].members| && Listed(g, g[t].members, i) ==> g[g[t].members[i]].NumberLiteral?
    ensures IsSelection(g, g[t].members, at) && SelectsOnly(g, g[t].members, at, (n: Node) => n.NumberLiteral?)
    ensures IsLiteralForm(literals, TNumber, Numbers(g, g[t].members, at))
    ensures TypeSchema(g, t, seen, depth) == OrNull(literals, ListsNull(g, g[t].members))
  {
    assert ValidNode(g[t], |g|);
    var members := g[t].members;
    at := Selection(g, members);
    NumbersInOrder(g, members, at);
    var kept := Kept(g, members);
    assert |kept| > 0 && kept[0] == members[at[0]];
    literals := EnumOrConst(NumberValues(g, kept), TNumber);
    var early := UnionEndsEarly(g, members, seen, depth);
  }

  /** The schemas of the listed types, each compiled for itself. */
  predicate AreVariants(g: Graph, ts: seq<TypeId>, seen: set<TypeId>, depth: nat, variants: seq<Schema>) {
    |variants| == |ts| &&
    forall j :: 0 <= j < |ts| ==> ts[j] < |g| && variants[j] == TypeSchema(g, ts[j], seen, depth)
  }

  lemma VariantsAre(g: Graph, ts: seq<TypeId>, seen: set<TypeId>, depth: nat)
    requires forall j :: 0 <= j < |ts| ==> ts[j] < |g|
    ensures AreVariants(g, ts, seen, depth, Variants(g, ts, seen, depth))
  {
    forall j | 0 <= j < |ts| ensures Variants(g, ts, seen, depth)[j] == TypeSchema(g, ts[j], seen, depth) {
      VariantAt(g, ts, seen, depth, j);
    }
  }

  function At(members: seq<TypeId>, at: seq<nat>): seq<TypeId>
    requires forall j :: 0 <= j < |at| ==> at[j] < |members|
  {
    seq(|at|, j requires 0 <= j < |at| => members[at[j]])
  }

  /** Not only literals of one kind. */
  predicate IsMixed(g: Graph, members: seq<TypeId>, at: seq<nat>)
    requires IsSelection(g, members, at)
  {
    && !SelectsOnly(g, members, at, (n: Node) => n.BooleanLiteral?)
    && !SelectsOnly(g, members, at, (n: Node) => n.StringLiteral?)
    && !SelectsOnly(g, members, at, (n: Node) => n.NumberLiteral?)
  }

  lemma KeptIsSelected(g: Graph, members: seq<TypeId>, at: seq<nat>) returns (kept: seq<TypeId>)
    requires forall i :: 0 <= i < |members| ==> members[i] < |g|
    requires IsSelection(g, members, at)
    ensures kept == Kept(g, members) && kept == At(members, at) && KeptAt(g, members, at)
  {
    var same := Selection(g, members);
    SelectionIsUnique(g, members, at, same);
    kept := Kept(g, members);
    assert kept == At(members, at);
  }

  /** Any other union: one variant for each listed member, in the order of the union, then null if it is a
      member; a lone variant stands for itself. */
  lemma VariantsInOrder(g: Graph, t: TypeId, seen: set<TypeId>, depth: nat, at: seq<nat>)
      returns (variants: seq<Schema>)
    requires t < |g| && g[t].Union? && depth <= 32
    requires IsSelection(g, g[t].members, at) && IsMixed(g, g[t].members, at)
    ensures AreVariants(g, At(g[t].members, at), seen, depth + 1, variants)
    ensures var all := variants + if ListsNull(g, g[t].members) then [Keywords(ty := Some(TNull))] else [];
      TypeSchema(g, t, seen, depth) == if |all| == 1 then all[0] else Keywords(anyOf := all)
  {
    assert ValidNode(g[t], |g|);
    var members := g[t].members;
    var kept := KeptIsSelected(g, members, at);
    MixedIsCompiled(g, members, at);
    variants := UnionKeepsVariants(g, members, seen, depth);
    VariantsAre(g, kept, seen, depth + 1);
  }

  lemma MixedIsCompiled(g: Graph, members: seq<TypeId>, at: seq<nat>)
    requires forall i :: 0 <= i < |members| ==> members[i] < |g|
    requires IsSelection(g, members, at) && KeptAt(g, members, at) && IsMixed(g, members, at)
    ensures EarlySchema(g, Kept(g, members), Nullable(g, members)).None?
  {
    var kept := Kept(g, members);
    assert kept != [];
    assert !AllBooleanLiterals(g, kept);
    assert !AllStringLiterals(g, kept);
    assert !AllNumberLiterals(g, kept);
  }

  lemma {:induction false} SelectionIsUnique(g: Graph, members: seq<TypeId>, a: seq<nat>, b: seq<nat>)
    requires IsSelection(g, members, a) && IsSelection(g, members, b)
    ensures a == b
  {
    IncreasingIsUnique(a, b);
  }

  lemma TailMembers(a: seq<nat>)
    requires a != [] && forall j, k :: 0 <= j < k < |a| ==> a[j] < a[k]
    ensures forall x :: x in a[1..] <==> x in a && x != a[0]
  {
    assert a == [a[0]] + a[1..];
    assert forall j :: 0 <= j < |a| - 1 ==> a[1..][j] == a[j + 1];
  }

  lemma NonemptyHas(b: seq<nat>)
    ensures b != [] ==> exists x :: x in b
  {
    if b != [] { assert b[0] in b; }
  }

  lemma {:induction false} IncreasingIsUnique(a: seq<nat>, b: seq<nat>)
    requires forall j, k :: 0 <= j < k < |a| ==> a[j] < a[k]
    requires forall j, k :: 0 <= j < k < |b| ==> b[j] < b[k]
    requires forall x :: x in a <==> x in b
    ensures a == b
  {
    if a == [] {
      NonemptyHas(b);
    } else {
      assert a[0] in b && b != [] && b[0] in a;
      assert a[0] == b[0];
      var a', b' := a[1..], b[1..];
      TailMembers(a);
      TailMembers(b);
      IncreasingIsUnique(a', b');
      assert a == [a[0]] + a' && b == [b[0]] + b';
    }
  }

  // ---- Tuples and objects. ----

  /** A tuple's `items`: one variant for each argument, in order. */
  lemma TupleInOrder(g: Graph, t: TypeId, seen: set<TypeId>, depth: nat) returns (variants: seq<Schema>)
    requires t < |g| && g[t].Tuple? && depth <= 32
    ensures AreVariants(g, g[t].args, seen, depth + 1, variants)
    ensures TypeSchema(g, t, seen, depth) == Keywords(ty := Some(TArray), items := Some(
      if variants == [] then Always(true) else if |variants| == 1 then variants[0] else Keywords(anyOf := variants)))
  {
    assert ValidNode(g[t], |g|);
    variants := Variants(g, g[t].args, seen, depth + 1);
    VariantsAre(g, g[t].args, seen, depth + 1);
  }

  lemma {:induction false} RequiredAreDistinct(props: seq<Prop>)
    requires forall i, j :: 0 <= i < j < |props| ==> props[i].name != props[j].name
    ensures forall i, j :: 0 <= i < j < |RequiredNames(props)| ==> RequiredNames(props)[i] != RequiredNames(props)[j]
  {
    if props != [] {
      var front, last := props[..|props| - 1], props[|props| - 1];
      RequiredAreDistinct(front);
      RequiredAt(front, last.name);
      assert !Requires(front, last.name);
    }
  }

  /** An object's `required`: the names without the optional flag, each once, in sorted order; and a
      schema for each declared name, no other. */
  lemma ObjectInOrder(g: Graph, t: TypeId, seen: set<TypeId>, depth: nat)
    requires t < |g| && g[t].Object? && t !in seen && depth <= 32
    ensures TypeSchema(g, t, seen, depth).Keywords?
    ensures var required := TypeSchema(g, t, seen, depth).required;
      Ordering.StrictlySorted(required) && forall name :: name in required <==> Requires(g[t].props, name)
    ensures var properties := TypeSchema(g, t, seen, depth).properties;
      && (forall name :: name in properties <==> Declares(g[t].props, name))
      && forall i :: 0 <= i < |g[t].props| ==>
           (g[t].props[i].name in properties && g[t].props[i].ty < |g| &&
            properties[g[t].props[i].name] == TypeSchema(g, g[t].props[i].ty, seen + {t}, depth + 1))
  {
    assert ValidNode(g[t], |g|);
    var props := g[t].props;
    RequiredAreDistinct(props);
    Ordering.DistinctSortsStrictly(RequiredNames(props));
    forall name ensures name in RequiredNames(props) <==> Requires(props, name) {
      RequiredAt(props, name);
    }
    PropertiesAt(g, props, seen + {t}, depth + 1);
  }
}
