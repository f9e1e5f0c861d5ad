/** `sortKeysDeep` of port/contract/generate-ws-contract.ts: a canonical form for JSON documents. */
module CanonicalJson {
  import opened JsonSchema
  import Ordering

  /** A JavaScript value as it is held in memory: an object's entries have an order. */
  datatype Doc =
    | Scalar(value: Json)
    | List(items: seq<Doc>)
    | Record(entries: seq<(string, Doc)>)

  /** Scalars are scalars, and a key occurs once in its object. */
  predicate Valid(d: Doc) {
    match d
    case Scalar(v) => !v.JArr? && !v.JObj?
    case List(items) => forall i :: 0 <= i < |items| ==> Valid(items[i])
    case Record(entries) =>
      && (forall i, j :: 0 <= i < j < |entries| ==> entries[i].0 != entries[j].0)
      && (forall i :: 0 <= i < |entries| ==> Valid(entries[i].1))
  }

  function Keys(entries: seq<(string, Doc)>): (keys: seq<string>)
    ensures |keys| == |entries| && forall i :: 0 <= i < |keys| ==> keys[i] == entries[i].0
  {
    seq(|entries|, i requires 0 <= i < |entries| => entries[i].0)
  }

  function Lookup(entries: seq<(string, Doc)>, key: string): (d: Doc)
    requires key in Keys(entries)
    ensures exists i :: 0 <= i < |entries| && entries[i] == (key, d)
  {
    if entries[0].0 == key then entries[0].1 else
    assert Keys(entries)[1..] == Keys(entries[1..]);
    Lookup(entries[1..], key)
  }

  /** The value, with the order of keys forgotten. */
  function Meaning(d: Doc): Json
    decreases d, 0
  {
    match d
    case Scalar(v) => v
    case List(items) => JArr(seq(|items|, i requires 0 <= i < |items| => Meaning(items[i])))
    case Record(entries) => JObj(map k | k in Keys(entries) :: FieldMeaning(d, k))
  }

  function FieldMeaning(d: Doc, key: string): Json
    requires d.Record? && key in Keys(d.entries)
    decreases d, 0, 0
  {
    Meaning(Lookup(d.entries, key))
  }

  /** Keys sorted at every depth, arrays left in order. */
  function Canonical(d: Doc): Doc
    decreases d, 0
  {
    match d
    case Scalar(_) => d
    case List(items) => List(seq(|items|, i requires 0 <= i < |items| => Canonical(items[i])))
    case Record(entries) =>
      Ordering.SortKeepsMembers(Keys(entries));
      Record(CanonicalEntries(d, Ordering.Sort(Keys(entries))))
  }

  function CanonicalEntries(d: Doc, keys: seq<string>): (r: seq<(string, Doc)>)
    requires d.Record?
    requires forall k :: k in keys ==> k in Keys(d.entries)
    ensures Keys(r) == keys
    decreases d, 0, |keys|
  {
    if keys == [] then [] else
    var last := keys[|keys| - 1];
    CanonicalEntries(d, keys[..|keys| - 1]) + [(last, Canonical(Lookup(d.entries, last)))]
  }

  // ---- It keeps the meaning, and equal meanings come out as one document. ----

  lemma {:induction false} LookupFinds(entries: seq<(string, Doc)>, i: nat)
    requires i < |entries| && forall p, q :: 0 <= p < q < |entries| ==> entries[p].0 != entries[q].0
    ensures Lookup(entries, entries[i].0) == entries[i].1
  {
    assert entries[i].0 == Keys(entries)[i];
    var j :| 0 <= j < |entries| && entries[j] == (entries[i].0, Lookup(entries, entries[i].0));
  }

  lemma {:induction false} CanonicalEntriesAt(d: Doc, keys: seq<string>, i: nat)
    requires d.Record? && i < |keys|
    requires forall k :: k in keys ==> k in Keys(d.entries)
    ensures CanonicalEntries(d, keys)[i] == (keys[i], Canonical(Lookup(d.entries, keys[i])))
    decreases |keys|
  {
    if i < |keys| - 1 {
      CanonicalEntriesAt(d, keys[..|keys| - 1], i);
    }
  }

  lemma KeysAreStrict(d: Doc)
    requires Valid(d) && d.Record?
    ensures var keys := Ordering.Sort(Keys(d.entries));
      Ordering.StrictlySorted(keys) && (forall k :: k in keys <==> k in Keys(d.entries)) &&
      (forall i, j :: 0 <= i < j < |keys| ==> keys[i] != keys[j])
  {
    Ordering.DistinctSortsStrictly(Keys(d.entries));
    var keys := Ordering.Sort(Keys(d.entries));
    forall i, j | 0 <= i < j < |keys| ensures keys[i] != keys[j] {
      Ordering.BeforeIrreflexive(keys[i]);
    }
  }

  /** The canonical document is a valid one, with every object's keys strictly sorted. */
  predicate CanonicalForm(d: Doc) {
    match d
    case Scalar(v) => !v.JArr? && !v.JObj?
    case List(items) => forall i :: 0 <= i < |items| ==> CanonicalForm(items[i])
    case Record(entries) =>
      && Ordering.StrictlySorted(Keys(entries))
      && (forall i :: 0 <= i < |entries| ==> CanonicalForm(entries[i].1))
  }

  lemma {:induction false} CanonicalHasSortedKeys(d: Doc)
    requires Valid(d)
    ensures CanonicalForm(Canonical(d))
    decreases d
  {
    match d
    case Scalar(_) =>
    case List(items) =>
      forall i | 0 <= i < |items| ensures CanonicalForm(Canonical(items[i])) {
        CanonicalHasSortedKeys(items[i]);
      }
    case Record(entries) =>
      KeysAreStrict(d);
      var keys := Ordering.Sort(Keys(entries));
      forall i | 0 <= i < |keys| ensures CanonicalForm(Canonical(d).entries[i].1) {
        CanonicalEntriesAt(d, keys, i);
        var j :| 0 <= j < |entries| && entries[j] == (keys[i], Lookup(entries, keys[i]));
        CanonicalHasSortedKeys(entries[j].1);
      }
  }

  lemma {:induction false} CanonicalKeepsMeaning(d: Doc)
    requires Valid(d)
    ensures Meaning(Canonical(d)) == Meaning(d)
    decreases d, 1
  {
    match d
    case Scalar(_) =>
    case List(items) =>
      forall i | 0 <= i < |items| ensures Meaning(Canonical(items[i])) == Meaning(items[i]) {
        CanonicalKeepsMeaning(items[i]);
      }
    case Record(entries) =>
      KeysAreStrict(d);
      var keys := Ordering.Sort(Keys(entries));
      var c := Canonical(d);
      assert Keys(c.entries) == keys;
      forall k | k in keys ensures FieldMeaning(c, k) == FieldMeaning(d, k) {
        FieldKeepsMeaning(d, k);
      }
      assert Meaning(c).fields == Meaning(d).fields;
  }

  lemma {:induction false} FieldKeepsMeaning(d: Doc, key: string)
    requires Valid(d) && d.Record? && key in Keys(d.entries) && key in Keys(Canonical(d).entries)
    ensures FieldMeaning(Canonical(d), key) == FieldMeaning(d, key)
    decreases d, 0
  {
    KeysAreStrict(d);
    var keys := Ordering.Sort(Keys(d.entries));
    var i :| 0 <= i < |keys| && keys[i] == key;
    CanonicalEntriesAt(d, keys, i);
    LookupFinds(Canonical(d).entries, i) by {
      assert forall p, q :: 0 <= p < q < |keys| ==> Keys(Canonical(d).entries)[p] != Keys(Canonical(d).entries)[q];
    }
    var j :| 0 <= j < |d.entries| && d.entries[j] == (key, Lookup(d.entries, key));
    CanonicalKeepsMeaning(d.entries[j].1);
  }

  /** Documents that differ only in the order of keys, at any depth, have one canonical form. */
  lemma {:induction false} CanonicalForgetsKeyOrder(a: Doc, b: Doc)
    requires Valid(a) && Valid(b) && Meaning(a) == Meaning(b)
    ensures Canonical(a) == Canonical(b)
    decreases a, 1
  {
    match a
    case Scalar(v) =>
    case List(items) =>
      assert |items| == |Meaning(a).items| == |Meaning(b).items|;
      forall i | 0 <= i < |items| ensures Canonical(items[i]) == Canonical(b.items[i]) {
        assert Meaning(a).items[i] == Meaning(b).items[i];
        CanonicalForgetsKeyOrder(items[i], b.items[i]);
      }
    case Record(entries) =>
      var keys := Ordering.Sort(Keys(entries));
      SameKeysSortAlike(a, b);
      KeysAreStrict(a);
      KeysAreStrict(b);
      forall i | 0 <= i < |keys| ensures Canonical(a).entries[i] == Canonical(b).entries[i] {
        CanonicalEntriesAt(a, keys, i);
        CanonicalEntriesAt(b, keys, i);
        FieldForgetsKeyOrder(a, b, keys[i]);
      }
      assert Canonical(a).entries == Canonical(b).entries;
  }

  lemma {:induction false} FieldForgetsKeyOrder(a: Doc, b: Doc, key: string)
    requires Valid(a) && Valid(b) && a.Record? && b.Record? && Meaning(a) == Meaning(b)
    requires key in Keys(a.entries) && key in Keys(b.entries)
    ensures Canonical(Lookup(a.entries, key)) == Canonical(Lookup(b.entries, key))
    decreases a, 0
  {
    assert Meaning(a).fields[key] == Meaning(b).fields[key];
    var p :| 0 <= p < |a.entries| && a.entries[p] == (key, Lookup(a.entries, key));
    var q :| 0 <= q < |b.entries| && b.entries[q] == (key, Lookup(b.entries, key));
    CanonicalForgetsKeyOrder(a.entries[p].1, b.entries[q].1);
  }

  lemma SameKeysSortAlike(a: Doc, b: Doc)
    requires Valid(a) && Valid(b) && a.Record? && Meaning(a) == Meaning(b)
    ensures b.Record? && Ordering.Sort(Keys(a.entries)) == Ordering.Sort(Keys(b.entries))
  {
    var ka, kb := Keys(a.entries), Keys(b.entries);
    forall k ensures k in ka <==> k in kb {
      assert k in ka <==> k in Meaning(a).fields;
      assert k in kb <==> k in Meaning(b).fields;
    }
    Ordering.DistinctSameMultiset(ka, kb);
    Ordering.SortForgetsOrder(ka, kb);
  }

  /** So it is a canonical form: equal results exactly for equal meanings. */
  lemma CanonicalDecidesMeaning(a: Doc, b: Doc)
    requires Valid(a) && Valid(b)
    ensures Canonical(a) == Canonical(b) <==> Meaning(a) == Meaning(b)
  {
    CanonicalKeepsMeaning(a);
    CanonicalKeepsMeaning(b);
    if Meaning(a) == Meaning(b) {
      CanonicalForgetsKeyOrder(a, b);
    }
  }

  lemma {:induction false} CanonicalFormIsValid(d: Doc)
    requires CanonicalForm(d)
    ensures Valid(d)
    decreases d
  {
    match d
    case Scalar(_) =>
    case List(items) =>
      forall i | 0 <= i < |items| ensures Valid(items[i]) {
        CanonicalFormIsValid(items[i]);
      }
    case Record(entries) =>
      forall i, j | 0 <= i < j < |entries| ensures entries[i].0 != entries[j].0 {
        assert Ordering.Before(Keys(entries)[i], Keys(entries)[j]);
        Ordering.BeforeIrreflexive(entries[i].0);
      }
      forall i | 0 <= i < |entries| ensures Valid(entries[i].1) {
        CanonicalFormIsValid(entries[i].1);
      }
  }

  lemma CanonicalIsIdempotent(d: Doc)
    requires Valid(d)
    ensures Canonical(Canonical(d)) == Canonical(d)
  {
    CanonicalHasSortedKeys(d);
    CanonicalFormIsValid(Canonical(d));
    CanonicalKeepsMeaning(d);
    CanonicalForgetsKeyOrder(Canonical(d), d);
  }

  // ---- The loop that fills the sorted record. ----

  method SortKeysDeep(d: Doc) returns (r: Doc)
    ensures r == Canonical(d)
    decreases d, 1
  {
    match d
    case Scalar(_) => r := d;
    case List(items) =>
      var sorted: seq<Doc> := [];
      for i := 0 to |items|
        invariant |sorted| == i
        invariant forall j :: 0 <= j < i ==> sorted[j] == Canonical(items[j])
      {
        var item := SortKeysDeep(items[i]);
        sorted := sorted + [item];
      }
      r := List(sorted);
      assert sorted == Canonical(d).items;
    case Record(entries) =>
      var keys := Ordering.Sort(Keys(entries));
      Ordering.SortKeepsMembers(Keys(entries));
      var sorted: seq<(string, Doc)> := [];
      for i := 0 to |keys|
        invariant sorted == CanonicalEntries(d, keys[..i])
      {
        var value := SortKeysDeep(Lookup(entries, keys[i]));
        assert keys[..i + 1][..i] == keys[..i];
        sorted := sorted + [(keys[i], value)];
      }
      assert keys[..|keys|] == keys;
      r := Record(sorted);
  }
}
