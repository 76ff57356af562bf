/** Configuration trees and their recursive merge (src/lib.rs, `Config::merge_configs`).

    Reading and saving YAML files is not modelled; only the merge that `save`
    applies to the parsed trees is. */
module Config {
  import opened Wrappers

  /** A JSON value as `serde_json::Value` holds it; numbers as integers. */
  datatype Value =
    | Null
    | Bool(b: bool)
    | Number(n: int)
    | String(s: string)
    | Array(items: seq<Value>)
    | Object(fields: map<string, Value>)

  /** The entry `entry(k).or_insert(Value::Null)` yields before it is merged into. */
  function Entry(fields: map<string, Value>, k: string): (v: Value)
    ensures k in fields ==> v == fields[k]
    ensures k !in fields ==> v == Null
  {
    if k in fields then fields[k] else Null
  }

  /** What `a` holds once `b` has been merged into it: two objects merge key by
      key, recursively, with missing entries of `a` starting as `Null`; in every
      other case `b` replaces `a`. */
  function Merged(a: Value, b: Value): (r: Value)
    decreases b
  {
    if a.Object? && b.Object? then
      Object(map k | k in a.fields.Keys + b.fields.Keys ::
        if k in b.fields then Merged(Entry(a.fields, k), b.fields[k]) else a.fields[k])
    else
      b
  }

  /** `merge_configs`: walks `b`'s entries, merging each into the matching entry
      of `a` (inserted as `Null` when missing) by a recursive call. */
  method MergeConfigs(a: Value, b: Value) returns (r: Value)
    ensures r == Merged(a, b)
    decreases b
  {
    if !(a.Object? && b.Object?) {
      r := b;
      return;
    }
    var fields := a.fields;
    var pending := b.fields.Keys;
    while pending != {}
      invariant pending <= b.fields.Keys
      invariant fields.Keys == a.fields.Keys + (b.fields.Keys - pending)
      invariant forall k :: k in fields ==>
        fields[k] == if k in b.fields && k !in pending then Merged(Entry(a.fields, k), b.fields[k]) else a.fields[k]
      decreases pending
    {
      var k :| k in pending;
      var merged := MergeConfigs(Entry(fields, k), b.fields[k]);
      fields := fields[k := merged];
      pending := pending - {k};
    }
    r := Object(fields);
    assert r == Merged(a, b) by {
      assert fields.Keys == Merged(a, b).fields.Keys;
    }
  }

  /** Merging two objects leaves an object with the keys of both. */
  lemma MergedKeys(a: Value, b: Value)
    requires a.Object? && b.Object?
    ensures Merged(a, b).Object?
    ensures Merged(a, b).fields.Keys == a.fields.Keys + b.fields.Keys
  {
  }

  /** Entries of `a` that `b` does not mention keep their values. */
  lemma UntouchedKept(a: Value, b: Value, k: string)
    requires a.Object? && b.Object? && k in a.fields && k !in b.fields
    ensures k in Merged(a, b).fields && Merged(a, b).fields[k] == a.fields[k]
  {
  }

  /** Unless both are objects, `b` wins outright. */
  lemma NonObjectReplaced(a: Value, b: Value)
    requires !a.Object? || !b.Object?
    ensures Merged(a, b) == b
  {
  }

  /** A key new to `a` ends holding `b`'s entry: the `Null` inserted for it is not
      an object, so the merge into it is a replacement... */
  lemma NewKeyCopied(a: Value, b: Value, k: string)
    requires a.Object? && b.Object? && k in b.fields && k !in a.fields
    ensures k in Merged(a, b).fields && Merged(a, b).fields[k] == b.fields[k]
  {
    NonObjectReplaced(Null, b.fields[k]);
  }

  /** ...and so it is for a key that `a` holds with a value that is not an object,
      or whose entry in `b` is not one. */
  lemma LeafEntryCopied(a: Value, b: Value, k: string)
    requires a.Object? && b.Object? && k in b.fields
    requires !Entry(a.fields, k).Object? || !b.fields[k].Object?
    ensures k in Merged(a, b).fields && Merged(a, b).fields[k] == b.fields[k]
  {
    NonObjectReplaced(Entry(a.fields, k), b.fields[k]);
  }

  /** The value found by following a path of keys through nested objects. */
  function Lookup(v: Value, path: seq<string>): (r: Option<Value>)
    ensures path == [] ==> r == Some(v)
    decreases |path|
  {
    if path == [] then Some(v)
    else if v.Object? && path[0] in v.fields then Lookup(v.fields[path[0]], path[1..])
    else None
  }

  /** `b` wins at the leaves: whatever is not an object at the end of a path
      through `b` is found at the end of the same path after the merge. */
  lemma {:induction false} LeavesWin(a: Value, b: Value, path: seq<string>)
    requires Lookup(b, path).Some? && !Lookup(b, path).value.Object?
    ensures Lookup(Merged(a, b), path) == Lookup(b, path)
    decreases |path|
  {
    if path == [] {
      NonObjectReplaced(a, b);
    } else if a.Object? {
      var k := path[0];
      assert Merged(a, b).fields[k] == Merged(Entry(a.fields, k), b.fields[k]);
      LeavesWin(Entry(a.fields, k), b.fields[k], path[1..]);
    } else {
      NonObjectReplaced(a, b);
    }
  }

  /** A tree merged into itself is unchanged. */
  lemma {:induction false} SelfMerge(v: Value)
    ensures Merged(v, v) == v
    decreases v
  {
    if v.Object? {
      forall k | k in v.fields ensures Merged(v, v).fields[k] == v.fields[k] {
        SelfMerge(v.fields[k]);
      }
      assert Merged(v, v).fields == v.fields;
    }
  }

  /** Merging the same tree twice is merging it once. */
  lemma {:induction false} MergeIdempotent(a: Value, b: Value)
    ensures Merged(Merged(a, b), b) == Merged(a, b)
    decreases b
  {
    if a.Object? && b.Object? {
      var m := Merged(a, b);
      forall k | k in m.fields ensures Merged(m, b).fields[k] == m.fields[k] {
        if k in b.fields {
          MergeIdempotent(Entry(a.fields, k), b.fields[k]);
        }
      }
      assert Merged(m, b).fields == m.fields;
    } else if b.Object? {
      SelfMerge(b);
    }
  }

  /** Merging an empty object into an object changes nothing. */
  lemma EmptyObjectIdentity(a: Value)
    requires a.Object?
    ensures Merged(a, Object(map[])) == a
  {
    assert Merged(a, Object(map[])).fields == a.fields;
  }
}
