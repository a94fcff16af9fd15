/** The already-parsed YAML document the loader works on. */
module YamlValue {
  import opened Wrappers

  /** A YAML value as the YAML library hands it over: a mapping keeps its
      keys in insertion order, as a Python dict does. */
  datatype Value =
    | Null
    | Bool(b: bool)
    | Int(i: int)
    | Str(s: string)
    | List(items: seq<Value>)
    | Map(entries: seq<(string, Value)>)

  /** `d.get(key)`: the value bound to `key`, if any. A dict has distinct keys,
      so the first binding is the only one. */
  function Get(entries: seq<(string, Value)>, key: string): (r: Option<Value>)
    ensures r.Some? <==> exists k :: 0 <= k < |entries| && entries[k].0 == key
    ensures r.Some? ==> exists k :: 0 <= k < |entries| && entries[k] == (key, r.value)
  {
    if entries == [] then None
    else if entries[0].0 == key then Some(entries[0].1)
    else Get(entries[1..], key)
  }

  /** A mapping holding exactly one key/value pair, the shape of every item of
      the node-group list and of every region list. */
  predicate SingleEntryMap(v: Value) {
    v.Map? && |v.entries| == 1
  }

  /** The mapping with the bindings of the keys in `drop` taken out. */
  function Without(entries: seq<(string, Value)>, drop: set<string>): (r: seq<(string, Value)>)
    ensures forall k :: 0 <= k < |r| ==> r[k].0 !in drop
  {
    if entries == [] then []
    else if entries[0].0 in drop then Without(entries[1..], drop)
    else [entries[0]] + Without(entries[1..], drop)
  }

  /** Taking out other keys does not change what a key is bound to. */
  lemma {:induction false} GetWithout(entries: seq<(string, Value)>, drop: set<string>, key: string)
    requires key !in drop
    ensures Get(Without(entries, drop), key) == Get(entries, key)
  {
    if entries != [] {
      GetWithout(entries[1..], drop, key);
    }
  }
}
