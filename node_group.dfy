/** One node group's configuration (`NodeGroupConfig`) and how it is read from
    the mapping given for the group. */
module NodeGroup {
  import opened Wrappers
  import opened YamlValue
  import opened GroupNames
  import opened Regions

  /** The Tendermint version a group runs when it names none. */
  const DefaultTendermint: string := "v0.31.7"

  /** A loaded node group. `validators`, `inGenesis`, `start` and
      `configTemplate` hold whatever value the document gives, unchecked, as
      the loader stores them. */
  datatype GroupConfig = GroupConfig(
    name: string,
    tendermint: string,
    validators: Value,
    inGenesis: Value,
    start: Value,
    configTemplate: Value,
    useSeeds: seq<Ref>,
    persistentPeers: seq<Ref>,
    regions: seq<RegionCount>)

  /** One item of a reference list: it must be a string in reference form. */
  function RefOf(x: Value): Result<Ref> {
    if x.Str? then AsGroupOrNodeId(x.s) else Err
  }

  /** Every item read as a reference, in order, or failure if one is not. */
  function RefsFromValues(items: seq<Value>): Result<seq<Ref>> {
    if forall k :: 0 <= k < |items| ==> RefOf(items[k]).Ok?
    then Ok(seq(|items|, k requires 0 <= k < |items| && RefOf(items[k]).Ok? => RefOf(items[k]).value))
    else Err
  }

  /** The loop of `NodeGroupConfig.load` that appends one parsed reference per item. */
  method LoadRefs(items: seq<Value>) returns (r: Result<seq<Ref>>)
    ensures r == RefsFromValues(items)
  {
    var refs: seq<Ref> := [];
    for i := 0 to |items|
      invariant |refs| == i
      invariant forall k :: 0 <= k < i ==> RefOf(items[k]).Ok? && refs[k] == RefOf(items[k]).value
    {
      var ref :- RefOf(items[i]);
      refs := refs + [ref];
    }
    assert refs == RefsFromValues(items).value;
    return Ok(refs);
  }

  /** A `use_seeds` or `persistent_peers` value: a string or a list of strings. */
  function RefList(v: Value): Result<seq<Ref>> {
    var items :- AsStringList(v);
    RefsFromValues(items)
  }

  /** A lone reference string means the same as the one-item list holding it. */
  lemma SingleRefIsOneItemList(s: string)
    ensures RefList(Str(s)) == RefList(List([Str(s)]))
    ensures RefList(Str(s)).Ok? <==> AsGroupOrNodeId(s).Ok?
    ensures RefList(Str(s)).Ok? ==> RefList(Str(s)).value == [AsGroupOrNodeId(s).value]
  {
    assert RefList(Str(s)).Ok? ==> RefList(Str(s)).value == [AsGroupOrNodeId(s).value] by {
      if RefList(Str(s)).Ok? {
        assert RefOf([Str(s)][0]).Ok?;
      }
    }
  }

  /** A binary named by a version tag is fetched later; anything else is a
      local path that must name an existing file. */
  predicate BinaryAvailable(tendermint: string, localFiles: set<string>) {
    (|tendermint| > 0 && tendermint[0] == 'v') || tendermint in localFiles
  }

  function TendermintOf(entries: seq<(string, Value)>, localFiles: set<string>): Result<string> {
    match Get(entries, "tendermint")
    case None => Ok(DefaultTendermint)
    case Some(t) =>
      if t.Str? && BinaryAvailable(t.s, localFiles) then Ok(t.s) else Err
  }

  function OptionalRefList(entries: seq<(string, Value)>, key: string): Result<seq<Ref>> {
    match Get(entries, key)
    case None => Ok([])
    case Some(x) => RefList(x)
  }

  function RequiredRegions(entries: seq<(string, Value)>): Result<seq<RegionCount>> {
    match Get(entries, "regions")
    case None => Err
    case Some(x) => RegionCounts(x)
  }

  /** What `NodeGroupConfig.load` accepts and builds: a mapping whose optional
      keys fall back to the class defaults and whose `regions` key is required. */
  function GroupFromValue(name: string, v: Value, localFiles: set<string>): Result<GroupConfig> {
    if !v.Map? then Err
    else
      var es := v.entries;
      var tendermint :- TendermintOf(es, localFiles);
      var useSeeds :- OptionalRefList(es, "use_seeds");
      var persistentPeers :- OptionalRefList(es, "persistent_peers");
      var regions :- RequiredRegions(es);
      Ok(GroupConfig(
        name,
        tendermint,
        Get(es, "validators").GetOr(Bool(true)),
        Get(es, "in_genesis").GetOr(Bool(true)),
        Get(es, "start").GetOr(Bool(true)),
        Get(es, "config_template").GetOr(Str("")),
        useSeeds,
        persistentPeers,
        regions))
  }

  /** `NodeGroupConfig.load`: fills the fields of a fresh group one by one. */
  method LoadNodeGroup(name: string, v: Value, localFiles: set<string>) returns (r: Result<GroupConfig>)
    ensures r == GroupFromValue(name, v, localFiles)
  {
    if !v.Map? {
      return Err;
    }
    var es := v.entries;
    var tendermint :- LoadTendermint(es, localFiles);
    var validators := Get(es, "validators").GetOr(Bool(true));
    var inGenesis := Get(es, "in_genesis").GetOr(Bool(true));
    var start := Get(es, "start").GetOr(Bool(true));
    var configTemplate := Get(es, "config_template").GetOr(Str(""));
    var useSeeds :- LoadOptionalRefs(es, "use_seeds");
    var persistentPeers :- LoadOptionalRefs(es, "persistent_peers");
    var rv := Get(es, "regions");
    if rv.None? {
      return Err;
    }
    var regions :- AsRegionsCountMap(rv.value);
    return Ok(GroupConfig(name, tendermint, validators, inGenesis, start, configTemplate,
                          useSeeds, persistentPeers, regions));
  }

  /** The `tendermint` step: the default version, or the given binary when it
      is a version tag or an existing local file. */
  method LoadTendermint(es: seq<(string, Value)>, localFiles: set<string>) returns (r: Result<string>)
    ensures r == TendermintOf(es, localFiles)
  {
    var tendermint := DefaultTendermint;
    var t := Get(es, "tendermint");
    if t.Some? {
      if !t.value.Str? {
        return Err;
      }
      tendermint := t.value.s;
      if !(|tendermint| > 0 && tendermint[0] == 'v') && tendermint !in localFiles {
        return Err;
      }
    }
    return Ok(tendermint);
  }

  /** The `use_seeds` and `persistent_peers` steps: no references when the key
      is absent, otherwise one parsed reference per string. */
  method LoadOptionalRefs(es: seq<(string, Value)>, key: string) returns (r: Result<seq<Ref>>)
    ensures r == OptionalRefList(es, key)
  {
    var x := Get(es, key);
    if x.None? {
      return Ok([]);
    }
    var items :- AsStringList(x.value);
    r := LoadRefs(items);
  }

  /** When a group loads, and what each field then holds: the given value, or
      the default when the key is absent. */
  lemma GroupFromValueExactly(name: string, v: Value, localFiles: set<string>)
    ensures GroupFromValue(name, v, localFiles).Ok? <==>
      && v.Map?
      && (Get(v.entries, "tendermint").Some? ==>
            Get(v.entries, "tendermint").value.Str? &&
            BinaryAvailable(Get(v.entries, "tendermint").value.s, localFiles))
      && (Get(v.entries, "use_seeds").Some? ==> RefList(Get(v.entries, "use_seeds").value).Ok?)
      && (Get(v.entries, "persistent_peers").Some? ==> RefList(Get(v.entries, "persistent_peers").value).Ok?)
      && Get(v.entries, "regions").Some?
      && RegionCounts(Get(v.entries, "regions").value).Ok?
    ensures GroupFromValue(name, v, localFiles).Ok? ==>
      var g := GroupFromValue(name, v, localFiles).value;
      var es := v.entries;
      && g.name == name
      && g.tendermint == (if Get(es, "tendermint").Some? then Get(es, "tendermint").value.s else DefaultTendermint)
      && g.validators == (if Get(es, "validators").Some? then Get(es, "validators").value else Bool(true))
      && g.inGenesis == (if Get(es, "in_genesis").Some? then Get(es, "in_genesis").value else Bool(true))
      && g.start == (if Get(es, "start").Some? then Get(es, "start").value else Bool(true))
      && g.configTemplate == (if Get(es, "config_template").Some? then Get(es, "config_template").value else Str(""))
      && g.useSeeds == (if Get(es, "use_seeds").Some? then RefList(Get(es, "use_seeds").value).value else [])
      && g.persistentPeers == (if Get(es, "persistent_peers").Some? then RefList(Get(es, "persistent_peers").value).value else [])
      && g.regions == RegionCounts(Get(es, "regions").value).value
  {
  }
}
