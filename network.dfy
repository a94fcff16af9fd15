/** The `tendermint_network` section (`NetworkConfig`): the ordered list of
    node groups, the lookup by name, and the check that every `use_seeds` and
    `persistent_peers` reference resolves. */
module Network {
  import opened Wrappers
  import opened YamlValue
  import opened GroupNames
  import opened Regions
  import opened NodeGroup

  /** The node groups in declared order, each under its name. */
  datatype NetworkConfig = NetworkConfig(nodeGroupConfigs: seq<(string, GroupConfig)>)

  /** The dict built by `get_node_group_configs_by_name`: each name bound to
      the configuration declared last under it. */
  function ByName(groups: seq<(string, GroupConfig)>): map<string, GroupConfig> {
    if groups == [] then map[]
    else ByName(groups[..|groups| - 1])[groups[|groups| - 1].0 := groups[|groups| - 1].1]
  }

  /** `get_node_group_configs_by_name`: one dict assignment per group, in order. */
  method GetNodeGroupConfigsByName(groups: seq<(string, GroupConfig)>) returns (lookup: map<string, GroupConfig>)
    ensures lookup == ByName(groups)
  {
    lookup := map[];
    for i := 0 to |groups|
      invariant lookup == ByName(groups[..i])
    {
      assert groups[..i + 1][..i] == groups[..i];
      lookup := lookup[groups[i].0 := groups[i].1];
    }
    assert groups[..|groups|] == groups;
  }

  /** The lookup holds exactly the declared names. */
  lemma {:induction false} ByNameKeys(groups: seq<(string, GroupConfig)>)
    ensures ByName(groups).Keys == set k | 0 <= k < |groups| :: groups[k].0
  {
    if groups != [] {
      var init := groups[..|groups| - 1];
      ByNameKeys(init);
      assert (set k | 0 <= k < |groups| :: groups[k].0) ==
             (set k | 0 <= k < |init| :: init[k].0) + {groups[|groups| - 1].0} by {
        forall k | 0 <= k < |init| ensures init[k] == groups[k] { }
      }
    }
  }

  /** A name declared for the last time at position `k` is bound to the group
      declared there: later declarations overwrite earlier ones. */
  lemma {:induction false} ByNameLast(groups: seq<(string, GroupConfig)>, k: nat)
    requires k < |groups|
    requires forall j :: k < j < |groups| ==> groups[j].0 != groups[k].0
    ensures groups[k].0 in ByName(groups) && ByName(groups)[groups[k].0] == groups[k].1
  {
    if k < |groups| - 1 {
      var init := groups[..|groups| - 1];
      assert init[k] == groups[k];
      ByNameLast(init, k);
    }
  }

  /** Every binding of the lookup comes from some declared group. */
  lemma {:induction false} ByNameBindingDeclared(groups: seq<(string, GroupConfig)>, name: string)
    requires name in ByName(groups)
    ensures exists k :: 0 <= k < |groups| && groups[k] == (name, ByName(groups)[name])
  {
    var last := groups[|groups| - 1];
    var init := groups[..|groups| - 1];
    if last.0 != name {
      ByNameBindingDeclared(init, name);
      var k :| 0 <= k < |init| && init[k] == (name, ByName(init)[name]);
      assert groups[k] == init[k];
    } else {
      assert groups[|groups| - 1] == (name, ByName(groups)[name]);
    }
  }

  /** `validate_group_or_node_refs`: passes exactly when every reference names a
      group of the lookup and, when it names a node, the index is within
      `[0, get_node_count())` of that group. It only reads its arguments. */
  function RefsValid(lookup: map<string, GroupConfig>, refs: seq<Ref>): (ok: bool)
    ensures ok <==> forall i :: 0 <= i < |refs| ==>
      && refs[i].group in lookup
      && (refs[i].idx.Some? ==> 0 <= refs[i].idx.value < NodeCount(lookup[refs[i].group].regions))
  {
    if refs == [] then true
    else
      var ref := refs[0];
      && ref.group in lookup
      && (ref.idx.None? || !(ref.idx.value < 0 || ref.idx.value >= NodeCount(lookup[ref.group].regions)))
      && RefsValid(lookup, refs[1..])
  }

  /** `validate_consistency` as written: it walks the by-name dict, so only the
      group declared last under a name has its references checked. */
  predicate ConsistentAsWritten(groups: seq<(string, GroupConfig)>) {
    var lookup := ByName(groups);
    forall name :: name in lookup ==>
      RefsValid(lookup, lookup[name].useSeeds) && RefsValid(lookup, lookup[name].persistentPeers)
  }

  /** The group declared at `k` is the last one declared under its name. */
  predicate LastDeclared(groups: seq<(string, GroupConfig)>, k: int) {
    0 <= k < |groups| && forall j :: k < j < |groups| ==> groups[j].0 != groups[k].0
  }

  /** Every name of the lookup has a last declaration. */
  lemma {:induction false} LastDeclarationExists(groups: seq<(string, GroupConfig)>, name: string)
    requires name in ByName(groups)
    ensures exists k :: LastDeclared(groups, k) && groups[k].0 == name
  {
    var n := |groups| - 1;
    if groups[n].0 == name {
      assert LastDeclared(groups, n);
    } else {
      var init := groups[..n];
      LastDeclarationExists(init, name);
      var k :| LastDeclared(init, k) && init[k].0 == name;
      assert groups[k] == init[k];
      assert LastDeclared(groups, k);
    }
  }

  /** What the written check amounts to: the references of exactly those
      groups that are the last declared under their name are checked. */
  lemma ConsistentAsWrittenExactly(groups: seq<(string, GroupConfig)>)
    ensures ConsistentAsWritten(groups) <==>
      forall k :: LastDeclared(groups, k) ==>
        RefsValid(ByName(groups), groups[k].1.useSeeds) && RefsValid(ByName(groups), groups[k].1.persistentPeers)
  {
    var lookup := ByName(groups);
    forall k | LastDeclared(groups, k)
      ensures groups[k].0 in lookup && lookup[groups[k].0] == groups[k].1
    {
      ByNameLast(groups, k);
    }
    forall name | name in lookup
      ensures exists k :: LastDeclared(groups, k) && groups[k].0 == name && lookup[name] == groups[k].1
    {
      LastDeclarationExists(groups, name);
      var k :| LastDeclared(groups, k) && groups[k].0 == name;
      ByNameLast(groups, k);
    }
  }

  /** `validate_consistency` as intended: the references of every declared
      group are checked against the complete lookup. */
  predicate Consistent(groups: seq<(string, GroupConfig)>) {
    var lookup := ByName(groups);
    forall k :: 0 <= k < |groups| ==>
      RefsValid(lookup, groups[k].1.useSeeds) && RefsValid(lookup, groups[k].1.persistentPeers)
  }

  /** The intended check is at least as strict as the written one. */
  lemma ConsistentImpliesAsWritten(groups: seq<(string, GroupConfig)>)
    requires Consistent(groups)
    ensures ConsistentAsWritten(groups)
  {
    forall name | name in ByName(groups)
      ensures RefsValid(ByName(groups), ByName(groups)[name].useSeeds)
      ensures RefsValid(ByName(groups), ByName(groups)[name].persistentPeers)
    {
      ByNameBindingDeclared(groups, name);
    }
  }

  /** With distinct group names the two checks agree, so the correction changes
      nothing for a network whose names are unique. */
  lemma AsWrittenIsConsistentWhenNamesDistinct(groups: seq<(string, GroupConfig)>)
    requires forall j, k :: 0 <= j < k < |groups| ==> groups[j].0 != groups[k].0
    requires ConsistentAsWritten(groups)
    ensures Consistent(groups)
  {
    forall k | 0 <= k < |groups|
      ensures RefsValid(ByName(groups), groups[k].1.useSeeds)
      ensures RefsValid(ByName(groups), groups[k].1.persistentPeers)
    {
      ByNameLast(groups, k);
    }
  }

  /** One item of the `tendermint_network` list: a one-pair mapping from a
      valid group name to the group's configuration. */
  function GroupEntry(x: Value, localFiles: set<string>): Result<(string, GroupConfig)> {
    if !SingleEntryMap(x) then Err
    else
      var name :- ValidateGroupName(x.entries[0].0);
      var cfg :- GroupFromValue(name, x.entries[0].1, localFiles);
      Ok((name, cfg))
  }

  /** What `NetworkConfig.load` accepts and builds: a non-empty list whose items
      all load as groups (first pass) and whose references all resolve against
      the complete list of groups (second pass). */
  function NetworkFromValue(v: Value, localFiles: set<string>): Result<NetworkConfig> {
    if !v.List? || |v.items| == 0 then Err
    else if forall k :: 0 <= k < |v.items| ==> GroupEntry(v.items[k], localFiles).Ok? then
      var groups := LoadedGroups(v.items, localFiles);
      if Consistent(groups) then Ok(NetworkConfig(groups)) else Err
    else Err
  }

  /** The first pass: every item loaded as a group, in declared order. */
  function LoadedGroups(items: seq<Value>, localFiles: set<string>): seq<(string, GroupConfig)>
    requires forall k :: 0 <= k < |items| ==> GroupEntry(items[k], localFiles).Ok?
  {
    seq(|items|, k requires 0 <= k < |items| => GroupEntry(items[k], localFiles).value)
  }

  /** `NetworkConfig.load` exactly as written: the same first pass, but the
      second pass is the written `validate_consistency`. */
  function NetworkFromValueAsWritten(v: Value, localFiles: set<string>): Result<NetworkConfig> {
    if !v.List? || |v.items| == 0 then Err
    else if forall k :: 0 <= k < |v.items| ==> GroupEntry(v.items[k], localFiles).Ok? then
      var groups := LoadedGroups(v.items, localFiles);
      if ConsistentAsWritten(groups) then Ok(NetworkConfig(groups)) else Err
    else Err
  }

  /** Every network the corrected loader accepts, the written one accepts as
      well, with the same groups. */
  lemma AsWrittenAcceptsCorrected(v: Value, localFiles: set<string>)
    requires NetworkFromValue(v, localFiles).Ok?
    ensures NetworkFromValueAsWritten(v, localFiles) == NetworkFromValue(v, localFiles)
  {
    ConsistentImpliesAsWritten(LoadedGroups(v.items, localFiles));
  }

  /** When no two items declare the same group name, the written loader and
      the corrected one agree. */
  lemma AsWrittenAgreesWhenNamesDistinct(v: Value, localFiles: set<string>)
    requires v.List?
    requires forall j, k :: 0 <= j < k < |v.items| && SingleEntryMap(v.items[j]) && SingleEntryMap(v.items[k]) ==>
      v.items[j].entries[0].0 != v.items[k].entries[0].0
    ensures NetworkFromValueAsWritten(v, localFiles) == NetworkFromValue(v, localFiles)
  {
    if |v.items| > 0 && forall k :: 0 <= k < |v.items| ==> GroupEntry(v.items[k], localFiles).Ok? {
      var groups := LoadedGroups(v.items, localFiles);
      forall k | 0 <= k < |groups| ensures SingleEntryMap(v.items[k]) && groups[k].0 == v.items[k].entries[0].0 {
        assert GroupEntry(v.items[k], localFiles).Ok?;
      }
      if ConsistentAsWritten(groups) {
        AsWrittenIsConsistentWhenNamesDistinct(groups);
      }
      if Consistent(groups) {
        ConsistentImpliesAsWritten(groups);
      }
    }
  }

  /** `NetworkConfig.load`: appends the groups one by one, then validates the
      references of every group against the finished lookup. */
  method LoadNetwork(v: Value, localFiles: set<string>) returns (r: Result<NetworkConfig>)
    ensures r == NetworkFromValue(v, localFiles)
  {
    if !v.List? {
      return Err;
    }
    if |v.items| == 0 {
      return Err;
    }
    var items := v.items;
    var groups: seq<(string, GroupConfig)> := [];
    for i := 0 to |items|
      invariant |groups| == i
      invariant forall k :: 0 <= k < i ==> GroupEntry(items[k], localFiles) == Ok(groups[k])
    {
      var entry := LoadGroupEntry(items[i], localFiles);
      if entry.Err? {
        BadGroupEntry(v, i, localFiles);
        return Err;
      }
      EntryAppended(items, groups, entry.value, localFiles);
      groups := groups + [entry.value];
    }
    FirstPassLoaded(items, groups, localFiles);
    var consistent := ValidateConsistency(groups);
    if !consistent {
      return Err;
    }
    return Ok(NetworkConfig(groups));
  }

  lemma BadGroupEntry(v: Value, i: int, localFiles: set<string>)
    requires v.List? && 0 <= i < |v.items| && GroupEntry(v.items[i], localFiles).Err?
    ensures NetworkFromValue(v, localFiles) == Err
  {
  }

  lemma EntryAppended(items: seq<Value>, groups: seq<(string, GroupConfig)>, g: (string, GroupConfig), localFiles: set<string>)
    requires |groups| < |items|
    requires forall k :: 0 <= k < |groups| ==> GroupEntry(items[k], localFiles) == Ok(groups[k])
    requires GroupEntry(items[|groups|], localFiles) == Ok(g)
    ensures forall k :: 0 <= k <= |groups| ==> GroupEntry(items[k], localFiles) == Ok((groups + [g])[k])
  {
  }

  lemma FirstPassLoaded(items: seq<Value>, groups: seq<(string, GroupConfig)>, localFiles: set<string>)
    requires |groups| == |items|
    requires forall k :: 0 <= k < |items| ==> GroupEntry(items[k], localFiles) == Ok(groups[k])
    ensures forall k :: 0 <= k < |items| ==> GroupEntry(items[k], localFiles).Ok?
    ensures LoadedGroups(items, localFiles) == groups
  {
  }

  /** One step of the first pass: the item must be a one-pair mapping from a
      valid group name to a group configuration. */
  method LoadGroupEntry(item: Value, localFiles: set<string>) returns (r: Result<(string, GroupConfig)>)
    ensures r == GroupEntry(item, localFiles)
  {
    if !item.Map? || |item.entries| != 1 {
      return Err;
    }
    var groupName :- ValidateGroupName(item.entries[0].0);
    var cfg :- LoadNodeGroup(groupName, item.entries[0].1, localFiles);
    return Ok((groupName, cfg));
  }

  /** `validate_consistency`, corrected to walk the declared groups: checks the
      references of each one against the lookup built from all of them. */
  method ValidateConsistency(groups: seq<(string, GroupConfig)>) returns (ok: bool)
    ensures ok == Consistent(groups)
  {
    var lookup := GetNodeGroupConfigsByName(groups);
    for i := 0 to |groups|
      invariant forall k :: 0 <= k < i ==>
        RefsValid(lookup, groups[k].1.useSeeds) && RefsValid(lookup, groups[k].1.persistentPeers)
    {
      if !RefsValid(lookup, groups[i].1.useSeeds) || !RefsValid(lookup, groups[i].1.persistentPeers) {
        return false;
      }
    }
    return true;
  }

  /** A loaded network keeps the declared order and names, every name passed
      the charset check, and every reference of every group names some declared
      group, wherever in the list that group is declared, with any node index in range. */
  lemma NetworkFromValueLoaded(v: Value, localFiles: set<string>)
    requires NetworkFromValue(v, localFiles).Ok?
    ensures var groups := NetworkFromValue(v, localFiles).value.nodeGroupConfigs;
      && |groups| == |v.items| > 0
      && (forall k :: 0 <= k < |groups| ==>
            && SingleEntryMap(v.items[k])
            && groups[k].0 == v.items[k].entries[0].0
            && ValidGroupName(groups[k].0)
            && Ok(groups[k].1) == GroupFromValue(groups[k].0, v.items[k].entries[0].1, localFiles))
      && (forall k, i :: 0 <= k < |groups| && 0 <= i < |groups[k].1.useSeeds| ==>
            RefResolves(groups, groups[k].1.useSeeds[i]))
      && (forall k, i :: 0 <= k < |groups| && 0 <= i < |groups[k].1.persistentPeers| ==>
            RefResolves(groups, groups[k].1.persistentPeers[i]))
  {
    var groups := NetworkFromValue(v, localFiles).value.nodeGroupConfigs;
    ByNameKeys(groups);
    forall k | 0 <= k < |groups| ensures SingleEntryMap(v.items[k]) && groups[k].0 == v.items[k].entries[0].0 {
      assert GroupEntry(v.items[k], localFiles).Ok?;
    }
  }

  /** Conversely, a non-empty list whose items all load as groups, and whose
      groups' references all resolve, wherever the named group is declared,
      loads as exactly those groups. */
  lemma NetworkFromValueAccepts(v: Value, localFiles: set<string>)
    requires v.List? && |v.items| > 0
    requires forall k :: 0 <= k < |v.items| ==> GroupEntry(v.items[k], localFiles).Ok?
    requires forall k, i :: 0 <= k < |v.items| && 0 <= i < |GroupEntry(v.items[k], localFiles).value.1.useSeeds| ==>
      RefResolves(LoadedGroups(v.items, localFiles), GroupEntry(v.items[k], localFiles).value.1.useSeeds[i])
    requires forall k, i :: 0 <= k < |v.items| && 0 <= i < |GroupEntry(v.items[k], localFiles).value.1.persistentPeers| ==>
      RefResolves(LoadedGroups(v.items, localFiles), GroupEntry(v.items[k], localFiles).value.1.persistentPeers[i])
    ensures NetworkFromValue(v, localFiles) == Ok(NetworkConfig(LoadedGroups(v.items, localFiles)))
  {
    var groups := LoadedGroups(v.items, localFiles);
    forall k | 0 <= k < |groups|
      ensures RefsValid(ByName(groups), groups[k].1.useSeeds) && RefsValid(ByName(groups), groups[k].1.persistentPeers)
    {
      assert groups[k] == GroupEntry(v.items[k], localFiles).value;
    }
  }

  /** A reference names a declared group (at any position `j`) and, when it
      names a node, an index below the node count of the group bound to that name. */
  predicate RefResolves(groups: seq<(string, GroupConfig)>, ref: Ref) {
    && (exists j :: 0 <= j < |groups| && groups[j].0 == ref.group)
    && ref.group in ByName(groups)
    && (ref.idx.Some? ==> 0 <= ref.idx.value < NodeCount(ByName(groups)[ref.group].regions))
  }

  /** The loader fails on a value that is not a list, on an empty list, and on
      any item that is not a one-pair mapping. */
  lemma NetworkFromValueRejects(v: Value, localFiles: set<string>)
    requires !v.List? || |v.items| == 0 || exists k :: 0 <= k < |v.items| && !SingleEntryMap(v.items[k])
    ensures NetworkFromValue(v, localFiles).Err?
  {
    if v.List? && |v.items| > 0 {
      var k :| 0 <= k < |v.items| && !SingleEntryMap(v.items[k]);
      assert GroupEntry(v.items[k], localFiles).Err?;
    }
  }
}

module NetworkExamples {
  import opened Wrappers
  import opened YamlValue
  import opened GroupNames
  import opened Regions
  import opened NodeGroup
  import opened Network

  function Regions1(n: int): Value {
    List([Map([("us-east-1", Int(n))])])
  }

  lemma OneRegion(region: string, n: int)
    ensures RegionCounts(List([Map([(region, Int(n))])])) == Ok([RegionCount(region, n)])
  {
    var items := [Map([(region, Int(n))])];
    assert RegionItemOk(items[0]);
    assert RegionEntry(items[0]) == RegionCount(region, n);
    assert DistinctRegionKeys(items);
    var r := RegionCounts(List(items));
    assert r.Ok? && |r.value| == 1 && r.value[0] == RegionCount(region, n);
    assert r.value == [RegionCount(region, n)];
  }

  lemma GroupRef(name: string)
    requires ValidGroupName(name)
    ensures RefList(Str(name)) == Ok([Ref(name, None)])
  {
    RefRoundTrip(Ref(name, None));
    SingleRefIsOneItemList(name);
  }

  /** Region names are not checked against the regions the tooling supports,
      and a count of zero or below is not refused. */
  lemma RegionsUnchecked()
    ensures "mars-1" !in SupportedRegions
    ensures RegionCounts(List([Map([("mars-1", Int(2))])])) == Ok([RegionCount("mars-1", 2)])
    ensures RegionCounts(Regions1(-3)) == Ok([RegionCount("us-east-1", -3)])
  {
    OneRegion("mars-1", 2);
    OneRegion("us-east-1", -3);
  }

  /** The group `{name: {use_seeds: seeds, regions: [{us-east-1: n}]}}`, or
      without `use_seeds` when `seeds` is `None`. */
  function Group(name: string, seeds: Option<string>, n: int): Value {
    var regions := ("regions", Regions1(n));
    Map([(name, Map(if seeds.Some? then [("use_seeds", Str(seeds.value)), regions] else [regions]))])
  }

  lemma GroupLoads(name: string, seeds: Option<string>, n: int)
    requires ValidGroupName(name)
    requires seeds.Some? ==> ValidGroupName(seeds.value)
    ensures GroupEntry(Group(name, seeds, n), {}) ==
      Ok((name, GroupConfig(name, DefaultTendermint, Bool(true), Bool(true), Bool(true), Str(""),
                            if seeds.Some? then [Ref(seeds.value, None)] else [], [],
                            [RegionCount("us-east-1", n)])))
  {
    OneRegion("us-east-1", n);
    var es := Group(name, seeds, n).entries[0].1.entries;
    assert Get(es, "tendermint") == None;
    assert Get(es, "validators") == None;
    assert Get(es, "in_genesis") == None;
    assert Get(es, "start") == None;
    assert Get(es, "config_template") == None;
    assert Get(es, "persistent_peers") == None;
    assert Get(es, "regions") == Some(Regions1(n));
    if seeds.Some? {
      GroupRef(seeds.value);
      assert Get(es, "use_seeds") == Some(Str(seeds.value));
    } else {
      assert Get(es, "use_seeds") == None;
    }
  }

  /** `validators` (two nodes, seeding from `seeds`) declared before `seeds` (one node). */
  function ForwardNetwork(): Value {
    List([Group("validators", Some("seeds"), 2), Group("seeds", None, 1)])
  }

  function ForwardGroups(): seq<(string, GroupConfig)> {
    [("validators", GroupConfig("validators", DefaultTendermint, Bool(true), Bool(true), Bool(true), Str(""),
                                [Ref("seeds", None)], [], [RegionCount("us-east-1", 2)])),
     ("seeds", GroupConfig("seeds", DefaultTendermint, Bool(true), Bool(true), Bool(true), Str(""),
                           [], [], [RegionCount("us-east-1", 1)]))]
  }

  lemma ForwardItemsLoad()
    ensures GroupEntry(ForwardNetwork().items[0], {}) == Ok(ForwardGroups()[0])
    ensures GroupEntry(ForwardNetwork().items[1], {}) == Ok(ForwardGroups()[1])
  {
    assert ValidGroupName("validators");
    assert ValidGroupName("seeds");
    GroupLoads("validators", Some("seeds"), 2);
    GroupLoads("seeds", None, 1);
  }

  lemma ForwardGroupsLoad()
    ensures forall k :: 0 <= k < |ForwardNetwork().items| ==> GroupEntry(ForwardNetwork().items[k], {}).Ok?
    ensures LoadedGroups(ForwardNetwork().items, {}) == ForwardGroups()
  {
    ForwardItemsLoad();
    var items := ForwardNetwork().items;
    assert |items| == 2;
  }

  lemma ForwardGroupsConsistent()
    ensures Consistent(ForwardGroups())
  {
    var groups := ForwardGroups();
    ByNameKeys(groups);
    var lookup := ByName(groups);
    assert "seeds" in lookup by {
      assert groups[1].0 == "seeds";
    }
    assert RefsValid(lookup, groups[0].1.useSeeds);
  }

  /** A group that refers to a group declared after it is accepted: references
      are checked only once every group is loaded. */
  lemma ForwardReferenceAccepted()
    ensures NetworkFromValue(ForwardNetwork(), {}) == Ok(NetworkConfig(ForwardGroups()))
    ensures ForwardGroups()[0].1.useSeeds == [Ref("seeds", None)]
  {
    ForwardGroupsLoad();
    ForwardGroupsConsistent();
  }

  /** Two groups named `a`; the first seeds from a group `missing` that is not
      declared anywhere. */
  function ShadowNetwork(): Value {
    List([Group("a", Some("missing"), 1), Group("a", None, 1)])
  }

  function ShadowGroups(): seq<(string, GroupConfig)> {
    [("a", GroupConfig("a", DefaultTendermint, Bool(true), Bool(true), Bool(true), Str(""),
                       [Ref("missing", None)], [], [RegionCount("us-east-1", 1)])),
     ("a", GroupConfig("a", DefaultTendermint, Bool(true), Bool(true), Bool(true), Str(""),
                       [], [], [RegionCount("us-east-1", 1)]))]
  }

  lemma ShadowGroupsLoad()
    ensures forall k :: 0 <= k < |ShadowNetwork().items| ==> GroupEntry(ShadowNetwork().items[k], {}).Ok?
    ensures LoadedGroups(ShadowNetwork().items, {}) == ShadowGroups()
  {
    assert ValidGroupName("a");
    assert ValidGroupName("missing");
    GroupLoads("a", Some("missing"), 1);
    GroupLoads("a", None, 1);
    var items := ShadowNetwork().items;
    assert |items| == 2;
    assert GroupEntry(items[0], {}) == Ok(ShadowGroups()[0]);
    assert GroupEntry(items[1], {}) == Ok(ShadowGroups()[1]);
  }

  lemma ShadowGroupsChecks()
    ensures ConsistentAsWritten(ShadowGroups())
    ensures !Consistent(ShadowGroups())
    ensures "missing" !in ByName(ShadowGroups())
  {
    var groups := ShadowGroups();
    var lookup := ByName(groups);
    ByNameKeys(groups);
    assert lookup.Keys == {"a"};
    ByNameLast(groups, 1);
    assert lookup["a"] == groups[1].1;
    assert !RefsValid(lookup, groups[0].1.useSeeds);
  }

  /** The written check passes on the shadowed network, so the loader as
      written accepts a reference to a group that does not exist; the corrected
      check refuses it. */
  lemma ShadowedGroupReferencesUnchecked()
    ensures forall k :: 0 <= k < |ShadowNetwork().items| ==> GroupEntry(ShadowNetwork().items[k], {}).Ok?
    ensures ConsistentAsWritten(LoadedGroups(ShadowNetwork().items, {}))
    ensures NetworkFromValueAsWritten(ShadowNetwork(), {}) == Ok(NetworkConfig(ShadowGroups()))
    ensures NetworkFromValue(ShadowNetwork(), {}).Err?
  {
    ShadowGroupsLoad();
    ShadowGroupsChecks();
    var v := ShadowNetwork();
    assert v.List? && |v.items| == 2;
    var groups := LoadedGroups(v.items, {});
    assert groups == ShadowGroups();
    assert !Consistent(groups);
  }
}
