/** The region list of a node group (`[{us-east-1: 4}, {eu-west-1: 2}]`) and
    the number of nodes it asks for. */
module Regions {
  import opened Wrappers
  import opened YamlValue
  import opened PyInt

  /** One entry of a group's region list: a region and its node count. */
  datatype RegionCount = RegionCount(region: string, count: int)

  /** An item that can become a region entry: a one-pair mapping whose value
      `int()` accepts. */
  predicate RegionItemOk(x: Value) {
    SingleEntryMap(x) && IntOf(x.entries[0].1).Some?
  }

  function RegionEntry(x: Value): RegionCount
    requires RegionItemOk(x)
  {
    RegionCount(x.entries[0].0, IntOf(x.entries[0].1).value)
  }

  /** No region is named by two one-pair items of the list. */
  predicate DistinctRegionKeys(items: seq<Value>) {
    forall j, k :: 0 <= j < k < |items| && SingleEntryMap(items[j]) && SingleEntryMap(items[k]) ==>
      items[j].entries[0].0 != items[k].entries[0].0
  }

  /** What `as_regions_count_map` accepts and returns: a list of one-pair
      mappings with distinct region names and integer counts becomes the list of
      their entries, in the same order; anything else fails. */
  function RegionCounts(v: Value): Result<seq<RegionCount>> {
    if v.List? && (forall k :: 0 <= k < |v.items| ==> RegionItemOk(v.items[k])) && DistinctRegionKeys(v.items)
    then Ok(seq(|v.items|, k requires 0 <= k < |v.items| && RegionItemOk(v.items[k]) => RegionEntry(v.items[k])))
    else Err
  }

  /** `as_regions_count_map`: one pass over the list, remembering the region
      names seen so far and collecting the entries. */
  method AsRegionsCountMap(v: Value) returns (r: Result<seq<RegionCount>>)
    ensures r == RegionCounts(v)
  {
    if !v.List? {
      return Err;
    }
    var items := v.items;
    var i := 0;
    var seen: set<string> := {};
    var counts: seq<RegionCount> := [];
    while i < |items|
      invariant 0 <= i <= |items|
      invariant forall k :: 0 <= k < i ==> RegionItemOk(items[k])
      invariant forall j, k :: 0 <= j < k < i ==> items[j].entries[0].0 != items[k].entries[0].0
      invariant seen == set k | 0 <= k < i :: items[k].entries[0].0
      invariant |counts| == i
      invariant forall k :: 0 <= k < i ==> counts[k] == RegionEntry(items[k])
    {
      var item := items[i];
      if !item.Map? || |item.entries| != 1 {
        BadRegionItem(v, i);
        return Err;
      }
      var name := item.entries[0].0;
      if name in seen {
        var k :| 0 <= k < i && items[k].entries[0].0 == name;
        RepeatedRegion(v, k, i);
        return Err;
      }
      var n := IntOf(item.entries[0].1);
      if n.None? {
        BadRegionItem(v, i);
        return Err;
      }
      RegionRead(items, i, seen, counts);
      seen := seen + {name};
      counts := counts + [RegionCount(name, n.value)];
      i := i + 1;
    }
    AllRegionsRead(v, counts);
    return Ok(counts);
  }

  /** One step of the loop of `AsRegionsCountMap`: a new region with an
      integer count extends what has been read by one item. */
  lemma RegionRead(items: seq<Value>, i: int, seen: set<string>, counts: seq<RegionCount>)
    requires 0 <= i < |items| && RegionItemOk(items[i])
    requires forall k :: 0 <= k < i ==> items[k].Map? && |items[k].entries| == 1 && RegionItemOk(items[k])
    requires forall j, k :: 0 <= j < k < i ==> items[j].entries[0].0 != items[k].entries[0].0
    requires seen == set k | 0 <= k < i :: items[k].entries[0].0
    requires items[i].entries[0].0 !in seen
    requires |counts| == i
    requires forall k :: 0 <= k < i ==> counts[k] == RegionEntry(items[k])
    ensures forall k :: 0 <= k < i + 1 ==> RegionItemOk(items[k])
    ensures forall j, k :: 0 <= j < k < i + 1 ==> items[j].entries[0].0 != items[k].entries[0].0
    ensures seen + {items[i].entries[0].0} == set k | 0 <= k < i + 1 :: items[k].entries[0].0
    ensures forall k :: 0 <= k < i + 1 ==> (counts + [RegionEntry(items[i])])[k] == RegionEntry(items[k])
  {
  }

  lemma BadRegionItem(v: Value, i: int)
    requires v.List? && 0 <= i < |v.items| && !RegionItemOk(v.items[i])
    ensures RegionCounts(v) == Err
  {
  }

  lemma RepeatedRegion(v: Value, j: int, k: int)
    requires v.List? && 0 <= j < k < |v.items|
    requires SingleEntryMap(v.items[j]) && SingleEntryMap(v.items[k])
    requires v.items[j].entries[0].0 == v.items[k].entries[0].0
    ensures RegionCounts(v) == Err
  {
    assert !DistinctRegionKeys(v.items);
  }

  lemma AllRegionsRead(v: Value, counts: seq<RegionCount>)
    requires v.List?
    requires forall k :: 0 <= k < |v.items| ==> RegionItemOk(v.items[k])
    requires DistinctRegionKeys(v.items)
    requires |counts| == |v.items|
    requires forall k :: 0 <= k < |v.items| ==> counts[k] == RegionEntry(v.items[k])
    ensures RegionCounts(v) == Ok(counts)
  {
    assert RegionCounts(v).Ok?;
    var rs := RegionCounts(v).value;
    assert |rs| == |counts|;
    assert forall k :: 0 <= k < |rs| ==> rs[k] == counts[k];
    assert rs == counts;
  }

  /** The regions of a successfully read list are pairwise distinct. */
  lemma RegionCountsDistinct(v: Value)
    requires RegionCounts(v).Ok?
    ensures var rs := RegionCounts(v).value;
      forall j, k :: 0 <= j < k < |rs| ==> rs[j].region != rs[k].region
  {
  }

  /** The list is refused when it is not a list, when an item is not a
      one-pair mapping, when an item's count is not an integer, or when a region
      repeats; otherwise the entries keep the length, order and region names of
      the items. */
  lemma RegionCountsExactly(v: Value)
    ensures RegionCounts(v).Ok? <==>
      && v.List?
      && (forall k :: 0 <= k < |v.items| ==> SingleEntryMap(v.items[k]))
      && (forall k :: 0 <= k < |v.items| ==> IntOf(v.items[k].entries[0].1).Some?)
      && (forall j, k :: 0 <= j < k < |v.items| ==> v.items[j].entries[0].0 != v.items[k].entries[0].0)
    ensures RegionCounts(v).Ok? ==>
      var rs := RegionCounts(v).value;
      && |rs| == |v.items|
      && (forall k :: 0 <= k < |rs| ==>
            rs[k].region == v.items[k].entries[0].0 && Some(rs[k].count) == IntOf(v.items[k].entries[0].1))
  {
  }

  /** The node count a region list asks for: the sum of its counts. */
  function NodeCount(regions: seq<RegionCount>): int {
    if regions == [] then 0
    else NodeCount(regions[..|regions| - 1]) + regions[|regions| - 1].count
  }

  /** `NodeGroupConfig.get_node_count`: adds the counts up one region at a time. */
  method GetNodeCount(regions: seq<RegionCount>) returns (count: int)
    ensures count == NodeCount(regions)
  {
    count := 0;
    for i := 0 to |regions|
      invariant count == NodeCount(regions[..i])
    {
      assert regions[..i + 1][..i] == regions[..i];
      count := count + regions[i].count;
    }
    assert regions[..|regions|] == regions;
  }

  lemma {:induction false} NodeCountAppend(a: seq<RegionCount>, b: seq<RegionCount>)
    ensures NodeCount(a + b) == NodeCount(a) + NodeCount(b)
  {
    if b == [] {
      assert a + b == a;
    } else {
      NodeCountAppend(a, b[..|b| - 1]);
      assert (a + b)[..|a + b| - 1] == a + b[..|b| - 1];
    }
  }

  lemma SplitAround(b: seq<RegionCount>, k: int)
    requires 0 <= k < |b|
    ensures b == (b[..k] + [b[k]]) + b[k + 1..]
  {
  }

  lemma NodeCountSingle(x: RegionCount)
    ensures NodeCount([x]) == x.count
  {
    assert [x][..0] == [];
  }

  /** Taking out the entry at `k` takes its count off the node count. */
  lemma NodeCountRemove(b: seq<RegionCount>, k: int)
    requires 0 <= k < |b|
    ensures NodeCount(b) == NodeCount(b[..k] + b[k + 1..]) + b[k].count
  {
    var x, c, d := b[k], b[..k], b[k + 1..];
    SplitAround(b, k);
    NodeCountSingle(x);
    calc {
      NodeCount(b);
      NodeCount((c + [x]) + d);
      { NodeCountAppend(c + [x], d); }
      NodeCount(c + [x]) + NodeCount(d);
      { NodeCountAppend(c, [x]); }
      NodeCount(c) + x.count + NodeCount(d);
      { NodeCountAppend(c, d); }
      NodeCount(c + d) + x.count;
    }
  }

  /** Taking out the entry at `k` takes it off the multiset of entries. */
  lemma MultisetRemove(b: seq<RegionCount>, k: int)
    requires 0 <= k < |b|
    ensures multiset(b[..k] + b[k + 1..]) == multiset(b) - multiset{b[k]}
  {
    assert b == b[..k] + ([b[k]] + b[k + 1..]);
  }

  /** The node count does not depend on the order the regions are listed in. */
  lemma {:induction false} NodeCountPermutation(a: seq<RegionCount>, b: seq<RegionCount>)
    requires multiset(a) == multiset(b)
    ensures NodeCount(a) == NodeCount(b)
    decreases |a|
  {
    if a == [] {
      assert |b| == |multiset(b)| == 0;
    } else {
      var x := a[|a| - 1];
      var a' := a[..|a| - 1];
      assert a == a' + [x];
      assert multiset(a') == multiset(a) - multiset{x};
      assert x in multiset(b);
      var k :| 0 <= k < |b| && b[k] == x;
      NodeCountRemove(b, k);
      MultisetRemove(b, k);
      NodeCountPermutation(a', b[..k] + b[k + 1..]);
    }
  }
}
