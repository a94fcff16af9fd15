# tmtestnet configuration loader, modelled in Dafny

`tmtestnet.py` reads a YAML file that describes a Tendermint test network:
- a resource group id;
- optional monitoring and load-test sections;
- a `tendermint_network` list of node groups.

Each node group names a Tendermint binary, a few flags, the seeds and
persistent peers it connects to, and how many nodes to run in which cloud
region. A reference to a group is written `name`. A reference to one node of a
group is written `name[idx]`.

This project models how the loader turns the already-parsed YAML document
into typed configuration records, and proves what the loader guarantees.

**Loading happens in two passes.** First every group is parsed, with defaults
for the keys it leaves out. Then every `use_seeds` and `persistent_peers`
reference is checked against the complete list of groups, so a group may
refer to a group declared after it.

The second pass as written checks only the group declared last under each name
(see Findings). The model keeps both versions. `NetworkFromValueAsWritten`
follows the code. `NetworkFromValue`, `LoadNetwork` and `LoadConfig` use the
corrected check, which validates every declared group. The two loaders accept
the same networks whenever no group name is declared twice.

**Files:**
- `yaml_value.dfy` holds the YAML value (`Value`). Mappings keep their keys in
  insertion order, as Python dicts do.
- `py_text.dfy` and `py_int.dfy` hold the Python `str` operations and the
  `int()` conversion the loader relies on.
- `group_names.dfy` covers group-name validation, reference parsing, string
  lists and region names.
- `regions.dfy` covers the region list and the node count.
- `node_group.dfy` covers one group's configuration.
- `network.dfy` covers the network: the by-name lookup, the reference check
  and the two-pass loader, with worked examples.
- `config.dfy` covers the top-level configuration.

**How the model is built:**
- Every exception the loader raises is the `Err` case of a `Result`.
- Each loop of the source that builds or accumulates something is a method,
  proved equal to a declarative function. The properties are proved about
  those functions.
- The two loops that only check something are recursive functions, proved
  equivalent to a statement about every element:
  - the character scan of `validate_group_name`;
  - the reference scan of `validate_group_or_node_refs`.
- The file-existence query for a local Tendermint binary is a parameter: the
  set `localFiles` of paths that exist.

**What the loader does not do:**
- It does not check region names against `SUPPORTED_REGIONS` (tmtestnet.py:19-27 and 460-484).
- It adds no zero-count entries for regions a group leaves out.
- It computes no starting node id for a group.
- It does not refuse a region count of zero or below.

## Model

| member | source | states |
|---|---|---|
| GroupNames.NoInvalidChar | tmtestnet.py:491-494 | the character scan finds no bad character exactly when every character is an ASCII letter, a digit, `_` or `-` |
| GroupNames.ValidateGroupName | tmtestnet.py:491-496 | accepts exactly the names over the allowed charset, the empty name included, and returns the name unchanged |
| GroupNames.ValidGroupNameHasNoBracket | tmtestnet.py:29 | a valid group name contains no `[` and no `]` |
| GroupNames.AsGroupOrNodeId | tmtestnet.py:499-512 | a string without `[` gives the whole-group reference to it when it is a valid name and fails otherwise; every accepted reference names a valid group |
| GroupNames.AsGroupOrNodeIdExactly | tmtestnet.py:499-512 | with a `[` at its first position `i`, the string is accepted exactly when the text after it holds no second `[`, the name before it is valid, and the text after it reads as an integer once every `]` is removed; the result is that name with that index |
| GroupNames.RefRoundTrip | tmtestnet.py:499-512 | for every valid group name `g` and integer `k`, reading back `g` gives `(g, None)` and reading back `g[k]` gives `(g, k)` |
| GroupNames.IndexedRef | tmtestnet.py:503-512 | for a name and a tail with no `[`, the result is an error for an invalid name and otherwise the tail without its `]`s, parsed as the index |
| GroupNames.TrailingDigitsJoinIndex | tmtestnet.py:508 | `g[1]2` is read as node 12 of `g`, because every `]` is dropped before the index is parsed |
| GroupNames.StrayBracketsIgnored | tmtestnet.py:508 | `g[7]]` is read as node 7 of `g` |
| GroupNames.TwoIndicesRefused | tmtestnet.py:503-505 | `g[1][2]` is refused: more than one `[` is an error |
| GroupNames.AsStringList | tmtestnet.py:452-457 | a list is passed through as it is, a string becomes the one-item list holding it, anything else is an error |
| GroupNames.AsRegionName | tmtestnet.py:487-488 | the result has the input's length, holds no `_`, and equals the input when the input has no `_` |
| GroupNames.RegionNameRoundTrip | tmtestnet.py:487-488 | a region spelled with `_` for `-` is mapped back to the region itself |
| PyText.Split | tmtestnet.py:503 | `split` yields one more piece than there are separators, and no piece holds the separator |
| PyText.SplitJoin | tmtestnet.py:503 | joining the pieces of a split with the separator gives back the string |
| PyText.SplitAtFirst | tmtestnet.py:503 | splitting `a + sep + b`, where `a` has no separator, gives `a` followed by the pieces of `b` |
| PyText.JoinSplit | tmtestnet.py:503 | splitting the join of separator-free pieces gives back the pieces |
| PyText.RemoveChar | tmtestnet.py:508 | `replace(c, "")` leaves no `c`, shortens the string by the number of `c`s, and leaves a string without `c` unchanged |
| PyText.RemoveCharConcat | tmtestnet.py:508 | removing a character from a concatenation removes it from each part |
| PyText.ReplaceChar | tmtestnet.py:488 | `replace(x, y)` for single characters changes every `x` into `y` and keeps every other character |
| PyInt.ParseIntExactly | tmtestnet.py:508 | `int()` of a string succeeds exactly when, once surrounding whitespace is stripped, the text is a base-10 literal (digits, single underscores between digits), possibly after one sign; an unsigned literal reads as a non-negative number (the same `int()` reads region counts at tmtestnet.py:476) |
| PyInt.ParseIntIgnoresSurroundingSpace | tmtestnet.py:508 | a whitespace character (tab, line feed, vertical tab, form feed, carriage return, space) before and after the text does not change what `int()` reads |
| PyInt.FileSeparatorNotSkipped | tmtestnet.py:508 | other control characters are not whitespace to `int()`: a leading 0x1C makes the text unreadable |
| PyInt.IntOf | tmtestnet.py:476 | `int()` of a YAML value succeeds only for an integer, a boolean or a string; an integer is itself and a string is parsed |
| PyInt.ParseIntRoundTrip | tmtestnet.py:508 | `int(str(k)) == k` for every integer `k` |
| PyInt.NatToStrValue | tmtestnet.py:508 | the decimal digits of `n` spell `n` |
| PyInt.IntToStrHasNoBrackets | tmtestnet.py:508 | `str(k)` never holds a bracket |
| Regions.AsRegionsCountMap | tmtestnet.py:460-484 | the loop, with its set of seen regions and its growing entry list, returns exactly the declarative region-list reading |
| Regions.RegionCountsExactly | tmtestnet.py:460-484 | the region list fails on a non-list, on an item that is not a one-pair mapping, on a count `int()` refuses, and on a repeated region; otherwise the entries have the items' length, order, region names and counts |
| Regions.RegionCountsDistinct | tmtestnet.py:470-473 | the regions of a successfully read list are pairwise distinct |
| Regions.GetNodeCount | tmtestnet.py:202-206 | the accumulating loop returns the sum of the region counts |
| Regions.NodeCountAppend | tmtestnet.py:202-206 | the node count of two region lists put together is the sum of their node counts |
| Regions.NodeCountPermutation | tmtestnet.py:202-206 | the node count does not depend on the order of the region entries |
| NodeGroup.LoadRefs | tmtestnet.py:226-242 | appending one parsed reference per item gives every item read as a reference, in order, or fails if any item is not a reference |
| NodeGroup.SingleRefIsOneItemList | tmtestnet.py:226-242 | a lone reference string means the same as the one-item list holding it |
| NodeGroup.LoadNodeGroup | tmtestnet.py:208-248 | filling the fields one at a time gives exactly the declarative group reading |
| NodeGroup.GroupFromValueExactly | tmtestnet.py:208-248 | a group loads exactly when its value is a mapping, any `tendermint` is a string naming a version (`v…`) or an existing local file, any `use_seeds` and `persistent_peers` are reference lists, and `regions` is present and reads; each field is then the given value, or the default (`v0.31.7`, true, true, true, empty template, no seeds, no peers) when the key is absent |
| Network.GetNodeGroupConfigsByName | tmtestnet.py:261-265 | filling the dict group by group gives the by-name lookup of the groups |
| Network.ByNameKeys | tmtestnet.py:261-265 | the lookup's names are exactly the declared group names |
| Network.ByNameLast | tmtestnet.py:261-265 | a name is bound to the group declared last under it |
| Network.ByNameBindingDeclared | tmtestnet.py:261-265 | every binding of the lookup is one of the declared groups |
| Network.RefsValid | tmtestnet.py:515-524 | the references pass exactly when each names a group in the lookup and any node index lies in `[0, node count)` |
| Network.ConsistentAsWrittenExactly | tmtestnet.py:267-281 | the written `validate_consistency` passes exactly when the groups that are the last declared under their name have valid references; earlier groups with the same name are never checked |
| Network.ConsistentImpliesAsWritten | tmtestnet.py:267-281 | checking every declared group is at least as strict as checking the groups of the by-name lookup |
| Network.AsWrittenIsConsistentWhenNamesDistinct | tmtestnet.py:267-281 | when group names are distinct, checking the lookup's groups and checking every declared group agree |
| Network.ValidateConsistency | tmtestnet.py:267-281 | the loop over the groups accepts exactly when every declared group's seeds and peers pass the reference check against the complete lookup |
| Network.LoadNetwork | tmtestnet.py:284-305 | appending the groups and then validating them gives exactly the declarative network reading; that reading uses the corrected check of every declared group |
| Network.AsWrittenAcceptsCorrected | tmtestnet.py:284-305 | every network the corrected loader accepts, the loader as written accepts too, with the same groups |
| Network.AsWrittenAgreesWhenNamesDistinct | tmtestnet.py:284-305 | when no two items declare the same group name, the loader as written and the corrected loader give the same result |
| Network.NetworkFromValueLoaded | tmtestnet.py:284-305 | a network loaded by the corrected loader keeps the items' count and order; each group is named by its item's valid key and is the group reading of its item's value; every seed and peer reference of every group resolves to a declared group, wherever that group is declared, with any index in range |
| Network.NetworkFromValueAccepts | tmtestnet.py:284-305 | conversely, a non-empty list whose items all load as groups, and whose references all resolve to some declared group, wherever it is declared, loads as exactly those groups |
| Network.NetworkFromValueRejects | tmtestnet.py:285-298 | the network fails on a non-list, on an empty list and on any item that is not a one-pair mapping |
| NetworkExamples.OneRegion | tmtestnet.py:460-484 | a one-item region list reads as that single region entry |
| NetworkExamples.RegionsUnchecked | tmtestnet.py:460-484 | a region outside `SUPPORTED_REGIONS` (`mars-1`) and a negative count are both accepted |
| NetworkExamples.GroupRef | tmtestnet.py:499-512 | a name without `[` reads as the whole-group reference to it |
| NetworkExamples.GroupLoads | tmtestnet.py:208-248 | a group value with one region and an optional seed loads with the defaults and that seed |
| NetworkExamples.ForwardGroupsLoad | tmtestnet.py:291-301 | every item of the forward-reference network loads, giving the expected groups |
| NetworkExamples.ForwardGroupsConsistent | tmtestnet.py:267-281 | a seed reference to a group declared later passes the reference check |
| NetworkExamples.ForwardReferenceAccepted | tmtestnet.py:284-305 | a network whose first group seeds from the second loads |
| NetworkExamples.ShadowGroupsLoad | tmtestnet.py:291-301 | both items of the network that declares `a` twice load |
| NetworkExamples.ShadowGroupsChecks | tmtestnet.py:267-281 | in that network the as-written check passes, the corrected check fails, and `missing` is not a group |
| NetworkExamples.ShadowedGroupReferencesUnchecked | tmtestnet.py:267-281 | the written check passes on the network, and the loader as written accepts it with both groups, although the first `a` seeds from the undeclared `missing`; the corrected loader refuses it |
| TestnetConfig.LoadMonitoring | tmtestnet.py:166-168 | the monitoring section always loads as the defaults: no InfluxDB deployment, no SignalFX token |
| TestnetConfig.LoadLoadTests | tmtestnet.py:359-361 | the load-test section always loads as the single default test `load0` |
| TestnetConfig.LoadConfig | tmtestnet.py:380-404 | the configuration loads exactly when the document is a mapping with `id` and `tendermint_network` and its network loads; the id is kept as given, the network is the one the corrected network loader returns, and the monitoring and load-test sections are the defaults |
| TestnetConfig.OptionalSectionsIgnored | tmtestnet.py:396-402 | taking the `monitoring` and `load_tests` keys out of the document does not change the outcome |
| TestnetConfig.LoadConfigNetworkAsWritten | tmtestnet.py:399 | whatever the configuration loader accepts, the network loader as written accepts too, with the same network |
| TestnetConfig.LoadedConfigConsistent | tmtestnet.py:399 | with the corrected network check, a loaded configuration has at least one group, and every reference of every group resolves |
| TestnetConfig.ForwardConfigLoads | tmtestnet.py:380-404 | a document with an id, an ignored monitoring value and the forward-reference network loads with the default sections |

## Left out

- Command-line parsing, `main` and logging set-up are left out. They are plumbing with no configuration logic.
- Reading the YAML file and parsing it are left out. The model starts from the parsed value.
- Interpolation of environment variables while parsing is left out. It reads the process environment.
- Whether a local Tendermint binary exists is the `localFiles` parameter, not a query of the file system.
- The `__repr__` methods and the text of error messages are left out. Every exception is the one `Err` value.
- Floating-point YAML values are left out, and so are mapping keys that are not strings. `int()` of a float, which truncates, is not modelled.
- Non-ASCII whitespace and non-ASCII digits, which Python's `int()` also accepts, are left out.
- The class-level mutable defaults shared between instances are left out. Defaults are plain values.
- The default network of a `Config` is left out, because loading always replaces it.
- YamlValue.Get: a mapping stands for the dict the YAML library builds, and its keys are distinct. When a document repeats a key, the library keeps one key with the last value. That resolution belongs to the parsing left out above. A `Value` whose mapping repeats a key has no Python counterpart. For such a value the model reads the first binding, and its one-pair checks count both bindings.
- NodeGroup.RefOf: an item of `use_seeds` or `persistent_peers` that is not a string fails in the model when the group loads. Python also fails at load for a number, a boolean or null, because the `[` membership test raises. It fails at load for most lists and mappings as well. A list or mapping whose elements or keys are all single allowed characters, such as `["a"]` or `{}`, passes the load in Python. It fails only when its references are validated, because it cannot be looked up. The outcomes therefore differ only for such an item in a group that is never validated. Under the written check that is a group whose name is declared again later (see Findings). `NetworkFromValueAsWritten` refuses it; Python accepts it.
- Network.LoadNetwork: this loader and `NetworkFromValue` use the corrected check, so they refuse the Findings input, which the code accepts. `NetworkFromValueAsWritten` is the loader as written. `AsWrittenAgreesWhenNamesDistinct` proves the two agree when no name repeats.
- TestnetConfig.LoadConfig: it builds its network with the corrected loader, so it refuses a document whose network is the Findings input. `LoadConfigNetworkAsWritten` proves that everything it accepts, the code accepts too, with the same network.
- PyInt.ParseIntRoundTrip: from Python 3.11 on, `int()` and `str()` refuse decimal text of more than 4300 digits by default. There the round trip holds only for integers of at most 4300 digits. The model has no digit limit.
- GroupNames.RefRoundTrip: for the same reason, from Python 3.11 on, `g[k]` reads back only when `k` has at most 4300 digits.

## Findings

| source | as written | input that shows it | evidently intended | confidence | as-written member | corrected member |
|---|---|---|---|---|---|---|
| tmtestnet.py:267-281 | `validate_consistency` walks the by-name dict, so when two groups share a name only the one declared last has its `use_seeds` and `persistent_peers` checked | `tendermint_network: [{a: {use_seeds: missing, regions: [{us-east-1: 1}]}}, {a: {regions: [{us-east-1: 1}]}}]` loads even though `missing` is no group | every declared group's references are checked against the complete lookup | medium, not executed | Network.ConsistentAsWritten, Network.NetworkFromValueAsWritten, Network.ConsistentAsWrittenExactly, NetworkExamples.ShadowedGroupReferencesUnchecked | Network.Consistent, Network.ValidateConsistency, Network.ConsistentImpliesAsWritten |
