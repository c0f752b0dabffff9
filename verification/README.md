# Cells and scheduler decision logic of the Rackspace nova branch, in Dafny

This project models the decision logic that the Rackspace branch of OpenStack
nova adds to cell scheduling and host scheduling, along with a few pure helpers
that sit next to it. It proves properties of that model:

- **Cells permission engine** (`nova/cells/cfg.py`):
  - rules are looked up per routing path as `(role, action, perm_chars)` triples;
  - within a list, the first rule that decides wins;
  - the cell's own rules are consulted before those of the routing path, and the default is to deny;
  - it also answers the `read_only` query.
- **Cell filters**, each modelled as a function from a candidate list to a candidate list:
  - the permissions filter;
  - the flavor-class capability filter;
  - the Rackspace near/far filter, with its routing helper `cell_name_for_next_hop`.
- **Rackspace host filter**: the IO-ops and instance-count limits, the RAM check with its reserve and estimated Xen overhead, the `0z0ne_target_host` override, and the spare-host reservation.
- **Host weighing** (`RAXHostWeightHandler`): every host starts at weight 0, the weighers run in order, and a stable sort puts the highest weight first. `WeighedHost.to_dict` is modelled too.
- **Network bandwidth consumer**: the bookkeeping on a host's `extra_resources`.
- **Helpers of the XenServer Open vSwitch script**:
  - the cookie that packs a domain id and a VIF id;
  - flow fragments: parsing and rendering;
  - flows, flow groups and the flow manager as text;
  - the `clear_flows` marker;
  - the ServiceNet gateway calculation;
  - the IPv6 link-local address, which is the modified EUI-64 interface identifier of Appendix A of RFC 4291.
- **Address view builder** (`address_uuid.py`): `basic_uuid`, `show` and `index`.

Modelling conventions:

- Everything is immutable data and pure functions. A Python dict becomes a
  `map`, a list becomes a `seq`, and an exception becomes the `Err` side of a
  `Result`.
- The outside world enters as parameters:
  - the instance database is a map from uuid to instance row;
  - `socket.inet_aton` is a function from text to number;
  - the configuration file is an already-loaded map.
- The message that sends a build directly to a cell is returned as a value
  (`RoutedDirectly`) and is not performed.
- The model follows the code. `different_cell` removes the far instance's cell
  whenever `hops_left <= 1`, which covers both zero hops and one hop, and the
  model keeps exactly that inequality.

Layout:

- `wrappers.dfy`: `Option` and `Result`.
- `seqs.dfy`: filtering and subsequences.
- `strings.dfy`: split, join, count, lower-casing, and decimal and hex numerals.
- `bits.dfy`: `&`, `|`, `>>` and `^` on naturals.
- One file per source module: `cells_config.dfy`, `cell_filters.dfy`,
  `near_far.dfy`, `rackspace_filter.dfy`, `weights.dfy`,
  `network_consumer.dfy`, `ovs_addresses.dfy`, `ovs_flows.dfy`,
  `address_view.dfy`. Each `...Examples` module restates the cases of the
  matching unit tests.

## Model

| member | source | states |
|---|---|---|
| CellsConfig.GetValueAfterStore | nova/cells/cfg.py:65-71 | A value stored under a path and key reads back as stored. Every other path and key reads as it did before. |
| CellsConfig.GetValueDefault | nova/cells/cfg.py:69-71 | A key missing from the cell's entry reads as whatever default the caller passes. A key the entry holds reads the same under every default. |
| CellsConfigExamples.GetCellExample | nova/tests/cells/test_cfg.py:66-68 | The entry of `region!c2` holds `rules`. |
| CellsConfigExamples.GetValueExample | nova/tests/cells/test_cfg.py:70-73 | The first rule of `region!c2` is `('bofh', 'deny', 'b')`. |
| CellsConfigExamples.GetValueDefaultExample | nova/tests/cells/test_cfg.py:75-76 | A key that `region!c2` lacks reads as the given default `'def'`. |
| CellsConfig.RunRule | nova/cells/cfg.py:103-123 | A rule decides exactly when its role is `*` or one of the caller's roles and its permission characters contain `*` or the requested one. A rule whose role is foreign never decides. When a rule decides, its decision is "allowed" exactly when its lower-cased action is `allow`. |
| CellsConfig.TestRules | nova/cells/cfg.py:91-101 | A rule list gives no decision exactly when none of its rules decides. Otherwise its decision is that of its first deciding rule. |
| CellsConfig.CellHasPermission | nova/cells/cfg.py:73-89 | The cell's own rules decide when they can. Otherwise the routing path's rules decide. Otherwise the answer is deny. A permission is granted only if one of the two lists allowed it. |
| CellsConfig.ParentPath | nova/cells/cfg.py:130-131 | The cell name cut at its last `!`. A name without `!` loses its final character, because `rfind` returns -1. |
| CellsConfig.CellReadOnly | nova/cells/cfg.py:125-133 | A truthy `read_only` entry of any type always wins. Without a request context, the answer is exactly the entry's truthiness. Otherwise the answer is the `r` permission on the cell under its parent path. |
| CellsConfig.NonDecidingRuleIrrelevant | nova/cells/cfg.py:95-101 | Inserting a rule that gives no decision anywhere in a list does not change the list's decision. |
| CellsConfig.NonDecidingPrefixIrrelevant | nova/cells/cfg.py:95-101 | A prefix of rules that give no decision can be dropped. |
| CellsConfig.FirstDecidingRuleWins | nova/cells/cfg.py:95-99 | A deciding rule placed first fixes the outcome, whatever follows. Placed second, it is overridden by a first rule that decides, and it decides when the first rule does not. |
| CellsConfig.CellRulesOverrideRoutingRules | nova/cells/cfg.py:79-87 | Once the cell's own rules decide, replacing the routing path's rules changes nothing. |
| CellsConfig.DenyByDefault | nova/cells/cfg.py:79-89 | When no rule in either list applies to the caller's roles and the permission, the permission is refused. |
| CellsConfig.ForeignRoleNeverDecides | nova/cells/cfg.py:116-117 | A rule for a role the caller does not hold, and that is not `*`, gives no decision. |
| CellsConfig.ReadOnlyFlagWins | nova/cells/cfg.py:126-128 | A cell whose `read_only` entry is truthy (`true`, `1`, a non-empty string or list) is read-only for every context, including none. |
| CellsConfig.ParentPathOfChild | nova/cells/cfg.py:130-131 | The parent path of `parent!child`, where `child` contains no `!`, is `parent`. |
| CellsConfigExamples.ShortCircuitExample | nova/tests/cells/test_cfg.py:78-83 | The allow rule for `somerole` on `region!c1` comes first, so the permission holds. |
| CellsConfigExamples.RuleListExample | nova/tests/cells/test_cfg.py:85-90 | `otherrole` may build in `region!c2` under that cell's rule list. |
| CellsConfigExamples.RegionExample | nova/tests/cells/test_cfg.py:92-102 | A cell without rules falls back to the region's rules: `privaterole` is allowed and any other role is denied by the wildcard. |
| CellsConfigExamples.ReadOnlyAllExample | nova/tests/cells/test_cfg.py:104-108 | A cell configured `read_only` is read-only for every role. |
| CellsConfigExamples.ReadOnlyByRoleExample | nova/tests/cells/test_cfg.py:110-113 | `reader` holds the `r` permission on `region!c1`, so that cell is read-only for it. |
| CellsConfigExamples.NumericReadOnlyExample | nova/cells/cfg.py:126-128 | A `read_only` of `1` makes `region!c1` read-only for a role whose rules would allow building there. |
| PermissionsFilter.AddressedNameRoundTrip | nova/cells/filters/permissions.py:49-54 | A child cell is addressed one level below the routing path: the parent path of its address is the routing path, and the rest is the cell's name. |
| PermissionsFilter.AddressedNamesDistinct | nova/cells/filters/permissions.py:49-54 | Child cells with different names have different addresses, and no child shares the routing path's own address. |
| PermissionsFilter.FilterAll | nova/cells/filters/permissions.py:32-47 | The result is an order-preserving subsequence of the candidates. Every permitted cell keeps all its occurrences and every other cell loses all of them. When every cell is permitted, the candidates come back unchanged. |
| PermissionsFilter.FilterAllCons | nova/cells/filters/permissions.py:38-42 | One pass of the loop: the first cell is kept exactly when it may build, and the rest are filtered the same way. |
| PermissionsFilter.KeptIffPermitted | nova/cells/filters/permissions.py:38-42 | A cell is in the result if and only if it is a candidate and has the `b` permission under its addressed name. |
| PermissionsFilterExamples.PrivateRoleExample | nova/tests/cells/test_permissions_filter.py:91-96 | `privaterole` keeps only c1. |
| PermissionsFilterExamples.WildcardRolesExample | nova/tests/cells/test_permissions_filter.py:98-101 | `myrole` keeps only c3. |
| PermissionsFilterExamples.AnotherRoleExample | nova/tests/cells/test_permissions_filter.py:103-110 | `anotherrole` keeps c2 and then c3. |
| FlavorClassFilter.FilterAll | nova/cells/filters/flavor_classes.py:68-96 | A flavor with no `class` returns the candidates unchanged. Otherwise the result is the order-preserving subsequence of cells that either advertise no `flavor_classes` or advertise a list containing the class. |
| FlavorClassFilter.FilterAllCons | nova/cells/filters/flavor_classes.py:87-95 | One pass of the loop: the first cell is kept exactly when it supports the class. |
| FlavorClassFilter.UnclassifiedCellKept | nova/cells/filters/flavor_classes.py:90-93 | A candidate cell that advertises no flavor classes is always kept. |
| FlavorClassFilter.ExcludingCellDropped | nova/cells/filters/flavor_classes.py:94-95 | A cell whose advertised classes lack the requested one is never kept. An advertised empty list rejects every class. |
| FlavorClassFilterExamples.NoClassExample | nova/tests/cells/test_flavor_classes_filter.py:50-54 | Without a class, all four cells are returned. |
| FlavorClassFilterExamples.UnknownClassExample | nova/tests/cells/test_flavor_classes_filter.py:56-60 | An unknown class keeps only the unclassified cell1. |
| FlavorClassFilterExamples.MatchingClassOneCellExample | nova/tests/cells/test_flavor_classes_filter.py:62-67 | `class1` keeps cell1 and cell3. |
| FlavorClassFilterExamples.MatchingClassTwoCellsExample | nova/tests/cells/test_flavor_classes_filter.py:69-74 | `class2` keeps cell1, cell3 and cell4. |
| NearFarFilter.NextHop | nova/cells/filters/rax_near_far.py:40-64 | There is no next hop exactly when the destination is the routing path. A next hop never contains `!`. |
| NearFarFilter.NextHopBelow | nova/cells/filters/rax_near_far.py:57-64 | For `routing_path!rest`, the next hop is the first component of `rest`. That component always exists. |
| NearFarFilter.NextHopSound | nova/cells/filters/rax_near_far.py:57-64 | A next hop is only ever produced for a destination strictly below the routing path, and it is the first component of the remainder. |
| NearFarFilter.NextHopInconsistentIff | nova/cells/filters/rax_near_far.py:48-63 | `CellRoutingInconsistency` is raised exactly when the destination is neither the routing path nor below it. |
| NearFarFilter.FindCell | nova/cells/filters/rax_near_far.py:99-107 | The routing path itself maps to the local cell. A name not below the path maps to nothing. A name below the path maps to the child named by its next hop, if there is one. |
| NearFarFilter.FindChildCell | nova/cells/filters/rax_near_far.py:105-107 | `routing_path!child` finds the registered child `child`. |
| NearFarFilter.GetCellName | nova/cells/filters/rax_near_far.py:80-97 | An unknown uuid is an error, and so is an instance with no cell name. Otherwise the result is the instance's non-empty cell name. |
| NearFarFilter.Standardize | nova/cells/filters/rax_near_far.py:109-133 | Succeeds exactly when each truthy hint names an instance that has a cell. A failing `near` gives its own error before `far` is looked at; otherwise a failing `far` gives `InstanceNotFound` or `InstanceNotInCell` for `far`. `near` and `far` never survive. `near` becomes `same_cell` holding the near instance's cell. `far` becomes `different_cell` holding the far instance's cell, and `different_dczone` becomes the first DCZONE entry of the cell that routes towards it, when that cell advertises a non-empty list. Every key the step does not write keeps its entry. |
| NearFarFilter.AvoidCell | nova/cells/filters/rax_near_far.py:160-181 | With at most one hop left, exactly one occurrence of the far cell is removed, and every other cell keeps all its copies. If the far cell is not a candidate, the source raises; that is the only error. Otherwise the candidates are untouched. |
| NearFarFilter.AvoidDczone | nova/cells/filters/rax_near_far.py:183-199 | An order-preserving subsequence that drops exactly the cells whose first DCZONE is the hint. Cells without a DCZONE are kept. A cell advertising an empty DCZONE list raises. |
| NearFarFilter.Narrow | nova/cells/filters/rax_near_far.py:160-200 | The `different_cell` and `different_dczone` steps together give a subsequence of the candidates. A cell in the avoided DCZONE keeps no copy, the far cell loses one copy, and every other cell keeps all its copies. It fails with the `ValueError` exactly when the policy raises and the far cell is one hop away but not a candidate. It fails with the `IndexError` only when a candidate has an empty DCZONE list, and it always succeeds when neither applies. |
| NearFarFilter.FilterAll | nova/cells/filters/rax_near_far.py:135-200 | Without hints, the candidates are returned unchanged. With hints, it fails exactly when standardizing fails, with that error, or when no `same_cell` results and the narrowing steps fail, with their error. It routes directly exactly when standardizing yields a `same_cell`, and then to that cell. Otherwise it returns a subsequence of the input holding exactly the copies the narrowing steps keep. The hints left behind are the standardized ones less `same_cell`. |
| NearFarFilter.FilterAllCorrected | nova/cells/filters/rax_near_far.py:172-179 | The same filter with the same hints, counts, failure and routing conditions, except that a far cell that is not a candidate no longer makes it fail. |
| NearFarFilter.NearRoutesDirectly | nova/cells/filters/rax_near_far.py:147-158 | A `near` hint either routes the build straight to the near instance's cell or fails; an unknown uuid gives `InstanceNotFound`. |
| NearFarFilter.FarAvoidsTargetCell | nova/cells/filters/rax_near_far.py:160-181 | A `far` hint whose cell is one hop away and is a candidate removes an occurrence of that cell from the result. |
| NearFarFilter.NearOnly | nova/cells/filters/rax_near_far.py:116-158 | A lone `near` hint yields a direct route to the instance's cell and leaves no hints behind. |
| NearFarFilter.FarOnlyStandardized | nova/cells/filters/rax_near_far.py:124-133 | A lone `far` hint whose cell advertises no DCZONE becomes exactly `different_cell`. |
| NearFarFilter.FarOneHop | nova/cells/filters/rax_near_far.py:124-181 | For a lone `far` hint one hop away, the result is the candidates less the first occurrence of that cell. If the cell is not a candidate, the source fails and the corrected filter returns the candidates. |
| NearFarFilter.FarZoneStandardized | nova/cells/filters/rax_near_far.py:124-133 | A lone `far` hint whose cell advertises DCZONE `[d, ...]` becomes `different_cell` plus `different_dczone = d`. |
| NearFarFilter.FarDczone | nova/cells/filters/rax_near_far.py:124-199 | For a lone `far` hint whose cell advertises DCZONE `[d, ...]`, the result is the candidates outside zone `d`, in order, which drops the far cell too. As written it still fails first when the far cell is one hop away and not a candidate; corrected it does not. A candidate with an empty DCZONE list raises `IndexError`. |
| NearFarFilter.DczoneHintOnly | nova/cells/filters/rax_near_far.py:183-200 | A lone `different_dczone` hint keeps exactly the candidates outside that zone, in order. A candidate with an empty DCZONE list raises, and an empty hint changes nothing. |
| NearFarFilter.UnrelatedHintsKeepCandidates | nova/cells/filters/rax_near_far.py:135-200 | Hints the filter does not act on, such as `{"foo": "bar"}`, or falsy `near` and `far`, return every candidate in place under either policy. |
| NearFarExamples.NearExample | nova/tests/cells/test_rax_near_far_filter.py:77-92 | `near` resolving to `global!cell0` routes the build there. |
| NearFarExamples.FarExample | nova/tests/cells/test_rax_near_far_filter.py:94-102 | `far` resolving to `global!cell0` turns `[cell0, cell1, cell2]` into `[cell1, cell2]`. |
| NearFarExamples.FarMissingCellRaises | nova/cells/filters/rax_near_far.py:172-179 | As written, `far` naming a cell that is not a candidate ends in an error. |
| NearFarExamples.FarMissingCellIgnored | nova/cells/filters/rax_near_far.py:172-179 | Corrected, the same input returns the candidates unchanged. |
| RackspaceFilter.Overhead | nova/scheduler/filters/rackspace_filter.py:111-116 | The least integer at or above 3 + 0.00781 per MB + 1.5 per vCPU, computed exactly in units of 10^-5. |
| RackspaceFilter.OverheadMonotonic | nova/scheduler/filters/rackspace_filter.py:111-116 | More memory or more vCPUs never lowers the overhead. |
| RackspaceFilter.UsedMemoryMb | nova/scheduler/filters/rackspace_filter.py:105-109 | The estimate is the flavor's memory plus the least integer at or above 3 + 0.00781 per MB + 1.5 per vCPU, with the vCPU count defaulting to 1. |
| RackspaceFilter.MissingVcpusCountAsOne | nova/scheduler/filters/rackspace_filter.py:107 | A flavor without `vcpus` is estimated as one with a single vCPU. |
| RackspaceFilter.RamCheckMonotonic | nova/scheduler/filters/rackspace_filter.py:91-98 | A host that passes the RAM check still passes with more free RAM. |
| RackspaceFilter.RamCheckLeavesReserve | nova/scheduler/filters/rackspace_filter.py:91-98 | A host that passes has room for the estimate. Below the threshold, it also keeps the reserve on top. |
| RackspaceFilter.FloorDiv | nova/scheduler/filters/rackspace_filter.py:148 | Python 2 integer `/`: the quotient rounded towards minus infinity. |
| RackspaceFilter.TargetSpares | nova/scheduler/filters/rackspace_filter.py:145-150 | With the percentage at 0, no spares. Otherwise the result is `total_hosts` floor-divided by the percentage, between 0 and `total_hosts`. |
| RackspaceFilter.TargetSparesCorrected | nova/scheduler/filters/rackspace_filter.py:145-150 | The evidently intended count: `pct` percent of the hosts, rounded down. |
| RackspaceFilter.SparesAgreeAtTenPercent | nova/scheduler/filters/rackspace_filter.py:145-150 | At the default 10% the written formula and the intended one coincide for every host count. |
| RackspaceFilter.SparesDisagreeAtTwentyPercent | nova/scheduler/filters/rackspace_filter.py:148 | At 20% of 50 hosts, the written formula reserves 2 hosts and the intended one reserves 10. |
| RackspaceFilter.SparesShrinkAsPercentageGrows | nova/scheduler/filters/rackspace_filter.py:148 | As written, raising the percentage from 10 to 50 lowers the number of spares. |
| RackspaceFilter.ScanHosts | nova/scheduler/filters/rackspace_filter.py:154-169 | Only hosts that pass the hard rules are yielded, in input order. A withheld host is a passing empty candidate. |
| RackspaceFilter.SelectHosts | nova/scheduler/filters/rackspace_filter.py:154-174 | The result is the reference reading: the passing hosts, in order, without their first `spares` empty ones. If that leaves nothing, the result is the last empty host held back, when there is one. So every host returned is a candidate that passes the hard rules. |
| RackspaceFilter.Targeted | nova/scheduler/filters/rackspace_filter.py:133-143 | An order-preserving subsequence holding exactly the candidates whose name is in the comma-split target list, each with all its occurrences. |
| RackspaceFilter.FilterAll | nova/scheduler/filters/rackspace_filter.py:129-174 | With a target hint, exactly the targeted hosts. Without one, the passing hosts, in order, with the spare count of the formula as written held back, and the one-host fallback. |
| RackspaceFilter.FilterAllCorrected | nova/scheduler/filters/rackspace_filter.py:129-174 | The same filter, with the corrected spare count (`pct` percent of the hosts, rounded down) held back from the passing hosts. |
| RackspaceFilter.ScanIsDropEmpties | nova/scheduler/filters/rackspace_filter.py:156-169 | The yielded hosts are the passing hosts with the first `spares` empty ones removed. A host is withheld exactly when spares are wanted and some passing host is empty. |
| RackspaceFilter.WithheldIsLastDropped | nova/scheduler/filters/rackspace_filter.py:159-174 | The host that may come back is the last of the empty hosts held back. |
| RackspaceFilter.DropEmptiesCounts | nova/scheduler/filters/rackspace_filter.py:159-167 | Holding back `k` spares removes `min(k, number of empty hosts)` hosts, all of them empty. |
| RackspaceFilter.NothingOnlyWhenNothingPasses | nova/scheduler/filters/rackspace_filter.py:170-174 | Without a target, the result is empty if and only if no host passes the hard rules. |
| RackspaceFilter.SelectHostsCount | nova/scheduler/filters/rackspace_filter.py:154-174 | The number returned is the number of passing hosts less the spares actually held back. If that is zero while some host passed, exactly one host is returned. |
| RackspaceFilter.NoSparesReturnsAllPassing | nova/scheduler/filters/rackspace_filter.py:145-169 | With the spare percentage at 0, the result is exactly the passing hosts, in order. |
| RackspaceFilter.TargetOverridesRules | nova/scheduler/filters/rackspace_filter.py:133-143 | A targeted host is returned even when it fails every hard rule. |
| RackspaceFilterExamples.OverheadExamples | nova/tests/scheduler/test_rackspace_filter.py:192-203 | The overheads are 13, 245 and 14 for 1 GB with 1 vCPU, 30 GB with 1 vCPU, and 1 GB with 2 vCPUs. |
| RackspaceFilterExamples.UsedMemoryExamples | nova/tests/scheduler/test_rackspace_filter.py:204-213 | 1024 MB needs 1037 MB with vCPUs absent and 1038 MB with 2 vCPUs. |
| RackspaceFilterExamples.RamCheckExamples | nova/tests/scheduler/test_rackspace_filter.py:76-96 | 1 GB free fails for a 1 GB flavor. Estimate plus reserve passes, and so does exactly the estimate for 30 GB. |
| RackspaceFilterExamples.LimitExamples | nova/tests/scheduler/test_rackspace_filter.py:56-75 | 6 IO ops and 49 instances pass. 11 IO ops fails, and so do 51 instances. |
| RackspaceFilterExamples.AllHostsEmptyExample | nova/tests/scheduler/test_rackspace_filter.py:162-167 | 50 empty passing hosts at 10% give 45. |
| RackspaceFilterExamples.MoreEmptiesThanSparesExample | nova/tests/scheduler/test_rackspace_filter.py:175-184 | With 25 of 50 hosts empty, 45 are returned, 20 of them empty. |
| RackspaceFilterExamples.FewerEmptiesThanSparesExample | nova/tests/scheduler/test_rackspace_filter.py:185-191 | With 2 of 50 hosts empty, 48 are returned, none of them empty. |
| Weights.InsertSorted | nova/scheduler/weights/__init__.py:65 | Inserting into a list sorted by descending weight keeps it sorted. |
| Weights.InsertPermutes | nova/scheduler/weights/__init__.py:65 | Inserting adds exactly the one element. |
| Weights.SortDesc | nova/scheduler/weights/__init__.py:65 | The result has the input's length and is sorted by descending weight. |
| Weights.SortDescPermutes | nova/scheduler/weights/__init__.py:65 | Sorting is a permutation. |
| Weights.SortDescStable | nova/scheduler/weights/__init__.py:65 | For every weight, the elements of that weight keep their input order, as Python's stable `sorted(..., reverse=True)` does. |
| Weights.SortDescSorted | nova/scheduler/weights/__init__.py:65 | An already sorted list is left as it is. |
| Weights.SortDescAllEqual | nova/scheduler/weights/__init__.py:65 | When all weights are equal, the order is unchanged. |
| Weights.ApplyAllSnoc | nova/scheduler/weights/__init__.py:61-63 | The weighers run in the given order: the last one weighs the list that all the earlier ones left. |
| Weights.ApplyAllConcat | nova/scheduler/weights/__init__.py:61-63 | Running two lists of weighers one after the other is running their concatenation. |
| Weights.ApplyAll | nova/scheduler/weights/__init__.py:61-63 | The weighers together keep every object in place. With no weighers, nothing changes. |
| Weights.GetWeighedObjects | nova/scheduler/weights/__init__.py:53-65 | Empty input gives an empty result. The result is sorted by descending weight and is a permutation of the weighed objects. |
| Weights.TiesKeepInputOrder | nova/scheduler/weights/__init__.py:65 | Hosts of equal weight come out in the order they went in. |
| Weights.SameObjects | nova/scheduler/weights/__init__.py:53-65 | The hosts returned are exactly the hosts given, with multiplicity. |
| Weights.NoWeighersKeepsOrder | nova/scheduler/weights/__init__.py:57-65 | With no weighers, every host has weight 0 and the input order is kept. |
| Weights.ToDictOfWeighedHosts | nova/scheduler/weights/__init__.py:28-31 | The dictionaries of the weighed hosts list their weights highest first. Each names the host it was made from, and together they name exactly the hosts given. |
| WeightsExamples.OrderExample | nova/scheduler/weights/__init__.py:53-65 | Four hosts are ordered by descending score. |
| NetworkConsumer.ConsumeFromInstance | nova/scheduler/consumers/network.py:26-42 | Only `network_used_mbps` can change. Nothing changes when the flavor asks for no bandwidth or the host's used figure is missing or zero. A non-zero used figure grows by exactly the request. |
| NetworkConsumer.ConsumeFromInstanceCorrected | nova/scheduler/consumers/network.py:40-42 | Every host that tracks `network_used_mbps`, including one at zero, is charged exactly the request. Nothing else changes. |
| NetworkConsumer.ZeroUsedNeverCharged | nova/scheduler/consumers/network.py:41 | As written, a host whose used figure starts at zero stays unchanged, however many instances land on it. |
| NetworkConsumer.CorrectedChargesTotal | nova/scheduler/consumers/network.py:40-42 | Corrected, a tracking host ends up charged the sum of all requests, and its other keys are untouched. |
| NetworkConsumer.AgreeWhenUsedNonZero | nova/scheduler/consumers/network.py:40-42 | The written and corrected consumers agree on every host whose used figure is non-zero. |
| NetworkConsumer.UnitTestExample | nova/tests/scheduler/test_consumers.py:71-82 | 512 used plus a 512 request gives 1024. |
| NetworkConsumer.ZeroUsedExample | nova/scheduler/consumers/network.py:41 | With 0 used and a request of 512, the result is 0 as written and 512 once corrected. |
| OvsAddresses.GatewaysOn | plugins/xenserver/networking/etc/xensource/scripts/rs_ovs_configure_vif_flows.py:112-117 | A gateway is collected if and only if some route names it and it lies on the VIF's network under the netmask. |
| OvsAddresses.SnetGws | plugins/xenserver/networking/etc/xensource/scripts/rs_ovs_configure_vif_flows.py:102-125 | Never empty. The result is the on-network route gateways when there are any; otherwise it is the single address one above the network address. |
| OvsAddresses.DottedQuadRoundTrip | plugins/xenserver/networking/etc/xensource/scripts/rs_ovs_configure_vif_flows.py:123-125 | Every 32-bit number printed as `%d.%d.%d.%d` reads back as itself. |
| OvsAddresses.FallbackIsNextAddress | plugins/xenserver/networking/etc/xensource/scripts/rs_ovs_configure_vif_flows.py:119-125 | Without an on-network gateway, the address returned reads back as the network address plus one. |
| OvsAddresses.Slice | plugins/xenserver/networking/etc/xensource/scripts/rs_ovs_configure_vif_flows.py:86 | Python slicing clamps to the length: it agrees with a proper slice when that is in range and is never longer than the range. |
| OvsAddresses.WordsPacked | plugins/xenserver/networking/etc/xensource/scripts/rs_ovs_configure_vif_flows.py:92-98 | Cutting a number into 32-bit words, lowest first, and packing them big-endian keeps exactly its low `32n` bits. |
| OvsAddresses.LinkLocal | plugins/xenserver/networking/etc/xensource/scripts/rs_ovs_configure_vif_flows.py:80-99 | Any address produced fits in 128 bits. |
| OvsAddresses.ModifiedEui64 | plugins/xenserver/networking/etc/xensource/scripts/rs_ovs_configure_vif_flows.py:80-99 | For a well-formed MAC, the address is the fe80::/64 prefix plus the modified EUI-64 interface identifier of Appendix A of RFC 4291: `ff:fe` inserted after the third octet and the universal/local bit of the first octet inverted. The identifier fits in the low 64 bits. |
| OvsFlows.MarkerCookie | plugins/xenserver/networking/etc/xensource/scripts/rs_ovs_configure_vif_flows.py:128-131 | For a domain id below 2^16, the cookie's low 16 bits are the domain id and the rest is the VIF id. |
| OvsFlows.CookieFieldsRecovered | plugins/xenserver/networking/etc/xensource/scripts/rs_ovs_configure_vif_flows.py:46-49 | When the ids fit their 16-bit and 4-bit fields, masking with `DOM_ID_MASK` recovers the domain id. Masking with `VIF_ID_MASK` and shifting by 16 recovers the VIF id. |
| OvsFlows.DomIdRecovered | plugins/xenserver/networking/etc/xensource/scripts/rs_ovs_configure_vif_flows.py:46-49 | `DOM_ID_MASK` recovers any domain id below 2^16, whatever the VIF id. |
| OvsFlows.VifIdRecovered | plugins/xenserver/networking/etc/xensource/scripts/rs_ovs_configure_vif_flows.py:46-49 | `VIF_ID_MASK` and a 16-bit shift recover a VIF id below 16. |
| OvsFlows.ClearMask | plugins/xenserver/networking/etc/xensource/scripts/rs_ovs_configure_vif_flows.py:225-226 | `DOM_ID_MASK \| VIF_ID_MASK` is the low 20 bits. |
| OvsFlows.ClearMaskCoversCookie | plugins/xenserver/networking/etc/xensource/scripts/rs_ovs_configure_vif_flows.py:223-228 | The `clear_flows` mask leaves any in-range cookie whole. |
| OvsFlows.FromDict | plugins/xenserver/networking/etc/xensource/scripts/rs_ovs_configure_vif_flows.py:137-146 | A dictionary makes a fragment exactly when it has one entry. An empty dictionary is an error (`popitem` raises), and so is one with more than one entry. |
| OvsFlows.ParseSplits | plugins/xenserver/networking/etc/xensource/scripts/rs_ovs_configure_vif_flows.py:178-187 | A string splits at its first `=`; failing that, at its first `:`; failing that, it becomes a bare key. |
| OvsFlows.ParseRenderRoundTrip | plugins/xenserver/networking/etc/xensource/scripts/rs_ovs_configure_vif_flows.py:178-187 | With the default style, rendering a parsed string gives it back if and only if it contains `=` or contains no `:`. |
| OvsFlows.ParseRenderRoundTripAction | plugins/xenserver/networking/etc/xensource/scripts/rs_ovs_configure_vif_flows.py:172-187 | With the action style, every string without `=` round-trips. |
| OvsFlows.ColonRewritten | plugins/xenserver/networking/etc/xensource/scripts/rs_ovs_configure_vif_flows.py:182-187 | With the default style, `key:value` comes back as `key=value`. |
| OvsFlows.RenderParseRoundTrip | plugins/xenserver/networking/etc/xensource/scripts/rs_ovs_configure_vif_flows.py:148-187 | A fragment whose key holds no separator is parsed back from its own text. |
| OvsFlows.Convert | plugins/xenserver/networking/etc/xensource/scripts/rs_ovs_configure_vif_flows.py:163-187 | Converting a fragment input fails exactly for a dictionary without exactly one entry. |
| OvsFlows.ConvertAll | plugins/xenserver/networking/etc/xensource/scripts/rs_ovs_configure_vif_flows.py:159-161 | A run of inputs succeeds exactly when each input converts, and it gives their fragments in order. |
| OvsFlows.ConvertAllConcat | plugins/xenserver/networking/etc/xensource/scripts/rs_ovs_configure_vif_flows.py:159-161 | Converting two runs together is converting each and concatenating. |
| OvsFlows.Add | plugins/xenserver/networking/etc/xensource/scripts/rs_ovs_configure_vif_flows.py:159-161 | `OvsFlow.add` appends the converted inputs in order, or fails if any input fails. |
| OvsFlows.FlowFieldsRecoverable | plugins/xenserver/networking/etc/xensource/scripts/rs_ovs_configure_vif_flows.py:189-190 | When no fragment's text contains a comma, splitting a flow's text at commas gives back its fragments' texts. |
| OvsFlows.NewGroupFirstFlow | plugins/xenserver/networking/etc/xensource/scripts/rs_ovs_configure_vif_flows.py:194-213 | After its first successful add, a new group holds exactly one flow and renders as that flow. The flow starts with the given priority, or with the default 150 when none is given. |
| OvsFlows.AddedFlowCarriesIds | plugins/xenserver/networking/etc/xensource/scripts/rs_ovs_configure_vif_flows.py:202-210 | Every flow a group adds starts with the group's priority and, when the group has a domain, with its cookie. For ids within their 16-bit and 4-bit fields, the masks read the domain and VIF ids back from that cookie. |
| OvsFlows.GroupAdd | plugins/xenserver/networking/etc/xensource/scripts/rs_ovs_configure_vif_flows.py:202-210 | On success, exactly one flow is appended. Earlier flows and the group's settings are unchanged. |
| OvsFlows.GroupAddLayout | plugins/xenserver/networking/etc/xensource/scripts/rs_ovs_configure_vif_flows.py:202-210 | Adding succeeds exactly when both the forced fragments and the given ones convert. The new flow is the header, then the forced fragments, then the given ones. |
| OvsFlows.GroupLinesRecoverable | plugins/xenserver/networking/etc/xensource/scripts/rs_ovs_configure_vif_flows.py:212-213 | For a group with at least one flow, where no flow's text contains a line break, splitting the group's text at line breaks gives back the flows' texts, in order. |
| OvsFlows.ManagerOneFlowPerLine | plugins/xenserver/networking/etc/xensource/scripts/rs_ovs_configure_vif_flows.py:212-234 | When no group is empty, the manager's text, as fed to `ovs-ofctl add-flow`, is one line per flow in group order. |
| OvsFlows.ClearFlowsMarkerText | plugins/xenserver/networking/etc/xensource/scripts/rs_ovs_configure_vif_flows.py:223-228 | The `del-flows` match is `cookie=<cookie>/1048575`. |
| OvsFlowsExamples.DefaultDropFlow | plugins/xenserver/networking/etc/xensource/scripts/rs_ovs_configure_vif_flows.py:237-240 | The default drop group holds the single flow `priority=50,cookie=0,actions=drop`. |
| AddressView.BasicUuidKeepsOnlyVersionAndAddress | nova/api/openstack/compute/views/address_uuid.py:31-36 | Two ips give the same entry if and only if their versions, addresses and network ids agree, so nothing else of the ip dict reaches the view. |
| AddressView.Entries | nova/api/openstack/compute/views/address_uuid.py:42 | One entry per ip, in order. |
| AddressView.EntriesConcat | nova/api/openstack/compute/views/address_uuid.py:40-42 | Converting chained runs of ips is converting each run and chaining the results. |
| AddressView.Show | nova/api/openstack/compute/views/address_uuid.py:38-42 | A single key, the label. Its list holds the fixed ips followed by the floating ips, each run in order. |
| AddressView.ShowListsEveryAddress | nova/api/openstack/compute/views/address_uuid.py:38-42 | Reading the addresses back out of `show` gives the fixed addresses and then the floating ones, with nothing lost, added or reordered. |
| AddressView.ShowTagsWithNetworkId | nova/api/openstack/compute/views/address_uuid.py:42 | Every entry names the network's id. |
| AddressView.Index | nova/api/openstack/compute/views/address_uuid.py:44-51 | A single key, `addresses`, whose labels are exactly the networks' labels, each holding one entry per address. |
| AddressView.IndexOfOneIsShow | nova/api/openstack/compute/views/address_uuid.py:44-51 | For a single network, `index` holds exactly what `show` returns. |
| AddressView.IndexListsEachNetwork | nova/api/openstack/compute/views/address_uuid.py:44-51 | Each label lists its network's addresses, fixed before floating, all tagged with that network's id. |

## Left out

- Loading the cells configuration file: finding it, JSON parsing, and reloading on a new modification time. The configuration is a given map.
- CellsConfig.CellHasPermission: requires every `rules` entry to be a list of (role, action, permission characters) triples of strings. The source also runs on some other shapes, which are not modelled. An empty string, or any other empty iterable, as `rules` gives no decision. A rule written as a 3-character string unpacks into its three characters; the model can write that rule as a triple of one-character strings. A `perm_chars` given as a list tests whole list elements rather than characters. The shapes Python cannot iterate or unpack raise in the source, and that failure is not modelled either: a number or boolean as `rules`, a non-empty string as `rules`, a rule of the wrong length.
- CellsConfig.CellReadOnly: returns the truthiness of the `read_only` entry, where the source returns the raw value (`1`, `"yes"`, a list). Callers only test it for truth. Numbers are integers; floats are not modelled.
- The database lookup `db.instance_get_by_uuid` is a map from uuid to instance row.
- `msg_runner.schedule_run_instance` is not called. The filter returns `RoutedDirectly(cell)` in its place.
- All logging, and the log messages that list dropped cells.
- The near/far filter's in-place mutation of `scheduler_hints` is modelled as returning the remaining hints.
- NearFarFilter.AvoidCell: `cells.remove(cell)` removes the cell from the caller's own candidate list in place. The model returns a new list and leaves the caller's list alone, so that side effect on the caller is not modelled.
- RackspaceFilter.Overhead: the constants 0.00781 and 1.5 are used exactly. IEEE double rounding inside `math.ceil` is not modelled.
- Weights are real numbers, not floats.
- Weights.Apply: a weigher is a function from the whole weighed list and a position to a new weight. Weighers that mutate other state, or that read weights they have already updated within the same pass, are not modelled.
- Host states, flavors and `extra_specs` carry only the fields the core reads. In the network consumer, `extra_specs` values are integers, so the string values that `extra_specs` can hold in nova are not modelled.
- The Open vSwitch script's subprocess calls are not modelled: `xe`, `xenstore-read`, `xenstore-list`, `ovs-vsctl`, and the execution of `ovs-ofctl` (in `_add`, `flush` and `clear_flows`). Also left out are `main`, `get_base_flows`, `get_compute_flows` and the per-VIF rule sets they build, which all depend on those calls.
- `socket.inet_aton` is a parameter. `socket.inet_ntop` and `struct.pack` are not modelled: the IPv6 address is a 128-bit number.
- OvsAddresses.SnetGws: returns a set. The source returns `tuple(ret_set)`, whose order is the set's iteration order, and that order is not modelled. Only the set of gateways, with no duplicates, is.
- OvsAddresses.LinkLocal: the hex reading accepts only hex digits. Python's `int(s, 16)` also accepts a sign, a `0x` prefix and surrounding whitespace. The MAC comes from xenstore unstripped, so whitespace around it lands in the first or last token and Python accepts it. The model returns `None` for all these inputs, which are not modelled.
- OvsAddresses.DottedQuadRoundTrip: requires a 32-bit number. The `get_snet_gws` fallback for a network of 255.255.255.255 prints `256.0.0.0`, which does not read back.
- OvsFlows.MarkerCookie: domain and VIF ids are unbounded naturals. The recovery lemmas require the 16-bit and 4-bit ranges the masks assume.
- Fragment values are numbers or text, and `str()` of other Python objects is not modelled.
- OvsFlows.GroupAdd: keeps the group's forced fragments unchanged on every add. In the source, `OvsFragment.__init__` empties a dictionary with `popitem`, so a dictionary among `forced_fragments` is consumed by the first `add` and the second `add` raises. No caller in the script passes `forced_fragments`, and this consumption is not modelled.
- `nova/consumers.py` calls a misspelled method and is not part of this model. The same holds for the network clients, the API extensions, the database plumbing and the other wrappers in the repository.

## Findings

| source | as written | input that shows it | evidently intended | confidence | as-written member | corrected member |
|---|---|---|---|---|---|---|
| nova/cells/filters/rax_near_far.py:172-179 | `cells.remove(cell)` sits under `except KeyError`. A list raises `ValueError` when the cell is missing, so the handler never fires and the filter fails. | A `far` hint whose instance lives in `global!cell0`, with candidates `[cell1, cell2]`. | A cell that is already not a candidate is simply ignored. | not executed | NearFarFilter.FilterAll, NearFarExamples.FarMissingCellRaises | NearFarFilter.FilterAllCorrected, NearFarExamples.FarMissingCellIgnored |
| nova/scheduler/filters/rackspace_filter.py:145-150 | `target_spares = total_hosts / pct_spare` divides by the percentage. | `scheduler_spare_host_percentage = 20` with 50 hosts reserves 2 spares, not 10. Raising the percentage lowers the count. | Reserve `pct_spare` percent of the hosts: `total_hosts * pct_spare / 100`. The two agree at the default of 10. | not executed | RackspaceFilter.TargetSpares, RackspaceFilter.SparesDisagreeAtTwentyPercent | RackspaceFilter.TargetSparesCorrected, RackspaceFilter.FilterAllCorrected |
| nova/scheduler/consumers/network.py:40-42 | `if extra_resources.get('network_used_mbps'):` tests truthiness. | A host reporting `network_used_mbps = 0` is never charged, so it stays at 0 after any number of 512 Mbps builds. | Charge every host that tracks the figure, including one at zero. | not executed | NetworkConsumer.ConsumeFromInstance, NetworkConsumer.ZeroUsedNeverCharged | NetworkConsumer.ConsumeFromInstanceCorrected, NetworkConsumer.CorrectedChargesTotal |
