# Verified model of commatrix

The program builds a communication matrix for a cluster: port entries and port ranges, collected from
endpoint slices, static tables, custom files and the listening sockets of the nodes. It merges the sources,
removes duplicates, squashes ranges, splits the result by node group, and prints it as firewall rules, CSV
or a diff. This project models that path from its inputs to its outputs and proves what the program
promises about it. `dafny verify dfyconfig.toml` checks everything.

## The main results

- **The rules admit exactly what was asked for** (`Pipeline.GenerateRules`, `Pipeline.SocketsAreOpenExactly`).
  From services, nodes, custom groups, static and custom entries and the sockets collected on the nodes, and
  whatever the order of sets, maps and goroutines, the port lists in the rules of a node group, read back as
  numbers and ranges, admit a port if and only if some source has it for the group and protocol, some range of
  the protocol holds it, or a node of the group listens on it. Merging, deduplication, squashing, splitting
  and printing lose and invent nothing. What the files print is stated too: the entries of the group in order,
  then one squashed list of ranges. When the program fails instead is stated exactly.
- **Squash is exact and canonical, and minimal exactly when** (`Squash`, `Minimality`). It covers the same
  ports even for inverted ranges. Up to inverted ranges, the result depends on the covered ports alone, hence
  not on the unstable sort. For every way to sort ties no list with the same coverage is shorter, exactly when
  each inverted input is absorbed: the port before it is covered, or it runs from `n` to `n - 1` and `n` is
  covered. A lone inverted range, which a custom file may hold, is a counterexample.
- **Normalising has one answer** (`NormalForm`). Deduplication on the printed key followed by any sort at all
  gives the unique strictly increasing sequence of first occurrences. It keeps every flow exactly when no two
  flows print one key, and which do is decided in their fields. The algebra of `Merge` follows (`Matrix`), and
  so does independence of map order (`EndpointMatrix`) and of the schedule of the concurrent collection.
- **The collection is a lock protocol** (`ListeningSockets`). On every run at most one goroutine holds the
  lock, the holder can move, and anyone waiting can take a free lock; every run ends within five steps a node.
  The results of a successful run are whole blocks in one order of the nodes, and every order occurs.
- **The diff is set difference** (`MatrixDiff`), although statuses are looked up by printed line and presence
  is decided by key. Printed, filtered by status and parsed, it gives back its own unique entries (`DiffCsv`).
- **Printers and readers are inverse**: port ranges and port lists (`PortText`), CSV rows (`Csv`), diff text
  (`DiffText`), rendered configuration names (`RenderedConfig`), controller names (`Pods`), Butane blocks
  (`Butane`).

## How the model is built

Slices that the program sorts in place are arrays, slices it appends to are sequences, and objects with
methods that update them are classes (`ComMatrix`, `DynamicRangeList`, `EndpointSlicesExporter`,
`NodeGroups`). Each loop is a loop. `slices.SortFunc` is known only by its contract, a sorted permutation, so
nothing depends on how it treats ties. A walk over a map or set picks any remaining element. The concurrent
collection is a transition system whose steps are those between which the scheduler may switch; a theorem
about it is about every run. Where a slice expression could run out of range, or a lookup or parse can fail,
the result says so.

Three places where code and comments differ; the model follows the code. `Squash` does not merge all ranges
of a flow into one, as its comment says, but only ranges that overlap or touch: by
`Minimality.SingleRangeExactly` a flow comes out as one range, if any, exactly when its covered ports have no
gap. `Merge` sorts and merges the
ports; the ranges are only put one after the other. `ExpandStaticEntriesByPool` returns the static entries
unexpanded when no node holds a role.

Two promises fail on some inputs. Deduplication can drop a flow: `NormalForm.KeysCollideExactly` says which
entries print one key, in their fields, and `NormalForm.NormaliseKeepsFlowsExactly` that these are the only
cases; `NormalForm.NegativePortsCollide` and `NormalForm.HyphenatedProtocolsCollide` show two pairs of which one
is dropped. Entries with non-negative ports and protocols without hyphens never collide
(`NormalForm.KeysDecideExactly`), so the pipeline theorem holds for all such inputs (`Pipeline.PlainIsDecided`).
And squashing can leave a range too many: `Minimality.SquashIsMinimal` says when, `Minimality.LoneInvertedIsLeft`
and `Minimality.TiesCanShow` show it.

## Model

| member | source | states |
|---|---|---|
| Sorting.SortFunc | pkg/types/types.go:140-148 | in place, leaves a sorted permutation and promises nothing about ties |
| Types.CompareRangesIsComparator | pkg/types/types.go:140-148 | the order on ranges is consistent and transitive, as the sort demands |
| Types.CompareDetailsIsComparator | pkg/types/types.go:429-441 | the order on entries is consistent and transitive, as the sort demands |
| Types.ComparatorsOrderFields | pkg/types/types.go:140-148 | one entry or range comes before another exactly when its group, protocol and port, or direction, protocol and first port, do, in that order, strings lexicographically |
| Text.CompareIsLexicographic | pkg/types/types.go:429-441 | a string is smaller exactly when it is a proper prefix or has the smaller character at the first difference |
| Squash.Merge | pkg/types/types.go:117-127 | merges exactly when CanMerge allows, changes that one element, and leaves the list alone otherwise |
| Squash.MergeAdjacent | pkg/types/types.go:150-158 | the sweep over the sorted slice computes the fold that the theorems are about |
| Squash.DynamicRangeList.Squash | pkg/types/types.go:134-159 | the old storage is left sorted, the new storage holds the sweep of it; a list of fewer than two is untouched |
| Squash.SquashKeepsCover | pkg/types/types.go:106-127 | a direction, protocol and port is covered after squashing exactly when it was before, inverted ranges included |
| Squash.SweepKeepsDescriptions | pkg/types/types.go:124 | the descriptions of the result, joined by spaces, are those of the sorted input joined by spaces |
| Squash.SquashSeparates | pkg/types/types.go:106-111 | for every input, ranges of one flow leave a port between them; no inverted range comes out if none goes in |
| Squash.SquashIsInOrder | pkg/types/types.go:134-159 | for every input the ranges come out by direction, then protocol, then ports, with a port left out between two of one flow |
| Squash.SquashLeavesGaps | pkg/types/types.go:106-111 | the ports before and after an output are covered by no input |
| Squash.SquashDependsOnCoverOnly | pkg/types/types.go:134-159 | two inputs that cover the same ports squash to the same sequence of direction, protocol and bounds, up to inverted ranges |
| Minimality.SquashIsMinimal | pkg/types/types.go:106-159 | every sort of the input leaves a shortest list with its coverage, exactly when the port before each inverted input is covered, or it is n to n-1 and n is covered; always when no input is inverted |
| Minimality.ShortestIsWellFormed | pkg/types/types.go:134-159 | one result is a shortest list with the coverage of the input exactly when it holds no inverted range |
| Minimality.LoneInvertedIsLeft | pkg/types/types.go:134-137 | a single inverted range comes out, though the empty list covers as much |
| Minimality.TiesCanShow | pkg/types/types.go:139-158 | of a range and an inverted one that tie with it, either one or two ranges come out |
| Minimality.AbsorbedIsCanonical | pkg/types/types.go:134-159 | with every inverted input absorbed, two inputs that cover the same ports squash to the same bounds throughout |
| Minimality.SingleRangeExactly | pkg/types/types.go:129-133 | a flow comes out as at most one range exactly when its covered ports have no gap |
| Squash.SquashIgnoresOrder | pkg/types/types.go:139-148 | reordering the input, or sorting it differently, changes nothing but descriptions |
| Squash.SquashContainsOnce | pkg/types/types.go:150-158 | every input that is not inverted lies inside exactly one output, whatever the other inputs are |
| Squash.SquashJoinsOptional | pkg/types/types.go:125 | an output is optional exactly when all the inputs inside it are |
| Squash.SquashIsIdempotent | pkg/types/types.go:134-159 | squashing again gives the same ranges, descriptions included, whichever sort is used |
| NormalForm.KeyIsInjective | pkg/types/types.go:448-453 | Equals decides equality of group, port and protocol on plain entries, with hyphens allowed in groups |
| NormalForm.TailEndsExactly | pkg/types/types.go:421-425 | for different ports or protocols, the printed tail of one ends with that of the other exactly when its port is the negative of the other and protocols agree, or the protocol with its hyphen ends so |
| NormalForm.KeysCollideExactly | pkg/types/types.go:421-425 | two distinct flows print one key exactly when, in one of them, the sign of the port, or the port and the front of a hyphenated protocol, can be read as the end of the group |
| NormalForm.NormaliseKeepsFlowsExactly | pkg/types/types.go:421-425 | deduplication keeps every flow of its input exactly when entries of the input that print one key are one flow |
| NormalForm.KeysDecideExactly | pkg/types/types.go:421-425 | that holds exactly when no entry reads as another, and always with non-negative ports and hyphen-free protocols |
| NormalForm.NegativePortsCollide | pkg/types/types.go:421-425 | with a negative port two distinct flows share a key and one is dropped |
| NormalForm.HyphenatedProtocolsCollide | pkg/types/types.go:421-425 | with a hyphen in a protocol two distinct flows share a key and one is dropped |
| NormalForm.TiesShareKey | pkg/types/types.go:429-441 | entries tie in the comparator exactly when their triples agree, and then they share a key |
| NormalForm.NormalFormExists | pkg/types/types.go:417-442 | arranging the first entries gives a strictly increasing sequence that holds the first entry of each key and nothing else |
| NormalForm.NormalFormIsUnique | pkg/types/types.go:417-442 | there is only one such sequence |
| NormalForm.AnySortNormalises | pkg/types/types.go:417-442 | deduplicating and then sorting with any algorithm gives the normal form |
| NormalForm.NormaliseIsInOrder | pkg/types/types.go:429-441 | the normal form is ordered by group, then protocol, then port, each strictly, in the fields |
| NormalForm.NormaliseAbsorbs | pkg/types/types.go:417-442 | normalising is idempotent, and normalising a part first makes no difference |
| NormalForm.NormaliseKeepsFlows | pkg/types/types.go:421-425 | where no two flows print one key, a flow is there before deduplication exactly when it is after |
| NormalForm.KeysDecideTriples | pkg/types/types.go:417-442 | there, two inputs with the same keys normalise to the same sequence of group, protocol and port |
| Matrix.ComMatrix.Contains | pkg/types/types.go:322-330 | true exactly when some entry shares the key |
| Matrix.ComMatrix.SortAndRemoveDuplicates | pkg/types/types.go:417-442 | replaces the ports by their normal form, ordered by group, protocol and port |
| Matrix.ComMatrix.Merge | pkg/types/types.go:389-414 | all four nil cases; two matrices give a fresh one, sharing no storage, and stay as they are |
| Matrix.MergeIsAssociative | pkg/types/types.go:389-414 | merging is associative on ports and ranges, exactly |
| Matrix.MergeIsLeftBiased | pkg/types/types.go:389-414 | the merge holds the left's entries, and the right's where the left lacks the key |
| Matrix.MergeKeysCommute | pkg/types/types.go:389-414 | the keys of a merge are the union of the keys, in either order |
| Matrix.ComMatrix.SeparateMatrixByGroup | pkg/types/types.go:281-298 | one matrix for each non-empty group, with the entries of the group in order and every range |
| Matrix.FilterOutPortsInDynamicRanges | test/e2e/validation_test.go:241-259 | keeps, in order, the entries that no range of their protocol holds |
| Matrix.SquashKeepsTheFilter | test/e2e/validation_test.go:241-259 | filtering against squashed ranges equals filtering against the originals |
| PortText.RangeRoundTrip | pkg/types/types.go:681-695 | parsing inverts printing a range exactly when neither bound is negative, and is an error otherwise |
| PortText.ToNFTables | pkg/types/types.go:332-353 | prints the TCP and UDP port lists, entries before ranges, joined by a comma and a space |
| PortText.PortListRoundTrip | pkg/types/types.go:332-353 | a printed port list reads back as the ports and ranges of its protocol, in order |
| PortText.PortListAdmits | pkg/types/types.go:332-353 | a printed port list admits exactly the ports of its protocol's entries and ranges |
| Generate.WriteMatrixToFileByType | pkg/types/types.go:240-256 | a rule set for every non-empty group that has an entry and for no other |
| Generate.WriteMergedMatrix | cmd/generate/generate.go:315-337 | fails on a nil matrix only; otherwise every file prints the merged entries of its group and then one squashed list of all the ranges, in which two of one flow neither overlap nor touch; the rules of each group admit exactly the flows of the two matrices, unless a number is negative or two flows print one key |
| Pipeline.GenerateRules | cmd/generate/generate.go:289-337 | fails exactly when there is no node map, an exposed slice has a controller without a name or a node fails to list its sockets; otherwise, however sets, maps and goroutines are scheduled, the files print the normal form of all sources and a squashed list of the ranges, and the rules admit exactly what exposed endpoint ports, nodes, static and custom entries, sockets and ranges ask for, each said in its fields |
| Pipeline.PlainIsDecided | cmd/generate/generate.go:289-337 | the condition of the theorem holds for all inputs with non-negative ports and hyphen-free protocols |
| Pipeline.SocketsAreOpenExactly | cmd/generate/generate.go:297-337 | the TCP or UDP list of a group admits a port exactly when a source of the group, a range, or a socket of that protocol on a node of the group has it |
| MatrixDiff.Generate | pkg/matrix-diff/matrix-diff.go:28-53 | the combined ports are those of the merge; later lines overwrite the statuses of earlier ones |
| MatrixDiff.EntriesWith | pkg/matrix-diff/matrix-diff.go:79-115 | each projection keeps, in order, the entries whose line has its status |
| MatrixDiff.LineDeterminesKey | pkg/types/types.go:444-453 | comma-free direction, protocol and group make entries that print alike share a key |
| MatrixDiff.StatusIsByKey | pkg/matrix-diff/matrix-diff.go:32-48 | the status of a combined entry says in which matrices its key occurs |
| MatrixDiff.ProjectionsAreSetDifferences | pkg/matrix-diff/matrix-diff.go:79-115 | what each projection holds, entry for entry; shared entries carry the primary's details |
| MatrixDiff.ProjectionKeys | pkg/matrix-diff/matrix-diff.go:79-115 | the keys are primary minus secondary, secondary minus primary, and the intersection |
| MatrixDiff.ProjectionsPartition | pkg/matrix-diff/matrix-diff.go:79-115 | the normalised union is shared out, each entry to one projection, by whether the primary, the secondary or both have its key |
| MatrixDiff.DiffSwaps | pkg/matrix-diff/matrix-diff.go:79-102 | unique-secondary of (a, b) is unique-primary of (b, a), as a sequence |
| MatrixDiff.DiffRebuildsPrimary | pkg/matrix-diff/matrix-diff.go:79-115 | merging unique-primary with shared rebuilds the normalised primary |
| DiffText.String | pkg/matrix-diff/matrix-diff.go:55-76 | the header line and one marked line for each combined entry |
| DiffText.ExtractDiffByStatus | test/e2e/validation_test.go:288-307 | the text of the first line and the cut lines of the status, or none where the slice would be out of range |
| DiffText.ExtractInvertsString | test/e2e/validation_test.go:288-307 | reading the + or - lines of a printed diff gives the text of the header and the unmarked lines of exactly the unique entries |
| DiffCsv.LineIsRead | pkg/types/types.go:444-446 | a printed entry without commas and quotes is the CSV record of that entry |
| DiffCsv.DiffRoundTrip | test/e2e/validation_test.go:261-271 | a diff that is printed, filtered by status and parsed gives exactly the entries unique to the primary or the secondary, in order |
| DiffCsv.DiffReadsBack | pkg/matrix-diff/matrix-diff.go:55-76 | a printed diff reads back as every combined entry with its status, shared ones included, in order |
| Nodes.GetPoolRolesForStaticEntriesExpansion | pkg/mcp/mcp.go:49-65 | a pool lists a role exactly when one of its nodes holds it |
| EndpointMatrix.ExpandStaticEntriesByPool | pkg/commatrix-creator/commatrix.go:178-194 | for each entry, one copy for each pool with its role, in the order in which the map is walked |
| EndpointMatrix.BlockIsDistinct | pkg/commatrix-creator/commatrix.go:178-194 | no pool gets two copies of one entry |
| EndpointMatrix.MapOrderDoesNotShow | pkg/commatrix-creator/commatrix.go:178-194 | after normalising, the order of the walks does not show, whatever surrounds the entries |
| EndpointMatrix.CreateEndpointMatrix | pkg/commatrix-creator/commatrix.go:88-141 | fails exactly when an owned, exposed slice has a controller whose name does not resolve; otherwise the normal form of endpoint, expanded static and custom entries, in that order, with dynamic and custom ranges |
| EndpointMatrix.EarlierSourceWins | pkg/commatrix-creator/commatrix.go:118-139 | where sources share a key, the matrix has the endpoint entry, or else the expanded static one, or else the custom one |
| EndpointMatrix.StaticEntriesAreCovered | pkg/commatrix-creator/commatrix.go:115-141 | a static entry for a role held by a node is in the matrix under the node's group |
| EndpointMatrix.ExpandedEntriesHaveNodes | pkg/commatrix-creator/commatrix.go:178-194 | an expanded entry comes from a node with its role, unless no node holds any role |
| EndpointMatrix.RunsAgreeOnKeys | pkg/endpointslices/endpointslices.go:313-318 | every run of the assembly gives the same keys |
| EndpointMatrix.RunsAgreeOnFlows | pkg/endpointslices/endpointslices.go:313-318 | on plain inputs every run of the assembly gives the same sequence of group, protocol and port |
| CustomGroups.NodeGroups.ApplyCustomNodeGroupOverrides | pkg/types/types.go:498-533 | succeeds exactly when every selector matches the labels of a mapped node and none matches two of them; then a node whose labels match is in that custom group and every other is where it was; even on failure a node only moves to a group that matches its labels |
| CustomGroups.NodeGroups.ApplyGroup | pkg/types/types.go:512-525 | one group: the mapped nodes it selects move to it, or one was recorded before |
| CustomGroups.OutcomeIsUnique | pkg/types/types.go:510-530 | on success the map is the same for every order of the walks |
| CustomGroups.DistinctNamesAreFound | pkg/types/types.go:503-506 | with distinct names a node is found under its name |
| CustomGroups.NamedStands | pkg/types/types.go:503-506 | a name stands for the last node listed under it |
| CustomGroups.DistinctNamesStand | pkg/types/types.go:503-506 | with distinct names every listed node stands for its name |
| ListeningSockets.SuccessIsOneOrder | pkg/listening-sockets/listening-sockets.go:61-106 | on every successful run each node is committed once, and details and both texts are whole blocks in one order |
| ListeningSockets.TextsAreLines | pkg/listening-sockets/listening-sockets.go:94-99 | the raw texts are, for each node of the order, a line with its name and the lines of its listing |
| ListeningSockets.CollectedExactly | pkg/listening-sockets/listening-sockets.go:118-172 | what is collected are the parsed sockets of all nodes, each as parsed but for the protocol of its listing, the group of its node, and never optional |
| ListeningSockets.EveryOrderSucceeds | pkg/listening-sockets/listening-sockets.go:92-106 | every order of the nodes is the order of the results of some successful run |
| ListeningSockets.ExclusionAndProgress | pkg/listening-sockets/listening-sockets.go:92-100 | at most one goroutine is between lock and release; the holder can always move; when the lock is free any working goroutine can take it, and there is one unless all have returned |
| ListeningSockets.RunsEnd | pkg/listening-sockets/listening-sockets.go:66-106 | a run has at most five steps a node, and one that cannot be continued has finished |
| ListeningSockets.RunsAgreeOnFlows | pkg/listening-sockets/listening-sockets.go:104-116 | all successful runs give the same keys and, with non-negative ports, the same sequence of group, protocol and port |
| ListeningSockets.ScheduleDoesNotShow | pkg/listening-sockets/listening-sockets.go:104-116 | with distinct groups and non-negative ports the matrix is the same for every schedule |
| ListeningSockets.SocketsAreKept | pkg/listening-sockets/listening-sockets.go:118-172 | every socket of every node is in the matrix, under the node's group |
| EndpointSlices.GetEndpointSlicePortsFromPod | pkg/endpointslices/filter.go:15-31 | every endpoint port with every container port of its number, in order |
| EndpointSlices.FilterEndpointPortsByPodHostPort | pkg/endpointslices/filter.go:34-43 | keeps the pairs whose container port has a host port, in order |
| EndpointSlices.FilterOutLocalhostPorts | pkg/endpointslices/filter.go:47-56 | drops the pairs whose container port is bound to localhost |
| EndpointSlices.ExposedExactly | pkg/endpointslices/endpointslices.go:118-138 | a port is kept exactly when a container port with its number is not bound to localhost and, off the host network, one has a host port; kept ports have numbers |
| EndpointSlices.ExposedKeepsOrder | pkg/endpointslices/endpointslices.go:118-138 | the kept ports are the given ones in order, each repeated in place once for every matching container port |
| EndpointSlices.EndpointSlicesExporter.LoadExposedEndpointSlicesInfo | pkg/endpointslices/endpointslices.go:75-148 | loads the exposed ports of each service that has a slice, a selector and pods, and nothing else |
| EndpointSlices.GetEndpointSliceGroups | pkg/endpointslices/endpointslices.go:179-199 | the distinct non-empty groups of the endpoints, in increasing lexicographic order |
| EndpointSlices.ToComDetailsWithGroups | pkg/endpointslices/endpointslices.go:201-244 | the two errors exactly; otherwise, as a set, ports times groups, each entry said field by field |
| EndpointSlices.EntryIsForPort | pkg/endpointslices/endpointslices.go:229-239 | the entry of a port and a group has their protocol, number and group, the names of the service, the controller and the first container that lists the port, and is determined by them |
| EndpointSlices.ContainerNameIsFirst | pkg/endpointslices/endpointslices.go:246-276 | the container is the first that lists the port, and none exactly when none does |
| EndpointSlices.RemoveDups | pkg/endpointslices/endpointslices.go:313-318 | the distinct entries in an arbitrary order |
| EndpointSlices.EndpointSlicesExporter.ToComDetails | pkg/endpointslices/endpointslices.go:150-169 | slices without an owner are skipped, an unresolved name is an error, the rest give all their entries, each once, in any order |
| Pods.ControllerNameIsInverse | pkg/endpointslices/endpointslices.go:278-302 | the name resolves to N exactly when the pod has no owner and is named N, is a static pod named N-node, belongs to ReplicaSet N-hash with a hyphen-free hash, or to another known controller named N |
| EndpointSlices.LoadedEntries | pkg/endpointslices/endpointslices.go:75-244 | the entries are exactly those of exposed ports and groups of the endpoints of owned slices, field by field |
| Csv.ToCSV | pkg/types/types.go:161-192 | one row for each entry, then one for each range, column by column |
| Csv.RowIsTaken | pkg/types/types.go:627-658 | a blank port is skipped, a number adds the entry and two numbers around one hyphen the range, column by column and with white space allowed; anything else is an error |
| Csv.ParseCSVToComMatrix | pkg/types/types.go:610-661 | rows classified one after another; the first bad row fails the file |
| Csv.CsvRoundTrip | pkg/types/types.go:577-661 | the rows parse back to the matrix, in order, exactly when no port or bound is negative |
| RenderedConfig.PoolNameIsInverse | pkg/mcp/mcp.go:35-45 | a name yields P exactly when it is rendered-P-hash with P non-empty and the hash free of hyphens |
| RenderedConfig.ResolveNodeToPool | pkg/mcp/mcp.go:18-33 | succeeds exactly when every annotation is well formed; each name maps to the pool of its last node |
| NodeMap.GetNodeRole | pkg/types/types.go:471-491 | master before worker before any other role label, of several any; none exactly when there is no role label |
| NodeMap.BuildNodeToGroupMap | pkg/types/types.go:538-552 | succeeds exactly when every node has a node pool or a role; each name maps to that of its last node |
| NodeMap.BuildNodeMap | pkg/endpointslices/endpointslices.go:51-71 | pools, or else node pools and roles, then custom groups; succeeds exactly when one of the first two does and the custom groups apply |
| NodeMap.NodeMapIsUnique | pkg/endpointslices/endpointslices.go:51-71 | where no node has a choice of role labels, the node map does not depend on the order of labels, groups or nodes |
| Butane.IndentContent | pkg/firewall/machineconfig.go:122-129 | every line indented, in place |
| Butane.BuildButaneBlock | pkg/firewall/machineconfig.go:60-65 | the embedded block, line for line; it reads back as the two table lines, everything after the first line break of the rules, and a blank line |
| Butane.BlockRoundTrip | pkg/firewall/machineconfig.go:99-104 | without its indentation the block is the two table lines, every line of the rules after the first, and a blank line |

## Left out

- Integers are unbounded: the wrap-around of `MaxPort + 1` at the largest 64-bit integer and the range error of `strconv.Atoi` are not modelled.
- Kubernetes and OpenShift clients, pods, commands, files and flags: services, pods, nodes and socket listings are inputs, and a result is returned instead of written.
- Byte encodings (JSON, YAML, quoted CSV, other spellings of booleans in CSV) and the translation from Butane to MachineConfig: CSV is modelled as records, and for the diff as lines of nine comma-separated fields in the order of the header.
- The text of the rules around the two port lists, the Butane file before the block, the systemd unit and the disruption policy: constants.
- Label selectors: any fixed predicate on group and labels.
- Recognising loopback addresses, sockets and containers in the output of `ss`: the parsed entries of a node are inputs.
- Pods.ExtractControllerName: a ReplicaSet name without a hyphen, on which the program stops with a slice out of range, counts as a failure like an unresolved name.
- Discovering dynamic ranges in the cluster: the ranges found are an input.
- The groups under which sockets are collected are part of the cluster: the program builds a second node map for them, in the same way.
- The static tables, the Butane version, platform and topology checks: single cases.
- Error texts, and which of several errors is reported: only when an operation fails is modelled.
- Which details survive when endpoint entries or sockets collide on a key: this depends on set order or schedule, so keys and flows are claimed.
- Matrix.ComMatrix.SeparateMatrixByGroup: the group matrices hold the ranges by value; that they share one slice is not captured, and nothing writes to it afterwards.
- Sorting.SortFunc: insertion sort stands for the library's sort; only its contract is used.
- DiffText.String: the column names are a parameter, since they come from struct tags.
