# bazel2snyk graph construction, in Dafny

This project models the engine of bazel2snyk. The engine reads the rules of a Bazel query dump
and turns the dependency tree of one Bazel target into a Snyk dependency-graph document. The
model has three parts, matching the three parts of the program.

- **Rule index and coordinate resolver** (`bazel.dfy`, module `Bazel`).
  - Labels are classified into dependency, internal target, external target or other.
  - Rules pass a build-file location filter (`…/BUILD[.bzl|.bazel]:N:N`).
  - Class `RuleIndex` finds the children of a label: `deps` lists, else `runtime_deps` lists,
    with a per-label cache.
  - A dependency label resolves to coordinates. The maven source reads a
    `maven_coordinates=` tag; the pip source reads a `data` label.
  - Coordinates become `name@version`: the right-most `:` (maven) or the right-most `-` of the
    `dist-info` capture (pip) turns into `@`.
- **Dependency-graph document** (`graph_doc.dfy`, `depgraph.dfy`, `snyk_dep_graph.dfy`).
  - The document is a package list and a node list; each node lists its children's ids.
  - `GraphDoc` states each update as a function of the old document, with its properties:
    `add_pkg`, `add_dep`, `remove_dep`, `prune_dep` (which moves an id under the node
    `meta-common-packages@meta`), and sequences of prunes.
  - `DepGraph.DepGraph` is the record-based class. Its methods change the package list, the
    node list and two repetition counters in place, and include both pruning policies.
  - `SnykDepGraph.DepGraph` is the older dict-based twin, without counters.
  - `PathCounts` holds the counters: dicts kept in insertion order, because that order decides
    the order in which ids are pruned.
- **Walk driver** (`cli.dfy`, module `Cli`).
  - Class `Walk` is the module-level state `g`: the graph, the rule index, the processed lists
    and the counters.
  - `BazelToDepGraph` is the recursive walk. Each child of a label is recorded under it, and
    is walked unless an earlier leaf has already marked it processed.
  - On rules that form an acyclic graph, the walk ends. The labels it has walked form a closed
    set, and every edge below them is in the graph.
  - `Generate` runs the walk from a target and then the chosen pruning pass.
  - `cli.py:107` builds the graph with two arguments (a manager name and a debug flag). That is
    the constructor of the class in `snyk_dep_graph.py`, so the walk drives
    `SnykDepGraph.DepGraph`; the counters live in the walk state, as `cli.py:55-56` has them.

Python's string and list operations are written out with their edge cases in `pystr.dfy`: `rfind`
answers -1, `s[:-1]`, `split`, `find` and `list.index`. Regular expressions are hand-coded predicates.
The location pattern is proved equal to its declarative reading, `Bazel.BuildLocationIsPattern`.

## Model

| member | source | states |
|---|---|---|
| PyStr.RFind | bazel2snyk/depgraph.py:95 | `rfind` answers the last index of the character, or -1 exactly when it is absent |
| PyStr.IndexOf | bazel2snyk/bazel.py:73 | the cut of `split(...)[0]` (and `list.index`) is at the first occurrence, or -1 exactly when absent |
| PyStr.SingleOccurrence | bazel2snyk/depgraph.py:290-292 | an id with exactly one `@` has its first and last `@` at the same place, so two-field unpacking succeeds |
| PathCounts.Put | bazel2snyk/depgraph.py:83 | dict assignment sets the key, keeps every other count, keeps key order and appends only a new key |
| PathCounts.Increment | bazel2snyk/cli.py:298-302 | `d[k] = d.get(k, 0) + 1` raises only that key's count, by one, and appends a new key at the end |
| PathCounts.Merge | bazel2snyk/depgraph.py:249 | `m.update(u)`, entry by entry: `MergeGet` and `MergeKeepsOrder` show a key of `u` gets `u`'s count, any other keeps `m`'s, and existing keys keep their places |
| PathCounts.MergeGet | bazel2snyk/depgraph.py:249 | after `update`, a key of the second dict carries its count (overwriting), any other key keeps the first dict's count |
| PathCounts.MergeKeepsOrder | bazel2snyk/depgraph.py:249 | `update` keeps existing keys in place and never duplicates a key |
| PathCounts.CountsAtMostSum | bazel2snyk/depgraph.py:252-260 | no count exceeds the total, so the percentage never divides by zero when a count is above 1 |
| PathCounts.Total | bazel2snyk/depgraph.py:252-255 | the summing loop answers the sum of all counts |
| PathCounts.CeilPercent | bazel2snyk/depgraph.py:260 | the rounded-up percentage `r` satisfies `(r-1)*total < 100*count <= r*total` |
| PathCounts.CeilPercentAbove | bazel2snyk/depgraph.py:260-264 | the rounded-up percentage exceeds `p` iff `100*count > p*total` |
| PathCounts.Selected | bazel2snyk/depgraph.py:258-268 | the keys the `prune_graph` loop picks, in iteration order: `SelectedMember` shows a key is picked iff one of its entries is repeated and passes a threshold |
| PathCounts.SelectedMember | bazel2snyk/depgraph.py:258-268 | an id is picked by the `prune_graph` loop iff one of its entries is counted more than once and passes a threshold |
| PathCounts.Above | bazel2snyk/depgraph.py:275-283 | the keys a `prune_graph_all` loop picks, in iteration order: `AboveMember` shows these are exactly the keys counted above the threshold |
| PathCounts.AboveMember | bazel2snyk/depgraph.py:275-283 | an id is picked by a `prune_graph_all` loop iff it is a key whose count exceeds the threshold |
| PathCounts.PruneIds | bazel2snyk/depgraph.py:249-268 | the ids `prune_graph` prunes, judged against the summed total: `PruneIdsMember` states the exact threshold rule |
| PathCounts.PruneIdsMember | bazel2snyk/depgraph.py:249-268 | `prune_graph` prunes `k` iff `k` is a key counted more than once, above the count threshold or with rounded-up percentage above the percentage threshold |
| Bazel.IsBuildLocation | bazel2snyk/bazel.py:54 | the location filter, read right to left: `BuildLocationIsPattern` proves it holds iff the location is a build file path followed by `:N:M` |
| Bazel.BuildLocationIsPattern | bazel2snyk/bazel.py:54 | the right-to-left location check holds iff some split `path:N:M` has a build file path and two digit runs |
| Bazel.GetNodeType | bazel2snyk/bazel.py:128-137 | the four-way classification, tested in the source's order: the lemmas below give each outcome and show the order decides between overlapping shapes |
| Bazel.DependencyWins | bazel2snyk/bazel.py:128-131 | a label starting with the alias of either source is a dependency, even when shaped like a target |
| Bazel.InternalTargetLabel | bazel2snyk/bazel.py:132-133 | `//path:name` with both parts non-empty is an internal target |
| Bazel.ExternalTargetLabel | bazel2snyk/bazel.py:134-135 | `@repo//path:name` outside the source aliases is an external target |
| Bazel.RootPackageTargetIsExternal | bazel2snyk/bazel.py:132-135 | `//:name` fails the internal shape and is classified external |
| Bazel.NoColonIsOther | bazel2snyk/bazel.py:136-137 | a label with no colon outside the source aliases is `Other` |
| Bazel.InternalHasExternalShape | bazel2snyk/bazel.py:132-135 | every internal label also fits the external shape, so the order of the tests decides |
| Bazel.MavenToSnyk | bazel2snyk/bazel.py:113-116 | the maven canonical form: `MavenToSnykReplacesLastColon` shows only the right-most `:` becomes `@` |
| Bazel.MavenToSnykReplacesLastColon | bazel2snyk/bazel.py:113-116 | only the right-most `:` becomes `@`; prefix, suffix and length are kept and no `:` follows it |
| Bazel.MavenToSnykExample | bazel2snyk/bazel.py:113-116 | `com.google.guava:guava:28.0-jre` becomes `com.google.guava:guava@28.0-jre` |
| Bazel.LastDistInfo | bazel2snyk/bazel.py:120 | finds the last `?dist-info` ending by a bound, or -1 when there is none |
| Bazel.PipDistribution | bazel2snyk/bazel.py:120 | the captured distribution never holds a `:` |
| Bazel.PipToSnyk | bazel2snyk/bazel.py:118-126 | the pip canonical form: unchanged without a match (`PipToSnykUnmatched`), else the capture with its right-most `-` turned into `@` (`PipToSnykOfCapture`, `PipToSnykAt`) |
| Bazel.PipToSnykUnmatched | bazel2snyk/bazel.py:118-126 | without a match the label is returned unchanged |
| Bazel.PipDistributionAt | bazel2snyk/bazel.py:120-122 | with `@`, `//pypi__`, the last colon, `dist-info` and the last `/` at given positions, the capture is the text between the colon and `.dist-info` |
| Bazel.PipToSnykOfCapture | bazel2snyk/bazel.py:118-126 | a matched label maps to its capture with the right-most `-` turned into `@` |
| Bazel.ReplaceLastDash | bazel2snyk/bazel.py:123-124 | replacing the last `-` of the capture joins the text around it with `@` |
| Bazel.PipToSnykAt | bazel2snyk/bazel.py:118-126 | the canonical pip form is the capture's text before and after its last `-`, joined by `@` |
| Bazel.DistInfoLayout | bazel2snyk/bazel.py:78 | a label `<@…//pypi__…>:<dist>.dist-info/<rest>` meets the position conditions of `PipToSnykAt`, with the capture's text around its last `-` being `dist`'s (so `requests-2.23.0` splits into `requests` and `2.23.0`) |
| Bazel.ToSnykHasAt | bazel2snyk/bazel.py:104-126 | the canonical form of either source contains an `@` (for pip, when the label has one) |
| Bazel.MavenCoordinates | bazel2snyk/bazel.py:88-102 | the text after the last `=` of the first `maven_coordinates=` tag, or the label when there is no such tag |
| Bazel.PipCoordinates | bazel2snyk/bazel.py:69-86 | the first data label starting with the label's text before its first `:`, or the label itself |
| Bazel.LastResolvingRule | bazel2snyk/bazel.py:51-65 | the index of the last rule passing location, name and repository tests, or -1 when none does |
| Bazel.Resolved | bazel2snyk/bazel.py:46-67 | the coordinates a dependency label resolves to: `ResolvedByLast` and `ResolvedLastMatchWins` show the last qualifying rule wins, and the raw label comes back when none qualifies |
| Bazel.ResolvedByLast | bazel2snyk/bazel.py:46-67 | the resolved coordinates are those of the last qualifying rule, or the raw label |
| Bazel.ResolvedLastMatchWins | bazel2snyk/bazel.py:46-67 | no qualifying rule leaves the label uncanonicalised; otherwise the last qualifying rule wins |
| Bazel.ExtractHasAt | bazel2snyk/bazel.py:64-66 | one qualifying rule's answer contains `@` for a label starting with `@` |
| Bazel.ResolvedHasAt | bazel2snyk/bazel.py:46-67 | resolution of a label under a repository alias always contains an `@` |
| Bazel.ChildrenOf | bazel2snyk/bazel.py:148-178 | the children the rules give a label, in document order: `ChildrenOfMember`, `ChildrenOfOther` and `ChildrenOfUnknown` give membership and the empty cases |
| Bazel.FlattenMember | bazel2snyk/bazel.py:173-178 | a value is collected iff it is in one of the lists read |
| Bazel.ChildrenOfOther | bazel2snyk/bazel.py:160-171 | a label classified `Other` has no children |
| Bazel.ChildrenOfUnknown | bazel2snyk/bazel.py:153-158 | a label with no rule of that name passing the location filter has no children |
| Bazel.ChildrenOfMember | bazel2snyk/bazel.py:153-178 | a child comes from some contributing rule, and every contributing rule's children are collected |
| Bazel.AppendLists | bazel2snyk/bazel.py:173-178 | the two inner loops append every value of every list, in order |
| Bazel.RuleIndex.constructor | bazel2snyk/bazel.py:34-44 | the index holds the rules, the manager name and an empty cache |
| Bazel.RuleIndex.GetChildrenFromRule | bazel2snyk/bazel.py:140-187 | answers exactly the scanned children; a cached label leaves the cache unchanged, a new one is appended; every cached list equals a fresh scan |
| Bazel.RuleIndex.ScanRules | bazel2snyk/bazel.py:148-178 | the rule loop collects each contributing rule's `deps` lists (else `runtime_deps`), rule after rule |
| Bazel.RuleIndex.GetCoordinatesFromBazelDep | bazel2snyk/bazel.py:46-67 | the loop's answer is the last qualifying rule's canonical coordinates, else the label |
| GraphDoc.PkgEntry | bazel2snyk/depgraph.py:95-101 | the record an id splits into at its right-most `@`: `PkgEntryOf`, `PkgEntryId` and `PkgEntryInjective` show `name@version` round-trips and distinct ids give distinct records |
| GraphDoc.PkgEntryOf | bazel2snyk/depgraph.py:92-101 | `name@version` with an `@`-free version splits back into that name and version |
| GraphDoc.PkgEntryId | bazel2snyk/depgraph.py:95-101 | an id with `@` is the id of its own record, and its version has no `@` |
| GraphDoc.PkgEntryInjective | bazel2snyk/depgraph.py:92-106 | two ids with `@` and the same record are equal |
| GraphDoc.PkgEntryNoAt | bazel2snyk/depgraph.py:95-99 | without `@` the name loses its last character (`s[:-1]`) and the version is the whole id |
| GraphDoc.AddPkgTo | bazel2snyk/depgraph.py:108-121 | the package list after `add_pkg`: `AddPkgToSpec` and `AddPkgToOnce` show the record is present, the old list is a prefix and nothing is duplicated |
| GraphDoc.AddPkgToSpec | bazel2snyk/depgraph.py:108-121 | after `add_pkg` the record is present, the old list is a prefix, at most one entry is added, and a repeat changes nothing |
| GraphDoc.AddPkgToOnce | bazel2snyk/depgraph.py:108-121 | `add_pkg` never duplicates a record: it is there exactly once, and a list without repeats stays so |
| GraphDoc.PkgIndex | bazel2snyk/depgraph.py:321-325 | the first package with that id, or -1 when none has it |
| GraphDoc.FindPkgIndex | bazel2snyk/depgraph.py:321-325 | the search loop answers the first package with that id, or -1 |
| GraphDoc.SplitJoin | bazel2snyk/depgraph.py:290-292 | the two fields of an id with one `@` join back into it and hold no `@` |
| GraphDoc.SplitInTwo | bazel2snyk/depgraph.py:290-292 | cutting at the first `@` or the last gives the same two fields |
| GraphDoc.RootPkg | bazel2snyk/depgraph.py:217-225 | the root record `set_root_node_package` writes, split at the first `@`: `RootPkgIsEntry` and `RootPkgOfTwoAts` compare it with the `has_pkg` record |
| GraphDoc.RootPkgIsEntry | bazel2snyk/depgraph.py:217-225 | for `name@version` the root package is the record `has_pkg` looks for |
| GraphDoc.RootPkgOfTwoAts | bazel2snyk/depgraph.py:217-225 | for `@repo//…@version` the root package gets an empty name where `has_pkg` splits at the last `@` |
| GraphDoc.NodeIndex | bazel2snyk/depgraph.py:312-319 | the first node with that id, or -1 when none has it |
| GraphDoc.FindNodeIndex | bazel2snyk/depgraph.py:312-319 | the search loop answers the first node with that id, or -1 |
| GraphDoc.AddDepTo | bazel2snyk/depgraph.py:137-190 | the node list after `add_dep`: the `AddDepTo…` lemmas show the edge is added once, nothing else changes, and a repeat is a no-op |
| GraphDoc.AddDepToShape | bazel2snyk/depgraph.py:137-190 | an existing parent only grows its deps; a missing one gets one appended node with `nodeId == pkgId == parent` and deps `[child]` or `[]` |
| GraphDoc.AddDepToEdge | bazel2snyk/depgraph.py:165-171 | after `add_dep` the parent (or the root) lists the child |
| GraphDoc.AddDepToDistinct | bazel2snyk/depgraph.py:169-171 | `add_dep` never lists a child twice under one node |
| GraphDoc.AddDepToIdempotent | bazel2snyk/depgraph.py:123-190 | a repeated `add_dep` changes nothing |
| GraphDoc.AddDepToMembers | bazel2snyk/depgraph.py:165-190 | apart from the added child, every node's children stay as they were |
| GraphDoc.AddDepToOtherEdge | bazel2snyk/depgraph.py:165-190 | apart from the added child, no edge is created or lost |
| GraphDoc.RemoveFirstMultiset | bazel2snyk/depgraph.py:213-215 | `list.remove` takes away exactly one copy when there is one |
| GraphDoc.RemoveFirstDistinct | bazel2snyk/depgraph.py:213-215 | in a list without repeats, removal leaves no copy and no repeats |
| GraphDoc.RemoveChild | bazel2snyk/depgraph.py:192-215 | each node's deps lose their first copy of the child, ids untouched; `RemoveChildSpec` shows no copy remains in a repeat-free graph |
| GraphDoc.RemoveChildSpec | bazel2snyk/depgraph.py:192-215 | after `remove_dep` no node lists the child; node ids and package ids stay |
| GraphDoc.RemoveChildMembers | bazel2snyk/depgraph.py:203-215 | `remove_dep` leaves every node's other children |
| GraphDoc.RemoveChildOtherEdge | bazel2snyk/depgraph.py:203-215 | `remove_dep` creates and loses no edge to any other child |
| GraphDoc.RenameNodeWellFormed | bazel2snyk/depgraph.py:294-298 | renaming the root node keeps a well-formed graph rooted at the new name |
| GraphDoc.PruneNodes | bazel2snyk/depgraph.py:232-241 | the node list after `prune_dep`: `PruneNodesSpec` shows the root lists the meta node and the meta node alone lists the id |
| GraphDoc.PruneNodesWellFormed | bazel2snyk/depgraph.py:232-241 | `prune_dep` keeps the graph well formed and the root lists the meta node |
| GraphDoc.PruneNodesUnderMeta | bazel2snyk/depgraph.py:232-241 | after `prune_dep(d)` the meta node lists `d` and no other node does |
| GraphDoc.PruneNodesSpec | bazel2snyk/depgraph.py:232-241 | after `prune_dep(d)`: well formed, root to meta edge, meta the only parent of `d` |
| GraphDoc.PruneNodesOtherEdge | bazel2snyk/depgraph.py:232-241 | `prune_dep(d)` creates and loses no edge to any child other than `d` and the meta node |
| GraphDoc.PruneNodesKeepsPruned | bazel2snyk/depgraph.py:232-241 | an id under the meta node alone stays so when another id is pruned |
| GraphDoc.PruneNodesKeepsMoved | bazel2snyk/depgraph.py:232-241 | an id already moved under the meta node stays moved when another id is pruned |
| GraphDoc.PruneAllNodesWellFormed | bazel2snyk/depgraph.py:270-283 | a sequence of prunes keeps the graph well formed and links root to meta |
| GraphDoc.PruneAllNodesLastMoved | bazel2snyk/depgraph.py:270-283 | the id pruned last ends up under the meta node alone |
| GraphDoc.PruneAllNodesStepMoved | bazel2snyk/depgraph.py:270-283 | one more prune keeps every earlier moved id moved |
| GraphDoc.PruneAllNodesMoved | bazel2snyk/depgraph.py:270-283 | every id of the sequence ends up under the meta node alone |
| GraphDoc.PruneAllNodesSpec | bazel2snyk/depgraph.py:270-283 | after the prunes: well formed, root to meta edge, and every pruned id listed by the meta node alone |
| GraphDoc.PruneAllNodesOtherEdge | bazel2snyk/depgraph.py:270-283 | pruning never touches an edge to a child that is not pruned |
| GraphDoc.PruneAllNodesKeepsIds | bazel2snyk/depgraph.py:232-241 | pruning any sequence of ids never removes or renames a node: every node keeps its place, node id and package id |
| GraphDoc.PruneAllNodesAppend | bazel2snyk/depgraph.py:275-283 | the two loops of `prune_graph_all` prune like one pass over both id lists |
| GraphDoc.PruneAllStep | bazel2snyk/depgraph.py:268 | pruning one more id prunes it from the graph the earlier ids left and needs the meta package |
| GraphDoc.PruneAllPkgsAppend | bazel2snyk/depgraph.py:275-283 | two pruning passes add the meta package once, like one pass |
| DepGraph.AboveMoves | bazel2snyk/depgraph.py:270-283 | every id a `prune_graph_all` loop picks ends up under the meta node alone |
| DepGraph.SelectedMoves | bazel2snyk/depgraph.py:258-268 | every id the `prune_graph` loop picks ends up under the meta node alone |
| DepGraph.DepGraph.constructor | bazel2snyk/depgraph.py:48-65 | the document holds only `app@1.0.0` and `root-node`, the counters are empty |
| DepGraph.DepGraph.IncrementDepPathCount | bazel2snyk/depgraph.py:78-83 | raises only that key's dependency count, by one |
| DepGraph.DepGraph.IncrementTargetPathCount | bazel2snyk/depgraph.py:85-90 | raises only that key's target count, by one |
| DepGraph.DepGraph.HasPkg | bazel2snyk/depgraph.py:92-106 | the record the id splits into at its right-most `@` is listed; `AddPkg` ensures it holds afterwards and answers its negation beforehand |
| DepGraph.DepGraph.AddPkg | bazel2snyk/depgraph.py:108-121 | answers true iff the record was missing, appends it then, and afterwards `has_pkg` holds |
| DepGraph.DepGraph.AddDep | bazel2snyk/depgraph.py:123-190 | counts a counted child in the counter of its kind, then lists it under the parent or root, creating a missing parent |
| DepGraph.DepGraph.CountChild | bazel2snyk/depgraph.py:127-135 | a non-empty child with no meta end raises the target count when it starts with `//`, else the dependency count, even for an existing edge |
| DepGraph.DepGraph.LinkChild | bazel2snyk/depgraph.py:137-190 | the node list becomes `AddDepTo` of the old one and the parent lists the child |
| DepGraph.DepGraph.RemoveDep | bazel2snyk/depgraph.py:192-215 | every node loses its first copy of the child and no node lists it afterwards |
| DepGraph.DepGraph.SetRootNodePackage | bazel2snyk/depgraph.py:217-230 | package 0, the root id and node 0 become the given id; the package is named by its first two `@` fields |
| DepGraph.DepGraph.PruneDep | bazel2snyk/depgraph.py:232-241 | adds the meta package once, links it to the root, moves the id under it; counters unchanged |
| DepGraph.DepGraph.PruneSelected | bazel2snyk/depgraph.py:258-268 | prunes exactly the selected keys in iteration order, each ending under the meta node alone |
| DepGraph.DepGraph.PruneIfSelected | bazel2snyk/depgraph.py:259-268 | prunes the entry iff counted more than once and over either threshold |
| DepGraph.DepGraph.PruneGraph | bazel2snyk/depgraph.py:243-268 | merges target counts into dependency counts, then prunes exactly `PruneIds` of the merged counts, each ending under the meta node alone |
| DepGraph.DepGraph.MergeTargetCounts | bazel2snyk/depgraph.py:249-250 | the dependency counts become the merge with the target counts |
| DepGraph.DepGraph.PruneAbove | bazel2snyk/depgraph.py:275-278 | prunes exactly the keys counted above the threshold, in order, each ending under the meta node alone |
| DepGraph.DepGraph.PruneIfAbove | bazel2snyk/depgraph.py:276-278 | prunes the entry iff its count is above the threshold |
| DepGraph.DepGraph.PruneGraphAll | bazel2snyk/depgraph.py:270-283 | prunes exactly the dependencies counted more than twice, then the targets counted more than ten times, each ending under the meta node alone |
| DepGraph.DepGraph.RenameRoot | bazel2snyk/depgraph.py:294-310 | root node renamed, its package id `new@version`, the matching (or, when missing, the last) package renamed, root id renamed |
| DepGraph.DepGraph.RenameDepGraph | bazel2snyk/depgraph.py:285-310 | succeeds iff the root package id has exactly one `@`; failure changes nothing; success keeps the version and the node and package counts |
| SnykDepGraph.DepGraph.constructor | bazel2snyk/snyk_dep_graph.py:16-50 | the document holds only `app@1.0.0` and `root-node` |
| SnykDepGraph.DepGraph.HasPkg | bazel2snyk/snyk_dep_graph.py:59-78 | the entry the id splits into at its right-most `@` is listed; `AddPkg` ensures it holds afterwards and answers its negation beforehand |
| SnykDepGraph.DepGraph.AddPkg | bazel2snyk/snyk_dep_graph.py:81-100 | answers true iff the entry was missing, appends it then, and afterwards `has_pkg` holds |
| SnykDepGraph.DepGraph.AddDep | bazel2snyk/snyk_dep_graph.py:102-157 | lists the child under the parent (or root) unless present, or appends a new parent node; old nodes only grow |
| SnykDepGraph.DepGraph.RemoveDep | bazel2snyk/snyk_dep_graph.py:159-182 | every node loses its first copy of the child and no node lists it afterwards |
| SnykDepGraph.DepGraph.SetRootNodePackage | bazel2snyk/snyk_dep_graph.py:185-196 | package 0, the root id and node 0 become the given id |
| SnykDepGraph.DepGraph.PruneDep | bazel2snyk/snyk_dep_graph.py:198-207 | adds the meta package once, links it to the root and moves the id under it |
| SnykDepGraph.DepGraph.RenameRoot | bazel2snyk/snyk_dep_graph.py:214-224 | root node, its package and the root id renamed, the version kept |
| SnykDepGraph.DepGraph.RenameDepGraph | bazel2snyk/snyk_dep_graph.py:209-224 | succeeds iff the root package id has exactly one `@`; failure changes nothing |
| Cli.SnykDep | bazel2snyk/cli.py:285-296 | the package id of a label always contains `@` (resolved coordinates of an `@`-prefixed dependency, or `label@bazel`), so `set_root_node_package` can split it |
| Cli.TargetPackage | bazel2snyk/cli.py:296 | a non-dependency label becomes the package `label@bazel`, named by the label, version `bazel` |
| Cli.AfterRecordExtends | bazel2snyk/cli.py:251-270 | recording a child only adds packages, grows nodes and raises counters |
| Cli.AfterRecordRecorded | bazel2snyk/cli.py:251-268 | after recording, the child's package is present, the parent lists it and its kind's counter counts it |
| Cli.ClosedUnderPath | bazel2snyk/cli.py:212-283 | along every chain of children from a closed label, each step is recorded |
| Cli.WalkComplete | bazel2snyk/cli.py:212-283 | once the target is walked, every chain of children from it is in the graph edge by edge, with packages and counters |
| Cli.AfterRecordOnlyFrom | bazel2snyk/cli.py:251-268 | recording child `c` of a walked label `p` adds at most `c`'s package record, the edge `p -> c` (or `p`'s own node listing `c`), and a raise of `c`'s count in the counter of its kind: nothing the rules do not give |
| Cli.AddDepNodesFrom | bazel2snyk/cli.py:268 | `add_dep(child, parent)` under a walked label's id adds only that edge, or that label's own node |
| Cli.LeafOnlyFrom | bazel2snyk/cli.py:280-281 | the leaf step adds at most the walked label's own node, with no edge |
| Cli.NodesFromTrans | bazel2snyk/cli.py:236-283 | edges and nodes explained stretch by stretch are explained over the whole walk |
| Cli.OnlyFromTrans | bazel2snyk/cli.py:236-283 | packages, edges, nodes and counts explained stretch by stretch are explained over the whole walk |
| Cli.ChildrenWithinChild | bazel2snyk/cli.py:251-274 | after a child's walk, every newly walked label is a child of a walked label or of the parent |
| Cli.PrunedFromWalk | bazel2snyk/cli.py:119-126 | when the counters started empty and only children raised them, the chosen pass only picks package ids of walked labels' children, of the counter's kind |
| Cli.WalkedReachable | bazel2snyk/cli.py:236-274 | a ranked walked set on acyclic rules, whose labels other than the target are each a child of a walked label, holds only labels on a chain of children from the target, and that chain stays within the set |
| Cli.RankedAboveShrinks | bazel2snyk/cli.py:236-274 | moving from a label to its parent leaves strictly fewer walked labels ranked above, which is why the chain up from a walked label ends |
| Cli.SmartPrunePolicy | bazel2snyk/cli.py:316-332 | `prune_graph(20, 5)` prunes `k` iff counted more than once and more than 20 times or in more than one path in twenty |
| Cli.PrunedIdsRule | bazel2snyk/cli.py:119-126 | with unique counter keys, the chosen pass picks `k` iff its dependency count is above 2 or its target count above 10 (`prune_graph_all`), or iff it is a merged key counted more than once and more than 20 times or in more than one path in twenty (`prune_graph(20, 5)`) |
| Cli.Walk.constructor | bazel2snyk/cli.py:103-109 | fresh graph for the chosen manager, rule index with an empty cache, empty lists and counters |
| Cli.Walk.SnykDepFromBazelDep | bazel2snyk/cli.py:285-296 | a dependency resolves through the rules; any other label becomes `label@bazel` |
| Cli.Walk.IncrementDepPathCount | bazel2snyk/cli.py:298-299 | raises only that key's dependency count, by one |
| Cli.Walk.IncrementTargetPathCount | bazel2snyk/cli.py:301-302 | raises only that key's target count, by one |
| Cli.Walk.CountPath | bazel2snyk/cli.py:255-265 | a dependency child raises the dependency count, a target child the target count, an `Other` child neither |
| Cli.Walk.RecordChild | bazel2snyk/cli.py:251-270 | the child's package added, its path counted, the parent listing it, the parent label pending |
| Cli.Walk.BazelToDepGraph | bazel2snyk/cli.py:212-283 | at depth 0 package 0, node 0 and the root id become the target's package id and the walk only adds to that state; the walked labels are closed with every edge linked; conversely every package, edge, node and count the call adds comes from a walked label and its children, and every walked label but the parent is a ranked child of a walked label; a leaf moves the pending labels to the processed list |
| Cli.Walk.WalkChildren | bazel2snyk/cli.py:236-283 | the loop and the leaf step: the parent joins the walked labels, which are closed with every edge linked, and everything added is explained by them |
| Cli.Walk.VisitChildren | bazel2snyk/cli.py:236-274 | every child of the label, in order, is linked and walked or already walked; everything added comes from the walked labels and the parent, each newly walked label a child of one of them |
| Cli.Walk.VisitNext | bazel2snyk/cli.py:236-274 | one more child is linked and joins the walked set; what it adds is explained by the walked labels and the parent |
| Cli.Walk.FinishLeaf | bazel2snyk/cli.py:280-283 | a leaf gets an empty node, pending labels become processed and the pending list empties; the walk stays linked and explained |
| Cli.Walk.VisitChild | bazel2snyk/cli.py:251-274 | the child is recorded under the parent; an already processed child is not walked but still linked; what the step adds is explained by the walked labels and the parent |
| Cli.Walk.PruneAbove | bazel2snyk/cli.py:306-314 | prunes exactly the keys counted above the threshold, in order |
| Cli.Walk.PruneIfAbove | bazel2snyk/cli.py:307-309 | prunes the entry iff its count is above the threshold |
| Cli.Walk.PruneGraphAll | bazel2snyk/cli.py:304-314 | prunes exactly the keys with dependency count above 2, then those with target count above 10, in order; unless the meta id is among them, each ends up under the meta node alone |
| Cli.Walk.PruneIfSelected | bazel2snyk/cli.py:328-332 | prunes the entry iff counted more than once and over either threshold |
| Cli.Walk.PruneSelected | bazel2snyk/cli.py:327-332 | prunes exactly the selected keys in iteration order |
| Cli.Walk.PruneGraph | bazel2snyk/cli.py:316-332 | merges the counters, then prunes `k` iff it is a merged key counted more than once and above the count threshold or with `100·count > p·total`; unless the meta id is among them, each ends up under the meta node alone |
| Cli.Walk.PruneChosen | bazel2snyk/cli.py:119-126 | `prune_graph_all` when asked, else `prune_graph(20, 5)` when asked, else nothing: the document becomes the prune of `PrunedIds` of the walked state and, unless the meta id is among them, those ids end up under the meta node alone |
| Cli.WalkTarget | bazel2snyk/cli.py:100-117 | the walk from the target only adds to the root document; every chain of children from the target is linked; everything it adds comes from the walked labels, which are all ranked and each lie on a chain of children from the target |
| Cli.Generate | bazel2snyk/cli.py:100-126 | after the walk package 0, node 0 and the root id are the target's and the walk only added to that root document; every chain of children from the target is linked, and every package, edge, node and count in the walked state comes from a walked label and its children, and every walked label lies on a chain of children from the target; the chosen pass prunes exactly the ids its count rule picks, all of them ids of counted children, and, unless the meta id is among them, moves them under the meta node |

## Left out

- The command-line surface is not part of this model: `main`'s option handling, `print_graph`,
  `test`, `monitor`, the Snyk API client, `load_file`, `time.sleep` and all logging
  (`cli.py:58-207`, `cli.py:334-339`). The output padding loop in `cli.py:240-249` only feeds
  logging and is left out.
- XML parsing is not modelled. A rule is a record holding its name, location, `deps` lists,
  `runtime_deps` lists, `tags` strings and `data` labels, in document order.
- Regular expressions are hand-coded predicates. They do not model the newline behaviour of
  `.` and `$`, or Unicode `\d` and `\w` (ASCII only).
- Pydantic validation and the dict-versus-record difference are not modelled. The record
  classes are datatypes, compared structurally as `in` compares them.
- In the dict-based class a node always has a `deps` list. The branch of
  `snyk_dep_graph.py:132-133` that creates a missing list never applies to nodes the class
  itself creates, so it is not modelled.
- `PathCounts.CeilPercent`: `math.ceil((count / total) * 100)` is modelled as exact integer
  ceiling. Python's float rounding can give a different answer at exact boundaries (7/100·100
  rounds slightly above 7).
- `get_snyk_dep_from_coordinates` for an unknown source (it answers `None`) is not modelled:
  `PackageSource` has only the two known sources.
- The accessors are not modelled: `graph`, `get_root_node` (read as the `rootNodeId` field),
  and `set_dep_graph`. The constructor parameters `debug` and `bazel_query_output` are unused
  and are not modelled.
- GraphDoc.NewNodeId reads a `None` parent as the empty id. That case arises only when the root
  node is missing, which every class invariant rules out.
- The aliasing of the cached child list with the list `get_children_from_rule` returns is not
  modelled. Nothing mutates that list once it is cached (bazel.py:180-185), so a value loses
  nothing.
- The processed lists are mutated in place (`append` at cli.py:270, `extend` at cli.py:282).
  They are reached only through `g` and have no other reference, so modelling them as sequence
  fields that the walk reassigns loses nothing.
- Cli.Walk.BazelToDepGraph: requires an acyclic rank on the rules. Bazel itself rejects
  dependency cycles, so its query output has none. The source has no cycle check and may
  recurse without end on a cycle. The requirement also leaves out the cyclic inputs on which
  the source does end. An example is `A -> [L, B]`, `B -> [A]` with `L` a leaf: the leaf step
  moves the pending `A` into `processed_subtree_nodes` (cli.py:270, cli.py:282), so `B`'s child
  `A` is skipped (cli.py:273) and the walk ends with the cycle in the graph. The depth-0 call
  is modelled only on empty processed lists, as `generate` makes it.
- Cli.Walk.BazelToDepGraph: no bound on re-expanding a shared subtree is claimed, and the
  source keeps none. `processed_nodes_temp` collects only parents (cli.py:270) and reaches
  `processed_subtree_nodes` only at a leaf (cli.py:280-283). A leaf never enters the list itself.
  An example is `R -> [A, B]`, `A -> [C]`, `B -> [C]` with `C` a leaf. Walking `C` under `A`
  marks `R` and `A` processed but not `C`, so `C` is walked again under `B`. The model keeps
  this behaviour.
- DepGraph.DepGraph.SetRootNodePackage: requires an `@` in the id. Without one the source
  raises after it has already overwritten the package id. The walk always passes an id with
  `@` (`Cli.SnykDep`).
- SnykDepGraph.DepGraph.SetRootNodePackage: requires an `@` in the id, for the same reason.
- DepGraph.DepGraph.RenameDepGraph: a root package id that does not split into exactly two
  fields raises before any assignment. The model answers `ok == false` with nothing changed.
- SnykDepGraph.DepGraph.RenameDepGraph: models the same failure the same way.
- Cli.Walk.PruneGraphAll: claims the pruned ids are moved under the meta node only when the
  meta id `meta-common-packages@meta` is not itself among them. The walk counts every child
  (`cli.py:256-265`) without the meta exclusion that `depgraph.py:127-131` applies, so a
  dependency whose coordinates resolve to the meta id is counted and can be pruned. Pruning
  another id after it links the meta node under the root again (`snyk_dep_graph.py:203`), so
  the meta id does not end up under the meta node alone in the source either.
- Cli.Walk.PruneGraph: makes the same conditional claim, for the same reason.
- Cli.Walk.PruneChosen: makes the same conditional claim, for the same reason.
- Cli.Generate: makes the same conditional claim, for the same reason.
- Cli.Walk.PruneAbove: states the resulting document but not the moved ids;
  `Cli.Walk.PruneGraphAll` states those.
- Cli.Walk.PruneSelected: states the resulting document but not the moved ids;
  `Cli.Walk.PruneGraph` states those.
