/**
 * The dependency-graph builder of `bazel2snyk/depgraph.py`: a Snyk dependency-graph
 * document updated in place, with two repetition counters that `add_dep` keeps and the
 * pruning passes read. The document is held as its package list, root id and node list.
 */
module DepGraph {
  import opened PyStr
  import opened GraphDoc
  import opened PathCounts

  /** The keys the counters never hold: `add_dep` counts only non-empty children other than the meta id. */
  const NotCounted: set<string> := {"", MetaPkgId}

  /** `add_dep` counts the child: it is non-empty and neither end of the edge is the meta id. */
  predicate Counted(child: Option<string>, parent: Option<string>) {
    Truthy(child) && parent != Some(MetaPkgId) && child.value != MetaPkgId
  }

  /** A child starting with `//` is counted as a target, any other as a dependency. */
  predicate IsTargetId(id: string) {
    StartsWith(id, "//")
  }

  /** Every id a `prune_graph_all` loop picks ends up only under the meta node. */
  lemma AboveMoves(nodes: seq<Node>, root: string, counts: Counts, threshold: int)
    requires WellFormed(nodes, root) && KeysAvoid(counts, NotCounted)
    ensures var ids := Above(counts, threshold);
            forall k :: 0 <= k < |ids| ==> Moved(PruneAllNodes(nodes, root, ids), ids[k])
  {
    AboveAvoids(counts, threshold, NotCounted);
    PruneAllNodesSpec(nodes, root, Above(counts, threshold));
  }

  /** Every id `prune_graph` picks ends up only under the meta node. */
  lemma SelectedMoves(nodes: seq<Node>, root: string, counts: Counts, total: nat, countThreshold: int, percentThreshold: int)
    requires WellFormed(nodes, root) && KeysAvoid(counts, NotCounted) && Within(counts, total)
    ensures var ids := Selected(counts, total, countThreshold, percentThreshold);
            forall k :: 0 <= k < |ids| ==> Moved(PruneAllNodes(nodes, root, ids), ids[k])
  {
    SelectedAvoids(counts, total, countThreshold, percentThreshold, NotCounted);
    PruneAllNodesSpec(nodes, root, Selected(counts, total, countThreshold, percentThreshold));
  }

  class DepGraph {
    const pkgManagerName: string
    var pkgs: seq<Pkg>
    var rootNodeId: string
    var nodes: seq<Node>
    var depPathCounts: Counts
    var targetPathCounts: Counts

    /** The root package slot exists, the root node is present, no node repeats a child, and the counters are proper dicts. */
    ghost predicate Valid()
      reads this
    {
      && 1 <= |pkgs|
      && WellFormed(nodes, rootNodeId)
      && CountersValid()
    }

    /** Both counters are proper dicts holding only ids `add_dep` counts. */
    ghost predicate CountersValid()
      reads this`depPathCounts, this`targetPathCounts
    {
      && KeysUnique(depPathCounts) && KeysAvoid(depPathCounts, NotCounted)
      && KeysUnique(targetPathCounts) && KeysAvoid(targetPathCounts, NotCounted)
    }

    /** A document holding only the placeholder package `app@1.0.0` and the root node `root-node`, with empty counters. */
    constructor(pkgManagerName: string)
      ensures Valid()
      ensures this.pkgManagerName == pkgManagerName
      ensures pkgs == InitialPkgs && rootNodeId == InitialRootId && nodes == InitialNodes
      ensures depPathCounts == [] && targetPathCounts == []
    {
      this.pkgManagerName := pkgManagerName;
      pkgs := InitialPkgs;
      rootNodeId := InitialRootId;
      nodes := InitialNodes;
      depPathCounts := [];
      targetPathCounts := [];
      NodeIndexAt(InitialNodes, InitialRootId, 0);
    }

    /** `_increment_dep_path_count`: one more sighting of `dep`, every other count as it was. */
    method IncrementDepPathCount(dep: string)
      modifies this`depPathCounts
      ensures depPathCounts == Increment(old(depPathCounts), dep)
      ensures Get(depPathCounts, dep) == Get(old(depPathCounts), dep) + 1
      ensures forall k :: k != dep ==> Get(depPathCounts, k) == Get(old(depPathCounts), k)
    {
      depPathCounts := Increment(depPathCounts, dep);
    }

    /** `_increment_target_path_count`: one more sighting of `dep`, every other count as it was. */
    method IncrementTargetPathCount(dep: string)
      modifies this`targetPathCounts
      ensures targetPathCounts == Increment(old(targetPathCounts), dep)
      ensures Get(targetPathCounts, dep) == Get(old(targetPathCounts), dep) + 1
      ensures forall k :: k != dep ==> Get(targetPathCounts, k) == Get(old(targetPathCounts), k)
    {
      targetPathCounts := Increment(targetPathCounts, dep);
    }

    /** `has_pkg`: the record the id splits into is in the package list. */
    predicate HasPkg(pkgId: string)
      reads this
    {
      PkgEntry(pkgId) in pkgs
    }

    /** `add_pkg`: appends the record and answers true exactly when it was missing. */
    method AddPkg(pkgId: string) returns (added: bool)
      requires Valid()
      modifies this`pkgs
      ensures Valid()
      ensures added <==> !old(HasPkg(pkgId))
      ensures pkgs == AddPkgTo(old(pkgs), pkgId)
      ensures HasPkg(pkgId)
    {
      added := !HasPkg(pkgId);
      if added {
        pkgs := pkgs + [PkgEntry(pkgId)];
      }
    }

    /**
     * `add_dep(child, parent)`: counts the child, then lists it under the parent (the root
     * when no parent is given), creating the parent node when it is missing.
     */
    method AddDep(child: Option<string>, parent: Option<string>)
      requires Valid()
      modifies this`nodes, this`depPathCounts, this`targetPathCounts
      ensures Valid()
      ensures nodes == AddDepTo(old(nodes), rootNodeId, child, parent)
      ensures depPathCounts == if Counted(child, parent) && !IsTargetId(child.value)
                               then Increment(old(depPathCounts), child.value) else old(depPathCounts)
      ensures targetPathCounts == if Counted(child, parent) && IsTargetId(child.value)
                                  then Increment(old(targetPathCounts), child.value) else old(targetPathCounts)
      ensures Truthy(child) ==> Edge(nodes, ParentKey(rootNodeId, parent), child.value)
    {
      CountChild(child, parent);
      LinkChild(child, parent);
    }

    /**
     * The counting half of `add_dep`: a counted child raises the target counter when it starts
     * with `//` and the dependency counter otherwise.
     */
    method CountChild(child: Option<string>, parent: Option<string>)
      requires CountersValid()
      modifies this`depPathCounts, this`targetPathCounts
      ensures CountersValid()
      ensures depPathCounts == if Counted(child, parent) && !IsTargetId(child.value)
                               then Increment(old(depPathCounts), child.value) else old(depPathCounts)
      ensures targetPathCounts == if Counted(child, parent) && IsTargetId(child.value)
                                  then Increment(old(targetPathCounts), child.value) else old(targetPathCounts)
    {
      if Counted(child, parent) {
        if !StartsWith(child.value, "//") {
          IncrementDepPathCount(child.value);
        } else {
          IncrementTargetPathCount(child.value);
        }
      }
    }

    /** The node half of `add_dep`: find the parent node and list the child there, or append the parent node. */
    method LinkChild(child: Option<string>, parent: Option<string>)
      requires WellFormed(nodes, rootNodeId)
      modifies this`nodes
      ensures WellFormed(nodes, rootNodeId)
      ensures nodes == AddDepTo(old(nodes), rootNodeId, child, parent)
      ensures Truthy(child) ==> Edge(nodes, ParentKey(rootNodeId, parent), child.value)
    {
      ghost var before := nodes;
      var i := FindNodeIndex(nodes, ParentKey(rootNodeId, parent));
      if 0 <= i {
        if Truthy(child) && child.value !in nodes[i].deps {
          nodes := nodes[i := nodes[i].(deps := nodes[i].deps + [child.value])];
        }
      } else {
        var id := NewNodeId(parent);
        nodes := nodes + [Node(id, id, if Truthy(child) then [child.value] else [])];
      }
      assert nodes == AddDepTo(before, rootNodeId, child, parent);
      AddDepToShape(before, rootNodeId, child, parent);
      AddDepToDistinct(before, rootNodeId, child, parent);
      GrowsKeepsEdge(before, nodes, rootNodeId, "");
      if Truthy(child) {
        AddDepToEdge(before, rootNodeId, child, parent);
      }
    }

    /** `remove_dep(child)`: every node's first `child` entry, if any, is removed. */
    method RemoveDep(child: string)
      requires Valid()
      modifies this`nodes
      ensures Valid()
      ensures nodes == RemoveChild(old(nodes), child)
      ensures forall j :: 0 <= j < |nodes| ==> child !in nodes[j].deps
    {
      ghost var before := nodes;
      for j := 0 to |nodes|
        invariant |nodes| == |before|
        invariant forall k :: 0 <= k < j ==> nodes[k] == before[k].(deps := RemoveFirst(before[k].deps, child))
        invariant forall k :: j <= k < |nodes| ==> nodes[k] == before[k]
      {
        if child in nodes[j].deps {
          nodes := nodes[j := nodes[j].(deps := RemoveFirst(nodes[j].deps, child))];
        }
      }
      assert nodes == RemoveChild(before, child);
      RemoveChildSpec(before, child);
      NodeIndexPrefix(before, nodes, rootNodeId);
    }

    /**
     * `set_root_node_package(root)`: the first package becomes `root`, named and versioned by
     * the first two `@`-separated fields, and the first node and the root id become `root`.
     */
    method SetRootNodePackage(root: string)
      requires Valid()
      requires '@' in root
      modifies this`pkgs, this`rootNodeId, this`nodes
      ensures Valid()
      ensures pkgs == old(pkgs)[0 := RootPkg(root)]
      ensures rootNodeId == root
      ensures nodes == old(nodes)[0 := old(nodes)[0].(nodeId := root, pkgId := root)]
    {
      pkgs := pkgs[0 := RootPkg(root)];
      rootNodeId := root;
      nodes := nodes[0 := nodes[0].(nodeId := root, pkgId := root)];
      NodeIndexAt(nodes, root, 0);
    }

    /**
     * `prune_dep(id)`: makes sure the meta package exists and the root lists the meta node,
     * removes `id` as a child everywhere, and lists it under the meta node. No counter moves.
     */
    method PruneDep(id: string)
      requires Valid()
      modifies this`pkgs, this`nodes, this`depPathCounts, this`targetPathCounts
      ensures Valid()
      ensures pkgs == AddPkgTo(old(pkgs), MetaPkgId)
      ensures nodes == PruneNodes(old(nodes), rootNodeId, id)
      ensures depPathCounts == old(depPathCounts) && targetPathCounts == old(targetPathCounts)
    {
      if !HasPkg(MetaPkgId) {
        var _ := AddPkg(MetaPkgId);
      }
      AddDep(Some(MetaPkgId), None);
      RemoveDep(id);
      AddDep(Some(id), Some(MetaPkgId));
    }

    /**
     * The loop of `prune_graph`: prunes, in iteration order, every key of `counts` counted more
     * than once whose count exceeds `countThreshold` or whose rounded-up share of `total`, in
     * percent, exceeds `percentThreshold`.
     */
    method PruneSelected(counts: Counts, total: nat, countThreshold: int, percentThreshold: int)
      requires Valid() && KeysAvoid(counts, NotCounted) && Within(counts, total)
      modifies this`pkgs, this`nodes, this`depPathCounts, this`targetPathCounts
      ensures Valid()
      ensures depPathCounts == old(depPathCounts) && targetPathCounts == old(targetPathCounts)
      ensures var ids := Selected(counts, total, countThreshold, percentThreshold);
              && nodes == PruneAllNodes(old(nodes), rootNodeId, ids)
              && pkgs == PruneAllPkgs(old(pkgs), ids)
              && forall k :: 0 <= k < |ids| ==> Moved(nodes, ids[k])
    {
      ghost var nodes0, pkgs0 := nodes, pkgs;
      for i := 0 to |counts|
        invariant Valid()
        invariant depPathCounts == old(depPathCounts) && targetPathCounts == old(targetPathCounts)
        invariant Within(counts[..i], total)
        invariant nodes == PruneAllNodes(nodes0, rootNodeId, Selected(counts[..i], total, countThreshold, percentThreshold))
        invariant pkgs == PruneAllPkgs(pkgs0, Selected(counts[..i], total, countThreshold, percentThreshold))
      {
        SelectedStep(counts, total, countThreshold, percentThreshold, i);
        PruneIfSelected(counts[i].key, counts[i].count, total, countThreshold, percentThreshold,
                        nodes0, pkgs0, Selected(counts[..i], total, countThreshold, percentThreshold));
      }
      assert counts[..|counts|] == counts;
      SelectedMoves(nodes0, rootNodeId, counts, total, countThreshold, percentThreshold);
    }

    /**
     * One step of the `prune_graph` loop, after the ids `done` have been pruned from `nodes0`
     * and `pkgs0`: an entry counted more than once is pruned next when its count exceeds
     * `countThreshold` or its share of `total`, in percent rounded up, exceeds `percentThreshold`.
     */
    method PruneIfSelected(key: string, count: nat, total: nat, countThreshold: int, percentThreshold: int,
                           ghost nodes0: seq<Node>, ghost pkgs0: seq<Pkg>, ghost done: seq<string>)
      requires Valid() && count <= total
      requires nodes == PruneAllNodes(nodes0, rootNodeId, done) && pkgs == PruneAllPkgs(pkgs0, done)
      modifies this`pkgs, this`nodes, this`depPathCounts, this`targetPathCounts
      ensures Valid()
      ensures depPathCounts == old(depPathCounts) && targetPathCounts == old(targetPathCounts)
      ensures var ids := if Selects(count, total, countThreshold, percentThreshold) then done + [key] else done;
              nodes == PruneAllNodes(nodes0, rootNodeId, ids) && pkgs == PruneAllPkgs(pkgs0, ids)
    {
      PruneAllStep(nodes0, pkgs0, rootNodeId, done, key);
      if count > 1 {
        var percentage := CeilPercent(count, total);
        if count > countThreshold || percentage > percentThreshold {
          PruneDep(key);
        }
      }
    }

    /**
     * `prune_graph(countThreshold, percentThreshold)`: merges the target counts into the dep
     * counts (a target count overwrites a dep count on the same key), then prunes, in order,
     * every id counted more than once that passes either threshold against the merged total.
     */
    method PruneGraph(countThreshold: int, percentThreshold: int)
      requires Valid()
      modifies this`pkgs, this`nodes, this`depPathCounts, this`targetPathCounts
      ensures Valid()
      ensures depPathCounts == Merge(old(depPathCounts), old(targetPathCounts))
      ensures targetPathCounts == old(targetPathCounts)
      ensures var ids := PruneIds(depPathCounts, countThreshold, percentThreshold);
              && nodes == PruneAllNodes(old(nodes), rootNodeId, ids)
              && pkgs == PruneAllPkgs(old(pkgs), ids)
              && forall k :: 0 <= k < |ids| ==> Moved(nodes, ids[k])
    {
      MergeTargetCounts();
      var total := Total(depPathCounts);
      CountsAtMostSum(depPathCounts);
      assert PruneIds(depPathCounts, countThreshold, percentThreshold)
          == Selected(depPathCounts, total, countThreshold, percentThreshold);
      PruneSelected(depPathCounts, total, countThreshold, percentThreshold);
    }

    /** The first step of `prune_graph`: the target counts are written into the dependency counts. */
    method MergeTargetCounts()
      requires Valid()
      modifies this`depPathCounts
      ensures Valid()
      ensures depPathCounts == Merge(old(depPathCounts), targetPathCounts)
    {
      MergeKeepsOrder(depPathCounts, targetPathCounts);
      MergeAvoids(depPathCounts, targetPathCounts, NotCounted);
      depPathCounts := Merge(depPathCounts, targetPathCounts);
    }

    /**
     * One loop of `prune_graph_all`: prunes, in iteration order, every key of `counts` counted
     * more than `threshold` times.
     */
    method PruneAbove(counts: Counts, threshold: int)
      requires Valid() && KeysAvoid(counts, NotCounted)
      modifies this`pkgs, this`nodes, this`depPathCounts, this`targetPathCounts
      ensures Valid()
      ensures depPathCounts == old(depPathCounts) && targetPathCounts == old(targetPathCounts)
      ensures nodes == PruneAllNodes(old(nodes), rootNodeId, Above(counts, threshold))
      ensures pkgs == PruneAllPkgs(old(pkgs), Above(counts, threshold))
      ensures forall k :: 0 <= k < |Above(counts, threshold)| ==> Moved(nodes, Above(counts, threshold)[k])
    {
      ghost var nodes0, pkgs0 := nodes, pkgs;
      for i := 0 to |counts|
        invariant Valid()
        invariant depPathCounts == old(depPathCounts) && targetPathCounts == old(targetPathCounts)
        invariant nodes == PruneAllNodes(nodes0, rootNodeId, Above(counts[..i], threshold))
        invariant pkgs == PruneAllPkgs(pkgs0, Above(counts[..i], threshold))
      {
        AboveStep(counts, threshold, i);
        PruneIfAbove(counts[i].key, counts[i].count, threshold, nodes0, pkgs0, Above(counts[..i], threshold));
      }
      assert counts[..|counts|] == counts;
      AboveMoves(nodes0, rootNodeId, counts, threshold);
    }

    /**
     * One step of a `prune_graph_all` loop, after the ids `done` have been pruned from
     * `nodes0` and `pkgs0`: an entry counted more than `threshold` times is pruned next.
     */
    method PruneIfAbove(key: string, count: nat, threshold: int,
                        ghost nodes0: seq<Node>, ghost pkgs0: seq<Pkg>, ghost done: seq<string>)
      requires Valid()
      requires nodes == PruneAllNodes(nodes0, rootNodeId, done) && pkgs == PruneAllPkgs(pkgs0, done)
      modifies this`pkgs, this`nodes, this`depPathCounts, this`targetPathCounts
      ensures Valid()
      ensures depPathCounts == old(depPathCounts) && targetPathCounts == old(targetPathCounts)
      ensures var ids := if count > threshold then done + [key] else done;
              nodes == PruneAllNodes(nodes0, rootNodeId, ids) && pkgs == PruneAllPkgs(pkgs0, ids)
    {
      PruneAllStep(nodes0, pkgs0, rootNodeId, done, key);
      if count > threshold {
        PruneDep(key);
      }
    }

    /**
     * `prune_graph_all`: prunes, in order, every dependency counted more than twice, then every
     * target counted more than ten times.
     */
    method PruneGraphAll()
      requires Valid()
      modifies this`pkgs, this`nodes, this`depPathCounts, this`targetPathCounts
      ensures Valid()
      ensures depPathCounts == old(depPathCounts) && targetPathCounts == old(targetPathCounts)
      ensures var ids := Above(depPathCounts, 2) + Above(targetPathCounts, 10);
              && nodes == PruneAllNodes(old(nodes), rootNodeId, ids)
              && pkgs == PruneAllPkgs(old(pkgs), ids)
              && forall k :: 0 <= k < |ids| ==> Moved(nodes, ids[k])
    {
      ghost var nodes0 := nodes;
      ghost var deps, targets := Above(depPathCounts, 2), Above(targetPathCounts, 10);
      PruneAllPkgsAppend(pkgs, deps, targets);
      PruneAllNodesAppend(nodes, rootNodeId, deps, targets);
      PruneAbove(depPathCounts, 2);
      PruneAbove(targetPathCounts, 10);
      AboveAvoids(depPathCounts, 2, NotCounted);
      AboveAvoids(targetPathCounts, 10, NotCounted);
      assert Prunable(deps + targets) by {
        forall k | 0 <= k < |deps + targets|
          ensures (deps + targets)[k] !in NotCounted
        {
          if k >= |deps| {
            assert (deps + targets)[k] == targets[k - |deps|];
          }
        }
      }
      PruneAllNodesSpec(nodes0, rootNodeId, deps + targets);
    }

    /**
     * The assignments of `rename_depgraph` once the root package id `oldId` has split into a
     * name and `version`: node `r` becomes `newName` with package `newName@version`; the package
     * with id `oldId` (or, when there is none, the last package, as a -1 index does in Python)
     * takes that id and the name `newName`; the root id becomes `newName`.
     */
    method RenameRoot(r: nat, newName: string, oldId: string, version: string)
      requires Valid() && r < |nodes|
      modifies this`pkgs, this`nodes, this`rootNodeId
      ensures Valid()
      ensures rootNodeId == newName
      ensures nodes == old(nodes)[r := old(nodes)[r].(nodeId := newName, pkgId := newName + "@" + version)]
      ensures var p := PkgIndex(old(pkgs), oldId);
              var t := if 0 <= p then p else |old(pkgs)| - 1;
              pkgs == old(pkgs)[t := Pkg(newName + "@" + version, old(pkgs)[t].info.(name := newName))]
    {
      RenameNodeWellFormed(nodes, r, newName, newName + "@" + version);
      nodes := nodes[r := nodes[r].(nodeId := newName, pkgId := newName + "@" + version)];
      var p := FindPkgIndex(pkgs, oldId);
      var t := if 0 <= p then p else |pkgs| - 1;
      pkgs := pkgs[t := Pkg(newName + "@" + version, pkgs[t].info.(name := newName))];
      rootNodeId := newName;
    }

    /**
     * `rename_depgraph(newName)`: the root node's package id must split at `@` into exactly a
     * name and a version (otherwise the call fails and nothing changes). The root node becomes
     * `newName` with package `newName@version`; the package with the old id (or, when there is
     * none, the last package) takes that id and the new name; the root id becomes `newName`.
     */
    method RenameDepGraph(newName: string) returns (ok: bool)
      requires Valid()
      modifies this`pkgs, this`nodes, this`rootNodeId
      ensures Valid()
      ensures var r := NodeIndex(old(nodes), old(rootNodeId));
              var pkgId := old(nodes)[r].pkgId;
              && (ok <==> Occurrences(pkgId, '@') == 1)
              && (!ok ==> pkgs == old(pkgs) && nodes == old(nodes) && rootNodeId == old(rootNodeId))
              && (ok ==> rootNodeId == newName)
              && (ok ==> nodes == old(nodes)[r := old(nodes)[r].(nodeId := newName, pkgId := newName + "@" + AfterLast(pkgId, '@'))])
              && (ok ==> var p := PkgIndex(old(pkgs), pkgId);
                         var t := if 0 <= p then p else |old(pkgs)| - 1;
                         pkgs == old(pkgs)[t := Pkg(newName + "@" + AfterLast(pkgId, '@'), old(pkgs)[t].info.(name := newName))])
    {
      var r := FindNodeIndex(nodes, rootNodeId);
      var pkgId := nodes[r].pkgId;
      if Occurrences(pkgId, '@') != 1 {
        return false;
      }
      SplitJoin(pkgId);
      var oldName, version := BeforeFirst(pkgId, '@'), AfterLast(pkgId, '@');
      RenameRoot(r, newName, oldName + "@" + version, version);
      return true;
    }
  }
}
