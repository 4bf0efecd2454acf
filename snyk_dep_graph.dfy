/**
 * The older dict-based dependency-graph builder of `bazel2snyk/snyk_dep_graph.py`. It keeps
 * the same document as `bazel2snyk/depgraph.py` (as nested dicts rather than records) and
 * updates it the same way, but has no repetition counters and no pruning passes. It is the
 * builder the walk driver uses.
 */
module SnykDepGraph {
  import opened PyStr
  import opened GraphDoc

  class DepGraph {
    const pkgManagerName: string
    var pkgs: seq<Pkg>
    var rootNodeId: string
    var nodes: seq<Node>

    /** The root package slot exists, the root node is present and no node repeats a child. */
    ghost predicate Valid()
      reads this
    {
      1 <= |pkgs| && WellFormed(nodes, rootNodeId)
    }

    /** A document holding only the placeholder package `app@1.0.0` and the root node `root-node`. */
    constructor(pkgManagerName: string)
      ensures Valid()
      ensures this.pkgManagerName == pkgManagerName
      ensures pkgs == InitialPkgs && rootNodeId == InitialRootId && nodes == InitialNodes
    {
      this.pkgManagerName := pkgManagerName;
      pkgs := InitialPkgs;
      rootNodeId := InitialRootId;
      nodes := InitialNodes;
      NodeIndexAt(InitialNodes, InitialRootId, 0);
    }

    /** `has_pkg`: the entry the id splits into at its right-most `@` is in the package list. */
    predicate HasPkg(pkgId: string)
      reads this
    {
      PkgEntry(pkgId) in pkgs
    }

    /** `add_pkg`: appends the entry and answers true exactly when it was missing. */
    method AddPkg(pkgId: string) returns (added: bool)
      requires Valid()
      modifies this`pkgs
      ensures Valid()
      ensures added <==> !old(HasPkg(pkgId))
      ensures pkgs == AddPkgTo(old(pkgs), pkgId)
      ensures HasPkg(pkgId)
    {
      added := !HasPkg(pkgId);
      if added {
        pkgs := pkgs + [PkgEntry(pkgId)];
      }
    }

    /**
     * `add_dep(child, parent)`: lists the child under the first node named `parent` (under the
     * root when no parent is given) unless it is listed there already; when no such node
     * exists, appends one named `parent` whose deps are the child alone, or nothing.
     */
    method AddDep(child: Option<string>, parent: Option<string>)
      requires Valid()
      modifies this`nodes
      ensures Valid()
      ensures nodes == AddDepTo(old(nodes), rootNodeId, child, parent)
      ensures Grows(old(nodes), nodes)
      ensures Truthy(child) ==> Edge(nodes, ParentKey(rootNodeId, parent), child.value)
    {
      ghost var before := nodes;
      var i := FindNodeIndex(nodes, ParentKey(rootNodeId, parent));
      if 0 <= i {
        if Truthy(child) && child.value !in nodes[i].deps {
          nodes := nodes[i := nodes[i].(deps := nodes[i].deps + [child.value])];
        }
      } else {
        var id := NewNodeId(parent);
        nodes := nodes + [Node(id, id, if Truthy(child) then [child.value] else [])];
      }
      assert nodes == AddDepTo(before, rootNodeId, child, parent);
      AddDepToShape(before, rootNodeId, child, parent);
      AddDepToDistinct(before, rootNodeId, child, parent);
      GrowsKeepsEdge(before, nodes, rootNodeId, "");
      if Truthy(child) {
        AddDepToEdge(before, rootNodeId, child, parent);
      }
    }

    /** `remove_dep(child)`: every node's first `child` entry, if any, is removed. */
    method RemoveDep(child: string)
      requires Valid()
      modifies this`nodes
      ensures Valid()
      ensures nodes == RemoveChild(old(nodes), child)
      ensures forall j :: 0 <= j < |nodes| ==> child !in nodes[j].deps
    {
      ghost var before := nodes;
      for j := 0 to |nodes|
        invariant |nodes| == |before|
        invariant forall k :: 0 <= k < j ==> nodes[k] == before[k].(deps := RemoveFirst(before[k].deps, child))
        invariant forall k :: j <= k < |nodes| ==> nodes[k] == before[k]
      {
        if child in nodes[j].deps {
          nodes := nodes[j := nodes[j].(deps := RemoveFirst(nodes[j].deps, child))];
        }
      }
      assert nodes == RemoveChild(before, child);
      RemoveChildSpec(before, child);
      NodeIndexPrefix(before, nodes, rootNodeId);
    }

    /**
     * `set_root_node_package(root)`: the first package becomes `root`, named and versioned by
     * the first two `@`-separated fields, and the first node and the root id become `root`.
     */
    method SetRootNodePackage(root: string)
      requires Valid()
      requires '@' in root
      modifies this`pkgs, this`rootNodeId, this`nodes
      ensures Valid()
      ensures pkgs == old(pkgs)[0 := RootPkg(root)]
      ensures rootNodeId == root
      ensures nodes == old(nodes)[0 := old(nodes)[0].(nodeId := root, pkgId := root)]
    {
      pkgs := pkgs[0 := RootPkg(root)];
      rootNodeId := root;
      nodes := nodes[0 := nodes[0].(nodeId := root, pkgId := root)];
      NodeIndexAt(nodes, root, 0);
    }

    /**
     * `prune_dep(id)`: makes sure the meta package exists and the root lists the meta node,
     * removes `id` as a child everywhere, and lists it under the meta node.
     */
    method PruneDep(id: string)
      requires Valid()
      modifies this`pkgs, this`nodes
      ensures Valid()
      ensures pkgs == AddPkgTo(old(pkgs), MetaPkgId)
      ensures nodes == PruneNodes(old(nodes), rootNodeId, id)
    {
      if !HasPkg(MetaPkgId) {
        var _ := AddPkg(MetaPkgId);
      }
      AddDep(Some(MetaPkgId), None);
      RemoveDep(id);
      AddDep(Some(id), Some(MetaPkgId));
    }

    /**
     * The assignments of `rename_depgraph` once the root package id `oldId` has split into a
     * name and `version`: node `r` becomes `newName` with package `newName@version`; the package
     * with id `oldId` (or, when there is none, the last package, as a -1 index does in Python)
     * takes that id and the name `newName`; the root id becomes `newName`.
     */
    method RenameRoot(r: nat, newName: string, oldId: string, version: string)
      requires Valid() && r < |nodes|
      modifies this`pkgs, this`nodes, this`rootNodeId
      ensures Valid()
      ensures rootNodeId == newName
      ensures nodes == old(nodes)[r := old(nodes)[r].(nodeId := newName, pkgId := newName + "@" + version)]
      ensures var p := PkgIndex(old(pkgs), oldId);
              var t := if 0 <= p then p else |old(pkgs)| - 1;
              pkgs == old(pkgs)[t := Pkg(newName + "@" + version, old(pkgs)[t].info.(name := newName))]
    {
      RenameNodeWellFormed(nodes, r, newName, newName + "@" + version);
      nodes := nodes[r := nodes[r].(nodeId := newName, pkgId := newName + "@" + version)];
      var p := FindPkgIndex(pkgs, oldId);
      var t := if 0 <= p then p else |pkgs| - 1;
      pkgs := pkgs[t := Pkg(newName + "@" + version, pkgs[t].info.(name := newName))];
      rootNodeId := newName;
    }

    /**
     * `rename_depgraph(newName)`: the root node's package id must split at `@` into exactly a
     * name and a version (otherwise the call fails and nothing changes); then the root node,
     * its package and the root id are renamed as `RenameRoot` says.
     */
    method RenameDepGraph(newName: string) returns (ok: bool)
      requires Valid()
      modifies this`pkgs, this`nodes, this`rootNodeId
      ensures Valid()
      ensures var r := NodeIndex(old(nodes), old(rootNodeId));
              var pkgId := old(nodes)[r].pkgId;
              && (ok <==> Occurrences(pkgId, '@') == 1)
              && (!ok ==> pkgs == old(pkgs) && nodes == old(nodes) && rootNodeId == old(rootNodeId))
              && (ok ==> rootNodeId == newName)
              && (ok ==> nodes == old(nodes)[r := old(nodes)[r].(nodeId := newName, pkgId := newName + "@" + AfterLast(pkgId, '@'))])
              && (ok ==> var p := PkgIndex(old(pkgs), pkgId);
                         var t := if 0 <= p then p else |old(pkgs)| - 1;
                         pkgs == old(pkgs)[t := Pkg(newName + "@" + AfterLast(pkgId, '@'), old(pkgs)[t].info.(name := newName))])
    {
      var r := FindNodeIndex(nodes, rootNodeId);
      var pkgId := nodes[r].pkgId;
      if Occurrences(pkgId, '@') != 1 {
        return false;
      }
      SplitJoin(pkgId);
      var oldName, version := BeforeFirst(pkgId, '@'), AfterLast(pkgId, '@');
      RenameRoot(r, newName, oldName + "@" + version, version);
      return true;
    }
  }
}
