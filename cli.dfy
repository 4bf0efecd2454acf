/**
 * The command-line driver of `bazel2snyk/cli.py`: the module-level state `g` (the graph being
 * built, the rule index, the lists of processed labels and the two repetition counters), the
 * recursive walk `bazel_to_depgraph` that turns the Bazel dependency tree of a target into a
 * Snyk dependency graph, the label-to-package mapping it uses, and the two pruning passes the
 * `generate` command may run afterwards.
 */
module Cli {
  import opened PyStr
  import opened GraphDoc
  import opened PathCounts
  import opened Bazel
  import SnykDepGraph

  /** `BAZEL_TARGET_VERSION_STRING`: the version every Bazel target is given. */
  const BazelTargetVersion: string := "bazel"

  /** `package_source.value`: the package manager name of a source. */
  function SourceName(src: PackageSource): string {
    if src == Maven then "maven" else "pip"
  }

  predicate IsTarget(t: NodeType) {
    t == InternalTarget || t == ExternalTarget
  }

  /**
   * `snyk_dep_from_bazel_dep`: a dependency label becomes the coordinates the rules resolve it
   * to; any other label becomes the label itself at version `bazel`. Either way the id has an
   * `@`, so `set_root_node_package` can split it.
   */
  function SnykDep(rules: seq<Rule>, src: PackageSource, id: string): (r: string)
    ensures '@' in r
  {
    if GetNodeType(id) == Dependency then
      var a := Alias(if StartsWith(id, Alias(Maven)) then Maven else Pip);
      assert id[0] == id[..|a|][0] == a[0] == '@';
      ResolvedHasAt(rules, id, src);
      Resolved(rules, id, src)
    else
      var t := id + "@" + BazelTargetVersion;
      assert t[|id|] == '@';
      t
  }

  /** A target or unclassified label is recorded as a package named by the label, at version `bazel`. */
  lemma TargetPackage(rules: seq<Rule>, src: PackageSource, id: string)
    requires GetNodeType(id) != Dependency
    ensures PkgEntry(SnykDep(rules, src, id)) == Pkg(id + "@bazel", Info(id, "bazel"))
  {
    assert SnykDep(rules, src, id) == id + "@" + BazelTargetVersion;
    PkgEntryOf(id, BazelTargetVersion);
  }

  // ---------------------------------------------------------------------------
  // What the walk leaves behind

  /** The parts of the state the walk adds to: the graph's packages and nodes and the two counters. */
  datatype Snapshot = Snapshot(pkgs: seq<Pkg>, nodes: seq<Node>, deps: Counts, targets: Counts)

  /**
   * The rules describe an acyclic graph (labels may share subtrees, which is what the processed
   * lists are for): `rank` strictly decreases from every ranked label to each of its children.
   * Bazel itself rejects a dependency cycle, so the query output never holds one. The walk has
   * no cycle check of its own and may recurse without end on a cycle, so it is modelled on
   * acyclic rules only. That also leaves out the cyclic inputs on which it does end: with
   * `A -> [L, B]`, `B -> [A]` and `L` a leaf, the leaf step marks `A` processed before `B` is
   * walked, so `B`'s child `A` is skipped and the walk ends with the cycle in the graph.
   */
  ghost predicate Acyclic(rules: seq<Rule>, rank: map<string, nat>) {
    forall p, c :: p in rank && c in ChildrenOf(rules, p) ==> c in rank && rank[c] < rank[p]
  }

  /** `SnykDep` as a function value: the package id the walk gives each label. */
  function SnykNames(rules: seq<Rule>, src: PackageSource): string -> string {
    id => SnykDep(rules, src, id)
  }

  /**
   * The step the walk takes for a child whose package id is `cs`, of node type `t`, under the
   * parent package `ps` is visible in `s`: the child's package is there, the parent's node lists
   * the child, and the counter of the child's kind counts it.
   */
  predicate Recorded(s: Snapshot, ps: string, cs: string, t: NodeType) {
    && PkgEntry(cs) in s.pkgs
    && Edge(s.nodes, ps, cs)
    && (t == Dependency ==> Get(s.deps, cs) >= 1)
    && (IsTarget(t) ==> Get(s.targets, cs) >= 1)
  }

  /**
   * The state after the walk records child package `cs`, of node type `t`, under parent package
   * `ps`: the child's package added, the child listed under the parent (in a graph rooted at
   * `root`), and the counter of the child's kind incremented.
   */
  function AfterRecord(s: Snapshot, root: string, ps: string, t: NodeType, cs: string): Snapshot {
    Snapshot(AddPkgTo(s.pkgs, cs),
             AddDepTo(s.nodes, root, Some(cs), Some(ps)),
             if t == Dependency then Increment(s.deps, cs) else s.deps,
             if IsTarget(t) then Increment(s.targets, cs) else s.targets)
  }

  /** Recording a child only adds to the state. */
  lemma AfterRecordExtends(s: Snapshot, root: string, ps: string, t: NodeType, cs: string)
    ensures Extends(s, AfterRecord(s, root, ps, t, cs))
  {
    AddPkgToSpec(s.pkgs, cs);
    AddDepToShape(s.nodes, root, Some(cs), Some(ps));
  }

  /** Once a non-empty child is recorded (in a graph whose root node exists), its step is `Recorded`. */
  lemma AfterRecordRecorded(s: Snapshot, root: string, ps: string, t: NodeType, cs: string)
    requires 0 <= NodeIndex(s.nodes, root) && cs != ""
    ensures Recorded(AfterRecord(s, root, ps, t, cs), ParentKey(root, Some(ps)), cs, t)
  {
    var r := AfterRecord(s, root, ps, t, cs);
    AddPkgToSpec(s.pkgs, cs);
    AddDepToEdge(s.nodes, root, Some(cs), Some(ps));
    assert PkgEntry(cs) in r.pkgs;
    assert Edge(r.nodes, ParentKey(root, Some(ps)), cs);
  }

  /** The step for child `c` of `x` is visible in `s`, where `name` gives each label's package id. */
  predicate Linked(name: string -> string, s: Snapshot, x: string, c: string) {
    Recorded(s, name(x), name(c), GetNodeType(c))
  }

  /**
   * `closed` is closed under the children the rules give, and every edge out of it is linked in
   * `s`: whatever can be reached from a label in `closed` has been linked.
   */
  ghost predicate ClosedUnder(rules: seq<Rule>, name: string -> string, s: Snapshot, closed: set<string>) {
    forall p, c :: p in closed && c in ChildrenOf(rules, p) ==> Linked(name, s, p, c) && c in closed
  }

  /**
   * The state `set_root_node_package(r)` leaves: package 0 becomes `r`'s root package and node 0
   * is renamed `r`, node id and package id alike.
   */
  ghost function WithRoot(s: Snapshot, r: string): Snapshot
    requires |s.pkgs| > 0 && |s.nodes| > 0 && '@' in r
  {
    Snapshot(s.pkgs[0 := RootPkg(r)], s.nodes[0 := s.nodes[0].(nodeId := r, pkgId := r)], s.deps, s.targets)
  }

  /** `b` only adds to `a`: packages appended, nodes grown, counters not lowered. */
  ghost predicate Extends(a: Snapshot, b: Snapshot) {
    && a.pkgs <= b.pkgs
    && Grows(a.nodes, b.nodes)
    && (forall k :: Get(a.deps, k) <= Get(b.deps, k))
    && (forall k :: Get(a.targets, k) <= Get(b.targets, k))
  }

  /**
   * What the processed lists promise: a label in `seen` is either on the path of calls still
   * running (`stack`) or in the set whose subtrees are linked.
   */
  ghost predicate Sound(stack: seq<string>, seen: seq<string>, closed: set<string>) {
    forall p :: p in seen ==> p in stack || p in closed
  }

  /** A chain of labels, each a child of the one before it. */
  ghost predicate IsPath(rules: seq<Rule>, path: seq<string>) {
    forall k :: 0 < k < |path| ==> path[k] in ChildrenOf(rules, path[k - 1])
  }

  lemma ExtendsTransitive(a: Snapshot, b: Snapshot, c: Snapshot)
    requires Extends(a, b) && Extends(b, c)
    ensures Extends(a, c)
  {
    GrowsTransitive(a.nodes, b.nodes, c.nodes);
  }

  lemma LinkedExtends(name: string -> string, a: Snapshot, b: Snapshot, x: string, c: string)
    requires Extends(a, b) && Linked(name, a, x, c)
    ensures Linked(name, b, x, c)
  {
    GrowsKeepsEdge(a.nodes, b.nodes, name(x), name(c));
  }

  /** A linked closed set stays linked while the walk goes on adding to the graph. */
  lemma ClosedUnderExtends(rules: seq<Rule>, name: string -> string, a: Snapshot, b: Snapshot, closed: set<string>)
    requires Extends(a, b) && ClosedUnder(rules, name, a, closed)
    ensures ClosedUnder(rules, name, b, closed)
  {
    forall p, c | p in closed && c in ChildrenOf(rules, p)
      ensures Linked(name, b, p, c)
    {
      LinkedExtends(name, a, b, p, c);
    }
  }

  /** The first `n` labels of `cs` are linked as children of `x` in `s`, and are in `closed`. */
  ghost predicate AllLinked(name: string -> string, s: Snapshot, x: string, cs: seq<string>, n: nat, closed: set<string>)
    requires n <= |cs|
  {
    forall k :: 0 <= k < n ==> Linked(name, s, x, cs[k]) && cs[k] in closed
  }

  lemma AllLinkedExtends(name: string -> string, a: Snapshot, b: Snapshot, x: string, cs: seq<string>, n: nat, closed: set<string>, closed': set<string>)
    requires n <= |cs|
    requires Extends(a, b) && closed <= closed' && AllLinked(name, a, x, cs, n, closed)
    ensures AllLinked(name, b, x, cs, n, closed')
  {
    forall k | 0 <= k < n
      ensures Linked(name, b, x, cs[k])
    {
      LinkedExtends(name, a, b, x, cs[k]);
    }
  }

  /** A label whose children are all linked and in `closed` can join it. */
  lemma ClosedUnderAdd(rules: seq<Rule>, name: string -> string, s: Snapshot, closed: set<string>, x: string)
    requires ClosedUnder(rules, name, s, closed)
    requires AllLinked(name, s, x, ChildrenOf(rules, x), |ChildrenOf(rules, x)|, closed)
    ensures ClosedUnder(rules, name, s, closed + {x})
  {
    forall p, c | p in closed + {x} && c in ChildrenOf(rules, p)
      ensures Linked(name, s, p, c) && c in closed + {x}
    {
      if p == x {
        var k :| 0 <= k < |ChildrenOf(rules, x)| && ChildrenOf(rules, x)[k] == c;
      }
    }
  }

  /**
   * Completeness of a closed set: along every chain of children that starts in `closed`, each
   * step is linked in `s`.
   */
  lemma {:induction false} ClosedUnderPath(rules: seq<Rule>, name: string -> string, s: Snapshot, closed: set<string>, path: seq<string>)
    requires ClosedUnder(rules, name, s, closed)
    requires |path| > 0 && path[0] in closed && IsPath(rules, path)
    ensures forall k :: 0 < k < |path| ==> Linked(name, s, path[k - 1], path[k])
    ensures forall k :: 0 <= k < |path| ==> path[k] in closed
  {
    if |path| > 1 {
      var init := path[..|path| - 1];
      assert IsPath(rules, init) by {
        forall k | 0 < k < |init|
          ensures init[k] in ChildrenOf(rules, init[k - 1])
        {
          assert init[k] == path[k] && init[k - 1] == path[k - 1];
        }
      }
      ClosedUnderPath(rules, name, s, closed, init);
      var last := |path| - 1;
      assert path[last - 1] == init[last - 1] && path[last - 1] in closed;
      forall k | 0 <= k < last
        ensures path[k] in closed
      {
        assert path[k] == init[k];
      }
      forall k | 0 < k < last
        ensures Linked(name, s, path[k - 1], path[k])
      {
        assert path[k] == init[k] && path[k - 1] == init[k - 1];
      }
    }
  }

  /**
   * Completeness of the walk from `target`: once `target` is in a closed set, every chain of
   * children from it is recorded edge by edge, each child's package listed, the child under its
   * parent's Snyk id, and the child's counter raised.
   */
  lemma WalkComplete(rules: seq<Rule>, source: PackageSource, s: Snapshot, closed: set<string>, target: string)
    requires ClosedUnder(rules, SnykNames(rules, source), s, closed) && target in closed
    ensures forall path :: IsPath(rules, path) && |path| > 0 && path[0] == target ==>
              forall k :: 0 < k < |path| ==>
                Recorded(s, SnykDep(rules, source, path[k - 1]), SnykDep(rules, source, path[k]), GetNodeType(path[k]))
  {
    forall path | IsPath(rules, path) && |path| > 0 && path[0] == target
      ensures forall k :: 0 < k < |path| ==>
                Recorded(s, SnykDep(rules, source, path[k - 1]), SnykDep(rules, source, path[k]), GetNodeType(path[k]))
    {
      ClosedUnderPath(rules, SnykNames(rules, source), s, closed, path);
    }
  }

  // ---------------------------------------------------------------------------
  // Nothing but the rules: what the walk adds comes from the labels it walked

  /** `e` is the package record of a child of a label in `walked`. */
  ghost predicate PkgOfChild(rules: seq<Rule>, name: string -> string, walked: set<string>, e: Pkg) {
    exists p, c :: p in walked && c in ChildrenOf(rules, p) && e == PkgEntry(name(c))
  }

  /** `x -> d` is the edge from a label in `walked` to one of its children, by package ids. */
  ghost predicate EdgeOfChild(rules: seq<Rule>, name: string -> string, walked: set<string>, x: string, d: string) {
    exists p, c :: p in walked && c in ChildrenOf(rules, p) && x == name(p) && d == name(c)
  }

  /** `x` is the package id of a label in `walked`. */
  ghost predicate NameOf(name: string -> string, walked: set<string>, x: string) {
    exists p :: p in walked && x == name(p)
  }

  /** `k` is the package id of a child of a label in `walked`, of node type `Dependency`. */
  ghost predicate DepOfChild(rules: seq<Rule>, name: string -> string, walked: set<string>, k: string) {
    exists p, c :: p in walked && c in ChildrenOf(rules, p) && GetNodeType(c) == Dependency && k == name(c)
  }

  /** `k` is the package id of a child of a label in `walked`, of a target node type. */
  ghost predicate TargetOfChild(rules: seq<Rule>, name: string -> string, walked: set<string>, k: string) {
    exists p, c :: p in walked && c in ChildrenOf(rules, p) && IsTarget(GetNodeType(c)) && k == name(c)
  }

  /** Each package `pkgs` has beyond the first `n` is a child's record. */
  ghost predicate PkgsFrom(rules: seq<Rule>, name: string -> string, n: nat, pkgs: seq<Pkg>, walked: set<string>) {
    forall j :: n <= j < |pkgs| ==> PkgOfChild(rules, name, walked, pkgs[j])
  }

  /**
   * Each edge `nodes` has beyond `base` (a dep a node did not list there) runs from a walked
   * label's node to one of its children, and each node beyond `base` is a walked label's own.
   */
  ghost predicate NodesFrom(rules: seq<Rule>, name: string -> string, base: seq<Node>, nodes: seq<Node>, walked: set<string>) {
    && (forall j, d :: 0 <= j < |nodes| && d in nodes[j].deps && !(j < |base| && d in base[j].deps) ==>
          EdgeOfChild(rules, name, walked, nodes[j].nodeId, d))
    && (forall j :: |base| <= j < |nodes| ==> nodes[j].nodeId == nodes[j].pkgId && NameOf(name, walked, nodes[j].nodeId))
  }

  /** A counter only rose, from `base` to `s`, for a child of the counter's kind. */
  ghost predicate CountsFrom(rules: seq<Rule>, name: string -> string, base: Snapshot, s: Snapshot, walked: set<string>) {
    && (forall k :: Get(s.deps, k) > Get(base.deps, k) ==> DepOfChild(rules, name, walked, k))
    && (forall k :: Get(s.targets, k) > Get(base.targets, k) ==> TargetOfChild(rules, name, walked, k))
  }

  /**
   * Everything `s` has beyond `base` comes from the rules, read from the labels in `walked`:
   * each new package is a child's record, each new edge runs from a walked label's node to one
   * of its children, each new node is a walked label's own, and a counter only rose for a child
   * of the counter's kind.
   */
  ghost predicate OnlyFrom(rules: seq<Rule>, name: string -> string, base: Snapshot, s: Snapshot, walked: set<string>) {
    && PkgsFrom(rules, name, |base.pkgs|, s.pkgs, walked)
    && NodesFrom(rules, name, base.nodes, s.nodes, walked)
    && CountsFrom(rules, name, base, s, walked)
  }

  /** Each label of `ys` is a child of a label of `zs`. */
  ghost predicate ChildrenWithin(rules: seq<Rule>, ys: set<string>, zs: set<string>) {
    forall y :: y in ys ==> exists z :: z in zs && y in ChildrenOf(rules, z)
  }

  lemma OnlyFromNothing(rules: seq<Rule>, name: string -> string, s: Snapshot, walked: set<string>)
    ensures OnlyFrom(rules, name, s, s, walked)
  {
  }

  /** More walked labels only explain more. */
  lemma OnlyFromWiden(rules: seq<Rule>, name: string -> string, a: Snapshot, b: Snapshot, v: set<string>, u: set<string>)
    requires OnlyFrom(rules, name, a, b, v) && v <= u
    ensures OnlyFrom(rules, name, a, b, u)
  {
  }

  lemma NodesFromTrans(rules: seq<Rule>, name: string -> string, a: seq<Node>, b: seq<Node>, c: seq<Node>,
                       v: set<string>, w: set<string>, u: set<string>)
    requires NodesFrom(rules, name, a, b, v) && NodesFrom(rules, name, b, c, w) && Grows(b, c)
    requires v <= u && w <= u
    ensures NodesFrom(rules, name, a, c, u)
  {
    forall j, d | 0 <= j < |c| && d in c[j].deps && !(j < |a| && d in a[j].deps)
      ensures EdgeOfChild(rules, name, u, c[j].nodeId, d)
    {
      if j < |b| && d in b[j].deps {
        assert c[j].nodeId == b[j].nodeId;
      }
    }
    forall j | |a| <= j < |c|
      ensures c[j].nodeId == c[j].pkgId && NameOf(name, u, c[j].nodeId)
    {
      if j < |b| {
        assert c[j].nodeId == b[j].nodeId && c[j].pkgId == b[j].pkgId;
      }
    }
  }

  /** Two stretches of the walk, each explained by its labels, are explained together. */
  lemma OnlyFromTrans(rules: seq<Rule>, name: string -> string, a: Snapshot, b: Snapshot, c: Snapshot,
                      v: set<string>, w: set<string>, u: set<string>)
    requires OnlyFrom(rules, name, a, b, v) && OnlyFrom(rules, name, b, c, w) && Extends(b, c)
    requires v <= u && w <= u
    ensures OnlyFrom(rules, name, a, c, u)
  {
    forall j | |a.pkgs| <= j < |c.pkgs|
      ensures PkgOfChild(rules, name, u, c.pkgs[j])
    {
      if j < |b.pkgs| {
        assert c.pkgs[j] == b.pkgs[j];
      }
    }
    NodesFromTrans(rules, name, a.nodes, b.nodes, c.nodes, v, w, u);
    forall k | Get(c.deps, k) > Get(a.deps, k)
      ensures DepOfChild(rules, name, u, k)
    {
      if Get(b.deps, k) <= Get(a.deps, k) {
        assert Get(c.deps, k) > Get(b.deps, k);
      }
    }
    forall k | Get(c.targets, k) > Get(a.targets, k)
      ensures TargetOfChild(rules, name, u, k)
    {
      if Get(b.targets, k) <= Get(a.targets, k) {
        assert Get(c.targets, k) > Get(b.targets, k);
      }
    }
  }

  /** Adding child `cs` under the walked label `p`'s node adds only that edge, or `p`'s own node. */
  lemma AddDepNodesFrom(rules: seq<Rule>, name: string -> string, base: seq<Node>, nodes: seq<Node>, root: string,
                        walked: set<string>, p: string, cs: string)
    requires NodesFrom(rules, name, base, nodes, walked)
    requires EdgeOfChild(rules, name, walked, name(p), cs) && NameOf(name, walked, name(p)) && name(p) != ""
    ensures NodesFrom(rules, name, base, AddDepTo(nodes, root, Some(cs), Some(name(p))), walked)
  {
    var ps := name(p);
    var r := AddDepTo(nodes, root, Some(cs), Some(ps));
    AddDepToShape(nodes, root, Some(cs), Some(ps));
    var i := NodeIndex(nodes, ps);
    forall j, d | 0 <= j < |r| && d in r[j].deps && !(j < |base| && d in base[j].deps)
      ensures EdgeOfChild(rules, name, walked, r[j].nodeId, d)
    {
      if j < |nodes| && d in nodes[j].deps {
        assert r[j].nodeId == nodes[j].nodeId;
      } else if 0 <= i {
        assert j == i && r[j] == nodes[i].(deps := nodes[i].deps + [cs]);
      } else {
        assert j == |nodes|;
      }
    }
  }

  /** Recording child `c` of a walked label `p` adds only what that edge explains. */
  lemma AfterRecordOnlyFrom(rules: seq<Rule>, name: string -> string, base: Snapshot, s: Snapshot, root: string,
                            walked: set<string>, p: string, c: string)
    requires OnlyFrom(rules, name, base, s, walked)
    requires p in walked && c in ChildrenOf(rules, p) && name(p) != ""
    ensures OnlyFrom(rules, name, base, AfterRecord(s, root, name(p), GetNodeType(c), name(c)), walked)
  {
    var ps, cs := name(p), name(c);
    var r := AfterRecord(s, root, ps, GetNodeType(c), cs);
    AddPkgToSpec(s.pkgs, cs);
    assert PkgOfChild(rules, name, walked, PkgEntry(cs));
    forall j | |base.pkgs| <= j < |r.pkgs|
      ensures PkgOfChild(rules, name, walked, r.pkgs[j])
    {
      if j < |s.pkgs| {
        assert r.pkgs[j] == s.pkgs[j];
      } else {
        assert r.pkgs == s.pkgs + [PkgEntry(cs)];
      }
    }
    assert EdgeOfChild(rules, name, walked, ps, cs);
    assert NameOf(name, walked, ps);
    AddDepNodesFrom(rules, name, base.nodes, s.nodes, root, walked, p, cs);
    forall k | Get(r.deps, k) > Get(base.deps, k)
      ensures DepOfChild(rules, name, walked, k)
    {
      if k == cs && GetNodeType(c) == Dependency {
        assert p in walked && c in ChildrenOf(rules, p);
      } else {
        assert Get(r.deps, k) == Get(s.deps, k);
      }
    }
    forall k | Get(r.targets, k) > Get(base.targets, k)
      ensures TargetOfChild(rules, name, walked, k)
    {
      if k == cs && IsTarget(GetNodeType(c)) {
        assert p in walked && c in ChildrenOf(rules, p);
      } else {
        assert Get(r.targets, k) == Get(s.targets, k);
      }
    }
  }

  /** The leaf step for a walked label `p` adds at most `p`'s own node, with no edge. */
  lemma LeafOnlyFrom(rules: seq<Rule>, name: string -> string, base: Snapshot, s: Snapshot, root: string,
                     walked: set<string>, p: string)
    requires OnlyFrom(rules, name, base, s, walked)
    requires p in walked && name(p) != ""
    ensures OnlyFrom(rules, name, base, s.(nodes := AddDepTo(s.nodes, root, None, Some(name(p)))), walked)
  {
    var r := AddDepTo(s.nodes, root, None, Some(name(p)));
    AddDepToShape(s.nodes, root, None, Some(name(p)));
    assert NameOf(name, walked, name(p));
    forall j, d | 0 <= j < |r| && d in r[j].deps && !(j < |base.nodes| && d in base.nodes[j].deps)
      ensures EdgeOfChild(rules, name, walked, r[j].nodeId, d)
    {
      assert j < |s.nodes| && r[j] == s.nodes[j];
    }
  }

  /** A child walked under `x`, with its own walk below it, leaves its labels children of walked labels or of `x`. */
  lemma ChildrenWithinChild(rules: seq<Rule>, closed0: set<string>, closed: set<string>, x: string, c: string)
    requires c in ChildrenOf(rules, x) && ChildrenWithin(rules, closed - closed0 - {c}, closed)
    ensures ChildrenWithin(rules, closed - closed0, closed + {x})
  {
    forall y | y in closed - closed0
      ensures exists z :: z in closed + {x} && y in ChildrenOf(rules, z)
    {
      if y == c {
        assert x in closed + {x};
      } else {
        assert y in closed - closed0 - {c};
        var z :| z in closed && y in ChildrenOf(rules, z);
        assert z in closed + {x};
      }
    }
  }

  /** Fewer labels, among more parents. */
  lemma ChildrenWithinMono(rules: seq<Rule>, ys: set<string>, zs: set<string>, ys': set<string>, zs': set<string>)
    requires ChildrenWithin(rules, ys, zs) && ys' <= ys && zs <= zs'
    ensures ChildrenWithin(rules, ys', zs')
  {
  }

  /** Walked sets put together: children of labels in the parts are children of labels in the whole. */
  lemma ChildrenWithinUnion(rules: seq<Rule>, ys: set<string>, ys': set<string>, zs: set<string>, zs': set<string>, u: set<string>)
    requires ChildrenWithin(rules, ys, zs) && ChildrenWithin(rules, ys', zs') && zs <= u && zs' <= u
    ensures ChildrenWithin(rules, ys + ys', u)
  {
  }

  /**
   * The threshold of `prune_graph(20, 5)`, the smart pruning `generate --prune` runs: an id is
   * pruned exactly when it is counted more than once and either more than 20 times or in more
   * than one path in twenty.
   */
  lemma SmartPrunePolicy(m: Counts, k: string)
    requires KeysUnique(m)
    ensures k in PruneIds(m, 20, 5) <==>
              0 <= KeyIndex(m, k) && Get(m, k) > 1 && (Get(m, k) > 20 || 20 * Get(m, k) > Sum(m))
  {
    PruneIdsMember(m, 20, 5, k);
    if Get(m, k) > 1 {
      CeilPercentAbove(Get(m, k), Sum(m), 5);
    }
  }

  /** The module-level state `g` of the command-line tool. */
  class Walk {
    const source: PackageSource
    const parser: RuleIndex
    const graph: SnykDepGraph.DepGraph
    var processedSubtree: seq<string>
    var processedTemp: seq<string>
    var depPathCounts: Counts
    var targetPathCounts: Counts

    ghost predicate Valid()
      reads this, parser, graph
    {
      parser.Valid() && graph.Valid() && CountersValid()
    }

    /** Both counters are proper dicts, keyed by package ids (never empty, since each has an `@`). */
    ghost predicate CountersValid()
      reads this`depPathCounts, this`targetPathCounts
    {
      && KeysUnique(depPathCounts) && KeysAvoid(depPathCounts, {""})
      && KeysUnique(targetPathCounts) && KeysAvoid(targetPathCounts, {""})
    }

    ghost function Snap(): Snapshot
      reads this, graph
    {
      Snapshot(graph.pkgs, graph.nodes, depPathCounts, targetPathCounts)
    }

    /**
     * The state `generate` starts from: empty processed lists and counters, a fresh graph for the
     * chosen package manager and a rule index over the query output (created with the
     * parser's default manager name `maven`).
     */
    constructor (rules: seq<Rule>, source: PackageSource)
      ensures Valid()
      ensures this.source == source && parser.rules == rules && parser.depCache == []
      ensures graph.pkgManagerName == SourceName(source)
      ensures graph.pkgs == InitialPkgs && graph.nodes == InitialNodes && graph.rootNodeId == InitialRootId
      ensures processedSubtree == [] && processedTemp == []
      ensures depPathCounts == [] && targetPathCounts == []
      ensures fresh(parser) && fresh(graph)
    {
      this.source := source;
      parser := new RuleIndex(rules, "maven");
      graph := new SnykDepGraph.DepGraph(SourceName(source));
      processedSubtree := [];
      processedTemp := [];
      depPathCounts := [];
      targetPathCounts := [];
    }

    /** `snyk_dep_from_bazel_dep`: the package id of a label. */
    method SnykDepFromBazelDep(id: string) returns (snykDep: string)
      ensures snykDep == SnykDep(parser.rules, source, id)
    {
      var nodeType := GetNodeType(id);
      if nodeType == Dependency {
        snykDep := parser.GetCoordinatesFromBazelDep(id, source);
      } else {
        snykDep := id + "@" + BazelTargetVersion;
      }
    }

    /** `increment_dep_path_count`: one more path reaches `dep`. */
    method IncrementDepPathCount(dep: string)
      modifies this`depPathCounts
      ensures depPathCounts == Increment(old(depPathCounts), dep)
      ensures Get(depPathCounts, dep) == Get(old(depPathCounts), dep) + 1
      ensures forall k :: k != dep ==> Get(depPathCounts, k) == Get(old(depPathCounts), k)
    {
      depPathCounts := Increment(depPathCounts, dep);
    }

    /** `increment_target_path_count`: one more path reaches the target `dep`. */
    method IncrementTargetPathCount(dep: string)
      modifies this`targetPathCounts
      ensures targetPathCounts == Increment(old(targetPathCounts), dep)
      ensures Get(targetPathCounts, dep) == Get(old(targetPathCounts), dep) + 1
      ensures forall k :: k != dep ==> Get(targetPathCounts, k) == Get(old(targetPathCounts), k)
    {
      targetPathCounts := Increment(targetPathCounts, dep);
    }

    /** The counting step of `bazel_to_depgraph`: a path to a dependency or to a target is counted under the child's package id. */
    method CountPath(child: string, childSnyk: string)
      requires CountersValid() && childSnyk != ""
      modifies this`depPathCounts, this`targetPathCounts
      ensures CountersValid()
      ensures depPathCounts == if GetNodeType(child) == Dependency then Increment(old(depPathCounts), childSnyk) else old(depPathCounts)
      ensures targetPathCounts == if IsTarget(GetNodeType(child)) then Increment(old(targetPathCounts), childSnyk) else old(targetPathCounts)
      ensures forall k :: Get(old(depPathCounts), k) <= Get(depPathCounts, k)
      ensures forall k :: Get(old(targetPathCounts), k) <= Get(targetPathCounts, k)
      ensures GetNodeType(child) == Dependency ==> Get(depPathCounts, childSnyk) >= 1
      ensures IsTarget(GetNodeType(child)) ==> Get(targetPathCounts, childSnyk) >= 1
    {
      var nodeType := GetNodeType(child);
      if nodeType == Dependency {
        IncrementDepPathCount(childSnyk);
      } else if nodeType == InternalTarget || nodeType == ExternalTarget {
        IncrementTargetPathCount(childSnyk);
      }
    }

    /**
     * What `bazel_to_depgraph` does for each child once it has the child's package id: record
     * the package, count the path by the child's kind, list the child under the parent, and
     * note the parent as processed-pending.
     */
    method RecordChild(parentNodeId: string, parentSnyk: string, child: string, childSnyk: string)
      requires Valid() && childSnyk == SnykDep(parser.rules, source, child)
      modifies this`depPathCounts, this`targetPathCounts, this`processedTemp, graph`pkgs, graph`nodes
      ensures Valid()
      ensures Snap() == AfterRecord(old(Snap()), graph.rootNodeId, parentSnyk, GetNodeType(child), childSnyk)
      ensures processedTemp == old(processedTemp) + [parentNodeId]
      ensures Extends(old(Snap()), Snap())
      ensures Recorded(Snap(), ParentKey(graph.rootNodeId, Some(parentSnyk)), childSnyk, GetNodeType(child))
    {
      ghost var before := Snap();
      var _ := graph.AddPkg(childSnyk);
      assert childSnyk[RFind(childSnyk, '@')] == '@';
      CountPath(child, childSnyk);
      graph.AddDep(Some(childSnyk), Some(parentSnyk));
      processedTemp := processedTemp + [parentNodeId];
      AfterRecordExtends(before, graph.rootNodeId, parentSnyk, GetNodeType(child), childSnyk);
      AfterRecordRecorded(before, graph.rootNodeId, parentSnyk, GetNodeType(child), childSnyk);
    }

    /**
     * `bazel_to_depgraph(parentNodeId, depth)`: walks the children the rules give the label.
     * The root call (depth 0) makes the label's package the graph's root. Each child is
     * recorded under the parent and, unless an earlier leaf already marked it processed, walked
     * in turn; a label without children gets a node of its own and moves the pending labels to
     * the processed list. On acyclic rules (`rank`) the walk ends, and the labels it has walked
     * (`closed`, which holds the parent) have every edge below them linked in the graph.
     */
    method BazelToDepGraph(parentNodeId: string, depth: nat, ghost rank: map<string, nat>,
                           ghost stack: seq<string>, ghost closed0: set<string>)
      returns (ghost closed: set<string>)
      requires Valid() && Acyclic(parser.rules, rank) && parentNodeId in rank
      requires forall a :: a in stack ==> a in rank && rank[a] > rank[parentNodeId]
      requires depth == 0 ==> processedSubtree == [] && processedTemp == []
      requires depth > 0 ==> ClosedUnder(parser.rules, SnykNames(parser.rules, source), Snap(), closed0)
      requires depth > 0 ==> closed0 <= rank.Keys
      requires depth > 0 ==> Sound(stack, processedSubtree + processedTemp, closed0)
      modifies this, parser`depCache, graph`pkgs, graph`nodes, graph`rootNodeId
      decreases rank[parentNodeId], 3
      ensures Valid()
      ensures parentNodeId in closed
      ensures closed <= rank.Keys
      ensures ClosedUnder(parser.rules, SnykNames(parser.rules, source), Snap(), closed)
      ensures Sound(stack, processedSubtree + processedTemp, closed)
      ensures depth > 0 ==> closed0 <= closed && Extends(old(Snap()), Snap())
      ensures depth > 0 ==> graph.rootNodeId == old(graph.rootNodeId)
      ensures depth == 0 ==> graph.rootNodeId == SnykDep(parser.rules, source, parentNodeId)
      ensures depth == 0 ==> Extends(WithRoot(old(Snap()), SnykDep(parser.rules, source, parentNodeId)), Snap())
      ensures depth == 0 ==> && graph.pkgs[0] == RootPkg(SnykDep(parser.rules, source, parentNodeId))
                             && graph.nodes[0].nodeId == graph.nodes[0].pkgId == SnykDep(parser.rules, source, parentNodeId)
      ensures depth > 0 ==> && OnlyFrom(parser.rules, SnykNames(parser.rules, source), old(Snap()), Snap(), closed)
                            && ChildrenWithin(parser.rules, closed - closed0 - {parentNodeId}, closed)
      ensures depth == 0 ==> && OnlyFrom(parser.rules, SnykNames(parser.rules, source),
                                         WithRoot(old(Snap()), SnykDep(parser.rules, source, parentNodeId)), Snap(), closed)
                             && ChildrenWithin(parser.rules, closed - {parentNodeId}, closed)
      ensures ChildrenOf(parser.rules, parentNodeId) == [] ==>
                processedSubtree == old(processedSubtree) + old(processedTemp) && processedTemp == []
    {
      var children := parser.GetChildrenFromRule(parentNodeId);
      var parentSnyk := SnykDepFromBazelDep(parentNodeId);
      if depth == 0 {
        graph.SetRootNodePackage(parentSnyk);
      }
      ghost var start := Snap();
      assert depth == 0 ==> start == WithRoot(old(Snap()), parentSnyk);
      ghost var below := if depth == 0 then {} else closed0;
      closed := WalkChildren(parentNodeId, parentSnyk, children, depth, rank, stack, below);
      if depth == 0 {
        assert closed - below - {parentNodeId} == closed - {parentNodeId};
      }
    }

    /**
     * `bazel_to_depgraph` once the root, if any, is set: the loop over the children, then the
     * leaf step for a label without any; the parent joins the walked labels `below`.
     */
    method WalkChildren(parentNodeId: string, parentSnyk: string, children: seq<string>, depth: nat,
                        ghost rank: map<string, nat>, ghost stack: seq<string>, ghost below: set<string>)
      returns (ghost closed: set<string>)
      requires Valid() && Acyclic(parser.rules, rank) && parentNodeId in rank
      requires children == ChildrenOf(parser.rules, parentNodeId)
      requires parentSnyk == SnykDep(parser.rules, source, parentNodeId)
      requires forall a :: a in stack ==> a in rank && rank[a] > rank[parentNodeId]
      requires ClosedUnder(parser.rules, SnykNames(parser.rules, source), Snap(), below)
      requires below <= rank.Keys
      requires Sound(stack, processedSubtree + processedTemp, below)
      modifies this, parser`depCache, graph`pkgs, graph`nodes, graph`rootNodeId
      decreases rank[parentNodeId], 2
      ensures Valid()
      ensures graph.rootNodeId == old(graph.rootNodeId)
      ensures below <= closed && parentNodeId in closed
      ensures closed <= rank.Keys
      ensures ClosedUnder(parser.rules, SnykNames(parser.rules, source), Snap(), closed)
      ensures Sound(stack, processedSubtree + processedTemp, closed)
      ensures Extends(old(Snap()), Snap())
      ensures OnlyFrom(parser.rules, SnykNames(parser.rules, source), old(Snap()), Snap(), closed)
      ensures ChildrenWithin(parser.rules, closed - below - {parentNodeId}, closed)
      ensures children == [] ==>
                processedSubtree == old(processedSubtree) + old(processedTemp) && processedTemp == []
    {
      ghost var start := Snap();
      closed := VisitChildren(parentNodeId, parentSnyk, children, depth, rank, stack, below);
      if |children| == 0 {
        FinishLeaf(parentNodeId, parentSnyk, start, closed);
      }
      ChildrenWithinMono(parser.rules, closed - below, closed + {parentNodeId},
                         closed + {parentNodeId} - below - {parentNodeId}, closed + {parentNodeId});
      ClosedUnderAdd(parser.rules, SnykNames(parser.rules, source), Snap(), closed, parentNodeId);
      closed := closed + {parentNodeId};
    }

    /** The loop of `bazel_to_depgraph`: each child in turn, as `VisitChild` says. */
    method VisitChildren(parentNodeId: string, parentSnyk: string, children: seq<string>, depth: nat,
                         ghost rank: map<string, nat>, ghost stack: seq<string>, ghost closed0: set<string>)
      returns (ghost closed: set<string>)
      requires Valid() && Acyclic(parser.rules, rank) && parentNodeId in rank
      requires children == ChildrenOf(parser.rules, parentNodeId)
      requires parentSnyk == SnykDep(parser.rules, source, parentNodeId)
      requires forall a :: a in stack ==> a in rank && rank[a] > rank[parentNodeId]
      requires ClosedUnder(parser.rules, SnykNames(parser.rules, source), Snap(), closed0)
      requires closed0 <= rank.Keys
      requires Sound(stack + [parentNodeId], processedSubtree + processedTemp, closed0)
      modifies this, parser`depCache, graph`pkgs, graph`nodes, graph`rootNodeId
      decreases rank[parentNodeId], 1
      ensures Valid()
      ensures graph.rootNodeId == old(graph.rootNodeId)
      ensures Extends(old(Snap()), Snap())
      ensures closed0 <= closed
      ensures closed <= rank.Keys
      ensures ClosedUnder(parser.rules, SnykNames(parser.rules, source), Snap(), closed)
      ensures Sound(stack + [parentNodeId], processedSubtree + processedTemp, closed)
      ensures AllLinked(SnykNames(parser.rules, source), Snap(), parentNodeId, children, |children|, closed)
      ensures OnlyFrom(parser.rules, SnykNames(parser.rules, source), old(Snap()), Snap(), closed + {parentNodeId})
      ensures ChildrenWithin(parser.rules, closed - closed0, closed + {parentNodeId})
      ensures children == [] ==> processedSubtree == old(processedSubtree) && processedTemp == old(processedTemp)
    {
      closed := closed0;
      ghost var start := Snap();
      OnlyFromNothing(parser.rules, SnykNames(parser.rules, source), start, {parentNodeId});
      for i := 0 to |children|
        invariant Valid()
        invariant graph.rootNodeId == old(graph.rootNodeId)
        invariant Extends(start, Snap())
        invariant closed0 <= closed
        invariant closed <= rank.Keys
        invariant ClosedUnder(parser.rules, SnykNames(parser.rules, source), Snap(), closed)
        invariant Sound(stack + [parentNodeId], processedSubtree + processedTemp, closed)
        invariant AllLinked(SnykNames(parser.rules, source), Snap(), parentNodeId, children, i, closed)
        invariant OnlyFrom(parser.rules, SnykNames(parser.rules, source), start, Snap(), closed + {parentNodeId})
        invariant ChildrenWithin(parser.rules, closed - closed0, closed + {parentNodeId})
        invariant i == 0 ==> processedSubtree == old(processedSubtree) && processedTemp == old(processedTemp)
      {
        ghost var before, closedBefore := Snap(), closed;
        closed := VisitNext(parentNodeId, parentSnyk, children, i, depth, rank, stack, closed);
        ExtendsTransitive(start, before, Snap());
        OnlyFromTrans(parser.rules, SnykNames(parser.rules, source), start, before, Snap(),
                      closedBefore + {parentNodeId}, closed + {parentNodeId}, closed + {parentNodeId});
        assert closed - closed0 == (closedBefore - closed0) + (closed - closedBefore);
        ChildrenWithinUnion(parser.rules, closedBefore - closed0, closed - closedBefore,
                            closedBefore + {parentNodeId}, closed + {parentNodeId}, closed + {parentNodeId});
      }
    }

    /** One turn of the loop of `bazel_to_depgraph`: child `i` is visited, and it joins the linked children before it. */
    method VisitNext(parentNodeId: string, parentSnyk: string, children: seq<string>, i: nat, depth: nat,
                     ghost rank: map<string, nat>, ghost stack: seq<string>, ghost closed0: set<string>)
      returns (ghost closed: set<string>)
      requires Valid() && Acyclic(parser.rules, rank) && parentNodeId in rank
      requires children == ChildrenOf(parser.rules, parentNodeId) && i < |children|
      requires parentSnyk == SnykDep(parser.rules, source, parentNodeId)
      requires forall a :: a in stack ==> a in rank && rank[a] > rank[parentNodeId]
      requires ClosedUnder(parser.rules, SnykNames(parser.rules, source), Snap(), closed0)
      requires closed0 <= rank.Keys
      requires Sound(stack + [parentNodeId], processedSubtree + processedTemp, closed0)
      requires AllLinked(SnykNames(parser.rules, source), Snap(), parentNodeId, children, i, closed0)
      modifies this, parser`depCache, graph`pkgs, graph`nodes, graph`rootNodeId
      decreases rank[parentNodeId], 0
      ensures Valid()
      ensures graph.rootNodeId == old(graph.rootNodeId)
      ensures Extends(old(Snap()), Snap())
      ensures closed0 <= closed
      ensures closed <= rank.Keys
      ensures ClosedUnder(parser.rules, SnykNames(parser.rules, source), Snap(), closed)
      ensures Sound(stack + [parentNodeId], processedSubtree + processedTemp, closed)
      ensures AllLinked(SnykNames(parser.rules, source), Snap(), parentNodeId, children, i + 1, closed)
      ensures OnlyFrom(parser.rules, SnykNames(parser.rules, source), old(Snap()), Snap(), closed + {parentNodeId})
      ensures ChildrenWithin(parser.rules, closed - closed0, closed + {parentNodeId})
    {
      ghost var before := Snap();
      assert children[i] in ChildrenOf(parser.rules, parentNodeId);
      assert children[i] in rank && rank[children[i]] < rank[parentNodeId];
      closed := VisitChild(parentNodeId, parentSnyk, children[i], depth, rank, stack + [parentNodeId], closed0);
      AllLinkedExtends(SnykNames(parser.rules, source), before, Snap(), parentNodeId, children, i, closed0, closed);
    }

    /**
     * The leaf case of `bazel_to_depgraph`: the parent gets a node, and the pending labels become
     * processed. What the walk since `start` added stays linked below `closed` and explained by
     * `closed` and the parent.
     */
    method FinishLeaf(ghost parentNodeId: string, parentSnyk: string, ghost start: Snapshot, ghost closed: set<string>)
      requires Valid() && parentSnyk == SnykDep(parser.rules, source, parentNodeId)
      requires Extends(start, Snap()) && ClosedUnder(parser.rules, SnykNames(parser.rules, source), Snap(), closed)
      requires OnlyFrom(parser.rules, SnykNames(parser.rules, source), start, Snap(), closed + {parentNodeId})
      modifies this`processedSubtree, this`processedTemp, graph`nodes
      ensures Valid()
      ensures graph.nodes == AddDepTo(old(graph.nodes), graph.rootNodeId, None, Some(parentSnyk))
      ensures processedSubtree == old(processedSubtree) + old(processedTemp) && processedTemp == []
      ensures Extends(old(Snap()), Snap()) && Extends(start, Snap())
      ensures ClosedUnder(parser.rules, SnykNames(parser.rules, source), Snap(), closed)
      ensures OnlyFrom(parser.rules, SnykNames(parser.rules, source), start, Snap(), closed + {parentNodeId})
    {
      ghost var looped := Snap();
      graph.AddDep(None, Some(parentSnyk));
      processedSubtree := processedSubtree + processedTemp;
      processedTemp := [];
      ClosedUnderExtends(parser.rules, SnykNames(parser.rules, source), looped, Snap(), closed);
      ExtendsTransitive(start, looped, Snap());
      assert SnykNames(parser.rules, source)(parentNodeId) == parentSnyk;
      assert Snap() == looped.(nodes := AddDepTo(looped.nodes, graph.rootNodeId, None, Some(parentSnyk)));
      LeafOnlyFrom(parser.rules, SnykNames(parser.rules, source), start, looped, graph.rootNodeId,
                   closed + {parentNodeId}, parentNodeId);
    }

    /**
     * The body of the loop of `bazel_to_depgraph` for one child: record it under the parent,
     * then walk it unless it is already in the processed list. A child that is skipped is
     * nevertheless linked, since a processed label not on the current path has been walked.
     */
    method VisitChild(parentNodeId: string, parentSnyk: string, child: string, depth: nat,
                      ghost rank: map<string, nat>, ghost stack: seq<string>, ghost closed0: set<string>)
      returns (ghost closed: set<string>)
      requires Valid() && Acyclic(parser.rules, rank) && child in rank
      requires child in ChildrenOf(parser.rules, parentNodeId)
      requires parentSnyk == SnykDep(parser.rules, source, parentNodeId)
      requires parentNodeId in stack
      requires forall a :: a in stack ==> a in rank && rank[a] > rank[child]
      requires ClosedUnder(parser.rules, SnykNames(parser.rules, source), Snap(), closed0)
      requires closed0 <= rank.Keys
      requires Sound(stack, processedSubtree + processedTemp, closed0)
      modifies this, parser`depCache, graph`pkgs, graph`nodes, graph`rootNodeId
      decreases rank[child], 4
      ensures Valid()
      ensures graph.rootNodeId == old(graph.rootNodeId)
      ensures Extends(old(Snap()), Snap())
      ensures closed0 <= closed && child in closed
      ensures closed <= rank.Keys
      ensures Linked(SnykNames(parser.rules, source), Snap(), parentNodeId, child)
      ensures ClosedUnder(parser.rules, SnykNames(parser.rules, source), Snap(), closed)
      ensures Sound(stack, processedSubtree + processedTemp, closed)
      ensures OnlyFrom(parser.rules, SnykNames(parser.rules, source), old(Snap()), Snap(), closed + {parentNodeId})
      ensures ChildrenWithin(parser.rules, closed - closed0, closed + {parentNodeId})
      ensures old(child in processedSubtree) ==>
                && processedSubtree == old(processedSubtree)
                && processedTemp == old(processedTemp) + [parentNodeId]
                && graph.pkgs == AddPkgTo(old(graph.pkgs), SnykDep(parser.rules, source, child))
                && graph.nodes == AddDepTo(old(graph.nodes), graph.rootNodeId, Some(SnykDep(parser.rules, source, child)), Some(parentSnyk))
    {
      var childSnyk := SnykDepFromBazelDep(child);
      ghost var before := Snap();
      RecordChild(parentNodeId, parentSnyk, child, childSnyk);
      ClosedUnderExtends(parser.rules, SnykNames(parser.rules, source), before, Snap(), closed0);
      assert Linked(SnykNames(parser.rules, source), Snap(), parentNodeId, child);
      assert SnykNames(parser.rules, source)(parentNodeId) == parentSnyk;
      assert SnykNames(parser.rules, source)(child) == childSnyk;
      OnlyFromNothing(parser.rules, SnykNames(parser.rules, source), before, {parentNodeId});
      AfterRecordOnlyFrom(parser.rules, SnykNames(parser.rules, source), before, before, graph.rootNodeId,
                          {parentNodeId}, parentNodeId, child);
      closed := closed0;
      if child !in processedSubtree {
        ghost var recorded := Snap();
        closed := BazelToDepGraph(child, depth + 1, rank, stack, closed0);
        LinkedExtends(SnykNames(parser.rules, source), recorded, Snap(), parentNodeId, child);
        ExtendsTransitive(before, recorded, Snap());
        OnlyFromTrans(parser.rules, SnykNames(parser.rules, source), before, recorded, Snap(),
                      {parentNodeId}, closed, closed + {parentNodeId});
        ChildrenWithinChild(parser.rules, closed0, closed, parentNodeId, child);
      } else {
        OnlyFromWiden(parser.rules, SnykNames(parser.rules, source), before, Snap(), {parentNodeId}, closed + {parentNodeId});
      }
    }

    /**
     * One loop of `prune_graph_all`: prunes, in iteration order, every key of `counts` counted
     * more than `threshold` times.
     */
    method PruneAbove(counts: Counts, threshold: int)
      requires graph.Valid()
      modifies graph`pkgs, graph`nodes
      ensures graph.Valid()
      ensures graph.nodes == PruneAllNodes(old(graph.nodes), graph.rootNodeId, Above(counts, threshold))
      ensures graph.pkgs == PruneAllPkgs(old(graph.pkgs), Above(counts, threshold))
    {
      ghost var nodes0, pkgs0 := graph.nodes, graph.pkgs;
      for i := 0 to |counts|
        invariant graph.Valid()
        invariant graph.nodes == PruneAllNodes(nodes0, graph.rootNodeId, Above(counts[..i], threshold))
        invariant graph.pkgs == PruneAllPkgs(pkgs0, Above(counts[..i], threshold))
      {
        AboveStep(counts, threshold, i);
        PruneIfAbove(counts[i].key, counts[i].count, threshold, nodes0, pkgs0, Above(counts[..i], threshold));
      }
      assert counts[..|counts|] == counts;
    }

    /**
     * One step of a `prune_graph_all` loop, after the ids `done` have been pruned from
     * `nodes0` and `pkgs0`: an entry counted more than `threshold` times is pruned next.
     */
    method PruneIfAbove(key: string, count: nat, threshold: int,
                        ghost nodes0: seq<Node>, ghost pkgs0: seq<Pkg>, ghost done: seq<string>)
      requires graph.Valid()
      requires graph.nodes == PruneAllNodes(nodes0, graph.rootNodeId, done)
      requires graph.pkgs == PruneAllPkgs(pkgs0, done)
      modifies graph`pkgs, graph`nodes
      ensures graph.Valid()
      ensures var ids := if count > threshold then done + [key] else done;
              graph.nodes == PruneAllNodes(nodes0, graph.rootNodeId, ids) && graph.pkgs == PruneAllPkgs(pkgs0, ids)
    {
      PruneAllStep(nodes0, pkgs0, graph.rootNodeId, done, key);
      if count > threshold {
        graph.PruneDep(key);
      }
    }

    /**
     * `prune_graph_all`: prunes, in order, every dependency counted more than twice, then every
     * target counted more than ten times. Unless the meta id is itself among them, each pruned
     * id ends up listed by the meta node alone.
     */
    method PruneGraphAll()
      requires Valid()
      modifies graph`pkgs, graph`nodes
      ensures Valid()
      ensures var ids := Above(depPathCounts, 2) + Above(targetPathCounts, 10);
              && graph.nodes == PruneAllNodes(old(graph.nodes), graph.rootNodeId, ids)
              && graph.pkgs == PruneAllPkgs(old(graph.pkgs), ids)
              && (forall k :: k in ids <==>
                    || (0 <= KeyIndex(depPathCounts, k) && Get(depPathCounts, k) > 2)
                    || (0 <= KeyIndex(targetPathCounts, k) && Get(targetPathCounts, k) > 10))
              && (MetaPkgId !in ids ==> forall k :: 0 <= k < |ids| ==> Moved(graph.nodes, ids[k]))
    {
      ghost var nodes0 := graph.nodes;
      ghost var ids := Above(depPathCounts, 2) + Above(targetPathCounts, 10);
      PruneAllPkgsAppend(graph.pkgs, Above(depPathCounts, 2), Above(targetPathCounts, 10));
      PruneAllNodesAppend(graph.nodes, graph.rootNodeId, Above(depPathCounts, 2), Above(targetPathCounts, 10));
      PruneAbove(depPathCounts, 2);
      PruneAbove(targetPathCounts, 10);
      forall k
        ensures k in ids <==>
                  || (0 <= KeyIndex(depPathCounts, k) && Get(depPathCounts, k) > 2)
                  || (0 <= KeyIndex(targetPathCounts, k) && Get(targetPathCounts, k) > 10)
      {
        AboveMember(depPathCounts, 2, k);
        AboveMember(targetPathCounts, 10, k);
      }
      if MetaPkgId !in ids {
        AboveAvoids(depPathCounts, 2, {""});
        AboveAvoids(targetPathCounts, 10, {""});
        assert Prunable(ids);
        PruneAllNodesSpec(nodes0, graph.rootNodeId, ids);
      }
    }

    /**
     * One step of the `prune_graph` loop, after the ids `done` have been pruned from `nodes0`
     * and `pkgs0`: an entry counted more than once is pruned next when its count exceeds
     * `countThreshold` or its share of `total`, in percent rounded up, exceeds `percentThreshold`.
     */
    method PruneIfSelected(key: string, count: nat, total: nat, countThreshold: int, percentThreshold: int,
                           ghost nodes0: seq<Node>, ghost pkgs0: seq<Pkg>, ghost done: seq<string>)
      requires graph.Valid() && count <= total
      requires graph.nodes == PruneAllNodes(nodes0, graph.rootNodeId, done)
      requires graph.pkgs == PruneAllPkgs(pkgs0, done)
      modifies graph`pkgs, graph`nodes
      ensures graph.Valid()
      ensures var ids := if Selects(count, total, countThreshold, percentThreshold) then done + [key] else done;
              graph.nodes == PruneAllNodes(nodes0, graph.rootNodeId, ids) && graph.pkgs == PruneAllPkgs(pkgs0, ids)
    {
      PruneAllStep(nodes0, pkgs0, graph.rootNodeId, done, key);
      if count > 1 {
        var percentage := CeilPercent(count, total);
        if count > countThreshold || percentage > percentThreshold {
          graph.PruneDep(key);
        }
      }
    }

    /** The loop of `prune_graph`: prunes, in order, every key of `counts` that `Selects` picks. */
    method PruneSelected(counts: Counts, total: nat, countThreshold: int, percentThreshold: int)
      requires graph.Valid() && Within(counts, total)
      modifies graph`pkgs, graph`nodes
      ensures graph.Valid()
      ensures graph.nodes == PruneAllNodes(old(graph.nodes), graph.rootNodeId, Selected(counts, total, countThreshold, percentThreshold))
      ensures graph.pkgs == PruneAllPkgs(old(graph.pkgs), Selected(counts, total, countThreshold, percentThreshold))
    {
      ghost var nodes0, pkgs0 := graph.nodes, graph.pkgs;
      for i := 0 to |counts|
        invariant graph.Valid()
        invariant Within(counts[..i], total)
        invariant graph.nodes == PruneAllNodes(nodes0, graph.rootNodeId, Selected(counts[..i], total, countThreshold, percentThreshold))
        invariant graph.pkgs == PruneAllPkgs(pkgs0, Selected(counts[..i], total, countThreshold, percentThreshold))
      {
        SelectedStep(counts, total, countThreshold, percentThreshold, i);
        PruneIfSelected(counts[i].key, counts[i].count, total, countThreshold, percentThreshold,
                        nodes0, pkgs0, Selected(counts[..i], total, countThreshold, percentThreshold));
      }
      assert counts[..|counts|] == counts;
    }

    /**
     * `prune_graph(countThreshold, percentThreshold)`: merges the target counts into the dep
     * counts (a target count overwrites a dep count on the same key), then prunes, in order,
     * every id counted more than once that passes either threshold against the merged total.
     * Unless the meta id is itself among them, each pruned id ends up listed by the meta node
     * alone.
     */
    method PruneGraph(countThreshold: int, percentThreshold: int)
      requires Valid()
      modifies this`depPathCounts, graph`pkgs, graph`nodes
      ensures Valid()
      ensures depPathCounts == Merge(old(depPathCounts), targetPathCounts)
      ensures var ids := PruneIds(depPathCounts, countThreshold, percentThreshold);
              && graph.nodes == PruneAllNodes(old(graph.nodes), graph.rootNodeId, ids)
              && graph.pkgs == PruneAllPkgs(old(graph.pkgs), ids)
              && (forall k :: k in ids <==>
                    && 0 <= KeyIndex(depPathCounts, k) && Get(depPathCounts, k) > 1
                    && (Get(depPathCounts, k) > countThreshold || 100 * Get(depPathCounts, k) > percentThreshold * Sum(depPathCounts)))
              && (MetaPkgId !in ids ==> forall k :: 0 <= k < |ids| ==> Moved(graph.nodes, ids[k]))
    {
      ghost var nodes0 := graph.nodes;
      MergeKeepsOrder(depPathCounts, targetPathCounts);
      MergeAvoids(depPathCounts, targetPathCounts, {""});
      depPathCounts := Merge(depPathCounts, targetPathCounts);
      var total := Total(depPathCounts);
      CountsAtMostSum(depPathCounts);
      assert PruneIds(depPathCounts, countThreshold, percentThreshold)
          == Selected(depPathCounts, total, countThreshold, percentThreshold);
      PruneSelected(depPathCounts, total, countThreshold, percentThreshold);
      ghost var ids := PruneIds(depPathCounts, countThreshold, percentThreshold);
      forall k
        ensures k in ids <==>
                  && 0 <= KeyIndex(depPathCounts, k) && Get(depPathCounts, k) > 1
                  && (Get(depPathCounts, k) > countThreshold || 100 * Get(depPathCounts, k) > percentThreshold * Sum(depPathCounts))
      {
        PruneIdsMember(depPathCounts, countThreshold, percentThreshold, k);
        if Get(depPathCounts, k) > 1 {
          CeilPercentAbove(Get(depPathCounts, k), Sum(depPathCounts), percentThreshold);
        }
      }
      if MetaPkgId !in ids {
        SelectedAvoids(depPathCounts, total, countThreshold, percentThreshold, {""});
        assert Prunable(ids);
        PruneAllNodesSpec(nodes0, graph.rootNodeId, ids);
      }
    }

    /**
     * The pruning step of `generate`: `prune_graph_all` when `pruneAll` is set, or else
     * `prune_graph(20, 5)` when `prune` is; `PrunedIds` names the ids the chosen pass prunes.
     */
    method PruneChosen(prune: bool, pruneAll: bool)
      requires Valid()
      modifies this`depPathCounts, graph`pkgs, graph`nodes
      ensures Valid()
      ensures depPathCounts == if !pruneAll && prune then Merge(old(depPathCounts), targetPathCounts) else old(depPathCounts)
      ensures var ids := PrunedIds(old(Snap()), prune, pruneAll);
              && graph.nodes == PruneAllNodes(old(graph.nodes), graph.rootNodeId, ids)
              && graph.pkgs == PruneAllPkgs(old(graph.pkgs), ids)
              && (MetaPkgId !in ids ==> forall k :: 0 <= k < |ids| ==> Moved(graph.nodes, ids[k]))
    {
      if pruneAll {
        PruneGraphAll();
      } else if prune {
        PruneGraph(20, 5);
      }
    }
  }

  /** The ids the pruning pass `generate` chooses picks from the walked state `s`, in the order it prunes them. */
  function PrunedIds(s: Snapshot, prune: bool, pruneAll: bool): seq<string> {
    if pruneAll then Above(s.deps, 2) + Above(s.targets, 10)
    else if prune then PruneIds(Merge(s.deps, s.targets), 20, 5)
    else []
  }

  /**
   * The count rule of each pruning pass `generate` may choose: `prune_graph_all` picks the
   * dependencies counted more than twice and the targets counted more than ten times;
   * `prune_graph(20, 5)` picks the keys of the merged counters counted more than once and
   * either more than 20 times or in more than one path in twenty.
   */
  lemma PrunedIdsRule(s: Snapshot, prune: bool, pruneAll: bool, k: string)
    requires KeysUnique(s.deps) && KeysUnique(s.targets)
    ensures pruneAll ==>
              (k in PrunedIds(s, prune, pruneAll) <==>
                || (0 <= KeyIndex(s.deps, k) && Get(s.deps, k) > 2)
                || (0 <= KeyIndex(s.targets, k) && Get(s.targets, k) > 10))
    ensures !pruneAll && prune ==>
              var m := Merge(s.deps, s.targets);
              (k in PrunedIds(s, prune, pruneAll) <==>
                0 <= KeyIndex(m, k) && Get(m, k) > 1 && (Get(m, k) > 20 || 20 * Get(m, k) > Sum(m)))
  {
    if pruneAll {
      AboveMember(s.deps, 2, k);
      AboveMember(s.targets, 10, k);
    } else if prune {
      MergeKeepsOrder(s.deps, s.targets);
      SmartPrunePolicy(Merge(s.deps, s.targets), k);
    }
  }

  /**
   * The pruning pass only picks ids the walk counted from nothing: a child's package id of the
   * counter's kind, below a label in `walked`.
   */
  lemma PrunedFromWalk(rules: seq<Rule>, name: string -> string, base: Snapshot, s: Snapshot, walked: set<string>,
                       prune: bool, pruneAll: bool, k: string)
    requires base.deps == [] && base.targets == [] && CountsFrom(rules, name, base, s, walked)
    requires KeysUnique(s.deps) && KeysUnique(s.targets)
    ensures k in PrunedIds(s, prune, pruneAll) ==> DepOfChild(rules, name, walked, k) || TargetOfChild(rules, name, walked, k)
  {
    PrunedIdsRule(s, prune, pruneAll, k);
    if !pruneAll && prune {
      MergeGet(s.deps, s.targets, k);
    }
  }

  /** The walked labels ranked above `y`: what the search for a chain up from `y` may still visit. */
  ghost function RankedAbove(rank: map<string, nat>, closed: set<string>, y: string): set<string>
    requires y in rank
  {
    set w | w in closed && w in rank && rank[w] > rank[y]
  }

  /** Stepping up to a parent ranked above leaves fewer labels above. */
  lemma RankedAboveShrinks(rank: map<string, nat>, closed: set<string>, y: string, z: string)
    requires y in rank && z in rank && z in closed && rank[y] < rank[z]
    ensures |RankedAbove(rank, closed, z)| < |RankedAbove(rank, closed, y)|
  {
    var a, b := RankedAbove(rank, closed, z), RankedAbove(rank, closed, y);
    assert a <= b;
    assert z in b && z !in a;
    var rest := b - a;
    assert b == a + rest && a * rest == {};
    assert z in rest && |rest| >= 1;
  }

  /** A chain of children extended by a child of its last label is a chain. */
  lemma IsPathSnoc(rules: seq<Rule>, path: seq<string>, y: string)
    requires IsPath(rules, path) && |path| > 0 && y in ChildrenOf(rules, path[|path| - 1])
    ensures IsPath(rules, path + [y])
  {
    var q := path + [y];
    forall k | 0 < k < |q|
      ensures q[k] in ChildrenOf(rules, q[k - 1])
    {
      if k < |path| {
        assert q[k] == path[k] && q[k - 1] == path[k - 1];
      }
    }
  }

  /**
   * Soundness of a walked set: when every walked label but the target is a child of a walked
   * label, and all of them are ranked on acyclic rules, each walked label `y` lies on a chain
   * of children from the target that stays among the walked labels.
   */
  lemma {:induction false} WalkedReachable(rules: seq<Rule>, rank: map<string, nat>, closed: set<string>,
                                           target: string, y: string)
    returns (path: seq<string>)
    requires Acyclic(rules, rank) && closed <= rank.Keys && target in closed
    requires ChildrenWithin(rules, closed - {target}, closed)
    requires y in closed
    ensures IsPath(rules, path) && |path| > 0 && path[0] == target && path[|path| - 1] == y
    ensures forall k :: 0 <= k < |path| ==> path[k] in closed
    decreases |RankedAbove(rank, closed, y)|
  {
    if y == target {
      path := [target];
    } else {
      assert y in closed - {target};
      var z :| z in closed && y in ChildrenOf(rules, z);
      RankedAboveShrinks(rank, closed, y, z);
      var init := WalkedReachable(rules, rank, closed, target, z);
      IsPathSnoc(rules, init, y);
      path := init + [y];
    }
  }

  /** The document `generate` walks from: the root package and root node of package id `r`, and no counts. */
  ghost function RootDoc(r: string): Snapshot
    requires '@' in r
  {
    Snapshot([RootPkg(r)], [Node(r, r, [])], [], [])
  }

  /**
   * The first half of `generate`: a fresh state over the query output and the walk from
   * `target` at depth 0. On acyclic rules the walk ends. It only adds to the root document,
   * every chain of children from `target` is linked edge by edge, and everything added comes
   * from the walked labels, each of which (but the target) is a child of another.
   */
  method WalkTarget(rules: seq<Rule>, source: PackageSource, target: string, ghost rank: map<string, nat>)
    returns (w: Walk, ghost closed: set<string>)
    requires Acyclic(rules, rank) && target in rank
    ensures w.Valid() && w.parser.rules == rules && w.source == source
    ensures fresh(w) && fresh(w.parser) && fresh(w.graph)
    ensures w.graph.pkgManagerName == SourceName(source)
    ensures w.graph.rootNodeId == SnykDep(rules, source, target)
    ensures Extends(RootDoc(SnykDep(rules, source, target)), w.Snap())
    ensures target in closed && ClosedUnder(rules, SnykNames(rules, source), w.Snap(), closed)
    ensures closed <= rank.Keys
    ensures OnlyFrom(rules, SnykNames(rules, source), RootDoc(SnykDep(rules, source, target)), w.Snap(), closed)
    ensures ChildrenWithin(rules, closed - {target}, closed)
    ensures forall y :: y in closed ==>
              exists path :: IsPath(rules, path) && |path| > 0 && path[0] == target && path[|path| - 1] == y
  {
    w := new Walk(rules, source);
    ghost var initial := w.Snap();
    closed := w.BazelToDepGraph(target, 0, rank, [], {});
    assert WithRoot(initial, SnykDep(rules, source, target)) == RootDoc(SnykDep(rules, source, target));
    forall y | y in closed
      ensures exists path :: IsPath(rules, path) && |path| > 0 && path[0] == target && path[|path| - 1] == y
    {
      var path := WalkedReachable(rules, rank, closed, target, y);
    }
  }

  /**
   * `generate`: a fresh state over the query output, the walk from `target` at depth 0, then
   * `prune_graph_all` when `pruneAll` is set, or else `prune_graph(20, 5)` when `prune` is.
   * `walked` is the state the walk leaves, as `WalkTarget` says. The pruning pass then picks
   * ids by their counts, only ids of children the walk counted, and, unless the meta id is
   * among them, moves them under the meta node.
   */
  method Generate(rules: seq<Rule>, source: PackageSource, target: string, prune: bool, pruneAll: bool,
                  ghost rank: map<string, nat>)
    returns (w: Walk, ghost walked: Snapshot, ghost closed: set<string>)
    requires Acyclic(rules, rank) && target in rank
    ensures w.Valid() && w.parser.rules == rules && w.source == source
    ensures w.graph.pkgManagerName == SourceName(source)
    ensures w.graph.rootNodeId == SnykDep(rules, source, target)
    ensures && w.graph.pkgs[0] == RootPkg(SnykDep(rules, source, target))
            && w.graph.nodes[0].nodeId == w.graph.nodes[0].pkgId == SnykDep(rules, source, target)
    ensures Extends(RootDoc(SnykDep(rules, source, target)), walked)
    ensures target in closed && ClosedUnder(rules, SnykNames(rules, source), walked, closed)
    ensures closed <= rank.Keys
    ensures OnlyFrom(rules, SnykNames(rules, source), RootDoc(SnykDep(rules, source, target)), walked, closed)
    ensures ChildrenWithin(rules, closed - {target}, closed)
    ensures forall y :: y in closed ==>
              exists path :: IsPath(rules, path) && |path| > 0 && path[0] == target && path[|path| - 1] == y
    ensures forall k :: k in PrunedIds(walked, prune, pruneAll) ==>
              DepOfChild(rules, SnykNames(rules, source), closed, k) || TargetOfChild(rules, SnykNames(rules, source), closed, k)
    ensures w.targetPathCounts == walked.targets
    ensures w.depPathCounts == if !pruneAll && prune then Merge(walked.deps, walked.targets) else walked.deps
    ensures var ids := PrunedIds(walked, prune, pruneAll);
            && w.graph.nodes == PruneAllNodes(walked.nodes, w.graph.rootNodeId, ids)
            && w.graph.pkgs == PruneAllPkgs(walked.pkgs, ids)
            && (MetaPkgId !in ids ==> forall k :: 0 <= k < |ids| ==> Moved(w.graph.nodes, ids[k]))
    ensures pruneAll ==>
              forall k :: k in PrunedIds(walked, prune, pruneAll) <==>
                || (0 <= KeyIndex(walked.deps, k) && Get(walked.deps, k) > 2)
                || (0 <= KeyIndex(walked.targets, k) && Get(walked.targets, k) > 10)
    ensures !pruneAll && prune ==>
              var m := Merge(walked.deps, walked.targets);
              forall k :: k in PrunedIds(walked, prune, pruneAll) <==>
                0 <= KeyIndex(m, k) && Get(m, k) > 1 && (Get(m, k) > 20 || 20 * Get(m, k) > Sum(m))
  {
    w, closed := WalkTarget(rules, source, target, rank);
    walked := w.Snap();
    w.PruneChosen(prune, pruneAll);
    AddPkgToSpec(walked.pkgs, MetaPkgId);
    PruneAllNodesKeepsIds(walked.nodes, w.graph.rootNodeId, PrunedIds(walked, prune, pruneAll));
    forall k
      ensures pruneAll ==>
                (k in PrunedIds(walked, prune, pruneAll) <==>
                  || (0 <= KeyIndex(walked.deps, k) && Get(walked.deps, k) > 2)
                  || (0 <= KeyIndex(walked.targets, k) && Get(walked.targets, k) > 10))
      ensures !pruneAll && prune ==>
                var m := Merge(walked.deps, walked.targets);
                (k in PrunedIds(walked, prune, pruneAll) <==>
                  0 <= KeyIndex(m, k) && Get(m, k) > 1 && (Get(m, k) > 20 || 20 * Get(m, k) > Sum(m)))
      ensures k in PrunedIds(walked, prune, pruneAll) ==>
                DepOfChild(rules, SnykNames(rules, source), closed, k) || TargetOfChild(rules, SnykNames(rules, source), closed, k)
    {
      PrunedIdsRule(walked, prune, pruneAll, k);
      PrunedFromWalk(rules, SnykNames(rules, source), RootDoc(SnykDep(rules, source, target)), walked, closed, prune, pruneAll, k);
    }
  }
}
