/**
 * The Snyk dependency-graph document both graph classes build: a package list and a node
 * list, each node listing the ids of its children. The updates `add_pkg`, `add_dep`,
 * `remove_dep` and `prune_dep` make in place are written here as functions of the old
 * document, with the properties they keep; the classes are proved against them.
 */
module GraphDoc {
  import opened PyStr

  /** The aggregation package and node that pruned ids are moved under. */
  const MetaPkgId: string := "meta-common-packages@meta"
  const SchemaVersion: string := "1.2.0"

  datatype Info = Info(name: string, version: string)

  datatype Pkg = Pkg(id: string, info: Info)

  /** A node of the graph; `deps` holds the `nodeId` of each child entry, in insertion order. */
  datatype Node = Node(nodeId: string, pkgId: string, deps: seq<string>)

  /** The package list and node list every new document starts with. */
  const InitialPkgs: seq<Pkg> := [Pkg("app@1.0.0", Info("app", "1.0.0"))]
  const InitialRootId: string := "root-node"
  const InitialNodes: seq<Node> := [Node("root-node", "app@1.0.0", [])]

  /** Python truthiness of an optional id: present and non-empty. */
  predicate Truthy(s: Option<string>) {
    s.Some? && |s.value| > 0
  }

  predicate Distinct<T(==)>(s: seq<T>) {
    forall i, j :: 0 <= i < j < |s| ==> s[i] != s[j]
  }

  // ----- packages -----

  /** The record `has_pkg` and `add_pkg` build: the id split at its right-most `@` into name and version. */
  function PkgEntry(pkgId: string): Pkg {
    var k := RFind(pkgId, '@');
    var name := Head(pkgId, k);
    var version := pkgId[k + 1..];
    Pkg(name + "@" + version, Info(name, version))
  }

  /** Splitting `name@version` gives back the name and the version, whatever `@`s the name holds. */
  lemma PkgEntryOf(name: string, version: string)
    requires '@' !in version
    ensures PkgEntry(name + "@" + version) == Pkg(name + "@" + version, Info(name, version))
  {
    var s := name + "@" + version;
    RFindAfter(name, '@', version);
    assert s[..|name|] == name;
    assert s[|name| + 1..] == version;
  }

  /** An id holding `@` is the id of its own record, and the version it gives has no `@`. */
  lemma PkgEntryId(pkgId: string)
    requires '@' in pkgId
    ensures PkgEntry(pkgId).id == pkgId
    ensures '@' !in PkgEntry(pkgId).info.version
  {
    var k := RFind(pkgId, '@');
    assert pkgId == pkgId[..k] + "@" + pkgId[k + 1..];
  }

  /** Two ids holding `@` with the same record are the same id. */
  lemma PkgEntryInjective(a: string, b: string)
    requires '@' in a && '@' in b
    requires PkgEntry(a) == PkgEntry(b)
    ensures a == b
  {
    PkgEntryId(a);
    PkgEntryId(b);
  }

  /** Without `@`, the name loses its last character and the version is the whole id. */
  lemma PkgEntryNoAt(pkgId: string)
    requires '@' !in pkgId
    ensures PkgEntry(pkgId) == Pkg(Head(pkgId, -1) + "@" + pkgId, Info(Head(pkgId, -1), pkgId))
  {
  }

  /** The package list after `add_pkg(pkgId)`. */
  function AddPkgTo(pkgs: seq<Pkg>, pkgId: string): seq<Pkg> {
    var e := PkgEntry(pkgId);
    if e in pkgs then pkgs else pkgs + [e]
  }

  /** `add_pkg` makes the record present, keeps what was there in order, adds at most one entry, and is idempotent. */
  lemma AddPkgToSpec(pkgs: seq<Pkg>, pkgId: string)
    ensures var r := AddPkgTo(pkgs, pkgId);
            && PkgEntry(pkgId) in r
            && pkgs <= r
            && |r| <= |pkgs| + 1
            && AddPkgTo(r, pkgId) == r
  {
    var e := PkgEntry(pkgId);
    if e !in pkgs {
      assert (pkgs + [e])[|pkgs|] == e;
    }
  }

  /** Appending a missing element never makes a repeat: the element is there once, and a list without repeats stays so. */
  lemma {:induction false} AppendMissingOnce<T>(s: seq<T>, e: T)
    ensures var r := if e in s then s else s + [e];
            && (Distinct(s) ==> Distinct(r))
            && (multiset(s)[e] <= 1 ==> multiset(r)[e] == 1)
  {
    if e !in s {
      assert multiset(s + [e]) == multiset(s) + multiset{e};
    } else {
      assert multiset(s)[e] > 0;
    }
  }

  /** `add_pkg` never duplicates a record: the record it adds is there once, and a list without repeats stays so. */
  lemma AddPkgToOnce(pkgs: seq<Pkg>, pkgId: string)
    ensures var r := AddPkgTo(pkgs, pkgId);
            && (Distinct(pkgs) ==> Distinct(r))
            && (multiset(pkgs)[PkgEntry(pkgId)] <= 1 ==> multiset(r)[PkgEntry(pkgId)] == 1)
  {
    AppendMissingOnce(pkgs, PkgEntry(pkgId));
  }

  /** The first package whose id is `id`, or -1. */
  function PkgIndex(pkgs: seq<Pkg>, id: string): (i: int)
    ensures -1 <= i < |pkgs|
    ensures 0 <= i ==> pkgs[i].id == id
    ensures i < 0 ==> forall j :: 0 <= j < |pkgs| ==> pkgs[j].id != id
    ensures forall j :: 0 <= j < i ==> pkgs[j].id != id
  {
    if |pkgs| == 0 then -1
    else if pkgs[0].id == id then 0
    else
      var i := PkgIndex(pkgs[1..], id);
      if i < 0 then -1 else i + 1
  }

  /**
   * `_find_pkg_index`: the loop stops at the first package with that id and answers
   * `pkgs.index(pkg)`, which is that same position since no earlier package equals it.
   */
  method FindPkgIndex(pkgs: seq<Pkg>, id: string) returns (i: int)
    ensures i == PkgIndex(pkgs, id)
  {
    for j := 0 to |pkgs|
      invariant forall k :: 0 <= k < j ==> pkgs[k].id != id
    {
      if pkgs[j].id == id {
        PkgIndexAt(pkgs, id, j);
        return j;
      }
    }
    return -1;
  }

  lemma PkgIndexAt(pkgs: seq<Pkg>, id: string, i: nat)
    requires i < |pkgs| && pkgs[i].id == id
    requires forall j :: 0 <= j < i ==> pkgs[j].id != id
    ensures PkgIndex(pkgs, id) == i
  {
  }

  /** The package `set_root_node_package(r)` writes: id `r`, name and version the first two `@`-separated fields. */
  function RootPkg(r: string): Pkg
    requires '@' in r
  {
    Pkg(r, Info(BeforeFirst(r, '@'), SecondField(r, '@')))
  }

  /** The two fields of an id with one `@` join back into the id, and neither holds `@`. */
  lemma SplitJoin(s: string)
    requires Occurrences(s, '@') == 1
    ensures '@' in s
    ensures BeforeFirst(s, '@') + "@" + AfterLast(s, '@') == s
    ensures '@' !in BeforeFirst(s, '@') && '@' !in AfterLast(s, '@')
  {
    SingleOccurrence(s, '@');
    var k := IndexOf(s, '@');
    assert s == s[..k] + "@" + s[k + 1..];
  }

  /**
   * An id with exactly one `@` splits the same way whether it is cut at the first `@`
   * (`split`) or at the last (`rfind`), into two fields that join back into it.
   */
  lemma SplitInTwo(s: string)
    requires Occurrences(s, '@') == 1
    ensures '@' in s
    ensures BeforeFirst(s, '@') + "@" + AfterLast(s, '@') == s
    ensures BeforeFirst(s, '@') == Head(s, RFind(s, '@'))
    ensures SecondField(s, '@') == AfterLast(s, '@')
    ensures '@' !in BeforeFirst(s, '@') && '@' !in AfterLast(s, '@')
  {
    SplitJoin(s);
    SingleOccurrence(s, '@');
  }

  /** For an id of the form `name@version`, the root package is exactly the record `has_pkg` looks for. */
  lemma RootPkgIsEntry(r: string)
    requires Occurrences(r, '@') == 1
    ensures '@' in r && RootPkg(r) == PkgEntry(r)
  {
    SplitInTwo(r);
  }

  /**
   * An id `@repo//…@version`, as an external target yields, has two `@`s: the root package then
   * gets an empty name and `repo//…` as version, where `has_pkg` splits it into `@repo//…` and the version.
   */
  lemma RootPkgOfTwoAts(x: string, v: string)
    requires '@' !in x && '@' !in v
    ensures RootPkg("@" + x + "@" + v).info == Info("", x)
    ensures PkgEntry("@" + x + "@" + v).info == Info("@" + x, v)
  {
    var r := "@" + x + "@" + v;
    assert r[0] == '@';
    assert r[1..] == x + "@" + v;
    assert IndexOf(r[1..], '@') == |x| by {
      assert r[1..][|x|] == '@';
      assert forall j :: 0 <= j < |x| ==> r[1..][j] == x[j];
    }
    assert r[1..][..|x|] == x;
    PkgEntryOf("@" + x, v);
    assert r == ("@" + x) + "@" + v;
  }

  // ----- nodes -----

  /** The first node whose id is `id`, or -1. */
  function NodeIndex(nodes: seq<Node>, id: string): (i: int)
    ensures -1 <= i < |nodes|
    ensures 0 <= i ==> nodes[i].nodeId == id
    ensures i < 0 ==> forall j :: 0 <= j < |nodes| ==> nodes[j].nodeId != id
    ensures forall j :: 0 <= j < i ==> nodes[j].nodeId != id
  {
    if |nodes| == 0 then -1
    else if nodes[0].nodeId == id then 0
    else
      var i := NodeIndex(nodes[1..], id);
      if i < 0 then -1 else i + 1
  }

  lemma NodeIndexAt(nodes: seq<Node>, id: string, i: nat)
    requires i < |nodes| && nodes[i].nodeId == id
    requires forall j :: 0 <= j < i ==> nodes[j].nodeId != id
    ensures NodeIndex(nodes, id) == i
  {
  }

  /** `_find_node_index`, and the search `add_dep` makes for the parent: the first node with that id. */
  method FindNodeIndex(nodes: seq<Node>, id: string) returns (i: int)
    ensures i == NodeIndex(nodes, id)
  {
    for j := 0 to |nodes|
      invariant forall k :: 0 <= k < j ==> nodes[k].nodeId != id
    {
      if nodes[j].nodeId == id {
        NodeIndexAt(nodes, id, j);
        return j;
      }
    }
    return -1;
  }

  /** Node lists that agree on the ids of the shorter one's nodes find those ids at the same place. */
  lemma NodeIndexPrefix(a: seq<Node>, b: seq<Node>, p: string)
    requires |a| <= |b|
    requires forall j :: 0 <= j < |a| ==> b[j].nodeId == a[j].nodeId
    ensures 0 <= NodeIndex(a, p) ==> NodeIndex(b, p) == NodeIndex(a, p)
    ensures NodeIndex(a, p) < 0 ==> NodeIndex(b, p) < 0 || |a| <= NodeIndex(b, p)
  {
    var i := NodeIndex(a, p);
    if 0 <= i {
      NodeIndexAt(b, p, i);
    }
  }

  /** `p` lists `c` as a child: the first node with id `p` has `c` among its deps. */
  predicate Edge(nodes: seq<Node>, p: string, c: string) {
    var i := NodeIndex(nodes, p);
    0 <= i && c in nodes[i].deps
  }

  /** No node lists the same child twice. */
  predicate DistinctDeps(nodes: seq<Node>) {
    forall j :: 0 <= j < |nodes| ==> Distinct(nodes[j].deps)
  }

  /** `b` only adds to `a`: the old nodes keep their ids, and their deps lists only grow at the end. */
  predicate Grows(a: seq<Node>, b: seq<Node>) {
    && |a| <= |b|
    && forall j :: 0 <= j < |a| ==> b[j].nodeId == a[j].nodeId && b[j].pkgId == a[j].pkgId && a[j].deps <= b[j].deps
  }

  lemma GrowsTransitive(a: seq<Node>, b: seq<Node>, c: seq<Node>)
    requires Grows(a, b) && Grows(b, c)
    ensures Grows(a, c)
  {
    forall j | 0 <= j < |a|
      ensures a[j].deps <= c[j].deps
    {
      assert a[j].deps == b[j].deps[..|a[j].deps|];
      assert b[j].deps == c[j].deps[..|b[j].deps|];
    }
  }

  /** Growing keeps every edge (and every node id). */
  lemma GrowsKeepsEdge(a: seq<Node>, b: seq<Node>, p: string, c: string)
    requires Grows(a, b)
    ensures Edge(a, p, c) ==> Edge(b, p, c)
    ensures 0 <= NodeIndex(a, p) ==> NodeIndex(b, p) == NodeIndex(a, p)
  {
    NodeIndexPrefix(a, b, p);
    if Edge(a, p, c) {
      var i := NodeIndex(a, p);
      assert a[i].deps == b[i].deps[..|a[i].deps|];
      assert c in b[i].deps;
    }
  }

  /** Which node `add_dep` looks for: the given parent, or the root when the parent is missing or empty. */
  function ParentKey(root: string, parent: Option<string>): string {
    if Truthy(parent) then parent.value else root
  }

  /** The id a node created for a parent that was not found carries: the parent as given (`None` read as the empty id). */
  function NewNodeId(parent: Option<string>): string {
    if parent.Some? then parent.value else ""
  }

  /** The node list after `add_dep(child, parent)`. */
  function AddDepTo(nodes: seq<Node>, root: string, child: Option<string>, parent: Option<string>): seq<Node> {
    var i := NodeIndex(nodes, ParentKey(root, parent));
    if 0 <= i then
      if Truthy(child) && child.value !in nodes[i].deps then
        nodes[i := nodes[i].(deps := nodes[i].deps + [child.value])]
      else nodes
    else
      var id := NewNodeId(parent);
      nodes + [Node(id, id, if Truthy(child) then [child.value] else [])]
  }

  /**
   * When the parent exists nothing but its deps list changes; when it does not, exactly
   * one node is appended, with `nodeId == pkgId` the parent and deps `[child]` or `[]`.
   */
  lemma AddDepToShape(nodes: seq<Node>, root: string, child: Option<string>, parent: Option<string>)
    ensures var r := AddDepTo(nodes, root, child, parent);
            var i := NodeIndex(nodes, ParentKey(root, parent));
            && Grows(nodes, r)
            && (0 <= i ==> |r| == |nodes| && forall j :: 0 <= j < |r| && j != i ==> r[j] == nodes[j])
            && (i < 0 ==> |r| == |nodes| + 1 && r[|nodes|].nodeId == r[|nodes|].pkgId == NewNodeId(parent))
            && (i < 0 ==> r[|nodes|].deps == if Truthy(child) then [child.value] else [])
  {
  }

  /** After `add_dep` the parent lists the child (unless the root itself was missing). */
  lemma AddDepToEdge(nodes: seq<Node>, root: string, child: Option<string>, parent: Option<string>)
    requires Truthy(child)
    requires Truthy(parent) || 0 <= NodeIndex(nodes, root)
    ensures Edge(AddDepTo(nodes, root, child, parent), ParentKey(root, parent), child.value)
    ensures 0 <= NodeIndex(AddDepTo(nodes, root, child, parent), ParentKey(root, parent))
  {
    var r := AddDepTo(nodes, root, child, parent);
    var key := ParentKey(root, parent);
    var i := NodeIndex(nodes, key);
    NodeIndexPrefix(nodes, r, key);
    if i < 0 {
      NodeIndexAt(r, key, |nodes|);
    }
  }

  /** `add_dep` never gives a node the same child twice. */
  lemma AddDepToDistinct(nodes: seq<Node>, root: string, child: Option<string>, parent: Option<string>)
    requires DistinctDeps(nodes)
    ensures DistinctDeps(AddDepTo(nodes, root, child, parent))
  {
  }

  /** Repeating `add_dep` changes nothing (unless the root itself was missing). */
  lemma AddDepToIdempotent(nodes: seq<Node>, root: string, child: Option<string>, parent: Option<string>)
    requires Truthy(parent) || 0 <= NodeIndex(nodes, root)
    ensures var r := AddDepTo(nodes, root, child, parent);
            AddDepTo(r, root, child, parent) == r
  {
    var r := AddDepTo(nodes, root, child, parent);
    var key := ParentKey(root, parent);
    var i := NodeIndex(nodes, key);
    NodeIndexPrefix(nodes, r, key);
    if i < 0 {
      NodeIndexAt(r, key, |nodes|);
    }
  }

  /** Apart from the child it adds, `add_dep` leaves every node's set of children as it was. */
  lemma AddDepToMembers(nodes: seq<Node>, root: string, child: Option<string>, parent: Option<string>, x: string)
    requires !Truthy(child) || x != child.value
    ensures var r := AddDepTo(nodes, root, child, parent);
            && (forall j :: 0 <= j < |nodes| ==> (x in r[j].deps <==> x in nodes[j].deps))
            && (forall j :: |nodes| <= j < |r| ==> x !in r[j].deps)
  {
  }

  /** Apart from the child it adds, `add_dep` keeps and creates no edge. */
  lemma AddDepToOtherEdge(nodes: seq<Node>, root: string, child: Option<string>, parent: Option<string>, p: string, x: string)
    requires !Truthy(child) || x != child.value
    ensures Edge(AddDepTo(nodes, root, child, parent), p, x) <==> Edge(nodes, p, x)
  {
    var r := AddDepTo(nodes, root, child, parent);
    AddDepToMembers(nodes, root, child, parent, x);
    NodeIndexPrefix(nodes, r, p);
  }

  /** `deps.remove(x)` when `x` is listed, and no change otherwise. */
  function RemoveFirst(s: seq<string>, x: string): seq<string> {
    var k := IndexOf(s, x);
    if k < 0 then s else s[..k] + s[k + 1..]
  }

  /** Removing takes away exactly one copy of `x` when there is one. */
  lemma RemoveFirstMultiset(s: seq<string>, x: string)
    ensures multiset(RemoveFirst(s, x)) == multiset(s) - multiset{x}
  {
    var k := IndexOf(s, x);
    if 0 <= k {
      assert s == s[..k] + [x] + s[k + 1..];
      assert multiset(s) == multiset(s[..k]) + multiset{x} + multiset(s[k + 1..]);
    } else {
      assert multiset(s)[x] == 0;
    }
  }

  /** In a list without repeats, removing `x` leaves no `x` and no repeats. */
  lemma RemoveFirstDistinct(s: seq<string>, x: string)
    requires Distinct(s)
    ensures Distinct(RemoveFirst(s, x)) && x !in RemoveFirst(s, x)
  {
    var k := IndexOf(s, x);
    if 0 <= k {
      var r := RemoveFirst(s, x);
      forall a, b | 0 <= a < b < |r|
        ensures r[a] != r[b]
      {
        var a' := if a < k then a else a + 1;
        var b' := if b < k then b else b + 1;
        assert r[a] == s[a'] && r[b] == s[b'];
      }
      forall m | 0 <= m < |r|
        ensures r[m] != x
      {
        var m' := if m < k then m else m + 1;
        assert r[m] == s[m'] && m' != k;
      }
    }
  }

  /** Without `x`, a list's members other than `x` are those it had. */
  lemma RemoveFirstMembers(s: seq<string>, x: string, y: string)
    requires y != x
    ensures y in RemoveFirst(s, x) <==> y in s
  {
    RemoveFirstMultiset(s, x);
    assert y in multiset(RemoveFirst(s, x)) <==> y in multiset(s);
  }

  /** The node list after `remove_dep(child)`: every node loses its first `child` entry, if any. */
  function RemoveChild(nodes: seq<Node>, child: string): (r: seq<Node>)
    ensures |r| == |nodes|
    ensures forall j :: 0 <= j < |r| ==> r[j] == nodes[j].(deps := RemoveFirst(nodes[j].deps, child))
  {
    seq(|nodes|, j requires 0 <= j < |nodes| => nodes[j].(deps := RemoveFirst(nodes[j].deps, child)))
  }

  /** After `remove_dep(child)` on a graph without repeated children, no node lists `child`, and all else stays. */
  lemma RemoveChildSpec(nodes: seq<Node>, child: string)
    requires DistinctDeps(nodes)
    ensures var r := RemoveChild(nodes, child);
            && DistinctDeps(r)
            && (forall j :: 0 <= j < |r| ==> child !in r[j].deps)
            && (forall j :: 0 <= j < |r| ==> r[j].nodeId == nodes[j].nodeId && r[j].pkgId == nodes[j].pkgId)
  {
    var r := RemoveChild(nodes, child);
    forall j | 0 <= j < |r|
      ensures Distinct(r[j].deps) && child !in r[j].deps
    {
      RemoveFirstDistinct(nodes[j].deps, child);
    }
  }

  /** `remove_dep(c)` leaves every node's other children where they were. */
  lemma RemoveChildMembers(nodes: seq<Node>, c: string, x: string)
    requires x != c
    ensures forall j :: 0 <= j < |nodes| ==> (x in RemoveChild(nodes, c)[j].deps <==> x in nodes[j].deps)
  {
    forall j | 0 <= j < |nodes|
      ensures x in RemoveChild(nodes, c)[j].deps <==> x in nodes[j].deps
    {
      RemoveFirstMembers(nodes[j].deps, c, x);
    }
  }

  /** `remove_dep(c)` keeps and creates no edge to any other child. */
  lemma RemoveChildOtherEdge(nodes: seq<Node>, c: string, p: string, x: string)
    requires x != c
    ensures Edge(RemoveChild(nodes, c), p, x) <==> Edge(nodes, p, x)
  {
    RemoveChildMembers(nodes, c, x);
    NodeIndexPrefix(nodes, RemoveChild(nodes, c), p);
    NodeIndexPrefix(RemoveChild(nodes, c), nodes, p);
  }

  // ----- pruning -----

  /** The node list after `prune_dep(id)`: root to meta, `id` removed everywhere, then listed under meta. */
  function PruneNodes(nodes: seq<Node>, root: string, id: string): seq<Node> {
    var linked := AddDepTo(nodes, root, Some(MetaPkgId), None);
    AddDepTo(RemoveChild(linked, id), root, Some(id), Some(MetaPkgId))
  }

  /** The only node listing `id` as a child is the (first) meta node. */
  predicate OnlyUnderMeta(nodes: seq<Node>, id: string) {
    forall j :: 0 <= j < |nodes| && id in nodes[j].deps ==> j == NodeIndex(nodes, MetaPkgId)
  }

  /** `id` has been moved under the meta node: the meta node lists it and no other node does. */
  predicate Moved(nodes: seq<Node>, id: string) {
    Edge(nodes, MetaPkgId, id) && OnlyUnderMeta(nodes, id)
  }

  /** The graph shape every update keeps: the root is present and no node repeats a child. */
  predicate WellFormed(nodes: seq<Node>, root: string) {
    0 <= NodeIndex(nodes, root) && DistinctDeps(nodes)
  }

  /** Renaming one node (its deps untouched) leaves a graph rooted at the new name. */
  lemma RenameNodeWellFormed(nodes: seq<Node>, r: nat, name: string, pkgId: string)
    requires r < |nodes| && DistinctDeps(nodes)
    ensures WellFormed(nodes[r := nodes[r].(nodeId := name, pkgId := pkgId)], name)
  {
    var m := nodes[r := nodes[r].(nodeId := name, pkgId := pkgId)];
    assert m[r].nodeId == name;
    assert forall j :: 0 <= j < |m| ==> m[j].deps == nodes[j].deps;
  }

  /** `prune_dep` keeps the graph well formed and leaves the root listing the meta node. */
  lemma PruneNodesWellFormed(nodes: seq<Node>, root: string, id: string)
    requires WellFormed(nodes, root)
    requires id != MetaPkgId
    ensures WellFormed(PruneNodes(nodes, root, id), root)
    ensures Edge(PruneNodes(nodes, root, id), root, MetaPkgId)
  {
    var linked := AddDepTo(nodes, root, Some(MetaPkgId), None);
    AddDepToEdge(nodes, root, Some(MetaPkgId), None);
    AddDepToDistinct(nodes, root, Some(MetaPkgId), None);
    var removed := RemoveChild(linked, id);
    RemoveChildSpec(linked, id);
    RemoveChildOtherEdge(linked, id, root, MetaPkgId);
    NodeIndexPrefix(linked, removed, root);
    var r := AddDepTo(removed, root, Some(id), Some(MetaPkgId));
    AddDepToDistinct(removed, root, Some(id), Some(MetaPkgId));
    AddDepToShape(removed, root, Some(id), Some(MetaPkgId));
    GrowsKeepsEdge(removed, r, root, MetaPkgId);
  }

  /** After `prune_dep(id)` the meta node lists `id`, and no other node does. */
  lemma PruneNodesUnderMeta(nodes: seq<Node>, root: string, id: string)
    requires WellFormed(nodes, root)
    requires id != ""
    ensures Moved(PruneNodes(nodes, root, id), id)
  {
    var linked := AddDepTo(nodes, root, Some(MetaPkgId), None);
    AddDepToDistinct(nodes, root, Some(MetaPkgId), None);
    var removed := RemoveChild(linked, id);
    RemoveChildSpec(linked, id);
    var r := AddDepTo(removed, root, Some(id), Some(MetaPkgId));
    AddDepToEdge(removed, root, Some(id), Some(MetaPkgId));
    AddDepToShape(removed, root, Some(id), Some(MetaPkgId));
    var m := NodeIndex(r, MetaPkgId);
    forall j | 0 <= j < |r| && id in r[j].deps
      ensures j == m
    {
      var i := NodeIndex(removed, MetaPkgId);
      if 0 <= i {
        NodeIndexPrefix(removed, r, MetaPkgId);
        assert j == i;
      } else {
        NodeIndexPrefix(removed, r, MetaPkgId);
        NodeIndexAt(r, MetaPkgId, |removed|);
      }
    }
  }

  /**
   * After `prune_dep(id)` the root lists the meta node, the meta node lists `id`, and no
   * other node lists `id`.
   */
  lemma PruneNodesSpec(nodes: seq<Node>, root: string, id: string)
    requires WellFormed(nodes, root)
    requires id != "" && id != MetaPkgId
    ensures var r := PruneNodes(nodes, root, id);
            && WellFormed(r, root)
            && Edge(r, root, MetaPkgId)
            && Moved(r, id)
  {
    PruneNodesWellFormed(nodes, root, id);
    PruneNodesUnderMeta(nodes, root, id);
  }

  /** `prune_dep(id)` neither keeps nor creates an edge to any child other than `id` and the meta node. */
  lemma PruneNodesOtherEdge(nodes: seq<Node>, root: string, id: string, p: string, x: string)
    requires x != id && x != MetaPkgId
    ensures Edge(PruneNodes(nodes, root, id), p, x) <==> Edge(nodes, p, x)
  {
    var linked := AddDepTo(nodes, root, Some(MetaPkgId), None);
    AddDepToOtherEdge(nodes, root, Some(MetaPkgId), None, p, x);
    RemoveChildOtherEdge(linked, id, p, x);
    AddDepToOtherEdge(RemoveChild(linked, id), root, Some(id), Some(MetaPkgId), p, x);
  }

  /** An id already pruned stays pruned when another id is pruned. */
  lemma PruneNodesKeepsPruned(nodes: seq<Node>, root: string, id: string, y: string)
    requires WellFormed(nodes, root)
    requires y != id && y != MetaPkgId
    requires OnlyUnderMeta(nodes, y)
    ensures OnlyUnderMeta(PruneNodes(nodes, root, id), y)
  {
    var linked := AddDepTo(nodes, root, Some(MetaPkgId), None);
    AddDepToMembers(nodes, root, Some(MetaPkgId), None, y);
    AddDepToShape(nodes, root, Some(MetaPkgId), None);
    NodeIndexPrefix(nodes, linked, MetaPkgId);
    var removed := RemoveChild(linked, id);
    RemoveChildMembers(linked, id, y);
    NodeIndexPrefix(linked, removed, MetaPkgId);
    NodeIndexPrefix(removed, linked, MetaPkgId);
    var r := AddDepTo(removed, root, Some(id), Some(MetaPkgId));
    AddDepToMembers(removed, root, Some(id), Some(MetaPkgId), y);
    AddDepToShape(removed, root, Some(id), Some(MetaPkgId));
    NodeIndexPrefix(removed, r, MetaPkgId);
  }

  /** An id already moved under the meta node stays there, alone, when another id is pruned. */
  lemma PruneNodesKeepsMoved(nodes: seq<Node>, root: string, id: string, y: string)
    requires WellFormed(nodes, root)
    requires y != id && y != MetaPkgId
    requires Moved(nodes, y)
    ensures Moved(PruneNodes(nodes, root, id), y)
  {
    PruneNodesOtherEdge(nodes, root, id, MetaPkgId, y);
    PruneNodesKeepsPruned(nodes, root, id, y);
  }

  /** The node list after pruning each of `ids` in turn. */
  function PruneAllNodes(nodes: seq<Node>, root: string, ids: seq<string>): seq<Node> {
    if |ids| == 0 then nodes
    else PruneNodes(PruneAllNodes(nodes, root, ids[..|ids| - 1]), root, ids[|ids| - 1])
  }

  /** `b` has every node of `a` at the same place, under the same node id and package id. */
  predicate KeepsIds(a: seq<Node>, b: seq<Node>) {
    |a| <= |b| && forall j :: 0 <= j < |a| ==> b[j].nodeId == a[j].nodeId && b[j].pkgId == a[j].pkgId
  }

  /** Pruning never removes or renames a node: only deps lists change, and nodes may be appended. */
  lemma {:induction false} PruneAllNodesKeepsIds(nodes: seq<Node>, root: string, ids: seq<string>)
    ensures KeepsIds(nodes, PruneAllNodes(nodes, root, ids))
  {
    if |ids| > 0 {
      var prev := PruneAllNodes(nodes, root, ids[..|ids| - 1]);
      PruneAllNodesKeepsIds(nodes, root, ids[..|ids| - 1]);
      var linked := AddDepTo(prev, root, Some(MetaPkgId), None);
      AddDepToShape(prev, root, Some(MetaPkgId), None);
      var removed := RemoveChild(linked, ids[|ids| - 1]);
      AddDepToShape(removed, root, Some(ids[|ids| - 1]), Some(MetaPkgId));
    }
  }

  /** The ids a pruning pass may move: non-empty and not the meta id itself. */
  predicate Prunable(ids: seq<string>) {
    forall k :: 0 <= k < |ids| ==> ids[k] != "" && ids[k] != MetaPkgId
  }

  /** Pruning a list of ids keeps the graph well formed and, once anything is pruned, the root lists the meta node. */
  lemma {:induction false} PruneAllNodesWellFormed(nodes: seq<Node>, root: string, ids: seq<string>)
    requires WellFormed(nodes, root)
    requires Prunable(ids)
    ensures WellFormed(PruneAllNodes(nodes, root, ids), root)
    ensures |ids| > 0 ==> Edge(PruneAllNodes(nodes, root, ids), root, MetaPkgId)
  {
    if |ids| > 0 {
      PruneAllNodesWellFormed(nodes, root, ids[..|ids| - 1]);
      PruneNodesWellFormed(PruneAllNodes(nodes, root, ids[..|ids| - 1]), root, ids[|ids| - 1]);
    }
  }

  /** The id pruned last is moved under the meta node. */
  lemma PruneAllNodesLastMoved(nodes: seq<Node>, root: string, ids: seq<string>)
    requires WellFormed(nodes, root)
    requires Prunable(ids) && |ids| > 0
    ensures Moved(PruneAllNodes(nodes, root, ids), ids[|ids| - 1])
  {
    PruneAllNodesWellFormed(nodes, root, ids[..|ids| - 1]);
    PruneNodesUnderMeta(PruneAllNodes(nodes, root, ids[..|ids| - 1]), root, ids[|ids| - 1]);
  }

  /** Pruning one more id keeps every other moved id moved. */
  lemma PruneAllNodesStepMoved(nodes: seq<Node>, root: string, ids: seq<string>, y: string)
    requires WellFormed(nodes, root)
    requires Prunable(ids) && |ids| > 0
    requires y != ids[|ids| - 1] && y != MetaPkgId
    requires Moved(PruneAllNodes(nodes, root, ids[..|ids| - 1]), y)
    ensures Moved(PruneAllNodes(nodes, root, ids), y)
  {
    PruneAllNodesWellFormed(nodes, root, ids[..|ids| - 1]);
    PruneNodesKeepsMoved(PruneAllNodes(nodes, root, ids[..|ids| - 1]), root, ids[|ids| - 1], y);
  }

  /** After pruning each of `ids` in turn, the `k`-th of them is listed by the meta node and by no other node. */
  lemma {:induction false} PruneAllNodesMoved(nodes: seq<Node>, root: string, ids: seq<string>, k: nat)
    requires WellFormed(nodes, root)
    requires Prunable(ids)
    requires k < |ids|
    ensures Moved(PruneAllNodes(nodes, root, ids), ids[k])
  {
    if ids[k] == ids[|ids| - 1] {
      PruneAllNodesLastMoved(nodes, root, ids);
    } else {
      var front := ids[..|ids| - 1];
      assert k < |front| && ids[k] == front[k];
      assert Prunable(front);
      PruneAllNodesMoved(nodes, root, front, k);
      PruneAllNodesStepMoved(nodes, root, ids, ids[k]);
    }
  }

  /**
   * After pruning each of `ids`, the graph is still well formed, the root lists the meta node
   * (if anything was pruned), and every pruned id is `Moved`: listed by the meta node and by no other.
   */
  lemma PruneAllNodesSpec(nodes: seq<Node>, root: string, ids: seq<string>)
    requires WellFormed(nodes, root)
    requires Prunable(ids)
    ensures var r := PruneAllNodes(nodes, root, ids);
            && WellFormed(r, root)
            && (|ids| > 0 ==> Edge(r, root, MetaPkgId))
            && (forall k :: 0 <= k < |ids| ==> Moved(r, ids[k]))
  {
    PruneAllNodesWellFormed(nodes, root, ids);
    forall k | 0 <= k < |ids|
      ensures Moved(PruneAllNodes(nodes, root, ids), ids[k])
    {
      PruneAllNodesMoved(nodes, root, ids, k);
    }
  }

  /** Pruning never touches an edge to a child that is not pruned (other than the meta node). */
  lemma {:induction false} PruneAllNodesOtherEdge(nodes: seq<Node>, root: string, ids: seq<string>, p: string, x: string)
    requires x !in ids && x != MetaPkgId
    ensures Edge(PruneAllNodes(nodes, root, ids), p, x) <==> Edge(nodes, p, x)
  {
    if |ids| > 0 {
      PruneAllNodesOtherEdge(nodes, root, ids[..|ids| - 1], p, x);
      PruneNodesOtherEdge(PruneAllNodes(nodes, root, ids[..|ids| - 1]), root, ids[|ids| - 1], p, x);
    }
  }

  /** Two pruning passes in a row prune like one pass over both lists. */
  lemma {:induction false} PruneAllNodesAppend(nodes: seq<Node>, root: string, a: seq<string>, b: seq<string>)
    ensures PruneAllNodes(PruneAllNodes(nodes, root, a), root, b) == PruneAllNodes(nodes, root, a + b)
  {
    if |b| == 0 {
      assert a + b == a;
    } else {
      PruneAllNodesAppend(nodes, root, a, b[..|b| - 1]);
      assert (a + b)[..|a + b| - 1] == a + b[..|b| - 1];
    }
  }

  /** The package list after pruning `ids`: the meta package is added once anything is pruned. */
  function PruneAllPkgs(pkgs: seq<Pkg>, ids: seq<string>): seq<Pkg> {
    if |ids| == 0 then pkgs else AddPkgTo(pkgs, MetaPkgId)
  }

  /** Pruning one more id prunes it from the graph the earlier ids left, and needs the meta package. */
  lemma PruneAllStep(nodes: seq<Node>, pkgs: seq<Pkg>, root: string, ids: seq<string>, id: string)
    ensures PruneAllNodes(nodes, root, ids + [id]) == PruneNodes(PruneAllNodes(nodes, root, ids), root, id)
    ensures PruneAllPkgs(pkgs, ids + [id]) == AddPkgTo(PruneAllPkgs(pkgs, ids), MetaPkgId)
  {
    assert (ids + [id])[..|ids|] == ids;
    AddPkgToSpec(pkgs, MetaPkgId);
  }

  /** Two pruning passes need the meta package once, like one pass over both lists. */
  lemma PruneAllPkgsAppend(pkgs: seq<Pkg>, a: seq<string>, b: seq<string>)
    ensures PruneAllPkgs(PruneAllPkgs(pkgs, a), b) == PruneAllPkgs(pkgs, a + b)
  {
    AddPkgToSpec(pkgs, MetaPkgId);
  }
}
