/**
 * The repetition counters: Python dicts from an id to the number of times it was met,
 * kept as a list of entries in insertion order, because the order in which a dict is
 * iterated decides the order in which ids are pruned.
 */
module PathCounts {

  datatype Entry = Entry(key: string, count: nat)

  type Counts = seq<Entry>

  /** A dict never holds the same key twice. */
  predicate KeysUnique(m: Counts) {
    forall i, j :: 0 <= i < j < |m| ==> m[i].key != m[j].key
  }

  /**
   * The position of `key` in `m`, or -1 when it is not a key. This stands for a dict lookup,
   * not a list scan: with unique keys the first match is the only one. It is kept apart from
   * the package and node searches of the graph document, which model `for` loops over lists.
   */
  function KeyIndex(m: Counts, key: string): (i: int)
    ensures -1 <= i < |m|
    ensures 0 <= i ==> m[i].key == key
    ensures i < 0 ==> forall j :: 0 <= j < |m| ==> m[j].key != key
    ensures forall j :: 0 <= j < i ==> m[j].key != key
  {
    if |m| == 0 then -1
    else if m[0].key == key then 0
    else
      var i := KeyIndex(m[1..], key);
      if i < 0 then -1 else i + 1
  }

  /** `m.get(key, 0)`. */
  function Get(m: Counts, key: string): nat {
    var i := KeyIndex(m, key);
    if i < 0 then 0 else m[i].count
  }

  /** Two dicts whose keys agree up to the length of the shorter, where the longer has no `k` after that, find `k` at the same place. */
  lemma KeyIndexPrefix(m: Counts, r: Counts, k: string)
    requires |m| <= |r|
    requires forall j :: 0 <= j < |m| ==> r[j].key == m[j].key
    requires forall j :: |m| <= j < |r| ==> r[j].key != k
    ensures KeyIndex(r, k) == KeyIndex(m, k)
  {
    var i, i' := KeyIndex(m, k), KeyIndex(r, k);
    if 0 <= i' {
      assert i' < |m|;
    }
  }

  /** The first position holding `key` is the one `KeyIndex` finds. */
  lemma KeyIndexAt(m: Counts, key: string, i: nat)
    requires i < |m| && m[i].key == key
    requires forall j :: 0 <= j < i ==> m[j].key != key
    ensures KeyIndex(m, key) == i
  {
  }

  /** `m[key] = value`: an existing key keeps its place, a new key goes at the end. */
  function Put(m: Counts, key: string, value: nat): (r: Counts)
    ensures Get(r, key) == value
    ensures forall k :: k != key ==> Get(r, k) == Get(m, k)
    ensures |r| == if KeyIndex(m, key) < 0 then |m| + 1 else |m|
    ensures forall j :: 0 <= j < |m| ==> r[j].key == m[j].key
    ensures KeysUnique(m) ==> KeysUnique(r)
  {
    var i := KeyIndex(m, key);
    var r := if i < 0 then m + [Entry(key, value)] else m[i := Entry(key, value)];
    KeyIndexAt(r, key, if i < 0 then |m| else i);
    forall k | k != key
      ensures Get(r, k) == Get(m, k)
    {
      if i < 0 {
        KeyIndexPrefix(m, r, k);
      } else {
        KeyIndexPrefix(m, r, k);
        assert KeyIndex(r, k) != i;
      }
    }
    r
  }

  /** `m[key] = m.get(key, 0) + 1`: the only count that moves is `key`'s, by one. */
  function Increment(m: Counts, key: string): (r: Counts)
    ensures Get(r, key) == Get(m, key) + 1
    ensures forall k :: k != key ==> Get(r, k) == Get(m, k)
    ensures KeysUnique(m) ==> KeysUnique(r)
    ensures 0 <= KeyIndex(m, key) ==> |r| == |m|
    ensures |m| <= |r| && forall j :: 0 <= j < |m| ==> r[j].key == m[j].key
    ensures KeyIndex(m, key) < 0 ==> r == m + [Entry(key, 1)]
  {
    Put(m, key, Get(m, key) + 1)
  }

  /** `m.update(u)`: every entry of `u`, in order, written into `m`. */
  function Merge(m: Counts, u: Counts): Counts
    decreases |u|
  {
    if |u| == 0 then m else Merge(Put(m, u[0].key, u[0].count), u[1..])
  }

  /** After `m.update(u)` a key of `u` carries `u`'s count (it overwrites `m`'s); any other key keeps `m`'s. */
  lemma {:induction false} MergeGet(m: Counts, u: Counts, k: string)
    requires KeysUnique(u)
    ensures Get(Merge(m, u), k) == if 0 <= KeyIndex(u, k) then Get(u, k) else Get(m, k)
    decreases |u|
  {
    if |u| > 0 {
      var p := Put(m, u[0].key, u[0].count);
      MergeGet(p, u[1..], k);
      if k == u[0].key {
        assert KeyIndex(u[1..], k) < 0 by {
          forall j | 0 <= j < |u[1..]|
            ensures u[1..][j].key != k
          {
            assert u[j + 1].key != u[0].key;
          }
        }
      }
    }
  }

  /** `update` keeps the keys of `m` where they were, appends the new ones, and never duplicates a key. */
  lemma {:induction false} MergeKeepsOrder(m: Counts, u: Counts)
    ensures |m| <= |Merge(m, u)|
    ensures forall j :: 0 <= j < |m| ==> Merge(m, u)[j].key == m[j].key
    ensures KeysUnique(m) ==> KeysUnique(Merge(m, u))
    decreases |u|
  {
    if |u| > 0 {
      MergeKeepsOrder(Put(m, u[0].key, u[0].count), u[1..]);
    }
  }

  /** The total of all counts. */
  function Sum(m: Counts): nat {
    if |m| == 0 then 0 else Sum(m[..|m| - 1]) + m[|m| - 1].count
  }

  /** No single count exceeds the total, so a count above 1 makes the total positive. */
  lemma {:induction false} CountAtMostSum(m: Counts, j: int)
    requires 0 <= j < |m|
    ensures m[j].count <= Sum(m)
  {
    if j < |m| - 1 {
      CountAtMostSum(m[..|m| - 1], j);
    }
  }

  /** Every count is at most the total. */
  lemma CountsAtMostSum(m: Counts)
    ensures forall j :: 0 <= j < |m| ==> m[j].count <= Sum(m)
  {
    forall j | 0 <= j < |m|
      ensures m[j].count <= Sum(m)
    {
      CountAtMostSum(m, j);
    }
  }

  /** The summing loop over `items()`. */
  method Total(m: Counts) returns (total: nat)
    ensures total == Sum(m)
  {
    total := 0;
    for i := 0 to |m|
      invariant total == Sum(m[..i])
    {
      assert m[..i + 1][..i] == m[..i];
      total := total + m[i].count;
    }
    assert m[..|m|] == m;
  }

  /** `ceil(count / total * 100)` in exact arithmetic. */
  function CeilPercent(count: nat, total: nat): (r: nat)
    requires total > 0
    ensures (r - 1) * total < 100 * count <= r * total
  {
    var r := (100 * count + total - 1) / total;
    assert r * total <= 100 * count + total - 1 < (r + 1) * total;
    r
  }

  /** The percentage exceeds `p` exactly when the count is more than `p` percent of the total. */
  lemma CeilPercentAbove(count: nat, total: nat, p: int)
    requires total > 0
    ensures CeilPercent(count, total) > p <==> 100 * count > p * total
  {
    var r := CeilPercent(count, total);
    if r > p {
      assert (r - 1) * total >= p * total by {
        assert r - 1 >= p;
        MulMono(p, r - 1, total);
      }
    } else {
      MulMono(r, p, total);
    }
  }

  lemma MulMono(a: int, b: int, t: nat)
    requires a <= b
    ensures a * t <= b * t
  {
    assert b * t - a * t == (b - a) * t;
  }

  /** The test `prune_graph` applies to one entry: a repeated id that is too frequent in absolute or relative terms. */
  predicate Selects(count: nat, total: nat, countThreshold: int, percentThreshold: int)
    requires count <= total
  {
    count > 1 && (count > countThreshold || CeilPercent(count, total) > percentThreshold)
  }

  /** Every count of `m` is within `total`. */
  predicate Within(m: Counts, total: nat) {
    forall j :: 0 <= j < |m| ==> m[j].count <= total
  }

  /** The keys `prune_graph` prunes, in iteration order. */
  function Selected(m: Counts, total: nat, countThreshold: int, percentThreshold: int): (ks: seq<string>)
    requires Within(m, total)
  {
    if |m| == 0 then []
    else
      var e := m[|m| - 1];
      var ks := Selected(m[..|m| - 1], total, countThreshold, percentThreshold);
      if Selects(e.count, total, countThreshold, percentThreshold) then ks + [e.key] else ks
  }

  /** Walking the dict one entry further picks that entry's key after the earlier ones, when it passes. */
  lemma SelectedStep(m: Counts, total: nat, countThreshold: int, percentThreshold: int, i: nat)
    requires i < |m| && Within(m, total)
    ensures Within(m[..i], total) && Within(m[..i + 1], total)
    ensures Selected(m[..i + 1], total, countThreshold, percentThreshold) ==
              if Selects(m[i].count, total, countThreshold, percentThreshold)
              then Selected(m[..i], total, countThreshold, percentThreshold) + [m[i].key]
              else Selected(m[..i], total, countThreshold, percentThreshold)
  {
    assert m[..i + 1][..i] == m[..i];
  }

  /** An id is pruned exactly when one of its entries passes the test. */
  lemma {:induction false} SelectedMember(m: Counts, total: nat, countThreshold: int, percentThreshold: int, k: string)
    requires Within(m, total)
    ensures k in Selected(m, total, countThreshold, percentThreshold) <==>
            exists j :: 0 <= j < |m| && m[j].key == k && Selects(m[j].count, total, countThreshold, percentThreshold)
  {
    if |m| > 0 {
      var m' := m[..|m| - 1];
      SelectedMember(m', total, countThreshold, percentThreshold, k);
      if exists j :: 0 <= j < |m'| && m'[j].key == k && Selects(m'[j].count, total, countThreshold, percentThreshold) {
        var j :| 0 <= j < |m'| && m'[j].key == k && Selects(m'[j].count, total, countThreshold, percentThreshold);
        assert m[j] == m'[j];
      }
    }
  }

  /** The keys `prune_graph_all` prunes from one dict: those counted more than `threshold` times, in iteration order. */
  function Above(m: Counts, threshold: int): seq<string> {
    if |m| == 0 then []
    else
      var ks := Above(m[..|m| - 1], threshold);
      if m[|m| - 1].count > threshold then ks + [m[|m| - 1].key] else ks
  }

  /** Walking the dict one entry further picks that entry's key after the earlier ones, when it passes. */
  lemma AboveStep(m: Counts, threshold: int, i: nat)
    requires i < |m|
    ensures Above(m[..i + 1], threshold) ==
              if m[i].count > threshold then Above(m[..i], threshold) + [m[i].key] else Above(m[..i], threshold)
  {
    assert m[..i + 1][..i] == m[..i];
  }

  /** With unique keys, an id is pruned exactly when its count exceeds the threshold. */
  lemma {:induction false} AboveMember(m: Counts, threshold: int, k: string)
    requires KeysUnique(m)
    ensures k in Above(m, threshold) <==> Get(m, k) > threshold && 0 <= KeyIndex(m, k)
  {
    if |m| > 0 {
      var m' := m[..|m| - 1];
      AboveMember(m', threshold, k);
      if m[|m| - 1].key != k {
        KeyIndexPrefix(m', m, k);
      } else {
        assert KeyIndex(m', k) < 0;
        assert KeyIndex(m, k) == |m| - 1;
      }
    }
  }

  /** No key of `m` is one of `bad`. */
  predicate KeysAvoid(m: Counts, bad: set<string>) {
    forall j :: 0 <= j < |m| ==> m[j].key !in bad
  }

  /** `update` only brings in keys of the two dicts. */
  lemma {:induction false} MergeAvoids(m: Counts, u: Counts, bad: set<string>)
    requires KeysAvoid(m, bad) && KeysAvoid(u, bad)
    ensures KeysAvoid(Merge(m, u), bad)
    decreases |u|
  {
    if |u| > 0 {
      var p := Put(m, u[0].key, u[0].count);
      assert KeysAvoid(p, bad);
      MergeAvoids(p, u[1..], bad);
    }
  }

  /** The ids `prune_graph_all` picks are keys of the dict. */
  lemma {:induction false} AboveAvoids(m: Counts, threshold: int, bad: set<string>)
    requires KeysAvoid(m, bad)
    ensures forall k :: 0 <= k < |Above(m, threshold)| ==> Above(m, threshold)[k] !in bad
  {
    if |m| > 0 {
      AboveAvoids(m[..|m| - 1], threshold, bad);
    }
  }

  /** The ids `prune_graph` picks are keys of the dict. */
  lemma {:induction false} SelectedAvoids(m: Counts, total: nat, countThreshold: int, percentThreshold: int, bad: set<string>)
    requires Within(m, total)
    requires KeysAvoid(m, bad)
    ensures forall k :: 0 <= k < |Selected(m, total, countThreshold, percentThreshold)| ==>
              Selected(m, total, countThreshold, percentThreshold)[k] !in bad
  {
    if |m| > 0 {
      SelectedAvoids(m[..|m| - 1], total, countThreshold, percentThreshold, bad);
    }
  }

  /** The ids `prune_graph` prunes from the merged dict `m`, judged against the total of `m`. */
  function PruneIds(m: Counts, countThreshold: int, percentThreshold: int): seq<string> {
    CountsAtMostSum(m);
    Selected(m, Sum(m), countThreshold, percentThreshold)
  }

  /**
   * With unique keys, `prune_graph` prunes `k` exactly when `k` is a key counted more than once
   * whose count exceeds the count threshold or whose rounded-up percentage of the total exceeds
   * the percentage threshold.
   */
  lemma PruneIdsMember(m: Counts, countThreshold: int, percentThreshold: int, k: string)
    requires KeysUnique(m)
    ensures Get(m, k) <= Sum(m)
    ensures k in PruneIds(m, countThreshold, percentThreshold) <==>
              0 <= KeyIndex(m, k) && Selects(Get(m, k), Sum(m), countThreshold, percentThreshold)
  {
    CountsAtMostSum(m);
    SelectedMember(m, Sum(m), countThreshold, percentThreshold, k);
    if 0 <= KeyIndex(m, k) {
      var i := KeyIndex(m, k);
      if exists j :: 0 <= j < |m| && m[j].key == k && Selects(m[j].count, Sum(m), countThreshold, percentThreshold) {
        var j :| 0 <= j < |m| && m[j].key == k && Selects(m[j].count, Sum(m), countThreshold, percentThreshold);
        assert j == i;
      } else {
        assert !Selects(m[i].count, Sum(m), countThreshold, percentThreshold);
      }
    }
  }
}
