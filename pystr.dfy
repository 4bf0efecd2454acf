/**
 * The handful of Python `str` and `list` operations the tool relies on, written
 * out with Python's own edge cases: `rfind` answers -1 when the character is
 * missing, and a slice `s[:k]` with `k == -1` drops the last character.
 */
module PyStr {

  /** Python's `None` next to a value. */
  datatype Option<T> = None | Some(value: T)

  predicate StartsWith(s: string, prefix: string) {
    |prefix| <= |s| && s[..|prefix|] == prefix
  }

  predicate EndsWith(s: string, suffix: string) {
    |suffix| <= |s| && s[|s| - |suffix|..] == suffix
  }

  /** `s.rfind(c)`: the index of the last `c` in `s`, or -1. */
  function RFind(s: string, c: char): (k: int)
    ensures -1 <= k < |s|
    ensures k == -1 <==> c !in s
    ensures 0 <= k ==> s[k] == c
    ensures forall j :: k < j < |s| ==> s[j] != c
  {
    if |s| == 0 then -1
    else if s[|s| - 1] == c then |s| - 1
    else
      var k := RFind(s[..|s| - 1], c);
      assert s == s[..|s| - 1] + [s[|s| - 1]];
      k
  }

  /**
   * `s.find(c)` on a string, and `s.index(x)` on a list answering -1 instead of raising:
   * the index of the first `x` in `s`, or -1.
   */
  function IndexOf<T(==)>(s: seq<T>, x: T): (k: int)
    ensures -1 <= k < |s|
    ensures k == -1 <==> x !in s
    ensures 0 <= k ==> s[k] == x
    ensures forall j :: 0 <= j < k ==> s[j] != x
  {
    if |s| == 0 then -1
    else if s[0] == x then 0
    else
      var k := IndexOf(s[1..], x);
      assert s == [s[0]] + s[1..];
      if k < 0 then -1 else k + 1
  }

  /** The slice `s[:k]` for an index produced by `find`/`rfind`, so -1 means "all but the last". */
  function Head(s: string, k: int): string
    requires -1 <= k <= |s|
  {
    if k >= 0 then s[..k]
    else if |s| == 0 then []
    else s[..|s| - 1]
  }

  /** `s[:k] + "@" + s[k+1:]` with `k = s.rfind(sep)`; when `k == -1` that is `s[:-1] + "@" + s`. */
  function ReplaceRightmost(s: string, sep: char): string {
    var k := RFind(s, sep);
    if k >= 0 then s[..k] + "@" + s[k + 1..] else Head(s, -1) + "@" + s
  }

  /** When `sep` occurs, only its right-most occurrence becomes `@`; the length does not change. */
  lemma ReplaceRightmostFound(s: string, sep: char)
    requires sep in s
    ensures var k := RFind(s, sep);
            var r := ReplaceRightmost(s, sep);
            && r == s[..k] + "@" + s[k + 1..]
            && |r| == |s|
            && r[k] == '@'
            && (forall i :: 0 <= i < |s| && i != k ==> r[i] == s[i])
            && sep !in r[k + 1..]
  {
    var k := RFind(s, sep);
    var r := ReplaceRightmost(s, sep);
    assert r[k + 1..] == s[k + 1..];
  }

  /** When `sep` is missing, Python's `s[:-1]` keeps all but the last character and the whole of `s` follows the `@`. */
  lemma ReplaceRightmostMissing(s: string, sep: char)
    requires sep !in s
    ensures ReplaceRightmost(s, sep) == Head(s, -1) + "@" + s
  {
  }

  /** The canonical form always carries an `@`. */
  lemma ReplaceRightmostHasAt(s: string, sep: char)
    ensures '@' in ReplaceRightmost(s, sep)
  {
    var k := RFind(s, sep);
    var r := ReplaceRightmost(s, sep);
    assert r[|Head(s, k)|] == '@';
  }

  /** The index `rfind` answers is the only one holding `c` with no `c` after it. */
  lemma RFindUnique(s: string, c: char, i: nat)
    requires i < |s| && s[i] == c
    requires forall j :: i < j < |s| ==> s[j] != c
    ensures RFind(s, c) == i
  {
  }

  /** `rfind` on `a + [c] + b` finds the separator between them when `b` has none. */
  lemma RFindAfter(a: string, c: char, b: string)
    requires c !in b
    ensures RFind(a + [c] + b, c) == |a|
  {
    var s := a + [c] + b;
    assert s[|a|] == c;
    assert s[|a| + 1..] == b;
    RFindUnique(s, c, |a|);
  }

  /** `s.split(c).pop()`: what follows the last `c`, or all of `s`. */
  function AfterLast(s: string, c: char): string {
    s[RFind(s, c) + 1..]
  }

  /** `s.split(c)[0]`: what precedes the first `c`, or all of `s`. */
  function BeforeFirst(s: string, c: char): string {
    var k := IndexOf(s, c);
    if k < 0 then s else s[..k]
  }

  /** `s.split(c)[1]`: the text between the first and the second `c` (or the end). */
  function SecondField(s: string, c: char): string
    requires c in s
  {
    BeforeFirst(s[IndexOf(s, c) + 1..], c)
  }

  /** How many times `c` occurs in `s`; `len(s.split(c)) == Occurrences(s, c) + 1`. */
  function Occurrences(s: string, c: char): nat {
    if |s| == 0 then 0
    else Occurrences(s[..|s| - 1], c) + (if s[|s| - 1] == c then 1 else 0)
  }

  /** Exactly one `c` means that it splits `s` into the text before and after it. */
  lemma {:induction false} SingleOccurrence(s: string, c: char)
    requires Occurrences(s, c) == 1
    ensures c in s && IndexOf(s, c) == RFind(s, c)
  {
    var k := RFind(s, c);
    OccurrencesNone(s[k + 1..], c);
    if k < 0 {
      OccurrencesNone(s, c);
    } else {
      OccurrencesSplit(s, k, c);
      OccurrencesNone(s[..k], c);
      assert forall j :: 0 <= j < k ==> s[j] == s[..k][j];
    }
  }

  lemma {:induction false} OccurrencesNone(s: string, c: char)
    ensures Occurrences(s, c) == 0 <==> c !in s
  {
    if |s| > 0 {
      OccurrencesNone(s[..|s| - 1], c);
      assert s == s[..|s| - 1] + [s[|s| - 1]];
    }
  }

  lemma {:induction false} OccurrencesAppend(a: string, b: string, c: char)
    ensures Occurrences(a + b, c) == Occurrences(a, c) + Occurrences(b, c)
    decreases |b|
  {
    if |b| > 0 {
      assert (a + b)[..|a + b| - 1] == a + b[..|b| - 1];
      OccurrencesAppend(a, b[..|b| - 1], c);
    } else {
      assert a + b == a;
    }
  }

  /** An occurrence at `k` splits the count into the parts before and after it. */
  lemma OccurrencesSplit(s: string, k: nat, c: char)
    requires k < |s| && s[k] == c
    ensures Occurrences(s, c) == Occurrences(s[..k], c) + 1 + Occurrences(s[k + 1..], c)
  {
    assert s == s[..k] + [c] + s[k + 1..];
    OccurrencesAppend(s[..k] + [c], s[k + 1..], c);
    OccurrencesAppend(s[..k], [c], c);
    assert ([] + [c])[..0] == [];
  }
}
