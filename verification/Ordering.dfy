/** `strcmp` order and `qsort` over it. The original leaves the sorting to libc; what it relies on
    is that a list has one sorted permutation only, so that any `qsort` gives the same lines. */
module Ordering {

  /** `strcmp(a, b) <= 0`. */
  predicate Leq(a: string, b: string) {
    a == [] || (b != [] && (a[0] < b[0] || (a[0] == b[0] && Leq(a[1..], b[1..]))))
  }

  lemma {:induction false} LeqTotal(a: string, b: string)
    ensures Leq(a, b) || Leq(b, a)
  {
    if a != [] && b != [] { LeqTotal(a[1..], b[1..]); }
  }

  lemma {:induction false} LeqAntisymmetric(a: string, b: string)
    requires Leq(a, b) && Leq(b, a)
    ensures a == b
  {
    if a != [] && b != [] {
      LeqAntisymmetric(a[1..], b[1..]);
      assert a == [a[0]] + a[1..] && b == [b[0]] + b[1..];
    }
  }

  lemma {:induction false} LeqTransitive(a: string, b: string, c: string)
    requires Leq(a, b) && Leq(b, c)
    ensures Leq(a, c)
  {
    if a != [] && a[0] == b[0] == c[0] { LeqTransitive(a[1..], b[1..], c[1..]); }
  }

  /** `a` is smaller at the first place where the two differ, or ends there. */
  ghost predicate Smaller(a: string, b: string) {
    exists k: nat :: k <= |a| && k < |b| && a[..k] == b[..k] && (k == |a| || a[k] < b[k])
  }

  lemma SmallerTail(a: string, b: string)
    requires a != [] && b != [] && a[0] == b[0]
    ensures Smaller(a, b) <==> Smaller(a[1..], b[1..])
  {
    if Smaller(a, b) {
      var k: nat :| k <= |a| && k < |b| && a[..k] == b[..k] && (k == |a| || a[k] < b[k]);
      SameTails(a, b, k);
    }
    if Smaller(a[1..], b[1..]) {
      var k: nat :| k <= |a[1..]| && k < |b[1..]| && a[1..][..k] == b[1..][..k]
          && (k == |a[1..]| || a[1..][k] < b[1..][k]);
      SameTails(a, b, k + 1);
    }
  }

  lemma SameTails(a: string, b: string, k: nat)
    requires 0 < k <= |a| && k <= |b| && a[0] == b[0]
    ensures a[..k] == b[..k] <==> a[1..][..k - 1] == b[1..][..k - 1]
  {
    assert a[..k] == [a[0]] + a[1..][..k - 1] && b[..k] == [b[0]] + b[1..][..k - 1];
  }

  /** The order is that of the first difference. */
  lemma {:induction false} LeqIsFirstDifference(a: string, b: string)
    ensures Leq(a, b) <==> !Smaller(b, a)
  {
    if a == [] {
    } else if b == [] {
      assert b[..0] == a[..0];
      assert Smaller(b, a);
    } else if a[0] == b[0] {
      SmallerTail(b, a);
      LeqIsFirstDifference(a[1..], b[1..]);
    } else if b[0] < a[0] {
      assert b[..0] == a[..0];
      assert Smaller(b, a);
    } else {
      forall k: nat | k <= |b| && k < |a| && (k == |b| || b[k] < a[k])
        ensures b[..k] != a[..k]
      {
        if k > 0 { assert b[..k][0] != a[..k][0]; }
      }
    }
  }

  /** No line stands before one that is smaller at the first difference. */
  ghost predicate Ascending(lines: seq<string>) {
    forall i, j :: 0 <= i < j < |lines| ==> !Smaller(lines[j], lines[i])
  }

  lemma SortedIsAscending(lines: seq<string>)
    ensures Sorted(lines) <==> Ascending(lines)
  {
    forall i, j | 0 <= i < j < |lines|
      ensures Leq(lines[i], lines[j]) <==> !Smaller(lines[j], lines[i])
    {
      LeqIsFirstDifference(lines[i], lines[j]);
    }
  }

  ghost predicate Sorted(lines: seq<string>) {
    forall i, j :: 0 <= i < j < |lines| ==> Leq(lines[i], lines[j])
  }

  function Insert(x: string, lines: seq<string>): seq<string> {
    if lines == [] || Leq(x, lines[0]) then [x] + lines else [lines[0]] + Insert(x, lines[1..])
  }

  function Sort(lines: seq<string>): seq<string> {
    if lines == [] then [] else Insert(lines[0], Sort(lines[1..]))
  }

  lemma {:induction false} InsertSorts(x: string, lines: seq<string>)
    requires Sorted(lines)
    ensures Sorted(Insert(x, lines))
    ensures multiset(Insert(x, lines)) == multiset{x} + multiset(lines)
    ensures |Insert(x, lines)| == |lines| + 1
  {
    if lines == [] {
    } else if Leq(x, lines[0]) {
      forall j | 0 <= j < |lines|
        ensures Leq(x, lines[j])
      {
        if j > 0 { LeqTransitive(x, lines[0], lines[j]); }
      }
    } else {
      LeqTotal(x, lines[0]);
      var rest := lines[1..];
      InsertSorts(x, rest);
      assert lines == [lines[0]] + rest;
      var out := Insert(x, rest);
      forall j | 0 <= j < |out|
        ensures Leq(lines[0], out[j])
      {
        assert out[j] in multiset(out);
        assert out[j] == x || out[j] in rest;
      }
    }
  }

  lemma {:induction false} SortSorts(lines: seq<string>)
    ensures Sorted(Sort(lines)) && multiset(Sort(lines)) == multiset(lines)
    ensures |Sort(lines)| == |lines|
  {
    if lines != [] {
      SortSorts(lines[1..]);
      InsertSorts(lines[0], Sort(lines[1..]));
      assert lines == [lines[0]] + lines[1..];
    }
  }

  lemma SameFirst(a: seq<string>, b: seq<string>)
    requires Sorted(a) && Sorted(b) && multiset(a) == multiset(b) && a != []
    ensures b != [] && a[0] == b[0]
  {
    assert a[0] in multiset(b);
    assert b[0] in multiset(a);
    var i :| 0 <= i < |b| && b[i] == a[0];
    var j :| 0 <= j < |a| && a[j] == b[0];
    if i > 0 && j > 0 { LeqAntisymmetric(a[0], b[0]); }
  }

  lemma RestMultiset(a: seq<string>)
    requires a != []
    ensures multiset(a[1..]) == multiset(a) - multiset{a[0]}
  {
    assert a == [a[0]] + a[1..];
  }

  /** A list has only one sorted permutation, because `strcmp` is 0 on equal strings only. */
  lemma {:induction false} SortedPermutationIsUnique(a: seq<string>, b: seq<string>)
    requires Sorted(a) && Sorted(b) && multiset(a) == multiset(b)
    ensures a == b
  {
    if a == [] {
      assert |multiset(b)| == |b|;
    } else {
      SameFirst(a, b);
      RestMultiset(a);
      RestMultiset(b);
      SortedPermutationIsUnique(a[1..], b[1..]);
      assert a == [a[0]] + a[1..] && b == [b[0]] + b[1..];
    }
  }

  lemma SortOfPermutation(a: seq<string>, b: seq<string>)
    ensures Sort(a) == Sort(b) <==> multiset(a) == multiset(b)
  {
    SortSorts(a);
    SortSorts(b);
    if multiset(a) == multiset(b) { SortedPermutationIsUnique(Sort(a), Sort(b)); }
  }

  /** `qsort(base, n, sizeof(char*), AtmosUtil_cstring_cmp)`. */
  method QSort(base: array<string>)
    modifies base
    ensures Sorted(base[..]) && multiset(base[..]) == old(multiset(base[..]))
    ensures Ascending(base[..])
    ensures base[..] == Sort(old(base[..]))
  {
    var sorted := Sort(base[..]);
    SortSorts(base[..]);
    forall i | 0 <= i < base.Length {
      base[i] := sorted[i];
    }
    assert base[..] == sorted;
    SortedIsAscending(sorted);
  }
}
