/**
 The `order: [...]` clause of a query: a sequence rearranged so that `geq` holds
 between every earlier and later element. Rows that tie are left in table order,
 but callers are promised only the ordering and the permutation.
 */
module Sorting {

  /** `geq` compares every pair and is transitive: an ORDER BY on computable keys. */
  ghost predicate TotalPreorder<T(!new)>(geq: (T, T) -> bool) {
    && (forall a, b :: geq(a, b) || geq(b, a))
    && (forall a, b, c :: geq(a, b) && geq(b, c) ==> geq(a, c))
  }

  predicate SortedBy<T>(s: seq<T>, geq: (T, T) -> bool) {
    forall i, j :: 0 <= i < j < |s| ==> geq(s[i], s[j])
  }

  function Insert<T(!new)>(x: T, s: seq<T>, geq: (T, T) -> bool): (r: seq<T>)
    requires TotalPreorder(geq) && SortedBy(s, geq)
    ensures multiset(r) == multiset(s) + multiset{x}
    ensures SortedBy(r, geq)
  {
    if s == [] || geq(x, s[0]) then
      [x] + s
    else
      var rest := Insert(x, s[1..], geq);
      assert s == [s[0]] + s[1..];
      assert forall k :: 0 <= k < |rest| ==> geq(s[0], rest[k]) by {
        forall k | 0 <= k < |rest| ensures geq(s[0], rest[k]) {
          assert rest[k] in multiset(rest);
          if rest[k] != x {
            assert rest[k] in multiset(s[1..]);
            var j :| 0 <= j < |s[1..]| && s[1..][j] == rest[k];
            assert s[j + 1] == rest[k];
          }
        }
      }
      [s[0]] + rest
  }

  function Sort<T(!new)>(s: seq<T>, geq: (T, T) -> bool): (r: seq<T>)
    requires TotalPreorder(geq)
    ensures multiset(r) == multiset(s)
    ensures SortedBy(r, geq)
  {
    if s == [] then []
    else
      assert s == [s[0]] + s[1..];
      Insert(s[0], Sort(s[1..], geq), geq)
  }

  /** Two sequences with one multiset hold the same elements, index by index both ways. */
  lemma SameElements<T>(a: seq<T>, b: seq<T>)
    requires multiset(a) == multiset(b)
    ensures |a| == |b|
    ensures forall k :: 0 <= k < |a| ==> exists i :: 0 <= i < |b| && a[k] == b[i]
    ensures forall i :: 0 <= i < |b| ==> exists k :: 0 <= k < |a| && a[k] == b[i]
  {
    assert |multiset(a)| == |multiset(b)|;
    forall k | 0 <= k < |a| ensures exists i :: 0 <= i < |b| && a[k] == b[i] {
      assert a[k] in multiset(b);
    }
    forall i | 0 <= i < |b| ensures exists k :: 0 <= k < |a| && a[k] == b[i] {
      assert b[i] in multiset(a);
    }
  }

  /** Taking out one occurrence of the first element of `a` where it sits in `b`
      leaves the rest of `a`. */
  lemma DropOne<T>(a: seq<T>, b: seq<T>, j: nat)
    requires multiset(a) == multiset(b) && a != [] && j < |b| && b[j] == a[0]
    ensures multiset(b[..j] + b[j + 1..]) == multiset(a[1..])
  {
    var left, right := b[..j], b[j + 1..];
    assert b == left + [b[j]] + right;
    assert a == [a[0]] + a[1..];
    calc {
      multiset(left + right);
      multiset(left) + multiset(right);
      multiset(b) - multiset{b[j]};
      multiset(a) - multiset{a[0]};
      multiset(a[1..]);
    }
  }
}
