/** `ops.sort(compare)`: the result is specified as a permutation that is
    sorted under the comparator; `SortOps` is one such permutation
    (`SortOpsSorted`), and `SortedPermutationUnique` shows it is the only
    one once ops that share a comparator triple are the same op. */
module Sorting {
  import opened Lamport
  import opened Operation

  /** Each op orders no later than the next one. */
  predicate Sorted(s: seq<Op>)
    decreases |s|
  {
    |s| <= 1 || (Le(StampOf(s[0]), StampOf(s[1])) && Sorted(s[1..]))
  }

  /** Every op orders no later than every op after it. */
  ghost predicate Pairwise(s: seq<Op>)
  {
    forall i, j :: 0 <= i < j < |s| ==> Le(StampOf(s[i]), StampOf(s[j]))
  }

  lemma {:induction false} SortedIsPairwise(s: seq<Op>)
    ensures Sorted(s) <==> Pairwise(s)
    decreases |s|
  {
    if |s| > 1 {
      SortedIsPairwise(s[1..]);
      if Sorted(s) {
        forall i, j | 0 <= i < j < |s|
          ensures Le(StampOf(s[i]), StampOf(s[j]))
        {
          if i == 0 && j > 1 {
            assert s[1..][0] == s[1] && s[1..][j - 1] == s[j];
            LeTransitive(StampOf(s[0]), StampOf(s[1]), StampOf(s[j]));
          } else if i > 0 {
            assert s[1..][i - 1] == s[i] && s[1..][j - 1] == s[j];
          }
        }
      }
      if Pairwise(s) {
        assert Pairwise(s[1..]) by {
          forall i, j | 0 <= i < j < |s[1..]|
            ensures Le(StampOf(s[1..][i]), StampOf(s[1..][j]))
          {
            assert s[1..][i] == s[i + 1] && s[1..][j] == s[j + 1];
          }
        }
      }
    }
  }

  /** Inserts `x` before the first element it orders no later than. */
  function Insert(x: Op, s: seq<Op>): seq<Op>
  {
    if |s| == 0 then [x]
    else if Le(StampOf(x), StampOf(s[0])) then [x] + s
    else [s[0]] + Insert(x, s[1..])
  }

  lemma {:induction false} InsertSorted(x: Op, s: seq<Op>)
    requires Sorted(s)
    ensures Sorted(Insert(x, s))
    ensures multiset(Insert(x, s)) == multiset(s) + multiset{x}
    decreases |s|
  {
    if |s| == 0 {
    } else if Le(StampOf(x), StampOf(s[0])) {
      LeBelowSorted(x, s);
      assert s == [s[0]] + s[1..];
    } else {
      LeTotal(StampOf(x), StampOf(s[0]));
      var rest := Insert(x, s[1..]);
      assert s == [s[0]] + s[1..];
      InsertSorted(x, s[1..]);
      HeadBelowInsert(x, s, rest);
    }
  }

  lemma LeBelowSorted(x: Op, s: seq<Op>)
    requires Sorted(s) && |s| > 0 && Le(StampOf(x), StampOf(s[0]))
    ensures Sorted([x] + s)
  {
    assert ([x] + s)[1..] == s;
  }

  lemma HeadBelowInsert(x: Op, s: seq<Op>, rest: seq<Op>)
    requires Sorted(s) && |s| > 0 && Sorted(rest) && Le(StampOf(s[0]), StampOf(x))
    requires multiset(rest) == multiset(s[1..]) + multiset{x}
    ensures Sorted([s[0]] + rest)
  {
    SortedIsPairwise(s);
    assert ([s[0]] + rest)[1..] == rest;
    forall j | 0 <= j < |rest|
      ensures Le(StampOf(s[0]), StampOf(rest[j]))
    {
      assert rest[j] in multiset(rest);
      if rest[j] != x {
        assert rest[j] in multiset(s[1..]);
        var k :| 0 <= k < |s[1..]| && s[1..][k] == rest[j];
        assert s[k + 1] == rest[j];
      }
    }
  }

  /** The canonical sorted permutation (an insertion sort). */
  function SortOps(s: seq<Op>): seq<Op>
    decreases |s|
  {
    if |s| == 0 then []
    else Insert(s[|s| - 1], SortOps(s[..|s| - 1]))
  }

  /** `SortOps` returns a permutation of its input, sorted by the
      comparator. */
  lemma {:induction false} SortOpsSorted(s: seq<Op>)
    ensures Sorted(SortOps(s))
    ensures multiset(SortOps(s)) == multiset(s)
    decreases |s|
  {
    if |s| > 0 {
      SortOpsSorted(s[..|s| - 1]);
      InsertSorted(s[|s| - 1], SortOps(s[..|s| - 1]));
      assert s == s[..|s| - 1] + [s[|s| - 1]];
    }
  }

  /** Two sorted permutations of one multiset coincide when ops sharing a
      comparator triple are the same op, so `sort` leaves nothing to the
      engine's choice among equal elements. */
  lemma {:induction false} SortedPermutationUnique(a: seq<Op>, b: seq<Op>)
    requires Sorted(a) && Sorted(b)
    requires multiset(a) == multiset(b)
    requires StampCoherent(a)
    ensures a == b
    decreases |a|
  {
    assert |b| == |multiset(b)| == |multiset(a)| == |a|;
    if |a| > 0 {
      SortedHeadsEqual(a, b);
      TailMultiset(a);
      TailMultiset(b);
      StampCoherentSubset(a, a[1..]);
      SortedPermutationUnique(a[1..], b[1..]);
      assert a == [a[0]] + a[1..] && b == [b[0]] + b[1..];
    }
  }

  lemma TailMultiset(a: seq<Op>)
    requires |a| > 0
    ensures multiset(a[1..]) == multiset(a) - multiset{a[0]}
    ensures forall x :: x in a[1..] ==> x in a
  {
    assert a == [a[0]] + a[1..];
  }

  /** The least elements of two sorted permutations share a triple, hence
      (by coherence) are the same op. */
  lemma SortedHeadsEqual(a: seq<Op>, b: seq<Op>)
    requires Sorted(a) && Sorted(b) && |a| > 0 && |b| > 0
    requires multiset(a) == multiset(b)
    requires StampCoherent(a)
    ensures a[0] == b[0]
  {
    SortedIsPairwise(a);
    SortedIsPairwise(b);
    assert a[0] in multiset(b) && b[0] in multiset(a);
    var i :| 0 <= i < |b| && b[i] == a[0];
    var j :| 0 <= j < |a| && a[j] == b[0];
    LeReflexive(StampOf(a[0]));
    LeReflexive(StampOf(b[0]));
    assert Le(StampOf(b[0]), StampOf(b[i]));
    assert Le(StampOf(a[0]), StampOf(a[j]));
    LeAntisymmetric(StampOf(a[0]), StampOf(b[0]));
    assert b[0] in a;
  }
}
