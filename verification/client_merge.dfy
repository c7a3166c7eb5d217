/** The client's `applyOps`: sort a copy of the op list with the comparator,
    then run the same fold. Sorting first makes the view a function of the
    SET of ops held, which is what lets replicas converge. */
module ClientMerge {
  import opened Lamport
  import opened Operation
  import opened Sorting
  import opened MergeEngine
  import opened MergeProperties

  lemma PermutationKeepsMessageIds(a: seq<Op>, b: seq<Op>)
    requires multiset(a) == multiset(b)
    ensures MessageIds(a) == MessageIds(b)
  {
    MessageIdsCover(a);
    MessageIdsCover(b);
    forall mid | mid in MessageIds(a)
      ensures mid in MessageIds(b)
    {
      var i :| 0 <= i < |a| && a[i].messageId == mid;
      assert a[i] in multiset(b);
    }
    forall mid | mid in MessageIds(b)
      ensures mid in MessageIds(a)
    {
      var i :| 0 <= i < |b| && b[i].messageId == mid;
      assert b[i] in multiset(a);
    }
  }

  /** `applyOps(allOps)`. */
  function ApplyOps(all: seq<Op>): (v: seq<Entry>)
    ensures forall e :: e in v ==> !e.deleted
    ensures forall i, j :: 0 <= i < j < |v| ==> v[i].id != v[j].id
    ensures forall e :: e in v ==> e.id in MessageIds(all)
  {
    var sorted := SortOps(all);
    SortOpsSorted(all);
    PermutationKeepsMessageIds(sorted, all);
    ApplyOpsToState(sorted)
  }

  lemma CoherentPermutation(a: seq<Op>, b: seq<Op>)
    requires multiset(a) == multiset(b) && StampCoherent(a)
    ensures StampCoherent(b)
  {
    forall x | x in b
      ensures x in a
    {
      assert x in multiset(a);
    }
    StampCoherentSubset(a, b);
  }

  /** Any sorted permutation of the input folds to `applyOps`' result, so the
      engine's choice among equal elements does not matter, and the server's
      sort-then-fold computes the client's view of the same log. */
  lemma AnySortedOrderSameView(all: seq<Op>, s: seq<Op>)
    requires Sorted(s) && multiset(s) == multiset(all) && StampCoherent(all)
    ensures ApplyOpsToState(s) == ApplyOps(all)
  {
    CoherentPermutation(all, s);
    SortOpsSorted(all);
    SortedPermutationUnique(s, SortOps(all));
  }

  /** Order invariance: permuting the input does not change the view. */
  lemma ApplyOpsPermutationInvariant(a: seq<Op>, b: seq<Op>)
    requires multiset(a) == multiset(b) && StampCoherent(a)
    ensures ApplyOps(a) == ApplyOps(b)
  {
    SortOpsSorted(b);
    AnySortedOrderSameView(a, SortOps(b));
  }

  /** Copying the op at index `k` next to itself keeps a list sorted. */
  lemma DuplicateStaysSorted(s: seq<Op>, k: nat)
    requires Sorted(s) && k < |s|
    ensures Sorted(s[..k + 1] + s[k..])
  {
    var t := s[..k + 1] + s[k..];
    SortedIsPairwise(s);
    SortedIsPairwise(t);
    forall i | 0 <= i < |t|
      ensures t[i] == s[if i <= k then i else i - 1]
    {
      if i > k {
        assert t[i] == s[k..][i - k - 1];
      }
    }
    forall i, j | 0 <= i < j < |t|
      ensures Le(StampOf(t[i]), StampOf(t[j]))
    {
      var i' := if i <= k then i else i - 1;
      var j' := if j <= k then j else j - 1;
      if i' == j' {
        LeReflexive(StampOf(t[i]));
      }
    }
  }

  lemma DuplicateMultiset(s: seq<Op>, k: nat)
    requires k < |s|
    ensures multiset(s[..k + 1] + s[k..]) == multiset(s) + multiset{s[k]}
  {
    assert s == s[..k + 1] + s[k + 1..];
    assert s[k..] == [s[k]] + s[k + 1..];
  }

  /** Folding an op twice in a row, anywhere in the list, is folding it once. */
  lemma FoldDuplicate(a: seq<Op>, x: Op, rest: seq<Op>)
    ensures Fold(a + [x] + [x] + rest) == Fold(a + [x] + rest)
  {
    FoldConcat(Empty, a + [x] + [x], rest);
    FoldConcat(Empty, a + [x], rest);
    FoldSnoc(Empty, a + [x], x);
    FoldSnoc(Empty, a, x);
    StepIdempotent(FoldFrom(Empty, a), x);
  }

  /** Idempotence: a second copy of an op already held changes nothing. */
  lemma ApplyOpsIgnoresDuplicate(xs: seq<Op>, x: Op)
    requires x in xs && StampCoherent(xs)
    ensures ApplyOps(xs + [x]) == ApplyOps(xs)
  {
    var s := SortOps(xs);
    SortOpsSorted(xs);
    assert x in multiset(s);
    var k :| 0 <= k < |s| && s[k] == x;
    var t := s[..k + 1] + s[k..];
    DuplicateStaysSorted(s, k);
    DuplicateMultiset(s, k);
    forall y | y in xs + [x]
      ensures y in xs
    {
    }
    StampCoherentSubset(xs, xs + [x]);
    AnySortedOrderSameView(xs + [x], t);
    ViewDuplicate(s, k);
  }

  lemma ViewDuplicate(s: seq<Op>, k: nat)
    requires k < |s|
    ensures ApplyOpsToState(s[..k + 1] + s[k..]) == ApplyOpsToState(s)
  {
    var x := s[k];
    assert s == s[..k] + [x] + s[k + 1..];
    assert s[..k + 1] + s[k..] == s[..k] + [x] + [x] + s[k + 1..];
    FoldDuplicate(s[..k], x, s[k + 1..]);
  }

  /** Ops already held can be received again, in any number and order,
      without changing the view. */
  lemma {:induction false} ApplyOpsAbsorbsKnown(xs: seq<Op>, ys: seq<Op>)
    requires forall y :: y in ys ==> y in xs
    requires StampCoherent(xs)
    ensures ApplyOps(xs + ys) == ApplyOps(xs)
    decreases |ys|
  {
    if |ys| == 0 {
      assert xs + ys == xs;
    } else {
      var ys' := ys[..|ys| - 1];
      var y := ys[|ys| - 1];
      assert ys == ys' + [y];
      assert xs + ys == (xs + ys') + [y];
      forall z | z in ys'
        ensures z in xs
      {
        assert z in ys;
      }
      ApplyOpsAbsorbsKnown(xs, ys');
      forall z | z in xs + ys'
        ensures z in xs
      {
      }
      StampCoherentSubset(xs, xs + ys');
      assert y in ys;
      ApplyOpsIgnoresDuplicate(xs + ys', y);
    }
  }

  /** Convergence: two op lists holding the same ops (in any order, with any
      repetition) give the same view. */
  lemma ApplyOpsDependsOnlyOnSet(a: seq<Op>, b: seq<Op>)
    requires forall x :: x in a <==> x in b
    requires StampCoherent(a)
    ensures ApplyOps(a) == ApplyOps(b)
  {
    StampCoherentSubset(a, b);
    ApplyOpsAbsorbsKnown(a, b);
    ApplyOpsAbsorbsKnown(b, a);
    CoherentUnion(a, b);
    SwapHalves(a, b);
  }

  lemma CoherentUnion(a: seq<Op>, b: seq<Op>)
    requires forall x :: x in b ==> x in a
    requires StampCoherent(a)
    ensures StampCoherent(a + b)
  {
    forall x | x in a + b
      ensures x in a
    {
    }
    StampCoherentSubset(a, a + b);
  }

  lemma SwapHalves(a: seq<Op>, b: seq<Op>)
    requires StampCoherent(a + b)
    ensures ApplyOps(a + b) == ApplyOps(b + a)
  {
    assert multiset(a + b) == multiset(b + a);
    ApplyOpsPermutationInvariant(a + b, b + a);
  }
}
