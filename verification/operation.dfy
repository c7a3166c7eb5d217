/** The operation record of the conversation schema. */
module Operation {
  import opened Lamport

  datatype Option<T> = None | Some(value: T)
  {
    function GetOr(default: T): T
    {
      match this
      case Some(v) => v
      case None => default
    }
  }

  /** The schema's `create | edit | delete` enum. */
  datatype OpType = Create | Edit | Delete

  /** An absent `content` is modelled as the empty string: the code only
      reads it through `||`, where both are falsy. */
  datatype Op = Op(opId: string, kind: OpType, messageId: string, content: string,
                   clientId: string, lamport: int)

  function StampOf(op: Op): Stamp
  {
    Stamp(op.lamport, op.clientId, op.opId)
  }

  function OpIds(ops: seq<Op>): seq<string>
  {
    seq(|ops|, i requires 0 <= i < |ops| => ops[i].opId)
  }

  /** `id` is the op id of some op in `ops`, and each op's id is listed. */
  lemma OpIdsMembership(ops: seq<Op>)
    ensures forall i :: 0 <= i < |ops| ==> ops[i].opId in OpIds(ops)
    ensures forall id :: id in OpIds(ops) ==> exists i :: 0 <= i < |ops| && ops[i].opId == id
  {
    forall i | 0 <= i < |ops|
      ensures ops[i].opId in OpIds(ops)
    {
      assert OpIds(ops)[i] == ops[i].opId;
    }
  }

  lemma OpIdsSnoc(ops: seq<Op>, x: Op)
    ensures OpIds(ops + [x]) == OpIds(ops) + [x.opId]
  {
  }

  predicate UniqueOpIds(ops: seq<Op>)
  {
    forall i, j :: 0 <= i < j < |ops| ==> ops[i].opId != ops[j].opId
  }

  /** Ops sharing an op id are the same op (ids are never reused). */
  predicate IdCoherent(ops: seq<Op>)
  {
    forall a, b :: a in ops && b in ops && a.opId == b.opId ==> a == b
  }

  /** Ops sharing a whole comparator triple are the same op. */
  predicate StampCoherent(ops: seq<Op>)
  {
    forall a, b :: a in ops && b in ops && StampOf(a) == StampOf(b) ==> a == b
  }

  lemma UniqueIdsAreIdCoherent(ops: seq<Op>)
    requires UniqueOpIds(ops)
    ensures IdCoherent(ops)
  {
    forall a, b | a in ops && b in ops && a.opId == b.opId
      ensures a == b
    {
      var i :| 0 <= i < |ops| && ops[i] == a;
      var j :| 0 <= j < |ops| && ops[j] == b;
      assert i == j;
    }
  }

  lemma {:induction false} UniqueCountAtMostOne(a: seq<Op>, v: Op)
    requires UniqueOpIds(a)
    ensures multiset(a)[v] <= 1
    decreases |a|
  {
    if |a| > 0 {
      var p := a[..|a| - 1];
      assert a == p + [a[|a| - 1]];
      UniqueCountAtMostOne(p, v);
      if a[|a| - 1] == v {
        forall i | 0 <= i < |p|
          ensures p[i] != v
        {
          assert a[i].opId != a[|a| - 1].opId;
        }
      }
    }
  }

  lemma TwoPositionsCountTwice(b: seq<Op>, i: nat, j: nat)
    requires i < j < |b| && b[i] == b[j]
    ensures multiset(b)[b[i]] >= 2
  {
    assert b == b[..i] + [b[i]] + b[i + 1..j] + [b[j]] + b[j + 1..];
  }

  /** Unique op ids survive reordering. */
  lemma UniqueOpIdsPermutation(a: seq<Op>, b: seq<Op>)
    requires UniqueOpIds(a) && multiset(a) == multiset(b)
    ensures UniqueOpIds(b)
  {
    UniqueIdsAreIdCoherent(a);
    forall i, j | 0 <= i < j < |b|
      ensures b[i].opId != b[j].opId
    {
      if b[i].opId == b[j].opId {
        assert b[i] in multiset(a) && b[j] in multiset(a);
        assert b[i] == b[j];
        TwoPositionsCountTwice(b, i, j);
        UniqueCountAtMostOne(a, b[i]);
        assert false;
      }
    }
  }

  lemma IdCoherentIsStampCoherent(ops: seq<Op>)
    requires IdCoherent(ops)
    ensures StampCoherent(ops)
  {
  }

  lemma StampCoherentSubset(ops: seq<Op>, sub: seq<Op>)
    requires StampCoherent(ops)
    requires forall x :: x in sub ==> x in ops
    ensures StampCoherent(sub)
  {
  }
}
