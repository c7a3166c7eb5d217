/** JavaScript's relational `<` on two strings: lexicographic on characters,
    a proper prefix ordered before its extensions. Dafny's own `<` on strings
    is the proper-prefix relation, so the order is defined here. */
module Lex {

  predicate LexLess(a: string, b: string)
    decreases |a|
  {
    if |a| == 0 then |b| > 0
    else if |b| == 0 then false
    else if a[0] != b[0] then a[0] < b[0]
    else LexLess(a[1..], b[1..])
  }

  lemma {:induction false} LexIrreflexive(a: string)
    ensures !LexLess(a, a)
    decreases |a|
  {
    if |a| > 0 {
      LexIrreflexive(a[1..]);
    }
  }

  lemma {:induction false} LexAsymmetric(a: string, b: string)
    ensures LexLess(a, b) ==> !LexLess(b, a)
    decreases |a|
  {
    if |a| > 0 && |b| > 0 && a[0] == b[0] {
      LexAsymmetric(a[1..], b[1..]);
    }
  }

  lemma {:induction false} LexTransitive(a: string, b: string, c: string)
    requires LexLess(a, b) && LexLess(b, c)
    ensures LexLess(a, c)
    decreases |a|
  {
    if |a| > 0 && a[0] == b[0] && b[0] == c[0] {
      LexTransitive(a[1..], b[1..], c[1..]);
    }
  }

  lemma {:induction false} LexTotal(a: string, b: string)
    ensures a == b || LexLess(a, b) || LexLess(b, a)
    decreases |a|
  {
    if |a| > 0 && |b| > 0 && a[0] == b[0] {
      LexTotal(a[1..], b[1..]);
      if a[1..] == b[1..] {
        assert a == [a[0]] + a[1..] && b == [b[0]] + b[1..];
      }
    }
  }
}

/** The deterministic comparator shared by the server and every client:
    Lamport value first, then the client id, then the op id. */
module Lamport {
  import opened Lex

  /** The triple an operation is ranked by. */
  datatype Stamp = Stamp(lamport: int, clientId: string, opId: string)

  /** `compare(a, b)`: negative, zero or positive. On differing Lamport values
      it is their difference, not just its sign. */
  function Compare(a: Stamp, b: Stamp): (r: int)
    ensures a.lamport < b.lamport ==> r < 0
    ensures b.lamport < a.lamport ==> r > 0
    ensures a.lamport == b.lamport ==> -1 <= r <= 1
  {
    if a.lamport != b.lamport then a.lamport - b.lamport
    else if a.clientId != b.clientId then
      (if LexLess(a.clientId, b.clientId) then -1
       else if LexLess(b.clientId, a.clientId) then 1
       else 0)
    else if a.opId != b.opId then (if LexLess(a.opId, b.opId) then -1 else 1)
    else 0
  }

  function Sign(x: int): int
  {
    if x < 0 then -1 else if x > 0 then 1 else 0
  }

  /** `a` orders no later than `b`. */
  predicate Le(a: Stamp, b: Stamp)
  {
    Compare(a, b) <= 0
  }

  /** Zero exactly on equal triples; in particular `compare(a, a) == 0`. */
  lemma CompareZeroIff(a: Stamp, b: Stamp)
    ensures Compare(a, b) == 0 <==> a == b
    ensures Compare(a, a) == 0
  {
    LexTotal(a.clientId, b.clientId);
  }

  lemma CompareAntisymmetric(a: Stamp, b: Stamp)
    ensures Sign(Compare(a, b)) == -Sign(Compare(b, a))
  {
    LexTotal(a.clientId, b.clientId);
    LexAsymmetric(a.clientId, b.clientId);
    LexAsymmetric(a.opId, b.opId);
    LexTotal(a.opId, b.opId);
  }

  lemma CompareTransitive(a: Stamp, b: Stamp, c: Stamp)
    requires Compare(a, b) < 0 && Compare(b, c) < 0
    ensures Compare(a, c) < 0
  {
    LexTotal(a.clientId, b.clientId);
    LexTotal(b.clientId, c.clientId);
    LexTotal(a.opId, b.opId);
    LexTotal(b.opId, c.opId);
    if a.lamport == b.lamport == c.lamport {
      if a.clientId != b.clientId && b.clientId != c.clientId {
        LexTransitive(a.clientId, b.clientId, c.clientId);
        LexIrreflexive(a.clientId);
        LexAsymmetric(a.clientId, c.clientId);
      } else if a.clientId == b.clientId == c.clientId {
        LexTransitive(a.opId, b.opId, c.opId);
        LexIrreflexive(a.opId);
      }
    }
  }

  /** A strictly smaller Lamport value orders first, whatever the ids. */
  lemma LowerLamportFirst(a: Stamp, b: Stamp)
    requires a.lamport < b.lamport
    ensures Compare(a, b) < 0 && Compare(b, a) > 0
  {
  }

  /** On equal Lamport values, differing client ids decide by string order,
      and the op ids play no part. */
  lemma ClientIdBreaksTies(a: Stamp, b: Stamp, x: string, y: string)
    requires a.lamport == b.lamport && a.clientId != b.clientId
    ensures Compare(a, b) < 0 <==> LexLess(a.clientId, b.clientId)
    ensures Compare(a, b) > 0 <==> LexLess(b.clientId, a.clientId)
    ensures Compare(a, b) != 0
    ensures Compare(a, b) == Compare(a.(opId := x), b.(opId := y))
  {
    LexTotal(a.clientId, b.clientId);
    LexAsymmetric(a.clientId, b.clientId);
  }

  /** With equal Lamport values and client ids, the op ids decide. */
  lemma OpIdBreaksTies(a: Stamp, b: Stamp)
    requires a.lamport == b.lamport && a.clientId == b.clientId && a.opId != b.opId
    ensures Compare(a, b) < 0 <==> LexLess(a.opId, b.opId)
    ensures Compare(a, b) > 0 <==> LexLess(b.opId, a.opId)
  {
    LexTotal(a.opId, b.opId);
    LexAsymmetric(a.opId, b.opId);
  }

  // `Le` as a total order on stamps.

  lemma LeReflexive(a: Stamp)
    ensures Le(a, a)
  {
    CompareZeroIff(a, a);
  }

  lemma LeTotal(a: Stamp, b: Stamp)
    ensures Le(a, b) || Le(b, a)
    ensures !Le(a, b) ==> Compare(b, a) < 0
  {
    CompareAntisymmetric(a, b);
  }

  lemma LeAntisymmetric(a: Stamp, b: Stamp)
    requires Le(a, b) && Le(b, a)
    ensures a == b
  {
    CompareAntisymmetric(a, b);
    CompareZeroIff(a, b);
  }

  lemma LeTransitive(a: Stamp, b: Stamp, c: Stamp)
    requires Le(a, b) && Le(b, c)
    ensures Le(a, c)
  {
    CompareZeroIff(a, b);
    CompareZeroIff(b, c);
    if Compare(a, b) < 0 && Compare(b, c) < 0 {
      CompareTransitive(a, b, c);
    }
  }

  /** `compare(x, m) >= 0` is the same as `m` ordering no later than `x`. */
  lemma NotBeforeIsLe(x: Stamp, m: Stamp)
    ensures Compare(x, m) >= 0 <==> Le(m, x)
  {
    CompareAntisymmetric(x, m);
  }
}
