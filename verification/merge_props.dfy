/** What the fold promises about each message, for any input order: its
    triple is a running maximum, and a winning `create` or `delete` decides
    the message. A winning `edit` does not (see the two quirk lemmas). */
module MergeProperties {
  import opened Lamport
  import opened Operation
  import opened MergeEngine

  /** `s` is the greatest of the initial triple and the triples of the ops
      on message `mid`, and is one of them. */
  ghost predicate IsMaxStamp(ops: seq<Op>, mid: string, s: Stamp)
  {
    && Le(InitialStamp, s)
    && (forall op :: op in ops && op.messageId == mid ==> Le(StampOf(op), s))
    && (s == InitialStamp || exists op :: op in ops && op.messageId == mid && StampOf(op) == s)
  }

  /** `w` is a comparator-maximal op among the ops on its message. */
  ghost predicate IsWinner(ops: seq<Op>, w: Op)
  {
    w in ops && forall op :: op in ops && op.messageId == w.messageId ==> Le(StampOf(op), StampOf(w))
  }

  /** The message ids of a list are exactly those its ops target. */
  lemma {:induction false} MessageIdsCover(ops: seq<Op>)
    ensures forall op :: op in ops ==> op.messageId in MessageIds(ops)
    ensures forall mid :: mid in MessageIds(ops) ==>
              exists i :: 0 <= i < |ops| && ops[i].messageId == mid
    decreases |ops|
  {
    if |ops| > 0 {
      var p := ops[..|ops| - 1];
      var x := ops[|ops| - 1];
      MessageIdsCover(p);
      assert ops == p + [x];
      forall mid | mid in MessageIds(ops)
        ensures exists i :: 0 <= i < |ops| && ops[i].messageId == mid
      {
        if mid in MessageIds(p) {
          var i :| 0 <= i < |p| && p[i].messageId == mid;
          assert ops[i] == p[i];
        } else {
          assert ops[|ops| - 1].messageId == mid;
        }
      }
    }
  }

  lemma FoldSnoc(st: Messages, p: seq<Op>, x: Op)
    ensures FoldFrom(st, p + [x]) == Step(FoldFrom(st, p), x)
  {
    assert (p + [x])[..|p|] == p;
  }

  lemma {:induction false} FoldConcat(st: Messages, a: seq<Op>, b: seq<Op>)
    ensures FoldFrom(st, a + b) == FoldFrom(FoldFrom(st, a), b)
    decreases |b|
  {
    if |b| == 0 {
      assert a + b == a;
    } else {
      var b' := b[..|b| - 1];
      assert (a + b)[..|a + b| - 1] == a + b';
      assert (a + b)[|a + b| - 1] == b[|b| - 1];
      FoldConcat(st, a, b');
    }
  }

  lemma MaxStampOtherMessage(p: seq<Op>, x: Op, mid: string, s: Stamp)
    requires IsMaxStamp(p, mid, s) && x.messageId != mid
    ensures IsMaxStamp(p + [x], mid, s)
  {
    forall op | op in p + [x] && op.messageId == mid
      ensures op in p
    {
    }
    if s != InitialStamp {
      var op :| op in p && op.messageId == mid && StampOf(op) == s;
      assert op in p + [x];
    }
  }

  lemma MaxStampSameMessage(p: seq<Op>, x: Op, m: Entry)
    requires IsMaxStamp(p, x.messageId, Meta(m))
    ensures IsMaxStamp(p + [x], x.messageId, Meta(ApplyToEntry(m, x)))
  {
    var s := Meta(m);
    var sx := StampOf(x);
    var mid := x.messageId;
    NotBeforeIsLe(sx, s);
    if Compare(sx, s) >= 0 {
      LeTransitive(InitialStamp, s, sx);
      forall op | op in p + [x] && op.messageId == mid
        ensures Le(StampOf(op), sx)
      {
        if op in p {
          LeTransitive(StampOf(op), s, sx);
        } else {
          LeReflexive(sx);
        }
      }
      assert x in p + [x];
    } else {
      LeTotal(sx, s);
      if s != InitialStamp {
        var op :| op in p && op.messageId == mid && StampOf(op) == s;
        assert op in p + [x];
      }
    }
  }

  /** The loop keeps, per message, the running maximum of the triples seen:
      whatever the order of `ops`, a message's triple is the greatest of
      `(-1, '', '')` and its ops' triples. */
  lemma {:induction false} FoldKeepsMaxStamp(ops: seq<Op>)
    ensures forall mid :: mid in Fold(ops).byId ==> IsMaxStamp(ops, mid, Meta(Fold(ops).byId[mid]))
    decreases |ops|
  {
    if |ops| > 0 {
      var p := ops[..|ops| - 1];
      var x := ops[|ops| - 1];
      assert ops == p + [x];
      FoldKeepsMaxStamp(p);
      var st := Fold(p);
      assert Fold(ops) == Step(st, x);
      forall mid | mid in Fold(ops).byId
        ensures IsMaxStamp(ops, mid, Meta(Fold(ops).byId[mid]))
      {
        if mid != x.messageId {
          MaxStampOtherMessage(p, x, mid, Meta(st.byId[mid]));
        } else {
          if mid !in st.byId {
            LeReflexive(InitialStamp);
            MessageIdsCover(p);
          }
          MaxStampSameMessage(p, x, EntryFor(st, mid));
        }
      }
    }
  }

  /** With non-negative Lamport values, a message's final
      `(lastLamport, lastClientId, lastOpId)` is the comparator-maximum of
      the triples of its ops, in whatever order they were folded. */
  lemma WinningStampIsMax(ops: seq<Op>, mid: string)
    requires forall op :: op in ops ==> op.lamport >= 0
    requires mid in MessageIds(ops)
    ensures mid in Fold(ops).byId
    ensures forall op :: op in ops && op.messageId == mid ==> Le(StampOf(op), Meta(Fold(ops).byId[mid]))
    ensures exists w :: w in ops && w.messageId == mid && StampOf(w) == Meta(Fold(ops).byId[mid])
  {
    FoldKeepsMaxStamp(ops);
    var i :| 0 <= i < |ops| && ops[i].messageId == mid;
    assert ops[i] in ops;
    var s := Meta(Fold(ops).byId[mid]);
    assert IsMaxStamp(ops, mid, s);
    LowerLamportFirst(InitialStamp, StampOf(ops[i]));
    assert s != InitialStamp;
  }

  /** A superset of ops never lowers a message's triple. */
  lemma MaxStampMonotone(xs: seq<Op>, ys: seq<Op>, mid: string)
    requires forall op :: op in xs ==> op in ys
    requires mid in Fold(xs).byId
    ensures mid in Fold(ys).byId
    ensures Le(Meta(Fold(xs).byId[mid]), Meta(Fold(ys).byId[mid]))
  {
    FoldKeepsMaxStamp(xs);
    FoldKeepsMaxStamp(ys);
    MessageIdsCover(xs);
    MessageIdsCover(ys);
    var i :| 0 <= i < |xs| && xs[i].messageId == mid;
    assert xs[i] in ys;
    var j :| 0 <= j < |ys| && ys[j] == xs[i];
    assert mid in MessageIds(ys);
    var sx := Meta(Fold(xs).byId[mid]);
    if sx != InitialStamp {
      var op :| op in xs && op.messageId == mid && StampOf(op) == sx;
      assert op in ys;
    }
  }

  /** What a decided winner leaves in its message's entry. */
  predicate Decided(st: Messages, w: Op)
  {
    && w.messageId in st.byId
    && Meta(st.byId[w.messageId]) == StampOf(w)
    && (w.kind == Delete ==> st.byId[w.messageId].deleted)
    && (w.kind == Create ==> !st.byId[w.messageId].deleted && st.byId[w.messageId].content == w.content)
    && (w.kind == Edit && w.content != "" ==> st.byId[w.messageId].content == w.content)
  }

  /** Once the maximal op of a message has been folded, only copies of it
      can apply after it, so a winning `create`, `delete` or non-empty `edit`
      decides the message in any input order. */
  lemma {:induction false} WinnerDecides(ops: seq<Op>, w: Op)
    requires IsWinner(ops, w) && w.lamport >= 0 && StampCoherent(ops)
    ensures w.messageId in Fold(ops).byId
    ensures Meta(Fold(ops).byId[w.messageId]) == StampOf(w)
    ensures w.kind == Delete ==> Fold(ops).byId[w.messageId].deleted
    ensures w.kind == Create ==>
              !Fold(ops).byId[w.messageId].deleted && Fold(ops).byId[w.messageId].content == w.content
    ensures w.kind == Edit && w.content != "" ==> Fold(ops).byId[w.messageId].content == w.content
    decreases |ops|
  {
    assert |ops| > 0;
    var p := ops[..|ops| - 1];
    var x := ops[|ops| - 1];
    assert ops == p + [x];
    FoldSnoc(Empty, p, x);
    assert x in ops;
    if w in p {
      StampCoherentSubset(ops, p);
      WinnerDecides(p, w);
      StepKeepsDecided(Fold(p), x, w);
    } else {
      PriorBelowWinner(p, w);
      StepDecides(Fold(p), w);
    }
    assert Decided(Fold(ops), w);
  }

  /** A later op that does not outrank the winner leaves it decided. */
  lemma StepKeepsDecided(st: Messages, x: Op, w: Op)
    requires Decided(st, w)
    requires x.messageId == w.messageId ==> Le(StampOf(x), StampOf(w))
    requires StampOf(x) == StampOf(w) ==> x == w
    ensures Decided(Step(st, x), w)
  {
    if x.messageId == w.messageId {
      var m := st.byId[w.messageId];
      if Compare(StampOf(x), Meta(m)) >= 0 {
        NotBeforeIsLe(StampOf(x), Meta(m));
        LeAntisymmetric(StampOf(x), StampOf(w));
      }
    }
  }

  /** The winner applies over any entry it outranks. */
  lemma StepDecides(st: Messages, w: Op)
    requires Le(Meta(EntryFor(st, w.messageId)), StampOf(w))
    ensures Decided(Step(st, w), w)
  {
    NotBeforeIsLe(StampOf(w), Meta(EntryFor(st, w.messageId)));
  }

  /** Before the winner is folded its message's triple is no greater. */
  lemma PriorBelowWinner(p: seq<Op>, w: Op)
    requires forall op :: op in p && op.messageId == w.messageId ==> Le(StampOf(op), StampOf(w))
    requires w.lamport >= 0
    ensures Le(Meta(EntryFor(Fold(p), w.messageId)), StampOf(w))
  {
    var mid := w.messageId;
    var st := Fold(p);
    FoldKeepsMaxStamp(p);
    LowerLamportFirst(InitialStamp, StampOf(w));
    if mid in st.byId && Meta(st.byId[mid]) != InitialStamp {
      var op :| op in p && op.messageId == mid && StampOf(op) == Meta(st.byId[mid]);
    }
  }

  /** Tombstone precedence: when the maximal op on a message is a `delete`,
      the message is absent from the view. */
  lemma TombstoneHides(ops: seq<Op>, w: Op)
    requires IsWinner(ops, w) && w.lamport >= 0 && StampCoherent(ops)
    requires w.kind == Delete
    ensures w.messageId !in Ids(ApplyOpsToState(ops))
  {
    WinnerDecides(ops, w);
    var i :| 0 <= i < |ops| && ops[i] == w;
    assert w.messageId in MessageIds(ops);
  }

  /** When the maximal op on a message is a `create`, the message is shown
      with that op's content. */
  lemma CreateWinnerShows(ops: seq<Op>, w: Op)
    requires IsWinner(ops, w) && w.lamport >= 0 && StampCoherent(ops)
    requires w.kind == Create
    ensures exists e :: e in ApplyOpsToState(ops) && e.id == w.messageId && e.content == w.content
  {
    WinnerDecides(ops, w);
    var v := ApplyOpsToState(ops);
    var i :| 0 <= i < |ops| && ops[i] == w;
    assert w.messageId in MessageIds(ops);
    IdsIndex(v);
    var j :| 0 <= j < |v| && Ids(v)[j] == w.messageId;
    assert v[j] in v;
  }

  /** The ops on message `mid`, in their input order. */
  function OpsOn(ops: seq<Op>, mid: string): (r: seq<Op>)
    ensures forall op :: op in r ==> op in ops && op.messageId == mid
    ensures forall op :: op in ops && op.messageId == mid ==> op in r
    decreases |ops|
  {
    if |ops| == 0 then []
    else
      var p := ops[..|ops| - 1];
      var x := ops[|ops| - 1];
      assert ops == p + [x];
      OpsOn(p, mid) + (if x.messageId == mid then [x] else [])
  }

  /** One message's entry folded on its own. */
  function FoldEntry(m: Entry, ops: seq<Op>): Entry
    decreases |ops|
  {
    if |ops| == 0 then m
    else ApplyToEntry(FoldEntry(m, ops[..|ops| - 1]), ops[|ops| - 1])
  }

  /** Messages do not interfere: a message's entry is the fold of its own
      ops, in their relative order, from `(-1, '', '')`. */
  lemma {:induction false} FoldPerMessage(ops: seq<Op>, mid: string)
    requires mid in MessageIds(ops)
    ensures Fold(ops).byId[mid] == FoldEntry(Fresh(mid), OpsOn(ops, mid))
    decreases |ops|
  {
    var p := ops[..|ops| - 1];
    var x := ops[|ops| - 1];
    assert ops == p + [x];
    assert Fold(ops) == Step(Fold(p), x);
    var on := OpsOn(p, mid);
    if mid in MessageIds(p) {
      FoldPerMessage(p, mid);
    } else {
      OpsOnAbsent(p, mid);
    }
    if x.messageId == mid {
      assert OpsOn(ops, mid) == on + [x];
      assert (on + [x])[..|on|] == on;
    } else {
      assert OpsOn(ops, mid) == on;
    }
  }

  lemma {:induction false} OpsOnAbsent(ops: seq<Op>, mid: string)
    requires mid !in MessageIds(ops)
    ensures OpsOn(ops, mid) == []
    decreases |ops|
  {
    if |ops| > 0 {
      var p := ops[..|ops| - 1];
      assert ops == p + [ops[|ops| - 1]];
      OpsOnAbsent(p, mid);
    }
  }

  lemma FoldEntrySnoc(m: Entry, p: seq<Op>, x: Op)
    ensures FoldEntry(m, p + [x]) == ApplyToEntry(FoldEntry(m, p), x)
  {
    assert (p + [x])[..|p|] == p;
  }

  /** Ops that all target one message leave that message alone in the
      order. */
  lemma {:induction false} SingleMessageOrder(ops: seq<Op>, mid: string)
    requires |ops| > 0 && forall op :: op in ops ==> op.messageId == mid
    ensures Fold(ops).order == [mid]
    decreases |ops|
  {
    var p := ops[..|ops| - 1];
    var x := ops[|ops| - 1];
    assert ops == p + [x];
    assert x in ops;
    FoldSnoc(Empty, p, x);
    if |p| > 0 {
      assert forall op :: op in p ==> op in ops;
      SingleMessageOrder(p, mid);
      assert p[0] in p;
      MessageIdsCover(p);
    } else {
      assert Fold(p) == Empty;
    }
  }

  /** A list whose ops all target one message shows that message's entry
      unless it ends up deleted, and nothing else. */
  lemma SingleMessageView(ops: seq<Op>, mid: string)
    requires |ops| > 0 && forall op :: op in ops ==> op.messageId == mid
    ensures ApplyOpsToState(ops) ==
              (var e := FoldEntry(Fresh(mid), ops); if e.deleted then [] else [e])
  {
    SingleMessageOrder(ops, mid);
    assert ops[0] in ops;
    assert mid in MessageIds(ops);
    FoldPerMessage(ops, mid);
    OpsOnAll(ops, mid);
    FoldWellFormed(Empty, ops);
    var st := Fold(ops);
    assert ApplyOpsToState(ops) == Visible(st.byId, st.order);
    VisibleOne(st.byId, mid);
  }

  lemma VisibleOne(byId: map<string, Entry>, mid: string)
    requires mid in byId
    ensures Visible(byId, [mid]) == if byId[mid].deleted then [] else [byId[mid]]
  {
    assert [mid][1..] == [];
  }

  lemma {:induction false} OpsOnAll(ops: seq<Op>, mid: string)
    requires forall op :: op in ops ==> op.messageId == mid
    ensures OpsOn(ops, mid) == ops
    decreases |ops|
  {
    if |ops| > 0 {
      var p := ops[..|ops| - 1];
      assert ops == p + [ops[|ops| - 1]];
      forall op | op in p
        ensures op.messageId == mid
      {
        assert op in ops;
      }
      OpsOnAll(p, mid);
    }
  }

  /** Folding the same op twice in a row is folding it once. */
  lemma StepIdempotent(st: Messages, x: Op)
    ensures Step(Step(st, x), x) == Step(st, x)
  {
    var st1 := Step(st, x);
    var mid := x.messageId;
    var e0 := EntryFor(st, mid);
    var e1 := st1.byId[mid];
    CompareZeroIff(StampOf(x), StampOf(x));
    assert ApplyToEntry(e1, x) == e1;
    assert st1.byId[mid := e1] == st1.byId;
  }
}

/** Three ops on message "m" by client "A" that show where the code departs
    from "the maximal op alone decides the message". */
module MergeQuirks {
  import opened Lamport
  import opened Operation
  import opened MergeEngine
  import opened MergeProperties

  const CreateHi := Op("1", Create, "m", "hi", "A", 1)
  const DeleteIt := Op("2", Delete, "m", "", "A", 2)
  const EditBang := Op("3", Edit, "m", "hi!", "A", 3)
  const EditEmpty := Op("3", Edit, "m", "", "A", 3)

  /** An `edit` that beats a `delete` does not clear `deleted`: the edit is
      the message's maximal op, yet the message stays hidden. */
  lemma EditAfterDeleteStaysHidden()
    ensures IsWinner([CreateHi, DeleteIt, EditBang], EditBang)
    ensures ApplyOpsToState([CreateHi, DeleteIt, EditBang]) == []
  {
    EditBangWins();
    var ops := [CreateHi, DeleteIt, EditBang];
    SingleMessageView(ops, "m");
    var e2 := FoldEntryThree(CreateHi, DeleteIt, EditBang);
    assert e2.deleted && e2.lastLamport == 2;
  }

  /** Returns the entry after the first two ops. */
  lemma FoldEntryThree(a: Op, b: Op, c: Op) returns (e2: Entry)
    ensures e2 == ApplyToEntry(ApplyToEntry(Fresh("m"), a), b)
    ensures FoldEntry(Fresh("m"), [a, b, c]) == ApplyToEntry(e2, c)
  {
    FoldEntrySnoc(Fresh("m"), [], a);
    FoldEntrySnoc(Fresh("m"), [a], b);
    FoldEntrySnoc(Fresh("m"), [a, b], c);
    assert [] + [a] == [a] && [a] + [b] == [a, b] && [a, b] + [c] == [a, b, c];
    e2 := ApplyToEntry(ApplyToEntry(Fresh("m"), a), b);
  }

  lemma EditBangWins()
    ensures IsWinner([CreateHi, DeleteIt, EditBang], EditBang)
  {
    var ops := [CreateHi, DeleteIt, EditBang];
    forall op | op in ops && op.messageId == "m"
      ensures Le(StampOf(op), StampOf(EditBang))
    {
      CompareZeroIff(StampOf(op), StampOf(EditBang));
    }
  }

  /** An applied `edit` with empty content keeps the earlier content: the
      maximal op carries '' but the message shows "hi". */
  lemma EmptyEditKeepsContent()
    ensures IsWinner([CreateHi, EditEmpty], EditEmpty)
    ensures ApplyOpsToState([CreateHi, EditEmpty]) == [Entry("m", "hi", false, 3, Some("A"), "3")]
  {
    EditEmptyWins();
    var ops := [CreateHi, EditEmpty];
    SingleMessageView(ops, "m");
    var e1 := FoldEntryTwo(CreateHi, EditEmpty);
    assert e1.content == "hi" && e1.lastLamport == 1;
  }

  lemma EditEmptyWins()
    ensures IsWinner([CreateHi, EditEmpty], EditEmpty)
  {
    var ops := [CreateHi, EditEmpty];
    forall op | op in ops && op.messageId == "m"
      ensures Le(StampOf(op), StampOf(EditEmpty))
    {
      CompareZeroIff(StampOf(op), StampOf(EditEmpty));
    }
  }

  /** Returns the entry after the first op. */
  lemma FoldEntryTwo(a: Op, b: Op) returns (e1: Entry)
    ensures e1 == ApplyToEntry(Fresh("m"), a)
    ensures FoldEntry(Fresh("m"), [a, b]) == ApplyToEntry(e1, b)
  {
    FoldEntrySnoc(Fresh("m"), [], a);
    FoldEntrySnoc(Fresh("m"), [a], b);
    assert [] + [a] == [a] && [a] + [b] == [a, b];
    e1 := ApplyToEntry(Fresh("m"), a);
  }

  /** Because of the quirk above, the fold depends on input order when its
      input is not sorted: the same three ops, fed edit-first, show the
      message. The callers sort before folding. */
  lemma UnsortedInputChangesView()
    ensures ApplyOpsToState([EditBang, CreateHi, DeleteIt]) != ApplyOpsToState([CreateHi, DeleteIt, EditBang])
  {
    var ops := [EditBang, CreateHi, DeleteIt];
    SingleMessageView(ops, "m");
    var e2 := FoldEntryThree(EditBang, CreateHi, DeleteIt);
    var e1 := ApplyToEntry(Fresh("m"), EditBang);
    assert !e1.deleted && e1.lastLamport == 3;
    assert e2 == ApplyToEntry(e1, CreateHi) == e1;
    assert ApplyToEntry(e1, DeleteIt) == e1;
    EditAfterDeleteStaysHidden();
  }
}

/** Two edits of message "m1" made concurrently at one Lamport value by
    clients "A" and "B": the comparator puts B's edit last, so its content
    is what the message carries, whatever order the ops arrive in. */
module ConcurrentEdits {
  import Lex
  import opened Lamport
  import opened Operation
  import opened MergeEngine
  import opened MergeProperties

  const CreateM1 := Op("1", Create, "m1", "hi", "A", 1)
  const EditX := Op("3", Edit, "m1", "X", "A", 2)
  const EditY := Op("4", Edit, "m1", "Y", "B", 2)

  lemma EditYWins(ops: seq<Op>)
    requires EditY in ops
    requires forall op :: op in ops ==> op == CreateM1 || op == EditX || op == EditY
    ensures IsWinner(ops, EditY) && StampCoherent(ops)
  {
    assert Lex.LexLess("A", "B");
    forall op | op in ops && op.messageId == EditY.messageId
      ensures Le(StampOf(op), StampOf(EditY))
    {
      CompareZeroIff(StampOf(op), StampOf(EditY));
    }
  }

  /** Any arrival order of any copies of the three ops, as long as B's edit
      is among them, leaves "Y" with B's triple. */
  lemma LaterClientEditWins(ops: seq<Op>)
    requires EditY in ops
    requires forall op :: op in ops ==> op == CreateM1 || op == EditX || op == EditY
    ensures "m1" in Fold(ops).byId
    ensures Fold(ops).byId["m1"].content == "Y"
    ensures Meta(Fold(ops).byId["m1"]) == Stamp(2, "B", "4")
  {
    EditYWins(ops);
    WinnerDecides(ops, EditY);
  }
}
