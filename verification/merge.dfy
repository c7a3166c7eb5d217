/** `applyOpsToState`: the fold from an operation list to the message view,
    as the route handler runs it and as the socket handler repeats it inline.
    Each message keeps the triple of the last op applied to it; an op applies
    when it orders no earlier than that triple. */
module MergeEngine {
  import opened Lamport
  import opened Operation

  /** One message as the fold keeps it: visible state plus the triple of the
      last op applied. `lastClientId` starts out as JavaScript's `null`. */
  datatype Entry = Entry(id: string, content: string, deleted: bool,
                         lastLamport: int, lastClientId: Option<string>, lastOpId: string)

  /** The fold's state: entries by message id, and the order in which the
      ids were first met (the order `Object.values` returns them in). */
  datatype Messages = Messages(byId: map<string, Entry>, order: seq<string>)

  const Empty := Messages(map[], [])

  /** The triple every message starts from: `(-1, '', '')`. */
  const InitialStamp := Stamp(-1, "", "")

  function Fresh(mid: string): (m: Entry)
    ensures m.id == mid && m.content == "" && !m.deleted && Meta(m) == InitialStamp
  {
    Entry(mid, "", false, -1, None, "")
  }

  /** `currentMeta`: the entry's triple, with a missing client id read as ''. */
  function Meta(m: Entry): Stamp
  {
    Stamp(m.lastLamport, m.lastClientId.GetOr(""), m.lastOpId)
  }

  /** One op against its message's entry. */
  function ApplyToEntry(m: Entry, op: Op): (r: Entry)
    ensures r.id == m.id
    ensures Compare(StampOf(op), Meta(m)) >= 0 ==> Meta(r) == StampOf(op)
    ensures Compare(StampOf(op), Meta(m)) < 0 ==> r == m
    ensures op.kind == Create && Compare(StampOf(op), Meta(m)) >= 0 ==>
              !r.deleted && r.content == op.content
    ensures op.kind == Delete ==> r.content == m.content
    ensures op.kind == Delete && Compare(StampOf(op), Meta(m)) >= 0 ==> r.deleted
    ensures op.kind == Edit ==> r.deleted == m.deleted
    ensures op.kind == Edit && op.content == "" ==> r.content == m.content
    ensures op.kind == Edit && op.content != "" && Compare(StampOf(op), Meta(m)) >= 0 ==>
              r.content == op.content
  {
    if Compare(StampOf(op), Meta(m)) >= 0 then
      var updated := match op.kind
        case Create => m.(content := op.content, deleted := false)
        case Edit => m.(content := if op.content != "" then op.content else m.content)
        case Delete => m.(deleted := true);
      updated.(lastLamport := op.lamport, lastClientId := Some(op.clientId), lastOpId := op.opId)
    else m
  }

  predicate WellFormed(st: Messages)
  {
    && (forall k :: k in st.byId ==> st.byId[k].id == k)
    && (forall i :: 0 <= i < |st.order| ==> st.order[i] in st.byId)
    && (forall k :: k in st.byId ==> k in st.order)
    && (forall i, j :: 0 <= i < j < |st.order| ==> st.order[i] != st.order[j])
  }

  /** The entry an op meets: the message's entry, or a fresh one. */
  function EntryFor(st: Messages, mid: string): Entry
  {
    if mid in st.byId then st.byId[mid] else Fresh(mid)
  }

  /** One iteration of the loop body. */
  function Step(st: Messages, op: Op): (r: Messages)
    ensures r.byId.Keys == st.byId.Keys + {op.messageId}
    ensures r.byId[op.messageId] == ApplyToEntry(EntryFor(st, op.messageId), op)
    ensures forall k :: k in st.byId && k != op.messageId ==> r.byId[k] == st.byId[k]
    ensures op.messageId in st.byId ==> r.order == st.order
    ensures op.messageId !in st.byId ==> r.order == st.order + [op.messageId]
  {
    var mid := op.messageId;
    var base := if mid in st.byId then st
                else Messages(st.byId[mid := Fresh(mid)], st.order + [mid]);
    Messages(base.byId[mid := ApplyToEntry(base.byId[mid], op)], base.order)
  }

  function MessageIds(ops: seq<Op>): set<string>
  {
    if |ops| == 0 then {} else MessageIds(ops[..|ops| - 1]) + {ops[|ops| - 1].messageId}
  }

  /** The loop over `ops`, from a given state. */
  function FoldFrom(st: Messages, ops: seq<Op>): (r: Messages)
    ensures r.byId.Keys == st.byId.Keys + MessageIds(ops)
    decreases |ops|
  {
    if |ops| == 0 then st
    else
      var p := ops[..|ops| - 1];
      assert MessageIds(ops) == MessageIds(p) + {ops[|ops| - 1].messageId} by {
        assert forall i :: 0 <= i < |p| ==> ops[i] == p[i];
      }
      Step(FoldFrom(st, p), ops[|ops| - 1])
  }

  function Fold(ops: seq<Op>): (r: Messages)
    ensures r.byId.Keys == MessageIds(ops)
  {
    FoldFrom(Empty, ops)
  }

  /** Each step keeps every entry under its own id, and the first-seen
      order lists each id once. */
  lemma StepWellFormed(st: Messages, op: Op)
    requires WellFormed(st)
    ensures WellFormed(Step(st, op))
  {
  }

  lemma {:induction false} FoldWellFormed(st: Messages, ops: seq<Op>)
    requires WellFormed(st)
    ensures WellFormed(FoldFrom(st, ops))
    decreases |ops|
  {
    if |ops| > 0 {
      FoldWellFormed(st, ops[..|ops| - 1]);
      StepWellFormed(FoldFrom(st, ops[..|ops| - 1]), ops[|ops| - 1]);
    }
  }

  /** The ids of a list of entries, in order. */
  function Ids(v: seq<Entry>): seq<string>
  {
    if |v| == 0 then [] else Ids(v[..|v| - 1]) + [v[|v| - 1].id]
  }

  lemma {:induction false} IdsIndex(v: seq<Entry>)
    ensures |Ids(v)| == |v|
    ensures forall j :: 0 <= j < |v| ==> Ids(v)[j] == v[j].id
    decreases |v|
  {
    if |v| > 0 {
      IdsIndex(v[..|v| - 1]);
    }
  }

  /** `Object.values(messages).filter(x => !x.deleted)`. */
  function Visible(byId: map<string, Entry>, order: seq<string>): (v: seq<Entry>)
    requires forall i :: 0 <= i < |order| ==> order[i] in byId
    ensures forall e :: e in v ==> !e.deleted
    ensures forall e :: e in v ==> exists i :: 0 <= i < |order| && e == byId[order[i]]
    ensures forall i :: 0 <= i < |order| && !byId[order[i]].deleted ==> byId[order[i]] in v
    decreases |order|
  {
    if |order| == 0 then []
    else
      var e := byId[order[0]];
      var rest := Visible(byId, order[1..]);
      assert forall i :: 1 <= i < |order| ==> order[i] == order[1..][i - 1];
      (if e.deleted then [] else [e]) + rest
  }

  lemma {:induction false} VisibleIdsDistinct(byId: map<string, Entry>, order: seq<string>)
    requires forall i :: 0 <= i < |order| ==> order[i] in byId && byId[order[i]].id == order[i]
    requires forall i, j :: 0 <= i < j < |order| ==> order[i] != order[j]
    ensures forall i, j :: 0 <= i < j < |Visible(byId, order)| ==>
              Visible(byId, order)[i].id != Visible(byId, order)[j].id
    decreases |order|
  {
    if |order| > 0 {
      var rest := Visible(byId, order[1..]);
      VisibleIdsDistinct(byId, order[1..]);
      forall e | e in rest
        ensures e.id != order[0]
      {
        var i :| 0 <= i < |order[1..]| && e == byId[order[1..][i]];
        assert order[1..][i] == order[i + 1];
      }
    }
  }

  /** A message of the state is shown exactly when its entry is not deleted,
      and what is shown is that entry. */
  lemma VisibleShowsLive(st: Messages)
    requires WellFormed(st)
    ensures forall e :: e in Visible(st.byId, st.order) ==> e.id in st.byId && e == st.byId[e.id]
    ensures forall mid :: mid in st.byId ==>
              (mid in Ids(Visible(st.byId, st.order)) <==> !st.byId[mid].deleted)
  {
    var v := Visible(st.byId, st.order);
    IdsIndex(v);
    forall e | e in v
      ensures e.id in st.byId && e == st.byId[e.id]
    {
      var i :| 0 <= i < |st.order| && e == st.byId[st.order[i]];
    }
    forall mid | mid in st.byId
      ensures mid in Ids(v) <==> !st.byId[mid].deleted
    {
      if mid in Ids(v) {
        var j :| 0 <= j < |v| && Ids(v)[j] == mid;
        assert v[j] in v;
      }
      if !st.byId[mid].deleted {
        var i :| 0 <= i < |st.order| && st.order[i] == mid;
        var j :| 0 <= j < |v| && v[j] == st.byId[mid];
        assert Ids(v)[j] == mid;
      }
    }
  }

  /** `applyOpsToState(ops)`: the visible messages, in first-seen order. */
  function ApplyOpsToState(ops: seq<Op>): (v: seq<Entry>)
    ensures forall e :: e in v ==> !e.deleted
    ensures forall i, j :: 0 <= i < j < |v| ==> v[i].id != v[j].id
    ensures forall e :: e in v ==> e.id in MessageIds(ops) && e == Fold(ops).byId[e.id]
    ensures forall mid :: mid in MessageIds(ops) ==>
              (mid in Ids(v) <==> !Fold(ops).byId[mid].deleted)
  {
    var st := Fold(ops);
    FoldWellFormed(Empty, ops);
    VisibleIdsDistinct(st.byId, st.order);
    VisibleShowsLive(st);
    Visible(st.byId, st.order)
  }
}
