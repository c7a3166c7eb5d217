/** `dedupeOps`: a JavaScript `Map` keyed by op id, filled list after list.
    A key keeps the position of its first insertion and the value of its
    last `set`; the result is the map's values in key order. */
module Dedupe {
  import opened Operation

  datatype OpMap = OpMap(keys: seq<string>, vals: map<string, Op>)

  const NoOps := OpMap([], map[])

  /** The shape a `Map` keyed by op id always has. */
  ghost predicate MapInv(m: OpMap)
  {
    && (forall i, j :: 0 <= i < j < |m.keys| ==> m.keys[i] != m.keys[j])
    && (forall k :: k in m.vals <==> k in m.keys)
    && (forall k :: k in m.vals ==> m.vals[k].opId == k)
  }

  /** `map.set(o.opId, o)`. */
  function Put(m: OpMap, o: Op): (r: OpMap)
    ensures MapInv(m) ==> MapInv(r)
    ensures r.vals == m.vals[o.opId := o]
    ensures o.opId in m.vals ==> r.keys == m.keys
    ensures o.opId !in m.vals ==> r.keys == m.keys + [o.opId]
  {
    OpMap(if o.opId in m.vals then m.keys else m.keys + [o.opId], m.vals[o.opId := o])
  }

  /** No op after index `i` carries the op id of `ops[i]`. */
  predicate LastWithId(ops: seq<Op>, i: nat)
    requires i < |ops|
  {
    forall i' :: i < i' < |ops| ==> ops[i'].opId != ops[i].opId
  }

  /** `o` is the last op of `ops` with its op id. */
  predicate IsLastOf(ops: seq<Op>, o: Op)
  {
    exists i :: 0 <= i < |ops| && ops[i] == o && LastWithId(ops, i)
  }

  /** What filling `m` with `ops` gives: the keys of `m` and the ops' ids,
      the old value where no op touched the key, and the last op with the
      key otherwise. */
  ghost predicate Filled(m: OpMap, ops: seq<Op>, r: OpMap)
  {
    && (MapInv(m) ==> MapInv(r))
    && (forall k :: k in r.vals <==> k in m.vals || k in OpIds(ops))
    && (forall k :: k in m.vals && k !in OpIds(ops) ==> r.vals[k] == m.vals[k])
    && (forall k :: k in OpIds(ops) ==> r.vals[k].opId == k && IsLastOf(ops, r.vals[k]))
  }

  /** The inner loop `for (const o of lst) map.set(o.opId, o)`. */
  function PutAll(m: OpMap, ops: seq<Op>): OpMap
    decreases |ops|
  {
    if |ops| == 0 then m
    else Put(PutAll(m, ops[..|ops| - 1]), ops[|ops| - 1])
  }

  lemma {:induction false} PutAllFilled(m: OpMap, ops: seq<Op>)
    ensures Filled(m, ops, PutAll(m, ops))
    decreases |ops|
  {
    if |ops| > 0 {
      PutAllFilled(m, ops[..|ops| - 1]);
      PutStep(m, ops, PutAll(m, ops[..|ops| - 1]));
    }
  }

  /** One `set` extends what the map says about the ops seen so far. */
  lemma PutStep(m: OpMap, ops: seq<Op>, acc: OpMap)
    requires |ops| > 0 && Filled(m, ops[..|ops| - 1], acc)
    ensures Filled(m, ops, Put(acc, ops[|ops| - 1]))
  {
    var p := ops[..|ops| - 1];
    var o := ops[|ops| - 1];
    assert ops == p + [o];
    OpIdsSnoc(p, o);
    PutKeys(m, p, o, acc);
    PutLast(p, o, acc);
  }

  lemma PutKeys(m: OpMap, p: seq<Op>, o: Op, acc: OpMap)
    requires forall k :: k in acc.vals <==> k in m.vals || k in OpIds(p)
    requires forall k :: k in m.vals && k !in OpIds(p) ==> acc.vals[k] == m.vals[k]
    ensures forall k :: k in Put(acc, o).vals <==> k in m.vals || k in OpIds(p) + [o.opId]
    ensures forall k :: k in m.vals && k !in OpIds(p) + [o.opId] ==> Put(acc, o).vals[k] == m.vals[k]
  {
  }

  lemma PutLast(p: seq<Op>, o: Op, acc: OpMap)
    requires forall k :: k in OpIds(p) ==> k in acc.vals && acc.vals[k].opId == k && IsLastOf(p, acc.vals[k])
    ensures forall k :: k in OpIds(p) + [o.opId] ==>
              Put(acc, o).vals[k].opId == k && IsLastOf(p + [o], Put(acc, o).vals[k])
  {
    LastStaysLast(p, o);
  }

  lemma LastStaysLast(p: seq<Op>, o: Op)
    ensures IsLastOf(p + [o], o)
    ensures forall x :: IsLastOf(p, x) && x.opId != o.opId ==> IsLastOf(p + [o], x)
  {
    var ops := p + [o];
    assert ops[|p|] == o && LastWithId(ops, |p|);
    forall x | IsLastOf(p, x) && x.opId != o.opId
      ensures IsLastOf(ops, x)
    {
      var i :| 0 <= i < |p| && p[i] == x && LastWithId(p, i);
      assert ops[i] == x;
      assert LastWithId(ops, i);
    }
  }

  /** `Array.from(map.values())`. */
  function Values(m: OpMap): seq<Op>
    requires forall i :: 0 <= i < |m.keys| ==> m.keys[i] in m.vals
  {
    seq(|m.keys|, i requires 0 <= i < |m.keys| => m.vals[m.keys[i]])
  }

  /** The whole `dedupeOps` over the lists' concatenation: op ids become
      unique, none is lost, and each id keeps its last op. */
  function Dedupe(xs: seq<Op>): (r: seq<Op>)
    ensures UniqueOpIds(r)
    ensures forall id :: id in OpIds(r) <==> id in OpIds(xs)
    ensures forall o :: o in r ==> o in xs && IsLastOf(xs, o)
  {
    var m := PutAll(NoOps, xs);
    PutAllFilled(NoOps, xs);
    ValuesFacts(m);
    LastOfIsIn(xs);
    Values(m)
  }

  lemma LastOfIsIn(xs: seq<Op>)
    ensures forall o :: IsLastOf(xs, o) ==> o in xs
  {
    forall o | IsLastOf(xs, o)
      ensures o in xs
    {
      var i :| 0 <= i < |xs| && xs[i] == o && LastWithId(xs, i);
    }
  }

  /** The values of a well-shaped map, in key order, carry the keys as
      their op ids. */
  lemma ValuesFacts(m: OpMap)
    requires MapInv(m)
    ensures UniqueOpIds(Values(m))
    ensures forall id :: id in OpIds(Values(m)) <==> id in m.vals
    ensures forall o :: o in Values(m) ==> o.opId in m.vals && m.vals[o.opId] == o
  {
    var r := Values(m);
    assert forall i :: 0 <= i < |r| ==> r[i].opId == m.keys[i];
    OpIdsMembership(r);
    forall id | id in m.vals
      ensures id in OpIds(r)
    {
      var i :| 0 <= i < |m.keys| && m.keys[i] == id;
      assert r[i].opId == id;
    }
  }

  /** `lists.flat()`: the order `dedupeOps` visits ops in. */
  function Concat(lists: seq<seq<Op>>): (r: seq<Op>)
    ensures forall o :: o in r ==> exists l :: l in lists && o in l
    ensures forall id :: id in OpIds(r) <==> exists l :: l in lists && id in OpIds(l)
    decreases |lists|
  {
    if |lists| == 0 then []
    else
      var p := lists[..|lists| - 1];
      var last := lists[|lists| - 1];
      assert lists == p + [last];
      var r := Concat(p) + last;
      assert OpIds(r) == OpIds(Concat(p)) + OpIds(last);
      r
  }

  function DedupeOps(lists: seq<seq<Op>>): (r: seq<Op>)
    ensures UniqueOpIds(r)
    ensures forall id :: id in OpIds(r) <==> exists l :: l in lists && id in OpIds(l)
    ensures forall o :: o in r ==> exists l :: l in lists && o in l
  {
    Dedupe(Concat(lists))
  }

  /** The two-list call both merge sites make. */
  lemma DedupePair(a: seq<Op>, b: seq<Op>)
    ensures DedupeOps([a, b]) == Dedupe(a + b)
  {
    ConcatPair(a, b);
  }

  lemma ConcatPair(a: seq<Op>, b: seq<Op>)
    ensures Concat([a, b]) == a + b
  {
    assert [a, b][..1] == [a];
    assert [a][..0] == [];
    assert Concat([a]) == Concat([]) + a;
    assert Concat([a, b]) == Concat([a]) + b;
  }

  /** The two-list call in terms of the two lists. */
  lemma MergePair(a: seq<Op>, b: seq<Op>)
    ensures UniqueOpIds(DedupeOps([a, b]))
    ensures forall id :: id in OpIds(DedupeOps([a, b])) <==> id in OpIds(a) || id in OpIds(b)
    ensures forall o :: o in DedupeOps([a, b]) ==> o in a || o in b
  {
    DedupePair(a, b);
    DedupeOfConcat(a, b);
  }

  /** In the two-list merge the second list's copy of an op id replaces the
      first's: the last op of `b` with an id is the one kept. */
  lemma LaterListWins(a: seq<Op>, b: seq<Op>, i: nat)
    requires i < |b| && LastWithId(b, i)
    ensures b[i] in DedupeOps([a, b])
  {
    DedupePair(a, b);
    var xs := a + b;
    var d := Dedupe(xs);
    assert xs[|a| + i] == b[i];
    OpIdsMembership(xs);
    OpIdsMembership(d);
    var k :| 0 <= k < |d| && d[k].opId == b[i].opId;
    assert d[k] in d;
    var m :| 0 <= m < |xs| && xs[m] == d[k] && LastWithId(xs, m);
    assert m == |a| + i by {
      assert forall j :: |a| <= j < |xs| ==> xs[j] == b[j - |a|];
    }
  }

  lemma DedupeOfConcat(a: seq<Op>, b: seq<Op>)
    ensures forall id :: id in OpIds(Dedupe(a + b)) <==> id in OpIds(a) || id in OpIds(b)
    ensures forall o :: o in Dedupe(a + b) ==> o in a || o in b
  {
    assert OpIds(a + b) == OpIds(a) + OpIds(b);
  }

  /** A list with unique op ids fills the map in its own order. */
  lemma {:induction false} PutAllUnique(xs: seq<Op>)
    requires UniqueOpIds(xs)
    ensures PutAll(NoOps, xs).keys == OpIds(xs)
    ensures forall i :: 0 <= i < |xs| ==>
              xs[i].opId in PutAll(NoOps, xs).vals && PutAll(NoOps, xs).vals[xs[i].opId] == xs[i]
    decreases |xs|
  {
    if |xs| > 0 {
      var p := xs[..|xs| - 1];
      assert forall i, j :: 0 <= i < j < |p| ==> p[i] == xs[i] && p[j] == xs[j];
      PutAllUnique(p);
      PutAllFilled(NoOps, p);
      PutNewKey(xs, PutAll(NoOps, p));
    }
  }

  /** Setting an op id not seen before appends it to the keys. */
  lemma PutNewKey(xs: seq<Op>, acc: OpMap)
    requires |xs| > 0 && UniqueOpIds(xs)
    requires acc.keys == OpIds(xs[..|xs| - 1])
    requires forall i :: 0 <= i < |xs| - 1 ==> xs[i].opId in acc.vals && acc.vals[xs[i].opId] == xs[i]
    requires forall k :: k in acc.vals <==> k in OpIds(xs[..|xs| - 1])
    ensures Put(acc, xs[|xs| - 1]).keys == OpIds(xs)
    ensures forall i :: 0 <= i < |xs| ==>
              xs[i].opId in Put(acc, xs[|xs| - 1]).vals && Put(acc, xs[|xs| - 1]).vals[xs[i].opId] == xs[i]
  {
    var p := xs[..|xs| - 1];
    var o := xs[|xs| - 1];
    assert xs == p + [o];
    OpIdsSnoc(p, o);
    OpIdsMembership(p);
    forall i | 0 <= i < |p|
      ensures p[i].opId != o.opId
    {
      assert xs[i] == p[i];
    }
  }

  /** Idempotence: a list with unique op ids is its own dedupe, so
      deduping twice is deduping once. */
  lemma DedupeUniqueIsIdentity(xs: seq<Op>)
    requires UniqueOpIds(xs)
    ensures Dedupe(xs) == xs
  {
    PutAllUnique(xs);
  }

  lemma DedupeIdempotent(xs: seq<Op>)
    ensures Dedupe(Dedupe(xs)) == Dedupe(xs)
  {
    DedupeUniqueIsIdentity(Dedupe(xs));
  }

  /** Under id coherence nothing is lost or invented: the result holds
      exactly the input's ops. */
  lemma DedupeKeepsOps(xs: seq<Op>)
    requires IdCoherent(xs)
    ensures forall o :: o in Dedupe(xs) <==> o in xs
  {
    var r := Dedupe(xs);
    OpIdsMembership(xs);
    OpIdsMembership(r);
    forall x | x in xs
      ensures x in r
    {
      var i :| 0 <= i < |r| && r[i].opId == x.opId;
      assert r[i] in r;
    }
  }
}

/** The client replica: its counter, op log, view and outbox, with the
    transitions `createOp`, the `opsUpdate` handler and `flushOutbox`.
    Storage reads and writes are the state itself; whether the socket is
    connected and what the HTTP call answers are inputs. */
module Replica {
  import opened Lamport
  import opened Operation
  import opened MergeEngine
  import opened MergeProperties
  import opened ClientMerge
  import opened Ingest
  import opened Dedupe

  datatype Replica = Replica(clientId: string, lamport: int, ops: seq<Op>,
                             messages: seq<Entry>, outbox: seq<Op>)

  /** The stored view is `applyOps` of the stored log. */
  predicate ViewCurrent(r: Replica)
  {
    r.messages == ApplyOps(r.ops)
  }

  /** `outbox.filter(o => !acked.has(o.opId))`. */
  function Unacked(outbox: seq<Op>, acked: seq<string>): (r: seq<Op>)
    ensures forall o :: o in r <==> o in outbox && o.opId !in acked
    ensures |r| <= |outbox|
    decreases |outbox|
  {
    if |outbox| == 0 then []
    else
      assert outbox == [outbox[0]] + outbox[1..];
      (if outbox[0].opId in acked then [] else [outbox[0]]) + Unacked(outbox[1..], acked)
  }

  /** The filter keeps order: it distributes over concatenation. */
  lemma {:induction false} UnackedConcat(a: seq<Op>, b: seq<Op>, acked: seq<string>)
    ensures Unacked(a + b, acked) == Unacked(a, acked) + Unacked(b, acked)
    decreases |a|
  {
    if |a| == 0 {
      assert a + b == b;
    } else {
      assert (a + b)[0] == a[0];
      assert (a + b)[1..] == a[1..] + b;
      UnackedConcat(a[1..], b, acked);
    }
  }


  /** With no outbox op acked the outbox stays as it was, order included. */
  lemma {:induction false} UnackedNoneOfThemAcked(outbox: seq<Op>, acked: seq<string>)
    requires forall o :: o in outbox ==> o.opId !in acked
    ensures Unacked(outbox, acked) == outbox
    decreases |outbox|
  {
    if |outbox| > 0 {
      assert outbox[0] in outbox;
      forall o | o in outbox[1..]
        ensures o.opId !in acked
      {
        assert o in outbox;
      }
      UnackedNoneOfThemAcked(outbox[1..], acked);
      assert outbox == [outbox[0]] + outbox[1..];
    }
  }

  /** With nothing acked the outbox stays as it was, order included. */
  lemma UnackedNoneAcked(outbox: seq<Op>)
    ensures Unacked(outbox, []) == outbox
  {
    UnackedNoneOfThemAcked(outbox, []);
  }

  /** `createOp(type, content, messageId)` with its `nextLamport()`: the op
      takes the next counter value, an empty message id is replaced by a
      fresh one, and the op joins the log and the outbox. The call to
      `flushOutbox` that follows is `Flush`. */
  function CreateOp(r: Replica, opId: string, kind: OpType, content: string,
                    messageId: string, freshMessageId: string): (res: (Replica, Op))
    ensures var (r', op) := res;
      && op.lamport == r.lamport + 1 && r'.lamport == op.lamport
      && op.opId == opId && op.kind == kind && op.content == content
      && op.clientId == r.clientId
      && op.messageId == (if messageId != "" then messageId else freshMessageId)
      && r'.ops == r.ops + [op] && r'.outbox == r.outbox + [op]
      && r'.clientId == r.clientId && ViewCurrent(r')
  {
    var next := r.lamport + 1;
    var op := Op(opId, kind, if messageId != "" then messageId else freshMessageId,
                 content, r.clientId, next);
    var ops := r.ops + [op];
    (Replica(r.clientId, next, ops, ApplyOps(ops), r.outbox + [op]), op)
  }

  /** The `opsUpdate` handler: merge the broadcast log into the local one.
      The counter does not move, whatever Lamport values arrive. */
  function OnOpsUpdate(r: Replica, serverOps: Option<seq<Op>>): (r': Replica)
    ensures r'.lamport == r.lamport && r'.clientId == r.clientId && r'.outbox == r.outbox
    ensures UniqueOpIds(r'.ops)
    ensures forall id :: id in OpIds(r'.ops) <==> id in OpIds(r.ops) || id in OpIds(serverOps.GetOr([]))
    ensures forall o :: o in r'.ops ==> o in r.ops || o in serverOps.GetOr([])
    ensures r'.ops == DedupeOps([r.ops, serverOps.GetOr([])])
    ensures ViewCurrent(r')
  {
    var received := serverOps.GetOr([]);
    var merged := DedupeOps([r.ops, received]);
    MergePair(r.ops, received);
    r.(ops := merged, messages := ApplyOps(merged))
  }

  /** What `fetch` followed by `res.json()` gives: a thrown error, or the
      parsed body (`ok` is false for the 400 and 500 bodies). */
  datatype HttpReply =
    | FetchFailed
    | Reply(ok: bool, ops: Option<seq<Op>>, ackedOpIds: Option<seq<string>>)

  /** What a flush sends: nothing, one `sendOp` emit per outbox op, or the
      `/sync` request. */
  datatype Sent = NothingSent | Emitted(ops: seq<Op>) | Posted(request: SyncRequest)

  /** `flushOutbox`, given whether the socket is connected and the reply the
      HTTP fallback would receive. */
  function Flush(r: Replica, socketConnected: bool, reply: HttpReply): (res: (Replica, Sent))
    ensures var (r', sent) := res;
      && r'.lamport == r.lamport && r'.clientId == r.clientId
      && (|r.outbox| == 0 ==> r' == r && sent == NothingSent)
      && (|r.outbox| > 0 && socketConnected ==> r' == r.(outbox := []) && sent == Emitted(r.outbox))
      && (|r.outbox| > 0 && !socketConnected ==>
            sent == Posted(SyncRequest(Some(r.clientId), Some(r.outbox))))
      && (!socketConnected && (reply.FetchFailed? || !reply.ok) ==> r' == r)
      && (|r.outbox| > 0 && !socketConnected && reply.Reply? && reply.ok ==>
            && r'.outbox == Unacked(r.outbox, reply.ackedOpIds.GetOr([]))
            && r'.ops == DedupeOps([r.ops, reply.ops.GetOr([])]))
      && (forall o :: o in r'.outbox ==> o in r.outbox)
      && (forall o :: o in r.outbox ==>
            o in r'.outbox || (sent.Emitted? && o in sent.ops) ||
            (reply.Reply? && o.opId in reply.ackedOpIds.GetOr([])))
      && (forall id :: id in OpIds(r.ops) ==> id in OpIds(r'.ops))
      && (ViewCurrent(r) ==> ViewCurrent(r'))
  {
    if |r.outbox| == 0 then (r, NothingSent)
    else if socketConnected then (r.(outbox := []), Emitted(r.outbox))
    else
      var sent := Posted(SyncRequest(Some(r.clientId), Some(r.outbox)));
      if reply.FetchFailed? || !reply.ok then (r, sent)
      else
        var merged := OnOpsUpdate(r, reply.ops);
        (merged.(outbox := Unacked(r.outbox, reply.ackedOpIds.GetOr([]))), sent)
  }

  /** When both logs hold an op id, the broadcast's copy is the one kept:
      the last received op with each id is in the merged log. */
  lemma ReceivedCopyWins(r: Replica, received: seq<Op>, i: nat)
    requires i < |received| && LastWithId(received, i)
    ensures received[i] in OnOpsUpdate(r, Some(received)).ops
  {
    LaterListWins(r.ops, received, i);
  }

  /** The reply body the `/sync` handler's response parses to. */
  function ReplyOf(resp: SyncResponse): (r: HttpReply)
    ensures r.Reply? && (r.ok <==> resp.Synced?)
    ensures resp.Synced? ==> r.ops == Some(resp.ops) && r.ackedOpIds == Some(resp.ackedOpIds)
    ensures resp.ClientIdRequired? ==> r.ops.None? && r.ackedOpIds.None?
  {
    match resp
    case ClientIdRequired => Reply(false, None, None)
    case Synced(ops, _, acked) => Reply(true, Some(ops), Some(acked))
  }

  /** An HTTP flush that reaches the `/sync` handler empties the outbox,
      and the replica and the saved conversation both hold every op it
      sent. */
  lemma HttpFlushDelivers(r: Replica, stored: Option<Conversation>)
    requires |r.outbox| > 0 && r.clientId != ""
    ensures var req := SyncRequest(Some(r.clientId), Some(r.outbox));
      var (saved, resp) := Sync(stored, req);
      var (r', _) := Flush(r, false, ReplyOf(resp));
      && r'.outbox == []
      && saved.Some?
      && (forall o :: o in r.outbox ==> o.opId in OpIds(r'.ops) && o.opId in OpIds(saved.value.ops))
  {
    var req := SyncRequest(Some(r.clientId), Some(r.outbox));
    var (saved, resp) := Sync(stored, req);
    assert resp.Synced? && resp.ackedOpIds == OpIds(r.outbox);
    assert ReplyOf(resp) == Reply(true, Some(resp.ops), Some(OpIds(r.outbox)));
    FullAckEmptiesOutbox(r, resp.ops);
    OpIdsMembership(r.outbox);
  }

  /** A successful reply that acks the whole outbox empties it, and the
      replica takes in every op id of the reply's log. */
  lemma FullAckEmptiesOutbox(r: Replica, serverOps: seq<Op>)
    requires |r.outbox| > 0
    ensures var r' := Flush(r, false, Reply(true, Some(serverOps), Some(OpIds(r.outbox)))).0;
      r'.outbox == [] && forall id :: id in OpIds(serverOps) ==> id in OpIds(r'.ops)
  {
    OpIdsMembership(r.outbox);
    AllAckedLeavesNothing(r.outbox, OpIds(r.outbox));
  }

  lemma AllAckedLeavesNothing(outbox: seq<Op>, acked: seq<string>)
    requires forall o :: o in outbox ==> o.opId in acked
    ensures Unacked(outbox, acked) == []
  {
    if Unacked(outbox, acked) != [] {
      assert Unacked(outbox, acked)[0] in Unacked(outbox, acked);
    }
  }

  /** A partial ack: when the reply acks exactly the ops of a prefix of the
      outbox, the rest of the outbox stays, in its order, for the next flush. */
  lemma PartialAckKeepsRest(r: Replica, serverOps: seq<Op>, sent: seq<Op>, rest: seq<Op>)
    requires r.outbox == sent + rest && |r.outbox| > 0
    requires forall o :: o in rest ==> o.opId !in OpIds(sent)
    ensures Flush(r, false, Reply(true, Some(serverOps), Some(OpIds(sent)))).0.outbox == rest
  {
    OpIdsMembership(sent);
    UnackedConcat(sent, rest, OpIds(sent));
    AllAckedLeavesNothing(sent, OpIds(sent));
    UnackedNoneOfThemAcked(rest, OpIds(sent));
  }

  /** A new op outranks every op on its message whose Lamport value the
      counter has reached, so the local change shows. */
  lemma FreshOpWins(r: Replica, opId: string, kind: OpType, content: string, messageId: string)
    requires messageId != ""
    requires forall x :: x in r.ops && x.messageId == messageId ==> x.lamport <= r.lamport
    ensures var (_, op) := CreateOp(r, opId, kind, content, messageId, "");
      IsWinner(CreateOp(r, opId, kind, content, messageId, "").0.ops, op)
  {
    var (r', op) := CreateOp(r, opId, kind, content, messageId, "");
    forall x | x in r'.ops && x.messageId == op.messageId
      ensures Le(StampOf(x), StampOf(op))
    {
      if x == op {
        LeReflexive(StampOf(op));
      } else {
        LowerLamportFirst(StampOf(x), StampOf(op));
      }
    }
  }

  /** The counter never absorbs received Lamport values: after taking in an
      op whose Lamport value is past the next tick, a new op on the same
      message does not win, and the local change is hidden by the old one. */
  lemma StaleCounterLoses(r: Replica, serverOps: seq<Op>, x: Op,
                          opId: string, kind: OpType, content: string)
    requires x in serverOps && x.messageId != "" && x.lamport > r.lamport + 1
    requires IdCoherent(r.ops + serverOps)
    ensures var r1 := OnOpsUpdate(r, Some(serverOps));
      var (r2, op) := CreateOp(r1, opId, kind, content, x.messageId, "");
      && r1.lamport == r.lamport && op.lamport == r.lamport + 1
      && x in r2.ops && x.messageId == op.messageId && Compare(StampOf(op), StampOf(x)) < 0
      && !IsWinner(r2.ops, op)
  {
    var r1 := OnOpsUpdate(r, Some(serverOps));
    var (r2, op) := CreateOp(r1, opId, kind, content, x.messageId, "");
    DedupePair(r.ops, serverOps);
    DedupeKeepsOps(r.ops + serverOps);
    assert x in r1.ops;
    LowerLamportFirst(StampOf(op), StampOf(x));
    assert x in r2.ops;
  }

  /** Replicas that take in the same broadcast log, holding only ops it
      contains, show the same view. */
  lemma BroadcastConverges(r1: Replica, r2: Replica, serverOps: seq<Op>)
    requires forall x :: x in r1.ops ==> x in serverOps
    requires forall x :: x in r2.ops ==> x in serverOps
    requires IdCoherent(serverOps)
    ensures OnOpsUpdate(r1, Some(serverOps)).messages == OnOpsUpdate(r2, Some(serverOps)).messages
  {
    HoldsBroadcast(r1, serverOps);
    HoldsBroadcast(r2, serverOps);
    var m1 := OnOpsUpdate(r1, Some(serverOps)).ops;
    var m2 := OnOpsUpdate(r2, Some(serverOps)).ops;
    IdCoherentIsStampCoherent(serverOps);
    StampCoherentSubset(serverOps, m1);
    ApplyOpsDependsOnlyOnSet(m1, m2);
  }

  /** A replica whose ops the broadcast contains ends up holding exactly
      the broadcast's ops. */
  lemma HoldsBroadcast(r: Replica, serverOps: seq<Op>)
    requires forall x :: x in r.ops ==> x in serverOps
    requires IdCoherent(serverOps)
    ensures forall x :: x in OnOpsUpdate(r, Some(serverOps)).ops <==> x in serverOps
  {
    var xs := r.ops + serverOps;
    DedupePair(r.ops, serverOps);
    assert IdCoherent(xs);
    DedupeKeepsOps(xs);
  }
}
