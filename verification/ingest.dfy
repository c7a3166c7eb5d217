/** The server's two ingest paths for one conversation: the batch `POST
    /sync/:convId` handler and the socket `sendOp` handler. Both append the
    ops whose op ids the log does not hold yet, sort the log in place, fold
    it into the message view and key the view by message id as the
    conversation's `cachedMessages`. Loading and saving the conversation
    document are the function's input and output. */
module Ingest {
  import opened Lamport
  import opened Operation
  import opened Sorting
  import opened MergeEngine
  import opened ClientMerge

  /** A stored conversation document: its op log and its cached view. */
  datatype Conversation = Conversation(ops: seq<Op>, cachedMessages: map<string, Entry>)

  /** A conversation that is not stored yet starts with no ops. */
  const NewConversation := Conversation([], map[])

  function Load(stored: Option<Conversation>): Conversation
  {
    stored.GetOr(NewConversation)
  }

  /** The dedupe loop of the batch handler: each incoming op whose op id is
      neither in the log nor earlier in the batch is pushed onto the log. */
  function AppendUnseen(log: seq<Op>, incoming: seq<Op>): (r: seq<Op>)
    ensures |log| <= |r| && r[..|log|] == log
    ensures forall j :: |log| <= j < |r| ==> r[j] in incoming && r[j].opId !in OpIds(log)
    ensures forall i, j :: |log| <= i < j < |r| ==> r[i].opId != r[j].opId
    ensures forall id :: id in OpIds(r) <==> id in OpIds(log) || id in OpIds(incoming)
    decreases |incoming|
  {
    if |incoming| == 0 then log
    else
      var p := incoming[..|incoming| - 1];
      var op := incoming[|incoming| - 1];
      var acc := AppendUnseen(log, p);
      assert incoming == p + [op];
      OpIdsSnoc(p, op);
      if op.opId in OpIds(acc) then acc
      else
        OpIdsSnoc(acc, op);
        OpIdsMembership(acc);
        acc + [op]
  }

  /** No op before index `k` of `ops` carries the op id of `ops[k]`. */
  predicate FirstWithId(ops: seq<Op>, k: nat)
    requires k < |ops|
  {
    forall k' :: 0 <= k' < k ==> ops[k'].opId != ops[k].opId
  }

  /** Every op `r` holds past `log` is the first op of `incoming` with its id. */
  predicate AppendedFirsts(log: seq<Op>, incoming: seq<Op>, r: seq<Op>)
  {
    forall j :: |log| <= j < |r| ==>
      exists k :: 0 <= k < |incoming| && incoming[k] == r[j] && FirstWithId(incoming, k)
  }

  /** The first op of the batch carrying an op id is the one kept. */
  lemma {:induction false} FirstOccurrenceWins(log: seq<Op>, incoming: seq<Op>)
    ensures AppendedFirsts(log, incoming, AppendUnseen(log, incoming))
    decreases |incoming|
  {
    if |incoming| > 0 {
      var p := incoming[..|incoming| - 1];
      var op := incoming[|incoming| - 1];
      var acc := AppendUnseen(log, p);
      FirstOccurrenceWins(log, p);
      assert AppendedFirsts(log, p, acc);
      var r := AppendUnseen(log, incoming);
      forall j | |log| <= j < |r|
        ensures exists k :: 0 <= k < |incoming| && incoming[k] == r[j] && FirstWithId(incoming, k)
      {
        if j < |acc| {
          assert r[j] == acc[j];
          var k :| 0 <= k < |p| && p[k] == acc[j] && FirstWithId(p, k);
          assert forall k' :: 0 <= k' <= k ==> p[k'] == incoming[k'];
          assert FirstWithId(incoming, k);
        } else {
          OpIdsMembership(p);
          forall k' | 0 <= k' < |p|
            ensures incoming[k'].opId != op.opId
          {
            assert p[k'].opId in OpIds(p);
          }
          assert FirstWithId(incoming, |incoming| - 1);
          assert incoming[|incoming| - 1] == r[j];
        }
      }
    }
  }

  /** With unique op ids in the log, the grown log keeps them unique. */
  lemma AppendKeepsIdsUnique(log: seq<Op>, incoming: seq<Op>)
    requires UniqueOpIds(log)
    ensures UniqueOpIds(AppendUnseen(log, incoming))
  {
    var r := AppendUnseen(log, incoming);
    forall i, j | 0 <= i < j < |r|
      ensures r[i].opId != r[j].opId
    {
      if j < |log| {
        assert r[i] == log[i] && r[j] == log[j];
      } else if i < |log| {
        assert r[i] == log[i];
        OpIdsMembership(log);
      }
    }
  }

  /** A batch whose op ids the log already holds appends nothing. */
  lemma {:induction false} AppendKnownIsNoop(log: seq<Op>, incoming: seq<Op>)
    requires forall op :: op in incoming ==> op.opId in OpIds(log)
    ensures AppendUnseen(log, incoming) == log
    decreases |incoming|
  {
    if |incoming| > 0 {
      var p := incoming[..|incoming| - 1];
      assert forall x :: x in p ==> x in incoming;
      AppendKnownIsNoop(log, p);
      assert incoming[|incoming| - 1] in incoming;
    }
  }

  /** `mergedMessages.reduce((acc, m) => { acc[m.id] = m; ... }, {})`. */
  function CacheOf(view: seq<Entry>): (c: map<string, Entry>)
    ensures forall id :: id in c <==> id in Ids(view)
    ensures forall id :: id in c ==> c[id] in view && c[id].id == id
    ensures (forall i, j :: 0 <= i < j < |view| ==> view[i].id != view[j].id) ==>
              forall e :: e in view ==> e.id in c && c[e.id] == e
    decreases |view|
  {
    if |view| == 0 then map[]
    else
      var p := view[..|view| - 1];
      var e := view[|view| - 1];
      assert view == p + [e];
      assert Ids(view) == Ids(p) + [e.id];
      assert forall x :: x in p ==> x in view;
      CacheOf(p)[e.id := e]
  }

  /** Caching a view with distinct ids keeps every entry under its id. */
  lemma CacheKeysView(view: seq<Entry>)
    requires forall i, j :: 0 <= i < j < |view| ==> view[i].id != view[j].id
    ensures forall id :: id in CacheOf(view) <==> id in Ids(view)
    ensures forall e :: e in view ==> e.id in CacheOf(view) && CacheOf(view)[e.id] == e
  {
  }

  /** A sorted log with the view folded from it; the socket handler sends
      it to the conversation's room as the `opsUpdate` payload. */
  datatype Broadcast = Broadcast(ops: seq<Op>, messages: seq<Entry>)

  /** The tail both handlers share: `conv.ops.sort(compare)`, then the fold. */
  function Rebuild(log: seq<Op>): (b: Broadcast)
    ensures Sorted(b.ops) && multiset(b.ops) == multiset(log)
  {
    var sorted := SortOps(log);
    SortOpsSorted(log);
    Broadcast(sorted, ApplyOpsToState(sorted))
  }

  /** The document saved after a rebuild. */
  function Saved(b: Broadcast): Conversation
  {
    Conversation(b.ops, CacheOf(b.messages))
  }

  /** The request body: `clientId` may be missing, `ops` may be missing or
      not an array (`None`). */
  datatype SyncRequest = SyncRequest(clientId: Option<string>, ops: Option<seq<Op>>)

  /** `400 { error: 'clientId required' }`, or the success body. */
  datatype SyncResponse =
    | ClientIdRequired
    | Synced(ops: seq<Op>, messages: seq<Entry>, ackedOpIds: seq<string>)

  /** `!clientId` for a string field: missing or empty. */
  predicate HasClientId(req: SyncRequest)
  {
    req.clientId.Some? && req.clientId.value != ""
  }

  function IncomingOps(req: SyncRequest): seq<Op>
  {
    req.ops.GetOr([])
  }

  /** The batch handler on the stored document (`None` when the lookup finds
      none); the first component is the document saved, if any. */
  function Sync(stored: Option<Conversation>, req: SyncRequest): (r: (Option<Conversation>, SyncResponse))
    ensures r.1.ClientIdRequired? <==> !HasClientId(req)
    ensures r.1.ClientIdRequired? ==> r.0 == stored
    ensures r.1.Synced? ==>
              && r.1.ackedOpIds == OpIds(IncomingOps(req))
              && Sorted(r.1.ops)
              && multiset(Load(stored).ops) <= multiset(r.1.ops)
              && (forall op :: op in r.1.ops ==> op in Load(stored).ops || op in IncomingOps(req))
              && (forall id :: id in OpIds(r.1.ops) <==>
                    id in OpIds(Load(stored).ops) || id in OpIds(IncomingOps(req)))
              && (UniqueOpIds(Load(stored).ops) ==> UniqueOpIds(r.1.ops))
              && r.0 == Some(Conversation(r.1.ops, CacheOf(r.1.messages)))
  {
    if !HasClientId(req) then (stored, ClientIdRequired)
    else
      var conv := Load(stored);
      var incoming := IncomingOps(req);
      var b := Rebuild(AppendUnseen(conv.ops, incoming));
      SortedLogFacts(conv.ops, incoming);
      (Some(Saved(b)), Synced(b.ops, b.messages, OpIds(incoming)))
  }

  /** What the batch handler's append-then-sort does to the log. */
  lemma SortedLogFacts(log: seq<Op>, incoming: seq<Op>)
    ensures var sorted := SortOps(AppendUnseen(log, incoming));
      && multiset(log) <= multiset(sorted)
      && (forall op :: op in sorted ==> op in log || op in incoming)
      && (forall id :: id in OpIds(sorted) <==> id in OpIds(log) || id in OpIds(incoming))
      && (UniqueOpIds(log) ==> UniqueOpIds(sorted))
  {
    var appended := AppendUnseen(log, incoming);
    var sorted := SortOps(appended);
    SortOpsSorted(appended);
    assert appended == log + appended[|log|..];
    assert multiset(log) <= multiset(appended);
    OpIdsPermutation(appended, sorted);
    if UniqueOpIds(log) {
      AppendKeepsIdsUnique(log, incoming);
      UniqueOpIdsPermutation(appended, sorted);
    }
    forall op | op in sorted
      ensures op in log || op in incoming
    {
      assert op in multiset(appended);
      var j :| 0 <= j < |appended| && appended[j] == op;
      if j < |log| {
        assert appended[..|log|][j] == op;
      }
    }
  }

  lemma OpIdsPermutation(a: seq<Op>, b: seq<Op>)
    requires multiset(a) == multiset(b)
    ensures forall id :: id in OpIds(a) <==> id in OpIds(b)
  {
    forall id | id in OpIds(a)
      ensures id in OpIds(b)
    {
      var i :| 0 <= i < |a| && OpIds(a)[i] == id;
      assert a[i] in multiset(b);
      var j :| 0 <= j < |b| && b[j] == a[i];
      assert OpIds(b)[j] == id;
    }
    forall id | id in OpIds(b)
      ensures id in OpIds(a)
    {
      var j :| 0 <= j < |b| && OpIds(b)[j] == id;
      assert b[j] in multiset(a);
      var i :| 0 <= i < |a| && a[i] == b[j];
      assert OpIds(a)[i] == id;
    }
  }

  /** The saved cache holds exactly the shown messages, each under its id. */
  lemma SyncCachesView(stored: Option<Conversation>, req: SyncRequest)
    requires HasClientId(req)
    ensures var (saved, resp) := Sync(stored, req);
      saved.Some? && resp.Synced? &&
      (forall id :: id in saved.value.cachedMessages <==> id in Ids(resp.messages)) &&
      (forall e :: e in resp.messages ==> saved.value.cachedMessages[e.id] == e)
  {
  }

  /** Re-sending a batch the log already holds keeps the op set, and when
      the stored log is sorted and coherent it keeps the log itself. */
  lemma SyncResendKeepsLog(stored: Option<Conversation>, req: SyncRequest)
    requires HasClientId(req)
    requires forall op :: op in IncomingOps(req) ==> op.opId in OpIds(Load(stored).ops)
    ensures multiset(Sync(stored, req).1.ops) == multiset(Load(stored).ops)
    ensures Sorted(Load(stored).ops) && StampCoherent(Load(stored).ops) ==>
              Sync(stored, req).1.ops == Load(stored).ops
  {
    var log := Load(stored).ops;
    AppendKnownIsNoop(log, IncomingOps(req));
    if Sorted(log) && StampCoherent(log) {
      SortOpsSorted(log);
      SortedPermutationUnique(log, SortOps(log));
    }
  }

  /** Appending only ops with new, distinct op ids keeps a coherent log
      coherent: no appended op can share a triple with another op. */
  lemma AppendUnseenCoherent(log: seq<Op>, incoming: seq<Op>)
    requires StampCoherent(log)
    ensures StampCoherent(AppendUnseen(log, incoming))
  {
    var r := AppendUnseen(log, incoming);
    OpIdsMembership(log);
    forall a, b | a in r && b in r && StampOf(a) == StampOf(b)
      ensures a == b
    {
      var i :| 0 <= i < |r| && r[i] == a;
      var j :| 0 <= j < |r| && r[j] == b;
      assert forall k :: 0 <= k < |log| ==> r[k] == log[k];
      assert i == j || (i < |log| && j < |log|);
    }
  }

  /** The server's view is the client's `applyOps` of the saved log. */
  lemma SyncViewIsClientView(stored: Option<Conversation>, req: SyncRequest)
    requires HasClientId(req)
    requires StampCoherent(Load(stored).ops)
    ensures Sync(stored, req).1.messages == ApplyOps(Sync(stored, req).1.ops)
  {
    var appended := AppendUnseen(Load(stored).ops, IncomingOps(req));
    AppendUnseenCoherent(Load(stored).ops, IncomingOps(req));
    var resp := Sync(stored, req).1;
    assert resp.ops == Rebuild(appended).ops;
    forall x | x in resp.ops
      ensures x in appended
    {
      assert x in multiset(resp.ops);
    }
    StampCoherentSubset(appended, resp.ops);
    AnySortedOrderSameView(resp.ops, resp.ops);
  }

  /** The socket handler for one op: the saved document and the broadcast. */
  function SendOp(stored: Option<Conversation>, op: Op): (r: (Conversation, Broadcast))
    ensures multiset(r.0.ops) == multiset(Load(stored).ops) +
              (if op.opId in OpIds(Load(stored).ops) then multiset{} else multiset{op})
    ensures Sorted(r.0.ops)
    ensures op.opId in OpIds(r.0.ops)
    ensures r.1.ops == r.0.ops
    ensures forall id :: id in r.0.cachedMessages <==> id in Ids(r.1.messages)
    ensures forall e :: e in r.1.messages ==> e.id in r.0.cachedMessages && r.0.cachedMessages[e.id] == e
  {
    var ops := AppendOne(Load(stored).ops, op);
    var b := Rebuild(ops);
    OpIdsPermutation(ops, b.ops);
    CacheKeysView(b.messages);
    (Saved(b), b)
  }

  /** Appending one op only when its id is new keeps a coherent log
      coherent. */
  lemma AppendOneCoherent(log: seq<Op>, op: Op)
    requires StampCoherent(log)
    ensures StampCoherent(AppendOne(log, op))
  {
    var appended := AppendOne(log, op);
    OpIdsMembership(log);
    forall a, b | a in appended && b in appended && StampOf(a) == StampOf(b)
      ensures a == b
    {
      assert (a in log && b in log) || a == b;
    }
  }

  /** The broadcast view is the client's `applyOps` of the saved log. */
  lemma SendOpViewIsClientView(stored: Option<Conversation>, op: Op)
    requires StampCoherent(Load(stored).ops)
    ensures SendOp(stored, op).1.messages == ApplyOps(SendOp(stored, op).0.ops)
  {
    var appended := AppendOne(Load(stored).ops, op);
    AppendOneCoherent(Load(stored).ops, op);
    var saved := SendOp(stored, op).0;
    forall x | x in saved.ops
      ensures x in appended
    {
      assert x in multiset(saved.ops);
    }
    StampCoherentSubset(appended, saved.ops);
    AnySortedOrderSameView(saved.ops, saved.ops);
  }

  /** A conversation not stored yet ends up holding just the op. */
  lemma SendOpToNewConversation(op: Op)
    ensures SendOp(None, op).0.ops == [op]
  {
    var r := SendOp(None, op).0.ops;
    assert multiset(r) == multiset{op};
    assert |r| == 1 && r[0] in multiset(r);
  }

  /** `if (!conv.ops.some(o => o.opId === op.opId)) conv.ops.push(op)`. */
  function AppendOne(log: seq<Op>, op: Op): (r: seq<Op>)
    ensures op.opId in OpIds(log) ==> r == log
    ensures op.opId !in OpIds(log) ==> r == log + [op]
    ensures forall id :: id in OpIds(r) <==> id in OpIds(log) || id == op.opId
  {
    OpIdsSnoc(log, op);
    if op.opId in OpIds(log) then log else log + [op]
  }

  /** Re-sending an op whose id the sorted, coherent log holds leaves the
      log as it was. */
  lemma ResendIsNoop(stored: Option<Conversation>, op: Op)
    requires op.opId in OpIds(Load(stored).ops)
    requires Sorted(Load(stored).ops) && StampCoherent(Load(stored).ops)
    ensures SendOp(stored, op).0.ops == Load(stored).ops
  {
    var log := Load(stored).ops;
    SortOpsSorted(log);
    SortedPermutationUnique(log, SortOps(log));
  }

  /** The socket path is the batch path for a one-op batch from any client:
      both save the same document. */
  lemma SendOpAgreesWithSync(stored: Option<Conversation>, op: Op, clientId: string)
    requires clientId != ""
    ensures Sync(stored, SyncRequest(Some(clientId), Some([op]))).0 == Some(SendOp(stored, op).0)
  {
    BatchOfOne(Load(stored).ops, op);
  }

  lemma BatchOfOne(log: seq<Op>, op: Op)
    ensures AppendUnseen(log, [op]) == AppendOne(log, op)
  {
    assert [op][..0] == [];
  }
}
