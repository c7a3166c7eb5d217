# Offline-first chat: operation log and merge, in Dafny

The chat keeps every conversation as a log of operations (`create`, `edit`,
`delete` on a message). Each operation is stamped with a Lamport value, the
id of the client that made it and its own op id. The server and every client
compute the visible messages the same way. They sort the log with one
comparator (Lamport value, then client id, then op id). Then they fold it
into one entry per message: an op applies when it orders no earlier than the
last op applied to that message.

This project models that core:

- `lamport.dfy`: the comparator `compare`. Module `Lex` holds JavaScript's
  `<` on strings; module `Lamport` holds the comparator and its order laws.
- `operation.dfy`: the operation record of the conversation schema.
- `sorting.dfy`: `ops.sort(compare)`. The sort is specified as a sorted
  permutation. `SortOps`, an insertion sort, is one such permutation, and
  any other is equal to it once ops that share a comparator triple are the
  same op.
- `merge.dfy`: `applyOpsToState`, the fold from a sorted log to the view.
- `merge_props.dfy`: what the fold guarantees for each message, plus two
  small worked examples of the fold's quirks.
- `client_merge.dfy`: the client's `applyOps` (sort a copy, then fold) and
  its order, duplicate and set invariance.
- `ingest.dfy`: the server's batch `POST /sync/:convId` handler and its
  socket `sendOp` handler, as functions from the stored conversation to the
  saved conversation and the response or broadcast.
- `replica.dfy`: the client's `dedupeOps`, `createOp` with `nextLamport`,
  the `opsUpdate` handler and `flushOutbox`, as functions on the replica
  state (counter, log, view, outbox).

Several facts hold only when ops that share an op id (or a whole comparator
triple) are the same op. This is the `IdCoherent` and `StampCoherent`
premise. Op ids are random UUIDs, so the code relies on it without checking.

The socket handler in `server/server.js` repeats the fold of
`applyOpsToState` inline (lines 43-62). The text is the same, so both
handlers use the one definition `MergeEngine.ApplyOpsToState`. The same
holds for the client's copy inside `applyOps`.

Three behaviours of the code are modelled as written and stated as lemmas:

- An `edit` whose content is empty keeps the old content, because of
  `op.content || m.content`. See `MergeQuirks.EmptyEditKeepsContent`.
- An `edit` that outranks a `delete` does not clear `deleted`, so the
  message stays hidden. See `MergeQuirks.EditAfterDeleteStaysHidden`.
- The client counter only ticks on local ops and never takes in the
  Lamport values it receives. A new local op can therefore rank below an op
  it has already seen on the same message, and lose to it. See
  `Replica.StaleCounterLoses`.

## Model

| member | source | states |
|---|---|---|
| Lex.LexIrreflexive | server/src/utils/lamport.js:5-6 | no string is less than itself under JavaScript's `<` |
| Lex.LexAsymmetric | server/src/utils/lamport.js:5-6 | if `a < b` then not `b < a` |
| Lex.LexTransitive | server/src/utils/lamport.js:5-6 | string `<` is transitive |
| Lex.LexTotal | server/src/utils/lamport.js:5-6 | two strings are equal or one is less than the other |
| Lamport.Compare | server/src/utils/lamport.js:3-8 | a smaller Lamport value orders first and a larger one last; on equal Lamport values the result is -1, 0 or 1 |
| Lamport.CompareZeroIff | server/src/utils/lamport.js:3-7 | `compare(a, b)` is 0 exactly when Lamport value, client id and op id all agree; `compare(a, a)` is 0 |
| Lamport.CompareAntisymmetric | server/src/utils/lamport.js:4-7 | swapping the arguments flips the sign of the result |
| Lamport.CompareTransitive | server/src/utils/lamport.js:4-7 | `compare(a, b) < 0` and `compare(b, c) < 0` give `compare(a, c) < 0` |
| Lamport.LowerLamportFirst | server/src/utils/lamport.js:4 | a smaller Lamport value orders first whatever the ids |
| Lamport.ClientIdBreaksTies | server/src/utils/lamport.js:5 | on equal Lamport values and different client ids, the order is the string order of the client ids and the op ids play no part |
| Lamport.OpIdBreaksTies | server/src/utils/lamport.js:6 | on equal Lamport values and client ids, the op ids decide by string order |
| Lamport.LeTotal | server/src/utils/lamport.js:3-8 | any two triples are ordered one way or the other |
| Lamport.LeAntisymmetric | server/src/utils/lamport.js:3-8 | triples ordered both ways are equal |
| Lamport.LeTransitive | server/src/utils/lamport.js:3-8 | "orders no later than" is transitive |
| Operation.UniqueIdsAreIdCoherent | server/src/models/conversation.js:3-10 | a log with distinct op ids never holds two different ops under one id |
| Sorting.InsertSorted | server/src/routes/sync.js:55 | inserting an op into a sorted log keeps it sorted and adds exactly that op |
| Sorting.SortOpsSorted | server/src/routes/sync.js:55 | the sorted log is ordered by the comparator and is a permutation of the log |
| Sorting.SortedIsPairwise | server/src/routes/sync.js:55 | a log whose neighbours are in comparator order has every op ordered no later than every later op |
| Sorting.SortedPermutationUnique | server/src/routes/sync.js:55 | two sorted permutations of one log are the same list once ops sharing a triple are equal, so how the engine orders ties does not matter |
| Operation.UniqueOpIdsPermutation | server/src/routes/sync.js:41-55 | reordering a log with distinct op ids keeps them distinct |
| MergeEngine.Fresh | server/src/routes/sync.js:11 | a message met for the first time starts live, under its own id, with empty content and the triple `(-1, '', '')` |
| MergeEngine.ApplyToEntry | server/src/routes/sync.js:12-23 | an op that orders no earlier than the entry's triple sets the triple to its own; `create` sets content and clears `deleted`; `delete` sets `deleted` and keeps content; `edit` keeps `deleted`, sets its content when that is non-empty and keeps the old content when it is empty; an older op changes nothing |
| MergeEngine.Step | server/src/routes/sync.js:10-23 | one loop iteration changes only the op's message entry, creating it fresh if missing; a message id met for the first time goes last in the first-seen order, a known one leaves the order as it was |
| MergeEngine.Fold | server/src/routes/sync.js:8-24 | the fold has an entry for exactly the message ids of the log |
| MergeEngine.FoldWellFormed | server/src/routes/sync.js:9-24 | every entry sits under its own id, and the first-seen order lists each message once |
| MergeEngine.Visible | server/src/routes/sync.js:25 | the filtered values hold no deleted entry, only entries of the state, and every live entry of the state |
| MergeEngine.VisibleIdsDistinct | server/src/routes/sync.js:25 | the filtered values list each message at most once |
| MergeEngine.VisibleShowsLive | server/src/routes/sync.js:25 | a message is listed exactly when its entry is not deleted, and it is listed as that entry |
| MergeEngine.ApplyOpsToState | server/src/routes/sync.js:7-26 | the view has no deleted entry, at most one entry per message id, only message ids of the input, and shows a message exactly when its folded entry is not deleted |
| MergeProperties.FoldKeepsMaxStamp | server/src/routes/sync.js:13-22 | in any input order, each message's triple is the greatest of `(-1, '', '')` and its ops' triples |
| MergeProperties.WinningStampIsMax | server/src/routes/sync.js:13-22 | with Lamport values of at least 0, a message's final triple is that of one of its ops and no op on it orders later |
| MergeProperties.MaxStampMonotone | server/src/routes/sync.js:13-22 | folding a superset of ops never lowers a message's triple |
| MergeProperties.WinnerDecides | server/src/routes/sync.js:15-22 | once the maximal op is folded, in any order, the entry carries its triple; a maximal `delete` leaves it deleted, a maximal `create` leaves it live with that op's content, a maximal `edit` with non-empty content leaves that content |
| MergeProperties.TombstoneHides | server/src/routes/sync.js:19-25 | when the maximal op on a message is a `delete`, the message is not in the view |
| MergeProperties.CreateWinnerShows | server/src/routes/sync.js:17-25 | when the maximal op on a message is a `create`, the view shows the message with that op's content |
| MergeProperties.FoldPerMessage | server/src/routes/sync.js:9-24 | a message's entry depends only on the ops on that message, in their order |
| MergeProperties.StepIdempotent | server/src/routes/sync.js:12-23 | folding the same op twice in a row is folding it once |
| ConcurrentEdits.LaterClientEditWins | server/src/routes/sync.js:13-22 | two edits at Lamport value 2 from clients "A" and "B", with a create, folded in any order and multiplicity: B's edit wins and "Y" is the content |
| MergeQuirks.EditAfterDeleteStaysHidden | server/src/routes/sync.js:18-19 | create, delete, then a later non-empty edit: the edit is the maximal op, yet the view is empty |
| MergeQuirks.EmptyEditKeepsContent | server/src/routes/sync.js:17-18 | create "hi", then a later edit with empty content: the edit wins the triple and the content stays "hi" |
| MergeQuirks.UnsortedInputChangesView | server/src/routes/sync.js:9-25 | the fold alone depends on input order: the same three ops fed edit-first give a different view |
| ClientMerge.ApplyOps | client/src/App.jsx:10-29 | the client view has no deleted entry, at most one entry per message id, and only message ids of its ops |
| ClientMerge.AnySortedOrderSameView | client/src/App.jsx:11-28 | folding any sorted permutation of the log gives the client view |
| ClientMerge.ApplyOpsPermutationInvariant | client/src/App.jsx:10-28 | permuting the op list does not change the view |
| ClientMerge.ApplyOpsIgnoresDuplicate | client/src/App.jsx:10-28 | adding another copy of an op already held does not change the view |
| ClientMerge.ApplyOpsAbsorbsKnown | client/src/App.jsx:10-28 | appending any number of ops already held does not change the view |
| ClientMerge.ApplyOpsDependsOnlyOnSet | client/src/App.jsx:10-28 | two op lists holding the same ops, in any order and multiplicity, give the same view |
| Ingest.AppendUnseen | server/src/routes/sync.js:41-52 | the old log stays as a prefix; each appended op comes from the batch with an op id not in the log; appended ids are distinct; the op ids after are those of the log and the batch |
| Ingest.FirstOccurrenceWins | server/src/routes/sync.js:43-47 | an appended op is the first op of the batch with its op id |
| Ingest.AppendKeepsIdsUnique | server/src/routes/sync.js:41-47 | distinct op ids in the log stay distinct after the append |
| Ingest.AppendKnownIsNoop | server/src/routes/sync.js:43-51 | a batch whose op ids the log holds appends nothing |
| Ingest.CacheOf | server/src/routes/sync.js:57 | the cache keys are the view's ids, each maps to a view entry with that id, and with distinct ids each entry sits under its id |
| Ingest.Rebuild | server/src/routes/sync.js:55-56 | the rebuilt log is sorted and a permutation of the log it was given |
| Ingest.Sync | server/src/routes/sync.js:30-61 | missing or empty `clientId` is an error that saves nothing; otherwise the acks are the batch's op ids in order, a non-array `ops` counts as empty, the saved log is sorted, keeps every old op, adds only batch ops, holds exactly the old and the batch op ids, keeps ids distinct, and is saved with the cache of the returned view |
| Ingest.SyncCachesView | server/src/routes/sync.js:56-57 | the saved cache holds exactly the returned messages, each under its id |
| Ingest.SyncResendKeepsLog | server/src/routes/sync.js:41-55 | re-sending ops the log holds keeps its op multiset, and keeps the log itself when it was sorted and coherent |
| Ingest.AppendUnseenCoherent | server/src/routes/sync.js:41-52 | appending only ops with new, distinct op ids keeps a log free of two ops with one triple |
| Ingest.SyncViewIsClientView | server/src/routes/sync.js:41-56 | when the stored log holds no two ops with one triple, the returned messages are the client's `applyOps` of the returned log, whatever the batch holds |
| Ingest.SendOp | server/server.js:32-68 | the op is added only if its op id is new; the saved log is sorted, holds the op id, and is the log broadcast; the cache holds exactly the broadcast messages under their ids |
| Ingest.AppendOne | server/server.js:38-39 | a known op id leaves the log as it was, a new one appends the op; the op ids after are the old ones plus the op's |
| Ingest.SendOpToNewConversation | server/server.js:34-39 | a conversation not stored yet ends up holding just the op |
| Ingest.ResendIsNoop | server/server.js:38-41 | re-sending an op whose id the sorted, coherent log holds leaves the log unchanged |
| Ingest.AppendOneCoherent | server/server.js:38-39 | adding an op only when its op id is new keeps a log free of two ops with one triple |
| Ingest.SendOpViewIsClientView | server/server.js:38-62 | when the stored log holds no two ops with one triple, the broadcast messages are the client's `applyOps` of the saved log, whatever op is sent |
| Ingest.SendOpAgreesWithSync | server/server.js:34-64 | the socket handler saves the same document as the batch handler given a one-op batch |
| Dedupe.Put | client/src/App.jsx:85 | `map.set` replaces the value under the op id, keeps a known key's position and puts a new key last, and keeps the map's shape |
| Dedupe.PutAllFilled | client/src/App.jsx:84-85 | filling a map with ops keeps its keys, adds the ops' ids, leaves untouched keys alone, and stores under each id the last op carrying it |
| Dedupe.Dedupe | client/src/App.jsx:82-88 | the result has distinct op ids, the same op id set as the input, and holds for each id the last input op carrying it |
| Dedupe.DedupeOps | client/src/App.jsx:82-88 | over several lists: distinct op ids, op id set the union of the lists', every op from some list |
| Dedupe.MergePair | client/src/App.jsx:100 | merging the local log with a received log keeps the op ids of both and invents no op |
| Dedupe.LaterListWins | client/src/App.jsx:82-88 | merging two lists keeps the second list's last op for each of its op ids, since the later `map.set` replaces the value |
| Dedupe.DedupeUniqueIsIdentity | client/src/App.jsx:82-88 | a list with distinct op ids is returned unchanged, order included |
| Dedupe.DedupeIdempotent | client/src/App.jsx:82-88 | deduping a deduped list changes nothing |
| Dedupe.DedupeKeepsOps | client/src/App.jsx:82-88 | when ops sharing an id are equal, the result holds exactly the input's ops |
| Replica.Unacked | client/src/App.jsx:139-140 | the remaining outbox holds exactly the outbox ops whose op id was not acked |
| Replica.UnackedConcat | client/src/App.jsx:140 | the filter distributes over concatenation, so it keeps the outbox order |
| Replica.UnackedNoneAcked | client/src/App.jsx:139-141 | with nothing acked the outbox is kept as it was |
| Replica.UnackedNoneOfThemAcked | client/src/App.jsx:140 | when no outbox op is acked the outbox is kept as it was, order included |
| Replica.CreateOp | client/src/App.jsx:150-166 | the op takes counter + 1, which becomes the counter; an empty message id is replaced by a fresh one; the op is appended to both log and outbox and the view is recomputed |
| Replica.OnOpsUpdate | client/src/App.jsx:97-106 | the log becomes the dedupe-merge of the local log followed by the received one, with distinct op ids, the op ids of both logs, only their ops, and the recomputed view; the counter and outbox do not change |
| Replica.ReceivedCopyWins | client/src/App.jsx:85-100 | when both logs hold an op id, the received copy (the last one with that id) is the one in the merged log |
| Replica.Flush | client/src/App.jsx:111-147 | empty outbox: nothing happens; socket connected: every outbox op is emitted and the outbox cleared; otherwise the outbox is posted, a failed or non-ok reply changes nothing, and an ok reply leaves the log as the dedupe-merge of the local log and the reply's ops and the outbox as the old outbox, in order, without the acked op ids; local op ids are never lost and the counter never moves |
| Replica.ReplyOf | server/src/routes/sync.js:35-61 | the `/sync` handler's 400 body parses to a reply that is not ok and carries no ops or acks; its success body to an ok reply with the saved log and the acks |
| Replica.PartialAckKeepsRest | client/src/App.jsx:138-141 | when the reply acks exactly a prefix of the outbox, the rest of the outbox stays, in order, for the next flush |
| Replica.HttpFlushDelivers | client/src/App.jsx:121-141 | a post answered by the `/sync` handler empties the outbox, and both the replica and the saved conversation hold every op id sent |
| Replica.FullAckEmptiesOutbox | client/src/App.jsx:130-141 | an ok reply acking the whole outbox empties it, and the replica takes in every op id of the reply's log |
| Replica.FreshOpWins | client/src/App.jsx:150-160 | when every op on the message has a Lamport value within the counter, the new op is its maximal op |
| Replica.StaleCounterLoses | client/src/App.jsx:75-79 | after taking in a received op whose Lamport value is past the next tick, the counter is unchanged, and the next local op on that message orders below the received op, so it is not the message's maximal op |
| Replica.BroadcastConverges | client/src/App.jsx:97-106 | two replicas whose ops the broadcast log contains show the same view after taking it in |

## Left out

- Strings compare as sequences of Dafny characters (Unicode scalar values).
  JavaScript compares UTF-16 code units, which orders characters outside the
  Basic Multilingual Plane differently.
- `Object.values` lists integer-like keys first, in numeric order. Keys that
  shadow `Object.prototype` members (`"constructor"`, for example) are seen as
  present by `!messages[mid]`. The model lists messages in first-seen order
  and treats every message id as an ordinary key.
- Lamport values are unbounded integers. `NaN`, fractions and missing values
  are not modelled, and neither are fields of the wrong type: a non-string
  `clientId`, an op without an op id, or a `type` outside the enum.
- An absent `content` is the empty string. The code reads it only through
  `||`, where both are falsy.
- How the JavaScript engine orders ops that compare equal is not modelled.
  With coherent ops the sorted order is unique (`Sorting.SortedPermutationUnique`).
  Without coherence, `SortOps` is one sorted permutation. `Array.prototype.sort`
  is stable, so its order can differ from `SortOps` on ops that share a triple:
  `SortOps` puts the later of two such ops first.
- Storage, networking and the UI are not modelled: mongoose, `localforage`,
  socket.io, `fetch`, express routing and status codes, React state and
  rendering. Loading and saving appear as the input and output of each
  transition. Whether the socket is connected and what the HTTP call returns
  are inputs to `Replica.Flush`.
- The HTTP 500 reply after a failed save, and the GET `/history` route, are
  not modelled. The route is a plain read of the cache.
- Async interleaving is not modelled: concurrent writers to one conversation,
  and the stale `ops` closure in the `opsUpdate` handler. Each transition
  runs alone on the state it is given.
- Op ids, client ids and fresh message ids are inputs; the UUID generation
  is not modelled. A client id is a loaded string: the `null` before loading
  is not modelled.
- The flush that `createOp` starts when online is `Replica.Flush`, applied by
  the caller.
- MergeProperties.WinningStampIsMax, MergeProperties.WinnerDecides: stated
  for Lamport values of at least 0. A negative value can tie with or fall
  below the fold's starting triple `(-1, '', '')`.
- ClientMerge.ApplyOpsPermutationInvariant and the other invariance lemmas
  assume ops sharing a comparator triple are equal. Two different ops with
  one triple would leave the result to the sort's tie order.
