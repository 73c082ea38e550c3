/**
The store-and-forward transport of `client-core/src/transport/direct.rs`: a queue per recipient,
flushed to the relay with retry, and the inbox filled by polling.

What the relay answers to each store attempt, and the order in which recipients are visited,
are arbitrary.
*/
module Outbox {
  import opened Prelude

  datatype Queued<M> = Queued(message: M, recipient: string, retryCount: nat)

  datatype FlushStats = FlushStats(delivered: nat, failed: nat)

  datatype NetworkError = OutboxFull | NothingStored(failed: nat)

  /** The relay's answers: was the message at this position of this recipient's queue stored? */
  type Answers = (string, nat) -> bool

  datatype OutboxState<M> = OutboxState(pending: map<string, seq<Queued<M>>>, deliveredCount: nat)

  function QueueOf<M>(pending: map<string, seq<Queued<M>>>, recipient: string): seq<Queued<M>> {
    if recipient in pending then pending[recipient] else []
  }

  // ----- What one call does -----

  /** A full queue stays as it is. */
  function Enqueued<M>(queue: seq<Queued<M>>, recipient: string, data: M, max: nat): seq<Queued<M>> {
    if |queue| >= max then queue else queue + [Queued(data, recipient, 0)]
  }

  function AfterQueue<M>(s: OutboxState<M>, recipient: string, data: M, max: nat): OutboxState<M> {
    s.(pending := s.pending[recipient := Enqueued(QueueOf(s.pending, recipient), recipient, data, max)])
  }

  /** The messages whose store failed, in order, each with one more retry. */
  function Failed<M>(queue: seq<Queued<M>>, recipient: string, stored: Answers): seq<Queued<M>> {
    if |queue| == 0 then []
    else
      var n := |queue| - 1;
      Failed(queue[..n], recipient, stored)
      + if stored(recipient, n) then [] else [queue[n].(retryCount := queue[n].retryCount + 1)]
  }

  /** The messages whose store succeeded, in order. */
  function Stored<M>(queue: seq<Queued<M>>, recipient: string, stored: Answers): seq<Queued<M>> {
    if |queue| == 0 then []
    else
      var n := |queue| - 1;
      Stored(queue[..n], recipient, stored) + if stored(recipient, n) then [queue[n]] else []
  }

  /** Once the recipients `done` were visited: queues with failures keep exactly those, the
      others disappear. */
  function Kept<M>(pending: map<string, seq<Queued<M>>>, done: set<string>, stored: Answers): map<string,
      seq<Queued<M>>> {
    map r | r in pending && r in done && Failed(pending[r], r, stored) != [] :: Failed(pending[r], r, stored)
  }

  function AfterFlushQueues<M>(pending: map<string, seq<Queued<M>>>, stored: Answers): map<string, seq<Queued<M>>> {
    Kept(pending, pending.Keys, stored)
  }

  lemma {:induction false} KeepNone<M>(pending: map<string, seq<Queued<M>>>, stored: Answers)
    ensures Kept(pending, {}, stored) == map[]
  {
  }

  lemma {:induction false} KeepOneMore<M>(pending: map<string, seq<Queued<M>>>, done: set<string>, stored: Answers,
      r: string)
    requires r in pending && r !in done
    ensures Kept(pending, done + {r}, stored) ==
      var failed := Failed(pending[r], r, stored);
      if failed == [] then Kept(pending, done, stored) else Kept(pending, done, stored)[r := failed]
  {
  }

  function AfterMarkDelivered<M>(s: OutboxState<M>, recipient: string, count: nat): OutboxState<M> {
    if recipient !in s.pending then s
    else
      var queue := s.pending[recipient];
      var drained := if count < |queue| then count else |queue|;
      OutboxState(s.pending[recipient := queue[drained..]], s.deliveredCount + drained)
  }

  // ----- Totals over recipients -----

  ghost function SumOver(keys: set<string>, f: string -> nat): nat {
    if keys == {} then 0
    else var k :| k in keys; f(k) + SumOver(keys - {k}, f)
  }

  /** The sum does not depend on the order of summation. */
  lemma {:induction false} SumRemove(keys: set<string>, f: string -> nat, k: string)
    requires k in keys
    ensures SumOver(keys, f) == f(k) + SumOver(keys - {k}, f)
  {
    var j :| j in keys && SumOver(keys, f) == f(j) + SumOver(keys - {j}, f);
    if j != k {
      SumRemove(keys - {j}, f, k);
      SumRemove(keys - {k}, f, j);
      assert keys - {j} - {k} == keys - {k} - {j};
    }
  }

  lemma {:induction false} SumSame(keys: set<string>, f: string -> nat, g: string -> nat)
    requires forall k :: k in keys ==> f(k) == g(k)
    ensures SumOver(keys, f) == SumOver(keys, g)
  {
    if keys != {} {
      var k :| k in keys;
      SumRemove(keys, f, k);
      SumRemove(keys, g, k);
      SumSame(keys - {k}, f, g);
    }
  }

  lemma {:induction false} SumAdd(keys: set<string>, f: string -> nat, g: string -> nat, h: string -> nat)
    requires forall k :: k in keys ==> f(k) == g(k) + h(k)
    ensures SumOver(keys, f) == SumOver(keys, g) + SumOver(keys, h)
  {
    if keys != {} {
      var k :| k in keys;
      SumRemove(keys, f, k);
      SumRemove(keys, g, k);
      SumRemove(keys, h, k);
      SumAdd(keys - {k}, f, g, h);
    }
  }

  lemma {:induction false} SumZeros(keys: set<string>, extra: set<string>, f: string -> nat)
    requires keys <= extra && forall k :: k in extra - keys ==> f(k) == 0
    ensures SumOver(extra, f) == SumOver(keys, f)
    decreases extra - keys
  {
    if extra - keys != {} {
      var k :| k in extra - keys;
      SumRemove(extra, f, k);
      SumZeros(keys, extra - {k}, f);
    } else {
      forall x | x in extra ensures x in keys {
        assert x !in extra - keys;
      }
      assert extra == keys;
    }
  }

  lemma {:induction false} NothingLeft(f: string -> nat, g: string -> nat)
    ensures SumOver({}, f) == SumOver({}, g) == 0
  {
  }

  /** One recipient visited: what is kept so far, and what is still to be counted. */
  lemma {:induction false} VisitOne<M>(pending: map<string, seq<Queued<M>>>, todo: set<string>, stored: Answers,
      r: string)
    requires r in todo && todo <= pending.Keys
    ensures SumOver(todo, StoredCount(pending, stored))
      == |Stored(pending[r], r, stored)| + SumOver(todo - {r}, StoredCount(pending, stored))
    ensures SumOver(todo, FailedCount(pending, stored))
      == |Failed(pending[r], r, stored)| + SumOver(todo - {r}, FailedCount(pending, stored))
    ensures Kept(pending, pending.Keys - (todo - {r}), stored) ==
      var kept, failed := Kept(pending, pending.Keys - todo, stored), Failed(pending[r], r, stored);
      if failed == [] then kept else kept[r := failed]
  {
    hide SumOver, Kept, Failed, Stored;
    SumRemove(todo, StoredCount(pending, stored), r);
    SumRemove(todo, FailedCount(pending, stored), r);
    KeepOneMore(pending, pending.Keys - todo, stored, r);
    assert pending.Keys - (todo - {r}) == pending.Keys - todo + {r};
  }

  ghost function StoredCount<M>(pending: map<string, seq<Queued<M>>>, stored: Answers): string -> nat {
    r => |Stored(QueueOf(pending, r), r, stored)|
  }

  ghost function FailedCount<M>(pending: map<string, seq<Queued<M>>>, stored: Answers): string -> nat {
    r => |Failed(QueueOf(pending, r), r, stored)|
  }

  ghost function AfterFlush<M>(s: OutboxState<M>, stored: Answers): OutboxState<M> {
    OutboxState(AfterFlushQueues(s.pending, stored),
                s.deliveredCount + SumOver(s.pending.Keys, StoredCount(s.pending, stored)))
  }

  // ----- The inbox -----

  /** One fetched relay record; `body` is absent when its bytes cannot be read. */
  datatype Fetched<M> = Fetched(relayId: string, body: Option<M>)

  /** One relay's answer; `records` is absent when the answer cannot be read. */
  datatype Response<M> = Response(base: string, records: Option<seq<Fetched<M>>>)

  datatype Ack = Ack(base: string, ids: seq<string>)

  function Bodies<M>(records: seq<Fetched<M>>): seq<M> {
    if |records| == 0 then []
    else
      var n := |records| - 1;
      Bodies(records[..n]) + if records[n].body.Some? then [records[n].body.value] else []
  }

  function AckIds<M>(records: seq<Fetched<M>>): seq<string> {
    if |records| == 0 then []
    else
      var n := |records| - 1;
      AckIds(records[..n]) + if records[n].relayId != "" then [records[n].relayId] else []
  }

  function RecordsOf<M>(r: Response<M>): seq<Fetched<M>> {
    if r.records.Some? then r.records.value else []
  }

  function AllBodies<M>(responses: seq<Response<M>>): seq<M> {
    if |responses| == 0 then []
    else AllBodies(responses[..|responses| - 1]) + Bodies(RecordsOf(responses[|responses| - 1]))
  }

  function AllAcks<M>(responses: seq<Response<M>>): seq<Ack> {
    if |responses| == 0 then []
    else
      var last := responses[|responses| - 1];
      var ids := AckIds(RecordsOf(last));
      AllAcks(responses[..|responses| - 1]) + if ids != [] then [Ack(last.base, ids)] else []
  }

  /** No readable record of any readable answer is lost. */
  lemma {:induction false} ReadableRecordArrives<M>(responses: seq<Response<M>>, i: nat, j: nat)
    requires i < |responses| && j < |RecordsOf(responses[i])| && RecordsOf(responses[i])[j].body.Some?
    ensures RecordsOf(responses[i])[j].body.value in AllBodies(responses)
    decreases |responses|
  {
    var n := |responses| - 1;
    if i < n {
      ReadableRecordArrives(responses[..n], i, j);
    } else {
      BodyArrives(RecordsOf(responses[n]), j);
    }
  }

  lemma {:induction false} BodyArrives<M>(records: seq<Fetched<M>>, j: nat)
    requires j < |records| && records[j].body.Some?
    ensures records[j].body.value in Bodies(records)
  {
    var n := |records| - 1;
    if j < n {
      BodyArrives(records[..n], j);
    }
  }

  // ----- Order and number of what is fetched -----

  /** How many records can be read. */
  function Readable<M>(records: seq<Fetched<M>>): nat {
    if |records| == 0 then 0
    else Readable(records[..|records| - 1]) + if records[|records| - 1].body.Some? then 1 else 0
  }

  function ReadableIn<M>(responses: seq<Response<M>>): nat {
    if |responses| == 0 then 0
    else ReadableIn(responses[..|responses| - 1]) + Readable(RecordsOf(responses[|responses| - 1]))
  }

  lemma {:induction false} BodyPosition<M>(records: seq<Fetched<M>>, j: nat)
    requires j < |records| && records[j].body.Some?
    ensures Readable(records[..j]) < |Bodies(records)|
    ensures Bodies(records)[Readable(records[..j])] == records[j].body.value
  {
    var n := |records| - 1;
    BodiesCounted(records[..n]);
    if j < n {
      assert records[..n][..j] == records[..j];
      BodyPosition(records[..n], j);
    }
  }

  lemma {:induction false} BodiesCounted<M>(records: seq<Fetched<M>>)
    ensures |Bodies(records)| == Readable(records)
  {
    if |records| > 0 {
      BodiesCounted(records[..|records| - 1]);
    }
  }

  lemma {:induction false} AllBodiesCounted<M>(responses: seq<Response<M>>)
    ensures |AllBodies(responses)| == ReadableIn(responses)
  {
    if |responses| > 0 {
      AllBodiesCounted(responses[..|responses| - 1]);
      BodiesCounted(RecordsOf(responses[|responses| - 1]));
    }
  }

  /** What a poll adds to the inbox: as many bodies as there are readable records in readable
      answers, each at the position that counts the readable records before it. */
  lemma {:induction false} FetchedInOrder<M>(responses: seq<Response<M>>, i: nat, j: nat)
    requires i < |responses| && responses[i].records.Some? && j < |responses[i].records.value|
    requires responses[i].records.value[j].body.Some?
    ensures |AllBodies(responses)| == ReadableIn(responses)
    ensures
      var records := responses[i].records.value;
      var position := ReadableIn(responses[..i]) + Readable(records[..j]);
      position < |AllBodies(responses)| && AllBodies(responses)[position] == records[j].body.value
    decreases |responses|
  {
    hide AllBodies, ReadableIn, Bodies, Readable, AllAcks, AckIds;
    var n := |responses| - 1;
    var front := AllBodies(responses[..n]);
    LastAnswer(responses);
    AllBodiesCounted(responses);
    AllBodiesCounted(responses[..n]);
    if i < n {
      hide RecordsOf;
      assert responses[..n][..i] == responses[..i];
      FetchedInOrder(responses[..n], i, j);
      ElementOfParts(front, Bodies(RecordsOf(responses[n])),
          ReadableIn(responses[..i]) + Readable(responses[i].records.value[..j]));
    } else {
      var records := responses[n].records.value;
      BodyPosition(records, j);
      ElementOfParts(front, Bodies(records), |front| + Readable(records[..j]));
    }
  }

  lemma {:induction false} ElementOfParts<M>(a: seq<M>, b: seq<M>, k: nat)
    requires k < |a| + |b|
    ensures (a + b)[k] == if k < |a| then a[k] else b[k - |a|]
  {
  }

  lemma {:induction false} LastAnswer<M>(responses: seq<Response<M>>)
    requires |responses| > 0
    ensures
      var n := |responses| - 1;
      && AllBodies(responses) == AllBodies(responses[..n]) + Bodies(RecordsOf(responses[n]))
      && AllAcks(responses) == AllAcks(responses[..n]) +
        (var ids := AckIds(RecordsOf(responses[n])); if ids != [] then [Ack(responses[n].base, ids)] else [])
  {
  }

  // ----- Acknowledgements -----

  function Named<M>(records: seq<Fetched<M>>): nat {
    if |records| == 0 then 0
    else Named(records[..|records| - 1]) + if records[|records| - 1].relayId != "" then 1 else 0
  }

  /** How many answers hold a record with an id. */
  function NamedAnswers<M>(responses: seq<Response<M>>): nat {
    if |responses| == 0 then 0
    else
      NamedAnswers(responses[..|responses| - 1])
      + if Named(RecordsOf(responses[|responses| - 1])) > 0 then 1 else 0
  }

  lemma {:induction false} IdsCounted<M>(records: seq<Fetched<M>>)
    ensures |AckIds(records)| == Named(records)
  {
    if |records| > 0 {
      IdsCounted(records[..|records| - 1]);
    }
  }

  /** The ids acknowledged of one answer: every one that is not empty, readable record or not,
      in order. */
  lemma {:induction false} IdPosition<M>(records: seq<Fetched<M>>, j: nat)
    requires j < |records| && records[j].relayId != ""
    ensures |AckIds(records)| == Named(records) > Named(records[..j])
    ensures AckIds(records)[Named(records[..j])] == records[j].relayId
  {
    var n := |records| - 1;
    IdsCounted(records);
    IdsCounted(records[..n]);
    if j < n {
      assert records[..n][..j] == records[..j];
      IdPosition(records[..n], j);
    }
  }

  lemma {:induction false} AcksCounted<M>(responses: seq<Response<M>>)
    ensures |AllAcks(responses)| == NamedAnswers(responses)
  {
    if |responses| > 0 {
      AcksCounted(responses[..|responses| - 1]);
      IdsCounted(RecordsOf(responses[|responses| - 1]));
    }
  }

  /** Each relay that handed out a record with an id gets one acknowledgement, in order, with
      exactly the non-empty ids it handed out, in order; the others get none. */
  lemma {:induction false} AcknowledgedExactly<M>(responses: seq<Response<M>>, i: nat, j: nat)
    requires i < |responses| && responses[i].records.Some? && j < |responses[i].records.value|
    requires responses[i].records.value[j].relayId != ""
    ensures |AllAcks(responses)| == NamedAnswers(responses) > NamedAnswers(responses[..i])
    ensures
      var records := responses[i].records.value;
      var ack := AllAcks(responses)[NamedAnswers(responses[..i])];
      && ack.base == responses[i].base
      && |ack.ids| == Named(records) > Named(records[..j])
      && ack.ids[Named(records[..j])] == records[j].relayId
    decreases |responses|
  {
    hide AllAcks, AckIds, Named;
    var n := |responses| - 1;
    LastAnswer(responses);
    AcksCounted(responses);
    AcksCounted(responses[..n]);
    if i < n {
      assert responses[..n][..i] == responses[..i];
      AcknowledgedExactly(responses[..n], i, j);
    } else {
      IdPosition(responses[n].records.value, j);
    }
  }

  // ----- The transport -----

  class DirectTransport<M> {
    const maxStoredMessages: nat
    var pending: map<string, seq<Queued<M>>>
    var deliveredCount: nat
    var unread: seq<M>

    function Outgoing(): OutboxState<M>
      reads this
    {
      OutboxState(pending, deliveredCount)
    }

    constructor (maxStoredMessages: nat)
      ensures Outgoing() == OutboxState(map[], 0) && unread == []
      ensures this.maxStoredMessages == maxStoredMessages
    {
      this.maxStoredMessages := maxStoredMessages;
      pending := map[];
      deliveredCount := 0;
      unread := [];
    }

    method QueueMessage(recipient: string, data: M) returns (result: Result<(), NetworkError>)
      modifies this`pending
      ensures Outgoing() == AfterQueue(old(Outgoing()), recipient, data, maxStoredMessages)
      ensures result == if |QueueOf(old(pending), recipient)| >= maxStoredMessages then Err(OutboxFull) else Ok(())
    {
      if recipient !in pending {
        pending := pending[recipient := []];
      }
      var queue := pending[recipient];
      if |queue| >= maxStoredMessages {
        return Err(OutboxFull);
      }
      pending := pending[recipient := queue + [Queued(data, recipient, 0)]];
      result := Ok(());
    }

    /** Attempts every pending message once. */
    method FlushOutbox(stored: Answers) returns (result: Result<FlushStats, NetworkError>)
      modifies this`pending, this`deliveredCount
      ensures Outgoing() == AfterFlush(old(Outgoing()), stored)
      ensures
        var before := old(pending);
        var delivered := SumOver(before.Keys, StoredCount(before, stored));
        var failed := SumOver(before.Keys, FailedCount(before, stored));
        result == if delivered == 0 && failed > 0 then Err(NothingStored(failed)) else Ok(FlushStats(delivered, failed))
    {
      hide SumOver, Kept, Failed, Stored, StoredCount, FailedCount;
      var taken := pending;
      KeepNone(taken, stored);
      NothingLeft(StoredCount(taken, stored), FailedCount(taken, stored));
      pending := map[];
      var stats := FlushStats(0, 0);
      var todo := taken.Keys;
      assert taken.Keys - todo == {};
      while todo != {}
        invariant todo <= taken.Keys
        invariant pending == Kept(taken, taken.Keys - todo, stored)
        invariant stats.delivered + SumOver(todo, StoredCount(taken, stored))
            == SumOver(taken.Keys, StoredCount(taken, stored))
        invariant stats.failed + SumOver(todo, FailedCount(taken, stored))
            == SumOver(taken.Keys, FailedCount(taken, stored))
        invariant deliveredCount == old(deliveredCount) + stats.delivered
        decreases |todo|
      {
        var recipient :| recipient in todo;
        VisitOne(taken, todo, stored, recipient);
        var failedMessages, attempt := FlushRecipient(recipient, taken[recipient], stored);
        stats := FlushStats(stats.delivered + attempt.delivered, stats.failed + attempt.failed);
        if |failedMessages| > 0 {
          pending := pending[recipient := failedMessages];
        }
        todo := todo - {recipient};
      }
      assert taken.Keys - todo == taken.Keys && todo == {};
      if stats.delivered == 0 && stats.failed > 0 {
        return Err(NothingStored(stats.failed));
      }
      result := Ok(stats);
    }

    /** The inner loop: every message of one recipient. */
    method FlushRecipient(recipient: string, messages: seq<Queued<M>>, stored: Answers)
      returns (failedMessages: seq<Queued<M>>, stats: FlushStats)
      modifies this`deliveredCount
      ensures failedMessages == Failed(messages, recipient, stored)
      ensures stats == FlushStats(|Stored(messages, recipient, stored)|, |failedMessages|)
      ensures deliveredCount == old(deliveredCount) + stats.delivered
    {
      failedMessages := [];
      stats := FlushStats(0, 0);
      var i := 0;
      while i < |messages|
        invariant 0 <= i <= |messages|
        invariant failedMessages == Failed(messages[..i], recipient, stored)
        invariant stats == FlushStats(|Stored(messages[..i], recipient, stored)|, |failedMessages|)
        invariant deliveredCount == old(deliveredCount) + stats.delivered
      {
        assert messages[..i + 1][..i] == messages[..i];
        var msg := messages[i];
        if stored(recipient, i) {
          deliveredCount := deliveredCount + 1;
          stats := stats.(delivered := stats.delivered + 1);
        } else {
          msg := msg.(retryCount := msg.retryCount + 1);
          failedMessages := failedMessages + [msg];
          stats := stats.(failed := stats.failed + 1);
        }
        i := i + 1;
      }
      assert messages[..i] == messages;
    }

    method MarkDelivered(recipient: string, count: nat)
      modifies this`pending, this`deliveredCount
      ensures Outgoing() == AfterMarkDelivered(old(Outgoing()), recipient, count)
    {
      if recipient in pending {
        var queue := pending[recipient];
        var drainCount := if count < |queue| then count else |queue|;
        pending := pending[recipient := queue[drainCount..]];
        deliveredCount := deliveredCount + drainCount;
      }
    }

    /** Appends every readable body to the inbox and acknowledges each relay's records. */
    method PollIncoming(responses: seq<Response<M>>) returns (acks: seq<Ack>)
      modifies this`unread
      ensures unread == old(unread) + AllBodies(responses)
      ensures acks == AllAcks(responses)
    {
      acks := [];
      for i := 0 to |responses|
        invariant unread == old(unread) + AllBodies(responses[..i])
        invariant acks == AllAcks(responses[..i])
      {
        assert responses[..i + 1][..i] == responses[..i];
        var ids := PollOne(RecordsOf(responses[i]));
        if ids != [] {
          acks := acks + [Ack(responses[i].base, ids)];
        }
      }
      assert responses[..|responses|] == responses;
    }

    /** The inner loop: the records of one relay. */
    method PollOne(records: seq<Fetched<M>>) returns (ids: seq<string>)
      modifies this`unread
      ensures unread == old(unread) + Bodies(records)
      ensures ids == AckIds(records)
    {
      ids := [];
      for j := 0 to |records|
        invariant unread == old(unread) + Bodies(records[..j])
        invariant ids == AckIds(records[..j])
      {
        assert records[..j + 1][..j] == records[..j];
        if records[j].relayId != "" {
          ids := ids + [records[j].relayId];
        }
        if records[j].body.Some? {
          unread := unread + [records[j].body.value];
        }
      }
      assert records[..|records|] == records;
    }

    method DrainUnread() returns (messages: seq<M>)
      modifies this`unread
      ensures messages == old(unread) && unread == []
    {
      messages := unread;
      unread := [];
    }
  }
}
