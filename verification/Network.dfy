/**
End to end: any number of senders with retrying outboxes, a relay that may store a message
without saying so, hand it out repeatedly and in any order, and one receiving client.

Each event is one locked step of the program or one act of the network.
*/
module Network {
  import opened Prelude
  import opened Client
  import opened ClientRuns
  import opened ClientDedup
  import opened FileDelivery
  import opened Outbox
  import Sending

  datatype Net = Net(
    outboxes: map<Address, seq<Queued<Envelope>>>,      // per sender, what waits for this recipient
    relay: set<Envelope>,
    unread: seq<Raw>,                                    // fetched, not yet processed
    processed: seq<Raw>,
    choices: seq<set<MessageId>>,
    client: ClientState,
    sent: seq<Envelope>)                                 // everything accepted by an outbox

  datatype Event =
    | Post(sender: Address, message: Envelope)
    /** One flush: `reached` says which messages the relay stores, `confirmed` which of
        these it also confirms.  The others are tried again. */
    | Flush(sender: Address, reached: set<nat>, confirmed: Answers)
    /** One poll: any stored messages, any number of times, in any order; any of them may
        be deleted from the relay afterwards. */
    | Poll(batch: seq<Envelope>, acknowledged: set<Envelope>)
    | Noise
    | ProcessIncoming(pruned: seq<set<MessageId>>)

  function InitialNet(): Net { Net(map[], {}, [], [], [], EmptyClient(), []) }

  ghost predicate Enabled(n: Net, e: Event) {
    match e
    case Post(_, message) => forall i :: 0 <= i < |n.sent| ==> n.sent[i].id != message.id
    case Flush(sender, reached, confirmed) =>
      forall i: nat :: i < |QueueOf(n.outboxes, sender)| && confirmed(sender, i) ==> i in reached
    case Poll(batch, acknowledged) =>
      && (forall i :: 0 <= i < |batch| ==> batch[i] in n.relay)
      && (forall m :: m in acknowledged ==> m in batch)
    case Noise => true
    case ProcessIncoming(pruned) => ChoicesAllowed(n.client, n.unread, pruned)
  }

  function ParsedAll(batch: seq<Envelope>): (raws: seq<Raw>)
    ensures |raws| == |batch|
  {
    seq(|batch|, i requires 0 <= i < |batch| => Parsed(batch[i]))
  }

  ghost function Apply(n: Net, e: Event, max: nat): Net
    requires Enabled(n, e)
  {
    match e
    case Post(sender, message) =>
      var queue := QueueOf(n.outboxes, sender);
      n.(outboxes := n.outboxes[sender := Enqueued(queue, message.recipient, message, max)],
         sent := if |queue| < max then n.sent + [message] else n.sent)
    case Flush(sender, reached, confirmed) =>
      var queue := QueueOf(n.outboxes, sender);
      n.(outboxes := n.outboxes[sender := Outbox.Failed(queue, sender, confirmed)],
         relay := n.relay + set i: nat | i in reached && i < |queue| :: queue[i].message)
    case Poll(batch, acknowledged) =>
      n.(unread := n.unread + ParsedAll(batch), relay := n.relay - acknowledged)
    case Noise => n.(unread := n.unread + [Garbage])
    case ProcessIncoming(pruned) =>
      n.(client := ProcessAll(n.client, n.unread, pruned), processed := n.processed + n.unread,
         choices := n.choices + pruned, unread := [])
  }

  ghost predicate IsRun(trace: seq<Net>, events: seq<Event>, max: nat) {
    && |trace| == |events| + 1 && trace[0] == InitialNet()
    && forall i :: 0 <= i < |events| ==>
      Enabled(trace[i], events[i]) && trace[i + 1] == Apply(trace[i], events[i], max)
  }

  // ----- The invariant -----

  ghost predicate Holds(queue: seq<Queued<Envelope>>, m: Envelope) {
    exists i :: 0 <= i < |queue| && queue[i].message == m
  }

  ghost predicate Waiting(n: Net, sender: Address, m: Envelope) { Holds(QueueOf(n.outboxes, sender), m) }

  /** Somewhere between its sender and its recipient, or processed. */
  ghost predicate OnItsWay(n: Net, m: Envelope) {
    (exists sender :: Waiting(n, sender, m)) || m in n.relay || Parsed(m) in n.unread || Parsed(m) in n.processed
  }

  ghost predicate Known(n: Net, raw: Raw) { raw.Parsed? ==> raw.envelope in n.sent }

  ghost predicate Inv(n: Net) {
    && |n.processed| == |n.choices| && n.client == ProcessAll(EmptyClient(), n.processed, n.choices)
    && ChoicesAllowed(EmptyClient(), n.processed, n.choices)
    && (forall i, j :: 0 <= i < j < |n.sent| ==> n.sent[i].id != n.sent[j].id)
    && (forall m :: m in n.sent ==> OnItsWay(n, m))
    && (forall sender, m :: Waiting(n, sender, m) ==> m in n.sent)
    && (forall m :: m in n.relay ==> m in n.sent)
    && (forall i :: 0 <= i < |n.unread| ==> Known(n, n.unread[i]))
    && (forall i :: 0 <= i < |n.processed| ==> Known(n, n.processed[i]))
  }

  // ----- Preservation -----

  ghost predicate HoldsFailed(queue: seq<Queued<Envelope>>, r: string, stored: Answers, m: Envelope) {
    exists i: nat :: i < |queue| && !stored(r, i) && queue[i].message == m
  }

  lemma {:induction false} HoldsAppend(a: seq<Queued<Envelope>>, b: seq<Queued<Envelope>>, m: Envelope)
    ensures Holds(a + b, m) <==> Holds(a, m) || Holds(b, m)
  {
    if i :| 0 <= i < |a| && a[i].message == m {
      assert (a + b)[i].message == m;
    }
    if i :| 0 <= i < |b| && b[i].message == m {
      assert (a + b)[|a| + i].message == m;
    }
  }

  /** After a flush a queue holds exactly the messages that were not confirmed. */
  lemma {:induction false} FailedContents(queue: seq<Queued<Envelope>>, r: string, stored: Answers, m: Envelope)
    ensures Holds(Outbox.Failed(queue, r, stored), m) <==> HoldsFailed(queue, r, stored, m)
  {
    if |queue| > 0 {
      var n := |queue| - 1;
      var last := queue[n].(retryCount := queue[n].retryCount + 1);
      var tail := if stored(r, n) then [] else [last];
      FailedContents(queue[..n], r, stored, m);
      HoldsAppend(Outbox.Failed(queue[..n], r, stored), tail, m);
      assert Outbox.Failed(queue, r, stored) == Outbox.Failed(queue[..n], r, stored) + tail;
      hide Outbox.Failed;
      assert Holds(tail, m) <==> !stored(r, n) && queue[n].message == m by {
        assert !stored(r, n) ==> tail[0].message == queue[n].message;
      }
      if i: nat :| i < |queue| && !stored(r, i) && queue[i].message == m {
        assert i < n ==> queue[..n][i] == queue[i];
      }
    }
  }

  lemma {:induction false} InvPost(n: Net, sender: Address, message: Envelope, max: nat)
    requires Inv(n) && Enabled(n, Post(sender, message))
    ensures Inv(Apply(n, Post(sender, message), max))
  {
    hide ProcessAll, ChoicesAllowed;
    var u := Apply(n, Post(sender, message), max);
    var queue := QueueOf(n.outboxes, sender);
    if |queue| < max {
      forall s, m ensures Waiting(u, s, m) <==> Waiting(n, s, m) || (s == sender && m == message) {
        if s == sender {
          var entry := Outbox.Queued.Queued(message, message.recipient, 0);
          HoldsAppend(queue, [entry], m);
          assert Holds([entry], m) <==> m == message by { assert [entry][0].message == message; }
        }
      }
      forall m | m in u.sent ensures OnItsWay(u, m) {
        assert Waiting(u, sender, message);
        if m != message {
          assert OnItsWay(n, m);
        }
      }
    } else {
      forall s, m ensures Waiting(u, s, m) <==> Waiting(n, s, m) {
      }
      forall m | m in u.sent ensures OnItsWay(u, m) {
        assert OnItsWay(n, m);
      }
    }
    KnownLater(n, u);
  }

  lemma {:induction false} KnownLater(n: Net, u: Net)
    requires n.sent <= u.sent
    ensures forall raw :: Known(n, raw) ==> Known(u, raw)
  {
  }

  lemma {:induction false} InvFlush(n: Net, sender: Address, reached: set<nat>, confirmed: Answers, max: nat)
    requires Inv(n) && Enabled(n, Flush(sender, reached, confirmed))
    ensures Inv(Apply(n, Flush(sender, reached, confirmed), max))
  {
    hide ProcessAll, ChoicesAllowed, Outbox.Failed;
    var u := Apply(n, Flush(sender, reached, confirmed), max);
    var queue := QueueOf(n.outboxes, sender);
    forall m | m in u.sent ensures OnItsWay(u, m) {
      assert OnItsWay(n, m);
      if s :| Waiting(n, s, m) {
        FlushKeeps(n, sender, reached, confirmed, max, s, m);
      }
    }
    forall s, m | Waiting(u, s, m) ensures Waiting(n, s, m) {
      if s == sender {
        FailedContents(queue, sender, confirmed, m);
      }
    }
    forall m | m in u.relay ensures m in u.sent {
      if m !in n.relay {
        var i: nat :| i in reached && i < |queue| && queue[i].message == m;
        assert Waiting(n, sender, m);
      }
    }
    KnownLater(n, u);
  }

  /** A waiting message reaches the relay or keeps waiting. */
  lemma {:induction false} FlushKeeps(n: Net, sender: Address, reached: set<nat>, confirmed: Answers, max: nat,
      s: Address, m: Envelope)
    requires Enabled(n, Flush(sender, reached, confirmed)) && Waiting(n, s, m)
    ensures
      var u := Apply(n, Flush(sender, reached, confirmed), max);
      m in u.relay || Waiting(u, s, m)
  {
    hide Outbox.Failed;
    var queue := QueueOf(n.outboxes, s);
    if s == sender {
      var i: nat :| i < |queue| && queue[i].message == m;
      FailedContents(queue, sender, confirmed, m);
      if confirmed(sender, i) {
        assert i in reached;
      } else {
        assert HoldsFailed(queue, sender, confirmed, m);
      }
    }
  }

  lemma {:induction false} InvPoll(n: Net, batch: seq<Envelope>, acknowledged: set<Envelope>, max: nat)
    requires Inv(n) && Enabled(n, Poll(batch, acknowledged))
    ensures Inv(Apply(n, Poll(batch, acknowledged), max))
  {
    hide ProcessAll, ChoicesAllowed;
    var u := Apply(n, Poll(batch, acknowledged), max);
    forall m | m in acknowledged ensures Parsed(m) in u.unread {
      var i :| 0 <= i < |batch| && batch[i] == m;
      assert u.unread[|n.unread| + i] == Parsed(m);
    }
    forall m | m in u.sent ensures OnItsWay(u, m) {
      SameOutboxes(n, u, m);
      assert OnItsWay(n, m);
    }
    forall s, m | Waiting(u, s, m) ensures m in u.sent {
      assert Waiting(n, s, m);
    }
    forall i | 0 <= i < |u.unread| ensures Known(u, u.unread[i]) {
      if i < |n.unread| {
        assert Known(n, n.unread[i]);
      }
    }
    KnownLater(n, u);
  }

  lemma {:induction false} SameOutboxes(n: Net, u: Net, m: Envelope)
    requires u.outboxes == n.outboxes
    ensures forall s :: Waiting(u, s, m) <==> Waiting(n, s, m)
  {
  }

  lemma {:induction false} InvNoise(n: Net, max: nat)
    requires Inv(n)
    ensures Inv(Apply(n, Noise, max))
  {
    hide ProcessAll, ChoicesAllowed;
    var u := Apply(n, Noise, max);
    forall m | m in u.sent ensures OnItsWay(u, m) {
      SameOutboxes(n, u, m);
      assert OnItsWay(n, m);
    }
    forall s, m | Waiting(u, s, m) ensures m in u.sent {
      assert Waiting(n, s, m);
    }
    KnownLater(n, u);
  }

  lemma {:induction false} ProcessAllAppend(s: ClientState, a: seq<Raw>, ca: seq<set<MessageId>>, b: seq<Raw>,
      cb: seq<set<MessageId>>)
    requires |a| == |ca| && |b| == |cb|
    ensures ProcessAll(s, a + b, ca + cb) == ProcessAll(ProcessAll(s, a, ca), b, cb)
    ensures ChoicesAllowed(s, a, ca) && ChoicesAllowed(ProcessAll(s, a, ca), b, cb)
        ==> ChoicesAllowed(s, a + b, ca + cb)
    decreases |b|
  {
    hide Process;
    if |b| == 0 {
      assert a + b == a && ca + cb == ca;
    } else {
      var n := |b| - 1;
      ProcessAllAppend(s, a, ca, b[..n], cb[..n]);
      assert (a + b)[..|a| + n] == a + b[..n];
      assert (ca + cb)[..|a| + n] == ca + cb[..n];
    }
  }

  lemma {:induction false} InvProcess(n: Net, pruned: seq<set<MessageId>>, max: nat)
    requires Inv(n) && Enabled(n, ProcessIncoming(pruned))
    ensures Inv(Apply(n, ProcessIncoming(pruned), max))
  {
    hide ProcessAll;
    var u := Apply(n, ProcessIncoming(pruned), max);
    assert |pruned| == |n.unread|;
    ProcessAllAppend(EmptyClient(), n.processed, n.choices, n.unread, pruned);
    hide ChoicesAllowed;
    forall m | m in u.sent ensures OnItsWay(u, m) {
      SameOutboxes(n, u, m);
      assert OnItsWay(n, m);
    }
    forall s, m | Waiting(u, s, m) ensures m in u.sent {
      assert Waiting(n, s, m);
    }
    forall i | 0 <= i < |u.processed| ensures Known(u, u.processed[i]) {
      assert i < |n.processed| ==> Known(n, n.processed[i]);
      assert i >= |n.processed| ==> Known(n, n.unread[i - |n.processed|]);
    }
  }

  lemma {:induction false} RunKeepsInv(trace: seq<Net>, events: seq<Event>, max: nat, i: nat)
    requires IsRun(trace, events, max) && i < |trace|
    ensures Inv(trace[i])
  {
    if i == 0 {
      NothingSent();
    } else {
      RunKeepsInv(trace, events, max, i - 1);
      assert Enabled(trace[i - 1], events[i - 1]) && trace[i] == Apply(trace[i - 1], events[i - 1], max);
      hide Inv, Enabled, Apply;
      match events[i - 1]
      case Post(sender, message) => InvPost(trace[i - 1], sender, message, max);
      case Flush(sender, reached, confirmed) => InvFlush(trace[i - 1], sender, reached, confirmed, max);
      case Poll(batch, acknowledged) => InvPoll(trace[i - 1], batch, acknowledged, max);
      case Noise => InvNoise(trace[i - 1], max);
      case ProcessIncoming(pruned) => InvProcess(trace[i - 1], pruned, max);
    }
  }

  lemma {:induction false} NothingSent()
    ensures Inv(InitialNet())
  {
  }

  // ----- Theorems -----

  /** Nothing waits at a sender, at the relay, or in the receiver's transport. */
  ghost predicate Drained(n: Net) {
    && (forall sender :: QueueOf(n.outboxes, sender) == [])
    && n.relay == {} && n.unread == []
  }

  ghost function SentIds(n: Net): set<MessageId> { set i | 0 <= i < |n.sent| :: n.sent[i].id }

  /** Whenever a message with one of `ids` came again, the receiver still remembered it. */
  ghost predicate Remembered(n: Net, ids: set<MessageId>) {
    |n.processed| == |n.choices| && Retained(ids, n.processed, n.choices)
  }

  lemma {:induction false} ProcessedIdsWereSent(n: Net)
    requires Inv(n) && |n.sent| <= SEEN_LIMIT
    ensures |RawIds(n.processed)| <= SEEN_LIMIT
  {
    hide ProcessAll, ChoicesAllowed;
    forall x | x in RawIds(n.processed) ensures x in SentIds(n) {
      var i :| 0 <= i < |n.processed| && n.processed[i].Parsed? && n.processed[i].envelope.id == x;
      assert Known(n, n.processed[i]);
    }
    SentIdsSize(n.sent);
    SubsetSize(RawIds(n.processed), SentIds(n));
  }

  lemma {:induction false} SentIdsSize(sent: seq<Envelope>)
    ensures |(set i | 0 <= i < |sent| :: sent[i].id)| <= |sent|
  {
    if |sent| > 0 {
      var n := |sent| - 1;
      SentIdsSize(sent[..n]);
      var front := set i | 0 <= i < |sent[..n]| :: sent[..n][i].id;
      var all := set i | 0 <= i < |sent| :: sent[i].id;
      assert all == front + {sent[n].id} by {
        forall x | x in all ensures x in front + {sent[n].id} {
          var i :| 0 <= i < |sent| && sent[i].id == x;
          assert i < n ==> sent[..n][i].id == x;
        }
        forall x | x in front ensures x in all {
          var i :| 0 <= i < n && sent[..n][i].id == x;
          assert sent[i].id == x;
        }
      }
    }
  }

  /** Up to 500 messages are all remembered, however often each of them comes. */
  lemma {:induction false} FewAreRemembered(trace: seq<Net>, events: seq<Event>, max: nat, k: nat, ids: set<MessageId>)
    requires IsRun(trace, events, max) && k < |trace| && |trace[k].sent| <= 500
    ensures Remembered(trace[k], ids)
  {
    hide ProcessAll, RawIds;
    RunKeepsInv(trace, events, max, k);
    ProcessedIdsWereSent(trace[k]);
    FewIdsAreRetained(ids, trace[k].processed, trace[k].choices);
  }

  lemma {:induction false} ProcessedIdsAreOwn(n: Net, e: Envelope)
    requires Inv(n) && e in n.sent
    ensures IdIsOwn(e, n.processed)
  {
    hide ProcessAll, ChoicesAllowed;
    forall i | 0 <= i < |n.processed| && n.processed[i].Parsed? && n.processed[i].envelope.id == e.id
      ensures n.processed[i] == Parsed(e)
    {
      assert Known(n, n.processed[i]);
      var j :| 0 <= j < |n.sent| && n.sent[j] == n.processed[i].envelope;
      var k :| 0 <= k < |n.sent| && n.sent[k] == e;
    }
  }

  /** In every run, at every moment: the seen-set is within its bound, and an id that was
      remembered whenever it came again is at most once in the receiver's cumulative inbox. */
  lemma {:induction false} DeliveredAtMostOnce(trace: seq<Net>, events: seq<Event>, max: nat, k: nat, x: MessageId)
    requires IsRun(trace, events, max) && k < |trace|
    ensures |trace[k].client.seen| <= 500
    ensures Remembered(trace[k], {x}) ==>
      forall i, j :: 0 <= i < j < |trace[k].client.inbox| && trace[k].client.inbox[i].id == x ==>
        trace[k].client.inbox[j].id != x
  {
    hide ProcessAll, Retained, RawIds;
    var n := trace[k];
    RunKeepsInv(trace, events, max, k);
    SeenBounded(n.processed, n.choices);
    if Remembered(n, {x}) {
      AtMostOneAfter(n.processed, n.choices, x);
    }
  }

  lemma {:induction false} DrainedMeansProcessed(n: Net, e: Envelope)
    requires Inv(n) && Drained(n) && e in n.sent
    ensures Parsed(e) in n.processed
  {
    assert OnItsWay(n, e);
  }

  /** Once everything is drained, an ordinary message that was accepted by an outbox is in the
      inbox exactly once, with its decrypted content, exactly when the receiver remembered it
      whenever it came again. */
  lemma {:induction false} DeliveredExactlyOnceIff(trace: seq<Net>, events: seq<Event>, max: nat, k: nat, e: Envelope)
    requires IsRun(trace, events, max) && k < |trace| && Drained(trace[k])
    requires e in trace[k].sent && IsOrdinary(e)
    ensures DeliveredOnce(trace[k].client.inbox, e) <==> Remembered(trace[k], {e.id})
  {
    hide ProcessAll, Retained, RawIds;
    var n := trace[k];
    RunKeepsInv(trace, events, max, k);
    ProcessedIdsAreOwn(n, e);
    DrainedMeansProcessed(n, e);
    ExactlyOnceIff(n.processed, n.choices, e);
  }

  /** Other traffic does not use the ids of the transfer, and all its chunks were accepted. */
  ghost predicate WasSent(n: Net, t: Transfer) {
    && (forall i :: 0 <= i < |t.chunks| ==> t.chunks[i] in n.sent)
    && (forall m :: m in n.sent ==> NoClash(t, Parsed(m)))
  }

  /** Chunks that came again after the file was complete were still remembered. */
  ghost predicate ChunksRemembered(n: Net, t: Transfer) {
    |n.processed| == |n.choices| && ChunksRetained(t, n.processed, n.choices)
  }

  /** Once everything is drained, a file all of whose chunks were accepted by an outbox has
      reached the inbox with its bytes, whatever was forgotten, and with the sender's metadata
      exactly when the header was processed before the last chunk.  It is there as often as its
      chunks were all buffered together, hence once exactly if that happened once; and that is so
      if its chunks were remembered when they came again after it was complete. */
  lemma {:induction false} FileDeliveredExactlyOnce(trace: seq<Net>, events: seq<Event>, max: nat, k: nat, t: Transfer)
    requires IsRun(trace, events, max) && k < |trace| && Drained(trace[k])
    requires WellFormed(t) && WasSent(trace[k], t)
    ensures
      var mine := Mine(PartIds(t), trace[k].client.inbox);
      && |mine| > 0 && IsFileMessage(t, HeaderInTime(t, trace[k].processed), mine[0])
      && |trace[k].processed| == |trace[k].choices|
      && |mine| == |ProgressOf(t, trace[k].processed, trace[k].choices).rounds|
      && (ChunksRemembered(trace[k], t) ==> |mine| == 1)
  {
    hide ProcessAll, WellFormed, NoClash, FileBytes, PartIds, ChunksRetained, Mine, HeaderInTime;
    var n := trace[k];
    RunKeepsInv(trace, events, max, k);
    forall i | 0 <= i < |n.processed| ensures NoClash(t, n.processed[i]) {
      assert Known(n, n.processed[i]);
      if n.processed[i].Garbage? {
        GarbageNeverClashes(t);
      }
    }
    forall i: nat | i < |t.chunks| ensures i in Have(t, n.processed) {
      DrainedMeansProcessed(n, t.chunks[i]);
    }
    FileArrives(t, n.processed, n.choices);
    OneMessagePerRound(t, n.processed, n.choices);
    if ChunksRetained(t, n.processed, n.choices) {
      FileArrivesExactlyOnce(t, n.processed, n.choices);
    }
  }

  lemma {:induction false} GarbageNeverClashes(t: Transfer)
    ensures NoClash(t, Garbage)
  {
  }

  /** From one end to the other: a file sent as `send_file` does, once drained, is in the inbox
      with its bytes, from its sender.  If the header was processed before the last chunk it
      carries the name, type, size and digest given for it; otherwise the name is made of its
      file id, and the size and number of chunks are still right. */
  lemma {:induction false} SentFileIsDelivered(trace: seq<Net>, events: seq<Event>, max: nat, k: nat,
      r: Sending.FileRequest, data: seq<byte>)
    requires IsRun(trace, events, max) && k < |trace| && Drained(trace[k])
    requires forall i: nat, j: nat :: i < j ==> r.ids(i) != r.ids(j)
    requires 0 < (|data| + 2_097_151) / 2_097_152 < 0x1_0000_0000
    requires WasSent(trace[k], Sending.TransferOf(r, data))
    ensures
      var t := Sending.TransferOf(r, data);
      var mine := Mine(PartIds(t), trace[k].client.inbox);
      && |mine| > 0 && mine[0].payload == data && mine[0].sender == r.sender && mine[0].msgType.File?
      && var m := mine[0].msgType.metadata;
        && m.sizeBytes == |data| && m.totalChunks == (|data| + 2_097_151) / 2_097_152
        && (HeaderInTime(t, trace[k].processed) ==>
              && mine[0].id == r.ids(0) && m.fileName == r.fileName && m.mimeType == r.mimeType
              && m.digest == DigestOf(data))
        && (!HeaderInTime(t, trace[k].processed) ==>
              && m.fileName == "file_" + (if |r.fileId| >= 8 then r.fileId[..8] else r.fileId)
              && m.mimeType == "application/octet-stream" && m.digest == NoDigest)
  {
    hide IsRun, Drained, WellFormed, WasSent, HeaderInTime, Mine, PartIds, FileBytes, Sending.TransferOf;
    var t := Sending.TransferOf(r, data);
    Sending.SentTransferIsWellFormedIff(r, data);
    Sending.SentHeader(r, data);
    FileDeliveredExactlyOnce(trace, events, max, k, t);
  }

  /** With at most 500 messages sent in all, everything sent is delivered exactly once: ordinary
      messages with their content, files with their bytes. */
  lemma {:induction false} FewAreDeliveredExactlyOnce(trace: seq<Net>, events: seq<Event>, max: nat, k: nat)
    requires IsRun(trace, events, max) && k < |trace| && Drained(trace[k])
    requires |trace[k].sent| <= 500
    ensures AllDifferent(trace[k].client.inbox)
    ensures forall e :: e in trace[k].sent && IsOrdinary(e) ==> DeliveredOnce(trace[k].client.inbox, e)
    ensures forall t :: WellFormed(t) && WasSent(trace[k], t) ==>
      var mine := Mine(PartIds(t), trace[k].client.inbox);
      |mine| == 1 && IsFileMessage(t, HeaderInTime(t, trace[k].processed), mine[0])
  {
    hide ProcessAll, WellFormed, NoClash, FileBytes, PartIds, ChunksRetained, Mine, HeaderInTime, Retained, RawIds,
      WasSent, IsRun, DeliveredOnce;
    var n := trace[k];
    RunKeepsInv(trace, events, max, k);
    ProcessedIdsWereSent(n);
    NoneTwice(n.processed, n.choices);
    forall e | e in n.sent && IsOrdinary(e) ensures DeliveredOnce(n.client.inbox, e) {
      FewAreRemembered(trace, events, max, k, {e.id});
      DeliveredExactlyOnceIff(trace, events, max, k, e);
    }
    forall t | WellFormed(t) && WasSent(n, t)
      ensures
        var mine := Mine(PartIds(t), n.client.inbox);
        |mine| == 1 && IsFileMessage(t, HeaderInTime(t, n.processed), mine[0])
    {
      ChunksAreRetained(t, n.processed, n.choices);
      FileDeliveredExactlyOnce(trace, events, max, k, t);
    }
  }
}
