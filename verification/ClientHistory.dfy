/** Unread counts, conversation records and delivery statuses, against the history of a run. */
module ClientHistory {
  import opened Prelude
  import opened Client
  import opened ClientRuns
  import opened ClientDedup

  datatype Op =
    | Receive(raw: Raw, pruned: set<MessageId>)
    | TakeInbox
    | OpenConversation(peer: Address)                      // mark_read
    | SendTo(recipient: Address, id: MessageId)
    | LogSent(message: Envelope)                           // the sent log

  datatype Entry = Got(msg: CipherMessage) | SentTo(recipient: Address, id: MessageId)

  /** The client with everything it delivered or sent, and the length of that log when each
      conversation was last read. */
  datatype History = History(client: ClientState, log: seq<Entry>, marks: map<Address, nat>)

  function Step(h: History, op: Op): History {
    match op
    case Receive(raw, pruned) =>
      var d := Delivery(h.client, raw);
      h.(client := Process(h.client, raw, pruned), log := if d.Some? then h.log + [Got(d.value)] else h.log)
    case TakeInbox => h.(client := h.client.(inbox := []))
    case OpenConversation(peer) =>
      h.(client := AfterMarkRead(h.client, peer), marks := h.marks[peer := |h.log|])
    case SendTo(recipient, id) =>
      h.(client := AfterSend(h.client, recipient, id), log := h.log + [SentTo(recipient, id)])
    case LogSent(message) => h.(client := AfterLog(h.client, message))
  }

  function Run(ops: seq<Op>): History
    decreases |ops|
  {
    if |ops| == 0 then History(EmptyClient(), [], map[])
    else Step(Run(ops[..|ops| - 1]), ops[|ops| - 1])
  }

  function MarkOf(h: History, peer: Address): nat { if peer in h.marks then h.marks[peer] else 0 }

  /** Number of messages from `peer` delivered at or after position `from` of the log. */
  function CountFrom(log: seq<Entry>, from: nat, peer: Address): nat
    decreases |log|
  {
    if |log| <= from then 0
    else
      var last := log[|log| - 1];
      CountFrom(log[..|log| - 1], from, peer) + if last.Got? && last.msg.sender == peer then 1 else 0
  }

  /** The ids exchanged with `peer`, in order. */
  function IdsWith(log: seq<Entry>, peer: Address): seq<MessageId>
    decreases |log|
  {
    if |log| == 0 then []
    else IdsWith(log[..|log| - 1], peer) + EntryWith(log[|log| - 1], peer)
  }

  function EntryWith(entry: Entry, peer: Address): seq<MessageId> {
    match entry
    case Got(msg) => if msg.sender == peer then [msg.id] else []
    case SentTo(recipient, id) => if recipient == peer then [id] else []
  }

  // ----- Parts of one file come from one sender -----

  ghost predicate PartFrom(senderOf: string -> Address, raw: Raw) {
    raw.Parsed? && IsPart(raw.envelope) ==> raw.envelope.sender == senderOf(PartOf(raw.envelope))
  }

  ghost predicate BufferFrom(senderOf: string -> Address, buffer: map<string, ChunkAssembly>) {
    forall f :: f in buffer ==>
      buffer[f].sender == senderOf(f) && (buffer[f].header.Some? ==> buffer[f].header.value.sender == senderOf(f))
  }

  ghost predicate OneSenderPerFile(senderOf: string -> Address, ops: seq<Op>) {
    forall i :: 0 <= i < |ops| && ops[i].Receive? ==> PartFrom(senderOf, ops[i].raw)
  }

  lemma {:induction false} BufferStaysFrom(senderOf: string -> Address, s: ClientState, raw: Raw)
    requires BufferFrom(senderOf, s.chunkBuffer) && PartFrom(senderOf, raw)
    ensures BufferFrom(senderOf, BufferAfter(s, raw))
    ensures Delivery(s, raw).Some? ==> Delivery(s, raw).value.sender == raw.envelope.sender
  {
    hide Assemble;
  }

  /** The chunk arriving continues a file begun by someone else. */
  predicate ContinuesForeignFile(s: ClientState, raw: Raw) {
    raw.Parsed? && raw.envelope.msgType.FileChunk? && raw.envelope.msgType.fileId in s.chunkBuffer &&
    var a := s.chunkBuffer[raw.envelope.msgType.fileId];
    (if a.header.Some? then a.header.value.sender else a.sender) != raw.envelope.sender
  }

  /** A delivered message is filed under its own sender exactly unless the last chunk came
      from someone other than the one who began the file. */
  lemma {:induction false} FiledUnderOwnSenderIff(s: ClientState, raw: Raw)
    requires Delivery(s, raw).Some?
    ensures Delivery(s, raw).value.sender == raw.envelope.sender <==> !ContinuesForeignFile(s, raw)
  {
    hide Assemble;
  }

  // ----- Unread counts and records -----

  ghost predicate CountsOk(h: History, p: Address) {
    && MarkOf(h, p) <= |h.log|
    && UnreadOf(BookOf(h.client), p) == CountFrom(h.log, MarkOf(h, p), p) % U32_BOUND
    && MessageIdsOf(BookOf(h.client), p) == IdsWith(h.log, p)
  }

  lemma {:induction false} CountSnoc(log: seq<Entry>, entry: Entry, from: nat, p: Address)
    requires from <= |log|
    ensures CountFrom(log + [entry], from, p) ==
      CountFrom(log, from, p) + if entry.Got? && entry.msg.sender == p then 1 else 0
    ensures IdsWith(log + [entry], p) == IdsWith(log, p) + EntryWith(entry, p)
  {
    assert (log + [entry])[..|log|] == log;
  }

  lemma {:induction false} StepCounts(h: History, op: Op, senderOf: string -> Address, p: Address)
    requires CountsOk(h, p)
    requires op.Receive? ==> BufferFrom(senderOf, h.client.chunkBuffer) && PartFrom(senderOf, op.raw)
    ensures CountsOk(Step(h, op), p)
  {
    hide Process, Delivery, CountFrom, IdsWith, AfterMarkRead, AfterSend;
    match op
    case Receive(raw, pruned) =>
      BufferStaysFrom(senderOf, h.client, raw);
      ReceiveCounts(h, raw, pruned, p);
    case TakeInbox =>
    case OpenConversation(peer) =>
      OpenCounts(h, peer, p);
    case SendTo(recipient, id) =>
      SendCounts(h, recipient, id, p);
    case LogSent(message) =>
  }

  lemma {:induction false} OpenCounts(h: History, peer: Address, p: Address)
    requires CountsOk(h, p)
    ensures CountsOk(Step(h, OpenConversation(peer)), p)
  {
    hide CountFrom, IdsWith, MessageIdsOf, UnreadOf, AfterMarkRead;
    NoneYet(h.log, p);
    OpenedBook(h.client, peer, p);
  }

  lemma {:induction false} OpenedBook(s: ClientState, peer: Address, p: Address)
    ensures
      var b, c := BookOf(s), BookOf(AfterMarkRead(s, peer));
      MessageIdsOf(c, p) == MessageIdsOf(b, p) && UnreadOf(c, p) == if p == peer then 0 else UnreadOf(b, p)
  {
  }

  lemma {:induction false} SendCounts(h: History, recipient: Address, id: MessageId, p: Address)
    requires CountsOk(h, p)
    ensures CountsOk(Step(h, SendTo(recipient, id)), p)
  {
    hide CountFrom, IdsWith;
    CountSnoc(h.log, SentTo(recipient, id), MarkOf(h, p), p);
  }

  lemma {:induction false} NoneYet(log: seq<Entry>, p: Address)
    ensures CountFrom(log, |log|, p) == 0
  {
  }

  lemma {:induction false} ReceiveCounts(h: History, raw: Raw, pruned: set<MessageId>, p: Address)
    requires CountsOk(h, p)
    requires Delivery(h.client, raw).Some? ==> Delivery(h.client, raw).value.sender == raw.envelope.sender
    ensures CountsOk(Step(h, Receive(raw, pruned)), p)
  {
    hide Process, Delivery, CountFrom, IdsWith, MessageIdsOf, UnreadOf, Files, FilesNothing;
    var b, c := BookOf(h.client), BookOf(Process(h.client, raw, pruned));
    ProcessFiles(h.client, raw, pruned);
    var d := Delivery(h.client, raw);
    if d.Some? {
      FiledFor(b, c, d.value, p);
      CountSnoc(h.log, Got(d.value), MarkOf(h, p), p);
      ModuloNext(CountFrom(h.log, MarkOf(h, p), p));
    } else {
      NothingFiledFor(b, c, p);
    }
  }

  lemma {:induction false} FiledFor(b: Book, c: Book, msg: CipherMessage, p: Address)
    requires Files(b, c, msg.sender, msg)
    ensures MessageIdsOf(c, p) == MessageIdsOf(b, p) + EntryWith(Got(msg), p)
    ensures UnreadOf(c, p) == if p == msg.sender then (UnreadOf(b, p) + 1) % U32_BOUND else UnreadOf(b, p)
  {
    hide MessageIdsOf, UnreadOf;
    assert MessageIdsOf(b, p) + [] == MessageIdsOf(b, p);
  }

  lemma {:induction false} NothingFiledFor(b: Book, c: Book, p: Address)
    requires FilesNothing(b, c)
    ensures MessageIdsOf(c, p) == MessageIdsOf(b, p) && UnreadOf(c, p) == UnreadOf(b, p)
  {
    hide MessageIdsOf, UnreadOf;
  }

  lemma {:induction false} ModuloNext(n: nat)
    ensures (n % U32_BOUND + 1) % U32_BOUND == (n + 1) % U32_BOUND
  {
  }

  lemma {:induction false} StepBuffer(h: History, op: Op, senderOf: string -> Address)
    requires BufferFrom(senderOf, h.client.chunkBuffer)
    requires op.Receive? ==> PartFrom(senderOf, op.raw)
    ensures BufferFrom(senderOf, Step(h, op).client.chunkBuffer)
  {
    hide Process, Delivery, BufferAfter;
    if op.Receive? {
      ProcessBuffers(h.client, op.raw, op.pruned);
      BufferStaysFrom(senderOf, h.client, op.raw);
    }
  }

  /** In every run of receiving, sending, reading and taking the inbox, when all parts of a
      file come from one sender: a conversation's unread count is, modulo 2^32, the number of
      messages its peer delivered since it was last read, and its record lists exactly the
      ids exchanged with that peer, in order. */
  lemma {:induction false} UnreadCountsDeliveries(ops: seq<Op>, senderOf: string -> Address, p: Address)
    requires OneSenderPerFile(senderOf, ops)
    ensures CountsOk(Run(ops), p)
    ensures BufferFrom(senderOf, Run(ops).client.chunkBuffer)
    decreases |ops|
  {
    hide Step, CountsOk, BufferFrom, PartFrom;
    if |ops| > 0 {
      var n := |ops| - 1;
      assert forall i :: 0 <= i < n ==> ops[..n][i] == ops[i];
      UnreadCountsDeliveries(ops[..n], senderOf, p);
      StepCounts(Run(ops[..n]), ops[n], senderOf, p);
      StepBuffer(Run(ops[..n]), ops[n], senderOf);
    } else {
      NothingCounted(senderOf, p);
    }
  }

  lemma {:induction false} NothingCounted(senderOf: string -> Address, p: Address)
    ensures CountsOk(Run([]), p) && BufferFrom(senderOf, Run([]).client.chunkBuffer)
  {
  }

  // ----- Delivery statuses -----

  /** The receipt for message `id` that an operation brings, if it is not dropped. */
  ghost function ReceiptFor(s: ClientState, op: Op, id: MessageId): Option<ReceiptType> {
    if op.Receive? && IsOpened(s, op.raw) && op.raw.envelope.msgType.Receipt?
       && op.raw.envelope.plaintext.value.receiptRef == Some(id)
    then Some(op.raw.envelope.msgType.kind) else None
  }

  /** The receipts for message `id` that the operations from position `from` on brought. */
  ghost function ReceiptsFrom(ops: seq<Op>, from: nat, id: MessageId): seq<ReceiptType>
    decreases |ops|
  {
    if |ops| <= from then []
    else
      var n := |ops| - 1;
      var r := ReceiptFor(Run(ops[..n]).client, ops[n], id);
      ReceiptsFrom(ops[..n], from, id) + if r.Some? then [r.value] else []
  }

  lemma {:induction false} PushStatus(s: ClientState, peer: Address, msg: CipherMessage, p: Address, id: MessageId)
    ensures StatusOf(BookOf(Push(s, peer, msg)), p, id) == StatusOf(BookOf(s), p, id)
  {
  }

  lemma {:induction false} PartStatus(s: ClientState, e: Envelope, p: Address, id: MessageId)
    requires IsPart(e)
    ensures StatusOf(BookOf(AcceptPart(s, e)), p, id) == StatusOf(BookOf(s), p, id)
  {
    hide AcceptPart, Completed, Assembled, Push;
    PartOutcome(s, e);
    if Completed(s, e).Some? {
      PushStatus(s.(chunkBuffer := s.chunkBuffer - {PartOf(e)}), e.sender, Completed(s, e).value, p, id);
    }
  }

  lemma {:induction false} ReceiptStatus(s: ClientState, kind: ReceiptType, ref: Option<MessageId>, p: Address,
      id: MessageId)
    ensures
      var before := StatusOf(BookOf(s), p, id);
      StatusOf(BookOf(AcceptReceipt(s, kind, ref)), p, id) ==
        if ref == Some(id) && before.Some? then Some(JoinStatus(before.value, kind)) else before
  {
  }

  lemma {:induction false} TouchedStatus(s: ClientState, e: Envelope, pruned: set<MessageId>, p: Address, id: MessageId)
    ensures StatusOf(BookOf(Touched(s, e, pruned)), p, id) == StatusOf(BookOf(s), p, id)
  {
  }

  lemma {:induction false} IgnoredStatus(s: ClientState, raw: Raw, pruned: set<MessageId>, p: Address, id: MessageId)
    requires !Dispatched(s, raw)
    ensures StatusOf(BookOf(Process(s, raw, pruned)), p, id) == StatusOf(BookOf(s), p, id)
  {
  }

  lemma {:induction false} ReceiveStatus(s: ClientState, op: Op, p: Address, id: MessageId)
    requires op.Receive?
    ensures
      var before := StatusOf(BookOf(s), p, id);
      var r := ReceiptFor(s, op, id);
      StatusOf(BookOf(Process(s, op.raw, op.pruned)), p, id) ==
        if r.Some? && before.Some? then Some(JoinStatus(before.value, r.value)) else before
  {
    hide AcceptPart, Push, AcceptReceipt, Process, StatusOf, Touched;
    var raw := op.raw;
    if Dispatched(s, raw) {
      var e := raw.envelope;
      var touched := Touched(s, e, op.pruned);
      TouchedStatus(s, e, op.pruned, p, id);
      DispatchedTo(s, raw, op.pruned);
      if IsPart(e) {
        PartStatus(touched, e, p, id);
      } else if e.msgType.Receipt? {
        ReceiptStatus(touched, e.msgType.kind, e.plaintext.value.receiptRef, p, id);
      } else if !e.msgType.Presence? {
        PushStatus(touched, e.sender, Opened(e), p, id);
      }
    } else {
      IgnoredStatus(s, raw, op.pruned, p, id);
    }
  }

  ghost function JoinAll(status: DeliveryStatus, receipts: seq<ReceiptType>): DeliveryStatus {
    if |receipts| == 0 then status
    else JoinStatus(JoinAll(status, receipts[..|receipts| - 1]), receipts[|receipts| - 1])
  }

  /** Folding receipts in is taking a join: only which receipts came matters, not in which
      order or how often. */
  lemma {:induction false} JoinAllIsJoin(status: DeliveryStatus, receipts: seq<ReceiptType>)
    ensures JoinAll(status, receipts) ==
      if status == Read || ReceiptRead in receipts then Read
      else if ReceiptDelivered in receipts then Delivered
      else status
  {
    if |receipts| > 0 {
      var front, last := receipts[..|receipts| - 1], receipts[|receipts| - 1];
      JoinAllIsJoin(status, front);
      assert receipts == front + [last];
    }
  }

  /** Operation `i` sends message `id`, and none after it sends the same id to the same
      recipient. */
  ghost predicate LastSentAt(ops: seq<Op>, i: nat, recipient: Address, id: MessageId) {
    i < |ops| && ops[i] == SendTo(recipient, id) && forall j :: i < j < |ops| ==> ops[j] != SendTo(recipient, id)
  }

  /** At the end of every run the status of a message sent at any point of it is the join of
      all receipts for it that came afterwards and were not dropped. */
  lemma {:induction false} StatusIsJoinOfReceipts(ops: seq<Op>, i: nat, recipient: Address, id: MessageId)
    requires LastSentAt(ops, i, recipient, id)
    ensures StatusOf(BookOf(Run(ops).client), recipient, id) == Some(JoinAll(Queued, ReceiptsFrom(ops, i + 1, id)))
    decreases |ops|
  {
    hide Step, ReceiptFor, JoinAll;
    var n := |ops| - 1;
    if i < n {
      assert forall j :: 0 <= j < n ==> ops[..n][j] == ops[j];
      StatusIsJoinOfReceipts(ops[..n], i, recipient, id);
      StepStatus(Run(ops[..n]), ops[n], recipient, id);
      JoinOneMore(Queued, ReceiptsFrom(ops[..n], i + 1, id), ReceiptFor(Run(ops[..n]).client, ops[n], id));
    } else {
      SentStatus(Run(ops[..n]), recipient, id);
    }
  }

  lemma {:induction false} JoinOneMore(status: DeliveryStatus, rs: seq<ReceiptType>, r: Option<ReceiptType>)
    ensures JoinAll(status, rs + if r.Some? then [r.value] else []) ==
      if r.Some? then JoinStatus(JoinAll(status, rs), r.value) else JoinAll(status, rs)
  {
    if r.Some? {
      assert (rs + [r.value])[..|rs|] == rs;
    } else {
      assert rs + [] == rs;
    }
  }

  lemma {:induction false} SentStatus(h: History, recipient: Address, id: MessageId)
    ensures StatusOf(BookOf(Step(h, SendTo(recipient, id)).client), recipient, id) == Some(JoinAll(Queued, []))
  {
  }

  lemma {:induction false} StepStatus(h: History, op: Op, p: Address, id: MessageId)
    requires op != SendTo(p, id)
    ensures
      var before := StatusOf(BookOf(h.client), p, id);
      var r := ReceiptFor(h.client, op, id);
      StatusOf(BookOf(Step(h, op).client), p, id) ==
        if r.Some? && before.Some? then Some(JoinStatus(before.value, r.value)) else before
  {
    hide Process, Delivery;
    if op.Receive? {
      ReceiveStatus(h.client, op, p, id);
    }
  }

  function Rank(status: DeliveryStatus): nat {
    match status
    case Read => 2
    case Delivered => 1
    case _ => 0
  }

  /** No operation but sending the message anew moves a status backwards. */
  lemma {:induction false} StatusNeverMovesBack(h: History, op: Op, p: Address, id: MessageId)
    requires op != SendTo(p, id)
    requires StatusOf(BookOf(h.client), p, id).Some?
    ensures StatusOf(BookOf(Step(h, op).client), p, id).Some?
    ensures Rank(StatusOf(BookOf(h.client), p, id).value) <= Rank(StatusOf(BookOf(Step(h, op).client), p, id).value)
  {
    hide Step;
    StepStatus(h, op, p, id);
  }

  ghost predicate SameKinds(rs: seq<ReceiptType>, rs': seq<ReceiptType>) {
    forall kind :: kind in rs <==> kind in rs'
  }

  /** Whatever else two runs do, and wherever in them the message was sent: if the same kinds of
      receipts came for it afterwards, in any order and number, its status is the same. */
  lemma {:induction false} OrderAndRepetitionDoNotMatter(ops: seq<Op>, i: nat, ops': seq<Op>, i': nat,
      recipient: Address, id: MessageId)
    requires LastSentAt(ops, i, recipient, id) && LastSentAt(ops', i', recipient, id)
    requires SameKinds(ReceiptsFrom(ops, i + 1, id), ReceiptsFrom(ops', i' + 1, id))
    ensures StatusOf(BookOf(Run(ops).client), recipient, id) == StatusOf(BookOf(Run(ops').client), recipient, id)
  {
    hide Run, ReceiptsFrom;
    StatusIsJoinOfReceipts(ops, i, recipient, id);
    StatusIsJoinOfReceipts(ops', i', recipient, id);
    JoinAllIsJoin(Queued, ReceiptsFrom(ops, i + 1, id));
    JoinAllIsJoin(Queued, ReceiptsFrom(ops', i' + 1, id));
  }

  // ----- Records, once each -----

  /** The messages a run receives, and the prunings it makes. */
  function RawsOf(ops: seq<Op>): seq<Raw> {
    if |ops| == 0 then []
    else RawsOf(ops[..|ops| - 1]) + if ops[|ops| - 1].Receive? then [ops[|ops| - 1].raw] else []
  }

  function ChoicesOf(ops: seq<Op>): (choices: seq<set<MessageId>>)
    ensures |choices| == |RawsOf(ops)|
  {
    if |ops| == 0 then []
    else ChoicesOf(ops[..|ops| - 1]) + if ops[|ops| - 1].Receive? then [ops[|ops| - 1].pruned] else []
  }

  /** All that a run delivered to the inbox, taken out of it or not. */
  function Deliveries(log: seq<Entry>): seq<CipherMessage> {
    if |log| == 0 then []
    else Deliveries(log[..|log| - 1]) + if log[|log| - 1].Got? then [log[|log| - 1].msg] else []
  }

  lemma {:induction false} DeliveriesSnoc(log: seq<Entry>, entry: Entry)
    ensures Deliveries(log + [entry]) == Deliveries(log) + if entry.Got? then [entry.msg] else []
  {
    assert (log + [entry])[..|log|] == log;
  }

  /** The part of the state that decides what is delivered. */
  ghost predicate SameIntake(s: ClientState, t: ClientState) { s.seen == t.seen && s.chunkBuffer == t.chunkBuffer }

  lemma {:induction false} IntakeDecides(s: ClientState, t: ClientState, raw: Raw, pruned: set<MessageId>)
    requires SameIntake(s, t)
    ensures Delivery(s, raw) == Delivery(t, raw)
    ensures SameIntake(Process(s, raw, pruned), Process(t, raw, pruned))
  {
    hide Process, Assembled, Completed;
    ProcessBuffers(s, raw, pruned);
    ProcessBuffers(t, raw, pruned);
    if raw.Parsed? && IsPart(raw.envelope) {
      AssembledSame(s, t, raw.envelope);
      CompletedSame(s, t, raw.envelope);
    }
  }

  /** Sending, reading and taking the inbox play no part in what is received: it is remembered,
      buffered and delivered as in the run of its receive operations alone. */
  lemma {:induction false} ReceivingIsSeparate(ops: seq<Op>)
    ensures
      var s := ProcessAll(EmptyClient(), RawsOf(ops), ChoicesOf(ops));
      SameIntake(Run(ops).client, s) && Deliveries(Run(ops).log) == s.inbox
  {
    hide Step, Process;
    if |ops| > 0 {
      var n := |ops| - 1;
      var s := ProcessAll(EmptyClient(), RawsOf(ops[..n]), ChoicesOf(ops[..n]));
      ReceivingIsSeparate(ops[..n]);
      IntakeStep(Run(ops[..n]), ops[n], s);
      var raws, choices := RawsOf(ops), ChoicesOf(ops);
      if ops[n].Receive? {
        assert raws[..|raws| - 1] == RawsOf(ops[..n]) && choices[..|raws| - 1] == ChoicesOf(ops[..n]);
      } else {
        assert raws == RawsOf(ops[..n]) && choices == ChoicesOf(ops[..n]);
      }
    }
  }

  lemma {:induction false} IntakeStep(h: History, op: Op, s: ClientState)
    requires SameIntake(h.client, s) && Deliveries(h.log) == s.inbox
    ensures
      var t := if op.Receive? then Process(s, op.raw, op.pruned) else s;
      SameIntake(Step(h, op).client, t) && Deliveries(Step(h, op).log) == t.inbox
  {
    hide Process, Delivery, Deliveries;
    match op
    case Receive(raw, pruned) =>
      IntakeDecides(h.client, s, raw, pruned);
      ProcessInbox(s, raw, pruned);
      if Delivery(s, raw).Some? {
        DeliveriesSnoc(h.log, Got(Delivery(s, raw).value));
      }
    case SendTo(recipient, id) =>
      DeliveriesSnoc(h.log, SentTo(recipient, id));
    case _ =>
  }

  /** How often message `x` was sent to `peer`. */
  function TimesSent(log: seq<Entry>, peer: Address, x: MessageId): nat {
    if |log| == 0 then 0
    else TimesSent(log[..|log| - 1], peer, x) + if log[|log| - 1] == SentTo(peer, x) then 1 else 0
  }

  function TimesDelivered(inbox: seq<CipherMessage>, peer: Address, x: MessageId): nat {
    if |inbox| == 0 then 0
    else
      var last := inbox[|inbox| - 1];
      TimesDelivered(inbox[..|inbox| - 1], peer, x) + if last.sender == peer && last.id == x then 1 else 0
  }

  lemma {:induction false} EntryCounts(ids: seq<MessageId>, entry: Entry, p: Address, x: MessageId)
    ensures multiset(ids + EntryWith(entry, p))[x] == multiset(ids)[x]
      + (if entry == SentTo(p, x) then 1 else 0)
      + if entry.Got? && entry.msg.sender == p && entry.msg.id == x then 1 else 0
  {
  }

  lemma {:induction false} TimesDeliveredSnoc(inbox: seq<CipherMessage>, msg: CipherMessage, p: Address, x: MessageId)
    ensures TimesDelivered(inbox + [msg], p, x) ==
      TimesDelivered(inbox, p, x) + if msg.sender == p && msg.id == x then 1 else 0
  {
    assert (inbox + [msg])[..|inbox|] == inbox;
  }

  lemma {:induction false} RecordCounts(log: seq<Entry>, p: Address, x: MessageId)
    ensures multiset(IdsWith(log, p))[x] == TimesSent(log, p, x) + TimesDelivered(Deliveries(log), p, x)
  {
    hide EntryWith, TimesDelivered;
    if |log| > 0 {
      var front, last := log[..|log| - 1], log[|log| - 1];
      RecordCounts(front, p, x);
      EntryCounts(IdsWith(front, p), last, p, x);
      if last.Got? {
        TimesDeliveredSnoc(Deliveries(front), last.msg, p, x);
      } else {
        assert Deliveries(log) == Deliveries(front);
      }
    } else {
      NothingDelivered(p, x);
    }
  }

  lemma {:induction false} NothingDelivered(p: Address, x: MessageId)
    ensures TimesDelivered([], p, x) == 0
  {
  }

  ghost predicate WasDelivered(inbox: seq<CipherMessage>, peer: Address, x: MessageId) {
    exists i :: 0 <= i < |inbox| && inbox[i].sender == peer && inbox[i].id == x
  }

  /** Where no id is delivered twice, a message was delivered once or not at all. */
  lemma {:induction false} DeliveredOnceOrNot(inbox: seq<CipherMessage>, peer: Address, x: MessageId)
    requires AllDifferent(inbox)
    ensures TimesDelivered(inbox, peer, x) == if WasDelivered(inbox, peer, x) then 1 else 0
  {
    if |inbox| > 0 {
      var n := |inbox| - 1;
      DeliveredOnceOrNot(inbox[..n], peer, x);
      if i :| 0 <= i < |inbox| && inbox[i].sender == peer && inbox[i].id == x && i < n {
        assert inbox[..n][i] == inbox[i];
      }
      if i :| 0 <= i < n && inbox[..n][i].sender == peer && inbox[..n][i].id == x {
        assert inbox[i].id == x;
      }
    }
  }

  /** In every run of receiving, sending, reading and taking the inbox, when files come from one
      sender each, and every id that came again was still remembered or at most 500 distinct ids
      came: no id is delivered twice, and the record of a conversation holds an id as often as it
      was sent there, and once more if its peer's message with that id was delivered. */
  lemma {:induction false} RecordedOnce(ops: seq<Op>, senderOf: string -> Address, p: Address, x: MessageId)
    requires OneSenderPerFile(senderOf, ops)
    requires Retained(RawIds(RawsOf(ops)), RawsOf(ops), ChoicesOf(ops)) || |RawIds(RawsOf(ops))| <= SEEN_LIMIT
    ensures
      var log := Run(ops).log;
      && AllDifferent(Deliveries(log))
      && multiset(MessageIdsOf(BookOf(Run(ops).client), p))[x] ==
        TimesSent(log, p, x) + if WasDelivered(Deliveries(log), p, x) then 1 else 0
  {
    hide ProcessAll, RawIds, Retained, Run;
    UnreadCountsDeliveries(ops, senderOf, p);
    ReceivingIsSeparate(ops);
    NoneTwice(RawsOf(ops), ChoicesOf(ops));
    RecordCounts(Run(ops).log, p, x);
    DeliveredOnceOrNot(Deliveries(Run(ops).log), p, x);
  }

  // ----- The sent log -----

  /** Operation `i` logs message `x`, and none after it does. */
  ghost predicate LastLoggedAt(ops: seq<Op>, i: nat, x: MessageId) {
    && i < |ops| && ops[i].LogSent? && ops[i].message.id == x
    && forall j :: i < j < |ops| && ops[j].LogSent? ==> ops[j].message.id != x
  }

  /** At the end of every run the log holds, for exactly the ids that were logged, the message
      logged last. */
  lemma {:induction false} SentLogHolds(ops: seq<Op>, x: MessageId)
    ensures x in Run(ops).client.sentLog <==> exists i: nat :: LastLoggedAt(ops, i, x)
    ensures forall i: nat :: LastLoggedAt(ops, i, x) && x in Run(ops).client.sentLog ==>
      Run(ops).client.sentLog[x] == ops[i].message
  {
    if |ops| > 0 {
      var n := |ops| - 1;
      SentLogHolds(ops[..n], x);
      LogStep(Run(ops[..n]), ops[n], x);
      hide Step;
      if ops[n].LogSent? && ops[n].message.id == x {
        assert LastLoggedAt(ops, n, x);
      } else {
        forall i: nat ensures LastLoggedAt(ops, i, x) <==> LastLoggedAt(ops[..n], i, x) {
          assert forall j :: 0 <= j < n ==> ops[..n][j] == ops[j];
        }
      }
    }
  }

  lemma {:induction false} LogStep(h: History, op: Op, x: MessageId)
    ensures
      var before, after := h.client.sentLog, Step(h, op).client.sentLog;
      if op.LogSent? && op.message.id == x then x in after && after[x] == op.message
      else (x in after <==> x in before) && (x in after ==> after[x] == before[x])
  {
    hide Process, Delivery;
    if op.Receive? {
      ProcessRest(h.client, op.raw, op.pruned);
    }
  }

  // ----- Receipts sent -----

  /** A file that completes before its header gets no receipt. */
  predicate CompletesWithoutHeader(s: ClientState, raw: Raw) {
    raw.Parsed? && raw.envelope.msgType.FileChunk? &&
    !(raw.envelope.msgType.fileId in s.chunkBuffer && s.chunkBuffer[raw.envelope.msgType.fileId].header.Some?)
  }

  /** A completed file is acknowledged to whoever sent its first buffered part; anything else to
      its own sender. */
  function AcknowledgedTo(s: ClientState, raw: Raw): Address
    requires raw.Parsed?
  {
    var e := raw.envelope;
    if e.msgType.FileChunk? && e.msgType.fileId in s.chunkBuffer then s.chunkBuffer[e.msgType.fileId].sender
    else e.sender
  }

  /** Every delivery is acknowledged once, under its own id, unless it is a file completed
      without its header; nothing else is acknowledged. */
  lemma {:induction false} ReceiptsFollowDeliveries(s: ClientState, raw: Raw, pruned: set<MessageId>)
    ensures
      var d := Delivery(s, raw);
      Process(s, raw, pruned).receiptsSent == s.receiptsSent +
        if d.Some? && !CompletesWithoutHeader(s, raw) then [ReceiptSent(AcknowledgedTo(s, raw), d.value.id)] else []
  {
    hide AcceptPart, Completed;
    if Dispatched(s, raw) {
      var e := raw.envelope;
      var touched := Touched(s, e, pruned);
      DispatchedTo(s, raw, pruned);
      if IsPart(e) {
        CompletedSame(s, touched, e);
        PartReceipt(touched, e);
      }
    }
  }

  /** When all parts of a file come from one sender, that is the sender of what is delivered. */
  lemma {:induction false} DeliveriesAreAcknowledged(s: ClientState, raw: Raw, pruned: set<MessageId>,
      senderOf: string -> Address)
    requires BufferFrom(senderOf, s.chunkBuffer) && PartFrom(senderOf, raw)
    ensures
      var d := Delivery(s, raw);
      Process(s, raw, pruned).receiptsSent == s.receiptsSent +
        if d.Some? && !CompletesWithoutHeader(s, raw) then [ReceiptSent(d.value.sender, d.value.id)] else []
  {
    hide Process, Delivery, BufferAfter;
    ReceiptsFollowDeliveries(s, raw, pruned);
    BufferStaysFrom(senderOf, s, raw);
    DeliveredOpens(s, raw);
  }

  lemma {:induction false} DeliveredOpens(s: ClientState, raw: Raw)
    ensures Delivery(s, raw).Some? ==> IsOpened(s, raw)
  {
    hide Completed;
  }

  lemma {:induction false} PartReceipt(s: ClientState, e: Envelope)
    requires IsPart(e)
    ensures
      var d := Completed(s, e);
      AcceptPart(s, e).receiptsSent == s.receiptsSent +
        if d.Some? && !CompletesWithoutHeader(s, Parsed(e))
        then [ReceiptSent(AcknowledgedTo(s, Parsed(e)), d.value.id)] else []
  {
    if e.msgType.FileChunk? {
      ChunkReceipt(s, e);
    } else {
      HeaderReceipt(s, e);
    }
  }

  lemma {:induction false} ChunkReceipt(s: ClientState, e: Envelope)
    requires IsPart(e) && e.msgType.FileChunk?
    ensures
      var d := Completed(s, e);
      AcceptPart(s, e).receiptsSent == s.receiptsSent +
        if d.Some? && !CompletesWithoutHeader(s, Parsed(e))
        then [ReceiptSent(AcknowledgedTo(s, Parsed(e)), d.value.id)] else []
  {
    hide Assemble, Push, SyntheticMetadata;
    if Completed(s, e).Some? {
      PushReceipts(s.(chunkBuffer := s.chunkBuffer - {PartOf(e)}), e.sender, Completed(s, e).value);
    }
  }

  lemma {:induction false} HeaderReceipt(s: ClientState, e: Envelope)
    requires IsPart(e) && !e.msgType.FileChunk?
    ensures
      var d := Completed(s, e);
      AcceptPart(s, e).receiptsSent == s.receiptsSent +
        if d.Some? && !CompletesWithoutHeader(s, Parsed(e))
        then [ReceiptSent(AcknowledgedTo(s, Parsed(e)), d.value.id)] else []
  {
    hide Assemble, Push, SyntheticMetadata;
    if Completed(s, e).Some? {
      PushReceipts(s.(chunkBuffer := s.chunkBuffer - {PartOf(e)}), e.sender, Completed(s, e).value);
    }
  }

  lemma {:induction false} PushReceipts(s: ClientState, peer: Address, msg: CipherMessage)
    ensures Push(s, peer, msg).receiptsSent == s.receiptsSent
  {
  }
}
