/**
What processing one message does to the client: what it files in the conversations and the
inbox, and how it changes the chunk buffer and the seen-set.
*/
module ClientRuns {
  import opened Prelude
  import opened Client

  // ----- What one message can change -----

  ghost predicate IsFresh(s: ClientState, raw: Raw) { raw.Parsed? && raw.envelope.id !in s.seen }

  ghost predicate IsOpened(s: ClientState, raw: Raw) { IsFresh(s, raw) && raw.envelope.plaintext.Some? }

  /** The part of the state a user sees: conversations and inbox. */
  datatype Book = Book(conversations: map<Address, Conversation>, inbox: seq<CipherMessage>)

  function BookOf(s: ClientState): Book { Book(s.conversations, s.inbox) }

  function MessageIdsOf(b: Book, peer: Address): seq<MessageId> { ConversationOf(b.conversations, peer).messageIds }

  function UnreadOf(b: Book, peer: Address): nat { ConversationOf(b.conversations, peer).unread }

  function StatusOf(b: Book, peer: Address, id: MessageId): Option<DeliveryStatus> {
    var statuses := ConversationOf(b.conversations, peer).statuses;
    if id in statuses then Some(statuses[id]) else None
  }

  /** `c` is `b` with `msg` filed as unread under `peer`. */
  ghost predicate Files(b: Book, c: Book, peer: Address, msg: CipherMessage) {
    && c.inbox == b.inbox + [msg]
    && forall p ::
      && MessageIdsOf(c, p) == (if p == peer then MessageIdsOf(b, p) + [msg.id] else MessageIdsOf(b, p))
      && UnreadOf(c, p) == (if p == peer then (UnreadOf(b, p) + 1) % U32_BOUND else UnreadOf(b, p))
  }

  ghost predicate FilesNothing(b: Book, c: Book) {
    && c.inbox == b.inbox
    && forall p :: MessageIdsOf(c, p) == MessageIdsOf(b, p) && UnreadOf(c, p) == UnreadOf(b, p)
  }

  /** The message a chunk or header completes, if it completes one. */
  function Completed(s: ClientState, e: Envelope): Option<CipherMessage>
    requires e.plaintext.Some?
  {
    if e.msgType.FileChunk? then
      var f, total := e.msgType.fileId, e.msgType.totalChunks;
      var known := if f in s.chunkBuffer then s.chunkBuffer[f] else ChunkAssembly(e.sender, total, map[], None);
      var chunks := known.chunks[e.msgType.chunkIndex := e.plaintext.value.bytes];
      var data := Assemble(chunks, total);
      if |chunks| != total then None
      else if known.header.Some? then Some(known.header.value.(payload := data))
      else Some(CipherMessage(e.id, known.sender, File(SyntheticMetadata(f, data, total)), data))
    else if e.msgType.File? && e.plaintext.value.fileRef.Some? && e.plaintext.value.fileRef.value in s.chunkBuffer then
      var known := s.chunkBuffer[e.plaintext.value.fileRef.value];
      if known.totalChunks == 0 || |known.chunks| != known.totalChunks then None
      else Some(Opened(e).(payload := Assemble(known.chunks, known.totalChunks)))
    else None
  }

  predicate IsPart(e: Envelope) {
    e.plaintext.Some? && (e.msgType.FileChunk? || (e.msgType.File? && e.plaintext.value.fileRef.Some?))
  }

  function PartOf(e: Envelope): string
    requires IsPart(e)
  {
    if e.msgType.FileChunk? then e.msgType.fileId else e.plaintext.value.fileRef.value
  }

  predicate IsInternal(e: Envelope) { e.msgType.Receipt? || e.msgType.Presence? || e.msgType.CallMedia? }

  /** What processing a raw message delivers to the inbox. */
  function Delivery(s: ClientState, raw: Raw): Option<CipherMessage> {
    if raw.Garbage? || raw.envelope.id in s.seen || raw.envelope.plaintext.None? || IsInternal(raw.envelope) then None
    else if IsPart(raw.envelope) then Completed(s, raw.envelope)
    else Some(Opened(raw.envelope))
  }

  lemma {:induction false} PushFiles(s: ClientState, peer: Address, msg: CipherMessage)
    ensures Files(BookOf(s), BookOf(Push(s, peer, msg)), peer, msg)
  {
  }

  /** Every raw message files exactly what it delivers, under its own sender, and nothing else. */
  lemma {:induction false} ProcessFiles(s: ClientState, raw: Raw, pruned: set<MessageId>)
    ensures
      var t := Process(s, raw, pruned);
      match Delivery(s, raw)
      case Some(msg) => Files(BookOf(s), BookOf(t), raw.envelope.sender, msg)
      case None => FilesNothing(BookOf(s), BookOf(t))
  {
    hide AcceptPart, Push, Completed, Files, FilesNothing;
    if Dispatched(s, raw) {
      var e := raw.envelope;
      var touched := Touched(s, e, pruned);
      DispatchedTo(s, raw, pruned);
      if IsPart(e) {
        PartFiles(touched, e);
        CompletedSame(s, touched, e);
        TouchedFiles(s, e, pruned, AcceptPart(touched, e), Completed(s, e));
      } else if e.msgType.Receipt? || e.msgType.Presence? {
        InternalFiles(s, e, pruned);
      } else {
        PushFiles(touched, e.sender, Opened(e));
        TouchedFiles(s, e, pruned, Push(touched, e.sender, Opened(e)), Some(Opened(e)));
        FilesBook(s, Push(touched, e.sender, Opened(e)), Process(s, raw, pruned), e, Some(Opened(e)));
      }
    } else {
      NotDispatched(s, raw, pruned);
    }
  }

  lemma {:induction false} ProcessInbox(s: ClientState, raw: Raw, pruned: set<MessageId>)
    ensures Process(s, raw, pruned).inbox ==
      s.inbox + (if Delivery(s, raw).Some? then [Delivery(s, raw).value] else [])
  {
    hide Process, Delivery;
    ProcessFiles(s, raw, pruned);
  }

  /** Reaches the point where its type decides what happens. */
  predicate Dispatched(s: ClientState, raw: Raw) {
    raw.Parsed? && raw.envelope.id !in s.seen && raw.envelope.plaintext.Some? && raw.envelope.msgType != CallMedia
  }

  function AcceptPart(s: ClientState, e: Envelope): ClientState
    requires IsPart(e)
  {
    if e.msgType.FileChunk? then AcceptChunk(s, e, e.msgType.fileId, e.msgType.chunkIndex, e.msgType.totalChunks)
    else AcceptHeader(s, e, PartOf(e))
  }

  lemma {:induction false} DispatchedTo(s: ClientState, raw: Raw, pruned: set<MessageId>)
    requires Dispatched(s, raw)
    ensures
      var e := raw.envelope;
      var touched := Touched(s, e, pruned);
      Process(s, raw, pruned) ==
        if IsPart(e) then AcceptPart(touched, e)
        else if e.msgType.Receipt? then AcceptReceipt(touched, e.msgType.kind, e.plaintext.value.receiptRef)
        else if e.msgType.Presence? then touched.(presence := s.presence[e.sender := e.msgType.info])
        else Acknowledge(Push(touched, e.sender, Opened(e)), e.sender, e.id)
  {
    hide AcceptChunk, AcceptHeader, AcceptReceipt, Push;
  }

  lemma {:induction false} NotDispatched(s: ClientState, raw: Raw, pruned: set<MessageId>)
    requires !Dispatched(s, raw)
    ensures FilesNothing(BookOf(s), BookOf(Process(s, raw, pruned)))
    ensures Delivery(s, raw).None? && BufferAfter(s, raw) == s.chunkBuffer == Process(s, raw, pruned).chunkBuffer
    ensures Process(s, raw, pruned).seen ==
      if raw.Garbage? || raw.envelope.id in s.seen then s.seen else Remember(s.seen, raw.envelope.id, pruned)
  {
    hide AcceptReceipt, AcceptChunk, AcceptHeader, Push, Acknowledge, Remember, Opened;
  }

  /** Creating the sender's conversation files nothing. */
  lemma {:induction false} TouchedFiles(s: ClientState, e: Envelope, pruned: set<MessageId>, t: ClientState,
      d: Option<CipherMessage>)
    requires
      var touched := Touched(s, e, pruned);
      match d
      case Some(msg) => Files(BookOf(touched), BookOf(t), e.sender, msg)
      case None => FilesNothing(BookOf(touched), BookOf(t))
    ensures
      match d
      case Some(msg) => Files(BookOf(s), BookOf(t), e.sender, msg)
      case None => FilesNothing(BookOf(s), BookOf(t))
  {
  }

  lemma {:induction false} FilesBook(s: ClientState, t: ClientState, u: ClientState, e: Envelope,
      d: Option<CipherMessage>)
    requires BookOf(t) == BookOf(u) && d.Some? && Files(BookOf(s), BookOf(t), e.sender, d.value)
    ensures Files(BookOf(s), BookOf(u), e.sender, d.value)
  {
  }

  lemma {:induction false} InternalFiles(s: ClientState, e: Envelope, pruned: set<MessageId>)
    requires Dispatched(s, Parsed(e)) && (e.msgType.Receipt? || e.msgType.Presence?)
    ensures FilesNothing(BookOf(s), BookOf(Process(s, Parsed(e), pruned)))
  {
    hide Process, AcceptReceipt;
    var touched := Touched(s, e, pruned);
    DispatchedTo(s, Parsed(e), pruned);
    if e.msgType.Receipt? {
      ReceiptFiles(touched, e.msgType.kind, e.plaintext.value.receiptRef);
    }
    TouchedFiles(s, e, pruned, Process(s, Parsed(e), pruned), None);
  }

  lemma {:induction false} ReceiptFiles(s: ClientState, kind: ReceiptType, ref: Option<MessageId>)
    ensures FilesNothing(BookOf(s), BookOf(AcceptReceipt(s, kind, ref)))
  {
  }

  /** The assembly a chunk or header leads to. */
  function Assembled(s: ClientState, e: Envelope): ChunkAssembly
    requires IsPart(e)
  {
    var f := PartOf(e);
    var total := if e.msgType.FileChunk? then e.msgType.totalChunks else 0;
    var known := if f in s.chunkBuffer then s.chunkBuffer[f] else ChunkAssembly(e.sender, total, map[], None);
    if e.msgType.FileChunk? then known.(chunks := known.chunks[e.msgType.chunkIndex := e.plaintext.value.bytes])
    else known.(header := Some(Opened(e)))
  }

  /** A part is put into the buffer, or completes its file, which is then filed. */
  lemma {:induction false} PartOutcome(s: ClientState, e: Envelope)
    requires IsPart(e)
    ensures
      var t := AcceptPart(s, e);
      match Completed(s, e)
      case None => t == s.(chunkBuffer := s.chunkBuffer[PartOf(e) := Assembled(s, e)])
      case Some(msg) =>
        t == Push(s.(chunkBuffer := s.chunkBuffer - {PartOf(e)}), e.sender, msg).(receiptsSent := t.receiptsSent)
  {
    hide Push, Assemble, SyntheticMetadata;
    if e.msgType.FileChunk? {
      ChunkOutcome(s, e);
    }
  }

  lemma {:induction false} ChunkOutcome(s: ClientState, e: Envelope)
    requires IsPart(e) && e.msgType.FileChunk?
    ensures
      var t := AcceptPart(s, e);
      match Completed(s, e)
      case None => t == s.(chunkBuffer := s.chunkBuffer[PartOf(e) := Assembled(s, e)])
      case Some(msg) =>
        t == Push(s.(chunkBuffer := s.chunkBuffer - {PartOf(e)}), e.sender, msg).(receiptsSent := t.receiptsSent)
  {
    hide Push, Assemble, SyntheticMetadata;
  }

  lemma {:induction false} PartFiles(s: ClientState, e: Envelope)
    requires IsPart(e)
    ensures
      match Completed(s, e)
      case Some(msg) => Files(BookOf(s), BookOf(AcceptPart(s, e)), e.sender, msg)
      case None => FilesNothing(BookOf(s), BookOf(AcceptPart(s, e)))
  {
    hide AcceptPart, Push, Completed, Assembled, Files;
    PartOutcome(s, e);
    if Completed(s, e).Some? {
      PushFiles(s.(chunkBuffer := s.chunkBuffer - {PartOf(e)}), e.sender, Completed(s, e).value);
    }
  }

  /** The state in which an opened message is dispatched: its id remembered, its sender's
      conversation present. */
  function Touched(s: ClientState, e: Envelope, pruned: set<MessageId>): ClientState {
    s.(seen := Remember(s.seen, e.id, pruned),
       conversations := s.conversations[e.sender := ConversationOf(s.conversations, e.sender)])
  }

  lemma {:induction false} CompletedSame(s: ClientState, t: ClientState, e: Envelope)
    requires e.plaintext.Some? && s.chunkBuffer == t.chunkBuffer
    ensures Completed(s, e) == Completed(t, e)
  {
  }

  // ----- The chunk buffer -----

  function BufferAfter(s: ClientState, raw: Raw): map<string, ChunkAssembly> {
    if raw.Garbage? || raw.envelope.id in s.seen || !IsPart(raw.envelope) then s.chunkBuffer
    else if Completed(s, raw.envelope).Some? then s.chunkBuffer - {PartOf(raw.envelope)}
    else s.chunkBuffer[PartOf(raw.envelope) := Assembled(s, raw.envelope)]
  }

  lemma {:induction false} PushBuffers(s: ClientState, peer: Address, msg: CipherMessage)
    ensures Push(s, peer, msg).chunkBuffer == s.chunkBuffer && Push(s, peer, msg).seen == s.seen
  {
  }

  /** The seen-set and the chunk buffer after a message. */
  lemma {:induction false} ProcessBuffers(s: ClientState, raw: Raw, pruned: set<MessageId>)
    ensures Process(s, raw, pruned).chunkBuffer == BufferAfter(s, raw)
    ensures Process(s, raw, pruned).seen ==
      if raw.Garbage? || raw.envelope.id in s.seen then s.seen else Remember(s.seen, raw.envelope.id, pruned)
  {
    hide AcceptPart, Push, Completed, Process, Delivery, Assembled;
    if Dispatched(s, raw) {
      var e := raw.envelope;
      var touched := Touched(s, e, pruned);
      DispatchedTo(s, raw, pruned);
      if IsPart(e) {
        CompletedSame(s, touched, e);
        AssembledSame(s, touched, e);
        PartBuffers(touched, e);
      } else {
        PushBuffers(touched, e.sender, Opened(e));
      }
    } else {
      NotDispatched(s, raw, pruned);
    }
  }

  lemma {:induction false} AssembledSame(s: ClientState, t: ClientState, e: Envelope)
    requires IsPart(e) && s.chunkBuffer == t.chunkBuffer
    ensures Assembled(s, e) == Assembled(t, e)
  {
  }

  lemma {:induction false} PartBuffers(s: ClientState, e: Envelope)
    requires IsPart(e)
    ensures AcceptPart(s, e).chunkBuffer ==
      if Completed(s, e).Some? then s.chunkBuffer - {PartOf(e)} else s.chunkBuffer[PartOf(e) := Assembled(s, e)]
    ensures AcceptPart(s, e).seen == s.seen
  {
    hide AcceptPart, Push, Completed, Assembled;
    PartOutcome(s, e);
    if Completed(s, e).Some? {
      PushBuffers(s.(chunkBuffer := s.chunkBuffer - {PartOf(e)}), e.sender, Completed(s, e).value);
    }
  }

  // ----- What else one message changes -----

  lemma {:induction false} PushRest(s: ClientState, peer: Address, msg: CipherMessage)
    ensures
      var t := Push(s, peer, msg);
      && t.media == s.media && t.presence == s.presence && t.sentLog == s.sentLog
      && t.conversations.Keys == s.conversations.Keys + {peer}
  {
  }

  lemma {:induction false} PartRest(s: ClientState, e: Envelope)
    requires IsPart(e) && e.sender in s.conversations
    ensures
      var t := AcceptPart(s, e);
      && t.media == s.media && t.presence == s.presence && t.sentLog == s.sentLog
      && t.conversations.Keys == s.conversations.Keys
  {
    hide AcceptPart, Push, Completed, Assembled;
    PartOutcome(s, e);
    if Completed(s, e).Some? {
      PushRest(s.(chunkBuffer := s.chunkBuffer - {PartOf(e)}), e.sender, Completed(s, e).value);
    }
  }

  /** A call's media goes to the media stream and nowhere else; a presence message sets its
      sender's presence; every other message that opens leaves both alone.  Each but media
      makes its sender a conversation, and none touches the sent log. */
  lemma {:induction false} ProcessRest(s: ClientState, raw: Raw, pruned: set<MessageId>)
    ensures
      var t := Process(s, raw, pruned);
      var opens := IsOpened(s, raw);
      && t.sentLog == s.sentLog
      && t.media == s.media +
        (if opens && raw.envelope.msgType == CallMedia then [raw.envelope.plaintext.value.bytes] else [])
      && t.presence ==
        (if opens && raw.envelope.msgType.Presence? then s.presence[raw.envelope.sender := raw.envelope.msgType.info]
         else s.presence)
      && t.conversations.Keys ==
        s.conversations.Keys + (if opens && raw.envelope.msgType != CallMedia then {raw.envelope.sender} else {})
  {
    hide AcceptPart, Push, AcceptReceipt, Process, Touched;
    if Dispatched(s, raw) {
      var e := raw.envelope;
      var touched := Touched(s, e, pruned);
      TouchedRest(s, e, pruned);
      DispatchedTo(s, raw, pruned);
      if IsPart(e) {
        PartRest(touched, e);
      } else if e.msgType.Receipt? {
        ReceiptRest(touched, e.msgType.kind, e.plaintext.value.receiptRef);
      } else if !e.msgType.Presence? {
        PushRest(touched, e.sender, Opened(e));
      }
    } else {
      IgnoredRest(s, raw, pruned);
    }
  }

  lemma {:induction false} IgnoredRest(s: ClientState, raw: Raw, pruned: set<MessageId>)
    requires !Dispatched(s, raw)
    ensures
      var t := Process(s, raw, pruned);
      && t.sentLog == s.sentLog && t.presence == s.presence && t.conversations == s.conversations
      && t.media == s.media + if IsOpened(s, raw) then [raw.envelope.plaintext.value.bytes] else []
  {
    hide AcceptReceipt, AcceptChunk, AcceptHeader, Push, Acknowledge, Remember, Opened;
  }

  lemma {:induction false} TouchedRest(s: ClientState, e: Envelope, pruned: set<MessageId>)
    ensures
      var t := Touched(s, e, pruned);
      && t.media == s.media && t.presence == s.presence && t.sentLog == s.sentLog
      && t.conversations.Keys == s.conversations.Keys + {e.sender}
  {
  }

  lemma {:induction false} ReceiptRest(s: ClientState, kind: ReceiptType, ref: Option<MessageId>)
    ensures
      var t := AcceptReceipt(s, kind, ref);
      && t.media == s.media && t.presence == s.presence && t.sentLog == s.sentLog
      && t.conversations.Keys == s.conversations.Keys
  {
  }
}
