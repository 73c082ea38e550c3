/** Sending a file: `send_file` of swarm_client.rs, on the outbox of the transport. */
module Sending {
  import opened Prelude
  import opened Client
  import opened Outbox
  import opened FileDelivery
  import Chunker

  const FILE_CHUNK_SIZE := 2 * 1024 * 1024

  /** What identifies one call: addresses, names, the file id and the message ids drawn for
      the header (position 0) and the chunks. */
  datatype FileRequest = FileRequest(
    sender: Address,
    recipient: Address,
    fileName: string,
    mimeType: string,
    fileId: string,
    headerText: seq<byte>,
    ids: nat -> MessageId)

  /** At least one chunk is announced, even for an empty file; the number is cast to 32 bits. */
  function AnnouncedChunks(data: seq<byte>): nat {
    var n := |Chunker.Pieces(data, FILE_CHUNK_SIZE)|;
    (if n < 1 then 1 else n) % U32_BOUND
  }

  function HeaderOf(r: FileRequest, data: seq<byte>): Envelope {
    Envelope(r.ids(0), r.sender, r.recipient,
             File(FileMetadata(r.fileName, r.mimeType, |data|, AnnouncedChunks(data), DigestOf(data))),
             Some(Plaintext(r.headerText, Some(r.fileId), None)))
  }

  function ChunkOf(r: FileRequest, data: seq<byte>, i: nat, piece: seq<byte>): Envelope {
    Envelope(r.ids(i + 1), r.sender, r.recipient, FileChunk(r.fileId, i % U32_BOUND, AnnouncedChunks(data)),
             Some(Plaintext(piece, None, None)))
  }

  function TransferOf(r: FileRequest, data: seq<byte>): Transfer {
    var pieces := Chunker.Pieces(data, FILE_CHUNK_SIZE);
    Transfer(r.fileId, HeaderOf(r, data),
             seq(|pieces|, i requires 0 <= i < |pieces| => ChunkOf(r, data, i, pieces[i])))
  }

  function Parts(t: Transfer): seq<Envelope> { [t.header] + t.chunks }

  /** Queueing messages one after the other. */
  function QueueAll(s: OutboxState<Envelope>, recipient: string, messages: seq<Envelope>,
      max: nat): OutboxState<Envelope> {
    if |messages| == 0 then s
    else AfterQueue(QueueAll(s, recipient, messages[..|messages| - 1], max), recipient, messages[|messages| - 1], max)
  }

  lemma {:induction false} QueueAfterOne(s: OutboxState<Envelope>, recipient: string, m: Envelope, max: nat)
    ensures QueueOf(AfterQueue(s, recipient, m, max).pending, recipient)
        == Enqueued(QueueOf(s.pending, recipient), recipient, m, max)
  {
  }

  /** Queueing on a full queue changes nothing more. */
  lemma {:induction false} FullStays(s: OutboxState<Envelope>, recipient: string, m: Envelope, m': Envelope, max: nat)
    requires |QueueOf(s.pending, recipient)| >= max
    ensures AfterQueue(AfterQueue(s, recipient, m, max), recipient, m', max) == AfterQueue(s, recipient, m, max)
  {
  }

  /** The messages queued for `recipient` are as many of the given ones, in order, as fit. */
  lemma {:induction false} QueueAllSpec(s: OutboxState<Envelope>, recipient: string, messages: seq<Envelope>, max: nat)
    requires |messages| > 0
    ensures
      var before := QueueOf(s.pending, recipient);
      var after := QueueOf(QueueAll(s, recipient, messages, max).pending, recipient);
      var room := if |before| >= max then 0 else max - |before|;
      var taken := if |messages| <= room then messages else messages[..room];
      && |after| == |before| + |taken|
      && after[..|before|] == before
      && (forall i :: 0 <= i < |taken| ==> after[|before| + i] == Outbox.Queued.Queued(taken[i], recipient, 0))
  {
    hide AfterQueue, QueueOf;
    var n := |messages| - 1;
    var earlier := QueueAll(s, recipient, messages[..n], max);
    QueueAfterOne(earlier, recipient, messages[n], max);
    if n > 0 {
      QueueAllSpec(s, recipient, messages[..n], max);
    }
  }

  lemma {:induction false} QueueAllStops(s: OutboxState<Envelope>, recipient: string, messages: seq<Envelope>,
      n: nat, max: nat)
    requires n < |messages|
    requires |QueueOf(QueueAll(s, recipient, messages[..n], max).pending, recipient)| >= max
    ensures QueueAll(s, recipient, messages, max) == QueueAll(s, recipient, messages[..n + 1], max)
    decreases |messages|
  {
    hide AfterQueue, QueueOf;
    var m := |messages| - 1;
    if n == m {
      assert messages[..n + 1] == messages;
    } else {
      assert messages[..m][..n] == messages[..n] && messages[..m][..n + 1] == messages[..n + 1];
      QueueAllStops(s, recipient, messages[..m], n, max);
      assert messages[..n + 1][..n] == messages[..n];
      FullStays(QueueAll(s, recipient, messages[..n], max), recipient, messages[n], messages[m], max);
    }
  }

  /** Queues the header, which is then logged as sent, and every chunk, until one does not fit. */
  method QueueParts(client: SwarmClient, transport: DirectTransport<Envelope>, r: FileRequest, data: seq<byte>)
    returns (fits: bool)
    modifies client`sentLog, transport`pending
    ensures transport.Outgoing() ==
      QueueAll(old(transport.Outgoing()), r.recipient, Parts(TransferOf(r, data)), transport.maxStoredMessages)
    ensures fits ==
      (|QueueOf(old(transport.pending), r.recipient)| + |Parts(TransferOf(r, data))| <= transport.maxStoredMessages)
    ensures client.State() ==
      if |QueueOf(old(transport.pending), r.recipient)| < transport.maxStoredMessages
      then AfterLog(old(client.State()), HeaderOf(r, data)) else old(client.State())
  {
    hide TransferOf, Parts;
    ghost var start := transport.Outgoing();
    ghost var parts := Parts(TransferOf(r, data));
    ghost var max := transport.maxStoredMessages;
    FirstParts(r, data);
    QueueOne(start, r.recipient, parts, 0, max);
    var outcome := transport.QueueMessage(r.recipient, HeaderOf(r, data));
    if outcome.Err? {
      QueueAllStops(start, r.recipient, parts, 0, max);
      return false;
    }
    client.LogSent(HeaderOf(r, data));
    var pieces := Chunker.Pieces(data, FILE_CHUNK_SIZE);
    var i := 0;
    while i < |pieces|
      invariant 0 <= i <= |pieces| && |parts| == |pieces| + 1
      invariant transport.Outgoing() == QueueAll(start, r.recipient, parts[..i + 1], max)
      invariant |QueueOf(start.pending, r.recipient)| + i + 1 <= max
      invariant client.State() == AfterLog(old(client.State()), HeaderOf(r, data))
    {
      hide QueueAll, AfterQueue, QueueOf, AfterLog, HeaderOf;
      QueueOne(start, r.recipient, parts, i + 1, max);
      outcome := transport.QueueMessage(r.recipient, ChunkOf(r, data, i, pieces[i]));
      if outcome.Err? {
        QueueAllStops(start, r.recipient, parts, i + 1, max);
        return false;
      }
      i := i + 1;
    }
    assert parts[..i + 1] == parts;
    fits := true;
  }

  lemma {:induction false} FirstParts(r: FileRequest, data: seq<byte>)
    ensures
      var parts := Parts(TransferOf(r, data));
      var pieces := Chunker.Pieces(data, FILE_CHUNK_SIZE);
      && |parts| == |pieces| + 1 && parts[0] == HeaderOf(r, data)
      && (forall i :: 0 <= i < |pieces| ==> parts[i + 1] == ChunkOf(r, data, i, pieces[i]))
      && parts[..0] == []
  {
  }

  /** One more part, and how full the queue is before it. */
  lemma {:induction false} QueueOne(s: OutboxState<Envelope>, recipient: string, parts: seq<Envelope>, i: nat, max: nat)
    requires i < |parts|
    requires i > 0 ==> |QueueOf(s.pending, recipient)| + i <= max
    ensures QueueAll(s, recipient, parts[..i + 1], max)
        == AfterQueue(QueueAll(s, recipient, parts[..i], max), recipient, parts[i], max)
    ensures |QueueOf(QueueAll(s, recipient, parts[..i], max).pending, recipient)| == |QueueOf(s.pending, recipient)| + i
  {
    assert parts[..i + 1][..i] == parts[..i];
    if i > 0 {
      QueueAllSpec(s, recipient, parts[..i], max);
    }
  }

  /** Queues the header and every chunk, flushes, and records the header in the conversation.
      A full queue or a flush that stores nothing ends the call before that; what was queued
      stays, and so does the log entry of a queued header. */
  method SendFile(client: SwarmClient, transport: DirectTransport<Envelope>, r: FileRequest, data: seq<byte>,
      stored: Answers)
    returns (result: Result<MessageId, NetworkError>)
    modifies client`conversations, client`sentLog, transport`pending, transport`deliveredCount
    ensures
      var waiting := |QueueOf(old(transport.pending), r.recipient)|;
      var parts := Parts(TransferOf(r, data));
      var queued := QueueAll(old(transport.Outgoing()), r.recipient, parts, transport.maxStoredMessages);
      var fits := waiting + |parts| <= transport.maxStoredMessages;
      var failed := SumOver(queued.pending.Keys, FailedCount(queued.pending, stored));
      var reached := SumOver(queued.pending.Keys, StoredCount(queued.pending, stored)) > 0 || failed == 0;
      var logged := if waiting < transport.maxStoredMessages
        then AfterLog(old(client.State()), HeaderOf(r, data)) else old(client.State());
      && transport.Outgoing() == (if fits then AfterFlush(queued, stored) else queued)
      && result == (if !fits then Err(OutboxFull) else if !reached then Err(NothingStored(failed)) else Ok(r.ids(0)))
      && client.State() == (if result.Ok? then AfterSend(logged, r.recipient, r.ids(0)) else logged)
  {
    hide AfterFlush, SumOver, QueueAll, AfterLog, AfterSend, HeaderOf, Parts, TransferOf, QueueOf;
    var fits := QueueParts(client, transport, r, data);
    if !fits {
      return Err(OutboxFull);
    }
    var flushed := transport.FlushOutbox(stored);
    if flushed.Err? {
      return Err(flushed.error);
    }
    client.TrackSent(r.recipient, r.ids(0));
    result := Ok(r.ids(0));
  }

  /** Queues one message, logs and records it as sent, and flushes.  Only a full queue is an
      error: the outcome of the flush is ignored, since unsent messages are retried. */
  method SendText(client: SwarmClient, transport: DirectTransport<Envelope>, message: Envelope, stored: Answers)
    returns (result: Result<MessageId, NetworkError>)
    modifies client`conversations, client`sentLog, transport`pending, transport`deliveredCount
    ensures
      var full := |QueueOf(old(transport.pending), message.recipient)| >= transport.maxStoredMessages;
      var queued := AfterQueue(old(transport.Outgoing()), message.recipient, message, transport.maxStoredMessages);
      && result == (if full then Err(OutboxFull) else Ok(message.id))
      && transport.Outgoing() == (if full then queued else AfterFlush(queued, stored))
      && client.State() == (if full then old(client.State())
        else AfterSend(AfterLog(old(client.State()), message), message.recipient, message.id))
  {
    hide AfterFlush, SumOver, AfterLog, AfterSend;
    var outcome := transport.QueueMessage(message.recipient, message);
    if outcome.Err? {
      return Err(outcome.error);
    }
    client.LogSent(message);
    client.TrackSent(message.recipient, message.id);
    var flushed := transport.FlushOutbox(stored);
    result := Ok(message.id);
  }

  // ----- What is sent is a well-formed transfer of the file -----

  /** What the header of a file says, and to whom it goes. */
  lemma {:induction false} SentHeader(r: FileRequest, data: seq<byte>)
    ensures
      var t, h := TransferOf(r, data), TransferOf(r, data).header;
      && t.fileId == r.fileId && |t.chunks| == (|data| + 2_097_151) / 2_097_152
      && h.id == r.ids(0) && h.sender == r.sender && h.recipient == r.recipient
      && h.plaintext == Some(Plaintext(r.headerText, Some(r.fileId), None))
      && h.msgType.File?
      && var m := h.msgType.metadata;
        && m.fileName == r.fileName && m.mimeType == r.mimeType && m.sizeBytes == |data|
        && m.digest == DigestOf(data)
        && m.totalChunks == if |t.chunks| == 0 then 1 else |t.chunks| % 0x1_0000_0000
  {
    hide Chunker.Pieces;
    Chunker.PiecesCount(data, FILE_CHUNK_SIZE);
  }

  /** What each chunk says and holds, and to whom it goes: 2 MiB of the file in turn. */
  lemma {:induction false} SentChunk(r: FileRequest, data: seq<byte>, i: nat)
    requires i < |TransferOf(r, data).chunks|
    ensures
      var t := TransferOf(r, data);
      var c, start := t.chunks[i], 2_097_152 * i;
      var end := if start + 2_097_152 <= |data| then start + 2_097_152 else |data|;
      && c.id == r.ids(i + 1) && c.sender == r.sender && c.recipient == r.recipient
      && start < end <= |data| && c.plaintext == Some(Plaintext(data[start..end], None, None))
      && c.msgType == FileChunk(r.fileId, i % 0x1_0000_0000, |t.chunks| % 0x1_0000_0000)
  {
    hide Chunker.Pieces;
    Chunker.PieceAt(data, FILE_CHUNK_SIZE, i);
  }

  /** For every file, even an empty one or one too long for 32-bit chunk numbers: what is
      sent is a well-formed transfer of its bytes exactly when it has from 1 to 2^32 - 1 chunks. */
  lemma {:induction false} SentTransferIsWellFormedIff(r: FileRequest, data: seq<byte>)
    requires forall i: nat, j: nat :: i < j ==> r.ids(i) != r.ids(j)
    ensures
      var t := TransferOf(r, data);
      && (WellFormed(t) <==> 0 < (|data| + 2_097_151) / 2_097_152 < 0x1_0000_0000)
      && (WellFormed(t) ==> FileBytes(t) == data)
  {
    hide WellFormed, HeaderOf, TransferOf, FileBytes, Chunker.Pieces;
    Chunker.PiecesCount(data, FILE_CHUNK_SIZE);
    var n := |Chunker.Pieces(data, FILE_CHUNK_SIZE)|;
    if 0 < n < U32_BOUND {
      FittingTransfer(r, data);
    } else {
      UnfitTransfer(r, data);
    }
  }

  lemma {:induction false} FittingTransfer(r: FileRequest, data: seq<byte>)
    requires forall i: nat, j: nat :: i < j ==> r.ids(i) != r.ids(j)
    requires 0 < |Chunker.Pieces(data, FILE_CHUNK_SIZE)| < U32_BOUND
    ensures WellFormed(TransferOf(r, data)) && FileBytes(TransferOf(r, data)) == data
  {
    hide IsChunk, FileBytes, Chunker.Pieces, Chunker.Concat;
    var t := TransferOf(r, data);
    forall i: nat | i < |t.chunks| ensures IsChunk(t, t.chunks[i], i) && t.chunks[i].id == r.ids(i + 1) {
      FittingChunk(r, data, i);
    }
    assert WellFormed(t);
    FittingBytes(r, data);
  }

  lemma {:induction false} FittingChunk(r: FileRequest, data: seq<byte>, i: nat)
    requires i < |Chunker.Pieces(data, FILE_CHUNK_SIZE)| < U32_BOUND
    ensures
      var t := TransferOf(r, data);
      && IsChunk(t, t.chunks[i], i) && t.chunks[i].id == r.ids(i + 1)
      && t.chunks[i].plaintext.value.bytes == Chunker.Pieces(data, FILE_CHUNK_SIZE)[i]
  {
    hide Chunker.Pieces;
  }

  lemma {:induction false} FittingBytes(r: FileRequest, data: seq<byte>)
    requires WellFormed(TransferOf(r, data)) && |Chunker.Pieces(data, FILE_CHUNK_SIZE)| < U32_BOUND
    ensures FileBytes(TransferOf(r, data)) == data
  {
    hide WellFormed, IsChunk, HeaderOf, ChunkOf, Chunker.Pieces, Chunker.Concat;
    var t := TransferOf(r, data);
    var pieces := Chunker.Pieces(data, FILE_CHUNK_SIZE);
    forall i: nat | i < |pieces| ensures PieceBytes(t)[i] == pieces[i] {
      FittingChunk(r, data, i);
    }
    assert PieceBytes(t) == pieces;
    Chunker.PiecesConcat(data, FILE_CHUNK_SIZE);
  }

  lemma {:induction false} UnfitTransfer(r: FileRequest, data: seq<byte>)
    requires var n := |Chunker.Pieces(data, FILE_CHUNK_SIZE)|; n == 0 || n >= U32_BOUND
    ensures !WellFormed(TransferOf(r, data))
  {
    hide HeaderOf, Chunker.Pieces;
    var t := TransferOf(r, data);
    if |t.chunks| > 0 {
      assert t.chunks[0].msgType.totalChunks < U32_BOUND;
      assert !IsChunk(t, t.chunks[0], 0);
    }
  }
}
