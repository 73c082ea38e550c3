/**
A file sent as a header and numbered chunks reaches the inbox as exactly one message holding
its bytes, whatever the order, interleaving and repetition in which the parts arrive.
*/
module FileDelivery {
  import opened Prelude
  import opened Client
  import opened ClientRuns
  import opened ClientDedup
  import Chunker

  /** The messages of one file as `send_file` queues them. */
  datatype Transfer = Transfer(fileId: string, header: Envelope, chunks: seq<Envelope>)

  ghost predicate WellFormed(t: Transfer) {
    var n := |t.chunks|;
    && n > 0
    && t.header.plaintext.Some? && t.header.msgType.File?
    && t.header.plaintext.value.fileRef == Some(t.fileId)
    && (forall i :: 0 <= i < n ==> IsChunk(t, t.chunks[i], i))
    && (forall i :: 0 <= i < n ==> t.chunks[i].id != t.header.id)
    && (forall i, j :: 0 <= i < j < n ==> t.chunks[i].id != t.chunks[j].id)
  }

  ghost predicate IsChunk(t: Transfer, e: Envelope, i: nat) {
    e.plaintext.Some? && e.msgType == FileChunk(t.fileId, i, |t.chunks|) && e.sender == t.header.sender
  }

  ghost predicate IsOwn(t: Transfer, e: Envelope) { e == t.header || e in t.chunks }

  ghost function PartIds(t: Transfer): set<MessageId> {
    {t.header.id} + set i | 0 <= i < |t.chunks| :: t.chunks[i].id
  }

  /** Other traffic uses neither the ids nor the file id of the transfer. */
  ghost predicate NoClash(t: Transfer, raw: Raw) {
    raw.Parsed? && !IsOwn(t, raw.envelope) ==>
      && raw.envelope.id !in PartIds(t)
      && (IsPart(raw.envelope) ==> PartOf(raw.envelope) != t.fileId)
  }

  ghost predicate NoClashes(t: Transfer, raws: seq<Raw>) {
    forall i :: 0 <= i < |raws| ==> NoClash(t, raws[i])
  }

  ghost function PieceBytes(t: Transfer): seq<seq<byte>>
    requires WellFormed(t)
  {
    seq(|t.chunks|, i requires 0 <= i < |t.chunks| => t.chunks[i].plaintext.value.bytes)
  }

  ghost function FileBytes(t: Transfer): seq<byte>
    requires WellFormed(t)
  {
    Chunker.Concat(PieceBytes(t))
  }

  // ----- What has arrived -----

  ghost predicate HasHeader(t: Transfer, raws: seq<Raw>) { Parsed(t.header) in raws }

  ghost function Have(t: Transfer, raws: seq<Raw>): set<nat> {
    set i: nat | i < |t.chunks| && Parsed(t.chunks[i]) in raws
  }

  ghost predicate Complete(t: Transfer, raws: seq<Raw>) {
    forall i: nat :: i < |t.chunks| ==> i in Have(t, raws)
  }

  /** At some point the header had arrived while a chunk was still missing. */
  ghost predicate HeaderInTime(t: Transfer, raws: seq<Raw>)
    decreases |raws|
  {
    (HasHeader(t, raws) && !Complete(t, raws)) || (|raws| > 0 && HeaderInTime(t, raws[..|raws| - 1]))
  }

  // ----- Rounds -----

  /** How far a transfer has got: the chunks buffered, whether the header is, and for every
      time all chunks were together, whether the header was there too. */
  datatype Progress = Progress(have: set<nat>, header: bool, rounds: seq<bool>)

  /** A part that was not dropped as a repetition. */
  ghost function Advance(t: Transfer, p: Progress, e: Envelope): Progress {
    if !e.msgType.FileChunk? then p.(header := true)
    else
      var have := p.have + {e.msgType.chunkIndex};
      if |have| == |t.chunks| then Progress({}, false, p.rounds + [p.header]) else p.(have := have)
  }

  /** A part of the transfer arrives and is not dropped. */
  ghost predicate AcceptedPart(t: Transfer, seen: set<MessageId>, raw: Raw) {
    raw.Parsed? && IsOwn(t, raw.envelope) && raw.envelope.id !in seen
  }

  ghost function ProgressOf(t: Transfer, raws: seq<Raw>, choices: seq<set<MessageId>>): Progress
    requires |raws| == |choices|
    decreases |raws|
  {
    if |raws| == 0 then Progress({}, false, [])
    else
      var n := |raws| - 1;
      var p := ProgressOf(t, raws[..n], choices[..n]);
      if AcceptedPart(t, ProcessAll(EmptyClient(), raws[..n], choices[..n]).seen, raws[n])
      then Advance(t, p, raws[n].envelope) else p
  }

  // ----- The invariant -----

  /** The message for the file, under the header's id and with the sender's metadata if the
      header was there; otherwise under the id of a chunk, and with what is known without it. */
  ghost predicate IsFileMessage(t: Transfer, inTime: bool, msg: CipherMessage)
    requires WellFormed(t)
  {
    && msg.payload == FileBytes(t)
    && msg.sender == t.header.sender
    && (inTime ==> msg.id == t.header.id && msg.msgType == t.header.msgType)
    && (!inTime ==> IsChunkId(t, msg.id) && msg.msgType.File? && IsMadeUp(t, msg.msgType.metadata))
  }

  ghost predicate IsChunkId(t: Transfer, id: MessageId) { exists i :: 0 <= i < |t.chunks| && t.chunks[i].id == id }

  ghost predicate IsMadeUp(t: Transfer, m: FileMetadata)
    requires WellFormed(t)
  {
    && m.fileName == "file_" + (if |t.fileId| >= 8 then t.fileId[..8] else t.fileId)
    && m.mimeType == "application/octet-stream"
    && m.sizeBytes == |FileBytes(t)| && m.totalChunks == |t.chunks| && m.digest == NoDigest
  }

  ghost predicate Assembling(t: Transfer, buffer: map<string, ChunkAssembly>, have: set<nat>, header: bool)
    requires WellFormed(t)
  {
    if have == {} && !header then t.fileId !in buffer
    else
      && t.fileId in buffer
      && var a := buffer[t.fileId];
      && a.sender == t.header.sender
      && (a.totalChunks == 0 || a.totalChunks == |t.chunks|)
      && a.header == (if header then Some(Opened(t.header)) else None)
      && a.chunks.Keys == have
      && forall i :: i in have ==> i < |t.chunks| && a.chunks[i] == PieceBytes(t)[i]
  }

  ghost predicate OthersHeld(t: Transfer, s: ClientState) {
    forall g :: HeaderHeld(s, g) && g != t.fileId ==> HeldId(s, g) !in PartIds(t)
  }

  /** The messages of the inbox that carry an id of the transfer, in order. */
  function Mine(ids: set<MessageId>, inbox: seq<CipherMessage>): seq<CipherMessage> {
    if |inbox| == 0 then []
    else
      var n := |inbox| - 1;
      Mine(ids, inbox[..n]) + if inbox[n].id in ids then [inbox[n]] else []
  }

  lemma {:induction false} MineOfDelivery(ids: set<MessageId>, inbox: seq<CipherMessage>, d: Option<CipherMessage>)
    ensures Mine(ids, inbox + (if d.Some? then [d.value] else [])) ==
      Mine(ids, inbox) + if d.Some? && d.value.id in ids then [d.value] else []
  {
    if d.Some? {
      assert (inbox + [d.value])[..|inbox|] == inbox;
    } else {
      assert inbox + [] == inbox;
    }
  }

  /** The transfer's messages are one per round, each with the bytes of the file. */
  ghost predicate OnePerRound(t: Transfer, rounds: seq<bool>, mine: seq<CipherMessage>)
    requires WellFormed(t)
  {
    |mine| == |rounds| && forall k :: 0 <= k < |mine| ==> IsFileMessage(t, rounds[k], mine[k])
  }

  ghost predicate Tracks(t: Transfer, s: ClientState, p: Progress)
    requires WellFormed(t)
  {
    && OthersHeld(t, s)
    && p.have <= Upto(|t.chunks|) && |p.have| < |t.chunks|
    && Assembling(t, s.chunkBuffer, p.have, p.header)
    && OnePerRound(t, p.rounds, Mine(PartIds(t), s.inbox))
  }

  // ----- Counting indices -----

  ghost function Upto(n: nat): (upto: set<nat>)
    ensures forall i: nat :: i in upto <==> i < n
  {
    if n == 0 then {} else Upto(n - 1) + {n - 1}
  }

  lemma {:induction false} UptoSize(n: nat)
    ensures |Upto(n)| == n
  {
    if n > 0 {
      UptoSize(n - 1);
    }
  }

  lemma {:induction false} HaveSize(t: Transfer, raws: seq<Raw>)
    ensures Have(t, raws) <= Upto(|t.chunks|) && |Have(t, raws)| <= |t.chunks|
    ensures Complete(t, raws) <==> |Have(t, raws)| == |t.chunks|
  {
    var have := Have(t, raws);
    UptoSize(|t.chunks|);
    assert Upto(|t.chunks|) == have + (Upto(|t.chunks|) - have);
    assert Complete(t, raws) <==> have == Upto(|t.chunks|);
  }

  // ----- Joining the chunks -----

  lemma {:induction false} AssembleIsConcat(chunks: map<nat, seq<byte>>, pieces: seq<seq<byte>>, n: nat)
    requires n <= |pieces| && forall i: nat :: i < n ==> pieces[i] == if i in chunks then chunks[i] else []
    ensures Assemble(chunks, n) == Chunker.Concat(pieces[..n])
  {
    if n > 0 {
      AssembleIsConcat(chunks, pieces, n - 1);
      Chunker.ConcatSnoc(pieces[..n - 1], pieces[n - 1]);
      assert pieces[..n] == pieces[..n - 1] + [pieces[n - 1]];
    }
  }

  /** A header that comes when the announced number of chunks already waits is delivered at once,
      under its own id and metadata, with the chunks joined by index; a missing index is passed
      over. */
  lemma {:induction false} HeaderCompletes(s: ClientState, e: Envelope, pruned: set<MessageId>, pieces: seq<seq<byte>>)
    requires e.id !in s.seen && e.plaintext.Some? && e.msgType.File? && e.plaintext.value.fileRef.Some?
    requires
      var f := e.plaintext.value.fileRef.value;
      && f in s.chunkBuffer && |s.chunkBuffer[f].chunks| == s.chunkBuffer[f].totalChunks == |pieces| > 0
      && forall i: nat :: i < |pieces| ==>
        pieces[i] == if i in s.chunkBuffer[f].chunks then s.chunkBuffer[f].chunks[i] else []
    ensures
      var t := Process(s, Parsed(e), pruned);
      && t.inbox == s.inbox + [CipherMessage(e.id, e.sender, e.msgType, Chunker.Concat(pieces))]
      && t.chunkBuffer == s.chunkBuffer - {e.plaintext.value.fileRef.value}
  {
    hide Process;
    ProcessInbox(s, Parsed(e), pruned);
    ProcessBuffers(s, Parsed(e), pruned);
    AssembleIsConcat(s.chunkBuffer[e.plaintext.value.fileRef.value].chunks, pieces, |pieces|);
    assert pieces[..|pieces|] == pieces;
  }

  // ----- One more message: dropped, or of other traffic -----

  /** The message delivered, if any, has an id of its own or of another file's header. */
  lemma {:induction false} ForeignDelivery(t: Transfer, s: ClientState, raw: Raw)
    requires WellFormed(t) && OthersHeld(t, s) && NoClash(t, raw)
    requires raw.Parsed? && !IsOwn(t, raw.envelope) && Delivery(s, raw).Some?
    ensures Delivery(s, raw).value.id !in PartIds(t)
  {
    hide Delivery;
    DeliveryId(s, raw);
  }

  lemma {:induction false} ForeignBuffer(t: Transfer, s: ClientState, raw: Raw)
    requires WellFormed(t) && NoClash(t, raw) && (raw.Parsed? ==> !IsOwn(t, raw.envelope))
    ensures t.fileId in BufferAfter(s, raw) <==> t.fileId in s.chunkBuffer
    ensures t.fileId in s.chunkBuffer ==> BufferAfter(s, raw)[t.fileId] == s.chunkBuffer[t.fileId]
  {
    hide Completed, Assembled;
  }

  lemma {:induction false} OthersStayHeld(t: Transfer, s: ClientState, raw: Raw, u: ClientState)
    requires WellFormed(t) && NoClash(t, raw) && OthersHeld(t, s) && u.chunkBuffer == BufferAfter(s, raw)
    ensures OthersHeld(t, u)
  {
    hide BufferAfter, Delivery;
    HeldAfter(s, raw, u);
    if raw.Parsed? && IsPart(raw.envelope) && IsOwn(t, raw.envelope) {
      OwnParts(t, raw.envelope);
    }
  }

  lemma {:induction false} OwnParts(t: Transfer, e: Envelope)
    requires WellFormed(t) && IsOwn(t, e)
    ensures IsPart(e) && PartOf(e) == t.fileId && e.id in PartIds(t)
    ensures e.msgType.FileChunk? ==> e.msgType.chunkIndex < |t.chunks| && e == t.chunks[e.msgType.chunkIndex]
    ensures !e.msgType.FileChunk? ==> e == t.header
  {
    if e != t.header {
      var i :| 0 <= i < |t.chunks| && t.chunks[i] == e;
      assert IsChunk(t, t.chunks[i], i);
    }
  }

  lemma {:induction false} TracksForeign(t: Transfer, s: ClientState, raw: Raw, pruned: set<MessageId>, p: Progress)
    requires WellFormed(t) && NoClash(t, raw) && (raw.Parsed? ==> !IsOwn(t, raw.envelope))
    requires Tracks(t, s, p)
    ensures Tracks(t, Process(s, raw, pruned), p)
  {
    hide Process, Delivery, BufferAfter, IsFileMessage, NoClash, IsOwn, WellFormed, PartIds, OthersHeld, Mine;
    var u := Process(s, raw, pruned);
    ProcessBuffers(s, raw, pruned);
    ProcessInbox(s, raw, pruned);
    OthersStayHeld(t, s, raw, u);
    ForeignBuffer(t, s, raw);
    MineOfDelivery(PartIds(t), s.inbox, Delivery(s, raw));
    if Delivery(s, raw).Some? {
      DeliveryId(s, raw);
      ForeignDelivery(t, s, raw);
    }
  }

  lemma {:induction false} TracksDropped(t: Transfer, s: ClientState, raw: Raw, pruned: set<MessageId>, p: Progress)
    requires WellFormed(t) && raw.Parsed? && raw.envelope.id in s.seen
    requires Tracks(t, s, p)
    ensures Tracks(t, Process(s, raw, pruned), p)
  {
  }

  // ----- One more message: a part that is accepted -----

  lemma {:induction false} TracksHeader(t: Transfer, s: ClientState, pruned: set<MessageId>, p: Progress)
    requires WellFormed(t) && t.header.id !in s.seen && Tracks(t, s, p)
    ensures Tracks(t, Process(s, Parsed(t.header), pruned), p.(header := true))
  {
    hide Process, Delivery, BufferAfter, Completed, Assembling, Mine, PartIds, OthersHeld, OnePerRound;
    var raw := Parsed(t.header);
    var u := Process(s, raw, pruned);
    ProcessBuffers(s, raw, pruned);
    ProcessInbox(s, raw, pruned);
    OthersStayHeld(t, s, raw, u);
    HeaderCompletesNothing(t, s, p);
    HeaderStored(t, s, p);
    assert u.inbox == s.inbox;
  }

  lemma {:induction false} HeaderCompletesNothing(t: Transfer, s: ClientState, p: Progress)
    requires WellFormed(t) && Tracks(t, s, p)
    ensures Delivery(s, Parsed(t.header)).None? && Completed(s, t.header).None?
  {
    hide OnePerRound, Mine, OthersHeld;
    if t.fileId in s.chunkBuffer {
      var a := s.chunkBuffer[t.fileId];
      assert |a.chunks| == |a.chunks.Keys|;
    }
  }

  lemma {:induction false} HeaderStored(t: Transfer, s: ClientState, p: Progress)
    requires WellFormed(t) && t.header.id !in s.seen && Completed(s, t.header).None? && Tracks(t, s, p)
    ensures Assembling(t, BufferAfter(s, Parsed(t.header)), p.have, true)
  {
    hide Completed, OnePerRound, Mine, OthersHeld, PieceBytes;
    OwnParts(t, t.header);
    var a := Assembled(s, t.header);
    assert BufferAfter(s, Parsed(t.header)) == s.chunkBuffer[t.fileId := a];
    if p.have == {} {
      assert a.chunks.Keys == {};
    }
  }

  lemma {:induction false} ChunkAssembled(t: Transfer, s: ClientState, have: set<nat>, header: bool, i: nat)
    requires WellFormed(t) && i < |t.chunks| && have <= Upto(|t.chunks|)
    requires Assembling(t, s.chunkBuffer, have, header)
    ensures IsPart(t.chunks[i]) && PartOf(t.chunks[i]) == t.fileId
    ensures Assembling(t, s.chunkBuffer[t.fileId := Assembled(s, t.chunks[i])], have + {i}, header)
    ensures Assembled(s, t.chunks[i]).chunks.Keys == have + {i}
    ensures Assembled(s, t.chunks[i]).sender == t.header.sender
    ensures Assembled(s, t.chunks[i]).header == if header then Some(Opened(t.header)) else None
  {
    assert IsChunk(t, t.chunks[i], i);
    assert PieceBytes(t)[i] == t.chunks[i].plaintext.value.bytes;
  }

  /** What a chunk completes, in terms of the assembly it leads to. */
  lemma {:induction false} CompletedByChunk(s: ClientState, e: Envelope, total: nat)
    requires IsPart(e) && e.msgType.FileChunk? && e.msgType.totalChunks == total
    ensures
      var a := Assembled(s, e);
      var data := Assemble(a.chunks, total);
      Completed(s, e) ==
        if |a.chunks| != total then None
        else if a.header.Some? then Some(a.header.value.(payload := data))
        else Some(CipherMessage(e.id, a.sender, File(SyntheticMetadata(e.msgType.fileId, data, total)), data))
  {
    hide Assemble, SyntheticMetadata;
  }

  lemma {:induction false} AssembledBytes(t: Transfer, buffer: map<string, ChunkAssembly>, have: set<nat>, header: bool)
    requires WellFormed(t) && have <= Upto(|t.chunks|) && |have| == |t.chunks|
    requires Assembling(t, buffer, have, header)
    ensures t.fileId in buffer && Assemble(buffer[t.fileId].chunks, |t.chunks|) == FileBytes(t)
  {
    var n := |t.chunks|;
    FullSet(have, n);
    AssembleIsConcat(buffer[t.fileId].chunks, PieceBytes(t), n);
    assert PieceBytes(t)[..n] == PieceBytes(t);
  }

  lemma {:induction false} FullSet(have: set<nat>, n: nat)
    requires have <= Upto(n) && |have| == n
    ensures have == Upto(n)
  {
    UptoSize(n);
    assert Upto(n) == have + (Upto(n) - have);
  }

  /** A chunk, new or accepted again, is stored while others are missing, and completes the
      file when none is. */
  lemma {:induction false} TracksChunk(t: Transfer, s: ClientState, pruned: set<MessageId>, p: Progress, i: nat)
    requires WellFormed(t) && i < |t.chunks| && t.chunks[i].id !in s.seen && Tracks(t, s, p)
    ensures IsChunk(t, t.chunks[i], i)
    ensures Tracks(t, Process(s, Parsed(t.chunks[i]), pruned), Advance(t, p, t.chunks[i]))
  {
    hide Process, Completed, Assembled, Assemble, Assembling, IsFileMessage, Mine, OthersHeld;
    var e := t.chunks[i];
    assert IsChunk(t, t.chunks[i], i);
    ChunkFacts(t, s, pruned, p.have, p.header, i);
    MineOfDelivery(PartIds(t), s.inbox, Completed(s, e));
    MoreIndices(p.have, i, |t.chunks|);
    if |p.have + {i}| == |t.chunks| {
      CompletedFile(t, s, p.have, p.header, i);
    }
  }

  lemma {:induction false} MoreIndices(have: set<nat>, i: nat, n: nat)
    requires have <= Upto(n) && i < n
    ensures have + {i} <= Upto(n) && |have + {i}| <= n
  {
    UptoSize(n);
    assert Upto(n) == (have + {i}) + (Upto(n) - (have + {i}));
  }

  lemma {:induction false} ChunkFacts(t: Transfer, s: ClientState, pruned: set<MessageId>, have: set<nat>,
      header: bool, i: nat)
    requires WellFormed(t) && i < |t.chunks| && have <= Upto(|t.chunks|)
    requires t.chunks[i].id !in s.seen && OthersHeld(t, s) && Assembling(t, s.chunkBuffer, have, header)
    ensures
      var e := t.chunks[i];
      var u := Process(s, Parsed(e), pruned);
      var d := Completed(s, e);
      && OthersHeld(t, u)
      && u.inbox == s.inbox + (if d.Some? then [d.value] else [])
      && (d.Some? <==> |have + {i}| == |t.chunks|)
      && (d.None? ==> Assembling(t, u.chunkBuffer, have + {i}, header))
      && (d.Some? ==> Assembling(t, u.chunkBuffer, {}, false))
  {
    hide Process, Completed, Assembled, Assemble, OthersHeld, PartIds;
    var e := t.chunks[i];
    var raw := Parsed(e);
    ChunkAssembled(t, s, have, header, i);
    CompletedByChunk(s, e, |t.chunks|);
    ProcessBuffers(s, raw, pruned);
    ProcessInbox(s, raw, pruned);
    OthersStayHeld(t, s, raw, Process(s, raw, pruned));
    var a := Assembled(s, e);
    assert |a.chunks| == |a.chunks.Keys| == |have + {i}|;
  }

  lemma {:induction false} CompletedFile(t: Transfer, s: ClientState, have: set<nat>, header: bool, i: nat)
    requires WellFormed(t) && i < |t.chunks| && have <= Upto(|t.chunks|) && |have + {i}| == |t.chunks|
    requires Assembling(t, s.chunkBuffer, have, header)
    ensures Completed(s, t.chunks[i]).Some?
    ensures IsFileMessage(t, header, Completed(s, t.chunks[i]).value)
    ensures Completed(s, t.chunks[i]).value.id == if header then t.header.id else t.chunks[i].id
  {
    hide Completed, Assembled, Assemble, Assembling, FileBytes;
    var e := t.chunks[i];
    var a := Assembled(s, e);
    ChunkAssembled(t, s, have, header, i);
    CompletedByChunk(s, e, |t.chunks|);
    AssembledBytes(t, s.chunkBuffer[t.fileId := a], have + {i}, header);
    assert |a.chunks| == |a.chunks.Keys| == |have + {i}|;
  }

  // ----- Whole runs -----

  /** For every run and every pruning: the inbox holds exactly one message of the transfer for
      each time its chunks were all together, each with the bytes of the file, and with the
      sender's metadata exactly when the header was there at that time. */
  lemma {:induction false} OneMessagePerRound(t: Transfer, raws: seq<Raw>, choices: seq<set<MessageId>>)
    requires WellFormed(t) && NoClashes(t, raws) && |raws| == |choices|
    ensures
      var s := ProcessAll(EmptyClient(), raws, choices);
      Tracks(t, s, ProgressOf(t, raws, choices))
    ensures
      var mine := Mine(PartIds(t), ProcessAll(EmptyClient(), raws, choices).inbox);
      OnePerRound(t, ProgressOf(t, raws, choices).rounds, mine)
    decreases |raws|
  {
    hide Process, NoClash, PartIds;
    if |raws| > 0 {
      var n := |raws| - 1;
      OneMessagePerRound(t, raws[..n], choices[..n]);
      assert NoClash(t, raws[n]);
      TracksStep(t, ProcessAll(EmptyClient(), raws[..n], choices[..n]), raws[n], choices[n],
          ProgressOf(t, raws[..n], choices[..n]));
    }
  }

  lemma {:induction false} TracksStep(t: Transfer, s: ClientState, raw: Raw, pruned: set<MessageId>, p: Progress)
    requires WellFormed(t) && NoClash(t, raw) && Tracks(t, s, p)
    ensures Tracks(t, Process(s, raw, pruned), if AcceptedPart(t, s.seen, raw) then Advance(t, p, raw.envelope) else p)
  {
    hide Process, NoClash, PartIds, Tracks, IsOwn;
    if raw.Garbage? || !IsOwn(t, raw.envelope) {
      TracksForeign(t, s, raw, pruned, p);
    } else if raw.envelope.id in s.seen {
      TracksDropped(t, s, raw, pruned, p);
    } else {
      OwnParts(t, raw.envelope);
      if raw.envelope.msgType.FileChunk? {
        TracksChunk(t, s, pruned, p, raw.envelope.msgType.chunkIndex);
      } else {
        TracksHeader(t, s, pruned, p);
      }
    }
  }

  lemma {:induction false} HaveOfLast(t: Transfer, raws: seq<Raw>)
    requires WellFormed(t) && |raws| > 0
    ensures
      var front, last := raws[..|raws| - 1], raws[|raws| - 1];
      && HasHeader(t, raws) == (HasHeader(t, front) || last == Parsed(t.header))
      && (forall i: nat :: i < |t.chunks| ==>
            (i in Have(t, raws) <==> i in Have(t, front) || last == Parsed(t.chunks[i])))
  {
    var front, last := raws[..|raws| - 1], raws[|raws| - 1];
    forall r: Raw ensures r in raws <==> r in front || r == last {
      assert raws == front + [last];
    }
  }

  lemma {:induction false} InTimeMeansArrived(t: Transfer, raws: seq<Raw>)
    requires WellFormed(t) && HeaderInTime(t, raws)
    ensures HasHeader(t, raws)
    decreases |raws|
  {
    if !(HasHeader(t, raws) && !Complete(t, raws)) {
      InTimeMeansArrived(t, raws[..|raws| - 1]);
      HaveOfLast(t, raws);
    }
  }

  /** A part that is already remembered has arrived before. */
  lemma {:induction false} RememberedPart(t: Transfer, raws: seq<Raw>, e: Envelope)
    requires WellFormed(t) && NoClashes(t, raws) && IsOwn(t, e)
    ensures e.id in RawIds(raws) <==> Parsed(e) in raws
  {
    if e.id in RawIds(raws) {
      var i :| 0 <= i < |raws| && raws[i].Parsed? && raws[i].envelope.id == e.id;
      OwnParts(t, e);
      assert NoClash(t, raws[i]);
      OwnParts(t, raws[i].envelope);
    }
  }

  lemma {:induction false} DistinctChunks(t: Transfer, i: nat)
    requires WellFormed(t) && i < |t.chunks|
    ensures forall j: nat :: j < |t.chunks| && t.chunks[j] == t.chunks[i] ==> j == i
    ensures t.chunks[i] != t.header
  {
  }

  lemma {:induction false} TimeAtCompletion(t: Transfer, raws: seq<Raw>)
    requires WellFormed(t) && |raws| > 0 && Complete(t, raws) && !Complete(t, raws[..|raws| - 1])
    requires HasHeader(t, raws) == HasHeader(t, raws[..|raws| - 1])
    ensures HeaderInTime(t, raws) == HasHeader(t, raws[..|raws| - 1])
  {
    if HeaderInTime(t, raws[..|raws| - 1]) {
      InTimeMeansArrived(t, raws[..|raws| - 1]);
    }
  }

  /** Before all chunks have arrived they are all buffered, with the header if it has arrived;
      the first round is when the last chunk arrives. */
  ghost predicate FirstRoundOk(t: Transfer, raws: seq<Raw>, p: Progress) {
    if Complete(t, raws) then |p.rounds| > 0 && p.rounds[0] == HeaderInTime(t, raws)
    else p.rounds == [] && p.have == Have(t, raws) && p.header == HasHeader(t, raws)
  }

  lemma {:induction false} FirstRound(t: Transfer, raws: seq<Raw>, choices: seq<set<MessageId>>)
    requires WellFormed(t) && NoClashes(t, raws) && |raws| == |choices|
    ensures FirstRoundOk(t, raws, ProgressOf(t, raws, choices))
    decreases |raws|
  {
    hide ProcessAll, NoClash, PartIds, WellFormed, IsOwn, HeaderInTime, RawIds, HasHeader, Have, Complete;
    if |raws| == 0 {
      NothingArrived(t, raws);
    } else {
      var n := |raws| - 1;
      FirstRound(t, raws[..n], choices[..n]);
      SeenHasArrived(raws[..n], choices[..n]);
      FirstRoundStep(t, raws, ProcessAll(EmptyClient(), raws[..n], choices[..n]).seen,
          ProgressOf(t, raws[..n], choices[..n]));
    }
  }

  lemma {:induction false} NothingArrived(t: Transfer, raws: seq<Raw>)
    requires WellFormed(t) && raws == []
    ensures !Complete(t, raws) && Have(t, raws) == {} && !HasHeader(t, raws)
  {
    assert 0 !in Have(t, raws);
  }

  lemma {:induction false} ChunkArrives(t: Transfer, raws: seq<Raw>, i: nat)
    requires WellFormed(t) && |raws| > 0 && i < |t.chunks| && raws[|raws| - 1] == Parsed(t.chunks[i])
    ensures
      var front := raws[..|raws| - 1];
      Have(t, raws) == Have(t, front) + {i} && HasHeader(t, raws) == HasHeader(t, front)
  {
    HaveOfLast(t, raws);
    DistinctChunks(t, i);
  }

  lemma {:induction false} HeaderArrives(t: Transfer, raws: seq<Raw>)
    requires WellFormed(t) && |raws| > 0 && raws[|raws| - 1] == Parsed(t.header)
    ensures Have(t, raws) == Have(t, raws[..|raws| - 1]) && HasHeader(t, raws)
  {
    HaveOfLast(t, raws);
  }

  lemma {:induction false} NothingNew(t: Transfer, raws: seq<Raw>)
    requires WellFormed(t) && |raws| > 0
    requires
      var front, last := raws[..|raws| - 1], raws[|raws| - 1];
      last.Parsed? && IsOwn(t, last.envelope) ==> last in front
    ensures
      var front := raws[..|raws| - 1];
      Have(t, raws) == Have(t, front) && HasHeader(t, raws) == HasHeader(t, front)
  {
    HaveOfLast(t, raws);
    var front, last := raws[..|raws| - 1], raws[|raws| - 1];
    assert last !in front ==>
      last != Parsed(t.header) && forall i :: 0 <= i < |t.chunks| ==> last != Parsed(t.chunks[i]);
  }

  lemma {:induction false} StaysComplete(t: Transfer, raws: seq<Raw>)
    requires WellFormed(t) && |raws| > 0 && Complete(t, raws[..|raws| - 1])
    ensures Complete(t, raws) && HeaderInTime(t, raws) == HeaderInTime(t, raws[..|raws| - 1])
  {
    HaveOfLast(t, raws);
  }

  lemma {:induction false} FirstRoundStep(t: Transfer, raws: seq<Raw>, seen: set<MessageId>, p: Progress)
    requires WellFormed(t) && NoClashes(t, raws) && |raws| > 0
    requires
      var front := raws[..|raws| - 1];
      seen <= RawIds(front) && FirstRoundOk(t, front, p)
    ensures
      var last := raws[|raws| - 1];
      FirstRoundOk(t, raws, if AcceptedPart(t, seen, last) then Advance(t, p, last.envelope) else p)
  {
    hide NoClash, PartIds, IsOwn, RawIds, HeaderInTime, Have, HasHeader, Complete, WellFormed;
    var front, last := raws[..|raws| - 1], raws[|raws| - 1];
    HaveSize(t, front);
    HaveSize(t, raws);
    if Complete(t, front) {
      StaysComplete(t, raws);
    } else if AcceptedPart(t, seen, last) {
      OwnParts(t, last.envelope);
      if last.envelope.msgType.FileChunk? {
        ChunkArrives(t, raws, last.envelope.msgType.chunkIndex);
        if Complete(t, raws) {
          TimeAtCompletion(t, raws);
        }
      } else {
        HeaderArrives(t, raws);
      }
    } else {
      if last.Parsed? && IsOwn(t, last.envelope) {
        assert forall i :: 0 <= i < |front| ==> front[i] == raws[i];
        RememberedPart(t, front, last.envelope);
      }
      NothingNew(t, raws);
    }
  }

  /** At least once, for every run and every pruning: the inbox holds a message of the transfer
      as soon as all its chunks have arrived and not before; the first such message carries the
      sender's metadata exactly when the header came before the last chunk. */
  lemma {:induction false} FileArrives(t: Transfer, raws: seq<Raw>, choices: seq<set<MessageId>>)
    requires WellFormed(t) && NoClashes(t, raws) && |raws| == |choices|
    ensures
      var mine := Mine(PartIds(t), ProcessAll(EmptyClient(), raws, choices).inbox);
      if Complete(t, raws) then |mine| > 0 && IsFileMessage(t, HeaderInTime(t, raws), mine[0]) else mine == []
  {
    hide ProcessAll, IsFileMessage, Mine, ProgressOf, HeaderInTime, Complete, NoClashes, Tracks;
    OneMessagePerRound(t, raws, choices);
    FirstRound(t, raws, choices);
  }

  /** Once all chunks of the transfer had arrived, the id of a chunk that came again was still
      remembered. */
  ghost predicate ChunksRetained(t: Transfer, raws: seq<Raw>, choices: seq<set<MessageId>>)
    requires |raws| == |choices|
    decreases |raws|
  {
    |raws| > 0 ==>
      var n := |raws| - 1;
      && ChunksRetained(t, raws[..n], choices[..n])
      && (raws[n].Parsed? && raws[n].envelope in t.chunks && Complete(t, raws[..n]) ==>
            raws[n].envelope.id in ProcessAll(EmptyClient(), raws[..n], choices[..n]).seen)
  }

  lemma {:induction false} OneRound(t: Transfer, raws: seq<Raw>, choices: seq<set<MessageId>>)
    requires WellFormed(t) && NoClashes(t, raws) && |raws| == |choices| && ChunksRetained(t, raws, choices)
    ensures |ProgressOf(t, raws, choices).rounds| <= 1
    decreases |raws|
  {
    hide ProcessAll, NoClash, PartIds, WellFormed, HeaderInTime, HasHeader, Have, Complete;
    if |raws| > 0 {
      var n := |raws| - 1;
      OneRound(t, raws[..n], choices[..n]);
      FirstRound(t, raws[..n], choices[..n]);
      if raws[n].Parsed? && IsOwn(t, raws[n].envelope) {
        OwnParts(t, raws[n].envelope);
      }
    }
  }

  /** Exactly once: for every file, of any number of chunks, and every arrival in which parts
      come in any order, are repeated, and mix with other traffic, if the chunks are remembered
      once the file is complete, then the inbox holds no message of the transfer before all
      chunks have arrived, and exactly one after. */
  lemma {:induction false} FileArrivesExactlyOnce(t: Transfer, raws: seq<Raw>, choices: seq<set<MessageId>>)
    requires WellFormed(t) && NoClashes(t, raws) && |raws| == |choices|
    requires ChunksRetained(t, raws, choices)
    ensures
      var mine := Mine(PartIds(t), ProcessAll(EmptyClient(), raws, choices).inbox);
      if Complete(t, raws) then |mine| == 1 && IsFileMessage(t, HeaderInTime(t, raws), mine[0]) else mine == []
  {
    hide ProcessAll, IsFileMessage, Mine, ProgressOf, HeaderInTime, Complete, NoClashes, Tracks, ChunksRetained;
    FileArrives(t, raws, choices);
    OneMessagePerRound(t, raws, choices);
    OneRound(t, raws, choices);
  }

  /** The chunks are remembered in particular when every repeated part is, and when at most 500
      distinct ids arrive at all. */
  lemma {:induction false} ChunksAreRetained(t: Transfer, raws: seq<Raw>, choices: seq<set<MessageId>>)
    requires WellFormed(t) && |raws| == |choices|
    requires Retained(PartIds(t), raws, choices) || |RawIds(raws)| <= SEEN_LIMIT
    ensures ChunksRetained(t, raws, choices)
    decreases |raws|
  {
    hide ProcessAll, RawIds;
    if |RawIds(raws)| <= SEEN_LIMIT {
      FewIdsAreRetained(PartIds(t), raws, choices);
    }
    if |raws| > 0 {
      var n := |raws| - 1;
      ChunksAreRetained(t, raws[..n], choices[..n]);
      if raws[n].Parsed? && raws[n].envelope in t.chunks && Complete(t, raws[..n]) {
        CompleteHasIds(t, raws[..n], raws[n].envelope);
      }
    }
  }

  lemma {:induction false} CompleteHasIds(t: Transfer, raws: seq<Raw>, e: Envelope)
    requires Complete(t, raws) && e in t.chunks
    ensures e.id in RawIds(raws) && e.id in PartIds(t)
  {
    var i: nat :| i < |t.chunks| && t.chunks[i] == e;
    assert i in Have(t, raws);
  }
}
