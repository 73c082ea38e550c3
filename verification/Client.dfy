/**
The receiving side of the messaging client (`process_incoming` of swarm_client.rs):
deduplication, receipts, presence, reassembly of files sent in chunks, the conversation table
and the inbox.

A message arrives already parsed, with the outcome of its decryption: the plaintext together
with the two JSON fields the client looks for in it.  Message ids are numbers.
*/
module Client {
  import opened Prelude

  type MessageId = nat
  type Address = string

  const SEEN_LIMIT := 500
  const PRUNE_COUNT := 250

  // ----- Messages -----

  datatype ReceiptType = ReceiptDelivered | ReceiptRead

  datatype FileDigest = NoDigest | DigestOf(data: seq<byte>)

  datatype FileMetadata = FileMetadata(
    fileName: string,
    mimeType: string,
    sizeBytes: nat,
    totalChunks: nat,
    digest: FileDigest)

  datatype PresenceInfo = PresenceInfo(isOnline: bool, lastSeen: nat)

  datatype MessageType =
    | Text
    | File(metadata: FileMetadata)
    | Receipt(kind: ReceiptType)
    | CallMedia
    | FileChunk(fileId: string, chunkIndex: nat, totalChunks: nat)
    | Presence(info: PresenceInfo)
    | OtherType(tag: nat)                       // voice, payments, typing, groups, ...

  datatype Plaintext = Plaintext(bytes: seq<byte>, fileRef: Option<string>, receiptRef: Option<MessageId>)

  datatype CipherMessage = CipherMessage(
    id: MessageId,
    sender: Address,
    msgType: MessageType,
    payload: seq<byte>)

  datatype Envelope = Envelope(
    id: MessageId,
    sender: Address,
    recipient: Address,
    msgType: MessageType,
    plaintext: Option<Plaintext>)               // absent when decryption fails

  datatype Raw = Garbage | Parsed(envelope: Envelope)

  /** The message with its payload decrypted. */
  function Opened(e: Envelope): CipherMessage
    requires e.plaintext.Some?
  {
    CipherMessage(e.id, e.sender, e.msgType, e.plaintext.value.bytes)
  }

  // ----- State -----

  datatype DeliveryStatus = Queued | Sent | Delivered | Read | Failed(reason: string)

  datatype Conversation = Conversation(
    messageIds: seq<MessageId>,
    statuses: map<MessageId, DeliveryStatus>,
    unread: nat)

  datatype ChunkAssembly = ChunkAssembly(
    sender: Address,
    totalChunks: nat,
    chunks: map<nat, seq<byte>>,
    header: Option<CipherMessage>)

  datatype ReceiptSent = ReceiptSent(recipient: Address, id: MessageId)

  datatype ClientState = ClientState(
    conversations: map<Address, Conversation>,
    seen: set<MessageId>,
    chunkBuffer: map<string, ChunkAssembly>,
    presence: map<Address, PresenceInfo>,
    inbox: seq<CipherMessage>,
    media: seq<seq<byte>>,
    receiptsSent: seq<ReceiptSent>,
    sentLog: map<MessageId, Envelope>)

  function EmptyClient(): ClientState {
    ClientState(map[], {}, map[], map[], [], [], [], map[])
  }

  function EmptyConversation(): Conversation { Conversation([], map[], 0) }

  function ConversationOf(conversations: map<Address, Conversation>, peer: Address): Conversation {
    if peer in conversations then conversations[peer] else EmptyConversation()
  }

  // ----- One message -----

  /** `pruned` is what a pruning of the seen-set removes: any 250 of its elements. */
  ghost predicate PruneAllowed(seen: set<MessageId>, id: MessageId, pruned: set<MessageId>) {
    |seen + {id}| > SEEN_LIMIT ==> pruned <= seen + {id} && |pruned| == PRUNE_COUNT
  }

  function Remember(seen: set<MessageId>, id: MessageId, pruned: set<MessageId>): set<MessageId> {
    if |seen + {id}| > SEEN_LIMIT then seen + {id} - pruned else seen + {id}
  }

  function Process(s: ClientState, raw: Raw, pruned: set<MessageId>): ClientState {
    if raw.Garbage? || raw.envelope.id in s.seen then s
    else Accept(s.(seen := Remember(s.seen, raw.envelope.id, pruned)), raw.envelope)
  }

  /** A message that is not a duplicate. */
  function Accept(s: ClientState, e: Envelope): ClientState {
    if e.plaintext.None? then s
    else if e.msgType == CallMedia then s.(media := s.media + [e.plaintext.value.bytes])
    else
      var touched := s.(conversations := s.conversations[e.sender := ConversationOf(s.conversations, e.sender)]);
      var plain := e.plaintext.value;
      var kind := e.msgType;
      if kind.Receipt? then AcceptReceipt(touched, kind.kind, plain.receiptRef)
      else if kind.Presence? then touched.(presence := s.presence[e.sender := kind.info])
      else if kind.FileChunk? then AcceptChunk(touched, e, kind.fileId, kind.chunkIndex, kind.totalChunks)
      else if kind.File? && plain.fileRef.Some? then AcceptHeader(touched, e, plain.fileRef.value)
      else Acknowledge(Push(touched, e.sender, Opened(e)), e.sender, e.id)
  }

  /** Records `msg` in the conversation of `peer`, as unread, and puts it in the inbox. */
  function Push(s: ClientState, peer: Address, msg: CipherMessage): ClientState {
    var conv := ConversationOf(s.conversations, peer);
    var recorded := conv.(messageIds := conv.messageIds + [msg.id], unread := (conv.unread + 1) % U32_BOUND);
    s.(conversations := s.conversations[peer := recorded], inbox := s.inbox + [msg])
  }

  function Acknowledge(s: ClientState, recipient: Address, id: MessageId): ClientState {
    s.(receiptsSent := s.receiptsSent + [ReceiptSent(recipient, id)])
  }

  function JoinStatus(status: DeliveryStatus, kind: ReceiptType): DeliveryStatus {
    match kind
    case ReceiptDelivered => if status == Read then Read else Delivered
    case ReceiptRead => Read
  }

  function WithReceipt(conv: Conversation, id: MessageId, kind: ReceiptType): Conversation {
    if id in conv.statuses then conv.(statuses := conv.statuses[id := JoinStatus(conv.statuses[id], kind)]) else conv
  }

  function AcceptReceipt(s: ClientState, kind: ReceiptType, ref: Option<MessageId>): ClientState {
    if ref.None? then s
    else s.(conversations := map p | p in s.conversations :: WithReceipt(s.conversations[p], ref.value, kind))
  }

  /** The chunks 0 to `n` - 1 that are present, joined. */
  function Assemble(chunks: map<nat, seq<byte>>, n: nat): seq<byte> {
    if n == 0 then []
    else Assemble(chunks, n - 1) + if n - 1 in chunks then chunks[n - 1] else []
  }

  /** What is said about a file whose header has not arrived. */
  function SyntheticMetadata(fileId: string, data: seq<byte>, total: nat): FileMetadata {
    FileMetadata("file_" + (if |fileId| > 8 then fileId[..8] else fileId),
                 "application/octet-stream", |data|, total, NoDigest)
  }

  function AcceptChunk(s: ClientState, e: Envelope, fileId: string, index: nat, total: nat): ClientState
    requires e.plaintext.Some?
  {
    var known := if fileId in s.chunkBuffer then s.chunkBuffer[fileId] else ChunkAssembly(e.sender, total, map[], None);
    var assembly := known.(chunks := known.chunks[index := e.plaintext.value.bytes]);
    if |assembly.chunks| != total then s.(chunkBuffer := s.chunkBuffer[fileId := assembly])
    else
      var data := Assemble(assembly.chunks, total);
      var done := s.(chunkBuffer := s.chunkBuffer - {fileId});
      match assembly.header
      case Some(h) => Acknowledge(Push(done, e.sender, h.(payload := data)), assembly.sender, h.id)
      case None =>
        var metadata := SyntheticMetadata(fileId, data, total);
        Push(done, e.sender, CipherMessage(e.id, assembly.sender, File(metadata), data))
  }

  function AcceptHeader(s: ClientState, e: Envelope, fileId: string): ClientState
    requires e.plaintext.Some?
  {
    var known := if fileId in s.chunkBuffer then s.chunkBuffer[fileId] else ChunkAssembly(e.sender, 0, map[], None);
    var assembly := known.(header := Some(Opened(e)));
    if assembly.totalChunks == 0 || |assembly.chunks| != assembly.totalChunks then
      s.(chunkBuffer := s.chunkBuffer[fileId := assembly])
    else
      var h := Opened(e).(payload := Assemble(assembly.chunks, assembly.totalChunks));
      Acknowledge(Push(s.(chunkBuffer := s.chunkBuffer - {fileId}), e.sender, h), e.sender, h.id)
  }

  // ----- Sets of a given size -----

  lemma {:induction false} SubsetExists(s: set<MessageId>, n: nat)
    requires n <= |s|
    ensures exists t: set<MessageId> :: t <= s && |t| == n
  {
    if n == |s| {
      assert s <= s;
    } else {
      var x :| x in s;
      SubsetExists(s - {x}, n);
      var t: set<MessageId> :| t <= s - {x} && |t| == n;
      assert t <= s;
    }
  }

  /** Some pruning is always possible. */
  ghost function SomePruning(seen: set<MessageId>, id: MessageId): (pruned: set<MessageId>)
    ensures PruneAllowed(seen, id, pruned)
  {
    if |seen + {id}| > SEEN_LIMIT then
      SubsetExists(seen + {id}, PRUNE_COUNT);
      var t :| t <= seen + {id} && |t| == PRUNE_COUNT; t
    else {}
  }

  // ----- Many messages -----

  function ProcessAll(s: ClientState, raws: seq<Raw>, choices: seq<set<MessageId>>): ClientState
    requires |raws| == |choices|
    decreases |raws|
  {
    if |raws| == 0 then s
    else
      var n := |raws| - 1;
      Process(ProcessAll(s, raws[..n], choices[..n]), raws[n], choices[n])
  }

  /** Every pruning along the way removes 250 remembered ids. */
  ghost predicate ChoicesAllowed(s: ClientState, raws: seq<Raw>, choices: seq<set<MessageId>>)
    decreases |raws|
  {
    && |raws| == |choices|
    && (|raws| > 0 ==>
      var n := |raws| - 1;
      && ChoicesAllowed(s, raws[..n], choices[..n])
      && (raws[n].Parsed? ==>
            PruneAllowed(ProcessAll(s, raws[..n], choices[..n]).seen, raws[n].envelope.id, choices[n])))
  }

  // ----- The client object -----

  class SwarmClient {
    var conversations: map<Address, Conversation>
    var seen: set<MessageId>
    var chunkBuffer: map<string, ChunkAssembly>
    var presence: map<Address, PresenceInfo>
    var inbox: seq<CipherMessage>
    var media: seq<seq<byte>>
    var receiptsSent: seq<ReceiptSent>
    var sentLog: map<MessageId, Envelope>

    function State(): ClientState
      reads this
    {
      ClientState(conversations, seen, chunkBuffer, presence, inbox, media, receiptsSent, sentLog)
    }

    constructor ()
      ensures State() == EmptyClient()
    {
      conversations := map[];
      seen := {};
      chunkBuffer := map[];
      presence := map[];
      inbox := [];
      media := [];
      receiptsSent := [];
      sentLog := map[];
    }

    /** Processes everything the transport has delivered, in order. */
    method ProcessIncoming(raws: seq<Raw>) returns (ghost choices: seq<set<MessageId>>)
      modifies this
      ensures ChoicesAllowed(old(State()), raws, choices)
      ensures State() == ProcessAll(old(State()), raws, choices)
    {
      choices := [];
      for i := 0 to |raws|
        invariant |choices| == i
        invariant ChoicesAllowed(old(State()), raws[..i], choices)
        invariant State() == ProcessAll(old(State()), raws[..i], choices)
      {
        ghost var pruned: set<MessageId> := {};
        if raws[i].Parsed? {
          pruned := ProcessMessage(raws[i].envelope);
        }
        assert raws[..i + 1][..i] == raws[..i] && (choices + [pruned])[..i] == choices;
        choices := choices + [pruned];
      }
      assert raws[..|raws|] == raws;
    }

    method ProcessMessage(e: Envelope) returns (ghost pruned: set<MessageId>)
      modifies this
      ensures PruneAllowed(old(seen), e.id, pruned)
      ensures State() == Process(old(State()), Parsed(e), pruned)
    {
      hide Accept;
      if e.id in seen {
        pruned := SomePruning(seen, e.id);
        return;
      }
      pruned := NoteSeen(e.id);
      Dispatch(e);
    }

    /** Remembers an id, forgetting an arbitrary 250 when there are more than 500. */
    method NoteSeen(id: MessageId) returns (ghost pruned: set<MessageId>)
      modifies this`seen
      ensures PruneAllowed(old(seen), id, pruned)
      ensures seen == Remember(old(seen), id, pruned)
    {
      pruned := {};
      seen := seen + {id};
      if |seen| > SEEN_LIMIT {
        SubsetExists(seen, PRUNE_COUNT);
        var toRemove :| toRemove <= seen && |toRemove| == PRUNE_COUNT;
        pruned := toRemove;
        seen := seen - toRemove;
      }
    }

    method Dispatch(e: Envelope)
      modifies this
      ensures State() == Accept(old(State()), e)
    {
      hide AcceptChunk, AcceptHeader, Push, WithReceipt;
      if e.plaintext.None? {
        return;
      }
      if e.msgType == CallMedia {
        media := media + [e.plaintext.value.bytes];
        return;
      }
      var conv := ConversationOf(conversations, e.sender);
      conversations := conversations[e.sender := conv];
      var plain := e.plaintext.value;
      var kind := e.msgType;
      if kind.Receipt? {
        if plain.receiptRef.Some? {
          var ref := plain.receiptRef.value;
          conversations := map p | p in conversations :: WithReceipt(conversations[p], ref, kind.kind);
        }
      } else if kind.Presence? {
        presence := presence[e.sender := kind.info];
      } else if kind.FileChunk? {
        StoreChunk(e, kind.fileId, kind.chunkIndex, kind.totalChunks);
      } else if kind.File? && plain.fileRef.Some? {
        StoreHeader(e, plain.fileRef.value);
      } else {
        Record(e.sender, Opened(e));
        SendReceipt(e.sender, e.id);
      }
    }

    method Record(peer: Address, msg: CipherMessage)
      modifies this`conversations, this`inbox
      ensures State() == Push(old(State()), peer, msg)
    {
      var conv := ConversationOf(conversations, peer);
      conv := conv.(messageIds := conv.messageIds + [msg.id]);
      conv := conv.(unread := (conv.unread + 1) % U32_BOUND);
      conversations := conversations[peer := conv];
      inbox := inbox + [msg];
    }

    method SendReceipt(recipient: Address, id: MessageId)
      modifies this`receiptsSent
      ensures State() == Acknowledge(old(State()), recipient, id)
    {
      receiptsSent := receiptsSent + [ReceiptSent(recipient, id)];
    }

    method StoreChunk(e: Envelope, fileId: string, index: nat, total: nat)
      requires e.plaintext.Some?
      modifies this
      ensures State() == AcceptChunk(old(State()), e, fileId, index, total)
    {
      hide Push;
      var assembly := if fileId in chunkBuffer then chunkBuffer[fileId] else ChunkAssembly(e.sender, total, map[],
          None);
      assembly := assembly.(chunks := assembly.chunks[index := e.plaintext.value.bytes]);
      if |assembly.chunks| == total {
        var fileData := JoinChunks(assembly.chunks, total);
        chunkBuffer := chunkBuffer - {fileId};
        if assembly.header.Some? {
          var h := assembly.header.value.(payload := fileData);
          Record(e.sender, h);
          SendReceipt(assembly.sender, h.id);
        } else {
          var metadata := SyntheticMetadata(fileId, fileData, total);
          Record(e.sender, CipherMessage(e.id, assembly.sender, File(metadata), fileData));
        }
      } else {
        chunkBuffer := chunkBuffer[fileId := assembly];
      }
    }

    method StoreHeader(e: Envelope, fileId: string)
      requires e.plaintext.Some?
      modifies this
      ensures State() == AcceptHeader(old(State()), e, fileId)
    {
      hide Push;
      var assembly := if fileId in chunkBuffer then chunkBuffer[fileId] else ChunkAssembly(e.sender, 0, map[], None);
      assembly := assembly.(header := Some(Opened(e)));
      if assembly.totalChunks > 0 && |assembly.chunks| == assembly.totalChunks {
        var fileData := JoinChunks(assembly.chunks, assembly.totalChunks);
        var h := Opened(e).(payload := fileData);
        chunkBuffer := chunkBuffer - {fileId};
        Record(e.sender, h);
        SendReceipt(e.sender, h.id);
      } else {
        chunkBuffer := chunkBuffer[fileId := assembly];
      }
    }

    method JoinChunks(chunks: map<nat, seq<byte>>, total: nat) returns (fileData: seq<byte>)
      ensures fileData == Assemble(chunks, total)
    {
      fileData := [];
      for i := 0 to total
        invariant fileData == Assemble(chunks, i)
      {
        if i in chunks {
          fileData := fileData + chunks[i];
        }
      }
    }

    method ReceiveAll() returns (messages: seq<CipherMessage>)
      modifies this`inbox
      ensures messages == old(inbox) && State() == old(State()).(inbox := [])
    {
      messages := inbox;
      inbox := [];
    }

    method MarkRead(peer: Address)
      modifies this`conversations
      ensures State() == AfterMarkRead(old(State()), peer)
    {
      if peer in conversations {
        conversations := conversations[peer := conversations[peer].(unread := 0)];
      }
    }

    method LogSent(message: Envelope)
      modifies this`sentLog
      ensures State() == AfterLog(old(State()), message)
    {
      sentLog := sentLog[message.id := message];
    }

    /** Records a sent message in its conversation. */
    method TrackSent(recipient: Address, id: MessageId)
      modifies this`conversations
      ensures State() == AfterSend(old(State()), recipient, id)
    {
      var conv := ConversationOf(conversations, recipient);
      conv := conv.(messageIds := conv.messageIds + [id]);
      conv := conv.(statuses := conv.statuses[id := Queued]);
      conversations := conversations[recipient := conv];
    }
  }

  function AfterLog(s: ClientState, message: Envelope): ClientState {
    s.(sentLog := s.sentLog[message.id := message])
  }

  function AfterMarkRead(s: ClientState, peer: Address): ClientState {
    if peer in s.conversations
    then s.(conversations := s.conversations[peer := s.conversations[peer].(unread := 0)])
    else s
  }

  function AfterSend(s: ClientState, recipient: Address, id: MessageId): ClientState {
    var conv := ConversationOf(s.conversations, recipient);
    s.(conversations := s.conversations[recipient :=
      conv.(messageIds := conv.messageIds + [id], statuses := conv.statuses[id := Queued])])
  }
}
