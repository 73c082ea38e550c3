# Cipher: a verified model of its session, delivery, file and transfer logic

This project models five parts of the Cipher client and proves what they are for.

1. **Double Ratchet sessions** (`Ratchet`, `RatchetSession`, `RatchetSecrecy`). Two endpoints, each a
   class updated in place, converse over two lossless FIFO channels in any interleaving. Keys are
   terms of a free algebra, Diffie-Hellman is symmetric, and a sealed message opens only under its own
   key. One invariant places both endpoints and everything in flight on one key schedule. From it
   follow decryption of every message, lockstep of the ratchets, distinctness of all message keys, and
   exactly which keys the stored state determines.
2. **Store and forward** (`Outbox`, `OutboxRuns`, `Client`, `ClientRuns`, `ClientDedup`, `ClientHistory`,
   `FileDelivery`, `Sending`, `Network`). The outbox with retry, the bounded seen-set with arbitrary
   pruning, reassembly of chunked files, conversations, unread counts, statuses, and the whole path from
   the senders through an unreliable relay to the inbox.
3. **Chunks and the Merkle root** (`Merkle`, `Chunker`, `RelayWire`, `RelayIds`).
4. **RLP and EIP-155 transactions** (`Rlp`, `Eip155`), against a decoder written from Appendix B of the
   Ethereum Yellow Paper.
5. **Decimal amounts** (`Decimal`, `Amounts`).

Code that updates objects is a class whose methods are proved equal to functions on values; the
properties are lemmas about those functions over all inputs or all runs. Randomness, clocks, relay
answers, the order in which maps are visited and the choice of pruned ids are parameters or arbitrary.

Where code and comments disagree, the model follows the code:

- The seen-set's comment says the last 500 ids are kept; the code removes an arbitrary 250, possibly the
  id just added (`ClientDedup.RepeatIsDroppedIff`), so that from 501 ids on a message can be delivered
  twice (`ClientDedup.FiveHundredIsSharp`).
- The Merkle root is documented as the file's integrity check; it does not cover the number of pieces,
  which is read from the pieces themselves (`Chunker.AuthenticIff`, `Chunker.RepeatedLastAccepted`), and
  it hashes chunks and pairs of digests alike, so that the 64 octets of two digests are accepted as a
  chunk (`Chunker.InnerLayerAccepted`, `Chunker.DigestPairAccepted`).
- The ratchet's documentation promises forward secrecy per message. It fails for what the responder
  sends before its first receive, whose keys start from zeros and are known to everyone
  (`RatchetSecrecy.KeyIsPublicIff`). For all other messages it holds for received ones at once, and for
  sent ones as soon as the sender has ratcheted (`RatchetSecrecy.ReceivedKeysAreGone`,
  `RatchetSecrecy.SentKeysAreGoneAfterRatchet`).
- The amount parser accepts a plus sign before the whole part and inside the fraction
  (`Amounts.AcceptsOnlyDecimalsIff`).
- The wallet's parser takes a whole part beyond 128 bits for zero and ignores what follows a second point
  (`Amounts.TypedAmountIff`, `Amounts.AmountOfText`).

## Model

| member | source | states |
|---|---|---|
| Ratchet.DoubleRatchet.InitSender | client-core/src/encryption.rs:193-215 | the initiator's session is the first root step with the responder's key, with both chains derived from it |
| Ratchet.DoubleRatchet.InitReceiver | client-core/src/encryption.rs:218-230 | the responder's session holds the shared secret as root and all-zero chains |
| Ratchet.DoubleRatchet.Encrypt | client-core/src/encryption.rs:233-249 | the message carries the current key and counter and is sealed under the chain's message key; only chain and counter move |
| Ratchet.DoubleRatchet.Decrypt | client-core/src/encryption.rs:252-264 | a ratchet step exactly on a new public key, then one chain step, before the message is authenticated |
| Ratchet.DoubleRatchet.DhRatchetStep | client-core/src/encryption.rs:267-297 | two root steps, with the old and a fresh secret, give the receiving and sending chains; both counters restart |
| Ratchet.DoubleRatchet.AdvanceChainSend | client-core/src/encryption.rs:300-320 | message key and next chain key come from the old sending chain key under different tags |
| Ratchet.DoubleRatchet.AdvanceChainRecv | client-core/src/encryption.rs:323-343 | the same for the receiving chain |
| RatchetSession.InvApply | client-core/src/encryption.rs:233-343 | every send and every delivery keeps both endpoints and all messages in flight on one key schedule |
| RatchetSession.KeysInFull | client-core/src/encryption.rs:67-73 | the key schedule written out: input, salt and label of every root and chain key, and the tags of message and next chain keys |
| RatchetSession.InitialKeys | client-core/src/encryption.rs:193-230 | every field of both endpoints at the start, written out |
| RatchetSession.DeliveredMessageDecrypts | client-core/src/encryption.rs:193-343 | in every run each delivered message decrypts to exactly its plaintext, except that what the responder sends before its first receive is always rejected |
| RatchetSession.ReceivedIsPrefixOfSent | client-core/src/encryption.rs:193-343 | when the responder waits for its first receive, what a side has decrypted is in order a prefix of what the other encrypted |
| RatchetSession.StepsInLockstep | client-core/src/encryption.rs:252-297 | the responder's number of ratchet steps exceeds the initiator's by 0 or 1 at every moment |
| RatchetSession.CountersAgreeAtDelivery | client-core/src/encryption.rs:252-297 | at each delivery the receive counter, after any reset, equals the counter in the message |
| RatchetSession.InFlightSpansTwoKeys | client-core/src/encryption.rs:233-264 | the messages in flight one way use at most two public keys, the receiver's known one first |
| RatchetSecrecy.DerivableIsLeastClosure | client-core/src/encryption.rs:67-73 | the structural test for derivability is exactly the least set closed under the key derivations |
| RatchetSecrecy.NoKeyIsReused | client-core/src/encryption.rs:300-343 | over a whole run no two messages, in either direction and all epochs, share a message key |
| RatchetSecrecy.MessageOnWire | client-core/src/encryption.rs:233-249 | in every run a sent message carries its sender's public key and counter of that moment and its plaintext sealed under tag 1 of the sender's chain key with the nonce drawn for it |
| RatchetSecrecy.MessageKeyIndependent | client-core/src/encryption.rs:158-161 | a message key is derivable from all the other message keys together exactly when it belongs to epoch 0, in which the responder sends before its first receive; and then from nothing |
| RatchetSecrecy.KeyIsPublicIff | client-core/src/encryption.rs:218-249 | in every run, everyone can compute the key of a sent message exactly when the responder sent it before it had received anything |
| RatchetSecrecy.ChainKeyRevealsOnlyLater | client-core/src/encryption.rs:300-343 | a chain key determines exactly the message keys of its own chain from its position on, and those of epoch 0 |
| RatchetSecrecy.ContentsReveal | client-core/src/encryption.rs:163-178 | the message keys determined by everything an endpoint stores: those of epoch 0, those of its epoch and the peer's next one, and the unused ones of the epoch it listens to, and no others |
| RatchetSecrecy.ReceivedKeysAreGone | client-core/src/encryption.rs:158-161 | once a message is received, what the receiver stores determines its key exactly when the responder sent it before it had received anything, which is when the message was rejected |
| RatchetSecrecy.SentKeysAreGoneAfterRatchet | client-core/src/encryption.rs:267-297 | what the sender stores determines the key of a sent message exactly while the sender has the same ratchet secret as when it sent, or if the responder sent it before it had received anything |
| RatchetSecrecy.LaterEpochsRecover | client-core/src/encryption.rs:267-297 | keys used two or more epochs after a state was stored are not derivable from it, however the run continues |
| Merkle.ComputeMerkleRoot | client-core/src/file_chunker.rs:260-288 | the level-by-level loop ends and returns the root of the top-down tree of least height, for every list |
| Merkle.RootFromRounds | client-core/src/file_chunker.rs:260-288 | octet by octet: nothing gives 32 zeros, one digest itself, and more digests the root of the one list that hashes each two neighbours, left before right, an odd last one with itself |
| Merkle.RootOfTwo | client-core/src/file_chunker.rs:274-281 | the root of two digests is the hash of the 32 octets of the first and then of the second |
| Merkle.HeightIsCeilLog2 | client-core/src/file_chunker.rs:268-285 | that height is the least one with room for all leaves |
| Merkle.TreeOfNextLevel | client-core/src/file_chunker.rs:270-284 | one round of pairing with odd-leaf duplication takes off the lowest layer of the tree |
| Merkle.MerkleRootInjective | client-core/src/file_chunker.rs:222-231 | among hash lists of equal length the root determines every hash |
| Merkle.RootIgnoresRepeatedLast | client-core/src/file_chunker.rs:276-280 | repeating the last hash of a list of odd length above one leaves the root unchanged |
| Merkle.RootsAgreeIff | client-core/src/file_chunker.rs:260-288 | for any two lists of any chunk texts the roots agree exactly when the bottom of the lower tree is the layer of the other tree at that height, with the duplications written out; a chunk may itself be two digests |
| Merkle.RootsAgreeIffPaddingsAgree | client-core/src/file_chunker.rs:260-288 | where neither first text has the 64 octets of two digests, the roots agree exactly when writing out the duplications gives the same list |
| Chunker.EncryptAndChunk | client-core/src/file_chunker.rs:141-202 | always succeeds, so the relay size check never fails, and gives one sealed, hashed, numbered piece per 512 KiB with the Merkle root in each |
| Chunker.SentPieceFields | client-core/src/file_chunker.rs:160-199 | every field of every piece, and how many there are, in terms of the file alone |
| Chunker.PiecesConcat | client-core/src/file_chunker.rs:160-163 | the pieces of a file joined are the file |
| Chunker.PieceSizes | client-core/src/file_chunker.rs:16 | every piece but the last is full and none is empty |
| Chunker.SortSpec | client-core/src/file_chunker.rs:209-210 | the sort by index is a stable sorted rearrangement |
| Chunker.DecryptAndReassemble | client-core/src/file_chunker.rs:205-257 | sorts the slice in place and returns the file or the first error, in the source's order of checks |
| Chunker.ReassembledOutcome | client-core/src/file_chunker.rs:205-257 | the outcome for any pieces at all: which of the five errors, in the source's order and for any announced root, or success |
| Chunker.ReassembleLabelled | client-core/src/file_chunker.rs:205-257 | the exact outcome for the pieces of anything in any order, with the error for no pieces and for counts beyond 32 bits |
| Chunker.RoundTripIff | client-core/src/file_chunker.rs:141-257 | for every file, key, nonces and arrival order, reassembly returns the file exactly when it has at least one and fewer than 2^32 pieces |
| Chunker.AcceptedIff | client-core/src/file_chunker.rs:205-257 | under the root of a non-empty file, pieces of any number are accepted exactly when their number is the announced one and they open, with matching hashes, to texts with the tree of that file; the output is these texts |
| Chunker.AcceptedIffRepeated | client-core/src/file_chunker.rs:205-257 | unless the file or the first text offered has 64 octets, these texts are exactly a beginning of the file's pieces with the duplications written out whose own duplications give the same list |
| Chunker.AuthenticIff | client-core/src/file_chunker.rs:205-257 | whatever is accepted under the root of a file, even digests, is that file exactly when there are as many pieces as the file has |
| Chunker.RepeatedLastAccepted | client-core/src/file_chunker.rs:211-231 | for an odd number of pieces above one (and below 2^32 - 1), the pieces relabelled with the last one twice are accepted under the file's own root, and the output is the file and its last piece again |
| Chunker.InnerLayerAccepted | client-core/src/file_chunker.rs:205-288 | what is hashed at any inner layer of a file's tree, sealed and numbered as pieces (fewer than 2^32) under the file's root, is accepted in place of the file, and is not the file |
| Chunker.DigestPairAccepted | client-core/src/file_chunker.rs:260-288 | for a file of two pieces, one piece holding the 64 octets of their two hashes is accepted under the file's own root |
| RelayWire.AcceptedIffSmall | client-core/src/file_chunker.rs:58-78 | a piece is accepted for the relay exactly when ciphertext plus 93 bytes is within 900000 |
| RelayWire.WireLayout | client-core/src/file_chunker.rs:58-78 | where every field lies in the bytes, little end first, with version 1 and at most 900000 bytes |
| RelayWire.WireRoundTrip | client-core/src/file_chunker.rs:58-99 | an accepted piece is read back field by field, also with bytes after it |
| RelayWire.OtherVersionsRefused | client-core/src/file_chunker.rs:84-89 | any other version byte is refused |
| RelayIds.PieceIdRoundTrip | client-core/src/file_chunker.rs:37-54 | a piece identifier reads back for every file id, even one containing the mark, and every 32-bit index |
| RelayIds.IdentifierText | client-core/src/file_chunker.rs:37-44 | the text of both identifiers: mark and at least five digits, or the header suffix |
| RelayIds.ReadAsPieceIff | client-core/src/file_chunker.rs:47-54 | exactly the texts read as a given piece: file id, mark, and digits of a 32-bit number after at most one plus sign |
| RelayIds.ReadAsHeaderIff | client-core/src/file_chunker.rs:47-50 | exactly the texts read as a given header: a file id not ending like one and one or more suffixes |
| RelayIds.HeaderIdRoundTripIff | client-core/src/file_chunker.rs:42-50 | a header identifier reads back exactly when the file id does not itself end in the header suffix |
| RelayIds.IdentifiersDistinct | client-core/src/file_chunker.rs:37-44 | piece identifiers are injective and never equal to a header identifier |
| Rlp.ToMinBe | src/commands/transfer.rs:218-222 | sixteen bytes without leading zeros are the minimal big-endian form, one zero byte for zero |
| Rlp.MinBeByte | src/commands/transfer.rs:218-222 | each byte of the minimal form, most significant first |
| Rlp.EncodingForms | src/commands/transfer.rs:170-216 | the three forms of byte strings, the two of integers and the two of lists, with their prefix bytes |
| Rlp.RlpBytesVec | src/commands/transfer.rs:170-186 | the byte-string encoder that pushes onto a vector computes the encoding |
| Rlp.RlpListVec | src/commands/transfer.rs:197-216 | the list encoder's two loops compute the encoding |
| Rlp.DecodeEncode | src/commands/transfer.rs:170-216 | the Yellow Paper decoder inverts the encoder on all nested items, whatever follows |
| Rlp.EncodeDecode | src/commands/transfer.rs:170-216 | whatever the decoder accepts is the encoding of what it returned |
| Rlp.DecodeIff | src/commands/transfer.rs:170-216 | decoding yields an item exactly on that item's encoding |
| Rlp.PrefixFree | src/commands/transfer.rs:170-216 | no encoding is a proper prefix of another |
| Eip155.UnsignedDecodesIff | src/commands/transfer.rs:224-245 | the decoder reads seven fields exactly from the bytes the encoder makes of them |
| Eip155.ExampleBytes | src/commands/transfer.rs:224-274 | the unsigned and signed bytes of the example in EIP-155, for any recipient, r and s |
| Eip155.UnsignedInjective | src/commands/transfer.rs:224-245 | no two transfers, in any of the seven fields, are signed over the same bytes |
| Eip155.StripKeepsValue | src/commands/transfer.rs:276-279 | stripping zeros keeps the value, and leaves a leading zero only for the all-zero string |
| Eip155.SignedDecodesIff | src/commands/transfer.rs:247-274 | a signed transfer decodes to the same six fields, v, and the values of r and s in minimal form exactly when r and s are not zero |
| Eip155.VRecoversIff | src/commands/transfer.rs:68 | chain id and recovery id are recovered from v exactly for recovery ids 0 and 1 |
| Amounts.ParseTksAmount | src/commands/transfer.rs:107-141 | the parser's result or error for every text |
| Amounts.TransferOutcome | src/commands/transfer.rs:107-141 | for every text the outcome and the first reason to refuse it, of six |
| Amounts.Trimmed | src/commands/transfer.rs:108 | only whitespace is trimmed and none is left at either end |
| Amounts.AcceptsExactly | src/commands/transfer.rs:107-141 | for every text, it succeeds exactly when the trimmed text is digits, or digits, a point and at most 18 places of digits, each number after at most one plus sign (a plus in the fraction takes one place), and the amount fits 128 bits; the result is the exact amount |
| Amounts.AcceptsOnlyDecimalsIff | src/commands/transfer.rs:107-141 | that only decimal notation is accepted, at its exact value, fails exactly on such texts with at least one plus sign whose amount fits 128 bits |
| Amounts.AcceptsExactlyDecimals | src/commands/transfer.rs:107-141 | corollary: on text without a plus sign it succeeds exactly on decimal notation with at most 18 fraction digits of an amount that fits 128 bits, with the exact amount |
| Amounts.SignedFractionAccepted | src/commands/transfer.rs:131-134 | an instance with a plus sign: 1.+5 is read as 1.05 |
| Amounts.BalanceRoundTripIff | client-core/src/wallet_core.rs:717-748 | for every 128-bit value printing then parsing gives it back, without overflow, exactly for up to 38 decimals |
| Amounts.BalanceText | client-core/src/wallet_core.rs:717-734 | what is printed for any stored text and any number of decimals: the shortest decimal text, 0 for zero or no number, overflow from 39 decimals on |
| Amounts.AmountOfText | client-core/src/wallet_core.rs:737-748 | the result for every text: what follows a second point is ignored and the fraction is cut off or filled up |
| Amounts.ParseOrZeroIs | client-core/src/wallet_core.rs:739-743 | a part that is no 128-bit number counts as zero |
| Amounts.TypedAmountIff | client-core/src/wallet_core.rs:737-748 | for up to 38 decimals a typed number with any number of fraction digits is read as its amount rounded down, or overflows where that does not fit, exactly when its whole part fits 128 bits |
| Amounts.LargeWholeReadAsZero | client-core/src/wallet_core.rs:739 | an instance: 2^128 is read as zero |
| Amounts.TransferReadsPrintedBalance | client-core/src/wallet_core.rs:717-734 | the transfer command reads every printed 18-decimal balance back to the same value |
| Amounts.DisplayedBalanceIsTruncated | src/commands/balance.rs:148-163 | a displayed balance reads back as the largest multiple of 10^14 wei not above the real one |
| Amounts.DisplayedText | src/commands/balance.rs:148-163 | the displayed text is the shortest one, cut after four decimals |
| Outbox.DirectTransport.QueueMessage | client-core/src/transport/direct.rs:347-367 | appends one message unless the recipient's queue is full, which is the error |
| Outbox.DirectTransport.FlushOutbox | client-core/src/transport/direct.rs:192-263 | whatever the relay answers and in whatever order recipients are visited, exactly the failures stay, the counters are exact, and an error means nothing was stored |
| Outbox.DirectTransport.FlushRecipient | client-core/src/transport/direct.rs:200-243 | the messages of one recipient are each stored and counted or kept with one more retry |
| Outbox.DirectTransport.MarkDelivered | client-core/src/transport/direct.rs:380-387 | drains at most the queue and counts what it drained |
| Outbox.DirectTransport.PollIncoming | client-core/src/transport/direct.rs:266-337 | every readable body is appended in order and each relay gets the ids it handed out |
| Outbox.DirectTransport.DrainUnread | client-core/src/transport/direct.rs:409-412 | returns the inbox and empties it |
| Outbox.ReadableRecordArrives | client-core/src/transport/direct.rs:278-322 | no readable record of a readable answer is lost |
| Outbox.FetchedInOrder | client-core/src/transport/direct.rs:278-322 | a poll adds as many bodies as there are readable records, each at the position that counts the readable ones before it |
| Outbox.AcknowledgedExactly | client-core/src/transport/direct.rs:299-333 | each relay that handed out a record with an id is acknowledged once, with exactly its non-empty ids, in order, readable or not |
| OutboxRuns.FlushSplits | client-core/src/transport/direct.rs:197-248 | a flush keeps an order-preserving part of a queue and loses or doubles nothing |
| OutboxRuns.FailedPosition | client-core/src/transport/direct.rs:230-241 | each failed message is kept, in order, with exactly one more retry |
| OutboxRuns.StoredPosition | client-core/src/transport/direct.rs:211-229 | each stored message leaves, in order and unchanged |
| OutboxRuns.FlushLeaves | client-core/src/transport/direct.rs:230-248 | a recipient keeps a queue exactly if one of its messages was refused, with one entry for each refusal |
| OutboxRuns.MarkTakesFront | client-core/src/transport/direct.rs:380-387 | marking takes messages from the front of one queue only, at most all of it, and counts them |
| OutboxRuns.RunConserves | client-core/src/transport/direct.rs:192-387 | after every run accepted messages equal delivered plus pending, each queue is an ordered part of what was accepted, and no queue exceeds the limit |
| Client.SwarmClient.ProcessIncoming | client-core/src/swarm_client.rs:449-687 | the loop over raw messages ends in the state of the specified run, for prunings that each forget 250 remembered ids |
| Client.SwarmClient.NoteSeen | client-core/src/swarm_client.rs:461-471 | the id is remembered and, above 500, an arbitrary 250 ids are forgotten |
| Client.SwarmClient.Dispatch | client-core/src/swarm_client.rs:473-680 | a fresh message changes exactly the specified parts of the state: none if it does not decrypt, the media stream, statuses, presence, the chunk buffer, or conversation, inbox and receipts |
| Client.SwarmClient.StoreChunk | client-core/src/swarm_client.rs:553-620 | a chunk is kept until the announced number is reached; then the joined file is filed once and its buffer entry goes; without a header its metadata are the made-up ones of `FileDelivery.OneMessagePerRound` |
| Client.SwarmClient.StoreHeader | client-core/src/swarm_client.rs:621-660 | a header is kept for its chunks, or files the joined file if the announced number already waits |
| Client.SwarmClient.ReceiveAll | client-core/src/swarm_client.rs:690-695 | hands out the inbox and clears only it |
| Client.SwarmClient.MarkRead | client-core/src/swarm_client.rs:724-729 | resets one unread count |
| Client.SwarmClient.TrackSent | client-core/src/swarm_client.rs:241-251 | records a sent message as queued |
| ClientRuns.ProcessFiles | client-core/src/swarm_client.rs:498-680 | every message files at most one message, under its own sender, and changes no other record or count |
| ClientRuns.ProcessBuffers | client-core/src/swarm_client.rs:553-660 | the chunk buffer and the seen-set after any message |
| ClientRuns.ProcessRest | client-core/src/swarm_client.rs:473-552 | the media stream, presence, the set of conversations and the sent log after any message |
| ClientDedup.SeenBounded | client-core/src/swarm_client.rs:466-470 | for every choice of prunings the seen-set never holds more than 500 ids after a message |
| ClientDedup.SeenStaysBounded | client-core/src/swarm_client.rs:461-471 | a fresh message adds one id up to 500, and at 500 leaves 251 |
| ClientDedup.RepeatIsDroppedIff | client-core/src/swarm_client.rs:458-471 | an immediate repetition is sure to be dropped exactly when fewer than 500 ids were remembered |
| ClientDedup.AtMostOnce | client-core/src/swarm_client.rs:458-471 | in every run and for every pruning, an id that was still remembered whenever it came again is at most once in the cumulative inbox |
| ClientDedup.NoneTwice | client-core/src/swarm_client.rs:458-471 | no two messages in the cumulative inbox share an id, if every repeated id was still remembered or at most 500 distinct ids arrived |
| ClientDedup.ExactlyOnceIff | client-core/src/swarm_client.rs:449-687 | a readable message that is neither part of a file nor internal, and arrives, is in the cumulative inbox at exactly one position with its content, exactly when its id was still remembered whenever it came again |
| ClientDedup.ExactlyOnce | client-core/src/swarm_client.rs:449-687 | corollary: exactly once while at most 500 distinct ids arrive |
| ClientDedup.FiveHundredIsSharp | client-core/src/swarm_client.rs:458-471 | when a first ordinary message comes again after others, it is delivered exactly once for every pruning exactly when at most 500 distinct ids had arrived; beyond that some prunings put it into the inbox twice |
| ClientHistory.UnreadCountsDeliveries | client-core/src/swarm_client.rs:498-739 | with one sender per file, unread is the number of the peer's deliveries since it was last read, modulo 2^32, and the record lists exactly the ids exchanged, in order |
| ClientHistory.FiledUnderOwnSenderIff | client-core/src/swarm_client.rs:576-614 | a delivered message is filed under its own sender exactly unless the last chunk continues a file someone else began |
| ClientHistory.ReceivingIsSeparate | client-core/src/swarm_client.rs:449-739 | in every run, whatever is sent, read or taken from the inbox in between, what is remembered, buffered and delivered is that of the receive operations alone |
| ClientHistory.RecordedOnce | client-core/src/swarm_client.rs:583-675 | in every run, with one sender per file, if every repeated id was still remembered or at most 500 distinct ids arrived: no id is delivered twice, and a record holds an id once for each time it was sent there and once more if the peer's message with it was delivered |
| ClientHistory.ReceiptsFollowDeliveries | client-core/src/swarm_client.rs:582-675 | each delivery is acknowledged once, under its own id, except a file completed without its header: a completed file to whoever sent its first buffered part, anything else to its own sender |
| ClientHistory.DeliveriesAreAcknowledged | client-core/src/swarm_client.rs:582-675 | with one sender per file, each delivery is acknowledged once to its sender, except a file completed without its header |
| ClientHistory.SentLogHolds | client-core/src/swarm_client.rs:239-328 | at the end of every run the sent log holds, for exactly the ids logged, the message logged last |
| ClientHistory.JoinAllIsJoin | client-core/src/swarm_client.rs:518-531 | folding receipts into a status is a join, independent of order and repetition |
| ClientHistory.StatusIsJoinOfReceipts | client-core/src/swarm_client.rs:241-540 | at the end of every run the status of a message sent at any point of it is the join of the receipts for it processed after it was last sent to that recipient |
| ClientHistory.StatusNeverMovesBack | client-core/src/swarm_client.rs:518-531 | no operation but sending the message anew to that recipient moves its status backwards |
| ClientHistory.OrderAndRepetitionDoNotMatter | client-core/src/swarm_client.rs:510-540 | any two runs that send the message at any two points and afterwards bring the same kinds of receipts for it leave the same status |
| FileDelivery.OneMessagePerRound | client-core/src/swarm_client.rs:553-667 | in every run in which other traffic uses neither the transfer's message ids nor its file id, for every pruning: the inbox holds one message of the transfer for each time its chunks were all buffered together, each with the bytes of the file, with the sender's metadata exactly when the header was buffered then, and otherwise with the size, the number of chunks and a name made of the file id |
| FileDelivery.FileArrives | client-core/src/swarm_client.rs:553-667 | under the same condition on other traffic, for every order, interleaving, repetition and pruning: no message of the transfer before all chunks have arrived and at least one after, the first with the sender's metadata exactly when the header came before the last chunk |
| FileDelivery.FileArrivesExactlyOnce | client-core/src/swarm_client.rs:553-667 | under the same condition, for files of any number of chunks and runs of any length: exactly one message after all chunks have arrived, if chunks that come again after that are still remembered |
| FileDelivery.ChunksAreRetained | client-core/src/swarm_client.rs:458-471 | that holds if every repeated part is still remembered, or at most 500 distinct ids arrive |
| FileDelivery.AssembleIsConcat | client-core/src/swarm_client.rs:570-575 | joining the buffered chunks by index gives the pieces in order |
| FileDelivery.HeaderCompletes | client-core/src/swarm_client.rs:621-660 | a header that finds the announced number of chunks waiting is delivered with its own id and metadata and the chunks joined by index |
| Sending.SendText | client-core/src/swarm_client.rs:202-265 | only a full queue is an error and then nothing is recorded; otherwise the message is queued, entered in the sent log, recorded as queued, and flushed, whatever the flush does |
| Sending.QueueParts | client-core/src/swarm_client.rs:305-353 | header and chunks are queued in order until one does not fit; a queued header enters the sent log |
| Sending.SendFile | client-core/src/swarm_client.rs:274-381 | the call succeeds exactly when all parts fit and the flush stores something or has nothing to fail on; a full queue and a flush that stores nothing each give their error, leave the conversation as it was, and keep what was queued and the log entry of a queued header |
| Sending.QueueAllSpec | client-core/src/swarm_client.rs:325-353 | what is queued for the recipient is the longest beginning of the parts that fits |
| Sending.SentHeader | client-core/src/swarm_client.rs:284-328 | the header carries the given name and type, the size, digest and number of chunks of the file, its file id, and goes from the sender to the recipient |
| Sending.SentChunk | client-core/src/swarm_client.rs:330-353 | chunk i carries the i-th 2 MiB of the file, its number and the total, and goes from the sender to the recipient |
| Sending.SentTransferIsWellFormedIff | client-core/src/swarm_client.rs:284-353 | what is sent for a file is a well-formed transfer, and then one of its bytes, exactly when it has from 1 to 2^32 - 1 chunks |
| Network.RunKeepsInv | client-core/src/transport/direct.rs:192-337 | in every run each accepted message waits at its sender, is at the relay, is fetched, or is processed |
| Network.DeliveredAtMostOnce | client-core/src/swarm_client.rs:458-471 | with retry, duplication and reordering, at every moment of every run, the seen-set is within its bound and an id the receiver still remembered whenever it came again is in the cumulative inbox at most once |
| Network.DeliveredExactlyOnceIff | client-core/src/transport/direct.rs:192-337 | once outboxes and relay are drained, an ordinary message accepted by an outbox is in the inbox exactly once with its content exactly when the receiver still remembered it whenever it came again |
| Network.FileDeliveredExactlyOnce | client-core/src/swarm_client.rs:284-667 | once drained, every file whose chunks were accepted, and whose ids no other message uses, has reached the inbox with its bytes, with the sender's metadata exactly when the header was processed before the last chunk; it is there as often as its chunks were all buffered together, which is once if chunks that came again after it was complete were still remembered |
| Network.FewAreDeliveredExactlyOnce | client-core/src/swarm_client.rs:284-667 | corollary: if at most 500 messages are sent in all, once drained every ordinary message and every such file, with its metadata in the same case, is in the inbox exactly once, and no id is there twice |
| Network.SentFileIsDelivered | client-core/src/swarm_client.rs:274-667 | a file sent, once drained, is in the inbox with its bytes, size and number of chunks, from its sender; with the name, type and digest given when it was sent if the header was processed before the last chunk, else with a name made of its file id |

## Left out

- Real cryptography: hashes, HKDF, HMAC, AES-GCM and X25519 are symbolic. Two hashes are equal only when
  they hash the same octets, an octet of a hash is never a plain octet, a digest field holds zeros or the
  hash of something, and public keys are distinct and non-zero.
- `x3dh_initiate` and `derive_temp_session_key`; key agreement has no responder side in this code.
- Ratchet messages that are lost or reordered: the code keeps no skipped keys.
- The 64-bit ratchet counters and the delivered counter are unbounded numbers.
- Envelope fields the receiver does not use: timestamp, nonce, public key, counter, lifetime.
- JSON and the serialization of message envelopes: a message arrives parsed, with the two JSON fields the
  client reads. The byte layout of relayed pieces is that of bincode's fixed-width little-endian form.
- Relay time-to-live, relay choice, WebSocket, Iroh, Tor, Nym and domain-front transports; the relay
  is arbitrary. Relay records whose bytes cannot be read are acknowledged and not retried.
- Queueing of delivery receipts: the client's requests are logged, their own delivery is not followed.
- File ids shorter than 8 characters, on which naming a file without header panics, and the empty file,
  which is announced as one chunk and sends none.
- `total_unread` and `unread_count`, sums and lookups of the modelled counts; presence expiry.
- Signatures: the recovery id, r and s are given. All-zero r or s is covered only as the failing case.
- Text is a sequence of characters: byte lengths and slicing of non-ASCII text are not modelled.
- FFI, shell, identity and session files, wallet tables, calls, groups, channels, bots and mesh transports.
