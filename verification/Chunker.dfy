/**
Splitting a file into encrypted pieces and putting them back together
(`encrypt_and_chunk` and `decrypt_and_reassemble`).

A sealed text opens under its own key and nonce only.  The empty slice, on which the source
panics when it reads `chunks[0]`, is the outcome `NoChunks`.
*/
module Chunker {
  import opened Prelude
  import opened Merkle
  import opened RelayWire

  const CHUNK_SIZE := 512 * 1024
  const AES_TAG_SIZE := 16

  datatype Ciphertext =
    | Sealed(key: nat, nonce: nat, plaintext: Text)
    | Foreign(size: nat)                       // bytes no key opens

  datatype EncryptedChunk = EncryptedChunk(
    chunkIndex: u32,
    totalChunks: u32,
    ciphertext: Ciphertext,
    nonce: nat,
    chunkHash: Digest,
    merkleRoot: Digest,
    expiresAt: nat)

  datatype ChunkedFile = ChunkedFile(chunks: seq<EncryptedChunk>, merkleRoot: Digest, originalSize: nat)

  datatype FileError =
    | NoChunks
    | WireTooLarge(size: nat)
    | MissingChunks(got: nat, expected: nat)
    | RootMismatch
    | DecryptionFailed
    | HashMismatch(index: u32)

  function CiphertextSize(c: Ciphertext): nat {
    match c
    case Sealed(_, _, plaintext) => |plaintext| + AES_TAG_SIZE
    case Foreign(size) => size
  }

  function WireSize(c: EncryptedChunk): nat { WIRE_OVERHEAD + CiphertextSize(c.ciphertext) }

  function Decrypt(key: nat, nonce: nat, c: Ciphertext): Option<Text> {
    if c.Sealed? && c.key == key && c.nonce == nonce then Some(c.plaintext) else None
  }

  // ----- Splitting -----

  /** The consecutive pieces of `data`, all of `size` bytes but possibly the last. */
  function Pieces<T>(data: seq<T>, size: nat): seq<seq<T>>
    requires size > 0
    decreases |data|
  {
    if |data| == 0 then []
    else if |data| <= size then [data]
    else [data[..size]] + Pieces(data[size..], size)
  }

  function PieceCount(n: nat, size: nat): int
    requires size > 0
  {
    (n + size - 1) / size
  }

  lemma {:induction false} PiecesCount<T>(data: seq<T>, size: nat)
    requires size > 0
    ensures |Pieces(data, size)| == PieceCount(|data|, size)
    decreases |data|
  {
    if |data| == 0 {
      QuotientUnique(size - 1, size, 0, size - 1);
    } else if |data| <= size {
      QuotientUnique(|data| + size - 1, size, 1, |data| - 1);
    } else {
      PiecesCount(data[size..], size);
      CeilingStep(|data|, size);
    }
  }

  lemma {:induction false} CeilingStep(n: nat, size: nat)
    requires 0 < size < n
    ensures PieceCount(n, size) == 1 + PieceCount(n - size, size)
  {
    var m := n - 1;
    var q, r := m / size, m % size;
    assert m == q * size + r;
    QuotientUnique(m + size, size, q + 1, r);
  }

  function Concat<T>(pieces: seq<seq<T>>): seq<T> {
    if |pieces| == 0 then [] else pieces[0] + Concat(pieces[1..])
  }

  lemma {:induction false} PiecesConcat<T>(data: seq<T>, size: nat)
    requires size > 0
    ensures Concat(Pieces(data, size)) == data
    decreases |data|
  {
    if |data| > size {
      var rest := Pieces(data[size..], size);
      PiecesConcat(data[size..], size);
      assert ([data[..size]] + rest)[1..] == rest;
      assert data[..size] + data[size..] == data;
    } else if |data| > 0 {
      assert [data][1..] == [];
      assert Concat([data]) == data + Concat([]);
    }
  }

  /** Every piece but the last is full, and none is empty. */
  lemma {:induction false} PieceSizes<T>(data: seq<T>, size: nat, i: nat)
    requires size > 0 && i < |Pieces(data, size)|
    ensures 0 < |Pieces(data, size)[i]| <= size
    ensures i + 1 < |Pieces(data, size)| ==> |Pieces(data, size)[i]| == size
    decreases |data|
  {
    if |data| > size && i > 0 {
      PieceSizes(data[size..], size, i - 1);
    }
  }

  ghost function FileRoot(data: Text): Digest { MerkleRoot(Hashes(Pieces(data, CHUNK_SIZE))) }

  /** Piece `i` of `n` as it leaves the sender; indices and totals are cast to 32 bits. */
  function Piece(plaintext: Text, i: nat, n: nat, key: nat, nonce: nat, root: Digest,
      expiry: nat): EncryptedChunk {
    EncryptedChunk(i % U32_BOUND, n % U32_BOUND, Sealed(key, nonce, plaintext), nonce,
                   Sha256(plaintext), root, expiry)
  }

  ghost function Labelled(pieces: seq<Text>, key: nat, nonces: nat -> nat, root: Digest,
      expiry: nat): (chunks: seq<EncryptedChunk>)
    ensures |chunks| == |pieces|
    ensures forall i :: 0 <= i < |pieces| ==>
      chunks[i] == Piece(pieces[i], i, |pieces|, key, nonces(i), root, expiry)
  {
    seq(|pieces|, i requires 0 <= i < |pieces| => Piece(pieces[i], i, |pieces|, key, nonces(i), root, expiry))
  }

  ghost function SentPieces(data: Text, key: nat, nonces: nat -> nat, expiry: nat): seq<EncryptedChunk> {
    Labelled(Pieces(data, CHUNK_SIZE), key, nonces, FileRoot(data), expiry)
  }

  /** Chunking always succeeds: no piece comes near the relay's size limit. */
  method EncryptAndChunk(data: Text, key: nat, ttlDays: nat, now: nat, nonces: nat -> nat)
    returns (result: Result<ChunkedFile, FileError>)
    ensures result == Ok(ChunkedFile(SentPieces(data, key, nonces, now + ttlDays * 86400), FileRoot(data), |data|))
  {
    hide Pieces, MerkleRoot;
    var totalChunks := PieceCount(|data|, CHUNK_SIZE);
    PiecesCount(data, CHUNK_SIZE);
    var expiresAt := now + ttlDays * 86400;
    var chunks: seq<EncryptedChunk> := [];
    var chunkHashes: seq<Digest> := [];
    var raw := Pieces(data, CHUNK_SIZE);
    var i := 0;
    while i < |raw|
      invariant 0 <= i <= |raw|
      invariant |chunks| == |chunkHashes| == i
      invariant chunkHashes == Hashes(raw[..i])
      invariant forall k :: 0 <= k < i ==>
        chunks[k] == Piece(raw[k], k, totalChunks, key, nonces(k), ZeroDigest, expiresAt)
    {
      PieceSizes(data, CHUNK_SIZE, i);
      chunkHashes := chunkHashes + [Sha256(raw[i])];
      var piece := EncryptedChunk(i % U32_BOUND, totalChunks % U32_BOUND,
        Sealed(key, nonces(i), raw[i]), nonces(i), Sha256(raw[i]), ZeroDigest, expiresAt);
      if WireSize(piece) > MAX_RELAY_CIPHERTEXT {
        return Err(WireTooLarge(WireSize(piece)));
      }
      chunks := chunks + [piece];
      i := i + 1;
    }
    assert raw[..i] == raw;
    var root := ComputeMerkleRoot(chunkHashes);
    var j := 0;
    while j < |chunks|
      invariant 0 <= j <= |chunks| == |raw|
      invariant forall k :: 0 <= k < |raw| ==>
        chunks[k] == Piece(raw[k], k, totalChunks, key, nonces(k), if k < j then root else ZeroDigest, expiresAt)
    {
      chunks := chunks[j := chunks[j].(merkleRoot := root)];
      j := j + 1;
    }
    assert chunks == SentPieces(data, key, nonces, expiresAt);
    result := Ok(ChunkedFile(chunks, root, |data|));
  }

  // ----- Sorting -----

  /** Places `x` after every element with an index at most its own. */
  function Insert(x: EncryptedChunk, sorted: seq<EncryptedChunk>): (r: seq<EncryptedChunk>)
    ensures |r| == |sorted| + 1
  {
    if |sorted| == 0 || sorted[|sorted| - 1].chunkIndex <= x.chunkIndex then sorted + [x]
    else Insert(x, sorted[..|sorted| - 1]) + [sorted[|sorted| - 1]]
  }

  /** The library's stable sort by index. */
  function SortByIndex(s: seq<EncryptedChunk>): (r: seq<EncryptedChunk>)
    ensures |r| == |s|
  {
    if |s| == 0 then [] else Insert(s[|s| - 1], SortByIndex(s[..|s| - 1]))
  }

  ghost predicate Sorted(s: seq<EncryptedChunk>) {
    forall i, j :: 0 <= i < j < |s| ==> s[i].chunkIndex <= s[j].chunkIndex
  }

  ghost function WithIndex(s: seq<EncryptedChunk>, index: u32): seq<EncryptedChunk> {
    if |s| == 0 then []
    else WithIndex(s[..|s| - 1], index) + if s[|s| - 1].chunkIndex == index then [s[|s| - 1]] else []
  }

  lemma {:induction false} InsertPermutes(x: EncryptedChunk, s: seq<EncryptedChunk>)
    ensures multiset(Insert(x, s)) == multiset(s) + multiset{x}
    ensures forall i :: 0 <= i < |Insert(x, s)| ==> Insert(x, s)[i] == x || Insert(x, s)[i] in s
  {
    if |s| > 0 && x.chunkIndex < s[|s| - 1].chunkIndex {
      InsertPermutes(x, s[..|s| - 1]);
      assert s == s[..|s| - 1] + [s[|s| - 1]];
    }
  }

  lemma {:induction false} InsertSorts(x: EncryptedChunk, s: seq<EncryptedChunk>)
    requires Sorted(s)
    ensures Sorted(Insert(x, s))
  {
    if |s| > 0 && x.chunkIndex < s[|s| - 1].chunkIndex {
      InsertSorts(x, s[..|s| - 1]);
      InsertPermutes(x, s[..|s| - 1]);
    }
  }

  lemma {:induction false} InsertIsStable(x: EncryptedChunk, s: seq<EncryptedChunk>, index: u32)
    ensures WithIndex(Insert(x, s), index) == WithIndex(s, index) + if x.chunkIndex == index then [x] else []
  {
    if |s| == 0 || s[|s| - 1].chunkIndex <= x.chunkIndex {
      assert (s + [x])[..|s|] == s;
    } else {
      var r := Insert(x, s[..|s| - 1]);
      InsertIsStable(x, s[..|s| - 1], index);
      assert (r + [s[|s| - 1]])[..|r|] == r;
    }
  }

  /** The result is sorted, a rearrangement of the input, and keeps the order of elements
      with equal index; these three leave only one possibility. */
  lemma {:induction false} SortSpec(s: seq<EncryptedChunk>, index: u32)
    ensures Sorted(SortByIndex(s))
    ensures multiset(SortByIndex(s)) == multiset(s)
    ensures WithIndex(SortByIndex(s), index) == WithIndex(s, index)
  {
    hide Insert, Sorted;
    if |s| > 0 {
      var front, last := s[..|s| - 1], s[|s| - 1];
      SortSpec(front, index);
      DropLast(s);
      InsertPermutes(last, SortByIndex(front));
      InsertSorts(last, SortByIndex(front));
      InsertIsStable(last, SortByIndex(front), index);
    } else {
      EmptyIsSorted(SortByIndex(s));
    }
  }

  lemma {:induction false} EmptyIsSorted(s: seq<EncryptedChunk>)
    requires s == []
    ensures Sorted(s)
  {
  }

  ghost predicate StrictlySorted(s: seq<EncryptedChunk>) {
    forall i, j :: 0 <= i < j < |s| ==> s[i].chunkIndex < s[j].chunkIndex
  }

  lemma {:induction false} LastAgrees(s: seq<EncryptedChunk>, p: seq<EncryptedChunk>)
    requires |s| == |p| > 0 && Sorted(s) && StrictlySorted(p) && multiset(s) == multiset(p)
    ensures s[|s| - 1] == p[|p| - 1]
  {
    var a, b := s[|s| - 1], p[|p| - 1];
    assert a in multiset(s) && b in multiset(p);
    assert a in p && b in s;
    var i :| 0 <= i < |p| && p[i] == a;
    var j :| 0 <= j < |s| && s[j] == b;
    assert a.chunkIndex <= b.chunkIndex <= a.chunkIndex;
  }

  lemma {:induction false} SortedUnique(s: seq<EncryptedChunk>, p: seq<EncryptedChunk>)
    requires |s| == |p| && Sorted(s) && StrictlySorted(p) && multiset(s) == multiset(p)
    ensures s == p
  {
    if |s| > 0 {
      var n := |s| - 1;
      LastAgrees(s, p);
      DropLast(s);
      DropLast(p);
      SortedUnique(s[..n], p[..n]);
      calc {
        s;
        s[..n] + [s[n]];
        p[..n] + [p[n]];
        p;
      }
    }
  }

  lemma {:induction false} DropLast(s: seq<EncryptedChunk>)
    requires |s| > 0
    ensures s == s[..|s| - 1] + [s[|s| - 1]]
    ensures multiset(s[..|s| - 1]) == multiset(s) - multiset{s[|s| - 1]}
  {
    assert s == s[..|s| - 1] + [s[|s| - 1]];
  }

  // ----- Reassembly -----

  /** Opens the pieces in order, stopping at the first that fails. */
  function OpenAll(chunks: seq<EncryptedChunk>, key: nat): Result<Text, FileError> {
    if |chunks| == 0 then Ok([])
    else
      var front := OpenAll(chunks[..|chunks| - 1], key);
      if front.Err? then front
      else
        var c := chunks[|chunks| - 1];
        var plaintext := Decrypt(key, c.nonce, c.ciphertext);
        if plaintext.None? then Err(DecryptionFailed)
        else if Sha256(plaintext.value) != c.chunkHash then Err(HashMismatch(c.chunkIndex))
        else Ok(front.value + plaintext.value)
  }

  function ChunkHashes(chunks: seq<EncryptedChunk>): (hashes: seq<Digest>)
    ensures |hashes| == |chunks|
  {
    seq(|chunks|, i requires 0 <= i < |chunks| => chunks[i].chunkHash)
  }

  ghost function Reassembled(chunks: seq<EncryptedChunk>, key: nat): Result<Text, FileError> {
    var sorted := SortByIndex(chunks);
    if |sorted| == 0 then Err(NoChunks)
    else if |sorted| != sorted[0].totalChunks then Err(MissingChunks(|sorted|, sorted[0].totalChunks))
    else if MerkleRoot(ChunkHashes(sorted)) != sorted[0].merkleRoot then Err(RootMismatch)
    else OpenAll(sorted, key)
  }

  method DecryptAndReassemble(chunks: array<EncryptedChunk>, key: nat) returns (result: Result<Text, FileError>)
    modifies chunks
    ensures chunks[..] == SortByIndex(old(chunks[..]))
    ensures result == Reassembled(old(chunks[..]), key)
  {
    var sorted := SortByIndex(chunks[..]);
    forall i | 0 <= i < chunks.Length {
      chunks[i] := sorted[i];
    }
    assert chunks[..] == sorted;
    if chunks.Length == 0 {
      return Err(NoChunks);
    }
    var total := chunks[0].totalChunks;
    if chunks.Length != total {
      return Err(MissingChunks(chunks.Length, total));
    }
    var computedRoot := ComputeMerkleRoot(ChunkHashes(chunks[..]));
    if computedRoot != chunks[0].merkleRoot {
      return Err(RootMismatch);
    }
    var fileData: Text := [];
    var i := 0;
    while i < chunks.Length
      invariant 0 <= i <= chunks.Length
      invariant chunks[..] == sorted
      invariant OpenAll(sorted[..i], key) == Ok(fileData)
    {
      assert sorted[..i + 1][..i] == sorted[..i];
      var plaintext := Decrypt(key, chunks[i].nonce, chunks[i].ciphertext);
      if plaintext.None? || Sha256(plaintext.value) != chunks[i].chunkHash {
        result := Err(if plaintext.None? then DecryptionFailed else HashMismatch(chunks[i].chunkIndex));
        FirstFailure(sorted, i + 1, key);
        return;
      }
      fileData := fileData + plaintext.value;
      i := i + 1;
    }
    assert sorted[..i] == sorted;
    result := Ok(fileData);
  }

  lemma {:induction false} FirstFailure(chunks: seq<EncryptedChunk>, i: nat, key: nat)
    requires i <= |chunks| && OpenAll(chunks[..i], key).Err?
    ensures OpenAll(chunks, key) == OpenAll(chunks[..i], key)
    decreases |chunks|
  {
    if i < |chunks| {
      assert chunks[..|chunks| - 1][..i] == chunks[..i];
      FirstFailure(chunks[..|chunks| - 1], i, key);
    } else {
      assert chunks[..i] == chunks;
    }
  }

  // ----- Round trip -----

  lemma {:induction false} ConcatSnoc<T>(pieces: seq<seq<T>>, last: seq<T>)
    ensures Concat(pieces + [last]) == Concat(pieces) + last
  {
    if |pieces| == 0 {
      assert Concat([last]) == last + Concat([last][1..]);
    } else {
      assert (pieces + [last])[1..] == pieces[1..] + [last];
      ConcatSnoc(pieces[1..], last);
    }
  }

  /** Pieces that open to texts with the recorded hashes give those texts joined. */
  lemma {:induction false} OpenAllOk(chunks: seq<EncryptedChunk>, key: nat, texts: seq<Text>)
    requires |texts| == |chunks|
    requires forall i :: 0 <= i < |chunks| ==>
      Decrypt(key, chunks[i].nonce, chunks[i].ciphertext) == Some(texts[i]) && chunks[i].chunkHash == Sha256(texts[i])
    ensures OpenAll(chunks, key) == Ok(Concat(texts))
  {
    if |chunks| > 0 {
      var n := |chunks| - 1;
      OpenAllOk(chunks[..n], key, texts[..n]);
      ConcatSnoc(texts[..n], texts[n]);
      assert texts == texts[..n] + [texts[n]];
    }
  }

  lemma {:induction false} LabelledInOrder(pieces: seq<Text>, key: nat, nonces: nat -> nat, root: Digest,
      expiry: nat)
    requires |pieces| < U32_BOUND
    ensures StrictlySorted(Labelled(pieces, key, nonces, root, expiry))
  {
    hide Labelled;
    var chunks := Labelled(pieces, key, nonces, root, expiry);
    forall i | 0 <= i < |chunks| ensures chunks[i].chunkIndex == i {
    }
  }

  lemma {:induction false} TotalOfAny(pieces: seq<Text>, key: nat, nonces: nat -> nat, root: Digest,
      expiry: nat, s: seq<EncryptedChunk>)
    requires multiset(s) == multiset(Labelled(pieces, key, nonces, root, expiry))
    ensures |s| == |pieces|
    ensures |s| > 0 ==> s[0].totalChunks == |pieces| % U32_BOUND
  {
    var chunks := Labelled(pieces, key, nonces, root, expiry);
    assert |s| == |multiset(s)| == |multiset(chunks)| == |chunks|;
    if |s| > 0 {
      assert s[0] in multiset(s);
      assert s[0] in chunks;
    }
  }

  /** Sorting undoes any rearrangement of the labelled pieces. */
  lemma {:induction false} SortRestoresOrder(pieces: seq<Text>, key: nat, nonces: nat -> nat, root: Digest,
      expiry: nat, arrived: seq<EncryptedChunk>)
    requires |pieces| < U32_BOUND
    requires multiset(arrived) == multiset(Labelled(pieces, key, nonces, root, expiry))
    ensures SortByIndex(arrived) == Labelled(pieces, key, nonces, root, expiry)
  {
    SortSpec(arrived, 0);
    LabelledInOrder(pieces, key, nonces, root, expiry);
    TotalOfAny(pieces, key, nonces, root, expiry, arrived);
    SortedUnique(SortByIndex(arrived), Labelled(pieces, key, nonces, root, expiry));
  }

  lemma {:induction false} OpenLabelled(pieces: seq<Text>, key: nat, nonces: nat -> nat, root: Digest, expiry: nat)
    ensures OpenAll(Labelled(pieces, key, nonces, root, expiry), key) == Ok(Concat(pieces))
    ensures ChunkHashes(Labelled(pieces, key, nonces, root, expiry)) == Hashes(pieces)
  {
    var chunks := Labelled(pieces, key, nonces, root, expiry);
    assert ChunkHashes(chunks) == Hashes(pieces);
    OpenAllOk(chunks, key, pieces);
  }

  lemma {:induction false} TooManyPieces(pieces: seq<Text>, key: nat, nonces: nat -> nat, root: Digest,
      expiry: nat, arrived: seq<EncryptedChunk>)
    requires |pieces| >= U32_BOUND
    requires multiset(arrived) == multiset(Labelled(pieces, key, nonces, root, expiry))
    ensures Reassembled(arrived, key) == Err(MissingChunks(|pieces|, |pieces| % U32_BOUND))
  {
    SortSpec(arrived, 0);
    TotalOfAny(pieces, key, nonces, root, expiry, SortByIndex(arrived));
  }

  lemma {:induction false} SortedPiecesReassemble(pieces: seq<Text>, key: nat, nonces: nat -> nat, expiry: nat,
      arrived: seq<EncryptedChunk>)
    requires 0 < |pieces| < U32_BOUND
    requires SortByIndex(arrived) == Labelled(pieces, key, nonces, MerkleRoot(Hashes(pieces)), expiry)
    ensures Reassembled(arrived, key) == Ok(Concat(pieces))
  {
    hide SortByIndex, MerkleRoot, Concat, OpenAll;
    var root := MerkleRoot(Hashes(pieces));
    var sorted := Labelled(pieces, key, nonces, root, expiry);
    assert sorted[0].totalChunks == |pieces| && sorted[0].merkleRoot == root;
    OpenLabelled(pieces, key, nonces, root, expiry);
  }

  /** The outcome of reassembly for the labelled pieces of anything, in any order. */
  lemma {:induction false} ReassembleLabelled(pieces: seq<Text>, key: nat, nonces: nat -> nat, expiry: nat,
      arrived: seq<EncryptedChunk>)
    requires multiset(arrived) == multiset(Labelled(pieces, key, nonces, MerkleRoot(Hashes(pieces)), expiry))
    ensures Reassembled(arrived, key) ==
      if |pieces| == 0 then Err(NoChunks)
      else if |pieces| < U32_BOUND then Ok(Concat(pieces))
      else Err(MissingChunks(|pieces|, |pieces| % U32_BOUND))
  {
    var root := MerkleRoot(Hashes(pieces));
    if |pieces| >= U32_BOUND {
      TooManyPieces(pieces, key, nonces, root, expiry, arrived);
    } else {
      SortRestoresOrder(pieces, key, nonces, root, expiry, arrived);
      if |pieces| > 0 {
        SortedPiecesReassemble(pieces, key, nonces, expiry, arrived);
      }
    }
  }

  /** For every file, key and choice of nonces, and every order in which the pieces arrive,
      reassembly returns the file exactly when the file has at least one piece and the number
      of its 512 KiB pieces fits the 32-bit total. */
  lemma {:induction false} RoundTripIff(data: Text, key: nat, nonces: nat -> nat, expiry: nat,
      arrived: seq<EncryptedChunk>)
    requires multiset(arrived) == multiset(SentPieces(data, key, nonces, expiry))
    ensures Reassembled(arrived, key) == Ok(data) <==> 0 < (|data| + 524_287) / 524_288 < 0x1_0000_0000
  {
    PiecesCount(data, CHUNK_SIZE);
    ReassembleLabelled(Pieces(data, CHUNK_SIZE), key, nonces, expiry, arrived);
    PiecesConcat(data, CHUNK_SIZE);
  }

  /** What a piece on its way carries: its place, the number of pieces, its 512 KiB of the file
      sealed under the key and its nonce, the hash of that text, the root, and the expiry. */
  lemma {:induction false} SentPieceFields(data: Text, key: nat, nonces: nat -> nat, expiry: nat, i: nat)
    requires i < |SentPieces(data, key, nonces, expiry)|
    ensures |SentPieces(data, key, nonces, expiry)| == (|data| + 524_287) / 524_288
    ensures
      var piece := SentPieces(data, key, nonces, expiry)[i];
      var end := if 524_288 * (i + 1) <= |data| then 524_288 * (i + 1) else |data|;
      && 524_288 * i < end
      && piece.chunkIndex == i % 0x1_0000_0000
      && piece.totalChunks == |SentPieces(data, key, nonces, expiry)| % 0x1_0000_0000
      && piece.ciphertext == Sealed(key, nonces(i), data[524_288 * i..end]) && piece.nonce == nonces(i)
      && CiphertextSize(piece.ciphertext) == end - 524_288 * i + 16
      && piece.chunkHash == Sha256(data[524_288 * i..end])
      && piece.merkleRoot == MerkleRoot(Hashes(Pieces(data, CHUNK_SIZE))) && piece.expiresAt == expiry
  {
    hide MerkleRoot;
    PiecesCount(data, CHUNK_SIZE);
    PieceAt(data, CHUNK_SIZE, i);
  }

  lemma {:induction false} PieceAt<T>(data: seq<T>, size: nat, i: nat)
    requires size > 0 && i < |Pieces(data, size)|
    ensures
      var end := if size * (i + 1) <= |data| then size * (i + 1) else |data|;
      0 <= size * i < end && Pieces(data, size)[i] == data[size * i..end]
    decreases |data|
  {
    if i == 0 {
      Multiples(size, 0);
    } else {
      var rest := data[size..];
      PieceAt(rest, size, i - 1);
      Multiples(size, i - 1);
      Multiples(size, i);
      var start := size * (i - 1);
      var end := if size * i <= |rest| then size * i else |rest|;
      SliceOfRest(data, size, start, end);
    }
  }

  lemma {:induction false} Multiples(size: nat, i: nat)
    ensures size * 0 == 0 && size * (i + 1) == size * i + size && size * i >= 0
  {
  }

  lemma {:induction false} SliceOfRest<T>(data: seq<T>, size: nat, start: nat, end: nat)
    requires size <= |data| && start <= end <= |data| - size
    ensures data[size..][start..end] == data[size + start..size + end]
  {
  }

  // ----- Every outcome -----

  ghost predicate OpensWell(c: EncryptedChunk, key: nat) {
    var text := Decrypt(key, c.nonce, c.ciphertext);
    text.Some? && c.chunkHash == Sha256(text.value)
  }

  ghost predicate FailsFirstAt(chunks: seq<EncryptedChunk>, key: nat, i: nat) {
    i < |chunks| && !OpensWell(chunks[i], key) && forall k :: 0 <= k < i ==> OpensWell(chunks[k], key)
  }

  lemma {:induction false} OpensUpTo(chunks: seq<EncryptedChunk>, key: nat, i: nat)
    requires FailsFirstAt(chunks, key, i)
    ensures OpenAll(chunks, key) ==
      if Decrypt(key, chunks[i].nonce, chunks[i].ciphertext).None? then Err(DecryptionFailed)
      else Err(HashMismatch(chunks[i].chunkIndex))
    decreases |chunks|
  {
    var n := |chunks| - 1;
    if i < n {
      OpensUpTo(chunks[..n], key, i);
    } else {
      AllOpen(chunks[..n], key);
    }
  }

  lemma {:induction false} AllOpen(chunks: seq<EncryptedChunk>, key: nat)
    requires forall k :: 0 <= k < |chunks| ==> OpensWell(chunks[k], key)
    ensures OpenAll(chunks, key).Ok?
  {
    if |chunks| > 0 {
      AllOpen(chunks[..|chunks| - 1], key);
    }
  }

  /** The outcome for any pieces: without pieces there is none; in the order of their indices,
      the first decides the number and the root they must have, whatever root that is; then the
      first that does not open to a text with its own hash decides the error. */
  lemma {:induction false} ReassembledOutcome(offered: seq<EncryptedChunk>, key: nat)
    ensures offered == [] ==> Reassembled(offered, key) == Err(NoChunks)
    ensures |offered| > 0 ==>
      var sorted := SortByIndex(offered);
      var hashes := seq(|offered|, i requires 0 <= i < |offered| => sorted[i].chunkHash);
      && (|offered| != sorted[0].totalChunks ==>
            Reassembled(offered, key) == Err(MissingChunks(|offered|, sorted[0].totalChunks)))
      && (|offered| == sorted[0].totalChunks && MerkleRoot(hashes) != sorted[0].merkleRoot ==>
            Reassembled(offered, key) == Err(RootMismatch))
      && (|offered| == sorted[0].totalChunks && MerkleRoot(hashes) == sorted[0].merkleRoot ==>
            && (forall i: nat :: FailsFirstAt(sorted, key, i) ==>
                  Reassembled(offered, key) ==
                    if Decrypt(key, sorted[i].nonce, sorted[i].ciphertext).None? then Err(DecryptionFailed)
                    else Err(HashMismatch(sorted[i].chunkIndex)))
            && ((forall i :: 0 <= i < |offered| ==> OpensWell(sorted[i], key)) ==> Reassembled(offered, key).Ok?))
  {
    hide SortByIndex, MerkleRoot, OpenAll, OpensWell;
    if |offered| > 0 {
      var sorted := SortByIndex(offered);
      assert ChunkHashes(sorted) == seq(|offered|, i requires 0 <= i < |offered| => sorted[i].chunkHash);
      forall i: nat | FailsFirstAt(sorted, key, i)
        ensures OpenAll(sorted, key) ==
          if Decrypt(key, sorted[i].nonce, sorted[i].ciphertext).None? then Err(DecryptionFailed)
          else Err(HashMismatch(sorted[i].chunkIndex))
      {
        OpensUpTo(sorted, key, i);
      }
      if forall i :: 0 <= i < |offered| ==> OpensWell(sorted[i], key) {
        AllOpen(sorted, key);
      }
    }
  }

  // ----- What the root of a file admits -----

  ghost predicate TextsOpen(chunks: seq<EncryptedChunk>, key: nat, texts: seq<Text>) {
    |texts| == |chunks| && forall i :: 0 <= i < |chunks| ==>
      Decrypt(key, chunks[i].nonce, chunks[i].ciphertext) == Some(texts[i]) && chunks[i].chunkHash == Sha256(texts[i])
  }

  lemma {:induction false} OpenedTexts(chunks: seq<EncryptedChunk>, key: nat) returns (texts: seq<Text>)
    requires OpenAll(chunks, key).Ok?
    ensures TextsOpen(chunks, key, texts)
  {
    texts := [];
    if |chunks| > 0 {
      var n := |chunks| - 1;
      texts := OpenedTexts(chunks[..n], key);
      texts := texts + [Decrypt(key, chunks[n].nonce, chunks[n].ciphertext).value];
    }
  }

  /** The texts the offered pieces hold, in order, have the tree of the file. */
  ghost predicate OpensUnder(chunks: seq<EncryptedChunk>, key: nat, file: Text, texts: seq<Text>)
    requires |file| > 0
  {
    TextsOpen(chunks, key, texts) && |texts| > 0 && SameTree(texts, Pieces(file, CHUNK_SIZE))
  }

  /** Integrity: pieces of any number, the first in order under the root of a file, are accepted
      exactly when their number is the announced one and they hold texts with the tree of that
      file; the output is these texts. */
  lemma {:induction false} AcceptedIff(offered: seq<EncryptedChunk>, key: nat, file: Text, output: Text)
    requires |file| > 0 && |offered| > 0 && SortByIndex(offered)[0].merkleRoot == FileRoot(file)
    ensures Reassembled(offered, key) == Ok(output) <==>
      && |offered| == SortByIndex(offered)[0].totalChunks
      && exists texts :: OpensUnder(SortByIndex(offered), key, file, texts) && output == Concat(texts)
  {
    hide Concat, SortByIndex, MerkleRoot, SameTree;
    var sorted := SortByIndex(offered);
    if OpenAll(sorted, key).Ok? {
      var texts := OpenedTexts(sorted, key);
      OpenedUnder(sorted, key, file, texts);
    }
    if texts :| OpensUnder(sorted, key, file, texts) && output == Concat(texts) {
      OpenedUnder(sorted, key, file, texts);
    }
  }

  lemma {:induction false} OpenedUnder(chunks: seq<EncryptedChunk>, key: nat, file: Text, texts: seq<Text>)
    requires |file| > 0 && |chunks| > 0 && TextsOpen(chunks, key, texts)
    ensures OpenAll(chunks, key) == Ok(Concat(texts))
    ensures MerkleRoot(ChunkHashes(chunks)) == FileRoot(file) <==> OpensUnder(chunks, key, file, texts)
  {
    hide Concat, MerkleRoot, SameTree;
    OpenAllOk(chunks, key, texts);
    assert ChunkHashes(chunks) == Hashes(texts);
    RootsAgreeIff(texts, Pieces(file, CHUNK_SIZE));
  }

  // ----- Pieces that are not digests -----

  /** The pieces of a file, continued with the repetitions its Merkle tree stands for. */
  ghost function RepeatedPieces(file: Text): seq<Text>
    requires |file| > 0
  {
    Padded(Pieces(file, CHUNK_SIZE))
  }

  /** A beginning of the repeated pieces, of length `m`, whose own repetitions are the same. */
  ghost predicate Admits(file: Text, m: nat) {
    && 0 < m && |file| > 0 && m <= |RepeatedPieces(file)|
    && Padded(RepeatedPieces(file)[..m]) == RepeatedPieces(file)
  }

  lemma {:induction false} RepeatedPiecesFacts(file: Text)
    requires |file| > 0
    ensures
      var all, n := RepeatedPieces(file), |Pieces(file, CHUNK_SIZE)|;
      && 0 < n <= |all| && all[..n] == Pieces(file, CHUNK_SIZE)
      && forall i :: 0 <= i < |all| ==> |all[i]| > 0
  {
    var all, pieces := RepeatedPieces(file), Pieces(file, CHUNK_SIZE);
    PaddedPrefix(pieces);
    forall i | 0 <= i < |all| ensures |all[i]| > 0 {
      assert all[i] in pieces;
      var j :| 0 <= j < |pieces| && pieces[j] == all[i];
      PieceSizes(file, CHUNK_SIZE, j);
    }
  }

  lemma {:induction false} PaddingsAdmit(file: Text, texts: seq<Text>)
    requires |file| > 0 && |texts| > 0
    ensures Padded(texts) == RepeatedPieces(file) <==>
      Admits(file, |texts|) && texts == RepeatedPieces(file)[..|texts|]
  {
    PaddedPrefix(texts);
  }

  ghost predicate FirstIsNoDigestPair(chunks: seq<EncryptedChunk>, key: nat)
    requires |chunks| > 0
  {
    var text := Decrypt(key, chunks[0].nonce, chunks[0].ciphertext);
    text.Some? ==> |text.value| != 64
  }

  /** Unless the file or the first text offered has 64 octets, accepted pieces hold, in order, a
      beginning of the repeated pieces of the file with the same repetitions. */
  lemma {:induction false} AcceptedIffRepeated(offered: seq<EncryptedChunk>, key: nat, file: Text, output: Text)
    requires |file| > 0 && |offered| > 0 && SortByIndex(offered)[0].merkleRoot == FileRoot(file)
    requires |file| != 64 && FirstIsNoDigestPair(SortByIndex(offered), key)
    ensures Reassembled(offered, key) == Ok(output) <==>
      && |offered| == SortByIndex(offered)[0].totalChunks
      && Admits(file, |offered|)
      && TextsOpen(SortByIndex(offered), key, RepeatedPieces(file)[..|offered|])
      && output == Concat(RepeatedPieces(file)[..|offered|])
  {
    hide Reassembled, Concat, SortByIndex, SameTree, RepeatedPieces, MerkleRoot;
    var sorted := SortByIndex(offered);
    AcceptedIff(offered, key, file, output);
    if texts :| OpensUnder(sorted, key, file, texts) && output == Concat(texts) {
      OrdinaryTexts(sorted, key, file, texts);
    }
    if Admits(file, |offered|) && TextsOpen(sorted, key, RepeatedPieces(file)[..|offered|]) {
      OrdinaryTexts(sorted, key, file, RepeatedPieces(file)[..|offered|]);
    }
  }

  lemma {:induction false} OrdinaryTexts(chunks: seq<EncryptedChunk>, key: nat, file: Text, texts: seq<Text>)
    requires |file| > 0 && |chunks| > 0 && |file| != 64 && FirstIsNoDigestPair(chunks, key)
    requires TextsOpen(chunks, key, texts)
    ensures OpensUnder(chunks, key, file, texts) <==>
      Admits(file, |texts|) && texts == RepeatedPieces(file)[..|texts|]
  {
    hide SameTree, MerkleRoot, Padded;
    var pieces := Pieces(file, CHUNK_SIZE);
    PieceSizes(file, CHUNK_SIZE, 0);
    FirstPiece(file);
    RootsAgreeIff(texts, pieces);
    RootsAgreeIffPaddingsAgree(texts, pieces);
    PaddingsAdmit(file, texts);
  }

  lemma {:induction false} FirstPiece(file: Text)
    requires |file| > 0
    ensures |Pieces(file, CHUNK_SIZE)| > 0
    ensures |Pieces(file, CHUNK_SIZE)[0]| == if |file| <= CHUNK_SIZE then |file| else CHUNK_SIZE
  {
  }

  // ----- When the output is the file -----

  lemma {:induction false} ConcatLonger(texts: seq<Text>, m: nat, n: nat)
    requires m < n <= |texts| && forall i :: 0 <= i < |texts| ==> |texts[i]| > 0
    ensures |Concat(texts[..m])| < |Concat(texts[..n])|
  {
    ConcatSnoc(texts[..n - 1], texts[n - 1]);
    assert texts[..n] == texts[..n - 1] + [texts[n - 1]];
    if m < n - 1 {
      ConcatLonger(texts, m, n - 1);
    }
  }

  lemma {:induction false} ConcatOfPairs(texts: seq<Text>)
    requires forall i :: 0 <= i < |texts| ==> |texts[i]| == 64
    ensures |Concat(texts)| == 64 * |texts|
  {
    if |texts| > 0 {
      ConcatOfPairs(texts[1..]);
    }
  }

  lemma {:induction false} FileLongerThanDigests(file: Text)
    requires |file| > 0
    ensures |file| > 64 * (|Pieces(file, CHUNK_SIZE)| - 1)
    decreases |file|
  {
    if |file| > CHUNK_SIZE {
      FileLongerThanDigests(file[CHUNK_SIZE..]);
    }
  }

  lemma {:induction false} MoreTexts(file: Text, texts: seq<Text>)
    requires |file| > 0 && |texts| > 0 && Height(|texts|) == Height(|Pieces(file, CHUNK_SIZE)|)
    requires SameTree(texts, Pieces(file, CHUNK_SIZE))
    ensures Concat(texts) == file <==> |texts| == |Pieces(file, CHUNK_SIZE)|
  {
    hide Concat, Height, Padded;
    var m, n := |texts|, |Pieces(file, CHUNK_SIZE)|;
    assert Layer(Pieces(file, CHUNK_SIZE), 0) == Pieces(file, CHUNK_SIZE);
    PaddingsAdmit(file, texts);
    RepeatedPiecesFacts(file);
    PiecesConcat(file, CHUNK_SIZE);
    if m < n {
      ConcatLonger(RepeatedPieces(file), m, n);
    } else if n < m {
      ConcatLonger(RepeatedPieces(file), n, m);
    }
  }

  /** Digests of the file in place of its pieces are shorter than the file. */
  lemma {:induction false} HigherLayerDiffers(file: Text, texts: seq<Text>)
    requires |file| > 0 && |texts| > 0 && Height(|texts|) < Height(|Pieces(file, CHUNK_SIZE)|)
    requires SameTree(texts, Pieces(file, CHUNK_SIZE))
    ensures |Concat(texts)| < |file| && |texts| < |Pieces(file, CHUNK_SIZE)|
  {
    hide Concat, SameTree;
    LowerTreeHasDigests(texts, Pieces(file, CHUNK_SIZE));
    ConcatOfPairs(texts);
    FileLongerThanDigests(file);
    if |texts| >= |Pieces(file, CHUNK_SIZE)| {
      HeightMonotone(|Pieces(file, CHUNK_SIZE)|, |texts|);
    }
  }

  /** A file that is itself two digests differs from the texts below these. */
  lemma {:induction false} LowerLayerDiffers(file: Text, texts: seq<Text>)
    requires |file| > 0 && |texts| > 0 && Height(|texts|) > Height(|Pieces(file, CHUNK_SIZE)|)
    requires SameTree(texts, Pieces(file, CHUNK_SIZE))
    ensures Concat(texts) != file && |texts| > |Pieces(file, CHUNK_SIZE)|
  {
    hide SameTree, Depth;
    var pieces := Pieces(file, CHUNK_SIZE);
    var d := Height(|texts|) - Height(|pieces|);
    SameTreeSymmetric(texts, pieces);
    LowerTreeHasDigests(pieces, texts);
    FirstPiece(file);
    LayerFacts(texts, d);
    OnePieceTree(file, texts);
    LayerIsDeeper(texts, d);
    if |texts| <= |pieces| {
      HeightMonotone(|texts|, |pieces|);
    }
  }

  lemma {:induction false} OnePieceTree(file: Text, texts: seq<Text>)
    requires |file| > 0 && |texts| > 0 && |Pieces(file, CHUNK_SIZE)| == 1 && Height(|texts|) > 0
    requires SameTree(texts, Pieces(file, CHUNK_SIZE))
    ensures Concat(Layer(texts, Height(|texts|))) == file
  {
    var layer := Layer(texts, Height(|texts|));
    LayerFacts(texts, Height(|texts|));
    HeightIsCeilLog2(|layer|);
    assert |layer| == 1;
    PaddedPrefix(layer);
    PaddedPrefix(Pieces(file, CHUNK_SIZE));
    PiecesConcat(file, CHUNK_SIZE);
  }

  /** How deeply hashes are nested in a text. */
  ghost function Depth(text: Text): nat {
    if |text| == 0 then 0
    else
      var rest, first := Depth(text[1..]), OctetDepth(text[0]);
      if first > rest then first else rest
  }

  ghost function OctetDepth(o: Octet): nat {
    match o
    case Plain(_) => 0
    case OfHash(ZeroDigest, _) => 1
    case OfHash(Sha256(preimage), _) => 1 + Depth(preimage)
  }

  lemma {:induction false} DepthOfPart(text: Text, other: Text)
    ensures Depth(text + other) >= Depth(text) && Depth(text + other) >= Depth(other)
    ensures Depth(text + other) == Depth(text) || Depth(text + other) == Depth(other)
  {
    if |text| == 0 {
      assert text + other == other;
    } else {
      assert (text + other)[1..] == text[1..] + other;
      DepthOfPart(text[1..], other);
    }
  }

  lemma {:induction false} DepthOfOctet(text: Text, i: nat)
    requires i < |text|
    ensures Depth(text) >= OctetDepth(text[i])
  {
    if i > 0 {
      DepthOfOctet(text[1..], i - 1);
    }
  }

  lemma {:induction false} JoinIsDeeper(x: Text, y: Text)
    ensures Depth(Join(Sha256(x), Sha256(y))) > Depth(x) && Depth(Join(Sha256(x), Sha256(y))) > Depth(y)
  {
    var text := Join(Sha256(x), Sha256(y));
    assert text[0] == OfHash(Sha256(x), 0) && text[32] == OfHash(Sha256(y), 0);
    DepthOfOctet(text, 0);
    DepthOfOctet(text, 32);
  }

  lemma {:induction false} DepthOfText(texts: seq<Text>, i: nat)
    requires i < |texts|
    ensures Depth(Concat(texts)) >= Depth(texts[i])
  {
    DepthOfPart(texts[0], Concat(texts[1..]));
    if i > 0 {
      DepthOfText(texts[1..], i - 1);
    }
  }

  lemma {:induction false} DeepestText(texts: seq<Text>) returns (i: nat)
    requires |texts| > 0
    ensures i < |texts| && Depth(Concat(texts)) == Depth(texts[i])
  {
    DepthOfPart(texts[0], Concat(texts[1..]));
    if Depth(Concat(texts)) == Depth(texts[0]) {
      i := 0;
    } else {
      i := DeepestText(texts[1..]);
      i := i + 1;
    }
  }

  lemma {:induction false} PairsAreDeeper(texts: seq<Text>)
    requires |texts| > 0
    ensures Depth(Concat(Pairs(Hashes(texts)))) > Depth(Concat(texts))
  {
    hide Depth, Join, Concat;
    var i := DeepestText(texts);
    var pairs := Pairs(Hashes(texts));
    var j := i / 2;
    var y := if 2 * j + 1 < |texts| then texts[2 * j + 1] else texts[2 * j];
    assert pairs[j] == Join(Sha256(texts[2 * j]), Sha256(y));
    JoinIsDeeper(texts[2 * j], y);
    DepthOfText(pairs, j);
  }

  lemma {:induction false} LayerIsDeeper(texts: seq<Text>, d: nat)
    requires |texts| > 0 && 0 < d <= Height(|texts|)
    ensures Depth(Concat(Layer(texts, d))) > Depth(Concat(texts))
  {
    hide Depth, Concat, Hashes, Pairs, Height;
    if d > 1 {
      LayerIsDeeper(texts, d - 1);
      LayerFacts(texts, d - 1);
    }
    PairsAreDeeper(Layer(texts, d - 1));
  }

  /** Whatever is accepted under the root of a file, even digests, is that file exactly when
      there are as many pieces. */
  lemma {:induction false} AuthenticIff(offered: seq<EncryptedChunk>, key: nat, file: Text)
    requires |file| > 0 && |offered| > 0 && SortByIndex(offered)[0].merkleRoot == FileRoot(file)
    requires Reassembled(offered, key).Ok?
    ensures Reassembled(offered, key) == Ok(file) <==> |offered| == |Pieces(file, CHUNK_SIZE)|
  {
    hide Concat, Reassembled, SameTree, Height, MerkleRoot;
    var output := Reassembled(offered, key).value;
    AcceptedIff(offered, key, file, output);
    var texts :| OpensUnder(SortByIndex(offered), key, file, texts) && output == Concat(texts);
    var h, k := Height(|texts|), Height(|Pieces(file, CHUNK_SIZE)|);
    if h == k {
      MoreTexts(file, texts);
    } else if h < k {
      HigherLayerDiffers(file, texts);
    } else {
      LowerLayerDiffers(file, texts);
    }
  }

  // ----- Accepted under the root of another file -----

  /** An odd number of pieces above one and the last of them again is always accepted: the
      count comes from the pieces, which the root does not cover. */
  lemma {:induction false} RepeatedLastAccepted(file: Text, key: nat, nonces: nat -> nat, expiry: nat,
      arrived: seq<EncryptedChunk>)
    requires
      var pieces := Pieces(file, CHUNK_SIZE);
      && 1 < |pieces| < U32_BOUND - 1 && |pieces| % 2 == 1
      && multiset(arrived)
        == multiset(Labelled(pieces + [pieces[|pieces| - 1]], key, nonces, FileRoot(file), expiry))
    ensures
      var pieces := Pieces(file, CHUNK_SIZE);
      Reassembled(arrived, key) == Ok(file + pieces[|pieces| - 1])
  {
    hide MerkleRoot, Reassembled, Concat, Pieces;
    var pieces := Pieces(file, CHUNK_SIZE);
    var last := pieces[|pieces| - 1];
    assert Hashes(pieces + [last]) == Hashes(pieces) + [Hashes(pieces)[|pieces| - 1]];
    RootIgnoresRepeatedLast(Hashes(pieces));
    ReassembleLabelled(pieces + [last], key, nonces, expiry, arrived);
    ConcatSnoc(pieces, last);
    PiecesConcat(file, CHUNK_SIZE);
  }

  /** Nothing tells a chunk from two digests: what is hashed at any inner layer of the tree of
      a file is accepted in place of its pieces. */
  lemma {:induction false} InnerLayerAccepted(file: Text, d: nat, key: nat, nonces: nat -> nat, expiry: nat,
      arrived: seq<EncryptedChunk>)
    requires |file| > 0 && 0 < d <= Height(|Pieces(file, CHUNK_SIZE)|)
    requires
      var layer := Layer(Pieces(file, CHUNK_SIZE), d);
      |layer| < U32_BOUND && multiset(arrived) == multiset(Labelled(layer, key, nonces, FileRoot(file), expiry))
    ensures Reassembled(arrived, key) == Ok(Concat(Layer(Pieces(file, CHUNK_SIZE), d)))
    ensures Reassembled(arrived, key) != Ok(file)
  {
    hide MerkleRoot, Layer, Reassembled, Concat;
    var pieces := Pieces(file, CHUNK_SIZE);
    var layer := Layer(pieces, d);
    LayerFacts(pieces, d);
    ReassembleLabelled(layer, key, nonces, expiry, arrived);
    RootsAgreeIff(layer, pieces);
    HigherLayerDiffers(file, layer);
  }

  /** For a file of two pieces: the 64 octets of their hashes, as one piece, are accepted. */
  lemma {:induction false} DigestPairAccepted(p: Text, q: Text, file: Text, key: nat, nonce: nat, expiry: nat)
    requires Pieces(file, CHUNK_SIZE) == [p, q]
    ensures
      var pair := Join(Sha256(p), Sha256(q));
      Reassembled([Piece(pair, 0, 1, key, nonce, FileRoot(file), expiry)], key) == Ok(pair)
  {
    hide Join;
    var pieces := Pieces(file, CHUNK_SIZE);
    var pair := Join(Sha256(p), Sha256(q));
    assert Hashes(pieces) == [Sha256(p), Sha256(q)];
    assert Pairs(Hashes(pieces)) == [pair];
    assert Layer(pieces, 1) == [pair] by { assert Layer(pieces, 0) == pieces; }
    assert Height(2) == 1;
    var arrived := [Piece(pair, 0, 1, key, nonce, FileRoot(file), expiry)];
    assert arrived == Labelled([pair], key, _ => nonce, FileRoot(file), expiry);
    InnerLayerAccepted(file, 1, key, _ => nonce, expiry, arrived);
    assert Concat([pair]) == pair + Concat([pair][1..]) == pair;
  }
}
