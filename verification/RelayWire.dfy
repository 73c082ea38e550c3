/**
The byte layout of a relayed file piece (`RelayWireChunk`): fixed-width little-endian
integers, fixed-size arrays without a length, and a vector preceded by its 64-bit length.
*/
module RelayWire {
  import opened Prelude

  const RELAY_WIRE_VERSION: byte := 1
  const MAX_RELAY_CIPHERTEXT := 900_000
  /** Everything but the ciphertext: version, index, total, nonce, hash, root, length. */
  const WIRE_OVERHEAD := 1 + 4 + 4 + 12 + 32 + 32 + 8

  datatype WireChunk = WireChunk(
    version: byte,
    chunkIndex: u32,
    totalChunks: u32,
    nonce: seq<byte>,
    chunkHash: seq<byte>,
    merkleRoot: seq<byte>,
    ciphertext: seq<byte>)

  datatype WireError = TooLarge(size: nat) | Truncated | UnsupportedVersion(version: byte)

  /** The arrays have their declared sizes and the vector's length fits its field. */
  predicate WellSized(c: WireChunk) {
    && |c.nonce| == 12
    && |c.chunkHash| == 32
    && |c.merkleRoot| == 32
    && |c.ciphertext| < Pow256(8)
  }

  function LittleEndian(v: nat, width: nat): (bytes: seq<byte>)
    ensures |bytes| == width
  {
    if width == 0 then [] else [v % 256] + LittleEndian(v / 256, width - 1)
  }

  function FromLittleEndian(bytes: seq<byte>): nat {
    if |bytes| == 0 then 0 else bytes[0] + 256 * FromLittleEndian(bytes[1..])
  }

  lemma {:induction false} LittleEndianRoundTrip(v: nat, width: nat)
    requires v < Pow256(width)
    ensures FromLittleEndian(LittleEndian(v, width)) == v
  {
    if width > 0 {
      LittleEndianRoundTrip(v / 256, width - 1);
    }
  }

  function Serialize(c: WireChunk): seq<byte> {
    HeadBytes(c) + BodyBytes(c)
  }

  function HeadBytes(c: WireChunk): seq<byte> {
    [c.version] + LittleEndian(c.chunkIndex, 4) + LittleEndian(c.totalChunks, 4) + c.nonce
  }

  function BodyBytes(c: WireChunk): seq<byte> {
    c.chunkHash + c.merkleRoot + LittleEndian(|c.ciphertext|, 8) + c.ciphertext
  }

  lemma {:induction false} HeadFields(c: WireChunk)
    requires |c.nonce| == 12
    ensures
      var head := HeadBytes(c);
      && |head| == 21 && head[0] == c.version && head[9..21] == c.nonce
      && head[1..5] == LittleEndian(c.chunkIndex, 4) && head[5..9] == LittleEndian(c.totalChunks, 4)
  {
  }

  lemma {:induction false} BodyFields(c: WireChunk)
    requires WellSized(c)
    ensures
      var body := BodyBytes(c);
      && |body| == 72 + |c.ciphertext| && body[..32] == c.chunkHash && body[32..64] == c.merkleRoot
      && body[64..72] == LittleEndian(|c.ciphertext|, 8) && body[72..] == c.ciphertext
  {
    hide LittleEndian;
    FourParts(c.chunkHash, c.merkleRoot, LittleEndian(|c.ciphertext|, 8), c.ciphertext);
  }

  lemma {:induction false} FourParts(a: seq<byte>, b: seq<byte>, c: seq<byte>, d: seq<byte>)
    ensures
      var all := a + b + c + d;
      && all[..|a|] == a && all[|a|..|a| + |b|] == b
      && all[|a| + |b|..|a| + |b| + |c|] == c && all[|a| + |b| + |c|..] == d
  {
  }

  lemma {:induction false} SliceOfLeft(a: seq<byte>, b: seq<byte>, i: nat, j: nat)
    requires i <= j <= |a|
    ensures (a + b)[i..j] == a[i..j]
  {
  }

  lemma {:induction false} SliceOfRight(a: seq<byte>, b: seq<byte>, i: nat, j: nat)
    requires |a| <= i <= j <= |a| + |b|
    ensures (a + b)[i..j] == b[i - |a|..j - |a|]
  {
  }

  /** Where the fields are in the bytes. */
  lemma {:induction false} SerializedFields(c: WireChunk, trailing: seq<byte>)
    requires WellSized(c)
    ensures
      var data := Serialize(c) + trailing;
      && |data| == WIRE_OVERHEAD + |c.ciphertext| + |trailing|
      && data[0] == c.version
      && data[1..5] == LittleEndian(c.chunkIndex, 4) && data[5..9] == LittleEndian(c.totalChunks, 4)
      && data[9..21] == c.nonce && data[21..53] == c.chunkHash && data[53..85] == c.merkleRoot
      && data[85..93] == LittleEndian(|c.ciphertext|, 8) && data[93..93 + |c.ciphertext|] == c.ciphertext
  {
    hide HeadBytes, BodyBytes, LittleEndian;
    HeadFields(c);
    BodyFields(c);
    var head, rest := HeadBytes(c), BodyBytes(c) + trailing;
    var data := Serialize(c) + trailing;
    assert data == head + rest;
    SliceOfLeft(head, rest, 1, 5);
    SliceOfLeft(head, rest, 5, 9);
    SliceOfLeft(head, rest, 9, 21);
    BodySlice(head, BodyBytes(c), trailing, 0, 32);
    BodySlice(head, BodyBytes(c), trailing, 32, 64);
    BodySlice(head, BodyBytes(c), trailing, 64, 72);
    BodySlice(head, BodyBytes(c), trailing, 72, |BodyBytes(c)|);
  }

  lemma {:induction false} BodySlice(head: seq<byte>, body: seq<byte>, trailing: seq<byte>, i: nat, j: nat)
    requires i <= j <= |body|
    ensures (head + (body + trailing))[|head| + i..|head| + j] == body[i..j]
  {
    SliceOfRight(head, body + trailing, |head| + i, |head| + j);
    SliceOfLeft(body, trailing, i, j);
  }

  function ToRelayWireBytes(c: WireChunk): Result<seq<byte>, WireError> {
    var bytes := Serialize(c.(version := RELAY_WIRE_VERSION));
    if |bytes| > MAX_RELAY_CIPHERTEXT then Err(TooLarge(|bytes|)) else Ok(bytes)
  }

  function FromRelayWireBytes(data: seq<byte>): Result<WireChunk, WireError> {
    if |data| < WIRE_OVERHEAD then Err(Truncated)
    else
      var length := FromLittleEndian(data[85..93]);
      if |data| < WIRE_OVERHEAD + length then Err(Truncated)
      else if data[0] != RELAY_WIRE_VERSION then Err(UnsupportedVersion(data[0]))
      else
        FourBytesFit(data[1..5]);
        FourBytesFit(data[5..9]);
        Ok(WireChunk(data[0], FromLittleEndian(data[1..5]), FromLittleEndian(data[5..9]),
                     data[9..21], data[21..53], data[53..85], data[93..93 + length]))
  }

  lemma {:induction false} FourBytesFit(bytes: seq<byte>)
    requires |bytes| == 4
    ensures FromLittleEndian(bytes) < U32_BOUND
  {
    assert FromLittleEndian(bytes[1..]) == bytes[1] + 256 * FromLittleEndian(bytes[2..]) by {
      assert bytes[1..][1..] == bytes[2..];
    }
    assert FromLittleEndian(bytes[2..]) == bytes[2] + 256 * FromLittleEndian(bytes[3..]) by {
      assert bytes[2..][1..] == bytes[3..];
    }
    assert FromLittleEndian(bytes[3..]) == bytes[3] + 256 * FromLittleEndian(bytes[3..][1..]);
  }

  /** Byte `i` is the digit of weight 256^i: the least significant comes first. */
  lemma {:induction false} LittleEndianByte(v: nat, width: nat, i: nat)
    requires i < width
    ensures LittleEndian(v, width)[i] == v / Pow256(i) % 256
  {
    if i > 0 {
      LittleEndianByte(v / 256, width - 1, i - 1);
      DivideTwice(v, Pow256(i - 1));
    } else {
      assert v / 1 == v;
    }
  }

  lemma {:induction false} SerializedSize(c: WireChunk)
    requires WellSized(c)
    ensures |Serialize(c)| == WIRE_OVERHEAD + |c.ciphertext|
  {
  }

  /** A piece is accepted for the relay exactly when its ciphertext leaves room for the
      other fields. */
  lemma {:induction false} AcceptedIffSmall(c: WireChunk)
    requires WellSized(c)
    ensures ToRelayWireBytes(c).Ok? <==> |c.ciphertext| + 93 <= 900_000
  {
    SerializedSize(c.(version := RELAY_WIRE_VERSION));
  }

  /** The bytes of a piece the relay accepts, field by field: version 1, index and total of
      four bytes, nonce, hash, root, the ciphertext's length of eight bytes, the ciphertext; at
      most 900000 bytes in all. */
  lemma {:induction false} WireLayout(c: WireChunk)
    requires WellSized(c)
    ensures ToRelayWireBytes(c).Ok? <==> |c.ciphertext| <= 900_000 - 93
    ensures ToRelayWireBytes(c).Err? ==> ToRelayWireBytes(c) == Err(TooLarge(93 + |c.ciphertext|))
    ensures ToRelayWireBytes(c).Ok? ==>
      var bytes := ToRelayWireBytes(c).value;
      && |bytes| == 93 + |c.ciphertext| && bytes[0] == 1
      && (forall i: nat :: i < 4 ==> bytes[1..5][i] == c.chunkIndex / Pow256(i) % 256)
      && (forall i: nat :: i < 4 ==> bytes[5..9][i] == c.totalChunks / Pow256(i) % 256)
      && bytes[9..21] == c.nonce && bytes[21..53] == c.chunkHash && bytes[53..85] == c.merkleRoot
      && (forall i: nat :: i < 8 ==> bytes[85..93][i] == |c.ciphertext| / Pow256(i) % 256)
      && bytes[93..] == c.ciphertext
  {
    hide Serialize, LittleEndian, Pow256;
    var w := c.(version := RELAY_WIRE_VERSION);
    SerializedFields(w, []);
    assert Serialize(w) + [] == Serialize(w);
    forall i: nat | i < 8
      ensures i < 4 ==> LittleEndian(c.chunkIndex, 4)[i] == c.chunkIndex / Pow256(i) % 256
      ensures i < 4 ==> LittleEndian(c.totalChunks, 4)[i] == c.totalChunks / Pow256(i) % 256
      ensures LittleEndian(|c.ciphertext|, 8)[i] == |c.ciphertext| / Pow256(i) % 256
    {
      if i < 4 {
        LittleEndianByte(c.chunkIndex, 4, i);
        LittleEndianByte(c.totalChunks, 4, i);
      }
      LittleEndianByte(|c.ciphertext|, 8, i);
    }
  }

  /** Whatever is accepted is read back field by field, also with bytes after it. */
  lemma {:induction false} WireRoundTrip(c: WireChunk, trailing: seq<byte>)
    requires WellSized(c) && ToRelayWireBytes(c).Ok?
    ensures FromRelayWireBytes(ToRelayWireBytes(c).value + trailing) ==
      Ok(c.(version := RELAY_WIRE_VERSION))
  {
    hide Serialize, LittleEndian, FromLittleEndian, Pow256;
    var w := c.(version := RELAY_WIRE_VERSION);
    SerializedFields(w, trailing);
    Pow256Four();
    LittleEndianRoundTrip(c.chunkIndex, 4);
    LittleEndianRoundTrip(c.totalChunks, 4);
    LittleEndianRoundTrip(|c.ciphertext|, 8);
  }

  lemma {:induction false} Pow256Four()
    ensures Pow256(4) == U32_BOUND
  {
    assert Pow256(2) == 65536;
    assert Pow256(4) == 256 * (256 * Pow256(2));
  }

  /** Any other version byte is refused. */
  lemma {:induction false} OtherVersionsRefused(c: WireChunk, trailing: seq<byte>)
    requires WellSized(c) && c.version != RELAY_WIRE_VERSION
    ensures FromRelayWireBytes(Serialize(c) + trailing) == Err(UnsupportedVersion(c.version))
  {
    hide Serialize, LittleEndian, FromLittleEndian, Pow256;
    SerializedFields(c, trailing);
    LittleEndianRoundTrip(|c.ciphertext|, 8);
  }
}
