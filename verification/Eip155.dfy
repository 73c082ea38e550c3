/**
The transfer command's transactions: the nine-field list hashed for signing, and the signed
list, in the layout of EIP-155 (`encode_unsigned_eip155`, `encode_signed_eip155`).
*/
module Eip155 {
  import opened Prelude
  import opened Rlp

  datatype Transfer = Transfer(
    nonce: nat,
    gasPrice: nat,
    gasLimit: nat,
    to: seq<byte>,
    value: nat,
    data: seq<byte>)

  function CommonFields(t: Transfer): seq<seq<byte>> {
    [RlpUint(t.nonce), RlpUint(t.gasPrice), RlpUint(t.gasLimit), RlpBytes(t.to), RlpUint(t.value), RlpBytes(t.data)]
  }

  function EncodeUnsigned(t: Transfer, chainId: nat): seq<byte> {
    RlpList(CommonFields(t) + [RlpUint(chainId), RlpUint(0), RlpUint(0)])
  }

  function EncodeSigned(t: Transfer, v: nat, r: seq<byte>, s: seq<byte>): seq<byte>
    requires |r| > 0 && |s| > 0
  {
    RlpList(CommonFields(t) + [RlpUint(v), RlpBytes(StripLeadingZeros(r)), RlpBytes(StripLeadingZeros(s))])
  }

  /** Drops leading zeros, but keeps the last byte of an all-zero string. */
  function StripLeadingZeros(bytes: seq<byte>): (stripped: seq<byte>)
    requires |bytes| > 0
    ensures |stripped| > 0
  {
    if |bytes| > 1 && bytes[0] == 0 then StripLeadingZeros(bytes[1..]) else bytes
  }

  function SignatureV(recoveryId: nat, chainId: nat): nat { recoveryId + chainId * 2 + 35 }

  // ----- The decoder -----

  /** The bytes of an integer in the format: none for zero, otherwise no leading zero. */
  function ScalarBytes(v: nat): seq<byte> { if v == 0 then [] else MinBe(v) }

  function ReadScalar(item: Item): Option<nat> {
    if item.List? || (|item.data| > 0 && item.data[0] == 0) then None else Some(FromBe(item.data))
  }

  datatype Nine = Nine(transfer: Transfer, seventh: nat, eighth: nat, ninth: nat)

  function DecodeNine(bs: seq<byte>): Option<Nine> {
    var r := Decode(bs);
    if r.None? || r.value.1 != [] || r.value.0.Bytes? || |r.value.0.items| != 9 then None
    else ReadNine(r.value.0.items)
  }

  function ReadNine(items: seq<Item>): Option<Nine>
    requires |items| == 9
  {
    var nonce, gasPrice, gasLimit := ReadScalar(items[0]), ReadScalar(items[1]), ReadScalar(items[2]);
    var value := ReadScalar(items[4]);
    var x, y, z := ReadScalar(items[6]), ReadScalar(items[7]), ReadScalar(items[8]);
    if nonce.None? || gasPrice.None? || gasLimit.None? || value.None? || x.None? || y.None? || z.None?
       || items[3].List? || items[5].List?
    then None
    else Some(Nine(
      Transfer(nonce.value, gasPrice.value, gasLimit.value, items[3].data, value.value, items[5].data),
      x.value, y.value, z.value))
  }

  function DecodeUnsigned(bs: seq<byte>): Option<(Transfer, nat)> {
    var n := DecodeNine(bs);
    if n.None? || n.value.eighth != 0 || n.value.ninth != 0 then None
    else Some((n.value.transfer, n.value.seventh))
  }

  /** Chain and recovery id of a signature's `v`. */
  function ReadV(v: nat): Option<(nat, nat)> {
    if v < 35 then None else Some(((v - 35) / 2, (v - 35) % 2))
  }

  // ----- Field by field -----

  lemma {:induction false} ScalarRoundTrip(v: nat)
    ensures ReadScalar(Bytes(ScalarBytes(v))) == Some(v)
    ensures RlpUint(v) == Encode(Bytes(ScalarBytes(v)))
  {
    MinBeValue(v);
  }

  lemma {:induction false} ScalarInverse(item: Item)
    requires ReadScalar(item).Some?
    ensures item == Bytes(ScalarBytes(ReadScalar(item).value))
  {
    if |item.data| > 0 {
      FromBePositive(item.data);
      MinBeUnique(item.data);
    }
  }

  function ItemsOf(n: Nine): seq<Item> {
    var t := n.transfer;
    [Bytes(ScalarBytes(t.nonce)), Bytes(ScalarBytes(t.gasPrice)), Bytes(ScalarBytes(t.gasLimit)), Bytes(t.to),
     Bytes(ScalarBytes(t.value)), Bytes(t.data),
     Bytes(ScalarBytes(n.seventh)), Bytes(ScalarBytes(n.eighth)), Bytes(ScalarBytes(n.ninth))]
  }

  lemma {:induction false} ReadNineIff(items: seq<Item>, n: Nine)
    requires |items| == 9
    ensures ReadNine(items) == Some(n) <==> items == ItemsOf(n)
  {
    var t := n.transfer;
    ScalarRoundTrip(t.nonce);
    ScalarRoundTrip(t.gasPrice);
    ScalarRoundTrip(t.gasLimit);
    ScalarRoundTrip(t.value);
    ScalarRoundTrip(n.seventh);
    ScalarRoundTrip(n.eighth);
    ScalarRoundTrip(n.ninth);
    if ReadNine(items) == Some(n) {
      ScalarInverse(items[0]);
      ScalarInverse(items[1]);
      ScalarInverse(items[2]);
      ScalarInverse(items[4]);
      ScalarInverse(items[6]);
      ScalarInverse(items[7]);
      ScalarInverse(items[8]);
      assert items == ItemsOf(n);
    }
  }

  /** Encoding a list of items is listing the encodings. */
  lemma {:induction false} EncodeAllIsFlatten(items: seq<Item>, parts: seq<seq<byte>>)
    requires |items| == |parts| && forall i :: 0 <= i < |items| ==> parts[i] == Encode(items[i])
    ensures EncodeAll(items) == Flatten(parts)
  {
    if |items| > 0 {
      EncodeAllIsFlatten(items[1..], parts[1..]);
    }
  }

  lemma {:induction false} ListOfNine(n: Nine, parts: seq<seq<byte>>)
    requires |parts| == 9 && parts[..6] == CommonFields(n.transfer)
    requires parts[6] == RlpBytes(ScalarBytes(n.seventh))
    requires parts[7] == RlpBytes(ScalarBytes(n.eighth))
    requires parts[8] == RlpBytes(ScalarBytes(n.ninth))
    ensures RlpList(parts) == Encode(List(ItemsOf(n)))
  {
    hide RlpUint, RlpBytes, ScalarBytes, Flatten, EncodeAll;
    var t := n.transfer;
    ScalarRoundTrip(t.nonce);
    ScalarRoundTrip(t.gasPrice);
    ScalarRoundTrip(t.gasLimit);
    ScalarRoundTrip(t.value);
    forall i | 0 <= i < 9 ensures parts[i] == Encode(ItemsOf(n)[i]) {
      assert i < 6 ==> parts[i] == parts[..6][i];
    }
    EncodeAllIsFlatten(ItemsOf(n), parts);
  }

  // ----- Sizes -----

  /** The payload of the nine fields has a length the format can express. */
  ghost predicate NineFit(n: Nine) { |EncodeAll(ItemsOf(n))| < TWO_POW_64 }

  lemma {:induction false} ShortListFits(items: seq<Item>)
    requires |EncodeAll(items)| < TWO_POW_64 && forall i :: 0 <= i < |items| ==> items[i].Bytes?
    ensures FitsAll(items)
  {
    if |items| > 0 {
      assert |Encode(items[0])| >= |items[0].data|;
      ShortListFits(items[1..]);
    }
  }

  lemma {:induction false} DecodeNineIff(bs: seq<byte>, n: Nine)
    ensures DecodeNine(bs) == Some(n) <==> NineFit(n) && bs == Encode(List(ItemsOf(n)))
  {
    var list := List(ItemsOf(n));
    if NineFit(n) && bs == Encode(list) {
      ShortListFits(ItemsOf(n));
      DecodeIff(bs, list, []);
      ReadNineIff(ItemsOf(n), n);
    }
    if DecodeNine(bs) == Some(n) {
      var item := Decode(bs).value.0;
      DecodeIff(bs, item, []);
      ReadNineIff(item.items, n);
    }
  }

  // ----- Theorems -----

  lemma {:induction false} UnsignedIsNine(t: Transfer, chainId: nat)
    ensures EncodeUnsigned(t, chainId) == Encode(List(ItemsOf(Nine(t, chainId, 0, 0))))
  {
    var parts := CommonFields(t) + [RlpUint(chainId), RlpUint(0), RlpUint(0)];
    ScalarRoundTrip(chainId);
    ScalarRoundTrip(0);
    ListOfNine(Nine(t, chainId, 0, 0), parts);
  }

  /** The decoder reads exactly the unsigned encodings, each back to its own seven fields. */
  lemma {:induction false} UnsignedDecodesIff(bs: seq<byte>, t: Transfer, chainId: nat)
    requires |EncodeUnsigned(t, chainId)| < TWO_POW_64
    ensures DecodeUnsigned(bs) == Some((t, chainId)) <==> bs == EncodeUnsigned(t, chainId)
  {
    UnsignedIsNine(t, chainId);
    DecodeNineIff(bs, Nine(t, chainId, 0, 0));
  }

  /** No two transfers are signed over the same bytes. */
  lemma {:induction false} UnsignedInjective(t: Transfer, chainId: nat, t': Transfer, chainId': nat)
    requires |EncodeUnsigned(t, chainId)| < TWO_POW_64
    requires EncodeUnsigned(t, chainId) == EncodeUnsigned(t', chainId')
    ensures t == t' && chainId == chainId'
  {
    UnsignedDecodesIff(EncodeUnsigned(t, chainId), t, chainId);
    UnsignedDecodesIff(EncodeUnsigned(t, chainId), t', chainId');
  }

  lemma {:induction false} StripKeepsValue(bytes: seq<byte>)
    requires |bytes| > 0
    ensures FromBe(StripLeadingZeros(bytes)) == FromBe(bytes)
    ensures StripLeadingZeros(bytes)[0] == 0 <==> forall i :: 0 <= i < |bytes| ==> bytes[i] == 0
  {
    if |bytes| > 1 && bytes[0] == 0 {
      StripKeepsValue(bytes[1..]);
      LeadingZerosWorthNothing(bytes, 1);
      if forall i :: 0 <= i < |bytes[1..]| ==> bytes[1..][i] == 0 {
        assert forall i :: 0 < i < |bytes| ==> bytes[i] == bytes[1..][i - 1];
      }
    }
  }

  ghost predicate NonZero(bytes: seq<byte>) { exists i :: 0 <= i < |bytes| && bytes[i] != 0 }

  /** A stripped signature half is the integer form of its value exactly when it is not zero. */
  lemma {:induction false} StrippedIsScalar(bytes: seq<byte>)
    requires |bytes| > 0
    ensures StripLeadingZeros(bytes) == ScalarBytes(FromBe(bytes)) <==> NonZero(bytes)
  {
    var stripped := StripLeadingZeros(bytes);
    StripKeepsValue(bytes);
    if NonZero(bytes) {
      FromBePositive(stripped);
      MinBeUnique(stripped);
    } else {
      LeadingZerosWorthNothing(bytes, |bytes|);
      assert FromBe(bytes[|bytes|..]) == 0;
    }
  }

  /** A signed transfer decodes to the same six fields, to `v`, and to the big-endian values
      of `r` and `s`, exactly when neither of them is zero. */
  lemma {:induction false} SignedDecodesIff(t: Transfer, v: nat, r: seq<byte>, s: seq<byte>)
    requires |r| > 0 && |s| > 0
    requires |EncodeSigned(t, v, r, s)| < TWO_POW_64
    ensures DecodeNine(EncodeSigned(t, v, r, s)) == Some(Nine(t, v, FromBe(r), FromBe(s)))
      <==> NonZero(r) && NonZero(s)
  {
    var n := Nine(t, v, FromBe(r), FromBe(s));
    hide EncodeSigned, Decode, ReadNine, ScalarBytes;
    var items := SignedItems(t, v, r, s);
    SignedIsList(t, v, r, s);
    ShortListFits(items);
    DecodeIff(EncodeSigned(t, v, r, s), List(items), []);
    ReadNineIff(items, n);
    StrippedIsScalar(r);
    StrippedIsScalar(s);
    assert items == ItemsOf(n) <==> items[7] == ItemsOf(n)[7] && items[8] == ItemsOf(n)[8];
  }

  function SignedItems(t: Transfer, v: nat, r: seq<byte>, s: seq<byte>): seq<Item>
    requires |r| > 0 && |s| > 0
  {
    ItemsOf(Nine(t, v, 0, 0))[..7] + [Bytes(StripLeadingZeros(r)), Bytes(StripLeadingZeros(s))]
  }

  lemma {:induction false} SignedIsList(t: Transfer, v: nat, r: seq<byte>, s: seq<byte>)
    requires |r| > 0 && |s| > 0
    ensures EncodeSigned(t, v, r, s) == Encode(List(SignedItems(t, v, r, s)))
  {
    var items := SignedItems(t, v, r, s);
    var parts := CommonFields(t) + [RlpUint(v), RlpBytes(StripLeadingZeros(r)), RlpBytes(StripLeadingZeros(s))];
    ScalarRoundTrip(t.nonce);
    ScalarRoundTrip(t.gasPrice);
    ScalarRoundTrip(t.gasLimit);
    ScalarRoundTrip(t.value);
    ScalarRoundTrip(v);
    forall i | 0 <= i < 9 ensures parts[i] == Encode(items[i]) {
    }
    EncodeAllIsFlatten(items, parts);
  }

  /** Chain and recovery id are recovered from `v` exactly for recovery ids 0 and 1. */
  lemma {:induction false} VRecoversIff(recoveryId: nat, chainId: nat)
    ensures SignatureV(recoveryId, chainId) == 35 + 2 * chainId + recoveryId
    ensures ReadV(SignatureV(recoveryId, chainId)) == Some((chainId, recoveryId)) <==> recoveryId < 2
  {
  }

  // ----- The example of EIP-155 -----

  /** Nonce 9, gas price 20 gwei, gas limit 21000, value 1 ether, no data. */
  function Example(to: seq<byte>): Transfer { Transfer(9, 20_000_000_000, 21_000, to, 1_000_000_000_000_000_000, []) }

  function ExampleFields(to: seq<byte>): seq<byte> {
    [0x09, 0x85, 0x04, 0xa8, 0x17, 0xc8, 0x00, 0x82, 0x52, 0x08, 0x94] + to
    + [0x88, 0x0d, 0xe0, 0xb6, 0xb3, 0xa7, 0x64, 0x00, 0x00, 0x80]
  }

  lemma {:induction false} ExampleNumbers()
    ensures MinBe(9) == [0x09] && MinBe(1) == [0x01] && MinBe(37) == [0x25]
    ensures MinBe(20_000_000_000) == [0x04, 0xa8, 0x17, 0xc8, 0x00]
    ensures MinBe(21_000) == [0x52, 0x08]
    ensures MinBe(1_000_000_000_000_000_000) == [0x0d, 0xe0, 0xb6, 0xb3, 0xa7, 0x64, 0x00, 0x00]
  {
    MinBeStep(0x52, 0x08);
    MinBeStep(0x04, 0xa8);
    MinBeStep(0x04a8, 0x17);
    MinBeStep(0x04a817, 0xc8);
    MinBeStep(0x04a817c8, 0x00);
    MinBeStep(0x0d, 0xe0);
    MinBeStep(0x0de0, 0xb6);
    MinBeStep(0x0de0b6, 0xb3);
    MinBeStep(0x0de0b6b3, 0xa7);
    MinBeStep(0x0de0b6b3a7, 0x64);
    MinBeStep(0x0de0b6b3a764, 0x00);
    MinBeStep(0x0de0b6b3a76400, 0x00);
  }

  lemma {:induction false} MinBeStep(v: nat, last: byte)
    requires v > 0
    ensures MinBe(256 * v + last) == MinBe(v) + [last]
    ensures v < 256 ==> MinBe(v) == [v]
  {
    assert (256 * v + last) / 256 == v && (256 * v + last) % 256 == last;
  }

  lemma {:induction false} ExampleCommon(to: seq<byte>)
    requires |to| == 20
    ensures Flatten(CommonFields(Example(to))) == ExampleFields(to)
  {
    ExampleNumbers();
    hide MinBe;
    var t := Example(to);
    assert RlpUint(t.nonce) == [0x09];
    assert RlpUint(t.gasPrice) == [0x85] + [0x04, 0xa8, 0x17, 0xc8, 0x00];
    assert RlpUint(t.gasLimit) == [0x82] + [0x52, 0x08];
    assert RlpBytes(t.to) == [0x94] + to;
    assert RlpUint(t.value) == [0x88] + [0x0d, 0xe0, 0xb6, 0xb3, 0xa7, 0x64, 0x00, 0x00];
    assert RlpBytes(t.data) == [0x80];
    hide RlpUint, RlpBytes;
    FlattenSix(RlpUint(t.nonce), RlpUint(t.gasPrice), RlpUint(t.gasLimit), RlpBytes(t.to), RlpUint(t.value),
        RlpBytes(t.data));
  }

  lemma {:induction false} FlattenSix(a: seq<byte>, b: seq<byte>, c: seq<byte>, d: seq<byte>, e: seq<byte>,
      f: seq<byte>)
    ensures Flatten([a, b, c, d, e, f]) == a + b + c + d + e + f
  {
    FlattenThree(d, e, f);
    FlattenJoin([a, b, c], [d, e, f]);
    FlattenThree(a, b, c);
    assert [a, b, c, d, e, f] == [a, b, c] + [d, e, f];
  }

  lemma {:induction false} FlattenThree(a: seq<byte>, b: seq<byte>, c: seq<byte>)
    ensures Flatten([a, b, c]) == a + b + c
  {
    FlattenAppend([a, b], c);
    FlattenAppend([a], b);
    FlattenAppend([], a);
    assert [a, b, c] == [a, b] + [c] && [a, b] == [a] + [b] && [a] == [] + [a];
  }

  lemma {:induction false} FlattenJoin(xs: seq<seq<byte>>, ys: seq<seq<byte>>)
    ensures Flatten(xs + ys) == Flatten(xs) + Flatten(ys)
  {
    if |xs| == 0 {
      assert xs + ys == ys;
    } else {
      assert (xs + ys)[1..] == xs[1..] + ys;
      FlattenJoin(xs[1..], ys);
    }
  }

  /** The bytes that EIP-155 gives for signing its example on chain 1, and, for any r and s of 32
      bytes that do not begin with a zero, for the signed transfer with recovery id 0. */
  lemma {:induction false} ExampleBytes(to: seq<byte>, r: seq<byte>, s: seq<byte>)
    requires |to| == 20 && |r| == |s| == 32 && r[0] != 0 && s[0] != 0
    ensures EncodeUnsigned(Example(to), 1) == [0xec] + ExampleFields(to) + [0x01, 0x80, 0x80]
    ensures EncodeSigned(Example(to), SignatureV(0, 1), r, s) ==
      [0xf8, 0x6c] + ExampleFields(to) + [0x25, 0xa0] + r + [0xa0] + s
  {
    hide MinBe, RlpUint, RlpBytes, StripLeadingZeros, Flatten, CommonFields, ExampleFields, Prefix;
    var common := CommonFields(Example(to));
    ExampleCommon(to);
    ExampleTails(r, s);
    FlattenJoin(common, [RlpUint(1), RlpUint(0), RlpUint(0)]);
    FlattenJoin(common, [RlpUint(37), RlpBytes(StripLeadingZeros(r)), RlpBytes(StripLeadingZeros(s))]);
    FieldsLength(to);
    ExamplePrefixes();
    SignedTail(ExampleFields(to), r, s);
  }

  lemma {:induction false} ExampleTails(r: seq<byte>, s: seq<byte>)
    requires |r| == |s| == 32 && r[0] != 0 && s[0] != 0
    ensures Flatten([RlpUint(1), RlpUint(0), RlpUint(0)]) == [0x01, 0x80, 0x80]
    ensures Flatten([RlpUint(37), RlpBytes(StripLeadingZeros(r)), RlpBytes(StripLeadingZeros(s))]) ==
      [0x25, 0xa0] + r + [0xa0] + s
  {
    ExampleNumbers();
    hide MinBe, Flatten;
    var x, y := RlpBytes(StripLeadingZeros(r)), RlpBytes(StripLeadingZeros(s));
    assert x == [0xa0] + r && y == [0xa0] + s;
    assert RlpUint(1) == [0x01] && RlpUint(0) == [0x80] && RlpUint(37) == [0x25];
    FlattenThree(RlpUint(1), RlpUint(0), RlpUint(0));
    FlattenThree(RlpUint(37), x, y);
  }

  lemma {:induction false} ExamplePrefixes()
    ensures Prefix(0xc0, 44) == [0xec] && Prefix(0xc0, 108) == [0xf8, 0x6c]
  {
    assert MinBe(108) == [0x6c];
  }

  lemma {:induction false} FieldsLength(to: seq<byte>)
    requires |to| == 20
    ensures |ExampleFields(to)| == 41
  {
  }

  lemma {:induction false} SignedTail(fields: seq<byte>, r: seq<byte>, s: seq<byte>)
    ensures [0xf8, 0x6c] + (fields + ([0x25, 0xa0] + r + [0xa0] + s)) ==
      [0xf8, 0x6c] + fields + [0x25, 0xa0] + r + [0xa0] + s
    ensures [0xec] + (fields + [0x01, 0x80, 0x80]) == [0xec] + fields + [0x01, 0x80, 0x80]
  {
  }
}
