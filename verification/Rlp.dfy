/**
Recursive Length Prefix encoding (`rlp_bytes`, `rlp_uint`, `rlp_list` and `to_min_be` of
transfer.rs) and the decoder it must agree with, written from Appendix B of the Ethereum
Yellow Paper.  The decoder accepts canonical encodings only.
*/
module Rlp {
  import opened Prelude

  const TWO_POW_64 := 0x1_0000_0000_0000_0000

  // ----- Big-endian integers -----

  /** Big-endian bytes of `v` without leading zeros; one zero byte for zero. */
  function MinBe(v: nat): (bytes: seq<byte>)
    ensures |bytes| > 0
  {
    if v < 256 then [v] else MinBe(v / 256) + [v % 256]
  }

  function FromBe(bytes: seq<byte>): nat {
    if |bytes| == 0 then 0 else 256 * FromBe(bytes[..|bytes| - 1]) + bytes[|bytes| - 1]
  }

  function ToBeBytes(v: nat, width: nat): (bytes: seq<byte>)
    ensures |bytes| == width
  {
    if width == 0 then [] else ToBeBytes(v / 256, width - 1) + [v % 256]
  }

  /** The source's way to the minimal form: sixteen bytes, then drop leading zeros. */
  method ToMinBe(v: nat) returns (bytes: seq<byte>)
    requires v < U128_BOUND
    ensures bytes == MinBe(v)
  {
    hide MinBe, FromBe;
    var be := ToBeBytes(v, 16);
    var first := 0;
    while first < 15 && be[first] == 0
      invariant 0 <= first <= 15
      invariant forall i :: 0 <= i < first ==> be[i] == 0
      decreases 15 - first
    {
      first := first + 1;
    }
    bytes := be[first..];
    SixteenBytes();
    ToBeBytesValue(v, 16);
    LeadingZerosWorthNothing(be, first);
    MinBeUnique(bytes);
  }

  lemma {:induction false} ToBeBytesValue(v: nat, width: nat)
    requires v < Pow256(width)
    ensures FromBe(ToBeBytes(v, width)) == v
  {
    if width > 0 {
      ToBeBytesValue(v / 256, width - 1);
    }
  }

  lemma {:induction false} EightBytes()
    ensures Pow256(8) == TWO_POW_64
  {
    assert Pow256(2) == 0x1_0000;
    assert Pow256(4) == U32_BOUND;
    assert Pow256(6) == 0x1_0000_0000_0000;
  }

  lemma {:induction false} SixteenBytes()
    ensures Pow256(16) == U128_BOUND
  {
    EightBytes();
    assert Pow256(10) == 0x1_0000 * Pow256(8);
    assert Pow256(12) == 0x1_0000 * Pow256(10);
    assert Pow256(14) == 0x1_0000 * Pow256(12);
    assert Pow256(16) == 0x1_0000 * Pow256(14);
  }

  lemma {:induction false} LeadingZerosWorthNothing(bytes: seq<byte>, n: nat)
    requires n <= |bytes| && forall i :: 0 <= i < n ==> bytes[i] == 0
    ensures FromBe(bytes[n..]) == FromBe(bytes)
  {
    if n < |bytes| {
      var front := bytes[..|bytes| - 1];
      LeadingZerosWorthNothing(front, n);
      assert bytes[n..][..|bytes| - n - 1] == front[n..];
    } else if |bytes| > 0 {
      LeadingZerosWorthNothing(bytes[..|bytes| - 1], n - 1);
    }
  }

  lemma {:induction false} MinBeValue(v: nat)
    ensures FromBe(MinBe(v)) == v
    ensures v > 0 ==> MinBe(v)[0] != 0
  {
    if v >= 256 {
      MinBeValue(v / 256);
    }
  }

  /** A byte string without leading zero is the minimal form of its value. */
  lemma {:induction false} MinBeUnique(bytes: seq<byte>)
    requires |bytes| == 1 || (|bytes| > 1 && bytes[0] != 0)
    ensures MinBe(FromBe(bytes)) == bytes
  {
    if |bytes| > 1 {
      var front := bytes[..|bytes| - 1];
      MinBeUnique(front);
      FromBePositive(front);
      assert bytes == front + [bytes[|bytes| - 1]];
    }
  }

  lemma {:induction false} FromBePositive(bytes: seq<byte>)
    requires |bytes| > 0 && bytes[0] != 0
    ensures FromBe(bytes) > 0
  {
    if |bytes| > 1 {
      FromBePositive(bytes[..|bytes| - 1]);
    }
  }

  lemma {:induction false} MinBeLength(v: nat, n: nat)
    requires v < Pow256(n) && n > 0
    ensures |MinBe(v)| <= n
  {
    if v >= 256 {
      MinBeLength(v / 256, n - 1);
    }
  }

  lemma {:induction false} FromBeBound(bytes: seq<byte>)
    ensures FromBe(bytes) < Pow256(|bytes|)
  {
    if |bytes| > 0 {
      FromBeBound(bytes[..|bytes| - 1]);
    }
  }

  // ----- The encoder -----

  /** A length prefix: short forms count from `short`, long forms give the length's own
      length above `short + 55`.  Bytes are computed modulo 256, as a cast to `u8` does. */
  function Prefix(short: byte, length: nat): (p: seq<byte>)
    ensures |p| > 0
  {
    if length <= 55 then [(short + length) % 256]
    else [(short + 55 + |MinBe(length)|) % 256] + MinBe(length)
  }

  function RlpBytes(data: seq<byte>): seq<byte> {
    if |data| == 1 && data[0] < 0x80 then data else Prefix(0x80, |data|) + data
  }

  function RlpUint(v: nat): seq<byte> {
    if v == 0 then [0x80] else RlpBytes(MinBe(v))
  }

  function Flatten(parts: seq<seq<byte>>): seq<byte> {
    if |parts| == 0 then [] else parts[0] + Flatten(parts[1..])
  }

  function RlpList(items: seq<seq<byte>>): seq<byte> {
    Prefix(0xc0, |Flatten(items)|) + Flatten(items)
  }

  method RlpBytesVec(data: seq<byte>) returns (out: seq<byte>)
    requires |data| < TWO_POW_64
    ensures out == RlpBytes(data)
  {
    if |data| == 1 && data[0] < 0x80 {
      out := [data[0]];
    } else if |data| <= 55 {
      out := [0x80 + |data|];
      out := out + data;
    } else {
      var lenBytes := ToMinBe(|data|);
      LengthOfLength(|data|);
      out := [0xb7 + |lenBytes|];
      out := out + lenBytes;
      out := out + data;
    }
  }

  lemma {:induction false} FlattenNothing()
    ensures Flatten([]) == []
  {
  }

  method RlpListVec(items: seq<seq<byte>>) returns (out: seq<byte>)
    requires |Flatten(items)| < TWO_POW_64
    ensures out == RlpList(items)
  {
    hide Flatten, MinBe;
    assert Flatten(items[..0]) == [] by { FlattenNothing(); }
    var totalLen := 0;
    for i := 0 to |items|
      invariant totalLen == |Flatten(items[..i])|
    {
      FlattenSnoc(items, i);
      totalLen := totalLen + |items[i]|;
    }
    assert items[..|items|] == items;
    if totalLen <= 55 {
      out := [0xc0 + totalLen];
    } else {
      var lenBytes := ToMinBe(totalLen);
      LengthOfLength(totalLen);
      out := [0xf7 + |lenBytes|];
      out := out + lenBytes;
    }
    ghost var prefix := out;
    for i := 0 to |items|
      invariant out == prefix + Flatten(items[..i])
    {
      FlattenSnoc(items, i);
      out := out + items[i];
    }
  }

  lemma {:induction false} FlattenSnoc(items: seq<seq<byte>>, i: nat)
    requires i < |items|
    ensures Flatten(items[..i + 1]) == Flatten(items[..i]) + items[i]
  {
    assert items[..i + 1] == items[..i] + [items[i]];
    FlattenAppend(items[..i], items[i]);
  }

  lemma {:induction false} FlattenAppend(parts: seq<seq<byte>>, last: seq<byte>)
    ensures Flatten(parts + [last]) == Flatten(parts) + last
  {
    if |parts| == 0 {
      assert Flatten([last]) == last + Flatten([last][1..]);
    } else {
      assert (parts + [last])[1..] == parts[1..] + [last];
      FlattenAppend(parts[1..], last);
    }
  }

  lemma {:induction false} LengthOfLength(n: nat)
    requires n < TWO_POW_64
    ensures |MinBe(n)| <= 8
  {
    EightBytes();
    MinBeLength(n, 8);
  }

  // ----- The forms written out -----

  /** Counted from the end, byte `i` is the digit of weight 256^i: the most significant comes
      first. */
  lemma {:induction false} MinBeByte(v: nat, i: nat)
    requires i < |MinBe(v)|
    ensures MinBe(v)[|MinBe(v)| - 1 - i] == v / Pow256(i) % 256
    ensures v > 0 ==> MinBe(v)[0] != 0
  {
    MinBeValue(v);
    if i > 0 {
      MinBeByte(v / 256, i - 1);
      DivideTwice(v, Pow256(i - 1));
    } else {
      assert v / 1 == v;
    }
  }

  /** The forms of a byte string, of an integer, and of a list whose members are encoded. */
  lemma {:induction false} EncodingForms(data: seq<byte>, v: nat, parts: seq<seq<byte>>)
    requires |data| < TWO_POW_64 && |Flatten(parts)| < TWO_POW_64
    ensures RlpBytes(data) ==
      if |data| == 1 && data[0] <= 0x7f then data
      else if |data| <= 55 then [0x80 + |data|] + data
      else [0xb7 + |MinBe(|data|)|] + MinBe(|data|) + data
    ensures v > 0 ==> RlpUint(v) == RlpBytes(MinBe(v))
    ensures RlpUint(0) == [0x80]
    ensures
      var payload := Flatten(parts);
      RlpList(parts) ==
        if |payload| <= 55 then [0xc0 + |payload|] + payload
        else [0xf7 + |MinBe(|payload|)|] + MinBe(|payload|) + payload
  {
    hide MinBe, Flatten, Prefix;
    PrefixForms(0x80, |data|);
    PrefixForms(0xc0, |Flatten(parts)|);
  }

  lemma {:induction false} PrefixForms(short: byte, length: nat)
    requires short <= 0xc0 && length < TWO_POW_64
    ensures Prefix(short, length) ==
      if length <= 55 then [short + length] else [short + 55 + |MinBe(length)|] + MinBe(length)
  {
    hide MinBe;
    LengthOfLength(length);
  }

  lemma {:induction false} FromBeSnoc(bytes: seq<byte>, last: byte)
    ensures FromBe(bytes + [last]) == 256 * FromBe(bytes) + last
  {
    assert (bytes + [last])[..|bytes|] == bytes;
  }

  // ----- Items and their decoder -----

  datatype Item = Bytes(data: seq<byte>) | List(items: seq<Item>)

  function Encode(item: Item): seq<byte>
    decreases item, 1
  {
    match item
    case Bytes(data) => RlpBytes(data)
    case List(items) => var payload := EncodeAll(items); Prefix(0xc0, |payload|) + payload
  }

  function EncodeAll(items: seq<Item>): seq<byte>
    decreases items, 0
  {
    if |items| == 0 then [] else Encode(items[0]) + EncodeAll(items[1..])
  }

  /** The lengths the format can express. */
  ghost predicate Fits(item: Item)
    decreases item, 1
  {
    match item
    case Bytes(data) => |data| < TWO_POW_64
    case List(items) => |EncodeAll(items)| < TWO_POW_64 && FitsAll(items)
  }

  ghost predicate FitsAll(items: seq<Item>)
    decreases items, 0
  {
    |items| == 0 || (Fits(items[0]) && FitsAll(items[1..]))
  }

  datatype Span = Span(isList: bool, start: nat, length: nat)

  /** Where the payload of the first item lies. */
  function ReadSpan(bs: seq<byte>): (s: Option<Span>)
    ensures s.Some? ==> s.value.start + s.value.length <= |bs|
    ensures s.Some? ==> 0 < s.value.start + s.value.length
    ensures s.Some? && s.value.isList ==> s.value.start > 0
  {
    if |bs| == 0 then None
    else if bs[0] < 0x80 then Some(Span(false, 0, 1))
    else if bs[0] < 0xc0 then
      var p := ReadLength(bs, 0x80);
      if p.None? then None
      else if p.value.1 == 1 && bs[p.value.0] < 0x80 then None      // should be its own encoding
      else Some(Span(false, p.value.0, p.value.1))
    else
      var p := ReadLength(bs, 0xc0);
      if p.None? then None else Some(Span(true, p.value.0, p.value.1))
  }

  /** Length of the prefix and of the payload. */
  function ReadLength(bs: seq<byte>, short: byte): (p: Option<(nat, nat)>)
    requires |bs| > 0 && short <= bs[0] && bs[0] <= short + 63
    ensures p.Some? ==> 0 < p.value.0 <= p.value.0 + p.value.1 <= |bs|
  {
    if bs[0] <= short + 55 then
      if |bs| < 1 + (bs[0] - short) then None else Some((1, bs[0] - short))
    else
      var size := bs[0] - short - 55;
      if |bs| < 1 + size || bs[1] == 0 then None
      else
        var length := FromBe(bs[1..1 + size]);
        if length <= 55 || |bs| < 1 + size + length then None else Some((1 + size, length))
  }

  function Decode(bs: seq<byte>): (r: Option<(Item, seq<byte>)>)
    ensures r.Some? ==> |r.value.1| < |bs|
    decreases |bs|, 0
  {
    var s := ReadSpan(bs);
    if s.None? then None
    else
      var end := s.value.start + s.value.length;
      var payload := bs[s.value.start..end];
      if !s.value.isList then Some((Bytes(payload), bs[end..]))
      else
        var items := DecodeAll(payload);
        if items.None? then None else Some((List(items.value), bs[end..]))
  }

  function DecodeAll(bs: seq<byte>): Option<seq<Item>>
    decreases |bs|, 1
  {
    if |bs| == 0 then Some([])
    else
      var first := Decode(bs);
      if first.None? then None
      else
        var rest := DecodeAll(first.value.1);
        if rest.None? then None else Some([first.value.0] + rest.value)
  }

  // ----- Decoding inverts encoding -----

  /** A prefix is read back, whatever follows the payload. */
  lemma {:induction false} ReadPrefix(short: byte, payload: seq<byte>, rest: seq<byte>)
    requires short == 0x80 || short == 0xc0
    requires |payload| < TWO_POW_64
    ensures
      var p := Prefix(short, |payload|);
      var bs := p + payload + rest;
      short <= bs[0] <= short + 63 && ReadLength(bs, short) == Some((|p|, |payload|))
  {
    hide MinBe, FromBe;
    var p := Prefix(short, |payload|);
    var bs := p + payload + rest;
    if |payload| > 55 {
      var lenBytes := MinBe(|payload|);
      LengthOfLength(|payload|);
      MinBeValue(|payload|);
      assert bs == [short + 55 + |lenBytes|] + lenBytes + payload + rest;
      assert bs[1..1 + |lenBytes|] == lenBytes;
      assert bs[1] == lenBytes[0];
    }
  }

  lemma {:induction false} DecodeEncode(item: Item, rest: seq<byte>)
    requires Fits(item)
    ensures Decode(Encode(item) + rest) == Some((item, rest))
    decreases item, 1
  {
    match item
    case Bytes(data) =>
      DecodeBytes(data, rest);
    case List(items) =>
      var payload := EncodeAll(items);
      var p := Prefix(0xc0, |payload|);
      var bs := p + payload + rest;
      assert Encode(item) + rest == bs;
      ReadPrefix(0xc0, payload, rest);
      DecodeEncodeAll(items);
      assert bs[|p|..|p| + |payload|] == payload;
      assert bs[|p| + |payload|..] == rest;
  }

  lemma {:induction false} DecodeBytes(data: seq<byte>, rest: seq<byte>)
    requires |data| < TWO_POW_64
    ensures Decode(RlpBytes(data) + rest) == Some((Bytes(data), rest))
  {
    var bs := RlpBytes(data) + rest;
    if |data| == 1 && data[0] < 0x80 {
      assert bs[0..1] == data && bs[1..] == rest;
    } else {
      var p := Prefix(0x80, |data|);
      assert bs == p + data + rest;
      ReadPrefix(0x80, data, rest);
      assert bs[|p|..|p| + |data|] == data;
      assert bs[|p| + |data|..] == rest;
    }
  }

  lemma {:induction false} EncodeNonEmpty(item: Item)
    ensures |Encode(item)| > 0
  {
  }

  lemma {:induction false} DecodeEncodeAll(items: seq<Item>)
    requires FitsAll(items)
    ensures DecodeAll(EncodeAll(items)) == Some(items)
    decreases items, 0
  {
    hide Decode, Encode;
    if |items| > 0 {
      EncodeNonEmpty(items[0]);
      DecodeEncode(items[0], EncodeAll(items[1..]));
      DecodeEncodeAll(items[1..]);
      assert items == [items[0]] + items[1..];
    }
  }

  // ----- Encoding inverts decoding -----

  lemma {:induction false} ReadLengthCanonical(bs: seq<byte>, short: byte)
    requires short == 0x80 || short == 0xc0
    requires |bs| > 0 && short <= bs[0] <= short + 63 && ReadLength(bs, short).Some?
    ensures var p := ReadLength(bs, short).value;
      bs[..p.0] == Prefix(short, p.1) && p.1 < TWO_POW_64
  {
    hide FromBe, MinBe;
    if bs[0] > short + 55 {
      LongLength(bs[1..1 + (bs[0] - short - 55)]);
      assert bs[..1 + (bs[0] - short - 55)] == [bs[0]] + bs[1..1 + (bs[0] - short - 55)];
    }
  }

  lemma {:induction false} LongLength(lenBytes: seq<byte>)
    requires 0 < |lenBytes| <= 8 && lenBytes[0] != 0
    ensures MinBe(FromBe(lenBytes)) == lenBytes && FromBe(lenBytes) < TWO_POW_64
  {
    hide FromBe, MinBe, Pow256;
    MinBeUnique(lenBytes);
    FromBeBound(lenBytes);
    Pow256Monotone(|lenBytes|, 8);
    EightBytes();
  }

  lemma {:induction false} Pow256Monotone(m: nat, n: nat)
    requires m <= n
    ensures Pow256(m) <= Pow256(n)
  {
    if m < n {
      Pow256Monotone(m, n - 1);
    }
  }

  lemma {:induction false} EncodeDecode(bs: seq<byte>)
    requires Decode(bs).Some?
    ensures var (item, rest) := Decode(bs).value; bs == Encode(item) + rest && Fits(item)
    decreases |bs|, 0
  {
    hide ReadLength, EncodeAll;
    var span := ReadSpan(bs).value;
    var (item, rest) := Decode(bs).value;
    var end := span.start + span.length;
    var payload := bs[span.start..end];
    assert bs == bs[..span.start] + payload + rest;
    if span.isList {
      ReadLengthCanonical(bs, 0xc0);
      EncodeDecodeAll(payload);
    } else if bs[0] >= 0x80 {
      ReadLengthCanonical(bs, 0x80);
      assert |payload| == 1 ==> payload[0] == bs[span.start];
    }
  }

  lemma {:induction false} EncodeDecodeAll(bs: seq<byte>)
    requires DecodeAll(bs).Some?
    ensures EncodeAll(DecodeAll(bs).value) == bs && FitsAll(DecodeAll(bs).value)
    decreases |bs|, 1
  {
    if |bs| > 0 {
      EncodeDecode(bs);
      var (first, rest) := Decode(bs).value;
      EncodeDecodeAll(rest);
      var items := DecodeAll(bs).value;
      assert items[0] == first && items[1..] == DecodeAll(rest).value;
    }
  }

  /** The decoder accepts exactly the encodings, each for its own item. */
  lemma {:induction false} DecodeIff(bs: seq<byte>, item: Item, rest: seq<byte>)
    ensures Decode(bs) == Some((item, rest)) <==> Fits(item) && bs == Encode(item) + rest
  {
    if Decode(bs) == Some((item, rest)) {
      EncodeDecode(bs);
    }
    if Fits(item) && bs == Encode(item) + rest {
      DecodeEncode(item, rest);
    }
  }

  /** No encoding is a prefix of another one. */
  lemma {:induction false} PrefixFree(x: Item, y: Item)
    requires Fits(x) && Fits(y) && Encode(x) <= Encode(y)
    ensures x == y
  {
    var rest := Encode(y)[|Encode(x)|..];
    assert Encode(y) == Encode(x) + rest == Encode(y) + [];
    DecodeEncode(x, rest);
    DecodeEncode(y, []);
  }
}
