/** The part of the MessagePack format that the packet tail uses: nil, the
    bool family, the str family (fixstr, str 8/16/32), the bin family
    (bin 8/16/32) and the array family (fixarray, array 16/32). `Encode` is
    what `msgpack.packb` emits for these values with its default options
    (strings and byte strings kept apart); `Unpack` is `msgpack.unpackb`
    restricted to them. */
module MsgPack {
  import opened Base
  import BigEndian

  /** A decoded MessagePack object. `Str` holds the UTF-8 bytes of the string. */
  datatype Value =
    | Nil
    | Bool(b: bool)
    | Str(utf8: Bytes)
    | Bin(data: Bytes)
    | Array(items: seq<Value>)

  /** Lengths and counts must fit in 32 bits; `packb` refuses anything larger. */
  const Length32 := 0x1_0000_0000

  /** Python truthiness of the decoded object (`bool(x)`). */
  predicate Truthy(v: Value) {
    match v
    case Nil => false
    case Bool(b) => b
    case Str(s) => s != []
    case Bin(d) => d != []
    case Array(items) => items != []
  }

  /** `v` can be packed: every length and count is below 2^32. */
  predicate Encodable(v: Value)
    decreases v
  {
    match v
    case Nil => true
    case Bool(_) => true
    case Str(s) => |s| < Length32
    case Bin(d) => |d| < Length32
    case Array(items) => |items| < Length32 && AllEncodable(items)
  }

  predicate AllEncodable(items: seq<Value>)
    decreases items
  {
    forall i :: 0 <= i < |items| ==> Encodable(items[i])
  }

  function StrHeader(n: nat): (h: Bytes)
    requires n < Length32
    ensures |h| >= 1 && (0xa0 <= h[0] < 0xc0 || 0xd9 <= h[0] <= 0xdb)
  {
    if n < 32 then [0xa0 + n]
    else if n < 0x100 then [0xd9] + BigEndian.ToBytes(n, 1)
    else if n < 0x1_0000 then [0xda] + BigEndian.ToBytes(n, 2)
    else [0xdb] + BigEndian.ToBytes(n, 4)
  }

  function BinHeader(n: nat): (h: Bytes)
    requires n < Length32
    ensures |h| >= 2 && 0xc4 <= h[0] <= 0xc6
  {
    if n < 0x100 then [0xc4] + BigEndian.ToBytes(n, 1)
    else if n < 0x1_0000 then [0xc5] + BigEndian.ToBytes(n, 2)
    else [0xc6] + BigEndian.ToBytes(n, 4)
  }

  function ArrayHeader(n: nat): (h: Bytes)
    requires n < Length32
    ensures |h| >= 1 && (0x90 <= h[0] < 0xa0 || h[0] == 0xdc || h[0] == 0xdd)
  {
    if n < 16 then [0x90 + n]
    else if n < 0x1_0000 then [0xdc] + BigEndian.ToBytes(n, 2)
    else [0xdd] + BigEndian.ToBytes(n, 4)
  }

  /** The type bytes of each modelled family; every other type byte belongs
      to a family the model leaves out. */
  predicate TypeByteOf(v: Value, b: byte) {
    match v
    case Nil => b == 0xc0
    case Bool(_) => b == 0xc2 || b == 0xc3
    case Str(_) => 0xa0 <= b < 0xc0 || 0xd9 <= b <= 0xdb
    case Bin(_) => 0xc4 <= b <= 0xc6
    case Array(_) => 0x90 <= b < 0xa0 || b == 0xdc || b == 0xdd
  }

  /** The bytes `packb` produces for `v`. The first byte is a type byte of
      the value's family. */
  function Encode(v: Value): (r: Bytes)
    requires Encodable(v)
    ensures |r| >= 1
    ensures v.Nil? <==> r[0] == 0xc0
    ensures v.Bool? <==> r[0] == 0xc2 || r[0] == 0xc3
    ensures v.Str? <==> 0xa0 <= r[0] < 0xc0 || 0xd9 <= r[0] <= 0xdb
    ensures v.Bin? <==> 0xc4 <= r[0] <= 0xc6
    ensures v.Array? <==> 0x90 <= r[0] < 0xa0 || r[0] == 0xdc || r[0] == 0xdd
    decreases v
  {
    match v
    case Nil => [0xc0]
    case Bool(b) => if b then [0xc3] else [0xc2]
    case Str(s) => StrHeader(|s|) + s
    case Bin(d) => BinHeader(|d|) + d
    case Array(items) => ArrayHeader(|items|) + EncodeItems(items)
  }

  function EncodeItems(items: seq<Value>): Bytes
    requires AllEncodable(items)
    decreases items
  {
    if items == [] then [] else Encode(items[0]) + EncodeItems(items[1..])
  }

  /** The first `n` bytes of `s` and what follows them. */
  function Chunk(n: nat, s: Bytes): (r: Option<(Bytes, Bytes)>)
    ensures r.Some? <==> n <= |s|
    ensures r.Some? ==> |r.value.0| == n && r.value.0 + r.value.1 == s
  {
    if n <= |s| then Some((s[..n], s[n..])) else None
  }

  /** A `k`-byte big-endian length, then that many bytes. */
  function LengthPrefixed(k: nat, s: Bytes): (r: Option<(Bytes, Bytes)>)
    ensures r.Some? ==> |r.value.1| + k <= |s|
  {
    if k <= |s| then Chunk(BigEndian.FromBytes(s[..k]), s[k..]) else None
  }

  function AsStr(o: Option<(Bytes, Bytes)>): (r: Option<(Value, Bytes)>)
    ensures r.Some? <==> o.Some?
    ensures r.Some? ==> r.value == (Str(o.value.0), o.value.1)
  {
    match o
    case None => None
    case Some((b, rest)) => Some((Str(b), rest))
  }

  function AsBin(o: Option<(Bytes, Bytes)>): (r: Option<(Value, Bytes)>)
    ensures r.Some? <==> o.Some?
    ensures r.Some? ==> r.value == (Bin(o.value.0), o.value.1)
  {
    match o
    case None => None
    case Some((b, rest)) => Some((Bin(b), rest))
  }

  function AsArray(o: Option<(seq<Value>, Bytes)>): (r: Option<(Value, Bytes)>)
    ensures r.Some? <==> o.Some?
    ensures r.Some? ==> r.value == (Array(o.value.0), o.value.1)
  {
    match o
    case None => None
    case Some((vs, rest)) => Some((Array(vs), rest))
  }

  /** Decodes one object from the front of `s`, returning it and the bytes
      after it; `None` for a truncated object or a type byte outside the
      modelled families. */
  function Decode(s: Bytes): (r: Option<(Value, Bytes)>)
    ensures r.Some? ==> |r.value.1| < |s|
    ensures r.Some? ==> s != [] && TypeByteOf(r.value.0, s[0])
    decreases |s|, 0
  {
    if s == [] then None
    else
      var tag, body := s[0], s[1..];
      if tag == 0xc0 then Some((Nil, body))
      else if tag == 0xc2 then Some((Bool(false), body))
      else if tag == 0xc3 then Some((Bool(true), body))
      else if 0xa0 <= tag < 0xc0 then AsStr(Chunk(tag - 0xa0, body))
      else if tag == 0xd9 then AsStr(LengthPrefixed(1, body))
      else if tag == 0xda then AsStr(LengthPrefixed(2, body))
      else if tag == 0xdb then AsStr(LengthPrefixed(4, body))
      else if tag == 0xc4 then AsBin(LengthPrefixed(1, body))
      else if tag == 0xc5 then AsBin(LengthPrefixed(2, body))
      else if tag == 0xc6 then AsBin(LengthPrefixed(4, body))
      else if 0x90 <= tag < 0xa0 then AsArray(DecodeItems(tag - 0x90, body))
      else if tag == 0xdc then
        (if |body| < 2 then None else AsArray(DecodeItems(BigEndian.FromBytes(body[..2]), body[2..])))
      else if tag == 0xdd then
        (if |body| < 4 then None else AsArray(DecodeItems(BigEndian.FromBytes(body[..4]), body[4..])))
      else None
  }

  /** Decodes `n` consecutive objects from the front of `s`. */
  function DecodeItems(n: nat, s: Bytes): (r: Option<(seq<Value>, Bytes)>)
    ensures r.Some? ==> |r.value.0| == n && |r.value.1| <= |s|
    decreases |s|, 1
  {
    if n == 0 then Some(([], s))
    else
      match Decode(s)
      case None => None
      case Some((v, rest)) =>
        match DecodeItems(n - 1, rest)
        case None => None
        case Some((vs, rest')) => Some(([v] + vs, rest'))
  }

  /** `unpackb`: exactly one object, with no bytes left over. */
  function Unpack(s: Bytes): (r: Option<Value>)
    ensures r.Some? ==> Decode(s) == Some((r.value, []))
  {
    match Decode(s)
    case None => None
    case Some((v, rest)) => if rest == [] then Some(v) else None
  }

  /** A length written with the `k`-byte big-endian header is read back. */
  lemma LengthPrefixedReads(k: nat, n: nat, tail: Bytes)
    requires n < BigEndian.Pow256(k)
    ensures LengthPrefixed(k, BigEndian.ToBytes(n, k) + tail) == Chunk(n, tail)
  {
    var h := BigEndian.ToBytes(n, k);
    var s := h + tail;
    assert s[..k] == h && s[k..] == tail;
    BigEndian.FromToBytes(n, k);
  }

  /** The first `|s|` bytes of `s + rest` are `s`. */
  lemma ChunkReads(s: Bytes, rest: Bytes)
    ensures Chunk(|s|, s + rest) == Some((s, rest))
  {
    assert (s + rest)[..|s|] == s && (s + rest)[|s|..] == rest;
  }

  /** After a str header, `Decode` reads as many bytes as it announces. */
  lemma StrHeaderReads(n: nat, tail: Bytes)
    requires n < Length32
    ensures Decode(StrHeader(n) + tail) == AsStr(Chunk(n, tail))
  {
    var e := StrHeader(n) + tail;
    if n < 32 {
      assert e == [0xa0 + n] + tail;
    } else {
      var k := if n < 0x100 then 1 else if n < 0x1_0000 then 2 else 4;
      assert e == [if k == 1 then 0xd9 else if k == 2 then 0xda else 0xdb] + (BigEndian.ToBytes(n, k) + tail);
      LengthPrefixedReads(k, n, tail);
    }
  }

  /** After a bin header, `Decode` reads as many bytes as it announces. */
  lemma BinHeaderReads(n: nat, tail: Bytes)
    requires n < Length32
    ensures Decode(BinHeader(n) + tail) == AsBin(Chunk(n, tail))
  {
    var k := if n < 0x100 then 1 else if n < 0x1_0000 then 2 else 4;
    assert BinHeader(n) + tail == [if k == 1 then 0xc4 else if k == 2 then 0xc5 else 0xc6] + (BigEndian.ToBytes(n, k) + tail);
    LengthPrefixedReads(k, n, tail);
  }

  lemma DecodeEncodeStr(s: Bytes, rest: Bytes)
    requires |s| < Length32
    ensures Decode(Encode(Str(s)) + rest) == Some((Str(s), rest))
  {
    assert Encode(Str(s)) + rest == StrHeader(|s|) + (s + rest);
    StrHeaderReads(|s|, s + rest);
    ChunkReads(s, rest);
  }

  lemma DecodeEncodeBin(d: Bytes, rest: Bytes)
    requires |d| < Length32
    ensures Decode(Encode(Bin(d)) + rest) == Some((Bin(d), rest))
  {
    assert Encode(Bin(d)) + rest == BinHeader(|d|) + (d + rest);
    BinHeaderReads(|d|, d + rest);
    ChunkReads(d, rest);
  }

  lemma {:induction false} DecodeEncodeArray(items: seq<Value>, rest: Bytes)
    requires Encodable(Array(items))
    ensures Decode(Encode(Array(items)) + rest) == Some((Array(items), rest))
    decreases items, 1
  {
    DecodeEncodeItems(items, rest);
    EncodeArraySplits(items, rest);
    ArrayHeaderReads(|items|, EncodeItems(items) + rest);
  }

  lemma EncodeArraySplits(items: seq<Value>, rest: Bytes)
    requires Encodable(Array(items))
    ensures AllEncodable(items)
    ensures Encode(Array(items)) + rest == ArrayHeader(|items|) + (EncodeItems(items) + rest)
  {
  }

  /** After an array header, `Decode` reads as many objects as it announces. */
  lemma ArrayHeaderReads(n: nat, tail: Bytes)
    requires n < Length32
    ensures Decode(ArrayHeader(n) + tail) == AsArray(DecodeItems(n, tail))
  {
    if n < 16 {
      FixArrayHeaderReads(n, tail);
    } else {
      LongArrayHeaderReads(n, tail);
    }
  }

  lemma FixArrayHeaderReads(n: nat, tail: Bytes)
    requires n < 16
    ensures Decode(ArrayHeader(n) + tail) == AsArray(DecodeItems(n, tail))
  {
    var e := ArrayHeader(n) + tail;
    assert e[0] == 0x90 + n && e[1..] == tail;
    DecodeArrayTag(e, tail);
  }

  lemma LongArrayHeaderReads(n: nat, tail: Bytes)
    requires 16 <= n < Length32
    ensures Decode(ArrayHeader(n) + tail) == AsArray(DecodeItems(n, tail))
  {
    var e := ArrayHeader(n) + tail;
    var k := if n < 0x1_0000 then 2 else 4;
    var h := BigEndian.ToBytes(n, k);
    assert e == [if k == 2 then 0xdc else 0xdd] + (h + tail);
    assert h + tail == e[1..];
    ArrayLengthReads(n, k, e[1..], tail);
    DecodeArrayTag(e, tail);
  }

  /** How `Decode` treats a buffer that starts with an array type byte. */
  lemma DecodeArrayTag(e: Bytes, tail: Bytes)
    requires |e| >= 1 && (0x90 <= e[0] < 0xa0 || e[0] == 0xdc || e[0] == 0xdd)
    ensures 0x90 <= e[0] < 0xa0 ==> Decode(e) == AsArray(DecodeItems(e[0] - 0x90, e[1..]))
    ensures e[0] == 0xdc && |e| >= 3 ==> Decode(e) == AsArray(DecodeItems(BigEndian.FromBytes(e[1..][..2]), e[1..][2..]))
    ensures e[0] == 0xdd && |e| >= 5 ==> Decode(e) == AsArray(DecodeItems(BigEndian.FromBytes(e[1..][..4]), e[1..][4..]))
  {
    var tag := e[0];
    assert !(tag == 0xc0 || tag == 0xc2 || tag == 0xc3 || 0xa0 <= tag < 0xc0 || tag == 0xd9 || tag == 0xda || tag == 0xdb);
    assert !(tag == 0xc4 || tag == 0xc5 || tag == 0xc6);
  }

  lemma ArrayLengthReads(n: nat, k: nat, body: Bytes, tail: Bytes)
    requires n < BigEndian.Pow256(k) && body == BigEndian.ToBytes(n, k) + tail
    ensures |body| >= k && BigEndian.FromBytes(body[..k]) == n && body[k..] == tail
  {
    assert body[..k] == BigEndian.ToBytes(n, k);
    BigEndian.FromToBytes(n, k);
  }

  /** Decoding what `packb` produced gives the object back and leaves the
      following bytes untouched. */
  lemma {:induction false} DecodeEncode(v: Value, rest: Bytes)
    requires Encodable(v)
    ensures Decode(Encode(v) + rest) == Some((v, rest))
    decreases v, 2
  {
    match v
    case Nil =>
    case Bool(b) =>
    case Str(s) => DecodeEncodeStr(s, rest);
    case Bin(d) => DecodeEncodeBin(d, rest);
    case Array(items) => DecodeEncodeArray(items, rest);
  }

  lemma {:induction false} DecodeEncodeItems(items: seq<Value>, rest: Bytes)
    requires AllEncodable(items)
    ensures DecodeItems(|items|, EncodeItems(items) + rest) == Some((items, rest))
    decreases items, 0
  {
    if items != [] {
      var tailBytes := EncodeItems(items[1..]) + rest;
      assert EncodeItems(items) + rest == Encode(items[0]) + tailBytes;
      DecodeEncode(items[0], tailBytes);
      DecodeEncodeItems(items[1..], rest);
      var s := EncodeItems(items) + rest;
      assert Decode(s) == Some((items[0], tailBytes));
      assert DecodeItems(|items| - 1, tailBytes) == Some((items[1..], rest));
      assert DecodeItems(|items|, s) == Some(([items[0]] + items[1..], rest));
      assert [items[0]] + items[1..] == items;
    } else {
      assert EncodeItems(items) + rest == rest;
    }
  }

  /** Round trip: `unpackb(packb(v)) == v`. */
  lemma UnpackPack(v: Value)
    requires Encodable(v)
    ensures Unpack(Encode(v)) == Some(v)
  {
    DecodeEncode(v, []);
    assert Encode(v) + [] == Encode(v);
  }

  /** Every item is encoded inside its array's encoding. */
  lemma {:induction false} EncodedItemLength(items: seq<Value>, k: nat)
    requires AllEncodable(items) && k < |items|
    ensures |EncodeItems(items)| >= |Encode(items[k])|
  {
    if k > 0 {
      EncodedItemLength(items[1..], k - 1);
    }
  }

  lemma {:induction false} EncodedItemsLength(items: seq<Value>, i: nat, j: nat)
    requires AllEncodable(items) && i < j < |items|
    ensures |EncodeItems(items)| >= |Encode(items[i])| + |Encode(items[j])|
  {
    if i == 0 {
      EncodedItemLength(items[1..], j - 1);
    } else {
      EncodedItemsLength(items[1..], i - 1, j - 1);
    }
  }
}
