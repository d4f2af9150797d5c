/** The signed, versioned wire packet of python/propagate/packet.py. */
module Packets {
  import opened Base
  import BigEndian
  import MsgPack
  import Keys

  /** The 16-byte magic that starts every frame. */
  const Prefix: Bytes := [0x01, 0x23, 0x45, 0x67, 0x89, 0xab, 0xcd, 0xef, 0xfe, 0xdc, 0xba, 0x98, 0x76, 0x54, 0x32, 0x10]

  /** "v1-pre4", the only protocol version accepted. */
  const ProtocolVersion: Text := [0x76, 0x31, 0x2d, 0x70, 0x72, 0x65, 0x34]

  const ChannelModulus := 0x1_0000_0000
  const MinPacketLength := 96
  const SignatureLength := 64

  type uint32 = n: int | 0 <= n < 0x1_0000_0000

  /** The 16 bytes of a UUID (`UUID.bytes`). */
  type Uuid = s: Bytes | |s| == 16 witness [0, 0, 0, 0, 0, 0, 0, 0, 0, 0, 0, 0, 0, 0, 0, 0]

  datatype Packet = Packet(
    channelId: uint32,
    messageId: Uuid,
    authorId: Text,
    body: Bytes,
    utf8Encoded: bool,
    encryptionScheme: Text,
    signature: Option<Bytes>)

  datatype ConstructionFault = EmptyAuthorId | EmptyBody | EncryptedUtf8Body
  datatype SerializationFault = SignatureMissing | SignatureLengthInvalid
  datatype DeserializationFault = TooShort | WrongPrefix

  /** The exceptions the packet operations raise. */
  datatype PacketError =
    | ConstructionError(fault: ConstructionFault)                  // ValueError from the constructor
    | PacketSerializationError(serializationFault: SerializationFault)
    | PacketDeserializationError(deserializationFault: DeserializationFault)
    | IncompatibleProtocolVersion(received: Option<MsgPack.Value>)
        // the decoded field 0 of a tail array; None when the tail is a str or bin, whose first element the model does not decode
    | UndecodableTail   // unpackb raised
    | MalformedTail     // a tail field missing or of the wrong type (IndexError, TypeError, UUID's ValueError)
    | PackFailure       // packb raised: a field of 2^32 bytes or more
    | KeystoreFailure(cause: Keys.KeystoreError)
    | SignatureAbsent   // verify handed None to the primitive, which raises TypeError
    | AttributeError    // `.bytes` read from something that is not a UUID

  /** The constructor's field rules. */
  predicate WellFormed(p: Packet) {
    && p.authorId != []
    && p.body != []
    && !(p.encryptionScheme != [] && p.utf8Encoded)
  }

  /** `Packet(...)`: validates the fields in the source's order and stores
      them, the channel reduced modulo 2^32. */
  function Construct(
    channelId: int, messageId: Uuid, authorId: Text, body: Bytes,
    utf8Encoded: bool, encryptionScheme: Text, signature: Option<Bytes>): (r: Result<Packet, PacketError>)
    ensures r.Ok? <==> authorId != [] && body != [] && !(encryptionScheme != [] && utf8Encoded)
    ensures authorId == [] ==> r == Err(ConstructionError(EmptyAuthorId))
    ensures authorId != [] && body == [] ==> r == Err(ConstructionError(EmptyBody))
    ensures authorId != [] && body != [] && encryptionScheme != [] && utf8Encoded ==>
              r == Err(ConstructionError(EncryptedUtf8Body))
    ensures r.Ok? ==> WellFormed(r.value) && (channelId - r.value.channelId) % ChannelModulus == 0
    ensures r.Ok? && 0 <= channelId < ChannelModulus ==> r.value.channelId == channelId
    ensures r.Ok? ==> && r.value.messageId == messageId && r.value.authorId == authorId
                      && r.value.body == body && r.value.utf8Encoded == utf8Encoded
                      && r.value.encryptionScheme == encryptionScheme && r.value.signature == signature
  {
    if authorId == [] then Err(ConstructionError(EmptyAuthorId))
    else if body == [] then Err(ConstructionError(EmptyBody))
    else if encryptionScheme != [] && utf8Encoded then Err(ConstructionError(EncryptedUtf8Body))
    else Ok(Packet(channelId % ChannelModulus, messageId, authorId, body, utf8Encoded, encryptionScheme, signature))
  }

  /** The constructor's rules are exactly `WellFormed`: a packet value
      passes them iff it is well-formed. */
  lemma WellFormedIsConstructorRule(p: Packet)
    ensures WellFormed(p) <==>
      Construct(p.channelId, p.messageId, p.authorId, p.body, p.utf8Encoded, p.encryptionScheme, p.signature).Ok?
  {
  }

  /** Constructing a packet from the fields of a well-formed one rebuilds it. */
  lemma ConstructRebuilds(p: Packet)
    requires WellFormed(p)
    ensures Construct(p.channelId, p.messageId, p.authorId, p.body, p.utf8Encoded, p.encryptionScheme, p.signature) == Ok(p)
  {
  }

  /** The body handed to `Packet.new`: a `str` (its UTF-8 bytes) or `bytes`. */
  datatype BodyInput = TextBody(utf8: Text) | BinaryBody(data: Bytes)

  function BodyBytes(b: BodyInput): Bytes {
    match b
    case TextBody(s) => s
    case BinaryBody(d) => d
  }

  /** `Packet.new`: an unsigned packet under the freshly drawn id `freshId`
      (the value of `uuid4()`). */
  function New(authorId: Text, body: BodyInput, freshId: Uuid, channelId: int := 0, encryptionScheme: Text := []): (r: Result<Packet, PacketError>)
    ensures r.Ok? <==> authorId != [] && BodyBytes(body) != []
    ensures authorId == [] ==> r == Err(ConstructionError(EmptyAuthorId))
    ensures authorId != [] && BodyBytes(body) == [] ==> r == Err(ConstructionError(EmptyBody))
    ensures r.Err? ==> r.error != ConstructionError(EncryptedUtf8Body)
    ensures r.Ok? ==> && r.value.signature == None && r.value.messageId == freshId
                      && r.value.body == BodyBytes(body) && r.value.authorId == authorId
                      && r.value.encryptionScheme == encryptionScheme
    ensures r.Ok? ==> (r.value.utf8Encoded <==> body.TextBody? && encryptionScheme == [])
    ensures r.Ok? ==> r.value.channelId == channelId % ChannelModulus
  {
    var utf8Encoded := if body.TextBody? then encryptionScheme == [] else false;
    Construct(channelId, freshId, authorId, BodyBytes(body), utf8Encoded, encryptionScheme, None)
  }

  /** With every default taken, `new` puts the packet on channel 0 with no
      encryption scheme. */
  lemma NewDefaults(authorId: Text, body: BodyInput, freshId: Uuid)
    requires authorId != [] && BodyBytes(body) != []
    ensures New(authorId, body, freshId).Ok?
    ensures New(authorId, body, freshId).value.channelId == 0
    ensures New(authorId, body, freshId).value.encryptionScheme == []
    ensures New(authorId, body, freshId).value.utf8Encoded == body.TextBody?
  {
  }

  /** `set_message_body` as intended: the body replaced, the signature
      cleared and a newly drawn id `freshId` installed; nothing is
      re-validated. */
  function SetMessageBody(p: Packet, data: Bytes, freshId: Uuid): (q: Packet)
    ensures q.body == data && q.signature == None && q.messageId == freshId
    ensures && q.channelId == p.channelId && q.authorId == p.authorId
            && q.utf8Encoded == p.utf8Encoded && q.encryptionScheme == p.encryptionScheme
  {
    p.(body := data, signature := None, messageId := freshId)
  }

  /** The bytes that are signed and verified: message id, then body. The id
      has a fixed width, so the payload splits back into the two. */
  function SigningPayload(p: Packet): (r: Bytes)
    ensures |r| == 16 + |p.body| && r[..16] == p.messageId && r[16..] == p.body
  {
    p.messageId + p.body
  }

  /** A signature binds both the message id and the body: two packets with
      the same payload agree on both. */
  lemma SigningPayloadInjective(p: Packet, q: Packet)
    requires SigningPayload(p) == SigningPayload(q)
    ensures p.messageId == q.messageId && p.body == q.body
  {
    var r := SigningPayload(p);
    assert p.messageId == r[..16] == q.messageId;
    assert p.body == r[16..] == q.body;
  }

  /** `sign`: stores the keystore's signature over the payload. */
  function Sign(p: Packet, ks: Keys.Keystore, ed: Keys.Ed25519): (r: Result<Packet, PacketError>)
    reads ks
    ensures r.Ok? <==> p.authorId in ks.keys
    ensures r.Err? ==> r.error == KeystoreFailure(Keys.UnknownAuthor(p.authorId))
    ensures r.Ok? ==> r.value == p.(signature := Some(ed.sign(ks.keys[p.authorId], SigningPayload(p))))
  {
    match ks.Sign(p.authorId, SigningPayload(p), ed)
    case Ok(sig) => Ok(p.(signature := Some(sig)))
    case Err(e) => Err(KeystoreFailure(e))
  }

  /** `verify`: the keystore's verdict on the stored signature over the
      payload; the author is looked up before the signature is used. */
  function Verify(p: Packet, ks: Keys.Keystore, ed: Keys.Ed25519): (r: Result<bool, PacketError>)
    reads ks
    ensures p.authorId !in ks.keys ==> r == Err(KeystoreFailure(Keys.UnknownAuthor(p.authorId)))
    ensures p.authorId in ks.keys && p.signature.None? ==> r == Err(SignatureAbsent)
    ensures p.authorId in ks.keys && p.signature.Some? ==>
              r == Ok(ed.verify(ks.keys[p.authorId], SigningPayload(p), p.signature.value))
  {
    match p.signature
    case None =>
      if p.authorId in ks.keys then Err(SignatureAbsent) else Err(KeystoreFailure(Keys.UnknownAuthor(p.authorId)))
    case Some(sig) =>
      match ks.Verify(p.authorId, SigningPayload(p), sig, ed)
      case Ok(b) => Ok(b)
      case Err(e) => Err(KeystoreFailure(e))
  }

  /** The structured tail: the seven fields in wire order, carrying `version`
      as the version string. */
  function Tail(p: Packet, version: Text): MsgPack.Value {
    MsgPack.Array([
      MsgPack.Str(version),
      MsgPack.Bin(p.messageId),
      MsgPack.Str(p.authorId),
      MsgPack.Bin(p.body),
      MsgPack.Bool(p.utf8Encoded),
      MsgPack.Str(p.encryptionScheme),
      match p.signature
      case None => MsgPack.Nil
      case Some(s) => MsgPack.Bin(s)
    ])
  }

  /** No text or byte field is too long for `packb`. */
  predicate FitsWire(p: Packet) {
    |p.authorId| < MsgPack.Length32 && |p.body| < MsgPack.Length32 && |p.encryptionScheme| < MsgPack.Length32
  }

  /** A frame: prefix, 4-byte big-endian channel, packed tail. */
  function Frame(channelId: uint32, tail: MsgPack.Value): Bytes
    requires MsgPack.Encodable(tail)
  {
    Prefix + BigEndian.ToBytes(channelId, 4) + MsgPack.Encode(tail)
  }

  /** A frame of a signed packet's tail is long enough for `deserialize`. */
  lemma FrameLength(p: Packet, version: Text)
    requires p.signature.Some? && |p.signature.value| == SignatureLength
    requires MsgPack.Encodable(Tail(p, version))
    ensures |Frame(p.channelId, Tail(p, version))| >= MinPacketLength
  {
    var items := Tail(p, version).items;
    MsgPack.EncodedItemsLength(items, 1, 6);
    assert |MsgPack.Encode(items[1])| == 18;
    assert |MsgPack.Encode(items[6])| == 66;
  }

  /** `serialize`. */
  function Serialize(p: Packet): (r: Result<Bytes, PacketError>)
    ensures r.Err? <==> || p.signature.None? || |p.signature.value| != SignatureLength
                        || !MsgPack.Encodable(Tail(p, ProtocolVersion))
    ensures p.signature.None? ==> r == Err(PacketSerializationError(SignatureMissing))
    ensures p.signature.Some? && |p.signature.value| != SignatureLength ==>
              r == Err(PacketSerializationError(SignatureLengthInvalid))
    ensures r.Ok? ==> && |r.value| >= MinPacketLength
                      && r.value[..16] == Prefix
                      && BigEndian.FromBytes(r.value[16..20]) == p.channelId
  {
    match p.signature
    case None => Err(PacketSerializationError(SignatureMissing))
    case Some(sig) =>
      if |sig| != SignatureLength then Err(PacketSerializationError(SignatureLengthInvalid))
      else if !MsgPack.Encodable(Tail(p, ProtocolVersion)) then Err(PackFailure)
      else
        var frame := Frame(p.channelId, Tail(p, ProtocolVersion));
        FrameLength(p, ProtocolVersion);
        FrameFields(p.channelId, Tail(p, ProtocolVersion));
        Ok(frame)
  }

  /** The parts of a frame can be read back from their offsets. */
  lemma FrameFields(channelId: uint32, tail: MsgPack.Value)
    requires MsgPack.Encodable(tail)
    ensures |Frame(channelId, tail)| >= 20
    ensures Frame(channelId, tail)[..16] == Prefix
    ensures BigEndian.FromBytes(Frame(channelId, tail)[16..20]) == channelId
    ensures Frame(channelId, tail)[20..] == MsgPack.Encode(tail)
  {
    var c := BigEndian.ToBytes(channelId, 4);
    var f := Frame(channelId, tail);
    assert f[16..20] == c;
    BigEndian.FromToBytes(channelId, 4);
  }

  /** The constructor as `deserialize` calls it, on the decoded objects: its
      type checks (TypeError, reported as `MalformedTail`) and value checks
      interleave in the source's order. */
  function ConstructFromFields(
    channelId: int, messageId: Uuid, authorId: MsgPack.Value, body: MsgPack.Value,
    utf8Encoded: MsgPack.Value, encryptionScheme: MsgPack.Value, signature: MsgPack.Value): (r: Result<Packet, PacketError>)
    ensures r.Ok? <==> && authorId.Str? && authorId.utf8 != [] && body.Bin? && body.data != []
                       && encryptionScheme.Str? && !(encryptionScheme.utf8 != [] && MsgPack.Truthy(utf8Encoded))
                       && (signature.Bin? || signature.Nil?)
    ensures !authorId.Str? ==> r == Err(MalformedTail)
    ensures authorId == MsgPack.Str([]) ==> r == Err(ConstructionError(EmptyAuthorId))
    ensures authorId.Str? && authorId.utf8 != [] && !body.Bin? ==> r == Err(MalformedTail)
    ensures authorId.Str? && authorId.utf8 != [] && body == MsgPack.Bin([]) ==> r == Err(ConstructionError(EmptyBody))
    ensures authorId.Str? && authorId.utf8 != [] && body.Bin? && body.data != [] ==>
              && (!encryptionScheme.Str? ==> r == Err(MalformedTail))
              && (encryptionScheme.Str? && encryptionScheme.utf8 != [] && MsgPack.Truthy(utf8Encoded) ==>
                    r == Err(ConstructionError(EncryptedUtf8Body)))
    ensures r.Ok? ==> WellFormed(r.value) && r.value.channelId == channelId % ChannelModulus
    ensures r.Ok? ==> && r.value.messageId == messageId && r.value.authorId == authorId.utf8
                      && r.value.body == body.data && r.value.utf8Encoded == MsgPack.Truthy(utf8Encoded)
                      && r.value.encryptionScheme == encryptionScheme.utf8
                      && r.value.signature == (if signature.Bin? then Some(signature.data) else None)
  {
    if !authorId.Str? then Err(MalformedTail)
    else if authorId.utf8 == [] then Err(ConstructionError(EmptyAuthorId))
    else if !body.Bin? then Err(MalformedTail)
    else if body.data == [] then Err(ConstructionError(EmptyBody))
    else if !encryptionScheme.Str? then Err(MalformedTail)
    else if encryptionScheme.utf8 != [] && MsgPack.Truthy(utf8Encoded) then Err(ConstructionError(EncryptedUtf8Body))
    else if !(signature.Bin? || signature.Nil?) then Err(MalformedTail)
    else
      Ok(Packet(channelId % ChannelModulus, messageId, authorId.utf8, body.data, MsgPack.Truthy(utf8Encoded),
                encryptionScheme.utf8, if signature.Bin? then Some(signature.data) else None))
  }

  /** On objects of the expected types, the dynamically typed constructor
      is the constructor. */
  lemma ConstructFromFieldsAgrees(
    channelId: int, messageId: Uuid, authorId: Text, body: Bytes,
    utf8Encoded: bool, encryptionScheme: Text, signature: Option<Bytes>)
    ensures ConstructFromFields(channelId, messageId, MsgPack.Str(authorId), MsgPack.Bin(body),
                                MsgPack.Bool(utf8Encoded), MsgPack.Str(encryptionScheme),
                                match signature case None => MsgPack.Nil case Some(s) => MsgPack.Bin(s))
            == Construct(channelId, messageId, authorId, body, utf8Encoded, encryptionScheme, signature)
  {
  }

  /** The packet in a decoded tail: version check first, then the fields. */
  function FromFields(channelId: uint32, fields: MsgPack.Value): (r: Result<Packet, PacketError>)
    ensures fields.Array? && fields.items == [] ==> r == Err(MalformedTail)
    ensures fields.Array? && fields.items != [] && fields.items[0] != MsgPack.Str(ProtocolVersion) ==>
              r == Err(IncompatibleProtocolVersion(Some(fields.items[0])))
    ensures fields.Array? && fields.items != [] && fields.items[0] == MsgPack.Str(ProtocolVersion) ==>
              if |fields.items| < 7 || !(fields.items[1].Bin? && |fields.items[1].data| == 16) then r == Err(MalformedTail)
              else r == ConstructFromFields(channelId, fields.items[1].data, fields.items[2], fields.items[3],
                                            fields.items[4], fields.items[5], fields.items[6])
    ensures fields.Nil? || fields.Bool? ==> r == Err(MalformedTail)
    ensures fields.Str? ==> r == Err(if fields.utf8 == [] then MalformedTail else IncompatibleProtocolVersion(None))
    ensures fields.Bin? ==> r == Err(if fields.data == [] then MalformedTail else IncompatibleProtocolVersion(None))
    ensures r.Ok? ==> fields.Array? && |fields.items| >= 7 && fields.items[0] == MsgPack.Str(ProtocolVersion)
    ensures r.Ok? ==> WellFormed(r.value) && r.value.channelId == channelId
  {
    match fields
    case Array(f) =>
      if |f| == 0 then Err(MalformedTail)
      else if f[0] != MsgPack.Str(ProtocolVersion) then Err(IncompatibleProtocolVersion(Some(f[0])))
      else if |f| < 7 then Err(MalformedTail)
      else if !(f[1].Bin? && |f[1].data| == 16) then Err(MalformedTail)
      else ConstructFromFields(channelId, f[1].data, f[2], f[3], f[4], f[5], f[6])
    // indexing a string or byte string yields its first element, which is never the version
    case Str(s) => if s == [] then Err(MalformedTail) else Err(IncompatibleProtocolVersion(None))
    case Bin(d) => if d == [] then Err(MalformedTail) else Err(IncompatibleProtocolVersion(None))
    case Nil => Err(MalformedTail)
    case Bool(_) => Err(MalformedTail)
  }

  /** `deserialize`. The signature is carried over unchecked. */
  function Deserialize(data: Bytes): (r: Result<Packet, PacketError>)
    ensures |data| < MinPacketLength ==> r == Err(PacketDeserializationError(TooShort))
    ensures |data| >= MinPacketLength && data[..16] != Prefix ==> r == Err(PacketDeserializationError(WrongPrefix))
    ensures |data| >= MinPacketLength && data[..16] == Prefix ==>
              (MsgPack.Unpack(data[20..]).None? ==> r == Err(UndecodableTail))
    ensures |data| >= MinPacketLength && data[..16] == Prefix ==>
              var u := MsgPack.Unpack(data[20..]);
              u.Some? && u.value.Array? && u.value.items != [] && u.value.items[0] != MsgPack.Str(ProtocolVersion) ==>
                r == Err(IncompatibleProtocolVersion(Some(u.value.items[0])))
    ensures r.Ok? ==> WellFormed(r.value) && r.value.channelId == BigEndian.FromBytes(data[16..20])
  {
    if |data| < MinPacketLength then Err(PacketDeserializationError(TooShort))
    else if data[..16] != Prefix then Err(PacketDeserializationError(WrongPrefix))
    else
      var channelId := BigEndian.FromBytes(data[16..20]);
      match MsgPack.Unpack(data[20..])
      case None => Err(UndecodableTail)
      case Some(fields) => FromFields(channelId, fields)
  }

  /** Round trip: whatever a well-formed packet serializes to deserializes
      to the same packet. */
  lemma RoundTrip(p: Packet)
    requires WellFormed(p) && Serialize(p).Ok?
    ensures Deserialize(Serialize(p).value) == Ok(p)
  {
    var tail := Tail(p, ProtocolVersion);
    var data := Serialize(p).value;
    FrameFields(p.channelId, tail);
    MsgPack.UnpackPack(tail);
    assert MsgPack.Unpack(data[20..]) == Some(tail);
    ConstructFromFieldsAgrees(p.channelId, p.messageId, p.authorId, p.body, p.utf8Encoded, p.encryptionScheme, p.signature);
  }

  /** A well-formed frame that carries any other version string is refused
      with `IncompatibleProtocolVersion`, not a generic decoding error. */
  lemma ForeignVersionRejected(p: Packet, version: Text)
    requires version != ProtocolVersion
    requires p.signature.Some? && |p.signature.value| == SignatureLength
    requires MsgPack.Encodable(Tail(p, version))
    ensures Deserialize(Frame(p.channelId, Tail(p, version))) == Err(IncompatibleProtocolVersion(Some(MsgPack.Str(version))))
  {
    var tail := Tail(p, version);
    FrameLength(p, version);
    FrameFields(p.channelId, tail);
    MsgPack.UnpackPack(tail);
    assert tail.items[0] != MsgPack.Str(ProtocolVersion);
  }

  /** The body update does not re-check emptiness: a packet whose body was
      set to nothing still serializes once signed, but its bytes no longer
      deserialize. */
  lemma EmptyBodyUpdateBreaksRoundTrip(p: Packet, freshId: Uuid, sig: Bytes)
    requires |sig| == SignatureLength
    requires WellFormed(p) && FitsWire(p)
    ensures var q := SetMessageBody(p, [], freshId).(signature := Some(sig));
            && Serialize(q).Ok?
            && Deserialize(Serialize(q).value) == Err(ConstructionError(EmptyBody))
  {
    var q := SetMessageBody(p, [], freshId).(signature := Some(sig));
    var tail := Tail(q, ProtocolVersion);
    assert MsgPack.Encodable(tail) by {
      var items := tail.items;
      assert forall i :: 0 <= i < |items| ==> MsgPack.Encodable(items[i]);
    }
    var data := Serialize(q).value;
    FrameFields(q.channelId, tail);
    MsgPack.UnpackPack(tail);
    assert MsgPack.Unpack(data[20..]) == Some(tail);
  }

  /** A packet whose body was updated has to be signed again before it can
      be serialized. */
  lemma UpdatedBodyIsUnsigned(p: Packet, data: Bytes, freshId: Uuid)
    ensures Serialize(SetMessageBody(p, data, freshId)) == Err(PacketSerializationError(SignatureMissing))
    ensures SigningPayload(SetMessageBody(p, data, freshId)) == freshId + data
  {
  }

  /** Sign, serialize, deserialize, verify: with a conforming primitive and a
      registered author, the receiver gets the same packet back and its
      signature verifies. */
  lemma SignedPacketTravels(p: Packet, ks: Keys.Keystore, ed: Keys.Ed25519)
    requires WellFormed(p) && ks.Valid() && Keys.Conforms(ed) && p.authorId in ks.keys
    requires FitsWire(p)
    ensures Sign(p, ks, ed).Ok?
    ensures var signed := Sign(p, ks, ed).value;
            && Serialize(signed).Ok?
            && Deserialize(Serialize(signed).value) == Ok(signed)
            && Verify(signed, ks, ed) == Ok(true)
  {
    var signed := Sign(p, ks, ed).value;
    var sig := ed.sign(ks.keys[p.authorId], SigningPayload(p));
    assert |sig| == SignatureLength;
    var tail := Tail(signed, ProtocolVersion);
    assert MsgPack.Encodable(tail) by {
      var items := tail.items;
      assert forall i :: 0 <= i < |items| ==> MsgPack.Encodable(items[i]);
    }
    RoundTrip(signed);
  }

  // ---- set_message_body as the source writes it ----

  /** What `_message_uuid` holds: a UUID, or the function `uuid4` itself. */
  datatype MessageIdSlot = UuidValue(id: Uuid) | Uuid4Function

  /** `_message_uuid.bytes`: a function object has no such attribute. */
  function SlotBytes(slot: MessageIdSlot): (r: Result<Bytes, PacketError>)
    ensures r.Ok? <==> slot.UuidValue?
    ensures r.Ok? ==> r.value == slot.id
  {
    match slot
    case UuidValue(id) => Ok(id)
    case Uuid4Function => Err(AttributeError)
  }

  /** The three attributes `set_message_body` assigns. */
  datatype BodyUpdate = BodyUpdate(signature: Option<Bytes>, messageId: MessageIdSlot, body: Bytes)

  /** `set_message_body` as written: the id slot receives `uuid4`, not a call
      of it. */
  function SetMessageBodyAsWritten(p: Packet, data: Bytes): (u: BodyUpdate)
    ensures u.body == data && u.signature == None
    ensures u.messageId == Uuid4Function
  {
    BodyUpdate(None, Uuid4Function, data)
  }

  /** After the as-written update the payload of `sign` and `verify` cannot
      even be formed (nor the tail of `serialize`, once a signature is
      assigned directly), and two updates leave the same "id"; the intended
      update yields a payload under the new id. */
  lemma AsWrittenBodyUpdateBreaksSigning(p: Packet, data: Bytes, data': Bytes, freshId: Uuid)
    ensures SlotBytes(SetMessageBodyAsWritten(p, data).messageId) == Err(AttributeError)
    ensures SetMessageBodyAsWritten(p, data).messageId == SetMessageBodyAsWritten(p, data').messageId
    ensures SlotBytes(UuidValue(SetMessageBody(p, data, freshId).messageId)) == Ok(freshId)
  {
  }
}
