# propagate: relay engine, wire packet and keystore in Dafny

This project is a verified model of the core of the propagate flood-relay mesh.
Nodes dial a configured set of peers and accept inbound WebSocket connections.
Every text message a node receives is fingerprinted; if the fingerprint is new
it is recorded and the message is broadcast to every connection in the node's
table. On top of
the relay, an optional signed packet format carries authored messages.

| file | module | models |
|---|---|---|
| `base.dfy` | `Base` | bytes, `Option`, `Result` |
| `big_endian.dfy` | `BigEndian` | `int.to_bytes` / `int.from_bytes` with `"big"` |
| `msgpack.dfy` | `MsgPack` | the part of MessagePack the packet tail uses |
| `keystore.dfy` | `Keys` | `Keystore` of propagate/keystore.py, with Ed25519 as an oracle |
| `packet.dfy` | `Packets` | `Packet` of python/propagate/packet.py |
| `nodeaddr.dfy` | `NodeAddress` | `NodeAddr` of argh/nodeaddr.py |
| `dedup_cache.dfy` | `DedupCache` | the bounded fingerprint list `_known_hashes` |
| `relay_node.dfy` | `RelayEngine` | `Node` of propagate/node.py |
| `argh_node.dfy` | `ArghEngine` | the inbound handler of argh/node.py |

Modelling choices:

- **Packets.** A packet is a value (`Packets.Packet`). The constructor, `new`,
  `set_message_body`, `sign`, `verify`, `serialize` and `deserialize` are
  functions that return a new packet or a `Result` whose error side names the
  exception the source raises.
- **Text fields.** Python `str` fields of packets and keystores (author id,
  encryption scheme, the version string) are modelled as their UTF-8 bytes.
  Emptiness and equality are the same on either side.
- **Message ids.** `uuid4()` becomes a parameter `freshId`: the caller supplies
  the freshly drawn id.
- **Ed25519.** The primitive (section 5.1 of RFC 8032) is a pair of functions
  passed as a value (`Keys.Ed25519`). `Keys.Conforms` states the two facts the
  lemmas rely on: signatures are 64 bytes, and a signature verifies under the
  key that made it.
- **MessagePack.** The tail is encoded and decoded with a model of the
  MessagePack format restricted to nil, bool, str, bin and array. `Encode` emits
  the shortest header, as `packb` does with its defaults. `Unpack` refuses
  trailing bytes, as `unpackb` does.
- **Node state.** A node is a class (`RelayEngine.Node`) whose connection
  table (`connections`) and fingerprint list (`knownHashes`) are fields. The
  methods update those fields in place:
  - `Relay` keeps the source's trim loop.
  - `Register` and `Deregister` are the key assignment and `del`.
  - `ReceiveLoop`, `OutboundSession`, `DialPeer` and `ServeInbound` run the
    connection handlers over sessions given as data. A session is a handle,
    the messages received on it, and how it closed.
- **Fingerprints.** md5 of the message is the class's `fingerprint` function,
  fixed at construction. Connection handles are opaque numbers.
- **Broadcast.** `Relay` reports a broadcast as the set of handles it
  is addressed to. The connection handlers report the table their messages were
  broadcast over.
- **WebSocket loops.** In the `websockets` library, `async for msg in ws` ends
  quietly when the peer closes normally and raises `ConnectionClosedError`
  when the close carries an error. That difference decides the table updates:
  - Outbound, a normal close leaves the closed connection's entry in place
    until the next connect overwrites it. This is `AfterOutboundSession`.
  - Inbound, propagate always removes the entry (`finally`).
  - Inbound, argh removes the entry only after a normal close.
- **argh engine.** argh/node.py lines 19-53 (`__init__`, `_relay`,
  `_conn_to_receiver`) are the same code as propagate/node.py lines 20-54
  under other names. They are modelled once by `RelayEngine.Node`. The
  differing inbound handler is `ArghEngine.ServeInbound`.

Behaviour of the code that the model keeps:

- After a normal close, an outbound entry is not removed; it goes stale until
  reconnection.
- A port is any integer (`int(port)`), not a 16-bit number.
- The fingerprint is taken of the message text's UTF-8 encoding.
- A cancelled outbound task leaves its entry in the table. Cancellation
  itself is not modelled; see "Left out".

## Model

| member | source | states |
|---|---|---|
| `Packets.Construct` | python/propagate/packet.py:42-84 | Fails exactly when the author id is empty, the body is empty, or a scheme is set with `utf8_encoded`, with the error of the first failed check in source order. Otherwise it stores every field as given, with the channel congruent to the input modulo 2^32 (equal when already in range). |
| `Packets.ConstructRebuilds` | python/propagate/packet.py:54-84 | Constructing from the fields of a well-formed packet gives that packet back. |
| `Packets.New` | python/propagate/packet.py:145-166 | Succeeds iff the author id and the body bytes are non-empty. An empty author id gives the author error, whatever the body; an empty body after a non-empty author gives the body error. The mixed-scheme error can never occur. The result is unsigned, carries the fresh id, the given body, author and scheme, and the channel reduced modulo 2^32. `utf8_encoded` holds iff the body was text and the scheme is empty. |
| `Packets.NewDefaults` | python/propagate/packet.py:146-152 | With the defaults, the packet is on channel 0 with no scheme, and `utf8_encoded` holds iff the body was text. |
| `Packets.SetMessageBody` | python/propagate/packet.py:92-97 | The intended update: new body, signature cleared, the fresh id installed, and channel, author, flag and scheme unchanged. |
| `Packets.UpdatedBodyIsUnsigned` | python/propagate/packet.py:92-111 | After a body update, `serialize` fails with "Signature missing", and the signing payload is the new id followed by the new body. |
| `Packets.EmptyBodyUpdateBreaksRoundTrip` | python/propagate/packet.py:92-97 | The update does not re-check emptiness. An emptied body, once signed, still serializes, but its bytes fail to deserialize with the empty-body error. |
| `Packets.Sign` | python/propagate/packet.py:100-101 | Succeeds iff the author is registered, and stores the keystore's signature over message id followed by body; otherwise it fails with the lookup error. |
| `Packets.Verify` | python/propagate/packet.py:103-104 | Unknown author gives the lookup error. A missing signature gives an error. Otherwise the result is the primitive's verdict on message id followed by body. |
| `Packets.Serialize` | python/propagate/packet.py:107-120 | Fails with "Signature missing" or "Signature length invalid" in that order. On success the output is at least 96 bytes, starts with the 16-byte prefix and then the channel in 4 big-endian bytes. |
| `Packets.Deserialize` | python/propagate/packet.py:122-133 | Under 96 bytes, or a wrong prefix, gives `PacketDeserializationError`. An undecodable tail gives `UndecodableTail`. A tail array whose first field is not "v1-pre4" gives `IncompatibleProtocolVersion` carrying that field. A result is well-formed, with the channel read from bytes 16..20. |
| `Packets.FromFields` | python/propagate/packet.py:130-142 | An empty array, nil or bool tail is malformed. A non-empty array whose field 0 is not the version string gives `IncompatibleProtocolVersion` with that field, before any other field is looked at. With the right version, fewer than seven fields or a field 1 that is not 16 bytes is malformed; otherwise the result is the constructor on fields 1-6. A non-empty str or bin tail gives `IncompatibleProtocolVersion`, an empty one is malformed. A packet it yields came from a versioned array of at least seven fields, is well-formed and is on the given channel. |
| `Packets.ConstructFromFields` | python/propagate/packet.py:134-142 | The constructor applied to decoded objects. It succeeds iff the author is a non-empty str, the body a non-empty bin, the scheme a str not set together with a truthy flag, and the signature bin or nil. Failures come in source order: author type, then author emptiness, body type, body emptiness, scheme type, scheme with flag. A result is well-formed, stores the decoded id, author, body, the flag's truth value, scheme and signature, and has the channel reduced modulo 2^32. |
| `Packets.ConstructFromFieldsAgrees` | python/propagate/packet.py:134-142 | On decoded objects of the expected kinds, it equals `Construct`. |
| `Packets.RoundTrip` | python/propagate/packet.py:107-142 | For a well-formed packet that serializes, `deserialize(serialize(p)) == p`, signature included and unchecked. |
| `Packets.ForeignVersionRejected` | python/propagate/packet.py:131-133 | A frame of any signed packet carrying another version string is rejected with `IncompatibleProtocolVersion` carrying that version string. |
| `Packets.SigningPayload` | python/propagate/packet.py:101-104 | The signed bytes are the 16-byte message id followed by the body, and split back into the two. |
| `Packets.SigningPayloadInjective` | python/propagate/packet.py:101-104 | Two packets with the same signing payload have the same id and the same body, so a signature covers both. |
| `Packets.WellFormedIsConstructorRule` | python/propagate/packet.py:62-80 | A packet value passes the constructor's checks exactly when it is well-formed: non-empty author, non-empty body, no scheme together with `utf8_encoded`. |
| `Packets.SignedPacketTravels` | python/propagate/packet.py:100-142 | For a registered author and a conforming primitive: signing succeeds, the signed packet round-trips through the wire format, and it verifies as true. |
| `Packets.SetMessageBodyAsWritten` | python/propagate/packet.py:92-97 | The update as written: body replaced, signature cleared, and the id slot holds the function `uuid4`. |
| `Packets.SlotBytes` | python/propagate/packet.py:101 | `.bytes` of the id slot exists iff the slot holds a UUID. |
| `Packets.AsWrittenBodyUpdateBreaksSigning` | python/propagate/packet.py:96-104 | After the as-written update, the signing payload raises `AttributeError`, and two updates leave an identical id slot. The intended update yields the fresh id's bytes. |
| `MsgPack.Encode` | python/propagate/packet.py:112-120 | The packed form is non-empty and its first byte is a type byte of the object's own family: nil, bool, str, bin or array, each iff. |
| `MsgPack.Decode` | python/propagate/packet.py:130 | A decoded object consumes at least one byte, and the first byte is a type byte of the decoded object's family, so type bytes of other families never decode. |
| `MsgPack.Unpack` | python/propagate/packet.py:130 | A decoded tail is exactly one object with no bytes left over. |
| `MsgPack.DecodeEncode` | python/propagate/packet.py:112-130 | Decoding the packed form of any packable object, followed by any bytes, gives the object and those bytes back. |
| `MsgPack.UnpackPack` | python/propagate/packet.py:112-130 | `unpackb(packb(v)) == v` for every packable object. |
| `BigEndian.ToBytes` | python/propagate/packet.py:112 | `to_bytes(4, "big")` of a number below 256^k gives exactly k bytes. |
| `BigEndian.FromBytes` | python/propagate/packet.py:129 | `from_bytes(s, "big")` is below 256^len(s), so a 4-byte channel read is below 2^32. |
| `BigEndian.FromToBytes` | python/propagate/packet.py:112-129 | Reading back the k big-endian bytes of a number below 256^k gives the number. |
| `BigEndian.ToFromBytes` | python/propagate/packet.py:129 | Writing back the value of a byte string at its own length gives the byte string. |
| `Keys.Keystore.constructor` | propagate/keystore.py:8-9 | A new keystore has no authors. |
| `Keys.Keystore.AddKey` | propagate/keystore.py:11-18 | Refuses a key whose curve is not Ed25519 and leaves the map unchanged. Otherwise it maps the author to the key, replacing any earlier key, with other entries unchanged. Every stored key stays Ed25519. |
| `Keys.Keystore.Sign` | propagate/keystore.py:20-22 | Succeeds iff the author is registered, with the primitive's signature under that author's key; otherwise `UnknownAuthor`. Reads the map only. |
| `Keys.Keystore.Verify` | propagate/keystore.py:24-31 | Unknown author gives `UnknownAuthor`. Otherwise the answer is true or false as the primitive accepts or not, never an error. Reads the map only. |
| `Keys.SignThenVerify` | propagate/keystore.py:20-31 | With a conforming primitive, what `sign` returns for a registered author, `verify` accepts. |
| `NodeAddress.Decimal` | argh/nodeaddr.py:9-13 | The printed port contains neither '_' nor ':'. |
| `NodeAddress.DecimalInjective` | argh/nodeaddr.py:9-13 | Different integers print differently. |
| `NodeAddress.WsUri` | argh/nodeaddr.py:9-10 | The URI is "ws://", then the host, then ':', then the printed port, which contains no further ':'. |
| `NodeAddress.Identifier` | argh/nodeaddr.py:12-13 | The identifier is the host, then '_', then the printed port, which contains no further '_'. |
| `NodeAddress.IdentifierInjective` | argh/nodeaddr.py:12-13 | Equal identifiers come from equal addresses, even when the host contains '_'. |
| `NodeAddress.SameHostDifferentPorts` | argh/nodeaddr.py:12-13 | Two addresses on one host with different ports have different identifiers. |
| `NodeAddress.WsUriInjective` | argh/nodeaddr.py:9-10 | Equal URIs come from equal addresses. |
| `DedupCache.Admit` | propagate/node.py:34-40 | The fingerprint list after one message never exceeds 1,048,576 entries. |
| `DedupCache.NewestShape` | propagate/node.py:39-40 | Trimming from the front keeps the latest entries, at most 1,048,576 of them, exactly that many when the list was longer, and the whole list when it was within the bound. |
| `DedupCache.AdmitShape` | propagate/node.py:35-40 | The new list is what remains of the old list, with the digest appended if new, after removal from the front. A known digest leaves a bounded list unchanged. A new digest is appended at the end, displacing exactly the oldest entry when the list is full. |
| `DedupCache.AdmittedIsKnown` | propagate/node.py:35-40 | Once admitted, a digest is found in the list on the next message. |
| `DedupCache.AdmitKeepsDistinct` | propagate/node.py:36-40 | The list never holds a digest twice. |
| `DedupCache.OldestEvictedFirst` | propagate/node.py:39-40 | If an entry has been evicted, every older entry has been too. |
| `RelayEngine.Remember` | propagate/node.py:34-40 | The list after a batch of messages stays within the bound and free of repeats. |
| `RelayEngine.Forwarded` | propagate/node.py:36-38 | The broadcast messages of a batch are among its messages, never more of them. |
| `RelayEngine.RememberConcat` | propagate/node.py:49-50 | Relaying two batches in turn leaves the same list as relaying them as one batch. |
| `RelayEngine.ForwardedConcat` | propagate/node.py:49-50 | What a later batch broadcasts depends only on the list the earlier batch left. |
| `RelayEngine.RepeatForwardedOnce` | propagate/node.py:34-40 | The same message relayed twice in succession is broadcast exactly once if it was new, and never if it was known. |
| `RelayEngine.AudiencesIncludeOwnConnection` | propagate/node.py:45-50 | The table each outbound session's messages are broadcast over holds that session's own connection under the peer's identifier, so messages go back to their sender too. |
| `RelayEngine.AfterOutboundSession` | propagate/node.py:47-52 | After one outbound session, entries of other identifiers are unchanged; after a normal close the peer's identifier holds the session's connection, after a close with an error it has no entry. |
| `RelayEngine.OutboundLastSessionDecides` | propagate/node.py:45-54 | After any series of outbound sessions to one peer, only the last decides the peer's entry: stale handle after a normal close, removed after an error. Other entries are untouched. |
| `RelayEngine.Node.constructor` | propagate/node.py:24-32 | A new node has the given address, peers and fingerprint, an empty table and an empty list. |
| `RelayEngine.Node.Relay` | propagate/node.py:34-40 | The list becomes `Admit(old list, fingerprint)`, bounded and repeat-free. The message is broadcast to every handle in the table exactly when its fingerprint was unknown. The table is unchanged. |
| `RelayEngine.Node.ReceiveLoop` | propagate/node.py:49-50 | Relaying a connection's messages in order leaves `Remember(...)` and broadcasts exactly `Forwarded(...)` to the unchanged table. |
| `RelayEngine.Node.Register` | propagate/node.py:47 | `table[id] := handle`, last writer wins, other entries untouched. |
| `RelayEngine.Node.Deregister` | propagate/node.py:52 | Removes whatever the identifier holds now and reports it. A missing entry is the `KeyError` of `del`. |
| `RelayEngine.Node.OutboundSession` | propagate/node.py:46-54 | One pass of the connect loop: register, relay over the table as it then stands (the old table with this connection under the peer's identifier), and remove the entry only on a close with an error. |
| `RelayEngine.Node.DialPeer` | propagate/node.py:42-54 | Over a series of connections to one peer, the table ends as `AfterOutbound` gives, so the last session decides the peer's entry. The list and the broadcasts are those of all sessions' messages relayed in order, and each session's messages are broadcast over the table as it stands while that session is open. |
| `RelayEngine.Node.ServeInbound` | propagate/node.py:56-68 | The connection is registered under its remote address's identifier, its messages are relayed to a table including itself, and the entry is removed however the loop ends. |
| `RelayEngine.SharedIdentifierScenario` | propagate/node.py:60-68 | Two connections under one identifier: the first one's close removes the second one's entry, and the second one's close finds none (`KeyError`). |
| `ArghEngine.ServeInbound` | argh/node.py:55-64 | As the propagate handler, except that the entry is removed only after a normal close. After a close with an error, the closed connection keeps its entry. |

## Left out

- Asyncio task creation, `run`, the SIGTERM handler, `serve` and its wait
  (propagate/node.py:70-88, argh/node.py:66-76): concurrency and I/O. Connection
  events are method calls made in sequence.
- Interleavings are not explored. The one interleaving the table's keying
  makes visible is `SharedIdentifierScenario`. Task cancellation on shutdown is
  not modelled: a cancelled outbound task raises out of its loop past the
  `except` and leaves its entry, as the code stands.
- Binary WebSocket frames: `msg.encode()` would fail on `bytes`. Only text
  frames are modelled.
- The remote address of an IPv6 inbound connection is a 4-tuple, and unpacking
  it into `host, port` fails. Not modelled.
- `node_from_yml` (YAML loading) and the entry-point scripts: external parsers
  and I/O. `Node` takes its listen address and peers directly.
- The runtime `type`/`isinstance` checks that raise `TypeError`, for
  arguments of the wrong Python type: Dafny's types rule those inputs out.
  Decoded tail objects of the wrong kind are modelled (`MalformedTail`).
- md5, Ed25519 and `uuid4` internals: foreign. They appear as a function field
  (`fingerprint`), a pair of functions (`Keys.Ed25519`) and a parameter
  (`freshId`). Failures of the primitive itself are not modelled, such as
  signing with a key that has no private part.
- That flipping one byte of body or signature makes verification return false
  is not stated: it needs unforgeability of Ed25519, a cryptographic assumption
  the model cannot state of an uninterpreted primitive.
- UTF-8 validity: text is carried as its encoded bytes, and `MsgPack.Decode`
  accepts any bytes as a str. Where `unpackb` raises `UnicodeDecodeError` on a
  str field that is not valid UTF-8 (an author id of the single byte 0xff, say),
  `Packets.Deserialize` returns the packet.
- MessagePack families other than nil, bool, str, bin and array: integers,
  floats, maps and ext types. `serialize` never writes them, but a received
  tail may hold them. `Decode` treats their type bytes as undecodable, so on
  such a tail `Packets.Deserialize` gives `UndecodableTail`, where the source
  decodes it and then either fails later or succeeds. A tail `[5, ...]` gives
  `IncompatibleProtocolVersion(5)` there, and an integer as author id a
  `TypeError`. An integer, float or map as `utf8_encoded` (which only passes
  through `bool()`), or as any field after the seventh (which is never read),
  is accepted by the source, and it returns the packet.
- `Packets.FromFields`: for a non-empty str or bin tail, `IncompatibleProtocolVersion`
  carries `None` instead of the tail's first character or byte, which the
  model does not decode.
- The logging calls (argh/log.py) and the unreachable
  `asyncio.gather(receiver_tasks)` after `serve_forever()` (argh/node.py:76).

## Findings

| source | as written | input that shows it | evidently intended | confidence | as-written member | corrected member |
|---|---|---|---|---|---|---|
| python/propagate/packet.py:96 | `self._message_uuid = uuid4` stores the function, not a new UUID | any packet `p`; `p.set_message_body(b"x")` then `p.sign(ks)` or `p.verify(ks)` reads `uuid4.bytes` and raises `AttributeError` (as does `p.serialize()` once a signature is assigned directly); two updates also leave the same "id" | `uuid4()`: a fresh id for the new body | high, not executed | `Packets.AsWrittenBodyUpdateBreaksSigning` | `Packets.SetMessageBody` |
