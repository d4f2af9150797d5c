/** The flood-relay engine of propagate/node.py: a node keeps a table of open
    connections keyed by identifier and a bounded list of the fingerprints of
    messages it has already relayed. Every message whose fingerprint is new is
    broadcast to every connection in the table. */
module RelayEngine {
  import opened Base
  import opened DedupCache
  import opened NodeAddress

  /** A text frame received over a WebSocket. */
  type Message = string

  /** An open WebSocket connection, by identity. */
  type Handle = nat

  /** How the receive loop over a connection ended: `ConnectionClosedOK`
      finishes the loop, `ConnectionClosedError` raises out of it. */
  datatype Ending = ClosedOk | ClosedWithError

  /** One connection from accept or connect to close. */
  datatype Session = Session(handle: Handle, received: seq<Message>, ending: Ending)

  /** The fingerprint list after relaying `msgs` in order. */
  function Remember(fp: Message -> Digest, known: seq<Digest>, msgs: seq<Message>): (r: seq<Digest>)
    ensures msgs != [] || |known| <= MaxKnownHashes ==> |r| <= MaxKnownHashes
    ensures NoDuplicates(known) ==> NoDuplicates(r)
    decreases |msgs|
  {
    if msgs == [] then known
    else
      var before := Remember(fp, known, msgs[..|msgs| - 1]);
      AdmitKeepsDistinctIf(before, fp(msgs[|msgs| - 1]));
      Admit(before, fp(msgs[|msgs| - 1]))
  }

  lemma AdmitKeepsDistinctIf(known: seq<Digest>, d: Digest)
    ensures NoDuplicates(known) ==> NoDuplicates(Admit(known, d))
  {
    if NoDuplicates(known) {
      AdmitKeepsDistinct(known, d);
    }
  }

  /** The messages of `msgs` that get broadcast, in order: those whose
      fingerprint is not in the list at the time they arrive. */
  function Forwarded(fp: Message -> Digest, known: seq<Digest>, msgs: seq<Message>): (r: seq<Message>)
    ensures |r| <= |msgs|
    ensures forall m :: m in r ==> m in msgs
    decreases |msgs|
  {
    if msgs == [] then []
    else
      var init, m := msgs[..|msgs| - 1], msgs[|msgs| - 1];
      Forwarded(fp, known, init) + (if fp(m) in Remember(fp, known, init) then [] else [m])
  }

  /** Relaying two batches one after the other leaves the list that relaying
      them as one batch leaves. */
  lemma {:induction false} RememberConcat(fp: Message -> Digest, known: seq<Digest>, a: seq<Message>, b: seq<Message>)
    ensures Remember(fp, known, a + b) == Remember(fp, Remember(fp, known, a), b)
    decreases |b|
  {
    if b != [] {
      assert (a + b)[..|a + b| - 1] == a + b[..|b| - 1];
      RememberConcat(fp, known, a, b[..|b| - 1]);
    } else {
      assert a + b == a;
    }
  }

  /** What a later batch forwards depends only on the list the earlier batch
      left behind. */
  lemma {:induction false} ForwardedConcat(fp: Message -> Digest, known: seq<Digest>, a: seq<Message>, b: seq<Message>)
    ensures Forwarded(fp, known, a + b) == Forwarded(fp, known, a) + Forwarded(fp, Remember(fp, known, a), b)
    decreases |b|
  {
    if b != [] {
      var init := b[..|b| - 1];
      assert (a + b)[..|a + b| - 1] == a + init;
      ForwardedConcat(fp, known, a, init);
      RememberConcat(fp, known, a, init);
    } else {
      assert a + b == a;
    }
  }

  /** A message relayed twice in succession is broadcast exactly once if it
      was new, and not at all if it was already known. */
  lemma RepeatForwardedOnce(fp: Message -> Digest, known: seq<Digest>, m: Message)
    requires |known| <= MaxKnownHashes
    ensures Forwarded(fp, known, [m, m]) == if fp(m) in known then [] else [m]
  {
    assert [m, m][..1] == [m];
    assert [m][..0] == [];
    assert Forwarded(fp, known, [m]) == if fp(m) in known then [] else [m];
    assert Remember(fp, known, [m]) == Admit(known, fp(m));
    AdmittedIsKnown(known, fp(m));
  }

  /** Relaying one more message of a batch: from the list and the broadcasts
      of the first `i` messages, message `i` leads to those of the first
      `i + 1`. */
  lemma RelayStep(fp: Message -> Digest, known: seq<Digest>, msgs: seq<Message>, i: nat,
                  before: seq<Digest>, after: seq<Digest>, sent: seq<Message>, sent': seq<Message>)
    requires i < |msgs|
    requires before == Remember(fp, known, msgs[..i]) && sent == Forwarded(fp, known, msgs[..i])
    requires after == Admit(before, fp(msgs[i]))
    requires sent' == sent + (if fp(msgs[i]) in before then [] else [msgs[i]])
    ensures after == Remember(fp, known, msgs[..i + 1])
    ensures sent' == Forwarded(fp, known, msgs[..i + 1])
  {
    var p := msgs[..i + 1];
    assert p[..i] == msgs[..i] && p[i] == msgs[i] && |p| == i + 1;
    assert Remember(fp, known, p) == Admit(Remember(fp, known, p[..i]), fp(p[i]));
    assert Forwarded(fp, known, p) == Forwarded(fp, known, p[..i]) + (if fp(p[i]) in Remember(fp, known, p[..i]) then [] else [p[i]]);
  }

  /** All messages of a series of sessions, in order. */
  function Received(sessions: seq<Session>): (r: seq<Message>)
    ensures sessions == [] ==> r == []
    ensures |sessions| == 1 ==> r == sessions[0].received
    decreases |sessions|
  {
    if sessions == [] then []
    else Received(sessions[..|sessions| - 1]) + sessions[|sessions| - 1].received
  }

  /** One more session of a series. */
  lemma SessionStep(fp: Message -> Digest, known: seq<Digest>, table: map<string, Handle>, id: string,
                    sessions: seq<Session>, i: nat)
    requires i < |sessions|
    ensures AfterOutbound(table, id, sessions[..i + 1])
      == AfterOutboundSession(AfterOutbound(table, id, sessions[..i]), id, sessions[i])
    ensures Audiences(table, id, sessions[..i + 1])
      == Audiences(table, id, sessions[..i]) + [AfterOutbound(table, id, sessions[..i])[id := sessions[i].handle]]
    ensures Remember(fp, known, Received(sessions[..i + 1]))
      == Remember(fp, Remember(fp, known, Received(sessions[..i])), sessions[i].received)
    ensures Forwarded(fp, known, Received(sessions[..i + 1]))
      == Forwarded(fp, known, Received(sessions[..i]))
       + Forwarded(fp, Remember(fp, known, Received(sessions[..i])), sessions[i].received)
  {
    assert sessions[..i + 1][..i] == sessions[..i];
    RememberConcat(fp, known, Received(sessions[..i]), sessions[i].received);
    ForwardedConcat(fp, known, Received(sessions[..i]), sessions[i].received);
  }

  /** The table once an outbound session ends. A normal close finishes the
      receive loop without raising, so the entry of the closed connection
      stays until the next connect overwrites it; a close with an error
      removes the entry. */
  function AfterOutboundSession(table: map<string, Handle>, id: string, s: Session): (r: map<string, Handle>)
    ensures r - {id} == table - {id}
    ensures s.ending == ClosedOk ==> id in r && r[id] == s.handle
    ensures s.ending == ClosedWithError ==> id !in r
  {
    if s.ending == ClosedOk then table[id := s.handle] else table - {id}
  }

  /** The table after a series of outbound sessions to one peer. */
  function AfterOutbound(table: map<string, Handle>, id: string, sessions: seq<Session>): map<string, Handle>
    decreases |sessions|
  {
    if sessions == [] then table
    else AfterOutboundSession(AfterOutbound(table, id, sessions[..|sessions| - 1]), id, sessions[|sessions| - 1])
  }

  /** The table that messages of each outbound session are broadcast over
      (to every connection it holds): the table as it stands while that
      session is open. */
  function Audiences(table: map<string, Handle>, id: string, sessions: seq<Session>): seq<map<string, Handle>>
    decreases |sessions|
  {
    if sessions == [] then []
    else
      var init := sessions[..|sessions| - 1];
      Audiences(table, id, init) + [AfterOutbound(table, id, init)[id := sessions[|sessions| - 1].handle]]
  }

  /** Each outbound session's messages also go back to that session's own
      connection, and only there under the peer's identifier. */
  lemma {:induction false} AudiencesIncludeOwnConnection(table: map<string, Handle>, id: string, sessions: seq<Session>)
    ensures |Audiences(table, id, sessions)| == |sessions|
    ensures forall i :: 0 <= i < |sessions| ==>
              id in Audiences(table, id, sessions)[i] && Audiences(table, id, sessions)[i][id] == sessions[i].handle
    decreases |sessions|
  {
    if sessions != [] {
      var init := sessions[..|sessions| - 1];
      AudiencesIncludeOwnConnection(table, id, init);
      var last := sessions[|sessions| - 1];
      var open := AfterOutbound(table, id, init)[id := last.handle];
      assert open[id] == last.handle;
      var a := Audiences(table, id, sessions);
      assert a == Audiences(table, id, init) + [open];
      forall i | 0 <= i < |sessions| ensures id in a[i] && a[i][id] == sessions[i].handle {
        if i < |init| {
          assert sessions[i] == init[i] && a[i] == Audiences(table, id, init)[i];
        }
      }
    }
  }

  /** Only the last session to a peer decides its entry, and entries under
      other identifiers are untouched. */
  lemma {:induction false} OutboundLastSessionDecides(table: map<string, Handle>, id: string, sessions: seq<Session>)
    ensures AfterOutbound(table, id, sessions) - {id} == table - {id}
    ensures sessions != [] ==>
      AfterOutbound(table, id, sessions) == AfterOutboundSession(table, id, sessions[|sessions| - 1])
    decreases |sessions|
  {
    if sessions != [] {
      var init := sessions[..|sessions| - 1];
      OutboundLastSessionDecides(table, id, init);
      var before := AfterOutbound(table, id, init);
      var s := sessions[|sessions| - 1];
      if s.ending == ClosedOk {
        assert before[id := s.handle] == table[id := s.handle] by {
          assert forall k :: k in before && k != id ==> k in before - {id};
          assert forall k :: k in table && k != id ==> k in table - {id};
        }
      } else {
        assert before - {id} == table - {id};
      }
    }
  }

  class Node {
    const listenAddress: NodeAddr
    /** The peers this node dials (`relays`). */
    const peers: seq<NodeAddr>
    /** md5 of the message's UTF-8 encoding. */
    const fingerprint: Message -> Digest
    /** `_connections`: identifier to connection. */
    var connections: map<string, Handle>
    /** `_known_hashes`: oldest first. */
    var knownHashes: seq<Digest>

    ghost predicate Valid()
      reads this
    {
      |knownHashes| <= MaxKnownHashes && NoDuplicates(knownHashes)
    }

    constructor (listenAddress: NodeAddr, peers: seq<NodeAddr>, fingerprint: Message -> Digest)
      ensures Valid()
      ensures this.listenAddress == listenAddress && this.peers == peers && this.fingerprint == fingerprint
      ensures connections == map[] && knownHashes == []
    {
      this.listenAddress := listenAddress;
      this.peers := peers;
      this.fingerprint := fingerprint;
      connections := map[];
      knownHashes := [];
    }

    /** `_relay`: broadcast `msg` to every open connection unless its
        fingerprint is known; remember the fingerprint and trim the list from
        the front. `None` means nothing was broadcast. */
    method Relay(msg: Message) returns (targets: Option<set<Handle>>)
      requires Valid()
      modifies this`knownHashes
      ensures Valid()
      ensures connections == old(connections)
      ensures knownHashes == Admit(old(knownHashes), fingerprint(msg))
      ensures targets == if fingerprint(msg) in old(knownHashes) then None else Some(connections.Values)
    {
      var digest := fingerprint(msg);
      targets := None;
      if digest !in knownHashes {
        knownHashes := knownHashes + [digest];
        targets := Some(connections.Values);
      }
      while |knownHashes| > MaxKnownHashes
        invariant Newest(knownHashes) == Admit(old(knownHashes), digest)
        decreases |knownHashes|
      {
        knownHashes := knownHashes[1..];
      }
      AdmitKeepsDistinct(old(knownHashes), digest);
    }

    /** `async for msg in ws: self._relay(msg)`. */
    method ReceiveLoop(msgs: seq<Message>) returns (forwarded: seq<Message>)
      requires Valid()
      modifies this`knownHashes
      ensures Valid()
      ensures connections == old(connections)
      ensures knownHashes == Remember(fingerprint, old(knownHashes), msgs)
      ensures forwarded == Forwarded(fingerprint, old(knownHashes), msgs)
    {
      ghost var known := knownHashes;
      forwarded := [];
      var i := 0;
      assert msgs[..0] == [];
      while i < |msgs|
        invariant 0 <= i <= |msgs|
        invariant Valid()
        invariant knownHashes == Remember(fingerprint, known, msgs[..i])
        invariant forwarded == Forwarded(fingerprint, known, msgs[..i])
      {
        ghost var before, sent := knownHashes, forwarded;
        var targets := Relay(msgs[i]);
        if targets.Some? {
          forwarded := forwarded + [msgs[i]];
        }
        RelayStep(fingerprint, known, msgs, i, before, knownHashes, sent, forwarded);
        i := i + 1;
      }
      assert msgs[..i] == msgs;
    }

    /** Storing a connection under its identifier; a connection already
        stored there is replaced. */
    method Register(id: string, h: Handle)
      modifies this`connections
      ensures connections == old(connections)[id := h]
      ensures knownHashes == old(knownHashes)
    {
      connections := connections[id := h];
    }

    /** `del self._connections[identifier]`: removes whatever connection the
        identifier holds now, which need not be the one that is closing.
        `None` is the `KeyError` of an identifier with no entry. */
    method Deregister(id: string) returns (removed: Option<Handle>)
      modifies this`connections
      ensures removed == if id in old(connections) then Some(old(connections)[id]) else None
      ensures connections == old(connections) - {id}
      ensures knownHashes == old(knownHashes)
    {
      removed := if id in connections then Some(connections[id]) else None;
      connections := connections - {id};
    }

    /** `_conn_to_relay`: each connection the connect loop yields is stored
        under the peer's identifier and its messages are relayed; a close with
        an error removes the entry and the loop connects again. The messages
        of session `i` are broadcast to every connection in the table
        `audiences[i]`, which holds that session's own connection. */
    method DialPeer(peer: NodeAddr, sessions: seq<Session>)
      returns (forwarded: seq<Message>, audiences: seq<map<string, Handle>>)
      requires Valid()
      modifies this`connections, this`knownHashes
      ensures Valid()
      ensures connections == AfterOutbound(old(connections), Identifier(peer), sessions)
      ensures knownHashes == Remember(fingerprint, old(knownHashes), Received(sessions))
      ensures forwarded == Forwarded(fingerprint, old(knownHashes), Received(sessions))
      ensures audiences == Audiences(old(connections), Identifier(peer), sessions)
    {
      var id := Identifier(peer);
      ghost var table, known := connections, knownHashes;
      forwarded, audiences := [], [];
      var i := 0;
      assert sessions[..0] == [];
      while i < |sessions|
        invariant 0 <= i <= |sessions|
        invariant Valid()
        invariant connections == AfterOutbound(table, id, sessions[..i])
        invariant knownHashes == Remember(fingerprint, known, Received(sessions[..i]))
        invariant forwarded == Forwarded(fingerprint, known, Received(sessions[..i]))
        invariant audiences == Audiences(table, id, sessions[..i])
      {
        var more, audience := OutboundSession(id, sessions[i]);
        forwarded, audiences := forwarded + more, audiences + [audience];
        assert && connections == AfterOutbound(table, id, sessions[..i + 1])
               && knownHashes == Remember(fingerprint, known, Received(sessions[..i + 1]))
               && forwarded == Forwarded(fingerprint, known, Received(sessions[..i + 1]))
               && audiences == Audiences(table, id, sessions[..i + 1]) by {
          SessionStep(fingerprint, known, table, id, sessions, i);
        }
        i := i + 1;
      }
      assert sessions[..i] == sessions;
    }

    /** One pass of the connect loop in `_conn_to_relay`: the new connection
        replaces whatever the peer's identifier held, its messages are relayed
        to the table as it now stands, and a close with an error removes the
        entry again. */
    method OutboundSession(id: string, s: Session) returns (forwarded: seq<Message>, audience: map<string, Handle>)
      requires Valid()
      modifies this`connections, this`knownHashes
      ensures Valid()
      ensures connections == AfterOutboundSession(old(connections), id, s)
      ensures knownHashes == Remember(fingerprint, old(knownHashes), s.received)
      ensures forwarded == Forwarded(fingerprint, old(knownHashes), s.received)
      ensures audience == old(connections)[id := s.handle]
    {
      Register(id, s.handle);
      audience := connections;
      forwarded := ReceiveLoop(s.received);
      if s.ending == ClosedWithError {
        var removed := Deregister(id);
        assert removed == Some(s.handle);
      }
    }

    /** `_conn_from_node_or_client`: the connection is stored under the
        identifier of its remote address, its messages are relayed to every
        connection in the table `audience` (its own included), and the entry is removed
        in `finally`, however the loop ended. */
    method ServeInbound(remote: NodeAddr, session: Session)
      returns (forwarded: seq<Message>, audience: map<string, Handle>)
      requires Valid()
      modifies this`connections, this`knownHashes
      ensures Valid()
      ensures connections == old(connections) - {Identifier(remote)}
      ensures knownHashes == Remember(fingerprint, old(knownHashes), session.received)
      ensures forwarded == Forwarded(fingerprint, old(knownHashes), session.received)
      ensures audience == old(connections)[Identifier(remote) := session.handle]
    {
      var id := Identifier(remote);
      Register(id, session.handle);
      audience := connections;
      forwarded := ReceiveLoop(session.received);
      var removed := Deregister(id);
      assert removed == Some(session.handle);
    }
  }

  /** Two connections under one identifier, interleaved: the second replaces
      the first in the table, the first one's close then removes the second
      one's entry while it is still open, and the second one's close finds no
      entry and raises `KeyError`. */
  method SharedIdentifierScenario(n: Node, id: string, first: Handle, second: Handle)
    returns (firstRemoves: Option<Handle>, secondRemoves: Option<Handle>)
    modifies n`connections
    ensures firstRemoves == Some(second)
    ensures secondRemoves == None
    ensures n.connections == old(n.connections) - {id}
  {
    n.Register(id, first);
    n.Register(id, second);
    firstRemoves := n.Deregister(id);
    secondRemoves := n.Deregister(id);
  }
}
