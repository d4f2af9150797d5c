/** The older engine of argh/node.py. Its state, `_relay` and the outbound
    connect loop (`_conn_to_receiver`) are the same code as in
    propagate/node.py and are modelled by `RelayEngine.Node`; only the inbound
    handler differs, and it is modelled here. */
module ArghEngine {
  import opened Base
  import opened NodeAddress
  import opened RelayEngine

  /** `_conn_from_node_or_client` without `finally`: the entry is removed only
      when the receive loop finishes normally. A close with an error raises out
      of the handler before the `del`, so the closed connection keeps its
      entry and later broadcasts are still addressed to it. */
  method ServeInbound(n: Node, remote: NodeAddr, session: Session)
    returns (forwarded: seq<Message>, audience: map<string, Handle>)
    requires n.Valid()
    modifies n`connections, n`knownHashes
    ensures n.Valid()
    ensures n.connections == if session.ending == ClosedOk
      then old(n.connections) - {Identifier(remote)}
      else old(n.connections)[Identifier(remote) := session.handle]
    ensures n.knownHashes == Remember(n.fingerprint, old(n.knownHashes), session.received)
    ensures forwarded == Forwarded(n.fingerprint, old(n.knownHashes), session.received)
    ensures audience == old(n.connections)[Identifier(remote) := session.handle]
  {
    var id := Identifier(remote);
    n.Register(id, session.handle);
    audience := n.connections;
    forwarded := n.ReceiveLoop(session.received);
    if session.ending == ClosedOk {
      var removed := n.Deregister(id);
      assert removed == Some(session.handle);
    }
  }
}
