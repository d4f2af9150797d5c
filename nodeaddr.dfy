/** Endpoint addresses (argh/nodeaddr.py): a host and a port, from which the
    WebSocket URI and the connection-table key are formatted. */
module NodeAddress {

  /** Fixed at construction (`str(host)`, `int(port)`). */
  datatype NodeAddr = NodeAddr(host: string, port: int)

  predicate IsDigit(c: char) {
    '0' <= c <= '9'
  }

  function DigitChar(d: nat): (c: char)
    requires d < 10
    ensures IsDigit(c) && c as int - '0' as int == d
  {
    "0123456789"[d]
  }

  /** Decimal digits of a natural number, without leading zeros. */
  function NatDecimal(n: nat): (s: string)
    ensures |s| >= 1 && forall i :: 0 <= i < |s| ==> IsDigit(s[i])
    decreases n
  {
    if n < 10 then [DigitChar(n)] else NatDecimal(n / 10) + [DigitChar(n % 10)]
  }

  /** Python's `str(n)` for an integer. */
  function Decimal(n: int): (s: string)
    ensures forall i :: 0 <= i < |s| ==> s[i] != '_' && s[i] != ':'
  {
    if n < 0 then "-" + NatDecimal(-n) else NatDecimal(n)
  }

  function DigitValue(c: char): nat
    requires IsDigit(c)
  {
    c as int - '0' as int
  }

  /** The value of a string of decimal digits. */
  function DigitsValue(s: string): nat
    requires forall i :: 0 <= i < |s| ==> IsDigit(s[i])
  {
    if s == [] then 0 else DigitsValue(s[..|s| - 1]) * 10 + DigitValue(s[|s| - 1])
  }

  lemma {:induction false} DigitsValueOfNatDecimal(n: nat)
    ensures DigitsValue(NatDecimal(n)) == n
    decreases n
  {
    if n >= 10 {
      var s := NatDecimal(n);
      assert s[..|s| - 1] == NatDecimal(n / 10);
      DigitsValueOfNatDecimal(n / 10);
    }
  }

  /** Different integers print differently. */
  lemma DecimalInjective(m: int, n: int)
    requires Decimal(m) == Decimal(n)
    ensures m == n
  {
    DecimalSign(m);
    DecimalSign(n);
    var a, b := if m < 0 then -m else m, if n < 0 then -n else n;
    assert NatDecimal(a) == NatDecimal(b) by {
      if m < 0 {
        assert NatDecimal(a) == Decimal(m)[1..] == NatDecimal(b);
      }
    }
    DigitsValueOfNatDecimal(a);
    DigitsValueOfNatDecimal(b);
  }

  /** The printed form starts with '-' exactly for negative numbers. */
  lemma DecimalSign(n: int)
    ensures |Decimal(n)| >= 1 && (Decimal(n)[0] == '-' <==> n < 0)
  {
    if n >= 0 {
      assert IsDigit(NatDecimal(n)[0]);
    }
  }

  /** `ws_uri()`: the scheme, the host, then the port after the last ':'. */
  function WsUri(a: NodeAddr): (u: string)
    ensures |u| > 5 + |a.host| && u[..5] == "ws://" && u[5..5 + |a.host|] == a.host
    ensures u[5 + |a.host|] == ':' && forall k :: 5 + |a.host| < k < |u| ==> u[k] != ':'
    ensures u[6 + |a.host|..] == Decimal(a.port)
  {
    var u := "ws://" + a.host + ":" + Decimal(a.port);
    JoinIndices("ws://" + a.host, ':', Decimal(a.port));
    u
  }

  /** `identifier()`: the key of the address in a node's connection table;
      the host ends at the last '_'. */
  function Identifier(a: NodeAddr): (id: string)
    ensures |id| > |a.host| && id[..|a.host|] == a.host
    ensures id[|a.host|] == '_' && forall k :: |a.host| < k < |id| ==> id[k] != '_'
    ensures id[|a.host| + 1..] == Decimal(a.port)
  {
    var id := a.host + "_" + Decimal(a.port);
    JoinIndices(a.host, '_', Decimal(a.port));
    id
  }

  /** Joining at a separator that the right-hand part never contains can be
      undone: the last separator marks the join. */
  lemma {:induction false} SplitAtLastSeparator(l1: string, r1: string, l2: string, r2: string, sep: char)
    requires forall i :: 0 <= i < |r1| ==> r1[i] != sep
    requires forall i :: 0 <= i < |r2| ==> r2[i] != sep
    requires l1 + [sep] + r1 == l2 + [sep] + r2
    ensures l1 == l2 && r1 == r2
  {
    var s := l1 + [sep] + r1;
    JoinIndices(l1, sep, r1);
    JoinIndices(l2, sep, r2);
    assert |r1| == |r2|;
    assert l1 == s[..|l1|] == l2;
    assert r1 == s[|l1| + 1..] == r2;
  }

  /** Where the parts of `l + [sep] + r` sit. */
  lemma JoinIndices(l: string, sep: char, r: string)
    ensures (l + [sep] + r)[|l|] == sep
    ensures forall k :: |l| < k <= |l| + |r| ==> (l + [sep] + r)[k] == r[k - |l| - 1]
  {
  }

  /** Distinct addresses never share a table key, even when the host
      itself contains '_'. */
  lemma IdentifierInjective(a: NodeAddr, b: NodeAddr)
    requires Identifier(a) == Identifier(b)
    ensures a == b
  {
    SplitAtLastSeparator(a.host, Decimal(a.port), b.host, Decimal(b.port), '_');
    DecimalInjective(a.port, b.port);
  }

  /** Two addresses on one host with different ports have different keys. */
  lemma SameHostDifferentPorts(host: string, p1: int, p2: int)
    requires p1 != p2
    ensures Identifier(NodeAddr(host, p1)) != Identifier(NodeAddr(host, p2))
  {
    if Identifier(NodeAddr(host, p1)) == Identifier(NodeAddr(host, p2)) {
      IdentifierInjective(NodeAddr(host, p1), NodeAddr(host, p2));
    }
  }

  /** Distinct addresses are dialled at distinct URIs. */
  lemma WsUriInjective(a: NodeAddr, b: NodeAddr)
    requires WsUri(a) == WsUri(b)
    ensures a == b
  {
    var l1, l2 := "ws://" + a.host, "ws://" + b.host;
    assert l1 + [':'] + Decimal(a.port) == WsUri(a);
    assert l2 + [':'] + Decimal(b.port) == WsUri(b);
    SplitAtLastSeparator(l1, Decimal(a.port), l2, Decimal(b.port), ':');
    assert a.host == l1[5..] == l2[5..] == b.host;
    DecimalInjective(a.port, b.port);
  }
}
