/** Flow identifiers: the address order, reversal and the canonical direction of a flow. */
module Flow {
  import opened Common

  type Bytes4 = s: seq<byte> | |s| == 4 witness [0, 0, 0, 0]
  type Bytes16 = s: seq<byte> | |s| == 16 witness [0, 0, 0, 0, 0, 0, 0, 0, 0, 0, 0, 0, 0, 0, 0, 0]

  /** std::variant of the two address classes; the default value is the zero IPv4 address. */
  datatype IpAddress = IPv4(v4: Bytes4) | IPv6(v6: Bytes16)

  datatype FlowId = FlowId(srcIp: IpAddress, dstIp: IpAddress, srcPort: u16, dstPort: u16, protocol: byte)

  /** Lexicographic order of the address bytes, as std::array compares. */
  predicate BytesLess(a: seq<byte>, b: seq<byte>) {
    if b == [] then false
    else if a == [] then true
    else a[0] < b[0] || (a[0] == b[0] && BytesLess(a[1..], b[1..]))
  }

  /** std::variant compares the alternative's index first. */
  predicate IpLess(a: IpAddress, b: IpAddress) {
    match (a, b)
    case (IPv4(x), IPv4(y)) => BytesLess(x, y)
    case (IPv4(_), IPv6(_)) => true
    case (IPv6(_), IPv4(_)) => false
    case (IPv6(x), IPv6(y)) => BytesLess(x, y)
  }

  function Reverse(id: FlowId): FlowId {
    FlowId(id.dstIp, id.srcIp, id.dstPort, id.srcPort, id.protocol)
  }

  predicate ShouldSwap(id: FlowId) {
    IpLess(id.dstIp, id.srcIp) || (id.srcIp == id.dstIp && id.srcPort > id.dstPort)
  }

  /** The direction under which the flow table files both directions of a conversation. */
  function Normalize(id: FlowId): FlowId {
    if ShouldSwap(id) then Reverse(id) else id
  }

  predicate Canonical(id: FlowId) {
    !ShouldSwap(id)
  }

  lemma {:induction false} BytesLessTrichotomy(a: seq<byte>, b: seq<byte>)
    ensures a == b <==> !BytesLess(a, b) && !BytesLess(b, a)
    ensures !(BytesLess(a, b) && BytesLess(b, a))
  {
    if a != [] && b != [] {
      BytesLessTrichotomy(a[1..], b[1..]);
      assert a == [a[0]] + a[1..];
      assert b == [b[0]] + b[1..];
    }
  }

  /** The first position at which two byte strings differ decides, or the shorter one comes first. */
  lemma {:induction false} BytesLessIff(a: seq<byte>, b: seq<byte>)
    ensures BytesLess(a, b)
            <==> exists k: nat :: k <= |a| && k < |b| && a[..k] == b[..k] && (k == |a| || a[k] < b[k])
  {
    if a != [] && b != [] {
      BytesLessIff(a[1..], b[1..]);
      if k: nat :| k <= |a| && k < |b| && a[..k] == b[..k] && (k == |a| || a[k] < b[k]) {
        if k > 0 {
          assert a[..k][0] == b[..k][0];
          assert a[1..][..k - 1] == a[..k][1..] == b[..k][1..] == b[1..][..k - 1];
        }
      }
      if a[0] == b[0] && BytesLess(a[1..], b[1..]) {
        var j: nat :| j <= |a[1..]| && j < |b[1..]| && a[1..][..j] == b[1..][..j]
          && (j == |a[1..]| || a[1..][j] < b[1..][j]);
        assert a[..j + 1] == [a[0]] + a[1..][..j] == [b[0]] + b[1..][..j] == b[..j + 1];
      }
      assert a[..0] == b[..0];
    } else if b != [] {
      assert a[..0] == b[..0];
    }
  }

  /** Addresses are totally ordered, so exactly one direction of a flow is canonical. */
  lemma IpLessTrichotomy(a: IpAddress, b: IpAddress)
    ensures a == b <==> !IpLess(a, b) && !IpLess(b, a)
    ensures !(IpLess(a, b) && IpLess(b, a))
  {
    match (a, b)
    case (IPv4(x), IPv4(y)) => BytesLessTrichotomy(x, y);
    case (IPv6(x), IPv6(y)) => BytesLessTrichotomy(x, y);
    case _ =>
  }

  /** The filed direction goes from the lower end to the higher: IPv4 before IPv6, then the address bytes, then the
      port; ends and protocol are those of the flow. */
  lemma FiledDirection(id: FlowId)
    ensures
      var n := Normalize(id);
      && (n == id || n == FlowId(id.dstIp, id.srcIp, id.dstPort, id.srcPort, id.protocol))
      && (n.srcIp.IPv6? ==> n.dstIp.IPv6?)
      && (n.srcIp.IPv4? && n.dstIp.IPv4? ==> n.srcIp == n.dstIp || BytesLess(n.srcIp.v4, n.dstIp.v4))
      && (n.srcIp.IPv6? && n.dstIp.IPv6? ==> n.srcIp == n.dstIp || BytesLess(n.srcIp.v6, n.dstIp.v6))
      && (n.srcIp == n.dstIp ==> n.srcPort <= n.dstPort)
  {
    IpLessTrichotomy(id.srcIp, id.dstIp);
    hide BytesLess;
  }

  /** Two packets share a flow table entry exactly when they belong to the same conversation. */
  lemma NormalizeIdentifiesDirections(a: FlowId, b: FlowId)
    ensures Normalize(a) == Normalize(b) <==> a == b || a == Reverse(b)
    ensures Canonical(Normalize(a))
    ensures Canonical(a) <==> Normalize(a) == a
    ensures Canonical(a) && Canonical(Reverse(a)) <==> a == Reverse(a)
  {
    IpLessTrichotomy(a.srcIp, a.dstIp);
    IpLessTrichotomy(b.srcIp, b.dstIp);
  }
}
