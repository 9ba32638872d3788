/** processIPv4TCP of stack_system.go: outgoing packets are sent to the local listener, its replies are sent back. */
module StackSystem {
  import opened Wrappers
  import opened Bytes
  import opened HeaderChecksum
  import opened RewriteTcp
  import opened NatPorts
  import opened TcpNat

  /** netip.Addr.IsGlobalUnicast for an IPv4 address. */
  predicate IsGlobalUnicast(a: seq<byte>)
    requires |a| == 4
  {
    && a != [0, 0, 0, 0] && a != [255, 255, 255, 255]
    && a[0] != 127 && a[0] / 0x10 != 14 && !(a[0] == 169 && a[1] == 254)
  }

  datatype System = System(
    address: seq<byte>, nextAddress: seq<byte>, tcpPort: u16, loopbacks: seq<seq<byte>>, txChecksumOffload: bool)

  predicate ValidSystem(s: System) {
    |s.address| == 4 && |s.nextAddress| == 4 && forall i :: 0 <= i < |s.loopbacks| ==> |s.loopbacks[i]| == 4
  }

  datatype Outcome = WriteBack | Ignored | SessionNotFound | PortsExhausted

  function KeyOf(t: Tuple): NatKey {
    NatKey(AddrPort(t.source, t.sourcePort), AddrPort(t.destination, t.destinationPort))
  }

  lemma DestinationIs(s: seq<byte>)
    requires IsTcp4(s)
    ensures |s| >= 20 && Get32(TupleOf(s).destination, 0) == Get32(s, 16)
  {
  }

  /** The tuple of the answer to a packet. */
  function Reversed(k: NatKey): Tuple {
    Tuple(k.destination.addr, k.destination.port, k.source.addr, k.source.port)
  }

  /** The answer to a packet goes from its destination to its source. */
  lemma AnswerReverses(t: Tuple)
    ensures Reversed(KeyOf(t)) == Tuple(t.destination, t.destinationPort, t.source, t.sourcePort)
  {
  }

  /** Sessions are made from IPv4 packets. */
  ghost predicate Ipv4Sessions(n: TCPNat)
    reads n
  {
    forall port :: port in n.portMap ==>
      |n.portMap[port].key.source.addr| == 4 && |n.portMap[port].key.destination.addr| == 4
  }

  /** The destinations that are not served: unspecified, broadcast, loopback, multicast and link-local. */
  predicate Unserved(a: u32) {
    || a == 0 || a == 0xFFFF_FFFF || 0x7F00_0000 <= a <= 0x7FFF_FFFF
    || 0xE000_0000 <= a <= 0xEFFF_FFFF || 0xA9FE_0000 <= a <= 0xA9FE_FFFF
  }

  lemma UnicastExact(a: seq<byte>)
    requires |a| == 4
    ensures IsGlobalUnicast(a) <==> !Unserved(Get32(a, 0))
  {
    UnicastNumbers(a[0], a[1], a[2], a[3], Get32(a, 0));
    assert a == [a[0], a[1], a[2], a[3]];
  }

  /** The address as a number. */
  lemma UnicastNumbers(a: byte, b: byte, c: byte, d: byte, x: int)
    requires x == a as int * 0x100_0000 + b as int * 0x1_0000 + c as int * 0x100 + d
    ensures x == 0 <==> a == b == c == d == 0
    ensures x == 0xFFFF_FFFF <==> a == b == c == d == 255
    ensures 0x7F00_0000 <= x <= 0x7FFF_FFFF <==> a == 127
    ensures 0xE000_0000 <= x <= 0xEFFF_FFFF <==> a / 0x10 == 14
    ensures 0xA9FE_0000 <= x <= 0xA9FE_FFFF <==> a == 169 && b == 254
  {
  }

  /**
  A packet from the listener is a reply: it leaves with the pair of its session reversed.  Any other
  packet leaves for the listener with the port that stands for its pair, except that packets to a
  loopback address go back to where they came from.  Both keep checksums that were computed from
  scratch, or clear the TCP checksum for the device to fill in.
  */
  method ProcessIPv4TCP(s: System, n: TCPNat, b: array<byte>, t1: int, t2: int) returns (r: Outcome)
    requires ValidSystem(s) && n.Valid() && Ipv4Sessions(n) && IsTcp4(b[..])
    modifies b, n, set port | port in n.portMap :: n.portMap[port]
    ensures n.Valid() && Ipv4Sessions(n)
    ensures r != WriteBack ==> b[..] == old(b[..])
    ensures r == WriteBack ==> Rewritten(old(b[..]), b[..], s.txChecksumOffload)
    ensures r == WriteBack && s.txChecksumOffload ==> Get16(b[..], HeaderLength(b[..]) + 16) == 0
    ensures r == Ignored <==> Unserved(old(Get32(b[..], 16)))
    ensures var t := old(TupleOf(b[..]));
      r != Ignored ==>
        if t.source == s.address && t.sourcePort == s.tcpPort then
          && (r == WriteBack <==> t.destinationPort in old(n.portMap)) && (r != WriteBack ==> r == SessionNotFound)
          && (forall key :: key in n.addrMap && n.addrMap[key] == t.destinationPort ==> TupleOf(b[..]) == Reversed(key))
        else if t.destination in s.loopbacks then
          r == WriteBack && TupleOf(b[..]) == Tuple(t.destination, t.sourcePort, t.source, t.destinationPort)
        else
          && (r == WriteBack || r == PortsExhausted)
          && (r == PortsExhausted <==>
                KeyOf(t) !in old(n.addrMap) && forall p: u16 :: FIRST_PORT <= p ==> p in old(n.portMap))
          && (r == WriteBack ==>
                && KeyOf(t) in n.addrMap
                && TupleOf(b[..]) == Tuple(s.nextAddress, n.addrMap[KeyOf(t)], s.address, s.tcpPort))
  {
    hide Rewritten;
    hide IsTcp4;
    hide TupleOf;
    hide IsGlobalUnicast;
    hide Unserved;
    hide Get32;
    hide Get16;
    hide HeaderLength;
    hide RefreshedAt;
    var t := TupleOf(b[..]);
    DestinationIs(b[..]);
    UnicastExact(t.destination);
    if !IsGlobalUnicast(t.destination) {
      return Ignored;
    } else if t.source == s.address && t.sourcePort == s.tcpPort {
      var session := n.LookupBack(t.destinationPort, t1, t2);
      if session == null {
        return SessionNotFound;
      }
      var key := session.key;
      RewriteIPv4TCP(b, s.txChecksumOffload, key.destination.addr, key.destination.port, true,
                     key.source.addr, key.source.port, true);
    } else {
      r := Redirect(s, n, b, t1, t2);
      return;
    }
    return WriteBack;
  }

  /** A packet that is no reply: back to a loopback address, or on to the listener. */
  method Redirect(s: System, n: TCPNat, b: array<byte>, t1: int, t2: int) returns (r: Outcome)
    requires ValidSystem(s) && n.Valid() && Ipv4Sessions(n) && IsTcp4(b[..])
    modifies b, n, set port | port in n.portMap :: n.portMap[port]
    ensures n.Valid() && Ipv4Sessions(n)
    ensures r != WriteBack ==> b[..] == old(b[..])
    ensures r == WriteBack ==> Rewritten(old(b[..]), b[..], s.txChecksumOffload)
    ensures r == WriteBack && s.txChecksumOffload ==> Get16(b[..], HeaderLength(b[..]) + 16) == 0
    ensures var t := old(TupleOf(b[..]));
      if t.destination in s.loopbacks then
        r == WriteBack && TupleOf(b[..]) == Tuple(t.destination, t.sourcePort, t.source, t.destinationPort)
      else
        && (r == WriteBack || r == PortsExhausted)
        && (r == PortsExhausted <==>
              KeyOf(t) !in old(n.addrMap) && forall p: u16 :: FIRST_PORT <= p ==> p in old(n.portMap))
        && (r == WriteBack ==>
              && KeyOf(t) in n.addrMap
              && TupleOf(b[..]) == Tuple(s.nextAddress, n.addrMap[KeyOf(t)], s.address, s.tcpPort))
  {
    hide Rewritten;
    hide IsTcp4;
    hide TupleOf;
    hide Get16;
    hide HeaderLength;
    hide RefreshedAt;
    var t := TupleOf(b[..]);
    for i := 0 to |s.loopbacks|
      invariant t.destination !in s.loopbacks[..i]
      invariant b[..] == old(b[..]) && n.portMap == old(n.portMap) && n.addrMap == old(n.addrMap) && n.Valid()
    {
      if t.destination == s.loopbacks[i] {
        RewriteIPv4TCP(b, s.txChecksumOffload, s.loopbacks[i], 0, false, t.source, 0, false);
        return WriteBack;
      }
    }
    var natPort := n.Lookup(AddrPort(t.source, t.sourcePort), AddrPort(t.destination, t.destinationPort), t1, t2);
    if natPort.None? {
      return PortsExhausted;
    }
    RewriteIPv4TCP(b, s.txChecksumOffload, s.nextAddress, natPort.value, true, s.address, s.tcpPort, true);
    return WriteBack;
  }
}
