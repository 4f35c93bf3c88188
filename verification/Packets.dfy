/** Building and taking apart the IP and UDP packets that carry DNS messages. */
module Packets {
  import opened Wrappers
  import opened Checksum
  import opened Mapper

  // ------------------------------------------------------------ the layout of packets

  // net.IP.To4: nothing for an address that is not IPv4.
  function To4(ip: seq<byte>): seq<byte> {
    if |ip| == 4 then ip
    else if |ip| == 16 && ip[..12] == [0, 0, 0, 0, 0, 0, 0, 0, 0, 0, 0xff, 0xff] then ip[12..]
    else []
  }

  function Low16(n: nat): word {
    n % 0x1_0000
  }

  function UDPPacket(srcPort: word, dstPort: word, data: seq<byte>): (p: seq<byte>)
    ensures |p| == 8 + |data|
  {
    U16(srcPort) + U16(dstPort) + U16(Low16(8 + |data|)) + [0, 0] + data
  }

  // RFC 791 section 3.1, without options.
  function IPv4Header(src: seq<byte>, dst: seq<byte>, protocol: byte, totalLen: word, checksum: word): (h: seq<byte>)
    requires |src| == 4 && |dst| == 4
    ensures |h| == 20
  {
    [0x45, 0] + U16(totalLen) + [0, 0, 0x40, 0, 64, protocol] + U16(checksum) + src + dst
  }

  function IPv4Packet(src: seq<byte>, dst: seq<byte>, protocol: byte, payload: seq<byte>): (p: seq<byte>)
    requires |src| == 4 && |dst| == 4
    ensures |p| == 20 + |payload|
  {
    var totalLen := Low16(20 + |payload|);
    IPv4Header(src, dst, protocol, totalLen, Sum16(IPv4Header(src, dst, protocol, totalLen, 0))) + payload
  }

  // RFC 8200 section 3.
  function IPv6Header(src: seq<byte>, dst: seq<byte>, nextHeader: byte, payloadLen: word): (h: seq<byte>)
    requires |src| == 16 && |dst| == 16
    ensures |h| == 40
  {
    [0x60, 0, 0, 0] + U16(payloadLen) + [nextHeader, 64] + src + dst
  }

  function IPv6Packet(src: seq<byte>, dst: seq<byte>, nextHeader: byte, payload: seq<byte>): (p: seq<byte>)
    requires |src| == 16 && |dst| == 16
    ensures |p| == 40 + |payload|
  {
    IPv6Header(src, dst, nextHeader, Low16(|payload|)) + payload
  }

  // ------------------------------------------------------------ writing

  method PutUint16(packet: array<byte>, at: nat, n: word)
    requires at + 2 <= packet.Length
    modifies packet
    ensures forall i :: 0 <= i < packet.Length ==>
              packet[i] == if i == at then n / 256 else if i == at + 1 then n % 256 else old(packet[i])
  {
    packet[at] := n / 256;
    packet[at + 1] := n % 256;
  }

  method CopyAt(packet: array<byte>, at: nat, bytes: seq<byte>)
    requires at + |bytes| <= packet.Length
    modifies packet
    ensures forall i :: 0 <= i < packet.Length ==>
              packet[i] == if at <= i < at + |bytes| then bytes[i - at] else old(packet[i])
  {
    for k := 0 to |bytes|
      invariant forall i :: 0 <= i < packet.Length ==>
                  packet[i] == if at <= i < at + k then bytes[i - at] else old(packet[i])
    {
      packet[at + k] := bytes[k];
    }
  }

  // Everything of an IPv4 header but its checksum.
  method FillIPv4Header(packet: array<byte>, src: seq<byte>, dst: seq<byte>, protocol: byte)
    requires packet.Length >= 20 && |src| == 4 && |dst| == 4
    requires forall i :: 0 <= i < packet.Length ==> packet[i] == 0
    modifies packet
    ensures packet[..20] == IPv4Header(src, dst, protocol, Low16(packet.Length), 0)
  {
    packet[0] := 0x45;
    packet[1] := 0;
    PutUint16(packet, 2, Low16(packet.Length));
    PutUint16(packet, 4, 0);
    PutUint16(packet, 6, 0x4000);
    packet[8] := 64;
    packet[9] := protocol;
    PutUint16(packet, 10, 0);
    CopyAt(packet, 12, src);
    CopyAt(packet, 16, dst);
    ghost var h := IPv4Header(src, dst, protocol, Low16(packet.Length), 0);
    assert forall i :: 0 <= i < 20 ==> packet[i] == h[i];
  }

  // Computes the checksum of the header and writes it there.
  method WriteChecksum(packet: array<byte>)
    requires packet.Length >= 20
    modifies packet
    ensures packet[..20] == WithWord(old(packet[..20]), 10, Sum16(old(packet[..20])))
  {
    ghost var h := packet[..20];
    var checksum := IPv4Checksum(packet[..20]);
    PutUint16(packet, 10, checksum);
    assert forall i :: 0 <= i < 20 ==> packet[i] == WithWord(h, 10, checksum)[i];
  }

  method BuildIPv4Packet(src: seq<byte>, dst: seq<byte>, protocol: byte, payload: seq<byte>)
    returns (packet: array<byte>)
    requires |To4(src)| == 4 && |To4(dst)| == 4
    ensures fresh(packet) && packet[..] == IPv4Packet(To4(src), To4(dst), protocol, payload)
  {
    packet := new byte[20 + |payload|](i => 0);
    FillIPv4Header(packet, To4(src), To4(dst), protocol);
    ghost var checksum := Sum16(packet[..20]);
    WriteChecksum(packet);
    HeaderChecksum(To4(src), To4(dst), protocol, Low16(packet.Length), checksum);
    ghost var h := packet[..20];
    CopyAt(packet, 20, payload);
    assert packet[..] == h + payload;
  }

  lemma HeaderChecksum(src: seq<byte>, dst: seq<byte>, protocol: byte, totalLen: word, checksum: word)
    requires |src| == 4 && |dst| == 4
    ensures WithWord(IPv4Header(src, dst, protocol, totalLen, 0), 10, checksum) ==
            IPv4Header(src, dst, protocol, totalLen, checksum)
    ensures ReadU16(IPv4Header(src, dst, protocol, totalLen, 0), 10) == 0
  {
    var h := IPv4Header(src, dst, protocol, totalLen, 0);
    assert h[..10] == [0x45, 0] + U16(totalLen) + [0, 0, 0x40, 0, 64, protocol];
    assert h[12..] == src + dst;
    assert h[10] == 0 && h[11] == 0;
  }

  method FillIPv6Header(packet: array<byte>, src: seq<byte>, dst: seq<byte>, nextHeader: byte, payloadLen: word)
    requires packet.Length >= 40 && |src| == 16 && |dst| == 16
    modifies packet
    ensures packet[..40] == IPv6Header(src, dst, nextHeader, payloadLen)
  {
    packet[0] := 0x60;
    packet[1] := 0;
    packet[2] := 0;
    packet[3] := 0;
    PutUint16(packet, 4, payloadLen);
    packet[6] := nextHeader;
    packet[7] := 64;
    CopyAt(packet, 8, src);
    CopyAt(packet, 24, dst);
    ghost var h := IPv6Header(src, dst, nextHeader, payloadLen);
    assert forall i :: 0 <= i < 40 ==> packet[i] == h[i];
  }

  method BuildIPv6Packet(src: seq<byte>, dst: seq<byte>, nextHeader: byte, payload: seq<byte>)
    returns (packet: array<byte>)
    requires |To16(src)| == 16 && |To16(dst)| == 16
    ensures fresh(packet) && packet[..] == IPv6Packet(To16(src), To16(dst), nextHeader, payload)
  {
    packet := new byte[40 + |payload|](i => 0);
    FillIPv6Header(packet, To16(src), To16(dst), nextHeader, Low16(|payload|));
    ghost var h := packet[..40];
    CopyAt(packet, 40, payload);
    assert packet[..] == h + payload;
  }

  method BuildUDPPacket(srcPort: word, dstPort: word, data: seq<byte>) returns (packet: array<byte>)
    ensures fresh(packet) && packet[..] == UDPPacket(srcPort, dstPort, data)
  {
    packet := new byte[8 + |data|](i => 0);
    WriteUDP(packet, 0, srcPort, dstPort, data);
    assert packet[0..] == packet[..];
  }

  // ------------------------------------------------------------ reading

  datatype Datagram = Datagram(srcIP: seq<byte>, srcPort: word, dstIP: seq<byte>, dstPort: word, data: seq<byte>)

  // What the stack makes of a packet.
  datatype Reception = Ignored | Transport(dstIP: seq<byte>) | UDP(datagram: Datagram, isIPv6: bool)

  const PROTOCOL_UDP: byte := 17

  function ProcessUDP(payload: seq<byte>, srcIP: seq<byte>, dstIP: seq<byte>, isIPv6: bool): Reception {
    if |payload| < 8 then Ignored
    else UDP(Datagram(srcIP, ReadU16(payload, 0), dstIP, ReadU16(payload, 2), payload[8..]), isIPv6)
  }

  function ProcessIPv4(packet: seq<byte>): Reception {
    if |packet| < 20 then Ignored
    else
      var ihl: nat := (packet[0] % 16) * 4;
      if |packet| < ihl then Ignored
      else if packet[9] == PROTOCOL_UDP then
        if |packet| < ihl + 8 then Ignored
        else ProcessUDP(packet[ihl..], packet[12..16], packet[16..20], false)
      else Ignored
  }

  function ProcessIPv6(packet: seq<byte>): Reception {
    if |packet| < 40 then Ignored
    else if packet[24] == 0xfd then Transport(packet[24..40])
    else if packet[6] == PROTOCOL_UDP then
      if |packet| < 48 then Ignored
      else ProcessUDP(packet[40..], packet[8..24], packet[24..40], true)
    else Ignored
  }

  // The packets shorter than an IPv4 header are dropped before their version is looked at.
  function ProcessPacket(packet: seq<byte>): Reception {
    if |packet| < 20 then Ignored
    else if packet[0] / 16 == 4 then ProcessIPv4(packet)
    else if packet[0] / 16 == 6 then ProcessIPv6(packet)
    else Ignored
  }

  // Only what is sent to port 53 is handled as a query.
  predicate IsDNSQuery(r: Reception) {
    r.UDP? && r.datagram.dstPort == 53
  }

  // ------------------------------------------------------------ round trips

  method SendDNSResponse(dnsData: seq<byte>, dstIP: seq<byte>, dstPort: word, srcIP: seq<byte>, isIPv6: bool)
    returns (ipPacket: array<byte>)
    requires isIPv6 ==> |To16(srcIP)| == 16 && |To16(dstIP)| == 16
    requires !isIPv6 ==> |To4(srcIP)| == 4 && |To4(dstIP)| == 4
    ensures var udp := UDPPacket(53, dstPort, dnsData);
            ipPacket[..] == if isIPv6 then IPv6Packet(To16(srcIP), To16(dstIP), PROTOCOL_UDP, udp)
                            else IPv4Packet(To4(srcIP), To4(dstIP), PROTOCOL_UDP, udp)
  {
    var udpPacket := BuildUDPPacket(53, dstPort, dnsData);
    if isIPv6 {
      ipPacket := BuildIPv6Packet(srcIP, dstIP, PROTOCOL_UDP, udpPacket[..]);
    } else {
      ipPacket := BuildIPv4Packet(srcIP, dstIP, PROTOCOL_UDP, udpPacket[..]);
    }
  }

  /** RFC 768: source port, destination port, length of header and data, and a checksum of 0 for none. */
  lemma UDPLayout(srcPort: word, dstPort: word, data: seq<byte>)
    ensures var p := UDPPacket(srcPort, dstPort, data);
            && 256 * (p[0] as int) + p[1] as int == srcPort
            && 256 * (p[2] as int) + p[3] as int == dstPort
            && (256 * (p[4] as int) + p[5] as int == |p| <==> 8 + |data| < 0x1_0000)
            && ReadU16(p, 4) == 256 * (p[4] as int) + p[5] as int
            && p[6] == 0 && p[7] == 0 && p[8..] == data
  {
    var p := UDPPacket(srcPort, dstPort, data);
    Low16Fits(8 + |data|);
    assert p[0..2] == U16(srcPort) && p[2..4] == U16(dstPort) && p[4..6] == U16(Low16(8 + |data|));
  }

  /** RFC 791 section 3.1: version 4, five words of header, no service type, no identification, not to be
      fragmented, 64 hops. */
  lemma IPv4Layout(src: seq<byte>, dst: seq<byte>, protocol: byte, payload: seq<byte>)
    requires |src| == 4 && |dst| == 4
    ensures var p := IPv4Packet(src, dst, protocol, payload);
            && p[0] == 0x45 && p[1] == 0 && p[4..9] == [0, 0, 0x40, 0, 64] && p[9] == protocol
            && p[12..16] == src && p[16..20] == dst && p[20..] == payload
            && (256 * (p[2] as int) + p[3] as int == |p| <==> |p| < 0x1_0000)
  {
    var totalLen := Low16(20 + |payload|);
    var checksum := Sum16(IPv4Header(src, dst, protocol, totalLen, 0));
    var h := IPv4Header(src, dst, protocol, totalLen, checksum);
    HeaderFields(src, dst, protocol, totalLen, checksum);
    Low16Fits(20 + |payload|);
    var p := IPv4Packet(src, dst, protocol, payload);
    assert p[..20] == h && p[12..16] == h[12..16] && p[16..20] == h[16..20];
  }

  /** RFC 8200 section 3: version 6, no class or flow, 64 hops. */
  lemma IPv6Layout(src: seq<byte>, dst: seq<byte>, nextHeader: byte, payload: seq<byte>)
    requires |src| == 16 && |dst| == 16
    ensures var p := IPv6Packet(src, dst, nextHeader, payload);
            && p[..4] == [0x60, 0, 0, 0] && p[6] == nextHeader && p[7] == 64
            && p[8..24] == src && p[24..40] == dst && p[40..] == payload
            && (256 * (p[4] as int) + p[5] as int == |payload| <==> |payload| < 0x1_0000)
  {
    Low16Fits(|payload|);
  }

  /** An IPv4 address comes through its 16-byte form unharmed, ten zero bytes and two of ff before it
      (RFC 4291 section 2.5.5.2), and no IPv6 address is taken for one. */
  lemma To4Of(ip: seq<byte>)
    ensures |ip| == 4 ==> To4(ip) == ip && |To16(ip)| == 16 && To4(To16(ip)) == ip
    ensures |ip| == 4 ==> (forall i :: 0 <= i < 10 ==> To16(ip)[i] == 0) && To16(ip)[10] == To16(ip)[11] == 0xff
    ensures |ip| == 16 ==> To16(ip) == ip && (To4(ip) != [] <==> exists v4 :: |v4| == 4 && To16(v4) == ip)
  {
    if |ip| == 4 {
      assert To16(ip)[12..] == ip;
    }
    if |ip| == 16 && To4(ip) != [] {
      assert ip == ip[..12] + ip[12..];
      assert To16(ip[12..]) == ip;
    }
  }

  lemma UDPRoundTrip(srcIP: seq<byte>, dstIP: seq<byte>, srcPort: word, dstPort: word, data: seq<byte>, isIPv6: bool)
    ensures ProcessUDP(UDPPacket(srcPort, dstPort, data), srcIP, dstIP, isIPv6) ==
            UDP(Datagram(srcIP, srcPort, dstIP, dstPort, data), isIPv6)
  {
    var p := UDPPacket(srcPort, dstPort, data);
    assert p[0] == srcPort / 256 && p[1] == srcPort % 256 && p[2] == dstPort / 256 && p[3] == dstPort % 256;
    assert p[8..] == data;
  }

  /** An IPv4 response is read back as what was sent, whatever its length, and its header verifies.
      Its total length field is right exactly when the packet is not too long for it. */
  lemma IPv4RoundTrip(srcIP: seq<byte>, dstIP: seq<byte>, srcPort: word, dstPort: word, data: seq<byte>)
    requires |srcIP| == 4 && |dstIP| == 4
    ensures var packet := IPv4Packet(srcIP, dstIP, PROTOCOL_UDP, UDPPacket(srcPort, dstPort, data));
            && ProcessPacket(packet) == UDP(Datagram(srcIP, srcPort, dstIP, dstPort, data), false)
            && packet[9] == 17 && Sum16(packet[..20]) == 0
            && (ReadU16(packet, 2) == |packet| <==> |packet| < 0x1_0000)
            && (ReadU16(packet, 24) == 8 + |data| <==> 8 + |data| < 0x1_0000)
  {
    var udp := UDPPacket(srcPort, dstPort, data);
    var packet := IPv4Packet(srcIP, dstIP, PROTOCOL_UDP, udp);
    UDPLayout(srcPort, dstPort, data);
    var totalLen := Low16(20 + |udp|);
    var h0 := IPv4Header(srcIP, dstIP, PROTOCOL_UDP, totalLen, 0);
    var h := IPv4Header(srcIP, dstIP, PROTOCOL_UDP, totalLen, Sum16(h0));
    HeaderVerifies(srcIP, dstIP, PROTOCOL_UDP, totalLen);
    HeaderFields(srcIP, dstIP, PROTOCOL_UDP, totalLen, Sum16(h0));
    UDPRoundTrip(srcIP, dstIP, srcPort, dstPort, data, false);
    ReadsBack(h, udp, packet);
    Low16Fits(20 + |udp|);
  }

  lemma Low16Fits(n: nat)
    ensures Low16(n) == n <==> n < 0x1_0000
  {
  }

  lemma HeaderVerifies(src: seq<byte>, dst: seq<byte>, protocol: byte, totalLen: word)
    requires |src| == 4 && |dst| == 4
    ensures Sum16(IPv4Header(src, dst, protocol, totalLen, Sum16(IPv4Header(src, dst, protocol, totalLen, 0)))) == 0
  {
    var h0 := IPv4Header(src, dst, protocol, totalLen, 0);
    HeaderChecksum(src, dst, protocol, totalLen, Sum16(h0));
    ChecksumVerifies(h0, 10);
  }

  // A packet of a header without options and its payload is read field by field.
  lemma ReadsBack(h: seq<byte>, udp: seq<byte>, packet: seq<byte>)
    requires packet == h + udp && |h| == 20 && |udp| >= 8 && h[0] == 0x45 && h[9] == PROTOCOL_UDP
    ensures packet[..20] == h && ReadU16(packet, 2) == ReadU16(h, 2) && ReadU16(packet, 24) == ReadU16(udp, 4)
    ensures ProcessPacket(packet) == ProcessUDP(udp, h[12..16], h[16..20], false)
  {
    assert packet[20..] == udp && packet[12..16] == h[12..16] && packet[16..20] == h[16..20];
  }

  lemma HeaderFields(src: seq<byte>, dst: seq<byte>, protocol: byte, totalLen: word, checksum: word)
    requires |src| == 4 && |dst| == 4
    ensures var h := IPv4Header(src, dst, protocol, totalLen, checksum);
            && h[0] == 0x45 && h[9] == protocol && h[12..16] == src && h[16..20] == dst
            && ReadU16(h, 2) == totalLen
  {
  }

  /** An IPv6 response is read back as what was sent exactly when its destination is no DNN address;
      otherwise it is taken for transport traffic to that address. */
  lemma IPv6RoundTrip(srcIP: seq<byte>, dstIP: seq<byte>, srcPort: word, dstPort: word, data: seq<byte>)
    requires |srcIP| == 16 && |dstIP| == 16
    ensures var packet := IPv6Packet(srcIP, dstIP, PROTOCOL_UDP, UDPPacket(srcPort, dstPort, data));
            && ProcessPacket(packet) == (if IsDNNAddress(dstIP) then Transport(dstIP)
                                         else UDP(Datagram(srcIP, srcPort, dstIP, dstPort, data), true))
            && packet[6] == 17
            && (ReadU16(packet, 4) == 8 + |data| <==> 8 + |data| < 0x1_0000)
            && (ReadU16(packet, 44) == 8 + |data| <==> 8 + |data| < 0x1_0000)
  {
    UDPLayout(srcPort, dstPort, data);
    var udp := UDPPacket(srcPort, dstPort, data);
    var packet := IPv6Packet(srcIP, dstIP, PROTOCOL_UDP, udp);
    assert packet[0] == 0x60 && packet[6] == PROTOCOL_UDP && packet[24] == dstIP[0];
    assert packet[4] == Low16(|udp|) / 256 && packet[5] == Low16(|udp|) % 256;
    assert packet[8..24] == srcIP && packet[24..40] == dstIP && packet[40..] == udp;
    assert packet[44] == udp[4] && packet[45] == udp[5];
    UDPRoundTrip(srcIP, dstIP, srcPort, dstPort, data, true);
  }

  /** Every packet to an address the cache hands out reaches the transport branch under that address. */
  lemma HandedOutIsTransport(sha256: Hash, name: string, srcIP: seq<byte>, nextHeader: byte, payload: seq<byte>)
    requires |srcIP| == 16
    ensures ProcessPacket(IPv6Packet(srcIP, NpubToIPv6(sha256, name), nextHeader, payload)) ==
            Transport(NpubToIPv6(sha256, name))
  {
    var dst := NpubToIPv6(sha256, name);
    var packet := IPv6Packet(srcIP, dst, nextHeader, payload);
    assert packet[0] == 0x60 && packet[24] == dst[0];
    assert packet[24..40] == dst;
  }

  /** A response never comes back as a query, except to a client that asked from port 53; an IPv6
      client at a DNN address gets it as transport traffic even then. */
  lemma ResponseIsNoQuery(srcIP: seq<byte>, dstIP: seq<byte>, dstPort: word, data: seq<byte>, isIPv6: bool)
    requires |srcIP| == |dstIP| == if isIPv6 then 16 else 4
    ensures var udp := UDPPacket(53, dstPort, data);
            var packet := if isIPv6 then IPv6Packet(srcIP, dstIP, PROTOCOL_UDP, udp)
                          else IPv4Packet(srcIP, dstIP, PROTOCOL_UDP, udp);
            IsDNSQuery(ProcessPacket(packet)) <==> dstPort == 53 && !(isIPv6 && IsDNNAddress(dstIP))
  {
    if isIPv6 {
      IPv6RoundTrip(srcIP, dstIP, 53, dstPort, data);
    } else {
      IPv4RoundTrip(srcIP, dstIP, 53, dstPort, data);
    }
  }

  // ------------------------------------------------------------ the capture on Windows

  // The query the capture handler takes out of a packet; the rest is passed on.
  function Captured(packet: seq<byte>): Option<Datagram> {
    if |packet| < 20 || packet[0] / 16 != 4 then None
    else
      var ihl: nat := (packet[0] % 16) * 4;
      if |packet| < ihl + 8 || packet[9] != PROTOCOL_UDP then None
      else
        var udp := packet[ihl..];
        if ReadU16(udp, 2) != 53 then None
        else Some(Datagram(packet[12..16], ReadU16(udp, 0), packet[16..20], ReadU16(udp, 2), udp[8..]))
  }

  /** Over IPv4 the capture handler takes exactly what the stack would take for a query. */
  lemma CapturedIffQuery(packet: seq<byte>, d: Datagram)
    ensures Captured(packet) == Some(d) <==> ProcessPacket(packet) == UDP(d, false) && d.dstPort == 53
    ensures Captured(packet).Some? ==> packet[9] == 17 && packet[0] / 16 == 4
  {
  }

  function HeaderLength(packet: seq<byte>): nat
    requires packet != []
  {
    (packet[0] % 16) * 4
  }

  // The original header, options included, with new addresses and length and no checksum.
  function PatchedHeader(header: seq<byte>, srcIP: seq<byte>, dstIP: seq<byte>, totalLen: word): (h: seq<byte>)
    requires |srcIP| == 4 && |dstIP| == 4
    ensures |h| == |header|
  {
    seq(|header|, i requires 0 <= i < |header| =>
      if i == 2 then totalLen / 256
      else if i == 3 then totalLen % 256
      else if 10 <= i < 12 then 0
      else if 12 <= i < 16 then srcIP[i - 12]
      else if 16 <= i < 20 then dstIP[i - 16]
      else header[i])
  }

  // The UDP packet follows the header, over the addresses where the header is too short for them.
  function ResponsePacket(header: seq<byte>, srcIP: seq<byte>, dstIP: seq<byte>, srcPort: word, dstPort: word,
                          dnsData: seq<byte>): seq<byte>
    requires |srcIP| == 4 && |dstIP| == 4
  {
    PatchedHeader(header, srcIP, dstIP, Low16(|header| + 8 + |dnsData|)) + UDPPacket(srcPort, dstPort, dnsData)
  }

  method BuildResponsePacket(orig: seq<byte>, ihl: nat, srcIP: seq<byte>, dstIP: seq<byte>, srcPort: word,
                             dstPort: word, dnsData: seq<byte>)
    returns (packet: array<byte>)
    requires ihl <= |orig| && 20 <= ihl + 8 + |dnsData| && |To4(srcIP)| == 4 && |To4(dstIP)| == 4
    ensures fresh(packet)
            && packet[..] == ResponsePacket(orig[..ihl], To4(srcIP), To4(dstIP), srcPort, dstPort, dnsData)
  {
    var udpLen := 8 + |dnsData|;
    var totalLen := ihl + udpLen;
    packet := new byte[totalLen](i => 0);
    PatchHeader(packet, orig[..ihl], To4(srcIP), To4(dstIP));
    WriteUDP(packet, ihl, srcPort, dstPort, dnsData);
    assert packet[..] == packet[..ihl] + packet[ihl..];
  }

  // The original header with the fields changed; where it is short they are written behind it.
  method PatchHeader(packet: array<byte>, header: seq<byte>, srcIP: seq<byte>, dstIP: seq<byte>)
    requires packet.Length >= 20 && |header| <= packet.Length && |srcIP| == 4 && |dstIP| == 4
    modifies packet
    ensures packet[..|header|] == PatchedHeader(header, srcIP, dstIP, Low16(packet.Length))
  {
    CopyAt(packet, 0, header);
    CopyAt(packet, 12, srcIP);
    CopyAt(packet, 16, dstIP);
    PutUint16(packet, 2, Low16(packet.Length));
    packet[10] := 0;
    packet[11] := 0;
    ghost var h := PatchedHeader(header, srcIP, dstIP, Low16(packet.Length));
    assert forall i :: 0 <= i < |header| ==> packet[i] == h[i];
  }

  // The UDP header and its data, to the end of the packet.
  method WriteUDP(packet: array<byte>, at: nat, srcPort: word, dstPort: word, data: seq<byte>)
    requires packet.Length == at + 8 + |data|
    modifies packet
    ensures packet[at..] == UDPPacket(srcPort, dstPort, data)
    ensures forall i :: 0 <= i < at ==> packet[i] == old(packet[i])
  {
    PutUint16(packet, at, srcPort);
    PutUint16(packet, at + 2, dstPort);
    PutUint16(packet, at + 4, Low16(8 + |data|));
    PutUint16(packet, at + 6, 0);
    CopyAt(packet, at + 8, data);
    ghost var udp := UDPPacket(srcPort, dstPort, data);
    assert forall i :: 0 <= i < |udp| ==> packet[at + i] == udp[i];
  }

  /** The response to a captured query, read back, goes from where the query was sent to where it
      came from and carries the answer; nothing else of its header has changed. */
  lemma ResponseRoundTrip(orig: seq<byte>, dnsData: seq<byte>)
    requires Captured(orig).Some? && HeaderLength(orig) >= 20
    ensures var q := Captured(orig).value;
            var ihl := HeaderLength(orig);
            var packet := ResponsePacket(orig[..ihl], q.dstIP, q.srcIP, q.dstPort, q.srcPort, dnsData);
            && ProcessPacket(packet) == UDP(Datagram(q.dstIP, 53, q.srcIP, q.srcPort, dnsData), false)
            && (forall i :: 0 <= i < ihl && !(2 <= i < 4) && !(10 <= i < 20) ==> packet[i] == orig[i])
            && packet[10] == 0 && packet[11] == 0
            && (ReadU16(packet, 2) == |packet| <==> |packet| < 0x1_0000)
            && (ReadU16(packet, ihl + 4) == 8 + |dnsData| <==> 8 + |dnsData| < 0x1_0000)
  {
    UDPLayout(Captured(orig).value.dstPort, Captured(orig).value.srcPort, dnsData);
    Low16Fits(HeaderLength(orig) + 8 + |dnsData|);
    var q := Captured(orig).value;
    var ihl := HeaderLength(orig);
    var udp := UDPPacket(q.dstPort, q.srcPort, dnsData);
    var packet := ResponsePacket(orig[..ihl], q.dstIP, q.srcIP, q.dstPort, q.srcPort, dnsData);
    assert packet[ihl..] == udp;
    assert packet[12..16] == q.dstIP && packet[16..20] == q.srcIP;
    UDPRoundTrip(q.dstIP, q.srcIP, q.dstPort, q.srcPort, dnsData, false);
  }

  /** With a header length of 16 the client's address is lost: its place is taken by the ports. */
  lemma ShortHeaderLosesAddress(orig: seq<byte>, dnsData: seq<byte>)
    requires Captured(orig).Some? && HeaderLength(orig) == 16
    ensures var q := Captured(orig).value;
            var r := ProcessPacket(ResponsePacket(orig[..16], q.dstIP, q.srcIP, q.dstPort, q.srcPort, dnsData));
            r.UDP? && r.datagram.dstIP == U16(53) + U16(q.srcPort) && r.datagram.data == dnsData
  {
    var q := Captured(orig).value;
    var udp := UDPPacket(q.dstPort, q.srcPort, dnsData);
    var packet := ResponsePacket(orig[..16], q.dstIP, q.srcIP, q.dstPort, q.srcPort, dnsData);
    assert packet[16..] == udp;
    assert packet[16..20] == udp[..4];
    UDPRoundTrip(packet[12..16], packet[16..20], q.dstPort, q.srcPort, dnsData, false);
  }
}
