/** UDP over IPv4 over Ethernet: what the three send functions put on the wire and what the three
    handlers make of it. */
module Packets {
  import opened Machine
  import opened Checksum
  import Strings

  // ----- headers as they lie in memory; 16-bit fields hold their stored (native) value -----

  datatype UdpHeader = UdpHeader(srcPort: u16, dstPort: u16, size: u16, checksum: u16) {
    function Bytes(): (b: seq<u8>)
      ensures |b| == 8
    {
      Bytes16(srcPort) + Bytes16(dstPort) + Bytes16(size) + Bytes16(checksum)
    }
  }

  type Ip = b: seq<u8> | |b| == 4 witness [0, 0, 0, 0]
  type Mac = b: seq<u8> | |b| == 6 witness [0, 0, 0, 0, 0, 0]

  datatype Pseudoheader = Pseudoheader(srcIp: Ip, dstIp: Ip, zeros: u8, protocol: u8, length: u16) {
    function Bytes(): (b: seq<u8>)
      ensures |b| == 12
    {
      srcIp + dstIp + [zeros, protocol] + Bytes16(length)
    }
  }

  type u4 = x: int | 0 <= x < 16

  /** diff_serv and ecn, never set here, share the byte service. */
  datatype Ipv4Header = Ipv4Header(
      headerSize: u4, version: u4, service: u8, totalLength: u16, id: u16, fragmentFlags: u16,
      ttl: u8, protocol: u8, headerChecksum: u16, srcIp: Ip, dstIp: Ip) {
    function Bytes(): (b: seq<u8>)
      ensures |b| == 20
    {
      [headerSize + 16 * version, service] + Bytes16(totalLength) + Bytes16(id) + Bytes16(fragmentFlags)
      + [ttl, protocol] + Bytes16(headerChecksum) + srcIp + dstIp
    }
  }

  datatype EthernetHeader = EthernetHeader(dstMac: Mac, srcMac: Mac, etherType: u16) {
    function Bytes(): (b: seq<u8>)
      ensures |b| == 14
    {
      dstMac + srcMac + Bytes16(etherType)
    }
  }

  const BLANK_IP_HEADER: Ipv4Header := Ipv4Header(0, 0, 0, 0, 0, 0, 0, 0, 0, [0, 0, 0, 0], [0, 0, 0, 0])

  /** A 16-bit store keeps the low half of a 32-bit value. */
  function Low16(x: nat): u16 {
    x % 0x1_0000
  }

  // ----- the checksum functions -----

  function OddByte(data: seq<u8>): nat {
    if |data| % 2 == 1 then 0x100 * (data[|data| - 1] as int) else 0
  }

  /** What the UDP loop adds up: whole words, then an odd last byte as the HIGH byte of a word. */
  function UdpSum(pseudo: seq<u8>, header: seq<u8>, data: seq<u8>): nat {
    SumLittle(pseudo) + SumLittle(header) + SumLittle(data) + OddByte(data)
  }

  /** One of the three summing loops: fold the words of the first 2 * words bytes into a checksum. */
  method AddWords(c0: u16, data: array<u8>, words: nat, ghost s: nat) returns (c: u16)
    requires 2 * words <= data.Length && c0 == Fold(s)
    ensures c == Fold(s + SumLittle(data[..2 * words]))
  {
    hide Fold, AddFold, LittleWord;
    c := c0;
    var i := 0;
    assert data[..0] == [];
    while i < words
      invariant 0 <= i <= words
      invariant c == Fold(s + SumLittle(data[..2 * i]))
    {
      var w := LittleWord(data[2 * i], data[2 * i + 1]);
      AddFoldStep(s + SumLittle(data[..2 * i]), w);
      NextWord(data[..], i);
      assert data[..][..2 * i] == data[..2 * i] && data[..][..2 * i + 2] == data[..2 * (i + 1)];
      c := AddFold(c, w);
      i := i + 1;
    }
  }

  lemma {:induction false} EvenPart(b: seq<u8>)
    ensures SumLittle(b[..2 * (|b| / 2)]) == SumLittle(b)
  {
    if |b| >= 2 {
      EvenPart(b[2..]);
      assert b[..2 * (|b| / 2)][2..] == b[2..][..2 * (|b[2..]| / 2)];
    }
  }

  method ToArray(b: seq<u8>) returns (a: array<u8>)
    ensures fresh(a) && a[..] == b
  {
    a := new u8[|b|](i requires 0 <= i < |b| => b[i]);
  }

  method UdpChecksum(pseudo: Pseudoheader, header: UdpHeader, data: array<u8>, size: nat) returns (r: u16)
    requires size <= data.Length
    ensures r == 0xffff - Fold(UdpSum(pseudo.Bytes(), header.Bytes(), data[..size]))
  {
    hide Fold, AddFold, SumLittle, Bytes16;
    var p := ToArray(pseudo.Bytes());
    var h := ToArray(header.Bytes());
    assert p[..12] == pseudo.Bytes() && h[..8] == header.Bytes();
    FoldSmall(0);
    ghost var s1 := SumLittle(pseudo.Bytes());
    ghost var s2 := s1 + SumLittle(header.Bytes());
    var c := AddWords(0, p, 6, 0);
    c := AddWords(c, h, 4, s1);
    c := AddWords(c, data, size / 2, s2);
    EvenPart(data[..size]);
    assert data[..size][..2 * (size / 2)] == data[..2 * (size / 2)];
    if size % 2 == 1 {
      var last := 0x100 * (data[size - 1] as int);
      AddFoldStep(s2 + SumLittle(data[..size]), last);
      c := AddFold(c, last);
    }
    r := 0xffff - c;
  }

  /** The carries of the whole sum are folded back until none is left. */
  method FoldDeferred(total: nat) returns (r: u16)
    ensures r == Fold(total)
  {
    hide Fold;
    var sum := total;
    while sum / 0x1_0000 != 0
      invariant 0 <= sum && Fold(sum) == Fold(total)
      decreases sum
    {
      DeferredStep(sum);
      sum := sum % 0x1_0000 + sum / 0x1_0000;
    }
    FoldSmall(sum);
    r := sum;
  }

  method IpChecksum(header: Ipv4Header) returns (r: u16)
    ensures r == 0xffff - Fold(SumBig(header.Bytes()))
  {
    hide Fold, Swap, LittleWord, Bytes16;
    var words := ToArray(header.Bytes());
    ghost var b := header.Bytes();
    var sum: nat, i := 0, 0;
    assert b[..0] == [];
    while i < 10
      invariant 0 <= i <= 10 && words[..] == b
      invariant sum == SumBig(b[..2 * i])
    {
      NextWord(b, i);
      sum := sum + Swap(LittleWord(words[2 * i], words[2 * i + 1]));
      i := i + 1;
    }
    assert b[..20] == b;
    r := FoldDeferred(sum);
    r := 0xffff - r;
  }

  // ----- what goes on the wire -----

  const ROUTER_MAC: Mac := [0xff, 0xff, 0xff, 0xff, 0xff, 0xff]

  /** The fields send_packet fills in; the checksum is taken over whatever the checksum field held. */
  function FilledHeader(h: Ipv4Header, src: Ip, size: nat): Ipv4Header {
    h.(srcIp := src, id := 0x2626, headerSize := 5, fragmentFlags := Swap(0x4000), version := 4, ttl := 128,
       totalLength := Swap(Low16(20 + size)))
  }

  function FinalHeader(h: Ipv4Header, src: Ip, size: nat): Ipv4Header {
    var filled := FilledHeader(h, src, size);
    filled.(headerChecksum := Swap(0xffff - Fold(SumBig(filled.Bytes()))))
  }

  function EthernetFrame(mac: Mac, packet: seq<u8>): seq<u8> {
    EthernetHeader(ROUTER_MAC, mac, Swap(0x0800)).Bytes() + packet
  }

  function IpPacket(h: Ipv4Header, src: Ip, payload: seq<u8>): seq<u8> {
    FinalHeader(h, src, |payload|).Bytes() + payload
  }

  function PseudoFor(src: Ip, dst: Ip, size: nat): Pseudoheader {
    Pseudoheader(src, dst, 0, 0x11, Swap(Low16(size + 8)))
  }

  function UdpDatagram(src: Ip, dst: Ip, h: UdpHeader, payload: seq<u8>): seq<u8> {
    var sum := UdpSum(PseudoFor(src, dst, |payload|).Bytes(), h.Bytes(), payload);
    h.(checksum := 0xffff - Fold(sum)).Bytes() + payload
  }

  function SocketHeader(srcPort: u16, dstPort: u16, size: nat): UdpHeader {
    UdpHeader(Swap(srcPort), Swap(dstPort), Swap(Low16(size + 8)), 0)
  }

  /** The frame that one sendto hands to the adapter. */
  function SentFrame(mac: Mac, src: Ip, srcPort: u16, dst: Ip, dstPort: u16, payload: seq<u8>): seq<u8> {
    EthernetFrame(mac, IpPacket(BLANK_IP_HEADER.(dstIp := dst, protocol := 0x11), src,
                                UdpDatagram(src, dst, SocketHeader(srcPort, dstPort, |payload|), payload)))
  }

  // ----- the stack -----

  datatype Adapter = NoAdapter | Adapter(mac: Mac)

  class UdpSocket {
    const port: u16
    var ip: Ip
    var gotPacket: bool
    var recvBuffer: array?<u8>
    var recvOffset: nat

    constructor (port: u16, ip: Ip)
      ensures this.port == port && this.ip == ip && !gotPacket
    {
      this.port, this.ip, gotPacket, recvBuffer, recvOffset := port, ip, false, null, 0;
    }
  }

  datatype Target = Nobody | Port(port: u16)

  /** The fields the handlers look at lie in the buffer: the type, the protocol of an IPv4 frame, and the
      ports of a UDP datagram. No handler looks at a length. */
  predicate Readable(frame: seq<u8>) {
    && |frame| >= 14
    && (Swap(LittleWord(frame[12], frame[13])) == 0x0800 ==> |frame| >= 24 && (frame[23] == 0x11 ==> |frame| >= 38))
  }

  /** Which port a received frame is for. */
  function Destination(frame: seq<u8>): Target
    requires Readable(frame)
  {
    if Swap(LittleWord(frame[12], frame[13])) == 0x0800 && frame[23] == 0x11
    then Port(Swap(LittleWord(frame[36], frame[37]))) else Nobody
  }

  class NetStack {
    var ipAddr: Ip
    const adapter: Adapter
    const sockets: array<UdpSocket?>
    /** The frames handed to the adapter so far. */
    var wire: seq<seq<u8>>

    ghost predicate Valid()
      reads this, sockets
    {
      && sockets.Length == 0x1_0000
      && forall p :: 0 <= p < 0x1_0000 && sockets[p] != null ==> sockets[p].port == p
    }

    /** udp::init on the zeroed address, with the adapter the device list found. */
    constructor (adapter: Adapter)
      ensures Valid() && fresh(sockets) && wire == [] && ipAddr == [0, 0, 0, 0]
      ensures forall p :: 0 <= p < 0x1_0000 ==> sockets[p] == null
    {
      this.adapter, ipAddr, wire := adapter, [0, 0, 0, 0], [];
      sockets := new UdpSocket?[0x1_0000](_ => null);
    }

    method OpenSocket(port: u16) returns (s: UdpSocket)
      requires Valid()
      modifies sockets
      ensures Valid() && fresh(s) && s.port == port && s.ip == ipAddr && !s.gotPacket
      ensures sockets[..] == old(sockets[..])[port := s]
    {
      s := new UdpSocket(port, ipAddr);
      sockets[port] := s;
    }

    method CloseSocket(s: UdpSocket)
      requires Valid()
      modifies sockets
      ensures Valid() && sockets[..] == old(sockets[..])[s.port := null]
    {
      sockets[s.port] := null;
    }

    // ----- sending -----

    /** A fresh buffer holding a header followed by size bytes of payload. */
    method Concatenate(header: seq<u8>, payload: array<u8>, size: nat) returns (buffer: array<u8>)
      requires size <= payload.Length
      ensures fresh(buffer) && buffer[..] == header + payload[..size]
    {
      buffer := new u8[|header| + size](_ => 0);
      var h := ToArray(header);
      Strings.Memcpy(buffer, 0, h, 0, |header|);
      Strings.Memcpy(buffer, |header|, payload, 0, size);
      assert buffer[..|header|] == header;
      assert buffer[|header|..] == payload[..size];
      assert buffer[..] == buffer[..|header|] + buffer[|header|..];
    }

    method EthernetSend(etherType: u16, payload: array<u8>, size: nat)
      requires size <= payload.Length
      modifies `wire
      ensures wire == old(wire) +
        if adapter.NoAdapter? then []
        else [EthernetHeader(ROUTER_MAC, adapter.mac, etherType).Bytes() + payload[..size]]
    {
      if adapter.NoAdapter? {
        return;
      }
      var frame := Concatenate(EthernetHeader(ROUTER_MAC, adapter.mac, etherType).Bytes(), payload, size);
      wire := wire + [frame[..]];
    }

    method IpSend(h: Ipv4Header, payload: array<u8>, size: nat)
      requires size <= payload.Length
      modifies `wire
      ensures wire == old(wire) +
        if adapter.NoAdapter? then [] else [EthernetFrame(adapter.mac, IpPacket(h, ipAddr, payload[..size]))]
    {
      var header := h.(srcIp := ipAddr, id := 0x2626, headerSize := 5, fragmentFlags := Swap(0x4000),
                       version := 4, ttl := 128,
                       totalLength := Swap(Low16(20 + size)));
      var checksum := IpChecksum(header);
      header := header.(headerChecksum := Swap(checksum));
      var packet := Concatenate(header.Bytes(), payload, size);
      assert packet[..packet.Length] == packet[..];
      EthernetSend(Swap(0x0800), packet, packet.Length);
    }

    method UdpSend(ip: Ip, h: UdpHeader, buffer: array<u8>, size: nat)
      requires size <= buffer.Length
      modifies `wire
      ensures wire == old(wire) +
        if adapter.NoAdapter? then []
        else [EthernetFrame(adapter.mac, IpPacket(BLANK_IP_HEADER.(dstIp := ip, protocol := 0x11), ipAddr,
                                                  UdpDatagram(ipAddr, ip, h, buffer[..size])))]
    {
      var ipHeader := BLANK_IP_HEADER.(dstIp := ip, protocol := 0x11);
      var pseudo := Pseudoheader(ipAddr, ip, 0, 0x11, Swap(Low16(size + 8)));
      var checksum := UdpChecksum(pseudo, h, buffer, size);
      var packet := Concatenate(h.(checksum := checksum).Bytes(), buffer, size);
      assert packet[..packet.Length] == packet[..];
      IpSend(ipHeader, packet, packet.Length);
    }

    method SendTo(s: UdpSocket, ip: Ip, port: u16, buffer: array<u8>, size: nat)
      requires size <= buffer.Length
      modifies `wire
      ensures wire == old(wire) +
        if adapter.NoAdapter? then [] else [SentFrame(adapter.mac, ipAddr, s.port, ip, port, buffer[..size])]
    {
      var header := UdpHeader(Swap(s.port), Swap(port), Swap(Low16(size + 8)), 0);
      UdpSend(ip, header, buffer, size);
    }

    // ----- receiving -----

    method HandleUdp(buffer: array<u8>, at: nat)
      requires Valid() && at + 4 <= buffer.Length
      modifies set p | 0 <= p < sockets.Length && sockets[p] != null :: sockets[p]
      ensures Valid()
      ensures forall p :: 0 <= p < 0x1_0000 && sockets[p] != null ==>
        if Swap(LittleWord(buffer[at + 2], buffer[at + 3])) == p
        then sockets[p].gotPacket && sockets[p].recvBuffer == buffer && sockets[p].recvOffset == at + 8
        else unchanged(sockets[p])
    {
      var port := Swap(LittleWord(buffer[at + 2], buffer[at + 3]));
      var s := sockets[port];
      if s == null {
        return;
      }
      s.gotPacket := true;
      s.recvBuffer := buffer;
      s.recvOffset := at + 8;
    }

    method HandleIp(buffer: array<u8>, at: nat)
      requires Valid() && at + 10 <= buffer.Length && (buffer[at + 9] == 0x11 ==> at + 24 <= buffer.Length)
      modifies set p | 0 <= p < sockets.Length && sockets[p] != null :: sockets[p]
      ensures Valid()
      ensures forall p :: 0 <= p < 0x1_0000 && sockets[p] != null ==>
        if buffer[at + 9] == 0x11 && Swap(LittleWord(buffer[at + 22], buffer[at + 23])) == p
        then sockets[p].gotPacket && sockets[p].recvBuffer == buffer && sockets[p].recvOffset == at + 28
        else unchanged(sockets[p])
    {
      if buffer[at + 9] == 0x11 {
        HandleUdp(buffer, at + 20);
      }
    }

    /** Ethernet, IP and UDP handlers in turn; ARP is not part of this model. */
    method HandleFrame(frame: array<u8>)
      requires Valid() && Readable(frame[..])
      modifies set p | 0 <= p < sockets.Length && sockets[p] != null :: sockets[p]
      ensures Valid()
      ensures forall p :: 0 <= p < 0x1_0000 && sockets[p] != null ==>
        if Destination(frame[..]) == Port(p)
        then sockets[p].gotPacket && sockets[p].recvBuffer == frame && sockets[p].recvOffset == 42
        else unchanged(sockets[p])
    {
      if Swap(LittleWord(frame[12], frame[13])) == 0x0800 {
        HandleIp(frame, 14);
      }
    }
  }
}
