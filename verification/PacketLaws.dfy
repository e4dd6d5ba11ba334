/** What is sent arrives and verifies. */
module PacketLaws {
  import opened Machine
  import opened Checksum
  import opened Packets
  import Dhcp
  import HeapBlocks

  lemma StoredWord(v: u16)
    ensures LittleWord(Bytes16(v)[0], Bytes16(v)[1]) == v
    ensures SumLittle(Bytes16(v)) == v && SumBig(Bytes16(v)) == Swap(v)
  {
    assert Bytes16(v)[2..] == [];
  }

  /** Where the fields of a sent frame lie. */
  lemma FrameLayout(mac: Mac, src: Ip, srcPort: u16, dst: Ip, dstPort: u16, payload: seq<u8>)
    ensures var frame := SentFrame(mac, src, srcPort, dst, dstPort, payload);
      var ip := FinalHeader(BLANK_IP_HEADER.(dstIp := dst, protocol := 0x11), src, |payload| + 8);
      && |frame| == 42 + |payload|
      && frame[12..14] == Bytes16(Swap(0x0800))
      && frame[14..34] == ip.Bytes()
      && frame[34..] == UdpDatagram(src, dst, SocketHeader(srcPort, dstPort, |payload|), payload)
      && frame[42..] == payload
  {
    hide Fold, Bytes16, Swap;
    var d := UdpDatagram(src, dst, SocketHeader(srcPort, dstPort, |payload|), payload);
    var packet := IpPacket(BLANK_IP_HEADER.(dstIp := dst, protocol := 0x11), src, d);
    var frame := EthernetFrame(mac, packet);
    assert frame[14..] == packet;
    assert packet[20..] == d && d[8..] == payload;
    assert frame[34..] == packet[20..];
    assert frame[42..] == d[8..];
  }

  lemma Ipv4Fields(h: Ipv4Header)
    ensures h.Bytes()[9] == h.protocol && h.Bytes()[2..4] == Bytes16(h.totalLength)
  {
    hide Bytes16;
  }

  lemma UdpFields(h: UdpHeader, payload: seq<u8>)
    ensures (h.Bytes() + payload)[2..4] == Bytes16(h.dstPort) && (h.Bytes() + payload)[4..6] == Bytes16(h.size)
  {
    hide Bytes16;
  }

  /** The fields the handlers look at, and the two lengths, read back from a sent frame. */
  lemma FrameFields(mac: Mac, src: Ip, srcPort: u16, dst: Ip, dstPort: u16, payload: seq<u8>)
    ensures var frame := SentFrame(mac, src, srcPort, dst, dstPort, payload);
      && |frame| == 42 + |payload|
      && frame[12..14] == Bytes16(Swap(0x0800))
      && frame[23] == 0x11
      && frame[16..18] == Bytes16(Swap(Low16(20 + (|payload| + 8))))
      && frame[36..38] == Bytes16(Swap(dstPort))
      && frame[38..40] == Bytes16(Swap(Low16(|payload| + 8)))
  {
    hide Fold, Bytes16, Swap, SumBig, UdpSum, Low16;
    FrameLayout(mac, src, srcPort, dst, dstPort, payload);
    var frame := SentFrame(mac, src, srcPort, dst, dstPort, payload);
    var ip := FinalHeader(BLANK_IP_HEADER.(dstIp := dst, protocol := 0x11), src, |payload| + 8);
    var h := SocketHeader(srcPort, dstPort, |payload|);
    Ipv4Fields(ip);
    var sum := UdpSum(PseudoFor(src, dst, |payload|).Bytes(), h.Bytes(), payload);
    UdpFields(h.(checksum := 0xffff - Fold(sum)), payload);
    hide SentFrame, FinalHeader, UdpDatagram;
    assert frame[23] == frame[14..34][9];
    assert frame[16..18] == frame[14..34][2..4];
    assert frame[36..38] == frame[34..][2..4];
    assert frame[38..40] == frame[34..][4..6];
  }

  /** A word stored in network order reads back in network order. */
  lemma NetworkWord(b: seq<u8>, i: nat, v: u16)
    requires i + 2 <= |b| && b[i..i + 2] == Bytes16(Swap(v))
    ensures Swap(LittleWord(b[i], b[i + 1])) == v && 0x100 * (b[i] as int) + b[i + 1] as int == v
  {
    assert b[i] == b[i..i + 2][0] && b[i + 1] == b[i..i + 2][1];
    StoredWord(Swap(v));
    SwapTwice(v);
  }

  /** The frame of one sendto reaches exactly the socket of the destination port, with the payload at
      byte 42. */
  lemma SentArrives(mac: Mac, src: Ip, srcPort: u16, dst: Ip, dstPort: u16, payload: seq<u8>)
    ensures var frame := SentFrame(mac, src, srcPort, dst, dstPort, payload);
      && |frame| == 42 + |payload| && Readable(frame)
      && Destination(frame) == Port(dstPort)
      && frame[42..42 + |payload|] == payload
  {
    hide Fold, Bytes16, Swap, LittleWord, SentFrame, Low16;
    FrameLayout(mac, src, srcPort, dst, dstPort, payload);
    FrameFields(mac, src, srcPort, dst, dstPort, payload);
    var frame := SentFrame(mac, src, srcPort, dst, dstPort, payload);
    assert frame[42..42 + |payload|] == frame[42..];
    NetworkWord(frame, 12, 0x0800);
    NetworkWord(frame, 36, dstPort);
  }

  /** A datagram sent by one stack and handed to another: the receiver's socket for the destination port,
      if there is one, finds the payload behind its buffer offset, and every other socket is unchanged. */
  method SendAndReceive(sender: NetStack, s: UdpSocket, receiver: NetStack, ip: Ip, port: u16,
                        buffer: array<u8>, size: nat)
    returns (frame: array<u8>)
    requires size <= buffer.Length && sender.adapter.Adapter? && receiver.Valid()
    modifies sender`wire
    modifies set p | 0 <= p < receiver.sockets.Length && receiver.sockets[p] != null :: receiver.sockets[p]
    ensures receiver.Valid() && frame.Length == 42 + size
    ensures receiver.sockets[port] != null ==>
      && receiver.sockets[port].gotPacket && receiver.sockets[port].recvBuffer == frame
      && receiver.sockets[port].recvOffset == 42 && frame[42..42 + size] == old(buffer[..size])
    ensures forall p :: 0 <= p < 0x1_0000 && p != port && receiver.sockets[p] != null ==> unchanged(receiver.sockets[p])
  {
    hide SentFrame, Destination, Readable;
    ghost var payload := buffer[..size];
    sender.SendTo(s, ip, port, buffer, size);
    var sent := sender.wire[|sender.wire| - 1];
    SentArrives(sender.adapter.mac, sender.ipAddr, s.port, ip, port, payload);
    frame := ToArray(sent);
    assert frame[..] == sent;
    receiver.HandleFrame(frame);
    assert frame[42..42 + size] == frame[..][42..42 + size];
  }

  // ----- every byte of a sent frame -----

  /** A word stored with htons lies in memory high byte first. */
  lemma NetworkBytes(v: u16)
    ensures Bytes16(Swap(v)) == [v / 0x100, v % 0x100]
  {
    assert Swap(v) % 0x100 == v / 0x100 && Swap(v) / 0x100 == v % 0x100;
  }

  lemma EthernetBytes(mac: Mac, packet: seq<u8>)
    ensures var f := EthernetFrame(mac, packet);
      && |f| == 14 + |packet|
      && f[0..6] == [0xff, 0xff, 0xff, 0xff, 0xff, 0xff] && f[6..12] == mac && f[12..14] == [0x08, 0x00]
      && f[14..] == packet
  {
    hide Bytes16, Swap;
    NetworkBytes(0x0800);
    assert 0x0800 / 0x100 == 0x08 && 0x0800 % 0x100 == 0x00;
  }

  lemma Ipv4Bytes(h: Ipv4Header)
    ensures var b := h.Bytes();
      && |b| == 20 && b[0] == h.headerSize + 16 * h.version && b[1] == h.service && b[2..4] == Bytes16(h.totalLength)
      && b[4..6] == Bytes16(h.id) && b[6..8] == Bytes16(h.fragmentFlags) && b[8] == h.ttl && b[9] == h.protocol
      && b[12..16] == h.srcIp && b[16..20] == h.dstIp
  {
    hide Bytes16;
  }

  lemma StoredId()
    ensures Bytes16(0x2626) == [0x26, 0x26]
  {
    assert 0x2626 / 0x100 == 0x26 && 0x2626 % 0x100 == 0x26;
  }

  /** The packet made of a header passed down and a payload. */
  lemma IpPacketBytes(h: Ipv4Header, src: Ip, payload: seq<u8>)
    ensures var b, length := IpPacket(h, src, payload), (20 + |payload|) % 0x1_0000;
      && |b| == 20 + |payload| && b[0] == 0x45 && b[1] == h.service
      && b[2..4] == [length / 0x100, length % 0x100] && b[4..6] == [0x26, 0x26] && b[6..8] == [0x40, 0x00]
      && b[8] == 128 && b[9] == h.protocol && b[12..16] == src && b[16..20] == h.dstIp && b[20..] == payload
  {
    hide Bytes16, Swap, SumBig, Fold;
    var f := FinalHeader(h, src, |payload|);
    Ipv4Bytes(f);
    NetworkBytes(Low16(20 + |payload|));
    NetworkBytes(0x4000);
    StoredId();
    assert 0x4000 / 0x100 == 0x40 && 0x4000 % 0x100 == 0x00;
    var b, head := IpPacket(h, src, payload), f.Bytes();
    assert b == head + payload;
    assert b[2..4] == head[2..4] && b[4..6] == head[4..6] && b[6..8] == head[6..8];
    assert b[12..16] == head[12..16] && b[16..20] == head[16..20];
  }

  lemma UdpBytes(src: Ip, dst: Ip, srcPort: u16, dstPort: u16, payload: seq<u8>)
    ensures var d, length := UdpDatagram(src, dst, SocketHeader(srcPort, dstPort, |payload|), payload),
                             (8 + |payload|) % 0x1_0000;
      && |d| == 8 + |payload|
      && d[0..2] == [srcPort / 0x100, srcPort % 0x100] && d[2..4] == [dstPort / 0x100, dstPort % 0x100]
      && d[4..6] == [length / 0x100, length % 0x100] && d[8..] == payload
  {
    hide Bytes16, Swap, UdpSum, Fold;
    NetworkBytes(srcPort);
    NetworkBytes(dstPort);
    NetworkBytes(Low16(8 + |payload|));
  }

  /** A slice of what begins at offset o of a buffer. */
  lemma InPacket(f: seq<u8>, p: seq<u8>, o: nat, i: nat, j: nat)
    requires o <= |f| && f[o..] == p && i <= j <= |p|
    ensures f[o + i..o + j] == p[i..j]
  {
    var x, y := f[o + i..o + j], p[i..j];
    forall k | 0 <= k < j - i ensures x[k] == y[k] {
      assert x[k] == f[o..][i + k];
    }
  }

  /** Every byte of the frame one sendto puts on the wire, but the two checksums. */
  lemma FrameBytes(mac: Mac, src: Ip, srcPort: u16, dst: Ip, dstPort: u16, payload: seq<u8>)
    ensures var f := SentFrame(mac, src, srcPort, dst, dstPort, payload);
      var total, length := (28 + |payload|) % 0x1_0000, (8 + |payload|) % 0x1_0000;
      && |f| == 42 + |payload|
      && f[0..6] == [0xff, 0xff, 0xff, 0xff, 0xff, 0xff] && f[6..12] == mac && f[12..14] == [0x08, 0x00]
      && f[14] == 0x45 && f[15] == 0 && f[16..18] == [total / 0x100, total % 0x100]
      && f[18..20] == [0x26, 0x26] && f[20..22] == [0x40, 0x00] && f[22] == 128 && f[23] == 17
      && f[26..30] == src && f[30..34] == dst
      && f[34..36] == [srcPort / 0x100, srcPort % 0x100] && f[36..38] == [dstPort / 0x100, dstPort % 0x100]
      && f[38..40] == [length / 0x100, length % 0x100] && f[42..] == payload
  {
    hide UdpDatagram, SocketHeader, IpPacket, EthernetFrame;
    var d := UdpDatagram(src, dst, SocketHeader(srcPort, dstPort, |payload|), payload);
    var h := BLANK_IP_HEADER.(dstIp := dst, protocol := 0x11);
    var p := IpPacket(h, src, d);
    var f := EthernetFrame(mac, p);
    UdpBytes(src, dst, srcPort, dstPort, payload);
    IpPacketBytes(h, src, d);
    EthernetBytes(mac, p);
    InPacket(f, p, 14, 2, 4);
    InPacket(f, p, 14, 4, 6);
    InPacket(f, p, 14, 6, 8);
    InPacket(f, p, 14, 12, 16);
    InPacket(f, p, 14, 16, 20);
    InPacket(p, d, 20, 0, 2);
    InPacket(f, p, 14, 20, 22);
    InPacket(p, d, 20, 2, 4);
    InPacket(f, p, 14, 22, 24);
    InPacket(p, d, 20, 4, 6);
    InPacket(f, p, 14, 24, 26);
    InPacket(p, d, 20, 8, |d|);
    InPacket(f, p, 14, 28, |p|);
    assert f[14] == f[14..][0] && f[15] == f[14..][1] && f[22] == f[14..][8] && f[23] == f[14..][9];
  }

  /** The three buffers a send allocates are as long as the datagram, the packet and the frame. */
  lemma BufferSizes(mac: Mac, src: Ip, srcPort: u16, dst: Ip, dstPort: u16, payload: seq<u8>)
    ensures var d := UdpDatagram(src, dst, SocketHeader(srcPort, dstPort, |payload|), payload);
      var p := IpPacket(BLANK_IP_HEADER.(dstIp := dst, protocol := 0x11), src, d);
      HeapBlocks.SendSizes(|payload|) == [|d|, |p|, |EthernetFrame(mac, p)|]
  {
    hide UdpDatagram, IpPacket, EthernetFrame;
    var d := UdpDatagram(src, dst, SocketHeader(srcPort, dstPort, |payload|), payload);
    var h := BLANK_IP_HEADER.(dstIp := dst, protocol := 0x11);
    UdpBytes(src, dst, srcPort, dstPort, payload);
    IpPacketBytes(h, src, d);
    EthernetBytes(mac, IpPacket(h, src, d));
  }

  lemma PseudoBytes(src: Ip, dst: Ip, size: nat)
    ensures var length := (8 + size) % 0x1_0000;
      PseudoFor(src, dst, size).Bytes() == src + dst + [0, 17] + [length / 0x100, length % 0x100]
  {
    hide Bytes16, Swap;
    NetworkBytes(Low16(size + 8));
  }

  lemma WordOf(lo: u8, hi: u8)
    ensures LittleWord(lo, hi) == lo as int + 0x100 * (hi as int)
    ensures LittleWord(lo, hi) == 0x0800 <==> hi == 0x08 && lo == 0x00
  {
  }

  /** Which frames are for port p, byte by byte. */
  lemma DestinationIff(frame: seq<u8>, p: u16)
    requires Readable(frame)
    ensures Destination(frame) == Port(p) <==>
      && frame[12] == 0x08 && frame[13] == 0x00 && frame[23] == 17
      && 0x100 * (frame[36] as int) + frame[37] as int == p
  {
    hide Swap, LittleWord;
    SwapExchanges(frame[12], frame[13]);
    WordOf(frame[13], frame[12]);
    if |frame| >= 38 {
      SwapExchanges(frame[36], frame[37]);
      WordOf(frame[37], frame[36]);
    }
  }

  // ----- the IPv4 header checksum -----

  /** The stored checksum value is one word of the header sum. */
  lemma IpChecksumField(h: Ipv4Header, c: u16)
    ensures SumBig(h.(headerChecksum := Swap(c)).Bytes()) == SumBig(h.(headerChecksum := 0).Bytes()) + c
  {
    var a := [h.headerSize + 16 * h.version, h.service] + Bytes16(h.totalLength) + Bytes16(h.id)
             + Bytes16(h.fragmentFlags) + [h.ttl, h.protocol];
    var b := h.srcIp + h.dstIp;
    assert h.(headerChecksum := 0).Bytes() == a + (Bytes16(0) + b);
    assert h.(headerChecksum := Swap(c)).Bytes() == a + (Bytes16(Swap(c)) + b);
    hide Bytes16;
    SumBigAppend(a, Bytes16(0) + b);
    SumBigAppend(a, Bytes16(Swap(c)) + b);
    SumBigAppend(Bytes16(0), b);
    SumBigAppend(Bytes16(Swap(c)), b);
    StoredWord(0);
    StoredWord(Swap(c));
    SwapTwice(c);
  }

  lemma HeaderNotZero(h: Ipv4Header)
    requires h.version == 4
    ensures SumBig(h.Bytes()) > 0
  {
    assert h.Bytes()[0] > 0;
    hide SumBig;
    FoldedZeroIff(h.Bytes());
    FoldMeaning(SumBig(h.Bytes()));
  }

  /** A checksum taken with w already in its field makes the sum right exactly when w is a one's-complement
      zero. */
  lemma FieldMatters(s: nat, w: u16)
    requires s > 0
    ensures Fold(s + (0xffff - Fold(s + w))) == 0xffff <==> w == 0 || w == 0xffff
  {
    var k := FoldExcess(s + w);
    var t := s + (0xffff - Fold(s + w));
    assert t == 0xffff * (k + 1) - w;
    FoldMeaning(t);
    assert t % 0xffff == (if w == 0 || w == 0xffff then 0 else 0xffff - w) by {
      hide Fold;
      if w == 0xffff {
        assert t == 0xffff * k;
      } else if w > 0 {
        assert t == 0xffff * k + (0xffff - w);
      }
    }
  }

  lemma SwapEnds(v: u16)
    ensures (Swap(v) == 0 <==> v == 0) && (Swap(v) == 0xffff <==> v == 0xffff)
  {
  }

  /** The ten words of the header sent out fold to all ones (section 3.1 of RFC 791) exactly when the
      checksum field of the header passed down holds 0 or 0xffff, since it is summed as it is. */
  lemma IpHeaderVerifiesIff(h: Ipv4Header, src: Ip, size: nat)
    ensures Fold(SumBig(FinalHeader(h, src, size).Bytes())) == 0xffff
      <==> h.headerChecksum == 0 || h.headerChecksum == 0xffff
  {
    hide Fold, SumBig, Swap;
    var filled := FilledHeader(h, src, size);
    var blank := filled.(headerChecksum := 0);
    var w := Swap(h.headerChecksum);
    SwapTwice(h.headerChecksum);
    IpChecksumField(filled, w);
    assert filled.(headerChecksum := Swap(w)) == filled;
    IpChecksumField(filled, 0xffff - Fold(SumBig(filled.Bytes())));
    HeaderNotZero(blank);
    FieldMatters(SumBig(blank.Bytes()), w);
    SwapEnds(h.headerChecksum);
  }

  // ----- the UDP checksum -----

  /** RFC 768 pads an odd datagram with a zero byte at its end. */
  function Padded(b: seq<u8>): seq<u8> {
    if |b| % 2 == 1 then b + [0] else b
  }

  /** Everything a receiver adds up: pseudo-header, UDP header with its checksum, padded payload. */
  function Received(src: Ip, dst: Ip, h: UdpHeader, payload: seq<u8>): seq<u8> {
    PseudoFor(src, dst, |payload|).Bytes() + Padded(UdpDatagram(src, dst, h, payload))
  }

  lemma {:induction false} PaddedSum(b: seq<u8>)
    ensures SumLittle(Padded(b)) == SumLittle(b) + if |b| % 2 == 1 then b[|b| - 1] else 0
  {
    if |b| >= 2 {
      assert Padded(b)[2..] == Padded(b[2..]);
      PaddedSum(b[2..]);
    } else if |b| == 1 {
      assert Padded(b) == [b[0], 0];
    }
  }

  lemma UdpHeaderSum(h: UdpHeader)
    ensures SumLittle(h.Bytes()) == SumLittle(Bytes16(h.srcPort) + Bytes16(h.dstPort) + Bytes16(h.size)) + h.checksum
  {
    hide Bytes16, SumLittle;
    SumLittleAppend(Bytes16(h.srcPort) + Bytes16(h.dstPort) + Bytes16(h.size), Bytes16(h.checksum));
    StoredWord(h.checksum);
  }

  lemma UdpChecksumField(h: UdpHeader, c: u16)
    requires h.checksum == 0
    ensures SumLittle(h.(checksum := c).Bytes()) == SumLittle(h.Bytes()) + c
  {
    hide SumLittle, Bytes16;
    UdpHeaderSum(h);
    UdpHeaderSum(h.(checksum := c));
  }

  /** The receiver's sum: what the sender added up, less the misplaced odd byte, plus that byte where
      it belongs, plus the checksum. */
  lemma ReceivedSum(src: Ip, dst: Ip, h: UdpHeader, payload: seq<u8>)
    requires h.checksum == 0
    ensures var s := UdpSum(PseudoFor(src, dst, |payload|).Bytes(), h.Bytes(), payload);
      SumLittle(Received(src, dst, h, payload)) + OddByte(payload)
      == s + (0xffff - Fold(s)) + if |payload| % 2 == 1 then payload[|payload| - 1] else 0
  {
    hide Fold, SumLittle, PseudoFor, Bytes16;
    var pseudo := PseudoFor(src, dst, |payload|).Bytes();
    var c := 0xffff - Fold(UdpSum(pseudo, h.Bytes(), payload));
    var header := h.(checksum := c).Bytes();
    assert Padded(header + payload) == header + Padded(payload);
    SumLittleAppend(pseudo, header + Padded(payload));
    SumLittleAppend(header, Padded(payload));
    PaddedSum(payload);
    UdpChecksumField(h, c);
  }

  lemma ReceivedEven(src: Ip, dst: Ip, h: UdpHeader, payload: seq<u8>)
    ensures |Received(src, dst, h, payload)| % 2 == 0
  {
    hide UdpSum, Fold, PseudoFor;
  }

  /** A byte moved from the high to the low half of a word changes the sum modulo 65535, unless zero. */
  lemma OddByteMatters(s: nat, t: nat, last: u8)
    requires t + 0x100 * last == s + (0xffff - Fold(s)) + last
    ensures Fold(t) == 0xffff <==> last == 0
  {
    var k := FoldExcess(s);
    assert t == 0xffff * (k + 1) - 0xff * last;
    if last == 0 {
      Verifies(s);
    } else {
      assert (0xffff * (k + 1) - 0xff * last) % 0xffff == 0xffff - 0xff * last;
      FoldMeaning(t);
    }
  }

  /** The words a receiver adds up fold to all ones exactly when the payload length is even or its last byte
      is zero: the code adds an odd last byte as the high half of a little-endian word, RFC 768 as the
      low half. */
  lemma UdpVerifiesIff(src: Ip, dst: Ip, h: UdpHeader, payload: seq<u8>)
    requires h.checksum == 0
    ensures Fold(SumBig(Received(src, dst, h, payload))) == 0xffff
      <==> |payload| % 2 == 0 || payload[|payload| - 1] == 0
  {
    hide SumLittle, UdpSum, Received, SumBig, PseudoFor, Fold, Swap;
    var s := UdpSum(PseudoFor(src, dst, |payload|).Bytes(), h.Bytes(), payload);
    var t := SumLittle(Received(src, dst, h, payload));
    ReceivedSum(src, dst, h, payload);
    ReceivedEven(src, dst, h, payload);
    ByteOrderIndependent(Received(src, dst, h, payload));
    SwapEnds(Fold(t));
    OddByteMatters(s, t, if |payload| % 2 == 1 then payload[|payload| - 1] else 0);
  }

  /** A one-byte payload that does not verify. */
  lemma OddPayloadRejected(src: Ip, dst: Ip, h: UdpHeader)
    requires h.checksum == 0
    ensures Fold(SumBig(Received(src, dst, h, [1]))) != 0xffff
  {
    UdpVerifiesIff(src, dst, h, [1]);
  }

  lemma SocketChecksum(srcPort: u16, dstPort: u16, size: nat)
    ensures SocketHeader(srcPort, dstPort, size).checksum == 0
  {
  }

  /** What a receiver computes from the bytes of the frame alone: the header words, and the words of the
      pseudo-header (both addresses, a zero byte, the protocol, the length) and the padded datagram. */
  lemma FrameVerifiesIff(mac: Mac, src: Ip, srcPort: u16, dst: Ip, dstPort: u16, payload: seq<u8>)
    ensures var f := SentFrame(mac, src, srcPort, dst, dstPort, payload);
      && |f| == 42 + |payload|
      && Fold(SumBig(f[14..34])) == 0xffff
      && (Fold(SumBig(f[26..30] + f[30..34] + [0, f[23]] + f[38..40] + Padded(f[34..]))) == 0xffff
          <==> |payload| % 2 == 0 || payload[|payload| - 1] == 0)
  {
    hide SumBig, Fold, SentFrame, UdpDatagram, SocketHeader, FinalHeader, Padded, PseudoFor;
    var f := SentFrame(mac, src, srcPort, dst, dstPort, payload);
    var h := BLANK_IP_HEADER.(dstIp := dst, protocol := 0x11);
    FrameBytes(mac, src, srcPort, dst, dstPort, payload);
    FrameLayout(mac, src, srcPort, dst, dstPort, payload);
    IpHeaderVerifiesIff(h, src, |payload| + 8);
    PseudoBytes(src, dst, |payload|);
    SocketChecksum(srcPort, dstPort, |payload|);
    UdpVerifiesIff(src, dst, SocketHeader(srcPort, dstPort, |payload|), payload);
  }

  /** The checksum a sent datagram carries. */
  function SentChecksum(src: Ip, dst: Ip, h: UdpHeader, payload: seq<u8>): u16 {
    var d := UdpDatagram(src, dst, h, payload);
    LittleWord(d[6], d[7])
  }

  /** The protocol number alone keeps the sum from being zero. */
  lemma PseudoNotZero(src: Ip, dst: Ip, size: nat)
    ensures SumLittle(PseudoFor(src, dst, size).Bytes()) > 0
  {
    var b := PseudoFor(src, dst, size).Bytes();
    assert b[9] == 0x11;
    ZeroSum(b);
  }

  /** A datagram goes out with a zero checksum, which RFC 768 reserves for "none computed", exactly when
      the sum of its words is a multiple of 65535. */
  lemma ZeroChecksumIff(src: Ip, dst: Ip, h: UdpHeader, payload: seq<u8>)
    ensures SentChecksum(src, dst, h, payload) == 0
      <==> UdpSum(PseudoFor(src, dst, |payload|).Bytes(), h.Bytes(), payload) % 0xffff == 0
  {
    hide Bytes16, LittleWord, SumLittle, PseudoFor;
    var s := UdpSum(PseudoFor(src, dst, |payload|).Bytes(), h.Bytes(), payload);
    var c: u16 := 0xffff - Fold(s);
    var head := Bytes16(h.srcPort) + Bytes16(h.dstPort) + Bytes16(h.size);
    assert h.(checksum := c).Bytes() == head + Bytes16(c);
    var d := UdpDatagram(src, dst, h, payload);
    assert d == head + Bytes16(c) + payload;
    assert d[6] == Bytes16(c)[0] && d[7] == Bytes16(c)[1];
    StoredWord(c);
    FoldMeaning(s);
    PseudoNotZero(src, dst, |payload|);
  }

  /** It does happen: for any addresses and ports some two-byte payload is sent with a zero checksum. */
  lemma ZeroChecksumSent(src: Ip, dst: Ip, h: UdpHeader) returns (payload: seq<u8>)
    ensures |payload| == 2 && SentChecksum(src, dst, h, payload) == 0
  {
    hide Fold, Bytes16, SumLittle, PseudoFor, SentChecksum, UdpHeader.Bytes, Pseudoheader.Bytes;
    var s := SumLittle(PseudoFor(src, dst, 2).Bytes()) + SumLittle(h.Bytes());
    var w: u16 := 0xffff - Fold(s);
    payload := Bytes16(w);
    StoredWord(w);
    FillsUp(s);
    assert UdpSum(PseudoFor(src, dst, |payload|).Bytes(), h.Bytes(), payload) == s + w;
    ZeroChecksumIff(src, dst, h, payload);
  }

  /** What a receiver does under RFC 768: no test when the checksum field is zero, otherwise the words it
      adds up, an odd payload padded, have to fold to all ones. */
  ghost predicate Accepted(src: Ip, dst: Ip, h: UdpHeader, payload: seq<u8>) {
    SentChecksum(src, dst, h, payload) == 0 || Fold(SumBig(Received(src, dst, h, payload))) == 0xffff
  }

  /** Which datagrams a receiver accepts. */
  lemma AcceptedIff(src: Ip, dst: Ip, h: UdpHeader, payload: seq<u8>)
    requires h.checksum == 0
    ensures Accepted(src, dst, h, payload) <==>
      || |payload| % 2 == 0
      || payload[|payload| - 1] == 0
      || UdpSum(PseudoFor(src, dst, |payload|).Bytes(), h.Bytes(), payload) % 0xffff == 0
  {
    hide Fold, SumBig, Received, SentChecksum, UdpSum, PseudoFor;
    UdpVerifiesIff(src, dst, h, payload);
    ZeroChecksumIff(src, dst, h, payload);
  }

  /** An odd last byte does not count as a word. */
  lemma OddSum(b: seq<u8>, last: u8)
    requires |b| == 2
    ensures SumLittle(b + [last]) == SumLittle(b)
  {
    assert (b + [last])[2..] == [last] && b[2..] == [];
  }

  /** For any addresses, ports and size field an odd payload with a misplaced last byte is accepted all the
      same, because it is sent with a zero checksum. */
  lemma OddPayloadAccepted(src: Ip, dst: Ip, h: UdpHeader) returns (payload: seq<u8>)
    requires h.checksum == 0
    ensures |payload| == 3 && payload[2] == 1
    ensures Fold(SumBig(Received(src, dst, h, payload))) != 0xffff && Accepted(src, dst, h, payload)
  {
    hide Fold, Bytes16, SumLittle, PseudoFor, SentChecksum, UdpHeader.Bytes, Pseudoheader.Bytes, SumBig, Received;
    var s := SumLittle(PseudoFor(src, dst, 3).Bytes()) + SumLittle(h.Bytes()) + 0x100;
    var w: u16 := 0xffff - Fold(s);
    payload := Bytes16(w) + [1];
    StoredWord(w);
    FillsUp(s);
    OddSum(Bytes16(w), 1);
    assert UdpSum(PseudoFor(src, dst, |payload|).Bytes(), h.Bytes(), payload) == s + w;
    ZeroChecksumIff(src, dst, h, payload);
    UdpVerifiesIff(src, dst, h, payload);
  }

  /** Below 64 KiB the two length fields state the true lengths, in network order. */
  lemma LengthsStated(mac: Mac, src: Ip, srcPort: u16, dst: Ip, dstPort: u16, payload: seq<u8>)
    requires |payload| + 28 <= 0xffff
    ensures var frame := SentFrame(mac, src, srcPort, dst, dstPort, payload);
      && |frame| == 42 + |payload|
      && 0x100 * (frame[16] as int) + frame[17] as int == |frame| - 14
      && 0x100 * (frame[38] as int) + frame[39] as int == |frame| - 34
  {
    hide Bytes16, Swap, LittleWord, SentFrame;
    FrameFields(mac, src, srcPort, dst, dstPort, payload);
    var frame := SentFrame(mac, src, srcPort, dst, dstPort, payload);
    NetworkWord(frame, 16, |payload| + 28);
    NetworkWord(frame, 38, |payload| + 8);
  }

  /** Both DHCP messages have even length, 258 and 264 bytes, so the datagrams carrying them verify. */
  lemma DhcpVerifies(src: Ip, dst: Ip, h: UdpHeader, mac: Mac, ip: Ip)
    requires h.checksum == 0
    ensures var discover := Dhcp.Message(mac, Dhcp.DiscoverOptions(mac));
      |discover| == 258 && Fold(SumBig(Received(src, dst, h, discover))) == 0xffff
    ensures var request := Dhcp.Message(mac, Dhcp.RequestOptions(mac, ip));
      |request| == 264 && Fold(SumBig(Received(src, dst, h, request))) == 0xffff
  {
    hide Fold, SumBig, Received;
    Dhcp.DiscoverBytes(mac);
    Dhcp.RequestBytes(mac, ip);
    UdpVerifiesIff(src, dst, h, Dhcp.Message(mac, Dhcp.DiscoverOptions(mac)));
    UdpVerifiesIff(src, dst, h, Dhcp.Message(mac, Dhcp.RequestOptions(mac, ip)));
  }
}
