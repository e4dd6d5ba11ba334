/** DHCP options: a writer that appends code, length, data (sections 2 and 3.2 of RFC 2132), the reader
    that walks them, and the two messages the client sends. */
module Dhcp {
  import opened Machine
  import Strings

  datatype DhcpOption = DhcpOption(code: u8, data: seq<u8>)

  const COOKIE: seq<u8> := [0x63, 0x82, 0x53, 0x63]
  const END: u8 := 0xff

  /** An option the format can carry: a one-byte length, and a code that is not the end mark. */
  predicate Encodable(o: DhcpOption) {
    o.code != END && |o.data| <= 0xff
  }

  function EncodeOne(o: DhcpOption): (b: seq<u8>)
    ensures |b| == 2 + |o.data|
  {
    [o.code, |o.data| % 0x100] + o.data
  }

  function Encode(os: seq<DhcpOption>): seq<u8> {
    if os == [] then [] else EncodeOne(os[0]) + Encode(os[1..])
  }

  lemma EncodeStep(o: DhcpOption, os: seq<DhcpOption>)
    ensures Encode(os + [o]) == Encode(os) + EncodeOne(o)
  {
    if os == [] {
      assert os + [o] == [o] && Encode([]) == [] && [o][1..] == [];
      assert Encode([o]) == EncodeOne(o) + Encode([o][1..]);
    } else {
      assert (os + [o])[1..] == os[1..] + [o];
      EncodeStep(o, os[1..]);
    }
  }

  // ----- options in a buffer -----

  ghost predicate AllEncodable(os: seq<DhcpOption>) {
    forall i :: 0 <= i < |os| ==> Encodable(os[i])
  }

  /** From at on, the buffer holds these options and an end mark. */
  ghost predicate HoldsOptions(b: seq<u8>, at: nat, os: seq<DhcpOption>) {
    && AllEncodable(os)
    && at + |Encode(os)| + 1 <= |b|
    && b[at..at + |Encode(os)| + 1] == Encode(os) + [END]
  }

  lemma Subslice(b: seq<u8>, at: nat, n: nat, i: nat, j: nat)
    requires at + n <= |b| && i <= j <= n
    ensures b[at..at + n][i..j] == b[at + i..at + j]
  {
    var x, y := b[at..at + n][i..j], b[at + i..at + j];
    assert |x| == |y| && forall k :: 0 <= k < |x| ==> x[k] == y[k];
  }

  lemma OptionApart(whole: seq<u8>, o: DhcpOption, rest: seq<u8>)
    requires Encodable(o) && whole == EncodeOne(o) + rest
    ensures var n := |o.data|;
      && |whole| == 2 + n + |rest| && whole[0] == o.code && whole[1] == n
      && whole[2..2 + n] == o.data && whole[2 + n..|whole|] == rest
  {
  }

  lemma EncodeFirst(os: seq<DhcpOption>)
    requires os != []
    ensures Encode(os) + [END] == EncodeOne(os[0]) + (Encode(os[1..]) + [END])
  {
    hide EncodeOne;
    assert Encode(os) == EncodeOne(os[0]) + Encode(os[1..]);
  }

  /** The first option read is the first one written, and the rest follows behind it. */
  lemma FirstOption(b: seq<u8>, at: nat, os: seq<DhcpOption>)
    requires HoldsOptions(b, at, os) && os != []
    ensures var n := |os[0].data|;
      && at + 2 + n < |b|
      && b[at] == os[0].code != END && b[at + 1] == n && b[at + 2..at + 2 + n] == os[0].data
      && HoldsOptions(b, at + 2 + n, os[1..])
  {
    hide EncodeOne, Encode;
    var n := |os[0].data|;
    var whole, rest := b[at..at + |Encode(os)| + 1], Encode(os[1..]) + [END];
    assert Encodable(os[0]);
    EncodeFirst(os);
    OptionApart(whole, os[0], rest);
    assert whole[0] == b[at] && whole[1] == b[at + 1];
    Subslice(b, at, |whole|, 2, 2 + n);
    Subslice(b, at, |whole|, 2 + n, |whole|);
  }

  lemma NoOption(b: seq<u8>, at: nat)
    requires HoldsOptions(b, at, [])
    ensures at < |b| && b[at] == END
  {
    assert b[at] == b[at..at + 1][0];
  }

  /** Reading until the end mark, as a function of the bytes. */
  function Parse(b: seq<u8>, at: nat): seq<DhcpOption>
    decreases |b| - at
  {
    if at >= |b| || b[at] == END || at + 1 >= |b| || at + 2 + b[at + 1] > |b| then []
    else [DhcpOption(b[at], b[at + 2..at + 2 + b[at + 1]])] + Parse(b, at + 2 + b[at + 1])
  }

  /** The reader recovers exactly the options the writer was given, in order. */
  lemma {:induction false} RoundTrip(b: seq<u8>, at: nat, os: seq<DhcpOption>)
    requires HoldsOptions(b, at, os)
    ensures Parse(b, at) == os
    decreases |os|
  {
    hide HoldsOptions;
    if os == [] {
      NoOption(b, at);
    } else {
      FirstOption(b, at, os);
      RoundTrip(b, at + 2 + |os[0].data|, os[1..]);
      assert os == [os[0]] + os[1..];
    }
  }

  /** The chain of options from at on reaches an end mark inside the buffer. */
  predicate Terminated(b: seq<u8>, at: nat)
    decreases |b| - at
  {
    at < |b| && (b[at] == END || (at + 1 < |b| && Terminated(b, at + 2 + b[at + 1])))
  }

  lemma OptionInFront(b: seq<u8>, at: nat, os: seq<DhcpOption>)
    requires at + 1 < |b| && b[at] != END && at + 2 + b[at + 1] <= |b|
    requires HoldsOptions(b, at + 2 + b[at + 1], os)
    ensures HoldsOptions(b, at, [DhcpOption(b[at], b[at + 2..at + 2 + b[at + 1]])] + os)
  {
    var o, next := DhcpOption(b[at], b[at + 2..at + 2 + b[at + 1]]), at + 2 + b[at + 1];
    assert ([o] + os)[1..] == os;
    assert Encode([o] + os) == EncodeOne(o) + Encode(os);
    var n := |Encode(os)| + 1;
    hide Encode;
    assert b[at..next + n] == b[at..next] + b[next..next + n];
    assert b[at..next] == EncodeOne(o);
    assert EncodeOne(o) + (Encode(os) + [END]) == EncodeOne(o) + Encode(os) + [END];
  }

  lemma EndIsEmpty(b: seq<u8>, at: nat)
    requires at < |b| && b[at] == END
    ensures HoldsOptions(b, at, [])
  {
    assert b[at..at + 1] == [END];
  }

  /** Every buffer the reader gets to the end of is the writer's encoding of just what it read. */
  lemma {:induction false} TerminatedIsEncoded(b: seq<u8>, at: nat)
    requires Terminated(b, at)
    ensures HoldsOptions(b, at, Parse(b, at))
    decreases |b| - at
  {
    hide HoldsOptions;
    if b[at] == END {
      EndIsEmpty(b, at);
    } else {
      TerminatedIsEncoded(b, at + 2 + b[at + 1]);
      OptionInFront(b, at, Parse(b, at + 2 + b[at + 1]));
    }
  }

  lemma {:induction false} EncodedTerminates(b: seq<u8>, at: nat, os: seq<DhcpOption>)
    requires HoldsOptions(b, at, os)
    ensures Terminated(b, at)
    decreases |os|
  {
    hide HoldsOptions;
    if os == [] {
      NoOption(b, at);
    } else {
      FirstOption(b, at, os);
      EncodedTerminates(b, at + 2 + |os[0].data|, os[1..]);
    }
  }

  /** Writing and reading are inverse both ways: the options held from at on are those parsed there,
      and there are such options exactly when the reader meets an end mark inside the buffer. */
  lemma HoldsIff(b: seq<u8>, at: nat, os: seq<DhcpOption>)
    ensures HoldsOptions(b, at, os) <==> Terminated(b, at) && os == Parse(b, at)
  {
    if HoldsOptions(b, at, os) {
      RoundTrip(b, at, os);
      EncodedTerminates(b, at, os);
    }
    if Terminated(b, at) {
      TerminatedIsEncoded(b, at);
    }
  }

  // ----- the writer -----

  class OptionBuilder {
    const buffer: array<u8>
    var offset: nat
    /** Everything up to the last cookie or end mark, and the options appended behind it. */
    ghost var head: seq<u8>
    ghost var options: seq<DhcpOption>

    ghost predicate InBounds()
      reads this
    {
      offset <= buffer.Length < 0x1_0000_0000
    }

    /** The bytes written so far. */
    function Written(): seq<u8>
      requires InBounds()
      reads this, buffer
    {
      buffer[..offset]
    }

    ghost predicate Valid()
      reads this, buffer
    {
      InBounds() && Written() == head + Encode(options)
    }

    constructor (size: nat)
      requires size < 0x1_0000_0000
      ensures Valid() && fresh(buffer) && buffer.Length == size && Written() == head == [] && options == []
    {
      buffer := new u8[size](_ => 0);
      offset, head, options := 0, [], [];
    }

    method Put(b: u8)
      requires InBounds() && offset < buffer.Length
      modifies `offset, buffer
      ensures InBounds() && Written() == old(Written()) + [b]
    {
      buffer[offset] := b;
      offset := offset + 1;
    }

    method PutAll(data: array<u8>, n: nat)
      requires InBounds() && n <= data.Length && offset + n <= buffer.Length && data != buffer
      modifies `offset, buffer
      ensures InBounds() && Written() == old(Written()) + data[..n]
    {
      Strings.Memcpy(buffer, offset, data, 0, n);
      offset := offset + n;
    }

    method AddCookie()
      requires Valid() && offset + 4 <= buffer.Length
      modifies this, buffer
      ensures Valid() && Written() == head == old(Written()) + COOKIE && options == []
    {
      Put(0x63);
      Put(0x82);
      Put(0x53);
      Put(0x63);
      head, options := Written(), [];
    }

    /** One more option behind those already there. */
    ghost method Append(o: DhcpOption)
      requires InBounds() && Written() == head + Encode(options) + EncodeOne(o)
      modifies `options
      ensures Valid() && options == old(options) + [o]
    {
      EncodeStep(o, options);
      options := options + [o];
    }

    method AddOption(code: u8, length: u8, data: array<u8>)
      requires Valid() && length <= data.Length && offset + 2 + length <= buffer.Length && data != buffer
      modifies this, buffer
      ensures Valid() && head == old(head) && options == old(options) + [DhcpOption(code, data[..length])]
      ensures Written() == old(Written()) + EncodeOne(DhcpOption(code, data[..length]))
    {
      Put(code);
      Put(length);
      PutAll(data, length);
      Append(DhcpOption(code, data[..length]));
    }

    /** The client identifier of section 9.14 of RFC 2132: hardware type, then the address. */
    method AddClientId(hwType: u8, addr: array<u8>)
      requires Valid() && addr.Length >= 6 && offset + 9 <= buffer.Length && addr != buffer
      modifies this, buffer
      ensures Valid() && head == old(head) && options == old(options) + [DhcpOption(61, [hwType] + addr[..6])]
      ensures Written() == old(Written()) + EncodeOne(DhcpOption(61, [hwType] + addr[..6]))
    {
      Put(61);
      Put(7);
      Put(hwType);
      PutAll(addr, 6);
      Append(DhcpOption(61, [hwType] + addr[..6]));
    }

    /** Closes the list: whatever calls made it up, the options appended since the cookie are what a
        reader that starts behind the cookie finds. */
    method AddEnd()
      requires Valid() && offset < buffer.Length
      modifies this, buffer
      ensures Valid() && Written() == head == old(Written()) + [END] && options == []
      ensures AllEncodable(old(options)) ==>
        && HoldsOptions(head, |old(head)|, old(options))
        && Parse(head, |old(head)|) == old(options)
    {
      ghost var start := |head|;
      ghost var os := options;
      Put(0xff);
      assert Written()[start..start + |Encode(os)| + 1] == Encode(os) + [END];
      if AllEncodable(os) {
        RoundTrip(Written(), start, os);
      }
      head, options := Written(), [];
    }
  }

  // ----- the reader of an offer -----

  /** What read_option returns; the data pointer is an offset into the same buffer. */
  datatype RawOption = End | Raw(code: u8, length: u8, data: nat)

  method ReadOption(buffer: array<u8>, offset: nat) returns (o: RawOption)
    requires offset < buffer.Length && (buffer[offset] != END ==> offset + 1 < buffer.Length)
    ensures o == if buffer[offset] == END then End else Raw(buffer[offset], buffer[offset + 1], offset + 2)
  {
    var code := buffer[offset];
    if code == 0xff {
      return End;
    }
    o := Raw(code, buffer[offset + 1], offset + 2);
  }

  /** What the client concludes: whether the options are those of an offer, and the server identifier
      they leave. */
  datatype Verdict = Verdict(accepted: bool, server: seq<u8>)

  /** A message type other than OFFER: the client gives up at once. */
  predicate Rejects(b: seq<u8>, at: nat)
    requires at + 2 < |b|
  {
    b[at] == 53 && b[at + 2] != 2
  }

  /** Everything the option loop reads from at on lies in the buffer: code and length of each option,
      one byte of a message type, four bytes of a server identifier. */
  predicate ReadsInside(b: seq<u8>, at: nat)
    decreases |b| - at
  {
    && at < |b|
    && (b[at] == END || (
          && at + 1 < |b|
          && (b[at] == 53 ==> at + 2 < |b|)
          && (b[at] == 54 ==> at + 6 <= |b|)
          && ((b[at] == 53 && Rejects(b, at)) || ReadsInside(b, at + 2 + b[at + 1]))))
  }

  function Conclude(b: seq<u8>, at: nat, server: seq<u8>): Verdict
    requires ReadsInside(b, at)
    decreases |b| - at
  {
    if b[at] == END then Verdict(true, server)
    else if b[at] == 53 && Rejects(b, at) then Verdict(false, server)
    else Conclude(b, at + 2 + b[at + 1], if b[at] == 54 then b[at + 2..at + 6] else server)
  }

  lemma ReadsStep(b: seq<u8>, at: nat, server: seq<u8>)
    requires ReadsInside(b, at)
    ensures at < |b|
    ensures b[at] == END ==> Conclude(b, at, server) == Verdict(true, server)
    ensures b[at] != END ==>
      && at + 1 < |b| && (b[at] == 53 ==> at + 2 < |b|) && (b[at] == 54 ==> at + 6 <= |b|)
      && if b[at] == 53 && b[at + 2] != 2 then Conclude(b, at, server) == Verdict(false, server)
         else
           && ReadsInside(b, at + 2 + b[at + 1])
           && Conclude(b, at, server)
              == Conclude(b, at + 2 + b[at + 1], if b[at] == 54 then b[at + 2..at + 6] else server)
  {
  }

  method TakeServer(server: array<u8>, message: array<u8>, at: nat)
    requires server.Length == 4 && at + 4 <= message.Length && server != message
    modifies server
    ensures server[..] == message[..][at..at + 4]
  {
    Strings.Memcpy(server, 0, message, at, 4);
  }

  /** The option loop of the client: options says where the list starts in the received message. */
  method ReadOffer(message: array<u8>, options: nat, server: array<u8>) returns (accepted: bool)
    requires ReadsInside(message[..], options) && server.Length == 4 && server != message
    modifies server
    ensures Verdict(accepted, server[..]) == Conclude(message[..], options, old(server[..]))
  {
    hide ReadsInside, Conclude;
    ghost var b := message[..];
    var offset: nat := 0;
    ReadsStep(b, options, server[..]);
    var option := ReadOption(message, options + offset);
    while option != End
      invariant message[..] == b && ReadsInside(b, options + offset)
      invariant options + offset < |b| && (b[options + offset] != END ==> options + offset + 1 < |b|)
      invariant option == if b[options + offset] == END then End
                          else Raw(b[options + offset], b[options + offset + 1], options + offset + 2)
      invariant Conclude(b, options + offset, server[..]) == Conclude(b, options, old(server[..]))
      decreases |b| - offset
    {
      ReadsStep(b, options + offset, server[..]);
      if option.code == 53 {
        if message[option.data] != 2 {
          return false;
        }
      } else if option.code == 54 {
        TakeServer(server, message, option.data);
      }
      offset := offset + option.length + 2;
      ReadsStep(b, options + offset, server[..]);
      option := ReadOption(message, options + offset);
    }
    ReadsStep(b, options + offset, server[..]);
    accepted := true;
  }

  /** Options long enough for the client: one byte of message type, four of server identifier. */
  predicate Readable(o: DhcpOption) {
    (o.code == 53 ==> |o.data| >= 1) && (o.code == 54 ==> |o.data| >= 4)
  }

  predicate AllReadable(os: seq<DhcpOption>) {
    forall i :: 0 <= i < |os| ==> Readable(os[i])
  }

  /** Options are taken in order; a message type other than OFFER stops at once. */
  function Judge(os: seq<DhcpOption>, server: seq<u8>): Verdict
    requires AllReadable(os)
  {
    if os == [] then Verdict(true, server)
    else if os[0].code == 53 && os[0].data[0] != 2 then Verdict(false, server)
    else Judge(os[1..], if os[0].code == 54 then os[0].data[..4] else server)
  }

  /** On options that are long enough the loop stays inside the buffer, and what it concludes depends on
      the options written there alone, so on nothing behind the end mark. */
  lemma {:induction false} OfferJudged(b: seq<u8>, at: nat, os: seq<DhcpOption>, server: seq<u8>)
    requires HoldsOptions(b, at, os) && AllReadable(os)
    ensures ReadsInside(b, at) && Conclude(b, at, server) == Judge(os, server)
    decreases |os|
  {
    hide HoldsOptions;
    if os == [] {
      NoOption(b, at);
    } else {
      FirstOption(b, at, os);
      var data := os[0].data;
      assert forall k :: 0 <= k < |data| ==> b[at + 2 + k] == data[k];
      if os[0].code == 54 {
        assert b[at + 2..at + 6] == data[..4];
      }
      OfferJudged(b, at + 2 + |data|, os[1..], if os[0].code == 54 then data[..4] else server);
    }
  }

  // ----- the two messages -----

  /** The 236-byte BOOTP part of a request from mac. */
  function BootpHeader(mac: seq<u8>): (b: seq<u8>)
    requires |mac| == 6
    ensures |b| == 236
  {
    [1, 1, 6, 0] + [0x26, 0x26, 0x26, 0x26] + seq(20, _ => 0) + mac + seq(202, _ => 0)
  }

  /** Wanted parameters and client identifier. */
  function TailOptions(mac: seq<u8>): seq<DhcpOption> {
    [DhcpOption(55, [1, 3, 6]), DhcpOption(61, [1] + mac)]
  }

  function DiscoverOptions(mac: seq<u8>): seq<DhcpOption> {
    [DhcpOption(53, [1])] + TailOptions(mac)
  }

  function RequestOptions(mac: seq<u8>, ip: seq<u8>): seq<DhcpOption> {
    [DhcpOption(53, [3]), DhcpOption(50, ip)] + TailOptions(mac)
  }

  function Message(mac: seq<u8>, os: seq<DhcpOption>): seq<u8>
    requires |mac| == 6
  {
    BootpHeader(mac) + (COOKIE + (Encode(os) + [END]))
  }

  /** The non-zero fields of the BOOTP part, in a message that starts out zeroed. */
  method FillBootp(message: array<u8>, mac: array<u8>)
    requires mac.Length == 6 && message.Length >= 236 && mac != message
    requires forall i :: 0 <= i < 236 ==> message[i] == 0
    modifies message
    ensures message[..236] == BootpHeader(mac[..])
  {
    message[0] := 1;
    message[1] := 1;
    message[2] := 6;
    message[3] := 0;
    message[4], message[5], message[6], message[7] := 0x26, 0x26, 0x26, 0x26;
    Strings.Memcpy(message, 28, mac, 0, 6);
  }

  /** The end of both functions: the zeroed message, its BOOTP part, and the options behind it. */
  method FinishMessage(builder: OptionBuilder, mac: array<u8>) returns (message: array<u8>)
    requires builder.Valid() && mac.Length == 6 && builder.offset <= 256
    ensures fresh(message) && message[..] == BootpHeader(mac[..]) + builder.Written()
  {
    hide BootpHeader;
    message := new u8[236 + builder.offset](_ => 0);
    FillBootp(message, mac);
    ghost var head := message[..236];
    Strings.Memcpy(message, 236, builder.buffer, 0, builder.offset);
    assert message[..236] == head;
    assert message[236..] == builder.Written();
    assert message[..] == message[..236] + message[236..];
  }

  /** The last three steps both functions take: wanted parameters, client identifier, end mark. */
  method AddTail(builder: OptionBuilder, mac: array<u8>)
    requires builder.Valid() && builder.offset + 15 <= builder.buffer.Length
    requires mac.Length == 6 && mac != builder.buffer
    modifies builder, builder.buffer
    ensures builder.Valid() && builder.offset == old(builder.offset) + 15
    ensures builder.Written() == old(builder.head)
      + (Encode(old(builder.options) + TailOptions(mac[..])) + [END])
  {
    hide EncodeOne, Encode, Parse, HoldsOptions;
    var wanted := new u8[] [1, 3, 6];
    assert wanted[..3] == [1, 3, 6] && mac[..6] == mac[..];
    builder.AddOption(55, 3, wanted);
    builder.AddClientId(1, mac);
    assert builder.options == old(builder.options) + TailOptions(mac[..]);
    builder.AddEnd();
  }

  method DoDiscover(mac: array<u8>) returns (message: array<u8>)
    requires mac.Length == 6
    ensures fresh(message) && message[..] == Message(mac[..], DiscoverOptions(mac[..]))
  {
    hide EncodeOne, Encode, BootpHeader, TailOptions;
    var builder := new OptionBuilder(256);
    var kind := new u8[] [1];
    assert kind[..1] == [1];
    builder.AddCookie();
    builder.AddOption(53, 1, kind);
    assert builder.options == [DhcpOption(53, [1])];
    AddTail(builder, mac);
    message := FinishMessage(builder, mac);
  }

  /** The options of a request for ip, up to the wanted parameters. */
  method StartRequest(ip: array<u8>) returns (builder: OptionBuilder)
    requires ip.Length == 4
    ensures fresh(builder) && fresh(builder.buffer) && builder.buffer.Length == 256
    ensures builder.Valid() && builder.head == COOKIE && builder.offset == 13
    ensures builder.options == [DhcpOption(53, [3]), DhcpOption(50, ip[..])]
  {
    hide Encode;
    builder := new OptionBuilder(256);
    var kind := new u8[] [3];
    assert kind[..1] == [3] && ip[..4] == ip[..];
    builder.AddCookie();
    assert builder.offset == |builder.Written()|;
    builder.AddOption(53, 1, kind);
    assert builder.offset == |builder.Written()|;
    builder.AddOption(50, 4, ip);
    assert builder.offset == |builder.Written()|;
  }

  method DoRequest(mac: array<u8>, ip: array<u8>) returns (message: array<u8>)
    requires mac.Length == 6 && ip.Length == 4
    ensures fresh(message) && message[..] == Message(mac[..], RequestOptions(mac[..], ip[..]))
  {
    hide Encode, BootpHeader, TailOptions;
    var builder := StartRequest(ip);
    AddTail(builder, mac);
    message := FinishMessage(builder, mac);
  }

  lemma DiscoverBytes(mac: seq<u8>)
    ensures Encode(DiscoverOptions(mac)) ==
      EncodeOne(DhcpOption(53, [1])) + EncodeOne(DhcpOption(55, [1, 3, 6])) + EncodeOne(DhcpOption(61, [1] + mac))
  {
    hide EncodeOne;
    var a, b, c := DhcpOption(53, [1]), DhcpOption(55, [1, 3, 6]), DhcpOption(61, [1] + mac);
    EncodeStep(a, []);
    EncodeStep(b, [a]);
    EncodeStep(c, [a, b]);
    assert [] + [a] == [a] && [a] + [b] == [a, b] && [a, b] + [c] == DiscoverOptions(mac);
  }

  lemma RequestBytes(mac: seq<u8>, ip: seq<u8>)
    ensures Encode(RequestOptions(mac, ip)) ==
      EncodeOne(DhcpOption(53, [3])) + EncodeOne(DhcpOption(50, ip)) + EncodeOne(DhcpOption(55, [1, 3, 6]))
      + EncodeOne(DhcpOption(61, [1] + mac))
  {
    hide EncodeOne;
    var a, b, c, d := DhcpOption(53, [3]), DhcpOption(50, ip), DhcpOption(55, [1, 3, 6]), DhcpOption(61, [1] + mac);
    EncodeStep(a, []);
    EncodeStep(b, [a]);
    EncodeStep(c, [a, b]);
    EncodeStep(d, [a, b, c]);
    assert [] + [a] == [a] && [a] + [b] == [a, b] && [a, b] + [c] == [a, b, c];
    assert [a, b, c] + [d] == RequestOptions(mac, ip);
  }

  /** A message carries its options behind the cookie: a receiver that skips 240 bytes reads them back. */
  lemma MessageParses(mac: seq<u8>, os: seq<DhcpOption>)
    requires |mac| == 6 && AllEncodable(os)
    ensures |Message(mac, os)| == 241 + |Encode(os)|
    ensures Parse(Message(mac, os), 240) == os
  {
    var m := Message(mac, os);
    assert m[240..240 + |Encode(os)| + 1] == Encode(os) + [END];
    RoundTrip(m, 240, os);
  }

  // ----- every byte of the two messages -----

  lemma TailBytes(mac: seq<u8>)
    requires |mac| == 6
    ensures Encode(TailOptions(mac)) == [55, 3, 1, 3, 6] + [61, 7, 1] + mac
  {
    var a, b := DhcpOption(55, [1, 3, 6]), DhcpOption(61, [1] + mac);
    assert TailOptions(mac)[1..] == [b] && [b][1..] == [];
    assert Encode([b]) == EncodeOne(b) + Encode([]);
    assert Encode(TailOptions(mac)) == EncodeOne(a) + Encode([b]);
  }

  /** The BOOTP part of both messages (236 bytes, all zero but for the request to Ethernet, the transaction
      number and the client's address), then the magic cookie 99.130.83.99. */
  lemma HeadBytes(mac: seq<u8>, os: seq<DhcpOption>)
    requires |mac| == 6
    ensures var m := Message(mac, os);
      && |m| >= 240 && m[0..4] == [1, 1, 6, 0] && m[4..8] == [0x26, 0x26, 0x26, 0x26] && m[28..34] == mac
      && (forall k :: 8 <= k < 28 || 34 <= k < 236 ==> m[k] == 0)
      && m[236..240] == [99, 130, 83, 99] && m[240..] == Encode(os) + [0xff]
  {
    hide Encode;
    var head, tail := BootpHeader(mac), Encode(os) + [END];
    var m := Message(mac, os);
    assert m == head + (COOKIE + tail);
    assert m[..236] == head && m[236..240] == COOKIE && m[240..] == tail;
    assert m[0..4] == head[0..4] && m[4..8] == head[4..8] && m[28..34] == head[28..34];
  }

  lemma DiscoverInBytes(mac: seq<u8>)
    requires |mac| == 6
    ensures Message(mac, DiscoverOptions(mac))[240..] == [53, 1, 1] + [55, 3, 1, 3, 6] + [61, 7, 1] + mac + [255]
  {
    hide Message;
    HeadBytes(mac, DiscoverOptions(mac));
    TailBytes(mac);
    var a := DhcpOption(53, [1]);
    assert DiscoverOptions(mac)[1..] == TailOptions(mac);
    assert Encode(DiscoverOptions(mac)) == EncodeOne(a) + Encode(TailOptions(mac));
    assert EncodeOne(a) == [53, 1, 1];
  }

  lemma RequestInBytes(mac: seq<u8>, ip: seq<u8>)
    requires |mac| == 6 && |ip| == 4
    ensures Message(mac, RequestOptions(mac, ip))[240..]
      == [53, 1, 3] + [50, 4] + ip + [55, 3, 1, 3, 6] + [61, 7, 1] + mac + [255]
  {
    hide Message;
    HeadBytes(mac, RequestOptions(mac, ip));
    TailBytes(mac);
    var a, b := DhcpOption(53, [3]), DhcpOption(50, ip);
    var rest := RequestOptions(mac, ip)[1..];
    assert rest[1..] == TailOptions(mac);
    assert Encode(rest) == EncodeOne(b) + Encode(TailOptions(mac));
    assert Encode(RequestOptions(mac, ip)) == EncodeOne(a) + Encode(rest);
    assert EncodeOne(a) == [53, 1, 3] && EncodeOne(b) == [50, 4] + ip;
  }

  // ----- what an offer has to say -----

  /** An offer is accepted exactly when every message type in it is 2. */
  lemma {:induction false} AcceptedMeans(os: seq<DhcpOption>, server: seq<u8>)
    requires AllReadable(os)
    ensures Judge(os, server).accepted <==> forall i :: 0 <= i < |os| && os[i].code == 53 ==> os[i].data[0] == 2
  {
    if os != [] {
      var rest := os[1..];
      AcceptedMeans(rest, if os[0].code == 54 then os[0].data[..4] else server);
      assert forall i :: 0 <= i < |rest| ==> rest[i] == os[i + 1];
      assert forall i :: 0 < i < |os| ==> os[i] == rest[i - 1];
    }
  }

  lemma {:induction false} ServerKept(os: seq<DhcpOption>, server: seq<u8>)
    requires AllReadable(os) && forall i :: 0 <= i < |os| ==> os[i].code != 54
    ensures Judge(os, server).server == server
  {
    if os != [] {
      ServerKept(os[1..], server);
    }
  }

  /** The server identifier of an accepted offer is its last one. */
  lemma {:induction false} LastServerCounts(os: seq<DhcpOption>, server: seq<u8>, k: nat)
    requires AllReadable(os) && Judge(os, server).accepted
    requires k < |os| && os[k].code == 54 && forall i :: k < i < |os| ==> os[i].code != 54
    ensures Judge(os, server).server == os[k].data[..4]
  {
    if k == 0 {
      ServerKept(os[1..], os[0].data[..4]);
    } else {
      LastServerCounts(os[1..], if os[0].code == 54 then os[0].data[..4] else server, k - 1);
    }
  }
}
