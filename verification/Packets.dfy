/**
  The Ethernet, IPv4 and UDP codecs of kernel/net/ethernet.c, ipv4.c and udp.c. Builders write a caller's buffer in place;
  decoders check a received frame and view its payload. Decoding undoes building, through any trailing padding.
*/
module Packets {
  import opened Octets
  import opened Checksum

  const FRAME_MAX: nat := 1514
  const UINT32_MAX: nat := 0xFFFF_FFFF
  const UDP: nat := 17

  datatype Frame = Frame(destination: Bytes, source: Bytes, kind: nat, payload: Bytes)
  datatype Datagram = Datagram(source: nat, destination: nat, protocol: nat, payload: Bytes)
  datatype Segment = Segment(source: nat, destination: nat, payload: Bytes)

  function Get32(s: Bytes, i: nat): (v: nat)
    requires i + 4 <= |s|
    ensures v <= UINT32_MAX
  {
    65536 * Get16(s, i) + Get16(s, i + 2)
  }

  function Put32(v: nat): (s: Bytes)
    requires v <= UINT32_MAX
    ensures |s| == 4
  {
    Put16(v / 65536) + Put16(v % 65536)
  }

  lemma Words32(v: nat)
    requires v <= UINT32_MAX
    ensures Get32(Put32(v), 0) == v
  {
    var s := Put32(v);
    assert s[0] == Put16(v / 65536)[0] && s[1] == Put16(v / 65536)[1] && s[2] == Put16(v % 65536)[0] && s[3] == Put16(v % 65536)[1];
  }

  // ---------------------------------------------------------------- checks

  predicate IpUnicast(ip: nat) { var first := ip / 0x100_0000; first != 0 && first != 127 && first < 224 }

  /** Not multicast and not all zero. */
  predicate MacUnicast(mac: Bytes) { |mac| == 6 && mac[0] % 2 == 0 && exists i | 0 <= i < 6 :: mac[i] != 0 }

  predicate EthernetOk(capacity: nat, source: Bytes, destination: Bytes, kind: nat, payload: Bytes) {
    MacUnicast(source) && |destination| == 6 && kind <= ONES && |payload| <= 1500 && |payload| + 14 <= capacity
  }

  predicate Ipv4Ok(capacity: nat, source: nat, destination: nat, protocol: nat, id: nat, payload: Bytes) {
    && |payload| <= 1480 && 20 + |payload| <= capacity && source <= UINT32_MAX && destination <= UINT32_MAX && protocol < 256 && id <= ONES
    && (source == 0 || IpUnicast(source)) && (IpUnicast(destination) || destination == UINT32_MAX)
  }

  predicate UdpOk(capacity: nat, sourceIp: nat, destinationIp: nat, source: nat, destination: nat, payload: Bytes) {
    && |payload| <= 1472 && |payload| + 8 <= capacity && sourceIp <= UINT32_MAX && destinationIp <= UINT32_MAX
    && 0 < source <= ONES && 0 < destination <= ONES
  }

  // ---------------------------------------------------------------- the packets

  function EthernetFrame(source: Bytes, destination: Bytes, kind: nat, payload: Bytes): Bytes
    requires |source| == 6 && |destination| == 6 && kind <= ONES
  {
    destination + source + Put16(kind) + payload
  }

  /** A header without options: version 4, five words, don't-fragment, time to live 64. */
  function Ipv4Header(source: nat, destination: nat, protocol: nat, id: nat, total: nat, sum: nat): (h: Bytes)
    requires source <= UINT32_MAX && destination <= UINT32_MAX && protocol < 256 && id <= ONES && total <= ONES && sum <= ONES
    ensures |h| == 20
  {
    [0x45, 0] + Put16(total) + Put16(id) + [0x40, 0, 64, protocol] + Put16(sum) + Put32(source) + Put32(destination)
  }

  ghost function Ipv4Packet(source: nat, destination: nat, protocol: nat, id: nat, payload: Bytes): Bytes
    requires source <= UINT32_MAX && destination <= UINT32_MAX && protocol < 256 && id <= ONES && |payload| <= 1480
  {
    var total := 20 + |payload|;
    Ipv4Header(source, destination, protocol, id, total, InternetChecksum(Ipv4Header(source, destination, protocol, id, total, 0))) + payload
  }

  function UdpHeader(source: nat, destination: nat, length: nat, sum: nat): (h: Bytes)
    requires source <= ONES && destination <= ONES && length <= ONES && sum <= ONES
    ensures |h| == 8
  {
    Put16(source) + Put16(destination) + Put16(length) + Put16(sum)
  }

  function Pseudo(source: nat, destination: nat, length: nat): (h: Bytes)
    requires source <= UINT32_MAX && destination <= UINT32_MAX && length <= ONES
    ensures |h| == 12
  {
    Put32(source) + Put32(destination) + [0, 17] + Put16(length)
  }

  /** A computed checksum of zero is sent as all ones, because zero means "none" (RFC 768). */
  function SentSum(sum: nat): (r: nat)
    requires sum <= ONES
    ensures r <= ONES && r != 0 && (r == sum || (sum == 0 && r == ONES))
  {
    if sum == 0 then ONES else sum
  }

  ghost function UdpSegment(sourceIp: nat, destinationIp: nat, source: nat, destination: nat, payload: Bytes): Bytes
    requires sourceIp <= UINT32_MAX && destinationIp <= UINT32_MAX && source <= ONES && destination <= ONES && |payload| <= 1472
  {
    var length := 8 + |payload|;
    var sum := InternetChecksum(Pseudo(sourceIp, destinationIp, length) + (UdpHeader(source, destination, length, 0) + payload));
    UdpHeader(source, destination, length, SentSum(sum)) + payload
  }

  // ---------------------------------------------------------------- decoding

  function EthernetDecode(data: Bytes): Option<Frame> {
    if |data| < 14 || |data| > FRAME_MAX || !MacUnicast(data[6..12]) then None
    else Some(Frame(data[..6], data[6..12], Get16(data, 12), data[14..]))
  }

  ghost function Ipv4Decode(data: Bytes): Option<Datagram> {
    if |data| < 20 then None
    else
      var header, total := data[0] % 16 * 4, Get16(data, 2);
      if data[0] / 16 != 4 || header != 20 || total < header || total > |data| || total > 1500 || data[8] == 0
         || (Get16(data, 6) != 0 && Get16(data, 6) != 0x4000) || InternetChecksum(data[..20]) != 0
      then None
      else Some(Datagram(Get32(data, 12), Get32(data, 16), data[9], data[20..total]))
  }

  ghost function UdpDecode(ip: Datagram): Option<Segment>
    requires ip.source <= UINT32_MAX && ip.destination <= UINT32_MAX
  {
    var p := ip.payload;
    if ip.protocol != UDP || |p| < 8 || |p| > 1480 || Get16(p, 4) != |p| || Get16(p, 0) == 0 || Get16(p, 2) == 0
       || (Get16(p, 6) != 0 && InternetChecksum(Pseudo(ip.source, ip.destination, |p|) + p) != 0)
    then None
    else Some(Segment(Get16(p, 0), Get16(p, 2), p[8..]))
  }

  // ---------------------------------------------------------------- decoding undoes building

  lemma EthernetRoundTrip(source: Bytes, destination: Bytes, kind: nat, payload: Bytes, pad: Bytes)
    requires EthernetOk(14 + |payload|, source, destination, kind, payload) && 14 + |payload| + |pad| <= FRAME_MAX
    ensures EthernetDecode(EthernetFrame(source, destination, kind, payload) + pad) == Some(Frame(destination, source, kind, payload + pad))
  {
    var data := EthernetFrame(source, destination, kind, payload) + pad;
    assert data[6..12] == source && data[..6] == destination && data[14..] == payload + pad;
    assert data[12] == Put16(kind)[0] && data[13] == Put16(kind)[1];
  }

  /** The checksum field is bytes 10 and 11 of the header. */
  lemma HeaderSum(source: nat, destination: nat, protocol: nat, id: nat, total: nat, sum: nat)
    requires source <= UINT32_MAX && destination <= UINT32_MAX && protocol < 256 && id <= ONES && total <= ONES && sum <= ONES
    ensures var z := Ipv4Header(source, destination, protocol, id, total, 0);
      z[10] == 0 && z[11] == 0 && Ipv4Header(source, destination, protocol, id, total, sum) == z[..10] + Put16(sum) + z[12..]
  {
  }

  lemma HeaderFields(source: nat, destination: nat, protocol: nat, id: nat, total: nat, sum: nat, rest: Bytes)
    requires source <= UINT32_MAX && destination <= UINT32_MAX && protocol < 256 && id <= ONES && total <= ONES && sum <= ONES
    ensures var data := Ipv4Header(source, destination, protocol, id, total, sum) + rest;
      && data[0] == 0x45 && Get16(data, 2) == total && data[8] == 64 && data[9] == protocol && Get16(data, 6) == 0x4000
      && Get32(data, 12) == source && Get32(data, 16) == destination && data[..20] == Ipv4Header(source, destination, protocol, id, total, sum)
  {
    var h := Ipv4Header(source, destination, protocol, id, total, sum);
    var data := h + rest;
    Words32(source);
    Words32(destination);
    assert h[2] == Put16(total)[0] && h[3] == Put16(total)[1] && h[6] == 0x40 && h[7] == 0 && h[8] == 64 && h[9] == protocol;
    assert forall k | 0 <= k < 4 :: h[12 + k] == Put32(source)[k] && h[16 + k] == Put32(destination)[k];
  }

  lemma Ipv4RoundTrip(source: nat, destination: nat, protocol: nat, id: nat, payload: Bytes, pad: Bytes)
    requires Ipv4Ok(20 + |payload|, source, destination, protocol, id, payload)
    ensures Ipv4Decode(Ipv4Packet(source, destination, protocol, id, payload) + pad) == Some(Datagram(source, destination, protocol, payload))
  {
    hide Ipv4Header, InternetChecksum;
    var total := 20 + |payload|;
    var z := Ipv4Header(source, destination, protocol, id, total, 0);
    var sum := InternetChecksum(z);
    var h := Ipv4Header(source, destination, protocol, id, total, sum);
    var data := h + payload + pad;
    assert data == h + (payload + pad);
    HeaderSum(source, destination, protocol, id, total, sum);
    Completes(z, 10, sum);
    HeaderFields(source, destination, protocol, id, total, sum, payload + pad);
    assert data[20..total] == payload;
  }

  lemma UdpFields(source: nat, destination: nat, length: nat, sum: nat, rest: Bytes)
    requires source <= ONES && destination <= ONES && length <= ONES && sum <= ONES
    ensures var p := UdpHeader(source, destination, length, sum) + rest;
      Get16(p, 0) == source && Get16(p, 2) == destination && Get16(p, 4) == length && Get16(p, 6) == sum && p[8..] == rest
  {
    var h := UdpHeader(source, destination, length, sum);
    assert h[0] == Put16(source)[0] && h[1] == Put16(source)[1] && h[2] == Put16(destination)[0] && h[3] == Put16(destination)[1];
    assert h[4] == Put16(length)[0] && h[5] == Put16(length)[1] && h[6] == Put16(sum)[0] && h[7] == Put16(sum)[1];
  }

  /** Behind the pseudo header the checksum field is bytes 18 and 19. */
  lemma PseudoSum(pseudo: Bytes, source: nat, destination: nat, length: nat, sum: nat, rest: Bytes)
    requires |pseudo| == 12 && source <= ONES && destination <= ONES && length <= ONES && sum <= ONES
    ensures var z := pseudo + (UdpHeader(source, destination, length, 0) + rest);
      z[18] == 0 && z[19] == 0 && pseudo + (UdpHeader(source, destination, length, sum) + rest) == z[..18] + Put16(sum) + z[20..]
  {
  }

  lemma UdpRoundTrip(sourceIp: nat, destinationIp: nat, source: nat, destination: nat, payload: Bytes)
    requires UdpOk(8 + |payload|, sourceIp, destinationIp, source, destination, payload)
    ensures UdpDecode(Datagram(sourceIp, destinationIp, UDP, UdpSegment(sourceIp, destinationIp, source, destination, payload)))
            == Some(Segment(source, destination, payload))
  {
    hide UdpHeader, Pseudo, InternetChecksum, SentSum;
    var length := 8 + |payload|;
    var pseudo := Pseudo(sourceIp, destinationIp, length);
    var z := pseudo + (UdpHeader(source, destination, length, 0) + payload);
    var sum := InternetChecksum(z);
    PseudoSum(pseudo, source, destination, length, SentSum(sum), payload);
    Completes(z, 18, SentSum(sum));
    UdpFields(source, destination, length, SentSum(sum), payload);
  }

  /** The whole stack: what is sent in a UDP segment comes out again, whatever padding the wire added. */
  lemma StackRoundTrip(sourceMac: Bytes, destinationMac: Bytes, sourceIp: nat, destinationIp: nat, id: nat,
                       source: nat, destination: nat, payload: Bytes, pad: Bytes)
    requires UdpOk(8 + |payload|, sourceIp, destinationIp, source, destination, payload)
    requires MacUnicast(sourceMac) && |destinationMac| == 6 && id <= ONES && 42 + |payload| + |pad| <= FRAME_MAX
    requires (sourceIp == 0 || IpUnicast(sourceIp)) && (IpUnicast(destinationIp) || destinationIp == UINT32_MAX)
    ensures
      var segment := UdpSegment(sourceIp, destinationIp, source, destination, payload);
      var packet := Ipv4Packet(sourceIp, destinationIp, UDP, id, segment);
      var frame := EthernetDecode(EthernetFrame(sourceMac, destinationMac, 0x800, packet) + pad);
      && frame.Some? && frame.value.source == sourceMac && frame.value.destination == destinationMac && frame.value.kind == 0x800
      && var ip := Ipv4Decode(frame.value.payload);
         && ip == Some(Datagram(sourceIp, destinationIp, UDP, segment))
         && UdpDecode(ip.value) == Some(Segment(source, destination, payload))
  {
    hide Ipv4Packet, UdpSegment, EthernetDecode, Ipv4Decode, UdpDecode, EthernetFrame;
    var segment := UdpSegment(sourceIp, destinationIp, source, destination, payload);
    assert |segment| == 8 + |payload| by { SegmentLength(sourceIp, destinationIp, source, destination, payload); }
    var packet := Ipv4Packet(sourceIp, destinationIp, UDP, id, segment);
    assert |packet| == 20 + |segment| by { PacketLength(sourceIp, destinationIp, UDP, id, segment); }
    EthernetRoundTrip(sourceMac, destinationMac, 0x800, packet, pad);
    Ipv4RoundTrip(sourceIp, destinationIp, UDP, id, segment, pad);
    UdpRoundTrip(sourceIp, destinationIp, source, destination, payload);
  }

  lemma SegmentLength(sourceIp: nat, destinationIp: nat, source: nat, destination: nat, payload: Bytes)
    requires sourceIp <= UINT32_MAX && destinationIp <= UINT32_MAX && source <= ONES && destination <= ONES && |payload| <= 1472
    ensures |UdpSegment(sourceIp, destinationIp, source, destination, payload)| == 8 + |payload|
  {
  }

  lemma PacketLength(source: nat, destination: nat, protocol: nat, id: nat, payload: Bytes)
    requires source <= UINT32_MAX && destination <= UINT32_MAX && protocol < 256 && id <= ONES && |payload| <= 1480
    ensures |Ipv4Packet(source, destination, protocol, id, payload)| == 20 + |payload|
  {
  }

  // ---------------------------------------------------------------- building in place

  /** memcpy into the buffer. */
  method Write(out: array<Octet>, at: nat, data: Bytes)
    requires at + |data| <= out.Length
    modifies out
    ensures out[..] == old(out[..at]) + data + old(out[at + |data|..])
  {
    var i := 0;
    while i < |data|
      invariant i <= |data| && out[..] == old(out[..at]) + data[..i] + old(out[at + i..])
    {
      out[at + i] := data[i];
      i := i + 1;
    }
  }

  /** A buffer whose first bytes have been replaced. */
  ghost function Over(before: Bytes, done: Bytes): Bytes
    requires |done| <= |before|
  {
    done + before[|done|..]
  }

  lemma OverNothing(before: Bytes)
    ensures Over(before, []) == before
  {
  }

  lemma OverFrame(before: Bytes, source: Bytes, destination: Bytes, kind: nat, payload: Bytes)
    requires kind <= ONES && |source| == 6 && |destination| == 6 && 14 + |payload| <= |before|
    ensures Over(before, destination + source + Put16(kind) + payload) ==
            EthernetFrame(source, destination, kind, payload) + before[14 + |payload|..]
  {
    hide Put16;
  }

  /** Write the next part behind what is done. */
  method Append(out: array<Octet>, at: nat, part: Bytes, ghost before: Bytes, ghost done: Bytes)
    requires at == |done| && |done| + |part| <= |before| == out.Length && out[..] == Over(before, done)
    modifies out
    ensures out[..] == Over(before, done + part)
  {
    ghost var s := out[..];
    Write(out, at, part);
    assert s[..at] + part + s[at + |part|..] == done + part + before[at + |part|..];
  }

  method EthernetBuild(out: array<Octet>, source: Bytes, destination: Bytes, kind: nat, payload: Bytes) returns (ok: bool, written: nat)
    requires kind <= ONES && |source| == 6 && |destination| == 6
    modifies out
    ensures ok <==> EthernetOk(out.Length, source, destination, kind, payload)
    ensures ok ==> written == 14 + |payload| && out[..] == EthernetFrame(source, destination, kind, payload) + old(out[written..])
    ensures !ok ==> out[..] == old(out[..])
  {
    hide MacUnicast, Put16, Over, EthernetFrame;
    written := 0;
    ok := MacUnicast(source) && |payload| <= 1500 && |payload| + 14 <= out.Length;
    if !ok { return; }
    ghost var before := out[..];
    assert out[..] == Over(before, []) by { OverNothing(before); }
    Append(out, 0, destination, before, []);
    assert [] + destination == destination;
    Append(out, 6, source, before, destination);
    Append(out, 12, Put16(kind), before, destination + source);
    Append(out, 14, payload, before, destination + source + Put16(kind));
    written := 14 + |payload|;
    OverFrame(before, source, destination, kind, payload);
  }

  method Ipv4Build(out: array<Octet>, source: nat, destination: nat, protocol: nat, id: nat, payload: Bytes) returns (ok: bool, written: nat)
    requires source <= UINT32_MAX && destination <= UINT32_MAX && protocol < 256 && id <= ONES
    modifies out
    ensures ok <==> Ipv4Ok(out.Length, source, destination, protocol, id, payload)
    ensures ok ==> written == 20 + |payload| && out[..] == Ipv4Packet(source, destination, protocol, id, payload) + old(out[written..])
    ensures !ok ==> out[..] == old(out[..])
  {
    hide Ipv4Header, InternetChecksum, IpUnicast;
    written := 0;
    ok := Ipv4Ok(out.Length, source, destination, protocol, id, payload);
    if !ok { return; }
    var total := 20 + |payload|;
    Write(out, 0, Ipv4Header(source, destination, protocol, id, total, 0));
    assert out[..20] == Ipv4Header(source, destination, protocol, id, total, 0);
    var sum := NetChecksum(out[..20]);
    HeaderSum(source, destination, protocol, id, total, sum);
    Write(out, 10, Put16(sum));
    assert out[..20] == Ipv4Header(source, destination, protocol, id, total, sum);
    Write(out, 20, payload);
    written := total;
  }

  method UdpBuild(out: array<Octet>, sourceIp: nat, destinationIp: nat, source: nat, destination: nat, payload: Bytes)
    returns (ok: bool, written: nat)
    requires sourceIp <= UINT32_MAX && destinationIp <= UINT32_MAX && source <= ONES && destination <= ONES
    modifies out
    ensures ok <==> UdpOk(out.Length, sourceIp, destinationIp, source, destination, payload)
    ensures ok ==> written == 8 + |payload| && out[..] == UdpSegment(sourceIp, destinationIp, source, destination, payload) + old(out[written..])
    ensures !ok ==> out[..] == old(out[..])
  {
    hide UdpHeader, InternetChecksum, Pseudo, SentSum;
    written := 0;
    ok := UdpOk(out.Length, sourceIp, destinationIp, source, destination, payload);
    if !ok { return; }
    var length := 8 + |payload|;
    var blank := UdpHeader(source, destination, length, 0);
    Write(out, 0, blank);
    Write(out, 8, payload);
    assert out[..length] == blank + payload;
    var sum := NetChecksum(Pseudo(sourceIp, destinationIp, length) + out[..length]);
    UdpSum(source, destination, length, SentSum(sum), payload);
    Write(out, 6, Put16(SentSum(sum)));
    assert out[..length] == UdpHeader(source, destination, length, SentSum(sum)) + payload;
    written := length;
  }

  lemma UdpSum(source: nat, destination: nat, length: nat, sum: nat, rest: Bytes)
    requires source <= ONES && destination <= ONES && length <= ONES && sum <= ONES
    ensures var z := UdpHeader(source, destination, length, 0) + rest;
      UdpHeader(source, destination, length, sum) + rest == z[..6] + Put16(sum) + z[8..]
  {
  }

  // ---------------------------------------------------------------- receiving

  method Ipv4Receive(data: Bytes) returns (r: Option<Datagram>)
    ensures r == Ipv4Decode(data)
  {
    hide InternetChecksum;
    if |data| < 20 { return None; }
    var header, total := data[0] % 16 * 4, Get16(data, 2);
    var sum := NetChecksum(data[..20]);
    if data[0] / 16 != 4 || header != 20 || header > |data| || total < header || total > |data| || total > 1500 || data[8] == 0
       || (Get16(data, 6) != 0 && Get16(data, 6) != 0x4000) || sum != 0 {
      return None;
    }
    r := Some(Datagram(Get32(data, 12), Get32(data, 16), data[9], data[header..total]));
  }

  method UdpReceive(ip: Datagram) returns (r: Option<Segment>)
    requires ip.source <= UINT32_MAX && ip.destination <= UINT32_MAX
    ensures r == UdpDecode(ip)
  {
    hide InternetChecksum, Pseudo;
    var p := ip.payload;
    if ip.protocol != UDP || |p| < 8 || |p| > 1480 { return None; }
    if Get16(p, 4) != |p| || Get16(p, 0) == 0 || Get16(p, 2) == 0 { return None; }
    if Get16(p, 6) != 0 {
      var sum := NetChecksum(Pseudo(ip.source, ip.destination, |p|) + p);
      if sum != 0 { return None; }
    }
    r := Some(Segment(Get16(p, 0), Get16(p, 2), p[8..]));
  }
}
