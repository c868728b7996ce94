/**
  What the decoders accept: exactly the frames, packets and segments somebody could have built, and none whose checksum a
  changed word has spoilt.
*/
module PacketChecks {
  import opened Octets
  import opened Checksum
  import opened Packets

  lemma Rewritten(s: Bytes, i: nat)
    requires i + 2 <= |s|
    ensures s[i..i + 2] == Put16(Get16(s, i))
  {
  }

  lemma Rewritten32(s: Bytes, i: nat)
    requires i + 4 <= |s|
    ensures s[i..i + 4] == Put32(Get32(s, i))
  {
    Rewritten(s, i);
    Rewritten(s, i + 2);
    assert s[i..i + 4] == s[i..i + 2] + s[i + 2..i + 4];
  }

  // ---------------------------------------------------------------- Ethernet

  /** A frame is accepted exactly when it is one that may be built, by a station that is not a group. */
  lemma EthernetAccepts(data: Bytes, f: Frame)
    ensures EthernetDecode(data) == Some(f) <==>
      && EthernetOk(14 + |f.payload|, f.source, f.destination, f.kind, f.payload)
      && data == EthernetFrame(f.source, f.destination, f.kind, f.payload)
  {
    if EthernetDecode(data) == Some(f) {
      Rewritten(data, 12);
      assert |data[6..12]| == 6;
      assert data == data[..6] + data[6..12] + data[12..14] + data[14..];
    }
    if EthernetOk(14 + |f.payload|, f.source, f.destination, f.kind, f.payload) && data == EthernetFrame(f.source, f.destination, f.kind, f.payload) {
      EthernetRoundTrip(f.source, f.destination, f.kind, f.payload, []);
      assert data + [] == data && f.payload + [] == f.payload;
    }
  }

  // ---------------------------------------------------------------- IPv4

  /** The parts of a header that vary from sender to sender. */
  datatype Style = Style(service: Octet, id: nat, whole: bool, hops: Octet, sum: nat)

  predicate StyleOk(t: Style) { t.id <= ONES && t.hops != 0 && t.sum <= ONES }

  /** Any header without options of a packet that is not a fragment. */
  function AnyHeader(t: Style, d: Datagram): (h: Bytes)
    requires t.id <= ONES && t.sum <= ONES && |d.payload| <= 1480 && d.source <= UINT32_MAX && d.destination <= UINT32_MAX && d.protocol < 256
    ensures |h| == 20
  {
    [0x45, t.service] + Put16(20 + |d.payload|) + Put16(t.id) + [if t.whole then 0x40 else 0, 0, t.hops, d.protocol]
      + Put16(t.sum) + Put32(d.source) + Put32(d.destination)
  }

  predicate DatagramOk(d: Datagram) { |d.payload| <= 1480 && d.source <= UINT32_MAX && d.destination <= UINT32_MAX && d.protocol < 256 }

  lemma AnyFields(t: Style, d: Datagram, pad: Bytes)
    requires StyleOk(t) && DatagramOk(d)
    ensures var data := AnyHeader(t, d) + d.payload + pad;
      && data[0] == 0x45 && Get16(data, 2) == 20 + |d.payload| && data[8] == t.hops && data[9] == d.protocol
      && Get16(data, 6) == (if t.whole then 0x4000 else 0) && Get32(data, 12) == d.source && Get32(data, 16) == d.destination
      && data[..20] == AnyHeader(t, d) && data[20..20 + |d.payload|] == d.payload
  {
    var h := AnyHeader(t, d);
    var data := h + d.payload + pad;
    var n := Put16(20 + |d.payload|);
    Words32(d.source);
    Words32(d.destination);
    assert h[2] == n[0] && h[3] == n[1];
    assert forall k | 0 <= k < 4 :: h[12 + k] == Put32(d.source)[k] && h[16 + k] == Put32(d.destination)[k];
    assert forall k | 0 <= k < 20 :: data[k] == h[k];
  }

  /** Every packet with a good checksum, hops left and no fragmentation is accepted, with whatever padding behind it. */
  lemma Ipv4Accepts(t: Style, d: Datagram, pad: Bytes)
    requires StyleOk(t) && DatagramOk(d) && InternetChecksum(AnyHeader(t, d)) == 0
    ensures Ipv4Decode(AnyHeader(t, d) + d.payload + pad) == Some(d)
  {
    hide InternetChecksum, AnyHeader;
    AnyFields(t, d, pad);
  }

  lemma HeaderSplits(h: Bytes)
    requires |h| == 20
    ensures h == h[..2] + h[2..4] + h[4..6] + h[6..10] + h[10..12] + h[12..16] + h[16..20]
  {
  }

  /** Twenty bytes are the header of what they say. */
  lemma HeaderSays(h: Bytes, t: Style, d: Datagram)
    requires |h| == 20 && StyleOk(t) && DatagramOk(d) && h[0] == 0x45 && h[1] == t.service && Get16(h, 2) == 20 + |d.payload| && Get16(h, 4) == t.id
    requires h[6] == (if t.whole then 0x40 else 0) && h[7] == 0 && h[8] == t.hops && h[9] == d.protocol && Get16(h, 10) == t.sum
    requires Get32(h, 12) == d.source && Get32(h, 16) == d.destination
    ensures h == AnyHeader(t, d)
  {
    hide Get32, Put32;
    HeaderSplits(h);
    Rewritten(h, 2);
    Rewritten(h, 4);
    Rewritten(h, 10);
    Rewritten32(h, 12);
    Rewritten32(h, 16);
    assert h[..2] == [0x45, t.service];
    assert h[6..10] == [if t.whole then 0x40 else 0, 0, t.hops, d.protocol];
  }

  /** And nothing else is. */
  lemma Ipv4OnlyAccepts(data: Bytes) returns (t: Style, pad: Bytes)
    requires Ipv4Decode(data).Some?
    ensures var d := Ipv4Decode(data).value;
      StyleOk(t) && DatagramOk(d) && InternetChecksum(AnyHeader(t, d)) == 0 && data == AnyHeader(t, d) + d.payload + pad
  {
    hide InternetChecksum, AnyHeader;
    var d, total := Ipv4Decode(data).value, Get16(data, 2);
    t := Style(data[1], Get16(data, 4), Get16(data, 6) == 0x4000, data[8], Get16(data, 10));
    pad := data[total..];
    var h := data[..20];
    assert forall k | 0 <= k < 20 :: h[k] == data[k];
    HeaderSays(h, t, d);
    assert data == h + data[20..total] + pad;
  }

  /** The packet with word `k` of its header replaced. */
  function Garbled(data: Bytes, i: nat, w: nat): Bytes
    requires i + 2 <= |data| && w <= ONES
  {
    data[..i] + Put16(w) + data[i + 2..]
  }

  /** Changing any one word of an accepted header makes the packet unacceptable, unless zero and all ones were exchanged. */
  lemma Ipv4Garbled(data: Bytes, i: nat, w: nat)
    requires Ipv4Decode(data).Some? && i % 2 == 0 && i + 2 <= 20 && w <= ONES && w != Get16(data, i) && {Get16(data, i), w} != {0, ONES}
    ensures Ipv4Decode(Garbled(data, i, w)) == None
  {
    hide InternetChecksum;
    SumSpoilt(data[..20], i, w);
    assert Get16(data[..20], i) == Get16(data, i);
    assert Garbled(data, i, w)[..20] == Garbled(data[..20], i, w);
  }

  lemma SumSpoilt(s: Bytes, i: nat, w: nat)
    requires i % 2 == 0 && i + 2 <= |s| && w <= ONES && w != Get16(s, i) && {Get16(s, i), w} != {0, ONES} && InternetChecksum(s) == 0
    ensures InternetChecksum(Garbled(s, i, w)) != 0
  {
    hide InternetChecksum;
    var z := Garbled(s, i, 0);
    Rewritten(s, i);
    assert Put16(0) == [0, 0];
    assert z[i] == 0 && z[i + 1] == 0;
    assert s == z[..i] + Put16(Get16(s, i)) + z[i + 2..];
    assert Garbled(s, i, w) == z[..i] + Put16(w) + z[i + 2..];
    WordErrorDetected(z, i, Get16(s, i), w);
  }

  // ---------------------------------------------------------------- UDP

  ghost predicate UdpGood(ip: Datagram, g: Segment, sum: nat)
    requires ip.source <= UINT32_MAX && ip.destination <= UINT32_MAX
  {
    && ip.protocol == UDP && |g.payload| <= 1472 && 0 < g.source <= ONES && 0 < g.destination <= ONES && sum <= ONES
    && ip.payload == UdpHeader(g.source, g.destination, 8 + |g.payload|, sum) + g.payload
    && (sum == 0 || InternetChecksum(Pseudo(ip.source, ip.destination, 8 + |g.payload|) + ip.payload) == 0)
  }

  /** A segment is accepted exactly when both ports are given, the length is the packet's, and the checksum is right or left out. */
  lemma UdpAccepts(ip: Datagram, g: Segment)
    requires ip.source <= UINT32_MAX && ip.destination <= UINT32_MAX
    ensures UdpDecode(ip) == Some(g) <==> exists sum :: UdpGood(ip, g, sum)
  {
    hide InternetChecksum, Pseudo;
    var p := ip.payload;
    if UdpDecode(ip) == Some(g) {
      Rewritten(p, 0);
      Rewritten(p, 2);
      Rewritten(p, 4);
      Rewritten(p, 6);
      assert p == p[0..2] + p[2..4] + p[4..6] + p[6..8] + p[8..];
      assert UdpGood(ip, g, Get16(p, 6));
    }
    if sum :| UdpGood(ip, g, sum) {
      UdpFields(g.source, g.destination, 8 + |g.payload|, sum, g.payload);
    }
  }

  /** In a segment sent with a checksum, changing any one word but the checksum itself is noticed. */
  lemma UdpGarbled(ip: Datagram, i: nat, w: nat)
    requires ip.source <= UINT32_MAX && ip.destination <= UINT32_MAX && UdpDecode(ip).Some? && Get16(ip.payload, 6) != 0
    requires i % 2 == 0 && i != 6 && i + 2 <= |ip.payload| && w <= ONES && w != Get16(ip.payload, i) && {Get16(ip.payload, i), w} != {0, ONES}
    ensures UdpDecode(ip.(payload := Garbled(ip.payload, i, w))) == None
  {
    hide InternetChecksum, Pseudo;
    var p, q := ip.payload, Garbled(ip.payload, i, w);
    var pseudo := Pseudo(ip.source, ip.destination, |p|);
    var s := pseudo + p;
    assert Get16(s, 12 + i) == Get16(p, i);
    SumSpoilt(s, 12 + i, w);
    assert Garbled(s, 12 + i, w) == pseudo + q;
    assert |q| == |p| && Get16(q, 6) == Get16(p, 6);
  }
}
