/** Ethernet / VLAN / IPv4 / UDP unwrapping in front of the feed. */
module UdpPackets {
  import opened Basics
  import opened MoldUdp64

  predicate IsVlan(etherType: U16) {
    etherType == 0x8100 || etherType == 0x88a8
  }

  /** `extract_udp_payload`: the offset and length of the UDP payload. */
  function ExtractUdpPayload(packet: Bytes): Option<(nat, nat)> {
    if |packet| < 14 then None
    else
      var outer := ReadBe16(packet, 12);
      if IsVlan(outer) then
        if |packet| < 18 then None else ExtractIpv4(packet, 18, ReadBe16(packet, 16))
      else ExtractIpv4(packet, 14, outer)
  }

  /** The rest of it, from the end of the Ethernet header. */
  function ExtractIpv4(packet: Bytes, offset: nat, etherType: U16): Option<(nat, nat)> {
    if etherType != 0x0800 || |packet| < offset + 20 then None
    else
      var ihl := packet[offset] % 16;
      var ipHeaderLen := ihl as nat * 4;
      if packet[offset] / 16 != 4 || ihl < 5 || |packet| < offset + ipHeaderLen + 8 then None
      else if packet[offset + 9] != 17 then None
      else
        var udpOffset := offset + ipHeaderLen;
        var udpLen := ReadBe16(packet, udpOffset + 4);
        if udpLen < 8 || |packet| < udpOffset + 8 + (udpLen - 8) then None
        else Some((udpOffset + 8, udpLen - 8))
  }

  /** `udp_dst_port`: read straight from the raw packet. */
  function UdpDstPort(packet: Bytes): U16 {
    if |packet| < 14 + 20 + 4 then 0
    else
      var off := if IsVlan(ReadBe16(packet, 12)) then 18 else 14;
      var udpOff := off + (packet[off] % 16) as nat * 4;
      if |packet| < udpOff + 4 then 0 else ReadBe16(packet, udpOff + 2)
  }

  // ---------- the packets that carry a payload

  datatype Tag = Tag(tpid: U16, tci: Bytes)

  /** A UDP datagram in IPv4 in Ethernet, at most one VLAN tag, anything after the datagram. */
  datatype Packet = Packet(
    macs: Bytes, tag: Option<Tag>, ip: Bytes, ports: Bytes, checksum: Bytes, payload: Bytes, trailer: Bytes)

  /** The fields have their lengths: an IPv4 header of version 4 whose IHL gives its length (section
      3.1 of RFC 791) and whose protocol is UDP, and a UDP length that fits sixteen bits (RFC 768). */
  predicate Legal(p: Packet) {
    && |p.macs| == 12
    && (p.tag.Some? ==> (p.tag.value.tpid == 0x8100 || p.tag.value.tpid == 0x88a8) && |p.tag.value.tci| == 2)
    && |p.ip| >= 20 && p.ip[0] / 16 == 4 && |p.ip| == (p.ip[0] % 16) as nat * 4 && p.ip[9] == 17
    && |p.ports| == 4 && |p.checksum| == 2 && |p.payload| + 8 < 0x1_0000
  }

  function EthernetHeader(p: Packet): Bytes {
    p.macs + (match p.tag case None => [] case Some(tag) => Be16(tag.tpid) + tag.tci) + Be16(0x0800)
  }

  function Encode(p: Packet): Bytes
    requires |p.payload| + 8 < 0x1_0000
  {
    EthernetHeader(p) + p.ip + p.ports + Be16(|p.payload| + 8) + p.checksum + p.payload + p.trailer
  }

  function PayloadOffset(p: Packet): nat {
    |EthernetHeader(p)| + |p.ip| + 8
  }

  // ---------- every legal packet is unwrapped to its payload

  lemma ByteAt(q: Bytes, off: nat, data: Bytes, k: nat)
    requires StartsAt(q, off, data) && k < |data|
    ensures q[off + k] == data[k]
  {
    assert q[off..off + |data|][k] == data[k];
  }

  lemma FieldsAt(p: Packet)
    requires Legal(p)
    ensures var q, e, i := Encode(p), |EthernetHeader(p)|, |p.ip|;
            && StartsAt(q, 0, EthernetHeader(p)) && StartsAt(q, e, p.ip) && StartsAt(q, e + i, p.ports)
            && StartsAt(q, e + i + 4, Be16(|p.payload| + 8)) && StartsAt(q, e + i + 8, p.payload)
  {
    var q, e := Encode(p), EthernetHeader(p);
    var a := e + p.ip;
    var b := a + p.ports;
    var c := b + Be16(|p.payload| + 8);
    var d := c + p.checksum;
    assert StartsAt(q, 0, q);
    StartsConcat(q, 0, d + p.payload, p.trailer);
    StartsConcat(q, 0, d, p.payload);
    StartsConcat(q, 0, c, p.checksum);
    StartsConcat(q, 0, b, Be16(|p.payload| + 8));
    StartsConcat(q, 0, a, p.ports);
    StartsConcat(q, 0, e, p.ip);
  }

  /** The Ethernet header says where the IPv4 header starts. */
  lemma EtherTypes(p: Packet, q: Bytes)
    requires Legal(p) && StartsAt(q, 0, EthernetHeader(p))
    ensures |q| >= |EthernetHeader(p)| == if p.tag.None? then 14 else 18
    ensures if p.tag.None? then ReadBe16(q, 12) == 0x0800
            else IsVlan(ReadBe16(q, 12)) && ReadBe16(q, 16) == 0x0800
  {
    match p.tag
    case None =>
      assert EthernetHeader(p) == p.macs + Be16(0x0800);
      StartsConcat(q, 0, p.macs, Be16(0x0800));
      StartsBe16(q, 12, 0x0800);
    case Some(tag) =>
      assert EthernetHeader(p) == p.macs + Be16(tag.tpid) + (tag.tci + Be16(0x0800));
      StartsTriple(q, 0, p.macs, Be16(tag.tpid), tag.tci + Be16(0x0800));
      StartsConcat(q, 14, tag.tci, Be16(0x0800));
      StartsBe16(q, 12, tag.tpid);
      StartsBe16(q, 16, 0x0800);
  }

  lemma ExtractEncoded(p: Packet)
    requires Legal(p)
    ensures ExtractUdpPayload(Encode(p)) == Some((PayloadOffset(p), |p.payload|))
    ensures StartsAt(Encode(p), PayloadOffset(p), p.payload)
  {
    var q, e, i := Encode(p), |EthernetHeader(p)|, |p.ip|;
    FieldsAt(p);
    EtherTypes(p, q);
    ByteAt(q, e, p.ip, 0);
    ByteAt(q, e, p.ip, 9);
    StartsBe16(q, e + i + 4, |p.payload| + 8);
    assert ExtractIpv4(q, e, 0x0800) == Some((PayloadOffset(p), |p.payload|));
  }

  // ---------- and nothing else is

  lemma Be16OfRead(q: Bytes, off: nat)
    requires off + 2 <= |q|
    ensures Be16(ReadBe16(q, off)) == q[off..off + 2]
  {
  }

  /** The fields of a packet whose payload has been found. */
  function DecodePacket(q: Bytes): Packet
    requires ExtractUdpPayload(q).Some?
  {
    var (off, len) := ExtractUdpPayload(q).value;
    var e := if IsVlan(ReadBe16(q, 12)) then 18 else 14;
    Packet(q[..12], if e == 18 then Some(Tag(ReadBe16(q, 12), q[14..16])) else None,
           q[e..off - 8], q[off - 8..off - 4], q[off - 2..off], q[off..off + len], q[off + len..])
  }

  /** The bounds the checks establish. */
  lemma ExtractInBounds(q: Bytes)
    requires ExtractUdpPayload(q).Some?
    ensures var (off, len) := ExtractUdpPayload(q).value;
            var e := if IsVlan(ReadBe16(q, 12)) then 18 else 14;
            && e + 28 <= off <= off + len <= |q| && ReadBe16(q, off - 4) == len + 8
            && off - 8 - e == (q[e] % 16) as nat * 4 && q[e] / 16 == 4 && q[e + 9] == 17
            && ReadBe16(q, e - 2) == 0x0800
  {
  }

  lemma DecodeIsLegal(q: Bytes)
    requires ExtractUdpPayload(q).Some?
    ensures Legal(DecodePacket(q)) && ExtractUdpPayload(q).value == (PayloadOffset(DecodePacket(q)), |DecodePacket(q).payload|)
  {
    ExtractInBounds(q);
  }

  lemma HeaderOfDecoded(q: Bytes)
    requires ExtractUdpPayload(q).Some?
    ensures EthernetHeader(DecodePacket(q)) == q[..if IsVlan(ReadBe16(q, 12)) then 18 else 14]
  {
    ExtractInBounds(q);
    var e := if IsVlan(ReadBe16(q, 12)) then 18 else 14;
    Be16OfRead(q, 12);
    Be16OfRead(q, e - 2);
  }

  lemma PrefixGrows(q: Bytes, i: nat, j: nat)
    requires i <= j <= |q|
    ensures q[..i] + q[i..j] == q[..j]
  {
  }

  lemma JoinSlices(q: Bytes, e: nat, off: nat, end: nat)
    requires e + 8 <= off <= end <= |q|
    ensures q[..e] + q[e..off - 8] + q[off - 8..off - 4] + q[off - 4..off - 2] + q[off - 2..off] + q[off..end] + q[end..] == q
  {
    PrefixGrows(q, e, off - 8);
    PrefixGrows(q, off - 8, off - 4);
    PrefixGrows(q, off - 4, off - 2);
    PrefixGrows(q, off - 2, off);
    PrefixGrows(q, off, end);
    PrefixGrows(q, end, |q|);
  }

  lemma EncodeDecoded(q: Bytes)
    requires ExtractUdpPayload(q).Some?
    ensures |DecodePacket(q).payload| + 8 < 0x1_0000 && Encode(DecodePacket(q)) == q
  {
    ExtractInBounds(q);
    HeaderOfDecoded(q);
    var (off, len) := ExtractUdpPayload(q).value;
    var e := if IsVlan(ReadBe16(q, 12)) then 18 else 14;
    Be16OfRead(q, off - 4);
    JoinFields(DecodePacket(q), q, e, off, off + len);
  }

  /** The fields of a packet, found as consecutive slices of the bytes, make up the bytes. */
  lemma JoinFields(p: Packet, q: Bytes, e: nat, off: nat, end: nat)
    requires e + 8 <= off <= end <= |q| && |p.payload| + 8 < 0x1_0000
    requires EthernetHeader(p) == q[..e] && p.ip == q[e..off - 8] && p.ports == q[off - 8..off - 4]
    requires Be16(|p.payload| + 8) == q[off - 4..off - 2] && p.checksum == q[off - 2..off]
    requires p.payload == q[off..end] && p.trailer == q[end..]
    ensures Encode(p) == q
  {
    hide EthernetHeader, Be16;
    JoinSlices(q, e, off, end);
  }

  /** The unwrapping accepts exactly the encodings of legal packets, and then finds their payload. */
  lemma ExtractExactly(q: Bytes, off: nat, len: nat)
    ensures ExtractUdpPayload(q) == Some((off, len))
       <==> exists p :: Legal(p) && Encode(p) == q && PayloadOffset(p) == off && |p.payload| == len
  {
    if ExtractUdpPayload(q) == Some((off, len)) {
      DecodeIsLegal(q);
      EncodeDecoded(q);
    }
    if p :| Legal(p) && Encode(p) == q && PayloadOffset(p) == off && |p.payload| == len {
      ExtractEncoded(p);
    }
  }

  /** For every packet whose payload is found, the port filter reads the two bytes of the UDP
      destination port, six bytes before the payload. */
  lemma PortOfExtracted(q: Bytes)
    requires ExtractUdpPayload(q).Some?
    ensures ExtractUdpPayload(q).value.0 >= 6
    ensures UdpDstPort(q) == ReadBe16(q, ExtractUdpPayload(q).value.0 - 6)
  {
    ExtractInBounds(q);
  }

  // ---------- end to end

  /** Whatever the sender frames, carried in any legal packet, is what the parser sees: exactly the
      sender's messages when none is empty. */
  lemma EndToEnd(seqNo: int, messages: seq<Bytes>, p: Packet)
    requires Legal(p) && BuildFrame(seqNo, messages) == Some(p.payload) && AllNonEmpty(messages)
    ensures var q := Encode(p);
            && ExtractUdpPayload(q).Some?
            && var (off, len) := ExtractUdpPayload(q).value;
               off + len <= |q| && q[off..off + len] == p.payload && Parse(q[off..off + len]) == messages
               && UdpDstPort(q) == ReadBe16(p.ports, 2)
  {
    hide Encode, Parse, BuildFrame, ExtractUdpPayload, UdpDstPort, AllNonEmpty, ReadBe16;
    ExtractEncoded(p);
    RoundTripIff(seqNo, messages);
    PortOfExtracted(Encode(p));
    PortField(p);
  }

  lemma PortField(p: Packet)
    requires Legal(p)
    ensures PayloadOffset(p) - 4 <= |Encode(p)| && ReadBe16(Encode(p), PayloadOffset(p) - 6) == ReadBe16(p.ports, 2)
  {
    FieldsAt(p);
    var at := |EthernetHeader(p)| + |p.ip|;
    ByteAt(Encode(p), at, p.ports, 2);
    ByteAt(Encode(p), at, p.ports, 3);
  }
}
