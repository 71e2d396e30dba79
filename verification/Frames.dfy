/** Layout of Ethernet, IPv4 and UDP headers (section 3.1 of RFC 791, RFC 768), and what it
    means for a frame to carry valid checksums. */
module Frames {
  import opened Bytes
  import opened OnesComplement

  const ETX_ETH_HEADER_LEN := 14
  const ETX_ETH_ETHER_TYPE_OFFSET := 12
  const ETX_IP_HEADER_LEN := 20
  const ETX_IP_IHL_OFFSET := 14
  const ETX_IP_FLAG_FRAGOFFS_OFFSET := 20
  const ETX_IP_PROTO_OFFSET := 23
  const ETX_IP_CHECKSUM_OFFSET := 24
  const ETX_IP_SIP_OFFSET := 26
  const ETX_IP_DIP_OFFSET := 30
  const ETX_UDP_HEADER_OFFSET := 34
  const ETX_UDP_HEADER_LEN := 8
  const ETX_UDP_CHECKSUM_OFFSET := 40
  const ETX_UDP_DATA_OFFSET := 42
  const PROTO_TCP: byte := 6
  const PROTO_UDP: byte := 17

  // ----- frames as the builders lay them out -----

  function EthHeader(dstMac: Mac, srcMac: Mac): (s: seq<byte>)
    ensures |s| == ETX_ETH_HEADER_LEN
  {
    dstMac + srcMac + [0x08, 0x00]
  }

  /** The first twelve octets of an IP header, checksum included. */
  function IpFixedPart(totalLen: word, id: word, protocol: byte, checksum: word): (s: seq<byte>)
    ensures |s| == 12
  {
    [0x45, 0x00] + Encode16(totalLen) + Encode16(id) + [0x00, 0x00] + [128, protocol] + Encode16(checksum)
  }

  function IpHeaderWith(totalLen: word, id: word, protocol: byte, srcIp: Ip, dstIp: Ip, checksum: word): (s: seq<byte>)
    ensures |s| == ETX_IP_HEADER_LEN
  {
    IpFixedPart(totalLen, id, protocol, checksum) + srcIp + dstIp
  }

  /** The header checksum complements the sum of the header whose checksum field is zero. */
  function IpHeader(totalLen: word, id: word, protocol: byte, srcIp: Ip, dstIp: Ip): (s: seq<byte>)
    ensures |s| == ETX_IP_HEADER_LEN
  {
    IpHeaderWith(totalLen, id, protocol, srcIp, dstIp,
                 Not16(Canon(SumWords(IpHeaderWith(totalLen, id, protocol, srcIp, dstIp, 0)))))
  }

  function PseudoHeader(srcIp: Ip, dstIp: Ip, protocol: byte, length: word): (s: seq<byte>)
    ensures |s| == 12
  {
    srcIp + dstIp + [0, protocol] + Encode16(length)
  }

  function UdpHeaderWith(srcPort: word, dstPort: word, length: word, checksum: word): (s: seq<byte>)
    ensures |s| == ETX_UDP_HEADER_LEN
  {
    Encode16(srcPort) + Encode16(dstPort) + Encode16(length) + Encode16(checksum)
  }

  function UdpChecksum(srcIp: Ip, dstIp: Ip, srcPort: word, dstPort: word, payload: seq<byte>): word
    requires |payload| + ETX_UDP_HEADER_LEN < 0x1_0000
  {
    var length := |payload| + ETX_UDP_HEADER_LEN;
    Not16(Canon(SumWords(PseudoHeader(srcIp, dstIp, PROTO_UDP, length)
                            + (UdpHeaderWith(srcPort, dstPort, length, 0) + payload))))
  }

  function UdpSegment(srcIp: Ip, dstIp: Ip, srcPort: word, dstPort: word, payload: seq<byte>): (s: seq<byte>)
    requires |payload| + ETX_UDP_HEADER_LEN < 0x1_0000
    ensures |s| == ETX_UDP_HEADER_LEN + |payload|
  {
    UdpHeaderWith(srcPort, dstPort, |payload| + ETX_UDP_HEADER_LEN,
                  UdpChecksum(srcIp, dstIp, srcPort, dstPort, payload)) + payload
  }

  datatype Endpoints = Endpoints(dstMac: Mac, srcMac: Mac, dstIp: Ip, srcIp: Ip, dstPort: word, srcPort: word)

  function UdpFrame(e: Endpoints, id: word, payload: seq<byte>): (s: seq<byte>)
    requires |payload| + ETX_UDP_DATA_OFFSET < 0x1_0000
    ensures |s| == ETX_UDP_DATA_OFFSET + |payload|
  {
    EthHeader(e.dstMac, e.srcMac)
    + IpHeader(ETX_IP_HEADER_LEN + ETX_UDP_HEADER_LEN + |payload|, id, PROTO_UDP, e.srcIp, e.dstIp)
    + UdpSegment(e.srcIp, e.dstIp, e.srcPort, e.dstPort, payload)
  }

  /** The headers of a UDP frame while both checksum fields are zero. */
  function UnsealedHeaders(e: Endpoints, id: word, dataSize: nat): (s: seq<byte>)
    requires dataSize + ETX_UDP_DATA_OFFSET < 0x1_0000
    ensures |s| == ETX_UDP_DATA_OFFSET
  {
    var length := dataSize + ETX_UDP_HEADER_LEN;
    EthHeader(e.dstMac, e.srcMac)
    + IpHeaderWith(ETX_IP_HEADER_LEN + length, id, PROTO_UDP, e.srcIp, e.dstIp, 0)
    + UdpHeaderWith(e.srcPort, e.dstPort, length, 0)
  }

  /** A UDP frame before its two checksum fields are filled in. */
  predicate IsUnsealed(f: seq<byte>, e: Endpoints, id: word, payload: seq<byte>) {
    && |payload| + ETX_UDP_DATA_OFFSET < 0x1_0000
    && |f| >= ETX_UDP_DATA_OFFSET + |payload|
    && var length := |payload| + ETX_UDP_HEADER_LEN;
    && f[..ETX_UDP_HEADER_OFFSET] == EthHeader(e.dstMac, e.srcMac)
         + IpHeaderWith(ETX_IP_HEADER_LEN + length, id, PROTO_UDP, e.srcIp, e.dstIp, 0)
    && f[ETX_UDP_HEADER_OFFSET..ETX_UDP_DATA_OFFSET + |payload|]
         == UdpHeaderWith(e.srcPort, e.dstPort, length, 0) + payload
  }

  lemma UnsealedFromParts(f: seq<byte>, e: Endpoints, id: word, payload: seq<byte>)
    requires |payload| + ETX_UDP_DATA_OFFSET < 0x1_0000 && |f| >= ETX_UDP_DATA_OFFSET + |payload|
    requires f[..ETX_UDP_DATA_OFFSET] == UnsealedHeaders(e, id, |payload|)
    requires f[ETX_UDP_DATA_OFFSET..ETX_UDP_DATA_OFFSET + |payload|] == payload
    ensures IsUnsealed(f, e, id, payload)
  {
    assert f[..34] == f[..42][..34];
    assert f[34..42 + |payload|] == f[..42][34..] + payload;
  }

  /** Complementing the header's own sum into its checksum field. */
  function SealIpHeader(f: seq<byte>): (r: seq<byte>)
    requires |f| >= ETX_UDP_HEADER_OFFSET
    ensures |r| == |f|
  {
    Splice(f, ETX_IP_CHECKSUM_OFFSET, Encode16(Not16(Canon(SumWords(f[ETX_ETH_HEADER_LEN..ETX_UDP_HEADER_OFFSET])))))
  }

  /** Complementing the sum of pseudo-header and segment into the UDP checksum field. */
  function SealUdp(f: seq<byte>, srcIp: Ip, dstIp: Ip, length: word): (r: seq<byte>)
    requires length >= ETX_UDP_HEADER_LEN && |f| >= ETX_UDP_HEADER_OFFSET + length
    ensures |r| == |f|
  {
    Splice(f, ETX_UDP_CHECKSUM_OFFSET,
           Encode16(Not16(Canon(SumWords(PseudoHeader(srcIp, dstIp, PROTO_UDP, length)
                                         + f[ETX_UDP_HEADER_OFFSET..ETX_UDP_HEADER_OFFSET + length])))))
  }

  lemma IpHeaderIsSealed(f: seq<byte>, totalLen: word, id: word, protocol: byte, srcIp: Ip, dstIp: Ip)
    requires |f| >= ETX_UDP_HEADER_OFFSET
    requires f[ETX_ETH_HEADER_LEN..ETX_UDP_HEADER_OFFSET] == IpHeaderWith(totalLen, id, protocol, srcIp, dstIp, 0)
    ensures SealIpHeader(f)[ETX_ETH_HEADER_LEN..ETX_UDP_HEADER_OFFSET] == IpHeader(totalLen, id, protocol, srcIp, dstIp)
  {
    var h := IpHeaderWith(totalLen, id, protocol, srcIp, dstIp, 0);
    assert h == f[14..24] + f[24..26] + f[26..34];
    var c := Encode16(Not16(Canon(SumWords(h))));
    var g := SealIpHeader(f);
    assert g[14..34] == f[14..24] + c + f[26..34];
    assert f[14..24] == h[..10] && f[26..34] == h[12..];
    assert h[..10] == [0x45, 0x00] + Encode16(totalLen) + Encode16(id) + [0x00, 0x00] + [128, protocol];
    assert h[12..] == srcIp + dstIp;
  }

  lemma SealedIsUdpFrame(f: seq<byte>, e: Endpoints, id: word, payload: seq<byte>)
    requires IsUnsealed(f, e, id, payload)
    ensures SealIpHeader(SealUdp(f, e.srcIp, e.dstIp, |payload| + ETX_UDP_HEADER_LEN))[..ETX_UDP_DATA_OFFSET + |payload|]
            == UdpFrame(e, id, payload)
  {
    var n := |payload|;
    var g := SealUdp(f, e.srcIp, e.dstIp, n + ETX_UDP_HEADER_LEN);
    var r := SealIpHeader(g);
    assert g[..34] == f[..34];
    assert g[14..34] == f[..34][14..];
    IpHeaderIsSealed(g, ETX_IP_HEADER_LEN + ETX_UDP_HEADER_LEN + n, id, PROTO_UDP, e.srcIp, e.dstIp);
    assert r[..14] == f[..34][..14] == EthHeader(e.dstMac, e.srcMac);
    var u := f[34..42 + n];
    var c := Encode16(UdpChecksum(e.srcIp, e.dstIp, e.srcPort, e.dstPort, payload));
    assert r[34..42 + n] == g[34..42 + n] == u[..6] + c + u[8..];
    assert u[..6] == Encode16(e.srcPort) + Encode16(e.dstPort) + Encode16(n + ETX_UDP_HEADER_LEN);
    assert u[8..] == payload;
    assert r[..42 + n] == r[..14] + r[14..34] + r[34..42 + n];
  }

  // ----- validity of any frame -----

  predicate IsIpFrame(f: seq<byte>) {
    |f| >= ETX_ETH_HEADER_LEN + ETX_IP_HEADER_LEN
  }

  /** Where the IP payload starts: the IHL nibble counts 32-bit words. */
  function SegmentOffset(f: seq<byte>): nat
    requires IsIpFrame(f)
  {
    ETX_ETH_HEADER_LEN + (f[ETX_IP_IHL_OFFSET] % 16) * 4
  }

  function SrcIp(f: seq<byte>): Ip
    requires IsIpFrame(f)
  {
    f[ETX_IP_SIP_OFFSET..ETX_IP_SIP_OFFSET + 4]
  }

  function DstIp(f: seq<byte>): Ip
    requires IsIpFrame(f)
  {
    f[ETX_IP_DIP_OFFSET..ETX_IP_DIP_OFFSET + 4]
  }

  /** A frame whose IP header is at least twenty octets long and lies inside the frame. */
  predicate HasIpHeader(f: seq<byte>) {
    IsIpFrame(f) && f[ETX_IP_IHL_OFFSET] % 16 >= 5 && SegmentOffset(f) <= |f|
  }

  predicate IpHeaderVerifies(f: seq<byte>)
    requires HasIpHeader(f)
  {
    Verifies(SumWords(f[ETX_ETH_HEADER_LEN..SegmentOffset(f)]))
  }

  /** The word sum of a segment behind its pseudo-header. */
  function TransportSum(srcIp: Ip, dstIp: Ip, protocol: byte, segment: seq<byte>): nat
    requires |segment| < 0x1_0000
  {
    SumWords(PseudoHeader(srcIp, dstIp, protocol, |segment|) + segment)
  }

  /** Does the transport segment that ends at end, prefixed by the pseudo-header made of the
      frame's own addresses, fold to 0xffff? */
  predicate TransportVerifies(f: seq<byte>, end: nat)
    requires HasIpHeader(f) && SegmentOffset(f) <= end <= |f| && end - SegmentOffset(f) < 0x1_0000
  {
    Verifies(TransportSum(SrcIp(f), DstIp(f), f[ETX_IP_PROTO_OFFSET], f[SegmentOffset(f)..end]))
  }

  function Field(f: seq<byte>, at: nat): word
    requires at + 2 <= |f|
  {
    Word(f[at], f[at + 1])
  }

  // ----- address rewriting -----

  /** Is this the first fragment of a UDP or TCP packet, whose checksum the rewriter must
      adjust? */
  predicate NeedsTransportAdjust(f: seq<byte>)
    requires IsIpFrame(f)
  {
    && Field(f, ETX_IP_FLAG_FRAGOFFS_OFFSET) % 0x2000 == 0
    && (f[ETX_IP_PROTO_OFFSET] == PROTO_UDP || f[ETX_IP_PROTO_OFFSET] == PROTO_TCP)
  }

  function TransportChecksumOffset(f: seq<byte>): nat
    requires IsIpFrame(f)
  {
    SegmentOffset(f) + if f[ETX_IP_PROTO_OFFSET] == PROTO_UDP then 6 else 16
  }

  /** The frame with the checksum field at the given offset adjusted in place. */
  function AdjustAt(f: seq<byte>, at: nat, o: seq<byte>, n: seq<byte>): (r: seq<byte>)
    requires at + 2 <= |f|
    ensures |r| == |f|
  {
    Splice(f, at, Encode16(Adjusted(Field(f, at), o, n)))
  }

  /** Both transport adjustments, source address first. */
  function AdjustTransport(f: seq<byte>, newDst: Ip, newSrc: Ip): (r: seq<byte>)
    requires IsIpFrame(f)
    requires NeedsTransportAdjust(f) ==> TransportChecksumOffset(f) + 2 <= |f|
    ensures |r| == |f|
  {
    if NeedsTransportAdjust(f) then
      var at := TransportChecksumOffset(f);
      var g := AdjustAt(f, at, SrcIp(f), newSrc);
      AdjustAt(g, at, DstIp(g), newDst)
    else f
  }

  function AdjustIpHeader(f: seq<byte>, newDst: Ip, newSrc: Ip): (r: seq<byte>)
    requires IsIpFrame(f)
    ensures |r| == |f|
  {
    var g := AdjustAt(f, ETX_IP_CHECKSUM_OFFSET, SrcIp(f), newSrc);
    AdjustAt(g, ETX_IP_CHECKSUM_OFFSET, DstIp(g), newDst)
  }

  function CopyAddresses(f: seq<byte>, newDst: Ip, newSrc: Ip): (r: seq<byte>)
    requires IsIpFrame(f)
    ensures |r| == |f|
  {
    Splice(Splice(f, ETX_IP_DIP_OFFSET, newDst), ETX_IP_SIP_OFFSET, newSrc)
  }

  /** The shipped rewrite: the addresses are copied before the header field is adjusted. */
  function ChangedIp(f: seq<byte>, newDst: Ip, newSrc: Ip): (r: seq<byte>)
    requires IsIpFrame(f)
    requires NeedsTransportAdjust(f) ==> TransportChecksumOffset(f) + 2 <= |f|
    ensures |r| == |f|
  {
    AdjustIpHeader(CopyAddresses(AdjustTransport(f, newDst, newSrc), newDst, newSrc), newDst, newSrc)
  }

  /** The evident intent: the header field is adjusted while the old addresses are still
      there. */
  function IntendedIp(f: seq<byte>, newDst: Ip, newSrc: Ip): (r: seq<byte>)
    requires IsIpFrame(f)
    requires NeedsTransportAdjust(f) ==> TransportChecksumOffset(f) + 2 <= |f|
    ensures |r| == |f|
  {
    CopyAddresses(AdjustIpHeader(AdjustTransport(f, newDst, newSrc), newDst, newSrc), newDst, newSrc)
  }

  /** Where getUdpData finds the payload, and the 16-bit length it reports. */
  function UdpDataOf(f: seq<byte>): (nat, word)
    requires IsIpFrame(f) && SegmentOffset(f) + 6 <= |f|
  {
    var t := SegmentOffset(f);
    (t + ETX_UDP_HEADER_LEN, U16(Field(f, t + 4) - ETX_UDP_HEADER_LEN))
  }
}
