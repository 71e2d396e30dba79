/** The frames octet by octet: where everything stands, in plain numbers, and what a receiver
    computes from the octets. The layout of section 3.1 of RFC 791, RFC 768 and RFC 9293. */
module FrameOctets {
  import opened Bytes
  import opened OnesComplement
  import opened Frames
  import opened FrameLaws

  // ----- built frames -----

  lemma SumOfAddresses(f: seq<byte>)
    requires |f| >= 34
    ensures SumWords(f[26..34]) == SumWords(f[26..30]) + SumWords(f[30..34])
  {
    assert f[26..34] == f[26..30] + f[30..34];
    SumWordsConcat(f[26..30], f[30..34]);
  }

  /** What a receiver adds up for a transport segment: both addresses, the protocol number, the
      length of the segment, and the segment. */
  lemma TransportSumOctets(f: seq<byte>, protocol: byte, s: nat, end: nat)
    requires |f| >= 34 && s <= end <= |f| && end - s < 0x1_0000
    ensures TransportSum(f[26..30], f[30..34], protocol, f[s..end])
            == SumWords(f[26..34]) + protocol + (end - s) + SumWords(f[s..end])
  {
    SumOfAddresses(f);
    PseudoHeaderSum(f[26..30], f[30..34], protocol, end - s);
    SumWordsConcat(PseudoHeader(f[26..30], f[30..34], protocol, end - s), f[s..end]);
  }

  /** The receiver's test of the transport segment from s to end: the words of both addresses, the
      protocol number, the length and the words of the segment add up to a multiple of 65535. */
  ghost predicate AddsUp(f: seq<byte>, protocol: byte, s: nat, end: nat)
    requires |f| >= 34 && s <= end <= |f|
  {
    (SumWords(f[26..34]) + protocol + (end - s) + SumWords(f[s..end])) % 0xffff == 0
  }

  lemma AddsUpIffVerifies(f: seq<byte>, protocol: byte, s: nat, end: nat)
    requires |f| >= 34 && s <= end <= |f| && end - s < 0x1_0000 && protocol > 0
    ensures AddsUp(f, protocol, s, end) <==> Verifies(TransportSum(f[26..30], f[30..34], protocol, f[s..end]))
  {
    TransportSumOctets(f, protocol, s, end);
    VerifiesIffMultiple(TransportSum(f[26..30], f[30..34], protocol, f[s..end]));
    hide SumWords, TransportSum;
  }

  /** Both checksums of a built frame, as a receiver adds them up from the octets. */
  lemma BuiltFrameSums(e: Endpoints, id: word, payload: seq<byte>)
    requires |payload| + ETX_UDP_DATA_OFFSET < 0x1_0000
    ensures var f := UdpFrame(e, id, payload);
            && |f| == 42 + |payload|
            && SumWords(f[14..34]) % 0xffff == 0
            && AddsUp(f, 17, 34, |f|)
  {
    BuiltFrameVerifies(e, id, payload);
    BuiltParts(e, id, payload);
    var f := UdpFrame(e, id, payload);
    hide SumWords, UdpFrame;
    AddsUpIffVerifies(f, 17, 34, |f|);
    VerifiesIffMultiple(SumWords(f[14..34]));
  }

  /** Every octet of a built IP header that is not an address or the checksum. */
  lemma IpHeaderOctets(totalLen: word, id: word, protocol: byte, srcIp: Ip, dstIp: Ip)
    ensures var h := IpHeader(totalLen, id, protocol, srcIp, dstIp);
            && h[0] == 0x45 && h[1] == 0
            && 0x100 * h[2] as int + h[3] as int == totalLen && 0x100 * h[4] as int + h[5] as int == id
            && h[6] == 0 && h[7] == 0 && h[8] == 128 && h[9] == protocol
            && h[12..16] == srcIp && h[16..20] == dstIp
  {
    hide Canon, SumWords;
    WordOfHiLo(totalLen);
    WordOfHiLo(id);
    var h := IpHeader(totalLen, id, protocol, srcIp, dstIp);
    assert h[2] == Hi(totalLen) && h[3] == Lo(totalLen) && h[4] == Hi(id) && h[5] == Lo(id);
    assert h[12..16] == srcIp && h[16..20] == dstIp;
    hide IpHeader, Hi, Lo;
  }

  /** The reader finds the payload behind an IP header of any length, options included. */
  lemma ReaderSkipsIpOptions(f: seq<byte>, payload: seq<byte>, ihl: nat)
    requires 5 <= ihl <= 15 && |f| >= 34 && f[14] % 16 == ihl
    requires |payload| + 8 < 0x1_0000 && |f| >= 14 + 4 * ihl + 8 + |payload|
    requires f[14 + 4 * ihl + 8..14 + 4 * ihl + 8 + |payload|] == payload
    requires 0x100 * f[14 + 4 * ihl + 4] as int + f[14 + 4 * ihl + 5] as int == |payload| + 8
    ensures UdpDataOf(f) == (14 + 4 * ihl + 8, |payload|)
    ensures f[UdpDataOf(f).0..UdpDataOf(f).0 + UdpDataOf(f).1] == payload
  {
  }

  // ----- address rewriting -----

  /** All octets but those of the header checksum, the addresses and the word at offset at. */
  ghost predicate KeptOutside(f: seq<byte>, g: seq<byte>, at: nat) {
    |g| == |f| && forall i | 0 <= i < |f| && !(24 <= i < 34) && !(at <= i < at + 2) :: g[i] == f[i]
  }

  lemma RewriteOctets(f: seq<byte>, newDst: Ip, newSrc: Ip, s: nat, end: nat)
    requires IsRewritable(f, end) && s == SegmentOffset(f)
    ensures var g := ChangedIp(f, newDst, newSrc);
            && KeptOutside(f, g, TransportChecksumOffset(f)) && g[26..30] == newSrc && g[30..34] == newDst
            && (AddsUp(f, f[23], s, end) <==> AddsUp(g, f[23], s, end))
  {
    assert s <= end;
    ProtocolIsNotZero(f);
    hide ChangedIp, SumWords, NeedsTransportAdjust, TransportChecksumOffset, AddsUp, Verifies, TransportSum, SegmentOffset;
    ChangedIpKeepsTransport(f, newDst, newSrc, end);
    var g := ChangedIp(f, newDst, newSrc);
    ProtocolKept(f, newDst, newSrc, end);
    AddsUpIffVerifies(f, f[23], s, end);
    AddsUpIffVerifies(g, f[23], s, end);
  }

  lemma ProtocolIsNotZero(f: seq<byte>)
    requires IsIpFrame(f) && NeedsTransportAdjust(f)
    ensures f[23] > 0
  {
  }

  lemma ProtocolKept(f: seq<byte>, newDst: Ip, newSrc: Ip, end: nat)
    requires IsRewritable(f, end)
    ensures ChangedIp(f, newDst, newSrc)[23] == f[23]
  {
    hide ChangedIp;
    ChangedIpKeepsTransport(f, newDst, newSrc, end);
  }

  lemma IsFirstFragment(f: seq<byte>, s: nat, end: nat)
    requires |f| >= 34 && f[14] % 16 >= 5 && s == 14 + 4 * (f[14] % 16)
    requires (0x100 * f[20] as int + f[21] as int) % 0x2000 == 0
    requires (f[23] == 6 && s + 18 <= end) || (f[23] == 17 && s + 8 <= end)
    requires end <= |f| && end - s < 0x1_0000
    ensures IsRewritable(f, end) && SegmentOffset(f) == s
    ensures TransportChecksumOffset(f) == if f[23] == 6 then s + 16 else s + 6
  {
    assert Field(f, 20) == 0x100 * f[20] as int + f[21] as int;
    hide Field;
    assert NeedsTransportAdjust(f);
    hide NeedsTransportAdjust;
  }

  /** The shipped rewrite of a first TCP fragment: the checksum at offset 16 of the segment is
      the only word of the segment that changes, and a receiver's sum over addresses, protocol,
      length and segment comes out right afterwards if and only if it did before. */
  lemma TcpRewriteOctets(f: seq<byte>, newDst: Ip, newSrc: Ip, s: nat, end: nat)
    requires |f| >= 34 && f[14] % 16 >= 5 && s == 14 + 4 * (f[14] % 16)
    requires s + 18 <= end <= |f| && end - s < 0x1_0000
    requires (0x100 * f[20] as int + f[21] as int) % 0x2000 == 0 && f[23] == 6
    ensures var g := ChangedIp(f, newDst, newSrc);
            && KeptOutside(f, g, s + 16) && g[26..30] == newSrc && g[30..34] == newDst
            && (AddsUp(f, 6, s, end) <==> AddsUp(g, 6, s, end))
  {
    IsFirstFragment(f, s, end);
    hide *;
    RewriteOctets(f, newDst, newSrc, s, end);
  }

  /** The same for UDP, where the checksum is at offset 6. */
  lemma UdpRewriteOctets(f: seq<byte>, newDst: Ip, newSrc: Ip, s: nat, end: nat)
    requires |f| >= 34 && f[14] % 16 >= 5 && s == 14 + 4 * (f[14] % 16)
    requires s + 8 <= end <= |f| && end - s < 0x1_0000
    requires (0x100 * f[20] as int + f[21] as int) % 0x2000 == 0 && f[23] == 17
    ensures var g := ChangedIp(f, newDst, newSrc);
            && KeptOutside(f, g, s + 6) && g[26..30] == newSrc && g[30..34] == newDst
            && (AddsUp(f, 17, s, end) <==> AddsUp(g, 17, s, end))
  {
    IsFirstFragment(f, s, end);
    hide *;
    RewriteOctets(f, newDst, newSrc, s, end);
  }

  /** In any other IP frame, and in later fragments, the rewrite touches no octet but the header
      checksum and the addresses. */
  lemma OtherRewriteOctets(f: seq<byte>, newDst: Ip, newSrc: Ip)
    requires |f| >= 34
    requires (0x100 * f[20] as int + f[21] as int) % 0x2000 != 0 || (f[23] != 6 && f[23] != 17)
    ensures var g := ChangedIp(f, newDst, newSrc);
            && |g| == |f| && (forall i | 0 <= i < |f| && !(24 <= i < 34) :: g[i] == f[i])
            && g[26..30] == newSrc && g[30..34] == newDst
  {
    assert !NeedsTransportAdjust(f) && AdjustTransport(f, newDst, newSrc) == f;
    hide AdjustIpHeader, CopyAddresses, IsRewritten;
    ShippedHeaderStage(f, newDst, newSrc);
    var c := Field(f, ETX_IP_CHECKSUM_OFFSET);
    RewrittenParts(f, ChangedIp(f, newDst, newSrc), newDst, newSrc, if c == 0xffff then 0 else c);
  }

  /** The header checksum after the shipped rewrite of any frame: it stays what it was, but for
      0xffff. */
  lemma HeaderChecksumOctets(f: seq<byte>, newDst: Ip, newSrc: Ip)
    requires HasIpHeader(f)
    requires NeedsTransportAdjust(f) ==> TransportChecksumOffset(f) + 2 <= |f|
    ensures var g := ChangedIp(f, newDst, newSrc);
            if f[24] == 0xff && f[25] == 0xff then g[24] == 0 && g[25] == 0 else g[24] == f[24] && g[25] == f[25]
  {
    hide AdjustTransport, AdjustIpHeader, CopyAddresses, IsRewritten;
    var t := AdjustTransport(f, newDst, newSrc);
    TransportStageKeepsHeader(f, newDst, newSrc);
    ShippedHeaderStage(t, newDst, newSrc);
    var c := Field(f, 24);
    RewrittenParts(t, ChangedIp(f, newDst, newSrc), newDst, newSrc, if c == 0xffff then 0 else c);
  }
}
