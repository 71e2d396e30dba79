/** What the builders and the address rewriter guarantee about the frames they leave. */
module FrameLaws {
  import opened Bytes
  import opened OnesComplement
  import opened Frames

  // ----- built frames -----

  lemma StoredChecksumVerifies(m: seq<byte>, at: nat)
    requires at % 2 == 0 && at + 2 <= |m| && m[at] == 0 && m[at + 1] == 0
    ensures Verifies(SumWords(Splice(m, at, Encode16(Not16(Canon(SumWords(m)))))))
  {
    SumWordsStore(m, at, Not16(Canon(SumWords(m))));
    ComplementVerifies(SumWords(m));
  }

  lemma HeaderIsSplice(totalLen: word, id: word, protocol: byte, srcIp: Ip, dstIp: Ip, c: word)
    ensures IpHeaderWith(totalLen, id, protocol, srcIp, dstIp, c)
            == Splice(IpHeaderWith(totalLen, id, protocol, srcIp, dstIp, 0), 10, Encode16(c))
  {
  }

  /** The builder's header checksum is valid for every protocol and length. */
  lemma BuiltIpHeaderVerifies(totalLen: word, id: word, protocol: byte, srcIp: Ip, dstIp: Ip)
    ensures Verifies(SumWords(IpHeader(totalLen, id, protocol, srcIp, dstIp)))
  {
    var h := IpHeaderWith(totalLen, id, protocol, srcIp, dstIp, 0);
    HeaderIsSplice(totalLen, id, protocol, srcIp, dstIp, Not16(Canon(SumWords(h))));
    StoredChecksumVerifies(h, 10);
  }

  lemma SegmentIsSplice(pseudo: seq<byte>, srcPort: word, dstPort: word, length: word, payload: seq<byte>, c: word)
    requires |pseudo| == 12
    ensures pseudo + (UdpHeaderWith(srcPort, dstPort, length, c) + payload)
            == Splice(pseudo + (UdpHeaderWith(srcPort, dstPort, length, 0) + payload), 18, Encode16(c))
  {
  }

  lemma BuiltParts(e: Endpoints, id: word, payload: seq<byte>)
    requires |payload| + ETX_UDP_DATA_OFFSET < 0x1_0000
    ensures var f := UdpFrame(e, id, payload);
            && HasIpHeader(f) && SegmentOffset(f) == ETX_UDP_HEADER_OFFSET
            && SrcIp(f) == e.srcIp && DstIp(f) == e.dstIp && f[ETX_IP_PROTO_OFFSET] == PROTO_UDP
            && f[..14] == EthHeader(e.dstMac, e.srcMac)
            && f[14..34] == IpHeader(ETX_IP_HEADER_LEN + ETX_UDP_HEADER_LEN + |payload|, id, PROTO_UDP, e.srcIp, e.dstIp)
            && f[34..] == UdpSegment(e.srcIp, e.dstIp, e.srcPort, e.dstPort, payload)
  {
    var f := UdpFrame(e, id, payload);
    var h := IpHeader(ETX_IP_HEADER_LEN + ETX_UDP_HEADER_LEN + |payload|, id, PROTO_UDP, e.srcIp, e.dstIp);
    assert f[14..34] == h;
    assert f[14] == h[0] == 0x45 && f[23] == h[9];
    assert f[26..30] == h[12..16] && f[30..34] == h[16..20];
  }

  /** Every built frame carries an IP header and a UDP segment that a receiver accepts. */
  lemma BuiltFrameVerifies(e: Endpoints, id: word, payload: seq<byte>)
    requires |payload| + ETX_UDP_DATA_OFFSET < 0x1_0000
    ensures var f := UdpFrame(e, id, payload);
            HasIpHeader(f) && IpHeaderVerifies(f) && SegmentOffset(f) <= |f| && TransportVerifies(f, |f|)
  {
    BuiltParts(e, id, payload);
    var f := UdpFrame(e, id, payload);
    var length := |payload| + ETX_UDP_HEADER_LEN;
    BuiltIpHeaderVerifies(ETX_IP_HEADER_LEN + length, id, PROTO_UDP, e.srcIp, e.dstIp);
    var pseudo := PseudoHeader(e.srcIp, e.dstIp, PROTO_UDP, length);
    var m := pseudo + (UdpHeaderWith(e.srcPort, e.dstPort, length, 0) + payload);
    SegmentIsSplice(pseudo, e.srcPort, e.dstPort, length, payload, Not16(Canon(SumWords(m))));
    StoredChecksumVerifies(m, 18);
    assert f[34..|f|] == f[34..];
  }

  /** Every field that a receiver reads at its standard offset is the one that was asked for:
      an IPv4 packet of the right lengths between the given ends. */
  lemma BuiltFrameFields(e: Endpoints, id: word, payload: seq<byte>)
    requires |payload| + ETX_UDP_DATA_OFFSET < 0x1_0000
    ensures var f := UdpFrame(e, id, payload);
            && f[0..6] == e.dstMac && f[6..12] == e.srcMac && Field(f, 12) == 0x0800
            && f[14] == 0x45 && Field(f, 16) == |f| - ETX_ETH_HEADER_LEN && Field(f, 18) == id && Field(f, 20) == 0
            && f[22] == 128 && f[23] == PROTO_UDP && f[26..30] == e.srcIp && f[30..34] == e.dstIp
            && Field(f, 34) == e.srcPort && Field(f, 36) == e.dstPort && Field(f, 38) == |f| - ETX_UDP_HEADER_OFFSET
  {
    hide UdpFrame, IpHeader, UdpSegment, EthHeader;
    BuiltParts(e, id, payload);
    var f := UdpFrame(e, id, payload);
    var n := |payload|;
    EthOctets(e.dstMac, e.srcMac, f);
    HeaderOctets(ETX_IP_HEADER_LEN + ETX_UDP_HEADER_LEN + n, id, e.srcIp, e.dstIp, f);
    SegmentOctets(e, payload, f);
  }

  lemma EthOctets(dstMac: Mac, srcMac: Mac, f: seq<byte>)
    requires |f| >= 14 && f[..14] == EthHeader(dstMac, srcMac)
    ensures f[0..6] == dstMac && f[6..12] == srcMac && Field(f, 12) == 0x0800
  {
    var eth := EthHeader(dstMac, srcMac);
    assert eth[0..6] == dstMac && eth[6..12] == srcMac && eth[12] == 8 && eth[13] == 0;
    hide EthHeader;
    assert forall i | 0 <= i < 14 :: f[i] == f[..14][i];
    assert f[0..6] == eth[0..6] && f[6..12] == eth[6..12];
  }

  lemma HeaderOctets(totalLen: word, id: word, srcIp: Ip, dstIp: Ip, f: seq<byte>)
    requires |f| >= 34 && f[14..34] == IpHeader(totalLen, id, PROTO_UDP, srcIp, dstIp)
    ensures f[14] == 0x45 && Field(f, 16) == totalLen && Field(f, 18) == id && Field(f, 20) == 0
    ensures f[22] == 128 && f[23] == PROTO_UDP && f[26..30] == srcIp && f[30..34] == dstIp
  {
    hide Canon, SumWords, Hi, Lo, Word;
    var h := IpHeader(totalLen, id, PROTO_UDP, srcIp, dstIp);
    assert h[0] == 0x45 && h[2] == Hi(totalLen) && h[3] == Lo(totalLen) && h[4] == Hi(id) && h[5] == Lo(id);
    assert h[6] == 0 && h[7] == 0 && h[8] == 128 && h[9] == PROTO_UDP;
    assert h[12..16] == srcIp && h[16..20] == dstIp;
    hide IpHeader;
    assert forall i | 14 <= i < 34 :: f[i] == f[14..34][i - 14];
    SliceOfSlice(f, 14, 34, 12, 16);
    SliceOfSlice(f, 14, 34, 16, 20);
    WordOfHiLo(totalLen);
    WordOfHiLo(id);
    ZeroWord();
  }

  lemma SliceOfSlice(f: seq<byte>, a: nat, b: nat, c: nat, d: nat)
    requires a <= b <= |f| && c <= d <= b - a
    ensures f[a..b][c..d] == f[a + c..a + d]
  {
    var s, t := f[a..b][c..d], f[a + c..a + d];
    assert forall i | 0 <= i < d - c :: s[i] == f[a..b][c + i] == f[a + (c + i)] == t[i];
  }

  lemma ZeroWord()
    ensures Word(0, 0) == 0
  {
  }

  lemma SegmentOctets(e: Endpoints, payload: seq<byte>, f: seq<byte>)
    requires |payload| + ETX_UDP_DATA_OFFSET < 0x1_0000 && |f| >= 42
    requires f[34..] == UdpSegment(e.srcIp, e.dstIp, e.srcPort, e.dstPort, payload)
    ensures Field(f, 34) == e.srcPort && Field(f, 36) == e.dstPort && Field(f, 38) == |payload| + ETX_UDP_HEADER_LEN
  {
    hide UdpChecksum, Hi, Lo, Word;
    var u := UdpSegment(e.srcIp, e.dstIp, e.srcPort, e.dstPort, payload);
    var length := |payload| + ETX_UDP_HEADER_LEN;
    assert u[0] == Hi(e.srcPort) && u[1] == Lo(e.srcPort) && u[2] == Hi(e.dstPort) && u[3] == Lo(e.dstPort);
    assert u[4] == Hi(length) && u[5] == Lo(length);
    hide UdpSegment;
    assert forall i | 34 <= i < 40 :: f[i] == f[34..][i - 34];
    WordOfHiLo(e.srcPort);
    WordOfHiLo(e.dstPort);
    WordOfHiLo(length);
  }

  /** The reader finds exactly the payload that the builder stored. */
  lemma BuiltFrameRoundTrips(e: Endpoints, id: word, payload: seq<byte>)
    requires |payload| + ETX_UDP_DATA_OFFSET < 0x1_0000
    ensures var f := UdpFrame(e, id, payload);
            && IsIpFrame(f) && SegmentOffset(f) + 6 <= |f|
            && UdpDataOf(f) == (ETX_UDP_DATA_OFFSET, |payload|)
            && f[UdpDataOf(f).0..UdpDataOf(f).0 + UdpDataOf(f).1] == payload
  {
    BuiltParts(e, id, payload);
    var f := UdpFrame(e, id, payload);
    var u := UdpSegment(e.srcIp, e.dstIp, e.srcPort, e.dstPort, payload);
    var length := |payload| + ETX_UDP_HEADER_LEN;
    assert f[38] == u[4] == Hi(length) && f[39] == u[5] == Lo(length);
    WordOfHiLo(length);
    assert f[42..42 + |payload|] == u[8..];
  }

  // ----- address rewriting -----

  /** A first fragment of UDP or TCP whose transport checksum field lies in its segment,
      which ends at end. */
  predicate IsRewritable(f: seq<byte>, end: nat) {
    && HasIpHeader(f)
    && NeedsTransportAdjust(f)
    && TransportChecksumOffset(f) + 2 <= end <= |f|
    && end - SegmentOffset(f) < 0x1_0000
  }

  lemma FieldOfSplice(f: seq<byte>, at: nat, x: word)
    requires at + 2 <= |f|
    ensures Field(Splice(f, at, Encode16(x)), at) == x
  {
    WordOfHiLo(x);
  }

  /** The transport field after both adjustments. */
  function NewField(field: word, src: Ip, newSrc: Ip, dst: Ip, newDst: Ip): word {
    Adjusted(Adjusted(field, src, newSrc), dst, newDst)
  }

  lemma AdjustTwice(f: seq<byte>, at: nat, o: seq<byte>, n: seq<byte>, o2: seq<byte>, n2: seq<byte>)
    requires at + 2 <= |f|
    ensures AdjustAt(AdjustAt(f, at, o, n), at, o2, n2)
            == Splice(f, at, Encode16(Adjusted(Adjusted(Field(f, at), o, n), o2, n2)))
  {
    var x := Adjusted(Field(f, at), o, n);
    FieldOfSplice(f, at, x);
    var y := Adjusted(x, o2, n2);
    assert Splice(Splice(f, at, Encode16(x)), at, Encode16(y)) == Splice(f, at, Encode16(y));
  }

  /** The transport stage alone: only the checksum field changes. */
  lemma TransportStage(f: seq<byte>, newDst: Ip, newSrc: Ip)
    requires HasIpHeader(f) && NeedsTransportAdjust(f) && TransportChecksumOffset(f) + 2 <= |f|
    ensures var at := TransportChecksumOffset(f);
            AdjustTransport(f, newDst, newSrc)
            == Splice(f, at, Encode16(NewField(Field(f, at), SrcIp(f), newSrc, DstIp(f), newDst)))
  {
    var at := TransportChecksumOffset(f);
    var g := AdjustAt(f, at, SrcIp(f), newSrc);
    assert DstIp(g) == DstIp(f);
    AdjustTwice(f, at, SrcIp(f), newSrc, DstIp(f), newDst);
  }

  /** The header stage, in either order: the new addresses are in place, a given header
      checksum c is stored, and nothing else differs from the frame before it. */
  predicate IsRewritten(f: seq<byte>, g: seq<byte>, newDst: Ip, newSrc: Ip, c: word)
    requires IsIpFrame(f)
  {
    && |g| == |f|
    && g[..ETX_IP_CHECKSUM_OFFSET] == f[..ETX_IP_CHECKSUM_OFFSET]
    && g[ETX_IP_CHECKSUM_OFFSET..ETX_UDP_HEADER_OFFSET] == Encode16(c) + newSrc + newDst
    && g[ETX_UDP_HEADER_OFFSET..] == f[ETX_UDP_HEADER_OFFSET..]
  }

  lemma StoreThenCopy(f: seq<byte>, newDst: Ip, newSrc: Ip, x: word)
    requires IsIpFrame(f)
    ensures var g := Splice(f, ETX_IP_CHECKSUM_OFFSET, Encode16(x));
            SrcIp(g) == SrcIp(f) && DstIp(g) == DstIp(f) && IsRewritten(f, CopyAddresses(g, newDst, newSrc), newDst, newSrc, x)
  {
    var g := Splice(f, ETX_IP_CHECKSUM_OFFSET, Encode16(x));
    assert g[26..30] == f[26..30] && g[30..34] == f[30..34];
    var r := CopyAddresses(g, newDst, newSrc);
    assert r[..24] == f[..24] && r[34..] == f[34..];
    assert r[24..34] == Encode16(x) + newSrc + newDst;
  }

  lemma CopyThenStore(f: seq<byte>, newDst: Ip, newSrc: Ip, x: word)
    requires IsIpFrame(f)
    ensures var g := CopyAddresses(f, newDst, newSrc);
            && SrcIp(g) == newSrc && DstIp(g) == newDst
            && Field(g, ETX_IP_CHECKSUM_OFFSET) == Field(f, ETX_IP_CHECKSUM_OFFSET)
            && IsRewritten(f, Splice(g, ETX_IP_CHECKSUM_OFFSET, Encode16(x)), newDst, newSrc, x)
            && DstIp(Splice(g, ETX_IP_CHECKSUM_OFFSET, Encode16(x))) == newDst
  {
    var g := CopyAddresses(f, newDst, newSrc);
    assert g[26..30] == newSrc && g[30..34] == newDst;
    var r := Splice(g, ETX_IP_CHECKSUM_OFFSET, Encode16(x));
    assert r[..24] == f[..24] && r[34..] == f[34..];
    assert r[24..34] == Encode16(x) + newSrc + newDst;
    assert r[30..34] == newDst;
  }

  lemma ShippedHeaderStage(f: seq<byte>, newDst: Ip, newSrc: Ip)
    requires IsIpFrame(f)
    ensures var c := Field(f, ETX_IP_CHECKSUM_OFFSET);
            IsRewritten(f, AdjustIpHeader(CopyAddresses(f, newDst, newSrc), newDst, newSrc), newDst, newSrc,
                        if c == 0xffff then 0 else c)
  {
    hide Adjusted, IsRewritten, Field, CopyAddresses, SrcIp, DstIp, Splice;
    var c := Field(f, ETX_IP_CHECKSUM_OFFSET);
    var g := CopyAddresses(f, newDst, newSrc);
    var x := Adjusted(c, newSrc, newSrc);
    CopyThenStore(f, newDst, newSrc, x);
    AdjustTwice(g, ETX_IP_CHECKSUM_OFFSET, newSrc, newSrc, newDst, newDst);
    AdjustBySameWords(c, newSrc);
    AdjustBySameWords(x, newDst);
    CopyThenStore(f, newDst, newSrc, Adjusted(x, newDst, newDst));
  }

  lemma IntendedHeaderStage(f: seq<byte>, newDst: Ip, newSrc: Ip)
    requires IsIpFrame(f)
    ensures IsRewritten(f, CopyAddresses(AdjustIpHeader(f, newDst, newSrc), newDst, newSrc), newDst, newSrc,
                        NewField(Field(f, ETX_IP_CHECKSUM_OFFSET), SrcIp(f), newSrc, DstIp(f), newDst))
  {
    hide Adjusted, IsRewritten, Field, CopyAddresses, SrcIp, DstIp, Splice;
    var c := Field(f, ETX_IP_CHECKSUM_OFFSET);
    StoreThenCopy(f, newDst, newSrc, Adjusted(c, SrcIp(f), newSrc));
    AdjustTwice(f, ETX_IP_CHECKSUM_OFFSET, SrcIp(f), newSrc, DstIp(f), newDst);
    StoreThenCopy(f, newDst, newSrc, NewField(c, SrcIp(f), newSrc, DstIp(f), newDst));
  }

  lemma PseudoHeaderSum(srcIp: Ip, dstIp: Ip, protocol: byte, length: word)
    ensures SumWords(PseudoHeader(srcIp, dstIp, protocol, length))
            == SumWords(srcIp) + SumWords(dstIp) + protocol + length
  {
    SumWordsConcat3(srcIp + dstIp, [0, protocol], Encode16(length));
    SumWordsConcat(srcIp, dstIp);
    SumWordsOfPair(0, protocol);
    SumWordsOfPair(Hi(length), Lo(length));
    WordOfHiLo(length);
  }

  lemma VerdictOfBothAddresses(rest: nat, field: word, src: Ip, newSrc: Ip, dst: Ip, newDst: Ip)
    requires rest > 0
    ensures Verifies(rest + SumWords(src) + SumWords(dst) + field)
            <==> Verifies(rest + SumWords(newSrc) + SumWords(newDst) + NewField(field, src, newSrc, dst, newDst))
  {
    hide SumWords, Verifies, Adjusted;
    var before := rest + SumWords(src) + SumWords(dst);
    var between := rest + SumWords(newSrc) + SumWords(dst);
    var after := rest + SumWords(newSrc) + SumWords(newDst);
    AdjustKeepsVerdict(before, between, field, src, newSrc);
    AdjustKeepsVerdict(between, after, Adjusted(field, src, newSrc), dst, newDst);
  }

  lemma SegmentSum(src: Ip, dst: Ip, protocol: byte, seg: seq<byte>, at: nat, x: word)
    requires |seg| < 0x1_0000 && at % 2 == 0 && at + 2 <= |seg|
    ensures SumWords(seg) >= Field(seg, at)
    ensures TransportSum(src, dst, protocol, Splice(seg, at, Encode16(x)))
            == protocol + |seg| + (SumWords(seg) - Field(seg, at)) + SumWords(src) + SumWords(dst) + x
  {
    PseudoHeaderSum(src, dst, protocol, |seg|);
    SumWordsConcat(PseudoHeader(src, dst, protocol, |seg|), Splice(seg, at, Encode16(x)));
    SumWordsStore(seg, at, x);
  }

  lemma SpliceOwnField(f: seq<byte>, at: nat)
    requires at + 2 <= |f|
    ensures Splice(f, at, Encode16(Field(f, at))) == f
  {
    EncodeOfWord(f[at], f[at + 1]);
    hide Splice, Encode16, Word;
    var r := Splice(f, at, [f[at], f[at + 1]]);
    assert forall i | 0 <= i < |f| :: r[i] == f[i];
  }

  lemma EncodeOfWord(h: byte, l: byte)
    ensures Encode16(Word(h, l)) == [h, l]
  {
    var w := Word(h, l);
    assert w == h * 0x100 + l;
    assert w / 0x100 == h && w % 0x100 == l;
  }

  /** Replacing the two addresses of a pseudo-header and adjusting the field in the segment
      neither spoils nor repairs the transport checksum. */
  lemma SegmentKeepsVerdict(src: Ip, dst: Ip, newSrc: Ip, newDst: Ip, protocol: byte, seg: seq<byte>, at: nat)
    requires protocol > 0 && |seg| < 0x1_0000 && at % 2 == 0 && at + 2 <= |seg|
    ensures Verifies(TransportSum(src, dst, protocol, seg))
            <==> Verifies(TransportSum(newSrc, newDst, protocol,
                          Splice(seg, at, Encode16(NewField(Field(seg, at), src, newSrc, dst, newDst)))))
  {
    hide *;
    var field := Field(seg, at);
    SpliceOwnField(seg, at);
    SegmentSum(src, dst, protocol, seg, at, field);
    SegmentSum(newSrc, newDst, protocol, seg, at, NewField(field, src, newSrc, dst, newDst));
    VerdictOfBothAddresses(protocol + |seg| + (SumWords(seg) - field), field, src, newSrc, dst, newDst);
  }

  lemma StoreInSegment(f: seq<byte>, s: nat, at: nat, end: nat, x: word)
    requires s <= at && at + 2 <= end <= |f|
    ensures Splice(f, at, Encode16(x))[s..end] == Splice(f[s..end], at - s, Encode16(x))
    ensures Field(f[s..end], at - s) == Field(f, at)
  {
  }

  lemma RewrittenParts(f: seq<byte>, g: seq<byte>, newDst: Ip, newSrc: Ip, c: word)
    requires IsIpFrame(f) && IsRewritten(f, g, newDst, newSrc, c)
    ensures forall i | 0 <= i < |f| && !(24 <= i < 34) :: g[i] == f[i]
    ensures SrcIp(g) == newSrc && DstIp(g) == newDst && Field(g, 24) == c
    ensures forall s, end | 34 <= s <= end <= |f| :: g[s..end] == f[s..end]
  {
    var m := g[24..34];
    assert forall i | 0 <= i < 24 :: g[i] == g[..24][i] == f[..24][i];
    assert forall i | 34 <= i < |f| :: g[i] == g[34..][i - 34] == f[34..][i - 34];
    assert forall i | 24 <= i < 34 :: g[i] == m[i - 24];
    assert g[26..30] == newSrc && g[30..34] == newDst;
    assert g[24] == m[0] == Hi(c) && g[25] == m[1] == Lo(c);
    WordOfHiLo(c);
  }

  /** Both forms of the rewrite keep the transport verdict: g is the frame after the
      transport stage and some header stage. */
  lemma TransportVerdictKept(f: seq<byte>, g: seq<byte>, newDst: Ip, newSrc: Ip, end: nat, c: word)
    requires IsRewritable(f, end)
    requires IsRewritten(AdjustTransport(f, newDst, newSrc), g, newDst, newSrc, c)
    ensures HasIpHeader(g) && SegmentOffset(g) == SegmentOffset(f) && g[ETX_IP_PROTO_OFFSET] == f[ETX_IP_PROTO_OFFSET]
    ensures SrcIp(g) == newSrc && DstIp(g) == newDst
    ensures TransportVerifies(f, end) <==> TransportVerifies(g, end)
  {
    hide NewField, Verifies, TransportSum;
    TransportStage(f, newDst, newSrc);
    var s, at := SegmentOffset(f), TransportChecksumOffset(f);
    var field := NewField(Field(f, at), SrcIp(f), newSrc, DstIp(f), newDst);
    RewrittenParts(AdjustTransport(f, newDst, newSrc), g, newDst, newSrc, c);
    StoreInSegment(f, s, at, end, field);
    SegmentKeepsVerdict(SrcIp(f), DstIp(f), newSrc, newDst, f[23], f[s..end], at - s);
  }

  /** The shipped rewrite keeps the transport verdict of every first UDP or TCP fragment,
      stores the new addresses, and touches nothing but them and the two checksum fields. */
  lemma ChangedIpKeepsTransport(f: seq<byte>, newDst: Ip, newSrc: Ip, end: nat)
    requires IsRewritable(f, end)
    ensures var g := ChangedIp(f, newDst, newSrc);
            && HasIpHeader(g) && SegmentOffset(g) == SegmentOffset(f)
            && SrcIp(g) == newSrc && DstIp(g) == newDst
            && (TransportVerifies(f, end) <==> TransportVerifies(g, end))
    ensures forall i | 0 <= i < |f| && !(24 <= i < 34) && !(TransportChecksumOffset(f) <= i < TransportChecksumOffset(f) + 2) ::
              ChangedIp(f, newDst, newSrc)[i] == f[i]
  {
    hide NewField, IsRewritten, AdjustIpHeader, CopyAddresses, TransportVerifies;
    var t, g := AdjustTransport(f, newDst, newSrc), ChangedIp(f, newDst, newSrc);
    ShippedHeaderStage(t, newDst, newSrc);
    var c := Field(t, ETX_IP_CHECKSUM_OFFSET);
    var c' := if c == 0xffff then 0 else c;
    TransportVerdictKept(f, g, newDst, newSrc, end, c');
    TransportStage(f, newDst, newSrc);
    RewrittenParts(t, g, newDst, newSrc, c');
  }

  lemma HeaderSum(f: seq<byte>, s: nat)
    requires 34 <= s <= |f|
    ensures SumWords(f[14..s]) == SumWords(f[14..24]) + Field(f, 24) + SumWords(f[26..30]) + SumWords(f[30..34])
                                  + SumWords(f[34..s])
  {
    hide SumWords;
    assert f[14..s] == f[14..24] + (f[24..26] + (f[26..30] + (f[30..34] + f[34..s])));
    SumWordsConcat(f[14..24], f[24..26] + (f[26..30] + (f[30..34] + f[34..s])));
    SumWordsConcat(f[24..26], f[26..30] + (f[30..34] + f[34..s]));
    SumWordsConcat(f[26..30], f[30..34] + f[34..s]);
    SumWordsConcat(f[30..34], f[34..s]);
    assert f[24..26] == [f[24], f[25]];
    SumWordsOfPair(f[24], f[25]);
  }

  lemma SumIsPositive(s: seq<byte>)
    requires |s| > 0 && s[0] > 0
    ensures SumWords(s) > 0
  {
  }

  lemma HeaderPartsKept(f: seq<byte>, g: seq<byte>, newDst: Ip, newSrc: Ip, c: word)
    requires HasIpHeader(f) && IsRewritten(f, g, newDst, newSrc, c)
    ensures HasIpHeader(g) && SegmentOffset(g) == SegmentOffset(f) && f[14..24][0] > 0
    ensures g[14..24] == f[14..24] && g[34..SegmentOffset(f)] == f[34..SegmentOffset(f)]
    ensures SrcIp(g) == newSrc && DstIp(g) == newDst && Field(g, 24) == c
  {
    RewrittenParts(f, g, newDst, newSrc, c);
    hide IsRewritten, Field, SrcIp, DstIp;
  }

  /** What a header stage does to the header's sum: rest is what neither the field nor the
      addresses contribute. */
  lemma RewrittenHeader(f: seq<byte>, g: seq<byte>, newDst: Ip, newSrc: Ip, c: word) returns (rest: nat)
    requires HasIpHeader(f) && IsRewritten(f, g, newDst, newSrc, c)
    ensures rest > 0 && HasIpHeader(g) && SegmentOffset(g) == SegmentOffset(f)
    ensures SumWords(f[14..SegmentOffset(f)]) == rest + Field(f, 24) + SumWords(SrcIp(f)) + SumWords(DstIp(f))
    ensures SumWords(g[14..SegmentOffset(f)]) == rest + c + SumWords(newSrc) + SumWords(newDst)
  {
    hide SumWords;
    var s := SegmentOffset(f);
    HeaderPartsKept(f, g, newDst, newSrc, c);
    HeaderSum(f, s);
    HeaderSum(g, s);
    SumIsPositive(f[14..24]);
    hide *;
    rest := SumWords(f[14..24]) + SumWords(f[34..s]);
  }

  /** When both headers are valid by the receiver's test. The shipped order keeps the field
      (or turns 0xffff into 0), so a valid header stays valid if and only if the new
      addresses have the same word sum as the old ones, modulo 0xffff. */
  lemma ChangedIpHeaderVerdict(f: seq<byte>, newDst: Ip, newSrc: Ip)
    requires HasIpHeader(f) && IpHeaderVerifies(f)
    requires NeedsTransportAdjust(f) ==> TransportChecksumOffset(f) + 2 <= |f|
    ensures var g := ChangedIp(f, newDst, newSrc);
            && Field(g, ETX_IP_CHECKSUM_OFFSET)
               == (if Field(f, ETX_IP_CHECKSUM_OFFSET) == 0xffff then 0 else Field(f, ETX_IP_CHECKSUM_OFFSET))
            && HasIpHeader(g)
            && (IpHeaderVerifies(g) <==>
                (SumWords(newSrc) + SumWords(newDst) - SumWords(SrcIp(f)) - SumWords(DstIp(f))) % 0xffff == 0)
  {
    hide IsRewritten, SumWords, Verifies, AdjustTransport, AdjustIpHeader, CopyAddresses, NewField;
    var t := AdjustTransport(f, newDst, newSrc);
    TransportStageKeepsHeader(f, newDst, newSrc);
    ShippedHeaderStage(t, newDst, newSrc);
    var g := ChangedIp(f, newDst, newSrc);
    var c := Field(f, 24);
    var c' := if c == 0xffff then 0 else c;
    RewrittenParts(t, g, newDst, newSrc, c');
    var rest := RewrittenHeader(t, g, newDst, newSrc, c');
    ShippedVerdict(rest, c, SumWords(SrcIp(f)) + SumWords(DstIp(f)), SumWords(newSrc) + SumWords(newDst));
  }

  /** In the intended order the header's verdict is kept as well. */
  lemma IntendedIpKeepsHeader(f: seq<byte>, newDst: Ip, newSrc: Ip)
    requires HasIpHeader(f)
    requires NeedsTransportAdjust(f) ==> TransportChecksumOffset(f) + 2 <= |f|
    ensures HasIpHeader(IntendedIp(f, newDst, newSrc))
    ensures IpHeaderVerifies(f) <==> IpHeaderVerifies(IntendedIp(f, newDst, newSrc))
  {
    hide IsRewritten, SumWords, Verifies, AdjustTransport, AdjustIpHeader, CopyAddresses, NewField;
    var t := AdjustTransport(f, newDst, newSrc);
    TransportStageKeepsHeader(f, newDst, newSrc);
    IntendedHeaderStage(t, newDst, newSrc);
    var g := IntendedIp(f, newDst, newSrc);
    var c := NewField(Field(f, 24), SrcIp(f), newSrc, DstIp(f), newDst);
    var rest := RewrittenHeader(t, g, newDst, newSrc, c);
    VerdictOfBothAddresses(rest, Field(f, 24), SrcIp(f), newSrc, DstIp(f), newDst);
  }

  lemma TransportStageKeepsHeader(f: seq<byte>, newDst: Ip, newSrc: Ip)
    requires HasIpHeader(f)
    requires NeedsTransportAdjust(f) ==> TransportChecksumOffset(f) + 2 <= |f|
    ensures var t := AdjustTransport(f, newDst, newSrc);
            && HasIpHeader(t) && SegmentOffset(t) == SegmentOffset(f)
            && t[..SegmentOffset(f)] == f[..SegmentOffset(f)]
            && t[14..SegmentOffset(f)] == f[14..SegmentOffset(f)]
            && SrcIp(t) == SrcIp(f) && DstIp(t) == DstIp(f) && Field(t, 24) == Field(f, 24)
  {
    hide NewField, Adjusted;
    if NeedsTransportAdjust(f) {
      TransportStage(f, newDst, newSrc);
    }
    var t := AdjustTransport(f, newDst, newSrc);
    assert forall i | 0 <= i < SegmentOffset(f) :: t[i] == f[i];
    assert t[26..30] == f[26..30] && t[30..34] == f[30..34];
  }

  lemma ShippedVerdict(rest: nat, c: word, olds: nat, news: nat)
    requires rest > 0 && Verifies(rest + c + olds)
    ensures Verifies(rest + (if c == 0xffff then 0 else c) + news) <==> (news - olds) % 0xffff == 0
  {
    VerifiesIffMultiple(rest + c + olds);
    VerifiesIffMultiple(rest + (if c == 0xffff then 0 else c) + news);
    var k := (rest + c + olds) / 0xffff;
    assert rest + c + olds == 0xffff * k;
    assert rest + c + news == news - olds + 0xffff * k;
  }

  lemma ResidueOfMultiple(r: int, d: int, m: int)
    requires r == d + 0xffff * m && 0 < r <= 0xffff
    ensures r == 0xffff <==> d % 0xffff == 0
  {
    if r < 0xffff {
      assert d == r + 0xffff * (-m);
    } else {
      assert d == 0xffff * (1 - m);
    }
  }

  lemma NewFieldOfZero(src: Ip, newSrc: Ip, dst: Ip, newDst: Ip)
    ensures NewField(0, src, newSrc, dst, newDst) == 0
            <==> (SumWords(newSrc) + SumWords(newDst) - SumWords(src) - SumWords(dst)) % 0xffff == 0
  {
    hide SumWords, SubWords, AddWords, AllOnes, Running;
    var k := RunningMeaning(0, src, newSrc);
    var r := Running(0, src, newSrc);
    var j := RunningMeaning(Not16(r), dst, newDst);
    var r' := Running(Not16(r), dst, newDst);
    var d := SumWords(newSrc) + SumWords(newDst) - SumWords(src) - SumWords(dst);
    assert r' == d + 0xffff * (k + j + 1) && 0 < r' <= 0xffff;
    ResidueOfMultiple(r', d, k + j + 1);
  }

  /** The transport field of the shipped result. */
  lemma ChangedIpField(f: seq<byte>, newDst: Ip, newSrc: Ip)
    requires HasIpHeader(f) && NeedsTransportAdjust(f) && TransportChecksumOffset(f) + 2 <= |f|
    ensures var at := TransportChecksumOffset(f);
            Field(ChangedIp(f, newDst, newSrc), at)
            == NewField(Field(f, at), SrcIp(f), newSrc, DstIp(f), newDst)
  {
    hide NewField, IsRewritten, AdjustTransport, AdjustIpHeader, CopyAddresses;
    var at := TransportChecksumOffset(f);
    var t := AdjustTransport(f, newDst, newSrc);
    TransportStage(f, newDst, newSrc);
    FieldOfSplice(f, at, NewField(Field(f, at), SrcIp(f), newSrc, DstIp(f), newDst));
    ShippedHeaderStage(t, newDst, newSrc);
    var c := Field(t, ETX_IP_CHECKSUM_OFFSET);
    RewrittenParts(t, ChangedIp(f, newDst, newSrc), newDst, newSrc, if c == 0xffff then 0 else c);
  }

  /** A UDP sender that uses no checksum stores zero. The rewrite adjusts that zero like any
      other field, so "no checksum" survives if and only if the new addresses have the same
      word sum as the old ones, modulo 0xffff. */
  lemma ChangedIpAndUnusedChecksum(f: seq<byte>, newDst: Ip, newSrc: Ip, end: nat)
    requires IsRewritable(f, end) && Field(f, TransportChecksumOffset(f)) == 0
    ensures Field(ChangedIp(f, newDst, newSrc), TransportChecksumOffset(f)) == 0
            <==> (SumWords(newSrc) + SumWords(newDst) - SumWords(SrcIp(f)) - SumWords(DstIp(f))) % 0xffff == 0
  {
    hide SumWords, NewField, ChangedIp, Field, NeedsTransportAdjust, TransportChecksumOffset;
    ChangedIpField(f, newDst, newSrc);
    NewFieldOfZero(SrcIp(f), newSrc, DstIp(f), newDst);
  }

  // ----- rewriting against rebuilding -----

  /** The incremental law, applied to both addresses of a pseudo-header in turn: the field
      that complements the old sum becomes the one that complements the new sum. */
  lemma NewFieldIsFull(src: Ip, dst: Ip, newSrc: Ip, newDst: Ip, rest: nat)
    requires rest > 0
    ensures NewField(Not16(Canon(rest + SumWords(src) + SumWords(dst))), src, newSrc, dst, newDst)
            == Not16(Canon(rest + SumWords(newSrc) + SumWords(newDst)))
  {
    hide SumWords, Canon, Adjusted;
    var before := rest + SumWords(src) + SumWords(dst);
    var between := rest + SumWords(newSrc) + SumWords(dst);
    AdjustMatchesCanon(before, between, src, newSrc);
    AdjustMatchesCanon(between, rest + SumWords(newSrc) + SumWords(newDst), dst, newDst);
  }

  lemma UdpChecksumSum(e: Endpoints, payload: seq<byte>)
    requires |payload| + ETX_UDP_DATA_OFFSET < 0x1_0000
    ensures var length := |payload| + ETX_UDP_HEADER_LEN;
            UdpChecksum(e.srcIp, e.dstIp, e.srcPort, e.dstPort, payload)
            == Not16(Canon(PROTO_UDP + length + SumWords(UdpHeaderWith(e.srcPort, e.dstPort, length, 0) + payload)
                           + SumWords(e.srcIp) + SumWords(e.dstIp)))
  {
    hide SumWords, Canon, UdpHeaderWith, PseudoHeader;
    var length := |payload| + ETX_UDP_HEADER_LEN;
    var pseudo := PseudoHeader(e.srcIp, e.dstIp, PROTO_UDP, length);
    var z := UdpHeaderWith(e.srcPort, e.dstPort, length, 0) + payload;
    PseudoHeaderSum(e.srcIp, e.dstIp, PROTO_UDP, length);
    SumWordsConcat(pseudo, z);
    assert SumWords(pseudo + z) == PROTO_UDP + length + SumWords(z) + SumWords(e.srcIp) + SumWords(e.dstIp);
  }

  lemma RewrittenUdpChecksum(e: Endpoints, payload: seq<byte>, newDst: Ip, newSrc: Ip)
    requires |payload| + ETX_UDP_DATA_OFFSET < 0x1_0000
    ensures NewField(UdpChecksum(e.srcIp, e.dstIp, e.srcPort, e.dstPort, payload), e.srcIp, newSrc, e.dstIp, newDst)
            == UdpChecksum(newSrc, newDst, e.srcPort, e.dstPort, payload)
  {
    hide SumWords, Canon, NewField, UdpChecksum;
    var length := |payload| + ETX_UDP_HEADER_LEN;
    UdpChecksumSum(e, payload);
    UdpChecksumSum(e.(srcIp := newSrc, dstIp := newDst), payload);
    NewFieldIsFull(e.srcIp, e.dstIp, newSrc, newDst,
                   PROTO_UDP + length + SumWords(UdpHeaderWith(e.srcPort, e.dstPort, length, 0) + payload));
  }

  function HeaderChecksum(totalLen: word, id: word, srcIp: Ip, dstIp: Ip): word {
    Not16(Canon(SumWords(IpHeaderWith(totalLen, id, PROTO_UDP, srcIp, dstIp, 0))))
  }

  lemma RewrittenHeaderChecksum(totalLen: word, id: word, srcIp: Ip, dstIp: Ip, newDst: Ip, newSrc: Ip)
    ensures NewField(HeaderChecksum(totalLen, id, srcIp, dstIp), srcIp, newSrc, dstIp, newDst)
            == HeaderChecksum(totalLen, id, newSrc, newDst)
    ensures HeaderChecksum(totalLen, id, srcIp, dstIp) != 0xffff
  {
    hide SumWords, Adjusted, NewField, IpFixedPart, Canon;
    var h := IpFixedPart(totalLen, id, PROTO_UDP, 0);
    FixedPartIsPositive(totalLen, id);
    SumWordsConcat3(h, srcIp, dstIp);
    SumWordsConcat3(h, newSrc, newDst);
    NewFieldIsFull(srcIp, dstIp, newSrc, newDst, SumWords(h));
    var k := CanonIsCongruent(SumWords(h) + SumWords(srcIp) + SumWords(dstIp));
  }

  lemma FixedPartIsPositive(totalLen: word, id: word)
    ensures SumWords(IpFixedPart(totalLen, id, PROTO_UDP, 0)) > 0
  {
    assert IpFixedPart(totalLen, id, PROTO_UDP, 0)[0] == 0x45;
  }

  /** The segment of a built frame after the transport stage is the segment that would have
      been built for the new addresses. */
  lemma RewrittenSegment(e: Endpoints, id: word, payload: seq<byte>, newDst: Ip, newSrc: Ip)
    requires |payload| + ETX_UDP_DATA_OFFSET < 0x1_0000
    ensures var f := UdpFrame(e, id, payload);
            && HasIpHeader(f) && NeedsTransportAdjust(f) && TransportChecksumOffset(f) == ETX_UDP_CHECKSUM_OFFSET
            && AdjustTransport(f, newDst, newSrc)
               == f[..34] + UdpSegment(newSrc, newDst, e.srcPort, e.dstPort, payload)
  {
    hide NewField, UdpChecksum, Canon, SumWords;
    BuiltIsAdjustable(e, id, payload);
    var f := UdpFrame(e, id, payload);
    var c' := UdpChecksum(newSrc, newDst, e.srcPort, e.dstPort, payload);
    TransportStage(f, newDst, newSrc);
    RewrittenUdpChecksum(e, payload, newDst, newSrc);
    var u := f[34..];
    assert Splice(f, 40, Encode16(c')) == f[..34] + (u[..6] + Encode16(c') + u[8..]);
    assert u[..6] == Encode16(e.srcPort) + Encode16(e.dstPort) + Encode16(|payload| + ETX_UDP_HEADER_LEN);
    assert u[8..] == payload;
  }

  lemma BuiltIsAdjustable(e: Endpoints, id: word, payload: seq<byte>)
    requires |payload| + ETX_UDP_DATA_OFFSET < 0x1_0000
    ensures var f := UdpFrame(e, id, payload);
            && HasIpHeader(f) && NeedsTransportAdjust(f) && TransportChecksumOffset(f) == ETX_UDP_CHECKSUM_OFFSET
            && SrcIp(f) == e.srcIp && DstIp(f) == e.dstIp
            && f[34..] == UdpSegment(e.srcIp, e.dstIp, e.srcPort, e.dstPort, payload)
            && Field(f, ETX_UDP_CHECKSUM_OFFSET) == UdpChecksum(e.srcIp, e.dstIp, e.srcPort, e.dstPort, payload)
  {
    hide UdpChecksum, Canon, SumWords, UdpFrame, UdpSegment, IpHeader;
    BuiltParts(e, id, payload);
    BuiltFrameFields(e, id, payload);
    var f := UdpFrame(e, id, payload);
    ChecksumOctets(e, payload, f);
    hide EthHeader, Word;
  }

  lemma ChecksumOctets(e: Endpoints, payload: seq<byte>, f: seq<byte>)
    requires |payload| + ETX_UDP_DATA_OFFSET < 0x1_0000 && |f| >= 42
    requires f[34..] == UdpSegment(e.srcIp, e.dstIp, e.srcPort, e.dstPort, payload)
    ensures Field(f, ETX_UDP_CHECKSUM_OFFSET) == UdpChecksum(e.srcIp, e.dstIp, e.srcPort, e.dstPort, payload)
  {
    hide UdpChecksum, Hi, Lo, Word;
    var c := UdpChecksum(e.srcIp, e.dstIp, e.srcPort, e.dstPort, payload);
    var u := UdpSegment(e.srcIp, e.dstIp, e.srcPort, e.dstPort, payload);
    assert u[6] == Hi(c) && u[7] == Lo(c);
    hide UdpSegment;
    assert f[40] == f[34..][6] && f[41] == f[34..][7];
    WordOfHiLo(c);
  }

  /** Rewriting the addresses of a built frame, in the intended order, gives bit for bit the
      frame that would have been built for the new addresses. The shipped order gives the
      same frame except for the IP header checksum, which is still the old one. */
  lemma RewriteIsRebuild(e: Endpoints, id: word, payload: seq<byte>, newDst: Ip, newSrc: Ip)
    requires |payload| + ETX_UDP_DATA_OFFSET < 0x1_0000
    ensures var f := UdpFrame(e, id, payload);
            var r := UdpFrame(e.(dstIp := newDst, srcIp := newSrc), id, payload);
            && IsIpFrame(f) && (NeedsTransportAdjust(f) ==> TransportChecksumOffset(f) + 2 <= |f|)
            && IntendedIp(f, newDst, newSrc) == r
            && ChangedIp(f, newDst, newSrc)
               == Splice(r, ETX_IP_CHECKSUM_OFFSET, Encode16(Field(f, ETX_IP_CHECKSUM_OFFSET)))
  {
    hide NewField, UdpChecksum, Canon, SumWords, AdjustTransport, CopyAddresses, AdjustIpHeader, HeaderChecksum;
    var f := UdpFrame(e, id, payload);
    var e' := e.(dstIp := newDst, srcIp := newSrc);
    var r := UdpFrame(e', id, payload);
    var totalLen := ETX_IP_HEADER_LEN + ETX_UDP_HEADER_LEN + |payload|;
    BuiltParts(e, id, payload);
    BuiltParts(e', id, payload);
    RewrittenSegment(e, id, payload, newDst, newSrc);
    var t := AdjustTransport(f, newDst, newSrc);
    TransportStageKeepsHeader(f, newDst, newSrc);
    HeaderFieldOfBuilt(e, id, payload);
    HeaderFieldOfBuilt(e', id, payload);
    RewrittenHeaderChecksum(totalLen, id, e.srcIp, e.dstIp, newDst, newSrc);
    IntendedHeaderStage(t, newDst, newSrc);
    ShippedHeaderStage(t, newDst, newSrc);
    PrefixOfBuilt(e, e', id, payload);
    RewrittenIsSplice(t, IntendedIp(f, newDst, newSrc), r, newDst, newSrc, Field(r, 24));
    SpliceOwnField(r, 24);
    RewrittenIsSplice(t, ChangedIp(f, newDst, newSrc), r, newDst, newSrc, Field(f, 24));
  }

  lemma HeaderFieldOfBuilt(e: Endpoints, id: word, payload: seq<byte>)
    requires |payload| + ETX_UDP_DATA_OFFSET < 0x1_0000
    ensures Field(UdpFrame(e, id, payload), 24)
            == HeaderChecksum(ETX_IP_HEADER_LEN + ETX_UDP_HEADER_LEN + |payload|, id, e.srcIp, e.dstIp)
  {
    hide Canon, SumWords;
    BuiltParts(e, id, payload);
    var f := UdpFrame(e, id, payload);
    var totalLen := ETX_IP_HEADER_LEN + ETX_UDP_HEADER_LEN + |payload|;
    var c := HeaderChecksum(totalLen, id, e.srcIp, e.dstIp);
    var h := IpHeader(totalLen, id, PROTO_UDP, e.srcIp, e.dstIp);
    assert f[24] == f[14..34][10] == h[10] == Hi(c) && f[25] == f[14..34][11] == h[11] == Lo(c);
    WordOfHiLo(c);
  }

  lemma PrefixOfBuilt(e: Endpoints, e': Endpoints, id: word, payload: seq<byte>)
    requires |payload| + ETX_UDP_DATA_OFFSET < 0x1_0000
    requires e' == e.(dstIp := e'.dstIp, srcIp := e'.srcIp)
    ensures UdpFrame(e, id, payload)[..24] == UdpFrame(e', id, payload)[..24]
  {
    hide Canon, SumWords, UdpChecksum;
    var f, r := UdpFrame(e, id, payload), UdpFrame(e', id, payload);
    BuiltParts(e, id, payload);
    BuiltParts(e', id, payload);
    var totalLen := ETX_IP_HEADER_LEN + ETX_UDP_HEADER_LEN + |payload|;
    var h, k := IpHeader(totalLen, id, PROTO_UDP, e.srcIp, e.dstIp), IpHeader(totalLen, id, PROTO_UDP, e'.srcIp, e'.dstIp);
    assert h[..10] == k[..10];
    assert f[..24] == f[..14] + f[14..34][..10] && r[..24] == r[..14] + r[14..34][..10];
  }

  /** A rewritten frame that agrees with r before the checksum and after the addresses, and
      carries r's addresses, is r with that checksum. */
  lemma RewrittenIsSplice(t: seq<byte>, g: seq<byte>, r: seq<byte>, newDst: Ip, newSrc: Ip, c: word)
    requires IsIpFrame(t) && |t| == |r| && IsRewritten(t, g, newDst, newSrc, c)
    requires t[..24] == r[..24] && t[34..] == r[34..] && SrcIp(r) == newSrc && DstIp(r) == newDst
    ensures g == Splice(r, 24, Encode16(c))
  {
    assert g == g[..24] + g[24..34] + g[34..];
    assert r[26..34] == newSrc + newDst by {
      assert r[26..34] == r[26..30] + r[30..34];
    }
    assert Splice(r, 24, Encode16(c)) == r[..24] + (Encode16(c) + r[26..34]) + r[34..];
    assert Encode16(c) + newSrc + newDst == Encode16(c) + (newSrc + newDst);
  }

  /** An input that the shipped order gets wrong: moving a built frame from 10.0.0.1 to
      10.0.0.2 leaves an IP header that a receiver rejects. */
  lemma ShippedOrderBreaksHeader(e: Endpoints, id: word, payload: seq<byte>)
    requires |payload| + ETX_UDP_DATA_OFFSET < 0x1_0000 && e.srcIp == [10, 0, 0, 1]
    ensures var f := UdpFrame(e, id, payload);
            && HasIpHeader(f) && IpHeaderVerifies(f)
            && (NeedsTransportAdjust(f) ==> TransportChecksumOffset(f) + 2 <= |f|)
            && HasIpHeader(ChangedIp(f, e.dstIp, [10, 0, 0, 2]))
            && !IpHeaderVerifies(ChangedIp(f, e.dstIp, [10, 0, 0, 2]))
  {
    hide *;
    BuiltFrameVerifies(e, id, payload);
    BuiltParts(e, id, payload);
    RewriteIsRebuild(e, id, payload, e.dstIp, [10, 0, 0, 2]);
    ChangedIpHeaderVerdict(UdpFrame(e, id, payload), e.dstIp, [10, 0, 0, 2]);
    SumOfAddress(10, 0, 0, 1);
    SumOfAddress(10, 0, 0, 2);
  }

  lemma SumOfAddress(a: byte, b: byte, c: byte, d: byte)
    ensures SumWords([a, b, c, d]) == 0x100 * (a as int + c as int) + b as int + d as int
  {
    assert [a, b, c, d][2..] == [c, d];
    SumWordsOfPair(c, d);
  }

  /** An input for it: moving a frame without a transport checksum from 10.0.0.1 to 10.0.0.2
      brings a checksum into use. */
  lemma UnusedChecksumComesIntoUse(f: seq<byte>, end: nat)
    requires IsRewritable(f, end) && Field(f, TransportChecksumOffset(f)) == 0 && SrcIp(f) == [10, 0, 0, 1]
    ensures Field(ChangedIp(f, DstIp(f), [10, 0, 0, 2]), TransportChecksumOffset(f)) != 0
  {
    hide ChangedIp, SumWords, NeedsTransportAdjust, TransportChecksumOffset, Field;
    ChangedIpAndUnusedChecksum(f, DstIp(f), [10, 0, 0, 2], end);
    SumOfAddress(10, 0, 0, 1);
    SumOfAddress(10, 0, 0, 2);
  }

  /** Such a frame is any built one whose UDP checksum field is cleared. */
  lemma ClearedFrameIsRewritable(e: Endpoints, id: word, payload: seq<byte>)
    requires |payload| + ETX_UDP_DATA_OFFSET < 0x1_0000
    ensures IsCleared(Splice(UdpFrame(e, id, payload), ETX_UDP_CHECKSUM_OFFSET, [0, 0]), e.srcIp)
  {
    hide UdpFrame, UdpChecksum, IsCleared;
    BuiltIsAdjustable(e, id, payload);
    ClearField(UdpFrame(e, id, payload));
  }

  /** A rewritable frame from the given source that uses no transport checksum. */
  predicate IsCleared(f: seq<byte>, src: Ip) {
    IsRewritable(f, |f|) && SrcIp(f) == src && Field(f, TransportChecksumOffset(f)) == 0
  }

  lemma ClearField(f: seq<byte>)
    requires HasIpHeader(f) && NeedsTransportAdjust(f) && TransportChecksumOffset(f) == 40
    requires 42 <= |f| < 0x1_0000
    ensures IsCleared(Splice(f, 40, [0, 0]), SrcIp(f))
  {
    hide Splice, Word;
    var g := Splice(f, 40, [0, 0]);
    assert g[14] == f[14] && g[20] == f[20] && g[21] == f[21] && g[23] == f[23];
    assert g[40] == 0 && g[41] == 0;
    assert SrcIp(g) == SrcIp(f);
    ZeroWord();
    hide SrcIp;
  }
}
