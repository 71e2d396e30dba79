/** The checksum engine, the frame builders and the address rewriter, working in place. */
module EthernetUtilities {
  import opened Bytes
  import opened OnesComplement
  import opened Frames

  /** The largest frame a deployment allows; its length fits the 16-bit size variables. */
  type FrameLimit = n: nat | ETX_UDP_DATA_OFFSET <= n < 0x1_0000 witness 1518

  class EthernetUtilities {
    /** The IP identification counter, which wraps at 16 bits. */
    var ipId: word
    /** The configured largest frame. */
    const maxFrameLen: FrameLimit

    constructor (maxFrameLen: FrameLimit)
      ensures ipId == 0 && this.maxFrameLen == maxFrameLen
    {
      ipId := 0;
      this.maxFrameLen := maxFrameLen;
    }

    /** The word-summing loop and its two folds, in 32-bit and 16-bit arithmetic. */
    static method CalculateNetworkChecksum(data: array<byte>, base: nat, dataSize: nat, startValue: word)
      returns (r: word)
      requires 1 <= dataSize < 0x1_0000 && base + dataSize <= data.Length
      ensures r == Canon(startValue + SumWords(data[base..base + dataSize]))
    {
      hide Canon, SumWords, Word;
      var sum: nat := 0;
      var i := 0;
      ghost var k := 0;
      ghost var s := data[base..base + dataSize];
      SumWordsBound(s, 0x8000);
      assert s[0..] == s;
      while i < dataSize - 2
        invariant 0 <= i == 2 * k < dataSize
        invariant sum + SumWords(s[i..]) == SumWords(s)
      {
        SumWordsStep(s, i);
        assert data[base + i] == s[i] && data[base + i + 1] == s[i + 1];
        sum := U32(sum + Word(data[base + i], data[base + i + 1]));
        i, k := U16(i + 2), k + 1;
      }
      SumWordsTail(s, i, k);
      if dataSize % 2 == 1 {
        sum := U32(sum + Word(data[base + dataSize - 1], 0));
      } else {
        sum := U32(sum + Word(data[base + dataSize - 2], data[base + dataSize - 1]));
      }
      assert sum == SumWords(s);
      sum := U32(sum + startValue);
      r := FoldTwice(sum);
    }

    static method FoldTwice(total: nat) returns (r: word)
      requires total < 0x1_0000_0000
      ensures r == Canon(total)
    {
      TwoFoldsSuffice(total);
      var sum := Fold(total);
      sum := Fold(sum);
      r := U16(sum);
    }

    /** The number of octets that the loops of the adjuster read: whole words, also for an odd
        count. */
    static function Covered(len: nat): (r: nat)
      ensures len <= r <= len + 1 && r % 2 == 0
    {
      len + len % 2
    }

    /** The first loop of the adjuster: each old word is subtracted on a signed 32-bit value,
        and a result that is not positive borrows around. */
    static method SubtractWords(start: word, o: seq<byte>, olen: nat) returns (x: int)
      requires olen < 0xffff && Covered(olen) <= |o|
      ensures x == SubWords(start, o[..Covered(olen)])
    {
      hide SubWords, AddWords, Word;
      x := start;
      var i := 0;
      ghost var k, h, s := 0, Covered(olen) / 2, o[..Covered(olen)];
      assert s[0..] == s;
      while i < olen
        invariant i == 2 * k && 0 <= k <= h && |s| == 2 * h
        invariant 0 <= x <= 0xffff
        invariant SubWords(x, s[i..]) == SubWords(start, s)
      {
        RunningStep(x, s, i);
        assert s[i] == o[i] && s[i + 1] == o[i + 1];
        x := x - Word(o[i], o[i + 1]);
        if x <= 0 {
          x := x - 1;
          x := U16(x);
        }
        i, k := U16(i + 2), k + 1;
      }
      assert s[i..] == [];
      RunningEnds(x);
    }

    /** The second loop: each new word is added, and a carry into bit 16 goes around. */
    static method AccumulateWords(start: word, n: seq<byte>, nlen: nat) returns (x: int)
      requires nlen < 0xffff && Covered(nlen) <= |n|
      ensures x == AddWords(start, n[..Covered(nlen)])
    {
      hide SubWords, AddWords, Word;
      x := start;
      var i := 0;
      ghost var k, h, s := 0, Covered(nlen) / 2, n[..Covered(nlen)];
      assert s[0..] == s;
      while i < nlen
        invariant i == 2 * k && 0 <= k <= h && |s| == 2 * h
        invariant 0 <= x <= 0xffff
        invariant AddWords(x, s[i..]) == AddWords(start, s)
      {
        RunningStep(x, s, i);
        assert s[i] == n[i] && s[i + 1] == n[i + 1];
        x := x + Word(n[i], n[i + 1]);
        if Bit16(x) {
          x := x + 1;
          x := U16(x);
        }
        i, k := U16(i + 2), k + 1;
      }
      assert s[i..] == [];
      RunningEnds(x);
    }

    /** The incremental adjuster: the complemented field runs through both loops and is
        complemented back into the frame. */
    static method AdjustNetworkChecksum(frame: array<byte>, at: nat, o: seq<byte>, olen: nat, n: seq<byte>, nlen: nat)
      requires at + 2 <= frame.Length
      requires olen < 0xffff && Covered(olen) <= |o| && nlen < 0xffff && Covered(nlen) <= |n|
      modifies frame
      ensures frame[..] == AdjustAt(old(frame[..]), at, o[..Covered(olen)], n[..Covered(nlen)])
    {
      var x: int := Word(frame[at], frame[at + 1]);
      x := Not16(x);
      x := SubtractWords(x, o, olen);
      x := AccumulateWords(x, n, nlen);
      x := Not16(x);
      Store16(frame, at, x);
    }

    static method Store8(frame: array<byte>, at: nat, x: byte)
      requires at < frame.Length
      modifies frame
      ensures frame[..at + 1] == old(frame[..at]) + [x]
      ensures Untouched(old(frame[..]), frame[..], at + 1)
    {
      frame[at] := x;
    }

    static method Store16(frame: array<byte>, at: nat, x: word)
      requires at + 2 <= frame.Length
      modifies frame
      ensures frame[..] == Splice(old(frame[..]), at, Encode16(x))
      ensures frame[..at + 2] == old(frame[..at]) + Encode16(x)
      ensures Untouched(old(frame[..]), frame[..], at + 2)
    {
      frame[at] := Hi(x);
      frame[at + 1] := Lo(x);
    }

    /** The pair of adjustments that changeIp makes at a checksum field: from the source address
        in the frame to the new one, then from the destination address. */
    static method AdjustForAddresses(frame: array<byte>, at: nat, newDstIp: Ip, newSrcIp: Ip)
      requires IsIpFrame(frame[..]) && at + 2 <= frame.Length
      modifies frame
      ensures frame[..] == (var g := AdjustAt(old(frame[..]), at, SrcIp(old(frame[..])), newSrcIp);
                            AdjustAt(g, at, DstIp(g), newDstIp))
    {
      hide AdjustAt;
      ghost var f := frame[..];
      var srcIp := frame[ETX_IP_SIP_OFFSET..ETX_IP_SIP_OFFSET + 4];
      assert srcIp == SrcIp(f) && srcIp[..4] == srcIp && newSrcIp[..4] == newSrcIp;
      AdjustNetworkChecksum(frame, at, srcIp, 4, newSrcIp, 4);
      ghost var g := frame[..];
      var dstIp := frame[ETX_IP_DIP_OFFSET..ETX_IP_DIP_OFFSET + 4];
      assert dstIp == DstIp(g) && dstIp[..4] == dstIp && newDstIp[..4] == newDstIp;
      AdjustNetworkChecksum(frame, at, dstIp, 4, newDstIp, 4);
    }

    static method ChangeIp(frame: array<byte>, newDstIp: Ip, newSrcIp: Ip)
      requires IsIpFrame(frame[..])
      requires NeedsTransportAdjust(frame[..]) ==> TransportChecksumOffset(frame[..]) + 2 <= frame.Length
      modifies frame
      ensures frame[..] == ChangedIp(old(frame[..]), newDstIp, newSrcIp)
    {
      hide AdjustAt, Splice;
      var offset := 0;
      var needProtoCsCalculation := false;
      var fragmentOffset := Word(frame[ETX_IP_FLAG_FRAGOFFS_OFFSET], frame[ETX_IP_FLAG_FRAGOFFS_OFFSET + 1]) % 0x2000;
      if fragmentOffset == 0 {
        if frame[ETX_IP_PROTO_OFFSET] == 17 {
          offset := ETX_ETH_HEADER_LEN + (frame[ETX_IP_IHL_OFFSET] % 16) * 4 + 6;
          needProtoCsCalculation := true;
        } else if frame[ETX_IP_PROTO_OFFSET] == 6 {
          offset := ETX_ETH_HEADER_LEN + (frame[ETX_IP_IHL_OFFSET] % 16) * 4 + 16;
          needProtoCsCalculation := true;
        }
      }
      if needProtoCsCalculation {
        AdjustForAddresses(frame, offset, newDstIp, newSrcIp);
      }
      assert frame[..] == AdjustTransport(old(frame[..]), newDstIp, newSrcIp);
      Memcpy(frame, ETX_IP_DIP_OFFSET, newDstIp);
      Memcpy(frame, ETX_IP_SIP_OFFSET, newSrcIp);
      AdjustForAddresses(frame, ETX_IP_CHECKSUM_OFFSET, newDstIp, newSrcIp);
    }

    // ----- building frames -----

    static method StoreEthHeader(frame: array<byte>, srcMac: Mac, dstMac: Mac)
      requires ETX_ETH_HEADER_LEN <= frame.Length
      modifies frame
      ensures frame[..ETX_ETH_HEADER_LEN] == EthHeader(dstMac, srcMac)
      ensures Untouched(old(frame[..]), frame[..], ETX_ETH_HEADER_LEN)
    {
      hide Splice;
      Memcpy(frame, 0, dstMac);
      assert frame[..6] == dstMac;
      Memcpy(frame, 6, srcMac);
      assert frame[..12] == dstMac + srcMac;
      Store8(frame, ETX_ETH_ETHER_TYPE_OFFSET, 0x08);
      assert frame[..13] == dstMac + srcMac + [0x08];
      Store8(frame, ETX_ETH_ETHER_TYPE_OFFSET + 1, 0x00);
      assert frame[..14] == dstMac + srcMac + [0x08] + [0x00];
    }

    /** The IP header up to and including its checksum field, which is left zero. */
    method StoreIpFixedPart(frame: array<byte>, totalLen: word, protocol: byte)
      requires ETX_IP_SIP_OFFSET <= frame.Length
      modifies frame
      ensures frame[..ETX_IP_SIP_OFFSET] == old(frame[..ETX_ETH_HEADER_LEN]) + IpFixedPart(totalLen, ipId, protocol, 0)
      ensures Untouched(old(frame[..]), frame[..], ETX_IP_SIP_OFFSET)
    {
      hide Hi, Lo;
      Store8(frame, ETX_IP_IHL_OFFSET, 0x45);
      Store8(frame, ETX_IP_IHL_OFFSET + 1, 0x00);
      Store16(frame, 16, totalLen);
      Store16(frame, 18, ipId);
      Store8(frame, ETX_IP_FLAG_FRAGOFFS_OFFSET, 0x00);
      Store8(frame, ETX_IP_FLAG_FRAGOFFS_OFFSET + 1, 0x00);
      Store8(frame, 22, 128);
      Store8(frame, ETX_IP_PROTO_OFFSET, protocol);
      Store16(frame, ETX_IP_CHECKSUM_OFFSET, 0);
    }

    /** Ethernet and IP header, both in place, with a zero header checksum. */
    method StoreIpHeader(frame: array<byte>, dstIp: Ip, srcIp: Ip, totalLen: word, srcMac: Mac, dstMac: Mac, protocol: byte)
      requires ETX_UDP_HEADER_OFFSET <= frame.Length
      modifies frame
      ensures frame[..ETX_UDP_HEADER_OFFSET]
              == EthHeader(dstMac, srcMac) + IpHeaderWith(totalLen, ipId, protocol, srcIp, dstIp, 0)
      ensures Untouched(old(frame[..]), frame[..], ETX_UDP_HEADER_OFFSET)
    {
      StoreEthHeader(frame, srcMac, dstMac);
      StoreIpFixedPart(frame, totalLen, protocol);
      Memcpy(frame, ETX_IP_SIP_OFFSET, srcIp);
      Memcpy(frame, ETX_IP_DIP_OFFSET, dstIp);
    }

    static method StoreUdpHeader(frame: array<byte>, dstPort: word, srcPort: word, length: word)
      requires ETX_UDP_DATA_OFFSET <= frame.Length
      modifies frame
      ensures frame[..ETX_UDP_DATA_OFFSET]
              == old(frame[..ETX_UDP_HEADER_OFFSET]) + UdpHeaderWith(srcPort, dstPort, length, 0)
      ensures Untouched(old(frame[..]), frame[..], ETX_UDP_DATA_OFFSET)
    {
      Store16(frame, ETX_UDP_HEADER_OFFSET, srcPort);
      Store16(frame, ETX_UDP_HEADER_OFFSET + 2, dstPort);
      Store16(frame, ETX_UDP_HEADER_OFFSET + 4, length);
      Store16(frame, ETX_UDP_CHECKSUM_OFFSET, 0);
    }

    static method SealIpHeaderInPlace(frame: array<byte>)
      requires ETX_UDP_HEADER_OFFSET <= frame.Length
      modifies frame
      ensures frame[..] == SealIpHeader(old(frame[..]))
    {
      assert frame[..][14..34] == frame[14..34];
      CanonAbsorbs(0, SumWords(frame[14..34]));
      var checksum := CalculateNetworkChecksum(frame, ETX_ETH_HEADER_LEN, ETX_IP_HEADER_LEN, 0);
      Store16(frame, ETX_IP_CHECKSUM_OFFSET, Not16(checksum));
    }

    static method PseudoHeaderBuffer(dstIp: Ip, srcIp: Ip, length: word) returns (p: array<byte>)
      ensures fresh(p) && p.Length == 12 && p[0..12] == PseudoHeader(srcIp, dstIp, PROTO_UDP, length)
    {
      hide Hi, Lo;
      p := new byte[12];
      Memcpy(p, 0, srcIp);
      Memcpy(p, 4, dstIp);
      Store8(p, 8, 0);
      Store8(p, 9, PROTO_UDP);
      Store16(p, 10, length);
      assert p[0..12] == p[..12];
    }

    /** The pseudo-header lives in a buffer of its own; its checksum seeds the segment's. */
    static method SealUdpInPlace(frame: array<byte>, dstIp: Ip, srcIp: Ip, length: word)
      requires ETX_UDP_HEADER_LEN <= length && ETX_UDP_HEADER_OFFSET + length <= frame.Length
      modifies frame
      ensures frame[..] == SealUdp(old(frame[..]), srcIp, dstIp, length)
    {
      hide SumWords, Canon;
      var pseudoheader := PseudoHeaderBuffer(dstIp, srcIp, length);
      var seed := CalculateNetworkChecksum(pseudoheader, 0, 12, 0);
      ghost var segment := frame[ETX_UDP_HEADER_OFFSET..ETX_UDP_HEADER_OFFSET + length];
      assert frame[..][ETX_UDP_HEADER_OFFSET..ETX_UDP_HEADER_OFFSET + length] == segment;
      Chaining(0, PseudoHeader(srcIp, dstIp, PROTO_UDP, length), segment);
      var checksum := CalculateNetworkChecksum(frame, ETX_UDP_HEADER_OFFSET, length, seed);
      Store16(frame, ETX_UDP_CHECKSUM_OFFSET, Not16(checksum));
    }

    method CreateIpHeader(frame: array<byte>, dstIp: Ip, srcIp: Ip, dataSize: nat, srcMac: Mac, dstMac: Mac, protocol: byte)
      requires ETX_UDP_HEADER_OFFSET <= frame.Length
      modifies frame, this`ipId
      ensures frame[..ETX_UDP_HEADER_OFFSET] == EthHeader(dstMac, srcMac)
              + IpHeader(U16(ETX_IP_HEADER_LEN + dataSize), old(ipId), protocol, srcIp, dstIp)
      ensures Untouched(old(frame[..]), frame[..], ETX_UDP_HEADER_OFFSET)
      ensures ipId == U16(old(ipId) + 1)
    {
      var totalLen := U16(ETX_IP_HEADER_LEN + dataSize);
      StoreIpHeader(frame, dstIp, srcIp, totalLen, srcMac, dstMac, protocol);
      ghost var f := frame[..];
      assert f[14..34] == frame[..34][14..];
      IpHeaderIsSealed(f, totalLen, ipId, protocol, srcIp, dstIp);
      SealIpHeaderInPlace(frame);
      assert frame[..34] == f[..34][..14] + SealIpHeader(f)[14..34];
      ipId := U16(ipId + 1);
    }

    /** Both checksums of an otherwise complete frame, and the next identification. */
    method SealInPlace(frame: array<byte>, e: Endpoints, ghost payload: seq<byte>, dataSize: nat)
      requires dataSize == |payload| && IsUnsealed(frame[..], e, ipId, payload)
      modifies frame, this`ipId
      ensures frame[..ETX_UDP_DATA_OFFSET + dataSize] == UdpFrame(e, old(ipId), payload)
      ensures Untouched(old(frame[..]), frame[..], ETX_UDP_DATA_OFFSET)
      ensures ipId == U16(old(ipId) + 1)
    {
      SealedIsUdpFrame(frame[..], e, ipId, payload);
      SealUdpInPlace(frame, e.dstIp, e.srcIp, dataSize + ETX_UDP_HEADER_LEN);
      SealIpHeaderInPlace(frame);
      assert frame[..ETX_UDP_DATA_OFFSET + dataSize] == frame[..][..ETX_UDP_DATA_OFFSET + dataSize];
      ipId := U16(ipId + 1);
    }

    /** Headers and checksums around a payload that is already in the frame. */
    method CreateUdpHeader(frame: array<byte>, e: Endpoints, dataSize: nat) returns (ok: bool, headerSize: word)
      requires dataSize <= maxFrameLen - ETX_UDP_DATA_OFFSET ==> ETX_UDP_DATA_OFFSET + dataSize <= frame.Length
      modifies frame, this`ipId
      ensures headerSize == ETX_UDP_DATA_OFFSET
      ensures ok == (dataSize <= maxFrameLen - ETX_UDP_DATA_OFFSET)
      ensures !ok ==> frame[..] == old(frame[..]) && ipId == old(ipId)
      ensures ok ==>
                && frame[..ETX_UDP_DATA_OFFSET + dataSize]
                   == UdpFrame(e, old(ipId), old(frame[ETX_UDP_DATA_OFFSET..ETX_UDP_DATA_OFFSET + dataSize]))
                && Untouched(old(frame[..]), frame[..], ETX_UDP_DATA_OFFSET)
                && ipId == U16(old(ipId) + 1)
    {
      headerSize := ETX_UDP_DATA_OFFSET;
      if dataSize > maxFrameLen - ETX_UDP_DATA_OFFSET {
        return false, headerSize;
      }
      ok := true;
      ghost var payload := frame[ETX_UDP_DATA_OFFSET..ETX_UDP_DATA_OFFSET + dataSize];
      StoreHeaders(frame, e, dataSize);
      assert frame[ETX_UDP_HEADER_OFFSET..ETX_UDP_DATA_OFFSET + dataSize]
          == frame[..ETX_UDP_DATA_OFFSET][ETX_UDP_HEADER_OFFSET..] + payload;
      UnsealedFromParts(frame[..], e, ipId, payload);
      SealInPlace(frame, e, payload, dataSize);
    }

    /** All header fields, with both checksums zero. */
    method StoreHeaders(frame: array<byte>, e: Endpoints, dataSize: nat)
      requires dataSize <= maxFrameLen - ETX_UDP_DATA_OFFSET && ETX_UDP_DATA_OFFSET + dataSize <= frame.Length
      modifies frame
      ensures frame[..ETX_UDP_DATA_OFFSET] == UnsealedHeaders(e, ipId, dataSize)
      ensures Untouched(old(frame[..]), frame[..], ETX_UDP_DATA_OFFSET)
    {
      StoreIpHeader(frame, e.dstIp, e.srcIp, U16(ETX_IP_HEADER_LEN + ETX_UDP_HEADER_LEN + dataSize),
                    e.srcMac, e.dstMac, PROTO_UDP);
      StoreUdpHeader(frame, e.dstPort, e.srcPort, U16(dataSize + ETX_UDP_HEADER_LEN));
    }

    /** A complete frame; an oversized payload is refused and only the size is reported. */
    method CreateUdpFrame(frame: array<byte>, e: Endpoints, udpData: seq<byte>) returns (ok: bool, frameSize: word)
      requires |udpData| <= maxFrameLen - ETX_UDP_DATA_OFFSET ==> ETX_UDP_DATA_OFFSET + |udpData| <= frame.Length
      modifies frame, this`ipId
      ensures frameSize == U16(ETX_UDP_DATA_OFFSET + |udpData|)
      ensures ok == (|udpData| <= maxFrameLen - ETX_UDP_DATA_OFFSET)
      ensures !ok ==> frame[..] == old(frame[..]) && ipId == old(ipId)
      ensures ok ==>
                && frame[..ETX_UDP_DATA_OFFSET + |udpData|] == UdpFrame(e, old(ipId), udpData)
                && Untouched(old(frame[..]), frame[..], ETX_UDP_DATA_OFFSET + |udpData|)
                && ipId == U16(old(ipId) + 1)
    {
      frameSize := U16(ETX_UDP_DATA_OFFSET + |udpData|);
      if |udpData| > maxFrameLen - ETX_UDP_DATA_OFFSET {
        return false, frameSize;
      }
      ok := true;
      StoreHeaders(frame, e, |udpData|);
      Memcpy(frame, ETX_UDP_DATA_OFFSET, udpData);
      assert frame[..ETX_UDP_DATA_OFFSET] == frame[..ETX_UDP_DATA_OFFSET + |udpData|][..ETX_UDP_DATA_OFFSET];
      UnsealedFromParts(frame[..], e, ipId, udpData);
      SealInPlace(frame, e, udpData, |udpData|);
    }

    /** The payload's offset and its length, as read back from the headers. */
    static method GetUdpData(frame: array<byte>) returns (at: nat, dataSize: word)
      requires IsIpFrame(frame[..]) && SegmentOffset(frame[..]) + 6 <= frame.Length
      ensures (at, dataSize) == UdpDataOf(frame[..])
    {
      var tempOffset := (frame[ETX_IP_IHL_OFFSET] % 16) * 4 + ETX_ETH_HEADER_LEN;
      dataSize := U16(Word(frame[tempOffset + 4], frame[tempOffset + 5]) - ETX_UDP_HEADER_LEN);
      at := tempOffset + ETX_UDP_HEADER_LEN;
    }
  }
}
