/** ARP packets, and the controller that learns from them, answers them and ages its table. */
module ArpController {
  import opened Bytes
  import opened ArpTable
  import opened Sequences

  const ETX_ARP_FRAME_LEN := 42
  const ETX_ARP_OPCODE_OFFSET := 20
  const ETX_ARP_SENDER_MAC_OFFSET := 22
  const ETX_ARP_SENDER_IP_OFFSET := 28
  const ETX_ARP_TARGET_MAC_OFFSET := 32
  const ETX_ARP_TARGET_IP_OFFSET := 38

  const REQUEST: byte := 1
  const REPLY: byte := 2

  const BROADCAST_MAC: Mac := [0xff, 0xff, 0xff, 0xff, 0xff, 0xff]
  const BROADCAST_IP: Ip := [0xff, 0xff, 0xff, 0xff]

  // ----- packets -----

  /** Everything before the sender's address. */
  function ArpHeader(ethDst: Mac, srcMac: Mac, opcode: byte): (s: seq<byte>)
    ensures |s| == ETX_ARP_SENDER_MAC_OFFSET
  {
    ethDst + srcMac + [0x08, 0x06, 0x00, 0x01, 0x08, 0x00, 0x06, 0x04, 0x00, opcode]
  }

  function ArpPacket(ethDst: Mac, opcode: byte, senderMac: Mac, senderIp: Ip, targetMac: Mac, targetIp: Ip): (s: seq<byte>)
    ensures |s| == ETX_ARP_FRAME_LEN
  {
    ArpHeader(ethDst, senderMac, opcode) + senderMac + senderIp + targetMac + targetIp
  }

  function RequestPacket(dstIp: Ip, srcMac: Mac, srcIp: Ip): (s: seq<byte>)
    ensures |s| == ETX_ARP_FRAME_LEN
  {
    ArpPacket(BROADCAST_MAC, REQUEST, srcMac, srcIp, NO_MAC, dstIp)
  }

  predicate IsArpSized(f: seq<byte>) {
    |f| >= ETX_ARP_FRAME_LEN
  }

  function SenderMac(f: seq<byte>): Mac
    requires IsArpSized(f)
  {
    f[ETX_ARP_SENDER_MAC_OFFSET..ETX_ARP_SENDER_IP_OFFSET]
  }

  function SenderIp(f: seq<byte>): Ip
    requires IsArpSized(f)
  {
    f[ETX_ARP_SENDER_IP_OFFSET..ETX_ARP_TARGET_MAC_OFFSET]
  }

  function TargetIp(f: seq<byte>): Ip
    requires IsArpSized(f)
  {
    f[ETX_ARP_TARGET_IP_OFFSET..ETX_ARP_FRAME_LEN]
  }

  /** The reply swaps the roles: the requested address becomes the sender. */
  function ReplyPacket(request: seq<byte>, srcMac: Mac): (s: seq<byte>)
    requires IsArpSized(request)
    ensures |s| == ETX_ARP_FRAME_LEN
  {
    ArpPacket(SenderMac(request), REPLY, srcMac, TargetIp(request), SenderMac(request), SenderIp(request))
  }

  /** The 42 octets of an ARP packet (RFC 826), by offset: link destination, link source, frame
      type, the fixed octets for Ethernet and IPv4, operation, sender and target. */
  ghost predicate HasOctets(f: seq<byte>, ethDst: Mac, opcode: byte, senderMac: Mac, senderIp: Ip, targetMac: Mac, targetIp: Ip) {
    && |f| == 42
    && f[0..6] == ethDst && f[6..12] == senderMac && f[12..14] == [0x08, 0x06]
    && f[14..20] == [0, 1, 8, 0, 6, 4] && f[20..22] == [0, opcode]
    && f[22..28] == senderMac && f[28..32] == senderIp && f[32..38] == targetMac && f[38..42] == targetIp
  }

  /** Every octet of a packet is where it belongs, and reads back as what it was made of. */
  lemma PacketFields(ethDst: Mac, opcode: byte, senderMac: Mac, senderIp: Ip, targetMac: Mac, targetIp: Ip)
    ensures var f := ArpPacket(ethDst, opcode, senderMac, senderIp, targetMac, targetIp);
            && HasOctets(f, ethDst, opcode, senderMac, senderIp, targetMac, targetIp)
            && f[12] == 0x08 && f[13] == 0x06 && f[20] == 0 && f[21] == opcode
            && SenderMac(f) == senderMac && SenderIp(f) == senderIp && TargetIp(f) == targetIp
  {
    var f := ArpPacket(ethDst, opcode, senderMac, senderIp, targetMac, targetIp);
    var h := ArpHeader(ethDst, senderMac, opcode);
    HeaderOctets(ethDst, senderMac, opcode);
    assert f[..22] == h;
    assert f[22..28] == senderMac && f[28..32] == senderIp && f[32..38] == targetMac && f[38..42] == targetIp;
    hide ArpPacket, ArpHeader;
    PrefixSlices(f, h);
  }

  lemma HeaderOctets(ethDst: Mac, srcMac: Mac, opcode: byte)
    ensures var h := ArpHeader(ethDst, srcMac, opcode);
            && h[0..6] == ethDst && h[6..12] == srcMac && h[12..14] == [0x08, 0x06]
            && h[14..20] == [0, 1, 8, 0, 6, 4] && h[20..22] == [0, opcode]
            && h[12] == 0x08 && h[13] == 0x06 && h[20] == 0 && h[21] == opcode
  {
    var h := ArpHeader(ethDst, srcMac, opcode);
    assert h[14..20] == [0, 1, 8, 0, 6, 4];
  }

  lemma PrefixSlices(f: seq<byte>, h: seq<byte>)
    requires |h| <= |f| && f[..|h|] == h
    ensures forall i, j | 0 <= i <= j <= |h| :: f[i..j] == h[i..j]
    ensures forall i | 0 <= i < |h| :: f[i] == h[i]
  {
    forall i, j | 0 <= i <= j <= |h| ensures f[i..j] == h[i..j] {
      assert forall k | i <= k < j :: f[k] == f[..|h|][k];
      assert forall k | 0 <= k < j - i :: f[i..j][k] == f[i + k] && h[i..j][k] == h[i + k];
    }
    assert forall i | 0 <= i < |h| :: f[i] == f[..|h|][i];
  }

  /** A request goes to everybody: operation 1, no target MAC. */
  lemma RequestOctets(dstIp: Ip, srcMac: Mac, srcIp: Ip)
    ensures HasOctets(RequestPacket(dstIp, srcMac, srcIp), [0xff, 0xff, 0xff, 0xff, 0xff, 0xff], 1,
                      srcMac, srcIp, [0, 0, 0, 0, 0, 0], dstIp)
  {
    PacketFields(BROADCAST_MAC, REQUEST, srcMac, srcIp, NO_MAC, dstIp);
    hide ArpPacket, HasOctets;
  }

  /** A reply goes to the sender of the request: operation 2, and the requested address as the
      sender's. */
  lemma ReplyOctets(request: seq<byte>, srcMac: Mac)
    requires |request| >= 42
    ensures HasOctets(ReplyPacket(request, srcMac), request[22..28], 2,
                      srcMac, request[38..42], request[22..28], request[28..32])
  {
    PacketFields(SenderMac(request), REPLY, srcMac, TargetIp(request), SenderMac(request), SenderIp(request));
    hide ArpPacket, HasOctets;
  }

  // ----- the controller's view of the world -----

  /** An address this host answers for, with its network mask. */
  datatype Own = Own(ip: Ip, mask: Ip)

  function And8(a: byte, m: byte): byte {
    ((a as bv8) & (m as bv8)) as int
  }

  /** compareIp returns zero. */
  predicate SameNetwork(a: Ip, b: Ip, mask: Ip) {
    forall i | 0 <= i < 4 :: And8(a[i], mask[i]) == And8(b[i], mask[i])
  }

  predicate AnswersFor(own: seq<Own>, ip: Ip) {
    exists i :: 0 <= i < |own| && own[i].ip == ip
  }

  /** The requests sent for dstIp: one from each own address on the same network. */
  function RequestsFor(own: seq<Own>, mac: Mac, dstIp: Ip): seq<seq<byte>> {
    if own == [] then []
    else
      var last := own[|own| - 1];
      RequestsFor(own[..|own| - 1], mac, dstIp)
      + if SameNetwork(dstIp, last.ip, last.mask) then [RequestPacket(dstIp, mac, last.ip)] else []
  }

  /** The frames sent for a list of due addresses; the k-th buffer allocation may fail. */
  function Refreshes(own: seq<Own>, mac: Mac, due: seq<Ip>, alloc: nat -> bool): seq<seq<byte>> {
    if due == [] then []
    else
      var k := |due| - 1;
      Refreshes(own, mac, due[..k], alloc) + if alloc(k) then RequestsFor(own, mac, due[k]) else []
  }

  datatype Host = Host(mac: Mac, own: seq<Own>, table: seq<Line>)

  /** Does the controller look at the frame at all? An explicit parameter lifts the check of
      the target address. */
  predicate Accepts(h: Host, f: seq<byte>, forced: bool)
    requires IsArpSized(f)
  {
    f[12] == 0x08 && f[13] == 0x06 && (forced || AnswersFor(h.own, TargetIp(f)))
  }

  predicate IsOpcode(f: seq<byte>, opcode: byte)
    requires IsArpSized(f)
  {
    f[ETX_ARP_OPCODE_OFFSET] == 0 && f[ETX_ARP_OPCODE_OFFSET + 1] == opcode
  }

  /** Requests and replies both teach the sender's address; requests are also answered. */
  function Parse(h: Host, f: seq<byte>, forced: bool, n: nat): (r: (seq<Line>, Option<seq<byte>>))
    requires IsArpSized(f)
  {
    if Accepts(h, f, forced) && IsOpcode(f, REPLY) then
      (Learn(h.table, SenderIp(f), SenderMac(f), n), None)
    else if Accepts(h, f, forced) && IsOpcode(f, REQUEST) then
      (Learn(h.table, SenderIp(f), SenderMac(f), n), Some(ReplyPacket(f, h.mac)))
    else
      (h.table, None)
  }

  /** What a frame does to a host, by its octets: nothing, unless it is an ARP frame for an own
      address (or the check is lifted) whose operation is 1 or 2; then the sender is learned, and
      a request, never a reply, is answered. */
  lemma ParseByOctets(h: Host, f: seq<byte>, forced: bool, n: nat)
    requires |f| >= 42
    ensures var heard := f[12] == 0x08 && f[13] == 0x06 && (forced || exists i :: 0 <= i < |h.own| && h.own[i].ip == f[38..42]);
            var (table, reply) := Parse(h, f, forced, n);
            && table == (if heard && f[20] == 0 && (f[21] == 1 || f[21] == 2) then Learn(h.table, f[28..32], f[22..28], n) else h.table)
            && (reply.Some? <==> heard && f[20] == 0 && f[21] == 1)
            && (reply.Some? ==> HasOctets(reply.value, f[22..28], 2, h.mac, f[38..42], f[22..28], f[28..32]))
  {
    ReplyOctets(f, h.mac);
    hide Learn, ReplyPacket, HasOctets;
  }

  /** The RFC 826 exchange between two controllers: after a request and its reply each side
      maps the other's address to the other's MAC, unless that insertion filled the last
      slot, which empties the table of the host concerned. */
  lemma ExchangeTeachesBothSides(asker: Host, owner: Host, askerIp: Ip, ownerIp: Ip, n: nat)
    requires AnswersFor(asker.own, askerIp) && AnswersFor(owner.own, ownerIp)
    ensures var request := RequestPacket(ownerIp, asker.mac, askerIp);
            var (ownerTable, reply) := Parse(owner, request, false, n);
            && reply.Some? && |reply.value| == ETX_ARP_FRAME_LEN
            && |request| == 42 && request[0..6] == [0xff, 0xff, 0xff, 0xff, 0xff, 0xff] && request[6..12] == asker.mac
            && reply.value[0..6] == asker.mac && reply.value[6..12] == owner.mac
            && var (askerTable, silence) := Parse(asker, reply.value, false, n);
            && silence == None
            && MacOf(ownerTable, askerIp)
               == (if !Knows(owner.table, askerIp) && |owner.table| + 1 == n then None else Some(asker.mac))
            && MacOf(askerTable, ownerIp)
               == (if !Knows(asker.table, ownerIp) && |asker.table| + 1 == n then None else Some(owner.mac))
  {
    hide ArpPacket, Find, Learn, AnswersFor;
    var request := RequestPacket(ownerIp, asker.mac, askerIp);
    PacketFields(BROADCAST_MAC, REQUEST, asker.mac, askerIp, NO_MAC, ownerIp);
    LearnIsUpdate(owner.table, askerIp, asker.mac, n, askerIp);
    PacketFields(asker.mac, REPLY, owner.mac, ownerIp, asker.mac, askerIp);
    LearnIsUpdate(asker.table, ownerIp, owner.mac, n, ownerIp);
  }

  predicate MaskedAgree(a: byte, b: byte, m: byte) {
    (a as bv8) & (m as bv8) == (b as bv8) & (m as bv8)
  }

  /** The masked octets of the two addresses agree. */
  predicate OnNetworkOf(ip: Ip, own: Own) {
    && MaskedAgree(ip[0], own.ip[0], own.mask[0]) && MaskedAgree(ip[1], own.ip[1], own.mask[1])
    && MaskedAgree(ip[2], own.ip[2], own.mask[2]) && MaskedAgree(ip[3], own.ip[3], own.mask[3])
  }

  lemma OctetsAgree(a: byte, b: byte, m: byte)
    ensures And8(a, m) == And8(b, m) <==> MaskedAgree(a, b, m)
  {
    var x, y := (a as bv8) & (m as bv8), (b as bv8) & (m as bv8);
    assert (x as int) as bv8 == x && (y as int) as bv8 == y;
  }

  lemma SameNetworkIsOnNetworkOf(ip: Ip, own: Own)
    ensures SameNetwork(ip, own.ip, own.mask) <==> OnNetworkOf(ip, own)
  {
    hide And8, MaskedAgree;
    OctetsAgree(ip[0], own.ip[0], own.mask[0]);
    OctetsAgree(ip[1], own.ip[1], own.mask[1]);
    OctetsAgree(ip[2], own.ip[2], own.mask[2]);
    OctetsAgree(ip[3], own.ip[3], own.mask[3]);
  }

  /** The own addresses on the network of ip, in table order. */
  function Sources(own: seq<Own>, ip: Ip): seq<Ip> {
    if own == [] then []
    else (if SameNetwork(ip, own[0].ip, own[0].mask) then [own[0].ip] else []) + Sources(own[1..], ip)
  }

  lemma {:induction false} SourcesSnoc(own: seq<Own>, x: Own, ip: Ip)
    ensures Sources(own + [x], ip)
            == Sources(own, ip) + if SameNetwork(ip, x.ip, x.mask) then [x.ip] else []
  {
    hide SameNetwork;
    if own == [] {
      assert own + [x] == [x] && [x][1..] == [];
    } else {
      SourcesSnoc(own[1..], x, ip);
      assert (own + [x])[1..] == own[1..] + [x];
    }
  }

  /** For which own addresses requests go out, and in which order: the k-th request is the one
      from the k-th own address on the network of the wanted one. */
  lemma {:induction false} RequestsAreFromSources(own: seq<Own>, mac: Mac, dstIp: Ip)
    ensures |RequestsFor(own, mac, dstIp)| == |Sources(own, dstIp)|
    ensures forall k | 0 <= k < |Sources(own, dstIp)| ::
              RequestsFor(own, mac, dstIp)[k] == RequestPacket(dstIp, mac, Sources(own, dstIp)[k])
  {
    hide SameNetwork, RequestPacket;
    if own != [] {
      var last := own[|own| - 1];
      RequestsAreFromSources(own[..|own| - 1], mac, dstIp);
      SourcesSnoc(own[..|own| - 1], last, dstIp);
      assert own == own[..|own| - 1] + [last];
    }
  }

  /** A request from some own address goes out if and only if its masked octets agree. */
  lemma {:induction false} SourceIff(own: seq<Own>, ip: Ip, src: Ip)
    ensures src in Sources(own, ip) <==> exists i :: 0 <= i < |own| && own[i].ip == src && OnNetworkOf(ip, own[i])
  {
    hide SameNetwork, OnNetworkOf;
    if own != [] {
      SameNetworkIsOnNetworkOf(ip, own[0]);
      SourceIff(own[1..], ip, src);
      assert forall i | 0 < i < |own| :: own[i] == own[1..][i - 1];
      if i :| 0 <= i < |own[1..]| && own[1..][i].ip == src && OnNetworkOf(ip, own[1..][i]) {
        assert own[i + 1] == own[1..][i];
      }
    }
  }

  /** The allocations after the first n. */
  function Later(alloc: nat -> bool, n: nat): nat -> bool {
    (j: nat) => alloc(n + j)
  }

  /** Refreshing goes on in order, and each address takes the next allocation. */
  lemma {:induction false} RefreshesConcat(own: seq<Own>, mac: Mac, a: seq<Ip>, b: seq<Ip>, alloc: nat -> bool)
    ensures Refreshes(own, mac, a + b, alloc)
            == Refreshes(own, mac, a, alloc) + Refreshes(own, mac, b, Later(alloc, |a|))
    decreases |b|
  {
    hide RequestsFor;
    if b == [] {
      assert a + b == a;
    } else {
      var b', x := b[..|b| - 1], b[|b| - 1];
      RefreshesConcat(own, mac, a, b', alloc);
      assert a + b == (a + b') + [x] && b == b' + [x];
      RefreshesOneMore(own, mac, a + b', x, alloc);
      RefreshesOneMore(own, mac, b', x, Later(alloc, |a|));
      assert Later(alloc, |a|)(|b'|) == alloc(|a + b'|);
    }
  }

  /** One due address: its requests, or nothing without memory. */
  lemma RefreshOfOne(own: seq<Own>, mac: Mac, ip: Ip, alloc: nat -> bool)
    ensures Refreshes(own, mac, [ip], alloc) == if alloc(0) then RequestsFor(own, mac, ip) else []
  {
    RefreshesOneMore(own, mac, [], ip, alloc);
    assert [] + [ip] == [ip];
  }

  lemma RefreshesNone(own: seq<Own>, mac: Mac, alloc: nat -> bool)
    ensures Refreshes(own, mac, [], alloc) == []
  {
  }

  lemma RefreshesOneMore(own: seq<Own>, mac: Mac, due: seq<Ip>, ip: Ip, alloc: nat -> bool)
    ensures Refreshes(own, mac, due + [ip], alloc)
            == Refreshes(own, mac, due, alloc) + if alloc(|due|) then RequestsFor(own, mac, ip) else []
  {
    assert (due + [ip])[..|due|] == due;
  }

  // ----- packets in place -----

  method StoreHeader(f: array<byte>, ethDst: Mac, srcMac: Mac, opcode: byte)
    requires f.Length >= ETX_ARP_FRAME_LEN
    modifies f
    ensures f[..ETX_ARP_SENDER_MAC_OFFSET] == ArpHeader(ethDst, srcMac, opcode)
  {
    hide Splice;
    Memcpy(f, 0, ethDst);
    assert f[..6] == ethDst;
    Memcpy(f, 6, srcMac);
    assert f[..12] == ethDst + srcMac;
    f[12], f[13] := 0x08, 0x06;
    f[14], f[15] := 0x00, 0x01;
    f[16], f[17] := 0x08, 0x00;
    f[18] := 0x06;
    f[19] := 0x04;
    f[20], f[21] := 0x00, opcode;
    assert f[..12] == ethDst + srcMac;
    assert f[..22] == f[..12] + [0x08, 0x06, 0x00, 0x01, 0x08, 0x00, 0x06, 0x04, 0x00, opcode];
  }

  method StoreBody(f: array<byte>, senderMac: Mac, senderIp: Ip, targetMac: Mac, targetIp: Ip)
    requires f.Length >= ETX_ARP_FRAME_LEN
    modifies f
    ensures f[..ETX_ARP_FRAME_LEN] == old(f[..ETX_ARP_SENDER_MAC_OFFSET]) + senderMac + senderIp + targetMac + targetIp
  {
    Memcpy(f, ETX_ARP_SENDER_MAC_OFFSET, senderMac);
    Memcpy(f, ETX_ARP_SENDER_IP_OFFSET, senderIp);
    Memcpy(f, ETX_ARP_TARGET_MAC_OFFSET, targetMac);
    Memcpy(f, ETX_ARP_TARGET_IP_OFFSET, targetIp);
  }

  method CreateRequest(dstIp: Ip, srcMac: Mac, srcIp: Ip, request: array<byte>) returns (frameSize: word)
    requires request.Length >= ETX_ARP_FRAME_LEN
    modifies request
    ensures frameSize == ETX_ARP_FRAME_LEN && request[..frameSize] == RequestPacket(dstIp, srcMac, srcIp)
  {
    frameSize := ETX_ARP_FRAME_LEN;
    StoreHeader(request, BROADCAST_MAC, srcMac, REQUEST);
    StoreBody(request, srcMac, srcIp, NO_MAC, dstIp);
  }

  /** The reply built from a request. */
  method CreateReplyTo(request: array<byte>, reply: array<byte>, srcMac: Mac) returns (frameSize: word)
    requires request != reply && IsArpSized(request[..]) && reply.Length >= ETX_ARP_FRAME_LEN
    modifies reply
    ensures frameSize == ETX_ARP_FRAME_LEN && reply[..frameSize] == ReplyPacket(request[..], srcMac)
  {
    frameSize := ETX_ARP_FRAME_LEN;
    StoreHeader(reply, request[ETX_ARP_SENDER_MAC_OFFSET..ETX_ARP_SENDER_IP_OFFSET], srcMac, REPLY);
    StoreBody(reply, srcMac, request[ETX_ARP_TARGET_IP_OFFSET..ETX_ARP_FRAME_LEN],
              request[ETX_ARP_SENDER_MAC_OFFSET..ETX_ARP_SENDER_IP_OFFSET],
              request[ETX_ARP_SENDER_IP_OFFSET..ETX_ARP_TARGET_MAC_OFFSET]);
  }

  /** The reply built from explicit fields; an absent destination is the broadcast one. Given
      the fields of a request it produces the same octets as the reply built from it. */
  method CreateReply(dstMac: Option<Mac>, dstIp: Option<Ip>, srcMac: Mac, srcIp: Ip, reply: array<byte>)
    returns (frameSize: word)
    requires reply.Length >= ETX_ARP_FRAME_LEN
    modifies reply
    ensures frameSize == ETX_ARP_FRAME_LEN
    ensures var mac := if dstMac.Some? then dstMac.value else BROADCAST_MAC;
            reply[..frameSize] == ArpPacket(mac, REPLY, srcMac, srcIp, mac, if dstIp.Some? then dstIp.value else BROADCAST_IP)
    ensures forall request: seq<byte> | IsArpSized(request) && dstMac == Some(SenderMac(request))
              && dstIp == Some(SenderIp(request)) && srcIp == TargetIp(request)
              :: reply[..frameSize] == ReplyPacket(request, srcMac)
  {
    frameSize := ETX_ARP_FRAME_LEN;
    var mac := if dstMac.Some? then dstMac.value else BROADCAST_MAC;
    StoreHeader(reply, mac, srcMac, REPLY);
    StoreBody(reply, srcMac, srcIp, mac, if dstIp.Some? then dstIp.value else BROADCAST_IP);
  }

  // ----- the controller -----

  class ArpController {
    const limits: Limits
    const refresh: nat
    var mac: Mac
    var ownTable: array<Own>
    var ipCount: nat
    var lines: array<Line>
    var recordCounter: nat
    /** The frames handed to the adapter, oldest first. */
    var tx: seq<seq<byte>>

    ghost predicate Valid()
      reads this, ownTable, lines
    {
      && limits.Valid() && lines.Length == limits.n && recordCounter <= lines.Length
      && 1 <= ownTable.Length < 0x1_0000 && ipCount < ownTable.Length
      && Inv(Table(), limits)
    }

    /** The live records. */
    ghost function Table(): seq<Line>
      requires recordCounter <= lines.Length
      reads this, lines
    {
      lines[..recordCounter]
    }

    ghost function Self(): Host
      requires recordCounter <= lines.Length && ipCount <= ownTable.Length
      reads this, lines, ownTable
    {
      Host(mac, ownTable[..ipCount], Table())
    }

    constructor (mac: Mac, limits: Limits, refresh: nat, maxOwn: nat)
      requires limits.Valid() && 1 <= maxOwn < 0x1_0000
      ensures Valid() && fresh(lines) && fresh(ownTable)
      ensures Self() == Host(mac, [], []) && tx == []
      ensures this.limits == limits && this.refresh == refresh && ownTable.Length == maxOwn
    {
      this.limits, this.refresh, this.mac := limits, refresh, mac;
      ownTable := new Own[maxOwn](_ => Own([0, 0, 0, 0], [0, 0, 0, 0]));
      lines := new Line[limits.n](_ => Line([0, 0, 0, 0], NO_MAC, 0));
      ipCount, recordCounter, tx := 0, 0, [];
    }

    /** Another own address; filling the last slot forgets all of them. */
    method AddIpForArpReply(ip: Ip, mask: Ip)
      requires Valid()
      modifies this`ipCount, ownTable
      ensures Valid() && Table() == old(Table())
      ensures ownTable[..ipCount]
              == if old(ipCount) + 1 == ownTable.Length then [] else old(ownTable[..ipCount]) + [Own(ip, mask)]
    {
      ownTable[ipCount] := Own(ip, mask);
      ipCount := ipCount + 1;
      if ipCount == ownTable.Length {
        ipCount := 0;
      }
    }

    method IsIpInTableForReply(ip: Ip) returns (found: bool)
      requires Valid()
      ensures found <==> AnswersFor(ownTable[..ipCount], ip)
    {
      if ipCount == 0 {
        return false;
      }
      for i := 0 to ipCount
        invariant forall j | 0 <= j < i :: ownTable[j].ip != ip
      {
        if ip == ownTable[i].ip {
          assert ownTable[..ipCount][i].ip == ip;
          return true;
        }
      }
      return false;
    }

    method GetArpTableIndex(ip: Ip) returns (index: int)
      requires Valid()
      ensures index == if Knows(Table(), ip) then Find(Table(), ip) else -1
    {
      if recordCounter == 0 {
        return -1;
      }
      for i := 0 to recordCounter
        invariant forall j | 0 <= j < i :: lines[j].ip != ip
      {
        if ip == lines[i].ip {
          assert Table()[i].ip == ip;
          return i;
        }
      }
      assert forall j | 0 <= j < recordCounter :: Table()[j].ip == lines[j].ip;
      return -1;
    }

    method GetMac(ip: Ip) returns (r: Option<Mac>)
      requires Valid()
      ensures r == MacOf(Table(), ip)
    {
      var index := GetArpTableIndex(ip);
      if index >= 0 {
        r := Some(lines[index].mac);
      } else {
        r := None;
      }
    }

    /** The reverse lookup finds some address with that MAC whenever there is one. */
    method GetIp(mac: Mac) returns (r: Option<Ip>)
      requires Valid()
      ensures r.Some? ==> MacOf(Table(), r.value) == Some(mac)
      ensures r.None? ==> forall ip :: MacOf(Table(), ip) != Some(mac)
    {
      if recordCounter == 0 {
        return None;
      }
      for i := 0 to recordCounter
        invariant forall j | 0 <= j < i :: lines[j].mac != mac
      {
        if mac == lines[i].mac {
          ghost var k := Find(Table(), lines[i].ip);
          assert k == i by {
            assert Table()[i].ip == lines[i].ip;
          }
          return Some(lines[i].ip);
        }
      }
      assert forall j | 0 <= j < recordCounter :: Table()[j].mac == lines[j].mac;
      return None;
    }

    /** What both branches of parseFrame do with the sender's addresses. */
    method LearnSender(ip: Ip, from: Mac)
      requires Valid()
      modifies this`recordCounter, lines
      ensures Valid() && Table() == Learn(old(Table()), ip, from, limits.n)
    {
      StepKeepsInv(Table(), Frame(ip, from), limits);
      var index := GetArpTableIndex(ip);
      if index >= 0 {
        lines[index] := Line(ip, from, 0);
      } else {
        index := recordCounter;
        lines[index] := Line(ip, from, 0);
        recordCounter := recordCounter + 1;
        if recordCounter == lines.Length {
          recordCounter := 0;
        }
      }
    }

    method ParseFrame(frame: array<byte>, frameSize: word, forced: bool, alloc: bool)
      requires Valid() && IsArpSized(frame[..])
      modifies this`recordCounter, this`tx, lines
      ensures Valid()
      ensures frameSize == 0 ==> Table() == old(Table()) && tx == old(tx)
      ensures frameSize != 0 ==>
                var (table, reply) := Parse(old(Self()), frame[..], forced, limits.n);
                && Table() == table
                && tx == if reply.Some? && alloc then old(tx) + [reply.value] else old(tx)
    {
      hide Learn, ReplyPacket, AnswersFor, Find;
      if frameSize == 0 {
        return;
      }
      if frame[12] != 0x08 || frame[13] != 0x06 {
        return;
      }
      var allowArpFlag := true;
      if !forced {
        allowArpFlag := IsIpInTableForReply(frame[ETX_ARP_TARGET_IP_OFFSET..ETX_ARP_FRAME_LEN]);
      }
      assert frame[..][38..42] == frame[38..42] && frame[..][22..28] == frame[22..28] && frame[..][28..32] == frame[28..32];
      if allowArpFlag {
        if frame[ETX_ARP_OPCODE_OFFSET] == 0x00 && frame[ETX_ARP_OPCODE_OFFSET + 1] == 0x02 {
          LearnSender(frame[ETX_ARP_SENDER_IP_OFFSET..ETX_ARP_TARGET_MAC_OFFSET],
                      frame[ETX_ARP_SENDER_MAC_OFFSET..ETX_ARP_SENDER_IP_OFFSET]);
        } else if frame[ETX_ARP_OPCODE_OFFSET] == 0x00 && frame[ETX_ARP_OPCODE_OFFSET + 1] == 0x01 {
          LearnSender(frame[ETX_ARP_SENDER_IP_OFFSET..ETX_ARP_TARGET_MAC_OFFSET],
                      frame[ETX_ARP_SENDER_MAC_OFFSET..ETX_ARP_SENDER_IP_OFFSET]);
          if alloc {
            var outputFrame := new byte[ETX_ARP_FRAME_LEN];
            var size := CreateReplyTo(frame, outputFrame, mac);
            tx := tx + [outputFrame[..size]];
          }
        }
      }
    }

    /** Without a source address, one request goes out per own address on the same network. */
    method SendArpRequest(dstIp: Ip, srcIp: Option<Ip>, alloc: bool)
      requires ipCount <= ownTable.Length
      modifies this`tx
      ensures tx == old(tx) + if !alloc then [] else
                      if srcIp.Some? then [RequestPacket(dstIp, mac, srcIp.value)]
                      else RequestsFor(ownTable[..ipCount], mac, dstIp)
    {
      if !alloc {
        return;
      }
      var outputFrame := new byte[ETX_ARP_FRAME_LEN];
      if srcIp.None? {
        for i := 0 to ipCount
          invariant tx == old(tx) + RequestsFor(ownTable[..i], mac, dstIp)
        {
          assert ownTable[..i + 1][..i] == ownTable[..i];
          if SameNetwork(dstIp, ownTable[i].ip, ownTable[i].mask) {
            var size := CreateRequest(dstIp, mac, ownTable[i].ip, outputFrame);
            tx := tx + [outputFrame[..size]];
          }
        }
      } else {
        var size := CreateRequest(dstIp, mac, srcIp.value, outputFrame);
        tx := tx + [outputFrame[..size]];
      }
    }

    /** The memmove that closes up a deleted record. */
    method DeleteSlot(i: nat)
      requires i < recordCounter <= lines.Length
      modifies this`recordCounter, lines
      ensures recordCounter == old(recordCounter) - 1 && Table() == Without(old(Table()), i)
    {
      if i != recordCounter - 1 {
        forall j | i <= j < recordCounter - 1 {
          lines[j] := lines[j + 1];
        }
      }
      recordCounter := recordCounter - 1;
    }

    /** The body of the aging loop for one slot. */
    method AgeSlot(i: nat, alloc: bool) returns (asked: bool)
      requires i < recordCounter <= lines.Length && ipCount <= ownTable.Length
      requires lines[i].age <= limits.d && limits.Valid()
      modifies this`recordCounter, this`tx, lines
      ensures recordCounter <= lines.Length
      ensures var x := Aged(old(lines[i]));
              && asked == (x.age > refresh)
              && Table() == (if x.age <= limits.d then old(Table())[i := x] else Without(old(Table()), i))
              && tx == old(tx) + if asked && alloc then RequestsFor(ownTable[..ipCount], mac, x.ip) else []
    {
      lines[i] := lines[i].(age := U32(lines[i].age + 1));
      asked := lines[i].age > refresh;
      if asked {
        SendArpRequest(lines[i].ip, None, alloc);
      }
      if lines[i].age > limits.d {
        DeleteSlot(i);
      }
    }

    /** The aging timer. The k-th refreshing request is sent if its buffer is allocated. */
    method VoidCallback(alloc: nat -> bool)
      requires Valid()
      modifies this`recordCounter, this`tx, lines
      ensures Valid() && Table() == Tick(old(Table()), limits.d)
      ensures tx == old(tx) + Refreshes(ownTable[..ipCount], mac, Due(old(Table()), limits.d, refresh), alloc)
    {
      hide Tick, Due, Refreshes, RequestsFor, Passed;
      ghost var own, before := ownTable[..ipCount], Table();
      StepKeepsInv(before, Timer, limits);
      RefreshesNone(own, mac, alloc);
      PassBegins(before, limits.d, refresh);
      ghost var due: seq<Ip> := [];
      var i, sent := 0, 0;
      if recordCounter > 0 {
        while i < recordCounter
          invariant 0 <= i && recordCounter <= lines.Length && sent == |due|
          invariant Passed(before, Table(), i, due, limits.d, refresh)
          invariant tx == old(tx) + Refreshes(own, mac, due, alloc)
          decreases recordCounter + 1 - i
        {
          ghost var t := Table();
          PassAdvances(before, t, i, due, limits.d, refresh);
          RefreshesOneMore(own, mac, due, t[i].ip, alloc);
          var asked := AgeSlot(i, alloc(sent));
          if asked {
            due := due + [t[i].ip];
            sent := sent + 1;
          }
          i := i + 1;
          assert |Table()| == recordCounter;
        }
      }
      PassEnds(before, Table(), i, due, limits.d, refresh);
    }
  }
}
