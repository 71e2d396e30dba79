/** The DHCP dialogue octet by octet (section 2 of RFC 2131, RFC 2132): what messages of every
    length do to the server, and what its replies hold, in plain numbers. */
module DhcpMessages {
  import opened Bytes
  import opened DhcpOptions
  import opened DhcpLeases

  // ----- the message buffer -----

  /** A datagram overwrites the start of the buffer, however short it is, and no more. */
  lemma MergedOctets(old_: Message, payload: seq<byte>)
    ensures forall i | 0 <= i < 516 :: Merged(old_, payload)[i] == if i < |payload| then payload[i] else old_[i]
  {
  }

  lemma MergedPrefix(old_: Message, d: Message, n: nat, m: nat)
    requires m <= n <= 516
    ensures Merged(old_, d[..n])[..m] == d[..m]
  {
    MergedOctets(old_, d[..n]);
    hide Merged;
    assert forall i | 0 <= i < m :: d[..n][i] == d[i];
  }

  // ----- what the server reads, by offset -----

  /** The client's MAC is at 28, the message type at 242, and the address that an INFORM is about
      at 12. */
  lemma FieldOctets(d: Message)
    ensures ClientMac(d) == d[28..34] && TypeOf(d) == d[242]
    ensures d[242] == 8 ==> Wanted(d) == Some(d[12..16])
  {
  }

  /** A message of type 3 whose second option is the requested address asks for that address,
      whatever follows. */
  lemma RequestByOctets(d: Message, mac: Mac, addr: Ip)
    requires d[28..34] == mac && d[240..249] == [53, 1, 3, 50, 4] + addr
    ensures TypeOf(d) == 3 && ClientMac(d) == mac && Wanted(d) == Some(addr)
  {
    var options := d[240..249];
    assert options[..5] == [53, 1, 3, 50, 4] && options[5..] == addr;
    assert forall i | 240 <= i < 249 :: d[i] == options[i - 240];
    assert d[245..249] == options[5..];
    hide ClientMac;
    var area := OptionArea(d);
    assert area[0] == 53 && area[1] == 1 && area[2] == 3 && area[3] == 50 && area[4] == 4;
    assert area[5..9] == d[245..249];
    assert FindFrom(area, 0, 50) == FindFrom(area, 3, 50) == 3;
    FieldOctets(d);
  }

  /** All other messages are only kept in the buffer: those of another type than discover (1),
      request (3) and INFORM (8), and requests without a requested address of four octets. */
  lemma OthersAreIgnored(s: Server, m: Datagram)
    requires Fits(s.cfg)
    requires var d := Merged(s.data, m.payload);
             d[242] != 1 && d[242] != 8
             && (d[242] == 3 ==> var r := FindFrom(d[240..515], 0, 50); r == -1 || d[240..515][r + 1] != 4)
    ensures Receive(s, m) == (s.(data := Merged(s.data, m.payload)), None)
  {
    FieldOctets(Merged(s.data, m.payload));
    hide Merged, FindFrom, Discover, Lease;
  }

  // ----- what the server writes, by offset -----

  /** The option area of every reply, octet by octet. */
  lemma FilledAreaOctets(cfg: Config, e: Entry, msgType: byte)
    requires Fits(cfg)
    ensures |DomainName(cfg)| < 0x100
    ensures exists padding: nat ::
              FilledArea(cfg, e, msgType)
              == [53, 1, msgType] + ([54, 4] + cfg.addr) + ([51, 4] + Octets32(e.lease)) + ([1, 4] + e.subnet)
                 + (if cfg.addr != [0, 0, 0, 0] then [3, 4] + cfg.addr else [])
                 + (if cfg.domain.Some? then [15, |DomainName(cfg)|] + DomainName(cfg) else [])
                 + (if cfg.dns != [0, 0, 0, 0] then [6, 4] + cfg.dns else [])
                 + [255] + Zeros(padding)
  {
    OptionListFits(cfg, e, msgType);
    FixedOctets(cfg, e, msgType);
    OptionalOctets(cfg.addr != NO_IP, OPT_ROUTER, cfg.addr);
    OptionalOctets(cfg.domain.Some?, OPT_DOMAIN, DomainName(cfg));
    OptionalOctets(cfg.dns != NO_IP, OPT_DNS, cfg.dns);
    var a, b := FixedOptions(cfg, e, msgType), Optional(cfg.addr != NO_IP, OPT_ROUTER, cfg.addr);
    var c, d := Optional(cfg.domain.Some?, OPT_DOMAIN, DomainName(cfg)), Optional(cfg.dns != NO_IP, OPT_DNS, cfg.dns);
    var padding := 274 - OptionsLength(cfg);
    assert OptionList(cfg, e, msgType) == a + b + c + d;
    hide EncodeAll, EncodeOne, FixedOptions, Optional, Octets32, Encodable, OptionList, OptionsLength;
    EncodeConcat(a, b);
    EncodeConcat(a + b, c);
    EncodeConcat(a + b + c, d);
    assert FilledArea(cfg, e, msgType) == EncodeAll(a + b + c + d) + [255] + Zeros(padding);
  }

  lemma FixedOctets(cfg: Config, e: Entry, msgType: byte)
    ensures Encodable(FixedOptions(cfg, e, msgType))
    ensures EncodeAll(FixedOptions(cfg, e, msgType))
            == [53, 1, msgType] + ([54, 4] + cfg.addr) + ([51, 4] + Octets32(e.lease)) + ([1, 4] + e.subnet)
  {
    var o1, o2 := Opt(53, [msgType]), Opt(54, cfg.addr);
    var o3, o4 := Opt(51, Octets32(e.lease)), Opt(1, e.subnet);
    OneOctets(o1);
    OneOctets(o2);
    OneOctets(o3);
    OneOctets(o4);
    hide EncodeAll, EncodeOne, Octets32;
    EncodeSingle(o1);
    EncodeSnoc([o1], o2);
    EncodeSnoc([o1] + [o2], o3);
    EncodeSnoc([o1] + [o2] + [o3], o4);
    assert FixedOptions(cfg, e, msgType) == [o1] + [o2] + [o3] + [o4];
    assert [53, 1] + [msgType] == [53, 1, msgType];
  }

  /** An option is its tag, its length and its octets. */
  lemma OneOctets(o: Opt)
    requires |o.value| < 0x100
    ensures EncodeOne(o) == [o.tag, |o.value|] + o.value
  {
  }

  lemma OptionalOctets(present: bool, tag: byte, value: seq<byte>)
    requires present ==> |value| < 0x100
    ensures Encodable(Optional(present, tag, value))
    ensures EncodeAll(Optional(present, tag, value)) == if present then [tag, |value|] + value else []
  {
    if present {
      EncodeSingle(Opt(tag, value));
      OneOctets(Opt(tag, value));
    }
  }

  /** The fields of every reply before the options: operation 2, identification and hardware
      octets kept, seconds and flags cleared, the address given, the magic cookie. */
  lemma AnswerOctets(d: Message, cfg: Config, e: Entry, yiaddr: Ip, msgType: byte)
    requires Fits(cfg)
    ensures var r := Answer(d, cfg, e, yiaddr, msgType);
            && r[..240] == [2] + d[1..8] + [0, 0, 0, 0] + d[12..16] + yiaddr + d[20..236] + [0x63, 0x82, 0x53, 0x63]
            && r[240..515] == FilledArea(cfg, e, msgType) && r[515] == d[515]
            && ClearClientAddress(r)[12..16] == [0, 0, 0, 0]
            && ClearClientAddress(r)[..12] == r[..12] && ClearClientAddress(r)[16..] == r[16..]
  {
    hide FilledArea;
    var r := Answer(d, cfg, e, yiaddr, msgType);
    assert r[240..515] == FilledArea(cfg, e, msgType);
    assert r[515..] == d[515..];
    assert r[515] == r[515..][0] == d[515..][0];
  }

  /** Every reply of the server, octet by octet, against the message it answers and one entry of
      the table: an offer (2) to a discover message (1), and an acknowledgement (5) otherwise,
      with the client's address cleared for an INFORM (8). */
  lemma ReplyOctets(s: Server, m: Datagram) returns (i: nat)
    requires Fits(s.cfg) && Receive(s, m).1.Some?
    ensures i < |s.entries|
    ensures var d, r := Merged(s.data, m.payload), Receive(s, m).1.value;
            && r[..12] == [2] + d[1..8] + [0, 0, 0, 0]
            && r[12..16] == (if d[242] == 8 then [0, 0, 0, 0] else d[12..16])
            && r[16..20] == s.entries[i].addr
            && r[20..236] == d[20..236] && r[236..240] == [0x63, 0x82, 0x53, 0x63]
            && r[240..515] == FilledArea(s.cfg, s.entries[i], if d[242] == 1 then 2 else 5)
            && r[515] == d[515]
  {
    var d := Merged(s.data, m.payload);
    FieldOctets(d);
    if TypeOf(d) == DHCP_DISCOVER {
      var k := ByMac(s.entries, ClientMac(d));
      i := if k < |s.entries| then k else ByMac(s.entries, NO_MAC);
      HeadOctets(d, s.cfg, s.entries[i], s.entries[i].addr, DHCP_OFFER);
      hide Merged, Answer, FilledArea, ByMac, ClearClientAddress;
    } else {
      var es := Freed(s.entries, ClientMac(d));
      FreedFacts(s.entries, ClientMac(d));
      i := ByIp(es, Wanted(d).value);
      HeadOctets(d, s.cfg, es[i], Wanted(d).value, DHCP_ACK);
      AreaIgnoresMac(s.cfg, es[i], s.entries[i].mac);
      hide Merged, Answer, FilledArea, ByIp, Freed, ClearClientAddress, Wanted;
    }
  }

  lemma HeadOctets(d: Message, cfg: Config, e: Entry, yiaddr: Ip, msgType: byte)
    requires Fits(cfg)
    ensures var r := Answer(d, cfg, e, yiaddr, msgType);
            && r[..12] == [2] + d[1..8] + [0, 0, 0, 0] && r[12..16] == d[12..16] && r[16..20] == yiaddr
            && r[20..236] == d[20..236] && r[236..240] == [0x63, 0x82, 0x53, 0x63]
            && r[240..515] == FilledArea(cfg, e, msgType) && r[515] == d[515]
            && var c := ClearClientAddress(r);
            && c[..12] == r[..12] && c[12..16] == [0, 0, 0, 0]
            && forall i, j | 16 <= i <= j <= 516 :: c[i..j] == r[i..j]
  {
    AnswerOctets(d, cfg, e, yiaddr, msgType);
    var r := Answer(d, cfg, e, yiaddr, msgType);
    var c := ClearClientAddress(r);
    var head := [2] + d[1..8] + [0, 0, 0, 0] + d[12..16] + yiaddr + d[20..236] + [0x63, 0x82, 0x53, 0x63];
    hide Answer, ClearClientAddress, FilledArea;
    assert head[..12] == [2] + d[1..8] + [0, 0, 0, 0];
    assert head[12..16] == d[12..16] && head[16..20] == yiaddr && head[20..236] == d[20..236];
    assert head[236..240] == [0x63, 0x82, 0x53, 0x63];
    PrefixOf(r, head);
    assert r[..12] == r[0..12] && head[..12] == head[0..12];
    SuffixSlices(r, c, 16);
  }

  lemma PrefixOf(r: seq<byte>, head: seq<byte>)
    requires |head| <= |r| && r[..|head|] == head
    ensures forall i, j | 0 <= i <= j <= |head| :: r[i..j] == head[i..j]
  {
    assert forall k | 0 <= k < |head| :: r[k] == r[..|head|][k];
    forall i, j | 0 <= i <= j <= |head| ensures r[i..j] == head[i..j] {
      assert forall k | 0 <= k < j - i :: r[i..j][k] == r[i + k] && head[i..j][k] == head[i + k];
    }
  }

  lemma SuffixSlices(r: seq<byte>, c: seq<byte>, at: nat)
    requires |c| == |r| >= at && c[at..] == r[at..]
    ensures forall i, j | at <= i <= j <= |r| :: c[i..j] == r[i..j]
  {
    assert forall k | at <= k < |r| :: c[k] == c[at..][k - at] && r[k] == r[at..][k - at];
    forall i, j | at <= i <= j <= |r| ensures c[i..j] == r[i..j] {
      assert forall k | 0 <= k < j - i :: c[i..j][k] == c[i + k] && r[i..j][k] == r[i + k];
    }
  }

  /** What the buffer holds afterwards, for the next short datagram to be merged into: the reply
      if one was prepared, sent or not, and otherwise the message itself. */
  lemma BufferHoldsReply(s: Server, m: Datagram)
    requires Fits(s.cfg)
    ensures var sent := Receive(s, m.(alloc := true)).1;
            Next(s, m).data == if sent.Some? then sent.value else Merged(s.data, m.payload)
  {
    hide Merged, Answer, ClearClientAddress, ByMac, ByIp, Freed, Wanted, ClientMac;
  }

  // ----- discovering -----

  /** A client that has an entry is offered its address again. */
  lemma KnownClientIsOffered(s: Server, m: Datagram, i: nat)
    requires Fits(s.cfg) && UniqueClients(s.entries) && m.alloc && i < |s.entries|
    requires Merged(s.data, m.payload)[242] == 1
    requires s.entries[i].mac == Merged(s.data, m.payload)[28..34] != [0, 0, 0, 0, 0, 0]
    ensures OfferOf(s, m) == Some((s.entries[i].addr, s.entries[i].mac))
    ensures Receive(s, m).1.Some? && Receive(s, m).1.value[242] == 2
  {
    var d := Merged(s.data, m.payload);
    FieldOctets(d);
    assert ByMac(s.entries, ClientMac(d)) == i;
    AnswerFields(d, s.cfg, s.entries[i], s.entries[i].addr, DHCP_OFFER);
    hide Merged, Answer, ByMac;
  }

  /** Any other client is offered the first vacant address, if there is one. */
  lemma NewClientIsOffered(s: Server, m: Datagram, i: nat)
    requires Fits(s.cfg) && m.alloc && i <= |s.entries|
    requires Merged(s.data, m.payload)[242] == 1
    requires forall j | 0 <= j < |s.entries| :: s.entries[j].mac != Merged(s.data, m.payload)[28..34]
    requires (forall j | 0 <= j < i :: s.entries[j].mac != [0, 0, 0, 0, 0, 0])
    requires i < |s.entries| ==> s.entries[i].mac == [0, 0, 0, 0, 0, 0]
    ensures OfferOf(s, m)
            == if i < |s.entries| then Some((s.entries[i].addr, Merged(s.data, m.payload)[28..34])) else None
    ensures i < |s.entries| ==> Receive(s, m).1.Some? && Receive(s, m).1.value[242] == 2
  {
    var d := Merged(s.data, m.payload);
    FieldOctets(d);
    assert ByMac(s.entries, ClientMac(d)) == |s.entries|;
    assert ByMac(s.entries, NO_MAC) == i;
    if i < |s.entries| {
      AnswerFields(d, s.cfg, s.entries[i], s.entries[i].addr, DHCP_OFFER);
    }
    hide Merged, Answer, ByMac;
  }

  // ----- concrete messages -----

  /** Messages of the full size, zero but for the fields that matter. */
  function DiscoverFrom(mac: Mac): Message {
    Zeros(28) + mac + Zeros(206) + [53, 1, 1] + Zeros(273)
  }

  function RequestFor(mac: Mac, addr: Ip): Message {
    Zeros(28) + mac + Zeros(206) + ([53, 1, 3, 50, 4] + addr) + Zeros(267)
  }

  function InformFrom(mac: Mac, addr: Ip): Message {
    Zeros(12) + addr + Zeros(12) + mac + Zeros(206) + [53, 1, 8] + Zeros(273)
  }

  lemma RequestForOctets(mac: Mac, addr: Ip)
    ensures var d := RequestFor(mac, addr);
            d[28..34] == mac && d[240..249] == [53, 1, 3, 50, 4] + addr
  {
  }

  lemma InformFromOctets(mac: Mac, addr: Ip)
    ensures var d := InformFrom(mac, addr);
            d[12..16] == addr && d[28..34] == mac && d[242] == 8
  {
    var d := InformFrom(mac, addr);
    assert d[240..243] == [53, 1, 8];
    assert d[242] == d[240..243][2];
  }

  lemma DiscoverFromOctets(mac: Mac)
    ensures var d := DiscoverFrom(mac);
            d[28..34] == mac && d[242] == 1
  {
    var d := DiscoverFrom(mac);
    assert d[240..243] == [53, 1, 1];
    assert d[242] == d[240..243][2];
  }

  lemma PrefixFields(m: Message, d: Message, n: nat)
    requires n <= 516 && m[..n] == d[..n]
    ensures forall i, j | 0 <= i <= j <= n :: m[i..j] == d[i..j]
    ensures forall i | 0 <= i < n :: m[i] == d[i]
  {
    assert forall i | 0 <= i < n :: m[i] == m[..n][i] && d[i] == d[..n][i];
    forall i, j | 0 <= i <= j <= n ensures m[i..j] == d[i..j] {
      assert forall k | 0 <= k < j - i :: m[i..j][k] == m[i + k] && d[i..j][k] == d[i + k];
    }
  }

  /** The first n octets of a discover message are enough, if they reach its type: a fresh pool
      offers its first address. */
  lemma ShortDiscoverIsOffered(pool: Server, mac: Mac, n: nat)
    requires Fresh(pool) && |pool.entries| > 0 && mac != NO_MAC && 243 <= n <= 516
    ensures var m := Datagram(DiscoverFrom(mac)[..n], true);
            && OfferOf(pool, m) == Some((pool.entries[0].addr, mac))
            && Next(pool, m).entries == pool.entries
            && Receive(pool, m).1.Some? && Receive(pool, m).1.value[242] == 2
  {
    var m := Datagram(DiscoverFrom(mac)[..n], true);
    MergedPrefix(pool.data, DiscoverFrom(mac), n, 243);
    PrefixFields(Merged(pool.data, m.payload), DiscoverFrom(mac), 243);
    DiscoverFromOctets(mac);
    hide DiscoverFrom, Merged, Receive, Next, OfferOf;
    NewClientIsOffered(pool, m, 0);
    OfferMeans(pool, m);
  }

  /** Every server takes the first n octets of a request, if they reach the end of the address, as
      a request of that client for that address, whatever its buffer held before. */
  lemma ShortRequestIsRequest(s: Server, mac: Mac, addr: Ip, alloc: bool, n: nat)
    requires 249 <= n <= 516
    ensures var m := Datagram(RequestFor(mac, addr)[..n], alloc);
            && Requests(s, m, addr, mac) && Frees(s, m, mac)
            && Wanted(Merged(s.data, m.payload)) == Some(addr)
            && ClientMac(Merged(s.data, m.payload)) == mac
  {
    var m := Datagram(RequestFor(mac, addr)[..n], alloc);
    var d := Merged(s.data, m.payload);
    MergedPrefix(s.data, RequestFor(mac, addr), n, 249);
    PrefixFields(d, RequestFor(mac, addr), 249);
    RequestForOctets(mac, addr);
    hide RequestFor, Merged, Wanted, ClientMac, TypeOf;
    RequestByOctets(d, mac, addr);
  }

  /** The same for the first n octets of an INFORM, if they reach its type. */
  lemma ShortInformIsInform(s: Server, mac: Mac, addr: Ip, alloc: bool, n: nat)
    requires 243 <= n <= 516
    ensures var m := Datagram(InformFrom(mac, addr)[..n], alloc);
            var d := Merged(s.data, m.payload);
            && Requests(s, m, addr, mac) && Frees(s, m, mac)
            && Wanted(d) == Some(addr) && ClientMac(d) == mac && TypeOf(d) == 8
  {
    var m := Datagram(InformFrom(mac, addr)[..n], alloc);
    var d := Merged(s.data, m.payload);
    MergedPrefix(s.data, InformFrom(mac, addr), n, 243);
    PrefixFields(d, InformFrom(mac, addr), 243);
    InformFromOctets(mac, addr);
    FieldOctets(d);
    hide InformFrom, Merged, Wanted, ClientMac, TypeOf;
  }

  /** Exactly when a request or an INFORM is acknowledged, by the table before it. */
  lemma AskingIsAckedIff(s: Server, m: Datagram, mac: Mac, addr: Ip)
    requires Fits(s.cfg) && UniqueClients(s.entries) && mac != NO_MAC && m.alloc
    requires Requests(s, m, addr, mac)
    ensures AckOf(s, m) == if IsFreeFor(s.entries, mac, addr) then Some((addr, mac)) else None
    ensures IsFreeFor(s.entries, mac, addr) ==> Receive(s, m).1.Some? && Receive(s, m).1.value[242] == 5
  {
    AckMeans(s, m);
    LeaseSlotIff(s.entries, mac, addr);
    if AckOf(s, m).Some? {
      AckIsTypeFive(s, m);
    }
    hide Next, AckOf, Merged, LeaseSlot, IsFreeFor, ClientMac, Wanted, Receive, Freed, Assign;
  }

  lemma AckIsTypeFive(s: Server, m: Datagram)
    requires Fits(s.cfg) && AckOf(s, m).Some?
    ensures Receive(s, m).1.Some? && Receive(s, m).1.value[242] == 5
  {
    hide Receive;
    FieldOctets(Receive(s, m).1.value);
  }

  lemma RequestForIsAckedIff(s: Server, mac: Mac, addr: Ip, n: nat)
    requires Fits(s.cfg) && UniqueClients(s.entries) && mac != NO_MAC && 249 <= n <= 516
    ensures var m := Datagram(RequestFor(mac, addr)[..n], true);
            && AckOf(s, m) == (if IsFreeFor(s.entries, mac, addr) then Some((addr, mac)) else None)
            && (IsFreeFor(s.entries, mac, addr) ==> Receive(s, m).1.Some? && Receive(s, m).1.value[242] == 5)
  {
    ShortRequestIsRequest(s, mac, addr, true, n);
    hide Receive, AckOf, IsFreeFor, Requests, RequestFor;
    AskingIsAckedIff(s, Datagram(RequestFor(mac, addr)[..n], true), mac, addr);
  }

  /** An INFORM about the client's own address is acknowledged with that address as the one given,
      and with the octets of the client's address cleared. */
  lemma InformIsAckedIff(s: Server, mac: Mac, addr: Ip, n: nat)
    requires Fits(s.cfg) && UniqueClients(s.entries) && mac != NO_MAC && 243 <= n <= 516
    ensures var m := Datagram(InformFrom(mac, addr)[..n], true);
            && AckOf(s, m) == (if IsFreeFor(s.entries, mac, addr) then Some((addr, mac)) else None)
            && (IsFreeFor(s.entries, mac, addr) ==>
                  && Receive(s, m).1.Some?
                  && Receive(s, m).1.value[242] == 5
                  && Receive(s, m).1.value[12..16] == [0, 0, 0, 0] && Receive(s, m).1.value[16..20] == addr)
  {
    var m := Datagram(InformFrom(mac, addr)[..n], true);
    ShortInformIsInform(s, mac, addr, true, n);
    hide AckOf, IsFreeFor, Requests, InformFrom, Merged, Wanted, ClientMac, TypeOf, AsksForLease, Receive;
    AskingIsAckedIff(s, m, mac, addr);
    if IsFreeFor(s.entries, mac, addr) {
      InformReply(s, m, addr, mac);
    }
  }

  lemma InformReply(s: Server, m: Datagram, addr: Ip, mac: Mac)
    requires Fits(s.cfg) && AckOf(s, m) == Some((addr, mac)) && TypeOf(Merged(s.data, m.payload)) == 8
    ensures Receive(s, m).1.Some?
    ensures Receive(s, m).1.value[12..16] == [0, 0, 0, 0] && Receive(s, m).1.value[16..20] == addr
  {
    AckMeans(s, m);
    var d := Merged(s.data, m.payload);
    var es := Freed(s.entries, ClientMac(d));
    var k := ByIp(es, addr);
    AnswerOctets(d, s.cfg, es[k], addr, DHCP_ACK);
    AnswerFields(d, s.cfg, es[k], addr, DHCP_ACK);
    hide Answer, ClearClientAddress, Merged, ByIp, Freed, ClientMac, FilledArea;
  }

  /** An input that costs a lease: a client asks for an address that is not in the pool. */
  lemma AskingElsewhereLosesLease(s: Server, mac: Mac, addr: Ip, alloc: bool, n: nat)
    requires Fits(s.cfg) && UniqueClients(s.entries) && mac != NO_MAC && ByIp(s.entries, addr) == |s.entries|
    requires 249 <= n <= 516
    ensures !HasLease(Next(s, Datagram(RequestFor(mac, addr)[..n], alloc)).entries, mac)
  {
    ShortRequestIsRequest(s, mac, addr, alloc, n);
    HasLeaseIff(s, Datagram(RequestFor(mac, addr)[..n], alloc), mac);
    hide RequestFor, Merged, Wanted, ClientMac, Next;
  }

  /** The dialogue of discovering, requesting and moving on, on any fresh pool with an address:
      the first client gets the first address, the second one is refused it, and gets it once
      the first one has asked for an address outside the pool. */
  lemma AddressMovesOn(pool: Server, first: Mac, second: Mac, elsewhere: Ip, n: nat)
    requires Fresh(pool) && |pool.entries| > 0 && ByIp(pool.entries, elsewhere) == |pool.entries|
    requires first != NO_MAC && second != NO_MAC && first != second && 249 <= n <= 516
    ensures var addr := pool.entries[0].addr;
            var s1 := Next(pool, Datagram(DiscoverFrom(first)[..n], true));
            var ask1, ask2 := Datagram(RequestFor(first, addr)[..n], true), Datagram(RequestFor(second, addr)[..n], true);
            var s2 := Next(s1, ask1);
            var s3 := Next(s2, Datagram(RequestFor(first, elsewhere)[..n], true));
            && OfferOf(pool, Datagram(DiscoverFrom(first)[..n], true)) == Some((addr, first))
            && AckOf(s1, ask1) == Some((addr, first))
            && AckOf(s2, ask2) == None
            && AckOf(s3, ask2) == Some((addr, second))
  {
    var addr := pool.entries[0].addr;
    ShortDiscoverIsOffered(pool, first, n);
    var s1 := Next(pool, Datagram(DiscoverFrom(first)[..n], true));
    assert ByIp(pool.entries, addr) == 0;
    RequestForIsAckedIff(s1, first, addr, n);
    hide Next, AckOf, RequestFor, DiscoverFrom, Receive;
    var ask1 := Datagram(RequestFor(first, addr)[..n], true);
    AckTellsTheTruth(s1, ask1);
    StepKeepsTable(s1, ask1);
    var s2 := Next(s1, ask1);
    ByIpInPool(s1.entries, s2.entries, elsewhere);
    RequestForIsAckedIff(s2, second, addr, n);
    var away := Datagram(RequestFor(first, elsewhere)[..n], true);
    ShortRequestIsRequest(s2, first, elsewhere, true, n);
    RequestForIsAckedIff(s2, first, elsewhere, n);
    UnackedOnlyFrees(s2, away);
    FreedFacts(s2.entries, first);
    var s3 := Next(s2, away);
    ByIpInPool(s2.entries, s3.entries, addr);
    FreedThenAssigned(s2.entries, first, ByIp(s2.entries, addr));
    RequestForIsAckedIff(s3, second, addr, n);
  }
}
