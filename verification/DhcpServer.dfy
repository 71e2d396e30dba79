/** The DHCP server working in place: pool construction, the message buffer, and the receive
    procedure proved against the step function. */
module DhcpServer {
  import opened Bytes
  import opened DhcpOptions
  import opened DhcpLeases
  import opened DhcpPool

  const SUBNET_24: Ip := [255, 255, 255, 0]
  const ONE_DAY := 24 * 60 * 60

  /** An address of the server's network. */
  function InNetwork(addr: Ip, octet: byte): Ip {
    [addr[0], addr[1], addr[2], octet]
  }

  function PoolEntry(addr: Ip, octet: byte): Entry {
    Entry(NO_MAC, InNetwork(addr, octet), SUBNET_24, ONE_DAY)
  }

  /** The pool a constructor call leaves. */
  function Pool(addr: Ip, startIp: byte, ipCount: byte): (es: seq<Entry>) {
    var os := Octets(startIp, ipCount, addr[3]);
    seq(|os|, j requires 0 <= j < |os| => PoolEntry(addr, U8(os[j])))
  }

  function Addresses(es: seq<Entry>): (s: seq<Ip>)
    ensures |s| == |es| && forall i | 0 <= i < |es| :: s[i] == es[i].addr
  {
    seq(|es|, i requires 0 <= i < |es| => es[i].addr)
  }

  /** Every pool is a fresh table, also one whose range runs past 255: every address once, all
      of them vacant, with a network of 24 bits and a lease of one day. */
  lemma PoolIsFresh(addr: Ip, startIp: byte, ipCount: byte)
    ensures DistinctAddresses(Pool(addr, startIp, ipCount))
    ensures forall i | 0 <= i < |Pool(addr, startIp, ipCount)| ::
              Pool(addr, startIp, ipCount)[i]
              == Entry([0, 0, 0, 0, 0, 0], Pool(addr, startIp, ipCount)[i].addr, [255, 255, 255, 0], 86400)
  {
    StoredOctetsAreDistinct(startIp, ipCount, addr[3]);
    hide Octets;
    var os := Octets(startIp, ipCount, addr[3]);
    var es := Pool(addr, startIp, ipCount);
    assert forall i | 0 <= i < |es| :: es[i].addr[3] == U8(os[i]);
  }

  /** Exactly which addresses of the server's network a pool hands out: those of the range
      without the server's own, and those that the range reaches after wrapping at 255. */
  lemma PoolIsTheRange(addr: Ip, startIp: byte, ipCount: byte, x: byte)
    ensures InNetwork(addr, x) in Addresses(Pool(addr, startIp, ipCount))
            <==> (startIp as int <= x < startIp as int + ipCount && x != addr[3])
                 || x as int + 0x100 < startIp as int + ipCount
  {
    StoredOctets(startIp, ipCount, addr[3], x);
    hide Octets;
    var os := Octets(startIp, ipCount, addr[3]);
    var es := Pool(addr, startIp, ipCount);
    var a := InNetwork(addr, x);
    if a in Addresses(es) {
      var i :| 0 <= i < |es| && Addresses(es)[i] == a;
      assert U8(os[i]) == es[i].addr[3] == a[3] == x;
    }
    if Stores(os, x) {
      var i :| 0 <= i < |os| && U8(os[i]) == x;
      assert Addresses(es)[i] == es[i].addr == a;
    }
  }

  /** The server hands out its own address if and only if the range wraps as far as to it. */
  lemma PoolHandsOutOwnAddressIff(addr: Ip, startIp: byte, ipCount: byte)
    ensures addr in Addresses(Pool(addr, startIp, ipCount)) <==> startIp as int + ipCount > addr[3] as int + 0x100
  {
    PoolIsTheRange(addr, startIp, ipCount, addr[3]);
    assert addr == InNetwork(addr, addr[3]);
  }

  class DhcpServer {
    const cfg: Config
    var entries: array<Entry>
    var numEntry: nat
    var data: array<byte>

    ghost predicate Valid()
      reads this
    {
      Fits(cfg) && numEntry <= entries.Length && data.Length == SIZE
    }

    ghost function State(): Server
      requires Valid()
      reads this, entries, data
    {
      Server(cfg, entries[..numEntry], data[..])
    }

    constructor (addr: Ip, domain: Option<seq<byte>>, startIp: byte, ipCount: byte, granted: bool)
      requires Fits(Config(addr, addr, domain))
      ensures Valid() && fresh(entries) && fresh(data)
      ensures State() == Server(Config(addr, addr, domain), if granted then Pool(addr, startIp, ipCount) else [], Zeros(SIZE))
      ensures Fresh(State())
    {
      PoolIsFresh(addr, startIp, ipCount);
      cfg := Config(addr, addr, domain);
      data := new byte[SIZE](_ => 0);
      entries := new Entry[if granted then ipCount else 0](_ => Entry(NO_MAC, NO_IP, NO_IP, 0));
      numEntry := 0;
      new;
      assert data[..] == Zeros(SIZE);
      if granted && ipCount != 0 {
        numEntry := FillPool(entries, addr, startIp, ipCount);
      }
    }

    /** The pool loop. It skips the server's own octet by moving the start and shortening the
        count while it runs. */
    static method FillPool(entries: array<Entry>, addr: Ip, startIp: byte, ipCount: byte) returns (count: nat)
      requires entries.Length == ipCount
      modifies entries
      ensures count <= entries.Length && entries[..count] == Pool(addr, startIp, ipCount)
    {
      hide Octets;
      OctetsByIndex(startIp, ipCount, addr[3]);
      var start: nat, i := startIp, 0;
      count := ipCount;
      ghost var hit := false;
      while i < count
        invariant 0 <= i && count <= ipCount && (i <= count || (hit && i == count + 1))
        invariant hit <==> startIp <= addr[3] < startIp as int + i
        invariant if hit then start == U8(startIp as int + 1) && count == ipCount - 1 && addr[3] - startIp < ipCount
                  else start == startIp && count == ipCount
        invariant forall j | 0 <= j < i && j < count :: entries[j] == PoolEntry(addr, U8(OctetAt(startIp, addr[3], j)))
      {
        if start + i == addr[3] {
          start := U8(start + 1);
          count := count - 1;
          hit := true;
        }
        entries[i] := Entry(NO_MAC, [addr[0], addr[1], addr[2], U8(start + i)], SUBNET_24, ONE_DAY);
        i := i + 1;
      }
    }

    // ----- searching -----

    method EntryByMac(mac: Mac) returns (k: int)
      requires Valid()
      ensures var es := entries[..numEntry];
              k == if ByMac(es, mac) < |es| then ByMac(es, mac) else -1
    {
      for i := 0 to numEntry
        invariant forall j | 0 <= j < i :: entries[j].mac != mac
      {
        if entries[i].mac == mac {
          assert entries[..numEntry][i].mac == mac;
          return i;
        }
      }
      assert forall j | 0 <= j < numEntry :: entries[..numEntry][j].mac == entries[j].mac;
      return -1;
    }

    method EntryByIp(ip: Ip) returns (k: int)
      requires Valid()
      ensures var es := entries[..numEntry];
              k == if ByIp(es, ip) < |es| then ByIp(es, ip) else -1
    {
      for i := 0 to numEntry
        invariant forall j | 0 <= j < i :: entries[j].addr != ip
      {
        if entries[i].addr == ip {
          assert entries[..numEntry][i].addr == ip;
          return i;
        }
      }
      assert forall j | 0 <= j < numEntry :: entries[..numEntry][j].addr == entries[j].addr;
      return -1;
    }

    method VacantAddress() returns (k: int)
      requires Valid()
      ensures var es := entries[..numEntry];
              k == if ByMac(es, NO_MAC) < |es| then ByMac(es, NO_MAC) else -1
    {
      k := EntryByMac(NO_MAC);
    }

    /** Frees the client's entry, if it has one. */
    method FreeEntryOf(mac: Mac)
      requires Valid()
      modifies entries
      ensures entries[..numEntry] == Freed(old(entries[..numEntry]), mac)
    {
      var k := EntryByMac(mac);
      if k >= 0 {
        entries[k] := entries[k].(mac := NO_MAC);
      }
    }

    /** The option walk over the message buffer; -1 is the null pointer. Every read lies
        inside the area, and so does the option it finds. */
    method FindDhcpOption(attr: byte) returns (r: int)
      requires Valid()
      ensures r == FindFrom(OptionArea(data[..]), 0, attr)
    {
      var size := OPTIONS_END - OPTIONS;
      ghost var attrs := OptionArea(data[..]);
      var i := 0;
      while i + 1 < size
        invariant 0 <= i <= size
        invariant FindFrom(attrs, 0, attr) == FindFrom(attrs, i, attr)
        decreases size - i
      {
        assert attrs[i] == data[OPTIONS + i] && attrs[i + 1] == data[OPTIONS + i + 1];
        var next := i + data[OPTIONS + i + 1] as int + 2;
        if next > size {
          return -1;
        }
        if data[OPTIONS + i] == attr {
          return i;
        }
        i := next;
      }
      return -1;
    }

    // ----- composing replies -----

    /** One option at the cursor: tag, length and value. */
    method PutOption(at: nat, tag: byte, value: seq<byte>) returns (next: nat)
      requires at + 2 + |value| <= data.Length && |value| < 0x100
      modifies data
      ensures next == at + 2 + |value|
      ensures data[..next] == old(data[..at]) + EncodeOne(Opt(tag, value))
      ensures Untouched(old(data[..]), data[..], next)
    {
      data[at] := tag;
      data[at + 1] := |value|;
      Memcpy(data, at + 2, value);
      assert data[..at + 2] == old(data[..at]) + [tag, |value|];
      next := at + 2 + |value|;
    }

    /** One more option behind the list os that already stands before the cursor. */
    method PutOptional(present: bool, at: nat, tag: byte, value: seq<byte>, ghost pre: seq<byte>, ghost os: seq<Opt>)
      returns (next: nat)
      requires present ==> at + 2 + |value| <= data.Length
      requires at <= data.Length && |value| < 0x100
      requires Encodable(os) && data[..at] == pre + EncodeAll(os)
      modifies data
      ensures next == if present then at + 2 + |value| else at
      ensures Encodable(os + Optional(present, tag, value))
      ensures data[..next] == pre + EncodeAll(os + Optional(present, tag, value))
      ensures Untouched(old(data[..]), data[..], next)
    {
      hide EncodeAll, EncodeOne, Encodable;
      next := at;
      if present {
        EncodeSnoc(os, Opt(tag, value));
        next := PutOption(at, tag, value);
      } else {
        assert os + Optional(present, tag, value) == os;
      }
    }

    /** The options of a reply, one after the other. */
    method PutOptions(msgType: byte, e: Entry) returns (at: nat)
      requires Valid()
      modifies data
      ensures Encodable(OptionList(cfg, e, msgType)) && at == OPTIONS + OptionsLength(cfg)
      ensures data[..at] == old(data[..OPTIONS]) + EncodeAll(OptionList(cfg, e, msgType))
      ensures Untouched(old(data[..]), data[..], at)
    {
      hide EncodeAll, EncodeOne, Octets32, Encodable, FixedOptions, Optional;
      ghost var pre := data[..OPTIONS];
      ghost var os := FixedOptions(cfg, e, msgType);
      at := PutFixed(msgType, e);
      at := PutOptional(cfg.addr != NO_IP, at, OPT_ROUTER, cfg.addr, pre, os);
      os := os + Optional(cfg.addr != NO_IP, OPT_ROUTER, cfg.addr);
      at := PutOptional(cfg.domain.Some?, at, OPT_DOMAIN, DomainName(cfg), pre, os);
      os := os + Optional(cfg.domain.Some?, OPT_DOMAIN, DomainName(cfg));
      at := PutOptional(cfg.dns != NO_IP, at, OPT_DNS, cfg.dns, pre, os);
    }

    /** The options and the end mark. */
    method FillOptions(msgType: byte, e: Entry)
      requires Valid()
      modifies data
      ensures Encodable(OptionList(cfg, e, msgType))
      ensures data[..OPTIONS + OptionsLength(cfg) + 1]
              == old(data[..OPTIONS]) + EncodeAll(OptionList(cfg, e, msgType)) + [END]
      ensures Untouched(old(data[..]), data[..], OPTIONS + OptionsLength(cfg) + 1)
    {
      hide EncodeAll, OptionList, Encodable;
      var at := PutOptions(msgType, e);
      data[at] := END;
      assert data[..at + 1] == data[..at] + [END];
    }

    /** The four options that every reply carries. */
    method PutFixed(msgType: byte, e: Entry) returns (at: nat)
      requires data.Length == SIZE
      modifies data
      ensures at == OPTIONS + 21 && Encodable(FixedOptions(cfg, e, msgType))
      ensures data[..at] == old(data[..OPTIONS]) + EncodeAll(FixedOptions(cfg, e, msgType))
      ensures Untouched(old(data[..]), data[..], at)
    {
      hide EncodeAll, EncodeOne, Octets32;
      var o1, o2 := Opt(OPT_TYPE, [msgType]), Opt(OPT_SERVERID, cfg.addr);
      var o3, o4 := Opt(OPT_LEASE, Octets32(e.lease)), Opt(OPT_SUBNET, e.subnet);
      EncodeSingle(o1);
      EncodeSnoc([o1], o2);
      EncodeSnoc([o1] + [o2], o3);
      EncodeSnoc([o1] + [o2] + [o3], o4);
      assert FixedOptions(cfg, e, msgType) == [o1] + [o2] + [o3] + [o4];
      at := PutOption(OPTIONS, OPT_TYPE, [msgType]);
      at := PutOption(at, OPT_SERVERID, cfg.addr);
      at := PutOption(at, OPT_LEASE, Octets32(e.lease));
      at := PutOption(at, OPT_SUBNET, e.subnet);
    }

    /** Fills the fixed fields of a reply and clears the option area. */
    method StampFields()
      requires Valid()
      modifies data
      ensures data[..OPTIONS] == [2] + old(data[1..XID_END]) + [0, 0, 0, 0] + old(data[CIADDR..MAGIC]) + MAGIC_COOKIE
      ensures data[OPTIONS..OPTIONS_END] == Zeros(OPTIONS_END - OPTIONS)
      ensures data[OPTIONS_END..] == old(data[OPTIONS_END..])
    {
      data[0] := 2;
      data[8], data[9] := 0, 0;
      data[10], data[11] := 0, 0;
      Memcpy(data, MAGIC, MAGIC_COOKIE);
      Memcpy(data, OPTIONS, Zeros(OPTIONS_END - OPTIONS));
    }

    /** The options in the cleared area, up to its end. */
    method FillArea(msgType: byte, e: Entry)
      requires Valid() && data[OPTIONS..OPTIONS_END] == Zeros(OPTIONS_END - OPTIONS)
      modifies data
      ensures data[..] == old(data[..OPTIONS]) + FilledArea(cfg, e, msgType) + old(data[OPTIONS_END..])
    {
      hide EncodeAll, EncodeOne, OptionList, Encodable, OptionsLength;
      ghost var z := data[..];
      OptionListFits(cfg, e, msgType);
      FillOptions(msgType, e);
      ghost var n := OPTIONS + OptionsLength(cfg) + 1;
      FilledFromParts(z, data[..], cfg, e, msgType, n);
    }

    /** Turns the message, whose yiaddr field is already in place, into a reply. */
    method PrepareReply(e: Entry, msgType: byte)
      requires Valid()
      modifies data
      ensures data[..] == Answer(old(data[..]), cfg, e, YourAddress(old(data[..])), msgType)
    {
      hide EncodeAll, EncodeOne, OptionList, Encodable, FilledArea;
      ghost var d: Message := data[..];
      StampFields();
      ghost var z := data[..];
      FillArea(msgType, e);
      assert d[CIADDR..MAGIC] == d[CIADDR..YIADDR] + YourAddress(d) + d[SIADDR..MAGIC];
      assert d[1..XID_END] == old(data[1..XID_END]) && d[OPTIONS_END..] == z[OPTIONS_END..];
    }

    /** The memcpy from one place of the message to its yiaddr field. */
    method CopyToYourAddress(at: nat)
      requires Valid() && at + 4 <= SIZE && (at + 4 <= YIADDR || SIADDR <= at)
      modifies data
      ensures data[..] == WithYourAddress(old(data[..]), old(data[at..at + 4]))
    {
      for i := 0 to 4
        invariant forall j | 0 <= j < SIZE :: data[j] == if YIADDR <= j < YIADDR + i then old(data[at + (j - YIADDR)]) else old(data[j])
      {
        data[YIADDR + i] := data[at + i];
      }
    }

    /** An acknowledgement of the address that stands at offset at. It is copied before the
        option area, where it may lie, is cleared. */
    method AcknowledgeFrom(at: nat, e: Entry)
      requires Valid() && at + 4 <= SIZE && (at + 4 <= YIADDR || SIADDR <= at)
      modifies data
      ensures data[..] == Answer(old(data[..]), cfg, e, old(data[at..at + 4]), DHCP_ACK)
    {
      hide Answer, Fits, WithYourAddress;
      ghost var d: Message := data[..];
      AnswerOfCopied(d, cfg, e, data[at..at + 4], DHCP_ACK);
      CopyToYourAddress(at);
      PrepareReply(e, DHCP_ACK);
    }

    /** REQUEST and INFORM from the point where the wanted address is known. It stands in the
        message at offset at, which for a REQUEST lies inside the option area. */
    method LeaseTo(at: nat, inform: bool, alloc: bool) returns (reply: Option<seq<byte>>)
      requires Valid() && inform == (TypeOf(data[..]) == DHCP_INFORM)
      requires at + 4 <= SIZE && (at + 4 <= YIADDR || SIADDR <= at)
      modifies entries, data
      ensures (State(), reply) == Lease(old(State()), old(data[at..at + 4]), alloc)
    {
      hide ByMac, ByIp, Freed, Answer, Fits, FilledArea, WithYourAddress;
      ghost var d: Message := data[..];
      ghost var s := State();
      ghost var want: Ip := data[at..at + 4];
      var chaddr := data[CHADDR..CHADDR + 6];
      assert chaddr == ClientMac(d);
      FreeEntryOf(chaddr);
      ghost var es := entries[..numEntry];
      assert es == Freed(s.entries, chaddr);
      var k := EntryByIp(data[at..at + 4]);
      if k < 0 {
        return None;
      }
      if entries[k].mac != NO_MAC {
        return None;
      }
      var entry := entries[k];
      assert entry == es[k];
      AcknowledgeFrom(at, entry);
      ghost var a: Message := data[..];
      if inform {
        data[12], data[13], data[14], data[15] := 0, 0, 0, 0;
        assert data[..] == ClearClientAddress(a);
      }
      if !alloc {
        return None;
      }
      AnswerFields(d, cfg, entry, want, DHCP_ACK);
      hide ClearClientAddress;
      assert data[CHADDR..CHADDR + 6] == ClientMac(data[..]) == chaddr;
      hide ClientMac;
      entries[k] := entries[k].(mac := data[CHADDR..CHADDR + 6]);
      assert entries[..numEntry] == Assign(es, k, chaddr);
      reply := Some(data[..]);
    }

    method Offer(alloc: bool) returns (reply: Option<seq<byte>>)
      requires Valid()
      modifies data
      ensures (State(), reply) == Discover(old(State()), alloc)
    {
      hide ByMac, Answer, Fits, FilledArea;
      ghost var d: Message := data[..];
      var chaddr := data[CHADDR..CHADDR + 6];
      assert chaddr == ClientMac(d);
      var k := EntryByMac(chaddr);
      if k < 0 {
        k := VacantAddress();
      }
      if k < 0 {
        return None;
      }
      assert entries[k] == entries[..numEntry][k];
      ghost var addr := entries[k].addr;
      Memcpy(data, YIADDR, entries[k].addr);
      assert data[..] == WithYourAddress(d, addr);
      AnswerOfCopied(d, cfg, entries[k], addr, DHCP_OFFER);
      PrepareReply(entries[k], DHCP_OFFER);
      reply := if alloc then Some(data[..]) else None;
    }

    /** A REQUEST names the wanted address in an option of length four. */
    method Request(alloc: bool) returns (reply: Option<seq<byte>>)
      requires Valid() && TypeOf(data[..]) == DHCP_REQUEST
      modifies entries, data
      ensures (State(), reply) == if Wanted(old(data[..])).None? then (old(State()), None)
                                  else Lease(old(State()), Wanted(old(data[..])).value, alloc)
    {
      hide Lease, FindFrom, Fits;
      ghost var d: Message := data[..];
      var r := FindDhcpOption(OPT_IPADDRESS);
      if r < 0 || data[OPTIONS + r + 1] != 4 {
        return None;
      }
      assert OptionArea(d)[r + 1] == 4;
      assert OptionArea(d)[r + 2..r + 6] == data[OPTIONS + r + 2..OPTIONS + r + 6];
      reply := LeaseTo(OPTIONS + r + 2, false, alloc);
    }

    /** The receive procedure: the payload is merged into the message buffer and dispatched on
        the octet where the message type is expected. */
    method UdpRecvProc(payload: seq<byte>, alloc: bool) returns (reply: Option<seq<byte>>)
      requires Valid()
      modifies entries, data
      ensures (State(), reply) == Receive(old(State()), Datagram(payload, alloc))
    {
      hide Discover, Lease, FindFrom, OptionArea, Fits;
      ghost var s := State();
      var n := if |payload| > SIZE then SIZE else |payload|;
      Memcpy(data, 0, payload[..n]);
      ghost var d: Message := data[..];
      assert d == Merged(s.data, payload);
      assert State() == s.(data := d);
      var msgType := data[OPTIONS + 2];
      if msgType == DHCP_DISCOVER {
        reply := Offer(alloc);
      } else if msgType == DHCP_REQUEST {
        reply := Request(alloc);
      } else if msgType == DHCP_INFORM {
        assert data[CIADDR..YIADDR] == d[CIADDR..YIADDR];
        reply := LeaseTo(CIADDR, true, alloc);
      } else {
        reply := None;
      }
    }
  }
}
