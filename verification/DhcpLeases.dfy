/** The lease table of the DHCP server (RFC 2131, section 4.3) as a function of the datagrams
    it receives, and what holds over every run. */
module DhcpLeases {
  import opened Bytes
  import opened DhcpOptions

  // ----- message layout -----

  const SIZE := 516
  const XID_END := 8
  const CIADDR := 12
  const YIADDR := 16
  const SIADDR := 20
  const CHADDR := 28
  const MAGIC := 236
  const OPTIONS := 240
  const OPTIONS_END := 515

  const DHCP_DISCOVER: byte := 1
  const DHCP_OFFER: byte := 2
  const DHCP_REQUEST: byte := 3
  const DHCP_ACK: byte := 5
  const DHCP_INFORM: byte := 8

  const OPT_SUBNET: byte := 1
  const OPT_ROUTER: byte := 3
  const OPT_DNS: byte := 6
  const OPT_DOMAIN: byte := 15
  const OPT_IPADDRESS: byte := 50
  const OPT_LEASE: byte := 51
  const OPT_TYPE: byte := 53
  const OPT_SERVERID: byte := 54

  const NO_IP: Ip := [0, 0, 0, 0]
  const MAGIC_COOKIE: seq<byte> := [0x63, 0x82, 0x53, 0x63]

  type Message = s: seq<byte> | |s| == SIZE witness Zeros(516)

  function ClientMac(d: Message): Mac {
    d[CHADDR..CHADDR + 6]
  }

  function YourAddress(d: Message): Ip {
    d[YIADDR..YIADDR + 4]
  }

  /** The server trusts the third octet of the option area to be the message type. */
  function TypeOf(d: Message): byte {
    d[OPTIONS + 2]
  }

  function OptionArea(d: Message): (s: seq<byte>)
    ensures |s| == 275
  {
    d[OPTIONS..OPTIONS_END]
  }

  // ----- the table -----

  datatype Entry = Entry(mac: Mac, addr: Ip, subnet: Ip, lease: nat)

  datatype Config = Config(addr: Ip, dns: Ip, domain: Option<seq<byte>>)

  datatype Server = Server(cfg: Config, entries: seq<Entry>, data: Message)

  function ByMac(es: seq<Entry>, mac: Mac): (k: nat)
    ensures k <= |es| && (k < |es| ==> es[k].mac == mac)
    ensures forall i | 0 <= i < k :: es[i].mac != mac
  {
    if es == [] then 0 else if es[0].mac == mac then 0 else 1 + ByMac(es[1..], mac)
  }

  function ByIp(es: seq<Entry>, ip: Ip): (k: nat)
    ensures k <= |es| && (k < |es| ==> es[k].addr == ip)
    ensures forall i | 0 <= i < k :: es[i].addr != ip
  {
    if es == [] then 0 else if es[0].addr == ip then 0 else 1 + ByIp(es[1..], ip)
  }

  function Assign(es: seq<Entry>, k: nat, mac: Mac): seq<Entry>
    requires k < |es|
  {
    es[k := es[k].(mac := mac)]
  }

  /** The entry of a known client is freed before its request is looked at. */
  function Freed(es: seq<Entry>, mac: Mac): seq<Entry> {
    var k := ByMac(es, mac);
    if k < |es| then Assign(es, k, NO_MAC) else es
  }

  // ----- replies -----

  function Octets32(x: nat): (s: seq<byte>)
    ensures |s| == 4
  {
    [x / 0x100_0000 % 0x100, x / 0x1_0000 % 0x100, x / 0x100 % 0x100, x % 0x100]
  }

  /** The emitted lease time reads back as the lease time. */
  lemma Octets32IsBigEndian(x: nat)
    requires x < 0x1_0000_0000
    ensures var o := Octets32(x);
            x == o[0] * 0x100_0000 + o[1] * 0x1_0000 + o[2] * 0x100 + o[3] as int
  {
    assert x / 0x100 == (x / 0x1_0000) * 0x100 + x / 0x100 % 0x100;
    assert x / 0x1_0000 == (x / 0x100_0000) * 0x100 + x / 0x1_0000 % 0x100;
  }

  function Optional(present: bool, tag: byte, value: seq<byte>): seq<Opt> {
    if present then [Opt(tag, value)] else []
  }

  function FixedOptions(cfg: Config, e: Entry, msgType: byte): seq<Opt> {
    [Opt(OPT_TYPE, [msgType]), Opt(OPT_SERVERID, cfg.addr), Opt(OPT_LEASE, Octets32(e.lease)), Opt(OPT_SUBNET, e.subnet)]
  }

  function DomainName(cfg: Config): seq<byte> {
    if cfg.domain.Some? then cfg.domain.value else []
  }

  /** The options of every reply, in the order in which they are emitted. */
  function OptionList(cfg: Config, e: Entry, msgType: byte): seq<Opt> {
    FixedOptions(cfg, e, msgType)
    + Optional(cfg.addr != NO_IP, OPT_ROUTER, cfg.addr)
    + Optional(cfg.domain.Some?, OPT_DOMAIN, DomainName(cfg))
    + Optional(cfg.dns != NO_IP, OPT_DNS, cfg.dns)
  }

  /** Octets taken by the options, without the end mark. */
  function OptionsLength(cfg: Config): nat {
    21 + (if cfg.addr != NO_IP then 6 else 0)
    + (if cfg.domain.Some? then 2 + |cfg.domain.value| else 0)
    + (if cfg.dns != NO_IP then 6 else 0)
  }

  /** The options and the end mark fit the 275 octets of the area. */
  predicate Fits(cfg: Config) {
    OptionsLength(cfg) + 1 <= 275
  }

  lemma OptionalLength(present: bool, tag: byte, value: seq<byte>)
    requires |value| < 0x100
    ensures var os := Optional(present, tag, value);
            Encodable(os) && |EncodeAll(os)| == if present then |value| + 2 else 0
  {
    EncodeSingle(Opt(tag, value));
  }

  lemma FixedLength(cfg: Config, e: Entry, msgType: byte)
    ensures Encodable(FixedOptions(cfg, e, msgType)) && |EncodeAll(FixedOptions(cfg, e, msgType))| == 21
  {
    var o1, o2 := Opt(OPT_TYPE, [msgType]), Opt(OPT_SERVERID, cfg.addr);
    var o3, o4 := Opt(OPT_LEASE, Octets32(e.lease)), Opt(OPT_SUBNET, e.subnet);
    hide EncodeAll, EncodeOne, Octets32;
    EncodeSingle(o1);
    EncodeSingle(o2);
    EncodeSingle(o3);
    EncodeSingle(o4);
    EncodeConcat([o1], [o2]);
    EncodeConcat([o1] + [o2], [o3]);
    EncodeConcat([o1] + [o2] + [o3], [o4]);
    assert FixedOptions(cfg, e, msgType) == [o1] + [o2] + [o3] + [o4];
  }

  lemma OptionListFits(cfg: Config, e: Entry, msgType: byte)
    requires Fits(cfg)
    ensures Encodable(OptionList(cfg, e, msgType))
    ensures |EncodeAll(OptionList(cfg, e, msgType))| == OptionsLength(cfg)
  {
    var a, b := FixedOptions(cfg, e, msgType), Optional(cfg.addr != NO_IP, OPT_ROUTER, cfg.addr);
    var c, d := Optional(cfg.domain.Some?, OPT_DOMAIN, DomainName(cfg)), Optional(cfg.dns != NO_IP, OPT_DNS, cfg.dns);
    FixedLength(cfg, e, msgType);
    OptionalLength(cfg.addr != NO_IP, OPT_ROUTER, cfg.addr);
    OptionalLength(cfg.domain.Some?, OPT_DOMAIN, DomainName(cfg));
    OptionalLength(cfg.dns != NO_IP, OPT_DNS, cfg.dns);
    hide EncodeAll, EncodeOne, FixedOptions, Optional;
    EncodeConcat(a, b);
    EncodeConcat(a + b, c);
    EncodeConcat(a + b + c, d);
  }

  function FilledArea(cfg: Config, e: Entry, msgType: byte): (s: seq<byte>)
    requires Fits(cfg)
    ensures |s| == 275
  {
    OptionListFits(cfg, e, msgType);
    Area(OptionList(cfg, e, msgType), 274 - OptionsLength(cfg))
  }

  /** A buffer z, cleared in the option area, with the options written in front of the rest. */
  lemma FilledFromParts(z: seq<byte>, r: seq<byte>, cfg: Config, e: Entry, msgType: byte, n: nat)
    requires |z| == |r| == SIZE && Fits(cfg) && n == OPTIONS + OptionsLength(cfg) + 1
    requires Encodable(OptionList(cfg, e, msgType))
    requires z[OPTIONS..OPTIONS_END] == Zeros(OPTIONS_END - OPTIONS)
    requires r[..n] == z[..OPTIONS] + EncodeAll(OptionList(cfg, e, msgType)) + [END]
    requires Untouched(z, r, n)
    ensures r == z[..OPTIONS] + FilledArea(cfg, e, msgType) + z[OPTIONS_END..]
  {
    OptionListFits(cfg, e, msgType);
    hide OptionList, EncodeAll, Encodable, OptionsLength;
    var area := EncodeAll(OptionList(cfg, e, msgType));
    assert forall i | OPTIONS <= i < OPTIONS_END :: z[i] == z[OPTIONS..OPTIONS_END][i - OPTIONS] == 0;
    AllZeros(r[n..OPTIONS_END]);
    assert forall i | OPTIONS_END <= i < SIZE :: r[i] == z[i];
    assert r[OPTIONS_END..] == z[OPTIONS_END..];
    assert r == r[..n] + r[n..OPTIONS_END] + r[OPTIONS_END..];
    assert FilledArea(cfg, e, msgType) == area + [END] + Zeros(OPTIONS_END - n);
    hide FilledArea;
  }

  /** The message buffer turned into a reply; unmentioned fields keep what was received. */
  function Answer(d: Message, cfg: Config, e: Entry, yiaddr: Ip, msgType: byte): Message
    requires Fits(cfg)
  {
    [2] + d[1..XID_END] + [0, 0, 0, 0] + d[CIADDR..YIADDR] + yiaddr + d[SIADDR..MAGIC] + MAGIC_COOKIE
    + FilledArea(cfg, e, msgType) + d[OPTIONS_END..]
  }

  /** The message with another address in its yiaddr field. */
  function WithYourAddress(d: Message, addr: Ip): (r: Message)
    ensures YourAddress(r) == addr
  {
    d[..YIADDR] + addr + d[SIADDR..]
  }

  lemma AnswerOfCopied(d: Message, cfg: Config, e: Entry, addr: Ip, msgType: byte)
    requires Fits(cfg)
    ensures Answer(WithYourAddress(d, addr), cfg, e, YourAddress(WithYourAddress(d, addr)), msgType)
            == Answer(d, cfg, e, addr, msgType)
  {
    hide FilledArea;
    var r := WithYourAddress(d, addr);
    assert r[1..XID_END] == d[1..XID_END] && r[CIADDR..YIADDR] == d[CIADDR..YIADDR];
    assert r[SIADDR..MAGIC] == d[SIADDR..MAGIC] && r[OPTIONS_END..] == d[OPTIONS_END..];
  }

  function ClearClientAddress(d: Message): Message {
    d[..CIADDR] + [0, 0, 0, 0] + d[YIADDR..]
  }

  // ----- the step function -----

  /** A received payload, and whether the reply buffer can be allocated. */
  datatype Datagram = Datagram(payload: seq<byte>, alloc: bool)

  /** Short datagrams leave the rest of the buffer as the previous message left it. */
  function Merged(old_: Message, payload: seq<byte>): Message {
    var n := if |payload| > SIZE then SIZE else |payload|;
    payload[..n] + old_[n..]
  }

  /** The address a REQUEST or an INFORM asks for, if the message is well-formed. */
  function Wanted(d: Message): Option<Ip> {
    if TypeOf(d) == DHCP_INFORM then Some(d[CIADDR..YIADDR])
    else
      var r := FindFrom(OptionArea(d), 0, OPT_IPADDRESS);
      if r == -1 || OptionArea(d)[r + 1] != 4 then None else Some(OptionArea(d)[r + 2..r + 6])
  }

  function Discover(s: Server, alloc: bool): (Server, Option<Message>)
    requires Fits(s.cfg)
  {
    var k := ByMac(s.entries, ClientMac(s.data));
    var v := if k < |s.entries| then k else ByMac(s.entries, NO_MAC);
    if v == |s.entries| then (s, None)
    else
      var reply := Answer(s.data, s.cfg, s.entries[v], s.entries[v].addr, DHCP_OFFER);
      (s.(data := reply), if alloc then Some(reply) else None)
  }

  /** REQUEST and INFORM: free, look up, and lease if the address is vacant. A failed
      allocation loses the freed lease. */
  function Lease(s: Server, want: Ip, alloc: bool): (Server, Option<Message>)
    requires Fits(s.cfg)
  {
    var d := s.data;
    var es := Freed(s.entries, ClientMac(d));
    var k := ByIp(es, want);
    if k == |es| || es[k].mac != NO_MAC then (s.(entries := es), None)
    else
      var answer := Answer(d, s.cfg, es[k], want, DHCP_ACK);
      var reply := if TypeOf(d) == DHCP_INFORM then ClearClientAddress(answer) else answer;
      if alloc then (s.(entries := Assign(es, k, ClientMac(d)), data := reply), Some(reply))
      else (s.(entries := es, data := reply), None)
  }

  predicate AsksForLease(d: Message) {
    (TypeOf(d) == DHCP_REQUEST || TypeOf(d) == DHCP_INFORM) && Wanted(d).Some?
  }

  function Receive(s: Server, m: Datagram): (Server, Option<Message>)
    requires Fits(s.cfg)
  {
    var s1 := s.(data := Merged(s.data, m.payload));
    if TypeOf(s1.data) == DHCP_DISCOVER then Discover(s1, m.alloc)
    else if AsksForLease(s1.data) then Lease(s1, Wanted(s1.data).value, m.alloc)
    else (s1, None)
  }

  function Next(s: Server, m: Datagram): (s': Server)
    requires Fits(s.cfg)
    ensures s'.cfg == s.cfg
  {
    Receive(s, m).0
  }

  function Run(s: Server, ms: seq<Datagram>): (s': Server)
    requires Fits(s.cfg)
    ensures s'.cfg == s.cfg
    decreases |ms|
  {
    if ms == [] then s else Run(Next(s, ms[0]), ms[1..])
  }

  /** What a reply promises to whom: the address and the MAC in it, by message type. */
  function Promise(s: Server, m: Datagram, msgType: byte): Option<(Ip, Mac)>
    requires Fits(s.cfg)
  {
    var reply := Receive(s, m).1;
    if reply.Some? && TypeOf(reply.value) == msgType then Some((YourAddress(reply.value), ClientMac(reply.value))) else None
  }

  function AckOf(s: Server, m: Datagram): Option<(Ip, Mac)>
    requires Fits(s.cfg)
  {
    Promise(s, m, DHCP_ACK)
  }

  function OfferOf(s: Server, m: Datagram): Option<(Ip, Mac)>
    requires Fits(s.cfg)
  {
    Promise(s, m, DHCP_OFFER)
  }

  /** The datagrams that free the entry of mac: a REQUEST that names an address, or an INFORM. */
  predicate Frees(s: Server, m: Datagram, mac: Mac) {
    var d := Merged(s.data, m.payload);
    TypeOf(d) != DHCP_DISCOVER && AsksForLease(d) && ClientMac(d) == mac
  }

  // ----- what a reply says -----

  lemma FilledAreaStartsWithType(cfg: Config, e: Entry, msgType: byte)
    requires Fits(cfg)
    ensures FilledArea(cfg, e, msgType)[2] == msgType
  {
    OptionListFits(cfg, e, msgType);
    var os := OptionList(cfg, e, msgType);
    assert os[0] == Opt(OPT_TYPE, [msgType]);
    assert EncodeAll(os)[..3] == EncodeOne(os[0]);
    assert EncodeAll(os)[2] == EncodeOne(os[0])[2];
  }

  lemma AnswerFields(d: Message, cfg: Config, e: Entry, yiaddr: Ip, msgType: byte)
    requires Fits(cfg)
    ensures var r := Answer(d, cfg, e, yiaddr, msgType);
            && YourAddress(r) == yiaddr && ClientMac(r) == ClientMac(d) && TypeOf(r) == msgType
            && OptionArea(r) == FilledArea(cfg, e, msgType)
            && YourAddress(ClearClientAddress(r)) == yiaddr && ClientMac(ClearClientAddress(r)) == ClientMac(d)
            && TypeOf(ClearClientAddress(r)) == msgType
            && OptionArea(ClearClientAddress(r)) == FilledArea(cfg, e, msgType)
  {
    FilledAreaStartsWithType(cfg, e, msgType);
    hide FilledArea;
    var r := Answer(d, cfg, e, yiaddr, msgType);
    var area := FilledArea(cfg, e, msgType);
    assert r[16..20] == yiaddr;
    assert r[20..236] == d[20..236];
    assert forall i | 20 <= i < 236 :: r[i] == r[20..236][i - 20] == d[20..236][i - 20] == d[i];
    assert r[28..34] == d[28..34];
    assert r[240..515] == area;
    assert r[242] == r[240..515][2];
    var c := ClearClientAddress(r);
    assert c[16..20] == r[16..20] && c[28..34] == r[28..34] && c[240..515] == r[240..515] && c[242] == r[242];
  }

  /** The options a client reads back from any reply are the ones of the entry on offer. */
  lemma ReplyOptions(cfg: Config, e: Entry, msgType: byte, attr: byte)
    requires Fits(cfg) && attr != PAD && attr != END
    ensures Decode(FilledArea(cfg, e, msgType), attr)
            == if attr == OPT_TYPE then Some([msgType])
               else if attr == OPT_SERVERID then Some(cfg.addr)
               else if attr == OPT_LEASE then Some(Octets32(e.lease))
               else if attr == OPT_SUBNET then Some(e.subnet)
               else if attr == OPT_ROUTER then (if cfg.addr != NO_IP then Some(cfg.addr) else None)
               else if attr == OPT_DOMAIN then cfg.domain
               else if attr == OPT_DNS then (if cfg.dns != NO_IP then Some(cfg.dns) else None)
               else None
  {
    hide Decode, Area, Octets32, OptionList, ValueOf, EncodeAll, Encodable, OptionsLength;
    OptionListFits(cfg, e, msgType);
    OptionsRoundTrip(OptionList(cfg, e, msgType), 274 - OptionsLength(cfg), attr);
    ValueOfList(cfg, e, msgType, attr);
  }

  lemma {:induction false} ValueOfConcat(a: seq<Opt>, b: seq<Opt>, attr: byte)
    ensures ValueOf(a + b, attr) == if ValueOf(a, attr).Some? then ValueOf(a, attr) else ValueOf(b, attr)
  {
    if a == [] {
      assert a + b == b;
    } else {
      ValueOfConcat(a[1..], b, attr);
      assert (a + b)[1..] == a[1..] + b;
    }
  }

  lemma ValueOfFixed(cfg: Config, e: Entry, msgType: byte, attr: byte)
    ensures ValueOf(FixedOptions(cfg, e, msgType), attr)
            == if attr == OPT_TYPE then Some([msgType])
               else if attr == OPT_SERVERID then Some(cfg.addr)
               else if attr == OPT_LEASE then Some(Octets32(e.lease))
               else if attr == OPT_SUBNET then Some(e.subnet)
               else None
  {
    var o1, o2 := Opt(OPT_TYPE, [msgType]), Opt(OPT_SERVERID, cfg.addr);
    var o3, o4 := Opt(OPT_LEASE, Octets32(e.lease)), Opt(OPT_SUBNET, e.subnet);
    hide Octets32;
    assert FixedOptions(cfg, e, msgType) == [o1] + [o2] + [o3] + [o4];
    ValueOfConcat([o1] + [o2] + [o3], [o4], attr);
    ValueOfConcat([o1] + [o2], [o3], attr);
    ValueOfConcat([o1], [o2], attr);
  }

  lemma ValueOfList(cfg: Config, e: Entry, msgType: byte, attr: byte)
    ensures ValueOf(OptionList(cfg, e, msgType), attr)
            == if attr == OPT_TYPE then Some([msgType])
               else if attr == OPT_SERVERID then Some(cfg.addr)
               else if attr == OPT_LEASE then Some(Octets32(e.lease))
               else if attr == OPT_SUBNET then Some(e.subnet)
               else if attr == OPT_ROUTER then (if cfg.addr != NO_IP then Some(cfg.addr) else None)
               else if attr == OPT_DOMAIN then cfg.domain
               else if attr == OPT_DNS then (if cfg.dns != NO_IP then Some(cfg.dns) else None)
               else None
  {
    var a, b := FixedOptions(cfg, e, msgType), Optional(cfg.addr != NO_IP, OPT_ROUTER, cfg.addr);
    var c, d := Optional(cfg.domain.Some?, OPT_DOMAIN, DomainName(cfg)), Optional(cfg.dns != NO_IP, OPT_DNS, cfg.dns);
    ValueOfFixed(cfg, e, msgType, attr);
    hide FixedOptions, Octets32;
    ValueOfConcat(a + b + c, d, attr);
    ValueOfConcat(a + b, c, attr);
    ValueOfConcat(a, b, attr);
  }

  // ----- invariants -----

  /** No two entries hold the same client. */
  ghost predicate UniqueClients(es: seq<Entry>) {
    forall i, j | 0 <= i < j < |es| :: es[i].mac == es[j].mac ==> es[i].mac == NO_MAC
  }

  ghost predicate DistinctAddresses(es: seq<Entry>) {
    forall i, j | 0 <= i < j < |es| :: es[i].addr != es[j].addr
  }

  /** The same addresses, subnets and lease times in the same slots. */
  ghost predicate SamePool(es: seq<Entry>, es': seq<Entry>) {
    |es'| == |es| && forall i | 0 <= i < |es| :: es'[i] == es[i].(mac := es'[i].mac)
  }

  lemma {:induction false} ByIpInPool(es: seq<Entry>, es': seq<Entry>, ip: Ip)
    requires SamePool(es, es')
    ensures ByIp(es', ip) == ByIp(es, ip)
  {
    if es != [] {
      ByIpInPool(es[1..], es'[1..], ip);
    }
  }

  lemma FreedFacts(es: seq<Entry>, mac: Mac)
    ensures SamePool(es, Freed(es, mac))
    ensures UniqueClients(es) ==> UniqueClients(Freed(es, mac))
    ensures UniqueClients(es) && mac != NO_MAC ==> forall i | 0 <= i < |es| :: Freed(es, mac)[i].mac != mac
    ensures forall i | 0 <= i < |es| && es[i].mac != mac :: Freed(es, mac)[i] == es[i]
  {
  }

  lemma AssignFacts(es: seq<Entry>, k: nat, mac: Mac)
    requires k < |es|
    ensures SamePool(es, Assign(es, k, mac))
    ensures UniqueClients(es) && (mac == NO_MAC || forall i | 0 <= i < |es| :: es[i].mac != mac)
            ==> UniqueClients(Assign(es, k, mac))
  {
  }

  /** Every datagram keeps one entry per client, and the pool itself never changes. */
  lemma StepKeepsTable(s: Server, m: Datagram)
    requires Fits(s.cfg)
    ensures SamePool(s.entries, Next(s, m).entries)
    ensures UniqueClients(s.entries) ==> UniqueClients(Next(s, m).entries)
  {
    var d := Merged(s.data, m.payload);
    if TypeOf(d) != DHCP_DISCOVER && AsksForLease(d) {
      var mac, want := ClientMac(d), Wanted(d).value;
      hide Merged, AsksForLease, Wanted, ClientMac, TypeOf, Answer, ClearClientAddress, ByMac, ByIp;
      FreedFacts(s.entries, mac);
      var es := Freed(s.entries, mac);
      hide Freed, Assign;
      var k := ByIp(es, want);
      if k < |es| && es[k].mac == NO_MAC {
        AssignFacts(es, k, mac);
      }
    }
  }

  lemma {:induction false} RunKeepsTable(s: Server, ms: seq<Datagram>)
    requires Fits(s.cfg)
    ensures SamePool(s.entries, Run(s, ms).entries)
    ensures UniqueClients(s.entries) ==> UniqueClients(Run(s, ms).entries)
    decreases |ms|
  {
    hide Next;
    if ms != [] {
      StepKeepsTable(s, ms[0]);
      RunKeepsTable(Next(s, ms[0]), ms[1..]);
    }
  }

  // ----- acknowledgements and offers -----

  /** The slot that a lease request for want would get, if it is vacant once the client's own
      entry has been freed. */
  function LeaseSlot(es: seq<Entry>, mac: Mac, want: Ip): Option<nat> {
    var freed := Freed(es, mac);
    var k := ByIp(freed, want);
    if k < |freed| && freed[k].mac == NO_MAC then Some(k) else None
  }

  /** Exactly when a datagram is acknowledged, and with what effect on the table. */
  lemma AckMeans(s: Server, m: Datagram)
    requires Fits(s.cfg)
    ensures var d := Merged(s.data, m.payload);
            if TypeOf(d) != DHCP_DISCOVER && AsksForLease(d) && m.alloc
               && LeaseSlot(s.entries, ClientMac(d), Wanted(d).value).Some? then
              var k := LeaseSlot(s.entries, ClientMac(d), Wanted(d).value).value;
              && k < |Freed(s.entries, ClientMac(d))|
              && AckOf(s, m) == Some((Wanted(d).value, ClientMac(d)))
              && Next(s, m).entries == Assign(Freed(s.entries, ClientMac(d)), k, ClientMac(d))
            else AckOf(s, m) == None
  {
    var d := Merged(s.data, m.payload);
    if TypeOf(d) == DHCP_DISCOVER {
      var v := ByMac(s.entries, ClientMac(d));
      var v' := if v < |s.entries| then v else ByMac(s.entries, NO_MAC);
      if v' < |s.entries| {
        AnswerFields(d, s.cfg, s.entries[v'], s.entries[v'].addr, DHCP_OFFER);
      }
    } else if AsksForLease(d) {
      var es := Freed(s.entries, ClientMac(d));
      var want := Wanted(d).value;
      var k := ByIp(es, want);
      if k < |es| {
        AnswerFields(d, s.cfg, es[k], want, DHCP_ACK);
      }
      hide Merged, Wanted, ClientMac, YourAddress, Answer, ClearClientAddress, ByMac, ByIp, Freed, Assign;
    }
  }

  /** Every acknowledgement tells the truth: the address in it is the address of the entry
      that now holds the client, although the requested address was read from an option area
      that has been overwritten since. */
  lemma AckTellsTheTruth(s: Server, m: Datagram)
    requires Fits(s.cfg) && AckOf(s, m).Some?
    ensures var (addr, mac) := AckOf(s, m).value;
            var es := Next(s, m).entries;
            var k := ByIp(es, addr);
            && k < |es| && es[k].addr == addr && es[k].mac == mac
            && OptionArea(Receive(s, m).1.value) == FilledArea(s.cfg, es[k], DHCP_ACK)
  {
    AckMeans(s, m);
    AckArea(s, m);
    var d := Merged(s.data, m.payload);
    var mac, want := ClientMac(d), Wanted(d).value;
    hide Merged, Wanted, ClientMac, Next, AckOf, FilledArea, OptionArea, AsksForLease, Receive;
    FreedFacts(s.entries, mac);
    var k := LeaseSlot(s.entries, mac, want).value;
    var es := Freed(s.entries, mac);
    AssignFacts(es, k, mac);
    ByIpInPool(es, Assign(es, k, mac), want);
  }

  lemma AckArea(s: Server, m: Datagram)
    requires Fits(s.cfg) && AckOf(s, m).Some?
    ensures var d := Merged(s.data, m.payload);
            TypeOf(d) != DHCP_DISCOVER && AsksForLease(d)
            && LeaseSlot(s.entries, ClientMac(d), Wanted(d).value).Some?
            && var k := LeaseSlot(s.entries, ClientMac(d), Wanted(d).value).value;
            && k < |Freed(s.entries, ClientMac(d))|
            && Receive(s, m).1.Some?
            && OptionArea(Receive(s, m).1.value)
               == FilledArea(s.cfg, Assign(Freed(s.entries, ClientMac(d)), k, ClientMac(d))[k], DHCP_ACK)
  {
    AckMeans(s, m);
    var d := Merged(s.data, m.payload);
    var es := Freed(s.entries, ClientMac(d));
    var want := Wanted(d).value;
    var k := ByIp(es, want);
    AnswerFields(d, s.cfg, es[k], want, DHCP_ACK);
    AreaIgnoresMac(s.cfg, es[k], ClientMac(d));
  }

  lemma AreaIgnoresMac(cfg: Config, e: Entry, mac: Mac)
    requires Fits(cfg)
    ensures FilledArea(cfg, e.(mac := mac), DHCP_ACK) == FilledArea(cfg, e, DHCP_ACK)
  {
    assert FixedOptions(cfg, e.(mac := mac), DHCP_ACK) == FixedOptions(cfg, e, DHCP_ACK);
  }

  // ----- lease exclusivity over runs -----

  /** A client keeps its entry through every datagram that does not free it. */
  lemma LeaseHeld(s: Server, m: Datagram, i: nat, mac: Mac)
    requires Fits(s.cfg) && i < |s.entries| && s.entries[i].mac == mac != NO_MAC && !Frees(s, m, mac)
    ensures i < |Next(s, m).entries| && Next(s, m).entries[i].mac == mac
  {
    var d := Merged(s.data, m.payload);
    if TypeOf(d) != DHCP_DISCOVER && AsksForLease(d) {
      FreedFacts(s.entries, ClientMac(d));
      hide Merged, Wanted, ClientMac, TypeOf, Answer, ClearClientAddress, ByMac, ByIp, Freed;
    }
  }

  lemma {:induction false} LeaseHeldOverRun(s: Server, ms: seq<Datagram>, i: nat, mac: Mac)
    requires Fits(s.cfg) && i < |s.entries| && s.entries[i].mac == mac != NO_MAC
    requires forall k | 0 <= k < |ms| :: !Frees(Run(s, ms[..k]), ms[k], mac)
    ensures i < |Run(s, ms).entries| && Run(s, ms).entries[i].mac == mac
    decreases |ms|
  {
    if ms != [] {
      hide Next, Frees;
      assert ms[..0] == [];
      LeaseHeld(s, ms[0], i, mac);
      forall k | 0 <= k < |ms| - 1 ensures !Frees(Run(Next(s, ms[0]), ms[1..][..k]), ms[1..][k], mac) {
        assert ms[..k + 1][1..] == ms[1..][..k];
        assert Run(s, ms[..k + 1]) == Run(Next(s, ms[0]), ms[..k + 1][1..]);
      }
      LeaseHeldOverRun(Next(s, ms[0]), ms[1..], i, mac);
    }
  }

  /** Lease exclusivity: if an address is acknowledged to one client and later to another,
      then a REQUEST or INFORM of the first client, which freed its entry, was processed in
      between. */
  lemma LeaseIsExclusive(s: Server, first: Datagram, between: seq<Datagram>, last: Datagram, addr: Ip, mac: Mac, other: Mac)
    requires Fits(s.cfg) && mac != NO_MAC && other != mac
    requires AckOf(s, first) == Some((addr, mac))
    requires AckOf(Run(Next(s, first), between), last) == Some((addr, other))
    ensures exists k :: 0 <= k < |between| && Frees(Run(Next(s, first), between[..k]), between[k], mac)
  {
    hide Next, Run, AckOf, Frees, ByIp;
    var s1 := Next(s, first);
    var i := ByIp(s1.entries, addr);
    AckTellsTheTruth(s, first);
    if forall k | 0 <= k < |between| :: !Frees(Run(s1, between[..k]), between[k], mac) {
      LeaseHeldOverRun(s1, between, i, mac);
      RunKeepsTable(s1, between);
      ByIpInPool(s1.entries, Run(s1, between).entries, addr);
      HeldAddressIsRefused(Run(s1, between), last, addr, mac, other);
      assert false;
    }
  }

  /** An address held by one client is not acknowledged to another. */
  lemma HeldAddressIsRefused(s: Server, m: Datagram, addr: Ip, mac: Mac, other: Mac)
    requires Fits(s.cfg) && mac != NO_MAC && other != mac
    requires ByIp(s.entries, addr) < |s.entries| && s.entries[ByIp(s.entries, addr)].mac == mac
    ensures AckOf(s, m) != Some((addr, other))
  {
    AckMeans(s, m);
    FreedFacts(s.entries, other);
    hide Next, AckOf, Merged, Wanted, ClientMac, ByIp, ByMac, Freed, AsksForLease;
    ByIpInPool(s.entries, Freed(s.entries, other), addr);
  }

  /** Some entry holds the client. */
  ghost predicate HasLease(es: seq<Entry>, mac: Mac) {
    exists i :: 0 <= i < |es| && es[i].mac == mac
  }

  /** A request frees the client's entry before it is looked at, so a client that asks has a
      lease afterwards if and only if it is acknowledged: a refused request, or one without
      memory for the reply, costs the lease it had. */
  lemma HasLeaseIffAcked(s: Server, m: Datagram, mac: Mac)
    requires Fits(s.cfg) && UniqueClients(s.entries) && mac != NO_MAC && Frees(s, m, mac)
    ensures HasLease(Next(s, m).entries, mac) <==> AckOf(s, m).Some?
  {
    AckMeans(s, m);
    if AckOf(s, m).Some? {
      AckTellsTheTruth(s, m);
      hide Next, AckOf;
    } else {
      UnackedOnlyFrees(s, m);
      FreedFacts(s.entries, mac);
      hide Next, AckOf, Freed, Merged, Wanted, ClientMac;
    }
  }

  lemma UnackedOnlyFrees(s: Server, m: Datagram)
    requires Fits(s.cfg) && AckOf(s, m) == None
    ensures var d := Merged(s.data, m.payload);
            TypeOf(d) != DHCP_DISCOVER && AsksForLease(d) ==> Next(s, m).entries == Freed(s.entries, ClientMac(d))
  {
    AckMeans(s, m);
    hide Merged, Wanted, ClientMac, TypeOf, Answer, ClearClientAddress, ByMac, ByIp, Freed, Assign, AckOf;
  }

  /** The slot that a client's request gets, read off the table before the request. */
  lemma LeaseSlotIff(es: seq<Entry>, mac: Mac, want: Ip)
    requires UniqueClients(es) && mac != NO_MAC
    ensures LeaseSlot(es, mac, want).Some? <==> IsFreeFor(es, mac, want)
  {
    FreedFacts(es, mac);
    ByIpInPool(es, Freed(es, mac), want);
    var k := ByIp(es, want);
    if k < |es| && es[k].mac == mac {
      assert ByMac(es, mac) == k;
    }
    hide ByIp, ByMac;
  }

  /** The pool has the address, and it is vacant or the client's own. */
  predicate IsFreeFor(es: seq<Entry>, mac: Mac, addr: Ip) {
    var k := ByIp(es, addr);
    k < |es| && (es[k].mac == NO_MAC || es[k].mac == mac)
  }

  /** Exactly when a client that asks for an address has a lease afterwards, in terms of the
      table before the request: the address must be in the pool, and vacant or its own, and
      there must be memory for the reply. Otherwise the client loses the lease it had. */
  lemma HasLeaseIff(s: Server, m: Datagram, mac: Mac)
    requires Fits(s.cfg) && UniqueClients(s.entries) && mac != NO_MAC && Frees(s, m, mac)
    ensures HasLease(Next(s, m).entries, mac)
            <==> m.alloc && IsFreeFor(s.entries, mac, Wanted(Merged(s.data, m.payload)).value)
  {
    HasLeaseIffAcked(s, m, mac);
    AckMeans(s, m);
    LeaseSlotIff(s.entries, mac, Wanted(Merged(s.data, m.payload)).value);
    hide Next, AckOf, Merged, Wanted, ClientMac, LeaseSlot, IsFreeFor, HasLease, Freed;
  }

  // ----- who holds what after a run -----

  function AddressOf(es: seq<Entry>, mac: Mac): Option<Ip> {
    var k := ByMac(es, mac);
    if k < |es| then Some(es[k].addr) else None
  }

  /** The address of the last acknowledgement that a client got, unless it has asked in vain
      since. */
  function LastGranted(s: Server, ms: seq<Datagram>, mac: Mac, otherwise: Option<Ip>): Option<Ip>
    requires Fits(s.cfg)
    decreases |ms|
  {
    if ms == [] then otherwise
    else
      var ack := AckOf(s, ms[0]);
      LastGranted(Next(s, ms[0]), ms[1..], mac,
                  if !Frees(s, ms[0], mac) then otherwise else if ack.Some? then Some(ack.value.0) else None)
  }

  /** A datagram of others does not give a client an entry either. */
  lemma LeaseNotGained(s: Server, m: Datagram, i: nat, mac: Mac)
    requires Fits(s.cfg) && i < |s.entries| && mac != NO_MAC && !Frees(s, m, mac)
    requires i < |Next(s, m).entries| && Next(s, m).entries[i].mac == mac
    ensures s.entries[i].mac == mac
  {
    AckMeans(s, m);
    var c := ClientMac(Merged(s.data, m.payload));
    if AckOf(s, m).Some? {
      hide Next, AckOf, Merged, Wanted, ClientMac, ByIp, Freed;
      FreedOnlyClears(s.entries, c, i);
    } else if Frees(s, m, c) {
      UnackedOnlyFrees(s, m);
      hide Next, AckOf, Merged, Wanted, ClientMac, ByIp, Freed;
      FreedOnlyClears(s.entries, c, i);
    } else {
      OnlyAskingChanges(s, m);
    }
  }

  lemma FreedOnlyClears(es: seq<Entry>, mac: Mac, i: nat)
    requires i < |es|
    ensures |Freed(es, mac)| == |es| && (Freed(es, mac)[i].mac == es[i].mac || Freed(es, mac)[i].mac == NO_MAC)
  {
  }

  lemma OnlyAskingChanges(s: Server, m: Datagram)
    requires Fits(s.cfg) && !Frees(s, m, ClientMac(Merged(s.data, m.payload)))
    ensures Next(s, m).entries == s.entries
  {
    hide Merged, ClientMac, ByMac, Answer;
  }

  lemma AddressAt(es: seq<Entry>, mac: Mac, k: nat)
    requires UniqueClients(es) && mac != NO_MAC && k < |es| && es[k].mac == mac
    ensures AddressOf(es, mac) == Some(es[k].addr)
  {
    assert ByMac(es, mac) == k;
  }

  lemma AddressAfterStep(s: Server, m: Datagram, mac: Mac)
    requires Fits(s.cfg) && UniqueClients(s.entries) && mac != NO_MAC
    ensures AddressOf(Next(s, m).entries, mac)
            == if !Frees(s, m, mac) then AddressOf(s.entries, mac)
               else if AckOf(s, m).Some? then Some(AckOf(s, m).value.0)
               else None
  {
    StepKeepsTable(s, m);
    var es, es' := s.entries, Next(s, m).entries;
    if Frees(s, m, mac) {
      HasLeaseIffAcked(s, m, mac);
      AckMeans(s, m);
      if AckOf(s, m).Some? {
        AckTellsTheTruth(s, m);
        hide Next, AckOf;
        AddressAt(es', mac, ByIp(es', AckOf(s, m).value.0));
      }
    } else {
      var k, k' := ByMac(es, mac), ByMac(es', mac);
      if k < |es| {
        LeaseHeld(s, m, k, mac);
        hide Next;
        AddressAt(es', mac, k);
      } else if k' < |es'| {
        LeaseNotGained(s, m, k', mac);
      }
    }
  }

  /** The table as a map: after any run a client holds the address of the last acknowledgement
      that it got, and none if it has asked in vain since. From a fresh pool the run starts
      without leases. */
  lemma {:induction false} HolderIsLastGranted(s: Server, ms: seq<Datagram>, mac: Mac)
    requires Fits(s.cfg) && UniqueClients(s.entries) && mac != NO_MAC
    ensures AddressOf(Run(s, ms).entries, mac) == LastGranted(s, ms, mac, AddressOf(s.entries, mac))
    decreases |ms|
  {
    hide Next, AckOf, Frees, AddressOf;
    if ms != [] {
      AddressAfterStep(s, ms[0], mac);
      StepKeepsTable(s, ms[0]);
      HolderIsLastGranted(Next(s, ms[0]), ms[1..], mac);
    }
  }

  lemma FreshHasNoLeases(pool: Server, mac: Mac)
    requires Fresh(pool) && mac != NO_MAC
    ensures AddressOf(pool.entries, mac) == None && UniqueClients(pool.entries)
  {
  }

  // ----- offer, then request -----

  /** Exactly what a DISCOVER is offered. */
  lemma OfferMeans(s: Server, m: Datagram)
    requires Fits(s.cfg) && OfferOf(s, m).Some?
    ensures var d := Merged(s.data, m.payload);
            var k := ByMac(s.entries, ClientMac(d));
            var v := if k < |s.entries| then k else ByMac(s.entries, NO_MAC);
            && v < |s.entries|
            && OfferOf(s, m) == Some((s.entries[v].addr, ClientMac(d)))
            && Next(s, m).entries == s.entries
  {
    var d := Merged(s.data, m.payload);
    if TypeOf(d) == DHCP_DISCOVER {
      var k := ByMac(s.entries, ClientMac(d));
      var v := if k < |s.entries| then k else ByMac(s.entries, NO_MAC);
      if v < |s.entries| {
        AnswerFields(d, s.cfg, s.entries[v], s.entries[v].addr, DHCP_OFFER);
      }
    } else if AsksForLease(d) {
      var es := Freed(s.entries, ClientMac(d));
      var want := Wanted(d).value;
      var k := ByIp(es, want);
      if k < |es| {
        AnswerFields(d, s.cfg, es[k], want, DHCP_ACK);
      }
    }
  }

  /** Is this, for server s, a lease request of client mac for addr? */
  predicate Requests(s: Server, m: Datagram, addr: Ip, mac: Mac) {
    var d := Merged(s.data, m.payload);
    TypeOf(d) != DHCP_DISCOVER && AsksForLease(d) && Wanted(d) == Some(addr) && ClientMac(d) == mac
  }

  /** A server that has just been set up: every address once, all of them vacant. */
  ghost predicate Fresh(s: Server) {
    Fits(s.cfg) && DistinctAddresses(s.entries) && forall i | 0 <= i < |s.entries| :: s.entries[i].mac == NO_MAC
  }

  lemma ReachableTable(pool: Server, history: seq<Datagram>)
    requires Fresh(pool)
    ensures DistinctAddresses(Run(pool, history).entries) && UniqueClients(Run(pool, history).entries)
  {
    hide Run;
    RunKeepsTable(pool, history);
  }

  /** An offer is kept: after any history, whatever the client was offered, its request for it
      is acknowledged if it comes next and the reply buffer is available. */
  lemma OfferThenRequest(pool: Server, history: seq<Datagram>, discover: Datagram, request: Datagram)
    requires Fresh(pool)
    requires var s := Run(pool, history);
             && OfferOf(s, discover).Some?
             && var (addr, mac) := OfferOf(s, discover).value;
             && Requests(Next(s, discover), request, addr, mac) && request.alloc
    ensures var s := Run(pool, history);
            AckOf(Next(s, discover), request) == OfferOf(s, discover)
  {
    hide Run;
    ReachableTable(pool, history);
    OfferIsKept(Run(pool, history), discover, request);
  }

  lemma OfferIsKept(s: Server, discover: Datagram, request: Datagram)
    requires Fits(s.cfg) && DistinctAddresses(s.entries)
    requires OfferOf(s, discover).Some?
    requires Requests(Next(s, discover), request, OfferOf(s, discover).value.0, OfferOf(s, discover).value.1) && request.alloc
    ensures AckOf(Next(s, discover), request) == OfferOf(s, discover)
  {
    hide Next, OfferOf, AckOf, Merged, Wanted, ClientMac, AsksForLease, ByMac, ByIp;
    OfferMeans(s, discover);
    AckMeans(Next(s, discover), request);
    var (addr, mac) := OfferOf(s, discover).value;
    var es := s.entries;
    FreedFacts(es, mac);
    ByIpInPool(es, Freed(es, mac), addr);
  }

  /** Repeating an acknowledged request, after any history, leaves the table unchanged and is
      acknowledged again; if its reply buffer cannot be allocated, though, the client loses
      its lease. */
  lemma RepeatedRequest(pool: Server, history: seq<Datagram>, request: Datagram, again: Datagram)
    requires Fresh(pool)
    requires var s := Run(pool, history);
             && AckOf(s, request).Some?
             && Requests(Next(s, request), again, AckOf(s, request).value.0, AckOf(s, request).value.1)
    ensures var s := Run(pool, history);
            var s1 := Next(s, request);
            if again.alloc then AckOf(s1, again) == AckOf(s, request) && Next(s1, again).entries == s1.entries
            else AckOf(s1, again) == None && Next(s1, again).entries == Freed(s1.entries, AckOf(s, request).value.1)
  {
    hide Run;
    ReachableTable(pool, history);
    RepetitionIsHarmless(Run(pool, history), request, again);
  }

  lemma RepetitionIsHarmless(s: Server, request: Datagram, again: Datagram)
    requires Fits(s.cfg) && UniqueClients(s.entries) && AckOf(s, request).Some?
    requires Requests(Next(s, request), again, AckOf(s, request).value.0, AckOf(s, request).value.1)
    ensures var s1 := Next(s, request);
            if again.alloc then AckOf(s1, again) == AckOf(s, request) && Next(s1, again).entries == s1.entries
            else AckOf(s1, again) == None && Next(s1, again).entries == Freed(s1.entries, AckOf(s, request).value.1)
  {
    AckTellsTheTruth(s, request);
    StepKeepsTable(s, request);
    var s1 := Next(s, request);
    AckMeans(s1, again);
    var (addr, mac) := AckOf(s, request).value;
    var k := ByIp(s1.entries, addr);
    FreedThenAssigned(s1.entries, mac, k);
    ByIpInPool(s1.entries, Freed(s1.entries, mac), addr);
    if !again.alloc {
      UnackedEffect(s1, again);
    }
    hide Next, AckOf, Merged, Wanted, ClientMac, AsksForLease, ByIp, ByMac, Freed;
  }

  lemma UnackedEffect(s: Server, m: Datagram)
    requires Fits(s.cfg) && !m.alloc
    ensures var d := Merged(s.data, m.payload);
            TypeOf(d) != DHCP_DISCOVER && AsksForLease(d) ==> Next(s, m).entries == Freed(s.entries, ClientMac(d))
  {
  }

  /** Freeing a client's only entry and giving it back is no change. */
  lemma FreedThenAssigned(es: seq<Entry>, mac: Mac, k: nat)
    requires UniqueClients(es) && k < |es| && es[k].mac == mac
    ensures SamePool(es, Freed(es, mac)) && Freed(es, mac)[k].mac == NO_MAC && Assign(Freed(es, mac), k, mac) == es
  {
    FreedFacts(es, mac);
    if mac != NO_MAC {
      assert ByMac(es, mac) == k;
    }
  }
}
