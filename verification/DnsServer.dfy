/** The DNS server: the question parser working in place, and the answer to a query for one of
    its own names. */
module DnsServer {
  import opened Bytes
  import opened DnsQuestion

  const HEADER := 12
  const NAME_POINTER: word := 0xC00C
  const TTL: byte := 32

  // ----- answers -----

  /** A name compared the way C strings are: up to the first zero octet. */
  function CString(name: seq<byte>): seq<byte> {
    if name == [] || name[0] == 0 then [] else [name[0]] + CString(name[1..])
  }

  /** A query with exactly one question. */
  predicate IsQuery(p: seq<byte>) {
    |p| > HEADER && p[2] < 0x80 && Word(p[4], p[5]) == 1
  }

  /** The answer record: a pointer to the question's name, an address record, class Internet. */
  function AnswerRecord(addr: Ip): (s: seq<byte>)
    ensures |s| == 16
  {
    Encode16(NAME_POINTER) + [0, 1] + [0, 1] + [0, 0, 0, TTL] + [0, 4] + addr
  }

  /** Header and question of the query, turned into a response with one answer. */
  function Reply(p: seq<byte>, end: nat, addr: Ip): (s: seq<byte>)
    requires HEADER <= end <= |p| && p[2] < 0x80
    ensures |s| == end + 16
  {
    p[..2] + [p[2] + 0x80, p[3]] + p[4..6] + [0, 1] + p[8..end] + AnswerRecord(addr)
  }

  /** The reply to a datagram, if there is one. */
  function Respond(p: seq<byte>, hosts: set<seq<byte>>, addr: Ip, max: nat): Option<seq<byte>> {
    if !IsQuery(p) then None
    else
      var q := ParseQuestion(p[HEADER..], max);
      if q.Parsed? && CString(q.name) in hosts then
        ParsedInside(p[HEADER..], max);
        Some(Reply(p, HEADER + q.consumed, addr))
      else None
  }

  lemma ParsedInside(data: seq<byte>, max: nat)
    requires ParseQuestion(data, max).Parsed?
    ensures ParseQuestion(data, max).consumed <= |data|
  {
    ParseIgnoresRest(data, [], 0, [], false, max);
  }

  /** A reply repeats the question it answers, counts one answer, names the question by its
      offset, and carries the server's address in its last four octets. */
  lemma ReplyAnswersItsQuestion(p: seq<byte>, hosts: set<seq<byte>>, addr: Ip, max: nat)
    requires Respond(p, hosts, addr, max).Some?
    ensures var r := Respond(p, hosts, addr, max).value;
            var q := ParseQuestion(p[HEADER..], max);
            && |r| == HEADER + q.consumed + 16
            && r[..2] == p[..2] && Word(r[4], r[5]) == 1 && Word(r[6], r[7]) == 1
            && ParseQuestion(r[HEADER..], max) == q
            && Word(r[HEADER + q.consumed], r[HEADER + q.consumed + 1]) == 0xC000 + HEADER
            && r[|r| - 4..] == addr
  {
    var data := p[HEADER..];
    var q := ParseQuestion(data, max);
    ParsedInside(data, max);
    var a := AnswerRecord(addr);
    ParseIgnoresRest(data, a, 0, [], false, max);
    hide ParseFrom, CString, AnswerRecord;
    ReplyParts(p, HEADER + q.consumed, addr);
    var r := Reply(p, HEADER + q.consumed, addr);
    assert p[HEADER..HEADER + q.consumed] == data[..q.consumed];
    AnswerFields(addr);
    hide Reply;
    assert r[HEADER + q.consumed] == r[HEADER + q.consumed..][0] && r[HEADER + q.consumed + 1] == r[HEADER + q.consumed..][1];
    assert r[|r| - 4..] == r[HEADER + q.consumed..][12..];
  }

  /** Every octet of a reply: the query's header and question with the response bit set and one
      answer counted, and behind them an answer that points to offset 12, of type 1 and class 1,
      with 32 seconds to live and the four octets of the server's address. */
  lemma ReplyOctets(p: seq<byte>, hosts: set<seq<byte>>, addr: Ip, max: nat)
    requires Respond(p, hosts, addr, max).Some?
    ensures var r := Respond(p, hosts, addr, max).value;
            var e := |r| - 16;
            && 12 <= e <= |p| && e == 12 + ParseQuestion(p[12..], max).consumed && p[2] < 0x80
            && r == p[..2] + [p[2] + 0x80, p[3], 0, 1, 0, 1] + p[8..e]
                    + [0xC0, 0x0C, 0, 1, 0, 1, 0, 0, 0, 32, 0, 4] + addr
  {
    ParsedInside(p[HEADER..], max);
    var e := HEADER + ParseQuestion(p[HEADER..], max).consumed;
    hide ParseFrom, CString;
    AnswerOctets(addr);
    assert p[4..6] == [p[4], p[5]] == [0, 1];
    hide AnswerRecord;
    assert Reply(p, e, addr) == p[..2] + [p[2] + 0x80, p[3]] + [0, 1] + [0, 1] + p[8..e] + AnswerRecord(addr);
  }

  lemma AnswerOctets(addr: Ip)
    ensures AnswerRecord(addr) == [0xC0, 0x0C, 0, 1, 0, 1, 0, 0, 0, 32, 0, 4] + addr
  {
    assert Encode16(NAME_POINTER) == [0xC0, 0x0C];
  }

  /** Exactly which datagrams are answered: queries, not replies, with one question that is well
      formed and whose name fits and is one of the server's. */
  lemma AnsweredIff(p: seq<byte>, hosts: set<seq<byte>>, addr: Ip, max: nat)
    requires max > 0
    ensures Respond(p, hosts, addr, max).Some?
            <==> |p| > 12 && p[2] < 0x80 && p[4] == 0 && p[5] == 1
                 && exists ls :: IsQuestion(p[12..], 0, ls) && |Join(ls)| < max && CString(Join(ls)) in hosts
  {
    if IsQuery(p) {
      var data := p[HEADER..];
      hide ParseFrom, CString, Join, IsQuestion, IsQuery;
      if ParseQuestion(data, max).Parsed? {
        var ls := SuccessIsEncoding(data, 0, [], false, max);
        JoinFromStart(ls);
      }
      if ls :| IsQuestion(data, 0, ls) && |Join(ls)| < max && CString(Join(ls)) in hosts {
        ParseOfQuestion(data, ls, max);
      }
    }
  }

  /** A plain query of type A for one of the server's names, and the whole reply to it. */
  lemma PlainQueryIsAnswered(ls: seq<Label>, id: seq<byte>, hosts: set<seq<byte>>, addr: Ip, max: nat)
    requires AreLabels(ls) && |id| == 2 && |Join(ls)| < max && CString(Join(ls)) in hosts
    ensures Respond(id + [1, 0, 0, 1, 0, 0, 0, 0, 0, 0] + (Encode(ls) + [0, 0, 1, 0, 1]), hosts, addr, max)
            == Some(id + [0x81, 0, 0, 1, 0, 1, 0, 0, 0, 0] + (Encode(ls) + [0, 0, 1, 0, 1])
                    + [0xC0, 0x0C, 0, 1, 0, 1, 0, 0, 0, 32, 0, 4] + addr)
  {
    hide Encode, Join, CString, ParseFrom, AnswerRecord;
    var question := Encode(ls) + [0, 0, 1, 0, 1];
    var p := id + [1, 0, 0, 1, 0, 0, 0, 0, 0, 0] + question;
    ParseInvertsEncode(ls, [0, 1], [0, 1], [], max);
    assert Encode(ls) + [0] + [0, 1] + [0, 1] + [] == question;
    PlainQuery(id, question);
    assert IsQuery(p);
    ReplyOctets(p, hosts, addr, max);
    hide Respond, ParseQuestion, IsQuery;
    PlainReply(id, question, addr);
  }

  lemma PlainQuery(id: seq<byte>, question: seq<byte>)
    requires |id| == 2 && |question| > 0
    ensures var p := id + [1, 0, 0, 1, 0, 0, 0, 0, 0, 0] + question;
            && p[..2] == id && p[2] == 1 && p[3] == 0 && p[4] == 0 && p[5] == 1
            && p[8..|p|] == [0, 0, 0, 0] + question && p[12..] == question
  {
  }

  lemma PlainReply(id: seq<byte>, question: seq<byte>, addr: Ip)
    ensures id + [0x81, 0, 0, 1, 0, 1] + ([0, 0, 0, 0] + question) + [0xC0, 0x0C, 0, 1, 0, 1, 0, 0, 0, 32, 0, 4] + addr
            == id + [0x81, 0, 0, 1, 0, 1, 0, 0, 0, 0] + question + [0xC0, 0x0C, 0, 1, 0, 1, 0, 0, 0, 32, 0, 4] + addr
  {
    assert [0x81, 0, 0, 1, 0, 1] + [0, 0, 0, 0] == [0x81, 0, 0, 1, 0, 1, 0, 0, 0, 0];
    assert id + [0x81, 0, 0, 1, 0, 1] + ([0, 0, 0, 0] + question) == id + ([0x81, 0, 0, 1, 0, 1] + [0, 0, 0, 0]) + question;
  }

  /** The C string of a buffer: the octets up to the first zero. */
  lemma {:induction false} CStringIsUpToZero(s: seq<byte>)
    ensures CString(s) <= s && 0 !in CString(s)
    ensures |CString(s)| < |s| ==> s[|CString(s)|] == 0
  {
    if s != [] && s[0] != 0 {
      CStringIsUpToZero(s[1..]);
      assert s == [s[0]] + s[1..];
    }
  }

  /** A message header announces so many questions, answers, authority and additional records. */
  function Counts(m: seq<byte>): (word, word, word, word)
    requires |m| >= HEADER
  {
    (Word(m[4], m[5]), Word(m[6], m[7]), Word(m[8], m[9]), Word(m[10], m[11]))
  }

  /** A reply is its header, the question and one answer record. The header announces just that
      if and only if the query announced no authority and no additional records. */
  lemma CountsAreRightIff(p: seq<byte>, hosts: set<seq<byte>>, addr: Ip, max: nat)
    requires Respond(p, hosts, addr, max).Some?
    ensures var r := Respond(p, hosts, addr, max).value;
            && HEADER + ParseQuestion(p[HEADER..], max).consumed <= |p|
            && r[HEADER..] == p[HEADER..HEADER + ParseQuestion(p[HEADER..], max).consumed] + AnswerRecord(addr)
            && (Counts(r) == (1, 1, 0, 0) <==> p[8..12] == [0, 0, 0, 0])
  {
    ParsedInside(p[HEADER..], max);
    var end := HEADER + ParseQuestion(p[HEADER..], max).consumed;
    hide ParseFrom, CString, AnswerRecord;
    ReplyParts(p, end, addr);
    var r := Reply(p, end, addr);
    assert p[8..12] == [p[8], p[9], p[10], p[11]];
    hide Reply;
  }

  /** An input for which they are wrong: a query that carries an EDNS record (RFC 6891) gets a
      reply that announces an additional record and has none. */
  lemma EdnsReplyLacksRecord(ls: seq<Label>, addr: Ip, max: nat)
    requires AreLabels(ls) && |Join(ls)| < max
    ensures var p := EdnsQuery(ls);
            var reply := Respond(p, {CString(Join(ls))}, addr, max);
            && reply.Some?
            && Counts(reply.value) == (1, 1, 0, 1)
            && reply.value[HEADER..] == Encode(ls) + [0] + [0, 1] + [0, 1] + AnswerRecord(addr)
  {
    hide Encode, Join, ParseFrom, CString;
    var p := EdnsQuery(ls);
    var opt := [0, 0, 41, 16, 0, 0, 0, 0, 0, 0, 0];
    ParseInvertsEncode(ls, [0, 1], [0, 1], opt, max);
    var question := Encode(ls) + [0] + [0, 1] + [0, 1];
    assert p[HEADER..] == question + opt;
    hide EdnsQuery;
    var hosts := {CString(Join(ls))};
    EdnsHeader(ls);
    CountsAreRightIff(p, hosts, addr, max);
    var end := HEADER + |question|;
    assert p[HEADER..end] == p[HEADER..][..|question|] == question;
    hide AnswerRecord;
    ReplyParts(p, end, addr);
    assert Respond(p, hosts, addr, max).value == Reply(p, end, addr);
  }

  /** One question, one additional record: the empty options record of EDNS. */
  function EdnsQuery(ls: seq<Label>): seq<byte>
    requires forall i | 0 <= i < |ls| :: |ls[i]| < 0x100
  {
    [0, 0, 1, 0, 0, 1, 0, 0, 0, 0, 0, 1]
    + (Encode(ls) + [0] + [0, 1] + [0, 1] + [0, 0, 41, 16, 0, 0, 0, 0, 0, 0, 0])
  }

  lemma EdnsHeader(ls: seq<Label>)
    requires forall i | 0 <= i < |ls| :: |ls[i]| < 0x100
    ensures var p := EdnsQuery(ls);
            IsQuery(p) && p[4] == 0 && p[5] == 1 && p[8] == 0 && p[9] == 0 && p[10] == 0 && p[11] == 1
  {
    hide Encode;
  }

  lemma ReplyParts(p: seq<byte>, end: nat, addr: Ip)
    requires HEADER <= end <= |p| && p[2] < 0x80
    ensures var r := Reply(p, end, addr);
            && r[..2] == p[..2] && r[4] == p[4] && r[5] == p[5] && r[6] == 0 && r[7] == 1
            && r[8] == p[8] && r[9] == p[9] && r[10] == p[10] && r[11] == p[11]
            && r[HEADER..] == p[HEADER..end] + AnswerRecord(addr)
            && r[end..] == AnswerRecord(addr)
  {
    hide AnswerRecord;
    assert p[4..6] == [p[4], p[5]];
    var rest := p[8..end];
    assert rest[0] == p[8] && rest[1] == p[9] && rest[2] == p[10] && rest[3] == p[11];
  }

  lemma AnswerFields(addr: Ip)
    ensures var a := AnswerRecord(addr);
            Word(a[0], a[1]) == NAME_POINTER && a[12..] == addr
  {
  }

  /** No reply is ever answered, so two servers cannot keep each other busy. */
  lemma RepliesAreNotAnswered(p: seq<byte>, hosts: set<seq<byte>>, addr: Ip, max: nat,
                              hosts': set<seq<byte>>, addr': Ip, max': nat)
    requires Respond(p, hosts, addr, max).Some?
    ensures Respond(Respond(p, hosts, addr, max).value, hosts', addr', max') == None
  {
    ParsedInside(p[HEADER..], max);
    assert Respond(p, hosts, addr, max).value[2] == p[2] + 0x80;
  }

  // ----- in place -----

  class DnsQuery {
    var name: array<byte>
    var qtype: seq<byte>
    var qclass: seq<byte>

    constructor (max: nat)
      ensures fresh(name) && name.Length == max
    {
      name := new byte[max](_ => 0);
      qtype, qclass := [0, 0], [0, 0];
    }
  }

  /** The pointer-advancing loop over the first size octets of data. Every read lies inside
      them, every write inside the name buffer, and the buffer is never full when a dot is
      due. */
  method ParseNextQuery(data: seq<byte>, size: int, query: DnsQuery) returns (r: int)
    requires size <= |data| && query.name.Length > 0
    modifies query`qtype, query`qclass, query.name
    ensures var input := if size > 0 then data[..size] else [];
            match ParseQuestion(input, query.name.Length)
            case TooShort => r == -1
            case TooLong => r == -2
            case Parsed(name, qtype, qclass, consumed) =>
              && r == consumed
              && |name| < query.name.Length && query.name[..|name|] == name && query.name[|name|] == 0
              && query.qtype == qtype && query.qclass == qclass
  {
    hide ParseFrom, Longer, Splice;
    var max := query.name.Length;
    ghost var input := if size > 0 then data[..size] else [];
    var len, labels, ptr, left := 0, 0, 0, size;
    while true
      invariant 0 <= len < max && 0 <= ptr <= |input| && labels >= 0
      invariant left == size - ptr && (size <= 0 ==> ptr == 0)
      invariant ParseQuestion(input, max) == ParseFrom(input, ptr, query.name[..len], labels > 0, max)
      decreases |input| - ptr
      modifies query.name
    {
      ghost var name := query.name[..len];
      if left <= 0 {
        ParseAtEnd(input, name, labels > 0, max);
        return -1;
      }
      var labelLen := data[ptr];
      if labelLen == 0 {
        ParseAtZero(input, ptr, name, labels > 0, max);
        ptr := ptr + 1;
        left := left - 1;
        break;
      }
      ParseStep(input, ptr, name, labels > 0, max);
      ptr := ptr + 1;
      left := left - 1;
      if labels > 0 {
        if len == max {
          assert false;
        }
        len := PutDot(query.name, len);
      }
      if labelLen as int > left {
        return -1;
      }
      var label_ := data[ptr..ptr + labelLen];
      SliceOfPrefix(data, size, ptr, ptr + labelLen);
      LongerLength(name, labels > 0, label_);
      if len + labelLen >= max {
        return -2;
      }
      ghost var dotted := query.name[..len];
      CopyLabel(query.name, len, label_);
      LongerBySteps(name, labels > 0, dotted, label_);
      len := len + labelLen;
      ptr := ptr + labelLen;
      left := left - labelLen;
      labels := labels + 1;
    }
    if left < 4 {
      return -1;
    }
    SliceOfPrefix(data, size, ptr, ptr + 2);
    SliceOfPrefix(data, size, ptr + 2, ptr + 4);
    query.name[len] := 0;
    query.qtype := data[ptr..ptr + 2];
    query.qclass := data[ptr + 2..ptr + 4];
    r := ptr + 4;
  }

  lemma SliceOfPrefix(s: seq<byte>, n: nat, a: nat, b: nat)
    requires a <= b <= n <= |s|
    ensures s[..n][a..b] == s[a..b]
  {
  }

  method CopyLabel(name: array<byte>, len: nat, l: Label)
    requires len + |l| <= name.Length
    modifies name
    ensures name[..len + |l|] == old(name[..len]) + l
  {
    Memcpy(name, len, l);
  }

  method PutDot(name: array<byte>, len: nat) returns (next: nat)
    requires len < name.Length
    modifies name
    ensures next == len + 1 && name[..next] == old(name[..len]) + [DOT]
  {
    name[len] := DOT;
    next := len + 1;
  }

  lemma LongerLength(name: seq<byte>, started: bool, l: Label)
    ensures |Longer(name, started, l)| == |name| + (if started then 1 else 0) + |l|
  {
  }

  lemma LongerBySteps(name: seq<byte>, started: bool, dotted: seq<byte>, l: Label)
    requires dotted == if started then name + [DOT] else name
    ensures dotted + l == Longer(name, started, l)
  {
  }

  lemma ParseAtEnd(data: seq<byte>, name: seq<byte>, started: bool, max: nat)
    ensures ParseFrom(data, |data|, name, started, max) == TooShort
  {
  }

  lemma ParseAtZero(data: seq<byte>, p: nat, name: seq<byte>, started: bool, max: nat)
    requires p < |data| && data[p] == 0
    ensures var q := p + 1;
            ParseFrom(data, p, name, started, max)
            == if |data| - q < 4 then TooShort else Parsed(name, data[q..q + 2], data[q + 2..q + 4], q + 4)
  {
  }

  /** The receive procedure: reply to a well-formed query for a known name, drop the rest. */
  method UdpRecvProc(packet: seq<byte>, query: DnsQuery, hosts: set<seq<byte>>, addr: Ip, alloc: bool)
    returns (reply: Option<seq<byte>>)
    requires query.name.Length > 0
    modifies query`qtype, query`qclass, query.name
    ensures reply == if alloc then Respond(packet, hosts, addr, query.name.Length) else None
  {
    hide ParseFrom, CString, AnswerRecord;
    if |packet| <= HEADER || packet[2] >= 0x80 || Word(packet[4], packet[5]) != 1 {
      return None;
    }
    var question := packet[HEADER..];
    var len := ParseNextQuery(question, |question|, query);
    assert question[..|question|] == question;
    if len < 0 {
      return None;
    }
    ghost var q := ParseQuestion(question, query.name.Length);
    ParsedInside(question, query.name.Length);
    var host := ReadCString(query.name);
    CStringOfPrefix(query.name[..], q.name);
    if host !in hosts || !alloc {
      return None;
    }
    var response := AssembleReply(packet, len + HEADER, addr);
    reply := Some(response);
  }

  /** Copies header and question, sets the response bit and the answer count, and appends the
      answer record. */
  method AssembleReply(packet: seq<byte>, end: nat, addr: Ip) returns (reply: seq<byte>)
    requires HEADER <= end <= |packet| && packet[2] < 0x80
    ensures reply == Reply(packet, end, addr)
  {
    hide AnswerRecord;
    var out := new byte[end + 16];
    Memcpy(out, 0, packet[..end]);
    assert forall i | 0 <= i < end :: out[i] == out[..end][i] == packet[i];
    out[2] := packet[2] + 0x80;
    out[6], out[7] := 0, 1;
    assert out[..end] == packet[..2] + [packet[2] + 0x80, packet[3]] + packet[4..6] + [0, 1] + packet[8..end];
    Memcpy(out, end, AnswerRecord(addr));
    assert out[..end + 16] == out[..];
    reply := out[..];
  }

  lemma {:induction false} CStringOfPrefix(buffer: seq<byte>, name: seq<byte>)
    requires |name| < |buffer| && buffer[..|name|] == name && buffer[|name|] == 0
    ensures CString(buffer) == CString(name)
  {
    if name != [] && name[0] != 0 {
      assert buffer[0] == buffer[..|name|][0];
      assert buffer[1..][..|name| - 1] == buffer[..|name|][1..];
      CStringOfPrefix(buffer[1..], name[1..]);
    }
  }

  lemma CStringStep(b: seq<byte>, i: nat)
    requires i <= |b|
    ensures CString(b[i..]) == if i == |b| || b[i] == 0 then [] else [b[i]] + CString(b[i + 1..])
  {
    if i < |b| {
      assert b[i..][0] == b[i] && b[i..][1..] == b[i + 1..];
    }
  }

  method ReadCString(buffer: array<byte>) returns (s: seq<byte>)
    ensures s == CString(buffer[..])
  {
    hide CString;
    ghost var b := buffer[..];
    s := [];
    var i := 0;
    assert b[0..] == b && [] + CString(b) == CString(b);
    while i < buffer.Length && buffer[i] != 0
      invariant 0 <= i <= |b| && CString(b) == s + CString(b[i..])
    {
      CStringStep(b, i);
      assert s + ([b[i]] + CString(b[i + 1..])) == s + [b[i]] + CString(b[i + 1..]);
      s := s + [buffer[i]];
      i := i + 1;
    }
    CStringStep(b, i);
  }
}
