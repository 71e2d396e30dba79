/** The question of a DNS query (sections 3.1 and 4.1.2 of RFC 1035): its encoding as
    length-prefixed labels, and the parser that turns it into a dotted name. */
module DnsQuestion {
  import opened Bytes

  const DOT: byte := 46

  type Label = seq<byte>

  ghost predicate AreLabels(ls: seq<Label>) {
    forall i | 0 <= i < |ls| :: 0 < |ls[i]| < 0x100
  }

  /** Labels, each behind its length octet; the terminating zero is not included. */
  function Encode(ls: seq<Label>): seq<byte>
    requires forall i | 0 <= i < |ls| :: |ls[i]| < 0x100
  {
    if ls == [] then [] else [|ls[0]|] + ls[0] + Encode(ls[1..])
  }

  /** The dotted join. */
  function Join(ls: seq<Label>): seq<byte> {
    if ls == [] then []
    else if |ls| == 1 then ls[0]
    else ls[0] + [DOT] + Join(ls[1..])
  }

  /** The name in the buffer after one more label. */
  function Longer(name: seq<byte>, started: bool, l: Label): (r: seq<byte>)
    ensures |r| >= |name| + |l|
  {
    (if started then name + [DOT] else name) + l
  }

  /** The same join, continued from a name that already stands in the buffer. */
  function Continue(name: seq<byte>, started: bool, ls: seq<Label>): (r: seq<byte>)
    ensures |name| <= |r|
    decreases |ls|
  {
    if ls == [] then name else Continue(Longer(name, started, ls[0]), true, ls[1..])
  }

  datatype Parse = Parsed(name: seq<byte>, qtype: seq<byte>, qclass: seq<byte>, consumed: nat) | TooShort | TooLong

  /** The label loop from cursor p on; max is the size of the name buffer. */
  function ParseFrom(data: seq<byte>, p: nat, name: seq<byte>, started: bool, max: nat): Parse
    requires p <= |data|
    decreases |data| - p
  {
    if p == |data| then TooShort
    else
      var n, q := data[p], p + 1;
      if n == 0 then
        if |data| - q < 4 then TooShort else Parsed(name, data[q..q + 2], data[q + 2..q + 4], q + 4)
      else
        var dotted := if started then name + [DOT] else name;
        if n > |data| - q then TooShort
        else if |dotted| + n >= max then TooLong
        else ParseFrom(data, q + n, dotted + data[q..q + n], true, max)
  }

  function ParseQuestion(data: seq<byte>, max: nat): Parse {
    ParseFrom(data, 0, [], false, max)
  }

  /** One more label, by octets: its length, then its octets. */
  lemma {:induction false} EncodeLast(ls: seq<Label>, l: Label)
    requires AreLabels(ls) && 0 < |l| < 0x100
    ensures AreLabels(ls + [l]) && Encode(ls + [l]) == Encode(ls) + ([|l|] + l)
  {
    if ls == [] {
      assert ls + [l] == [l] + [];
      EncodeCons(l, []);
    } else {
      var x, rest := ls[0], ls[1..];
      assert ls == [x] + rest;
      EncodeCons(x, rest);
      EncodeLast(rest, l);
      assert ls + [l] == [x] + (rest + [l]);
      EncodeCons(x, rest + [l]);
      hide Encode;
      assert [|x|] + x + (Encode(rest) + ([|l|] + l)) == [|x|] + x + Encode(rest) + ([|l|] + l);
    }
  }

  /** In the name a dot, which is 46, stands before every label but the first. */
  lemma {:induction false} JoinLast(ls: seq<Label>, l: Label)
    ensures Join(ls + [l]) == if ls == [] then l else Join(ls) + [46] + l
  {
    if ls == [] {
      assert ls + [l] == [l];
    } else {
      var x, rest := ls[0], ls[1..];
      assert ls == [x] + rest && ls + [l] == [x] + (rest + [l]);
      JoinLast(rest, l);
      JoinCons(x, rest);
      JoinCons(x, rest + [l]);
      hide Join;
      assert x + [DOT] + (Join(rest) + [46] + l) == x + [DOT] + Join(rest) + [46] + l;
    }
  }

  lemma JoinCons(x: Label, rest: seq<Label>)
    ensures Join([x] + rest) == if rest == [] then x else x + [DOT] + Join(rest)
  {
    assert ([x] + rest)[1..] == rest;
  }

  // ----- the parser inverts the encoder -----

  lemma SliceSplit(s: seq<byte>, a: nat, b: nat, c: nat)
    requires a <= b <= c <= |s|
    ensures s[a..c] == s[a..b] + s[b..c]
  {
  }

  lemma EncodeCons(l: Label, ls: seq<Label>)
    requires AreLabels([l] + ls)
    ensures AreLabels(ls) && Encode([l] + ls) == [|l|] + l + Encode(ls)
  {
    assert forall i | 0 <= i < |ls| :: ls[i] == ([l] + ls)[i + 1];
    assert ([l] + ls)[1..] == ls;
  }

  lemma ContinueCons(name: seq<byte>, started: bool, l: Label, ls: seq<Label>)
    ensures Continue(name, started, [l] + ls) == Continue(Longer(name, started, l), true, ls)
  {
    assert ([l] + ls)[1..] == ls;
  }

  lemma {:induction false} JoinIsContinue(name: seq<byte>, ls: seq<Label>)
    requires ls != []
    ensures Continue(name, true, ls) == name + [DOT] + Join(ls)
    decreases |ls|
  {
    var next := name + [DOT] + ls[0];
    if |ls| > 1 {
      JoinIsContinue(next, ls[1..]);
      assert next + [DOT] + Join(ls[1..]) == name + [DOT] + (ls[0] + [DOT] + Join(ls[1..]));
    }
  }

  lemma JoinFromStart(ls: seq<Label>)
    ensures Continue([], false, ls) == Join(ls)
  {
    if ls != [] {
      assert [] + ls[0] == ls[0];
      if |ls| > 1 {
        JoinIsContinue(ls[0], ls[1..]);
      }
    }
  }

  /** One turn of the loop at a length octet that is not zero. */
  lemma ParseStep(data: seq<byte>, p: nat, name: seq<byte>, started: bool, max: nat)
    requires p < |data| && data[p] != 0
    ensures var e := p + 1 + data[p];
            ParseFrom(data, p, name, started, max)
            == if e > |data| then TooShort
               else if |Longer(name, started, data[p + 1..e])| >= max then TooLong
               else ParseFrom(data, e, Longer(name, started, data[p + 1..e]), true, max)
  {
  }

  /** The same turn over a label that is completely there. */
  lemma ParseLabel(pre: seq<byte>, l: Label, rest: seq<byte>, name: seq<byte>, started: bool, max: nat)
    requires 0 < |l| < 0x100
    ensures ParseFrom(pre + ([|l|] + l + rest), |pre|, name, started, max)
            == if |Longer(name, started, l)| >= max then TooLong
               else ParseFrom(pre + ([|l|] + l) + rest, |pre + ([|l|] + l)|, Longer(name, started, l), true, max)
  {
    hide ParseFrom, Longer;
    var data := pre + ([|l|] + l + rest);
    assert data == pre + ([|l|] + l) + rest;
    assert data[|pre|] == |l|;
    assert data[|pre| + 1..|pre| + 1 + |l|] == l;
    ParseStep(data, |pre|, name, started, max);
  }

  lemma ParseEnd(pre: seq<byte>, tail: seq<byte>, name: seq<byte>, started: bool, max: nat)
    requires |tail| >= 4
    ensures ParseFrom(pre + ([0] + tail), |pre|, name, started, max) == Parsed(name, tail[..2], tail[2..4], |pre| + 5)
  {
    var data := pre + ([0] + tail);
    assert data[|pre|] == 0;
    assert data[|pre| + 1..|pre| + 3] == tail[..2] && data[|pre| + 3..|pre| + 5] == tail[2..4];
  }

  lemma {:induction false} ParseFromEncoded(pre: seq<byte>, ls: seq<Label>, tail: seq<byte>, name: seq<byte>, started: bool, max: nat)
    requires AreLabels(ls) && |tail| >= 4 && |Continue(name, started, ls)| < max
    ensures ParseFrom(pre + (Encode(ls) + ([0] + tail)), |pre|, name, started, max)
            == Parsed(Continue(name, started, ls), tail[..2], tail[2..4], |pre| + |Encode(ls)| + 5)
    decreases |ls|
  {
    if ls == [] {
      assert Encode(ls) + ([0] + tail) == [0] + tail;
      ParseEnd(pre, tail, name, started, max);
    } else {
      hide ParseFrom, Continue, Encode, Longer;
      var l, rest := ls[0], ls[1..];
      assert ls == [l] + rest;
      EncodeCons(l, rest);
      ContinueCons(name, started, l, rest);
      var one := [|l|] + l;
      assert Encode(ls) + ([0] + tail) == one + (Encode(rest) + ([0] + tail));
      ParseLabel(pre, l, Encode(rest) + ([0] + tail), name, started, max);
      ParseFromEncoded(pre + one, rest, tail, Longer(name, started, l), true, max);
    }
  }

  /** Parsing inverts encoding: every list of labels whose dotted join fits the buffer comes
      back as that join, with the type, the class and the exact number of octets. */
  lemma ParseInvertsEncode(ls: seq<Label>, qtype: seq<byte>, qclass: seq<byte>, rest: seq<byte>, max: nat)
    requires AreLabels(ls) && |qtype| == 2 && |qclass| == 2 && |Join(ls)| < max
    ensures ParseQuestion(Encode(ls) + [0] + qtype + qclass + rest, max)
            == Parsed(Join(ls), qtype, qclass, |Encode(ls)| + 5)
  {
    JoinFromStart(ls);
    var tail := qtype + qclass + rest;
    hide Encode, Join, ParseFrom, Continue;
    ParseFromEncoded([], ls, tail, [], false, max);
    assert [] + (Encode(ls) + ([0] + tail)) == Encode(ls) + [0] + qtype + qclass + rest;
    assert tail[..2] == qtype && tail[2..4] == qclass;
  }

  /** The input starts with the encoding of ls, a terminator, a type and a class. */
  ghost predicate IsQuestion(data: seq<byte>, p: nat, ls: seq<Label>)
    requires p <= |data|
  {
    AreLabels(ls) && p + |Encode(ls)| + 5 <= |data| && data[p..p + |Encode(ls)| + 1] == Encode(ls) + [0]
  }

  /** The octets from p on are the encoded label l, up to q. */
  ghost predicate LabelAt(data: seq<byte>, p: nat, l: Label, q: nat) {
    p < q <= |data| && 0 < |l| < 0x100 && data[p..q] == [|l|] + l
  }

  lemma LabelIsAt(data: seq<byte>, p: nat)
    requires p < |data| && data[p] != 0 && p + 1 + data[p] <= |data|
    ensures LabelAt(data, p, data[p + 1..p + 1 + data[p]], p + 1 + data[p])
  {
  }

  lemma QuestionExtends(data: seq<byte>, p: nat, l: Label, q: nat, rest: seq<Label>)
    requires LabelAt(data, p, l, q) && IsQuestion(data, q, rest)
    ensures IsQuestion(data, p, [l] + rest) && p + |Encode([l] + rest)| == q + |Encode(rest)|
  {
    var ls := [l] + rest;
    assert forall i | 0 < i < |ls| :: ls[i] == rest[i - 1];
    EncodeCons(l, rest);
    hide Encode;
    var e := q + |Encode(rest)| + 1;
    SliceSplit(data, p, q, e);
    assert [|l|] + l + (Encode(rest) + [0]) == Encode(ls) + [0];
  }

  lemma PrefixExtends(data: seq<byte>, p: nat, l: Label, q: nat, rest: seq<Label>)
    requires LabelAt(data, p, l, q) && AreLabels(rest) && Encode(rest) <= data[q..]
    ensures AreLabels([l] + rest) && Encode([l] + rest) <= data[p..]
  {
    var ls := [l] + rest;
    assert forall i | 0 < i < |ls| :: ls[i] == rest[i - 1];
    EncodeCons(l, rest);
    hide Encode;
    SliceSplit(data, p, q, |data|);
    assert data[p..] == [|l|] + l + data[q..];
  }

  /** The converse: every success was such an encoding. */
  lemma {:induction false} SuccessIsEncoding(data: seq<byte>, p: nat, name: seq<byte>, started: bool, max: nat)
    returns (ls: seq<Label>)
    requires p <= |data| && |name| < max && ParseFrom(data, p, name, started, max).Parsed?
    ensures IsQuestion(data, p, ls)
    ensures var r := ParseFrom(data, p, name, started, max);
            && r.name == Continue(name, started, ls) && |r.name| < max
            && r.consumed == p + |Encode(ls)| + 5
            && r.qtype + r.qclass == data[r.consumed - 4..r.consumed]
    decreases |data| - p
  {
    var n, q := data[p], p + 1;
    if n == 0 {
      ls := [];
    } else {
      ParseStep(data, p, name, started, max);
      hide ParseFrom, Continue, Longer, IsQuestion, Encode;
      var l := data[q..q + n];
      LabelIsAt(data, p);
      var rest := SuccessIsEncoding(data, q + n, Longer(name, started, l), true, max);
      ls := [l] + rest;
      QuestionExtends(data, p, l, q + n, rest);
      ContinueCons(name, started, l, rest);
    }
  }

  lemma ParseOfQuestion(data: seq<byte>, ls: seq<Label>, max: nat)
    requires IsQuestion(data, 0, ls) && |Join(ls)| < max
    ensures ParseQuestion(data, max).Parsed? && ParseQuestion(data, max).name == Join(ls)
    ensures ParseQuestion(data, max).consumed == |Encode(ls)| + 5
  {
    var e := |Encode(ls)| + 1;
    var qtype, qclass, rest := data[e..e + 2], data[e + 2..e + 4], data[e + 4..];
    hide Encode, Join, ParseFrom;
    assert data == data[..e] + (qtype + qclass + rest);
    assert data == Encode(ls) + [0] + qtype + qclass + rest;
    ParseInvertsEncode(ls, qtype, qclass, rest, max);
  }

  /** Exactly when the parser succeeds. */
  lemma SuccessIff(data: seq<byte>, max: nat)
    requires max > 0
    ensures ParseQuestion(data, max).Parsed? <==> exists ls :: IsQuestion(data, 0, ls) && |Join(ls)| < max
  {
    if ParseQuestion(data, max).Parsed? {
      var ls := SuccessIsEncoding(data, 0, [], false, max);
      JoinFromStart(ls);
    }
    if ls :| IsQuestion(data, 0, ls) && |Join(ls)| < max {
      ParseOfQuestion(data, ls, max);
    }
  }

  /** The input starts with complete labels ls, of which only the last one overflows. */
  ghost predicate Overflows(data: seq<byte>, ls: seq<Label>, max: nat) {
    && ls != [] && AreLabels(ls)
    && Encode(ls) <= data
    && |Join(ls[..|ls| - 1])| < max <= |Join(ls)|
  }

  /** Exactly when the parser reports that a name is too long: some label is completely there
      and is the first one whose join does not fit. */
  lemma TooLongIff(data: seq<byte>, max: nat)
    requires max > 0
    ensures ParseQuestion(data, max).TooLong? <==> exists ls :: Overflows(data, ls, max)
  {
    if ParseQuestion(data, max).TooLong? {
      var ls := TooLongIsOverflow(data, 0, [], false, max);
      JoinFromStart(ls);
      JoinFromStart(ls[..|ls| - 1]);
      assert data[0..] == data;
      assert Overflows(data, ls, max);
    }
    if ls :| Overflows(data, ls, max) {
      JoinFromStart(ls);
      JoinFromStart(ls[..|ls| - 1]);
      var rest := data[|Encode(ls)|..];
      OverflowIsTooLong([], ls, rest, [], false, max);
      hide Encode, ParseFrom, Continue, Join;
      assert data == [] + (Encode(ls) + rest);
    }
  }

  lemma {:induction false} TooLongIsOverflow(data: seq<byte>, p: nat, name: seq<byte>, started: bool, max: nat)
    returns (ls: seq<Label>)
    requires p <= |data| && |name| < max && ParseFrom(data, p, name, started, max).TooLong?
    ensures ls != [] && AreLabels(ls) && Encode(ls) <= data[p..]
    ensures |Continue(name, started, ls[..|ls| - 1])| < max <= |Continue(name, started, ls)|
    decreases |data| - p
  {
    var n, q := data[p], p + 1;
    ParseStep(data, p, name, started, max);
    hide ParseFrom, Longer, Encode;
    var l := data[q..q + n];
    LabelIsAt(data, p);
    if |Longer(name, started, l)| >= max {
      ls := [l];
      assert [l] == [l] + [];
      EmptyPrefix(data[q + n..]);
      PrefixExtends(data, p, l, q + n, []);
      ContinueCons(name, started, l, []);
      assert ls[..0] == [];
    } else {
      hide Continue;
      var rest := TooLongIsOverflow(data, q + n, Longer(name, started, l), true, max);
      ls := [l] + rest;
      PrefixExtends(data, p, l, q + n, rest);
      ContinueCons(name, started, l, rest);
      ContinueCons(name, started, l, rest[..|rest| - 1]);
      assert ls[..|ls| - 1] == [l] + rest[..|rest| - 1];
    }
  }

  lemma EmptyPrefix(data: seq<byte>)
    ensures AreLabels([]) && Encode([]) <= data
  {
  }

  lemma {:induction false} OverflowIsTooLong(pre: seq<byte>, ls: seq<Label>, rest: seq<byte>, name: seq<byte>, started: bool, max: nat)
    requires ls != [] && AreLabels(ls)
    requires |Continue(name, started, ls[..|ls| - 1])| < max <= |Continue(name, started, ls)|
    ensures ParseFrom(pre + (Encode(ls) + rest), |pre|, name, started, max).TooLong?
    decreases |ls|
  {
    var l, more := ls[0], ls[1..];
    assert ls == [l] + more;
    EncodeCons(l, more);
    ContinueCons(name, started, l, more);
    var one := [|l|] + l;
    if more == [] {
      assert Continue(Longer(name, started, l), true, more) == Longer(name, started, l);
    } else {
      ContinueCons(name, started, l, more[..|more| - 1]);
      assert ls[..|ls| - 1] == [l] + more[..|more| - 1];
    }
    hide ParseFrom, Continue, Longer, Encode;
    assert Encode(ls) + rest == one + (Encode(more) + rest);
    ParseLabel(pre, l, Encode(more) + rest, name, started, max);
    if |Longer(name, started, l)| < max {
      OverflowIsTooLong(pre + one, more, rest, Longer(name, started, l), true, max);
    }
  }

  /** Octets behind a question do not matter. */
  lemma {:induction false} ParseIgnoresRest(data: seq<byte>, more: seq<byte>, p: nat, name: seq<byte>, started: bool, max: nat)
    requires p <= |data| && ParseFrom(data, p, name, started, max).Parsed?
    ensures var r := ParseFrom(data, p, name, started, max);
            p < r.consumed <= |data| && ParseFrom(data[..r.consumed] + more, p, name, started, max) == r
    decreases |data| - p
  {
    var r := ParseFrom(data, p, name, started, max);
    var n, q := data[p], p + 1;
    if n == 0 {
      var short := data[..r.consumed] + more;
      assert short[p] == 0 && short[q..q + 2] == data[q..q + 2] && short[q + 2..q + 4] == data[q + 2..q + 4];
    } else {
      ParseStep(data, p, name, started, max);
      hide ParseFrom, Longer;
      ParseIgnoresRest(data, more, q + n, Longer(name, started, data[q..q + n]), true, max);
      var short := data[..r.consumed] + more;
      assert short[p] == n && short[q..q + n] == data[q..q + n];
      ParseStep(short, p, name, started, max);
    }
  }
}
