/** The option field of a DHCP message (RFC 2132, section 2): the encoder's layout and the
    linear walk that finds an option by its tag. */
module DhcpOptions {
  import opened Bytes

  const PAD: byte := 0
  const END: byte := 255

  datatype Opt = Opt(tag: byte, value: seq<byte>)

  /** One option: tag, length octet, value. */
  function EncodeOne(o: Opt): (s: seq<byte>)
    requires |o.value| < 0x100
    ensures |s| == |o.value| + 2
  {
    [o.tag, |o.value|] + o.value
  }

  predicate Encodable(os: seq<Opt>) {
    forall i | 0 <= i < |os| :: |os[i].value| < 0x100
  }

  function EncodeAll(os: seq<Opt>): seq<byte>
    requires Encodable(os)
  {
    if os == [] then [] else EncodeOne(os[0]) + EncodeAll(os[1..])
  }

  /** The walk of find_dhcp_option from cursor i; -1 stands for the null pointer. */
  function FindFrom(attrs: seq<byte>, i: nat, attr: byte): (r: int)
    ensures r == -1 || (i <= r && r + 2 <= |attrs| && attrs[r] == attr && r + 2 + attrs[r + 1] <= |attrs|)
    decreases |attrs| - i
  {
    if i + 1 >= |attrs| then -1
    else
      var next := i + attrs[i + 1] + 2;
      if next > |attrs| then -1
      else if attrs[i] == attr then i
      else FindFrom(attrs, next, attr)
  }

  /** The value of an option found by the walk; it lies inside the buffer. */
  function ValueAt(attrs: seq<byte>, r: nat): seq<byte>
    requires r + 2 <= |attrs| && r + 2 + attrs[r + 1] <= |attrs|
  {
    attrs[r + 2..r + 2 + attrs[r + 1]]
  }

  function Decode(attrs: seq<byte>, attr: byte): Option<seq<byte>> {
    var r := FindFrom(attrs, 0, attr);
    if r == -1 then None else Some(ValueAt(attrs, r))
  }

  /** The first value with the given tag in the list that was encoded. */
  function ValueOf(os: seq<Opt>, attr: byte): Option<seq<byte>> {
    if os == [] then None
    else if os[0].tag == attr then Some(os[0].value)
    else ValueOf(os[1..], attr)
  }

  lemma {:induction false} FindInZeros(attrs: seq<byte>, i: nat, attr: byte)
    requires attr != PAD && forall j | i <= j < |attrs| :: attrs[j] == 0
    ensures FindFrom(attrs, i, attr) == -1
    decreases |attrs| - i
  {
    if i + 1 < |attrs| && i + 2 <= |attrs| {
      FindInZeros(attrs, i + 2, attr);
    }
  }

  /** An option area: the encoded list, the end mark, zero padding. */
  function Area(os: seq<Opt>, padding: nat): seq<byte>
    requires Encodable(os)
  {
    EncodeAll(os) + [END] + Zeros(padding)
  }

  lemma WalkStep(pre: seq<byte>, o: Opt, rest: seq<byte>, attr: byte)
    requires |o.value| < 0x100
    ensures var attrs := pre + EncodeOne(o) + rest;
            if o.tag == attr then FindFrom(attrs, |pre|, attr) == |pre| && ValueAt(attrs, |pre|) == o.value
            else FindFrom(attrs, |pre|, attr) == FindFrom(attrs, |pre + EncodeOne(o)|, attr)
  {
    var one := EncodeOne(o);
    var attrs := pre + one + rest;
    assert attrs[|pre|] == one[0] && attrs[|pre| + 1] == one[1];
    if o.tag == attr {
      assert attrs[|pre| + 2..|pre| + 2 + |o.value|] == o.value;
    }
  }

  lemma WalkEnds(pre: seq<byte>, padding: nat, attr: byte)
    requires attr != PAD && attr != END
    ensures FindFrom(pre + ([END] + Zeros(padding)), |pre|, attr) == -1
  {
    var attrs := pre + ([END] + Zeros(padding));
    assert attrs[|pre|] == END;
    if padding > 0 {
      assert attrs[|pre| + 1] == 0;
      assert forall j | |pre| < j < |attrs| :: attrs[j] == 0;
      FindInZeros(attrs, |pre| + 2, attr);
    }
  }

  lemma {:induction false} WalkFindsFirst(pre: seq<byte>, os: seq<Opt>, padding: nat, attr: byte)
    requires Encodable(os) && attr != PAD && attr != END
    ensures var attrs := pre + Area(os, padding);
            var r := FindFrom(attrs, |pre|, attr);
            ValueOf(os, attr) == if r == -1 then None else Some(ValueAt(attrs, r))
    decreases |os|
  {
    hide FindFrom, ValueAt, EncodeOne;
    if os == [] {
      WalkEnds(pre, padding, attr);
      assert pre + Area(os, padding) == pre + ([END] + Zeros(padding));
    } else {
      var one := EncodeOne(os[0]);
      assert pre + Area(os, padding) == pre + one + Area(os[1..], padding);
      WalkStep(pre, os[0], Area(os[1..], padding), attr);
      if os[0].tag != attr {
        WalkFindsFirst(pre + one, os[1..], padding, attr);
      }
    }
  }

  /** Decoding inverts encoding for every option list, every padding, and every tag other
      than pad and end: the walk returns the exact value that was emitted first under that
      tag, and nothing for a tag that was not emitted. */
  lemma OptionsRoundTrip(os: seq<Opt>, padding: nat, attr: byte)
    requires Encodable(os) && attr != PAD && attr != END
    ensures Decode(Area(os, padding), attr) == ValueOf(os, attr)
  {
    WalkFindsFirst([], os, padding, attr);
    assert [] + Area(os, padding) == Area(os, padding);
  }

  lemma {:induction false} EncodeConcat(a: seq<Opt>, b: seq<Opt>)
    requires Encodable(a) && Encodable(b)
    ensures Encodable(a + b) && EncodeAll(a + b) == EncodeAll(a) + EncodeAll(b)
  {
    hide EncodeOne;
    if a == [] {
      assert a + b == b;
    } else {
      EncodeConcat(a[1..], b);
      assert (a + b)[1..] == a[1..] + b;
      assert EncodeAll(a + b) == EncodeOne(a[0]) + EncodeAll(a[1..] + b);
    }
  }

  lemma EncodeSingle(o: Opt)
    requires |o.value| < 0x100
    ensures Encodable([o]) && EncodeAll([o]) == EncodeOne(o)
  {
    assert EncodeAll([o]) == EncodeOne(o) + EncodeAll([o][1..]);
  }

  lemma EncodeSnoc(os: seq<Opt>, o: Opt)
    requires Encodable(os) && |o.value| < 0x100
    ensures Encodable(os + [o]) && EncodeAll(os + [o]) == EncodeAll(os) + EncodeOne(o)
  {
    EncodeSingle(o);
    EncodeConcat(os, [o]);
  }
}
