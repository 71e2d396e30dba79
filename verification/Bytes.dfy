/** Octets, 16-bit words and in-place copies, as the C++ sources use them. */
module Bytes {
  type byte = x: int | 0 <= x < 0x100
  type word = x: int | 0 <= x < 0x1_0000

  /** A MAC address and an IPv4 address, as the octets that travel in frames. */
  type Mac = s: seq<byte> | |s| == 6 witness [0, 0, 0, 0, 0, 0]
  type Ip = s: seq<byte> | |s| == 4 witness [0, 0, 0, 0]

  const NO_MAC: Mac := [0, 0, 0, 0, 0, 0]

  datatype Option<+T> = None | Some(value: T)

  /** The macro _HI on a value of any width. */
  function Hi(x: int): byte {
    (x / 0x100) % 0x100
  }

  /** The macro _LO on a value of any width. */
  function Lo(x: int): byte {
    x % 0x100
  }

  /** A big-endian 16-bit word. */
  function Word(hi: byte, lo: byte): word {
    hi * 0x100 + lo
  }

  /** Truncation to an unsigned 16-bit or 32-bit variable; U16 is also the mask 0xffff. */
  function U16(x: int): word {
    if 0 <= x < 0x1_0000 then x else x % 0x1_0000
  }

  function U32(x: int): nat {
    if 0 <= x < 0x1_0000_0000 then x else x % 0x1_0000_0000
  }

  /** Storing into a narrower variable keeps the remainder, also of a negative value. */
  lemma TruncationIsRemainder(x: int)
    ensures U16(x) == x % 0x1_0000 && U32(x) == x % 0x1_0000_0000
  {
  }

  /** The 16-bit complement, written ~x & 0xffff or x ^ 0xffff. */
  function Not16(x: word): word {
    0xffff - x
  }

  function Encode16(x: word): (s: seq<byte>)
    ensures |s| == 2
  {
    [Hi(x), Lo(x)]
  }

  lemma WordOfHiLo(x: word)
    ensures Word(Hi(x), Lo(x)) == x
  {
  }

  function Zeros(n: nat): (s: seq<byte>)
    ensures |s| == n && forall i | 0 <= i < n :: s[i] == 0
  {
    seq(n, _ => 0)
  }

  lemma AllZeros(s: seq<byte>)
    requires forall i | 0 <= i < |s| :: s[i] == 0
    ensures s == Zeros(|s|)
  {
  }

  /** The buffer s with the octets b written at offset at. */
  function Splice(s: seq<byte>, at: nat, b: seq<byte>): (r: seq<byte>)
    requires at + |b| <= |s|
    ensures |r| == |s|
    ensures forall i | 0 <= i < |s| :: r[i] == if at <= i < at + |b| then b[i - at] else s[i]
  {
    s[..at] + b + s[at + |b|..]
  }

  /** From offset at on, the buffers s and t hold the same octets. */
  predicate Untouched(s: seq<byte>, t: seq<byte>, at: nat) {
    |s| == |t| && forall i | at <= i < |s| :: t[i] == s[i]
  }

  /** The library call memcpy, from a value into a buffer. */
  method Memcpy(dst: array<byte>, at: nat, src: seq<byte>)
    requires at + |src| <= dst.Length
    modifies dst
    ensures dst[..] == Splice(old(dst[..]), at, src)
    ensures dst[..at + |src|] == old(dst[..at]) + src
    ensures Untouched(old(dst[..]), dst[..], at + |src|)
  {
    for i := 0 to |src|
      invariant dst[..] == Splice(old(dst[..]), at, src[..i])
    {
      dst[at + i] := src[i];
    }
    assert src[..|src|] == src;
    assert dst[..at + |src|] == dst[..][..at + |src|];
  }
}
