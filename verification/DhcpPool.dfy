/** Which addresses the DHCP server hands out: the last octets of its pool. */
module DhcpPool {
  import opened Bytes

  /** The numbers start, start + 1, ... (count of them), without the server's own. */
  function Octets(start: nat, count: nat, own: nat): seq<nat> {
    if count == 0 then []
    else Octets(start, count - 1, own) + if start + count - 1 == own then [] else [start + count - 1]
  }

  function U8(x: nat): byte {
    if x < 0x100 then x else x % 0x100
  }

  /** Entry j of the pool, before truncation to an octet: one number is skipped at own. */
  function OctetAt(start: nat, own: nat, j: nat): nat {
    if start <= own <= start + j then start + j + 1 else start + j
  }

  lemma {:induction false} OctetsByIndex(start: nat, count: nat, own: nat)
    ensures |Octets(start, count, own)| == if start <= own < start + count then count - 1 else count
    ensures forall j | 0 <= j < |Octets(start, count, own)| :: Octets(start, count, own)[j] == OctetAt(start, own, j)
  {
    if count > 0 {
      OctetsByIndex(start, count - 1, own);
    }
  }

  /** Where a number of the range stands. */
  lemma IndexOfOctet(start: nat, count: nat, own: nat, x: nat) returns (j: nat)
    requires start <= x < start + count && x != own
    ensures j < |Octets(start, count, own)| && Octets(start, count, own)[j] == x
  {
    OctetsByIndex(start, count, own);
    j := if start <= own < x then x - start - 1 else x - start;
  }

  /** The list holds every number of the range except own, each once, in ascending order. */
  lemma OctetsAreTheRange(start: nat, count: nat, own: nat)
    ensures forall x :: x in Octets(start, count, own) <==> start <= x < start + count && x != own
    ensures forall i, j | 0 <= i < j < |Octets(start, count, own)| ::
              Octets(start, count, own)[i] < Octets(start, count, own)[j]
  {
    OctetsByIndex(start, count, own);
    hide Octets;
    var os := Octets(start, count, own);
    forall x | start <= x < start + count && x != own ensures x in os {
      var j := IndexOfOctet(start, count, own, x);
    }
  }

  /** The octets actually stored are those of the range if and only if the range does not run
      past 255. */
  lemma StoredOctetsAreExact(start: byte, count: byte, own: byte)
    ensures (forall j | 0 <= j < |Octets(start, count, own)| ::
               U8(Octets(start, count, own)[j]) == Octets(start, count, own)[j])
            <==> start + count <= 0x100
  {
    OctetsByIndex(start, count, own);
    OctetsAreTheRange(start, count, own);
    hide Octets;
    var os := Octets(start, count, own);
    if (start as int) + count > 0x100 {
      var top: nat := (start as int) + count - 1;
      assert top in os;
    }
  }

  /** Is x the octet stored for one of the numbers? */
  ghost predicate Stores(os: seq<nat>, x: byte) {
    exists j :: 0 <= j < |os| && U8(os[j]) == x
  }

  /** Which octets are stored, wrapped or not. */
  lemma StoredOctets(start: byte, count: byte, own: byte, x: byte)
    ensures Stores(Octets(start, count, own), x)
            <==> (start as int <= x < start as int + count && x != own) || x as int + 0x100 < start as int + count
  {
    OctetsAreTheRange(start, count, own);
    hide Octets;
    var os := Octets(start, count, own);
    if j :| 0 <= j < |os| && U8(os[j]) == x {
      assert os[j] in os;
    }
    if start as int <= x < start as int + count && x != own {
      var j := IndexOfOctet(start, count, own, x);
      assert U8(os[j]) == x;
    }
    if x as int + 0x100 < start as int + count {
      var j := IndexOfOctet(start, count, own, x as int + 0x100);
      assert U8(os[j]) == x;
    }
  }

  /** The numbers span less than 256, so that no octet is stored twice. */
  lemma StoredOctetsAreDistinct(start: byte, count: byte, own: byte)
    ensures forall i, j | 0 <= i < j < |Octets(start, count, own)| ::
              U8(Octets(start, count, own)[i]) != U8(Octets(start, count, own)[j])
  {
    OctetsAreTheRange(start, count, own);
    hide Octets;
    var os := Octets(start, count, own);
    assert forall i | 0 <= i < |os| :: os[i] in os;
    assert forall i | 0 <= i < |os| :: U8(os[i]) == if os[i] < 0x100 then os[i] else os[i] - 0x100;
  }

  /** The server's own octet is handed out if and only if the range runs past 255 and around
      to it. */
  lemma OwnOctetIsStoredIff(start: byte, count: byte, own: byte)
    ensures Stores(Octets(start, count, own), own)
            <==> start as int + count > own as int + 0x100
  {
    StoredOctets(start, count, own, own);
  }

  /** An input for which it is: ten addresses from 250 on, on a server whose octet is 1. */
  lemma OverrunHandsOutOwnAddress()
    ensures |Octets(250, 10, 1)| == 10 && U8(Octets(250, 10, 1)[7]) == 1
  {
    OctetsByIndex(250, 10, 1);
    hide Octets;
  }
}
