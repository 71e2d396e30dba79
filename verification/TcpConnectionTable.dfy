/** The array of tracked TCP connections: slots that hold handles (0 is the null pointer) and
    a counter, against the list of live connections in accept order. */
module TcpConnectionTable {
  import opened Sequences

  type Handle = nat
  const NULL: Handle := 0

  /** Position of the first slot that holds h, or |s|. */
  function IndexOf(s: seq<Handle>, h: Handle): (k: nat)
    ensures k <= |s| && (k < |s| ==> s[k] == h)
    ensures forall i | 0 <= i < k :: s[i] != h
  {
    if s == [] then 0 else if s[0] == h then 0 else 1 + IndexOf(s[1..], h)
  }

  /** Position of the first slot that holds h or is empty, or |s|. */
  function FreeOr(s: seq<Handle>, h: Handle): (k: nat)
    ensures k <= |s| && (k < |s| ==> s[k] == h || s[k] == NULL)
    ensures forall i | 0 <= i < k :: s[i] != h && s[i] != NULL
  {
    if s == [] then 0 else if s[0] == h || s[0] == NULL then 0 else 1 + FreeOr(s[1..], h)
  }

  datatype Table = Table(slots: seq<Handle>, counter: nat)

  function Add(t: Table, h: Handle): Table {
    if t.counter == |t.slots| then t
    else
      var k := FreeOr(t.slots, h);
      Table(if k < |t.slots| then t.slots[k := h] else t.slots, t.counter + 1)
  }

  /** Slots are moved down from i on, until an empty one has been moved. */
  function Shift(s: seq<Handle>, i: nat): (r: seq<Handle>)
    ensures |r| == |s|
    decreases |s| - i
  {
    if i + 1 >= |s| then s
    else if s[i + 1] == NULL then s[i := NULL]
    else Shift(s[i := s[i + 1]], i + 1)
  }

  /** The shipped removal: the counter drops whether or not h is found, and a full array keeps
      its last slot. */
  function Delete(t: Table, h: Handle): Table {
    if t.counter == 0 then t
    else
      var k := IndexOf(t.slots, h);
      Table(if k + 1 == |t.slots| then t.slots[k := NULL] else Shift(t.slots, k), t.counter - 1)
  }

  predicate IsTracked(t: Table, h: Handle)
    requires t.counter <= |t.slots|
  {
    h in t.slots[..t.counter]
  }

  // ----- what the array stands for -----

  ghost predicate IsLiveList(live: seq<Handle>) {
    && (forall i | 0 <= i < |live| :: live[i] != NULL)
    && forall i, j | 0 <= i < j < |live| :: live[i] != live[j]
  }

  /** The array is exactly the live list, without gaps, followed by empty slots. */
  ghost predicate Represents(t: Table, live: seq<Handle>) {
    && t.counter == |live| <= |t.slots|
    && (forall i | 0 <= i < |live| :: t.slots[i] == live[i])
    && forall i | t.counter <= i < |t.slots| :: t.slots[i] == NULL
  }

  /** The live list after h has gone. */
  function Removed(live: seq<Handle>, h: Handle): seq<Handle> {
    var k := IndexOf(live, h);
    if k < |live| then Without(live, k) else live
  }

  lemma {:induction false} FreeOrFindsEnd(s: seq<Handle>, n: nat, h: Handle)
    requires n < |s| && s[n] == NULL && h !in s[..n] && NULL !in s[..n]
    ensures FreeOr(s, h) == n
  {
    if n > 0 {
      assert s[0] == s[..n][0];
      assert s[1..][..n - 1] == s[..n][1..];
      FreeOrFindsEnd(s[1..], n - 1, h);
    }
  }

  /** Accepting below capacity appends exactly the connections that are not yet live. */
  lemma AddRepresents(t: Table, live: seq<Handle>, h: Handle)
    requires Represents(t, live) && IsLiveList(live) && h != NULL && t.counter < |t.slots|
    ensures Represents(Add(t, h), live + [h]) <==> h !in live
  {
    if h !in live {
      FreeOrFindsEnd(t.slots, t.counter, h);
    } else {
      var i := IndexOf(live, h);
      assert t.slots[i] == h && (live + [h])[|live|] == h;
    }
  }

  /** Shifting up to the first empty slot c closes the gap at i; without an empty slot the
      last one is duplicated. */
  lemma {:induction false} ShiftCloses(s: seq<Handle>, i: nat, c: nat)
    requires i < c <= |s| && (forall j | i < j < c :: s[j] != NULL) && (c < |s| ==> s[c] == NULL)
    ensures forall j | 0 <= j < i :: Shift(s, i)[j] == s[j]
    ensures forall j | i <= j < c && j + 1 < |s| :: Shift(s, i)[j] == s[j + 1]
    ensures forall j | c <= j < |s| :: Shift(s, i)[j] == s[j]
    ensures c == |s| ==> Shift(s, i)[c - 1] == s[c - 1]
    decreases c - i
  {
    if i + 1 < c {
      var s' := s[i := s[i + 1]];
      assert s[i + 1] != NULL;
      ShiftCloses(s', i + 1, c);
      assert Shift(s, i) == Shift(s', i + 1);
    }
  }

  lemma IndexInPrefix(s: seq<Handle>, live: seq<Handle>, h: Handle)
    requires |live| <= |s| && (forall i | 0 <= i < |live| :: s[i] == live[i]) && h in live
    ensures IndexOf(s, h) == IndexOf(live, h) < |live|
  {
  }

  /** The exact condition under which the shipped removal leaves the array equal to the live
      list: nothing was tracked at all, or h was tracked and either the array was not full or
      h was in its last slot. */
  lemma DeleteRepresents(t: Table, live: seq<Handle>, h: Handle)
    requires Represents(t, live) && IsLiveList(live) && h != NULL && |t.slots| > 0
    ensures Represents(Delete(t, h), Removed(live, h))
            <==> t.counter == 0 || (h in live && (t.counter < |t.slots| || h == t.slots[|t.slots| - 1]))
  {
    if t.counter > 0 {
      if h !in live {
        UnknownRemovalForgetsLast(t, live, h);
        hide Delete;
        assert Removed(live, h) == live;
      } else if t.counter == |t.slots| && h != live[|live| - 1] {
        FullRemoval(t, live, h);
        hide Delete, Removed;
        var t' := Delete(t, h);
        assert t'.slots[t'.counter] == live[|live| - 1] != NULL;
      } else {
        KnownRemoval(t, live, h);
        hide Delete, Removed;
      }
    }
  }

  lemma KnownRemoval(t: Table, live: seq<Handle>, h: Handle)
    requires Represents(t, live) && IsLiveList(live) && h in live
    requires t.counter < |t.slots| || h == live[|live| - 1]
    ensures Represents(Delete(t, h), Removed(live, h))
  {
    IndexInPrefix(t.slots, live, h);
    var k := IndexOf(live, h);
    hide Without;
    if k + 1 < |t.slots| {
      ShiftOfPacked(t.slots, k);
      hide Shift, IndexOf;
      assert Shift(t.slots, k)[t.counter - 1] == t.slots[t.counter] == NULL;
    }
  }

  // ----- the evident intent -----

  /** The intended removal: unknown handles are ignored and the vacated last slot is cleared. */
  function DeleteIntended(t: Table, h: Handle): Table
    requires t.counter <= |t.slots|
  {
    var k := IndexOf(t.slots[..t.counter], h);
    if k == t.counter then t
    else Table(Without(t.slots, k) + [NULL], t.counter - 1)
  }

  /** It keeps the correspondence for every handle, up to full capacity. */
  lemma DeleteIntendedRepresents(t: Table, live: seq<Handle>, h: Handle)
    requires Represents(t, live)
    ensures Represents(DeleteIntended(t, h), Removed(live, h))
  {
    assert t.slots[..t.counter] == live;
    hide Without;
  }

  lemma RemovedIsLiveList(live: seq<Handle>, h: Handle)
    requires IsLiveList(live)
    ensures IsLiveList(Removed(live, h))
    ensures forall x :: x in Removed(live, h) <==> x in live && x != h
  {
    var k := IndexOf(live, h);
    if k < |live| {
      hide Without;
      var r := Without(live, k);
      forall x | x in live && x != h ensures x in r {
        var i :| 0 <= i < |live| && live[i] == x;
        assert if i < k then r[i] == x else r[i - 1] == x;
      }
    }
  }

  // ----- what the shipped removal costs -----

  /** A full array that any connection but the last one leaves holds the remaining ones and the
      last one once more. */
  lemma FullRemoval(t: Table, live: seq<Handle>, h: Handle)
    requires Represents(t, live) && IsLiveList(live) && t.counter == |t.slots|
    requires h in live && h != live[|live| - 1]
    ensures Delete(t, h) == Table(Removed(live, h) + [live[|live| - 1]], t.counter - 1)
    ensures |Removed(live, h)| == t.counter - 1 && Removed(live, h) != []
    ensures Removed(live, h)[t.counter - 2] == live[|live| - 1]
  {
    IndexInPrefix(t.slots, live, h);
    var k := IndexOf(live, h);
    ShiftCloses(t.slots, k, t.counter);
    hide Shift, Without, IndexOf;
    assert t.slots == live;
  }

  /** An array without an empty slot whose last two slots hold the same connection. */
  predicate Stale(t: Table) {
    && |t.slots| >= 2 && t.counter <= |t.slots|
    && NULL !in t.slots
    && t.slots[|t.slots| - 2] == t.slots[|t.slots| - 1]
  }

  /** After any connection but the last one has left a full array, the array is stale; the next
      accepted connection is not tracked, and the last one is tracked twice. */
  lemma FullArrayForgetsNext(t: Table, live: seq<Handle>, h: Handle, next: Handle)
    requires Represents(t, live) && IsLiveList(live) && t.counter == |t.slots|
    requires h in live && h != live[|live| - 1] && next != NULL && next !in live
    ensures Stale(Delete(t, h))
    ensures Add(Delete(t, h), next) == Table(Removed(live, h) + [live[|live| - 1]], |t.slots|)
    ensures !IsTracked(Add(Delete(t, h), next), next)
  {
    FullRemoval(t, live, h);
    RemovedIsLiveList(live, h);
    hide Delete, Removed;
    var s := Removed(live, h) + [live[|live| - 1]];
    assert forall i | 0 <= i < |s| :: s[i] in live;
    assert FreeOr(s, next) == |s|;
  }

  lemma DeleteKeepsStale(t: Table, h: Handle)
    requires Stale(t)
    ensures Stale(Delete(t, h))
    ensures forall x | x in Delete(t, h).slots :: x in t.slots
  {
    var k := IndexOf(t.slots, h);
    if k < |t.slots| {
      assert k != |t.slots| - 1;
      ShiftOfFull(t.slots, k);
    }
    hide Shift, IndexOf;
  }

  /** Without an empty slot the last one is duplicated. */
  lemma ShiftOfFull(s: seq<Handle>, k: nat)
    requires k + 1 < |s| && NULL !in s
    ensures var r := Shift(s, k);
            r[|s| - 2] == r[|s| - 1] == s[|s| - 1] && NULL !in r && forall x | x in r :: x in s
  {
    ShiftCloses(s, k, |s|);
    hide Shift;
    var r := Shift(s, k);
    assert forall i | 0 <= i < |s| :: r[i] in s;
  }

  lemma AddKeepsStale(t: Table, h: Handle)
    requires Stale(t)
    ensures Stale(Add(t, h)) && Add(t, h).slots == t.slots
  {
    var k := FreeOr(t.slots, h);
    assert k < |t.slots| ==> t.slots[k] in t.slots;
  }

  /** In a full array the last connection cannot even be removed once another one has left: it
      is counted again as soon as a connection is accepted. */
  lemma FullRemovals(t: Table, live: seq<Handle>, h: Handle, last: Handle, next: Handle)
    requires Represents(t, live) && IsLiveList(live) && t.counter == |t.slots|
    requires h in live && h != last == live[|live| - 1] && next != NULL && next !in live
    ensures var t' := Add(Delete(Delete(t, h), last), next);
            t'.counter <= |t'.slots| && IsTracked(t', last) && t'.slots[t'.counter - 1] == last
  {
    FullRemoval(t, live, h);
    RemovedIsLiveList(live, h);
    FullArrayForgetsNext(t, live, h, next);
    var r := Removed(live, h);
    var n := |t.slots|;
    hide Removed, Add, Delete, Stale;
    LastStays(r + [last], last, n - 1);
    NoSlotLeft(r + [last], next, n - 2);
    assert (r + [last])[..n - 1][n - 2] == last;
  }

  /** The duplicated last connection survives its removal. */
  lemma LastStays(s: seq<Handle>, last: Handle, counter: nat)
    requires 0 < counter && |s| >= 2 && s[|s| - 2] == s[|s| - 1] == last != NULL
    requires forall i | 0 <= i < |s| - 2 :: s[i] != last
    ensures Delete(Table(s, counter), last) == Table(s, counter - 1)
  {
    var k := |s| - 2;
    assert IndexOf(s, last) == k;
    assert s[k := s[k + 1]] == s;
    assert Shift(s, k) == Shift(s, k + 1) == s;
  }

  lemma NoSlotLeft(s: seq<Handle>, next: Handle, counter: nat)
    requires counter < |s| && forall i | 0 <= i < |s| :: s[i] != NULL && s[i] != next
    ensures Add(Table(s, counter), next) == Table(s, counter + 1)
  {
    assert FreeOr(s, next) == |s|;
  }

  /** Removing an unknown connection counts one tracked connection less: the one accepted last
      is no longer tracked, although it is still there. */
  lemma UnknownRemovalForgetsLast(t: Table, live: seq<Handle>, h: Handle)
    requires Represents(t, live) && IsLiveList(live) && h != NULL && h !in live && t.counter > 0
    ensures Delete(t, h) == Table(t.slots, t.counter - 1)
    ensures !IsTracked(Delete(t, h), live[|live| - 1])
  {
    assert IndexOf(t.slots, h) == |t.slots|;
  }

  // ----- arrays that may hold released connections -----

  /** The counted slots hold connections, and empty slots are followed by empty slots only. */
  predicate Packed(t: Table) {
    && t.counter <= |t.slots|
    && (forall i | 0 <= i < t.counter :: t.slots[i] != NULL)
    && forall i, j | 0 <= i < j < |t.slots| :: t.slots[i] == NULL ==> t.slots[j] == NULL
  }

  /** An accept counts the next slot: the new connection is put there if the slot is empty, and
      otherwise what the slot still holds is tracked again. */
  lemma AddToPacked(t: Table, h: Handle)
    requires Packed(t) && h != NULL && t.counter < |t.slots| && forall i | 0 <= i < t.counter :: t.slots[i] != h
    ensures Packed(Add(t, h)) && Add(t, h).counter == t.counter + 1
    ensures forall i | 0 <= i < t.counter :: Add(t, h).slots[i] == t.slots[i]
    ensures Add(t, h).slots[t.counter] == if t.slots[t.counter] == NULL then h else t.slots[t.counter]
  {
    var k := FreeOr(t.slots, h);
    assert k >= t.counter;
    if t.slots[t.counter] == NULL {
      assert k == t.counter;
    }
    hide FreeOr;
  }

  /** Exactly when an accepted connection is tracked: the next slot must be empty. */
  lemma AcceptTracksIff(t: Table, h: Handle)
    requires Packed(t) && h != NULL && h !in t.slots[..t.counter]
    ensures Add(t, h).counter <= |t.slots| == |Add(t, h).slots|
    ensures IsTracked(Add(t, h), h)
            <==> t.counter < |t.slots| && (t.slots[t.counter] == NULL || t.slots[t.counter] == h)
  {
    if t.counter < |t.slots| {
      assert forall i | 0 <= i < t.counter :: t.slots[i] == t.slots[..t.counter][i];
      AddToPacked(t, h);
      hide Add;
      var t' := Add(t, h);
      assert t'.slots[..t'.counter][t.counter] == t'.slots[t.counter];
    }
  }

  /** Exactly when an accept makes a connection be counted twice: the next slot still holds one
      that is counted already. */
  lemma AcceptCountsTwiceIff(t: Table, h: Handle)
    requires Packed(t) && h != NULL && h !in t.slots[..t.counter] && IsLiveList(t.slots[..t.counter])
    ensures Add(t, h).counter <= |Add(t, h).slots|
    ensures IsLiveList(Add(t, h).slots[..Add(t, h).counter])
            <==> !(t.counter < |t.slots| && t.slots[t.counter] in t.slots[..t.counter])
  {
    if t.counter < |t.slots| {
      var s := t.slots[..t.counter];
      assert forall i | 0 <= i < t.counter :: t.slots[i] == s[i];
      AddToPacked(t, h);
      hide Add;
      var x := Add(t, h).slots[t.counter];
      assert Add(t, h).slots[..t.counter + 1] == s + [x];
      assert forall i | 0 <= i < |s| :: (s + [x])[i] == s[i];
      assert (s + [x])[|s|] == x;
      if x in s {
        var i :| 0 <= i < |s| && s[i] == x;
        assert (s + [x])[i] == (s + [x])[|s|];
      }
    }
  }

  /** A removal takes the first occurrence out of the counted slots, if there is one, and counts
      one slot less. */
  lemma DeleteFromPacked(t: Table, h: Handle)
    requires Packed(t) && h != NULL && t.counter > 0
    ensures Packed(Delete(t, h)) && Delete(t, h).counter == t.counter - 1
    ensures forall i | 0 <= i < t.counter - 1 && i < IndexOf(t.slots, h) :: Delete(t, h).slots[i] == t.slots[i]
    ensures forall i | IndexOf(t.slots, h) <= i < t.counter - 1 :: Delete(t, h).slots[i] == t.slots[i + 1]
  {
    var k := IndexOf(t.slots, h);
    if k + 1 < |t.slots| {
      ShiftOfPacked(t.slots, k);
    }
    hide Shift, IndexOf;
  }

  /** h is counted in two slots. */
  ghost predicate CountedTwice(t: Table, h: Handle)
    requires t.counter <= |t.slots|
  {
    exists i, j :: 0 <= i < j < t.counter && t.slots[i] == t.slots[j] == h
  }

  /** After its removal a connection is still counted if and only if it was counted twice, and
      nothing else is counted that was not before. */
  lemma CountedAfterDelete(t: Table, h: Handle)
    requires Packed(t) && h != NULL && t.counter > 0
    ensures Packed(Delete(t, h)) && Delete(t, h).counter == t.counter - 1
    ensures (exists i :: 0 <= i < t.counter - 1 && Delete(t, h).slots[i] == h) <==> CountedTwice(t, h)
    ensures forall i | 0 <= i < t.counter - 1 :: Delete(t, h).slots[i] in t.slots[..t.counter]
  {
    DeleteFromPacked(t, h);
    var k := IndexOf(t.slots, h);
    var s' := Delete(t, h).slots;
    hide Delete, IndexOf, Packed, CountedTwice;
    OneCountedLess(t, s', h, k);
  }

  lemma OneCountedLess(t: Table, s': seq<Handle>, h: Handle, k: nat)
    requires 0 < t.counter <= |t.slots| == |s'|
    requires (forall i | 0 <= i < k && i < |t.slots| :: t.slots[i] != h) && (k < |t.slots| ==> t.slots[k] == h)
    requires forall i | 0 <= i < t.counter - 1 && i < k :: s'[i] == t.slots[i]
    requires forall i | k <= i < t.counter - 1 :: s'[i] == t.slots[i + 1]
    ensures (exists i :: 0 <= i < t.counter - 1 && s'[i] == h) <==> CountedTwice(t, h)
    ensures forall i | 0 <= i < t.counter - 1 :: s'[i] in t.slots[..t.counter]
  {
    var s, counted := t.slots, t.slots[..t.counter];
    forall i | 0 <= i < t.counter - 1 ensures s'[i] in counted {
      var j := if i < k then i else i + 1;
      assert s'[i] == s[j] == counted[j];
    }
    if i, j :| 0 <= i < j < t.counter && s[i] == s[j] == h {
      assert k <= i;
      assert s'[j - 1] == s[j];
    }
    if i :| 0 <= i < t.counter - 1 && s'[i] == h {
      assert k <= i && s[k] == s[i + 1] == h;
    }
  }

  lemma ShiftOfPacked(s: seq<Handle>, k: nat)
    requires k + 1 < |s| && s[k] != NULL
    requires forall i, j | 0 <= i < j < |s| :: s[i] == NULL ==> s[j] == NULL
    ensures forall i, j | 0 <= i < j < |s| :: Shift(s, k)[i] == NULL ==> Shift(s, k)[j] == NULL
    ensures forall i | 0 <= i < k :: Shift(s, k)[i] == s[i]
    ensures forall i | k <= i < |s| - 1 :: Shift(s, k)[i] == s[i + 1]
  {
    var c := FreeOr(s, NULL);
    assert k < c;
    ShiftCloses(s, k, c);
    hide Shift, FreeOr;
    var r := Shift(s, k);
    assert forall i | c <= i < |s| :: s[i] == NULL;
    assert forall i | 0 <= i < |s| :: r[i] == NULL <==> c < |s| && i >= c - 1;
  }

  // ----- runs of the intended removal -----

  datatype Change = Opened(h: Handle) | Gone(h: Handle)

  /** A connection accepted at capacity is served without being tracked. */
  function LiveAfter(live: seq<Handle>, c: Change, capacity: nat): seq<Handle> {
    match c
    case Opened(h) => if |live| == capacity then live else live + [h]
    case Gone(h) => Removed(live, h)
  }

  function StepIntended(t: Table, c: Change): (t': Table)
    requires t.counter <= |t.slots|
    ensures t'.counter <= |t'.slots| == |t.slots|
  {
    match c
    case Opened(h) => Add(t, h)
    case Gone(h) => DeleteIntended(t, h)
  }

  function RunIntended(t: Table, cs: seq<Change>): Table
    requires t.counter <= |t.slots|
    decreases |cs|
  {
    if cs == [] then t else RunIntended(StepIntended(t, cs[0]), cs[1..])
  }

  function LiveAfterRun(live: seq<Handle>, cs: seq<Change>, capacity: nat): seq<Handle>
    decreases |cs|
  {
    if cs == [] then live else LiveAfterRun(LiveAfter(live, cs[0], capacity), cs[1..], capacity)
  }

  ghost predicate OpensAreNew(live: seq<Handle>, cs: seq<Change>, capacity: nat)
    decreases |cs|
  {
    cs != [] ==>
      && (cs[0].Opened? ==> cs[0].h != NULL && cs[0].h !in live)
      && OpensAreNew(LiveAfter(live, cs[0], capacity), cs[1..], capacity)
  }

  /** With the intended removal the array tracks the live list over every run, up to and
      including full capacity, and whatever unknown handles are removed. */
  lemma {:induction false} RunIntendedRepresents(t: Table, live: seq<Handle>, cs: seq<Change>)
    requires Represents(t, live) && IsLiveList(live) && OpensAreNew(live, cs, |t.slots|)
    ensures Represents(RunIntended(t, cs), LiveAfterRun(live, cs, |t.slots|))
    decreases |cs|
  {
    if cs != [] {
      match cs[0] {
        case Opened(h) =>
          if |live| < |t.slots| {
            AddRepresents(t, live, h);
          }
        case Gone(h) =>
          DeleteIntendedRepresents(t, live, h);
          RemovedIsLiveList(live, h);
      }
      hide Add, DeleteIntended, Removed;
      RunIntendedRepresents(StepIntended(t, cs[0]), LiveAfter(live, cs[0], |t.slots|), cs[1..]);
    }
  }
}
