/** The TCP server channel working in place, proved against the state machine. */
module TcpServerChannel {
  import opened Bytes
  import opened TcpConnectionTable
  import opened TcpChannel

  class TcpServerChannel {
    const mss: nat
    const listening: bool
    /** The array of void pointers. */
    var slots: array<Handle>
    var counter: nat
    /** The connection records that the pointers lead to. */
    var conns: map<Handle, Conn>
    /** The records of the connections that close released, oldest first. */
    ghost var closed: seq<Conn>

    ghost predicate Valid()
      reads this
    {
      mss > 0 && slots.Length > 0 && counter <= slots.Length && NULL !in conns
    }

    ghost function State(): Channel
      reads this, slots
    {
      Channel(mss, listening, Table(slots[..], counter), conns, closed)
    }

    constructor (mss: nat, listening: bool, capacity: nat)
      requires mss > 0 && capacity > 0
      ensures Valid() && fresh(slots) && State().table.slots == seq(capacity, _ => NULL)
      ensures State() == Channel(mss, listening, State().table, map[], []) && counter == 0
      ensures Tracks(State(), []) && AllTracked(State(), []) && AllConserved(State())
      ensures Packed(State().table) && SlotsExist(State())
    {
      this.mss, this.listening := mss, listening;
      slots := new Handle[capacity](_ => NULL);
      counter, conns, closed := 0, map[], [];
    }

    // ----- the connection array -----

    method AddConnectionToBuffer(h: Handle)
      requires Valid()
      modifies this`counter, slots
      ensures Valid() && Table(slots[..], counter) == Add(old(Table(slots[..], counter)), h)
    {
      if counter == slots.Length {
        return;
      }
      ghost var s := slots[..];
      var i := 0;
      while i < slots.Length && slots[i] != h && slots[i] != NULL
        invariant i <= slots.Length && forall j | 0 <= j < i :: s[j] != h && s[j] != NULL
      {
        i := i + 1;
      }
      if i < slots.Length && slots[i] != h {
        slots[i] := h;
      }
      assert i == FreeOr(s, h);
      assert i < |s| ==> slots[..] == s[i := h];
      counter := counter + 1;
    }

    method DeleteConnectionFromBuffer(h: Handle)
      requires Valid()
      modifies this`counter, slots
      ensures Valid() && Table(slots[..], counter) == Delete(old(Table(slots[..], counter)), h)
    {
      if counter == 0 {
        return;
      }
      ghost var s := slots[..];
      var index := 0;
      while index < slots.Length && slots[index] != h
        invariant index <= slots.Length && forall j | 0 <= j < index :: s[j] != h
      {
        index := index + 1;
      }
      assert index == IndexOf(s, h);
      if index + 1 == slots.Length {
        slots[index] := NULL;
        assert slots[..] == s[index := NULL];
      } else {
        ShiftDown(index);
      }
      counter := counter - 1;
    }

    /** The shifting loop, which stops after moving an empty slot. */
    method ShiftDown(index: nat)
      requires slots.Length > 0
      modifies slots
      ensures slots[..] == Shift(old(slots[..]), index)
    {
      ghost var s := slots[..];
      var i := index;
      while i < slots.Length - 1
        invariant Shift(s, index) == Shift(slots[..], i)
        decreases slots.Length - i
      {
        ghost var t := slots[..];
        slots[i] := slots[i + 1];
        assert slots[..] == t[i := t[i + 1]];
        if slots[i + 1] == NULL {
          return;
        }
        i := i + 1;
      }
    }

    method IsConnectionInBuffer(h: Handle) returns (found: bool)
      requires Valid()
      ensures found == IsTracked(Table(slots[..], counter), h)
    {
      assert slots[..][..counter] == slots[..counter];
      for i := 0 to counter
        invariant forall j | 0 <= j < i :: slots[j] != h
      {
        if slots[i] == h {
          assert slots[..counter][i] == h;
          return true;
        }
      }
      return false;
    }

    // ----- sending -----

    /** The drain loop: turn k of the environment decides the k-th iteration. */
    method Send(h: Handle, env: nat -> Turn)
      requires h in conns
      modifies this`conns
      ensures conns == old(conns)[h := Drain(old(conns)[h], env, 0)]
    {
      var writeError := ERR_OK;
      var k := 0;
      ghost var c0 := conns[h];
      while writeError == ERR_OK && conns[h].pending != [] && |conns[h].pending[0]| <= env(k).room
        invariant h in conns && conns == old(conns)[h := conns[h]]
        invariant writeError == ERR_OK ==> Drain(c0, env, 0) == Drain(conns[h], env, k)
        invariant writeError != ERR_OK ==> Drain(c0, env, 0) == conns[h]
        decreases |conns[h].pending|, writeError == ERR_OK
      {
        var c := conns[h];
        writeError := env(k).err;
        if writeError == ERR_OK {
          conns := conns[h := c.(pending := c.pending[1..], written := c.written + c.pending[0])];
          k := k + 1;
        }
      }
    }

    /** The chaining loop of tx: buffers are allocated, filled and chained until the data or the
        memory runs out. */
    method Chain(c: Conn, data: seq<byte>, alloc: nat -> bool) returns (r: Conn)
      requires mss > 0 && c.pending == []
      ensures r == Chained(c, data, mss, alloc)
    {
      hide Flatten, Segments;
      ghost var all := Segments(data, mss, alloc, 0);
      FlattenNothing();
      var pending: seq<seq<byte>>, enqueued := [], c.enqueued;
      var at, k := 0, 0;
      assert data[0..] == data;
      while at < |data|
        invariant 0 <= at <= |data|
        invariant enqueued == c.enqueued + Flatten(pending)
        invariant all == pending + Segments(data[at..], mss, alloc, k)
        decreases |data| - at
      {
        SegmentsStep(data, at, mss, alloc, k);
        var rest := |data| - at;
        var payloadSize := if rest < mss then rest else mss;
        if !alloc(k) {
          break;
        }
        var p := data[at..at + payloadSize];
        FlattenSnoc(pending, p);
        assert pending + ([p] + Segments(data[at + payloadSize..], mss, alloc, k + 1))
            == (pending + [p]) + Segments(data[at + payloadSize..], mss, alloc, k + 1);
        pending, enqueued := pending + [p], enqueued + p;
        at := at + payloadSize;
        k := k + 1;
      }
      SegmentsStep(data, at, mss, alloc, k);
      assert pending == all;
      r := c.(pending := pending, enqueued := enqueued);
    }

    /** A transmission to any handle the application has kept: an untracked one is refused
        before its record is read. */
    method Tx(h: Handle, data: seq<byte>, alloc: nat -> bool, env: nat -> Turn)
      requires Valid() && CallSafe(State(), TxTo(h, data, alloc, env))
      modifies this`conns
      ensures Valid() && State() == TxStep(old(State()), h, data, alloc, env)
    {
      hide Chained, Drain, IsTracked;
      var tracked := IsConnectionInBuffer(h);
      if !tracked {
        return;
      }
      if conns[h].pending != [] {
        assert conns == conns[h := conns[h]];
        return;
      }
      var c := Chain(conns[h], data, alloc);
      conns := conns[h := c];
      Send(h, env);
    }

    /** Transmission to every tracked connection. */
    method TxBroadcast(data: seq<byte>, allocs: nat -> nat -> bool, envs: nat -> nat -> Turn)
      requires Valid() && SlotsExist(State())
      modifies this`conns
      ensures Valid() && State() == BroadcastFrom(old(State()), data, allocs, envs, 0)
    {
      hide TxConn, IsTracked;
      ghost var before := State();
      var i := 0;
      while i < counter
        invariant 0 <= i <= counter && Valid() && SlotsExist(State())
        invariant State() == before.(conns := conns)
        invariant BroadcastFrom(before, data, allocs, envs, 0) == BroadcastFrom(State(), data, allocs, envs, i)
      {
        if slots[i] != NULL {
          Tx(slots[i], data, allocs(i), envs(i));
        }
        i := i + 1;
      }
    }

    /** One call of the application. */
    method Perform(c: Call)
      requires Valid() && CallSafe(State(), c)
      modifies this`conns
      ensures Valid() && State() == CallStep(old(State()), c)
    {
      match c {
        case TxTo(h, data, alloc, env) => Tx(h, data, alloc, env);
        case TxAll(data, allocs, envs) => TxBroadcast(data, allocs, envs);
      }
    }

    /** The calls that the application makes from inside its callback. */
    method PerformAll(cs: seq<Call>)
      requires Valid() && forall j | 0 <= j < |cs| :: CallSafe(State(), cs[j])
      modifies this`conns
      ensures Valid() && State() == CallsStep(old(State()), cs)
    {
      hide CallStep;
      ghost var before := State();
      assert cs[0..] == cs;
      for i := 0 to |cs|
        invariant Valid() && SameTable(before, State())
        invariant forall j | 0 <= j < |cs| :: CallSafe(State(), cs[j])
        invariant forall j | 0 <= j < |cs[i..]| :: CallSafe(State(), cs[i..][j])
        invariant CallsStep(before, cs) == CallsStep(State(), cs[i..])
      {
        assert cs[i..][0] == cs[i] && cs[i..][1..] == cs[i + 1..];
        Perform(cs[i]);
        ghost var rest := cs[i + 1..];
        assert forall j | 0 <= j < |rest| :: rest[j] == cs[i + 1 + j];
      }
    }

    // ----- callbacks of the stack -----

    method AcceptConnection(h: Handle, granted: bool)
      requires Valid() && Legal(State(), Accept(h, granted))
      modifies this`counter, this`conns, slots
      ensures Valid() && State() == Step(old(State()), Accept(h, granted))
    {
      if granted {
        conns := conns[h := NEW_CONN];
        AddConnectionToBuffer(h);
      }
    }

    method Close(h: Handle)
      requires Valid() && h in conns
      modifies this`counter, this`conns, this`closed, slots
      ensures Valid() && State() == CloseStep(old(State()), h)
    {
      DeleteConnectionFromBuffer(h);
      closed := closed + [conns[h]];
      conns := conns - {h};
    }

    /** The poll callback; without an argument it aborts the connection of the stack. */
    method Polled(h: Handle, env: nat -> Turn) returns (aborted: bool)
      requires Valid() && Legal(State(), Poll(h, env))
      modifies this`counter, this`conns, this`closed, slots
      ensures Valid() && State() == Step(old(State()), Poll(h, env))
      ensures aborted <==> h == NULL
    {
      aborted := h == NULL;
      if h != NULL {
        if conns[h].pending != [] {
          Send(h, env);
        } else if conns[h].phase == CLOSING {
          Close(h);
        }
      }
    }

    method SentOn(h: Handle, env: nat -> Turn)
      requires Valid() && Legal(State(), Sent(h, env))
      modifies this`counter, this`conns, this`closed, slots
      ensures Valid() && State() == Step(old(State()), Sent(h, env))
    {
      if conns[h].pending != [] {
        Send(h, env);
      } else if conns[h].phase == CLOSING {
        Close(h);
      }
    }

    /** One call of the application with a received chunk. */
    method HandOver(h: Handle, chunk: seq<byte>, cs: seq<Call>)
      requires Valid() && h in conns && WellFormed(Handed(State(), h, chunk))
      requires forall j | 0 <= j < |cs| :: CallSafe(Handed(State(), h, chunk), cs[j])
      modifies this`conns
      ensures Valid() && State() == CallsStep(old(Handed(State(), h, chunk)), cs)
    {
      hide CallsStep;
      ghost var s := State();
      conns := conns[h := conns[h].(delivered := conns[h].delivered + [chunk])];
      assert State() == Handed(s, h, chunk);
      PerformAll(cs);
    }

    /** The loop over a received chain: the application is called with each chunk, and may
        transmit from inside the call, also on this connection. */
    method Deliver(h: Handle, chunks: seq<seq<byte>>, calls: nat -> seq<Call>)
      requires Valid() && h in conns && (listening ==> CallsSafe(State(), calls, |chunks|))
      modifies this`conns
      ensures Valid() && State() == if listening then DeliverFrom(old(State()), h, chunks, calls, 0) else old(State())
    {
      hide CallsStep, CallSafe, Handed;
      ghost var before := State();
      var i := 0;
      while i < |chunks|
        invariant 0 <= i <= |chunks| && Valid() && SameTable(before, State()) && h in conns
        invariant listening ==> CallsSafe(State(), calls, |chunks|)
        invariant listening ==> DeliverFrom(before, h, chunks, calls, 0) == DeliverFrom(State(), h, chunks, calls, i)
        invariant !listening ==> State() == before
      {
        if listening {
          ghost var s := State();
          SameTableIsSafe(s, Handed(s, h, chunks[i]), calls, |chunks|);
          HandOver(h, chunks[i], calls(i));
          SameTableIsSafe(s, State(), calls, |chunks|);
        }
        i := i + 1;
      }
    }

    method ReceiveData(h: Handle, chunks: Option<seq<seq<byte>>>, err: Err, env: nat -> Turn, calls: nat -> seq<Call>)
      requires Valid() && h in conns && Safe(State(), Receive(h, chunks, err, env, calls))
      modifies this`counter, this`conns, this`closed, slots
      ensures Valid() && State() == Step(old(State()), Receive(h, chunks, err, env, calls))
    {
      hide DeliverFrom, CallsSafe, Drain, Delete;
      if chunks.None? {
        conns := conns[h := conns[h].(phase := CLOSING)];
        if conns[h].pending == [] {
          Close(h);
        } else {
          Send(h, env);
        }
      } else if err != ERR_OK {
      } else if conns[h].phase == ACCEPTED {
        Deliver(h, chunks.value, calls);
      }
    }

    method ErrorOccurred(h: Handle)
      requires Valid() && Legal(State(), Error(h))
      modifies this`counter, this`conns, slots
      ensures Valid() && State() == Step(old(State()), Error(h))
    {
      if h != NULL {
        DeleteConnectionFromBuffer(h);
        conns := conns - {h};
      }
    }
  }
}
