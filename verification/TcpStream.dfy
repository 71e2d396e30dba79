/** Which octets the TCP stack has accepted: an account of every tcp_write of a run, kept apart from
    the channel, against what the channel records as written. */
module TcpStream {
  import opened Bytes
  import opened TcpConnectionTable
  import opened TcpChannel

  // ----- one drain -----

  /** The stack takes the chunk: it has room for it, and the write succeeds. */
  predicate Takes(turn: Turn, chunk: seq<byte>) {
    turn.err == ERR_OK && |chunk| <= turn.room
  }

  /** How many chunks of a chain the stack takes in turns k, k + 1 and so on, before it refuses
      one or the chain ends. */
  function Taken(pending: seq<seq<byte>>, env: nat -> Turn, k: nat): (n: nat)
    ensures n <= |pending|
    ensures forall j | 0 <= j < n :: Takes(env(k + j), pending[j])
    ensures n < |pending| ==> !Takes(env(k + n), pending[n])
    decreases |pending|
  {
    if pending == [] || !Takes(env(k), pending[0]) then 0
    else
      var n := Taken(pending[1..], env, k + 1);
      assert forall j | 0 < j < n + 1 :: k + j == k + 1 + (j - 1) && pending[j] == pending[1..][j - 1];
      n + 1
  }

  /** The drain loop writes exactly the chunks that the stack takes, in order, and keeps exactly
      the others: a refused chunk and all that follow it stay in the chain. */
  lemma {:induction false} DrainExactly(c: Conn, env: nat -> Turn, k: nat)
    ensures var n := Taken(c.pending, env, k);
            Drain(c, env, k) == c.(pending := c.pending[n..], written := c.written + Flatten(c.pending[..n]))
    decreases |c.pending|
  {
    hide Drain, Taken, Flatten, Takes;
    DrainStep(c, env, k);
    var n := Taken(c.pending, env, k);
    if n == 0 {
      assert c.pending[0..] == c.pending && c.pending[..0] == [];
      FlattenNothing();
      assert c.written + [] == c.written;
    } else {
      var c1 := c.(pending := c.pending[1..], written := c.written + c.pending[0]);
      DrainExactly(c1, env, k + 1);
      assert c.pending[1..][n - 1..] == c.pending[n..];
      assert c.pending[..n] == [c.pending[0]] + c.pending[1..][..n - 1];
      FlattenCons(c.pending[0], c.pending[1..][..n - 1]);
      assert c.written + c.pending[0] + Flatten(c.pending[1..][..n - 1])
          == c.written + (c.pending[0] + Flatten(c.pending[1..][..n - 1]));
    }
  }

  /** One turn of the loop. */
  lemma DrainStep(c: Conn, env: nat -> Turn, k: nat)
    ensures if c.pending == [] || !Takes(env(k), c.pending[0]) then
              Taken(c.pending, env, k) == 0 && Drain(c, env, k) == c
            else
              && Taken(c.pending, env, k) == 1 + Taken(c.pending[1..], env, k + 1)
              && Drain(c, env, k) == Drain(c.(pending := c.pending[1..], written := c.written + c.pending[0]), env, k + 1)
  {
  }

  lemma FlattenCons(x: seq<byte>, chunks: seq<seq<byte>>)
    ensures Flatten([x] + chunks) == x + Flatten(chunks)
  {
    assert ([x] + chunks)[1..] == chunks;
  }

  /** An input that tells the two apart: a chunk that fits but is refused for lack of memory is
      kept, and nothing counts as written. */
  lemma RefusedChunkIsKept(c: Conn, chunk: seq<byte>, env: nat -> Turn)
    requires c.pending == [chunk] && env(0) == Turn(|chunk|, ERR_MEM)
    ensures Drain(c, env, 0) == c
  {
  }

  // ----- the account of a run -----

  function Octets(pending: seq<seq<byte>>, env: nat -> Turn): seq<byte> {
    Flatten(pending[..Taken(pending, env, 0)])
  }

  /** What the stack takes on connection x during a transmission to h. */
  function TxOctets(ch: Channel, h: Handle, data: seq<byte>, alloc: nat -> bool, env: nat -> Turn, x: Handle): seq<byte>
    requires WellFormed(ch) && (IsTracked(ch.table, h) ==> h in ch.conns)
  {
    if x == h && IsTracked(ch.table, h) && ch.conns[h].pending == [] then Octets(Segments(data, ch.mss, alloc, 0), env)
    else []
  }

  function BroadcastOctets(ch: Channel, data: seq<byte>, allocs: nat -> nat -> bool, envs: nat -> nat -> Turn, i: nat, x: Handle): seq<byte>
    requires WellFormed(ch) && SlotsExist(ch)
    decreases ch.table.counter - i
  {
    if i >= ch.table.counter then []
    else
      var h := ch.table.slots[i];
      if h == NULL then BroadcastOctets(ch, data, allocs, envs, i + 1, x)
      else
        TxOctets(ch, h, data, allocs(i), envs(i), x)
        + BroadcastOctets(TxStep(ch, h, data, allocs(i), envs(i)), data, allocs, envs, i + 1, x)
  }

  function CallOctets(ch: Channel, c: Call, x: Handle): seq<byte>
    requires WellFormed(ch) && CallSafe(ch, c)
  {
    match c
    case TxTo(h, data, alloc, env) => TxOctets(ch, h, data, alloc, env, x)
    case TxAll(data, allocs, envs) => BroadcastOctets(ch, data, allocs, envs, 0, x)
  }

  function CallsOctets(ch: Channel, cs: seq<Call>, x: Handle): seq<byte>
    requires WellFormed(ch) && forall j | 0 <= j < |cs| :: CallSafe(ch, cs[j])
    decreases |cs|
  {
    if cs == [] then []
    else
      assert forall j | 0 <= j < |cs[1..]| :: CallSafe(ch, cs[1..][j]) by {
        assert forall j | 0 <= j < |cs[1..]| :: cs[1..][j] == cs[j + 1];
      }
      CallOctets(ch, cs[0], x) + CallsOctets(CallStep(ch, cs[0]), cs[1..], x)
  }

  ghost function DeliverOctets(ch: Channel, h: Handle, chunks: seq<seq<byte>>, calls: nat -> seq<Call>, i: nat, x: Handle): seq<byte>
    requires WellFormed(ch) && h in ch.conns && CallsSafe(ch, calls, |chunks|)
    decreases |chunks| - i
  {
    if i >= |chunks| then []
    else
      var ch1 := Handed(ch, h, chunks[i]);
      CallsOctets(ch1, calls(i), x) + DeliverOctets(CallsStep(ch1, calls(i)), h, chunks, calls, i + 1, x)
  }

  /** What the stack takes on connection x during an event. */
  ghost function EventOctets(ch: Channel, e: Event, x: Handle): seq<byte>
    requires WellFormed(ch) && Legal(ch, e) && Safe(ch, e)
  {
    match e
    case Accept(_, _) => []
    case App(c) => CallOctets(ch, c, x)
    case Receive(h, chunks, _, env, calls) =>
      if chunks.None? then (if x == h then Octets(ch.conns[h].pending, env) else [])
      else if Delivers(ch, e) then DeliverOctets(ch, h, chunks.value, calls, 0, x)
      else []
    case Sent(h, env) => if x == h then Octets(ch.conns[h].pending, env) else []
    case Poll(h, env) => if x == h != NULL then Octets(ch.conns[h].pending, env) else []
    case Error(_) => []
  }

  lemma TxAccounts(ch: Channel, h: Handle, data: seq<byte>, alloc: nat -> bool, env: nat -> Turn, x: Handle)
    requires WellFormed(ch) && (IsTracked(ch.table, h) ==> h in ch.conns) && x in ch.conns
    ensures TxStep(ch, h, data, alloc, env).conns[x].written
            == ch.conns[x].written + TxOctets(ch, h, data, alloc, env, x)
  {
    hide Drain, Flatten, Segments, IsTracked;
    if x == h && IsTracked(ch.table, h) && ch.conns[h].pending == [] {
      DrainExactly(Chained(ch.conns[h], data, ch.mss, alloc), env, 0);
    }
  }

  lemma {:induction false} BroadcastAccounts(ch: Channel, data: seq<byte>, allocs: nat -> nat -> bool, envs: nat -> nat -> Turn,
                                             i: nat, x: Handle)
    requires WellFormed(ch) && SlotsExist(ch) && x in ch.conns
    ensures BroadcastFrom(ch, data, allocs, envs, i).conns[x].written
            == ch.conns[x].written + BroadcastOctets(ch, data, allocs, envs, i, x)
    decreases ch.table.counter - i
  {
    hide TxConn, TxOctets, IsTracked;
    if i < ch.table.counter {
      var h := ch.table.slots[i];
      if h == NULL {
        BroadcastAccounts(ch, data, allocs, envs, i + 1, x);
      } else {
        var ch1 := TxStep(ch, h, data, allocs(i), envs(i));
        TxAccounts(ch, h, data, allocs(i), envs(i), x);
        BroadcastAccounts(ch1, data, allocs, envs, i + 1, x);
        Assoc(ch.conns[x].written, TxOctets(ch, h, data, allocs(i), envs(i), x), BroadcastOctets(ch1, data, allocs, envs, i + 1, x));
      }
    }
  }

  lemma Assoc(a: seq<byte>, b: seq<byte>, c: seq<byte>)
    ensures a + b + c == a + (b + c)
  {
  }

  lemma CallAccounts(ch: Channel, c: Call, x: Handle)
    requires WellFormed(ch) && CallSafe(ch, c) && x in ch.conns
    ensures CallStep(ch, c).conns[x].written == ch.conns[x].written + CallOctets(ch, c, x)
  {
    hide TxConn, TxOctets, IsTracked, BroadcastFrom, BroadcastOctets, TxStep;
    match c
    case TxTo(h, data, alloc, env) => TxAccounts(ch, h, data, alloc, env, x);
    case TxAll(data, allocs, envs) => BroadcastAccounts(ch, data, allocs, envs, 0, x);
  }

  lemma {:induction false} CallsAccount(ch: Channel, cs: seq<Call>, x: Handle)
    requires WellFormed(ch) && (forall j | 0 <= j < |cs| :: CallSafe(ch, cs[j])) && x in ch.conns
    ensures CallsStep(ch, cs).conns[x].written == ch.conns[x].written + CallsOctets(ch, cs, x)
    decreases |cs|
  {
    hide CallStep, CallOctets;
    if cs != [] {
      CallAccounts(ch, cs[0], x);
      CallsAccount(CallStep(ch, cs[0]), cs[1..], x);
      Assoc(ch.conns[x].written, CallOctets(ch, cs[0], x), CallsOctets(CallStep(ch, cs[0]), cs[1..], x));
    }
  }

  lemma {:induction false} DeliverAccounts(ch: Channel, h: Handle, chunks: seq<seq<byte>>, calls: nat -> seq<Call>, i: nat, x: Handle)
    requires WellFormed(ch) && h in ch.conns && CallsSafe(ch, calls, |chunks|) && x in ch.conns
    ensures DeliverFrom(ch, h, chunks, calls, i).conns[x].written
            == ch.conns[x].written + DeliverOctets(ch, h, chunks, calls, i, x)
    decreases |chunks| - i
  {
    hide CallsStep, CallsOctets;
    if i < |chunks| {
      var ch1 := Handed(ch, h, chunks[i]);
      CallsAccount(ch1, calls(i), x);
      var ch2 := CallsStep(ch1, calls(i));
      DeliverAccounts(ch2, h, chunks, calls, i + 1, x);
      Assoc(ch.conns[x].written, CallsOctets(ch1, calls(i), x), DeliverOctets(ch2, h, chunks, calls, i + 1, x));
    }
  }

  lemma DrainOrCloseAccounts(ch: Channel, h: Handle, env: nat -> Turn, x: Handle)
    requires h in ch.conns && x in ch.conns && x in DrainOrClose(ch, h, env).conns
    ensures DrainOrClose(ch, h, env).conns[x].written
            == ch.conns[x].written + if x == h then Octets(ch.conns[h].pending, env) else []
  {
    DrainExactly(ch.conns[h], env, 0);
    assert Flatten([]) == [];
    hide Drain, Flatten, Delete;
  }

  /** Every event adds to the written octets of a connection exactly what the stack takes on it. */
  lemma StepAccounts(ch: Channel, e: Event, x: Handle)
    requires WellFormed(ch) && Legal(ch, e) && Safe(ch, e) && x in ch.conns && x in Step(ch, e).conns
    ensures Step(ch, e).conns[x].written == ch.conns[x].written + EventOctets(ch, e, x)
  {
    hide CallStep, CallOctets, DeliverFrom, DeliverOctets, DrainOrClose, Octets, Delete, Add;
    match e
    case Accept(h, granted) =>
    case App(c) => CallAccounts(ch, c, x);
    case Receive(h, chunks, err, env, calls) =>
      if chunks.None? {
        DrainOrCloseAccounts(ch.(conns := ch.conns[h := ch.conns[h].(phase := CLOSING)]), h, env, x);
      } else if Delivers(ch, e) {
        DeliverAccounts(ch, h, chunks.value, calls, 0, x);
      }
    case Sent(h, env) => DrainOrCloseAccounts(ch, h, env, x);
    case Poll(h, env) =>
      if h != NULL {
        DrainOrCloseAccounts(ch, h, env, x);
      }
    case Error(h) =>
  }

  /** The account of a run for connection x; it starts anew when x is accepted. */
  ghost function RunOctets(ch: Channel, events: seq<Event>, x: Handle, sofar: seq<byte>): seq<byte>
    requires IsRun(ch, events)
    decreases |events|
  {
    if events == [] then sofar
    else
      RunOctets(Step(ch, events[0]), events[1..], x,
                if events[0].Accept? && events[0].h == x then [] else sofar + EventOctets(ch, events[0], x))
  }

  /** Over every run, what a connection records as written is exactly what the stack has taken on
      it since it was accepted: no refused octet is ever among it. */
  lemma {:induction false} RunAccounts(ch: Channel, events: seq<Event>, x: Handle, sofar: seq<byte>)
    requires IsRun(ch, events) && (x in ch.conns ==> ch.conns[x].written == sofar)
    requires x in Run(ch, events).conns
    ensures Run(ch, events).conns[x].written == RunOctets(ch, events, x, sofar)
    decreases |events|
  {
    if events != [] {
      var e := events[0];
      var ch1 := Step(ch, e);
      StepFrame(ch, e);
      if x in ch.conns && x in ch1.conns {
        StepAccounts(ch, e, x);
      }
      if e.Accept? && e.h == x && x in ch1.conns {
        assert ch1.conns[x] == NEW_CONN;
      } else {
        assert x in ch1.conns.Keys ==> x in ch.conns.Keys;
      }
      hide Step, EventOctets, Removes, Add, Delete;
      RunAccounts(ch1, events[1..], x, if e.Accept? && e.h == x then [] else sofar + EventOctets(ch, e, x));
    }
  }

  // ----- what an event leaves alone -----

  /** A callback concerns its own connection only: every other one keeps its record. */
  lemma OthersAreUntouched(ch: Channel, e: Event, x: Handle)
    requires WellFormed(ch) && Legal(ch, e) && Safe(ch, e) && x in ch.conns
    requires !e.App? && !Delivers(ch, e) && e.h != x
    ensures x in Step(ch, e).conns && Step(ch, e).conns[x] == ch.conns[x]
  {
    hide Drain, Delete, Add;
  }

  /** So does a transmission. */
  lemma TxTouchesOne(ch: Channel, h: Handle, data: seq<byte>, alloc: nat -> bool, env: nat -> Turn, x: Handle)
    requires WellFormed(ch) && (IsTracked(ch.table, h) ==> h in ch.conns) && x in ch.conns && x != h
    ensures TxStep(ch, h, data, alloc, env).conns[x] == ch.conns[x]
  {
    hide TxConn, IsTracked;
  }

  /** The events that change nothing: an accept without memory, a transmission to an untracked
      or busy connection, data with an error, without a callback or after the end of the stream,
      a sent or poll callback when nothing is pending and the peer has not closed, and callbacks
      without an argument. */
  predicate Idle(ch: Channel, e: Event)
    requires WellFormed(ch) && Legal(ch, e)
  {
    match e
    case Accept(_, granted) => !granted
    case App(c) => c.TxTo? && (c.h !in ch.table.slots[..ch.table.counter] || (c.h in ch.conns && ch.conns[c.h].pending != []))
    case Receive(h, chunks, err, _, _) =>
      chunks.Some? && (err != ERR_OK || ch.conns[h].phase != ACCEPTED || !ch.listening)
    case Sent(h, _) => ch.conns[h].pending == [] && ch.conns[h].phase != CLOSING
    case Poll(h, _) => h == NULL || (ch.conns[h].pending == [] && ch.conns[h].phase != CLOSING)
    case Error(h) => h == NULL
  }

  lemma IdleChangesNothing(ch: Channel, e: Event)
    requires WellFormed(ch) && Legal(ch, e) && Safe(ch, e) && Idle(ch, e)
    ensures Step(ch, e) == ch
  {
    hide Drain, Delete, Add, Segments, Chained;
    if e.App? && e.call.TxTo? && e.call.h in ch.conns {
      assert ch.conns[e.call.h := ch.conns[e.call.h]] == ch.conns;
    }
  }

  /** An accepted connection starts open and empty. */
  lemma AcceptStarts(ch: Channel, h: Handle)
    requires WellFormed(ch) && h != NULL && h !in ch.conns
    ensures var ch' := Step(ch, Accept(h, true));
            h in ch'.conns && ch'.conns[h] == Conn(ACCEPTED, [], [], [], [])
  {
    hide Add;
  }

  /** Data that arrives without an error on an open connection is handed to the application, all
      of it and in order. */
  lemma DataIsDelivered(ch: Channel, h: Handle, chunks: seq<seq<byte>>, env: nat -> Turn, calls: nat -> seq<Call>)
    requires WellFormed(ch) && h in ch.conns && ch.conns[h].phase == ACCEPTED && ch.listening
    requires Safe(ch, Receive(h, Some(chunks), ERR_OK, env, calls))
    ensures var ch' := Step(ch, Receive(h, Some(chunks), ERR_OK, env, calls));
            h in ch'.conns && ch'.conns[h].delivered == ch.conns[h].delivered + chunks
  {
    hide DeliverFrom, CallSafe;
    DeliverAppends(ch, h, chunks, calls, 0);
    assert chunks[0..] == chunks;
  }

  // ----- the end of the stream -----

  /** From the end of the peer's stream to the closed connection: the event makes the connection
      wait for its closing, or closes it at once when nothing is pending; once the stack takes
      what is pending, two polls close it, with everything written that was ever enqueued. */
  lemma EndOfStreamCloses(ch: Channel, h: Handle, err: Err, env0: nat -> Turn, calls: nat -> seq<Call>,
                          env1: nat -> Turn, env2: nat -> Turn)
    requires WellFormed(ch) && h in ch.conns && Conserved(ch.conns[h])
    requires var ch1 := Step(ch, Receive(h, None, err, env0, calls));
             h in ch1.conns ==> Generous(ch1.conns[h].pending, env1, 0)
    ensures var ch1 := Step(ch, Receive(h, None, err, env0, calls));
            && WellFormed(ch1)
            && (h !in ch1.conns <==> ch.conns[h].pending == [])
            && (h in ch1.conns ==> ch1.conns[h].phase == CLOSING && ch1.table == ch.table)
            && var ch2 := if h in ch1.conns then Step(ch1, Poll(h, env1)) else ch1;
            && WellFormed(ch2)
            && var ch3 := if h in ch2.conns then Step(ch2, Poll(h, env2)) else ch2;
            && h !in ch3.conns && |ch3.closed| == |ch.closed| + 1
            && ch3.closed[|ch.closed|].written == ch.conns[h].enqueued
  {
    var e := Receive(h, None, err, env0, calls);
    StepFrame(ch, e);
    var ch1 := Step(ch, e);
    var c := ch.conns[h];
    DrainConserves(c.(phase := CLOSING), env0, 0);
    assert Flatten([]) == [];
    if c.pending != [] {
      assert ch1 == ch.(conns := ch1.conns) && ch1.conns[h] == Drain(c.(phase := CLOSING), env0, 0);
      TwoPollsClose(ch1, h, env1, env2);
      StepFrame(ch1, Poll(h, env1));
    }
    hide Drain, Flatten, Delete, Step;
  }
}
