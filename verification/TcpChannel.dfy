/** The TCP server channel as a state machine: its connections, the callbacks of the TCP stack,
    and what holds over every run. The stack is an environment: it decides how much room its
    send buffer has, what each tcp_write returns, and which allocations succeed. */
module TcpChannel {
  import opened Bytes
  import opened TcpConnectionTable

  datatype Err = ERR_OK | ERR_MEM | ERR_OTHER
  datatype Phase = NONE | ACCEPTED | CLOSING

  /** What the k-th turn of a drain loop meets: free octets in the send buffer, and the result
      of the write. */
  datatype Turn = Turn(room: nat, err: Err)

  /** One connection: pending is the pbuf chain that waits to be sent; the three streams record
      what tx chained, what tcp_write accepted, and the chunks given to the callback. */
  datatype Conn = Conn(phase: Phase, pending: seq<seq<byte>>, enqueued: seq<byte>, written: seq<byte>,
                       delivered: seq<seq<byte>>)

  const NEW_CONN := Conn(ACCEPTED, [], [], [], [])

  function Flatten(chunks: seq<seq<byte>>): seq<byte> {
    if chunks == [] then [] else chunks[0] + Flatten(chunks[1..])
  }

  lemma FlattenNothing()
    ensures Flatten([]) == []
  {
  }

  lemma {:induction false} FlattenSnoc(chunks: seq<seq<byte>>, x: seq<byte>)
    ensures Flatten(chunks + [x]) == Flatten(chunks) + x
  {
    if chunks == [] {
      assert chunks + [x] == [x];
      assert Flatten([x]) == x + Flatten([x][1..]);
    } else {
      FlattenSnoc(chunks[1..], x);
      assert (chunks + [x])[1..] == chunks[1..] + [x];
    }
  }

  // ----- one connection -----

  /** The drain loop from turn k on: chunks leave the chain while they fit and are accepted. */
  function Drain(c: Conn, env: nat -> Turn, k: nat): Conn
    decreases |c.pending|
  {
    if c.pending == [] || |c.pending[0]| > env(k).room || env(k).err != ERR_OK then c
    else Drain(c.(pending := c.pending[1..], written := c.written + c.pending[0]), env, k + 1)
  }

  /** Cutting data into chunks of at most mss octets until a chunk cannot be allocated. */
  function Segments(data: seq<byte>, mss: nat, alloc: nat -> bool, k: nat): seq<seq<byte>>
    requires mss > 0
    decreases |data|
  {
    if data == [] || !alloc(k) then []
    else
      var n := if |data| < mss then |data| else mss;
      [data[..n]] + Segments(data[n..], mss, alloc, k + 1)
  }

  lemma SegmentsStep(data: seq<byte>, at: nat, mss: nat, alloc: nat -> bool, k: nat)
    requires mss > 0 && at <= |data|
    ensures var n := if |data| - at < mss then |data| - at else mss;
            Segments(data[at..], mss, alloc, k)
            == if at == |data| || !alloc(k) then []
               else [data[at..at + n]] + Segments(data[at + n..], mss, alloc, k + 1)
  {
    if at < |data| {
      var n := if |data| - at < mss then |data| - at else mss;
      assert data[at..][..n] == data[at..at + n] && data[at..][n..] == data[at + n..];
    }
  }

  /** The connection once the data has been cut and chained. */
  function Chained(c: Conn, data: seq<byte>, mss: nat, alloc: nat -> bool): Conn
    requires mss > 0
  {
    var chunks := Segments(data, mss, alloc, 0);
    c.(pending := chunks, enqueued := c.enqueued + Flatten(chunks))
  }

  /** tx on a tracked connection: data is dropped while an earlier chain is still pending. */
  function TxConn(c: Conn, data: seq<byte>, mss: nat, alloc: nat -> bool, env: nat -> Turn): Conn
    requires mss > 0
  {
    if c.pending != [] then c else Drain(Chained(c, data, mss, alloc), env, 0)
  }

  /** Every octet that tx chained has been written or is still pending, in order. */
  ghost predicate Conserved(c: Conn) {
    c.enqueued == c.written + Flatten(c.pending)
  }

  lemma {:induction false} DrainConserves(c: Conn, env: nat -> Turn, k: nat)
    requires Conserved(c)
    ensures var c' := Drain(c, env, k);
            Conserved(c') && c'.enqueued == c.enqueued && c'.phase == c.phase && c'.delivered == c.delivered
            && |c'.pending| <= |c.pending|
    decreases |c.pending|
  {
    if c.pending != [] && |c.pending[0]| <= env(k).room && env(k).err == ERR_OK {
      var c1 := c.(pending := c.pending[1..], written := c.written + c.pending[0]);
      assert c.written + (c.pending[0] + Flatten(c.pending[1..])) == c1.written + Flatten(c1.pending);
      DrainConserves(c1, env, k + 1);
    }
  }

  lemma PrefixOfTail(data: seq<byte>, n: nat, t: seq<byte>)
    requires n <= |data| && t <= data[n..]
    ensures data[..n] + t <= data && (data[..n] + t == data <==> t == data[n..])
  {
    assert data == data[..n] + data[n..];
  }

  /** What is chained is always a prefix of the data; it is all of the data when every
      allocation succeeds, and otherwise ends at the first failure. */
  lemma {:induction false} SegmentsArePrefix(data: seq<byte>, mss: nat, alloc: nat -> bool, k: nat)
    requires mss > 0
    ensures Flatten(Segments(data, mss, alloc, k)) <= data
    ensures Flatten(Segments(data, mss, alloc, k)) < data ==> !alloc(k + |Segments(data, mss, alloc, k)|)
    decreases |data|
  {
    if data != [] && alloc(k) {
      var n := if |data| < mss then |data| else mss;
      SegmentsArePrefix(data[n..], mss, alloc, k + 1);
      var rest := Segments(data[n..], mss, alloc, k + 1);
      var all := [data[..n]] + rest;
      assert all == Segments(data, mss, alloc, k);
      assert all[1..] == rest && Flatten(all) == data[..n] + Flatten(rest);
      hide Segments, Flatten;
      PrefixOfTail(data, n, Flatten(rest));
    }
  }

  /** Every chunk but the last is a full segment, and none is empty. */
  lemma {:induction false} SegmentsAreFull(data: seq<byte>, mss: nat, alloc: nat -> bool, k: nat)
    requires mss > 0
    ensures forall i | 0 <= i < |Segments(data, mss, alloc, k)| :: 0 < |Segments(data, mss, alloc, k)[i]| <= mss
    ensures forall i | 0 <= i < |Segments(data, mss, alloc, k)| - 1 :: |Segments(data, mss, alloc, k)[i]| == mss
    decreases |data|
  {
    if data != [] && alloc(k) {
      SegmentsAreFull(data[if |data| < mss then |data| else mss..], mss, alloc, k + 1);
    }
  }

  lemma TxConserves(c: Conn, data: seq<byte>, mss: nat, alloc: nat -> bool, env: nat -> Turn)
    requires mss > 0 && Conserved(c)
    ensures var c' := TxConn(c, data, mss, alloc, env);
            && Conserved(c') && c.enqueued <= c'.enqueued <= c.enqueued + data
            && ((forall k :: alloc(k)) && c.pending == [] ==> c'.enqueued == c.enqueued + data)
  {
    if c.pending == [] {
      SegmentsArePrefix(data, mss, alloc, 0);
      assert Flatten([]) == [];
      DrainConserves(Chained(c, data, mss, alloc), env, 0);
    }
  }

  // ----- the channel -----

  datatype Channel = Channel(mss: nat, listening: bool, table: Table, conns: map<Handle, Conn>, closed: seq<Conn>)

  /** What the application may ask for: a transmission to one connection, named by any handle it
      has kept, or to all of them. */
  datatype Call =
    | TxTo(h: Handle, data: seq<byte>, alloc: nat -> bool, env: nat -> Turn)
    | TxAll(data: seq<byte>, allocs: nat -> nat -> bool, envs: nat -> nat -> Turn)

  /** The calls of the application and the callbacks of the stack. During a receive callback the
      application is handed the chunks one by one, and makes the calls calls(i) on chunk i. */
  datatype Event =
    | Accept(h: Handle, granted: bool)
    | App(call: Call)
    | Receive(h: Handle, chunks: Option<seq<seq<byte>>>, err: Err, env: nat -> Turn, calls: nat -> seq<Call>)
    | Sent(h: Handle, env: nat -> Turn)
    | Poll(h: Handle, env: nat -> Turn)
    | Error(h: Handle)

  predicate WellFormed(ch: Channel) {
    ch.mss > 0 && ch.table.counter <= |ch.table.slots| && |ch.table.slots| > 0 && NULL !in ch.conns
  }

  /** What the stack guarantees: a new connection has a new handle, and the callbacks are about
      connections that exist. Poll and error may also come with a null argument. The application
      guarantees nothing. */
  predicate Legal(ch: Channel, e: Event) {
    match e
    case Accept(h, _) => h != NULL && h !in ch.conns
    case App(_) => true
    case Poll(h, _) => h == NULL || h in ch.conns
    case Error(h) => h == NULL || h in ch.conns
    case _ => e.h in ch.conns
  }

  /** The counted slots are empty or hold open connections. */
  predicate SlotsExist(ch: Channel) {
    ch.table.counter <= |ch.table.slots|
    && forall i | 0 <= i < ch.table.counter :: ch.table.slots[i] == NULL || ch.table.slots[i] in ch.conns
  }

  /** The call reads no record that has been released: tx reads the record of a tracked handle
      only, and a broadcast reads those of all counted slots. */
  predicate CallSafe(ch: Channel, c: Call)
    requires WellFormed(ch)
  {
    match c
    case TxTo(h, _, _, _) => IsTracked(ch.table, h) ==> h in ch.conns
    case TxAll(_, _, _) => SlotsExist(ch)
  }

  ghost predicate CallsSafe(ch: Channel, calls: nat -> seq<Call>, n: nat)
    requires WellFormed(ch)
  {
    forall i, j | 0 <= i < n && 0 <= j < |calls(i)| :: CallSafe(ch, calls(i)[j])
  }

  /** Does the event hand data to the application? */
  predicate Delivers(ch: Channel, e: Event) {
    && e.Receive? && e.chunks.Some? && e.err == ERR_OK
    && e.h in ch.conns && ch.conns[e.h].phase == ACCEPTED && ch.listening
  }

  ghost predicate Safe(ch: Channel, e: Event)
    requires WellFormed(ch)
  {
    && (e.App? ==> CallSafe(ch, e.call))
    && (Delivers(ch, e) ==> CallsSafe(ch, e.calls, |e.chunks.value|))
  }

  /** Nothing but the records of the open connections differs. */
  predicate SameTable(ch: Channel, r: Channel) {
    r == ch.(conns := r.conns) && r.conns.Keys == ch.conns.Keys
  }

  function TxStep(ch: Channel, h: Handle, data: seq<byte>, alloc: nat -> bool, env: nat -> Turn): (r: Channel)
    requires WellFormed(ch) && (IsTracked(ch.table, h) ==> h in ch.conns)
    ensures SameTable(ch, r)
  {
    if !IsTracked(ch.table, h) then ch
    else ch.(conns := ch.conns[h := TxConn(ch.conns[h], data, ch.mss, alloc, env)])
  }

  /** Transmission to all tracked connections, from slot i on. */
  function BroadcastFrom(ch: Channel, data: seq<byte>, allocs: nat -> nat -> bool, envs: nat -> nat -> Turn, i: nat): (r: Channel)
    requires WellFormed(ch) && SlotsExist(ch)
    ensures SameTable(ch, r)
    decreases ch.table.counter - i
  {
    if i >= ch.table.counter then ch
    else
      var h := ch.table.slots[i];
      BroadcastFrom(if h == NULL then ch else TxStep(ch, h, data, allocs(i), envs(i)), data, allocs, envs, i + 1)
  }

  function CallStep(ch: Channel, c: Call): (r: Channel)
    requires WellFormed(ch) && CallSafe(ch, c)
    ensures SameTable(ch, r)
  {
    match c
    case TxTo(h, data, alloc, env) => TxStep(ch, h, data, alloc, env)
    case TxAll(data, allocs, envs) => BroadcastFrom(ch, data, allocs, envs, 0)
  }

  function CallsStep(ch: Channel, cs: seq<Call>): (r: Channel)
    requires WellFormed(ch) && forall j | 0 <= j < |cs| :: CallSafe(ch, cs[j])
    ensures SameTable(ch, r)
    decreases |cs|
  {
    if cs == [] then ch
    else
      assert forall j | 0 <= j < |cs[1..]| :: CallSafe(ch, cs[1..][j]) by {
        assert forall j | 0 <= j < |cs[1..]| :: cs[1..][j] == cs[j + 1];
      }
      CallsStep(CallStep(ch, cs[0]), cs[1..])
  }

  function Handed(ch: Channel, h: Handle, chunk: seq<byte>): (r: Channel)
    requires h in ch.conns
    ensures SameTable(ch, r)
  {
    ch.(conns := ch.conns[h := ch.conns[h].(delivered := ch.conns[h].delivered + [chunk])])
  }

  /** The delivery loop from chunk i on: the callback gets the chunk, and makes its calls. */
  ghost function DeliverFrom(ch: Channel, h: Handle, chunks: seq<seq<byte>>, calls: nat -> seq<Call>, i: nat): (r: Channel)
    requires WellFormed(ch) && h in ch.conns && CallsSafe(ch, calls, |chunks|)
    ensures SameTable(ch, r)
    decreases |chunks| - i
  {
    if i >= |chunks| then ch
    else DeliverFrom(CallsStep(Handed(ch, h, chunks[i]), calls(i)), h, chunks, calls, i + 1)
  }

  /** Safety of calls depends on the table and on which connections are open, nothing else. */
  lemma SameTableIsSafe(ch: Channel, r: Channel, calls: nat -> seq<Call>, n: nat)
    requires WellFormed(ch) && SameTable(ch, r) && CallsSafe(ch, calls, n)
    ensures WellFormed(r) && CallsSafe(r, calls, n)
  {
  }

  function CloseStep(ch: Channel, h: Handle): Channel
    requires h in ch.conns
  {
    ch.(table := Delete(ch.table, h), conns := ch.conns - {h}, closed := ch.closed + [ch.conns[h]])
  }

  /** Poll and sent do the same: drain what is pending, or close a connection whose peer has
      closed. */
  function DrainOrClose(ch: Channel, h: Handle, env: nat -> Turn): Channel
    requires h in ch.conns
  {
    var c := ch.conns[h];
    if c.pending != [] then ch.(conns := ch.conns[h := Drain(c, env, 0)])
    else if c.phase == CLOSING then CloseStep(ch, h)
    else ch
  }

  ghost function Step(ch: Channel, e: Event): Channel
    requires WellFormed(ch) && Legal(ch, e) && Safe(ch, e)
  {
    match e
    case Accept(h, granted) =>
      if granted then ch.(conns := ch.conns[h := NEW_CONN], table := Add(ch.table, h)) else ch
    case App(c) => CallStep(ch, c)
    case Receive(h, chunks, err, env, calls) =>
      if chunks.None? then
        DrainOrClose(ch.(conns := ch.conns[h := ch.conns[h].(phase := CLOSING)]), h, env)
      else if Delivers(ch, e) then DeliverFrom(ch, h, chunks.value, calls, 0)
      else ch
    case Sent(h, env) => DrainOrClose(ch, h, env)
    case Poll(h, env) => if h == NULL then ch else DrainOrClose(ch, h, env)
    case Error(h) => if h == NULL then ch else ch.(table := Delete(ch.table, h), conns := ch.conns - {h})
  }

  /** Does the event release the record of its connection? */
  predicate Removes(ch: Channel, e: Event)
    requires Legal(ch, e)
  {
    match e
    case Receive(h, chunks, _, _, _) => chunks.None? && ch.conns[h].pending == []
    case Sent(h, _) => ch.conns[h].pending == [] && ch.conns[h].phase == CLOSING
    case Poll(h, _) => h != NULL && ch.conns[h].pending == [] && ch.conns[h].phase == CLOSING
    case Error(h) => h != NULL
    case _ => false
  }

  /** What an event does to the table and to the set of handles. */
  lemma StepFrame(ch: Channel, e: Event)
    requires WellFormed(ch) && Legal(ch, e) && Safe(ch, e)
    ensures WellFormed(Step(ch, e)) && Step(ch, e).mss == ch.mss && |Step(ch, e).table.slots| == |ch.table.slots|
    ensures var ch' := Step(ch, e);
            if e.Accept? && e.granted then ch'.table == Add(ch.table, e.h) && ch'.conns.Keys == ch.conns.Keys + {e.h}
            else if Removes(ch, e) then
              && e.h in ch.conns && e.h != NULL
              && ch'.table == Delete(ch.table, e.h) && ch'.conns.Keys == ch.conns.Keys - {e.h}
            else ch'.table == ch.table && ch'.conns.Keys == ch.conns.Keys
  {
    hide Drain, TxConn, Shift, IndexOf, FreeOr, IsTracked, CallStep, DeliverFrom;
  }

  /** Every event is within the stack's guarantees, and reads no released record. */
  ghost predicate IsRun(ch: Channel, events: seq<Event>)
    decreases |events|
  {
    && WellFormed(ch)
    && (events != [] ==> Legal(ch, events[0]) && Safe(ch, events[0]) && IsRun(Step(ch, events[0]), events[1..]))
  }

  ghost function Run(ch: Channel, events: seq<Event>): Channel
    requires IsRun(ch, events)
    decreases |events|
  {
    if events == [] then ch else Run(Step(ch, events[0]), events[1..])
  }

  // ----- stream conservation -----

  /** No octet is lost, duplicated or reordered on any open connection, and every connection
      that was closed had been flushed: all that was chained had been written. */
  ghost predicate AllConserved(ch: Channel) {
    && (forall h | h in ch.conns :: Conserved(ch.conns[h]))
    && forall i | 0 <= i < |ch.closed| ::
         ch.closed[i].pending == [] && ch.closed[i].written == ch.closed[i].enqueued && ch.closed[i].phase == CLOSING
  }

  lemma NewConnIsConserved()
    ensures Conserved(NEW_CONN)
  {
  }

  lemma DrainOrCloseConserves(ch: Channel, h: Handle, env: nat -> Turn)
    requires h in ch.conns && AllConserved(ch)
    ensures AllConserved(DrainOrClose(ch, h, env))
  {
    hide Drain, Delete;
    DrainConserves(ch.conns[h], env, 0);
    assert Flatten([]) == [];
  }

  lemma {:induction false} BroadcastConserves(ch: Channel, data: seq<byte>, allocs: nat -> nat -> bool, envs: nat -> nat -> Turn, i: nat)
    requires WellFormed(ch) && SlotsExist(ch) && AllConserved(ch)
    ensures AllConserved(BroadcastFrom(ch, data, allocs, envs, i))
    decreases ch.table.counter - i
  {
    hide TxConn, IsTracked, Flatten;
    if i < ch.table.counter {
      var h := ch.table.slots[i];
      if h != NULL {
        TxConserves(ch.conns[h], data, ch.mss, allocs(i), envs(i));
      }
      BroadcastConserves(if h == NULL then ch else TxStep(ch, h, data, allocs(i), envs(i)), data, allocs, envs, i + 1);
    }
  }

  lemma CallConserves(ch: Channel, c: Call)
    requires WellFormed(ch) && CallSafe(ch, c) && AllConserved(ch)
    ensures AllConserved(CallStep(ch, c))
  {
    hide TxConn, IsTracked, Flatten, BroadcastFrom;
    match c
    case TxTo(h, data, alloc, env) =>
      if IsTracked(ch.table, h) {
        TxConserves(ch.conns[h], data, ch.mss, alloc, env);
      }
    case TxAll(data, allocs, envs) => BroadcastConserves(ch, data, allocs, envs, 0);
  }

  lemma {:induction false} CallsConserve(ch: Channel, cs: seq<Call>)
    requires WellFormed(ch) && (forall j | 0 <= j < |cs| :: CallSafe(ch, cs[j])) && AllConserved(ch)
    ensures AllConserved(CallsStep(ch, cs))
    decreases |cs|
  {
    hide CallStep, AllConserved;
    if cs != [] {
      CallConserves(ch, cs[0]);
      CallsConserve(CallStep(ch, cs[0]), cs[1..]);
    }
  }

  lemma {:induction false} DeliverConserves(ch: Channel, h: Handle, chunks: seq<seq<byte>>, calls: nat -> seq<Call>, i: nat)
    requires WellFormed(ch) && h in ch.conns && CallsSafe(ch, calls, |chunks|) && AllConserved(ch)
    ensures AllConserved(DeliverFrom(ch, h, chunks, calls, i))
    decreases |chunks| - i
  {
    hide CallsStep;
    if i < |chunks| {
      HandedConserves(ch, h, chunks[i]);
      hide AllConserved, Handed;
      CallsConserve(Handed(ch, h, chunks[i]), calls(i));
      DeliverConserves(CallsStep(Handed(ch, h, chunks[i]), calls(i)), h, chunks, calls, i + 1);
    }
  }

  lemma HandedConserves(ch: Channel, h: Handle, chunk: seq<byte>)
    requires h in ch.conns && AllConserved(ch)
    ensures AllConserved(Handed(ch, h, chunk))
  {
  }

  lemma StepConserves(ch: Channel, e: Event)
    requires WellFormed(ch) && Legal(ch, e) && Safe(ch, e) && AllConserved(ch)
    ensures AllConserved(Step(ch, e))
  {
    hide Drain, Delete, Flatten, DrainOrClose, Add, CallStep, DeliverFrom;
    match e
    case Accept(h, granted) => NewConnIsConserved();
    case App(c) => CallConserves(ch, c);
    case Receive(h, chunks, err, env, calls) =>
      if chunks.None? {
        DrainOrCloseConserves(ch.(conns := ch.conns[h := ch.conns[h].(phase := CLOSING)]), h, env);
      } else if Delivers(ch, e) {
        DeliverConserves(ch, h, chunks.value, calls, 0);
      }
    case Sent(h, env) => DrainOrCloseConserves(ch, h, env);
    case Poll(h, env) =>
      if h != NULL {
        DrainOrCloseConserves(ch, h, env);
      }
    case Error(h) =>
  }

  /** Conservation over every run, whatever the stack answers, whichever allocations fail, and
      whatever the application transmits from inside its callback. */
  lemma {:induction false} RunConserves(ch: Channel, events: seq<Event>)
    requires IsRun(ch, events) && AllConserved(ch)
    ensures AllConserved(Run(ch, events))
    decreases |events|
  {
    hide Step;
    if events != [] {
      StepConserves(ch, events[0]);
      RunConserves(Step(ch, events[0]), events[1..]);
    }
  }

  // ----- delivery -----

  lemma TxKeepsDelivered(c: Conn, data: seq<byte>, mss: nat, alloc: nat -> bool, env: nat -> Turn)
    requires mss > 0
    ensures TxConn(c, data, mss, alloc, env).delivered == c.delivered
  {
    if c.pending == [] {
      DrainKeepsDelivered(Chained(c, data, mss, alloc), env, 0);
    }
  }

  lemma {:induction false} DrainKeepsDelivered(c: Conn, env: nat -> Turn, k: nat)
    ensures Drain(c, env, k).delivered == c.delivered
    decreases |c.pending|
  {
    if c.pending != [] {
      DrainKeepsDelivered(c.(pending := c.pending[1..], written := c.written + c.pending[0]), env, k + 1);
    }
  }

  lemma {:induction false} BroadcastKeepsDelivered(ch: Channel, data: seq<byte>, allocs: nat -> nat -> bool, envs: nat -> nat -> Turn,
                                                   i: nat, h: Handle)
    requires WellFormed(ch) && SlotsExist(ch) && h in ch.conns
    ensures BroadcastFrom(ch, data, allocs, envs, i).conns[h].delivered == ch.conns[h].delivered
    decreases ch.table.counter - i
  {
    hide TxConn, IsTracked;
    if i < ch.table.counter {
      var x := ch.table.slots[i];
      if x != NULL {
        TxKeepsDelivered(ch.conns[x], data, ch.mss, allocs(i), envs(i));
      }
      BroadcastKeepsDelivered(if x == NULL then ch else TxStep(ch, x, data, allocs(i), envs(i)), data, allocs, envs, i + 1, h);
    }
  }

  lemma {:induction false} CallsKeepDelivered(ch: Channel, cs: seq<Call>, h: Handle)
    requires WellFormed(ch) && (forall j | 0 <= j < |cs| :: CallSafe(ch, cs[j])) && h in ch.conns
    ensures CallsStep(ch, cs).conns[h].delivered == ch.conns[h].delivered
    decreases |cs|
  {
    hide TxConn, IsTracked, BroadcastFrom;
    if cs != [] {
      match cs[0] {
        case TxTo(x, data, alloc, env) =>
          if IsTracked(ch.table, x) {
            TxKeepsDelivered(ch.conns[x], data, ch.mss, alloc, env);
          }
        case TxAll(data, allocs, envs) => BroadcastKeepsDelivered(ch, data, allocs, envs, 0, h);
      }
      CallsKeepDelivered(CallStep(ch, cs[0]), cs[1..], h);
    }
  }

  /** The application gets every chunk once and in order, whatever it transmits meanwhile. */
  lemma {:induction false} DeliverAppends(ch: Channel, h: Handle, chunks: seq<seq<byte>>, calls: nat -> seq<Call>, i: nat)
    requires WellFormed(ch) && h in ch.conns && CallsSafe(ch, calls, |chunks|) && i <= |chunks|
    ensures DeliverFrom(ch, h, chunks, calls, i).conns[h].delivered == ch.conns[h].delivered + chunks[i..]
    decreases |chunks| - i
  {
    hide CallsStep;
    if i < |chunks| {
      var ch1 := Handed(ch, h, chunks[i]);
      CallsKeepDelivered(ch1, calls(i), h);
      DeliverAppends(CallsStep(ch1, calls(i)), h, chunks, calls, i + 1);
      assert ch.conns[h].delivered + [chunks[i]] + chunks[i + 1..] == ch.conns[h].delivered + chunks[i..];
    }
  }

  // ----- progress -----

  /** The stack takes every pending chunk, from turn k on. */
  predicate Generous(pending: seq<seq<byte>>, env: nat -> Turn, k: nat)
    decreases |pending|
  {
    pending == [] || (env(k).err == ERR_OK && env(k).room >= |pending[0]| && Generous(pending[1..], env, k + 1))
  }

  lemma {:induction false} GenerousDrainEmpties(c: Conn, env: nat -> Turn, k: nat)
    requires Generous(c.pending, env, k)
    ensures Drain(c, env, k).pending == [] && Drain(c, env, k).phase == c.phase
    decreases |c.pending|
  {
    if c.pending != [] {
      GenerousDrainEmpties(c.(pending := c.pending[1..], written := c.written + c.pending[0]), env, k + 1);
    }
  }

  /** A connection whose peer has closed is closed, completely flushed, by at most two polls
      once the stack takes what is pending. */
  lemma TwoPollsClose(ch: Channel, h: Handle, env: nat -> Turn, env': nat -> Turn)
    requires WellFormed(ch) && h in ch.conns && ch.conns[h].phase == CLOSING && Conserved(ch.conns[h])
    requires Generous(ch.conns[h].pending, env, 0)
    ensures var ch1 := Step(ch, Poll(h, env));
            && WellFormed(ch1)
            && var ch2 := if h in ch1.conns then Step(ch1, Poll(h, env')) else ch1;
            && h !in ch2.conns && |ch2.closed| == |ch.closed| + 1
            && ch2.closed[|ch.closed|].written == ch.conns[h].enqueued
  {
    var c := ch.conns[h];
    StepFrame(ch, Poll(h, env));
    GenerousDrainEmpties(c, env, 0);
    DrainConserves(c, env, 0);
    assert Flatten([]) == [];
    hide Drain, Flatten, Delete;
  }

  // ----- the array against the live connections -----

  /** The tracked connections after an event, given the ones before it in accept order. A
      connection accepted at capacity is served without being tracked. */
  function LiveAfter(ch: Channel, e: Event, live: seq<Handle>): seq<Handle>
    requires Legal(ch, e)
  {
    if e.Accept? && e.granted && ch.table.counter < |ch.table.slots| then live + [e.h]
    else if Removes(ch, e) then Removed(live, e.h)
    else live
  }

  ghost function LiveAfterRun(ch: Channel, events: seq<Event>, live: seq<Handle>): seq<Handle>
    requires IsRun(ch, events)
    decreases |events|
  {
    if events == [] then live
    else LiveAfterRun(Step(ch, events[0]), events[1..], LiveAfter(ch, events[0], live))
  }

  /** The array holds exactly the connections of the list, in accept order, all of them open. */
  ghost predicate Tracks(ch: Channel, live: seq<Handle>) {
    && IsLiveList(live)
    && Represents(ch.table, live)
    && forall i | 0 <= i < |live| :: live[i] in ch.conns
  }

  lemma TrackedIsLive(ch: Channel, live: seq<Handle>)
    requires WellFormed(ch) && Tracks(ch, live)
    ensures forall h :: IsTracked(ch.table, h) <==> h in live
  {
    assert ch.table.slots[..ch.table.counter] == live;
  }

  /** While the array tracks its connections, no event reads a released record: a transmission
      to any handle whatever and a broadcast are safe. */
  lemma TracksIsSafe(ch: Channel, live: seq<Handle>, e: Event)
    requires WellFormed(ch) && Tracks(ch, live)
    ensures SlotsExist(ch) && Safe(ch, e)
  {
    TrackedIsLive(ch, live);
    hide IsTracked;
    assert SlotsExist(ch);
    assert forall c: Call :: CallSafe(ch, c);
  }

  /** The removals that the array survives: of a tracked connection, unless it leaves a full
      array from another slot than the last; or any removal while the counter is zero. */
  predicate Harmless(ch: Channel, e: Event)
    requires WellFormed(ch) && Legal(ch, e)
  {
    Removes(ch, e) ==>
      || ch.table.counter == 0
      || (IsTracked(ch.table, e.h)
          && (ch.table.counter < |ch.table.slots| || e.h == ch.table.slots[|ch.table.slots| - 1]))
  }

  /** One event keeps the correspondence if and only if it is harmless. */
  lemma StepTracksIff(ch: Channel, e: Event, live: seq<Handle>)
    requires WellFormed(ch) && Legal(ch, e) && Tracks(ch, live)
    ensures Safe(ch, e)
    ensures Tracks(Step(ch, e), LiveAfter(ch, e, live)) <==> Harmless(ch, e)
  {
    TracksIsSafe(ch, live, e);
    TrackedIsLive(ch, live);
    StepFrame(ch, e);
    hide Step, Delete, Add, Removed, IndexOf, IsTracked;
    if e.Accept? && e.granted {
      assert e.h !in live;
      if ch.table.counter < |ch.table.slots| {
        AddRepresents(ch.table, live, e.h);
      } else {
        AddAtCapacity(ch.table, e.h);
      }
    } else if Removes(ch, e) {
      RemovalTracksIff(ch, e, live);
    }
  }

  lemma RemovalTracksIff(ch: Channel, e: Event, live: seq<Handle>)
    requires WellFormed(ch) && Legal(ch, e) && Safe(ch, e) && Removes(ch, e) && Tracks(ch, live)
    ensures Tracks(Step(ch, e), Removed(live, e.h)) <==> Harmless(ch, e)
  {
    StepFrame(ch, e);
    TrackedIsLive(ch, live);
    var ch' := Step(ch, e);
    hide Step, Delete, Removed, IsTracked, Removes;
    DeleteRepresents(ch.table, live, e.h);
    RemovedIsLiveList(live, e.h);
    RemovedStaysOpen(ch, live, e.h, ch');
  }

  lemma AddAtCapacity(t: Table, h: Handle)
    requires t.counter == |t.slots|
    ensures Add(t, h) == t
  {
  }

  lemma RemovedStaysOpen(ch: Channel, live: seq<Handle>, h: Handle, ch': Channel)
    requires Tracks(ch, live) && ch'.conns.Keys == ch.conns.Keys - {h}
    ensures forall i | 0 <= i < |Removed(live, h)| :: Removed(live, h)[i] in ch'.conns
  {
    RemovedIsLiveList(live, h);
    hide Removed;
    forall i | 0 <= i < |Removed(live, h)| ensures Removed(live, h)[i] in ch'.conns {
      assert Removed(live, h)[i] in Removed(live, h);
      assert Removed(live, h)[i] in ch'.conns.Keys;
    }
  }

  /** Every event keeps the stack's guarantees, at least until a released record is read. */
  ghost predicate LegalRun(ch: Channel, events: seq<Event>)
    decreases |events|
  {
    && WellFormed(ch)
    && (events != [] ==>
          Legal(ch, events[0]) && (Safe(ch, events[0]) ==> LegalRun(Step(ch, events[0]), events[1..])))
  }

  ghost predicate AlwaysTracks(ch: Channel, events: seq<Event>, live: seq<Handle>)
    requires LegalRun(ch, events)
    decreases |events|
  {
    && Tracks(ch, live)
    && (events != [] ==>
          Safe(ch, events[0]) && AlwaysTracks(Step(ch, events[0]), events[1..], LiveAfter(ch, events[0], live)))
  }

  ghost predicate AlwaysHarmless(ch: Channel, events: seq<Event>)
    requires LegalRun(ch, events)
    decreases |events|
  {
    events != [] ==>
      Harmless(ch, events[0]) && (Safe(ch, events[0]) ==> AlwaysHarmless(Step(ch, events[0]), events[1..]))
  }

  /** The array is the list of tracked connections at every moment of a run if and only if every
      removal in it is harmless. Such a run reads no released record, whatever handles the
      application transmits to. */
  lemma {:induction false} RunTracksIff(ch: Channel, events: seq<Event>, live: seq<Handle>)
    requires LegalRun(ch, events) && Tracks(ch, live)
    ensures AlwaysTracks(ch, events, live) <==> AlwaysHarmless(ch, events)
    ensures AlwaysHarmless(ch, events) ==> IsRun(ch, events) && Tracks(Run(ch, events), LiveAfterRun(ch, events, live))
    decreases |events|
  {
    hide Step, LiveAfter, IsTracked, Tracks, Harmless, Safe;
    if events != [] {
      StepTracksIff(ch, events[0], live);
      if Harmless(ch, events[0]) {
        RunTracksIff(Step(ch, events[0]), events[1..], LiveAfter(ch, events[0], live));
      } else {
        NotTracking(Step(ch, events[0]), events[1..], LiveAfter(ch, events[0], live));
      }
    }
  }

  lemma NotTracking(ch: Channel, events: seq<Event>, live: seq<Handle>)
    requires LegalRun(ch, events) && !Tracks(ch, live)
    ensures !AlwaysTracks(ch, events, live)
  {
  }

  // ----- runs below capacity -----

  /** No accepted connection brings the number of connections to the capacity of the array. */
  ghost predicate StaysBelowCapacity(ch: Channel, events: seq<Event>)
    requires LegalRun(ch, events)
    decreases |events|
  {
    events != [] ==>
      && (events[0].Accept? && events[0].granted ==> ch.table.counter + 1 < |ch.table.slots|)
      && (Safe(ch, events[0]) ==> StaysBelowCapacity(Step(ch, events[0]), events[1..]))
  }

  ghost predicate AllTracked(ch: Channel, live: seq<Handle>) {
    forall h | h in ch.conns :: h in live
  }

  lemma StepBelowCapacity(ch: Channel, e: Event, live: seq<Handle>)
    requires WellFormed(ch) && Legal(ch, e) && Tracks(ch, live) && AllTracked(ch, live)
    requires ch.table.counter < |ch.table.slots|
    requires e.Accept? && e.granted ==> ch.table.counter + 1 < |ch.table.slots|
    ensures Safe(ch, e) && Harmless(ch, e)
    ensures var ch' := Step(ch, e);
            && ch'.table.counter < |ch'.table.slots|
            && Tracks(ch', LiveAfter(ch, e, live)) && AllTracked(ch', LiveAfter(ch, e, live))
  {
    StepTracksIff(ch, e, live);
    TrackedIsLive(ch, live);
    StepFrame(ch, e);
    CounterBound(ch.table);
    hide Step, Delete, Add, Removed, IsTracked;
    var ch' := Step(ch, e);
    if Removes(ch, e) {
      RemovedIsLiveList(live, e.h);
    }
    assert forall h | h in ch'.conns :: h in ch'.conns.Keys;
  }

  lemma CounterBound(t: Table)
    ensures forall h :: Add(t, h).counter <= t.counter + 1 && Delete(t, h).counter <= t.counter
  {
    hide Shift, IndexOf, FreeOr;
  }

  /** Over every run that stays below capacity the first counter slots are the live
      connections in accept order, all later slots are empty, being tracked is the same as
      being open, and no released record is read. */
  lemma {:induction false} RunTracks(ch: Channel, events: seq<Event>, live: seq<Handle>)
    requires LegalRun(ch, events) && StaysBelowCapacity(ch, events) && Tracks(ch, live) && AllTracked(ch, live)
    requires ch.table.counter < |ch.table.slots|
    ensures IsRun(ch, events) && WellFormed(Run(ch, events))
    ensures Tracks(Run(ch, events), LiveAfterRun(ch, events, live))
    ensures forall h :: h in Run(ch, events).conns <==> IsTracked(Run(ch, events).table, h)
    decreases |events|
  {
    if events == [] {
      TrackedIsLive(ch, live);
      assert forall h | h in live :: h in ch.conns;
    } else {
      StepBelowCapacity(ch, events[0], live);
      hide Step, LiveAfter, IsTracked, Tracks, AllTracked, Safe;
      RunTracks(Step(ch, events[0]), events[1..], LiveAfter(ch, events[0], live));
    }
  }

  /** While the array tracks its connections, a broadcast is exactly one transmission to each
      of them. */
  lemma {:induction false} BroadcastReachesEach(ch: Channel, live: seq<Handle>, data: seq<byte>,
                                                allocs: nat -> nat -> bool, envs: nat -> nat -> Turn, i: nat, j: nat)
    requires WellFormed(ch) && Tracks(ch, live) && j < |live|
    ensures |live| == ch.table.counter && SlotsExist(ch) && live[j] in ch.conns
    ensures BroadcastFrom(ch, data, allocs, envs, i).conns[live[j]]
            == if i <= j then TxConn(ch.conns[live[j]], data, ch.mss, allocs(j), envs(j)) else ch.conns[live[j]]
    decreases ch.table.counter - i
  {
    hide TxConn, IsTracked, Represents, IsLiveList;
    TracksIsSafe(ch, live, App(TxAll(data, allocs, envs)));
    TrackedIsLive(ch, live);
    SlotIsLive(ch, live, j);
    if i < ch.table.counter {
      SlotIsLive(ch, live, i);
      BroadcastReachesEach(TxStep(ch, live[i], data, allocs(i), envs(i)), live, data, allocs, envs, i + 1, j);
    }
  }

  lemma SlotIsLive(ch: Channel, live: seq<Handle>, i: nat)
    requires Tracks(ch, live) && i < |live|
    ensures |live| == ch.table.counter && ch.table.slots[i] == live[i] != NULL
    ensures forall j | 0 <= j < |live| && j != i :: live[j] != live[i]
  {
  }

  // ----- what a removal from a full array costs -----

  /** A broadcast over an array that counts its last connection twice transmits to it twice. */
  lemma {:induction false} BroadcastReachesLastTwice(ch: Channel, last: Handle, data: seq<byte>,
                                                     allocs: nat -> nat -> bool, envs: nat -> nat -> Turn, i: nat)
    requires WellFormed(ch) && SlotsExist(ch) && last in ch.conns
    requires i + 2 <= ch.table.counter && ch.table.slots[ch.table.counter - 2] == ch.table.slots[ch.table.counter - 1] == last
    requires forall j | i <= j < ch.table.counter - 2 :: ch.table.slots[j] != last
    ensures var n := ch.table.counter;
            BroadcastFrom(ch, data, allocs, envs, i).conns[last]
            == TxConn(TxConn(ch.conns[last], data, ch.mss, allocs(n - 2), envs(n - 2)), data, ch.mss, allocs(n - 1), envs(n - 1))
    decreases ch.table.counter - i
  {
    hide TxConn, IsTracked, BroadcastFrom;
    if i + 2 == ch.table.counter {
      BroadcastLastTwo(ch, last, data, allocs, envs);
    } else {
      var h := ch.table.slots[i];
      SlotIsTracked(ch.table, i);
      BroadcastStep(ch, data, allocs, envs, i);
      BroadcastReachesLastTwice(if h == NULL then ch else TxStep(ch, h, data, allocs(i), envs(i)), last, data, allocs, envs, i + 1);
    }
  }

  lemma BroadcastLastTwo(ch: Channel, last: Handle, data: seq<byte>, allocs: nat -> nat -> bool, envs: nat -> nat -> Turn)
    requires WellFormed(ch) && SlotsExist(ch) && last in ch.conns && ch.table.counter >= 2
    requires ch.table.slots[ch.table.counter - 2] == ch.table.slots[ch.table.counter - 1] == last
    ensures var n := ch.table.counter;
            BroadcastFrom(ch, data, allocs, envs, n - 2).conns[last]
            == TxConn(TxConn(ch.conns[last], data, ch.mss, allocs(n - 2), envs(n - 2)), data, ch.mss, allocs(n - 1), envs(n - 1))
  {
    hide TxConn, IsTracked, BroadcastFrom;
    var n := ch.table.counter;
    SlotIsTracked(ch.table, n - 1);
    var ch1 := TxStep(ch, last, data, allocs(n - 2), envs(n - 2));
    var ch2 := TxStep(ch1, last, data, allocs(n - 1), envs(n - 1));
    BroadcastStep(ch, data, allocs, envs, n - 2);
    BroadcastStep(ch1, data, allocs, envs, n - 1);
    BroadcastEnds(ch2, data, allocs, envs, n);
    hide SlotsExist;
  }

  lemma SlotIsTracked(t: Table, i: nat)
    requires i < t.counter <= |t.slots|
    ensures IsTracked(t, t.slots[i])
  {
    assert t.slots[..t.counter][i] == t.slots[i];
  }

  lemma BroadcastStep(ch: Channel, data: seq<byte>, allocs: nat -> nat -> bool, envs: nat -> nat -> Turn, i: nat)
    requires WellFormed(ch) && SlotsExist(ch) && i < ch.table.counter
    ensures var h := ch.table.slots[i];
            var ch1 := if h == NULL then ch else TxStep(ch, h, data, allocs(i), envs(i));
            BroadcastFrom(ch, data, allocs, envs, i) == BroadcastFrom(ch1, data, allocs, envs, i + 1)
  {
    hide TxConn, IsTracked;
  }

  lemma BroadcastEnds(ch: Channel, data: seq<byte>, allocs: nat -> nat -> bool, envs: nat -> nat -> Turn, i: nat)
    requires WellFormed(ch) && SlotsExist(ch) && i == ch.table.counter
    ensures BroadcastFrom(ch, data, allocs, envs, i) == ch
  {
  }

  /** Once stale, the array is stale for good: over every run its slots hold only handles that
      were in it already, so no connection with another handle is ever tracked again. */
  lemma {:induction false} StaleForever(ch: Channel, events: seq<Event>)
    requires IsRun(ch, events) && Stale(ch.table)
    ensures Stale(Run(ch, events).table)
    ensures forall h | h !in ch.table.slots :: !IsTracked(Run(ch, events).table, h)
    ensures forall h | h in Run(ch, events).table.slots :: h in ch.table.slots
    decreases |events|
  {
    if events != [] {
      var e := events[0];
      StepFrame(ch, e);
      hide Step, Add, Delete, Stale, IsTracked;
      if e.Accept? && e.granted {
        AddKeepsStale(ch.table, e.h);
      } else if Removes(ch, e) {
        DeleteKeepsStale(ch.table, e.h);
      }
      StaleForever(Step(ch, e), events[1..]);
    }
    NotInSlots(Run(ch, events).table);
  }

  lemma NotInSlots(t: Table)
    requires t.counter <= |t.slots|
    ensures forall h :: IsTracked(t, h) ==> h in t.slots
  {
  }

  /** From every full array: any connection but the last leaves, then the last one, and another
      one is accepted. The last one is released and still tracked, so that a broadcast, or a
      transmission to it, reads released memory. */
  lemma ReleasedStaysTracked(ch: Channel, live: seq<Handle>, h: Handle, last: Handle, next: Handle)
    requires WellFormed(ch) && Tracks(ch, live) && ch.table.counter == |ch.table.slots|
    requires h in live && h != last == live[|live| - 1] && next != NULL && next !in ch.conns
    ensures var events := [Error(h), Error(last), Accept(next, true)];
            && IsRun(ch, events)
            && var ch' := Run(ch, events);
            && WellFormed(ch') && IsTracked(ch'.table, last) && last !in ch'.conns && !SlotsExist(ch')
            && forall data, alloc, env :: !Safe(ch', App(TxTo(last, data, alloc, env)))
  {
    var e1, e2, e3 := Error(h), Error(last), Accept(next, true);
    FullRemovals(ch.table, live, h, last, next);
    StepFrame(ch, e1);
    var ch1 := Step(ch, e1);
    StepFrame(ch1, e2);
    var ch2 := Step(ch1, e2);
    assert last in ch1.conns.Keys;
    assert next !in ch2.conns.Keys;
    StepFrame(ch2, e3);
    var ch3 := Step(ch2, e3);
    assert last !in ch3.conns.Keys;
    hide Step, Add, Delete;
    RunOfThree(ch, e1, e2, e3);
  }

  /** The second way to a released connection that is still tracked, open to arrays that are not
      full: a connection that was accepted at capacity, and so is not tracked, goes first, then
      the only tracked one. Its slot is no longer counted by then and keeps it. */
  lemma UncountedStaysTracked(ch: Channel, h: Handle, unknown: Handle, next: Handle)
    requires WellFormed(ch) && Tracks(ch, [h])
    requires unknown in ch.conns && unknown != h && next != NULL && next !in ch.conns
    ensures var events := [Error(unknown), Error(h), Accept(next, true)];
            && IsRun(ch, events)
            && var ch' := Run(ch, events);
            && WellFormed(ch') && IsTracked(ch'.table, h) && h !in ch'.conns && !SlotsExist(ch')
  {
    var e1, e2, e3 := Error(unknown), Error(h), Accept(next, true);
    TrackedIsLive(ch, [h]);
    UnknownRemovalForgetsLast(ch.table, [h], unknown);
    StepFrame(ch, e1);
    var ch1 := Step(ch, e1);
    assert ch1.table == Table(ch.table.slots, 0);
    assert h in ch1.conns.Keys;
    StepFrame(ch1, e2);
    var ch2 := Step(ch1, e2);
    assert Delete(ch1.table, h) == ch1.table == ch2.table;
    assert next !in ch2.conns.Keys;
    AddToPacked(ch2.table, next);
    StepFrame(ch2, e3);
    var ch3 := Step(ch2, e3);
    assert h !in ch3.conns.Keys;
    assert ch3.table.slots[..1][0] == h;
    hide Step, Add, Delete;
    RunOfThree(ch, e1, e2, e3);
  }

  lemma RunOfThree(ch: Channel, e1: Event, e2: Event, e3: Event)
    requires WellFormed(ch) && Legal(ch, e1) && Safe(ch, e1)
    requires var ch1 := Step(ch, e1);
             && WellFormed(ch1) && Legal(ch1, e2) && Safe(ch1, e2)
             && var ch2 := Step(ch1, e2);
             WellFormed(ch2) && Legal(ch2, e3) && Safe(ch2, e3) && WellFormed(Step(ch2, e3))
    ensures IsRun(ch, [e1, e2, e3]) && Run(ch, [e1, e2, e3]) == Step(Step(Step(ch, e1), e2), e3)
  {
    var ch1 := Step(ch, e1);
    var ch2 := Step(ch1, e2);
    hide Step, Safe, Legal;
    RunCons(ch2, e3, []);
    RunCons(ch1, e2, [e3]);
    RunCons(ch, e1, [e2, e3]);
    assert [e3] == [e3] + [] && [e2, e3] == [e2] + [e3] && [e1, e2, e3] == [e1] + [e2, e3];
  }

  lemma RunCons(ch: Channel, e: Event, es: seq<Event>)
    requires WellFormed(ch) && Legal(ch, e) && Safe(ch, e) && IsRun(Step(ch, e), es)
    ensures IsRun(ch, [e] + es) && Run(ch, [e] + es) == Run(Step(ch, e), es)
  {
    hide Step, Safe, Legal;
    assert ([e] + es)[1..] == es;
  }

  /** Five events to a released connection that is still tracked. */
  lemma FiveEventsSuffice(mss: nat)
    requires mss > 0
    ensures var ch := Channel(mss, true, Table([NULL, NULL], 0), map[], []);
            var events := [Accept(1, true), Accept(2, true), Error(1), Error(2), Accept(3, true)];
            && IsRun(ch, events) && WellFormed(Run(ch, events))
            && IsTracked(Run(ch, events).table, 2) && 2 !in Run(ch, events).conns && !SlotsExist(Run(ch, events))
  {
    var ch := Channel(mss, true, Table([NULL, NULL], 0), map[], []);
    var e1, e2 := Accept(1, true), Accept(2, true);
    var es := [e1, e2, Error(1), Error(2), Accept(3, true)];
    assert Tracks(ch, []);
    StepTracksIff(ch, e1, []);
    StepFrame(ch, e1);
    var ch1 := Step(ch, e1);
    StepTracksIff(ch1, e2, [1]);
    StepFrame(ch1, e2);
    var ch2 := Step(ch1, e2);
    assert Tracks(ch2, [1, 2]);
    ReleasedStaysTracked(ch2, [1, 2], 1, 2, 3);
    assert es[1..][1..] == [Error(1), Error(2), Accept(3, true)];
  }

  /** And seven events to one by the second way. */
  lemma SevenEventsSuffice(mss: nat)
    requires mss > 0
    ensures var ch := Channel(mss, true, Table([NULL, NULL], 0), map[], []);
            var events := [Accept(1, true), Accept(2, true), Accept(3, true), Error(2)]
                          + [Error(3), Error(1), Accept(4, true)];
            && IsRun(ch, events) && WellFormed(Run(ch, events))
            && IsTracked(Run(ch, events).table, 1) && 1 !in Run(ch, events).conns && !SlotsExist(Run(ch, events))
  {
    var ch := Channel(mss, true, Table([NULL, NULL], 0), map[], []);
    var e1, e2, e3, e4 := Accept(1, true), Accept(2, true), Accept(3, true), Error(2);
    var tail := [Error(3), Error(1), Accept(4, true)];
    assert Tracks(ch, []);
    StepTracksIff(ch, e1, []);
    StepFrame(ch, e1);
    var ch1 := Step(ch, e1);
    hide Step, Add, Delete, Tracks, IsTracked, SlotsExist, Safe;
    StepTracksIff(ch1, e2, [1]);
    StepFrame(ch1, e2);
    var ch2 := Step(ch1, e2);
    ThirdThenSecondLeaves(ch2);
    var ch3 := Step(ch2, e3);
    var ch4 := Step(ch3, e4);
    UncountedStaysTracked(ch4, 1, 3, 4);
    RunCons(ch3, e4, tail);
    RunCons(ch2, e3, [e4] + tail);
    RunCons(ch1, e2, [e3] + ([e4] + tail));
    RunCons(ch, e1, [e2] + ([e3] + ([e4] + tail)));
    assert [e1, e2, e3, e4] + tail == [e1] + ([e2] + ([e3] + ([e4] + tail)));
  }

  /** On a full array of two, a third connection is not tracked, and the second one leaves
      harmlessly. */
  lemma ThirdThenSecondLeaves(ch: Channel)
    requires WellFormed(ch) && Tracks(ch, [1, 2]) && |ch.table.slots| == 2 && ch.conns.Keys == {1, 2}
    ensures Safe(ch, Accept(3, true))
    ensures var ch1 := Step(ch, Accept(3, true));
            WellFormed(ch1) && Legal(ch1, Error(2)) && Safe(ch1, Error(2))
    ensures var ch2 := Step(Step(ch, Accept(3, true)), Error(2));
            WellFormed(ch2) && Tracks(ch2, [1]) && ch2.conns.Keys == {1, 3}
  {
    var e3, e4 := Accept(3, true), Error(2);
    assert ch.table.counter == 2;
    StepTracksIff(ch, e3, [1, 2]);
    StepFrame(ch, e3);
    var ch1 := Step(ch, e3);
    hide Step, Add, Delete;
    assert Tracks(ch1, [1, 2]) && ch1.table.slots[1] == [1, 2][1];
    TrackedIsLive(ch1, [1, 2]);
    assert 2 in ch1.conns.Keys;
    StepTracksIff(ch1, e4, [1, 2]);
    StepFrame(ch1, e4);
    assert Removed([1, 2], 2) == [1];
  }

  // ----- exactly when a released connection is tracked -----

  /** Every counted slot holds an open connection if and only if no call that the application
      can make next reads a released record. */
  lemma SlotsExistIffCallsSafe(ch: Channel)
    requires WellFormed(ch) && Packed(ch.table)
    ensures SlotsExist(ch) <==> forall c: Call :: CallSafe(ch, c)
  {
    if SlotsExist(ch) {
      PackedIsSafe(ch);
    } else {
      var c := TxAll([], _ => _ => true, _ => _ => Turn(0, ERR_OK));
      assert !CallSafe(ch, c);
    }
  }

  lemma PackedIsSafe(ch: Channel)
    requires WellFormed(ch) && Packed(ch.table) && SlotsExist(ch)
    ensures forall c: Call :: CallSafe(ch, c)
    ensures forall e: Event :: Safe(ch, e)
  {
    var counted := ch.table.slots[..ch.table.counter];
    assert forall i | 0 <= i < |counted| :: counted[i] in ch.conns;
    assert forall h | IsTracked(ch.table, h) :: h in ch.conns;
    hide IsTracked;
    assert forall c: Call :: CallSafe(ch, c);
  }

  /** The events that make the array count a released connection: an accept when the next slot
      still holds one, and the removal of a connection that is counted twice. */
  ghost predicate Exposes(ch: Channel, e: Event)
    requires WellFormed(ch) && Legal(ch, e)
  {
    || (e.Accept? && e.granted && ch.table.counter < |ch.table.slots|
        && var left := ch.table.slots[ch.table.counter];
           left != NULL && left != e.h && left !in ch.conns)
    || (Removes(ch, e) && CountedTwice(ch.table, e.h))
  }

  lemma AcceptExposesIff(ch: Channel, h: Handle)
    requires WellFormed(ch) && Packed(ch.table) && SlotsExist(ch) && h != NULL && h !in ch.conns
    ensures var ch' := Step(ch, Accept(h, true));
            Packed(ch'.table) && (SlotsExist(ch') <==> !Exposes(ch, Accept(h, true)))
  {
    var e := Accept(h, true);
    StepFrame(ch, e);
    var ch' := Step(ch, e);
    hide Step, Add;
    assert forall x :: x in ch'.conns <==> x in ch.conns || x == h by {
      assert forall x :: x in ch'.conns <==> x in ch'.conns.Keys;
    }
    if ch.table.counter < |ch.table.slots| {
      AddToPacked(ch.table, h);
    } else {
      AddAtCapacity(ch.table, h);
    }
  }

  lemma RemovalExposesIff(ch: Channel, e: Event)
    requires WellFormed(ch) && Packed(ch.table) && SlotsExist(ch) && Legal(ch, e) && Safe(ch, e) && Removes(ch, e)
    ensures Packed(Step(ch, e).table) && (SlotsExist(Step(ch, e)) <==> !Exposes(ch, e))
  {
    StepFrame(ch, e);
    var ch' := Step(ch, e);
    assert forall x :: x in ch'.conns <==> x in ch.conns && x != e.h by {
      assert forall x :: x in ch'.conns <==> x in ch'.conns.Keys;
    }
    hide Step, Removes;
    if ch.table.counter > 0 {
      CountedAfterDelete(ch.table, e.h);
      assert forall x | x in ch.table.slots[..ch.table.counter] :: x in ch.conns;
      hide Delete, CountedTwice, Packed;
    }
  }

  /** The step law: after an event every counted slot still holds an open connection if and only
      if the event does not expose one. */
  lemma StepExposesIff(ch: Channel, e: Event)
    requires WellFormed(ch) && Packed(ch.table) && SlotsExist(ch) && Legal(ch, e)
    ensures Safe(ch, e)
    ensures Packed(Step(ch, e).table) && (SlotsExist(Step(ch, e)) <==> !Exposes(ch, e))
  {
    PackedIsSafe(ch);
    StepFrame(ch, e);
    hide Step, Add, Delete;
    if e.Accept? && e.granted {
      AcceptExposesIff(ch, e.h);
    } else if Removes(ch, e) {
      RemovalExposesIff(ch, e);
    } else {
      assert Step(ch, e).table == ch.table && Step(ch, e).conns.Keys == ch.conns.Keys;
      SlotsExistByKeys(ch, Step(ch, e));
    }
  }

  lemma SlotsExistByKeys(ch: Channel, ch': Channel)
    requires ch'.table == ch.table && ch'.conns.Keys == ch.conns.Keys
    ensures SlotsExist(ch') <==> SlotsExist(ch)
  {
    assert forall x :: x in ch'.conns <==> x in ch'.conns.Keys;
  }

  ghost predicate AlwaysExist(ch: Channel, events: seq<Event>)
    requires LegalRun(ch, events)
    decreases |events|
  {
    && SlotsExist(ch)
    && (events != [] ==> Safe(ch, events[0]) && AlwaysExist(Step(ch, events[0]), events[1..]))
  }

  ghost predicate NeverExposes(ch: Channel, events: seq<Event>)
    requires LegalRun(ch, events)
    decreases |events|
  {
    events != [] ==>
      !Exposes(ch, events[0]) && (Safe(ch, events[0]) ==> NeverExposes(Step(ch, events[0]), events[1..]))
  }

  /** The run law: every counted slot holds an open connection at every moment of a run, so that
      no call the application could make reads a released record, if and only if no event of the
      run exposes one. Such a run reads no released record itself. */
  lemma {:induction false} RunExposesIff(ch: Channel, events: seq<Event>)
    requires LegalRun(ch, events) && Packed(ch.table) && SlotsExist(ch)
    ensures AlwaysExist(ch, events) <==> NeverExposes(ch, events)
    ensures NeverExposes(ch, events) ==> IsRun(ch, events) && SlotsExist(Run(ch, events))
    decreases |events|
  {
    hide Step, Exposes, Safe, SlotsExist, Packed;
    if events != [] {
      StepExposesIff(ch, events[0]);
      if !Exposes(ch, events[0]) {
        RunExposesIff(Step(ch, events[0]), events[1..]);
      } else {
        NoLongerExist(Step(ch, events[0]), events[1..]);
      }
    }
  }

  lemma NoLongerExist(ch: Channel, events: seq<Event>)
    requires LegalRun(ch, events) && !SlotsExist(ch)
    ensures !AlwaysExist(ch, events)
  {
  }
}
