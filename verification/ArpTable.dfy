/** The ARP cache (RFC 826) as a sequence of live records: learning, aging, lookup, and what
    holds over every run. */
module ArpTable {
  import opened Bytes
  import opened Sequences

  datatype Line = Line(ip: Ip, mac: Mac, age: nat)

  /** n is the table size and d the age beyond which a record is deleted. The 16-bit record
      counter and signed index bound n, and the 32-bit age never wraps. */
  datatype Limits = Limits(n: nat, d: nat) {
    ghost predicate Valid() {
      1 <= n <= 0x7fff && d + 1 < 0x1_0000_0000
    }
  }

  /** Position of the first record for ip, or |t|. */
  function Find(t: seq<Line>, ip: Ip): (k: nat)
    ensures k <= |t|
    ensures k < |t| ==> t[k].ip == ip
    ensures forall i | 0 <= i < k :: t[i].ip != ip
  {
    if t == [] then 0 else if t[0].ip == ip then 0 else 1 + Find(t[1..], ip)
  }

  predicate Knows(t: seq<Line>, ip: Ip) {
    Find(t, ip) < |t|
  }

  /** What a request or a reply from (ip, mac) does to the table. A new record that fills the
      last slot resets the counter, which forgets the whole table. */
  function Learn(t: seq<Line>, ip: Ip, mac: Mac, n: nat): seq<Line> {
    var k := Find(t, ip);
    if k < |t| then t[k := Line(ip, mac, 0)]
    else if |t| + 1 == n then []
    else t + [Line(ip, mac, 0)]
  }

  function Aged(x: Line): Line {
    x.(age := x.age + 1)
  }

  /** One aging pass. When a record is deleted its successor slides into the slot that was
      just visited, and is skipped. */
  function Tick(t: seq<Line>, d: nat): seq<Line> {
    if t == [] then []
    else if t[0].age + 1 <= d then [Aged(t[0])] + Tick(t[1..], d)
    else if |t| == 1 then []
    else [t[1]] + Tick(t[2..], d)
  }

  /** The addresses for which the pass sends a refreshing request, in order. */
  function Due(t: seq<Line>, d: nat, refresh: nat): seq<Ip> {
    if t == [] then []
    else
      var now := if t[0].age + 1 > refresh then [t[0].ip] else [];
      if t[0].age + 1 <= d then now + Due(t[1..], d, refresh)
      else if |t| == 1 then now
      else now + Due(t[2..], d, refresh)
  }

  /** The pass from slot i on, one slot at a time, as the loop takes it. */
  lemma TickOfEmpty(d: nat, refresh: nat)
    ensures Tick([], d) == [] && Due([], d, refresh) == []
  {
  }

  lemma TickFrom(t: seq<Line>, d: nat, refresh: nat, i: nat)
    requires i < |t|
    ensures var now := if t[i].age + 1 > refresh then [t[i].ip] else [];
            if t[i].age + 1 <= d then
              && Tick(t[i..], d) == [Aged(t[i])] + Tick(t[i + 1..], d)
              && Due(t[i..], d, refresh) == now + Due(t[i + 1..], d, refresh)
            else if i == |t| - 1 then Tick(t[i..], d) == [] && Due(t[i..], d, refresh) == now
            else
              && Tick(t[i..], d) == [t[i + 1]] + Tick(t[i + 2..], d)
              && Due(t[i..], d, refresh) == now + Due(t[i + 2..], d, refresh)
  {
    assert t[i..][1..] == t[i + 1..];
    if i < |t| - 1 {
      assert t[i..][2..] == t[i + 2..];
    }
  }

  /** The loop has brought the table from before to t, has visited the slots below i, and has
      found the addresses due on the way. After a deletion in the last slot i is past the
      end. */
  ghost predicate Passed(before: seq<Line>, t: seq<Line>, i: nat, due: seq<Ip>, d: nat, refresh: nat) {
    var m := if i < |t| then i else |t|;
    && Tick(before, d) == t[..m] + Tick(t[m..], d)
    && Due(before, d, refresh) == due + Due(t[m..], d, refresh)
    && forall j | i <= j < |t| :: t[j].age <= d
  }

  lemma PassBegins(t: seq<Line>, d: nat, refresh: nat)
    requires forall j | 0 <= j < |t| :: t[j].age <= d
    ensures Passed(t, t, 0, [], d, refresh)
  {
    assert t[0..] == t;
  }

  lemma PassEnds(before: seq<Line>, t: seq<Line>, i: nat, due: seq<Ip>, d: nat, refresh: nat)
    requires Passed(before, t, i, due, d, refresh) && i >= |t|
    ensures Tick(before, d) == t && Due(before, d, refresh) == due
  {
    assert t[|t|..] == [] && t[..|t|] == t;
  }

  /** One iteration: the slot is aged, and either kept or closed up. */
  lemma PassAdvances(before: seq<Line>, t: seq<Line>, i: nat, due: seq<Ip>, d: nat, refresh: nat)
    requires i < |t| && Passed(before, t, i, due, d, refresh)
    ensures t[i].age <= d
    ensures var due' := if t[i].age + 1 > refresh then due + [t[i].ip] else due;
            if t[i].age + 1 <= d then Passed(before, t[i := Aged(t[i])], i + 1, due', d, refresh)
            else Passed(before, Without(t, i), i + 1, due', d, refresh)
  {
    hide *;
    var now := if t[i].age + 1 > refresh then [t[i].ip] else [];
    PassMeaning(before, t, i, due, d, refresh);
    TickFrom(t, d, refresh, i);
    assert due + now == if t[i].age + 1 > refresh then due + [t[i].ip] else due;
    if t[i].age + 1 <= d {
      assert t[i := Aged(t[i])] == t[..i] + [Aged(t[i])] + t[i + 1..];
      PassGoesOn(before, t[..i], Aged(t[i]), t[i + 1..], due, now, d, refresh);
    } else if i == |t| - 1 {
      assert Without(t, i) == t[..i] by { SlotDeleted(t, i); }
      PassStops(before, t[..i], due + now, d, refresh);
    } else {
      SlotDeleted(t, i);
      PassGoesOn(before, t[..i], t[i + 1], t[i + 2..], due, now, d, refresh);
    }
  }

  lemma PassMeaning(before: seq<Line>, t: seq<Line>, i: nat, due: seq<Ip>, d: nat, refresh: nat)
    requires i < |t| && Passed(before, t, i, due, d, refresh)
    ensures Tick(before, d) == t[..i] + Tick(t[i..], d) && Due(before, d, refresh) == due + Due(t[i..], d, refresh)
    ensures forall j | i <= j < |t| :: t[j].age <= d
  {
  }

  lemma SlotDeleted(t: seq<Line>, i: nat)
    requires i < |t|
    ensures Without(t, i) == if i == |t| - 1 then t[..i] else t[..i] + [t[i + 1]] + t[i + 2..]
  {
  }

  lemma PassGoesOn(before: seq<Line>, past: seq<Line>, x: Line, rest: seq<Line>, due: seq<Ip>, now: seq<Ip>,
                   d: nat, refresh: nat)
    requires Tick(before, d) == past + ([x] + Tick(rest, d)) && Due(before, d, refresh) == due + (now + Due(rest, d, refresh))
    requires forall j | 0 <= j < |rest| :: rest[j].age <= d
    ensures Passed(before, past + [x] + rest, |past| + 1, due + now, d, refresh)
  {
    hide Tick, Due;
    var t := past + [x] + rest;
    assert past + ([x] + Tick(rest, d)) == (past + [x]) + Tick(rest, d);
    assert due + (now + Due(rest, d, refresh)) == (due + now) + Due(rest, d, refresh);
    assert t[..|past| + 1] == past + [x];
    assert t[|past| + 1..] == rest;
  }

  lemma PassStops(before: seq<Line>, t: seq<Line>, due: seq<Ip>, d: nat, refresh: nat)
    requires Tick(before, d) == t + [] && Due(before, d, refresh) == due
    ensures Passed(before, t, |t| + 1, due, d, refresh)
  {
    TickOfEmpty(d, refresh);
    hide Tick, Due;
    assert t[..|t|] == t && t[|t|..] == [];
  }

  // ----- invariant over runs -----

  ghost predicate DistinctIps(t: seq<Line>) {
    forall i, j | 0 <= i < j < |t| :: t[i].ip != t[j].ip
  }

  ghost predicate Inv(t: seq<Line>, l: Limits) {
    && DistinctIps(t)
    && |t| < l.n
    && forall i | 0 <= i < |t| :: t[i].age <= l.d
  }

  datatype Event = Frame(ip: Ip, mac: Mac) | Timer

  function Step(t: seq<Line>, e: Event, l: Limits): seq<Line> {
    match e
    case Frame(ip, mac) => Learn(t, ip, mac, l.n)
    case Timer => Tick(t, l.d)
  }

  function Run(t: seq<Line>, events: seq<Event>, l: Limits): seq<Line>
    decreases |events|
  {
    if events == [] then t else Run(Step(t, events[0], l), events[1..], l)
  }

  /** The record for ip in t, if there is one, reappears in t' no later in the table: either
      aged by one, or unaged and strictly earlier. */
  ghost predicate Advanced(t: seq<Line>, t': seq<Line>, ip: Ip) {
    var k, k' := Find(t, ip), Find(t', ip);
    k' < |t'| ==>
      && k < |t| && t'[k'].mac == t[k].mac
      && ((t'[k'].age == t[k].age + 1 && k' <= k) || (t'[k'].age == t[k].age && k' < k))
  }

  lemma FindInCons(x: Line, t: seq<Line>, ip: Ip)
    ensures Find([x] + t, ip) == if x.ip == ip then 0 else 1 + Find(t, ip)
  {
    assert ([x] + t)[1..] == t;
  }

  lemma AdvancedPastKept(x: Line, t: seq<Line>, t': seq<Line>, ip: Ip)
    requires Advanced(t, t', ip)
    ensures Advanced([x] + t, [Aged(x)] + t', ip)
  {
    FindInCons(x, t, ip);
    FindInCons(Aged(x), t', ip);
  }

  lemma AdvancedPastDeleted(x: Line, y: Line, t: seq<Line>, t': seq<Line>, ip: Ip)
    requires Advanced(t, t', ip) && y.ip != x.ip && forall i | 0 <= i < |t| :: t[i].ip != x.ip
    ensures Advanced([x] + ([y] + t), [y] + t', ip)
  {
    FindInCons(x, [y] + t, ip);
    FindInCons(y, t, ip);
    FindInCons(y, t', ip);
    var all, left := [x] + ([y] + t), [y] + t';
    var k, k' := Find(t, ip), Find(t', ip);
    hide Find;
    if x.ip == ip {
    } else if y.ip == ip {
      assert all[1] == y && left[0] == y;
    } else if k' < |t'| {
      assert all[k + 2] == t[k] && left[k' + 1] == t'[k'];
    }
  }

  /** The heart of bounded expiry: one pass advances every record. */
  lemma {:induction false} TickAdvances(t: seq<Line>, d: nat, ip: Ip)
    requires DistinctIps(t)
    ensures Advanced(t, Tick(t, d), ip)
  {
    hide Find, Advanced;
    if |t| == 0 {
      AdvancedOfEmpty([], ip);
    } else if t[0].age + 1 <= d {
      TickAdvances(t[1..], d, ip);
      AdvancedPastKept(t[0], t[1..], Tick(t[1..], d), ip);
      assert t == [t[0]] + t[1..];
    } else if |t| == 1 {
      AdvancedOfEmpty(t, ip);
    } else {
      assert t == [t[0]] + ([t[1]] + t[2..]);
      TickAdvances(t[2..], d, ip);
      assert forall i | 2 <= i < |t| :: t[i] == t[2..][i - 2];
      AdvancedPastDeleted(t[0], t[1], t[2..], Tick(t[2..], d), ip);
    }
  }

  lemma AdvancedOfEmpty(t: seq<Line>, ip: Ip)
    ensures Advanced(t, [], ip)
  {
  }

  /** Only records that had reached the limit are deleted. */
  lemma {:induction false} TickKeepsYoung(t: seq<Line>, d: nat, ip: Ip)
    requires Knows(t, ip) && t[Find(t, ip)].age < d
    ensures Knows(Tick(t, d), ip)
  {
    FindInCons(t[0], t[1..], ip);
    assert t == [t[0]] + t[1..];
    if t[0].age + 1 <= d {
      FindInCons(Aged(t[0]), Tick(t[1..], d), ip);
      if t[0].ip != ip {
        TickKeepsYoung(t[1..], d, ip);
      }
    } else {
      FindInCons(t[1], t[2..], ip);
      assert t[1..] == [t[1]] + t[2..];
      FindInCons(t[1], Tick(t[2..], d), ip);
      if t[1].ip != ip {
        TickKeepsYoung(t[2..], d, ip);
      }
    }
  }

  // ----- the invariant -----

  function Ips(t: seq<Line>): (s: seq<Ip>)
    ensures |s| == |t| && forall i | 0 <= i < |t| :: s[i] == t[i].ip
  {
    seq(|t|, i requires 0 <= i < |t| => t[i].ip)
  }

  /** The survivors of a pass are an order-preserving subsequence of the table. */
  lemma {:induction false} TickKeepsOrder(t: seq<Line>, d: nat)
    ensures SubsequenceOf(Ips(Tick(t, d)), Ips(t))
    ensures |Tick(t, d)| <= |t|
  {
    if |t| == 0 {
    } else if t[0].age + 1 <= d {
      TickKeepsOrder(t[1..], d);
      assert Ips(t)[1..] == Ips(t[1..]);
      assert Ips(Tick(t, d))[1..] == Ips(Tick(t[1..], d));
    } else if |t| > 1 {
      TickKeepsOrder(t[2..], d);
      assert Ips(t)[1..][1..] == Ips(t[2..]);
      assert Ips(Tick(t, d))[1..] == Ips(Tick(t[2..], d));
      assert SubsequenceOf(Ips(Tick(t, d)), Ips(t)[1..]);
    }
  }

  lemma {:induction false} TickAges(t: seq<Line>, d: nat)
    requires forall i | 0 <= i < |t| :: t[i].age <= d
    ensures forall i | 0 <= i < |Tick(t, d)| :: Tick(t, d)[i].age <= d
  {
    if |t| > 0 && t[0].age + 1 <= d {
      TickAges(t[1..], d);
    } else if |t| > 1 {
      TickAges(t[2..], d);
    }
  }

  /** Every step keeps the table below its size, its addresses distinct and its ages within
      the limit. */
  lemma StepKeepsInv(t: seq<Line>, e: Event, l: Limits)
    requires l.Valid() && Inv(t, l)
    ensures Inv(Step(t, e, l), l)
  {
    match e
    case Frame(ip, mac) =>
    case Timer =>
      TickKeepsOrder(t, l.d);
      TickAges(t, l.d);
      assert Distinct(Ips(t));
      SubsequenceDistinct(Ips(Tick(t, l.d)), Ips(t));
      var t' := Tick(t, l.d);
      assert forall i | 0 <= i < |t'| :: t'[i].ip == Ips(t')[i];
  }

  lemma {:induction false} RunKeepsInv(t: seq<Line>, events: seq<Event>, l: Limits)
    requires l.Valid() && Inv(t, l)
    ensures Inv(Run(t, events, l), l)
    decreases |events|
  {
    if events != [] {
      StepKeepsInv(t, events[0], l);
      RunKeepsInv(Step(t, events[0], l), events[1..], l);
    }
  }

  // ----- bounded expiry over whole runs -----

  function Ticks(events: seq<Event>): nat {
    if events == [] then 0 else (if events[0].Timer? then 1 else 0) + Ticks(events[1..])
  }

  ghost predicate Silent(events: seq<Event>, ip: Ip) {
    forall i | 0 <= i < |events| :: events[i].Frame? ==> events[i].ip != ip
  }

  /** How many ticks can pass at most before the record for ip is gone; 0 when it is. */
  function Rank(t: seq<Line>, ip: Ip, d: nat): int {
    var k := Find(t, ip);
    if k < |t| then d + 1 - t[k].age + k else 0
  }

  lemma {:induction false} FindInUpdate(t: seq<Line>, i: nat, x: Line, ip: Ip)
    requires i < |t| && t[i].ip == x.ip
    ensures Find(t[i := x], ip) == Find(t, ip)
  {
    if i == 0 {
      assert t[0 := x][1..] == t[1..];
    } else {
      FindInUpdate(t[1..], i - 1, x, ip);
      assert t[i := x][1..] == t[1..][i - 1 := x];
    }
  }

  lemma {:induction false} FindInAppend(t: seq<Line>, x: Line, ip: Ip)
    ensures Find(t + [x], ip) == if Knows(t, ip) || x.ip == ip then Find(t, ip) else |t| + 1
  {
    if t == [] {
      assert t + [x] == [x];
    } else {
      FindInAppend(t[1..], x, ip);
      assert (t + [x])[1..] == t[1..] + [x];
    }
  }

  /** Learning about another address moves nobody; learning about ip itself makes its record
      fresh. A wrap forgets everybody. */
  lemma LearnKeepsPlace(t: seq<Line>, from: Ip, mac: Mac, n: nat, ip: Ip)
    ensures var t' := Learn(t, from, mac, n);
            if !Knows(t, from) && |t| + 1 == n then t' == []
            else if ip == from then Find(t', ip) == Find(t, ip) < |t'| && t'[Find(t', ip)] == Line(ip, mac, 0)
            else (Knows(t', ip) <==> Knows(t, ip))
                 && (Knows(t, ip) ==> Find(t', ip) == Find(t, ip) && t'[Find(t', ip)] == t[Find(t, ip)])
  {
    var k := Find(t, from);
    if k < |t| {
      FindInUpdate(t, k, Line(from, mac, 0), ip);
    } else {
      FindInAppend(t, Line(from, mac, 0), ip);
    }
  }

  /** The ranking argument: without news from ip its rank never grows, and every tick lowers
      it, also the ticks that skip the record. */
  lemma StepLowersRank(t: seq<Line>, e: Event, l: Limits, ip: Ip)
    requires l.Valid() && Inv(t, l) && (e.Frame? ==> e.ip != ip)
    ensures Rank(Step(t, e, l), ip, l.d) <= Rank(t, ip, l.d)
    ensures e.Timer? && Knows(t, ip) ==> Rank(Step(t, e, l), ip, l.d) < Rank(t, ip, l.d)
  {
    hide Find, Tick, Learn;
    match e
    case Frame(from, mac) => LearnKeepsPlace(t, from, mac, l.n, ip);
    case Timer => TickAdvances(t, l.d, ip);
  }

  lemma {:induction false} RunLowersRank(t: seq<Line>, events: seq<Event>, l: Limits, ip: Ip)
    requires l.Valid() && Inv(t, l) && Silent(events, ip)
    ensures Knows(Run(t, events, l), ip) ==> Rank(Run(t, events, l), ip, l.d) <= Rank(t, ip, l.d) - Ticks(events)
    decreases |events|
  {
    hide Find;
    if events != [] {
      StepKeepsInv(t, events[0], l);
      StepLowersRank(t, events[0], l, ip);
      RunLowersRank(Step(t, events[0], l), events[1..], l, ip);
      if !Knows(t, ip) {
        StaysUnknown(t, events, l, ip);
      }
    }
  }

  lemma {:induction false} StaysUnknown(t: seq<Line>, events: seq<Event>, l: Limits, ip: Ip)
    requires l.Valid() && Inv(t, l) && Silent(events, ip) && !Knows(t, ip)
    ensures !Knows(Run(t, events, l), ip)
    decreases |events|
  {
    hide Find, Tick, Learn;
    if events != [] {
      StepKeepsInv(t, events[0], l);
      match events[0] {
        case Frame(from, mac) => LearnKeepsPlace(t, from, mac, l.n, ip);
        case Timer => TickAdvances(t, l.d, ip);
      }
      StaysUnknown(Step(t, events[0], l), events[1..], l, ip);
    }
  }

  /** Bounded expiry: whatever else happens, a record at index k that hears nothing from its
      owner is gone once d + 1 - age + k ticks have passed, so after d + 1 + k at most. */
  lemma RecordExpires(t: seq<Line>, events: seq<Event>, l: Limits, ip: Ip)
    requires l.Valid() && Inv(t, l) && Silent(events, ip) && Knows(t, ip)
    requires Ticks(events) >= l.d + 1 - t[Find(t, ip)].age + Find(t, ip)
    ensures !Knows(Run(t, events, l), ip)
  {
    RunLowersRank(t, events, l, ip);
    RunKeepsInv(t, events, l);
  }

  /** No frame of the run fills the last slot. */
  ghost predicate NeverFills(t: seq<Line>, events: seq<Event>, l: Limits)
    decreases |events|
  {
    events != [] ==>
      && (events[0].Frame? && !Knows(t, events[0].ip) ==> |t| + 1 < l.n)
      && NeverFills(Step(t, events[0], l), events[1..], l)
  }

  /** No early expiry: unless the table fills, a record outlives any run whose ticks do not
      take it beyond the limit. */
  lemma {:induction false} RecordSurvives(t: seq<Line>, events: seq<Event>, l: Limits, ip: Ip)
    requires l.Valid() && Inv(t, l) && NeverFills(t, events, l) && Knows(t, ip)
    requires t[Find(t, ip)].age + Ticks(events) <= l.d
    ensures var t' := Run(t, events, l);
            Knows(t', ip) && t'[Find(t', ip)].age <= t[Find(t, ip)].age + Ticks(events)
    decreases |events|
  {
    hide Find, Tick, Learn;
    if events != [] {
      StepKeepsInv(t, events[0], l);
      match events[0] {
        case Frame(from, mac) =>
          LearnKeepsPlace(t, from, mac, l.n, ip);
        case Timer =>
          TickAdvances(t, l.d, ip);
          TickKeepsYoung(t, l.d, ip);
      }
      RecordSurvives(Step(t, events[0], l), events[1..], l, ip);
    }
  }

  /** Exactly when a silent record is lost early: within the limit, a record whose owner is not
      heard of survives a run if and only if no frame of the run fills the last slot. */
  lemma {:induction false} SurvivesIffNeverFills(t: seq<Line>, events: seq<Event>, l: Limits, ip: Ip)
    requires l.Valid() && Inv(t, l) && Silent(events, ip) && Knows(t, ip)
    requires t[Find(t, ip)].age + Ticks(events) <= l.d
    ensures Knows(Run(t, events, l), ip) <==> NeverFills(t, events, l)
    decreases |events|
  {
    hide Find, Tick, Learn;
    if events != [] {
      StepKeepsInv(t, events[0], l);
      match events[0] {
        case Frame(from, mac) =>
          LearnKeepsPlace(t, from, mac, l.n, ip);
        case Timer =>
          TickAdvances(t, l.d, ip);
          TickKeepsYoung(t, l.d, ip);
      }
      if Knows(Step(t, events[0], l), ip) {
        SurvivesIffNeverFills(Step(t, events[0], l), events[1..], l, ip);
      } else {
        StaysUnknown(Step(t, events[0], l), events[1..], l, ip);
      }
    }
  }

  function Timers(k: nat): (s: seq<Event>)
    ensures |s| == k && forall i | 0 <= i < k :: s[i] == Timer
  {
    seq(k, _ => Timer)
  }

  /** The late expiry is observable: of two records of the same age, the second is still in
      the table when the first one has been deleted, at the age limit and not beyond it. */
  lemma {:induction false} SkippedRecordOutlives(x: Line, y: Line, l: Limits)
    requires x.age == y.age <= l.d && x.ip != y.ip
    ensures Run([x, y], Timers(l.d + 1 - x.age), l) == [y.(age := l.d)]
    decreases l.d - x.age
  {
    var events := Timers(l.d + 1 - x.age);
    assert events[1..] == Timers(l.d - x.age);
    assert [x, y][1..] == [y] && [x, y][2..] == [];
    if x.age == l.d {
      assert Tick([x, y], l.d) == [y] + Tick([], l.d) == [y];
    } else {
      assert Tick([x, y], l.d) == [Aged(x)] + Tick([y], l.d) == [Aged(x), Aged(y)];
      SkippedRecordOutlives(Aged(x), Aged(y), l);
    }
  }

  // ----- the table as a map -----

  function MacOf(t: seq<Line>, ip: Ip): Option<Mac> {
    var k := Find(t, ip);
    if k < |t| then Some(t[k].mac) else None
  }

  /** The last MAC that announced ip in a run. */
  function LastAnnounced(events: seq<Event>, ip: Ip, otherwise: Option<Mac>): Option<Mac>
    decreases |events|
  {
    if events == [] then otherwise
    else LastAnnounced(events[1..], ip, if events[0].Frame? && events[0].ip == ip then Some(events[0].mac) else otherwise)
  }

  /** Learning is a map update, except that filling the table empties the map. */
  lemma LearnIsUpdate(t: seq<Line>, from: Ip, mac: Mac, n: nat, ip: Ip)
    ensures MacOf(Learn(t, from, mac, n), ip)
            == if !Knows(t, from) && |t| + 1 == n then None
               else if ip == from then Some(mac) else MacOf(t, ip)
  {
    LearnKeepsPlace(t, from, mac, n, ip);
  }

  /** Aging only forgets. */
  lemma TickOnlyForgets(t: seq<Line>, d: nat, ip: Ip)
    requires DistinctIps(t)
    ensures MacOf(Tick(t, d), ip) == MacOf(t, ip) || MacOf(Tick(t, d), ip) == None
  {
    TickAdvances(t, d, ip);
  }

  /** After any run, an address that the table knows is mapped to the MAC that announced it
      last. */
  lemma {:induction false} LookupIsLastAnnounced(t: seq<Line>, events: seq<Event>, l: Limits, ip: Ip, known: Option<Mac>)
    requires l.Valid() && Inv(t, l) && (Knows(t, ip) ==> MacOf(t, ip) == known)
    ensures Knows(Run(t, events, l), ip) ==> MacOf(Run(t, events, l), ip) == LastAnnounced(events, ip, known)
    decreases |events|
  {
    hide Find, Tick, Learn;
    if events != [] {
      StepKeepsInv(t, events[0], l);
      match events[0] {
        case Frame(from, mac) =>
          LearnKeepsPlace(t, from, mac, l.n, ip);
          LookupIsLastAnnounced(Step(t, events[0], l), events[1..], l, ip, if from == ip then Some(mac) else known);
        case Timer =>
          TickAdvances(t, l.d, ip);
          LookupIsLastAnnounced(Step(t, events[0], l), events[1..], l, ip, known);
      }
    }
  }

  // ----- refreshing requests -----

  function AgeOf(t: seq<Line>, ip: Ip): Option<nat> {
    var k := Find(t, ip);
    if k < |t| then Some(t[k].age) else None
  }

  lemma AgeInCons(x: Line, t: seq<Line>, ip: Ip)
    ensures AgeOf([x] + t, ip) == if x.ip == ip then Some(x.age) else AgeOf(t, ip)
  {
    FindInCons(x, t, ip);
  }

  lemma AbsentStaysAbsent(t: seq<Line>, d: nat, ip: Ip)
    requires DistinctIps(t) && forall i | 0 <= i < |t| :: t[i].ip != ip
    ensures AgeOf(t, ip) == None && AgeOf(Tick(t, d), ip) == None
  {
    TickAdvances(t, d, ip);
  }

  /** A refresh is requested for the records that the pass ages beyond the refresh time. */
  lemma {:induction false} DueIffAged(t: seq<Line>, d: nat, refresh: nat, ip: Ip)
    requires DistinctIps(t)
    ensures ip in Due(t, d, refresh)
            <==> AgeOf(t, ip).Some? && AgeOf(t, ip).value + 1 > refresh && AgeOf(Tick(t, d), ip) != AgeOf(t, ip)
    decreases |t|
  {
    hide AgeOf;
    if |t| == 0 {
      AbsentStaysAbsent(t, d, ip);
    } else {
      assert t == [t[0]] + t[1..];
      AgeInCons(t[0], t[1..], ip);
      if t[0].ip == ip {
        AbsentStaysAbsent(t[1..], d, ip);
      }
      if t[0].age + 1 <= d {
        DueIffAged(t[1..], d, refresh, ip);
        AgeInCons(Aged(t[0]), Tick(t[1..], d), ip);
      } else if |t| == 1 {
        AbsentStaysAbsent([], d, ip);
      } else {
        assert t[1..] == [t[1]] + t[2..];
        assert forall i | 2 <= i < |t| :: t[2..][i - 2] == t[i];
        AgeInCons(t[1], t[2..], ip);
        AgeInCons(t[1], Tick(t[2..], d), ip);
        DueIffAged(t[2..], d, refresh, ip);
        if t[0].ip == ip || t[1].ip == ip {
          AbsentStaysAbsent(t[2..], d, ip);
        }
      }
    }
  }

  // ----- which records a pass skips -----

  /** The records that a pass does not visit, read off the table before the pass: those right
      behind a record that it visits and deletes. In a row of records at the limit every second
      one is skipped. */
  predicate Skipped(t: seq<Line>, d: nat, k: nat)
    requires k < |t|
  {
    k > 0 && t[k - 1].age + 1 > d && !Skipped(t, d, k - 1)
  }

  lemma {:induction false} SkippedAfterKept(t: seq<Line>, d: nat, k: nat)
    requires 0 < k < |t| && t[0].age + 1 <= d
    ensures Skipped(t, d, k) <==> Skipped(t[1..], d, k - 1)
  {
    if k > 1 {
      SkippedAfterKept(t, d, k - 1);
    }
  }

  lemma {:induction false} SkippedAfterDeleted(t: seq<Line>, d: nat, k: nat)
    requires 1 < k < |t| && t[0].age + 1 > d
    ensures Skipped(t, d, k) <==> Skipped(t[2..], d, k - 2)
  {
    if k > 2 {
      SkippedAfterDeleted(t, d, k - 1);
    } else {
      assert Skipped(t, d, 1);
    }
  }

  /** What a pass does to each record of any table: a skipped one keeps its age, even at the
      limit, and every other one is aged or, at the limit, deleted. */
  lemma {:induction false} TickExactly(t: seq<Line>, d: nat, k: nat)
    requires DistinctIps(t) && k < |t|
    ensures AgeOf(Tick(t, d), t[k].ip)
            == if Skipped(t, d, k) then Some(t[k].age)
               else if t[k].age + 1 <= d then Some(t[k].age + 1)
               else None
    decreases |t|
  {
    hide AgeOf, Find, Tick;
    var ip := t[k].ip;
    AgeAfterPass(t, d, ip);
    if t[0].age + 1 <= d {
      if k > 0 {
        SkippedAfterKept(t, d, k);
        assert t[1..][k - 1] == t[k];
        TickExactly(t[1..], d, k - 1);
      }
    } else if k == 0 {
      if |t| > 1 {
        assert forall i | 2 <= i < |t| :: t[2..][i - 2] == t[i];
        AbsentStaysAbsent(t[2..], d, ip);
      }
    } else if k > 1 {
      SkippedAfterDeleted(t, d, k);
      assert t[2..][k - 2] == t[k];
      TickExactly(t[2..], d, k - 2);
    }
  }

  /** The first step of a pass, for one address. */
  lemma AgeAfterPass(t: seq<Line>, d: nat, ip: Ip)
    requires t != []
    ensures AgeOf(Tick(t, d), ip)
            == if t[0].age + 1 <= d then (if t[0].ip == ip then Some(t[0].age + 1) else AgeOf(Tick(t[1..], d), ip))
               else if |t| == 1 then None
               else if t[1].ip == ip then Some(t[1].age)
               else AgeOf(Tick(t[2..], d), ip)
  {
    if t[0].age + 1 <= d {
      AgeInCons(Aged(t[0]), Tick(t[1..], d), ip);
    } else if |t| > 1 {
      AgeInCons(t[1], Tick(t[2..], d), ip);
    }
  }

  /** A refresh is requested exactly for the records that are not skipped and are older than
      the refresh time once aged; a record that is deleted is asked for one last time. */
  lemma DueExactly(t: seq<Line>, d: nat, refresh: nat, ip: Ip)
    requires DistinctIps(t)
    ensures ip in Due(t, d, refresh)
            <==> Knows(t, ip) && t[Find(t, ip)].age + 1 > refresh && !Skipped(t, d, Find(t, ip))
  {
    DueIffAged(t, d, refresh, ip);
    if Knows(t, ip) {
      TickExactly(t, d, Find(t, ip));
    }
  }

  /** Addresses are asked for in table order, each at most once. */
  lemma {:induction false} DueInOrder(t: seq<Line>, d: nat, refresh: nat)
    ensures SubsequenceOf(Due(t, d, refresh), Ips(t))
    decreases |t|
  {
    if |t| > 0 {
      var rest := if t[0].age + 1 <= d || |t| == 1 then t[1..] else t[2..];
      DueInOrder(rest, d, refresh);
      assert |t| == 1 ==> Due(rest, d, refresh) == [];
      var due := Due(rest, d, refresh);
      if |rest| < |t| - 1 {
        assert Ips(t[1..]) == [t[1].ip] + Ips(rest);
        SubsequenceOfSuffix(due, [t[1].ip], Ips(rest));
      } else {
        assert rest == t[1..];
      }
      assert SubsequenceOf(due, Ips(t[1..]));
      assert Ips(t) == [t[0].ip] + Ips(t[1..]);
      SubsequenceCons(t[0].ip, due, Ips(t[1..]));
      SubsequenceOfSuffix(due, [t[0].ip], Ips(t[1..]));
      assert [] + due == due;
    }
  }
}
