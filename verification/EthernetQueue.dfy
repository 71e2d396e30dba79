/** The frame ring buffer: two wrapping cursors over preallocated frame buffers. */
module EthernetQueue {
  import opened Bytes
  import opened Sequences

  /** The difference a - b modulo c of two cursors below c. */
  function Distance(a: nat, b: nat, c: nat): nat
    requires a < c && b < c
  {
    if a >= b then a - b else a + c - b
  }

  /** The slot k places after cursor b. */
  function Slot(b: nat, k: nat, c: nat): nat
    requires b < c && k < c
  {
    if b + k < c then b + k else b + k - c
  }

  // ----- the abstract queue -----

  datatype Op = Push(frame: seq<byte>) | Pull

  /** A push into a ring of n slots that already holds n - 1 frames makes the write cursor meet
      the read cursor: all n frames are lost. */
  function Pushed(q: seq<seq<byte>>, f: seq<byte>, n: nat): seq<seq<byte>> {
    if |q| + 1 < n then q + [f] else []
  }

  function Contents(q: seq<seq<byte>>, ops: seq<Op>, n: nat): seq<seq<byte>>
    decreases |ops|
  {
    if ops == [] then q
    else if ops[0].Push? then Contents(Pushed(q, ops[0].frame, n), ops[1..], n)
    else Contents(if q == [] then q else q[1..], ops[1..], n)
  }

  /** The frames that the pulls of a run return. */
  function Outputs(q: seq<seq<byte>>, ops: seq<Op>, n: nat): seq<seq<byte>>
    decreases |ops|
  {
    if ops == [] then []
    else if ops[0].Push? then Outputs(Pushed(q, ops[0].frame, n), ops[1..], n)
    else if q == [] then Outputs(q, ops[1..], n)
    else [q[0]] + Outputs(q[1..], ops[1..], n)
  }

  function Inputs(ops: seq<Op>): seq<seq<byte>> {
    if ops == [] then [] else (if ops[0].Push? then [ops[0].frame] else []) + Inputs(ops[1..])
  }

  /** The frames that the pushes of a run wipe out: whatever a full ring holds, and the frame
      that was pushed into it. */
  function Lost(q: seq<seq<byte>>, ops: seq<Op>, n: nat): nat
    decreases |ops|
  {
    if ops == [] then 0
    else if ops[0].Push? then
      (if |q| + 1 < n then 0 else |q| + 1) + Lost(Pushed(q, ops[0].frame, n), ops[1..], n)
    else Lost(if q == [] then q else q[1..], ops[1..], n)
  }

  /** No push of the run finds the ring full. */
  predicate NeverFull(q: seq<seq<byte>>, ops: seq<Op>, n: nat)
    decreases |ops|
  {
    ops != [] ==>
      if ops[0].Push? then |q| + 1 < n && NeverFull(Pushed(q, ops[0].frame, n), ops[1..], n)
      else NeverFull(if q == [] then q else q[1..], ops[1..], n)
  }

  /** What one push and one pull do to outputs, contents and inputs of a run. */
  lemma PushEquations(q: seq<seq<byte>>, ops: seq<Op>, n: nat)
    requires ops != [] && ops[0].Push?
    ensures var q' := Pushed(q, ops[0].frame, n);
            && Outputs(q, ops, n) == Outputs(q', ops[1..], n) && Contents(q, ops, n) == Contents(q', ops[1..], n)
            && q' + Inputs(ops[1..]) == (if |q| + 1 < n then q + Inputs(ops) else Inputs(ops[1..]))
    ensures q + Inputs(ops) == q + [ops[0].frame] + Inputs(ops[1..])
  {
    assert Inputs(ops) == [ops[0].frame] + Inputs(ops[1..]);
    hide Inputs;
    assert q + ([ops[0].frame] + Inputs(ops[1..])) == q + [ops[0].frame] + Inputs(ops[1..]);
  }

  lemma ConsConcat(x: seq<byte>, a: seq<seq<byte>>, b: seq<seq<byte>>)
    ensures [x] + a + b == [x] + (a + b)
  {
  }

  lemma PullEquations(q: seq<seq<byte>>, ops: seq<Op>, n: nat)
    requires ops != [] && ops[0].Pull? && q != []
    ensures Outputs(q, ops, n) + Contents(q, ops, n)
            == [q[0]] + (Outputs(q[1..], ops[1..], n) + Contents(q[1..], ops[1..], n))
    ensures q + Inputs(ops) == [q[0]] + (q[1..] + Inputs(ops[1..]))
  {
    assert Inputs(ops) == Inputs(ops[1..]);
    assert Outputs(q, ops, n) == [q[0]] + Outputs(q[1..], ops[1..], n);
    assert Contents(q, ops, n) == Contents(q[1..], ops[1..], n);
    hide Inputs, Outputs, Contents;
    ConsConcat(q[0], Outputs(q[1..], ops[1..], n), Contents(q[1..], ops[1..], n));
    ConsConcat(q[0], q[1..], Inputs(ops[1..]));
    assert q == [q[0]] + q[1..];
  }

  lemma {:induction false} FifoWithoutLoss(q: seq<seq<byte>>, ops: seq<Op>, n: nat)
    requires NeverFull(q, ops, n)
    ensures Outputs(q, ops, n) + Contents(q, ops, n) == q + Inputs(ops)
    decreases |ops|
  {
    if ops != [] {
      var rest := ops[1..];
      if ops[0].Push? {
        PushEquations(q, ops, n);
        FifoWithoutLoss(Pushed(q, ops[0].frame, n), rest, n);
      } else if q == [] {
        FifoWithoutLoss(q, rest, n);
        assert Inputs(ops) == Inputs(rest);
      } else {
        PullEquations(q, ops, n);
        FifoWithoutLoss(q[1..], rest, n);
      }
      hide Outputs, Contents, Inputs, Pushed;
    }
  }

  /** As many frames went in as came out, are still there, or were wiped out. */
  lemma {:induction false} FramesAreCounted(q: seq<seq<byte>>, ops: seq<Op>, n: nat)
    ensures |Outputs(q, ops, n)| + |Contents(q, ops, n)| + Lost(q, ops, n) == |q| + |Inputs(ops)|
    ensures Lost(q, ops, n) == 0 <==> NeverFull(q, ops, n)
    decreases |ops|
  {
    if ops != [] {
      FramesAreCounted(if ops[0].Push? then Pushed(q, ops[0].frame, n) else if q == [] then q else q[1..], ops[1..], n);
    }
  }

  /** The ring is a first-in first-out queue over a run if and only if no push finds it full. */
  lemma FifoIffNeverFull(q: seq<seq<byte>>, ops: seq<Op>, n: nat)
    ensures Outputs(q, ops, n) + Contents(q, ops, n) == q + Inputs(ops) <==> NeverFull(q, ops, n)
  {
    FramesAreCounted(q, ops, n);
    if NeverFull(q, ops, n) {
      FifoWithoutLoss(q, ops, n);
    } else {
      assert |Outputs(q, ops, n) + Contents(q, ops, n)| != |q + Inputs(ops)|;
    }
  }

  // ----- what survives an overflow -----

  /** Over every run, what was pulled followed by what is stored are frames that went in, whole,
      each at most once and in push order; as many are missing as pushes into a full ring wiped
      out. */
  lemma {:induction false} FramesAreAccountedFor(q: seq<seq<byte>>, ops: seq<Op>, n: nat)
    ensures SubsequenceOf(Outputs(q, ops, n) + Contents(q, ops, n), q + Inputs(ops))
    ensures |Outputs(q, ops, n) + Contents(q, ops, n)| + Lost(q, ops, n) == |q + Inputs(ops)|
    decreases |ops|, 1
  {
    FramesAreCounted(q, ops, n);
    hide SubsequenceOf, Lost;
    if ops == [] {
      SubsequenceReflexive(q);
      assert [] + q == q == q + [];
    } else if ops[0].Push? {
      PushSurvives(q, ops, n);
    } else if q == [] {
      FramesAreAccountedFor(q, ops[1..], n);
      assert Inputs(ops) == Inputs(ops[1..]);
    } else {
      PullSurvives(q, ops, n);
    }
  }

  lemma PushSurvives(q: seq<seq<byte>>, ops: seq<Op>, n: nat)
    requires ops != [] && ops[0].Push?
    ensures SubsequenceOf(Outputs(q, ops, n) + Contents(q, ops, n), q + Inputs(ops))
    decreases |ops|, 0
  {
    var q' := Pushed(q, ops[0].frame, n);
    FramesAreAccountedFor(q', ops[1..], n);
    PushEquations(q, ops, n);
    hide SubsequenceOf, Lost, Inputs, Outputs, Contents, Pushed;
    if |q| + 1 >= n {
      SubsequenceOfSuffix(Outputs(q', ops[1..], n) + Contents(q', ops[1..], n), q + [ops[0].frame], Inputs(ops[1..]));
    }
  }

  lemma PullSurvives(q: seq<seq<byte>>, ops: seq<Op>, n: nat)
    requires ops != [] && ops[0].Pull? && q != []
    ensures SubsequenceOf(Outputs(q, ops, n) + Contents(q, ops, n), q + Inputs(ops))
    decreases |ops|, 0
  {
    FramesAreAccountedFor(q[1..], ops[1..], n);
    PullEquations(q, ops, n);
    hide SubsequenceOf, Lost, Inputs, Outputs, Contents;
    SubsequenceCons(q[0], Outputs(q[1..], ops[1..], n) + Contents(q[1..], ops[1..], n), q[1..] + Inputs(ops[1..]));
  }

  /** The frames between the two cursors, oldest first. */
  function Window(frames: seq<seq<byte>>, sizes: seq<nat>, bw: nat, br: nat): (q: seq<seq<byte>>)
    requires bw < |frames| == |sizes| && br < |frames|
    requires forall i | 0 <= i < |frames| :: sizes[i] <= |frames[i]|
    ensures |q| == Distance(bw, br, |frames|)
    ensures forall k | 0 <= k < |q| :: q[k] == frames[Slot(br, k, |frames|)][..sizes[Slot(br, k, |frames|)]]
  {
    var c := |frames|;
    seq(Distance(bw, br, c), k requires 0 <= k < Distance(bw, br, c) => frames[Slot(br, k, c)][..sizes[Slot(br, k, c)]])
  }

  // ----- the ring -----

  class EthernetQueue {
    const size: nat
    const frameLen: nat
    const isInitialized: bool
    var frames: array<seq<byte>>
    var frameSizes: array<nat>
    var bw: nat
    var br: nat
    var threshold: nat

    ghost predicate Valid()
      reads this, frames, frameSizes
    {
      isInitialized ==>
        && 0 < size == frames.Length == frameSizes.Length
        && bw < size && br < size
        && forall i | 0 <= i < size :: frameSizes[i] <= |frames[i]| == frameLen
    }

    /** The stored frames, oldest first. */
    ghost function Stored(): (q: seq<seq<byte>>)
      requires Valid() && isInitialized
      reads this, frames, frameSizes
    {
      Window(frames[..], frameSizes[..], bw, br)
    }

    /** Without slots, or without memory for them, the queue stays inert. */
    constructor (size: nat, frameLen: nat, granted: bool)
      ensures Valid() && isInitialized == (size > 0 && granted)
      ensures isInitialized ==> Stored() == [] && fresh(frames) && fresh(frameSizes)
      ensures this.size == size && this.frameLen == frameLen && threshold == 0
    {
      this.size, this.frameLen, isInitialized := size, frameLen, size > 0 && granted;
      frames := new seq<byte>[size](_ => Zeros(frameLen));
      frameSizes := new nat[size](_ => 0);
      bw, br, threshold := 0, 0, 0;
    }

    method PushFrame(frame: seq<byte>, n: nat)
      requires Valid() && n <= |frame| && n <= frameLen
      modifies this`bw, frames, frameSizes
      ensures Valid()
      ensures !isInitialized ==> bw == old(bw) && frames[..] == old(frames[..]) && frameSizes[..] == old(frameSizes[..])
      ensures isInitialized ==> Stored() == Pushed(old(Stored()), frame[..n], size)
    {
      if isInitialized {
        ghost var before := Stored();
        frames[bw] := frame[..n] + frames[bw][n..];
        frameSizes[bw] := n;
        assert frames[bw][..frameSizes[bw]] == frame[..n];
        bw := bw + 1;
        if bw == size {
          bw := 0;
        }
        assert forall k | 0 <= k < |before| && |before| + 1 < size :: Stored()[k] == before[k];
      }
    }

    /** Returns the oldest frame, or size 0 and no frame when there is none. */
    method PullFrame() returns (n: nat, frame: seq<byte>)
      requires Valid()
      modifies this`br
      ensures Valid()
      ensures !isInitialized || old(Stored()) == [] ==> n == 0 && frame == [] && br == old(br)
      ensures isInitialized && old(Stored()) != [] ==>
                frame == old(Stored())[0] && n == |frame| && Stored() == old(Stored())[1..]
    {
      n, frame := 0, [];
      if isInitialized {
        var count := Distance(bw, br, size);
        if count != 0 {
          n := frameSizes[br];
          frame := frames[br][..n];
          br := br + 1;
          if br == size {
            br := 0;
          }
        }
      }
    }

    method GetCount() returns (n: nat)
      requires Valid()
      ensures n == if isInitialized then |Stored()| else 0
    {
      n := if isInitialized then Distance(bw, br, size) else 0;
    }

    method GetFree() returns (n: nat)
      requires Valid()
      ensures if isInitialized then n + |Stored()| == size - 1 else n == 0
    {
      n := if isInitialized then size - 1 - Distance(bw, br, size) else 0;
    }

    method IsAboveThreshold() returns (above: bool)
      requires Valid()
      ensures above <==> isInitialized && |Stored()| >= threshold
    {
      above := isInitialized && Distance(bw, br, size) >= threshold;
    }
  }
}
