/** The transmit path as an abstract byte queue: one producer ingests 18-byte lanes byte by byte while
    a timer interrupt takes bytes out and replays them bit by bit, in any interleaving. */
module TransmitSpec {
  import opened Bytes

  const LANE_SIZE: nat := 18
  const RING_SIZE: nat := 512

  type ByteLane = s: seq<byte> | |s| == LANE_SIZE witness seq(LANE_SIZE, _ => 0)

  /** Where usb_ingest_stream_lane is: about to store byte i, about to advance past it and compare
      with the tail, or about to publish the new head. */
  datatype Producer =
    | Idle
    | Storing(lane: ByteLane, i: nat)
    | Checking(lane: ByteLane, i: nat)
    | Publishing(lane: ByteLane)

  datatype State = State(queue: seq<byte>, producer: Producer, bitIndex: nat, current: byte)

  datatype Event = Offer(lane: ByteLane) | Store | Advance | Publish | Tick

  const Start := State([], Idle, 0, 0)

  function Step(s: State, e: Event): State {
    match e
    case Offer(lane) => if s.producer.Idle? then s.(producer := Storing(lane, 0)) else s
    case Store =>
      if s.producer.Storing? then s.(producer := Checking(s.producer.lane, s.producer.i)) else s
    case Advance =>
      if !s.producer.Checking? then s
      else if |s.queue| + s.producer.i + 1 == RING_SIZE then s.(producer := Idle)
      else if s.producer.i + 1 < LANE_SIZE then s.(producer := Storing(s.producer.lane, s.producer.i + 1))
      else s.(producer := Publishing(s.producer.lane))
    case Publish =>
      if s.producer.Publishing? then s.(queue := s.queue + s.producer.lane, producer := Idle) else s
    case Tick =>
      if s.queue == [] then s.(bitIndex := 0)
      else if s.bitIndex == 0 then s.(queue := s.queue[1..], bitIndex := 1, current := s.queue[0])
      else s.(bitIndex := (s.bitIndex + 1) % 8)
  }

  /** The level a tick drives onto the pin. */
  predicate Level(s: State) {
    s.queue != [] && s.bitIndex < 8
    && if s.bitIndex == 0 then Bit(s.queue[0], 0) else Bit(s.current, s.bitIndex)
  }

  /** A run with everything accepted, everything taken out, every level driven, and whether some tick
      found the queue empty. */
  datatype Trace = Trace(s: State, accepted: seq<byte>, consumed: seq<byte>, outputs: seq<bool>, starved: bool)

  function Extend(t: Trace, e: Event): Trace {
    var s' := Step(t.s, e);
    match e
    case Publish =>
      t.(s := s', accepted := if t.s.producer.Publishing? then t.accepted + t.s.producer.lane else t.accepted)
    case Tick =>
      Trace(s', t.accepted,
            if t.s.queue != [] && t.s.bitIndex == 0 then t.consumed + [t.s.queue[0]] else t.consumed,
            t.outputs + [Level(t.s)],
            t.starved || t.s.queue == [])
    case _ => t.(s := s')
  }

  /** A run from state s, its history counted from there. */
  function RunFrom(s: State, events: seq<Event>): Trace {
    if events == [] then Trace(s, [], [], [], false)
    else Extend(RunFrom(s, events[..|events| - 1]), events[|events| - 1])
  }

  function Run(events: seq<Event>): Trace {
    RunFrom(Start, events)
  }

  /** Bytes stored beyond the published head. */
  function Staged(p: Producer): nat {
    match p
    case Idle => 0
    case Storing(_, i) => i
    case Checking(_, i) => i
    case Publishing(_) => LANE_SIZE
  }

  ghost predicate Fits(s: State) {
    && |s.queue| + Staged(s.producer) < RING_SIZE
    && (s.producer.Storing? || s.producer.Checking? ==> s.producer.i < LANE_SIZE)
    && s.bitIndex < 8
  }

  lemma StepFits(s: State, e: Event)
    requires Fits(s)
    ensures Fits(Step(s, e))
  {
  }

  /** Bytes taken out, then bytes queued, are those queued at the start, then those accepted. */
  ghost predicate Fifo(s: State, t: Trace) {
    Fits(t.s) && t.consumed + t.s.queue == s.queue + t.accepted
  }

  lemma StepIsFifo(s: State, t: Trace, e: Event)
    requires Fifo(s, t)
    ensures Fifo(s, Extend(t, e))
  {
    StepFits(t.s, e);
    if e.Publish? && t.s.producer.Publishing? {
      PublishIsFifo(t.consumed, t.s.queue, s.queue, t.accepted, t.s.producer.lane);
    } else if e.Tick? && t.s.queue != [] {
      TakeIsFifo(t.consumed, t.s.queue);
    }
  }

  lemma PublishIsFifo(consumed: seq<byte>, queue: seq<byte>, first: seq<byte>, accepted: seq<byte>, lane: seq<byte>)
    requires consumed + queue == first + accepted
    ensures consumed + (queue + lane) == first + (accepted + lane)
  {
    assert consumed + (queue + lane) == (consumed + queue) + lane;
    assert first + (accepted + lane) == (first + accepted) + lane;
  }

  lemma TakeIsFifo(consumed: seq<byte>, queue: seq<byte>)
    requires queue != []
    ensures (consumed + [queue[0]]) + queue[1..] == consumed + queue
  {
  }

  /** For every interleaving, bytes taken out followed by bytes queued are the accepted lanes in order:
      what is taken out is a prefix of what was accepted, and a rejected lane leaves no trace. */
  lemma {:induction false} QueueIsFifo(s: State, events: seq<Event>)
    requires Fits(s)
    ensures Fifo(s, RunFrom(s, events))
  {
    if events != [] {
      var before := events[..|events| - 1];
      QueueIsFifo(s, before);
      StepIsFifo(s, RunFrom(s, before), events[|events| - 1]);
    }
  }

  /** A lane is under way, and few enough bytes are queued for it to get through. */
  ghost predicate GettingThrough(s: State, lane: ByteLane) {
    match s.producer
    case Idle => false
    case Storing(l, _) => l == lane && |s.queue| + LANE_SIZE < RING_SIZE
    case Checking(l, _) => l == lane && |s.queue| + LANE_SIZE < RING_SIZE
    case Publishing(l) => l == lane
  }

  lemma RoomStep(s: State, e: Event, lane: ByteLane)
    requires Fits(s) && GettingThrough(s, lane)
    ensures GettingThrough(Step(s, e), lane) || (e.Publish? && s.producer == Publishing(lane))
  {
  }

  /** A lane offered with at most 493 bytes queued is never rejected: whatever the replay and the producer do,
      it is still under way or it is the first lane accepted since. */
  lemma {:induction false} RoomIsNotLost(s: State, lane: ByteLane, events: seq<Event>)
    requires Fits(s) && s.producer.Idle? && |s.queue| <= 493
    ensures var t := RunFrom(Step(s, Offer(lane)), events);
      (GettingThrough(t.s, lane) && t.accepted == []) || lane <= t.accepted
  {
    var start := Step(s, Offer(lane));
    if events != [] {
      var before := events[..|events| - 1];
      RoomIsNotLost(s, lane, before);
      StepFits(s, Offer(lane));
      QueueIsFifo(start, before);
      var t := RunFrom(start, before);
      if t.accepted == [] && GettingThrough(t.s, lane) {
        RoomStep(t.s, events[|events| - 1], lane);
      }
    }
  }

  /** The levels driven so far are the first bits of the accepted bytes, and the byte being shown is
      the last one taken out. */
  ghost predicate Faithful(t: Trace) {
    && |t.outputs| <= 8 * |t.consumed| < |t.outputs| + 8
    && (forall k :: 0 <= k < |t.outputs| ==> t.outputs[k] == Bit(t.consumed[k / 8], k % 8))
    && t.s.bitIndex == |t.outputs| % 8
    && (t.consumed != [] ==> t.s.current == t.consumed[|t.consumed| - 1])
  }

  lemma FirstBitIsFaithful(t: Trace)
    requires Fits(t.s) && Faithful(t) && t.s.queue != [] && t.s.bitIndex == 0
    ensures Faithful(Extend(t, Tick))
  {
    var n, t' := |t.outputs|, Extend(t, Tick);
    assert 8 * |t.consumed| == n;
    forall k: nat | k <= n
      ensures t'.outputs[k] == Bit(t'.consumed[k / 8], k % 8)
    {
      if k < n { assert t'.consumed[k / 8] == t.consumed[k / 8]; }
    }
  }

  lemma NextBitIsFaithful(t: Trace)
    requires Fits(t.s) && Faithful(t) && t.s.queue != [] && t.s.bitIndex != 0
    ensures Faithful(Extend(t, Tick))
  {
    var n, t' := |t.outputs|, Extend(t, Tick);
    assert n / 8 == |t.consumed| - 1;
    forall k: nat | k <= n
      ensures t'.outputs[k] == Bit(t'.consumed[k / 8], k % 8)
    {
    }
  }

  lemma StepIsFaithful(t: Trace, e: Event)
    requires Fits(t.s) && Faithful(t)
    ensures Extend(t, e).starved || Faithful(Extend(t, e))
  {
    if !e.Tick? {
      OtherStepIsFaithful(t, e);
    } else if t.s.queue != [] {
      hide Faithful;
      if t.s.bitIndex == 0 { FirstBitIsFaithful(t); } else { NextBitIsFaithful(t); }
    }
  }

  lemma OtherStepIsFaithful(t: Trace, e: Event)
    requires Faithful(t) && !e.Tick?
    ensures Faithful(Extend(t, e))
  {
    hide Bit, Extend;
    OtherStepShowsNothing(t, e);
  }

  lemma OtherStepShowsNothing(t: Trace, e: Event)
    requires !e.Tick?
    ensures var t' := Extend(t, e);
      t'.outputs == t.outputs && t'.consumed == t.consumed
      && t'.s.bitIndex == t.s.bitIndex && t'.s.current == t.s.current
  {
  }

  /** From any state about to take a byte, until a tick finds the queue empty. */
  lemma {:induction false} RunIsFaithful(s: State, events: seq<Event>)
    requires Fits(s) && s.bitIndex == 0
    ensures RunFrom(s, events).starved || Faithful(RunFrom(s, events))
  {
    if events != [] {
      var before := events[..|events| - 1];
      RunIsFaithful(s, before);
      QueueIsFifo(s, before);
      if !RunFrom(s, before).starved {
        StepIsFaithful(RunFrom(s, before), events[|events| - 1]);
      }
    }
  }

  /** While the queue never runs dry the pin shows exactly the queued and then the accepted bytes, low bit
      first, and no byte is taken out early. */
  lemma {:induction false} ReplayIsUnpack(s: State, events: seq<Event>)
    requires Fits(s) && s.bitIndex == 0
    ensures var t := RunFrom(s, events);
      t.starved || (t.outputs <= Unpack(s.queue + t.accepted) && |t.consumed| == (|t.outputs| + 7) / 8)
  {
    var t := RunFrom(s, events);
    RunIsFaithful(s, events);
    QueueIsFifo(s, events);
    if !t.starved {
      assert t.consumed <= s.queue + t.accepted;
    }
  }

  /** A tick that finds the queue empty drives the pin low and leaves the replay about to take a byte. */
  lemma EmptyTickRealigns(s: State)
    requires s.queue == []
    ensures !Level(s) && Step(s, Tick) == s.(bitIndex := 0)
  {
  }

  lemma {:induction false} RunSplits(s: State, before: seq<Event>, after: seq<Event>)
    ensures var t, u := RunFrom(s, before), RunFrom(RunFrom(s, before).s, after);
      RunFrom(s, before + after)
      == Trace(u.s, t.accepted + u.accepted, t.consumed + u.consumed, t.outputs + u.outputs, t.starved || u.starved)
  {
    hide Extend;
    if after == [] {
      assert before + after == before;
    } else {
      var n := |after| - 1;
      RunSplits(s, before, after[..n]);
      assert (before + after)[..|before| + n] == before + after[..n];
      ExtendSplits(RunFrom(s, before), RunFrom(RunFrom(s, before).s, after[..n]), after[n]);
    }
  }

  lemma ExtendSplits(t: Trace, u: Trace, e: Event)
    ensures var v := Extend(u, e);
      Extend(Trace(u.s, t.accepted + u.accepted, t.consumed + u.consumed, t.outputs + u.outputs, t.starved || u.starved), e)
      == Trace(v.s, t.accepted + v.accepted, t.consumed + v.consumed, t.outputs + v.outputs, t.starved || v.starved)
  {
  }

  /** Every stretch between two empty ticks: begun right after reset or after a tick that found the queue empty,
      it shows exactly what is queued and then accepted, low bit first. */
  lemma StretchIsUnpack(before: seq<Event>, during: seq<Event>)
    requires before == [] || (before[|before| - 1].Tick? && Run(before[..|before| - 1]).s.queue == [])
    ensures var s := Run(before).s;
      var t := RunFrom(s, during);
      Run(before + during).outputs == Run(before).outputs + t.outputs
      && (t.starved || t.outputs <= Unpack(s.queue + t.accepted))
  {
    var s := Run(before).s;
    QueueIsFifo(Start, before);
    if before != [] {
      EmptyTickRealigns(Run(before[..|before| - 1]).s);
    }
    RunSplits(Start, before, during);
    ReplayIsUnpack(s, during);
  }

  function Ticks(s: State, n: nat): State {
    if n == 0 then s else Step(Ticks(s, n - 1), Tick)
  }

  /** The levels of n consecutive ticks with nothing arriving. */
  function Levels(s: State, n: nat): (r: seq<bool>)
    ensures |r| == n
  {
    if n == 0 then [] else Levels(s, n - 1) + [Level(Ticks(s, n - 1))]
  }

  /** The level shown k ticks into a drain of `queue`: every bit of all bytes but the last, then only
      the low bit of the last byte, then low. */
  predicate DrainLevel(queue: seq<byte>, k: nat)
    requires queue != []
  {
    k <= 8 * (|queue| - 1) && Bit(queue[k / 8], k % 8)
  }

  ghost predicate Draining(s: State, queue: seq<byte>, k: nat)
    requires queue != []
  {
    var last := 8 * (|queue| - 1);
    if k <= last then
      s.queue == queue[(k + 7) / 8..] && s.bitIndex == k % 8 && (k > 0 ==> s.current == queue[(k - 1) / 8])
    else
      s.queue == [] && s.bitIndex < 8
  }

  lemma DrainStep(s: State, queue: seq<byte>, k: nat)
    requires queue != [] && Draining(s, queue, k)
    ensures Draining(Step(s, Tick), queue, k + 1)
    ensures Level(s) == DrainLevel(queue, k)
  {
    var last := 8 * (|queue| - 1);
    if k <= last {
      if k % 8 == 0 {
        assert (k + 7) / 8 == k / 8 && (k + 8) / 8 == k / 8 + 1;
        assert s.queue[0] == queue[k / 8] && s.queue[1..] == queue[k / 8 + 1..];
      } else {
        assert (k - 1) / 8 == k / 8 && (k + 7) / 8 == (k + 8) / 8;
      }
    }
  }

  lemma {:induction false} DrainReaches(s: State, n: nat)
    requires s.queue != [] && s.bitIndex == 0
    ensures Draining(Ticks(s, n), s.queue, n)
  {
    hide Draining, Step;
    if n == 0 {
      DrainStart(s);
      assert Ticks(s, n) == s;
    } else {
      DrainReaches(s, n - 1);
      var before := Ticks(s, n - 1);
      DrainStep(before, s.queue, n - 1);
      assert Ticks(s, n) == Step(before, Tick);
      assert n - 1 + 1 == n;
    }
  }

  lemma {:induction false} DrainLevels(s: State, n: nat, k: nat)
    requires s.queue != [] && s.bitIndex == 0 && k < n
    ensures Levels(s, n)[k] == DrainLevel(s.queue, k)
  {
    if k < n - 1 {
      DrainLevels(s, n - 1, k);
    } else {
      DrainReaches(s, k);
      DrainStep(Ticks(s, k), s.queue, k);
    }
  }

  lemma DrainStart(s: State)
    requires s.queue != [] && s.bitIndex == 0
    ensures Draining(s, s.queue, 0)
  {
  }

  /** A drain shows the whole buffer exactly when the upper seven bits of its last byte are zero. */
  lemma {:induction false} DrainCompleteIff(s: State)
    requires s.queue != [] && s.bitIndex == 0
    ensures Levels(s, 8 * |s.queue|) == Unpack(s.queue)
            <==> s.queue[|s.queue| - 1] & 0xFE == 0
  {
    var n, shown := |s.queue|, Levels(s, 8 * |s.queue|);
    forall k: nat | k < 8 * n
      ensures shown[k] == DrainLevel(s.queue, k)
    {
      DrainLevels(s, 8 * n, k);
    }
    UpperBitsClear(s.queue[n - 1]);
    DrainShows(s.queue, shown);
  }

  lemma DrainShows(queue: seq<byte>, shown: seq<bool>)
    requires queue != [] && |shown| == 8 * |queue|
    requires forall k :: 0 <= k < |shown| ==> shown[k] == DrainLevel(queue, k)
    ensures var last := queue[|queue| - 1]; shown == Unpack(queue) <==> forall j :: 0 < j < 8 ==> !Bit(last, j)
  {
    var first := 8 * (|queue| - 1);
    var last := queue[|queue| - 1];
    forall j: nat | 0 < j < 8
      ensures Unpack(queue)[first + j] == Bit(last, j) && !shown[first + j]
    {
    }
    if forall j :: 0 < j < 8 ==> !Bit(last, j) {
      forall k: nat | k < |shown|
        ensures shown[k] == Unpack(queue)[k]
      {
        if k > first { assert !Bit(last, k - first) && k % 8 == k - first && k / 8 == |queue| - 1; }
      }
    }
  }

  lemma UpperBitsClear(b: byte)
    ensures b & 0xFE == 0 <==> forall j :: 0 < j < 8 ==> !Bit(b, j)
  {
    assert b & 0xFE == 0 <==> !Bit(b, 1) && !Bit(b, 2) && !Bit(b, 3) && !Bit(b, 4) && !Bit(b, 5) && !Bit(b, 6) && !Bit(b, 7);
  }
}
