/** The monitor's polls of a running replay: with an exact clock, only an underrun can lead to its timeout. */
module ReplayMonitor {
  import opened Bytes
  import opened TransmitSpec
  import M = Monitor

  const POLL_US := 10_000

  /** What had happened by each poll, and the fill level it saw. */
  ghost predicate Polled(polls: seq<seq<Event>>, levels: seq<nat>) {
    |levels| == |polls|
    && (forall k :: 0 <= k < |polls| ==> levels[k] == |Run(polls[k]).s.queue|)
    && (forall k, l :: 0 <= k <= l < |polls| ==> polls[k] <= polls[l])
  }

  /** The replay timer ticks every t microseconds and the polls are 10 ms apart, from poll i to poll j. */
  ghost predicate ExactClock(polls: seq<seq<Event>>, i: nat, j: nat, t: nat, phase: int)
    requires j < |polls|
  {
    t > 0 && forall k :: i <= k <= j ==> |Run(polls[k]).outputs| == (POLL_US * k + phase) / t
  }

  /** What happened from poll i to poll k. */
  function Since(polls: seq<seq<Event>>, i: nat, k: nat): Trace
    requires i <= k < |polls| && |polls[i]| <= |polls[k]|
  {
    RunFrom(Run(polls[i]).s, polls[k][|polls[i]|..])
  }

  // ----- Counting -----

  /** Lanes are accepted whole. */
  lemma {:induction false} AcceptedInLanes(s: State, events: seq<Event>)
    ensures |RunFrom(s, events).accepted| % LANE_SIZE == 0
  {
    if events != [] {
      AcceptedInLanes(s, events[..|events| - 1]);
    }
  }

  /** Bits shown since the start of the byte s was showing. */
  function Shown(s: State, t: Trace): nat {
    s.bitIndex + |t.outputs|
  }

  ghost predicate Counted(s: State, t: Trace) {
    t.s.bitIndex == Shown(s, t) % 8 && |t.consumed| == (Shown(s, t) + 7) / 8 - (s.bitIndex + 7) / 8
  }

  lemma Eighth(p: nat)
    ensures (p + 8) / 8 == (p + 7) / 8 + (if p % 8 == 0 then 1 else 0) && (p + 1) % 8 == (p % 8 + 1) % 8
  {
  }

  lemma TickCounts(s: State, t: Trace)
    requires Counted(s, t) && t.s.queue != []
    ensures Counted(s, Extend(t, Tick))
  {
    Eighth(Shown(s, t));
  }

  /** Without an underrun every eighth tick takes a byte. */
  lemma {:induction false} TakesEveryEighth(s: State, events: seq<Event>)
    requires Fits(s)
    ensures RunFrom(s, events).starved || Counted(s, RunFrom(s, events))
  {
    if events != [] {
      var before, e := events[..|events| - 1], events[|events| - 1];
      TakesEveryEighth(s, before);
      var t := RunFrom(s, before);
      assert RunFrom(s, events) == Extend(t, e);
      if e.Tick? && t.s.queue != [] && !t.starved {
        TickCounts(s, t);
      }
    }
  }

  /** Two multiples of 18 that are both within one of the same quotient are equal. */
  lemma SameStep(d: nat, c: int, e: int)
    requires d > 0 && POLL_US - d < d * c < POLL_US + d && POLL_US - d < d * e < POLL_US + d
    requires c % LANE_SIZE == 0 && e % LANE_SIZE == 0
    ensures c == e
  {
    if c < e {
      Wide(d, e - c);
    } else if e < c {
      Wide(d, c - e);
    }
  }

  lemma Wide(d: nat, n: int)
    requires n >= 2
    ensures d * n >= 2 * d
  {
  }

  /** A count that keeps within one of 10000 per poll, in units of d, and rises by multiples of 18, rises by the
      same each time. */
  ghost predicate Steady(h: seq<int>, d: nat, psi: int) {
    (forall k :: 0 <= k < |h| ==> d * h[k] <= POLL_US * k + psi < d * h[k] + d)
    && (forall k :: 0 <= k < |h| - 1 ==> (h[k + 1] - h[k]) % LANE_SIZE == 0)
  }

  lemma StepBounds(h: seq<int>, d: nat, psi: int, k: nat)
    requires d > 0 && Steady(h, d, psi) && k + 1 < |h|
    ensures POLL_US - d < d * (h[k + 1] - h[k]) < POLL_US + d && (h[k + 1] - h[k]) % LANE_SIZE == 0
  {
    assert d * (h[k + 1] - h[k]) == d * h[k + 1] - d * h[k];
  }

  lemma {:induction false} SteadyRise(h: seq<int>, d: nat, psi: int, k: nat)
    requires d > 0 && Steady(h, d, psi) && k < |h| && |h| >= 2
    ensures h[k] == h[0] + k * (h[1] - h[0])
  {
    if k > 0 {
      SteadyRise(h, d, psi, k - 1);
      StepBounds(h, d, psi, k - 1);
      StepBounds(h, d, psi, 0);
      SameStep(d, h[k] - h[k - 1], h[1] - h[0]);
    }
  }

  /** No tick period of 5 to 255 microseconds takes whole lanes from poll to poll for 2 s. */
  lemma NoCommonRate(h: seq<int>, t: nat, psi: int)
    requires 5 <= t <= 255 && |h| == 201
    ensures !Steady(h, 8 * t, psi)
  {
    var d := 8 * t;
    if Steady(h, d, psi) {
      SteadyRise(h, d, psi, 200);
      StepBounds(h, d, psi, 0);
      var n := (h[1] - h[0]) / LANE_SIZE;
      assert h[1] - h[0] == 18 * n;
      assert h[200] - h[0] == 3600 * n;
      Total(h[0], h[200], d, psi);
      FarFromTotal(t, n);
    }
  }

  lemma Total(first: int, last: int, d: nat, psi: int)
    requires d * first <= psi < d * first + d && d * last <= POLL_US * 200 + psi < d * last + d
    ensures 2_000_000 - d < d * (last - first) < 2_000_000 + d
  {
    assert d * (last - first) == d * last - d * first;
  }

  /** 28800 has no multiple within 2040 of 2000000. */
  lemma FarFromTotal(t: nat, n: int)
    requires t <= 255
    ensures !(2_000_000 - 8 * t < (8 * t) * (3600 * n) < 2_000_000 + 8 * t)
  {
    var m := t * n;
    assert (8 * t) * (3600 * n) == 28800 * m;
  }

  // ----- The polls -----

  /** Bytes begun by poll k, counted from the byte shown at poll i. */
  function Begun(polls: seq<seq<Event>>, i: nat, k: nat): (n: nat)
    requires i <= k < |polls| && |polls[i]| <= |polls[k]|
  {
    (Shown(Run(polls[i]).s, Since(polls, i, k)) + 7) / 8
  }

  lemma SinceIs(polls: seq<seq<Event>>, levels: seq<nat>, i: nat, k: nat)
    requires Polled(polls, levels) && i <= k < |polls|
    ensures |polls[i]| <= |polls[k]| && Fits(Run(polls[i]).s)
    ensures var u := Since(polls, i, k);
      Run(polls[k]).s == u.s && |Run(polls[k]).outputs| == |Run(polls[i]).outputs| + |u.outputs|
      && |u.consumed| + levels[k] == levels[i] + |u.accepted| && |u.accepted| % LANE_SIZE == 0
  {
    hide RunFrom, Fits, Fifo;
    assert polls[i] <= polls[k];
    var rest := polls[k][|polls[i]|..];
    assert polls[k] == polls[i] + rest;
    RunSplits(Start, polls[i], rest);
    FifoFromStart(polls[i]);
    FifoHere(Run(polls[i]).s, rest);
    AcceptedInLanes(Run(polls[i]).s, rest);
  }

  lemma FifoFromStart(events: seq<Event>)
    ensures Fits(Run(events).s)
  {
    QueueIsFifo(Start, events);
  }

  lemma FifoHere(s: State, events: seq<Event>)
    requires Fits(s)
    ensures var u := RunFrom(s, events); |u.consumed| + |u.s.queue| == |s.queue| + |u.accepted|
  {
    QueueIsFifo(s, events);
    var u := RunFrom(s, events);
    assert |u.consumed + u.s.queue| == |s.queue + u.accepted|;
  }

  lemma {:induction false} StarvedStays(s: State, before: seq<Event>, after: seq<Event>)
    requires before <= after && RunFrom(s, before).starved
    ensures RunFrom(s, after).starved
  {
    if |before| < |after| {
      StarvedStays(s, before, after[..|after| - 1]);
    } else {
      assert before == after;
    }
  }

  lemma NotYetStarved(polls: seq<seq<Event>>, levels: seq<nat>, i: nat, k: nat, j: nat)
    requires Polled(polls, levels) && i <= k <= j < |polls| && |polls[i]| <= |polls[k]| <= |polls[j]|
    requires !Since(polls, i, j).starved
    ensures !Since(polls, i, k).starved
  {
    hide RunFrom;
    var s, n := Run(polls[i]).s, |polls[i]|;
    assert polls[k][n..] <= polls[j][n..];
    if Since(polls, i, k).starved {
      StarvedStays(s, polls[k][n..], polls[j][n..]);
    }
  }

  /** Without an underrun, at an unchanged level, the bytes begun are whole lanes on from those at poll i, and
      follow the clock. */
  lemma BegunInLanes(polls: seq<seq<Event>>, levels: seq<nat>, i: nat, k: nat, j: nat, t: nat, phase: int)
    requires Polled(polls, levels) && i <= k <= j < |polls| && ExactClock(polls, i, j, t, phase)
    requires levels[k] == levels[i] && |polls[i]| <= |polls[k]| && !Since(polls, i, k).starved
    ensures (Begun(polls, i, k) - (Run(polls[i]).s.bitIndex + 7) / 8) % LANE_SIZE == 0
    ensures var psi := t * (Run(polls[i]).s.bitIndex + 7) - t * |Run(polls[i]).outputs| + POLL_US * i + phase;
      8 * t * Begun(polls, i, k) <= POLL_US * (k - i) + psi < 8 * t * Begun(polls, i, k) + 8 * t
  {
    hide RunFrom, Fits;
    SinceIs(polls, levels, i, k);
    TakesEveryEighth(Run(polls[i]).s, polls[k][|polls[i]|..]);
    var b, o, from := Run(polls[i]).s.bitIndex, |Since(polls, i, k).outputs|, |Run(polls[i]).outputs|;
    assert from + o == (POLL_US * k + phase) / t;
    NestedFloor(POLL_US * k + phase, t, from, b + 7, o);
  }

  lemma NestedFloor(x: int, t: nat, from: nat, c: nat, o: nat)
    requires t > 0 && from + o == x / t
    ensures var h := (c + o) / 8; 8 * t * h <= x + t * c - t * from < 8 * t * h + 8 * t
  {
    var h := (c + o) / 8;
    Quotient(x, t);
    assert t * (from + o) == t * from + t * o;
    Scaled(t, 8 * h, c + o);
    Scaled(t, c + o + 1, 8 * h + 8);
    assert t * (c + o) == t * c + t * o && t * (c + o + 1) == t * c + t * o + t;
    assert t * (8 * h) == 8 * t * h && t * (8 * h + 8) == 8 * t * h + 8 * t;
  }

  lemma Quotient(x: int, t: nat)
    requires t > 0
    ensures t * (x / t) <= x < t * (x / t) + t
  {
  }

  lemma Scaled(t: nat, a: int, b: int)
    requires a <= b
    ensures t * a <= t * b
  {
  }

  /** With an exact clock, a timeout of the monitor is always preceded by an underrun: some tick within those
      2 s found the buffer empty. */
  lemma TimeoutMeansUnderrun(polls: seq<seq<Event>>, levels: seq<nat>, s: nat, j: nat, t: nat, phase: int)
    requires Polled(polls, levels) && j < |polls| && M.Stuck(levels, s, j)
    requires 5 <= t <= 255 && ExactClock(polls, j - 200, j, t, phase)
    ensures |polls[j - 200]| <= |polls[j]| && Since(polls, j - 200, j).starved
  {
    hide RunFrom, ExactClock;
    var i := j - 200;
    SinceIs(polls, levels, i, j);
    if !Since(polls, i, j).starved {
      var psi := t * (Run(polls[i]).s.bitIndex + 7) - t * |Run(polls[i]).outputs| + POLL_US * i + phase;
      forall l: nat | i <= l <= j
        ensures |polls[i]| <= |polls[l]|
      {
        SinceIs(polls, levels, i, l);
      }
      var h: seq<int> := seq(201, k requires 0 <= k <= 200 => Begun(polls, i, i + k));
      SteadyPolls(polls, levels, s, j, t, phase, h, psi);
      NoCommonRate(h, t, psi);
    }
  }

  lemma SteadyPolls(polls: seq<seq<Event>>, levels: seq<nat>, s: nat, j: nat, t: nat, phase: int, h: seq<int>, psi: int)
    requires Polled(polls, levels) && j < |polls| && M.Stuck(levels, s, j)
    requires t > 0 && ExactClock(polls, j - 200, j, t, phase)
    requires |polls[j - 200]| <= |polls[j]| && !Since(polls, j - 200, j).starved
    requires forall l: nat :: j - 200 <= l <= j ==> |polls[j - 200]| <= |polls[l]|
    requires |h| == 201 && forall k: nat :: k <= 200 ==> h[k] == Begun(polls, j - 200, j - 200 + k)
    requires psi == t * (Run(polls[j - 200]).s.bitIndex + 7) - t * |Run(polls[j - 200]).outputs|
      + POLL_US * (j - 200) + phase
    ensures Steady(h, 8 * t, psi)
  {
    hide RunFrom, ExactClock, Begun;
    var i, c := j - 200, (Run(polls[j - 200]).s.bitIndex + 7) / 8;
    forall k: nat | k <= 200
      ensures 8 * t * h[k] <= POLL_US * k + psi < 8 * t * h[k] + 8 * t && (h[k] - c) % LANE_SIZE == 0
    {
      SinceIs(polls, levels, i + k, j);
      NotYetStarved(polls, levels, i, i + k, j);
      BegunInLanes(polls, levels, i, i + k, j, t, phase);
    }
    forall k: nat | k < 200
      ensures (h[k + 1] - h[k]) % LANE_SIZE == 0
    {
      BothMultiples(h[k + 1] - c, h[k] - c);
    }
  }

  lemma BothMultiples(a: int, b: int)
    requires a % LANE_SIZE == 0 && b % LANE_SIZE == 0
    ensures (a - b) % LANE_SIZE == 0
  {
  }

  // ----- A slow stream does time out -----

  /** The producer's steps over the first n bytes of a lane. */
  function Stores(n: nat): seq<Event> {
    if n == 0 then [] else Stores(n - 1) + [Store, Advance]
  }

  function Ingest(lane: ByteLane): seq<Event> {
    [Offer(lane)] + Stores(LANE_SIZE) + [Publish]
  }

  function Pause(n: nat): seq<Event> {
    if n == 0 then [] else Pause(n - 1) + [Tick]
  }

  lemma RunOne(s: State, events: seq<Event>, e: Event)
    ensures RunFrom(s, events + [e]) == Extend(RunFrom(s, events), e)
  {
    assert (events + [e])[..|events|] == events;
  }

  lemma {:induction false} StoresRun(s: State, lane: ByteLane, n: nat)
    requires s.producer == Storing(lane, 0) && |s.queue| <= 493 && n <= LANE_SIZE
    ensures RunFrom(s, Stores(n)) == Trace(
      s.(producer := if n < LANE_SIZE then Storing(lane, n) else Publishing(lane)), [], [], [], false)
  {
    if n > 0 {
      StoresRun(s, lane, n - 1);
      RunOne(s, Stores(n - 1), Store);
      RunOne(s, Stores(n - 1) + [Store], Advance);
      assert Stores(n) == Stores(n - 1) + [Store] + [Advance];
    }
  }

  /** An undisturbed ingest appends the lane. */
  lemma IngestRun(s: State, lane: ByteLane)
    requires s.producer.Idle? && |s.queue| <= 493
    ensures RunFrom(s, Ingest(lane)) == Trace(s.(queue := s.queue + lane), lane, [], [], false)
  {
    hide RunFrom;
    var offered := s.(producer := Storing(lane, 0));
    OfferRun(s, lane);
    StoresRun(offered, lane, LANE_SIZE);
    RunSplits(s, [Offer(lane)], Stores(LANE_SIZE));
    RunOne(s, [Offer(lane)] + Stores(LANE_SIZE), Publish);
    assert RunFrom(s, Ingest(lane)).accepted == lane;
  }

  lemma OfferRun(s: State, lane: ByteLane)
    requires s.producer.Idle?
    ensures RunFrom(s, [Offer(lane)]) == Trace(s.(producer := Storing(lane, 0)), [], [], [], false)
  {
    assert [Offer(lane)][..0] == [];
  }

  lemma {:induction false} PauseRun(s: State, n: nat)
    ensures RunFrom(s, Pause(n)).s == Ticks(s, n) && |RunFrom(s, Pause(n)).outputs| == n
    ensures Ticks(s, n).producer == s.producer
  {
    if n > 0 {
      hide Step, RunFrom, Level;
      PauseRun(s, n - 1);
      RunOne(s, Pause(n - 1), Tick);
      TickKeepsProducer(Ticks(s, n - 1));
    }
  }

  lemma TickKeepsProducer(s: State)
    ensures Step(s, Tick).producer == s.producer
  {
  }

  /** 2000 ticks take 250 bytes, or all there are. */
  lemma PauseDrains(s: State)
    requires s.queue != [] && s.bitIndex == 0 && (|s.queue| <= 250 || |s.queue| == 252)
    ensures Ticks(s, 2000).queue == (if |s.queue| == 252 then s.queue[250..] else []) && Ticks(s, 2000).bitIndex == 0
  {
    hide Ticks, Step;
    DrainReaches(s, 2000);
    DrainReaches(s, 1999);
    LastTick(s);
    AtTick2000(s, Ticks(s, 1999), Ticks(s, 2000));
  }

  lemma LastTick(s: State)
    ensures Ticks(s, 2000) == Step(Ticks(s, 1999), Tick)
  {
  }

  lemma AtTick2000(s: State, before: State, after: State)
    requires s.queue != [] && (|s.queue| <= 250 || |s.queue| == 252) && after == Step(before, Tick)
    requires Draining(before, s.queue, 1999) && Draining(after, s.queue, 2000)
    ensures after.queue == (if |s.queue| == 252 then s.queue[250..] else []) && after.bitIndex == 0
  {
  }

  function Fill(lane: ByteLane, n: nat): seq<Event> {
    if n == 0 then [] else Fill(lane, n - 1) + Ingest(lane)
  }

  /** Up to poll k: 14 lanes at once, then one lane per poll, just before it, at a tick of 5 microseconds. */
  function SlowStream(lane: ByteLane, k: nat): seq<Event> {
    if k == 0 then Fill(lane, 14)
    else if k == 1 then Fill(lane, 14) + Pause(2000)
    else SlowStream(lane, k - 1) + Pause(2000) + Ingest(lane)
  }

  ghost predicate Resting(t: Trace, queued: nat, ticks: nat) {
    t.s.producer.Idle? && t.s.bitIndex == 0 && |t.s.queue| == queued && |t.outputs| == ticks
  }

  lemma IngestRests(lane: ByteLane, before: seq<Event>, queued: nat, ticks: nat)
    requires Resting(Run(before), queued, ticks) && queued <= 493
    ensures Resting(Run(before + Ingest(lane)), queued + 18, ticks)
  {
    hide RunFrom, Ingest;
    RunSplits(Start, before, Ingest(lane));
    IngestRun(Run(before).s, lane);
  }

  lemma PauseRests(before: seq<Event>, queued: nat, ticks: nat)
    requires Resting(Run(before), queued, ticks) && (0 < queued <= 250 || queued == 252)
    ensures Resting(Run(before + Pause(2000)), if queued == 252 then 2 else 0, ticks + 2000)
  {
    hide RunFrom, Pause, Ticks;
    RunSplits(Start, before, Pause(2000));
    PauseRun(Run(before).s, 2000);
    PauseDrains(Run(before).s);
  }

  lemma {:induction false} FillRests(lane: ByteLane, n: nat)
    requires n <= 14
    ensures Resting(Run(Fill(lane, n)), 18 * n, 0)
  {
    if n > 0 {
      FillRests(lane, n - 1);
      IngestRests(lane, Fill(lane, n - 1), 18 * (n - 1), 0);
    }
  }

  function SlowLevel(k: nat): nat {
    if k == 0 then 252 else if k == 1 then 2 else 18
  }

  lemma SlowStreamIs(lane: ByteLane, k: nat)
    ensures SlowStream(lane, k) ==
      if k == 0 then Fill(lane, 14)
      else if k == 1 then Fill(lane, 14) + Pause(2000)
      else SlowStream(lane, k - 1) + Pause(2000) + Ingest(lane)
  {
  }

  lemma SlowLevelIs(k: nat)
    ensures SlowLevel(k) == if k == 0 then 252 else if k == 1 then 2 else 18
  {
  }

  lemma {:induction false} SlowStreamRests(lane: ByteLane, k: nat)
    ensures Resting(Run(SlowStream(lane, k)), SlowLevel(k), 2000 * k)
  {
    hide *;
    SlowStreamIs(lane, k);
    SlowLevelIs(k);
    if k == 0 {
      FillRests(lane, 14);
    } else if k == 1 {
      FillRests(lane, 14);
      PauseRests(Fill(lane, 14), 252, 0);
    } else {
      SlowStreamRests(lane, k - 1);
      SlowLevelIs(k - 1);
      PauseRests(SlowStream(lane, k - 1), SlowLevel(k - 1), 2000 * (k - 1));
      IngestRests(lane, SlowStream(lane, k - 1) + Pause(2000), 0, 2000 * k);
    }
  }

  lemma {:induction false} SlowStreamGrows(lane: ByteLane, k: nat, l: nat)
    requires k <= l
    ensures SlowStream(lane, k) <= SlowStream(lane, l)
  {
    hide Fill, Pause, Ingest;
    if k < l {
      SlowStreamGrows(lane, k, l - 1);
      if l == 1 {
        assert SlowStream(lane, 0) == Fill(lane, 14);
      }
    }
  }

  /** One lane every 10 ms, in step with the polls, keeps the polled level at 18 with an underrun in between: on
      an exact clock the monitor starts this run at its first poll and times it out at poll 202, though a
      lane arrives at every poll. */
  lemma SlowStreamTimesOut(lane: ByteLane, polls: seq<seq<Event>>, levels: seq<nat>)
    requires |polls| == |levels| == 203
    requires forall k: nat :: k < 203 ==> polls[k] == SlowStream(lane, k) && levels[k] == SlowLevel(k)
    ensures Polled(polls, levels) && ExactClock(polls, 0, 202, 5, 0)
    ensures M.StartsAt(levels, 0) && M.KeepsGoing(levels, 0, 202)
    ensures M.Stuck(levels, 0, 202) && !M.Idle(levels, 0, 202)
  {
    hide RunFrom, SlowStream;
    forall k: nat | k < 203
      ensures levels[k] == |Run(polls[k]).s.queue| && |Run(polls[k]).outputs| == (POLL_US * k + 0) / 5
    {
      SlowStreamRests(lane, k);
    }
    forall k: nat, l: nat | k <= l < 203
      ensures polls[k] <= polls[l]
    {
      SlowStreamGrows(lane, k, l);
    }
    SlowLevelsStuck(levels);
  }

  lemma SlowLevelsStuck(levels: seq<nat>)
    requires |levels| == 203 && forall k: nat :: k < 203 ==> levels[k] == SlowLevel(k)
    ensures M.StartsAt(levels, 0) && M.KeepsGoing(levels, 0, 202)
    ensures M.Stuck(levels, 0, 202) && !M.Idle(levels, 0, 202)
  {
    forall j: nat | 0 < j < 202
      ensures !M.Idle(levels, 0, j) && !M.Stuck(levels, 0, j)
    {
      assert levels[j] > 0;
      if j == 200 {
        M.Moved(levels, 0, 200, 0);
      } else if j == 201 {
        M.Moved(levels, 1, 201, 1);
      }
    }
    assert levels[202] > 0;
  }
}
