/** The sampler as an abstract queue of whole lanes, and what any interleaving of its steps delivers.
    A lane is 144 samples; the task reads a lane byte by byte while timer ticks keep arriving. */
module SamplerSpec {
  const RING_LANES: nat := 16
  const LANE_BITS: nat := 144

  type Lane = s: seq<bool> | |s| == LANE_BITS witness seq(LANE_BITS, _ => false)

  /** Where the sampler task is between two ticks: nothing in hand, copying the tail lane into a
      transport frame, or holding a lane the transport accepted and that is not popped yet. */
  datatype Task = Idle | Copying(frame: seq<bool>) | Accepted

  datatype State = State(
    queue: seq<Lane>,      // committed, not yet popped
    partial: seq<bool>,    // samples of the lane under construction
    overflow: bool,        // that lane goes to the side lane and is dropped
    task: Task,
    wire: seq<Lane>)       // lanes the transport accepted, oldest first

  /** The atomic steps that interleave. */
  datatype Event =
    | Tick(level: bool)    // sampling_isr
    | Peek                 // sampler_task looks at the tail
    | CopyByte             // one byte of the transport's memcpy
    | Finish(ok: bool)     // the transport call returns
    | Pop                  // the tail advances after a successful call

  const Start := State([], [], false, Idle, [])

  /** The lane under construction now holds `bits`; a full one is committed, or dropped. */
  function Collect(s: State, bits: seq<bool>): State {
    if |bits| != LANE_BITS then s.(partial := bits)
    else if s.overflow then s.(partial := [], overflow := |s.queue| >= RING_LANES)
    else s.(partial := [], queue := s.queue + [bits], overflow := |s.queue| + 1 >= RING_LANES)
  }

  function Step(s: State, e: Event): State {
    match e
    case Tick(level) =>
      Collect(s, s.partial + [level])
    case Peek =>
      if s.task.Idle? && s.queue != [] then s.(task := Copying([])) else s
    case CopyByte =>
      if s.task.Copying? && |s.task.frame| + 8 <= LANE_BITS && s.queue != []
      then s.(task := Copying(s.task.frame + s.queue[0][|s.task.frame|..|s.task.frame| + 8]))
      else s
    case Finish(ok) =>
      if s.task.Copying? && |s.task.frame| == LANE_BITS
      then if ok then s.(task := Accepted, wire := s.wire + [s.task.frame]) else s.(task := Idle)
      else s
    case Pop =>
      if s.task.Accepted? && s.queue != [] then s.(queue := s.queue[1..], task := Idle) else s
  }

  /** A run with its history: every level sampled, and the number of queued lanes right after each
      lane boundary. */
  datatype Trace = Trace(s: State, samples: seq<bool>, boundary: seq<nat>)

  function Extend(t: Trace, e: Event): Trace {
    var s' := Step(t.s, e);
    if !e.Tick? then t.(s := s')
    else Trace(s', t.samples + [e.level],
               if |t.s.partial| + 1 == LANE_BITS then t.boundary + [|s'.queue|] else t.boundary)
  }

  function Run(events: seq<Event>): Trace {
    if events == [] then Trace(Start, [], [])
    else Extend(Run(events[..|events| - 1]), events[|events| - 1])
  }

  /** The numbers of the completed lanes that were kept: lane 0, and lane k when fewer than 16 lanes
      were queued at the moment it began. */
  function Kept(boundary: seq<nat>): (r: seq<nat>)
    ensures |r| <= |boundary|
    ensures forall i :: 0 <= i < |r| ==> r[i] < |boundary|
    ensures forall i, j :: 0 <= i < j < |r| ==> r[i] < r[j]
  {
    var n := |boundary|;
    if n == 0 then []
    else if BeganWithRoom(boundary, n - 1) then Kept(boundary[..n - 1]) + [n - 1]
    else Kept(boundary[..n - 1])
  }

  predicate BeganWithRoom(boundary: seq<nat>, k: nat)
    requires k < |boundary|
  {
    k == 0 || boundary[k - 1] < RING_LANES
  }

  lemma {:induction false} KeptExactly(boundary: seq<nat>, k: nat)
    requires k < |boundary|
    ensures k in Kept(boundary) <==> BeganWithRoom(boundary, k)
  {
    var n := |boundary|;
    var before := Kept(boundary[..n - 1]);
    if k < n - 1 {
      KeptExactly(boundary[..n - 1], k);
      assert k in before + [n - 1] <==> k in before;
    }
  }

  /** Samples 144k to 144k + 143. */
  function LaneAt(samples: seq<bool>, k: nat): Lane
    requires LANE_BITS * (k + 1) <= |samples|
  {
    samples[LANE_BITS * k..LANE_BITS * (k + 1)]
  }

  ghost predicate Sampled(samples: seq<bool>, ks: seq<nat>) {
    forall i :: 0 <= i < |ks| ==> LANE_BITS * (ks[i] + 1) <= |samples|
  }

  function LanesAt(samples: seq<bool>, ks: seq<nat>): (r: seq<Lane>)
    requires Sampled(samples, ks)
  {
    seq(|ks|, i requires 0 <= i < |ks| => LaneAt(samples, ks[i]))
  }

  /** Queued lanes the transport has not accepted yet. */
  function Waiting(s: State): seq<Lane> {
    if s.task.Accepted? && s.queue != [] then s.queue[1..] else s.queue
  }

  ghost predicate TaskOk(s: State) {
    match s.task
    case Idle => true
    case Copying(f) => s.queue != [] && |f| % 8 == 0 && f <= s.queue[0]
    case Accepted => s.queue != [] && s.wire != [] && s.wire[|s.wire| - 1] == s.queue[0]
  }

  ghost predicate Inv(t: Trace) {
    && |t.s.partial| < LANE_BITS
    && |t.samples| == LANE_BITS * |t.boundary| + |t.s.partial|
    && t.s.partial == t.samples[LANE_BITS * |t.boundary|..]
    && |t.s.queue| <= RING_LANES
    && (t.s.overflow <==> t.boundary != [] && t.boundary[|t.boundary| - 1] >= RING_LANES)
    && (!t.s.overflow ==> |t.s.queue| < RING_LANES)
    && TaskOk(t.s)
    && Sampled(t.samples, Kept(t.boundary))
    && t.s.wire + Waiting(t.s) == LanesAt(t.samples, Kept(t.boundary))
  }

  lemma MoreSamples(samples: seq<bool>, level: bool, ks: seq<nat>)
    requires Sampled(samples, ks)
    ensures Sampled(samples + [level], ks)
    ensures LanesAt(samples + [level], ks) == LanesAt(samples, ks)
  {
    forall i | 0 <= i < |ks|
      ensures LaneAt(samples + [level], ks[i]) == LaneAt(samples, ks[i])
    {
    }
  }

  lemma AppendLane(samples: seq<bool>, ks: seq<nat>, n: nat)
    requires Sampled(samples, ks) && LANE_BITS * (n + 1) <= |samples|
    ensures Sampled(samples, ks + [n])
    ensures LanesAt(samples, ks + [n]) == LanesAt(samples, ks) + [LaneAt(samples, n)]
  {
  }

  lemma InnerTickKeepsInv(t: Trace, level: bool)
    requires Inv(t) && |t.s.partial| + 1 != LANE_BITS
    ensures Inv(Extend(t, Tick(level)))
  {
    MoreSamples(t.samples, level, Kept(t.boundary));
  }

  lemma KeptNext(boundary: seq<nat>, queued: nat)
    ensures Kept(boundary + [queued]) ==
      if BeganWithRoom(boundary + [queued], |boundary|) then Kept(boundary) + [|boundary|] else Kept(boundary)
  {
    assert (boundary + [queued])[..|boundary|] == boundary;
  }

  lemma DroppedLaneKeepsInv(t: Trace, level: bool)
    requires Inv(t) && |t.s.partial| + 1 == LANE_BITS && t.s.overflow
    ensures Inv(Extend(t, Tick(level)))
  {
    hide Kept, LanesAt, Sampled;
    MoreSamples(t.samples, level, Kept(t.boundary));
    KeptNext(t.boundary, |t.s.queue|);
    var t' := Extend(t, Tick(level));
    assert t'.boundary == t.boundary + [|t.s.queue|];
    assert t'.s.partial == t'.samples[LANE_BITS * |t'.boundary|..];
  }

  lemma CommittedLane(t: Trace, level: bool)
    requires Inv(t) && |t.s.partial| + 1 == LANE_BITS && !t.s.overflow
    ensures var t' := Extend(t, Tick(level)); var kept := Kept(t.boundary);
      && Sampled(t'.samples, kept + [|t.boundary|])
      && t'.s.wire + Waiting(t'.s) == LanesAt(t'.samples, kept + [|t.boundary|])
  {
    var t' := Extend(t, Tick(level));
    var n, kept := |t.boundary|, Kept(t.boundary);
    MoreSamples(t.samples, level, kept);
    AppendLane(t'.samples, kept, n);
    var lane := LaneAt(t'.samples, n);
    assert lane == t.s.partial + [level];
    assert Waiting(t'.s) == Waiting(t.s) + [lane];
  }

  lemma KeptLaneKeepsInv(t: Trace, level: bool)
    requires Inv(t) && |t.s.partial| + 1 == LANE_BITS && !t.s.overflow
    ensures Inv(Extend(t, Tick(level)))
  {
    CommittedLane(t, level);
    KeptNext(t.boundary, |t.s.queue| + 1);
  }

  lemma TaskStepKeepsInv(t: Trace, e: Event)
    requires Inv(t) && !e.Tick?
    ensures Inv(Extend(t, e))
  {
    hide Kept, LanesAt, Sampled;
    TaskStepKeepsTask(t.s, e);
    TaskStepMovesLanes(t.s, e);
  }

  lemma TaskStepKeepsTask(s: State, e: Event)
    requires TaskOk(s) && !e.Tick? && |s.queue| <= RING_LANES
    ensures TaskOk(Step(s, e)) && |Step(s, e).queue| <= |s.queue|
  {
  }

  /** Sent and waiting lanes together stay the same. */
  lemma TaskStepMovesLanes(s: State, e: Event)
    requires TaskOk(s) && !e.Tick?
    ensures Step(s, e).wire + Waiting(Step(s, e)) == s.wire + Waiting(s)
  {
    if e.Finish? && Step(s, e).task.Accepted? && !s.task.Accepted? {
      assert s.task.frame == s.queue[0];
      assert s.queue == [s.queue[0]] + s.queue[1..];
      assert (s.wire + [s.queue[0]]) + s.queue[1..] == s.wire + s.queue;
    }
  }

  lemma {:induction false} RunKeepsInv(events: seq<Event>)
    ensures Inv(Run(events))
  {
    if events != [] {
      var before := events[..|events| - 1];
      RunKeepsInv(before);
      var e := events[|events| - 1];
      var t := Run(before);
      if !e.Tick? { TaskStepKeepsInv(t, e); }
      else if |t.s.partial| + 1 != LANE_BITS { InnerTickKeepsInv(t, e.level); }
      else if t.s.overflow { DroppedLaneKeepsInv(t, e.level); }
      else { KeptLaneKeepsInv(t, e.level); }
    }
  }

  /** For every interleaving: the lanes sent followed by the lanes still waiting are exactly the kept
      lanes, each 144 consecutive samples from a multiple of 144 ticks, in order, once. */
  lemma {:induction false} DeliveredLanes(events: seq<Event>)
    ensures var t := Run(events);
      && Sampled(t.samples, Kept(t.boundary))
      && t.s.wire + Waiting(t.s) == LanesAt(t.samples, Kept(t.boundary))
  {
    RunKeepsInv(events);
  }

  /** Every tick is accounted for: sent, waiting, dropped, or in the lane under construction. */
  lemma {:induction false} TickAccounting(events: seq<Event>)
    ensures var t := Run(events);
      var dropped := |t.boundary| - |Kept(t.boundary)|;
      && dropped >= 0
      && |t.samples| == LANE_BITS * (|t.s.wire| + |Waiting(t.s)| + dropped) + |t.s.partial|
  {
    RunKeepsInv(events);
    assert |Run(events).s.wire + Waiting(Run(events).s)| == |Kept(Run(events).boundary)|;
  }

  function Flatten(lanes: seq<Lane>): seq<bool> {
    if lanes == [] then [] else Flatten(lanes[..|lanes| - 1]) + lanes[|lanes| - 1]
  }

  lemma {:induction false} FlattenAll(samples: seq<bool>, n: nat)
    requires LANE_BITS * n <= |samples|
    ensures Sampled(samples, seq(n, i => i))
    ensures Flatten(LanesAt(samples, seq(n, i => i))) == samples[..LANE_BITS * n]
  {
    if n > 0 {
      FlattenAll(samples, n - 1);
      var all, before := LanesAt(samples, seq(n, i => i)), LanesAt(samples, seq(n - 1, i => i));
      assert all[..n - 1] == before;
      assert samples[..LANE_BITS * n] == samples[..LANE_BITS * (n - 1)] + LaneAt(samples, n - 1);
    }
  }

  ghost predicate AllBeganWithRoom(boundary: seq<nat>) {
    forall k :: 0 <= k < |boundary| ==> BeganWithRoom(boundary, k)
  }

  lemma {:induction false} KeptAll(boundary: seq<nat>)
    ensures AllBeganWithRoom(boundary) ==> Kept(boundary) == seq(|boundary|, i => i)
    ensures !AllBeganWithRoom(boundary) ==> |Kept(boundary)| < |boundary|
  {
    if boundary != [] {
      var n := |boundary|;
      var before := boundary[..n - 1];
      KeptAll(before);
      assert forall k :: 0 <= k < n - 1 ==> (BeganWithRoom(boundary, k) <==> BeganWithRoom(before, k));
    }
  }

  lemma {:induction false} FlattenLength(lanes: seq<Lane>)
    ensures |Flatten(lanes)| == LANE_BITS * |lanes|
  {
    if lanes != [] { FlattenLength(lanes[..|lanes| - 1]); }
  }

  /** What is sent and waiting is the sampled signal itself exactly when no lane began with the ring
      full. */
  lemma {:induction false} LosslessIffNeverFull(events: seq<Event>)
    ensures var t := Run(events);
      Flatten(t.s.wire + Waiting(t.s)) + t.s.partial == t.samples <==> AllBeganWithRoom(t.boundary)
  {
    var t := Run(events);
    RunKeepsInv(events);
    KeptAll(t.boundary);
    FlattenLength(t.s.wire + Waiting(t.s));
    FlattenAll(t.samples, |t.boundary|);
  }

  /** The side lane is entered and left only when a lane completes, and sampling into the ring
      implies a free slot: the ISR's second capacity test never fires. */
  lemma {:induction false} OverflowOnlyAtBoundaries(events: seq<Event>, e: Event)
    ensures var t := Run(events);
      && (!t.s.overflow ==> |t.s.queue| < RING_LANES)
      && (Step(t.s, e).overflow != t.s.overflow ==>
            e.Tick? && |t.samples + [e.level]| % LANE_BITS == 0
            && (t.s.overflow <==> |Step(t.s, e).queue| < RING_LANES))
  {
    RunKeepsInv(events);
  }

  // ---- What the transport's answers do ----

  /** The frame in hand, if it is whole. */
  function InHand(s: State): seq<Lane> {
    if s.task.Copying? && |s.task.frame| == LANE_BITS then [s.task.frame] else []
  }

  /** The frames in hand at the accepting answers that found a whole one. */
  function AcceptedFrames(events: seq<Event>): seq<Lane> {
    if events == [] then []
    else
      var before := AcceptedFrames(events[..|events| - 1]);
      if events[|events| - 1] == Finish(true) then before + InHand(Run(events[..|events| - 1]).s) else before
  }

  /** On every run the lanes on the wire are exactly the frames the transport accepted. */
  lemma {:induction false} WireIsAccepted(events: seq<Event>)
    ensures Run(events).s.wire == AcceptedFrames(events)
  {
    if events != [] {
      WireIsAccepted(events[..|events| - 1]);
    }
  }

  /** A refused frame leaves its lane queued, to be sent again. */
  lemma RefusedStaysQueued(s: State)
    requires InHand(s) != []
    ensures var after := Step(s, Finish(false));
      after.task == Idle && after.wire == s.wire && after.queue == s.queue
      && Step(after, Pop) == after
  {
  }

  /** The events that are not ticks. */
  function TaskEvents(events: seq<Event>): seq<Event> {
    if events == [] then []
    else
      var before := TaskEvents(events[..|events| - 1]);
      if events[|events| - 1].Tick? then before else before + [events[|events| - 1]]
  }

  /** The task's steps for one lane: a peek, eighteen bytes, the transport's answer and the pop. */
  function SendSteps(ok: bool): (r: seq<Event>)
    ensures |r| == 21
  {
    [Peek] + seq(18, _ => CopyByte) + [Finish(ok), Pop]
  }

  function Continue(s: State, events: seq<Event>): State {
    if events == [] then s else Step(Continue(s, events[..|events| - 1]), events[|events| - 1])
  }

  /** The state after the first p of those steps, for the lane `front`, but for what ticks change. */
  ghost predicate Sending(s: State, after: State, ok: bool, p: nat)
    requires s.queue != []
  {
    var front := s.queue[0];
    if p == 0 then after.task == Idle && after.wire == s.wire && s.queue <= after.queue
    else if p <= 19 then
      after.task == Copying(front[..8 * (p - 1)]) && after.wire == s.wire && s.queue <= after.queue
    else if p == 20 then
      s.queue <= after.queue
      && (if ok then after.task == Accepted && after.wire == s.wire + [front]
          else after.task == Idle && after.wire == s.wire)
    else
      after.task == Idle
      && (if ok then after.wire == s.wire + [front] && s.queue[1..] <= after.queue
          else after.wire == s.wire && s.queue <= after.queue)
  }

  lemma TickKeepsSending(s: State, before: State, ok: bool, p: nat, level: bool)
    requires s.queue != [] && Sending(s, before, ok, p)
    ensures Sending(s, Step(before, Tick(level)), ok, p)
  {
  }

  lemma TaskSends(s: State, before: State, ok: bool, p: nat)
    requires s.queue != [] && p < 21 && Sending(s, before, ok, p)
    ensures Sending(s, Step(before, SendSteps(ok)[p]), ok, p + 1)
  {
    if 0 < p <= 18 {
      assert SendSteps(ok)[p] == CopyByte;
      assert before.queue[0] == s.queue[0];
    } else if p == 19 {
      assert s.queue[0][..144] == s.queue[0];
    }
  }

  /** With ticks in between at any points, the task's steps put the oldest lane on the wire and take it off the queue
      exactly if the transport accepts it; refused, it stays where it was. */
  lemma {:induction false} QueuedLaneGetsThrough(s: State, events: seq<Event>, ok: bool)
    requires s.task == Idle && s.queue != [] && TaskEvents(events) <= SendSteps(ok)
    ensures Sending(s, Continue(s, events), ok, |TaskEvents(events)|)
  {
    hide Step, SendSteps, Sending;
    if events == [] {
      SendingStarts(s, ok);
    } else {
      var n := |events| - 1;
      var done := TaskEvents(events[..n]);
      assert done <= TaskEvents(events);
      QueuedLaneGetsThrough(s, events[..n], ok);
      if events[n].Tick? {
        TickKeepsSending(s, Continue(s, events[..n]), ok, |done|, events[n].level);
      } else {
        assert SendSteps(ok)[|done|] == TaskEvents(events)[|done|] == events[n];
        TaskSends(s, Continue(s, events[..n]), ok, |done|);
      }
    }
  }

  lemma SendingStarts(s: State, ok: bool)
    requires s.task == Idle && s.queue != []
    ensures Sending(s, s, ok, 0)
  {
  }

  /** What that comes to once all the steps are done. */
  lemma SentOrKept(s: State, events: seq<Event>, ok: bool)
    requires s.task == Idle && s.queue != [] && TaskEvents(events) == SendSteps(ok)
    ensures var after := Continue(s, events);
      after.task == Idle
      && (ok ==> after.wire == s.wire + [s.queue[0]] && s.queue[1..] <= after.queue)
      && (!ok ==> after.wire == s.wire && s.queue <= after.queue)
  {
    hide Step, SendSteps;
    QueuedLaneGetsThrough(s, events, ok);
  }
}
