/** The BLE command path: writes of any size are reassembled byte by byte in a fragment buffer, and
    complete frames put their command lane on the command queue. */
module BleServer {
  import opened Bytes
  import opened Codec
  import opened Wrappers
  import opened Machine
  import opened Sysex

  const QUEUE_LEN: nat := 10

  /** ble_enqueue_superframe: the queue afterwards, and whether the frame was taken. */
  function Enqueue(queue: seq<seq<byte>>, sysex: seq<byte>): (seq<seq<byte>>, bool) {
    match Parse(sysex)
    case None => (queue, false)
    case Some(f) =>
      if AllZero(f[..18]) then (queue, true)
      else if |queue| < QUEUE_LEN then (queue + [f[..18]], true)
      else (queue, false)
  }

  function EnqueueAll(queue: seq<seq<byte>>, frames: seq<seq<byte>>): (seq<seq<byte>>, bool) {
    if frames == [] then (queue, false)
    else
      var n := |frames| - 1;
      var before := EnqueueAll(queue, frames[..n]);
      var last := Enqueue(before.0, frames[n]);
      (last.0, last.1 || before.1)
  }

  /** What ble_enqueue_superframe answers: a frame with an empty command lane is taken and not queued, one with a
      command if there is room, anything else refused. */
  lemma EnqueueAnswers(queue: seq<seq<byte>>, f: Superframe)
    ensures Enqueue(queue, Wrap(f)) ==
      if f[..18] == seq(18, _ => 0x00) then (queue, true)
      else if |queue| < 10 then (queue + [f[..18]], true)
      else (queue, false)
  {
    hide Wrap, Parse, AllZero;
    ParseWrap(f);
    EmptyIs(f[..18]);
  }

  lemma BadFramesRefused(queue: seq<seq<byte>>, s: seq<byte>)
    requires |s| == 48
    ensures s[..5] != [0xF0, 0x7D, 0x45, 0x4D, 0x57] || s[47] != 0xF7 ==> Enqueue(queue, s) == (queue, false)
  {
    hide Decode;
    FramedIs(s);
  }

  /** The queue with as many of the commands behind it, from the first on, as fit. */
  function Filled(queue: seq<seq<byte>>, commands: seq<seq<byte>>): seq<seq<byte>> {
    var room := if |queue| < QUEUE_LEN then QUEUE_LEN - |queue| else 0;
    queue + commands[..Min(room, |commands|)]
  }

  lemma FilledNext(queue: seq<seq<byte>>, commands: seq<seq<byte>>, lane: seq<byte>)
    ensures var q := Filled(queue, commands);
      Filled(queue, commands + [lane]) == if |q| < QUEUE_LEN then q + [lane] else q
  {
  }

  /** Exactly the non-empty command lanes reach the queue, in order, up to the first that finds it full. */
  lemma {:induction false} CommandsReachQueue(queue: seq<seq<byte>>, sent: seq<Sent>)
    ensures EnqueueAll(queue, Wrapped(sent)).0 == Filled(queue, Commands(sent))
  {
    if sent != [] {
      hide Wrap, Parse, Filled;
      var n := |sent| - 1;
      CommandsReachQueue(queue, sent[..n]);
      ParseWrap(sent[n].frame);
      assert Wrapped(sent)[..n] == Wrapped(sent[..n]);
      FilledNext(queue, Commands(sent[..n]), sent[n].frame[..18]);
    } else {
      assert queue + [] == queue;
    }
  }

  /** From any fragment state and for any cut into writes, the frames' commands reach the queue. */
  lemma {:induction false} WritesReachQueue(held: seq<byte>, queue: seq<seq<byte>>, sent: seq<Sent>, writes: seq<seq<byte>>)
    requires forall i :: 0 <= i < |sent| ==> Quiet(sent[i].padding)
    requires Concat(writes) == Line(sent)
    ensures EnqueueAll(queue, RunChunks(BleStep, held, writes).1).0 == Filled(queue, Commands(sent))
  {
    BleReassembles(held, sent, writes);
    CommandsReachQueue(queue, sent);
  }

  /** Frame i is taken by the queue the frames before it leave. */
  predicate TakenAt(queue: seq<seq<byte>>, frames: seq<seq<byte>>, i: nat) {
    i < |frames| && Enqueue(EnqueueAll(queue, frames[..i]).0, frames[i]).1
  }

  /** A write counts as queued exactly if one of its frames was taken. */
  lemma {:induction false} QueuedIff(queue: seq<seq<byte>>, frames: seq<seq<byte>>)
    ensures EnqueueAll(queue, frames).1 <==> exists i: nat :: TakenAt(queue, frames, i)
  {
    hide Enqueue;
    if frames != [] {
      var n := |frames| - 1;
      QueuedIff(queue, frames[..n]);
      forall i: nat | i < n
        ensures TakenAt(queue, frames, i) == TakenAt(queue, frames[..n], i)
      {
        assert frames[..n][..i] == frames[..i];
      }
      assert EnqueueAll(queue, frames).1 <==> TakenAt(queue, frames, n) || EnqueueAll(queue, frames[..n]).1;
    }
  }

  lemma EnqueueAllNext(queue: seq<seq<byte>>, frames: seq<seq<byte>>, frame: seq<byte>)
    ensures var before := EnqueueAll(queue, frames); var last := Enqueue(before.0, frame);
      EnqueueAll(queue, frames + [frame]) == (last.0, last.1 || before.1)
  {
    hide Enqueue;
    assert (frames + [frame])[..|frames|] == frames;
  }

  class Server {
    const fragment: array<byte>
    var fragmentLen: nat
    var queue: seq<seq<byte>>

    ghost predicate Valid()
      reads this
    {
      fragment.Length == 48 && fragmentLen <= 48
    }

    ghost function Held(): seq<byte>
      requires Valid()
      reads this, fragment
    {
      fragment[..fragmentLen]
    }

    constructor ()
      ensures Valid() && Held() == [] && queue == [] && fresh(fragment)
    {
      fragment := new byte[48](_ => 0);
      fragmentLen, queue := 0, [];
    }

    /** ble_enqueue_superframe on the full fragment buffer. */
    method EnqueueSuperframe() returns (ok: bool)
      requires Valid() && fragmentLen == 48
      modifies this`queue
      ensures (queue, ok) == Enqueue(old(queue), Held())
    {
      hide Decode;
      assert fragment[..48] == fragment[..];
      if fragment[..5] != HEADER || fragment[47] != END {
        return false;
      }
      var payload := new byte[42](i requires 0 <= i < 42 && fragment.Length == 48 reads fragment => fragment[5 + i]);
      var decoded := new byte[36](_ => 0);
      ok := DecodePayload(payload, decoded);
      assert payload[..] == Held()[5..47];
      if !ok {
        return;
      }
      var cmdAny := false;
      for i := 0 to 18
        invariant !cmdAny <==> forall k :: 0 <= k < i ==> decoded[k] == 0
      {
        if decoded[i] != 0 { cmdAny := true; }
      }
      assert AllZero(decoded[..][..18]) <==> !cmdAny;
      if !cmdAny {
        return true;
      }
      ok := |queue| < QUEUE_LEN;
      if ok {
        queue := queue + [decoded[..18]];
        assert decoded[..18] == decoded[..][..18];
      }
    }

    /** ble_ingest_sysex_fragment: `handed` is the frames it passes on. */
    method IngestSysexFragment(data: seq<byte>) returns (queued: bool, handled: bool, ghost handed: seq<seq<byte>>)
      requires Valid() && data != []
      modifies this, fragment
      ensures Valid()
      ensures (Held(), handed) == Run(BleStep, old(Held()), data)
      ensures (queue, queued) == EnqueueAll(old(queue), handed)
      ensures handled <==> old(Held()) != [] || START in data
    {
      queued, handled, handed := false, false, [];
      assert data[..0] == [];
      for i := 0 to |data|
        invariant Valid() && data[..i] <= data
        invariant (Held(), handed) == Run(BleStep, old(Held()), data[..i])
        invariant (queue, queued) == EnqueueAll(old(queue), handed)
        invariant handled <==> i > 0 && (old(Held()) != [] || START in data[..i])
        invariant !handled ==> Held() == old(Held())
      {
        hide Run, EnqueueAll, BleStep;
        ghost var frames: seq<seq<byte>>;
        ghost var held := Held();
        var saw, took;
        saw, took, frames := IngestByte(data[i]);
        assert data[..i + 1] == data[..i] + [data[i]];
        RunStep(BleStep, old(Held()), data[..i], data[i], held, handed, Held(), frames);
        if frames == [] {
          assert handed + frames == handed;
        } else {
          EnqueueAllNext(old(queue), handed, frames[0]);
          assert frames == [frames[0]];
        }
        handed := handed + frames;
        handled := handled || saw;
        queued := took || queued;
      }
      assert data[..|data|] == data;
    }

    /** The loop body for one byte. */
    method IngestByte(value: byte) returns (saw: bool, took: bool, ghost frames: seq<seq<byte>>)
      requires Valid()
      modifies this, fragment
      ensures Valid()
      ensures (Held(), frames) == BleStep(old(Held()), value) && |frames| <= 1
      ensures frames == [] ==> queue == old(queue) && !took
      ensures frames != [] ==> (queue, took) == Enqueue(old(queue), frames[0])
      ensures saw <==> old(Held()) != [] || value == START
      ensures !saw ==> Held() == old(Held())
    {
      saw, took, frames := false, false, [];
      if value == START {
        fragmentLen := 0;
        saw := true;
      }
      if fragmentLen == 0 && value != START {
        return;
      }
      saw := true;
      if fragmentLen >= 48 {
        fragmentLen := 0;
        return;
      }
      ghost var held := Held();
      fragment[fragmentLen] := value;
      fragmentLen := fragmentLen + 1;
      assert Held() == held + [value];
      if value == END {
        if fragmentLen == 48 {
          frames := [Held()];
          took := EnqueueSuperframe();
        }
        fragmentLen := 0;
      }
    }
  }
}
