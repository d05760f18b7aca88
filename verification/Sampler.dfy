/** The sampler's ring of byte lanes, written by a timer interrupt and drained by a task, refines the
    abstract queue of SamplerSpec step by step. */
module Sampler {
  import opened Bytes
  import S = SamplerSpec

  const LANE_SIZE: nat := 18
  const RING_BYTES: nat := 288

  /** Lane i of the 16 x 18 ring. */
  function RingLane(ring: seq<byte>, i: nat): seq<byte>
    requires |ring| == 288 && i < 16
  {
    ring[18 * i..18 * i + 18]
  }

  /** The ring slot i places after `tail`. */
  function Slot(tail: nat, i: nat): (r: nat)
    ensures r < 16
  {
    (tail + i) % 16
  }

  lemma SlotsDiffer(tail: nat, i: nat, j: nat)
    requires i < j < i + 16
    ensures Slot(tail, i) != Slot(tail, j)
  {
  }

  lemma SlotAdvance(tail: nat, i: nat)
    requires tail < 16
    ensures Slot((tail + 1) % 16, i) == Slot(tail, i + 1)
  {
  }

  function LaneOf(bytes: seq<byte>): S.Lane
    requires |bytes| == 18
  {
    Unpack(bytes)
  }

  /** The samples of the `count` lanes from `tail` on, wrapping. */
  function QueueOf(ring: seq<byte>, tail: nat, count: nat): (q: seq<S.Lane>)
    requires |ring| == 288
    ensures |q| == count
  {
    seq(count, i requires 0 <= i < count => LaneOf(RingLane(ring, Slot(tail, i))))
  }

  /** A byte stored in the head lane leaves every queued lane alone while a slot is free. */
  lemma HeadStoreKeepsQueue(ring: seq<byte>, tail: nat, count: nat, k: nat, v: byte)
    requires |ring| == 288 && count < 16 && k < 18
    ensures QueueOf(ring[18 * Slot(tail, count) + k := v], tail, count) == QueueOf(ring, tail, count)
  {
    var head := Slot(tail, count);
    var ring' := ring[18 * head + k := v];
    forall i: nat | i < count
      ensures RingLane(ring', Slot(tail, i)) == RingLane(ring, Slot(tail, i))
    {
      SlotsDiffer(tail, i, count);
    }
  }

  /** It adds its eight samples to the head lane, and keeps the tail lane if there is one. */
  lemma HeadStoreGrowsLane(ring: seq<byte>, head: nat, k: nat, v: byte)
    requires |ring| == 288 && head < 16 && k < 18
    ensures Unpack(RingLane(ring[18 * head + k := v], head)[..k + 1]) ==
      Unpack(RingLane(ring, head)[..k]) + LowBits(v, 8)
  {
    hide Unpack, LowBits;
    var lane := RingLane(ring[18 * head + k := v], head);
    LaneGrows(lane, k);
    assert lane[..k] == RingLane(ring, head)[..k];
  }

  lemma HeadStoreKeepsTail(ring: seq<byte>, tail: nat, count: nat, k: nat, v: byte)
    requires |ring| == 288 && tail < 16 && count < 16 && k < 18
    ensures 0 < count ==> RingLane(ring[18 * Slot(tail, count) + k := v], tail) == RingLane(ring, tail)
  {
    if 0 < count {
      SlotsDiffer(tail, 0, count);
    }
  }

  lemma QueueGrows(ring: seq<byte>, tail: nat, count: nat)
    requires |ring| == 288
    ensures QueueOf(ring, tail, count + 1) == QueueOf(ring, tail, count) + [LaneOf(RingLane(ring, Slot(tail, count)))]
  {
  }

  lemma QueueShrinks(ring: seq<byte>, tail: nat, count: nat)
    requires |ring| == 288 && tail < 16 && 0 < count
    ensures QueueOf(ring, (tail + 1) % 16, count - 1) == QueueOf(ring, tail, count)[1..]
  {
    forall i: nat {:trigger Slot(tail, i + 1)} | i < count - 1
      ensures Slot((tail + 1) % 16, i) == Slot(tail, i + 1)
    {
      SlotAdvance(tail, i);
    }
  }

  /** Completing byte k of a lane appends its eight samples. */
  lemma LaneGrows(lane: seq<byte>, k: nat)
    requires k < |lane|
    ensures Unpack(lane[..k + 1]) == Unpack(lane[..k]) + LowBits(lane[k], 8)
  {
    assert lane[..k + 1] == lane[..k] + [lane[k]];
    UnpackAppend(lane[..k], [lane[k]]);
    UnpackOne(lane[k]);
  }

  /** Copying byte k of a lane behind its first k appends its eight samples. */
  lemma CopyGrows(frame: seq<byte>, lane: seq<byte>, k: nat)
    requires |frame| == |lane| == 18 && k < 18 && frame[..k] == lane[..k]
    ensures var next := frame[k := lane[k]];
      next[..k + 1] == lane[..k + 1] && Unpack(next[..k + 1]) == Unpack(frame[..k]) + Unpack(lane)[8 * k..8 * k + 8]
  {
    hide Unpack;
    assert frame[k := lane[k]][..k + 1] == frame[..k] + [lane[k]] == lane[..k + 1];
    UnpackAppend(lane[..k], [lane[k]]);
    UnpackSlice(lane, k, k + 1);
    assert lane[k..k + 1] == [lane[k]];
  }

  lemma FrontLane(ring: seq<byte>, tail: nat, count: nat)
    requires |ring| == 288 && tail < 16 && 0 < count
    ensures QueueOf(ring, tail, count)[0] == Unpack(RingLane(ring, tail))
  {
  }

  datatype TaskState = Idle | Copying | Accepted

  class Device {
    const ring: array<byte>
    const overflowLane: array<byte>
    var head: nat
    var tail: nat
    var count: nat
    var overflowActive: bool
    var bitIndex: nat
    var byteIndex: nat
    var currentByte: byte

    // The task's local state while the lock is not held.
    const frame: array<byte>
    var task: TaskState
    var laneIndex: nat
    var copied: nat
    ghost var wire: seq<S.Lane>

    ghost predicate Shape()
      reads this
    {
      && ring.Length == RING_BYTES && overflowLane.Length == LANE_SIZE && frame.Length == LANE_SIZE
      && ring != overflowLane && ring != frame && overflowLane != frame
      && head < 16 && tail < 16 && count <= 16 && head == Slot(tail, count)
      && (!overflowActive ==> count < 16)
      && bitIndex <= 8 && byteIndex < 18
      && (!task.Idle? ==> laneIndex == tail && 0 < count)
      && copied <= 18
    }

    ghost predicate Valid()
      reads this, ring, frame
    {
      && Shape() && bitIndex < 8
      && (forall j :: bitIndex <= j < 8 ==> !Bit(currentByte, j))
      && FrameOk()
    }

    /** The bytes copied so far are those of the tail lane. */
    ghost predicate FrameOk()
      requires Shape()
      reads this, ring, frame
    {
      task.Copying? ==> frame[..copied] == RingLane(ring[..], tail)[..copied]
    }

    /** The lane under construction, whole bytes first. */
    ghost function LaneBytes(): seq<byte>
      requires Shape()
      reads this, ring, overflowLane
    {
      if overflowActive then overflowLane[..byteIndex] else RingLane(ring[..], head)[..byteIndex]
    }

    ghost function Partial(): seq<bool>
      requires Shape()
      reads this, ring, overflowLane
    {
      Unpack(LaneBytes()) + LowBits(currentByte, bitIndex)
    }

    ghost function AbsTask(): S.Task
      requires Shape()
      reads this, frame
    {
      match task
      case Idle => S.Idle
      case Copying => S.Copying(Unpack(frame[..copied]))
      case Accepted => S.Accepted
    }

    ghost function Abs(): S.State
      requires Shape()
      reads this, ring, overflowLane, frame
    {
      S.State(QueueOf(ring[..], tail, count), Partial(), overflowActive, AbsTask(), wire)
    }

    /** reset_sampler_state, with the task not yet holding a lane. */
    constructor ()
      ensures Valid() && Abs() == S.Start
      ensures fresh(ring) && fresh(overflowLane) && fresh(frame)
    {
      ring := new byte[RING_BYTES](_ => 0);
      overflowLane := new byte[LANE_SIZE](_ => 0);
      frame := new byte[LANE_SIZE](_ => 0);
      head, tail, count := 0, 0, 0;
      overflowActive := false;
      bitIndex, byteIndex, currentByte := 0, 0, 0;
      task, laneIndex, copied := Idle, 0, 0;
      wire := [];
    }

    /** sampling_isr: one timer tick with the pin at `level`. */
    method SamplingIsr(level: bool)
      requires Valid()
      modifies this, ring, overflowLane
      ensures Valid()
      ensures Abs() == S.Step(old(Abs()), S.Tick(level))
    {
      hide Unpack, LowBits, QueueOf, RingLane;
      ghost var bytes, bits := LaneBytes(), LowBits(currentByte, bitIndex);
      RecordLevel(level);
      assert LaneBytes() == bytes;
      assert (Unpack(bytes) + bits) + [level] == Unpack(bytes) + (bits + [level]);
      if bitIndex < 8 {
        return;
      }
      bitIndex := 0;
      CompleteByte(old(Partial()) + [level]);
    }

    method RecordLevel(level: bool)
      requires Valid()
      modifies this`currentByte, this`bitIndex
      ensures bitIndex == old(bitIndex) + 1
      ensures LowBits(currentByte, bitIndex) == old(LowBits(currentByte, bitIndex)) + [level]
      ensures forall j :: bitIndex <= j < 8 ==> !Bit(currentByte, j)
    {
      OrAppendsBit(currentByte, bitIndex, level);
      if level {
        currentByte := currentByte | Mask(bitIndex);
      }
      bitIndex := bitIndex + 1;
    }

    /** The rest of the tick once eight samples are in `currentByte`: `bits` is the lane so far. */
    method CompleteByte(ghost bits: seq<bool>)
      requires Shape() && FrameOk() && bitIndex == 0
      requires bits == Unpack(LaneBytes()) + LowBits(currentByte, 8)
      modifies this, ring, overflowLane
      ensures Valid()
      ensures Abs() == S.Collect(old(Abs()), bits)
    {
      StoreByte();
      byteIndex := byteIndex + 1;
      if byteIndex < LANE_SIZE {
        return;
      }
      byteIndex := 0;
      CompleteLane(bits);
    }

    /** The byte goes to the side lane or to the head lane, never to a queued one. */
    method StoreByte()
      requires Shape() && FrameOk() && bitIndex == 0
      modifies this`currentByte, ring, overflowLane
      ensures Shape() && FrameOk() && forall j :: 0 <= j < 8 ==> !Bit(currentByte, j)
      ensures QueueOf(ring[..], tail, count) == old(QueueOf(ring[..], tail, count))
      ensures var lane := if overflowActive then overflowLane[..] else RingLane(ring[..], head);
        Unpack(lane[..byteIndex + 1]) == old(Unpack(LaneBytes()) + LowBits(currentByte, 8))
    {
      if overflowActive {
        overflowLane[byteIndex] := currentByte;
        assert overflowLane[..byteIndex] == old(overflowLane[..byteIndex]);
        LaneGrows(overflowLane[..], byteIndex);
      } else {
        StoreToRing();
      }
      currentByte := 0;
    }

    method StoreToRing()
      requires Shape() && FrameOk() && !overflowActive
      modifies ring
      ensures FrameOk()
      ensures QueueOf(ring[..], tail, count) == old(QueueOf(ring[..], tail, count))
      ensures Unpack(RingLane(ring[..], head)[..byteIndex + 1]) ==
              old(Unpack(RingLane(ring[..], head)[..byteIndex]) + LowBits(currentByte, 8))
    {
      hide Unpack, LowBits, QueueOf, RingLane, Slot;
      ghost var was := ring[..];
      HeadStoreKeepsQueue(was, tail, count, byteIndex, currentByte);
      HeadStoreGrowsLane(was, head, byteIndex, currentByte);
      HeadStoreKeepsTail(was, tail, count, byteIndex, currentByte);
      ring[18 * head + byteIndex] := currentByte;
      assert ring[..] == was[18 * head + byteIndex := currentByte];
    }

    /** A full lane: commit it, or leave the side lane when a slot is free again. */
    method CompleteLane(ghost lane: S.Lane)
      requires Shape() && FrameOk() && bitIndex == 0 && byteIndex == 0
      requires forall j :: 0 <= j < 8 ==> !Bit(currentByte, j)
      requires !overflowActive ==> lane == LaneOf(RingLane(ring[..], head))
      modifies this`overflowActive, this`count, this`head
      ensures Valid()
      ensures Abs() == S.Collect(old(Abs()), lane)
    {
      hide Unpack, LowBits, QueueOf, RingLane, Bit;
      QueueGrows(ring[..], tail, count);
      if overflowActive {
        if count < 16 {
          overflowActive := false;
        }
        return;
      }
      if count >= 16 {
        assert false;  // the ISR's second capacity test: dead, since a free slot remains
      }
      count := count + 1;
      head := (head + 1) % 16;
      if count >= 16 {
        overflowActive := true;
      }
    }

    /** The task looks at the tail under the lock. */
    method Peek()
      requires Valid()
      modifies this`task, this`laneIndex, this`copied
      ensures Valid()
      ensures Abs() == S.Step(old(Abs()), S.Peek)
    {
      if task.Idle? && count > 0 {
        laneIndex := tail;
        copied := 0;
        task := Copying;
      }
    }

    /** One byte of the frame is read from the ring without the lock. */
    method CopyByte()
      requires Valid()
      modifies this`copied, frame
      ensures Valid()
      ensures Abs() == S.Step(old(Abs()), S.CopyByte)
    {
      hide Unpack, QueueOf, LowBits, Slot;
      if task.Copying? && copied < LANE_SIZE {
        ghost var lane := RingLane(ring[..], tail);
        CopyGrows(frame[..], lane, copied);
        FrontLane(ring[..], tail, count);
        frame[copied] := ring[18 * laneIndex + copied];
        assert frame[..] == old(frame[..])[copied := lane[copied]];
        assert frame[..][..copied + 1] == frame[..copied + 1] && old(frame[..])[..copied] == old(frame[..copied]);
        copied := copied + 1;
      }
    }

    /** The transport call returns; `ok` is ESP_OK. */
    method Finish(ok: bool)
      requires Valid()
      modifies this`task, this`wire
      ensures Valid()
      ensures Abs() == S.Step(old(Abs()), S.Finish(ok))
    {
      if task.Copying? && copied == LANE_SIZE {
        if ok {
          wire := wire + [LaneOf(frame[..])];
          assert frame[..] == frame[..copied];
          task := Accepted;
        } else {
          task := Idle;
        }
      }
    }

    /** After a successful send the tail advances under the lock. */
    method Pop()
      requires Valid()
      modifies this`task, this`tail, this`count
      ensures Valid()
      ensures Abs() == S.Step(old(Abs()), S.Pop)
    {
      if task.Accepted? {
        if count > 0 {
          QueueShrinks(ring[..], tail, count);
          SlotAdvance(tail, count - 1);
          tail := (tail + 1) % 16;
          count := count - 1;
        }
        task := Idle;
      }
    }

    /** Any schedule of the steps, from reset. */
    method Perform(schedule: seq<S.Event>)
      requires Valid() && Abs() == S.Start
      modifies this, ring, overflowLane, frame
      ensures Valid() && Abs() == S.Run(schedule).s
    {
      for i := 0 to |schedule|
        invariant Valid() && Abs() == S.Run(schedule[..i]).s
      {
        assert schedule[..i + 1][..i] == schedule[..i];
        match schedule[i] {
          case Tick(level) => SamplingIsr(level);
          case Peek => Peek();
          case CopyByte => CopyByte();
          case Finish(ok) => Finish(ok);
          case Pop => Pop();
        }
      }
      assert schedule[..|schedule|] == schedule;
    }
  }
}
