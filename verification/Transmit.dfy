/** The 512-byte circular buffer, its lane producer and the replay interrupt refine TransmitSpec. */
module Transmit {
  import opened Bytes
  import T = TransmitSpec

  /** The buffer position n places after `from`. */
  function Slot(from: nat, n: nat): (r: nat)
    ensures r < 512
  {
    (from + n) % 512
  }

  lemma SlotsDiffer(from: nat, i: nat, j: nat)
    requires i < j < i + 512
    ensures Slot(from, i) != Slot(from, j)
  {
  }

  lemma SlotsAdd(from: nat, m: nat, n: nat)
    ensures Slot(Slot(from, m), n) == Slot(from, m + n)
  {
  }

  /** n bytes from `from` on, wrapping. */
  function Window(buffer: seq<byte>, from: nat, n: nat): (r: seq<byte>)
    requires |buffer| == 512
    ensures |r| == n
  {
    seq(n, i requires 0 <= i < n => buffer[Slot(from, i)])
  }

  /** A byte stored k places on misses the n <= k bytes before it. */
  lemma StoreBeyond(buffer: seq<byte>, from: nat, n: nat, k: nat, v: byte)
    requires |buffer| == 512 && n <= k < 512
    ensures Window(buffer[Slot(from, k) := v], from, n) == Window(buffer, from, n)
  {
    forall i: nat | i < n
      ensures Slot(from, i) != Slot(from, k)
    {
      SlotsDiffer(from, i, k);
    }
  }

  lemma WindowGrows(buffer: seq<byte>, from: nat, n: nat)
    requires |buffer| == 512
    ensures Window(buffer, from, n + 1) == Window(buffer, from, n) + [buffer[Slot(from, n)]]
  {
  }

  lemma WindowSplits(buffer: seq<byte>, from: nat, m: nat, n: nat)
    requires |buffer| == 512
    ensures Window(buffer, from, m + n) == Window(buffer, from, m) + Window(buffer, Slot(from, m), n)
  {
    forall i: nat | i < n
      ensures Slot(Slot(from, m), i) == Slot(from, m + i)
    {
      SlotsAdd(from, m, i);
    }
  }

  lemma AvailableIs(head: nat, tail: nat, n: nat)
    requires head < 512 && tail < 512 && n < 512 && head == Slot(tail, n)
    ensures (head + 512 - tail) % 512 == n
  {
  }

  lemma MeetsTail(tail: nat, n: nat)
    requires tail < 512 && 0 < n <= 512
    ensures Slot(tail, n) == tail <==> n == 512
  {
  }

  /** Storing v at the next staging place: queued bytes keep, staged bytes grow, and the place after it
      is the tail exactly when the buffer is full. */
  lemma StagingStep(buffer: seq<byte>, tail: nat, queued: nat, k: nat, v: byte)
    requires |buffer| == 512 && tail < 512 && queued + k < 512
    ensures var head := Slot(tail, queued);
      var buffer' := buffer[Slot(head, k) := v];
      && Window(buffer', tail, queued) == Window(buffer, tail, queued)
      && Window(buffer', head, k + 1) == Window(buffer, head, k) + [v]
      && (Slot(head, k) + 1) % 512 == Slot(head, k + 1)
      && (Slot(head, k + 1) == tail <==> queued + k + 1 == 512)
  {
    hide Window;
    var head := Slot(tail, queued);
    var buffer' := buffer[Slot(head, k) := v];
    SlotsAdd(tail, queued, k);
    SlotsAdd(tail, queued, k + 1);
    StoreBeyond(buffer, tail, queued, queued + k, v);
    StoreBeyond(buffer, head, k, k, v);
    WindowGrows(buffer', head, k);
    SlotsAdd(head, k, 1);
    MeetsTail(tail, queued + k + 1);
  }

  datatype ProducerState = Idle | Storing | Checking | Publishing

  class Path {
    const buffer: array<byte>
    var head: nat
    var tail: nat

    // usb_ingest_stream_lane's locals.
    var producer: ProducerState
    var lane: T.ByteLane
    var i: nat
    var nextHead: nat

    // The replay interrupt's state and the pin it drives.
    var txBitIndex: nat
    var txCurrentByte: byte
    var pin: bool

    function BytesAvailable(): (n: nat)
      requires head < 512 && tail < 512
      reads this`head, this`tail
      ensures n < 512 && head == Slot(tail, n)
    {
      (head + 512 - tail) % 512
    }

    ghost predicate Shape()
      reads this
    {
      buffer.Length == 512 && head < 512 && tail < 512 && txBitIndex < 8
    }

    /** Bytes of the current lane stored beyond the published head. */
    ghost function Staged(): nat
      reads this
    {
      match producer
      case Idle => 0
      case Storing => i
      case Checking => i + 1
      case Publishing => 18
    }

    ghost predicate Valid()
      reads this, buffer
    {
      && Shape()
      && Staged() <= 18
      && (producer.Checking? ==> BytesAvailable() + i < 512)
      && (!producer.Checking? ==> BytesAvailable() + Staged() < 512)
      && (producer.Storing? ==> i < 18)
      && (producer.Storing? || producer.Checking? ==> nextHead == Slot(head, i))
      && (producer.Publishing? ==> nextHead == Slot(head, 18))
      && Window(buffer[..], head, Staged()) == lane[..Staged()]
    }

    ghost function Queue(): seq<byte>
      requires Shape()
      reads this, buffer
    {
      Window(buffer[..], tail, BytesAvailable())
    }

    ghost function AbsProducer(): T.Producer
      reads this
    {
      match producer
      case Idle => T.Idle
      case Storing => T.Storing(lane, i)
      case Checking => T.Checking(lane, i)
      case Publishing => T.Publishing(lane)
    }

    ghost function Abs(): T.State
      requires Shape()
      reads this, buffer
    {
      T.State(Queue(), AbsProducer(), txBitIndex, txCurrentByte)
    }

    /** usb_init_rx_buffer and reset_transmission_state. */
    constructor ()
      ensures Valid() && fresh(buffer)
      ensures Abs() == T.Start
    {
      buffer := new byte[512](_ => 0);
      head, tail := 0, 0;
      producer, i, nextHead := Idle, 0, 0;
      lane := seq(18, _ => 0);
      txBitIndex, txCurrentByte, pin := 0, 0, false;
    }

    method Offer(lane: T.ByteLane)
      requires Valid()
      modifies this`producer, this`lane, this`i, this`nextHead
      ensures Valid()
      ensures Abs() == T.Step(old(Abs()), T.Offer(lane))
    {
      if producer.Idle? {
        this.lane := lane;
        i := 0;
        nextHead := head;
        producer := Storing;
      }
    }

    /** One byte of the lane, before the head is published. */
    method Store()
      requires Valid()
      modifies this`producer, buffer
      ensures Valid()
      ensures Abs() == T.Step(old(Abs()), T.Store)
    {
      hide Window;
      if producer.Storing? {
        ghost var was := buffer[..];
        StagingStep(was, tail, BytesAvailable(), i, lane[i]);
        buffer[nextHead] := lane[i];
        assert buffer[..] == was[nextHead := lane[i]];
        producer := Checking;
      }
    }

    /** Past the stored byte; the lane is rejected when that meets the tail. */
    method Advance()
      requires Valid()
      modifies this`producer, this`nextHead, this`i
      ensures Valid()
      ensures Abs() == T.Step(old(Abs()), T.Advance)
    {
      hide Window;
      if producer.Checking? {
        StagingStep(buffer[..], tail, BytesAvailable(), i, lane[i]);
        nextHead := (nextHead + 1) % 512;
        if nextHead == tail {
          producer := Idle;
        } else {
          i := i + 1;
          producer := if i < 18 then Storing else Publishing;
        }
      }
    }

    /** The whole lane becomes visible at once. */
    method Publish()
      requires Valid()
      modifies this`producer, this`head
      ensures Valid()
      ensures Abs() == T.Step(old(Abs()), T.Publish)
    {
      hide Window;
      if producer.Publishing? {
        ghost var queued := BytesAvailable();
        WindowSplits(buffer[..], tail, queued, 18);
        SlotsAdd(tail, queued, 18);
        head := nextHead;
        AvailableIs(head, tail, queued + 18);
        producer := Idle;
      }
    }

    /** usb_read_rx_buffer. */
    method ReadRxBuffer(out: array<byte>, len: nat) returns (ok: bool)
      requires Valid() && out != buffer && len <= out.Length
      modifies this`tail, out
      ensures Valid()
      ensures ok <==> len <= |old(Queue())|
      ensures ok ==> old(Queue()) == out[..len] + Queue()
      ensures !ok ==> tail == old(tail) && out[..] == old(out[..])
    {
      hide Window;
      ok := BytesAvailable() >= len;
      if ok {
        ghost var start, queued := tail, BytesAvailable();
        for k := 0 to len
          invariant tail == Slot(start, k) && head == Slot(start, queued)
          invariant out[..k] == Window(buffer[..], start, k)
        {
          out[k] := buffer[tail];
          WindowGrows(buffer[..], start, k);
          assert out[..k + 1] == out[..k] + [out[k]];
          SlotsAdd(start, k, 1);
          tail := (tail + 1) % 512;
        }
        WindowSplits(buffer[..], start, len, queued - len);
        SlotsAdd(start, len, queued - len);
        AvailableIs(head, tail, queued - len);
      }
    }

    /** usb_read_rx_buffer for one byte, as the replay interrupt calls it. */
    method ReadByte() returns (b: byte)
      requires Valid() && Queue() != []
      modifies this`tail
      ensures Valid()
      ensures [b] + Queue() == old(Queue())
    {
      var cell := new byte[1];
      var ok := ReadRxBuffer(cell, 1);
      b := cell[0];
      assert cell[..1] == [b];
    }

    /** transmission_isr: one replay tick. */
    method TransmissionIsr()
      requires Valid()
      modifies this`tail, this`txBitIndex, this`txCurrentByte, this`pin
      ensures Valid()
      ensures Abs() == T.Step(old(Abs()), T.Tick)
      ensures pin == T.Level(old(Abs()))
    {
      hide Window;
      if BytesAvailable() > 0 {
        if txBitIndex == 0 {
          txCurrentByte := ReadByte();
        }
        pin := Bit(txCurrentByte, txBitIndex);
        txBitIndex := (txBitIndex + 1) % 8;
      } else {
        pin := false;
        txBitIndex := 0;
      }
    }

    /** usb_ingest_stream_lane run with no replay tick in between. */
    method IngestStreamLane(lane: T.ByteLane) returns (ok: bool, available: nat)
      requires Valid() && producer.Idle?
      modifies this`head, buffer
      ensures Valid()
      ensures ok <==> |old(Queue())| <= 493
      ensures Queue() == if ok then old(Queue()) + lane else old(Queue())
      ensures ok ==> available == |Queue()|
    {
      hide Window;
      available := 0;
      ghost var queued := BytesAvailable();
      var next := head;
      for k := 0 to 18
        modifies buffer
        invariant next == Slot(head, k) && queued + k < 512
        invariant Window(buffer[..], tail, queued) == old(Window(buffer[..], tail, queued))
        invariant Window(buffer[..], head, k) == lane[..k]
      {
        ghost var was := buffer[..];
        StagingStep(was, tail, queued, k, lane[k]);
        buffer[next] := lane[k];
        assert buffer[..] == was[next := lane[k]];
        next := (next + 1) % 512;
        if next == tail {
          return false, available;
        }
      }
      WindowSplits(buffer[..], tail, queued, 18);
      SlotsAdd(tail, queued, 18);
      head := next;
      AvailableIs(head, tail, queued + 18);
      ok, available := true, BytesAvailable();
    }

    /** Any schedule of producer steps and replay ticks; `levels` is what each tick drove onto the pin. */
    method Perform(schedule: seq<T.Event>) returns (levels: seq<bool>)
      requires Valid()
      modifies this, buffer
      ensures Valid() && Abs() == T.RunFrom(old(Abs()), schedule).s
      ensures levels == T.RunFrom(old(Abs()), schedule).outputs
    {
      levels := [];
      for k := 0 to |schedule|
        invariant Valid() && Abs() == T.RunFrom(old(Abs()), schedule[..k]).s
        invariant levels == T.RunFrom(old(Abs()), schedule[..k]).outputs
      {
        assert schedule[..k + 1][..k] == schedule[..k];
        match schedule[k] {
          case Offer(l) => Offer(l);
          case Store => Store();
          case Advance => Advance();
          case Publish => Publish();
          case Tick => TransmissionIsr(); levels := levels + [pin];
        }
      }
      assert schedule[..|schedule|] == schedule;
    }
  }
}
