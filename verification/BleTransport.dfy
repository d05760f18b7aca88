/** The host side of the BLE link: frames are cut into writes the peripheral accepts. */
module BleTransport {
  import opened Bytes
  import opened Machine
  import opened Sysex
  import opened BleServer

  function MaxWrite(maximumWriteValueLength: nat): (length: nat)
    ensures length >= 20 && length >= maximumWriteValueLength && length in {20, maximumWriteValueLength}
  {
    if maximumWriteValueLength < 20 then 20 else maximumWriteValueLength
  }

  /** writeSysex: whole chunks of the maximum length, then the rest. */
  method WriteSysex(sysex: seq<byte>, maximumWriteValueLength: nat) returns (writes: seq<seq<byte>>)
    ensures Concat(writes) == sysex
    ensures forall i :: 0 <= i < |writes| ==> 0 < |writes[i]| <= MaxWrite(maximumWriteValueLength)
    ensures forall i :: 0 <= i < |writes| - 1 ==> |writes[i]| == MaxWrite(maximumWriteValueLength)
  {
    var maxWriteLength := MaxWrite(maximumWriteValueLength);
    var offset := 0;
    writes := [];
    while offset < |sysex|
      invariant offset <= |sysex| && Concat(writes) == sysex[..offset]
      invariant forall i :: 0 <= i < |writes| ==> 0 < |writes[i]| <= maxWriteLength
      invariant forall i :: 0 <= i < |writes| - 1 ==> |writes[i]| == maxWriteLength
      invariant offset < |sysex| ==> forall i :: 0 <= i < |writes| ==> |writes[i]| == maxWriteLength
    {
      var end := if offset + maxWriteLength < |sysex| then offset + maxWriteLength else |sysex|;
      var chunk := sysex[offset..end];
      assert (writes + [chunk])[..|writes|] == writes;
      assert sysex[..offset] + chunk == sysex[..end];
      writes := writes + [chunk];
      offset := end;
    }
  }

  /** Frames sent one after the other through writeSysex. */
  method SendFrames(frames: seq<Superframe>, maximumWriteValueLength: nat)
    returns (writes: seq<seq<byte>>, ghost sent: seq<Sent>)
    ensures |sent| == |frames| && forall i :: 0 <= i < |sent| ==> sent[i] == Sent(frames[i], [])
    ensures Concat(writes) == Line(sent)
    ensures forall i :: 0 <= i < |writes| ==> 0 < |writes[i]| <= MaxWrite(maximumWriteValueLength)
  {
    hide *;
    writes, sent := [], [];
    NothingSent();
    for k := 0 to |frames|
      invariant |sent| == k && forall i :: 0 <= i < k ==> sent[i] == Sent(frames[i], [])
      invariant Concat(writes) == Line(sent)
      invariant forall i :: 0 <= i < |writes| ==> 0 < |writes[i]| <= MaxWrite(maximumWriteValueLength)
    {
      var more := WriteSysex(Wrap(frames[k]), maximumWriteValueLength);
      LineNext(writes, more, sent, frames[k]);
      writes, sent := writes + more, sent + [Sent(frames[k], [])];
    }
  }

  lemma NothingSent()
    ensures Concat<byte>([]) == Line([])
  {
  }

  lemma LineNext(writes: seq<seq<byte>>, more: seq<seq<byte>>, sent: seq<Sent>, frame: Superframe)
    requires Concat(writes) == Line(sent) && Concat(more) == Wrap(frame)
    ensures Concat(writes + more) == Line(sent + [Sent(frame, [])])
  {
    hide Wrap, Concat;
    ConcatAppend(writes, more);
    var next := sent + [Sent(frame, [])];
    assert next[..|sent|] == sent;
    SentNext(next);
    assert Wrap(frame) + [] == Wrap(frame);
  }

  /** The server takes the writes one call each, from whatever fragment it held. */
  method Deliver(server: Server, writes: seq<seq<byte>>) returns (ghost handed: seq<seq<byte>>)
    requires server.Valid()
    requires forall i :: 0 <= i < |writes| ==> writes[i] != []
    modifies server, server.fragment
    ensures server.Valid()
    ensures (server.Held(), handed) == RunChunks(BleStep, old(server.Held()), writes)
    ensures server.queue == EnqueueAll(old(server.queue), handed).0
  {
    handed := [];
    assert writes[..0] == [];
    for k := 0 to |writes|
      invariant server.Valid()
      invariant (server.Held(), handed) == RunChunks(BleStep, old(server.Held()), writes[..k])
      invariant server.queue == EnqueueAll(old(server.queue), handed).0
    {
      hide BleStep, Run, Enqueue;
      ghost var frames;
      var queued, handled;
      queued, handled, frames := server.IngestSysexFragment(writes[k]);
      assert writes[..k + 1][..k] == writes[..k];
      EnqueueAllAppend(old(server.queue), handed, frames);
      handed := handed + frames;
    }
    assert writes[..|writes|] == writes;
  }

  lemma {:induction false} EnqueueAllAppend(queue: seq<seq<byte>>, a: seq<seq<byte>>, b: seq<seq<byte>>)
    ensures EnqueueAll(queue, a + b).0 == EnqueueAll(EnqueueAll(queue, a).0, b).0
  {
    hide Enqueue;
    if b == [] {
      assert a + b == a;
    } else {
      var n := |b| - 1;
      EnqueueAllAppend(queue, a, b[..n]);
      assert (a + b)[..|a| + n] == a + b[..n];
    }
  }

  /** Host to firmware: whatever the server held and whatever the write length, the commands of the
      frames sent are queued, in order, up to the first that finds the queue full. */
  method Transfer(server: Server, frames: seq<Superframe>, maximumWriteValueLength: nat) returns (ghost sent: seq<Sent>)
    requires server.Valid()
    modifies server, server.fragment
    ensures server.Valid()
    ensures |sent| == |frames| && forall i :: 0 <= i < |sent| ==> sent[i] == Sent(frames[i], [])
    ensures server.queue == Filled(old(server.queue), Commands(sent))
  {
    hide *;
    var writes;
    writes, sent := SendFrames(frames, maximumWriteValueLength);
    ghost var held, queue := server.Held(), server.queue;
    ghost var handed := Deliver(server, writes);
    NothingIsQuiet(sent);
    WritesReachQueue(held, queue, sent, writes);
  }

  lemma NothingIsQuiet(sent: seq<Sent>)
    requires forall i :: 0 <= i < |sent| ==> sent[i].padding == []
    ensures forall i :: 0 <= i < |sent| ==> Quiet(sent[i].padding)
  {
  }
}
