/** One device's receive buffer on the host: SysEx accumulation, the lane policy, and packets with a
    timestamp each. */
module Host {
  import opened Bytes
  import opened Codec
  import opened Wrappers
  import opened Machine
  import opened Sysex

  const PACKET_SIZE: nat := 18

  type Timestamp = nat

  /** SamplerLanePolicy.forIncomingSuperframe: the lanes of one superframe that are stored. */
  function StoredLanes(frame: seq<byte>, sampling: bool): seq<seq<byte>>
    requires |frame| == 36
  {
    (if AllZero(frame[..18]) then [] else [frame[..18]]) +
    (if AllZero(frame[18..]) && !sampling then [] else [frame[18..]])
  }

  /** The lanes one complete SysEx string stores; none when it does not decode. */
  function LanesIn(frame: seq<byte>, sampling: bool): seq<seq<byte>> {
    match HostParse(frame)
    case None => []
    case Some(f) => StoredLanes(f, sampling)
  }

  function LanesOf(handed: seq<seq<byte>>, sampling: bool): seq<seq<byte>> {
    if handed == [] then [] else LanesOf(handed[..|handed| - 1], sampling) + LanesIn(handed[|handed| - 1], sampling)
  }

  /** The same for superframes. */
  function SelectedLanes(sent: seq<Sent>, sampling: bool): seq<seq<byte>> {
    if sent == [] then []
    else SelectedLanes(sent[..|sent| - 1], sampling) + StoredLanes(sent[|sent| - 1].frame, sampling)
  }

  lemma {:induction false} LanesOfWrapped(sent: seq<Sent>, sampling: bool)
    ensures LanesOf(Wrapped(sent), sampling) == SelectedLanes(sent, sampling)
  {
    if sent != [] {
      hide Wrap, HostParse, Parse, StoredLanes;
      var n := |sent| - 1;
      LanesOfWrapped(sent[..n], sampling);
      ParseWrap(sent[n].frame);
      WrapIsDelimited(sent[n].frame);
      HostAgrees(Wrap(sent[n].frame));
      assert Wrapped(sent)[..n] == Wrapped(sent[..n]);
    }
  }

  function StreamLanes(sent: seq<Sent>): (r: seq<seq<byte>>)
    ensures |r| == |sent|
  {
    if sent == [] then [] else StreamLanes(sent[..|sent| - 1]) + [sent[|sent| - 1].frame[18..]]
  }

  lemma {:induction false} SelectedCount(sent: seq<Sent>)
    ensures |SelectedLanes(sent, true)| == |sent| + |Commands(sent)|
  {
    if sent != [] { SelectedCount(sent[..|sent| - 1]); }
  }

  /** While sampling every stream lane is stored, in order: frame i's behind those before it, with only the
      non-empty command lanes of the frames up to i in between. */
  lemma {:induction false} SamplingKeepsEveryStreamLane(sent: seq<Sent>, i: nat)
    requires i < |sent|
    ensures i + |Commands(sent[..i + 1])| < |SelectedLanes(sent, true)|
    ensures SelectedLanes(sent, true)[i + |Commands(sent[..i + 1])|] == sent[i].frame[18..]
  {
    hide AllZero;
    var n := |sent| - 1;
    SelectedCount(sent);
    SelectedCount(sent[..n]);
    if i < n {
      SamplingKeepsEveryStreamLane(sent[..n], i);
      assert sent[..n][..i + 1] == sent[..i + 1];
      assert SelectedLanes(sent[..n], true) <= SelectedLanes(sent, true);
    } else {
      assert sent[..i + 1] == sent;
      LastSelected(sent);
    }
  }

  lemma LastSelected(sent: seq<Sent>)
    requires sent != []
    ensures var all := SelectedLanes(sent, true);
      all != [] && all[|all| - 1] == sent[|sent| - 1].frame[18..]
  {
  }

  lemma {:induction false} NoCommandsIff(sent: seq<Sent>)
    ensures Commands(sent) == [] <==> forall i :: 0 <= i < |sent| ==> AllZero(sent[i].frame[..18])
  {
    hide AllZero;
    if sent != [] {
      var n := |sent| - 1;
      NoCommandsIff(sent[..n]);
      assert forall i :: 0 <= i < n ==> sent[i] == sent[..n][i];
    }
  }

  /** What is stored while sampling is the samples and nothing else exactly when every command lane is empty. */
  lemma {:induction false} SamplesOnlyIff(sent: seq<Sent>)
    ensures SelectedLanes(sent, true) == StreamLanes(sent)
            <==> forall i :: 0 <= i < |sent| ==> AllZero(sent[i].frame[..18])
  {
    SelectedCount(sent);
    NoCommandsIff(sent);
    if Commands(sent) == [] {
      OnlySamples(sent);
    }
  }

  lemma {:induction false} OnlySamples(sent: seq<Sent>)
    requires Commands(sent) == []
    ensures SelectedLanes(sent, true) == StreamLanes(sent)
  {
    if sent != [] { OnlySamples(sent[..|sent| - 1]); }
  }

  /** How many of the frames carry a non-empty stream lane. */
  function StreamCount(sent: seq<Sent>): nat {
    if sent == [] then 0
    else StreamCount(sent[..|sent| - 1]) + if AllZero(sent[|sent| - 1].frame[18..]) then 0 else 1
  }

  /** Outside sampling the stored lanes are the non-empty ones, as many as there are. */
  lemma {:induction false} NonEmptyCount(sent: seq<Sent>)
    ensures |SelectedLanes(sent, false)| == |Commands(sent)| + StreamCount(sent)
  {
    hide AllZero;
    if sent != [] { NonEmptyCount(sent[..|sent| - 1]); }
  }

  /** And each of them is stored in its place: a frame's command lane behind all lanes of the frames before it, its
      stream lane behind that. */
  lemma {:induction false} NonEmptyLanesAreStored(sent: seq<Sent>, i: nat)
    requires i < |sent|
    ensures var all, at := SelectedLanes(sent, false), |Commands(sent[..i])| + StreamCount(sent[..i]);
      var command, stream := sent[i].frame[..18], sent[i].frame[18..];
      (!AllZero(command) ==> at < |all| && all[at] == command)
      && (!AllZero(stream) ==>
        var next := at + if AllZero(command) then 0 else 1; next < |all| && all[next] == stream)
  {
    hide AllZero;
    var n := |sent| - 1;
    NonEmptyCount(sent[..n]);
    if i < n {
      NonEmptyLanesAreStored(sent[..n], i);
      assert sent[..n][..i] == sent[..i];
      assert SelectedLanes(sent[..n], false) <= SelectedLanes(sent, false);
    }
  }

  lemma MaskedPrefix(prefix: byte, low: byte, j: nat)
    requires j < 7
    ensures (if Bit(prefix & 0x7F, j) then (low & 0x7F) | 0x80 else low & 0x7F) == Restore(prefix, low, j)
  {
  }

  lemma GroupNothing(prefix: byte)
    ensures Group(prefix, []) == []
  {
  }

  lemma GroupGrows(prefix: byte, lows: seq<byte>, low: byte)
    requires |lows| < 7
    ensures Group(prefix, lows + [low]) == Group(prefix, lows) + [Restore(prefix, low, |lows|)]
  {
  }

  /** The inner loop of decodePayload7Bit. */
  method ScatterMaskedGroup(input: seq<byte>, start: nat, output: array<byte>, base: nat) returns (ok: bool, size: nat)
    requires start < |input| && base < output.Length
    modifies output
    ensures size == Min(7, output.Length - base)
    ensures ok <==> 1 + size <= |input| - start
    ensures ok ==> output[..base + size] ==
                   old(output[..base]) + Group(input[start], input[start + 1..start + 1 + size])
  {
    hide Bit, Restore, Group;
    size := Min(7, output.Length - base);
    ghost var done, lows := output[..base], [];
    var prefix := input[start] & 0x7F;
    GroupNothing(input[start]);
    for j := 0 to size
      invariant start + 1 + j <= |input| && lows == input[start + 1..start + 1 + j]
      invariant output[..base + j] == done + Group(input[start], lows)
    {
      if start + 1 + j >= |input| {
        return false, size;
      }
      var low := input[start + 1 + j];
      MaskedPrefix(input[start], low, j);
      GroupGrows(input[start], lows, low);
      var v := low & 0x7F;
      if Bit(prefix, j) {
        v := v | 0x80;
      }
      output[base + j] := v;
      lows := lows + [low];
    }
    ok := true;
  }

  /** decodePayload7Bit: the host's decoder computes the same function as the firmware's. */
  method DecodePayload7Bit(input: seq<byte>) returns (r: Option<seq<byte>>)
    ensures r == Decode(input, 36)
  {
    hide Decode, Group;
    DecodeEnd([], 36);
    if input == [] {
      return None;
    }
    var output := new byte[36](_ => 0);
    var inPos: nat, outPos: nat := 0, 0;
    assert input[0..] == input && output[..0] == [];
    ThenNothing(Decode(input, 36));
    while inPos < |input| && outPos < 36
      invariant inPos <= |input| && outPos <= 36
      invariant Decode(input, 36) == Then(output[..outPos], Decode(input[inPos..], 36 - outPos))
    {
      ghost var done := output[..outPos];
      var more, size := ScatterMaskedGroup(input, inPos, output, outPos);
      DecodeNext(input, inPos, 36 - outPos, size);
      if !more {
        return None;
      }
      ghost var group := Group(input[inPos], input[inPos + 1..inPos + 1 + size]);
      inPos, outPos := inPos + 1 + size, outPos + size;
      ThenAssociates(done, group, Decode(input[inPos..], 36 - outPos));
    }
    DecodeEnd(input[inPos..], 36 - outPos);
    if outPos != 36 {
      return None;
    }
    assert output[..outPos] + [] == output[..];
    r := Some(output[..]);
  }

  /** decodeSysexToSuperframe. */
  method DecodeSysexToSuperframe(sysex: seq<byte>) returns (r: Option<seq<byte>>)
    ensures r == HostParse(sysex)
  {
    hide Decode;
    if |sysex| < 7 || sysex[0] != START || sysex[|sysex| - 1] != END {
      return None;
    }
    if sysex[1] != 0x7D || sysex[2..5] != [0x45, 0x4D, 0x57] {
      return None;
    }
    r := DecodePayload7Bit(sysex[5..|sysex| - 1]);
  }

  function PacketAt(bytes: seq<byte>, i: nat): seq<byte>
    requires PACKET_SIZE * (i + 1) <= |bytes|
  {
    bytes[PACKET_SIZE * i..PACKET_SIZE * (i + 1)]
  }

  /** Stored lanes are the buffer's packets. */
  lemma {:induction false} PacketIsLane(lanes: seq<seq<byte>>, i: nat)
    requires i < |lanes| && forall k :: 0 <= k < |lanes| ==> |lanes[k]| == PACKET_SIZE
    ensures |Concat(lanes)| == PACKET_SIZE * |lanes|
    ensures PacketAt(Concat(lanes), i) == lanes[i]
  {
    var n := |lanes| - 1;
    var before := Concat(lanes[..n]);
    assert Concat(lanes) == before + lanes[n];
    if n == 0 {
      assert before == [];
    } else {
      PacketIsLane(lanes[..n], if i < n then i else 0);
    }
    PacketAppended(before, lanes[n], i);
  }

  lemma PacketAppended(before: seq<byte>, lane: seq<byte>, i: nat)
    requires |lane| == PACKET_SIZE && PACKET_SIZE * i <= |before| && |before| % PACKET_SIZE == 0
    ensures PacketAt(before + lane, i) == if PACKET_SIZE * i == |before| then lane else PacketAt(before, i)
  {
  }

  lemma {:induction false} SelectedLanesAreLanes(sent: seq<Sent>, sampling: bool)
    ensures forall k :: 0 <= k < |SelectedLanes(sent, sampling)| ==> |SelectedLanes(sent, sampling)[k]| == PACKET_SIZE
  {
    if sent != [] { SelectedLanesAreLanes(sent[..|sent| - 1], sampling); }
  }

  function Repeat(ts: Timestamp, n: nat): (r: seq<Timestamp>)
    ensures |r| == n
  {
    seq(n, _ => ts)
  }

  class Session {
    var rxBytes: seq<byte>
    var rxTsMs: seq<Timestamp>
    var rxCounter: nat
    var samplerStreamingActive: bool
    var accumulator: Accumulator

    /** One timestamp per whole packet and a read cursor within the packets. */
    ghost predicate Valid()
      reads this
    {
      |rxTsMs| == |rxBytes| / PACKET_SIZE && rxCounter <= |rxBytes| / PACKET_SIZE
    }

    constructor ()
      ensures Valid() && rxBytes == [] && accumulator == Accumulator([], false) && !samplerStreamingActive
    {
      rxBytes, rxTsMs, rxCounter := [], [], 0;
      samplerStreamingActive := false;
      accumulator := Accumulator([], false);
    }

    method ClearAll()
      modifies this
      ensures Valid() && rxBytes == [] && rxTsMs == [] && rxCounter == 0
      ensures accumulator == Accumulator([], false) && !samplerStreamingActive
    {
      rxBytes, rxTsMs, rxCounter := [], [], 0;
      samplerStreamingActive := false;
      accumulator := Accumulator([], false);
    }

    method SetRxCounter(value: nat)
      requires Valid()
      modifies this`rxCounter
      ensures Valid()
      ensures rxCounter == if value <= |rxTsMs| then value else |rxTsMs|
    {
      var packets := |rxBytes| / PACKET_SIZE;
      rxCounter := if value < packets then value else packets;
    }

    /** storeBulkPktLocked: data of any length. */
    method StoreBulkPkt(data: seq<byte>, ts: Timestamp)
      requires Valid()
      modifies this`rxBytes, this`rxTsMs
      ensures Valid()
      ensures rxBytes == old(rxBytes) + data
      ensures old(rxTsMs) <= rxTsMs
      ensures forall i :: |old(rxTsMs)| <= i < |rxTsMs| ==> rxTsMs[i] == ts
    {
      var prevPackets := |rxBytes| / PACKET_SIZE;
      rxBytes := rxBytes + data;
      var newPackets := |rxBytes| / PACKET_SIZE;
      var delta := newPackets - prevPackets;
      if delta > 0 {
        rxTsMs := rxTsMs + Repeat(ts, delta);
      }
    }

    /** One complete SysEx string. */
    method FeedFrame(frame: seq<byte>, ts: Timestamp)
      requires Valid()
      modifies this`rxBytes, this`rxTsMs
      ensures Valid()
      ensures rxBytes == old(rxBytes) + Concat(LanesIn(frame, samplerStreamingActive))
      ensures old(rxTsMs) <= rxTsMs
      ensures forall i :: |old(rxTsMs)| <= i < |rxTsMs| ==> rxTsMs[i] == ts
    {
      hide HostParse, StoredLanes;
      var superframe := DecodeSysexToSuperframe(frame);
      if superframe.None? {
        ConcatLanes([], []);
        assert rxBytes + [] == rxBytes;
      } else {
        StoreLanes(superframe.value, ts);
      }
    }

    /** feedMidiBytes. */
    method FeedMidiBytes(data: seq<byte>, ts: Timestamp)
      requires Valid()
      modifies this`rxBytes, this`rxTsMs, this`accumulator
      ensures Valid()
      ensures var r := Run(HostStep, old(accumulator), data);
        && accumulator == r.0
        && rxBytes == old(rxBytes) + Concat(LanesOf(r.1, samplerStreamingActive))
      ensures old(rxTsMs) <= rxTsMs
      ensures forall i :: |old(rxTsMs)| <= i < |rxTsMs| ==> rxTsMs[i] == ts
    {
      if data == [] {
        assert rxBytes + [] == rxBytes;
        return;
      }
      var frames := Feed(data);
      assert frames[..0] == [];
      for k := 0 to |frames|
        modifies this`rxBytes, this`rxTsMs
        invariant Valid()
        invariant rxBytes == old(rxBytes) + Concat(LanesOf(frames[..k], samplerStreamingActive))
        invariant old(rxTsMs) <= rxTsMs
        invariant forall i :: |old(rxTsMs)| <= i < |rxTsMs| ==> rxTsMs[i] == ts
      {
        hide LanesIn, Concat;
        ghost var before := LanesOf(frames[..k], samplerStreamingActive);
        assert frames[..k + 1][..k] == frames[..k];
        FeedFrame(frames[k], ts);
        AppendLanes(old(rxBytes), before, LanesIn(frames[k], samplerStreamingActive));
      }
      assert frames[..|frames|] == frames;
    }

    /** UsbMidiSysexAccumulator.feed. */
    method Feed(data: seq<byte>) returns (frames: seq<seq<byte>>)
      modifies this`accumulator
      ensures (accumulator, frames) == Run(HostStep, old(accumulator), data)
    {
      frames := [];
      assert data[..0] == [];
      for k := 0 to |data|
        invariant (accumulator, frames) == Run(HostStep, old(accumulator), data[..k])
      {
        hide Run;
        ghost var before := accumulator;
        ghost var handed := frames;
        var b := data[k];
        if b == START {
          accumulator := Accumulator([], true);
        }
        if accumulator.inSysex {
          accumulator := accumulator.(buf := accumulator.buf + [b]);
          if b == END {
            frames := frames + [accumulator.buf];
            accumulator := Accumulator([], false);
          }
        }
        assert data[..k + 1] == data[..k] + [b];
        var last := HostStep(before, b);
        if last.1 == [] { assert handed + last.1 == handed; }
        RunStep(HostStep, old(accumulator), data[..k], b, before, handed, last.0, last.1);
      }
      assert data[..|data|] == data;
    }

    /** The policy for one decoded superframe. */
    method StoreLanes(superframe: seq<byte>, ts: Timestamp)
      requires Valid() && |superframe| == 36
      modifies this`rxBytes, this`rxTsMs
      ensures Valid()
      ensures rxBytes == old(rxBytes) + Concat(StoredLanes(superframe, samplerStreamingActive))
      ensures old(rxTsMs) <= rxTsMs
      ensures forall i :: |old(rxTsMs)| <= i < |rxTsMs| ==> rxTsMs[i] == ts
    {
      var commandLane, streamLane := superframe[..18], superframe[18..];
      ConcatLanes(commandLane, streamLane);
      assert rxBytes + [] == rxBytes;
      if !AllZero(commandLane) {
        StoreBulkPkt(commandLane, ts);
      }
      if !AllZero(streamLane) || samplerStreamingActive {
        StoreBulkPkt(streamLane, ts);
      }
      assert old(rxBytes) + commandLane + streamLane == old(rxBytes) + (commandLane + streamLane);
    }

    /** loadBuffer. */
    method LoadBuffer(data: seq<byte>)
      modifies this`rxBytes, this`rxTsMs, this`rxCounter
      ensures Valid() && rxBytes == data && rxCounter == 0 && forall i :: 0 <= i < |rxTsMs| ==> rxTsMs[i] == 0
    {
      rxBytes := data;
      rxCounter := 0;
      rxTsMs := Repeat(0, |rxBytes| / PACKET_SIZE);
    }

    /** restoreRxState: any saved state, even an inconsistent one, comes back consistent. */
    method RestoreRxState(bytes: seq<byte>, tsMs: seq<Timestamp>, counter: nat)
      modifies this`rxBytes, this`rxTsMs, this`rxCounter
      ensures Valid() && rxBytes == bytes
      ensures tsMs <= rxTsMs || rxTsMs <= tsMs
      ensures forall i :: |tsMs| <= i < |rxTsMs| ==> rxTsMs[i] == 0
      ensures |tsMs| == |bytes| / PACKET_SIZE && counter <= |tsMs| ==> rxTsMs == tsMs && rxCounter == counter
    {
      rxBytes := bytes;
      rxTsMs := tsMs;
      var packets := |rxBytes| / PACKET_SIZE;
      if |rxTsMs| < packets {
        rxTsMs := rxTsMs + Repeat(0, packets - |rxTsMs|);
      } else if |rxTsMs| > packets {
        rxTsMs := rxTsMs[..packets];
      }
      rxCounter := if counter < packets then counter else packets;
    }

    method PrepareCommandResponseWait()
      requires Valid()
      modifies this`rxCounter
      ensures Valid() && rxCounter == |rxTsMs|
    {
      rxCounter := |rxBytes| / PACKET_SIZE;
    }

    /** nextRxPacket: the packet at the cursor with its own timestamp, once. */
    method NextRxPacket() returns (packet: Option<(seq<byte>, Timestamp)>)
      requires Valid()
      modifies this`rxCounter
      ensures Valid()
      ensures packet.None? <==> old(rxCounter) == |rxTsMs|
      ensures packet.None? ==> rxCounter == old(rxCounter)
      ensures packet.Some? ==> rxCounter == old(rxCounter) + 1
      ensures packet.Some? ==> packet.value == (PacketAt(rxBytes, old(rxCounter)), rxTsMs[old(rxCounter)])
    {
      var packets := |rxBytes| / PACKET_SIZE;
      if rxCounter >= packets {
        return None;
      }
      var startByte := rxCounter * PACKET_SIZE;
      if startByte + PACKET_SIZE > |rxBytes| {
        return None;
      }
      var ts := if rxCounter < |rxTsMs| then rxTsMs[rxCounter] else 0;
      packet := Some((rxBytes[startByte..startByte + PACKET_SIZE], ts));
      rxCounter := rxCounter + 1;
    }

    /** outgoingSamplerPolicy: only a sample start or stop changes the flag. */
    method OutgoingSamplerPolicy(data: seq<byte>)
      modifies this`samplerStreamingActive
      ensures samplerStreamingActive ==
        if data[..Min(2, |data|)] == [0x60, 0x00] then true
        else if data[..Min(2, |data|)] == [0x60, 0x01] then false
        else old(samplerStreamingActive)
    {
      if |data| >= 2 && data[0] == 0x60 {
        if data[1] == 0x00 {
          samplerStreamingActive := true;
        } else if data[1] == 0x01 {
          samplerStreamingActive := false;
        }
      }
    }

    /** Frames with quiet padding, fed in any chunks from any accumulator state, append exactly the policy's
        lanes, in order; each call stamps the packets it completes with its own time. */
    method FeedChunks(chunks: seq<seq<byte>>, times: seq<Timestamp>, ghost sent: seq<Sent>)
      returns (ghost marks: seq<nat>)
      requires Valid() && |times| == |chunks|
      requires forall i :: 0 <= i < |sent| ==> Quiet(sent[i].padding)
      requires Concat(chunks) == Line(sent)
      modifies this`rxBytes, this`rxTsMs, this`accumulator
      ensures Valid()
      ensures rxBytes == old(rxBytes) + Concat(SelectedLanes(sent, samplerStreamingActive))
      ensures old(rxTsMs) <= rxTsMs
      ensures |marks| == |chunks| + 1 && marks[0] == |old(rxTsMs)| && marks[|chunks|] == |rxTsMs|
      ensures AllStamped(rxTsMs, marks, times, |chunks|)
    {
      ghost var handed: seq<seq<byte>> := [];
      marks := [|rxTsMs|];
      assert chunks[..0] == [];
      assert rxBytes + [] == rxBytes;
      for k := 0 to |chunks|
        modifies this`rxBytes, this`rxTsMs, this`accumulator
        invariant Valid() && old(rxTsMs) <= rxTsMs
        invariant (accumulator, handed) == RunChunks(HostStep, old(accumulator), chunks[..k])
        invariant rxBytes == old(rxBytes) + Concat(LanesOf(handed, samplerStreamingActive))
        invariant |marks| == k + 1 && marks[0] == |old(rxTsMs)| && marks[k] == |rxTsMs|
        invariant AllStamped(rxTsMs, marks, times, k)
      {
        hide Run, HostStep, Concat, LanesOf, Line, SelectedLanes, Stamped;
        assert chunks[..k + 1][..k] == chunks[..k];
        ghost var was := rxTsMs;
        ghost var before, more := LanesOf(handed, samplerStreamingActive), Run(HostStep, accumulator, chunks[k]).1;
        FeedMidiBytes(chunks[k], times[k]);
        LanesOfAppend(handed, more, samplerStreamingActive);
        AppendLanes(old(rxBytes), before, LanesOf(more, samplerStreamingActive));
        handed := handed + more;
        StampedNext(was, rxTsMs, marks, times, k);
        marks := marks + [|rxTsMs|];
      }
      assert chunks[..|chunks|] == chunks;
      HostReassembles(old(accumulator), sent, chunks);
      LanesOfWrapped(sent, samplerStreamingActive);
    }
  }

  /** Packets `from` to `until` carry the timestamp ts. */
  predicate Stamped(tsMs: seq<Timestamp>, from: nat, until: nat, ts: Timestamp) {
    from <= until <= |tsMs| && forall i :: from <= i < until ==> tsMs[i] == ts
  }

  /** Call k stamped the packets from marks[k] to marks[k + 1]. */
  predicate AllStamped(tsMs: seq<Timestamp>, marks: seq<nat>, times: seq<Timestamp>, n: nat) {
    n < |marks| && n <= |times| && forall k :: 0 <= k < n ==> Stamped(tsMs, marks[k], marks[k + 1], times[k])
  }

  lemma StampedNext(was: seq<Timestamp>, tsMs: seq<Timestamp>, marks: seq<nat>, times: seq<Timestamp>, n: nat)
    requires AllStamped(was, marks, times, n) && |marks| == n + 1 && marks[n] == |was| && n < |times|
    requires was <= tsMs && forall i :: |was| <= i < |tsMs| ==> tsMs[i] == times[n]
    ensures AllStamped(tsMs, marks + [|tsMs|], times, n + 1)
  {
    var next := marks + [|tsMs|];
    forall k | 0 <= k < n + 1
      ensures Stamped(tsMs, next[k], next[k + 1], times[k])
    {
      if k < n {
        assert Stamped(was, marks[k], marks[k + 1], times[k]);
      }
    }
  }

  lemma {:induction false} LanesOfAppend(a: seq<seq<byte>>, b: seq<seq<byte>>, sampling: bool)
    ensures LanesOf(a + b, sampling) == LanesOf(a, sampling) + LanesOf(b, sampling)
  {
    hide LanesIn;
    if b == [] {
      assert a + b == a;
      assert LanesOf(a, sampling) + [] == LanesOf(a, sampling);
    } else {
      var n := |b| - 1;
      LanesOfAppend(a, b[..n], sampling);
      assert (a + b)[..|a| + n] == a + b[..n];
    }
  }

  lemma AppendLanes(bytes: seq<byte>, a: seq<seq<byte>>, b: seq<seq<byte>>)
    ensures (bytes + Concat(a)) + Concat(b) == bytes + Concat(a + b)
  {
    ConcatAppend(a, b);
  }

  lemma ConcatLanes(command: seq<byte>, stream: seq<byte>)
    ensures Concat([command]) == command && Concat([stream]) == stream
    ensures Concat([command] + [stream]) == command + stream
    ensures Concat<byte>([]) == []
  {
    assert [command][..0] == [] && [stream][..0] == [] && ([command] + [stream])[..1] == [command];
    assert [] + command == command && [] + stream == stream;
  }
}
