/** The 48-byte SysEx frame, and the three reassemblers that find it in a byte or packet stream:
    the BLE fragment buffer, the host accumulator and the USB-MIDI receive loop. */
module Sysex {
  import opened Bytes
  import opened Codec
  import opened Wrappers
  import opened Machine

  const START: byte := 0xF0
  const END: byte := 0xF7
  const HEADER: seq<byte> := [0xF0, 0x7D, 0x45, 0x4D, 0x57]

  type Superframe = s: seq<byte> | |s| == 36 witness seq(36, _ => 0)

  function Wrap(f: Superframe): (w: seq<byte>) {
    HEADER + Encode(f) + [END]
  }

  /** The header, trailer and length tests the firmware makes before decoding. */
  predicate Framed(s: seq<byte>) {
    |s| == 48 && s[..5] == HEADER && s[47] == END
  }

  function Parse(s: seq<byte>): Option<seq<byte>> {
    if Framed(s) then Decode(s[5..47], 36) else None
  }

  /** What the reassemblers rely on: only the first byte starts a frame, only the last ends it. */
  predicate Delimited(w: seq<byte>) {
    |w| == 48 && w[0] == START && w[47] == END && forall k :: 0 < k < 47 ==> w[k] < 0x80
  }

  lemma WrapIsDelimited(f: Superframe)
    ensures Delimited(Wrap(f))
  {
    hide Encode;
    EncodedIsSevenBit(f);
    var w := Wrap(f);
    forall k | 0 < k < 47
      ensures w[k] < 0x80
    {
      if k >= 5 { assert w[k] == Encode(f)[k - 5]; }
    }
  }

  /** A wrapped superframe parses to itself. */
  lemma ParseWrap(f: Superframe)
    ensures Parse(Wrap(f)) == Some(f)
  {
    hide Encode, Decode;
    EncodedIsSevenBit(f);
    DecodeEncode(f);
    assert Wrap(f)[5..47] == Encode(f);
    assert Wrap(f)[..5] == HEADER;
  }

  /** Wrapping undoes parsing exactly on frames whose payload bytes are below 0x80 and whose last
      group prefix is at most 1. */
  lemma WrapParseIff(s: seq<byte>)
    requires Framed(s)
    ensures Parse(s).Some?
    ensures Wrap(Parse(s).value) == s <==> SevenBit(s[5..47]) && s[45] <= 1
  {
    hide Encode, Decode;
    var p := s[5..47];
    EncodeDecodeIff(p, 36);
    EncodedIsSevenBit(Parse(s).value);
    assert s == HEADER + p + [END];
    var e := Encode(Parse(s).value);
    if HEADER + e + [END] == s { assert e == s[5..47]; }
    assert p[40] < Mask(1) <==> s[45] <= 1;
  }

  // ---- A byte stream cut into writes: the BLE fragment buffer ----

  /** One byte through ble_ingest_sysex_fragment; `buf` is the fragment so far, outputs are the complete
      48-byte frames handed to ble_enqueue_superframe. */
  function BleStep(buf: seq<byte>, b: byte): (seq<byte>, seq<seq<byte>>) {
    var buf := if b == START then [] else buf;
    if buf == [] && b != START then ([], [])
    else if |buf| >= 48 then ([], [])
    else if b != END then (buf + [b], [])
    else ([], if |buf| + 1 == 48 then [buf + [b]] else [])
  }

  // ---- The host accumulator ----

  datatype Accumulator = Accumulator(buf: seq<byte>, inSysex: bool)

  /** One byte through UsbMidiSysexAccumulator.feed. */
  function HostStep(a: Accumulator, b: byte): (Accumulator, seq<seq<byte>>) {
    var a := if b == START then Accumulator([], true) else a;
    if !a.inSysex then (a, [])
    else if b == END then (Accumulator([], false), [a.buf + [b]])
    else (Accumulator(a.buf + [b], true), [])
  }

  /** A frame and any bytes after it that do not start another, such as the firmware's zero padding. */
  datatype Sent = Sent(frame: Superframe, padding: seq<byte>)

  ghost predicate Quiet(padding: seq<byte>) {
    START !in padding
  }

  function Line(sent: seq<Sent>): seq<byte> {
    if sent == [] then []
    else Line(sent[..|sent| - 1]) + (Wrap(sent[|sent| - 1].frame) + sent[|sent| - 1].padding)
  }

  function Wrapped(sent: seq<Sent>): (r: seq<seq<byte>>)
    ensures |r| == |sent|
  {
    if sent == [] then [] else Wrapped(sent[..|sent| - 1]) + [Wrap(sent[|sent| - 1].frame)]
  }

  /** The command lanes of the superframes that carry one. */
  function Commands(sent: seq<Sent>): seq<seq<byte>> {
    if sent == [] then []
    else
      var n := |sent| - 1;
      var lane := sent[n].frame[..18];
      if AllZero(lane) then Commands(sent[..n]) else Commands(sent[..n]) + [lane]
  }

  predicate AllZero(s: seq<byte>) {
    forall k :: 0 <= k < |s| ==> s[k] == 0
  }

  /** Empty means all zero, nothing else. */
  lemma EmptyIs(s: seq<byte>)
    ensures AllZero(s) <==> s == seq(|s|, _ => 0x00)
  {
    if AllZero(s) {
      assert forall k :: 0 <= k < |s| ==> s[k] == seq(|s|, _ => 0x00)[k];
    }
  }

  /** The frame on the wire, byte for byte. */
  lemma WrapLayout(f: Superframe)
    ensures |Wrap(f)| == 48 && Wrap(f)[..5] == [0xF0, 0x7D, 0x45, 0x4D, 0x57] && Wrap(f)[47] == 0xF7
    ensures Wrap(f)[5..47] == Encode(f)
  {
    hide Encode;
    EncodedIsSevenBit(f);
  }

  /** And what passes for one. */
  lemma FramedIs(s: seq<byte>)
    ensures Parse(s).Some? <==> |s| == 48 && s[..5] == [0xF0, 0x7D, 0x45, 0x4D, 0x57] && s[47] == 0xF7
  {
    hide Decode;
    if |s| == 48 {
      DecodeNeeds(s[5..47], 36);
    }
  }

  lemma {:induction false} WrappedAt(sent: seq<Sent>, i: nat)
    requires i < |sent|
    ensures Wrapped(sent)[i] == Wrap(sent[i].frame)
  {
    hide Wrap;
    if i < |sent| - 1 { WrappedAt(sent[..|sent| - 1], i); }
  }

  lemma SentNext(sent: seq<Sent>)
    requires sent != []
    ensures var n := |sent| - 1; var one := Wrap(sent[n].frame);
      Line(sent) == Line(sent[..n]) + (one + sent[n].padding) && Wrapped(sent) == Wrapped(sent[..n]) + [one]
  {
    hide Wrap;
  }

  lemma {:induction false} BleBody(buf: seq<byte>, w: seq<byte>, k: nat)
    requires Delimited(w) && 0 < k <= 47
    ensures Run(BleStep, buf, w[..k]) == (w[..k], [])
  {
    assert w[..k] == w[..k - 1] + [w[k - 1]];
    RunNext(BleStep, buf, w[..k - 1], w[k - 1]);
    if k == 1 {
      assert w[..0] == [];
    } else {
      BleBody(buf, w, k - 1);
    }
  }

  lemma {:induction false} BleIdle(padding: seq<byte>)
    requires Quiet(padding)
    ensures Run(BleStep, [], padding) == ([], [])
  {
    if padding != [] {
      var n := |padding| - 1;
      BleIdle(padding[..n]);
      assert padding == padding[..n] + [padding[n]];
      RunNext(BleStep, [], padding[..n], padding[n]);
    }
  }

  /** From any fragment state, one frame with its padding is handed over and leaves nothing behind. */
  lemma BleOne(buf: seq<byte>, s: Sent)
    requires Quiet(s.padding)
    ensures Run(BleStep, buf, Wrap(s.frame) + s.padding) == ([], [Wrap(s.frame)])
  {
    hide Run, Wrap;
    var w := Wrap(s.frame);
    WrapIsDelimited(s.frame);
    BleBody(buf, w, 47);
    assert w == w[..47] + [w[47]];
    RunNext(BleStep, buf, w[..47], w[47]);
    BleIdle(s.padding);
    RunAppend(BleStep, buf, w, s.padding);
  }

  lemma {:induction false} BleLine(buf: seq<byte>, sent: seq<Sent>)
    requires forall i :: 0 <= i < |sent| ==> Quiet(sent[i].padding)
    ensures Run(BleStep, buf, Line(sent)) == (if sent == [] then buf else [], Wrapped(sent))
  {
    if sent == [] {
      assert Wrapped(sent) == [];
    } else {
      hide *;
      var n := |sent| - 1;
      SentNext(sent);
      BleLine(buf, sent[..n]);
      var mid := if n == 0 then buf else [];
      BleOne(mid, sent[n]);
      RunBoth(BleStep, buf, Line(sent[..n]), Wrap(sent[n].frame) + sent[n].padding,
              mid, Wrapped(sent[..n]), [], [Wrap(sent[n].frame)]);
    }
  }

  /** From any fragment state, frames cut into writes in any way are handed over exactly, in order, and
      each parses to its superframe. */
  lemma {:induction false} BleReassembles(buf: seq<byte>, sent: seq<Sent>, writes: seq<seq<byte>>)
    requires forall i :: 0 <= i < |sent| ==> Quiet(sent[i].padding)
    requires Concat(writes) == Line(sent)
    ensures RunChunks(BleStep, buf, writes).1 == Wrapped(sent)
    ensures forall i :: 0 <= i < |sent| ==> Parse(Wrapped(sent)[i]) == Some(sent[i].frame)
  {
    ChunkingIrrelevant(BleStep, buf, writes);
    BleLine(buf, sent);
    forall i | 0 <= i < |sent| ensures Parse(Wrapped(sent)[i]) == Some(sent[i].frame) {
      WrappedAt(sent, i);
      ParseWrap(sent[i].frame);
    }
  }

  lemma {:induction false} HostBody(a: Accumulator, w: seq<byte>, k: nat)
    requires Delimited(w) && 0 < k <= 47
    ensures Run(HostStep, a, w[..k]) == (Accumulator(w[..k], true), [])
  {
    assert w[..k] == w[..k - 1] + [w[k - 1]];
    RunNext(HostStep, a, w[..k - 1], w[k - 1]);
    if k == 1 {
      assert w[..0] == [];
    } else {
      HostBody(a, w, k - 1);
    }
  }

  lemma {:induction false} HostIdle(padding: seq<byte>)
    requires Quiet(padding)
    ensures Run(HostStep, Accumulator([], false), padding) == (Accumulator([], false), [])
  {
    if padding != [] {
      var n := |padding| - 1;
      HostIdle(padding[..n]);
      assert padding == padding[..n] + [padding[n]];
      RunNext(HostStep, Accumulator([], false), padding[..n], padding[n]);
    }
  }

  lemma HostOne(a: Accumulator, s: Sent)
    requires Quiet(s.padding)
    ensures Run(HostStep, a, Wrap(s.frame) + s.padding) == (Accumulator([], false), [Wrap(s.frame)])
  {
    hide Run, Wrap;
    var w := Wrap(s.frame);
    WrapIsDelimited(s.frame);
    HostBody(a, w, 47);
    assert w == w[..47] + [w[47]];
    RunNext(HostStep, a, w[..47], w[47]);
    HostIdle(s.padding);
    RunAppend(HostStep, a, w, s.padding);
  }

  lemma {:induction false} HostLine(a: Accumulator, sent: seq<Sent>)
    requires forall i :: 0 <= i < |sent| ==> Quiet(sent[i].padding)
    ensures Run(HostStep, a, Line(sent)) == (if sent == [] then a else Accumulator([], false), Wrapped(sent))
  {
    if sent == [] {
      assert Wrapped(sent) == [];
    } else {
      hide *;
      var n := |sent| - 1;
      SentNext(sent);
      HostLine(a, sent[..n]);
      var mid := if n == 0 then a else Accumulator([], false);
      HostOne(mid, sent[n]);
      RunBoth(HostStep, a, Line(sent[..n]), Wrap(sent[n].frame) + sent[n].padding,
              mid, Wrapped(sent[..n]), Accumulator([], false), [Wrap(sent[n].frame)]);
    }
  }

  /** decodeSysexToSuperframe, which also accepts longer payloads. */
  function HostParse(s: seq<byte>): (r: Option<seq<byte>>)
    ensures r.Some? ==> |r.value| == 36
  {
    if |s| >= 7 && s[0] == START && s[|s| - 1] == END && s[1] == 0x7D && s[2..5] == [0x45, 0x4D, 0x57]
    then Decode(s[5..|s| - 1], 36)
    else None
  }

  lemma {:induction false} DecodeNeeds(p: seq<byte>, n: nat)
    ensures Decode(p, n).Some? <==> |p| >= EncodedSize(n)
  {
    if n > 0 {
      SizeSplits(n);
      if |p| >= 1 + Min(7, n) { DecodeNeeds(p[1 + Min(7, n)..], n - Min(7, n)); }
    }
  }

  /** Host and firmware agree on every 48-byte string, and the host accepts nothing shorter. */
  lemma HostAgrees(s: seq<byte>)
    ensures |s| == 48 ==> HostParse(s) == Parse(s)
    ensures |s| < 48 ==> HostParse(s) == None
  {
    hide Decode;
    if |s| == 48 {
      assert s[..5] == [s[0], s[1]] + s[2..5];
    } else if 7 <= |s| < 48 {
      DecodeNeeds(s[5..|s| - 1], 36);
    }
  }

  /** From any accumulator state, frames with quiet padding, fed in any chunks, come out exactly, in
      order, and each parses to its superframe. */
  lemma {:induction false} HostReassembles(a: Accumulator, sent: seq<Sent>, chunks: seq<seq<byte>>)
    requires forall i :: 0 <= i < |sent| ==> Quiet(sent[i].padding)
    requires Concat(chunks) == Line(sent)
    ensures RunChunks(HostStep, a, chunks).1 == Wrapped(sent)
    ensures forall i :: 0 <= i < |sent| ==> HostParse(Wrapped(sent)[i]) == Some(sent[i].frame)
  {
    ChunkingIrrelevant(HostStep, a, chunks);
    HostLine(a, sent);
    forall i | 0 <= i < |sent| ensures HostParse(Wrapped(sent)[i]) == Some(sent[i].frame) {
      WrappedAt(sent, i);
      ParseWrap(sent[i].frame);
      WrapIsDelimited(sent[i].frame);
      HostAgrees(Wrap(sent[i].frame));
    }
  }

  // ---- Three bytes per USB-MIDI packet ----

  datatype Packet = Packet(b1: byte, b2: byte, b3: byte)

  /** One packet through usb_midi_rx_task: a start byte is only looked for while nothing is held. */
  function UsbStep(held: seq<byte>, p: Packet): (seq<byte>, seq<seq<byte>>) {
    if held == [] && p.b1 != START then ([], [])
    else if |held| + 3 > 48 then ([], [])
    else
      var held' := held + [p.b1, p.b2, p.b3];
      if |held'| == 48 then ([], [held']) else (held', [])
  }

  function Packets(w: seq<byte>): (r: seq<Packet>)
    requires |w| == 48
    ensures |r| == 16
  {
    seq(16, i requires 0 <= i < 16 => Packet(w[3 * i], w[3 * i + 1], w[3 * i + 2]))
  }

  /** The held bytes after k packets of a frame, and what has been handed over. */
  function UsbAfter(held: seq<byte>, w: seq<byte>, k: nat): (seq<byte>, seq<seq<byte>>)
    requires |held| < 48 && |w| == 48 && k <= 16
  {
    if |held| + 3 * k < 48 then (held + w[..3 * k], []) else ([], [held + w[..48 - |held|]])
  }

  lemma UsbAfterStep(held: seq<byte>, w: seq<byte>, k: nat)
    requires |held| < 48 && |held| % 3 == 0 && Delimited(w) && k < 16
    ensures var before := UsbAfter(held, w, k);
      var last := UsbStep(before.0, Packets(w)[k]);
      UsbAfter(held, w, k + 1) == (last.0, before.1 + last.1)
  {
    assert w[..3 * (k + 1)] == w[..3 * k] + [w[3 * k], w[3 * k + 1], w[3 * k + 2]];
    var before := UsbAfter(held, w, k);
    var last := UsbStep(before.0, Packets(w)[k]);
    if |held| + 3 * k < 48 {
      var more := [w[3 * k], w[3 * k + 1], w[3 * k + 2]];
      assert held + w[..3 * (k + 1)] == before.0 + more;
      assert before.1 + last.1 == last.1;
      if |held| + 3 * (k + 1) == 48 { assert w[..48 - |held|] == w[..3 * (k + 1)]; }
    } else {
      assert last.1 == [] && before.1 + [] == before.1;
    }
  }

  lemma {:induction false} UsbPackets(held: seq<byte>, w: seq<byte>, k: nat)
    requires |held| < 48 && |held| % 3 == 0 && Delimited(w) && k <= 16
    ensures Run(UsbStep, held, Packets(w)[..k]) == UsbAfter(held, w, k)
  {
    if k == 0 {
      assert Packets(w)[..0] == [] && held + w[..0] == held;
    } else {
      hide *;
      UsbPackets(held, w, k - 1);
      UsbAfterStep(held, w, k - 1);
      var before, p := UsbAfter(held, w, k - 1), Packets(w)[k - 1];
      var last := UsbStep(before.0, p);
      assert Packets(w)[..k] == Packets(w)[..k - 1] + [p];
      RunStep(UsbStep, held, Packets(w)[..k - 1], p, before.0, before.1, last.0, last.1);
    }
  }

  function PacketLine(frames: seq<Superframe>): seq<Packet> {
    if frames == [] then [] else PacketLine(frames[..|frames| - 1]) + Packets(Wire(frames[|frames| - 1]))
  }

  function Wire(f: Superframe): (w: seq<byte>)
    ensures |w| == 48
  {
    WrapIsDelimited(f);
    Wrap(f)
  }

  /** The superframes process_sysex_frame accepts, among those handed to it. */
  function Accepted(handed: seq<seq<byte>>): seq<seq<byte>> {
    if handed == [] then []
    else
      var n := |handed| - 1;
      match Parse(handed[n])
      case None => Accepted(handed[..n])
      case Some(f) => Accepted(handed[..n]) + [f]
  }

  lemma AcceptedNext(handed: seq<seq<byte>>, w: seq<byte>)
    ensures Accepted(handed + [w]) == if Parse(w).None? then Accepted(handed) else Accepted(handed) + [Parse(w).value]
  {
    assert (handed + [w])[..|handed|] == handed;
  }

  /** One frame's packets: accepted when nothing was held, otherwise swallowed by the leftover; nothing
      is held afterwards. */
  lemma UsbOne(held: seq<byte>, f: Superframe, handed: seq<seq<byte>>)
    requires |held| < 48 && |held| % 3 == 0
    ensures var r := Run(UsbStep, held, Packets(Wire(f)));
      && r.0 == []
      && Accepted(handed + r.1) == Accepted(handed) + if held == [] then [f] else []
  {
    hide Run, Wrap;
    var w := Wire(f);
    WrapIsDelimited(f);
    UsbPackets(held, w, 16);
    assert Packets(w)[..16] == Packets(w);
    var whole := held + w[..48 - |held|];
    AcceptedNext(handed, whole);
    if held == [] {
      assert whole == w;
      ParseWrap(f);
    } else {
      assert whole[47] == w[47 - |held|];
      assert Accepted(handed) + [] == Accepted(handed);
    }
  }

  /** From any reachable receive state, of the frames sent exactly the first is lost, and only when a
      partial frame was held. */
  lemma {:induction false} UsbLosesAtMostOne(held: seq<byte>, frames: seq<Superframe>)
    requires |held| < 48 && |held| % 3 == 0
    ensures var r := Run(UsbStep, held, PacketLine(frames));
      && r.0 == (if frames == [] then held else [])
      && Accepted(r.1) == if held == [] || frames == [] then frames else frames[1..]
  {
    if frames != [] {
      hide *;
      var n := |frames| - 1;
      PacketLineNext(frames);
      UsbLosesAtMostOne(held, frames[..n]);
      var before := Run(UsbStep, held, PacketLine(frames[..n]));
      UsbOne(before.0, frames[n], before.1);
      var after := Run(UsbStep, before.0, Packets(Wire(frames[n])));
      RunBoth(UsbStep, held, PacketLine(frames[..n]), Packets(Wire(frames[n])), before.0, before.1, after.0, after.1);
      FramesTail(frames);
    }
  }

  lemma PacketLineNext(frames: seq<Superframe>)
    requires frames != []
    ensures var n := |frames| - 1;
      PacketLine(frames) == PacketLine(frames[..n]) + Packets(Wire(frames[n]))
  {
    hide Packets, Wire;
  }

  lemma FramesTail(frames: seq<Superframe>)
    requires frames != []
    ensures var n := |frames| - 1;
      && frames == frames[..n] + [frames[n]]
      && (n == 0 ==> frames[1..] == [])
      && (n > 0 ==> frames[1..] == frames[..n][1..] + [frames[n]])
      && frames[..n] + [] == frames[..n]
  {
  }
}
