/** WebSocket frames (RFC 6455, sections 5.2 and 5.3) as the ESP8266 board reads and sends them. */
module WebSocket {
  import opened Bytes
  import opened Wrappers
  import opened Octets

  const CAP := 128

  /**
   * A frame with a 7-bit length, or with a 16-bit one when `wide`. `top` is the first header byte:
   * FIN, the reserved bits and the opcode.
   */
  datatype Frame = Frame(top: byte, mask: Option<seq<byte>>, wide: bool, payload: seq<byte>)

  predicate WellFormed(f: Frame) {
    (f.mask.Some? ==> |f.mask.value| == 4) && |f.payload| <= if f.wide then 0xFFFF else 125
  }

  function Opcode(top: byte): byte {
    top & 0x0F
  }

  /** The opcode is the low nibble, whatever FIN and the reserved bits are: 0x88 closes, 0x82 is binary. */
  lemma OpcodeIs(flags: byte, opcode: byte)
    requires flags & 0x0F == 0 && opcode < 16
    ensures Opcode(flags | opcode) == opcode
    ensures Opcode(0x88) == 0x8 && Opcode(0x82) == 0x2
  {
  }

  /** The masking transformation: each payload byte with the mask byte of its index modulo 4. */
  function Masked(payload: seq<byte>, mask: seq<byte>): (r: seq<byte>)
    requires |mask| == 4
    ensures |r| == |payload|
    ensures forall i :: 0 <= i < |r| ==> r[i] == payload[i] ^ mask[i % 4]
  {
    seq(|payload|, i requires 0 <= i < |payload| => payload[i] ^ mask[i % 4])
  }

  lemma XorTwice(a: byte, b: byte)
    ensures (a ^ b) ^ b == a
  {
  }

  /** Unmasking is masking again. */
  lemma MaskedTwice(payload: seq<byte>, mask: seq<byte>)
    requires |mask| == 4
    ensures Masked(Masked(payload, mask), mask) == payload
  {
    forall i | 0 <= i < |payload|
      ensures Masked(Masked(payload, mask), mask)[i] == payload[i]
    {
      XorTwice(payload[i], mask[i % 4]);
    }
  }

  // ----- Encoding -----

  function MaskBit(masked: bool): nat {
    if masked then 0x80 else 0
  }

  /** The fixed part of a frame: whether it is masked, and its payload's length. */
  datatype Start = Start(top: byte, masked: bool, wide: bool, length: nat)

  predicate Known(h: Start) {
    h.length <= if h.wide then 0xFFFF else 125
  }

  function StartBytes(h: Start): (r: seq<byte>)
    requires Known(h)
    ensures |r| == if h.wide then 4 else 2
  {
    if h.wide then [h.top, Narrow(MaskBit(h.masked) + 126), Narrow(h.length / 0x100), Narrow(h.length % 0x100)]
    else [h.top, Narrow(MaskBit(h.masked) + h.length)]
  }

  function StartOf(f: Frame): Start {
    Start(f.top, f.mask.Some?, f.wide, |f.payload|)
  }

  /** What follows the fixed part: the mask, if any, and the payload as it travels. */
  function Body(f: Frame): (r: seq<byte>)
    requires WellFormed(f)
    ensures |r| == BodySize(StartOf(f))
  {
    if f.mask.Some? then f.mask.value + Masked(f.payload, f.mask.value) else f.payload
  }

  function BodySize(h: Start): nat {
    h.length + if h.masked then 4 else 0
  }

  function EncodeFrame(f: Frame): (s: seq<byte>)
    requires WellFormed(f)
    ensures |s| == StartSize(StartOf(f)) + BodySize(StartOf(f))
  {
    StartBytes(StartOf(f)) + Body(f)
  }

  function StartSize(h: Start): nat {
    if h.wide then 4 else 2
  }

  /** The wire, byte for byte: length below 126 or 126 and two bytes, high byte first; 0x80 more when masked. */
  lemma WireLayout(f: Frame)
    requires WellFormed(f)
    ensures var n, bit := |f.payload|, if f.mask.Some? then 0x80 else 0;
      EncodeFrame(f) ==
        (if f.wide then [f.top, Narrow(bit + 126), Narrow(n / 256), Narrow(n % 256)] else [f.top, Narrow(bit + n)])
        + (if f.mask.Some? then f.mask.value + Masked(f.payload, f.mask.value) else f.payload)
  {
    hide Narrow, Masked;
  }

  // ----- Reading -----

  /** The frame a fixed part and a body make. */
  function Assemble(h: Start, body: seq<byte>): (f: Frame)
    requires |body| == BodySize(h)
    ensures StartOf(f) == h
  {
    if h.masked then Frame(h.top, Some(body[..4]), h.wide, Masked(body[4..], body[..4]))
    else Frame(h.top, None, h.wide, body)
  }

  lemma AssembleBody(f: Frame)
    requires WellFormed(f)
    ensures Assemble(StartOf(f), Body(f)) == f
  {
    if f.mask.Some? {
      MaskedTwice(f.payload, f.mask.value);
    }
  }

  lemma BodyAssemble(h: Start, body: seq<byte>)
    requires Known(h) && |body| == BodySize(h)
    ensures WellFormed(Assemble(h, body)) && Body(Assemble(h, body)) == body
  {
    hide Masked;
    if h.masked {
      MaskedTwice(body[4..], body[..4]);
    }
  }

  /** The fixed part, given its first two bytes; None also when more bytes are needed. */
  function StartAfter(header: seq<byte>, rest: seq<byte>): Option<Start>
    requires |header| == 2
  {
    var masked := header[1] & 0x80 != 0;
    var n := Value(header[1] & 0x7F);
    if n == 127 then None
    else if n < 126 then Some(Start(header[0], masked, false, n))
    else if |rest| < 2 then None
    else Some(Start(header[0], masked, true, 0x100 * Value(rest[0]) + Value(rest[1])))
  }

  /** The header of a frame with a length the reader knows. */
  function ReadStart(s: seq<byte>): Option<Start> {
    if |s| < 2 then None else StartAfter(s[..2], s[2..])
  }

  /** websocket_read_frame on a byte stream: the frame and how many bytes it takes. */
  function ParseFrame(s: seq<byte>, cap: nat): Option<(Frame, nat)> {
    match ReadStart(s)
    case None => None
    case Some(h) =>
      var at, size := StartSize(h), StartSize(h) + BodySize(h);
      if h.length > cap || |s| < size then None
      else Some((Assemble(h, s[at..size]), size))
  }

  /** The second header byte gives back the mask bit and the 7-bit length. */
  lemma SecondByte(masked: bool, n: nat)
    requires n < 0x80
    ensures var b := Narrow(MaskBit(masked) + n);
      (b & 0x80 != 0 <==> masked) && Value(b & 0x7F) == n
  {
    hide Narrow, Value;
    ValueOfNarrow(MaskBit(masked) + n);
    LowSeven(Narrow(MaskBit(masked) + n));
  }

  lemma StartOfEncode(f: Frame, rest: seq<byte>)
    requires WellFormed(f)
    ensures ReadStart(EncodeFrame(f) + rest) == Some(StartOf(f))
  {
    hide StartBytes, Body, ReadStart;
    ReadStartBytes(StartOf(f), Body(f) + rest);
    assert EncodeFrame(f) + rest == StartBytes(StartOf(f)) + (Body(f) + rest);
  }

  lemma ReadStartBytes(h: Start, rest: seq<byte>)
    requires Known(h)
    ensures ReadStart(StartBytes(h) + rest) == Some(h)
  {
    hide Narrow, Value;
    var s := StartBytes(h) + rest;
    if h.wide {
      SecondByte(h.masked, 126);
      ValueOfNarrow(h.length / 0x100);
      ValueOfNarrow(h.length % 0x100);
    } else {
      SecondByte(h.masked, h.length);
    }
  }

  /** Any frame that fits the buffer is read back whole, and nothing after it is touched. */
  lemma ParseEncode(f: Frame, rest: seq<byte>, cap: nat)
    requires WellFormed(f) && |f.payload| <= cap
    ensures ParseFrame(EncodeFrame(f) + rest, cap) == Some((f, |EncodeFrame(f)|))
  {
    StartOfEncode(f, rest);
    AssembleBody(f);
    hide ReadStart, Assemble, Body, StartBytes;
    assert (EncodeFrame(f) + rest)[StartSize(StartOf(f))..|EncodeFrame(f)|] == Body(f);
  }

  /** And a payload larger than the buffer is refused. */
  lemma ParseRefuses(f: Frame, rest: seq<byte>, cap: nat)
    requires WellFormed(f) && |f.payload| > cap
    ensures ParseFrame(EncodeFrame(f) + rest, cap) == None
  {
    StartOfEncode(f, rest);
  }

  lemma StartBytesBack(s: seq<byte>)
    requires ReadStart(s).Some?
    ensures Known(ReadStart(s).value) && |s| >= StartSize(ReadStart(s).value)
    ensures StartBytes(ReadStart(s).value) == s[..StartSize(ReadStart(s).value)]
  {
    hide StartAfter, StartBytes;
    StartAfterBack(s[..2], s[2..]);
    var n := StartSize(ReadStart(s).value);
    assert s[..n] == s[..2] + s[2..][..n - 2];
  }

  lemma StartAfterBack(header: seq<byte>, rest: seq<byte>)
    requires |header| == 2 && StartAfter(header, rest).Some?
    ensures var h := StartAfter(header, rest).value;
      Known(h) && |rest| >= StartSize(h) - 2 && StartBytes(h) == header + rest[..StartSize(h) - 2]
  {
    hide Narrow, Value, StartBytes;
    var h := StartAfter(header, rest).value;
    SecondByteBack(header[1]);
    if h.wide {
      NarrowOfValue(rest[0]);
      NarrowOfValue(rest[1]);
      WideStart(h, header, rest, Value(rest[0]), Value(rest[1]));
    } else {
      NarrowStart(h, header);
      assert header + rest[..0] == header;
    }
  }

  lemma WideStart(h: Start, header: seq<byte>, rest: seq<byte>, high: nat, low: nat)
    requires h.wide && |header| == 2 && |rest| >= 2
    requires high < 0x100 && low < 0x100 && h.length == 0x100 * high + low
    requires header[0] == h.top && header[1] == Narrow(MaskBit(h.masked) + 126)
    requires rest[0] == Narrow(high) && rest[1] == Narrow(low)
    ensures Known(h) && StartBytes(h) == header + rest[..2]
  {
    hide Narrow;
    assert h.length / 0x100 == high && h.length % 0x100 == low;
  }

  lemma NarrowStart(h: Start, header: seq<byte>)
    requires !h.wide && |header| == 2 && h.length < 126
    requires header[0] == h.top && header[1] == Narrow(MaskBit(h.masked) + h.length)
    ensures Known(h) && StartBytes(h) == header
  {
    hide Narrow;
  }

  lemma SecondByteBack(b: byte)
    ensures Value(b & 0x7F) < 0x80
    ensures Narrow(MaskBit(b & 0x80 != 0) + Value(b & 0x7F)) == b
  {
    hide Narrow, Value;
    LowSeven(b);
    NarrowOfValue(b);
  }

  /** Whatever is read is the encoding of a well-formed frame, byte for byte. */
  lemma EncodeParse(s: seq<byte>, cap: nat)
    requires ParseFrame(s, cap).Some?
    ensures var (f, n) := ParseFrame(s, cap).value;
      n <= |s| && WellFormed(f) && |f.payload| <= cap && EncodeFrame(f) == s[..n]
  {
    hide ReadStart, StartBytes, Assemble, EncodeFrame, WellFormed, Known;
    StartBytesBack(s);
    EncodeAssembled(ReadStart(s).value, s);
    AssembledLength(ReadStart(s).value, s);
  }

  lemma EncodeAssembled(h: Start, s: seq<byte>)
    requires Known(h) && |s| >= StartSize(h) + BodySize(h) && StartBytes(h) == s[..StartSize(h)]
    ensures var f := Assemble(h, s[StartSize(h)..StartSize(h) + BodySize(h)]);
      WellFormed(f) && EncodeFrame(f) == s[..StartSize(h) + BodySize(h)]
  {
    hide StartBytes, Assemble, Body;
    var at, size := StartSize(h), StartSize(h) + BodySize(h);
    BodyAssemble(h, s[at..size]);
    assert s[..size] == s[..at] + s[at..size];
  }

  lemma AssembledLength(h: Start, s: seq<byte>)
    requires |s| >= StartSize(h) + BodySize(h)
    ensures |Assemble(h, s[StartSize(h)..StartSize(h) + BodySize(h)]).payload| == h.length
  {
  }

  // ----- The socket -----

  /** A buffer with `piece` written at `at`. */
  function Patched(old_: seq<byte>, at: nat, piece: seq<byte>): (r: seq<byte>)
    requires at + |piece| <= |old_|
    ensures |r| == |old_|
  {
    old_[..at] + piece + old_[at + |piece|..]
  }

  /** A connected socket: the bytes the peer has still to deliver, and how many each recv finds at most. */
  class Socket {
    var stream: seq<byte>
    var sent: seq<byte>
    var calls: nat
    const deliver: nat -> nat

    constructor (stream: seq<byte>, deliver: nat -> nat)
      ensures this.stream == stream && this.deliver == deliver && sent == []
    {
      this.stream, this.deliver := stream, deliver;
      sent, calls := [], 0;
    }

    /** No recv gives up: every one finds something while the peer still has bytes. */
    ghost predicate Steady() {
      forall n :: deliver(n) > 0
    }

    /** recv: 0 stands for a close, an error or a timeout. */
    method Recv(buf: array<byte>, at: nat, max: nat) returns (r: nat)
      requires at + max <= buf.Length
      modifies this`stream, this`calls, buf
      ensures r == Min(max, Min(|old(stream)|, deliver(old(calls))))
      ensures stream == old(stream)[r..]
      ensures buf[..] == Patched(old(buf[..]), at, old(stream)[..r])
    {
      r := Min(max, Min(|stream|, deliver(calls)));
      calls := calls + 1;
      for i := 0 to r
        modifies buf
        invariant forall k :: 0 <= k < buf.Length ==>
          buf[k] == if at <= k < at + i then stream[k - at] else old(buf[k])
      {
        buf[at + i] := stream[i];
      }
      stream := stream[r..];
    }

    /** websocket_read_exact. */
    method ReadExact(buf: array<byte>, len: nat) returns (ok: bool)
      requires len <= buf.Length
      modifies this`stream, this`calls, buf
      ensures ok ==> len <= |old(stream)| && stream == old(stream)[len..]
      ensures ok ==> buf[..] == Patched(old(buf[..]), 0, old(stream)[..len])
      ensures Steady() ==> (ok <==> len <= |old(stream)|)
    {
      hide Patched;
      var got := 0;
      ghost var all := stream;
      PatchedNothing(buf[..]);
      assert all[..0] == [];
      while got < len
        invariant got <= len && got <= |all| && stream == all[got..]
        invariant buf[..] == Patched(old(buf[..]), 0, all[..got])
      {
        ghost var before := buf[..];
        var r := Recv(buf, got, len - got);
        if r == 0 {
          return false;
        }
        PatchedTwice(old(buf[..]), all, got, r);
        got := got + r;
      }
      return true;
    }

    /** send: `room` bytes of the data leave; the count that did is returned. */
    method Send(data: seq<byte>, room: nat) returns (n: nat)
      modifies this`sent
      ensures n == Min(|data|, room) && sent == old(sent) + data[..n]
    {
      n := Min(|data|, room);
      sent := sent + data[..n];
    }

    /** websocket_send_binary. */
    method SendBinary(payload: seq<byte>, headerRoom: nat, payloadRoom: nat) returns (ok: bool)
      modifies this`sent
      ensures ok <==> |payload| <= 125 && headerRoom >= 2 && payloadRoom >= |payload|
      ensures ok ==> sent == old(sent) + EncodeFrame(Binary(payload))
      ensures |payload| > 125 ==> sent == old(sent)
    {
      hide Narrow;
      if |payload| > 125 {
        return false;
      }
      var header := [0x82, Narrow(|payload|)];
      var n := Send(header, headerRoom);
      if n != |header| {
        return false;
      }
      n := Send(payload, payloadRoom);
      ok := n == |payload|;
      assert EncodeFrame(Binary(payload)) == header + payload;
    }

    /** Exactly n bytes, as a sequence. */
    method ReadBytes(n: nat) returns (r: Option<seq<byte>>)
      modifies this`stream, this`calls
      ensures r.Some? ==> n <= |old(stream)| && r.value == old(stream)[..n] && stream == old(stream)[n..]
      ensures Steady() ==> (r.Some? <==> n <= |old(stream)|)
    {
      var buf := new byte[n];
      var ok := ReadExact(buf, n);
      if !ok {
        return None;
      }
      PatchedPrefix(old(stream)[..n], old(stream)[..n]);
      return Some(buf[..]);
    }

    /** The extended length of websocket_read_frame, if there is one. */
    method ReadLength(header: seq<byte>) returns (h: Option<Start>)
      requires |header| == 2
      modifies this`stream, this`calls
      ensures h.Some? ==> StartAfter(header, old(stream)) == h
      ensures h.Some? ==> StartSize(h.value) - 2 <= |old(stream)|
      ensures h.Some? ==> stream == old(stream)[StartSize(h.value) - 2..]
      ensures Steady() && h.None? ==> StartAfter(header, old(stream)).None?
    {
      hide Value, StartAfter;
      StartCases(header, stream);
      var masked := header[1] & 0x80 != 0;
      var length := Value(header[1] & 0x7F);
      if length == 126 {
        var ext := ReadBytes(2);
        if ext.None? {
          return None;
        }
        length := 0x100 * Value(ext.value[0]) + Value(ext.value[1]);
        return Some(Start(header[0], masked, true, length));
      } else if length == 127 {
        return None;
      }
      return Some(Start(header[0], masked, false, length));
    }

    /** The first half of websocket_read_frame: header, extended length and the size limit. */
    method ReadStartOfFrame(cap: nat) returns (h: Option<Start>)
      modifies this`stream, this`calls
      ensures h.Some? ==> ReadStart(old(stream)) == h && h.value.length <= cap
      ensures h.Some? ==> StartSize(h.value) <= |old(stream)| && stream == old(stream)[StartSize(h.value)..]
      ensures Steady() && h.None? ==>
        ReadStart(old(stream)).None? || ReadStart(old(stream)).value.length > cap
    {
      hide StartAfter;
      var header := ReadBytes(2);
      if header.None? {
        return None;
      }
      h := ReadLength(header.value);
      if h.Some? && h.value.length > cap {
        return None;
      }
    }

    /** websocket_read_frame: one whole frame, into the caller's buffer, whatever pieces it arrives in. */
    method ReadFrame(payload: array<byte>) returns (ok: bool, length: nat, opcode: byte)
      modifies this`stream, this`calls, payload
      ensures ok ==> ParseFrame(old(stream), payload.Length).Some?
      ensures ok ==>
        var (f, n) := ParseFrame(old(stream), payload.Length).value;
        length == |f.payload| <= payload.Length && payload[..length] == f.payload
        && opcode == Opcode(f.top) && n <= |old(stream)| && stream == old(stream)[n..]
      ensures Steady() ==> (ok <==> ParseFrame(old(stream), payload.Length).Some?)
    {
      hide ReadStart, Patched, Assemble;
      ghost var s, was := stream, payload[..];
      var h := ReadStartOfFrame(payload.Length);
      if h.None? {
        return false, 0, 0;
      }
      opcode, length := Opcode(h.value.top), h.value.length;
      var mask: seq<byte> := [];
      if h.value.masked {
        var m := ReadBytes(4);
        if m.None? {
          return false, 0, opcode;
        }
        mask := m.value;
      }
      ghost var left := stream;
      ok := ReadExact(payload, length);
      if !ok {
        return false, 0, opcode;
      }
      PatchedPrefix(was, left[..length]);
      if h.value.masked {
        AssembleMasked(h.value, s, mask, payload[..length]);
        Unmask(payload, length, mask);
      } else {
        AssemblePlain(h.value, s, payload[..length]);
      }
    }
  }

  /** StartAfter by the 7-bit length, the extended one read from the first two bytes of the rest. */
  lemma StartCases(header: seq<byte>, rest: seq<byte>)
    requires |header| == 2
    ensures var n, masked := Value(header[1] & 0x7F), header[1] & 0x80 != 0;
      n < 0x80 && StartAfter(header, rest) ==
        if n == 127 then None
        else if n < 126 then Some(Start(header[0], masked, false, n))
        else if |rest| < 2 then None
        else Some(Start(header[0], masked, true, 0x100 * Value(rest[..2][0]) + Value(rest[..2][1])))
  {
    hide Value;
    SecondByteBack(header[1]);
  }

  lemma AssembleMasked(h: Start, s: seq<byte>, mask: seq<byte>, wire: seq<byte>)
    requires h.masked && |s| >= StartSize(h) + BodySize(h)
    requires mask == s[StartSize(h)..][..4] && wire == s[StartSize(h)..][4..][..h.length]
    ensures Assemble(h, s[StartSize(h)..StartSize(h) + BodySize(h)])
      == Frame(h.top, Some(mask), h.wide, Masked(wire, mask))
  {
    var body := s[StartSize(h)..StartSize(h) + BodySize(h)];
    assert body[..4] == mask && body[4..] == wire;
  }

  lemma AssemblePlain(h: Start, s: seq<byte>, wire: seq<byte>)
    requires !h.masked && |s| >= StartSize(h) + BodySize(h) && wire == s[StartSize(h)..][..h.length]
    ensures Assemble(h, s[StartSize(h)..StartSize(h) + BodySize(h)]) == Frame(h.top, None, h.wide, wire)
  {
    assert s[StartSize(h)..StartSize(h) + BodySize(h)] == wire;
  }

  /** What websocket_send_binary puts on the wire. */
  function Binary(payload: seq<byte>): (f: Frame)
    requires |payload| <= 125
    ensures WellFormed(f)
  {
    Frame(0x82, None, false, payload)
  }

  /** The reader gets back what the sender sent, as one whole binary frame. */
  lemma ReadsWhatIsSent(payload: seq<byte>, rest: seq<byte>)
    requires |payload| <= 125
    ensures ParseFrame(EncodeFrame(Binary(payload)) + rest, CAP) == Some((Binary(payload), 2 + |payload|))
    ensures Opcode(Binary(payload).top) == 0x2
  {
    ParseEncode(Binary(payload), rest, CAP);
  }

  function EncodeAll(frames: seq<Frame>): seq<byte>
    requires forall i :: 0 <= i < |frames| ==> WellFormed(frames[i])
  {
    if frames == [] then [] else EncodeFrame(frames[0]) + EncodeAll(frames[1..])
  }

  /** A stream of frames that fit is read frame by frame, however recv cuts it. */
  method ReadFrames(socket: Socket, frames: seq<Frame>, ghost rest: seq<byte>, buf: array<byte>)
    returns (payloads: seq<seq<byte>>, opcodes: seq<byte>)
    requires forall i :: 0 <= i < |frames| ==> WellFormed(frames[i]) && |frames[i].payload| <= buf.Length
    requires socket.stream == EncodeAll(frames) + rest && socket.Steady()
    modifies socket`stream, socket`calls, buf
    ensures |payloads| == |opcodes| == |frames|
    ensures forall i :: 0 <= i < |frames| ==> payloads[i] == frames[i].payload && opcodes[i] == Opcode(frames[i].top)
    ensures socket.stream == rest
  {
    hide EncodeFrame, ParseFrame, WellFormed, Opcode;
    payloads, opcodes := [], [];
    assert frames[0..] == frames;
    for i := 0 to |frames|
      invariant |payloads| == |opcodes| == i
      invariant forall k :: 0 <= k < i ==> payloads[k] == frames[k].payload && opcodes[k] == Opcode(frames[k].top)
      invariant socket.stream == EncodeAll(frames[i..]) + rest
    {
      ghost var later := EncodeAll(frames[i + 1..]) + rest;
      assert frames[i..][1..] == frames[i + 1..];
      assert socket.stream == EncodeFrame(frames[i]) + later;
      ParseEncode(frames[i], later, buf.Length);
      var ok, length, opcode := socket.ReadFrame(buf);
      assert (EncodeFrame(frames[i]) + later)[|EncodeFrame(frames[i])|..] == later;
      payloads, opcodes := payloads + [buf[..length]], opcodes + [opcode];
    }
    assert frames[|frames|..] == [];
    assert EncodeAll([]) + rest == rest;
  }

  /** The unmasking loop, in place. */
  method Unmask(payload: array<byte>, length: nat, mask: seq<byte>)
    requires length <= payload.Length && |mask| == 4
    modifies payload
    ensures payload[..length] == Masked(old(payload[..length]), mask)
    ensures payload[length..] == old(payload[length..])
  {
    for i := 0 to length
      invariant forall k :: 0 <= k < payload.Length ==>
        payload[k] == if k < i then old(payload[k]) ^ mask[k % 4] else old(payload[k])
    {
      payload[i] := payload[i] ^ mask[i % 4];
    }
  }

  lemma PatchedNothing(was: seq<byte>)
    ensures Patched(was, 0, []) == was
  {
  }

  lemma PatchedTwice(was: seq<byte>, all: seq<byte>, got: nat, r: nat)
    requires got + r <= |all| && got + r <= |was|
    ensures Patched(Patched(was, 0, all[..got]), got, all[got..][..r]) == Patched(was, 0, all[..got + r])
  {
  }

  lemma PatchedPrefix(was: seq<byte>, piece: seq<byte>)
    requires |piece| <= |was|
    ensures Patched(was, 0, piece)[..|piece|] == piece
  {
  }
}
