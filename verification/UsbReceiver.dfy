/** The USB-MIDI receive loop over its 48-byte frame buffer. */
module UsbReceiver {
  import opened Bytes
  import opened Machine
  import opened Sysex

  class Receiver {
    const sysex: array<byte>
    var sysexLen: nat

    ghost predicate Valid()
      reads this
    {
      sysex.Length == 48 && sysexLen < 48 && sysexLen % 3 == 0
    }

    ghost function Held(): seq<byte>
      requires Valid()
      reads this, sysex
    {
      sysex[..sysexLen]
    }

    constructor ()
      ensures Valid() && Held() == [] && fresh(sysex)
    {
      sysex := new byte[48](_ => 0);
      sysexLen := 0;
    }

    /** The body of the packet loop; `frames` is what it passes to process_sysex_frame. */
    method ReadPacket(p: Packet) returns (frames: seq<seq<byte>>)
      requires Valid()
      modifies this, sysex
      ensures Valid()
      ensures (Held(), frames) == UsbStep(old(Held()), p)
    {
      frames := [];
      if sysexLen == 0 && p.b1 != START {
        return;
      }
      if sysexLen + 3 > 48 {
        assert false;  // the length is a multiple of three below 48
      }
      ghost var held := Held();
      sysex[sysexLen] := p.b1;
      sysex[sysexLen + 1] := p.b2;
      sysex[sysexLen + 2] := p.b3;
      sysexLen := sysexLen + 3;
      assert sysex[..sysexLen] == held + [p.b1, p.b2, p.b3];
      if sysexLen == 48 {
        frames := [sysex[..]];
        assert sysex[..] == sysex[..sysexLen];
        sysexLen := 0;
      }
    }

    /** Everything tud_midi_available yields. */
    method Drain(packets: seq<Packet>) returns (frames: seq<seq<byte>>)
      requires Valid()
      modifies this, sysex
      ensures Valid()
      ensures (Held(), frames) == Run(UsbStep, old(Held()), packets)
    {
      frames := [];
      assert packets[..0] == [];
      for k := 0 to |packets|
        invariant Valid()
        invariant (Held(), frames) == Run(UsbStep, old(Held()), packets[..k])
      {
        hide Run, UsbStep;
        ghost var held := Held();
        var more := ReadPacket(packets[k]);
        assert packets[..k + 1] == packets[..k] + [packets[k]];
        RunStep(UsbStep, old(Held()), packets[..k], packets[k], held, frames, Held(), more);
        frames := frames + more;
      }
      assert packets[..|packets|] == packets;
    }

    /** Frames sent as packets are all accepted, except the first when a partial frame was held. */
    method ReceiveFrames(frames: seq<Superframe>) returns (handed: seq<seq<byte>>)
      requires Valid()
      modifies this, sysex
      ensures Valid()
      ensures Accepted(handed) == if old(Held()) == [] || frames == [] then frames else frames[1..]
    {
      hide Run, Accepted, PacketLine, UsbStep;
      UsbLosesAtMostOne(Held(), frames);
      handed := Drain(PacketLine(frames));
    }
  }
}
