/** A DfuSe device as a transition relation: states and requests of USB DFU 1.1 (sections 6.1.1 to 6.1.4,
    6.2.1 and Appendix A) and the block address rule of ST AN3156. */
module DfuDevice {
  import opened Wrappers

  type u8 = x: nat | x < 256

  const STATUS_OK: u8 := 0x00

  const IDLE: u8 := 0x02
  const DNLOAD_SYNC: u8 := 0x03
  const DNLOAD_BUSY: u8 := 0x04
  const DNLOAD_IDLE: u8 := 0x05
  const MANIFEST_SYNC: u8 := 0x06
  const MANIFEST: u8 := 0x07
  const MANIFEST_WAIT_RESET: u8 := 0x08
  const UPLOAD_IDLE: u8 := 0x09
  const ERROR: u8 := 0x0A

  const BLOCK_SIZE: nat := 2048

  datatype Request =
    | Dnload(block: nat, data: seq<u8>)
    | Upload(block: nat, length: nat)
    | GetStatus
    | ClrStatus
    | Abort

  datatype Reply = Failed | Done(data: seq<u8>)

  /** What an accepted download asks for. */
  datatype Op = MassErase | SetPointer(address: nat) | Write(offset: nat, data: seq<u8>) | Other

  /** Memory holds the addresses that differ from erased flash. */
  type Memory = map<int, u8>

  datatype Device = Device(state: u8, status: u8, pointer: nat, memory: Memory, op: Option<Op>)

  /** Block 0 carries a command; block b >= 2 is data for pointer + (b - 2) * 2048. */
  function Meaning(block: nat, data: seq<u8>): Op {
    if block >= 2 then Write((block - 2) * BLOCK_SIZE, data)
    else if block == 0 && data == [0x41] then MassErase
    else if block == 0 && |data| == 5 && data[0] == 0x21
    then SetPointer(data[1] as nat + 0x100 * data[2] as nat + 0x1_0000 * data[3] as nat + 0x100_0000 * data[4] as nat)
    else Other
  }

  /** `data` stored from `address` on in otherwise erased flash. */
  function Image(address: nat, data: seq<u8>): Memory {
    var n := |data|;
    if n == 0 then map[] else Image(address, data[..n - 1])[address + n - 1 := data[n - 1]]
  }

  function Apply(d: Device, op: Op): (Memory, nat) {
    match op
    case MassErase => (map[], d.pointer)
    case SetPointer(address) => (d.memory, address)
    case Write(offset, data) => (d.memory + Image(d.pointer + offset, data), d.pointer)
    case Other => (d.memory, d.pointer)
  }

  function ByteAt(m: Memory, address: nat): u8 {
    if address in m then m[address] else 0xFF
  }

  /** A download is pending exactly in dfuDNLOAD-SYNC and dfuDNBUSY. */
  predicate Consistent(d: Device) {
    d.op.Some? <==> d.state in {DNLOAD_SYNC, DNLOAD_BUSY}
  }

  predicate SameContents(d: Device, d': Device) {
    d'.memory == d.memory && d'.pointer == d.pointer
  }

  /** The device left with no download pending; a pending one is lost in an unknown condition. */
  predicate Settled(d: Device, d': Device, states: set<u8>) {
    d'.state in states && d'.op.None? && (d.op.None? ==> SameContents(d, d'))
  }

  /** One poll of a pending download: still busy, completed, or failed. */
  predicate Polled(d: Device, d': Device)
    requires d.op.Some?
  {
    || (d'.state in {DNLOAD_SYNC, DNLOAD_BUSY} && d'.op == d.op && SameContents(d, d'))
    || (d'.state == DNLOAD_IDLE && d'.op.None? && d'.status == STATUS_OK
        && (d.op.value.Other? || (d'.memory, d'.pointer) == Apply(d, d.op.value)))
    || (d'.state == ERROR && d'.op.None? && d'.status != STATUS_OK)
  }

  predicate StatusStep(d: Device, d': Device) {
    if d.op.Some? then Polled(d, d')
    else if d.state in {MANIFEST_SYNC, MANIFEST, MANIFEST_WAIT_RESET}
    then Settled(d, d', {IDLE, MANIFEST_SYNC, MANIFEST, MANIFEST_WAIT_RESET})
    else d' == d
  }

  /** A conforming reply and successor. A failed transfer may or may not have reached the device, or may
      have stalled it into dfuERROR. CLRSTATUS is assumed accepted in every state, to dfuIDLE or dfuERROR. */
  predicate Conforms(d: Device, r: Request, reply: Reply, d': Device) {
    match r
    case ClrStatus =>
      Settled(d, d', {IDLE, ERROR}) || (reply.Failed? && d' == d)
    case Abort =>
      Settled(d, d', {IDLE, ERROR}) || (reply.Failed? && d' == d)
    case GetStatus =>
      (reply.Failed? && d' == d) ||
      (StatusStep(d, d') &&
       (reply.Done? ==> |reply.data| == 6 && reply.data[0] == d'.status && reply.data[4] == d'.state))
    case Dnload(block, data) =>
      if d.state in {IDLE, DNLOAD_IDLE} && data != []
      then (d'.state == DNLOAD_SYNC && d'.op == Some(Meaning(block, data)) && SameContents(d, d'))
           || (reply.Failed? && (d' == d || Settled(d, d', {ERROR})))
      else reply.Failed? && Settled(d, d', {ERROR})
    case Upload(block, length) =>
      if reply.Failed? then d' == d || Settled(d, d', {IDLE, UPLOAD_IDLE, ERROR})
      else
        && d.state in {IDLE, UPLOAD_IDLE} && Settled(d, d', {IDLE, UPLOAD_IDLE})
        && |reply.data| <= length
        && (block >= 2 ==> forall i :: 0 <= i < |reply.data| ==>
              reply.data[i] == ByteAt(d.memory, d.pointer + (block - 2) * BLOCK_SIZE + i))
  }

  function Contents(m: Memory, from: nat, length: nat): (r: seq<u8>)
    ensures |r| == length
  {
    seq<u8>(length, i requires 0 <= i < length => ByteAt(m, from + i))
  }

  /** A device that never fails. A status request while a download is pending answers `phase`, and completes the
      download when that is dfuDNLOAD-IDLE; `poll` is the wait it asks for, in milliseconds. */
  function Serve(d: Device, r: Request, phase: u8, poll: nat): (Reply, Device)
    requires poll < 0x100_0000
  {
    match r
    case ClrStatus => (Done([]), Device(IDLE, STATUS_OK, d.pointer, d.memory, None))
    case Abort => (Done([]), Device(IDLE, STATUS_OK, d.pointer, d.memory, None))
    case GetStatus =>
      var d' := if d.op.None? then d
                else if phase == DNLOAD_IDLE
                then Device(DNLOAD_IDLE, STATUS_OK, Apply(d, d.op.value).1, Apply(d, d.op.value).0, None)
                else Device(phase, STATUS_OK, d.pointer, d.memory, d.op);
      (Done([d'.status, poll % 0x100, poll / 0x100 % 0x100, poll / 0x1_0000, d'.state, 0]), d')
    case Dnload(block, data) =>
      if d.state in {IDLE, DNLOAD_IDLE} && data != []
      then (Done([]), d.(state := DNLOAD_SYNC, op := Some(Meaning(block, data))))
      else (Failed, d.(state := ERROR, op := None))
    case Upload(block, length) =>
      if d.state in {IDLE, UPLOAD_IDLE} && block >= 2
      then (Done(Contents(d.memory, d.pointer + (block - 2) * BLOCK_SIZE, length)), d.(state := UPLOAD_IDLE, op := None))
      else (Failed, d.(state := ERROR, op := None))
  }

  lemma ServeConforms(d: Device, r: Request, phase: u8, poll: nat)
    requires phase in {DNLOAD_SYNC, DNLOAD_BUSY, DNLOAD_IDLE} && poll < 0x100_0000
    ensures Conforms(d, r, Serve(d, r, phase, poll).0, Serve(d, r, phase, poll).1)
  {
    if r.GetStatus? && d.op.Some? && d.op.value.Other? { assert Apply(d, d.op.value) == (d.memory, d.pointer); }
  }

  lemma ConformingStaysConsistent(d: Device, r: Request, reply: Reply, d': Device)
    requires Consistent(d) && Conforms(d, r, reply, d')
    ensures Consistent(d')
  {
  }

  /** What is programmed reads back. */
  lemma ContentsOfImage(m: Memory, address: nat, data: seq<u8>)
    ensures Contents(m + Image(address, data), address, |data|) == data
  {
    hide Image;
    forall i: nat | i < |data|
      ensures ByteAt(m + Image(address, data), address + i) == data[i]
    {
      ImageAt(address, data, address + i);
    }
  }

  lemma {:induction false} ImageAt(address: nat, data: seq<u8>, a: int)
    ensures a in Image(address, data) <==> address <= a < address + |data|
    ensures a in Image(address, data) ==> Image(address, data)[a] == data[a - address]
  {
    if data != [] { ImageAt(address, data[..|data| - 1], a); }
  }

  /** Writing the next stretch extends the image. */
  lemma ImageExtends(address: nat, done: seq<u8>, more: seq<u8>)
    ensures Image(address, done) + Image(address + |done|, more) == Image(address, done + more)
  {
    hide Image;
    var left := Image(address, done) + Image(address + |done|, more);
    var right := Image(address, done + more);
    forall a: int
      ensures a in left <==> a in right
      ensures a in left ==> left[a] == right[a]
    {
      ImageAt(address, done, a);
      ImageAt(address + |done|, more, a);
      ImageAt(address, done + more, a);
    }
  }

  /** A download with block number 2 or above programs its data that many blocks of 2048 bytes behind the pointer, and
      nothing else does. */
  lemma DataBlocks(d: Device, block: nat, data: seq<u8>, k: nat)
    requires k < |data|
    ensures Meaning(block, data).Write? <==> block >= 2
    ensures block >= 2 ==>
      var m := Apply(d, Meaning(block, data)).0;
      ByteAt(m, d.pointer + (block - 2) * 2048 + k) == data[k]
  {
    if block >= 2 {
      ImageAt(d.pointer + (block - 2) * BLOCK_SIZE, data, d.pointer + (block - 2) * BLOCK_SIZE + k);
    }
  }

  /** A set-pointer payload carries any 32-bit address, lowest byte first. */
  lemma PointerBytes(address: nat)
    requires address < 0x1_0000_0000
    ensures Meaning(0, [0x21, address % 0x100, address / 0x100 % 0x100, address / 0x1_0000 % 0x100,
                        address / 0x100_0000 % 0x100]) == SetPointer(address)
  {
    assert address / 0x1_0000 == address / 0x100 / 0x100 && address / 0x100_0000 == address / 0x1_0000 / 0x100;
  }

  /** The block number the host sends for block i of the image, a 16-bit counter from 2. */
  function BlockNumber(i: nat): nat {
    (2 + i) % 0x1_0000
  }

  /** The counter addresses block i correctly exactly below 65534: after that it wraps into the command
      blocks and starts over. */
  lemma BlockNumberIff(i: nat, data: seq<u8>)
    ensures Meaning(BlockNumber(i), data) == Write(i * BLOCK_SIZE, data) <==> i < 65534
  {
    if i >= 65534 && BlockNumber(i) >= 2 {
      assert BlockNumber(i) - 2 < i;
    }
  }

  /** Block 65534 of a longer image is taken as a command; one holding a single 0x41 erases the flash. */
  lemma WrappedBlockErases()
    ensures Meaning(BlockNumber(65534), [0x41]) == MassErase
  {
  }
}
