/** The host half of the firmware download, run against a device whose every reply and successor state
    come from an arbitrary behaviour; results hold for any behaviour, or for any conforming one. */
module Dfu {
  import opened DfuDevice
  import opened Wrappers

  const SECOND: nat := 1_000_000_000
  const MILLISECOND: nat := 1_000_000

  datatype Error = TransferFailed(request: nat) | ShortStatus | TimedOut | DeviceError | UnexpectedState
                 | ShortRead | Mismatch
  datatype Result<T> = Ok(value: T) | Err(error: Error)

  const DFU_DNLOAD: nat := 0x01
  const DFU_UPLOAD: nat := 0x02
  const DFU_GETSTATUS: nat := 0x03
  const DFU_CLRSTATUS: nat := 0x04

  /** How the device answers its n-th request: any function at all. */
  type Behaviour = (nat, Device, Request) -> (Reply, Device)

  ghost predicate Conforming(behaviour: Behaviour) {
    forall n: nat, d: Device, r: Request :: Conforms(d, r, behaviour(n, d, r).0, behaviour(n, d, r).1)
  }

  /** How a device serves: what it answers to a status request, and the bounds it keeps. */
  datatype Service = Service(phase: nat -> u8, poll: nat -> nat, patience: nat, slow: nat)

  function SleepTime(ms: nat): (time: nat) {
    (if ms < 10 then 10 else ms) * MILLISECOND
  }

  ghost predicate Completes(s: Service, n: nat) {
    exists k: nat :: n <= k < n + s.patience && s.phase(k) == DNLOAD_IDLE
  }

  ghost predicate Prompt(s: Service, delay: nat -> nat, n: nat) {
    s.phase(n) in {DNLOAD_SYNC, DNLOAD_BUSY, DNLOAD_IDLE} && s.poll(n) < 0x100_0000
    && 1 + delay(n) <= 5 * SECOND && 1 + delay(n) + SleepTime(s.poll(n)) <= s.slow
  }

  /** From request number `from` on the device never fails: a download completes within `patience` status requests,
      no transfer takes longer than 5 s, or with the wait after it than `slow`, and all those together fit `limit`. */
  ghost predicate ServesAs(behaviour: Behaviour, delay: nat -> nat, from: nat, limit: nat, s: Service) {
    s.patience * s.slow <= limit
    && (forall n: nat :: from <= n ==> Prompt(s, delay, n) && Completes(s, n))
    && forall n: nat, d: Device, r: Request :: from <= n && Prompt(s, delay, n) ==>
      behaviour(n, d, r) == Serve(d, r, s.phase(n), s.poll(n))
  }

  ghost predicate Serving(behaviour: Behaviour, delay: nat -> nat, from: nat, limit: nat) {
    exists s: Service :: ServesAs(behaviour, delay, from, limit, s)
  }

  lemma ServingLater(behaviour: Behaviour, delay: nat -> nat, from: nat, limit: nat, later: nat, longer: nat)
    requires from <= later && limit <= longer
    ensures Serving(behaviour, delay, from, limit) ==> Serving(behaviour, delay, later, longer)
  {
    if s: Service :| ServesAs(behaviour, delay, from, limit, s) {
      assert ServesAs(behaviour, delay, later, longer, s);
    }
  }

  lemma ServedAt(behaviour: Behaviour, delay: nat -> nat, from: nat, limit: nat, s: Service, n: nat, d: Device,
    r: Request)
    requires ServesAs(behaviour, delay, from, limit, s) && from <= n
    ensures Prompt(s, delay, n) && Completes(s, n)
    ensures behaviour(n, d, r) == Serve(d, r, s.phase(n), s.poll(n))
  {
  }

  /** Devices that conform and serve exist, busy ones included: here with every other status request. */
  lemma ServingExists()
    ensures var behaviour: Behaviour := (n, d, r) => Serve(d, r, if n % 2 == 0 then DNLOAD_IDLE else DNLOAD_BUSY, 5);
      Conforming(behaviour) && Serving(behaviour, n => 1000, 0, 5 * SECOND)
  {
    var behaviour: Behaviour := (n, d, r) => Serve(d, r, if n % 2 == 0 then DNLOAD_IDLE else DNLOAD_BUSY, 5);
    forall n: nat, d: Device, r: Request
      ensures Conforms(d, r, behaviour(n, d, r).0, behaviour(n, d, r).1)
    {
      ServeConforms(d, r, if n % 2 == 0 then DNLOAD_IDLE else DNLOAD_BUSY, 5);
    }
    var s := Service(n => if n % 2 == 0 then DNLOAD_IDLE else DNLOAD_BUSY, n => 5, 2, 11 * MILLISECOND);
    forall n: nat
      ensures Prompt(s, n => 1000, n) && Completes(s, n)
    {
      assert s.phase(n) == DNLOAD_IDLE || s.phase(n + 1) == DNLOAD_IDLE;
    }
    assert ServesAs(behaviour, n => 1000, 0, 5 * SECOND, s);
  }

  function PollTimeoutMs(status: seq<u8>): (ms: nat)
    requires |status| == 6
    ensures ms < 0x100_0000
  {
    0x1_0000 * status[3] as nat + 0x100 * status[2] as nat + status[1] as nat
  }

  /** A device's 24-bit poll timeout, little-endian from byte 1, is read back. */
  lemma PollTimeoutReads(ms: nat, status: u8, state: u8, text: u8)
    requires ms < 0x100_0000
    ensures PollTimeoutMs([status, ms % 0x100, ms / 0x100 % 0x100, ms / 0x1_0000, state, text]) == ms
  {
    assert ms / 0x1_0000 == ms / 0x100 / 0x100;
  }

  /** Requests number n and n + 1 abort and clear. */
  predicate Resets(sent: seq<Request>, n: nat) {
    n + 1 < |sent| && sent[n] == Request.Abort && sent[n + 1] == ClrStatus
  }

  /** get_status on a reply: six bytes, or an error. */
  function StatusOf(reply: Reply): (r: Result<seq<u8>>)
    ensures r.Ok? ==> |r.value| == 6
  {
    if reply.Failed? then Err(TransferFailed(DFU_GETSTATUS))
    else if |reply.data| < 6 then Err(ShortStatus)
    else Ok(reply.data[..6])
  }

  /** A serving device's answer to a status request, in time. */
  lemma StatusServed(behaviour: Behaviour, delay: nat -> nat, from: nat, limit: nat, n: nat, d: Device)
    requires Serving(behaviour, delay, from, limit) && from <= n
    ensures var (reply, d') := behaviour(n, d, Request.GetStatus);
      StatusOf(reply).Ok? && StatusOf(reply).value[4] == d'.state && StatusOf(reply).value[0] == d'.status
      && (d'.op.Some? ==> d'.state in {DNLOAD_SYNC, DNLOAD_BUSY} && d'.status == STATUS_OK)
      && (d.op.None? ==> d' == d)
    ensures 1 + delay(n) <= 5 * SECOND
  {
    var s: Service :| ServesAs(behaviour, delay, from, limit, s);
    ServedAt(behaviour, delay, from, limit, s, n, d, Request.GetStatus);
  }

  lemma PickService(behaviour: Behaviour, delay: nat -> nat, from: nat, limit: nat) returns (s: Service)
    ensures Serving(behaviour, delay, from, limit) ==> ServesAs(behaviour, delay, from, limit, s)
  {
    if Serving(behaviour, delay, from, limit) {
      s :| ServesAs(behaviour, delay, from, limit, s);
    } else {
      s := Service(_ => 0, _ => 0, 0, 0);
    }
  }

  /** A poll of a pending download: done, or still busy, well within the limit, with time for the wait after it. */
  lemma PollServed(behaviour: Behaviour, delay: nat -> nat, from: nat, limit: nat, s: Service, n: nat, d: Device)
    requires ServesAs(behaviour, delay, from, limit, s) && from <= n && d.op.Some?
    requires forall k :: from <= k < n ==> s.phase(k) != DNLOAD_IDLE
    ensures var (reply, d') := behaviour(n, d, Request.GetStatus);
      StatusOf(reply).Ok? && StatusOf(reply).value[0] == STATUS_OK && StatusOf(reply).value[4] == s.phase(n)
      && d'.state == s.phase(n) && s.phase(n) in {DNLOAD_SYNC, DNLOAD_BUSY, DNLOAD_IDLE}
      && d'.op == (if s.phase(n) == DNLOAD_IDLE then None else d.op)
      && PollTimeoutMs(StatusOf(reply).value) == s.poll(n)
    ensures 1 + delay(n) + SleepTime(s.poll(n)) <= s.slow
    ensures (n + 1 - from) * s.slow <= limit
  {
    ServedAt(behaviour, delay, from, limit, s, n, d, Request.GetStatus);
    ServedAt(behaviour, delay, from, limit, s, from, d, Request.GetStatus);
    var (reply, d') := behaviour(n, d, Request.GetStatus);
    PollTimeoutReads(s.poll(n), d'.status, d'.state, 0);
    assert StatusOf(reply).value == reply.data;
    var k: nat :| from <= k < from + s.patience && s.phase(k) == DNLOAD_IDLE;
    TimesSlow(n + 1 - from, s.patience, s.slow);
  }

  lemma TimesSlow(a: nat, b: nat, slow: nat)
    requires a <= b
    ensures a * slow <= b * slow
  {
  }

  lemma OneMoreSlow(a: nat, slow: nat)
    ensures (a + 1) * slow == a * slow + slow
  {
  }

  lemma ResetServed(behaviour: Behaviour, delay: nat -> nat, from: nat, limit: nat, n: nat, d: Device)
    requires Serving(behaviour, delay, from, limit) && from <= n
    ensures behaviour(n, d, ClrStatus) == (Done([]), Device(IDLE, STATUS_OK, d.pointer, d.memory, None))
    ensures behaviour(n, d, Request.Abort) == (Done([]), Device(IDLE, STATUS_OK, d.pointer, d.memory, None))
  {
    var s: Service :| ServesAs(behaviour, delay, from, limit, s);
    ServedAt(behaviour, delay, from, limit, s, n, d, ClrStatus);
    ServedAt(behaviour, delay, from, limit, s, n, d, Request.Abort);
  }

  lemma DownloadServed(behaviour: Behaviour, delay: nat -> nat, from: nat, limit: nat, n: nat, d: Device, block: nat, data: seq<u8>)
    requires Serving(behaviour, delay, from, limit) && from <= n
    requires d.state in {IDLE, DNLOAD_IDLE} && data != []
    ensures behaviour(n, d, Dnload(block, data)) ==
      (Done([]), d.(state := DNLOAD_SYNC, op := Some(Meaning(block, data))))
  {
    var s: Service :| ServesAs(behaviour, delay, from, limit, s);
    ServedAt(behaviour, delay, from, limit, s, n, d, Dnload(block, data));
  }

  lemma UploadRefused(behaviour: Behaviour, delay: nat -> nat, from: nat, limit: nat, n: nat, d: Device, block: nat,
    length: nat)
    requires Serving(behaviour, delay, from, limit) && from <= n && block < 2
    ensures behaviour(n, d, Upload(block, length)).0 == Failed
  {
    var s: Service :| ServesAs(behaviour, delay, from, limit, s);
    ServedAt(behaviour, delay, from, limit, s, n, d, Upload(block, length));
  }

  /** A block number n times over. */
  function Repeated(block: nat, n: nat): (r: seq<nat>)
    ensures |r| == n
  {
    seq(n, _ => block)
  }

  lemma UploadServed(behaviour: Behaviour, delay: nat -> nat, from: nat, limit: nat, n: nat, d: Device, block: nat, length: nat)
    requires Serving(behaviour, delay, from, limit) && from <= n
    requires d.state in {IDLE, UPLOAD_IDLE} && block >= 2
    ensures behaviour(n, d, Upload(block, length)).0 ==
      Done(Contents(d.memory, d.pointer + (block - 2) * BLOCK_SIZE, length))
  {
    var s: Service :| ServesAs(behaviour, delay, from, limit, s);
    ServedAt(behaviour, delay, from, limit, s, n, d, Upload(block, length));
  }

  /** Nothing pending before means nothing pending after, and the same contents. */
  ghost predicate Quiet(before: Device, after: Device) {
    before.op.None? ==> after.op.None? && SameContents(before, after)
  }

  function Blocks(firmware: seq<u8>): nat {
    (|firmware| + BLOCK_SIZE - 1) / BLOCK_SIZE
  }

  /** Block i of the image; the last may be short. */
  function Chunk(firmware: seq<u8>, i: nat): (c: seq<u8>)
    requires i < Blocks(firmware)
    ensures 0 < |c| <= BLOCK_SIZE
  {
    firmware[BLOCK_SIZE * i..Min(BLOCK_SIZE * (i + 1), |firmware|)]
  }

  /** The first m blocks as read back under their block numbers. */
  function ReadBack(firmware: seq<u8>, m: nat): (r: seq<(nat, seq<u8>)>)
    requires m <= Blocks(firmware)
  {
    seq(m, i requires 0 <= i < m => (BlockNumber(i), Chunk(firmware, i)))
  }

  /** The message of a failed transfer names its request; any error of an upload counts as a stall. */
  predicate LooksLikePipe(e: Error) {
    e == TransferFailed(DFU_UPLOAD)
  }

  class Host {
    const behaviour: Behaviour
    const delay: nat -> nat       // extra time each transfer takes; it always takes some
    var device: Device
    var step: nat
    var clock: nat                // nanoseconds

    ghost var sent: seq<Request>              // every request so far
    ghost var readBack: seq<(nat, seq<u8>)>   // successful uploads: block and data
    ghost var refused: seq<nat>               // blocks of failed uploads

    constructor (behaviour: Behaviour, delay: nat -> nat, device: Device)
      ensures this.behaviour == behaviour && this.delay == delay && this.device == device
      ensures readBack == [] && refused == []
    {
      this.behaviour, this.delay, this.device := behaviour, delay, device;
      step, clock, sent, readBack, refused := 0, 0, [], [], [];
    }

    ghost predicate Valid()
      reads this
    {
      |sent| == step && (Conforming(behaviour) ==> Consistent(device))
    }

    /** One control transfer, whatever the device makes of it. */
    method Transfer(r: Request) returns (reply: Reply)
      requires Valid()
      modifies this`device, this`step, this`clock, this`sent
      ensures Valid() && clock == old(clock) + 1 + delay(old(step)) && step == old(step) + 1
      ensures (reply, device) == behaviour(old(step), old(device), r) && sent == old(sent) + [r]
      ensures Conforming(behaviour) ==> Conforms(old(device), r, reply, device)
    {
      var next := behaviour(step, device, r);
      assert Conforming(behaviour) ==> Conforms(device, r, next.0, next.1);
      if Conforming(behaviour) { ConformingStaysConsistent(device, r, next.0, next.1); }
      device := next.1;
      clock := clock + 1 + delay(step);
      step, sent := step + 1, sent + [r];
      reply := next.0;
    }

    method Sleep(time: nat)
      modifies this`clock
      ensures clock == old(clock) + time
    {
      clock := clock + time;
    }

    method GetStatus() returns (r: Result<seq<u8>>)
      requires Valid()
      modifies this`device, this`step, this`clock, this`sent
      ensures Valid() && clock == old(clock) + 1 + delay(old(step)) && step == old(step) + 1
      ensures device == behaviour(old(step), old(device), Request.GetStatus).1 && sent == old(sent) + [Request.GetStatus]
      ensures r == StatusOf(behaviour(old(step), old(device), Request.GetStatus).0)
      ensures r.Ok? ==> |r.value| == 6
      ensures Conforming(behaviour) ==> device == old(device) || StatusStep(old(device), device)
      ensures Conforming(behaviour) && r.Ok? ==>
                StatusStep(old(device), device) && r.value[0] == device.status && r.value[4] == device.state
    {
      var reply := Transfer(Request.GetStatus);
      if reply.Failed? {
        return Err(TransferFailed(DFU_GETSTATUS));
      }
      if |reply.data| < 6 {
        return Err(ShortStatus);
      }
      return Ok(reply.data[..6]);
    }

    method ClearStatus() returns (r: Result<()>)
      requires Valid()
      modifies this`device, this`step, this`clock, this`sent
      ensures Valid() && clock == old(clock) + 1 + delay(old(step)) && step == old(step) + 1
      ensures device == behaviour(old(step), old(device), ClrStatus).1 && sent == old(sent) + [ClrStatus]
      ensures r.Ok? <==> behaviour(old(step), old(device), ClrStatus).0.Done?
      ensures Conforming(behaviour) ==> device == old(device) || Settled(old(device), device, {IDLE, ERROR})
    {
      var reply := Transfer(ClrStatus);
      return if reply.Failed? then Err(TransferFailed(DFU_CLRSTATUS)) else Ok(());
    }

    method AbortTransfer()
      requires Valid()
      modifies this`device, this`step, this`clock, this`sent
      ensures Valid() && clock > old(clock) && step == old(step) + 1
      ensures device == behaviour(old(step), old(device), Request.Abort).1 && sent == old(sent) + [Request.Abort]
      ensures Conforming(behaviour) ==> device == old(device) || Settled(old(device), device, {IDLE, ERROR})
    {
      var _ := Transfer(Request.Abort);
    }

    /** wait_download_idle and wait_upload_idle: `idle` is the second state that ends the wait. */
    method WaitIdle(idle: u8, ghost limit: nat) returns (r: Result<()>)
      requires Valid() && idle in {DNLOAD_IDLE, UPLOAD_IDLE}
      modifies this`device, this`step, this`clock, this`sent
      ensures Valid() && clock > old(clock) && step > old(step) && old(sent) <= sent
      ensures Conforming(behaviour) ==> Quiet(old(device), device)
      ensures Conforming(behaviour) && r.Ok? ==> device.state in {IDLE, idle} && device.op.None?
      ensures Serving(behaviour, delay, old(step), limit) ==>
        r.Ok? && device.state in {IDLE, idle} && device.op.None?
        && (old(device).op.None? ==> SameContents(old(device), device))
    {
      hide Conforming, Serving;
      var start, timeout := clock, 5 * SECOND;
      ghost var from := step;
      if Serving(behaviour, delay, from, limit) { StatusServed(behaviour, delay, from, limit, step, device); }
      var first := GetStatus();
      if first.Err? {
        return Err(first.error);
      }
      var status := first.value;
      while !(status[4] == IDLE || status[4] == idle)
        invariant Valid() && clock > old(clock) && step > from && |status| == 6 && old(sent) <= sent
        invariant Conforming(behaviour) ==> Quiet(old(device), device) && status[4] == device.state
        invariant Serving(behaviour, delay, from, limit) ==>
          status[4] == device.state && (device.op.Some? ==> device.state in {DNLOAD_SYNC, DNLOAD_BUSY})
          && (device.state == IDLE || clock - start <= timeout)
          && (old(device).op.None? ==> SameContents(old(device), device))
        decreases start + timeout + 1 - clock
      {
        if clock - start > timeout {
          return Err(TimedOut);
        }
        if Serving(behaviour, delay, from, limit) { ResetServed(behaviour, delay, from, limit, step, device); }
        var cleared := ClearStatus();
        if cleared.Err? {
          return Err(cleared.error);
        }
        if Serving(behaviour, delay, from, limit) { StatusServed(behaviour, delay, from, limit, step, device); }
        var next := GetStatus();
        if next.Err? {
          return Err(next.error);
        }
        status := next.value;
      }
      return Ok(());
    }

    /** The polling loop after a download; mass erase also waits through the manifest states. */
    method AwaitOperation(timeout: nat, manifestIsBusy: bool) returns (r: Result<()>)
      requires Valid() && (Conforming(behaviour) ==> device.op.Some?)
      modifies this`device, this`step, this`clock, this`sent
      ensures Valid() && clock > old(clock) && step > old(step) && old(sent) <= sent
      ensures Conforming(behaviour) && r.Ok? ==> device.state in {IDLE, DNLOAD_IDLE} && device.op.None?
      ensures Conforming(behaviour) && r.Ok? && !old(device).op.value.Other? ==>
                (device.memory, device.pointer) == Apply(old(device), old(device).op.value)
      ensures Serving(behaviour, delay, old(step), timeout) && old(device).op.Some? ==>
        r.Ok? && device.op.None?
    {
      hide Serving, ServesAs;
      var start := clock;
      ghost var from := step;
      ghost var s := PickService(behaviour, delay, from, timeout);
      ghost var served := Serving(behaviour, delay, from, timeout) && device.op.Some?;
      while true
        invariant Valid() && clock >= start && step >= from && (step == from ==> clock == start) && old(sent) <= sent
        invariant Conforming(behaviour) ==> device.op == old(device).op && SameContents(old(device), device)
        invariant served ==> ServesAs(behaviour, delay, from, timeout, s) && device.op.Some?
        invariant served ==> clock - start <= (step - from) * s.slow
        invariant served ==> forall k :: from <= k < step ==> s.phase(k) != DNLOAD_IDLE
        decreases start + timeout + 1 - clock
      {
        if served {
          PollServed(behaviour, delay, from, timeout, s, step, device);
          OneMoreSlow(step - from, s.slow);
        }
        var next := GetStatus();
        if next.Err? {
          return Err(next.error);
        }
        var status := next.value;
        if status[0] != STATUS_OK || status[4] == ERROR {
          return Err(DeviceError);
        }
        if status[4] in {IDLE, DNLOAD_IDLE} {
          return Ok(());
        }
        if !(status[4] in {DNLOAD_SYNC, DNLOAD_BUSY}
             || (manifestIsBusy && status[4] in {MANIFEST_SYNC, MANIFEST, MANIFEST_WAIT_RESET})) {
          return Err(UnexpectedState);
        }
        if clock - start > timeout {
          return Err(TimedOut);
        }
        var remaining := timeout - (clock - start);
        var ms := PollTimeoutMs(status);
        var sleep := SleepTime(ms);
        Sleep(Min(sleep, remaining));
      }
    }

    /** A download request from an idle device, polled to completion. */
    method Download(block: nat, data: seq<u8>, timeout: nat, manifestIsBusy: bool) returns (r: Result<()>)
      requires Valid() && data != []
      modifies this`device, this`step, this`clock, this`sent
      ensures Valid() && clock > old(clock) && step > old(step) && old(sent) <= sent
      ensures Conforming(behaviour) && r.Ok? ==> device.state in {IDLE, DNLOAD_IDLE} && device.op.None?
      ensures Conforming(behaviour) && r.Ok? && Meaning(block, data).MassErase? ==> device.memory == map[]
      ensures Conforming(behaviour) && r.Ok? && old(device).op.None? && !Meaning(block, data).Other? ==>
                (device.memory, device.pointer) == Apply(old(device), Meaning(block, data))
      ensures Serving(behaviour, delay, old(step), timeout) ==> r.Ok? && device.op.None?
    {
      hide Serving;
      ghost var from := step;
      ghost var served := Serving(behaviour, delay, from, timeout);
      var idle := WaitIdle(DNLOAD_IDLE, timeout);
      if idle.Err? {
        return Err(idle.error);
      }
      if served {
        DownloadServed(behaviour, delay, from, timeout, step, device, block, data);
      }
      var reply := Transfer(Dnload(block, data));
      if reply.Failed? {
        return Err(TransferFailed(DFU_DNLOAD));
      }
      ServingLater(behaviour, delay, from, timeout, step, timeout);
      r := AwaitOperation(timeout, manifestIsBusy);
    }

    /** mass_erase with its one recovery and retry, from request number `retried` on: an error means that the
        device did not serve from there on. */
    method MassErase() returns (r: Result<()>, ghost retried: Option<nat>)
      requires Valid()
      modifies this`device, this`step, this`clock, this`sent
      ensures Valid() && step > old(step) && old(sent) <= sent
      ensures Conforming(behaviour) && r.Ok? ==> device.memory == map[] && device.op.None?
      ensures Serving(behaviour, delay, old(step), 60 * SECOND) ==> r.Ok? && device.op.None? && retried.None?
      ensures r.Err? ==> retried.Some? && old(step) < retried.value < step
      ensures r.Err? ==> !Serving(behaviour, delay, retried.value, 60 * SECOND)
      ensures retried.Some? ==> Resets(sent, retried.value)
    {
      hide Serving;
      retried := None;
      r := Download(0, [0x41], 60 * SECOND, true);
      if r.Err? {
        retried := Some(step);
        AbortTransfer();
        var _ := ClearStatus();
        var _ := WaitIdle(DNLOAD_IDLE, 60 * SECOND);
        ServingLater(behaviour, delay, retried.value, 60 * SECOND, step, 60 * SECOND);
        r := Download(0, [0x41], 60 * SECOND, true);
      }
    }

    method SetAddressPointer(address: nat) returns (r: Result<()>)
      requires Valid() && address < 0x1_0000_0000
      modifies this`device, this`step, this`clock, this`sent
      ensures Valid() && step > old(step) && old(sent) <= sent
      ensures Conforming(behaviour) && r.Ok? && old(device).op.None? ==>
                device.memory == old(device).memory && device.pointer == address && device.op.None?
      ensures Serving(behaviour, delay, old(step), 5 * SECOND) ==> r.Ok? && device.op.None?
    {
      hide Serving;
      PointerBytes(address);
      var buffer: seq<u8> := [0x21, address % 0x100, address / 0x100 % 0x100,
                              address / 0x1_0000 % 0x100, address / 0x100_0000 % 0x100];
      r := Download(0, buffer, 5 * SECOND, false);
    }

    method WriteBlock(block: nat, data: seq<u8>) returns (r: Result<()>)
      requires Valid() && data != []
      modifies this`device, this`step, this`clock, this`sent
      ensures Valid() && step > old(step) && old(sent) <= sent
      ensures Conforming(behaviour) && r.Ok? && old(device).op.None? && !Meaning(block, data).Other? ==>
                && device.op.None?
                && (device.memory, device.pointer) == Apply(old(device), Meaning(block, data))
      ensures Serving(behaviour, delay, old(step), 5 * SECOND) ==> r.Ok? && device.op.None?
    {
      hide Serving;
      r := Download(block, data, 5 * SECOND, false);
    }

    /** What read_block does before another attempt, on a device that may serve from request number `from` on. */
    method Recover(ghost from: nat)
      requires Valid() && step >= from
      modifies this`device, this`step, this`clock, this`sent
      ensures Valid() && step > old(step) && old(sent) <= sent
      ensures Conforming(behaviour) ==> Quiet(old(device), device)
      ensures Resets(sent, old(step))
      ensures Serving(behaviour, delay, from, 5 * SECOND) ==> device.state in {IDLE, UPLOAD_IDLE}
    {
      hide Serving;
      AbortTransfer();
      var _ := ClearStatus();
      ServingLater(behaviour, delay, from, 5 * SECOND, step, 5 * SECOND);
      var _ := WaitIdle(UPLOAD_IDLE, 5 * SECOND);
      Sleep(20 * MILLISECOND);
    }

    /** read_block: three attempts with recovery in between; an error is always the upload's, and means that the
        device did not serve after the first attempt. */
    method ReadBlock(block: nat, length: nat) returns (r: Result<seq<u8>>)
      requires Valid()
      modifies this
      ensures Valid() && step > old(step) && old(sent) <= sent
      ensures Conforming(behaviour) ==> Quiet(old(device), device)
      ensures r.Ok? ==> readBack == old(readBack) + [(block, r.value)] && |r.value| <= length
      ensures r.Err? ==> readBack == old(readBack) && refused == old(refused) + [block, block, block]
      ensures r.Err? ==> r.error == TransferFailed(DFU_UPLOAD)
      ensures Serving(behaviour, delay, old(step), 5 * SECOND) && block < 2 ==> r.Err?
      ensures r.Err? && block >= 2 ==> !Serving(behaviour, delay, old(step) + 1, 5 * SECOND)
      ensures Serving(behaviour, delay, old(step), 5 * SECOND) && block >= 2 && old(device).state in {IDLE, UPLOAD_IDLE} ==>
        r == Ok(Contents(old(device).memory, old(device).pointer + (block - 2) * BLOCK_SIZE, length))
    {
      hide Serving, Conforming;
      r := Err(TransferFailed(DFU_UPLOAD));
      ghost var from := step;
      if Serving(behaviour, delay, from, 5 * SECOND) && block >= 2 && device.state in {IDLE, UPLOAD_IDLE} {
        UploadServed(behaviour, delay, from, 5 * SECOND, step, device, block, length);
      }
      for attempt := 0 to 3
        invariant Valid() && readBack == old(readBack) && step >= from + attempt && old(sent) <= sent
        invariant Conforming(behaviour) ==> Quiet(old(device), device)
        invariant refused == old(refused) + Repeated(block, attempt)
        invariant r == Err(TransferFailed(DFU_UPLOAD))
        invariant attempt == 0 ==> step == from && device == old(device)
        invariant attempt > 0 && block >= 2 && old(device).state in {IDLE, UPLOAD_IDLE} ==>
          !Serving(behaviour, delay, from, 5 * SECOND)
        invariant attempt > 1 && block >= 2 ==> !Serving(behaviour, delay, from + 1, 5 * SECOND)
      {
        if attempt > 0 {
          Recover(from + 1);
          if Serving(behaviour, delay, from + 1, 5 * SECOND) && block >= 2 {
            UploadServed(behaviour, delay, from + 1, 5 * SECOND, step, device, block, length);
          }
        }
        if Serving(behaviour, delay, from, 5 * SECOND) && block < 2 {
          UploadRefused(behaviour, delay, from, 5 * SECOND, step, device, block, length);
        }
        var reply := Transfer(Upload(block, length));
        if reply.Done? {
          var data := if |reply.data| > length then reply.data[..length] else reply.data;
          readBack := readBack + [(block, data)];
          return Ok(data);
        }
        refused := refused + [block];
      }
      assert Repeated(block, 3) == [block, block, block];
    }

    /** One block of the verify pass: `supported` is whether the device allows uploads. */
    method VerifyBlock(block: nat, chunk: seq<u8>) returns (r: Result<bool>)
      requires Valid()
      modifies this
      ensures Valid() && step > old(step) && old(sent) <= sent
      ensures Conforming(behaviour) ==> Quiet(old(device), device)
      ensures r == Ok(true) ==> readBack == old(readBack) + [(block, chunk)]
      ensures r == Ok(false) ==> readBack == old(readBack) && refused != [] && refused[|refused| - 1] == block
      ensures Conforming(behaviour) && Serving(behaviour, delay, old(step), 5 * SECOND) ==>
        (old(device).op.None? && Stored(old(device), block, chunk) ==> r == Ok(true))
      ensures Serving(behaviour, delay, old(step), 5 * SECOND) && block < 2 ==> r == Ok(false)
    {
      hide Serving, Conforming;
      ghost var from := step;
      var idle := WaitIdle(UPLOAD_IDLE, 5 * SECOND);
      if idle.Err? {
        return Err(idle.error);
      }
      ServingLater(behaviour, delay, from, 5 * SECOND, step, 5 * SECOND);
      var read := ReadBlock(block, |chunk|);
      if read.Err? {
        ServingLater(behaviour, delay, from, 5 * SECOND, from + 2, 5 * SECOND);
        if !LooksLikePipe(read.error) {
          assert false;  // the message of a failed upload always names request 0x02
        }
        return Ok(false);
      }
      if |read.value| != |chunk| {
        return Err(ShortRead);
      }
      if read.value != chunk {
        return Err(Mismatch);
      }
      return Ok(true);
    }

    /** The body of flash's loop: one block written, and read back while uploads are supported. */
    method FlashBlock(block: nat, chunk: seq<u8>, canVerify: bool, ghost offset: nat) returns (r: Result<bool>)
      requires Valid() && chunk != []
      modifies this
      ensures Valid() && step > old(step) && old(sent) <= sent
      ensures r.Ok? && Conforming(behaviour) && old(device).op.None? && Meaning(block, chunk) == Write(offset, chunk) ==>
                && device.op.None? && device.pointer == old(device).pointer
                && device.memory == old(device).memory + Image(device.pointer + offset, chunk)
      ensures r == Ok(true) ==> canVerify && readBack == old(readBack) + [(block, chunk)]
      ensures r == Ok(false) ==> readBack == old(readBack)
      ensures r == Ok(false) && canVerify ==> refused != [] && refused[|refused| - 1] == block
      ensures !canVerify ==> refused == old(refused)
      ensures Conforming(behaviour) && Serving(behaviour, delay, old(step), 5 * SECOND) && old(device).op.None? ==>
        r.Ok? && device.op.None? && (block >= 2 ==> r.value == canVerify)
    {
      hide Image, Serving, Conforming, Stored;
      ghost var from := step;
      var written := WriteBlock(block, chunk);
      if written.Err? {
        return Err(written.error);
      }
      if canVerify {
        ServingLater(behaviour, delay, from, 5 * SECOND, step, 5 * SECOND);
        if Conforming(behaviour) && old(device).op.None? && block >= 2 {
          WrittenIsStored(old(device), device, block, chunk);
        }
        r := VerifyBlock(block, chunk);
      } else {
        r := Ok(false);
      }
    }

    /** flash. Ok means: every block up to the first refused upload was read back equal to what was
        sent, and on a conforming device the memory is the image, nothing else programmed. And on a
        conforming device that serves it is Ok, with every block verified if asked. */
    method Flash(firmware: seq<u8>, address: nat, verify: bool) returns (r: Result<()>, ghost verified: nat)
      requires Valid() && address < 0x1_0000_0000
      modifies this
      ensures Valid() && verified <= Blocks(firmware)
      ensures old(sent) + [ClrStatus] <= sent
      ensures r.Ok? ==> readBack == old(readBack) + ReadBack(firmware, verified)
      ensures r.Ok? && verify && verified < Blocks(firmware) ==>
                refused != [] && refused[|refused| - 1] == BlockNumber(verified)
      ensures r.Ok? && Conforming(behaviour) && Blocks(firmware) <= 65534 ==>
                device.memory == Image(address, firmware)
      ensures Conforming(behaviour) && Serving(behaviour, delay, old(step), 5 * SECOND) ==>
                r.Ok? && (verify && Blocks(firmware) <= 65534 ==> verified == Blocks(firmware))
    {
      hide Serving, Conforming, ReadBack, Image;
      ghost var from := step;
      verified := 0;
      NothingReadBack(firmware);
      var _ := ClearStatus();
      ServingLater(behaviour, delay, from, 5 * SECOND, step, 60 * SECOND);
      ghost var retried;
      r, retried := MassErase();
      if r.Err? {
        return;
      }
      ServingLater(behaviour, delay, from, 5 * SECOND, step, 5 * SECOND);
      r := SetAddressPointer(address);
      if r.Err? {
        return;
      }
      ServingLater(behaviour, delay, from, 5 * SECOND, step, 5 * SECOND);
      if Conforming(behaviour) { NothingHeld(device, firmware, address); }
      r, verified := WriteImage(firmware, address, verify);
      assert firmware[..|firmware|] == firmware;
    }

    /** The loop over the image's blocks. */
    method WriteImage(firmware: seq<u8>, ghost address: nat, verify: bool) returns (r: Result<()>, ghost verified: nat)
      requires Valid()
      requires Conforming(behaviour) ==> Holds(device, firmware, address, 0)
      modifies this
      ensures Valid() && verified <= Blocks(firmware) && old(sent) <= sent
      ensures r.Ok? ==> readBack == old(readBack) + ReadBack(firmware, verified)
      ensures r.Ok? && verify && verified < Blocks(firmware) ==>
                refused != [] && refused[|refused| - 1] == BlockNumber(verified)
      ensures r.Ok? && Conforming(behaviour) && Blocks(firmware) <= 65534 ==>
                Holds(device, firmware, address, Blocks(firmware))
      ensures Conforming(behaviour) && Serving(behaviour, delay, old(step), 5 * SECOND) ==>
                r.Ok? && (verify && Blocks(firmware) <= 65534 ==> verified == Blocks(firmware))
    {
      hide Serving, Conforming;
      r, verified := Ok(()), 0;
      var blockNum: nat := 2;
      var canVerify := verify;
      ghost var from := step;
      ghost var served := Conforming(behaviour) && Serving(behaviour, delay, from, 5 * SECOND);
      for i := 0 to Blocks(firmware)
        invariant Valid() && blockNum == BlockNumber(i) && verified <= i && step >= from && r == Ok(())
        invariant old(sent) <= sent
        invariant readBack == old(readBack) + ReadBack(firmware, verified)
        invariant canVerify ==> verified == i
        invariant verify && !canVerify ==> refused != [] && refused[|refused| - 1] == BlockNumber(verified)
        invariant Conforming(behaviour) && i <= 65534 ==> Holds(device, firmware, address, i)
        invariant served ==> device.op.None? && (i <= 65534 ==> canVerify == verify)
      {
        hide Holds, ReadBack, Chunk, Blocks, Meaning;
        var chunk := Chunk(firmware, i);
        ghost var before := device;
        if Conforming(behaviour) && i < 65534 {
          HoldsNothingPending(device, firmware, address, i);
        }
        ServingLater(behaviour, delay, from, 5 * SECOND, step, 5 * SECOND);
        var more := FlashBlock(blockNum, chunk, canVerify, BLOCK_SIZE * i);
        if more.Err? {
          return Err(more.error), verified;
        }
        if Conforming(behaviour) && i < 65534 {
          BlockNumberIff(i, chunk);
          HoldsNext(before, device, firmware, address, i);
        }
        if more.value {
          NextReadBack(firmware, i);
          verified := i + 1;
        }
        canVerify := more.value;
        blockNum := (blockNum + 1) % 0x1_0000;
      }
    }
  }

  /** The device's memory holds `chunk` where block `block` goes. */
  ghost predicate Stored(d: Device, block: nat, chunk: seq<u8>) {
    block >= 2 && Contents(d.memory, d.pointer + (block - 2) * BLOCK_SIZE, |chunk|) == chunk
  }

  lemma WrittenIsStored(before: Device, after: Device, block: nat, chunk: seq<u8>)
    requires block >= 2 && (after.memory, after.pointer) == Apply(before, Meaning(block, chunk))
    ensures Stored(after, block, chunk)
  {
    ContentsOfImage(before.memory, before.pointer + (block - 2) * BLOCK_SIZE, chunk);
  }

  lemma NothingReadBack(firmware: seq<u8>)
    ensures ReadBack(firmware, 0) == []
  {
  }

  lemma NothingHeld(d: Device, firmware: seq<u8>, address: nat)
    requires d.op.None? && d.pointer == address && d.memory == map[]
    ensures Holds(d, firmware, address, 0)
  {
    assert firmware[..0] == [];
  }

  lemma HoldsNothingPending(d: Device, firmware: seq<u8>, address: nat, i: nat)
    requires Holds(d, firmware, address, i)
    ensures d.op.None?
  {
  }

  /** The first i blocks are programmed, nothing else, and nothing is pending. */
  ghost predicate Holds(d: Device, firmware: seq<u8>, address: nat, i: nat) {
    d.op.None? && d.pointer == address
    && d.memory == Image(address, firmware[..Min(BLOCK_SIZE * i, |firmware|)])
  }

  lemma HoldsNext(before: Device, after: Device, firmware: seq<u8>, address: nat, i: nat)
    requires i < Blocks(firmware) && Holds(before, firmware, address, i)
    requires after.op.None? && after.pointer == before.pointer
    requires after.memory == before.memory + Image(after.pointer + BLOCK_SIZE * i, Chunk(firmware, i))
    ensures Holds(after, firmware, address, i + 1)
  {
    hide Image;
    NextChunk(firmware, i, address);
  }

  lemma NextChunk(firmware: seq<u8>, i: nat, address: nat)
    requires i < Blocks(firmware)
    ensures var done := Min(BLOCK_SIZE * i, |firmware|);
      && done == BLOCK_SIZE * i
      && Image(address, firmware[..done]) + Image(address + done, Chunk(firmware, i)) ==
         Image(address, firmware[..Min(BLOCK_SIZE * (i + 1), |firmware|)])
  {
    hide Image;
    var done := BLOCK_SIZE * i;
    ImageExtends(address, firmware[..done], Chunk(firmware, i));
    assert firmware[..done] + Chunk(firmware, i) == firmware[..Min(BLOCK_SIZE * (i + 1), |firmware|)];
  }

  lemma NextReadBack(firmware: seq<u8>, m: nat)
    requires m < Blocks(firmware)
    ensures ReadBack(firmware, m + 1) == ReadBack(firmware, m) + [(BlockNumber(m), Chunk(firmware, m))]
  {
  }
}
