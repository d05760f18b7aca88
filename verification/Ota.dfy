/** The firmware update session, driven by the BLE control and data writes and by the HTTP upload handler. */
module Ota {
  import opened Bytes
  import opened Machine
  import opened Octets
  import opened Wrappers
  import opened OtaLinks
  import opened OtaSpec

  const CMD_START: byte := 0x01
  const CMD_ABORT: byte := 0x02
  const CMD_END: byte := 0x03
  const CMD_WIFI_START: byte := 0x10
  const CMD_WIFI_STOP: byte := 0x11
  const SHA_SIZE := 32
  const BLE_CHUNK := 256
  const HEADER_BUFFER := 80

  /** An ESP-IDF call's result: Ok, or the code of the error. */
  datatype Status =
    | Ok | InvalidState | InvalidArg | NotFound | InvalidSize | InvalidCrc | Fail
    | Esp(code: nat)

  /** What the calls made by ota_core_start answer. */
  datatype Opening = Opening(partition: bool, begin: Status, hashStarts: bool)

  /** What the calls made by ota_core_write answer, and what a failing flash write leaves behind. */
  datatype Storing = Storing(write: Status, hashUpdates: bool, torn: seq<byte>)

  /** What the calls made by ota_core_finish answer. */
  datatype Closing = Closing(hashFinishes: bool, end: Status, setBoot: Status)

  datatype Event =
    | Control(data: seq<byte>, opening: Opening, closing: Closing, apStarts: bool)
    | Data(data: seq<byte>, storing: Storing)
    | Disconnect
    | Post(contentLength: nat, lookup: int, text: string, opening: Opening)
    | Receive(chunk: seq<byte>, storing: Storing, closing: Closing)

  function LittleEndian(data: seq<byte>): (r: nat)
    requires |data| == 4
    ensures r < WORD
  {
    Word(Value(data[0]), Value(data[1]), Value(data[2]), Value(data[3]))
  }

  function Word(a: nat, b: nat, c: nat, d: nat): (r: nat)
    requires a < 0x100 && b < 0x100 && c < 0x100 && d < 0x100
    ensures r < WORD
  {
    a + 0x100 * b + 0x1_0000 * c + 0x100_0000 * d
  }

  /** The four bytes of a number, lowest first, read as it. */
  lemma LittleEndianReads(n: nat)
    requires n < WORD
    ensures LittleEndian([Narrow(n % 0x100), Narrow(n / 0x100 % 0x100), Narrow(n / 0x1_0000 % 0x100),
      Narrow(n / 0x100_0000)]) == n
  {
    hide Value, Narrow;
    ValueOfNarrow(n % 0x100);
    ValueOfNarrow(n / 0x100 % 0x100);
    ValueOfNarrow(n / 0x1_0000 % 0x100);
    ValueOfNarrow(n / 0x100_0000);
    FourDigits(n);
  }

  lemma FourDigits(n: nat)
    requires n < WORD
    ensures Word(n % 0x100, n / 0x100 % 0x100, n / 0x1_0000 % 0x100, n / 0x100_0000) == n
  {
    assert n / 0x1_0000 == n / 0x100 / 0x100 && n / 0x100_0000 == n / 0x1_0000 / 0x100;
  }

  /** Each hex digit reads as its number, in either case, and nothing else reads. */
  lemma DecimalDigits()
    ensures HexNibble('0') == Some(0x0) && HexNibble('1') == Some(0x1) && HexNibble('2') == Some(0x2)
    ensures HexNibble('3') == Some(0x3) && HexNibble('4') == Some(0x4) && HexNibble('5') == Some(0x5)
    ensures HexNibble('6') == Some(0x6) && HexNibble('7') == Some(0x7) && HexNibble('8') == Some(0x8)
    ensures HexNibble('9') == Some(0x9)
  {
  }

  lemma HexLetters()
    ensures HexNibble('a') == HexNibble('A') == Some(0xA) && HexNibble('b') == HexNibble('B') == Some(0xB)
    ensures HexNibble('c') == HexNibble('C') == Some(0xC)
  {
  }

  lemma LastHexLetters()
    ensures HexNibble('d') == HexNibble('D') == Some(0xD)
    ensures HexNibble('e') == HexNibble('E') == Some(0xE) && HexNibble('f') == HexNibble('F') == Some(0xF)
  {
  }

  lemma OtherCharacters(c: char)
    ensures HexNibble(c).Some? <==> '0' <= c <= '9' || 'a' <= c <= 'f' || 'A' <= c <= 'F'
  {
  }

  /** hex_nibble. */
  function HexNibble(c: char): (r: Option<byte>)
    ensures r.Some? ==> r.value < 16
  {
    if '0' <= c <= '9' then Some((c - '0') as byte)
    else if 'a' <= c <= 'f' then Some((10 as char + (c - 'a')) as byte)
    else if 'A' <= c <= 'F' then Some((10 as char + (c - 'A')) as byte)
    else None
  }

  predicate IsHex(hex: string) {
    |hex| == 2 * SHA_SIZE && forall i :: 0 <= i < |hex| ==> HexNibble(hex[i]).Some?
  }

  predicate HexOf(hex: string, digest: seq<byte>) {
    |hex| == 2 * SHA_SIZE && |digest| == SHA_SIZE
    && forall i :: 0 <= i < SHA_SIZE ==>
      HexNibble(hex[2 * i]) == Some(digest[i] >> 4) && HexNibble(hex[2 * i + 1]) == Some(digest[i] & 0x0F)
  }

  /** parse_sha256_hex: 64 digits of either case, high nibble first. */
  method ParseSha256Hex(hex: string) returns (r: Option<seq<byte>>)
    ensures r.Some? <==> IsHex(hex)
    ensures r.Some? ==> HexOf(hex, r.value)
  {
    if |hex| != 2 * SHA_SIZE {
      return None;
    }
    var out := [];
    for i := 0 to SHA_SIZE
      invariant |out| == i
      invariant forall k :: 0 <= k < 2 * i ==> HexNibble(hex[k]).Some?
      invariant forall k :: 0 <= k < i ==>
        HexNibble(hex[2 * k]) == Some(out[k] >> 4) && HexNibble(hex[2 * k + 1]) == Some(out[k] & 0x0F)
    {
      var hi, lo := HexNibble(hex[2 * i]), HexNibble(hex[2 * i + 1]);
      if hi.None? || lo.None? {
        return None;
      }
      Nibbles(hi.value, lo.value);
      out := out + [(hi.value << 4) | lo.value];
    }
    return Some(out);
  }

  lemma Nibbles(hi: byte, lo: byte)
    requires hi < 16 && lo < 16
    ensures ((hi << 4) | lo) >> 4 == hi && ((hi << 4) | lo) & 0x0F == lo
  {
  }

  /** What httpd_req_recv can return of the waiting bytes: no more than the buffer or the body has left. */
  function Arriving(waiting: seq<byte>, remaining: nat): (r: seq<byte>)
    ensures |r| <= MAX_CHUNK && |r| <= remaining && r <= waiting
    ensures remaining > 0 && waiting != [] ==> r != []
  {
    var limit := if remaining > MAX_CHUNK then MAX_CHUNK else remaining;
    if |waiting| > limit then waiting[..limit] else waiting
  }

  /** A START command long enough, for a size that is not 0, with every call it leads to succeeding. */
  predicate Startable(data: seq<byte>, opening: Opening) {
    |data| >= 37 && LittleEndian(data[1..5]) > 0
    && opening.partition && opening.begin.Ok? && opening.hashStarts
  }

  /** An upload's request: `lookup` is what httpd_req_get_hdr_value_str returns and the handler takes for a
      length, `text` the buffer it may have filled. */
  predicate Uploadable(contentLength: nat, lookup: int, text: string, opening: Opening) {
    0 < contentLength < WORD && lookup == 2 * SHA_SIZE <= |text| && IsHex(text[..2 * SHA_SIZE])
    && opening.partition && opening.begin.Ok? && opening.hashStarts
  }

  /** The results ESP-IDF documents for the lookup: ESP_OK, ESP_FAIL, or a code from 0x101 on. */
  predicate IsEspErr(code: int) {
    code == 0 || code == -1 || code >= 0x101
  }

  predicate StoreSucceeds(received: nat, total: nat, chunk: seq<byte>, env: Storing) {
    chunk != [] && !Refused(received, |chunk|, total) && env.write.Ok? && env.hashUpdates
  }

  lemma UndisturbedIsStored(received: nat, total: nat, chunk: seq<byte>, env: Storing)
    requires chunk != [] && received + |chunk| <= total < WORD
    ensures StoreSucceeds(received, total, chunk, env) <==> env.write.Ok? && env.hashUpdates
  {
  }

  /** The log is the same, or has an update more that was begun and dropped in one call. */
  predicate NothingMore(before: seq<Entry>, after: seq<Entry>) {
    after == before
    || (|after| == |before| + 2 && before <= after && after[|before|].Begun? && after[|before| + 1].Dropped?)
  }

  /** Who began the open update, after one entry more or an update begun and dropped. */
  lemma LinkAfter(before: seq<Entry>, after: seq<Entry>)
    ensures NothingMore(before, after) && after != before ==> Open(after).None?
    ensures |after| == |before| + 1 && before <= after && after[|before|].Begun? ==>
      Open(after).Some? && Open(after).value.link == after[|before|].link
    ensures |after| == |before| + 1 && before <= after && after[|before|].Accepted? && Open(before).Some? ==>
      Open(after).Some? && Open(after).value.link == Open(before).value.link
  {
    if |after| == |before| + 1 && before <= after {
      assert after == before + [after[|before|]];
      OpenNext(before, after[|before|]);
    } else if NothingMore(before, after) && after != before {
      assert after == after[..|after| - 1] + [Dropped];
      OpenNext(after[..|after| - 1], Dropped);
    }
  }

  /** The next `size` bytes of the body, or all that are left. */
  function Waiting(body: seq<byte>, remaining: nat, size: nat): (r: seq<byte>)
    requires 0 < remaining <= |body| && size > 0
    ensures r != [] && r <= body[|body| - remaining..]
  {
    var rest := body[|body| - remaining..];
    if size < remaining then rest[..size] else rest
  }

  predicate Confirms(received: nat, total: nat, digest: seq<byte>, expected: seq<byte>, env: Closing) {
    received == total && env.hashFinishes && digest == expected && env.end.Ok? && env.setBoot.Ok?
  }

  lemma AtFirst()
    ensures Possible([]) && Owned([]) && OwnChunks([]) && GuardsAt([], 0) == OtaLinks.Idle
  {
  }

  lemma NoChunks(chunks: seq<seq<byte>>)
    ensures Concat(chunks[..0]) == []
  {
  }

  lemma ChunksNext(chunks: seq<seq<byte>>, i: nat)
    requires i < |chunks|
    ensures Concat(chunks[..i + 1]) == Concat(chunks[..i]) + chunks[i]
    ensures |Concat(chunks[..i + 1])| <= |Concat(chunks)|
  {
    assert chunks[..i + 1][..i] == chunks[..i];
    assert chunks == chunks[..i + 1] + chunks[i + 1..];
    ConcatAppend(chunks[..i + 1], chunks[i + 1..]);
  }

  /** What a control write comes to. */
  function ControlMove(data: seq<byte>, ok: bool): Move {
    if data == [] then Keeps
    else if data[0] == CMD_START then (if ok then Opens(Ble) else Keeps)
    else if data[0] == CMD_ABORT then Closes(true, false)
    else if data[0] == CMD_END then Closes(ok, false)
    else Keeps
  }

  /** The flash and the digest both take the chunk. */
  predicate Stores(storing: Storing) {
    storing.write.Ok? && storing.hashUpdates
  }

  /** The bytes received with the first k chunks. */
  function SentBy(total: nat, sizes: seq<nat>, k: nat): (n: nat)
    requires k <= |sizes|
    ensures n <= total
  {
    if k == 0 then 0
    else
      var before := SentBy(total, sizes, k - 1);
      before + Min(Min(sizes[k - 1], MAX_CHUNK), total - before)
  }

  lemma NothingSent(total: nat, sizes: seq<nat>)
    ensures SentBy(total, sizes, 0) == 0
  {
  }

  lemma SentNext(total: nat, sizes: seq<nat>, k: nat)
    requires k < |sizes|
    ensures var before := SentBy(total, sizes, k);
      SentBy(total, sizes, k + 1) == before + Min(Min(sizes[k], MAX_CHUNK), total - before)
  {
  }

  lemma ArrivingLength(body: seq<byte>, remaining: nat, size: nat)
    requires 0 < remaining <= |body| && size > 0
    ensures |Arriving(Waiting(body, remaining, size), remaining)| == Min(Min(size, MAX_CHUNK), remaining)
  {
  }

  /** k chunks were stored one after the other, and their entries follow those of `before`. */
  ghost predicate Stored(before: seq<Entry>, after: seq<Entry>, storings: seq<Storing>, k: nat) {
    k <= |storings| && before <= after && |after| == |before| + k
    && (forall l :: |before| <= l < |after| ==> after[l].Accepted?)
    && (forall i :: 0 <= i < k ==> Stores(storings[i]))
  }

  lemma StoredNothing(log: seq<Entry>, storings: seq<Storing>)
    ensures Stored(log, log, storings, 0)
  {
  }

  lemma StoredNext(before: seq<Entry>, mid: seq<Entry>, after: seq<Entry>, storings: seq<Storing>, k: nat)
    requires Stored(before, mid, storings, k) && k < |storings| && Stores(storings[k])
    requires |after| == |mid| + 1 && mid <= after && after[|mid|].Accepted?
    ensures Stored(before, after, storings, k + 1)
  {
    hide Stores;
    forall l | |before| <= l < |after|
      ensures after[l].Accepted?
    {
      if l < |mid| {
        assert after[l] == mid[l];
      }
    }
  }

  /** An upload's end after its first `chunks` chunks: dropped at the next one, which is not stored, or, with the
      whole body stored, booted iff confirmed. */
  ghost predicate Ends(before: seq<Entry>, after: seq<Entry>, body: seq<byte>, sizes: seq<nat>, storings: seq<Storing>,
    chunks: nat, confirmed: bool)
  {
    chunks <= |sizes| && |after| > 0 && Stored(before, after[..|after| - 1], storings, chunks)
    && if SentBy(|body|, sizes, chunks) < |body| then
      chunks < |storings| && !Stores(storings[chunks]) && after[|after| - 1] == Dropped
    else
      after[|after| - 1] == if confirmed then Switched(body) else Dropped
  }

  lemma EndsExtends(before: seq<Entry>, after: seq<Entry>, body: seq<byte>, sizes: seq<nat>, storings: seq<Storing>,
    chunks: nat, confirmed: bool)
    requires Ends(before, after, body, sizes, storings, chunks, confirmed)
    ensures before <= after && |after| > |before|
  {
    assert before <= after[..|after| - 1];
  }

  /** With every chunk stored, the end is the boot switch exactly if digest and platform agree. */
  lemma EndsWell(before: seq<Entry>, after: seq<Entry>, body: seq<byte>, sizes: seq<nat>, storings: seq<Storing>,
    chunks: nat, digest: seq<byte>, expected: seq<byte>, closing: Closing)
    requires Ends(before, after, body, sizes, storings, chunks, Confirms(|body|, |body|, digest, expected, closing))
    ensures after != []
    ensures (forall i :: 0 <= i < |storings| ==> storings[i].write == Ok && storings[i].hashUpdates) ==>
      after[|after| - 1] == if digest == expected && closing == Closing(true, Ok, Ok) then Switched(body) else Dropped
  {
  }

  lemma StoredThenDropped(before: seq<Entry>, mid: seq<Entry>, storings: seq<Storing>, k: nat)
    requires Stored(before, mid, storings, k)
    ensures Stored(before, (mid + [Dropped])[..|mid|], storings, k)
  {
    assert (mid + [Dropped])[..|mid|] == mid;
  }

  lemma StoredThenLast(before: seq<Entry>, mid: seq<Entry>, after: seq<Entry>, storings: seq<Storing>, k: nat)
    requires Stored(before, mid, storings, k) && mid <= after && |after| == |mid| + 1
    ensures Stored(before, after[..|after| - 1], storings, k)
  {
    assert after[..|after| - 1] == mid;
  }

  class Updater {
    const hash: seq<byte> -> seq<byte>
    var active: bool
    var totalSize: nat
    var received: nat
    var expected: seq<byte>
    var hashed: seq<byte>
    var image: seq<byte>
    var bleActive: bool
    var posting: bool
    var remaining: nat
    ghost var log: seq<Entry>

    /** The session variables describe the update the log shows open. */
    ghost predicate Linked()
      reads this
    {
      Sound(hash, log)
      && (posting ==> remaining < WORD)
      && (active <==> Open(log).Some?)
      && (active ==> totalSize == Open(log).value.total && expected == Open(log).value.expected)
    }

    /** Flash, digest input and counter all hold exactly the accepted chunks. */
    ghost predicate Clean()
      reads this
    {
      Linked()
      && (active ==>
        image == hashed == Open(log).value.body
        && received == |image| % WORD
        && 0 < totalSize < WORD
        && received <= totalSize
        && (totalSize < WORD - MAX_CHUNK ==> |image| <= totalSize))
    }

    /** ota_core_init and ota_ble_init. */
    constructor (hash: seq<byte> -> seq<byte>)
      ensures Clean() && !active && !bleActive && !posting && log == []
      ensures this.hash == hash
    {
      this.hash := hash;
      active, totalSize, received, expected, hashed, image := false, 0, 0, [], [], [];
      bleActive, posting, remaining := false, false, 0;
      log := [];
    }

    ghost method Record(e: Entry)
      requires Sound(hash, log)
      requires e.Switched? ==> Justified(hash, Open(log), e.image)
      modifies this`log
      ensures log == old(log) + [e] && Sound(hash, log)
      ensures Open(log) == Open(old(log) + [e])
    {
      SoundNext(hash, log, e);
      log := log + [e];
    }

    /** ota_core_abort. */
    method Abort()
      requires Linked()
      modifies this`active, this`totalSize, this`received, this`expected, this`hashed, this`log
      ensures Clean() && !active && totalSize == received == 0
      ensures log == if old(active) then old(log) + [Dropped] else old(log)
    {
      hide Sound, Open;
      if active {
        OpenNext(log, Dropped);
        Record(Dropped);
      }
      active, totalSize, received, expected, hashed := false, 0, 0, [], [];
    }

    /** ota_core_start. */
    method Start(total: nat, digest: seq<byte>, env: Opening, ghost link: Link) returns (status: Status)
      requires Clean() && total < WORD
      modifies this`active, this`totalSize, this`received, this`expected, this`hashed, this`image, this`log
      ensures Clean()
      ensures status.Ok? <==> !old(active) && total > 0 && env.partition && env.begin.Ok? && env.hashStarts
      ensures status.Ok? ==> active && totalSize == total && received == 0 && expected == digest
      ensures status.Ok? ==> log == old(log) + [Begun(total, digest, link)]
      ensures old(active) ==> status == InvalidState && active && log == old(log)
      ensures !status.Ok? && !old(active) ==> !active && NothingMore(old(log), log)
    {
      hide Sound, Open;
      if active {
        return InvalidState;
      }
      if total == 0 {
        return InvalidArg;
      }
      if !env.partition {
        return NotFound;
      }
      if !env.begin.Ok? {
        return env.begin;
      }
      OpenNext(log, Begun(total, digest, link));
      Record(Begun(total, digest, link));
      active, totalSize, received, expected, image, hashed := true, total, 0, digest, [], [];
      if !env.hashStarts {
        Abort();
        return Fail;
      }
      return Ok;
    }

    /** ota_core_write. A failure may leave flash and digest apart, so every caller aborts on one. */
    method Write(data: seq<byte>, env: Storing, ghost link: Link) returns (status: Status)
      requires Clean() && |data| <= MAX_CHUNK
      modifies this`received, this`hashed, this`image, this`log
      ensures Linked()
      ensures status.Ok? ==> Clean()
      ensures status.Ok? <==>
        old(active) && (data == [] || StoreSucceeds(old(received), old(totalSize), data, env))
      ensures !old(active) ==> status == InvalidState
      ensures status.Ok? && data != [] ==>
        log == old(log) + [Accepted(data, link)] && received == (old(received) + |data|) % WORD
      ensures !status.Ok? || data == [] ==> log == old(log) && received == old(received)
    {
      hide Sound, Open, Justified, Refused;
      if !active {
        return InvalidState;
      }
      if |data| == 0 {
        return Ok;
      }
      if Refused(received, |data|, totalSize) {
        return InvalidSize;
      }
      if !env.write.Ok? {
        image := image + env.torn;
        return env.write;
      }
      CounterNext(|image|, received, |data|, totalSize);
      image := image + data;
      if !env.hashUpdates {
        return Fail;
      }
      hashed := hashed + data;
      OpenNext(log, Accepted(data, link));
      Record(Accepted(data, link));
      received := (received + |data|) % WORD;
      return Ok;
    }

    /** ota_core_finish: the one place that selects the new image for booting. */
    method Finish(env: Closing) returns (status: Status)
      requires Clean()
      modifies this`active, this`totalSize, this`received, this`expected, this`hashed, this`log
      ensures Clean() && !active
      ensures status.Ok? <==>
        old(active) && Confirms(old(received), old(totalSize), hash(old(hashed)), old(expected), env)
      ensures status.Ok? ==> log == old(log) + [Switched(old(image))]
      ensures !status.Ok? ==> log == if old(active) then old(log) + [Dropped] else old(log)
      ensures !old(active) ==> status == InvalidState
    {
      hide Sound, Open;
      if !active {
        return InvalidState;
      }
      if received != totalSize {
        Abort();
        return InvalidSize;
      }
      if !env.hashFinishes {
        Abort();
        return Fail;
      }
      if hash(hashed) != expected {
        Abort();
        return InvalidCrc;
      }
      if !env.end.Ok? {
        Abort();
        return env.end;
      }
      if !env.setBoot.Ok? {
        Abort();
        return env.setBoot;
      }
      OpenNext(log, Switched(image));
      Record(Switched(image));
      active := false;
      return Ok;
    }

    /** ota_ble_start. */
    method BleStart(data: seq<byte>, opening: Opening) returns (ok: bool)
      requires Clean()
      modifies this
      ensures Clean()
      ensures posting == old(posting) && remaining == old(remaining)
      ensures ok <==> !old(active) && Startable(data, opening)
      ensures ok ==> active && bleActive && received == 0 && totalSize == LittleEndian(data[1..5])
      ensures ok ==> log == old(log) + [Begun(LittleEndian(data[1..5]), data[5..37], Ble)]
      ensures !ok ==> bleActive == old(bleActive) && active == old(active)
      ensures !ok ==> NothingMore(old(log), log)
    {
      hide Sound, Open;
      if |data| < 1 + 4 + SHA_SIZE || active {
        return false;
      }
      var total := LittleEndian(data[1..5]);
      if total == 0 {
        return false;
      }
      var status := Start(total, data[5..37], opening, Ble);
      if !status.Ok? {
        return false;
      }
      bleActive := true;
      return true;
    }

    /** ota_ble_end: it asks nobody who began the update, and a failure leaves the BLE flag as it was. */
    method BleEnd(closing: Closing) returns (ok: bool)
      requires Clean()
      modifies this
      ensures Clean() && !active
      ensures posting == old(posting) && remaining == old(remaining)
      ensures bleActive == (old(bleActive) && !ok)
      ensures ok <==>
        old(active) && Confirms(old(received), old(totalSize), hash(old(hashed)), old(expected), closing)
      ensures log == old(log) + if ok then [Switched(old(image))] else if old(active) then [Dropped] else []
    {
      hide Sound, Open;
      if !active {
        return false;
      }
      var status := Finish(closing);
      if !status.Ok? {
        return false;
      }
      bleActive := false;
      return true;
    }

    /** ota_ble_handle_control_write; `apStarts` is whether the access point comes up when asked to. */
    method ControlWrite(data: seq<byte>, opening: Opening, closing: Closing, apStarts: bool) returns (ok: bool)
      requires Clean()
      modifies this
      ensures Clean()
      ensures posting == old(posting) && remaining == old(remaining)
      ensures (exists i :: |old(log)| <= i < |log| && log[i].Switched?) ==>
        data != [] && data[0] == CMD_END && ok && !bleActive && log == old(log) + [Switched(old(image))]
      ensures data != [] && data[0] == CMD_START ==> (ok <==> !old(active) && Startable(data, opening))
      ensures data != [] && data[0] == CMD_START && ok ==> received == 0 && totalSize == LittleEndian(data[1..5])
      ensures data != [] && data[0] == CMD_START && ok ==>
        active && bleActive && log == old(log) + [Begun(LittleEndian(data[1..5]), data[5..37], Ble)]
      ensures data != [] && data[0] == CMD_START && !ok ==>
        active == old(active) && bleActive == old(bleActive) && NothingMore(old(log), log)
      ensures data != [] && data[0] == CMD_END ==> !active && bleActive == (old(bleActive) && !ok)
      ensures data != [] && data[0] == CMD_END ==>
        (ok <==> old(active) && Confirms(old(received), old(totalSize), hash(old(hashed)), old(expected), closing))
      ensures data != [] && data[0] == CMD_END ==>
        log == old(log) + if ok then [Switched(old(image))] else if old(active) then [Dropped] else []
      ensures data != [] && data[0] == CMD_ABORT ==>
        ok && !active && !bleActive && log == old(log) + if old(active) then [Dropped] else []
      ensures data == [] || data[0] !in {CMD_START, CMD_ABORT, CMD_END} ==>
        active == old(active) && bleActive == old(bleActive) && log == old(log)
      ensures data == [] || data[0] !in {CMD_START, CMD_ABORT, CMD_END} ==>
        ok == (data == [] || data[0] == CMD_WIFI_STOP || (data[0] == CMD_WIFI_START && apStarts))
    {
      hide Sound, Open;
      if |data| < 1 {
        return true;
      }
      if data[0] == CMD_START {
        ok := BleStart(data, opening);
      } else if data[0] == CMD_ABORT {
        Abort();
        bleActive := false;
        return true;
      } else if data[0] == CMD_END {
        ok := BleEnd(closing);
      } else if data[0] == CMD_WIFI_START {
        return apStarts;
      } else if data[0] == CMD_WIFI_STOP {
        return true;
      } else {
        return false;
      }
    }

    /** ota_ble_handle_data_write. */
    method DataWrite(data: seq<byte>, env: Storing) returns (ok: bool)
      requires Clean() && |data| <= BLE_CHUNK
      modifies this
      ensures Clean()
      ensures posting == old(posting) && remaining == old(remaining)
      ensures !old(active) || !old(bleActive) ==>
        !ok && log == old(log) && active == old(active) && bleActive == old(bleActive)
      ensures ok <==>
        old(active) && old(bleActive)
        && (data == [] || StoreSucceeds(old(received), old(totalSize), data, env))
      ensures ok && data != [] ==> active && log == old(log) + [Accepted(data, Ble)]
      ensures ok ==> bleActive == old(bleActive) && active == old(active) && (data == [] ==> log == old(log))
      ensures !ok && old(active) && old(bleActive) ==> !active && !bleActive && log == old(log) + [Dropped]
    {
      if !active || !bleActive {
        return false;
      }
      if |data| == 0 {
        return true;
      }
      var status := Write(data, env, Ble);
      if !status.Ok? {
        Abort();
        bleActive := false;
        return false;
      }
      return true;
    }

    /** ota_ble_on_disconnect. */
    method OnDisconnect()
      requires Clean()
      modifies this
      ensures Clean() && !bleActive
      ensures posting == old(posting) && remaining == old(remaining)
      ensures old(bleActive) ==> !active
      ensures log == if old(bleActive) && old(active) then old(log) + [Dropped] else old(log)
    {
      if !bleActive {
        return;
      }
      Abort();
      bleActive := false;
    }

    /** ota_post_handler up to its receive loop. With the lookup's documented results none ever starts. */
    method PostBegin(contentLength: nat, lookup: int, text: string, opening: Opening)
      requires Clean() && !posting && |text| == HEADER_BUFFER
      modifies this
      ensures Clean()
      ensures bleActive == old(bleActive)
      ensures posting ==> active && remaining == contentLength == totalSize && received == 0
      ensures posting ==> HexOf(text[..2 * SHA_SIZE], expected)
      ensures posting ==> !old(active) && log == old(log) + [Begun(contentLength, expected, Http)]
      ensures !posting ==> active == old(active) && NothingMore(old(log), log)
      ensures posting <==> !old(active) && Uploadable(contentLength, lookup, text, opening)
      ensures IsEspErr(lookup) ==> !posting && log == old(log)
    {
      hide Sound, Open, IsHex, HexOf;
      if contentLength <= 0 || contentLength >= WORD || active || lookup <= 0 {
        return;
      }
      if lookup != 2 * SHA_SIZE {
        return;
      }
      var digest := ParseSha256Hex(text[..lookup]);
      if digest.None? {
        return;
      }
      var status := Start(contentLength, digest.value, opening, Http);
      if !status.Ok? {
        return;
      }
      posting, remaining := true, contentLength;
    }

    /** One turn of the receive loop, or the finish after it. An empty chunk is a failed receive. */
    method PostStep(chunk: seq<byte>, storing: Storing, closing: Closing)
      requires Clean() && posting
      modifies this
      ensures Clean()
      ensures bleActive == old(bleActive)
      ensures posting <==> old(remaining) > 0 && old(active) && StoreSucceeds(old(received), old(totalSize),
        Arriving(chunk, old(remaining)), storing)
      ensures posting ==>
        var read := Arriving(chunk, old(remaining));
        active && totalSize == old(totalSize) && expected == old(expected)
        && remaining == old(remaining) - |read| && log == old(log) + [Accepted(read, Http)]
        && received == (old(received) + |read|) % WORD
      ensures !posting ==>
        !active && log == old(log) +
          if !old(active) then []
          else if old(remaining) == 0 && Confirms(old(received), old(totalSize), hash(old(hashed)), old(expected), closing)
            then [Switched(old(image))]
          else [Dropped]
    {
      hide Sound, Open;
      if remaining > 0 {
        var read := Arriving(chunk, remaining);
        if |read| == 0 {
          Abort();
          posting := false;
          return;
        }
        var status := Write(read, storing, Http);
        if !status.Ok? {
          Abort();
          posting := false;
          return;
        }
        remaining := remaining - |read|;
      } else {
        var _ := Finish(closing);
        posting := false;
      }
    }

    /** An upload nobody interferes with: the open update holds the body received so far. */
    ghost predicate Uploading(body: seq<byte>, digest: seq<byte>)
      reads this
    {
      posting && active && 0 < totalSize == |body| < WORD && expected == digest
      && remaining <= |body| && received == |body| - remaining
      && Open(log).Some? && Open(log).value.body == body[..received]
    }

    method PostChunk(body: seq<byte>, size: nat, storing: Storing, closing: Closing)
      requires Clean() && Uploading(body, expected) && remaining > 0 && size > 0
      modifies this
      ensures Clean()
      ensures posting <==> Stores(storing)
      ensures posting ==> Uploading(body, old(expected))
      ensures posting ==> remaining == old(remaining) - Min(Min(size, MAX_CHUNK), old(remaining))
      ensures posting ==> |log| == |old(log)| + 1 && old(log) <= log && log[|old(log)|].Accepted?
      ensures !posting ==> !active && log == old(log) + [Dropped]
    {
      hide Sound, Open, Justified, StoreSucceeds, Arriving, Confirms;
      ghost var before, from := log, received;
      var waiting := Waiting(body, remaining, size);
      ghost var read := Arriving(waiting, remaining);
      ArrivingLength(body, remaining, size);
      UndisturbedIsStored(received, totalSize, read, storing);
      PostStep(waiting, storing, closing);
      OpenNext(before, Accepted(read, Http));
      assert body[from..][..|read|] == read;
      assert body[..from] + read == body[..from + |read|];
    }

    /** ota_post_handler's loop left undisturbed: however recv splits the body, and whatever each store answers, the
        upload ends at the first chunk that is not stored, or boots the whole body iff it is confirmed. */
    method PostLoop(body: seq<byte>, sizes: seq<nat>, storings: seq<Storing>, closing: Closing) returns (chunks: nat)
      requires Clean() && Uploading(body, expected) && remaining == |body|
      requires |sizes| >= |body| && forall i :: 0 <= i < |sizes| ==> sizes[i] > 0
      requires |storings| >= |body|
      modifies this
      ensures Clean() && !posting && !active
      ensures Ends(old(log), log, body, sizes, storings, chunks,
        Confirms(|body|, |body|, hash(body), old(expected), closing))
    {
      hide Sound, Open, Arriving, StoreSucceeds, SentBy, Stores, Stored;
      chunks := 0;
      NothingSent(|body|, sizes);
      StoredNothing(log, storings);
      while remaining > 0
        invariant Clean() && Uploading(body, old(expected))
        invariant chunks <= |body| - remaining && remaining == |body| - SentBy(|body|, sizes, chunks)
        invariant Stored(old(log), log, storings, chunks)
        decreases remaining
      {
        ghost var was := log;
        PostChunk(body, sizes[chunks], storings[chunks], closing);
        if !posting {
          StoredThenDropped(old(log), was, storings, chunks);
          return;
        }
        SentNext(|body|, sizes, chunks);
        StoredNext(old(log), was, log, storings, chunks);
        chunks := chunks + 1;
      }
      assert body[..received] == body;
      ghost var was := log;
      PostStep([], storings[0], closing);
      StoredThenLast(old(log), was, log, storings, chunks);
    }

    /** ota_post_handler alone, from the request on: refused, or run to its end. */
    method PostHandler(body: seq<byte>, lookup: int, text: string, opening: Opening, sizes: seq<nat>,
      storings: seq<Storing>, closing: Closing) returns (started: bool, digest: seq<byte>, chunks: nat)
      requires Clean() && !posting && !active && |body| < WORD && |text| == HEADER_BUFFER
      requires |sizes| >= |body| && forall i :: 0 <= i < |sizes| ==> sizes[i] > 0
      requires |storings| >= |body|
      modifies this
      ensures Clean() && !posting && !active
      ensures started <==> 0 < |body| && lookup == 64 && IsHex(text[..64]) && opening == Opening(true, Ok, true)
      ensures started ==> log != []
      ensures started && (forall i :: 0 <= i < |storings| ==> storings[i].write == Ok && storings[i].hashUpdates) ==>
        log[|log| - 1] ==
          if hash(body) == digest && closing == Closing(true, Ok, Ok) then Switched(body) else Dropped
      ensures started ==> HexOf(text[..2 * SHA_SIZE], digest) && old(log) <= log && |log| > |old(log)|
      ensures started ==> log[|old(log)|] == Begun(|body|, digest, Http)
      ensures started ==>
        Ends(log[..|old(log)| + 1], log, body, sizes, storings, chunks,
          Confirms(|body|, |body|, hash(body), digest, closing))
      ensures !started ==> NothingMore(old(log), log)
      ensures IsEspErr(lookup) ==> !started && log == old(log)
    {
      hide Sound, Open, HexOf, IsHex, Stored, SentBy, Ends, Confirms;
      chunks := 0;
      ghost var before := log;
      PostBegin(|body|, lookup, text, opening);
      started, digest := posting, expected;
      if started {
        OpenNext(before, Begun(|body|, expected, Http));
        ghost var begun := log;
        chunks := PostLoop(body, sizes, storings, closing);
        EndsExtends(begun, log, body, sizes, storings, chunks,
          Confirms(|body|, |body|, hash(body), digest, closing));
        assert log[..|begun|] == begun;
        EndsWell(begun, log, body, sizes, storings, chunks, hash(body), digest, closing);
      }
    }

    // ----- An undisturbed BLE update -----

    /** START, the data writes and END, every store succeeding: the device boots exactly the bytes written, and only if
        they are as many as declared, of the declared digest, and the platform agrees. */
    method BleUpdate(start: seq<byte>, chunks: seq<seq<byte>>, storings: seq<Storing>, closing: Closing)
      requires Clean() && !active
      requires |start| >= 37 && start[0] == 0x01 && LittleEndian(start[1..5]) > 0
      requires forall i :: 0 <= i < |chunks| ==> 0 < |chunks[i]| <= BLE_CHUNK
      requires |Concat(chunks)| < WORD && |storings| == |chunks|
      requires forall i :: 0 <= i < |storings| ==> storings[i].write == Ok && storings[i].hashUpdates
      modifies this
      ensures Clean() && !active && log != []
      ensures log[|log| - 1] ==
        if |Concat(chunks)| == LittleEndian(start[1..5]) && hash(Concat(chunks)) == start[5..37]
          && closing == Closing(true, Ok, Ok) then Switched(Concat(chunks)) else Dropped
    {
      hide Sound, Open, Concat, LittleEndian;
      ghost var before := log;
      var ok := ControlWrite(start, Opening(true, Ok, true), closing, true);
      OpenNext(before, Begun(LittleEndian(start[1..5]), start[5..37], Ble));
      NoChunks(chunks);
      for i := 0 to |chunks|
        invariant Clean() && log != []
        invariant |Concat(chunks[..i])| <= |Concat(chunks)|
        invariant active ==> Writing(Concat(chunks[..i]), LittleEndian(start[1..5]), start[5..37])
        invariant !active ==> log[|log| - 1] == Dropped && |Concat(chunks[..i])| > LittleEndian(start[1..5])
      {
        ChunksNext(chunks, i);
        BleChunk(chunks[i], storings[i], Concat(chunks[..i]), LittleEndian(start[1..5]), start[5..37]);
      }
      assert chunks[..|chunks|] == chunks;
      ok := ControlWrite([CMD_END], Opening(true, Ok, true), closing, true);
    }

    /** One data write of it: stored if it fits the declared length, the end of the update otherwise. */
    method BleChunk(chunk: seq<byte>, storing: Storing, ghost body: seq<byte>, ghost total: nat, ghost digest: seq<byte>)
      requires Clean() && 0 < |chunk| <= BLE_CHUNK && |body + chunk| < WORD
      requires storing.write == Ok && storing.hashUpdates && log != []
      requires active ==> Writing(body, total, digest)
      requires !active ==> log[|log| - 1] == Dropped && |body| > total
      modifies this
      ensures Clean() && log != []
      ensures active ==> Writing(body + chunk, total, digest)
      ensures !active ==> log[|log| - 1] == Dropped && |body + chunk| > total
    {
      hide Sound, Open;
      ghost var was := log;
      var _ := DataWrite(chunk, storing);
      OpenNext(was, Accepted(chunk, Ble));
    }

    /** A BLE update nobody interferes with: it holds the bytes written so far. */
    ghost predicate Writing(body: seq<byte>, total: nat, digest: seq<byte>)
      reads this
      requires Linked()
    {
      active && bleActive && totalSize == total && expected == digest && received == |body| <= total
      && Open(log).Some? && Open(log).value.body == body
    }

    // ----- Any run of the callbacks -----

    ghost function GuardState(): Guards
      reads this
      requires Linked()
    {
      Guards(if active then Some(Open(log).value.link) else None, bleActive, posting)
    }

    /** One callback, or one turn of the upload, and what it comes to. A chunk longer than the BLE buffer does
        not occur. */
    method Perform(e: Event) returns (ghost m: Move)
      requires Clean() && (e.Post? ==> |e.text| == HEADER_BUFFER)
      modifies this
      ensures Clean()
      ensures Enabled(old(GuardState()), m) && GuardState() == Next(old(GuardState()), m)
      ensures Writes(old(log), log, m)
      ensures m == Opens(Http) ==> e.Post? && !IsEspErr(e.lookup)
      ensures e.Control? && Startable(e.data, e.opening) && e.data[0] == CMD_START && !old(active) ==>
        active && bleActive && log == old(log) + [Begun(LittleEndian(e.data[1..5]), e.data[5..37], Ble)]
      ensures e.Control? && e.data != [] && e.data[0] in {CMD_ABORT, CMD_END} ==> !active
      ensures e.Control? && e.data != [] && e.data[0] == CMD_END && old(active) ==>
        log == old(log) + [
          if Confirms(old(received), old(totalSize), hash(old(hashed)), old(expected), e.closing)
          then Switched(old(image)) else Dropped]
      ensures e.Data? && 0 < |e.data| <= BLE_CHUNK && old(active) && old(bleActive) ==>
        log == old(log) + [if active then Accepted(e.data, Ble) else Dropped]
        && (active <==> StoreSucceeds(old(received), old(totalSize), e.data, e.storing))
      ensures e.Disconnect? ==> !bleActive && (old(bleActive) ==> !active)
      ensures e.Post? && !old(posting) ==>
        (posting <==> !old(active) && Uploadable(e.contentLength, e.lookup, e.text, e.opening))
      ensures e.Receive? && old(posting) && posting ==>
        log == old(log) + [Accepted(Arriving(e.chunk, old(remaining)), Http)]
      ensures e.Receive? && old(posting) && !posting && old(active) ==>
        |log| == |old(log)| + 1 && (log[|old(log)|].Switched? || log[|old(log)|].Dropped?)
    {
      hide Sound, Open, Arriving, StoreSucceeds, Confirms, Uploadable;
      ghost var was := log;
      match e {
        case Control(data, opening, closing, apStarts) =>
          var ok := ControlWrite(data, opening, closing, apStarts);
          m := ControlMove(data, ok);
        case Data(data, storing) =>
          m := Keeps;
          if |data| <= BLE_CHUNK {
            ghost var looks := active && bleActive && data != [];
            var ok := DataWrite(data, storing);
            m := if !looks then Keeps else if ok then Takes(Ble) else Closes(true, false);
          }
        case Disconnect =>
          m := if bleActive then Closes(true, false) else Keeps;
          OnDisconnect();
        case Post(contentLength, lookup, text, opening) =>
          m := Keeps;
          if !posting {
            PostBegin(contentLength, lookup, text, opening);
            m := if posting then Opens(Http) else Keeps;
          }
        case Receive(chunk, storing, closing) =>
          m := Keeps;
          if posting {
            PostStep(chunk, storing, closing);
            m := if posting then Takes(Http) else Closes(false, true);
          }
      }
      LinkAfter(was, log);
    }

    /** Whatever the order of the callbacks and of the upload's turns: every boot switch is justified, and each
        chunk is in an update of its own transport exactly if no update begun under the other's guard gets one
        of the other's. */
    method PerformAll(events: seq<Event>) returns (ghost moves: seq<Move>)
      requires Clean() && log == [] && GuardState() == OtaLinks.Idle
      requires forall i :: 0 <= i < |events| && events[i].Post? ==> |events[i].text| == HEADER_BUFFER
      modifies this
      ensures Clean() && Sound(hash, log)
      ensures |moves| == |events| && Possible(moves) && GuardState() == GuardsAt(moves, |moves|)
      ensures OwnChunks(log) <==> Owned(moves)
      ensures OwnChunks(log) <==> forall i: nat, j: nat :: !Mixes(moves, i, j)
      ensures (forall i :: 0 <= i < |events| && events[i].Post? ==> IsEspErr(events[i].lookup)) ==> OwnChunks(log)
    {
      hide Sound, Open, Writes, Mixes, Possible, Owned, Next, OwnChunks;
      AtFirst();
      moves := [];
      for i := 0 to |events|
        invariant Clean() && |moves| == i && Possible(moves) && GuardState() == GuardsAt(moves, |moves|)
        invariant OwnChunks(log) <==> Owned(moves)
        invariant forall k :: 0 <= k < i && moves[k] == Opens(Http) ==> events[k].Post? && !IsEspErr(events[k].lookup)
      {
        ghost var was := log;
        ghost var m := Perform(events[i]);
        PossibleNext(moves, m);
        OwnedNext(moves, m);
        OwnChunksNext(was, log, m);
        moves := moves + [m];
      }
      OwnedIff(moves);
      if forall i :: 0 <= i < |events| && events[i].Post? ==> IsEspErr(events[i].lookup) {
        NoUploadIsOwned(moves);
      }
    }
  }

  // ----- Both mixtures happen -----

  const AllWell := Opening(true, Ok, true)
  const GoodStore := Storing(Ok, true, [])
  const Confirmed := Closing(true, Ok, Ok)

  /** A START command for 100 bytes. */
  function StartHundred(): (data: seq<byte>)
    ensures |data| == 37
  {
    [CMD_START, 0x64, 0x00, 0x00, 0x00] + seq(SHA_SIZE, _ => 0x00)
  }

  lemma StartHundredStarts()
    ensures StartHundred()[0] == CMD_START && LittleEndian(StartHundred()[1..5]) == 100
  {
    hide LittleEndian;
    HundredIs(StartHundred());
  }

  lemma HundredIs(data: seq<byte>)
    requires |data| >= 5 && data[1] == 0x64 && data[2] == data[3] == data[4] == 0x00
    ensures LittleEndian(data[1..5]) == 100
  {
    HundredAndZero();
    hide Value;
    assert data[1..5] == [0x64, 0x00, 0x00, 0x00];
  }

  /** START, an END that fails for want of data, an upload, and one BLE chunk: it goes into the upload. */
  method FailedEndLetsBleIn(hash: seq<byte> -> seq<byte>, chunk: seq<byte>) returns (u: Updater)
    requires 0 < |chunk| <= 100
    ensures fresh(u) && u.Clean() && !OwnChunks(u.log)
    ensures |u.log| == 4 && u.log[2].Begun? && u.log[2].link == Http && u.log[3] == Accepted(chunk, Ble)
  {
    hide Sound, Open, StartHundred, LittleEndian;
    StartHundredStarts();
    u := new Updater(hash);
    var text := seq(HEADER_BUFFER, _ => '0');
    var ok := u.ControlWrite(StartHundred(), AllWell, Confirmed, true);
    ok := u.ControlWrite([CMD_END], AllWell, Confirmed, true);
    u.PostBegin(100, 64, text, AllWell);
    ghost var was := u.log;
    ok := u.DataWrite(chunk, GoodStore);
    MixedLast(was, u.log);
  }

  /** An upload, a BLE ABORT and a BLE START, and one turn of the upload: its chunk goes into BLE's update. */
  method RestartLetsHttpIn(hash: seq<byte> -> seq<byte>, chunk: seq<byte>) returns (u: Updater)
    requires 0 < |chunk| <= 100
    ensures fresh(u) && u.Clean() && !OwnChunks(u.log) && u.posting
    ensures |u.log| == 4 && u.log[2].Begun? && u.log[2].link == Ble && u.log[3] == Accepted(chunk, Http)
  {
    hide Sound, Open, StartHundred, LittleEndian;
    StartHundredStarts();
    u := new Updater(hash);
    var text := seq(HEADER_BUFFER, _ => '0');
    u.PostBegin(100, 64, text, AllWell);
    var ok := u.ControlWrite([CMD_ABORT], AllWell, Confirmed, true);
    ok := u.ControlWrite(StartHundred(), AllWell, Confirmed, true);
    ghost var was := u.log;
    u.PostStep(chunk, GoodStore, Confirmed);
    MixedLast(was, u.log);
  }

  lemma MixedLast(before: seq<Entry>, after: seq<Entry>)
    requires before != [] && before[|before| - 1].Begun?
    requires |after| == |before| + 1 && before <= after
    requires after[|before|].Accepted? && after[|before|].link != before[|before| - 1].link
    ensures !OwnChunks(after)
  {
    assert after[..|before|] == before;
    assert ForeignChunk(after, |before|);
  }
}
