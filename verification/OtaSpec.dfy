/** What an update history must look like: the entries an observer of the flash and boot selection sees. */
module OtaSpec {
  import opened Bytes
  import opened Wrappers
  import opened OtaLinks

  const WORD := 0x1_0000_0000

  /** The largest buffer either transport hands to ota_core_write: the HTTP handler's. */
  const MAX_CHUNK := 2048

  datatype Entry =
    | Begun(total: nat, expected: seq<byte>, link: Link)
    | Accepted(chunk: seq<byte>, link: Link)
    | Dropped
    | Switched(image: seq<byte>)

  /** The open update: what it declared, the transport that began it, and the chunks accepted since, joined. */
  datatype Update = Update(total: nat, expected: seq<byte>, link: Link, body: seq<byte>)

  function Open(log: seq<Entry>): Option<Update> {
    if log == [] then None
    else
      var before := Open(log[..|log| - 1]);
      match log[|log| - 1]
      case Begun(total, expected, link) => Some(Update(total, expected, link, []))
      case Accepted(chunk, _) =>
        (match before
         case None => None
         case Some(u) => Some(u.(body := u.body + chunk)))
      case Dropped => None
      case Switched(_) => None
  }

  /** What may be booted: the accepted chunks of the open update, of the declared length and digest. */
  predicate Justified(hash: seq<byte> -> seq<byte>, before: Option<Update>, image: seq<byte>) {
    before.Some?
    && image == before.value.body
    && hash(image) == before.value.expected
    && |image| % WORD == before.value.total
    && (before.value.total < WORD - MAX_CHUNK ==> |image| == before.value.total)
  }

  predicate Sound(hash: seq<byte> -> seq<byte>, log: seq<Entry>) {
    forall i :: 0 <= i < |log| && log[i].Switched? ==> Justified(hash, Open(log[..i]), log[i].image)
  }

  lemma SoundNext(hash: seq<byte> -> seq<byte>, log: seq<Entry>, e: Entry)
    requires Sound(hash, log)
    requires e.Switched? ==> Justified(hash, Open(log), e.image)
    ensures Sound(hash, log + [e])
  {
    var next := log + [e];
    forall i | 0 <= i < |next| && next[i].Switched?
      ensures Justified(hash, Open(next[..i]), next[i].image)
    {
      if i < |log| {
        assert next[..i] == log[..i];
      } else {
        assert next[..i] == log;
      }
    }
  }

  lemma OpenNext(log: seq<Entry>, e: Entry)
    ensures Open(log + [e]) ==
      match e
      case Begun(total, expected, link) => Some(Update(total, expected, link, []))
      case Accepted(chunk, _) =>
        if Open(log).None? then None else Some(Open(log).value.(body := Open(log).value.body + chunk))
      case Dropped => None
      case Switched(_) => None
  {
    assert (log + [e])[..|log|] == log;
  }

  /** u was begun at index i, and everything since is an accepted chunk. */
  predicate BegunAt(log: seq<Entry>, i: int, u: Update) {
    0 <= i < |log| && log[i].Begun?
    && u == Update(log[i].total, log[i].expected, log[i].link, Chunks(log[i + 1..]))
    && (forall j :: i < j < |log| ==> log[j].Accepted?)
  }

  /** The open update, read off the log by its own indices. */
  lemma {:induction false} OpenIsLastBegun(log: seq<Entry>)
    requires Open(log).Some?
    ensures exists i :: BegunAt(log, i, Open(log).value)
  {
    var n := |log| - 1;
    if log[n].Begun? {
      assert log[n + 1..] == [];
      assert BegunAt(log, n, Open(log).value);
    } else {
      OpenIsLastBegun(log[..n]);
      var i :| BegunAt(log[..n], i, Open(log[..n]).value);
      var rest := log[i + 1..];
      assert rest[..|rest| - 1] == log[..n][i + 1..];
      assert forall j :: i < j < n ==> log[j] == log[..n][j];
      assert BegunAt(log, i, Open(log).value);
    }
  }

  /** The accepted chunks of a stretch of the log, in order. */
  function Chunks(log: seq<Entry>): seq<byte> {
    if log == [] then []
    else
      var before := Chunks(log[..|log| - 1]);
      if log[|log| - 1].Accepted? then before + log[|log| - 1].chunk else before
  }

  /** What a booted image is, in terms of the log alone: an update's chunks, whole, undisturbed and digested. */
  lemma BootedImage(hash: seq<byte> -> seq<byte>, log: seq<Entry>, k: nat)
    requires Sound(hash, log) && k < |log| && log[k].Switched?
    ensures exists i :: 0 <= i < k && log[i].Begun? && BootedFrom(hash, log, i, k)
  {
    assert Justified(hash, Open(log[..k]), log[k].image);
    OpenIsLastBegun(log[..k]);
    var i :| BegunAt(log[..k], i, Open(log[..k]).value);
    assert log[..k][i + 1..] == log[i + 1..k];
    assert forall j :: i < j < k ==> log[..k][j] == log[j];
    assert BootedFrom(hash, log, i, k);
  }

  predicate BootedFrom(hash: seq<byte> -> seq<byte>, log: seq<Entry>, i: nat, k: nat)
    requires i < k < |log| && log[i].Begun? && log[k].Switched?
  {
    log[k].image == Chunks(log[i + 1..k])
    && (forall j :: i < j < k ==> log[j].Accepted?)
    && hash(log[k].image) == log[i].expected
    && (log[i].total < WORD - MAX_CHUNK ==> |log[k].image| == log[i].total)
  }

  // ----- Whose chunks -----

  /** Entry i is a chunk of one transport in an update the other began. */
  predicate ForeignChunk(log: seq<Entry>, i: nat)
    requires i < |log|
  {
    log[i].Accepted? && Open(log[..i]).Some? && Open(log[..i]).value.link != log[i].link
  }

  ghost predicate OwnChunks(log: seq<Entry>) {
    forall i: nat :: i < |log| ==> !ForeignChunk(log, i)
  }

  /** What a callback that comes to move m writes: one accepted chunk, or no chunk at all. */
  predicate Writes(before: seq<Entry>, after: seq<Entry>, m: Move) {
    before <= after
    && if m.Takes? then
      |after| == |before| + 1 && after[|before|].Accepted? && after[|before|].link == m.link
    else
      forall i :: |before| <= i < |after| ==> !after[i].Accepted?
  }

  lemma OwnChunksNext(before: seq<Entry>, after: seq<Entry>, m: Move)
    requires Writes(before, after, m) && (m.Takes? ==> Open(before).Some?)
    ensures OwnChunks(after) <==> OwnChunks(before) && !(m.Takes? && Open(before).value.link == Other(m.link))
  {
    hide Open;
    var n := |before|;
    forall i: nat | i <= n
      ensures after[..i] == before[..i]
    {
    }
    assert before[..n] == before;
    forall i: nat | i < n
      ensures ForeignChunk(after, i) == ForeignChunk(before, i)
    {
    }
    if m.Takes? {
      assert ForeignChunk(after, n) <==> Open(before).value.link == Other(m.link);
    }
  }

  // ----- The size guard -----

  /** `received + len > total` in 32-bit arithmetic, ota_core.c's size guard. */
  predicate Refused(received: nat, len: nat, total: nat) {
    (received + len % WORD) % WORD > total
  }

  /** The guard means what it says exactly when the true sum does not pass 2^32 inside the total. */
  lemma GuardIff(received: nat, len: nat, total: nat)
    requires received <= total < WORD && len < WORD
    ensures (Refused(received, len, total) <==> received + len > total)
      <==> (received + len < WORD || received + len - WORD > total)
  {
  }

  /** No chunk of either transport can wrap the guard of an update this small. */
  lemma GuardExact(received: nat, len: nat, total: nat)
    requires received <= total < WORD - MAX_CHUNK && len <= MAX_CHUNK
    ensures Refused(received, len, total) <==> received + len > total
  {
  }

  /** What an accepted chunk does to a counter that holds `stored` modulo 2^32. */
  lemma CounterNext(stored: nat, received: nat, len: nat, total: nat)
    requires received == stored % WORD && received <= total < WORD && len <= MAX_CHUNK && !Refused(received, len, total)
    ensures (received + len) % WORD == (stored + len) % WORD <= total
    ensures total < WORD - MAX_CHUNK && stored <= total ==> stored + len <= total
  {
    if total < WORD - MAX_CHUNK && stored <= total {
      GuardExact(received, len, total);
    }
  }

  /** An update of 2^32 - 1 declared bytes takes a chunk past its end. */
  lemma GuardWraps()
    ensures !Refused(WORD - 2048, 2048, WORD - 1) && (WORD - 2048) + 2048 > WORD - 1
  {
  }
}
