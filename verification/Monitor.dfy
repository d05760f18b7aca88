/** The task that starts the replay timer and decides, from polled fill levels, when a transmission is over. */
module Monitor {
  import opened Wrappers

  const TIMEOUT_MS := 2000
  const IDLE_EXIT_MS := 100
  const START_FILL_BYTES := 250
  const CHECK_INTERVAL_MS := 10

  datatype Outcome =
    | Filling
    | Transmitting(startedAt: nat)
    | Drained(startedAt: nat, at: nat)
    | TimedOut(startedAt: nat, at: nat)

  /** Poll s is the first to see enough bytes, or the first after the longest wait. */
  predicate StartsAt(levels: seq<nat>, s: nat) {
    s < |levels|
    && (levels[s] >= START_FILL_BYTES || s * CHECK_INTERVAL_MS >= TIMEOUT_MS)
    && forall k :: 0 <= k < s ==> levels[k] < START_FILL_BYTES && k * CHECK_INTERVAL_MS < TIMEOUT_MS
  }

  /** Polls i + 1 to j all saw an empty buffer. */
  predicate EmptySince(levels: seq<nat>, i: nat, j: nat) {
    i <= j < |levels| && forall k :: i < k <= j ==> levels[k] == 0
  }

  /** Polls i to j all saw the same level. */
  predicate SameSince(levels: seq<nat>, i: nat, j: nat) {
    i <= j < |levels| && forall k :: i <= k <= j ==> levels[k] == levels[i]
  }

  /** The buffer was empty at as many polls after the start as make up the idle time. */
  predicate Idle(levels: seq<nat>, s: nat, j: nat) {
    j >= s + IDLE_EXIT_MS / CHECK_INTERVAL_MS && EmptySince(levels, j - IDLE_EXIT_MS / CHECK_INTERVAL_MS, j)
  }

  /** The level did not move, from the start at the earliest, for the whole timeout. */
  predicate Stuck(levels: seq<nat>, s: nat, j: nat) {
    j >= s + TIMEOUT_MS / CHECK_INTERVAL_MS && SameSince(levels, j - TIMEOUT_MS / CHECK_INTERVAL_MS, j)
  }

  /** Idle: at least 10 polls since the start, and the last 10 saw nothing. Stuck: 200 since, and the last 201 agree. */
  lemma IdleAndStuckAre(levels: seq<nat>, s: nat, j: nat)
    requires s <= j < |levels|
    ensures Idle(levels, s, j) <==> j >= s + 10 && forall k :: j - 10 < k <= j ==> levels[k] == 0
    ensures Stuck(levels, s, j) <==> j >= s + 200 && forall k :: j - 200 <= k <= j ==> levels[k] == levels[j]
  {
  }

  predicate KeepsGoing(levels: seq<nat>, s: nat, until: nat) {
    forall j :: s < j < until ==> !Idle(levels, s, j) && !Stuck(levels, s, j)
  }

  /** How long the empty run, or the unchanged run, that ends at poll j is. */
  predicate RunFrom(levels: seq<nat>, s: nat, j: nat, zeros: nat, same: nat) {
    s <= j < |levels| && zeros <= j - s && same <= j - s
    && EmptySince(levels, j - zeros, j) && (zeros < j - s ==> levels[j - zeros] != 0)
    && SameSince(levels, j - same, j) && (same < j - s ==> levels[j - same - 1] != levels[j - same])
  }

  lemma RunsDecide(levels: seq<nat>, s: nat, j: nat, zeros: nat, same: nat)
    requires RunFrom(levels, s, j, zeros, same)
    ensures Idle(levels, s, j) <==> zeros >= IDLE_EXIT_MS / CHECK_INTERVAL_MS
    ensures Stuck(levels, s, j) <==> same >= TIMEOUT_MS / CHECK_INTERVAL_MS
  {
    if zeros < 10 && j >= s + 10 {
      assert levels[j - zeros] != 0;
    }
    if same < 200 && j >= s + 200 {
      Moved(levels, j - 200, j, j - same - 1);
    }
  }

  lemma Moved(levels: seq<nat>, i: nat, j: nat, k: nat)
    requires i <= k < j < |levels| && levels[k] != levels[k + 1]
    ensures !SameSince(levels, i, j)
  {
  }

  lemma NextRun(levels: seq<nat>, s: nat, j: nat, zeros: nat, same: nat)
    requires RunFrom(levels, s, j, zeros, same) && j + 1 < |levels|
    ensures RunFrom(levels, s, j + 1, if levels[j + 1] == 0 then zeros + 1 else 0,
      if levels[j + 1] == levels[j] then same + 1 else 0)
  {
  }

  /** transmission_monitor_task over the fill levels it polls, one every 10 ms. */
  method Watch(levels: seq<nat>) returns (r: Outcome)
    ensures r.Filling? <==> forall s :: !StartsAt(levels, s)
    ensures !r.Filling? ==> StartsAt(levels, r.startedAt)
    ensures r.Transmitting? ==> KeepsGoing(levels, r.startedAt, |levels|)
    ensures r.Drained? || r.TimedOut? ==> r.startedAt < r.at < |levels| && KeepsGoing(levels, r.startedAt, r.at)
    ensures r.Drained? ==> Idle(levels, r.startedAt, r.at)
    ensures r.TimedOut? ==> Stuck(levels, r.startedAt, r.at) && !Idle(levels, r.startedAt, r.at)
  {
    hide Idle, Stuck, RunFrom;
    var last: nat, steady: nat, idleZero: nat, fillWait: nat := 0, 0, 0, 0;
    var started: Option<nat> := None;
    for j := 0 to |levels|
      invariant started.None? ==> fillWait == j * CHECK_INTERVAL_MS
      invariant started.None? ==> forall k :: 0 <= k < j ==> levels[k] < START_FILL_BYTES && k * CHECK_INTERVAL_MS < TIMEOUT_MS
      invariant started.Some? ==> started.value < j && StartsAt(levels, started.value) && last == levels[j - 1]
      invariant started.Some? ==> Counted(levels, started.value, j - 1, idleZero, steady)
      invariant started.Some? ==> KeepsGoing(levels, started.value, j)
    {
      var current := levels[j];
      if started.None? {
        if current >= START_FILL_BYTES || fillWait >= TIMEOUT_MS {
          started, steady, idleZero, last := Some(j), 0, 0, current;
          FirstRun(levels, j);
        } else {
          fillWait := fillWait + CHECK_INTERVAL_MS;
        }
      } else {
        CountedNext(levels, started.value, j - 1, idleZero, steady);
        if current == 0 {
          idleZero := idleZero + CHECK_INTERVAL_MS;
          if idleZero >= IDLE_EXIT_MS {
            return Drained(started.value, j);
          }
        } else {
          idleZero := 0;
        }
        if current != last {
          steady := 0;
          last := current;
        } else {
          steady := steady + CHECK_INTERVAL_MS;
          if steady >= TIMEOUT_MS {
            return TimedOut(started.value, j);
          }
        }
      }
    }
    return if started.None? then Filling else Transmitting(started.value);
  }

  /** The two counters, in milliseconds, time the two runs that end at poll j. */
  predicate Counted(levels: seq<nat>, s: nat, j: nat, idleZero: nat, steady: nat) {
    idleZero % CHECK_INTERVAL_MS == 0 && steady % CHECK_INTERVAL_MS == 0
    && RunFrom(levels, s, j, idleZero / CHECK_INTERVAL_MS, steady / CHECK_INTERVAL_MS)
  }

  lemma FirstRun(levels: seq<nat>, s: nat)
    requires s < |levels|
    ensures Counted(levels, s, s, 0, 0)
  {
  }

  lemma CountedNext(levels: seq<nat>, s: nat, j: nat, idleZero: nat, steady: nat)
    requires Counted(levels, s, j, idleZero, steady) && j + 1 < |levels|
    ensures var idle := if levels[j + 1] == 0 then idleZero + CHECK_INTERVAL_MS else 0;
      var same := if levels[j + 1] == levels[j] then steady + CHECK_INTERVAL_MS else 0;
      Counted(levels, s, j + 1, idle, same)
      && (Idle(levels, s, j + 1) <==> idle >= IDLE_EXIT_MS)
      && (Stuck(levels, s, j + 1) <==> same >= TIMEOUT_MS)
  {
    hide RunFrom, Idle, Stuck;
    var zeros, same := idleZero / CHECK_INTERVAL_MS, steady / CHECK_INTERVAL_MS;
    NextRun(levels, s, j, zeros, same);
    RunsDecide(levels, s, j + 1, if levels[j + 1] == 0 then zeros + 1 else 0,
      if levels[j + 1] == levels[j] then same + 1 else 0);
  }

  /** A timeout is never an empty buffer: it is 201 polls in a row that saw one and the same non-zero level. */
  lemma TimeoutHoldsBytes(levels: seq<nat>, s: nat, j: nat)
    requires Stuck(levels, s, j) && !Idle(levels, s, j)
    ensures levels[j] > 0 && forall k :: j - TIMEOUT_MS / CHECK_INTERVAL_MS <= k <= j ==> levels[k] == levels[j]
  {
    SameIsEmpty(levels, j - 200, j);
  }

  lemma SameIsEmpty(levels: seq<nat>, i: nat, j: nat)
    requires SameSince(levels, i, j) && i + 10 <= j
    ensures levels[j] == 0 ==> EmptySince(levels, j - 10, j)
  {
  }
}
