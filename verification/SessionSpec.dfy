/** The transport lease: which link may control the device, over whole runs of the command task and of
    the stream checks that other tasks make without a lock. Times are real tick counts; the firmware only
    sees them modulo 2^32. */
module SessionSpec {
  import opened Wrappers

  const TIMEOUT_TICKS: nat := 500       // 5000 ms at 100 ticks a second
  const TICK_WRAP: nat := 0x1_0000_0000
  const NONE: nat := 0

  const LANE_SIZE: nat := 18
  const OP_VERSION: nat := 0x01
  const OP_NAME_GET: nat := 0x04
  const OP_HARDWARE_UID_GET: nat := 0x08
  const OP_BOARD_GET: nat := 0x09
  const OP_WIFI_CONFIG: nat := 0x0A
  const OP_TRANSPORT_SESSION: nat := 0x0B
  const WIFI_CFG_STATUS: nat := 0x04
  const STATUS: nat := 0x00
  const CONNECT: nat := 0x01
  const DISCONNECT: nat := 0x02
  const HEARTBEAT: nat := 0x03

  /** A queued command: its link, its length and its first three bytes. */
  datatype Command = Command(source: nat, length: nat, op: nat, sub: nat, requested: nat)

  predicate IsSession(c: Command, sub: nat) {
    c.length == LANE_SIZE && c.op == OP_TRANSPORT_SESSION && c.sub == sub
  }

  predicate IsConnect(c: Command) { IsSession(c, CONNECT) }

  predicate IsDiscovery(c: Command) {
    c.length == LANE_SIZE &&
    (|| c.op in {OP_VERSION, OP_HARDWARE_UID_GET, OP_BOARD_GET, OP_NAME_GET}
     || (c.op == OP_WIFI_CONFIG && c.sub == WIFI_CFG_STATUS)
     || (c.op == OP_TRANSPORT_SESSION && c.sub == STATUS))
  }

  /** Neither claiming nor asking: only the owner may run it. */
  predicate IsControl(c: Command) {
    !IsConnect(c) && !IsDiscovery(c)
  }

  /** How far a receive task's stream check has come: it saw a claim, it read the tick counter, it found
      the claim stale and is about to clear it, or it is about to read the owner for its answer. */
  datatype Check = Seen | Ticked(now: nat) | Expired | Settled

  /** `pending` is the command the gate let through and the handler has not run yet; `unstamped` says an
      accepted CONNECT has written the owner and not yet the stamp; `checks` are the stream checks under
      way, one at most for each link's receive task. */
  datatype State = State(owner: nat, last: nat, pending: Option<Command>, unstamped: bool, checks: map<nat, Check>)

  const Start := State(NONE, 0, None, false, map[])

  /** The firmware's unsigned tick difference. */
  function Elapsed(now: nat, last: nat): nat {
    (now - last) % TICK_WRAP
  }

  predicate Stale(s: State, now: nat) {
    s.owner != NONE && Elapsed(now, s.last) > TIMEOUT_TICKS
  }

  function Expire(s: State, now: nat): State {
    if Stale(s, now) then s.(owner := NONE) else s
  }

  /** transport_session_allows_command: claim expiry at `now`, activity stamped at `stamp`. */
  function Gate(s: State, c: Command, now: nat, stamp: nat): (State, bool) {
    var s := Expire(s, now);
    if IsConnect(c) then (s, s.owner == NONE || s.owner == c.source)
    else if IsDiscovery(c) then (s, true)
    else if s.owner == NONE || s.owner != c.source then (s, false)
    else (s.(last := stamp), true)
  }

  /** transport_session_connect up to writing the owner. */
  function Claim(s: State, source: nat, now: nat): (State, bool) {
    var s := Expire(s, now);
    if source == NONE || (s.owner != NONE && s.owner != source) then (s, false)
    else (s.(owner := source, unstamped := true), true)
  }

  function Disconnect(s: State, source: nat, now: nat): (State, bool) {
    var s := Expire(s, now);
    if s.owner == NONE then (s, true)
    else if s.owner != source then (s, false)
    else (s.(owner := NONE), true)
  }

  function Heartbeat(s: State, source: nat, now: nat, stamp: nat): (State, bool) {
    var s := Expire(s, now);
    if s.owner != source || source == NONE then (s, false) else (s.(last := stamp), true)
  }

  /** handle_binary_packet as far as the lease goes. */
  function Handle(s: State, c: Command, now: nat, stamp: nat): State {
    if c.length != LANE_SIZE || c.op != OP_TRANSPORT_SESSION then s
    else if c.sub == STATUS then Expire(s, now)
    else if c.requested != c.source then s
    else if c.sub == CONNECT then Claim(s, c.source, now).0
    else if c.sub == DISCONNECT then Disconnect(s, c.source, now).0
    else if c.sub == HEARTBEAT then Heartbeat(s, c.source, now, stamp).0
    else s
  }

  /** Atomic steps. The command task gates a command, then handles it, and after an accepted CONNECT
      stamps it. The receive task of `link` makes its stream check in up to five reads and writes, with
      any steps of the others in between. */
  datatype Event =
    | GateEvent(cmd: Command, now: nat, stamp: nat)
    | HandleEvent(now: nat, stamp: nat)
    | StampEvent(stamp: nat)
    | StreamEnter(link: nat)
    | StreamTick(link: nat, now: nat)
    | StreamCompare(link: nat)
    | StreamClear(link: nat)
    | StreamRead(link: nat)

  predicate At(s: State, link: nat, c: Check) {
    link in s.checks && s.checks[link] == c
  }

  predicate HasTick(s: State, link: nat) {
    link in s.checks && s.checks[link].Ticked?
  }

  /** The comparison of a check that read the tick counter finds the claim's stamp too old. */
  predicate FindsStale(s: State, link: nat) {
    HasTick(s, link) && Elapsed(s.checks[link].now, s.last) > TIMEOUT_TICKS
  }

  function Step(s: State, e: Event): State {
    match e
    case GateEvent(c, now, stamp) =>
      if s.pending.Some? || s.unstamped || c.length == 0 then s
      else
        var g := Gate(s, c, now, stamp);
        if g.1 then g.0.(pending := Some(c)) else g.0
    case HandleEvent(now, stamp) =>
      if s.pending.None? then s else Handle(s, s.pending.value, now, stamp).(pending := None)
    case StampEvent(stamp) =>
      if s.unstamped then s.(last := stamp, unstamped := false) else s
    case StreamEnter(link) =>
      if link in s.checks then s
      else s.(checks := s.checks[link := if s.owner == NONE then Settled else Seen])
    case StreamTick(link, now) =>
      if At(s, link, Seen) then s.(checks := s.checks[link := Ticked(now)]) else s
    case StreamCompare(link) =>
      if HasTick(s, link) then s.(checks := s.checks[link := if FindsStale(s, link) then Expired else Settled]) else s
    case StreamClear(link) =>
      if At(s, link, Expired) then s.(owner := NONE, checks := s.checks[link := Settled]) else s
    case StreamRead(link) =>
      if At(s, link, Settled) then s.(checks := s.checks - {link}) else s
  }

  /** The answer a finished stream check gives. */
  predicate AllowsStream(s: State, link: nat) {
    s.owner != NONE && s.owner == link
  }

  function StateAt(events: seq<Event>, i: nat): State
    requires i <= |events|
  {
    if i == 0 then Start else Step(StateAt(events, i - 1), events[i - 1])
  }

  // ---- What happens in one step ----

  /** A control command of `source` is let through. */
  predicate Controls(s: State, e: Event, source: nat) {
    e.GateEvent? && s.pending.None? && !s.unstamped && e.cmd.length > 0 && IsControl(e.cmd) && e.cmd.source == source
    && Gate(s, e.cmd, e.now, e.stamp).1
  }

  /** The owner disconnects. */
  predicate Leaves(s: State, e: Event) {
    e.HandleEvent? && s.pending.Some? && IsSession(s.pending.value, DISCONNECT)
    && s.pending.value.source == s.owner && s.pending.value.requested == s.owner
  }

  /** The command task finds the claim stale. */
  predicate Expires(s: State, e: Event) {
    (e.GateEvent? || e.HandleEvent?) && Stale(s, e.now)
  }

  /** A stream check clears the claim, as its comparison decided some steps ago. */
  predicate Clears(s: State, e: Event) {
    e.StreamClear? && At(s, e.link, Expired)
  }

  /** The owner's claim is lost. */
  predicate Releases(s: State, e: Event) {
    s.owner != NONE && (Leaves(s, e) || Expires(s, e) || Clears(s, e))
  }

  /** A CONNECT of `source` is accepted. */
  predicate Claims(s: State, e: Event, source: nat) {
    e.HandleEvent? && s.pending.Some? && IsConnect(s.pending.value)
    && s.pending.value.source == source && s.pending.value.requested == source
    && Claim(s, source, e.now).1
  }

  /** The owner only changes by a release, an accepted CONNECT, or both in one step. */
  lemma OwnerChange(s: State, e: Event)
    ensures var owner := Step(s, e).owner;
      || owner == s.owner
      || (owner == NONE && Releases(s, e))
      || ((s.owner == NONE || Releases(s, e)) && Claims(s, e, owner))
  {
  }

  lemma ControlMeansOwner(s: State, e: Event, source: nat)
    requires Controls(s, e, source)
    ensures source != NONE && s.owner == source && Step(s, e).owner == source
  {
  }

  /** Discovery never changes the claim beyond dropping a stale one. */
  lemma DiscoveryKeepsClaim(s: State, c: Command, now: nat, stamp: nat)
    requires IsDiscovery(c)
    ensures Gate(s, c, now, stamp) == (Expire(s, now), true)
    ensures Handle(s, c, now, stamp).owner == s.owner || Handle(s, c, now, stamp) == Expire(s, now)
    ensures Handle(s, c, now, stamp).last == s.last
  {
  }

  lemma {:induction false} LossIsRelease(events: seq<Event>, i: nat, j: nat) returns (k: nat)
    requires i <= j <= |events|
    requires StateAt(events, i).owner != NONE && StateAt(events, j).owner != StateAt(events, i).owner
    ensures i <= k < j
    ensures StateAt(events, k).owner == StateAt(events, i).owner != StateAt(events, k + 1).owner
    ensures Releases(StateAt(events, k), events[k])
  {
    if StateAt(events, j - 1).owner == StateAt(events, i).owner {
      k := j - 1;
      OwnerChange(StateAt(events, k), events[k]);
    } else {
      k := LossIsRelease(events, i, j - 1);
    }
  }

  lemma {:induction false} GainIsClaim(events: seq<Event>, i: nat, j: nat) returns (m: nat)
    requires i <= j <= |events|
    requires StateAt(events, j).owner != NONE && StateAt(events, j).owner != StateAt(events, i).owner
    ensures i <= m < j
    ensures Claims(StateAt(events, m), events[m], StateAt(events, j).owner)
  {
    if StateAt(events, j - 1).owner == StateAt(events, j).owner {
      m := GainIsClaim(events, i, j - 1);
    } else {
      m := j - 1;
      OwnerChange(StateAt(events, m), events[m]);
    }
  }

  /** Exclusivity: between control commands of two links, the first one's claim was released while it
      held it, and from then on a CONNECT of the second was accepted. */
  lemma {:induction false} Exclusivity(events: seq<Event>, i: nat, j: nat, a: nat, b: nat) returns (k: nat, m: nat)
    requires i < j < |events| && a != b
    requires Controls(StateAt(events, i), events[i], a) && Controls(StateAt(events, j), events[j], b)
    ensures i < k <= m < j
    ensures StateAt(events, k).owner == a != StateAt(events, k + 1).owner
    ensures Releases(StateAt(events, k), events[k])
    ensures Claims(StateAt(events, m), events[m], b)
  {
    ControlMeansOwner(StateAt(events, i), events[i], a);
    ControlMeansOwner(StateAt(events, j), events[j], b);
    assert StateAt(events, i + 1) == Step(StateAt(events, i), events[i]);
    k := LossIsRelease(events, i + 1, j);
    m := GainIsClaim(events, k, j);
  }

  /** A check comes to be about to clear only by its own comparison. */
  lemma ExpiredStep(s: State, e: Event, link: nat)
    requires At(Step(s, e), link, Expired)
    ensures At(s, link, Expired) || (e == StreamCompare(link) && FindsStale(s, link))
  {
  }

  /** And it stays so until it clears. */
  lemma ExpiredStays(s: State, e: Event, link: nat)
    requires At(s, link, Expired)
    ensures if e == StreamClear(link) then Step(s, e).owner == NONE else At(Step(s, e), link, Expired)
  {
  }

  lemma CompareStep(s: State, link: nat)
    requires HasTick(s, link)
    ensures At(Step(s, StreamCompare(link)), link, Expired) <==> FindsStale(s, link)
  {
  }

  /** A check that clears had found the claim of its moment stale, by an earlier comparison of its own. */
  lemma {:induction false} ClearWasDecided(events: seq<Event>, n: nat, link: nat) returns (i: nat)
    requires n <= |events| && At(StateAt(events, n), link, Expired)
    ensures i < n && events[i] == StreamCompare(link) && FindsStale(StateAt(events, i), link)
  {
    hide Step, FindsStale;
    var before := StateAt(events, n - 1);
    assert StateAt(events, n) == Step(before, events[n - 1]);
    ExpiredStep(before, events[n - 1], link);
    if At(before, link, Expired) {
      i := ClearWasDecided(events, n - 1, link);
    } else {
      i := n - 1;
    }
  }

  // ---- What an accepted command does ----

  /** An accepted DISCONNECT frees the device. */
  lemma DisconnectFrees(s: State, e: Event)
    requires s.owner != NONE && Leaves(s, e)
    ensures Step(s, e).owner == NONE
  {
  }

  /** What the answers of the session commands mean: link 0 never gets a claim, a DISCONNECT is refused to a stranger
      of a fresh claim alone, and a HEARTBEAT accepted from its owner alone. */
  lemma SessionAnswers(s: State, source: nat, now: nat, stamp: nat)
    ensures Claim(s, source, now).1 <==> source != 0 && (FreeAt(s, now) || s.owner == source)
    ensures Disconnect(s, source, now).1 <==> FreeAt(s, now) || s.owner == source
    ensures Heartbeat(s, source, now, stamp).1 <==> !FreeAt(s, now) && s.owner == source
    ensures Heartbeat(s, source, now, stamp).1 ==> Heartbeat(s, source, now, stamp).0.last == stamp
  {
  }

  /** The CONNECT a link sends for itself. */
  function ConnectOf(link: nat): Command {
    Command(link, 18, 0x0B, 0x01, link)
  }

  /** The command task has nothing under way. */
  predicate AtRest(s: State) {
    s.pending.None? && !s.unstamped
  }

  /** The device is free at `now`: nobody owns it, or the claim has been idle for more than 500 ticks, modulo 2^32. */
  predicate FreeAt(s: State, now: nat) {
    s.owner == NONE || (now - s.last) % 0x1_0000_0000 > 500
  }

  /** A link's CONNECT, gated, handled and stamped, makes it the owner exactly if the device is free or its own already;
      otherwise the owner and its stamp stay. */
  lemma ConnectWorksIff(s: State, link: nat, gated: nat, handled: nat, stamp: nat)
    requires AtRest(s) && link != NONE
    ensures var s1 := Step(s, GateEvent(ConnectOf(link), gated, gated));
      var s2 := Step(Step(s1, HandleEvent(handled, handled)), StampEvent(stamp));
      AtRest(s2)
      && if FreeAt(s, gated) || s.owner == link then s2.owner == link && s2.last == stamp
         else s2.owner == s.owner && s2.last == s.last
  {
  }

  /** After any accepted DISCONNECT of a run from boot, the next CONNECT of any link is accepted. */
  lemma FreedForAll(events: seq<Event>, n: nat, link: nat, gated: nat, handled: nat, stamp: nat)
    requires n < |events| && link != NONE
    requires StateAt(events, n).owner != NONE && Leaves(StateAt(events, n), events[n])
    ensures var s := StateAt(events, n + 1);
      var s1 := Step(s, GateEvent(ConnectOf(link), gated, gated));
      var s2 := Step(Step(s1, HandleEvent(handled, handled)), StampEvent(stamp));
      s.owner == NONE && s2.owner == link && s2.last == stamp
  {
    var before := StateAt(events, n);
    AlwaysOrderly(events, n);
    DisconnectFrees(before, events[n]);
    assert StateAt(events, n + 1) == Step(before, events[n]);
    LeavesAtRest(before, events[n]);
    ConnectWorksIff(StateAt(events, n + 1), link, gated, handled, stamp);
  }

  lemma LeavesAtRest(s: State, e: Event)
    requires Leaves(s, e) && Orderly(s) && s.owner != NONE
    ensures AtRest(Step(s, e))
  {
  }

  /** What a link that is not the owner gets through the gate of a claim in time: only the six questions. */
  lemma StrangersAskOnly(s: State, c: Command, now: nat, stamp: nat)
    requires s.owner != NONE && c.source != s.owner && s.last <= now <= s.last + 500
    ensures Gate(s, c, now, stamp).1 <==>
      c.length == 18
      && (c.op in {0x01, 0x04, 0x08, 0x09} || (c.op == 0x0A && c.sub == 0x04) || (c.op == 0x0B && c.sub == 0x00))
    ensures Gate(s, c, now, stamp).0 == s
  {
    assert Elapsed(now, s.last) == now - s.last;
  }

  /** And the owner gets everything through. */
  lemma OwnersPass(s: State, c: Command, now: nat, stamp: nat)
    requires s.owner == c.source != NONE && s.last <= now <= s.last + 500
    ensures Gate(s, c, now, stamp).1
    ensures Gate(s, c, now, stamp).0.owner == s.owner
    ensures IsControl(c) ==> Gate(s, c, now, stamp).0.last == stamp
  {
    assert Elapsed(now, s.last) == now - s.last;
  }

  /** Samples to replay are taken from the owner's link only, as long as its claim is in time. */
  lemma StreamsFollowOwner(s: State, link: nat, now: nat)
    requires s.last <= now <= s.last + 500
    ensures AllowsStream(Expire(s, now), link) <==> s.owner == link && link != 0
  {
    assert Elapsed(now, s.last) == now - s.last;
  }

  // ---- The lease over real time ----

  /** When a comparison of the tick `now` with the stamp `last` finds the claim stale. Read in order, the
      timeout must have passed both really and modulo 2^32; read before a later stamp, the difference
      wraps and nearly every claim looks stale. */
  lemma ExpiryIsExact(s: State, now: nat)
    requires s.owner != NONE
    ensures s.last <= now ==> (Expire(s, now).owner == NONE <==>
              now - s.last > TIMEOUT_TICKS && (now - s.last) % TICK_WRAP > TIMEOUT_TICKS)
    ensures s.last <= now < s.last + TICK_WRAP ==> (Expire(s, now).owner == NONE <==> now - s.last > TIMEOUT_TICKS)
    ensures now < s.last < now + TICK_WRAP ==>
              (Expire(s, now).owner == NONE <==> s.last - now < TICK_WRAP - TIMEOUT_TICKS)
  {
    if now < s.last < now + TICK_WRAP {
      assert now - s.last + TICK_WRAP == Elapsed(now, s.last);
    }
  }

  /** Untouched for exactly one wrap of the tick counter, a claim still looks fresh. */
  lemma StaleClaimSurvivesWrap()
    ensures var s := State(1, 0, None, false, map[]);
      Expire(s, TICK_WRAP) == s && TICK_WRAP - s.last > TIMEOUT_TICKS
  {
  }

  /** The step stamps the owner's claim: a control command, a heartbeat or the stamp of a CONNECT. */
  predicate Refreshes(s: State, e: Event, a: nat) {
    || Controls(s, e, a)
    || (e.HandleEvent? && s.pending.Some? && IsSession(s.pending.value, HEARTBEAT)
        && s.pending.value.requested == a && s.pending.value.source == a)
    || (e.StampEvent? && s.unstamped)
  }

  function Continue(s: State, events: seq<Event>, i: nat): State
    requires i <= |events|
  {
    if i == 0 then s else Step(Continue(s, events, i - 1), events[i - 1])
  }

  /** The real time of a's latest refresh before event i. */
  function LastRefresh(s: State, events: seq<Event>, i: nat, a: nat): nat
    requires i <= |events|
  {
    if i == 0 then s.last
    else if Refreshes(Continue(s, events, i - 1), events[i - 1], a) then events[i - 1].stamp
    else LastRefresh(s, events, i - 1, a)
  }

  /** The command task reads its ticks at most 5000 ms after the refresh at `last`; between a CONNECT's owner and
      its stamp it reads none. */
  predicate InTime(s: State, e: Event, last: nat) {
    match e
    case GateEvent(_, now, _) => s.unstamped || last <= now <= last + TIMEOUT_TICKS
    case HandleEvent(now, _) => s.unstamped || last <= now <= last + TIMEOUT_TICKS
    case _ => true
  }

  ghost predicate KeptFresh(s: State, events: seq<Event>, a: nat) {
    forall i :: 0 <= i < |events| ==> InTime(Continue(s, events, i), events[i], LastRefresh(s, events, i, a))
  }

  ghost predicate NeverLeaves(s: State, events: seq<Event>) {
    forall i :: 0 <= i < |events| ==> !Leaves(Continue(s, events, i), events[i])
  }

  /** The command task stamps a CONNECT before it takes the next command. */
  predicate Orderly(s: State) {
    s.unstamped ==> s.pending.None?
  }

  lemma OrderlyStep(s: State, e: Event)
    requires Orderly(s)
    ensures Orderly(Step(s, e))
  {
  }

  lemma {:induction false} AlwaysOrderly(events: seq<Event>, i: nat)
    requires i <= |events|
    ensures Orderly(StateAt(events, i))
  {
    hide Step;
    if i > 0 {
      AlwaysOrderly(events, i - 1);
      OrderlyStep(StateAt(events, i - 1), events[i - 1]);
    }
  }

  lemma {:induction false} StaysOrderly(s: State, events: seq<Event>, i: nat)
    requires i <= |events| && Orderly(s)
    ensures Orderly(Continue(s, events, i))
  {
    hide Step;
    if i > 0 {
      StaysOrderly(s, events, i - 1);
      OrderlyStep(Continue(s, events, i - 1), events[i - 1]);
    }
  }

  /** A run that starts with a's claim, stamped or not yet, that a keeps fresh and does not give up. */
  ghost predicate Held(s: State, events: seq<Event>, a: nat) {
    s.owner == a != NONE && Orderly(s) && KeptFresh(s, events, a) && NeverLeaves(s, events)
  }

  ghost predicate KeptBy(s: State, events: seq<Event>, a: nat, n: nat)
    requires n <= |events|
  {
    forall k :: 0 <= k <= n ==> Continue(s, events, k).owner == a
  }

  /** One step in time keeps the owner unless a check clears the claim. */
  lemma FreshStep(s: State, e: Event, a: nat)
    requires s.owner == a != NONE && Orderly(s) && InTime(s, e, s.last) && !Leaves(s, e) && !Clears(s, e)
    ensures Step(s, e).owner == a
    ensures Step(s, e).last == if Refreshes(s, e, a) then e.stamp else s.last
    ensures forall b :: b != a ==> !Controls(s, e, b)
  {
    if (e.GateEvent? || e.HandleEvent?) && !s.unstamped {
      assert Elapsed(e.now, s.last) == e.now - s.last;
    }
  }

  // ---- Exactly when the owner keeps control ----

  /** At event i the check of `link` finds the claim stale. */
  predicate Decides(s: State, events: seq<Event>, i: nat, link: nat) {
    i < |events| && events[i] == StreamCompare(link) && FindsStale(Continue(s, events, i), link)
  }

  /** At event j, or before it, the check of `link` clears the claim: it was about to from the start, or found
      the claim stale since. */
  ghost predicate Doomed(s: State, events: seq<Event>, j: nat, link: nat) {
    j < |events| && events[j] == StreamClear(link)
    && (At(s, link, Expired) || exists i: nat :: i < j && Decides(s, events, i, link))
  }

  ghost predicate NoneDoomed(s: State, events: seq<Event>, n: nat) {
    forall j: nat, link :: j < n ==> !Doomed(s, events, j, link)
  }

  /** A check about to clear was so from the start, or came to be by its own comparison. */
  lemma {:induction false} ExpiredOrigin(s: State, events: seq<Event>, n: nat, link: nat)
    requires n <= |events| && At(Continue(s, events, n), link, Expired)
    ensures At(s, link, Expired) || exists i: nat :: i < n && Decides(s, events, i, link)
  {
    hide Step, FindsStale;
    if n > 0 {
      var before := Continue(s, events, n - 1);
      assert Continue(s, events, n) == Step(before, events[n - 1]);
      ExpiredStep(before, events[n - 1], link);
      if At(before, link, Expired) {
        ExpiredOrigin(s, events, n - 1, link);
      } else {
        assert Decides(s, events, n - 1, link);
      }
    }
  }

  /** And it clears the claim by the next event of its own. */
  lemma {:induction false} ExpiredUntil(s: State, events: seq<Event>, from: nat, j: nat, link: nat) returns (k: nat)
    requires from <= j <= |events| && At(Continue(s, events, from), link, Expired)
    ensures from <= k <= j
    ensures k < j ==> Continue(s, events, k + 1).owner == NONE
    ensures k == j ==> At(Continue(s, events, j), link, Expired)
  {
    hide Step;
    if from == j {
      k := j;
    } else {
      k := ExpiredUntil(s, events, from, j - 1, link);
      if k == j - 1 {
        var before, e := Continue(s, events, j - 1), events[j - 1];
        assert Continue(s, events, j) == Step(before, e);
        ExpiredStays(before, e, link);
        k := if e == StreamClear(link) then j - 1 else j;
      }
    }
  }

  lemma ExpiredLosesClaim(s: State, events: seq<Event>, a: nat, from: nat, j: nat, link: nat)
    requires from <= j < |events| && At(Continue(s, events, from), link, Expired)
    requires events[j] == StreamClear(link) && a != NONE
    ensures !KeptBy(s, events, a, |events|)
  {
    hide Step;
    var k := ExpiredUntil(s, events, from, j, link);
    if k == j {
      assert Continue(s, events, j + 1) == Step(Continue(s, events, j), events[j]);
      ExpiredStays(Continue(s, events, j), events[j], link);
    }
    assert Continue(s, events, k + 1).owner == NONE;
  }

  lemma DoomLosesClaim(s: State, events: seq<Event>, a: nat, j: nat, link: nat)
    requires Doomed(s, events, j, link) && a != NONE
    ensures !KeptBy(s, events, a, |events|)
  {
    hide Step, FindsStale;
    if At(s, link, Expired) {
      ExpiredLosesClaim(s, events, a, 0, j, link);
    } else {
      var i: nat :| i < j && Decides(s, events, i, link);
      DecidedIsExpired(s, events, i, link);
      ExpiredLosesClaim(s, events, a, i + 1, j, link);
    }
  }

  lemma DecidedIsExpired(s: State, events: seq<Event>, i: nat, link: nat)
    requires Decides(s, events, i, link)
    ensures i + 1 <= |events| && At(Continue(s, events, i + 1), link, Expired)
  {
    FoundIsTicked(Continue(s, events, i), link);
    CompareStep(Continue(s, events, i), link);
  }

  lemma FoundIsTicked(s: State, link: nat)
    requires FindsStale(s, link)
    ensures HasTick(s, link)
  {
  }

  lemma NoDoomNoClear(s: State, events: seq<Event>, n: nat)
    requires n < |events| && NoneDoomed(s, events, n + 1)
    ensures !Clears(Continue(s, events, n), events[n])
  {
    hide Step, Decides;
    if Clears(Continue(s, events, n), events[n]) {
      ExpiredOrigin(s, events, n, events[n].link);
      DoomedHere(s, events, n, events[n].link);
    }
  }

  lemma DoomedHere(s: State, events: seq<Event>, n: nat, link: nat)
    requires n < |events| && events[n] == StreamClear(link) && NoneDoomed(s, events, n + 1)
    ensures !At(s, link, Expired) && forall i: nat :: i < n ==> !Decides(s, events, i, link)
  {
    hide Decides;
    assert !Doomed(s, events, n, link);
  }

  /** A step in time that keeps the owner moves the stamp exactly by a refresh. */
  lemma StampFollows(s: State, e: Event, a: nat)
    requires s.owner == a != NONE && Orderly(s) && InTime(s, e, s.last) && Step(s, e).owner == a
    ensures Step(s, e).last == if Refreshes(s, e, a) then e.stamp else s.last
  {
    if (e.GateEvent? || e.HandleEvent?) && !s.unstamped {
      assert Elapsed(e.now, s.last) == e.now - s.last;
    }
  }

  lemma {:induction false} LastIsLastRefresh(s: State, events: seq<Event>, a: nat, n: nat)
    requires n <= |events| && Held(s, events, a) && KeptBy(s, events, a, n)
    ensures Continue(s, events, n).last == LastRefresh(s, events, n, a)
  {
    hide Step, Refreshes, InTime, Orderly;
    if n > 0 {
      LastIsLastRefresh(s, events, a, n - 1);
      StaysOrderly(s, events, n - 1);
      var before, e := Continue(s, events, n - 1), events[n - 1];
      assert InTime(before, e, before.last);
      assert Step(before, e).owner == a by { assert Continue(s, events, n).owner == a; }
      StampFollows(before, e, a);
    }
  }

  /** One more event of a held run that clears nothing. */
  lemma HoldsNext(s: State, events: seq<Event>, a: nat, n: nat)
    requires n < |events| && Held(s, events, a) && KeptBy(s, events, a, n)
    ensures forall b :: b != a ==> !Controls(Continue(s, events, n), events[n], b)
    ensures !Clears(Continue(s, events, n), events[n]) ==> KeptBy(s, events, a, n + 1)
  {
    hide Step, Refreshes, Controls, InTime, Clears, Leaves, Orderly;
    var before, e := Continue(s, events, n), events[n];
    LastIsLastRefresh(s, events, a, n);
    StaysOrderly(s, events, n);
    assert InTime(before, e, before.last);
    if Clears(before, e) {
      ClearsIsNoControl(before, e);
    } else {
      FreshStep(before, e, a);
    }
  }

  lemma ClearsIsNoControl(s: State, e: Event)
    requires Clears(s, e)
    ensures forall b :: !Controls(s, e, b)
  {
  }

  /** As long as no check is bound to clear the claim the owner keeps control, and no other link's control command
      is let through. */
  lemma {:induction false} LeaseHolds(s: State, events: seq<Event>, a: nat, n: nat)
    requires n <= |events| && Held(s, events, a) && NoneDoomed(s, events, n)
    ensures KeptBy(s, events, a, n)
    ensures Continue(s, events, n).last == LastRefresh(s, events, n, a)
    ensures n < |events| ==> forall b :: b != a ==> !Controls(Continue(s, events, n), events[n], b)
  {
    hide *;
    if n > 0 {
      NoneDoomedBefore(s, events, n);
      LeaseHolds(s, events, a, n - 1);
      NoDoomNoClear(s, events, n - 1);
      HoldsNext(s, events, a, n - 1);
    } else {
      HeldFromStart(s, events, a);
    }
    LastIsLastRefresh(s, events, a, n);
    if n < |events| {
      HoldsNext(s, events, a, n);
    }
  }

  lemma NoneDoomedBefore(s: State, events: seq<Event>, n: nat)
    requires n > 0 && NoneDoomed(s, events, n)
    ensures NoneDoomed(s, events, n - 1)
  {
  }

  lemma HeldFromStart(s: State, events: seq<Event>, a: nat)
    requires Held(s, events, a)
    ensures KeptBy(s, events, a, 0)
  {
  }

  /** Over a run of any length, from a claim stamped or not yet and with any checks under way: an owner that
      refreshes within the timeout and does not disconnect keeps control throughout exactly when no check that
      found the claim stale, before the run or during it, gets to clear it. */
  lemma ControlKeptIff(s: State, events: seq<Event>, a: nat)
    requires Held(s, events, a)
    ensures KeptBy(s, events, a, |events|) <==> NoneDoomed(s, events, |events|)
  {
    hide Step, Doomed, Orderly;
    if NoneDoomed(s, events, |events|) {
      LeaseHolds(s, events, a, |events|);
    } else {
      var j: nat, link :| j < |events| && Doomed(s, events, j, link);
      DoomLosesClaim(s, events, a, j, link);
    }
  }

  /** So it is right after any accepted CONNECT of a run from boot, before its stamp is written. */
  lemma AfterConnect(events: seq<Event>, n: nat, rest: seq<Event>, a: nat)
    requires n < |events| && Claims(StateAt(events, n), events[n], a)
    requires var s := StateAt(events, n + 1); KeptFresh(s, rest, a) && NeverLeaves(s, rest)
    ensures var s := StateAt(events, n + 1);
      s.owner == a && s.unstamped && (KeptBy(s, rest, a, |rest|) <==> NoneDoomed(s, rest, |rest|))
  {
    hide KeptFresh, NeverLeaves, KeptBy, NoneDoomed;
    AlwaysOrderly(events, n + 1);
    assert StateAt(events, n + 1) == Step(StateAt(events, n), events[n]);
    ControlKeptIff(StateAt(events, n + 1), rest, a);
  }

  // ---- A stamped claim ----

  /** A check compares a tick at most 5000 ms after the refresh at `last`; it may have read it before, by less
      than a wrap of the counter. */
  predicate CheckInTime(s: State, e: Event, last: nat) {
    e.StreamCompare? && HasTick(s, e.link) ==>
      s.checks[e.link].now <= last + TIMEOUT_TICKS && last < s.checks[e.link].now + (TICK_WRAP - TIMEOUT_TICKS)
  }

  /** A held run in which no check is about to clear at the start, and every one compares in time. */
  ghost predicate HeldInTime(s: State, events: seq<Event>, a: nat) {
    Held(s, events, a) && (forall link :: !At(s, link, Expired))
    && forall i :: 0 <= i < |events| ==> CheckInTime(Continue(s, events, i), events[i], LastRefresh(s, events, i, a))
  }

  /** A stream check compares a tick it read before the stamp it compares with was written. */
  predicate Races(s: State, e: Event) {
    e.StreamCompare? && HasTick(s, e.link) && s.checks[e.link].now < s.last
  }

  /** In time, a comparison finds the claim stale exactly when it races with the stamp. */
  lemma StaleMeansRace(s: State, link: nat)
    requires CheckInTime(s, StreamCompare(link), s.last)
    ensures FindsStale(s, link) <==> Races(s, StreamCompare(link))
  {
    if HasTick(s, link) {
      var now := s.checks[link].now;
      if now < s.last {
        assert Elapsed(now, s.last) == now - s.last + TICK_WRAP;
      } else {
        assert Elapsed(now, s.last) == now - s.last;
      }
    }
  }

  lemma DecidesMeansRace(s: State, events: seq<Event>, a: nat, i: nat, link: nat)
    requires HeldInTime(s, events, a) && i < |events| && KeptBy(s, events, a, i) && events[i] == StreamCompare(link)
    ensures Decides(s, events, i, link) <==> Races(Continue(s, events, i), events[i])
  {
    hide Step, Races, FindsStale, CheckInTime, Held;
    LastIsLastRefresh(s, events, a, i);
    StaleMeansRace(Continue(s, events, i), link);
  }

  /** The check of `link` raced with a stamp at event i, and clears the claim at event j or before it. */
  predicate RacedThenCleared(s: State, events: seq<Event>, i: nat, j: nat, link: nat) {
    i < j < |events| && events[i] == StreamCompare(link) && Races(Continue(s, events, i), events[i])
    && events[j] == StreamClear(link)
  }

  ghost predicate NoRaceClears(s: State, events: seq<Event>, n: nat) {
    forall i: nat, j: nat, link :: j < n ==> !RacedThenCleared(s, events, i, j, link)
  }

  lemma {:induction false} HoldsWithoutRace(s: State, events: seq<Event>, a: nat, n: nat)
    requires n <= |events| && HeldInTime(s, events, a) && NoRaceClears(s, events, n)
    ensures KeptBy(s, events, a, n)
  {
    hide Step, RacedThenCleared, Held, Clears, CheckInTime;
    if n > 0 {
      assert NoRaceClears(s, events, n - 1);
      HoldsWithoutRace(s, events, a, n - 1);
      HoldsNext(s, events, a, n - 1);
      NoRaceNoClear(s, events, a, n);
    } else {
      HeldFromStart(s, events, a);
    }
  }

  lemma NoRaceNoClear(s: State, events: seq<Event>, a: nat, n: nat)
    requires 0 < n <= |events| && HeldInTime(s, events, a) && NoRaceClears(s, events, n) && KeptBy(s, events, a, n - 1)
    ensures !Clears(Continue(s, events, n - 1), events[n - 1])
  {
    hide Step, Decides, Held, Races, CheckInTime;
    if Clears(Continue(s, events, n - 1), events[n - 1]) {
      var link := events[n - 1].link;
      ExpiredOrigin(s, events, n - 1, link);
      var i: nat :| i < n - 1 && Decides(s, events, i, link);
      DecidesCompares(s, events, i, link);
      DecidesMeansRace(s, events, a, i, link);
      NotCompleted(s, events, n, i, n - 1, link);
    }
  }

  lemma DecidesCompares(s: State, events: seq<Event>, i: nat, link: nat)
    requires Decides(s, events, i, link)
    ensures i < |events| && events[i] == StreamCompare(link)
  {
  }

  lemma NotCompleted(s: State, events: seq<Event>, n: nat, i: nat, j: nat, link: nat)
    requires NoRaceClears(s, events, n) && j < n
    ensures !RacedThenCleared(s, events, i, j, link)
  {
  }

  /** From a stamped claim with no check about to clear, and with every check in time, the owner keeps control
      throughout exactly when no check both reads its tick before a stamp it compares with and gets to clear. */
  lemma LeaseHoldsIff(s: State, events: seq<Event>, a: nat)
    requires HeldInTime(s, events, a)
    ensures KeptBy(s, events, a, |events|) <==> NoRaceClears(s, events, |events|)
  {
    hide Step, RacedThenCleared, CheckInTime;
    if NoRaceClears(s, events, |events|) {
      HoldsWithoutRace(s, events, a, |events|);
    } else if KeptBy(s, events, a, |events|) {
      var i: nat, j: nat, link :| j < |events| && RacedThenCleared(s, events, i, j, link);
      RaceIsDoom(s, events, a, i, j, link);
      DoomLosesClaim(s, events, a, j, link);
    }
  }

  lemma RaceIsDoom(s: State, events: seq<Event>, a: nat, i: nat, j: nat, link: nat)
    requires HeldInTime(s, events, a) && KeptBy(s, events, a, |events|) && RacedThenCleared(s, events, i, j, link)
    ensures Doomed(s, events, j, link)
  {
    hide Step, Held, CheckInTime, Decides, Races;
    DecidesMeansRace(s, events, a, i, link);
  }

  /** With every tick read after the stamp it is compared with, such an owner never loses control. */
  lemma OrderedReadsHold(s: State, events: seq<Event>, a: nat)
    requires HeldInTime(s, events, a)
    requires forall i :: 0 <= i < |events| ==> !Races(Continue(s, events, i), events[i])
    ensures KeptBy(s, events, a, |events|)
  {
    LeaseHoldsIff(s, events, a);
  }

  // ---- The races happen ----

  /** A tick read at 100, a heartbeat stamped at 101, then the comparison: the claim refreshed that instant
      is dropped. */
  lemma StampBetweenReadsDropsClaim()
    ensures var s1 := Step(State(1, 50, None, false, map[]), StreamEnter(1));
      var s2 := Step(s1, StreamTick(1, 100));
      var s3 := Step(s2, GateEvent(Command(1, LANE_SIZE, OP_TRANSPORT_SESSION, HEARTBEAT, 1), 101, 101));
      var s4 := Step(s3, StreamCompare(1));
      s4.owner == 1 && s4.last == 101 && Step(s4, StreamClear(1)).owner == NONE
  {
    assert Elapsed(100, 101) == TICK_WRAP - 1;
  }

  /** A clear decided against a claim that did run out, and written after the CONNECT of another link. */
  lemma OldDecisionDropsNewClaim()
    ensures var connect := Command(2, LANE_SIZE, OP_TRANSPORT_SESSION, CONNECT, 2);
      var s1 := Step(Step(State(1, 0, None, false, map[]), StreamEnter(1)), StreamTick(1, 600));
      var s2 := Step(s1, StreamCompare(1));
      var s3 := Step(Step(s2, GateEvent(connect, 600, 600)), HandleEvent(600, 600));
      var s4 := Step(s3, StampEvent(600));
      s4.owner == 2 && s4.last == 600 && Step(s4, StreamClear(1)).owner == NONE
  {
  }

  /** A comparison between a CONNECT's owner and its stamp: it sees the new owner with the old stamp. */
  lemma UnstampedClaimIsDropped()
    ensures var connect := Command(2, LANE_SIZE, OP_TRANSPORT_SESSION, CONNECT, 2);
      var s1 := Step(Step(Start, GateEvent(connect, 1000, 1000)), HandleEvent(1000, 1000));
      var s2 := Step(Step(s1, StreamEnter(2)), StreamTick(2, 1000));
      var s3 := Step(Step(s2, StreamCompare(2)), StampEvent(1000));
      s3.owner == 2 && s3.last == 1000 && Step(s3, StreamClear(2)).owner == NONE
  {
  }
}
