/** The firmware's lease variables, a source byte and a wrapping 32-bit tick stamp, refine the lease. */
module Session {
  import opened Wrappers
  import S = SessionSpec

  /** Unsigned 32-bit subtraction of two tick counts is the real difference modulo 2^32. */
  lemma TickDifference(now: nat, last: nat)
    ensures (now % S.TICK_WRAP - last % S.TICK_WRAP) % S.TICK_WRAP == S.Elapsed(now, last)
  {
    var w := S.TICK_WRAP;
    var qn, ql := now / w, last / w;
    assert now - last == (now % w - last % w) + (qn - ql) * w;
    WrapMultiple(now % w - last % w, qn - ql);
  }

  lemma WrapMultiple(x: int, k: int)
    ensures (x + k * S.TICK_WRAP) % S.TICK_WRAP == x % S.TICK_WRAP
  {
  }

  class Lease {
    var activeSource: nat
    var lastActivityTick: nat
    // The command task's place between its calls, and the receive tasks' places within a stream check.
    var pending: Option<S.Command>
    var unstamped: bool
    var checks: map<nat, S.Check>
    ghost var last: nat

    ghost predicate Valid()
      reads this
    {
      lastActivityTick == last % S.TICK_WRAP
    }

    ghost function Abs(): S.State
      reads this
    {
      S.State(activeSource, last, pending, unstamped, checks)
    }

    constructor ()
      ensures Valid() && Abs() == S.Start
    {
      activeSource, lastActivityTick, last := S.NONE, 0, 0;
      pending, unstamped, checks := None, false, map[];
    }

    /** expire_stale_claim, reading the tick counter at real time `now`. */
    method ExpireStaleClaim(now: nat)
      requires Valid()
      modifies this`activeSource
      ensures Valid() && Abs() == S.Expire(old(Abs()), now)
    {
      if activeSource == S.NONE {
        return;
      }
      var tick := now % S.TICK_WRAP;
      TickDifference(now, last);
      if (tick - lastActivityTick) % S.TICK_WRAP > S.TIMEOUT_TICKS {
        activeSource := S.NONE;
      }
    }

    method Stamp(now: nat)
      modifies this`lastActivityTick, this`last
      ensures Valid() && last == now
    {
      lastActivityTick := now % S.TICK_WRAP;
      last := now;
    }

    /** transport_session_allows_command. */
    method AllowsCommand(cmd: S.Command, now: nat, stamp: nat) returns (allowed: bool)
      requires Valid()
      modifies this`activeSource, this`lastActivityTick, this`last
      ensures Valid() && (Abs(), allowed) == S.Gate(old(Abs()), cmd, now, stamp)
    {
      ExpireStaleClaim(now);
      if S.IsConnect(cmd) {
        return activeSource == S.NONE || activeSource == cmd.source;
      }
      if S.IsDiscovery(cmd) {
        return true;
      }
      if activeSource == S.NONE {
        return false;
      }
      if activeSource != cmd.source {
        return false;
      }
      Stamp(stamp);
      return true;
    }

    /** transport_session_allows_stream with nobody in between. */
    method AllowsStream(source: nat, now: nat) returns (allowed: bool)
      requires Valid()
      modifies this`activeSource
      ensures Valid() && Abs() == S.Expire(old(Abs()), now)
      ensures allowed == S.AllowsStream(S.Expire(old(Abs()), now), source)
    {
      ExpireStaleClaim(now);
      allowed := activeSource != S.NONE && activeSource == source;
    }

    /** A stream check's first read, of the owner. */
    method EnterCheck(link: nat)
      requires Valid()
      modifies this`checks
      ensures Valid() && Abs() == S.Step(old(Abs()), S.StreamEnter(link))
    {
      if link !in checks {
        checks := checks[link := if activeSource == S.NONE then S.Settled else S.Seen];
      }
    }

    /** Its second, of the tick counter. */
    method ReadTick(link: nat, now: nat)
      requires Valid()
      modifies this`checks
      ensures Valid() && Abs() == S.Step(old(Abs()), S.StreamTick(link, now))
    {
      if link in checks && checks[link] == S.Seen {
        checks := checks[link := S.Ticked(now)];
      }
    }

    /** Its third, of the stamp, and the comparison: unsigned, with the tick read before. */
    method CompareTick(link: nat)
      requires Valid()
      modifies this`checks
      ensures Valid() && Abs() == S.Step(old(Abs()), S.StreamCompare(link))
    {
      if link in checks && checks[link].Ticked? {
        var tick := checks[link].now % S.TICK_WRAP;
        TickDifference(checks[link].now, last);
        if (tick - lastActivityTick) % S.TICK_WRAP > S.TIMEOUT_TICKS {
          checks := checks[link := S.Expired];
        } else {
          checks := checks[link := S.Settled];
        }
      }
    }

    /** Its write. */
    method ClearClaim(link: nat)
      requires Valid()
      modifies this`activeSource, this`checks
      ensures Valid() && Abs() == S.Step(old(Abs()), S.StreamClear(link))
    {
      if link in checks && checks[link] == S.Expired {
        activeSource := S.NONE;
        checks := checks[link := S.Settled];
      }
    }

    /** Its last read, of the owner again. */
    method AnswerCheck(link: nat) returns (allowed: bool)
      requires Valid()
      modifies this`checks
      ensures Valid() && Abs() == S.Step(old(Abs()), S.StreamRead(link))
      ensures allowed == (S.At(old(Abs()), link, S.Settled) && S.AllowsStream(Abs(), link))
    {
      allowed := false;
      if link in checks && checks[link] == S.Settled {
        allowed := activeSource != S.NONE && activeSource == link;
        checks := checks - {link};
      }
    }

    /** transport_session_connect up to writing the owner. */
    method Claim(source: nat, now: nat) returns (ok: bool)
      requires Valid()
      modifies this`activeSource, this`unstamped
      ensures Valid() && (Abs(), ok) == S.Claim(old(Abs()), source, now)
    {
      ExpireStaleClaim(now);
      if source == S.NONE {
        return false;
      }
      if activeSource != S.NONE && activeSource != source {
        return false;
      }
      activeSource := source;
      unstamped := true;
      return true;
    }

    /** Its last line: the stamp. */
    method StampClaim(stamp: nat)
      requires Valid()
      modifies this`lastActivityTick, this`last, this`unstamped
      ensures Valid() && Abs() == S.Step(old(Abs()), S.StampEvent(stamp))
    {
      if unstamped {
        Stamp(stamp);
        unstamped := false;
      }
    }

    /** transport_session_connect with nobody in between. */
    method Connect(source: nat, now: nat, stamp: nat) returns (ok: bool)
      requires Valid() && !unstamped
      modifies this`activeSource, this`lastActivityTick, this`last, this`unstamped
      ensures Valid() && !unstamped && ok == S.Claim(old(Abs()), source, now).1
      ensures !ok ==> Abs() == S.Expire(old(Abs()), now)
      ensures ok ==> Abs() == old(Abs()).(owner := source, last := stamp)
    {
      ok := Claim(source, now);
      StampClaim(stamp);
    }

    /** transport_session_disconnect. */
    method Disconnect(source: nat, now: nat) returns (ok: bool)
      requires Valid()
      modifies this`activeSource
      ensures Valid() && (Abs(), ok) == S.Disconnect(old(Abs()), source, now)
    {
      ExpireStaleClaim(now);
      if activeSource == S.NONE {
        return true;
      }
      if activeSource != source {
        return false;
      }
      activeSource := S.NONE;
      return true;
    }

    /** transport_session_heartbeat. */
    method Heartbeat(source: nat, now: nat, stamp: nat) returns (ok: bool)
      requires Valid()
      modifies this`activeSource, this`lastActivityTick, this`last
      ensures Valid() && (Abs(), ok) == S.Heartbeat(old(Abs()), source, now, stamp)
    {
      ExpireStaleClaim(now);
      if activeSource != source || source == S.NONE {
        return false;
      }
      Stamp(stamp);
      return true;
    }

    /** handle_transport_session_opcode up to a CONNECT's stamp, and every other opcode as far as the lease goes. */
    method HandlePacket(cmd: S.Command, now: nat, stamp: nat)
      requires Valid()
      modifies this`activeSource, this`lastActivityTick, this`last, this`unstamped
      ensures Valid() && Abs() == S.Handle(old(Abs()), cmd, now, stamp)
    {
      if cmd.length != S.LANE_SIZE || cmd.op != S.OP_TRANSPORT_SESSION {
        return;
      }
      if cmd.sub == S.STATUS {
        ExpireStaleClaim(now);
      } else if cmd.sub == S.CONNECT {
        if cmd.requested == cmd.source { var _ := Claim(cmd.source, now); }
      } else if cmd.sub == S.DISCONNECT {
        if cmd.requested == cmd.source { var _ := Disconnect(cmd.source, now); }
      } else if cmd.sub == S.HEARTBEAT {
        if cmd.requested == cmd.source { var _ := Heartbeat(cmd.source, now, stamp); }
      }
    }

    /** One atomic step of the command task or of a receive task. */
    method Perform(e: S.Event)
      requires Valid()
      modifies this
      ensures Valid() && Abs() == S.Step(old(Abs()), e)
    {
      match e {
        case GateEvent(cmd, now, stamp) =>
          if pending.None? && !unstamped && cmd.length != 0 {
            var allowed := AllowsCommand(cmd, now, stamp);
            if allowed { pending := Some(cmd); }
          }
        case HandleEvent(now, stamp) =>
          if pending.Some? {
            HandlePacket(pending.value, now, stamp);
            pending := None;
          }
        case StampEvent(stamp) => StampClaim(stamp);
        case StreamEnter(link) => EnterCheck(link);
        case StreamTick(link, now) => ReadTick(link, now);
        case StreamCompare(link) => CompareTick(link);
        case StreamClear(link) => ClearClaim(link);
        case StreamRead(link) => var _ := AnswerCheck(link);
      }
    }

    /** Any run from boot reaches exactly the abstract states. */
    method PerformAll(events: seq<S.Event>)
      requires Valid() && Abs() == S.Start
      modifies this
      ensures Valid() && Abs() == S.StateAt(events, |events|)
    {
      for i := 0 to |events|
        invariant Valid() && Abs() == S.StateAt(events, i)
      {
        hide S.Step;
        Perform(events[i]);
      }
    }
  }
}
