/** From the sampled pin to the host's buffer: the sampler's lanes through SysEx frames into a sampling session. */
module EndToEnd {
  import opened Bytes
  import opened Machine
  import opened Sysex
  import opened Host
  import S = SamplerSpec

  /** The bytes of the lanes the transport accepted. */
  ghost predicate Carries(lanes: seq<seq<byte>>, wire: seq<S.Lane>) {
    |lanes| == |wire| && forall i :: 0 <= i < |lanes| ==> |lanes[i]| == 18 && Unpack(lanes[i]) == wire[i]
  }

  /** Each lane in a superframe whose command lane is empty, with the firmware's padding behind it. */
  ghost predicate Sends(lanes: seq<seq<byte>>, sent: seq<Sent>) {
    |sent| == |lanes|
    && (forall i :: 0 <= i < |sent| ==> Quiet(sent[i].padding) && AllZero(sent[i].frame[..18]))
    && (forall i :: 0 <= i < |sent| ==> sent[i].frame[18..] == lanes[i])
  }

  lemma {:induction false} StreamLanesAre(lanes: seq<seq<byte>>, sent: seq<Sent>)
    requires Sends(lanes, sent)
    ensures StreamLanes(sent) == lanes
  {
    if sent != [] {
      var n := |sent| - 1;
      StreamLanesAre(lanes[..n], sent[..n]);
    }
  }

  lemma {:induction false} UnpackLanes(lanes: seq<seq<byte>>, wire: seq<S.Lane>)
    requires Carries(lanes, wire)
    ensures Unpack(Concat(lanes)) == S.Flatten(wire)
  {
    hide Unpack;
    if lanes != [] {
      var n := |lanes| - 1;
      UnpackLanes(lanes[..n], wire[..n]);
      UnpackAppend(Concat(lanes[..n]), lanes[n]);
    } else {
      UnpackNothing();
    }
  }

  lemma UnpackNothing()
    ensures Unpack([]) == []
  {
  }

  lemma {:induction false} FlattenPrefix(all: seq<S.Lane>, n: nat)
    requires n <= |all|
    ensures |S.Flatten(all[..n])| == S.LANE_BITS * n && S.Flatten(all[..n]) <= S.Flatten(all)
    decreases |all|
  {
    S.FlattenLength(all[..n]);
    if n < |all| {
      var m := |all| - 1;
      FlattenPrefix(all[..m], n);
      assert all[..m][..n] == all[..n];
    } else {
      assert all[..n] == all;
    }
  }

  /** Over every run of the sampler, every cut into chunks and every accumulator state: what a sampling session stores
      of the lanes sent unpacks to the kept lanes' samples, in order, and to the sampled signal itself if no lane began
      with the ring full. */
  lemma SamplesArrive(events: seq<S.Event>, lanes: seq<seq<byte>>, sent: seq<Sent>)
    requires Carries(lanes, S.Run(events).s.wire) && Sends(lanes, sent)
    ensures var t := S.Run(events);
      var stored := Unpack(Concat(SelectedLanes(sent, true)));
      S.Sampled(t.samples, S.Kept(t.boundary))
      && stored <= S.Flatten(S.LanesAt(t.samples, S.Kept(t.boundary)))
      && |stored| == S.LANE_BITS * |t.s.wire|
      && (S.AllBeganWithRoom(t.boundary) ==> stored <= t.samples)
  {
    hide Unpack, Concat, S.Run, S.Kept, S.LanesAt, SelectedLanes;
    var t := S.Run(events);
    SamplesOnlyIff(sent);
    StreamLanesAre(lanes, sent);
    UnpackLanes(lanes, t.s.wire);
    S.DeliveredLanes(events);
    var all := t.s.wire + S.Waiting(t.s);
    FlattenPrefix(all, |t.s.wire|);
    assert all[..|t.s.wire|] == t.s.wire;
    S.LosslessIffNeverFull(events);
  }

  /** The session that receives them. */
  method Receive(session: Session, events: seq<S.Event>, ghost lanes: seq<seq<byte>>, ghost sent: seq<Sent>,
    chunks: seq<seq<byte>>, times: seq<Timestamp>)
    requires session.Valid() && session.samplerStreamingActive && |times| == |chunks|
    requires Carries(lanes, S.Run(events).s.wire) && Sends(lanes, sent) && Concat(chunks) == Line(sent)
    modifies session`rxBytes, session`rxTsMs, session`accumulator
    ensures session.Valid()
    ensures old(session.rxBytes) <= session.rxBytes
    ensures var t := S.Run(events);
      var stored := Unpack(session.rxBytes[|old(session.rxBytes)|..]);
      S.Sampled(t.samples, S.Kept(t.boundary))
      && stored <= S.Flatten(S.LanesAt(t.samples, S.Kept(t.boundary)))
      && |stored| == S.LANE_BITS * |t.s.wire|
      && (S.AllBeganWithRoom(t.boundary) ==> stored <= t.samples)
  {
    hide Unpack, Concat, S.Run, S.Kept, S.LanesAt, SelectedLanes, S.Flatten, S.Sampled;
    ghost var was := session.rxBytes;
    ghost var _ := session.FeedChunks(chunks, times, sent);
    SamplesArrive(events, lanes, sent);
    assert session.rxBytes[|was|..] == Concat(SelectedLanes(sent, true));
  }
}
