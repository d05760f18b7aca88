/** Whose chunks an update holds: the two transports' guards, and every run of what the callbacks do to them. */
module OtaLinks {
  import opened Wrappers

  datatype Link = Ble | Http

  /** Who began the open update, the BLE session flag, and whether an HTTP upload's loop is under way. */
  datatype Guards = Guards(open: Option<Link>, ble: bool, posting: bool)

  /** What one callback comes to: it begins an update, adds a chunk, closes the update, dropping or keeping
      the two guards, or does none of these. */
  datatype Move =
    | Opens(link: Link)
    | Takes(link: Link)
    | Closes(dropBle: bool, dropPosting: bool)
    | Keeps

  const Idle := Guards(None, false, false)

  function Next(g: Guards, m: Move): Guards {
    match m
    case Opens(Ble) => Guards(Some(Ble), true, g.posting)
    case Opens(Http) => Guards(Some(Http), g.ble, true)
    case Takes(_) => g
    case Closes(dropBle, dropPosting) => Guards(None, g.ble && !dropBle, g.posting && !dropPosting)
    case Keeps => g
  }

  /** The guard a transport's own chunks have to pass. */
  predicate Guard(g: Guards, link: Link) {
    if link.Ble? then g.ble else g.posting
  }

  function Other(link: Link): Link {
    if link.Ble? then Http else Ble
  }

  /** No update begins while one is open, and a chunk needs an open update and its transport's guard. */
  predicate Enabled(g: Guards, m: Move) {
    (m.Opens? ==> g.open.None?) && (m.Takes? ==> g.open.Some? && Guard(g, m.link))
  }

  function GuardsAt(moves: seq<Move>, i: nat): Guards
    requires i <= |moves|
  {
    if i == 0 then Idle else Next(GuardsAt(moves, i - 1), moves[i - 1])
  }

  ghost predicate Possible(moves: seq<Move>) {
    forall i :: 0 <= i < |moves| ==> Enabled(GuardsAt(moves, i), moves[i])
  }

  /** Move j adds a chunk to an update the other transport began. */
  predicate Foreign(moves: seq<Move>, j: nat)
    requires j < |moves|
  {
    moves[j].Takes? && GuardsAt(moves, j).open == Some(Other(moves[j].link))
  }

  /** Move i begins the update that is still open before move j. */
  predicate StillOpen(moves: seq<Move>, i: nat, j: nat) {
    i < j <= |moves| && moves[i].Opens? && forall k :: i < k < j ==> !moves[k].Opens? && !moves[k].Closes?
  }

  /** Move i begins an update while the other transport's guard is up. */
  predicate OpensUnder(moves: seq<Move>, i: nat) {
    i < |moves| && moves[i].Opens? && Guard(GuardsAt(moves, i), Other(moves[i].link))
  }

  /** Before move j an update is open exactly if one was begun and not closed since; its beginner's guard went
      up with it, and the other's guard is only up if it was up then. */
  lemma {:induction false} OpenSince(moves: seq<Move>, j: nat) returns (i: nat)
    requires j <= |moves| && Possible(moves) && GuardsAt(moves, j).open.Some?
    ensures StillOpen(moves, i, j) && GuardsAt(moves, j).open == Some(moves[i].link)
    ensures Guard(GuardsAt(moves, j), Other(moves[i].link)) <==> Guard(GuardsAt(moves, i), Other(moves[i].link))
  {
    hide Next, Possible;
    var before := GuardsAt(moves, j - 1);
    assert GuardsAt(moves, j) == Next(before, moves[j - 1]);
    EnabledAt(moves, j - 1);
    StaysOpen(before, moves[j - 1]);
    if moves[j - 1].Opens? {
      i := j - 1;
    } else {
      i := OpenSince(moves, j - 1);
    }
  }

  lemma EnabledAt(moves: seq<Move>, i: nat)
    requires Possible(moves) && i < |moves|
    ensures Enabled(GuardsAt(moves, i), moves[i])
  {
  }

  /** After a move an update is open if the move began it, which leaves the other guard, or if it was open and the
      move did not close it, which leaves all. */
  lemma StaysOpen(g: Guards, m: Move)
    requires Next(g, m).open.Some?
    ensures m.Opens? ==>
      Next(g, m).open == Some(m.link) && Guard(Next(g, m), Other(m.link)) == Guard(g, Other(m.link))
    ensures !m.Opens? ==> Next(g, m) == g && !m.Closes?
  {
  }

  lemma {:induction false} OpenUntil(moves: seq<Move>, i: nat, j: nat)
    requires StillOpen(moves, i, j)
    ensures GuardsAt(moves, j).open == Some(moves[i].link)
  {
    if j > i + 1 {
      OpenUntil(moves, i, j - 1);
    }
  }

  /** Move j adds a chunk to the update begun by the other transport at move i, under the chunk's guard. */
  predicate Mixes(moves: seq<Move>, i: nat, j: nat) {
    j < |moves| && StillOpen(moves, i, j) && OpensUnder(moves, i)
    && moves[j].Takes? && moves[j].link != moves[i].link
  }

  /** A chunk goes to the other transport's update exactly if that update was begun while the guard of the
      chunk's transport was already up. */
  lemma ForeignIff(moves: seq<Move>, j: nat)
    requires Possible(moves) && j < |moves|
    ensures Foreign(moves, j) <==> exists i: nat :: Mixes(moves, i, j)
  {
    if moves[j].Takes? {
      assert Enabled(GuardsAt(moves, j), moves[j]);
      var i := OpenSince(moves, j);
      if Foreign(moves, j) {
        assert Mixes(moves, i, j);
      }
      if k: nat :| Mixes(moves, k, j) {
        OpenUntil(moves, k, j);
      }
    }
  }

  /** Over every run: each chunk is in an update of its own transport exactly if no update begun while the
      other guard was up gets a chunk of the other transport. */
  lemma OwnedIff(moves: seq<Move>)
    requires Possible(moves)
    ensures Owned(moves) <==> forall i: nat, j: nat :: !Mixes(moves, i, j)
  {
    hide Foreign, Mixes, Possible;
    forall i: nat, j: nat
      ensures Owned(moves) ==> !Mixes(moves, i, j)
    {
      if Mixes(moves, i, j) {
        MixesInside(moves, i, j);
        ForeignIff(moves, j);
      }
    }
    if !Owned(moves) {
      var j: nat :| j < |moves| && Foreign(moves, j);
      ForeignIff(moves, j);
    }
  }

  lemma MixesInside(moves: seq<Move>, i: nat, j: nat)
    requires Mixes(moves, i, j)
    ensures j < |moves|
  {
  }

  ghost predicate Owned(moves: seq<Move>) {
    forall j: nat :: j < |moves| ==> !Foreign(moves, j)
  }

  /** As long as an update stays open, a chunk of the other transport is admitted next exactly if that transport's
      guard was up when the update was begun. */
  lemma CanMixIff(moves: seq<Move>, i: nat)
    requires Possible(moves) && StillOpen(moves, i, |moves|)
    ensures Possible(moves + [Takes(Other(moves[i].link))]) <==> OpensUnder(moves, i)
  {
    hide Possible, Next;
    var n := |moves|;
    OpenUntil(moves, i, n);
    var k := OpenSince(moves, n);
    OneBegin(moves, i, k, n);
    PossibleNext(moves, Takes(Other(moves[i].link)));
  }

  lemma OneBegin(moves: seq<Move>, i: nat, k: nat, j: nat)
    requires StillOpen(moves, i, j) && StillOpen(moves, k, j)
    ensures i == k
  {
  }

  /** A run in which no update is begun under the other's guard has every chunk in its own transport's update. */
  lemma NeverUnderIsOwned(moves: seq<Move>)
    requires Possible(moves) && forall i: nat :: i < |moves| ==> !OpensUnder(moves, i)
    ensures Owned(moves)
  {
    hide OpensUnder;
    OwnedIff(moves);
  }

  /** Without an upload nothing can mix. */
  lemma {:induction false} NoUploadNoPosting(moves: seq<Move>, i: nat)
    requires i <= |moves| && forall k :: 0 <= k < |moves| ==> moves[k] != Opens(Http)
    ensures !GuardsAt(moves, i).posting && GuardsAt(moves, i).open != Some(Http)
  {
    if i > 0 {
      NoUploadNoPosting(moves, i - 1);
    }
  }

  lemma NoUploadIsOwned(moves: seq<Move>)
    requires Possible(moves) && forall k :: 0 <= k < |moves| ==> moves[k] != Opens(Http)
    ensures Owned(moves)
  {
    hide Possible, Next;
    forall i: nat | i < |moves|
      ensures !OpensUnder(moves, i)
    {
      NoUploadNoPosting(moves, i);
    }
    NeverUnderIsOwned(moves);
  }

  lemma PossibleNext(moves: seq<Move>, m: Move)
    requires Possible(moves)
    ensures Possible(moves + [m]) <==> Enabled(GuardsAt(moves, |moves|), m)
    ensures GuardsAt(moves + [m], |moves| + 1) == Next(GuardsAt(moves, |moves|), m)
  {
    hide Enabled, Next;
    var n, longer := |moves|, moves + [m];
    forall i: nat | i <= n
      ensures GuardsAt(longer, i) == GuardsAt(moves, i)
    {
      SameStart(moves, longer, i);
    }
    assert longer[n] == m && forall i :: 0 <= i < n ==> longer[i] == moves[i];
    assert Possible(longer) ==> Enabled(GuardsAt(longer, n), longer[n]);
    if Enabled(GuardsAt(moves, n), m) {
      forall i | 0 <= i < n + 1
        ensures Enabled(GuardsAt(longer, i), longer[i])
      {
        if i < n { assert Enabled(GuardsAt(moves, i), moves[i]); }
      }
    }
  }

  lemma OwnedNext(moves: seq<Move>, m: Move)
    ensures Owned(moves + [m]) <==>
      Owned(moves) && !(m.Takes? && GuardsAt(moves, |moves|).open == Some(Other(m.link)))
  {
    var n, longer := |moves|, moves + [m];
    forall j: nat | j <= n
      ensures GuardsAt(longer, j) == GuardsAt(moves, j)
      ensures j < n ==> Foreign(longer, j) == Foreign(moves, j)
    {
      SameStart(moves, longer, j);
    }
    assert Foreign(longer, n) <==> m.Takes? && GuardsAt(moves, n).open == Some(Other(m.link));
  }

  lemma {:induction false} SameStart(moves: seq<Move>, longer: seq<Move>, i: nat)
    requires i <= |moves| && moves <= longer
    ensures GuardsAt(longer, i) == GuardsAt(moves, i)
  {
    if i > 0 {
      SameStart(moves, longer, i - 1);
    }
  }
}
