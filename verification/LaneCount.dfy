/** The lane count of the sampler ring when its interrupt and its task run on different cores: each side reads the
    count and writes it back, and the critical section of one core does not keep the other core's interrupt out. */
module LaneCount {
  import opened Wrappers

  /** A count read and not written back yet, with the other side's writes so far. */
  datatype Window = Window(value: nat, others: nat)

  datatype State = State(count: nat, commits: nat, pops: nat, isr: Option<Window>, task: Option<Window>)

  datatype Event = IsrRead | IsrWrite | TaskRead | TaskWrite

  const RING_LANES := 16
  const Start := State(0, 0, 0, None, None)

  function Step(s: State, e: Event): State {
    match e
    case IsrRead =>
      if s.isr.None? && s.count < RING_LANES then s.(isr := Some(Window(s.count, s.pops))) else s
    case IsrWrite =>
      if s.isr.None? then s else s.(count := s.isr.value.value + 1, commits := s.commits + 1, isr := None)
    case TaskRead =>
      if s.task.None? && s.count > 0 then s.(task := Some(Window(s.count, s.commits))) else s
    case TaskWrite =>
      if s.task.None? then s
      else s.(count := if s.task.value.value == 0 then 0 else s.task.value.value - 1, pops := s.pops + 1, task := None)
  }

  function StateAt(events: seq<Event>, i: nat): State
    requires i <= |events|
  {
    if i == 0 then Start else Step(StateAt(events, i - 1), events[i - 1])
  }

  /** The count is the lanes committed and not popped. */
  predicate Agrees(s: State) {
    s.count == s.commits - s.pops
  }

  ghost predicate AgreesUpTo(events: seq<Event>, n: nat)
    requires n <= |events|
  {
    forall i :: 0 <= i <= n ==> Agrees(StateAt(events, i))
  }

  /** The other side wrote the count since this side read it. */
  predicate Overtaken(s: State, e: Event) {
    (e.IsrWrite? && s.isr.Some? && s.isr.value.others != s.pops)
    || (e.TaskWrite? && s.task.Some? && s.task.value.others != s.commits)
  }

  /** What each side read was right when it read it. */
  predicate ReadRight(s: State) {
    (s.isr.Some? ==> s.isr.value.value == s.commits - s.isr.value.others)
    && (s.task.Some? ==> 0 < s.task.value.value == s.task.value.others - s.pops)
  }

  lemma StepReadsRight(s: State, e: Event)
    requires Agrees(s) && ReadRight(s)
    ensures ReadRight(Step(s, e))
    ensures Agrees(Step(s, e)) <==> !Overtaken(s, e)
  {
  }

  lemma {:induction false} AlwaysReadRight(events: seq<Event>, n: nat)
    requires n < |events| && AgreesUpTo(events, n)
    ensures ReadRight(StateAt(events, n)) && Agrees(StateAt(events, n))
  {
    hide Step, Agrees, ReadRight;
    if n > 0 {
      AlwaysReadRight(events, n - 1);
      StepReadsRight(StateAt(events, n - 1), events[n - 1]);
    } else {
      StartReadsRight();
    }
  }

  lemma StartReadsRight()
    ensures ReadRight(Start) && Agrees(Start)
  {
  }

  ghost predicate NoneOvertaken(events: seq<Event>, n: nat)
    requires n <= |events|
  {
    forall i :: 0 <= i < n ==> !Overtaken(StateAt(events, i), events[i])
  }

  /** On every run the count is right throughout exactly when neither side writes the count after the other wrote it
      since its read: when no commit falls between a pop's read and write, and no pop between a commit's. */
  lemma {:induction false} CountIff(events: seq<Event>, n: nat)
    requires n <= |events|
    ensures AgreesUpTo(events, n) <==> NoneOvertaken(events, n)
  {
    hide *;
    if n > 0 {
      CountIff(events, n - 1);
      OneMore(events, n);
      if AgreesUpTo(events, n - 1) {
        AlwaysReadRight(events, n - 1);
        StepReadsRight(StateAt(events, n - 1), events[n - 1]);
      }
    } else {
      NothingYet(events);
    }
  }

  lemma OneMore(events: seq<Event>, n: nat)
    requires 0 < n <= |events|
    ensures StateAt(events, n) == Step(StateAt(events, n - 1), events[n - 1])
    ensures AgreesUpTo(events, n) <==> AgreesUpTo(events, n - 1) && Agrees(StateAt(events, n))
    ensures NoneOvertaken(events, n) <==>
      NoneOvertaken(events, n - 1) && !Overtaken(StateAt(events, n - 1), events[n - 1])
  {
    hide Step, Agrees, Overtaken;
  }

  lemma NothingYet(events: seq<Event>)
    ensures AgreesUpTo(events, 0) && NoneOvertaken(events, 0)
  {
  }

  /** A commit inside a pop: two lanes committed, one popped, and a count of 0. The newest lane is lost to the task. */
  lemma CommitInsidePopIsLost()
    ensures var s1 := Step(Step(Start, IsrRead), IsrWrite);
      var s2 := Step(Step(Step(s1, TaskRead), IsrRead), IsrWrite);
      var s3 := Step(s2, TaskWrite);
      s3.commits == 2 && s3.pops == 1 && s3.count == 0
  {
  }

  /** A pop inside a commit: two lanes committed, one popped, and a count of 2. The task takes a slot not filled yet. */
  lemma PopInsideCommitIsLost()
    ensures var s1 := Step(Step(Start, IsrRead), IsrWrite);
      var s2 := Step(Step(Step(s1, IsrRead), TaskRead), TaskWrite);
      var s3 := Step(s2, IsrWrite);
      s3.commits == 2 && s3.pops == 1 && s3.count == 2
  {
  }
}
