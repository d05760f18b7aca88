/** Incremental parsers: a step per input element, each step handing over some outputs. */
module Machine {
  function Run<S, A, B>(step: (S, A) -> (S, seq<B>), s: S, input: seq<A>): (S, seq<B>) {
    if input == [] then (s, [])
    else
      var n := |input| - 1;
      var before := Run(step, s, input[..n]);
      var last := step(before.0, input[n]);
      (last.0, before.1 + last.1)
  }

  function Concat<A>(chunks: seq<seq<A>>): seq<A> {
    if chunks == [] then [] else Concat(chunks[..|chunks| - 1]) + chunks[|chunks| - 1]
  }

  lemma {:induction false} ConcatAppend<A>(a: seq<seq<A>>, b: seq<seq<A>>)
    ensures Concat(a + b) == Concat(a) + Concat(b)
  {
    if b == [] {
      assert a + b == a;
    } else {
      var n := |b| - 1;
      ConcatAppend(a, b[..n]);
      assert (a + b)[..|a| + n] == a + b[..n];
    }
  }

  /** One call per chunk, state kept between calls. */
  function RunChunks<S, A, B>(step: (S, A) -> (S, seq<B>), s: S, chunks: seq<seq<A>>): (S, seq<B>) {
    if chunks == [] then (s, [])
    else
      var n := |chunks| - 1;
      var before := RunChunks(step, s, chunks[..n]);
      var last := Run(step, before.0, chunks[n]);
      (last.0, before.1 + last.1)
  }

  lemma RunNext<S, A, B>(step: (S, A) -> (S, seq<B>), s: S, input: seq<A>, a: A)
    ensures var before := Run(step, s, input);
      var last := step(before.0, a);
      && Run(step, s, input + [a]) == (last.0, before.1 + last.1)
      && (last.1 == [] ==> before.1 + last.1 == before.1)
      && (before.1 == [] ==> before.1 + last.1 == last.1)
  {
    assert (input + [a])[..|input|] == input;
  }

  lemma RunStep<S, A, B>(step: (S, A) -> (S, seq<B>), s: S, input: seq<A>, a: A,
                         mid: S, first: seq<B>, end: S, second: seq<B>)
    requires Run(step, s, input) == (mid, first) && step(mid, a) == (end, second)
    ensures Run(step, s, input + [a]) == (end, first + second)
  {
    RunNext(step, s, input, a);
  }

  lemma {:induction false} RunAppend<S, A, B>(step: (S, A) -> (S, seq<B>), s: S, a: seq<A>, b: seq<A>)
    ensures var first := Run(step, s, a); var second := Run(step, first.0, b);
      && Run(step, s, a + b) == (second.0, first.1 + second.1)
      && (first.1 == [] ==> first.1 + second.1 == second.1)
      && (second.1 == [] ==> first.1 + second.1 == first.1)
  {
    var first := Run(step, s, a);
    if b == [] {
      assert a + b == a;
      assert first.1 + [] == first.1;
    } else {
      hide Run;
      var n := |b| - 1;
      RunAppend(step, s, a, b[..n]);
      var second := Run(step, first.0, b[..n]);
      var last := step(second.0, b[n]);
      RunStep(step, s, a + b[..n], b[n], second.0, first.1 + second.1, last.0, last.1);
      RunStep(step, first.0, b[..n], b[n], second.0, second.1, last.0, last.1);
      SplitsAgain(a, b, n);
      Associates(first.1, second.1, last.1);
    }
  }

  lemma SplitsAgain<A>(a: seq<A>, b: seq<A>, n: nat)
    requires n + 1 == |b|
    ensures a + b == (a + b[..n]) + [b[n]] && b == b[..n] + [b[n]]
  {
  }

  lemma Associates<B>(a: seq<B>, b: seq<B>, c: seq<B>)
    ensures (a + b) + c == a + (b + c)
  {
  }

  lemma RunBoth<S, A, B>(step: (S, A) -> (S, seq<B>), s: S, a: seq<A>, b: seq<A>,
                         mid: S, first: seq<B>, end: S, second: seq<B>)
    requires Run(step, s, a) == (mid, first) && Run(step, mid, b) == (end, second)
    ensures Run(step, s, a + b) == (end, first + second)
  {
    RunAppend(step, s, a, b);
  }

  /** How the input is cut into calls does not matter. */
  lemma {:induction false} ChunkingIrrelevant<S, A, B>(step: (S, A) -> (S, seq<B>), s: S, chunks: seq<seq<A>>)
    ensures RunChunks(step, s, chunks) == Run(step, s, Concat(chunks))
  {
    if chunks != [] {
      hide Run;
      var n := |chunks| - 1;
      ChunkingIrrelevant(step, s, chunks[..n]);
      RunAppend(step, s, Concat(chunks[..n]), chunks[n]);
    }
  }
}
