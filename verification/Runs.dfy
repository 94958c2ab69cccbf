/** Runs of a step function over a sequence of inputs: how a resumable routine behaves over its calls. */
module Runs {

  datatype Result<S, O> = Result(state: S, output: seq<O>)

  /** Feeds `inputs` one by one, left to right, and collects what the steps emit. */
  function Run<S, I, O>(step: (S, I) -> Result<S, O>, s: S, inputs: seq<I>): Result<S, O> {
    if inputs == [] then Result(s, [])
    else
      var before := Run(step, s, inputs[..|inputs| - 1]);
      var last := step(before.state, inputs[|inputs| - 1]);
      Result(last.state, before.output + last.output)
  }

  lemma RunEmpty<S, I, O>(step: (S, I) -> Result<S, O>, s: S)
    ensures Run(step, s, []) == Result(s, [])
  {
  }

  lemma RunOne<S, I, O>(step: (S, I) -> Result<S, O>, s: S, input: I)
    ensures Run(step, s, [input]) == step(s, input)
  {
    assert [input][..0] == [];
    assert Run(step, s, [input]).output == [] + step(s, input).output == step(s, input).output;
  }

  lemma RunNext<S, I, O>(step: (S, I) -> Result<S, O>, s: S, inputs: seq<I>, k: nat)
    requires k < |inputs|
    ensures var before := Run(step, s, inputs[..k]);
            var last := step(before.state, inputs[k]);
            Run(step, s, inputs[..k + 1]) == Result(last.state, before.output + last.output)
  {
    assert inputs[..k + 1][..k] == inputs[..k];
  }

  lemma RunSnoc<S, I, O>(step: (S, I) -> Result<S, O>, s: S, inputs: seq<I>, last: I)
    ensures var before := Run(step, s, inputs);
            var after := step(before.state, last);
            Run(step, s, inputs + [last]) == Result(after.state, before.output + after.output)
  {
    assert (inputs + [last])[..|inputs|] == inputs;
  }

  /** The output of a prefix is a prefix of the output. */
  lemma {:induction false} RunGrows<S, I, O>(step: (S, I) -> Result<S, O>, s: S, inputs: seq<I>, k: nat)
    requires k <= |inputs|
    ensures Run(step, s, inputs[..k]).output <= Run(step, s, inputs).output
    decreases |inputs|
  {
    if k < |inputs| {
      RunGrows(step, s, inputs[..|inputs| - 1], k);
      assert inputs[..|inputs| - 1][..k] == inputs[..k];
    } else {
      assert inputs[..k] == inputs;
    }
  }

  /** Feeding `a` and then `b` leaves the same state and emits the same output as feeding `a + b`. */
  lemma {:induction false} RunConcat<S, I, O>(step: (S, I) -> Result<S, O>, s: S, a: seq<I>, b: seq<I>)
    ensures var first := Run(step, s, a);
            var second := Run(step, first.state, b);
            Run(step, s, a + b) == Result(second.state, first.output + second.output)
  {
    var first := Run(step, s, a);
    if b == [] {
      assert a + b == a;
      assert first.output + [] == first.output;
    } else {
      var init := b[..|b| - 1];
      var second := Run(step, first.state, init);
      var last := step(second.state, b[|b| - 1]);
      RunConcat(step, s, a, init);
      assert (a + b)[..|a + b| - 1] == a + init;
      assert (first.output + second.output) + last.output == first.output + (second.output + last.output);
    }
  }

  function Flatten<T>(chunks: seq<seq<T>>): seq<T> {
    if chunks == [] then [] else Flatten(chunks[..|chunks| - 1]) + chunks[|chunks| - 1]
  }

  /** Successive calls, one per chunk, each resuming in the state the previous one left. */
  function RunChunks<S, I, O>(step: (S, I) -> Result<S, O>, s: S, chunks: seq<seq<I>>): Result<S, O> {
    if chunks == [] then Result(s, [])
    else
      var before := RunChunks(step, s, chunks[..|chunks| - 1]);
      var last := Run(step, before.state, chunks[|chunks| - 1]);
      Result(last.state, before.output + last.output)
  }

  /** How the inputs are split over the calls does not matter. */
  lemma {:induction false} RunChunksIsRun<S, I, O>(step: (S, I) -> Result<S, O>, s: S, chunks: seq<seq<I>>)
    ensures RunChunks(step, s, chunks) == Run(step, s, Flatten(chunks))
  {
    if chunks != [] {
      RunChunksIsRun(step, s, chunks[..|chunks| - 1]);
      RunConcat(step, s, Flatten(chunks[..|chunks| - 1]), chunks[|chunks| - 1]);
    }
  }
}
