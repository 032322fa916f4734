/** The dynamic-input rule of `refreshNode`: keep exactly one free input
    slot after the last linked one. */
module Ports {
  import opened Wrappers
  import opened Text
  import opened Graph

  predicate Linked(inp: Input) {
    inp.link.Some?
  }

  /** The input `node.addInput` appends to a list of `n` inputs. */
  function NewInput(n: nat): Input {
    Input("input_" + NatToString(n + 1), None)
  }

  /** Appending a free slot when the last input is linked. */
  function Grow(ins: seq<Input>): seq<Input> {
    if |ins| > 0 && Linked(ins[|ins| - 1]) then ins + [NewInput(|ins|)] else ins
  }

  /** Removing the last input when it and the one before it are free. The
      check runs on the list as `Grow` left it. */
  function Shrink(ins: seq<Input>): seq<Input> {
    if |ins| > 1 && !Linked(ins[|ins| - 1]) && !Linked(ins[|ins| - 2]) then ins[..|ins| - 1] else ins
  }

  /** One call of the rule; an empty list returns early. */
  function Step(ins: seq<Input>): seq<Input> {
    if |ins| == 0 then ins else Shrink(Grow(ins))
  }

  /** A linked last input gains exactly one free successor, named after
      the new length, and nothing is removed in the same call. */
  lemma StepGrows(ins: seq<Input>)
    requires |ins| > 0 && Linked(ins[|ins| - 1])
    ensures Step(ins) == ins + [Input("input_" + NatToString(|ins| + 1), None)]
  {
  }

  /** Two free inputs at the end lose exactly the last one. */
  lemma StepShrinks(ins: seq<Input>)
    requires |ins| > 1 && !Linked(ins[|ins| - 1]) && !Linked(ins[|ins| - 2])
    ensures Step(ins) == ins[..|ins| - 1]
  {
  }

  /** The settled shape: empty, or a free last input whose predecessor, if
      any, is linked. */
  predicate Settled(ins: seq<Input>) {
    |ins| == 0 || (!Linked(ins[|ins| - 1]) && (|ins| == 1 || Linked(ins[|ins| - 2])))
  }

  /** The rule changes nothing exactly on settled lists. */
  lemma SettledIffFixpoint(ins: seq<Input>)
    ensures Settled(ins) <==> Step(ins) == ins
  {
    if |ins| > 0 && Linked(ins[|ins| - 1]) {
      assert |Step(ins)| == |ins| + 1;
    } else if |ins| > 1 && !Linked(ins[|ins| - 2]) {
      assert |Step(ins)| == |ins| - 1;
    }
  }

  /** The rule never touches any input before the last one. */
  lemma StepKeepsPrefix(ins: seq<Input>)
    requires |ins| > 0
    ensures |Step(ins)| >= |ins| - 1
    ensures Step(ins)[..|ins| - 1] == ins[..|ins| - 1]
  {
  }

  /** The number of free inputs at the end of the list. */
  function TrailingFree(ins: seq<Input>): (r: nat)
    ensures r <= |ins|
    decreases |ins|
  {
    if |ins| == 0 || Linked(ins[|ins| - 1]) then 0 else 1 + TrailingFree(ins[..|ins| - 1])
  }

  /** `n` calls of the rule. */
  function Iterate(ins: seq<Input>, n: nat): seq<Input>
    decreases n
  {
    if n == 0 then ins else Iterate(Step(ins), n - 1)
  }

  /** The number of calls needed: one to add a slot after a linked last
      input, otherwise one per surplus free input at the end. */
  function StepsNeeded(ins: seq<Input>): nat {
    if |ins| == 0 then 0
    else if Linked(ins[|ins| - 1]) then 1
    else TrailingFree(ins) - 1
  }

  lemma TrailingFreeShrinks(ins: seq<Input>)
    requires |ins| > 1 && !Linked(ins[|ins| - 1]) && !Linked(ins[|ins| - 2])
    ensures TrailingFree(Step(ins)) == TrailingFree(ins) - 1
    ensures TrailingFree(ins) >= 2
  {
    StepShrinks(ins);
    assert TrailingFree(ins) == 1 + TrailingFree(ins[..|ins| - 1]);
  }

  lemma TrailingFreeSettled(ins: seq<Input>)
    requires |ins| > 0 && !Linked(ins[|ins| - 1])
    ensures TrailingFree(ins) >= 1
    ensures TrailingFree(ins) == 1 <==> Settled(ins)
  {
    var p := ins[..|ins| - 1];
    assert TrailingFree(ins) == 1 + TrailingFree(p);
    if |ins| > 1 {
      assert p[|p| - 1] == ins[|ins| - 2];
    }
  }

  /** Repeated calls settle the list after exactly `StepsNeeded` calls and
      stay settled; each call removes at most one input. */
  lemma {:induction false} Converges(ins: seq<Input>)
    ensures Settled(Iterate(ins, StepsNeeded(ins)))
    ensures forall m: nat :: m < StepsNeeded(ins) ==> !Settled(Iterate(ins, m))
    decreases |ins|
  {
    if |ins| == 0 {
    } else if Linked(ins[|ins| - 1]) {
      StepGrows(ins);
      var s := Step(ins);
      assert Iterate(ins, 1) == Iterate(s, 0) == s;
      assert s[|s| - 2] == ins[|ins| - 1];
      assert Iterate(ins, 0) == ins;
    } else {
      TrailingFreeSettled(ins);
      if !Settled(ins) {
        TrailingFreeShrinks(ins);
        var s := Step(ins);
        StepShrinks(ins);
        TrailingFreeSettled(s);
        assert StepsNeeded(s) == StepsNeeded(ins) - 1;
        Converges(s);
        forall m: nat | m < StepsNeeded(ins) ensures !Settled(Iterate(ins, m)) {
          if m > 0 {
            assert Iterate(ins, m) == Iterate(s, m - 1);
          }
        }
      }
    }
  }

  /** A concrete list that needs two calls: one linked input followed by
      three free ones. */
  lemma TwoCallsExample(a: Input, b: Input, c: Input, d: Input)
    requires Linked(a) && !Linked(b) && !Linked(c) && !Linked(d)
    ensures !Settled(Step([a, b, c, d]))
    ensures Settled(Step(Step([a, b, c, d])))
  {
    assert Step([a, b, c, d]) == [a, b, c];
    assert [a, b, c][..2] == [a, b];
    assert Step([a, b, c]) == [a, b];
  }
}
