/** The sequential meaning of a chain of filters: what a single-threaded program would do with the captured frames. */
module FilterSpec {

  /** What a child's action leaves in the buffer, and the status it reports. */
  datatype Outcome = Outcome(content: int, status: int)

  /** The behaviour of the children: the outcome of stage `i` on the last element of its input history.
      A function of the whole history covers children that keep state between calls. */
  type Action = (int, seq<int>) -> Outcome

  /** The cmd_result a child writes: status -1 makes it leave its loop and report 0. */
  function CmdResult(status: int): int {
    if status == -1 then 0 else status
  }

  predicate Passes(act: Action, i: int, inputs: seq<int>) {
    CmdResult(act(i, inputs).status) == 0
  }

  /** A child that quits with status -1 reports 0, so its last frame is forwarded like a good one. */
  lemma PassesIff(act: Action, i: int, inputs: seq<int>)
    ensures Passes(act, i, inputs) <==> act(i, inputs).status == 0 || act(i, inputs).status == -1
  { }

  /** The stream that stage `i` forwards when it is given `inputs` one after the other. */
  ghost function StageOut(act: Action, i: int, inputs: seq<int>): seq<int> {
    if inputs == [] then []
    else StageOut(act, i, inputs[..|inputs| - 1])
         + if Passes(act, i, inputs) then [act(i, inputs).content] else []
  }

  /** The output of the source (stage 0) is what it captured; later stages filter. */
  ghost function Out(act: Action, i: int, log: seq<int>): seq<int> {
    if i == 0 then log else StageOut(act, i, log)
  }

  /** The stream that leaves stage `i` of the chain when the source captured `captured`. */
  ghost function ChainOut(act: Action, i: nat, captured: seq<int>): seq<int> {
    if i == 0 then captured else StageOut(act, i, ChainOut(act, i - 1, captured))
  }

  lemma StageOutSnoc(act: Action, i: int, inputs: seq<int>, x: int)
    ensures StageOut(act, i, inputs + [x])
         == StageOut(act, i, inputs) + if Passes(act, i, inputs + [x]) then [act(i, inputs + [x]).content] else []
  {
    assert (inputs + [x])[..|inputs|] == inputs;
  }

  /** A stage that has seen less has forwarded a prefix. */
  lemma {:induction false} StageOutPrefix(act: Action, i: int, a: seq<int>, b: seq<int>)
    requires a <= b
    ensures StageOut(act, i, a) <= StageOut(act, i, b)
    decreases |b|
  {
    if |a| == |b| {
      assert a == b;
    } else {
      StageOutPrefix(act, i, a, b[..|b| - 1]);
    }
  }

  /** Stage `i` was given a prefix of what stage `i - 1` forwarded. */
  ghost predicate Fed(act: Action, logs: seq<seq<int>>, i: int)
    requires 0 < i < |logs|
  {
    logs[i] <= Out(act, i - 1, logs[i - 1])
  }

  /** Stage `i` was given all that stage `i - 1` forwarded. */
  ghost predicate FedAll(act: Action, logs: seq<seq<int>>, i: int)
    requires 0 < i < |logs|
  {
    logs[i] == Out(act, i - 1, logs[i - 1])
  }

  /** If every stage was given a prefix of what the previous one forwarded, what stage `k` forwarded is a prefix of
      the chain's output. */
  lemma {:induction false} ChainOfLogs(act: Action, logs: seq<seq<int>>, k: nat)
    requires k < |logs|
    requires forall i :: 0 < i <= k ==> Fed(act, logs, i)
    ensures Out(act, k, logs[k]) <= ChainOut(act, k, logs[0])
  {
    if k > 0 {
      ChainOfLogs(act, logs, k - 1);
      assert Fed(act, logs, k);
      StageOutPrefix(act, k, logs[k], ChainOut(act, k - 1, logs[0]));
    }
  }

  /** If every stage was given all that the previous one forwarded, what stage `k` forwarded is the chain's output. */
  lemma {:induction false} ChainOfAllLogs(act: Action, logs: seq<seq<int>>, k: nat)
    requires k < |logs|
    requires forall i :: 0 < i <= k ==> FedAll(act, logs, i)
    ensures Out(act, k, logs[k]) == ChainOut(act, k, logs[0])
  {
    if k > 0 {
      ChainOfAllLogs(act, logs, k - 1);
      assert FedAll(act, logs, k);
    }
  }

  /** What the last one in the row was given is a prefix of the chain's output. */
  lemma LastLog(act: Action, logs: seq<seq<int>>)
    requires |logs| >= 2
    requires forall i :: 0 < i < |logs| ==> Fed(act, logs, i)
    ensures logs[|logs| - 1] <= ChainOut(act, |logs| - 2, logs[0])
  {
    var k := |logs| - 2;
    ChainOfLogs(act, logs, k);
    assert Fed(act, logs, k + 1);
    hide Out, ChainOut;
  }

  /** What the last one in the row was given is the whole of it. */
  lemma LastAllLog(act: Action, logs: seq<seq<int>>)
    requires |logs| >= 2
    requires forall i :: 0 < i < |logs| ==> FedAll(act, logs, i)
    ensures logs[|logs| - 1] == ChainOut(act, |logs| - 2, logs[0])
  {
    var k := |logs| - 2;
    ChainOfAllLogs(act, logs, k);
    assert FedAll(act, logs, k + 1);
    hide Out, ChainOut;
  }

  // ----- stateless filters that leave the buffer alone -----

  /** `verdict(i, x)` is the status of process stage `i` on frame `x`, whatever came before. The source is not a filter:
      it may capture what it likes. */
  ghost predicate Stateless(act: Action, verdict: (int, int) -> int) {
    forall i: int, h: seq<int> :: i >= 1 && h != [] ==> act(i, h) == Outcome(h[|h| - 1], verdict(i, h[|h| - 1]))
  }

  /** Every stage 1..k returned cmd_result 0 for frame `x`. */
  ghost predicate AllPass(verdict: (int, int) -> int, k: nat, x: int) {
    forall i :: 1 <= i <= k ==> CmdResult(verdict(i, x)) == 0
  }

  ghost function Kept(verdict: (int, int) -> int, k: nat, xs: seq<int>): seq<int> {
    if xs == [] then []
    else Kept(verdict, k, xs[..|xs| - 1])
         + if AllPass(verdict, k, xs[|xs| - 1]) then [xs[|xs| - 1]] else []
  }

  lemma {:induction false} KeptNone(verdict: (int, int) -> int, xs: seq<int>)
    ensures Kept(verdict, 0, xs) == xs
  {
    if xs != [] {
      KeptNone(verdict, xs[..|xs| - 1]);
    }
  }

  lemma {:induction false} KeptStage(act: Action, verdict: (int, int) -> int, k: nat, xs: seq<int>)
    requires k > 0 && Stateless(act, verdict)
    ensures StageOut(act, k, Kept(verdict, k - 1, xs)) == Kept(verdict, k, xs)
  {
    if xs != [] {
      var before, x := xs[..|xs| - 1], xs[|xs| - 1];
      KeptStage(act, verdict, k, before);
      assert AllPass(verdict, k, x) <==> AllPass(verdict, k - 1, x) && CmdResult(verdict(k, x)) == 0;
      var inputs := Kept(verdict, k - 1, before);
      StageOutSnoc(act, k, inputs, x);
      assert act(k, inputs + [x]) == Outcome(x, verdict(k, x));
      if !AllPass(verdict, k - 1, x) {
        assert Kept(verdict, k - 1, xs) == inputs;
      }
    }
  }

  /** For stateless children the chain keeps exactly, and in order, the frames that every stage passed. */
  lemma {:induction false} ChainKeeps(act: Action, verdict: (int, int) -> int, k: nat, xs: seq<int>)
    requires Stateless(act, verdict)
    ensures ChainOut(act, k, xs) == Kept(verdict, k, xs)
  {
    if k == 0 {
      KeptNone(verdict, xs);
    } else {
      ChainKeeps(act, verdict, k - 1, xs);
      KeptStage(act, verdict, k, xs);
    }
  }
}
