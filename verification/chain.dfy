/** The serial middleware chain of `Sushi.prototype.run`: a copy of the
    registered middleware followed by `exec`, run one step after another
    until a step reports an error or the list is exhausted. The
    `setImmediate` hop before each step is left out, so the chain is a
    fold over the stage list with early exit. */
module Chain {
  import opened Request

  /** One entry of the list handed to `each`: user middleware, or `exec`. */
  datatype Stage<!H, E> = UserStage(fn: Middleware<H, E>) | ExecStage

  /** The record of which stage ran: user middleware by position, or `exec`. */
  datatype StepId = User(index: nat) | Exec

  /** How the chain settled. `Crashed` is `exec` meeting a `null`
      command: the call throws, `next` is never called and nothing is
      emitted. */
  datatype Settled<E> = Finished | Stopped(error: E) | Crashed

  /** The fold's result: the request as left by the last step, the steps
      that ran in order, how it settled, and the request each command
      call received. */
  datatype ChainResult<H, E> = ChainResult(req: Req<H>, trace: seq<StepId>, settled: Settled<E>, invoked: seq<Req<H>>)

  /** What one run produces: the final request, the steps that ran, the
      request each command call received, the `'error'` emissions, and
      whether `exec` crashed on a missing command. */
  datatype Report<H, E> = Report(req: Req<H>, trace: seq<StepId>, invoked: seq<Req<H>>, emitted: seq<E>, crashed: bool)

  function LabelOf<H, E>(stage: Stage<H, E>, at: nat): StepId
  {
    if stage.UserStage? then User(at) else Exec
  }

  /** The user positions `lo` up to, not including, `hi`, in order. */
  function Labels(lo: nat, hi: nat): (s: seq<StepId>)
    requires lo <= hi
    ensures |s| == hi - lo
    ensures forall i :: 0 <= i < |s| ==> s[i] == User(lo + i)
  {
    seq(hi - lo, i requires 0 <= i < hi - lo => User(lo + i))
  }

  lemma LabelsCons(lo: nat, hi: nat)
    requires lo < hi
    ensures Labels(lo, hi) == [User(lo)] + Labels(lo + 1, hi)
  {
  }

  lemma LabelsConsExec(lo: nat, hi: nat)
    requires lo < hi
    ensures [User(lo)] + (Labels(lo + 1, hi) + [Exec]) == Labels(lo, hi) + [Exec]
  {
    LabelsCons(lo, hi);
    assert [User(lo)] + (Labels(lo + 1, hi) + [Exec]) == ([User(lo)] + Labels(lo + 1, hi)) + [Exec];
  }

  lemma LabelsSnoc(lo: nat, hi: nat)
    requires lo <= hi
    ensures Labels(lo, hi) + [User(hi)] == Labels(lo, hi + 1)
  {
  }

  /** The list `run` iterates: a copy of the middleware, then `exec`. */
  function Pipeline<H, E>(mw: seq<Middleware<H, E>>): (p: seq<Stage<H, E>>)
    ensures |p| == |mw| + 1
    ensures forall i :: 0 <= i < |mw| ==> p[i] == UserStage(mw[i])
    ensures p[|mw|] == ExecStage
  {
    seq(|mw|, i requires 0 <= i < |mw| => UserStage(mw[i])) + [ExecStage]
  }

  /** The `each` loop from stage position `at` on. A user step threads the
      request on, or stops the chain with its error; `exec` calls the
      command the request holds at that moment (so one replaced by earlier
      middleware) and continues. The steps that ran are always a prefix of
      the stages (`EachTraceIsPrefix`), all of them when the chain
      finishes, and the step that stopped it is the last one recorded. */
  function Each<H, E>(stages: seq<Stage<H, E>>, at: nat, req: Req<H>, invoke: (H, Req<H>) -> Req<H>): (r: ChainResult<H, E>)
    ensures |r.trace| <= |stages|
    ensures r.settled.Finished? ==> |r.trace| == |stages|
    ensures r.settled.Stopped? ==> |r.trace| > 0 && stages[|r.trace| - 1].UserStage?
    ensures r.settled.Crashed? ==> |r.trace| > 0 && stages[|r.trace| - 1].ExecStage?
    decreases |stages|
  {
    if |stages| == 0 then ChainResult(req, [], Finished, [])
    else
      var id := LabelOf(stages[0], at);
      var rest := stages[1..];
      match stages[0]
      case UserStage(fn) =>
        var step := fn(req);
        if step.1.Some? then ChainResult(step.0, [id], Stopped(step.1.value), [])
        else Continue(id, Each(rest, at + 1, step.0, invoke), [])
      case ExecStage =>
        if req.command.None? then ChainResult(req, [id], Crashed, [])
        else Continue(id, Each(rest, at + 1, invoke(req.command.value, req), invoke), [req])
  }

  /** The result of the rest of the chain, with one earlier step (and the
      command call it made, if any) put in front. */
  function Continue<H, E>(id: StepId, rest: ChainResult<H, E>, called: seq<Req<H>>): ChainResult<H, E>
  {
    ChainResult(rest.req, [id] + rest.trace, rest.settled, called + rest.invoked)
  }

  /** The steps a chain records are its first stages, in order, each
      tagged with its own position. */
  lemma {:induction false} EachTraceIsPrefix<H, E>(stages: seq<Stage<H, E>>, at: nat, req: Req<H>,
                                                   invoke: (H, Req<H>) -> Req<H>)
    ensures var r := Each(stages, at, req, invoke);
            forall i :: 0 <= i < |r.trace| ==> r.trace[i] == LabelOf(stages[i], at + i)
    decreases |stages|
  {
    var r := Each(stages, at, req, invoke);
    if |stages| > 0 && |r.trace| > 1 {
      var next := if stages[0].UserStage? then stages[0].fn(req).0 else invoke(req.command.value, req);
      var rest := Each(stages[1..], at + 1, next, invoke);
      assert r.trace == [LabelOf(stages[0], at)] + rest.trace;
      EachTraceIsPrefix(stages[1..], at + 1, next, invoke);
      forall i | 1 <= i < |r.trace|
        ensures r.trace[i] == LabelOf(stages[i], at + i)
      {
        assert r.trace[i] == rest.trace[i - 1];
      }
    }
  }

  /** One run of the chain over `req`: the final callback emits `'error'`
      once with the error that stopped the chain, and nothing otherwise.
      An emission means `exec` never ran; without one, every middleware
      ran in order and then `exec`. */
  function Dispatch<H, E>(mw: seq<Middleware<H, E>>, req: Req<H>, invoke: (H, Req<H>) -> Req<H>): (r: Report<H, E>)
    ensures |r.emitted| <= 1
    ensures 0 < |r.trace| <= |mw| + 1
    ensures r.emitted != [] ==> !r.crashed && Exec !in r.trace
    ensures r.crashed ==> r.trace == Labels(0, |mw|) + [Exec]
    ensures r.emitted == [] && !r.crashed ==> r.trace == Labels(0, |mw|) + [Exec]
  {
    var stages := Pipeline(mw);
    var c := Each(stages, 0, req, invoke);
    EachTraceIsPrefix(stages, 0, req, invoke);
    assert c.settled.Stopped? ==> |c.trace| <= |mw| && Exec !in c.trace by {
      if c.settled.Stopped? {
        assert stages[|c.trace| - 1].UserStage?;
        forall i | 0 <= i < |c.trace| ensures c.trace[i] != Exec {
          assert c.trace[i] == LabelOf(stages[i], i);
        }
      }
    }
    assert !c.settled.Stopped? ==> c.trace == Labels(0, |mw|) + [Exec] by {
      if !c.settled.Stopped? {
        assert |c.trace| == |mw| + 1 by {
          if c.settled.Crashed? {
            assert stages[|c.trace| - 1].ExecStage?;
          }
        }
        forall i | 0 <= i < |c.trace| ensures c.trace[i] == (Labels(0, |mw|) + [Exec])[i] {
          assert c.trace[i] == LabelOf(stages[i], i);
        }
      }
    }
    Report(c.req, c.trace, c.invoked, if c.settled.Stopped? then [c.settled.error] else [], c.settled.Crashed?)
  }

  // ---------------------------------------------------------------------
  // Reference semantics: the request after k middleware steps, computed
  // without the early exit, and the first step that reports an error.
  // ---------------------------------------------------------------------

  /** The request after the first `k` middleware have run, whatever they
      reported. */
  function Thread<H, E>(mw: seq<Middleware<H, E>>, req: Req<H>, k: nat): Req<H>
    requires k <= |mw|
    decreases k
  {
    if k == 0 then req else mw[k - 1](Thread(mw, req, k - 1)).0
  }

  /** What middleware `k` reports when it sees the request its
      predecessors left. */
  function ErrorAt<H, E>(mw: seq<Middleware<H, E>>, req: Req<H>, k: nat): Option<E>
    requires k < |mw|
  {
    mw[k](Thread(mw, req, k)).1
  }

  /** The first position at or after `from` whose middleware reports an
      error, if there is one. */
  function FirstFailureFrom<H, E>(mw: seq<Middleware<H, E>>, req: Req<H>, from: nat): (k: Option<nat>)
    requires from <= |mw|
    ensures k.Some? ==> from <= k.value < |mw| && ErrorAt(mw, req, k.value).Some?
    ensures k.Some? ==> forall j :: from <= j < k.value ==> ErrorAt(mw, req, j).None?
    ensures k.None? ==> forall j :: from <= j < |mw| ==> ErrorAt(mw, req, j).None?
    decreases |mw| - from
  {
    if from == |mw| then None
    else if ErrorAt(mw, req, from).Some? then Some(from)
    else FirstFailureFrom(mw, req, from + 1)
  }

  function FirstFailure<H, E>(mw: seq<Middleware<H, E>>, req: Req<H>): Option<nat>
  {
    FirstFailureFrom(mw, req, 0)
  }

  /** The intended outcome of a run, stated directly: if middleware `k` is
      the first to report an error, steps 0..k ran and that error is
      emitted once; otherwise every middleware ran, then `exec`, which
      calls the command once with the request the middleware built, or
      crashes when that request holds no command. */
  function Expected<H, E>(mw: seq<Middleware<H, E>>, req: Req<H>, invoke: (H, Req<H>) -> Req<H>): Report<H, E>
  {
    match FirstFailure(mw, req)
    case Some(k) => Report(Thread(mw, req, k + 1), Labels(0, k + 1), [], [ErrorAt(mw, req, k).value], false)
    case None =>
      var last := Thread(mw, req, |mw|);
      if last.command.Some?
      then Report(invoke(last.command.value, last), Labels(0, |mw|) + [Exec], [last], [], false)
      else Report(last, Labels(0, |mw|) + [Exec], [], [], true)
  }

  /** One user step that reports no error hands the request it built to
      the rest of the chain. */
  lemma EachUserStep<H, E>(stages: seq<Stage<H, E>>, at: nat, req: Req<H>, invoke: (H, Req<H>) -> Req<H>)
    requires |stages| > 0 && stages[0].UserStage? && stages[0].fn(req).1.None?
    ensures Each(stages, at, req, invoke)
         == Continue(User(at), Each(stages[1..], at + 1, stages[0].fn(req).0, invoke), [])
  {
  }

  /** A user step that reports an error ends the chain with that error. */
  lemma EachUserStop<H, E>(stages: seq<Stage<H, E>>, at: nat, req: Req<H>, invoke: (H, Req<H>) -> Req<H>)
    requires |stages| > 0 && stages[0].UserStage? && stages[0].fn(req).1.Some?
    ensures Each(stages, at, req, invoke)
         == ChainResult(stages[0].fn(req).0, [User(at)], Stopped(stages[0].fn(req).1.value), [])
  {
  }

  /** `exec` alone: it calls the command the request holds, or crashes. */
  lemma EachExecOnly<H, E>(at: nat, req: Req<H>, invoke: (H, Req<H>) -> Req<H>)
    ensures Each<H, E>([ExecStage], at, req, invoke)
         == if req.command.Some?
            then ChainResult(invoke(req.command.value, req), [Exec], Finished, [req])
            else ChainResult(req, [Exec], Crashed, [])
  {
    var s: seq<Stage<H, E>> := [ExecStage];
    assert s[1..] == [];
  }

  /** How the chain ends once every middleware has passed: `exec` calls
      the command `last` holds, or crashes when it holds none. */
  function Finish<H, E>(last: Req<H>, trace: seq<StepId>, invoke: (H, Req<H>) -> Req<H>): ChainResult<H, E>
  {
    if last.command.Some?
    then ChainResult(invoke(last.command.value, last), trace, Finished, [last])
    else ChainResult(last, trace, Crashed, [])
  }

  lemma ContinueFinish<H, E>(id: StepId, last: Req<H>, trace: seq<StepId>, invoke: (H, Req<H>) -> Req<H>)
    ensures Continue(id, Finish<H, E>(last, trace, invoke), []) == Finish(last, [id] + trace, invoke)
  {
  }

  /** Middleware `j` passing on: the chain from `j` is that step followed
      by the chain from `j + 1` over the request it built. */
  lemma PipelineStep<H, E>(mw: seq<Middleware<H, E>>, req: Req<H>, invoke: (H, Req<H>) -> Req<H>, j: nat)
    requires j < |mw|
    requires ErrorAt(mw, req, j).None?
    ensures Each(Pipeline(mw)[j..], j, Thread(mw, req, j), invoke)
         == Continue(User(j), Each(Pipeline(mw)[j + 1..], j + 1, Thread(mw, req, j + 1), invoke), [])
  {
    var stages := Pipeline(mw)[j..];
    assert stages[0] == UserStage(mw[j]);
    assert stages[1..] == Pipeline(mw)[j + 1..];
    EachUserStep(stages, j, Thread(mw, req, j), invoke);
  }

  /** The chain from position `j` on, when no middleware from `j` on
      reports an error. */
  lemma {:induction false} CompletesFrom<H, E>(mw: seq<Middleware<H, E>>, req: Req<H>,
                                               invoke: (H, Req<H>) -> Req<H>, j: nat)
    requires j <= |mw|
    requires forall i :: j <= i < |mw| ==> ErrorAt(mw, req, i).None?
    ensures Each(Pipeline(mw)[j..], j, Thread(mw, req, j), invoke)
         == Finish(Thread(mw, req, |mw|), Labels(j, |mw|) + [Exec], invoke)
    decreases |mw| - j
  {
    if j == |mw| {
      assert Pipeline(mw)[j..] == [ExecStage];
      EachExecOnly<H, E>(j, Thread(mw, req, j), invoke);
    } else {
      var last := Thread(mw, req, |mw|);
      calc {
        Each(Pipeline(mw)[j..], j, Thread(mw, req, j), invoke);
        == { PipelineStep(mw, req, invoke, j); }
        Continue(User(j), Each(Pipeline(mw)[j + 1..], j + 1, Thread(mw, req, j + 1), invoke), []);
        == { CompletesFrom(mw, req, invoke, j + 1); }
        Continue(User(j), Finish(last, Labels(j + 1, |mw|) + [Exec], invoke), []);
        == { ContinueFinish<H, E>(User(j), last, Labels(j + 1, |mw|) + [Exec], invoke); }
        Finish(last, [User(j)] + (Labels(j + 1, |mw|) + [Exec]), invoke);
        == { LabelsConsExec(j, |mw|); }
        Finish(last, Labels(j, |mw|) + [Exec], invoke);
      }
    }
  }

  /** Middleware `k` reporting an error ends the chain from `k` with it. */
  lemma StopsAt<H, E>(mw: seq<Middleware<H, E>>, req: Req<H>, invoke: (H, Req<H>) -> Req<H>, k: nat)
    requires k < |mw|
    requires ErrorAt(mw, req, k).Some?
    ensures Each(Pipeline(mw)[k..], k, Thread(mw, req, k), invoke)
         == ChainResult(Thread(mw, req, k + 1), Labels(k, k + 1), Stopped(ErrorAt(mw, req, k).value), [])
  {
    var stages := Pipeline(mw)[k..];
    var q := Thread(mw, req, k);
    assert stages[0] == UserStage(mw[k]);
    assert mw[k](q).0 == Thread(mw, req, k + 1);
    assert mw[k](q).1 == ErrorAt(mw, req, k);
    EachUserStop(stages, k, q, invoke);
    assert Labels(k, k + 1) == [User(k)];
  }

  /** The chain from position `j` on stopping at `k`, with the step before
      it put in front. */
  lemma StopsStep<H, E>(mw: seq<Middleware<H, E>>, req: Req<H>, invoke: (H, Req<H>) -> Req<H>,
                        j: nat, k: nat, stopped: ChainResult<H, E>)
    requires j < k < |mw|
    requires ErrorAt(mw, req, j).None?
    requires stopped.trace == Labels(j + 1, k + 1) && stopped.invoked == []
    requires Each(Pipeline(mw)[j + 1..], j + 1, Thread(mw, req, j + 1), invoke) == stopped
    ensures Each(Pipeline(mw)[j..], j, Thread(mw, req, j), invoke) == stopped.(trace := Labels(j, k + 1))
  {
    PipelineStep(mw, req, invoke, j);
    LabelsCons(j, k + 1);
  }

  /** The chain from position `j` on, when middleware `k` is the first from
      `j` on to report an error. */
  lemma {:induction false} StopsFrom<H, E>(mw: seq<Middleware<H, E>>, req: Req<H>,
                                           invoke: (H, Req<H>) -> Req<H>, j: nat, k: nat)
    requires j <= k < |mw|
    requires forall i :: j <= i < k ==> ErrorAt(mw, req, i).None?
    requires ErrorAt(mw, req, k).Some?
    ensures Each(Pipeline(mw)[j..], j, Thread(mw, req, j), invoke)
         == ChainResult(Thread(mw, req, k + 1), Labels(j, k + 1), Stopped(ErrorAt(mw, req, k).value), [])
    decreases k - j
  {
    if j == k {
      StopsAt(mw, req, invoke, k);
    } else {
      StopsFrom(mw, req, invoke, j + 1, k);
      var stopped := ChainResult(Thread(mw, req, k + 1), Labels(j + 1, k + 1), Stopped(ErrorAt(mw, req, k).value), []);
      StopsStep(mw, req, invoke, j, k, stopped);
    }
  }

  /** The chain computes exactly the reference outcome, for every
      middleware list, request and command behaviour. */
  lemma DispatchIsExpected<H, E>(mw: seq<Middleware<H, E>>, req: Req<H>, invoke: (H, Req<H>) -> Req<H>)
    ensures Dispatch(mw, req, invoke) == Expected(mw, req, invoke)
  {
    assert Pipeline(mw)[0..] == Pipeline(mw);
    assert Thread(mw, req, 0) == req;
    var c := Each(Pipeline(mw), 0, req, invoke);
    match FirstFailure(mw, req)
    case Some(k) =>
      StopsFrom(mw, req, invoke, 0, k);
      assert c == ChainResult(Thread(mw, req, k + 1), Labels(0, k + 1), Stopped(ErrorAt(mw, req, k).value), []);
    case None =>
      CompletesFrom(mw, req, invoke, 0);
  }

  /** `Expected` when middleware `k` is the first to report an error. */
  lemma ExpectedOnFailure<H, E>(mw: seq<Middleware<H, E>>, req: Req<H>, invoke: (H, Req<H>) -> Req<H>, k: nat)
    requires k < |mw|
    requires forall j :: 0 <= j < k ==> ErrorAt(mw, req, j).None?
    requires ErrorAt(mw, req, k).Some?
    ensures Expected(mw, req, invoke)
         == Report(Thread(mw, req, k + 1), Labels(0, k + 1), [], [ErrorAt(mw, req, k).value], false)
  {
  }

  /** `Expected` when no middleware reports an error. */
  lemma ExpectedOnSuccess<H, E>(mw: seq<Middleware<H, E>>, req: Req<H>, invoke: (H, Req<H>) -> Req<H>)
    requires forall j :: 0 <= j < |mw| ==> ErrorAt(mw, req, j).None?
    ensures var last := Thread(mw, req, |mw|);
            Expected(mw, req, invoke)
              == if last.command.Some?
                 then Report(invoke(last.command.value, last), Labels(0, |mw|) + [Exec], [last], [], false)
                 else Report(last, Labels(0, |mw|) + [Exec], [], [], true)
  {
  }

  /** A middleware error stops the chain: no later middleware and no
      command runs, and that same error is emitted exactly once. */
  lemma ErrorStopsChain<H, E>(mw: seq<Middleware<H, E>>, req: Req<H>, invoke: (H, Req<H>) -> Req<H>, k: nat)
    requires k < |mw|
    requires forall j :: 0 <= j < k ==> ErrorAt(mw, req, j).None?
    requires ErrorAt(mw, req, k).Some?
    ensures var r := Dispatch(mw, req, invoke);
            && r.trace == Labels(0, k + 1)
            && Exec !in r.trace
            && r.invoked == []
            && r.emitted == [ErrorAt(mw, req, k).value]
            && !r.crashed
  {
    DispatchIsExpected(mw, req, invoke);
    ExpectedOnFailure(mw, req, invoke, k);
  }

  /** Without a middleware error, every middleware runs in registration
      order and then `exec` exactly once as the last step; the command is
      called once, with the request carrying everything earlier middleware
      set, and no error is emitted. */
  lemma CommandRunsOnceLast<H, E>(mw: seq<Middleware<H, E>>, req: Req<H>, invoke: (H, Req<H>) -> Req<H>)
    requires forall j :: 0 <= j < |mw| ==> ErrorAt(mw, req, j).None?
    requires Thread(mw, req, |mw|).command.Some?
    ensures var r := Dispatch(mw, req, invoke);
            var last := Thread(mw, req, |mw|);
            && r.trace == Labels(0, |mw|) + [Exec]
            && r.invoked == [last]
            && r.req == invoke(last.command.value, last)
            && r.emitted == []
            && !r.crashed
  {
    DispatchIsExpected(mw, req, invoke);
    ExpectedOnSuccess(mw, req, invoke);
  }

  /** A run emits `'error'` at most once, and it emits exactly when some
      middleware reports an error; an emission means no command ran. */
  lemma EmitsIffMiddlewareFails<H, E>(mw: seq<Middleware<H, E>>, req: Req<H>, invoke: (H, Req<H>) -> Req<H>)
    ensures var r := Dispatch(mw, req, invoke);
            && |r.emitted| <= 1
            && |r.invoked| <= 1
            && (r.emitted != [] <==> exists k :: 0 <= k < |mw| && ErrorAt(mw, req, k).Some?)
            && (r.emitted != [] ==> r.invoked == [] && !r.crashed)
  {
    DispatchIsExpected(mw, req, invoke);
  }

  /** The chain as a loop over the middleware followed by the `exec` step,
      the way `each` walks the list. */
  method DispatchLoop<H, E>(mw: seq<Middleware<H, E>>, req: Req<H>, invoke: (H, Req<H>) -> Req<H>)
    returns (r: Report<H, E>)
    ensures r == Dispatch(mw, req, invoke)
  {
    var current := req;
    var trace: seq<StepId> := [];
    var i := 0;
    while i < |mw|
      invariant i <= |mw|
      invariant current == Thread(mw, req, i)
      invariant trace == Labels(0, i)
      invariant forall j :: 0 <= j < i ==> ErrorAt(mw, req, j).None?
    {
      var step := mw[i](current);
      LabelsSnoc(0, i);
      trace := trace + [User(i)];
      if step.1.Some? {
        DispatchIsExpected(mw, req, invoke);
        ExpectedOnFailure(mw, req, invoke, i);
        return Report(step.0, trace, [], [step.1.value], false);
      }
      current := step.0;
      i := i + 1;
    }
    DispatchIsExpected(mw, req, invoke);
    ExpectedOnSuccess(mw, req, invoke);
    trace := trace + [Exec];
    if current.command.None? {
      return Report(current, trace, [], [], true);
    }
    r := Report(invoke(current.command.value, current), trace, [current], [], false);
  }
}
