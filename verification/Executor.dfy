/** The pipeline executor: what each stage is fed, what is saved, what is sent. */
module Executor {
  import opened Basics
  import opened Intake

  /** A value on the pipe together with whether it was cut at the output cap. */
  datatype Pipe = Pipe(value: string, truncated: bool)

  datatype Command = Command(runner: string, process: bool, writeSet: seq<string>)

  datatype Call = Call(command: string, args: string)

  /** One call of a runner: the stage index (-1 for the failure reply) and its input. */
  datatype Invocation = Invocation(stage: int, call: Call, input: Pipe)

  datatype Status = Running | Failed | Completed

  datatype Error =
    | NoError | PlanFailed | EmptyPlan | UnknownCommand(i: nat) | BadArgs(i: nat) | BadSchema(i: nat) | BadPipe
    | UnknownRunner(i: nat) | StageFailed(i: nat) | BadOutput(i: nat, truncated: bool)
    | ReplyBadArgs | ReplyNoRunner | ReplyFailed

  datatype Pipeline = Pipeline(
    status: Status, error: Error, body: Body, commands: seq<Call>, writeSet: seq<string>, current: nat, results: seq<string>)

  /** The registry, and the answers of the planner's validators and of the runners. */
  datatype Env = Env(
    commands: map<string, Command>,
    runners: set<string>,
    argsOk: Call -> bool,
    schemaOk: string -> bool,
    outputOk: (string, string) -> bool,
    run: Invocation -> Option<Pipe>,
    sender: string,
    body: Bytes,
    apology: string)

  const NOTICE := "\n[output truncated at 1MB]\n"

  // --- the fold: what flows from stage to stage -----------------------------

  predicate Known(env: Env, calls: seq<Call>) {
    forall i :: 0 <= i < |calls| ==> calls[i].command in env.commands
  }

  function StageCall(env: Env, calls: seq<Call>, first: Pipe, i: nat): Invocation
    requires Known(env, calls) && i < |calls|
    decreases i, 1
  {
    Invocation(i, calls[i], Feed(env, calls, first, i))
  }

  /** The pair on the pipe in front of stage i, with every earlier stage run. */
  function Feed(env: Env, calls: seq<Call>, first: Pipe, i: nat): Pipe
    requires Known(env, calls) && i <= |calls|
    decreases i, 0
  {
    if i == 0 then first
    else
      var before := Feed(env, calls, first, i - 1);
      var out := env.run(StageCall(env, calls, first, i - 1));
      if env.commands[calls[i - 1].command].process && out.Some? then out.value else before
  }

  function Output(env: Env, calls: seq<Call>, first: Pipe, i: nat): Option<Pipe>
    requires Known(env, calls) && i < |calls|
  {
    env.run(StageCall(env, calls, first, i))
  }

  predicate HasRunner(env: Env, calls: seq<Call>, i: nat)
    requires Known(env, calls) && i < |calls|
  {
    env.commands[calls[i].command].runner in env.runners
  }

  predicate StageOk(env: Env, calls: seq<Call>, first: Pipe, i: nat)
    requires Known(env, calls) && i < |calls|
  {
    var out := Output(env, calls, first, i);
    && HasRunner(env, calls, i) && out.Some?
    && (env.commands[calls[i].command].process ==> env.outputOk(calls[i].command, out.value.value))
  }

  function StageError(env: Env, calls: seq<Call>, first: Pipe, i: nat): Error
    requires Known(env, calls) && i < |calls| && !StageOk(env, calls, first, i)
  {
    var out := Output(env, calls, first, i);
    if !HasRunner(env, calls, i) then UnknownRunner(i)
    else if out.None? then StageFailed(i)
    else BadOutput(i, out.value.truncated)
  }

  /** How many stages succeed in a row from stage i on, as an index. */
  function Stop(env: Env, calls: seq<Call>, first: Pipe, i: nat): (n: nat)
    requires Known(env, calls) && i <= |calls|
    ensures i <= n <= |calls|
    ensures forall k :: i <= k < n ==> StageOk(env, calls, first, k)
    ensures n < |calls| ==> !StageOk(env, calls, first, n)
    decreases |calls| - i
  {
    if i == |calls| || !StageOk(env, calls, first, i) then i else Stop(env, calls, first, i + 1)
  }

  function Results(env: Env, calls: seq<Call>, first: Pipe, n: nat): (r: seq<string>)
    requires Known(env, calls) && n <= |calls| && forall k :: 0 <= k < n ==> StageOk(env, calls, first, k)
    ensures |r| == n
  {
    if n == 0 then []
    else
      assert StageOk(env, calls, first, n - 1);
      Results(env, calls, first, n - 1) + [Output(env, calls, first, n - 1).value.value]
  }

  function StageCalls(env: Env, calls: seq<Call>, first: Pipe, n: nat): (r: seq<Invocation>)
    requires Known(env, calls) && n <= |calls|
    ensures |r| == n && forall i :: 0 <= i < n ==> r[i] == StageCall(env, calls, first, i)
  {
    if n == 0 then [] else StageCalls(env, calls, first, n - 1) + [StageCall(env, calls, first, n - 1)]
  }

  /** What the first n stages save: one snapshot before and one after each. */
  function StageSaves(env: Env, calls: seq<Call>, first: Pipe, n: nat): seq<Pipeline>
    requires Known(env, calls) && n <= |calls| && forall k :: 0 <= k < n ==> StageOk(env, calls, first, k)
  {
    if n == 0 then []
    else StageSaves(env, calls, first, n - 1) +
         [At(env, calls, n - 1, Results(env, calls, first, n - 1)), At(env, calls, n - 1, Results(env, calls, first, n))]
  }

  /** The write sets of the calls' commands, without repetition. */
  function WriteSet(env: Env, calls: seq<Call>): (ws: seq<string>)
    ensures Distinct(ws)
    ensures forall w :: w in ws <==>
              exists i :: 0 <= i < |calls| && calls[i].command in env.commands && w in env.commands[calls[i].command].writeSet
    decreases |calls|
  {
    if calls == [] then []
    else
      var n := |calls| - 1;
      var before := WriteSet(env, calls[..n]);
      if calls[n].command in env.commands then Union(before, env.commands[calls[n].command].writeSet) else before
  }

  function At(env: Env, calls: seq<Call>, current: nat, results: seq<string>): Pipeline {
    Pipeline(Running, NoError, Take(env.body), calls, WriteSet(env, calls), current, results)
  }

  // --- a whole run -------------------------------------------------------------

  /** elses counts the calls of the failure handler. */
  datatype Trace = Trace(final: Pipeline, saves: seq<Pipeline>, calls: seq<Invocation>, elses: nat)

  function Fresh(env: Env): Pipeline { Pipeline(Running, NoError, Take(env.body), [], [], 0, []) }

  function ReplyCall(env: Env): Call { Call("reply", env.sender) }

  predicate CanReply(env: Env) {
    "reply" in env.commands && env.argsOk(ReplyCall(env)) && env.commands["reply"].runner in env.runners
  }

  function Apology(env: Env): seq<Invocation> {
    if CanReply(env) then [Invocation(-1, ReplyCall(env), Pipe(env.apology, false))] else []
  }

  function Fail(env: Env, p: Pipeline, error: Error, saves: seq<Pipeline>, calls: seq<Invocation>): Trace {
    var failed := p.(status := Failed, error := error);
    Trace(failed, saves + [failed], calls + Apology(env), 1)
  }

  function ReplyInput(last: Pipe): Pipe {
    Pipe(if last.truncated then last.value + NOTICE else last.value, last.truncated)
  }

  /** The automatic reply gets the final pair, with the notice when it was cut. */
  function Finish(env: Env, p: Pipeline, last: Pipe, saves: seq<Pipeline>, calls: seq<Invocation>): Trace {
    var inv := Invocation(|p.commands|, ReplyCall(env), ReplyInput(last));
    var q :=
      if "reply" !in env.commands then p
      else if !env.argsOk(ReplyCall(env)) then p.(error := ReplyBadArgs)
      else if env.commands["reply"].runner !in env.runners then p.(error := ReplyNoRunner)
      else if env.run(inv).None? then p.(error := ReplyFailed)
      else p.(results := p.results + [env.run(inv).value.value]);
    var done := q.(status := Completed);
    Trace(done, saves + [done], if CanReply(env) then calls + [inv] else calls, 0)
  }

  predicate CallOk(env: Env, call: Call) { call.command in env.commands && env.argsOk(call) }

  function FirstBadCall(env: Env, calls: seq<Call>, i: nat): (n: nat)
    requires i <= |calls|
    ensures i <= n <= |calls|
    ensures forall k :: i <= k < n ==> CallOk(env, calls[k])
    ensures n < |calls| ==> !CallOk(env, calls[n])
    decreases |calls| - i
  {
    if i == |calls| || !CallOk(env, calls[i]) then i else FirstBadCall(env, calls, i + 1)
  }

  function FirstBadSchema(env: Env, calls: seq<Call>, i: nat): (n: nat)
    requires i <= |calls|
    ensures i <= n <= |calls|
    ensures forall k :: i <= k < n ==> env.schemaOk(calls[k].command)
    ensures n < |calls| ==> !env.schemaOk(calls[n].command)
    decreases |calls| - i
  {
    if i == |calls| || !env.schemaOk(calls[i].command) then i else FirstBadSchema(env, calls, i + 1)
  }

  /** Why a run never reaches its first stage, and what it had by then. */
  function Rejection(env: Env, plan: Option<seq<Call>>, meta: Option<string>): Option<(Pipeline, Error)> {
    if plan.None? then Some((Fresh(env), PlanFailed))
    else if plan.value == [] then Some((Fresh(env), EmptyPlan))
    else
      var calls := plan.value;
      var bad := FirstBadCall(env, calls, 0);
      if bad < |calls| then Some((Fresh(env), if calls[bad].command in env.commands then BadArgs(bad) else UnknownCommand(bad)))
      else
        var p := Fresh(env).(commands := calls, writeSet := WriteSet(env, calls));
        var badSchema := FirstBadSchema(env, calls, 0);
        if badSchema < |calls| then Some((p, BadSchema(badSchema)))
        else if meta.None? then Some((p, BadPipe))
        else None
  }

  /** plan None: the planner failed. meta None: the metadata did not marshal. */
  function RunSpec(env: Env, plan: Option<seq<Call>>, meta: Option<string>): Trace {
    var r := Rejection(env, plan, meta);
    if r.Some? then Fail(env, r.value.0, r.value.1, [Fresh(env)], [])
    else RunStages(env, plan.value, Pipe(meta.value, false))
  }

  function RunStages(env: Env, calls: seq<Call>, first: Pipe): Trace
    requires Known(env, calls)
  {
    var n := Stop(env, calls, first, 0);
    var saves := [Fresh(env)] + StageSaves(env, calls, first, n);
    var done := Results(env, calls, first, n);
    if n < |calls| then
      Fail(env, At(env, calls, n, done), StageError(env, calls, first, n), saves + [At(env, calls, n, done)],
           StageCalls(env, calls, first, if HasRunner(env, calls, n) then n + 1 else n))
    else
      Finish(env, At(env, calls, if n == 0 then 0 else n - 1, done), Feed(env, calls, first, n), saves,
             StageCalls(env, calls, first, n))
  }

  // --- what the fold means -------------------------------------------------------

  /** The latest process-mode stage before stage i, -1 when there is none. */
  function LatestProcess(env: Env, calls: seq<Call>, i: nat): (j: int)
    requires Known(env, calls) && i <= |calls|
    ensures -1 <= j < i
    ensures j >= 0 ==> env.commands[calls[j].command].process
    ensures forall k :: j < k < i ==> !env.commands[calls[k].command].process
  {
    if i == 0 then -1
    else if env.commands[calls[i - 1].command].process then i - 1
    else LatestProcess(env, calls, i - 1)
  }

  /** What the latest process-mode stage before stage i gave, or the first value. */
  function LatestOutput(env: Env, calls: seq<Call>, first: Pipe, i: nat): Option<Pipe>
    requires Known(env, calls) && i <= |calls|
  {
    var j := LatestProcess(env, calls, i);
    if j < 0 then Some(first) else Output(env, calls, first, j)
  }

  lemma {:induction false} FeedIsLatest(env: Env, calls: seq<Call>, first: Pipe, i: nat)
    requires Known(env, calls) && i <= |calls| && forall k :: 0 <= k < i ==> StageOk(env, calls, first, k)
    ensures LatestOutput(env, calls, first, i) == Some(Feed(env, calls, first, i))
  {
    if i > 0 {
      FeedIsLatest(env, calls, first, i - 1);
      assert StageOk(env, calls, first, i - 1);
    }
  }

  /** The k-th runner call is the apology: it comes last, and only on failure. */
  predicate IsApology(env: Env, t: Trace, k: nat)
    requires k < |t.calls|
  {
    && t.calls[k] == Invocation(-1, Call("reply", env.sender), Pipe(env.apology, false))
    && k == |t.calls| - 1 && t.final.status.Failed?
  }

  /** The k-th runner call is stage k, or the reply after the last stage, with the
      input the latest process-mode stage before it gave. */
  predicate FedRight(env: Env, calls: seq<Call>, first: Pipe, t: Trace, k: nat)
    requires Known(env, calls) && k < |t.calls|
  {
    var inv := t.calls[k];
    && inv.stage == k && k <= |calls|
    && var fed := LatestOutput(env, calls, first, k);
       && fed.Some?
       && if k < |calls| then inv.input == fed.value && inv.call == calls[k]
          else
            && inv.call == Call("reply", env.sender) && t.final.status.Completed?
            && inv.input.truncated == fed.value.truncated
            && inv.input.value == fed.value.value + (if fed.value.truncated then NOTICE else "")
  }

  lemma RunInputs(env: Env, calls: seq<Call>, first: Pipe)
    requires Known(env, calls)
    ensures var t := RunStages(env, calls, first);
            forall k :: 0 <= k < |t.calls| ==> IsApology(env, t, k) || FedRight(env, calls, first, t, k)
  {
    var n, t := Stop(env, calls, first, 0), RunStages(env, calls, first);
    hide Output, StageOk, HasRunner, Results, StageSaves, LatestProcess, CanReply, Take, WriteSet, StageError;
    forall k | 0 <= k < |t.calls| ensures IsApology(env, t, k) || FedRight(env, calls, first, t, k) {
      if k <= n {
        FeedIsLatest(env, calls, first, k);
        assert t.final.status.Completed? && k == n == |calls| && !Feed(env, calls, first, n).truncated ==>
          Feed(env, calls, first, n).value + "" == Feed(env, calls, first, n).value;
      }
    }
  }

  /** Every stage is handed exactly the output and truncation flag of the latest
      process-mode stage before it, or the metadata uncut. The reply gets the final
      pair, with the notice added exactly when the flag is set. */
  lemma StageInputs(env: Env, plan: Option<seq<Call>>, meta: Option<string>)
    ensures var t := RunSpec(env, plan, meta);
            forall k :: 0 <= k < |t.calls| ==>
              IsApology(env, t, k)
              || (Accepted(env, plan, meta) && FedRight(env, plan.value, Pipe(meta.value, false), t, k))
  {
    AcceptedRuns(env, plan, meta);
    if Accepted(env, plan, meta) {
      hide RunSpec, Accepted;
      RunInputs(env, plan.value, Pipe(meta.value, false));
    }
  }

  // --- what is saved ----------------------------------------------------------------

  /** b may be saved right after a. */
  predicate Follows(a: Pipeline, b: Pipeline) {
    && a.status.Running? && a.current <= b.current && a.results <= b.results
    && b.body == a.body && (a.commands != [] ==> b.commands == a.commands && b.writeSet == a.writeSet)
  }

  /** A snapshot the stage loop saves. */
  predicate InLoop(p: Pipeline) { p.status.Running? && p.commands != [] }

  predicate Legal(saves: seq<Pipeline>) {
    && |saves| >= 2
    && (forall i :: 0 < i < |saves| ==> Follows(saves[i - 1], saves[i]))
    && (forall i :: 0 <= i < |saves| && InLoop(saves[i]) ==>
        |saves[i].results| == saves[i].current || |saves[i].results| == saves[i].current + 1)
    && !saves[|saves| - 1].status.Running?
  }

  /** Running snapshots in order, each as the loop may save it. */
  predicate Loop(saves: seq<Pipeline>) {
    && saves != []
    && (forall i :: 0 < i < |saves| ==> Follows(saves[i - 1], saves[i]))
    && (forall i :: 0 <= i < |saves| ==> saves[i].status.Running?)
    && (forall i :: 0 <= i < |saves| && InLoop(saves[i]) ==>
        |saves[i].results| == saves[i].current || |saves[i].results| == saves[i].current + 1)
  }

  lemma LoopMore(saves: seq<Pipeline>, p: Pipeline)
    requires Loop(saves) && Follows(saves[|saves| - 1], p) && p.status.Running?
    requires |p.results| == p.current || |p.results| == p.current + 1
    ensures Loop(saves + [p])
  {
    var more := saves + [p];
    forall i | 0 < i < |more| ensures Follows(more[i - 1], more[i]) {
      if i < |saves| {
        assert Follows(saves[i - 1], saves[i]);
      }
    }
  }

  lemma LoopEnds(saves: seq<Pipeline>, p: Pipeline)
    requires Loop(saves) && Follows(saves[|saves| - 1], p) && !p.status.Running?
    ensures Legal(saves + [p])
  {
    var more := saves + [p];
    forall i | 0 < i < |more| ensures Follows(more[i - 1], more[i]) {
      if i < |saves| {
        assert Follows(saves[i - 1], saves[i]);
      }
    }
  }

  lemma LoopOne(p: Pipeline)
    requires p.status.Running? && p.commands == []
    ensures Loop([p])
  {
  }

  lemma {:induction false} SavesLoop(env: Env, calls: seq<Call>, first: Pipe, n: nat)
    requires Known(env, calls) && n <= |calls| && forall k :: 0 <= k < n ==> StageOk(env, calls, first, k)
    ensures var saves := [Fresh(env)] + StageSaves(env, calls, first, n);
            Loop(saves)
            && saves[|saves| - 1] == if n == 0 then Fresh(env) else At(env, calls, n - 1, Results(env, calls, first, n))
  {
    hide Take, WriteSet, StageOk, Output, HasRunner, Feed, Loop;
    if n > 0 {
      SavesLoop(env, calls, first, n - 1);
      var before := [Fresh(env)] + StageSaves(env, calls, first, n - 1);
      var a := At(env, calls, n - 1, Results(env, calls, first, n - 1));
      var b := At(env, calls, n - 1, Results(env, calls, first, n));
      LoopMore(before, a);
      LoopMore(before + [a], b);
      assert [Fresh(env)] + StageSaves(env, calls, first, n) == before + [a] + [b];
    } else {
      assert [Fresh(env)] + StageSaves(env, calls, first, 0) == [Fresh(env)];
      LoopOne(Fresh(env));
    }
  }

  /** A run that finishes completes, with the results it had and perhaps the reply's. */
  lemma FinishEnds(env: Env, p: Pipeline, last: Pipe, saves: seq<Pipeline>, calls: seq<Invocation>)
    requires p.status.Running?
    ensures var t := Finish(env, p, last, saves, calls);
            && t.final.status.Completed? && t.saves == saves + [t.final] && t.elses == 0
            && t.final.body == p.body && t.final.commands == p.commands && t.final.writeSet == p.writeSet
            && Follows(p, t.final) && p.results <= t.final.results && |t.final.results| <= |p.results| + 1
            && |t.calls| == |calls| + (if CanReply(env) then 1 else 0)
  {
  }

  lemma StagesLegal(env: Env, calls: seq<Call>, first: Pipe)
    requires Known(env, calls) && calls != []
    ensures var t := RunStages(env, calls, first);
            && Legal(t.saves) && t.final == t.saves[|t.saves| - 1]
            && (t.final.status.Completed? ==> t.final.commands == calls && |calls| <= |t.final.results| <= |calls| + 1)
            && (t.final.status.Completed? <==> forall i :: 0 <= i < |calls| ==> StageOk(env, calls, first, i))
  {
    hide Take, WriteSet, StageOk, Output, HasRunner, Feed, Results, StageSaves, StageCalls, StageError, Loop, Legal, Finish, Apology;
    var n := Stop(env, calls, first, 0);
    var done := Results(env, calls, first, n);
    var saves := [Fresh(env)] + StageSaves(env, calls, first, n);
    var t := RunStages(env, calls, first);
    SavesLoop(env, calls, first, n);
    if n < |calls| {
      var a := At(env, calls, n, done);
      LoopMore(saves, a);
      LoopEnds(saves + [a], t.final);
    } else {
      var p := At(env, calls, n - 1, done);
      FinishEnds(env, p, Feed(env, calls, first, n), saves, StageCalls(env, calls, first, n));
      LoopEnds(saves, t.final);
    }
  }

  /** The plan is accepted: every call is known and valid, every schema compiles. */
  predicate Accepted(env: Env, plan: Option<seq<Call>>, meta: Option<string>) {
    && plan.Some? && plan.value != [] && meta.Some?
    && (forall i :: 0 <= i < |plan.value| ==> CallOk(env, plan.value[i]))
    && (forall i :: 0 <= i < |plan.value| ==> env.schemaOk(plan.value[i].command))
  }

  predicate AllStagesOk(env: Env, plan: Option<seq<Call>>, meta: Option<string>) {
    && Accepted(env, plan, meta)
    && forall i :: 0 <= i < |plan.value| ==> StageOk(env, plan.value, Pipe(meta.value, false), i)
  }

  lemma AcceptedRuns(env: Env, plan: Option<seq<Call>>, meta: Option<string>)
    ensures if Accepted(env, plan, meta)
            then RunSpec(env, plan, meta) == RunStages(env, plan.value, Pipe(meta.value, false))
            else var t := RunSpec(env, plan, meta);
                 var p := Fresh(env).(commands := t.final.commands, writeSet := t.final.writeSet);
                 t == Fail(env, p, t.final.error, [Fresh(env)], []) && t.final.error != NoError
  {
  }

  /** One run saves running snapshots and then exactly one terminal one; the stage
      index never falls and results only grow. The failure handler is called once
      on failure and never on completion, and a run completes exactly when its plan
      is accepted and every stage succeeds. */
  lemma SavesLegal(env: Env, plan: Option<seq<Call>>, meta: Option<string>)
    ensures var t := RunSpec(env, plan, meta);
            && Legal(t.saves) && t.final == t.saves[|t.saves| - 1]
            && t.elses == (if t.final.status.Failed? then 1 else 0)
            && (t.final.status.Completed? <==> AllStagesOk(env, plan, meta))
            && (t.final.status.Completed? ==> |plan.value| <= |t.final.results| <= |plan.value| + 1)
  {
    AcceptedRuns(env, plan, meta);
    if Accepted(env, plan, meta) {
      StagesLegal(env, plan.value, Pipe(meta.value, false));
    } else {
      LoopMoreEnds(Fresh(env));
    }
  }

  lemma {:induction false} CarriedOn(saves: seq<Pipeline>, k: nat)
    requires k < |saves| && forall i :: 0 < i < |saves| ==> Follows(saves[i - 1], saves[i])
    ensures var last := saves[|saves| - 1];
            && last.body == saves[k].body
            && (saves[k].commands != [] ==> last.commands == saves[k].commands && last.writeSet == saves[k].writeSet)
    decreases |saves| - k
  {
    if k < |saves| - 1 {
      assert Follows(saves[k + 1 - 1], saves[k + 1]);
      CarriedOn(saves, k + 1);
    }
  }

  /** Every snapshot of a run carries the same body, as taken in at the start, and from
      the moment it has the plan's calls, those and their write set. */
  lemma BodyCarried(env: Env, plan: Option<seq<Call>>, meta: Option<string>, k: nat)
    requires k < |RunSpec(env, plan, meta).saves|
    ensures var p := RunSpec(env, plan, meta).saves[k];
            && p.body == Take(env.body)
            && (p.commands != [] ==> plan == Some(p.commands) && p.writeSet == WriteSet(env, p.commands))
  {
    SavesLegal(env, plan, meta);
    CarriedOn(RunSpec(env, plan, meta).saves, k);
    FinalCarries(env, plan, meta);
  }

  lemma FinalCarries(env: Env, plan: Option<seq<Call>>, meta: Option<string>)
    ensures var p := RunSpec(env, plan, meta).final;
            && p.body == Take(env.body)
            && (p.commands != [] ==> plan == Some(p.commands) && p.writeSet == WriteSet(env, p.commands))
  {
    hide Take, WriteSet, StageOk, Output, HasRunner, Feed, Results, StageSaves, StageCalls, CanReply;
  }

  lemma LoopMoreEnds(p: Pipeline)
    requires Loop([p])
    ensures forall q :: Follows(p, q) && !q.status.Running? ==> Legal([p] + [q])
  {
    forall q | Follows(p, q) && !q.status.Running? ensures Legal([p] + [q]) {
      LoopEnds([p], q);
    }
  }

  // --- what a run reports -----------------------------------------------------------

  predicate CallsOk(env: Env, calls: seq<Call>, n: nat) { forall k :: 0 <= k < n && k < |calls| ==> CallOk(env, calls[k]) }

  predicate SchemasOk(env: Env, calls: seq<Call>, n: nat) {
    forall k :: 0 <= k < n && k < |calls| ==> env.schemaOk(calls[k].command)
  }

  /** Stage i is reached: the plan is accepted and every earlier stage succeeds. */
  predicate Reached(env: Env, plan: Option<seq<Call>>, meta: Option<string>, i: nat) {
    && Accepted(env, plan, meta) && i < |plan.value|
    && forall k :: 0 <= k < i ==> StageOk(env, plan.value, Pipe(meta.value, false), k)
  }

  /** What the runner of a reached stage answered. */
  function Answer(env: Env, plan: Option<seq<Call>>, meta: Option<string>, i: nat): Option<Pipe>
    requires Reached(env, plan, meta, i)
  {
    Output(env, plan.value, Pipe(meta.value, false), i)
  }

  /** The reply call after the last stage. */
  function FinalReply(env: Env, plan: Option<seq<Call>>, meta: Option<string>): Invocation
    requires Accepted(env, plan, meta)
  {
    Invocation(|plan.value|, ReplyCall(env), ReplyInput(Feed(env, plan.value, Pipe(meta.value, false), |plan.value|)))
  }

  /** What has to be the case for a run to end with error e. */
  predicate Explains(env: Env, plan: Option<seq<Call>>, meta: Option<string>, e: Error) {
    match e
    case PlanFailed => plan.None?
    case EmptyPlan => plan == Some([])
    case UnknownCommand(i) =>
      plan.Some? && i < |plan.value| && CallsOk(env, plan.value, i) && plan.value[i].command !in env.commands
    case BadArgs(i) =>
      && plan.Some? && i < |plan.value| && CallsOk(env, plan.value, i)
      && plan.value[i].command in env.commands && !env.argsOk(plan.value[i])
    case BadSchema(i) =>
      && plan.Some? && i < |plan.value| && CallsOk(env, plan.value, |plan.value|)
      && SchemasOk(env, plan.value, i) && !env.schemaOk(plan.value[i].command)
    case BadPipe =>
      && plan.Some? && plan.value != [] && meta.None?
      && CallsOk(env, plan.value, |plan.value|) && SchemasOk(env, plan.value, |plan.value|)
    case UnknownRunner(i) => Reached(env, plan, meta, i) && !HasRunner(env, plan.value, i)
    case StageFailed(i) =>
      Reached(env, plan, meta, i) && HasRunner(env, plan.value, i) && Answer(env, plan, meta, i).None?
    case BadOutput(i, truncated) =>
      && Reached(env, plan, meta, i) && HasRunner(env, plan.value, i)
      && var out := Answer(env, plan, meta, i);
         && out.Some? && env.commands[plan.value[i].command].process
         && !env.outputOk(plan.value[i].command, out.value.value) && out.value.truncated == truncated
    case ReplyBadArgs => AllStagesOk(env, plan, meta) && "reply" in env.commands && !env.argsOk(ReplyCall(env))
    case ReplyNoRunner =>
      && AllStagesOk(env, plan, meta) && "reply" in env.commands && env.argsOk(ReplyCall(env))
      && env.commands["reply"].runner !in env.runners
    case ReplyFailed => AllStagesOk(env, plan, meta) && CanReply(env) && env.run(FinalReply(env, plan, meta)).None?
    case NoError =>
      && AllStagesOk(env, plan, meta)
      && ("reply" in env.commands ==> CanReply(env) && env.run(FinalReply(env, plan, meta)).Some?)
  }

  /** The run ends with the one error that explains it: it names the first call,
      schema or stage that is at fault, and why. */
  lemma ErrorExact(env: Env, plan: Option<seq<Call>>, meta: Option<string>, e: Error)
    ensures e == RunSpec(env, plan, meta).final.error <==> Explains(env, plan, meta, e)
  {
    ErrorExplained(env, plan, meta);
    if Explains(env, plan, meta, e) {
      OneExplanation(env, plan, meta, e, RunSpec(env, plan, meta).final.error);
    }
  }

  lemma RejectionExplains(env: Env, plan: Option<seq<Call>>, meta: Option<string>)
    requires Rejection(env, plan, meta).Some?
    ensures Explains(env, plan, meta, Rejection(env, plan, meta).value.1)
  {
    hide Accepted, StageOk, Output, HasRunner, CanReply, FinalReply, Feed, Fresh, WriteSet, Reached, AllStagesOk;
  }

  lemma ErrorExplained(env: Env, plan: Option<seq<Call>>, meta: Option<string>)
    ensures Explains(env, plan, meta, RunSpec(env, plan, meta).final.error)
  {
    AcceptedRuns(env, plan, meta);
    if Accepted(env, plan, meta) {
      StagesExplained(env, plan, meta);
    } else {
      RejectionExplains(env, plan, meta);
    }
    hide Rejection, RunStages, Accepted, Explains, Apology;
  }

  lemma StageErrorExplains(env: Env, plan: Option<seq<Call>>, meta: Option<string>, i: nat)
    requires Reached(env, plan, meta, i) && !StageOk(env, plan.value, Pipe(meta.value, false), i)
    ensures Explains(env, plan, meta, StageError(env, plan.value, Pipe(meta.value, false), i))
  {
    hide Reached, Accepted, Feed;
  }

  lemma ReplyExplains(env: Env, plan: Option<seq<Call>>, meta: Option<string>, p: Pipeline, saves: seq<Pipeline>, calls: seq<Invocation>)
    requires AllStagesOk(env, plan, meta) && p.commands == plan.value && p.error == NoError
    ensures var last := Feed(env, plan.value, Pipe(meta.value, false), |plan.value|);
            Explains(env, plan, meta, Finish(env, p, last, saves, calls).final.error)
  {
    hide AllStagesOk, Accepted, Feed, ReplyInput;
  }

  lemma StagesExplained(env: Env, plan: Option<seq<Call>>, meta: Option<string>)
    requires Accepted(env, plan, meta)
    ensures Explains(env, plan, meta, RunStages(env, plan.value, Pipe(meta.value, false)).final.error)
  {
    var calls, first := plan.value, Pipe(meta.value, false);
    var n := Stop(env, calls, first, 0);
    var saves := [Fresh(env)] + StageSaves(env, calls, first, n);
    if n < |calls| {
      StageErrorExplains(env, plan, meta, n);
    } else {
      var p := At(env, calls, n - 1, Results(env, calls, first, n));
      ReplyExplains(env, plan, meta, p, saves, StageCalls(env, calls, first, n));
    }
    hide Accepted, Explains, Feed, Results, StageSaves, StageCalls, Apology, Take, WriteSet, Finish, StageError, StageOk, HasRunner;
  }

  /** The stage an error blames, -1 when it blames none. */
  function Blamed(e: Error): int {
    if e.UnknownRunner? || e.StageFailed? || e.BadOutput? then e.i else -1
  }

  lemma BlamedFails(env: Env, plan: Option<seq<Call>>, meta: Option<string>, e: Error)
    requires Explains(env, plan, meta, e) && Blamed(e) >= 0
    ensures Reached(env, plan, meta, Blamed(e)) && !StageOk(env, plan.value, Pipe(meta.value, false), Blamed(e))
  {
  }

  lemma OneExplanation(env: Env, plan: Option<seq<Call>>, meta: Option<string>, a: Error, b: Error)
    requires Explains(env, plan, meta, a) && Explains(env, plan, meta, b)
    ensures a == b
  {
    if Blamed(a) >= 0 {
      BlamedFails(env, plan, meta, a);
    }
    if Blamed(b) >= 0 {
      BlamedFails(env, plan, meta, b);
    }
    hide StageOk, Output, HasRunner, CanReply, FinalReply, Feed;
  }

  lemma {:induction false} ResultAt(env: Env, calls: seq<Call>, first: Pipe, n: nat, k: nat)
    requires Known(env, calls) && k < n <= |calls| && forall i :: 0 <= i < n ==> StageOk(env, calls, first, i)
    ensures StageOk(env, calls, first, k)
    ensures Results(env, calls, first, n)[k] == Output(env, calls, first, k).value.value
  {
    if k < n - 1 {
      ResultAt(env, calls, first, n - 1, k);
    }
  }

  /** How many stages called their runner, given the error a run ended with. */
  function StagesCalled(plan: Option<seq<Call>>, e: Error): int {
    if e.UnknownRunner? then e.i
    else if Blamed(e) >= 0 then Blamed(e) + 1
    else if plan.None? || e.EmptyPlan? || e.UnknownCommand? || e.BadArgs? || e.BadSchema? || e.BadPipe? then 0
    else |plan.value|
  }

  /** Every stage up to the one at fault is called, once; then comes one reply, or
      one apology, exactly when it can be sent. */
  lemma CallsCounted(env: Env, plan: Option<seq<Call>>, meta: Option<string>)
    ensures var t, reply := RunSpec(env, plan, meta), Call("reply", env.sender);
            var sendable := reply.command in env.commands && env.argsOk(reply) && env.commands[reply.command].runner in env.runners;
            |t.calls| == StagesCalled(plan, t.final.error) + (if sendable then 1 else 0)
  {
    AcceptedRuns(env, plan, meta);
    assert var reply := Call("reply", env.sender);
      CanReply(env) == (reply.command in env.commands && env.argsOk(reply) && env.commands[reply.command].runner in env.runners);
    if Accepted(env, plan, meta) {
      StageCallsCounted(env, plan.value, Pipe(meta.value, false));
      hide RunSpec, RunStages, Accepted, CanReply;
    } else {
      ErrorExplained(env, plan, meta);
      hide RunSpec, Accepted, CanReply, StageOk, Output, HasRunner, CallsOk, SchemasOk;
    }
  }

  lemma StageCallsCounted(env: Env, calls: seq<Call>, first: Pipe)
    requires Known(env, calls) && calls != []
    ensures var t := RunStages(env, calls, first);
            |t.calls| == StagesCalled(Some(calls), t.final.error) + (if CanReply(env) then 1 else 0)
  {
    hide Output, StageOk, HasRunner, Feed, Results, StageSaves, CanReply, Take, WriteSet;
    var n := Stop(env, calls, first, 0);
    if n == |calls| {
      hide Fail, StageError;
    } else {
      hide Finish;
    }
  }

  /** The results are what the stages that succeeded answered, in order; a reply's
      own answer can only come after those of all stages. */
  lemma ResultsAreAnswers(env: Env, plan: Option<seq<Call>>, meta: Option<string>)
    ensures var t := RunSpec(env, plan, meta);
            && (t.final.results == [] || Accepted(env, plan, meta))
            && forall k :: 0 <= k < |t.final.results| && k < |plan.value| ==>
                 && Reached(env, plan, meta, k)
                 && Answer(env, plan, meta, k).Some? && t.final.results[k] == Answer(env, plan, meta, k).value.value
  {
    AcceptedRuns(env, plan, meta);
    if Accepted(env, plan, meta) {
      var calls, first := plan.value, Pipe(meta.value, false);
      var n, t := Stop(env, calls, first, 0), RunSpec(env, plan, meta);
      ResultsPrefix(env, calls, first);
      forall k | 0 <= k < |t.final.results| && k < |calls|
        ensures Reached(env, plan, meta, k)
        ensures Answer(env, plan, meta, k).Some? && t.final.results[k] == Answer(env, plan, meta, k).value.value
      {
        hide RunSpec, RunStages, Accepted, StageOk, Output, Results;
        ResultAt(env, calls, first, n, k);
      }
    }
  }

  lemma ResultsPrefix(env: Env, calls: seq<Call>, first: Pipe)
    requires Known(env, calls)
    ensures var n, t := Stop(env, calls, first, 0), RunStages(env, calls, first);
            Results(env, calls, first, n) <= t.final.results && (n < |calls| ==> |t.final.results| == n)
  {
    hide Output, StageOk, HasRunner, Feed, Results, StageSaves;
  }

  /** What the reply's runner answers after the last stage; None when the reply is not
      registered, does not take the sender's address or has no runner. */
  function ReplyAnswer(env: Env, plan: Option<seq<Call>>, meta: Option<string>): Option<Pipe>
    requires Accepted(env, plan, meta)
  {
    var call := Call("reply", env.sender);
    if call.command in env.commands && env.argsOk(call) && env.commands[call.command].runner in env.runners
    then env.run(FinalReply(env, plan, meta)) else None
  }

  /** A completed run's results are the stages' answers and then, exactly when a reply can
      be sent and its runner answers, that answer. */
  lemma RepliedResults(env: Env, plan: Option<seq<Call>>, meta: Option<string>)
    requires AllStagesOk(env, plan, meta)
    ensures var t, r := RunSpec(env, plan, meta), ReplyAnswer(env, plan, meta);
            t.final.results ==
            Results(env, plan.value, Pipe(meta.value, false), |plan.value|) + (if r.Some? then [r.value.value] else [])
  {
    AcceptedRuns(env, plan, meta);
    var calls, first := plan.value, Pipe(meta.value, false);
    assert Stop(env, calls, first, 0) == |calls|;
    hide Accepted, StageOk, Results, Feed, StageSaves, StageCalls, RunSpec, Take, WriteSet, ReplyInput;
    var p := At(env, calls, |calls| - 1, Results(env, calls, first, |calls|));
    var saves := [Fresh(env)] + StageSaves(env, calls, first, |calls|);
    FinishResults(env, p, Feed(env, calls, first, |calls|), saves, StageCalls(env, calls, first, |calls|));
    hide Finish;
  }

  lemma FinishResults(env: Env, p: Pipeline, last: Pipe, saves: seq<Pipeline>, calls: seq<Invocation>)
    ensures var t, out := Finish(env, p, last, saves, calls), env.run(Invocation(|p.commands|, ReplyCall(env), ReplyInput(last)));
            t.final.results == p.results + (if CanReply(env) && out.Some? then [out.value.value] else [])
  {
    assert p.results + [] == p.results;
  }

  /** The stage a run stopped at, the number of stages when all went through. */
  function Reach(plan: Option<seq<Call>>, e: Error): nat {
    if Blamed(e) >= 0 then Blamed(e)
    else if plan.None? || e.EmptyPlan? || e.UnknownCommand? || e.BadArgs? || e.BadSchema? || e.BadPipe? then 0
    else |plan.value|
  }

  /** Whether the run ended before its plan was taken over. */
  predicate Unplanned(e: Error) { e.PlanFailed? || e.EmptyPlan? || e.UnknownCommand? || e.BadArgs? }

  lemma {:induction false} StageSavesAt(env: Env, calls: seq<Call>, first: Pipe, n: nat, k: nat)
    requires Known(env, calls) && k < n <= |calls| && forall i :: 0 <= i < n ==> StageOk(env, calls, first, i)
    ensures var saves := StageSaves(env, calls, first, n);
            && |saves| == 2 * n
            && saves[2 * k].current == k == |saves[2 * k].results|
            && saves[2 * k + 1].current == k && |saves[2 * k + 1].results| == k + 1
  {
    hide Take, WriteSet, StageOk, Output, HasRunner, Feed;
    if n > 1 {
      StageSavesAt(env, calls, first, n - 1, if k < n - 1 then k else 0);
    }
  }

  lemma {:induction false} StageSavesCount(env: Env, calls: seq<Call>, first: Pipe, n: nat)
    requires Known(env, calls) && n <= |calls| && forall i :: 0 <= i < n ==> StageOk(env, calls, first, i)
    ensures |StageSaves(env, calls, first, n)| == 2 * n
  {
    if n > 0 {
      StageSavesAt(env, calls, first, n, 0);
    }
  }

  /** The record at the start; two snapshots for each of n stages that go through, before
      and after it; one more before a stage at fault; and the final record. */
  predicate Snapshots(saves: seq<Pipeline>, n: nat, fault: bool) {
    && |saves| == 1 + 2 * n + (if fault then 1 else 0) + 1
    && saves[0].commands == [] && saves[0].results == []
    && (forall k: nat :: k < n ==> saves[1 + 2 * k].current == k == |saves[1 + 2 * k].results|)
    && (forall k: nat :: k < n ==> saves[2 + 2 * k].current == k && |saves[2 + 2 * k].results| == k + 1)
    && (fault ==> saves[1 + 2 * n].current == n == |saves[1 + 2 * n].results|)
  }

  /** Every run saves exactly these snapshots. */
  lemma SavesExact(env: Env, plan: Option<seq<Call>>, meta: Option<string>)
    ensures var t := RunSpec(env, plan, meta);
            Snapshots(t.saves, Reach(plan, t.final.error), Blamed(t.final.error) >= 0)
  {
    AcceptedRuns(env, plan, meta);
    if Accepted(env, plan, meta) {
      StageSavesExact(env, plan, meta);
    } else {
      RejectedFinal(env, plan, meta);
      hide RunSpec, Accepted, StageOk, CanReply, CallsOk, SchemasOk, Take;
    }
  }

  lemma StageSavesExact(env: Env, plan: Option<seq<Call>>, meta: Option<string>)
    requires Accepted(env, plan, meta)
    ensures var t := RunStages(env, plan.value, Pipe(meta.value, false));
            Snapshots(t.saves, Reach(plan, t.final.error), Blamed(t.final.error) >= 0)
  {
    var calls, first := plan.value, Pipe(meta.value, false);
    var n, t := Stop(env, calls, first, 0), RunStages(env, calls, first);
    hide Take, WriteSet, StageOk, Output, HasRunner, Feed, Apology, Accepted, Snapshots, RunStages;
    var saves := StageSaves(env, calls, first, n);
    var more := if n < |calls| then [At(env, calls, n, Results(env, calls, first, n))] else [];
    StageSavesCount(env, calls, first, n);
    forall k: nat | k < n
      ensures saves[2 * k].current == k == |saves[2 * k].results|
      ensures saves[2 * k + 1].current == k && |saves[2 * k + 1].results| == k + 1
    {
      StageSavesAt(env, calls, first, n, k);
    }
    hide StageSaves;
    StagesForm(env, plan, first);
    SnapshotsOf(Fresh(env), saves, more, t.final, n);
  }

  lemma StagesForm(env: Env, plan: Option<seq<Call>>, first: Pipe)
    requires plan.Some? && Known(env, plan.value)
    ensures var t, n := RunStages(env, plan.value, first), Stop(env, plan.value, first, 0);
            var more := if n < |plan.value| then [At(env, plan.value, n, Results(env, plan.value, first, n))] else [];
            && t.saves == [Fresh(env)] + StageSaves(env, plan.value, first, n) + more + [t.final]
            && Reach(plan, t.final.error) == n && (Blamed(t.final.error) >= 0 <==> n < |plan.value|)
  {
    hide Take, WriteSet, StageOk, Output, HasRunner, Feed, StageSaves, StageCalls, Apology, Results, Fresh;
    var saves := [Fresh(env)] + StageSaves(env, plan.value, first, Stop(env, plan.value, first, 0));
    assert saves + [] == saves;
  }

  lemma SnapshotsOf(start: Pipeline, saves: seq<Pipeline>, more: seq<Pipeline>, end: Pipeline, n: nat)
    requires start.commands == [] && start.results == [] && |saves| == 2 * n && |more| <= 1
    requires forall k: nat :: k < n ==> saves[2 * k].current == k == |saves[2 * k].results|
    requires forall k: nat :: k < n ==> saves[2 * k + 1].current == k && |saves[2 * k + 1].results| == k + 1
    requires more != [] ==> more[0].current == n == |more[0].results|
    ensures Snapshots([start] + saves + more + [end], n, more != [])
  {
    var all := [start] + saves + more + [end];
    forall k: nat | k < n
      ensures all[1 + 2 * k].current == k == |all[1 + 2 * k].results|
      ensures all[2 + 2 * k].current == k && |all[2 + 2 * k].results| == k + 1
    {
      assert all[1 + 2 * k] == saves[2 * k] && all[2 + 2 * k] == saves[2 * k + 1];
    }
  }

  lemma StoppedFinal(env: Env, plan: Option<seq<Call>>, meta: Option<string>)
    requires Accepted(env, plan, meta) && !AllStagesOk(env, plan, meta)
    ensures var t, n := RunSpec(env, plan, meta), Stop(env, plan.value, Pipe(meta.value, false), 0);
            && t.final.status.Failed? && Blamed(t.final.error) == n
            && t.final.commands == plan.value && t.final.writeSet == WriteSet(env, plan.value)
            && t.final.current == n && |t.final.results| == n
  {
    AcceptedRuns(env, plan, meta);
    hide RunSpec, Accepted, Feed, Results, StageSaves, StageCalls, Take, WriteSet, Apology, Finish, Output, HasRunner;
  }

  lemma CompletedFinal(env: Env, plan: Option<seq<Call>>, meta: Option<string>)
    requires AllStagesOk(env, plan, meta)
    ensures var t := RunSpec(env, plan, meta);
            && t.final.status.Completed? && t.final.commands == plan.value
            && t.final.writeSet == WriteSet(env, plan.value) && t.final.current == |plan.value| - 1
  {
    AcceptedRuns(env, plan, meta);
    assert Stop(env, plan.value, Pipe(meta.value, false), 0) == |plan.value|;
    hide RunSpec, Accepted, StageOk, Feed, Results, StageSaves, StageCalls, Take, WriteSet, ReplyInput;
  }

  lemma RejectedFinal(env: Env, plan: Option<seq<Call>>, meta: Option<string>)
    requires !Accepted(env, plan, meta)
    ensures var t := RunSpec(env, plan, meta); var e := t.final.error;
            && t.final.status.Failed? && Blamed(e) < 0 && t.final.current == 0 && t.final.results == []
            && (e.EmptyPlan? || plan.None? || e.UnknownCommand? || e.BadArgs? || e.BadSchema? || e.BadPipe?)
            && (if Unplanned(e) then t.final.commands == [] && t.final.writeSet == []
                else plan == Some(t.final.commands) && t.final.writeSet == WriteSet(env, plan.value))
  {
    hide Take, WriteSet, Apology, RunStages;
  }

  /** A completed run has every stage's result and perhaps the reply's; one that failed has
      those of the stages before the one it stopped at. */
  predicate Ended(env: Env, plan: Option<seq<Call>>, meta: Option<string>, p: Pipeline) {
    var n := Reach(plan, p.error);
    && (if AllStagesOk(env, plan, meta) then p.status.Completed? else p.status.Failed?)
    && (Unplanned(p.error) ==> p.commands == [] && p.writeSet == [])
    && (!Unplanned(p.error) ==> plan == Some(p.commands) && p.writeSet == WriteSet(env, plan.value))
    && p.current == (if p.status.Completed? then n - 1 else n)
    && |p.results| == n + (if p.status.Completed? && ReplyAnswer(env, plan, meta).Some? then 1 else 0)
  }

  lemma CompletedReach(env: Env, plan: Option<seq<Call>>, meta: Option<string>)
    requires AllStagesOk(env, plan, meta)
    ensures var e := RunSpec(env, plan, meta).final.error; !Unplanned(e) && Reach(plan, e) == |plan.value|
  {
    var e := RunSpec(env, plan, meta).final.error;
    ErrorExplained(env, plan, meta);
    if Blamed(e) >= 0 {
      BlamedFails(env, plan, meta, e);
    }
    hide RunSpec, StageOk, CanReply, HasRunner, Output, Feed, FinalReply;
  }

  lemma CompletedEnd(env: Env, plan: Option<seq<Call>>, meta: Option<string>)
    requires AllStagesOk(env, plan, meta)
    ensures Ended(env, plan, meta, RunSpec(env, plan, meta).final)
  {
    CompletedFinal(env, plan, meta);
    RepliedResults(env, plan, meta);
    CompletedReach(env, plan, meta);
    hide RunSpec, AllStagesOk, Accepted, WriteSet, ReplyAnswer, Results, Reach;
  }

  lemma StoppedEnd(env: Env, plan: Option<seq<Call>>, meta: Option<string>)
    requires Accepted(env, plan, meta) && !AllStagesOk(env, plan, meta)
    ensures Ended(env, plan, meta, RunSpec(env, plan, meta).final)
  {
    StoppedFinal(env, plan, meta);
    hide RunSpec, AllStagesOk, Accepted, WriteSet, ReplyAnswer, StageOk, Stop;
  }

  lemma RejectedEnd(env: Env, plan: Option<seq<Call>>, meta: Option<string>)
    requires !Accepted(env, plan, meta)
    ensures Ended(env, plan, meta, RunSpec(env, plan, meta).final)
  {
    RejectedFinal(env, plan, meta);
    assert !AllStagesOk(env, plan, meta);
    hide RunSpec, AllStagesOk, Accepted, WriteSet, ReplyAnswer;
  }

  /** Every run ends so. */
  lemma FinalExact(env: Env, plan: Option<seq<Call>>, meta: Option<string>)
    ensures Ended(env, plan, meta, RunSpec(env, plan, meta).final)
  {
    hide Ended, RunSpec;
    if AllStagesOk(env, plan, meta) {
      CompletedEnd(env, plan, meta);
    } else if Accepted(env, plan, meta) {
      StoppedEnd(env, plan, meta);
    } else {
      RejectedEnd(env, plan, meta);
    }
  }

  // --- the loops as the program runs them ----------------------------------------------

  class Executor {
    const env: Env
    var saves: seq<Pipeline>
    var calls: seq<Invocation>
    var elses: nat

    constructor (env: Env)
      ensures this.env == env && saves == [] && calls == [] && elses == 0
    {
      this.env := env;
      saves, calls, elses := [], [], 0;
    }

    method Invoke(inv: Invocation) returns (out: Option<Pipe>)
      modifies this`calls
      ensures calls == old(calls) + [inv] && out == env.run(inv)
    {
      calls := calls + [inv];
      out := env.run(inv);
    }

    /** Marks p failed, saves it and sends the apology. */
    method FireElse(p: Pipeline, error: Error) returns (q: Pipeline)
      modifies this
      ensures q == p.(status := Failed, error := error)
      ensures saves == old(saves) + [q] && calls == old(calls) + Apology(env) && elses == old(elses) + 1
    {
      q := p.(status := Failed, error := error);
      saves := saves + [q];
      elses := elses + 1;
      if "reply" !in env.commands || !env.argsOk(ReplyCall(env)) || env.commands["reply"].runner !in env.runners {
        return;
      }
      var _ := Invoke(Invocation(-1, ReplyCall(env), Pipe(env.apology, false)));
    }

    method Reply(p: Pipeline, last: Pipe) returns (q: Pipeline)
      modifies this
      ensures var t := Finish(env, p, last, old(saves), old(calls));
              q == t.final && saves == t.saves && calls == t.calls && elses == old(elses) + t.elses
    {
      q := p;
      if "reply" in env.commands {
        if !env.argsOk(ReplyCall(env)) {
          q := q.(error := ReplyBadArgs);
        } else if env.commands["reply"].runner !in env.runners {
          q := q.(error := ReplyNoRunner);
        } else {
          var value := last.value;
          if last.truncated {
            value := value + NOTICE;
          }
          var out := Invoke(Invocation(|p.commands|, ReplyCall(env), Pipe(value, last.truncated)));
          if out.None? {
            q := q.(error := ReplyFailed);
          } else {
            q := q.(results := q.results + [out.value.value]);
          }
        }
      }
      q := q.(status := Completed);
      saves := saves + [q];
    }

    /** One turn of the stage loop; failed says why it stopped. */
    method RunStage(p0: Pipeline, ghost first: Pipe, i: nat, pipe0: Pipe) returns (p: Pipeline, pipe: Pipe, failed: Error)
      requires Known(env, p0.commands) && i < |p0.commands| && forall k :: 0 <= k < i ==> StageOk(env, p0.commands, first, k)
      requires p0 == At(env, p0.commands, p0.current, Results(env, p0.commands, first, i))
      requires pipe0 == Feed(env, p0.commands, first, i)
      modifies this
      ensures elses == old(elses)
      ensures failed == NoError <==> StageOk(env, p0.commands, first, i)
      ensures var plan := p0.commands;
              var begun := At(env, plan, i, p0.results);
              if StageOk(env, plan, first, i) then
                && failed == NoError
                && p == At(env, plan, i, p0.results + [Output(env, plan, first, i).value.value])
                && pipe == Feed(env, plan, first, i + 1)
                && saves == old(saves) + [begun, p] && calls == old(calls) + [StageCall(env, plan, first, i)]
              else
                && failed == StageError(env, plan, first, i) && p == begun && saves == old(saves) + [begun]
                && calls == old(calls) + if HasRunner(env, plan, i) then [StageCall(env, plan, first, i)] else []
    {
      p, pipe, failed := p0.(current := i), pipe0, NoError;
      saves := saves + [p];
      var cmd := env.commands[p.commands[i].command];
      if cmd.runner !in env.runners {
        assert calls == old(calls) + [];
        failed := UnknownRunner(i);
        return;
      }
      var out := Invoke(Invocation(i, p.commands[i], pipe));
      if out.None? {
        failed := StageFailed(i);
        return;
      }
      if cmd.process {
        if !env.outputOk(p.commands[i].command, out.value.value) {
          failed := BadOutput(i, out.value.truncated);
          return;
        }
        pipe := out.value;
      }
      assert StageOk(env, p.commands, first, i);
      p := p.(results := p.results + [out.value.value]);
      saves := saves + [p];
      assert old(saves) + [At(env, p0.commands, i, p0.results)] + [p] == old(saves) + [At(env, p0.commands, i, p0.results), p];
    }

    /** What a stage that succeeds adds to the snapshots and calls. */
    lemma StageAdds(plan: seq<Call>, first: Pipe, i: nat, saved: seq<Pipeline>, called: seq<Invocation>)
      requires Known(env, plan) && i < |plan| && forall k :: 0 <= k < i + 1 ==> StageOk(env, plan, first, k)
      ensures Output(env, plan, first, i).Some?
      ensures Results(env, plan, first, i + 1) == Results(env, plan, first, i) + [Output(env, plan, first, i).value.value]
      ensures saved + StageSaves(env, plan, first, i)
              + [At(env, plan, i, Results(env, plan, first, i)), At(env, plan, i, Results(env, plan, first, i + 1))] ==
              saved + StageSaves(env, plan, first, i + 1)
      ensures called + StageCalls(env, plan, first, i) + [StageCall(env, plan, first, i)] ==
              called + StageCalls(env, plan, first, i + 1)
    {
      assert StageOk(env, plan, first, i);
      assert Results(env, plan, first, i + 1) == Results(env, plan, first, i) + [Output(env, plan, first, i).value.value];
      hide StageOk, StageCall, At, Results, Output;
      var a, b := At(env, plan, i, Results(env, plan, first, i)), At(env, plan, i, Results(env, plan, first, i + 1));
      Regroup(saved, StageSaves(env, plan, first, i), [a, b]);
      Regroup(called, StageCalls(env, plan, first, i), [StageCall(env, plan, first, i)]);
    }

    /** What a stage that fails adds. */
    lemma FailureAdds(plan: seq<Call>, first: Pipe, i: nat, saved: seq<Pipeline>, called: seq<Invocation>)
      requires Known(env, plan) && i < |plan| && forall k :: 0 <= k < i ==> StageOk(env, plan, first, k)
      ensures var begun := At(env, plan, i, Results(env, plan, first, i));
              saved + StageSaves(env, plan, first, i) + [begun] == saved + (StageSaves(env, plan, first, i) + [begun])
      ensures var ran := HasRunner(env, plan, i);
              called + StageCalls(env, plan, first, i) + (if ran then [StageCall(env, plan, first, i)] else []) ==
              called + StageCalls(env, plan, first, if ran then i + 1 else i)
    {
      hide StageOk, StageCall, StageSaves, At, Results, HasRunner;
      Regroup(called, StageCalls(env, plan, first, i), [StageCall(env, plan, first, i)]);
    }

    /** The first i stages have run, saved and called being there before. */
    ghost predicate Standing(plan: seq<Call>, first: Pipe, i: nat, p: Pipeline, pipe: Pipe, saved: seq<Pipeline>, called: seq<Invocation>)
      reads this
    {
      && Known(env, plan) && i <= |plan| && (forall k :: 0 <= k < i ==> StageOk(env, plan, first, k))
      && pipe == Feed(env, plan, first, i)
      && p == At(env, plan, if i == 0 then 0 else i - 1, Results(env, plan, first, i))
      && saves == saved + StageSaves(env, plan, first, i)
      && calls == called + StageCalls(env, plan, first, i)
    }

    /** Stage n has stopped the run. */
    ghost predicate Stopped(plan: seq<Call>, first: Pipe, n: nat, p: Pipeline, saved: seq<Pipeline>, called: seq<Invocation>)
      reads this
    {
      && Known(env, plan) && n < |plan| && (forall k :: 0 <= k < n ==> StageOk(env, plan, first, k))
      && p == At(env, plan, n, Results(env, plan, first, n))
      && saves == saved + (StageSaves(env, plan, first, n) + [p])
      && calls == called + StageCalls(env, plan, first, if HasRunner(env, plan, n) then n + 1 else n)
    }

    method Turn(ghost plan: seq<Call>, ghost first: Pipe, i: nat, p0: Pipeline, pipe0: Pipe,
                ghost saved: seq<Pipeline>, ghost called: seq<Invocation>)
      returns (p: Pipeline, pipe: Pipe, failed: Error)
      requires Known(env, plan) && i < |plan| && Standing(plan, first, i, p0, pipe0, saved, called)
      modifies this
      ensures elses == old(elses) && (failed == NoError <==> StageOk(env, plan, first, i))
      ensures if StageOk(env, plan, first, i) then Standing(plan, first, i + 1, p, pipe, saved, called)
              else failed == StageError(env, plan, first, i) && Stopped(plan, first, i, p, saved, called)
    {
      hide StageOk, Feed, Output, HasRunner, StageCall, StageError, StageSaves, StageCalls, Results, Take, WriteSet;
      p, pipe, failed := RunStage(p0, first, i, pipe0);
      if failed != NoError {
        FailureAdds(plan, first, i, saved, called);
      } else {
        StageAdds(plan, first, i, saved, called);
      }
    }

    method Stages(plan: seq<Call>, first: Pipe) returns (p: Pipeline, pipe: Pipe, failed: Error)
      requires Known(env, plan) && plan != []
      modifies this
      ensures elses == old(elses)
      ensures var n := Stop(env, plan, first, 0);
              if n < |plan| then failed == StageError(env, plan, first, n) && Stopped(plan, first, n, p, old(saves), old(calls))
              else failed == NoError && Standing(plan, first, n, p, pipe, old(saves), old(calls))
    {
      p, pipe, failed := At(env, plan, 0, []), first, NoError;
      assert old(saves) + [] == old(saves) && old(calls) + [] == old(calls);
      assert Standing(plan, first, 0, p, pipe, old(saves), old(calls));
      hide StageOk, StageError, Standing, Stopped;
      for i := 0 to |plan|
        invariant elses == old(elses) && failed == NoError
        invariant Stop(env, plan, first, 0) == Stop(env, plan, first, i)
        invariant Standing(plan, first, i, p, pipe, old(saves), old(calls))
      {
        p, pipe, failed := Turn(plan, first, i, p, pipe, old(saves), old(calls));
        if failed != NoError {
          return;
        }
      }
    }

    /** The stages of an accepted plan, then the reply or the apology. */
    method Execute(plan: seq<Call>, first: Pipe) returns (p: Pipeline)
      requires Known(env, plan) && plan != []
      requires saves == [Fresh(env)] && calls == [] && elses == 0
      modifies this
      ensures var t := RunStages(env, plan, first);
              p == t.final && saves == t.saves && calls == t.calls && elses == t.elses
    {
      hide StageOk, Feed, Output, HasRunner, StageCall, StageError, StageSaves, StageCalls, Results, Apology, Finish, Take, WriteSet;
      var pipe, failed;
      p, pipe, failed := Stages(plan, first);
      StageFails(plan, first);
      Regroup([Fresh(env)], StageSaves(env, plan, first, Stop(env, plan, first, 0)), [p]);
      assert forall c: seq<Invocation> :: [] + c == c;
      if failed != NoError {
        p := FireElse(p, failed);
      } else {
        p := Reply(p, pipe);
      }
    }

    /** The whole run once the plan is in: refines the closed form RunSpec. */
    method Run(plan: Option<seq<Call>>, meta: Option<string>) returns (p: Pipeline)
      requires saves == [] && calls == [] && elses == 0
      modifies this
      ensures var t := RunSpec(env, plan, meta);
              p == t.final && saves == t.saves && calls == t.calls && elses == t.elses
    {
      hide RunStages, Apology, Take, WriteSet;
      p := Fresh(env);
      saves := [p];
      if plan.None? {
        p := FireElse(p, PlanFailed);
        return;
      }
      if plan.value == [] {
        p := FireElse(p, EmptyPlan);
        return;
      }
      var bad := CheckCalls(plan.value);
      if bad < |plan.value| {
        p := FireElse(p, if plan.value[bad].command in env.commands then BadArgs(bad) else UnknownCommand(bad));
        return;
      }
      var ws := UnionWriteSets(plan.value);
      p := p.(commands := plan.value, writeSet := ws);
      var badSchema := CheckSchemas(plan.value);
      if badSchema < |plan.value| {
        p := FireElse(p, BadSchema(badSchema));
        return;
      }
      if meta.None? {
        p := FireElse(p, BadPipe);
        return;
      }
      p := Execute(plan.value, Pipe(meta.value, false));
    }

    lemma StageFails(plan: seq<Call>, first: Pipe)
      requires Known(env, plan)
      ensures var n := Stop(env, plan, first, 0);
              n < |plan| ==> StageError(env, plan, first, n) != NoError
    {
    }

    method UnionWriteSets(plan: seq<Call>) returns (ws: seq<string>)
      ensures ws == WriteSet(env, plan)
    {
      ws := [];
      for i := 0 to |plan|
        invariant ws == WriteSet(env, plan[..i])
      {
        assert plan[..i + 1][..i] == plan[..i];
        if plan[i].command in env.commands {
          ws := Merge(ws, env.commands[plan[i].command].writeSet);
        }
      }
      assert plan[..|plan|] == plan;
    }

    method CheckCalls(plan: seq<Call>) returns (bad: nat)
      ensures bad == FirstBadCall(env, plan, 0)
    {
      bad := 0;
      while bad < |plan| && plan[bad].command in env.commands && env.argsOk(plan[bad])
        invariant bad <= |plan| && FirstBadCall(env, plan, 0) == FirstBadCall(env, plan, bad)
      {
        bad := bad + 1;
      }
    }

    method CheckSchemas(plan: seq<Call>) returns (bad: nat)
      ensures bad == FirstBadSchema(env, plan, 0)
    {
      bad := 0;
      while bad < |plan| && env.schemaOk(plan[bad].command)
        invariant bad <= |plan| && FirstBadSchema(env, plan, 0) == FirstBadSchema(env, plan, bad)
      {
        bad := bad + 1;
      }
    }
  }
}
