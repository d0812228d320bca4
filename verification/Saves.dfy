/** Who calls Save: each pipeline's own run, snapshot by snapshot, and after a crash the
    sweep that marks what it finds running as failed. */
module Saves {
  import opened Basics
  import opened Store
  import E = Executor

  /** One run of the executor, for the pipeline made at createdAt. */
  datatype Run = Run(env: E.Env, plan: Option<seq<E.Call>>, meta: Option<string>, createdAt: int)

  function SavesOf(r: Run): seq<E.Pipeline> { E.RunSpec(r.env, r.plan, r.meta).saves }

  /** The n-th snapshot of a run as the store sees it. */
  function Snap(id: nat, r: Run, n: nat): Snapshot
    requires n < |SavesOf(r)|
  {
    Snapshot(id, if SavesOf(r)[n].status.Running? then Running else Terminal, r.createdAt)
  }

  /** Alive: the run has saved n times, or not begun. Cut: it died with the process. */
  datatype Life = Alive(n: nat) | Cut

  function LifeOf(steps: seq<Step>, id: nat): Life
    decreases |steps|
  {
    if steps == [] then Alive(0)
    else
      var before, last := LifeOf(steps[..|steps| - 1], id), steps[|steps| - 1];
      if before.Cut? then Cut
      else if last.BeginSave? && last.snap.id == id then Alive(before.n + 1)
      else if last.Crash? && before.n > 0 then Cut
      else before
  }

  /** A live run saves its next snapshot. Of a cut one, the sweep relabels the record
      it finds running and saves it back. */
  predicate MaySave(runs: nat -> Run, s: State, life: Life, snap: Snapshot) {
    match life
    case Alive(n) => n < |SavesOf(runs(snap.id))| && snap == Snap(snap.id, runs(snap.id), n)
    case Cut =>
      && Final(snap.id) in s.dir
      && var found := s.dir[Final(snap.id)].content;
         found.Whole? && found.snap.status.Running? && snap == found.snap.(status := Terminal)
  }

  /** Any interleaving of such saves with pruning passes, aborts and crashes. */
  ghost predicate Driven(runs: nat -> Run, trace: seq<State>, steps: seq<Step>) {
    && |trace| == |steps| + 1 && Init(trace[0])
    && forall i :: 0 <= i < |steps| ==>
         && Possible(trace[i], steps[i]) && trace[i + 1] == Next(trace[i], steps[i])
         && (steps[i].BeginSave? ==> MaySave(runs, trace[i], LifeOf(steps[..i], steps[i].snap.id), steps[i].snap))
  }

  /** Only the last snapshot of a run is terminal. */
  lemma OnlyLastEnds(r: Run, n: nat)
    requires n < |SavesOf(r)|
    ensures SavesOf(r)[n].status.Running? <==> n < |SavesOf(r)| - 1
  {
    E.SavesLegal(r.env, r.plan, r.meta);
    hide E.RunSpec;
    if n < |SavesOf(r)| - 1 {
      assert E.Follows(SavesOf(r)[n + 1 - 1], SavesOf(r)[n + 1]);
    }
  }

  /** What the store knows of pipeline id fits how far its run has come. */
  predicate Fits(s: State, r: Run, id: nat, life: Life) {
    match life
    case Alive(n) =>
      if n == 0 then id !in s.births && id !in s.ended
      else
        && n <= |SavesOf(r)| && id in s.births && s.births[id] == r.createdAt
        && (id in s.ended ==> n == |SavesOf(r)|)
    case Cut => true
  }

  lemma SaveInOrder(runs: nat -> Run, s: State, life: Life, snap: Snapshot)
    requires Inv(s) && Fits(s, runs(snap.id), snap.id, life) && MaySave(runs, s, life, snap)
    ensures InOrder(s, snap)
  {
    hide E.RunSpec;
    if life.Alive? {
      OnlyLastEnds(runs(snap.id), life.n);
    } else {
      assert Record(s, snap.id, s.dir[Final(snap.id)]);
    }
  }

  lemma FitsAfterSave(runs: nat -> Run, s: State, life: Life, step: Step)
    requires step.BeginSave? && Possible(s, step) && life.Alive?
    requires Fits(s, runs(step.snap.id), step.snap.id, life) && MaySave(runs, s, life, step.snap)
    ensures Fits(Next(s, step), runs(step.snap.id), step.snap.id, Alive(life.n + 1))
  {
    hide E.RunSpec;
    OnlyLastEnds(runs(step.snap.id), life.n);
  }

  lemma LifeSnoc(steps: seq<Step>, i: nat, id: nat)
    requires i < |steps|
    ensures var before, last := LifeOf(steps[..i], id), steps[i];
            LifeOf(steps[..i + 1], id) ==
            if before.Cut? then Cut
            else if last.BeginSave? && last.snap.id == id then Alive(before.n + 1)
            else if last.Crash? && before.n > 0 then Cut
            else before
  {
    assert steps[..i + 1][..i] == steps[..i];
  }

  /** Only a save of pipeline id changes what is known of it. */
  lemma OthersKnown(s: State, step: Step, id: nat)
    requires Possible(s, step) && !(step.BeginSave? && step.snap.id == id)
    ensures var t := Next(s, step);
            && (id in t.births <==> id in s.births) && (id in t.ended <==> id in s.ended)
            && (id in s.births ==> t.births[id] == s.births[id])
  {
  }

  lemma FitsStep(runs: nat -> Run, s: State, steps: seq<Step>, i: nat, id: nat)
    requires i < |steps| && Possible(s, steps[i]) && Fits(s, runs(id), id, LifeOf(steps[..i], id))
    requires steps[i].BeginSave? ==> MaySave(runs, s, LifeOf(steps[..i], steps[i].snap.id), steps[i].snap)
    ensures Fits(Next(s, steps[i]), runs(id), id, LifeOf(steps[..i + 1], id))
  {
    var life := LifeOf(steps[..i], id);
    LifeSnoc(steps, i, id);
    hide LifeOf, SavesOf, Next, Possible, MaySave;
    if !(steps[i].BeginSave? && steps[i].snap.id == id) {
      OthersKnown(s, steps[i], id);
    } else if life.Alive? {
      FitsAfterSave(runs, s, life, steps[i]);
    }
  }

  lemma InvStep(s: State, step: Step)
    requires Inv(s) && Enabled(s, step)
    ensures Inv(Next(s, step))
  {
    hide Inv, Next;
    if step.BeginSave? || step.FinishWrite? || step.Rename? || step.AbortSave? {
      SaveKeeps(s, step);
    } else {
      PassKeeps(s, step);
    }
  }

  lemma {:induction false} DrivenSoFar(runs: nat -> Run, trace: seq<State>, steps: seq<Step>, i: nat)
    requires Driven(runs, trace, steps) && i < |trace|
    ensures Inv(trace[i]) && forall id: nat :: Fits(trace[i], runs(id), id, LifeOf(steps[..i], id))
    ensures forall k :: 0 <= k < i ==> Enabled(trace[k], steps[k])
  {
    if i > 0 {
      DrivenSoFar(runs, trace, steps, i - 1);
      var s, step := trace[i - 1], steps[i - 1];
      assert Possible(s, step) && trace[i - 1 + 1] == Next(s, step);
      hide Inv, Next, Possible, InOrder, Fits, MaySave, LifeOf;
      if step.BeginSave? {
        SaveInOrder(runs, s, LifeOf(steps[..i - 1], step.snap.id), step.snap);
      }
      InvStep(s, step);
      forall id: nat ensures Fits(trace[i], runs(id), id, LifeOf(steps[..i], id)) {
        FitsStep(runs, s, steps, i - 1, id);
      }
    }
  }

  /** What runs and sweeps save is always in order, so that every interleaving of theirs
      with pruning is an execution of the store, and all that is proved of those holds. */
  lemma DrivenIsExecution(runs: nat -> Run, trace: seq<State>, steps: seq<Step>)
    requires Driven(runs, trace, steps)
    ensures Execution(trace, steps)
  {
    DrivenSoFar(runs, trace, steps, |steps|);
    hide Enabled, Possible, Next, Inv, MaySave, LifeOf;
  }
}
