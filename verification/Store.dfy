/** The pipeline directory: saves by temporary file and rename, and any number of
    pruning passes beside them, with no lock between the two. */
module Store {
  import opened Basics

  datatype Status = Running | Terminal

  /** One saved state of one pipeline. */
  datatype Snapshot = Snapshot(id: nat, status: Status, createdAt: int)

  /** A file still being written, or written in full. */
  datatype Content = Torn | Whole(snap: Snapshot)

  datatype File = File(content: Content, mtime: int)

  datatype Name = Temp(id: nat) | Final(id: nat)

  /** How far the one save in progress for a pipeline has come. */
  datatype Save = Opened(snap: Snapshot) | Written(snap: Snapshot)

  /** A pruning pass: what it listed, and the file it has decided to remove. */
  datatype Pass = Pass(now: int, maxAge: int, listed: set<Name>, condemned: Option<Name>)

  /** ended: pipelines whose terminal state has been handed to Save. saved: every
      snapshot handed to Save. births: the creation time each pipeline carries. */
  datatype State = State(
    dir: map<Name, File>, saves: map<nat, Save>, passes: map<nat, Pass>,
    ended: set<nat>, saved: set<Snapshot>, births: map<nat, int>)

  const TMP_MAX_AGE := 300

  datatype Step =
    | BeginSave(snap: Snapshot, time: int)
    | FinishWrite(id: nat, time: int)
    | Rename(id: nat)
    | AbortSave(id: nat, cleanUp: bool)
    | BeginPass(pass: nat, now: int, maxAge: int)
    | Inspect(pass: nat, name: Name)
    | Remove(pass: nat)
    | EndPass(pass: nat)
    | Crash

  /** What the file system and the store let happen: one save at a time per pipeline. */
  predicate Possible(s: State, step: Step) {
    match step
    case BeginSave(snap, _) => snap.id !in s.saves
    case FinishWrite(id, _) => id in s.saves && s.saves[id].Opened?
    case Rename(id) => id in s.saves && s.saves[id].Written?
    case AbortSave(id, _) => id in s.saves
    case BeginPass(pass, _, _) => pass !in s.passes
    case Inspect(pass, name) => pass in s.passes && s.passes[pass].condemned.None? && name in s.passes[pass].listed
    case Remove(pass) => pass in s.passes && s.passes[pass].condemned.Some?
    case EndPass(pass) => pass in s.passes
    case Crash => true
  }

  /** What the callers of Save keep to: a pipeline's creation time is fixed, and there
      is no way back from a terminal status. Saves.DrivenIsExecution proves it of them. */
  predicate InOrder(s: State, snap: Snapshot) {
    && (snap.status.Running? ==> snap.id !in s.ended)
    && (snap.id in s.births ==> s.births[snap.id] == snap.createdAt)
  }

  predicate Enabled(s: State, step: Step) { Possible(s, step) && (step.BeginSave? ==> InOrder(s, step.snap)) }

  /** The decision on one listed file, from what is there at this moment. */
  predicate Condemns(p: Pass, name: Name, file: File) {
    match name
    case Temp(_) => p.now - file.mtime >= TMP_MAX_AGE
    case Final(_) =>
      file.content.Whole? && file.content.snap.status.Terminal? && file.content.snap.createdAt < p.now - p.maxAge
  }

  function Next(s: State, step: Step): State
    requires Possible(s, step)
  {
    match step
    case BeginSave(snap, time) =>
      s.(dir := s.dir[Temp(snap.id) := File(Torn, time)], saves := s.saves[snap.id := Opened(snap)],
         ended := if snap.status.Terminal? then s.ended + {snap.id} else s.ended,
         saved := s.saved + {snap}, births := s.births[snap.id := snap.createdAt])
    case FinishWrite(id, time) =>
      // an unlinked temporary file swallows the write
      s.(dir := if Temp(id) in s.dir then s.dir[Temp(id) := File(Whole(s.saves[id].snap), time)] else s.dir,
         saves := s.saves[id := Written(s.saves[id].snap)])
    case Rename(id) =>
      s.(dir := if Temp(id) in s.dir then (s.dir - {Temp(id)})[Final(id) := s.dir[Temp(id)]] else s.dir,
         saves := s.saves - {id})
    case AbortSave(id, cleanUp) => s.(dir := if cleanUp then s.dir - {Temp(id)} else s.dir, saves := s.saves - {id})
    case BeginPass(pass, now, maxAge) => s.(passes := s.passes[pass := Pass(now, maxAge, s.dir.Keys, None)])
    case Inspect(pass, name) =>
      var p := s.passes[pass];
      if name in s.dir && Condemns(p, name, s.dir[name])
      then s.(passes := s.passes[pass := p.(condemned := Some(name), listed := p.listed - {name})])
      else s.(passes := s.passes[pass := p.(listed := p.listed - {name})])
    case Remove(pass) =>
      var p := s.passes[pass];
      s.(dir := s.dir - {p.condemned.value}, passes := s.passes[pass := p.(condemned := None)])
    case EndPass(pass) => s.(passes := s.passes - {pass})
    case Crash => s.(saves := map[], passes := map[])
  }

  predicate Init(s: State) {
    s.dir == map[] && s.saves == map[] && s.passes == map[] && s.ended == {} && s.saved == {} && s.births == map[]
  }

  /** A complete snapshot that some save of this very pipeline was given. */
  predicate Record(s: State, id: nat, file: File) {
    && file.content.Whole?
    && file.content.snap.id == id && file.content.snap in s.saved
    && id in s.births && s.births[id] == file.content.snap.createdAt
    && (file.content.snap.status.Terminal? ==> id in s.ended)
  }

  ghost predicate RecordsWhole(s: State) {
    forall id: nat :: Final(id) in s.dir ==> Record(s, id, s.dir[Final(id)])
  }

  ghost predicate SavesKnown(s: State) {
    forall id :: id in s.saves ==>
      var snap := s.saves[id].snap;
      && snap.id == id && snap in s.saved && id in s.births && s.births[id] == snap.createdAt
      && (snap.status.Terminal? <==> id in s.ended)
      && (s.saves[id].Written? && Temp(id) in s.dir ==> s.dir[Temp(id)].content == Whole(snap))
  }

  /** A condemned record stays terminal and old, whatever is saved meanwhile. */
  ghost predicate CondemnedEnded(s: State) {
    forall pass :: pass in s.passes && s.passes[pass].condemned.Some? && s.passes[pass].condemned.value.Final? ==>
      var p, id := s.passes[pass], s.passes[pass].condemned.value.id;
      && id in s.ended && id in s.births && s.births[id] < p.now - p.maxAge
      && (Final(id) in s.dir ==> s.dir[Final(id)].content.Whole? && s.dir[Final(id)].content.snap.status.Terminal?)
  }

  ghost predicate Inv(s: State) { RecordsWhole(s) && SavesKnown(s) && CondemnedEnded(s) }

  lemma SaveKeepsRecords(s: State, step: Step)
    requires RecordsWhole(s) && SavesKnown(s) && Enabled(s, step)
    requires step.BeginSave? || step.FinishWrite? || step.Rename? || step.AbortSave?
    ensures RecordsWhole(Next(s, step))
  {
    var t := Next(s, step);
    forall id: nat | Final(id) in t.dir ensures Record(t, id, t.dir[Final(id)]) {
      if Final(id) in s.dir {
        assert Record(s, id, s.dir[Final(id)]);
      }
    }
  }

  lemma SaveKeepsKnown(s: State, step: Step)
    requires SavesKnown(s) && Enabled(s, step)
    requires step.BeginSave? || step.FinishWrite? || step.Rename? || step.AbortSave?
    ensures SavesKnown(Next(s, step))
  {
  }

  lemma SaveKeepsCondemned(s: State, step: Step)
    requires Inv(s) && Enabled(s, step)
    requires step.BeginSave? || step.FinishWrite? || step.Rename? || step.AbortSave?
    ensures CondemnedEnded(Next(s, step))
  {
    hide RecordsWhole;
  }

  lemma SaveKeeps(s: State, step: Step)
    requires Inv(s) && Enabled(s, step)
    requires step.BeginSave? || step.FinishWrite? || step.Rename? || step.AbortSave?
    ensures Inv(Next(s, step))
  {
    SaveKeepsRecords(s, step);
    SaveKeepsKnown(s, step);
    hide RecordsWhole, SavesKnown;
    SaveKeepsCondemned(s, step);
  }

  lemma PassKeepsRecords(s: State, step: Step)
    requires RecordsWhole(s) && Enabled(s, step)
    requires step.BeginPass? || step.Inspect? || step.Remove? || step.EndPass? || step.Crash?
    ensures RecordsWhole(Next(s, step))
  {
    var t := Next(s, step);
    forall id: nat | Final(id) in t.dir ensures Record(t, id, t.dir[Final(id)]) {
      assert Record(s, id, s.dir[Final(id)]);
    }
  }

  lemma PassKeeps(s: State, step: Step)
    requires Inv(s) && Enabled(s, step)
    requires step.BeginPass? || step.Inspect? || step.Remove? || step.EndPass? || step.Crash?
    ensures Inv(Next(s, step))
  {
    PassKeepsRecords(s, step);
    if step.Inspect? && step.name.Final? && step.name in s.dir {
      assert Record(s, step.name.id, s.dir[step.name]);
    }
  }

  ghost predicate Execution(trace: seq<State>, steps: seq<Step>) {
    && |trace| == |steps| + 1 && Init(trace[0])
    && forall i :: 0 <= i < |steps| ==> Enabled(trace[i], steps[i]) && trace[i + 1] == Next(trace[i], steps[i])
  }

  lemma {:induction false} InvHolds(trace: seq<State>, steps: seq<Step>, i: nat)
    requires Execution(trace, steps) && i < |trace|
    ensures Inv(trace[i])
  {
    if i > 0 {
      InvHolds(trace, steps, i - 1);
      var s, step := trace[i - 1], steps[i - 1];
      assert trace[i - 1 + 1] == trace[i];
      if step.BeginSave? || step.FinishWrite? || step.Rename? || step.AbortSave? {
        SaveKeeps(s, step);
      } else {
        PassKeeps(s, step);
      }
    }
  }

  /** In every interleaving each stored record is a complete snapshot from one save
      of its own pipeline. */
  lemma RecordsComplete(trace: seq<State>, steps: seq<Step>, i: nat, id: nat)
    requires Execution(trace, steps) && i < |trace| && Final(id) in trace[i].dir
    ensures var file := trace[i].dir[Final(id)];
            file.content.Whole? && file.content.snap.id == id && file.content.snap in trace[i].saved
  {
    InvHolds(trace, steps, i);
    assert Record(trace[i], id, trace[i].dir[Final(id)]);
  }

  /** A record disappears only in the removal step of a pass, and only when the very
      record removed, not the one the pass had read, is terminal and past the cutoff. */
  lemma OnlyOldEndedRecordsGo(trace: seq<State>, steps: seq<Step>, i: nat, id: nat)
    requires Execution(trace, steps) && i < |steps|
    requires Final(id) in trace[i].dir && Final(id) !in trace[i + 1].dir
    ensures steps[i].Remove? && steps[i].pass in trace[i].passes
    ensures var p, file := trace[i].passes[steps[i].pass], trace[i].dir[Final(id)];
            file.content.Whole? && file.content.snap.status.Terminal? && file.content.snap.createdAt < p.now - p.maxAge
  {
    InvHolds(trace, steps, i);
    assert trace[i + 1] == Next(trace[i], steps[i]);
    assert Record(trace[i], id, trace[i].dir[Final(id)]);
  }

  /** A save that fails changes no record, and takes its temporary file with it when it
      can still clean up; otherwise that file stays as it is. */
  lemma FailedSaveExact(trace: seq<State>, steps: seq<Step>, i: nat, name: Name)
    requires Execution(trace, steps) && i < |steps| && steps[i].AbortSave?
    ensures steps[i].id !in trace[i + 1].saves
    ensures var gone := name == Temp(steps[i].id) && steps[i].cleanUp;
            && (name in trace[i + 1].dir <==> name in trace[i].dir && !gone)
            && (name in trace[i + 1].dir ==> trace[i + 1].dir[name] == trace[i].dir[name])
  {
    assert trace[i + 1] == Next(trace[i], steps[i]);
  }

  /** A record once terminal is never replaced by a running one. */
  lemma TerminalStays(trace: seq<State>, steps: seq<Step>, i: nat, id: nat)
    requires Execution(trace, steps) && i < |steps|
    requires Final(id) in trace[i].dir && Final(id) in trace[i + 1].dir
    requires trace[i].dir[Final(id)].content.Whole? && trace[i].dir[Final(id)].content.snap.status.Terminal?
    ensures trace[i + 1].dir[Final(id)].content.Whole? && trace[i + 1].dir[Final(id)].content.snap.status.Terminal?
  {
    InvHolds(trace, steps, i);
    assert trace[i + 1] == Next(trace[i], steps[i]);
    assert Record(trace[i], id, trace[i].dir[Final(id)]);
  }

  // --- what a pass takes ---------------------------------------------------------------

  /** A whole record of an ended pipeline created before the cutoff. */
  predicate OldRecord(file: File, cutoff: int) {
    file.content.Whole? && file.content.snap.status.Terminal? && file.content.snap.createdAt < cutoff
  }

  /** The file a pass may take: such a record, or a temporary file untouched for five minutes. */
  predicate Due(name: Name, file: File, now: int, maxAge: int) {
    match name
    case Temp(_) => now - file.mtime >= 5 * 60
    case Final(_) => OldRecord(file, now - maxAge)
  }

  function PassOf(step: Step): Option<nat> {
    match step
    case BeginPass(pass, _, _) => Some(pass)
    case Inspect(pass, _) => Some(pass)
    case Remove(pass) => Some(pass)
    case EndPass(pass) => Some(pass)
    case _ => None
  }

  lemma CondemnedStep(s: State, step: Step, pass: nat, name: Name)
    requires Enabled(s, step) && PassOf(step) != Some(pass)
    requires pass in s.passes ==> s.passes[pass].condemned == Some(name)
    ensures var t := Next(s, step); pass in t.passes ==> t.passes[pass].condemned == Some(name)
  {
  }

  lemma {:induction false} StaysCondemned(trace: seq<State>, steps: seq<Step>, i: nat, k: nat, pass: nat, name: Name)
    requires Execution(trace, steps) && i < k < |trace| && steps[i] == Inspect(pass, name)
    requires name in trace[i].dir && Due(name, trace[i].dir[name], trace[i].passes[pass].now, trace[i].passes[pass].maxAge)
    requires forall m :: i < m < k ==> PassOf(steps[m]) != Some(pass)
    ensures pass in trace[k].passes ==> trace[k].passes[pass].condemned == Some(name)
  {
    assert Enabled(trace[k - 1], steps[k - 1]) && trace[k - 1 + 1] == Next(trace[k - 1], steps[k - 1]);
    if k > i + 1 {
      StaysCondemned(trace, steps, i, k - 1, pass, name);
      hide Enabled, Next, Due;
      CondemnedStep(trace[k - 1], steps[k - 1], pass, name);
    }
  }

  /** A pass that inspects a file that is due and goes on to its removal removes it,
      whatever else runs in between. */
  lemma InspectedGoes(trace: seq<State>, steps: seq<Step>, i: nat, j: nat, pass: nat, name: Name)
    requires Execution(trace, steps) && i < j < |steps|
    requires steps[i] == Inspect(pass, name) && steps[j] == Remove(pass)
    requires forall m :: i < m < j ==> PassOf(steps[m]) != Some(pass)
    requires Enabled(trace[i], steps[i]) && name in trace[i].dir
    requires Due(name, trace[i].dir[name], trace[i].passes[pass].now, trace[i].passes[pass].maxAge)
    ensures name !in trace[j + 1].dir
  {
    StaysCondemned(trace, steps, i, j, pass, name);
    assert Enabled(trace[j], steps[j]) && trace[j + 1] == Next(trace[j], steps[j]);
  }

  /** A pass begins at step b and is neither ended nor crashed before step e. */
  ghost predicate OnePass(trace: seq<State>, steps: seq<Step>, b: nat, e: nat, pass: nat) {
    && Execution(trace, steps) && b < e < |trace|
    && steps[b].BeginPass? && steps[b].pass == pass
    && forall k :: b < k < e ==> !steps[k].Crash? && steps[k] != EndPass(pass)
  }

  /** The pass still has to look at the file, or has decided to remove it. */
  predicate Pending(s: State, pass: nat, name: Name, now: int, maxAge: int) {
    && pass in s.passes && s.passes[pass].now == now && s.passes[pass].maxAge == maxAge
    && (name in s.passes[pass].listed || s.passes[pass].condemned == Some(name))
  }

  lemma PendingStep(s: State, step: Step, pass: nat, name: Name, now: int, maxAge: int)
    requires Enabled(s, step) && !step.Crash? && step != EndPass(pass)
    requires Pending(s, pass, name, now, maxAge) && name in s.dir && Due(name, s.dir[name], now, maxAge)
    ensures Pending(Next(s, step), pass, name, now, maxAge) || name !in Next(s, step).dir
  {
  }

  /** A record that is due stays so, and so does a temporary file no save touches. */
  lemma DueStep(s: State, step: Step, name: Name, now: int, maxAge: int)
    requires Inv(s) && Enabled(s, step) && name in s.dir && Due(name, s.dir[name], now, maxAge)
    requires name.Temp? ==> !Touches(step, name.id)
    ensures name in Next(s, step).dir ==> Due(name, Next(s, step).dir[name], now, maxAge)
  {
    if name.Final? {
      assert Record(s, name.id, s.dir[name]);
    }
  }

  predicate Touches(step: Step, id: nat) {
    (step.BeginSave? && step.snap.id == id) || (step.FinishWrite? && step.id == id)
  }

  /** The file was gone at some moment after b and by k. */
  ghost predicate GoneBy(trace: seq<State>, b: nat, k: nat, name: Name) {
    exists m :: b < m <= k && m < |trace| && name !in trace[m].dir
  }

  /** The pass begins with the file on its list. */
  lemma ListedAtFirst(s: State, step: Step, name: Name)
    requires Enabled(s, step) && step.BeginPass? && name in s.dir && Due(name, s.dir[name], step.now, step.maxAge)
    ensures var t := Next(s, step);
            name in t.dir && Due(name, t.dir[name], step.now, step.maxAge) && Pending(t, step.pass, name, step.now, step.maxAge)
  {
  }

  lemma GoneNow(trace: seq<State>, b: nat, k: nat, name: Name)
    requires b < k < |trace|
    ensures name !in trace[k].dir || GoneBy(trace, b, k - 1, name) ==> GoneBy(trace, b, k, name)
  {
  }

  lemma {:induction false} PendingOrGone(trace: seq<State>, steps: seq<Step>, b: nat, e: nat, pass: nat, name: Name, k: nat)
    requires OnePass(trace, steps, b, e, pass) && b < k <= e && name in trace[b].dir
    requires Due(name, trace[b].dir[name], steps[b].now, steps[b].maxAge)
    requires name.Temp? ==> forall m :: b < m < e ==> !Touches(steps[m], name.id)
    ensures GoneBy(trace, b, k, name)
            || (name in trace[k].dir && Due(name, trace[k].dir[name], steps[b].now, steps[b].maxAge)
                && Pending(trace[k], pass, name, steps[b].now, steps[b].maxAge))
  {
    var s, step := trace[k - 1], steps[k - 1];
    assert Enabled(s, step) && trace[k - 1 + 1] == Next(s, step);
    hide Enabled, Next, Due, Pending, Inv, GoneBy;
    GoneNow(trace, b, k, name);
    if k == b + 1 {
      ListedAtFirst(s, step, name);
    } else {
      PendingOrGone(trace, steps, b, e, pass, name, k - 1);
      if !GoneBy(trace, b, k - 1, name) {
        InvHolds(trace, steps, k - 1);
        DueStep(s, step, name, steps[b].now, steps[b].maxAge);
        PendingStep(s, step, pass, name, steps[b].now, steps[b].maxAge);
      }
    }
  }

  /** A pass that runs through its list leaves no file behind that was due when it began:
      each has been gone at some moment by then, however many saves and other passes ran
      beside it. A temporary file counts unless a save takes it up again. */
  lemma SweepTakesDue(trace: seq<State>, steps: seq<Step>, b: nat, e: nat, pass: nat, name: Name)
    requires OnePass(trace, steps, b, e, pass) && name in trace[b].dir
    requires Due(name, trace[b].dir[name], steps[b].now, steps[b].maxAge)
    requires name.Temp? ==> forall m :: b < m < e ==> !Touches(steps[m], name.id)
    requires pass in trace[e].passes && trace[e].passes[pass].listed == {} && trace[e].passes[pass].condemned.None?
    ensures GoneBy(trace, b, e, name)
  {
    PendingOrGone(trace, steps, b, e, pass, name, e);
  }

  /** What a pass still has to do. */
  function Work(p: Pass): nat { 2 * |p.listed| + if p.condemned.Some? then 1 else 0 }

  predicate IsWork(step: Step, pass: nat) { step == Remove(pass) || (step.Inspect? && step.pass == pass) }

  /** A pass with work left can go on, each of its own steps leaves it with less, and
      nothing but its end or a crash takes it away or gives it more. */
  lemma PassGoesOn(trace: seq<State>, steps: seq<Step>, i: nat, pass: nat)
    requires Execution(trace, steps) && i < |steps| && pass in trace[i].passes
    ensures var p := trace[i].passes[pass]; Work(p) > 0 ==> exists step :: IsWork(step, pass) && Enabled(trace[i], step)
    ensures var s, t := trace[i], trace[i + 1];
            if steps[i] == EndPass(pass) || steps[i].Crash? then pass !in t.passes
            else
              && pass in t.passes
              && if IsWork(steps[i], pass) then Work(t.passes[pass]) < Work(s.passes[pass]) else t.passes[pass] == s.passes[pass]
  {
    var s, p := trace[i], trace[i].passes[pass];
    assert Enabled(s, steps[i]) && trace[i + 1] == Next(s, steps[i]);
    if p.condemned.Some? {
      assert IsWork(Remove(pass), pass) && Enabled(s, Remove(pass));
    } else if p.listed != {} {
      var name :| name in p.listed;
      assert IsWork(Inspect(pass, name), pass) && Enabled(s, Inspect(pass, name));
    }
    if steps[i].Inspect? && steps[i].pass == pass {
      OneLess(p.listed, steps[i].name);
    }
  }

  lemma OneLess(names: set<Name>, name: Name)
    requires name in names
    ensures |names - {name}| == |names| - 1
  {
  }

  // --- what becomes of one save ------------------------------------------------------

  /** One save of pipeline id runs from its begin at step i to its rename at step j;
      anything else may happen in between. */
  ghost predicate OneSave(trace: seq<State>, steps: seq<Step>, i: nat, j: nat, id: nat) {
    && Execution(trace, steps) && i < j < |steps|
    && steps[i].BeginSave? && steps[i].snap.id == id && steps[j] == Rename(id)
    && forall k :: i < k < j ==> !steps[k].Crash? && steps[k] != Rename(id) && !(steps[k].AbortSave? && steps[k].id == id)
  }

  /** Some pass that condemned the temporary file of id removes it after step i and
      before step j. */
  ghost predicate Reaped(trace: seq<State>, steps: seq<Step>, i: nat, j: nat, id: nat)
    requires Execution(trace, steps) && j <= |steps|
  {
    exists k :: i < k < j && Reaps(trace[k], steps[k], id)
  }

  predicate Reaps(s: State, step: Step, id: nat) {
    step.Remove? && step.pass in s.passes && s.passes[step.pass].condemned == Some(Temp(id))
  }

  /** How a save of snap stands while it is under way. */
  predicate UnderWay(s: State, snap: Snapshot, reaped: bool) {
    var id := snap.id;
    && id in s.saves && s.saves[id].snap == snap
    && (Temp(id) in s.dir <==> !reaped)
    && (s.saves[id].Written? && !reaped ==> s.dir[Temp(id)].content == Whole(snap))
  }

  /** Any step of any other save or pass leaves it standing, unless it reaps. */
  lemma UnderWayStep(s: State, step: Step, snap: Snapshot, reaped: bool)
    requires UnderWay(s, snap, reaped) && Enabled(s, step)
    requires !step.Crash? && step != Rename(snap.id) && !(step.AbortSave? && step.id == snap.id)
    ensures UnderWay(Next(s, step), snap, reaped || Reaps(s, step, snap.id))
  {
  }

  lemma SaveBegun(s: State, snap: Snapshot, time: int)
    requires Enabled(s, BeginSave(snap, time))
    ensures UnderWay(Next(s, BeginSave(snap, time)), snap, false)
  {
  }

  lemma ReapedMore(trace: seq<State>, steps: seq<Step>, i: nat, k: nat, id: nat)
    requires Execution(trace, steps) && i < k < |steps|
    ensures Reaped(trace, steps, i, k + 1, id) <==> Reaped(trace, steps, i, k, id) || Reaps(trace[k], steps[k], id)
  {
    hide Reaps;
    if m :| i < m < k && Reaps(trace[m], steps[m], id) {
      assert Reaped(trace, steps, i, k + 1, id);
    }
  }

  lemma {:induction false} SaveUnderWay(trace: seq<State>, steps: seq<Step>, i: nat, j: nat, id: nat, k: nat)
    requires OneSave(trace, steps, i, j, id) && i < k <= j
    ensures UnderWay(trace[k], steps[i].snap, Reaped(trace, steps, i, k, id))
  {
    assert Enabled(trace[k - 1], steps[k - 1]) && trace[k - 1 + 1] == Next(trace[k - 1], steps[k - 1]);
    hide Enabled, Next, UnderWay, Reaps;
    if k == i + 1 {
      SaveBegun(trace[i], steps[i].snap, steps[i].time);
    } else {
      SaveUnderWay(trace, steps, i, j, id, k - 1);
      UnderWayStep(trace[k - 1], steps[k - 1], steps[i].snap, Reaped(trace, steps, i, k - 1, id));
      ReapedMore(trace, steps, i, k - 1, id);
    }
  }

  /** Whatever other saves and passes do meanwhile, a save becomes the record exactly
      when no pass reaps its temporary file on the way; if one does, the rename finds
      no file and the directory stays as it was. */
  lemma SaveLands(trace: seq<State>, steps: seq<Step>, i: nat, j: nat, id: nat)
    requires OneSave(trace, steps, i, j, id)
    ensures var before, after := trace[j].dir, trace[j + 1].dir;
            if Reaped(trace, steps, i, j, id) then Temp(id) !in before && after == before
            else
              && Temp(id) in before && Temp(id) !in after
              && Final(id) in after && after[Final(id)].content == Whole(steps[i].snap)
  {
    SaveUnderWay(trace, steps, i, j, id, j);
    assert Enabled(trace[j], steps[j]) && trace[j + 1] == Next(trace[j], steps[j]);
  }

  // --- when age is guard enough --------------------------------------------------------

  /** No pass has condemned the temporary file of id. */
  ghost predicate Uncondemned(s: State, id: nat) {
    forall pass :: pass in s.passes ==> s.passes[pass].condemned != Some(Temp(id))
  }

  /** Between i and j no pass looks at the temporary file of id later than its maximal
      age after the save began, and the clock does not fall behind that moment. */
  ghost predicate InTime(trace: seq<State>, steps: seq<Step>, i: nat, j: nat, id: nat)
    requires OneSave(trace, steps, i, j, id)
  {
    var begun := steps[i].time;
    forall k :: i < k < j ==>
      && (steps[k].FinishWrite? && steps[k].id == id ==> begun <= steps[k].time)
      && (steps[k].Inspect? && steps[k].name == Temp(id) ==>
          steps[k].pass in trace[k].passes && trace[k].passes[steps[k].pass].now < begun + TMP_MAX_AGE)
  }

  /** The temporary file is no older than the save. */
  predicate YoungAt(s: State, id: nat, begun: int) { Temp(id) in s.dir ==> begun <= s.dir[Temp(id)].mtime }

  lemma YoungStep(s: State, step: Step, id: nat, begun: int)
    requires Enabled(s, step) && Uncondemned(s, id) && YoungAt(s, id, begun) && id in s.saves
    requires step != Rename(id)
    requires step.FinishWrite? && step.id == id ==> begun <= step.time
    requires step.Inspect? && step.name == Temp(id) ==> s.passes[step.pass].now < begun + TMP_MAX_AGE
    ensures Uncondemned(Next(s, step), id) && YoungAt(Next(s, step), id, begun) && !Reaps(s, step, id)
  {
  }

  lemma {:induction false} StaysYoung(trace: seq<State>, steps: seq<Step>, i: nat, j: nat, id: nat, k: nat)
    requires OneSave(trace, steps, i, j, id) && InTime(trace, steps, i, j, id)
    requires Uncondemned(trace[i], id) && i < k <= j
    ensures Uncondemned(trace[k], id) && YoungAt(trace[k], id, steps[i].time) && !Reaped(trace, steps, i, k, id)
  {
    assert Enabled(trace[k - 1], steps[k - 1]) && trace[k - 1 + 1] == Next(trace[k - 1], steps[k - 1]);
    if k > i + 1 {
      StaysYoung(trace, steps, i, j, id, k - 1);
      SaveUnderWay(trace, steps, i, j, id, k - 1);
      YoungStep(trace[k - 1], steps[k - 1], id, steps[i].time);
      hide Enabled, Next, Uncondemned, YoungAt, OneSave;
      assert forall m :: i < m < k - 1 ==> !Reaps(trace[m], steps[m], id);
    }
  }

  /** A save lands, whatever else runs, when no pass had condemned its temporary file
      before it began and none looks at it once it is old. */
  lemma TimelySaveLands(trace: seq<State>, steps: seq<Step>, i: nat, j: nat, id: nat)
    requires OneSave(trace, steps, i, j, id) && InTime(trace, steps, i, j, id) && Uncondemned(trace[i], id)
    ensures Final(id) in trace[j + 1].dir && trace[j + 1].dir[Final(id)].content == Whole(steps[i].snap)
    ensures Temp(id) !in trace[j + 1].dir
  {
    StaysYoung(trace, steps, i, j, id, j);
    SaveLands(trace, steps, i, j, id);
  }

  // --- a save that is lost -------------------------------------------------------------

  const SNAP := Snapshot(0, Running, 0)

  const LOSS := [
    BeginSave(SNAP, 0), AbortSave(0, false), BeginPass(0, TMP_MAX_AGE, 0), Inspect(0, Temp(0)),
    BeginSave(SNAP, TMP_MAX_AGE), Remove(0), FinishWrite(0, TMP_MAX_AGE), Rename(0)]

  /** The directory, the save in progress and the pass after k steps of LOSS. */
  function LossState(k: nat): State {
    var early, late := map[Temp(0) := File(Torn, 0)], map[Temp(0) := File(Torn, TMP_MAX_AGE)];
    var dir := if k == 0 || k > 5 then map[] else if k < 5 then early else late;
    var saves := if k == 1 || k == 5 || k == 6 then map[0 := Opened(SNAP)] else if k == 7 then map[0 := Written(SNAP)] else map[];
    var passes :=
      if k < 3 then map[]
      else map[0 := Pass(TMP_MAX_AGE, 0, if k == 3 then {Temp(0)} else {}, if k == 4 || k == 5 then Some(Temp(0)) else None)];
    State(dir, saves, passes, {}, if k == 0 then {} else {SNAP}, if k == 0 then map[] else map[0 := 0])
  }

  lemma LossStart(k: nat)
    requires k < 4
    ensures Enabled(LossState(k), LOSS[k]) && LossState(k + 1) == Next(LossState(k), LOSS[k])
  {
    var s, t := LossState(k), Next(LossState(k), LOSS[k]);
    if k == 2 {
      assert s.dir.Keys == {Temp(0)};
    } else if k == 3 {
      assert Condemns(s.passes[0], Temp(0), s.dir[Temp(0)]) && {Temp(0)} - {Temp(0)} == {};
    }
    assert t.dir == LossState(k + 1).dir && t.saves == LossState(k + 1).saves && t.passes == LossState(k + 1).passes;
  }

  lemma LossEnd(k: nat)
    requires 4 <= k < 8
    ensures Enabled(LossState(k), LOSS[k]) && LossState(k + 1) == Next(LossState(k), LOSS[k])
  {
    var t := Next(LossState(k), LOSS[k]);
    assert t.dir == LossState(k + 1).dir && t.saves == LossState(k + 1).saves && t.passes == LossState(k + 1).passes;
  }

  /** A pass beside a save can lose it: the temporary file of an earlier failed write
      is condemned for its age, and removed once a new save has begun to refill it. */
  lemma SaveCanBeLost() returns (trace: seq<State>)
    ensures OneSave(trace, LOSS, 4, 7, 0) && Reaped(trace, LOSS, 4, 7, 0) && trace[8].dir == map[]
  {
    trace := seq(9, k requires 0 <= k < 9 => LossState(k));
    forall k | 0 <= k < 8 ensures Enabled(trace[k], LOSS[k]) && trace[k + 1] == Next(trace[k], LOSS[k]) {
      if k < 4 {
        LossStart(k);
      } else {
        LossEnd(k);
      }
    }
    assert Reaps(trace[5], LOSS[5], 0);
  }
}
