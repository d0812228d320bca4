/** Starting and stopping the background pruning goroutine from many goroutines. */
module PruneLoop {
  import opened Basics

  /** Where a caller stands inside StartPruning or StopPruning. */
  datatype Pc =
    | Outside | WantStart | WantStop
    | StartCheck | StartAdd(c: nat) | StartSpawn(c: nat)
    | StopCheck | StopClear(c: nat) | StopWait(c: nat) | StopDone
    | Unlocking

  /** stop is the channel the mutex guards; alive holds the channel of each live
      goroutine; count is the wait group. */
  datatype State = State(
    mutex: Option<nat>, stop: Option<nat>, closed: set<nat>, count: int, alive: set<nat>, made: nat, pcs: map<nat, Pc>)

  datatype Step = CallStart(t: nat) | CallStop(t: nat) | Caller(t: nat) | Exits(c: nat)

  function PcOf(s: State, t: nat): Pc { if t in s.pcs then s.pcs[t] else Outside }

  predicate Enabled(s: State, step: Step) {
    match step
    case CallStart(t) => PcOf(s, t).Outside?
    case CallStop(t) => PcOf(s, t).Outside?
    case Exits(c) => c in s.alive && c in s.closed
    case Caller(t) =>
      match PcOf(s, t)
      case Outside => false
      case WantStart => s.mutex.None?
      case WantStop => s.mutex.None?
      case StopWait(_) => s.count == 0
      case _ => true
  }

  function Goto(s: State, t: nat, pc: Pc): State { s.(pcs := s.pcs[t := pc]) }

  function Next(s: State, step: Step): State {
    match step
    case CallStart(t) => Goto(s, t, WantStart)
    case CallStop(t) => Goto(s, t, WantStop)
    case Exits(c) => s.(alive := s.alive - {c}, count := s.count - 1)
    case Caller(t) =>
      match PcOf(s, t)
      case Outside => s
      case WantStart => Goto(s.(mutex := Some(t)), t, StartCheck)
      case WantStop => Goto(s.(mutex := Some(t)), t, StopCheck)
      case StartCheck =>
        if s.stop.Some? then Goto(s, t, Unlocking)
        else Goto(s.(stop := Some(s.made), made := s.made + 1), t, StartAdd(s.made))
      case StartAdd(c) => Goto(s.(count := s.count + 1), t, StartSpawn(c))
      case StartSpawn(c) => Goto(s.(alive := s.alive + {c}), t, Unlocking)
      case StopCheck =>
        if s.stop.None? then Goto(s, t, StopDone)
        else Goto(s.(closed := s.closed + {s.stop.value}), t, StopClear(s.stop.value))
      case StopClear(c) => Goto(s.(stop := None), t, StopWait(c))
      case StopWait(_) => Goto(s, t, StopDone)
      case StopDone => Goto(s.(mutex := None), t, Outside)
      case Unlocking => Goto(s.(mutex := None), t, Outside)
  }

  predicate Init(s: State) {
    s.mutex.None? && s.stop.None? && s.count == 0 && s.alive == {} && s.closed == {} && s.pcs == map[]
  }

  predicate Critical(pc: Pc) { !pc.Outside? && !pc.WantStart? && !pc.WantStop? }

  ghost predicate OneHolder(s: State) {
    forall t: nat :: Critical(PcOf(s, t)) <==> s.mutex == Some(t)
  }

  /** Nothing is running and nothing is being waited for. */
  predicate Quiet(s: State) { s.count == 0 && s.alive == {} }

  /** Exactly the goroutine of the held channel is running. */
  predicate Busy(s: State) {
    s.stop.Some? && s.alive == {s.stop.value} && s.count == 1 && s.stop.value !in s.closed
  }

  predicate Settled(s: State) { if s.stop.Some? then Busy(s) else Quiet(s) }

  /** What holds at the point pc inside the critical section. */
  predicate InsideOk(s: State, pc: Pc) {
    match pc
    case StartAdd(c) => s.stop == Some(c) && Quiet(s) && c !in s.closed
    case StartSpawn(c) => s.stop == Some(c) && s.count == 1 && s.alive == {} && c !in s.closed
    case StopClear(c) => s.stop == Some(c) && c in s.closed && (Quiet(s) || (s.alive == {c} && s.count == 1))
    case StopWait(c) => s.stop.None? && c in s.closed && (Quiet(s) || (s.alive == {c} && s.count == 1))
    case StopDone => s.stop.None? && Quiet(s)
    case Unlocking => Busy(s)
    case _ => Settled(s)
  }

  ghost predicate Inv(s: State) {
    && OneHolder(s)
    && Rest(s)
  }

  lemma HolderKept(s: State, step: Step)
    requires OneHolder(s) && Enabled(s, step)
    ensures OneHolder(Next(s, step))
  {
    var n := Next(s, step);
    if step.Exits? {
      assert forall t: nat :: PcOf(n, t) == PcOf(s, t);
    } else {
      forall t: nat | t != step.t ensures PcOf(n, t) == PcOf(s, t) {
      }
      assert Critical(PcOf(s, step.t)) <==> s.mutex == Some(step.t);
    }
  }

  ghost predicate Rest(s: State) {
    && (if s.mutex.None? then Settled(s) else InsideOk(s, PcOf(s, s.mutex.value)))
    && (forall c: nat :: c in s.closed || c in s.alive ==> c < s.made)
    && (s.stop.Some? ==> s.stop.value < s.made)
  }

  lemma ExitKeeps(s: State, c: nat)
    requires Rest(s) && Enabled(s, Exits(c))
    ensures Rest(Next(s, Exits(c)))
  {
    var n := Next(s, Exits(c));
    assert n.mutex.Some? ==> PcOf(n, n.mutex.value) == PcOf(s, s.mutex.value);
  }

  lemma CallerKeeps(s: State, t: nat)
    requires Rest(s) && Enabled(s, Caller(t)) && (Critical(PcOf(s, t)) <==> s.mutex == Some(t))
    ensures Rest(Next(s, Caller(t)))
  {
    var n := Next(s, Caller(t));
    assert n.mutex.Some? ==> n.mutex.value == t;
    match PcOf(s, t)
    case StopWait(c) =>
    case _ =>
  }

  lemma StepKeeps(s: State, step: Step)
    requires Inv(s) && Enabled(s, step)
    ensures Inv(Next(s, step))
  {
    HolderKept(s, step);
    match step
    case Exits(c) => ExitKeeps(s, c);
    case Caller(t) =>
      assert Critical(PcOf(s, t)) <==> s.mutex == Some(t);
      CallerKeeps(s, t);
    case _ =>
      assert Critical(PcOf(s, step.t)) <==> s.mutex == Some(step.t);
  }

  ghost predicate Execution(trace: seq<State>, steps: seq<Step>) {
    && |trace| == |steps| + 1 && Init(trace[0])
    && forall i :: 0 <= i < |steps| ==> Enabled(trace[i], steps[i]) && trace[i + 1] == Next(trace[i], steps[i])
  }

  lemma {:induction false} InvHolds(trace: seq<State>, steps: seq<Step>, i: nat)
    requires Execution(trace, steps) && i < |trace|
    ensures Inv(trace[i])
  {
    if i > 0 {
      InvHolds(trace, steps, i - 1);
      StepKeeps(trace[i - 1], steps[i - 1]);
      assert trace[i - 1 + 1] == trace[i];
    }
  }

  /** In every interleaving at most one goroutine is alive and the wait count is
      never negative; outside critical sections it is one exactly while a stop
      channel is held. */
  lemma AtMostOne(trace: seq<State>, steps: seq<Step>, i: nat)
    requires Execution(trace, steps) && i < |trace|
    ensures |trace[i].alive| <= 1 && 0 <= trace[i].count <= 1
    ensures trace[i].mutex.None? ==> (trace[i].count == 1 <==> trace[i].stop.Some?)
  {
    InvHolds(trace, steps, i);
  }

  /** StopPruning returns only when no goroutine remains. No channel is closed twice
      and no Add meets a Wait. */
  lemma StopIsClean(trace: seq<State>, steps: seq<Step>, i: nat, t: nat)
    requires Execution(trace, steps) && i < |trace|
    ensures PcOf(trace[i], t).StopDone? ==> trace[i].alive == {} && trace[i].count == 0
    ensures PcOf(trace[i], t).StopCheck? && trace[i].stop.Some? ==> trace[i].stop.value !in trace[i].closed
    ensures PcOf(trace[i], t).StartAdd? ==> forall u: nat :: !PcOf(trace[i], u).StopWait?
  {
    InvHolds(trace, steps, i);
    assert Critical(PcOf(trace[i], t)) ==> trace[i].mutex == Some(t);
    assert forall u: nat :: PcOf(trace[i], u).StopWait? ==> Critical(PcOf(trace[i], u));
  }

  /** StartPruning returns only with one goroutine running that nothing has told to exit;
      one that is running already is left alone, and so is its channel. */
  lemma StartRuns(trace: seq<State>, steps: seq<Step>, i: nat, t: nat)
    requires Execution(trace, steps) && i < |steps|
    ensures var s := trace[i];
            PcOf(s, t).Unlocking? ==> s.stop.Some? && s.alive == {s.stop.value} && s.count == 1 && s.stop.value !in s.closed
    ensures var s, n := trace[i], trace[i + 1];
            PcOf(s, t).StartCheck? && s.alive != {} && steps[i] == Caller(t) ==> n == s.(pcs := s.pcs[t := Unlocking])
  {
    InvHolds(trace, steps, i);
    assert Critical(PcOf(trace[i], t)) ==> trace[i].mutex == Some(t);
    assert trace[i + 1] == Next(trace[i], steps[i]);
  }

  /** A goroutine ends only after its own channel is closed, and only a StopPruning that
      holds the mutex closes it. */
  lemma RunsUntilStopped(trace: seq<State>, steps: seq<Step>, i: nat, c: nat)
    requires Execution(trace, steps) && i < |steps|
    ensures c in trace[i].alive && c !in trace[i + 1].alive ==> c in trace[i].closed
    ensures c !in trace[i].closed && c in trace[i + 1].closed ==>
              && steps[i].Caller? && trace[i].mutex == Some(steps[i].t)
              && PcOf(trace[i], steps[i].t).StopCheck? && trace[i].stop == Some(c)
  {
    InvHolds(trace, steps, i);
    assert Enabled(trace[i], steps[i]) && trace[i + 1] == Next(trace[i], steps[i]);
    assert steps[i].Caller? ==> (Critical(PcOf(trace[i], steps[i].t)) <==> trace[i].mutex == Some(steps[i].t));
  }

  /** No deadlock: while the mutex is held, its holder can go on, or waits for a
      goroutine that has been told to exit and can. */
  lemma NeverStuck(trace: seq<State>, steps: seq<Step>, i: nat)
    requires Execution(trace, steps) && i < |trace| && trace[i].mutex.Some?
    ensures Enabled(trace[i], Caller(trace[i].mutex.value)) || exists c: nat :: Enabled(trace[i], Exits(c))
  {
    InvHolds(trace, steps, i);
    var s := trace[i];
    var pc := PcOf(s, s.mutex.value);
    assert Critical(pc) && InsideOk(s, pc);
    if pc.StopWait? && s.count != 0 {
      assert Enabled(s, Exits(pc.c));
    }
  }

  /** No fewer than the turns a holder at pc still needs; closing a channel also pays
      for the goroutine that is then waited for. */
  function Turns(pc: Pc): nat {
    match pc
    case StopCheck => 6
    case StopClear(_) => 4
    case StopWait(_) => 3
    case StartCheck => 4
    case StartAdd(_) => 3
    case StartSpawn(_) => 2
    case _ => 1
  }

  /** How far the holder of the mutex is from giving it back, counting a goroutine it
      waits for. */
  function Left(s: State): nat
    requires s.mutex.Some?
  {
    Turns(PcOf(s, s.mutex.value)) + |s.alive * s.closed|
  }

  lemma ExitIsProgress(s: State, c: nat)
    requires Inv(s) && s.mutex.Some? && Enabled(s, Exits(c))
    ensures Left(Next(s, Exits(c))) < Left(s)
  {
    var n := Next(s, Exits(c));
    assert n.alive * n.closed == s.alive * s.closed - {c};
    assert c in s.alive * s.closed;
  }

  lemma CloseIsProgress(s: State, t: nat)
    requires s.mutex == Some(t) && PcOf(s, t).StopCheck? && Settled(s)
    ensures Left(Next(s, Caller(t))) < Left(s)
  {
    var n := Next(s, Caller(t));
    if s.stop.Some? {
      assert s.alive * s.closed == {} && n.alive * n.closed <= {s.stop.value};
      OneAtMost(n.alive * n.closed, s.stop.value);
    } else {
      assert n.alive * n.closed == {};
    }
  }

  lemma SpawnIsProgress(s: State, t: nat)
    requires s.mutex == Some(t) && PcOf(s, t).StartSpawn? && InsideOk(s, PcOf(s, t))
    ensures Left(Next(s, Caller(t))) < Left(s)
  {
    assert Next(s, Caller(t)).alive * s.closed == {} == s.alive * s.closed;
  }

  lemma HolderIsProgress(s: State, t: nat)
    requires Inv(s) && s.mutex == Some(t) && Enabled(s, Caller(t))
    ensures var n := Next(s, Caller(t)); n.mutex.None? || (n.mutex == Some(t) && Left(n) < Left(s))
  {
    var pc := PcOf(s, t);
    assert Critical(pc) && InsideOk(s, pc);
    hide Inv, Settled;
    if pc.StopCheck? {
      CloseIsProgress(s, t);
    } else if pc.StartSpawn? {
      SpawnIsProgress(s, t);
    } else {
      hide InsideOk;
      assert Next(s, Caller(t)).alive == s.alive && Next(s, Caller(t)).closed == s.closed;
    }
  }

  lemma OneAtMost(s: set<nat>, x: nat)
    requires s <= {x}
    ensures |s| <= 1
  {
    assert s == {} || s == {x};
  }

  /** In every reachable state with the mutex held, each step of the holder or of a
      goroutine brings its release nearer, and no other step puts it off. With
      NeverStuck, every StopPruning and StartPruning that got the mutex returns. */
  lemma HeldIsReleased(trace: seq<State>, steps: seq<Step>, i: nat)
    requires Execution(trace, steps) && i < |steps| && trace[i].mutex.Some?
    ensures var s, n := trace[i], trace[i + 1];
            if steps[i].CallStart? || steps[i].CallStop? then n.mutex == s.mutex && Left(n) == Left(s)
            else n.mutex.None? || (n.mutex == s.mutex && Left(n) < Left(s))
  {
    InvHolds(trace, steps, i);
    var s := trace[i];
    assert Enabled(s, steps[i]) && trace[i + 1] == Next(s, steps[i]);
    match steps[i]
    case Exits(c) => ExitIsProgress(s, c);
    case Caller(t) =>
      assert Critical(PcOf(s, t)) <==> s.mutex == Some(t);
      HolderIsProgress(s, t);
    case _ =>
      assert Critical(PcOf(s, s.mutex.value));
  }
}
