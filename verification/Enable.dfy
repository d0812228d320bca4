/** Turning beadle on and off in a repository: ordered steps over the marker, the
    CLAUDE.md import and the allow rules, any of which may fail or be the last. */
module Enable {
  import opened Basics
  import opened JsonTokens
  import opened Settings
  import P = Permissions
  import opened Lines
  import opened Imports
  import H = HostFile

  const IMPORT := "@.punt-labs/beadle/CLAUDE.md"

  datatype Repo = Repo(guide: bool, marker: bool, host: H.Host, disk: P.Disk)

  /** Where a run stands; added is what its grant reported. */
  datatype Pc =
    | Idle
    | Preflight | DepositGuide | RegisterImport | GrantRules | WriteMarker(added: seq<string>) | UndoGrant(added: seq<string>)
    | RevokeRules(purge: bool) | ClearMarker(purge: bool) | PruneImport

  /** How one step turns out. ok: a plain write or removal succeeds. markerLeft:
      whether the marker exists after one that fails half way. */
  datatype Choice = Choice(ok: bool, markerLeft: bool, fault: H.Fault, faults: P.Faults)

  datatype Sys = Sys(repo: Repo, pc: Pc)

  /** One step of the run in progress; a failed step ends the run. */
  function Advance(s: Sys, c: Choice): Sys {
    var repo := s.repo;
    match s.pc
    case Idle => s
    case Preflight => Sys(repo, if P.Preflight(repo.disk) then DepositGuide else Idle)
    case DepositGuide => Sys(repo.(guide := repo.guide || c.ok), if c.ok then RegisterImport else Idle)
    case RegisterImport =>
      Sys(repo.(host := H.After(repo.host, H.Op(H.Registering, IMPORT, c.fault))), if c.fault.NotWritten? then Idle else GrantRules)
    case GrantRules =>
      var (d, answer) := P.Grant(RULES, repo.disk, c.faults);
      Sys(repo.(disk := d), if answer.Changed? then WriteMarker(answer.rules) else Idle)
    case WriteMarker(added) =>
      if c.ok then Sys(repo.(marker := true), Idle)
      else Sys(repo.(marker := repo.marker || c.markerLeft), if added == [] then Idle else UndoGrant(added))
    case UndoGrant(added) => Sys(repo.(disk := P.Withdraw(RULES, repo.disk, Some(added), c.faults).0), Idle)
    case RevokeRules(purge) =>
      var (d, answer) := P.Withdraw(RULES, repo.disk, None, c.faults);
      Sys(repo.(disk := d), if answer.Changed? then ClearMarker(purge) else Idle)
    case ClearMarker(purge) =>
      if c.ok then Sys(repo.(marker := false, guide := repo.guide && !purge), PruneImport)
      else Sys(repo.(marker := repo.marker && (purge ==> c.markerLeft)), Idle)
    case PruneImport => Sys(repo.(host := H.After(repo.host, H.Op(H.Discarding, IMPORT, c.fault))), Idle)
  }

  /** Runs exclude one another; other tools edit CLAUDE.md at any moment. */
  datatype Step = StartEnable | StartDisable(purge: bool) | Go(choice: Choice) | Crash | OtherTool(op: H.Op)

  predicate Enabled(s: Sys, step: Step) {
    match step
    case StartEnable => s.pc.Idle?
    case StartDisable(_) => s.pc.Idle?
    case OtherTool(op) => op.line != IMPORT
    case _ => true
  }

  function Next(s: Sys, step: Step): Sys {
    match step
    case StartEnable => Sys(s.repo, Preflight)
    case StartDisable(purge) => Sys(s.repo, RevokeRules(purge))
    case Go(c) => Advance(s, c)
    case Crash => Sys(s.repo, Idle)
    case OtherTool(op) => Sys(s.repo.(host := H.After(s.repo.host, op)), s.pc)
  }

  /** trace is the sequence of states an execution goes through. */
  ghost predicate Execution(trace: seq<Sys>, steps: seq<Step>) {
    && |trace| == |steps| + 1
    && forall i :: 0 <= i < |steps| ==> Enabled(trace[i], steps[i]) && trace[i + 1] == Next(trace[i], steps[i])
  }

  predicate Imported(repo: Repo) { IMPORT in ImportsOf(H.TextOf(repo.host)) }

  predicate MarkerMeansImport(repo: Repo) { repo.marker ==> Imported(repo) }

  predicate Ordered(s: Sys) {
    && MarkerMeansImport(s.repo)
    && (s.pc.GrantRules? || s.pc.WriteMarker? || s.pc.UndoGrant? ==> Imported(s.repo))
    && (s.pc.PruneImport? ==> !s.repo.marker)
  }

  lemma ImportIsValid()
    ensures ValidImport(IMPORT)
  {
  }

  lemma StepOrdered(s: Sys, step: Step)
    requires Ordered(s) && Enabled(s, step)
    ensures Ordered(Next(s, step))
  {
    hide ValidImport, ImportsOf, H.After, P.Grant, P.Withdraw, P.Preflight;
    ImportIsValid();
    match step
    case OtherTool(op) =>
      H.StepRefines(s.repo.host, op);
      WithoutGone(ImportsOf(H.TextOf(s.repo.host)), op.line);
    case Go(c) =>
      if s.pc.RegisterImport? {
        H.StepRefines(s.repo.host, H.Op(H.Registering, IMPORT, c.fault));
      }
    case _ =>
  }

  /** In every reachable state of every execution, whatever fails or crashes and
      whatever other tools do in between, a marker stands only beside its import. */
  lemma {:induction false} MarkerImpliesImport(trace: seq<Sys>, steps: seq<Step>, i: nat)
    requires Execution(trace, steps) && i < |trace|
    requires trace[0].pc.Idle? && MarkerMeansImport(trace[0].repo)
    ensures Ordered(trace[i])
  {
    if i > 0 {
      MarkerImpliesImport(trace, steps, i - 1);
      StepOrdered(trace[i - 1], steps[i - 1]);
      assert trace[i - 1 + 1] == trace[i];
    }
  }

  // --- the allow rules ---------------------------------------------------------

  predicate Disabling(pc: Pc) { pc.RevokeRules? || pc.ClearMarker? || pc.PruneImport? }

  predicate BeforeGrant(pc: Pc) { pc.Preflight? || pc.DepositGuide? || pc.RegisterImport? || pc.GrantRules? }

  predicate Enabling(pc: Pc) { BeforeGrant(pc) || pc.WriteMarker? || pc.UndoGrant? }

  /** States start..i belong to one run, which began at start. */
  ghost predicate OneRun(trace: seq<Sys>, start: nat, i: nat) {
    start <= i < |trace| && (trace[start].pc.Preflight? || trace[start].pc.RevokeRules?)
    && forall k :: start <= k <= i ==> !trace[k].pc.Idle?
  }

  /** What a disable has done to the allow rules by state s of its run. */
  predicate DisableSoFar(start: Sys, s: Sys) {
    if s.pc.RevokeRules? then s.repo.disk == start.repo.disk
    else forall r :: r in RULES && r in P.Recorded(start.repo.disk.record) ==> !P.Allowed(s.repo.disk, r)
  }

  ghost predicate GrantGave(before: P.Disk, after: P.Disk, added: seq<string>) {
    exists f :: P.Grant(RULES, before, f).0 == after && P.Grant(RULES, before, f).1.Changed?
                && P.Grant(RULES, before, f).1.rules == added
  }

  /** What an enable has done to the allow rules by state s of its run. */
  ghost predicate EnableSoFar(start: Sys, s: Sys)
    requires Enabling(s.pc)
  {
    if BeforeGrant(s.pc) then s.repo.disk == start.repo.disk
    else GrantGave(start.repo.disk, s.repo.disk, s.pc.added) && (s.pc.UndoGrant? ==> s.pc.added != [])
  }

  lemma DisableStep(start: Sys, s: Sys, step: Step)
    requires Enabled(s, step) && Disabling(s.pc) && DisableSoFar(start, s) && Disabling(Next(s, step).pc)
    ensures DisableSoFar(start, Next(s, step))
  {
    hide P.Withdraw, P.Grant, P.Preflight, H.After, P.Allowed, RULES;
    if s.pc.RevokeRules? && step.Go? {
      forall r | r in RULES && r in P.Recorded(start.repo.disk.record) ensures !P.Allowed(Next(s, step).repo.disk, r) {
        P.RevokeClears(RULES, s.repo.disk, step.choice.faults, r);
      }
    }
  }

  lemma EnableStep(start: Sys, s: Sys, step: Step)
    requires Enabled(s, step) && Enabling(s.pc) && EnableSoFar(start, s) && Enabling(Next(s, step).pc)
    ensures EnableSoFar(start, Next(s, step))
  {
    hide P.Withdraw, P.Grant, P.Preflight, H.After, P.Allowed, RULES;
  }

  /** Every state inside a run can be traced to where the run began. */
  lemma {:induction false} RunSoFar(trace: seq<Sys>, steps: seq<Step>, i: nat) returns (start: nat)
    requires Execution(trace, steps) && trace[0].pc.Idle? && i < |trace| && !trace[i].pc.Idle?
    ensures OneRun(trace, start, i)
    ensures Disabling(trace[i].pc) ==> trace[start].pc.RevokeRules? && DisableSoFar(trace[start], trace[i])
    ensures Enabling(trace[i].pc) ==> trace[start].pc.Preflight? && EnableSoFar(trace[start], trace[i])
  {
    hide P.Withdraw, P.Grant, P.Preflight, H.After, P.Allowed, RULES;
    var s, step := trace[i - 1], steps[i - 1];
    assert Enabled(s, step) && trace[i - 1 + 1] == Next(s, step);
    if step.StartEnable? || step.StartDisable? {
      start := i;
    } else {
      start := RunSoFar(trace, steps, i - 1);
      if Disabling(trace[i].pc) {
        DisableStep(trace[start], s, step);
      } else {
        EnableStep(trace[start], s, step);
      }
    }
  }

  /** Once a disable has cleared the marker, no rule of ours that was recorded when
      it began is allowed. */
  lemma DisableRevokes(trace: seq<Sys>, steps: seq<Step>, i: nat) returns (start: nat)
    requires Execution(trace, steps) && trace[0].pc.Idle? && i < |trace| && trace[i].pc.PruneImport?
    ensures OneRun(trace, start, i) && trace[start].pc.RevokeRules?
    ensures forall r :: r in RULES && r in P.Recorded(trace[start].repo.disk.record) ==> !P.Allowed(trace[i].repo.disk, r)
  {
    start := RunSoFar(trace, steps, i);
  }

  /** When the marker write fails and the rollback reports success, the allow list is
      what it was when the enable began. */
  lemma FailedEnableRestores(trace: seq<Sys>, steps: seq<Step>, i: nat) returns (start: nat)
    requires Execution(trace, steps) && trace[0].pc.Idle? && i < |steps| && trace[i].pc.UndoGrant? && steps[i].Go?
    requires P.Withdraw(RULES, trace[i].repo.disk, Some(trace[i].pc.added), steps[i].choice.faults).1.Changed?
    ensures OneRun(trace, start, i) && trace[start].pc.Preflight? && trace[i + 1].pc.Idle?
    ensures Read(trace[start].repo.disk.settings).Some? && Read(trace[i + 1].repo.disk.settings).Some?
    ensures Read(trace[i + 1].repo.disk.settings).value.allow == Read(trace[start].repo.disk.settings).value.allow
  {
    hide P.Withdraw, P.Grant, P.Preflight, H.After, Read, RULES;
    start := RunSoFar(trace, steps, i);
    var before, added := trace[start].repo.disk, trace[i].pc.added;
    assert trace[i + 1] == Next(trace[i], steps[i]);
    var f :| P.Grant(RULES, before, f).0 == trace[i].repo.disk && P.Grant(RULES, before, f).1.Changed?
             && P.Grant(RULES, before, f).1.rules == added;
    P.RollbackUndoesGrant(RULES, before, f, steps[i].choice.faults);
  }

  // --- the two operations as the program runs them ---------------------------------

  function Run(s: Sys, cs: seq<Choice>): Sys
    decreases |cs|
  {
    if cs == [] then s else Run(Advance(s, cs[0]), cs[1..])
  }

  lemma {:induction false} RunIdle(s: Sys, cs: seq<Choice>)
    requires s.pc.Idle?
    ensures Run(s, cs) == s
    decreases |cs|
  {
    if cs != [] {
      RunIdle(s, cs[1..]);
    }
  }

  /** Run(s, cs), peeled by one step and finished if that step ended the run. */
  lemma RunStep(s: Sys, cs: seq<Choice>, k: nat)
    requires k < |cs|
    ensures Run(s, cs[k..]) == Run(Advance(s, cs[k]), cs[k + 1..])
    ensures Advance(s, cs[k]).pc.Idle? ==> Run(s, cs[k..]) == Advance(s, cs[k])
  {
    assert cs[k..][1..] == cs[k + 1..];
    if Advance(s, cs[k]).pc.Idle? {
      RunIdle(Advance(s, cs[k]), cs[k + 1..]);
    }
  }

  class Repository {
    var guide: bool
    var marker: bool
    const host: H.ClaudeMd
    const dir: P.ClaudeDir

    ghost function Now(): Repo
      reads this, host, dir
    {
      Repo(guide, marker, host.host, dir.disk)
    }

    constructor (host: H.ClaudeMd, dir: P.ClaudeDir)
      ensures this.host == host && this.dir == dir && !guide && !marker
    {
      this.host, this.dir := host, dir;
      guide, marker := false, false;
    }

    method EnableLocked(cs: seq<Choice>) returns (enabled: bool)
      requires |cs| == 6
      modifies this, host, dir
      ensures Run(Sys(old(Now()), Preflight), cs) == Sys(Now(), Idle)
      ensures enabled <==>
              && P.Preflight(old(dir.disk)) && cs[1].ok && !cs[2].fault.NotWritten?
              && P.Grant(RULES, old(dir.disk), cs[3].faults).1.Changed? && cs[4].ok
      ensures enabled ==> marker
    {
      hide P.Withdraw, P.Grant, P.Preflight, H.After, Run, RULES;
      enabled := false;
      ghost var s0 := Sys(Now(), Preflight);
      assert cs[0..] == cs;
      RunStep(s0, cs, 0);
      if !P.Preflight(dir.disk) {
        return;
      }
      ghost var s1 := Sys(Now(), DepositGuide);
      RunStep(s1, cs, 1);
      if !cs[1].ok {
        return;
      }
      guide := true;
      ghost var s2 := Sys(Now(), RegisterImport);
      RunStep(s2, cs, 2);
      var wrote := host.Register(IMPORT, cs[2].fault);
      if cs[2].fault.NotWritten? {
        return;
      }
      ghost var s3 := Sys(Now(), GrantRules);
      RunStep(s3, cs, 3);
      var answer := dir.GrantRules(RULES, cs[3].faults);
      if !answer.Changed? {
        return;
      }
      ghost var s4 := Sys(Now(), WriteMarker(answer.rules));
      RunStep(s4, cs, 4);
      if cs[4].ok {
        marker := true;
        enabled := true;
        return;
      }
      marker := marker || cs[4].markerLeft;
      if answer.rules == [] {
        return;
      }
      ghost var s5 := Sys(Now(), UndoGrant(answer.rules));
      RunStep(s5, cs, 5);
      var undone := dir.WithdrawRules(RULES, Some(answer.rules), cs[5].faults);
    }

    method DisableLocked(purge: bool, cs: seq<Choice>) returns (disabled: bool)
      requires |cs| == 3
      modifies this, host, dir
      ensures Run(Sys(old(Now()), RevokeRules(purge)), cs) == Sys(Now(), Idle)
      ensures disabled <==>
              P.Withdraw(RULES, old(dir.disk), None, cs[0].faults).1.Changed? && cs[1].ok && !cs[2].fault.NotWritten?
      ensures disabled ==> !marker
    {
      hide P.Withdraw, P.Grant, P.Preflight, H.After, Run, RULES;
      disabled := false;
      assert cs[0..] == cs;
      RunStep(Sys(Now(), RevokeRules(purge)), cs, 0);
      var answer := dir.WithdrawRules(RULES, None, cs[0].faults);
      if !answer.Changed? {
        return;
      }
      RunStep(Sys(Now(), ClearMarker(purge)), cs, 1);
      if !cs[1].ok {
        marker := marker && (purge ==> cs[1].markerLeft);
        return;
      }
      marker := false;
      guide := guide && !purge;
      RunStep(Sys(Now(), PruneImport), cs, 2);
      var pruned, removed := host.Prune(IMPORT, true, cs[2].fault);
      disabled := !cs[2].fault.NotWritten?;
    }
  }
}
