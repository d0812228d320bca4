/** What enable and disable give back: one after the other, and one disable after any
    execution, with whatever failures, crashes and other tools in it. */
module Recovery {
  import opened Basics
  import opened JsonTokens
  import opened Settings
  import P = Permissions
  import opened Lines
  import opened Imports
  import H = HostFile
  import O = Others
  import opened Enable

  // --- enable, then disable ----------------------------------------------------------

  const FINE := Choice(true, false, H.NoFault, P.Faults(P.Done, P.Done, P.Done))

  function Fine(n: nat): seq<Choice> { if n == 0 then [] else [FINE] + Fine(n - 1) }

  lemma FineStep(s: Sys, n: nat)
    requires n > 0
    ensures Run(s, Fine(n)) == Run(Advance(s, FINE), Fine(n - 1))
    ensures Advance(s, FINE).pc.Idle? ==> Run(s, Fine(n)) == Advance(s, FINE)
  {
    hide Advance;
    if Advance(s, FINE).pc.Idle? {
      RunIdle(Advance(s, FINE), Fine(n - 1));
    }
  }

  function EnabledRepo(repo: Repo): Repo {
    Repo(true, true, H.After(repo.host, H.Op(H.Registering, IMPORT, H.NoFault)), P.Grant(RULES, repo.disk, FINE.faults).0)
  }

  function DisabledRepo(repo: Repo, purge: bool): Repo {
    Repo(repo.guide && !purge, false, H.After(repo.host, H.Op(H.Discarding, IMPORT, H.NoFault)),
         P.Withdraw(RULES, repo.disk, None, FINE.faults).0)
  }

  /** A repository beadle has never touched and whose files it can read. */
  predicate Pristine(repo: Repo) {
    && !Imported(repo) && !repo.marker
    && Read(repo.disk.settings).Some? && repo.disk.record.NoRecord?
  }

  /** Both files can be read. */
  predicate Workable(disk: P.Disk) { Read(disk.settings).Some? && !disk.record.Damaged? }

  lemma FineAnswers(disk: P.Disk)
    requires Workable(disk)
    ensures P.Preflight(disk) && P.Grant(RULES, disk, FINE.faults).1.Changed?
    ensures P.Withdraw(RULES, disk, None, FINE.faults).1.Changed?
  {
    hide Read, Write, Missing, Removed, Kept, RULES, P.Ours;
  }

  lemma FineEnable(repo: Repo)
    requires Workable(repo.disk)
    ensures Run(Sys(repo, Preflight), Fine(6)) == Sys(EnabledRepo(repo), Idle)
  {
    hide P.Withdraw, P.Grant, P.Preflight, H.After, Run, RULES, Fine, Read, Workable;
    FineAnswers(repo.disk);
    var r2 := repo.(guide := true);
    var r3 := r2.(host := EnabledRepo(repo).host);
    FineStep(Sys(repo, Preflight), 6);
    FineStep(Sys(repo, DepositGuide), 5);
    FineStep(Sys(r2, RegisterImport), 4);
    FineGrantOn(r3);
  }

  lemma FineGrantOn(repo: Repo)
    requires Workable(repo.disk)
    ensures Run(Sys(repo, GrantRules), Fine(3)) ==
            Sys(repo.(marker := true, disk := P.Grant(RULES, repo.disk, FINE.faults).0), Idle)
  {
    hide P.Withdraw, P.Grant, P.Preflight, H.After, Run, RULES, Fine, Read, Workable;
    FineAnswers(repo.disk);
    var (d, answer) := P.Grant(RULES, repo.disk, FINE.faults);
    FineStep(Sys(repo, GrantRules), 3);
    FineStep(Sys(repo.(disk := d), WriteMarker(answer.rules)), 2);
  }

  lemma FineDisable(repo: Repo, purge: bool)
    requires Workable(repo.disk)
    ensures Run(Sys(repo, RevokeRules(purge)), Fine(3)) == Sys(DisabledRepo(repo, purge), Idle)
  {
    hide P.Withdraw, P.Grant, P.Preflight, H.After, Run, RULES, Fine, Read, Workable;
    FineAnswers(repo.disk);
    var (d, answer) := P.Withdraw(RULES, repo.disk, None, FINE.faults);
    FineStep(Sys(repo, RevokeRules(purge)), 3);
    FineStep(Sys(repo.(disk := d), ClearMarker(purge)), 2);
    FineStep(Sys(repo.(disk := d, marker := false, guide := repo.guide && !purge), PruneImport), 1);
  }

  /** The CLAUDE.md an enable and a disable leave: an empty regular file is gone, a last
      line without a terminator has one, and everything else is as it was. */
  function HostBack(host: H.Host): H.Host {
    if host.Missing? || (host.text == "" && host.regular) then H.Missing
    else H.File(if Unterminated(Split(host.text)) then host.text + HostEol(Split(host.text)) else host.text, host.regular)
  }

  /** When that is the very file there was: all but an empty regular one and one whose
      last line has no terminator. */
  lemma HostBackExact(host: H.Host)
    ensures HostBack(host) == host <==>
            host.Missing? || (if host.text == "" then !host.regular else IsEol(host.text[|host.text| - 1]))
  {
    if host.File? {
      EndOf(host.text);
      hide HostEol, Split, Unterminated;
      assert |host.text + HostEol(Split(host.text))| > |host.text|;
    }
  }

  lemma HostOn(host: H.Host)
    requires IMPORT !in ImportsOf(H.TextOf(host))
    ensures H.After(host, H.Op(H.Registering, IMPORT, H.NoFault)) ==
            H.File(RegisterText(H.TextOf(host), IMPORT), host.File? ==> host.regular)
  {
    ImportIsValid();
    hide ValidImport, ImportsOf, RegisterText, IMPORT;
  }

  lemma HostOff(text: string, regular: bool)
    requires IMPORT in ImportsOf(text)
    ensures var pruned := PruneText(text, IMPORT);
            H.After(H.File(text, regular), H.Op(H.Discarding, IMPORT, H.NoFault)) ==
            if pruned == "" && regular then H.Missing else H.File(pruned, regular)
  {
    ImportIsValid();
    hide ValidImport, ImportsOf, PruneText, IMPORT;
  }

  lemma FineHost(host: H.Host)
    requires IMPORT !in ImportsOf(H.TextOf(host))
    ensures var on := H.After(host, H.Op(H.Registering, IMPORT, H.NoFault));
            var off := H.After(on, H.Op(H.Discarding, IMPORT, H.NoFault));
            IMPORT in ImportsOf(H.TextOf(on)) && off == HostBack(host)
  {
    var text := H.TextOf(host);
    ImportIsValid();
    hide ValidImport, ImportsOf, RegisterText, PruneText, HostEol, Split, Unterminated, IMPORT, IsEol, H.After;
    RegisterImports(text, IMPORT);
    HostOn(host);
    HostOff(RegisterText(text, IMPORT), host.File? ==> host.regular);
    RoundTrip(text, IMPORT);
    EndOf(text);
  }

  /** A grant on a clean record and the revoke of it leave no record. */
  lemma RecordGone(d: P.Disk, f: P.Faults, g: P.Faults)
    requires Workable(d) && d.record.NoRecord? && Written(f)
    requires P.Withdraw(RULES, P.Grant(RULES, d, f).0, None, g).1.Changed?
    ensures P.Withdraw(RULES, P.Grant(RULES, d, f).0, None, g).0.record.NoRecord?
  {
    GrantReports(d, f);
    var (on, answer) := P.Grant(RULES, d, f);
    assert P.Recorded(d.record) == [];
    assert forall r :: r in P.Recorded(on.record) ==> r in RULES;
    hide P.Withdraw, P.Grant, Read, RULES, P.Allowed, Workable;
    if on.settings.None? {
      P.NoSettings(RULES, on, None, g);
    } else {
      P.RevokeEmptiesRecord(RULES, on, g);
    }
  }

  lemma FineRules(disk: P.Disk)
    requires Read(disk.settings).Some? && disk.record.NoRecord?
    ensures var (on, answer) := P.Grant(RULES, disk, FINE.faults);
            var (off, back) := P.Withdraw(RULES, on, None, FINE.faults);
            && answer.Changed? && back.Changed? && Workable(on)
            && (forall r :: r in RULES ==> P.Allowed(on, r))
            && Read(off.settings).Some? && Read(off.settings).value.allow == Read(disk.settings).value.allow
            && SameElsewhere(Read(disk.settings).value, Read(off.settings).value)
            && off.record.NoRecord?
  {
    hide P.Withdraw, P.Grant, Read, SameElsewhere, RULES, Missing, HasRule;
    FineAnswers(disk);
    var (on, _) := P.Grant(RULES, disk, FINE.faults);
    P.GrantOutcome(RULES, disk, FINE.faults);
    FineAnswers(on);
    AllPresent(Read(disk.settings).value.allow, RULES);
    assert Read(disk.settings).value.allow + Entries([]) == Read(disk.settings).value.allow;
    OneGrant(disk);
    RecordGone(disk, FINE.faults, FINE.faults);
    P.RevokeRestores(RULES, disk, P.World(disk, [], []), [P.DoGrant(FINE.faults)], FINE.faults);
  }

  lemma OneGrant(disk: P.Disk)
    ensures P.AfterActs(RULES, P.World(disk, [], []), [P.DoGrant(FINE.faults)]).disk == P.Grant(RULES, disk, FINE.faults).0
  {
    hide P.Grant, P.Withdraw, RULES, Read, Missing;
    var w, acts := P.World(disk, [], []), [P.DoGrant(FINE.faults)];
    assert acts[..0] == [];
    assert P.AfterActs(RULES, w, acts) == P.AfterAct(RULES, P.AfterActs(RULES, w, []), acts[0]);
  }

  lemma AllPresent(allow: seq<Tokens>, rules: seq<string>)
    ensures forall r :: r in rules ==> HasRule(allow + Entries(Missing(allow, rules)), r)
  {
    MissingExact(allow, rules);
    forall r | r in rules ensures HasRule(allow + Entries(Missing(allow, rules)), r) {
      P.HasRuleSplit(allow, Entries(Missing(allow, rules)), r);
      P.EntriesHave(Missing(allow, rules), r);
    }
  }

  /** Enabling a pristine repository turns everything on; disabling it again gives
      back the allow list, the rest of settings.json, and CLAUDE.md as HostBack says, and
      leaves no record. */
  lemma EnableThenDisable(repo: Repo, purge: bool)
    requires Pristine(repo)
    ensures var on := Run(Sys(repo, Preflight), Fine(6)).repo;
            var off := Run(Sys(on, RevokeRules(purge)), Fine(3)).repo;
            && on.guide && on.marker && Imported(on) && (forall r :: r in RULES ==> P.Allowed(on.disk, r))
            && !off.marker && off.guide == !purge && off.disk.record.NoRecord?
            && off.host == HostBack(repo.host)
            && Read(off.disk.settings).Some?
            && Read(off.disk.settings).value.allow == Read(repo.disk.settings).value.allow
            && SameElsewhere(Read(repo.disk.settings).value, Read(off.disk.settings).value)
  {
    hide P.Withdraw, P.Grant, Read, H.After, Run, RULES, SameElsewhere, ImportsOf;
    FineEnable(repo);
    FineRules(repo.disk);
    FineHost(repo.host);
    FineDisable(EnabledRepo(repo), purge);
  }

  // --- an enable that fails --------------------------------------------------------------

  predicate Written(f: P.Faults) { f.first.Done? && f.second.Done? }

  /** The steps of cs before the marker write all succeed. */
  predicate UpToMarker(cs: seq<Choice>) {
    |cs| == 6 && cs[1].ok && !cs[2].fault.NotWritten? && Written(cs[3].faults)
  }

  /** The repository when the marker is about to be written. */
  lemma BeforeMarker(repo: Repo, cs: seq<Choice>) returns (s: Sys)
    requires Workable(repo.disk) && UpToMarker(cs)
    ensures s.pc.WriteMarker? && Run(Sys(repo, Preflight), cs) == Run(s, cs[4..])
    ensures (s.repo.disk, P.Changed(s.pc.added, [])) == P.Grant(RULES, repo.disk, cs[3].faults)
    ensures s.repo.guide && s.repo.marker == repo.marker && Imported(s.repo)
  {
    hide P.Withdraw, P.Grant, P.Preflight, H.After, Run, RULES, Read, P.Allowed, P.Recorded, IMPORT;
    P.PreflightExact(RULES, repo.disk, cs[3].faults);
    P.RefusedExact(RULES, repo.disk, None, cs[3].faults);
    P.GrantFates(RULES, repo.disk, cs[3].faults);
    RegisteredIn(repo.host, cs[2].fault);
    BeforeGrants(repo, cs);
    var r := Registered(repo, cs[2].fault);
    RunStep(Sys(r, GrantRules), cs, 3);
    var (d, answer) := P.Grant(RULES, repo.disk, cs[3].faults);
    s := Sys(r.(disk := d), WriteMarker(answer.rules));
  }

  lemma RegisteredIn(host: H.Host, fault: H.Fault)
    requires !fault.NotWritten?
    ensures IMPORT in ImportsOf(H.TextOf(H.After(host, H.Op(H.Registering, IMPORT, fault))))
  {
    ImportIsValid();
    hide ValidImport, ImportsOf;
    H.StepRefines(host, H.Op(H.Registering, IMPORT, fault));
  }

  /** The rules a grant that succeeds reports and records. */
  lemma GrantReports(d: P.Disk, f: P.Faults)
    requires Workable(d) && Written(f)
    ensures var (on, answer) := P.Grant(RULES, d, f);
            && answer.Changed? && Workable(on)
            && (forall r :: r in answer.rules <==> r in RULES && !P.Allowed(d, r))
            && (forall r :: r in P.Recorded(on.record) <==> r in P.Recorded(d.record) || r in answer.rules)
            && (if answer.rules == [] then on == d else on.settings.Some? && P.Recorded(on.record) != [])
  {
    hide P.Grant, Read, SameElsewhere, RULES, Missing, HasRule;
    P.GrantFates(RULES, d, f);
    P.GrantOutcome(RULES, d, f);
    MissingExact(Read(d.settings).value.allow, RULES);
    var (on, answer) := P.Grant(RULES, d, f);
    assert forall r :: P.Allowed(d, r) <==> HasRule(Read(d.settings).value.allow, r);
    P.SomeTaken(answer.rules);
    P.SomeTaken(P.Recorded(on.record));
  }

  /** The grant and then the rollback of what it reported, if it reported anything. */
  lemma GrantUndone(d: P.Disk, f: P.Faults, g: P.Faults)
    requires Workable(d) && Written(f) && Written(g)
    ensures var (on, answer) := P.Grant(RULES, d, f);
            var off := if answer.Changed? && answer.rules != [] then P.Withdraw(RULES, on, Some(answer.rules), g).0 else on;
            && Workable(off) && Read(off.settings).value.allow == Read(d.settings).value.allow
            && SameElsewhere(Read(d.settings).value, Read(off.settings).value)
            && (forall r :: r in P.Recorded(off.record) <==> r in P.Recorded(d.record) && (r in RULES ==> P.Allowed(d, r)))
  {
    GrantReports(d, f);
    P.EditsKeepRest(RULES, d, None, f);
    hide P.Withdraw, P.Grant, Read, SameElsewhere, RULES, P.Allowed, P.Recorded;
    var (on, answer) := P.Grant(RULES, d, f);
    P.EditsKeepRest(RULES, on, Some(answer.rules), g);
    P.SameTrans(Read(d.settings).value, Read(on.settings).value,
      Read(P.Withdraw(RULES, on, Some(answer.rules), g).0.settings).value);
    if answer.rules != [] {
      P.WithdrawFates(RULES, on, Some(answer.rules), g);
      P.WithdrawRecord(RULES, on, Some(answer.rules), g);
      P.RollbackUndoesGrant(RULES, d, f, g);
    }
  }

  /** The repository when the rules are about to be granted. */
  lemma BeforeGrants(repo: Repo, cs: seq<Choice>)
    requires P.Preflight(repo.disk) && |cs| == 6 && cs[1].ok && !cs[2].fault.NotWritten?
    ensures Run(Sys(repo, Preflight), cs) == Run(Sys(Registered(repo, cs[2].fault), GrantRules), cs[3..])
  {
    hide P.Withdraw, P.Grant, P.Preflight, H.After, Run, RULES;
    assert cs[0..] == cs;
    RunStep(Sys(repo, Preflight), cs, 0);
    RunStep(Sys(repo, DepositGuide), cs, 1);
    RunStep(Sys(repo.(guide := true), RegisterImport), cs, 2);
  }

  /** With the guide deposited and the import registered. */
  function Registered(repo: Repo, fault: H.Fault): Repo {
    repo.(guide := true, host := H.After(repo.host, H.Op(H.Registering, IMPORT, fault)))
  }

  /** An enable that stops before its marker leaves what its finished steps did, and in
      every case the marker and the allow rules as they were. */
  lemma StopsEarly(repo: Repo, cs: seq<Choice>)
    requires |cs| == 6
    requires !P.Preflight(repo.disk) || !cs[1].ok || cs[2].fault.NotWritten? || !P.Grant(RULES, repo.disk, cs[3].faults).1.Changed?
    ensures var end := Run(Sys(repo, Preflight), cs);
            && end.pc.Idle? && end.repo.marker == repo.marker && end.repo.disk.settings == repo.disk.settings
            && (!P.Preflight(repo.disk) || !cs[1].ok ==> end.repo == repo)
            && (P.Preflight(repo.disk) && cs[1].ok ==>
                && end.repo.guide
                && end.repo.host == (if cs[2].fault.NotWritten? then repo.host else Registered(repo, cs[2].fault).host))
  {
    assert cs[2].fault.NotWritten? ==> H.After(repo.host, H.Op(H.Registering, IMPORT, cs[2].fault)) == repo.host;
    hide P.Withdraw, P.Grant, P.Preflight, H.After, Run, RULES;
    assert cs[0..] == cs;
    RunStep(Sys(repo, Preflight), cs, 0);
    if P.Preflight(repo.disk) {
      RunStep(Sys(repo, DepositGuide), cs, 1);
      if cs[1].ok {
        RunStep(Sys(repo.(guide := true), RegisterImport), cs, 2);
        if !cs[2].fault.NotWritten? {
          RunStep(Sys(Registered(repo, cs[2].fault), GrantRules), cs, 3);
          GrantKeepsSettings(repo.disk, cs[3].faults);
        }
      }
    }
  }

  lemma GrantKeepsSettings(d: P.Disk, f: P.Faults)
    requires !P.Grant(RULES, d, f).1.Changed?
    ensures P.Grant(RULES, d, f).0.settings == d.settings
  {
    P.RefusedExact(RULES, d, None, f);
    hide P.Grant, Read;
    if Workable(d) {
      P.GrantFates(RULES, d, f);
    }
  }

  /** What a refused enable leaves: nothing changed, unless there is no settings file and
      the record is damaged; then the guide and the import are in place. */
  lemma RefusedEnable(repo: Repo, cs: seq<Choice>)
    requires !Workable(repo.disk) && |cs| == 6 && cs[1].ok && !cs[2].fault.NotWritten?
    ensures Run(Sys(repo, Preflight), cs) ==
            Sys(if repo.disk.settings.None? && repo.disk.record.Damaged? then Registered(repo, cs[2].fault) else repo, Idle)
  {
    P.PreflightExact(RULES, repo.disk, cs[3].faults);
    P.RefusedExact(RULES, repo.disk, None, cs[3].faults);
    hide P.Withdraw, P.Grant, P.Preflight, H.After, Run, RULES, Read;
    StopsEarly(repo, cs);
    if P.Preflight(repo.disk) {
      BeforeGrants(repo, cs);
      RunStep(Sys(Registered(repo, cs[2].fault), GrantRules), cs, 3);
    }
  }

  lemma MarkerFails(s: Sys, cs: seq<Choice>)
    requires s.pc.WriteMarker? && |cs| == 6 && !cs[4].ok
    ensures var undone := if s.pc.added == [] then s.repo.disk
                          else P.Withdraw(RULES, s.repo.disk, Some(s.pc.added), cs[5].faults).0;
            Run(s, cs[4..]) == Sys(s.repo.(marker := s.repo.marker || cs[4].markerLeft, disk := undone), Idle)
  {
    hide P.Withdraw, P.Grant, P.Preflight, H.After, Run, RULES;
    RunStep(s, cs, 4);
    RunStep(Advance(s, cs[4]), cs, 5);
  }

  /** An enable that gets as far as the marker and cannot write it takes back the rules it
      allowed: the allow list, the rest of settings.json and every explained record are
      what they were. */
  lemma FailedMarkerUndone(repo: Repo, cs: seq<Choice>)
    requires Workable(repo.disk) && UpToMarker(cs) && !cs[4].ok && Written(cs[5].faults)
    ensures var end := Run(Sys(repo, Preflight), cs);
            && end.pc.Idle? && end.repo.marker == (repo.marker || cs[4].markerLeft)
            && Workable(end.repo.disk)
            && Read(end.repo.disk.settings).value.allow == Read(repo.disk.settings).value.allow
            && SameElsewhere(Read(repo.disk.settings).value, Read(end.repo.disk.settings).value)
            && (forall r :: r in P.Recorded(end.repo.disk.record) <==>
                            r in P.Recorded(repo.disk.record) && (r in RULES ==> P.Allowed(repo.disk, r)))
  {
    hide P.Withdraw, P.Grant, P.Preflight, H.After, Run, RULES, Read, SameElsewhere, P.Allowed, P.Recorded;
    var s := BeforeMarker(repo, cs);
    GrantUndone(repo.disk, cs[3].faults, cs[5].faults);
    MarkerFails(s, cs);
  }

  /** An enable whose marker lands has deposited the guide, registered the import and
      allowed every rule. */
  lemma MarkerMeansAll(repo: Repo, cs: seq<Choice>)
    requires Workable(repo.disk) && UpToMarker(cs) && cs[4].ok
    ensures var end := Run(Sys(repo, Preflight), cs);
            && end.pc.Idle? && end.repo.marker && end.repo.guide && Imported(end.repo)
            && forall r :: r in RULES ==> P.Allowed(end.repo.disk, r)
  {
    hide P.Withdraw, P.Grant, P.Preflight, H.After, Run, RULES, Read, P.Allowed;
    var s := BeforeMarker(repo, cs);
    P.GrantFates(RULES, repo.disk, cs[3].faults);
    RunStep(s, cs, 4);
  }

  /** A disable that cannot revoke leaves the repository enabled; one that cannot clear the
      marker leaves the import in place. */
  lemma DisableStops(repo: Repo, purge: bool, cs: seq<Choice>)
    requires |cs| == 3
    ensures var end := Run(Sys(repo, RevokeRules(purge)), cs);
            var (disk, answer) := P.Withdraw(RULES, repo.disk, None, cs[0].faults);
            && end.pc.Idle? && end.repo.disk == disk
            && (!answer.Changed? ==> end.repo == repo.(disk := disk))
            && (answer.Changed? && !cs[1].ok ==>
                && end.repo.host == repo.host && end.repo.guide == repo.guide
                && end.repo.marker == (repo.marker && (purge ==> cs[1].markerLeft)))
            && (answer.Changed? && cs[1].ok ==> !end.repo.marker && end.repo.guide == (repo.guide && !purge))
  {
    hide P.Withdraw, P.Grant, P.Preflight, H.After, Run, RULES;
    var (disk, answer) := P.Withdraw(RULES, repo.disk, None, cs[0].faults);
    assert cs[0..] == cs;
    RunStep(Sys(repo, RevokeRules(purge)), cs, 0);
    if answer.Changed? {
      RunStep(Sys(repo.(disk := disk), ClearMarker(purge)), cs, 1);
      if cs[1].ok {
        RunStep(Sys(repo.(disk := disk, marker := false, guide := repo.guide && !purge), PruneImport), cs, 2);
      }
    }
  }

  // --- disable after anything ---------------------------------------------------------

  /** What the run in progress still has to undo if its marker write fails. */
  function Reported(pc: Pc): seq<string> { if pc.WriteMarker? || pc.UndoGrant? then pc.added else [] }

  /** The allow list is the original one and rules of ours behind it, each recorded. */
  ghost predicate RulesSound(orig: Doc, s: Sys) {
    exists added :: P.Inv(RULES, orig, P.World(s.repo.disk, added, Reported(s.pc)))
  }

  lemma ForgetReported(orig: Doc, w: P.World)
    requires P.Inv(RULES, orig, w)
    ensures P.Inv(RULES, orig, w.(lastAdded := []))
  {
  }

  lemma SoundBy(orig: Doc, s: Sys, added: seq<string>)
    requires P.Inv(RULES, orig, P.World(s.repo.disk, added, Reported(s.pc)))
    ensures RulesSound(orig, s)
  {
  }

  lemma GrantSound(orig: Doc, s: Sys, c: Choice)
    requires RulesSound(orig, s) && s.pc.GrantRules?
    ensures RulesSound(orig, Advance(s, c))
  {
    hide P.Grant, P.Inv, Read, Missing, RULES;
    var added :| P.Inv(RULES, orig, P.World(s.repo.disk, added, []));
    var w := P.World(s.repo.disk, added, []);
    P.GrantKeeps(RULES, orig, w, c.faults);
    assert P.AfterGrant(RULES, w, c.faults).lastAdded == Reported(Advance(s, c).pc);
    SoundBy(orig, Advance(s, c), P.AfterGrant(RULES, w, c.faults).added);
  }

  lemma UndoSound(orig: Doc, s: Sys, c: Choice)
    requires RulesSound(orig, s) && s.pc.UndoGrant?
    ensures RulesSound(orig, Advance(s, c))
  {
    hide P.Withdraw, P.Inv, Read, RULES;
    var added :| P.Inv(RULES, orig, P.World(s.repo.disk, added, s.pc.added));
    var w := P.World(s.repo.disk, added, s.pc.added);
    P.RollbackKeeps(RULES, orig, w, c.faults);
    SoundBy(orig, Advance(s, c), P.AfterWithdraw(RULES, w, Some(w.lastAdded), c.faults).added);
  }

  lemma RevokeSound(orig: Doc, s: Sys, c: Choice)
    requires RulesSound(orig, s) && s.pc.RevokeRules?
    ensures RulesSound(orig, Advance(s, c))
  {
    hide P.Withdraw, P.Inv, Read, RULES;
    var added :| P.Inv(RULES, orig, P.World(s.repo.disk, added, []));
    var w := P.World(s.repo.disk, added, []);
    P.WithdrawKeeps(RULES, orig, w, None, c.faults);
    var after := P.AfterWithdraw(RULES, w, None, c.faults);
    SoundBy(orig, Advance(s, c), after.added);
  }

  lemma StepSound(orig: Doc, s: Sys, step: Step)
    requires RulesSound(orig, s) && Enabled(s, step)
    ensures RulesSound(orig, Next(s, step))
  {
    hide P.Grant, P.Withdraw, P.Preflight, P.Inv, H.After, RULES;
    if step.Go? && s.pc.GrantRules? {
      GrantSound(orig, s, step.choice);
    } else if step.Go? && s.pc.UndoGrant? {
      UndoSound(orig, s, step.choice);
    } else if step.Go? && s.pc.RevokeRules? {
      RevokeSound(orig, s, step.choice);
    } else {
      var t := Next(s, step);
      var added :| P.Inv(RULES, orig, P.World(s.repo.disk, added, Reported(s.pc)));
      ForgetReported(orig, P.World(s.repo.disk, added, Reported(s.pc)));
      assert t.repo.disk == s.repo.disk && (Reported(t.pc) == Reported(s.pc) || Reported(t.pc) == []);
      SoundBy(orig, t, added);
    }
  }

  /** beadle has nothing on record here, and can read the settings. */
  predicate Unrecorded(repo: Repo) { Read(repo.disk.settings).Some? && repo.disk.record.NoRecord? }

  lemma {:induction false} RulesStaySound(trace: seq<Sys>, steps: seq<Step>, i: nat)
    requires Execution(trace, steps) && trace[0].pc.Idle? && Unrecorded(trace[0].repo) && i < |trace|
    ensures RulesSound(Read(trace[0].repo.disk.settings).value, trace[i])
  {
    var d := trace[0].repo.disk;
    hide P.Inv, RULES, Read;
    if i == 0 {
      P.Start(RULES, d, P.World(d, [], []));
      SoundBy(Read(d.settings).value, trace[0], []);
    } else {
      RulesStaySound(trace, steps, i - 1);
      assert trace[i - 1 + 1] == trace[i];
      StepSound(Read(d.settings).value, trace[i - 1], steps[i - 1]);
    }
  }

  lemma RevokedRecord(orig: Doc, w: P.World, f: P.Faults)
    requires P.Inv(RULES, orig, w) && P.Withdraw(RULES, w.disk, None, f).1.Changed? && w.disk.settings.Some?
    ensures P.Recorded(P.Withdraw(RULES, w.disk, None, f).0.record) == []
  {
    P.WithdrawRecord(RULES, w.disk, None, f);
    hide P.Withdraw, Read, SameElsewhere, RULES, Entries;
    P.SomeTaken(P.Recorded(P.Withdraw(RULES, w.disk, None, f).0.record));
  }

  lemma DisableFrom(orig: Doc, s: Sys, purge: bool)
    requires RulesSound(orig, s)
    ensures var off := Run(Sys(s.repo, RevokeRules(purge)), Fine(3)).repo;
            && !off.marker && !Imported(off) && (purge ==> !off.guide)
            && ImportsOf(H.TextOf(off.host)) == Without(ImportsOf(H.TextOf(s.repo.host)), IMPORT)
            && Read(off.disk.settings).Some? && Read(off.disk.settings).value.allow == orig.allow
            && SameElsewhere(orig, Read(off.disk.settings).value)
  {
    var added :| P.Inv(RULES, orig, P.World(s.repo.disk, added, Reported(s.pc)));
    var w := P.World(s.repo.disk, added, Reported(s.pc));
    assert Read(s.repo.disk.settings).Some? && !s.repo.disk.record.Damaged?;
    hide P.Withdraw, P.Inv, Read, H.After, Run, RULES, SameElsewhere, ImportsOf, ValidImport;
    FineAnswers(s.repo.disk);
    FineDisable(s.repo, purge);
    P.RevokeFrom(RULES, orig, w, FINE.faults);
    ImportIsValid();
    H.StepRefines(s.repo.host, H.Op(H.Discarding, IMPORT, H.NoFault));
    WithoutGone(ImportsOf(H.TextOf(s.repo.host)), IMPORT);
  }

  lemma DisableEmptiesRecord(orig: Doc, s: Sys, purge: bool)
    requires RulesSound(orig, s) && s.repo.disk.settings.Some?
    ensures P.Recorded(Run(Sys(s.repo, RevokeRules(purge)), Fine(3)).repo.disk.record) == []
  {
    var added :| P.Inv(RULES, orig, P.World(s.repo.disk, added, Reported(s.pc)));
    var w := P.World(s.repo.disk, added, Reported(s.pc));
    assert Workable(s.repo.disk);
    hide P.Withdraw, P.Inv, Read, H.After, Run, RULES, Workable;
    FineAnswers(s.repo.disk);
    FineDisable(s.repo, purge);
    RevokedRecord(orig, w, FINE.faults);
  }

  /** From every state of every execution, wherever enables and disables failed or
      crashed and whatever other tools did to CLAUDE.md, one disable that goes through
      gives back the allow list and the rest of settings.json as they were before
      beadle came, leaves nothing on record when there are settings, and takes the import
      out of whatever CLAUDE.md has become. */
  lemma DisableRecovers(trace: seq<Sys>, steps: seq<Step>, i: nat, purge: bool)
    requires Execution(trace, steps) && trace[0].pc.Idle? && Unrecorded(trace[0].repo) && i < |trace|
    ensures var orig := Read(trace[0].repo.disk.settings).value;
            var off := Run(Sys(trace[i].repo, RevokeRules(purge)), Fine(3)).repo;
            && !off.marker && !Imported(off) && (purge ==> !off.guide)
            && ImportsOf(H.TextOf(off.host)) == Without(ImportsOf(H.TextOf(trace[i].repo.host)), IMPORT)
            && Read(off.disk.settings).Some? && Read(off.disk.settings).value.allow == orig.allow
            && SameElsewhere(orig, Read(off.disk.settings).value)
            && (trace[i].repo.disk.settings.Some? ==> P.Recorded(off.disk.record) == [])
  {
    RulesStaySound(trace, steps, i);
    hide Read, RulesSound, Run, Execution, ImportsOf, SameElsewhere;
    DisableFrom(Read(trace[0].repo.disk.settings).value, trace[i], purge);
    if trace[i].repo.disk.settings.Some? {
      DisableEmptiesRecord(Read(trace[0].repo.disk.settings).value, trace[i], purge);
    }
  }

  lemma StepOthers(s: Sys, step: Step)
    requires Enabled(s, step)
    ensures O.Preserved(O.OthersOf(H.TextOf(s.repo.host)), O.OthersOf(H.TextOf(Next(s, step).repo.host)))
  {
    hide P.Withdraw, P.Grant, P.Preflight, H.After, O.Preserved, O.OthersOf, RULES;
    O.PreservedSame(O.OthersOf(H.TextOf(s.repo.host)));
    match step
    case OtherTool(op) => O.StepPreserves(s.repo.host, op);
    case Go(c) =>
      if s.pc.RegisterImport? {
        O.StepPreserves(s.repo.host, H.Op(H.Registering, IMPORT, c.fault));
      } else if s.pc.PruneImport? {
        O.StepPreserves(s.repo.host, H.Op(H.Discarding, IMPORT, c.fault));
      }
    case _ =>
  }

  /** No execution disturbs a line of CLAUDE.md that is no import. */
  lemma {:induction false} OthersUndisturbed(trace: seq<Sys>, steps: seq<Step>, i: nat)
    requires Execution(trace, steps) && i < |trace|
    ensures O.Preserved(O.OthersOf(H.TextOf(trace[0].repo.host)), O.OthersOf(H.TextOf(trace[i].repo.host)))
  {
    hide O.Preserved, O.OthersOf, Next, Enabled;
    var first := O.OthersOf(H.TextOf(trace[0].repo.host));
    if i == 0 {
      O.PreservedSame(first);
    } else {
      OthersUndisturbed(trace, steps, i - 1);
      StepOthers(trace[i - 1], steps[i - 1]);
      assert trace[i - 1 + 1] == trace[i];
      O.PreservedTrans(first, O.OthersOf(H.TextOf(trace[i - 1].repo.host)), O.OthersOf(H.TextOf(trace[i].repo.host)));
    }
  }
}
