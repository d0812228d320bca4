/** Granting and revoking the allow rules: two files written in an order such that
    a failed write or a crash never leaves a granted rule unrecorded. */
module Permissions {
  import opened Basics
  import opened JsonTokens
  import opened Settings

  datatype Record = NoRecord | Granted(rules: seq<string>) | Damaged

  datatype Disk = Disk(settings: Option<Tokens>, record: Record)

  /** What becomes of one atomic file write; Died: the process ends before it. */
  datatype Outcome = Done | Failed | Died

  /** The fate of the first, second and third write of one transaction. */
  datatype Faults = Faults(first: Outcome, second: Outcome, third: Outcome)

  datatype Answer = Changed(rules: seq<string>, unrecorded: seq<string>) | Refusal | WriteError | Crashed

  function Recorded(r: Record): seq<string> { if r.Granted? then r.rules else [] }

  /** An empty record is no file at all. */
  function RecordOf(rules: seq<string>): Record { if rules == [] then NoRecord else Granted(rules) }

  /** Record first, settings second; a failed settings write puts the record back. */
  function Grant(ours: seq<string>, d: Disk, f: Faults): (Disk, Answer) {
    if d.record.Damaged? then (d, Refusal)
    else
      match PlanEdit(d.settings, true, ours)
      case Refused => (d, Refusal)
      case Unchanged => (d, Changed([], []))
      case Edited(rules, contents) =>
        var granted := Recorded(d.record);
        var d1 := d.(record := RecordOf(Union(granted, rules)));
        if f.first.Failed? then (d, WriteError)
        else if f.first.Died? then (d, Crashed)
        else if f.second.Done? then (d1.(settings := Some(contents)), Changed(rules, []))
        else if f.second.Died? then (d1, Crashed)
        else if f.third.Done? then (d.(record := RecordOf(granted)), WriteError)
        else (d1, if f.third.Died? then Crashed else WriteError)
  }

  /** Settings first, record second. asked None: whatever is recorded. */
  function Withdraw(ours: seq<string>, d: Disk, asked: Option<seq<string>>, f: Faults): (Disk, Answer) {
    if d.settings.None? then (d, Changed([], []))
    else if d.record.Damaged? then (d, Refusal)
    else
      var granted := Recorded(d.record);
      var wanted := Ours(ours, if asked.None? then granted else asked.value);
      var plan := PlanEdit(d.settings, false, wanted);
      if plan.Refused? then (d, Refusal)
      else WithdrawPlanned(d, plan, Minus(granted, wanted),
        if asked.None? && granted == [] then Removed(Read(d.settings).value.allow, ours) else [], f)
  }

  function WithdrawPlanned(d: Disk, plan: Plan, rest: seq<string>, unrecorded: seq<string>, f: Faults): (Disk, Answer) {
    var answer := Changed(if plan.Edited? then plan.rules else [], unrecorded);
    if plan.Edited? && f.first.Failed? then (d, WriteError)
    else if plan.Edited? && f.first.Died? then (d, Crashed)
    else
      var d1 := if plan.Edited? then d.(settings := Some(plan.contents)) else d;
      if |rest| == |Recorded(d.record)| then (d1, answer)
      else if f.second.Failed? then (d1, WriteError)
      else if f.second.Died? then (d1, Crashed)
      else (d1.(record := RecordOf(rest)), answer)
  }

  /** The members of rules that are in the fixed rule set. */
  function Ours(ours: seq<string>, rules: seq<string>): (r: seq<string>)
    ensures forall s :: s in r <==> s in rules && s in ours
    decreases |rules|
  {
    if rules == [] then []
    else Ours(ours, rules[..|rules| - 1]) + (if rules[|rules| - 1] in ours then [rules[|rules| - 1]] else [])
  }

  /** Whether Grant would be refused, with nothing written. */
  predicate Preflight(d: Disk) {
    d.settings.Some? ==> !d.record.Damaged? && Read(d.settings).Some?
  }

  // --- the transaction as the program runs it ------------------------------------

  class ClaudeDir {
    var disk: Disk

    constructor (d: Disk)
      ensures disk == d
    {
      disk := d;
    }

    method GrantRules(ours: seq<string>, f: Faults) returns (answer: Answer)
      modifies this
      ensures (disk, answer) == Grant(ours, old(disk), f)
    {
      if disk.record.Damaged? {
        return Refusal;
      }
      var granted := Recorded(disk.record);
      var doc := Read(disk.settings);
      if doc.None? {
        return Refusal;
      }
      var allow, changed := AddRules(doc.value.allow, ours);
      if changed == [] {
        return Changed([], []);
      }
      var merged := Merge(granted, changed);
      match f.first {
        case Failed => return WriteError;
        case Died => return Crashed;
        case Done => disk := disk.(record := RecordOf(merged));
      }
      match f.second {
        case Died => return Crashed;
        case Done =>
          disk := disk.(settings := Some(Write(doc.value, allow)));
          return Changed(changed, []);
        case Failed =>
          if f.third.Done? {
            disk := disk.(record := RecordOf(granted));
          }
          return if f.third.Died? then Crashed else WriteError;
      }
    }

    method WithdrawRules(ours: seq<string>, asked: Option<seq<string>>, f: Faults) returns (answer: Answer)
      modifies this
      ensures (disk, answer) == Withdraw(ours, old(disk), asked, f)
    {
      hide Read, Write, Kept, Removed, Missing;
      if disk.settings.None? {
        return Changed([], []);
      }
      if disk.record.Damaged? {
        return Refusal;
      }
      var granted := Recorded(disk.record);
      var rules := Ours(ours, if asked.None? then granted else asked.value);
      var doc := Read(disk.settings);
      if doc.None? {
        return Refusal;
      }
      var allow, changed := DropRules(doc.value.allow, rules);
      var unrecorded := [];
      if asked.None? && granted == [] {
        var _, stray := DropRules(doc.value.allow, ours);
        unrecorded := stray;
      }
      if changed != [] {
        match f.first {
          case Failed => return WriteError;
          case Died => return Crashed;
          case Done => disk := disk.(settings := Some(Write(doc.value, allow)));
        }
      }
      var rest := Minus(granted, rules);
      if |rest| != |granted| {
        match f.second {
          case Failed => return WriteError;
          case Died => return Crashed;
          case Done => disk := disk.(record := RecordOf(rest));
        }
      }
      return Changed(changed, unrecorded);
    }
  }

  // --- histories -------------------------------------------------------------------

  /** Rollback withdraws exactly what the last grant reported. */
  datatype Act = DoGrant(f: Faults) | DoRevoke(f: Faults) | DoRollback(f: Faults)

  /** added: the rules beadle put into the allow list and has not taken out, in
      order; lastAdded: what the last grant reported. */
  datatype World = World(disk: Disk, added: seq<string>, lastAdded: seq<string>)

  function AfterGrant(ours: seq<string>, w: World, f: Faults): World {
    var (d, answer) := Grant(ours, w.disk, f);
    World(d, if d.settings != w.disk.settings then w.added + Missing(Read(w.disk.settings).value.allow, ours) else w.added,
          if answer.Changed? then answer.rules else [])
  }

  function AfterWithdraw(ours: seq<string>, w: World, asked: Option<seq<string>>, f: Faults): World {
    var (d, _) := Withdraw(ours, w.disk, asked, f);
    World(d, if d.settings != w.disk.settings
             then Minus(w.added, Ours(ours, if asked.None? then Recorded(w.disk.record) else asked.value)) else w.added,
          w.lastAdded)
  }

  function AfterAct(ours: seq<string>, w: World, act: Act): World {
    match act
    case DoGrant(f) => AfterGrant(ours, w, f)
    case DoRevoke(f) => AfterWithdraw(ours, w, None, f)
    case DoRollback(f) => if w.lastAdded == [] then w else AfterWithdraw(ours, w, Some(w.lastAdded), f)
  }

  function AfterActs(ours: seq<string>, w: World, acts: seq<Act>): World
    decreases |acts|
  {
    if acts == [] then w else AfterAct(ours, AfterActs(ours, w, acts[..|acts| - 1]), acts[|acts| - 1])
  }

  /** A rule the user did not have: in the fixed set and not in the original list. */
  predicate Fresh(ours: seq<string>, orig: Doc, rule: string) { rule in ours && !HasRule(orig.allow, rule) }

  ghost predicate Inv(ours: seq<string>, orig: Doc, w: World) {
    && Read(w.disk.settings).Some?
    && !w.disk.record.Damaged?
    && SameElsewhere(orig, Read(w.disk.settings).value)
    && Read(w.disk.settings).value.allow == orig.allow + Entries(w.added)
    && (forall r :: r in w.added ==> r in Recorded(w.disk.record))
    && (forall r :: r in Recorded(w.disk.record) ==> Fresh(ours, orig, r))
    && (forall r :: r in w.lastAdded ==> Fresh(ours, orig, r))
  }

  lemma EntriesHave(rules: seq<string>, s: string)
    ensures HasRule(Entries(rules), s) <==> s in rules
  {
    assert forall i :: 0 <= i < |rules| ==> RuleOf(Entries(rules)[i]) == Some(rules[i]);
  }

  lemma HasRuleSplit(a: seq<Tokens>, b: seq<Tokens>, s: string)
    ensures HasRule(a + b, s) <==> HasRule(a, s) || HasRule(b, s)
  {
    HasRuleMore(a, b);
    if i :| 0 <= i < |b| && RuleOf(b[i]) == Some(s) {
      assert (a + b)[|a| + i] == b[i];
    }
  }

  /** What any grant leaves behind: both files consistent, the record never short. */
  lemma GrantOutcome(ours: seq<string>, d: Disk, f: Faults)
    requires Read(d.settings).Some? && !d.record.Damaged?
    ensures var (after, answer) := Grant(ours, d, f);
            var allow := Read(d.settings).value.allow;
            var changed := Missing(allow, ours);
            && !after.record.Damaged?
            && (answer.Changed? ==> answer.rules == changed)
            && (Recorded(after.record) == Recorded(d.record) || Recorded(after.record) == Union(Recorded(d.record), changed))
            && if after.settings == d.settings then answer.Changed? ==> changed == []
               else Landed(d, after, allow + Entries(changed)) && Recorded(after.record) == Union(Recorded(d.record), changed)
  {
    hide Read, Write, SameElsewhere, Missing, Union;
    if PlanEdit(d.settings, true, ours).Edited? {
      PlanPreserves(d.settings, true, ours);
    }
  }

  /** The settings file now reads back with list in place of the old list. */
  predicate Landed(before: Disk, after: Disk, list: seq<Tokens>) {
    && after.settings.Some? && Read(before.settings).Some? && Read(after.settings).Some?
    && Read(after.settings).value.allow == list
    && SameElsewhere(Read(before.settings).value, Read(after.settings).value)
  }

  lemma WithdrawOutcome(ours: seq<string>, d: Disk, asked: Option<seq<string>>, f: Faults)
    requires Read(d.settings).Some? && !d.record.Damaged?
    ensures var (after, answer) := Withdraw(ours, d, asked, f);
            var allow := Read(d.settings).value.allow;
            var wanted := Ours(ours, if asked.None? then Recorded(d.record) else asked.value);
            && !after.record.Damaged?
            && (after.settings == d.settings || Landed(d, after, Kept(allow, wanted)))
            && (Recorded(after.record) == Recorded(d.record) || Recorded(after.record) == Minus(Recorded(d.record), wanted))
            && (d.settings.Some? && (answer.Changed? || Recorded(after.record) != Recorded(d.record)) ==>
                after.settings != d.settings || Kept(allow, wanted) == allow)
            && (d.settings.None? ==> after == d)
  {
    hide Read, Write, SameElsewhere, Kept, Removed, Ours, WithdrawPlanned;
    if d.settings.Some? {
      var wanted := Ours(ours, if asked.None? then Recorded(d.record) else asked.value);
      var plan := PlanEdit(d.settings, false, wanted);
      PlannedCases(d, plan, Minus(Recorded(d.record), wanted),
        if asked.None? && Recorded(d.record) == [] then Removed(Read(d.settings).value.allow, ours) else [], f);
      if plan.Edited? {
        PlanPreserves(d.settings, false, wanted);
      } else {
        UnchangedKeepsAll(Read(d.settings).value.allow, wanted);
      }
    }
  }

  /** The record is touched, and success reported, only once the settings are written. */
  lemma PlannedCases(d: Disk, plan: Plan, rest: seq<string>, unrecorded: seq<string>, f: Faults)
    requires !d.record.Damaged?
    ensures var (after, answer) := WithdrawPlanned(d, plan, rest, unrecorded, f);
            && (after.record == d.record || after.record == RecordOf(rest))
            && (after.settings == d.settings || (plan.Edited? && after.settings == Some(plan.contents)))
            && (plan.Edited? && (answer.Changed? || after.record != d.record) ==> after.settings == Some(plan.contents))
  {
  }

  /** The rules a removal takes: those asked for, or all on record, that are ours. */
  predicate Taken(ours: seq<string>, d: Disk, asked: Option<seq<string>>, r: string) {
    r in ours && r in (if asked.None? then Recorded(d.record) else asked.value)
  }

  /** A removal that reports success leaves on record exactly the rules it did not take;
      a record it empties is no file any more. */
  lemma WithdrawRecord(ours: seq<string>, d: Disk, asked: Option<seq<string>>, f: Faults)
    requires d.settings.Some? && Withdraw(ours, d, asked, f).1.Changed?
    ensures var after := Withdraw(ours, d, asked, f).0;
            && (forall r :: r in Recorded(after.record) <==> r in Recorded(d.record) && !Taken(ours, d, asked, r))
            && (Recorded(after.record) == [] && d.record != Granted([]) ==> after.record.NoRecord?)
  {
    var wanted := Ours(ours, if asked.None? then Recorded(d.record) else asked.value);
    assert forall r :: Taken(ours, d, asked, r) <==> r in wanted;
    hide Read, Write, Kept, Removed, Taken, Ours, PlanEdit, WithdrawPlanned;
    PlannedRecord(d, PlanEdit(d.settings, false, wanted), Minus(Recorded(d.record), wanted),
      if asked.None? && Recorded(d.record) == [] then Removed(Read(d.settings).value.allow, ours) else [], f);
  }

  lemma PlannedRecord(d: Disk, plan: Plan, rest: seq<string>, unrecorded: seq<string>, f: Faults)
    requires WithdrawPlanned(d, plan, rest, unrecorded, f).1.Changed? && !d.record.Damaged?
    requires |rest| == |Recorded(d.record)| ==> rest == Recorded(d.record)
    ensures var after := WithdrawPlanned(d, plan, rest, unrecorded, f).0;
            Recorded(after.record) == rest && (rest == [] && d.record != Granted([]) ==> after.record.NoRecord?)
  {
  }

  /** A repository without a settings file is left untouched. */
  lemma NoSettings(ours: seq<string>, d: Disk, asked: Option<seq<string>>, f: Faults)
    requires d.settings.None?
    ensures Withdraw(ours, d, asked, f) == (d, Changed([], []))
  {
  }

  /** A Revoke that reports success leaves no record of rules of ours. */
  lemma RevokeEmptiesRecord(ours: seq<string>, d: Disk, f: Faults)
    requires d.settings.Some? && Withdraw(ours, d, None, f).1.Changed?
    requires d.record != Granted([]) && forall r :: r in Recorded(d.record) ==> r in ours
    ensures Withdraw(ours, d, None, f).0.record.NoRecord?
  {
    WithdrawRecord(ours, d, None, f);
    hide Withdraw;
    SomeTaken(Recorded(Withdraw(ours, d, None, f).0.record));
  }

  /** When a grant reports success, and what one that does not leaves behind: the
      settings as they were, and the record too unless restoring it failed as well. */
  lemma GrantFates(ours: seq<string>, d: Disk, f: Faults)
    requires Read(d.settings).Some? && !d.record.Damaged?
    ensures var (after, answer) := Grant(ours, d, f);
            var due := exists r :: r in ours && !Allowed(d, r);
            && (answer.Changed? <==> (due ==> f.first.Done? && f.second.Done?))
            && (answer.Crashed? <==>
                due && (f.first.Died? || (f.first.Done? && (f.second.Died? || (f.second.Failed? && f.third.Died?)))))
            && !answer.Refusal?
            && (answer.Changed? ==> (forall r :: r in ours ==> Allowed(after, r)) && answer.unrecorded == [])
            && (!answer.Changed? ==> after.settings == d.settings)
            && (!answer.Changed? && (!f.first.Done? || (f.second.Failed? && f.third.Done?)) ==>
                Recorded(after.record) == Recorded(d.record))
            && (!due ==> after == d)
  {
    hide Read, Write, SameElsewhere, Missing, Union, HasRule, RuleOf;
    var allow := Read(d.settings).value.allow;
    MissingExact(allow, ours);
    assert Missing(allow, ours) != [] ==> Missing(allow, ours)[0] in Missing(allow, ours);
    GrantOutcome(ours, d, f);
    forall r | r in ours ensures HasRule(allow + Entries(Missing(allow, ours)), r) {
      HasRuleSplit(allow, Entries(Missing(allow, ours)), r);
      EntriesHave(Missing(allow, ours), r);
    }
  }

  lemma PlannedExact(d: Disk, plan: Plan, rest: seq<string>, unrecorded: seq<string>, f: Faults)
    ensures var (after, answer) := WithdrawPlanned(d, plan, rest, unrecorded, f);
            var written, shrinks := plan.Edited? ==> f.first.Done?, |rest| != |Recorded(d.record)|;
            && (answer.Changed? <==> written && (shrinks ==> f.second.Done?))
            && (answer.Crashed? <==> (plan.Edited? && f.first.Died?) || (written && shrinks && f.second.Died?))
            && !answer.Refusal?
            && (answer.Changed? ==> answer.rules == if plan.Edited? then plan.rules else [])
            && (!written ==> after == d) && (!answer.Changed? ==> after.record == d.record)
            && (!plan.Edited? ==> after.settings == d.settings)
  {
  }

  lemma WithdrawCases(ours: seq<string>, d: Disk, asked: Option<seq<string>>, f: Faults)
    requires d.settings.Some? && Read(d.settings).Some? && !d.record.Damaged?
    ensures var (after, answer) := Withdraw(ours, d, asked, f);
            var wanted := Ours(ours, if asked.None? then Recorded(d.record) else asked.value);
            var gone := Removed(Read(d.settings).value.allow, wanted);
            var written, shrinks := gone != [] ==> f.first.Done?, Minus(Recorded(d.record), wanted) != Recorded(d.record);
            && (answer.Changed? <==> written && (shrinks ==> f.second.Done?))
            && (answer.Crashed? <==> (gone != [] && f.first.Died?) || (written && shrinks && f.second.Died?))
            && !answer.Refusal?
            && (answer.Changed? ==> answer.rules == gone)
            && (!written ==> after == d) && (!answer.Changed? ==> after.record == d.record)
            && (gone == [] ==> after.settings == d.settings)
  {
    hide Read, Write, Kept, Removed, Ours, WithdrawPlanned;
    var wanted := Ours(ours, if asked.None? then Recorded(d.record) else asked.value);
    PlannedExact(d, PlanEdit(d.settings, false, wanted), Minus(Recorded(d.record), wanted),
      if asked.None? && Recorded(d.record) == [] then Removed(Read(d.settings).value.allow, ours) else [], f);
  }

  /** When a removal reports success, and that one whose settings write fails changes
      nothing at all. */
  lemma WithdrawFates(ours: seq<string>, d: Disk, asked: Option<seq<string>>, f: Faults)
    requires d.settings.Some? && Read(d.settings).Some? && !d.record.Damaged?
    ensures var (after, answer) := Withdraw(ours, d, asked, f);
            var present := exists r :: Taken(ours, d, asked, r) && Allowed(d, r);
            var recorded := exists r :: Taken(ours, d, asked, r) && r in Recorded(d.record);
            && (answer.Changed? <==> (present ==> f.first.Done?) && (recorded ==> f.second.Done?))
            && (answer.Crashed? <==> (present && f.first.Died?) || ((present ==> f.first.Done?) && recorded && f.second.Died?))
            && !answer.Refusal?
            && (answer.Changed? ==> forall r :: r in answer.rules <==> Taken(ours, d, asked, r) && Allowed(d, r))
            && (present && !f.first.Done? ==> after == d)
            && (!answer.Changed? ==> after.record == d.record)
            && (!present ==> after.settings == d.settings)
  {
    var wanted := Ours(ours, if asked.None? then Recorded(d.record) else asked.value);
    WithdrawCases(ours, d, asked, f);
    assert forall r :: Taken(ours, d, asked, r) <==> r in wanted;
    var gone := Removed(Read(d.settings).value.allow, wanted);
    assert forall r :: r in gone <==> r in wanted && Allowed(d, r);
    hide Withdraw, Read, Taken, Ours, Allowed, Removed, Minus, Recorded;
    SomeTaken(gone);
    MinusSame(Recorded(d.record), wanted);
  }

  lemma SomeTaken(s: seq<string>)
    ensures s != [] <==> exists r :: r in s
  {
    assert s != [] ==> s[|s| - 1] in s;
  }

  lemma {:induction false} MinusSame(rules: seq<string>, gone: seq<string>)
    ensures Minus(rules, gone) != rules <==> exists r :: r in gone && r in rules
    decreases |rules|
  {
    if rules != [] {
      var init, last := rules[..|rules| - 1], rules[|rules| - 1];
      assert rules == init + [last];
      MinusSame(init, gone);
    }
  }

  /** Exactly what refuses a grant and a removal; a refusal writes nothing. */
  lemma RefusedExact(ours: seq<string>, d: Disk, asked: Option<seq<string>>, f: Faults)
    ensures var unfit := d.record.Damaged? || Read(d.settings).None?;
            && (Grant(ours, d, f).1.Refusal? <==> unfit)
            && (Withdraw(ours, d, asked, f).1.Refusal? <==> d.settings.Some? && unfit)
            && (Grant(ours, d, f).1.Refusal? ==> Grant(ours, d, f).0 == d)
            && (Withdraw(ours, d, asked, f).1.Refusal? ==> Withdraw(ours, d, asked, f).0 == d)
  {
    hide Read, Write, Kept, Removed, Missing, Minus, Ours, Union;
  }

  /** The preflight foretells a refusal of the grant except when there is no settings
      file and the record is damaged: then it passes and the grant is refused. */
  lemma PreflightExact(ours: seq<string>, d: Disk, f: Faults)
    ensures (Preflight(d) <==> !Grant(ours, d, f).1.Refusal?) <==> !(d.settings.None? && d.record.Damaged?)
  {
    RefusedExact(ours, d, None, f);
    hide Grant;
    EmptyRead();
  }

  lemma PreflightCounterexample(f: Faults)
    ensures var d := Disk(None, Damaged); Preflight(d) && Grant(RULES, d, f).1.Refusal?
  {
    PreflightExact(RULES, Disk(None, Damaged), f);
    hide Grant;
  }

  /** Grant on a list made of the user's entries and ours adds only ours. */
  lemma GrantKeeps(ours: seq<string>, orig: Doc, w: World, f: Faults)
    requires Inv(ours, orig, w)
    ensures Inv(ours, orig, AfterGrant(ours, w, f))
  {
    hide Read, Grant, Missing, SameElsewhere, HasRule;
    var doc := Read(w.disk.settings).value;
    var changed := Missing(doc.allow, ours);
    var (after, answer) := Grant(ours, w.disk, f);
    GrantOutcome(ours, w.disk, f);
    MissingExact(doc.allow, ours);
    forall r | r in changed ensures Fresh(ours, orig, r) {
      HasRuleSplit(orig.allow, Entries(w.added), r);
    }
    if after.settings != w.disk.settings {
      SameTrans(orig, doc, Read(after.settings).value);
      EntriesJoin(orig.allow, w.added, changed);
    }
  }

  lemma EntriesJoin(front: seq<Tokens>, a: seq<string>, b: seq<string>)
    ensures front + Entries(a) + Entries(b) == front + Entries(a + b)
  {
  }

  /** The new list landed: our entries shrink, and so may the record. */
  lemma ShrunkKeeps(ours: seq<string>, orig: Doc, w: World, wanted: seq<string>, after: Disk)
    requires Inv(ours, orig, w) && !after.record.Damaged?
    requires forall r :: r in wanted ==> Fresh(ours, orig, r)
    requires Landed(w.disk, after, Kept(Read(w.disk.settings).value.allow, wanted))
    requires Recorded(after.record) == Recorded(w.disk.record) || Recorded(after.record) == Minus(Recorded(w.disk.record), wanted)
    ensures Inv(ours, orig, World(after, Minus(w.added, wanted), w.lastAdded))
  {
    hide Read, Kept, SameElsewhere, HasRule, Fresh, Entries;
    KeptOurs(ours, orig, w.added, wanted);
    SameTrans(orig, Read(w.disk.settings).value, Read(after.settings).value);
  }

  /** The list stayed: the record shrinks only when none of wanted is in the list. */
  lemma StayedKeeps(ours: seq<string>, orig: Doc, w: World, wanted: seq<string>, after: Disk)
    requires Inv(ours, orig, w) && !after.record.Damaged? && after.settings == w.disk.settings
    requires forall r :: r in wanted ==> Fresh(ours, orig, r)
    requires Recorded(after.record) == Recorded(w.disk.record)
             || (Recorded(after.record) == Minus(Recorded(w.disk.record), wanted)
                 && Kept(Read(w.disk.settings).value.allow, wanted) == Read(w.disk.settings).value.allow)
    ensures Inv(ours, orig, World(after, w.added, w.lastAdded))
  {
    hide Read, Kept, SameElsewhere, HasRule, Fresh, Entries;
    if Recorded(after.record) != Recorded(w.disk.record) {
      KeptOurs(ours, orig, w.added, wanted);
      EntriesInjective(orig.allow, w.added, Minus(w.added, wanted));
    }
  }

  lemma WithdrawKeeps(ours: seq<string>, orig: Doc, w: World, asked: Option<seq<string>>, f: Faults)
    requires Inv(ours, orig, w)
    requires asked.Some? ==> forall r :: r in asked.value ==> Fresh(ours, orig, r)
    ensures Inv(ours, orig, AfterWithdraw(ours, w, asked, f))
  {
    var wanted := Ours(ours, if asked.None? then Recorded(w.disk.record) else asked.value);
    var after := Withdraw(ours, w.disk, asked, f).0;
    WithdrawOutcome(ours, w.disk, asked, f);
    assert forall r :: r in wanted ==> Fresh(ours, orig, r);
    assert Read(w.disk.settings).Some?;
    hide Read, Withdraw, Kept, Inv, Landed, Ours, Minus, Fresh;
    if after.settings != w.disk.settings {
      ShrunkKeeps(ours, orig, w, wanted, after);
    } else {
      StayedKeeps(ours, orig, w, wanted, after);
    }
  }

  /** Rolling back what the last grant reported, after which nothing is left to roll back. */
  lemma RollbackKeeps(ours: seq<string>, orig: Doc, w: World, f: Faults)
    requires Inv(ours, orig, w)
    ensures Inv(ours, orig, AfterWithdraw(ours, w, Some(w.lastAdded), f))
    ensures Inv(ours, orig, AfterWithdraw(ours, w, Some(w.lastAdded), f).(lastAdded := []))
  {
    WithdrawKeeps(ours, orig, w, Some(w.lastAdded), f);
    hide AfterWithdraw, Fresh, Entries, SameElsewhere;
  }

  lemma EntriesInjective(front: seq<Tokens>, a: seq<string>, b: seq<string>)
    requires front + Entries(a) == front + Entries(b)
    ensures a == b
  {
    var x, y := front + Entries(a), front + Entries(b);
    assert |x| == |front| + |a| && |y| == |front| + |b|;
    forall i | 0 <= i < |a| ensures a[i] == b[i] {
      assert x[|front| + i] == Entry(a[i]) && y[|front| + i] == Entry(b[i]);
    }
  }

  /** Removing fresh rules takes out our entries and none of the user's. */
  lemma KeptOurs(ours: seq<string>, orig: Doc, added: seq<string>, wanted: seq<string>)
    requires forall r :: r in wanted ==> Fresh(ours, orig, r)
    ensures Kept(orig.allow + Entries(added), wanted) == orig.allow + Entries(Minus(added, wanted))
  {
    KeptAppend(orig.allow, Entries(added), wanted);
    KeptAll(orig.allow, wanted);
    KeptEntries(added, wanted);
  }

  lemma ActKeeps(ours: seq<string>, orig: Doc, w: World, act: Act)
    requires Inv(ours, orig, w)
    ensures Inv(ours, orig, AfterAct(ours, w, act))
  {
    hide Inv, AfterGrant, AfterWithdraw;
    match act
    case DoGrant(f) => GrantKeeps(ours, orig, w, f);
    case DoRevoke(f) => WithdrawKeeps(ours, orig, w, None, f);
    case DoRollback(f) => RollbackKeeps(ours, orig, w, f);
  }

  lemma {:induction false} ActsKeep(ours: seq<string>, orig: Doc, w: World, acts: seq<Act>)
    requires Inv(ours, orig, w)
    ensures Inv(ours, orig, AfterActs(ours, w, acts))
    decreases |acts|
  {
    hide Inv, AfterAct;
    if acts != [] {
      ActsKeep(ours, orig, w, acts[..|acts| - 1]);
      ActKeeps(ours, orig, AfterActs(ours, w, acts[..|acts| - 1]), acts[|acts| - 1]);
    }
  }

  ghost predicate Untouched(d: Disk, w: World) {
    w.disk == d && w.added == [] && w.lastAdded == [] && Read(d.settings).Some? && Recorded(d.record) == [] && !d.record.Damaged?
  }

  /** Crash safety over whole histories: at every point each rule beadle has in the
      list is recorded, the user's entries stand unchanged in front of ours, and the
      rest of the document is untouched. */
  lemma CrashSafety(ours: seq<string>, d: Disk, w: World, acts: seq<Act>)
    requires Untouched(d, w)
    ensures var now := AfterActs(ours, w, acts);
            && (forall r :: r in now.added ==> r in Recorded(now.disk.record))
            && Read(now.disk.settings).Some?
            && Read(now.disk.settings).value.allow == Read(d.settings).value.allow + Entries(now.added)
            && SameElsewhere(Read(d.settings).value, Read(now.disk.settings).value)
  {
    Start(ours, d, w);
    ActsKeep(ours, Read(d.settings).value, w, acts);
  }

  /** While every rule of ours in the list is on record, a Revoke that reports success
      takes all of them out again. */
  lemma RevokeFrom(ours: seq<string>, orig: Doc, w: World, f: Faults)
    requires Inv(ours, orig, w) && Withdraw(ours, w.disk, None, f).1.Changed?
    ensures var (last, _) := Withdraw(ours, w.disk, None, f);
            && Read(last.settings).Some? && Read(last.settings).value.allow == orig.allow
            && SameElsewhere(orig, Read(last.settings).value)
  {
    hide Withdraw, Kept, SameElsewhere, HasRule;
    var wanted := Ours(ours, Recorded(w.disk.record));
    var last := Withdraw(ours, w.disk, None, f).0;
    WithdrawOutcome(ours, w.disk, None, f);
    KeptOurs(ours, orig, w.added, wanted);
    AllGone(w.added, wanted);
    assert orig.allow + Entries([]) == orig.allow;
    if w.disk.settings.None? {
      assert |orig.allow + Entries(w.added)| == 0;
    } else if last.settings != w.disk.settings {
      SameTrans(orig, Read(w.disk.settings).value, Read(last.settings).value);
    }
  }

  /** After any history a Revoke that reports success leaves the very list, as a
      sequence, that was there before beadle came. */
  lemma RevokeRestores(ours: seq<string>, d: Disk, w: World, acts: seq<Act>, f: Faults)
    requires Untouched(d, w)
    requires Withdraw(ours, AfterActs(ours, w, acts).disk, None, f).1.Changed?
    ensures var (last, _) := Withdraw(ours, AfterActs(ours, w, acts).disk, None, f);
            && Read(last.settings).Some?
            && Read(last.settings).value.allow == Read(d.settings).value.allow
            && SameElsewhere(Read(d.settings).value, Read(last.settings).value)
  {
    Start(ours, d, w);
    ActsKeep(ours, Read(d.settings).value, w, acts);
    hide Withdraw, Inv, Untouched, AfterActs, Read, SameElsewhere;
    RevokeFrom(ours, Read(d.settings).value, AfterActs(ours, w, acts), f);
  }

  lemma Start(ours: seq<string>, d: Disk, w: World)
    requires Untouched(d, w)
    ensures Inv(ours, Read(d.settings).value, w)
  {
    var orig := Read(d.settings).value;
    assert orig.allow + Entries([]) == orig.allow;
  }

  lemma SameTrans(a: Doc, b: Doc, c: Doc)
    requires SameElsewhere(a, b) && SameElsewhere(b, c)
    ensures SameElsewhere(a, c)
  {
  }

  lemma AllGone(rules: seq<string>, gone: seq<string>)
    requires forall r :: r in rules ==> r in gone
    ensures Minus(rules, gone) == []
  {
    if Minus(rules, gone) != [] {
      assert Minus(rules, gone)[0] in Minus(rules, gone);
    }
  }

  /** A grant rolled back in full gives back the list it found. */
  lemma RollbackUndoesGrant(ours: seq<string>, before: Disk, f: Faults, g: Faults)
    requires Grant(ours, before, f).1.Changed? && Grant(ours, before, f).1.rules != []
    requires Withdraw(ours, Grant(ours, before, f).0, Some(Grant(ours, before, f).1.rules), g).1.Changed?
    ensures var back := Withdraw(ours, Grant(ours, before, f).0, Some(Grant(ours, before, f).1.rules), g).0;
            Read(before.settings).Some? && Read(back.settings).Some?
            && Read(back.settings).value.allow == Read(before.settings).value.allow
  {
    assert Read(before.settings).Some? && !before.record.Damaged?;
    hide Grant, Withdraw, Read, Kept, SameElsewhere, HasRule;
    var doc := Read(before.settings).value;
    var (d, answer) := Grant(ours, before, f);
    GrantOutcome(ours, before, f);
    MissingExact(doc.allow, ours);
    WithdrawOutcome(ours, d, Some(answer.rules), g);
    var wanted := Ours(ours, answer.rules);
    KeptOurs(ours, doc, answer.rules, wanted);
    AllGone(answer.rules, wanted);
    assert doc.allow + Entries([]) == doc.allow;
  }

  /** No grant and no removal touches anything else in settings.json. */
  lemma EditsKeepRest(ours: seq<string>, d: Disk, asked: Option<seq<string>>, f: Faults)
    requires Read(d.settings).Some? && !d.record.Damaged?
    ensures var on, off := Grant(ours, d, f).0, Withdraw(ours, d, asked, f).0;
            && Read(on.settings).Some? && SameElsewhere(Read(d.settings).value, Read(on.settings).value)
            && Read(off.settings).Some? && SameElsewhere(Read(d.settings).value, Read(off.settings).value)
            && !on.record.Damaged? && !off.record.Damaged?
  {
    GrantOutcome(ours, d, f);
    WithdrawOutcome(ours, d, asked, f);
    hide Grant, Withdraw, Read, Kept, Missing;
  }

  predicate Allowed(d: Disk, rule: string) {
    Read(d.settings).Some? && HasRule(Read(d.settings).value.allow, rule)
  }

  /** A revoke that succeeds leaves none of our recorded rules allowed. */
  lemma RevokeClears(ours: seq<string>, d: Disk, f: Faults, r: string)
    requires Withdraw(ours, d, None, f).1.Changed?
    requires r in ours && r in Recorded(d.record)
    ensures !Allowed(Withdraw(ours, d, None, f).0, r)
  {
    assert d.settings.Some? ==> Read(d.settings).Some? && !d.record.Damaged?;
    if d.settings.Some? {
      hide Withdraw, Read, Kept, HasRule, Ours;
      var allow := Read(d.settings).value.allow;
      var wanted := Ours(ours, Recorded(d.record));
      WithdrawOutcome(ours, d, None, f);
      KeptNone(allow, wanted, r);
    }
  }

  lemma NothingRecorded(ours: seq<string>, d: Disk, f: Faults)
    requires Recorded(d.record) == [] && Withdraw(ours, d, None, f).1.Changed?
    ensures Read(d.settings).Some?
    ensures Withdraw(ours, d, None, f) == (d, Changed([], Removed(Read(d.settings).value.allow, ours)))
  {
    hide Read, Write, Kept, Removed, Missing, HasRule;
    if d.settings.None? {
      EmptyRead();
    } else if Read(d.settings).Some? {
      NoneRemoved(Read(d.settings).value.allow, Ours(ours, []));
    }
  }

  lemma EmptyRead()
    ensures Read(None).Some? && forall rules :: Removed(Read(None).value.allow, rules) == []
  {
  }

  lemma SomethingRecorded(ours: seq<string>, d: Disk, f: Faults)
    requires Recorded(d.record) != [] && Withdraw(ours, d, None, f).1.Changed?
    ensures Read(d.settings).Some? && Withdraw(ours, d, None, f).1.unrecorded == []
  {
    hide Write, Kept, Removed, Missing, HasRule, Minus, Ours;
  }

  /** With nothing on record a Revoke that succeeds writes nothing, and reports
      exactly the rules of the fixed set that are allowed; otherwise it reports none. */
  lemma StrayRulesReported(ours: seq<string>, d: Disk, f: Faults)
    requires Withdraw(ours, d, None, f).1.Changed?
    ensures var (after, answer) := Withdraw(ours, d, None, f);
            && Read(d.settings).Some?
            && if Recorded(d.record) == [] then
                 && after == d && answer.rules == []
                 && forall s :: s in answer.unrecorded <==> s in ours && HasRule(Read(d.settings).value.allow, s)
               else answer.unrecorded == []
  {
    hide Withdraw, Read, HasRule, Recorded;
    if Recorded(d.record) == [] {
      NothingRecorded(ours, d, f);
    } else {
      SomethingRecorded(ours, d, f);
    }
  }

  /** A file beadle cannot read is never edited, nor is its record. */
  lemma {:induction false} UnreadableUntouched(ours: seq<string>, w: World, acts: seq<Act>)
    requires Read(w.disk.settings).None?
    ensures AfterActs(ours, w, acts).disk == w.disk
    decreases |acts|
  {
    if acts != [] {
      UnreadableUntouched(ours, w, acts[..|acts| - 1]);
    }
  }
}
