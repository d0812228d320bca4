/** The allow list inside settings.json: reading it, editing it, and writing the
    document back with everything else as it was. */
module Settings {
  import opened Basics
  import opened JsonTokens

  const RULES := [
    "mcp__plugin_beadle_email__*", "mcp__beadle-email__*", "Bash(beadle-email:*)", "Skill(beadle)",
    "Skill(contacts)", "Skill(inbox)", "Skill(mail)", "Skill(send)"
  ]

  function FirstAt(ms: seq<Member>, key: string, i: nat): (at: nat)
    requires i <= |ms|
    ensures i <= at <= |ms|
    ensures forall k :: i <= k < at ==> ms[k].key != key
    ensures at < |ms| ==> ms[at].key == key
    decreases |ms| - i
  {
    if i == |ms| || ms[i].key == key then i else FirstAt(ms, key, i + 1)
  }

  /** The index of key, |ms| when absent, None when it is duplicated. */
  function Find(ms: seq<Member>, key: string): Option<nat> {
    var at := FirstAt(ms, key, 0);
    if at < |ms| && FirstAt(ms, key, at + 1) < |ms| then None else Some(at)
  }

  function Set(ms: seq<Member>, key: string, val: Tokens): seq<Member> {
    var at := FirstAt(ms, key, 0);
    if at < |ms| then ms[at := Member(key, val)] else ms + [Member(key, val)]
  }

  /** The members of an object under any other key. */
  function Others(ms: seq<Member>, key: string): seq<Member>
    decreases |ms|
  {
    if ms == [] then []
    else Others(ms[..|ms| - 1], key) + (if ms[|ms| - 1].key == key then [] else [ms[|ms| - 1]])
  }

  function Keys(ms: seq<Member>): seq<string> { seq(|ms|, i requires 0 <= i < |ms| => ms[i].key) }

  method FindKey(ms: seq<Member>, key: string) returns (r: Option<nat>)
    ensures r == Find(ms, key)
  {
    var at := |ms|;
    for i := 0 to |ms|
      invariant at <= |ms|
      invariant at < |ms| ==> at < i && at == FirstAt(ms, key, 0) && forall k :: at < k < i ==> ms[k].key != key
      invariant at == |ms| ==> forall k :: 0 <= k < i ==> ms[k].key != key
    {
      if ms[i].key == key {
        if at < |ms| {
          assert FirstAt(ms, key, at + 1) == i;
          return None;
        }
        assert FirstAt(ms, key, 0) == i;
        at := i;
      }
    }
    if at == |ms| {
      assert FirstAt(ms, key, 0) == at;
    } else {
      assert FirstAt(ms, key, at + 1) == |ms|;
    }
    r := Some(at);
  }

  /** Overwrites the value in place when the key is there. */
  method SetKey(ms: array<Member>, key: string, val: Tokens) returns (found: bool)
    modifies ms
    ensures found <==> exists i :: 0 <= i < ms.Length && old(ms[i].key) == key
    ensures found ==> ms[..] == Set(old(ms[..]), key, val)
    ensures !found ==> ms[..] == old(ms[..]) && Set(old(ms[..]), key, val) == ms[..] + [Member(key, val)]
  {
    ghost var was := ms[..];
    for i := 0 to ms.Length
      invariant ms[..] == was && forall k :: 0 <= k < i ==> was[k].key != key
    {
      if ms[i].key == key {
        assert was[i].key == key && FirstAt(was, key, 0) == i;
        ms[i] := Member(ms[i].key, val);
        return true;
      }
    }
    assert FirstAt(was, key, 0) == |was|;
    found := false;
  }

  // --- reading and writing the document ---------------------------------------

  datatype Doc = Doc(top: seq<Member>, perms: seq<Member>, allow: seq<Tokens>)

  /** None where the source refuses: not an object, a duplicated key, permissions
      not an object, allow not a list. A missing file reads as empty. */
  function Read(data: Option<Tokens>): Option<Doc> {
    var top := if data.None? then Some([]) else ParseObject(data.value);
    if top.None? then None else
    var permsAt := Find(top.value, "permissions");
    if permsAt.None? then None else
    var perms := if permsAt.value == |top.value| then Some([]) else ParseObject(top.value[permsAt.value].val);
    if perms.None? then None else
    var allowAt := Find(perms.value, "allow");
    if allowAt.None? then None else
    var allow := if allowAt.value == |perms.value| then Some([]) else ParseArray(perms.value[allowAt.value].val);
    if allow.None? then None else Some(Doc(top.value, perms.value, allow.value))
  }

  function NewPerms(doc: Doc, allow: seq<Tokens>): seq<Member> { Set(doc.perms, "allow", EncodeArray(allow)) }

  function NewTop(doc: Doc, allow: seq<Tokens>): seq<Member> {
    Set(doc.top, "permissions", EncodeObject(NewPerms(doc, allow)))
  }

  function Write(doc: Doc, allow: seq<Tokens>): Tokens { EncodeObject(NewTop(doc, allow)) }

  predicate ValidDoc(doc: Doc) {
    ValidMembers(doc.top) && ValidMembers(doc.perms) && ValidElements(doc.allow)
    && Find(doc.top, "permissions").Some? && Find(doc.perms, "allow").Some?
  }

  lemma ReadValid(data: Option<Tokens>)
    requires Read(data).Some?
    ensures ValidDoc(Read(data).value)
  {
    var doc := Read(data).value;
    if data.Some? {
      ParsedValid(data.value[1..], true);
    }
    var permsAt, allowAt := Find(doc.top, "permissions").value, Find(doc.perms, "allow").value;
    if permsAt < |doc.top| {
      ParsedValid(doc.top[permsAt].val[1..], true);
    }
    if allowAt < |doc.perms| {
      ParsedElementsValid(doc.perms[allowAt].val[1..], true);
    }
  }

  lemma SetFound(ms: seq<Member>, key: string, val: Tokens)
    requires ValidMembers(ms) && Find(ms, key).Some? && Value(val)
    ensures var after := Set(ms, key, val);
            var at := FirstAt(ms, key, 0);
            ValidMembers(after) && Find(after, key) == Some(at) && at < |after| && after[at] == Member(key, val)
  {
    hide Value;
    var after, at := Set(ms, key, val), FirstAt(ms, key, 0);
    assert at < |ms| ==> FirstAt(ms, key, at + 1) == |ms|;
    assert FirstAt(after, key, 0) == at by {
      assert after[at].key == key;
      assert forall k :: 0 <= k < at ==> after[k] == ms[k];
    }
    assert FirstAt(after, key, at + 1) == |after| by {
      assert forall k :: at < k < |after| ==> after[k] == ms[k];
    }
  }

  /** Writing a new list and reading the file back gives the document with just
      that list replaced. */
  lemma ReadWrite(doc: Doc, allow: seq<Tokens>)
    requires ValidDoc(doc) && ValidElements(allow)
    ensures Read(Some(Write(doc, allow))) == Some(Doc(NewTop(doc, allow), NewPerms(doc, allow), allow))
    ensures ValidDoc(Doc(NewTop(doc, allow), NewPerms(doc, allow), allow))
  {
    ArrayRoundTrip(allow);
    SetFound(doc.perms, "allow", EncodeArray(allow));
    ObjectIsValue(NewPerms(doc, allow));
    ObjectRoundTrip(NewPerms(doc, allow));
    SetFound(doc.top, "permissions", EncodeObject(NewPerms(doc, allow)));
    ObjectRoundTrip(NewTop(doc, allow));
  }

  /** The members of ms under key are those at the places in at. */
  predicate KeyAt(ms: seq<Member>, key: string, at: set<nat>) {
    forall i: nat :: i < |ms| ==> (ms[i].key == key <==> i in at)
  }

  lemma FindExact(ms: seq<Member>, key: string, i: nat)
    requires i < |ms| && ms[i].key == key
    ensures Find(ms, key) == if KeyAt(ms, key, {i}) then Some(i) else None
  {
    if KeyAt(ms, key, {i}) {
      assert FirstAt(ms, key, 0) == i && FirstAt(ms, key, i + 1) == |ms|;
    }
  }

  /** A written document is read back as its members, those of its "permissions" object
      and the entries of the "allow" list in it. */
  lemma ReadForm(top: seq<Member>, i: nat, perms: seq<Member>, j: nat, allow: seq<Tokens>)
    requires ValidMembers(top) && ValidMembers(perms) && ValidElements(allow)
    requires i < |top| && KeyAt(top, "permissions", {i}) && top[i].val == EncodeObject(perms)
    requires j < |perms| && KeyAt(perms, "allow", {j}) && perms[j].val == EncodeArray(allow)
    ensures Read(Some(EncodeObject(top))) == Some(Doc(top, perms, allow))
  {
    ObjectRoundTrip(top);
    ObjectRoundTrip(perms);
    ArrayRoundTrip(allow);
    FindExact(top, "permissions", i);
    FindExact(perms, "allow", j);
  }

  lemma FindAbsent(ms: seq<Member>, key: string)
    requires KeyAt(ms, key, {})
    ensures Find(ms, key) == Some(|ms|)
  {
  }

  /** Without such an object, or without such a list in it, the list is empty. */
  lemma ReadNone(top: seq<Member>, i: nat, perms: seq<Member>)
    requires ValidMembers(top) && ValidMembers(perms) && KeyAt(perms, "allow", {})
    requires if i < |top| then KeyAt(top, "permissions", {i}) && top[i].val == EncodeObject(perms)
             else KeyAt(top, "permissions", {}) && perms == []
    ensures Read(Some(EncodeObject(top))) == Some(Doc(top, perms, []))
  {
    hide ParseObject, ParseArray, EncodeObject, ValidMembers, Find;
    ObjectRoundTrip(top);
    ObjectRoundTrip(perms);
    FindAbsent(perms, "allow");
    if i < |top| {
      assert top[i].key == "permissions";
      FindExact(top, "permissions", i);
    } else {
      FindAbsent(top, "permissions");
    }
  }

  /** A duplicated key on the way to the list, or a value of another kind, is refused. */
  lemma ReadRefuses(top: seq<Member>, i: nat, perms: seq<Member>, j: nat)
    requires ValidMembers(top) && i < |top| && top[i].key == "permissions"
    requires !KeyAt(top, "permissions", {i}) || ParseObject(top[i].val).None?
             || (ValidMembers(perms) && top[i].val == EncodeObject(perms) && j < |perms| && perms[j].key == "allow"
                 && (!KeyAt(perms, "allow", {j}) || ParseArray(perms[j].val).None?))
    ensures Read(Some(EncodeObject(top))).None?
  {
    ObjectRoundTrip(top);
    FindExact(top, "permissions", i);
    hide ParseObject, ParseArray, EncodeObject, ValidMembers, KeyAt, Find;
    if KeyAt(top, "permissions", {i}) && ParseObject(top[i].val).Some? {
      ObjectRoundTrip(perms);
      FindExact(perms, "allow", j);
    }
  }

  /** Same members outside permissions.allow, token for token and in the same
      order; a key can only have been added at the end. */
  predicate SameElsewhere(a: Doc, b: Doc) {
    && Others(a.top, "permissions") == Others(b.top, "permissions")
    && Others(a.perms, "allow") == Others(b.perms, "allow")
    && Keys(a.top) <= Keys(b.top) && Keys(a.perms) <= Keys(b.perms)
  }

  lemma {:induction false} OthersSet(ms: seq<Member>, at: nat, m: Member)
    requires at < |ms| && ms[at].key == m.key
    ensures Others(ms[at := m], m.key) == Others(ms, m.key)
    decreases |ms|
  {
    var n := |ms| - 1;
    if at < n {
      OthersSet(ms[..n], at, m);
      assert ms[at := m][..n] == ms[..n][at := m];
    } else {
      assert ms[at := m][..n] == ms[..n];
    }
  }

  lemma SetSame(ms: seq<Member>, key: string, val: Tokens)
    ensures Others(Set(ms, key, val), key) == Others(ms, key)
    ensures Keys(ms) <= Keys(Set(ms, key, val))
  {
    var at := FirstAt(ms, key, 0);
    if at < |ms| {
      OthersSet(ms, at, Member(key, val));
    } else {
      assert (ms + [Member(key, val)])[..|ms|] == ms;
    }
  }

  lemma WriteSame(doc: Doc, allow: seq<Tokens>)
    ensures SameElsewhere(doc, Doc(NewTop(doc, allow), NewPerms(doc, allow), allow))
  {
    SetSame(doc.perms, "allow", EncodeArray(allow));
    SetSame(doc.top, "permissions", EncodeObject(NewPerms(doc, allow)));
  }

  // --- editing the list --------------------------------------------------------

  /** The string an entry decodes to: null decodes to the empty string. */
  function RuleOf(v: Tokens): Option<string> {
    if |v| == 1 && v[0].Str? then Some(v[0].text) else if v == [Null] then Some("") else None
  }

  function Entry(rule: string): Tokens { [Str(rule, Canonical)] }

  function Entries(rules: seq<string>): seq<Tokens> { seq(|rules|, i requires 0 <= i < |rules| => Entry(rules[i])) }

  predicate HasRule(allow: seq<Tokens>, rule: string) {
    exists i :: 0 <= i < |allow| && RuleOf(allow[i]) == Some(rule)
  }

  predicate Listed(v: Tokens, rules: seq<string>) { RuleOf(v).Some? && RuleOf(v).value in rules }

  /** The rules an addition appends, in order. */
  function Missing(allow: seq<Tokens>, rules: seq<string>): seq<string>
    decreases |rules|
  {
    if rules == [] then []
    else if HasRule(allow, rules[0]) then Missing(allow, rules[1..])
    else [rules[0]] + Missing(allow + [Entry(rules[0])], rules[1..])
  }

  function Kept(allow: seq<Tokens>, rules: seq<string>): seq<Tokens>
    decreases |allow|
  {
    if allow == [] then []
    else
      var n := |allow| - 1;
      Kept(allow[..n], rules) + (if Listed(allow[n], rules) then [] else [allow[n]])
  }

  /** The rules a removal takes out, each once, in order of first appearance. */
  function Removed(allow: seq<Tokens>, rules: seq<string>): (r: seq<string>)
    ensures forall s :: s in r <==> s in rules && HasRule(allow, s)
    decreases |allow|
  {
    if allow == [] then []
    else
      var n := |allow| - 1;
      var before := Removed(allow[..n], rules);
      assert forall s :: HasRule(allow[..n], s) ==> HasRule(allow, s) by {
        forall s | HasRule(allow[..n], s) ensures HasRule(allow, s) {
          var i :| 0 <= i < n && RuleOf(allow[..n][i]) == Some(s);
          assert RuleOf(allow[i]) == Some(s);
        }
      }
      assert forall s :: HasRule(allow, s) ==> HasRule(allow[..n], s) || RuleOf(allow[n]) == Some(s) by {
        forall s | HasRule(allow, s) && RuleOf(allow[n]) != Some(s) ensures HasRule(allow[..n], s) {
          var i :| 0 <= i < |allow| && RuleOf(allow[i]) == Some(s);
          assert RuleOf(allow[..n][i]) == Some(s);
        }
      }
      if Listed(allow[n], rules) && RuleOf(allow[n]).value !in before then before + [RuleOf(allow[n]).value] else before
  }

  lemma HasRuleSnoc(allow: seq<Tokens>, v: Tokens, s: string)
    ensures HasRule(allow + [v], s) <==> HasRule(allow, s) || RuleOf(v) == Some(s)
  {
    assert (allow + [v])[|allow|] == v;
    if i :| 0 <= i < |allow| && RuleOf(allow[i]) == Some(s) {
      assert (allow + [v])[i] == allow[i];
    }
  }

  /** Exactly the absent rules are appended, and afterwards none is absent. */
  lemma {:induction false} MissingExact(allow: seq<Tokens>, rules: seq<string>)
    ensures forall s :: s in Missing(allow, rules) <==> s in rules && !HasRule(allow, s)
    ensures Missing(allow + Entries(Missing(allow, rules)), rules) == []
    decreases |rules|
  {
    if rules == [] {
    } else if HasRule(allow, rules[0]) {
      MissingExact(allow, rules[1..]);
      HasRuleMore(allow, Entries(Missing(allow, rules[1..])));
    } else {
      var bigger := allow + [Entry(rules[0])];
      MissingExact(bigger, rules[1..]);
      var more := Missing(bigger, rules[1..]);
      assert allow + Entries([rules[0]] + more) == bigger + Entries(more);
      forall s ensures HasRule(bigger, s) <==> HasRule(allow, s) || s == rules[0] {
        HasRuleSnoc(allow, Entry(rules[0]), s);
      }
      HasRuleMore(bigger, Entries(more));
    }
  }

  /** The rules are appended in the order of the fixed set and none twice. */
  lemma {:induction false} MissingOrder(allow: seq<Tokens>, rules: seq<string>)
    ensures Within(Missing(allow, rules), rules) && Distinct(Missing(allow, rules))
    decreases |rules|
  {
    if rules != [] {
      MissingOrder(allow, rules[1..]);
      var bigger := allow + [Entry(rules[0])];
      MissingOrder(bigger, rules[1..]);
      MissingExact(bigger, rules[1..]);
      HasRuleSnoc(allow, Entry(rules[0]), rules[0]);
      assert HasRule(bigger, rules[0]);
      hide HasRule, RuleOf, Entry;
      assert !HasRule(allow, rules[0]) ==> Missing(allow, rules)[1..] == Missing(bigger, rules[1..]);
    }
  }

  /** The strings the entries decode to, in order. */
  function Named(allow: seq<Tokens>): seq<string>
    decreases |allow|
  {
    if allow == [] then []
    else Named(allow[..|allow| - 1]) + (if RuleOf(allow[|allow| - 1]).Some? then [RuleOf(allow[|allow| - 1]).value] else [])
  }

  /** The rules taken out are reported in the order of the list and none twice. */
  lemma {:induction false} RemovedOrder(allow: seq<Tokens>, rules: seq<string>)
    ensures Within(Removed(allow, rules), Named(allow)) && Distinct(Removed(allow, rules))
    decreases |allow|
  {
    if allow != [] {
      var n := |allow| - 1;
      RemovedOrder(allow[..n], rules);
      if RuleOf(allow[n]).Some? {
        WithinSnoc(Removed(allow[..n], rules), Named(allow[..n]), RuleOf(allow[n]).value);
      } else {
        assert Named(allow) == Named(allow[..n]);
      }
    }
  }

  lemma HasRuleMore(allow: seq<Tokens>, more: seq<Tokens>)
    ensures forall s :: HasRule(allow, s) ==> HasRule(allow + more, s)
  {
    forall s | HasRule(allow, s) ensures HasRule(allow + more, s) {
      var i :| 0 <= i < |allow| && RuleOf(allow[i]) == Some(s);
      assert (allow + more)[i] == allow[i];
    }
  }

  lemma {:induction false} KeptAppend(a: seq<Tokens>, b: seq<Tokens>, rules: seq<string>)
    ensures Kept(a + b, rules) == Kept(a, rules) + Kept(b, rules)
    decreases |b|
  {
    if b == [] {
      assert a + b == a && Kept(a, rules) + [] == Kept(a, rules);
    } else {
      var n := |b| - 1;
      KeptAppend(a, b[..n], rules);
      assert (a + b)[..|a + b| - 1] == a + b[..n];
    }
  }

  lemma {:induction false} KeptAll(allow: seq<Tokens>, rules: seq<string>)
    requires forall s :: s in rules ==> !HasRule(allow, s)
    ensures Kept(allow, rules) == allow
    decreases |allow|
  {
    if allow != [] {
      var n := |allow| - 1;
      assert !Listed(allow[n], rules);
      assert allow == allow[..n] + [allow[n]];
      HasRuleMore(allow[..n], [allow[n]]);
      KeptAll(allow[..n], rules);
    }
  }

  function Minus(rules: seq<string>, gone: seq<string>): (r: seq<string>)
    ensures forall s :: s in r <==> s in rules && s !in gone
    ensures |r| <= |rules| && (|r| == |rules| <==> r == rules)
    decreases |rules|
  {
    if rules == [] then []
    else Minus(rules[..|rules| - 1], gone) + (if rules[|rules| - 1] in gone then [] else [rules[|rules| - 1]])
  }

  lemma EntriesSnoc(rules: seq<string>, r: string)
    ensures Entries(rules + [r]) == Entries(rules) + [Entry(r)]
  {
  }

  lemma KeptOne(r: string, gone: seq<string>)
    ensures Kept([Entry(r)], gone) == if r in gone then [] else [Entry(r)]
  {
    assert [Entry(r)][..0] == [];
    assert RuleOf(Entry(r)) == Some(r);
  }

  lemma {:induction false} KeptEntries(rules: seq<string>, gone: seq<string>)
    ensures Kept(Entries(rules), gone) == Entries(Minus(rules, gone))
    decreases |rules|
  {
    if rules == [] {
      assert Entries([]) == [];
    } else {
      var init, r := rules[..|rules| - 1], rules[|rules| - 1];
      assert rules == init + [r];
      assert Minus(rules, gone) == Minus(init, gone) + (if r in gone then [] else [r]);
      hide Kept, Entries, Entry, Minus;
      KeptEntries(init, gone);
      EntriesSnoc(init, r);
      KeptAppend(Entries(init), [Entry(r)], gone);
      KeptOne(r, gone);
      if r in gone {
        assert Minus(init, gone) + [] == Minus(init, gone);
        assert Entries(Minus(init, gone)) + [] == Entries(Minus(init, gone));
      } else {
        EntriesSnoc(Minus(init, gone), r);
      }
    }
  }

  lemma {:induction false} KeptValid(allow: seq<Tokens>, rules: seq<string>)
    requires ValidElements(allow)
    ensures ValidElements(Kept(allow, rules))
    decreases |allow|
  {
    if allow != [] {
      KeptValid(allow[..|allow| - 1], rules);
    }
  }

  lemma {:induction false} KeptNone(allow: seq<Tokens>, rules: seq<string>, r: string)
    requires r in rules
    ensures !HasRule(Kept(allow, rules), r)
    decreases |allow|
  {
    if allow != [] {
      var n := |allow| - 1;
      KeptNone(allow[..n], rules, r);
      if !Listed(allow[n], rules) {
        HasRuleSnoc(Kept(allow[..n], rules), allow[n], r);
      }
    }
  }

  lemma EntriesValid(allow: seq<Tokens>, rules: seq<string>)
    requires ValidElements(allow)
    ensures ValidElements(allow + Entries(rules))
  {
    forall i | 0 <= i < |rules| ensures Value(Entries(rules)[i]) {
      assert Entries(rules)[i][1..] == [];
    }
  }

  // --- the edit as a whole -------------------------------------------------------

  datatype Plan = Refused | Unchanged | Edited(rules: seq<string>, contents: Tokens)

  function ListAfter(allow: seq<Tokens>, add: bool, rules: seq<string>): seq<Tokens> {
    if add then allow + Entries(Missing(allow, rules)) else Kept(allow, rules)
  }

  function ChangedBy(allow: seq<Tokens>, add: bool, rules: seq<string>): seq<string> {
    if add then Missing(allow, rules) else Removed(allow, rules)
  }

  function PlanEdit(data: Option<Tokens>, add: bool, rules: seq<string>): Plan {
    var doc := Read(data);
    if doc.None? then Refused
    else if ChangedBy(doc.value.allow, add, rules) == [] then Unchanged
    else Edited(ChangedBy(doc.value.allow, add, rules), Write(doc.value, ListAfter(doc.value.allow, add, rules)))
  }

  /** The edited file reads back as the same document with the new list and nothing
      else touched, and asking for the same edit again changes nothing. */
  lemma PlanPreserves(data: Option<Tokens>, add: bool, rules: seq<string>)
    requires PlanEdit(data, add, rules).Edited?
    ensures var contents := PlanEdit(data, add, rules).contents;
            var doc := Read(data).value;
            && Read(Some(contents)).Some?
            && Read(Some(contents)).value.allow == ListAfter(doc.allow, add, rules)
            && SameElsewhere(doc, Read(Some(contents)).value)
            && PlanEdit(Some(contents), add, rules) == Unchanged
  {
    var doc := Read(data).value;
    ReadValid(data);
    MissingExact(doc.allow, rules);
    EntriesValid(doc.allow, Missing(doc.allow, rules));
    KeptValid(doc.allow, rules);
    forall r | r in rules ensures !HasRule(Kept(doc.allow, rules), r) {
      KeptNone(doc.allow, rules, r);
    }
    var after := ListAfter(doc.allow, add, rules);
    ReadWrite(doc, after);
    WriteSame(doc, after);
    NoneRemoved(after, rules);
  }

  lemma NoneRemoved(allow: seq<Tokens>, rules: seq<string>)
    ensures (forall s :: s in rules ==> !HasRule(allow, s)) ==> Removed(allow, rules) == []
  {
    if (forall s :: s in rules ==> !HasRule(allow, s)) && Removed(allow, rules) != [] {
      assert Removed(allow, rules)[0] in Removed(allow, rules);
    }
  }

  /** A removal that changes nothing would also keep the whole list. */
  lemma UnchangedKeepsAll(allow: seq<Tokens>, rules: seq<string>)
    requires Removed(allow, rules) == []
    ensures Kept(allow, rules) == allow
  {
    forall s | s in rules ensures !HasRule(allow, s) {
      assert s !in Removed(allow, rules);
    }
    KeptAll(allow, rules);
  }

  // --- the editing loops -----------------------------------------------------------

  method AddRules(allow: seq<Tokens>, rules: seq<string>) returns (after: seq<Tokens>, changed: seq<string>)
    ensures changed == Missing(allow, rules) && after == allow + Entries(changed)
  {
    after, changed := allow, [];
    assert allow + Entries([]) == allow && rules[0..] == rules;
    for i := 0 to |rules|
      invariant after == allow + Entries(changed)
      invariant changed + Missing(after, rules[i..]) == Missing(allow, rules)
    {
      assert rules[i..][1..] == rules[i + 1..];
      if !HasRule(after, rules[i]) {
        assert Entries(changed + [rules[i]]) == Entries(changed) + [Entry(rules[i])];
        assert changed + ([rules[i]] + Missing(after + [Entry(rules[i])], rules[i + 1..])) ==
               (changed + [rules[i]]) + Missing(after + [Entry(rules[i])], rules[i + 1..]);
        after, changed := after + [Entry(rules[i])], changed + [rules[i]];
      }
    }
    assert rules[|rules|..] == [];
  }

  method DropRules(allow: seq<Tokens>, rules: seq<string>) returns (kept: seq<Tokens>, changed: seq<string>)
    ensures kept == Kept(allow, rules) && changed == Removed(allow, rules)
  {
    hide RuleOf, HasRule;
    kept, changed := [], [];
    for i := 0 to |allow|
      invariant kept == Kept(allow[..i], rules) && changed == Removed(allow[..i], rules)
    {
      assert allow[..i + 1][..i] == allow[..i];
      var s := RuleOf(allow[i]);
      if s.Some? && s.value in rules {
        if s.value !in changed {
          changed := changed + [s.value];
        }
      } else {
        kept := kept + [allow[i]];
      }
    }
    assert allow[..|allow|] == allow;
  }
}
