/** The address book: unambiguous names, lookup by sender address, and what a
    contact found by a pattern may do. */
module Contacts {
  import opened Basics
  import opened Text

  datatype Contact = Contact(name: string, email: string, aliases: seq<string>, permissions: map<string, string>)

  /** path.Match: None for a malformed pattern. */
  type Glob = (string, string) -> Option<bool>

  predicate IsPattern(c: Contact) { '*' in c.email || '?' in c.email || '[' in c.email }

  predicate GrantsWrite(perm: string) { 'w' in perm || 'W' in perm || 'x' in perm || 'X' in perm }

  predicate Valid(glob: Glob, c: Contact) {
    && Trim(c.name) != "" && Trim(c.email) != "" && '@' in c.email
    && (IsPattern(c) ==> glob(c.email, "probe").Some? && forall k :: k in c.permissions ==> !GrantsWrite(c.permissions[k]))
  }

  // --- names ----------------------------------------------------------------------

  /** The words that name a contact, case folded. */
  function Names(c: Contact): set<string> { {Lower(c.name)} + set a | a in c.aliases :: Lower(a) }

  predicate Conflicts(book: seq<Contact>, c: Contact) { exists i :: 0 <= i < |book| && Names(book[i]) * Names(c) != {} }

  predicate Distinct(book: seq<Contact>) {
    forall i, j :: 0 <= i < j < |book| ==> Names(book[i]) !! Names(book[j])
  }

  ghost predicate Inv(glob: Glob, book: seq<Contact>) {
    Distinct(book) && forall c :: c in book ==> Valid(glob, c)
  }

  /** The conflict check with its table of owned names. */
  method CheckNameConflict(book: seq<Contact>, c: Contact) returns (conflict: bool)
    ensures conflict <==> Conflicts(book, c)
  {
    var names: set<string> := {};
    for i := 0 to |book|
      invariant forall w :: w in names <==> exists k :: 0 <= k < i && w in Names(book[k])
    {
      names := names + Names(book[i]);
    }
    conflict := Lower(c.name) in names;
    for i := 0 to |c.aliases|
      invariant conflict <==> Lower(c.name) in names || exists k :: 0 <= k < i && Lower(c.aliases[k]) in names
    {
      if Lower(c.aliases[i]) in names {
        conflict := true;
      }
    }
    ConflictByName(book, c, names);
  }

  lemma ConflictByName(book: seq<Contact>, c: Contact, names: set<string>)
    requires forall w :: w in names <==> exists k :: 0 <= k < |book| && w in Names(book[k])
    ensures Conflicts(book, c) <==>
            Lower(c.name) in names || exists k :: 0 <= k < |c.aliases| && Lower(c.aliases[k]) in names
  {
    if Conflicts(book, c) {
      var i :| 0 <= i < |book| && Names(book[i]) * Names(c) != {};
      var w :| w in Names(book[i]) * Names(c);
      assert w in names && w in Names(c);
      if w != Lower(c.name) {
        var a :| a in c.aliases && Lower(a) == w;
        var k :| 0 <= k < |c.aliases| && c.aliases[k] == a;
        assert Lower(c.aliases[k]) in names;
      }
    }
    forall w | w in names && w in Names(c) ensures Conflicts(book, c) {
      var k :| 0 <= k < |book| && w in Names(book[k]);
      assert w in Names(book[k]) * Names(c);
    }
  }

  // --- the store -------------------------------------------------------------------

  function TrimAll(aliases: seq<string>): seq<string> {
    if aliases == [] then []
    else (if Trim(aliases[0]) == "" then [] else [Trim(aliases[0])]) + TrimAll(aliases[1..])
  }

  function Normalized(c: Contact): Contact { c.(name := Trim(c.name), email := Trim(c.email), aliases := TrimAll(c.aliases)) }

  datatype Op = Add(c: Contact) | Remove(name: string)

  /** The first contact of that name, |book| when there is none. */
  function FirstNamed(book: seq<Contact>, name: string): (i: nat)
    ensures i <= |book| && (i < |book| ==> Lower(book[i].name) == Lower(name))
    ensures forall k :: 0 <= k < i ==> Lower(book[k].name) != Lower(name)
  {
    if book == [] || Lower(book[0].name) == Lower(name) then 0 else 1 + FirstNamed(book[1..], name)
  }

  /** The book in memory, whether or not the file write that follows succeeds. */
  function After(glob: Glob, book: seq<Contact>, op: Op): seq<Contact> {
    match op
    case Add(c) =>
      if !Valid(glob, Normalized(c)) || Conflicts(book, Normalized(c)) then book else book + [Normalized(c)]
    case Remove(name) =>
      var i := FirstNamed(book, Trim(name));
      if i == |book| then book else book[..i] + book[i + 1..]
  }

  function AfterAll(glob: Glob, book: seq<Contact>, ops: seq<Op>): seq<Contact>
    decreases |ops|
  {
    if ops == [] then book else After(glob, AfterAll(glob, book, ops[..|ops| - 1]), ops[|ops| - 1])
  }

  lemma Apart(a: set<string>, b: set<string>)
    requires a * b == {}
    ensures a !! b
  {
    forall w | w in a ensures w !in b {
      assert w in b ==> w in a * b;
    }
  }

  lemma AddKeeps(glob: Glob, book: seq<Contact>, c: Contact)
    requires Inv(glob, book) && Valid(glob, c) && !Conflicts(book, c)
    ensures Inv(glob, book + [c])
  {
    hide Valid, Names;
    var after := book + [c];
    forall i, j | 0 <= i < j < |after| ensures Names(after[i]) !! Names(after[j]) {
      if j == |book| {
        assert after[i] == book[i] && after[j] == c;
        Apart(Names(book[i]), Names(c));
      } else {
        assert after[i] == book[i] && after[j] == book[j] && Names(book[i]) !! Names(book[j]);
      }
    }
  }

  lemma RemoveKeeps(glob: Glob, book: seq<Contact>, n: nat)
    requires Inv(glob, book) && n < |book|
    ensures Inv(glob, book[..n] + book[n + 1..])
  {
    hide Valid, Names;
    var after := book[..n] + book[n + 1..];
    forall i, j | 0 <= i < j < |after| ensures Names(after[i]) !! Names(after[j]) {
      var i', j' := if i < n then i else i + 1, if j < n then j else j + 1;
      assert Names(book[i']) !! Names(book[j']);
    }
  }

  lemma StepKeeps(glob: Glob, book: seq<Contact>, op: Op)
    requires Inv(glob, book)
    ensures Inv(glob, After(glob, book, op))
  {
    hide Valid, Normalized, Inv, Conflicts, FirstNamed;
    match op
    case Add(c) =>
      if Valid(glob, Normalized(c)) && !Conflicts(book, Normalized(c)) {
        AddKeeps(glob, book, Normalized(c));
      }
    case Remove(name) =>
      if FirstNamed(book, Trim(name)) < |book| {
        RemoveKeeps(glob, book, FirstNamed(book, Trim(name)));
      }
  }

  /** Whatever is added and removed, starting from an empty book, no two contacts
      share a name and every contact is valid. */
  lemma {:induction false} BookStaysSound(glob: Glob, ops: seq<Op>)
    ensures Inv(glob, AfterAll(glob, [], ops))
    decreases |ops|
  {
    if ops != [] {
      BookStaysSound(glob, ops[..|ops| - 1]);
      StepKeeps(glob, AfterAll(glob, [], ops[..|ops| - 1]), ops[|ops| - 1]);
    }
  }

  class Store {
    var contacts: seq<Contact>
    const glob: Glob

    constructor (glob: Glob)
      ensures contacts == [] && this.glob == glob
    {
      contacts := [];
      this.glob := glob;
    }

    method AddContact(c: Contact, writeOk: bool) returns (ok: bool)
      modifies this
      ensures contacts == After(glob, old(contacts), Add(c))
      ensures ok <==> writeOk && Valid(glob, Normalized(c)) && !Conflicts(old(contacts), Normalized(c))
    {
      var n := Normalized(c);
      if !Valid(glob, n) {
        return false;
      }
      var conflict := CheckNameConflict(contacts, n);
      if conflict {
        return false;
      }
      contacts := contacts + [n];
      ok := writeOk;
    }

    method RemoveContact(name: string, writeOk: bool) returns (ok: bool)
      modifies this
      ensures contacts == After(glob, old(contacts), Remove(name))
      ensures ok <==> writeOk && FirstNamed(old(contacts), Trim(name)) < |old(contacts)|
    {
      hide Trim, Lower, Valid, Normalized, Conflicts;
      var i := 0;
      while i < |contacts| && Lower(contacts[i].name) != Lower(Trim(name))
        invariant 0 <= i <= |contacts| && contacts == old(contacts)
        invariant forall k :: 0 <= k < i ==> Lower(contacts[k].name) != Lower(Trim(name))
      {
        i := i + 1;
      }
      assert i == FirstNamed(contacts, Trim(name));
      if i == |contacts| {
        return false;
      }
      contacts := contacts[..i] + contacts[i + 1..];
      ok := writeOk;
    }
  }

  // --- resolving a name ---------------------------------------------------------------

  predicate MatchesQuery(c: Contact, q: string) { Lower(c.email) == q || q in Names(c) }

  function Find(book: seq<Contact>, q: string): seq<Contact> {
    if book == [] then [] else (if MatchesQuery(book[0], q) then [book[0]] else []) + Find(book[1..], q)
  }

  datatype Resolved = Address(email: string) | Empty | Unknown | Ambiguous

  function Resolve(book: seq<Contact>, token: string): Resolved {
    var t := Trim(token);
    if t == "" then Empty
    else if '@' in t then Address(t)
    else
      var found := Find(book, Lower(t));
      if |found| == 0 then Unknown else if |found| == 1 then Address(found[0].email) else Ambiguous
  }

  lemma LowerKeepsAt(s: string)
    ensures '@' in Lower(s) <==> '@' in s
  {
    if i :| 0 <= i < |s| && s[i] == '@' {
      assert Lower(s)[i] == '@';
    }
    if i :| 0 <= i < |s| && Lower(s)[i] == '@' {
      assert s[i] == '@';
    }
  }

  lemma {:induction false} FindNone(book: seq<Contact>, q: string)
    requires forall c :: c in book ==> !MatchesQuery(c, q)
    ensures Find(book, q) == []
  {
    if book != [] {
      FindNone(book[1..], q);
    }
  }

  /** A word without '@' names at most one contact of a sound book. */
  lemma {:induction false} FindOne(glob: Glob, book: seq<Contact>, q: string)
    requires Inv(glob, book) && '@' !in q
    ensures |Find(book, q)| <= 1
  {
    if book != [] {
      var rest := book[1..];
      assert Distinct(rest) by {
        assert forall i :: 0 <= i < |rest| ==> rest[i] == book[i + 1];
      }
      WordIsName(glob, book, q);
      if MatchesQuery(book[0], q) {
        forall c | c in rest ensures !MatchesQuery(c, q) {
          var i :| 0 <= i < |rest| && rest[i] == c;
          assert Names(book[0]) !! Names(book[i + 1]);
        }
        FindNone(rest, q);
      } else {
        FindOne(glob, rest, q);
      }
    }
  }

  /** No history of additions and removals makes any name ambiguous. */
  lemma NeverAmbiguous(glob: Glob, ops: seq<Op>, token: string)
    ensures !Resolve(AfterAll(glob, [], ops), token).Ambiguous?
  {
    BookStaysSound(glob, ops);
    var t := Trim(token);
    if '@' !in t {
      LowerKeepsAt(t);
      FindOne(glob, AfterAll(glob, [], ops), Lower(t));
    }
  }

  /** In a valid book a word without '@' can only be a name. */
  lemma WordIsName(glob: Glob, book: seq<Contact>, q: string)
    requires (forall c :: c in book ==> Valid(glob, c)) && '@' !in q
    ensures forall c :: c in book ==> (MatchesQuery(c, q) <==> q in Names(c))
  {
    forall c | c in book ensures MatchesQuery(c, q) <==> q in Names(c) {
      assert Valid(glob, c);
      LowerKeepsAt(c.email);
    }
  }

  /** In a sound book a word names one contact or none, and resolves accordingly. */
  lemma ResolveSound(glob: Glob, book: seq<Contact>, token: string, c: Contact)
    requires Inv(glob, book) && Trim(token) != "" && '@' !in Trim(token)
    ensures c in book && Lower(Trim(token)) in Names(c) ==> Resolve(book, token) == Address(c.email)
    ensures (forall d :: d in book ==> Lower(Trim(token)) !in Names(d)) ==> Resolve(book, token) == Unknown
  {
    var q := Lower(Trim(token));
    LowerKeepsAt(Trim(token));
    FindOne(glob, book, q);
    WordIsName(glob, book, q);
    hide Trim, Lower, Names, MatchesQuery, Inv, Find;
    if c in book && q in Names(c) {
      FoundAlone(book, q, c);
    }
    if forall d :: d in book ==> q !in Names(d) {
      FindNone(book, q);
    }
  }

  lemma FoundAlone(book: seq<Contact>, q: string, c: Contact)
    requires c in book && MatchesQuery(c, q) && |Find(book, q)| <= 1
    ensures Find(book, q) == [c]
  {
    FindIn(book, q);
    hide MatchesQuery, Find;
    assert c in Find(book, q);
  }

  lemma {:induction false} FindIn(book: seq<Contact>, q: string)
    ensures forall c :: c in Find(book, q) <==> c in book && MatchesQuery(c, q)
  {
    if book != [] {
      FindIn(book[1..], q);
    }
  }

  /** After any history a word that is no address resolves to the contact one of whose
      names it is, and to none exactly when there is no such contact. */
  lemma ResolveExact(glob: Glob, ops: seq<Op>, token: string, email: string)
    ensures var book, t := AfterAll(glob, [], ops), Trim(token);
            && (Resolve(book, token).Empty? <==> t == "")
            && (t != "" && '@' in t ==> Resolve(book, token) == Address(t))
            && (t != "" && '@' !in t ==>
                (Resolve(book, token) == Address(email) <==> exists c :: c in book && c.email == email && Lower(t) in Names(c)))
  {
    var book, t := AfterAll(glob, [], ops), Trim(token);
    BookStaysSound(glob, ops);
    if t != "" && '@' !in t {
      hide Resolve, Inv, Names, Trim;
      if c :| c in book && Lower(t) in Names(c) {
        forall d | d in book && Lower(t) in Names(d) ensures Resolve(book, token) == Address(d.email) {
          ResolveSound(glob, book, token, d);
        }
      } else {
        ResolveSound(glob, book, token, Contact("", "", [], map[]));
      }
    }
  }

  lemma {:induction false} TrimAllIn(aliases: seq<string>)
    ensures forall a :: a in TrimAll(aliases) <==> a != "" && exists i :: 0 <= i < |aliases| && Trim(aliases[i]) == a
    ensures TrimAll(aliases) == [] || |TrimAll(aliases)| <= |aliases|
  {
    if aliases != [] {
      hide Trim;
      TrimAllIn(aliases[1..]);
      forall a ensures a in TrimAll(aliases) <==> a != "" && exists i :: 0 <= i < |aliases| && Trim(aliases[i]) == a {
        if i :| 0 <= i < |aliases[1..]| && Trim(aliases[1..][i]) == a {
          assert Trim(aliases[i + 1]) == a;
        }
        if i :| 0 < i < |aliases| && Trim(aliases[i]) == a {
          assert Trim(aliases[1..][i - 1]) == a;
        }
      }
    }
  }

  /** A contact that is added resolves, from then on, under its trimmed name and under
      each of its trimmed aliases. */
  lemma AddedResolves(glob: Glob, ops: seq<Op>, c: Contact, token: string)
    requires Valid(glob, Normalized(c)) && !Conflicts(AfterAll(glob, [], ops), Normalized(c))
    requires Trim(token) != "" && '@' !in Trim(token)
    requires Lower(Trim(token)) == Lower(Trim(c.name))
             || exists i :: 0 <= i < |c.aliases| && Lower(Trim(c.aliases[i])) == Lower(Trim(token))
    ensures Resolve(After(glob, AfterAll(glob, [], ops), Add(c)), token) == Address(Trim(c.email))
  {
    var book, n := AfterAll(glob, [], ops), Normalized(c);
    BookStaysSound(glob, ops);
    AddKeeps(glob, book, n);
    if i :| 0 <= i < |c.aliases| && Lower(Trim(c.aliases[i])) == Lower(Trim(token)) {
      TrimAllIn(c.aliases);
      assert |Lower(Trim(c.aliases[i]))| == |Lower(Trim(token))| > 0;
      assert Trim(c.aliases[i]) in n.aliases;
    }
    assert Lower(Trim(token)) in Names(n);
    hide Trim, Inv, Valid, Normalized, Resolve, Conflicts;
    ResolveSound(glob, book + [n], token, n);
  }

  lemma FirstNamedIs(book: seq<Contact>, name: string, n: nat)
    requires n <= |book| && forall k :: 0 <= k < n ==> Lower(book[k].name) != Lower(name)
    requires n < |book| ==> Lower(book[n].name) == Lower(name)
    ensures FirstNamed(book, name) == n
  {
  }

  /** What a contact has to be to be added: a name, an address with an '@', and, when the
      address has a wildcard, a well-formed pattern and no permission beyond reading; and
      no name of its own in the book, whatever the letter case. */
  lemma AddExact(glob: Glob, book: seq<Contact>, c: Contact)
    ensures var n := Normalized(c);
            var accepted :=
              && n.name == Trim(c.name) != "" && n.email == Trim(c.email) != "" && '@' in n.email
              && ('*' in n.email || '?' in n.email || '[' in n.email ==>
                  && glob(n.email, "probe") != None
                  && forall k, l :: k in c.permissions && l in c.permissions[k] ==> l != 'w' && l != 'W' && l != 'x' && l != 'X')
              && forall i, w :: 0 <= i < |book| && w in Names(book[i]) ==> w !in Names(n);
            After(glob, book, Add(c)) == if accepted then book + [n] else book
  {
    var n := Normalized(c);
    TrimAgain(c.name);
    TrimAgain(c.email);
    hide Trim, Names, TrimAll;
    assert Conflicts(book, n) <==> exists i, w :: 0 <= i < |book| && w in Names(book[i]) && w in Names(n) by {
      SharedName(book, n);
    }
  }

  lemma SharedName(book: seq<Contact>, c: Contact)
    ensures Conflicts(book, c) <==> exists i, w :: 0 <= i < |book| && w in Names(book[i]) && w in Names(c)
  {
    hide Names;
    if i :| 0 <= i < |book| && Names(book[i]) * Names(c) != {} {
      var w :| w in Names(book[i]) * Names(c);
      assert w in Names(book[i]) && w in Names(c);
    }
    if i, w :| 0 <= i < |book| && w in Names(book[i]) && w in Names(c) {
      assert w in Names(book[i]) * Names(c);
    }
  }

  lemma TrimAgain(s: string)
    ensures Trim(Trim(s)) == Trim(s)
  {
    TrimTrims(s);
    TrimOf("", Trim(s), "");
    assert "" + Trim(s) + "" == Trim(s);
  }

  /** Removing the contact just added gives back the book. */
  lemma RemoveUndoesAdd(glob: Glob, book: seq<Contact>, c: Contact)
    requires Valid(glob, Normalized(c)) && !Conflicts(book, Normalized(c))
    ensures After(glob, After(glob, book, Add(c)), Remove(c.name)) == book
  {
    var n := Normalized(c);
    var all := book + [n];
    forall k | 0 <= k < |book| ensures Lower(book[k].name) != Lower(n.name) {
      assert Lower(book[k].name) in Names(book[k]) && Lower(n.name) in Names(n);
      Apart(Names(book[k]), Names(n));
    }
    FirstNamedIs(all, Trim(c.name), |book|);
    assert all[..|book|] + all[|book| + 1..] == book;
  }

  /** Removing takes out the one contact of that name and leaves the others in order; when
      there is none the book stays. */
  lemma RemoveExact(glob: Glob, a: seq<Contact>, c: Contact, b: seq<Contact>, name: string)
    requires Lower(c.name) == Lower(Trim(name)) && forall d :: d in a ==> Lower(d.name) != Lower(Trim(name))
    ensures After(glob, a + [c] + b, Remove(name)) == a + b
    ensures After(glob, a, Remove(name)) == a
  {
    var book := a + [c] + b;
    forall k | 0 <= k < |a| ensures Lower(a[k].name) != Lower(Trim(name)) && book[k] == a[k] {
      assert a[k] in a;
    }
    FirstNamedIs(book, Trim(name), |a|);
    FirstNamedIs(a, Trim(name), |a|);
    assert book[..|a|] + book[|a| + 1..] == a + b;
  }

  // --- finding a sender -----------------------------------------------------------------

  predicate Exact(c: Contact, addr: string) { c.email != "" && !IsPattern(c) && Lower(c.email) == addr }

  predicate ByPattern(glob: Glob, c: Contact, addr: string) {
    c.email != "" && IsPattern(c) && glob(Lower(c.email), addr) == Some(true)
  }

  /** The first exact match; without one, the first of the longest matching patterns. */
  ghost predicate Best(glob: Glob, book: seq<Contact>, addr: string, r: Option<nat>) {
    match r
    case None => forall k :: 0 <= k < |book| ==> !Exact(book[k], addr) && !ByPattern(glob, book[k], addr)
    case Some(i) =>
      && i < |book|
      && if Exact(book[i], addr) then forall k :: 0 <= k < i ==> !Exact(book[k], addr)
         else
           && ByPattern(glob, book[i], addr)
           && (forall k :: 0 <= k < |book| ==> !Exact(book[k], addr))
           && (forall k :: 0 <= k < |book| && ByPattern(glob, book[k], addr) ==> |book[k].email| <= |book[i].email|)
           && (forall k :: 0 <= k < i && ByPattern(glob, book[k], addr) ==> |book[k].email| < |book[i].email|)
  }

  /** No exact match among the first n contacts, and r is the first of the longest
      matching patterns among them. */
  ghost predicate SoFar(glob: Glob, book: seq<Contact>, addr: string, n: nat, r: Option<nat>) {
    && n <= |book| && (forall k :: 0 <= k < n ==> !Exact(book[k], addr))
    && match r
       case None => forall k :: 0 <= k < n ==> !ByPattern(glob, book[k], addr)
       case Some(i) =>
         && i < n && ByPattern(glob, book[i], addr)
         && (forall k :: 0 <= k < n && ByPattern(glob, book[k], addr) ==> |book[k].email| <= |book[i].email|)
         && (forall k :: 0 <= k < i && ByPattern(glob, book[k], addr) ==> |book[k].email| < |book[i].email|)
  }

  lemma NextSoFar(glob: Glob, book: seq<Contact>, addr: string, n: nat, r: Option<nat>)
    requires SoFar(glob, book, addr, n, r) && n < |book| && !Exact(book[n], addr)
    ensures var better := ByPattern(glob, book[n], addr) && (r.None? || |book[n].email| > |book[r.value].email|);
            SoFar(glob, book, addr, n + 1, if better then Some(n) else r)
  {
    hide ByPattern, Exact;
  }

  method FindByAddress(glob: Glob, book: seq<Contact>, sender: string) returns (r: Option<nat>)
    ensures Lower(Trim(sender)) == "" ==> r.None?
    ensures Lower(Trim(sender)) != "" ==> Best(glob, book, Lower(Trim(sender)), r)
  {
    var addr := Lower(Trim(sender));
    hide Trim;
    r := None;
    if addr == "" {
      return;
    }
    for i := 0 to |book|
      invariant SoFar(glob, book, addr, i, r)
    {
      var c := book[i];
      if c.email != "" && !IsPattern(c) && Lower(c.email) == addr {
        return Some(i);
      }
      NextSoFar(glob, book, addr, i, r);
      if c.email == "" || !IsPattern(c) || glob(Lower(c.email), addr) != Some(true) {
        continue;
      }
      if r.None? || |c.email| > |book[r.value].email| {
        r := Some(i);
      }
    }
  }

  /** At most one answer fits: the lookup is fully determined. */
  lemma BestIsUnique(glob: Glob, book: seq<Contact>, addr: string, r: Option<nat>, s: Option<nat>)
    requires Best(glob, book, addr, r) && Best(glob, book, addr, s)
    ensures r == s
  {
  }

  // --- permissions --------------------------------------------------------------------------

  datatype Permission = Permission(read: bool, write: bool, execute: bool)

  function Flag(c: char, letter: char): Option<bool> {
    if c == letter then Some(true) else if c == '-' then Some(false) else None
  }

  function Parse(s: string): Option<Permission> {
    var t := Lower(s);
    if |s| != 3 || Flag(t[0], 'r').None? || Flag(t[1], 'w').None? || Flag(t[2], 'x').None? then None
    else Some(Permission(Flag(t[0], 'r').value, Flag(t[1], 'w').value, Flag(t[2], 'x').value))
  }

  function Show(p: Permission): string {
    [if p.read then 'r' else '-', if p.write then 'w' else '-', if p.execute then 'x' else '-']
  }

  lemma ParseUndoesShow(p: Permission)
    ensures Parse(Show(p)) == Some(p)
  {
    assert Lower(Show(p)) == Show(p);
  }

  /** Exactly the printed forms, in any case, are parsed. */
  lemma ParseExact(s: string, p: Permission)
    ensures Parse(s) == Some(p) <==> Lower(s) == Show(p)
  {
    var t := Lower(s);
    if Parse(s) == Some(p) {
      assert t == [t[0], t[1], t[2]];
    }
  }

  function Check(c: Contact, identity: string): Permission {
    var k := Lower(identity);
    if k in c.permissions && Parse(c.permissions[k]).Some? then Parse(c.permissions[k]).value
    else Permission(false, false, false)
  }

  /** A permission is granted exactly when a well-formed entry of the identity grants it. */
  lemma CheckExact(c: Contact, identity: string, p: Permission)
    ensures Check(c, identity) == p && p != Permission(false, false, false) ==>
              Lower(identity) in c.permissions && Lower(c.permissions[Lower(identity)]) == Show(p)
    ensures Lower(identity) in c.permissions && Lower(c.permissions[Lower(identity)]) == Show(p) ==> Check(c, identity) == p
  {
    if Lower(identity) in c.permissions {
      ParseExact(c.permissions[Lower(identity)], p);
    }
  }

  lemma WriteNeedsLetter(s: string)
    ensures Parse(s).Some? && (Parse(s).value.write || Parse(s).value.execute) ==> GrantsWrite(s)
  {
    if Parse(s).Some? {
      assert Lower(s)[1] == LowerChar(s[1]) && Lower(s)[2] == LowerChar(s[2]);
      assert s[1] in s && s[2] in s;
    }
  }

  /** In every reachable book, a sender found only through a pattern may neither write
      nor execute, whatever the identity. */
  lemma PatternsGrantNoAuthority(glob: Glob, ops: seq<Op>, addr: string, r: Option<nat>, identity: string)
    requires var book := AfterAll(glob, [], ops);
             Best(glob, book, addr, r) && r.Some? && !Exact(book[r.value], addr)
    ensures var p := Check(AfterAll(glob, [], ops)[r.value], identity);
            !p.write && !p.execute
  {
    var c := AfterAll(glob, [], ops)[r.value];
    BookStaysSound(glob, ops);
    assert Valid(glob, c);
    var k := Lower(identity);
    if k in c.permissions {
      WriteNeedsLetter(c.permissions[k]);
    }
  }
}
