/** The JSON grammar (RFC 8259): the scanner and the parsers accept exactly its texts and
    find in them what the grammar says is there. */
module JsonGrammar {
  import opened Basics
  import opened JsonTokens

  /** A JSON value (RFC 8259, sections 3 to 5). */
  datatype Json = Atom(token: Token) | Array(items: Items) | Object(fields: Fields)

  datatype Items = NoItem | Item(head: Json, tail: Items)

  datatype Fields = NoField | Field(key: string, spelling: Spelling, value: Json, tail: Fields)

  predicate IsAtom(t: Token) { t.Str? || t.Num? || t.True? || t.False? || t.Null? }

  predicate WellFormed(j: Json) {
    match j
    case Atom(t) => IsAtom(t)
    case Array(items) => ItemsFormed(items)
    case Object(fields) => FieldsFormed(fields)
  }

  predicate ItemsFormed(items: Items) { items.Item? ==> WellFormed(items.head) && ItemsFormed(items.tail) }

  predicate FieldsFormed(fields: Fields) { fields.Field? ==> WellFormed(fields.value) && FieldsFormed(fields.tail) }

  function Text(j: Json): Tokens {
    match j
    case Atom(t) => [t]
    case Array(items) => [LBracket] + ItemsText(items, true)
    case Object(fields) => [LBrace] + FieldsText(fields, true)
  }

  function ItemsText(items: Items, first: bool): Tokens {
    match items
    case NoItem => [RBracket]
    case Item(head, tail) => (if first then [] else [Comma]) + Text(head) + ItemsText(tail, false)
  }

  function FieldsText(fields: Fields, first: bool): Tokens {
    match fields
    case NoField => [RBrace]
    case Field(key, spelling, value, tail) =>
      (if first then [] else [Comma]) + [Str(key, spelling), Colon] + Text(value) + FieldsText(tail, false)
  }

  function InItems(first: bool): State { State([InArray], if first then BeginValueOrEmpty else EndValue) }

  function InFields(first: bool): State { if first then State([InKey], BeginKeyOrEmpty) else State([InValue], EndValue) }

  lemma ExecCons(s: State, t: Token, ts: Tokens)
    ensures Exec(s, [t] + ts) == Exec(Step(s, t), ts)
  {
    assert ([t] + ts)[1..] == ts;
  }

  lemma ExecEnd(s: State, t: Token)
    ensures Exec(s, [t]) == Step(s, t)
  {
    assert [t][1..] == [];
  }

  /** A scan that ends well takes one good step after another. */
  lemma ExecGoesOn(s: State, ts: Tokens)
    requires Exec(s, ts) == DONE && s != DONE
    ensures ts != [] && !Step(s, ts[0]).mode.Fail? && Exec(Step(s, ts[0]), ts[1..]) == DONE
  {
    if ts != [] && Step(s, ts[0]).mode.Fail? {
      ExecFails(Step(s, ts[0]), ts[1..]);
    }
  }

  /** Inside an array a value may stand where the array may also end. */
  lemma BeginEither(base: seq<Open>, ts: Tokens)
    requires ts != [] && !ts[0].RBracket?
    ensures Exec(State(base, BeginValueOrEmpty), ts) == Exec(State(base, BeginValue), ts)
  {
  }

  lemma {:induction false} TextStarts(j: Json)
    requires WellFormed(j)
    ensures Text(j) != [] && !Text(j)[0].RBracket?
  {
  }

  lemma {:induction false} TextScans(j: Json)
    requires WellFormed(j)
    ensures Value(Text(j))
    decreases j
  {
    match j
    case Atom(t) => ExecEnd(START, t);
    case Array(items) =>
      ItemsScan(items, true);
      ExecCons(START, LBracket, ItemsText(items, true));
    case Object(fields) =>
      FieldsScan(fields, true);
      ExecCons(START, LBrace, FieldsText(fields, true));
  }

  lemma {:induction false} ItemsScan(items: Items, first: bool)
    requires ItemsFormed(items)
    ensures Exec(InItems(first), ItemsText(items, first)) == DONE
    decreases items
  {
    if items.NoItem? {
      ExecEnd(InItems(first), RBracket);
    } else {
      TextScans(items.head);
      TextStarts(items.head);
      ItemsScan(items.tail, false);
      hide Text, WellFormed, Value, Exec;
      ItemScan(Text(items.head), ItemsText(items.tail, false), first);
    }
  }

  lemma ItemScan(v: Tokens, more: Tokens, first: bool)
    requires Value(v) && v != [] && !v[0].RBracket? && Exec(InItems(false), more) == DONE
    ensures Exec(InItems(first), (if first then [] else [Comma]) + v + more) == DONE
  {
    hide Value;
    ValueInside([InArray], v);
    ExecAppend(State([InArray], BeginValue), v, more);
    if first {
      assert [] + v + more == v + more;
      BeginEither([InArray], v + more);
    } else {
      assert [Comma] + v + more == [Comma] + (v + more);
      ExecCons(InItems(false), Comma, v + more);
    }
  }

  lemma {:induction false} FieldsScan(fields: Fields, first: bool)
    requires FieldsFormed(fields)
    ensures Exec(InFields(first), FieldsText(fields, first)) == DONE
    decreases fields
  {
    if fields.NoField? {
      ExecEnd(InFields(first), RBrace);
    } else {
      TextScans(fields.value);
      FieldsScan(fields.tail, false);
      hide Text, WellFormed, Value, Exec;
      KeyedScan(Str(fields.key, fields.spelling), Text(fields.value), FieldsText(fields.tail, false), first);
    }
  }

  /** A key and its colon. */
  lemma KeyScan(key: Token, rest: Tokens, first: bool)
    requires key.Str?
    ensures Exec(State([InKey], if first then BeginKeyOrEmpty else BeginKey), [key, Colon] + rest) ==
            Exec(State([InValue], BeginValue), rest)
  {
    assert [key, Colon] + rest == [key] + ([Colon] + rest);
    ExecCons(State([InKey], if first then BeginKeyOrEmpty else BeginKey), key, [Colon] + rest);
    ExecCons(State([InKey], EndValue), Colon, rest);
    hide Exec;
    assert [InKey][..0] + [InValue] == [InValue];
  }

  /** A key, its colon and its value. */
  lemma MemberScans(key: Token, v: Tokens, more: Tokens, first: bool)
    requires key.Str? && Value(v)
    ensures Exec(State([InKey], if first then BeginKeyOrEmpty else BeginKey), [key, Colon] + (v + more)) ==
            Exec(InFields(false), more)
  {
    ValueInside([InValue], v);
    hide Value, Exec;
    ExecAppend(State([InValue], BeginValue), v, more);
    KeyScan(key, v + more, first);
  }

  lemma KeyedScan(key: Token, v: Tokens, more: Tokens, first: bool)
    requires key.Str? && Value(v)
    ensures Exec(InFields(first), (if first then [] else [Comma]) + [key, Colon] + v + more) == Exec(InFields(false), more)
  {
    hide Value, Exec;
    MemberScans(key, v, more, first);
    ExecComma([key, Colon] + (v + more));
    CommaFirst(first, [key, Colon], v, more);
  }

  lemma ExecComma(ts: Tokens)
    ensures Exec(InFields(false), [Comma] + ts) == Exec(State([InKey], BeginKey), ts)
  {
    ExecCons(InFields(false), Comma, ts);
    hide Exec;
    assert [InValue][..0] + [InKey] == [InKey];
  }

  lemma CommaFirst(first: bool, a: Tokens, b: Tokens, c: Tokens)
    ensures (if first then [] else [Comma]) + a + b + c == if first then a + (b + c) else [Comma] + (a + (b + c))
  {
  }

  /** What holds of every state the scanner reaches before the end of a value. */
  predicate Sane(s: State) {
    var n := |s.stack|;
    match s.mode
    case BeginValueOrEmpty => n > 0 && s.stack[n - 1].InArray?
    case BeginKeyOrEmpty => n > 0 && s.stack[n - 1].InKey?
    case BeginKey => n > 0 && s.stack[n - 1].InKey?
    case EndValue => n > 0
    case Fail => false
    case _ => true
  }

  lemma SaneStep(s: State, t: Token)
    requires Sane(s)
    ensures var n := Step(s, t); n.mode.Fail? || n == DONE || Sane(n)
  {
  }

  /** Open brackets around a value do not make up for a mistake in it. */
  lemma FailLifted(base: seq<Open>, s: State, t: Token)
    requires Sane(s) && Step(s, t).mode.Fail?
    ensures Step(State(base + s.stack, s.mode), t).mode.Fail?
  {
    var n := |s.stack|;
    assert n > 0 ==> (base + s.stack)[|base| + n - 1] == s.stack[n - 1];
  }

  /** A scan that comes to an end begins with one value. */
  lemma {:induction false} ValueFirst(base: seq<Open>, s: State, ts: Tokens) returns (n: nat)
    requires base != [] && Sane(s) && Exec(State(base + s.stack, s.mode), ts) == DONE
    ensures 0 < n <= |ts| && Exec(s, ts[..n]) == DONE && Exec(State(base, EndValue), ts[n..]) == DONE
    decreases |ts|
  {
    hide Exec;
    ExecGoesOn(State(base + s.stack, s.mode), ts);
    var t, next := ts[0], Step(s, ts[0]);
    SaneStep(s, t);
    StepBoth(base, s, t);
    hide Step, Sane;
    if next == DONE {
      n := 1;
      assert base + [] == base && ts[..1] == [t];
      ExecEnd(s, t);
    } else {
      var m := ValueFirst(base, next, ts[1..]);
      n := m + 1;
      assert ts[..n] == [t] + ts[1..][..m] && ts[n..] == ts[1..][m..];
      ExecCons(s, t, ts[1..][..m]);
    }
  }

  lemma StepBoth(base: seq<Open>, s: State, t: Token)
    requires Sane(s) && !Step(State(base + s.stack, s.mode), t).mode.Fail?
    ensures !Step(s, t).mode.Fail?
    ensures Step(State(base + s.stack, s.mode), t) == State(base + Step(s, t).stack, Step(s, t).mode)
  {
    if Step(s, t).mode.Fail? {
      FailLifted(base, s, t);
    } else {
      StepLift(base, s, t);
    }
  }

  lemma EndOnly(ts: Tokens)
    requires Exec(DONE, ts) == DONE
    ensures ts == []
  {
    if ts != [] {
      ExecFails(Step(DONE, ts[0]), ts[1..]);
    }
  }

  lemma {:induction false} Derive(ts: Tokens) returns (j: Json)
    requires Value(ts)
    ensures WellFormed(j) && Text(j) == ts
    decreases |ts|, 1
  {
    hide Exec;
    ExecGoesOn(START, ts);
    var t, rest := ts[0], ts[1..];
    assert ts == [t] + rest;
    if t.LBracket? {
      assert [] + [InArray] == [InArray];
      var items := DeriveItems(rest, true);
      j := Array(items);
    } else if t.LBrace? {
      assert [] + [InKey] == [InKey];
      var fields := DeriveFields(rest, true);
      j := Object(fields);
    } else {
      EndOnly(rest);
      j := Atom(t);
    }
  }

  lemma {:induction false} DeriveItems(ts: Tokens, first: bool) returns (items: Items)
    requires Exec(InItems(first), ts) == DONE
    ensures ItemsFormed(items) && ItemsText(items, first) == ts
    decreases |ts|, 0
  {
    hide Exec;
    ExecGoesOn(InItems(first), ts);
    var t, rest := ts[0], ts[1..];
    assert ts == [t] + rest && [InArray][..0] == [];
    if t.RBracket? {
      EndOnly(rest);
      items := NoItem;
    } else {
      var body := if first then ts else rest;
      var n := ItemFirst(ts, first);
      hide Value, Text, ItemsText, WellFormed, ItemsFormed;
      var head := Derive(body[..n]);
      var tail := DeriveItems(body[n..], false);
      items := Item(head, tail);
      ItemPut(body, n, head, tail, first);
    }
  }

  lemma ItemFirst(ts: Tokens, first: bool) returns (n: nat)
    requires Exec(InItems(first), ts) == DONE && ts != [] && !ts[0].RBracket? && (first || ts[0].Comma?)
    ensures var body := if first then ts else ts[1..];
            0 < n < |body| && Value(body[..n]) && Exec(InItems(false), body[n..]) == DONE
  {
    hide Exec;
    if first {
      BeginEither([InArray], ts);
    } else {
      ExecGoesOn(InItems(false), ts);
    }
    assert [InArray] + [] == [InArray];
    n := ValueFirst([InArray], START, if first then ts else ts[1..]);
    ExecGoesOn(InItems(false), (if first then ts else ts[1..])[n..]);
  }

  lemma FieldsEnd(first: bool)
    ensures FieldsFormed(NoField) && FieldsText(NoField, first) == [RBrace]
  {
  }

  lemma {:induction false} DeriveFields(ts: Tokens, first: bool) returns (fields: Fields)
    requires Exec(InFields(first), ts) == DONE
    ensures FieldsFormed(fields) && FieldsText(fields, first) == ts
    decreases |ts|, 0
  {
    hide Exec, Value, Text, FieldsText, WellFormed, FieldsFormed;
    ExecGoesOn(InFields(first), ts);
    var t, rest := ts[0], ts[1..];
    assert ts == [t] + rest;
    if t.RBrace? {
      assert [InKey][..0] == [] && [InValue][..0] == [];
      EndOnly(rest);
      FieldsEnd(first);
      fields := NoField;
    } else {
      var n := FieldFirst(ts, first);
      hide Step;
      var body := if first then ts else rest;
      var value := Derive(body[2..][..n]);
      var tail := DeriveFields(body[2..][n..], false);
      fields := Field(body[0].text, body[0].spelling, value, tail);
      FieldPut(body, n, value, tail, first);
    }
  }

  lemma FieldPut(body: Tokens, n: nat, value: Json, tail: Fields, first: bool)
    requires |body| >= 2 && body[0].Str? && body[1].Colon? && n <= |body| - 2
    requires WellFormed(value) && FieldsFormed(tail) && Text(value) == body[2..][..n] && FieldsText(tail, false) == body[2..][n..]
    ensures var fields := Field(body[0].text, body[0].spelling, value, tail);
            FieldsFormed(fields) && FieldsText(fields, first) == (if first then [] else [Comma]) + body
  {
    assert body == [body[0], body[1]] + body[2..][..n] + body[2..][n..];
    assert body[0] == Str(body[0].text, body[0].spelling) && body[1] == Colon;
    hide Text, WellFormed;
    var comma := if first then [] else [Comma];
    assert comma + [body[0], Colon] + Text(value) + FieldsText(tail, false) == comma + body;
  }

  lemma FieldFirst(ts: Tokens, first: bool) returns (n: nat)
    requires Exec(InFields(first), ts) == DONE && ts != [] && !ts[0].RBrace?
    ensures !first ==> ts[0].Comma?
    ensures var body := if first then ts else ts[1..];
            && |body| >= 2 && body[0].Str? && body[1].Colon?
            && 0 < n <= |body| - 2 && Value(body[2..][..n]) && Exec(InFields(false), body[2..][n..]) == DONE
  {
    hide Exec;
    var body := ts;
    if first {
      KeyThen(BeginKeyOrEmpty, body);
    } else {
      CommaThen(ts);
      body := ts[1..];
      KeyThen(BeginKey, body);
    }
    assert [InValue] + [] == [InValue];
    n := ValueFirst([InValue], START, body[2..]);
  }

  lemma CommaThen(ts: Tokens)
    requires Exec(InFields(false), ts) == DONE && ts != [] && !ts[0].RBrace?
    ensures ts[0].Comma? && Exec(State([InKey], BeginKey), ts[1..]) == DONE
    ensures ts[1..] != [] && !ts[1].RBrace?
  {
    hide Exec;
    assert [InValue][..0] + [InKey] == [InKey];
    ExecGoesOn(InFields(false), ts);
    ExecGoesOn(State([InKey], BeginKey), ts[1..]);
    assert ts[1..][0] == ts[1];
  }

  lemma KeyThen(mode: Mode, body: Tokens)
    requires mode == BeginKey || mode == BeginKeyOrEmpty
    requires Exec(State([InKey], mode), body) == DONE && body != [] && !body[0].RBrace?
    ensures |body| >= 2 && body[0].Str? && body[1].Colon? && Exec(State([InValue], BeginValue), body[2..]) == DONE
  {
    hide Exec;
    ExecGoesOn(State([InKey], mode), body);
    ColonThen(body[1..]);
    hide Step;
    assert body[1..][1..] == body[2..] && body[1..][0] == body[1];
  }

  lemma ColonThen(ts: Tokens)
    requires Exec(State([InKey], EndValue), ts) == DONE
    ensures ts != [] && ts[0].Colon? && Exec(State([InValue], BeginValue), ts[1..]) == DONE
  {
    hide Exec;
    assert [InKey][..0] + [InValue] == [InValue];
    ExecGoesOn(State([InKey], EndValue), ts);
  }

  /** The scanner accepts exactly the texts of well-formed JSON values. */
  lemma ValueIsGrammar(ts: Tokens)
    ensures Value(ts) <==> exists j :: WellFormed(j) && Text(j) == ts
  {
    if Value(ts) {
      var j := Derive(ts);
    }
    if j :| WellFormed(j) && Text(j) == ts {
      TextScans(j);
    }
  }

  // --- objects and arrays ----------------------------------------------------

  function MembersOf(fields: Fields): seq<Member> {
    if fields.NoField? then [] else [Member(fields.key, Text(fields.value))] + MembersOf(fields.tail)
  }

  function TextsOf(items: Items): seq<Tokens> { if items.NoItem? then [] else [Text(items.head)] + TextsOf(items.tail) }

  lemma {:induction false} FieldsParse(fields: Fields, first: bool)
    requires FieldsFormed(fields)
    ensures ParseMembers(FieldsText(fields, first), first) == Some(MembersOf(fields))
    decreases fields
  {
    if fields.Field? {
      var m, rest := Member(fields.key, Text(fields.value)), FieldsText(fields.tail, false);
      TextScans(fields.value);
      FieldsParse(fields.tail, false);
      FieldStart(fields, first);
      hide Text, FieldsText, ParseMembers, Value, MemberBody, FieldsFormed;
      ParseStep(m, fields.spelling, rest, FieldsText(fields, first), first);
    }
  }

  lemma FieldStart(fields: Fields, first: bool)
    requires fields.Field?
    ensures var ts := FieldsText(fields, first);
            var body := MemberBody(Member(fields.key, Text(fields.value)), fields.spelling, FieldsText(fields.tail, false));
            ts != [] && if first then ts == body else ts[0] == Comma && ts[1..] == body
  {
    hide Text;
    var body := MemberBody(Member(fields.key, Text(fields.value)), fields.spelling, FieldsText(fields.tail, false));
    assert FieldsText(fields, first) == (if first then [] else [Comma]) + body;
  }

  lemma MemberFirst(ts: Tokens, first: bool) returns (n: nat)
    requires ParseMembers(ts, first).Some? && !ts[0].RBrace?
    ensures var k := if first then ts else ts[1..];
            && ts == (if first then [] else [Comma]) + k
            && |k| >= 2 && k[0].Str? && k[1].Colon? && n <= |k| - 2 && Value(k[2..][..n])
            && ParseMembers(k[2..][n..], false).Some?
            && ParseMembers(ts, first).value == [Member(k[0].text, k[2..][..n])] + ParseMembers(k[2..][n..], false).value
  {
    var k := if first then ts else ts[1..];
    n := ValueLen(START, k[2..]);
    ValueLenSound(START, k[2..]);
    assert ts == (if first then [] else [Comma]) + k;
  }

  lemma {:induction false} ParsedFields(ts: Tokens, first: bool) returns (fields: Fields)
    requires ParseMembers(ts, first).Some?
    ensures FieldsFormed(fields) && FieldsText(fields, first) == ts && MembersOf(fields) == ParseMembers(ts, first).value
    decreases |ts|
  {
    if ts[0].RBrace? {
      fields := NoField;
    } else {
      var k := if first then ts else ts[1..];
      var n := MemberFirst(ts, first);
      hide ParseMembers, Value, FieldsText, FieldsFormed, Text, WellFormed;
      var value := Derive(k[2..][..n]);
      var tail := ParsedFields(k[2..][n..], false);
      fields := Field(k[0].text, k[0].spelling, value, tail);
      FieldPut(k, n, value, tail, first);
    }
  }

  /** The parse of an object succeeds exactly on the texts of objects, and gives the
      members there are, each value token for token. */
  lemma ObjectExact(ts: Tokens, ms: seq<Member>)
    ensures ParseObject(ts) == Some(ms) <==>
            exists fields :: FieldsFormed(fields) && Text(Object(fields)) == ts && MembersOf(fields) == ms
  {
    if ParseObject(ts) == Some(ms) {
      var fields := ParsedFields(ts[1..], true);
      assert Text(Object(fields)) == [LBrace] + ts[1..] == ts;
    }
    if fields :| FieldsFormed(fields) && Text(Object(fields)) == ts && MembersOf(fields) == ms {
      FieldsParse(fields, true);
      assert ts[1..] == FieldsText(fields, true);
    }
  }

  lemma {:induction false} ItemsParse(items: Items, first: bool)
    requires ItemsFormed(items)
    ensures ParseElements(ItemsText(items, first), first) == Some(TextsOf(items))
    decreases items
  {
    if items.Item? {
      var v, rest := Text(items.head), ItemsText(items.tail, false);
      TextScans(items.head);
      TextStarts(items.head);
      ItemsParse(items.tail, false);
      hide Text, Value, ItemsFormed;
      ItemStart(items, first);
      ElementStep(v, rest, ItemsText(items, first), first);
    }
  }

  lemma ItemStart(items: Items, first: bool)
    requires items.Item? && Text(items.head) != []
    ensures var ts, body := ItemsText(items, first), Text(items.head) + ItemsText(items.tail, false);
            ts != [] && if first then ts == body else ts[0] == Comma && ts[1..] == body
  {
    hide Text;
    assert ItemsText(items, first) == (if first then [] else [Comma]) + (Text(items.head) + ItemsText(items.tail, false));
  }

  lemma ElementStep(v: Tokens, rest: Tokens, ts: Tokens, first: bool)
    requires Value(v) && v != [] && !v[0].RBracket? && ts != []
    requires if first then ts == v + rest else ts[0] == Comma && ts[1..] == v + rest
    ensures var more := ParseElements(rest, false);
            ParseElements(ts, first) == if more.None? then None else Some([v] + more.value)
  {
    ValueLenOf(START, v, rest);
    assert (v + rest)[..|v|] == v && (v + rest)[|v|..] == rest && (v + rest)[0] == v[0];
    hide Value, ValueLen;
  }

  lemma ElementFirst(ts: Tokens, first: bool) returns (n: nat)
    requires ParseElements(ts, first).Some? && !ts[0].RBracket?
    ensures var v := if first then ts else ts[1..];
            && ts == (if first then [] else [Comma]) + v && n <= |v| && Value(v[..n]) && n > 0
            && ParseElements(v[n..], false).Some?
            && ParseElements(ts, first).value == [v[..n]] + ParseElements(v[n..], false).value
  {
    var v := if first then ts else ts[1..];
    n := ValueLen(START, v);
    ValueLenSound(START, v);
    assert ts == (if first then [] else [Comma]) + v;
  }

  lemma ItemPut(v: Tokens, n: nat, head: Json, tail: Items, first: bool)
    requires n <= |v| && WellFormed(head) && ItemsFormed(tail) && Text(head) == v[..n] && ItemsText(tail, false) == v[n..]
    ensures ItemsFormed(Item(head, tail)) && ItemsText(Item(head, tail), first) == (if first then [] else [Comma]) + v
  {
    hide Text, WellFormed;
    assert v == v[..n] + v[n..];
  }

  lemma {:induction false} ParsedItems(ts: Tokens, first: bool) returns (items: Items)
    requires ParseElements(ts, first).Some?
    ensures ItemsFormed(items) && ItemsText(items, first) == ts && TextsOf(items) == ParseElements(ts, first).value
    decreases |ts|
  {
    if ts[0].RBracket? {
      items := NoItem;
    } else {
      var v := if first then ts else ts[1..];
      var n := ElementFirst(ts, first);
      hide ParseElements, Value, ItemsText, ItemsFormed, Text, WellFormed;
      var head := Derive(v[..n]);
      var tail := ParsedItems(v[n..], false);
      items := Item(head, tail);
      ItemPut(v, n, head, tail, first);
    }
  }

  /** The parse of a list succeeds exactly on the texts of arrays, and gives their entries. */
  lemma ArrayExact(ts: Tokens, vs: seq<Tokens>)
    ensures ParseArray(ts) == Some(vs) <==>
            exists items :: ItemsFormed(items) && Text(Array(items)) == ts && TextsOf(items) == vs
  {
    if ParseArray(ts) == Some(vs) {
      var items := ParsedItems(ts[1..], true);
      assert Text(Array(items)) == [LBracket] + ts[1..] == ts;
    }
    if items :| ItemsFormed(items) && Text(Array(items)) == ts && TextsOf(items) == vs {
      ItemsParse(items, true);
      assert ts[1..] == ItemsText(items, true);
    }
  }
}
