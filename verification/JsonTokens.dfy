/** A settings file as JSON tokens (RFC 8259), white space dropped: the value
    scanner, and splitting an object or array into raw member values. */
module JsonTokens {
  import opened Basics

  /** How a string was spelled in the file; the encoder uses one fixed spelling. */
  datatype Spelling = Canonical | AsWritten(raw: string)

  datatype Token =
    | LBrace | RBrace | LBracket | RBracket | Comma | Colon
    | Str(text: string, spelling: Spelling)
    | Num(raw: string) | True | False | Null

  type Tokens = seq<Token>

  // --- the scanner: a mode and a stack of open brackets ---------------------

  datatype Open = InKey | InValue | InArray

  datatype Mode = BeginValue | BeginValueOrEmpty | BeginKeyOrEmpty | BeginKey | EndValue | Fail

  datatype State = State(stack: seq<Open>, mode: Mode)

  const START := State([], BeginValue)
  const DONE := State([], EndValue)

  function Step(s: State, t: Token): State {
    var fail := State(s.stack, Fail);
    var n := |s.stack|;
    match s.mode
    case BeginValue => BeginOn(s, t)
    case BeginValueOrEmpty =>
      if t.RBracket? && n > 0 && s.stack[n - 1].InArray? then State(s.stack[..n - 1], EndValue) else BeginOn(s, t)
    case BeginKeyOrEmpty =>
      if t.RBrace? && n > 0 && s.stack[n - 1].InKey? then State(s.stack[..n - 1], EndValue)
      else if t.Str? then State(s.stack, EndValue) else fail
    case BeginKey => if t.Str? then State(s.stack, EndValue) else fail
    case EndValue =>
      if n == 0 then fail
      else if s.stack[n - 1].InKey? then
        if t.Colon? then State(s.stack[..n - 1] + [InValue], BeginValue) else fail
      else if s.stack[n - 1].InValue? then
        if t.Comma? then State(s.stack[..n - 1] + [InKey], BeginKey)
        else if t.RBrace? then State(s.stack[..n - 1], EndValue) else fail
      else
        if t.Comma? then State(s.stack, BeginValue)
        else if t.RBracket? then State(s.stack[..n - 1], EndValue) else fail
    case Fail => fail
  }

  function BeginOn(s: State, t: Token): State {
    match t
    case LBrace => State(s.stack + [InKey], BeginKeyOrEmpty)
    case LBracket => State(s.stack + [InArray], BeginValueOrEmpty)
    case Str(_, _) => State(s.stack, EndValue)
    case Num(_) => State(s.stack, EndValue)
    case True => State(s.stack, EndValue)
    case False => State(s.stack, EndValue)
    case Null => State(s.stack, EndValue)
    case _ => State(s.stack, Fail)
  }

  function Exec(s: State, ts: Tokens): State
    decreases |ts|
  {
    if ts == [] then s else Exec(Step(s, ts[0]), ts[1..])
  }

  /** ts is exactly one JSON value. */
  predicate Value(ts: Tokens) { Exec(START, ts) == DONE }

  /** The length of the value that ts begins with, -1 when there is none. */
  function ValueLen(s: State, ts: Tokens): (n: int)
    ensures -1 <= n <= |ts|
    ensures n == 0 ==> s == DONE
    decreases |ts|
  {
    if s == DONE then 0
    else if s.mode.Fail? || ts == [] then -1
    else
      var n := ValueLen(Step(s, ts[0]), ts[1..]);
      if n < 0 then -1 else n + 1
  }

  lemma {:induction false} ExecFails(s: State, ts: Tokens)
    requires s.mode.Fail?
    ensures Exec(s, ts).mode.Fail?
    decreases |ts|
  {
    if ts != [] {
      ExecFails(Step(s, ts[0]), ts[1..]);
    }
  }

  lemma {:induction false} ExecAppend(s: State, a: Tokens, b: Tokens)
    ensures Exec(s, a + b) == Exec(Exec(s, a), b)
    decreases |a|
  {
    if a == [] {
      assert a + b == b;
    } else {
      ExecAppend(Step(s, a[0]), a[1..], b);
      assert (a + b)[1..] == a[1..] + b;
    }
  }

  /** Brackets already open around a value do not change how it scans. */
  lemma StepLift(base: seq<Open>, s: State, t: Token)
    requires s != DONE && !Step(s, t).mode.Fail?
    ensures Step(State(base + s.stack, s.mode), t) == State(base + Step(s, t).stack, Step(s, t).mode)
  {
    var n := |s.stack|;
    if n > 0 {
      var all := base + s.stack;
      assert all[|all| - 1] == s.stack[n - 1];
      assert all[..|all| - 1] == base + s.stack[..n - 1];
      assert all[..|all| - 1] + [InValue] == base + (s.stack[..n - 1] + [InValue]);
      assert all[..|all| - 1] + [InKey] == base + (s.stack[..n - 1] + [InKey]);
    }
    assert base + s.stack + [InKey] == base + (s.stack + [InKey]);
    assert base + s.stack + [InArray] == base + (s.stack + [InArray]);
  }

  lemma {:induction false} ExecLift(base: seq<Open>, s: State, ts: Tokens)
    requires !Exec(s, ts).mode.Fail?
    ensures Exec(State(base + s.stack, s.mode), ts) == State(base + Exec(s, ts).stack, Exec(s, ts).mode)
    decreases |ts|
  {
    if ts != [] {
      if Step(s, ts[0]).mode.Fail? {
        ExecFails(Step(s, ts[0]), ts[1..]);
      }
      StepLift(base, s, ts[0]);
      ExecLift(base, Step(s, ts[0]), ts[1..]);
    }
  }

  lemma ValueInside(base: seq<Open>, v: Tokens)
    requires Value(v)
    ensures Exec(State(base, BeginValue), v) == State(base, EndValue)
  {
    ExecLift(base, START, v);
    assert base + [] == base;
  }

  /** The scanner stops right after a value, whatever follows it. */
  lemma {:induction false} ValueLenOf(s: State, v: Tokens, rest: Tokens)
    requires Exec(s, v) == DONE
    ensures ValueLen(s, v + rest) == |v|
    decreases |v|
  {
    if v != [] {
      if s.mode.Fail? || s == DONE {
        ExecFails(Step(s, v[0]), v[1..]);
      } else {
        assert (v + rest)[1..] == v[1..] + rest;
        ValueLenOf(Step(s, v[0]), v[1..], rest);
      }
    }
  }

  lemma {:induction false} ValueLenSound(s: State, ts: Tokens)
    requires ValueLen(s, ts) >= 0
    ensures Exec(s, ts[..ValueLen(s, ts)]) == DONE
    decreases |ts|
  {
    var n := ValueLen(s, ts);
    if n > 0 {
      ValueLenSound(Step(s, ts[0]), ts[1..]);
      assert ts[..n][1..] == ts[1..][..n - 1];
    }
  }

  // --- objects and arrays ----------------------------------------------------

  /** One key of an object with its value kept as written. */
  datatype Member = Member(key: string, val: Tokens)

  predicate ValidMembers(ms: seq<Member>) { forall i :: 0 <= i < |ms| ==> Value(ms[i].val) }

  /** ts stands right after '{' (first) or after a value. */
  function ParseMembers(ts: Tokens, first: bool): Option<seq<Member>>
    decreases |ts|
  {
    if ts == [] then None
    else if ts[0].RBrace? then if |ts| == 1 then Some([]) else None
    else if !first && !ts[0].Comma? then None
    else
      var k := if first then ts else ts[1..];
      if |k| < 2 || !k[0].Str? || !k[1].Colon? then None
      else
        var n := ValueLen(START, k[2..]);
        if n < 0 then None
        else
          var rest := ParseMembers(k[2..][n..], false);
          if rest.None? then None else Some([Member(k[0].text, k[2..][..n])] + rest.value)
  }

  /** Splits exactly one object into its members in source order. */
  function ParseObject(ts: Tokens): Option<seq<Member>> {
    if ts == [] || !ts[0].LBrace? then None else ParseMembers(ts[1..], true)
  }

  function MembersText(ms: seq<Member>, first: bool): Tokens {
    if ms == [] then [RBrace]
    else (if first then [] else [Comma]) + ([Str(ms[0].key, Canonical), Colon] + ms[0].val + MembersText(ms[1..], false))
  }

  function EncodeObject(ms: seq<Member>): Tokens { [LBrace] + MembersText(ms, true) }

  lemma ParseOneMember(k: string, v: Tokens, rest: Tokens, spelling: Spelling)
    requires Value(v)
    ensures var ts := [Str(k, spelling), Colon] + v + rest;
            |ts| >= 2 && ts[2..] == v + rest && ValueLen(START, ts[2..]) == |v|
            && ts[2..][..|v|] == v && ts[2..][|v|..] == rest
  {
    var ts := [Str(k, spelling), Colon] + v + rest;
    assert ts[2..] == v + rest;
    ValueLenOf(START, v, rest);
  }

  function MemberBody(m: Member, spelling: Spelling, rest: Tokens): Tokens { [Str(m.key, spelling), Colon] + m.val + rest }

  /** ts is one member in front of rest, behind a comma unless it is the first. */
  lemma ParseStep(m: Member, spelling: Spelling, rest: Tokens, ts: Tokens, first: bool)
    requires Value(m.val) && ts != []
    requires var body := MemberBody(m, spelling, rest); if first then ts == body else ts[0] == Comma && ts[1..] == body
    ensures var more := ParseMembers(rest, false);
            ParseMembers(ts, first) == if more.None? then None else Some([m] + more.value)
  {
    var body := MemberBody(m, spelling, rest);
    ParseOneMember(m.key, m.val, rest, spelling);
    assert |body| >= 2 && body[0] == Str(m.key, spelling) && body[1] == Colon;
    var n := ValueLen(START, body[2..]);
    assert n == |m.val| && body[2..][..n] == m.val && body[2..][n..] == rest;
    hide Value, ValueLen;
  }

  lemma MembersTextStart(ms: seq<Member>, first: bool)
    requires ms != []
    ensures var ts, body := MembersText(ms, first), MemberBody(ms[0], Canonical, MembersText(ms[1..], false));
            ts != [] && if first then ts == body else ts[0] == Comma && ts[1..] == body
  {
    var body := MemberBody(ms[0], Canonical, MembersText(ms[1..], false));
    if first {
      assert [] + body == body;
    } else {
      assert ([Comma] + body)[1..] == body;
    }
  }

  lemma ValidHead(ms: seq<Member>)
    requires ValidMembers(ms) && ms != []
    ensures Value(ms[0].val) && ValidMembers(ms[1..])
  {
    hide Value;
  }

  lemma {:induction false} MembersRoundTrip(ms: seq<Member>, first: bool)
    requires ValidMembers(ms)
    ensures ParseMembers(MembersText(ms, first), first) == Some(ms)
    decreases |ms|
  {
    if ms != [] {
      assert [ms[0]] + ms[1..] == ms;
      hide ValidMembers, Value, ParseMembers, MembersText, MemberBody;
      ValidHead(ms);
      MembersTextStart(ms, first);
      MembersRoundTrip(ms[1..], false);
      ParseStep(ms[0], Canonical, MembersText(ms[1..], false), MembersText(ms, first), first);
    }
  }

  /** Parsing undoes encoding. */
  lemma ObjectRoundTrip(ms: seq<Member>)
    requires ValidMembers(ms)
    ensures ParseObject(EncodeObject(ms)) == Some(ms)
  {
    MembersRoundTrip(ms, true);
    assert EncodeObject(ms)[1..] == MembersText(ms, true);
  }

  lemma {:induction false} MembersScan(base: seq<Open>, ms: seq<Member>, first: bool)
    requires ValidMembers(ms)
    ensures Exec(State(base + [if first then InKey else InValue], if first then BeginKeyOrEmpty else EndValue),
                 MembersText(ms, first)) == State(base, EndValue)
    decreases |ms|
  {
    var s := State(base + [if first then InKey else InValue], if first then BeginKeyOrEmpty else EndValue);
    assert s.stack[..|s.stack| - 1] == base;
    if ms == [] {
      assert [RBrace][1..] == [];
    } else {
      var rest := MembersText(ms[1..], false);
      var body := [Str(ms[0].key, Canonical), Colon] + ms[0].val + rest;
      MemberScan(base, ms[0], if first then BeginKeyOrEmpty else BeginKey, rest);
      MembersScan(base, ms[1..], false);
      if first {
        assert [] + body == body;
      } else {
        assert ([Comma] + body)[1..] == body;
      }
    }
  }

  lemma MemberScan(base: seq<Open>, m: Member, mode: Mode, rest: Tokens)
    requires Value(m.val) && mode in {BeginKey, BeginKeyOrEmpty}
    ensures Exec(State(base + [InKey], mode), [Str(m.key, Canonical), Colon] + m.val + rest) ==
            Exec(State(base + [InValue], EndValue), rest)
  {
    var s := State(base + [InKey], mode);
    var ts := [Str(m.key, Canonical), Colon] + m.val + rest;
    assert ts[1..] == [Colon] + m.val + rest;
    assert ts[1..][1..] == m.val + rest;
    assert s.stack[..|s.stack| - 1] == base;
    ExecAppend(State(base + [InValue], BeginValue), m.val, rest);
    ValueInside(base + [InValue], m.val);
  }

  lemma ObjectIsValue(ms: seq<Member>)
    requires ValidMembers(ms)
    ensures Value(EncodeObject(ms))
  {
    assert EncodeObject(ms)[1..] == MembersText(ms, true);
    MembersScan([], ms, true);
    assert [] + [InKey] == [InKey];
  }

  lemma {:induction false} ParsedValid(ts: Tokens, first: bool)
    requires ParseMembers(ts, first).Some?
    ensures ValidMembers(ParseMembers(ts, first).value)
    decreases |ts|
  {
    if !ts[0].RBrace? {
      var k := if first then ts else ts[1..];
      var n := ValueLen(START, k[2..]);
      ValueLenSound(START, k[2..]);
      ParsedValid(k[2..][n..], false);
    }
  }

  /** The token as an encoder writes it. */
  function Respelled(t: Token): Token { if t.Str? then Str(t.text, Canonical) else t }

  predicate SameText(a: Tokens, b: Tokens) {
    |a| == |b| && forall i :: 0 <= i < |a| ==> Respelled(a[i]) == Respelled(b[i])
  }

  lemma SameTextAppend(a: Tokens, b: Tokens, c: Tokens, d: Tokens)
    requires SameText(a, b) && SameText(c, d)
    ensures SameText(a + c, b + d)
  {
  }

  lemma OneRespelled(k: Tokens, n: nat, rest: Tokens)
    requires |k| >= 2 && k[0].Str? && k[1].Colon? && n <= |k| - 2
    requires SameText(rest, k[2..][n..])
    ensures SameText([Str(k[0].text, Canonical), Colon] + k[2..][..n] + rest, k)
  {
    SameTextAppend([Str(k[0].text, Canonical), Colon] + k[2..][..n], k[..2 + n], rest, k[2..][n..]);
    assert k == k[..2 + n] + k[2..][n..];
  }

  lemma {:induction false} MembersRespell(ts: Tokens, first: bool)
    requires ParseMembers(ts, first).Some?
    ensures SameText(MembersText(ParseMembers(ts, first).value, first), ts)
    decreases |ts|
  {
    if !ts[0].RBrace? {
      var k := if first then ts else ts[1..];
      var n := ValueLen(START, k[2..]);
      var rest := ParseMembers(k[2..][n..], false).value;
      MembersRespell(k[2..][n..], false);
      OneRespelled(k, n, MembersText(rest, false));
      TextOfCons(Member(k[0].text, k[2..][..n]), rest, first);
      if !first {
        assert ts == [Comma] + k;
        SameTextAppend([Comma], [Comma], [Str(k[0].text, Canonical), Colon] + k[2..][..n] + MembersText(rest, false), k);
      }
    }
  }

  lemma TextOfCons(m: Member, rest: seq<Member>, first: bool)
    ensures var text := [Str(m.key, Canonical), Colon] + m.val + MembersText(rest, false);
            MembersText([m] + rest, first) == if first then text else [Comma] + text
  {
    assert ([m] + rest)[1..] == rest;
    var text := [Str(m.key, Canonical), Colon] + m.val + MembersText(rest, false);
    assert [] + text == text;
  }

  /** Encoding a parsed object reproduces it token for token, key spelling aside. */
  lemma EncodeUndoesParse(ts: Tokens)
    requires ParseObject(ts).Some?
    ensures SameText(EncodeObject(ParseObject(ts).value), ts)
    ensures ValidMembers(ParseObject(ts).value) && Value(EncodeObject(ParseObject(ts).value))
  {
    MembersRespell(ts[1..], true);
    ParsedValid(ts[1..], true);
    ObjectIsValue(ParseObject(ts).value);
    assert ts == [LBrace] + ts[1..];
  }

  /** The decoder's loop over members. */
  method ParseObjectLoop(ts: Tokens) returns (ms: Option<seq<Member>>)
    ensures ms == ParseObject(ts)
  {
    if ts == [] || !ts[0].LBrace? {
      return None;
    }
    var parsed: seq<Member> := [];
    var rest, first := ts[1..], true;
    assert forall v: seq<Member> :: [] + v == v;
    while rest != [] && !rest[0].RBrace?
      invariant ParseObject(ts) == Prefixed(parsed, ParseMembers(rest, first))
      decreases |rest|
    {
      hide ValueLen;
      if !first && !rest[0].Comma? {
        return None;
      }
      var k := if first then rest else rest[1..];
      if |k| < 2 || !k[0].Str? || !k[1].Colon? {
        return None;
      }
      var n := ValueLen(START, k[2..]);
      if n < 0 {
        return None;
      }
      PrefixedMore(parsed, Member(k[0].text, k[2..][..n]), ParseMembers(k[2..][n..], false));
      parsed := parsed + [Member(k[0].text, k[2..][..n])];
      rest, first := k[2..][n..], false;
    }
    ms := if |rest| == 1 then Some(parsed) else None;
    assert parsed + [] == parsed;
  }

  function Prefixed(ms: seq<Member>, more: Option<seq<Member>>): Option<seq<Member>> {
    if more.None? then None else Some(ms + more.value)
  }

  lemma PrefixedMore(ms: seq<Member>, m: Member, more: Option<seq<Member>>)
    ensures Prefixed(ms, Prefixed([m], more)) == Prefixed(ms + [m], more)
  {
    if more.Some? {
      assert ms + ([m] + more.value) == ms + [m] + more.value;
    }
  }

  /** The encoder's loop over members. */
  method EncodeObjectLoop(ms: seq<Member>) returns (ts: Tokens)
    ensures ts == EncodeObject(ms)
  {
    ts := [LBrace];
    assert ms[0..] == ms;
    for i := 0 to |ms|
      invariant EncodeObject(ms) == ts + MembersText(ms[i..], i == 0)
    {
      var piece := (if i > 0 then [Comma] else []) + ([Str(ms[i].key, Canonical), Colon] + ms[i].val);
      assert ms[i..][1..] == ms[i + 1..];
      assert MembersText(ms[i..], i == 0) == piece + MembersText(ms[i + 1..], false);
      Regroup(ts, piece, MembersText(ms[i + 1..], false));
      ts := ts + piece;
    }
    assert ms[|ms|..] == [];
    ts := ts + [RBrace];
  }

  function ParseElements(ts: Tokens, first: bool): Option<seq<Tokens>>
    decreases |ts|
  {
    if ts == [] then None
    else if ts[0].RBracket? then if |ts| == 1 then Some([]) else None
    else if !first && !ts[0].Comma? then None
    else
      var v := if first then ts else ts[1..];
      var n := ValueLen(START, v);
      if n < 0 then None
      else
        var rest := ParseElements(v[n..], false);
        if rest.None? then None else Some([v[..n]] + rest.value)
  }

  function ParseArray(ts: Tokens): Option<seq<Tokens>> {
    if ts == [] || !ts[0].LBracket? then None else ParseElements(ts[1..], true)
  }

  function ElementsText(vs: seq<Tokens>, first: bool): Tokens {
    if vs == [] then [RBracket]
    else (if first then [] else [Comma]) + (vs[0] + ElementsText(vs[1..], false))
  }

  function EncodeArray(vs: seq<Tokens>): Tokens { [LBracket] + ElementsText(vs, true) }

  predicate ValidElements(vs: seq<Tokens>) { forall i :: 0 <= i < |vs| ==> Value(vs[i]) }

  lemma ValueStart(v: Tokens)
    requires Value(v)
    ensures v != [] && !v[0].RBracket? && !v[0].RBrace?
  {
    if v != [] && (v[0].RBracket? || v[0].RBrace?) {
      ExecFails(Step(START, v[0]), v[1..]);
    }
  }

  lemma {:induction false} ElementsRoundTrip(vs: seq<Tokens>, first: bool)
    requires ValidElements(vs)
    ensures ParseElements(ElementsText(vs, first), first) == Some(vs)
    decreases |vs|
  {
    if vs != [] {
      var rest := ElementsText(vs[1..], false);
      ValueLenOf(START, vs[0], rest);
      ValueStart(vs[0]);
      ElementsRoundTrip(vs[1..], false);
      assert [vs[0]] + vs[1..] == vs;
      var body := vs[0] + rest;
      assert body[..|vs[0]|] == vs[0] && body[|vs[0]|..] == rest;
      if first {
        assert [] + body == body;
      } else {
        assert ([Comma] + body)[1..] == body;
      }
    }
  }

  lemma {:induction false} ElementsScan(vs: seq<Tokens>, first: bool)
    requires ValidElements(vs)
    ensures Exec(State([InArray], if first then BeginValueOrEmpty else EndValue), ElementsText(vs, first)) == DONE
    decreases |vs|
  {
    var s := State([InArray], if first then BeginValueOrEmpty else EndValue);
    if vs == [] {
      assert [RBracket][1..] == [];
      assert [InArray][..0] == [];
    } else {
      var rest := ElementsText(vs[1..], false);
      var body := vs[0] + rest;
      ValueStart(vs[0]);
      ExecAppend(State([InArray], BeginValue), vs[0], rest);
      ValueInside([InArray], vs[0]);
      ElementsScan(vs[1..], false);
      if first {
        assert [] + body == body;
        assert body[0] == vs[0][0];
      } else {
        assert ([Comma] + body)[1..] == body;
      }
    }
  }

  lemma ArrayRoundTrip(vs: seq<Tokens>)
    requires ValidElements(vs)
    ensures ParseArray(EncodeArray(vs)) == Some(vs) && Value(EncodeArray(vs))
  {
    ElementsRoundTrip(vs, true);
    ElementsScan(vs, true);
    assert EncodeArray(vs)[1..] == ElementsText(vs, true);
    assert [] + [InArray] == [InArray];
  }

  lemma {:induction false} ParsedElementsValid(ts: Tokens, first: bool)
    requires ParseElements(ts, first).Some?
    ensures ValidElements(ParseElements(ts, first).value)
    decreases |ts|
  {
    if !ts[0].RBracket? {
      var v := if first then ts else ts[1..];
      var n := ValueLen(START, v);
      ValueLenSound(START, v);
      ParsedElementsValid(v[n..], false);
    }
  }
}
