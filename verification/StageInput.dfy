/** The STAGE INPUT block a worker reads: printed with fences stamped by a nonce,
    and two readers of it, one trusting the rune counts and one the end lines. */
module StageInput {
  import opened Basics
  import opened Text

  /** Text with whether it was cut and whether it was cleaned. */
  datatype Field = Field(value: string, truncated: bool, sanitized: bool)

  datatype Arg = Arg(name: string, field: Field)

  datatype Payload = Payload(args: seq<Arg>, output: Field, body: Field)

  predicate IsHex(c: char) { '0' <= c <= '9' || 'a' <= c <= 'f' }

  predicate IsNonce(nonce: string) { |nonce| == 16 && forall i :: 0 <= i < 16 ==> IsHex(nonce[i]) }

  predicate IsNameChar(c: char) {
    'A' <= c <= 'Z' || 'a' <= c <= 'z' || '0' <= c <= '9' || c == '_' || c == '.' || c == '-'
  }

  /** An argument name a command may declare. */
  predicate IsName(name: string) { name != "" && forall i :: 0 <= i < |name| ==> IsNameChar(name[i]) }

  // --- the printer, each piece in front of the text that follows it --------------

  const BEGIN := "--- begin "
  const COLON := ": "
  const RUNES := " runes"
  const SANITIZED := ", sanitized"
  const TRUNCATED := ", truncated"
  const CLOSE := " ---\n"
  const ARG := "stage arg "
  const ARGS := "stage args"
  const OUTPUT := "pipeline output"
  const BODY := "email body"

  function EmptyMarker(nonce: string, name: string): string { "--- " + nonce + " " + name + ": (none) ---" }

  function Open(nonce: string): string { BEGIN + nonce + " " }

  function Flags(f: Field, next: string): string {
    var t := if f.truncated then TRUNCATED + next else next;
    if f.sanitized then SANITIZED + t else t
  }

  /** The begin line. */
  function Header(nonce: string, name: string, f: Field, next: string): string {
    Open(nonce) + (name + (COLON + (Decimal(|f.value|) + (RUNES + Flags(f, CLOSE + next)))))
  }

  /** The end line, with the line break in front of it. */
  function Footer(nonce: string, name: string): string { "\n--- end " + nonce + " " + name + " ---" }

  function FenceField(nonce: string, name: string, f: Field, next: string): string {
    Header(nonce, name, f, f.value + (Footer(nonce, name) + next))
  }

  function ArgLines(nonce: string, args: seq<Arg>, next: string): string
    decreases |args|
  {
    if args == [] then next
    else FenceField(nonce, ARG + args[0].name, args[0].field, "\n" + ArgLines(nonce, args[1..], next))
  }

  function FieldText(nonce: string, name: string, f: Field, next: string): string {
    if f.value == "" then EmptyMarker(nonce, name) + next else FenceField(nonce, name, f, next)
  }

  function PayloadText(nonce: string, p: Payload): string {
    var rest := FieldText(nonce, OUTPUT, p.output, "\n" + FieldText(nonce, BODY, p.body, ""));
    if p.args == [] then (EmptyMarker(nonce, ARGS) + "\n") + rest else ArgLines(nonce, p.args, rest)
  }

  // --- the text as it is laid out ---------------------------------------------------

  /** The states in the begin line, "sanitized" first. */
  function States(f: Field): string {
    (if f.sanitized then ", sanitized" else "") + (if f.truncated then ", truncated" else "")
  }

  /** One fenced field: begin line, value, end line. */
  function Fenced(nonce: string, name: string, f: Field): string {
    "--- begin " + nonce + " " + name + ": " + Decimal(|f.value|) + " runes" + States(f) + " ---\n"
    + f.value + "\n--- end " + nonce + " " + name + " ---"
  }

  function FencedOrNone(nonce: string, name: string, f: Field): string {
    if f.value == "" then EmptyMarker(nonce, name) else Fenced(nonce, name, f)
  }

  /** Every part of a list followed by a line break. */
  function FencedArgs(nonce: string, args: seq<Arg>): string {
    if args == [] then "" else Fenced(nonce, "stage arg " + args[0].name, args[0].field) + "\n" + FencedArgs(nonce, args[1..])
  }

  lemma FlagsLaidOut(f: Field, next: string)
    ensures Flags(f, next) == States(f) + next
  {
  }

  lemma HeaderLaidOut(nonce: string, name: string, f: Field, next: string)
    ensures Header(nonce, name, f, next) ==
            "--- begin " + nonce + " " + name + ": " + Decimal(|f.value|) + " runes" + States(f) + " ---\n" + next
  {
    FlagsLaidOut(f, CLOSE + next);
    hide Decimal, States, Flags;
  }

  lemma FenceLaidOut(nonce: string, name: string, f: Field, next: string)
    ensures FenceField(nonce, name, f, next) == Fenced(nonce, name, f) + next
  {
    HeaderLaidOut(nonce, name, f, f.value + (Footer(nonce, name) + next));
    hide Decimal, States, Header;
    var head := "--- begin " + nonce + " " + name + ": " + Decimal(|f.value|) + " runes" + States(f) + " ---\n";
    assert Fenced(nonce, name, f) == head + f.value + Footer(nonce, name);
    AssociateFour(head, f.value, Footer(nonce, name), next);
  }

  lemma AssociateFour(a: string, b: string, c: string, d: string)
    ensures a + (b + (c + d)) == a + b + c + d
  {
  }

  lemma {:induction false} ArgsLaidOut(nonce: string, args: seq<Arg>, next: string)
    ensures ArgLines(nonce, args, next) == FencedArgs(nonce, args) + next
    decreases |args|
  {
    hide Fenced, FenceField;
    if args != [] {
      ArgsLaidOut(nonce, args[1..], next);
      FenceLaidOut(nonce, ARG + args[0].name, args[0].field, "\n" + ArgLines(nonce, args[1..], next));
    }
  }

  /** The block: the arguments or their marker, the pipeline's output and the body, one
      under the other. */
  lemma PayloadLaidOut(nonce: string, p: Payload)
    ensures PayloadText(nonce, p) ==
            (if p.args == [] then EmptyMarker(nonce, "stage args") + "\n" else FencedArgs(nonce, p.args))
            + (FencedOrNone(nonce, "pipeline output", p.output) + "\n" + FencedOrNone(nonce, "email body", p.body))
  {
    hide FenceField, Fenced, EmptyMarker, ArgLines, FencedArgs;
    FenceLaidOut(nonce, BODY, p.body, "");
    var body := FieldText(nonce, BODY, p.body, "");
    assert body == FencedOrNone(nonce, "email body", p.body);
    FenceLaidOut(nonce, OUTPUT, p.output, "\n" + body);
    ArgsLaidOut(nonce, p.args, FieldText(nonce, OUTPUT, p.output, "\n" + body));
  }

  // --- the readers -----------------------------------------------------------------

  /** What a begin line says. */
  datatype Begin = Begin(name: string, count: nat, truncated: bool, sanitized: bool, rest: string)

  function StripFlag(s: string, flag: string): (bool, string) {
    if Strip(s, flag).Some? then (true, Strip(s, flag).value) else (false, s)
  }

  function ReadBegin(nonce: string, s: string): Option<Begin> {
    var r0 := Strip(s, Open(nonce));
    if r0.None? then None else
    var k := IndexOf(r0.value, ':');
    var r1 := Strip(r0.value[k..], COLON);
    if r1.None? then None else
    var d := Digits(r1.value);
    var r2 := Strip(r1.value[d..], RUNES);
    if r2.None? then None else
    var (sanitized, r3) := StripFlag(r2.value, SANITIZED);
    var (truncated, r4) := StripFlag(r3, TRUNCATED);
    var r5 := Strip(r4, CLOSE);
    if r5.None? then None
    else Some(Begin(r0.value[..k], Number(r1.value[..d]), truncated, sanitized, r5.value))
  }

  datatype Reader = ByCount | ByNonce

  /** How long the value is: as counted in the begin line, or up to the end line. */
  function ValueLength(reader: Reader, nonce: string, b: Begin): int {
    if reader.ByCount? then b.count else Find(b.rest, Footer(nonce, b.name), 0)
  }

  /** One fenced field with its name, and what follows it. */
  function ReadFence(reader: Reader, nonce: string, s: string): Option<(string, Field, string)> {
    var b := ReadBegin(nonce, s);
    if b.None? then None else
    var n := ValueLength(reader, nonce, b.value);
    if !(0 <= n <= |b.value.rest|) then None else
    var rest := Strip(b.value.rest[n..], Footer(nonce, b.value.name));
    if rest.None? then None
    else Some((b.value.name, Field(b.value.rest[..n], b.value.truncated, b.value.sanitized), rest.value))
  }

  function ReadField(reader: Reader, nonce: string, name: string, s: string): Option<(Field, string)> {
    var none := Strip(s, EmptyMarker(nonce, name));
    if none.Some? then Some((Field("", false, false), none.value))
    else
      var fence := ReadFence(reader, nonce, s);
      if fence.None? || fence.value.0 != name then None else Some((fence.value.1, fence.value.2))
  }

  function ReadArgs(reader: Reader, nonce: string, s: string): Option<(seq<Arg>, string)>
    decreases |s|
  {
    if Strip(s, Open(nonce) + ARG).None? then Some(([], s))
    else
      var fence := ReadFence(reader, nonce, s);
      if fence.None? then None else
      var name := Strip(fence.value.0, ARG);
      var rest := Strip(fence.value.2, "\n");
      if name.None? || rest.None? || |rest.value| >= |s| then None
      else
        var more := ReadArgs(reader, nonce, rest.value);
        if more.None? then None else Some(([Arg(name.value, fence.value.1)] + more.value.0, more.value.1))
  }

  function ReadPayload(reader: Reader, nonce: string, s: string): Option<Payload> {
    var none := Strip(s, EmptyMarker(nonce, ARGS) + "\n");
    var args := if none.Some? then Some(([], none.value)) else ReadArgs(reader, nonce, s);
    if args.None? then None else
    var output := ReadField(reader, nonce, OUTPUT, args.value.1);
    if output.None? then None else
    var line := Strip(output.value.1, "\n");
    if line.None? then None else
    var body := ReadField(reader, nonce, BODY, line.value);
    if body.None? || body.value.1 != "" then None
    else Some(Payload(args.value.0, output.value.0, body.value.0))
  }

  // --- reading back what was printed --------------------------------------------------

  predicate IsFieldName(name: string) { name != "" && ':' !in name && '\n' !in name }

  lemma FlagStripped(flag: string, present: bool, next: string)
    requires |flag| > 2 && (Strip(next, flag).None?)
    ensures StripFlag(if present then flag + next else next, flag) == (present, next)
  {
    StripOf(flag, next);
  }

  lemma FlagsRead(f: Field, next: string)
    ensures var (sanitized, r3) := StripFlag(Flags(f, CLOSE + next), SANITIZED);
            var (truncated, r4) := StripFlag(r3, TRUNCATED);
            sanitized == f.sanitized && truncated == f.truncated && Strip(r4, CLOSE) == Some(next)
  {
    var tail := CLOSE + next;
    var t := if f.truncated then TRUNCATED + tail else tail;
    StripOf(CLOSE, next);
    NotFlag(CLOSE, next, TRUNCATED, 0);
    NotFlag(CLOSE, next, SANITIZED, 0);
    NotFlag(TRUNCATED, tail, SANITIZED, 2);
    FlagStripped(TRUNCATED, f.truncated, tail);
    FlagStripped(SANITIZED, f.sanitized, t);
  }

  /** Texts that differ early are not prefixes of one another. */
  lemma NotFlag(a: string, next: string, p: string, k: nat)
    requires k < |a| && k < |p| && a[k] != p[k]
    ensures Strip(a + next, p).None?
  {
    var s := a + next;
    assert s[k] == a[k];
    assert |p| <= |s| ==> s[..|p|][k] == s[k];
  }

  lemma BeginRead(nonce: string, name: string, f: Field, next: string)
    requires IsFieldName(name)
    ensures ReadBegin(nonce, Header(nonce, name, f, next)) == Some(Begin(name, |f.value|, f.truncated, f.sanitized, next))
  {
    var flags := Flags(f, CLOSE + next);
    var r2 := RUNES + flags;
    var r1 := Decimal(|f.value|) + r2;
    var r0 := name + (COLON + r1);
    assert !IsDigit(r2[0]);
    NameEnds(name, r1);
    FlagsRead(f, next);
    hide Flags, Decimal, Number, Digits, StripFlag, Open, RUNES, COLON, CLOSE, SANITIZED, TRUNCATED, IndexOf;
    StripOf(Open(nonce), r0);
    StripOf(COLON, r1);
    DigitsOf(|f.value|, r2);
    StripOf(RUNES, flags);
  }

  lemma NameEnds(name: string, r1: string)
    requires IsFieldName(name)
    ensures var r0 := name + (COLON + r1);
            IndexOf(r0, ':') == |name| && r0[..|name|] == name && r0[|name|..] == COLON + r1
  {
    var r0 := name + (COLON + r1);
    assert r0[|name|] == ':';
    assert forall i :: 0 <= i < |name| ==> r0[i] == name[i];
    assert r0[..|name|] == name;
  }

  lemma FooterBorderFree(nonce: string, name: string)
    requires IsNonce(nonce) && IsFieldName(name)
    ensures BorderFree(Footer(nonce, name))
  {
    var pat := Footer(nonce, name);
    forall k | 0 < k < |pat| ensures pat[k] != '\n' {
      if k < 9 {
        assert pat[k] == "\n--- end "[k];
      } else if k < 25 {
        assert pat[k] == nonce[k - 9];
      } else if 26 <= k < 26 + |name| {
        assert pat[k] == name[k - 26];
      }
    }
    UniqueStart(pat);
  }

  /** When the reader may trust the value: always by count; by end line when the
      nonce does not occur in it. */
  ghost predicate Readable(reader: Reader, nonce: string, value: string) {
    reader.ByNonce? ==> !Contains(value, nonce)
  }

  /** The end line is found right after the value. */
  lemma FooterFound(nonce: string, name: string, value: string, next: string)
    requires IsNonce(nonce) && IsFieldName(name) && !Contains(value, nonce)
    ensures Find(value + (Footer(nonce, name) + next), Footer(nonce, name), 0) == |value|
  {
    var foot := Footer(nonce, name);
    FooterBorderFree(nonce, name);
    FooterParts(nonce, name);
    ContainsPart(value, "\n--- end ", nonce, " " + name + " ---");
    hide Footer;
    FindAfter(value, foot, next);
    Regroup(value, foot, next);
  }

  lemma FooterParts(nonce: string, name: string)
    ensures Footer(nonce, name) == "\n--- end " + nonce + (" " + name + " ---")
  {
  }

  /** A reader that measures the value right reads the field back. */
  lemma MeasuredRead(reader: Reader, nonce: string, name: string, f: Field, next: string)
    requires IsFieldName(name)
    requires var after := f.value + (Footer(nonce, name) + next);
             ValueLength(reader, nonce, Begin(name, |f.value|, f.truncated, f.sanitized, after)) == |f.value|
    ensures ReadFence(reader, nonce, FenceField(nonce, name, f, next)) == Some((name, f, next))
  {
    hide Header, Footer, ReadBegin, Find, ValueLength, IsFieldName, Strip;
    var foot := Footer(nonce, name);
    var after := f.value + (foot + next);
    BeginRead(nonce, name, f, after);
    assert after[..|f.value|] == f.value && after[|f.value|..] == foot + next;
    StripOf(foot, next);
  }

  lemma FenceRead(reader: Reader, nonce: string, name: string, f: Field, next: string)
    requires IsNonce(nonce) && IsFieldName(name) && Readable(reader, nonce, f.value)
    ensures ReadFence(reader, nonce, FenceField(nonce, name, f, next)) == Some((name, f, next))
  {
    hide Footer, Find, Contains, IsNonce, IsFieldName, ReadFence, FenceField;
    if reader.ByNonce? {
      FooterFound(nonce, name, f.value, next);
    }
    MeasuredRead(reader, nonce, name, f, next);
  }

  /** A begin line is told from an empty marker by its seventh character. */
  lemma BeginIsNotMarker(nonce: string, name: string, next: string, other: string)
    requires IsNonce(nonce)
    ensures Strip(Open(nonce) + next, EmptyMarker(nonce, name) + other).None?
    ensures Strip(EmptyMarker(nonce, name) + next, Open(nonce) + other).None?
  {
    assert Open(nonce)[6] == 'g' && EmptyMarker(nonce, name)[6] == nonce[2];
    hide Open, EmptyMarker;
    NotFlag(Open(nonce), next, EmptyMarker(nonce, name) + other, 6);
    NotFlag(EmptyMarker(nonce, name), next, Open(nonce) + other, 6);
  }

  /** An empty field is printed as "(none)", so its flags are not in the text. */
  function Normal(f: Field): Field { if f.value == "" then Field("", false, false) else f }

  lemma FieldRead(reader: Reader, nonce: string, name: string, f: Field, next: string)
    requires IsNonce(nonce) && IsFieldName(name) && Readable(reader, nonce, f.value)
    ensures ReadField(reader, nonce, name, FieldText(nonce, name, f, next)) == Some((Normal(f), next))
  {
    hide EmptyMarker, Open, Footer, IsNonce, ReadFence, Contains, Flags, Decimal, COLON, RUNES, CLOSE;
    if f.value == "" {
      StripOf(EmptyMarker(nonce, name), next);
    } else {
      FenceRead(reader, nonce, name, f, next);
      var tail := name + (COLON + (Decimal(|f.value|) + (RUNES + Flags(f, CLOSE + (f.value + (Footer(nonce, name) + next))))));
      BeginIsNotMarker(nonce, name, tail, "");
      assert EmptyMarker(nonce, name) + "" == EmptyMarker(nonce, name);
    }
  }

  /** A field that is no argument ends the list of arguments. */
  lemma NotAnArg(nonce: string, f: Field, next: string)
    requires IsNonce(nonce)
    ensures Strip(FieldText(nonce, OUTPUT, f, next), Open(nonce) + ARG).None?
  {
    if f.value == "" {
      BeginIsNotMarker(nonce, OUTPUT, next, ARG);
    } else {
      var open := Open(nonce);
      var tail := COLON + (Decimal(|f.value|) + (RUNES + Flags(f, CLOSE + (f.value + (Footer(nonce, OUTPUT) + next)))));
      hide Open, Footer, Flags, Decimal, COLON, RUNES, CLOSE;
      assert FieldText(nonce, OUTPUT, f, next) == open + (OUTPUT + tail);
      Regroup(open, OUTPUT, tail);
      NotFlag(open + OUTPUT, tail, open + ARG, |open|);
    }
  }

  lemma NameIsField(name: string)
    requires IsName(name)
    ensures IsFieldName(ARG + name)
  {
    forall i | 0 <= i < |ARG + name| ensures (ARG + name)[i] != ':' && (ARG + name)[i] != '\n' {
      if i >= |ARG| {
        assert (ARG + name)[i] == name[i - |ARG|];
        assert IsNameChar(name[i - |ARG|]);
      }
    }
  }

  ghost predicate ArgsReadable(reader: Reader, nonce: string, args: seq<Arg>) {
    forall i :: 0 <= i < |args| ==> IsName(args[i].name) && Readable(reader, nonce, args[i].field.value)
  }

  /** An argument's fence is longer than what follows it and starts like one. */
  lemma StartsArg(nonce: string, a: Arg, next: string)
    ensures Strip(FenceField(nonce, ARG + a.name, a.field, next), Open(nonce) + ARG).Some?
    ensures |FenceField(nonce, ARG + a.name, a.field, next)| > |next|
  {
    var open := Open(nonce);
    var tail := COLON + (Decimal(|a.field.value|) + (RUNES + Flags(a.field, CLOSE + (a.field.value + (Footer(nonce, ARG + a.name) + next)))));
    assert |tail| > |next|;
    hide Open, Footer, Flags, Decimal, COLON, RUNES, CLOSE;
    assert FenceField(nonce, ARG + a.name, a.field, next) == open + ((ARG + a.name) + tail);
    assert open + ((ARG + a.name) + tail) == (open + ARG) + (a.name + tail);
    StripOf(open + ARG, a.name + tail);
  }

  lemma OneArgRead(reader: Reader, nonce: string, a: Arg, more: string)
    requires IsNonce(nonce) && IsName(a.name) && Readable(reader, nonce, a.field.value)
    requires ReadArgs(reader, nonce, more).Some?
    ensures var later := ReadArgs(reader, nonce, more).value;
            ReadArgs(reader, nonce, FenceField(nonce, ARG + a.name, a.field, "\n" + more)) ==
            Some(([a] + later.0, later.1))
  {
    NameIsField(a.name);
    hide FenceField, ReadFence, IsNonce, IsName, ARG, Open, Contains, IsFieldName;
    FenceRead(reader, nonce, ARG + a.name, a.field, "\n" + more);
    StripOf("\n", more);
    StripOf(ARG, a.name);
    StartsArg(nonce, a, "\n" + more);
  }

  lemma {:induction false} ArgsRead(reader: Reader, nonce: string, args: seq<Arg>, f: Field, next: string)
    requires IsNonce(nonce) && ArgsReadable(reader, nonce, args)
    ensures var tail := FieldText(nonce, OUTPUT, f, next);
            ReadArgs(reader, nonce, ArgLines(nonce, args, tail)) == Some((args, tail))
    decreases |args|
  {
    hide FieldText, FenceField, ReadFence, IsNonce, IsName, ARG, OUTPUT, Open, Contains, IsFieldName, Strip;
    var tail := FieldText(nonce, OUTPUT, f, next);
    if args == [] {
      NotAnArg(nonce, f, next);
    } else {
      ArgsRead(reader, nonce, args[1..], f, next);
      OneArgRead(reader, nonce, args[0], ArgLines(nonce, args[1..], tail));
      assert [args[0]] + args[1..] == args;
    }
  }

  ghost predicate PayloadReadable(reader: Reader, nonce: string, p: Payload) {
    && ArgsReadable(reader, nonce, p.args)
    && Readable(reader, nonce, p.output.value) && Readable(reader, nonce, p.body.value)
  }

  lemma ArgsAreNotNone(nonce: string, args: seq<Arg>, next: string)
    requires IsNonce(nonce) && args != []
    ensures Strip(ArgLines(nonce, args, next), EmptyMarker(nonce, ARGS) + "\n").None?
  {
    var a := args[0];
    var more := "\n" + ArgLines(nonce, args[1..], next);
    var tail := COLON + (Decimal(|a.field.value|) + (RUNES + Flags(a.field, CLOSE + (a.field.value + (Footer(nonce, ARG + a.name) + more)))));
    hide Open, Footer, Flags, Decimal, COLON, RUNES, CLOSE, EmptyMarker, ARG, ARGS, IsNonce;
    assert ArgLines(nonce, args, next) == Open(nonce) + ((ARG + a.name) + tail);
    BeginIsNotMarker(nonce, ARGS, (ARG + a.name) + tail, "\n");
  }

  lemma FixedNames()
    ensures IsFieldName(OUTPUT) && IsFieldName(BODY)
  {
  }

  /** Either reader recovers the printed payload: by the rune counts for every
      payload whatever a sender planted in it, by the end lines whenever the nonce
      occurs in no value. */
  lemma PayloadRead(reader: Reader, nonce: string, p: Payload)
    requires IsNonce(nonce) && PayloadReadable(reader, nonce, p)
    ensures ReadPayload(reader, nonce, PayloadText(nonce, p)) ==
            Some(Payload(p.args, Normal(p.output), Normal(p.body)))
  {
    FixedNames();
    hide FieldText, ReadField, EmptyMarker, IsNonce, OUTPUT, BODY, ARGS, ArgLines, ReadArgs, IsFieldName, Normal;
    var body := FieldText(nonce, BODY, p.body, "");
    var rest := FieldText(nonce, OUTPUT, p.output, "\n" + body);
    FieldRead(reader, nonce, OUTPUT, p.output, "\n" + body);
    StripOf("\n", body);
    FieldRead(reader, nonce, BODY, p.body, "");
    if p.args == [] {
      StripOf(EmptyMarker(nonce, ARGS) + "\n", rest);
    } else {
      ArgsRead(reader, nonce, p.args, p.output, "\n" + body);
      ArgsAreNotNone(nonce, p.args, rest);
    }
  }

  lemma CountReadsMore(nonce: string, p: Payload)
    requires PayloadReadable(ByNonce, nonce, p)
    ensures PayloadReadable(ByCount, nonce, p)
  {
    hide Contains, IsName;
  }

  /** Without the nonce in any value the two readers agree. */
  lemma ReadersAgree(nonce: string, p: Payload)
    requires IsNonce(nonce) && PayloadReadable(ByNonce, nonce, p)
    ensures ReadPayload(ByCount, nonce, PayloadText(nonce, p)) == ReadPayload(ByNonce, nonce, PayloadText(nonce, p))
  {
    hide *;
    CountReadsMore(nonce, p);
    PayloadRead(ByCount, nonce, p);
    PayloadRead(ByNonce, nonce, p);
  }
}
