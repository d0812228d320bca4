/** What gpg's machine-readable output says about a key's expiry and a signature. */
module GpgVerdicts {
  import opened Basics
  import opened Text

  // --- fields and numbers -----------------------------------------------------------

  function SplitAt(s: string, c: char): (fields: seq<string>)
    ensures |fields| >= 1
  {
    if s == "" then [""]
    else
      var rest := SplitAt(s[1..], c);
      if s[0] == c then [""] + rest else [[s[0]] + rest[0]] + rest[1..]
  }

  function Joined(fields: seq<string>, c: char): string
    requires fields != []
  {
    if |fields| == 1 then fields[0] else fields[0] + [c] + Joined(fields[1..], c)
  }

  predicate Without(fields: seq<string>, c: char) { forall i :: 0 <= i < |fields| ==> c !in fields[i] }

  lemma {:induction false} SplitAtSound(s: string, c: char)
    ensures Joined(SplitAt(s, c), c) == s && Without(SplitAt(s, c), c)
  {
    if s != "" {
      SplitAtSound(s[1..], c);
      var rest, all := SplitAt(s[1..], c), SplitAt(s, c);
      if s[0] == c {
        assert all[1..] == rest;
      } else {
        assert all[1..] == rest[1..];
        assert |rest| == 1 || Joined(all, c) == [s[0]] + rest[0] + [c] + Joined(rest[1..], c);
      }
      assert s == [s[0]] + s[1..];
    }
  }

  lemma {:induction false} SplitAtPlain(a: string, c: char)
    requires c !in a
    ensures SplitAt(a, c) == [a]
  {
    if a != "" {
      SplitAtPlain(a[1..], c);
      assert a[0] in a && [a[0]] + a[1..] == a;
    }
  }

  lemma {:induction false} SplitAtCons(a: string, c: char, rest: string)
    requires c !in a
    ensures SplitAt(a + [c] + rest, c) == [a] + SplitAt(rest, c)
  {
    var s := a + [c] + rest;
    if a == "" {
      assert s[1..] == rest;
    } else {
      SplitAtCons(a[1..], c, rest);
      assert a[0] in a && s[0] == a[0] && s[1..] == a[1..] + [c] + rest;
      assert [a[0]] + a[1..] == a;
    }
  }

  lemma {:induction false} SplitAtComplete(fields: seq<string>, c: char)
    requires fields != [] && Without(fields, c)
    ensures SplitAt(Joined(fields, c), c) == fields
  {
    if |fields| == 1 {
      SplitAtPlain(fields[0], c);
    } else {
      SplitAtCons(fields[0], c, Joined(fields[1..], c));
      SplitAtComplete(fields[1..], c);
      assert [fields[0]] + fields[1..] == fields;
    }
  }

  /** The fields of a text are the one list without the separator that joins to it. */
  lemma SplitAtExact(s: string, c: char, fields: seq<string>)
    ensures SplitAt(s, c) == fields <==> fields != [] && Without(fields, c) && Joined(fields, c) == s
  {
    SplitAtSound(s, c);
    if fields != [] && Without(fields, c) {
      SplitAtComplete(fields, c);
    }
  }

  predicate AllDigits(s: string) { s != "" && forall i :: 0 <= i < |s| ==> IsDigit(s[i]) }

  const MIN64 := -0x8000_0000_0000_0000
  const MAX64 := 0x7FFF_FFFF_FFFF_FFFF

  /** A decimal with an optional sign that fits 64 bits. */
  function ParseInt64(s: string): Option<int> {
    var signed := s != "" && (s[0] == '+' || s[0] == '-');
    var digits := if signed then s[1..] else s;
    if !AllDigits(digits) then None
    else
      var size: int := Number(digits);
      var n := if signed && s[0] == '-' then -size else size;
      if MIN64 <= n <= MAX64 then Some(n) else None
  }

  predicate ReadsAs(s: string, n: int) {
    ParseInt64(s) == if -0x8000_0000_0000_0000 <= n <= 0x7FFF_FFFF_FFFF_FFFF then Some(n) else None
  }

  /** A printed number, with or without a sign, is read back exactly when it fits. */
  lemma ParseExact(n: nat)
    ensures ReadsAs(Decimal(n), n) && ReadsAs("+" + Decimal(n), n) && ReadsAs("-" + Decimal(n), -(n as int))
  {
    var d := Decimal(n);
    NumberOfDecimal(n);
    assert IsDigit(d[0]) && ("+" + d)[1..] == d && ("-" + d)[1..] == d;
  }

  lemma ParseRefuses(s: string)
    requires ParseInt64(s).Some?
    ensures exists sign, digits :: s == sign + digits && sign in {"", "+", "-"} && AllDigits(digits)
  {
    if s[0] == '+' || s[0] == '-' {
      assert s == [s[0]] + s[1..] && [s[0]] in {"", "+", "-"};
    } else {
      assert s == "" + s;
    }
  }

  predicate Current(field: string, now: int) { ParseInt64(field).Some? && ParseInt64(field).value > now }

  // --- key expiry ----------------------------------------------------------------------

  predicate IsPub(line: string) { var f := SplitAt(line, ':'); f[0] == "pub" && |f| >= 7 }

  predicate IsSigningSub(line: string) { var f := SplitAt(line, ':'); f[0] == "sub" && |f| >= 12 && 's' in f[11] }

  function Expiry(line: string): string
    requires IsPub(line) || IsSigningSub(line)
  {
    SplitAt(line, ':')[6]
  }

  predicate Expires(field: string) { field != "" && field != "0" }

  /** Which records count, and where their expiry stands, field by field. */
  lemma RecordExact(fields: seq<string>)
    requires fields != [] && Without(fields, ':')
    ensures var line := Joined(fields, ':');
            && (IsPub(line) <==> fields[0] == "pub" && |fields| >= 7)
            && (IsSigningSub(line) <==> fields[0] == "sub" && |fields| >= 12 && 's' in fields[11])
            && (IsPub(line) || IsSigningSub(line) ==> Expiry(line) == fields[6])
  {
    SplitAtComplete(fields, ':');
  }

  function Pubs(lines: seq<string>): seq<string> {
    if lines == [] then [] else (if IsPub(lines[0]) then [lines[0]] else []) + Pubs(lines[1..])
  }

  /** A public key expires and has not expired; a signing subkey expires. */
  predicate Fine(l: string, now: int) {
    && (IsPub(l) ==> Expires(Expiry(l)) && Current(Expiry(l), now))
    && (IsSigningSub(l) ==> Expires(Expiry(l)))
  }

  predicate CurrentSub(l: string, now: int) { IsSigningSub(l) && Current(Expiry(l), now) }

  /** One public key, not expired; no signing subkey without an expiry; and if there
      are signing subkeys, one that is current. */
  ghost predicate Accepts(lines: seq<string>, now: int) {
    && |Pubs(lines)| == 1
    && (forall l :: l in lines ==> Fine(l, now))
    && ((exists l :: l in lines && IsSigningSub(l)) ==> exists l :: l in lines && CurrentSub(l, now))
  }

  datatype Finding = NoExpiry | Expired | SubkeyNoExpiry | NotFound | Ambiguous | NoCurrentSubkey

  /** Record l is the first one to end the scan, and finding says why. */
  predicate FirstBad(lines: seq<string>, now: int, i: int, finding: Finding) {
    && 0 <= i < |lines| && (forall k :: 0 <= k < i ==> Fine(lines[k], now))
    && match finding
       case NoExpiry => IsPub(lines[i]) && !Expires(Expiry(lines[i]))
       case Expired => IsPub(lines[i]) && Expires(Expiry(lines[i])) && !Current(Expiry(lines[i]), now)
       case SubkeyNoExpiry => IsSigningSub(lines[i]) && !Expires(Expiry(lines[i]))
       case _ => false
  }

  /** What has to be the case for the scan to end with this finding. */
  ghost predicate Explains(lines: seq<string>, now: int, finding: Finding) {
    if finding.NoExpiry? || finding.Expired? || finding.SubkeyNoExpiry? then exists i :: FirstBad(lines, now, i, finding)
    else
      && (forall l :: l in lines ==> Fine(l, now))
      && match finding
         case NotFound => |Pubs(lines)| == 0
         case Ambiguous => |Pubs(lines)| > 1
         case _ =>
           && |Pubs(lines)| == 1 && (exists l :: l in lines && IsSigningSub(l))
           && !exists l :: l in lines && CurrentSub(l, now)
  }

  lemma BadAt(lines: seq<string>, now: int, i: nat, finding: Finding)
    requires i < |lines| && FirstBad([lines[i]], now, 0, finding) && forall l :: l in lines[..i] ==> Fine(l, now)
    ensures Explains(lines, now, finding)
  {
    hide Fine;
    assert forall k :: 0 <= k < i ==> lines[k] == lines[..i][k];
    assert FirstBad(lines, now, i, finding);
  }

  /** A scan that reaches its end. */
  lemma EndExplained(lines: seq<string>, now: int, pubs: nat, signing: bool, valid: bool)
    requires pubs == |Pubs(lines)| && forall l :: l in lines ==> Fine(l, now)
    requires signing <==> exists l :: l in lines && IsSigningSub(l)
    requires valid <==> exists l :: l in lines && CurrentSub(l, now)
    ensures Accepts(lines, now) <==> pubs == 1 && (signing ==> valid)
    ensures pubs == 0 ==> Explains(lines, now, NotFound)
    ensures pubs > 1 ==> Explains(lines, now, Ambiguous)
    ensures pubs == 1 && signing && !valid ==> Explains(lines, now, NoCurrentSubkey)
  {
  }

  lemma BadRefused(lines: seq<string>, now: int, i: nat)
    requires i < |lines| && !Fine(lines[i], now)
    ensures !Accepts(lines, now)
  {
    assert lines[i] in lines;
  }

  lemma PubsSnoc(lines: seq<string>, l: string)
    ensures Pubs(lines + [l]) == Pubs(lines) + (if IsPub(l) then [l] else [])
  {
    if lines == [] {
      assert lines + [l] == [l] && [l][1..] == [];
    } else {
      PubsSnoc(lines[1..], l);
      assert (lines + [l])[1..] == lines[1..] + [l];
    }
  }

  lemma PubIsNoSub(l: string)
    ensures !(IsPub(l) && IsSigningSub(l))
  {
  }

  /** The scan over records: early exits and counters accept exactly as specified. */
  method ParseColonExpiry(lines: seq<string>, now: int) returns (finding: Option<Finding>)
    ensures finding.None? <==> Accepts(lines, now)
    ensures finding.Some? ==> Explains(lines, now, finding.value)
  {
    assert lines[..0] == [] && Pubs([]) == [];
    hide Current, SplitAt, Pubs, Expires, Explains, FirstBad, Accepts, Fine;
    var pubCount := 0;
    var sawSigning, haveValid := false, false;
    for i := 0 to |lines|
      invariant pubCount == |Pubs(lines[..i])|
      invariant forall l :: l in lines[..i] ==> Fine(l, now)
      invariant sawSigning <==> exists l :: l in lines[..i] && IsSigningSub(l)
      invariant haveValid <==> exists l :: l in lines[..i] && CurrentSub(l, now)
    {
      var l := lines[i];
      assert lines[..i + 1] == lines[..i] + [l] && l in lines;
      PubsSnoc(lines[..i], l);
      PubIsNoSub(l);
      var bad := Check(l, now);
      if bad.Some? {
        BadAt(lines, now, i, bad.value);
        BadRefused(lines, now, i);
        return bad;
      }
      if IsPub(l) {
        pubCount := pubCount + 1;
      } else if IsSigningSub(l) {
        sawSigning := true;
        if Current(Expiry(l), now) {
          assert CurrentSub(l, now);
          haveValid := true;
        }
      }
      assert haveValid <==> CurrentSub(l, now) || exists k :: k in lines[..i] && CurrentSub(k, now);
    }
    assert lines[..|lines|] == lines;
    EndExplained(lines, now, pubCount, sawSigning, haveValid);
    if pubCount == 0 {
      return Some(NotFound);
    }
    if pubCount > 1 {
      return Some(Ambiguous);
    }
    if sawSigning && !haveValid {
      return Some(NoCurrentSubkey);
    }
    finding := None;
  }

  /** What makes one record end the scan. */
  function Check(l: string, now: int): (f: Option<Finding>)
    ensures f.None? <==> Fine(l, now)
    ensures f.Some? ==> FirstBad([l], now, 0, f.value)
  {
    PubIsNoSub(l);
    if IsPub(l) then
      if !Expires(Expiry(l)) then Some(NoExpiry) else if !Current(Expiry(l), now) then Some(Expired) else None
    else if IsSigningSub(l) && !Expires(Expiry(l)) then Some(SubkeyNoExpiry)
    else None
  }

  lemma {:induction false} PubsCount(lines: seq<string>, l: string)
    ensures multiset(Pubs(lines))[l] == if IsPub(l) then multiset(lines)[l] else 0
  {
    if lines != [] {
      PubsCount(lines[1..], l);
      assert lines == [lines[0]] + lines[1..];
    }
  }

  /** The verdict does not depend on the order of the records. */
  lemma ExpiryOrderFree(a: seq<string>, b: seq<string>, now: int)
    requires multiset(a) == multiset(b)
    ensures Accepts(a, now) <==> Accepts(b, now)
  {
    forall l ensures multiset(Pubs(a))[l] == multiset(Pubs(b))[l] {
      PubsCount(a, l);
      PubsCount(b, l);
    }
    assert multiset(Pubs(a)) == multiset(Pubs(b));
    assert |multiset(Pubs(a))| == |Pubs(a)| && |multiset(Pubs(b))| == |Pubs(b)|;
    assert forall l :: l in a <==> l in multiset(a);
    assert forall l :: l in b <==> l in multiset(b);
  }

  /** A key accepted now was accepted at every earlier time. */
  lemma ExpiryDownwardClosed(lines: seq<string>, now: int, earlier: int)
    requires Accepts(lines, now) && earlier <= now
    ensures Accepts(lines, earlier)
  {
    if exists l :: l in lines && IsSigningSub(l) {
      var k :| k in lines && CurrentSub(k, now);
      assert CurrentSub(k, earlier);
    }
    forall l | l in lines ensures Fine(l, earlier) {
      assert Fine(l, now);
    }
  }

  // --- signature status --------------------------------------------------------------------

  function FirstField(s: string): string {
    if s == "" then "" else if IsSpace(s[0]) then FirstField(s[1..]) else FieldFrom(s)
  }

  function FieldFrom(s: string): string {
    if s == "" || IsSpace(s[0]) then "" else [s[0]] + FieldFrom(s[1..])
  }

  const PREFIX := "[GNUPG:] "

  /** The status keyword of a line, "" when it is no status line. */
  function Keyword(line: string): string { if PREFIX <= line then FirstField(line[|PREFIX|..]) else "" }

  predicate NoSpace(s: string) { forall i :: 0 <= i < |s| ==> !IsSpace(s[i]) }

  /** pad, then word, then the end or a white-space character. */
  predicate FieldForm(s: string, pad: string, word: string, rest: string) {
    s == pad + word + rest && AllSpace(pad) && NoSpace(word) && (rest == "" || IsSpace(rest[0]))
  }

  lemma {:induction false} FieldFromExact(s: string, word: string, rest: string)
    requires s == word + rest && NoSpace(word) && (rest == "" || IsSpace(rest[0]))
    ensures FieldFrom(s) == word
  {
    if word != "" {
      assert s[0] == word[0] && s[1..] == word[1..] + rest;
      FieldFromExact(s[1..], word[1..], rest);
      assert [word[0]] + word[1..] == word;
    } else {
      assert s == rest;
    }
  }

  lemma {:induction false} FieldRead(s: string, pad: string, word: string, rest: string)
    requires FieldForm(s, pad, word, rest) && word != ""
    ensures FirstField(s) == word
  {
    if pad == "" {
      assert s == word + rest && s[0] == word[0];
      FieldFromExact(s, word, rest);
    } else {
      assert s[0] == pad[0] && s[1..] == pad[1..] + word + rest;
      FieldRead(s[1..], pad[1..], word, rest);
    }
  }

  lemma {:induction false} FieldFromIs(s: string) returns (rest: string)
    ensures s == FieldFrom(s) + rest && NoSpace(FieldFrom(s)) && (rest == "" || IsSpace(rest[0]))
  {
    if s == "" || IsSpace(s[0]) {
      rest := s;
    } else {
      rest := FieldFromIs(s[1..]);
      assert s == [s[0]] + s[1..];
    }
  }

  lemma {:induction false} FieldIs(s: string) returns (pad: string, rest: string)
    ensures FieldForm(s, pad, FirstField(s), rest)
  {
    if s == "" {
      pad, rest := "", "";
    } else if IsSpace(s[0]) {
      pad, rest := FieldIs(s[1..]);
      assert s == [s[0]] + s[1..];
      pad := [s[0]] + pad;
    } else {
      pad := "";
      rest := FieldFromIs(s);
    }
  }

  /** The keyword of a status line is its first field behind the "[GNUPG:]". */
  lemma KeywordExact(line: string, word: string)
    requires word != ""
    ensures Keyword(line) == word <==>
            PREFIX <= line && exists pad, rest :: FieldForm(line[|"[GNUPG:] "|..], pad, word, rest)
  {
    if PREFIX <= line {
      var s := line[|PREFIX|..];
      assert s == line[|"[GNUPG:] "|..];
      if Keyword(line) == word {
        var pad, rest := FieldIs(s);
        assert FieldForm(s, pad, word, rest);
      }
      if pad, rest :| FieldForm(s, pad, word, rest) {
        FieldRead(s, pad, word, rest);
      }
    }
  }

  predicate IsInvalid(word: string) { word == "BADSIG" || word == "ERRSIG" || word == "REVKEYSIG" || word == "EXPSIG" }

  ghost predicate Has(lines: seq<string>, word: string) { exists l :: l in lines && Keyword(l) == word }

  datatype Reason = WrongKey | KeyExpired | Invalid

  /** None: the signature is good. */
  ghost function Verdict(lines: seq<string>): Option<Reason> {
    if Has(lines, "NO_PUBKEY") then Some(WrongKey)
    else if Has(lines, "GOODSIG") then None
    else if Has(lines, "EXPKEYSIG") then Some(KeyExpired)
    else Some(Invalid)
  }

  method ClassifyStatusLines(lines: seq<string>) returns (reason: Option<Reason>)
    ensures reason == Verdict(lines)
    ensures reason.None? <==> Has(lines, "GOODSIG") && !Has(lines, "NO_PUBKEY")
  {
    hide Keyword, IsInvalid;
    var noPubkey, invalid, good, expired := false, false, false, false;
    for i := 0 to |lines|
      invariant noPubkey <==> exists k :: 0 <= k < i && Keyword(lines[k]) == "NO_PUBKEY"
      invariant good <==> exists k :: 0 <= k < i && Keyword(lines[k]) == "GOODSIG"
      invariant expired <==> exists k :: 0 <= k < i && Keyword(lines[k]) == "EXPKEYSIG"
    {
      var word := Keyword(lines[i]);
      if word == "GOODSIG" {
        good := true;
      } else if word == "EXPKEYSIG" {
        expired := true;
      } else if word == "NO_PUBKEY" {
        noPubkey := true;
      } else if IsInvalid(word) {
        invalid := true;
      }
    }
    if noPubkey {
      return Some(WrongKey);
    } else if good {
      return None;
    } else if expired {
      return Some(KeyExpired);
    }
    reason := Some(Invalid);
  }

  lemma VerdictOrderFree(a: seq<string>, b: seq<string>)
    requires multiset(a) == multiset(b)
    ensures Verdict(a) == Verdict(b)
  {
    assert forall l :: l in a <==> l in multiset(a);
    assert forall l :: l in b <==> l in multiset(b);
  }
}
