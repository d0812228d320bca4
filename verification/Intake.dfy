/** What a pipeline keeps of an email body: made valid UTF-8 without NULs, and cut to
    its first runes. */
module Intake {
  import opened Basics

  newtype Byte = x: int | 0 <= x < 256

  type Bytes = seq<Byte>

  const MAX_RUNES := 500

  /** U+FFFD */
  const REPLACEMENT: Bytes := [0xEF, 0xBF, 0xBD]

  // --- UTF-8 (RFC 3629, section 4) ------------------------------------------------------

  predicate Tail(b: Byte) { 0x80 <= b <= 0xBF }

  /** The second byte of a rune of three or four bytes: no overlong form, no surrogate,
      nothing beyond U+10FFFF. */
  predicate Second(lead: Byte, b: Byte) {
    if lead == 0xE0 then 0xA0 <= b <= 0xBF
    else if lead == 0xED then 0x80 <= b <= 0x9F
    else if lead == 0xF0 then 0x90 <= b <= 0xBF
    else if lead == 0xF4 then 0x80 <= b <= 0x8F
    else Tail(b)
  }

  /** The length of the well-formed rune s begins with, 0 when there is none. */
  function RuneLen(s: Bytes): (n: nat)
    ensures n <= |s|
  {
    if s == [] then 0
    else if s[0] < 0x80 then 1
    else if 0xC2 <= s[0] <= 0xDF then if |s| >= 2 && Tail(s[1]) then 2 else 0
    else if 0xE0 <= s[0] <= 0xEF then if |s| >= 3 && Second(s[0], s[1]) && Tail(s[2]) then 3 else 0
    else if 0xF0 <= s[0] <= 0xF4 then
      if |s| >= 4 && Second(s[0], s[1]) && Tail(s[2]) && Tail(s[3]) then 4 else 0
    else 0
  }

  predicate Valid(s: Bytes)
    decreases |s|
  {
    s == [] || (RuneLen(s) > 0 && Valid(s[RuneLen(s)..]))
  }

  /** The runes of s, a byte that belongs to none read as U+FFFD. */
  function Runes(s: Bytes): seq<Bytes>
    decreases |s|
  {
    if s == [] then []
    else if RuneLen(s) == 0 then [REPLACEMENT] + Runes(s[1..])
    else [s[..RuneLen(s)]] + Runes(s[RuneLen(s)..])
  }

  function Flat(runes: seq<Bytes>): Bytes { if runes == [] then [] else runes[0] + Flat(runes[1..]) }

  // --- sanitizing and capping ------------------------------------------------------------

  /** Each run of bytes that belong to no rune becomes one U+FFFD; bad: the byte before
      s was such a byte. */
  function Repair(s: Bytes, bad: bool): Bytes
    decreases |s|
  {
    if s == [] then []
    else if RuneLen(s) == 0 then (if bad then [] else REPLACEMENT) + Repair(s[1..], true)
    else s[..RuneLen(s)] + Repair(s[RuneLen(s)..], false)
  }

  /** The text, and whether it had to be changed. */
  function Sanitize(s: Bytes): (Bytes, bool) {
    var clean := Repair(Without(s, 0), false);
    (clean, clean != s)
  }

  /** At most n runes of s, and whether it was cut. */
  function Cap(s: Bytes, n: nat): (Bytes, bool) {
    if |Runes(s)| <= n then (s, false) else (Flat(Runes(s)[..n]), true)
  }

  /** The length of the white-space rune s begins with, 0 when there is none. */
  function SpaceLen(s: Bytes): (n: nat)
    ensures n <= |s|
  {
    if s == [] then 0
    else if 0x09 <= s[0] <= 0x0D || s[0] == 0x20 then 1
    else if |s| >= 2 && s[0] == 0xC2 && (s[1] == 0x85 || s[1] == 0xA0) then 2
    else if |s| < 3 then 0
    else if s[0] == 0xE1 && s[1] == 0x9A && s[2] == 0x80 then 3
    else if s[0] == 0xE2 && s[1] == 0x80 && (s[2] <= 0x8A || s[2] in {0xA8, 0xA9, 0xAF}) && Tail(s[2]) then 3
    else if s[0] == 0xE2 && s[1] == 0x81 && s[2] == 0x9F then 3
    else if s[0] == 0xE3 && s[1] == 0x80 && s[2] == 0x80 then 3
    else 0
  }

  /** Nothing but white space. */
  predicate Blank(s: Bytes)
    decreases |s|
  {
    s == [] || (SpaceLen(s) > 0 && Blank(s[SpaceLen(s)..]))
  }

  datatype Body = Body(text: Bytes, truncated: bool, sanitized: bool)

  /** A blank body is no body; any other is sanitized, then capped. */
  function Take(raw: Bytes): Body {
    var (clean, sanitized) := Sanitize(if Blank(raw) then [] else raw);
    var (text, truncated) := Cap(clean, MAX_RUNES);
    Body(text, truncated, sanitized)
  }

  // --- runes are encoded code points ------------------------------------------------------

  /** A Unicode scalar value. */
  predicate Scalar(c: int) { 0 <= c < 0xD800 || 0xE000 <= c <= 0x10FFFF }

  /** The encoding of a code point (RFC 3629, section 3). */
  function Encode(c: int): Bytes
    requires Scalar(c)
  {
    if c < 0x80 then [c as Byte]
    else if c < 0x800 then [(0xC0 + c / 0x40) as Byte, (0x80 + c % 0x40) as Byte]
    else if c < 0x1_0000 then
      [(0xE0 + c / 0x1000) as Byte, (0x80 + c / 0x40 % 0x40) as Byte, (0x80 + c % 0x40) as Byte]
    else
      [(0xF0 + c / 0x4_0000) as Byte, (0x80 + c / 0x1000 % 0x40) as Byte,
       (0x80 + c / 0x40 % 0x40) as Byte, (0x80 + c % 0x40) as Byte]
  }

  /** The code point of a rune. */
  function Decode(s: Bytes): int
    requires RuneLen(s) > 0
  {
    match RuneLen(s)
    case 1 => s[0] as int
    case 2 => (s[0] as int - 0xC0) * 0x40 + (s[1] as int - 0x80)
    case 3 => (s[0] as int - 0xE0) * 0x1000 + (s[1] as int - 0x80) * 0x40 + (s[2] as int - 0x80)
    case _ =>
      (s[0] as int - 0xF0) * 0x4_0000 + (s[1] as int - 0x80) * 0x1000 + (s[2] as int - 0x80) * 0x40 + (s[3] as int - 0x80)
  }

  lemma SplitTwo(c: int)
    requires 0x80 <= c < 0x800
    ensures 2 <= c / 0x40 < 0x20 && 0 <= c % 0x40 < 0x40
  {
  }

  lemma SplitThree(c: int)
    requires 0x800 <= c < 0x1_0000 && Scalar(c)
    ensures var a, b := c / 0x1000, c / 0x40 % 0x40;
            && 0 <= a < 0x10 && 0 <= b < 0x40 && 0 <= c % 0x40 < 0x40
            && (a == 0 ==> b >= 0x20) && (a == 0xD ==> b < 0x20)
  {
    assert c / 0x40 == c / 0x1000 * 0x40 + c / 0x40 % 0x40;
  }

  lemma SplitFour(c: int)
    requires 0x1_0000 <= c <= 0x10FFFF
    ensures var a, b := c / 0x4_0000, c / 0x1000 % 0x40;
            && 0 <= a <= 4 && 0 <= b < 0x40 && 0 <= c / 0x40 % 0x40 < 0x40 && 0 <= c % 0x40 < 0x40
            && (a == 0 ==> b >= 0x10) && (a == 4 ==> b < 0x10)
  {
    assert c / 0x1000 == c / 0x4_0000 * 0x40 + c / 0x1000 % 0x40;
  }

  lemma EncodedIsRune(c: int, rest: Bytes)
    requires Scalar(c)
    ensures RuneLen(Encode(c) + rest) == |Encode(c)|
  {
    if c < 0x80 {
      assert (Encode(c) + rest)[0] == Encode(c)[0];
    } else if c < 0x800 {
      EncodedTwo(c, rest);
    } else if c < 0x1_0000 {
      EncodedThree(c, rest);
    } else {
      EncodedFour(c, rest);
    }
  }

  lemma EncodedTwo(c: int, rest: Bytes)
    requires 0x80 <= c < 0x800
    ensures RuneLen(Encode(c) + rest) == 2
  {
    SplitTwo(c);
    var e, s := Encode(c), Encode(c) + rest;
    assert s[0] == e[0] && s[1] == e[1];
  }

  lemma EncodedThree(c: int, rest: Bytes)
    requires 0x800 <= c < 0x1_0000 && Scalar(c)
    ensures RuneLen(Encode(c) + rest) == 3
  {
    SplitThree(c);
    var e, s := Encode(c), Encode(c) + rest;
    assert s[0] == e[0] && s[1] == e[1] && s[2] == e[2];
  }

  lemma EncodedFour(c: int, rest: Bytes)
    requires 0x1_0000 <= c <= 0x10FFFF
    ensures RuneLen(Encode(c) + rest) == 4
  {
    SplitFour(c);
    var e, s := Encode(c), Encode(c) + rest;
    assert s[0] == e[0] && s[1] == e[1] && s[2] == e[2] && s[3] == e[3];
  }

  lemma TwoBytes(a: int, b: int)
    requires 2 <= a < 0x20 && 0 <= b < 0x40
    ensures var c := a * 0x40 + b; 0x80 <= c < 0x800 && c / 0x40 == a && c % 0x40 == b
  {
  }

  lemma ThreeBytes(a: int, b: int, d: int)
    requires 0 <= a < 0x10 && 0 <= b < 0x40 && 0 <= d < 0x40 && (a == 0 ==> b >= 0x20)
    ensures var c := a * 0x1000 + b * 0x40 + d;
            0x800 <= c < 0x1_0000 && c / 0x1000 == a && c / 0x40 % 0x40 == b && c % 0x40 == d
  {
    var c := a * 0x1000 + b * 0x40 + d;
    assert c / 0x40 == a * 0x40 + b;
  }

  lemma FourBytes(a: int, b: int, d: int, e: int)
    requires 0 <= a <= 4 && 0 <= b < 0x40 && 0 <= d < 0x40 && 0 <= e < 0x40
    requires (a == 0 ==> b >= 0x10) && (a == 4 ==> b < 0x10)
    ensures var c := a * 0x4_0000 + b * 0x1000 + d * 0x40 + e;
            && 0x1_0000 <= c <= 0x10FFFF && c / 0x4_0000 == a && c / 0x1000 % 0x40 == b
            && c / 0x40 % 0x40 == d && c % 0x40 == e
  {
    var c := a * 0x4_0000 + b * 0x1000 + d * 0x40 + e;
    assert c / 0x40 == a * 0x1000 + b * 0x40 + d;
    assert c / 0x1000 == a * 0x40 + b;
  }

  lemma RuneIsEncoded(s: Bytes)
    requires RuneLen(s) > 0
    ensures Scalar(Decode(s)) && Encode(Decode(s)) == s[..RuneLen(s)]
  {
    var n := RuneLen(s);
    if n == 2 {
      TwoIsEncoded(s);
    } else if n == 3 {
      ThreeIsEncoded(s);
    } else if n == 4 {
      FourIsEncoded(s);
    }
  }

  lemma TwoIsEncoded(s: Bytes)
    requires RuneLen(s) == 2
    ensures Scalar(Decode(s)) && Encode(Decode(s)) == s[..2]
  {
    TwoBytes(s[0] as int - 0xC0, s[1] as int - 0x80);
  }

  lemma ThreeIsEncoded(s: Bytes)
    requires RuneLen(s) == 3
    ensures Scalar(Decode(s)) && Encode(Decode(s)) == s[..3]
  {
    ThreeBytes(s[0] as int - 0xE0, s[1] as int - 0x80, s[2] as int - 0x80);
  }

  lemma FourIsEncoded(s: Bytes)
    requires RuneLen(s) == 4
    ensures Scalar(Decode(s)) && Encode(Decode(s)) == s[..4]
  {
    FourBytes(s[0] as int - 0xF0, s[1] as int - 0x80, s[2] as int - 0x80, s[3] as int - 0x80);
  }

  /** s begins with a rune exactly when it begins with the encoding of a code point. */
  lemma RuneExact(s: Bytes, n: nat)
    requires n > 0
    ensures RuneLen(s) == n <==> exists c :: Scalar(c) && Encode(c) <= s && |Encode(c)| == n
  {
    hide RuneLen, Encode, Decode;
    if RuneLen(s) == n {
      RuneIsEncoded(s);
    }
    if c :| Scalar(c) && Encode(c) <= s && |Encode(c)| == n {
      EncodedIsRune(c, s[n..]);
      assert s == Encode(c) + s[n..];
    }
  }

  lemma ReplacementIs()
    ensures REPLACEMENT == Encode(0xFFFD)
  {
  }

  /** White space in Unicode. */
  predicate Space(c: int) {
    || 0x09 <= c <= 0x0D || c == 0x20 || c == 0x85 || c == 0xA0 || c == 0x1680 || 0x2000 <= c <= 0x200A
    || c == 0x2028 || c == 0x2029 || c == 0x202F || c == 0x205F || c == 0x3000
  }

  lemma SpaceIsEncoded(s: Bytes)
    requires SpaceLen(s) > 0
    ensures RuneLen(s) == SpaceLen(s) && Space(Decode(s))
  {
  }

  lemma EncodedIsSpace(c: int, rest: Bytes)
    requires Space(c)
    ensures SpaceLen(Encode(c) + rest) == |Encode(c)|
  {
    var s := Encode(c) + rest;
    hide RuneLen;
    assert forall i :: 0 <= i < |Encode(c)| ==> s[i] == Encode(c)[i];
  }

  lemma SpaceExact(s: Bytes, n: nat)
    requires n > 0
    ensures SpaceLen(s) == n <==> exists c :: Space(c) && Encode(c) <= s && |Encode(c)| == n
  {
    hide RuneLen, SpaceLen, Encode, Decode;
    if SpaceLen(s) == n {
      SpaceIsEncoded(s);
      RuneIsEncoded(s);
    }
    if c :| Space(c) && Encode(c) <= s && |Encode(c)| == n {
      EncodedIsSpace(c, s[n..]);
      assert s == Encode(c) + s[n..];
    }
  }

  // --- what repairing does -----------------------------------------------------------------

  /** No byte of junk begins a rune in junk + rest, and rest is empty or begins with one. */
  predicate JunkBefore(junk: Bytes, rest: Bytes) {
    (forall k :: 0 <= k < |junk| ==> RuneLen((junk + rest)[k..]) == 0) && (rest == [] || RuneLen(rest) > 0)
  }

  lemma {:induction false} RepairJunk(junk: Bytes, rest: Bytes, bad: bool)
    requires JunkBefore(junk, rest)
    ensures Repair(junk + rest, bad) == (if junk == [] || bad then [] else REPLACEMENT) + Repair(rest, false)
    decreases |junk|
  {
    hide RuneLen;
    var s := junk + rest;
    if junk == [] {
      assert s == rest;
    } else {
      assert s[0..] == s && s[1..] == junk[1..] + rest;
      forall k | 0 <= k < |junk| - 1 ensures RuneLen(s[1..][k..]) == 0 {
        assert s[1..][k..] == s[k + 1..];
      }
      RepairJunk(junk[1..], rest, true);
    }
  }

  lemma {:induction false} RepairAppend(text: Bytes, rest: Bytes, bad: bool)
    requires Valid(text)
    ensures text != [] ==> Repair(text + rest, bad) == text + Repair(rest, false)
    decreases |text|
  {
    hide REPLACEMENT;
    if text != [] {
      var n := RuneLen(text);
      var rune, more := text[..n], text[n..];
      RuneFirst(text, more + rest);
      hide RuneLen;
      assert text == rune + more && text + rest == rune + (more + rest);
      RepairRune(rune, more + rest, bad);
      RepairAppend(more, rest, false);
      assert more == [] ==> more + rest == rest;
    }
  }

  lemma RepairRune(rune: Bytes, rest: Bytes, bad: bool)
    requires rune != [] && RuneLen(rune + rest) == |rune|
    ensures Repair(rune + rest, bad) == rune + Repair(rest, false)
  {
    hide RuneLen;
    assert (rune + rest)[..|rune|] == rune && (rune + rest)[|rune|..] == rest;
  }

  /** Valid text is kept, each run of bytes that belong to no rune becomes one U+FFFD, and
      so on behind it. */
  lemma RepairExact(text: Bytes, junk: Bytes, rest: Bytes)
    requires Valid(text) && JunkBefore(junk, rest)
    ensures Repair(text + junk + rest, false) == text + (if junk == [] then [] else REPLACEMENT) + Repair(rest, false)
  {
    RepairAppend(text, junk + rest, false);
    RepairJunk(junk, rest, false);
    hide RuneLen, REPLACEMENT, JunkBefore, Repair, Valid;
    Regroup(text, junk, rest);
    var mark := if junk == [] then [] else REPLACEMENT;
    Regroup(text, mark, Repair(rest, false));
    if text == [] {
      NothingInFront(junk + rest);
      NothingInFront(mark + Repair(rest, false));
    }
  }

  lemma NothingInFront(s: Bytes)
    ensures [] + s == s
  {
  }

  // --- what sanitizing achieves -----------------------------------------------------------

  /** A rune is read the same whatever follows it. */
  lemma RuneFirst(s: Bytes, rest: Bytes)
    requires RuneLen(s) > 0
    ensures var rune := s[..RuneLen(s)];
            RuneLen(rune + rest) == |rune| && (rune + rest)[|rune|..] == rest && (rune + rest)[..|rune|] == rune
  {
  }

  lemma ReplacementFirst(rest: Bytes)
    ensures RuneLen(REPLACEMENT + rest) == 3 && (REPLACEMENT + rest)[3..] == rest
  {
  }

  lemma {:induction false} RepairValid(s: Bytes, bad: bool)
    ensures Valid(Repair(s, bad))
    decreases |s|
  {
    hide RuneLen, REPLACEMENT;
    if s == [] {
    } else if RuneLen(s) == 0 {
      RepairValid(s[1..], true);
      ReplacementFirst(Repair(s[1..], true));
      assert [] + Repair(s[1..], true) == Repair(s[1..], true);
    } else {
      RepairValid(s[RuneLen(s)..], false);
      RuneFirst(s, Repair(s[RuneLen(s)..], false));
    }
  }

  lemma {:induction false} RepairNothing(s: Bytes, bad: bool)
    requires Valid(s)
    ensures Repair(s, bad) == s
    decreases |s|
  {
    if s != [] {
      RepairNothing(s[RuneLen(s)..], false);
    }
  }

  lemma {:induction false} RepairNoNul(s: Bytes, bad: bool)
    requires 0 !in s
    ensures 0 !in Repair(s, bad)
    decreases |s|
  {
    if s != [] {
      if RuneLen(s) == 0 {
        RepairNoNul(s[1..], true);
      } else {
        RepairNoNul(s[RuneLen(s)..], false);
      }
    }
  }

  /** The result is valid UTF-8 without a NUL, the change is reported exactly when the
      input was not, and sanitizing again changes nothing. */
  lemma SanitizeExact(s: Bytes)
    ensures var (clean, changed) := Sanitize(s);
            && Valid(clean) && 0 !in clean
            && (changed <==> !Valid(s) || 0 in s)
            && Sanitize(clean) == (clean, false)
  {
    var clean := Sanitize(s).0;
    WithoutGone(s, 0);
    RepairValid(Without(s, 0), false);
    RepairNoNul(Without(s, 0), false);
    WithoutGone(clean, 0);
    RepairNothing(clean, false);
    if Valid(s) && 0 !in s {
      RepairNothing(s, false);
    }
  }

  /** NULs are dropped before anything else is looked at. */
  lemma NulDropped(a: Bytes, b: Bytes)
    ensures Sanitize(a + [0] + b).0 == Sanitize(a + b).0
  {
    WithoutSplit(a, [0] + b);
    WithoutSplit(a, b);
    Regroup(a, [0], b);
    assert ([0] + b)[1..] == b;
    hide Repair;
  }

  lemma {:induction false} WithoutSplit(a: Bytes, b: Bytes)
    ensures Without(a + b, 0) == Without(a, 0) + Without(b, 0)
  {
    if a == [] {
      assert a + b == b;
    } else {
      WithoutSplit(a[1..], b);
      assert (a + b)[0] == a[0] && (a + b)[1..] == a[1..] + b;
    }
  }

  /** In what is left, valid text stays and each run of other bytes becomes one U+FFFD. */
  lemma RunsReplaced(text: Bytes, junk: Bytes, rest: Bytes)
    requires Valid(text) && JunkBefore(junk, rest) && 0 !in text + junk + rest
    ensures Sanitize(text + junk + rest).0 == text + (if junk == [] then [] else Encode(0xFFFD)) + Sanitize(rest).0
  {
    ReplacementIs();
    RepairExact(text, junk, rest);
    WithoutGone(text + junk + rest, 0);
    WithoutGone(rest, 0);
    hide Repair, Valid, JunkBefore, REPLACEMENT, Encode;
    assert forall b :: b in rest ==> b in text + junk + rest;
  }

  // --- what capping achieves ---------------------------------------------------------------

  /** How far the first rune of s, or the byte that belongs to none, reaches. */
  function Step(s: Bytes): (k: nat)
    requires s != []
    ensures 0 < k <= |s|
  {
    if RuneLen(s) == 0 then 1 else RuneLen(s)
  }

  lemma RunesTake(s: Bytes, n: nat)
    requires s != [] && 0 < n <= |Runes(s)|
    ensures |Runes(s[Step(s)..])| == |Runes(s)| - 1
    ensures Runes(s)[..n] == [Runes(s)[0]] + Runes(s[Step(s)..])[..n - 1]
  {
    hide RuneLen, REPLACEMENT;
  }

  lemma FlatCons(x: Bytes, ys: seq<Bytes>)
    ensures Flat([x] + ys) == x + Flat(ys)
  {
    assert ([x] + ys)[1..] == ys;
  }

  /** The first n runes are valid text and read back as n runes; of a valid text they
      are a prefix. */
  lemma {:induction false} FirstRunes(s: Bytes, n: nat)
    requires n <= |Runes(s)|
    ensures var out := Flat(Runes(s)[..n]); Valid(out) && Runes(out) == Runes(s)[..n] && (Valid(s) ==> out <= s)
    decreases |s|
  {
    hide RuneLen, REPLACEMENT, Valid, Runes, Flat, Step;
    NoRunes();
    if n > 0 && s != [] {
      RunesTake(s, n);
      var more := Runes(s[Step(s)..])[..n - 1];
      FirstRunes(s[Step(s)..], n - 1);
      FlatCons(Runes(s)[0], more);
      OneMoreRune(s, Flat(more));
      ValidTail(s);
      assert s == s[..Step(s)] + s[Step(s)..];
    }
  }

  lemma NoRunes()
    ensures Valid([]) && Runes([]) == [] && Flat([]) == []
  {
  }

  lemma ValidTail(s: Bytes)
    requires s != []
    ensures Valid(s) ==> Valid(s[Step(s)..]) && Runes(s) != [] && Runes(s)[0] == s[..Step(s)]
  {
    hide RuneLen;
  }

  /** The first rune of s in front of a valid text is valid and read back as itself. */
  lemma OneMoreRune(s: Bytes, out: Bytes)
    requires s != [] && Valid(out)
    ensures var all := Runes(s)[0] + out; Valid(all) && Runes(all) == [Runes(s)[0]] + Runes(out)
  {
    hide RuneLen, REPLACEMENT;
    if RuneLen(s) == 0 {
      ReplacementFirst(out);
      ReplacementLength();
      assert (REPLACEMENT + out)[..3] == REPLACEMENT;
    } else {
      RuneFirst(s, out);
    }
  }

  lemma ReplacementLength()
    ensures |REPLACEMENT| == 3
  {
  }

  /** At most n runes are kept, the first ones; the cut is reported exactly when there
      were more; capping again changes nothing. */
  lemma CapExact(s: Bytes, n: nat)
    ensures var (out, cut) := Cap(s, n);
            && (cut <==> |Runes(s)| > n)
            && Runes(out) == (if cut then Runes(s)[..n] else Runes(s))
            && (Valid(s) ==> out <= s && Valid(out))
            && (cut ==> Valid(out)) && (!cut ==> out == s)
            && Cap(out, n) == (out, false)
  {
    if |Runes(s)| > n {
      FirstRunes(s, n);
    }
  }

  /** Every later reader gets valid text of at most 500 runes, the first ones of
      the sanitized body, with flags that say exactly what was done to it. */
  lemma TakeExact(raw: Bytes)
    ensures var body, clean := Take(raw), Sanitize(raw).0;
            && Valid(body.text) && 0 !in body.text && |Runes(body.text)| <= 500
            && if Blank(raw) then body == Body([], false, false)
               else
                 && body.text <= clean
                 && Runes(body.text) == (if body.truncated then Runes(clean)[..500] else Runes(clean))
                 && (body.sanitized <==> !Valid(raw) || 0 in raw)
                 && (body.truncated <==> |Runes(clean)| > 500)
                 && (body.truncated <==> body.text != clean)
  {
    SanitizeExact(raw);
    SanitizeExact([]);
    CapExact(Sanitize(raw).0, MAX_RUNES);
  }

  /** There is no body text exactly when the body is blank or made of NULs. */
  lemma NoBodyExact(raw: Bytes)
    ensures Take(raw).text == [] <==> Blank(raw) || forall b :: b in raw ==> b == 0
  {
    SanitizeExact([]);
    NulsOnly(raw);
    if !Blank(raw) && Without(raw, 0) != [] {
      RepairKeepsText(Without(raw, 0));
      var clean := Repair(Without(raw, 0), false);
      if |Runes(clean)| > MAX_RUNES {
        FirstRunes(clean, MAX_RUNES);
      }
    }
  }

  lemma NulsOnly(s: Bytes)
    ensures Without(s, 0) == [] <==> forall b :: b in s ==> b == 0
  {
    WithoutGone(s, 0);
    if Without(s, 0) != [] {
      assert Without(s, 0)[0] in Without(s, 0);
    }
  }

  lemma RepairKeepsText(s: Bytes)
    requires s != []
    ensures Repair(s, false) != []
  {
    if RuneLen(s) > 0 {
      assert Repair(s, false)[..RuneLen(s)] == s[..RuneLen(s)];
    }
  }
}
