/** Double-quoted YAML scalars (YAML 1.2.2, sections 5.2, 5.7 and 7.3.1), escaped byte
    by byte by a chain of whole-string replacements. */
module YamlEscape {
  import opened Basics
  import opened Intake

  const TAB: Byte := 0x09
  const LF: Byte := 0x0A
  const CR: Byte := 0x0D
  const BLANK: Byte := 0x20
  const QUOTE: Byte := 0x22
  const BACKSLASH: Byte := 0x5C

  // the letters n, r and t
  const N: Byte := 0x6E
  const R: Byte := 0x72
  const T: Byte := 0x74

  function Escape(letter: Byte): Bytes { [BACKSLASH, letter] }

  /** The five replacements, one after the other over the whole string. */
  function FivePasses(s: Bytes): Bytes {
    var s1 := Replace(s, BACKSLASH, Escape(BACKSLASH));
    var s2 := Replace(s1, QUOTE, Escape(QUOTE));
    var s3 := Replace(s2, LF, Escape(N));
    var s4 := Replace(s3, CR, Escape(R));
    Replace(s4, TAB, Escape(T))
  }

  function Quoted(s: Bytes): Bytes { [QUOTE] + s + [QUOTE] }

  function EscapePipe(s: Bytes): Bytes { Quoted(FivePasses(Replace(s, 0, []))) }

  function EscapeValue(s: Bytes): Bytes { Quoted(FivePasses(Cap(Replace(s, 0, []), MAX_RUNES).0)) }

  /** What one byte becomes when each is escaped once. */
  function EscapeByte(c: Byte): Bytes {
    if c == BACKSLASH || c == QUOTE then Escape(c)
    else if c == LF then Escape(N)
    else if c == CR then Escape(R)
    else if c == TAB then Escape(T)
    else [c]
  }

  function OnePass(s: Bytes): Bytes { if s == [] then [] else EscapeByte(s[0]) + OnePass(s[1..]) }

  lemma PassesAppend(a: Bytes, b: Bytes)
    ensures FivePasses(a + b) == FivePasses(a) + FivePasses(b)
  {
    ReplaceAppend(a, b, BACKSLASH, Escape(BACKSLASH));
    var a1, b1 := Replace(a, BACKSLASH, Escape(BACKSLASH)), Replace(b, BACKSLASH, Escape(BACKSLASH));
    ReplaceAppend(a1, b1, QUOTE, Escape(QUOTE));
    var a2, b2 := Replace(a1, QUOTE, Escape(QUOTE)), Replace(b1, QUOTE, Escape(QUOTE));
    ReplaceAppend(a2, b2, LF, Escape(N));
    var a3, b3 := Replace(a2, LF, Escape(N)), Replace(b2, LF, Escape(N));
    ReplaceAppend(a3, b3, CR, Escape(R));
    ReplaceAppend(Replace(a3, CR, Escape(R)), Replace(b3, CR, Escape(R)), TAB, Escape(T));
  }

  lemma ReplaceOne(x: Byte, c: Byte, r: Bytes)
    ensures Replace([x], c, r) == if x == c then r else [x]
  {
    assert [x][1..] == [];
  }

  /** A pass leaves an escape of another byte alone. */
  lemma ReplaceEscape(letter: Byte, c: Byte, r: Bytes)
    requires c != BACKSLASH && letter != c
    ensures Replace(Escape(letter), c, r) == Escape(letter)
  {
    assert Escape(letter)[1..] == [letter];
    ReplaceOne(letter, c, r);
  }

  /** Later passes leave an escape made by an earlier one alone. */
  lemma PassesByte(c: Byte)
    ensures FivePasses([c]) == EscapeByte(c)
  {
    ReplaceOne(c, BACKSLASH, Escape(BACKSLASH));
    ReplaceOne(c, QUOTE, Escape(QUOTE));
    ReplaceOne(c, LF, Escape(N));
    ReplaceOne(c, CR, Escape(R));
    ReplaceOne(c, TAB, Escape(T));
    if c == BACKSLASH {
      ReplaceEscape(BACKSLASH, QUOTE, Escape(QUOTE));
    }
    if c == BACKSLASH || c == QUOTE {
      ReplaceEscape(c, LF, Escape(N));
      ReplaceEscape(c, CR, Escape(R));
      ReplaceEscape(c, TAB, Escape(T));
    } else if c == LF {
      ReplaceEscape(N, CR, Escape(R));
      ReplaceEscape(N, TAB, Escape(T));
    } else if c == CR {
      ReplaceEscape(R, TAB, Escape(T));
    }
  }

  /** The chain of passes escapes every byte exactly once. */
  lemma {:induction false} PassesAreOne(s: Bytes)
    ensures FivePasses(s) == OnePass(s)
  {
    if s != [] {
      assert s == [s[0]] + s[1..];
      PassesAppend([s[0]], s[1..]);
      PassesByte(s[0]);
      PassesAreOne(s[1..]);
    }
  }

  // --- decoding --------------------------------------------------------------------

  function Unescape(c: Byte): Option<Byte> {
    if c == BACKSLASH || c == QUOTE then Some(c)
    else if c == N then Some(LF)
    else if c == R then Some(CR)
    else if c == T then Some(TAB)
    else None
  }

  /** What may stand in a double-quoted scalar (nb-json in section 7.3.1): a tab, or
      any character from blank on. Every other control character is excluded. */
  predicate NbJson(c: Byte) { c == TAB || c >= BLANK }

  /** The inside of a one-line double-quoted scalar. */
  function DecodeInside(s: Bytes): Option<Bytes>
    decreases |s|
  {
    if s == [] then Some([])
    else if s[0] == QUOTE || !NbJson(s[0]) then None
    else if s[0] == BACKSLASH then
      if |s| < 2 || Unescape(s[1]).None? then None
      else
        var rest := DecodeInside(s[2..]);
        if rest.None? then None else Some([Unescape(s[1]).value] + rest.value)
    else
      var rest := DecodeInside(s[1..]);
      if rest.None? then None else Some([s[0]] + rest.value)
  }

  /** A character stream is UTF-8 (section 5.2); the scalar stands in quotes. */
  function Decode(scalar: Bytes): Option<Bytes> {
    if !Valid(scalar) || |scalar| < 2 || scalar[0] != QUOTE || scalar[|scalar| - 1] != QUOTE then None
    else DecodeInside(scalar[1..|scalar| - 1])
  }

  /** No control character but the three that get an escape. */
  predicate NoRawControl(s: Bytes) { forall i :: 0 <= i < |s| ==> s[i] >= BLANK || s[i] == TAB || s[i] == LF || s[i] == CR }

  /** The texts that can be written as a scalar. */
  predicate Writable(s: Bytes) { Valid(s) && NoRawControl(s) }

  lemma ControlOne(c: Byte)
    ensures NoRawControl([c]) <==> c >= BLANK || c == TAB || c == LF || c == CR
  {
    assert [c][0] == c;
  }

  lemma DecodesByte(c: Byte, rest: Bytes)
    ensures DecodeInside(EscapeByte(c) + rest) ==
            if DecodeInside(rest).None? || !NoRawControl([c]) then None else Some([c] + DecodeInside(rest).value)
  {
    ControlOne(c);
    hide NoRawControl;
    var e := EscapeByte(c) + rest;
    if |EscapeByte(c)| == 2 {
      var x := EscapeByte(c)[1];
      assert Unescape(x) == Some(c);
      hide EscapeByte, Unescape;
      assert e[0] == BACKSLASH && e[1] == x && e[2..] == rest;
    } else {
      hide Unescape;
      assert e[0] == c && e[1..] == rest;
    }
  }

  lemma ControlCons(c: Byte, s: Bytes)
    ensures NoRawControl([c] + s) <==> NoRawControl([c]) && NoRawControl(s)
  {
    assert [c][0] == c && ([c] + s)[0] == c;
    assert forall i :: 0 <= i < |s| ==> ([c] + s)[i + 1] == s[i];
  }

  lemma {:induction false} DecodesBack(s: Bytes)
    ensures DecodeInside(OnePass(s)) == if NoRawControl(s) then Some(s) else None
  {
    if s != [] {
      DecodesBack(s[1..]);
      DecodesByte(s[0], OnePass(s[1..]));
      ControlCons(s[0], s[1..]);
      hide DecodeInside, NoRawControl;
      assert s == [s[0]] + s[1..];
    }
  }

  // --- escaping and UTF-8 --------------------------------------------------------------

  /** An ASCII byte in front makes a text neither valid nor invalid. */
  lemma AsciiFirst(c: Byte, s: Bytes)
    requires c < 0x80
    ensures Valid([c] + s) <==> Valid(s)
  {
    assert ([c] + s)[1..] == s;
  }

  lemma EscapeAscii(c: Byte, s: Bytes)
    requires c < 0x80
    ensures Valid(EscapeByte(c) + s) <==> Valid(s)
  {
    var e := EscapeByte(c);
    if |e| == 2 {
      AsciiFirst(e[1], s);
      AsciiFirst(e[0], [e[1]] + s);
      assert e + s == [e[0]] + ([e[1]] + s);
    } else {
      AsciiFirst(c, s);
    }
  }

  predicate High(s: Bytes, k: nat) { k <= |s| && forall i :: 0 <= i < k ==> s[i] >= 0x80 }

  /** Bytes above ASCII are escaped as they stand. */
  lemma {:induction false} HighStays(h: Bytes, rest: Bytes)
    requires High(h, |h|)
    ensures OnePass(h + rest) == h + OnePass(rest)
  {
    if h == [] {
      assert h + rest == rest;
    } else {
      HighStays(h[1..], rest);
      assert (h + rest)[0] == h[0] && (h + rest)[1..] == h[1..] + rest;
      assert h == [h[0]] + h[1..];
      Regroup([h[0]], h[1..], OnePass(rest));
    }
  }

  lemma {:induction false} HighBefore(s: Bytes, k: nat)
    requires High(OnePass(s), k)
    ensures High(s, k)
    decreases k
  {
    if k > 0 {
      var out, more := OnePass(s), OnePass(s[1..]);
      assert out[0] >= 0x80 && out == [s[0]] + more;
      assert forall i :: 0 <= i < k - 1 ==> more[i] == out[i + 1];
      HighBefore(s[1..], k - 1);
      assert forall i :: 0 < i < k ==> s[i] == s[1..][i - 1];
    }
  }

  lemma RuneIsHigh(s: Bytes)
    requires s != [] && s[0] >= 0x80
    ensures High(s, RuneLen(s))
  {
  }

  lemma SameRune(s: Bytes, t: Bytes)
    requires 0 < RuneLen(s) <= |t| && t[..RuneLen(s)] == s[..RuneLen(s)]
    ensures RuneLen(t) == RuneLen(s)
  {
    RuneFirst(s, t[RuneLen(s)..]);
    hide RuneLen;
    assert t == t[..RuneLen(s)] + t[RuneLen(s)..];
  }

  lemma HighPrefix(s: Bytes, k: nat)
    requires High(s, k)
    ensures OnePass(s) == s[..k] + OnePass(s[k..])
  {
    hide OnePass;
    HighStays(s[..k], s[k..]);
    assert s == s[..k] + s[k..];
  }

  /** Escaping makes no rune and breaks none. */
  lemma RuneStays(s: Bytes)
    requires s != [] && s[0] >= 0x80
    ensures RuneLen(OnePass(s)) == RuneLen(s)
    ensures OnePass(s) == s[..RuneLen(s)] + OnePass(s[RuneLen(s)..])
  {
    var out := OnePass(s);
    assert out[0] == s[0];
    hide RuneLen, OnePass;
    RuneIsHigh(s);
    RuneIsHigh(out);
    HighBefore(s, RuneLen(out));
    hide High;
    HighPrefix(s, RuneLen(s));
    HighPrefix(s, RuneLen(out));
    if RuneLen(s) > 0 {
      SameRune(s, out);
    } else if RuneLen(out) > 0 {
      SameRune(out, s);
    }
  }

  /** Escaping keeps a text valid UTF-8, or not. */
  lemma {:induction false} EscapeValid(s: Bytes)
    ensures Valid(OnePass(s)) <==> Valid(s)
    decreases |s|
  {
    if s == [] {
    } else if s[0] < 0x80 {
      EscapeValid(s[1..]);
      EscapeAscii(s[0], OnePass(s[1..]));
      AsciiFirst(s[0], s[1..]);
      assert s == [s[0]] + s[1..];
    } else {
      var m := RuneLen(s);
      RuneStays(s);
      if m > 0 {
        EscapeValid(s[m..]);
        assert OnePass(s)[m..] == OnePass(s[m..]);
      }
      hide RuneLen, OnePass;
    }
  }

  lemma RuneBeforeAscii(s: Bytes, c: Byte)
    requires s != [] && c < 0x80
    ensures RuneLen(s + [c]) == RuneLen(s)
  {
  }

  lemma {:induction false} AsciiLast(s: Bytes, c: Byte)
    requires c < 0x80
    ensures Valid(s + [c]) <==> Valid(s)
    decreases |s|
  {
    if s == [] {
      assert s + [c] == [c] && [c][1..] == [];
    } else {
      RuneBeforeAscii(s, c);
      if RuneLen(s) > 0 {
        AsciiLast(s[RuneLen(s)..], c);
        assert (s + [c])[RuneLen(s)..] == s[RuneLen(s)..] + [c];
      }
    }
  }

  lemma QuotedIs(s: Bytes)
    ensures var q := Quoted(s);
            && |q| == |s| + 2 && q[1..|q| - 1] == s && q[0] == QUOTE && q[|q| - 1] == QUOTE
            && (Valid(q) <==> Valid(s))
  {
    AsciiFirst(QUOTE, s);
    AsciiLast([QUOTE] + s, QUOTE);
  }

  // --- what comes back -------------------------------------------------------------------

  lemma ScalarDecodes(s: Bytes)
    ensures Decode(Quoted(FivePasses(s))) == if Writable(s) then Some(s) else None
  {
    PassesAreOne(s);
    QuotedIs(OnePass(s));
    EscapeValid(s);
    DecodesBack(s);
    hide Valid, NoRawControl, OnePass, FivePasses, DecodeInside, Quoted;
  }

  lemma {:induction false} NulStripped(s: Bytes)
    ensures Replace(s, 0, []) == Without(s, 0)
  {
    if s != [] {
      NulStripped(s[1..]);
    }
  }

  /** A prompt decodes to its text minus the NULs, exactly when that is valid UTF-8
      without any other raw control character. A header field decodes to the first
      500 runes of it, exactly when those are; a field cut there is always valid
      UTF-8. In every other case the output is no scalar at all. */
  lemma ScalarsDecode(s: Bytes)
    ensures var t := Without(s, 0);
            var v := Cap(t, MAX_RUNES).0;
            && Decode(EscapePipe(s)) == (if Writable(t) then Some(t) else None)
            && Decode(EscapeValue(s)) == (if Writable(v) then Some(v) else None)
            && (Valid(v) <==> Valid(t) || |Runes(t)| > MAX_RUNES)
  {
    NulStripped(s);
    ScalarDecodes(Without(s, 0));
    ScalarDecodes(Cap(Without(s, 0), MAX_RUNES).0);
    CapExact(Without(s, 0), MAX_RUNES);
    hide Decode, Writable, Valid, Runes, FivePasses;
  }

  lemma OneByte(c: Byte)
    requires c != 0 && EscapeByte(c) == [c]
    ensures var s := [c];
            && Without(s, 0) == s && Cap(s, MAX_RUNES).0 == s
            && EscapeValue(s) == Quoted(s) && EscapePipe(s) == Quoted(s)
  {
    var s := [c];
    assert s[1..] == [];
    NulStripped(s);
    PassesByte(c);
    assert Without(s, 0) == s;
    assert |Runes(s)| == 1;
  }

  /** A subject that is one ESC comes out as a quote, a raw ESC and a quote, which is
      no scalar. */
  lemma ControlCounterexample()
    ensures var esc := [0x1B as Byte];
            EscapeValue(esc) == Quoted(esc) && Decode(EscapeValue(esc)) == None && Decode(EscapePipe(esc)) == None
  {
    var esc := [0x1B as Byte];
    OneByte(0x1B);
    ScalarsDecode(esc);
    assert esc[0] < BLANK;
  }

  /** A subject that is one byte of no rune, such as an e acute in Latin-1, comes out
      as it is between quotes, which is no UTF-8. */
  lemma RawByteCounterexample()
    ensures var raw := [0xE9 as Byte];
            && EscapeValue(raw) == Quoted(raw) && NoRawControl(raw)
            && Decode(EscapeValue(raw)) == None && Decode(EscapePipe(raw)) == None
  {
    var raw := [0xE9 as Byte];
    OneByte(0xE9);
    ScalarsDecode(raw);
    assert RuneLen(raw) == 0;
  }

  // --- no early end --------------------------------------------------------------------------

  /** How many backslashes stand right before position i; it is escaped when they are odd. */
  function Backslashes(s: Bytes, i: nat): nat
    requires i <= |s|
  {
    if i > 0 && s[i - 1] == BACKSLASH then 1 + Backslashes(s, i - 1) else 0
  }

  lemma {:induction false} BackslashesShift(a: Bytes, b: Bytes, i: nat)
    requires i <= |b|
    requires a == [] || a[|a| - 1] != BACKSLASH || (|a| % 2 == 0 && forall k :: 0 <= k < |a| ==> a[k] == BACKSLASH)
    ensures Backslashes(a + b, |a| + i) % 2 == Backslashes(b, i) % 2
    decreases i
  {
    if i > 0 {
      if b[i - 1] == BACKSLASH {
        BackslashesShift(a, b, i - 1);
      }
    } else if a != [] && a[|a| - 1] == BACKSLASH {
      AllBackslashes(a, b, |a|);
    }
  }

  lemma {:induction false} AllBackslashes(a: Bytes, b: Bytes, i: nat)
    requires i <= |a| && forall k :: 0 <= k < |a| ==> a[k] == BACKSLASH
    ensures Backslashes(a + b, i) == i
  {
    if i > 0 {
      AllBackslashes(a, b, i - 1);
    }
  }

  /** No raw CR, LF or TAB at i, and no quote that is not escaped. */
  predicate Closed(s: Bytes, i: nat)
    requires i < |s|
  {
    s[i] != LF && s[i] != CR && s[i] != TAB && (s[i] == QUOTE ==> Backslashes(s, i) % 2 == 1)
  }

  lemma EscapeClosed(c: Byte, rest: Bytes, i: nat)
    requires i < |EscapeByte(c)|
    ensures Closed(EscapeByte(c) + rest, i)
  {
    var s := EscapeByte(c) + rest;
    assert s[0] == EscapeByte(c)[0] && Backslashes(s, 0) == 0;
    if i == 1 {
      assert s[1] == EscapeByte(c)[1];
    }
  }

  /** Nothing in the output can end the scalar or the line early: no raw CR, LF or
      TAB, and every quote is escaped. */
  lemma {:induction false} NothingRaw(s: Bytes, i: nat)
    requires i < |OnePass(s)|
    ensures Closed(OnePass(s), i)
    decreases |s|
  {
    var a, b := EscapeByte(s[0]), OnePass(s[1..]);
    if i < |a| {
      EscapeClosed(s[0], b, i);
    } else {
      NothingRaw(s[1..], i - |a|);
      BackslashesShift(a, b, i - |a|);
      assert (a + b)[i] == b[i - |a|];
    }
  }

  lemma ScalarsStayClosed(s: Bytes, i: nat)
    requires i < |FivePasses(s)|
    ensures Closed(FivePasses(s), i)
  {
    PassesAreOne(s);
    NothingRaw(s, i);
  }
}
