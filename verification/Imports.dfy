/** Adding and removing one @-import line in a CLAUDE.md that other tools edit too. */
module Imports {
  import opened Basics
  import opened Text
  import opened Lines
  import opened Fences

  /** A lone import line: non-empty, one line, unpadded, starting with '@'. */
  predicate ValidImport(line: string) {
    line != "" && Plain(line) && line[0] == '@' && !IsSpace(line[|line| - 1])
  }

  /** Exactly the lines the source accepts: not blank, equal to themselves trimmed, on one
      line and starting with '@'. */
  lemma ImportExact(line: string)
    ensures ValidImport(line) <==> Trim(line) != "" && line == Trim(line) && Plain(line) && line[0] == '@'
  {
    TrimTrims(line);
    assert "" + line + "" == line;
    if Trimmed(line) {
      TrimOf("", line, "");
    }
  }

  lemma ImportIsText(line: string)
    requires ValidImport(line)
    ensures Body(line) == line && ParseFence(line).NoFence? && !Indented(line)
  {
    assert LeadingSpaces(line) == 0;
  }

  // --- what a file's text means -------------------------------------------

  /** The import lines a reader of the lines finds at top level, in file order. */
  function ImportsIn(tags: seq<Tagged>): seq<string> {
    if tags == [] then []
    else if TopLevel(tags[0]) && ValidImport(Body(tags[0].line)) then
      [Body(tags[0].line)] + ImportsIn(tags[1..])
    else ImportsIn(tags[1..])
  }

  function ImportsOf(text: string): seq<string> { ImportsIn(Tag(Split(text))) }

  // --- the two edits on text ----------------------------------------------

  function PruneText(text: string, want: string): string {
    Join(LinesOf(RemoveTagged(Tag(Split(text)), want)))
  }

  function HostEol(lines: seq<string>): string {
    if lines == [] then "\n"
    else if Terminated(lines[0]) then Terminator(lines[0])
    else HostEol(lines[1..])
  }

  predicate Unterminated(lines: seq<string>) {
    lines != [] && !Terminated(lines[|lines| - 1])
  }

  function Appended(lines: seq<string>, want: string): string {
    var eol := HostEol(lines);
    (if Unterminated(lines) then eol else "") + want + eol
  }

  function RegisterText(text: string, want: string): string {
    if want in ImportsOf(text) then text else text + Appended(Split(text), want)
  }

  // --- Prune, seen by the next reader --------------------------------------

  lemma LooseOf(lines: seq<string>, tags: seq<Tagged>, want: string)
    requires |tags| == |lines| && forall i :: 0 <= i < |lines| ==> tags[i].line == lines[i]
    requires Loose(lines)
    ensures Loose(LinesOf(RemoveTagged(tags, want)))
    ensures forall l :: l in LinesOf(RemoveTagged(tags, want)) ==> l in lines
  {
    if lines != [] {
      LooseTail(lines);
      LooseOf(lines[1..], tags[1..], want);
      var rest := LinesOf(RemoveTagged(tags[1..], want));
      if !Matches(tags[0], want) {
        var all := LinesOf(RemoveTagged(tags, want));
        assert all == [lines[0]] + rest by {
          assert RemoveTagged(tags, want)[1..] == RemoveTagged(tags[1..], want);
        }
        assert rest != [] ==> rest[0] in lines[1..];
        forall i | 0 <= i < |all| ensures IsLine(all[i]) && (i < |all| - 1 ==> Terminated(all[i])) {
          if i > 0 {
            assert all[i] == rest[i - 1];
          }
        }
      }
    }
  }

  /** Re-splitting a pruned file gives the surviving lines, each with its old
      status, where a lone CR met by a bare LF became one CRLF line. */
  lemma PruneSurvivors(text: string, want: string)
    requires ValidImport(want)
    ensures Tag(Split(PruneText(text, want))) == FuseTagged(RemoveTagged(Tag(Split(text)), want))
  {
    ImportIsText(want);
    SplitSound(text);
    var lines := Split(text);
    LooseOf(lines, Tag(lines), want);
    var kept := LinesOf(RemoveTagged(Tag(lines), want));
    ResplitFuses(kept);
    ScanRemove(lines, NoFence, want);
    ScanFuse(kept, NoFence);
  }

  lemma {:induction false} ImportsRemoved(tags: seq<Tagged>, want: string)
    requires ValidImport(want)
    ensures ImportsIn(RemoveTagged(tags, want)) == Without(ImportsIn(tags), want)
  {
    if tags != [] {
      ImportsRemoved(tags[1..], want);
      if !Matches(tags[0], want) {
        assert RemoveTagged(tags, want)[1..] == RemoveTagged(tags[1..], want);
      }
      if TopLevel(tags[0]) && ValidImport(Body(tags[0].line)) {
        assert ImportsIn(tags)[1..] == ImportsIn(tags[1..]);
      }
    }
  }

  lemma {:induction false} ImportsFused(tags: seq<Tagged>)
    requires forall t :: t in tags ==> IsLine(t.line)
    ensures ImportsIn(FuseTagged(tags)) == ImportsIn(tags)
    decreases |tags|
  {
    if |tags| >= 2 {
      if Fuses(tags[0].line, tags[1].line) {
        Merged(tags[0].line);
        ImportsFused(tags[2..]);
        assert tags[1..][1..] == tags[2..];
        assert Body(tags[1].line) == "";
        assert FuseTagged(tags)[1..] == FuseTagged(tags[2..]);
      } else {
        ImportsFused(tags[1..]);
        assert FuseTagged(tags)[1..] == FuseTagged(tags[1..]);
      }
    }
  }

  lemma {:induction false} KeptLines(tags: seq<Tagged>, want: string)
    ensures forall t :: t in RemoveTagged(tags, want) ==> t in tags
  {
    if tags != [] {
      KeptLines(tags[1..], want);
    }
  }

  /** Pruning takes every top-level copy of want out and leaves the other
      imports as they were, in order, even after the bytes are read again. */
  lemma PruneImports(text: string, want: string)
    requires ValidImport(want)
    ensures ImportsOf(PruneText(text, want)) == Without(ImportsOf(text), want)
    ensures want !in ImportsOf(PruneText(text, want))
  {
    PruneSurvivors(text, want);
    SplitSound(text);
    var tags := Tag(Split(text));
    KeptLines(tags, want);
    ImportsFused(RemoveTagged(tags, want));
    ImportsRemoved(tags, want);
    WithoutGone(ImportsOf(text), want);
  }

  lemma {:induction false} NothingRemoved(tags: seq<Tagged>, want: string)
    requires ValidImport(want) && want !in ImportsIn(tags)
    ensures RemoveTagged(tags, want) == tags
  {
    if tags != [] {
      NothingRemoved(tags[1..], want);
    }
  }

  lemma {:induction false} LinesOfTags(lines: seq<string>, tags: seq<Tagged>)
    requires |tags| == |lines| && forall i :: 0 <= i < |lines| ==> tags[i].line == lines[i]
    ensures LinesOf(tags) == lines
  {
    if lines != [] {
      LinesOfTags(lines[1..], tags[1..]);
    }
  }

  lemma PruneAbsent(text: string, want: string)
    requires ValidImport(want) && want !in ImportsOf(text)
    ensures PruneText(text, want) == text
  {
    NothingRemoved(Tag(Split(text)), want);
    LinesOfTags(Split(text), Tag(Split(text)));
    SplitSound(text);
  }

  lemma PruneTwice(text: string, want: string)
    requires ValidImport(want)
    ensures PruneText(PruneText(text, want), want) == PruneText(text, want)
  {
    PruneImports(text, want);
    PruneAbsent(PruneText(text, want), want);
  }

  // --- Register, seen by the next reader -----------------------------------

  lemma TerminatorKinds(line: string)
    requires Terminated(line)
    ensures Terminator(line) in ["\n", "\r", "\r\n"]
  {
    if TermLen(line) == 1 {
      assert Terminator(line) == [line[|line| - 1]];
    } else {
      assert Terminator(line) == "\r\n";
    }
  }

  lemma {:induction false} HostEolKinds(lines: seq<string>)
    requires Loose(lines)
    ensures HostEol(lines) in ["\n", "\r", "\r\n"]
  {
    if lines != [] {
      LooseTail(lines);
      if Terminated(lines[0]) {
        TerminatorKinds(lines[0]);
      } else {
        HostEolKinds(lines[1..]);
      }
    }
  }

  /** The bytes of a text's first terminated line. */
  predicate FirstTerminator(text: string, pre: string, eol: string, rest: string) {
    && text == pre + eol + rest && Plain(pre) && eol in ["\n", "\r", "\r\n"]
    && (eol == "\r" ==> rest == "" || rest[0] != '\n')
  }

  /** The file's convention is the terminator of its first terminated line. */
  lemma HostEolExact(text: string, pre: string, eol: string, rest: string)
    requires FirstTerminator(text, pre, eol, rest)
    ensures HostEol(Split(text)) == eol
  {
    MakeLine(pre, eol);
    SplitCons(pre + eol, rest);
  }

  lemma HostEolNone(text: string)
    requires Plain(text)
    ensures HostEol(Split(text)) == "\n"
  {
    if text != "" {
      assert !Terminated(text) && Body(text) == text;
      SplitCons(text, "");
      assert text + "" == text;
    }
  }

  /** eol is the terminator of the first terminated line, "\n" when there is none. */
  ghost predicate FileEol(text: string, eol: string) {
    (Plain(text) && eol == "\n") || exists pre, rest :: FirstTerminator(text, pre, eol, rest)
  }

  lemma FileEolExact(text: string, eol: string)
    requires FileEol(text, eol)
    ensures HostEol(Split(text)) == eol
  {
    hide Split, HostEol;
    if Plain(text) && eol == "\n" {
      HostEolNone(text);
    } else {
      var pre, rest :| FirstTerminator(text, pre, eol, rest);
      HostEolExact(text, pre, eol, rest);
    }
  }

  /** What registering an absent line appends: the file's own terminator on either side,
      the one in front only behind an unterminated last line. */
  lemma RegisterBytes(text: string, want: string, eol: string)
    requires ValidImport(want) && want !in ImportsOf(text) && FileEol(text, eol)
    ensures RegisterText(text, want) ==
            text + ((if text == "" || IsEol(text[|text| - 1]) then "" else eol) + want + eol)
  {
    FileEolExact(text, eol);
    EndOf(text);
    hide Split, ImportsOf, ValidImport, HostEol, Unterminated, FileEol;
  }

  /** A plain text with one terminator after it is one line. */
  lemma MakeLine(body: string, eol: string)
    requires Plain(body) && eol in ["\n", "\r", "\r\n"]
    ensures var line := body + eol; IsLine(line) && Body(line) == body && Terminator(line) == eol && Terminated(line)
  {
    var line := body + eol;
    assert line[|body|..] == eol && line[..|body|] == body;
    assert line[|line| - 1] == eol[|eol| - 1];
    assert |eol| == 2 ==> line[|line| - 2] == '\r';
    assert |body| > 0 ==> line[|body| - 1] == body[|body| - 1];
  }

  /** The lines in front of a new import: the last one gets its terminator. */
  function Closed(lines: seq<string>): seq<string> {
    if Unterminated(lines) then lines[..|lines| - 1] + [lines[|lines| - 1] + HostEol(lines)] else lines
  }

  function RegisteredLines(lines: seq<string>, want: string): seq<string> {
    Closed(lines) + [want + HostEol(lines)]
  }

  lemma RegisterSplit(text: string, want: string)
    requires ValidImport(want)
    ensures Split(text + Appended(Split(text), want)) == RegisteredLines(Split(text), want)
  {
    var lines := Split(text);
    hide Split, Join, WellSplit, HostEol, RegisteredLines, Appended, ValidImport;
    SplitSound(text);
    RegisteredNormal(lines, want);
    JoinRegistered(lines, want);
    SplitJoinExact(RegisteredLines(lines, want));
  }

  lemma JoinRegistered(lines: seq<string>, want: string)
    ensures Join(RegisteredLines(lines, want)) == Join(lines) + Appended(lines, want)
  {
    var eol := HostEol(lines);
    hide Join, HostEol;
    if Unterminated(lines) {
      JoinUnterminated(lines, eol, want + eol);
      assert eol + (want + eol) == eol + want + eol;
    } else {
      JoinLast(lines, want + eol);
      assert "" + want + eol == want + eol;
    }
  }

  lemma JoinOne(line: string)
    ensures Join([line]) == line
  {
    assert [line][1..] == [];
  }

  lemma JoinUnterminated(lines: seq<string>, eol: string, more: string)
    requires lines != []
    ensures Join(lines[..|lines| - 1] + [lines[|lines| - 1] + eol] + [more]) == Join(lines) + (eol + more)
  {
    hide Join;
    var init, last := lines[..|lines| - 1], lines[|lines| - 1];
    assert lines == init + [last];
    JoinLast(init, last);
    JoinTwo(init, last + eol, more);
    Reassociate(Join(init), last, eol, more);
  }

  lemma JoinLast(init: seq<string>, last: string)
    ensures Join(init + [last]) == Join(init) + last
  {
    JoinAppend(init, [last]);
    JoinOne(last);
  }

  lemma JoinTwo(init: seq<string>, a: string, b: string)
    ensures Join(init + [a] + [b]) == Join(init) + a + b
  {
    hide Join;
    JoinLast(init, a);
    JoinLast(init + [a], b);
  }

  lemma Reassociate(a: string, b: string, c: string, d: string)
    ensures a + (b + c) + d == (a + b) + (c + d)
  {
  }

  /** Adding a terminated line that starts with '@' keeps lines in normal form. */
  lemma SnocNormal(lines: seq<string>, line: string)
    requires WellSplit(lines) && !Unterminated(lines) && IsLine(line) && line[0] == '@'
    ensures WellSplit(lines + [line])
  {
    var after := lines + [line];
    forall i | 0 <= i < |after|
      ensures IsLine(after[i]) && (i < |after| - 1 ==> Terminated(after[i]))
      ensures 0 < i ==> !Fuses(after[i - 1], after[i])
    {
      if 0 < i < |lines| {
        assert !Fuses(lines[i - 1], lines[i]);
      }
    }
  }

  /** Terminating the last line keeps lines in normal form. */
  lemma ClosedNormal(lines: seq<string>)
    requires WellSplit(lines)
    ensures WellSplit(Closed(lines)) && !Unterminated(Closed(lines))
  {
    if Unterminated(lines) {
      var n := |lines| - 1;
      var last := lines[n] + HostEol(lines);
      HostEolKinds(lines);
      MakeLine(lines[n], HostEol(lines));
      assert last[0] == lines[n][0] && lines[n][0] != '\n';
      var after := Closed(lines);
      forall i | 0 <= i < |after|
        ensures IsLine(after[i]) && (i < |after| - 1 ==> Terminated(after[i]))
        ensures 0 < i ==> !Fuses(after[i - 1], after[i])
      {
        if 0 < i {
          assert !Fuses(lines[i - 1], lines[i]);
        }
      }
    }
  }

  lemma RegisteredNormal(lines: seq<string>, want: string)
    requires WellSplit(lines) && ValidImport(want)
    ensures WellSplit(RegisteredLines(lines, want))
  {
    HostEolKinds(lines);
    MakeLine(want, HostEol(lines));
    ClosedNormal(lines);
    hide WellSplit, HostEol, Closed, IsLine;
    SnocNormal(Closed(lines), want + HostEol(lines));
  }

  lemma {:induction false} ImportsSame(a: seq<Tagged>, b: seq<Tagged>)
    requires |a| == |b|
    requires forall i :: 0 <= i < |a| ==> Body(a[i].line) == Body(b[i].line) && a[i].inside == b[i].inside
    ensures ImportsIn(a) == ImportsIn(b)
  {
    if a != [] {
      ImportsSame(a[1..], b[1..]);
    }
  }

  lemma {:induction false} ImportsSnoc(tags: seq<Tagged>, t: Tagged)
    ensures ImportsIn(tags + [t]) == ImportsIn(tags) + ImportsIn([t])
  {
    if tags == [] {
      assert tags + [t] == [t];
    } else {
      ImportsSnoc(tags[1..], t);
      assert (tags + [t])[1..] == tags[1..] + [t];
    }
  }

  /** Registering an absent line puts it last among the imports, at top level
      whatever dangling fence stands above it, and moves no other import. */
  lemma RegisterImports(text: string, want: string)
    requires ValidImport(want)
    ensures ImportsOf(RegisterText(text, want)) ==
            if want in ImportsOf(text) then ImportsOf(text) else ImportsOf(text) + [want]
  {
    if want !in ImportsOf(text) {
      var added := Tagged(want + HostEol(Split(text)), false);
      RegisteredTags(text, want);
      ImportsSnoc(Tag(Closed(Split(text))), added);
      assert ImportsIn([added]) == [want] by {
        assert [added][1..] == [];
      }
    }
  }

  /** The new line is top level; the others keep body, status and hence imports. */
  lemma RegisteredTags(text: string, want: string)
    requires ValidImport(want)
    ensures var lines := Split(text);
            var added := Tagged(want + HostEol(lines), false);
            && Tag(RegisteredLines(lines, want)) == Tag(Closed(lines)) + [added]
            && Split(text + Appended(lines, want)) == RegisteredLines(lines, want)
            && ImportsIn(Tag(Closed(lines))) == ImportsOf(text)
            && Matches(added, want)
  {
    var lines := Split(text);
    RegisterSplit(text, want);
    SplitSound(text);
    HostEolKinds(lines);
    ImportIsText(want);
    MakeLine(want, HostEol(lines));
    ScanAppend(Closed(lines), NoFence, want + HostEol(lines));
    hide Split, WellSplit, ValidImport, Appended, ImportsIn;
    ClosedBodies(lines);
    ScanBodies(lines, Closed(lines), NoFence);
    ImportsSame(Tag(lines), Tag(Closed(lines)));
  }

  lemma ClosedLine(lines: seq<string>, i: nat)
    requires WellSplit(lines) && i < |lines|
    ensures var x, y := lines[i], Closed(lines)[i];
            Body(y) == Body(x) && (y == x || (x != "" && !Terminated(x)))
  {
    HostEolKinds(lines);
    if Unterminated(lines) && i == |lines| - 1 {
      LastBody(lines, HostEol(lines));
    }
  }

  lemma ClosedBodies(lines: seq<string>)
    requires WellSplit(lines)
    ensures |Closed(lines)| == |lines| && forall i :: 0 <= i < |lines| ==> Body(lines[i]) == Body(Closed(lines)[i])
  {
    assert |Closed(lines)| == |lines|;
    hide WellSplit, Closed, Body;
    forall i | 0 <= i < |lines| ensures Body(lines[i]) == Body(Closed(lines)[i]) {
      ClosedLine(lines, i);
    }
  }

  lemma LastBody(lines: seq<string>, eol: string)
    requires WellSplit(lines) && Unterminated(lines) && eol in ["\n", "\r", "\r\n"]
    ensures Body(lines[|lines| - 1] + eol) == Body(lines[|lines| - 1])
  {
    MakeLine(lines[|lines| - 1], eol);
  }

  lemma RegisterTwice(text: string, want: string)
    requires ValidImport(want)
    ensures RegisterText(RegisterText(text, want), want) == RegisterText(text, want)
  {
    RegisterImports(text, want);
  }

  // --- Register then Prune --------------------------------------------------

  lemma {:induction false} RemoveSnoc(tags: seq<Tagged>, t: Tagged, want: string)
    ensures RemoveTagged(tags + [t], want) ==
            RemoveTagged(tags, want) + (if Matches(t, want) then [] else [t])
  {
    if tags == [] {
      assert tags + [t] == [t] && [t][1..] == [];
    } else {
      RemoveSnoc(tags[1..], t, want);
      assert (tags + [t])[1..] == tags[1..] + [t];
    }
  }

  /** Pruning the line just registered leaves the lines it was put behind. */
  lemma PruneRegistered(text: string, want: string)
    requires ValidImport(want) && want !in ImportsOf(text)
    ensures PruneText(RegisterText(text, want), want) == Join(Closed(Split(text)))
  {
    var lines := Split(text);
    var base, added := Closed(lines), Tagged(want + HostEol(lines), false);
    RegisteredTags(text, want);
    hide ImportsIn, Tag, Split, Closed, ValidImport, Matches, HostEol, Join, RegisteredLines, Appended;
    RemoveSnoc(Tag(base), added, want);
    NothingRemoved(Tag(base), want);
    LinesOfTags(base, Tag(base));
    assert Tag(base) + [] == Tag(base);
  }

  /** Enable followed by disable gives back the very bytes exactly when the file
      was empty or ended in a terminator; otherwise one host EOL stays behind. */
  lemma RoundTrip(text: string, want: string)
    requires ValidImport(want) && want !in ImportsOf(text)
    ensures PruneText(RegisterText(text, want), want) ==
            if Unterminated(Split(text)) then text + HostEol(Split(text)) else text
    ensures PruneText(RegisterText(text, want), want) == text <==> text == "" || IsEol(text[|text| - 1])
  {
    PruneRegistered(text, want);
    JoinClosed(text);
    EndOf(text);
    hide Split, Join, ImportsOf, PruneText, RegisterText, Closed, ValidImport, HostEol, Unterminated, IsEol;
  }

  lemma EndOf(text: string)
    ensures HostEol(Split(text)) != ""
    ensures Unterminated(Split(text)) <==> text != "" && !IsEol(text[|text| - 1])
  {
    SplitSound(text);
    HostEolKinds(Split(text));
    LastByte(Split(text));
  }

  lemma JoinClosed(text: string)
    ensures var lines := Split(text);
            Join(Closed(lines)) == if Unterminated(lines) then text + HostEol(lines) else text
  {
    var lines := Split(text);
    SplitSound(text);
    hide Split, Join, WellSplit, HostEol;
    if Unterminated(lines) {
      var init, last := lines[..|lines| - 1], lines[|lines| - 1];
      JoinLast(init, last);
      JoinLast(init, last + HostEol(lines));
      assert lines == init + [last];
    }
  }

  lemma {:induction false} LastByte(lines: seq<string>)
    requires Loose(lines)
    ensures lines != [] ==> Join(lines) != ""
    ensures Unterminated(lines) <==> Join(lines) != "" && !IsEol(Join(lines)[|Join(lines)| - 1])
  {
    if lines != [] {
      LooseTail(lines);
      LastByte(lines[1..]);
      if |lines| == 1 {
        JoinOne(lines[0]);
        assert lines == [lines[0]];
      }
    }
  }
}
