/** What a history of edits leaves of the lines of a CLAUDE.md that are not imports:
    each keeps its place, its text and its status. */
module Others {
  import opened Lines
  import opened Fences
  import opened Imports
  import opened HostFile

  predicate IsImport(t: Tagged) { TopLevel(t) && ValidImport(Body(t.line)) }

  /** The lines that are no imports, each with its status, in file order. */
  function OthersIn(tags: seq<Tagged>): seq<Tagged> {
    if tags == [] then []
    else if IsImport(tags[0]) then OthersIn(tags[1..])
    else [tags[0]] + OthersIn(tags[1..])
  }

  function OthersOf(text: string): seq<Tagged> { OthersIn(Tag(Split(text))) }

  /** y is x, but for the LF a lone CR may have met, or the terminator a last line
      without one may have gained. */
  predicate Kept(x: Tagged, y: Tagged) {
    && y.inside == x.inside && Body(y.line) == Body(x.line)
    && (y.line == x.line || (EndsCr(x.line) && y.line == x.line + "\n") || (x.line != "" && !Terminated(x.line)))
  }

  /** b is a with every line kept, in order, but for bare LFs, which a lone CR may
      have taken in. */
  predicate Preserved(a: seq<Tagged>, b: seq<Tagged>)
    decreases |a|
  {
    if a == [] then b == []
    else
      || (b != [] && Kept(a[0], b[0]) && Preserved(a[1..], b[1..]))
      || (a[0].line == "\n" && Preserved(a[1..], b))
  }

  lemma KeptTrans(x: Tagged, y: Tagged, z: Tagged)
    requires Kept(x, y) && Kept(y, z)
    ensures Kept(x, z)
  {
    if EndsCr(x.line) && y.line == x.line + "\n" {
      assert y.line[|y.line| - 1] == '\n';
    }
  }

  lemma KeptLf(x: Tagged, y: Tagged)
    requires Kept(x, y) && y.line == "\n"
    ensures x.line == "\n"
  {
    assert Body(y.line) == "";
  }

  lemma {:induction false} PreservedSame(a: seq<Tagged>)
    ensures Preserved(a, a)
  {
    if a != [] {
      PreservedSame(a[1..]);
    }
  }

  lemma {:induction false} PreservedTrans(a: seq<Tagged>, b: seq<Tagged>, c: seq<Tagged>)
    requires Preserved(a, b) && Preserved(b, c)
    ensures Preserved(a, c)
    decreases |a|
  {
    hide Kept;
    if a == [] {
    } else if a[0].line == "\n" && Preserved(a[1..], b) {
      PreservedTrans(a[1..], b, c);
    } else if c != [] && Kept(b[0], c[0]) && Preserved(b[1..], c[1..]) {
      KeptTrans(a[0], b[0], c[0]);
      PreservedTrans(a[1..], b[1..], c[1..]);
    } else {
      KeptLf(a[0], b[0]);
      PreservedTrans(a[1..], b[1..], c);
    }
  }

  // --- pruning ----------------------------------------------------------------------

  lemma {:induction false} OthersRemoved(tags: seq<Tagged>, want: string)
    requires ValidImport(want)
    ensures OthersIn(RemoveTagged(tags, want)) == OthersIn(tags)
  {
    if tags != [] {
      OthersRemoved(tags[1..], want);
      if !Matches(tags[0], want) {
        assert RemoveTagged(tags, want)[1..] == RemoveTagged(tags[1..], want);
      }
    }
  }

  lemma {:induction false} OthersFused(tags: seq<Tagged>)
    requires forall t :: t in tags ==> IsLine(t.line)
    ensures Preserved(OthersIn(tags), OthersIn(FuseTagged(tags)))
    decreases |tags|
  {
    hide ValidImport, IsLine, Kept;
    if |tags| >= 2 && Fuses(tags[0].line, tags[1].line) {
      OthersFused(tags[2..]);
      FusedHead(tags[0], tags[1]);
      assert tags[1..][1..] == tags[2..] && tags[1..][0] == tags[1];
      assert FuseTagged(tags)[1..] == FuseTagged(tags[2..]);
      hide FuseTagged, Fuses;
      var lf := [tags[1]] + OthersIn(tags[2..]);
      assert OthersIn(tags[1..]) == lf && lf[1..] == OthersIn(tags[2..]);
      assert Preserved(lf, OthersIn(FuseTagged(tags[2..])));
    } else if tags != [] {
      OthersFused(tags[1..]);
      KeptSame(tags[0]);
      assert FuseTagged(tags)[0] == tags[0] && FuseTagged(tags)[1..] == FuseTagged(tags[1..]);
    }
  }

  lemma KeptSame(t: Tagged)
    ensures Kept(t, t)
  {
  }

  /** The merged line is what its first half was; the bare LF was no import. */
  lemma FusedHead(t: Tagged, lf: Tagged)
    requires IsLine(t.line) && Fuses(t.line, lf.line)
    ensures var merged := Tagged(t.line + "\n", t.inside);
            Kept(t, merged) && (IsImport(merged) <==> IsImport(t)) && !IsImport(lf)
  {
    Merged(t.line);
    assert Body(lf.line) == "";
  }

  lemma PruneOthers(text: string, want: string)
    requires ValidImport(want)
    ensures Preserved(OthersOf(text), OthersOf(PruneText(text, want)))
  {
    PruneSurvivors(text, want);
    SplitSound(text);
    var tags := Tag(Split(text));
    KeptLines(tags, want);
    OthersRemoved(tags, want);
    OthersFused(RemoveTagged(tags, want));
  }

  // --- registering ----------------------------------------------------------------------

  ghost predicate AllKept(a: seq<Tagged>, b: seq<Tagged>) { |a| == |b| && forall i :: 0 <= i < |a| ==> Kept(a[i], b[i]) }

  lemma AllKeptCons(x: Tagged, y: Tagged, a: seq<Tagged>, b: seq<Tagged>)
    ensures AllKept([x] + a, [y] + b) <==> Kept(x, y) && AllKept(a, b)
  {
    hide Kept;
    var xa, yb := [x] + a, [y] + b;
    if AllKept(xa, yb) {
      assert Kept(xa[0], yb[0]);
      forall i | 0 <= i < |a| ensures Kept(a[i], b[i]) {
        assert Kept(xa[i + 1], yb[i + 1]);
      }
    }
  }

  lemma {:induction false} OthersPointwise(a: seq<Tagged>, b: seq<Tagged>)
    requires AllKept(a, b)
    ensures AllKept(OthersIn(a), OthersIn(b))
  {
    if a != [] {
      assert Kept(a[0], b[0]) && (IsImport(a[0]) <==> IsImport(b[0]));
      assert a == [a[0]] + a[1..] && b == [b[0]] + b[1..];
      AllKeptCons(a[0], b[0], a[1..], b[1..]);
      OthersPointwise(a[1..], b[1..]);
      AllKeptCons(a[0], b[0], OthersIn(a[1..]), OthersIn(b[1..]));
    }
  }

  lemma {:induction false} KeptPreserves(a: seq<Tagged>, b: seq<Tagged>)
    requires AllKept(a, b)
    ensures Preserved(a, b)
  {
    if a != [] {
      assert a == [a[0]] + a[1..] && b == [b[0]] + b[1..];
      AllKeptCons(a[0], b[0], a[1..], b[1..]);
      KeptPreserves(a[1..], b[1..]);
    }
  }

  lemma {:induction false} OthersSnoc(tags: seq<Tagged>, t: Tagged)
    requires IsImport(t)
    ensures OthersIn(tags + [t]) == OthersIn(tags)
  {
    if tags == [] {
      assert tags + [t] == [t] && [t][1..] == [];
    } else {
      OthersSnoc(tags[1..], t);
      assert (tags + [t])[1..] == tags[1..] + [t];
    }
  }

  lemma ClosedKept(lines: seq<string>)
    requires WellSplit(lines)
    ensures AllKept(Tag(lines), Tag(Closed(lines)))
  {
    assert |Closed(lines)| == |lines|;
    hide WellSplit, Closed;
    forall i | 0 <= i < |lines|
      ensures Body(Closed(lines)[i]) == Body(lines[i])
      ensures Closed(lines)[i] == lines[i] || (lines[i] != "" && !Terminated(lines[i]))
    {
      ClosedLine(lines, i);
    }
    hide Body, Terminated;
    ScanBodies(lines, Closed(lines), NoFence);
  }

  lemma RegisterOthers(text: string, want: string)
    requires ValidImport(want)
    ensures AllKept(OthersOf(text), OthersOf(RegisterText(text, want)))
  {
    var lines := Split(text);
    if want !in ImportsOf(text) {
      SplitSound(text);
      RegisteredTags(text, want);
      ImportIsText(want);
      HostEolKinds(lines);
      MakeLine(want, HostEol(lines));
      ClosedKept(lines);
      OthersPointwise(Tag(lines), Tag(Closed(lines)));
      OthersSnoc(Tag(Closed(lines)), Tagged(want + HostEol(lines), false));
    }
  }

  // --- files without a lone CR ----------------------------------------------------------

  predicate NoLoneCr(lines: seq<string>) { forall l :: l in lines ==> !EndsCr(l) }

  lemma {:induction false} NothingFuses(tags: seq<Tagged>)
    requires forall t :: t in tags ==> !EndsCr(t.line)
    ensures FuseTagged(tags) == tags
  {
    if |tags| >= 2 {
      NothingFuses(tags[1..]);
      assert tags == [tags[0]] + tags[1..];
    }
  }

  lemma PruneKeepsAll(text: string, want: string)
    requires ValidImport(want) && NoLoneCr(Split(text))
    ensures OthersOf(PruneText(text, want)) == OthersOf(text)
    ensures NoLoneCr(Split(PruneText(text, want)))
  {
    var tags := Tag(Split(text));
    PruneSurvivors(text, want);
    KeptLines(tags, want);
    OthersRemoved(tags, want);
    hide ValidImport, EndsCr, PruneText;
    forall t | t in RemoveTagged(tags, want) ensures !EndsCr(t.line) {
      var i :| 0 <= i < |tags| && tags[i] == t;
      assert t.line == Split(text)[i];
    }
    NothingFuses(RemoveTagged(tags, want));
    var after := Split(PruneText(text, want));
    forall l | l in after ensures !EndsCr(l) {
      var i :| 0 <= i < |after| && after[i] == l;
      assert Tag(after)[i].line == l && Tag(after)[i] in RemoveTagged(tags, want);
    }
  }

  lemma {:induction false} HostEolFree(lines: seq<string>)
    requires Loose(lines) && NoLoneCr(lines)
    ensures HostEol(lines) in ["\n", "\r\n"]
  {
    if lines != [] {
      LooseTail(lines);
      if Terminated(lines[0]) {
        TerminatorKinds(lines[0]);
        assert lines[0] in lines;
        assert Terminator(lines[0])[|Terminator(lines[0])| - 1] == lines[0][|lines[0]| - 1];
      } else {
        HostEolFree(lines[1..]);
      }
    }
  }

  lemma RegisterKeepsNoLoneCr(text: string, want: string)
    requires ValidImport(want) && NoLoneCr(Split(text))
    ensures NoLoneCr(Split(RegisterText(text, want)))
  {
    if want !in ImportsOf(text) {
      var lines := Split(text);
      SplitSound(text);
      RegisterSplit(text, want);
      HostEolFree(lines);
      RegisteredNoLoneCr(lines, want);
    }
  }

  lemma RegisteredNoLoneCr(lines: seq<string>, want: string)
    requires NoLoneCr(lines) && HostEol(lines) in ["\n", "\r\n"]
    ensures NoLoneCr(RegisteredLines(lines, want))
  {
    hide HostEol;
    var eol, after := HostEol(lines), RegisteredLines(lines, want);
    assert eol[|eol| - 1] == '\n';
    forall i | 0 <= i < |after| ensures !EndsCr(after[i]) {
      if i == |after| - 1 {
        assert after[i] == want + eol;
      } else if Unterminated(lines) && i == |after| - 2 {
        assert after[i] == lines[|lines| - 1] + eol;
      } else {
        assert after[i] in lines;
      }
    }
  }

  // --- histories --------------------------------------------------------------------

  lemma StepPreserves(h: Host, op: Op)
    ensures Preserved(OthersOf(TextOf(h)), OthersOf(TextOf(After(h, op))))
  {
    var text := TextOf(h);
    PreservedSame(OthersOf(text));
    if Effective(op) {
      if op.kind.Registering? {
        RegisterOthers(text, op.line);
        KeptPreserves(OthersOf(text), OthersOf(RegisterText(text, op.line)));
      } else {
        PruneOthers(text, op.line);
      }
    }
  }

  /** No history of edits by any tools, failures included, disturbs a line that is no
      import: each stays in order with its text and its status inside or outside a
      code block, but for CR and LF that fuse and a last terminator. */
  lemma {:induction false} HistoryPreservesOthers(h: Host, ops: seq<Op>)
    ensures Preserved(OthersOf(TextOf(h)), OthersOf(TextOf(AfterAll(h, ops))))
    decreases |ops|
  {
    if ops == [] {
      PreservedSame(OthersOf(TextOf(h)));
    } else {
      var before := AfterAll(h, ops[..|ops| - 1]);
      HistoryPreservesOthers(h, ops[..|ops| - 1]);
      StepPreserves(before, ops[|ops| - 1]);
      PreservedTrans(OthersOf(TextOf(h)), OthersOf(TextOf(before)), OthersOf(TextOf(AfterAll(h, ops))));
    }
  }

  lemma KeptAll(a: seq<Tagged>)
    ensures AllKept(a, a)
  {
  }

  lemma AllKeptTrans(a: seq<Tagged>, b: seq<Tagged>, c: seq<Tagged>)
    requires AllKept(a, b) && AllKept(b, c)
    ensures AllKept(a, c)
  {
    hide Kept;
    forall i | 0 <= i < |a| ensures Kept(a[i], c[i]) {
      KeptTrans(a[i], b[i], c[i]);
    }
  }

  lemma StepKeepsBytes(h: Host, op: Op)
    requires NoLoneCr(Split(TextOf(h)))
    ensures NoLoneCr(Split(TextOf(After(h, op))))
    ensures AllKept(OthersOf(TextOf(h)), OthersOf(TextOf(After(h, op))))
  {
    hide NoLoneCr, OthersOf, ValidImport, ImportsOf, Split, Kept;
    KeptAll(OthersOf(TextOf(h)));
    if Effective(op) {
      if op.kind.Registering? {
        RegisterOthers(TextOf(h), op.line);
        RegisterKeepsNoLoneCr(TextOf(h), op.line);
      } else {
        PruneKeepsAll(TextOf(h), op.line);
      }
    }
  }

  lemma {:induction false} HistoryKeepsAll(h: Host, ops: seq<Op>)
    requires NoLoneCr(Split(TextOf(h)))
    ensures NoLoneCr(Split(TextOf(AfterAll(h, ops))))
    ensures AllKept(OthersOf(TextOf(h)), OthersOf(TextOf(AfterAll(h, ops))))
    decreases |ops|
  {
    if ops != [] {
      var before := AfterAll(h, ops[..|ops| - 1]);
      HistoryKeepsAll(h, ops[..|ops| - 1]);
      hide NoLoneCr, AllKept;
      StepKeepsBytes(before, ops[|ops| - 1]);
      AllKeptTrans(OthersOf(TextOf(h)), OthersOf(TextOf(before)), OthersOf(TextOf(AfterAll(h, ops))));
    }
  }

  /** In a file without a lone CR, every line that is no import and has a terminator
      comes out of every history byte for byte, in its place, with its status. */
  lemma HistoryKeepsBytes(h: Host, ops: seq<Op>, k: nat)
    requires NoLoneCr(Split(TextOf(h))) && k < |OthersOf(TextOf(h))|
    ensures var before, after := OthersOf(TextOf(h)), OthersOf(TextOf(AfterAll(h, ops)));
            && |after| == |before|
            && after[k].inside == before[k].inside && Body(after[k].line) == Body(before[k].line)
            && (Terminated(before[k].line) ==> after[k].line == before[k].line)
  {
    HistoryKeepsAll(h, ops);
    OthersNoLoneCr(TextOf(h));
    hide OthersOf, NoLoneCr, AfterAll, Body, Terminated, EndsCr;
    var before, after := OthersOf(TextOf(h)), OthersOf(TextOf(AfterAll(h, ops)));
    assert Kept(before[k], after[k]);
  }

  lemma OthersNoLoneCr(text: string)
    requires NoLoneCr(Split(text))
    ensures forall t :: t in OthersOf(text) ==> !EndsCr(t.line)
  {
    var tags := Tag(Split(text));
    OthersAreLines(tags);
    hide EndsCr;
    forall t | t in OthersOf(text) ensures !EndsCr(t.line) {
      var i :| 0 <= i < |tags| && tags[i] == t;
      assert t.line == Split(text)[i];
    }
  }

  lemma {:induction false} OthersAreLines(tags: seq<Tagged>)
    ensures forall t :: t in OthersIn(tags) ==> t in tags
  {
    if tags != [] {
      OthersAreLines(tags[1..]);
    }
  }
}
