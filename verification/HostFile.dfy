/** The CLAUDE.md file itself: each locked read-modify-write as one step, and
    what any sequence of such steps by any tools leaves in the file. */
module HostFile {
  import opened Basics
  import opened Lines
  import opened Fences
  import opened Imports

  /** regular is false for a symlinked path, whose target is never deleted. */
  datatype Host = Missing | File(text: string, regular: bool)

  function TextOf(h: Host): string { if h.Missing? then "" else h.text }

  datatype Kind = Registering | Pruning | Discarding

  /** NotWritten: the atomic write (or the lock) fails. NotRemoved: the write lands
      and deleting the emptied file fails. */
  datatype Fault = NoFault | NotWritten | NotRemoved

  datatype Op = Op(kind: Kind, line: string, fault: Fault)

  function After(h: Host, op: Op): Host {
    var text := TextOf(h);
    if !ValidImport(op.line) || op.fault.NotWritten? then h
    else if op.kind.Registering? then
      if op.line in ImportsOf(text) then h
      else File(RegisterText(text, op.line), h.File? ==> h.regular)
    else if op.line !in ImportsOf(text) || h.Missing? then h
    else
      var pruned := PruneText(text, op.line);
      if op.kind.Discarding? && pruned == "" && h.regular && !op.fault.NotRemoved? then Missing
      else File(pruned, h.regular)
  }

  // --- histories ------------------------------------------------------------

  function AfterAll(h: Host, ops: seq<Op>): Host
    decreases |ops|
  {
    if ops == [] then h else After(AfterAll(h, ops[..|ops| - 1]), ops[|ops| - 1])
  }

  predicate Effective(op: Op) { ValidImport(op.line) && !op.fault.NotWritten? }

  /** What the operations mean for the list of imports, with no bytes in sight. */
  function ListAfter(imports: seq<string>, op: Op): seq<string> {
    if !Effective(op) then imports
    else if !op.kind.Registering? then Without(imports, op.line)
    else if op.line in imports then imports
    else imports + [op.line]
  }

  function ListAfterAll(imports: seq<string>, ops: seq<Op>): seq<string>
    decreases |ops|
  {
    if ops == [] then imports else ListAfter(ListAfterAll(imports, ops[..|ops| - 1]), ops[|ops| - 1])
  }

  lemma StepRefines(h: Host, op: Op)
    ensures ImportsOf(TextOf(After(h, op))) == ListAfter(ImportsOf(TextOf(h)), op)
  {
    if Effective(op) {
      var text := TextOf(h);
      if op.kind.Registering? {
        RegisterImports(text, op.line);
      } else {
        PruneImports(text, op.line);
        WithoutGone(ImportsOf(text), op.line);
        assert ImportsOf("") == [];
      }
    }
  }

  /** The bytes refine the list: every history of edits by any tools on any lines,
      failures included, acts on the re-read file as on a plain list of imports. */
  lemma {:induction false} HistoryRefines(h: Host, ops: seq<Op>)
    ensures ImportsOf(TextOf(AfterAll(h, ops))) == ListAfterAll(ImportsOf(TextOf(h)), ops)
    decreases |ops|
  {
    if ops != [] {
      HistoryRefines(h, ops[..|ops| - 1]);
      StepRefines(AfterAll(h, ops[..|ops| - 1]), ops[|ops| - 1]);
    }
  }

  /** The last operation on want that took effect, -1 when there is none. */
  function LastOn(ops: seq<Op>, want: string): (i: int)
    ensures -1 <= i < |ops|
    ensures i >= 0 ==> ops[i].line == want && Effective(ops[i])
    ensures forall j :: i < j < |ops| ==> !(ops[j].line == want && Effective(ops[j]))
    decreases |ops|
  {
    if ops == [] then -1
    else if ops[|ops| - 1].line == want && Effective(ops[|ops| - 1]) then |ops| - 1
    else LastOn(ops[..|ops| - 1], want)
  }

  /** A line is imported exactly when the last operation on it registered it, or
      when it was there at the start and no operation on it took effect. */
  lemma {:induction false} LastOperationDecides(h: Host, ops: seq<Op>, want: string)
    ensures want in ImportsOf(TextOf(AfterAll(h, ops))) <==>
            var i := LastOn(ops, want);
            if i >= 0 then ops[i].kind.Registering? else want in ImportsOf(TextOf(h))
    decreases |ops|
  {
    if ops != [] {
      var init, op := ops[..|ops| - 1], ops[|ops| - 1];
      LastOperationDecides(h, init, want);
      StepRefines(AfterAll(h, init), op);
      WithoutGone(ImportsOf(TextOf(AfterAll(h, init))), op.line);
    }
  }

  // --- when the file goes ----------------------------------------------------

  lemma {:induction false} PlainScan(lines: seq<string>, want: string)
    requires ParseFence(want).NoFence? && !Indented(want)
    requires forall i :: 0 <= i < |lines| ==> Body(lines[i]) == want
    ensures RemoveTagged(Tag(lines), want) == []
  {
    hide ParseFence, Body, Indented;
    if lines != [] {
      ScanCons(lines, NoFence);
      PlainScan(lines[1..], want);
      assert Matches(Tag(lines)[0], want);
    }
  }

  lemma {:induction false} NothingLeft(tags: seq<Tagged>, want: string)
    requires RemoveTagged(tags, want) == []
    ensures forall i :: 0 <= i < |tags| ==> Matches(tags[i], want)
  {
    if tags != [] {
      NothingLeft(tags[1..], want);
      assert forall i :: 0 < i < |tags| ==> tags[i] == tags[1..][i - 1];
    }
  }

  /** Nothing is left of a file exactly when it consists of copies of the line. */
  lemma PrunedEmpty(text: string, want: string)
    requires ValidImport(want)
    ensures PruneText(text, want) == "" <==> forall i :: 0 <= i < |Split(text)| ==> Body(Split(text)[i]) == want
  {
    var lines := Split(text);
    ImportIsText(want);
    SplitSound(text);
    LooseOf(lines, Tag(lines), want);
    LastByte(LinesOf(RemoveTagged(Tag(lines), want)));
    hide Split, ValidImport, ParseFence, Indented, Body;
    if PruneText(text, want) == "" {
      NothingLeft(Tag(lines), want);
    }
    if forall i :: 0 <= i < |lines| ==> Body(lines[i]) == want {
      PlainScan(lines, want);
    }
  }

  /** A file is deleted exactly by a discarding prune that goes through, on a regular file
      made of nothing but copies of the line. */
  lemma DeletedExact(h: Host, op: Op)
    requires h.File?
    ensures After(h, op).Missing? <==>
            && op.kind.Discarding? && op.fault.NoFault? && ValidImport(op.line)
            && h.regular && h.text != ""
            && forall i :: 0 <= i < |Split(h.text)| ==> Body(Split(h.text)[i]) == op.line
  {
    if ValidImport(op.line) {
      PrunedEmpty(h.text, op.line);
      if op.line !in ImportsOf(h.text) {
        PruneAbsent(h.text, op.line);
      }
      assert ImportsOf("") == [];
    }
    hide Split, PruneText, ValidImport, ImportsOf, Body;
  }

  // --- the editing loops ----------------------------------------------------

  method TrimAll(lines: seq<string>) returns (bodies: seq<string>)
    requires Loose(lines)
    ensures |bodies| == |lines| && forall i :: 0 <= i < |lines| ==> bodies[i] == Body(lines[i])
    ensures forall i :: 0 <= i < |bodies| ==> Body(bodies[i]) == bodies[i]
  {
    bodies := [];
    for i := 0 to |lines|
      invariant |bodies| == i && forall k :: 0 <= k < i ==> bodies[k] == Body(lines[k])
      invariant forall k :: 0 <= k < i ==> Body(bodies[k]) == bodies[k]
    {
      var b := TrimTerminator(lines[i]);
      BodyTwice(lines[i]);
      bodies := bodies + [b];
    }
  }

  lemma FlagsAgree(bodies: seq<string>, lines: seq<string>, ranges: seq<(nat, nat)>, inside: set<nat>)
    requires |bodies| == |lines| && forall i :: 0 <= i < |lines| ==> bodies[i] == Body(lines[i])
    requires forall i :: 0 <= i < |bodies| ==> Body(bodies[i]) == bodies[i]
    requires Marks(Tag(bodies), |bodies|, ranges)
    requires forall k: nat :: k in inside <==> Covered(ranges, k)
    ensures forall i: nat :: i < |lines| ==> (i in inside <==> Tag(lines)[i].inside)
  {
    ScanBodies(bodies, lines, NoFence);
  }

  method Unindented(bodies: seq<string>, inside: set<nat>) returns (top: set<nat>)
    ensures forall i: nat :: i in top <==> i < |bodies| && i !in inside && !Indented(bodies[i])
  {
    top := {};
    for i := 0 to |bodies|
      invariant forall k: nat :: k in top <==> k < i && k !in inside && !Indented(bodies[k])
    {
      if i !in inside && !Indented(bodies[i]) {
        top := top + {i};
      }
    }
  }

  /** Line i stands in no fenced block and does not begin with a tab or four blanks. */
  ghost predicate Outside(bodies: seq<string>, ranges: seq<(nat, nat)>, i: nat) {
    i < |bodies| && !Covered(ranges, i) && !("\t" <= bodies[i] || "    " <= bodies[i])
  }

  /** The lines resolved outside every code block; the blocks are the paired delimiters. */
  method TopLevelLines(lines: seq<string>) returns (bodies: seq<string>, top: set<nat>)
    requires Loose(lines)
    ensures |bodies| == |lines| && forall i :: 0 <= i < |lines| ==> bodies[i] == Body(lines[i])
    ensures exists ranges :: Paired(bodies, ranges) && forall i: nat :: i in top <==> Outside(bodies, ranges, i)
    ensures forall i: nat :: i in top <==> i < |lines| && TopLevel(Tag(lines)[i])
  {
    bodies := TrimAll(lines);
    var ranges := FencedRanges(bodies);
    var inside := InsideLines(ranges, |bodies|);
    FlagsAgree(bodies, lines, ranges, inside);
    top := Unindented(bodies, inside);
    forall i: nat ensures i in top <==> Outside(bodies, ranges, i) {
      if i < |bodies| {
        IndentedExact(bodies[i]);
      }
    }
  }

  lemma BodyTwice(line: string)
    requires IsLine(line)
    ensures Body(Body(line)) == Body(line)
  {
    assert TermLen(Body(line)) == 0;
  }

  lemma {:induction false} ImportsHas(tags: seq<Tagged>, want: string)
    requires ValidImport(want)
    ensures want in ImportsIn(tags) <==> exists i :: 0 <= i < |tags| && Matches(tags[i], want)
  {
    if tags != [] {
      ImportsHas(tags[1..], want);
      if i :| 0 <= i < |tags| && Matches(tags[i], want) {
        if i > 0 {
          assert tags[1..][i - 1] == tags[i];
        }
      }
      if i :| 0 <= i < |tags[1..]| && Matches(tags[1..][i], want) {
        assert tags[i + 1] == tags[1..][i];
      }
    }
  }

  method Present(lines: seq<string>, want: string) returns (found: bool)
    requires Loose(lines) && ValidImport(want)
    ensures found <==> want in ImportsIn(Tag(lines))
  {
    hide Matches, Tag, ImportsIn, Loose, ValidImport, TopLevel, Body;
    var bodies, top := TopLevelLines(lines);
    ghost var tags := Tag(lines);
    Hits(lines, bodies, top, want);
    ImportsHas(tags, want);
    found := false;
    for i := 0 to |lines|
      invariant found <==> exists k :: 0 <= k < i && Matches(tags[k], want)
    {
      if i in top && bodies[i] == want {
        found := true;
      }
    }
  }

  lemma Hits(lines: seq<string>, bodies: seq<string>, top: set<nat>, want: string)
    requires |bodies| == |lines| && forall i :: 0 <= i < |lines| ==> bodies[i] == Body(lines[i])
    requires forall i: nat :: i in top <==> i < |lines| && TopLevel(Tag(lines)[i])
    ensures |Tag(lines)| == |lines|
    ensures forall i: nat :: i < |lines| ==> (Matches(Tag(lines)[i], want) <==> i in top && bodies[i] == want)
  {
    hide TopLevel, Body;
  }

  lemma RemoveTake(tags: seq<Tagged>, i: nat, want: string)
    requires i < |tags|
    ensures LinesOf(RemoveTagged(tags[..i + 1], want)) ==
            LinesOf(RemoveTagged(tags[..i], want)) + (if Matches(tags[i], want) then [] else [tags[i].line])
  {
    assert tags[..i + 1] == tags[..i] + [tags[i]];
    RemoveSnoc(tags[..i], tags[i], want);
    if !Matches(tags[i], want) {
      LinesOfSnoc(RemoveTagged(tags[..i], want), tags[i]);
    } else {
      assert RemoveTagged(tags[..i], want) + [] == RemoveTagged(tags[..i], want);
    }
  }

  lemma {:induction false} LinesOfSnoc(tags: seq<Tagged>, t: Tagged)
    ensures LinesOf(tags + [t]) == LinesOf(tags) + [t.line]
  {
    if tags == [] {
      assert tags + [t] == [t] && [t][1..] == [];
    } else {
      LinesOfSnoc(tags[1..], t);
      assert (tags + [t])[1..] == tags[1..] + [t];
    }
  }

  method Remove(lines: seq<string>, want: string) returns (kept: seq<string>)
    requires Loose(lines)
    ensures kept == LinesOf(RemoveTagged(Tag(lines), want))
  {
    var bodies, top := TopLevelLines(lines);
    ghost var tags := Tag(lines);
    kept := [];
    for i := 0 to |lines|
      invariant kept == LinesOf(RemoveTagged(tags[..i], want))
    {
      RemoveTake(tags, i, want);
      if !(i in top && bodies[i] == want) {
        kept := kept + [lines[i]];
      }
    }
    assert tags[..|lines|] == tags;
  }

  lemma {:induction false} RemovedNone(tags: seq<Tagged>, want: string)
    requires ValidImport(want)
    ensures |LinesOf(RemoveTagged(tags, want))| <= |tags|
    ensures |LinesOf(RemoveTagged(tags, want))| == |tags| <==> want !in ImportsIn(tags)
  {
    if tags != [] {
      RemovedNone(tags[1..], want);
      if !Matches(tags[0], want) {
        assert RemoveTagged(tags, want)[1..] == RemoveTagged(tags[1..], want);
      }
    }
  }

  /** One CLAUDE.md on disk; a method is one hold of its lock. */
  class ClaudeMd {
    var host: Host

    constructor (h: Host)
      ensures host == h
    {
      host := h;
    }

    method Register(line: string, fault: Fault) returns (wrote: bool)
      modifies this
      ensures host == After(old(host), Op(Registering, line, fault))
      ensures wrote <==> host != old(host)
    {
      wrote := false;
      if !ValidImport(line) || fault.NotWritten? {
        return;
      }
      var text := TextOf(host);
      var lines := SplitKeepEnds(text);
      var found := Present(lines, line);
      if found {
        return;
      }
      RegisterImports(text, line);
      host := File(text + Appended(lines, line), host.File? ==> host.regular);
      wrote := true;
    }

    method Prune(line: string, discardEmpty: bool, fault: Fault) returns (pruned: bool, removed: bool)
      modifies this
      ensures host == After(old(host), Op(if discardEmpty then Discarding else Pruning, line, fault))
      ensures removed <==> host.Missing? && old(host).File?
      ensures pruned <==> Effective(Op(Pruning, line, fault)) && line in ImportsOf(TextOf(old(host)))
    {
      pruned, removed := false, false;
      if !ValidImport(line) || fault.NotWritten? {
        return;
      }
      var text := TextOf(host);
      var lines := SplitKeepEnds(text);
      var kept := Remove(lines, line);
      RemovedNone(Tag(lines), line);
      if |kept| == |lines| {
        return;
      }
      var joined := Join(kept);
      assert text != "";
      host := File(joined, host.regular);
      pruned := true;
      if !discardEmpty || joined != "" {
        return;
      }
      if host.regular && !fault.NotRemoved? {
        host := Missing;
        removed := true;
      }
    }
  }
}
