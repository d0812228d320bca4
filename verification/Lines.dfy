/** Splitting a byte string into lines that keep their LF, CRLF or lone-CR
    terminators, and what happens to the split when a line is taken out. */
module Lines {
  import opened Basics

  predicate IsEol(c: char) { c == '\n' || c == '\r' }

  predicate Plain(s: string) { forall i :: 0 <= i < |s| ==> !IsEol(s[i]) }

  function Join(lines: seq<string>): string {
    if lines == [] then "" else lines[0] + Join(lines[1..])
  }

  predicate EndsCr(line: string) { line != "" && line[|line| - 1] == '\r' }

  predicate Terminated(line: string) { line != "" && IsEol(line[|line| - 1]) }

  /** How many bytes at the end of line are its terminator. */
  function TermLen(line: string): (n: nat)
    ensures n <= |line| && n <= 2
    ensures n > 0 <==> Terminated(line)
  {
    if !Terminated(line) then 0
    else if |line| >= 2 && line[|line| - 1] == '\n' && line[|line| - 2] == '\r' then 2
    else 1
  }

  function Body(line: string): string { line[..|line| - TermLen(line)] }

  function Terminator(line: string): string { line[|line| - TermLen(line)..] }

  /** One line as the splitter produces it: a plain body and at most one terminator. */
  predicate IsLine(line: string) { line != "" && Plain(Body(line)) }

  /** The source trims with a cutset, which on a line removes exactly the terminator. */
  method TrimTerminator(line: string) returns (body: string)
    ensures IsLine(line) || line == "" ==> body == Body(line)
    ensures body <= line && (body != "" ==> !IsEol(body[|body| - 1]))
  {
    var n := |line|;
    while n > 0 && IsEol(line[n - 1])
      invariant 0 <= n <= |line|
      invariant forall k :: n <= k < |line| ==> IsEol(line[k])
    {
      n := n - 1;
    }
    body := line[..n];
    if IsLine(line) {
      var m := |line| - TermLen(line);
      BodyPlain(line);
      assert forall k :: m <= k < |line| ==> IsEol(line[k]);
      assert n < |line| ==> IsEol(line[n]);
    }
  }

  lemma BodyPlain(line: string)
    requires Plain(Body(line))
    ensures forall k :: 0 <= k < |line| - TermLen(line) ==> !IsEol(line[k])
  {
    forall k | 0 <= k < |line| - TermLen(line) ensures !IsEol(line[k]) {
      assert line[k] == Body(line)[k];
    }
  }

  function FirstEol(s: string, i: nat): (j: nat)
    requires i <= |s|
    ensures i <= j <= |s|
    ensures forall k :: i <= k < j ==> !IsEol(s[k])
    ensures j < |s| ==> IsEol(s[j])
    decreases |s| - i
  {
    if i == |s| || IsEol(s[i]) then i else FirstEol(s, i + 1)
  }

  /** Where the line starting at i ends, its terminator included. */
  function LineEnd(s: string, i: nat): (n: nat)
    requires i < |s|
    ensures i < n <= |s|
  {
    var j := FirstEol(s, i);
    if j == |s| then j
    else if s[j] == '\r' && j + 1 < |s| && s[j + 1] == '\n' then j + 2
    else j + 1
  }

  function SplitFrom(s: string, i: nat): seq<string>
    requires i <= |s|
    decreases |s| - i
  {
    if i == |s| then [] else [s[i..LineEnd(s, i)]] + SplitFrom(s, LineEnd(s, i))
  }

  function Split(s: string): seq<string> { SplitFrom(s, 0) }

  /** Every line is a line, and only the last may lack a terminator. */
  predicate Loose(lines: seq<string>) {
    forall i :: 0 <= i < |lines| ==> IsLine(lines[i]) && (i < |lines| - 1 ==> Terminated(lines[i]))
  }

  predicate Fuses(a: string, b: string) { EndsCr(a) && b == "\n" }

  /** Loose, and no lone CR directly before a lone LF. */
  predicate WellSplit(lines: seq<string>) {
    Loose(lines) && forall i :: 0 < i < |lines| ==> !Fuses(lines[i - 1], lines[i])
  }

  /** Merges each lone-CR line with a bare LF line right after it. */
  function Fuse(lines: seq<string>): seq<string> {
    if |lines| < 2 then lines
    else if Fuses(lines[0], lines[1]) then [lines[0] + "\n"] + Fuse(lines[2..])
    else [lines[0]] + Fuse(lines[1..])
  }

  /** The line that starts at i ends right after line, whatever follows. */
  lemma LineEndOf(s: string, i: nat, line: string)
    requires IsLine(line) && i + |line| <= |s| && s[i..i + |line|] == line
    requires !Terminated(line) ==> i + |line| == |s|
    requires EndsCr(line) ==> i + |line| == |s| || s[i + |line|] != '\n'
    ensures LineEnd(s, i) == i + |line|
  {
    var m := |line| - TermLen(line);
    BodyPlain(line);
    forall k | i <= k < i + |line| ensures s[k] == line[k - i] {
      assert s[i..i + |line|][k - i] == s[k];
    }
    assert m < |line| ==> IsEol(s[i + m]);
    assert FirstEol(s, i) == i + m;
  }

  lemma {:induction false} FirstEolShift(a: string, b: string, i: nat)
    requires i <= |b|
    ensures FirstEol(a + b, |a| + i) == |a| + FirstEol(b, i)
    decreases |b| - i
  {
    if i < |b| && !IsEol(b[i]) {
      FirstEolShift(a, b, i + 1);
    }
  }

  lemma LineEndShift(a: string, b: string, i: nat)
    requires i < |b|
    ensures LineEnd(a + b, |a| + i) == |a| + LineEnd(b, i)
  {
    FirstEolShift(a, b, i);
  }

  lemma {:induction false} SplitShift(a: string, b: string, i: nat)
    requires i <= |b|
    ensures SplitFrom(a + b, |a| + i) == SplitFrom(b, i)
    decreases |b| - i
  {
    hide LineEnd;
    if i < |b| {
      LineEndShift(a, b, i);
      SplitShift(a, b, LineEnd(b, i));
      assert (a + b)[|a| + i..|a| + LineEnd(b, i)] == b[i..LineEnd(b, i)];
    }
  }

  /** Peeling one line off the front is what the splitter does first. */
  lemma SplitCons(line: string, rest: string)
    requires IsLine(line)
    requires !Terminated(line) ==> rest == ""
    requires EndsCr(line) ==> rest == "" || rest[0] != '\n'
    ensures Split(line + rest) == [line] + Split(rest)
  {
    LineEndOf(line + rest, 0, line);
    SplitShift(line, rest, 0);
    assert (line + rest)[0..|line|] == line;
  }

  lemma LineAt(s: string, i: nat)
    requires i < |s|
    ensures var line := s[i..LineEnd(s, i)];
            IsLine(line)
            && (Terminated(line) || LineEnd(s, i) == |s|)
            && (EndsCr(line) ==> LineEnd(s, i) == |s| || s[LineEnd(s, i)] != '\n')
  {
    var j, n := FirstEol(s, i), LineEnd(s, i);
    var line := s[i..n];
    assert forall k :: 0 <= k < n - i ==> line[k] == s[i + k];
    if j < |s| {
      assert IsEol(line[j - i]);
      assert n == j + 1 && i < j ==> line[|line| - 2] == s[j - 1];
      assert |line| - TermLen(line) == j - i;
    } else {
      assert !IsEol(line[|line| - 1]);
    }
    assert Body(line) == s[i..j];
  }

  lemma {:induction false} SplitFromSound(s: string, i: nat)
    requires i <= |s|
    ensures Join(SplitFrom(s, i)) == s[i..] && WellSplit(SplitFrom(s, i))
    decreases |s| - i
  {
    if i < |s| {
      var n := LineEnd(s, i);
      var tail := SplitFrom(s, n);
      LineAt(s, i);
      SplitFromSound(s, n);
      assert s[i..] == s[i..n] + s[n..];
      var all := [s[i..n]] + tail;
      assert all[1..] == tail;
      forall k | 0 <= k < |all|
        ensures IsLine(all[k]) && (k < |all| - 1 ==> Terminated(all[k]))
        ensures 0 < k ==> !Fuses(all[k - 1], all[k])
      {
        if k == 1 {
          assert all[1] == s[n..LineEnd(s, n)];
          assert all[1][0] == s[n];
        } else if k > 1 {
          assert all[k] == tail[k - 1] && all[k - 1] == tail[k - 2];
        }
      }
    }
  }

  /** The split loses no byte and is in normal form. */
  lemma SplitSound(s: string)
    ensures Join(Split(s)) == s && WellSplit(Split(s))
  {
    SplitFromSound(s, 0);
    assert s[0..] == s;
  }

  lemma StartsWithLf(line: string)
    requires IsLine(line) && line[0] == '\n'
    ensures line == "\n"
  {
    BodyPlain(line);
  }

  /** A lone CR followed by a bare LF is one CRLF line with the same body. */
  lemma Merged(line: string)
    requires IsLine(line) && EndsCr(line)
    ensures IsLine(line + "\n") && Body(line + "\n") == Body(line)
    ensures Terminated(line + "\n") && !EndsCr(line + "\n")
  {
    assert (line + "\n")[|line| - 1] == '\r';
    assert (line + "\n")[..|line| - 1] == line[..|line| - 1];
  }

  lemma LooseTail(lines: seq<string>)
    requires Loose(lines) && lines != []
    ensures Loose(lines[1..])
  {
    forall i | 0 <= i < |lines| - 1
      ensures IsLine(lines[1..][i]) && (i < |lines| - 2 ==> Terminated(lines[1..][i]))
    {
      assert lines[1..][i] == lines[i + 1];
    }
  }

  /** Re-reading the bytes of loose lines fuses every lone CR with a bare LF
      after it, and does nothing else. */
  lemma {:induction false} ResplitFuses(lines: seq<string>)
    requires Loose(lines)
    ensures Split(Join(lines)) == Fuse(lines)
    decreases |lines|
  {
    if lines != [] {
      LooseTail(lines);
      if |lines| >= 2 && Fuses(lines[0], lines[1]) {
        ResplitFusedHead(lines);
        LooseTail(lines[1..]);
        assert lines[1..][1..] == lines[2..];
        ResplitFuses(lines[2..]);
      } else {
        ResplitPlainHead(lines);
        ResplitFuses(lines[1..]);
        assert |lines| == 1 ==> Fuse(lines) == [lines[0]] + Fuse(lines[1..]);
      }
    }
  }

  lemma SplitMerged(line: string, rest: string)
    requires IsLine(line) && EndsCr(line)
    ensures Split((line + "\n") + rest) == [line + "\n"] + Split(rest)
  {
    Merged(line);
    SplitCons(line + "\n", rest);
  }

  lemma ResplitFusedHead(lines: seq<string>)
    requires Loose(lines) && |lines| >= 2 && Fuses(lines[0], lines[1])
    ensures Split(Join(lines)) == [lines[0] + "\n"] + Split(Join(lines[2..]))
  {
    var line, rest := lines[0], Join(lines[2..]);
    assert Join(lines) == line + ("\n" + rest) by {
      assert lines[1..][1..] == lines[2..];
    }
    Regroup(line, "\n", rest);
    SplitMerged(line, rest);
  }

  lemma ResplitPlainHead(lines: seq<string>)
    requires Loose(lines) && lines != []
    requires |lines| >= 2 ==> !Fuses(lines[0], lines[1])
    ensures Split(Join(lines)) == [lines[0]] + Split(Join(lines[1..]))
  {
    if |lines| >= 2 {
      assert Join(lines[1..])[0] == lines[1][0];
      if lines[1][0] == '\n' {
        StartsWithLf(lines[1]);
      }
    }
    SplitCons(lines[0], Join(lines[1..]));
  }

  lemma {:induction false} FuseNormal(lines: seq<string>)
    requires forall i :: 0 < i < |lines| ==> !Fuses(lines[i - 1], lines[i])
    ensures Fuse(lines) == lines
  {
    if |lines| >= 2 {
      assert !Fuses(lines[1 - 1], lines[1]);
      forall i | 0 < i < |lines[1..]| ensures !Fuses(lines[1..][i - 1], lines[1..][i]) {
        assert lines[1..][i] == lines[i + 1] && lines[1..][i - 1] == lines[(i + 1) - 1];
      }
      FuseNormal(lines[1..]);
    }
  }

  /** Lines in normal form, and only those, survive a write and a re-read. */
  lemma SplitJoinExact(lines: seq<string>)
    ensures WellSplit(lines) <==> Split(Join(lines)) == lines
  {
    SplitSound(Join(lines));
    if WellSplit(lines) {
      ResplitFuses(lines);
      FuseNormal(lines);
    }
  }

  lemma {:induction false} JoinAppend(a: seq<string>, b: seq<string>)
    ensures Join(a + b) == Join(a) + Join(b)
  {
    if a == [] {
      assert a + b == b;
    } else {
      JoinAppend(a[1..], b);
      assert (a + b)[0] == a[0] && (a + b)[1..] == a[1..] + b;
      Regroup(a[0], Join(a[1..]), Join(b));
    }
  }

  lemma SplitStep(s: string, i: nat, done: seq<string>)
    requires i < |s|
    ensures done + SplitFrom(s, i) == done + [s[i..LineEnd(s, i)]] + SplitFrom(s, LineEnd(s, i))
  {
  }

  /** The splitter's inner loop, up to the end of one line. */
  method ScanLine(s: string, i: nat) returns (j: nat)
    requires i < |s|
    ensures j == LineEnd(s, i)
  {
    j := i;
    while j < |s| && s[j] != '\n' && s[j] != '\r'
      invariant i <= j <= |s|
      invariant forall k :: i <= k < j ==> !IsEol(s[k])
    {
      j := j + 1;
    }
    if j < |s| {
      if s[j] == '\r' && j + 1 < |s| && s[j + 1] == '\n' {
        j := j + 2;
      } else {
        j := j + 1;
      }
    }
  }

  /** The splitter's outer loop, line by line. */
  method SplitKeepEnds(s: string) returns (lines: seq<string>)
    ensures lines == Split(s)
    ensures Join(lines) == s && WellSplit(lines)
  {
    lines := [];
    var i := 0;
    while i < |s|
      invariant 0 <= i <= |s|
      invariant lines + SplitFrom(s, i) == Split(s)
    {
      SplitStep(s, i, lines);
      var j := ScanLine(s, i);
      lines := lines + [s[i..j]];
      i := j;
    }
    assert lines + [] == lines;
    SplitSound(s);
  }
}
