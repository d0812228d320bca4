/** Which lines of a file lie inside a fenced code block. A block is a balanced
    pair of delimiters; an opener that is never closed delimits nothing. */
module Fences {
  import opened Lines

  datatype Fence = NoFence | Fence(marker: char, run: nat)

  function LeadingSpaces(s: string): (n: nat)
    ensures n <= |s| && (n < |s| ==> s[n] != ' ')
  {
    if s == "" || s[0] != ' ' then 0 else 1 + LeadingSpaces(s[1..])
  }

  function RunLength(s: string, c: char): (n: nat)
    ensures n <= |s|
  {
    if s == "" || s[0] != c then 0 else 1 + RunLength(s[1..], c)
  }

  function ParseFence(body: string): Fence {
    var stripped := body[LeadingSpaces(body)..];
    if body != "" && body[0] == '\t' then NoFence
    else if LeadingSpaces(body) >= 4 then NoFence
    else if stripped == "" || (stripped[0] != '`' && stripped[0] != '~') then NoFence
    else if RunLength(stripped, stripped[0]) < 3 then NoFence
    else Fence(stripped[0], RunLength(stripped, stripped[0]))
  }

  predicate Indented(body: string) {
    (body != "" && body[0] == '\t') || LeadingSpaces(body) >= 4
  }

  predicate Closes(open: Fence, f: Fence) {
    open.Fence? && f.Fence? && f.marker == open.marker && f.run >= open.run
  }

  /** The open block after a line that parses as f. */
  function Next(open: Fence, f: Fence): Fence {
    if open.NoFence? then f else if Closes(open, f) then NoFence else open
  }

  // --- what a delimiter is -----------------------------------------------------------

  function Repeat(c: char, n: nat): string { seq(n, i => c) }

  /** k blanks, then a whole run of n times c, then anything else. */
  predicate DelimiterForm(body: string, k: nat, c: char, n: nat, rest: string) {
    && k <= 3 && n >= 3 && (c == '`' || c == '~')
    && body == Repeat(' ', k) + Repeat(c, n) + rest && (rest == "" || rest[0] != c)
  }

  /** body is a delimiter made of n times c. */
  ghost predicate Delimits(body: string, c: char, n: nat) { exists k: nat, rest: string :: DelimiterForm(body, k, c, n, rest) }

  ghost predicate Delimiter(body: string) { exists c: char, n: nat :: Delimits(body, c, n) }

  /** close is a delimiter of the same character as open and no shorter. */
  ghost predicate ClosedBy(open: string, close: string) {
    exists c: char, m: nat, n: nat :: Delimits(open, c, m) && Delimits(close, c, n) && m <= n
  }

  lemma {:induction false} SpacesCounted(s: string)
    ensures s[..LeadingSpaces(s)] == Repeat(' ', LeadingSpaces(s))
  {
    if s != "" && s[0] == ' ' {
      SpacesCounted(s[1..]);
      assert s[..LeadingSpaces(s)] == [' '] + s[1..][..LeadingSpaces(s[1..])];
    }
  }

  lemma {:induction false} RunCounted(s: string, c: char)
    ensures s[..RunLength(s, c)] == Repeat(c, RunLength(s, c))
    ensures RunLength(s, c) < |s| ==> s[RunLength(s, c)] != c
  {
    if s != "" && s[0] == c {
      RunCounted(s[1..], c);
      assert s[..RunLength(s, c)] == [c] + s[1..][..RunLength(s[1..], c)];
    }
  }

  lemma {:induction false} SpacesOf(k: nat, rest: string)
    requires rest == "" || rest[0] != ' '
    ensures var s := Repeat(' ', k) + rest; LeadingSpaces(s) == k && s[k..] == rest
  {
    var s := Repeat(' ', k) + rest;
    if k == 0 {
      assert s == rest;
    } else {
      SpacesOf(k - 1, rest);
      assert s[1..] == Repeat(' ', k - 1) + rest;
    }
  }

  lemma {:induction false} RunOf(c: char, n: nat, rest: string)
    requires rest == "" || rest[0] != c
    ensures RunLength(Repeat(c, n) + rest, c) == n
  {
    var s := Repeat(c, n) + rest;
    if n == 0 {
      assert s == rest;
    } else {
      RunOf(c, n - 1, rest);
      assert s[1..] == Repeat(c, n - 1) + rest;
    }
  }

  lemma ThreePieces(s: string, k: nat, n: nat)
    requires k + n <= |s|
    ensures s == s[..k] + s[k..][..n] + s[k..][n..]
  {
    assert s[k..] == s[k..][..n] + s[k..][n..];
  }

  lemma ParsedForm(body: string)
    requires ParseFence(body).Fence?
    ensures var f := ParseFence(body); Delimits(body, f.marker, f.run)
  {
    var k := LeadingSpaces(body);
    var stripped := body[k..];
    var c := stripped[0];
    var n := RunLength(stripped, c);
    SpacesCounted(body);
    RunCounted(stripped, c);
    hide LeadingSpaces, RunLength, Repeat, ParseFence;
    ThreePieces(body, k, n);
    assert DelimiterForm(body, k, c, n, stripped[n..]);
  }

  lemma FormParsed(body: string, k: nat, c: char, n: nat, rest: string)
    requires DelimiterForm(body, k, c, n, rest)
    ensures ParseFence(body) == Fence(c, n)
  {
    var run := Repeat(c, n) + rest;
    assert run[0] == c && body[0] != '\t';
    assert body == Repeat(' ', k) + run;
    SpacesOf(k, run);
    RunOf(c, n, rest);
  }

  /** A line is a delimiter exactly when it is at most three blanks and then at least
      three of one backtick or tilde; the parse gives that character and its whole run. */
  lemma FenceExact(body: string, c: char, n: nat)
    ensures ParseFence(body) == Fence(c, n) <==> Delimits(body, c, n)
  {
    if ParseFence(body) == Fence(c, n) {
      ParsedForm(body);
    } else if k: nat, rest: string :| DelimiterForm(body, k, c, n, rest) {
      FormParsed(body, k, c, n, rest);
    }
  }

  lemma DelimiterExact(body: string)
    ensures ParseFence(body).Fence? <==> Delimiter(body)
  {
    if ParseFence(body).Fence? {
      FenceExact(body, ParseFence(body).marker, ParseFence(body).run);
    } else if c: char, n: nat :| Delimits(body, c, n) {
      FenceExact(body, c, n);
    }
  }

  /** One delimiter closes another exactly when it has the same character and is no
      shorter. */
  lemma ClosesExact(open: string, close: string)
    ensures Closes(ParseFence(open), ParseFence(close)) <==> ClosedBy(open, close)
  {
    var f, g := ParseFence(open), ParseFence(close);
    if Closes(f, g) {
      FenceExact(open, f.marker, f.run);
      FenceExact(close, g.marker, g.run);
    } else if c: char, m: nat, n: nat :| Delimits(open, c, m) && Delimits(close, c, n) && m <= n {
      FenceExact(open, c, m);
      FenceExact(close, c, n);
    }
  }

  /** A line is indented code exactly when it begins with a tab or four blanks. */
  lemma IndentedExact(body: string)
    ensures Indented(body) <==> "\t" <= body || "    " <= body
  {
    SpacesCounted(body);
    var n := LeadingSpaces(body);
    assert n >= 4 ==> body[..4] == body[..n][..4] == "    ";
    assert "    " <= body ==> forall k :: 0 <= k < 4 ==> body[k] == body[..4][k] == ' ';
  }

  // --- scanning -----------------------------------------------------------------------

  datatype Tagged = Tagged(line: string, inside: bool)

  /** closed says whether the block that was open at the start gets closed. */
  datatype Scan = Scan(tags: seq<Tagged>, closed: bool)

  /** Reads lines with the block opened by open (NoFence: none). A line met while
      a block is open is inside exactly when the block is closed later on. */
  function ScanFrom(lines: seq<string>, open: Fence): (r: Scan)
    ensures |r.tags| == |lines|
    ensures forall i :: 0 <= i < |lines| ==> r.tags[i].line == lines[i]
    ensures open.NoFence? ==> !r.closed
  {
    if lines == [] then Scan([], false)
    else
      var f := ParseFence(Body(lines[0]));
      if open.NoFence? then
        Scan([Tagged(lines[0], false)] + ScanFrom(lines[1..], f).tags, false)
      else if Closes(open, f) then
        Scan([Tagged(lines[0], true)] + ScanFrom(lines[1..], NoFence).tags, true)
      else
        var rest := ScanFrom(lines[1..], open);
        Scan([Tagged(lines[0], rest.closed)] + rest.tags, rest.closed)
  }

  function Tag(lines: seq<string>): seq<Tagged> { ScanFrom(lines, NoFence).tags }

  function LinesOf(tags: seq<Tagged>): seq<string> {
    if tags == [] then [] else [tags[0].line] + LinesOf(tags[1..])
  }

  predicate TopLevel(t: Tagged) { !t.inside && !Indented(Body(t.line)) }

  predicate Matches(t: Tagged, want: string) { TopLevel(t) && Body(t.line) == want }

  function RemoveTagged(tags: seq<Tagged>, want: string): seq<Tagged> {
    if tags == [] then []
    else if Matches(tags[0], want) then RemoveTagged(tags[1..], want)
    else [tags[0]] + RemoveTagged(tags[1..], want)
  }

  /** Fuse, with the merged line keeping the status of its first half. */
  function FuseTagged(tags: seq<Tagged>): seq<Tagged> {
    if |tags| < 2 then tags
    else if Fuses(tags[0].line, tags[1].line) then
      [Tagged(tags[0].line + "\n", tags[0].inside)] + FuseTagged(tags[2..])
    else [tags[0]] + FuseTagged(tags[1..])
  }

  /** Whether a line with this fence, met while open is open, is inside; closed: open
      is closed further on. */
  predicate InsideBy(open: Fence, f: Fence, closed: bool) { open.Fence? && (Closes(open, f) || closed) }

  /** One step of the scan. */
  lemma ScanCons(lines: seq<string>, open: Fence)
    requires lines != []
    ensures var f := ParseFence(Body(lines[0]));
            var s, rest := ScanFrom(lines, open), ScanFrom(lines[1..], Next(open, f));
            && s.closed == InsideBy(open, f, rest.closed)
            && s.tags[0] == Tagged(lines[0], s.closed) && s.tags[1..] == rest.tags
  {
    hide ParseFence, Body;
  }

  function Flags(tags: seq<Tagged>): seq<bool> { if tags == [] then [] else [tags[0].inside] + Flags(tags[1..]) }

  lemma {:induction false} FlagsAt(tags: seq<Tagged>)
    ensures |Flags(tags)| == |tags| && forall i :: 0 <= i < |tags| ==> Flags(tags)[i] == tags[i].inside
  {
    if tags != [] {
      FlagsAt(tags[1..]);
    }
  }

  lemma {:induction false} SameScan(xs: seq<string>, ys: seq<string>, open: Fence)
    requires |xs| == |ys| && forall i :: 0 <= i < |xs| ==> Body(xs[i]) == Body(ys[i])
    ensures ScanFrom(xs, open).closed == ScanFrom(ys, open).closed
    ensures Flags(ScanFrom(xs, open).tags) == Flags(ScanFrom(ys, open).tags)
  {
    hide ParseFence, Body, Next, InsideBy;
    if xs != [] {
      assert Body(xs[0]) == Body(ys[0]);
      ScanCons(xs, open);
      ScanCons(ys, open);
      SameScan(xs[1..], ys[1..], Next(open, ParseFence(Body(xs[0]))));
      hide ScanFrom;
    }
  }

  /** The status of a line depends on line bodies only. */
  lemma ScanBodies(xs: seq<string>, ys: seq<string>, open: Fence)
    requires |xs| == |ys| && forall i :: 0 <= i < |xs| ==> Body(xs[i]) == Body(ys[i])
    ensures ScanFrom(xs, open).closed == ScanFrom(ys, open).closed
    ensures forall i :: 0 <= i < |xs| ==> ScanFrom(xs, open).tags[i].inside == ScanFrom(ys, open).tags[i].inside
  {
    SameScan(xs, ys, open);
    FlagsAt(ScanFrom(xs, open).tags);
    FlagsAt(ScanFrom(ys, open).tags);
    hide ScanFrom, Flags, Body;
  }

  /** Dropping lines that match a non-fence text leaves the scan of the others alone. */
  lemma {:induction false} ScanRemove(lines: seq<string>, open: Fence, want: string)
    requires ParseFence(want).NoFence?
    ensures var s := ScanFrom(lines, open);
            ScanFrom(LinesOf(RemoveTagged(s.tags, want)), open) == Scan(RemoveTagged(s.tags, want), s.closed)
  {
    if lines != [] {
      var f := ParseFence(Body(lines[0]));
      var next := Next(open, f);
      var s, rest := ScanFrom(lines, open), ScanFrom(lines[1..], next);
      ScanRemove(lines[1..], next, want);
      assert s.tags[1..] == rest.tags;
      var kept := RemoveTagged(rest.tags, want);
      if !Matches(s.tags[0], want) {
        assert LinesOf(RemoveTagged(s.tags, want)) == [lines[0]] + LinesOf(kept) by {
          assert RemoveTagged(s.tags, want)[1..] == kept;
        }
        assert LinesOf(RemoveTagged(s.tags, want))[1..] == LinesOf(kept);
      }
    }
  }

  /** Merging a lone CR with a bare LF leaves the scan of the others alone. */
  lemma {:induction false} ScanFuse(lines: seq<string>, open: Fence)
    requires Loose(lines)
    ensures var s := ScanFrom(lines, open);
            ScanFrom(Fuse(lines), open) == Scan(FuseTagged(s.tags), s.closed)
    decreases |lines|
  {
    if |lines| >= 2 {
      var f := ParseFence(Body(lines[0]));
      var next := Next(open, f);
      var s := ScanFrom(lines, open);
      LooseTail(lines);
      if Fuses(lines[0], lines[1]) {
        Merged(lines[0]);
        LooseTail(lines[1..]);
        assert lines[1..][1..] == lines[2..];
        ScanFuse(lines[2..], next);
        BareLf(lines[1..], next);
        assert s.tags[2..] == ScanFrom(lines[2..], next).tags by {
          assert s.tags[1..] == ScanFrom(lines[1..], next).tags;
        }
        assert Fuse(lines)[1..] == Fuse(lines[2..]);
      } else {
        ScanFuse(lines[1..], next);
        assert s.tags[1..] == ScanFrom(lines[1..], next).tags;
        assert Fuse(lines)[1..] == Fuse(lines[1..]);
      }
    }
  }

  lemma BareLf(lines: seq<string>, open: Fence)
    requires lines != [] && lines[0] == "\n"
    ensures ScanFrom(lines, open).closed == ScanFrom(lines[1..], open).closed
    ensures ScanFrom(lines, open).tags[1..] == ScanFrom(lines[1..], open).tags
  {
    assert Body(lines[0]) == "";
    assert ParseFence("").NoFence?;
  }

  /** A non-fence line added at the end is top level, dangling opener or not,
      and changes no other line's status. */
  lemma {:induction false} ScanAppend(lines: seq<string>, open: Fence, line: string)
    requires ParseFence(Body(line)).NoFence?
    ensures var s := ScanFrom(lines, open);
            ScanFrom(lines + [line], open) == Scan(s.tags + [Tagged(line, false)], s.closed)
  {
    hide ParseFence, Body, InsideBy;
    var all := lines + [line];
    ScanCons(all, open);
    if lines == [] {
      assert all == [line] && all[1..] == [];
      ScanEnd(line, open);
    } else {
      ScanCons(lines, open);
      ScanAppend(lines[1..], Next(open, ParseFence(Body(lines[0]))), line);
      assert all[0] == lines[0] && all[1..] == lines[1..] + [line];
      hide ScanFrom, Next;
      var s, t := ScanFrom(lines, open), ScanFrom(all, open);
      assert s.tags == [s.tags[0]] + s.tags[1..] && t.tags == [t.tags[0]] + t.tags[1..];
    }
  }

  lemma ScanEnd(line: string, open: Fence)
    requires ParseFence(Body(line)).NoFence?
    ensures ScanFrom([line], open) == Scan([Tagged(line, false)], false) && ScanFrom([], open) == Scan([], false)
  {
    hide ParseFence, Body;
    assert [line][1..] == [];
  }

  /** Line k lies in one of the ranges, after its opener. */
  ghost predicate Covered(ranges: seq<(nat, nat)>, k: int) {
    exists r :: 0 <= r < |ranges| && ranges[r].0 < k <= ranges[r].1
  }

  lemma CoveredSnoc(ranges: seq<(nat, nat)>, r: (nat, nat), k: int)
    ensures Covered(ranges + [r], k) <==> Covered(ranges, k) || r.0 < k <= r.1
  {
    var all := ranges + [r];
    assert all[|ranges|] == r;
    if i :| 0 <= i < |ranges| && ranges[i].0 < k <= ranges[i].1 {
      assert all[i].0 < k <= all[i].1;
    }
  }

  /** The ranges cover exactly the inside lines among the first n. */
  ghost predicate Marks(tags: seq<Tagged>, n: int, ranges: seq<(nat, nat)>) {
    n <= |tags| && forall k :: 0 <= k < n ==> (tags[k].inside <==> Covered(ranges, k))
  }

  ghost predicate Bounded(ranges: seq<(nat, nat)>, n: int) {
    forall r :: 0 <= r < |ranges| ==> ranges[r].0 < ranges[r].1 < n
  }

  lemma MarkOne(tags: seq<Tagged>, n: nat, ranges: seq<(nat, nat)>)
    requires n < |tags| && !tags[n].inside && Marks(tags, n, ranges) && Bounded(ranges, n)
    ensures Marks(tags, n + 1, ranges) && Bounded(ranges, n + 1)
  {
    assert !Covered(ranges, n);
  }

  lemma MarkRange(tags: seq<Tagged>, open: nat, close: nat, ranges: seq<(nat, nat)>)
    requires open < close < |tags| && Marks(tags, open + 1, ranges) && Bounded(ranges, open)
    requires forall k :: open < k <= close ==> tags[k].inside
    ensures Marks(tags, close + 1, ranges + [(open, close)]) && Bounded(ranges + [(open, close)], close + 1)
  {
    var all := ranges + [(open, close)];
    forall k | 0 <= k < close + 1 ensures tags[k].inside <==> Covered(all, k) {
      CoveredSnoc(ranges, (open, close), k);
    }
  }

  lemma MarkNone(tags: seq<Tagged>, from: nat, n: nat, ranges: seq<(nat, nat)>)
    requires 0 < from <= n <= |tags| && Marks(tags, from, ranges) && Bounded(ranges, from - 1)
    requires forall k :: from <= k < n ==> !tags[k].inside
    ensures Marks(tags, n, ranges) && Bounded(ranges, n)
  {
    forall k | from <= k < n ensures !Covered(ranges, k) {
    }
  }

  /** From line i on, tags is the scan of the rest with the block opened by open. */
  ghost predicate Aligned(tags: seq<Tagged>, bodies: seq<string>, i: nat, open: Fence) {
    |tags| == |bodies| && i <= |bodies| && tags[i..] == ScanFrom(bodies[i..], open).tags
  }

  /** The block opened by open is closed at line i or later. */
  ghost predicate ClosedLater(bodies: seq<string>, i: nat, open: Fence) {
    i <= |bodies| && ScanFrom(bodies[i..], open).closed
  }

  lemma ScanStart(bodies: seq<string>)
    ensures Aligned(Tag(bodies), bodies, 0, NoFence)
    ensures Marks(Tag(bodies), 0, []) && Bounded([], 0)
    ensures forall open :: !ClosedLater(bodies, |bodies|, open)
  {
    assert Tag(bodies)[0..] == Tag(bodies) && bodies[0..] == bodies;
    assert bodies[|bodies|..] == [];
  }

  /** One line further: its own status, and what is left to scan. */
  lemma ScanNext(tags: seq<Tagged>, bodies: seq<string>, i: nat, open: Fence)
    requires i < |bodies| && Body(bodies[i]) == bodies[i] && Aligned(tags, bodies, i, open)
    ensures var next := Next(open, ParseFence(bodies[i]));
            var closes := open.Fence? && (next.NoFence? || ClosedLater(bodies, i + 1, next));
            Aligned(tags, bodies, i + 1, next) && tags[i].inside == closes && ClosedLater(bodies, i, open) == closes
  {
    hide ParseFence;
    assert bodies[i..][1..] == bodies[i + 1..];
    assert tags[i..][1..] == tags[i + 1..] && tags[i..][0] == tags[i];
  }

  // --- which delimiters pair ------------------------------------------------------------

  /** The first delimiter at line from or later is at line o. */
  ghost predicate OpensAt(bodies: seq<string>, from: int, o: int) {
    0 <= from <= o < |bodies| && Delimiter(bodies[o]) && forall k :: from <= k < o ==> !Delimiter(bodies[k])
  }

  /** The first line after o that closes the delimiter at o is line c. */
  ghost predicate ClosesAt(bodies: seq<string>, o: int, c: int) {
    0 <= o < c < |bodies| && ClosedBy(bodies[o], bodies[c]) && forall k :: o < k < c ==> !ClosedBy(bodies[o], bodies[k])
  }

  /** The line after the last of the first r ranges. */
  function Beyond(ranges: seq<(nat, nat)>, r: nat): int
    requires r <= |ranges|
  {
    if r == 0 then 0 else ranges[r - 1].1 + 1
  }

  ghost predicate PairedRanges(bodies: seq<string>, ranges: seq<(nat, nat)>) {
    forall r: nat :: r < |ranges| ==>
      OpensAt(bodies, Beyond(ranges, r), ranges[r].0) && ClosesAt(bodies, ranges[r].0, ranges[r].1)
  }

  /** Each range runs from the first delimiter after the range before it to the first
      line that closes it; the first delimiter after them all, if any, is never closed. */
  ghost predicate Paired(bodies: seq<string>, ranges: seq<(nat, nat)>) {
    && PairedRanges(bodies, ranges)
    && forall o, c :: OpensAt(bodies, Beyond(ranges, |ranges|), o) ==> !ClosesAt(bodies, o, c)
  }

  lemma SameOpener(bodies: seq<string>, from: int, o: int, p: int)
    requires OpensAt(bodies, from, o) && OpensAt(bodies, from, p)
    ensures o == p
  {
    hide Delimiter;
  }

  lemma SameCloser(bodies: seq<string>, o: int, c: int, d: int)
    requires ClosesAt(bodies, o, c) && ClosesAt(bodies, o, d)
    ensures c == d
  {
    hide ClosedBy;
  }

  lemma SameRange(bodies: seq<string>, a: seq<(nat, nat)>, b: seq<(nat, nat)>, r: nat)
    requires PairedRanges(bodies, a) && PairedRanges(bodies, b)
    requires r < |a| && r < |b| && Beyond(a, r) == Beyond(b, r)
    ensures a[r] == b[r]
  {
    hide OpensAt, ClosesAt;
    SameOpener(bodies, Beyond(a, r), a[r].0, b[r].0);
    SameCloser(bodies, a[r].0, a[r].1, b[r].1);
  }

  lemma {:induction false} PairedAgree(bodies: seq<string>, a: seq<(nat, nat)>, b: seq<(nat, nat)>, n: nat)
    requires PairedRanges(bodies, a) && PairedRanges(bodies, b) && n <= |a| && n <= |b|
    ensures Beyond(a, n) == Beyond(b, n)
    ensures forall r :: 0 <= r < n ==> a[r] == b[r]
  {
    hide PairedRanges;
    if n > 0 {
      PairedAgree(bodies, a, b, n - 1);
      SameRange(bodies, a, b, n - 1);
    }
  }

  lemma PairedLonger(bodies: seq<string>, a: seq<(nat, nat)>, b: seq<(nat, nat)>)
    requires Paired(bodies, a) && PairedRanges(bodies, b)
    ensures |b| <= |a|
  {
    hide OpensAt, ClosesAt, Beyond;
    var n := |a|;
    if n < |b| {
      PairedAgree(bodies, a, b, n);
      var r := b[n];
    }
  }

  /** There is only one such pairing. */
  lemma PairedUnique(bodies: seq<string>, a: seq<(nat, nat)>, b: seq<(nat, nat)>)
    requires Paired(bodies, a) && Paired(bodies, b)
    ensures a == b
  {
    PairedLonger(bodies, a, b);
    PairedLonger(bodies, b, a);
    hide Paired;
    PairedAgree(bodies, a, b, |a|);
  }

  lemma PairedSnoc(bodies: seq<string>, ranges: seq<(nat, nat)>, o: nat, c: nat)
    requires PairedRanges(bodies, ranges)
    requires OpensAt(bodies, Beyond(ranges, |ranges|), o) && ClosesAt(bodies, o, c)
    ensures var all := ranges + [(o, c)]; PairedRanges(bodies, all) && Beyond(all, |all|) == c + 1
  {
    hide OpensAt, ClosesAt;
    var all := ranges + [(o, c)];
    forall r: nat | r < |all| ensures OpensAt(bodies, Beyond(all, r), all[r].0) && ClosesAt(bodies, all[r].0, all[r].1) {
      assert r < |ranges| ==> all[r] == ranges[r];
      assert Beyond(all, r) == Beyond(ranges, r);
    }
  }

  /** No delimiter stands from line from up to line n. */
  ghost predicate NoneFrom(bodies: seq<string>, from: int, n: int) {
    0 <= from <= n <= |bodies| && forall k :: from <= k < n ==> !Delimiter(bodies[k])
  }

  /** The first delimiter at from or later is at o, and no line before n closes it. */
  ghost predicate Unclosed(bodies: seq<string>, from: int, o: int, n: int) {
    o < n <= |bodies| && OpensAt(bodies, from, o) && forall k :: o < k < n ==> !ClosedBy(bodies[o], bodies[k])
  }

  /** The pairing of the first i lines, with the block of line open, if any, still open. */
  ghost predicate PairsSoFar(bodies: seq<string>, ranges: seq<(nat, nat)>, open: int, fence: Fence, i: int) {
    var from := Beyond(ranges, |ranges|);
    && PairedRanges(bodies, ranges) && -1 <= open < i <= |bodies|
    && if open < 0 then fence.NoFence? && NoneFrom(bodies, from, i)
       else fence == ParseFence(bodies[open]) && fence.Fence? && Unclosed(bodies, from, open, i)
  }

  lemma PairsStart(bodies: seq<string>)
    ensures PairsSoFar(bodies, [], -1, NoFence, 0)
  {
  }

  lemma NoneMore(bodies: seq<string>, from: int, i: nat)
    requires i < |bodies| && NoneFrom(bodies, from, i)
    ensures if Delimiter(bodies[i]) then Unclosed(bodies, from, i, i + 1) else NoneFrom(bodies, from, i + 1)
  {
    hide Delimiter, ClosedBy;
  }

  /** Line i, met with no block open. */
  lemma MeetFree(bodies: seq<string>, ranges: seq<(nat, nat)>, i: nat)
    requires i < |bodies| && PairsSoFar(bodies, ranges, -1, NoFence, i)
    ensures var f := ParseFence(bodies[i]); PairsSoFar(bodies, ranges, if f.Fence? then i else -1, f, i + 1)
  {
    DelimiterExact(bodies[i]);
    hide ParseFence, Delimiter, PairedRanges, NoneFrom, Unclosed;
    NoneMore(bodies, Beyond(ranges, |ranges|), i);
  }

  /** Line i, met with the delimiter of line o open. */
  lemma MeetCloser(bodies: seq<string>, from: int, o: nat, i: nat)
    requires o < i < |bodies| && Unclosed(bodies, from, o, i)
    ensures if Closes(ParseFence(bodies[o]), ParseFence(bodies[i]))
            then OpensAt(bodies, from, o) && ClosesAt(bodies, o, i) else Unclosed(bodies, from, o, i + 1)
  {
    ClosesExact(bodies[o], bodies[i]);
    hide ParseFence, Delimiter, ClosedBy, Closes;
  }

  /** Line i, met with the block of line open still open. */
  lemma MeetOpen(bodies: seq<string>, ranges: seq<(nat, nat)>, open: nat, fence: Fence, i: nat)
    requires i < |bodies| && PairsSoFar(bodies, ranges, open, fence, i)
    ensures if Closes(fence, ParseFence(bodies[i]))
            then PairsSoFar(bodies, ranges + [(open, i)], -1, NoFence, i + 1)
            else PairsSoFar(bodies, ranges, open, fence, i + 1)
  {
    MeetCloser(bodies, Beyond(ranges, |ranges|), open, i);
    hide ParseFence, Delimiter, ClosedBy, Closes, PairedRanges, OpensAt, ClosesAt, Unclosed;
    if Closes(fence, ParseFence(bodies[i])) {
      PairedSnoc(bodies, ranges, open, i);
    }
  }

  lemma PairsEnd(bodies: seq<string>, ranges: seq<(nat, nat)>, open: int, fence: Fence)
    requires PairsSoFar(bodies, ranges, open, fence, |bodies|)
    ensures Paired(bodies, ranges)
  {
    hide ParseFence, Delimiter, ClosedBy, PairedRanges;
    var from := Beyond(ranges, |ranges|);
    forall o, c | OpensAt(bodies, from, o) ensures !ClosesAt(bodies, o, c) {
      if open >= 0 {
        SameOpener(bodies, from, o, open);
      }
    }
  }

  /** The range-collecting loop finds the pairs of delimiters, and those are exactly the
      lines the scan calls inside. */
  method FencedRanges(bodies: seq<string>) returns (ranges: seq<(nat, nat)>)
    requires forall i :: 0 <= i < |bodies| ==> Body(bodies[i]) == bodies[i]
    ensures Paired(bodies, ranges)
    ensures Marks(Tag(bodies), |bodies|, ranges) && Bounded(ranges, |bodies|)
  {
    ranges := [];
    var open := -1;
    var openFence := NoFence;
    ghost var tags := Tag(bodies);
    ScanStart(bodies);
    PairsStart(bodies);
    hide ParseFence, Marks, Bounded, Body, Aligned, ClosedLater, Tag, Paired, PairsSoFar;
    for i := 0 to |bodies|
      invariant -1 <= open < i && (openFence.NoFence? <==> open < 0)
      invariant Aligned(tags, bodies, i, openFence)
      invariant if open < 0 then Marks(tags, i, ranges) && Bounded(ranges, i)
                else Marks(tags, open + 1, ranges) && Bounded(ranges, open)
      invariant open >= 0 ==> forall k :: open < k < i ==> tags[k].inside == ClosedLater(bodies, i, openFence)
      invariant PairsSoFar(bodies, ranges, open, openFence, i)
    {
      var f := ParseFence(bodies[i]);
      ScanNext(tags, bodies, i, openFence);
      if open < 0 {
        MarkOne(tags, i, ranges);
        MeetFree(bodies, ranges, i);
        if f.Fence? {
          open, openFence := i, f;
        }
      } else {
        MeetOpen(bodies, ranges, open, openFence, i);
        if f.Fence? && f.marker == openFence.marker && f.run >= openFence.run {
          MarkRange(tags, open, i, ranges);
          ranges := ranges + [(open as nat, i)];
          open, openFence := -1, NoFence;
        }
      }
    }
    PairsEnd(bodies, ranges, open, openFence);
    if open >= 0 {
      MarkNone(tags, open + 1, |bodies|, ranges);
    }
  }

  /** The lines after each opener, up to and including its closer. */
  method InsideLines(ranges: seq<(nat, nat)>, ghost n: nat) returns (inside: set<nat>)
    requires Bounded(ranges, n)
    ensures forall k: nat :: k in inside <==> Covered(ranges, k)
  {
    inside := {};
    for r := 0 to |ranges|
      invariant forall k: nat :: k in inside <==> Covered(ranges[..r], k)
    {
      ghost var before := inside;
      for i := ranges[r].0 + 1 to ranges[r].1 + 1
        invariant forall k: nat :: k in inside <==> k in before || ranges[r].0 < k < i
      {
        inside := inside + {i};
      }
      assert ranges[..r + 1] == ranges[..r] + [ranges[r]];
      forall k: nat ensures k in inside <==> Covered(ranges[..r + 1], k) {
        CoveredSnoc(ranges[..r], ranges[r], k);
      }
    }
    assert ranges[..|ranges|] == ranges;
  }
}
