/** Reply subjects that carry one "[owner/repo]" tag after their reply markers. */
module ReplySubject {
  import opened Basics
  import opened Text

  // --- the two marker patterns ------------------------------------------------------

  predicate IsBlank(c: char) { c == ' ' || c == '\t' || c == '\n' || c == (12 as char) || c == '\r' }

  /** How many blanks s has from i on. */
  function Blanks(s: string, i: nat): (n: nat)
    requires i <= |s|
    ensures i + n <= |s| && forall k :: i <= k < i + n ==> IsBlank(s[k])
    ensures i + n < |s| ==> !IsBlank(s[i + n])
    decreases |s| - i
  {
    if i == |s| || !IsBlank(s[i]) then 0 else 1 + Blanks(s, i + 1)
  }

  predicate Word(s: string, i: nat, w: string) {
    i + |w| <= |s| && forall k :: 0 <= k < |w| ==> LowerChar(s[i + k]) == w[k]
  }

  /** The end of "w\s*:" at i in s, 0 when it is not there. */
  function MarkerEnd(s: string, i: nat, w: string): (e: nat)
    ensures e == 0 || (i + |w| < e <= |s| && s[e - 1] == ':')
  {
    if !Word(s, i, w) then 0
    else
      var j := i + |w| + Blanks(s, i + |w|);
      if j < |s| && s[j] == ':' then j + 1 else 0
  }

  /** One reply marker of any kind at i. */
  function AnyMarkerEnd(s: string, i: nat): (e: nat)
    ensures e == 0 || i < e <= |s|
  {
    if MarkerEnd(s, i, "re") > 0 then MarkerEnd(s, i, "re")
    else if MarkerEnd(s, i, "fwd") > 0 then MarkerEnd(s, i, "fwd")
    else MarkerEnd(s, i, "fw")
  }

  /** Where the run of markers, each with the blanks after it, starting at i ends. */
  function PrefixEnd(s: string, i: nat): (e: nat)
    requires i <= |s|
    ensures i <= e <= |s|
    decreases |s| - i
  {
    var m := AnyMarkerEnd(s, i);
    if m == 0 then i else PrefixEnd(s, m + Blanks(s, m))
  }

  /** s begins with "Re:", blanks allowed in front and before the colon. */
  predicate ReMarked(s: string) { MarkerEnd(s, Blanks(s, 0), "re") > 0 }

  // --- the tag --------------------------------------------------------------------------

  predicate SpaceOrControl(c: char) {
    var n := c as int;
    n <= 0x20 || 0x7F <= n <= 0xA0 || n == 0x1680 || 0x2000 <= n <= 0x200A || n == 0x2028 || n == 0x2029
    || n == 0x202F || n == 0x205F || n == 0x3000
  }

  /** owner and repo of a token with one slash, both sides non-empty, no blanks. */
  function SplitSlug(s: string): Option<(string, string)> {
    var k := IndexOf(s, '/');
    if k == |s| || k == 0 || k + 1 == |s| || '/' in s[k + 1..] || exists i :: 0 <= i < |s| && SpaceOrControl(s[i]) then None
    else Some((s[..k], s[k + 1..]))
  }

  predicate SameFold(a: string, b: string) { |a| == |b| && forall i :: 0 <= i < |a| ==> LowerChar(a[i]) == LowerChar(b[i]) }

  /** s begins with a bracket tag of slug's owner. */
  predicate Tagged(slug: string, s: string) {
    var cur := SplitSlug(slug);
    var end := IndexOf(s, ']');
    && cur.Some? && s != "" && s[0] == '[' && end < |s|
    && var tag := SplitSlug(s[1..end]);
       tag.Some? && SameFold(tag.value.0, cur.value.0)
  }

  function Subject(slug: string, s: string): string {
    var n := PrefixEnd(s, 0);
    if slug == "" || Tagged(slug, s[n..]) then s else s[..n] + ("[" + slug + "] " + s[n..])
  }

  function Reified(original: string): string { if ReMarked(original) then original else "Re: " + original }

  function Reply(slug: string, original: string): string { Subject(slug, Reified(original)) }

  // --- what markers and tags are -----------------------------------------------------------

  predicate AllBlank(s: string) { forall i :: 0 <= i < |s| ==> IsBlank(s[i]) }

  predicate Spells(s: string, w: string) { |s| == |w| && forall i :: 0 <= i < |s| ==> LowerChar(s[i]) == w[i] }

  predicate MarkerWord(w: string) { Spells(w, "re") || Spells(w, "fwd") || Spells(w, "fw") }

  /** m is one marker of the given word: the word in any case, blanks, a colon, blanks. */
  predicate MarkerForm(m: string, word: string, a: string, b: string) {
    MarkerWord(word) && AllBlank(a) && AllBlank(b) && m == word + a + ":" + b
  }

  ghost predicate IsMarker(m: string) { exists word, a, b :: MarkerForm(m, word, a, b) }

  /** p consists of markers. */
  ghost predicate Markers(p: string)
    decreases |p|
  {
    p == "" || exists k :: 0 < k <= |p| && IsMarker(p[..k]) && Markers(p[k..])
  }

  lemma {:induction false} BlanksAre(s: string, i: nat, j: nat)
    requires i <= j <= |s| && AllBlank(s[i..j]) && (j == |s| || !IsBlank(s[j]))
    ensures Blanks(s, i) == j - i
    decreases j - i
  {
    if i < j {
      assert s[i..j][0] == s[i] && s[i..j][1..] == s[i + 1..j];
      BlanksAre(s, i + 1, j);
    }
  }

  lemma WordSpelled(s: string, i: nat, w: string)
    requires i + |w| <= |s|
    ensures Word(s, i, w) <==> Spells(s[i..i + |w|], w)
  {
    var t := s[i..i + |w|];
    assert forall k :: 0 <= k < |w| ==> t[k] == s[i + k];
  }

  /** A word, blanks and a colon at i are read as such. */
  lemma MarkerRead(s: string, i: nat, w: string, j: nat)
    requires i + |w| <= j < |s| && Spells(s[i..i + |w|], w) && AllBlank(s[i + |w|..j]) && s[j] == ':'
    ensures MarkerEnd(s, i, w) == j + 1
  {
    WordSpelled(s, i, w);
    BlanksAre(s, i + |w|, j);
  }

  /** What is read as a marker is one, with the blanks behind it. */
  lemma MarkerIs(s: string, i: nat, w: string, k: nat)
    requires w == "re" || w == "fwd" || w == "fw"
    requires var m := MarkerEnd(s, i, w); 0 < m <= k <= |s| && AllBlank(s[m..k])
    ensures IsMarker(s[i..k])
  {
    var m := MarkerEnd(s, i, w);
    WordSpelled(s, i, w);
    var j := i + |w|;
    assert s[i..k] == s[i..j] + s[j..m - 1] + ":" + s[m..k];
    assert AllBlank(s[j..m - 1]);
    assert MarkerForm(s[i..k], s[i..j], s[j..m - 1], s[m..k]);
  }

  lemma AnyMarkerIs(s: string, i: nat, k: nat)
    requires var m := AnyMarkerEnd(s, i); 0 < m <= k <= |s| && AllBlank(s[m..k])
    ensures IsMarker(s[i..k])
  {
    hide IsMarker, AllBlank, MarkerEnd;
    if MarkerEnd(s, i, "re") > 0 {
      MarkerIs(s, i, "re", k);
    } else if MarkerEnd(s, i, "fwd") > 0 {
      MarkerIs(s, i, "fwd", k);
    } else {
      MarkerIs(s, i, "fw", k);
    }
  }

  lemma MarkersCons(a: string, b: string)
    requires a != "" && IsMarker(a) && Markers(b)
    ensures Markers(a + b)
  {
    var p := a + b;
    assert p[..|a|] == a && p[|a|..] == b;
  }

  lemma MarkersSplit(p: string) returns (d: nat)
    requires p != "" && Markers(p)
    ensures 0 < d <= |p| && IsMarker(p[..d]) && Markers(p[d..])
  {
    hide IsMarker;
    d :| 0 < d <= |p| && IsMarker(p[..d]) && Markers(p[d..]);
  }

  lemma PrefixStep(s: string, i: nat)
    requires i <= |s| && AnyMarkerEnd(s, i) > 0
    ensures var m := AnyMarkerEnd(s, i); PrefixEnd(s, i) == PrefixEnd(s, m + Blanks(s, m))
  {
    hide AnyMarkerEnd, Blanks;
  }

  lemma NoPrefix(s: string, i: nat)
    requires i <= |s| && AnyMarkerEnd(s, i) == 0
    ensures Markers(s[i..PrefixEnd(s, i)])
  {
    assert s[i..PrefixEnd(s, i)] == "";
  }

  lemma BlanksAllBlank(s: string, i: nat)
    requires i <= |s|
    ensures AllBlank(s[i..i + Blanks(s, i)])
  {
  }

  lemma {:induction false} PrefixIsMarkers(s: string, i: nat)
    requires i <= |s|
    ensures Markers(s[i..PrefixEnd(s, i)])
    decreases |s| - i
  {
    hide *;
    var m := AnyMarkerEnd(s, i);
    if m == 0 {
      NoPrefix(s, i);
    } else {
      var k := m + Blanks(s, m);
      PrefixStep(s, i);
      BlanksAllBlank(s, m);
      PrefixIsMarkers(s, k);
      AnyMarkerIs(s, i, k);
      SliceJoin(s, i, k, PrefixEnd(s, k));
      MarkersCons(s[i..k], s[k..PrefixEnd(s, k)]);
    }
  }

  /** Where the pieces of a marker stand. */
  lemma MarkerPlaces(s: string, i: nat, k: nat) returns (w: string, j: nat)
    requires i <= k <= |s| && IsMarker(s[i..k])
    ensures w == "re" || w == "fwd" || w == "fw"
    ensures i + |w| <= j < k && Spells(s[i..i + |w|], w) && AllBlank(s[i + |w|..j]) && s[j] == ':' && AllBlank(s[j + 1..k])
  {
    var word, a, b :| MarkerForm(s[i..k], word, a, b);
    w := if Spells(word, "re") then "re" else if Spells(word, "fwd") then "fwd" else "fw";
    j := i + |word| + |a|;
    hide AllBlank, Spells, MarkerWord;
    assert |word| == |w| by { LongAs(word, w); }
    FourSlices(s, i, k, word, a, b);
  }

  lemma LongAs(word: string, w: string)
    requires Spells(word, w)
    ensures |word| == |w|
  {
  }

  lemma FourSlices(s: string, i: nat, k: nat, word: string, a: string, b: string)
    requires i <= k <= |s| && s[i..k] == word + a + ":" + b
    ensures var x, j := i + |word|, i + |word| + |a|;
            j < k && s[i..x] == word && s[x..j] == a && s[j] == ':' && s[j + 1..k] == b
  {
    var p := s[i..k];
    var x, j := i + |word|, i + |word| + |a|;
    assert p[..|word|] == word && p[|word|..j - i] == a && p[j - i] == ':' && p[j + 1 - i..] == b;
    assert s[i..x] == p[..|word|];
    SliceSlice(s, i, k, |word|, j - i);
    SliceSlice(s, i, k, j + 1 - i, k - i);
  }

  /** A marker at i, wherever its last blanks are cut, is read up to its colon. */
  lemma MarkerSeen(s: string, i: nat, k: nat)
    requires i <= k <= |s| && IsMarker(s[i..k])
    ensures i < AnyMarkerEnd(s, i) <= k && AllBlank(s[AnyMarkerEnd(s, i)..k])
    ensures !IsBlank(s[i])
  {
    var w, j := MarkerPlaces(s, i, k);
    MarkerRead(s, i, w, j);
    WordSpelled(s, i, w);
    FirstChars(s, i);
    AfterWord(s, i, w, j);
    hide IsMarker, MarkerEnd, AllBlank, Spells;
    assert w == "fw" ==> MarkerEnd(s, i, "fwd") == 0 by {
      if w == "fw" {
        NoEnd(s, i, "fwd");
      }
    }
    assert w != "re" ==> MarkerEnd(s, i, "re") == 0 by {
      if w != "re" {
        NoEnd(s, i, "re");
      }
    }
  }

  lemma NoEnd(s: string, i: nat, w: string)
    requires !Word(s, i, w)
    ensures MarkerEnd(s, i, w) == 0
  {
  }

  /** Behind the word comes a blank or the colon, which ends no longer word. */
  lemma AfterWord(s: string, i: nat, w: string, j: nat)
    requires i + |w| <= j < |s| && AllBlank(s[i + |w|..j]) && s[j] == ':'
    ensures s[i + |w|] == ':' || IsBlank(s[i + |w|])
  {
    if i + |w| < j {
      assert s[i + |w|..j][0] == s[i + |w|];
    }
  }

  /** Markers at i, up to j, begin with one whose colon is read. */
  lemma MarkersBegin(s: string, i: nat, j: nat) returns (k: nat)
    requires i < j <= |s| && Markers(s[i..j])
    ensures i < AnyMarkerEnd(s, i) <= k <= j && AllBlank(s[AnyMarkerEnd(s, i)..k]) && Markers(s[k..j])
    ensures !IsBlank(s[i])
  {
    var d := MarkersSplit(s[i..j]);
    k := i + d;
    SliceSlice(s, i, j, 0, d);
    SliceSlice(s, i, j, d, j - i);
    assert s[i..j][0..d] == s[i..j][..d] && s[i..j][d..j - i] == s[i..j][d..];
    hide *;
    MarkerSeen(s, i, k);
  }

  lemma {:induction false} MarkersReach(s: string, i: nat, j: nat)
    requires i <= j <= |s| && Markers(s[i..j])
    ensures j <= PrefixEnd(s, i)
    decreases j - i
  {
    hide *;
    if i < j {
      var k := MarkersBegin(s, i, j);
      var m := AnyMarkerEnd(s, i);
      PrefixStep(s, i);
      BlanksStopAfter(s, m, k);
      if k < j {
        var _ := MarkersBegin(s, k, j);
        MarkersReach(s, k, j);
      }
    }
  }

  lemma {:induction false} BlanksStopAfter(s: string, m: nat, k: nat)
    requires m <= k <= |s| && AllBlank(s[m..k])
    ensures k <= m + Blanks(s, m)
    decreases k - m
  {
    if m < k {
      assert s[m..k][0] == s[m] && s[m..k][1..] == s[m + 1..k];
      BlanksStopAfter(s, m + 1, k);
    }
  }

  /** What stands before the tag: the longest start of s that consists of markers. */
  lemma PrefixExact(s: string)
    ensures Markers(s[..PrefixEnd(s, 0)])
    ensures forall n :: 0 <= n <= |s| && Markers(s[..n]) ==> n <= PrefixEnd(s, 0)
  {
    PrefixIsMarkers(s, 0);
    assert s[0..PrefixEnd(s, 0)] == s[..PrefixEnd(s, 0)];
    forall n | 0 <= n <= |s| && Markers(s[..n]) ensures n <= PrefixEnd(s, 0) {
      assert s[..n] == s[0..n];
      MarkersReach(s, 0, n);
    }
  }

  /** Blanks, "re" in any case, blanks and a colon. */
  predicate ReForm(s: string, a: string, word: string, b: string, rest: string) {
    AllBlank(a) && Spells(word, "re") && AllBlank(b) && s == a + word + b + ":" + rest
  }

  lemma ReFormRead(s: string, a: string, word: string, b: string, rest: string)
    requires ReForm(s, a, word, b, rest)
    ensures ReMarked(s)
  {
    var i, j := |a|, |a| + 2 + |b|;
    FourSlices(s, 0, j + 1, a + word, b, "");
    assert s[0..j + 1] == a + word + b + ":" + "";
    assert (a + word)[..i] == a && (a + word)[i..] == word;
    assert s[0..i] == s[0..i + 2][..i] && s[i..i + 2] == s[0..i + 2][i..];
    assert s[i] == word[0];
    BlanksAre(s, 0, i);
    MarkerRead(s, i, "re", j);
  }

  lemma ReMarkedForm(s: string)
    requires ReMarked(s)
    ensures exists a, word, b, rest :: ReForm(s, a, word, b, rest)
  {
    var i := Blanks(s, 0);
    var m := MarkerEnd(s, i, "re");
    WordSpelled(s, i, "re");
    assert AllBlank(s[..i]) && AllBlank(s[i + 2..m - 1]);
    hide *;
    FivePieces(s, i, m);
    ReFormOf(s, s[..i], s[i..i + 2], s[i + 2..m - 1], s[m..]);
  }

  lemma ReFormOf(s: string, a: string, word: string, b: string, rest: string)
    requires AllBlank(a) && Spells(word, "re") && AllBlank(b) && s == a + word + b + ":" + rest
    ensures exists a, word, b, rest :: ReForm(s, a, word, b, rest)
  {
    assert ReForm(s, a, word, b, rest);
  }

  lemma FivePieces(s: string, i: nat, m: nat)
    requires i + 2 < m <= |s| && s[m - 1] == ':'
    ensures s == s[..i] + s[i..i + 2] + s[i + 2..m - 1] + ":" + s[m..]
  {
    SliceJoin(s, 0, i, i + 2);
    SliceJoin(s, 0, i + 2, m - 1);
    assert s[0..i] == s[..i];
    assert s == s[0..m - 1] + ":" + s[m..];
  }

  lemma ReMarkedExact(s: string)
    ensures ReMarked(s) <==> exists a, word, b, rest :: ReForm(s, a, word, b, rest)
  {
    if ReMarked(s) {
      ReMarkedForm(s);
    }
    hide ReMarked, ReForm;
    if a, word, b, rest :| ReForm(s, a, word, b, rest) {
      ReFormRead(s, a, word, b, rest);
    }
  }

  /** One side of a slug. */
  predicate SlugPart(s: string) { s != "" && forall i :: 0 <= i < |s| ==> s[i] != '/' && !SpaceOrControl(s[i]) }

  predicate SlugForm(slug: string, owner: string, repo: string) {
    slug == owner + "/" + repo && SlugPart(owner) && SlugPart(repo)
  }

  lemma SlugExact(slug: string, owner: string, repo: string)
    ensures SplitSlug(slug) == Some((owner, repo)) <==> SlugForm(slug, owner, repo)
  {
    SlugParts(slug);
    var k := IndexOf(slug, '/');
    if SplitSlug(slug) == Some((owner, repo)) {
      assert slug == slug[..k] + "/" + slug[k + 1..];
    }
    if SlugForm(slug, owner, repo) {
      IndexIs(slug, '/', |owner|);
      assert slug[..k] == owner && slug[k + 1..] == repo;
      assert forall i :: k < i < |slug| ==> slug[i] == repo[i - k - 1];
      assert forall i :: 0 <= i < k ==> slug[i] == owner[i];
      assert !SpaceOrControl('/');
    }
  }

  lemma SameFoldExact(a: string, b: string)
    ensures SameFold(a, b) <==> Lower(a) == Lower(b)
  {
    assert forall i :: 0 <= i < |a| ==> Lower(a)[i] == LowerChar(a[i]);
    assert forall i :: 0 <= i < |b| ==> Lower(b)[i] == LowerChar(b[i]);
  }

  /** s begins with a tag "[owner/repo]" of a repository of the same owner, in any case. */
  predicate TagForm(slug: string, s: string, owner: string, repo: string, tagOwner: string, tagRepo: string, rest: string) {
    && SlugForm(slug, owner, repo) && SlugPart(tagOwner) && SlugPart(tagRepo) && ']' !in tagOwner && ']' !in tagRepo
    && Lower(tagOwner) == Lower(owner) && s == "[" + (tagOwner + "/" + tagRepo) + "]" + rest
  }

  lemma TaggedForm(slug: string, s: string)
    requires Tagged(slug, s)
    ensures exists owner, repo, tagOwner, tagRepo, rest :: TagForm(slug, s, owner, repo, tagOwner, tagRepo, rest)
  {
    var end := IndexOf(s, ']');
    var (owner, repo) := SplitSlug(slug).value;
    var tag := s[1..end];
    var (tagOwner, tagRepo) := SplitSlug(tag).value;
    SlugExact(slug, owner, repo);
    SlugExact(tag, tagOwner, tagRepo);
    assert forall i :: 0 <= i < |tag| ==> tag[i] == s[1 + i];
    SameFoldExact(tagOwner, owner);
    hide SlugPart, SplitSlug, SameFold;
    assert s == "[" + tag + "]" + s[end + 1..];
    assert ']' !in tag && ']' !in tagOwner && ']' !in tagRepo;
    assert TagForm(slug, s, owner, repo, tagOwner, tagRepo, s[end + 1..]);
  }

  lemma FormTagged(slug: string, s: string, owner: string, repo: string, tagOwner: string, tagRepo: string, rest: string)
    requires TagForm(slug, s, owner, repo, tagOwner, tagRepo, rest)
    ensures Tagged(slug, s)
  {
    var tag := tagOwner + "/" + tagRepo;
    SlugExact(slug, owner, repo);
    SlugExact(tag, tagOwner, tagRepo);
    SameFoldExact(tagOwner, owner);
    hide SlugPart, SplitSlug, SameFold;
    assert forall i :: 0 <= i < |tag| ==> s[1 + i] == tag[i];
    IndexIs(s, ']', 1 + |tag|);
    assert s[1..1 + |tag|] == tag;
  }

  lemma TaggedExact(slug: string, s: string)
    ensures Tagged(slug, s) <==>
            exists owner, repo, tagOwner, tagRepo, rest :: TagForm(slug, s, owner, repo, tagOwner, tagRepo, rest)
  {
    if Tagged(slug, s) {
      TaggedForm(slug, s);
    }
    hide Tagged, TagForm;
    if owner, repo, tagOwner, tagRepo, rest :| TagForm(slug, s, owner, repo, tagOwner, tagRepo, rest) {
      FormTagged(slug, s, owner, repo, tagOwner, tagRepo, rest);
    }
  }

  /** p is the longest start of p + rest that consists of markers. */
  ghost predicate AllMarkers(p: string, rest: string) {
    Markers(p) && forall n :: |p| < n <= |p + rest| ==> !Markers((p + rest)[..n])
  }

  /** The reply keeps the subject, behind a "Re: " when it has none, and puts the tag
      between its markers and the rest unless a tag of this owner stands there. */
  lemma ReplyExact(slug: string, original: string, p: string, rest: string)
    requires p + rest == (if ReMarked(original) then original else "Re: " + original) && AllMarkers(p, rest)
    ensures Reply(slug, original) ==
            if slug == "" || Tagged(slug, rest) then p + rest else p + ("[" + slug + "] " + rest)
  {
    var s := p + rest;
    PrefixExact(s);
    assert s[..|p|] == p && s[|p|..] == rest;
    hide Markers, PrefixEnd, ReMarked, Tagged;
  }

  // --- markers survive whatever non-blank text follows them ------------------------------

  /** t continues like s up to n, and then not with a blank. */
  predicate SameUpTo(s: string, t: string, n: nat) {
    n <= |s| && n <= |t| && s[..n] == t[..n] && (n == |t| || !IsBlank(t[n])) && (n == |s| || !IsBlank(s[n]))
  }

  lemma SameChars(s: string, t: string, n: nat)
    requires SameUpTo(s, t, n)
    ensures forall k :: 0 <= k < n ==> s[k] == t[k]
  {
    forall k | 0 <= k < n ensures s[k] == t[k] {
      assert s[..n][k] == t[..n][k];
    }
  }

  lemma {:induction false} BlanksStop(s: string, i: nat, n: nat)
    requires i <= n <= |s| && (n == |s| || !IsBlank(s[n]))
    ensures i + Blanks(s, i) <= n
    decreases n - i
  {
    if i < n {
      BlanksStop(s, i + 1, n);
    }
  }

  lemma {:induction false} BlanksAgree(s: string, t: string, n: nat, i: nat)
    requires SameUpTo(s, t, n) && i <= n
    ensures i + Blanks(s, i) <= n && Blanks(t, i) == Blanks(s, i)
    decreases n - i
  {
    BlanksStop(s, i, n);
    SameChars(s, t, n);
    if i < n {
      BlanksAgree(s, t, n, i + 1);
    }
  }

  lemma MarkerAgree(s: string, t: string, n: nat, i: nat, w: string)
    requires SameUpTo(s, t, n) && MarkerEnd(s, i, w) > 0 && MarkerEnd(s, i, w) <= n
    ensures MarkerEnd(t, i, w) == MarkerEnd(s, i, w)
  {
    SameChars(s, t, n);
    BlanksAgree(s, t, n, i + |w|);
  }

  lemma WordChar(s: string, i: nat, w: string, k: nat)
    requires k < |w|
    ensures Word(s, i, w) ==> i + k < |s| && LowerChar(s[i + k]) == w[k]
  {
  }

  lemma FirstChars(s: string, i: nat)
    ensures Word(s, i, "re") ==> i < |s| && LowerChar(s[i]) == 'r'
    ensures Word(s, i, "fwd") ==> i + 2 < |s| && LowerChar(s[i]) == 'f' && LowerChar(s[i + 2]) == 'd'
    ensures Word(s, i, "fw") ==> i < |s| && LowerChar(s[i]) == 'f'
  {
    WordChar(s, i, "re", 0);
    WordChar(s, i, "fwd", 0);
    WordChar(s, i, "fwd", 2);
    WordChar(s, i, "fw", 0);
  }

  /** A marker rules the longer spelling in or out by its first three characters. */
  lemma AnyMarkerAgree(s: string, t: string, n: nat, i: nat)
    requires SameUpTo(s, t, n) && AnyMarkerEnd(s, i) > 0 && AnyMarkerEnd(s, i) <= n
    ensures AnyMarkerEnd(t, i) == AnyMarkerEnd(s, i)
  {
    SameChars(s, t, n);
    FirstChars(s, i);
    FirstChars(t, i);
    if MarkerEnd(s, i, "re") > 0 {
      MarkerAgree(s, t, n, i, "re");
    } else if MarkerEnd(s, i, "fwd") > 0 {
      MarkerAgree(s, t, n, i, "fwd");
    } else {
      MarkerAgree(s, t, n, i, "fw");
      assert s[i + 2] == ':' || IsBlank(s[i + 2]);
    }
  }

  lemma NoMarkerAt(t: string, i: nat)
    requires i >= |t| || t[i] == '['
    ensures AnyMarkerEnd(t, i) == 0
  {
    FirstChars(t, i);
  }

  lemma {:induction false} PrefixEndsBeforeBlank(s: string, i: nat)
    requires i <= |s| && (i == |s| || !IsBlank(s[i]))
    ensures var e := PrefixEnd(s, i); e == |s| || !IsBlank(s[e])
    decreases |s| - i
  {
    var m := AnyMarkerEnd(s, i);
    if m > 0 {
      PrefixEndsBeforeBlank(s, m + Blanks(s, m));
    }
  }

  /** Putting a tag behind the markers leaves the markers as they were. */
  lemma {:induction false} PrefixKept(s: string, t: string, i: nat)
    requires i <= |s| && SameUpTo(s, t, PrefixEnd(s, i))
    requires PrefixEnd(s, i) < |t| ==> t[PrefixEnd(s, i)] == '['
    ensures PrefixEnd(t, i) == PrefixEnd(s, i)
    decreases |s| - i
  {
    hide AnyMarkerEnd, Blanks, SameUpTo;
    var n := PrefixEnd(s, i);
    var m := AnyMarkerEnd(s, i);
    if m == 0 {
      NoMarkerAt(t, i);
    } else {
      AnyMarkerAgree(s, t, n, i);
      BlanksAgree(s, t, n, m);
      PrefixKept(s, t, m + Blanks(s, m));
    }
  }

  // --- recognising the tag just written ---------------------------------------------------

  /** Whether the tag made from slug is recognised as one of its owner's tags. */
  predicate SelfTag(slug: string) {
    var parts := SplitSlug(slug);
    parts.Some? && ']' !in parts.value.0 && parts.value.1[0] != ']'
  }

  lemma SlugParts(s: string)
    ensures var k := IndexOf(s, '/');
            SplitSlug(s).Some? <==> 0 < k < |s| - 1 && (forall i :: k < i < |s| ==> s[i] != '/')
                                    && (forall i :: 0 <= i < |s| ==> !SpaceOrControl(s[i]))
  {
    var k := IndexOf(s, '/');
    if k < |s| {
      assert forall i :: k < i < |s| ==> s[k + 1..][i - k - 1] == s[i];
      if '/' in s[k + 1..] {
        var j := IndexOf(s[k + 1..], '/');
        assert s[k + 1..][j] == s[k + 1 + j];
      }
    }
  }

  lemma IndexIs(s: string, c: char, n: nat)
    requires n <= |s| && (n < |s| ==> s[n] == c) && forall i :: 0 <= i < n ==> s[i] != c
    ensures IndexOf(s, c) == n
  {
    var k := IndexOf(s, c);
    assert n < |s| ==> k <= n;
  }

  /** The tag ends at the first ']' of the slug, or right behind it. */
  lemma TagEnd(slug: string, rest: string)
    ensures var s, e := "[" + slug + "] " + rest, IndexOf(slug, ']');
            IndexOf(s, ']') == 1 + e < |s| && s[1..1 + e] == slug[..e]
  {
    var s := "[" + slug + "] " + rest;
    var e := IndexOf(slug, ']');
    assert forall i :: 0 <= i < |slug| ==> s[1 + i] == slug[i];
    assert s[1 + |slug|] == ']';
    IndexIs(s, ']', 1 + e);
    assert s[1..1 + e] == slug[..e];
  }

  /** What is left of a slug cut at its first ']' still splits, into the same owner,
      exactly when the ']' stands behind the first letter of the repo. */
  lemma CutSplits(slug: string)
    requires SplitSlug(slug).Some?
    ensures var cut := SplitSlug(slug[..IndexOf(slug, ']')]);
            && (cut.Some? <==> SelfTag(slug))
            && (cut.Some? ==> cut.value.0 == SplitSlug(slug).value.0)
  {
    var k, e := IndexOf(slug, '/'), IndexOf(slug, ']');
    var inner, owner := slug[..e], slug[..k];
    SlugParts(slug);
    SlugParts(inner);
    if ']' in owner {
      var i :| 0 <= i < k && owner[i] == ']';
      assert slug[i] == ']';
    }
    assert e < k ==> slug[e] == owner[e];
    if e <= k {
      IndexIs(inner, '/', e);
    } else {
      IndexIs(inner, '/', k);
      assert inner[..k] == owner;
    }
  }

  /** Exactly when slug is well formed, its owner has no ']' and its repo does not
      begin with one. */
  lemma SelfTagExact(slug: string, rest: string)
    ensures Tagged(slug, "[" + slug + "] " + rest) <==> SelfTag(slug)
  {
    TagEnd(slug, rest);
    if SplitSlug(slug).Some? {
      CutSplits(slug);
      hide SplitSlug, IndexOf;
    }
  }

  // --- idempotence -------------------------------------------------------------------------

  /** A subject that begins with a blank and still reads as a reply. */
  predicate Padded(original: string) { original != "" && IsBlank(original[0]) && ReMarked(original) }

  /** The reified subject already carries a tag of slug's owner. */
  predicate Already(slug: string, original: string) {
    Tagged(slug, Reified(original)[PrefixEnd(Reified(original), 0)..])
  }

  lemma ReColon(rest: string)
    ensures MarkerEnd("Re: " + rest, 0, "re") == 3 && ReMarked("Re: " + rest)
  {
    var s := "Re: " + rest;
    assert Word(s, 0, "re");
    assert s[2] == ':' && !IsBlank(s[0]);
    assert Blanks(s, 2) == 0 && Blanks(s, 0) == 0;
  }

  /** Unless it is padded, a reified subject starts with a marker. */
  lemma ReifiedMarked(original: string)
    requires !Padded(original)
    ensures var s := Reified(original);
            s != "" && !IsBlank(s[0]) && ReMarked(s) && MarkerEnd(s, 0, "re") > 0
            && 0 < MarkerEnd(s, 0, "re") <= PrefixEnd(s, 0)
  {
    ReColon(original);
    assert Blanks(Reified(original), 0) == 0;
  }

  lemma InsertTag(slug: string, s: string, n: nat)
    requires n <= |s|
    ensures var t := s[..n] + ("[" + slug + "] " + s[n..]);
            t[..n] == s[..n] && t[n..] == "[" + slug + "] " + s[n..] && n < |t| && t[n] == '['
  {
    var rest := "[" + slug + "] " + s[n..];
    assert rest[0] == '[';
    assert (s[..n] + rest)[..n] == s[..n] && (s[..n] + rest)[n..] == rest;
  }

  /** The markers of an unpadded subject stand unchanged before a new tag. */
  lemma TaggedStaysMarked(slug: string, original: string)
    requires !Padded(original)
    ensures var s := Reified(original);
            var n := PrefixEnd(s, 0);
            var t := s[..n] + ("[" + slug + "] " + s[n..]);
            PrefixEnd(t, 0) == n && ReMarked(t) && t[n..] == "[" + slug + "] " + s[n..]
  {
    var s := Reified(original);
    var n := PrefixEnd(s, 0);
    var t := s[..n] + ("[" + slug + "] " + s[n..]);
    ReifiedMarked(original);
    InsertTag(slug, s, n);
    PrefixEndsBeforeBlank(s, 0);
    PrefixKept(s, t, 0);
    MarkerAgree(s, t, n, 0, "re");
    assert t[0] == s[0] by { SameChars(s, t, n); }
    assert Blanks(t, 0) == 0;
  }

  lemma UnpaddedIdempotent(slug: string, original: string)
    requires slug != "" && !Padded(original)
    ensures Reply(slug, Reply(slug, original)) == Reply(slug, original) <==> Already(slug, original) || SelfTag(slug)
  {
    var s := Reified(original);
    var n := PrefixEnd(s, 0);
    ReifiedMarked(original);
    if !Already(slug, original) {
      var t := s[..n] + ("[" + slug + "] " + s[n..]);
      TaggedStaysMarked(slug, original);
      SelfTagExact(slug, s[n..]);
      assert Reply(slug, original) == t && Reply(slug, t) == Subject(slug, t);
      assert |t[..n] + ("[" + slug + "] " + t[n..])| > |t|;
    }
  }

  /** A padded subject has no markers at its very start, so the tag goes in front. */
  lemma PaddedGetsTagFirst(slug: string, original: string)
    requires slug != "" && Padded(original)
    ensures Reply(slug, original) == "[" + slug + "] " + original
  {
    FirstChars(original, 0);
    assert PrefixEnd(original, 0) == 0;
    hide PrefixEnd, ReMarked;
    assert original[0..] == original;
    assert original[..0] + ("[" + slug + "] " + original) == "[" + slug + "] " + original;
  }

  /** A subject that starts with a bracket becomes a "Re:" when it is answered. */
  lemma BracketGetsRe(slug: string, t: string)
    requires slug != "" && t != "" && t[0] == '['
    ensures var r := Reply(slug, t); r != "" && r[0] == 'R'
  {
    assert Blanks(t, 0) == 0;
    FirstChars(t, 0);
    assert !ReMarked(t);
    var u := "Re: " + t;
    ReColon(t);
    assert PrefixEnd(u, 0) >= 3;
    hide PrefixEnd, ReMarked, Tagged;
    assert u[..PrefixEnd(u, 0)][0] == 'R';
  }

  lemma PaddedNotIdempotent(slug: string, original: string)
    requires slug != "" && Padded(original)
    ensures Reply(slug, Reply(slug, original)) != Reply(slug, original)
  {
    PaddedGetsTagFirst(slug, original);
    hide Reply, Padded;
    BracketGetsRe(slug, Reply(slug, original));
  }

  /** Replying to a reply changes nothing exactly when there is no tag, or the subject
      is not a blank-led "re:" and either carries a tag of this owner already or gets
      one that is recognised as such. */
  lemma ReplyIdempotent(slug: string, original: string)
    ensures Reply(slug, Reply(slug, original)) == Reply(slug, original) <==>
            slug == "" || (!Padded(original) && (Already(slug, original) || SelfTag(slug)))
  {
    if slug == "" {
      ReColon(original);
    } else if Padded(original) {
      PaddedNotIdempotent(slug, original);
    } else {
      UnpaddedIdempotent(slug, original);
    }
  }

  /** The documented no-op fails on a reply with one leading blank. */
  lemma LeadingBlankCounterexample()
    ensures Reply("o/r", Reply("o/r", " re:x")) != Reply("o/r", " re:x")
  {
    assert Blanks(" re:x", 0) == 1 && Word(" re:x", 1, "re") && Blanks(" re:x", 3) == 0;
    PaddedNotIdempotent("o/r", " re:x");
  }

  // --- exactly one tag -------------------------------------------------------------------------

  /** How many tags of slug's owner stand one after another at the start of s. */
  function TagCount(slug: string, s: string): nat
    decreases |s|
  {
    if !Tagged(slug, s) then 0
    else
      var rest := s[IndexOf(s, ']') + 1..];
      1 + TagCount(slug, if rest != "" && rest[0] == ' ' then rest[1..] else rest)
  }

  lemma FreshTagCount(slug: string, rest: string)
    requires SelfTag(slug) && ']' !in slug && !Tagged(slug, rest)
    ensures TagCount(slug, "[" + slug + "] " + rest) == 1 && TagCount(slug, rest) == 0
  {
    var tagged := "[" + slug + "] " + rest;
    SelfTagExact(slug, rest);
    assert tagged[1 + |slug|] == ']';
    assert forall i :: 0 <= i < |slug| ==> tagged[1 + i] == slug[i];
    IndexIs(tagged, ']', 1 + |slug|);
    hide Tagged, SelfTag, IndexOf;
    assert tagged[2 + |slug|..] == " " + rest;
    assert (" " + rest)[1..] == rest;
  }

  /** After the markers a reply has the tags the subject had, or exactly one. */
  lemma OneTag(slug: string, original: string)
    requires SelfTag(slug) && ']' !in slug && !Padded(original)
    ensures var s, t := Reified(original), Reply(slug, original);
            var had := TagCount(slug, s[PrefixEnd(s, 0)..]);
            TagCount(slug, t[PrefixEnd(t, 0)..]) == if had == 0 then 1 else had
  {
    var s := Reified(original);
    var n := PrefixEnd(s, 0);
    hide PrefixEnd, Tagged, ReMarked, TagCount, SelfTag;
    if !Already(slug, original) {
      TaggedStaysMarked(slug, original);
      FreshTagCount(slug, s[n..]);
    }
  }
}
