/** Searching, trimming and cutting strings. */
module Text {
  import opened Basics

  /** s without the prefix p. */
  function Strip(s: string, p: string): Option<string> {
    if |p| <= |s| && s[..|p|] == p then Some(s[|p|..]) else None
  }

  lemma StripOf(p: string, r: string)
    ensures Strip(p + r, p) == Some(r)
  {
  }

  /** pat stands in s at i. */
  predicate At(s: string, pat: string, i: int) { 0 <= i && i + |pat| <= |s| && s[i..i + |pat|] == pat }

  ghost predicate Contains(s: string, pat: string) { exists i :: At(s, pat, i) }

  /** The first place at or after i where pat stands, -1 when there is none. */
  function Find(s: string, pat: string, i: nat): (j: int)
    ensures j == -1 || (i <= j && At(s, pat, j))
    ensures forall k :: i <= k && (j == -1 || k < j) ==> !At(s, pat, k)
    decreases |s| - i
  {
    if i + |pat| > |s| then -1 else if s[i..i + |pat|] == pat then i else Find(s, pat, i + 1)
  }

  /** No proper suffix of pat is also a prefix of it. */
  ghost predicate BorderFree(pat: string) {
    pat != "" && forall d :: 0 < d < |pat| ==> pat[d..] != pat[..|pat| - d]
  }

  lemma AtInside(x: string, y: string, pat: string, k: int)
    ensures k + |pat| <= |x| ==> (At(x + y, pat, k) <==> At(x, pat, k))
  {
    if 0 <= k && k + |pat| <= |x| {
      assert (x + y)[k..k + |pat|] == x[k..k + |pat|];
    }
  }

  lemma AtStraddling(x: string, pat: string, rest: string, k: nat)
    requires k < |x| < k + |pat|
    ensures At(x + pat + rest, pat, k) ==> pat[|x| - k..] == pat[..|pat| - (|x| - k)]
  {
    var s, d := x + pat + rest, |x| - k;
    assert s[k..k + |pat|][d..] == s[|x|..k + |pat|];
    assert s[|x|..k + |pat|] == pat[..|pat| - d];
  }

  /** A border-free pattern cannot straddle the end of a text that lacks it. */
  lemma FindAfter(x: string, pat: string, rest: string)
    requires BorderFree(pat) && !Contains(x, pat)
    ensures Find(x + pat + rest, pat, 0) == |x|
  {
    var s := x + pat + rest;
    assert At(s, pat, |x|);
    forall k | 0 <= k < |x| ensures !At(s, pat, k) {
      if k + |pat| <= |x| {
        AtInside(x, pat + rest, pat, k);
        assert x + (pat + rest) == s;
      } else {
        AtStraddling(x, pat, rest, k);
      }
    }
  }

  lemma FindNone(s: string, pat: string)
    requires !Contains(s, pat)
    ensures Find(s, pat, 0) == -1
  {
  }

  lemma SliceSlice(s: string, i: nat, j: nat, k: nat, l: nat)
    requires i <= j <= |s| && k <= l <= j - i
    ensures s[i..j][k..l] == s[i + k..i + l]
  {
    var a, b := s[i..j][k..l], s[i + k..i + l];
    assert |a| == |b| && forall m :: 0 <= m < |a| ==> a[m] == s[i + k + m] == b[m];
  }

  lemma SliceJoin(s: string, i: nat, j: nat, k: nat)
    requires i <= j <= k <= |s|
    ensures s[i..k] == s[i..j] + s[j..k]
  {
  }

  lemma AtPart(s: string, a: string, part: string, b: string, i: int)
    ensures At(s, a + part + b, i) ==> At(s, part, i + |a|)
  {
    var pat := a + part + b;
    assert pat[|a|..|a| + |part|] == part;
    if 0 <= i && i + |pat| <= |s| {
      SliceSlice(s, i, i + |pat|, |a|, |a| + |part|);
    }
  }

  /** A text that lacks part lacks every longer pattern around it. */
  lemma ContainsPart(s: string, a: string, part: string, b: string)
    requires !Contains(s, part)
    ensures !Contains(s, a + part + b)
  {
    forall i ensures !At(s, a + part + b, i) {
      AtPart(s, a, part, b, i);
    }
  }

  /** A pattern whose first character does not come back is border-free. */
  lemma UniqueStart(pat: string)
    requires pat != "" && forall k :: 0 < k < |pat| ==> pat[k] != pat[0]
    ensures BorderFree(pat)
  {
    forall d | 0 < d < |pat| ensures pat[d..] != pat[..|pat| - d] {
      assert pat[d..][0] == pat[d];
    }
  }

  function IndexOf(s: string, c: char): (n: nat)
    ensures n <= |s| && forall i :: 0 <= i < n ==> s[i] != c
    ensures n < |s| ==> s[n] == c
  {
    if s == "" || s[0] == c then 0 else 1 + IndexOf(s[1..], c)
  }

  // --- ASCII white space and letter case ------------------------------------------

  predicate IsSpace(c: char) { c == ' ' || '\t' <= c <= '\r' }

  function TrimLeft(s: string): string { if s != "" && IsSpace(s[0]) then TrimLeft(s[1..]) else s }

  function TrimRight(s: string): string { if s != "" && IsSpace(s[|s| - 1]) then TrimRight(s[..|s| - 1]) else s }

  function Trim(s: string): string { TrimRight(TrimLeft(s)) }

  predicate AllSpace(s: string) { forall i :: 0 <= i < |s| ==> IsSpace(s[i]) }

  predicate Trimmed(s: string) { s != "" ==> !IsSpace(s[0]) && !IsSpace(s[|s| - 1]) }

  lemma {:induction false} TrimLeftParts(s: string) returns (a: string)
    ensures s == a + TrimLeft(s) && AllSpace(a) && (TrimLeft(s) != "" ==> !IsSpace(TrimLeft(s)[0]))
  {
    a := "";
    if s != "" && IsSpace(s[0]) {
      a := TrimLeftParts(s[1..]);
      assert s == [s[0]] + s[1..];
      a := [s[0]] + a;
    }
  }

  lemma {:induction false} TrimRightParts(s: string) returns (c: string)
    ensures s == TrimRight(s) + c && AllSpace(c) && (TrimRight(s) != "" ==> !IsSpace(TrimRight(s)[|TrimRight(s)| - 1]))
    decreases |s|
  {
    c := "";
    if s != "" && IsSpace(s[|s| - 1]) {
      c := TrimRightParts(s[..|s| - 1]);
      assert s == s[..|s| - 1] + [s[|s| - 1]];
      c := c + [s[|s| - 1]];
    }
  }

  /** A text is its trimmed form with white space around it. */
  lemma TrimParts(s: string) returns (a: string, c: string)
    ensures s == a + Trim(s) + c && AllSpace(a) && AllSpace(c) && Trimmed(Trim(s))
  {
    a := TrimLeftParts(s);
    c := TrimRightParts(TrimLeft(s));
    Regroup(a, Trim(s), c);
  }

  lemma TrimTrims(s: string)
    ensures Trimmed(Trim(s))
  {
    var a, c := TrimParts(s);
  }

  lemma {:induction false} TrimLeftOf(a: string, t: string)
    requires AllSpace(a)
    ensures TrimLeft(a + t) == TrimLeft(t)
  {
    if a == "" {
      assert a + t == t;
    } else {
      TrimLeftOf(a[1..], t);
      assert (a + t)[1..] == a[1..] + t;
    }
  }

  lemma {:induction false} TrimRightOf(t: string, c: string)
    requires AllSpace(c) && (t != "" ==> !IsSpace(t[|t| - 1]))
    ensures TrimRight(t + c) == t
    decreases |c|
  {
    if c == "" {
      assert t + c == t;
    } else {
      TrimRightOf(t, c[..|c| - 1]);
      assert (t + c)[..|t + c| - 1] == t + c[..|c| - 1];
    }
  }

  /** White space around a trimmed text is what a trim takes off, and nothing else. */
  lemma TrimOf(a: string, t: string, c: string)
    requires AllSpace(a) && AllSpace(c) && Trimmed(t)
    ensures Trim(a + t + c) == t
  {
    Regroup(a, t, c);
    TrimLeftOf(a, t + c);
    if t == "" {
      TrimLeftOf(c, "");
      assert t + c == c == c + "" && TrimLeft("") == "";
    } else {
      assert (t + c)[0] == t[0];
      TrimRightOf(t, c);
    }
  }

  function LowerChar(c: char): char {
    if 'A' <= c <= 'Z' then (c as int - 'A' as int + 'a' as int) as char else c
  }

  function Lower(s: string): (t: string)
    ensures |t| == |s| && forall i :: 0 <= i < |s| ==> t[i] == LowerChar(s[i])
  {
    if s == "" then "" else [LowerChar(s[0])] + Lower(s[1..])
  }

  // --- decimal numbers ----------------------------------------------------------

  predicate IsDigit(c: char) { '0' <= c <= '9' }

  function Decimal(n: nat): (s: string)
    ensures s != "" && forall i :: 0 <= i < |s| ==> IsDigit(s[i])
  {
    if n < 10 then [('0' as int + n) as char] else Decimal(n / 10) + [('0' as int + n % 10) as char]
  }

  function Digits(s: string): (n: nat)
    ensures n <= |s| && forall i :: 0 <= i < n ==> IsDigit(s[i])
    ensures n < |s| ==> !IsDigit(s[n])
  {
    if s == "" || !IsDigit(s[0]) then 0 else 1 + Digits(s[1..])
  }

  function Number(s: string): nat
    requires forall i :: 0 <= i < |s| ==> IsDigit(s[i])
  {
    if s == "" then 0
    else
      assert IsDigit(s[|s| - 1]);
      10 * Number(s[..|s| - 1]) + (s[|s| - 1] as int - '0' as int)
  }

  lemma {:induction false} NumberOfDecimal(n: nat)
    ensures Number(Decimal(n)) == n
  {
    var s := Decimal(n);
    if n < 10 {
      assert s[..0] == "";
    } else {
      NumberOfDecimal(n / 10);
      assert s[..|s| - 1] == Decimal(n / 10);
    }
  }

  lemma DigitsOf(n: nat, rest: string)
    requires rest == "" || !IsDigit(rest[0])
    ensures var s := Decimal(n) + rest;
            Digits(s) == |Decimal(n)| && Number(s[..Digits(s)]) == n && s[Digits(s)..] == rest
  {
    var s := Decimal(n) + rest;
    assert forall i :: 0 <= i < |Decimal(n)| ==> s[i] == Decimal(n)[i];
    assert |Decimal(n)| < |s| ==> !IsDigit(s[|Decimal(n)|]);
    assert s[..|Decimal(n)|] == Decimal(n);
    NumberOfDecimal(n);
  }
}
