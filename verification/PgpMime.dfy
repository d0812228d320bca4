/** PGP/MIME messages (RFC 3156): composing multipart/signed and
    multipart/encrypted, and cutting the parts out of the raw bytes again. */
module PgpMime {
  import opened Basics
  import opened Text

  const CRLF := "\r\n"
  const BLANK := "\r\n\r\n"

  /** The line break put after a trimmed text is all that a trim takes off. */
  lemma TrimBreak(s: string)
    requires Trimmed(s)
    ensures Trim(s + CRLF) == s
  {
    TrimOf("", s, CRLF);
    assert "" + s + CRLF == s + CRLF;
  }

  // --- splitting at the boundary -------------------------------------------------

  function SplitOn(raw: string, sep: string): seq<string>
    requires sep != ""
    decreases |raw|
  {
    var j := Find(raw, sep, 0);
    if j < 0 then [raw] else [raw[..j]] + SplitOn(raw[j + |sep|..], sep)
  }

  function JoinWith(pieces: seq<string>, sep: string): string
    requires pieces != []
    decreases |pieces|
  {
    if |pieces| == 1 then pieces[0] else pieces[0] + (sep + JoinWith(pieces[1..], sep))
  }

  lemma SplitStep(x: string, sep: string, rest: string)
    requires BorderFree(sep) && !Contains(x, sep)
    ensures SplitOn(x + (sep + rest), sep) == [x] + SplitOn(rest, sep)
  {
    FindAfter(x, sep, rest);
    var s := x + (sep + rest);
    assert s == x + sep + rest && s[..|x|] == x && s[|x| + |sep|..] == rest;
  }

  /** Splitting undoes joining when no piece contains the separator. */
  lemma {:induction false} SplitUndoesJoin(pieces: seq<string>, sep: string)
    requires pieces != [] && BorderFree(sep) && forall i :: 0 <= i < |pieces| ==> !Contains(pieces[i], sep)
    ensures SplitOn(JoinWith(pieces, sep), sep) == pieces
    decreases |pieces|
  {
    if |pieces| == 1 {
      FindNone(pieces[0], sep);
    } else {
      forall i | 0 <= i < |pieces[1..]| ensures !Contains(pieces[1..][i], sep) {
        assert pieces[1..][i] == pieces[i + 1];
      }
      hide Contains, BorderFree, SplitOn;
      SplitUndoesJoin(pieces[1..], sep);
      SplitStep(pieces[0], sep, JoinWith(pieces[1..], sep));
      assert [pieces[0]] + pieces[1..] == pieces;
    }
  }

  lemma AtPrefix(raw: string, j: nat, sep: string, k: int)
    requires j <= |raw|
    ensures At(raw[..j], sep, k) ==> At(raw, sep, k) && k + |sep| <= j
  {
    if At(raw[..j], sep, k) {
      assert raw[..j][k..k + |sep|] == raw[k..k + |sep|];
    }
  }

  lemma CutTwice(s: string, j: nat, n: nat)
    requires j + n <= |s|
    ensures s == s[..j] + (s[j..j + n] + s[j + n..])
  {
    SliceJoin(s, j, j + n, |s|);
    assert s[j..|s|] == s[j..] && s[j + n..|s|] == s[j + n..];
  }

  /** What stands in front of the first separator, and what behind it. */
  lemma FirstPiece(raw: string, sep: string)
    requires sep != "" && Find(raw, sep, 0) >= 0
    ensures var j := Find(raw, sep, 0); !Contains(raw[..j], sep) && raw == raw[..j] + (sep + raw[j + |sep|..])
  {
    var j := Find(raw, sep, 0);
    assert raw[j..j + |sep|] == sep;
    CutTwice(raw, j, |sep|);
    forall k ensures !At(raw[..j], sep, k) {
      AtPrefix(raw, j, sep, k);
    }
  }

  lemma {:induction false} JoinCons(x: string, pieces: seq<string>, sep: string)
    requires pieces != []
    ensures JoinWith([x] + pieces, sep) == x + (sep + JoinWith(pieces, sep))
  {
    assert ([x] + pieces)[1..] == pieces;
  }

  lemma SplitOnCut(raw: string, sep: string) returns (x: string, rest: string)
    requires sep != "" && Contains(raw, sep)
    ensures raw == x + (sep + rest) && !Contains(x, sep) && SplitOn(raw, sep) == [x] + SplitOn(rest, sep)
  {
    FoundExact(raw, sep);
    SplitOnIs(raw, sep);
    hide Contains, SplitOn, Find;
    FirstPiece(raw, sep);
    var j := Find(raw, sep, 0);
    x, rest := raw[..j], raw[j + |sep|..];
  }

  lemma SplitOnIs(raw: string, sep: string)
    requires sep != "" && Find(raw, sep, 0) >= 0
    ensures var j := Find(raw, sep, 0); SplitOn(raw, sep) == [raw[..j]] + SplitOn(raw[j + |sep|..], sep)
  {
  }

  /** Every text is its pieces joined, and no piece contains the separator. */
  lemma {:induction false} SplitOnSound(raw: string, sep: string)
    requires sep != ""
    ensures SplitOn(raw, sep) != [] && JoinWith(SplitOn(raw, sep), sep) == raw
    ensures forall x :: x in SplitOn(raw, sep) ==> !Contains(x, sep)
    decreases |raw|
  {
    if Contains(raw, sep) {
      var x, rest := SplitOnCut(raw, sep);
      hide *;
      SplitOnSound(rest, sep);
      JoinCons(x, SplitOn(rest, sep), sep);
    } else {
      FoundExact(raw, sep);
      JoinOne(raw, sep);
    }
  }

  lemma JoinOne(x: string, sep: string)
    ensures JoinWith([x], sep) == x
  {
  }

  predicate Alnum(c: char) { 'a' <= c <= 'z' || 'A' <= c <= 'Z' || '0' <= c <= '9' }

  /** A boundary as it is generated: letters and digits. */
  predicate IsBoundary(b: string) { b != "" && forall i :: 0 <= i < |b| ==> Alnum(b[i]) }

  function Delimiter(b: string): string { "--" + b }

  lemma DelimiterBorderFree(b: string)
    requires IsBoundary(b)
    ensures BorderFree(Delimiter(b))
  {
    var d := Delimiter(b);
    forall k | 0 < k < |d| ensures d[k..] != d[..|d| - k] {
      if k == 1 {
        assert d[k..][1] == b[0] && d[..|d| - k][1] == '-';
      } else {
        assert d[k..][0] == b[k - 2] && d[..|d| - k][0] == '-';
      }
    }
  }

  lemma AtBehind(a: string, y: string, pat: string, k: int)
    requires k >= |a|
    ensures At(a + y, pat, k) <==> At(y, pat, k - |a|)
  {
    if k + |pat| <= |a + y| {
      assert (a + y)[k..k + |pat|] == y[k - |a|..k - |a| + |pat|];
    }
  }

  /** A character the pattern lacks separates its occurrences. */
  lemma Separated(x: string, c: char, y: string, pat: string)
    requires pat != "" && c !in pat && !Contains(x, pat) && !Contains(y, pat)
    ensures !Contains(x + [c] + y, pat)
  {
    var s := x + [c] + y;
    forall k ensures !At(s, pat, k) {
      if k + |pat| <= |x| {
        AtInside(x, [c] + y, pat, k);
        assert x + ([c] + y) == s;
      } else if 0 <= k <= |x| {
        assert k + |pat| <= |s| ==> s[k..k + |pat|][|x| - k] == c;
      } else if 0 <= k {
        AtBehind(x + [c], y, pat, k);
        assert !At(y, pat, k - |x| - 1);
      }
    }
  }

  lemma NotInEmpty(pat: string)
    requires pat != ""
    ensures !Contains("", pat)
  {
  }

  /** A line break keeps texts apart for any delimiter. */
  lemma SeparatedByBreak(x: string, y: string, b: string)
    requires IsBoundary(b) && !Contains(x, Delimiter(b)) && !Contains(y, Delimiter(b))
    ensures !Contains(x + CRLF + y, Delimiter(b))
  {
    var d := Delimiter(b);
    forall i | 0 <= i < |d| ensures d[i] != '\r' && d[i] != '\n' {
      if i >= 2 {
        assert Alnum(b[i - 2]);
      }
    }
    NotInEmpty(d);
    Separated("", '\n', y, d);
    assert "" + ['\n'] + y == "\n" + y;
    Separated(x, '\r', "\n" + y, d);
    assert x + ['\r'] + ("\n" + y) == x + CRLF + y;
  }

  // --- composing -------------------------------------------------------------------

  predicate Plain(s: string) { '\r' !in s && '\n' !in s }

  /** The headers a caller supplies, without the MIME ones. */
  datatype Envelope = Envelope(from: string, to: string, cc: string, subject: string, extra: seq<string>)

  function HeaderLines(e: Envelope, contentType: string): seq<string> {
    ["From: " + e.from, "To: " + e.to] + (if e.cc == "" then [] else ["Cc: " + e.cc]) + ["Subject: " + e.subject]
    + e.extra + ["MIME-Version: 1.0", contentType]
  }

  /** Lines, each with its line break. */
  function Lines(lines: seq<string>): string
    decreases |lines|
  {
    if lines == [] then "" else lines[0] + CRLF + Lines(lines[1..])
  }

  predicate HeadersOk(e: Envelope) {
    Plain(e.from) && Plain(e.to) && Plain(e.cc) && Plain(e.subject) && forall l :: l in e.extra ==> Plain(l)
  }

  function SignedType(b: string): string {
    TYPE + ("multipart/signed; " + ("boundary=\"" + (b + ("\"; micalg=pgp-sha256; " + "protocol=\"application/pgp-signature\""))))
  }

  function EncryptedType(b: string): string {
    TYPE + ("multipart/encrypted; " + ("boundary=\"" + (b + ("\"; " + "protocol=\"application/pgp-encrypted\""))))
  }

  const TYPE := "Content-Type: "
  const DISPOSITION := "Content-Disposition: "
  const SIG1 := TYPE + ("application/pgp-signature; " + "name=\"signature.asc\"")
  const SIG2 := DISPOSITION + ("attachment; " + "filename=\"signature.asc\"")
  const VER1 := TYPE + ("application/" + "pgp-encrypted")
  const VER2 := "Content-Description: " + ("PGP/MIME version " + "identification")
  const DATA1 := TYPE + ("application/octet-stream; " + "name=\"encrypted.asc\"")
  const DATA2 := DISPOSITION + ("inline; " + "filename=\"encrypted.asc\"")

  /** A part of two header lines and a trimmed payload, between two delimiters. */
  function PayloadPart(h1: string, h2: string, payload: string): string {
    CRLF + h1 + CRLF + h2 + BLANK + Trim(payload) + CRLF
  }

  const END_PIECE := "--\r\n"

  function SignedPieces(e: Envelope, b: string, body: string, sig: string): seq<string> {
    [Lines(HeaderLines(e, SignedType(b))) + CRLF, CRLF + body + CRLF, PayloadPart(SIG1, SIG2, sig), END_PIECE]
  }

  /** None when a header would carry a line break. */
  function ComposeSigned(e: Envelope, b: string, body: string, sig: string): Option<string> {
    if !HeadersOk(e) then None else Some(JoinWith(SignedPieces(e, b, body, sig), Delimiter(b)))
  }

  lemma {:induction false} LinesSnoc(lines: seq<string>, l: string)
    ensures Lines(lines + [l]) == Lines(lines) + (l + CRLF)
    decreases |lines|
  {
    if lines == [] {
      assert [l][1..] == [] && [] + [l] == [l];
      assert l + CRLF + "" == l + CRLF;
    } else {
      LinesSnoc(lines[1..], l);
      assert (lines + [l])[0] == lines[0] && (lines + [l])[1..] == lines[1..] + [l];
      Regroup(lines[0] + CRLF, Lines(lines[1..]), l + CRLF);
    }
  }

  /** Writing the message piece by piece into one buffer. */
  method WriteSigned(e: Envelope, b: string, body: string, sig: string) returns (msg: Option<string>)
    ensures msg == ComposeSigned(e, b, body, sig)
  {
    if !HeadersOk(e) {
      return None;
    }
    var buf := "";
    var lines := HeaderLines(e, SignedType(b));
    for i := 0 to |lines|
      invariant buf == Lines(lines[..i])
    {
      assert lines[..i + 1] == lines[..i] + [lines[i]];
      LinesSnoc(lines[..i], lines[i]);
      buf := buf + (lines[i] + CRLF);
    }
    assert lines[..|lines|] == lines;
    buf := buf + CRLF;
    var pieces := SignedPieces(e, b, body, sig);
    assert buf == pieces[0];
    hide SignedPieces, Delimiter;
    for i := 1 to 4
      invariant buf == JoinWith(pieces[..i], Delimiter(b))
    {
      assert pieces[..i + 1] == pieces[..i] + [pieces[i]];
      JoinSnoc(pieces[..i], pieces[i], Delimiter(b));
      buf := buf + (Delimiter(b) + pieces[i]);
    }
    assert pieces[..4] == pieces;
    msg := Some(buf);
  }

  lemma {:induction false} JoinSnoc(pieces: seq<string>, p: string, sep: string)
    requires pieces != []
    ensures JoinWith(pieces + [p], sep) == JoinWith(pieces, sep) + (sep + p)
    decreases |pieces|
  {
    var all := pieces + [p];
    assert all[0] == pieces[0] && all[1..] == pieces[1..] + [p];
    if |pieces| == 1 {
      assert all[1..] == [p];
    } else {
      JoinSnoc(pieces[1..], p, sep);
      var rest := JoinWith(pieces[1..], sep);
      Regroup(sep, rest, sep + p);
      Regroup(pieces[0], sep + rest, sep + p);
    }
  }

  function VersionPart(): string { CRLF + VER1 + CRLF + VER2 + BLANK + "Version: 1" + BLANK }

  function EncryptedPieces(e: Envelope, b: string, armor: string): seq<string> {
    [Lines(HeaderLines(e, EncryptedType(b))) + CRLF, VersionPart(), PayloadPart(DATA1, DATA2, armor), END_PIECE]
  }

  function ComposeEncrypted(e: Envelope, b: string, armor: string): Option<string> {
    if !HeadersOk(e) then None else Some(JoinWith(EncryptedPieces(e, b, armor), Delimiter(b)))
  }

  // --- extracting --------------------------------------------------------------------

  datatype Extracted<T> = Ok(value: T) | Error | NeedsMultipart

  datatype Parts = Parts(data: string, signature: string, pubkey: Option<string>)

  function DropBreaks(s: string): string {
    var a := if |s| >= 2 && s[..2] == CRLF then s[2..] else s;
    if |a| >= 2 && a[|a| - 2..] == CRLF then a[..|a| - 2] else a
  }

  /** The payload of a part: what follows its first blank line, trimmed. */
  function PayloadOf(part: string): Option<string> {
    var i, j := Find(part, BLANK, 0), Find(part, "\n\n", 0);
    if i >= 0 then Some(Trim(part[i + 4..]))
    else if j >= 0 then Some(Trim(part[j + 2..]))
    else None
  }

  function CutAt(s: string, d: string): string {
    if Find(s, d, 0) >= 0 then Trim(s[..Find(s, d, 0)]) else s
  }

  const KEYS := "application/pgp-keys"

  /** The key attached to the last part that carries one. */
  function PubKey(parts: seq<string>): Option<string>
    decreases |parts|
  {
    if parts == [] then None
    else
      var last := parts[|parts| - 1];
      if Find(last, KEYS, 0) >= 0 && Find(last, BLANK, 0) >= 0 then Some(Trim(last[Find(last, BLANK, 0) + 4..]))
      else PubKey(parts[..|parts| - 1])
  }

  /** mediaType and b are what the message's Content-Type header parses to. */
  function ExtractSigned(mediaType: string, b: string, raw: string): Extracted<Parts> {
    if mediaType != "multipart/signed" || b == "" then Error
    else
      var parts := SplitOn(raw, Delimiter(b));
      if |parts| < 3 || PayloadOf(parts[2]).None? then Error
      else Ok(Parts(DropBreaks(parts[1]), CutAt(PayloadOf(parts[2]).value, Delimiter(b)), PubKey(parts[3..])))
  }

  const ARMOR_BEGIN := "-----BEGIN PGP MESSAGE-----"
  const ARMOR_END := "-----END PGP MESSAGE-----"

  /** What is taken from a payload whose markers begin at start and end, the second
      len long; without a begin marker the source turns to its multipart reader. */
  function PickArmor(body: string, start: int, end: int, len: nat): Extracted<string>
    requires end >= 0 ==> end + len <= |body|
  {
    if body == "" then Error
    else if start < 0 then NeedsMultipart
    else if end > start then Ok(body[start..end + len])
    else Ok(body)
  }

  /** The armored block inside a payload. */
  function ArmorOf(body: string): Extracted<string> {
    PickArmor(body, Find(body, ARMOR_BEGIN, 0), Find(body, ARMOR_END, 0), |ARMOR_END|)
  }

  function ExtractEncrypted(mediaType: string, b: string, raw: string): Extracted<string> {
    if mediaType != "multipart/encrypted" || b == "" then Error
    else
      var parts := SplitOn(raw, Delimiter(b));
      if |parts| < 3 then Error
      else
        var payload := PayloadOf(parts[2]);
        ArmorOf(CutAt(if payload.Some? then payload.value else Trim(parts[2]), Delimiter(b)))
  }

  // --- extracting what was composed ----------------------------------------------------

  /** The boundary is fresh for a text: its delimiter does not occur there. */
  ghost predicate Fresh(b: string, s: string) { !Contains(s, Delimiter(b)) }

  lemma {:induction false} LinesFresh(lines: seq<string>, b: string)
    requires IsBoundary(b) && forall l :: l in lines ==> Fresh(b, l)
    ensures Fresh(b, Lines(lines))
    decreases |lines|
  {
    if lines == [] {
      NotInEmpty(Delimiter(b));
    } else {
      LinesFresh(lines[1..], b);
      assert Fresh(b, lines[0]);
      SeparatedByBreak(lines[0], Lines(lines[1..]), b);
    }
  }

  lemma BreakAround(s: string, b: string)
    requires IsBoundary(b) && Fresh(b, s)
    ensures Fresh(b, s + CRLF) && Fresh(b, CRLF + s) && Fresh(b, CRLF + s + CRLF)
  {
    NotInEmpty(Delimiter(b));
    SeparatedByBreak(s, "", b);
    assert s + CRLF + "" == s + CRLF;
    SeparatedByBreak("", s, b);
    assert "" + CRLF + s == CRLF + s;
    SeparatedByBreak(CRLF + s, "", b);
    assert CRLF + s + CRLF + "" == CRLF + s + CRLF;
  }

  lemma PartFresh(h1: string, h2: string, payload: string, b: string)
    requires IsBoundary(b) && Fresh(b, h1) && Fresh(b, h2) && Fresh(b, Trim(payload))
    ensures Fresh(b, PayloadPart(h1, h2, payload))
  {
    var t := Trim(payload);
    hide Trim, CRLF, BLANK, Delimiter, Contains;
    BreakAround(h1, b);
    SeparatedByBreak(CRLF + h1, h2, b);
    BreakAround(CRLF + h1 + CRLF + h2, b);
    SeparatedByBreak(CRLF + h1 + CRLF + h2 + CRLF, t, b);
    BreakAround(CRLF + h1 + CRLF + h2 + CRLF + CRLF + t, b);
    BlankIsTwo(CRLF + h1 + CRLF + h2);
  }

  lemma BlankIsTwo(s: string)
    ensures s + CRLF + CRLF == s + BLANK
  {
  }

  /** Text without two dashes in a row holds no delimiter. */
  predicate Dashless(s: string) { forall i :: 0 < i < |s| ==> s[i - 1] != '-' || s[i] != '-' }

  lemma DashlessFresh(s: string, b: string)
    requires Dashless(s)
    ensures Fresh(b, s)
  {
    var d := Delimiter(b);
    forall k ensures !At(s, d, k) {
      if 0 <= k && k + |d| <= |s| {
        assert s[k..k + |d|][0] == s[k] && s[k..k + |d|][1] == s[k + 1];
        assert s[k + 1 - 1] != '-' || s[k + 1] != '-';
      }
    }
  }

  lemma DashlessJoin(x: string, y: string)
    requires Dashless(x) && Dashless(y) && (x != "" && y != "" ==> x[|x| - 1] != '-' || y[0] != '-')
    ensures Dashless(x + y)
  {
  }

  lemma EndFresh(b: string)
    requires IsBoundary(b)
    ensures Fresh(b, END_PIECE)
  {
    var d := Delimiter(b);
    forall k ensures !At(END_PIECE, d, k) {
      if 0 <= k && k + |d| <= 4 {
        assert END_PIECE[k..k + |d|][2 - k] == '\r';
        assert Alnum(b[0]) && d[2] == b[0] && d[1] == '-';
      }
    }
  }

  /** A header line whose name ends in a space, given in three pieces. */
  lemma HeaderFresh(name: string, x: string, y: string, b: string)
    requires Dashless(name) && Dashless(x) && Dashless(y) && name != "" && name[|name| - 1] == ' '
    requires x != "" && x[|x| - 1] != '-'
    ensures Fresh(b, name + (x + y))
  {
    DashlessJoin(x, y);
    DashlessJoin(name, x + y);
    DashlessFresh(name + (x + y), b);
  }

  lemma SignatureHeadersFresh(b: string)
    ensures Fresh(b, SIG1) && Fresh(b, SIG2)
  {
    HeaderFresh(TYPE, "application/pgp-signature; ", "name=\"signature.asc\"", b);
    HeaderFresh(DISPOSITION, "attachment; ", "filename=\"signature.asc\"", b);
  }

  lemma VersionHeadersFresh(b: string)
    ensures Fresh(b, VER1) && Fresh(b, VER2) && Fresh(b, "Version: 1") && Fresh(b, "MIME-Version: 1.0")
  {
    HeaderFresh(TYPE, "application/", "pgp-encrypted", b);
    HeaderFresh("Content-Description: ", "PGP/MIME version ", "identification", b);
    DashlessFresh("Version: 1", b);
    DashlessFresh("MIME-Version: 1.0", b);
  }

  lemma DataHeadersFresh(b: string)
    ensures Fresh(b, DATA1) && Fresh(b, DATA2)
  {
    HeaderFresh(TYPE, "application/octet-stream; ", "name=\"encrypted.asc\"", b);
    HeaderFresh(DISPOSITION, "inline; ", "filename=\"encrypted.asc\"", b);
  }

  lemma BoundaryDashless(b: string)
    requires IsBoundary(b)
    ensures Dashless(b) && b[|b| - 1] != '-' && b[0] != '-'
  {
    assert Alnum(b[0]) && Alnum(b[|b| - 1]);
    forall i | 0 < i < |b| ensures b[i] != '-' {
      assert Alnum(b[i]);
    }
  }

  lemma TypesFresh(b: string)
    requires IsBoundary(b)
    ensures Fresh(b, SignedType(b)) && Fresh(b, EncryptedType(b))
  {
    SignedTypeFresh(b);
    EncryptedTypeFresh(b);
  }

  lemma SignedTypeFresh(b: string)
    requires IsBoundary(b)
    ensures Fresh(b, SignedType(b))
  {
    BoundaryDashless(b);
    TypeFresh("multipart/signed; ", "\"; micalg=pgp-sha256; ", "protocol=\"application/pgp-signature\"", b);
  }

  lemma EncryptedTypeFresh(b: string)
    requires IsBoundary(b)
    ensures Fresh(b, EncryptedType(b))
  {
    BoundaryDashless(b);
    TypeFresh("multipart/encrypted; ", "\"; ", "protocol=\"application/pgp-encrypted\"", b);
  }

  lemma TypeFresh(kind: string, x: string, y: string, b: string)
    requires Dashless(b) && b != "" && b[|b| - 1] != '-' && b[0] != '-'
    requires Dashless(kind) && Dashless(x) && Dashless(y) && kind != "" && kind[0] != '-' && kind[|kind| - 1] == ' '
    requires x != "" && x[|x| - 1] == ' ' && x[0] != '-'
    ensures Fresh(b, TYPE + (kind + ("boundary=\"" + (b + (x + y)))))
  {
    DashlessJoin(x, y);
    DashlessJoin(b, x + y);
    DashlessJoin("boundary=\"", b + (x + y));
    DashlessJoin(kind, "boundary=\"" + (b + (x + y)));
    DashlessJoin(TYPE, kind + ("boundary=\"" + (b + (x + y))));
    DashlessFresh(TYPE + (kind + ("boundary=\"" + (b + (x + y)))), b);
  }

  // --- the blank line of a payload part -----------------------------------------------

  predicate IsHeader(h: string) { h != "" && Plain(h) }

  /** The first blank line of a part is the one after its two headers. */
  lemma BlankFound(h1: string, h2: string, rest: string)
    requires IsHeader(h1) && IsHeader(h2)
    ensures Find(CRLF + h1 + CRLF + h2 + BLANK + rest, BLANK, 0) == 4 + |h1| + |h2|
  {
    var s := CRLF + h1 + CRLF + h2 + BLANK + rest;
    var n := 4 + |h1| + |h2|;
    assert s[n..n + 4] == BLANK;
    assert At(s, BLANK, n);
    forall k | 0 <= k < n ensures !At(s, BLANK, k) {
      // a blank line needs a CR at k and at k + 2
      assert s[k] == s[k..k + 4][0] && s[k + 2] == s[k..k + 4][2];
      if k == 0 {
        assert s[2] == h1[0];
      } else if 2 <= k < 2 + |h1| {
        assert s[k] == h1[k - 2];
      } else if k == 2 + |h1| {
        assert s[k + 2] == h2[0];
      } else if k >= 4 + |h1| {
        assert s[k] == h2[k - 4 - |h1|];
      }
    }
  }

  lemma PayloadBack(h1: string, h2: string, payload: string)
    requires IsHeader(h1) && IsHeader(h2)
    ensures PayloadOf(PayloadPart(h1, h2, payload)) == Some(Trim(payload))
  {
    var head := CRLF + h1 + CRLF + h2 + BLANK;
    var rest := Trim(payload) + CRLF;
    var part := PayloadPart(h1, h2, payload);
    assert part == head + rest;
    BlankFound(h1, h2, rest);
    assert part[|head|..] == rest;
    TrimTrims(payload);
    TrimBreak(Trim(payload));
  }

  // --- the round trips -------------------------------------------------------------------

  /** The caller's header lines. */
  function CallerLines(e: Envelope): seq<string> {
    ["From: " + e.from, "To: " + e.to] + (if e.cc == "" then [] else ["Cc: " + e.cc]) + ["Subject: " + e.subject] + e.extra
  }

  ghost predicate HeadersFresh(e: Envelope, b: string) { forall l :: l in CallerLines(e) ==> Fresh(b, l) }

  lemma HeadFresh(e: Envelope, b: string, contentType: string)
    requires IsBoundary(b) && HeadersFresh(e, b) && Fresh(b, contentType)
    ensures Fresh(b, Lines(HeaderLines(e, contentType)) + CRLF)
  {
    VersionHeadersFresh(b);
    var lines := HeaderLines(e, contentType);
    assert lines == CallerLines(e) + ["MIME-Version: 1.0", contentType];
    LinesFresh(lines, b);
    BreakAround(Lines(lines), b);
  }

  lemma FourPieces(w: string, x: string, y: string, z: string, b: string)
    requires IsBoundary(b) && Fresh(b, w) && Fresh(b, x) && Fresh(b, y) && Fresh(b, z)
    ensures SplitOn(JoinWith([w, x, y, z], Delimiter(b)), Delimiter(b)) == [w, x, y, z]
  {
    DelimiterBorderFree(b);
    hide Delimiter, JoinWith, SplitOn, BorderFree;
    SplitUndoesJoin([w, x, y, z], Delimiter(b));
  }

  lemma NoKeyInEnd()
    ensures PubKey([END_PIECE]) == None
  {
    assert [END_PIECE][..0] == [];
  }

  /** At most one line break is dropped at either end. */
  predicate BreaksAround(part: string, lead: string, body: string, trail: string) {
    && part == lead + body + trail && lead in {"", CRLF} && trail in {"", CRLF}
    && (lead == "" ==> !(CRLF <= body + trail))
    && (trail == "" ==> |body| < 2 || body[|body| - 2..] != CRLF)
  }

  lemma BreaksDropped(part: string, lead: string, body: string, trail: string)
    requires BreaksAround(part, lead, body, trail)
    ensures DropBreaks(part) == body
  {
    var a := body + trail;
    assert part == lead + a;
    assert lead == CRLF ==> part[..2] == CRLF && part[2..] == a;
    assert |a| >= 2 ==> (CRLF <= a <==> a[..2] == CRLF);
    assert trail == CRLF ==> a[|body|..] == CRLF && a[..|body|] == body;
    assert trail == "" ==> a == body;
  }

  /** Extracting a signed message gives, byte for byte, the part that was signed, and
      the trimmed signature, whenever the delimiter occurs in no header of the caller's,
      not in the body part and not in the signature. */
  lemma SignedRoundTrip(e: Envelope, b: string, body: string, sig: string)
    requires IsBoundary(b) && HeadersOk(e)
    requires HeadersFresh(e, b) && Fresh(b, body) && Fresh(b, Trim(sig))
    ensures ExtractSigned("multipart/signed", b, ComposeSigned(e, b, body, sig).value) == Ok(Parts(body, Trim(sig), None))
  {
    TypesFresh(b);
    HeadFresh(e, b, SignedType(b));
    BreakAround(body, b);
    SignatureHeadersFresh(b);
    PartFresh(SIG1, SIG2, sig, b);
    EndFresh(b);
    NoKeyInEnd();
    BreaksDropped(CRLF + body + CRLF, CRLF, body, CRLF);
    PlainSignatureHeaders();
    PayloadBack(SIG1, SIG2, sig);
    FindNone(Trim(sig), Delimiter(b));
    hide Lines, HeaderLines, CRLF, PayloadPart, PayloadOf, Trim, DropBreaks, END_PIECE, Delimiter, SIG1, SIG2, SplitOn, Contains, PubKey, SignedType, HeadersOk, IsBoundary, JoinWith;
    var w, x, y := Lines(HeaderLines(e, SignedType(b))) + CRLF, CRLF + body + CRLF, PayloadPart(SIG1, SIG2, sig);
    FourPieces(w, x, y, END_PIECE, b);
    assert [w, x, y, END_PIECE][3..] == [END_PIECE];
  }

  lemma PlainPieces(name: string, x: string, y: string)
    requires IsHeader(name) && Plain(x) && Plain(y)
    ensures IsHeader(name + (x + y))
  {
  }

  lemma PlainTypes()
    ensures Plain("application/pgp-signature; ") && Plain("application/octet-stream; ")
  {
  }

  lemma PlainFirstSignatureHeader()
    ensures IsHeader(SIG1)
  {
    PlainTypes();
    PlainPieces(TYPE, "application/pgp-signature; ", "name=\"signature.asc\"");
  }

  lemma PlainSignatureHeaders()
    ensures IsHeader(SIG1) && IsHeader(SIG2)
  {
    PlainFirstSignatureHeader();
    PlainPieces(DISPOSITION, "attachment; ", "filename=\"signature.asc\"");
  }

  lemma PlainFirstDataHeader()
    ensures IsHeader(DATA1)
  {
    PlainTypes();
    PlainPieces(TYPE, "application/octet-stream; ", "name=\"encrypted.asc\"");
  }

  lemma PlainDataHeaders()
    ensures IsHeader(DATA1) && IsHeader(DATA2)
  {
    PlainFirstDataHeader();
    PlainPieces(DISPOSITION, "inline; ", "filename=\"encrypted.asc\"");
  }

  lemma VersionPartFresh(b: string)
    requires IsBoundary(b)
    ensures Fresh(b, VersionPart())
  {
    VersionHeadersFresh(b);
    hide VER1, VER2, CRLF, BLANK, Delimiter, Contains;
    BreakAround(VER1, b);
    SeparatedByBreak(CRLF + VER1, VER2, b);
    BreakAround(CRLF + VER1 + CRLF + VER2, b);
    SeparatedByBreak(CRLF + VER1 + CRLF + VER2 + CRLF, "Version: 1", b);
    BlankIsTwo(CRLF + VER1 + CRLF + VER2);
    BreakAround(CRLF + VER1 + CRLF + VER2 + BLANK + "Version: 1", b);
    BreakAround(CRLF + VER1 + CRLF + VER2 + BLANK + "Version: 1" + CRLF, b);
    BlankIsTwo(CRLF + VER1 + CRLF + VER2 + BLANK + "Version: 1");
  }

  /** Extracting an encrypted message comes down to finding the armor in the trimmed
      ciphertext, whatever the headers. */
  lemma EncryptedComesBack(e: Envelope, b: string, armor: string)
    requires IsBoundary(b) && HeadersOk(e) && HeadersFresh(e, b) && Fresh(b, Trim(armor))
    ensures ExtractEncrypted("multipart/encrypted", b, ComposeEncrypted(e, b, armor).value) == ArmorOf(Trim(armor))
  {
    TypesFresh(b);
    HeadFresh(e, b, EncryptedType(b));
    VersionPartFresh(b);
    DataHeadersFresh(b);
    PartFresh(DATA1, DATA2, armor, b);
    EndFresh(b);
    PlainDataHeaders();
    PayloadBack(DATA1, DATA2, armor);
    FindNone(Trim(armor), Delimiter(b));
    hide Lines, HeaderLines, CRLF, PayloadPart, PayloadOf, Trim, END_PIECE, Delimiter, DATA1, DATA2, SplitOn, Contains, EncryptedType, HeadersOk, IsBoundary, JoinWith, VersionPart, ArmorOf;
    var w, x, y := Lines(HeaderLines(e, EncryptedType(b))) + CRLF, VersionPart(), PayloadPart(DATA1, DATA2, armor);
    FourPieces(w, x, y, END_PIECE, b);
  }

  /** The trimmed ciphertext is recovered exactly when it is not empty, has a begin
      marker, and either begins with it and ends with the first end marker, or has no
      end marker after the begin marker. */
  lemma EncryptedRoundTrip(e: Envelope, b: string, armor: string)
    requires IsBoundary(b) && HeadersOk(e) && HeadersFresh(e, b) && Fresh(b, Trim(armor))
    ensures var c := Trim(armor);
            var start, end := Find(c, ARMOR_BEGIN, 0), Find(c, ARMOR_END, 0);
            ExtractEncrypted("multipart/encrypted", b, ComposeEncrypted(e, b, armor).value) == Ok(c) <==>
            c != "" && start >= 0 && ((start == 0 && end + |ARMOR_END| == |c|) || end <= start)
  {
    var c := Trim(armor);
    EncryptedComesBack(e, b, armor);
    assert |ARMOR_END| > 0;
    PickIsAll(c, Find(c, ARMOR_BEGIN, 0), Find(c, ARMOR_END, 0), |ARMOR_END|);
    hide Trim, ExtractEncrypted, ComposeEncrypted, PickArmor, ARMOR_BEGIN, ARMOR_END, Fresh, HeadersFresh, HeadersOk, IsBoundary, Find;
  }

  /** When the armor picked from a text is the whole of it. */
  lemma PickIsAll(c: string, start: int, end: int, len: nat)
    requires len > 0 && (end >= 0 ==> end + len <= |c|)
    ensures PickArmor(c, start, end, len) == Ok(c) <==>
            c != "" && start >= 0 && ((start == 0 && end + len == |c|) || end <= start)
  {
    if end > start >= 0 {
      assert |c[start..end + len]| == end + len - start && c[0..|c|] == c;
    }
  }

  // --- reading the headers -----------------------------------------------------------------

  /** The lines up to the first empty one, each ended by a line break. */
  function TopLines(s: string): seq<string>
    decreases |s|
  {
    var k := IndexOf(s, '\r');
    if k == 0 || |s| < k + 2 then [] else [s[..k]] + TopLines(s[k + 2..])
  }

  lemma TopLinesCons(l: string, more: string)
    requires IsHeader(l)
    ensures TopLines(l + CRLF + more) == [l] + TopLines(more)
  {
    var s := l + CRLF + more;
    assert forall i :: 0 <= i < |l| ==> s[i] == l[i];
    assert s[|l|] == '\r';
    assert IndexOf(s, '\r') == |l|;
    assert s[..|l|] == l && s[|l| + 2..] == more;
  }

  lemma TopLinesEnd(rest: string)
    ensures TopLines(CRLF + rest) == []
  {
    assert (CRLF + rest)[0] == '\r';
  }

  /** Header lines written out are read back. */
  lemma {:induction false} TopLinesBack(lines: seq<string>, rest: string)
    requires forall l :: l in lines ==> IsHeader(l)
    ensures TopLines(Lines(lines) + CRLF + rest) == lines
    decreases |lines|
  {
    hide TopLines, CRLF, IsHeader;
    if lines == [] {
      TopLinesEnd(rest);
      assert Lines(lines) + CRLF + rest == CRLF + rest;
    } else {
      TopLinesBack(lines[1..], rest);
      TopLinesCons(lines[0], Lines(lines[1..]) + CRLF + rest);
      ShiftLines(lines[0], lines, rest);
    }
  }

  lemma ShiftLines(l: string, lines: seq<string>, rest: string)
    requires lines != [] && lines[0] == l
    ensures Lines(lines) + CRLF + rest == l + CRLF + (Lines(lines[1..]) + CRLF + rest)
  {
    hide CRLF;
  }

  lemma JoinedStart(pieces: seq<string>, sep: string) returns (rest: string)
    requires pieces != []
    ensures JoinWith(pieces, sep) == pieces[0] + rest
  {
    rest := if |pieces| == 1 then "" else sep + JoinWith(pieces[1..], sep);
  }

  /** What a composed message says in its header, field by field. */
  function HeaderOf(e: Envelope, contentType: string): seq<string> {
    CallerLines(e) + ["MIME-Version: 1.0", "Content-Type: " + contentType]
  }

  /** The header lines of a composed message are the caller's, with the type and boundary
      of its parts; none of them can start a line of its own. */
  lemma HeadersRead(e: Envelope, b: string, body: string, sig: string)
    requires IsBoundary(b) && HeadersOk(e) && forall l :: l in e.extra ==> l != ""
    ensures TopLines(ComposeSigned(e, b, body, sig).value) ==
            HeaderOf(e, MimeType("multipart/signed; ", b, "\"; micalg=pgp-sha256; ", "protocol=\"application/pgp-signature\""))
    ensures TopLines(ComposeEncrypted(e, b, body).value) ==
            HeaderOf(e, MimeType("multipart/encrypted; ", b, "\"; ", "protocol=\"application/pgp-encrypted\""))
  {
    SignedHeadersRead(e, b, body, sig);
    EncryptedHeadersRead(e, b, body);
  }

  function MimeType(kind: string, b: string, x: string, y: string): string { kind + ("boundary=\"" + (b + (x + y))) }

  lemma BoundaryPlain(b: string)
    requires IsBoundary(b)
    ensures Plain(b)
  {
    forall i | 0 <= i < |b| ensures b[i] != '\r' && b[i] != '\n' {
      assert Alnum(b[i]);
    }
  }

  lemma TypePlain(kind: string, b: string, x: string, y: string)
    requires IsBoundary(b) && Plain(kind) && Plain(x) && Plain(y)
    ensures Plain("Content-Type: " + MimeType(kind, b, x, y))
  {
    BoundaryPlain(b);
  }

  lemma HeaderOfRead(e: Envelope, mime: string, pieces: seq<string>, sep: string)
    requires HeadersOk(e) && (forall l :: l in e.extra ==> l != "") && Plain("Content-Type: " + mime)
    requires pieces != [] && pieces[0] == Lines(HeaderLines(e, "Content-Type: " + mime)) + CRLF
    ensures TopLines(JoinWith(pieces, sep)) == HeaderOf(e, mime)
  {
    var lines := HeaderOf(e, mime);
    assert lines == HeaderLines(e, "Content-Type: " + mime);
    forall l | l in lines ensures IsHeader(l) {
      if l in e.extra {
        assert Plain(l);
      }
    }
    hide Lines, HeaderOf, HeaderLines, JoinWith, IsHeader;
    var rest := JoinedStart(pieces, sep);
    TopLinesBack(lines, rest);
  }

  lemma SignedProtocolPlain()
    ensures Plain("protocol=\"application/pgp-signature\"")
  {
  }

  lemma EncryptedProtocolPlain()
    ensures Plain("protocol=\"application/pgp-encrypted\"")
  {
  }

  lemma SignedMime(b: string)
    requires IsBoundary(b)
    ensures var mime := MimeType("multipart/signed; ", b, "\"; micalg=pgp-sha256; ", "protocol=\"application/pgp-signature\"");
            SignedType(b) == "Content-Type: " + mime && Plain("Content-Type: " + mime)
  {
    SignedProtocolPlain();
    TypePlain("multipart/signed; ", b, "\"; micalg=pgp-sha256; ", "protocol=\"application/pgp-signature\"");
    hide Plain;
  }

  lemma EncryptedMime(b: string)
    requires IsBoundary(b)
    ensures var mime := MimeType("multipart/encrypted; ", b, "\"; ", "protocol=\"application/pgp-encrypted\"");
            EncryptedType(b) == "Content-Type: " + mime && Plain("Content-Type: " + mime)
  {
    EncryptedProtocolPlain();
    TypePlain("multipart/encrypted; ", b, "\"; ", "protocol=\"application/pgp-encrypted\"");
    hide Plain;
  }

  lemma SignedHeadersRead(e: Envelope, b: string, body: string, sig: string)
    requires IsBoundary(b) && HeadersOk(e) && forall l :: l in e.extra ==> l != ""
    ensures TopLines(ComposeSigned(e, b, body, sig).value) ==
            HeaderOf(e, MimeType("multipart/signed; ", b, "\"; micalg=pgp-sha256; ", "protocol=\"application/pgp-signature\""))
  {
    SignedMime(b);
    hide HeadersOk, JoinWith, Lines, HeaderLines, Delimiter, CRLF, SignedType, IsBoundary, HeaderOf, Plain, MimeType;
    HeaderOfRead(e, MimeType("multipart/signed; ", b, "\"; micalg=pgp-sha256; ", "protocol=\"application/pgp-signature\""),
      SignedPieces(e, b, body, sig), Delimiter(b));
  }

  lemma EncryptedHeadersRead(e: Envelope, b: string, armor: string)
    requires IsBoundary(b) && HeadersOk(e) && forall l :: l in e.extra ==> l != ""
    ensures TopLines(ComposeEncrypted(e, b, armor).value) ==
            HeaderOf(e, MimeType("multipart/encrypted; ", b, "\"; ", "protocol=\"application/pgp-encrypted\""))
  {
    EncryptedMime(b);
    hide HeadersOk, JoinWith, Lines, HeaderLines, Delimiter, CRLF, EncryptedType, IsBoundary, HeaderOf, Plain, MimeType;
    HeaderOfRead(e, MimeType("multipart/encrypted; ", b, "\"; ", "protocol=\"application/pgp-encrypted\""),
      EncryptedPieces(e, b, armor), Delimiter(b));
  }

  // --- messages composed elsewhere ---------------------------------------------------------

  /** sep stands first where h ends when it is put behind h. */
  ghost predicate EndsHead(h: string, sep: string) { forall k :: 0 <= k < |h| ==> !At(h + sep, sep, k) }

  lemma HeadFound(h: string, sep: string, rest: string)
    requires EndsHead(h, sep)
    ensures Find(h + sep + rest, sep, 0) == |h| && (h + sep + rest)[|h| + |sep|..] == rest
  {
    var s := h + sep + rest;
    assert At(s, sep, |h|);
    forall k | 0 <= k < |h| ensures !At(s, sep, k) {
      AtInside(h + sep, rest, sep, k);
    }
  }

  /** The payload of a part is the trimmed text behind its first blank line, in CRLF or,
      when there is none of those, in LF; a part without a blank line has none. */
  lemma PayloadExact(part: string, h: string, sep: string, rest: string)
    requires part == h + sep + rest && EndsHead(h, sep)
    requires sep == BLANK || (sep == "\n\n" && !Contains(part, BLANK))
    ensures PayloadOf(part) == Some(Trim(rest))
  {
    HeadFound(h, sep, rest);
    if sep != BLANK {
      FindNone(part, BLANK);
    }
  }

  lemma PayloadNone(part: string)
    ensures PayloadOf(part).None? <==> !Contains(part, BLANK) && !Contains(part, "\n\n")
  {
    assert Find(part, BLANK, 0) >= 0 ==> At(part, BLANK, Find(part, BLANK, 0));
    assert Find(part, "\n\n", 0) >= 0 ==> At(part, "\n\n", Find(part, "\n\n", 0));
  }

  lemma PartLacks(a: string, x: string, c: string, pat: string)
    requires !Contains(a + x + c, pat)
    ensures !Contains(x, pat)
  {
    forall k ensures !At(x, pat, k) {
      if 0 <= k && k + |pat| <= |x| {
        assert (a + x + c)[|a| + k..|a| + k + |pat|] == x[k..k + |pat|];
        assert !At(a + x + c, pat, |a| + k);
      }
    }
  }

  lemma TrimFresh(h: string, sep: string, rest: string, b: string)
    requires Fresh(b, h + sep + rest)
    ensures Fresh(b, Trim(rest))
  {
    var a, c := TrimParts(rest);
    assert h + sep + rest == h + sep + rest + "";
    PartLacks(h + sep, rest, "", Delimiter(b));
    PartLacks(a, Trim(rest), c, Delimiter(b));
  }

  /** No later part names the media type of keys. */
  ghost predicate LastKey(parts: seq<string>, k: nat) {
    k < |parts| && Contains(parts[k], KEYS) && forall i :: k < i < |parts| ==> !Contains(parts[i], KEYS)
  }

  lemma {:induction false} KeyFound(parts: seq<string>, k: nat, h: string, key: string)
    requires LastKey(parts, k) && parts[k] == h + BLANK + key && EndsHead(h, BLANK)
    ensures PubKey(parts) == Some(Trim(key))
    decreases |parts|
  {
    var n := |parts| - 1;
    if k == n {
      HeadFound(h, BLANK, key);
      assert Find(parts[k], KEYS, 0) >= 0;
    } else {
      FindNone(parts[n], KEYS);
      KeyFound(parts[..n], k, h, key);
    }
  }

  lemma {:induction false} NoKeyFound(parts: seq<string>)
    requires forall i :: 0 <= i < |parts| ==> !Contains(parts[i], KEYS)
    ensures PubKey(parts).None?
    decreases |parts|
  {
    if parts != [] {
      FindNone(parts[|parts| - 1], KEYS);
      NoKeyFound(parts[..|parts| - 1]);
    }
  }

  /** The pieces between delimiters: a preamble, the signed part with or without line breaks
      around it, the signature behind a header, and more parts, the delimiter being in none. */
  ghost predicate SignedForm(pieces: seq<string>, b: string, body: string, h: string, sep: string, sig: string) {
    && |pieces| >= 3 && (forall i :: 0 <= i < |pieces| ==> Fresh(b, pieces[i]))
    && (exists lead, trail :: BreaksAround(pieces[1], lead, body, trail)) && pieces[2] == h + sep + sig && EndsHead(h, sep)
    && (sep == BLANK || (sep == "\n\n" && !Contains(pieces[2], BLANK)))
  }

  /** Any message of that form, by whomever it was composed, gives back its signed part
      byte for byte, its trimmed signature, and the key in the parts behind it. */
  lemma SignedFormRead(pieces: seq<string>, b: string, body: string, h: string, sep: string, sig: string)
    requires BorderFree(Delimiter(b)) && b != "" && SignedForm(pieces, b, body, h, sep, sig)
    ensures ExtractSigned("multipart/signed", b, JoinWith(pieces, Delimiter(b))) ==
            Ok(Parts(body, Trim(sig), PubKey(pieces[3..])))
  {
    assert Fresh(b, pieces[2]);
    SplitUndoesJoin(pieces, Delimiter(b));
    PayloadExact(pieces[2], h, sep, sig);
    var lead, trail :| BreaksAround(pieces[1], lead, body, trail);
    BreaksDropped(pieces[1], lead, body, trail);
    TrimFresh(h, sep, sig, b);
    FindNone(Trim(sig), Delimiter(b));
    hide JoinWith, SplitOn, Delimiter, PayloadOf, DropBreaks, Trim, PubKey;
  }

  /** Exactly what is refused: another media type, no boundary, fewer than three pieces, or a
      signature part without a blank line. */
  lemma SignedRefused(mediaType: string, b: string, raw: string, pieces: seq<string>)
    requires BorderFree(Delimiter(b)) && pieces != [] && (forall i :: 0 <= i < |pieces| ==> Fresh(b, pieces[i]))
    requires raw == JoinWith(pieces, Delimiter(b))
    ensures ExtractSigned(mediaType, b, raw).Error? <==>
            mediaType != "multipart/signed" || b == "" || |pieces| < 3
            || (!Contains(pieces[2], BLANK) && !Contains(pieces[2], "\n\n"))
  {
    SplitUndoesJoin(pieces, Delimiter(b));
    if |pieces| >= 3 {
      PayloadNone(pieces[2]);
    }
    hide JoinWith, SplitOn, Delimiter, PayloadOf, DropBreaks, Trim, PubKey, Contains, CutAt;
  }

  /** An encrypted message is refused for another media type, no boundary, fewer than three
      pieces or an empty payload; a part without a blank line is all payload. */
  lemma EncryptedParts(mediaType: string, b: string, raw: string, pieces: seq<string>)
    requires BorderFree(Delimiter(b)) && pieces != [] && (forall i :: 0 <= i < |pieces| ==> Fresh(b, pieces[i]))
    requires raw == JoinWith(pieces, Delimiter(b))
    ensures ExtractEncrypted(mediaType, b, raw) ==
            if mediaType != "multipart/encrypted" || b == "" || |pieces| < 3 then Error
            else ArmorOf(if PayloadOf(pieces[2]).Some? then PayloadOf(pieces[2]).value else Trim(pieces[2]))
  {
    SplitUndoesJoin(pieces, Delimiter(b));
    if |pieces| >= 3 {
      var p := if PayloadOf(pieces[2]).Some? then PayloadOf(pieces[2]).value else Trim(pieces[2]);
      PayloadFresh(pieces[2], b);
      FindNone(p, Delimiter(b));
    }
    hide JoinWith, SplitOn, Delimiter, PayloadOf, Trim, Contains, ArmorOf;
  }

  lemma PayloadFresh(part: string, b: string)
    requires Fresh(b, part)
    ensures Fresh(b, Trim(part)) && (PayloadOf(part).Some? ==> Fresh(b, PayloadOf(part).value))
  {
    hide Trim, Contains, Find, Delimiter, Fresh, BLANK;
    WholeFresh(part, b);
    BehindFresh(part, BLANK, b);
    BehindFresh(part, "\n\n", b);
    BlankLength();
  }

  lemma BlankLength()
    ensures |BLANK| == 4
  {
  }

  lemma WholeFresh(part: string, b: string)
    requires Fresh(b, part)
    ensures Fresh(b, Trim(part))
  {
    assert part == "" + "" + part;
    hide Trim, Contains, Find, Delimiter, Fresh;
    TrimFresh("", "", part, b);
  }

  lemma BehindFresh(part: string, sep: string, b: string)
    requires Fresh(b, part)
    ensures var i := Find(part, sep, 0); i >= 0 ==> Fresh(b, Trim(part[i + |sep|..]))
  {
    var i := Find(part, sep, 0);
    if i >= 0 {
      assert part == part[..i] + part[i..i + |sep|] + part[i + |sep|..] && part[i..i + |sep|] == sep;
      hide Trim, Contains, Find, Delimiter, Fresh;
      TrimFresh(part[..i], sep, part[i + |sep|..], b);
    }
  }

  /** With a key attached, in the last part that says so, the key comes back too. */
  lemma AttachedKeyRead(pieces: seq<string>, b: string, body: string, h: string, sep: string, sig: string,
                        k: nat, kh: string, key: string)
    requires BorderFree(Delimiter(b)) && b != "" && SignedForm(pieces, b, body, h, sep, sig)
    requires 3 <= k && LastKey(pieces, k) && pieces[k] == kh + BLANK + key && EndsHead(kh, BLANK)
    ensures ExtractSigned("multipart/signed", b, JoinWith(pieces, Delimiter(b))) ==
            Ok(Parts(body, Trim(sig), Some(Trim(key))))
  {
    SignedFormRead(pieces, b, body, h, sep, sig);
    var more := pieces[3..];
    assert more[k - 3] == pieces[k] && forall i :: k - 3 < i < |more| ==> more[i] == pieces[i + 3];
    hide ExtractSigned, SignedForm, Contains;
    KeyFound(more, k - 3, kh, key);
  }

  /** Without one, no key is made up. */
  lemma NoKeyRead(pieces: seq<string>, b: string, body: string, h: string, sep: string, sig: string)
    requires BorderFree(Delimiter(b)) && b != "" && SignedForm(pieces, b, body, h, sep, sig)
    requires forall i :: 3 <= i < |pieces| ==> !Contains(pieces[i], KEYS)
    ensures ExtractSigned("multipart/signed", b, JoinWith(pieces, Delimiter(b))) == Ok(Parts(body, Trim(sig), None))
  {
    SignedFormRead(pieces, b, body, h, sep, sig);
    hide ExtractSigned, SignedForm, Contains;
    NoKeyFound(pieces[3..]);
  }

  /** From a text around an armored block exactly the block is taken, from the first begin
      marker to the first end marker; a text without a begin marker goes to the multipart
      reader, and an empty one is an error. */
  lemma ArmorExact(c: string, pre: string, mid: string, post: string)
    ensures c == pre + ARMOR_BEGIN + mid + ARMOR_END + post
            && Find(c, ARMOR_BEGIN, 0) == |pre| && Find(c, ARMOR_END, 0) == |pre + ARMOR_BEGIN + mid| ==>
              ArmorOf(c) == Ok(ARMOR_BEGIN + mid + ARMOR_END)
    ensures ArmorOf(c).NeedsMultipart? <==> c != "" && !Contains(c, ARMOR_BEGIN)
    ensures ArmorOf(c).Error? <==> c == ""
  {
    assert |ARMOR_BEGIN| > 0;
    hide ARMOR_BEGIN, ARMOR_END, Find;
    FoundExact(c, ARMOR_BEGIN);
    BlockTaken(c, pre, ARMOR_BEGIN, mid, ARMOR_END, post);
    hide Contains;
  }

  lemma FoundExact(s: string, pat: string)
    ensures Find(s, pat, 0) >= 0 <==> Contains(s, pat)
  {
    assert Find(s, pat, 0) >= 0 ==> At(s, pat, Find(s, pat, 0));
  }

  lemma BlockTaken(c: string, pre: string, begin: string, mid: string, end: string, post: string)
    requires begin != ""
    ensures c == pre + begin + mid + end + post ==>
              PickArmor(c, |pre|, |pre + begin + mid|, |end|) == Ok(begin + mid + end)
  {
    var block := begin + mid + end;
    if c == pre + begin + mid + end + post {
      assert c == pre + block + post && |pre + begin + mid| > |pre|;
      assert c[|pre|..|pre| + |block|] == block;
    }
  }

  /** A character of the delimiter that a text lacks keeps the delimiter out of it. */
  lemma LacksBoundary(s: string, b: string, i: nat)
    requires i < |b| && b[i] !in s
    ensures Fresh(b, s)
  {
    var d := Delimiter(b);
    forall k ensures !At(s, d, k) {
      if 0 <= k && k + |d| <= |s| {
        assert s[k..k + |d|][2 + i] == s[k + 2 + i];
      }
    }
  }

  const CLEARTEXT_THEN_ARMOR := "x" + (ARMOR_BEGIN + ARMOR_END)

  /** Two markers that differ in their sixth character, behind one more character. */
  lemma FoundBehindOne(x: char, begin: string, end: string)
    requires |begin| > 5 && |end| > 5 && begin[5] != end[5] && begin[0] != x && end[0] != x
    ensures var c := [x] + (begin + end); Find(c, begin, 0) == 1 && Find(c, end, 0) > 1
  {
    var c := [x] + (begin + end);
    PairPlaces(x, begin, end);
    hide At, Find;
    FindIs(c, begin, 1);
    FindBeyond(c, end, 1, 1 + |begin|);
  }

  lemma PairPlaces(x: char, begin: string, end: string)
    requires |begin| > 5 && |end| > 5 && begin[5] != end[5] && begin[0] != x && end[0] != x
    ensures var c := [x] + (begin + end);
            At(c, begin, 1) && At(c, end, 1 + |begin|) && !At(c, begin, 0) && !At(c, end, 0) && !At(c, end, 1)
  {
    var c := [x] + (begin + end);
    AtBetween([x], begin, end);
    AtBetween([x] + begin, end, "");
    assert c == [x] + begin + end && c == ([x] + begin) + end + "";
    assert c[0] == x && c[6] == begin[5];
    NotAt(c, begin, 0, 0);
    NotAt(c, end, 0, 0);
    NotAt(c, end, 1, 5);
    hide At;
  }

  lemma FindIs(s: string, pat: string, n: nat)
    requires At(s, pat, n) && forall k :: 0 <= k < n ==> !At(s, pat, k)
    ensures Find(s, pat, 0) == n
  {
    hide At;
  }

  lemma FindBeyond(s: string, pat: string, n: nat, m: nat)
    requires At(s, pat, m) && forall k :: 0 <= k <= n ==> !At(s, pat, k)
    ensures Find(s, pat, 0) > n
  {
    hide At;
  }

  lemma AtBetween(a: string, pat: string, b: string)
    ensures At(a + pat + b, pat, |a|)
  {
  }

  lemma NotAt(s: string, pat: string, i: nat, k: nat)
    requires k < |pat| && i + k < |s| && s[i + k] != pat[k]
    ensures !At(s, pat, i)
  {
    assert i + |pat| <= |s| ==> s[i..i + |pat|][k] == s[i + k];
  }

  lemma ArmorBehindText()
    ensures var c := CLEARTEXT_THEN_ARMOR;
            && Trim(c) == c && '0' !in c
            && Find(c, ARMOR_BEGIN, 0) == 1 && Find(c, ARMOR_END, 0) > 1
  {
    var begin, end := ARMOR_BEGIN, ARMOR_END;
    assert begin[5] == 'B' && end[5] == 'E' && end[|end| - 1] == '-' && '0' !in begin && '0' !in end;
    hide ARMOR_BEGIN, ARMOR_END, Find;
    FoundBehindOne('x', begin, end);
    var c := CLEARTEXT_THEN_ARMOR;
    assert c[|c| - 1] == end[|end| - 1];
  }

  const SMALL := Envelope("a", "b", "", "s", [])

  lemma SmallHeadersFresh()
    ensures HeadersOk(SMALL) && HeadersFresh(SMALL, "0")
  {
    forall l | l in CallerLines(SMALL) ensures Fresh("0", l) {
      LacksBoundary(l, "0", 0);
    }
  }

  /** Text in front of the armor is lost. */
  lemma TextBeforeArmorCounterexample()
    ensures var b, c := "0", CLEARTEXT_THEN_ARMOR;
            && IsBoundary(b) && HeadersOk(SMALL) && HeadersFresh(SMALL, b) && Fresh(b, Trim(c)) && Trim(c) == c
            && ExtractEncrypted("multipart/encrypted", b, ComposeEncrypted(SMALL, b, c).value) != Ok(c)
  {
    var b, c := "0", CLEARTEXT_THEN_ARMOR;
    ArmorBehindText();
    SmallHeadersFresh();
    LacksBoundary(c, b, 0);
    hide Trim, ExtractEncrypted, ComposeEncrypted, Fresh, CLEARTEXT_THEN_ARMOR, HeadersOk, HeadersFresh, SMALL, Find, ARMOR_BEGIN, ARMOR_END;
    EncryptedRoundTrip(SMALL, b, c);
  }
}
