/** The body part that gets signed: canonical line breaks, and a MIME part of the
    text alone or of the text and base64 attachments. */
module SignedBody {
  import opened Basics
  import opened Text
  import opened PgpMime
  import L = Lines

  // --- canonical line breaks (RFC 3156, section 5) ----------------------------------------

  /** Every CRLF becomes LF. */
  function ToLf(s: string): string {
    if s == "" then ""
    else if CRLF <= s then "\n" + ToLf(s[2..])
    else [s[0]] + ToLf(s[1..])
  }

  function Canonical(text: string): string { Replace(ToLf(text), '\n', CRLF) }

  /** Every LF stands right behind a CR; before: the character in front of s. */
  predicate LfAfterCr(s: string, before: char) {
    s == "" || ((s[0] == '\n' ==> before == '\r') && LfAfterCr(s[1..], s[0]))
  }

  lemma CrLfFirst(rest: string)
    ensures ToLf(CRLF + rest) == "\n" + ToLf(rest)
  {
    assert (CRLF + rest)[2..] == rest;
  }

  lemma CrLfPrefix(c: char, rest: string)
    ensures CRLF <= [c] + rest <==> c == '\r' && rest != "" && rest[0] == '\n'
  {
    var s := [c] + rest;
    assert |s| >= 2 ==> (s[..2] == CRLF <==> s[0] == '\r' && s[1] == '\n');
  }

  lemma OtherFirst(c: char, rest: string)
    requires c == '\r' ==> rest == "" || rest[0] != '\n'
    ensures ToLf([c] + rest) == [c] + ToLf(rest)
  {
    assert ([c] + rest)[1..] == rest;
    CrLfPrefix(c, rest);
  }

  /** No text of expanded line breaks begins with a bare LF. */
  lemma ExpandedStart(s: string)
    ensures var t := Replace(s, '\n', CRLF); t == "" || t[0] != '\n'
  {
  }

  lemma {:induction false} LfRoundTrip(s: string)
    ensures ToLf(Replace(s, '\n', CRLF)) == s
  {
    if s != "" {
      LfRoundTrip(s[1..]);
      var rest := Replace(s[1..], '\n', CRLF);
      if s[0] == '\n' {
        CrLfFirst(rest);
      } else {
        ExpandedStart(s[1..]);
        OtherFirst(s[0], rest);
      }
      assert s == [s[0]] + s[1..];
    }
  }

  lemma LfAfterCrCons(c: char, s: string, before: char)
    ensures LfAfterCr([c] + s, before) <==> (c == '\n' ==> before == '\r') && LfAfterCr(s, c)
  {
    assert ([c] + s)[1..] == s;
  }

  lemma {:induction false} ExpandedIsCanonical(s: string, before: char)
    ensures LfAfterCr(Replace(s, '\n', CRLF), before)
  {
    if s != "" {
      var rest := Replace(s[1..], '\n', CRLF);
      if s[0] == '\n' {
        ExpandedIsCanonical(s[1..], '\n');
        LfAfterCrCons('\n', rest, '\r');
        LfAfterCrCons('\r', ['\n'] + rest, before);
        assert CRLF + rest == ['\r'] + (['\n'] + rest);
      } else {
        ExpandedIsCanonical(s[1..], s[0]);
        LfAfterCrCons(s[0], rest, before);
      }
    }
  }

  /** Two replacements leave a text alone in which every LF has its CR. */
  lemma {:induction false} CanonicalStays(s: string, before: char)
    requires LfAfterCr(s, before) && (s != "" ==> s[0] != '\n')
    ensures Canonical(s) == s
    decreases |s|
  {
    if s != "" {
      if CRLF <= s {
        var rest := s[2..];
        assert s == CRLF + rest && s[1..][1..] == rest && s[1..][0] == '\n';
        assert rest != "" && rest[0] == '\n' ==> !LfAfterCr(rest, '\n');
        CanonicalStays(rest, '\n');
        CrLfFirst(rest);
        assert ("\n" + ToLf(rest))[1..] == ToLf(rest);
      } else {
        var rest := s[1..];
        assert s == [s[0]] + rest;
        CrLfPrefix(s[0], rest);
        CanonicalStays(rest, s[0]);
        assert ([s[0]] + ToLf(rest))[1..] == ToLf(rest);
      }
    }
  }

  /** In the canonical text every LF follows a CR; a text is its own canonical form
      exactly when that is so in it; and its lines are those of the original. */
  lemma CanonicalExact(s: string)
    ensures LfAfterCr(Canonical(s), '\0')
    ensures Canonical(s) == s <==> LfAfterCr(s, '\0')
    ensures ToLf(Canonical(s)) == ToLf(s) && Canonical(Canonical(s)) == Canonical(s)
  {
    LfRoundTrip(ToLf(s));
    ExpandedIsCanonical(ToLf(s), '\0');
    if LfAfterCr(s, '\0') {
      CanonicalStays(s, '\0');
    }
  }

  // --- parts -----------------------------------------------------------------------------

  const LINE := 76
  const TEXT_TYPE := TYPE + ("text/plain; " + "charset=utf-8")
  const SEVEN_BIT := "Content-Transfer-Encoding: 7bit"
  const BASE64 := "Content-Transfer-Encoding: base64"

  /** The body part of a message without attachments. */
  function PlainPart(text: string): string {
    TEXT_TYPE + CRLF + SEVEN_BIT + BLANK + Canonical(text) + CRLF
  }

  /** encoded: the contents in base64. disposition: the header value made of the name. */
  datatype Attachment = Attachment(contentType: string, filename: string, disposition: string, encoded: string)

  predicate HeaderOk(a: Attachment) { Plain(a.contentType) && Plain(a.filename) }

  /** The encoding cut into lines of at most 76 characters. */
  function Chunks(e: string): seq<string>
    decreases |e|
  {
    if e == "" then [] else if |e| <= LINE then [e] else [e[..LINE]] + Chunks(e[LINE..])
  }

  /** Header lines, each behind its line break. */
  function Head(lines: seq<string>): string {
    if lines == [] then "" else CRLF + lines[0] + Head(lines[1..])
  }

  /** What stands between two delimiters: headers, a blank line, the payload. */
  function Piece(headers: seq<string>, payload: string): string { Head(headers) + BLANK + (payload + CRLF) }

  function TextPiece(text: string): string { Piece([TEXT_TYPE], Canonical(text) + CRLF) }

  function Headers(a: Attachment): seq<string> { [DISPOSITION + a.disposition, BASE64, TYPE + a.contentType] }

  function AttachmentPiece(a: Attachment): string { Piece(Headers(a), Lines(Chunks(a.encoded))) }

  function AttachmentPieces(atts: seq<Attachment>): seq<string> {
    if atts == [] then [] else [AttachmentPiece(atts[0])] + AttachmentPieces(atts[1..])
  }

  function MixedHead(m: string): string { TYPE + ("multipart/mixed; boundary=" + m) + BLANK }

  function MixedPieces(m: string, text: string, atts: seq<Attachment>): seq<string> {
    [MixedHead(m), TextPiece(text)] + AttachmentPieces(atts) + [END_PIECE]
  }

  /** None when an attachment's header would carry a line break. m: the inner boundary.
      The source makes a text with attachments canonical twice, which is once. */
  function BodyPart(m: string, text: string, atts: seq<Attachment>): Option<string> {
    if atts == [] then Some(PlainPart(text))
    else if exists i :: 0 <= i < |atts| && !HeaderOk(atts[i]) then None
    else Some(JoinWith(MixedPieces(m, text, atts), Delimiter(m)))
  }

  // --- reading the parts back ----------------------------------------------------------------

  /** What follows the first blank line, without its last line break. */
  function PayloadIn(piece: string): Option<string> {
    var i := Find(piece, BLANK, 0);
    if i < 0 || |piece| < i + 6 then None else Some(piece[i + 4..|piece| - 2])
  }

  function TextIn(piece: string): Option<string> {
    var p := PayloadIn(piece);
    if p.None? || |p.value| < 2 then None else Some(p.value[..|p.value| - 2])
  }

  /** s without its line breaks. */
  function Unbroken(s: string): string { Without(Without(s, '\r'), '\n') }

  /** The encoding in an attachment's piece, its line breaks dropped. */
  function EncodedIn(piece: string): Option<string> {
    var p := PayloadIn(piece);
    if p.None? then None else Some(Unbroken(p.value))
  }

  function AllEncodedIn(pieces: seq<string>): Option<seq<string>> {
    if pieces == [] then Some([])
    else
      var first, rest := EncodedIn(pieces[0]), AllEncodedIn(pieces[1..]);
      if first.None? || rest.None? then None else Some([first.value] + rest.value)
  }

  /** The text and the encoded attachments of a multipart/mixed part. */
  function ReadMixed(m: string, part: string): Option<(string, seq<string>)>
    requires m != ""
  {
    var pieces := SplitOn(part, Delimiter(m));
    if |pieces| < 3 then None
    else
      var text, encs := TextIn(pieces[1]), AllEncodedIn(pieces[2..|pieces| - 1]);
      if text.None? || encs.None? then None else Some((text.value, encs.value))
  }

  /** In header lines no CR is followed, two characters on, by another. */
  predicate NoBlankLine(s: string) { forall k :: 0 <= k < |s| && s[k] == '\r' ==> k + 2 < |s| && s[k + 2] != '\r' }

  lemma NoBlankCons(line: string, rest: string)
    requires IsHeader(line) && NoBlankLine(rest)
    ensures NoBlankLine(CRLF + line + rest)
  {
    var s := CRLF + line + rest;
    forall k | 0 <= k < |s| ensures s[k] == '\r' ==> k + 2 < |s| && s[k + 2] != '\r' {
      if k == 0 {
        assert s[2] == line[0];
      } else if 2 <= k < 2 + |line| {
        assert s[k] == line[k - 2];
      } else if k >= 2 + |line| {
        assert s[k] == rest[k - 2 - |line|];
        assert k + 2 < |s| ==> s[k + 2] == rest[k - |line|];
      }
    }
  }

  lemma {:induction false} HeadHasNoBlank(lines: seq<string>)
    requires forall l :: l in lines ==> IsHeader(l)
    ensures NoBlankLine(Head(lines))
  {
    if lines != [] {
      HeadHasNoBlank(lines[1..]);
      hide NoBlankLine, IsHeader;
      NoBlankCons(lines[0], Head(lines[1..]));
    }
  }

  /** The first blank line is the one behind the headers. */
  lemma BlankBehindHead(head: string, rest: string)
    requires NoBlankLine(head)
    ensures Find(head + BLANK + rest, BLANK, 0) == |head|
  {
    var s := head + BLANK + rest;
    assert s[|head|..|head| + 4] == BLANK && At(s, BLANK, |head|);
    forall k | 0 <= k < |head| ensures !At(s, BLANK, k) {
      assert s[k] == s[k..k + 4][0] && s[k + 2] == s[k..k + 4][2];
      assert s[k] == head[k] && (k + 2 < |head| ==> s[k + 2] == head[k + 2]);
    }
  }

  lemma PieceRead(headers: seq<string>, payload: string)
    requires forall l :: l in headers ==> IsHeader(l)
    ensures PayloadIn(Piece(headers, payload)) == Some(payload)
  {
    var head := Head(headers);
    HeadHasNoBlank(headers);
    BlankBehindHead(head, payload + CRLF);
    var s := Piece(headers, payload);
    assert s == head + BLANK + (payload + CRLF);
    assert s[|head| + 4..|s| - 2] == payload;
  }

  lemma NoBlankBehind(line: string, rest: string)
    requires Plain(line) && NoBlankLine(rest)
    ensures NoBlankLine(line + rest)
  {
    var s := line + rest;
    forall k | 0 <= k < |s| ensures s[k] == '\r' ==> k + 2 < |s| && s[k + 2] != '\r' {
      if k < |line| {
        assert s[k] == line[k];
      } else {
        assert s[k] == rest[k - |line|];
        assert k + 2 < |s| ==> s[k + 2] == rest[k + 2 - |line|];
      }
    }
  }

  lemma EncodingHeaders()
    ensures IsHeader(SEVEN_BIT) && IsHeader(BASE64)
  {
  }

  lemma TextHeader()
    ensures IsHeader(TEXT_TYPE)
  {
    PlainPieces(TYPE, "text/plain; ", "charset=utf-8");
  }

  lemma PlainHead()
    ensures NoBlankLine(TEXT_TYPE + CRLF + SEVEN_BIT)
  {
    TextHeader();
    EncodingHeaders();
    assert Plain(TEXT_TYPE);
    hide SEVEN_BIT, BASE64, NoBlankLine, Plain;
    HeadHasNoBlank([SEVEN_BIT]);
    var line := TEXT_TYPE;
    hide TEXT_TYPE;
    assert Head([SEVEN_BIT]) == CRLF + SEVEN_BIT + "" by {
      assert [SEVEN_BIT][1..] == [];
    }
    NoBlankBehind(line, Head([SEVEN_BIT]));
    assert line + Head([SEVEN_BIT]) == line + CRLF + SEVEN_BIT;
  }

  lemma PlainRead(text: string)
    ensures PayloadIn(PlainPart(text)) == Some(Canonical(text))
  {
    PlainHead();
    hide TEXT_TYPE, SEVEN_BIT, NoBlankLine, Canonical;
    var head, rest, s := TEXT_TYPE + CRLF + SEVEN_BIT, Canonical(text) + CRLF, PlainPart(text);
    BlankBehindHead(head, rest);
    assert s == head + BLANK + rest;
    assert s[|head| + 4..|s| - 2] == Canonical(text);
  }

  // --- attachments ------------------------------------------------------------------------

  predicate IsBase64(e: string) { forall i :: 0 <= i < |e| ==> Alnum(e[i]) || e[i] in {'+', '/', '='} }

  /** An encoded attachment is cut into lines of 76 characters, the last one perhaps shorter
      and none empty, and nothing is lost. */
  lemma {:induction false} ChunksExact(e: string)
    ensures forall i :: 0 <= i < |Chunks(e)| ==> 0 < |Chunks(e)[i]| <= 76 && (i < |Chunks(e)| - 1 ==> |Chunks(e)[i]| == 76)
    ensures L.Join(Chunks(e)) == e
    decreases |e|
  {
    if |e| > LINE {
      ChunksExact(e[LINE..]);
      assert Chunks(e)[1..] == Chunks(e[LINE..]);
    } else if e != "" {
      assert Chunks(e)[1..] == [];
    }
  }

  lemma {:induction false} ChunksBase64(e: string)
    requires IsBase64(e)
    ensures forall c :: c in Chunks(e) ==> IsBase64(c)
    decreases |e|
  {
    if |e| > LINE {
      ChunksBase64(e[LINE..]);
    }
  }

  lemma {:induction false} WithoutAppend(a: string, b: string, x: char)
    ensures Without(a + b, x) == Without(a, x) + Without(b, x)
  {
    if a == "" {
      assert a + b == b;
    } else {
      assert (a + b)[0] == a[0] && (a + b)[1..] == a[1..] + b;
      WithoutAppend(a[1..], b, x);
    }
  }

  lemma UnbrokenAppend(a: string, b: string)
    ensures Unbroken(a + b) == Unbroken(a) + Unbroken(b)
  {
    WithoutAppend(a, b, '\r');
    WithoutAppend(Without(a, '\r'), Without(b, '\r'), '\n');
  }

  lemma UnbrokenLine(line: string)
    requires IsBase64(line)
    ensures Unbroken(line + CRLF) == line
  {
    UnbrokenAppend(line, CRLF);
    WithoutGone(line, '\r');
    WithoutGone(line, '\n');
    assert CRLF[1..] == "\n" && "\n"[1..] == "";
  }

  /** Dropping the line breaks gives the encoding back. */
  lemma {:induction false} ChunksBack(e: string)
    requires IsBase64(e)
    ensures Unbroken(Lines(Chunks(e))) == e
    decreases |e|
  {
    if e != "" {
      var line, rest := if |e| <= LINE then e else e[..LINE], if |e| <= LINE then "" else e[LINE..];
      assert Chunks(e) == [line] + Chunks(rest);
      ChunksBack(rest);
      UnbrokenLine(line);
      assert Chunks(e)[1..] == Chunks(rest);
      UnbrokenAppend(line + CRLF, Lines(Chunks(rest)));
      assert line + rest == e;
    }
  }

  lemma AttachmentHeaders(a: Attachment)
    requires Plain(a.contentType) && Plain(a.disposition)
    ensures forall l :: l in Headers(a) ==> IsHeader(l)
  {
    EncodingHeaders();
    PlainPieces(TYPE, a.contentType, "");
    PlainPieces(DISPOSITION, a.disposition, "");
    assert a.contentType + "" == a.contentType && a.disposition + "" == a.disposition;
  }

  lemma EncodedRead(a: Attachment)
    requires IsBase64(a.encoded) && HeaderOk(a) && Plain(a.disposition)
    ensures EncodedIn(AttachmentPiece(a)) == Some(a.encoded)
  {
    EncodingHeaders();
    AttachmentHeaders(a);
    hide BASE64, IsHeader, Piece, Headers;
    PieceRead(Headers(a), Lines(Chunks(a.encoded)));
    ChunksBack(a.encoded);
  }

  /** The outer delimiter, or the inner one, occurs in nothing the caller gave. */
  ghost predicate FreshIn(m: string, a: Attachment) {
    && IsBase64(a.encoded) && HeaderOk(a) && Plain(a.disposition)
    && Fresh(m, DISPOSITION + a.disposition) && Fresh(m, TYPE + a.contentType)
  }

  function Encodeds(atts: seq<Attachment>): seq<string> {
    if atts == [] then [] else [atts[0].encoded] + Encodeds(atts[1..])
  }

  lemma {:induction false} EncodedsRead(m: string, atts: seq<Attachment>)
    requires forall a :: a in atts ==> FreshIn(m, a)
    ensures AllEncodedIn(AttachmentPieces(atts)) == Some(Encodeds(atts))
  {
    if atts != [] {
      EncodedsRead(m, atts[1..]);
      assert atts[0] in atts;
      EncodedRead(atts[0]);
      assert AttachmentPieces(atts)[1..] == AttachmentPieces(atts[1..]);
    }
  }

  /** The headers of a piece. */
  function HeadersIn(piece: string): seq<string> { if |piece| < 2 then [] else TopLines(piece[2..]) }

  lemma {:induction false} HeadIsLines(lines: seq<string>)
    ensures Head(lines) + CRLF == CRLF + Lines(lines)
  {
    if lines != [] {
      HeadIsLines(lines[1..]);
      hide Lines, Head;
      var l, h, more := lines[0], Head(lines[1..]), Lines(lines[1..]);
      assert Head(lines) == CRLF + l + h && Lines(lines) == l + CRLF + more by { HeadCons(lines); }
      assert CRLF + l + h + CRLF == CRLF + l + (h + CRLF);
    }
  }

  lemma HeadCons(lines: seq<string>)
    requires lines != []
    ensures Head(lines) == CRLF + lines[0] + Head(lines[1..]) && Lines(lines) == lines[0] + CRLF + Lines(lines[1..])
  {
  }

  lemma PieceHeaders(headers: seq<string>, payload: string)
    requires forall l :: l in headers ==> IsHeader(l)
    ensures HeadersIn(Piece(headers, payload)) == headers
  {
    HeadIsLines(headers);
    hide Lines, Head, IsHeader;
    var s := Piece(headers, payload);
    var rest := payload + CRLF;
    TopLinesBack(headers, rest);
    assert BLANK == CRLF + CRLF;
    assert s == Head(headers) + CRLF + (CRLF + rest);
    assert s == CRLF + (Lines(headers) + CRLF + rest);
    assert s[2..] == Lines(headers) + CRLF + rest;
  }

  /** Each attachment's piece says how it is encoded, what it is and what it is called. */
  lemma AttachmentHeadersRead(a: Attachment)
    requires HeaderOk(a) && Plain(a.disposition)
    ensures HeadersIn(AttachmentPiece(a)) ==
            ["Content-Disposition: " + a.disposition, "Content-Transfer-Encoding: base64", "Content-Type: " + a.contentType]
  {
    AttachmentHeaders(a);
    hide IsHeader, HeadersIn, Piece, Lines;
    PieceHeaders(Headers(a), Lines(Chunks(a.encoded)));
  }

  lemma PlainHeadersRead(text: string)
    ensures TopLines(PlainPart(text)) == [TEXT_TYPE, SEVEN_BIT]
  {
    TextHeader();
    EncodingHeaders();
    assert BLANK == CRLF + CRLF;
    hide TEXT_TYPE, SEVEN_BIT, BASE64, IsHeader, Canonical, CRLF, TopLines;
    var lines := [TEXT_TYPE, SEVEN_BIT];
    assert lines[1..] == [SEVEN_BIT] && lines[1..][1..] == [];
    HeadCons(lines);
    HeadCons([SEVEN_BIT]);
    assert Lines(lines) == TEXT_TYPE + CRLF + (SEVEN_BIT + CRLF + Lines([]));
    assert PlainPart(text) == Lines(lines) + CRLF + (Canonical(text) + CRLF);
    TopLinesBack(lines, Canonical(text) + CRLF);
  }

  /** So does the text, alone or in front of attachments. */
  lemma TextHeadersRead(text: string)
    ensures HeadersIn(TextPiece(text)) == ["Content-Type: " + ("text/plain; " + "charset=utf-8")]
    ensures TopLines(PlainPart(text)) ==
            ["Content-Type: " + ("text/plain; " + "charset=utf-8"), "Content-Transfer-Encoding: 7bit"]
  {
    TextHeader();
    PlainHeadersRead(text);
    hide IsHeader, HeadersIn, Piece, Canonical;
    PieceHeaders([TEXT_TYPE], Canonical(text) + CRLF);
  }

  // --- no delimiter inside a piece -----------------------------------------------------------

  lemma FreshTail(s: string, b: string)
    requires Fresh(b, s) && s != ""
    ensures Fresh(b, s[1..])
  {
    var d := Delimiter(b);
    forall k ensures !At(s[1..], d, k) {
      assert !At(s, d, k + 1);
      assert 0 <= k && k + |d| <= |s| - 1 ==> s[1..][k..k + |d|] == s[k + 1..k + 1 + |d|];
    }
  }

  /** A CR at the seam keeps two texts apart. */
  lemma FreshSeam(x: string, y: string, b: string)
    requires IsBoundary(b) && Fresh(b, x) && Fresh(b, y) && (y != "" ==> y[0] == '\r')
    ensures Fresh(b, x + y)
  {
    if y == "" {
      assert x + y == x;
    } else {
      FreshTail(y, b);
      assert '\r' !in Delimiter(b);
      Separated(x, '\r', y[1..], Delimiter(b));
      assert x + ['\r'] + y[1..] == x + y;
    }
  }

  lemma {:induction false} HeadIsFresh(lines: seq<string>, b: string)
    requires IsBoundary(b) && forall l :: l in lines ==> Fresh(b, l)
    ensures Fresh(b, Head(lines))
  {
    if lines == [] {
      NotInEmpty(Delimiter(b));
    } else {
      HeadIsFresh(lines[1..], b);
      BreakAround(lines[0], b);
      FreshSeam(CRLF + lines[0], Head(lines[1..]), b);
    }
  }

  lemma PieceIsFresh(headers: seq<string>, payload: string, b: string)
    requires IsBoundary(b) && Fresh(b, payload) && forall l :: l in headers ==> Fresh(b, l)
    ensures Fresh(b, Piece(headers, payload))
  {
    HeadIsFresh(headers, b);
    BreakAround(payload, b);
    BreakAround(CRLF + payload + CRLF, b);
    var tail := BLANK + (payload + CRLF);
    assert tail == CRLF + (CRLF + payload + CRLF);
    FreshSeam(Head(headers), tail, b);
    assert Head(headers) + BLANK + (payload + CRLF) == Head(headers) + tail;
  }

  lemma TextPieceIsFresh(text: string, b: string)
    requires IsBoundary(b) && Fresh(b, Canonical(text))
    ensures Fresh(b, TextPiece(text))
  {
    HeaderFresh(TYPE, "text/plain; ", "charset=utf-8", b);
    BreakAround(Canonical(text), b);
    hide Canonical, Fresh, TEXT_TYPE, Piece;
    PieceIsFresh([TEXT_TYPE], Canonical(text) + CRLF, b);
  }

  lemma AttachmentPieceIsFresh(a: Attachment, b: string)
    requires IsBoundary(b) && FreshIn(b, a)
    ensures Fresh(b, AttachmentPiece(a))
  {
    DashlessFresh(BASE64, b);
    ChunksBase64(a.encoded);
    forall c | c in Chunks(a.encoded) ensures Fresh(b, c) {
      DashlessFresh(c, b);
    }
    LinesFresh(Chunks(a.encoded), b);
    hide Fresh, Piece, BASE64, Chunks;
    PieceIsFresh(Headers(a), Lines(Chunks(a.encoded)), b);
  }

  lemma {:induction false} AttachmentPiecesFresh(atts: seq<Attachment>, b: string)
    requires IsBoundary(b) && forall a :: a in atts ==> FreshIn(b, a)
    ensures forall p :: p in AttachmentPieces(atts) ==> Fresh(b, p)
    ensures |AttachmentPieces(atts)| == |atts|
  {
    if atts != [] {
      AttachmentPiecesFresh(atts[1..], b);
      hide FreshIn, Fresh;
      assert atts[0] in atts;
      AttachmentPieceIsFresh(atts[0], b);
    }
  }

  lemma MixedHeadFresh(m: string)
    requires IsBoundary(m)
    ensures Fresh(m, MixedHead(m))
  {
    assert Dashless(m);
    DashlessJoin("multipart/mixed; boundary=", m);
    DashlessJoin(TYPE, "multipart/mixed; boundary=" + m);
    DashlessJoin(TYPE + ("multipart/mixed; boundary=" + m), BLANK);
    DashlessFresh(MixedHead(m), m);
  }

  // --- the round trips -------------------------------------------------------------------------

  /** A multipart/mixed body part gives back the canonical text and every encoded
      attachment, in order, when the inner delimiter occurs in none of them. */
  lemma MixedRoundTrip(m: string, text: string, atts: seq<Attachment>)
    requires IsBoundary(m) && atts != [] && Fresh(m, Canonical(text)) && forall a :: a in atts ==> FreshIn(m, a)
    ensures BodyPart(m, text, atts).Some?
    ensures ReadMixed(m, BodyPart(m, text, atts).value) == Some((Canonical(text), Encodeds(atts)))
  {
    forall i | 0 <= i < |atts| ensures HeaderOk(atts[i]) {
      assert atts[i] in atts;
    }
    MixedHeadFresh(m);
    TextPieceIsFresh(text, m);
    AttachmentPiecesFresh(atts, m);
    EndFresh(m);
    EncodedsRead(m, atts);
    TextRead(text);
    hide Fresh, FreshIn, HeaderOk, MixedHead, TextPiece, AttachmentPieces, END_PIECE, BorderFree, Delimiter, TextIn, AllEncodedIn, Canonical;
    MixedSplits(m, text, atts);
    var pieces := MixedPieces(m, text, atts);
    assert pieces[1] == TextPiece(text) && pieces[2..|pieces| - 1] == AttachmentPieces(atts);
  }

  lemma TextRead(text: string)
    ensures TextIn(TextPiece(text)) == Some(Canonical(text))
  {
    TextHeader();
    hide Canonical, Piece, PayloadIn, IsHeader, TEXT_TYPE;
    PieceRead([TEXT_TYPE], Canonical(text) + CRLF);
    assert (Canonical(text) + CRLF)[..|Canonical(text)|] == Canonical(text);
  }

  lemma MixedSplits(m: string, text: string, atts: seq<Attachment>)
    requires IsBoundary(m) && Fresh(m, MixedHead(m)) && Fresh(m, TextPiece(text)) && Fresh(m, END_PIECE)
    requires forall p :: p in AttachmentPieces(atts) ==> Fresh(m, p)
    ensures var pieces := MixedPieces(m, text, atts);
            SplitOn(JoinWith(pieces, Delimiter(m)), Delimiter(m)) == pieces
  {
    var pieces := MixedPieces(m, text, atts);
    DelimiterBorderFree(m);
    hide MixedHead, TextPiece, AttachmentPieces, END_PIECE, BorderFree, Contains, Delimiter;
    forall i | 0 <= i < |pieces| ensures !Contains(pieces[i], Delimiter(m)) {
      assert pieces[i] in pieces;
    }
    SplitUndoesJoin(pieces, Delimiter(m));
  }

  // --- the message as the program writes it ------------------------------------------------------

  /** None when a header would carry a line break or signing fails. sign is gpg. */
  function SignedMessage(
    e: Envelope, b: string, m: string, text: string, atts: seq<Attachment>, sign: string -> Option<string>): Option<string>
  {
    if !HeadersOk(e) then None
    else
      var body := BodyPart(m, text, atts);
      if body.None? || sign(body.value).None? then None else ComposeSigned(e, b, body.value, sign(body.value).value)
  }

  lemma LinesOfCut(e: string, i: nat)
    requires i < |e| && i % LINE == 0
    ensures var end := if i + LINE > |e| then |e| else i + LINE;
            Lines(Chunks(e[i..])) == e[i..end] + CRLF + Lines(Chunks(e[end..]))
  {
    var rest := e[i..];
    if |rest| > LINE {
      assert rest[..LINE] == e[i..i + LINE] && rest[LINE..] == e[i + LINE..];
      assert Chunks(rest)[1..] == Chunks(rest[LINE..]);
    } else {
      assert e[i..|e|] == rest && e[|e|..] == "";
      assert Chunks(rest)[1..] == [];
    }
  }

  /** The encoding, 76 characters at a time. */
  method WriteChunks(buf: string, encoded: string) returns (out: string)
    ensures out == buf + Lines(Chunks(encoded))
  {
    out := buf;
    var i := 0;
    assert encoded[0..] == encoded;
    while i < |encoded|
      invariant i <= |encoded| ==> i % LINE == 0 && out + Lines(Chunks(encoded[i..])) == buf + Lines(Chunks(encoded))
      invariant i > |encoded| ==> out == buf + Lines(Chunks(encoded))
      decreases |encoded| - i
    {
      var end := if i + LINE > |encoded| then |encoded| else i + LINE;
      LinesOfCut(encoded, i);
      Regroup(out, encoded[i..end] + CRLF, Lines(Chunks(encoded[end..])));
      out := out + (encoded[i..end] + CRLF);
      assert end == |encoded| ==> encoded[end..] == "" && out + "" == out;
      i := i + LINE;
    }
    if i == |encoded| {
      assert encoded[i..] == "" && out + "" == out;
    }
  }

  lemma {:induction false} PiecesSnoc(atts: seq<Attachment>, a: Attachment)
    ensures AttachmentPieces(atts + [a]) == AttachmentPieces(atts) + [AttachmentPiece(a)]
  {
    if atts == [] {
      assert [a][1..] == [] && atts + [a] == [a];
    } else {
      PiecesSnoc(atts[1..], a);
      assert (atts + [a])[0] == atts[0] && (atts + [a])[1..] == atts[1..] + [a];
    }
  }

  lemma AttachmentPieceText(a: Attachment)
    ensures AttachmentPiece(a) ==
            CRLF + (DISPOSITION + a.disposition) + CRLF + BASE64 + CRLF + (TYPE + a.contentType) + BLANK
            + Lines(Chunks(a.encoded)) + CRLF
  {
    var h := Headers(a);
    hide BASE64, TYPE, DISPOSITION, Lines, Chunks;
    assert h[1..] == [BASE64, TYPE + a.contentType] && h[1..][1..] == [TYPE + a.contentType] && h[1..][1..][1..] == [];
    assert Head(h[1..][1..]) == CRLF + (TYPE + a.contentType) + "";
    assert Head(h[1..]) == CRLF + BASE64 + (CRLF + (TYPE + a.contentType) + "");
    assert Head(h) == CRLF + (DISPOSITION + a.disposition) + (CRLF + BASE64 + (CRLF + (TYPE + a.contentType) + ""));
    assert Head(h) == CRLF + (DISPOSITION + a.disposition) + CRLF + BASE64 + CRLF + (TYPE + a.contentType);
    Regroup(Head(h) + BLANK, Lines(Chunks(a.encoded)), CRLF);
  }

  method CheckHeaders(atts: seq<Attachment>) returns (ok: bool)
    ensures ok <==> forall i :: 0 <= i < |atts| ==> HeaderOk(atts[i])
  {
    for i := 0 to |atts|
      invariant forall k :: 0 <= k < i ==> HeaderOk(atts[k])
    {
      if !HeaderOk(atts[i]) {
        return false;
      }
    }
    ok := true;
  }

  /** The multipart/mixed part, written attachment by attachment. */
  method BuildMixed(m: string, text: string, atts: seq<Attachment>) returns (part: Option<string>)
    requires atts != []
    ensures part == BodyPart(m, text, atts)
  {
    var ok := CheckHeaders(atts);
    if !ok {
      return None;
    }
    hide Canonical, HeaderOk, AttachmentPiece, TextPiece, MixedHead, Delimiter, END_PIECE;
    var sep := Delimiter(m);
    ghost var pieces := [MixedHead(m), TextPiece(text)];
    var buf := MixedHead(m) + (sep + TextPiece(text));
    assert JoinWith(pieces, sep) == buf by {
      assert pieces[1..] == [TextPiece(text)];
    }
    for i := 0 to |atts|
      invariant pieces == [MixedHead(m), TextPiece(text)] + AttachmentPieces(atts[..i])
      invariant buf == JoinWith(pieces, sep)
    {
      var piece := WritePiece(atts[i]);
      JoinSnoc(pieces, piece, sep);
      buf := buf + (sep + piece);
      assert atts[..i + 1] == atts[..i] + [atts[i]];
      PiecesSnoc(atts[..i], atts[i]);
      pieces := pieces + [piece];
    }
    assert atts[..|atts|] == atts;
    JoinSnoc(pieces, END_PIECE, sep);
    assert pieces + [END_PIECE] == MixedPieces(m, text, atts);
    part := Some(buf + (sep + END_PIECE));
  }

  method WritePiece(a: Attachment) returns (piece: string)
    ensures piece == AttachmentPiece(a)
  {
    piece := CRLF + (DISPOSITION + a.disposition) + CRLF + BASE64 + CRLF + (TYPE + a.contentType) + BLANK;
    piece := WriteChunks(piece, a.encoded);
    piece := piece + CRLF;
    AttachmentPieceText(a);
  }

  method ComposeSignedRaw(
    e: Envelope, b: string, m: string, text: string, atts: seq<Attachment>, sign: string -> Option<string>)
    returns (msg: Option<string>)
    ensures msg == SignedMessage(e, b, m, text, atts, sign)
  {
    if !HeadersOk(e) {
      return None;
    }
    var body := Some(PlainPart(text));
    if atts != [] {
      body := BuildMixed(m, text, atts);
    }
    if body.None? {
      return None;
    }
    var sig := sign(body.value);
    if sig.None? {
      return None;
    }
    msg := WriteSigned(e, b, body.value, sig.value);
  }

  /** What a reader of the body part finds: the text and the encoded attachments. */
  function ReadBody(m: string, atts: seq<Attachment>, part: string): Option<(string, seq<string>)>
    requires m != ""
  {
    if atts != [] then ReadMixed(m, part)
    else if PayloadIn(part).None? then None else Some((PayloadIn(part).value, []))
  }

  /** A reader that extracts the signed part of a composed message gets the very bytes
      that were signed, and from them the canonical text and every attachment. */
  lemma SignedMessageRead(
    e: Envelope, b: string, m: string, text: string, atts: seq<Attachment>, sign: string -> Option<string>)
    requires IsBoundary(b) && IsBoundary(m) && HeadersOk(e) && HeadersFresh(e, b)
    requires Fresh(m, Canonical(text)) && forall a :: a in atts ==> FreshIn(m, a)
    requires BodyPart(m, text, atts).Some? && sign(BodyPart(m, text, atts).value).Some?
    requires Fresh(b, BodyPart(m, text, atts).value) && Fresh(b, Trim(sign(BodyPart(m, text, atts).value).value))
    ensures var msg, body := SignedMessage(e, b, m, text, atts, sign), BodyPart(m, text, atts).value;
            && msg.Some? && ExtractSigned("multipart/signed", b, msg.value) == Ok(Parts(body, Trim(sign(body).value), None))
            && ReadBody(m, atts, body) == Some((Canonical(text), Encodeds(atts)))
  {
    var body := BodyPart(m, text, atts).value;
    SignedRoundTrip(e, b, body, sign(body).value);
    if atts == [] {
      PlainRead(text);
    } else {
      MixedRoundTrip(m, text, atts);
    }
  }
}
