/** The start of a multipart message: the header of the root part, and the text in front
    of the first delimiter, which a reader skips. */
module MimeStart {
  import opened Wire
  import opened Input
  import opened Mime
  import opened MimeHeader
  import opened MimeParts

  // --- writing (soap_envelope_begin_out) -----------------------------------------------------------

  predicate IsAscii(s: string) {
    forall i :: 0 <= i < |s| ==> 0 < s[i] as int < 128
  }

  // A string literal of the source.
  function Latin(s: string): (r: seq<Byte>)
    requires IsAscii(s)
    ensures |r| == |s| && forall i :: 0 <= i < |s| ==> r[i] == s[i] as int
  {
    seq(|s|, i requires 0 <= i < |s| => s[i] as int)
  }

  // A text as a field can have it.
  predicate IsMediaType(s: string) {
    0 < |s| < 100 && s[0] != ' ' && forall i :: 0 <= i < |s| ==> ' ' <= s[i] <= '~'
  }

  lemma MediaTypes()
    ensures IsMediaType("application/dime") && IsMediaType("application/soap+xml") && IsMediaType("text/xml")
    ensures IsMediaType("; charset=utf-8") && IsMediaType("; type=\"") && IsMediaType("\"")
  {
  }

  lemma XopType()
    ensures IsMediaType("application/xop+xml")
  {
  }

  // The media type of an envelope.
  function SoapType(soap12: bool): (s: string)
    ensures IsMediaType(s) && |s| <= 20
  {
    MediaTypes();
    if soap12 then "application/soap+xml" else "text/xml"
  }

  // The media type of the root part: SOAP_ENC_DIME, SOAP_ENC_MTOM, SOAP 1.2
  function RootType(dime: bool, mtom: bool, soap12: bool): (s: string)
    ensures IsMediaType(s)
  {
    MediaTypes();
    XopType();
    if dime && !mtom then "application/dime"
    else if mtom then "application/xop+xml" + "; charset=utf-8" + "; type=\"" + SoapType(soap12) + "\""
    else SoapType(soap12) + "; charset=utf-8"
  }

  /** The media type of the root: DIME without MTOM, the envelope's own, or that of XOP naming
      the envelope's as a parameter. */
  lemma RootTypes()
    ensures RootType(true, false, false) == RootType(true, false, true) == "application/dime"
    ensures RootType(false, false, false) == "text/xml" + "; charset=utf-8"
    ensures RootType(false, false, true) == "application/soap+xml" + "; charset=utf-8"
    ensures forall dime :: RootType(dime, true, false) == "application/xop+xml" + "; charset=utf-8" + "; type=\"" + "text/xml" + "\""
    ensures forall dime :: RootType(dime, true, true) == "application/xop+xml" + "; charset=utf-8" + "; type=\"" + "application/soap+xml" + "\""
  {
    hide IsMediaType;
  }

  // The header is left out when it might not fit soap->tmpbuf.
  predicate RootFits(boundary: seq<Byte>, start: seq<Byte>) {
    |boundary| + |start| < BLOCK - 80
  }

  // SOAP_MIME_BINARY
  const BINARY: Encoding := 3

  function RootFields(kind: seq<Byte>, start: seq<Byte>): Fields {
    Fields(Some(kind), BINARY, Some(start), None, None)
  }

  /** The names of the fields as they are sent. */
  lemma FieldNames()
    ensures TYPE == Latin("Content-Type") && CODING == Latin("Content-Transfer-Encoding") && ID == Latin("Content-ID")
    ensures LOCATION == Latin("Content-Location") && DESCRIPTION == Latin("Content-Description")
  {
  }

  /** The name of each code of soap_mime_encoding as it is sent; code 0 has none. */
  lemma CodeNames()
    ensures CodeName(0).None? && CodeName(1) == Some(Latin("7bit")) && CodeName(2) == Some(Latin("8bit"))
    ensures CodeName(BINARY) == Some(Latin("binary")) && CodeName(4) == Some(Latin("quoted-printable"))
    ensures CodeName(5) == Some(Latin("base64")) && CodeName(6) == Some(Latin("ietf-token")) && CodeName(7) == Some(Latin("x-token"))
  {
    assert CODES[0] == Latin("7bit") && CODES[1] == Latin("8bit") && CODES[2] == Latin("binary");
    assert CODES[3] == Latin("quoted-printable") && CODES[4] == Latin("base64");
    assert CODES[5] == Latin("ietf-token") && CODES[6] == Latin("x-token");
  }

  lemma RootLines(kind: seq<Byte>, coding: seq<Byte>, start: seq<Byte>)
    requires CodeName(BINARY) == Some(coding)
    ensures Block(RootFields(kind, start))
            == (TYPE + [COLON, BLANK] + kind + CRLF) + (CODING + [COLON, BLANK] + coding + CRLF) + (ID + [COLON, BLANK] + start + CRLF) + CRLF
  {
    hide Flat, Ascii, OptLine, FieldLines, CodeName;
    var f := RootFields(kind, start);
    FlatFields(f);
    FlatOpt(TYPE, f.kind);
    FlatOpt(CODING, CodeName(BINARY));
    FlatOpt(ID, f.id);
    FlatOpt(LOCATION, None);
    FlatOpt(DESCRIPTION, None);
  }

  lemma RootBlock(kind: seq<Byte>, start: seq<Byte>)
    ensures Block(RootFields(kind, start))
            == Latin("Content-Type") + Latin(": ") + kind + CRLF
               + Latin("Content-Transfer-Encoding") + Latin(": ") + Latin("binary") + CRLF
               + Latin("Content-ID") + Latin(": ") + start + CRLF + CRLF
  {
    hide Block, Ascii, Latin, CodeName, IsAscii;
    FieldNames();
    CodeNames();
    Spaced();
    RootLines(kind, CodeName(BINARY).value, start);
  }

  lemma Spaced()
    ensures Latin(": ") == [COLON, BLANK] && Latin("--") == DASHES
  {
  }

  /** soap_envelope_begin_out: the first delimiter line and the header of the root part. */
  method PutRootHeader(sent: seq<Byte>, boundary: seq<Byte>, start: seq<Byte>, dime: bool, mtom: bool, soap12: bool)
    returns (out: seq<Byte>)
    ensures out == if |boundary| + |start| < 944
                   then sent + DASHES + boundary + CRLF + Block(RootFields(Latin(RootType(dime, mtom, soap12)), start))
                   else sent
  {
    hide Block, Latin, RootType;
    out := sent;
    if RootFits(boundary, start) {
      var kind := Latin(RootType(dime, mtom, soap12));
      RootBlock(kind, start);
      Spaced();
      out := out + Latin("--") + boundary + CRLF + Latin("Content-Type") + Latin(": ") + kind + CRLF
        + Latin("Content-Transfer-Encoding") + Latin(": ") + Latin("binary") + CRLF
        + Latin("Content-ID") + Latin(": ") + start + CRLF + CRLF;
    }
  }

  // --- reading (soap_begin_recv) -------------------------------------------------------------------

  // The stream from its first two dashes on.
  function FromDashes(w: seq<Byte>): (r: Option<seq<Byte>>)
    ensures r.Some? ==> Suffix(r.value, w) && Dashed(r.value)
  {
    if w == [] then None
    else if w[0] == DASH && |w| > 1 && w[1] == DASH then
      assert w[..2] == DASHES;
      WholeSuffix(w);
      Some(w)
    else
      var r := FromDashes(w[1..]);
      if r.None? then None else SuffixTail(r.value, w, 1); r
  }

  lemma NoDashes()
    ensures FromDashes([]) == None
  {
  }

  lemma DashStep(c: Byte, w: seq<Byte>)
    ensures FromDashes([c] + w) == if c == DASH && w != [] && w[0] == DASH then Some([c] + w) else FromDashes(w)
  {
    assert ([c] + w)[1..] == w;
  }

  ghost function Start(w: seq<Byte>, given: Option<seq<Byte>>): Head {
    var r := FromDashes(w);
    if r.None? then NoHead else ReadHead(r.value, given)
  }

  /** The preamble is skipped, and the header of the root part read. */
  method BeginRecv(inp: Source, given: Option<seq<Byte>>) returns (ok: bool, f: Fields, boundary: Option<seq<Byte>>)
    modifies inp
    ensures ok <==> Start(old(inp.rest), given).Head?
    ensures ok ==> Start(old(inp.rest), given) == Head(f, inp.rest)
                   && boundary == Learnt(FromDashes(old(inp.rest)).value, given)
  {
    hide ReadHead, Learnt;
    hide FromDashes, Suffix;
    ghost var w := inp.rest;
    f, boundary := NO_FIELDS, given;
    var c, c1 := 0, 0;
    while c != DASH || c1 != DASH
      invariant c == DASH && c1 == DASH ==> FromDashes(w) == Some([DASH] + inp.rest)
      invariant c != DASH || c1 != DASH ==> FromDashes(w) == FromDashes(inp.rest)
      decreases |inp.rest| + if c == DASH && c1 == DASH then 0 else 1
    {
      ghost var v := inp.rest;
      c := inp.Get();
      if c == EOF {
        NoDashes();
        return false, f, boundary;
      }
      assert v == [c as Byte] + inp.rest;
      DashStep(c, inp.rest);
      c1 := 0;
      if c == DASH {
        c1 := inp.Peek();
      }
    }
    inp.Back(DASH);
    ok, f, boundary := GetMimeHdr(inp, given);
  }

  // --- a message read from its start -----------------------------------------------------------------

  // A preamble without two dashes in a row, the first one of the delimiter counted.
  predicate Quiet(preamble: seq<Byte>) {
    !exists i :: 0 <= i < |preamble| && preamble[i] == DASH && (preamble + [DASH])[i + 1] == DASH
  }

  /** A delimiter is found behind a preamble if and only if the preamble is such a text. */
  lemma {:induction false} PreambleExactly(preamble: seq<Byte>, more: seq<Byte>)
    ensures FromDashes(preamble + (DASHES + more)) == Some(DASHES + more) <==> Quiet(preamble)
    decreases |preamble|
  {
    var v := DASHES + more;
    var w := preamble + v;
    if preamble == [] {
      assert w == v;
    } else {
      assert w[0] == preamble[0] && w[1] == (preamble + [DASH])[1];
      assert w[1..] == preamble[1..] + v;
      PreambleExactly(preamble[1..], more);
      QuietTail(preamble);
    }
  }

  lemma QuietTail(preamble: seq<Byte>)
    requires preamble != []
    ensures Quiet(preamble) <==> !(preamble[0] == DASH && (preamble + [DASH])[1] == DASH) && Quiet(preamble[1..])
  {
    var p := preamble[1..];
    assert p + [DASH] == (preamble + [DASH])[1..];
    assert forall i :: 0 <= i < |p| ==> p[i] == preamble[i + 1] && (p + [DASH])[i + 1] == (preamble + [DASH])[i + 2];
    if !Quiet(p) {
      var i :| 0 <= i < |p| && p[i] == DASH && (p + [DASH])[i + 1] == DASH;
      assert preamble[i + 1] == DASH && (preamble + [DASH])[i + 1 + 1] == DASH;
    }
    if !Quiet(preamble) {
      var i :| 0 <= i < |preamble| && preamble[i] == DASH && (preamble + [DASH])[i + 1] == DASH;
      if i > 0 {
        assert p[i - 1] == DASH && (p + [DASH])[i - 1 + 1] == DASH;
      }
    }
  }

  /** The header of a root part that can be read at all is read behind any such preamble,
      whether the boundary was known before or not; another boundary is refused. */
  lemma StartReads(preamble: seq<Byte>, boundary: seq<Byte>, blanks: seq<Byte>, f: Fields, rest: seq<Byte>, given: Option<seq<Byte>>)
    requires Quiet(preamble) && CleanString(boundary) && EndsInText(boundary) && Blanks(blanks)
    requires AllText(f) && AllLed(f) && AllFit(FieldLines(f)) && Fits(DASHES + boundary + blanks)
    ensures var w := preamble + (DASHES + boundary + blanks + CRLF + Block(f) + rest);
            && (given.None? || given == Some(boundary) ==> Start(w, given) == Head(f, rest) && Learnt(FromDashes(w).value, given) == Some(boundary))
            && (given.Some? && given.value != boundary ==> Start(w, given).NoHead?)
  {
    hide Quiet, CleanString, EndsInText, Blanks, AllText, AllLed, AllFit, Block, ReadHead, FieldLines, FromDashes, Fits, FirstLine;
    var more := boundary + blanks + CRLF + Block(f) + rest;
    assert DASHES + boundary + blanks + CRLF + Block(f) + rest == DASHES + more;
    PreambleExactly(preamble, more);
    DelimitedHeadReads(f, boundary, blanks, rest, given);
  }

  lemma RootReadable(kind: string, start: seq<Byte>)
    requires IsMediaType(kind)
    requires CleanString(start) && Led(start) && |start| < BLOCK - 80
    ensures Readable(RootFields(Latin(kind), start))
  {
    hide Ascii;
    var k := Latin(kind);
    var f := RootFields(k, start);
    assert forall i :: 0 <= i < |k| ==> k[i] >= 32;
    FieldNames();
    CodeNames();
    assert FieldLines(f) == [LineOf(TYPE, k), LineOf(CODING, CODES[2]), LineOf(ID, start)];
  }

  /** A whole message written and read back by the routines themselves, from its first
      delimiter on, whether the boundary was announced or not: the root part and every part,
      nothing beyond the end being consumed.  It fails exactly for a boundary with a byte
      above 127. */
  method Exchange(boundary: seq<Byte>, start: seq<Byte>, dime: bool, mtom: bool, soap12: bool, data: seq<Byte>, parts: seq<Part>,
                  epilogue: seq<Byte>, announced: bool)
    returns (ok: bool, got: seq<Part>, rest: seq<Byte>)
    requires BoundaryOK(boundary) && CleanString(boundary) && EndsInText(boundary)
    requires CleanString(start) && Led(start) && RootFits(boundary, start)
    requires AllReadable(parts) && NoDelimiter(boundary, parts) && !Occurs(data, Delimiter(boundary))
    ensures ok <==> SevenBit(boundary)
    ensures ok ==> got == [Part(RootFields(Latin(RootType(dime, mtom, soap12)), start), data)] + parts && rest == epilogue
  {
    hide BoundaryOK, CleanString, EndsInText, AllReadable, NoDelimiter, ReadParts, NulFreeRun, Start, FromDashes, Learnt, Block;
    hide Message, Latin, RootType, Led, Occurs, SevenBit, Quiet, Readable;
    ghost var kind := RootType(dime, mtom, soap12);
    ghost var root := Part(RootFields(Latin(kind), start), data);
    RootReadable(kind, start);
    RootApart(root, boundary, parts);
    MessageReadBack(root, parts, boundary, epilogue);
    ghost var rest0 := data + Message(boundary, parts) + epilogue;
    ReadableStart(boundary, root.fields, rest0, announced);
    var w := Send(boundary, start, dime, mtom, soap12, data, parts);
    assert w + epilogue == DASHES + boundary + CRLF + Block(root.fields) + rest0;
    var inp := new Source(w + epilogue);
    var f, b;
    ok, f, b := BeginRecv(inp, if announced then Some(boundary) else None);
    var sc := new Scanner(inp);
    ok, got := GetMime(sc, b.value, f);
    rest := inp.rest;
  }

  method Send(boundary: seq<Byte>, start: seq<Byte>, dime: bool, mtom: bool, soap12: bool, data: seq<Byte>, parts: seq<Part>)
    returns (out: seq<Byte>)
    requires RootFits(boundary, start)
    ensures out == DASHES + boundary + CRLF + Block(RootFields(Latin(RootType(dime, mtom, soap12)), start)) + (data + Message(boundary, parts))
  {
    hide Block, Message, Latin, RootType, RootFields;
    out := PutRootHeader([], boundary, start, dime, mtom, soap12);
    out := PutMime(out + data, boundary, parts);
  }

  lemma RootApart(root: Part, boundary: seq<Byte>, parts: seq<Part>)
    requires BoundaryOK(boundary) && NoDelimiter(boundary, parts) && !Occurs(root.data, Delimiter(boundary))
    ensures CR !in boundary && NoDelimiter(boundary, [root] + parts)
  {
    hide Occurs, Delimiter;
  }

  lemma ReadableStart(boundary: seq<Byte>, f: Fields, rest: seq<Byte>, announced: bool)
    requires BoundaryOK(boundary) && CleanString(boundary) && EndsInText(boundary) && Readable(f)
    ensures var given := if announced then Some(boundary) else None;
            var w := DASHES + boundary + CRLF + Block(f) + rest;
            Start(w, given) == Head(f, rest) && Learnt(FromDashes(w).value, given) == Some(boundary)
  {
    hide AllText, AllLed, AllFit, FieldLines, Block, ReadHead, FirstLine, FromDashes, Start, Learnt;
    var given := if announced then Some(boundary) else None;
    assert DASHES + boundary + [] == DASHES + boundary;
    StartReads([], boundary, [], f, rest, given);
    assert [] + (DASHES + boundary + [] + CRLF + Block(f) + rest) == DASHES + boundary + CRLF + Block(f) + rest;
  }
}
