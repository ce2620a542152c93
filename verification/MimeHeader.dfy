/** The header block of a MIME part: its lines, and how they are written and read. */
module MimeHeader {
  import opened Wire
  import opened Input
  import opened Mime
  import TagCmp

  // soap_mime_encoding: SOAP_MIME_NONE is 0
  type Encoding = n: nat | n <= 7

  // What the header of a soap_multipart says.
  datatype Fields = Fields(
    kind: Option<seq<Byte>>, encoding: Encoding, id: Option<seq<Byte>>,
    location: Option<seq<Byte>>, description: Option<seq<Byte>>)

  const NO_FIELDS := Fields(None, 0, None, None, None)

  // --- lines (soap_getline) ------------------------------------------------------------------

  datatype Got = Got(line: seq<Byte>, rest: seq<Byte>) | Bad

  predicate LineEnd(c: int) {
    c == CR || c == LF
  }

  // The loop that fills the buffer s, i characters being left.
  function Inner(w: seq<Byte>, s: seq<Byte>, i: nat, c: int): Got
    decreases i, 1
  {
    if i <= 1 then Ended(w, s, i - 1, c)
    else if w == [] then Bad
    else if LineEnd(w[0]) then Ended(w[1..], s, i - 1, w[0])
    else Inner(w[1..], s + [w[0]], i - 1, w[0])
  }

  // After the loop: the LF, and whether the next line continues this one.
  function Ended(w: seq<Byte>, s: seq<Byte>, i: int, c: int): Got
    requires i >= -1
    decreases i + 1, 0
  {
    if c != LF && w == [] then Bad
    else
      var c' := if c != LF then w[0] else c;
      var w' := if c != LF then w[1..] else w;
      if c' == LF && (i + 1 == MSGLEN || w' == [] || (w'[0] != 32 && w'[0] != 9)) then Got(s, w')
      else if i < 0 then Bad
      else Inner(w', s, i, if c' == LF then w'[0] else c')
  }

  function Line(w: seq<Byte>): Got {
    Inner(w, [], MSGLEN, 0)
  }

  method GetLine(inp: Source) returns (ok: bool, s: seq<Byte>)
    modifies inp
    ensures ok <==> Line(old(inp.rest)).Got?
    ensures ok ==> Line(old(inp.rest)) == Got(s, inp.rest)
  {
    ghost var goal := Line(inp.rest);
    var i: int, c := MSGLEN, 0;
    s := [];
    while true
      invariant i >= 0 && Inner(inp.rest, s, i, c) == goal
      decreases i
    {
      i := i - 1;
      while i > 0
        invariant i >= -1 && Inner(inp.rest, s, i + 1, c) == goal
      {
        c := inp.Get();
        if c == CR || c == LF {
          break;
        }
        if c == EOF {
          return false, s;
        }
        s := s + [c];
        i := i - 1;
      }
      assert Ended(inp.rest, s, i, c) == goal;
      if c != LF {
        c := inp.Get();
      }
      if c == LF {
        if i + 1 == MSGLEN {
          return true, s;
        }
        c := inp.Peek();
        if c != 32 && c != 9 {
          return true, s;
        }
      } else if c == EOF {
        return false, s;
      }
      if i < 0 {
        return false, s;
      }
    }
  }

  // A line as it is sent, and what keeps it whole: it fits the buffer.
  ghost predicate Fits(line: seq<Byte>) {
    |line| < 1024
  }

  ghost predicate Clean(line: seq<Byte>) {
    CR !in line && LF !in line
  }

  ghost predicate NotContinued(line: seq<Byte>, rest: seq<Byte>) {
    line == [] || rest == [] || (rest[0] != 32 && rest[0] != 9)
  }

  lemma {:induction false} InnerReads(s: seq<Byte>, line: seq<Byte>, rest: seq<Byte>, i: nat, c: int)
    requires Clean(line) && (s == [] ==> i == MSGLEN && c == 0) && i + |s| <= MSGLEN && (s != [] ==> c != LF) && Clean(s)
    requires NotContinued(s + line, rest)
    ensures |line| < i ==> Inner(line + [CR, LF] + rest, s, i, c) == Got(s + line, rest)
    ensures |line| >= i > 0 ==> Inner(line + [CR, LF] + rest, s, i, c) == Bad
    decreases i
  {
    var w := line + [CR, LF] + rest;
    if i == 0 {
    } else if i == 1 {
      assert c != LF;
      if line == [] {
        assert s + line == s && w[1..] == [LF] + rest && w[1..][1..] == rest;
        assert Inner(w, s, 1, c) == Ended(w, s, 0, c) == Inner(w[1..], s, 0, CR) == Ended(w[1..], s, -1, CR);
      } else {
        assert w[0] == line[0] != LF;
        assert Inner(w, s, 1, c) == Ended(w, s, 0, c) == Inner(w[1..], s, 0, w[0]) == Ended(w[1..], s, -1, w[0]);
        assert w[1..][0] == if |line| > 1 then line[1] else CR;
      }
    } else if line == [] {
      assert s + line == s && w[1..] == [LF] + rest && w[1..][1..] == rest;
    } else {
      assert w[0] == line[0] && w[1..] == line[1..] + [CR, LF] + rest;
      assert s + line == (s + [line[0]]) + line[1..];
      InnerReads(s + [line[0]], line[1..], rest, i - 1, line[0]);
    }
  }

  /** A line that is not continued is read back exactly when it fits the buffer. */
  lemma LineReads(line: seq<Byte>, rest: seq<Byte>)
    requires Clean(line) && NotContinued(line, rest)
    ensures Line(line + [CR, LF] + rest) == if Fits(line) then Got(line, rest) else Bad
  {
    assert [] + line == line;
    InnerReads([], line, rest, MSGLEN, 0);
  }

  // A line that starts with a blank continues the one before it.
  predicate Continues(w: seq<Byte>) {
    w != [] && (w[0] == 32 || w[0] == 9)
  }

  lemma {:induction false} InnerFolds(s: seq<Byte>, line: seq<Byte>, more: seq<Byte>, i: nat, c: int)
    requires Clean(line) && s + line != [] && (s == [] ==> i == MSGLEN && c == 0) && i + |s| <= MSGLEN && (s != [] ==> c != LF)
    requires Continues(more) && |line| < i
    ensures Inner(line + [CR, LF] + more, s, i, c) == Inner(more, s + line, i - |line| - 1, more[0])
    decreases i
  {
    var w := line + [CR, LF] + more;
    if line == [] {
      assert s + line == s && w[1..] == [LF] + more && w[1..][1..] == more;
      if i == 1 {
        assert w[0] == CR && c != LF;
        assert Inner(w, s, 1, c) == Ended(w, s, 0, c) == Inner(w[1..], s, 0, CR) == Ended(w[1..], s, -1, CR);
      }
    } else if i > 1 {
      assert w[0] == line[0] && w[1..] == line[1..] + [CR, LF] + more;
      assert s + line == (s + [line[0]]) + line[1..];
      InnerFolds(s + [line[0]], line[1..], more, i - 1, line[0]);
    }
  }

  // A line that is too long, whatever follows it.
  lemma {:induction false} InnerLong(s: seq<Byte>, line: seq<Byte>, rest: seq<Byte>, i: nat, c: int)
    requires Clean(line) && |line| >= i && c != LF
    ensures Inner(line + [CR, LF] + rest, s, i, c) == Bad
    decreases i
  {
    var w := line + [CR, LF] + rest;
    if i > 1 {
      assert w[0] == line[0] && w[1..] == line[1..] + [CR, LF] + rest;
      InnerLong(s + [line[0]], line[1..], rest, i - 1, line[0]);
    } else if i == 1 {
      assert w[0] == line[0] != LF;
      assert Inner(w, s, 1, c) == Ended(w, s, 0, c) == Inner(w[1..], s, 0, w[0]) == Ended(w[1..], s, -1, w[0]);
      assert w[1..][0] == if |line| > 1 then line[1] else CR;
    } else {
      assert w[0] == if |line| > 0 then line[0] else CR;
    }
  }

  // Lines of which all but the first start with a blank.
  ghost predicate Foldable(lines: seq<seq<Byte>>) {
    forall k :: 0 <= k < |lines| ==> Clean(lines[k]) && (k > 0 ==> Continues(lines[k]))
  }

  function Unfolded(lines: seq<seq<Byte>>): seq<Byte> {
    if lines == [] then [] else lines[0] + Unfolded(lines[1..])
  }

  // The room they take in the buffer: one byte more for each.
  function RoomFor(lines: seq<seq<Byte>>): nat {
    if lines == [] then 0 else |lines[0]| + 1 + RoomFor(lines[1..])
  }

  lemma FoldableTail(lines: seq<seq<Byte>>, rest: seq<Byte>)
    requires lines != [] && Foldable(lines)
    ensures Clean(lines[0]) && Foldable(lines[1..])
    ensures lines[1..] != [] ==> var more := Flat(lines[1..]) + rest; lines[1..][0] != [] && Continues(more) && more[0] != LF
  {
    assert forall k :: 0 <= k < |lines[1..]| ==> lines[1..][k] == lines[k + 1];
  }

  // The first line and the others.
  lemma FirstFolded(s: seq<Byte>, lines: seq<seq<Byte>>, rest: seq<Byte>)
    requires lines != []
    ensures Flat(lines) + rest == lines[0] + [CR, LF] + (Flat(lines[1..]) + rest)
    ensures s + Unfolded(lines) == (s + lines[0]) + Unfolded(lines[1..])
    ensures RoomFor(lines) == |lines[0]| + 1 + RoomFor(lines[1..])
  {
    var line, f, u := lines[0], Flat(lines[1..]), Unfolded(lines[1..]);
    assert Flat(lines) == line + [CR, LF] + f && Unfolded(lines) == line + u;
    hide Flat, Unfolded;
    Joined(line + [CR, LF], f, rest);
    Joined(s, line, u);
  }

  lemma Joined(a: seq<Byte>, b: seq<Byte>, c: seq<Byte>)
    ensures a + b + c == a + (b + c)
  {
  }

  lemma LastFolded(s: seq<Byte>, lines: seq<seq<Byte>>, rest: seq<Byte>)
    requires lines == []
    ensures Flat(lines) + rest == rest && s + Unfolded(lines) == s && RoomFor(lines) == 0
  {
  }

  lemma CleanJoin(s: seq<Byte>, line: seq<Byte>)
    requires Clean(s) && Clean(line)
    ensures Clean(s + line)
  {
  }

  lemma NotContinuing(line: seq<Byte>, rest: seq<Byte>)
    requires !Continues(rest)
    ensures NotContinued(line, rest)
  {
  }

  lemma {:induction false} InnerUnfolds(s: seq<Byte>, lines: seq<seq<Byte>>, rest: seq<Byte>, i: nat, c: int)
    requires lines != [] && Foldable(lines) && s + lines[0] != [] && !Continues(rest)
    requires (s == [] ==> i == MSGLEN && c == 0) && i + |s| <= MSGLEN && (s != [] ==> c != LF) && Clean(s)
    ensures Inner(Flat(lines) + rest, s, i, c) == if RoomFor(lines) <= i then Got(s + Unfolded(lines), rest) else Bad
    decreases |lines|
  {
    hide Inner, Foldable, Continues, NotContinued, Clean, Flat, Unfolded, RoomFor;
    var line, tail := lines[0], lines[1..];
    var more := Flat(tail) + rest;
    FoldableTail(lines, rest);
    FirstFolded(s, lines, rest);
    if |line| >= i {
      InnerLong(s, line, more, i, c);
    } else if tail == [] {
      LastFolded(s + line, tail, rest);
      NotContinuing(s + line, rest);
      InnerReads(s, line, rest, i, c);
    } else {
      CleanJoin(s, line);
      InnerFolds(s, line, more, i, c);
      InnerUnfolds(s + line, tail, rest, i - |line| - 1, more[0]);
    }
  }

  /** A line and those that continue it are read as one, the line ends between them dropped
      and the blanks kept, if and only if together they fit the buffer. */
  lemma FoldedReads(lines: seq<seq<Byte>>, rest: seq<Byte>)
    requires lines != [] && Foldable(lines) && lines[0] != [] && !Continues(rest)
    ensures Line(Flat(lines) + rest) == if RoomFor(lines) <= 1024 then Got(Unfolded(lines), rest) else Bad
  {
    hide Inner, Flat;
    assert [] + lines[0] == lines[0] && [] + Unfolded(lines) == Unfolded(lines);
    InnerUnfolds([], lines, rest, MSGLEN, 0);
  }

  // What is left after a line is a shorter suffix.
  lemma {:induction false} InnerShortens(w: seq<Byte>, s: seq<Byte>, i: nat, c: int)
    requires Inner(w, s, i, c).Got? && (i > 1 || c != LF)
    ensures |Inner(w, s, i, c).rest| < |w| && Suffix(Inner(w, s, i, c).rest, w)
    decreases i
  {
    hide Suffix;
    var r := Inner(w, s, i, c).rest;
    if i <= 1 {
      EndedShortens(w, s, i - 1, c);
    } else if LineEnd(w[0]) {
      EndedShortens(w[1..], s, i - 1, w[0]);
      SuffixTail(r, w, 1);
    } else {
      InnerShortens(w[1..], s + [w[0]], i - 1, w[0]);
      SuffixTail(r, w, 1);
    }
  }

  lemma {:induction false} EndedShortens(w: seq<Byte>, s: seq<Byte>, i: int, c: int)
    requires i >= -1 && Ended(w, s, i, c).Got?
    ensures |Ended(w, s, i, c).rest| <= |w| && (c != LF ==> |Ended(w, s, i, c).rest| < |w|)
    ensures Suffix(Ended(w, s, i, c).rest, w)
    decreases i + 1, 0
  {
    hide Suffix;
    var c' := if c != LF then w[0] else c;
    var n := if c != LF then 1 else 0;
    assert w[0..] == w;
    if c' == LF && (i + 1 == MSGLEN || w[n..] == [] || (w[n..][0] != 32 && w[n..][0] != 9)) {
      WholeSuffix(w[n..]);
    } else {
      InnerShortens(w[n..], s, i, if c' == LF then w[n..][0] else c');
    }
    SuffixTail(Ended(w, s, i, c).rest, w, n);
  }

  lemma WholeSuffix(w: seq<Byte>)
    ensures Suffix(w, w)
  {
  }

  lemma LineShortens(w: seq<Byte>)
    requires Line(w).Got?
    ensures |Line(w).rest| < |w| && Suffix(Line(w).rest, w)
  {
    InnerShortens(w, [], MSGLEN, 0);
  }

  // --- fields --------------------------------------------------------------------------------

  predicate IsLetter(c: char) {
    c == '-' || '0' <= c <= '9' || 'A' <= c <= 'Z' || 'a' <= c <= 'z'
  }

  function Code(c: char): Byte
    requires IsLetter(c)
  {
    c as int
  }

  function Ascii(s: string): (r: seq<Byte>)
    requires forall i :: 0 <= i < |s| ==> IsLetter(s[i])
    ensures |r| == |s|
  {
    seq(|s|, i requires 0 <= i < |s| => Code(s[i]))
  }

  const COLON: Byte := 58
  const BLANK: Byte := 32
  const DASHES: seq<Byte> := [DASH, DASH]

  const TYPE := Ascii("Content-Type")
  const CODING := Ascii("Content-Transfer-Encoding")
  const ID := Ascii("Content-ID")
  const LOCATION := Ascii("Content-Location")
  const DISPOSITION := Ascii("Content-Disposition")
  const DESCRIPTION := Ascii("Content-Description")

  // mime_codes, in the order of the codes 1 to 7
  const CODES: seq<seq<Byte>> := [
    Ascii("7bit"), Ascii("8bit"), Ascii("binary"), Ascii("quoted-printable"),
    Ascii("base64"), Ascii("ietf-token"), Ascii("x-token")]

  // strchr(s, ':')
  function FindColon(s: seq<Byte>): (k: nat)
    ensures k <= |s| && COLON !in s[..k] && (k < |s| ==> s[k] == COLON)
  {
    if s == [] || s[0] == COLON then 0 else FindColon(s[1..]) + 1
  }

  // while *val && *val <= 32: char is signed, so bytes from 128 are skipped too
  function SkipLead(s: seq<Byte>): seq<Byte> {
    if s != [] && (s[0] <= 32 || s[0] >= 128) then SkipLead(s[1..]) else s
  }

  // soap_code_int: the first code whose name matches
  ghost function CodeOf(v: seq<Byte>, k: nat): Encoding
    requires k <= 7
    decreases 7 - k
  {
    if k == 7 then 0 else if Is(v, CODES[k]) then k + 1 else CodeOf(v, k + 1)
  }

  // !soap_tag_cmp(s, name)
  ghost predicate Is(s: seq<Byte>, name: seq<Byte>) {
    TagCmp.Accepts(TagCmp.Text(s), name)
  }

  // One header line read into the part.
  ghost function Apply(f: Fields, line: seq<Byte>): Fields {
    var k := FindColon(line);
    if k == |line| then f
    else
      var key := line[..k];
      var val := SkipLead(line[k + 1..]);
      if Is(key, ID) then f.(id := Some(val))
      else if Is(key, LOCATION) then f.(location := Some(val))
      else if Is(key, DISPOSITION) then f
      else if Is(key, TYPE) then f.(kind := Some(val))
      else if Is(key, DESCRIPTION) then f.(description := Some(val))
      else if Is(key, CODING) then f.(encoding := CodeOf(val, 0))
      else f
  }

  method SetField(f0: Fields, line: seq<Byte>) returns (f: Fields)
    requires 0 !in line
    ensures f == Apply(f0, line)
  {
    hide Is, CodeOf;
    f := f0;
    var k := FindColon(line);
    if k < |line| {
      var key := line[..k];
      var val := SkipLead(line[k + 1..]);
      SkipLeadNul(line[k + 1..]);
      var m := Same(key, ID);
      if m {
        return f.(id := Some(val));
      }
      m := Same(key, LOCATION);
      if m {
        return f.(location := Some(val));
      }
      m := Same(key, DISPOSITION);
      if m {
        return f;
      }
      m := Same(key, TYPE);
      if m {
        return f.(kind := Some(val));
      }
      m := Same(key, DESCRIPTION);
      if m {
        return f.(description := Some(val));
      }
      m := Same(key, CODING);
      if m {
        var n := LookUpCode(val);
        return f.(encoding := n);
      }
    }
  }

  lemma SkipLeadNul(s: seq<Byte>)
    requires 0 !in s
    ensures 0 !in SkipLead(s)
  {
  }

  method Same(s: seq<Byte>, name: seq<Byte>) returns (m: bool)
    requires 0 !in s && 0 !in name
    ensures m == Is(s, name)
  {
    var r := TagCmp.Compare(s, name);
    m := r == 0;
  }

  method LookUpCode(v: seq<Byte>) returns (n: Encoding)
    requires 0 !in v
    ensures n == CodeOf(v, 0)
  {
    hide Is;
    var k := 0;
    while k < 7
      invariant k <= 7 && CodeOf(v, k) == CodeOf(v, 0)
    {
      var m := Same(v, CODES[k]);
      if m {
        return k + 1;
      }
      k := k + 1;
    }
    return 0;
  }

  // --- reading a block (soap_getmimehdr) ------------------------------------------------------

  datatype Head = Head(fields: Fields, rest: seq<Byte>) | NoHead

  // The header lines up to the empty one, line being the first.
  ghost function ReadFields(f: Fields, line: seq<Byte>, w: seq<Byte>): Head
    decreases |w|
  {
    if line == [] then Head(f, w)
    else if Line(w).Bad? then NoHead
    else
      LineShortens(w);
      ReadFields(Apply(f, line), CString(Line(w).line), Line(w).rest)
  }

  lemma SuffixOfLine(w: seq<Byte>, g: Got)
    requires Line(w).Got? && (g.Got? ==> Suffix(g.rest, Line(w).rest))
    ensures g.Got? ==> Suffix(g.rest, w)
  {
    LineShortens(w);
    if g.Got? {
      SuffixTrans(g.rest, Line(w).rest, w);
    }
  }

  // The first line that is not empty.
  function FirstLine(w: seq<Byte>): (g: Got)
    ensures g.Got? ==> |g.rest| < |w| && g.line != [] && 0 !in g.line && Suffix(g.rest, w)
    decreases |w|
  {
    if Line(w).Bad? then Bad
    else
      LineShortens(w);
      var s := CString(Line(w).line);
      if s == [] then SuffixOfLine(w, FirstLine(Line(w).rest)); FirstLine(Line(w).rest) else Got(s, Line(w).rest)
  }

  // The line without its trailing white space (the first two bytes are dashes).
  function Trim(s: seq<Byte>): (r: seq<Byte>)
    requires |s| >= 2 && s[..2] == DASHES
    ensures |r| >= 2
  {
    if s[|s| - 1] > 32 || s[|s| - 1] == 0 then s
    else assert s[|s| - 1] != s[..2][0] && s[|s| - 1] != s[..2][1]; assert s[..|s| - 1][..2] == s[..2]; Trim(s[..|s| - 1])
  }

  // A line that starts with two dashes is a delimiter line.
  predicate Dashed(line: seq<Byte>) {
    |line| >= 2 && line[..2] == DASHES
  }

  // given: the boundary, when it is known already.
  ghost function ReadHead(w: seq<Byte>, given: Option<seq<Byte>>): Head {
    var g := FirstLine(w);
    if g.Bad? then NoHead
    else if !Dashed(g.line) then ReadFields(NO_FIELDS, g.line, g.rest)
    else if (given.Some? && Trim(g.line)[2..] != given.value) || Line(g.rest).Bad? then NoHead
    else ReadFields(NO_FIELDS, CString(Line(g.rest).line), Line(g.rest).rest)
  }

  // The boundary that is known afterwards.
  function Learnt(w: seq<Byte>, given: Option<seq<Byte>>): Option<seq<Byte>> {
    if given.None? && FirstLine(w).Got? && Dashed(FirstLine(w).line) then Some(Trim(FirstLine(w).line)[2..]) else given
  }

  /** Reads the header block of a part: the delimiter line if there still is one,
      then field by field up to the empty line. */
  method GetMimeHdr(inp: Source, given: Option<seq<Byte>>) returns (ok: bool, f: Fields, boundary: Option<seq<Byte>>)
    modifies inp
    ensures ok <==> ReadHead(old(inp.rest), given).Head?
    ensures ok ==> ReadHead(old(inp.rest), given) == Head(f, inp.rest) && boundary == Learnt(old(inp.rest), given)
  {
    hide Line, Apply, Trim, CString, Is;
    ghost var w := inp.rest;
    ghost var goal := ReadHead(w, given);
    f, boundary := NO_FIELDS, given;
    var line: seq<Byte> := [];
    while line == []
      invariant if line == [] then FirstLine(inp.rest) == FirstLine(w) else FirstLine(w) == Got(line, inp.rest)
      invariant 0 !in line
      decreases |inp.rest| + if line == [] then 1 else 0
    {
      ghost var w' := inp.rest;
      ok, line := GetLine(inp);
      if !ok {
        return false, f, boundary;
      }
      LineShortens(w');
      line := CString(line);
    }
    if Dashed(line) {
      line := TrimLine(line);
      if boundary.Some? {
        if line[2..] != boundary.value {
          return false, f, boundary;
        }
      } else {
        boundary := Some(line[2..]);
      }
      ok, line := GetLine(inp);
      if !ok {
        return false, f, boundary;
      }
      line := CString(line);
    }
    while line != []
      invariant ReadFields(f, line, inp.rest) == goal && 0 !in line
      decreases |inp.rest| + if line == [] then 0 else 1
    {
      f := SetField(f, line);
      ghost var w' := inp.rest;
      ok, line := GetLine(inp);
      if !ok {
        return false, f, boundary;
      }
      LineShortens(w');
      line := CString(line);
    }
    ok := true;
  }

  method TrimLine(s: seq<Byte>) returns (r: seq<Byte>)
    requires |s| >= 2 && s[..2] == DASHES && 0 !in s
    ensures r == Trim(s) && |r| >= 2
  {
    var n := |s| - 1;
    assert s[..|s|] == s;
    while s[n] <= 32
      invariant 1 <= n < |s| && s[..n + 1][..2] == DASHES && Trim(s[..n + 1]) == Trim(s)
      decreases n
    {
      assert s[n] != s[..n + 1][..2][0] && s[n] != s[..n + 1][..2][1];
      assert s[..n + 1][..n] == s[..n];
      assert s[..n][..2] == s[..n + 1][..2];
      n := n - 1;
    }
    r := s[..n + 1];
    assert s[n] in s;
  }

  // --- writing a block (soap_putmimehdr) -------------------------------------------------------

  function LineOf(name: seq<Byte>, v: seq<Byte>): seq<Byte> {
    name + [COLON, BLANK] + v
  }

  function OptLine(name: seq<Byte>, v: Option<seq<Byte>>): seq<seq<Byte>> {
    if v.None? then [] else [LineOf(name, v.value)]
  }

  // soap_code_str
  function CodeName(n: Encoding): Option<seq<Byte>> {
    if n == 0 then None else Some(CODES[n - 1])
  }

  function FieldLines(f: Fields): seq<seq<Byte>> {
    OptLine(TYPE, f.kind) + OptLine(CODING, CodeName(f.encoding)) + OptLine(ID, f.id)
    + OptLine(LOCATION, f.location) + OptLine(DESCRIPTION, f.description)
  }

  function Flat(lines: seq<seq<Byte>>): seq<Byte> {
    if lines == [] then [] else lines[0] + [CR, LF] + Flat(lines[1..])
  }

  // What comes after the delimiter and its line end.
  function Block(f: Fields): seq<Byte> {
    Flat(FieldLines(f)) + [CR, LF]
  }

  // --- a block is read back --------------------------------------------------------------------

  // A header line: text without line ends or NUL, not starting with white space.
  ghost predicate Header(line: seq<Byte>) {
    line != [] && Clean(line) && 0 !in line && line[0] > 32
  }

  ghost predicate AllHeaders(lines: seq<seq<Byte>>) {
    forall i :: 0 <= i < |lines| ==> Header(lines[i])
  }

  ghost predicate AllFit(lines: seq<seq<Byte>>) {
    forall i :: 0 <= i < |lines| ==> Fits(lines[i])
  }

  ghost function ApplyAll(f: Fields, lines: seq<seq<Byte>>): Fields
    decreases |lines|
  {
    if lines == [] then f else ApplyAll(Apply(f, lines[0]), lines[1..])
  }

  lemma FlatStart(lines: seq<seq<Byte>>, rest: seq<Byte>)
    requires AllHeaders(lines)
    ensures var w := Flat(lines) + [CR, LF] + rest; w[0] != 32 && w[0] != 9
  {
    if lines != [] {
      assert (Flat(lines) + [CR, LF] + rest)[0] == lines[0][0];
    }
  }

  // The next line of a block: the first of lines, or the empty one.
  lemma NextLine(lines: seq<seq<Byte>>, rest: seq<Byte>)
    requires AllHeaders(lines)
    ensures lines == [] ==> Line(Flat(lines) + [CR, LF] + rest) == Got([], rest)
    ensures lines != [] ==> Line(Flat(lines) + [CR, LF] + rest)
                            == if Fits(lines[0]) then Got(lines[0], Flat(lines[1..]) + [CR, LF] + rest) else Bad
  {
    if lines == [] {
      assert Flat(lines) + [CR, LF] + rest == [] + [CR, LF] + rest;
      LineReads([], rest);
    } else {
      var more := Flat(lines[1..]) + [CR, LF] + rest;
      assert Header(lines[0]) && AllHeaders(lines[1..]);
      FlatStart(lines[1..], rest);
      assert Flat(lines) + [CR, LF] + rest == lines[0] + [CR, LF] + more;
      LineReads(lines[0], more);
    }
  }

  lemma {:induction false} LinesRead(f: Fields, line: seq<Byte>, lines: seq<seq<Byte>>, rest: seq<Byte>)
    requires line != [] && AllHeaders(lines)
    ensures ReadFields(f, line, Flat(lines) + [CR, LF] + rest)
            == if AllFit(lines) then Head(ApplyAll(Apply(f, line), lines), rest) else NoHead
    decreases |lines|
  {
    hide Line, Apply, CString, Clean;
    NextLine(lines, rest);
    var g := Apply(f, line);
    if lines == [] {
      NoNulString([]);
      assert ReadFields(g, [], rest) == Head(g, rest);
    } else {
      assert Header(lines[0]) && AllHeaders(lines[1..]);
      AllFitTail(lines);
      if Fits(lines[0]) {
        NoNulString(lines[0]);
        LinesRead(g, lines[0], lines[1..], rest);
      }
    }
  }

  // Which name a key is: names without '*' compare character by character.
  ghost predicate SameName(s: seq<Byte>, t: seq<Byte>) {
    |s| == |t| && forall i :: 0 <= i < |s| ==> t[i] == TagCmp.ANY || TagCmp.Lower(s[i]) == TagCmp.Lower(t[i])
  }

  lemma {:induction false} LiteralName(s: seq<Byte>, t: seq<Byte>)
    requires TagCmp.STAR !in t
    ensures TagCmp.Accepts(s, t) <==> SameName(s, t)
    decreases |s|
  {
    if s == [] || t == [] {
    } else if t[0] == TagCmp.ANY || TagCmp.Lower(s[0]) == TagCmp.Lower(t[0]) {
      LiteralName(s[1..], t[1..]);
      assert SameName(s, t) <==> SameName(s[1..], t[1..]) by {
        assert forall i :: 1 <= i < |s| ==> s[i] == s[1..][i - 1];
        assert forall i :: 1 <= i < |t| ==> t[i] == t[1..][i - 1];
      }
    } else {
      assert t[0] in t;
    }
  }

  lemma IsName(s: seq<Byte>, t: seq<Byte>)
    requires TagCmp.STAR !in t && TagCmp.QUOTE !in s
    ensures Is(s, t) <==> SameName(s, t)
  {
    TagCmp.TextOfAll(s);
    LiteralName(s, t);
  }

  ghost predicate Letters(s: seq<Byte>) {
    TagCmp.STAR !in s && TagCmp.QUOTE !in s && COLON !in s && 0 !in s && CR !in s && LF !in s
  }

  lemma NamesAreLetters()
    ensures Letters(TYPE) && Letters(CODING) && Letters(ID) && Letters(LOCATION) && Letters(DISPOSITION) && Letters(DESCRIPTION)
  {
    LongNames();
    AsciiLetters("Content-Type");
    AsciiLetters("Content-ID");
    AsciiLetters("Content-Location");
  }

  lemma LongNames()
    ensures Letters(CODING) && Letters(DISPOSITION) && Letters(DESCRIPTION)
  {
    AsciiLetters("Content-Transfer-Encoding");
    AsciiLetters("Content-Disposition");
    AsciiLetters("Content-Description");
  }

  lemma AsciiLetters(s: string)
    requires forall i :: 0 <= i < |s| ==> IsLetter(s[i])
    ensures Letters(Ascii(s))
  {
    var r := Ascii(s);
    forall c | c in r
      ensures c == DASH || 48 <= c <= 57 || 65 <= c <= 90 || 97 <= c <= 122
    {
      var i :| 0 <= i < |r| && r[i] == c;
      assert IsLetter(s[i]);
    }
  }

  // --- field values ----------------------------------------------------------------------------

  /** A value survives when it does not start with white space or a byte above 127. */
  predicate Led(v: seq<Byte>) {
    v == [] || 32 < v[0] < 128
  }

  lemma SkipLeadShort(v: seq<Byte>)
    ensures |SkipLead(v)| <= |v|
  {
  }

  lemma LedExactly(v: seq<Byte>)
    ensures SkipLead(v) == v <==> Led(v)
  {
    if !Led(v) {
      SkipLeadShort(v[1..]);
    }
  }

  // The key and the value of a line.
  lemma KeyAndValue(name: seq<Byte>, v: seq<Byte>)
    requires Letters(name)
    ensures var s := LineOf(name, v); FindColon(s) == |name| && |name| < |s| && s[..|name|] == name && SkipLead(s[|name| + 1..]) == SkipLead(v)
  {
    hide FindColon;
    var s := LineOf(name, v);
    var k := FindColon(s);
    assert s[..|name|] == name && s[|name|] == COLON;
    assert forall i: nat :: i < |name| ==> s[i] == name[i];
    assert forall n: nat :: |name| < n <= |s| ==> s[..n][|name|] == COLON;
    assert s[|name| + 1..] == [BLANK] + v && ([BLANK] + v)[1..] == v;
  }

  lemma NamesDiffer()
    ensures Is(ID, ID) && Is(LOCATION, LOCATION) && Is(TYPE, TYPE) && Is(DESCRIPTION, DESCRIPTION) && Is(CODING, CODING)
    ensures !Is(LOCATION, ID) && !Is(TYPE, ID) && !Is(DESCRIPTION, ID) && !Is(CODING, ID)
    ensures !Is(TYPE, LOCATION) && !Is(DESCRIPTION, LOCATION) && !Is(CODING, LOCATION)
    ensures !Is(TYPE, DISPOSITION) && !Is(DESCRIPTION, DISPOSITION) && !Is(CODING, DISPOSITION)
    ensures !Is(DESCRIPTION, TYPE) && !Is(CODING, TYPE) && !Is(CODING, DESCRIPTION)
  {
    hide Is;
    NamesAreLetters();
    forall s, t | s in {TYPE, CODING, ID, LOCATION, DESCRIPTION} && t in {TYPE, CODING, ID, LOCATION, DISPOSITION, DESCRIPTION}
      ensures Is(s, t) <==> SameName(s, t)
    {
      IsName(s, t);
    }
    assert DESCRIPTION[9] == 101 && DISPOSITION[9] == 105;
  }

  lemma ApplyField(f: Fields, v: seq<Byte>)
    ensures Apply(f, LineOf(TYPE, v)) == f.(kind := Some(SkipLead(v)))
    ensures Apply(f, LineOf(CODING, v)) == f.(encoding := CodeOf(SkipLead(v), 0))
    ensures Apply(f, LineOf(ID, v)) == f.(id := Some(SkipLead(v)))
    ensures Apply(f, LineOf(LOCATION, v)) == f.(location := Some(SkipLead(v)))
    ensures Apply(f, LineOf(DESCRIPTION, v)) == f.(description := Some(SkipLead(v)))
  {
    hide Is, SkipLead, FindColon, CodeOf, LineOf, Letters, Ascii;
    NamesAreLetters();
    NamesDiffer();
    KeyAndValue(TYPE, v);
    KeyAndValue(CODING, v);
    KeyAndValue(ID, v);
    KeyAndValue(LOCATION, v);
    KeyAndValue(DESCRIPTION, v);
  }

  lemma SameLetters(s: seq<Byte>, t: seq<Byte>)
    requires TagCmp.SameText(s, t) && Letters(t)
    ensures Letters(s)
  {
    forall c | c in s
      ensures c != TagCmp.STAR && c != TagCmp.QUOTE && c != COLON && c != 0 && c != CR && c != LF
    {
      var i :| 0 <= i < |s| && s[i] == c;
      assert TagCmp.SameLetter(s[i], t[i]) && t[i] in t;
    }
  }

  lemma IsCase(s: seq<Byte>, t: seq<Byte>, name: seq<Byte>)
    requires TagCmp.SameText(s, t) && Letters(s) && Letters(t)
    ensures Is(s, name) <==> Is(t, name)
  {
    TagCmp.TextOfAll(s);
    TagCmp.TextOfAll(t);
    assert TagCmp.SameText(name, name);
    TagCmp.CaseIgnored(s, name, t, name);
  }

  /** A key does what its name says in letters of any case: "content-type" sets the type. */
  lemma KeyCase(f: Fields, key: seq<Byte>, name: seq<Byte>, v: seq<Byte>)
    requires name in {TYPE, CODING, ID, LOCATION, DESCRIPTION} && TagCmp.SameText(key, name)
    ensures Apply(f, LineOf(key, v))
            == if name == TYPE then f.(kind := Some(SkipLead(v)))
               else if name == CODING then f.(encoding := CodeOf(SkipLead(v), 0))
               else if name == ID then f.(id := Some(SkipLead(v)))
               else if name == LOCATION then f.(location := Some(SkipLead(v)))
               else f.(description := Some(SkipLead(v)))
  {
    hide Is, SkipLead, FindColon, CodeOf, LineOf, Letters, Ascii;
    NamesAreLetters();
    SameLetters(key, name);
    KeyAndValue(key, v);
    KeyAndValue(name, v);
    forall x
      ensures Is(key, x) <==> Is(name, x)
    {
      IsCase(key, name, x);
    }
    ApplyField(f, v);
    assert Apply(f, LineOf(key, v)) == Apply(f, LineOf(name, v));
  }

  lemma CodesAreLetters()
    ensures forall k :: 0 <= k < 7 ==> Letters(CODES[k])
  {
    AsciiLetters("7bit");
    AsciiLetters("8bit");
    AsciiLetters("binary");
    AsciiLetters("quoted-printable");
    AsciiLetters("base64");
    AsciiLetters("ietf-token");
    AsciiLetters("x-token");
  }

  lemma CodesDiffer(k: nat, j: nat)
    requires j < k < 7
    ensures !SameName(CODES[k], CODES[j])
  {
    assert CODES[0][0] == 55 && CODES[1][0] == 56 && CODES[2][1] == 105 && CODES[4][1] == 97;
  }

  lemma {:induction false} CodeRead(k: nat, j: nat)
    requires j <= k < 7
    ensures CodeOf(CODES[k], j) == k + 1
    decreases k - j
  {
    hide Ascii;
    CodesAreLetters();
    IsName(CODES[k], CODES[j]);
    if j < k {
      CodesDiffer(k, j);
      CodeRead(k, j + 1);
    }
  }

  /** A value is the first code whose name it matches, and SOAP_MIME_NONE only when it
      matches none. */
  lemma {:induction false} FirstCode(v: seq<Byte>, j: nat)
    requires j <= 7
    ensures var n := CodeOf(v, j);
            if n == 0 then forall k :: j <= k < 7 ==> !Is(v, CODES[k])
            else j < n && Is(v, CODES[n - 1]) && forall k :: j <= k < n - 1 ==> !Is(v, CODES[k])
    decreases 7 - j
  {
    hide Is;
    if j < 7 && !Is(v, CODES[j]) {
      FirstCode(v, j + 1);
    }
  }

  // --- the round trip of a header block ----------------------------------------------------------

  function Skipped(v: Option<seq<Byte>>): Option<seq<Byte>> {
    if v.None? then None else Some(SkipLead(v.value))
  }

  function AllSkipped(f: Fields): Fields {
    Fields(Skipped(f.kind), f.encoding, Skipped(f.id), Skipped(f.location), Skipped(f.description))
  }

  predicate LedOption(v: Option<seq<Byte>>) {
    v.Some? ==> Led(v.value)
  }

  predicate AllLed(f: Fields) {
    LedOption(f.kind) && LedOption(f.id) && LedOption(f.location) && LedOption(f.description)
  }

  predicate HasField(f: Fields) {
    f.kind.Some? || f.encoding != 0 || f.id.Some? || f.location.Some? || f.description.Some?
  }

  // C strings without line ends
  ghost predicate Text(v: Option<seq<Byte>>) {
    v.Some? ==> Clean(v.value) && 0 !in v.value
  }

  ghost predicate AllText(f: Fields) {
    Text(f.kind) && Text(f.id) && Text(f.location) && Text(f.description)
  }

  lemma {:induction false} ApplyAllConcat(f: Fields, a: seq<seq<Byte>>, b: seq<seq<Byte>>)
    ensures ApplyAll(f, a + b) == ApplyAll(ApplyAll(f, a), b)
    decreases |a|
  {
    if a == [] {
      assert a + b == b;
    } else {
      assert (a + b)[1..] == a[1..] + b;
      ApplyAllConcat(Apply(f, a[0]), a[1..], b);
    }
  }

  lemma ApplyOpt(f: Fields, name: seq<Byte>, v: Option<seq<Byte>>)
    ensures ApplyAll(f, OptLine(name, v)) == if v.None? then f else Apply(f, LineOf(name, v.value))
  {
    hide Apply;
    if v.Some? {
      assert OptLine(name, v)[1..] == [];
    }
  }

  lemma FieldsApplied(f: Fields)
    ensures ApplyAll(NO_FIELDS, FieldLines(f)) == AllSkipped(f)
  {
    hide Apply, ApplyAll, OptLine, LineOf, SkipLead, Ascii;
    var l1, l2, l3 := OptLine(TYPE, f.kind), OptLine(CODING, CodeName(f.encoding)), OptLine(ID, f.id);
    var l4, l5 := OptLine(LOCATION, f.location), OptLine(DESCRIPTION, f.description);
    ApplyAllConcat(NO_FIELDS, l1 + l2 + l3 + l4, l5);
    ApplyAllConcat(NO_FIELDS, l1 + l2 + l3, l4);
    ApplyAllConcat(NO_FIELDS, l1 + l2, l3);
    ApplyAllConcat(NO_FIELDS, l1, l2);
    var g1 := NO_FIELDS.(kind := Skipped(f.kind));
    OptApplied(NO_FIELDS, f.kind);
    CodingApplied(g1, f.encoding);
    var g2 := g1.(encoding := f.encoding);
    OptApplied(g2, f.id);
    var g3 := g2.(id := Skipped(f.id));
    OptApplied(g3, f.location);
    var g4 := g3.(location := Skipped(f.location));
    OptApplied(g4, f.description);
  }

  lemma OptApplied(g: Fields, v: Option<seq<Byte>>)
    ensures g.kind.None? ==> ApplyAll(g, OptLine(TYPE, v)) == g.(kind := Skipped(v))
    ensures g.id.None? ==> ApplyAll(g, OptLine(ID, v)) == g.(id := Skipped(v))
    ensures g.location.None? ==> ApplyAll(g, OptLine(LOCATION, v)) == g.(location := Skipped(v))
    ensures g.description.None? ==> ApplyAll(g, OptLine(DESCRIPTION, v)) == g.(description := Skipped(v))
  {
    hide Apply, ApplyAll, OptLine, LineOf, SkipLead, Ascii;
    ApplyOpt(g, TYPE, v);
    ApplyOpt(g, ID, v);
    ApplyOpt(g, LOCATION, v);
    ApplyOpt(g, DESCRIPTION, v);
    if v.Some? {
      ApplyField(g, v.value);
    }
  }

  lemma CodingApplied(g: Fields, n: Encoding)
    requires g.encoding == 0
    ensures ApplyAll(g, OptLine(CODING, CodeName(n))) == g.(encoding := n)
  {
    hide Apply, CodeOf;
    ApplyOpt(g, CODING, CodeName(n));
    if n != 0 {
      ApplyField(g, CODES[n - 1]);
      LedExactly(CODES[n - 1]);
      CodeRead(n - 1, 0);
    }
  }

  lemma SkippedExactly(f: Fields)
    ensures AllSkipped(f) == f <==> AllLed(f)
  {
    hide SkipLead, Led;
    forall v: seq<Byte>
      ensures SkipLead(v) == v <==> Led(v)
    {
      LedExactly(v);
    }
  }

  lemma FieldLinesHeaders(f: Fields)
    requires AllText(f)
    ensures AllHeaders(FieldLines(f)) && (FieldLines(f) != [] <==> HasField(f))
    ensures FieldLines(f) != [] ==> |FieldLines(f)[0]| >= 2 && FieldLines(f)[0][..2] != DASHES
  {
    hide Letters, Ascii;
    NamesAreLetters();
    CodesAreLetters();
    forall name, v | name in {TYPE, CODING, ID, LOCATION, DESCRIPTION} && Clean(v) && 0 !in v
      ensures Header(LineOf(name, v)) && LineOf(name, v)[..2] != DASHES
    {
      LineIsHeader(name, v);
    }
    CodeIsText(f.encoding);
  }

  lemma CodeIsText(n: Encoding)
    ensures Text(CodeName(n))
  {
    CodesAreLetters();
  }

  lemma LineIsHeader(name: seq<Byte>, v: seq<Byte>)
    requires name in {TYPE, CODING, ID, LOCATION, DESCRIPTION} && Clean(v) && 0 !in v
    ensures Header(LineOf(name, v)) && LineOf(name, v)[..2] != DASHES
  {
    NamesAreLetters();
    var s := LineOf(name, v);
    assert s[0] == name[0] == 67;
    assert s[..2][0] == 67;
  }

  lemma {:induction false} ReadFieldsShortens(f: Fields, line: seq<Byte>, w: seq<Byte>)
    requires ReadFields(f, line, w).Head?
    ensures |ReadFields(f, line, w).rest| <= |w| && Suffix(ReadFields(f, line, w).rest, w)
    decreases |w|
  {
    hide Line, Apply, CString, Suffix;
    if line == [] {
      WholeSuffix(w);
    } else {
      LineShortens(w);
      ReadFieldsShortens(Apply(f, line), CString(Line(w).line), Line(w).rest);
      SuffixTrans(ReadFields(f, line, w).rest, Line(w).rest, w);
    }
  }

  lemma ReadHeadShortens(w: seq<Byte>, given: Option<seq<Byte>>)
    requires ReadHead(w, given).Head?
    ensures |ReadHead(w, given).rest| <= |FirstLine(w).rest| && Suffix(ReadHead(w, given).rest, w)
  {
    hide Line, Apply, CString, Trim, Suffix;
    var r := ReadHead(w, given).rest;
    var g := FirstLine(w);
    if !Dashed(g.line) {
      ReadFieldsShortens(NO_FIELDS, g.line, g.rest);
    } else {
      LineShortens(g.rest);
      ReadFieldsShortens(NO_FIELDS, CString(Line(g.rest).line), Line(g.rest).rest);
      SuffixTrans(r, Line(g.rest).rest, g.rest);
    }
    SuffixTrans(r, g.rest, w);
  }

  /** A header block written for f is read back as f, with exactly what follows it
      left to read, if and only if f has a field at all, no value starts with white
      space or a byte above 127, and every line fits the reader's buffer. */
  lemma HeadReads(f: Fields, rest: seq<Byte>, given: Option<seq<Byte>>)
    requires AllText(f)
    ensures ReadHead(Block(f) + rest, given) == Head(f, rest)
            <==> HasField(f) && AllLed(f) && AllFit(FieldLines(f))
  {
    hide Line, Apply, Header, AllText, AllLed, HasField, FieldLines, Trim;
    var lines := FieldLines(f);
    var w := Block(f) + rest;
    FieldLinesHeaders(f);
    FieldsApplied(f);
    SkippedExactly(f);
    assert w == Flat(lines) + [CR, LF] + rest;
    NextLine(lines, rest);
    if lines == [] {
      NoNulString([]);
      assert FirstLine(w) == FirstLine(rest);
      if ReadHead(w, given).Head? {
        ReadHeadShortens(w, given);
      }
    } else {
      assert Header(lines[0]) && AllHeaders(lines[1..]);
      AllFitTail(lines);
      if Fits(lines[0]) {
        HeaderIsString(lines[0]);
        LinesRead(NO_FIELDS, lines[0], lines[1..], rest);
      }
    }
  }

  lemma HeaderIsString(line: seq<Byte>)
    requires Header(line)
    ensures line != [] && CString(line) == line
  {
    NoNulString(line);
  }

  // --- behind a delimiter line -------------------------------------------------------------------

  // White space that ends no line.
  predicate Blanks(s: seq<Byte>) {
    forall i :: 0 <= i < |s| ==> 0 < s[i] <= 32 && s[i] != CR && s[i] != LF
  }

  // A boundary as section 5.1.1 of RFC 2046 has it: it does not end in white space.
  predicate EndsInText(boundary: seq<Byte>) {
    boundary == [] || boundary[|boundary| - 1] > 32
  }

  ghost predicate CleanString(s: seq<Byte>) {
    Clean(s) && 0 !in s
  }

  function DelimiterLine(boundary: seq<Byte>, blanks: seq<Byte>): (s: seq<Byte>)
    ensures Dashed(s)
  {
    assert (DASHES + boundary + blanks)[..2] == DASHES;
    DASHES + boundary + blanks
  }

  lemma {:induction false} TrimBack(boundary: seq<Byte>, blanks: seq<Byte>)
    requires EndsInText(boundary) && Blanks(blanks)
    ensures Trim(DelimiterLine(boundary, blanks)) == DASHES + boundary
    decreases |blanks|
  {
    var s := DelimiterLine(boundary, blanks);
    if blanks == [] {
      assert s == DASHES + boundary;
    } else {
      var k := |blanks| - 1;
      assert s[|s| - 1] == blanks[k];
      assert s[..|s| - 1] == DelimiterLine(boundary, blanks[..k]);
      TrimBack(boundary, blanks[..k]);
    }
  }

  lemma DelimiterLineReads(boundary: seq<Byte>, blanks: seq<Byte>, more: seq<Byte>)
    requires CleanString(boundary) && Blanks(blanks) && more != [] && more[0] != 32 && more[0] != 9
    ensures var line := DelimiterLine(boundary, blanks);
            FirstLine(line + [CR, LF] + more) == if Fits(line) then Got(line, more) else Bad
  {
    hide Line, CString;
    var line := DelimiterLine(boundary, blanks);
    forall c | c in line
      ensures c != 0 && c != CR && c != LF
    {
    }
    LineReads(line, more);
    NoNulString(line);
  }

  lemma LinesReadFirst(f: Fields, rest: seq<Byte>)
    requires AllText(f)
    ensures var w := Block(f) + rest;
            if Line(w).Bad? then !AllFit(FieldLines(f))
            else ReadFields(NO_FIELDS, CString(Line(w).line), Line(w).rest)
                 == if AllFit(FieldLines(f)) then Head(AllSkipped(f), rest) else NoHead
  {
    hide Line, Apply, Header, AllText, HasField, FieldLines;
    var lines := FieldLines(f);
    FieldLinesHeaders(f);
    FieldsApplied(f);
    assert Block(f) + rest == Flat(lines) + [CR, LF] + rest;
    NextLine(lines, rest);
    if lines == [] {
      NoNulString([]);
    } else {
      assert Header(lines[0]) && AllHeaders(lines[1..]);
      AllFitTail(lines);
      if Fits(lines[0]) {
        HeaderIsString(lines[0]);
        LinesRead(NO_FIELDS, lines[0], lines[1..], rest);
      }
    }
  }

  /** Behind a delimiter line, which may end in white space, the block is read if and only
      if that line is the one expected or none is, it fits the buffer as every other line
      does, and no value starts with white space or a byte above 127.  Any other boundary
      is refused. */
  lemma DelimitedHeadReads(f: Fields, boundary: seq<Byte>, blanks: seq<Byte>, rest: seq<Byte>, given: Option<seq<Byte>>)
    requires AllText(f) && CleanString(boundary) && EndsInText(boundary) && Blanks(blanks)
    ensures var w := DASHES + boundary + blanks + [CR, LF] + Block(f) + rest;
            && (ReadHead(w, given) == Head(f, rest)
                <==> (given.Some? ==> given.value == boundary) && Fits(DASHES + boundary + blanks) && AllLed(f) && AllFit(FieldLines(f)))
            && (given.Some? && given.value != boundary ==> ReadHead(w, given).NoHead?)
            && (Fits(DASHES + boundary + blanks) && given.None? ==> Learnt(w, given) == Some(boundary))
  {
    hide Line, CString, AllText, AllLed, AllFit, FieldLines, Block, Trim, Clean, ReadFields, EndsInText, Blanks;
    var line := DelimiterLine(boundary, blanks);
    var more := Block(f) + rest;
    BlockStart(f, rest);
    DelimiterLineReads(boundary, blanks, more);
    TrimBack(boundary, blanks);
    assert (DASHES + boundary)[2..] == boundary;
    LinesReadFirst(f, rest);
    SkippedExactly(f);
    assert DASHES + boundary + blanks + [CR, LF] + Block(f) + rest == line + [CR, LF] + more;
  }

  lemma BlockStart(f: Fields, rest: seq<Byte>)
    requires AllText(f)
    ensures var w := Block(f) + rest; w != [] && w[0] != 32 && w[0] != 9
  {
    hide FieldLines, Header, AllText;
    FieldLinesHeaders(f);
    FlatStart(FieldLines(f), rest);
    assert Block(f) + rest == Flat(FieldLines(f)) + [CR, LF] + rest;
  }

  lemma AllFitTail(lines: seq<seq<Byte>>)
    requires lines != []
    ensures AllFit(lines) <==> Fits(lines[0]) && AllFit(lines[1..])
  {
    assert forall i :: 0 <= i < |lines[1..]| ==> lines[1..][i] == lines[i + 1];
    assert forall i :: 1 <= i < |lines| ==> lines[i] == lines[1..][i - 1];
  }
}
