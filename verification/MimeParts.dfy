/** A whole multipart message: the parts written by soap_putmime and the loop that
    reads them back. */
module MimeParts {
  import opened Wire
  import opened Input
  import opened Mime
  import opened MimeHeader

  datatype Part = Part(fields: Fields, data: seq<Byte>)

  // --- writing ---------------------------------------------------------------------------------

  const CRLF: seq<Byte> := [CR, LF]

  // The parts, each after its delimiter and header, and the closing delimiter.
  function Message(boundary: seq<Byte>, parts: seq<Part>): seq<Byte> {
    if parts == [] then Delimiter(boundary) + DASHES
    else Delimiter(boundary) + CRLF + Block(parts[0].fields) + parts[0].data + Message(boundary, parts[1..])
  }

  // One header line of soap_putmimehdr, when there is a value.
  method PutField(sent: seq<Byte>, name: seq<Byte>, v: Option<seq<Byte>>) returns (out: seq<Byte>)
    ensures out == sent + Flat(OptLine(name, v))
  {
    FlatOpt(name, v);
    out := sent;
    if v.Some? {
      out := out + name + [COLON, BLANK] + v.value + CRLF;
    }
  }

  /** soap_putmimehdr: the bytes sent, and the block they make. */
  method PutMimeHdr(sent: seq<Byte>, boundary: seq<Byte>, f: Fields) returns (out: seq<Byte>)
    ensures out == sent + Delimiter(boundary) + CRLF + Block(f)
  {
    hide Ascii, Delimiter, Flat, OptLine;
    out := sent + Delimiter(boundary) + CRLF;
    out := PutField(out, TYPE, f.kind);
    out := PutField(out, CODING, CodeName(f.encoding));
    out := PutField(out, ID, f.id);
    out := PutField(out, LOCATION, f.location);
    out := PutField(out, DESCRIPTION, f.description);
    FlatFields(f);
    out := out + CRLF;
  }

  lemma FlatOpt(name: seq<Byte>, v: Option<seq<Byte>>)
    ensures Flat(OptLine(name, v)) == if v.None? then [] else name + [COLON, BLANK] + v.value + CRLF
  {
    if v.Some? {
      assert OptLine(name, v)[1..] == [];
    }
  }

  lemma {:induction false} FlatConcat(a: seq<seq<Byte>>, b: seq<seq<Byte>>)
    ensures Flat(a + b) == Flat(a) + Flat(b)
  {
    if a == [] {
      assert a + b == b;
    } else {
      assert (a + b)[1..] == a[1..] + b;
      FlatConcat(a[1..], b);
    }
  }

  lemma FlatFields(f: Fields)
    ensures Flat(FieldLines(f))
            == Flat(OptLine(TYPE, f.kind)) + Flat(OptLine(CODING, CodeName(f.encoding))) + Flat(OptLine(ID, f.id))
               + Flat(OptLine(LOCATION, f.location)) + Flat(OptLine(DESCRIPTION, f.description))
  {
    hide Flat, OptLine, Ascii;
    var l1, l2, l3 := OptLine(TYPE, f.kind), OptLine(CODING, CodeName(f.encoding)), OptLine(ID, f.id);
    var l4, l5 := OptLine(LOCATION, f.location), OptLine(DESCRIPTION, f.description);
    FlatConcat(l1 + l2 + l3 + l4, l5);
    FlatConcat(l1 + l2 + l3, l4);
    FlatConcat(l1 + l2, l3);
    FlatConcat(l1, l2);
  }

  /** soap_putmime: every part, then the closing delimiter. */
  method PutMime(sent: seq<Byte>, boundary: seq<Byte>, parts: seq<Part>) returns (out: seq<Byte>)
    ensures out == sent + Message(boundary, parts)
  {
    hide Block;
    out := sent;
    var i := 0;
    assert parts[0..] == parts;
    while i < |parts|
      invariant 0 <= i <= |parts| && out + Message(boundary, parts[i..]) == sent + Message(boundary, parts)
    {
      assert parts[i..][0] == parts[i] && parts[i..][1..] == parts[i + 1..];
      ghost var was := out;
      out := PutMimeHdr(out, boundary, parts[i].fields);
      out := out + parts[i].data;
      assert was + Message(boundary, parts[i..]) == out + Message(boundary, parts[i + 1..]);
      i := i + 1;
    }
    out := out + Delimiter(boundary) + DASHES;
  }

  // --- reading ---------------------------------------------------------------------------------

  // The first place from k on where d is seen with at least one byte after it.
  function Find(w: seq<Byte>, d: seq<Byte>, k: nat): (r: Option<nat>)
    ensures r.Some? ==> k <= r.value && r.value + |d| < |w|
    decreases |w| - k
  {
    if k + |d| >= |w| then None else if SeenAt(w, d, k) then Some(k) else Find(w, d, k + 1)
  }

  // White space, then a line end.
  function LineEndAfter(w: seq<Byte>): (r: Option<seq<Byte>>)
    ensures r.Some? ==> |r.value| < |w| && Suffix(r.value, w)
  {
    if w == [] then None
    else if w[0] == CR then if |w| > 1 && w[1] == LF then Some(w[2..]) else None
    else if w[0] <= 32 then
      var r := LineEndAfter(w[1..]);
      if r.None? then None else SuffixTail(r.value, w, 1); r
    else None
  }

  datatype Parsed = Parsed(parts: seq<Part>, rest: seq<Byte>) | Failed

  // What follows the content of a part: the end, or the header of the next part.
  datatype Next = Last(rest: seq<Byte>) | Another(fields: Fields, rest: seq<Byte>) | Broken

  ghost function AfterDelimiter(r: seq<Byte>, boundary: seq<Byte>): (n: Next)
    ensures !n.Broken? ==> |n.rest| < |r| && Suffix(n.rest, r)
  {
    if |r| >= 2 && r[..2] == DASHES then Last(r[2..])
    else if LineEndAfter(r).None? then Broken
    else
      var h := ReadHead(LineEndAfter(r).value, Some(boundary));
      if h.NoHead? then Broken
      else
        ReadHeadShortens(LineEndAfter(r).value, Some(boundary));
        SuffixTrans(h.rest, LineEndAfter(r).value, r);
        Another(h.fields, h.rest)
  }

  ghost function Joined(parts: seq<Part>, p: Parsed): Parsed {
    if p.Failed? then Failed else Parsed(parts + p.parts, p.rest)
  }

  // The part whose header is f and whose content starts w, and all after it.
  ghost function ReadParts(w: seq<Byte>, boundary: seq<Byte>, f: Fields): Parsed
    decreases |w|
  {
    var k := Find(w, Delimiter(boundary), 0);
    if k.None? then Failed
    else
      var n := AfterDelimiter(w[k.value + |Delimiter(boundary)|..], boundary);
      var part := Part(f, w[..k.value]);
      if n.Broken? then Failed
      else if n.Last? then Parsed([part], n.rest)
      else Joined([part], ReadParts(n.rest, boundary, n.fields))
  }

  lemma {:induction false} FindsFirst(w: seq<Byte>, d: seq<Byte>, k: nat, first: nat)
    requires k <= first && first + |d| < |w| && FirstAt(w, d, first)
    ensures Find(w, d, k) == Some(first)
    decreases first - k
  {
    if k < first {
      FindsFirst(w, d, k + 1, first);
    }
  }

  lemma {:induction false} FindsNone(w: seq<Byte>, d: seq<Byte>, k: nat)
    requires EndsBefore(w, d)
    ensures Find(w, d, k) == None
    decreases |w| - k
  {
    if k + |d| < |w| {
      FindsNone(w, d, k + 1);
    }
  }

  // No delimiter that is met is followed by a NUL.
  ghost predicate NulFreeRun(w: seq<Byte>, boundary: seq<Byte>)
    decreases |w|
  {
    var d := Delimiter(boundary);
    var k := Find(w, d, 0);
    && NulFree(w, d)
    && (k.Some? ==> var n := AfterDelimiter(w[k.value + |d|..], boundary);
                    n.Another? ==> NulFreeRun(n.rest, boundary))
  }

  lemma RunStep(w: seq<Byte>, boundary: seq<Byte>)
    requires NulFreeRun(w, boundary)
    ensures NulFree(w, Delimiter(boundary))
    ensures var k := Find(w, Delimiter(boundary), 0);
            k.Some? ==> var n := AfterDelimiter(w[k.value + |Delimiter(boundary)|..], boundary);
                        n.Another? ==> NulFreeRun(n.rest, boundary)
  {
    hide NulFree;
  }

  /** The tail of soap_get_mime_attachment, after the content: c is the byte after
      the delimiter. */
  method GetNext(inp: Source, boundary: seq<Byte>, c0: Byte) returns (more: bool, ok: bool, f: Fields)
    modifies inp
    ensures var n := AfterDelimiter([c0] + old(inp.rest), boundary);
            && (n.Broken? <==> !ok) && (ok ==> (more <==> n.Another?) && inp.rest == n.rest && (more ==> f == n.fields))
  {
    hide ReadHead;
    ghost var r := [c0] + inp.rest;
    var c: int := c0;
    more, f := false, NO_FIELDS;
    assert r[..1] == [c0];
    if c == DASH {
      var c1 := inp.Get();
      if c1 == DASH {
        assert r[..2] == DASHES && r[2..] == inp.rest;
        return false, true, f;
      }
      assert |r| >= 2 ==> r[..2][1] != DASH;
    } else {
      assert |r| >= 2 ==> r[..2][0] != DASH;
    }
    ghost var w := [c0] + inp.rest;
    assert c == DASH ==> LineEndAfter(r) == LineEndAfter(w) == None;
    assert c != DASH ==> w == r;
    while c != CR && c != EOF && c <= 32
      invariant EOF <= c < 256 && (c == EOF ==> inp.rest == [])
      invariant LineEndAfter(r) == if c == EOF then None else LineEndAfter([c as Byte] + inp.rest)
      decreases |inp.rest| + if c == EOF then 0 else 1
    {
      assert ([c as Byte] + inp.rest)[1..] == inp.rest;
      assert inp.rest == [] || inp.rest == [inp.rest[0]] + inp.rest[1..];
      c := inp.Get();
    }
    if c != CR {
      return false, false, f;
    }
    assert ([CR] + inp.rest)[1..] == inp.rest;
    assert |inp.rest| > 0 ==> ([CR] + inp.rest)[2..] == inp.rest[1..];
    c := inp.Get();
    if c != LF {
      return false, false, f;
    }
    assert LineEndAfter(r) == Some(inp.rest);
    var b;
    ok, f, b := GetMimeHdr(inp, Some(boundary));
    more := ok;
  }

  lemma ContentFound(w: seq<Byte>, d: seq<Byte>, k: nat, c: int, rest: seq<Byte>)
    requires FirstAt(w, d, k) && NextIs(w, k + |d|, c, rest)
    ensures Find(w, d, 0) == Some(k) && 0 <= c < 256 && w[k + |d|..] == [c as Byte] + rest
  {
    FindsFirst(w, d, 0, k);
  }

  // One more part read, k being where its delimiter is.
  lemma StepDone(before: seq<Part>, w: seq<Byte>, boundary: seq<Byte>, f: Fields, k: nat)
    requires Find(w, Delimiter(boundary), 0) == Some(k)
    ensures var n := AfterDelimiter(w[k + |Delimiter(boundary)|..], boundary);
            Joined(before, ReadParts(w, boundary, f))
            == if n.Broken? then Failed
               else if n.Last? then Parsed(before + [Part(f, w[..k])], n.rest)
               else Joined(before + [Part(f, w[..k])], ReadParts(n.rest, boundary, n.fields))
  {
    hide Find, AfterDelimiter, Delimiter;
    var n := AfterDelimiter(w[k + |Delimiter(boundary)|..], boundary);
    if n.Another? {
      var p := ReadParts(n.rest, boundary, n.fields);
      var one := [Part(f, w[..k])];
      assert p.Parsed? ==> before + (one + p.parts) == (before + one) + p.parts;
    }
  }

  /** soap_getmime: the content of the current part and every part after it. */
  method GetMime(sc: Scanner, boundary: seq<Byte>, f0: Fields) returns (ok: bool, parts: seq<Part>)
    requires sc.msgbuf.Length == MSGLEN && BoundaryOK(boundary) && NulFreeRun(sc.inp.rest, boundary)
    modifies sc.inp, sc.msgbuf
    ensures ok <==> ReadParts(old(sc.inp.rest), boundary, f0).Parsed?
    ensures ok ==> ReadParts(old(sc.inp.rest), boundary, f0) == Parsed(parts, sc.inp.rest)
  {
    hide Find, SeenAt, EndsBefore, NulFree, NulFreeRun, BoundaryOK, AfterDelimiter, Delimiter;
    ghost var goal := ReadParts(sc.inp.rest, boundary, f0);
    var f := f0;
    var more := true;
    parts := [];
    while more
      invariant more ==> NulFreeRun(sc.inp.rest, boundary)
      invariant more ==> goal == Joined(parts, ReadParts(sc.inp.rest, boundary, f))
      invariant !more ==> goal == Parsed(parts, sc.inp.rest)
      decreases |sc.inp.rest| + if more then 1 else 0
    {
      ghost var w, d := sc.inp.rest, Delimiter(boundary);
      ghost var before := parts;
      RunStep(w, boundary);
      var content, c;
      ok, content, c := sc.ReadContent(boundary);
      if !ok {
        FindsNone(w, d, 0);
        return false, parts;
      }
      ContentFound(w, d, |content|, c, sc.inp.rest);
      ghost var n := AfterDelimiter(w[|content| + |d|..], boundary);
      parts := parts + [Part(f, content)];
      StepDone(before, w, boundary, f, |content|);
      more, ok, f := GetNext(sc.inp, boundary, c);
      if !ok {
        return false, parts;
      }
    }
    ok := true;
  }

  // --- the round trip --------------------------------------------------------------------------

  // Whether a part can be told from what follows it.
  ghost predicate Readable(f: Fields) {
    AllText(f) && HasField(f) && AllLed(f) && AllFit(FieldLines(f))
  }

  ghost predicate AllReadable(parts: seq<Part>) {
    forall i :: 0 <= i < |parts| ==> Readable(parts[i].fields)
  }

  ghost predicate NoDelimiter(boundary: seq<Byte>, parts: seq<Part>) {
    forall i :: 0 <= i < |parts| ==> !Occurs(parts[i].data, Delimiter(boundary))
  }

  lemma OccursInPrefix(data: seq<Byte>, more: seq<Byte>, d: seq<Byte>, j: nat)
    requires j + |d| <= |data|
    ensures OccursAt(data + more, d, j) <==> OccursAt(data, d, j)
  {
    assert (data + more)[j..j + |d|] == data[j..j + |d|];
  }

  // A delimiter cannot start inside the data and end in the one that follows.
  lemma NoOverlap(data: seq<Byte>, boundary: seq<Byte>, more: seq<Byte>, j: nat)
    requires CR !in boundary && j < |data| < j + |Delimiter(boundary)|
    ensures !OccursAt(data + Delimiter(boundary) + more, Delimiter(boundary), j)
  {
    var d := Delimiter(boundary);
    var w := data + d + more;
    var i := |data| - j;
    assert w[|data|] == CR;
    assert j + |d| <= |w| ==> w[j..j + |d|][i] == w[|data|];
    assert d[i] != CR by {
      if i >= 4 {
        assert d[i] in boundary;
      }
    }
  }

  /** The content read is the data written if and only if the data does not contain
      the delimiter and no byte of the boundary is above 127. */
  lemma ContentExactly(data: seq<Byte>, boundary: seq<Byte>, more: seq<Byte>)
    requires CR !in boundary && more != []
    ensures Find(data + Delimiter(boundary) + more, Delimiter(boundary), 0) == Some(|data|)
            <==> SevenBit(boundary) && !Occurs(data, Delimiter(boundary))
  {
    var d := Delimiter(boundary);
    var w := data + d + more;
    assert w == data + (d + more);
    if !SevenBit(boundary) {
      HighByteNeverSeen(w, boundary);
      FindsNone(w, d, 0);
    } else if Occurs(data, d) {
      var j :| OccursAt(data, d, j);
      OccursInPrefix(data, d + more, d, j);
      SeenIs(w, d, j);
      FindNotAfter(w, d, 0, j);
    } else {
      hide Delimiter;
      forall j: nat | j < |data|
        ensures !SeenAt(w, d, j)
      {
        SeenIs(w, d, j);
        if j + |d| <= |data| {
          OccursInPrefix(data, d + more, d, j);
        } else {
          NoOverlap(data, boundary, more, j);
        }
      }
      DelimiterSevenBit(boundary);
      assert w[|data|..|data| + |d|] == d;
      SeenIs(w, d, |data|);
      FindsFirst(w, d, 0, |data|);
    }
  }

  lemma DelimiterSevenBit(boundary: seq<Byte>)
    ensures SevenBit(Delimiter(boundary)) <==> SevenBit(boundary)
  {
    var d := Delimiter(boundary);
    assert boundary == d[4..];
    if SevenBit(d) {
      assert forall i :: 0 <= i < |boundary| ==> boundary[i] == d[4 + i];
    }
  }

  lemma {:induction false} FindNotAfter(w: seq<Byte>, d: seq<Byte>, k: nat, j: nat)
    requires k <= j && SeenAt(w, d, j) && j + |d| < |w|
    ensures Find(w, d, k).Some? && Find(w, d, k).value <= j
    decreases j - k
  {
    if !SeenAt(w, d, k) {
      FindNotAfter(w, d, k + 1, j);
    }
  }

  /** What was written is read back exactly when no byte of the boundary is above 127:
      the root content and every part with its fields and data, and nothing beyond the
      closing delimiter is consumed.  With such a byte nothing is read. */
  lemma {:induction false} MessageReadBack(root: Part, parts: seq<Part>, boundary: seq<Byte>, epilogue: seq<Byte>)
    requires CR !in boundary && AllReadable(parts) && NoDelimiter(boundary, [root] + parts)
    ensures ReadParts(root.data + Message(boundary, parts) + epilogue, boundary, root.fields)
            == if SevenBit(boundary) then Parsed([root] + parts, epilogue) else Failed
    ensures NulFreeRun(root.data + Message(boundary, parts) + epilogue, boundary)
    decreases |parts|
  {
    hide NulFreeRun, Readable, Delimiter, Find, Occurs, Block, ReadHead, AfterDelimiter, ReadParts, AllReadable, NoDelimiter;
    var d := Delimiter(boundary);
    var w := root.data + Message(boundary, parts) + epilogue;
    Tails(root, parts, boundary);
    if !SevenBit(boundary) {
      NothingSeen(w, boundary, root.fields);
    } else if parts == [] {
      var more := DASHES + epilogue;
      assert w == root.data + d + more;
      OnePart(root, more, boundary);
      AtEnd(epilogue, boundary);
    } else {
      var next := parts[0].data + Message(boundary, parts[1..]) + epilogue;
      var more := CRLF + (Block(parts[0].fields) + next);
      assert w == root.data + d + more;
      OnePart(root, more, boundary);
      NextHeader(parts[0].fields, next, boundary);
      MessageReadBack(parts[0], parts[1..], boundary, epilogue);
    }
  }

  lemma NothingSeen(w: seq<Byte>, boundary: seq<Byte>, f: Fields)
    requires !SevenBit(boundary)
    ensures ReadParts(w, boundary, f) == Failed && NulFreeRun(w, boundary)
  {
    var d := Delimiter(boundary);
    HighByteNeverSeen(w, boundary);
    FindsNone(w, d, 0);
    hide Delimiter, SeenAt, AfterDelimiter;
    assert forall k: nat :: FirstAt(w, d, k) ==> SeenAt(w, d, k);
  }

  /** The shortest such case: an empty root part and the closing delimiter. */
  lemma HighByteLost()
    ensures ReadParts(Message([200], []), [200], NO_FIELDS) == Failed
  {
    var b: seq<Byte> := [200];
    assert b[0] == 200;
    NothingSeen(Message(b, []), b, NO_FIELDS);
  }

  // A content without the delimiter, and what the rest is read as.
  lemma OnePart(root: Part, more: seq<Byte>, boundary: seq<Byte>)
    requires CR !in boundary && SevenBit(boundary) && more != [] && more[0] != 0 && !Occurs(root.data, Delimiter(boundary))
    ensures var n := AfterDelimiter(more, boundary);
            n.Last? || (n.Another? && NulFreeRun(n.rest, boundary)) ==> NulFreeRun(root.data + Delimiter(boundary) + more, boundary)
    ensures var n := AfterDelimiter(more, boundary);
            ReadParts(root.data + Delimiter(boundary) + more, boundary, root.fields)
            == if n.Broken? then Failed
               else if n.Last? then Parsed([root], n.rest)
               else Joined([root], ReadParts(n.rest, boundary, n.fields))
  {
    hide Delimiter, Find, Occurs, AfterDelimiter, FirstAt;
    var d := Delimiter(boundary);
    var w := root.data + d + more;
    ContentExactly(root.data, boundary, more);
    forall k: nat | FirstAt(w, d, k) && k + |d| < |w|
      ensures w[k + |d|] != 0
    {
      FindsFirst(w, d, 0, k);
    }
    assert w[|root.data| + |d|..] == more && w[..|root.data|] == root.data;
  }

  lemma AtEnd(epilogue: seq<Byte>, boundary: seq<Byte>)
    ensures AfterDelimiter(DASHES + epilogue, boundary) == Last(epilogue)
  {
    var r := DASHES + epilogue;
    assert r[..2] == DASHES && r[2..] == epilogue;
  }

  lemma NextHeader(f: Fields, next: seq<Byte>, boundary: seq<Byte>)
    requires Readable(f)
    ensures AfterDelimiter(CRLF + (Block(f) + next), boundary) == Another(f, next)
  {
    hide ReadHead, Block, AllText, HasField, AllLed, AllFit;
    var r := CRLF + (Block(f) + next);
    assert r[..2][0] != DASH && r[2..] == Block(f) + next;
    HeadReads(f, next, Some(boundary));
  }

  // White space that may stand behind a delimiter.
  predicate Padding(s: seq<Byte>) {
    forall i :: 0 <= i < |s| ==> s[i] <= 32 && s[i] != CR
  }

  lemma {:induction false} PaddingSkipped(blanks: seq<Byte>, c: Byte, v: seq<Byte>)
    requires Padding(blanks)
    ensures LineEndAfter(blanks + CRLF + v) == Some(v)
    ensures c > 32 ==> LineEndAfter(blanks + [c] + v) == None
    decreases |blanks|
  {
    if blanks == [] {
      assert (blanks + CRLF + v)[2..] == v;
    } else {
      assert (blanks + CRLF + v)[1..] == blanks[1..] + CRLF + v;
      assert (blanks + [c] + v)[1..] == blanks[1..] + [c] + v;
      PaddingSkipped(blanks[1..], c, v);
    }
  }

  /** Behind a delimiter white space is skipped up to the line end and the header of the
      next part; anything else there is an error. */
  lemma PaddedHeader(f: Fields, blanks: seq<Byte>, c: Byte, next: seq<Byte>, boundary: seq<Byte>)
    requires Readable(f) && Padding(blanks)
    ensures AfterDelimiter(blanks + CRLF + (Block(f) + next), boundary) == Another(f, next)
    ensures c > 32 && (blanks == [] ==> c != DASH) ==> AfterDelimiter(blanks + [c] + next, boundary).Broken?
  {
    hide ReadHead, Block, AllText, HasField, AllLed, AllFit, LineEndAfter;
    var r, q := blanks + CRLF + (Block(f) + next), blanks + [c] + next;
    assert r[..2][0] == r[0] != DASH && (|q| >= 2 ==> q[..2][0] == q[0]);
    PaddingSkipped(blanks, c, Block(f) + next);
    PaddingSkipped(blanks, c, next);
    HeadReads(f, next, Some(boundary));
  }

  lemma Tails(root: Part, parts: seq<Part>, boundary: seq<Byte>)
    requires AllReadable(parts) && NoDelimiter(boundary, [root] + parts)
    ensures !Occurs(root.data, Delimiter(boundary)) && (parts == [] ==> [root] + parts == [root])
    ensures parts != [] ==> Readable(parts[0].fields) && AllReadable(parts[1..]) && [parts[0]] + parts[1..] == parts
    ensures NoDelimiter(boundary, parts)
  {
    hide Readable, Occurs, Delimiter;
    assert ([root] + parts)[0] == root;
    assert forall i :: 0 <= i < |parts| ==> parts[i] == ([root] + parts)[i + 1];
  }

  lemma BoundaryNoCr(boundary: seq<Byte>)
    requires BoundaryOK(boundary)
    ensures CR !in boundary
  {
  }
}
