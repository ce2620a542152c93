/** The scanner that reads the content of a MIME part up to its delimiter. */
module Mime {
  import opened Wire
  import opened Input

  const DASH: Byte := 45
  const BLOCK: nat := 1024   // sizeof(soap->tmpbuf)
  const MSGLEN: nat := 1024  // sizeof(soap->msgbuf)

  // CRLF "--" boundary
  function Delimiter(boundary: seq<Byte>): (d: seq<Byte>)
    ensures |d| == 4 + |boundary|
  {
    [CR, LF, DASH, DASH] + boundary
  }

  predicate OccursAt(w: seq<Byte>, d: seq<Byte>, k: nat) {
    k + |d| <= |w| && w[k..k + |d|] == d
  }

  predicate SevenBit(d: seq<Byte>) {
    forall i :: 0 <= i < |d| ==> d[i] < 128
  }

  // The scanner stops at k: bytes come in as 0 to 255 and the delimiter is held in
  // signed chars, so that one with a byte above 127 is never seen.
  predicate SeenAt(w: seq<Byte>, d: seq<Byte>, k: nat) {
    k + |d| <= |w| && forall i :: 0 <= i < |d| ==> w[k + i] == Signed(d[i])
  }

  lemma SeenIs(w: seq<Byte>, d: seq<Byte>, k: nat)
    ensures SeenAt(w, d, k) <==> SevenBit(d) && OccursAt(w, d, k)
  {
    if SeenAt(w, d, k) {
      assert w[k..k + |d|] == d;
    }
  }

  // k is the first place where d is seen in w.
  ghost predicate FirstAt(w: seq<Byte>, d: seq<Byte>, k: nat) {
    SeenAt(w, d, k) && forall j :: 0 <= j < k ==> !SeenAt(w, d, j)
  }

  ghost predicate Occurs(w: seq<Byte>, d: seq<Byte>) {
    exists k :: OccursAt(w, d, k)
  }

  // A boundary that fits the line buffer and cannot be confused with a line end
  // or the end of a C string.
  ghost predicate BoundaryOK(boundary: seq<Byte>) {
    CR !in boundary && 0 !in boundary && |boundary| + 4 < MSGLEN
  }

  // The scanner's memory: the bytes rp are to be delivered again, then, if flag,
  // a CR already taken from the stream, then the stream.
  ghost function Ahead(rp: seq<Byte>, flag: bool, rest: seq<Byte>): seq<Byte> {
    rp + (if flag then [CR] else []) + rest
  }

  // out has been delivered of w; no delimiter starts in it.
  ghost predicate Scanned(w: seq<Byte>, d: seq<Byte>, out: seq<Byte>, rp: seq<Byte>, flag: bool, rest: seq<Byte>) {
    && w == out + Ahead(rp, flag, rest)
    && CR !in rp
    && forall j :: 0 <= j < |out| ==> !SeenAt(w, d, j)
  }

  // Delivering one more byte where no delimiter starts.
  lemma Deliver(w: seq<Byte>, d: seq<Byte>, out: seq<Byte>, b: Byte, more: seq<Byte>)
    requires w == out + [b] + more
    requires forall j :: 0 <= j < |out| ==> !SeenAt(w, d, j)
    requires !SeenAt(w, d, |out|)
    ensures forall j :: 0 <= j < |out + [b]| ==> !SeenAt(w, d, j)
  {
  }

  // A byte other than CR starts no delimiter.
  lemma NotCR(w: seq<Byte>, boundary: seq<Byte>, k: nat)
    requires k < |w| && w[k] != CR
    ensures !SeenAt(w, Delimiter(boundary), k)
  {
    assert Delimiter(boundary)[0] == CR;
  }

  class Scanner {
    const msgbuf: array<Byte>
    const inp: Source

    constructor (s: Source)
      ensures inp == s && msgbuf.Length == MSGLEN && fresh(msgbuf)
    {
      inp := s;
      msgbuf := new Byte[MSGLEN](_ => 0);
    }

    // strcpy(t, "\n--"), strncat(t, boundary), the rest zero
    method SetPattern(boundary: seq<Byte>)
      requires msgbuf.Length == MSGLEN && BoundaryOK(boundary)
      modifies msgbuf
      ensures msgbuf[..3 + |boundary|] == Delimiter(boundary)[1..] && msgbuf[3 + |boundary|] == 0
    {
      var p := [LF, DASH, DASH] + boundary;
      forall i | 0 <= i < MSGLEN {
        msgbuf[i] := if i < |p| then p[i] else 0;
      }
      assert Delimiter(boundary)[1..] == p;
    }

    // do c = getchar while c equals the next pattern char, which is signed: k bytes matched
    method MatchPattern(boundary: seq<Byte>) returns (c: int, k: nat)
      requires msgbuf.Length == MSGLEN && BoundaryOK(boundary)
      requires msgbuf[..3 + |boundary|] == Delimiter(boundary)[1..] && msgbuf[3 + |boundary|] == 0
      requires NoNul(inp.rest, Delimiter(boundary)[1..])
      modifies inp
      ensures EOF <= c < 256 && k <= 3 + |boundary|
      ensures c == EOF ==> old(inp.rest) <= Delimiter(boundary)[1..]
      ensures c != EOF ==> k < |old(inp.rest)| && c == old(inp.rest)[k] && inp.rest == old(inp.rest)[k + 1..]
      ensures c != EOF ==> old(inp.rest)[..k] == Delimiter(boundary)[1..][..k] && SevenBit(Delimiter(boundary)[1..][..k])
      ensures c != EOF && k < 3 + |boundary| ==> c != Signed(Delimiter(boundary)[1..][k])
    {
      ghost var w, p := inp.rest, Delimiter(boundary)[1..];
      k := 0;
      c := inp.Get();
      while c == Signed(msgbuf[k])
        invariant k <= |p| && EOF <= c < 256
        invariant c == EOF ==> w <= p && inp.rest == []
        invariant c != EOF ==> k < |w| && c == w[k] && inp.rest == w[k + 1..] && w[..k] == p[..k] && SevenBit(p[..k])
        decreases |p| - k
      {
        assert p[..|p|] == p;
        assert k < |p| ==> msgbuf[k] == msgbuf[..3 + |boundary|][k] == p[k];
        assert c != EOF && k < |p| ==> w[..k + 1] == p[..k + 1] && SevenBit(p[..k + 1]);
        k := k + 1;
        c := inp.Get();
        assert c == EOF ==> w[..|w|] == w;
      }
      if k < |p| {
        assert msgbuf[k] == msgbuf[..3 + |boundary|][k];
      }
    }

    // One turn of the inner loop: the next content byte b, or what ended it.
    method NextByte(boundary: seq<Byte>, m0: nat, t0: nat, flag0: bool, ghost w: seq<Byte>, ghost out: seq<Byte>)
      returns (turn: Turn, b: Byte, c: int, m: nat, t: nat, flag: bool)
      requires msgbuf.Length == MSGLEN && BoundaryOK(boundary) && t0 + m0 <= MSGLEN && NulFree(w, Delimiter(boundary))
      requires Scanned(w, Delimiter(boundary), out, msgbuf[t0..t0 + m0], flag0, inp.rest)
      modifies inp, msgbuf
      ensures turn == More ==> t + m <= MSGLEN && Scanned(w, Delimiter(boundary), out + [b], msgbuf[t..t + m], flag, inp.rest)
      ensures turn == End ==> FirstAt(w, Delimiter(boundary), |out|) && out == w[..|out|]
                              && NextIs(w, |out| + |Delimiter(boundary)|, c, inp.rest)
      ensures turn == AtEof ==> EndsBefore(w, Delimiter(boundary))
    {
      hide Scanned, FirstAt, NulFree, EndsBefore, NextIs;
      m, t, flag, b, c := m0, t0, flag0, 0, 0;
      if m > 0 {
        b := msgbuf[t];
        assert msgbuf[t..t + m] == [b] + msgbuf[t + 1..t + m];
        ReplayStep(w, boundary, out, b, msgbuf[t + 1..t + m], flag, inp.rest);
        t := t + 1;
        m := m - 1;
        return More, b, c, m, t, flag;
      }
      assert msgbuf[t..t + m] == [];
      ghost var rest0 := inp.rest;
      if !flag {
        c := inp.Get();
        if c == EOF {
          NothingLeft(w, Delimiter(boundary), out, rest0);
          return AtEof, b, c, m, t, flag;
        }
        TakeOne(w, boundary, out, rest0);
      } else {
        c := CR;
      }
      if c == CR {
        turn, c, m, t, flag := AfterCr(boundary, w, out);
        return turn, CR, c, m, t, flag;
      }
      return More, c, c, m, t, flag;
    }

    // A CR was taken from the stream: the delimiter, or a CR to be delivered and the
    // bytes that matched behind it.
    method AfterCr(boundary: seq<Byte>, ghost w: seq<Byte>, ghost out: seq<Byte>) returns (turn: Turn, c: int, m: nat, t: nat, flag: bool)
      requires msgbuf.Length == MSGLEN && BoundaryOK(boundary) && NulFree(w, Delimiter(boundary))
      requires Scanned(w, Delimiter(boundary), out, [], true, inp.rest)
      modifies inp, msgbuf
      ensures turn == More ==> t + m <= MSGLEN && Scanned(w, Delimiter(boundary), out + [CR], msgbuf[t..t + m], flag, inp.rest)
      ensures turn == End ==> FirstAt(w, Delimiter(boundary), |out|) && out == w[..|out|]
                              && NextIs(w, |out| + |Delimiter(boundary)|, c, inp.rest)
      ensures turn == AtEof ==> EndsBefore(w, Delimiter(boundary))
    {
      hide Scanned, FirstAt, NulFree, EndsBefore, NextIs;
      ghost var rest := inp.rest;
      NulFreeAt(w, boundary, out, rest);
      SetPattern(boundary);
      var k;
      c, k := MatchPattern(boundary);
      if c == EOF {
        EndReached(w, boundary, out, rest);
        return AtEof, c, 0, 0, false;
      }
      if k == 3 + |boundary| {
        Found(w, boundary, out, rest, k);
        return End, c, 0, 0, false;
      }
      CrStep(w, boundary, out, rest, k);
      assert msgbuf[..k] == msgbuf[..3 + |boundary|][..k];
      msgbuf[k] := c;
      flag := c == CR;
      m := if flag then k else k + 1;
      t := 0;
      assert msgbuf[..k + 1] == msgbuf[..k] + [msgbuf[k]];
      turn := More;
    }

    /** Reads the content of the current part: everything up to the delimiter.
        c is the byte after it.  Fails with EOF when no delimiter followed by at
        least one byte comes. */
    method ReadContent(boundary: seq<Byte>) returns (ok: bool, content: seq<Byte>, c: int)
      requires msgbuf.Length == MSGLEN && BoundaryOK(boundary) && NulFree(inp.rest, Delimiter(boundary))
      modifies inp, msgbuf
      ensures ok ==> FirstAt(old(inp.rest), Delimiter(boundary), |content|) && content == old(inp.rest)[..|content|]
      ensures ok ==> NextIs(old(inp.rest), |content| + |Delimiter(boundary)|, c, inp.rest)
      ensures !ok ==> EndsBefore(old(inp.rest), Delimiter(boundary))
    {
      hide FirstAt, NulFree, EndsBefore, NextIs, Scanned;
      ghost var w, d := inp.rest, Delimiter(boundary);
      var m, t, flag := 0, 0, false;
      ghost var out: seq<Byte> := [];
      content := [];
      var blk := new Byte[BLOCK];
      var i := 0;
      ScanStart(w, d, msgbuf[0..0]);
      while true
        invariant 0 <= i < BLOCK && out == content + blk[..i]
        invariant 0 <= t && 0 <= m && t + m <= MSGLEN && Scanned(w, d, out, msgbuf[t..t + m], flag, inp.rest)
        decreases |w| - |out|
      {
        var turn, b;
        turn, b, c, m, t, flag := NextByte(boundary, m, t, flag, w, out);
        if turn == AtEof {
          return false, [], c;
        }
        if turn == End {
          content := content + blk[..i];
          return true, content, c;
        }
        ScannedLength(w, d, out + [b], msgbuf[t..t + m], flag, inp.rest);
        blk[i] := b;
        out := out + [b];
        i := i + 1;
        assert blk[..i] == blk[..i - 1] + [b];
        if i == BLOCK {
          assert blk[..i] == blk[..];
          content := content + blk[..];
          i := 0;
        }
      }
    }
  }

  datatype Turn = More | End | AtEof

  // c stands at place e of w and rest comes after it.
  ghost predicate NextIs(w: seq<Byte>, e: nat, c: int, rest: seq<Byte>) {
    e < |w| && c == w[e] && rest == w[e + 1..]
  }

  // d is seen at most at the very end of w.
  ghost predicate EndsBefore(w: seq<Byte>, d: seq<Byte>) {
    forall k: nat :: k + |d| < |w| ==> !SeenAt(w, d, k)
  }

  lemma ScanStart(w: seq<Byte>, d: seq<Byte>, e: seq<Byte>)
    requires e == []
    ensures Scanned(w, d, [], e, false, w)
  {
  }

  lemma ScannedLength(w: seq<Byte>, d: seq<Byte>, out: seq<Byte>, rp: seq<Byte>, flag: bool, rest: seq<Byte>)
    requires Scanned(w, d, out, rp, flag, rest)
    ensures |out| <= |w|
  {
  }

  // A byte taken from the stream: plain content, or a CR that may start a delimiter.
  lemma TakeOne(w: seq<Byte>, boundary: seq<Byte>, out: seq<Byte>, rest: seq<Byte>)
    requires Scanned(w, Delimiter(boundary), out, [], false, rest) && rest != []
    ensures if rest[0] == CR then Scanned(w, Delimiter(boundary), out, [], true, rest[1..])
            else Scanned(w, Delimiter(boundary), out + [rest[0]], [], false, rest[1..])
  {
    assert rest == [rest[0]] + rest[1..];
    if rest[0] != CR {
      assert Scanned(w, Delimiter(boundary), out, [rest[0]] + [], false, rest[1..]);
      ReplayStep(w, boundary, out, rest[0], [], false, rest[1..]);
    }
  }

  // The delimiter p, when it is seen at the front, is not followed by a NUL.
  ghost predicate NoNul(w: seq<Byte>, p: seq<Byte>) {
    |p| < |w| && SevenBit(p) && w[..|p|] == p ==> w[|p|] != 0
  }

  // The first delimiter in w is not followed by a NUL.
  ghost predicate NulFree(w: seq<Byte>, d: seq<Byte>) {
    forall k: nat :: FirstAt(w, d, k) && k + |d| < |w| ==> w[k + |d|] != 0
  }

  lemma ReplayStep(w: seq<Byte>, boundary: seq<Byte>, out: seq<Byte>, b: Byte, rp: seq<Byte>, flag: bool, rest: seq<Byte>)
    requires Scanned(w, Delimiter(boundary), out, [b] + rp, flag, rest)
    ensures Scanned(w, Delimiter(boundary), out + [b], rp, flag, rest)
  {
    assert w == out + [b] + Ahead(rp, flag, rest);
    assert ([b] + rp)[0] == b && forall i :: 0 <= i < |rp| ==> rp[i] == ([b] + rp)[i + 1];
    NotCR(w, boundary, |out|);
    Deliver(w, Delimiter(boundary), out, b, Ahead(rp, flag, rest));
  }

  lemma NothingLeft(w: seq<Byte>, d: seq<Byte>, out: seq<Byte>, rest: seq<Byte>)
    requires Scanned(w, d, out, [], false, rest) && rest == [] && |d| > 0
    ensures EndsBefore(w, d)
  {
    assert w == out;
  }

  lemma AtCr(w: seq<Byte>, boundary: seq<Byte>, out: seq<Byte>, rest: seq<Byte>)
    requires w == out + ([CR] + rest)
    ensures var d := Delimiter(boundary);
            SeenAt(w, d, |out|) <==> SevenBit(d[1..]) && |d| - 1 <= |rest| && rest[..|d| - 1] == d[1..]
  {
    var d := Delimiter(boundary);
    SeenIs(w, d, |out|);
    assert d == [CR] + d[1..];
    assert SevenBit(d) <==> SevenBit(d[1..]);
    if |d| - 1 <= |rest| {
      assert w[|out|..|out| + |d|] == [CR] + rest[..|d| - 1];
      assert ([CR] + rest[..|d| - 1])[1..] == rest[..|d| - 1];
    }
  }

  lemma NulFreeAt(w: seq<Byte>, boundary: seq<Byte>, out: seq<Byte>, rest: seq<Byte>)
    requires Scanned(w, Delimiter(boundary), out, [], true, rest) && NulFree(w, Delimiter(boundary))
    ensures NoNul(rest, Delimiter(boundary)[1..])
  {
    var d := Delimiter(boundary);
    assert w == out + ([CR] + rest);
    AtCr(w, boundary, out, rest);
    if |d| - 1 < |rest| && SevenBit(d[1..]) && rest[..|d| - 1] == d[1..] {
      assert FirstAt(w, d, |out|);
      assert w[|out| + |d|] == rest[|d| - 1];
    }
  }

  lemma Disagree(rest: seq<Byte>, p: seq<Byte>, k: nat)
    requires k < |p| && k < |rest| && rest[k] != Signed(p[k])
    ensures SevenBit(p) && |p| <= |rest| ==> rest[..|p|] != p
  {
    assert |p| <= |rest| ==> rest[..|p|][k] == rest[k];
  }

  // The pattern agreed for k bytes and then failed: the CR is plain content.
  lemma CrStep(w: seq<Byte>, boundary: seq<Byte>, out: seq<Byte>, rest: seq<Byte>, k: nat)
    requires Scanned(w, Delimiter(boundary), out, [], true, rest) && BoundaryOK(boundary)
    requires k < 3 + |boundary| && k < |rest| && rest[..k] == Delimiter(boundary)[1..][..k]
    requires rest[k] != Signed(Delimiter(boundary)[1..][k])
    ensures rest[k] == CR ==> Scanned(w, Delimiter(boundary), out + [CR], rest[..k], true, rest[k + 1..])
    ensures rest[k] != CR ==> Scanned(w, Delimiter(boundary), out + [CR], rest[..k] + [rest[k]], false, rest[k + 1..])
  {
    var d := Delimiter(boundary);
    assert w == out + ([CR] + rest);
    AtCr(w, boundary, out, rest);
    Disagree(rest, d[1..], k);
    Deliver(w, d, out, CR, rest);
    assert rest == rest[..k] + [rest[k]] + rest[k + 1..];
    assert CR !in rest[..k] by {
      forall i | 0 <= i < k
        ensures rest[i] != CR
      {
        assert rest[i] == rest[..k][i] == d[1..][..k][i] == d[1 + i];
      }
    }
  }

  lemma Found(w: seq<Byte>, boundary: seq<Byte>, out: seq<Byte>, rest: seq<Byte>, k: nat)
    requires Scanned(w, Delimiter(boundary), out, [], true, rest)
    requires k == 3 + |boundary| && k < |rest| && rest[..k] == Delimiter(boundary)[1..][..k]
    requires SevenBit(Delimiter(boundary)[1..][..k])
    ensures FirstAt(w, Delimiter(boundary), |out|) && out == w[..|out|]
    ensures NextIs(w, |out| + |Delimiter(boundary)|, rest[k], rest[k + 1..])
  {
    assert w == out + ([CR] + rest);
    AtCr(w, boundary, out, rest);
    assert Delimiter(boundary)[1..][..k] == Delimiter(boundary)[1..];
  }

  lemma EndReached(w: seq<Byte>, boundary: seq<Byte>, out: seq<Byte>, rest: seq<Byte>)
    requires Scanned(w, Delimiter(boundary), out, [], true, rest) && BoundaryOK(boundary)
    requires rest <= Delimiter(boundary)[1..]
    ensures EndsBefore(w, Delimiter(boundary))
  {
    var d := Delimiter(boundary);
    assert w == out + ([CR] + rest);
  }

  /** A boundary with a byte above 127 is never seen: the scanner reads to the end of the
      stream whatever the message contains. */
  lemma HighByteNeverSeen(w: seq<Byte>, boundary: seq<Byte>)
    requires !SevenBit(boundary)
    ensures EndsBefore(w, Delimiter(boundary))
  {
    var d := Delimiter(boundary);
    assert boundary == d[4..];
    var i :| 0 <= i < |boundary| && boundary[i] >= 128;
    assert d[4 + i] >= 128;
    forall k: nat | k + |d| < |w|
      ensures !SeenAt(w, d, k)
    {
      SeenIs(w, d, k);
    }
  }
}
