/** Chunked bodies in the form of section 4.1 of RFC 7230, and which of them the
    receiver delivers unharmed. */
module ChunkedBody {
  import opened Wire
  import opened Chunked

  // chunk = chunk-size [ chunk-ext ] CRLF chunk-data CRLF
  datatype Chunk = Chunk(digits: seq<Byte>, ext: seq<Byte>, data: seq<Byte>)

  const CRLF: seq<Byte> := [CR, LF]

  // The size is a hex numeral, of any length, for the length of the nonempty data; an
  // extension is on one line and does not start with a hex digit.
  ghost predicate WellFormed(c: Chunk) {
    && |c.digits| > 0 && AllHex(c.digits) && HexVal(c.digits) == |c.data| > 0
    && LF !in c.ext && (c.ext != [] ==> !IsHex(c.ext[0]))
    // what the receiver's counters can hold
    && |c.data| + BUFLEN < SIZE_LIMIT
  }

  ghost predicate WellFormedLast(digits: seq<Byte>, ext: seq<Byte>) {
    && 0 < |digits| && AllHex(digits) && HexVal(digits) == 0
    && LF !in ext && (ext != [] ==> !IsHex(ext[0]))
  }

  // The framing of a chunk that the receiver understands: no byte of the extension reads
  // as EOF, and the numeral is not longer than what is read of it.
  ghost predicate Understood(c: Chunk) {
    255 !in c.ext && |c.digits| <= MAX_DIGITS
  }

  ghost function Encode(c: Chunk): seq<Byte> {
    c.digits + c.ext + CRLF + c.data + CRLF
  }

  // chunked-body = *chunk last-chunk trailer-part CRLF; after is what follows the
  // line of the last chunk.
  ghost function EncodeBody(cs: seq<Chunk>, digits: seq<Byte>, ext: seq<Byte>, after: seq<Byte>): seq<Byte> {
    if cs == [] then digits + ext + CRLF + after
    else Encode(cs[0]) + EncodeBody(cs[1..], digits, ext, after)
  }

  ghost function DataOf(cs: seq<Chunk>): seq<Byte> {
    if cs == [] then [] else cs[0].data + DataOf(cs[1..])
  }

  // ---- reading one header ----

  // Bytes that are neither hex digits nor EOF are skipped before a header.
  lemma {:induction false} LeadSkips(p: seq<Byte>, w: seq<Byte>, n: nat)
    requires forall i :: 0 <= i < |p| ==> !IsHex(p[i]) && p[i] != 255
    ensures Lead(p + w, n) == Lead(w, n + |p|)
  {
    if p == [] {
      assert p + w == w;
    } else {
      assert (p + w)[1..] == p[1..] + w;
      LeadSkips(p[1..], w, n + 1);
    }
  }

  // What is read of a numeral.
  function Front(digits: seq<Byte>): (ds: seq<Byte>)
    ensures ds <= digits && |ds| <= MAX_DIGITS && (digits != [] ==> ds != [])
    ensures |digits| <= MAX_DIGITS ==> ds == digits
    ensures AllHex(digits) ==> AllHex(ds)
  {
    if |digits| <= MAX_DIGITS then digits else digits[..MAX_DIGITS]
  }

  // The front of a longer numeral stands for a smaller number.
  lemma {:induction false} FrontLess(digits: seq<Byte>, k: nat)
    requires AllHex(digits) && k <= |digits|
    ensures HexVal(digits[..k]) <= HexVal(digits)
    ensures k < |digits| && HexVal(digits) > 0 ==> HexVal(digits[..k]) < HexVal(digits)
    decreases |digits|
  {
    if k < |digits| {
      var n := |digits| - 1;
      FrontLess(digits[..n], k);
      assert digits[..n][..k] == digits[..k];
    } else {
      assert digits[..k] == digits;
    }
  }

  lemma FrontVal(digits: seq<Byte>)
    requires AllHex(digits)
    ensures HexVal(Front(digits)) <= HexVal(digits)
    ensures |digits| > MAX_DIGITS && HexVal(digits) > 0 ==> HexVal(Front(digits)) < HexVal(digits)
  {
    FrontLess(digits, |Front(digits)|);
  }

  lemma {:induction false} DigitsRead(ds: seq<Byte>, w: seq<Byte>, n: nat, seen: seq<Byte>)
    requires AllHex(ds) && AllHex(seen) && |seen| + |ds| <= MAX_DIGITS
    requires |seen| + |ds| == MAX_DIGITS || (w != [] && !IsHex(w[0]))
    ensures Digits(ds + w, n, seen) == Line(w, n + |ds|, Strtoul(seen + ds))
  {
    if ds == [] {
      assert ds + w == w && seen + ds == seen;
    } else {
      assert (ds + w)[1..] == ds[1..] + w;
      assert seen + [ds[0]] + ds[1..] == seen + ds;
      DigitsRead(ds[1..], w, n + 1, seen + [ds[0]]);
    }
  }

  lemma {:induction false} LineRead(ext: seq<Byte>, w: seq<Byte>, n: nat, size: nat)
    requires LF !in ext && w != [] && w[0] == LF
    ensures Line(ext + w, n, size) == if 255 in ext then NoHdr else Hdr(size, n + |ext| + 1)
  {
    if ext == [] {
      assert ext + w == w;
    } else {
      assert (ext + w)[1..] == ext[1..] + w;
      assert ext == [ext[0]] + ext[1..];
      LineRead(ext[1..], w, n + 1, size);
    }
  }

  /** The size announced: what the first 16 digits stand for, as far as 32 bits hold it. */
  lemma SizeRead(digits: seq<Byte>)
    requires AllHex(digits)
    ensures var v := HexVal(if |digits| <= 16 then digits else digits[..16]);
            Strtoul(Front(digits)) == if v <= 0xFFFF_FFFF then v else 0xFFFF_FFFF
  {
    hide HexVal;
  }

  /** A header line is understood exactly when no byte of its extension reads as EOF, and
      announces what the first 16 digits of its size stand for. */
  lemma HeaderRead(lead: seq<Byte>, digits: seq<Byte>, ext: seq<Byte>, after: seq<Byte>)
    requires forall i :: 0 <= i < |lead| ==> !IsHex(lead[i]) && lead[i] != 255
    requires 0 < |digits| && AllHex(digits)
    requires LF !in ext && (ext != [] ==> !IsHex(ext[0]))
    ensures var w := lead + (digits + ext + CRLF + after);
            Header(w) == if 255 in ext then NoHdr else Hdr(Strtoul(Front(digits)), |w| - |after|)
  {
    hide Lead, Digits, Line, Strtoul, HexVal;
    var ds := Front(digits);
    var more := digits[|ds|..] + ext;
    var line := (more + [CR]) + ([LF] + after);
    var v := ds + line;
    assert digits == ds + digits[|ds|..];
    assert digits + ext + CRLF + after == v;
    HeaderIs(lead + v);
    LeadSkips(lead, v, 0);
    LineFirst(digits, ext, after);
    DigitsFirst(ds, line, |lead|);
    assert |lead + v| - |after| == |lead| + |ds| + |more| + 2;
    LineRead(more + [CR], [LF] + after, |lead| + |ds|, Strtoul(ds));
  }

  lemma HeaderIs(w: seq<Byte>)
    ensures Header(w) == Lead(w, 0)
  {
  }

  lemma LineFirst(digits: seq<Byte>, ext: seq<Byte>, after: seq<Byte>)
    requires AllHex(digits) && LF !in ext && (ext != [] ==> !IsHex(ext[0]))
    ensures var ds := Front(digits);
            var more := digits[|ds|..] + ext;
            var line := (more + [CR]) + ([LF] + after);
            && (|ds| == MAX_DIGITS || (line != [] && !IsHex(line[0])))
            && LF !in more + [CR] && (255 in more + [CR] <==> 255 in ext)
  {
    hide HexVal;
    var tail := digits[|Front(digits)|..];
    assert forall b :: b in tail ==> IsHex(b);
  }

  lemma DigitsFirst(ds: seq<Byte>, line: seq<Byte>, n: nat)
    requires 0 < |ds| <= MAX_DIGITS && AllHex(ds)
    requires |ds| == MAX_DIGITS || (line != [] && !IsHex(line[0]))
    ensures Lead(ds + line, n) == Line(line, n + |ds|, Strtoul(ds))
  {
    var v := ds + line;
    assert v[1..] == ds[1..] + line;
    assert [ds[0]] + ds[1..] == ds;
    DigitsRead(ds[1..], line, n + 1, [ds[0]]);
  }

  // ---- one chunk ----

  // How the front of its size stands to the data of a chunk.
  lemma FrontOf(c: Chunk)
    requires WellFormed(c)
    ensures AllHex(Front(c.digits)) && |c.digits| > 0 && AllHex(c.digits) && LF !in c.ext && (c.ext != [] ==> !IsHex(c.ext[0]))
    ensures HexVal(Front(c.digits)) <= |c.data| && |c.data| + BUFLEN < SIZE_LIMIT
    ensures HexVal(Front(c.digits)) == |c.data| <==> |c.digits| <= MAX_DIGITS
    ensures Strtoul(Front(c.digits)) == HexVal(Front(c.digits))
  {
    FrontVal(c.digits);
    hide HexVal;
  }

  /** One chunk: nothing is delivered if its extension reads as EOF; otherwise as many
      bytes of its data as the front of its size says, and the rest of the data is read as
      what comes after the chunk. */
  lemma ChunkRead(lead: seq<Byte>, c: Chunk, w: seq<Byte>)
    requires forall i :: 0 <= i < |lead| ==> !IsHex(lead[i]) && lead[i] != 255
    requires WellFormed(c)
    ensures AllHex(Front(c.digits)) && HexVal(Front(c.digits)) <= |c.data|
    ensures HexVal(Front(c.digits)) == |c.data| <==> |c.digits| <= MAX_DIGITS
    ensures var n := HexVal(Front(c.digits));
            && (255 in c.ext || n == 0 ==> Dechunk(lead + (Encode(c) + w)) == [])
            && (255 !in c.ext && n > 0 ==>
                  Dechunk(lead + (Encode(c) + w)) == c.data[..n] + Dechunk(c.data[n..] + (CRLF + w))
                  && (Sane(c.data[n..] + (CRLF + w)) ==> Sane(lead + (Encode(c) + w))))
  {
    FrontOf(c);
    var n := HexVal(Front(c.digits));
    var after := c.data + (CRLF + w);
    var v := lead + (Encode(c) + w);
    hide Header, HexVal, Dechunk, Sane, Encode, AllHex, Front, WellFormed, Strtoul;
    EncodeSplit(lead, c, w);
    HeaderRead(lead, c.digits, c.ext, after);
    HeaderMeans(v);
    if 255 !in c.ext && n > 0 {
      AfterData(c.data, n, CRLF + w);
      DataRead(v, c.data[..n], c.data[n..] + (CRLF + w));
    }
  }

  lemma AfterData(data: seq<Byte>, n: nat, w: seq<Byte>)
    requires n <= |data|
    ensures data + w == data[..n] + (data[n..] + w)
  {
  }

  // A chunk whose framing is understood is read whole.
  lemma WholeChunk(lead: seq<Byte>, c: Chunk, w: seq<Byte>)
    requires forall i :: 0 <= i < |lead| ==> !IsHex(lead[i]) && lead[i] != 255
    requires WellFormed(c) && Understood(c)
    ensures Dechunk(lead + (Encode(c) + w)) == c.data + Dechunk(CRLF + w)
    ensures Sane(CRLF + w) ==> Sane(lead + (Encode(c) + w))
  {
    hide Dechunk, Sane, HexVal, Encode;
    ChunkRead(lead, c, w);
    var n := |c.data|;
    assert c.data[..n] == c.data && c.data[n..] + (CRLF + w) == CRLF + w;
  }

  lemma EncodeSplit(lead: seq<Byte>, c: Chunk, w: seq<Byte>)
    ensures var after, v := c.data + (CRLF + w), lead + (Encode(c) + w);
            v == lead + (c.digits + c.ext + CRLF + after) && |after| <= |v| && v[|v| - |after|..] == after
  {
    var after := c.data + (CRLF + w);
    var h := c.digits + c.ext + CRLF;
    assert Encode(c) + w == h + after;
    assert lead + (h + after) == (lead + h) + after;
  }

  // After a header that announces it, the data is delivered and what follows is read on.
  lemma DataRead(v: seq<Byte>, data: seq<Byte>, w: seq<Byte>)
    requires 0 < |data| && |data| + BUFLEN < SIZE_LIMIT
    requires |data + w| <= |v| && v[|v| - |data + w|..] == data + w && Header(v) == Hdr(|data|, |v| - |data + w|)
    ensures Dechunk(v) == data + Dechunk(w)
    ensures Sane(w) ==> Sane(v)
  {
    hide Header, Body, SaneBody;
    var n := |data|;
    HeaderMeans(v);
    BodyStep(n, data + w, n);
    assert (data + w)[..n] == data && (data + w)[n..] == w;
    BodyNone(w);
    if w != [] {
      SaneData(n, data + w);
    } else {
      SaneAll(n, data + w);
    }
  }

  lemma SaneAll(n: nat, w: seq<Byte>)
    requires 0 < n && |w| <= n
    ensures SaneBody(n, w)
  {
  }

  lemma HeaderMeans(w: seq<Byte>)
    ensures Header(w).NoHdr? ==> Dechunk(w) == [] && Sane(w)
    ensures Header(w).Hdr? && Header(w).size == 0 ==> Dechunk(w) == [] && Sane(w)
    ensures Header(w).Hdr? && Header(w).size != 0 ==> Dechunk(w) == Body(Header(w).size, w[Header(w).len..])
    ensures Header(w).Hdr? && Header(w).size != 0 && Header(w).size + BUFLEN < SIZE_LIMIT ==>
              (Sane(w) <==> SaneBody(Header(w).size, w[Header(w).len..]))
  {
  }

  lemma BodyNone(w: seq<Byte>)
    ensures Body(0, w) == Dechunk(w)
  {
  }

  lemma SaneData(n: nat, w: seq<Byte>)
    requires 0 < n < |w|
    ensures SaneBody(n, w) <==> Sane(w[n..])
  {
  }

  // ---- whole bodies ----

  // The receiver delivers exactly the data of a chunked body when it understands the
  // framing of each chunk; of the last chunk it need not.
  lemma {:induction false} BodyRead(lead: seq<Byte>, cs: seq<Chunk>, digits: seq<Byte>, ext: seq<Byte>, after: seq<Byte>)
    requires forall i :: 0 <= i < |lead| ==> !IsHex(lead[i]) && lead[i] != 255
    requires forall i :: 0 <= i < |cs| ==> WellFormed(cs[i]) && Understood(cs[i])
    requires WellFormedLast(digits, ext)
    ensures Dechunk(lead + EncodeBody(cs, digits, ext, after)) == DataOf(cs)
    ensures Sane(lead + EncodeBody(cs, digits, ext, after))
    decreases |cs|
  {
    if cs == [] {
      LastRead(lead, digits, ext, after);
    } else {
      hide WellFormed, WellFormedLast, Understood, Dechunk, Sane, HexVal, Encode, Front;
      var w := EncodeBody(cs[1..], digits, ext, after);
      WholeChunk(lead, cs[0], w);
      BodyRead(CRLF, cs[1..], digits, ext, after);
    }
  }

  lemma LastRead(lead: seq<Byte>, digits: seq<Byte>, ext: seq<Byte>, after: seq<Byte>)
    requires forall i :: 0 <= i < |lead| ==> !IsHex(lead[i]) && lead[i] != 255
    requires WellFormedLast(digits, ext)
    ensures Dechunk(lead + (digits + ext + CRLF + after)) == [] && Sane(lead + (digits + ext + CRLF + after))
  {
    hide Dechunk, Sane, Header, HexVal;
    FrontVal(digits);
    HeaderRead(lead, digits, ext, after);
    HeaderMeans(lead + (digits + ext + CRLF + after));
  }

  /** A chunk whose size is written as %x or %X does, or in any mixture of the two, is read
      whole. */
  lemma NumeralDelivers(lead: seq<Byte>, digits: seq<Byte>, data: seq<Byte>, ext: seq<Byte>, w: seq<Byte>)
    requires forall i :: 0 <= i < |lead| ==> !IsHex(lead[i]) && lead[i] != 255
    requires 0 < |data| && |data| + BUFLEN < SIZE_LIMIT && LF !in ext && 255 !in ext && (ext != [] ==> !IsHex(ext[0]))
    requires var n := LowerHexOf(|data|); |digits| == |n| && forall i :: 0 <= i < |n| ==> SameDigit(n[i], digits[i])
    ensures Dechunk(lead + (digits + ext + CRLF + data + CRLF + w)) == data + Dechunk(CRLF + w)
  {
    LowerHexRoundTrip(|data|);
    HexCase(LowerHexOf(|data|), digits);
    assert Pow16(8) == SIZE_LIMIT;
    LowerHexLength(|data|, 8);
    hide Dechunk, HexVal, LowerHexOf;
    var c := Chunk(digits, ext, data);
    WholeChunk(lead, c, w);
    assert Encode(c) + w == digits + ext + CRLF + data + CRLF + w;
  }

  // The same framing around other data.
  ghost predicate SameFraming(cs: seq<Chunk>, ds: seq<Chunk>) {
    && |ds| == |cs|
    && forall i :: 0 <= i < |cs| ==> ds[i].digits == cs[i].digits && ds[i].ext == cs[i].ext && |ds[i].data| == |cs[i].data|
  }

  // Data that reads as EOF.
  function HighBytes(n: nat): (s: seq<Byte>)
    ensures |s| == n
  {
    seq(n, i => 255)
  }

  ghost function HighData(cs: seq<Chunk>): (ds: seq<Chunk>)
    ensures SameFraming(cs, ds)
  {
    seq(|cs|, i requires 0 <= i < |cs| => cs[i].(data := HighBytes(|cs[i].data|)))
  }

  lemma HighBytesEnd(n: nat, w: seq<Byte>)
    requires n > 0
    ensures Dechunk(HighBytes(n) + w) == []
  {
    var v := HighBytes(n) + w;
    assert v[0] == 255;
    HeaderIs(v);
  }

  // With a chunk that is not understood, such data is cut short.
  lemma {:induction false} HighDataLost(lead: seq<Byte>, cs: seq<Chunk>, digits: seq<Byte>, ext: seq<Byte>, after: seq<Byte>)
    requires forall i :: 0 <= i < |lead| ==> !IsHex(lead[i]) && lead[i] != 255
    requires forall i :: 0 <= i < |cs| ==> WellFormed(cs[i])
    requires exists i :: 0 <= i < |cs| && !Understood(cs[i])
    ensures |Dechunk(lead + EncodeBody(HighData(cs), digits, ext, after))| < |DataOf(HighData(cs))|
    decreases |cs|
  {
    hide WellFormed, Dechunk, Sane, HexVal, Encode;
    var ds := HighData(cs);
    var w := EncodeBody(ds[1..], digits, ext, after);
    assert cs[0].digits == ds[0].digits;
    HighWellFormed(cs[0]);
    DataPositive(ds[0]);
    var n := HexVal(Front(ds[0].digits));
    ChunkRead(lead, ds[0], w);
    if Understood(ds[0]) {
      WholeChunk(lead, ds[0], w);
      assert ds[1..] == HighData(cs[1..]);
      var i :| 0 <= i < |cs| && !Understood(cs[i]);
      assert i > 0 && cs[1..][i - 1] == cs[i];
      HighDataLost(CRLF, cs[1..], digits, ext, after);
    } else if 255 !in ds[0].ext && n > 0 {
      var k := |ds[0].data| - n;
      assert ds[0].data[n..] == HighBytes(k);
      HighBytesEnd(k, CRLF + w);
    }
  }

  lemma HighWellFormed(c: Chunk)
    requires WellFormed(c)
    ensures WellFormed(c.(data := HighBytes(|c.data|)))
  {
  }

  lemma DataPositive(c: Chunk)
    requires WellFormed(c)
    ensures |c.data| > 0 && AllHex(c.digits)
  {
  }

  /** A framing delivers whatever data is put into it, exactly when no chunk extension has
      a byte 255 (which section 4.1 of RFC 7230 allows in quoted strings) and no chunk size
      is written with more than 16 digits (which it allows as well).  The last chunk may be
      written in any way. */
  lemma FramingExactly(cs: seq<Chunk>, digits: seq<Byte>, ext: seq<Byte>, after: seq<Byte>)
    requires (forall i :: 0 <= i < |cs| ==> WellFormed(cs[i])) && WellFormedLast(digits, ext)
    ensures (forall i :: 0 <= i < |cs| ==> Understood(cs[i])) <==>
            forall ds | SameFraming(cs, ds) :: Dechunk(EncodeBody(ds, digits, ext, after)) == DataOf(ds)
  {
    hide Dechunk, EncodeBody, WellFormedLast, DataOf;
    if forall i :: 0 <= i < |cs| ==> Understood(cs[i]) {
      forall ds | SameFraming(cs, ds)
        ensures Dechunk(EncodeBody(ds, digits, ext, after)) == DataOf(ds)
      {
        BodyRead([], ds, digits, ext, after);
        assert [] + EncodeBody(ds, digits, ext, after) == EncodeBody(ds, digits, ext, after);
      }
    } else {
      var ds := HighData(cs);
      HighDataLost([], cs, digits, ext, after);
      assert [] + EncodeBody(ds, digits, ext, after) == EncodeBody(ds, digits, ext, after);
    }
  }

  /** An extension that reads as EOF loses its chunk and all after it, whatever the data. */
  lemma {:induction false} ExtensionLoses(lead: seq<Byte>, cs: seq<Chunk>, digits: seq<Byte>, ext: seq<Byte>, after: seq<Byte>)
    requires forall i :: 0 <= i < |lead| ==> !IsHex(lead[i]) && lead[i] != 255
    requires (forall i :: 0 <= i < |cs| ==> WellFormed(cs[i]) && |cs[i].digits| <= MAX_DIGITS) && WellFormedLast(digits, ext)
    ensures Dechunk(lead + EncodeBody(cs, digits, ext, after)) == DataOf(cs) <==>
            forall i :: 0 <= i < |cs| ==> 255 !in cs[i].ext
    decreases |cs|
  {
    hide WellFormed, WellFormedLast, Dechunk, Sane, HexVal, Encode;
    if cs == [] {
      BodyRead(lead, cs, digits, ext, after);
    } else {
      var w := EncodeBody(cs[1..], digits, ext, after);
      ChunkRead(lead, cs[0], w);
      DataPositive(cs[0]);
      ExtensionLoses(CRLF, cs[1..], digits, ext, after);
      if 255 !in cs[0].ext {
        WholeChunk(lead, cs[0], w);
        SamePrefix(cs[0].data, Dechunk(CRLF + w), DataOf(cs[1..]));
        assert forall i :: 0 < i < |cs| ==> cs[i] == cs[1..][i - 1];
      }
    }
  }

  lemma SamePrefix(p: seq<Byte>, s: seq<Byte>, t: seq<Byte>)
    ensures p + s == p + t <==> s == t
  {
    if p + s == p + t {
      assert s == (p + s)[|p|..] && t == (p + t)[|p|..];
    }
  }

  /** Reads a whole body through soap_get1, whatever pieces the transport
      delivers it in, `early` of its bytes having arrived with the HTTP header. */
  method ReceiveBody(body: seq<Byte>, early: nat, ghost cs: seq<Chunk>, ghost digits: seq<Byte>, ghost ext: seq<Byte>,
                     ghost after: seq<Byte>) returns (s: seq<Byte>)
    requires (forall i :: 0 <= i < |cs| ==> WellFormed(cs[i])) && WellFormedLast(digits, ext)
    requires body == EncodeBody(cs, digits, ext, after) && early <= |body| && early <= BUFLEN
    // no size that is met makes an index wrap: a matter of course when all framing is understood
    requires Sane(body) || forall i :: 0 <= i < |cs| ==> Understood(cs[i])
    ensures s == Dechunk(body)
    ensures (forall i :: 0 <= i < |cs| ==> Understood(cs[i])) ==> s == DataOf(cs)
  {
    hide Dechunk, Sane, EncodeBody, WellFormed, WellFormedLast, Understood, DataOf;
    assert [] + body == body;
    if forall i :: 0 <= i < |cs| ==> Understood(cs[i]) {
      BodyRead([], cs, digits, ext, after);
    }
    assert body[..early][0..] + body[early..] == body;
    var r := new Receiver(body[..early], 0, body[early..]);
    s := r.ReadAll();
  }
}
