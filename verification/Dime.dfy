/** DIME records: the header layout, streamed records split into chunks, and the
    loop that reads a list of attachments back. */
module Dime {
  import opened Wire
  import opened Input

  const CHUNK: nat := 1024  // sizeof(soap->tmpbuf)

  // What a DIME attachment carries.  An id, type or option block may be absent.
  datatype Record = Record(id: Option<seq<Byte>>, kind: Option<seq<Byte>>, options: Option<seq<Byte>>, data: seq<Byte>)

  // How its data reaches the writer: in memory, from a handle whose size is known,
  // or from a handle until it runs dry (the size field is 0 then).
  datatype Way = Memory | Sized | Stream

  datatype Attachment = Attachment(record: Record, way: Way)

  // --- layout ----------------------------------------------------------------------------------

  // -n & 3
  function Pad(n: nat): (p: nat)
    ensures p < 4 && (n + p) % 4 == 0
  {
    if n % 4 == 0 then 0 else 4 - n % 4
  }

  function Zeros(n: nat): (z: seq<Byte>)
    ensures |z| == n
  {
    seq(n, i => 0)
  }

  // soap_putdimefield
  function Field(s: seq<Byte>): seq<Byte> {
    s + Zeros(Pad(|s|))
  }

  function Two(n: nat): (s: seq<Byte>)
    ensures |s| == 2
  {
    [n / 256 % 256, n % 256]
  }

  function Four(n: nat): (s: seq<Byte>)
    ensures |s| == 4
  {
    [n / 0x100_0000 % 256, n / 0x1_0000 % 256, n / 0x100 % 256, n % 256]
  }

  // Flags SOAP_DIME_CF, SOAP_DIME_ME and SOAP_DIME_MEDIA
  datatype Flags = Flags(cf: bool, me: bool, media: bool)

  const VERSION: nat := 8

  function Twelve(f: Flags, optlen: nat, idlen: nat, typelen: nat, size: nat): (s: seq<Byte>)
    ensures |s| == 12
  {
    [VERSION + (if f.cf then 1 else 0) + (if f.me then 2 else 0), if f.media then 16 else 0]
    + Two(optlen) + Two(idlen) + Two(typelen) + Four(size)
  }

  // The size an option block declares for its text (at bytes 2 and 3), and its own four bytes.
  function OptLen(o: seq<Byte>): nat
    requires |o| >= 4
  {
    256 * o[2] as int + o[3] as int + 4
  }

  // An option block holds what it declares (soap_dime_option).
  ghost predicate OptionBlock(o: Option<seq<Byte>>) {
    o.Some? ==> |o.value| >= 4 && |o.value| == OptLen(o.value)
  }

  const FIELD_LIMIT: nat := 0xFFFF

  // At most 65535 bytes of an id or a type are sent.
  function Cut(s: Option<seq<Byte>>): (r: seq<Byte>)
    ensures |r| <= FIELD_LIMIT
  {
    if s.None? then [] else if |s.value| > FIELD_LIMIT then s.value[..FIELD_LIMIT] else s.value
  }

  function Bytes(o: Option<seq<Byte>>): seq<Byte> {
    if o.None? then [] else o.value
  }

  // soap_putdimehdr
  function HeaderOf(f: Flags, r: Record, size: nat): seq<Byte> {
    var o := Bytes(r.options);
    Twelve(f, |o|, |Cut(r.id)|, |Cut(r.kind)|, size) + Field(o) + Field(Cut(r.id)) + Field(Cut(r.kind))
  }

  // --- writing -----------------------------------------------------------------------------------

  // One record with its whole data.
  function Whole(r: Record, last: bool): seq<Byte> {
    HeaderOf(Flags(false, last, true), r, |r.data|) + Field(r.data)
  }

  // After the first chunk the names are dropped, if there is an id.
  function Anonymous(r: Record): Record {
    if r.id.Some? then Record(None, None, None, r.data) else r
  }

  // The chunks of a streamed record whose remaining data is data.
  function Chunks(r: Record, media: bool, data: seq<Byte>, last: bool): seq<Byte>
    decreases |data|
  {
    if |data| < CHUNK then HeaderOf(Flags(false, last, media), r, |data|) + Field(data)
    else
      HeaderOf(Flags(true, false, media), r, CHUNK) + Field(data[..CHUNK])
      + Chunks(Anonymous(r), media && r.id.None?, data[CHUNK..], last)
  }

  function One(a: Attachment, last: bool, streaming: bool): seq<Byte> {
    if a.way == Stream then
      if streaming then Chunks(a.record, true, a.record.data, last) else Whole(a.record.(data := []), last)
    else Whole(a.record, last)
  }

  function All(list: seq<Attachment>, streaming: bool): seq<Byte> {
    if list == [] then [] else One(list[0], |list| == 1, streaming) + All(list[1..], streaming)
  }

  /** soap_putdime: every attachment; a handle of unknown size fails when the
      message cannot be streamed. */
  method PutDime(sent: seq<Byte>, list: seq<Attachment>, streaming: bool) returns (out: seq<Byte>, ok: bool)
    requires forall a :: a in list && a.way == Sized ==> a.record.data != []
    ensures out == sent + All(list, streaming)
    ensures ok <==> streaming || forall a :: a in list ==> a.way != Stream
  {
    hide One;
    out, ok := sent, true;
    var i := 0;
    assert list[0..] == list;
    while i < |list|
      invariant 0 <= i <= |list| && out + All(list[i..], streaming) == sent + All(list, streaming)
      invariant ok <==> streaming || forall j :: 0 <= j < i ==> list[j].way != Stream
    {
      var last := i + 1 == |list|;
      assert list[i..][0] == list[i] && list[i..][1..] == list[i + 1..];
      ghost var was := out;
      var done;
      out, done := PutOne(out, list[i], last, streaming);
      ok := ok && done;
      assert out + All(list[i + 1..], streaming) == was + (One(list[i], last, streaming) + All(list[i + 1..], streaming));
      i := i + 1;
    }
  }

  // The record of one attachment.
  method PutOne(sent: seq<Byte>, a: Attachment, last: bool, streaming: bool) returns (out: seq<Byte>, ok: bool)
    requires a.way == Sized ==> a.record.data != []
    ensures out == sent + One(a, last, streaming) && (ok <==> streaming || a.way != Stream)
  {
    hide HeaderOf, Field, Chunks;
    if a.way == Memory {
      out := sent + HeaderOf(Flags(false, last, true), a.record, |a.record.data|);
      out := out + Field(a.record.data);
      ok := true;
    } else if a.way == Stream && streaming {
      out := PutChunks(sent, a.record, last);
      ok := true;
    } else {
      out, ok := PutSized(sent, if a.way == Stream then a.record.(data := []) else a.record, last);
    }
  }

  // The loop that streams a record until the handle gives less than a full buffer.
  method PutChunks(sent: seq<Byte>, r0: Record, last: bool) returns (out: seq<Byte>)
    ensures out == sent + Chunks(r0, true, r0.data, last)
  {
    hide HeaderOf, Field;
    out := sent;
    var r, media, at, size := r0, true, 0, CHUNK;
    assert r0.data[0..] == r0.data;
    while size >= CHUNK
      invariant 0 <= at <= |r0.data|
      invariant if size >= CHUNK then out + Chunks(r, media, r0.data[at..], last) == sent + Chunks(r0, true, r0.data, last)
                else out == sent + Chunks(r0, true, r0.data, last)
      decreases |r0.data| - at + if size >= CHUNK then 1 else 0
    {
      ghost var rest, was := r0.data[at..], out;
      size := if |r0.data| - at < CHUNK then |r0.data| - at else CHUNK;
      var buf := r0.data[at..at + size];
      assert rest[..size] == buf && rest[size..] == r0.data[at + size..];
      out := out + HeaderOf(Flags(size >= CHUNK, size < CHUNK && last, media), r, size);
      out := out + Field(buf);
      if size >= CHUNK {
        assert was + Chunks(r, media, rest, last) == out + Chunks(Anonymous(r), media && r.id.None?, rest[size..], last);
      } else {
        assert buf == rest;
      }
      if r.id.Some? {
        media, r := false, Record(None, None, None, r.data);
      }
      at := at + size;
    }
  }

  // A record of known size, in whatever pieces the handle gives it.
  method PutSized(sent: seq<Byte>, r: Record, last: bool) returns (out: seq<Byte>, ok: bool)
    ensures out == sent + Whole(r, last) && (ok <==> r.data != [])
  {
    hide HeaderOf;
    out := sent + HeaderOf(Flags(false, last, true), r, |r.data|);
    ok := r.data != [];
    out := PutPieces(out, r.data);
    out := out + Zeros(Pad(|r.data|));
  }

  method PutPieces(sent: seq<Byte>, data: seq<Byte>) returns (out: seq<Byte>)
    ensures out == sent + data
  {
    out := sent;
    var at := 0;
    while at < |data|
      invariant 0 <= at <= |data| && out == sent + data[..at]
    {
      var most := if |data| - at < CHUNK then |data| - at else CHUNK;
      var n: nat :| 1 <= n <= most;
      out := out + data[at..at + n];
      assert data[..at] + data[at..at + n] == data[..at + n];
      at := at + n;
    }
    assert data[..at] == data;
  }

  // --- reading -----------------------------------------------------------------------------------

  // A field of n bytes and its padding; a field of no bytes is NULL.
  datatype Got = Got(field: Option<seq<Byte>>, rest: seq<Byte>) | Eof

  function GetField(w: seq<Byte>, n: nat): (g: Got)
    ensures g.Got? ==> |g.rest| <= |w|
  {
    if n == 0 then Got(None, w) else if |w| < n + Pad(n) then Eof else Got(Some(w[..n]), w[n + Pad(n)..])
  }

  // format: the four high bits of the flags; media types have SOAP_DIME_MEDIA there.
  datatype Header = Header(cf: bool, me: bool, mb: bool, format: nat, options: Option<seq<Byte>>, id: Option<seq<Byte>>,
                           kind: Option<seq<Byte>>, size: nat, rest: seq<Byte>)
                  | NoHeader

  const MEDIA: nat := 0x10

  function Number(s: seq<Byte>): nat {
    if s == [] then 0 else 256 * Number(s[..|s| - 1]) + s[|s| - 1] as int
  }

  // soap_getdimehdr
  function GetHeader(w: seq<Byte>): (h: Header)
    ensures h.Header? ==> |h.rest| < |w|
  {
    if |w| < 12 || w[0] / 8 != 1 then NoHeader
    else
      var o := GetField(w[12..], Number(w[2..4]));
      if o.Eof? then NoHeader
      else
        var i := GetField(o.rest, Number(w[4..6]));
        if i.Eof? then NoHeader
        else
          var t := GetField(i.rest, Number(w[6..8]));
          if t.Eof? then NoHeader
          else
            Header(w[0] % 2 == 1, w[0] / 2 % 2 == 1, w[0] / 4 % 2 == 1, w[1] / 0x10 * 0x10, o.field, i.field, t.field,
                   Number(w[8..12]), t.rest)
  }

  // The data of a record and of the chunks that continue it; me: the last record was seen.
  datatype Data = Data(data: seq<Byte>, me: bool, rest: seq<Byte>) | NoData

  function GetData(h: Header): (d: Data)
    requires h.Header?
    ensures d.Data? ==> |d.rest| <= |h.rest|
    decreases |h.rest|
  {
    var g := GetField(h.rest, h.size);
    if g.Eof? then NoData
    else if !h.cf then Data(Bytes(g.field), h.me, g.rest)
    else if h.me || GetHeader(g.rest).NoHeader? then NoData
    else
      Prefixed(Bytes(g.field), GetData(GetHeader(g.rest)))
  }

  datatype Received = Received(list: seq<Record>, rest: seq<Byte>) | Failed

  // The records up to the one flagged as the last.
  function GetRecords(w: seq<Byte>): Received
    decreases |w|
  {
    var h := GetHeader(w);
    if h.NoHeader? || GetData(h).NoData? then Failed
    else
      var d := GetData(h);
      var r := Record(h.id, h.kind, h.options, d.data);
      if d.me then Received([r], d.rest) else Joined([r], GetRecords(d.rest))
  }

  function Joined(list: seq<Record>, r: Received): Received {
    if r.Failed? then Failed else Received(list + r.list, r.rest)
  }

  class Reader {
    const inp: Source
    // SOAP_ENC_DIME: records are still to come
    var more: bool
    var cf: bool
    var size: nat
    var mb: bool
    var format: nat
    var options: Option<seq<Byte>>
    var id: Option<seq<Byte>>
    var kind: Option<seq<Byte>>

    constructor (s: Source)
      ensures inp == s && more && !cf
    {
      inp, more, cf, size, options, id, kind := s, true, false, 0, None, None, None;
      mb, format := false, 0;
    }

    // n bytes of the stream, or fewer at its end
    method Take(n: nat) returns (s: seq<Byte>)
      modifies inp
      ensures var w := old(inp.rest); s == (if |w| < n then w else w[..n]) && inp.rest == if |w| < n then [] else w[n..]
    {
      ghost var w := inp.rest;
      s := [];
      while |s| < n
        invariant |s| <= n && |s| <= |w| && s == w[..|s|] && inp.rest == w[|s|..]
        decreases n - |s|
      {
        var c := inp.Get();
        if c == EOF {
          assert w[..|w|] == w;
          return;
        }
        s := s + [c];
      }
    }

    // soap_getdimefield
    method GetDimeField(n: nat) returns (ok: bool, p: Option<seq<Byte>>)
      modifies inp
      ensures ok <==> GetField(old(inp.rest), n).Got?
      ensures ok ==> GetField(old(inp.rest), n) == Got(p, inp.rest)
    {
      if n == 0 {
        return true, None;
      }
      ghost var w := inp.rest;
      var s := Take(n);
      if |s| < n {
        return false, None;
      }
      ghost var w1 := inp.rest;
      var pad := Take(Pad(n));
      assert |w1| >= Pad(n) ==> w1[Pad(n)..] == w[n + Pad(n)..];
      ok, p := |pad| == Pad(n), Some(s);
    }

    // soap_getdimehdr
    method GetDimeHdr() returns (ok: bool)
      modifies this, inp
      ensures ok <==> old(more) && GetHeader(old(inp.rest)).Header?
      ensures ok ==> GetHeader(old(inp.rest)) == Header(cf, !more, mb, format, options, id, kind, size, inp.rest)
    {
      hide GetField, Number;
      if !more {
        return false;
      }
      ghost var w := inp.rest;
      var tmp := Take(12);
      if |tmp| < 12 || tmp[0] / 8 != 1 {
        return false;
      }
      assert tmp[2..4] == w[2..4] && tmp[4..6] == w[4..6] && tmp[6..8] == w[6..8] && tmp[8..12] == w[8..12];
      cf := tmp[0] % 2 == 1;
      var me := tmp[0] / 2 % 2 == 1;
      mb := tmp[0] / 4 % 2 == 1;
      format := tmp[1] / 0x10 * 0x10;
      size := Number(tmp[8..12]);
      ok, options := GetDimeField(Number(tmp[2..4]));
      if !ok {
        return false;
      }
      ok, id := GetDimeField(Number(tmp[4..6]));
      if !ok {
        return false;
      }
      ok, kind := GetDimeField(Number(tmp[6..8]));
      if !ok {
        return false;
      }
      more := !me;
    }

    // The data of the record whose header was just read, chunk after chunk.
    method GetDimeData() returns (ok: bool, data: seq<Byte>)
      modifies this, inp
      ensures var d := GetData(Header(old(cf), !old(more), false, 0, None, None, None, old(size), old(inp.rest)));
              (ok <==> d.Data?) && (ok ==> d == Data(data, !more, inp.rest))
    {
      hide GetField, GetHeader;
      ghost var h := Header(cf, !more, false, 0, None, None, None, size, inp.rest);
      ghost var goal := GetData(h);
      data := [];
      while true
        invariant h.Header? && h.cf == cf && h.me == !more && h.size == size && h.rest == inp.rest
        invariant goal == Prefixed(data, GetData(h))
        decreases |inp.rest| + if cf then 1 else 0
      {
        var p;
        ghost var d0 := data;
        ok, p := GetDimeField(size);
        if !ok {
          return;
        }
        data := data + Bytes(p);
        if !cf {
          return;
        }
        ghost var g := inp.rest;
        ok := GetDimeHdr();
        if !ok {
          return;
        }
        PrefixedTwice(d0, Bytes(p), GetData(GetHeader(g)));
        h := GetHeader(g);
      }
    }

    /** The record loop of soap_getdime. */
    method GetDime() returns (ok: bool, list: seq<Record>)
      requires more
      modifies this, inp
      ensures ok <==> GetRecords(old(inp.rest)).Received?
      ensures ok ==> GetRecords(old(inp.rest)) == Received(list, inp.rest)
    {
      hide GetHeader, GetData;
      ghost var goal := GetRecords(inp.rest);
      list := [];
      while more
        invariant more ==> goal == Joined(list, GetRecords(inp.rest))
        invariant !more ==> goal == Received(list, inp.rest)
        decreases |inp.rest| + if more then 1 else 0
      {
        ghost var w, before := inp.rest, list;
        ok := GetDimeHdr();
        if !ok {
          return;
        }
        ghost var h := GetHeader(w);
        DataIgnoresNames(h);
        var i, t, o := id, kind, options;
        var data;
        ok, data := GetDimeData();
        if !ok {
          return;
        }
        list := list + [Record(i, t, o, data)];
        RecordDone(before, w);
      }
      ok := true;
    }
  }

  function Prefixed(data: seq<Byte>, d: Data): Data {
    if d.NoData? then NoData else d.(data := data + d.data)
  }

  lemma PrefixedTwice(a: seq<Byte>, b: seq<Byte>, d: Data)
    ensures Prefixed(a, Prefixed(b, d)) == Prefixed(a + b, d)
  {
    assert d.Data? ==> a + (b + d.data) == (a + b) + d.data;
  }

  // The data does not depend on the names in the header.
  lemma DataIgnoresNames(h: Header)
    requires h.Header?
    ensures GetData(h) == GetData(Header(h.cf, h.me, false, 0, None, None, None, h.size, h.rest))
  {
  }

  lemma RecordDone(before: seq<Record>, w: seq<Byte>)
    requires GetHeader(w).Header? && GetData(GetHeader(w)).Data?
    ensures var h := GetHeader(w);
            var d := GetData(h);
            var r := Record(h.id, h.kind, h.options, d.data);
            Joined(before, GetRecords(w)) == if d.me then Received(before + [r], d.rest) else Joined(before + [r], GetRecords(d.rest))
  {
    hide GetHeader, GetData;
    var h := GetHeader(w);
    var d := GetData(h);
    var r := Record(h.id, h.kind, h.options, d.data);
    if !d.me && GetRecords(d.rest).Received? {
      assert before + ([r] + GetRecords(d.rest).list) == (before + [r]) + GetRecords(d.rest).list;
    }
  }

  // --- the round trip ------------------------------------------------------------------------------

  // The type format a header carries.
  function FormatOf(f: Flags): nat {
    if f.media then MEDIA else 0
  }

  // A field as it is read: no bytes become an absent one.
  function Keep(s: seq<Byte>): Option<seq<Byte>> {
    if s == [] then None else Some(s)
  }

  /** A name that survives: absent, or between 1 and 65535 bytes long. */
  predicate Survives(s: Option<seq<Byte>>) {
    s.Some? ==> 0 < |s.value| <= FIELD_LIMIT
  }

  predicate Plain(r: Record) {
    Survives(r.id) && Survives(r.kind) && Survives(r.options)
  }

  // An option block whose length fits its 16 bit header field.
  predicate OptionFits(r: Record) {
    |Bytes(r.options)| <= FIELD_LIMIT
  }

  lemma FieldRead(s: seq<Byte>, rest: seq<Byte>)
    ensures GetField(Field(s) + rest, |s|) == Got(Keep(s), rest)
  {
    var w := Field(s) + rest;
    if s == [] {
      assert w == rest;
    } else {
      assert w[..|s|] == s && w[|s| + Pad(|s|)..] == rest;
    }
  }

  /** A field ends on a boundary of four bytes, zeros filling it up. */
  lemma FieldPadded(s: seq<Byte>)
    ensures var w := Field(s);
            |w| % 4 == 0 && |w| < |s| + 4 && w[..|s|] == s && forall i :: |s| <= i < |w| ==> w[i] == 0
  {
  }

  lemma TwoNumber(n: nat)
    ensures Number(Two(n)) == n % 0x1_0000
  {
    LowSixteen(n);
    TwoBytes(n / 256 % 256, n % 256);
  }

  lemma TwoBytes(a: Byte, b: Byte)
    ensures Number([a, b]) == 256 * a as int + b as int
  {
    var s := [a, b];
    assert s[..1] == [a] && s[..1][..0] == [];
    assert Number(s[..1]) == a as int;
  }

  lemma FourNumber(n: nat)
    requires n < 0x1_0000_0000
    ensures Number(Four(n)) == n
  {
    var a, b := n / 0x1_0000, n % 0x1_0000;
    LowSixteen(a);
    LowSixteen(b);
    FourParts(n);
    FourBytes(n / 0x100_0000 % 256, n / 0x1_0000 % 256, n / 0x100 % 256, n % 256);
  }

  lemma FourParts(n: nat)
    ensures n / 0x100_0000 == n / 0x1_0000 / 0x100 && n / 0x100 % 0x100 == n % 0x1_0000 / 0x100 && n % 0x100 == n % 0x1_0000 % 0x100
  {
    var q, r := n / 0x1_0000, n % 0x1_0000;
    HighPart(q / 0x100, 0x1_0000 * (q % 0x100) + r);
    LowParts(q, r);
  }

  lemma HighPart(a: nat, z: nat)
    requires z < 0x100_0000
    ensures (0x100_0000 * a + z) / 0x100_0000 == a
  {
  }

  lemma LowParts(q: nat, r: nat)
    requires r < 0x1_0000
    ensures (0x1_0000 * q + r) / 0x100 % 0x100 == r / 0x100 && (0x1_0000 * q + r) % 0x100 == r % 0x100
  {
    var n, h := 0x1_0000 * q + r, 0x100 * q + r / 0x100;
    assert n == 0x100 * h + r % 0x100;
    assert n / 0x100 == h;
    assert h % 0x100 == r / 0x100;
  }

  lemma FourBytes(a: Byte, b: Byte, c: Byte, d: Byte)
    ensures Number([a, b, c, d]) == 0x1_0000 * (256 * a as int + b as int) + (256 * c as int + d as int)
  {
    var s := [a, b, c, d];
    assert s[..3][..2] == [a, b] && s[..3] == [a, b, c];
    TwoBytes(a, b);
    assert Number(s[..3]) == 256 * Number([a, b]) + c as int;
  }

  // The twelve bytes, and what the reader takes from them.
  lemma TwelveRead(f: Flags, optlen: nat, idlen: nat, typelen: nat, size: nat, more: seq<Byte>)
    requires size < 0x1_0000_0000
    ensures var w := Twelve(f, optlen, idlen, typelen, size) + more;
            && w[0] / 8 == 1 && (w[0] % 2 == 1 <==> f.cf) && (w[0] / 2 % 2 == 1 <==> f.me) && w[0] / 4 % 2 == 0
            && w[1] == FormatOf(f) && w[12..] == more
            && Number(w[2..4]) == optlen % 0x1_0000 && Number(w[4..6]) == idlen % 0x1_0000
            && Number(w[6..8]) == typelen % 0x1_0000 && Number(w[8..12]) == size
  {
    var w := Twelve(f, optlen, idlen, typelen, size) + more;
    assert w[2..4] == Two(optlen) && w[4..6] == Two(idlen) && w[6..8] == Two(typelen) && w[8..12] == Four(size);
    TwoNumber(optlen);
    TwoNumber(idlen);
    TwoNumber(typelen);
    FourNumber(size);
  }

  lemma HeaderReads(f: Flags, r: Record, size: nat, rest: seq<Byte>)
    requires OptionFits(r) && size < 0x1_0000_0000
    ensures GetHeader(HeaderOf(f, r, size) + rest)
            == Header(f.cf, f.me, false, FormatOf(f), Keep(Bytes(r.options)), Keep(Cut(r.id)), Keep(Cut(r.kind)), size, rest)
  {
    hide Twelve, Field, Number, GetField, Cut;
    var o, i, t := Bytes(r.options), Cut(r.id), Cut(r.kind);
    var w := HeaderOf(f, r, size) + rest;
    var w1 := Field(i) + (Field(t) + rest);
    assert w == Twelve(f, |o|, |i|, |t|, size) + (Field(o) + w1);
    TwelveRead(f, |o|, |i|, |t|, size, Field(o) + w1);
    FieldRead(o, w1);
    FieldRead(i, Field(t) + rest);
    FieldRead(t, rest);
  }

  /** A header is read back as it was written, and nothing after it, exactly when its
      fields are absent or have from 1 to 65535 bytes. */
  lemma HeaderReadsExactly(f: Flags, r: Record, size: nat, rest: seq<Byte>)
    requires OptionBlock(r.options) && size < 0x1_0000_0000
    ensures GetHeader(HeaderOf(f, r, size) + rest) == Header(f.cf, f.me, false, FormatOf(f), r.options, r.id, r.kind, size, rest)
            <==> Plain(r)
  {
    hide GetHeader, HeaderOf;
    if OptionFits(r) {
      HeaderReads(f, r, size, rest);
    } else {
      LongOption(f, r, size, rest);
    }
  }

  // The length of a longer option block wraps around in its header field.
  lemma LongOption(f: Flags, r: Record, size: nat, rest: seq<Byte>)
    requires OptionBlock(r.options) && !OptionFits(r) && size < 0x1_0000_0000
    ensures var h := GetHeader(HeaderOf(f, r, size) + rest);
            h.Header? ==> h.options != r.options
  {
    hide Twelve, Field, Number, Cut;
    var o, i, t := Bytes(r.options), Cut(r.id), Cut(r.kind);
    var more := Field(o) + Field(i) + Field(t) + rest;
    assert HeaderOf(f, r, size) + rest == Twelve(f, |o|, |i|, |t|, size) + more;
    TwelveRead(f, |o|, |i|, |t|, size, more);
    assert |o| % 0x1_0000 < 4;
  }

  // soap_dime_option
  function OptionOf(optype: nat, text: seq<Byte>): seq<Byte> {
    Two(optype) + Two(|text|) + text
  }

  /** The block soap_dime_option makes of a text declares what it holds if and only if the
      text has at most 65535 bytes. */
  lemma OptionExactly(optype: nat, text: seq<Byte>)
    ensures OptionBlock(Some(OptionOf(optype, text))) <==> |text| <= 0xFFFF
  {
    var o := OptionOf(optype, text);
    assert o[2..4] == Two(|text|) && o[2] == |text| / 256 % 256 && o[3] == |text| % 256;
    LowSixteen(|text|);
  }

  // The header and the data of a whole record.
  lemma WholeRead(r: Record, last: bool, rest: seq<Byte>)
    requires OptionFits(r) && |r.data| < 0x1_0000_0000
    ensures var h := GetHeader(Whole(r, last) + rest);
            && h.Header? && h.options == Keep(Bytes(r.options)) && h.id == Keep(Cut(r.id)) && h.kind == Keep(Cut(r.kind))
            && h.format == MEDIA && GetData(h) == Data(r.data, last, rest)
  {
    hide HeaderOf, Field, GetHeader, Cut;
    assert Whole(r, last) + rest == HeaderOf(Flags(false, last, true), r, |r.data|) + (Field(r.data) + rest);
    HeaderReads(Flags(false, last, true), r, |r.data|, Field(r.data) + rest);
    FieldRead(r.data, rest);
  }

  // Chunks of any number, the last possibly empty, join to the data.
  lemma {:induction false} ChunksRead(r: Record, media: bool, data: seq<Byte>, last: bool, rest: seq<Byte>)
    requires OptionFits(r)
    ensures var h := GetHeader(Chunks(r, media, data, last) + rest);
            && h.Header? && h.options == Keep(Bytes(r.options)) && h.id == Keep(Cut(r.id)) && h.kind == Keep(Cut(r.kind))
            && h.format == (if media then MEDIA else 0) && GetData(h) == Data(data, last, rest)
    decreases |data|
  {
    hide HeaderOf, Field, GetHeader, GetField;
    if |data| < CHUNK {
      assert Chunks(r, media, data, last) + rest == HeaderOf(Flags(false, last, media), r, |data|) + (Field(data) + rest);
      HeaderReads(Flags(false, last, media), r, |data|, Field(data) + rest);
      FieldRead(data, rest);
    } else {
      var tail := Chunks(Anonymous(r), media && r.id.None?, data[CHUNK..], last) + rest;
      assert Chunks(r, media, data, last) + rest == HeaderOf(Flags(true, false, media), r, CHUNK) + (Field(data[..CHUNK]) + tail);
      HeaderReads(Flags(true, false, media), r, CHUNK, Field(data[..CHUNK]) + tail);
      FieldRead(data[..CHUNK], tail);
      ChunksRead(Anonymous(r), media && r.id.None?, data[CHUNK..], last, rest);
      assert data[..CHUNK] + data[CHUNK..] == data;
    }
  }

  // What follows a chunk: the header of the next one.
  function NextChunk(w: seq<Byte>): Header {
    if GetHeader(w).NoHeader? || GetField(GetHeader(w).rest, GetHeader(w).size).Eof? then NoHeader
    else GetHeader(GetField(GetHeader(w).rest, GetHeader(w).size).rest)
  }

  /** The header of a chunk that continues a record says nothing about it, as the first one
      did already, if and only if the record has an id or nothing to say. */
  lemma ContinuedExactly(r: Record, media: bool, data: seq<Byte>, last: bool, rest: seq<Byte>)
    requires OptionFits(r) && |data| >= CHUNK
    ensures var h := NextChunk(Chunks(r, media, data, last) + rest);
            && h.Header?
            && (h.id.None? && h.kind.None? && h.options.None? && h.format == 0
                <==> r.id.Some? || (Cut(r.kind) == [] && Bytes(r.options) == [] && !media))
  {
    hide HeaderOf, Field, GetHeader, GetField, Cut;
    var r1, media1 := Anonymous(r), media && r.id.None?;
    var tail := Chunks(r1, media1, data[CHUNK..], last) + rest;
    assert Chunks(r, media, data, last) + rest == HeaderOf(Flags(true, false, media), r, CHUNK) + (Field(data[..CHUNK]) + tail);
    HeaderReads(Flags(true, false, media), r, CHUNK, Field(data[..CHUNK]) + tail);
    FieldRead(data[..CHUNK], tail);
    ChunksRead(r1, media1, data[CHUNK..], last, rest);
    CutNone();
  }

  lemma CutNone()
    ensures Cut(None) == []
  {
  }

  // What of an attachment is received.
  function Seen(a: Attachment, streaming: bool): Record {
    Record(Keep(Cut(a.record.id)), Keep(Cut(a.record.kind)), Keep(Bytes(a.record.options)),
           if a.way == Stream && !streaming then [] else a.record.data)
  }

  function AllSeen(list: seq<Attachment>, streaming: bool): (s: seq<Record>)
    ensures |s| == |list| && forall i :: 0 <= i < |s| ==> s[i] == Seen(list[i], streaming)
  {
    seq(|list|, i requires 0 <= i < |list| => Seen(list[i], streaming))
  }

  function Records(list: seq<Attachment>): (s: seq<Record>)
    ensures |s| == |list| && forall i :: 0 <= i < |s| ==> s[i] == list[i].record
  {
    seq(|list|, i requires 0 <= i < |list| => list[i].record)
  }

  ghost predicate Sendable(a: Attachment) {
    OptionFits(a.record) && |a.record.data| < 0x8000_0000
  }

  lemma OneRead(a: Attachment, last: bool, streaming: bool, rest: seq<Byte>)
    requires Sendable(a)
    ensures var h := GetHeader(One(a, last, streaming) + rest);
            && h.Header? && GetData(h).Data? && GetData(h).me == last && GetData(h).rest == rest
            && Record(h.id, h.kind, h.options, GetData(h).data) == Seen(a, streaming)
  {
    hide GetHeader, GetData, Whole, Chunks, Cut;
    if a.way == Stream && streaming {
      ChunksRead(a.record, true, a.record.data, last, rest);
    } else {
      WholeRead(if a.way == Stream then a.record.(data := []) else a.record, last, rest);
    }
  }

  /** A nonempty list of attachments is read back record by record, streamed or not,
      and reading stops right after the last one. */
  lemma {:induction false} ListRead(list: seq<Attachment>, streaming: bool, rest: seq<Byte>)
    requires list != [] && forall a :: a in list ==> Sendable(a)
    ensures GetRecords(All(list, streaming) + rest) == Received(AllSeen(list, streaming), rest)
    decreases |list|
  {
    hide GetHeader, GetData, One, Seen;
    var tail := All(list[1..], streaming) + rest;
    var w := One(list[0], |list| == 1, streaming) + tail;
    assert All(list, streaming) + rest == w;
    OneRead(list[0], |list| == 1, streaming, tail);
    assert AllSeen(list, streaming) == [Seen(list[0], streaming)] + AllSeen(list[1..], streaming);
    if |list| == 1 {
      assert tail == rest && AllSeen(list[1..], streaming) == [];
    } else {
      ListRead(list[1..], streaming, rest);
    }
  }

  /** The attachments themselves come back if and only if every field survives and
      no handle of unknown size was sent without streaming, unless it was empty. */
  lemma ListReadExactly(list: seq<Attachment>, streaming: bool, rest: seq<Byte>)
    requires list != [] && forall a :: a in list ==> Sendable(a)
    ensures GetRecords(All(list, streaming) + rest) == Received(Records(list), rest)
            <==> forall a :: a in list ==> Plain(a.record) && (streaming || a.way != Stream || a.record.data == [])
  {
    hide GetRecords, All, Plain;
    ListRead(list, streaming, rest);
    forall a | a in list
      ensures Seen(a, streaming) == a.record <==> Plain(a.record) && (streaming || a.way != Stream || a.record.data == [])
    {
      SeenExactly(a, streaming);
    }
    assert AllSeen(list, streaming) == Records(list) <==> forall i :: 0 <= i < |list| ==> Seen(list[i], streaming) == list[i].record;
  }

  lemma SeenExactly(a: Attachment, streaming: bool)
    requires OptionFits(a.record)
    ensures Seen(a, streaming) == a.record <==> Plain(a.record) && (streaming || a.way != Stream || a.record.data == [])
  {
  }

  /** A list of attachments written and read back, whatever follows it in the stream. */
  method Exchange(list: seq<Attachment>, streaming: bool, after: seq<Byte>) returns (got: seq<Record>, rest: seq<Byte>)
    requires list != [] && forall a :: a in list ==> Sendable(a) && Plain(a.record)
    requires forall a :: a in list ==> (a.way == Sized ==> a.record.data != []) && (a.way == Stream ==> streaming)
    ensures got == Records(list) && rest == after
  {
    hide GetRecords, All, Sendable, Plain, Records;
    ListReadExactly(list, streaming, after);
    var w, done := PutDime([], list, streaming);
    assert [] + All(list, streaming) == All(list, streaming);
    var inp := new Source(w + after);
    var r := new Reader(inp);
    var ok;
    ok, got := r.GetDime();
    rest := inp.rest;
  }
}
