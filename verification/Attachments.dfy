/** The length predicted for the attachments of a message against the bytes sent. */
module Attachments {
  import opened Wire
  import opened MimeHeader
  import MimeParts
  import opened Dime

  // SOAP_ENC_DIME, SOAP_ENC_MTOM and SOAP_ENC_MIME
  datatype Mode = Mode(dime: bool, mtom: bool, mime: bool)

  // (n + 3) & ~3
  function Up4(n: nat): (m: nat)
    ensures m == n + Pad(n)
  {
    (n + 3) / 4 * 4
  }

  // content->size: 0 when the handle gives no size
  function Size(a: Attachment): nat {
    if a.way == Stream then 0 else |a.record.data|
  }

  function Length(s: Option<seq<Byte>>): nat {
    if s.None? then 0 else |s.value|
  }

  function DimeSize(list: seq<Attachment>): nat
    requires forall a :: a in list ==> a.record.options.Some? ==> |a.record.options.value| >= 4
  {
    if list == [] then 0
    else
      var r := list[0].record;
      12 + Up4(Size(list[0])) + Up4(Length(r.id)) + Up4(Length(r.kind))
      + (if r.options.None? then 0 else Up4(OptLen(r.options.value))) + DimeSize(list[1..])
  }

  function LineSize(extra: nat, v: Option<seq<Byte>>): nat {
    if v.None? then 0 else extra + |v.value|
  }

  function MimeSize(n: nat, parts: seq<MimeParts.Part>): nat {
    if parts == [] then 6 + n
    else
      var f := parts[0].fields;
      6 + n + LineSize(16, f.kind) + LineSize(29, CodeName(f.encoding)) + LineSize(14, f.id)
      + LineSize(20, f.location) + LineSize(23, f.description) + 2 + |parts[0].data| + MimeSize(n, parts[1..])
  }

  ghost predicate AllOptions(list: seq<Attachment>) {
    forall a :: a in list ==> OptionBlock(a.record.options)
  }

  /** soap_count_attachments */
  method CountAttachments(count0: nat, mode: Mode, list: seq<Attachment>, boundary: Option<seq<Byte>>, parts: seq<MimeParts.Part>)
    returns (count: nat)
    requires AllOptions(list)
    ensures count == count0 + (if mode.dime && !mode.mtom then DimeSize(list) else 0)
                     + if mode.mime && boundary.Some? then MimeSize(|boundary.value|, parts) else 0
  {
    hide OptLen, Up4;
    count := count0;
    if mode.dime && !mode.mtom {
      var i := 0;
      assert list[0..] == list;
      while i < |list|
        invariant 0 <= i <= |list| && count + DimeSize(list[i..]) == count0 + DimeSize(list)
      {
        assert list[i..][0] == list[i] && list[i..][1..] == list[i + 1..];
        var r := list[i].record;
        count := count + 12 + Up4(Size(list[i]));
        if r.id.Some? {
          count := count + Up4(|r.id.value|);
        }
        if r.kind.Some? {
          count := count + Up4(|r.kind.value|);
        }
        if r.options.Some? {
          count := count + Up4(OptLen(r.options.value));
        }
        assert Up4(0) == 0;
        i := i + 1;
      }
    }
    if mode.mime && boundary.Some? {
      count := CountMime(count, |boundary.value|, parts);
    }
  }

  method CountMime(count0: nat, n: nat, parts: seq<MimeParts.Part>) returns (count: nat)
    ensures count == count0 + MimeSize(n, parts)
  {
    hide Ascii, CodeName;
    count := count0;
    var i := 0;
    assert parts[0..] == parts;
    while i < |parts|
      invariant 0 <= i <= |parts| && count + MimeSize(n, parts[i..]) == count0 + MimeSize(n, parts)
    {
      assert parts[i..][0] == parts[i] && parts[i..][1..] == parts[i + 1..];
      var f := parts[i].fields;
      count := count + 6 + n;
      if f.kind.Some? {
        count := count + 16 + |f.kind.value|;
      }
      var s := CodeName(f.encoding);
      if s.Some? {
        count := count + 29 + |s.value|;
      }
      if f.id.Some? {
        count := count + 14 + |f.id.value|;
      }
      if f.location.Some? {
        count := count + 20 + |f.location.value|;
      }
      if f.description.Some? {
        count := count + 23 + |f.description.value|;
      }
      count := count + 2 + |parts[i].data|;
      i := i + 1;
    }
    count := count + 6 + n;
  }

  // --- the bytes sent ------------------------------------------------------------------------------

  lemma FieldLength(name: seq<Byte>, v: Option<seq<Byte>>)
    ensures |Flat(OptLine(name, v))| == LineSize(|name| + 4, v)
  {
    MimeParts.FlatOpt(name, v);
  }

  lemma BlockLength(f: Fields)
    ensures |Block(f)| == LineSize(16, f.kind) + LineSize(29, CodeName(f.encoding)) + LineSize(14, f.id)
                          + LineSize(20, f.location) + LineSize(23, f.description) + 2
  {
    hide Ascii, OptLine, Flat;
    MimeParts.FlatFields(f);
    FieldLength(TYPE, f.kind);
    FieldLength(CODING, CodeName(f.encoding));
    FieldLength(ID, f.id);
    FieldLength(LOCATION, f.location);
    FieldLength(DESCRIPTION, f.description);
  }

  /** For the MIME parts the prediction is exact. */
  lemma {:induction false} MimeExact(boundary: seq<Byte>, parts: seq<MimeParts.Part>)
    ensures MimeSize(|boundary|, parts) == |MimeParts.Message(boundary, parts)|
  {
    hide Block;
    if parts != [] {
      BlockLength(parts[0].fields);
      MimeExact(boundary, parts[1..]);
    }
  }

  // Up to 65536 bytes, cutting a name to 65535 leaves its padded length.
  lemma CutLength(s: Option<seq<Byte>>)
    ensures |Field(Cut(s))| <= Up4(Length(s))
    ensures |Field(Cut(s))| == Up4(Length(s)) <==> Length(s) <= 0x1_0000
  {
  }

  // The sizes of a list are known, and names are not cut below their padded length.
  ghost predicate Known(list: seq<Attachment>) {
    forall a :: a in list ==> a.way != Stream || a.record.data == []
  }

  ghost predicate NamesFit(list: seq<Attachment>) {
    forall a :: a in list ==> Length(a.record.id) <= 0x1_0000 && Length(a.record.kind) <= 0x1_0000
  }

  lemma OneLength(a: Attachment, last: bool, streaming: bool)
    requires OptionBlock(a.record.options) && (a.way != Stream || a.record.data == [])
    ensures |One(a, last, streaming)| == 12 + |Field(Bytes(a.record.options))| + |Field(Cut(a.record.id))| + |Field(Cut(a.record.kind))| + Up4(Size(a))
  {
    hide Twelve;
    assert a.way == Stream ==> a.record.(data := []) == a.record;
  }

  lemma {:induction false} DimeLength(list: seq<Attachment>, streaming: bool)
    requires AllOptions(list) && Known(list)
    ensures |All(list, streaming)| <= DimeSize(list)
    ensures |All(list, streaming)| == DimeSize(list) <==> NamesFit(list)
  {
    hide One, Cut, Field, Up4;
    if list != [] {
      var a := list[0];
      assert a in list;
      DimeLength(list[1..], streaming);
      OneLength(a, |list| == 1, streaming);
      CutLength(a.record.id);
      CutLength(a.record.kind);
      OptionsLength(a.record.options);
      assert NamesFit(list) <==> Length(a.record.id) <= 0x1_0000 && Length(a.record.kind) <= 0x1_0000 && NamesFit(list[1..]);
    }
  }

  lemma OptionsLength(o: Option<seq<Byte>>)
    requires OptionBlock(o)
    ensures |Field(Bytes(o))| == if o.None? then 0 else Up4(OptLen(o.value))
  {
  }

  // soap_begin_count: the mode of the counting pass, from the output mode asked for.
  function CountMode(o: Mode): Mode {
    if o.mtom && o.dime then o.(mime := true) else if !o.mime then o.(mtom := false) else o
  }

  // soap_begin_send: the mode of the sending pass, which turns DIME off under MTOM.
  function SendMode(o: Mode, counted: Mode): Mode {
    var m := o.(dime := o.dime || counted.dime);
    if m.mtom && m.dime then m.(mime := true, dime := false) else if !m.mime then m.(mtom := false) else m
  }

  /** What the two passes make of the mode asked for: MTOM needs MIME, which asking for DIME
      as well brings in, and DIME attachments are sent only without it. */
  lemma ModesExactly(o: Mode)
    ensures var c := CountMode(o);
            var m := SendMode(o, c);
            && (c.mime <==> o.mime || (o.mtom && o.dime)) && m.mime == c.mime
            && (c.mtom <==> o.mtom && (o.mime || o.dime)) && m.mtom == c.mtom
            && c.dime == o.dime && (m.dime <==> o.dime && !o.mtom)
  {
  }

  // What soap_putdime and soap_putmime send for the message.
  function Sent(mode: Mode, list: seq<Attachment>, streaming: bool, boundary: Option<seq<Byte>>, parts: seq<MimeParts.Part>): seq<Byte> {
    (if mode.dime then All(list, streaming) else [])
    + if mode.mime && boundary.Some? then MimeParts.Message(boundary.value, parts) else []
  }

  /** With known sizes, the length predicted in the counting pass is the length sent in
      the sending pass, with MTOM or without, exactly when no name of a DIME attachment
      that is sent is longer than 65536 bytes. */
  lemma PredictionExactly(o: Mode, list: seq<Attachment>, streaming: bool, boundary: Option<seq<Byte>>, parts: seq<MimeParts.Part>)
    requires AllOptions(list) && Known(list)
    ensures var c := CountMode(o);
            (if c.dime && !c.mtom then DimeSize(list) else 0)
            + (if c.mime && boundary.Some? then MimeSize(|boundary.value|, parts) else 0)
            == |Sent(SendMode(o, c), list, streaming, boundary, parts)|
            <==> (o.dime && !o.mtom ==> NamesFit(list))
  {
    hide One, DimeSize, MimeSize, MimeParts.Message;
    DimeLength(list, streaming);
    if boundary.Some? {
      MimeExact(boundary.value, parts);
    }
  }
}
