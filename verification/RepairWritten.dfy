/** Archives as a zip program writes them, and what unzRepair recovers of them. */
module RepairWritten {
  import opened Wire
  import opened Repair
  import opened RepairRead

  // A file in an archive, with what its local header says about it.
  datatype Entry = Entry(
    version: nat, flags: nat, compression: nat, time: nat, date: nat, crc: nat, cpsize: nat, uncpsize: nat,
    name: seq<Byte>, extra: seq<Byte>, data: seq<Byte>)

  // Section 4.3.7 of APPNOTE.TXT.
  function LocalHeader(e: Entry): (h: seq<Byte>)
    ensures |h| == 30
  {
    Bytes32(LOCAL_SIGNATURE) + Bytes16(e.version) + Bytes16(e.flags) + Bytes16(e.compression) + Bytes16(e.time) + Bytes16(e.date)
    + Bytes32(e.crc) + Bytes32(e.cpsize) + Bytes32(e.uncpsize) + Bytes16(|e.name|) + Bytes16(|e.extra|)
  }

  function EntryBytes(e: Entry): seq<Byte> {
    LocalHeader(e) + e.name + e.extra + e.data
  }

  function LocalOf(e: Entry): Local {
    Local(LocalHeader(e), e.name, e.extra, e.data)
  }

  // What a header can say.
  ghost predicate InRange(e: Entry) {
    && e.version < 0x1_0000 && e.flags < 0x1_0000 && e.compression < 0x1_0000 && e.time < 0x1_0000 && e.date < 0x1_0000
    && e.crc < 0x1_0000_0000 && e.cpsize < 0x1_0000_0000 && e.uncpsize < 0x1_0000_0000
    && |e.name| < 0x1_0000 && |e.extra| < 0x1_0000
  }

  // There is as much data as the header says: the compressed size, or the uncompressed one
  // when that field is zero.  A size that is no int counts as none.
  ghost predicate Sized(e: Entry) {
    |e.data| == if 0 < e.cpsize < 0x8000_0000 then e.cpsize
                else if e.cpsize == 0 && e.uncpsize < 0x8000_0000 then e.uncpsize
                else 0
  }

  ghost predicate Written(e: Entry) {
    InRange(e) && Sized(e) && e.name != []
  }

  ghost predicate AllWritten(es: seq<Entry>) {
    forall i :: 0 <= i < |es| ==> Written(es[i])
  }

  function Stream(es: seq<Entry>): seq<Byte> {
    if es == [] then [] else EntryBytes(es[0]) + Stream(es[1..])
  }

  function Locals(es: seq<Entry>): (list: seq<Local>)
    ensures |list| == |es| && forall i :: 0 <= i < |es| ==> list[i] == LocalOf(es[i])
  {
    if es == [] then [] else [LocalOf(es[0])] + Locals(es[1..])
  }

  /** Numbers are stored low byte first, and the signatures are the letters PK and two
      more bytes. */
  lemma LittleEndian()
    ensures Bytes16(0x0201) == [1, 2] && Bytes32(0x0403_0201) == [1, 2, 3, 4]
    ensures Bytes32(LOCAL_SIGNATURE) == [80, 75, 3, 4] && Bytes32(CENTRAL_SIGNATURE) == [80, 75, 1, 2] && Bytes32(END_SIGNATURE) == [80, 75, 5, 6]
  {
  }

  // The fields of a header are read back from where they stand.
  lemma HeaderFields(e: Entry, more: seq<Byte>)
    requires InRange(e)
    ensures var w := LocalHeader(e) + more;
            && w[..30] == LocalHeader(e) && Read32(w, 0) == LOCAL_SIGNATURE
            && Read16(w, 4) == e.version && Read16(w, 6) == e.flags && Read16(w, 8) == e.compression
            && Read16(w, 10) == e.time && Read16(w, 12) == e.date && Read32(w, 14) == e.crc
            && Read32(w, 18) == e.cpsize && Read32(w, 22) == e.uncpsize
            && Read16(w, 26) == |e.name| && Read16(w, 28) == |e.extra|
  {
    hide Read16, Read32, Bytes16, Bytes32;
    var w := LocalHeader(e) + more;
    At32(w, 0, LOCAL_SIGNATURE);
    At16(w, 4, e.version);
    At16(w, 6, e.flags);
    At16(w, 8, e.compression);
    At16(w, 10, e.time);
    At16(w, 12, e.date);
    At32(w, 14, e.crc);
    At32(w, 18, e.cpsize);
    At32(w, 22, e.uncpsize);
    At16(w, 26, |e.name|);
    At16(w, 28, |e.extra|);
  }

  // The size the header announces is the size of the data.
  lemma SizeAnnounced(e: Entry)
    requires InRange(e)
    ensures DataSize(LocalHeader(e)) == |e.data| <==> Sized(e)
  {
    hide LocalHeader, Read32, Read16;
    HeaderFields(e, []);
    assert LocalHeader(e) + [] == LocalHeader(e);
  }

  // An entry, or the first n bytes of it, at the start of a file.
  lemma EntryFirst(e: Entry, n: nat, w: seq<Byte>)
    requires InRange(e) && Sized(e) && n <= |EntryBytes(e)| && (w != [] ==> n == |EntryBytes(e)|)
    ensures var v := EntryBytes(e)[..n] + w;
            && (n >= 30 ==> AtLocal(v) && LocalEnd(v) == |EntryBytes(e)| && (Complete(v) <==> e.name != [] && n == |EntryBytes(e)|))
            && (n >= 30 && Complete(v) ==> First(v) == LocalOf(e) && v[LocalEnd(v)..] == w)
            && (n < 30 ==> !AtLocal(v))
  {
    hide LocalHeader, Read32, Read16, DataSize;
    var v := EntryBytes(e)[..n] + w;
    if n >= 30 {
      var more := (e.name + e.extra + e.data)[..n - 30] + w;
      assert v == LocalHeader(e) + more;
      HeaderFields(e, more);
      SizeAnnounced(e);
      if n == |EntryBytes(e)| {
        EntryParts(LocalHeader(e), e.name, e.extra, e.data, w);
        assert v == EntryBytes(e) + w;
      }
    }
  }

  lemma EntryParts(h: seq<Byte>, a: seq<Byte>, b: seq<Byte>, c: seq<Byte>, w: seq<Byte>)
    ensures var v := h + a + b + c + w;
            var i, j := |h| + |a|, |h| + |a| + |b|;
            v[|h|..i] == a && v[i..j] == b && v[j..j + |c|] == c && v[j + |c|..] == w
  {
  }

  // The entries in front of w are taken one by one.
  lemma {:induction false} SplitStream(es: seq<Entry>, w: seq<Byte>)
    requires AllWritten(es)
    ensures Split(Stream(es) + w) == Entries(Locals(es) + Split(w).list, Split(w).ok)
    decreases |es|
  {
    hide EntryBytes, LocalEnd, First, LocalOf, AtLocal, Complete, Written;
    if es == [] {
      assert Stream(es) + w == w;
      assert Locals(es) + Split(w).list == Split(w).list;
    } else {
      var v := Stream(es[1..]) + w;
      assert Written(es[0]);
      FirstWritten(es[0], v);
      assert Stream(es) + w == EntryBytes(es[0]) + v;
      SplitStream(es[1..], w);
      assert [LocalOf(es[0])] + (Locals(es[1..]) + Split(w).list) == Locals(es) + Split(w).list;
    }
  }

  lemma FirstWritten(e: Entry, w: seq<Byte>)
    requires Written(e)
    ensures var v := EntryBytes(e) + w;
            Split(v) == Entries([LocalOf(e)] + Split(w).list, Split(w).ok)
  {
    hide EntryBytes, LocalEnd, First, LocalOf, AtLocal, Complete;
    var n := |EntryBytes(e)|;
    assert EntryBytes(e)[..n] == EntryBytes(e);
    AtLeastThirty(e);
    EntryFirst(e, n, w);
    LocalEndPositive(EntryBytes(e) + w);
  }

  lemma AtLeastThirty(e: Entry)
    ensures |EntryBytes(e)| >= 30
  {
  }

  /** All entries in front of something that starts no entry are found, whatever it is. */
  lemma SplitExactly(es: seq<Entry>, w: seq<Byte>)
    requires AllWritten(es) && !AtLocal(w)
    ensures Split(Stream(es) + w) == Entries(Locals(es), true)
  {
    SplitStream(es, w);
    assert Locals(es) + [] == Locals(es);
  }

  /** An archive that breaks off in entry e, n bytes of it being left: the entries before it
      are found, and the repair goes on exactly when not even its header is whole. */
  lemma BrokenOff(es: seq<Entry>, e: Entry, n: nat)
    requires AllWritten(es) && InRange(e) && Sized(e) && n < |EntryBytes(e)|
    ensures Split(Stream(es) + EntryBytes(e)[..n]) == Entries(Locals(es), n < 30)
  {
    hide EntryBytes, LocalEnd, First, AtLocal, Complete, LocalOf;
    var w := EntryBytes(e)[..n];
    assert w + [] == w;
    EntryFirst(e, n, []);
    SplitStream(es, w);
    assert Locals(es) + [] == Locals(es);
  }

  /** An entry without a name stops the repair. */
  lemma NamelessStops(es: seq<Entry>, e: Entry, w: seq<Byte>)
    requires AllWritten(es) && InRange(e) && Sized(e) && e.name == []
    ensures Split(Stream(es) + EntryBytes(e) + w) == Entries(Locals(es), false)
  {
    hide EntryBytes, LocalEnd, First, AtLocal, Complete, LocalOf;
    var v := EntryBytes(e) + w;
    var n := |EntryBytes(e)|;
    assert EntryBytes(e)[..n] == EntryBytes(e);
    AtLeastThirty(e);
    EntryFirst(e, n, w);
    SplitStream(es, v);
    assert Stream(es) + EntryBytes(e) + w == Stream(es) + v;
    assert Locals(es) + [] == Locals(es);
  }

  // --- the whole repair ------------------------------------------------------------------------------

  // Names and extra fields that fit the program's buffers.
  ghost predicate SmallEntries(es: seq<Entry>) {
    forall i :: 0 <= i < |es| ==> |es[i].name| <= MAX_NAME && |es[i].extra| <= MAX_EXTRA
  }

  lemma {:induction false} SmallStream(es: seq<Entry>, w: seq<Byte>)
    requires AllWritten(es) && SmallEntries(es) && !AtLocal(w)
    ensures SmallNames(Stream(es) + w)
    decreases |es|
  {
    hide EntryBytes, LocalEnd, First, AtLocal, Complete, LocalOf, Written, Read16;
    if es == [] {
      assert Stream(es) + w == w;
    } else {
      var v := Stream(es[1..]) + w;
      assert Written(es[0]);
      SmallStream(es[1..], w);
      assert Stream(es) + w == EntryBytes(es[0]) + v;
      SmallFirst(es[0], v);
    }
  }

  lemma SmallFirst(e: Entry, w: seq<Byte>)
    requires Written(e) && |e.name| <= MAX_NAME && |e.extra| <= MAX_EXTRA && SmallNames(w)
    ensures SmallNames(EntryBytes(e) + w)
  {
    hide LocalHeader, LocalEnd, First, LocalOf, Read16, Read32;
    var n := |EntryBytes(e)|;
    assert EntryBytes(e)[..n] == EntryBytes(e);
    EntryFirst(e, n, w);
    var v := EntryBytes(e) + w;
    assert v == LocalHeader(e) + (e.name + e.extra + e.data + w);
    HeaderFields(e, e.name + e.extra + e.data + w);
  }

  function DataBytes(es: seq<Entry>): nat {
    if es == [] then 0 else |es[0].data| + DataBytes(es[1..])
  }

  lemma {:induction false} DataTotals(es: seq<Entry>)
    ensures DataTotal(Locals(es)) == DataBytes(es) && Flat(Locals(es)) == Stream(es)
  {
    hide LocalHeader;
    if es != [] {
      assert Locals(es)[1..] == Locals(es[1..]);
      DataTotals(es[1..]);
    }
  }

  // What the directory says about entry e at this place.
  function Described(e: Entry, offset: nat): Central {
    Central(e.version, e.version, e.flags, e.compression, e.time, e.date, e.crc, e.cpsize, e.uncpsize, e.name, e.extra, [], 0, 0, offset)
  }

  function AllDescribed(es: seq<Entry>, offset: nat): seq<Central> {
    if es == [] then [] else [Described(es[0], offset)] + AllDescribed(es[1..], offset + |EntryBytes(es[0])|)
  }

  lemma EntryDescribed(e: Entry, offset: nat)
    requires InRange(e)
    ensures IsLocal(LocalOf(e)) && CentralOf(LocalOf(e), offset) == Described(e, offset)
  {
    hide LocalHeader, Read16, Read32;
    HeaderFields(e, []);
    assert LocalHeader(e) + [] == LocalHeader(e);
  }

  lemma SameBytes(e: Entry)
    ensures Bytes(LocalOf(e)) == EntryBytes(e)
  {
    hide LocalHeader;
  }

  lemma AllAreLocal(es: seq<Entry>)
    requires AllWritten(es)
    ensures AllLocal(Locals(es))
  {
    hide IsLocal, LocalOf, InRange;
    forall i | 0 <= i < |es|
      ensures IsLocal(Locals(es)[i])
    {
      assert Written(es[i]);
      EntryDescribed(es[i], 0);
    }
  }

  lemma {:induction false} EntriesDescribed(es: seq<Entry>, offset: nat)
    requires AllWritten(es)
    ensures AllLocal(Locals(es)) && Centrals(Locals(es), offset) == AllDescribed(es, offset)
    decreases |es|
  {
    hide IsLocal, LocalOf, CentralOf, Described, AllLocal, Bytes, EntryBytes, InRange, Sized;
    AllAreLocal(es);
    if es != [] {
      assert Written(es[0]) && Locals(es)[1..] == Locals(es[1..]);
      EntryDescribed(es[0], offset);
      SameBytes(es[0]);
      EntriesDescribed(es[1..], offset + |EntryBytes(es[0])|);
    }
  }

  /** Entries whose directory was lost or damaged: all are recovered and counted, and the
      directory found through the end record describes each as its own header does, in
      their order and at its place. */
  method RepairWritten(es: seq<Entry>, w: seq<Byte>) returns (err: Status, out: seq<Byte>, nRecovered: nat, bytesRecovered: nat)
    requires AllWritten(es) && SmallEntries(es) && !AtLocal(w) && Totals(Stream(es) + w)
    ensures err == Z_OK && nRecovered == |es| && bytesRecovered == DataBytes(es)
    ensures Stream(es) <= out && ReadEnd(out).Some?
    ensures var e := ReadEnd(out).value;
            && e.count == e.total == (if |es| > 0xFFFF then 0xFFFF else |es|)
            && e.offset == |Stream(es)| && e.offset + e.size + 22 == |out|
            && ReadDirectory(out[e.offset..e.offset + e.size]) == Some(AllDescribed(es, 0))
  {
    hide IsLocal, Split, Flat, Stream, Locals, SmallNames, Directory, ReadDirectory, ReadEnd, AtLocal, Centrals, EndRecord;
    ghost var file, list := Stream(es) + w, Locals(es);
    SplitExactly(es, w);
    SmallStream(es, w);
    DataTotals(es);
    EntriesDescribed(es, 0);
    LocalsLength(es);
    err, out, nRecovered, bytesRecovered := UnzRepair(Stream(es) + w);
    ghost var dir := Directory(list, 0);
    assert out == Stream(es) + dir + EndRecord(|list|, |dir|, |Stream(es)|);
    EndRead(out, Stream(es) + dir, |es|, |dir|, |Stream(es)|);
    DirectoryRead(list, 0);
    assert out[|Stream(es)|..|Stream(es)| + |dir|] == dir;
  }

  lemma LocalsLength(es: seq<Entry>)
    ensures |Locals(es)| == |es|
  {
  }
}
