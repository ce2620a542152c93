/** Reading a repaired archive from its end, as an unzip program does. */
module RepairRead {
  import opened Wire
  import opened Repair

  // The fields of a directory record.
  datatype Central = Central(
    madeBy: nat, needed: nat, flags: nat, compression: nat, time: nat, date: nat, crc: nat, cpsize: nat, uncpsize: nat,
    name: seq<Byte>, extra: seq<Byte>, comment: seq<Byte>, internal: nat, external: nat, offset: nat)

  datatype Found = Found(c: Central, rest: seq<Byte>) | NotFound

  // A record at the start of w for an entry on the only disk, and what follows it.
  function ReadCentral(w: seq<Byte>): (f: Found)
    ensures f.Found? ==> |f.rest| < |w|
  {
    if |w| < 46 || Read32(w, 0) != CENTRAL_SIGNATURE || Read16(w, 34) != 0 then NotFound
    else
      var n := 46 + Read16(w, 28);
      var m := n + Read16(w, 30);
      var k := m + Read16(w, 32);
      if |w| < k then NotFound
      else
        Found(Central(Read16(w, 4), Read16(w, 6), Read16(w, 8), Read16(w, 10), Read16(w, 12), Read16(w, 14), Read32(w, 16), Read32(w, 20),
                      Read32(w, 24), w[46..n], w[n..m], w[m..k], Read16(w, 36), Read32(w, 38), Read32(w, 42)), w[k..])
  }

  // All the records of a directory; None when something else stands between them.
  function ReadDirectory(w: seq<Byte>): (r: Option<seq<Central>>)
    decreases |w|
  {
    if w == [] then Some([])
    else
      var f := ReadCentral(w);
      if f.NotFound? then None
      else
        var more := ReadDirectory(f.rest);
        if more.None? then None else Some([f.c] + more.value)
  }

  // The end record of an archive on one disk: number of entries, size and place of the
  // directory.
  datatype End = End(count: nat, total: nat, size: nat, offset: nat)

  function ReadEnd(out: seq<Byte>): Option<End> {
    if |out| < 22 then None
    else
      var w := out[|out| - 22..];
      if Read32(w, 0) != END_SIGNATURE || Read16(w, 4) != 0 || Read16(w, 6) != 0 || Read16(w, 20) != 0 then None
      else Some(End(Read16(w, 8), Read16(w, 10), Read32(w, 12), Read32(w, 16)))
  }

  // What the record of a local entry should say.
  function CentralOf(l: Local, offset: nat): Central
    requires IsLocal(l)
  {
    var h := l.header;
    Central(Read16(h, 4), Read16(h, 4), Read16(h, 6), Read16(h, 8), Read16(h, 10), Read16(h, 12), Read32(h, 14), Read32(h, 18), Read32(h, 22),
            l.name, l.extra, [], 0, 0, offset)
  }

  // A local header at the start of w says the same as a directory record.
  ghost predicate Agrees(c: Central, w: seq<Byte>) {
    && AtLocal(w) && ExtraEnd(w) <= |w|
    && Read16(w, 4) == c.madeBy == c.needed && Read16(w, 6) == c.flags && Read16(w, 8) == c.compression && Read16(w, 10) == c.time && Read16(w, 12) == c.date
    && Read32(w, 14) == c.crc && Read32(w, 18) == c.cpsize && Read32(w, 22) == c.uncpsize
    && w[30..NameEnd(w)] == c.name && w[NameEnd(w)..ExtraEnd(w)] == c.extra
  }

  lemma At16(s: seq<Byte>, i: nat, n: nat)
    requires i + 2 <= |s| && s[i..i + 2] == Bytes16(n) && n < 0x1_0000
    ensures Read16(s, i) == n
  {
    ReadBack16(n);
    assert Read16(s, i) == Read16(s[i..i + 2], 0);
  }

  lemma At32(s: seq<Byte>, i: nat, n: nat)
    requires i + 4 <= |s| && s[i..i + 4] == Bytes32(n) && n < 0x1_0000_0000
    ensures Read32(s, i) == n
  {
    ReadBack32(n);
    var t := s[i..i + 4];
    assert Read16(s, i) == Read16(t, 0) && Read16(s, i + 2) == Read16(t, 2);
  }

  // The fields of the fixed part of a record.
  lemma HeaderRead(h: seq<Byte>, offset: nat, more: seq<Byte>)
    requires |h| == 30 && offset < 0x1_0000_0000
    ensures var s := RecordHeader(h, offset) + more;
            && Read32(s, 0) == CENTRAL_SIGNATURE && Read16(s, 4) == Read16(s, 6) == Read16(h, 4) && Read16(s, 8) == Read16(h, 6) && Read16(s, 10) == Read16(h, 8)
            && Read16(s, 12) == Read16(h, 10) && Read16(s, 14) == Read16(h, 12) && Read32(s, 16) == Read32(h, 14)
            && Read32(s, 20) == Read32(h, 18) && Read32(s, 24) == Read32(h, 22) && Read16(s, 28) == Read16(h, 26)
            && Read16(s, 30) == Read16(h, 28) && Read16(s, 32) == 0 && Read16(s, 34) == 0 && Read16(s, 36) == 0
            && Read32(s, 38) == 0 && Read32(s, 42) == offset
  {
    hide Read16, Read32, Bytes16, Bytes32;
    var s := RecordHeader(h, offset) + more;
    At32(s, 0, CENTRAL_SIGNATURE);
    At16(s, 4, Read16(h, 4));
    At16(s, 6, Read16(h, 4));
    At16(s, 8, Read16(h, 6));
    At16(s, 10, Read16(h, 8));
    At16(s, 12, Read16(h, 10));
    At16(s, 14, Read16(h, 12));
    At32(s, 16, Read32(h, 14));
    At32(s, 20, Read32(h, 18));
    At32(s, 24, Read32(h, 22));
    At16(s, 28, Read16(h, 26));
    At16(s, 30, Read16(h, 28));
    At16(s, 32, 0);
    At16(s, 34, 0);
    At16(s, 36, 0);
    At32(s, 38, 0);
    At32(s, 42, offset);
  }

  lemma RecordRead(l: Local, offset: nat, rest: seq<Byte>)
    requires IsLocal(l) && offset < 0x1_0000_0000
    ensures ReadCentral(Record(l, offset) + rest) == Found(CentralOf(l, offset), rest)
  {
    hide RecordHeader, Read16, Read32;
    var w := Record(l, offset) + rest;
    assert w == RecordHeader(l.header, offset) + (l.name + l.extra + rest);
    HeaderRead(l.header, offset, l.name + l.extra + rest);
    var n := 46 + |l.name|;
    assert w[46..n] == l.name && w[n..n + |l.extra|] == l.extra && w[n + |l.extra|..] == rest;
  }

  function Centrals(list: seq<Local>, offset: nat): (cs: seq<Central>)
    requires AllLocal(list)
    ensures |cs| == |list|
  {
    if list == [] then [] else assert list[0] in list; [CentralOf(list[0], offset)] + Centrals(list[1..], offset + |Bytes(list[0])|)
  }

  lemma {:induction false} DirectoryRead(list: seq<Local>, offset: nat)
    requires AllLocal(list) && offset + |Flat(list)| < 0x1_0000_0000
    ensures ReadDirectory(Directory(list, offset)) == Some(Centrals(list, offset))
    decreases |list|
  {
    hide ReadCentral, CentralOf, Record, Bytes, IsLocal;
    if list != [] {
      assert list[0] in list;
      RecordRead(list[0], offset, Directory(list[1..], offset + |Bytes(list[0])|));
      RecordLonger(list[0], offset);
      DirectoryRead(list[1..], offset + |Bytes(list[0])|);
    }
  }

  lemma RecordLonger(l: Local, offset: nat)
    requires IsLocal(l)
    ensures |Record(l, offset)| >= 46
  {
  }

  // Record i tells the place of entry i.
  lemma {:induction false} CentralAt(list: seq<Local>, offset: nat, i: nat)
    requires AllLocal(list) && i < |list|
    ensures list[i] in list && Centrals(list, offset)[i] == CentralOf(list[i], offset + |Flat(list[..i])|)
    decreases i
  {
    hide CentralOf, Bytes, IsLocal;
    if i > 0 {
      CentralAt(list[1..], offset + |Bytes(list[0])|, i - 1);
      assert list[1..][..i - 1] == list[..i][1..];
    }
  }

  lemma FlatAt(list: seq<Local>, i: nat)
    requires i < |list|
    ensures var o := |Flat(list[..i])|;
            o + |Bytes(list[i])| <= |Flat(list)| && Flat(list)[o..o + |Bytes(list[i])|] == Bytes(list[i])
  {
    hide Bytes;
    FlatConcat(list[..i], list[i..]);
    assert list[..i] + list[i..] == list;
    assert Flat(list[i..]) == Bytes(list[i]) + Flat(list[i + 1..]) by {
      assert list[i..][1..] == list[i + 1..];
    }
  }

  lemma SamePrefix(w: seq<Byte>, h: seq<Byte>, i: nat)
    requires |h| <= |w| && w[..|h|] == h
    ensures i + 2 <= |h| ==> Read16(w, i) == Read16(h, i)
    ensures i + 4 <= |h| ==> Read32(w, i) == Read32(h, i)
  {
    assert forall k :: 0 <= k < |h| ==> w[k] == h[k];
  }

  lemma EntryAgrees(l: Local, offset: nat, rest: seq<Byte>)
    requires IsLocal(l)
    ensures Agrees(CentralOf(l, offset), Bytes(l) + rest)
  {
    hide Read16, Read32;
    var w := Bytes(l) + rest;
    var h := l.header;
    assert w[..30] == h;
    forall i: nat
      ensures i + 2 <= 30 ==> Read16(w, i) == Read16(h, i)
      ensures i + 4 <= 30 ==> Read32(w, i) == Read32(h, i)
    {
      SamePrefix(w, h, i);
    }
    Middle(h, l.name, l.extra + l.data + rest);
    Middle(h + l.name, l.extra, l.data + rest);
    assert w == h + l.name + (l.extra + l.data + rest) == h + l.name + l.extra + (l.data + rest);
  }

  lemma Middle(a: seq<Byte>, b: seq<Byte>, c: seq<Byte>)
    ensures (a + b + c)[|a|..|a| + |b|] == b
  {
  }

  lemma EndRead(out: seq<Byte>, before: seq<Byte>, entries: nat, size: nat, offset: nat)
    requires out == before + EndRecord(entries, size, offset) && size < 0x1_0000_0000 && offset < 0x1_0000_0000
    ensures var n := if entries > 0xFFFF then 0xFFFF else entries;
            ReadEnd(out) == Some(End(n, n, size, offset))
  {
    hide Read16, Read32, Bytes16, Bytes32;
    var w := out[|out| - 22..];
    assert w == EndRecord(entries, size, offset);
    var n := if entries > 0xFFFF then 0xFFFF else entries;
    At32(w, 0, END_SIGNATURE);
    At16(w, 4, 0);
    At16(w, 6, 0);
    At16(w, 8, n);
    At16(w, 10, n);
    At32(w, 12, size);
    At32(w, 16, offset);
    At16(w, 20, 0);
  }

  // Sizes that fit the int variables of the program.
  ghost predicate Totals(file: seq<Byte>) {
    var list := Split(file).list;
    SplitAllLocal(file);
    |Flat(list)| < 0x8000_0000 && |Directory(list, 0)| < 0x8000_0000
  }

  /** A repaired archive is the start of the damaged file, a directory and an end
      record.  The end record locates the directory; read from there, its i-th record
      points at the i-th local header, which has the same fields, name and extra field. */
  lemma RepairedReads(file: seq<Byte>, out: seq<Byte>)
    requires Repaired(file, out) && Totals(file)
    ensures var list := Split(file).list;
            && ReadEnd(out).Some?
            && var e := ReadEnd(out).value;
            && e.count == e.total == (if |list| > 0xFFFF then 0xFFFF else |list|)
            && e.offset + e.size + 22 == |out|
            && e.offset <= |file| && out[..e.offset] == file[..e.offset]
            && ReadDirectory(out[e.offset..e.offset + e.size]).Some?
            && var cs := ReadDirectory(out[e.offset..e.offset + e.size]).value;
            && |cs| == |list|
            && forall i: nat :: i < |cs| ==> Pointing(cs[i], out, |Flat(list[..i])|)
  {
    hide EndRecord, IsLocal, Directory, ReadDirectory, Centrals, Flat, Pointing, Split, ReadEnd;
    var list := Split(file).list;
    SplitAllLocal(file);
    var flat, dir := Flat(list), Directory(list, 0);
    EndRead(out, flat + dir, |list|, |dir|, |flat|);
    FlatIsPrefix(file);
    assert out[..|flat|] == flat && out[|flat|..|flat| + |dir|] == dir;
    DirectoryRead(list, 0);
    AllPointing(list, out);
  }

  lemma AllPointing(list: seq<Local>, out: seq<Byte>)
    requires AllLocal(list) && |Flat(list)| <= |out| && out[..|Flat(list)|] == Flat(list)
    ensures forall i: nat :: i < |list| ==> Pointing(Centrals(list, 0)[i], out, |Flat(list[..i])|)
  {
    hide Pointing, Centrals, Flat, Bytes, CentralOf, IsLocal;
    var flat := Flat(list);
    forall i: nat | i < |list|
      ensures Pointing(Centrals(list, 0)[i], out, |Flat(list[..i])|)
    {
      CentralAt(list, 0, i);
      FlatAt(list, i);
      var o := |Flat(list[..i])|;
      var n := |Bytes(list[i])|;
      assert out[o..o + n] == flat[o..o + n];
      assert out[o..] == Bytes(list[i]) + out[o + n..];
      PointsAt(list[i], o, out);
    }
  }

  // A record holds this place, and there stands the local header it describes.
  ghost predicate Pointing(c: Central, out: seq<Byte>, place: nat) {
    c.offset == place <= |out| && Agrees(c, out[place..])
  }

  lemma PointsAt(l: Local, place: nat, out: seq<Byte>)
    requires IsLocal(l) && place + |Bytes(l)| <= |out| && out[place..] == Bytes(l) + out[place + |Bytes(l)|..]
    ensures Pointing(CentralOf(l, place), out, place)
  {
    EntryAgrees(l, place, out[place + |Bytes(l)|..]);
  }

  lemma {:induction false} FlatIsPrefix(w: seq<Byte>)
    ensures var n := |Flat(Split(w).list)|;
            n <= |w| && Flat(Split(w).list) == w[..n]
    decreases |w|
  {
    hide Bytes, First, LocalEnd;
    if AtLocal(w) && Complete(w) {
      LocalEndPositive(w);
      var rest := w[LocalEnd(w)..];
      FlatIsPrefix(rest);
      var n := |Flat(Split(rest).list)|;
      assert Split(w).list[1..] == Split(rest).list;
      assert w[..LocalEnd(w)] + rest[..n] == w[..LocalEnd(w) + n];
    }
  }
}
