/** unzRepair: a zip archive whose central directory is rebuilt from the local file
    headers found at its start. */
module Repair {
  import opened Wire

  // --- little-endian numbers (READ_16, READ_32, WRITE_16, WRITE_32) ---------------------------------

  function Read16(s: seq<Byte>, i: nat): (n: nat)
    requires i + 2 <= |s|
    ensures n < 0x1_0000
  {
    s[i] as int + 0x100 * s[i + 1] as int
  }

  function Read32(s: seq<Byte>, i: nat): (n: nat)
    requires i + 4 <= |s|
    ensures n < 0x1_0000_0000
  {
    Read16(s, i) + 0x1_0000 * Read16(s, i + 2)
  }

  function Bytes16(n: nat): (s: seq<Byte>)
    ensures |s| == 2
  {
    [n % 0x100, n / 0x100 % 0x100]
  }

  function Bytes32(n: nat): (s: seq<Byte>)
    ensures |s| == 4
  {
    Bytes16(n % 0x1_0000) + Bytes16(n / 0x1_0000)
  }

  lemma ReadBack16(n: nat)
    ensures Read16(Bytes16(n), 0) == n % 0x1_0000
  {
    LowSixteen(n);
  }

  lemma ReadBack32(n: nat)
    requires n < 0x1_0000_0000
    ensures Read32(Bytes32(n), 0) == n
  {
    ReadBack16(n % 0x1_0000);
    ReadBack16(n / 0x1_0000);
    var s := Bytes32(n);
    assert s[..2] == Bytes16(n % 0x1_0000) && s[2..] == Bytes16(n / 0x1_0000);
    assert Read16(s, 0) == Read16(s[..2], 0) && Read16(s, 2) == Read16(s[2..], 0);
  }

  // --- local entries ----------------------------------------------------------------------------------

  const LOCAL_SIGNATURE: nat := 0x0403_4b50
  const CENTRAL_SIGNATURE: nat := 0x0201_4b50
  const END_SIGNATURE: nat := 0x0605_4b50

  // A local file header (30 bytes) with its name, extra field and data.
  datatype Local = Local(header: seq<Byte>, name: seq<Byte>, extra: seq<Byte>, data: seq<Byte>)

  function Bytes(l: Local): seq<Byte> {
    l.header + l.name + l.extra + l.data
  }

  // (int) of an unsigned 32 bit number
  function Int32(n: nat): int
    requires n < 0x1_0000_0000
  {
    if n < 0x8000_0000 then n else n - 0x1_0000_0000
  }

  // The compressed size, or the uncompressed one if that is zero.
  function DataSize(header: seq<Byte>): nat
    requires |header| == 30
  {
    var c := Int32(Read32(header, 18));
    var d := if c == 0 then Int32(Read32(header, 22)) else c;
    if d > 0 then d else 0
  }

  // The entries at the start of a file; ok: they end where no entry starts, not in
  // the middle of one and not at one without a name.
  datatype Entries = Entries(list: seq<Local>, ok: bool)

  predicate AtLocal(w: seq<Byte>) {
    |w| >= 30 && Read32(w, 0) == LOCAL_SIGNATURE
  }

  function NameEnd(w: seq<Byte>): nat
    requires AtLocal(w)
  {
    30 + Read16(w, 26)
  }

  function ExtraEnd(w: seq<Byte>): nat
    requires AtLocal(w)
  {
    NameEnd(w) + Read16(w, 28)
  }

  function LocalEnd(w: seq<Byte>): nat
    requires AtLocal(w)
  {
    ExtraEnd(w) + DataSize(w[..30])
  }

  predicate Complete(w: seq<Byte>)
    requires AtLocal(w)
  {
    Read16(w, 26) > 0 && LocalEnd(w) <= |w|
  }

  function First(w: seq<Byte>): (l: Local)
    requires AtLocal(w) && Complete(w)
    ensures Bytes(l) == w[..LocalEnd(w)]
  {
    Local(w[..30], w[30..NameEnd(w)], w[NameEnd(w)..ExtraEnd(w)], w[ExtraEnd(w)..LocalEnd(w)])
  }

  function Split(w: seq<Byte>): (e: Entries)
    decreases |w|
  {
    if !AtLocal(w) then Entries([], true)
    else if !Complete(w) then Entries([], false)
    else
      var more := Split(w[LocalEnd(w)..]);
      Entries([First(w)] + more.list, more.ok)
  }

  function Flat(list: seq<Local>): seq<Byte> {
    if list == [] then [] else Bytes(list[0]) + Flat(list[1..])
  }

  function DataTotal(list: seq<Local>): nat {
    if list == [] then 0 else |list[0].data| + DataTotal(list[1..])
  }

  // --- the central directory ---------------------------------------------------------------------------

  // The fixed part of a directory record.
  function RecordHeader(h: seq<Byte>, offset: nat): (s: seq<Byte>)
    requires |h| == 30
    ensures |s| == 46
  {
    Bytes32(CENTRAL_SIGNATURE) + Bytes16(Read16(h, 4)) + Bytes16(Read16(h, 4)) + Bytes16(Read16(h, 6))
    + Bytes16(Read16(h, 8)) + Bytes16(Read16(h, 10)) + Bytes16(Read16(h, 12)) + Bytes32(Read32(h, 14))
    + Bytes32(Read32(h, 18)) + Bytes32(Read32(h, 22)) + Bytes16(Read16(h, 26)) + Bytes16(Read16(h, 28))
    + Bytes16(0) + Bytes16(0) + Bytes16(0) + Bytes32(0) + Bytes32(offset)
  }

  function Record(l: Local, offset: nat): seq<Byte>
    requires |l.header| == 30
  {
    RecordHeader(l.header, offset) + l.name + l.extra
  }

  ghost predicate AllLocal(list: seq<Local>) {
    forall l :: l in list ==> IsLocal(l)
  }

  ghost predicate IsLocal(l: Local) {
    |l.header| == 30 && Read16(l.header, 26) == |l.name| && Read16(l.header, 28) == |l.extra| && Read32(l.header, 0) == LOCAL_SIGNATURE
  }

  function Directory(list: seq<Local>, offset: nat): seq<Byte>
    requires AllLocal(list)
  {
    if list == [] then [] else assert list[0] in list; Record(list[0], offset) + Directory(list[1..], offset + |Bytes(list[0])|)
  }

  function EndRecord(entries: nat, size: nat, offset: nat): (s: seq<Byte>)
    ensures |s| == 22
  {
    var n := if entries > 0xFFFF then 0xFFFF else entries;
    Bytes32(END_SIGNATURE) + Bytes16(0) + Bytes16(0) + Bytes16(n) + Bytes16(n) + Bytes32(size) + Bytes32(offset) + Bytes16(0)
  }

  lemma FirstIsLocal(w: seq<Byte>)
    requires AtLocal(w) && Complete(w)
    ensures IsLocal(First(w))
  {
    var h := w[..30];
    assert Read16(h, 26) == Read16(w, 26) && Read16(h, 28) == Read16(w, 28) && Read32(h, 0) == Read32(w, 0);
  }

  lemma {:induction false} SplitAllLocal(w: seq<Byte>)
    ensures AllLocal(Split(w).list)
    decreases |w|
  {
    hide IsLocal, First, LocalEnd;
    if AtLocal(w) && Complete(w) {
      FirstIsLocal(w);
      LocalEndPositive(w);
      SplitAllLocal(w[LocalEnd(w)..]);
    }
  }

  lemma LocalEndPositive(w: seq<Byte>)
    requires AtLocal(w) && Complete(w)
    ensures 0 < LocalEnd(w) <= |w|
  {
  }

  lemma {:induction false} FlatConcat(a: seq<Local>, b: seq<Local>)
    ensures Flat(a + b) == Flat(a) + Flat(b) && DataTotal(a + b) == DataTotal(a) + DataTotal(b)
  {
    hide Bytes;
    if a == [] {
      assert a + b == b;
    } else {
      assert (a + b)[1..] == a[1..] + b;
      FlatConcat(a[1..], b);
    }
  }

  lemma {:induction false} DirectoryConcat(a: seq<Local>, b: seq<Local>, offset: nat)
    requires AllLocal(a) && AllLocal(b)
    ensures AllLocal(a + b)
    ensures Directory(a + b, offset) == Directory(a, offset) + Directory(b, offset + |Flat(a)|)
    decreases |a|
  {
    hide Bytes, Record, IsLocal;
    if a == [] {
      assert a + b == b;
    } else {
      assert a[0] in a && (a + b)[1..] == a[1..] + b;
      DirectoryConcat(a[1..], b, offset + |Bytes(a[0])|);
    }
  }

  // --- the repair ----------------------------------------------------------------------------------------

  const MAX_NAME: nat := 256    // sizeof(filename)
  const MAX_EXTRA: nat := 1024  // sizeof(extra)

  // Names and extra fields fit the buffers they are read into.
  ghost predicate SmallNames(w: seq<Byte>)
    decreases |w|
  {
    AtLocal(w) ==> Read16(w, 26) <= MAX_NAME && Read16(w, 28) <= MAX_EXTRA
                   && (Complete(w) ==> SmallNames(w[LocalEnd(w)..]))
  }

  datatype Status = Z_OK | Z_ERRNO | Z_STREAM_ERROR

  // WRITE_16 right behind the bytes written before
  method Write16(a: array<Byte>, at: nat, n: nat)
    requires at + 2 <= a.Length
    modifies a
    ensures a[..at + 2] == old(a[..at]) + Bytes16(n)
  {
    a[at] := n % 0x100;
    a[at + 1] := n / 0x100 % 0x100;
    assert a[..at + 2] == old(a[..at]) + Bytes16(n);
  }

  // WRITE_32
  method Write32(a: array<Byte>, at: nat, n: nat)
    requires at + 4 <= a.Length
    modifies a
    ensures a[..at + 4] == old(a[..at]) + Bytes32(n)
  {
    Write16(a, at, n % 0x1_0000);
    Write16(a, at + 2, n / 0x1_0000);
    assert a[..at + 4] == old(a[..at]) + (Bytes16(n % 0x1_0000) + Bytes16(n / 0x1_0000));
  }

  // The fixed part of the directory record of the entry whose header is h.
  method PutRecord(h: seq<Byte>, offset: nat) returns (header: array<Byte>)
    requires |h| == 30
    ensures fresh(header) && header[..] == RecordHeader(h, offset)
  {
    hide Bytes16, Bytes32, Read16, Read32;
    var version, gpflag, compression, filetime, filedate := Read16(h, 4), Read16(h, 6), Read16(h, 8), Read16(h, 10), Read16(h, 12);
    var crc, cpsize, uncpsize, fnsize, extsize := Read32(h, 14), Read32(h, 18), Read32(h, 22), Read16(h, 26), Read16(h, 28);
    header := new Byte[46](_ => 0);
    Write32(header, 0, CENTRAL_SIGNATURE);
    assert header[..4] == Bytes32(CENTRAL_SIGNATURE);
    Write16(header, 4, version);
    Write16(header, 6, version);
    Write16(header, 8, gpflag);
    Write16(header, 10, compression);
    Write16(header, 12, filetime);
    Write16(header, 14, filedate);
    Write32(header, 16, crc);
    Write32(header, 20, cpsize);
    Write32(header, 24, uncpsize);
    Write16(header, 28, fnsize);
    Write16(header, 30, extsize);
    Write16(header, 32, 0);
    Write16(header, 34, 0);
    Write16(header, 36, 0);
    Write32(header, 38, 0);
    Write32(header, 42, offset);
    assert header[..] == header[..46];
  }

  method PutEnd(entries: nat, size: nat, offset: nat) returns (header: array<Byte>)
    ensures fresh(header) && header[..] == EndRecord(entries, size, offset)
  {
    hide Bytes16, Bytes32;
    var n := if entries > 0xFFFF then 0xFFFF else entries;
    header := new Byte[22](_ => 0);
    Write32(header, 0, END_SIGNATURE);
    assert header[..4] == Bytes32(END_SIGNATURE);
    Write16(header, 4, 0);
    Write16(header, 6, 0);
    Write16(header, 8, n);
    Write16(header, 10, n);
    Write32(header, 12, size);
    Write32(header, 16, offset);
    Write16(header, 20, 0);
    assert header[..] == header[..22];
  }

  // fread: up to n bytes of the file from pos on, into the front of a buffer
  method FRead(file: seq<Byte>, pos: nat, a: array<Byte>, n: nat) returns (k: nat)
    requires pos <= |file| && n <= a.Length
    modifies a
    ensures k == if |file| - pos < n then |file| - pos else n
    ensures a[..k] == file[pos..pos + k]
  {
    k := if |file| - pos < n then |file| - pos else n;
    forall i | 0 <= i < k {
      a[i] := file[pos + i];
    }
  }

  // The name, extra field and data behind a local header, copied to the output.
  method CopyEntry(file: seq<Byte>, at: nat, header: seq<Byte>, out0: seq<Byte>)
    returns (err: Status, out: seq<Byte>, name: seq<Byte>, extra: seq<Byte>, size: nat)
    requires at <= |file| && AtLocal(file[at..]) && header == file[at..][..30]
    requires Read16(header, 26) <= MAX_NAME && Read16(header, 28) <= MAX_EXTRA
    ensures err == Z_OK <==> Complete(file[at..])
    ensures err == Z_OK ==> var l := First(file[at..]);
                            name == l.name && extra == l.extra && size == |l.data| && out == out0 + Bytes(l)
  {
    hide Read32, Read16, DataSize, First, Bytes, NameEnd, ExtraEnd, LocalEnd, Complete;
    EntryEnds(file, at);
    var fnsize, extsize, pos := Read16(header, 26), Read16(header, 28), at + 30;
    out, name, extra, size := out0 + header, [], [], 0;
    if fnsize == 0 {
      return Z_STREAM_ERROR, out, name, extra, size;
    }
    var ok;
    ok, name := ReadField(file, pos, fnsize, MAX_NAME);
    if !ok {
      return Z_ERRNO, out, name, extra, size;
    }
    out := out + name;
    pos := pos + fnsize;
    if extsize > 0 {
      ok, extra := ReadField(file, pos, extsize, MAX_EXTRA);
      if !ok {
        return Z_ERRNO, out, name, extra, size;
      }
      out := out + extra;
      pos := pos + extsize;
    }
    var dataSize := DataSize(header);
    var data: seq<Byte> := [];
    if dataSize > 0 {
      ok, data := ReadField(file, pos, dataSize, dataSize);
      if !ok {
        return Z_ERRNO, out, name, extra, size;
      }
      out := out + data;
      size := dataSize;
    }
    err := Z_OK;
    assert out == out0 + header + name + extra + data;
    FirstIs(file, at, name, extra, data);
    AppendBytes(out0, header, name, extra, data);
  }

  lemma FirstIs(file: seq<Byte>, at: nat, name: seq<Byte>, extra: seq<Byte>, data: seq<Byte>)
    requires at <= |file| && AtLocal(file[at..]) && Complete(file[at..])
    requires var h := file[at..][..30];
             var e := at + 30 + Read16(h, 26);
             && name == file[at + 30..e] && extra == file[e..e + Read16(h, 28)]
             && data == file[e + Read16(h, 28)..e + Read16(h, 28) + DataSize(h)]
    ensures First(file[at..]) == Local(file[at..][..30], name, extra, data)
  {
    hide Read16, Read32, DataSize;
    HeaderSame(file[at..]);
  }

  lemma AppendBytes(out0: seq<Byte>, header: seq<Byte>, name: seq<Byte>, extra: seq<Byte>, data: seq<Byte>)
    ensures out0 + header + name + extra + data == out0 + Bytes(Local(header, name, extra, data))
  {
  }

  // A field of n bytes read into a buffer of its own.
  method ReadField(file: seq<Byte>, pos: nat, n: nat, max: nat) returns (ok: bool, s: seq<Byte>)
    requires pos <= |file| && n <= max
    ensures ok <==> pos + n <= |file|
    ensures ok ==> s == file[pos..pos + n]
  {
    var buffer := new Byte[max](_ => 0);
    var k := FRead(file, pos, buffer, n);
    ok, s := k == n, buffer[..k];
  }

  // Where the parts of an entry end in the file, and whether they are there.
  lemma EntryEnds(file: seq<Byte>, at: nat)
    requires at <= |file| && AtLocal(file[at..])
    ensures var h := file[at..][..30];
            && at + 30 <= |file|
            && (Complete(file[at..]) <==> Read16(h, 26) > 0 && at + 30 + Read16(h, 26) + Read16(h, 28) + DataSize(h) <= |file|)
  {
    hide Read16, Read32, DataSize;
    HeaderSame(file[at..]);
  }

  lemma HeaderSame(w: seq<Byte>)
    requires AtLocal(w)
    ensures Read16(w[..30], 26) == Read16(w, 26) && Read16(w[..30], 28) == Read16(w, 28)
  {
  }

  // The state of the loop: done has been copied, the rest of the file is still there.
  ghost predicate Going(file: seq<Byte>, done: seq<Local>, pos: nat, out: seq<Byte>, cd: seq<Byte>, total: nat) {
    && pos <= |file| && out == file[..pos] == Flat(done) && AllLocal(done) && SmallNames(file[pos..])
    && cd == Directory(done, 0) && total == DataTotal(done)
    && Split(file) == Entries(done + Split(file[pos..]).list, Split(file[pos..]).ok)
  }

  lemma GoingStart(file: seq<Byte>)
    requires SmallNames(file)
    ensures Going(file, [], 0, [], [], 0)
  {
    assert file[0..] == file && file[..0] == [];
  }

  // One more entry is read off the file at pos.
  lemma SplitStep(file: seq<Byte>, done: seq<Local>, pos: nat)
    requires pos <= |file| && AtLocal(file[pos..]) && Complete(file[pos..]) && SmallNames(file[pos..])
    requires Split(file) == Entries(done + Split(file[pos..]).list, Split(file[pos..]).ok)
    ensures var l, pos' := First(file[pos..]), pos + |Bytes(First(file[pos..]))|;
            pos' <= |file| && file[..pos'] == file[..pos] + Bytes(l) && SmallNames(file[pos'..])
            && Split(file) == Entries(done + [l] + Split(file[pos'..]).list, Split(file[pos'..]).ok)
  {
    var w := file[pos..];
    var l := First(w);
    LocalEndPositive(w);
    assert file[..pos] + w[..LocalEnd(w)] == file[..pos + LocalEnd(w)];
    assert w[LocalEnd(w)..] == file[pos + LocalEnd(w)..];
    var rest := Split(file[pos + LocalEnd(w)..]).list;
    hide First, Bytes, LocalEnd, AtLocal, Complete;
    assert done + ([l] + rest) == (done + [l]) + rest;
  }

  lemma GoingStep(file: seq<Byte>, done: seq<Local>, pos: nat, out: seq<Byte>, cd: seq<Byte>, total: nat)
    requires Going(file, done, pos, out, cd, total) && AtLocal(file[pos..]) && Complete(file[pos..])
    ensures var l := First(file[pos..]);
            Going(file, done + [l], pos + |Bytes(l)|, out + Bytes(l), cd + Record(l, |out|), total + |l.data|)
  {
    hide First, Bytes, LocalEnd, Record, IsLocal, Split, SmallNames, Flat, Directory, DataTotal, AtLocal, Complete;
    var l := First(file[pos..]);
    FirstIsLocal(file[pos..]);
    SplitStep(file, done, pos);
    FlatConcat(done, [l]);
    DirectoryConcat(done, [l], 0);
    OneLocal(l, |out|);
  }

  lemma OneLocal(l: Local, offset: nat)
    requires IsLocal(l)
    ensures AllLocal([l]) && Flat([l]) == Bytes(l) && Directory([l], offset) == Record(l, offset) && DataTotal([l]) == |l.data|
  {
    hide Bytes, Record;
    assert [l][1..] == [];
  }

  lemma GoingEnd(file: seq<Byte>, done: seq<Local>, pos: nat, out: seq<Byte>, cd: seq<Byte>, total: nat)
    requires Going(file, done, pos, out, cd, total) && !(AtLocal(file[pos..]) && Complete(file[pos..]))
    ensures Split(file) == Entries(done, !AtLocal(file[pos..]))
  {
    assert done + [] == done;
  }

  ghost predicate Repaired(file: seq<Byte>, out: seq<Byte>) {
    var list := Split(file).list;
    SplitAllLocal(file);
    out == Flat(list) + Directory(list, 0) + EndRecord(|list|, |Directory(list, 0)|, |Flat(list)|)
  }

  /** unzRepair: succeeds exactly when the leading entries end cleanly, and then writes
      them, their directory and an end record. */
  method UnzRepair(file: seq<Byte>) returns (err: Status, out: seq<Byte>, nRecovered: nat, bytesRecovered: nat)
    requires SmallNames(file)
    ensures err == Z_OK <==> Split(file).ok
    ensures err == Z_OK ==> Repaired(file, out) && nRecovered == |Split(file).list| && bytesRecovered == DataTotal(Split(file).list)
  {
    hide Going, Split, Flat, Directory, SmallNames, Complete, First, Bytes, Read32, Read16, DataTotal, RecordHeader, EndRecord, LocalEnd;
    err, out, bytesRecovered := Z_OK, [], 0;
    var entries, offset, offsetCD, cd: seq<Byte> := 0, 0, 0, [];
    ghost var done: seq<Local> := [];
    var buffer := new Byte[30](_ => 0);
    GoingStart(file);
    while true
      invariant Going(file, done, offset, out, cd, bytesRecovered) && entries == |done| && offset == |out| && offsetCD == |cd|
      invariant offset <= |file| && err == Z_OK
      decreases |file| - offset
    {
      ghost var w := file[offset..];
      var k := FRead(file, offset, buffer, 30);
      if k != 30 {
        break;
      }
      var header := buffer[..];
      assert header == buffer[..30] == w[..30];
      SameSignature(w);
      if Read32(header, 0) != LOCAL_SIGNATURE {
        break;
      }
      Small(file, done, offset, out, cd, bytesRecovered);
      var name, extra, size, out1;
      err, out1, name, extra, size := CopyEntry(file, offset, header, out);
      if err != Z_OK {
        break;
      }
      ghost var l := First(w);
      FirstSizes(w);
      GoingStep(file, done, offset, out, cd, bytesRecovered);
      var record := PutRecord(header, offset);
      assert cd + record[..] + name + extra == cd + Record(l, |out|);
      cd := cd + record[..] + name + extra;
      offsetCD := offsetCD + 46 + |name| + |extra|;
      offset := offset + |out1| - |out|;
      out := out1;
      bytesRecovered := bytesRecovered + size;
      entries := entries + 1;
      done := done + [l];
      GoingAhead(file, done, offset, out, cd, bytesRecovered);
    }
    GoingEnd(file, done, offset, out, cd, bytesRecovered);
    nRecovered := entries;
    var end := PutEnd(entries, offsetCD, offset);
    cd := cd + end[..];
    if err == Z_OK {
      GoingWhole(file, done, offset, out, cd[..offsetCD], bytesRecovered);
      out := out + cd;
    }
  }

  lemma SameSignature(w: seq<Byte>)
    requires |w| >= 30
    ensures Read32(w[..30], 0) == Read32(w, 0) && (AtLocal(w) <==> Read32(w, 0) == LOCAL_SIGNATURE)
  {
  }

  lemma Small(file: seq<Byte>, done: seq<Local>, pos: nat, out: seq<Byte>, cd: seq<Byte>, total: nat)
    requires Going(file, done, pos, out, cd, total) && pos <= |file| && AtLocal(file[pos..])
    ensures Read16(file[pos..][..30], 26) <= MAX_NAME && Read16(file[pos..][..30], 28) <= MAX_EXTRA
  {
    HeaderSame(file[pos..]);
  }

  lemma FirstSizes(w: seq<Byte>)
    requires AtLocal(w) && Complete(w)
    ensures |Bytes(First(w))| == LocalEnd(w) > 0 && First(w).header == w[..30]
  {
  }

  lemma GoingAhead(file: seq<Byte>, done: seq<Local>, pos: nat, out: seq<Byte>, cd: seq<Byte>, total: nat)
    requires Going(file, done, pos, out, cd, total)
    ensures pos <= |file| && |out| == pos
  {
  }

  lemma GoingWhole(file: seq<Byte>, done: seq<Local>, pos: nat, out: seq<Byte>, cd: seq<Byte>, total: nat)
    requires Going(file, done, pos, out, cd, total)
    ensures AllLocal(done) && out == Flat(done) && cd == Directory(done, 0) && total == DataTotal(done)
  {
  }
}
