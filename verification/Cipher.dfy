/** The traditional PKWARE cipher of zip archives, for either width of unsigned long. */
module Cipher {

  type Word = bv64
  const LOW: Word := 0xFFFF_FFFF

  // The 256 entries of the CRC table, each of 32 bits.
  type Table = t: seq<Word> | |t| == 256 && forall i :: 0 <= i < 256 ==> t[i] <= LOW witness seq(256, i => 0)

  // What unsigned long holds: 32 or 64 bits.
  type Width = w: nat | w == 0x1_0000_0000 || w == 0x1_0000_0000_0000_0000 witness 0x1_0000_0000

  // The three keys.  The second is kept as a number below the width.
  datatype Keys = Keys(k0: Word, k1: nat, k2: Word)

  ghost predicate Valid(k: Keys, width: Width) {
    k.k0 <= LOW && k.k1 < width && k.k2 <= LOW
  }

  // CRC32(c, b)
  function Crc(t: Table, c: Word, b: Word): (r: Word)
    ensures c <= LOW ==> r <= LOW
  {
    IndexFits(c ^ b);
    CrcFits(t[((c ^ b) & 0xff) as nat], c);
    t[((c ^ b) & 0xff) as nat] ^ (c >> 8)
  }

  lemma IndexFits(x: Word)
    ensures (x & 0xff) as nat < 256
  {
  }

  lemma CrcFits(t: Word, c: Word)
    requires t <= LOW
    ensures c <= LOW ==> t ^ (c >> 8) <= LOW
  {
  }

  // temp of decrypt_byte, and temp ^ 1
  function Temp(k2: Word): (t: nat)
    ensures t <= 0xFFFF
  {
    ((k2 & 0xffff) | 2) as nat
  }

  function TempXor(k2: Word): (t: nat)
    ensures t <= 0xFFFF
  {
    (((k2 & 0xffff) | 2) ^ 1) as nat
  }

  lemma ProductBound(a: nat, b: nat)
    requires a <= 0xFFFF && b <= 0xFFFF
    ensures a * b <= 0xFFFF * 0xFFFF
  {
    NotNegative(a, 0xFFFF - b);
    assert a * (0xFFFF - b) == a * 0xFFFF - a * b;
  }

  lemma NotNegative(a: nat, b: nat)
    ensures a * b >= 0
  {
  }

  /** temp * (temp ^ 1) does not overflow an unsigned of 32 bits. */
  lemma NoOverflow(k2: Word)
    ensures Temp(k2) * TempXor(k2) < 0x1_0000_0000
  {
    ProductBound(Temp(k2), TempXor(k2));
  }

  // decrypt_byte: the product is an unsigned of 32 bits
  function DecryptByte(k: Keys): bv8 {
    (Temp(k.k2) * TempXor(k.k2) % 0x1_0000_0000 / 256 % 256) as bv8
  }

  function LowByte(x: Word): (b: nat)
    ensures b < 256
  {
    (x & 0xff) as nat
  }

  // The low byte of keys[1] >> 24
  function ShiftByte(k1: nat): (b: nat)
    ensures b < 256
  {
    k1 / 0x100_0000 % 256
  }

  function KeyShift(k1: nat): Word {
    ShiftByte(k1) as Word
  }

  // update_keys
  function Update(t: Table, width: Width, k: Keys, c: bv8): (r: Keys)
    ensures Valid(k, width) ==> Valid(r, width)
  {
    var k0 := Crc(t, k.k0, c as Word);
    var k1 := ((k.k1 + LowByte(k0)) % width * 134775813 + 1) % width;
    Keys(k0, k1, Crc(t, k.k2, KeyShift(k1)))
  }

  const START := Keys(305419896, 591751049, 878082192)

  // The keys after the bytes s.
  function Updated(t: Table, width: Width, k: Keys, s: seq<bv8>): (r: Keys)
    ensures Valid(k, width) ==> Valid(r, width)
    decreases |s|
  {
    if s == [] then k else Updated(t, width, Update(t, width, k, s[0]), s[1..])
  }

  // init_keys
  function InitKeys(t: Table, width: Width, password: seq<bv8>): (r: Keys)
    ensures Valid(r, width)
  {
    assert Valid(START, width) by {
      assert (305419896 as Word) <= LOW && (878082192 as Word) <= LOW;
    }
    Updated(t, width, START, password)
  }

  // zencode over a text, and zdecode over a cipher text
  function Encode(t: Table, width: Width, k: Keys, s: seq<bv8>): (e: seq<bv8>)
    ensures |e| == |s|
    decreases |s|
  {
    if s == [] then [] else [DecryptByte(k) ^ s[0]] + Encode(t, width, Update(t, width, k, s[0]), s[1..])
  }

  function Decode(t: Table, width: Width, k: Keys, e: seq<bv8>): (s: seq<bv8>)
    ensures |s| == |e|
    decreases |e|
  {
    if e == [] then []
    else
      var c := e[0] ^ DecryptByte(k);
      [c] + Decode(t, width, Update(t, width, k, c), e[1..])
  }

  lemma XorBack(a: bv8, b: bv8)
    ensures (b ^ a) ^ b == a
  {
  }

  // The decoder's keys after n bytes of a cipher text.
  function DecoderKeys(t: Table, width: Width, k: Keys, e: seq<bv8>, n: nat): Keys
    requires n <= |e|
    decreases n
  {
    if n == 0 then k else DecoderKeys(t, width, Update(t, width, k, e[0] ^ DecryptByte(k)), e[1..], n - 1)
  }

  lemma DecodeNothing(t: Table, width: Width, k: Keys)
    ensures Decode(t, width, k, []) == []
  {
  }

  lemma DecodeStep(t: Table, width: Width, k: Keys, e: seq<bv8>, c: bv8)
    requires e != [] && e[0] ^ DecryptByte(k) == c
    ensures Decode(t, width, k, e) == [c] + Decode(t, width, Update(t, width, k, c), e[1..])
  {
    hide Update, DecryptByte;
  }

  /** Decoding with the same keys recovers every text. */
  lemma {:induction false} DecodesBack(t: Table, width: Width, k: Keys, s: seq<bv8>)
    ensures Decode(t, width, k, Encode(t, width, k, s)) == s
    decreases |s|
  {
    hide Update, DecryptByte, Decode;
    if s == [] {
      DecodeNothing(t, width, k);
    } else {
      var e := Encode(t, width, k, s);
      var k1 := Update(t, width, k, s[0]);
      XorBack(s[0], DecryptByte(k));
      assert e[1..] == Encode(t, width, k1, s[1..]);
      DecodesBack(t, width, k1, s[1..]);
      DecodeStep(t, width, k, e, s[0]);
      assert [s[0]] + s[1..] == s;
    }
  }

  /** After every byte the decoder's keys are the encoder's. */
  lemma {:induction false} KeysInStep(t: Table, width: Width, k: Keys, s: seq<bv8>, n: nat)
    requires n <= |s|
    ensures DecoderKeys(t, width, k, Encode(t, width, k, s), n) == Updated(t, width, k, s[..n])
    decreases n
  {
    hide Update, DecryptByte;
    if n > 0 {
      var e := Encode(t, width, k, s);
      var k1 := Update(t, width, k, s[0]);
      XorBack(s[0], DecryptByte(k));
      assert e[1..] == Encode(t, width, k1, s[1..]);
      KeysInStep(t, width, k1, s[1..], n - 1);
      assert s[..n][1..] == s[1..][..n - 1];
    }
  }

  // --- 32 and 64 bits ----------------------------------------------------------------------------------

  // The keys of the two machines: equal but for the high half of the second.
  ghost predicate Alike(a: Keys, b: Keys) {
    a.k0 == b.k0 && a.k1 == b.k1 % 0x1_0000_0000 && a.k2 == b.k2
  }

  const W32: Width := 0x1_0000_0000
  const W64: Width := 0x1_0000_0000_0000_0000

  lemma LowHalf(x: nat, b: nat)
    ensures ((x % W32 + b) % W32 * 134775813 + 1) % W32 == ((x + b) % W64 * 134775813 + 1) % W64 % W32
  {
    var y := (x + b) % W64;
    SameLow(x % W32 + b, x + b, y);
    TimesLow((x % W32 + b) % W32, y);
    HalfOf(y * 134775813 + 1);
  }

  lemma SameLow(u: nat, v: nat, y: nat)
    requires u % W32 == v % W32 && y == v % W64
    ensures u % W32 == y % W32
  {
    HalfOf(v);
  }

  lemma HalfOf(v: nat)
    ensures v % W64 % W32 == v % W32
  {
    AddTimes(W32 * (v / W64), v % W64);
  }

  lemma TimesLow(a: nat, y: nat)
    requires a == y % W32
    ensures (a * 134775813 + 1) % W32 == (y * 134775813 + 1) % W32
  {
    var q := y / W32;
    AddTimes(q * 134775813, a * 134775813 + 1);
    assert y == W32 * q + a;
  }

  lemma AddTimes(m: nat, z: nat)
    ensures (W32 * m + z) % W32 == z % W32
  {
    Remainder(m + z / W32, z % W32);
  }

  lemma Remainder(m: nat, z: nat)
    requires z < W32
    ensures (W32 * m + z) % W32 == z
  {
  }

  lemma ShiftLow(k: nat)
    ensures ShiftByte(k % W32) == ShiftByte(k)
  {
    var q, r := k / W32, k % W32;
    ShiftSum(q, r);
    assert k == W32 * q + r;
  }

  lemma ShiftSum(q: nat, r: nat)
    ensures (W32 * q + r) / 0x100_0000 == 256 * q + r / 0x100_0000
  {
    assert W32 * q + r == 0x100_0000 * (256 * q + r / 0x100_0000) + r % 0x100_0000;
  }

  lemma AlikeStep(t: Table, a: Keys, b: Keys, c: bv8)
    requires Alike(a, b)
    ensures Alike(Update(t, W32, a, c), Update(t, W64, b, c)) && DecryptByte(a) == DecryptByte(b)
  {
    hide ShiftByte, Crc, LowByte, DecryptByte;
    var k0 := Crc(t, a.k0, c as Word);
    LowHalf(b.k1, LowByte(k0));
    ShiftLow(((b.k1 + LowByte(k0)) % W64 * 134775813 + 1) % W64);
    SameStream(a, b);
  }

  lemma SameStream(a: Keys, b: Keys)
    requires a.k2 == b.k2
    ensures DecryptByte(a) == DecryptByte(b)
  {
  }

  lemma {:induction false} AlikeRun(t: Table, a: Keys, b: Keys, s: seq<bv8>)
    requires Alike(a, b)
    ensures Alike(Updated(t, W32, a, s), Updated(t, W64, b, s))
    ensures Encode(t, W32, a, s) == Encode(t, W64, b, s)
    decreases |s|
  {
    hide Update, DecryptByte, Alike;
    if s != [] {
      AlikeStep(t, a, b, s[0]);
      AlikeRun(t, Update(t, W32, a, s[0]), Update(t, W64, b, s[0]), s[1..]);
    }
  }

  /** A 32 bit and a 64 bit program encrypt alike, for every password and text. */
  lemma WidthsAgree(t: Table, password: seq<bv8>, s: seq<bv8>)
    ensures Encode(t, W32, InitKeys(t, W32, password), s) == Encode(t, W64, InitKeys(t, W64, password), s)
  {
    hide Updated, Encode;
    AlikeRun(t, START, START, password);
    AlikeRun(t, InitKeys(t, W32, password), InitKeys(t, W64, password), s);
  }

  // --- the key array and the header --------------------------------------------------------------------

  const HEAD: nat := 12  // RAND_HEAD_LEN

  class KeyArray {
    const table: Table  // pcrc_32_tab
    const width: Width
    var keys: Keys      // pkeys

    constructor (t: Table, w: Width)
      ensures table == t && width == w
    {
      table, width, keys := t, w, START;
    }

    // update_keys
    method UpdateKeys(c: bv8)
      modifies this
      ensures keys == Update(table, width, old(keys), c)
    {
      hide Crc, KeyShift, LowByte;
      var k0 := Crc(table, keys.k0, c as Word);
      keys := keys.(k0 := k0);
      keys := keys.(k1 := (keys.k1 + LowByte(keys.k0)) % width);
      keys := keys.(k1 := (keys.k1 * 134775813 + 1) % width);
      keys := keys.(k2 := Crc(table, keys.k2, KeyShift(keys.k1)));
    }

    /** init_keys */
    method Init(password: seq<bv8>)
      modifies this
      ensures keys == InitKeys(table, width, password)
    {
      hide Update, Updated;
      keys := START;
      var i := 0;
      assert password[0..] == password;
      while i < |password|
        invariant 0 <= i <= |password|
        invariant Updated(table, width, keys, password[i..]) == Updated(table, width, START, password)
      {
        UpdatedStep(table, width, keys, password, i);
        UpdateKeys(password[i]);
        i := i + 1;
      }
      UpdatedNothing(table, width, keys, password[i..]);
    }

    // zencode
    method Zencode(c: bv8) returns (e: bv8)
      modifies this
      ensures e == DecryptByte(old(keys)) ^ c && keys == Update(table, width, old(keys), c)
    {
      hide Update, DecryptByte;
      var t := DecryptByte(keys);
      UpdateKeys(c);
      e := t ^ c;
    }

    // zdecode
    method Zdecode(c0: bv8) returns (c: bv8)
      modifies this
      ensures c == c0 ^ DecryptByte(old(keys)) && keys == Update(table, width, old(keys), c)
    {
      hide Update, DecryptByte;
      c := c0 ^ DecryptByte(keys);
      UpdateKeys(c);
    }

    // A text encoded byte by byte into a buffer.
    method EncodeInto(buf: array<bv8>, s: seq<bv8>)
      requires |s| <= buf.Length
      modifies this, buf
      ensures buf[..|s|] == Encode(table, width, old(keys), s) && buf[|s|..] == old(buf[|s|..])
      ensures keys == Updated(table, width, old(keys), s)
    {
      hide Update, Updated, Encode, DecryptByte;
      ghost var k := keys;
      var i := 0;
      assert s[0..] == s;
      while i < |s|
        invariant 0 <= i <= |s| && buf[|s|..] == old(buf[|s|..])
        invariant Encode(table, width, k, s) == buf[..i] + Encode(table, width, keys, s[i..])
        invariant Updated(table, width, k, s) == Updated(table, width, keys, s[i..])
      {
        EncodeStep(table, width, keys, s, i);
        UpdatedStep(table, width, keys, s, i);
        ghost var before := buf[..i];
        buf[i] := Zencode(s[i]);
        i := i + 1;
        assert buf[..i] == before + [buf[i - 1]];
      }
      UpdatedNothing(table, width, keys, s[i..]);
    }

    /** crypthead: rands are the ten values drawn from rand(), crc the checksum of the
        file.  The buffer receives the encoded random bytes and the two high bytes of
        the checksum. */
    method CryptHead(password: seq<bv8>, buf: array<bv8>, rands: seq<bv8>, crc: bv32) returns (n: nat)
      requires |rands| == HEAD - 2
      modifies this, buf
      ensures n == if buf.Length < HEAD then 0 else HEAD
      ensures n == HEAD ==> var k := InitKeys(table, width, password);
                            var head := Encode(table, width, k, rands) + CrcBytes(crc);
                            buf[..HEAD] == Encode(table, width, k, head) && keys == Updated(table, width, k, head)
    {
      hide InitKeys, Encode, Updated, CrcBytes;
      if buf.Length < HEAD {
        return 0;
      }
      Init(password);
      var header := new bv8[HEAD - 2];
      EncodeInto(header, rands);
      Init(password);
      assert header[..] == header[..|rands|];
      EncodeInto(buf, header[..] + CrcBytes(crc));
      n := HEAD;
    }
  }

  // (crc >> 16) & 0xff and (crc >> 24) & 0xff
  function CrcBytes(crc: bv32): (s: seq<bv8>)
    ensures |s| == 2
  {
    [((crc >> 16) & 0xff) as bv8, (crc >> 24) as bv8]
  }

  // A number from its two high bytes, the third and the fourth.
  function HighHalf(a: bv8, b: bv8): bv32 {
    ((b as bv32) << 24) | ((a as bv32) << 16)
  }

  lemma CrcBytesAre(crc: bv32)
    ensures HighHalf(CrcBytes(crc)[0], CrcBytes(crc)[1]) == crc & 0xFFFF_0000
  {
  }

  lemma UpdatedStep(t: Table, width: Width, k: Keys, s: seq<bv8>, i: nat)
    requires i < |s|
    ensures Updated(t, width, k, s[i..]) == Updated(t, width, Update(t, width, k, s[i]), s[i + 1..])
  {
    hide Update;
    assert s[i..][0] == s[i] && s[i..][1..] == s[i + 1..];
  }

  lemma UpdatedNothing(t: Table, width: Width, k: Keys, s: seq<bv8>)
    requires s == []
    ensures Updated(t, width, k, s) == k
  {
  }

  lemma EncodeStep(t: Table, width: Width, k: Keys, s: seq<bv8>, i: nat)
    requires i < |s|
    ensures Encode(t, width, k, s[i..]) == [DecryptByte(k) ^ s[i]] + Encode(t, width, Update(t, width, k, s[i]), s[i + 1..])
  {
    hide Update, DecryptByte;
    assert s[i..][0] == s[i] && s[i..][1..] == s[i + 1..];
  }

  /** Decoding the header of crypthead gives its random bytes (the encoding of what was
      drawn) and then the two high bytes of the checksum, the keys being in step. */
  lemma HeadDecodes(t: Table, width: Width, password: seq<bv8>, rands: seq<bv8>, crc: bv32, buf: seq<bv8>)
    requires |rands| == 10
    requires var k := InitKeys(t, width, password);
             buf == Encode(t, width, k, Encode(t, width, k, rands) + CrcBytes(crc))
    ensures var k := InitKeys(t, width, password);
            var s := Decode(t, width, k, buf);
            && |buf| == 12 && Decode(t, width, k, s[..10]) == rands
            && HighHalf(s[10], s[11]) == crc & 0xFFFF_0000
            && DecoderKeys(t, width, k, buf, HEAD) == Updated(t, width, k, s)
  {
    hide InitKeys, Encode, Decode, CrcBytes, HighHalf, Updated, DecoderKeys;
    CrcBytesAre(crc);
    HeadFrom(t, width, InitKeys(t, width, password), rands, CrcBytes(crc));
    var s := Decode(t, width, InitKeys(t, width, password), buf);
    assert s[HEAD - 2..][0] == s[HEAD - 2] && s[HEAD - 2..][1] == s[HEAD - 1];
  }

  lemma HeadFrom(t: Table, width: Width, k: Keys, rands: seq<bv8>, tail: seq<bv8>)
    requires |rands| == HEAD - 2 && |tail| == 2
    ensures var buf := Encode(t, width, k, Encode(t, width, k, rands) + tail);
            var s := Decode(t, width, k, buf);
            && |buf| == HEAD && Decode(t, width, k, s[..HEAD - 2]) == rands && s[HEAD - 2..] == tail
            && DecoderKeys(t, width, k, buf, HEAD) == Updated(t, width, k, s)
  {
    hide Encode, Decode, Updated, DecoderKeys;
    var a := Encode(t, width, k, rands);
    DecodesBack(t, width, k, a + tail);
    DecodesBack(t, width, k, rands);
    KeysInStep(t, width, k, a + tail, HEAD);
    Halves(a, tail);
  }

  lemma Halves(a: seq<bv8>, b: seq<bv8>)
    ensures (a + b)[..|a|] == a && (a + b)[|a|..] == b && (a + b)[..|a| + |b|] == a + b
  {
  }
}
