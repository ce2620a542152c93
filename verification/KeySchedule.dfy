/** The keys of the cipher as section 6.1 of APPNOTE.TXT has them: two checksums and a
    linear congruence, each over what the one before it gives. */
module KeySchedule {
  import opened Cipher

  // --- the CRC, bit by bit ---------------------------------------------------------------------------

  const POLYNOMIAL: Word := 0xEDB8_8320

  // Names for the operations, so that a chain of steps is not taken apart into bits.
  function Xor(a: Word, b: Word): Word {
    a ^ b
  }

  function Half(x: Word): Word {
    x >> 1
  }

  predicate Odd(x: Word) {
    x & 1 == 1
  }

  // One bit is shifted out; when it is set the polynomial is added.
  function Shift(x: Word): Word {
    if Odd(x) then Xor(Half(x), POLYNOMIAL) else Half(x)
  }

  function Eight(x: Word): Word {
    Shift(Shift(Shift(Shift(Shift(Shift(Shift(Shift(x))))))))
  }

  // One byte added to the checksum c.
  function ByteCrc(c: Word, b: Word): Word {
    Eight(c ^ b)
  }

  // Entry i is what shifting the byte i out gives.
  ghost predicate IsCrcTable(t: Table) {
    forall i: nat :: i < 256 ==> t[i] == Eight(i as Word)
  }

  // The checksum of s from c on.
  function BitCrc(c: Word, s: seq<Word>): Word {
    if s == [] then c else ByteCrc(BitCrc(c, s[..|s| - 1]), s[|s| - 1])
  }

  lemma XorHalf(a: Word, b: Word)
    ensures Half(Xor(a, b)) == Xor(Half(a), Half(b))
  {
  }

  lemma XorOdd(a: Word, b: Word)
    ensures Odd(Xor(a, b)) <==> (Odd(a) != Odd(b))
  {
  }

  lemma XorSwap(a: Word, b: Word)
    ensures Xor(a, b) == Xor(b, a)
  {
  }

  lemma XorRight(a: Word, b: Word, p: Word)
    ensures Xor(a, Xor(b, p)) == Xor(Xor(a, b), p)
  {
    hide Half, Odd, Shift, Eight, BitCrc;
  }

  lemma XorLeft(a: Word, b: Word, p: Word)
    ensures Xor(Xor(a, p), b) == Xor(Xor(a, b), p)
  {
    hide Xor;
    XorSwap(Xor(a, p), b);
    XorRight(b, a, p);
    XorSwap(a, b);
  }

  lemma XorTwice(a: Word, p: Word)
    ensures Xor(Xor(a, p), p) == a
  {
  }

  lemma ShiftLinear(a: Word, b: Word)
    ensures Shift(Xor(a, b)) == Xor(Shift(a), Shift(b))
  {
    hide Xor, Half, Odd;
    var c, d, p := Half(a), Half(b), POLYNOMIAL;
    XorHalf(a, b);
    XorOdd(a, b);
    XorLeft(c, d, p);
    XorRight(c, d, p);
    XorRight(Xor(c, p), d, p);
    XorTwice(Xor(c, d), p);
  }

  lemma EightLinear(a: Word, b: Word)
    ensures Eight(Xor(a, b)) == Xor(Eight(a), Eight(b))
  {
    hide Shift, Xor;
    var a1, b1 := Shift(a), Shift(b);
    var a2, b2 := Shift(a1), Shift(b1);
    var a3, b3 := Shift(a2), Shift(b2);
    var a4, b4 := Shift(a3), Shift(b3);
    var a5, b5 := Shift(a4), Shift(b4);
    var a6, b6 := Shift(a5), Shift(b5);
    var a7, b7 := Shift(a6), Shift(b6);
    ShiftLinear(a, b);
    ShiftLinear(a1, b1);
    ShiftLinear(a2, b2);
    ShiftLinear(a3, b3);
    ShiftLinear(a4, b4);
    ShiftLinear(a5, b5);
    ShiftLinear(a6, b6);
    ShiftLinear(a7, b7);
  }

  // Eight zero bits are only shifted out.
  lemma EightZeros(x: Word)
    ensures Eight(x & !0xff) == x >> 8
  {
  }

  lemma Halves(x: Word)
    ensures (x & 0xff) ^ (x & !0xff) == x
  {
  }

  lemma ByteIndex(y: bv8)
    ensures (y as nat) as Word == y as Word
  {
    ByteBack(y);
    ByteWidened(y as nat);
  }

  lemma ByteBack(y: bv8)
    ensures (y as nat) as bv8 == y
  {
  }

  lemma ByteWidened(n: nat)
    requires n < 256
    ensures (n as bv8) as Word == n as Word
  {
  }

  lemma LowIndex(x: Word)
    ensures ((x & 0xff) as nat) as Word == x & 0xff
  {
    ByteIndex((x & 0xff) as bv8);
    assert (x & 0xff) as nat == ((x & 0xff) as bv8) as nat;
  }

  function Low(x: Word): Word {
    x & 0xff
  }

  lemma EightSplit(x: Word)
    ensures Eight(x) == Xor(Eight(Low(x)), x >> 8)
  {
    hide Eight, Xor, Low;
    EightSplitNamed(x);
    EightZeros(x);
  }

  lemma EightSplitNamed(x: Word)
    ensures Eight(x) == Xor(Eight(Low(x)), Eight(x & !0xff))
  {
    hide Eight;
    EightLinear(Low(x), x & !0xff);
    Halves(x);
  }

  /** One step through the table is eight shifts of the bit by bit checksum. */
  lemma TableStep(t: Table, c: Word, b: Word)
    requires IsCrcTable(t) && b <= 0xff
    ensures Crc(t, c, b) == ByteCrc(c, b)
  {
    hide Eight, Low, IsCrcTable, Xor, Crc;
    TableEntry(t, c ^ b);
    EightSplit(c ^ b);
    ShiftedOut(c, b);
    CrcNamed(t, c, b);
  }

  lemma CrcNamed(t: Table, c: Word, b: Word)
    ensures ((c ^ b) & 0xff) as nat < 256 && Crc(t, c, b) == Xor(t[((c ^ b) & 0xff) as nat], c >> 8)
  {
    IndexFits(c ^ b);
  }

  lemma TableEntry(t: Table, x: Word)
    requires IsCrcTable(t)
    ensures (x & 0xff) as nat < 256 && t[(x & 0xff) as nat] == Eight(Low(x))
  {
    hide Eight;
    IndexFits(x);
    LowIndex(x);
    assert t[(x & 0xff) as nat] == Eight(((x & 0xff) as nat) as Word);
  }

  lemma ShiftedOut(c: Word, b: Word)
    requires b <= 0xff
    ensures (c ^ b) >> 8 == c >> 8
  {
  }

  // --- the three keys --------------------------------------------------------------------------------

  function WordsOf(s: seq<bv8>): seq<Word> {
    if s == [] then [] else WordsOf(s[..|s| - 1]) + [s[|s| - 1] as Word]
  }

  // The multiplicative congruence over the numbers bs.
  function Congruence(x: nat, bs: seq<nat>): (y: nat)
    requires x < W32
    ensures y < W32
  {
    if bs == [] then x else ((Congruence(x, bs[..|bs| - 1]) + bs[|bs| - 1]) * 134775813 + 1) % W32
  }

  // The first key after the bytes s.
  function FirstKey(s: seq<bv8>): Word {
    BitCrc(0x1234_5678, WordsOf(s))
  }

  // The low byte of the first key after each byte of s.
  function LowBytes(s: seq<bv8>): seq<nat> {
    if s == [] then [] else LowBytes(s[..|s| - 1]) + [Low(FirstKey(s)) as nat]
  }

  function SecondKey(s: seq<bv8>): nat {
    Congruence(0x2345_6789, LowBytes(s))
  }

  // The high byte of the second key after each byte of s.
  function HighBytes(s: seq<bv8>): seq<Word> {
    if s == [] then [] else HighBytes(s[..|s| - 1]) + [HighByte(SecondKey(s))]
  }

  function HighByte(k1: nat): Word {
    (k1 / 0x100_0000 % 0x100) as Word
  }

  function ThirdKey(s: seq<bv8>): Word {
    BitCrc(0x3456_7890, HighBytes(s))
  }

  lemma BitCrcLast(c: Word, s: seq<Word>, b: Word)
    ensures BitCrc(c, s + [b]) == ByteCrc(BitCrc(c, s), b)
  {
    hide ByteCrc;
    assert (s + [b])[..|s|] == s;
  }

  lemma CongruenceLast(x: nat, bs: seq<nat>, b: nat)
    requires x < W32
    ensures Congruence(x, bs + [b]) == ((Congruence(x, bs) + b) * 134775813 + 1) % W32
  {
    assert (bs + [b])[..|bs|] == bs;
  }

  lemma UpdatedBoth(t: Table, width: Width, k: Keys, a: seq<bv8>, b: seq<bv8>)
    ensures Updated(t, width, k, a + b) == Updated(t, width, Updated(t, width, k, a), b)
    decreases |a|
  {
    hide Update;
    if a == [] {
      assert a + b == b;
    } else {
      assert (a + b)[1..] == a[1..] + b;
      UpdatedBoth(t, width, Update(t, width, k, a[0]), a[1..], b);
    }
  }

  lemma UpdatedLast(t: Table, width: Width, k: Keys, s: seq<bv8>, c: bv8)
    ensures Updated(t, width, k, s + [c]) == Update(t, width, Updated(t, width, k, s), c)
  {
    hide Update;
    UpdatedBoth(t, width, k, s, [c]);
    assert [c][1..] == [];
  }

  lemma SumLow(k1: nat, b: nat)
    ensures (k1 % W32 + b) % W32 == (k1 + b) % W32
  {
    AddTimes(k1 / W32, k1 % W32 + b);
  }

  // The second key modulo 2^32, whatever the width.
  lemma SecondStep(width: Width, k1: nat, b: nat)
    ensures ((k1 + b) % width * 134775813 + 1) % width % W32 == ((k1 % W32 + b) * 134775813 + 1) % W32
  {
    var z := k1 % W32 + b;
    TimesLow(z % W32, z);
    if width == W64 {
      LowHalf(k1, b);
    } else {
      SumLow(k1, b);
    }
  }

  lemma HighBytesFit(k1: nat)
    ensures HighByte(k1) <= 0xff
  {
  }

  // update_keys: each key from the one before and its old value.
  lemma UpdateStep(t: Table, width: Width, k: Keys, c: bv8)
    requires IsCrcTable(t)
    ensures var r := Update(t, width, k, c);
            && r.k0 == ByteCrc(k.k0, c as Word)
            && r.k1 % W32 == ((k.k1 % W32 + Low(r.k0) as nat) * 134775813 + 1) % W32
            && r.k2 == ByteCrc(k.k2, HighByte(r.k1 % W32))
  {
    hide ByteCrc, Crc, IsCrcTable, HighByte;
    var r := Update(t, width, k, c);
    ByteFits(c);
    TableStep(t, k.k0, c as Word);
    SecondStep(width, k.k1, LowByte(r.k0));
    ShiftLow(r.k1);
    SameHigh(r.k1);
    HighBytesFit(r.k1 % W32);
    TableStep(t, k.k2, HighByte(r.k1 % W32));
  }

  lemma ByteFits(c: bv8)
    ensures (c as Word) <= 0xff
  {
  }

  lemma SameHigh(k1: nat)
    ensures KeyShift(k1) == HighByte(k1 % W32)
  {
    ShiftLow(k1);
  }

  lemma FirstLast(s: seq<bv8>, c: bv8)
    ensures FirstKey(s + [c]) == ByteCrc(FirstKey(s), c as Word)
  {
    hide ByteCrc, BitCrc;
    assert (s + [c])[..|s|] == s;
    BitCrcLast(0x1234_5678, WordsOf(s), c as Word);
  }

  lemma SecondLast(s: seq<bv8>, c: bv8)
    ensures SecondKey(s + [c]) == ((SecondKey(s) + Low(FirstKey(s + [c])) as nat) * 134775813 + 1) % W32
  {
    hide FirstKey, Congruence, Low;
    var b := Low(FirstKey(s + [c])) as nat;
    assert (s + [c])[..|s|] == s;
    CongruenceLast(0x2345_6789, LowBytes(s), b);
  }

  lemma ThirdLast(s: seq<bv8>, c: bv8)
    ensures ThirdKey(s + [c]) == ByteCrc(ThirdKey(s), HighByte(SecondKey(s + [c])))
  {
    hide ByteCrc, BitCrc, HighByte, SecondKey;
    assert (s + [c])[..|s|] == s;
    BitCrcLast(0x3456_7890, HighBytes(s), HighByte(SecondKey(s + [c])));
  }

  // k is what the three definitions give for the bytes s.
  ghost predicate KeysOf(k: Keys, s: seq<bv8>) {
    k.k0 == FirstKey(s) && k.k1 % W32 == SecondKey(s) && k.k2 == ThirdKey(s)
  }

  lemma KeysStep(t: Table, width: Width, k: Keys, s: seq<bv8>, c: bv8)
    requires IsCrcTable(t) && KeysOf(k, s)
    ensures KeysOf(Update(t, width, k, c), s + [c])
  {
    hide Update, ByteCrc, IsCrcTable, FirstKey, SecondKey, ThirdKey, HighByte, Low;
    UpdateStep(t, width, k, c);
    FirstLast(s, c);
    SecondLast(s, c);
    ThirdLast(s, c);
  }

  /** After any bytes the first key is the checksum of the bytes, the second the congruence
      of the low bytes of the first, and the third the checksum of the high bytes of the
      second; a 64 bit program has the second key modulo 2^32. */
  lemma {:induction false} KeysAre(t: Table, width: Width, s: seq<bv8>)
    requires IsCrcTable(t)
    ensures KeysOf(Updated(t, width, START, s), s)
    decreases |s|
  {
    hide Update, Updated, IsCrcTable, KeysOf;
    if s == [] {
      NoBytes(t, width);
    } else {
      var n := |s| - 1;
      var a, c := s[..n], s[n];
      KeysAre(t, width, a);
      assert a + [c] == s;
      UpdatedLast(t, width, START, a, c);
      KeysStep(t, width, Updated(t, width, START, a), a, c);
    }
  }

  lemma NoBytes(t: Table, width: Width)
    ensures Updated(t, width, START, []) == START
    ensures KeysOf(START, [])
  {
  }

  // --- the key stream ----------------------------------------------------------------------------------

  // The low 16 bits of the third key with bit 1 set, as a number.
  function StreamTemp(k2: Word): nat {
    var low, high := (k2 & 0xff) as nat, ((k2 >> 8) & 0xff) as nat;
    256 * high + if low / 2 % 2 == 1 then low else low + 2
  }

  // Bits 8 to 15 of the product of that number and the one that differs from it in bit 0.
  function StreamByte(k2: Word): (b: nat)
    ensures b < 256
  {
    var t := StreamTemp(k2);
    var u := if t % 2 == 0 then t + 1 else t - 1;
    t * u / 256 % 256
  }

  lemma TempParts(x: Word)
    ensures Temp(x) == 256 * (((x >> 8) & 0xff) as nat) + (((x & 0xff) | 2) as nat)
  {
  }

  lemma TempXorParts(x: Word)
    ensures TempXor(x) == 256 * (((x >> 8) & 0xff) as nat) + ((((x & 0xff) | 2) ^ 1) as nat)
  {
  }

  lemma BitSet(y: bv8)
    ensures (y | 2) as nat == if y as nat / 2 % 2 == 1 then y as nat else y as nat + 2
  {
  }

  lemma BitFlipped(y: bv8)
    ensures (y ^ 1) as nat == if y as nat % 2 == 0 then y as nat + 1 else y as nat - 1
  {
  }

  lemma LowOfWord(y: Word)
    requires y <= 0xff
    ensures y as nat == (y as bv8) as nat && (y | 2) as nat == ((y as bv8) | 2) as nat
    ensures ((y | 2) ^ 1) as nat == (((y as bv8) | 2) ^ 1) as nat
  {
  }

  lemma TempIs(x: Word)
    ensures Temp(x) == StreamTemp(x)
  {
    hide Temp;
    TempParts(x);
    LowOfWord(x & 0xff);
    BitSet((x & 0xff) as bv8);
  }

  lemma Parity(high: nat, n: nat, m: nat)
    requires m == if n % 2 == 0 then n + 1 else n - 1
    ensures var t := 256 * high + n; 256 * high + m == if t % 2 == 0 then t + 1 else t - 1
  {
  }

  lemma TempXorIs(x: Word)
    ensures var t := Temp(x); TempXor(x) == if t % 2 == 0 then t + 1 else t - 1
  {
    hide Temp, TempXor;
    var z := ((x & 0xff) as bv8) | 2;
    TempParts(x);
    TempXorParts(x);
    LowOfWord(x & 0xff);
    BitFlipped(z);
    Parity(((x >> 8) & 0xff) as nat, z as nat, (z ^ 1) as nat);
  }

  lemma ProductIs(x: Word)
    ensures Temp(x) * TempXor(x) % 0x1_0000_0000 / 256 % 256 == StreamByte(x)
  {
    hide Temp, TempXor, StreamTemp;
    TempIs(x);
    TempXorIs(x);
    NoOverflow(x);
    SameProduct(Temp(x), TempXor(x));
  }

  lemma SameProduct(t: nat, u: nat)
    requires t * u < 0x1_0000_0000
    ensures t * u % 0x1_0000_0000 == t * u
  {
  }

  /** decrypt_byte gives the byte of the key stream. */
  lemma DecryptByteIs(k: Keys)
    ensures DecryptByte(k) == StreamByte(k.k2) as bv8
  {
    hide Temp, TempXor, StreamByte;
    ProductIs(k.k2);
  }

  lemma {:induction false} EncodeAt(t: Table, width: Width, k: Keys, s: seq<bv8>, i: nat)
    requires i < |s|
    ensures Encode(t, width, k, s)[i] == DecryptByte(Updated(t, width, k, s[..i])) ^ s[i]
    decreases i
  {
    hide Update, DecryptByte;
    if i > 0 {
      EncodeAt(t, width, Update(t, width, k, s[0]), s[1..], i - 1);
      assert s[..i][1..] == s[1..][..i - 1];
    }
  }

  /** The cipher text of s under a password: each byte is that of s and the byte of the key
      stream that the password and the bytes of s before it determine. */
  lemma CipherText(t: Table, width: Width, password: seq<bv8>, s: seq<bv8>, i: nat)
    requires IsCrcTable(t) && i < |s|
    ensures Encode(t, width, InitKeys(t, width, password), s)[i] == (StreamByte(ThirdKey(password + s[..i])) as bv8) ^ s[i]
  {
    hide Updated, Encode, DecryptByte, StreamByte, IsCrcTable, FirstKey, SecondKey, ThirdKey;
    EncodeAt(t, width, InitKeys(t, width, password), s, i);
    UpdatedBoth(t, width, START, password, s[..i]);
    KeysAre(t, width, password + s[..i]);
    DecryptByteIs(Updated(t, width, START, password + s[..i]));
  }

  // --- the table ---------------------------------------------------------------------------------------

  function Entry(i: nat): (x: Word)
    requires i < 256
    ensures x <= LOW
  {
    ByteWidened(i);
    EightFits(i as Word);
    Eight(i as Word)
  }

  lemma EightFits(x: Word)
    requires x <= LOW
    ensures Eight(x) <= LOW
  {
    hide Shift;
    ShiftFits(x);
    ShiftFits(Shift(x));
    ShiftFits(Shift(Shift(x)));
    ShiftFits(Shift(Shift(Shift(x))));
    ShiftFits(Shift(Shift(Shift(Shift(x)))));
    ShiftFits(Shift(Shift(Shift(Shift(Shift(x))))));
    ShiftFits(Shift(Shift(Shift(Shift(Shift(Shift(x)))))));
    ShiftFits(Shift(Shift(Shift(Shift(Shift(Shift(Shift(x))))))));
  }

  lemma ShiftFits(x: Word)
    requires x <= LOW
    ensures Shift(x) <= LOW
  {
  }

  /** There is such a table, and these are three of its entries. */
  lemma CrcTable() returns (t: Table)
    ensures IsCrcTable(t) && t[1] == 0x7707_3096 && t[128] == 0xEDB8_8320 && t[255] == 0x2D02_EF8D
  {
    hide Eight;
    t := seq(256, i requires 0 <= i < 256 => Entry(i));
    KnownEntries();
  }

  lemma KnownEntries()
    ensures Eight(1) == 0x7707_3096 && Eight(128) == 0xEDB8_8320 && Eight(255) == 0x2D02_EF8D
  {
  }
}
