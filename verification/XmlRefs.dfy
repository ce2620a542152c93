/** Character references written as numbers: which are read, and how the character is
    stored. */
module XmlRefs {
  import opened Wire
  import opened XmlToken
  import opened XmlText
  import Entities
  import XmlAttr

  // --- UTF-8 ---------------------------------------------------------------------------------------

  // What a lead byte says: how many bytes follow it, and the first bits of the character.
  datatype Lead = Lead(more: nat, bits: nat) | NoLead

  function LeadOf(b: Byte): Lead {
    if 0xC0 <= b < 0xE0 then Lead(1, b - 0xC0)
    else if 0xE0 <= b < 0xF0 then Lead(2, b - 0xE0)
    else if 0xF0 <= b < 0xF8 then Lead(3, b - 0xF0)
    else if 0xF8 <= b < 0xFC then Lead(4, b - 0xF8)
    else if 0xFC <= b < 0xFE then Lead(5, b - 0xFC)
    else NoLead
  }

  // Six more bits from each byte that follows.
  function Followed(bits: nat, s: seq<Byte>): Option<nat>
    decreases |s|
  {
    if s == [] then Some(bits)
    else if 0x80 <= s[0] < 0xC0 then Followed(bits * 0x40 + (s[0] - 0x80), s[1..])
    else None
  }

  // The character s encodes, as section 2 of RFC 2279 has it.
  function Utf8Value(s: seq<Byte>): Option<nat> {
    if s == [] || LeadOf(s[0]).NoLead? || LeadOf(s[0]).more != |s| - 1 then None
    else Followed(LeadOf(s[0]).bits, s[1..])
  }

  // One more than the largest character that n bytes can encode.
  function Capacity(n: nat): nat {
    if n <= 1 then 0x80
    else if n == 2 then 0x800
    else if n == 3 then 0x1_0000
    else if n == 4 then 0x20_0000
    else if n == 5 then 0x400_0000
    else 0x8000_0000
  }

  lemma FollowedOne(bits: nat, b: Byte, s: seq<Byte>)
    requires b < 0x40
    ensures Followed(bits, [0x80 + b] + s) == Followed(bits * 0x40 + b, s)
  {
    assert ([0x80 + b] + s)[1..] == s;
  }

  lemma FollowedNone(n: nat)
    ensures Followed(n, []) == Some(n)
  {
  }

  // Appending one more byte appends its six bits.
  lemma {:induction false} FollowedLast(bits: nat, s: seq<Byte>, b: Byte)
    requires Followed(bits, s).Some? && b < 0x40
    ensures Followed(bits, s + [0x80 + b]) == Some(Followed(bits, s).value * 0x40 + b)
    decreases |s|
  {
    if s == [] {
      assert s + [0x80 + b] == [0x80 + b] + [];
      FollowedOne(bits, b, []);
    } else {
      assert (s + [0x80 + b])[1..] == s[1..] + [0x80 + b];
      FollowedLast(bits * 0x40 + (s[0] - 0x80), s[1..], b);
    }
  }

  // The last bytes of a stored character, from its first bits.
  function Tail(v: nat, n: nat): (s: seq<Byte>)
    ensures |s| == n
  {
    if n == 0 then [] else Tail(v / 0x40, n - 1) + [0x80 + v % 0x40]
  }

  function Top(v: nat, n: nat): nat {
    if n == 0 then v else Top(v / 0x40, n - 1)
  }

  lemma {:induction false} TailFollows(v: nat, n: nat)
    ensures Followed(Top(v, n), Tail(v, n)) == Some(v)
  {
    if n > 0 {
      TailFollows(v / 0x40, n - 1);
      FollowedLast(Top(v, n), Tail(v / 0x40, n - 1), v % 0x40);
    }
  }

  lemma Quotients(v: nat)
    ensures v / 0x1000 == v / 0x40 / 0x40 && v / 0x4_0000 == v / 0x40 / 0x40 / 0x40
    ensures v / 0x100_0000 == v / 0x40 / 0x40 / 0x40 / 0x40
    ensures v / 0x4000_0000 == v / 0x40 / 0x40 / 0x40 / 0x40 / 0x40
  {
  }

  // n bytes follow the lead byte of v, which holds its first bits.
  ghost predicate HasParts(v: nat, n: nat) {
    |Utf8(v)| == n + 1 && Utf8(v)[1..] == Tail(v, n) && LeadOf(Utf8(v)[0]) == Lead(n, Top(v, n))
  }

  lemma TwoBytes(v: nat)
    requires 0x80 <= v < 0x800
    ensures v / 0x40 < 0x20 && Utf8(v) == [0xC0 + v / 0x40, 0x80 + v % 0x40]
  {
  }

  lemma TwoParts(v: nat)
    requires 0x80 <= v < 0x800
    ensures HasParts(v, 1)
  {
    hide Tail, Top, Utf8;
    TwoBytes(v);
    Tails(v, 1);
    assert Utf8(v)[1..] == [0x80 + v % 0x40];
  }

  lemma ThreeBytes(v: nat)
    requires 0x800 <= v < 0x1_0000
    ensures v / 0x40 / 0x40 < 0x10 && Utf8(v) == [0xE0 + v / 0x40 / 0x40, 0x80 + v / 0x40 % 0x40, 0x80 + v % 0x40]
  {
    Quotients(v);
  }

  lemma ThreeParts(v: nat)
    requires 0x800 <= v < 0x1_0000
    ensures HasParts(v, 2)
  {
    hide Tail, Top, Utf8;
    ThreeBytes(v);
    Tails(v, 2);
    assert Utf8(v)[1..] == [0x80 + v / 0x40 % 0x40, 0x80 + v % 0x40];
  }

  lemma FourParts(v: nat)
    requires 0x1_0000 <= v < 0x20_0000
    ensures HasParts(v, 3)
  {
    hide Tail, Top;
    Quotients(v);
    Tails(v, 3);
  }

  lemma FiveParts(v: nat)
    requires 0x20_0000 <= v < 0x400_0000
    ensures HasParts(v, 4)
  {
    hide Tail, Top;
    Quotients(v);
    Tails(v, 4);
  }

  lemma SixParts(v: nat)
    requires 0x400_0000 <= v < 0x8000_0000
    ensures HasParts(v, 5)
  {
    hide Tail, Top;
    Quotients(v);
    Tails(v, 5);
  }

  // The stored bytes are a lead byte and such a tail.
  lemma Utf8Parts(v: nat)
    requires 0x80 <= v < 0x8000_0000
    ensures |Utf8(v)| > 1 && HasParts(v, |Utf8(v)| - 1)
  {
    hide HasParts;
    if v < 0x800 {
      TwoParts(v);
    } else if v < 0x1_0000 {
      ThreeParts(v);
    } else if v < 0x20_0000 {
      FourParts(v);
    } else if v < 0x400_0000 {
      FiveParts(v);
    } else {
      SixParts(v);
    }
  }

  lemma Tails(v: nat, n: nat)
    requires n <= 5
    ensures n == 1 ==> Tail(v, n) == [0x80 + v % 0x40] && Top(v, n) == v / 0x40
    ensures n == 2 ==> Tail(v, n) == [0x80 + v / 0x40 % 0x40, 0x80 + v % 0x40] && Top(v, n) == v / 0x40 / 0x40
    ensures n == 3 ==> Tail(v, n) == [0x80 + v / 0x40 / 0x40 % 0x40, 0x80 + v / 0x40 % 0x40, 0x80 + v % 0x40]
                       && Top(v, n) == v / 0x40 / 0x40 / 0x40
    ensures n == 4 ==> Tail(v, n) == [0x80 + v / 0x40 / 0x40 / 0x40 % 0x40, 0x80 + v / 0x40 / 0x40 % 0x40, 0x80 + v / 0x40 % 0x40,
                                      0x80 + v % 0x40]
                       && Top(v, n) == v / 0x40 / 0x40 / 0x40 / 0x40
    ensures n == 5 ==> Tail(v, n) == [0x80 + v / 0x40 / 0x40 / 0x40 / 0x40 % 0x40, 0x80 + v / 0x40 / 0x40 / 0x40 % 0x40,
                                      0x80 + v / 0x40 / 0x40 % 0x40, 0x80 + v / 0x40 % 0x40, 0x80 + v % 0x40]
                       && Top(v, n) == v / 0x40 / 0x40 / 0x40 / 0x40 / 0x40
  {
    if n > 0 {
      Tails(v / 0x40, n - 1);
    }
  }

  /** Every character from 128 on is stored so that decoding gives it back, and in no more
      bytes than it takes. */
  lemma Utf8Decodes(v: nat)
    requires 0x80 <= v < 0x8000_0000
    ensures Utf8Value(Utf8(v)) == Some(v)
    ensures Capacity(|Utf8(v)| - 1) <= v < Capacity(|Utf8(v)|)
  {
    Utf8Parts(v);
    TailFollows(v, |Utf8(v)| - 1);
    hide Followed, Tail, Top;
  }

  // --- numerals --------------------------------------------------------------------------------------

  const DECIMALS: seq<Byte> := [48, 49, 50, 51, 52, 53, 54, 55, 56, 57]

  // %d
  function Decimal(n: nat): (s: seq<Byte>)
    ensures |s| > 0
    decreases n
  {
    if n < 10 then [DECIMALS[n]] else Decimal(n / 10) + [DECIMALS[n % 10]]
  }

  predicate AllIn(s: seq<Byte>, base: nat) {
    forall i :: 0 <= i < |s| ==> DigitIn(s[i], base)
  }

  // One digit more in front.
  lemma DigitsFirst(s: seq<Byte>, base: nat, acc: nat)
    requires s != [] && DigitIn(s[0], base)
    ensures Digits(s, base, acc) == Digits(s[1..], base, acc * base + HexDigit(s[0]))
  {
    hide DigitIn, HexDigit;
  }

  lemma {:induction false} DigitsLast(s: seq<Byte>, d: Byte, base: nat, acc: nat)
    requires AllIn(s, base) && DigitIn(d, base)
    ensures Digits(s + [d], base, acc) == Digits(s, base, acc) * base + HexDigit(d)
    decreases |s|
  {
    hide Digits, HexDigit;
    if s == [] {
      assert s + [d] == [d] && [d][1..] == [];
      DigitsNone(base, acc);
      DigitsFirst([d], base, acc);
      DigitsNone(base, acc * base + HexDigit(d));
    } else {
      var acc1 := acc * base + HexDigit(s[0]);
      assert (s + [d])[1..] == s[1..] + [d];
      DigitsFirst(s, base, acc);
      DigitsFirst(s + [d], base, acc);
      DigitsLast(s[1..], d, base, acc1);
    }
  }

  lemma DigitsNone(base: nat, acc: nat)
    ensures Digits([], base, acc) == acc
  {
  }

  lemma {:induction false} DecimalDigits(n: nat)
    ensures AllIn(Decimal(n), 10) && Digits(Decimal(n), 10, 0) == n
    decreases n
  {
    var d := DECIMALS[n % 10];
    assert DigitIn(d, 10) && HexDigit(d) == n % 10;
    if n < 10 {
      assert [] + [d] == [d];
      DigitsLast([], d, 10, 0);
      DigitsNone(10, 0);
    } else {
      DecimalDigits(n / 10);
      DigitsLast(Decimal(n / 10), d, 10, 0);
    }
  }

  lemma {:induction false} HexDigits(s: seq<Byte>)
    requires AllHex(s)
    ensures AllIn(s, 16) && Digits(s, 16, 0) == HexVal(s)
    decreases |s|
  {
    if s == [] {
      DigitsNone(16, 0);
    } else {
      var k := |s| - 1;
      HexDigits(s[..k]);
      DigitsLast(s[..k], s[k], 16, 0);
      assert s[..k] + [s[k]] == s;
    }
  }

  // strtol takes a numeral without sign or white space for what it is.
  lemma NumeralTaken(s: seq<Byte>, base: nat)
    requires s != [] && AllIn(s, base) && (base == 10 || base == 16)
    ensures StrTol(s, base) == Digits(s, base, 0)
  {
    hide Digits;
    assert forall i :: 0 <= i < |s| ==> DigitIn(s[i], base);
    assert DigitIn(s[0], base) && !Space(s[0]) && s[0] != 45 && s[0] != 43;
    assert |s| > 1 ==> DigitIn(s[1], base);
  }

  // What isspace of the C locale accepts.
  predicate Blank(c: Byte) {
    c == ' ' as int || c == 9 || c == 10 || c == 11 || c == 12 || c == 13
  }

  // What ends a numeral.
  predicate NoDigit(c: Byte, base: nat) {
    && !('0' as int <= c <= '9' as int)
    && (base == 16 ==> !('A' as int <= c <= 'F' as int) && !('a' as int <= c <= 'f' as int))
  }

  lemma {:induction false} DigitsStop(s: seq<Byte>, w: seq<Byte>, base: nat, acc: nat)
    requires base == 10 || base == 16
    requires AllIn(s, base) && (w != [] ==> NoDigit(w[0], base))
    ensures Digits(s + w, base, acc) == Digits(s, base, acc)
    decreases |s|
  {
    if s == [] {
      assert s + w == w;
      StopsHere(w, base, acc);
    } else {
      hide Digits, HexDigit;
      assert (s + w)[1..] == s[1..] + w;
      DigitsFirst(s, base, acc);
      DigitsFirst(s + w, base, acc);
      DigitsStop(s[1..], w, base, acc * base + HexDigit(s[0]));
    }
  }

  lemma StopsHere(w: seq<Byte>, base: nat, acc: nat)
    requires base == 10 || base == 16
    requires w != [] ==> NoDigit(w[0], base)
    ensures Digits(w, base, acc) == acc == Digits([], base, acc)
  {
  }

  lemma {:induction false} BlanksSkipped(blanks: seq<Byte>, s: seq<Byte>)
    requires (forall i :: 0 <= i < |blanks| ==> Blank(blanks[i])) && (s != [] ==> !Blank(s[0]))
    ensures SkipSpace(blanks + s) == s
    decreases |blanks|
  {
    if blanks == [] {
      assert blanks + s == s;
    } else {
      assert (blanks + s)[1..] == blanks[1..] + s;
      BlanksSkipped(blanks[1..], s);
    }
  }

  // The sign a numeral may have, and the prefix of a hexadecimal one.
  function Sign(minus: bool, shown: bool): seq<Byte> {
    if minus then ['-' as int] else if shown then ['+' as int] else []
  }

  predicate Prefixes(u: seq<Byte>, base: nat) {
    base == 16 && |u| > 2 && u[0] == 48 && (u[1] == 120 || u[1] == 88) && IsHex(u[2])
  }

  // A numeral, as what its prefix is taken for.
  lemma PrefixTaken(prefix: seq<Byte>, s: seq<Byte>, w: seq<Byte>, base: nat)
    requires (base == 10 && prefix == []) || (base == 16 && prefix in [[], ['0' as int, 'x' as int], ['0' as int, 'X' as int]])
    requires s != [] && AllIn(s, base) && (w != [] ==> w[0] != 'x' as int && w[0] != 'X' as int)
    ensures var u := prefix + (s + w);
            && u[0] != 45 && u[0] != 43 && !Blank(u[0])
            && (Prefixes(u, base) <==> prefix != []) && (if prefix == [] then u else u[2..]) == s + w
  {
    hide DigitIn;
    var u := prefix + (s + w);
    DigitByte(s[0], base);
    if prefix != [] {
      assert u[2] == s[0] && u[2..] == s + w;
    } else {
      assert u == s + w;
      if |s| > 1 {
        DigitByte(s[1], base);
      }
    }
  }

  // The numeral u behind a sign, and the digits v of it behind its prefix.
  lemma StrTolSteps(full: seq<Byte>, minus: bool, shown: bool, u: seq<Byte>, v: seq<Byte>, base: nat)
    requires SkipSpace(full) == Sign(minus, shown) + u && u != [] && u[0] != 45 && u[0] != 43
    requires v == if Prefixes(u, base) then u[2..] else u
    ensures if minus then StrTol(full, base) + Digits(v, base, 0) == 0 else StrTol(full, base) == Digits(v, base, 0)
  {
    hide Digits, SkipSpace, IsHex;
    var t := Sign(minus, shown) + u;
    assert t[0] == (if minus then 45 else if shown then 43 else u[0]);
    assert (if minus || shown then t[1..] else t) == u;
  }

  /** strtol: white space, a sign, with base 16 a prefix "0x" or "0X", and the digits up to
      the first other character. */
  lemma StrTolExactly(blanks: seq<Byte>, minus: bool, shown: bool, prefix: seq<Byte>, s: seq<Byte>, w: seq<Byte>, base: nat)
    requires forall i :: 0 <= i < |blanks| ==> Blank(blanks[i])
    requires (base == 10 && prefix == []) || (base == 16 && prefix in [[], ['0' as int, 'x' as int], ['0' as int, 'X' as int]])
    requires s != [] && AllIn(s, base) && (w != [] ==> NoDigit(w[0], base) && w[0] != 'x' as int && w[0] != 'X' as int)
    ensures var v := StrTol(blanks + (Sign(minus, shown) + (prefix + (s + w))), base);
            if minus then v + Digits(s, base, 0) == 0 else v == Digits(s, base, 0)
  {
    hide Digits, DigitIn, SkipSpace, AllIn, NoDigit, StrTol, Prefixes;
    var u := prefix + (s + w);
    var t := Sign(minus, shown) + u;
    PrefixTaken(prefix, s, w, base);
    assert t[0] == (if minus then 45 else if shown then 43 else u[0]);
    BlanksSkipped(blanks, t);
    StrTolSteps(blanks + t, minus, shown, u, s + w, base);
    DigitsStop(s, w, base, 0);
  }

  lemma DigitByte(c: Byte, base: nat)
    requires DigitIn(c, base) && (base == 10 || base == 16)
    ensures c != 45 && c != 43 && c != 120 && c != 88 && !Blank(c) && IsHex(c)
  {
  }

  function Pow10(k: nat): nat {
    if k == 0 then 1 else 10 * Pow10(k - 1)
  }

  lemma {:induction false} DecimalLength(n: nat, k: nat)
    requires k > 0
    ensures |Decimal(n)| <= k <==> n < Pow10(k)
    decreases k
  {
    if n >= 10 {
      if k > 1 {
        DecimalLength(n / 10, k - 1);
      }
    } else {
      Pow10Big(k);
    }
  }

  lemma Pow10Big(k: nat)
    requires k > 0
    ensures Pow10(k) >= 10
  {
  }

  lemma {:induction false} HexLengthExactly(n: nat, k: nat)
    requires k > 0
    ensures |LowerHexOf(n)| <= k <==> n < Pow16(k)
    decreases k
  {
    if n >= 16 {
      if k > 1 {
        HexLengthExactly(n / 16, k - 1);
      }
    } else {
      Pow16Big(k);
    }
  }

  lemma Pow16Big(k: nat)
    requires k > 0
    ensures Pow16(k) >= 16
  {
  }

  // --- references --------------------------------------------------------------------------------------

  // The text of a reference by number: "&#" or "&#x", a numeral and a semicolon.
  function DecimalName(v: nat): seq<Byte> {
    [C_HASH] + Decimal(v)
  }

  function HexName(x: Byte, digits: seq<Byte>): seq<Byte> {
    [C_HASH, x] + digits
  }

  function RefOf(name: seq<Byte>): seq<Byte> {
    [C_AMP] + (name + [C_SEMI])
  }

  lemma DecimalValue(v: nat)
    ensures RefValue(DecimalName(v)) == v && C_SEMI !in DecimalName(v)
  {
    hide StrTol, CString, Decimal;
    DecimalDigits(v);
    NumeralTaken(Decimal(v), 10);
    var name := DecimalName(v);
    assert forall i :: 0 <= i < |Decimal(v)| ==> DigitIn(Decimal(v)[i], 10);
    assert 0 !in name;
    NoNulString(name);
    assert name[1..] == Decimal(v) && name[1] == Decimal(v)[0];
  }

  lemma HexValue(x: Byte, digits: seq<Byte>)
    requires (x == 120 || x == 88) && digits != [] && AllHex(digits)
    ensures RefValue(HexName(x, digits)) == HexVal(digits) && C_SEMI !in HexName(x, digits)
  {
    hide StrTol, CString, HexVal;
    HexDigits(digits);
    NumeralTaken(digits, 16);
    var name := HexName(x, digits);
    assert forall i :: 0 <= i < |digits| ==> IsHex(digits[i]);
    assert 0 !in name;
    NoNulString(name);
    assert name[2..] == digits;
  }

  /** The five predefined references of section 4.6 of XML 1.0. */
  lemma Predefined()
    ensures RefValue(['a' as int, 'm' as int, 'p' as int]) == '&' as int
    ensures RefValue(['l' as int, 't' as int]) == '<' as int && RefValue(['g' as int, 't' as int]) == '>' as int
    ensures RefValue(['q' as int, 'u' as int, 'o' as int, 't' as int]) == '"' as int
    ensures RefValue(['a' as int, 'p' as int, 'o' as int, 's' as int]) == '\'' as int
  {
    hide Entities.CodeOf;
    var amp, lt, gt := ['a' as int, 'm' as int, 'p' as int], ['l' as int, 't' as int], ['g' as int, 't' as int];
    var quot, apos := ['q' as int, 'u' as int, 'o' as int, 't' as int], ['a' as int, 'p' as int, 'o' as int, 's' as int];
    NoNulString(amp);
    NoNulString(lt);
    NoNulString(gt);
    NoNulString(quot);
    NoNulString(apos);
    assert R_LT[..2] == lt && R_GT[..2] == gt && R_AMP[..3] == amp && R_QUOT[..4] == quot;
  }

  // A name of seven bytes or more leaves its end in the stream.
  lemma LongName(name: seq<Byte>, w: seq<Byte>)
    requires |name| >= 7 && C_SEMI !in name
    ensures Next(In(0, RefOf(name) + w, false)).1.rest != w
  {
    hide RefValue;
    var v := name + [C_SEMI] + w;
    assert (RefOf(name) + w)[1..] == v;
    NameSeven(name, [C_SEMI] + w, 7);
    assert v == name + ([C_SEMI] + w);
  }

  lemma {:induction false} NameSeven(name: seq<Byte>, w: seq<Byte>, n: nat)
    requires |name| >= n && C_SEMI !in name
    ensures NameLen(name + w, n) == n
    decreases n
  {
    if n > 0 {
      assert (name + w)[1..] == name[1..] + w;
      assert name[0] in name;
      NameSeven(name[1..], w, n - 1);
    }
  }

  /** "&#" and a decimal numeral is read as exactly that character if and only if the
      numeral has at most five digits: of a longer one at least the semicolon is left. */
  lemma DecimalReadsExactly(v: nat, w: seq<Byte>)
    ensures Next(In(0, RefOf(DecimalName(v)) + w, false)) == (Mark(v), In(0, w, false)) <==> v < 100000
  {
    hide Next, RefValue, Decimal;
    DecimalValue(v);
    DecimalLength(v, 5);
    assert Pow10(5) == 100000;
    if v < 100000 {
      RefReads(DecimalName(v), w);
    } else {
      LongName(DecimalName(v), w);
    }
  }

  /** "&#x" (or "&#X") and a hexadecimal numeral in letters of any case is, if and only if
      it has at most four digits. */
  lemma HexReadsExactly(x: Byte, v: nat, digits: seq<Byte>, w: seq<Byte>)
    requires x == 120 || x == 88
    requires |digits| == |LowerHexOf(v)| && forall i :: 0 <= i < |digits| ==> SameDigit(LowerHexOf(v)[i], digits[i])
    ensures Next(In(0, RefOf(HexName(x, digits)) + w, false)) == (Mark(v), In(0, w, false)) <==> v < 0x1_0000
  {
    hide Next, RefValue, LowerHexOf, HexVal;
    LowerHexRoundTrip(v);
    HexCase(LowerHexOf(v), digits);
    HexValue(x, digits);
    HexLengthExactly(v, 4);
    assert Pow16(4) == 0x1_0000;
    if v < 0x1_0000 {
      RefReads(HexName(x, digits), w);
    } else {
      LongName(HexName(x, digits), w);
    }
  }

  /** In element text such a character is stored in UTF-8, below 128 as itself. */
  lemma TextReference(st: In, v: nat, st1: In, n: nat)
    requires v < 100000 && Next(st) == (Mark(v), st1)
    ensures Content(st, n, true) == Prefixed(if v < 128 then [v] else Utf8(v), Content(st1, n, true))
  {
    hide Next, Utf8;
    assert Mark(v) == v - 0x8000_0000;
    assert v < 128 ==> Mark(v) % 256 == v;
  }

  /** In an attribute value only its low eight bits are stored, so that the value is read
      in UTF-8 if and only if the character is below 128. */
  lemma ValueReference(st: In, v: nat, st1: In, d: XmlAttr.Delimiter)
    requires v < 100000 && Next(st) == (Mark(v), st1)
    ensures XmlAttr.Value(st, d) == XmlAttr.Prefixed([v % 256], XmlAttr.Value(st1, d))
    ensures [v % 256] == (if v < 128 then [v] else Utf8(v)) <==> v < 128
  {
    hide Next;
    assert Mark(v) % 256 == v % 256;
    assert v >= 128 ==> |Utf8(v)| >= 2;
  }

  /** Such references in element text are read as what they stand for, and the text goes
      on behind them. */
  lemma NumberInText(v: nat, w: seq<Byte>, n: nat)
    requires v < 100000
    ensures Content(In(0, RefOf(DecimalName(v)) + w, false), n, true)
            == Prefixed(if v < 128 then [v] else Utf8(v), Content(In(0, w, false), n, true))
  {
    hide Content, Utf8, Next;
    DecimalReadsExactly(v, w);
    TextReference(In(0, RefOf(DecimalName(v)) + w, false), v, In(0, w, false), n);
  }
}
