/** Bytes, as they travel, and the hexadecimal numerals of the chunk headers. */
module Wire {

  type Byte = x: int | 0 <= x < 256

  datatype Option<T> = None | Some(value: T)

  const CR: Byte := 13
  const LF: Byte := 10

  // A buffer as a C string: up to its first NUL.
  function CString(s: seq<Byte>): (r: seq<Byte>)
    ensures r <= s && 0 !in r && (|r| < |s| ==> s[|r|] == 0)
  {
    if s == [] || s[0] == 0 then [] else [s[0]] + CString(s[1..])
  }

  lemma NoNulString(s: seq<Byte>)
    requires 0 !in s
    ensures CString(s) == s
  {
    hide CString;
    assert forall i: nat :: i < |s| ==> s[i] in s;
  }

  // soap_wchar value of EOF
  const EOF: int := -1

  // size_t and unsigned long of the 32-bit build
  const SIZE_LIMIT: nat := 0x1_0000_0000

  // A char of the buffer as soap_getchunkchar returns it: char is signed.
  function Signed(b: Byte): (c: int)
    ensures c == EOF <==> b == 255
    ensures 0 <= b < 128 ==> c == b
  {
    if b < 128 then b else b - 256
  }

  // soap_isxdigit
  predicate IsHex(c: int) {
    48 <= c <= 57 || 65 <= c <= 70 || 97 <= c <= 102
  }

  function HexDigit(c: int): (d: nat)
    requires IsHex(c)
    ensures d < 16
  {
    if c <= 57 then c - 48 else if c <= 70 then c - 55 else c - 87
  }

  predicate AllHex(s: seq<Byte>) {
    forall i :: 0 <= i < |s| ==> IsHex(s[i])
  }

  // The number a sequence of hex digits denotes, most significant digit first.
  function HexVal(s: seq<Byte>): nat
    requires AllHex(s)
  {
    if s == [] then 0 else 16 * HexVal(s[..|s| - 1]) + HexDigit(s[|s| - 1])
  }

  // %X
  function HexOf(n: nat): (s: seq<Byte>)
    ensures |s| > 0
    decreases n
  {
    var d: Byte := if n % 16 < 10 then 48 + n % 16 else 55 + n % 16;
    if n < 16 then [d] else HexOf(n / 16) + [d]
  }

  lemma {:induction false} HexRoundTrip(n: nat)
    ensures AllHex(HexOf(n)) && HexVal(HexOf(n)) == n
    decreases n
  {
    var d: Byte := if n % 16 < 10 then 48 + n % 16 else 55 + n % 16;
    assert IsHex(d) && HexDigit(d) == n % 16;
    if n < 16 {
      assert HexVal([d]) == 16 * HexVal([d][..0]) + HexDigit([d][0]);
    } else {
      HexRoundTrip(n / 16);
      var s := HexOf(n / 16);
      assert (s + [d])[..|s|] == s;
    }
  }

  // "0123456789abcdef"
  const LOWER_DIGITS: seq<Byte> := [48, 49, 50, 51, 52, 53, 54, 55, 56, 57, 97, 98, 99, 100, 101, 102]

  // %x
  function LowerHexOf(n: nat): (s: seq<Byte>)
    ensures |s| > 0
    decreases n
  {
    if n < 16 then [LOWER_DIGITS[n]] else LowerHexOf(n / 16) + [LOWER_DIGITS[n % 16]]
  }

  /** A numeral in small letters denotes its number. */
  lemma {:induction false} LowerHexRoundTrip(n: nat)
    ensures AllHex(LowerHexOf(n)) && HexVal(LowerHexOf(n)) == n
    decreases n
  {
    var d := LOWER_DIGITS[n % 16];
    assert IsHex(d) && HexDigit(d) == n % 16;
    if n < 16 {
      assert HexVal([d]) == 16 * HexVal([d][..0]) + HexDigit([d][0]);
    } else {
      LowerHexRoundTrip(n / 16);
      var s := LowerHexOf(n / 16);
      assert (s + [d])[..|s|] == s;
    }
  }

  // The same digit, or the same letter in the other case.
  predicate SameDigit(a: Byte, b: Byte) {
    a == b || (65 <= a <= 70 && b == a + 32) || (65 <= b <= 70 && a == b + 32)
  }

  /** The case of its letters does not change what a numeral denotes. */
  lemma {:induction false} HexCase(s: seq<Byte>, t: seq<Byte>)
    requires AllHex(s) && |t| == |s| && forall i :: 0 <= i < |s| ==> SameDigit(s[i], t[i])
    ensures AllHex(t) && HexVal(t) == HexVal(s)
  {
    assert forall i :: 0 <= i < |s| ==> SameDigit(s[i], t[i]) && IsHex(t[i]) && HexDigit(t[i]) == HexDigit(s[i]);
    if s != [] {
      HexCase(s[..|s| - 1], t[..|t| - 1]);
    }
  }

  lemma {:induction false} LowerHexLength(n: nat, k: nat)
    requires n < Pow16(k) && k > 0
    ensures |LowerHexOf(n)| <= k
  {
    if n >= 16 {
      assert k > 1;
      LowerHexLength(n / 16, k - 1);
    }
  }

  function Pow16(k: nat): nat {
    if k == 0 then 1 else 16 * Pow16(k - 1)
  }

  lemma {:induction false} HexLength(n: nat, k: nat)
    requires n < Pow16(k) && k > 0
    ensures |HexOf(n)| <= k
  {
    if n >= 16 {
      assert k > 1;
      HexLength(n / 16, k - 1);
    }
  }

  function Concat(ss: seq<seq<Byte>>): seq<Byte> {
    if ss == [] then [] else ss[0] + Concat(ss[1..])
  }

  lemma {:induction false} ConcatAppend(ss: seq<seq<Byte>>, s: seq<Byte>)
    ensures Concat(ss + [s]) == Concat(ss) + s
  {
    if ss == [] {
      assert ss + [s] == [s];
      assert [s][1..] == [];
    } else {
      ConcatAppend(ss[1..], s);
      assert (ss + [s])[1..] == ss[1..] + [s];
    }
  }

  lemma ModUnique(m: nat, z: nat)
    requires z < 0x1_0000
    ensures (0x1_0000 * m + z) % 0x1_0000 == z
  {
  }

  // The low sixteen bits are the two low bytes.
  lemma LowSixteen(n: nat)
    ensures 0x100 * (n / 0x100 % 0x100) + n % 0x100 == n % 0x1_0000
  {
    var q := n / 0x100;
    ModUnique(q / 0x100, 0x100 * (q % 0x100) + n % 0x100);
  }
}
