/** The conversion of a base64 string into a buffer (soap_base642s). */
module Base64String {
  import opened Wire
  import opened XmlToken
  import opened Base64

  const BLKLEN: nat := 256  // SOAP_BLKLEN

  // Up to four digits of a string, white space between them being skipped.
  datatype Quad = Four(m: nat, rest: seq<Byte>) | Fewer(m: nat, j: nat) | Wrong

  function ReadQuad(s: seq<Byte>, m: nat, j: nat): (q: Quad)
    requires j <= 4
    ensures q.Four? ==> |q.rest| + 4 - j <= |s|
    ensures q.Fewer? ==> j <= q.j <= 3 && q.j - j <= |s|
    decreases |s|
  {
    if j == 4 then Four(m, s)
    else if s == [] || s[0] == EQUAL then Fewer(m, j)
    else if 43 <= s[0] <= 122 then
      if Sextet(s[0]) >= 64 then Wrong else ReadQuad(s[1..], m * 64 + Sextet(s[0]), j + 1)
    else if s[0] <= 32 then ReadQuad(s[1..], m, j)
    else Wrong
  }

  function Prefixed(p: seq<Byte>, d: Option<seq<Byte>>): Option<seq<Byte>> {
    if d.None? then None else Some(p + d.value)
  }

  // The bytes a string stands for.
  function Decode(s: seq<Byte>): Option<seq<Byte>>
    decreases |s|
  {
    match ReadQuad(s, 0, 0)
    case Wrong => None
    case Four(m, rest) => Prefixed(Bytes3(m), Decode(rest))
    case Fewer(m, j) => Some(Tail(m, j))
  }

  // The loop that collects four digits, from place p of the string on.
  method GetQuad(s: seq<Byte>, p0: nat) returns (m: nat, j: nat, p: nat, bad: bool)
    requires 0 !in s && p0 <= |s|
    ensures var q := ReadQuad(s[p0..], 0, 0);
            && (bad <==> q.Wrong?)
            && (!bad ==> p <= |s| && if j == 4 then q == Four(m, s[p..]) else q == Fewer(m, j))
  {
    m, j, p, bad := 0, 0, p0, false;
    while j < 4
      invariant j <= 4 && p <= |s| && ReadQuad(s[p..], m, j) == ReadQuad(s[p0..], 0, 0)
      decreases |s| - p
    {
      var c := if p < |s| then s[p] else 0;
      assert p < |s| ==> s[p..][0] == s[p] && s[p..][1..] == s[p + 1..];
      assert p < |s| ==> c in s;
      p := if p < |s| then p + 1 else p;
      if c == EQUAL || c == 0 {
        return;
      }
      if 43 <= c <= 122 {
        var b := Sextet(c);
        if b >= 64 {
          bad := true;
          return;
        }
        m := m * 64 + b;
        j := j + 1;
      } else if c > 32 {
        bad := true;
        return;
      }
    }
  }

  // d has been decoded into the buffer; the rest of the string is still to come.
  ghost predicate Going(goal: Option<seq<Byte>>, got: seq<Byte>, rest: seq<Byte>) {
    goal == Prefixed(got, Decode(rest))
  }

  lemma GoingStep(goal: Option<seq<Byte>>, got: seq<Byte>, rest: seq<Byte>)
    requires Going(goal, got, rest)
    ensures var q := ReadQuad(rest, 0, 0);
            && (q.Wrong? ==> goal.None?)
            && (q.Four? ==> Going(goal, got + Bytes3(q.m), q.rest) && |q.rest| + 4 <= |rest|)
            && (q.Fewer? ==> goal == Some(got + Tail(q.m, q.j)) && q.j <= |rest|)
  {
    hide ReadQuad, Bytes3, Tail;
    var q := ReadQuad(rest, 0, 0);
    if q.Four? && Decode(q.rest).Some? {
      assert got + (Bytes3(q.m) + Decode(q.rest).value) == got + Bytes3(q.m) + Decode(q.rest).value;
    }
  }

  // The bytes of a group that was cut short, and the NUL behind them.
  method StoreTail(t: array<Byte>, at: nat, m: nat, j: nat) returns (more: nat)
    requires at < t.Length && (j > 0 ==> at + 3 < t.Length)
    modifies t
    ensures at + more < t.Length && t[at + more] == 0 && t[..at + more] == old(t[..at]) + Tail(m, j)
  {
    more := 0;
    if j == 2 {
      t[at] := m / 16 % 256;
      more := 1;
    } else if j == 3 {
      t[at] := m / 1024 % 256;
      t[at + 1] := m / 4 % 256;
      more := 2;
    }
    t[at + more] := 0;
    assert t[..at + more] == old(t[..at]) + Tail(m, j);
  }

  method StoreGroup(t: array<Byte>, at: nat, m: nat)
    requires at + 2 < t.Length
    modifies t
    ensures t[..at + 3] == old(t[..at]) + Bytes3(m)
  {
    t[at] := m / 0x1_0000 % 256;
    t[at + 1] := m / 0x100 % 256;
    t[at + 2] := m % 256;
    assert t[..at + 3] == old(t[..at]) + Bytes3(m);
  }

  /** soap_base642s, the buffer being allocated: its computed size always suffices,
      so the return that truncates the output is never taken. */
  method Base642S(s: seq<Byte>) returns (ok: bool, t: array<Byte>, n: nat)
    requires 0 !in s
    ensures ok <==> Decode(s).Some?
    ensures fresh(t)
    ensures ok ==> n < t.Length && t[n] == 0 && Decode(s) == Some(t[..n])
  {
    hide Decode, Going, ReadQuad, Bytes3, Tail;
    ghost var goal := Decode(s);
    assert s[0..] == s;
    if s == [] {
      DecodeNothing();
      t := new Byte[1](_ => 0);
      return true, t, 0;
    }
    var l := (|s| + 3) / 4 * 3 + 1;
    t := new Byte[l](_ => 0);
    var p, at, i := 0, 0, 0;
    n := 0;
    GoingStart(s, t[..0]);
    while true
      invariant 0 <= i < BLKLEN && at == n + 3 * i && at + l == t.Length
      invariant p <= |s| && 4 * (at / 3) <= p && at % 3 == 0
      invariant Going(goal, t[..at], s[p..])
      decreases |s| - p
    {
      ghost var before := t[..at];
      GoingStep(goal, before, s[p..]);
      ghost var p0 := p;
      var m, j, bad;
      m, j, p, bad := GetQuad(s, p);
      if bad {
        return false, t, 0;
      }
      Room(|s|, p0, at, l, j);
      if j < 4 {
        var more := StoreTail(t, at, m, j);
        n := n + 3 * i + more;
        return true, t, n;
      }
      assert l >= 3;
      StoreGroup(t, at, m);
      at := at + 3;
      l := l - 3;
      i := i + 1;
      if i == BLKLEN {
        n := n + 3 * BLKLEN;
        i := 0;
      }
    }
  }

  lemma DecodeNothing()
    ensures Decode([]) == Some([])
  {
  }

  lemma GoingStart(s: seq<Byte>, none: seq<Byte>)
    requires none == []
    ensures Going(Decode(s), none, s)
  {
    assert Decode(s).Some? ==> none + Decode(s).value == Decode(s).value;
  }

  // at bytes came from at least 4/3 as many digits; j more digits leave room for theirs.
  lemma Room(len: nat, p: nat, at: nat, l: int, j: nat)
    requires 4 * (at / 3) <= p && at % 3 == 0 && at + l == (len + 3) / 4 * 3 + 1 && p + j <= len
    ensures l >= 1 && (j > 0 ==> l >= 4)
  {
    var g := at / 3;
    assert at == 3 * g;
    assert j > 0 ==> (len + 3) / 4 >= g + 1;
  }

  // --- the round trip ------------------------------------------------------------------------------

  lemma DigitStep(v: nat, w: seq<Byte>, m: nat, j: nat)
    requires v < 64 && j < 4
    ensures ReadQuad([Digit(v)] + w, m, j) == ReadQuad(w, m * 64 + v, j + 1)
  {
    DigitRead(v);
    assert ([Digit(v)] + w)[1..] == w;
  }

  lemma QuadReads(m: nat, w: seq<Byte>)
    requires m < 0x100_0000
    ensures ReadQuad(Digits4(m) + w, 0, 0) == Four(m, w)
  {
    hide Digit, ReadQuad;
    var a, b, c, d := m / 0x4_0000 % 64, m / 0x1000 % 64, m / 64 % 64, m % 64;
    var w3 := [Digit(d)] + w;
    var w2 := [Digit(c)] + w3;
    var w1 := [Digit(b)] + w2;
    assert Digits4(m) + w == [Digit(a)] + w1;
    DigitStep(a, w1, 0, 0);
    DigitStep(b, w2, a, 1);
    DigitStep(c, w3, a * 64 + b, 2);
    DigitStep(d, w, (a * 64 + b) * 64 + c, 3);
    SplitGroup(m);
    QuadEnds(m, 4, w);
  }

  lemma QuadEnds(m: nat, j: nat, w: seq<Byte>)
    requires j <= 4
    ensures ReadQuad(w, m, 4) == Four(m, w)
    ensures j < 4 ==> ReadQuad([EQUAL] + w, m, j) == Fewer(m, j)
  {
  }

  lemma TailReads(a: Byte, b: Byte, two: bool, w: seq<Byte>)
    ensures var m := Group(a, if two then b else 0, 0);
            var j := if two then 3 else 2;
            exists q :: ReadQuad(Digits4(m)[..j] + ([EQUAL] + w), 0, 0) == Fewer(q, j) && Tail(q, j) == if two then [a, b] else [a]
  {
    hide Digit, ReadQuad;
    var m := Group(a, if two then b else 0, 0);
    var x, y, z := m / 0x4_0000 % 64, m / 0x1000 % 64, m / 64 % 64;
    var end := [EQUAL] + w;
    if two {
      var w2 := [Digit(z)] + end;
      var w1 := [Digit(y)] + w2;
      assert Digits4(m)[..3] + end == [Digit(x)] + w1;
      DigitStep(x, w1, 0, 0);
      DigitStep(y, w2, x, 1);
      DigitStep(z, end, x * 64 + y, 2);
      QuadEnds((x * 64 + y) * 64 + z, 3, w);
      TailOfTwo(a, b);
    } else {
      var w1 := [Digit(y)] + end;
      assert Digits4(m)[..2] + end == [Digit(x)] + w1;
      DigitStep(x, w1, 0, 0);
      DigitStep(y, end, x, 1);
      QuadEnds(x * 64 + y, 2, w);
      TailOfOne(a);
    }
  }

  /** The string soap_s2base64 makes stands for the bytes it was made from. */
  lemma {:induction false} StringReadBack(s: seq<Byte>)
    ensures Decode(Encode(s)) == Some(s)
  {
    hide ReadQuad, Digits4, Tail, Bytes3, Group;
    if s == [] {
      DecodeNothing();
    } else if |s| < 3 {
      var two := |s| == 2;
      var b: Byte := if two then s[1] else 0;
      var w := if two then [] else [EQUAL];
      TailReads(s[0], b, two, w);
      assert Encode(s) == Digits4(Group(s[0], b, 0))[..|s| + 1] + ([EQUAL] + w);
      assert s == if two then [s[0], b] else [s[0]];
    } else {
      var m := Group(s[0], s[1], s[2]);
      GroupBytes(s[0], s[1], s[2]);
      QuadReads(m, Encode(s[3..]));
      StringReadBack(s[3..]);
      assert s == [s[0], s[1], s[2]] + s[3..];
    }
  }

  // --- white space -----------------------------------------------------------------------------------

  function Thin(s: seq<Byte>): (t: seq<Byte>)
    ensures |t| <= |s|
  {
    if s == [] then [] else (if s[0] <= 32 then [] else [s[0]]) + Thin(s[1..])
  }

  lemma ThinFirst(s: seq<Byte>)
    requires s != []
    ensures s[0] <= 32 ==> Thin(s) == Thin(s[1..])
    ensures s[0] > 32 ==> Thin(s) != [] && Thin(s)[0] == s[0] && Thin(s)[1..] == Thin(s[1..])
  {
  }

  // What the first character does to a group.
  lemma QuadFirst(s: seq<Byte>, m: nat, j: nat)
    requires j < 4 && s != []
    ensures s[0] <= 32 ==> ReadQuad(s, m, j) == ReadQuad(s[1..], m, j)
    ensures s[0] == EQUAL ==> ReadQuad(s, m, j) == Fewer(m, j)
    ensures 43 <= s[0] <= 122 && s[0] != EQUAL ==>
              ReadQuad(s, m, j) == if Sextet(s[0]) >= 64 then Wrong else ReadQuad(s[1..], m * 64 + Sextet(s[0]), j + 1)
    ensures 32 < s[0] < 43 || 122 < s[0] ==> ReadQuad(s, m, j) == Wrong
  {
    hide Sextet;
  }

  lemma {:induction false} QuadThin(s: seq<Byte>, m: nat, j: nat)
    requires j <= 4
    ensures var q, r := ReadQuad(s, m, j), ReadQuad(Thin(s), m, j);
            && (q.Wrong? ==> r.Wrong?) && (q.Fewer? ==> r == q) && (q.Four? ==> r == Four(q.m, Thin(q.rest)))
    decreases |s|
  {
    hide Sextet, ReadQuad, Thin;
    if j == 4 || s == [] {
      QuadLast(s, m, j);
    } else {
      ThinFirst(s);
      QuadFirst(s, m, j);
      if s[0] <= 32 {
        QuadThin(s[1..], m, j);
      } else {
        QuadFirst(Thin(s), m, j);
        if 43 <= s[0] <= 122 && Sextet(s[0]) < 64 {
          QuadThin(s[1..], m * 64 + Sextet(s[0]), j + 1);
        }
      }
    }
  }

  lemma QuadLast(s: seq<Byte>, m: nat, j: nat)
    requires j == 4 || (j < 4 && s == [])
    ensures ReadQuad(s, m, j) == if j == 4 then Four(m, s) else Fewer(m, j)
    ensures ReadQuad(Thin(s), m, j) == if j == 4 then Four(m, Thin(s)) else Fewer(m, j)
  {
  }

  // White space anywhere does not matter.
  lemma {:induction false} DecodeThin(s: seq<Byte>)
    ensures Decode(s) == Decode(Thin(s))
    decreases |s|
  {
    hide ReadQuad, Thin, Bytes3, Tail;
    QuadThin(s, 0, 0);
    var q := ReadQuad(s, 0, 0);
    if q.Four? {
      DecodeThin(q.rest);
    }
  }

  /** White space put into the encoding anywhere is skipped. */
  lemma BlanksSkipped(s: seq<Byte>, w: seq<Byte>)
    requires Thin(w) == Encode(s)
    ensures Decode(w) == Some(s)
  {
    hide Decode, Encode, Thin;
    DecodeThin(w);
    StringReadBack(s);
  }

  // --- the two decoders agree ----------------------------------------------------------------------------

  // The end of an element behind a text.
  function Closed(w: seq<Byte>, more: seq<Byte>): In {
    In(0, w + ([C_LT, C_SLASH] + more), false)
  }

  lemma PlainTail(w: seq<Byte>)
    requires w != [] && Plain(w)
    ensures Plain(w[1..]) && Token(w[0]) == w[0] && w[0] != C_LT && w[0] != C_AMP
  {
    assert w[0] in w;
    assert forall c :: c in w[1..] ==> c in w;
  }

  // The next token of such a text.
  lemma ClosedNext(w: seq<Byte>, more: seq<Byte>)
    requires Plain(w)
    ensures Next(Closed(w, more)) == if w == [] then (END_TAG, In(0, more, false)) else (w[0] as int, Closed(w[1..], more))
  {
    hide Next;
    if w == [] {
      EndTagReads(more);
      assert w + ([C_LT, C_SLASH] + more) == [C_LT, C_SLASH] + more;
    } else {
      PlainTail(w);
      PlainReads(w[0], w[1..] + ([C_LT, C_SLASH] + more));
      assert w + ([C_LT, C_SLASH] + more) == [w[0]] + (w[1..] + ([C_LT, C_SLASH] + more));
    }
  }

  lemma {:induction false} SkipsPlain(w: seq<Byte>, more: seq<Byte>)
    requires Plain(w)
    ensures SkipToTag(Closed(w, more)) == (END_TAG, In(0, more, false))
    decreases |w|
  {
    hide Next, Closed;
    ClosedNext(w, more);
    if w != [] {
      PlainTail(w);
      SkipsPlain(w[1..], more);
    }
  }

  // What a group read from XML is, by the group read from the string.
  ghost predicate SameQuad(x: Base64.Quad, q: Quad, more: seq<Byte>) {
    match q
    case Wrong => x.Bad?
    case Four(m, rest) => Plain(rest) && x == Full(m, Closed(rest, more))
    case Fewer(m, j) =>
      || x == Ended(m, j, END_TAG, In(0, more, false))
      || (x.Ended? && x.m == m && x.j == j && x.c == EQUAL && SkipToTag(x.st) == (END_TAG, In(0, more, false)))
  }

  lemma {:induction false} QuadsAgree(w: seq<Byte>, more: seq<Byte>, m: nat, j: nat)
    requires Plain(w) && j <= 4
    ensures SameQuad(Base64.ReadQuad(Closed(w, more), m, j), ReadQuad(w, m, j), more)
    decreases |w|
  {
    hide Next, Closed, Sextet, SkipToTag;
    ClosedNext(w, more);
    if j < 4 && w != [] {
      PlainTail(w);
      if w[0] == EQUAL {
        SkipsPlain(w[1..], more);
      } else if w[0] <= 32 {
        QuadsAgree(w[1..], more, m, j);
      } else if 43 <= w[0] <= 122 && Sextet(w[0]) < 64 {
        QuadsAgree(w[1..], more, m * 64 + Sextet(w[0]), j + 1);
      }
    }
  }

  /** Element text without markup is decoded as the string it is, or refused as it is. */
  lemma {:induction false} DecodersAgree(w: seq<Byte>, more: seq<Byte>)
    requires Plain(w)
    ensures Base64.Decode(Closed(w, more))
            == if Decode(w).None? then Invalid else Decoded(Decode(w).value, In(END_TAG, more, false))
    decreases |w|
  {
    hide ReadQuad, Base64.ReadQuad, Closed, SkipToTag, Bytes3, Tail, Plain;
    QuadsAgree(w, more, 0, 0);
    var q := ReadQuad(w, 0, 0);
    if q.Four? {
      DecodersAgree(q.rest, more);
    }
  }

  /** So is an encoding with white space put in anywhere. */
  lemma BlanksSkippedInXml(s: seq<Byte>, w: seq<Byte>, more: seq<Byte>)
    requires Thin(w) == Encode(s)
    ensures Base64.Decode(Closed(w, more)) == Decoded(s, In(END_TAG, more, false))
  {
    hide Decode, Base64.Decode, Encode, Closed;
    BlanksSkipped(s, w);
    EncodePlain(s);
    ThinPlain(w);
    DecodersAgree(w, more);
  }

  lemma {:induction false} ThinPlain(w: seq<Byte>)
    requires Plain(Thin(w))
    ensures Plain(w)
    decreases |w|
  {
    if w != [] {
      assert w[0] in w;
      if w[0] > 32 {
        PlainTail(Thin(w));
        assert Thin(w)[1..] == Thin(w[1..]);
      } else {
        assert Thin(w) == Thin(w[1..]);
      }
      ThinPlain(w[1..]);
      assert w == [w[0]] + w[1..];
    }
  }

  // --- the alphabet ----------------------------------------------------------------------------------------

  /** The digits are those of table 1 of RFC 4648. */
  lemma Alphabet(v: nat)
    requires v < 64
    ensures v < 26 ==> Digit(v) == 'A' as int + v
    ensures 26 <= v < 52 ==> Digit(v) == 'a' as int + (v - 26)
    ensures 52 <= v < 62 ==> Digit(v) == '0' as int + (v - 52)
    ensures v == 62 ==> Digit(v) == '+' as int
    ensures v == 63 ==> Digit(v) == '/' as int
  {
  }

  /** Test vectors of section 10 of RFC 4648: "f", "fo" and "foo". */
  lemma KnownEncodings()
    ensures Encode([102]) == [90, 103, 61, 61] && Encode([102, 111]) == [90, 109, 56, 61]
    ensures Encode([102, 111, 111]) == [90, 109, 57, 118]
  {
    KnownShort();
    KnownGroup();
    EncodeNothing([]);
    assert [102, 111, 111][3..] == [];
  }

  lemma KnownShort()
    ensures Digits4(Group(102, 0, 0))[..2] == [90, 103] && Digits4(Group(102, 111, 0))[..3] == [90, 109, 56]
  {
  }

  lemma KnownGroup()
    ensures Digits4(Group(102, 111, 111)) == [90, 109, 57, 118]
  {
  }
}
