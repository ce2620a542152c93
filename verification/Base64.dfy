/** Base64: written group by group, read back from XML text into the look-aside
    buffer, and the two conversions of strings. */
module Base64 {
  import opened Wire
  import opened Input
  import opened XmlToken
  import opened Lab

  const EQUAL: Byte := 61

  // soap_base64o
  function Digit(v: nat): Byte
    requires v < 64
  {
    if v < 26 then 65 + v else if v < 52 then 71 + v else if v < 62 then v - 4 else if v == 62 then 43 else 47
  }

  const INVALID: nat := 88

  // soap_base64i[c - '+']
  function Sextet(c: int): (v: nat)
    requires 43 <= c <= 122
    ensures v < 64 || v == INVALID
  {
    if c == 43 then 62 else if c == 47 then 63
    else if 48 <= c <= 57 then c + 4
    else if 65 <= c <= 90 then c - 65
    else if 97 <= c <= 122 then c - 71
    else INVALID
  }

  lemma DigitRead(v: nat)
    requires v < 64
    ensures 43 <= Digit(v) <= 122 && Sextet(Digit(v)) == v && Digit(v) != EQUAL
  {
  }

  /** A character is a digit if and only if it is the digit of its value. */
  lemma SextetExactly(c: int)
    requires 43 <= c <= 122
    ensures Sextet(c) < 64 <==> exists v: nat :: v < 64 && Digit(v) == c
    ensures Sextet(c) < 64 ==> Digit(Sextet(c)) == c
  {
    if Sextet(c) < 64 {
      assert Digit(Sextet(c)) == c;
    } else {
      forall v: nat | v < 64
        ensures Digit(v) != c
      {
        DigitRead(v);
      }
    }
  }

  // --- writing -----------------------------------------------------------------------------------

  // The four digits of a 24 bit group.
  function Digits4(m: nat): (d: seq<Byte>)
    ensures |d| == 4
  {
    [Digit(m / 0x4_0000 % 64), Digit(m / 0x1000 % 64), Digit(m / 64 % 64), Digit(m % 64)]
  }

  function Group(a: Byte, b: Byte, c: Byte): nat {
    0x1_0000 * a as int + 0x100 * b as int + c as int
  }

  function Encode(s: seq<Byte>): seq<Byte> {
    if s == [] then []
    else if |s| == 1 then Digits4(Group(s[0], 0, 0))[..2] + [EQUAL, EQUAL]
    else if |s| == 2 then Digits4(Group(s[0], s[1], 0))[..3] + [EQUAL]
    else Digits4(Group(s[0], s[1], s[2])) + Encode(s[3..])
  }

  // for (i = 4; i > 0; m >>= 6) d[--i] = soap_base64o[m & 0x3F];
  method PutDigits(d: array<Byte>, at: nat, m0: nat)
    requires at + 4 <= d.Length
    modifies d
    ensures d[at..at + 4] == Digits4(m0) && d[..at] == old(d[..at]) && d[at + 4..] == old(d[at + 4..])
  {
    var i, m := 4, m0;
    while i > 0
      invariant 0 <= i <= 4 && m == Shifted(m0, 4 - i)
      invariant d[..at] == old(d[..at]) && d[at + 4..] == old(d[at + 4..])
      invariant forall k :: i <= k < 4 ==> d[at + k] == Digits4(m0)[k]
    {
      ShiftedDigit(m0, 4 - i);
      i := i - 1;
      d[at + i] := Digit(m % 64);
      m := m / 64;
    }
  }

  function Shifted(m: nat, k: nat): nat {
    if k == 0 then m else Shifted(m, k - 1) / 64
  }

  lemma ShiftedDigit(m: nat, k: nat)
    requires k < 4
    ensures Digit(Shifted(m, k) % 64) == Digits4(m)[3 - k]
  {
    assert m / 64 / 64 == m / 0x1000 && m / 0x1000 / 64 == m / 0x4_0000;
    assert Shifted(m, 1) == Shifted(m, 0) / 64 == m / 64;
    assert Shifted(m, 2) == Shifted(m, 1) / 64 && Shifted(m, 3) == Shifted(m, 2) / 64;
  }

  lemma {:induction false} EncodeLength(s: seq<Byte>)
    ensures |Encode(s)| == (|s| + 2) / 3 * 4
  {
    hide Digits4, Group;
    if |s| > 2 {
      EncodeLength(s[3..]);
    }
  }

  // The next whole group of a text.
  lemma EncodeStep(s: seq<Byte>, p: nat)
    requires p + 2 < |s|
    ensures Encode(s[p..]) == Digits4(Group(s[p], s[p + 1], s[p + 2])) + Encode(s[p + 3..])
  {
    hide Digits4, Group;
    assert s[p..][3..] == s[p + 3..];
  }

  // The one or two last bytes as a group, the missing ones being zero.
  method PackLast(s: seq<Byte>) returns (m: nat)
    requires 0 < |s| < 3
    ensures m == Group(s[0], if |s| == 2 then s[1] else 0, 0)
  {
    m := 0;
    var i := 0;
    while i < |s|
      invariant 0 <= i <= |s| && m == (if i == 0 then 0 else if i == 1 then s[0] as int else 0x100 * s[0] as int + s[1] as int)
    {
      m := m * 0x100 + s[i] as int;
      i := i + 1;
    }
    while i < 3
      invariant |s| <= i <= 3
      invariant Group(s[0], if |s| == 2 then s[1] else 0, 0) == if i == 3 then m else if i == 2 then 0x100 * m else 0x1_0000 * m
    {
      m := m * 0x100;
      i := i + 1;
    }
  }

  // The last digits; those of missing bytes become '='.
  method PutLast(d: array<Byte>, at: nat, s: seq<Byte>)
    requires at + 4 <= d.Length && 0 < |s| < 3
    modifies d
    ensures d[at..at + 4] == Encode(s) && d[..at] == old(d[..at]) && d[at + 4..] == old(d[at + 4..])
  {
    hide Digits4, Group;
    var m := PackLast(s);
    PutDigits(d, at, m);
    ghost var e := d[at..at + 4];
    var i := 3;
    while i > |s|
      invariant |s| <= i <= 3
      invariant d[..at] == old(d[..at]) && d[at + 4..] == old(d[at + 4..])
      invariant d[at..at + 4] == e[..i + 1] + seq(3 - i, k => EQUAL)
    {
      ghost var was := d[at..at + 4];
      d[at + i] := EQUAL;
      assert d[at..at + 4] == was[i := EQUAL];
      i := i - 1;
    }
    Padded(d[at..at + 4], e, |s|);
  }

  lemma Padded(q: seq<Byte>, e: seq<Byte>, n: nat)
    requires |q| == |e| == 4 && 0 < n < 3
    requires q == e[..n + 1] + seq(3 - n, k => EQUAL)
    ensures q == e[..n + 1] + if n == 1 then [EQUAL, EQUAL] else [EQUAL]
  {
  }

  /** soap_putbase64 */
  method PutBase64(sent: seq<Byte>, s: seq<Byte>) returns (out: seq<Byte>)
    ensures out == sent + Encode(s)
  {
    hide Digits4, Group, Encode;
    var d := new Byte[4];
    out := sent;
    var p := 0;
    assert s[0..] == s;
    while |s| - p > 2
      invariant 0 <= p <= |s| && out + Encode(s[p..]) == sent + Encode(s)
    {
      ghost var was := out;
      EncodeStep(s, p);
      PutDigits(d, 0, Group(s[p], s[p + 1], s[p + 2]));
      assert d[..] == d[0..4];
      out := out + d[..];
      assert was + Encode(s[p..]) == out + Encode(s[p + 3..]);
      p := p + 3;
    }
    if |s| - p > 0 {
      PutLast(d, 0, s[p..]);
      assert d[..] == d[0..4];
      out := out + d[..];
    } else {
      EncodeNothing(s[p..]);
    }
  }

  lemma EncodeNothing(s: seq<Byte>)
    requires s == []
    ensures Encode(s) == []
  {
  }

  /** soap_s2base64: the encoding as a C string in a buffer of the computed size. */
  method S2Base64(s: seq<Byte>) returns (t: array<Byte>)
    ensures fresh(t) && t.Length == |Encode(s)| + 1 && t[..|Encode(s)|] == Encode(s) && t[|Encode(s)|] == 0
  {
    hide Digits4, Group, Encode;
    t := new Byte[(|s| + 2) / 3 * 4 + 1](_ => 0);
    EncodeLength(s);
    var p, at := 0, 0;
    assert s[0..] == s;
    while |s| - p > 2
      invariant 0 <= p <= |s| && at + |Encode(s[p..])| + 1 == t.Length
      invariant t[..at] + Encode(s[p..]) == Encode(s)
    {
      ghost var was := t[..at];
      EncodeStep(s, p);
      PutDigits(t, at, Group(s[p], s[p + 1], s[p + 2]));
      Appended(t, at, was, Encode(s[p + 3..]));
      at := at + 4;
      p := p + 3;
    }
    EncodeLength(s[p..]);
    t[at] := 0;
    if |s| - p > 0 {
      ghost var was := t[..at];
      PutLast(t, at, s[p..]);
      Appended(t, at, was, []);
      t[at + 4] := 0;
    }
  }

  lemma Appended(t: array<Byte>, at: nat, was: seq<Byte>, rest: seq<Byte>)
    requires at + 4 <= t.Length && t[..at] == was
    ensures t[..at + 4] + rest == was + (t[at..at + 4] + rest)
  {
    assert t[..at + 4] == was + t[at..at + 4];
  }

  // --- reading from XML (soap_getbase64) --------------------------------------------------------------

  // soap_get, a character given by its number losing its mark
  function Code(c: int): int {
    if c < AP then c + 0x8000_0000 else c
  }

  /** A character given by its number counts as itself, and markup as markup. */
  lemma CodeExactly(v: nat, t: int)
    requires v < 0x7FFF_FFFA && AP <= t
    ensures Code(Mark(v)) == v && Code(t) == t
  {
  }

  // Up to four digits, white space between them being skipped: j of them make m.
  datatype Quad = Full(m: nat, st: In) | Ended(m: nat, j: nat, c: int, st: In) | Bad

  ghost function ReadQuad(st: In, m: nat, j: nat): (q: Quad)
    requires j <= 4
    ensures q.Full? && j < 4 ==> Measure(q.st) < Measure(st)
    ensures q.Ended? ==> q.j <= 3
    decreases Measure(st)
  {
    if j == 4 then Full(m, st)
    else
      var (t, st1) := Next(st);
      NextShrinks(st);
      var c := Code(t);
      if c == EQUAL || c < 0 then Ended(m, j, c, st1)
      else if 43 <= c <= 122 then if Sextet(c) >= 64 then Bad else ReadQuad(st1, m * 64 + Sextet(c), j + 1)
      else if c <= 32 then ReadQuad(st1, m, j)
      else Bad
  }

  // The bytes of a group that was cut short.
  function Tail(m: nat, j: nat): seq<Byte> {
    if j == 2 then [m / 16 % 256] else if j == 3 then [m / 1024 % 256, m / 4 % 256] else []
  }

  // The bytes of a whole group.
  function Bytes3(m: nat): seq<Byte> {
    [m / 0x1_0000 % 256, m / 0x100 % 256, m % 256]
  }

  // After a '=', everything up to the next tag is skipped.
  ghost function SkipToTag(st: In): (int, In)
    decreases Measure(st)
  {
    var (c, st1) := Next(st);
    if c == EOF || c == TAG || c == END_TAG then (c, st1) else NextShrinks(st); SkipToTag(st1)
  }

  datatype Decoded = Decoded(bytes: seq<Byte>, st: In) | Invalid

  function Prefixed(p: seq<Byte>, d: Decoded): Decoded {
    if d.Invalid? then Invalid else d.(bytes := p + d.bytes)
  }

  // The decoded bytes; the token that ended them is put back.
  ghost function Decode(st: In): Decoded
    decreases Measure(st)
  {
    match ReadQuad(st, 0, 0)
    case Bad => Invalid
    case Full(m, st1) => Prefixed(Bytes3(m), Decode(st1))
    case Ended(m, j, c, st1) =>
      var (c1, st2) := if c >= 0 then SkipToTag(st1) else (c, st1);
      Decoded(Tail(m, j), st2.(ahead := c1))
  }

  class Reading {
    const rd: Reader
    const lab: Buffer

    constructor (r: Reader, l: Buffer)
      ensures rd == r && lab == l
    {
      rd, lab := r, l;
    }

    // The loop that collects four digits.
    method GetQuad() returns (m: nat, j: nat, c: int, bad: bool)
      modifies rd, rd.inp
      ensures var q := ReadQuad(old(rd.Now()), 0, 0);
              && (bad <==> q.Bad?)
              && (!bad ==> if j == 4 then q == Full(m, rd.Now()) else q == Ended(m, j, c, rd.Now()))
    {
      hide Next, Measure;
      ghost var st0 := rd.Now();
      m, j, c, bad := 0, 0, 0, false;
      while j < 4
        invariant j <= 4 && ReadQuad(rd.Now(), m, j) == ReadQuad(st0, 0, 0)
        decreases Measure(rd.Now())
      {
        NextShrinks(rd.Now());
        c := rd.Get();
        if c < AP {
          c := c + 0x8000_0000;
        }
        if c == EQUAL || c < 0 {
          return;
        }
        if 43 <= c <= 122 {
          var b := Sextet(c);
          if b >= 64 {
            bad := true;
            return;
          }
          m := m * 64 + b;
          j := j + 1;
        } else if c > 32 {
          bad := true;
          return;
        }
      }
    }
  
    // Skips to the next tag and puts it back.
    method SkipRest(c0: int)
      modifies rd, rd.inp
      ensures var (c, st) := if c0 >= 0 then SkipToTag(old(rd.Now())) else (c0, old(rd.Now()));
              rd.Now() == st.(ahead := c)
    {
      hide Next, Measure;
      var c := c0;
      ghost var st0 := rd.Now();
      while c >= 0
        invariant c >= 0 ==> c0 >= 0 && SkipToTag(rd.Now()) == SkipToTag(st0)
        invariant c < 0 ==> (c, rd.Now()) == if c0 >= 0 then SkipToTag(st0) else (c0, st0)
        decreases if c >= 0 then 1 + Measure(rd.Now()) else 0
      {
        NextShrinks(rd.Now());
        c := rd.Get();
        if c != EOF && c != TAG && c != END_TAG {
          c := 0;
        }
      }
      rd.ahead := c;
    }

    /** soap_getbase64: the bytes, collected in the look-aside buffer whose write index
        is kept at a multiple of three. */
    method GetBase64() returns (ok: bool, p: seq<Byte>, n: nat)
      requires lab.Valid()
      modifies rd, rd.inp, lab, lab.buf
      ensures ok <==> Decode(old(rd.Now())).Decoded?
      ensures ok ==> Decode(old(rd.Now())) == Decoded(p, rd.Now()) && n == |p|
    {
      hide Decode, Measure, Going;
      ghost var goal := Decode(rd.Now());
      lab.idx := 0;
      ok, p, n := true, [], 0;
      var more := true;
      GoingStart(rd.Now(), lab.buf[..0]);
      while more
        invariant lab.Valid() && (lab.buf == old(lab.buf) || fresh(lab.buf)) && lab.idx % 3 == 0
        invariant more ==> Going(goal, lab.buf[..lab.idx], rd.Now())
        invariant !more ==> (ok <==> goal.Decoded?) && (ok ==> goal == Decoded(p, rd.Now()) && n == |p|)
        decreases if more then 1 else 0, Measure(rd.Now())
      {
        lab.Reserve(2);
        var s := lab.idx;
        lab.idx := 3 * (lab.buf.Length / 3);
        more, ok, n := Fill(s, goal);
        if !more && ok {
          p := lab.buf[..n];
        }
      }
    }

    // The one or two bytes of a group that was cut short.
    method StoreTail(at: nat, m: nat, j: nat) returns (to: nat)
      requires at + 2 < lab.buf.Length
      modifies lab.buf
      ensures to <= lab.buf.Length && lab.buf[..to] == old(lab.buf[..at]) + Tail(m, j)
    {
      to := at;
      if j == 2 {
        lab.buf[to] := m / 16 % 256;
        to := to + 1;
      } else if j == 3 {
        lab.buf[to] := m / 1024 % 256;
        lab.buf[to + 1] := m / 4 % 256;
        to := to + 2;
      }
      assert lab.buf[..to] == old(lab.buf[..at]) + Tail(m, j);
    }

    method StoreGroup(at: nat, m: nat)
      requires at + 2 < lab.buf.Length
      modifies lab.buf
      ensures lab.buf[..at + 3] == old(lab.buf[..at]) + Bytes3(m)
    {
      lab.buf[at] := m / 0x1_0000 % 256;
      lab.buf[at + 1] := m / 0x100 % 256;
      lab.buf[at + 2] := m % 256;
      assert lab.buf[..at + 3] == old(lab.buf[..at]) + Bytes3(m);
    }

    // The groups that fit behind place s; n is the length when the text ended.
    method Fill(s: nat, ghost goal: Decoded) returns (more: bool, ok: bool, n: nat)
      requires s + 2 < lab.buf.Length && s % 3 == 0 && Going(goal, lab.buf[..s], rd.Now())
      modifies rd, rd.inp, lab.buf
      ensures more ==> Going(goal, lab.buf[..3 * (lab.buf.Length / 3)], rd.Now()) && Measure(rd.Now()) < old(Measure(rd.Now()))
      ensures !more ==> (ok <==> goal.Decoded?) && (ok ==> n <= lab.buf.Length && goal == Decoded(lab.buf[..n], rd.Now()))
    {
      hide Going, Measure, ReadQuad, SkipToTag, Next, Tail, Bytes3;
      var i, k := 0, lab.buf.Length - s;
      while i < k - 2
        invariant 0 <= i <= k && i % 3 == 0
        invariant Going(goal, lab.buf[..s + i], rd.Now())
        invariant Measure(rd.Now()) + i / 3 <= old(Measure(rd.Now()))
      {
        GoingStep(goal, lab.buf[..s + i], rd.Now());
        var m, j, c, bad := GetQuad();
        if bad {
          return false, false, 0;
        }
        if j < 4 {
          n := StoreTail(s + i, m, j);
          SkipRest(c);
          return false, true, n;
        }
        StoreGroup(s + i, m);
        i := i + 3;
      }
      more, ok, n := true, true, 0;
      WholeGroups(s, i, lab.buf.Length);
    }
  }

  lemma WholeGroups(s: nat, i: nat, len: nat)
    requires s % 3 == 0 && i % 3 == 0 && s + i <= len < s + i + 3
    ensures s + i == 3 * (len / 3)
  {
  }

  // got has been decoded; the rest is still in st.
  ghost predicate Going(goal: Decoded, got: seq<Byte>, st: In) {
    goal == Prefixed(got, Decode(st))
  }

  lemma GoingStart(st: In, none: seq<Byte>)
    requires none == []
    ensures Going(Decode(st), none, st)
  {
  }

  lemma GoingStep(goal: Decoded, got: seq<Byte>, st: In)
    requires Going(goal, got, st)
    ensures var q := ReadQuad(st, 0, 0);
            && (q.Bad? ==> goal.Invalid?)
            && (q.Full? ==> Going(goal, got + Bytes3(q.m), q.st) && Measure(q.st) < Measure(st))
            && (q.Ended? ==> var (c1, st2) := if q.c >= 0 then SkipToTag(q.st) else (q.c, q.st);
                             goal == Decoded(got + Tail(q.m, q.j), st2.(ahead := c1)))
  {
    hide ReadQuad, Bytes3, Tail, SkipToTag, Measure;
    var q := ReadQuad(st, 0, 0);
    if q.Full? {
      var d := Decode(q.st);
      assert d.Decoded? ==> got + (Bytes3(q.m) + d.bytes) == got + Bytes3(q.m) + d.bytes;
    }
  }

  // --- the round trip through XML -----------------------------------------------------------------------

  // Characters that mean themselves in XML text.
  ghost predicate Plain(s: seq<Byte>) {
    forall c :: c in s ==> Token(c) == c && c != C_LT && c != C_AMP
  }

  lemma DigitsPlain(m: nat)
    ensures Plain(Digits4(m))
  {
  }

  lemma {:induction false} EncodePlain(s: seq<Byte>)
    ensures Plain(Encode(s))
  {
    hide Digits4, Group;
    if |s| == 1 || |s| == 2 {
      var d := Digits4(Group(s[0], if |s| == 2 then s[1] else 0, 0));
      DigitsPlain(Group(s[0], if |s| == 2 then s[1] else 0, 0));
      assert forall c :: c in Encode(s) ==> c == EQUAL || c in d;
    } else if |s| > 2 {
      DigitsPlain(Group(s[0], s[1], s[2]));
      EncodePlain(s[3..]);
    }
  }

  // One digit read.
  lemma DigitStep(v: nat, w: seq<Byte>, m: nat, j: nat)
    requires v < 64 && j < 4
    ensures ReadQuad(In(0, [Digit(v)] + w, false), m, j) == ReadQuad(In(0, w, false), m * 64 + v, j + 1)
  {
    hide Next;
    DigitRead(v);
    PlainReads(Digit(v), w);
  }

  lemma SplitGroup(m: nat)
    requires m < 0x100_0000
    ensures var d := m / 64 / 64 / 64;
            m == ((d * 64 + m / 0x1000 % 64) * 64 + m / 64 % 64) * 64 + m % 64 && d == m / 0x4_0000 % 64
  {
    assert m / 64 / 64 == m / 0x1000 && m / 0x1000 / 64 == m / 0x4_0000;
  }

  lemma QuadReads(m: nat, w: seq<Byte>)
    requires m < 0x100_0000
    ensures ReadQuad(In(0, Digits4(m) + w, false), 0, 0) == Full(m, In(0, w, false))
  {
    hide Digit, ReadQuad;
    var a, b, c, d := m / 0x4_0000 % 64, m / 0x1000 % 64, m / 64 % 64, m % 64;
    var w3 := [Digit(d)] + w;
    var w2 := [Digit(c)] + w3;
    var w1 := [Digit(b)] + w2;
    assert Digits4(m) + w == [Digit(a)] + w1;
    DigitStep(a, w1, 0, 0);
    DigitStep(b, w2, a, 1);
    DigitStep(c, w3, a * 64 + b, 2);
    DigitStep(d, w, (a * 64 + b) * 64 + c, 3);
    SplitGroup(m);
    QuadDone(m, In(0, w, false));
  }

  lemma QuadDone(m: nat, st: In)
    ensures ReadQuad(st, m, 4) == Full(m, st)
  {
  }

  // The digits of one byte (two digits) or two bytes (three digits) and then '='.
  lemma TailReads(a: Byte, b: Byte, two: bool, w: seq<Byte>)
    ensures var m := Group(a, if two then b else 0, 0);
            var j := if two then 3 else 2;
            exists q :: ReadQuad(In(0, Digits4(m)[..j] + ([EQUAL] + w), false), 0, 0) == Ended(q, j, EQUAL, In(0, w, false))
                        && Tail(q, j) == if two then [a, b] else [a]
  {
    hide Digit, ReadQuad;
    var m := Group(a, if two then b else 0, 0);
    var x, y, z := m / 0x4_0000 % 64, m / 0x1000 % 64, m / 64 % 64;
    var end := [EQUAL] + w;
    if two {
      var w2 := [Digit(z)] + end;
      var w1 := [Digit(y)] + w2;
      assert Digits4(m)[..3] + end == [Digit(x)] + w1;
      DigitStep(x, w1, 0, 0);
      DigitStep(y, w2, x, 1);
      DigitStep(z, end, x * 64 + y, 2);
      EqualEnds((x * 64 + y) * 64 + z, 3, w);
      TailOfTwo(a, b);
    } else {
      var w1 := [Digit(y)] + end;
      assert Digits4(m)[..2] + end == [Digit(x)] + w1;
      DigitStep(x, w1, 0, 0);
      DigitStep(y, end, x, 1);
      EqualEnds(x * 64 + y, 2, w);
      TailOfOne(a);
    }
  }

  lemma EqualEnds(m: nat, j: nat, w: seq<Byte>)
    requires j < 4
    ensures ReadQuad(In(0, [EQUAL] + w, false), m, j) == Ended(m, j, EQUAL, In(0, w, false))
  {
    hide Next;
    PlainReads(EQUAL, w);
  }

  lemma OneByte(m: nat, a: nat)
    requires a < 256 && m == 0x1_0000 * a
    ensures m / 0x4_0000 % 64 == a / 4 && m / 0x1000 % 64 == 16 * (a % 4)
  {
    assert m / 0x4_0000 == a / 4 && m / 0x1000 == 16 * a;
    assert 16 * a == 64 * (a / 4) + 16 * (a % 4);
  }

  lemma TwoBytes(m: nat, n: nat)
    requires n < 0x1_0000 && m == 0x100 * n
    ensures m / 0x4_0000 % 64 == n / 1024 && m / 0x1000 % 64 == n / 16 - 64 * (n / 1024) && m / 64 % 64 == 4 * (n % 16)
  {
    assert m / 0x4_0000 == n / 1024 && m / 0x1000 == n / 16 && m / 64 == 4 * n;
    assert n / 16 / 64 == n / 1024;
    assert 4 * n == 64 * (n / 16) + 4 * (n % 16);
  }

  lemma TailOfOne(a: Byte)
    ensures var m := Group(a, 0, 0);
            Tail(m / 0x4_0000 % 64 * 64 + m / 0x1000 % 64, 2) == [a]
  {
    hide Group, Tail;
    OneGroup(a);
    OneByte(Group(a, 0, 0), a);
    var n: nat := a;
    FourFold(n);
    TailOfSixteen(n);
  }

  lemma OneGroup(a: Byte)
    ensures Group(a, 0, 0) == 0x1_0000 * a as int
  {
  }

  lemma FourFold(n: nat)
    ensures n / 4 * 64 + 16 * (n % 4) == 16 * n
  {
  }

  lemma TailOfSixteen(n: nat)
    requires n < 256
    ensures Tail(16 * n, 2) == [n]
  {
  }

  lemma TailOfTwo(a: Byte, b: Byte)
    ensures var m := Group(a, b, 0);
            Tail((m / 0x4_0000 % 64 * 64 + m / 0x1000 % 64) * 64 + m / 64 % 64, 3) == [a, b]
  {
    hide Group, Tail;
    var n := 0x100 * a as int + b as int;
    TwoGroup(a, b, n);
    TwoBytes(Group(a, b, 0), n);
    FourTimes(n);
    TailOfFour(n);
  }

  lemma TwoGroup(a: Byte, b: Byte, n: nat)
    requires n == 0x100 * a as int + b as int
    ensures Group(a, b, 0) == 0x100 * n && n / 256 % 256 == a && n % 256 == b
  {
  }

  lemma FourTimes(n: nat)
    ensures (n / 1024 * 64 + (n / 16 - 64 * (n / 1024))) * 64 + 4 * (n % 16) == 4 * n
  {
  }

  lemma TailOfFour(n: nat)
    ensures Tail(4 * n, 3) == [n / 256 % 256, n % 256]
  {
    assert 4 * n / 1024 == n / 256;
  }

  // Skipping the second '=' and reaching the tag.
  lemma SkipsToTag(w: seq<Byte>, more: seq<Byte>)
    requires w == [] || w == [EQUAL]
    ensures SkipToTag(In(0, w + [C_LT, C_SLASH] + more, false)) == (END_TAG, In(0, more, false))
  {
    hide Next;
    EndTagReads(more);
    if w == [] {
      assert w + [C_LT, C_SLASH] + more == [C_LT, C_SLASH] + more;
    } else {
      assert w + [C_LT, C_SLASH] + more == [EQUAL] + ([C_LT, C_SLASH] + more);
      PlainReads(EQUAL, [C_LT, C_SLASH] + more);
    }
  }

  /** Base64 survives XML: any bytes, encoded and followed by an end tag, are decoded
      to themselves, and the end tag is put back. */
  lemma {:induction false} Base64ReadBack(s: seq<Byte>, more: seq<Byte>)
    ensures var st := In(0, Encode(s) + [C_LT, C_SLASH] + more, false);
            Decode(st) == Decoded(s, In(END_TAG, more, false))
    decreases |s|
  {
    hide Next, ReadQuad, Digits4, SkipToTag, Tail, Bytes3, Group;
    EncodePlain(s);
    var end := [C_LT, C_SLASH] + more;
    var st := In(0, Encode(s) + [C_LT, C_SLASH] + more, false);
    if s == [] {
      assert st.rest == end;
      NothingToRead(more);
    } else if |s| < 3 {
      var two := |s| == 2;
      var b: Byte := if two then s[1] else 0;
      var w := if two then end else [EQUAL] + end;
      TailReads(s[0], b, two, w);
      assert st.rest == Digits4(Group(s[0], b, 0))[..|s| + 1] + ([EQUAL] + w);
      SkipsToTag(if two then [] else [EQUAL], more);
      assert w == (if two then [] else [EQUAL]) + [C_LT, C_SLASH] + more;
    } else {
      var m := Group(s[0], s[1], s[2]);
      var w := Encode(s[3..]) + [C_LT, C_SLASH] + more;
      assert st.rest == Digits4(m) + w;
      GroupBytes(s[0], s[1], s[2]);
      QuadReads(m, w);
      Base64ReadBack(s[3..], more);
      assert s == [s[0], s[1], s[2]] + s[3..];
    }
  }

  lemma GroupBytes(a: Byte, b: Byte, c: Byte)
    ensures Group(a, b, c) < 0x100_0000 && Bytes3(Group(a, b, c)) == [a, b, c]
  {
    ThreeParts(Group(a, b, c), a, b, c);
  }

  lemma ThreeParts(m: nat, a: nat, b: nat, c: nat)
    requires a < 256 && b < 256 && c < 256 && m == 0x1_0000 * a + 0x100 * b + c
    ensures m / 0x1_0000 % 256 == a && m / 0x100 % 256 == b && m % 256 == c
  {
    assert m / 0x1_0000 == a && m / 0x100 == 0x100 * a + b;
  }

  lemma NothingToRead(more: seq<Byte>)
    ensures Decode(In(0, [C_LT, C_SLASH] + more, false)) == Decoded([], In(END_TAG, more, false))
  {
    hide Next;
    EndTagReads(more);
  }

  /** Bytes written as base64, followed by an end tag and anything else, and read back
      into a look-aside buffer of any capacity. */
  method Exchange(s: seq<Byte>, more: seq<Byte>, lablen: nat) returns (t: seq<Byte>, n: nat, next: int, rest: seq<Byte>)
    ensures t == s && n == |s| && next == END_TAG && rest == more
  {
    hide Encode, Decode;
    Base64ReadBack(s, more);
    var w := PutBase64([], s);
    assert w == Encode(s);
    var inp := new Source(w + [C_LT, C_SLASH] + more);
    var rd := new Reader(inp);
    var lab := new Buffer(lablen);
    var r := new Reading(rd, lab);
    var ok;
    ok, t, n := r.GetBase64();
    next, rest := rd.ahead, inp.rest;
  }
}
