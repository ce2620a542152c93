/** Element text and attribute values: read into the look-aside buffer. */
module XmlText {
  import opened Wire
  import opened Input
  import opened XmlToken
  import opened Lab

  // --- element text (soap_string_in) --------------------------------------------------------------

  // A character from 128 on, given by its number, is stored in UTF-8.
  predicate IsHigh(c: int) {
    -0x7FFF_FF80 <= c < AP
  }

  function Utf8(v: nat): (s: seq<Byte>)
    ensures 0 < |s| <= 6
  {
    if v < 0x800 then [0xC0 + v / 0x40 % 0x20, 0x80 + v % 0x40]
    else if v < 0x1_0000 then [0xE0 + v / 0x1000 % 0x10, 0x80 + v / 0x40 % 0x40, 0x80 + v % 0x40]
    else if v < 0x20_0000 then
      [0xF0 + v / 0x4_0000 % 8, 0x80 + v / 0x1000 % 0x40, 0x80 + v / 0x40 % 0x40, 0x80 + v % 0x40]
    else if v < 0x400_0000 then
      [0xF8 + v / 0x100_0000 % 4, 0x80 + v / 0x4_0000 % 0x40, 0x80 + v / 0x1000 % 0x40, 0x80 + v / 0x40 % 0x40, 0x80 + v % 0x40]
    else
      [0xFC + v / 0x4000_0000 % 2, 0x80 + v / 0x100_0000 % 0x40, 0x80 + v / 0x4_0000 % 0x40, 0x80 + v / 0x1000 % 0x40,
       0x80 + v / 0x40 % 0x40, 0x80 + v % 0x40]
  }

  // What a token adds to the text, n being the number of elements open inside it.
  datatype Step = Stop | Step(piece: seq<Byte>, st: In, n: nat)

  // A reference to one of the five characters, decoded or kept.
  function Kept(c: Byte, name: seq<Byte>, decode: bool): seq<Byte> {
    if decode then [c] else [C_AMP] + name
  }

  ghost function StepOf(c: int, st: In, n: nat, decode: bool): (s: Step)
    ensures s.Step? ==> 0 < |s.piece| <= 6
  {
    if IsHigh(c) then Step(Utf8(c + 0x8000_0000), st, n)
    else if c == END_TAG then if n == 0 then Stop else Step([C_LT, C_SLASH], st, n - 1)
    else if c == TAG then Step([C_LT], st, n + 1)
    else if c == GT then Step([C_GT], st, n)
    else if c == QT then Step([C_QUOT], st, n)
    else if c == AP then Step([C_APOS], st, n)
    else if c == C_SLASH && n > 0 then
      var (c1, st1) := Next(st);
      Step([C_SLASH], st1.(ahead := c1), if c1 == GT then n - 1 else n)
    else if c == Mark(C_LT) then Step(Kept(C_LT, R_LT, decode), st, n)
    else if c == Mark(C_GT) then Step(Kept(C_GT, R_GT, decode), st, n)
    else if c == Mark(C_AMP) then Step(Kept(C_AMP, R_AMP, decode), st, n)
    else if c == Mark(C_QUOT) then Step(Kept(C_QUOT, R_QUOT, decode), st, n)
    else if c == Mark(C_APOS) then Step(Kept(C_APOS, N_APOS + [C_SEMI], decode), st, n)
    else if c == EOF then Stop
    else Step([c % 256], st, n)
  }

  lemma StepShrinks(st: In, n: nat, decode: bool)
    ensures var (c, st1) := Next(st);
            var s := StepOf(c, st1, n, decode);
            s.Step? ==> Measure(s.st) < Measure(st)
  {
    hide Next;
    var (c, st1) := Next(st);
    NextShrinks(st);
    NextShrinks(st1);
  }

  // The text up to the token c that ends it, and the stream behind that token.
  datatype Out = Out(bytes: seq<Byte>, c: int, st: In)

  function Prefixed(p: seq<Byte>, o: Out): Out {
    Out(p + o.bytes, o.c, o.st)
  }

  ghost function Content(st: In, n: nat, decode: bool): Out
    decreases Measure(st)
  {
    var (c, st1) := Next(st);
    var s := StepOf(c, st1, n, decode);
    if s.Stop? then Out([], c, st1)
    else
      StepShrinks(st, n, decode);
      Prefixed(s.piece, Content(s.st, s.n, decode))
  }

  lemma PrefixedTwice(a: seq<Byte>, b: seq<Byte>, o: Out)
    ensures Prefixed(a, Prefixed(b, o)) == Prefixed(a + b, o)
  {
    assert a + (b + o.bytes) == (a + b) + o.bytes;
  }

  lemma CStringOfArray(a: array<Byte>, i: nat)
    requires i < a.Length && a[i] == 0
    ensures CString(a[..]) == CString(a[..i])
  {
    assert a[..] == a[..i] + ([0] + a[i + 1..]);
    CStringStops(a[..i], a[i + 1..]);
  }

  lemma CStringStops(s: seq<Byte>, more: seq<Byte>)
    ensures CString(s + ([0] + more)) == CString(s)
  {
    if s == [] {
      assert s + ([0] + more) == [0] + more;
    } else {
      assert (s + ([0] + more))[1..] == s[1..] + ([0] + more);
      CStringStops(s[1..], more);
    }
  }

  lemma CStringTwice(s: seq<Byte>)
    ensures CString(CString(s)) == CString(s)
  {
  }

  class Parser {
    const rd: Reader
    const lab: Buffer

    constructor (r: Reader, l: Buffer)
      ensures rd == r && lab == l
    {
      rd, lab := r, l;
    }

    /** One turn of the loop of soap_string_in that takes a token: the bytes it adds. */
    method NextPiece(n0: nat, decode: bool) returns (piece: seq<Byte>, n: nat, c: int)
      modifies rd, rd.inp
      ensures var (c1, st1) := Next(old(rd.Now()));
              var s := StepOf(c1, st1, n0, decode);
              c == c1 && if s.Stop? then piece == [] && rd.Now() == st1
                         else 0 < |piece| <= 6 && s == Step(piece, rd.Now(), n)
    {
      hide Next, Utf8, Measure;
      n := n0;
      c := rd.Get();
      if IsHigh(c) {
        return Utf8(c + 0x8000_0000), n, c;
      }
      match c
      case -3 =>
        if n == 0 {
          return [], n, c;
        }
        return [C_LT, C_SLASH], n - 1, c;
      case -2 =>
        return [C_LT], n + 1, c;
      case -4 =>
        return [C_GT], n, c;
      case -5 =>
        return [C_QUOT], n, c;
      case -6 =>
        return [C_APOS], n, c;
      case 47 =>
        if n > 0 {
          var c1 := rd.Get();
          if c1 == GT {
            n := n - 1;
          }
          rd.ahead := c1;
        }
        return [C_SLASH], n, c;
      case _ =>
        if c == Mark(C_LT) {
          piece := Kept(C_LT, R_LT, decode);
        } else if c == Mark(C_GT) {
          piece := Kept(C_GT, R_GT, decode);
        } else if c == Mark(C_AMP) {
          piece := Kept(C_AMP, R_AMP, decode);
        } else if c == Mark(C_QUOT) {
          piece := Kept(C_QUOT, R_QUOT, decode);
        } else if c == Mark(C_APOS) {
          piece := Kept(C_APOS, N_APOS + [C_SEMI], decode);
        } else if c == EOF {
          piece := [];
        } else {
          piece := [c % 256];
        }
    }

    /** soap_string_in: the text up to the end tag, as a C string; the token that
        ended it is put back. */
    method StringIn(decode: bool) returns (t: seq<Byte>)
      requires lab.Valid()
      modifies rd, rd.inp, lab, lab.buf
      ensures var o := Content(old(rd.Now()), 0, decode);
              t == CString(o.bytes) && rd.Now() == o.st.(ahead := o.c)
    {
      hide CString, Going, Measure, Content;
      ghost var goal := Content(rd.Now(), 0, decode);
      lab.idx := 0;
      var pending: seq<Byte>, n, c, done, i: nat := [], 0, 0, false, 0;
      GoingStart(rd.Now(), decode, lab.buf[..0]);
      while !done
        invariant lab.Valid() && (lab.buf == old(lab.buf) || fresh(lab.buf))
        invariant !done ==> Going(goal, lab.buf[..lab.idx], pending, rd.Now(), n, decode)
        invariant done ==> i < lab.buf.Length && lab.buf[i] == 0 && goal == Out(lab.buf[..i], c, rd.Now())
        decreases Left(done, rd.Now(), pending)
      {
        lab.Reserve(0);
        i := lab.idx;
        lab.idx := lab.buf.Length;
        pending, n, c, done, i := Fill(i, pending, n, decode, goal);
      }
      CStringOfArray(lab.buf, i);
      rd.ahead := c;
      t := CString(lab.buf[..]);
    }

    // The inner loop: fills the buffer from place i0 on.
    method Fill(i0: nat, pending0: seq<Byte>, n0: nat, decode: bool, ghost goal: Out)
      returns (pending: seq<Byte>, n: nat, c: int, done: bool, i: nat)
      requires i0 < lab.buf.Length && Going(goal, lab.buf[..i0], pending0, rd.Now(), n0, decode)
      modifies rd, rd.inp, lab.buf
      ensures !done ==> i == lab.buf.Length && Going(goal, lab.buf[..i], pending, rd.Now(), n, decode)
      ensures done ==> i < lab.buf.Length && lab.buf[i] == 0 && goal == Out(lab.buf[..i], c, rd.Now())
      ensures Left(done, rd.Now(), pending) < Left(false, old(rd.Now()), pending0)
    {
      hide Next, StepOf, Going, Measure;
      ghost var left := Left(false, rd.Now(), pending0);
      pending, n, c, done, i := pending0, n0, 0, false, i0;
      while i < lab.buf.Length
        invariant i0 <= i <= lab.buf.Length && Going(goal, lab.buf[..i], pending, rd.Now(), n, decode)
        invariant Left(false, rd.Now(), pending) + (i - i0) <= left
      {
        ghost var before := lab.buf[..i];
        if |pending| == 0 {
          GoingFetch(goal, before, rd.Now(), n, decode);
          pending, n, c := NextPiece(n, decode);
          if pending == [] {
            lab.buf[i] := 0;
            assert lab.buf[..i] == before;
            done := true;
            return;
          }
        }
        GoingPut(goal, before, pending, rd.Now(), n, decode);
        lab.buf[i], pending := pending[0], pending[1..];
        i := i + 1;
        assert lab.buf[..i] == before + [lab.buf[i - 1]];
      }
    }
  }

  // What is still to be done: bytes to copy and bytes to read.
  ghost function Left(done: bool, st: In, pending: seq<Byte>): nat {
    if done then 0 else 1 + 7 * Measure(st) + |pending|
  }

  // s has been stored and pending comes next; the rest of the text is still in st.
  ghost predicate Going(goal: Out, s: seq<Byte>, pending: seq<Byte>, st: In, n: nat, decode: bool) {
    goal == Prefixed(s + pending, Content(st, n, decode))
  }

  lemma GoingStart(st: In, decode: bool, none: seq<Byte>)
    requires none == []
    ensures Going(Content(st, 0, decode), none, [], st, 0, decode)
  {
  }

  lemma GoingPut(goal: Out, s: seq<Byte>, pending: seq<Byte>, st: In, n: nat, decode: bool)
    requires pending != [] && Going(goal, s, pending, st, n, decode)
    ensures Going(goal, s + [pending[0]], pending[1..], st, n, decode)
  {
    hide Content;
    assert s + [pending[0]] + pending[1..] == s + pending;
  }

  lemma GoingFetch(goal: Out, s: seq<Byte>, st: In, n: nat, decode: bool)
    requires Going(goal, s, [], st, n, decode)
    ensures var (c, st1) := Next(st);
            var f := StepOf(c, st1, n, decode);
            if f.Stop? then goal == Out(s, c, st1) else Going(goal, s, f.piece, f.st, f.n, decode) && Measure(f.st) < Measure(st)
  {
    hide Next, StepOf, Measure;
    var (c, st1) := Next(st);
    var f := StepOf(c, st1, n, decode);
    assert s + [] == s;
    if f.Step? {
      StepShrinks(st, n, decode);
      PrefixedTwice(s, f.piece, Content(f.st, f.n, decode));
    }
  }

  // --- text is read back ----------------------------------------------------------------------------

  // A reference as soap_get returns it.
  lemma RefReads(name: seq<Byte>, w: seq<Byte>)
    requires |name| < 7 && C_SEMI !in name
    ensures Next(In(0, [C_AMP] + (name + [C_SEMI]) + w, false)) == (Mark(RefValue(name)), In(0, w, false))
  {
    hide RefValue;
    var v := name + [C_SEMI] + w;
    assert ([C_AMP] + (name + [C_SEMI]) + w)[1..] == v;
    NameLenIs(name, w, 7);
    assert v[..|name|] == name && v[|name| + 1..] == w;
  }

  lemma {:induction false} NameLenIs(name: seq<Byte>, w: seq<Byte>, n: nat)
    requires |name| < n && C_SEMI !in name
    ensures NameLen(name + [C_SEMI] + w, n) == |name|
  {
    if name != [] {
      assert (name + [C_SEMI] + w)[1..] == name[1..] + [C_SEMI] + w;
      assert name[0] in name;
      NameLenIs(name[1..], w, n - 1);
    }
  }

  lemma HexRef(name: seq<Byte>, d: Byte)
    requires name == [C_HASH, 120, d] && IsHex(d)
    ensures RefValue(name) == HexDigit(d)
  {
    assert CString(name) == name by {
      assert name[1..][1..][1..] == [];
    }
    var t := name[2..];
    assert t == [d] && t[1..] == [];
    assert SkipSpace(t) == t;
    assert Digits(t, 16, 0) == Digits(t[1..], 16, HexDigit(d)) == HexDigit(d);
  }

  lemma NamedRef(name: seq<Byte>)
    requires name != [] && name[0] != C_HASH && 0 !in name
    ensures name + [C_SEMI] == R_LT ==> RefValue(name) == C_LT
    ensures name + [C_SEMI] == R_GT ==> RefValue(name) == C_GT
    ensures name + [C_SEMI] == R_AMP ==> RefValue(name) == C_AMP
    ensures name + [C_SEMI] == R_QUOT ==> RefValue(name) == C_QUOT
  {
    assert forall i: nat :: i < |name| ==> name[i] in name;
    assert CString(name) == name;
    assert R_LT[0] == 108 && R_GT[0] == 103 && R_AMP[0] == 97 && R_QUOT[0] == 113;
  }

  // Each byte that is sent as a reference is recovered from it.
  lemma ReferenceReads(c: Byte, attr: bool, canonical: bool, w: seq<Byte>)
    requires Reference(c, attr, canonical).Some?
    ensures Next(In(0, Escaped(c, attr, canonical) + w, false)) == (Mark(c), In(0, w, false))
  {
    hide RefValue, Next;
    var r := Reference(c, attr, canonical).value;
    var name := r[..|r| - 1];
    assert name + [C_SEMI] == r;
    if r == R_TAB || r == R_LF || r == R_CR {
      HexRef(name, name[2]);
    } else {
      NamedRef(name);
    }
    RefReads(name, w);
  }

  lemma ByteStep(c: Byte, canonical: bool, w: seq<Byte>)
    requires c != 0
    ensures var st := In(0, Escaped(c, false, canonical) + w, false);
            var (t, st1) := Next(st);
            StepOf(t, st1, 0, true) == Step([c], In(0, w, false), 0)
  {
    hide Next;
    if Reference(c, false, canonical).Some? {
      ReferenceReads(c, false, canonical, w);
      assert Mark(c) % 256 == c;
    } else {
      PlainReads(c, w);
    }
  }

  /** Element text survives: every string without NUL, escaped and followed by an end
      tag, is read back, and exactly the text and "</" are consumed. */
  lemma {:induction false} TextReadBack(s: seq<Byte>, canonical: bool, more: seq<Byte>)
    requires 0 !in s
    ensures var st := In(0, Escape(s, false, canonical) + [C_LT, C_SLASH] + more, false);
            Content(st, 0, true) == Out(s, END_TAG, In(0, more, false))
    decreases |s|
  {
    hide Next, StepOf, Escaped;
    var st := In(0, Escape(s, false, canonical) + [C_LT, C_SLASH] + more, false);
    if s == [] {
      EndTagReads(more);
      assert st.rest == [C_LT, C_SLASH] + more;
      EndStops(st, more);
    } else {
      var w := Escape(s[1..], false, canonical) + [C_LT, C_SLASH] + more;
      assert st.rest == Escaped(s[0], false, canonical) + w;
      ByteStep(s[0], canonical, w);
      TextReadBack(s[1..], canonical, more);
      assert [s[0]] + s[1..] == s;
    }
  }

  lemma EndStops(st: In, more: seq<Byte>)
    requires Next(st) == (END_TAG, In(0, more, false))
    ensures Content(st, 0, true) == Out([], END_TAG, In(0, more, false))
  {
    hide Next;
  }

  /** Text written, followed by an end tag and anything else, and read back into a
      look-aside buffer of any capacity. */
  method Exchange(s: seq<Byte>, canonical: bool, more: seq<Byte>, lablen: nat) returns (t: seq<Byte>, next: int, rest: seq<Byte>)
    requires 0 !in s
    ensures t == s && next == END_TAG && rest == more
  {
    hide Escape, Content;
    TextReadBack(s, canonical, more);
    NoNulString(s);
    var w := StringOut([], s, false, canonical);
    assert w == Escape(s, false, canonical);
    var inp := new Source(w + [C_LT, C_SLASH] + more);
    var rd := new Reader(inp);
    var lab := new Buffer(lablen);
    var p := new Parser(rd, lab);
    t := p.StringIn(true);
    next, rest := rd.ahead, inp.rest;
  }
}
