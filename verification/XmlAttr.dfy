/** Attribute values: read up to their delimiter into a buffer that may be too small. */
module XmlAttr {
  import opened Wire
  import opened Input
  import opened XmlToken
  import opened Lab
  import XmlText

  const BLANK_DELIMITER: int := 32

  // The delimiters: either quote, or white space for an unquoted value.
  type Delimiter = d: int | d == QT || d == AP || d == BLANK_DELIMITER witness QT

  datatype Step = Char(b: Byte, st: In) | End(st: In) | Eof

  // What a token does to an attribute value.
  function StepOf(c: int, st: In, d: Delimiter): Step {
    if c == END_TAG then Char(C_LT, st.(ahead := C_SLASH))
    else if c == TAG then Char(C_LT, st)
    else if c == GT then if d == BLANK_DELIMITER then End(st.(ahead := GT)) else Char(C_GT, st)
    else if c == QT then if d == QT then End(st) else Char(C_QUOT, st)
    else if c == AP then if d == AP then End(st) else Char(C_APOS, st)
    else if (c == C_TAB || c == LF || c == CR || c == C_SPACE || c == C_SLASH) && d == BLANK_DELIMITER then End(st.(ahead := c))
    else if c == EOF then Eof
    else Char(c % 256, st)
  }

  lemma StepShrinks(st: In, d: Delimiter)
    ensures var (c, st1) := Next(st);
            var s := StepOf(c, st1, d);
            s.Char? ==> Measure(s.st) < Measure(st)
  {
    hide Next;
    NextShrinks(st);
  }

  // The value, whether its end was found, and the stream behind it.
  datatype Out = Out(bytes: seq<Byte>, ok: bool, st: In)

  function Prefixed(p: seq<Byte>, o: Out): Out {
    o.(bytes := p + o.bytes)
  }

  ghost function Value(st: In, d: Delimiter): Out
    decreases Measure(st)
  {
    var (c, st1) := Next(st);
    match StepOf(c, st1, d)
    case Char(b, st2) =>
      StepShrinks(st, d);
      Prefixed([b], Value(st2, d))
    case End(st2) => Out([], true, st2)
    case Eof => Out([], false, st1)
  }

  // got has been read; the rest of the value is still in st.
  ghost predicate Going(goal: Out, got: seq<Byte>, st: In, d: Delimiter) {
    goal == Prefixed(got, Value(st, d))
  }

  lemma GoingStart(st: In, d: Delimiter, none: seq<Byte>)
    requires none == []
    ensures Going(Value(st, d), none, st, d)
  {
  }

  lemma GoingStep(goal: Out, got: seq<Byte>, st: In, d: Delimiter)
    requires Going(goal, got, st, d)
    ensures var (c, st1) := Next(st);
            var s := StepOf(c, st1, d);
            && (s.Char? ==> Going(goal, got + [s.b], s.st, d) && Measure(s.st) < Measure(st))
            && (s.End? ==> goal == Out(got, true, s.st))
            && (s.Eof? ==> goal == Out(got, false, st1))
  {
    hide Next, StepOf, Measure;
    var (c, st1) := Next(st);
    var s := StepOf(c, st1, d);
    assert got + [] == got;
    if s.Char? {
      StepShrinks(st, d);
      var o := Value(s.st, d);
      assert got + ([s.b] + o.bytes) == got + [s.b] + o.bytes;
    }
  }

  datatype Status = OK | Full | NoEnd

  class Attributes {
    const rd: Reader
    const lab: Buffer

    constructor (r: Reader, l: Buffer)
      ensures rd == r && lab == l
    {
      rd, lab := r, l;
    }

    /** soap_getattrval: stores the value at s in a buffer with room up to its end.
        Full: the room was used up before the delimiter came. */
    method GetAttrVal(a: array<Byte>, s: nat, d: Delimiter, ghost goal: Out, ghost got: seq<Byte>) returns (r: Status)
      requires s <= a.Length && Going(goal, got, rd.Now(), d)
      modifies rd, rd.inp, a
      ensures a[..s] == old(a[..s])
      ensures r == OK ==> exists i: nat :: s <= i < a.Length && a[i] == 0 && goal == Out(got + a[s..i], true, rd.Now())
      ensures r == Full ==> Going(goal, got + a[s..], rd.Now(), d) && Measure(rd.Now()) + (a.Length - s) <= old(Measure(rd.Now()))
      ensures r == NoEnd ==> !goal.ok && goal.st == rd.Now()
    {
      hide Going, Next, Measure;
      ghost var measure := Measure(rd.Now());
      var i := s;
      assert got + a[s..s] == got;
      while i < a.Length
        invariant s <= i <= a.Length && a[..s] == old(a[..s])
        invariant Going(goal, got + a[s..i], rd.Now(), d) && Measure(rd.Now()) + (i - s) <= measure
      {
        ghost var before := got + a[s..i];
        GoingStep(goal, before, rd.Now(), d);
        var c := rd.Get();
        match c {
          case -3 =>
            a[i] := C_LT;
            rd.ahead := C_SLASH;
          case -2 =>
            a[i] := C_LT;
          case -4 =>
            if d == BLANK_DELIMITER {
              rd.ahead := c;
              a[i] := 0;
              return OK;
            }
            a[i] := C_GT;
          case -5 =>
            if c == d {
              a[i] := 0;
              return OK;
            }
            a[i] := C_QUOT;
          case -6 =>
            if c == d {
              a[i] := 0;
              return OK;
            }
            a[i] := C_APOS;
          case _ =>
            if (c == C_TAB || c == LF || c == CR || c == C_SPACE || c == C_SLASH) && d == BLANK_DELIMITER {
              rd.ahead := c;
              a[i] := 0;
              return OK;
            }
            if c == EOF {
              return NoEnd;
            }
            a[i] := c % 256;
        }
        i := i + 1;
        assert got + a[s..i] == before + [a[i - 1]];
      }
      assert a[s..i] == a[s..];
      r := Full;
    }
  
    /** The value of an attribute: first into the buffer it has from before, and when
        that is full through the look-aside buffer, resumed after every growth. */
    method ReadValue(value: array<Byte>, d: Delimiter) returns (ok: bool, out: array<Byte>)
      requires lab.Valid() && value != lab.buf
      modifies rd, rd.inp, value, lab, lab.buf
      ensures var o := Value(old(rd.Now()), d);
              && ok == o.ok && rd.Now() == o.st
              && (ok ==> CString(out[..]) == CString(o.bytes) && |CString(o.bytes)| < out.Length)
      ensures out == value || fresh(out)
    {
      hide Going, Value, CString, Measure;
      ghost var goal := Value(rd.Now(), d);
      out := value;
      GoingStart(rd.Now(), d, []);
      var r := GetAttrVal(value, 0, d, goal, []);
      if r == OK {
        StoredString(value, 0, goal, [], rd.Now());
        return true, value;
      }
      if r == NoEnd {
        return false, value;
      }
      assert [] + value[0..] == value[..];
      lab.Store(value[..]);
      while r == Full
        invariant lab.Valid() && (lab.buf == old(lab.buf) || fresh(lab.buf))
        invariant r == Full ==> lab.idx < lab.buf.Length && Going(goal, lab.buf[..lab.idx], rd.Now(), d)
        invariant r == OK ==> goal.ok && goal.st == rd.Now() && CString(lab.buf[..]) == CString(goal.bytes) && |CString(goal.bytes)| < lab.buf.Length
        invariant r == NoEnd ==> !goal.ok && goal.st == rd.Now()
        decreases if r == Full then 1 else 0, Measure(rd.Now())
      {
        ghost var got := lab.buf[..lab.idx];
        r := GetAttrVal(lab.buf, lab.idx, d, goal, got);
        if r == Full {
          assert lab.buf[..lab.buf.Length] == got + lab.buf[lab.idx..];
          lab.idx := lab.buf.Length;
          lab.Reserve(0);
        } else if r == OK {
          StoredString(lab.buf, lab.idx, goal, got, rd.Now());
        }
      }
      if r == NoEnd {
        return false, value;
      }
      out := NewValue(CString(lab.buf[..]));
      XmlText.CStringTwice(lab.buf[..]);
      ok := true;
    }

    // A new buffer for the value: as large as the look-aside buffer if that held the
    // start of it, else at least SOAP_LABLEN.
    method NewValue(text: seq<Byte>) returns (out: array<Byte>)
      requires |text| < lab.buf.Length
      ensures fresh(out) && CString(out[..]) == CString(text) && |text| < out.Length
    {
      hide CString;
      var size := if lab.idx > 0 then lab.buf.Length else if |text| + 1 < LABLEN then LABLEN else |text| + 1;
      out := new Byte[size](_ => 0);
      forall i | 0 <= i < |text| {
        out[i] := text[i];
      }
      assert out[..|text|] == text;
      XmlText.CStringOfArray(out, |text|);
    }

    // A value stored up to its NUL, behind what had been read before.
    lemma StoredString(a: array<Byte>, s: nat, goal: Out, got: seq<Byte>, st: In)
      requires s <= a.Length && got == a[..s]
      requires exists i: nat :: s <= i < a.Length && a[i] == 0 && goal == Out(got + a[s..i], true, st)
      ensures goal.ok && goal.st == st && CString(a[..]) == CString(goal.bytes) && |CString(goal.bytes)| < a.Length
    {
      var i: nat :| s <= i < a.Length && a[i] == 0 && goal == Out(got + a[s..i], true, st);
      assert got + a[s..i] == a[..i];
      XmlText.CStringOfArray(a, i);
    }
  }

  // --- values are read back ---------------------------------------------------------------------------

  // A value that does not contain what would end it; quotes are escaped.
  ghost predicate Bare(s: seq<Byte>, d: Delimiter) {
    && 0 !in s && (d == AP ==> C_APOS !in s)
    && (d == BLANK_DELIMITER ==> C_SPACE !in s && C_SLASH !in s && C_GT !in s)
  }

  // t ends a value with this delimiter.
  predicate Ends(t: Byte, d: Delimiter) {
    if d == QT then t == C_QUOT
    else if d == AP then t == C_APOS
    else t == C_TAB || t == LF || t == CR || t == C_SPACE || t == C_SLASH || t == C_GT
  }

  // What is left behind it: a quote is consumed, anything else is put back.
  function Behind(t: Byte, d: Delimiter, more: seq<Byte>): In {
    In(if d == BLANK_DELIMITER then Token(t) else 0, more, false)
  }

  lemma ByteStep(c: Byte, canonical: bool, w: seq<Byte>, d: Delimiter)
    requires c != 0 && (d == AP ==> c != C_APOS) && (d == BLANK_DELIMITER ==> c != C_SPACE && c != C_SLASH && c != C_GT)
    ensures var st := In(0, Escaped(c, true, canonical) + w, false);
            var (t, st1) := Next(st);
            StepOf(t, st1, d) == Char(c, In(0, w, false))
  {
    hide Next;
    if Reference(c, true, canonical).Some? {
      XmlText.ReferenceReads(c, true, canonical, w);
      assert Mark(c) % 256 == c;
    } else {
      PlainReads(c, w);
    }
  }

  lemma EndStep(t: Byte, d: Delimiter, more: seq<Byte>)
    requires Ends(t, d)
    ensures Value(In(0, [t] + more, false), d) == Out([], true, Behind(t, d, more))
  {
    hide Next;
    PlainReads(t, more);
  }

  /** A value survives in quotes, in apostrophes when it contains none, and unquoted when it
      contains no blank, slash or '>': every string without NUL, escaped and followed by what
      ends it, is read back, and what ends an unquoted value is still to be read. */
  lemma {:induction false} DelimitedReadBack(s: seq<Byte>, canonical: bool, d: Delimiter, t: Byte, more: seq<Byte>)
    requires Bare(s, d) && Ends(t, d)
    ensures Value(In(0, Escape(s, true, canonical) + [t] + more, false), d) == Out(s, true, Behind(t, d, more))
    decreases |s|
  {
    hide Next, StepOf, Escaped, Ends, Behind;
    var st := In(0, Escape(s, true, canonical) + [t] + more, false);
    if s == [] {
      assert st.rest == [t] + more;
      EndStep(t, d, more);
    } else {
      var w := Escape(s[1..], true, canonical) + [t] + more;
      assert st.rest == Escaped(s[0], true, canonical) + w;
      assert s[0] in s && forall c :: c in s[1..] ==> c in s;
      ByteStep(s[0], canonical, w, d);
      DelimitedReadBack(s[1..], canonical, d, t, more);
      assert [s[0]] + s[1..] == s;
    }
  }

  /** An attribute value survives: every string without NUL, escaped and quoted, is
      read back, and exactly the text and the closing quote are consumed. */
  lemma ValueReadBack(s: seq<Byte>, canonical: bool, more: seq<Byte>)
    requires 0 !in s
    ensures var st := In(0, Escape(s, true, canonical) + [C_QUOT] + more, false);
            Value(st, QT) == Out(s, true, In(0, more, false))
  {
    hide Value, Escape;
    DelimitedReadBack(s, canonical, QT, C_QUOT, more);
  }

  /** A value written, followed by its closing quote and anything else, and read back
      into a buffer of any size, through a look-aside buffer of any capacity. */
  method Exchange(s: seq<Byte>, canonical: bool, more: seq<Byte>, size: nat, lablen: nat) returns (t: seq<Byte>, rest: seq<Byte>)
    requires 0 !in s
    ensures t == s && rest == more
  {
    hide Escape, Value;
    ValueReadBack(s, canonical, more);
    NoNulString(s);
    var w := StringOut([], s, true, canonical);
    assert w == Escape(s, true, canonical);
    var inp := new Source(w + [C_QUOT] + more);
    var rd := new Reader(inp);
    var lab := new Buffer(lablen);
    var a := new Attributes(rd, lab);
    var value := new Byte[size](_ => 0);
    var ok, out := a.ReadValue(value, QT);
    t := CString(out[..]);
    rest := inp.rest;
  }
}
