/** XML characters: what soap_string_out writes for a byte and what soap_get makes
    of the bytes that come. */
module XmlToken {
  import opened Wire
  import opened Input
  import Entities

  // SOAP_LT and the other markup codes
  const TAG: int := -2
  const END_TAG: int := -3
  const GT: int := -4
  const QT: int := -5
  const AP: int := -6

  const C_TAB: Byte := 9
  const C_SPACE: Byte := 32
  const C_QUOT: Byte := 34
  const C_HASH: Byte := 35
  const C_AMP: Byte := 38
  const C_APOS: Byte := 39
  const C_SLASH: Byte := 47
  const C_SEMI: Byte := 59
  const C_LT: Byte := 60
  const C_GT: Byte := 62

  // "#x9;" and the other references, after their ampersand
  const R_TAB: seq<Byte> := [35, 120, 57, 59]
  const R_LF: seq<Byte> := [35, 120, 65, 59]
  const R_CR: seq<Byte> := [35, 120, 68, 59]
  const R_AMP: seq<Byte> := [97, 109, 112, 59]
  const R_LT: seq<Byte> := [108, 116, 59]
  const R_GT: seq<Byte> := [103, 116, 59]
  const R_QUOT: seq<Byte> := [113, 117, 111, 116, 59]
  const N_APOS: seq<Byte> := [97, 112, 111, 115]

  // --- writing (soap_string_out, in UTF string mode) --------------------------------------------

  // The reference sent instead of c, if any.  attr: inside an attribute value.
  function Reference(c: Byte, attr: bool, canonical: bool): Option<seq<Byte>> {
    if c == C_TAB && attr then Some(R_TAB)
    else if c == LF && (attr || !canonical) then Some(R_LF)
    else if c == CR then Some(R_CR)
    else if c == C_AMP then Some(R_AMP)
    else if c == C_LT then Some(R_LT)
    else if c == C_GT && !attr then Some(R_GT)
    else if c == C_QUOT && attr then Some(R_QUOT)
    else None
  }

  function Escaped(c: Byte, attr: bool, canonical: bool): seq<Byte> {
    if Reference(c, attr, canonical).Some? then [C_AMP] + Reference(c, attr, canonical).value else [c]
  }

  function Escape(s: seq<Byte>, attr: bool, canonical: bool): seq<Byte> {
    if s == [] then [] else Escaped(s[0], attr, canonical) + Escape(s[1..], attr, canonical)
  }

  lemma {:induction false} EscapeConcat(a: seq<Byte>, b: seq<Byte>, attr: bool, canonical: bool)
    ensures Escape(a + b, attr, canonical) == Escape(a, attr, canonical) + Escape(b, attr, canonical)
  {
    if a == [] {
      assert a + b == b;
    } else {
      assert (a + b)[1..] == a[1..] + b;
      EscapeConcat(a[1..], b, attr, canonical);
    }
  }

  lemma {:induction false} EscapePlain(s: seq<Byte>, attr: bool, canonical: bool)
    requires forall c :: c in s ==> Reference(c, attr, canonical).None?
    ensures Escape(s, attr, canonical) == s
  {
    if s != [] {
      assert s[0] in s;
      EscapePlain(s[1..], attr, canonical);
    }
  }

  // The bytes that sections 2.4, 2.11 and 3.3.3 of XML 1.0 would not leave as they are, and '>'
  // in element text.
  function Special(attr: bool, canonical: bool): set<Byte> {
    {C_AMP, C_LT, CR} + if attr then {C_TAB, LF, C_QUOT} else {C_GT} + if canonical then {} else {LF}
  }

  lemma ReferenceNames(c: Byte, attr: bool, canonical: bool)
    ensures Reference(c, attr, canonical).Some? <==> c in Special(attr, canonical)
    ensures Reference(c, attr, canonical).Some? ==>
              forall b :: b in Reference(c, attr, canonical).value ==> b !in Special(attr, canonical)
  {
  }

  /** None of them but the ampersands of references is sent, and a string is sent as it is
      if and only if it contains none of them. */
  lemma {:induction false} EscapeExactly(s: seq<Byte>, attr: bool, canonical: bool)
    ensures forall b :: b in Escape(s, attr, canonical) && b != C_AMP ==> b !in Special(attr, canonical)
    ensures |Escape(s, attr, canonical)| >= |s|
    ensures Escape(s, attr, canonical) == s <==> forall b :: b in s ==> b !in Special(attr, canonical)
  {
    hide Reference, Special;
    if s != [] {
      ReferenceNames(s[0], attr, canonical);
      EscapeExactly(s[1..], attr, canonical);
      EscapeHead(s, attr, canonical);
      assert s == [s[0]] + s[1..];
    }
  }

  lemma EscapeHead(s: seq<Byte>, attr: bool, canonical: bool)
    requires s != [] && |Escape(s[1..], attr, canonical)| >= |s| - 1
    ensures var r := Reference(s[0], attr, canonical);
            && (forall b :: b in Escape(s, attr, canonical) ==>
                  b in Escape(s[1..], attr, canonical) || (if r.Some? then b == C_AMP || b in r.value else b == s[0]))
            && |Escape(s, attr, canonical)| >= |s|
            && (Escape(s, attr, canonical) == s <==> r.None? && Escape(s[1..], attr, canonical) == s[1..])
  {
    hide Special;
    ReferenceLength(s[0], attr, canonical);
    hide Reference;
    var e := Escape(s[1..], attr, canonical);
    if Reference(s[0], attr, canonical).None? {
      assert ([s[0]] + e)[1..] == e;
      assert s == [s[0]] + s[1..];
    }
  }

  lemma ReferenceLength(c: Byte, attr: bool, canonical: bool)
    ensures Reference(c, attr, canonical).Some? ==> |Reference(c, attr, canonical).value| >= 3
  {
  }

  /** soap_string_out: runs of plain bytes are sent as they are, each other byte as
      a reference. */
  method StringOut(sent: seq<Byte>, s: seq<Byte>, attr: bool, canonical: bool) returns (out: seq<Byte>)
    ensures out == sent + Escape(s, attr, canonical)
  {
    hide Escape, Reference;
    out := sent;
    var start, t := 0, 0;
    EscapeNone(attr, canonical);
    while t < |s|
      invariant 0 <= start <= t <= |s|
      invariant PlainRun(s[start..t], attr, canonical)
      invariant out == sent + Escape(s[..start], attr, canonical)
    {
      var c := s[t];
      RunStep(s, start, t, attr, canonical);
      t := t + 1;
      var r := Reference(c, attr, canonical);
      if r.Some? {
        out := out + s[start..t - 1] + [C_AMP] + r.value;
        start := t;
      } else if 0 < c < 32 {
        // soap_pututf8 sends the control character itself
        out := out + s[start..t - 1] + [c];
        start := t;
      }
    }
    RunDone(s, start, t, attr, canonical);
    assert s[..t] == s;
    out := out + s[start..t];
  }

  // Bytes that are sent as they are.
  ghost predicate PlainRun(s: seq<Byte>, attr: bool, canonical: bool) {
    forall c :: c in s ==> Reference(c, attr, canonical).None?
  }

  lemma EscapeNone(attr: bool, canonical: bool)
    ensures Escape([], attr, canonical) == [] && PlainRun([], attr, canonical)
  {
  }

  lemma RunDone(s: seq<Byte>, start: nat, t: nat, attr: bool, canonical: bool)
    requires start <= t <= |s| && PlainRun(s[start..t], attr, canonical)
    ensures Escape(s[..t], attr, canonical) == Escape(s[..start], attr, canonical) + s[start..t]
  {
    hide Escape, Reference;
    EscapePlain(s[start..t], attr, canonical);
    assert s[..start] + s[start..t] == s[..t];
    EscapeConcat(s[..start], s[start..t], attr, canonical);
  }

  // One more byte after a run: it joins the run, or is sent after it.
  lemma RunStep(s: seq<Byte>, start: nat, t: nat, attr: bool, canonical: bool)
    requires start <= t < |s| && PlainRun(s[start..t], attr, canonical)
    ensures var r := Reference(s[t], attr, canonical);
            && (r.None? ==> PlainRun(s[start..t + 1], attr, canonical))
            && PlainRun(s[t + 1..t + 1], attr, canonical)
            && Escape(s[..t + 1], attr, canonical)
               == Escape(s[..start], attr, canonical) + s[start..t] + (if r.Some? then [C_AMP] + r.value else [s[t]])
  {
    hide Reference;
    assert s[start..t + 1] == s[start..t] + [s[t]];
    RunDone(s, start, t, attr, canonical);
    assert s[..t] + [s[t]] == s[..t + 1];
    EscapeConcat(s[..t], [s[t]], attr, canonical);
    EscapeOne(s[t], attr, canonical);
  }

  lemma EscapeOne(c: Byte, attr: bool, canonical: bool)
    ensures Escape([c], attr, canonical) == Escaped(c, attr, canonical)
  {
    assert [c][1..] == [];
  }

  // --- character references (soap_char) ---------------------------------------------------------

  // How many of the next n bytes come before a semicolon or the end.
  function NameLen(w: seq<Byte>, n: nat): (k: nat)
    ensures k <= n && k <= |w|
    decreases n
  {
    if n == 0 || w == [] || w[0] == C_SEMI then 0 else 1 + NameLen(w[1..], n - 1)
  }

  function Space(c: Byte): bool {
    c == 32 || 9 <= c <= 13
  }

  function SkipSpace(s: seq<Byte>): seq<Byte> {
    if s != [] && Space(s[0]) then SkipSpace(s[1..]) else s
  }

  function DigitIn(c: Byte, base: nat): bool {
    IsHex(c) && HexDigit(c) < base
  }

  function Digits(s: seq<Byte>, base: nat, acc: nat): nat {
    if s != [] && DigitIn(s[0], base) then Digits(s[1..], base, acc * base + HexDigit(s[0])) else acc
  }

  // strtol(s, NULL, base), for the few digits a reference can have
  function StrTol(s: seq<Byte>, base: nat): int {
    var t := SkipSpace(s);
    var neg := t != [] && t[0] == 45;
    var u := if t != [] && (t[0] == 45 || t[0] == 43) then t[1..] else t;
    var v := if base == 16 && |u| > 2 && u[0] == 48 && (u[1] == 120 || u[1] == 88) && IsHex(u[2]) then u[2..] else u;
    if neg then 0 - Digits(v, base, 0) else Digits(v, base, 0)
  }

  // The character a reference stands for.
  ghost function RefValue(name: seq<Byte>): int {
    var tmp := CString(name);
    if tmp != [] && tmp[0] == C_HASH then
      if |tmp| > 1 && (tmp[1] == 120 || tmp[1] == 88) then StrTol(tmp[2..], 16) else StrTol(tmp[1..], 10)
    else if tmp + [C_SEMI] == R_LT then 60
    else if tmp + [C_SEMI] == R_GT then 62
    else if tmp + [C_SEMI] == R_AMP then 38
    else if tmp + [C_SEMI] == R_QUOT then 34
    else if tmp == N_APOS then 39
    else Entities.CodeOf(tmp)
  }

  // c | 0x80000000, as a 32 bit signed integer
  function Mark(c: int): (m: int)
    ensures 0 <= c < 0x8000_0000 ==> m == c - 0x8000_0000
    ensures m < 0
  {
    c % 0x8000_0000 - 0x8000_0000
  }

  // The name of a reference has at most seven bytes; its semicolon is dropped.
  function RefRest(w: seq<Byte>): (r: seq<Byte>)
    ensures |r| <= |w| && (NameLen(w, 7) > 0 ==> |r| < |w|)
  {
    var k := NameLen(w, 7);
    if k < 7 && k < |w| then w[k + 1..] else w[k..]
  }

  // --- reading (soap_get) ------------------------------------------------------------------------

  const C_BANG: Byte := 33
  const C_PERCENT: Byte := 37
  const C_DASH: Byte := 45
  const C_ASK: Byte := 63
  const C_OPEN: Byte := 91   // '['
  const C_CLOSE: Byte := 93  // ']'

  // The stream behind one character that was put back (0: none), and whether it is inside
  // a CDATA section.
  datatype In = In(ahead: int, rest: seq<Byte>, cdata: bool)

  // Reading makes it smaller, except at the end.
  function Measure(st: In): nat {
    |st.rest| + Weight(st.ahead)
  }

  function Weight(c: int): nat {
    if c == END_TAG then 2 else if c == 0 || c == EOF then 0 else 1
  }

  // soap_get1: the next byte, and what is left behind it
  function Head(w: seq<Byte>): (c: int)
    ensures EOF <= c < 256 && (c == EOF <==> w == [])
  {
    if w == [] then EOF else w[0]
  }

  function Rest(w: seq<Byte>): (r: seq<Byte>)
    ensures |r| <= |w| && (w != [] ==> |r| < |w|)
  {
    if w == [] then [] else w[1..]
  }

  // The bytes from c on, c having been read.
  function Whole(c: int, w: seq<Byte>): (r: seq<Byte>)
    requires EOF <= c < 256
    ensures c == EOF ==> r == []
    ensures c != EOF ==> |r| == |w| + 1 && r[0] == c && r[1..] == w
  {
    if c == EOF then [] else [c as Byte] + w
  }

  function SkipBlank(w: seq<Byte>): (r: seq<Byte>)
    ensures |r| <= |w| && (r != [] ==> r[0] > 32)
  {
    if w != [] && w[0] <= 32 then SkipBlank(w[1..]) else w
  }

  // The rest of w behind the first byte b, or nothing.
  function Behind(w: seq<Byte>, b: Byte): (r: seq<Byte>)
    ensures |r| <= |w| && (w != [] ==> |r| < |w|)
  {
    if w == [] then [] else if w[0] == b then w[1..] else Behind(w[1..], b)
  }

  lemma BehindMissing(w: seq<Byte>, b: Byte)
    requires b !in w
    ensures Behind(w, b) == []
  {
    if w != [] {
      BehindMissing(w[1..], b);
    }
  }

  // The rest of w behind the first two dashes, read in pairs as soap_get does.
  function BehindDashes(w: seq<Byte>): (r: seq<Byte>)
    ensures |r| <= |w|
  {
    if w == [] then []
    else if w[0] == C_DASH && |w| > 1 then if w[1] == C_DASH then w[2..] else BehindDashes(w[2..])
    else BehindDashes(w[1..])
  }

  // The rest of w behind the '>' that closes k open '<'.
  function BehindDecl(w: seq<Byte>, k: nat): (r: seq<Byte>)
    ensures |r| <= |w|
  {
    if w == [] then []
    else if w[0] == C_GT then if k <= 1 then w[1..] else BehindDecl(w[1..], k - 1)
    else BehindDecl(w[1..], if w[0] == C_LT then k + 1 else k)
  }

  // What follows a comment, a declaration or an instruction, w being what stands behind
  // its '<' and white space.
  function Skipped(w: seq<Byte>): (r: seq<Byte>)
    requires w != []
    ensures |r| < |w|
  {
    var v := w[1..];
    if w[0] == C_ASK then BehindDecl(Behind(v, C_ASK), 1)
    else if w[0] == C_BANG && |v| > 1 && v[0] == C_DASH then
      if v[1] == C_DASH then BehindDecl(BehindDashes(v[2..]), 1) else BehindDecl(v[1..], 1)
    else BehindDecl(v, 1)
  }

  // What a character that is not markup with further bytes stands for.
  function Token(c: int): int {
    if c == C_GT then GT else if c == C_QUOT then QT else if c == C_APOS then AP else c
  }

  // The next token and the stream after it, c having been read and w still to be read.
  ghost function Scan(c: int, w: seq<Byte>, cdata: bool): (r: (int, In))
    decreases |w|
  {
    if c == EOF then (EOF, In(0, w, cdata))
    else if cdata then
      if c != C_CLOSE then (c, In(0, w, true))
      else if Head(w) != C_CLOSE then (C_CLOSE, In(0, w, true))
      else if Head(w[1..]) != C_GT then (C_CLOSE, In(C_CLOSE, w[1..], true))
      else
        // the section ends
        Scan(Head(w[2..]), Rest(w[2..]), false)
    else if c == C_LT then
      var v := SkipBlank(w);
      if v == [] then (TAG, In(0, [], false))
      else if v[0] == C_SLASH then (END_TAG, In(0, v[1..], false))
      else if v[0] == C_BANG || v[0] == C_ASK || v[0] == C_PERCENT then
        if v[0] == C_BANG && Head(v[1..]) == C_OPEN then
          var u := Behind(v[2..], C_OPEN);
          if C_OPEN !in v[2..] then (EOF, In(0, [], false)) else Scan(Head(u), Rest(u), true)
        else
          var u := Skipped(v);
          Scan(Head(u), Rest(u), false)
      else (TAG, In(0, v, false))
    else if c == C_AMP then (Mark(RefValue(w[..NameLen(w, 7)])), In(0, RefRest(w), false))
    else (Token(c), In(0, w, false))
  }

  ghost function Next(st: In): (r: (int, In)) {
    if st.ahead == EOF then (EOF, st)
    else if st.ahead != 0 then Scan(st.ahead, st.rest, st.cdata)
    else Scan(Head(st.rest), Rest(st.rest), st.cdata)
  }

  lemma ScanShrinks(c: int, w: seq<Byte>, cdata: bool)
    ensures var (t, st) := Scan(c, w, cdata);
            && |st.rest| <= |w| && Measure(st) <= |w|
            && (c == EOF ==> t == EOF)
            && (t == END_TAG ==> c == END_TAG || Measure(st) < |w|)
    decreases |w|
  {
    hide RefValue, SkipBlank, NameLen, RefRest, Skipped, Behind;
    if c == EOF {
    } else if cdata {
      if c == C_CLOSE && Head(w) == C_CLOSE && Head(w[1..]) == C_GT {
        ScanShrinks(Head(w[2..]), Rest(w[2..]), false);
      }
    } else if c == C_LT {
      var v := SkipBlank(w);
      if v != [] && v[0] == C_BANG && Head(v[1..]) == C_OPEN {
        var u := Behind(v[2..], C_OPEN);
        ScanShrinks(Head(u), Rest(u), true);
      } else if v != [] && v[0] != C_SLASH && (v[0] == C_BANG || v[0] == C_ASK || v[0] == C_PERCENT) {
        var u := Skipped(v);
        ScanShrinks(Head(u), Rest(u), false);
      }
    } else if c == C_AMP {
      RefShrinks(w);
    }
  }

  // Only at the end of the stream, or for a reference such as "&#-1;", is EOF returned.
  lemma NextShrinks(st: In)
    ensures var (c, st1) := Next(st);
            && |st1.rest| <= |st.rest|
            && Measure(st1) + (if c == EOF then 0 else if c == END_TAG then 2 else 1) <= Measure(st)
  {
    hide Scan;
    if st.ahead != EOF {
      if st.ahead != 0 {
        ScanShrinks(st.ahead, st.rest, st.cdata);
      } else {
        ScanShrinks(Head(st.rest), Rest(st.rest), st.cdata);
      }
    }
  }

  lemma RefShrinks(w: seq<Byte>)
    ensures Mark(RefValue(w[..NameLen(w, 7)])) == END_TAG ==> |RefRest(w)| < |w|
  {
    if NameLen(w, 7) == 0 {
      assert w[..0] == [];
      Entities.CodeRange([]);
    }
  }

  // A byte sent as it is.
  lemma PlainReads(c: Byte, w: seq<Byte>)
    requires c != C_LT && c != C_AMP
    ensures Next(In(0, [c] + w, false)) == (Token(c), In(0, w, false))
  {
    assert ([c] + w)[1..] == w;
  }

  lemma EndTagReads(w: seq<Byte>)
    ensures Next(In(0, [C_LT, C_SLASH] + w, false)) == (END_TAG, In(0, w, false))
  {
    var v := [C_LT, C_SLASH] + w;
    assert v[1..] == [C_SLASH] + w && SkipBlank(v[1..]) == v[1..] && v[1..][1..] == w;
  }

  class Reader {
    const inp: Source
    var ahead: int
    var cdata: bool

    constructor (s: Source)
      ensures inp == s && ahead == 0 && !cdata
    {
      inp, ahead, cdata := s, 0, false;
    }

    ghost function Now(): In
      reads this, inp
    {
      In(ahead, inp.rest, cdata)
    }

    // soap_char
    method GetChar() returns (v: int)
      modifies inp
      ensures v == RefValue(old(inp.rest)[..NameLen(old(inp.rest), 7)]) && inp.rest == RefRest(old(inp.rest))
    {
      hide RefValue;
      ghost var w := inp.rest;
      var tmp: seq<Byte> := [];
      var i := 0;
      while i < 7
        invariant 0 <= i <= 7 && i <= |w| && tmp == w[..i] && inp.rest == w[i..]
        invariant i + NameLen(w[i..], 7 - i) == NameLen(w, 7)
      {
        var c := inp.Get();
        if c == C_SEMI || c == EOF {
          break;
        }
        tmp := tmp + [c];
        i := i + 1;
      }
      v := CharOf(tmp);
    }

    // What the characters tmp between '&' and ';' stand for.
    static method CharOf(name: seq<Byte>) returns (v: int)
      ensures v == RefValue(name)
    {
      hide StrTol;
      var tmp := CString(name);
      if tmp != [] && tmp[0] == C_HASH {
        if |tmp| > 1 && (tmp[1] == 120 || tmp[1] == 88) {
          return StrTol(tmp[2..], 16);
        }
        return StrTol(tmp[1..], 10);
      }
      var s := tmp + [C_SEMI];
      if s == R_LT {
        return 60;
      }
      if s == R_GT {
        return 62;
      }
      if s == R_AMP {
        return 38;
      }
      if s == R_QUOT {
        return 34;
      }
      if tmp == N_APOS {
        return 39;
      }
      v := Entities.LookUp(tmp);
    }

    // The next byte that is no white space, or EOF.
    method GetBlank() returns (c: int)
      modifies inp
      ensures c == Head(SkipBlank(old(inp.rest))) && inp.rest == Rest(SkipBlank(old(inp.rest)))
    {
      ghost var w := inp.rest;
      c := inp.Get();
      while c != EOF && c <= 32
        invariant EOF <= c < 256 && (c == EOF ==> inp.rest == []) && SkipBlank(w) == SkipBlank(Whole(c, inp.rest))
        decreases |inp.rest| + if c == EOF then 0 else 1
      {
        c := inp.Get();
      }
    }

    // Reads on to the first b, or to the end.
    method SkipTo(b: Byte) returns (c: int)
      modifies inp
      ensures inp.rest == Behind(old(inp.rest), b) && c == if b in old(inp.rest) then b else EOF
    {
      ghost var w := inp.rest;
      c := inp.Get();
      while c != EOF && c != b
        invariant EOF <= c < 256 && (c == EOF ==> inp.rest == []) && Behind(w, b) == Behind(Whole(c, inp.rest), b)
        invariant b in w <==> b in Whole(c, inp.rest)
        decreases |inp.rest| + if c == EOF then 0 else 1
      {
        c := inp.Get();
      }
    }

    // The loop over the text of a comment.
    method SkipDashes() returns (c: int)
      modifies inp
      ensures inp.rest == BehindDashes(old(inp.rest)) && (c == EOF ==> inp.rest == []) && (c != EOF ==> c == C_DASH)
    {
      ghost var w := inp.rest;
      c := 0;
      while c != EOF
        invariant c == EOF ==> BehindDashes(w) == inp.rest == []
        invariant c != EOF ==> BehindDashes(w) == BehindDashes(inp.rest)
        decreases |inp.rest| + if c == EOF then 0 else 1
      {
        ghost var v := inp.rest;
        c := inp.Get();
        if c == C_DASH {
          c := inp.Get();
          if c == C_DASH {
            assert v[1..][1..] == v[2..];
            break;
          }
          assert |v| > 1 ==> v[1..][1..] == v[2..];
        }
      }
    }

    // The loop that finds the '>' of a declaration, c0 being the byte just read.
    method SkipDecl(c0: int) returns (c: int)
      requires EOF <= c0 < 256 && (c0 == EOF ==> inp.rest == [])
      modifies inp
      ensures inp.rest == BehindDecl(Whole(c0, old(inp.rest)), 1) && (c == EOF ==> inp.rest == [])
    {
      ghost var w := Whole(c0, inp.rest);
      var k := 1;
      c := c0;
      while c != EOF
        invariant k >= 1 && EOF <= c < 256 && (c == EOF ==> inp.rest == []) && BehindDecl(w, 1) == BehindDecl(Whole(c, inp.rest), k)
        decreases |inp.rest| + if c == EOF then 0 else 1
      {
        if c == C_LT {
          k := k + 1;
        } else if c == C_GT {
          k := k - 1;
          if k <= 0 {
            break;
          }
        }
        c := inp.Get();
      }
    }

    // soap_get_pi, but for the character encoding it may announce: the byte behind the
    // second question mark.
    method GetPi() returns (c: int)
      modifies inp
      ensures EOF <= c < 256 && (c == EOF ==> inp.rest == []) && Whole(c, inp.rest) == Behind(old(inp.rest), C_ASK)
    {
      c := SkipTo(C_ASK);
      if c != EOF {
        c := inp.Get();
      } else {
        BehindMissing(old(inp.rest), C_ASK);
      }
    }

    /** soap_get: the next token, behind any comments and instructions, with the characters
        of CDATA sections as they are. */
    method Get() returns (c: int)
      modifies this, inp
      ensures (c, Now()) == Next(old(Now()))
    {
      hide RefValue, SkipBlank, NameLen, RefRest, Skipped, Behind;
      ghost var goal := Next(Now());
      c := ahead;
      if c == EOF {
        return;
      }
      if c != 0 {
        ahead := 0;
      } else {
        c := inp.Get();
      }
      while c != EOF
        invariant ahead == 0 && goal == Scan(c, inp.rest, cdata)
        decreases |inp.rest|, if c == EOF then 0 else 1
      {
        if cdata {
          if c != C_CLOSE {
            return;
          }
          ghost var w := inp.rest;
          c := inp.Get();
          if c != C_CLOSE {
            if c != EOF {
              inp.Back(c);
            }
            assert inp.rest == w;
            return C_CLOSE;
          }
          c := inp.Peek();
          if c != C_GT {
            ahead := C_CLOSE;
            return C_CLOSE;
          }
          cdata := false;
          c := inp.Get();
          c := inp.Get();
          assert w[1..][1..] == w[2..];
        }
        var done;
        c, done := Switch(c, goal);
        if done {
          return;
        }
      }
    }

    // One round outside CDATA sections: a token, or the byte behind what is skipped.
    method Switch(c0: int, ghost goal: (int, In)) returns (c: int, done: bool)
      requires ahead == 0 && !cdata && goal == Scan(c0, inp.rest, false)
      modifies this`cdata, inp
      ensures if done then goal == (c, Now()) else goal == Scan(c, inp.rest, cdata) && (|inp.rest| < |old(inp.rest)| || c == EOF)
      ensures |inp.rest| <= |old(inp.rest)|
    {
      hide RefValue, SkipBlank, NameLen, RefRest, Behind;
      c, done := c0, true;
      if c == C_LT {
        ghost var v := SkipBlank(inp.rest);
        c := GetBlank();
        if c == C_BANG || c == C_ASK || c == C_PERCENT {
          c, done := SkipMarkup(c, goal);
          return;
        }
        if c == C_SLASH {
          return END_TAG, true;
        }
        if c != EOF {
          inp.Back(c);
        }
        assert inp.rest == v;
        return TAG, true;
      }
      if c == C_AMP {
        c := GetChar();
        return Mark(c), true;
      }
      c := Token(c);
    }

    // What comes behind a '<' and '!', '?' or '%'.
    method SkipMarkup(c0: int, ghost goal: (int, In)) returns (c: int, done: bool)
      requires ahead == 0 && !cdata && c0 in {C_BANG, C_ASK, C_PERCENT}
      requires goal == if c0 == C_BANG && Head(inp.rest) == C_OPEN then
                         if C_OPEN !in inp.rest[1..] then (EOF, In(0, [], false))
                         else Scan(Head(Behind(inp.rest[1..], C_OPEN)), Rest(Behind(inp.rest[1..], C_OPEN)), true)
                       else Scan(Head(Skipped(Whole(c0, inp.rest))), Rest(Skipped(Whole(c0, inp.rest))), false)
      modifies this`cdata, inp
      ensures ahead == 0 && if done then goal == (c, Now()) else goal == Scan(c, inp.rest, cdata)
      ensures |inp.rest| <= |old(inp.rest)|
    {
      hide Scan, Behind, BehindDashes;
      ghost var v := inp.rest;
      ghost var u := Skipped(Whole(c0, v));
      c := c0;
      if c == C_BANG {
        c := inp.Get();
        if c == C_OPEN {
          c := SkipTo(C_OPEN);
          if c == EOF {
            BehindMissing(v[1..], C_OPEN);
            return EOF, true;
          }
          cdata := true;
          c := inp.Get();
          return c, false;
        }
        if c == C_DASH {
          c := inp.Get();
          if c == C_DASH {
            assert v[1..][1..] == v[2..];
            c := SkipDashes();
          }
        }
      } else if c == C_ASK {
        c := GetPi();
      }
      c := SkipDecl(c);
      assert inp.rest == u;
      if c == EOF {
        ScanEnd();
        return EOF, true;
      }
      c := inp.Get();
      done := false;
    }

    lemma ScanEnd()
      ensures Scan(EOF, [], false) == (EOF, In(0, [], false))
    {
    }
  }
}
