/** Comments, instructions and CDATA sections inside element text: the first two are read
    over, the text of the last is taken as it stands. */
module XmlMarkup {
  import opened Wire
  import opened XmlToken
  import opened XmlText

  const COMMENT: seq<Byte> := [C_LT, C_BANG, C_DASH, C_DASH]
  const COMMENT_END: seq<Byte> := [C_DASH, C_DASH, C_GT]
  const SECTION: seq<Byte> := [C_LT, C_BANG, C_OPEN, 67, 68, 65, 84, 65, C_OPEN]  // "<![CDATA["
  const SECTION_END: seq<Byte> := [C_CLOSE, C_CLOSE, C_GT]
  const PI: seq<Byte> := [C_LT, C_ASK]
  const PI_END: seq<Byte> := [C_ASK, C_GT]

  // Section 2.5 of XML 1.0: no two dashes in a comment, nor one at its end.
  ghost predicate CommentText(s: seq<Byte>) {
    && (forall i :: 0 <= i < |s| - 1 && s[i] == C_DASH ==> s[i + 1] != C_DASH)
    && (s != [] ==> s[|s| - 1] != C_DASH)
  }

  lemma {:induction false} DashesFound(s: seq<Byte>, w: seq<Byte>)
    requires CommentText(s)
    ensures BehindDashes(s + ([C_DASH, C_DASH] + w)) == w
    decreases |s|
  {
    var v := s + ([C_DASH, C_DASH] + w);
    if s == [] {
      assert v[2..] == w;
    } else if s[0] != C_DASH {
      assert v[1..] == s[1..] + ([C_DASH, C_DASH] + w);
      assert forall i :: 0 <= i < |s| - 1 ==> s[1..][i] == s[i + 1];
      DashesFound(s[1..], w);
    } else {
      assert v[2..] == s[2..] + ([C_DASH, C_DASH] + w) && v[1] == s[1];
      assert forall i :: 0 <= i < |s| - 2 ==> s[2..][i] == s[i + 2];
      DashesFound(s[2..], w);
    }
  }

  // What comes behind markup that is read over is the next thing read.
  lemma MarkupOver(v: seq<Byte>, w: seq<Byte>)
    requires v != [] && (v[0] == C_BANG || v[0] == C_ASK || v[0] == C_PERCENT)
    requires (v[0] == C_BANG ==> Head(v[1..]) != C_OPEN) && Skipped(v) == w
    ensures Next(In(0, [C_LT] + v, false)) == Next(In(0, w, false))
  {
    hide Skipped;
    assert ([C_LT] + v)[1..] == v && SkipBlank(v) == v;
  }

  /** A comment is read over: what is read next is what stands behind it. */
  lemma CommentSkipped(s: seq<Byte>, w: seq<Byte>)
    requires CommentText(s)
    ensures Next(In(0, COMMENT + s + COMMENT_END + w, false)) == Next(In(0, w, false))
  {
    var u := s + ([C_DASH, C_DASH] + ([C_GT] + w));
    var v := [C_BANG, C_DASH, C_DASH] + u;
    assert COMMENT + s + COMMENT_END + w == [C_LT] + v;
    assert v[1..][2..] == u;
    DashesFound(s, [C_GT] + w);
    assert ([C_GT] + w)[1..] == w;
    assert Skipped(v) == BehindDecl(BehindDashes(u), 1);
    MarkupOver(v, w);
  }

  lemma {:induction false} Found(s: seq<Byte>, b: Byte, w: seq<Byte>)
    requires b !in s
    ensures Behind(s + ([b] + w), b) == w
  {
    if s == [] {
      assert ([b] + w)[1..] == w && s + ([b] + w) == [b] + w;
    } else {
      assert s[0] in s && (s + ([b] + w))[1..] == s[1..] + ([b] + w);
      Found(s[1..], b, w);
    }
  }

  /** So is an instruction without a question mark in it. */
  lemma InstructionSkipped(s: seq<Byte>, w: seq<Byte>)
    requires C_ASK !in s
    ensures Next(In(0, PI + s + PI_END + w, false)) == Next(In(0, w, false))
  {
    var u := s + ([C_ASK] + ([C_GT] + w));
    var v := [C_ASK] + u;
    assert PI + s + PI_END + w == [C_LT] + v;
    assert v[1..] == u;
    Found(s, C_ASK, [C_GT] + w);
    assert ([C_GT] + w)[1..] == w;
    MarkupOver(v, w);
  }

  // The '<' and '>' of s balance, k being open before it and never none in between.
  function Nesting(s: seq<Byte>, k: nat): Option<nat> {
    if s == [] then Some(k)
    else if s[0] == C_LT then Nesting(s[1..], k + 1)
    else if s[0] == C_GT then if k <= 1 then None else Nesting(s[1..], k - 1)
    else Nesting(s[1..], k)
  }

  lemma {:induction false} DeclFound(s: seq<Byte>, w: seq<Byte>, k: nat)
    requires k > 0 && Nesting(s, k) == Some(1)
    ensures BehindDecl(s + ([C_GT] + w), k) == w
    decreases |s|
  {
    var v := s + ([C_GT] + w);
    if s == [] {
      assert v == [C_GT] + w && v[1..] == w;
    } else {
      assert v[1..] == s[1..] + ([C_GT] + w);
      DeclFound(s[1..], w, if s[0] == C_LT then k + 1 else if s[0] == C_GT then k - 1 else k);
    }
  }

  lemma DeclarationEnds(start: Byte, s: seq<Byte>, w: seq<Byte>)
    requires start == C_BANG || start == C_PERCENT
    requires Nesting(s, 1) == Some(1)
    requires start == C_BANG ==> |s| > 1 ==> s[0] != C_DASH || s[1] != C_DASH
    ensures Skipped([start] + (s + ([C_GT] + w))) == w
  {
    hide BehindDashes, Behind, Nesting, BehindDecl;
    var u := s + ([C_GT] + w);
    var v := [start] + u;
    assert v[1..] == u;
    DeclFound(s, w, 1);
    if start == C_BANG && |u| > 1 && u[0] == C_DASH {
      assert u[1..] == s[1..] + ([C_GT] + w) && u[1] != C_DASH;
      DashNeutral(s);
      DeclFound(s[1..], w, 1);
    }
  }

  lemma DashNeutral(s: seq<Byte>)
    requires s != [] && s[0] == C_DASH
    ensures Nesting(s[1..], 1) == Nesting(s, 1)
  {
  }

  /** So is a declaration, whose own markup is balanced, and what stands between "<%" and
      '>'. */
  lemma DeclarationSkipped(start: Byte, s: seq<Byte>, w: seq<Byte>)
    requires start == '!' as int || start == '%' as int
    requires Nesting(s, 1) == Some(1)
    requires start == '!' as int ==> (s != [] ==> s[0] != '[' as int) && (|s| > 1 ==> s[0] != '-' as int || s[1] != '-' as int)
    ensures Next(In(0, ['<' as int, start] + s + ['>' as int] + w, false)) == Next(In(0, w, false))
  {
    hide Nesting, Next, Skipped;
    var u := s + ([C_GT] + w);
    var v := [start] + u;
    assert ['<' as int, start] + s + ['>' as int] + w == [C_LT] + v && v[1..] == u;
    DeclarationEnds(start, s, w);
    MarkupOver(v, w);
  }

  /** The marks, spelled. */
  lemma Marks()
    ensures COMMENT == ['<' as int, '!' as int, '-' as int, '-' as int] && COMMENT_END == ['-' as int, '-' as int, '>' as int]
    ensures SECTION == ['<' as int, '!' as int, '[' as int, 'C' as int, 'D' as int, 'A' as int, 'T' as int, 'A' as int, '[' as int]
    ensures SECTION_END == [']' as int, ']' as int, '>' as int]
    ensures PI == ['<' as int, '?' as int] && PI_END == ['?' as int, '>' as int]
    ensures C_QUOT == '"' as int && C_APOS == '\'' as int && C_SLASH == '/' as int && C_SPACE == ' ' as int && C_TAB == '\t' as int
  {
  }

  // The end mark does not occur in s.
  ghost predicate SectionText(s: seq<Byte>) {
    forall i :: 0 <= i < |s| - 2 ==> !EndAt(s, i)
  }

  predicate EndAt(s: seq<Byte>, i: nat)
    requires i + 2 < |s|
  {
    s[i] == C_CLOSE && s[i + 1] == C_CLOSE && s[i + 2] == C_GT
  }

  lemma PutBack(c: Byte, w: seq<Byte>, cdata: bool)
    requires c != 0
    ensures Next(In(c, w, cdata)) == Next(In(0, [c] + w, cdata))
  {
    assert ([c] + w)[1..] == w;
  }

  // The text read depends on what is read next alone.
  lemma SameContent(st: In, st': In, n: nat, decode: bool)
    requires Next(st) == Next(st')
    ensures Content(st, n, decode) == Content(st', n, decode)
  {
  }

  // One byte of a section.
  lemma SectionStep(s: seq<Byte>, w: seq<Byte>)
    requires SectionText(s) && s != []
    ensures var r := s[1..] + SECTION_END + w;
            Next(In(0, s + SECTION_END + w, true)) == (s[0] as int, In(0, r, true))
            || (r != [] && r[0] == C_CLOSE && Next(In(0, s + SECTION_END + w, true)) == (s[0] as int, In(C_CLOSE, r[1..], true)))
  {
    var r := s[1..] + SECTION_END + w;
    assert s + SECTION_END + w == [s[0]] + r && ([s[0]] + r)[1..] == r;
    if s[0] == C_CLOSE && r[0] == C_CLOSE && r[1] == C_GT {
      assert |s| > 2 ==> EndAt(s, 0);
      assert false;
    }
  }

  lemma {:induction false} SectionReads(s: seq<Byte>, w: seq<Byte>, decode: bool)
    requires SectionText(s)
    ensures Content(In(0, s + SECTION_END + w, true), 0, decode) == Prefixed(s, Content(In(0, w, false), 0, decode))
    decreases |s|
  {
    hide Next, Content;
    var st := In(0, s + SECTION_END + w, true);
    if s == [] {
      SectionEnds(w);
      assert s + SECTION_END + w == SECTION_END + w;
      SameContent(st, In(0, w, false), 0, decode);
      assert s + Content(st, 0, decode).bytes == Content(st, 0, decode).bytes;
    } else {
      SectionTail(s);
      SectionReads(s[1..], w, decode);
      SectionByte(s, w, decode);
      assert [s[0]] + s[1..] == s;
      PrefixedTwice([s[0]], s[1..], Content(In(0, w, false), 0, decode));
    }
  }

  lemma SectionTail(s: seq<Byte>)
    requires SectionText(s) && s != []
    ensures SectionText(s[1..])
  {
    assert forall i :: 0 <= i < |s[1..]| - 2 ==> EndAt(s[1..], i) == EndAt(s, i + 1);
  }

  lemma SectionByte(s: seq<Byte>, w: seq<Byte>, decode: bool)
    requires SectionText(s) && s != []
    ensures Content(In(0, s + SECTION_END + w, true), 0, decode)
            == Prefixed([s[0]], Content(In(0, s[1..] + SECTION_END + w, true), 0, decode))
  {
    hide Next, Content;
    var st := In(0, s + SECTION_END + w, true);
    var r := s[1..] + SECTION_END + w;
    SectionStep(s, w);
    var (c, st1) := Next(st);
    if st1.ahead != 0 {
      PutBack(C_CLOSE, r[1..], true);
      assert [r[0]] + r[1..] == r;
      SameContent(st1, In(0, r, true), 0, decode);
    }
    ByteContent(st, s[0], st1, decode);
  }

  // A byte that is not read as markup is taken as it is.
  lemma ByteContent(st: In, c: Byte, st1: In, decode: bool)
    requires Next(st) == (c as int, st1)
    ensures Content(st, 0, decode) == Prefixed([c], Content(st1, 0, decode))
  {
    hide Next;
  }

  lemma SectionEnds(w: seq<Byte>)
    ensures Next(In(0, SECTION_END + w, true)) == Next(In(0, w, false))
  {
    var v := SECTION_END + w;
    assert v[1..][2..] == w && v[1..][1..][0] == C_GT;
  }

  /** The text of a CDATA section that does not contain "]]>" is read as it stands, what
      follows the section being read on. */
  lemma SectionReadBack(s: seq<Byte>, w: seq<Byte>, decode: bool)
    requires SectionText(s)
    ensures Content(In(0, SECTION + s + SECTION_END + w, false), 0, decode) == Prefixed(s, Content(In(0, w, false), 0, decode))
  {
    hide Next, Content;
    var v := s + SECTION_END + w;
    SectionStarts(v);
    assert SECTION + s + SECTION_END + w == SECTION + v;
    SameContent(In(0, SECTION + v, false), In(0, v, true), 0, decode);
    SectionReads(s, w, decode);
  }

  lemma SectionStarts(v: seq<Byte>)
    ensures Next(In(0, SECTION + v, false)) == Next(In(0, v, true))
  {
    var w := SECTION + v;
    var u := [C_BANG, C_OPEN, 67, 68, 65, 84, 65, C_OPEN] + v;
    assert w == [C_LT] + u && w[1..] == u;
    var name := [67, 68, 65, 84, 65];
    assert u[2..] == name + ([C_OPEN] + v);
    Found(name, C_OPEN, v);
  }
}
