/** The named character references of HTML, as soap_char looks them up. */
module Entities {
  import opened Wire
  import TagCmp

  const UNKNOWN: int := 127  // SOAP_UNKNOWN_CHAR
  const FIRST: int := 160

  // html_entity_codes: the names of the characters 160 to 191, 192 to 223 and 224 to 255
  const SYMBOLS: seq<string> := [
    "nbsp", "iexcl", "cent", "pound", "curren", "yen", "brvbar", "sect", "uml", "copy", "ordf", "laquo", "not",
    "shy", "reg", "macr", "deg", "plusmn", "sup2", "sup3", "acute", "micro", "para", "middot", "cedil", "sup1",
    "ordm", "raquo", "frac14", "frac12", "frac34", "iquest"]

  const CAPITALS: seq<string> := [
    "Agrave", "Aacute", "Acirc", "Atilde", "Auml", "Aring", "AElig", "Ccedil", "Egrave", "Eacute", "Ecirc",
    "Euml", "Igrave", "Iacute", "Icirc", "Iuml", "ETH", "Ntilde", "Ograve", "Oacute", "Ocirc", "Otilde",
    "Ouml", "times", "Oslash", "Ugrave", "Uacute", "Ucirc", "Uuml", "Yacute", "THORN", "szlig"]

  const SMALL: seq<string> := [
    "agrave", "aacute", "acirc", "atilde", "auml", "aring", "aelig", "ccedil", "egrave", "eacute", "ecirc",
    "euml", "igrave", "iacute", "icirc", "iuml", "eth", "ntilde", "ograve", "oacute", "ocirc", "otilde",
    "ouml", "divide", "oslash", "ugrave", "uacute", "ucirc", "uuml", "yacute", "thorn", "yuml"]

  const NAMES := SYMBOLS + CAPITALS + SMALL

  // The bytes of a name of letters and digits.
  function Letters(s: string): (r: seq<Byte>)
    ensures |r| == |s|
  {
    seq(|s|, i requires 0 <= i < |s| => Letter(s[i]))
  }

  function Letter(c: char): (b: Byte) {
    if '0' <= c <= '9' || 'A' <= c <= 'Z' || 'a' <= c <= 'z' then c as int else 95
  }

  // A letter or digit is spelled by its own code.
  lemma LetterIs(c: char)
    requires (c >= '0' && c <= '9') || (c >= 'A' && c <= 'Z') || (c >= 'a' && c <= 'z')
    ensures Letter(c) == c as int
  {
  }

  // soap_code_int: the first of the names from the k-th on that matches
  ghost function CodeFrom(names: seq<string>, tmp: seq<Byte>, k: nat): (c: int)
    requires k <= |names|
    ensures c == UNKNOWN || FIRST + k <= c < FIRST + |names|
    decreases |names| - k
  {
    if k == |names| then UNKNOWN
    else if TagCmp.Accepts(TagCmp.Text(tmp), Letters(names[k])) then FIRST + k
    else CodeFrom(names, tmp, k + 1)
  }

  ghost function CodeOf(tmp: seq<Byte>): int {
    CodeFrom(NAMES, tmp, 0)
  }

  lemma CodeRange(tmp: seq<Byte>)
    ensures UNKNOWN <= CodeOf(tmp) < 256
  {
    assert |SYMBOLS| == 32 && |CAPITALS| == 32 && |SMALL| == 32;
  }

  lemma LettersNoNul(s: string)
    ensures 0 !in Letters(s)
  {
  }

  /** soap_code_int(html_entity_codes, tmp, SOAP_UNKNOWN_CHAR) */
  method LookUp(tmp: seq<Byte>) returns (c: int)
    requires 0 !in tmp
    ensures c == CodeOf(tmp)
  {
    var names := NAMES;
    c := Search(names, tmp);
  }

  method Search(names: seq<string>, tmp: seq<Byte>) returns (c: int)
    requires 0 !in tmp
    ensures c == CodeFrom(names, tmp, 0)
  {
    var k := 0;
    while k < |names|
      invariant 0 <= k <= |names| && CodeFrom(names, tmp, k) == CodeFrom(names, tmp, 0)
    {
      LettersNoNul(names[k]);
      var r := TagCmp.Compare(tmp, Letters(names[k]));
      if r == 0 {
        return FIRST + k;
      }
      k := k + 1;
    }
    c := UNKNOWN;
  }

  lemma LettersPlain(name: string)
    ensures TagCmp.STAR !in Letters(name) && TagCmp.ANY !in Letters(name)
    ensures TagCmp.QUOTE !in Letters(name)
  {
  }

  // The j-th name is the given one up to case.
  ghost predicate Fits(names: seq<string>, tmp: seq<Byte>, j: nat)
    requires j < |names|
  {
    TagCmp.SameText(tmp, Letters(names[j]))
  }

  /** The character found is the first of the table whose name is the given one up to case,
      and there is none if the reference is unknown. */
  lemma {:induction false} FirstFound(names: seq<string>, tmp: seq<Byte>, k: nat)
    requires k <= |names| && TagCmp.QUOTE !in tmp
    ensures var c := CodeFrom(names, tmp, k);
            if exists j :: k <= j < |names| && Fits(names, tmp, j) then
              FIRST + k <= c < FIRST + |names| && Fits(names, tmp, c - FIRST)
              && forall j :: k <= j < c - FIRST ==> !Fits(names, tmp, j)
            else c == 127
    decreases |names| - k
  {
    hide Fits;
    if k < |names| {
      FirstFound(names, tmp, k + 1);
      FitsIs(names, tmp, k);
    }
  }

  lemma FitsIs(names: seq<string>, tmp: seq<Byte>, k: nat)
    requires k < |names| && TagCmp.QUOTE !in tmp
    ensures TagCmp.Accepts(TagCmp.Text(tmp), Letters(names[k])) <==> Fits(names, tmp, k)
  {
    TagCmp.TextOfAll(tmp);
    LettersPlain(names[k]);
    TagCmp.LiteralExactly(tmp, Letters(names[k]));
  }

  /** A reference is read as character 160 + j for the first of the 96 names, the j-th, that
      is its own up to case, and as 127 if there is none. */
  lemma CharacterOf(tmp: seq<Byte>)
    requires TagCmp.QUOTE !in tmp
    ensures |NAMES| == 96
    ensures var c := CodeOf(tmp);
            if exists j :: 0 <= j < 96 && Fits(NAMES, tmp, j) then
              160 <= c < 256 && Fits(NAMES, tmp, c - 160) && forall j :: 0 <= j < c - 160 ==> !Fits(NAMES, tmp, j)
            else c == 127
  {
    hide Fits;
    AgraveNames();
    FirstFound(NAMES, tmp, 0);
  }

  lemma EarlierWins(names: seq<string>, j: nat, k: nat)
    requires j < k < |names| && Fits(names, Letters(names[k]), j)
    ensures CodeFrom(names, Letters(names[k]), 0) < FIRST + k
  {
    LettersPlain(names[k]);
    FirstFound(names, Letters(names[k]), 0);
  }

  lemma AgraveNames()
    ensures |NAMES| == 96 && NAMES[32] == "Agrave" && NAMES[64] == "agrave"
  {
    assert |SYMBOLS| == 32 && |CAPITALS| == 32 && |SMALL| == 32;
    assert CAPITALS[0] == "Agrave" && SMALL[0] == "agrave";
  }

  lemma AgraveSame()
    ensures TagCmp.SameText(Letters("agrave"), Letters("Agrave"))
  {
  }

  /** So "&agrave;" is not read as character 224: "Agrave" stands before it. */
  lemma CaseLost()
    ensures CodeOf(Letters("agrave")) < 224
  {
    AgraveNames();
    AgraveSame();
    EarlierWins(NAMES, 32, 64);
  }
}
