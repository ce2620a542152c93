/** soap_tag_cmp: matching a name against a pattern with wildcards. */
module TagCmp {
  import opened Wire

  const QUOTE: Byte := 34
  const STAR: Byte := 42
  const ANY: Byte := 45  // '-'

  function Lower(c: Byte): Byte {
    if 65 <= c <= 90 then c + 32 else c
  }

  // The same character, or the capital and the small form of one letter.
  predicate SameLetter(a: Byte, b: Byte): (same: bool)
    ensures same <==> Lower(a) == Lower(b)
  {
    a == b || (65 <= a <= 90 && b == a + 32) || (65 <= b <= 90 && a == b + 32)
  }

  // The subject ends at a double quote, like an attribute value read in place.
  function Text(s: seq<Byte>): (r: seq<Byte>)
    ensures r <= s && QUOTE !in r && (r != s ==> s[|r|] == QUOTE)
  {
    if s == [] || s[0] == QUOTE then [] else [s[0]] + Text(s[1..])
  }

  // The relation that is meant: '-' is any one character, '*' any string,
  // letters match whatever their case.
  ghost predicate Matches(s: seq<Byte>, t: seq<Byte>)
    decreases |t|
  {
    if t == [] then s == []
    else if t[0] == STAR then exists k | 0 <= k <= |s| :: Matches(s[k..], t[1..])
    else s != [] && (t[0] == ANY || SameLetter(s[0], t[0])) && Matches(s[1..], t[1..])
  }

  // What the comparison accepts.  After a '*' it looks for the next pattern
  // character literally, and a '*' of the subject uses up one of the pattern.
  ghost predicate Accepts(s: seq<Byte>, t: seq<Byte>)
    decreases |s|
  {
    if s == [] then t == [] || t == [STAR]
    else if t == [] then false
    else if t[0] == ANY || Lower(s[0]) == Lower(t[0]) then Accepts(s[1..], t[1..])
    else if t[0] != STAR then false
    else |t| == 1 || t == [STAR, STAR] || exists k | 0 <= k < |s| :: AcceptsFrom(s, t, k)
  }

  // The character after the '*' is found at k and the rest is accepted.
  ghost predicate AcceptsFrom(s: seq<Byte>, t: seq<Byte>, k: nat)
    requires k < |s| && |t| > 1
    decreases |s|, 0
  {
    Lower(s[k]) == Lower(t[1]) && Accepts(s[k + 1..], t[2..])
  }

  // A '*' is followed neither by '-' nor by another '*'.
  predicate Plain(t: seq<Byte>) {
    forall i :: 0 <= i < |t| - 1 && t[i] == STAR ==> t[i + 1] != ANY && t[i + 1] != STAR
  }

  // *p: strings end with a NUL
  function Char(s: seq<Byte>, i: nat): Byte {
    if i < |s| then s[i] else 0
  }

  // Reading character i of the subject, and whether it ends there.
  lemma TextAt(s: seq<Byte>, i: nat)
    requires 0 !in s && i <= |Text(s)|
    ensures (Char(s, i) == 0 || Char(s, i) == QUOTE) <==> i == |Text(s)|
    ensures i < |Text(s)| ==> Char(s, i) == Text(s)[i]
  {
    hide Text;
    assert i < |Text(s)| ==> s[i] in s && Text(s)[i] in Text(s);
  }

  lemma {:induction false} TextFrom(s: seq<Byte>, i: nat)
    requires i <= |Text(s)|
    ensures Text(s[i..]) == Text(s)[i..]
  {
    if i == 0 {
      assert s[0..] == s;
    } else {
      TextFrom(s[1..], i - 1);
      assert s[1..][i - 1..] == s[i..];
    }
  }

  /** soap_tag_cmp(s, t): 0 exactly when the subject is accepted. */
  method Compare(s: seq<Byte>, t: seq<Byte>) returns (r: int)
    requires 0 !in s && 0 !in t
    ensures r == 0 <==> Accepts(Text(s), t)
    decreases |s|
  {
    ghost var u := Text(s);
    var i, j := 0, 0;
    assert u[0..] == u && t[0..] == t;
    while true
      invariant 0 <= i <= |u| && 0 <= j <= |t|
      invariant Accepts(u, t) <==> Accepts(u[i..], t[j..])
      decreases |u| - i
    {
      var c1, c2 := Char(s, i), Char(t, j);
      TextAt(s, i);
      if c1 == 0 || c1 == QUOTE {
        break;
      }
      assert u[i..][0] == u[i] && u[i..][1..] == u[i + 1..];
      assert j < |t| ==> t[j..][0] == t[j] && t[j..][1..] == t[j + 1..];
      if c2 != ANY {
        if c1 != c2 {
          c1, c2 := Lower(c1), Lower(c2);
        }
        if c1 != c2 {
          if c2 != STAR {
            return 1;
          }
          j := j + 1;
          c2 := Char(t, j);
          if c2 == 0 {
            return 0;
          }
          c2 := Lower(c2);
          r := FindNext(s, i, t, j);
          return;
        }
      }
      i, j := i + 1, j + 1;
    }
    assert u[i..] == [];
    r := Rest(t, j);
  }

  // return *t, unless only a final '*' is left
  function Rest(t: seq<Byte>, j: nat): (r: int)
    requires j <= |t| && 0 !in t
    ensures r == 0 <==> t[j..] == [] || t[j..] == [STAR]
  {
    if Char(t, j) == STAR && Char(t, j + 1) == 0 then 0 else Char(t, j)
  }

  // The loop after a '*': tries every place where the next character occurs.
  method FindNext(s: seq<Byte>, i0: nat, t: seq<Byte>, j: nat) returns (r: int)
    requires 0 !in s && 0 !in t && i0 < |Text(s)| && 1 <= j < |t| && t[j - 1] == STAR
    requires Lower(Text(s)[i0]) != STAR
    ensures r == 0 <==> Accepts(Text(s)[i0..], t[j - 1..])
    decreases |s|, 0
  {
    hide Text;
    ghost var u := Text(s)[i0..];
    ghost var p := t[j - 1..];
    assert u[0] == Text(s)[i0] && p[0] == STAR && p[1] == t[j] && p[2..] == t[j + 1..];
    var c2 := Lower(Char(t, j));
    var i := i0;
    while true
      invariant i0 <= i <= |Text(s)|
      invariant forall k | 0 <= k < i - i0 :: !AcceptsFrom(u, p, k)
      decreases |Text(s)| - i
    {
      var c1 := Char(s, i);
      TextAt(s, i);
      if c1 == 0 || c1 == QUOTE {
        break;
      }
      c1 := Lower(c1);
      TextFrom(s, i + 1);
      assert u[i - i0] == Text(s)[i] && u[i - i0 + 1..] == Text(s)[i + 1..];
      if c1 == c2 {
        var q := Compare(s[i + 1..], t[j + 1..]);
        if q == 0 {
          assert AcceptsFrom(u, p, i - i0);
          return 0;
        }
      }
      i := i + 1;
    }
    r := Rest(t, j);
    assert t[j..] == p[1..];
    assert p == [STAR] + p[1..];
  }

  // --- the accepted names are the matching ones --------------------------------------------

  lemma PlainTail(t: seq<Byte>, n: nat)
    requires Plain(t) && n <= |t|
    ensures Plain(t[n..])
  {
    forall i | 0 <= i < |t[n..]| - 1 && t[n..][i] == STAR
      ensures t[n..][i + 1] != ANY && t[n..][i + 1] != STAR
    {
      assert t[n + i] == STAR;
    }
  }

  lemma MatchesEmpty(s: seq<Byte>)
    ensures Matches(s, [STAR])
  {
    assert s[|s|..] == [] && Matches(s[|s|..], [STAR][1..]);
  }

  // An unmatched character before the place where a pattern goes on can be skipped.
  lemma StarNext(s: seq<Byte>, t: seq<Byte>)
    requires |t| > 1 && t[0] == STAR && t[1] != STAR && t[1] != ANY
    ensures Matches(s, t) <==> exists k | 0 <= k < |s| :: Lower(s[k]) == Lower(t[1]) && Matches(s[k + 1..], t[2..])
  {
    assert t[1..][0] == t[1] && t[1..][1..] == t[2..];
    forall k | 0 <= k <= |s|
      ensures Matches(s[k..], t[1..]) <==> k < |s| && Lower(s[k]) == Lower(t[1]) && Matches(s[k + 1..], t[2..])
    {
      if k < |s| {
        assert s[k..][0] == s[k] && s[k..][1..] == s[k + 1..];
      }
    }
  }

  /** For a plain pattern, and a subject or a pattern without '*', the comparison
      decides the relation: trying every place loses no match. */
  lemma {:induction false} AcceptsIsMatches(s: seq<Byte>, t: seq<Byte>)
    requires Plain(t) && (STAR !in s || STAR !in t)
    ensures Accepts(s, t) <==> Matches(s, t)
    decreases |s|
  {
    if s == [] {
      MatchesNothing(t);
    } else if t == [] {
    } else if t[0] == ANY || Lower(s[0]) == Lower(t[0]) {
      assert s[0] in s && t[0] in t;
      PlainTail(t, 1);
      AcceptsIsMatches(s[1..], t[1..]);
    } else if t[0] == STAR {
      if |t| == 1 {
        MatchesEmpty(s);
      } else {
        assert t[0] == STAR;
        StarNext(s, t);
        PlainTail(t, 2);
        forall k: nat | k < |s|
          ensures AcceptsFrom(s, t, k) <==> Lower(s[k]) == Lower(t[1]) && Matches(s[k + 1..], t[2..])
        {
          AcceptsIsMatches(s[k + 1..], t[2..]);
        }
      }
    }
  }

  lemma MatchesNothing(t: seq<Byte>)
    requires Plain(t)
    ensures Matches([], t) <==> t == [] || t == [STAR]
  {
    var none: seq<Byte> := [];
    assert none[0..] == none;
    if |t| > 1 && t[0] == STAR {
      assert t[1..][0] == t[1] != STAR;
      assert !Matches(none[0..], t[1..]);
    } else if t == [STAR] {
      MatchesEmpty(none);
    }
  }

  // A shortest matching subject: nothing for '*', a letter for '-'.
  function Shortest(t: seq<Byte>): (s: seq<Byte>)
    ensures STAR !in s && ANY !in s && |s| <= |t|
    ensures (0 !in t ==> 0 !in s) && (QUOTE !in t ==> QUOTE !in s)
  {
    if t == [] then []
    else if t[0] == STAR then Shortest(t[1..])
    else [if t[0] == ANY then 97 else t[0]] + Shortest(t[1..])
  }

  lemma ShortestMatches(t: seq<Byte>)
    ensures Matches(Shortest(t), t)
  {
    if t != [] {
      ShortestMatches(t[1..]);
      var s := Shortest(t);
      if t[0] == STAR {
        assert s[0..] == s && Matches(s[0..], t[1..]);
      } else {
        assert s[1..] == Shortest(t[1..]);
      }
    }
  }

  // Without a '-' or '*' to meet the pattern literally, only a longer subject is accepted.
  lemma {:induction false} NotPlainNeedsMore(s: seq<Byte>, t: seq<Byte>)
    requires !Plain(t) && STAR !in s && ANY !in s && Accepts(s, t)
    ensures |s| > |Shortest(t)|
    decreases |s|
  {
    var i :| 0 <= i < |t| - 1 && t[i] == STAR && (t[i + 1] == ANY || t[i + 1] == STAR);
    if t[0] == ANY || Lower(s[0]) == Lower(t[0]) {
      assert s[0] in s && i > 0 && t[1..][i - 1] == t[i] && t[1..][i] == t[i + 1];
      NotPlainNeedsMore(s[1..], t[1..]);
    } else if t == [STAR, STAR] {
      assert Shortest(t) == Shortest(t[1..]) == Shortest(t[1..][1..]) == [];
    } else {
      var k: nat :| k < |s| && AcceptsFrom(s, t, k);
      assert s[k] in s && i > 1 && t[2..][i - 2] == t[i] && t[2..][i - 1] == t[i + 1];
      NotPlainNeedsMore(s[k + 1..], t[2..]);
      assert Shortest(t) == Shortest(t[1..]) && t[1..][1..] == t[2..];
    }
  }

  lemma TextOfAll(s: seq<Byte>)
    requires QUOTE !in s
    ensures Text(s) == s
  {
  }

  // --- letter case -----------------------------------------------------------------------------

  ghost predicate SameText(s: seq<Byte>, t: seq<Byte>) {
    |s| == |t| && forall i :: 0 <= i < |s| ==> SameLetter(s[i], t[i])
  }

  lemma SameTail(s: seq<Byte>, t: seq<Byte>, k: nat)
    requires SameText(s, t) && k <= |s|
    ensures SameText(s[k..], t[k..])
  {
    assert forall i :: 0 <= i < |s[k..]| ==> s[k..][i] == s[k + i] && t[k..][i] == t[k + i];
  }

  lemma {:induction false} CaseKept(s: seq<Byte>, t: seq<Byte>, s1: seq<Byte>, t1: seq<Byte>)
    requires SameText(s, s1) && SameText(t, t1) && Accepts(s, t)
    ensures Accepts(s1, t1)
    decreases |s|
  {
    if s == [] {
    } else if t[0] == ANY || Lower(s[0]) == Lower(t[0]) {
      SameTail(s, s1, 1);
      SameTail(t, t1, 1);
      CaseKept(s[1..], t[1..], s1[1..], t1[1..]);
    } else if |t| == 1 || t == [STAR, STAR] {
      assert t1 == t;
    } else {
      var k: nat :| k < |s| && AcceptsFrom(s, t, k);
      SameTail(s, s1, k + 1);
      SameTail(t, t1, 2);
      CaseKept(s[k + 1..], t[2..], s1[k + 1..], t1[2..]);
      assert AcceptsFrom(s1, t1, k);
    }
  }

  lemma SameTextBack(s: seq<Byte>, t: seq<Byte>)
    requires SameText(s, t)
    ensures SameText(t, s)
  {
    assert forall i :: 0 <= i < |s| ==> SameLetter(t[i], s[i]);
  }

  /** The comparison does not change with the case of any letter, on either side. */
  lemma CaseIgnored(s: seq<Byte>, t: seq<Byte>, s1: seq<Byte>, t1: seq<Byte>)
    requires SameText(s, s1) && SameText(t, t1)
    ensures Accepts(s, t) <==> Accepts(s1, t1)
  {
    SameTextBack(s, s1);
    SameTextBack(t, t1);
    if Accepts(s, t) {
      CaseKept(s, t, s1, t1);
    } else if Accepts(s1, t1) {
      CaseKept(s1, t1, s, t);
    }
  }

  /** A pattern without wildcards accepts exactly the texts that differ from it in the
      case of letters only. */
  lemma {:induction false} LiteralExactly(s: seq<Byte>, t: seq<Byte>)
    requires STAR !in t && ANY !in t
    ensures Accepts(s, t) <==> SameText(s, t)
    decreases |s|
  {
    if s == [] || t == [] {
    } else {
      assert t[0] in t;
      LiteralExactly(s[1..], t[1..]);
      if SameText(s, t) {
        SameTail(s, t, 1);
      }
      assert SameLetter(s[0], t[0]) && SameText(s[1..], t[1..]) ==> SameText(s, t) by {
        assert forall i :: 1 <= i < |s| && |s| == |t| ==> s[i] == s[1..][i - 1] && t[i] == t[1..][i - 1];
      }
    }
  }

  /** The patterns the comparison decides rightly, for subjects without '*', are
      exactly the plain ones. */
  lemma PlainExactly(t: seq<Byte>)
    requires 0 !in t && QUOTE !in t
    ensures Plain(t) <==> forall s | STAR !in s && 0 !in s :: Accepts(Text(s), t) <==> Matches(Text(s), t)
  {
    if Plain(t) {
      forall s | STAR !in s && 0 !in s
        ensures Accepts(Text(s), t) <==> Matches(Text(s), t)
      {
        AcceptsIsMatches(Text(s), t);
      }
    } else {
      var s := Shortest(t);
      ShortestMatches(t);
      TextOfAll(s);
      if Accepts(Text(s), t) {
        NotPlainNeedsMore(s, t);
        assert false;
      }
    }
  }

  // A subject with a '*' that a plain pattern with a '*' should match: the pattern up to
  // its '*', that '*' itself, and then what its rest does not start with.
  function StarSubject(t: seq<Byte>): (s: seq<Byte>)
    requires STAR in t
    ensures (0 !in t ==> 0 !in s) && (QUOTE !in t ==> QUOTE !in s)
  {
    if t[0] == STAR then [STAR, if |t| > 1 && Lower(t[1]) == 97 then 98 else 97] + Shortest(t[1..])
    else [t[0]] + StarSubject(t[1..])
  }

  lemma {:induction false} StarSubjectMatches(t: seq<Byte>)
    requires STAR in t
    ensures Matches(StarSubject(t), t)
  {
    var s := StarSubject(t);
    if t[0] == STAR {
      ShortestMatches(t[1..]);
      assert s[2..] == Shortest(t[1..]);
    } else {
      StarSubjectMatches(t[1..]);
      assert s[1..] == StarSubject(t[1..]);
    }
  }

  // The '*' of the subject uses up the one of the pattern.
  lemma {:induction false} StarSubjectRefused(t: seq<Byte>)
    requires STAR in t && Plain(t)
    ensures !Accepts(StarSubject(t), t)
  {
    var s := StarSubject(t);
    if t[0] == STAR {
      assert s[1..][0] == s[1];
      assert |t| > 1 ==> t[1..][0] == t[1] && t[1] != STAR && t[1] != ANY;
    } else {
      PlainTail(t, 1);
      StarSubjectRefused(t[1..]);
      assert s[1..] == StarSubject(t[1..]);
    }
  }

  /** With '*' allowed in the subject as well, the patterns decided rightly are exactly
      those without a '*': every other one refuses a subject it should match. */
  lemma StarFreeExactly(t: seq<Byte>)
    requires 0 !in t && QUOTE !in t
    ensures STAR !in t <==> forall s | 0 !in s :: Accepts(Text(s), t) <==> Matches(Text(s), t)
  {
    if STAR !in t {
      forall s | 0 !in s
        ensures Accepts(Text(s), t) <==> Matches(Text(s), t)
      {
        assert forall i :: 0 <= i < |t| ==> t[i] in t;
        AcceptsIsMatches(Text(s), t);
      }
    } else if Plain(t) {
      var s := StarSubject(t);
      StarSubjectMatches(t);
      StarSubjectRefused(t);
      TextOfAll(s);
    } else {
      PlainExactly(t);
    }
  }
}
