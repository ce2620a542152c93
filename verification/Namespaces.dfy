/** The namespace stack: bindings are popped only when the next start tag is read. */
module Namespaces {
  import opened Wire

  type Name = seq<Byte>

  // xmlns:id="uri" in a start tag
  datatype Decl = Decl(id: Name, uri: Name)

  // soap_nlist; the namespace is kept as the URI that was declared
  datatype Binding = Binding(level: nat, decl: Decl)

  // --- lexical scope -----------------------------------------------------------------------------

  // The last declaration of a prefix in one start tag.
  function Declared(decls: seq<Decl>, id: Name): Option<Decl> {
    if decls == [] then None
    else if decls[|decls| - 1].id == id then Some(decls[|decls| - 1])
    else Declared(decls[..|decls| - 1], id)
  }

  // The declaration in the innermost of the elements (outermost first) that has one.
  function Innermost(elements: seq<seq<Decl>>, id: Name): Option<Decl> {
    if elements == [] then None
    else
      var d := Declared(elements[|elements| - 1], id);
      if d.Some? then d else Innermost(elements[..|elements| - 1], id)
  }

  // --- the stack, head first ---------------------------------------------------------------------

  // The bindings of one start tag read at some level.
  function Pushed(decls: seq<Decl>, level: nat): seq<Binding> {
    if decls == [] then [] else [Binding(level, decls[|decls| - 1])] + Pushed(decls[..|decls| - 1], level)
  }

  // The bindings of the open elements.
  function Scope(open: seq<seq<Decl>>): seq<Binding> {
    if open == [] then [] else Pushed(open[|open| - 1], |open| - 1) + Scope(open[..|open| - 1])
  }

  ghost predicate AllFrom(s: seq<Binding>, level: nat) {
    forall b :: b in s ==> b.level >= level
  }

  ghost predicate AllBelow(s: seq<Binding>, level: nat) {
    forall b :: b in s ==> b.level < level
  }

  // Levels never increase from the head of the stack to its tail.
  ghost predicate Falling(s: seq<Binding>) {
    forall i, j :: 0 <= i < j < |s| ==> s[i].level >= s[j].level
  }

  lemma PushedLevel(decls: seq<Decl>, level: nat)
    ensures forall b :: b in Pushed(decls, level) ==> b.level == level
  {
  }

  lemma {:induction false} ScopeLevels(open: seq<seq<Decl>>)
    ensures AllBelow(Scope(open), |open|) && Falling(Scope(open))
  {
    if open != [] {
      ScopeLevels(open[..|open| - 1]);
      PushedLevel(open[|open| - 1], |open| - 1);
      FallingJoin(Pushed(open[|open| - 1], |open| - 1), Scope(open[..|open| - 1]), |open| - 1);
    }
  }

  lemma FallingJoin(a: seq<Binding>, b: seq<Binding>, level: nat)
    requires Falling(a) && Falling(b) && AllFrom(a, level) && AllBelow(b, level)
    ensures Falling(a + b)
  {
    forall i, j | 0 <= i < j < |a + b|
      ensures (a + b)[i].level >= (a + b)[j].level
    {
      if i < |a| <= j {
        assert a[i] in a && b[j - |a|] in b;
      }
    }
  }

  // The search of soap_match_namespace and soap_current_namespace.
  function Find(s: seq<Binding>, id: Name): Option<Binding> {
    if s == [] then None else if s[0].decl.id == id then Some(s[0]) else Find(s[1..], id)
  }

  lemma {:induction false} FindConcat(a: seq<Binding>, b: seq<Binding>, id: Name)
    ensures Find(a + b, id) == if Find(a, id).Some? then Find(a, id) else Find(b, id)
  {
    if a == [] {
      assert a + b == b;
    } else {
      assert (a + b)[1..] == a[1..] + b;
      FindConcat(a[1..], b, id);
    }
  }

  lemma {:induction false} FindPushed(decls: seq<Decl>, level: nat, id: Name)
    ensures var d := Declared(decls, id);
            Find(Pushed(decls, level), id) == if d.None? then None else Some(Binding(level, d.value))
  {
    if decls != [] {
      FindPushed(decls[..|decls| - 1], level, id);
      var s := Pushed(decls, level);
      assert s[1..] == Pushed(decls[..|decls| - 1], level);
    }
  }

  function UriOf(b: Option<Binding>): Option<Name> {
    if b.None? then None else Some(b.value.decl.uri)
  }

  function UriDeclared(d: Option<Decl>): Option<Name> {
    if d.None? then None else Some(d.value.uri)
  }

  // On the bindings of the open elements the search finds the innermost declaration.
  lemma {:induction false} FindScope(open: seq<seq<Decl>>, id: Name)
    ensures UriOf(Find(Scope(open), id)) == UriDeclared(Innermost(open, id))
  {
    if open != [] {
      FindConcat(Pushed(open[|open| - 1], |open| - 1), Scope(open[..|open| - 1]), id);
      FindPushed(open[|open| - 1], |open| - 1, id);
      FindScope(open[..|open| - 1], id);
    }
  }

  // The part of a stack left by soap_pop_namespace.
  function Popped(s: seq<Binding>, level: nat): seq<Binding> {
    if s != [] && s[0].level >= level then Popped(s[1..], level) else s
  }

  lemma {:induction false} PoppedStale(stale: seq<Binding>, s: seq<Binding>, level: nat)
    requires AllFrom(stale, level) && AllBelow(s, level)
    ensures Popped(stale + s, level) == s
  {
    if stale == [] {
      assert stale + s == s;
      assert s != [] ==> s[0] in s;
    } else {
      assert (stale + s)[0] in stale && (stale + s)[1..] == stale[1..] + s;
      PoppedStale(stale[1..], s, level);
    }
  }

  lemma {:induction false} ScopeSplit(path: seq<seq<Decl>>, n: nat) returns (stale: seq<Binding>)
    requires n <= |path|
    ensures Scope(path) == stale + Scope(path[..n]) && AllFrom(stale, n)
    ensures forall id :: UriOf(Find(stale, id)) == UriDeclared(Innermost(path[n..], id))
    decreases |path|
  {
    if n == |path| {
      assert path[..n] == path && path[n..] == [];
      stale := [];
    } else {
      var k := |path| - 1;
      var more := ScopeSplit(path[..k], n);
      assert path[..k][..n] == path[..n] && path[..k][n..] == path[n..][..k - n];
      var own := Pushed(path[k], k);
      PushedLevel(path[k], k);
      stale := own + more;
      assert own + (more + Scope(path[..n])) == stale + Scope(path[..n]);
      forall id
        ensures UriOf(Find(stale, id)) == UriDeclared(Innermost(path[n..], id))
      {
        FindConcat(own, more, id);
        FindPushed(path[k], k, id);
      }
    }
  }

  // Popping leaves the bindings of the first n elements of a path, and on the stack of a
  // path levels never increase from head to tail.
  lemma PopScope(path: seq<seq<Decl>>, n: nat)
    requires n <= |path|
    ensures Popped(Scope(path), n) == Scope(path[..n]) && Falling(Scope(path))
  {
    var stale := ScopeSplit(path, n);
    ScopeLevels(path);
    ScopeLevels(path[..n]);
    PoppedStale(stale, Scope(path[..n]), n);
  }

  lemma ScopeAdd(open: seq<seq<Decl>>, decls: seq<Decl>)
    ensures Scope(open + [decls]) == Pushed(decls, |open|) + Scope(open)
    ensures (open + [decls])[..|open|] == open && (open + [decls])[|open|] == decls
  {
    assert (open + [decls])[..|open|] == open;
  }

  // --- the parser's namespace state ---------------------------------------------------------------

  class Stack {
    var nlist: seq<Binding>
    var level: nat
    var peeked: bool
    var body: bool
    var strict: bool  // SOAP_XML_STRICT

    ghost var open: seq<seq<Decl>>  // the declarations of the elements entered
    ghost var path: seq<seq<Decl>>  // those of the elements whose bindings are on the stack
    ghost var last: seq<Decl>       // those of the start tag read last
    ghost var atTag: bool           // nothing was read since that start tag

    // Bindings of finished or skipped elements may still lie on those of the open ones.
    ghost predicate Valid()
      reads this
    {
      open <= path && nlist == Scope(path) && level == |open| && (peeked ==> atTag) && (atTag ==> AtStartTag())
    }

    // The stack holds exactly the bindings in scope at the start tag read last.
    ghost predicate AtStartTag()
      reads this
    {
      if peeked || !body then path == open + [last] else path == open && open != [] && last == open[|open| - 1]
    }

    constructor (xmlStrict: bool)
      ensures Valid() && open == [] && path == [] && level == 0 && !peeked && strict == xmlStrict
    {
      nlist, level, peeked, body, strict := [], 0, false, false, xmlStrict;
      open, path, last, atTag := [], [], [], false;
    }

    // soap_push_namespace
    method Push(d: Decl)
      modifies this`nlist
      ensures nlist == [Binding(level, d)] + old(nlist)
    {
      nlist := [Binding(level, d)] + nlist;
    }

    // soap_pop_namespace
    method Pop()
      modifies this`nlist
      ensures nlist == Popped(old(nlist), level)
    {
      while nlist != [] && nlist[0].level >= level
        invariant Popped(nlist, level) == Popped(old(nlist), level)
        decreases |nlist|
      {
        nlist := nlist[1..];
      }
    }

    // The declarations of a start tag, in the order they stand there.
    method PushAll(decls: seq<Decl>)
      modifies this`nlist
      ensures nlist == Pushed(decls, level) + old(nlist)
    {
      hide Pushed;
      var i := 0;
      PushedNothing(decls[..0], level);
      while i < |decls|
        invariant 0 <= i <= |decls| && nlist == Pushed(decls[..i], level) + old(nlist)
      {
        PushedOne(decls, i, level);
        Push(decls[i]);
        i := i + 1;
      }
      assert decls[..i] == decls;
    }

    /** The namespace part of soap_peek_element: a start tag with declarations decls. */
    method PeekElement(decls: seq<Decl>, hasBody: bool)
      requires Valid() && !peeked
      modifies this
      ensures Valid() && peeked && atTag && last == decls && body == hasBody
      ensures open == old(open) && level == old(level) && strict == old(strict) && path == open + [decls]
    {
      hide Scope, Pushed, Popped, Falling;
      PopScope(path, |open|);
      assert path[..|open|] == open;
      peeked := true;
      Pop();
      PushAll(decls);
      body, last, atTag := hasBody, decls, true;
      ScopeAdd(open, decls);
      path := open + [decls];
    }

    /** soap_element_begin_in on a start tag that matches. */
    method BeginIn()
      requires Valid() && peeked
      modifies this
      ensures Valid() && !peeked && atTag && last == old(last) && body == old(body) && path == old(path) && strict == old(strict)
      ensures open == if body then old(path) else old(open)
    {
      hide Scope;
      peeked := false;
      if body {
        level := level + 1;
        open := open + [last];
      }
    }

    /** soap_revert, right after soap_element_begin_in: the start tag is to be matched
        again. */
    method Revert()
      requires Valid() && atTag
      modifies this
      ensures Valid() && peeked && last == old(last) && body == old(body) && path == old(path) && strict == old(strict)
      ensures open == if !old(peeked) && body then old(open)[..|old(open)| - 1] else old(open)
    {
      hide Scope;
      if !peeked {
        peeked := true;
        if body {
          level := level - 1;
          open := open[..|open| - 1];
        }
      }
    }

    /** soap_element_end_in: whatever is left of the element is skipped.  Its bindings
        stay, and outside strict mode those of its last descendants as well. */
    method EndIn()
      requires Valid() && open != []
      modifies this
      ensures Valid() && !peeked && !atTag && open == old(open)[..|old(open)| - 1] && strict == old(strict)
      ensures path == if strict then old(open) else old(path)
    {
      hide Scope, Popped, Falling;
      PopScope(path, |open|);
      assert path[..|open|] == open;
      peeked := false;
      if strict {
        Pop();
        path := open;
      }
      level := level - 1;
      open := open[..|open| - 1];
      atTag := false;
    }

    /** A lookup gives the innermost declaration among the elements of the path: at a
        start tag, the open elements and the element itself. */
    method Lookup(id: Name) returns (np: Option<Binding>)
      requires Valid()
      ensures np == Find(nlist, id) && UriOf(np) == UriDeclared(Innermost(path, id))
      ensures peeked ==> UriOf(np) == UriDeclared(Innermost(open + [last], id))
    {
      var i := 0;
      assert nlist[0..] == nlist;
      while i < |nlist| && nlist[i].decl.id != id
        invariant 0 <= i <= |nlist| && Find(nlist[i..], id) == Find(nlist, id)
      {
        assert nlist[i..][1..] == nlist[i + 1..];
        i := i + 1;
      }
      np := if i < |nlist| then Some(nlist[i]) else None;
      FindScope(path, id);
    }
  }

  lemma PushedNothing(decls: seq<Decl>, level: nat)
    requires decls == []
    ensures Pushed(decls, level) == []
  {
  }

  lemma PushedOne(decls: seq<Decl>, i: nat, level: nat)
    requires i < |decls|
    ensures Pushed(decls[..i + 1], level) == [Binding(level, decls[i])] + Pushed(decls[..i], level)
  {
    assert decls[..i + 1][..i] == decls[..i];
  }

  /** Between start tags the stack may be ahead of the document: of the path, only the
      first n elements are still open.  A lookup then gives the entry that is in scope
      exactly when none of the elements left since the last start tag declares the prefix. */
  lemma LookupBetweenTags(path: seq<seq<Decl>>, n: nat, id: Name)
    requires n <= |path|
    ensures Find(Scope(path), id) == Find(Scope(path[..n]), id) <==> forall i :: n <= i < |path| ==> Declared(path[i], id).None?
  {
    var stale := ScopeSplit(path, n);
    FindConcat(stale, Scope(path[..n]), id);
    FindIn(stale, id);
    FindIn(Scope(path[..n]), id);
    ScopeLevels(path[..n]);
    UndeclaredIn(path[n..], id);
    assert forall i :: n <= i < |path| ==> path[i] == path[n..][i - n];
    assert forall i :: 0 <= i < |path[n..]| ==> path[n..][i] == path[n + i];
  }

  lemma {:induction false} UndeclaredIn(elements: seq<seq<Decl>>, id: Name)
    ensures Innermost(elements, id).None? <==> forall i :: 0 <= i < |elements| ==> Declared(elements[i], id).None?
  {
    if elements != [] {
      var k := |elements| - 1;
      UndeclaredIn(elements[..k], id);
      assert forall i :: 0 <= i < k ==> elements[..k][i] == elements[i];
    }
  }

  lemma FindIn(s: seq<Binding>, id: Name)
    ensures Find(s, id).Some? ==> Find(s, id).value in s
  {
  }

  /** For instance, behind <b xmlns:id="uri"/> in an element without declarations: the
      prefix is still found, in strict mode too, although nothing open declares it. */
  method StillFound(id: Name, uri: Name, strict: bool, empty: bool) returns (np: Option<Binding>)
    ensures UriOf(np) == Some(uri) && Innermost([[]], id) == None
  {
    hide Scope;
    var st := new Stack(strict);
    st.PeekElement([], true);
    st.BeginIn();
    st.PeekElement([Decl(id, uri)], !empty);
    st.BeginIn();
    if !empty {
      st.EndIn();
    }
    assert st.open == [[]];
    np := st.Lookup(id);
    assert st.path == [[], [Decl(id, uri)]];
    assert Declared([Decl(id, uri)], id) == Some(Decl(id, uri));
  }

  // --- whole runs --------------------------------------------------------------------------------

  // How an application goes through an element: its start tag and a prefix looked up
  // there, whether it reverts once and matches the tag again, the children it enters,
  // and perhaps one more start tag it reads before it leaves the element.
  datatype Visit = Visit(decls: seq<Decl>, id: Name, body: bool, again: bool, children: seq<Visit>, ahead: Option<seq<Decl>>)

  // What lexical scope gives for the lookups, open being the enclosing elements.
  function Expected(v: Visit, open: seq<seq<Decl>>): seq<Option<Name>>
    decreases v, |v.children| + 1
  {
    var here := [UriDeclared(Innermost(open + [v.decls], v.id))];
    here + (if v.again then here else []) + if v.body then ExpectedAll(v, |v.children|, open + [v.decls]) else []
  }

  // Those of the first n children.
  function ExpectedAll(v: Visit, n: nat, open: seq<seq<Decl>>): seq<Option<Name>>
    requires n <= |v.children|
    decreases v, n
  {
    if n == 0 then [] else ExpectedAll(v, n - 1, open) + Expected(v.children[n - 1], open)
  }

  /** Any well nested run, with reverts, empty elements, skipped content and start tags
      read ahead: every lookup gives what lexical scope says. */
  method Walk(st: Stack, v: Visit) returns (found: seq<Option<Name>>)
    requires st.Valid() && !st.peeked
    modifies st
    ensures st.Valid() && !st.peeked && st.open == old(st.open) && st.strict == old(st.strict)
    ensures found == Expected(v, old(st.open))
    decreases v, 1
  {
    hide Innermost, Scope, ExpectedAll;
    st.PeekElement(v.decls, v.body);
    var np := st.Lookup(v.id);
    found := [UriOf(np)];
    st.BeginIn();
    if v.again {
      st.Revert();
      np := st.Lookup(v.id);
      found := found + [UriOf(np)];
      st.BeginIn();
    }
    if v.body {
      var inner := WalkContent(st, v);
      found := found + inner;
    }
  }

  // The children of an element that was entered, and its end tag.
  method WalkContent(st: Stack, v: Visit) returns (found: seq<Option<Name>>)
    requires st.Valid() && !st.peeked && st.open != []
    modifies st
    ensures st.Valid() && !st.peeked && st.open == old(st.open)[..|old(st.open)| - 1] && st.strict == old(st.strict)
    ensures found == ExpectedAll(v, |v.children|, old(st.open))
    decreases v, 0
  {
    hide Innermost, Scope, Expected;
    found := [];
    var i := 0;
    while i < |v.children|
      invariant 0 <= i <= |v.children| && st.Valid() && !st.peeked && st.strict == old(st.strict)
      invariant st.open == old(st.open) && found == ExpectedAll(v, i, old(st.open))
    {
      var more := Walk(st, v.children[i]);
      found := found + more;
      i := i + 1;
    }
    if v.ahead.Some? {
      st.PeekElement(v.ahead.value, true);
    }
    st.EndIn();
  }
}
