/** Multi-referenced objects: the pointer hash table, and the two output passes that
    decide which element carries an id and which is a reference. */
module Marks {
  const PTRHASH: nat := 4096  // SOAP_PTRHASH

  // A location and the type it is serialized with; location 0 is NULL.
  datatype Key = Key(ptr: nat, kind: int)

  // soap_plist; next is the place of the next entry of the chain, or -1
  datatype Entry = Entry(key: Key, id: nat, mark1: int, mark2: int, next: int)

  // soap_hash_ptr
  function Hash(p: nat): (h: nat)
    ensures h < PTRHASH
  {
    p / 8 % PTRHASH
  }

  // The last of the first n entries in bucket h.
  function LastIn(plist: seq<Entry>, n: nat, h: nat): (k: int)
    requires n <= |plist|
    ensures -1 <= k < n && (k >= 0 ==> Hash(plist[k].key.ptr) == h)
  {
    if n == 0 then -1 else if Hash(plist[n - 1].key.ptr) == h then n - 1 else LastIn(plist, n - 1, h)
  }

  // The place of a key among the first n entries.
  function Place(plist: seq<Entry>, n: nat, key: Key): (k: int)
    requires n <= |plist|
    ensures -1 <= k < n && (k >= 0 ==> plist[k].key == key)
    ensures k == -1 ==> forall i :: 0 <= i < n ==> plist[i].key != key
  {
    if n == 0 then -1 else if plist[n - 1].key == key then n - 1 else Place(plist, n - 1, key)
  }

  // The chains: every entry links to the last one before it in its bucket.
  ghost predicate Chained(plist: seq<Entry>, pht: seq<int>) {
    && |pht| == PTRHASH
    && (forall h: nat :: h < PTRHASH ==> pht[h] == LastIn(plist, |plist|, h))
    && (forall i: nat :: i < |plist| ==> Linked(plist, i))
  }

  ghost predicate Linked(plist: seq<Entry>, i: nat)
    requires i < |plist|
  {
    plist[i].next == LastIn(plist, i, Hash(plist[i].key.ptr))
  }

  // Ids are 1, 2, ... and no key is entered twice.
  ghost predicate Numbered(plist: seq<Entry>) {
    && (forall i :: 0 <= i < |plist| ==> plist[i].id == i + 1 && plist[i].key.ptr != 0)
    && (forall i, j :: 0 <= i < j < |plist| ==> plist[i].key != plist[j].key)
  }

  // Entries that differ in marks only are chained alike.
  ghost predicate SameButMarks(a: seq<Entry>, b: seq<Entry>) {
    |a| == |b| && forall i :: 0 <= i < |a| ==> a[i].key == b[i].key && a[i].id == b[i].id && a[i].next == b[i].next
  }

  lemma {:induction false} LastInSame(a: seq<Entry>, b: seq<Entry>, n: nat, h: nat)
    requires n <= |a| && n <= |b| && forall i :: 0 <= i < n ==> a[i].key == b[i].key
    ensures LastIn(a, n, h) == LastIn(b, n, h)
  {
    if n > 0 {
      LastInSame(a, b, n - 1, h);
    }
  }

  lemma {:induction false} PlaceSame(a: seq<Entry>, b: seq<Entry>, n: nat, key: Key)
    requires n <= |a| && n <= |b| && forall i :: 0 <= i < n ==> a[i].key == b[i].key
    ensures Place(a, n, key) == Place(b, n, key)
  {
    if n > 0 {
      PlaceSame(a, b, n - 1, key);
    }
  }

  lemma MarksKeep(a: seq<Entry>, b: seq<Entry>, pht: seq<int>)
    requires SameButMarks(a, b) && Chained(a, pht) && Numbered(a)
    ensures Chained(b, pht) && Numbered(b)
  {
    hide Hash, LastIn;
    forall n: nat, h: nat | n <= |a|
      ensures LastIn(a, n, h) == LastIn(b, n, h)
    {
      LastInSame(a, b, n, h);
    }
    forall i: nat | i < |b|
      ensures Linked(b, i)
    {
      assert Linked(a, i);
    }
  }

  lemma EnterKeeps(plist: seq<Entry>, pht: seq<int>, e: Entry)
    requires Chained(plist, pht) && Numbered(plist) && Place(plist, |plist|, e.key) == -1 && e.key.ptr != 0
    requires e.id == |plist| + 1 && e.next == pht[Hash(e.key.ptr)]
    ensures Chained(plist + [e], pht[Hash(e.key.ptr) := |plist|]) && Numbered(plist + [e])
  {
    hide Hash;
    var b := plist + [e];
    EnterChained(plist, pht, e);
    assert forall i :: 0 <= i < |plist| ==> b[i] == plist[i];
  }

  lemma EnterChained(plist: seq<Entry>, pht: seq<int>, e: Entry)
    requires Chained(plist, pht) && e.next == pht[Hash(e.key.ptr)]
    ensures Chained(plist + [e], pht[Hash(e.key.ptr) := |plist|])
  {
    hide Hash, LastIn;
    var b, h1 := plist + [e], Hash(e.key.ptr);
    forall n: nat, h: nat | n <= |plist|
      ensures LastIn(plist, n, h) == LastIn(b, n, h)
    {
      LastInSame(plist, b, n, h);
    }
    forall h: nat | h < PTRHASH
      ensures pht[h1 := |plist|][h] == LastIn(b, |b|, h)
    {
      LastInStep(b, |plist|, h);
    }
    forall i: nat | i < |b|
      ensures Linked(b, i)
    {
      assert i < |plist| ==> Linked(plist, i) && b[i] == plist[i];
    }
  }

  lemma LastInStep(b: seq<Entry>, n: nat, h: nat)
    requires n < |b|
    ensures LastIn(b, n + 1, h) == if Hash(b[n].key.ptr) == h then n else LastIn(b, n, h)
  {
  }

  // The entries between a chain link and the next one do not hold the key.
  lemma {:induction false} ChainStep(plist: seq<Entry>, n: nat, key: Key)
    requires n <= |plist|
    ensures Place(plist, n, key) == Place(plist, LastIn(plist, n, Hash(key.ptr)) + 1, key)
  {
    if n > 0 && Hash(plist[n - 1].key.ptr) != Hash(key.ptr) {
      ChainStep(plist, n - 1, key);
    }
  }

  lemma HeadIs(plist: seq<Entry>, pht: seq<int>, key: Key)
    requires Chained(plist, pht)
    ensures |pht| == PTRHASH && pht[Hash(key.ptr)] == LastIn(plist, |plist|, Hash(key.ptr))
    ensures Place(plist, |plist|, key) == Place(plist, pht[Hash(key.ptr)] + 1, key)
  {
    hide LastIn, Place, Hash;
    ChainStep(plist, |plist|, key);
  }

  lemma LinkIs(plist: seq<Entry>, pht: seq<int>, k: nat, key: Key)
    requires Chained(plist, pht) && k < |plist| && plist[k].key != key && Hash(plist[k].key.ptr) == Hash(key.ptr)
    ensures -1 <= plist[k].next < k && (plist[k].next >= 0 ==> Hash(plist[plist[k].next].key.ptr) == Hash(key.ptr))
    ensures Place(plist, k + 1, key) == Place(plist, plist[k].next + 1, key)
  {
    hide LastIn, Hash, Place;
    assert Linked(plist, k);
    var n := LastIn(plist, k, Hash(key.ptr));
    assert plist[k].next == n;
    ChainStep(plist, k, key);
    PlaceStep(plist, k, key);
  }

  lemma PlaceStep(plist: seq<Entry>, k: nat, key: Key)
    requires k < |plist| && plist[k].key != key
    ensures Place(plist, k + 1, key) == Place(plist, k, key)
  {
  }

  lemma PlaceFound(plist: seq<Entry>, k: int, key: Key)
    requires -1 <= k < |plist| && (k == -1 || plist[k].key == key)
    ensures Place(plist, k + 1, key) == k
  {
  }

  lemma NoNull(plist: seq<Entry>, key: Key)
    requires Numbered(plist) && key.ptr == 0
    ensures Place(plist, |plist|, key) == -1
  {
    hide Place;
  }

  // --- the decisions, on the marks alone ------------------------------------------------------------

  // SOAP 1.1 with an encoding style (version 1), or not: is_embedded differs.
  datatype Style = Style(v1: bool, tree: bool)

  // One call of soap_element_id without an id of its own; in the header or not.
  datatype Call = Call(key: Key, header: bool)

  datatype Decision = Null | NoId | Id(id: nat) | Ref(id: nat)

  // mark1 of every entry, or mark2.
  function MarksOf(plist: seq<Entry>, length: bool): (m: seq<int>)
    ensures |m| == |plist| && forall i :: 0 <= i < |m| ==> m[i] == if length then plist[i].mark1 else plist[i].mark2
  {
    seq(|plist|, i requires 0 <= i < |plist| => if length then plist[i].mark1 else plist[i].mark2)
  }

  predicate IsEmbedded(style: Style, mark: int, header: bool) {
    if style.v1 && !header then mark != 0 else mark == 1
  }

  predicate IsSingle(mark: int, header: bool) {
    header || mark == 0
  }

  // What soap_element_id decides for the object at place k (-1: not in the table).
  function Decide(style: Style, marks: seq<int>, k: int, header: bool): Decision
    requires -1 <= k < |marks|
  {
    if style.tree || k == -1 then NoId
    else if IsEmbedded(style, marks[k], header) then Ref(k + 1)
    else if IsSingle(marks[k], header) then NoId
    else Id(k + 1)
  }

  // soap_set_embedded
  function Marked(marks: seq<int>, d: Decision): (m: seq<int>)
    requires d.Id? ==> 0 < d.id <= |marks|
    ensures |m| == |marks|
  {
    if d.Id? then marks[d.id - 1 := 1] else marks
  }

  // The decisions of a whole pass over the calls.
  function Decisions(style: Style, plist: seq<Entry>, marks: seq<int>, calls: seq<Call>): (ds: seq<Decision>)
    requires |marks| == |plist|
    ensures |ds| == |calls|
    decreases |calls|
  {
    if calls == [] then []
    else
      var d := DecideCall(style, plist, marks, calls[0]);
      [d] + Decisions(style, plist, Marked(marks, d), calls[1..])
  }

  function DecideCall(style: Style, plist: seq<Entry>, marks: seq<int>, c: Call): (d: Decision)
    requires |marks| == |plist|
    ensures d.Id? ==> 0 < d.id <= |marks|
  {
    if c.key.ptr == 0 then Null else Decide(style, marks, Place(plist, |plist|, c.key), c.header)
  }

  // How often an object was referenced.
  function Count(refs: seq<Key>, key: Key): nat {
    if refs == [] then 0 else Count(refs[..|refs| - 1], key) + if refs[|refs| - 1] == key then 1 else 0
  }

  // The table after the references refs: one entry an object, marked 2 from the second
  // reference on, and alike for both passes.
  ghost predicate Counted(plist: seq<Entry>, refs: seq<Key>) {
    && (forall i :: 0 <= i < |plist| ==> CountedAt(plist[i], refs))
    && (forall key: Key :: Count(refs, key) > 0 ==> Place(plist, |plist|, key) >= 0)
  }

  ghost predicate CountedAt(e: Entry, refs: seq<Key>) {
    var n := Count(refs, e.key);
    n > 0 && e.mark1 == e.mark2 == if n >= 2 then 2 else 0
  }

  lemma CountMore(refs: seq<Key>, key: Key, k: Key)
    ensures Count(refs + [key], k) == Count(refs, k) + if k == key then 1 else 0
  {
    assert (refs + [key])[..|refs|] == refs;
  }

  // The first reference to an object.
  lemma CountedFirst(plist: seq<Entry>, refs: seq<Key>, e: Entry)
    requires Counted(plist, refs) && Place(plist, |plist|, e.key) == -1 && e.mark1 == e.mark2 == 0
    ensures Counted(plist + [e], refs + [e.key])
  {
    hide Count;
    var b := plist + [e];
    assert Count(refs, e.key) == 0;
    forall k: Key
      ensures Count(refs + [e.key], k) == Count(refs, k) + if k == e.key then 1 else 0
    {
      CountMore(refs, e.key, k);
    }
    forall i | 0 <= i < |b|
      ensures CountedAt(b[i], refs + [e.key])
    {
      assert i < |plist| ==> b[i] == plist[i] && CountedAt(plist[i], refs) && plist[i].key != e.key;
    }
    forall key: Key | Count(refs + [e.key], key) > 0
      ensures Place(b, |b|, key) >= 0
    {
      PlaceSame(plist, b, |plist|, key);
    }
  }

  // A further reference to the object at place k.
  lemma CountedAgain(plist: seq<Entry>, refs: seq<Key>, k: nat)
    requires Counted(plist, refs) && Numbered(plist) && k < |plist|
    ensures plist[k].mark1 != 0 ==> Counted(plist, refs + [plist[k].key])
    ensures plist[k].mark1 == 0 ==> Counted(plist[k := plist[k].(mark1 := 2, mark2 := 2)], refs + [plist[k].key])
  {
    hide Count;
    var key := plist[k].key;
    var b := if plist[k].mark1 == 0 then plist[k := plist[k].(mark1 := 2, mark2 := 2)] else plist;
    forall j: Key
      ensures Count(refs + [key], j) == Count(refs, j) + if j == key then 1 else 0
    {
      CountMore(refs, key, j);
    }
    forall i | 0 <= i < |b|
      ensures CountedAt(b[i], refs + [key])
    {
      assert CountedAt(plist[i], refs) && (i != k ==> plist[i].key != key);
    }
    forall j: Key | Count(refs + [key], j) > 0
      ensures Place(b, |b|, j) >= 0
    {
      PlaceSame(plist, b, |plist|, j);
      assert plist[k].key == key;
    }
  }

  class Pointers {
    var plist: seq<Entry>
    var pht: seq<int>
    var idnum: nat
    const style: Style

    ghost predicate Valid()
      reads this
    {
      Chained(plist, pht) && Numbered(plist) && idnum == |plist|
    }

    constructor (s: Style)
      ensures Valid() && plist == [] && style == s
    {
      plist, pht, idnum, style := [], seq(PTRHASH, i => -1), 0, s;
    }

    /** soap_pointer_lookup: the chain of one bucket gives what a search of the whole
        table would. */
    method PointerLookup(key: Key) returns (k: int)
      requires Valid()
      ensures k == Place(plist, |plist|, key)
    {
      hide Chained, Numbered, Place, LastIn, Hash;
      if key.ptr == 0 {
        NoNull(plist, key);
        return -1;
      }
      HeadIs(plist, pht, key);
      k := pht[Hash(key.ptr)];
      while k != -1 && plist[k].key != key
        invariant -1 <= k < |plist| && (k >= 0 ==> Hash(plist[k].key.ptr) == Hash(key.ptr))
        invariant Place(plist, |plist|, key) == Place(plist, k + 1, key)
        decreases k
      {
        LinkIs(plist, pht, k, key);
        k := plist[k].next;
      }
      PlaceFound(plist, k, key);
    }

    // soap_pointer_enter
    method PointerEnter(key: Key)
      requires Valid() && key.ptr != 0 && Place(plist, |plist|, key) == -1
      modifies this
      ensures Valid() && plist == old(plist) + [Entry(key, idnum, 0, 0, old(pht)[Hash(key.ptr)])]
    {
      hide Chained, Numbered, Place, Hash;
      HeadIs(plist, pht, key);
      var e := Entry(key, idnum + 1, 0, 0, pht[Hash(key.ptr)]);
      EnterKeeps(plist, pht, e);
      pht := pht[Hash(key.ptr) := |plist|];
      plist := plist + [e];
      idnum := idnum + 1;
    }

    // Setting marks leaves the table as it is.
    method SetMarks(k: nat, m1: int, m2: int)
      requires Valid() && k < |plist|
      modifies this`plist
      ensures Valid() && plist == old(plist)[k := old(plist)[k].(mark1 := m1, mark2 := m2)]
    {
      hide Chained, Numbered;
      ghost var before := plist;
      plist := plist[k := plist[k].(mark1 := m1, mark2 := m2)];
      MarksKeep(before, plist, pht);
    }

    /** soap_reference: counts the references to an object, up to two. */
    method Reference(key: Key, ghost refs: seq<Key>) returns (mark: int)
      requires Valid() && Counted(plist, refs)
      modifies this
      ensures Valid() && Counted(plist, if key.ptr == 0 || style.tree then refs else refs + [key])
    {
      hide Chained, Numbered, Counted;
      if key.ptr == 0 || style.tree {
        return 1;
      }
      var k := PointerLookup(key);
      if k >= 0 {
        CountedAgain(plist, refs, k);
        if plist[k].mark1 == 0 {
          SetMarks(k, 2, 2);
        }
        return plist[k].mark1;
      }
      HeadIs(plist, pht, key);
      CountedFirst(plist, refs, Entry(key, idnum + 1, 0, 0, pht[Hash(key.ptr)]));
      PointerEnter(key);
      return 0;
    }

    /** soap_element_id for an element without an id of its own, in the length pass or
        the send pass: only that pass's marks are used and changed. */
    method ElementId(c: Call, length: bool) returns (d: Decision)
      requires Valid()
      modifies this`plist
      ensures Valid() && SameButMarks(old(plist), plist)
      ensures d == DecideCall(style, old(plist), MarksOf(old(plist), length), c)
      ensures MarksOf(plist, length) == Marked(MarksOf(old(plist), length), d)
      ensures MarksOf(plist, !length) == MarksOf(old(plist), !length)
    {
      hide Chained, Numbered, Place;
      if c.key.ptr == 0 {
        return Null;
      }
      if style.tree {
        return NoId;
      }
      var k := PointerLookup(c.key);
      if k == -1 {
        return NoId;
      }
      var mark := if length then plist[k].mark1 else plist[k].mark2;
      IdIs(plist, k);
      if IsEmbedded(style, mark, c.header) {
        return Ref(plist[k].id);
      }
      if IsSingle(mark, c.header) {
        return NoId;
      }
      d := Id(plist[k].id);
      if length {
        SetMarks(k, 1, plist[k].mark2);
      } else {
        SetMarks(k, plist[k].mark1, 1);
      }
    }

    lemma IdIs(plist: seq<Entry>, k: nat)
      requires Numbered(plist) && k < |plist|
      ensures plist[k].id == k + 1
    {
    }

    /** A pass over the whole message. */
    method OutputPass(calls: seq<Call>, length: bool) returns (ds: seq<Decision>)
      requires Valid()
      modifies this`plist
      ensures Valid() && SameButMarks(old(plist), plist)
      ensures ds == Decisions(style, old(plist), MarksOf(old(plist), length), calls)
      ensures MarksOf(plist, !length) == MarksOf(old(plist), !length)
    {
      hide Valid, SameButMarks, Place, DecideCall, MarksOf, Decisions, Marked;
      ghost var start := plist;
      ghost var goal := Decisions(style, start, MarksOf(start, length), calls);
      SameStart(start);
      ds := [];
      var i := 0;
      assert calls[0..] == calls;
      while i < |calls|
        invariant 0 <= i <= |calls| && Valid() && SameButMarks(start, plist) && MarksOf(plist, !length) == MarksOf(start, !length)
        invariant |plist| == |start| && goal == ds + Decisions(style, start, MarksOf(plist, length), calls[i..])
      {
        ghost var now := plist;
        DecisionsStep(style, start, MarksOf(now, length), calls, i);
        DecideSame(style, start, now, MarksOf(now, length), calls[i]);
        var d := ElementId(calls[i], length);
        SameTwice(start, now, plist);
        ds := ds + [d];
        i := i + 1;
      }
      NoDecisions(style, start, MarksOf(plist, length), calls[i..]);
    }

    /** The length pass and the send pass decide alike for every element. */
    method TwoPasses(calls: seq<Call>, ghost refs: seq<Key>) returns (counted: seq<Decision>, sent: seq<Decision>)
      requires Valid() && Counted(plist, refs)
      modifies this`plist
      ensures counted == sent == Decisions(style, old(plist), MarksOf(old(plist), true), calls)
    {
      hide Chained, Numbered, Decisions;
      MarksAlike(plist, refs);
      ghost var start := plist;
      counted := OutputPass(calls, true);
      DecisionsSame(style, start, plist, MarksOf(plist, false), calls);
      sent := OutputPass(calls, false);
    }
  }

  lemma DecisionsStep(style: Style, plist: seq<Entry>, marks: seq<int>, calls: seq<Call>, i: nat)
    requires |marks| == |plist| && i < |calls|
    ensures var d := DecideCall(style, plist, marks, calls[i]);
            Decisions(style, plist, marks, calls[i..]) == [d] + Decisions(style, plist, Marked(marks, d), calls[i + 1..])
  {
    hide DecideCall, Marked;
    assert calls[i..][0] == calls[i] && calls[i..][1..] == calls[i + 1..];
  }

  lemma NoDecisions(style: Style, plist: seq<Entry>, marks: seq<int>, calls: seq<Call>)
    requires |marks| == |plist| && calls == []
    ensures Decisions(style, plist, marks, calls) == []
  {
  }

  lemma SameStart(a: seq<Entry>)
    ensures SameButMarks(a, a)
  {
  }

  lemma SameTwice(a: seq<Entry>, b: seq<Entry>, c: seq<Entry>)
    requires SameButMarks(a, b) && SameButMarks(b, c)
    ensures SameButMarks(a, c) && |a| == |c|
  {
  }

  lemma DecideSame(style: Style, a: seq<Entry>, b: seq<Entry>, marks: seq<int>, c: Call)
    requires SameButMarks(a, b) && |marks| == |a|
    ensures DecideCall(style, a, marks, c) == DecideCall(style, b, marks, c)
  {
    hide Place, Decide;
    PlaceSame(a, b, |a|, c.key);
  }

  lemma MarksAlike(plist: seq<Entry>, refs: seq<Key>)
    requires Counted(plist, refs)
    ensures MarksOf(plist, true) == MarksOf(plist, false)
  {
    assert forall i :: 0 <= i < |plist| ==> CountedAt(plist[i], refs);
  }

  lemma {:induction false} DecisionsSame(style: Style, a: seq<Entry>, b: seq<Entry>, marks: seq<int>, calls: seq<Call>)
    requires SameButMarks(a, b) && |marks| == |a|
    ensures Decisions(style, a, marks, calls) == Decisions(style, b, marks, calls)
    decreases |calls|
  {
    hide Place, DecideCall;
    if calls != [] {
      DecideSame(style, a, b, marks, calls[0]);
      DecisionsSame(style, a, b, Marked(marks, DecideCall(style, a, marks, calls[0])), calls[1..]);
    }
  }

  // --- what is decided ---------------------------------------------------------------------------------

  // The message body, without NULL objects.
  ghost predicate Body(calls: seq<Call>) {
    forall c :: c in calls ==> c.key.ptr != 0 && !c.header
  }

  predicate Earlier(calls: seq<Call>, i: nat)
    requires i < |calls|
  {
    exists j :: 0 <= j < i && calls[j].key == calls[i].key
  }

  lemma EarlierStep(calls: seq<Call>, i: nat)
    requires i < |calls|
    ensures Earlier(calls, i) <==> i > 0 && (calls[0].key == calls[i].key || Earlier(calls[1..], i - 1))
  {
    if i > 0 {
      assert calls[1..][i - 1] == calls[i];
      if Earlier(calls, i) && calls[0].key != calls[i].key {
        var j :| 0 <= j < i && calls[j].key == calls[i].key;
        assert calls[1..][j - 1] == calls[j];
      }
      if Earlier(calls[1..], i - 1) {
        var j :| 0 <= j < i - 1 && calls[1..][j].key == calls[1..][i - 1].key;
        assert calls[j + 1].key == calls[i].key;
      }
    }
  }

  lemma {:induction false} DecisionAt(style: Style, plist: seq<Entry>, marks: seq<int>, calls: seq<Call>, i: nat)
    requires |marks| == |plist| && Numbered(plist) && Body(calls) && i < |calls| && !style.tree
    requires forall j :: 0 <= j < |marks| ==> 0 <= marks[j] <= 2
    ensures var k := Place(plist, |plist|, calls[i].key);
            Decisions(style, plist, marks, calls)[i]
            == if k == -1 || marks[k] == 0 then NoId
               else if style.v1 || marks[k] == 1 || Earlier(calls, i) then Ref(k + 1)
               else Id(k + 1)
    decreases i
  {
    hide Place, Earlier;
    var k := Place(plist, |plist|, calls[i].key);
    var d := DecideCall(style, plist, marks, calls[0]);
    assert calls[0] in calls && calls[i] in calls;
    EarlierStep(calls, i);
    if i > 0 {
      var marks1 := Marked(marks, d);
      assert forall c :: c in calls[1..] ==> c in calls;
      DecisionAt(style, plist, marks1, calls[1..], i - 1);
      var k0 := Place(plist, |plist|, calls[0].key);
      assert calls[1..][i - 1] == calls[i];
      assert k0 >= 0 && k0 == k ==> calls[0].key == calls[i].key;
    }
  }

  /** After the references refs, an object referenced less than twice never carries an
      id; one referenced more often carries it at its first element only and is a
      reference at the later ones.  With SOAP 1.1 encoding it always is a reference. */
  lemma {:induction false} MultiReferenced(style: Style, plist: seq<Entry>, refs: seq<Key>, calls: seq<Call>, i: nat)
    requires Numbered(plist) && Counted(plist, refs) && Body(calls) && i < |calls| && !style.tree
    ensures var d := Decisions(style, plist, MarksOf(plist, true), calls)[i];
            var k := Place(plist, |plist|, calls[i].key);
            d == if Count(refs, calls[i].key) < 2 then NoId
                 else if style.v1 || Earlier(calls, i) then Ref(k + 1)
                 else Id(k + 1)
  {
    hide Place, Decisions, Count, Earlier;
    var key := calls[i].key;
    var k := Place(plist, |plist|, key);
    assert forall j :: 0 <= j < |plist| ==> CountedAt(plist[j], refs);
    DecisionAt(style, plist, MarksOf(plist, true), calls, i);
  }

  /** Ids of different objects are different. */
  lemma IdsDistinct(plist: seq<Entry>, a: Key, b: Key)
    requires Numbered(plist) && a != b && Place(plist, |plist|, a) >= 0 && Place(plist, |plist|, b) >= 0
    ensures plist[Place(plist, |plist|, a)].id != plist[Place(plist, |plist|, b)].id
  {
    hide Place;
  }
}
