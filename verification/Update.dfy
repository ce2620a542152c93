/** soap_update_pointers: redirects every pointer of the id/href table, and every
    chain cell, that points into a region about to move. */
module Update {
  import opened Memory
  import opened IdRef
  import opened IdTable
  import opened Relocation

  lemma RethreadedNothing(m: Mem, mv: Move)
    ensures Rethreaded(m, m, mv, [])
  {
  }

  // The k-th cell of a chain is redirected.
  lemma RethreadOne(m0: Mem, m: Mem, m': Mem, mv: Move, ls: seq<Addr>, k: nat)
    requires k < |ls| && Separate(m0, ls, PTR) && Rethreaded(m0, m, mv, ls[..k])
    requires Span(m, ls[k], PTR) && m[ls[k]] == m0[ls[k]]
    requires m' == Store(m, ls[k], Shift(mv, m[ls[k]])) || (m' == m && Shift(mv, m[ls[k]]) == m[ls[k]])
    ensures Rethreaded(m0, m', mv, ls[..k + 1])
  {
    hide Shift;
    assert ls[..k + 1] == ls[..k] + [ls[k]];
    forall a | a in ls[..k + 1] && a in m0
      ensures m'[a] == Shift(mv, m0[a])
    {
      if a != ls[k] {
        var i :| 0 <= i < k && ls[i] == a;
        assert Apart(ls[k], PTR, ls[i], PTR);
      }
    }
    forall x | x in m0 && !Covered(x, ls[..k + 1], PTR)
      ensures m'[x] == m0[x]
    {
      CoveredPart(x, ls[..k], [ls[k]], PTR);
      assert ls[k] in [ls[k]];
    }
  }

  // A cell not yet reached still holds its old value.
  lemma NotReached(m0: Mem, m: Mem, mv: Move, ls: seq<Addr>, k: nat)
    requires k < |ls| && Separate(m0, ls, PTR) && Rethreaded(m0, m, mv, ls[..k])
    ensures ls[k] in m0 && Span(m, ls[k], PTR) && m[ls[k]] == m0[ls[k]]
  {
    assert ls[k] in ls;
    forall d | d in ls[..k]
      ensures !(d <= ls[k] < d + PTR)
    {
      var i :| 0 <= i < k && ls[i] == d;
      assert Apart(ls[i], PTR, ls[k], PTR);
    }
    assert !Covered(ls[k], ls[..k], PTR);
  }

  // Redirecting two sets of cells one after the other.
  lemma RethreadedCompose(m0: Mem, m1: Mem, m2: Mem, mv: Move, ds: seq<Addr>, fs: seq<Addr>)
    requires Rethreaded(m0, m1, mv, ds) && Rethreaded(m1, m2, mv, fs)
    requires forall d, f :: d in ds && f in fs ==> Apart(d, PTR, f, PTR)
    ensures Rethreaded(m0, m2, mv, ds + fs)
  {
    hide Shift;
    forall a | a in ds + fs && a in m0
      ensures m2[a] == Shift(mv, m0[a])
    {
      if a in ds {
        assert !Covered(a, fs, PTR);
      } else {
        assert !Covered(a, ds, PTR);
      }
    }
    forall x | x in m0 && !Covered(x, ds + fs, PTR)
      ensures m2[x] == m0[x]
    {
      CoveredPart(x, ds, fs, PTR);
    }
  }

  // for (q = &ip->link; q; q = p): redirects the head and every cell.
  method RethreadChain(soap: Soap, head: Addr, start: Addr, end: Addr, p1: Addr, ghost ls: seq<Addr>) returns (head': Addr)
    requires Chain(soap.mem, head, ls) && (ls == [] || Separate(soap.mem, ls, PTR)) && NULL < start <= end
    modifies soap`mem
    ensures head' == Shift(Move(start, end - start, p1), head)
    ensures Rethreaded(old(soap.mem), soap.mem, Move(start, end - start, p1), ls)
  {
    hide Rethreaded, Separate;
    ghost var mv := Move(start, end - start, p1);
    head' := head;
    if head != NULL && start <= head < end {
      head' := head + p1 - start;
    }
    RethreadedNothing(soap.mem, mv);
    var q := head;
    ghost var k := 0;
    while q != NULL
      invariant 0 <= k <= |ls| && Chain(old(soap.mem), q, ls[k..])
      invariant Rethreaded(old(soap.mem), soap.mem, mv, ls[..k])
      decreases |ls| - k
    {
      assert q == ls[k] && ls[k..][1..] == ls[k + 1..];
      NotReached(old(soap.mem), soap.mem, mv, ls, k);
      var p := soap.mem[q];
      ghost var m := soap.mem;
      if p != NULL && start <= p < end {
        soap.mem := Store(soap.mem, q, p + p1 - start);
      }
      RethreadOne(old(soap.mem), m, soap.mem, mv, ls, k);
      q := p;
      k := k + 1;
    }
    assert ls[..k] == ls;
  }

  // Everything of one entry is redirected: its address, its two chains and its
  // forward list.
  method UpdateEntry(soap: Soap, id: string, start: Addr, end: Addr, p1: Addr, ghost ls: seq<Addr>, ghost cs: seq<Addr>)
    requires id in soap.iht && NULL < start <= end
    requires Chain(soap.mem, soap.iht[id].link, ls) && (ls == [] || Separate(soap.mem, ls, PTR))
    requires Chain(soap.mem, soap.iht[id].copy, cs) && (cs == [] || Separate(soap.mem, cs, PTR))
    requires forall a, b :: a in ls && b in cs ==> Apart(a, PTR, b, PTR)
    modifies soap`mem, soap`iht
    ensures soap.iht == old(soap.iht)[id := ShiftEntry(Move(start, end - start, p1), old(soap.iht)[id])]
    ensures Rethreaded(old(soap.mem), soap.mem, Move(start, end - start, p1), ls + cs)
  {
    hide Rethreaded, Separate;
    ghost var mv := Move(start, end - start, p1);
    var e := soap.iht[id];
    if e.ptr != NULL && start <= e.ptr < end {
      e := e.(ptr := e.ptr + p1 - start);
    }
    var link := RethreadChain(soap, e.link, start, end, p1, ls);
    ghost var m := soap.mem;
    ChainKept(old(soap.mem), m, mv, ls, e.copy, cs);
    var copy := RethreadChain(soap, e.copy, start, end, p1, cs);
    RethreadedCompose(old(soap.mem), m, soap.mem, mv, ls, cs);
    var fl := e.flist;
    for i := 0 to |fl|
      invariant |fl| == |e.flist|
      invariant forall j :: 0 <= j < i ==> fl[j] == ShiftList(mv, e.flist)[j]
      invariant forall j :: i <= j < |fl| ==> fl[j] == e.flist[j]
    {
      if start <= fl[i].ptr < end {
        fl := fl[i := fl[i].(ptr := fl[i].ptr + p1 - start)];
      }
    }
    assert fl == ShiftList(mv, e.flist);
    soap.iht := soap.iht[id := e.(link := link, copy := copy, flist := fl)];
  }

  // Redirecting some cells leaves a chain through other cells as it is.
  lemma ChainKept(m0: Mem, m: Mem, mv: Move, ds: seq<Addr>, head: int, cs: seq<Addr>)
    requires Rethreaded(m0, m, mv, ds)
    requires Chain(m0, head, cs) && (cs == [] || Separate(m0, cs, PTR))
    requires forall d, c :: d in ds && c in cs ==> Apart(d, PTR, c, PTR)
    ensures Chain(m, head, cs) && (cs == [] || Separate(m, cs, PTR))
  {
    forall a | a in cs && a in m0
      ensures a in m && m[a] == m0[a]
    {
      assert !Covered(a, ds, PTR);
    }
    ChainFrame(m0, m, head, cs);
  }

  // The cells redirected so far: the chain cells of the entries no longer in todo.
  ghost predicate Sofar(s: State, ds: seq<Addr>, todo: set<string>)
    requires s.links.Keys == s.iht.Keys && s.copies.Keys == s.iht.Keys
  {
    && (forall id, a :: id in s.iht && id !in todo && (a in s.links[id] || a in s.copies[id]) ==> a in ds)
    && (forall a :: a in ds ==> a in s.regs && s.regs[a].id in s.iht && s.regs[a].id !in todo && Size(s.regs[a]) >= PTR
                                && if s.regs[a].Ref? then a in s.links[s.regs[a].id] else a in s.copies[s.regs[a].id])
  }

  ghost predicate TableSofar(iht: Table, iht': Table, mv: Move, todo: set<string>) {
    && iht'.Keys == iht.Keys
    && forall id :: id in iht ==> iht'[id] == if id in todo then iht[id] else ShiftEntry(mv, iht[id])
  }

  lemma SofarStart(s: State, mv: Move)
    requires Threads(s)
    ensures Sofar(s, [], s.iht.Keys) && TableSofar(s.iht, s.iht, mv, s.iht.Keys)
  {
  }

  lemma SofarEnd(s: State, ds: seq<Addr>, iht': Table, mv: Move)
    requires Threads(s) && Sofar(s, ds, {}) && TableSofar(s.iht, iht', mv, {})
    ensures AllChained(s, ds) && iht' == ShiftTable(mv, s.iht)
  {
  }

  // The chains of an entry not yet reached, and what is known of its cells.
  lemma EntryCells(s: State, id: string)
    requires Threads(s) && id in s.iht
    ensures Chain(s.mem, s.iht[id].link, s.links[id]) && Chain(s.mem, s.iht[id].copy, s.copies[id])
    ensures forall a :: a in s.links[id] ==> a in s.regs && s.regs[a] == Ref(id)
    ensures forall a :: a in s.copies[id] ==> a in s.regs && s.regs[a].Dest? && s.regs[a].id == id && s.regs[a].size >= PTR
    ensures Distinct(s.links[id]) && Distinct(s.copies[id])
  {
    var e, cs := s.iht[id], s.copies[id];
    assert EntryOK(s.mem, s.regs, id, e, s.links[id], cs);
    DistinctParts(cs, Ptrs(e.flist));
    assert forall a :: a in cs ==> a in Pending(e, cs);
  }

  lemma RegsSeparate(mem: Mem, regs: Regs, ls: seq<Addr>)
    requires Laid(mem, regs) && Distinct(ls) && forall a :: a in ls ==> a in regs && Size(regs[a]) >= PTR
    ensures Separate(mem, ls, PTR)
  {
    forall a | a in ls
      ensures Span(mem, a, PTR)
    {
      assert Span(mem, a, Size(regs[a]));
    }
    forall a, b | a in ls && b in ls && a != b
      ensures Apart(a, PTR, b, PTR)
    {
      assert Apart(a, Size(regs[a]), b, Size(regs[b]));
    }
  }

  lemma RegsApart(mem: Mem, regs: Regs, ds: seq<Addr>, ls: seq<Addr>)
    requires Laid(mem, regs)
    requires forall a :: a in ds || a in ls ==> a in regs && Size(regs[a]) >= PTR
    requires forall a :: a in ds ==> a !in ls
    ensures forall d, a :: d in ds && a in ls ==> Apart(d, PTR, a, PTR)
  {
    forall d, a | d in ds && a in ls
      ensures Apart(d, PTR, a, PTR)
    {
      assert Apart(d, Size(regs[d]), a, Size(regs[a]));
    }
  }

  lemma NextEntry(s: State, m: Mem, mv: Move, ds: seq<Addr>, todo: set<string>, id: string)
    requires Threads(s) && Sofar(s, ds, todo) && id in todo && id in s.iht && Rethreaded(s.mem, m, mv, ds)
    ensures var ls, cs := s.links[id], s.copies[id];
            && Chain(m, s.iht[id].link, ls) && (ls == [] || Separate(m, ls, PTR))
            && Chain(m, s.iht[id].copy, cs) && (cs == [] || Separate(m, cs, PTR))
            && (forall a, b :: a in ls && b in cs ==> Apart(a, PTR, b, PTR))
            && (forall d, a :: d in ds && a in ls + cs ==> Apart(d, PTR, a, PTR))
  {
    hide Rethreaded, Entries, Separate;
    var ls, cs := s.links[id], s.copies[id];
    EntryCells(s, id);
    LaidOf(s);
    hide Threads;
    RegsSeparate(s.mem, s.regs, ls);
    RegsSeparate(s.mem, s.regs, cs);
    RegsApart(s.mem, s.regs, ls, cs);
    RegsApart(s.mem, s.regs, ds, ls + cs);
    ChainKept(s.mem, m, mv, ds, s.iht[id].link, ls);
    ChainKept(s.mem, m, mv, ds, s.iht[id].copy, cs);
  }

  lemma LaidOf(s: State)
    requires Threads(s)
    ensures Laid(s.mem, s.regs)
  {
  }

  lemma SofarNext(s: State, ds: seq<Addr>, todo: set<string>, id: string)
    requires Threads(s) && Sofar(s, ds, todo) && id in todo && todo <= s.iht.Keys
    ensures Sofar(s, ds + (s.links[id] + s.copies[id]), todo - {id})
  {
    hide Threads, Chain, Distinct;
    ThreadsKeys(s);
    EntryCells(s, id);
    var fs := s.links[id] + s.copies[id];
    assert forall a :: a in ds + fs <==> a in ds || a in s.links[id] || a in s.copies[id];
    forall i, a | i in s.iht && i !in todo - {id} && (a in s.links[i] || a in s.copies[i])
      ensures a in ds + fs
    {
    }
  }

  lemma TableNext(iht: Table, iht': Table, mv: Move, todo: set<string>, id: string)
    requires TableSofar(iht, iht', mv, todo) && id in todo && todo <= iht.Keys
    ensures TableSofar(iht, iht'[id := ShiftEntry(mv, iht'[id])], mv, todo - {id})
  {
    hide ShiftEntry;
  }

  // for all entries of the table
  method UpdatePointers(soap: Soap, start: Addr, end: Addr, p1: Addr) returns (ghost ds: seq<Addr>)
    requires Threads(soap.Now()) && NULL < start <= end
    modifies soap`mem, soap`iht
    ensures soap.iht == ShiftTable(Move(start, end - start, p1), old(soap.iht))
    ensures AllChained(old(soap.Now()), ds) && Rethreaded(old(soap.mem), soap.mem, Move(start, end - start, p1), ds)
  {
    hide Threads, Sofar, TableSofar, Rethreaded, AllChained, Separate, Chain;
    ghost var s, mv := soap.Now(), Move(start, end - start, p1);
    ThreadsKeys(s);
    ds := [];
    SofarStart(s, mv);
    RethreadedNothing(s.mem, mv);
    var todo := soap.iht.Keys;
    while todo != {}
      invariant todo <= s.iht.Keys && Sofar(s, ds, todo) && TableSofar(s.iht, soap.iht, mv, todo)
      invariant Rethreaded(s.mem, soap.mem, mv, ds)
      decreases todo
    {
      var id :| id in todo;
      ghost var m, iht' := soap.mem, soap.iht;
      NextEntry(s, m, mv, ds, todo, id);
      TodoEntry(s.iht, iht', mv, todo, id);
      UpdateEntry(soap, id, start, end, p1, s.links[id], s.copies[id]);
      RethreadedCompose(s.mem, m, soap.mem, mv, ds, s.links[id] + s.copies[id]);
      SofarNext(s, ds, todo, id);
      TableNext(s.iht, iht', mv, todo, id);
      ds := ds + (s.links[id] + s.copies[id]);
      todo := todo - {id};
    }
    SofarEnd(s, ds, soap.iht, mv);
  }

  lemma TodoEntry(iht: Table, iht': Table, mv: Move, todo: set<string>, id: string)
    requires TableSofar(iht, iht', mv, todo) && id in todo && id in iht
    ensures id in iht' && iht'[id] == iht[id]
  {
  }
}
