/** The operations on the id/href table: soap_id_lookup, soap_id_forward,
    soap_id_enter and soap_resolve, on a table and a memory they update in place. */
module IdTable {
  import opened Memory
  import opened IdRef

  class Soap {
    var mem: Mem
    var iht: Table
    var error: Status
    var badId: string  // soap->id, the id an error is about

    // What is registered, and the locations each chain visits.
    ghost var regs: Regs
    ghost var links: map<string, seq<Addr>>
    ghost var copies: map<string, seq<Addr>>

    ghost predicate Valid()
      reads this
    {
      Good(Now())
    }

    // The ghost record has an entry for every entry of the table.
    ghost predicate Paired()
      reads this
    {
      links.Keys == iht.Keys && copies.Keys == iht.Keys
    }

    ghost function Now(): State
      reads this
    {
      State(mem, iht, error, badId, regs, links, copies)
    }

    constructor (m: Mem)
      ensures Valid() && mem == m && iht == map[] && regs == map[] && error == Ok
    {
      mem, iht, error, badId := m, map[], Ok, "";
      regs, links, copies := map[], map[], map[];
    }

    // A pointer cell at p is to receive the address of id.
    method IdLookup(id: string, p: Addr, t: int, n: nat) returns (r: Addr)
      requires Paired() && (p != NULL && id != "" ==> Span(mem, p, PTR))
      modifies this
      ensures Paired() && Now() == Lookup(old(Now()), id, p, t, n)
      ensures r == if p != NULL && id != "" && Def(old(iht), id) != NULL && old(iht)[id].typ != t then NULL else p
    {
      if p == NULL || id == "" {
        return p;
      }
      if id !in iht {
        mem := Store(mem, p, NULL);
        iht := iht[id := IList(t, n, p, NULL, [], NULL)];
        regs, links, copies := regs[p := Ref(id)], links[id := [p]], copies[id := []];
      } else if iht[id].ptr != NULL {
        if iht[id].typ != t {
          badId, error := id, Href;
          return NULL;
        }
        mem := Store(mem, p, iht[id].ptr);
        regs := regs[p := Ref(id)];
      } else {
        var q := iht[id].link;
        iht := iht[id := iht[id].(link := p)];
        mem := Store(mem, p, q);
        regs, links := regs[p := Ref(id)], links[id := [p] + links[id]];
      }
      r := p;
    }

    // The n cells at p are to receive a copy of the object with id href.
    method IdForward(href: string, p: Addr, len: nat, st: int, tt: int, n: nat) returns (r: Addr)
      requires Paired() && (p != NULL && href != "" && n >= PTR ==> Span(mem, p, PTR))
      modifies this
      ensures Paired() && Now() == Forward(old(Now()), href, p, len, st, tt, n)
      ensures r == if p != NULL && href != "" && href in old(iht) && (old(iht)[href].typ != st || old(iht)[href].size != n) then NULL else p
    {
      if p == NULL || href == "" {
        return p;
      }
      if href !in iht {
        NewEntry(href, st, n);
      } else if iht[href].typ != st || iht[href].size != n {
        badId, error := href, Href;
        return NULL;
      }
      HangOn(href, p, len, tt, n);
      r := p;
    }

    // soap_enter
    method NewEntry(id: string, t: int, n: nat)
      requires Paired() && id !in iht
      modifies this
      ensures Paired() && Now() == Blanked(old(Now()), id, t, n)
    {
      iht := iht[id := IList(t, n, NULL, NULL, [], NULL)];
      links, copies := links[id := []], copies[id := []];
    }

    // The last part of soap_id_forward.
    method HangOn(href: string, p: Addr, len: nat, tt: int, n: nat)
      requires Paired() && href in iht && href != "" && (n >= PTR ==> Span(mem, p, PTR))
      modifies this
      ensures Paired() && Now() == Hang(old(Now()), href, p, len, tt, n)
    {
      if n < PTR || href[0] != '#' {
        iht := iht[href := iht[href].(flist := [FList(tt, p, len)] + iht[href].flist)];
      } else {
        mem := Store(mem, p, iht[href].copy);
        iht := iht[href := iht[href].(copy := p)];
        copies := copies[href := [p] + copies[href]];
      }
      regs := regs[p := Dest(href, n)];
    }

    // The element with this id is the n cells at p, or at a freshly allocated
    // address a (NULL when the allocator fails) if p is NULL.
    method IdEnter(id: string, p: Addr, t: int, n: nat, a: Addr, cells: Mem) returns (r: Addr)
      requires Paired()
      modifies this
      ensures Paired()
      ensures Now() == if p == NULL && a != NULL then Enter(old(Now()).(mem := old(mem) + cells), id, a, t, n)
                       else Enter(old(Now()), id, p, t, n)
      ensures r == if id != "" && id in old(iht) && (Clash(old(iht)[id], t, n) || old(iht)[id].ptr != NULL) then NULL
                   else if p == NULL then a else p
    {
      var q := p;
      if p == NULL {
        q := a;
        if a != NULL {
          mem := mem + cells;
        }
      }
      if id == "" {
        return q;
      }
      if id !in iht {
        iht := iht[id := IList(t, n, NULL, NULL, [], q)];
        links, copies := links[id := []], copies[id := []];
      } else if Clash(iht[id], t, n) {
        badId, error := id, Href;
        return NULL;
      } else if iht[id].ptr != NULL {
        badId, error := id, DuplicateId;
        return NULL;
      } else {
        iht := iht[id := iht[id].(size := n, ptr := q)];
      }
      r := iht[id].ptr;
    }

    // Walks a link chain and writes r into every cell of it.
    method WriteLinks(head: Addr, r: Addr, ghost ls: seq<Addr>)
      requires Chain(mem, head, ls) && Separate(mem, ls, PTR)
      modifies `mem
      ensures Wrote(old(mem), mem, ls, r)
    {
      var q := head;
      ghost var k := 0;
      WroteNothing(mem, r);
      while q != NULL
        invariant 0 <= k <= |ls| && mem.Keys == old(mem).Keys
        invariant Chain(mem, q, ls[k..])
        invariant Wrote(old(mem), mem, ls[..k], r)
        decreases |ls| - k
      {
        SeparateAt(old(mem), ls, k, PTR);
        var p := mem[q];
        ghost var m := mem;
        mem := Store(mem, q, r);
        WalkOn(m, mem, ls, k, PTR);
        WriteOne(old(mem), m, mem, ls, k, r);
        q := p;
        k := k + 1;
      }
      assert ls[..k] == ls;
    }

    // Walks a copy chain and overwrites every object on it with the n cells at src.
    method FillChain(head: Addr, src: Addr, n: nat, ghost cs: seq<Addr>)
      requires Chain(mem, head, cs) && (cs == [] || Separate(mem, cs, n)) && Span(mem, src, n)
      requires forall a :: a in cs ==> Apart(a, n, src, n)
      modifies `mem
      ensures Filled(old(mem), mem, cs, src, n)
    {
      var q := head;
      ghost var k := 0;
      FilledNothing(mem, src, n);
      while q != NULL
        invariant 0 <= k <= |cs| && mem.Keys == old(mem).Keys
        invariant Chain(mem, q, cs[k..])
        invariant Filled(old(mem), mem, cs[..k], src, n)
        decreases |cs| - k
      {
        SeparateAt(old(mem), cs, k, n);
        var p := mem[q];
        ghost var m := mem;
        mem := Memcpy(mem, q, src, n);
        WalkOn(m, mem, cs, k, n);
        FillOne(old(mem), m, mem, cs, k, src, n);
        q := p;
        k := k + 1;
      }
      assert cs[..k] == cs;
    }

    // One iteration of the first loop of soap_resolve: every cell that waited
    // for the address of id receives it.
    method ResolveLinks(id: string)
      requires Valid() && id in iht && iht[id].ptr != NULL
      modifies `mem, `iht, `links
      ensures Valid()
      ensures iht == old(iht)[id := old(iht)[id].(link := NULL)] && links == old(links)[id := []]
      ensures OnlyRegs(old(mem), mem, regs)
    {
      hide Inv;
      var q, r := iht[id].link, iht[id].ptr;
      RefCells(mem, iht, regs, links, copies, id);
      WriteLinks(q, r, links[id]);
      LinksResolved(old(mem), mem, iht, regs, links, copies, id);
      OnlyRegsCovered(old(mem), mem, regs, links[id], PTR);
      iht, links := iht[id := iht[id].(link := NULL)], links[id := []];
    }

    // The first loop of soap_resolve.
    method LinkPhase() returns (ok: bool)
      requires Valid()
      modifies `mem, `iht, `links, `error, `badId
      ensures Valid() && SameDefs(old(iht), iht) && OnlyRegs(old(mem), mem, regs)
      ensures ok <==> Defined(iht, iht.Keys)
      ensures ok ==> error == old(error) && Unlinked(iht, links, iht.Keys)
      ensures !ok ==> error == MissingId && Missing(iht, badId)
    {
      hide Inv, OnlyRegs, SameDefs, Defined, Unlinked;
      var todo := iht.Keys;
      LinkStart(mem, iht, links, regs);
      while todo != {}
        invariant Valid() && todo <= iht.Keys
        invariant SameDefs(old(iht), iht) && OnlyRegs(old(mem), mem, regs) && error == old(error)
        invariant Unlinked(iht, links, iht.Keys - todo) && Defined(iht, iht.Keys - todo)
        decreases todo
      {
        var id :| id in todo;
        ghost var was := Now();
        if iht[id].ptr != NULL {
          ResolveLinks(id);
          LinkNext(old(mem), old(iht), was, Now(), id, todo);
        } else {
          if IsHash(id) {
            badId, error := id[1..], MissingId;
            assert id == "#" + badId;
            NotDefined(iht, id);
            return false;
          }
          LinkSkip(iht, links, id, todo);
        }
        todo := todo - {id};
      }
      assert iht.Keys - todo == iht.Keys;
      return true;
    }

    // soap_has_copies: some location still waits for a copy in [start, end).
    method HasCopies(start: Addr, end: Addr) returns (found: bool)
      requires Valid()
      ensures found <==> exists a :: a in regs && regs[a].Dest? && start <= a < end
    {
      hide Inv, Clear;
      var todo := iht.Keys;
      while todo != {}
        invariant todo <= iht.Keys
        invariant forall id :: id in iht && id !in todo ==> id in copies && Clear(iht[id], copies[id], start, end)
        decreases todo
      {
        var id :| id in todo;
        var e := iht[id];
        EntryChains(Now(), id);
        var p := e.copy;
        ghost var k := 0;
        while p != NULL
          invariant 0 <= k <= |copies[id]| && Chain(mem, p, copies[id][k..])
          invariant forall i :: 0 <= i < k ==> !(start <= copies[id][i] < end)
          decreases |copies[id]| - k
        {
          if start <= p < end {
            PendingFound(Now(), id, p);
            return true;
          }
          p := mem[p];
          k := k + 1;
        }
        for i := 0 to |e.flist|
          invariant forall j :: 0 <= j < i ==> !(start <= e.flist[j].ptr < end)
        {
          if start <= e.flist[i].ptr < end {
            assert Ptrs(e.flist)[i] == e.flist[i].ptr;
            PendingFound(Now(), id, e.flist[i].ptr);
            return true;
          }
        }
        EntryClear(e, copies[id], start, end);
        todo := todo - {id};
      }
      AllClear(Now(), start, end);
      return false;
    }

    // Copies the object of id to every location on its forward list.
    method FillList(id: string)
      requires id in iht && Span(mem, iht[id].ptr, iht[id].size)
      requires iht[id].flist == [] || Separate(mem, Ptrs(iht[id].flist), iht[id].size)
      requires forall a :: a in Ptrs(iht[id].flist) ==> Apart(a, iht[id].size, iht[id].ptr, iht[id].size)
      modifies `mem, `iht
      ensures iht == old(iht)[id := old(iht)[id].(flist := [])]
      ensures Filled(old(mem), mem, Ptrs(old(iht)[id].flist), iht[id].ptr, iht[id].size)
    {
      ghost var fl := iht[id].flist;
      ghost var k := 0;
      var src, n := iht[id].ptr, iht[id].size;
      FilledNothing(mem, src, n);
      while iht[id].flist != []
        invariant 0 <= k <= |fl| && mem.Keys == old(mem).Keys
        invariant id in iht && iht == old(iht)[id := old(iht)[id].(flist := fl[k..])]
        invariant Filled(old(mem), mem, Ptrs(fl)[..k], src, n)
        decreases |iht[id].flist|
      {
        var fp := iht[id].flist[0];
        assert fp.ptr == Ptrs(fl)[k];
        SeparateAt(old(mem), Ptrs(fl), k, n);
        ghost var m := mem;
        mem := Memcpy(mem, fp.ptr, src, n);
        FillOne(old(mem), m, mem, Ptrs(fl), k, src, n);
        iht := iht[id := iht[id].(flist := iht[id].flist[1..])];
        k := k + 1;
      }
      assert Ptrs(fl)[..k] == Ptrs(fl);
    }

    // Copies the object of id to everything that waits for it.
    method Flush(id: string)
      requires Valid() && id in iht && iht[id].ptr != NULL && NonePending(regs, iht[id].ptr, iht[id].size)
      modifies `mem, `iht, `copies, `regs
      ensures Valid()
      ensures id in old(copies) && Filled(old(mem), mem, Pending(old(iht)[id], old(copies)[id]), iht[id].ptr, iht[id].size)
      ensures iht == old(iht)[id := old(iht)[id].(copy := NULL, flist := [])]
      ensures regs == Without(old(regs), Pending(old(iht)[id], old(copies)[id]))
    {
      hide Inv, Filled, Separate, NonePending, Without, Chain, Pending;
      ghost var was := Now();
      FlushCells(was, id);
      var src, n, q := iht[id].ptr, iht[id].size, iht[id].copy;
      FilledNothing(mem, src, n);
      iht := iht[id := iht[id].(copy := NULL)];
      if q != NULL {
        FillChain(q, src, n, copies[id]);
      }
      ghost var m := mem;
      ForwardCells(was, m, id);
      FillList(id);
      FilledCompose(was.mem, m, mem, was.copies[id], Ptrs(was.iht[id].flist), src, n);
      PendingIs(was.iht[id], was.copies[id]);
      regs := Without(regs, Pending(was.iht[id], was.copies[id]));
      copies := copies[id := []];
      assert iht == was.iht[id := was.iht[id].(copy := NULL, flist := [])];
      CopiesResolved(was.mem, mem, was.iht, was.regs, regs, was.links, was.copies, id);
    }

    // The second loop of soap_resolve: rounds over the table until one of them
    // copies nothing.
    method CopyPhase() returns (ghost rank: map<string, nat>, ghost t: nat)
      requires Valid()
      modifies `mem, `iht, `copies, `regs
      ensures Progress(old(Now()), Now(), rank, t) && Stuck(iht, regs)
    {
      hide Progress, Good, Inv, Filled, NonePending, Without, Pending, Stuck, Waits;
      ghost var s0 := Now();
      rank, t := map[], 0;
      ProgressStart(s0);
      var flag := true;
      while flag
        invariant Progress(s0, Now(), rank, t)
        invariant !flag ==> Stuck(iht, regs)
        decreases |regs|, if flag then 1 else 0
      {
        flag := false;
        ghost var left := |regs|;
        var todo := iht.Keys;
        while todo != {}
          invariant todo <= iht.Keys && Progress(s0, Now(), rank, t)
          invariant if flag then |regs| < left
                    else |regs| == left && forall id :: id in iht && id !in todo ==> Waits(Now(), id)
          decreases todo
        {
          var id :| id in todo;
          ghost var was := Now();
          ProgressGood(s0, was, rank, t);
          if iht[id].ptr != NULL {
            var found := HasCopies(iht[id].ptr, iht[id].ptr + iht[id].size);
            FoundMeans(was, id, found);
            if !found && (iht[id].copy != NULL || iht[id].flist != []) {
              PendingNonempty(was, id);
              Flush(id);
              ProgressFlush(s0, was, Now(), rank, t, id);
              rank, t := rank[id := t], t + 1;
              flag := true;
            } else {
              WaitsAnyway(was, id);
            }
          } else {
            UndefinedWaits(was, id);
          }
          todo := todo - {id};
        }
        if !flag {
          ProgressGood(s0, Now(), rank, t);
          AllWait(Now());
        }
      }
    }

    // Resolves all references of a parsed message.
    method Resolve() returns (ok: bool)
      requires Valid()
      modifies this
      ensures Valid()
      ensures ok <==> Defined(old(iht), old(iht).Keys)
      ensures !ok ==> error == MissingId && Missing(iht, badId)
      ensures ok ==> Resolved(old(Now()), Now())
      ensures ok ==> ((forall a :: a in regs ==> regs[a].Ref?) <==>
                      Acyclic(old(iht), old(regs)) && AllDestsDefined(old(iht), old(regs)))
    {
      hide Progress, Good, Inv, Stuck, Acyclic, OnlyRegs, Resolved, AllDestsDefined;
      ghost var s0 := Now();
      ok := LinkPhase();
      DefinedSame(s0.iht, iht);
      if ok {
        ghost var s1 := Now();
        ghost var rank, t := CopyPhase();
        ResolvedAll(s0, s1, Now(), rank, t);
      }
    }
  }

  // What waits for a copy of an object lies apart from the object and from each other.
  lemma FlushCells(s: State, id: string)
    requires Good(s) && id in s.iht && s.iht[id].ptr != NULL && NonePending(s.regs, s.iht[id].ptr, s.iht[id].size)
    ensures id in s.copies && Span(s.mem, s.iht[id].ptr, s.iht[id].size)
    ensures Chain(s.mem, s.iht[id].copy, s.copies[id])
    ensures s.copies[id] != [] ==> Separate(s.mem, s.copies[id], s.iht[id].size)
    ensures forall a :: a in s.copies[id] || a in Ptrs(s.iht[id].flist) ==> Apart(a, s.iht[id].size, s.iht[id].ptr, s.iht[id].size)
    ensures forall d, f :: d in s.copies[id] && f in Ptrs(s.iht[id].flist) ==> Apart(d, s.iht[id].size, f, s.iht[id].size)
  {
    var e, cs := s.iht[id], s.copies[id];
    assert EntryOK(s.mem, s.regs, id, e, s.links[id], cs);
    forall a | a in cs || a in Ptrs(e.flist)
      ensures a in s.regs && s.regs[a] == Dest(id, e.size) && Apart(a, e.size, e.ptr, e.size)
    {
      assert a in Pending(e, cs);
      PendingApart(s.mem, s.regs, e.ptr, e.size, a);
    }
    DistinctParts(cs, Ptrs(e.flist));
  }

  lemma PendingIs(e: IList, cs: seq<Addr>)
    ensures Pending(e, cs) == cs + Ptrs(e.flist)
  {
  }

  lemma DistinctParts(s: seq<Addr>, t: seq<Addr>)
    requires Distinct(s + t)
    ensures Distinct(s) && Distinct(t) && forall a, b :: a in s && b in t ==> a != b
  {
    var u := s + t;
    assert forall i :: 0 <= i < |s| ==> s[i] == u[i];
    assert forall i :: 0 <= i < |t| ==> t[i] == u[|s| + i];
    forall a, b | a in s && b in t
      ensures a != b
    {
      var i :| 0 <= i < |s| && s[i] == a;
      var j :| 0 <= j < |t| && t[j] == b;
      assert u[i] != u[|s| + j];
    }
  }

  lemma ForwardCells(s: State, m: Mem, id: string)
    requires Good(s) && id in s.iht && m.Keys == s.mem.Keys
    ensures s.iht[id].flist == [] || Separate(m, Ptrs(s.iht[id].flist), s.iht[id].size)
  {
    var e, cs := s.iht[id], s.copies[id];
    assert EntryOK(s.mem, s.regs, id, e, s.links[id], cs);
    DistinctParts(cs, Ptrs(e.flist));
    if e.flist != [] {
      var fs := Ptrs(e.flist);
      forall a | a in fs
        ensures a in s.regs && s.regs[a] == Dest(id, e.size) && Span(m, a, e.size)
      {
        assert a in Pending(e, cs);
      }
      assert fs[0] in fs;
    }
  }

  // id has nothing to copy, or cannot be copied from yet.
  ghost predicate Waits(s: State, id: string)
    requires id in s.iht
  {
    s.iht[id].ptr != NULL && id in s.copies && Pending(s.iht[id], s.copies[id]) != [] ==>
      !NonePending(s.regs, s.iht[id].ptr, s.iht[id].size)
  }

  lemma ProgressGood(s0: State, s: State, rank: map<string, nat>, t: nat)
    requires Progress(s0, s, rank, t)
    ensures Good(s)
  {
  }

  lemma FoundMeans(s: State, id: string, found: bool)
    requires id in s.iht
    requires found <==> exists a :: a in s.regs && s.regs[a].Dest? && s.iht[id].ptr <= a < s.iht[id].ptr + s.iht[id].size
    ensures found <==> !NonePending(s.regs, s.iht[id].ptr, s.iht[id].size)
  {
  }

  lemma PendingNonempty(s: State, id: string)
    requires Good(s) && id in s.iht
    ensures id in s.copies
    ensures Pending(s.iht[id], s.copies[id]) != [] <==> s.iht[id].copy != NULL || s.iht[id].flist != []
  {
    assert EntryOK(s.mem, s.regs, id, s.iht[id], s.links[id], s.copies[id]);
  }

  lemma WaitsAnyway(s: State, id: string)
    requires Good(s) && id in s.iht
    requires !NonePending(s.regs, s.iht[id].ptr, s.iht[id].size) || !(s.iht[id].copy != NULL || s.iht[id].flist != [])
    ensures Waits(s, id)
  {
    PendingNonempty(s, id);
  }

  lemma UndefinedWaits(s: State, id: string)
    requires id in s.iht && s.iht[id].ptr == NULL
    ensures Waits(s, id)
  {
  }

  lemma AllWait(s: State)
    requires Good(s) && forall id :: id in s.iht ==> Waits(s, id)
    ensures Stuck(s.iht, s.regs)
  {
    forall d | d in s.regs && s.regs[d].Dest? && Def(s.iht, s.regs[d].id) != NULL
      ensures !NonePending(s.regs, Def(s.iht, s.regs[d].id), s.iht[s.regs[d].id].size)
    {
      var id := s.regs[d].id;
      PendingOf(s, id);
      assert d in Pending(s.iht[id], s.copies[id]);
      assert Waits(s, id);
    }
  }

  ghost predicate AllDestsDefined(iht: Table, regs: Regs) {
    forall a :: a in regs && regs[a].Dest? ==> Def(iht, regs[a].id) != NULL
  }

  lemma AllDefinedIs(iht: Table, regs: Regs)
    ensures AllDestsDefined(iht, regs) <==> forall a :: a in regs && regs[a].Dest? ==> Def(iht, regs[a].id) != NULL
  {
  }

  // What a successful resolve has made of the state s0.
  ghost predicate Resolved(s0: State, s: State) {
    // nothing was defined or registered, and only registered locations were written
    && SameDefs(s0.iht, s.iht) && OnlyRegs(s0.mem, s.mem, s0.regs)
    && (forall a :: a in s.regs ==> a in s0.regs && s.regs[a] == s0.regs[a])
    // every registered pointer whose id is defined holds the address of the object
    && (forall a :: a in s0.regs && s0.regs[a].Ref? && Def(s0.iht, s0.regs[a].id) != NULL ==>
                      a in s.mem && s.mem[a] == Def(s0.iht, s0.regs[a].id))
    // every location that stopped waiting equals the final bytes of its object
    && (forall a :: a in s0.regs && s0.regs[a].Dest? && a !in s.regs ==>
                      Def(s0.iht, s0.regs[a].id) != NULL
                      && SameCells(s.mem, a, Def(s0.iht, s0.regs[a].id), s0.regs[a].size))
    // no defined object that something still waits for could have been copied
    && Stuck(s.iht, s.regs)
  }

  lemma DefinedSame(iht: Table, iht': Table)
    requires SameDefs(iht, iht')
    ensures Defined(iht, iht.Keys) <==> Defined(iht', iht'.Keys)
  {
  }

  lemma ResolvedAll(s0: State, s1: State, s: State, rank: map<string, nat>, t: nat)
    requires Good(s0) && Good(s1) && s1.regs == s0.regs && SameDefs(s0.iht, s1.iht) && OnlyRegs(s0.mem, s1.mem, s0.regs)
    requires Unlinked(s1.iht, s1.links, s1.iht.Keys)
    requires Progress(s1, s, rank, t) && Stuck(s.iht, s.regs)
    ensures Good(s) && Resolved(s0, s)
    ensures (forall a :: a in s.regs ==> s.regs[a].Ref?) <==> Acyclic(s0.iht, s0.regs) && AllDestsDefined(s0.iht, s0.regs)
  {
    hide Good, Laid, OnlyRegs, Stuck, Acyclic, AllDestsDefined, Unlinked, SameCells, RankSoFar;
    OnlyRegsTrans(s0.mem, s1.mem, s.mem, s0.regs);
    forall a | a in s0.regs && s0.regs[a].Ref? && Def(s0.iht, s0.regs[a].id) != NULL
      ensures a in s.mem && s.mem[a] == Def(s0.iht, s0.regs[a].id)
    {
      RefHolds(s1, s, a);
    }
    forall a | a in s0.regs && s0.regs[a].Dest? && a !in s.regs
      ensures Def(s0.iht, s0.regs[a].id) != NULL
      ensures SameCells(s.mem, a, Def(s0.iht, s0.regs[a].id), s0.regs[a].size)
    {
      assert Done(s.mem, s.iht, s.regs, a, s0.regs[a]);
    }
    AcyclicSame(s0.iht, s1.iht, s0.regs);
    if forall a :: a in s.regs ==> s.regs[a].Ref? {
      RanksDone(s1, s, rank, t);
      AllDefinedIs(s1.iht, s1.regs);
    } else if Acyclic(s1.iht, s1.regs) && AllDestsDefined(s1.iht, s1.regs) {
      AllDefinedIs(s1.iht, s1.regs);
      StuckDone(s1, s, rank, t);
    }
  }

  // A registered pointer was on no chain, so it holds the address and keeps it.
  lemma RefHolds(s1: State, s: State, a: Addr)
    requires Good(s1) && Good(s) && Settled(s.mem, s.iht, s1.regs, s.regs) && s.links == s1.links && SameDefs(s1.iht, s.iht)
    requires Unlinked(s1.iht, s1.links, s1.iht.Keys)
    requires a in s1.regs && s1.regs[a].Ref? && Def(s1.iht, s1.regs[a].id) != NULL
    ensures a in s.mem && s.mem[a] == Def(s1.iht, s1.regs[a].id)
  {
    assert a !in s.regs ==> Done(s.mem, s.iht, s.regs, a, s1.regs[a]);
    var id := s.regs[a].id;
    assert Accounted(s.mem, s.regs, a, s.iht[id], s.links[id], s.copies[id]);
  }

  lemma AcyclicSame(iht: Table, iht': Table, regs: Regs)
    requires SameDefs(iht, iht')
    ensures Acyclic(iht, regs) <==> Acyclic(iht', regs)
    ensures AllDestsDefined(iht, regs) <==> AllDestsDefined(iht', regs)
  {
    assert forall outer, inner :: Contains(iht, regs, outer, inner) <==> Contains(iht', regs, outer, inner);
    assert forall rank :: Ranked(iht, regs, rank) <==> Ranked(iht', regs, rank);
  }

  lemma EntryChains(s: State, id: string)
    requires Good(s) && id in s.iht
    ensures id in s.copies && Chain(s.mem, s.iht[id].copy, s.copies[id])
  {
    assert EntryOK(s.mem, s.regs, id, s.iht[id], s.links[id], s.copies[id]);
  }

  lemma PendingFound(s: State, id: string, a: Addr)
    requires Good(s) && id in s.iht && id in s.copies && a in Pending(s.iht[id], s.copies[id])
    ensures a in s.regs && s.regs[a].Dest?
  {
    assert EntryOK(s.mem, s.regs, id, s.iht[id], s.links[id], s.copies[id]);
  }

  // No location waiting for a copy of this entry lies in [start, end).
  ghost predicate Clear(e: IList, cs: seq<Addr>, start: Addr, end: Addr) {
    forall a :: a in Pending(e, cs) ==> !(start <= a < end)
  }

  lemma EntryClear(e: IList, cs: seq<Addr>, start: Addr, end: Addr)
    requires forall i :: 0 <= i < |cs| ==> !(start <= cs[i] < end)
    requires forall j :: 0 <= j < |e.flist| ==> !(start <= e.flist[j].ptr < end)
    ensures Clear(e, cs, start, end)
  {
    assert forall j :: 0 <= j < |e.flist| ==> Ptrs(e.flist)[j] == e.flist[j].ptr;
  }

  lemma AllClear(s: State, start: Addr, end: Addr)
    requires Good(s)
    requires forall id :: id in s.iht ==> id in s.copies && Clear(s.iht[id], s.copies[id], start, end)
    ensures forall a :: a in s.regs && s.regs[a].Dest? ==> !(start <= a < end)
  {
    forall a | a in s.regs && s.regs[a].Dest?
      ensures !(start <= a < end)
    {
      var id := s.regs[a].id;
      assert Accounted(s.mem, s.regs, a, s.iht[id], s.links[id], s.copies[id]);
      assert Clear(s.iht[id], s.copies[id], start, end);
    }
  }

  // *id == '#'
  predicate IsHash(id: string) {
    id != "" && id[0] == '#'
  }

  // The id named without its '#' is known and has not been defined.
  ghost predicate Missing(iht: Table, name: string) {
    "#" + name in iht && iht["#" + name].ptr == NULL
  }

  // Every `#` id of ids has been defined.
  ghost predicate Defined(iht: Table, ids: set<string>) {
    forall id :: id in ids && IsHash(id) ==> Def(iht, id) != NULL
  }

  // No cell waits any more for the address of a defined id of ids.
  ghost predicate Unlinked(iht: Table, links: map<string, seq<Addr>>, ids: set<string>) {
    forall id :: id in ids && Def(iht, id) != NULL ==> id in links && links[id] == []
  }

  lemma LinkStart(mem: Mem, iht: Table, links: map<string, seq<Addr>>, regs: Regs)
    ensures SameDefs(iht, iht) && OnlyRegs(mem, mem, regs)
    ensures Unlinked(iht, links, iht.Keys - iht.Keys) && Defined(iht, iht.Keys - iht.Keys)
  {
  }

  lemma LinkNext(mem0: Mem, iht0: Table, s: State, s': State, id: string, todo: set<string>)
    requires SameDefs(iht0, s.iht) && OnlyRegs(mem0, s.mem, s.regs) && OnlyRegs(s.mem, s'.mem, s.regs)
    requires Unlinked(s.iht, s.links, s.iht.Keys - todo) && Defined(s.iht, s.iht.Keys - todo)
    requires id in todo && todo <= s.iht.Keys && s.iht[id].ptr != NULL
    requires s'.iht == s.iht[id := s.iht[id].(link := NULL)] && s'.links == s.links[id := []]
    ensures SameDefs(iht0, s'.iht) && OnlyRegs(mem0, s'.mem, s.regs) && s'.iht.Keys == s.iht.Keys
    ensures Unlinked(s'.iht, s'.links, s'.iht.Keys - (todo - {id})) && Defined(s'.iht, s'.iht.Keys - (todo - {id}))
  {
  }

  lemma LinkSkip(iht: Table, links: map<string, seq<Addr>>, id: string, todo: set<string>)
    requires Unlinked(iht, links, iht.Keys - todo) && Defined(iht, iht.Keys - todo)
    requires id in todo && Def(iht, id) == NULL && !IsHash(id)
    ensures Unlinked(iht, links, iht.Keys - (todo - {id})) && Defined(iht, iht.Keys - (todo - {id}))
  {
  }

  lemma NotDefined(iht: Table, id: string)
    requires id in iht && IsHash(id) && iht[id].ptr == NULL
    ensures !Defined(iht, iht.Keys)
  {
  }

  lemma RefCells(mem: Mem, iht: Table, regs: Regs, links: map<string, seq<Addr>>, copies: map<string, seq<Addr>>, id: string)
    requires Inv(mem, iht, regs, links, copies) && id in iht
    ensures links.Keys == iht.Keys
    ensures Chain(mem, iht[id].link, links[id]) && Separate(mem, links[id], PTR)
    ensures forall a :: a in links[id] ==> a in regs && regs[a] == Ref(id)
  {
    assert EntryOK(mem, regs, id, iht[id], links[id], copies[id]);
  }

  // Distinct locations of n cells each that do not overlap.
  ghost predicate Separate(mem: Mem, ls: seq<Addr>, n: nat) {
    && n > 0 && Distinct(ls)
    && (forall a :: a in ls ==> Span(mem, a, n))
    && (forall a, b :: a in ls && b in ls && a != b ==> Apart(a, n, b, n))
  }

  lemma SeparateAt(mem: Mem, ls: seq<Addr>, k: nat, n: nat)
    requires Separate(mem, ls, n)
    ensures k < |ls| ==> ls[k] in ls && Span(mem, ls[k], n)
  {
  }

  // Overwriting the n cells of the k-th location of a chain leaves the rest of
  // the chain as it is.
  lemma WalkOn(m: Mem, m': Mem, ls: seq<Addr>, k: nat, n: nat)
    requires k < |ls| && Chain(m, ls[k], ls[k..]) && Separate(m, ls, n)
    requires m'.Keys == m.Keys && forall x :: x in m && !(ls[k] <= x < ls[k] + n) ==> m'[x] == m[x]
    ensures Chain(m', m[ls[k]], ls[k + 1..])
  {
    assert ls[k..][1..] == ls[k + 1..];
    forall a | a in ls[k + 1..] && a in m
      ensures m'[a] == m[a]
    {
      var i :| k < i < |ls| && ls[i] == a;
      assert Apart(ls[k], n, ls[i], n);
    }
    ChainFrame(m, m', m[ls[k]], ls[k + 1..]);
  }

  lemma WroteNothing(m: Mem, r: int)
    ensures Wrote(m, m, [], r)
  {
  }

  lemma FilledNothing(m: Mem, src: Addr, n: nat)
    requires Span(m, src, n)
    ensures Filled(m, m, [], src, n)
  {
  }

  lemma WriteOne(m0: Mem, m: Mem, m': Mem, ls: seq<Addr>, k: nat, r: int)
    requires k < |ls| && Separate(m0, ls, PTR) && Wrote(m0, m, ls[..k], r)
    requires Span(m, ls[k], PTR) && m' == Store(m, ls[k], r)
    ensures Wrote(m0, m', ls[..k + 1], r)
  {
    assert ls[..k + 1] == ls[..k] + [ls[k]];
    forall a | a in ls[..k + 1] && a in m0
      ensures m'[a] == r
    {
      if a != ls[k] {
        var i :| 0 <= i < k && ls[i] == a;
        assert Apart(ls[k], PTR, ls[i], PTR);
      }
    }
    forall x | x in m0 && !Covered(x, ls[..k + 1], PTR)
      ensures m'[x] == m0[x]
    {
      CoveredPart(x, ls[..k], [ls[k]], PTR);
      assert ls[k] in [ls[k]];
    }
  }

  lemma FillOne(m0: Mem, m: Mem, m': Mem, cs: seq<Addr>, k: nat, src: Addr, n: nat)
    requires k < |cs| && Separate(m0, cs, n) && Filled(m0, m, cs[..k], src, n)
    requires forall a :: a in cs ==> Apart(a, n, src, n)
    requires Span(m, cs[k], n) && Span(m, src, n) && Apart(cs[k], n, src, n) && m' == Memcpy(m, cs[k], src, n)
    ensures Filled(m0, m', cs[..k + 1], src, n)
  {
    assert cs[..k + 1] == cs[..k] + [cs[k]];
    assert Filled(m, m', [cs[k]], src, n) by {
      forall x | x in m && !Covered(x, [cs[k]], n)
        ensures m'[x] == m[x]
      {
        assert cs[k] in [cs[k]];
      }
    }
    forall d, f | d in cs[..k] && f in [cs[k]]
      ensures Apart(d, n, f, n)
    {
      var i :| 0 <= i < k && cs[i] == d;
    }
    FilledCompose(m0, m, m', cs[..k], [cs[k]], src, n);
  }
}
