/** Multi-reference values: the id/href table of the runtime.

    A reference to an id that is not yet defined is remembered inside the very
    cell that will later hold the address: the cells form a chain that starts at
    `link`.  An object that must later receive a copy of a not yet seen element
    is threaded the same way through its own first bytes, starting at `copy`;
    objects too short to hold a pointer go on `flist` instead. */
module IdRef {
  import opened Memory

  // struct soap_flist
  datatype FList = FList(typ: int, ptr: Addr, len: nat)

  // struct soap_ilist, without its id and its hash chain
  datatype IList = IList(typ: int, size: nat, link: Addr, copy: Addr, flist: seq<FList>, ptr: Addr)

  type Table = map<string, IList>

  datatype Status = Ok | Href | DuplicateId | MissingId | Eom

  // What a registered location waits for: the address of id, or a copy of the
  // `size` cells of id.
  datatype Reg = Ref(id: string) | Dest(id: string, size: nat)

  type Regs = map<Addr, Reg>

  function Size(r: Reg): nat {
    if r.Ref? then PTR else r.size
  }

  function Ptrs(fl: seq<FList>): (s: seq<Addr>)
    ensures |s| == |fl| && forall i :: 0 <= i < |s| ==> s[i] == fl[i].ptr
  {
    seq(|fl|, i requires 0 <= i < |fl| => fl[i].ptr)
  }

  // The locations that still wait for a copy of an entry.
  ghost function Pending(e: IList, cs: seq<Addr>): seq<Addr> {
    cs + Ptrs(e.flist)
  }

  // The registered locations less those of ds.
  ghost function Without(regs: Regs, ds: seq<Addr>): Regs {
    map a | a in regs && a !in ds :: regs[a]
  }

  // Registered locations are allocated and do not overlap.
  ghost predicate Laid(mem: Mem, regs: Regs) {
    && (forall a :: a in regs ==> a != NULL && Size(regs[a]) > 0 && Span(mem, a, Size(regs[a])))
    && (forall a, b :: a in regs && b in regs && a != b ==> Apart(a, Size(regs[a]), b, Size(regs[b])))
  }

  // The object defined at [ptr, ptr+size) contains each waiting copy wholly or
  // not at all.
  ghost predicate Nested(mem: Mem, regs: Regs, ptr: Addr, size: nat) {
    && Span(mem, ptr, size)
    && forall a :: a in regs && regs[a].Dest? ==>
                     Inside(a, regs[a].size, ptr, size) || Apart(a, regs[a].size, ptr, size)
  }

  // The two chains and the forward list of one entry.
  ghost predicate EntryOK(mem: Mem, regs: Regs, id: string, e: IList, ls: seq<Addr>, cs: seq<Addr>) {
    && Chain(mem, e.link, ls) && Distinct(ls)
    && (forall a :: a in ls ==> a in regs && regs[a] == Ref(id))
    && Chain(mem, e.copy, cs) && Distinct(Pending(e, cs))
    && (forall a :: a in Pending(e, cs) ==> a in regs && regs[a] == Dest(id, e.size))
    && (cs != [] ==> e.size >= PTR)
    && (e.ptr != NULL ==> Nested(mem, regs, e.ptr, e.size))
  }

  // Every registered location is on a list of its entry, or already holds the
  // address it waited for.
  ghost predicate Accounted(mem: Mem, regs: Regs, a: Addr, e: IList, ls: seq<Addr>, cs: seq<Addr>)
    requires a in regs
  {
    if regs[a].Ref? then a in ls || (e.ptr != NULL && a in mem && mem[a] == e.ptr)
    else a in Pending(e, cs)
  }

  ghost predicate Inv(mem: Mem, iht: Table, regs: Regs, links: map<string, seq<Addr>>, copies: map<string, seq<Addr>>) {
    && links.Keys == iht.Keys && copies.Keys == iht.Keys
    && "" !in iht
    && Laid(mem, regs)
    && Entries(mem, iht, regs, links, copies)
    && AllAccounted(mem, iht, regs, links, copies)
  }

  ghost predicate Entries(mem: Mem, iht: Table, regs: Regs, links: map<string, seq<Addr>>, copies: map<string, seq<Addr>>)
    requires links.Keys == iht.Keys && copies.Keys == iht.Keys
  {
    forall id :: id in iht ==> EntryOK(mem, regs, id, iht[id], links[id], copies[id])
  }

  ghost predicate AllAccounted(mem: Mem, iht: Table, regs: Regs, links: map<string, seq<Addr>>, copies: map<string, seq<Addr>>)
    requires links.Keys == iht.Keys && copies.Keys == iht.Keys
  {
    forall a :: a in regs ==> regs[a].id in iht
                              && Accounted(mem, regs, a, iht[regs[a].id], links[regs[a].id], copies[regs[a].id])
  }

  // The address defined for id, or NULL.
  function Def(iht: Table, id: string): Addr {
    if id in iht then iht[id].ptr else NULL
  }

  // A new location may be registered at [p, p+n).
  ghost predicate Vacant(mem: Mem, regs: Regs, p: Addr, n: nat) {
    && n > 0 && p != NULL && Span(mem, p, n)
    && forall a :: a in regs ==> Apart(p, n, a, Size(regs[a]))
  }

  // A by-value location at [p, p+n) lies wholly inside or outside every object
  // defined so far.
  ghost predicate NestedDest(iht: Table, p: Addr, n: nat) {
    forall id :: id in iht && iht[id].ptr != NULL ==>
                   Inside(p, n, iht[id].ptr, iht[id].size) || Apart(p, n, iht[id].ptr, iht[id].size)
  }

  // A definition does not fit what is already waiting for the id.
  predicate Clash(e: IList, t: int, n: nat) {
    (e.typ != t || e.size != n) && (e.copy != NULL || e.flist != [])
  }

  // ---- the whole state, and what each operation makes of it ----

  datatype State = State(mem: Mem, iht: Table, error: Status, badId: string,
                         regs: Regs, links: map<string, seq<Addr>>, copies: map<string, seq<Addr>>)

  ghost predicate Good(s: State) {
    Inv(s.mem, s.iht, s.regs, s.links, s.copies)
  }

  // soap_id_lookup: the cell at p is to receive the address of id.
  ghost function Lookup(s: State, id: string, p: Addr, t: int, n: nat): State
    requires p != NULL && id != "" ==> Span(s.mem, p, PTR)
    requires id in s.iht ==> id in s.links
  {
    if p == NULL || id == "" then s
    else if id !in s.iht then
      s.(mem := Store(s.mem, p, NULL), iht := s.iht[id := Blank(t, n).(link := p)],
         regs := s.regs[p := Ref(id)], links := s.links[id := [p]], copies := s.copies[id := []])
    else if s.iht[id].ptr != NULL then
      if s.iht[id].typ != t then s.(error := Href, badId := id)
      else s.(mem := Store(s.mem, p, s.iht[id].ptr), regs := s.regs[p := Ref(id)])
    else
      s.(mem := Store(s.mem, p, s.iht[id].link), iht := s.iht[id := s.iht[id].(link := p)],
         regs := s.regs[p := Ref(id)], links := s.links[id := [p] + s.links[id]])
  }

  // soap_id_forward: the n cells at p are to receive a copy of the object href.
  ghost function Forward(s: State, href: string, p: Addr, len: nat, st: int, tt: int, n: nat): State
    requires p != NULL && href != "" && n >= PTR ==> Span(s.mem, p, PTR)
    requires href in s.iht ==> href in s.copies
  {
    if p == NULL || href == "" then s
    else if href in s.iht && (s.iht[href].typ != st || s.iht[href].size != n) then s.(error := Href, badId := href)
    else Hang(if href in s.iht then s else Blanked(s, href, st, n), href, p, len, tt, n)
  }

  // soap_enter: a new entry for id.
  ghost function Blanked(s: State, id: string, t: int, n: nat): State {
    s.(iht := s.iht[id := Blank(t, n)], links := s.links[id := []], copies := s.copies[id := []])
  }

  // The location p joins the forward list or the copy chain of its entry.
  ghost function Hang(s: State, href: string, p: Addr, len: nat, tt: int, n: nat): State
    requires href in s.iht && href in s.copies && href != "" && (n >= PTR ==> Span(s.mem, p, PTR))
  {
    var e := s.iht[href];
    if n < PTR || href[0] != '#' then
      s.(iht := s.iht[href := e.(flist := [FList(tt, p, len)] + e.flist)], regs := s.regs[p := Dest(href, n)])
    else
      s.(mem := Store(s.mem, p, e.copy), iht := s.iht[href := e.(copy := p)], regs := s.regs[p := Dest(href, n)],
         copies := s.copies[href := [p] + s.copies[href]])
  }

  /** A location with room for a pointer whose id is local is written at once, as the new
      head of the chain; any other is left as it is until the copies are made. */
  lemma HangExactly(s: State, href: string, p: Addr, len: nat, tt: int, n: nat)
    requires href in s.iht && href in s.copies && href != "" && (n >= PTR ==> Span(s.mem, p, PTR))
    ensures var s1 := Hang(s, href, p, len, tt, n);
            var e, e1 := s.iht[href], s1.iht[href];
            if PTR <= n && href[0] == '#' then e1 == e.(copy := p) && s1.mem == Store(s.mem, p, e.copy)
            else e1 == e.(flist := [FList(tt, p, len)] + e.flist) && s1.mem == s.mem
  {
  }

  // soap_id_enter: the element with this id is the n cells at p.  An object
  // without a place yet has been allocated at p.
  ghost function Enter(s: State, id: string, p: Addr, t: int, n: nat): State {
    if id == "" then s
    else if id !in s.iht then
      s.(iht := s.iht[id := Blank(t, n).(ptr := p)], links := s.links[id := []], copies := s.copies[id := []])
    else if Clash(s.iht[id], t, n) then s.(error := Href, badId := id)
    else if s.iht[id].ptr != NULL then s.(error := DuplicateId, badId := id)
    else s.(iht := s.iht[id := s.iht[id].(size := n, ptr := p)])
  }

  // The entry that soap_enter creates for an id, before anything is hung on it.
  function Blank(t: int, n: nat): IList {
    IList(t, n, NULL, NULL, [], NULL)
  }

  // ---- single updates keep the invariant ----

  // Writing one pointer into a vacant cell disturbs nothing registered.
  lemma StoreKeeps(mem: Mem, mem': Mem, iht: Table, regs: Regs, links: map<string, seq<Addr>>, copies: map<string, seq<Addr>>,
                   p: Addr, n: nat)
    requires Inv(mem, iht, regs, links, copies)
    requires Vacant(mem, regs, p, n)
    requires mem'.Keys == mem.Keys
    requires forall x :: x in mem && !(p <= x < p + n) ==> mem'[x] == mem[x]
    ensures Inv(mem', iht, regs, links, copies)
  {
    forall id | id in iht
      ensures EntryOK(mem', regs, id, iht[id], links[id], copies[id])
    {
      ChainFrame(mem, mem', iht[id].link, links[id]);
      var e := iht[id];
      assert forall a :: a in copies[id] ==> a in Pending(e, copies[id]);
      ChainFrame(mem, mem', iht[id].copy, copies[id]);
    }
  }

  // Growing memory by a fresh region disturbs nothing.
  lemma GrowKeeps(mem: Mem, cells: Mem, iht: Table, regs: Regs, links: map<string, seq<Addr>>, copies: map<string, seq<Addr>>)
    requires Inv(mem, iht, regs, links, copies)
    requires mem.Keys !! cells.Keys
    ensures Inv(mem + cells, iht, regs, links, copies)
  {
    var mem' := mem + cells;
    forall id | id in iht
      ensures EntryOK(mem', regs, id, iht[id], links[id], copies[id])
    {
      ChainFrame(mem, mem', iht[id].link, links[id]);
      ChainFrame(mem, mem', iht[id].copy, copies[id]);
    }
    forall a | a in regs
      ensures Accounted(mem', regs, a, iht[regs[a].id], links[regs[a].id], copies[regs[a].id])
    {
      if regs[a].Ref? {
        assert a in mem;
      }
    }
  }

  lemma EnterKeeps(mem: Mem, iht: Table, regs: Regs, links: map<string, seq<Addr>>, copies: map<string, seq<Addr>>,
                   id: string, t: int, n: nat)
    requires Inv(mem, iht, regs, links, copies)
    requires id != "" && id !in iht
    ensures Inv(mem, iht[id := Blank(t, n)], regs, links[id := []], copies[id := []])
  {
    assert EntryOK(mem, regs, id, Blank(t, n), [], []);
    assert Entries(mem, iht[id := Blank(t, n)], regs, links[id := []], copies[id := []]);
    assert AllAccounted(mem, iht[id := Blank(t, n)], regs, links[id := []], copies[id := []]);
  }

  lemma LaidGrow(mem: Mem, regs: Regs, p: Addr, r: Reg)
    requires Laid(mem, regs) && Vacant(mem, regs, p, Size(r))
    ensures p !in regs && Laid(mem, regs[p := r])
  {
  }

  lemma EntryGrow(mem: Mem, regs: Regs, p: Addr, r: Reg, id: string, e: IList, ls: seq<Addr>, cs: seq<Addr>)
    requires EntryOK(mem, regs, id, e, ls, cs)
    requires p !in regs
    requires r.Dest? && e.ptr != NULL ==> Inside(p, r.size, e.ptr, e.size) || Apart(p, r.size, e.ptr, e.size)
    ensures EntryOK(mem, regs[p := r], id, e, ls, cs)
  {
  }

  // One location p joins the entry of id, whose lists only grow.
  lemma RegisterKeeps(mem: Mem, iht: Table, regs: Regs, links: map<string, seq<Addr>>, copies: map<string, seq<Addr>>,
                      id: string, p: Addr, r: Reg, e: IList, ls: seq<Addr>, cs: seq<Addr>)
    requires Inv(mem, iht, regs, links, copies)
    requires id in iht && r.id == id && Vacant(mem, regs, p, Size(r))
    requires r.Dest? ==> NestedDest(iht, p, r.size)
    requires EntryOK(mem, regs[p := r], id, e, ls, cs)
    requires e.ptr == iht[id].ptr
    requires forall a :: a in links[id] ==> a in ls
    requires forall a :: a in Pending(iht[id], copies[id]) ==> a in Pending(e, cs)
    requires Accounted(mem, regs[p := r], p, e, ls, cs)
    ensures Inv(mem, iht[id := e], regs[p := r], links[id := ls], copies[id := cs])
  {
    hide Laid, Entries, AllAccounted, EntryOK, Accounted, Vacant, NestedDest;
    LaidGrow(mem, regs, p, r);
    RegisterEntries(mem, iht, regs, links, copies, id, p, r, e, ls, cs);
    RegisterAccounted(mem, iht, regs, links, copies, id, p, r, e, ls, cs);
  }

  lemma RegisterEntries(mem: Mem, iht: Table, regs: Regs, links: map<string, seq<Addr>>, copies: map<string, seq<Addr>>,
                        id: string, p: Addr, r: Reg, e: IList, ls: seq<Addr>, cs: seq<Addr>)
    requires Inv(mem, iht, regs, links, copies) && id in iht && p !in regs
    requires r.Dest? ==> NestedDest(iht, p, r.size)
    requires EntryOK(mem, regs[p := r], id, e, ls, cs)
    ensures Entries(mem, iht[id := e], regs[p := r], links[id := ls], copies[id := cs])
  {
    hide EntryOK, AllAccounted, Laid;
    forall i | i in iht && i != id
      ensures EntryOK(mem, regs[p := r], i, iht[i], links[i], copies[i])
    {
      EntryGrow(mem, regs, p, r, i, iht[i], links[i], copies[i]);
    }
  }

  lemma RegisterAccounted(mem: Mem, iht: Table, regs: Regs, links: map<string, seq<Addr>>, copies: map<string, seq<Addr>>,
                          id: string, p: Addr, r: Reg, e: IList, ls: seq<Addr>, cs: seq<Addr>)
    requires Inv(mem, iht, regs, links, copies) && id in iht && p !in regs && r.id == id
    requires e.ptr == iht[id].ptr
    requires forall a :: a in links[id] ==> a in ls
    requires forall a :: a in Pending(iht[id], copies[id]) ==> a in Pending(e, cs)
    requires Accounted(mem, regs[p := r], p, e, ls, cs)
    ensures AllAccounted(mem, iht[id := e], regs[p := r], links[id := ls], copies[id := cs])
  {
    hide Laid, Entries, Accounted;
    var iht', regs', links', copies' := iht[id := e], regs[p := r], links[id := ls], copies[id := cs];
    forall a | a in regs'
      ensures regs'[a].id in iht'
      ensures Accounted(mem, regs', a, iht'[regs'[a].id], links'[regs'[a].id], copies'[regs'[a].id])
    {
      if a != p {
        AccountedGrow(mem, regs, p, r, a, iht[regs[a].id], links[regs[a].id], copies[regs[a].id],
                      iht'[regs[a].id], links'[regs[a].id], copies'[regs[a].id]);
      }
    }
  }

  lemma AccountedGrow(mem: Mem, regs: Regs, p: Addr, r: Reg, a: Addr, e: IList, ls: seq<Addr>, cs: seq<Addr>,
                      e': IList, ls': seq<Addr>, cs': seq<Addr>)
    requires a in regs && a != p && Accounted(mem, regs, a, e, ls, cs)
    requires e'.ptr == e.ptr
    requires forall x :: x in ls ==> x in ls'
    requires forall x :: x in Pending(e, cs) ==> x in Pending(e', cs')
    ensures Accounted(mem, regs[p := r], a, e', ls', cs')
  {
  }

  // p becomes the new head of the link chain of id.
  lemma LinkKeeps(mem: Mem, iht: Table, regs: Regs, links: map<string, seq<Addr>>, copies: map<string, seq<Addr>>,
                  id: string, p: Addr)
    requires Inv(mem, iht, regs, links, copies)
    requires id in iht && Vacant(mem, regs, p, PTR)
    requires mem[p] == iht[id].link
    ensures Inv(mem, iht[id := iht[id].(link := p)], regs[p := Ref(id)], links[id := [p] + links[id]], copies)
  {
    var e, ls, cs := iht[id], links[id], copies[id];
    var e' := e.(link := p);
    LaidGrow(mem, regs, p, Ref(id));
    EntryGrow(mem, regs, p, Ref(id), id, e, ls, cs);
    assert ([p] + ls)[1..] == ls;
    assert Pending(e', cs) == Pending(e, cs);
    assert copies == copies[id := cs];
    RegisterKeeps(mem, iht, regs, links, copies, id, p, Ref(id), e', [p] + ls, cs);
  }

  // p receives the address directly: the id is already defined.
  lemma FilledRefKeeps(mem: Mem, iht: Table, regs: Regs, links: map<string, seq<Addr>>, copies: map<string, seq<Addr>>,
                       id: string, p: Addr)
    requires Inv(mem, iht, regs, links, copies)
    requires id in iht && Vacant(mem, regs, p, PTR)
    requires iht[id].ptr != NULL && mem[p] == iht[id].ptr
    ensures Inv(mem, iht, regs[p := Ref(id)], links, copies)
  {
    LaidGrow(mem, regs, p, Ref(id));
    EntryGrow(mem, regs, p, Ref(id), id, iht[id], links[id], copies[id]);
    assert iht == iht[id := iht[id]] && links == links[id := links[id]] && copies == copies[id := copies[id]];
    RegisterKeeps(mem, iht, regs, links, copies, id, p, Ref(id), iht[id], links[id], copies[id]);
  }

  // p becomes the new head of the copy chain of id.
  lemma CopyKeeps(mem: Mem, iht: Table, regs: Regs, links: map<string, seq<Addr>>, copies: map<string, seq<Addr>>,
                  id: string, p: Addr)
    requires Inv(mem, iht, regs, links, copies)
    requires id in iht && iht[id].size >= PTR && Vacant(mem, regs, p, iht[id].size) && NestedDest(iht, p, iht[id].size)
    requires mem[p] == iht[id].copy
    ensures Inv(mem, iht[id := iht[id].(copy := p)], regs[p := Dest(id, iht[id].size)], links, copies[id := [p] + copies[id]])
  {
    var e, ls, cs := iht[id], links[id], copies[id];
    var e' := e.(copy := p);
    var r := Dest(id, e.size);
    LaidGrow(mem, regs, p, r);
    EntryGrow(mem, regs, p, r, id, e, ls, cs);
    assert ([p] + cs)[1..] == cs;
    assert Pending(e', [p] + cs) == [p] + Pending(e, cs);
    assert links == links[id := ls];
    RegisterKeeps(mem, iht, regs, links, copies, id, p, r, e', ls, [p] + cs);
  }

  // p is put at the front of the forward list of id.
  lemma {:induction false} ForwardKeeps(mem: Mem, iht: Table, regs: Regs, links: map<string, seq<Addr>>, copies: map<string, seq<Addr>>,
                     id: string, p: Addr, t: int, len: nat)
    requires Inv(mem, iht, regs, links, copies)
    requires id in iht && Vacant(mem, regs, p, iht[id].size) && NestedDest(iht, p, iht[id].size)
    ensures Inv(mem, iht[id := iht[id].(flist := [FList(t, p, len)] + iht[id].flist)], regs[p := Dest(id, iht[id].size)], links, copies)
  {
    hide Laid, NestedDest, Entries, AllAccounted, EntryOK, Vacant, Distinct, Chain;
    EntryAt(mem, iht, regs, links, copies, id);
    var e, ls, cs := iht[id], links[id], copies[id];
    var e' := e.(flist := [FList(t, p, len)] + e.flist);
    var r := Dest(id, e.size);
    LaidGrow(mem, regs, p, r);
    ForwardEntry(mem, iht, regs, id, e, ls, cs, p, t, len);
    assert links == links[id := ls] && copies == copies[id := cs];
    RegisterKeeps(mem, iht, regs, links, copies, id, p, r, e', ls, cs);
  }

  lemma EntryAt(mem: Mem, iht: Table, regs: Regs, links: map<string, seq<Addr>>, copies: map<string, seq<Addr>>, id: string)
    requires Inv(mem, iht, regs, links, copies) && id in iht
    ensures id in links && id in copies && EntryOK(mem, regs, id, iht[id], links[id], copies[id])
  {
    hide EntryOK, Laid, AllAccounted;
  }

  lemma {:induction false} ForwardEntry(mem: Mem, iht: Table, regs: Regs, id: string, e: IList, ls: seq<Addr>, cs: seq<Addr>, p: Addr, t: int, len: nat)
    requires EntryOK(mem, regs, id, e, ls, cs) && p !in regs && id in iht && iht[id] == e && NestedDest(iht, p, e.size)
    ensures var e' := e.(flist := [FList(t, p, len)] + e.flist);
            && EntryOK(mem, regs[p := Dest(id, e.size)], id, e', ls, cs)
            && forall a :: a in Pending(e', cs) <==> a == p || a in Pending(e, cs)
  {
    var e' := e.(flist := [FList(t, p, len)] + e.flist);
    EntryGrow(mem, regs, p, Dest(id, e.size), id, e, ls, cs);
    assert Ptrs(e'.flist) == [p] + Ptrs(e.flist);
    assert Pending(e', cs) == cs + ([p] + Ptrs(e.flist));
    InsertDistinct(cs, p, Ptrs(e.flist));
  }

  lemma InsertDistinct(s: seq<Addr>, p: Addr, t: seq<Addr>)
    requires Distinct(s + t) && p !in s + t
    ensures Distinct(s + ([p] + t))
    ensures forall a :: a in s + ([p] + t) <==> a == p || a in s + t
  {
    var u, v := s + t, s + ([p] + t);
    assert forall i :: 0 <= i < |s| ==> v[i] == u[i];
    assert forall i :: |s| < i < |v| ==> v[i] == u[i - 1];
    assert v[|s|] == p;
    assert forall i :: |s| <= i < |u| ==> v[i + 1] == u[i];
  }

  // id is defined at ptr.
  lemma DefineKeeps(mem: Mem, iht: Table, regs: Regs, links: map<string, seq<Addr>>, copies: map<string, seq<Addr>>,
                    id: string, p: Addr, n: nat)
    requires Inv(mem, iht, regs, links, copies)
    requires id in iht && iht[id].ptr == NULL
    requires (iht[id].copy == NULL && iht[id].flist == []) || iht[id].size == n
    requires p != NULL ==> Nested(mem, regs, p, n)
    ensures Inv(mem, iht[id := iht[id].(size := n, ptr := p)], regs, links, copies)
  {
    var e, cs := iht[id], copies[id];
    var e' := e.(size := n, ptr := p);
    assert Pending(e', cs) == Pending(e, cs);
    assert EntryOK(mem, regs, id, e', links[id], cs);
  }

  // ---- one whole operation keeps the invariant ----

  lemma LookupNew(mem: Mem, iht: Table, regs: Regs, links: map<string, seq<Addr>>, copies: map<string, seq<Addr>>,
                  id: string, p: Addr, t: int, n: nat)
    requires Inv(mem, iht, regs, links, copies) && Vacant(mem, regs, p, PTR) && id != "" && id !in iht
    ensures Inv(Store(mem, p, NULL), iht[id := Blank(t, n).(link := p)], regs[p := Ref(id)], links[id := [p]], copies[id := []])
  {
    var mem' := Store(mem, p, NULL);
    StoreKeeps(mem, mem', iht, regs, links, copies, p, PTR);
    EnterKeeps(mem', iht, regs, links, copies, id, t, n);
    LookupEntered(mem', iht[id := Blank(t, n)], regs, links[id := []], copies[id := []], id, p);
    var iht' := iht[id := Blank(t, n)];
    assert iht'[id := iht'[id].(link := p)] == iht[id := Blank(t, n).(link := p)];
    assert links[id := []][id := [p]] == links[id := [p]];
  }

  lemma LookupEntered(mem: Mem, iht: Table, regs: Regs, links: map<string, seq<Addr>>, copies: map<string, seq<Addr>>,
                      id: string, p: Addr)
    requires Inv(mem, iht, regs, links, copies) && Vacant(mem, regs, p, PTR) && id in iht
    requires links[id] == [] && iht[id].link == NULL && mem[p] == NULL
    ensures Inv(mem, iht[id := iht[id].(link := p)], regs[p := Ref(id)], links[id := [p]], copies)
  {
    LinkKeeps(mem, iht, regs, links, copies, id, p);
    assert [p] + links[id] == [p];
  }

  lemma LookupDefined(mem: Mem, iht: Table, regs: Regs, links: map<string, seq<Addr>>, copies: map<string, seq<Addr>>,
                      id: string, p: Addr)
    requires Inv(mem, iht, regs, links, copies) && Vacant(mem, regs, p, PTR) && id in iht && iht[id].ptr != NULL
    ensures Inv(Store(mem, p, iht[id].ptr), iht, regs[p := Ref(id)], links, copies)
  {
    var mem' := Store(mem, p, iht[id].ptr);
    StoreKeeps(mem, mem', iht, regs, links, copies, p, PTR);
    FilledRefKeeps(mem', iht, regs, links, copies, id, p);
  }

  lemma LookupForward(mem: Mem, iht: Table, regs: Regs, links: map<string, seq<Addr>>, copies: map<string, seq<Addr>>,
                      id: string, p: Addr)
    requires Inv(mem, iht, regs, links, copies) && Vacant(mem, regs, p, PTR) && id in iht
    ensures Inv(Store(mem, p, iht[id].link), iht[id := iht[id].(link := p)], regs[p := Ref(id)], links[id := [p] + links[id]], copies)
  {
    var mem' := Store(mem, p, iht[id].link);
    StoreKeeps(mem, mem', iht, regs, links, copies, p, PTR);
    LinkKeeps(mem', iht, regs, links, copies, id, p);
  }

  lemma ForwardCopy(mem: Mem, iht: Table, regs: Regs, links: map<string, seq<Addr>>, copies: map<string, seq<Addr>>,
                    id: string, p: Addr)
    requires Inv(mem, iht, regs, links, copies) && id in iht && iht[id].size >= PTR
    requires Vacant(mem, regs, p, iht[id].size) && NestedDest(iht, p, iht[id].size)
    ensures Inv(Store(mem, p, iht[id].copy), iht[id := iht[id].(copy := p)], regs[p := Dest(id, iht[id].size)],
                links, copies[id := [p] + copies[id]])
  {
    var mem' := Store(mem, p, iht[id].copy);
    StoreKeeps(mem, mem', iht, regs, links, copies, p, iht[id].size);
    CopyKeeps(mem', iht, regs, links, copies, id, p);
  }

  lemma LookupKeeps(s: State, id: string, p: Addr, t: int, n: nat)
    requires Good(s) && (p != NULL && id != "" ==> Vacant(s.mem, s.regs, p, PTR))
    ensures Good(Lookup(s, id, p, t, n))
  {
    if p != NULL && id != "" {
      if id !in s.iht {
        LookupNew(s.mem, s.iht, s.regs, s.links, s.copies, id, p, t, n);
      } else if s.iht[id].ptr != NULL {
        LookupDefined(s.mem, s.iht, s.regs, s.links, s.copies, id, p);
      } else {
        LookupForward(s.mem, s.iht, s.regs, s.links, s.copies, id, p);
      }
    }
  }

  lemma ForwardStepKeeps(s: State, href: string, p: Addr, len: nat, st: int, tt: int, n: nat)
    requires Good(s) && (p != NULL && href != "" ==> Vacant(s.mem, s.regs, p, n) && NestedDest(s.iht, p, n))
    ensures Good(Forward(s, href, p, len, st, tt, n))
  {
    if p != NULL && href != "" && (href !in s.iht || (s.iht[href].typ == st && s.iht[href].size == n)) {
      if href !in s.iht {
        BlankedKeeps(s, href, st, n, p);
      }
      HangKeeps(if href in s.iht then s else Blanked(s, href, st, n), href, p, len, tt, n);
    }
  }

  lemma BlankedKeeps(s: State, id: string, t: int, n: nat, p: Addr)
    requires Good(s) && id != "" && id !in s.iht && NestedDest(s.iht, p, n)
    ensures Good(Blanked(s, id, t, n)) && NestedDest(Blanked(s, id, t, n).iht, p, n)
  {
    EnterKeeps(s.mem, s.iht, s.regs, s.links, s.copies, id, t, n);
  }

  lemma HangKeeps(s: State, href: string, p: Addr, len: nat, tt: int, n: nat)
    requires Good(s) && href != "" && href in s.iht && s.iht[href].size == n
    requires Vacant(s.mem, s.regs, p, n) && NestedDest(s.iht, p, n)
    ensures href in s.copies && (n >= PTR ==> Span(s.mem, p, PTR)) && Good(Hang(s, href, p, len, tt, n))
  {
    ForwardEntered(s.mem, s.iht, s.regs, s.links, s.copies, href, p, len, tt, n);
  }

  lemma ForwardEntered(mem: Mem, iht: Table, regs: Regs, links: map<string, seq<Addr>>, copies: map<string, seq<Addr>>,
                       href: string, p: Addr, len: nat, tt: int, n: nat)
    requires Inv(mem, iht, regs, links, copies) && href in iht && iht[href].size == n
    requires Vacant(mem, regs, p, n) && NestedDest(iht, p, n)
    ensures Inv(mem, iht[href := iht[href].(flist := [FList(tt, p, len)] + iht[href].flist)], regs[p := Dest(href, n)], links, copies)
    ensures n >= PTR ==> Inv(Store(mem, p, iht[href].copy), iht[href := iht[href].(copy := p)], regs[p := Dest(href, n)],
                             links, copies[href := [p] + copies[href]])
  {
    ForwardKeeps(mem, iht, regs, links, copies, href, p, tt, len);
    if n >= PTR {
      ForwardCopy(mem, iht, regs, links, copies, href, p);
    }
  }

  lemma EnterStepKeeps(s: State, id: string, p: Addr, t: int, n: nat)
    requires Good(s) && (p != NULL && id != "" ==> Nested(s.mem, s.regs, p, n))
    ensures Good(Enter(s, id, p, t, n))
  {
    if id != "" {
      if id !in s.iht {
        EnterKeeps(s.mem, s.iht, s.regs, s.links, s.copies, id, t, n);
        var iht := s.iht[id := Blank(t, n)];
        DefineKeeps(s.mem, iht, s.regs, s.links[id := []], s.copies[id := []], id, p, n);
        assert iht[id := iht[id].(size := n, ptr := p)] == s.iht[id := Blank(t, n).(ptr := p)];
      } else if !Clash(s.iht[id], t, n) && s.iht[id].ptr == NULL {
        assert EntryOK(s.mem, s.regs, id, s.iht[id], s.links[id], s.copies[id]);
        DefineKeeps(s.mem, s.iht, s.regs, s.links, s.copies, id, p, n);
      }
    }
  }

  // A freshly allocated object contains no registered location.
  lemma FreshNested(mem: Mem, regs: Regs, a: Addr, n: nat, cells: Mem)
    requires Laid(mem, regs) && n > 0 && Fresh(mem, a, n, cells)
    ensures Nested(mem + cells, regs, a, n)
  {
    forall d | d in regs && regs[d].Dest?
      ensures Apart(d, regs[d].size, a, n)
    {
      if !Apart(d, regs[d].size, a, n) {
        assert (if a <= d then d else a) !in cells;
      }
    }
  }

  // A definition whose object soap_id_enter allocates itself.
  lemma EnterFreshKeeps(s: State, id: string, a: Addr, t: int, n: nat, cells: Mem)
    requires Good(s) && n > 0 && Fresh(s.mem, a, n, cells)
    ensures Good(Enter(s.(mem := s.mem + cells), id, a, t, n))
  {
    hide Enter, Nested;
    GrowKeeps(s.mem, cells, s.iht, s.regs, s.links, s.copies);
    FreshNested(s.mem, s.regs, a, n, cells);
    EnterStepKeeps(s.(mem := s.mem + cells), id, a, t, n);
  }

  // ---- resolving ----

  // Every cell of ls now holds r and nothing else changed.
  ghost predicate Wrote(mem: Mem, mem': Mem, ls: seq<Addr>, r: int) {
    && mem'.Keys == mem.Keys
    && (forall a :: a in ls && a in mem ==> mem'[a] == r)
    && (forall x :: x in mem && !Covered(x, ls, PTR) ==> mem'[x] == mem[x])
  }

  ghost predicate Covered(x: Addr, ds: seq<Addr>, n: nat) {
    exists a :: a in ds && a <= x < a + n
  }

  // Every region of ds now holds the n cells found at src and nothing else changed.
  ghost predicate Filled(mem: Mem, mem': Mem, ds: seq<Addr>, src: Addr, n: nat) {
    && mem'.Keys == mem.Keys
    && Span(mem, src, n)
    && (forall a :: a in ds ==> Span(mem', a, n) && Cells(mem', a, n) == Cells(mem, src, n))
    && (forall x :: x in mem && !Covered(x, ds, n) ==> mem'[x] == mem[x])
  }

  lemma WroteKeys(mem: Mem, mem': Mem, ls: seq<Addr>, r: int)
    requires Wrote(mem, mem', ls, r)
    ensures mem'.Keys == mem.Keys
  {
  }

  lemma FilledKeys(mem: Mem, mem': Mem, ds: seq<Addr>, src: Addr, n: nat)
    requires Filled(mem, mem', ds, src, n)
    ensures mem'.Keys == mem.Keys
  {
  }

  lemma NotCovered(mem: Mem, regs: Regs, ds: seq<Addr>, n: nat, a: Addr)
    requires Laid(mem, regs)
    requires forall d :: d in ds ==> d in regs && Size(regs[d]) == n
    requires a in regs && a !in ds
    ensures forall x :: a <= x < a + Size(regs[a]) ==> !Covered(x, ds, n)
  {
  }

  lemma LaidShrink(mem: Mem, mem': Mem, regs: Regs, regs': Regs)
    requires Laid(mem, regs) && mem'.Keys == mem.Keys
    requires forall a :: a in regs' ==> a in regs && regs'[a] == regs[a]
    ensures Laid(mem', regs')
  {
    assert forall x :: x in mem <==> x in mem';
  }

  // Locations `ds`, all of one size n and none of them of entry i, were
  // overwritten and perhaps dropped from the registered ones: entry i is as before.
  lemma OtherEntry(mem: Mem, mem': Mem, regs: Regs, regs': Regs, ds: seq<Addr>, n: nat,
                   i: string, e: IList, ls: seq<Addr>, cs: seq<Addr>)
    requires Laid(mem, regs) && EntryOK(mem, regs, i, e, ls, cs)
    requires forall d :: d in ds ==> d in regs && Size(regs[d]) == n && regs[d].id != i
    requires forall a :: a in regs' ==> a in regs && regs'[a] == regs[a]
    requires forall a :: a in regs && a !in ds ==> a in regs'
    requires mem'.Keys == mem.Keys && forall x :: x in mem && !Covered(x, ds, n) ==> mem'[x] == mem[x]
    ensures EntryOK(mem', regs', i, e, ls, cs)
  {
    forall a | a in ls || a in Pending(e, cs)
      ensures a in mem && a in regs' && mem'[a] == mem[a]
    {
      NotCovered(mem, regs, ds, n, a);
    }
    assert forall a :: a in cs ==> a in Pending(e, cs);
    ChainFrame(mem, mem', e.link, ls);
    ChainFrame(mem, mem', e.copy, cs);
  }

  lemma OtherAccounted(mem: Mem, mem': Mem, regs: Regs, regs': Regs, ds: seq<Addr>, n: nat,
                       a: Addr, e: IList, ls: seq<Addr>, cs: seq<Addr>)
    requires Laid(mem, regs)
    requires forall d :: d in ds ==> d in regs && Size(regs[d]) == n
    requires mem'.Keys == mem.Keys && forall x :: x in mem && !Covered(x, ds, n) ==> mem'[x] == mem[x]
    requires a in regs && a in regs' && regs'[a] == regs[a] && a !in ds && Accounted(mem, regs, a, e, ls, cs)
    ensures Accounted(mem', regs', a, e, ls, cs)
  {
    NotCovered(mem, regs, ds, n, a);
  }

  // The link chain of a defined id has been overwritten with its address.
  lemma LinksResolved(mem: Mem, mem': Mem, iht: Table, regs: Regs, links: map<string, seq<Addr>>, copies: map<string, seq<Addr>>,
                      id: string)
    requires Inv(mem, iht, regs, links, copies)
    requires id in iht && iht[id].ptr != NULL
    requires Wrote(mem, mem', links[id], iht[id].ptr)
    ensures Inv(mem', iht[id := iht[id].(link := NULL)], regs, links[id := []], copies)
  {
    hide Entries, AllAccounted, Laid, Wrote;
    WroteKeys(mem, mem', links[id], iht[id].ptr);
    LaidShrink(mem, mem', regs, regs);
    LinksResolvedEntries(mem, mem', iht, regs, links, copies, id);
    LinksResolvedAll(mem, mem', iht, regs, links, copies, id);
  }

  lemma LinksResolvedEntries(mem: Mem, mem': Mem, iht: Table, regs: Regs, links: map<string, seq<Addr>>,
                             copies: map<string, seq<Addr>>, id: string)
    requires Inv(mem, iht, regs, links, copies)
    requires id in iht && iht[id].ptr != NULL
    requires Wrote(mem, mem', links[id], iht[id].ptr)
    ensures Entries(mem', iht[id := iht[id].(link := NULL)], regs, links[id := []], copies)
  {
    var e, ls, cs := iht[id], links[id], copies[id];
    LinksResolvedEntry(mem, mem', regs, id, e, ls, cs);
    forall i | i in iht && i != id
      ensures EntryOK(mem', regs, i, iht[i], links[i], copies[i])
    {
      OtherEntry(mem, mem', regs, regs, ls, PTR, i, iht[i], links[i], copies[i]);
    }
  }

  lemma LinksResolvedAll(mem: Mem, mem': Mem, iht: Table, regs: Regs, links: map<string, seq<Addr>>,
                         copies: map<string, seq<Addr>>, id: string)
    requires Inv(mem, iht, regs, links, copies)
    requires id in iht && iht[id].ptr != NULL
    requires Wrote(mem, mem', links[id], iht[id].ptr)
    ensures AllAccounted(mem', iht[id := iht[id].(link := NULL)], regs, links[id := []], copies)
  {
    var e, ls, cs := iht[id], links[id], copies[id];
    forall a | a in regs
      ensures regs[a].id == id ==> Accounted(mem', regs, a, e.(link := NULL), [], cs)
      ensures regs[a].id != id ==> Accounted(mem', regs, a, iht[regs[a].id], links[regs[a].id], copies[regs[a].id])
    {
      if regs[a].id == id {
        LinksResolvedAccounted(mem, mem', regs, id, e, ls, cs, a);
      } else {
        OtherAccounted(mem, mem', regs, regs, ls, PTR, a, iht[regs[a].id], links[regs[a].id], copies[regs[a].id]);
      }
    }
  }

  lemma LinksResolvedEntry(mem: Mem, mem': Mem, regs: Regs, id: string, e: IList, ls: seq<Addr>, cs: seq<Addr>)
    requires Laid(mem, regs) && EntryOK(mem, regs, id, e, ls, cs)
    requires Wrote(mem, mem', ls, e.ptr)
    ensures EntryOK(mem', regs, id, e.(link := NULL), [], cs)
  {
    assert Pending(e.(link := NULL), cs) == Pending(e, cs);
    forall a | a in cs
      ensures a in mem && mem'[a] == mem[a]
    {
      assert a in Pending(e, cs);
      NotCovered(mem, regs, ls, PTR, a);
    }
    ChainFrame(mem, mem', e.copy, cs);
  }

  lemma LinksResolvedAccounted(mem: Mem, mem': Mem, regs: Regs, id: string, e: IList, ls: seq<Addr>, cs: seq<Addr>, a: Addr)
    requires Laid(mem, regs) && EntryOK(mem, regs, id, e, ls, cs) && e.ptr != NULL
    requires Wrote(mem, mem', ls, e.ptr)
    requires a in regs && Accounted(mem, regs, a, e, ls, cs)
    ensures Accounted(mem', regs, a, e.(link := NULL), [], cs)
  {
    assert a in mem;
    if a !in ls {
      NotCovered(mem, regs, ls, PTR, a);
    }
  }

  // All waiting copies of a defined id have been filled from its object.
  lemma CopiesResolved(mem: Mem, mem': Mem, iht: Table, regs: Regs, regs': Regs,
                       links: map<string, seq<Addr>>, copies: map<string, seq<Addr>>, id: string)
    requires Inv(mem, iht, regs, links, copies)
    requires id in iht && iht[id].ptr != NULL
    requires Filled(mem, mem', Pending(iht[id], copies[id]), iht[id].ptr, iht[id].size)
    requires regs' == Without(regs, Pending(iht[id], copies[id]))
    ensures Inv(mem', iht[id := iht[id].(copy := NULL, flist := [])], regs', links, copies[id := []])
  {
    hide Entries, AllAccounted, Laid, Filled;
    FilledKeys(mem, mem', Pending(iht[id], copies[id]), iht[id].ptr, iht[id].size);
    LaidShrink(mem, mem', regs, regs');
    CopiesResolvedEntries(mem, mem', iht, regs, regs', links, copies, id);
    CopiesResolvedAll(mem, mem', iht, regs, regs', links, copies, id);
  }

  lemma CopiesResolvedEntries(mem: Mem, mem': Mem, iht: Table, regs: Regs, regs': Regs,
                              links: map<string, seq<Addr>>, copies: map<string, seq<Addr>>, id: string)
    requires Inv(mem, iht, regs, links, copies)
    requires id in iht && iht[id].ptr != NULL
    requires Filled(mem, mem', Pending(iht[id], copies[id]), iht[id].ptr, iht[id].size)
    requires regs' == Without(regs, Pending(iht[id], copies[id]))
    ensures Entries(mem', iht[id := iht[id].(copy := NULL, flist := [])], regs', links, copies[id := []])
  {
    var ds, n := Pending(iht[id], copies[id]), iht[id].size;
    CopiesResolvedEntry(mem, mem', regs, regs', id, iht[id], links[id], copies[id]);
    forall i | i in iht && i != id
      ensures EntryOK(mem', regs', i, iht[i], links[i], copies[i])
    {
      OtherEntry(mem, mem', regs, regs', ds, n, i, iht[i], links[i], copies[i]);
    }
  }

  lemma CopiesResolvedAll(mem: Mem, mem': Mem, iht: Table, regs: Regs, regs': Regs,
                          links: map<string, seq<Addr>>, copies: map<string, seq<Addr>>, id: string)
    requires Inv(mem, iht, regs, links, copies)
    requires id in iht && iht[id].ptr != NULL
    requires Filled(mem, mem', Pending(iht[id], copies[id]), iht[id].ptr, iht[id].size)
    requires regs' == Without(regs, Pending(iht[id], copies[id]))
    ensures AllAccounted(mem', iht[id := iht[id].(copy := NULL, flist := [])], regs', links, copies[id := []])
  {
    var ds, n := Pending(iht[id], copies[id]), iht[id].size;
    forall a | a in regs'
      ensures regs[a].id in iht
      ensures regs[a].id == id ==> regs[a].Ref?
      ensures Accounted(mem', regs', a, iht[regs[a].id], links[regs[a].id], copies[regs[a].id])
    {
      OtherAccounted(mem, mem', regs, regs', ds, n, a, iht[regs[a].id], links[regs[a].id], copies[regs[a].id]);
    }
  }

  lemma CopiesResolvedEntry(mem: Mem, mem': Mem, regs: Regs, regs': Regs, id: string, e: IList, ls: seq<Addr>, cs: seq<Addr>)
    requires Laid(mem, regs) && EntryOK(mem, regs, id, e, ls, cs)
    requires Filled(mem, mem', Pending(e, cs), e.ptr, e.size)
    requires regs' == Without(regs, Pending(e, cs))
    ensures EntryOK(mem', regs', id, e.(copy := NULL, flist := []), ls, [])
  {
    assert Pending(e.(copy := NULL, flist := []), []) == [];
    forall a | a in ls
      ensures a in mem && mem'[a] == mem[a]
    {
      NotCovered(mem, regs, Pending(e, cs), e.size, a);
    }
    ChainFrame(mem, mem', e.link, ls);
  }

  // Two rounds of filling from the same untouched source add up.
  lemma FilledCompose(m0: Mem, m1: Mem, m2: Mem, ds: seq<Addr>, fs: seq<Addr>, src: Addr, n: nat)
    requires Filled(m0, m1, ds, src, n) && Filled(m1, m2, fs, src, n)
    requires forall d :: d in ds ==> Apart(d, n, src, n)
    requires forall d, f :: d in ds && f in fs ==> Apart(d, n, f, n)
    ensures Filled(m0, m2, ds + fs, src, n)
  {
    assert Cells(m1, src, n) == Cells(m0, src, n) by {
      CellsFrame(m0, m1, src, n);
    }
    forall d | d in ds
      ensures Span(m2, d, n) && Cells(m2, d, n) == Cells(m1, d, n)
    {
      assert Span(m1, d, n);
      CellsFrame(m1, m2, d, n);
    }
    forall x | x in m0 && !Covered(x, ds + fs, n)
      ensures m2[x] == m0[x]
    {
      CoveredPart(x, ds, fs, n);
    }
  }

  lemma CoveredPart(x: Addr, ds: seq<Addr>, fs: seq<Addr>, n: nat)
    ensures Covered(x, ds, n) || Covered(x, fs, n) <==> Covered(x, ds + fs, n)
  {
    assert forall a :: a in ds + fs <==> a in ds || a in fs;
  }

  // ---- what has been copied stays a faithful copy ----

  ghost predicate NonePending(regs: Regs, start: Addr, n: nat) {
    forall d :: d in regs && regs[d].Dest? ==> !(start <= d < start + n)
  }

  ghost predicate SameCells(mem: Mem, a: Addr, b: Addr, n: nat) {
    Span(mem, a, n) && Span(mem, b, n) && Cells(mem, a, n) == Cells(mem, b, n)
  }

  // Location a got its copy: it equals the object it was copied from, and no
  // location still waiting lies inside that object.
  ghost predicate Done(mem: Mem, iht: Table, regs: Regs, a: Addr, r: Reg) {
    && r.Dest? && r.id in iht && iht[r.id].ptr != NULL && iht[r.id].size == r.size
    && NonePending(regs, iht[r.id].ptr, r.size)
    && SameCells(mem, a, iht[r.id].ptr, r.size)
  }

  // Everything that was waiting in regs0 and no longer is, is done.
  ghost predicate Settled(mem: Mem, iht: Table, regs0: Regs, regs: Regs) {
    && (forall a :: a in regs ==> a in regs0 && regs[a] == regs0[a])
    && (forall a :: a in regs0 && a !in regs ==> Done(mem, iht, regs, a, regs0[a]))
  }

  ghost predicate SameDefs(iht: Table, iht': Table) {
    iht'.Keys == iht.Keys && forall i :: i in iht ==> iht'[i].ptr == iht[i].ptr && iht'[i].size == iht[i].size
  }

  lemma FlushSettles(mem: Mem, mem': Mem, iht: Table, iht': Table, regs0: Regs, regs: Regs, regs': Regs,
                     links: map<string, seq<Addr>>, copies: map<string, seq<Addr>>, id: string)
    requires Inv(mem, iht, regs, links, copies) && Laid(mem, regs0) && Settled(mem, iht, regs0, regs)
    requires id in iht && iht[id].ptr != NULL && NonePending(regs, iht[id].ptr, iht[id].size)
    requires Filled(mem, mem', Pending(iht[id], copies[id]), iht[id].ptr, iht[id].size)
    requires regs' == Without(regs, Pending(iht[id], copies[id]))
    requires SameDefs(iht, iht')
    ensures Settled(mem', iht', regs0, regs')
  {
    assert NonePending(regs', iht[id].ptr, iht[id].size);
    forall a | a in regs0 && a !in regs'
      ensures Done(mem', iht', regs', a, regs0[a])
    {
      if a in regs {
        NewCopyDone(mem, mem', iht, regs, links, copies, id, a);
      } else {
        OldCopyDone(mem, mem', iht, regs0, regs, links, copies, id, a);
      }
    }
  }

  // A pending location lies apart from every object without pending locations.
  lemma PendingApart(mem: Mem, regs: Regs, start: Addr, n: nat, d: Addr)
    requires Laid(mem, regs) && Nested(mem, regs, start, n) && NonePending(regs, start, n)
    requires d in regs && regs[d].Dest?
    ensures Apart(d, regs[d].size, start, n)
  {
  }

  lemma NewCopyDone(mem: Mem, mem': Mem, iht: Table, regs: Regs,
                    links: map<string, seq<Addr>>, copies: map<string, seq<Addr>>, id: string, a: Addr)
    requires Inv(mem, iht, regs, links, copies)
    requires id in iht && iht[id].ptr != NULL && NonePending(regs, iht[id].ptr, iht[id].size)
    requires Filled(mem, mem', Pending(iht[id], copies[id]), iht[id].ptr, iht[id].size)
    requires a in Pending(iht[id], copies[id])
    ensures a in regs && regs[a] == Dest(id, iht[id].size) && SameCells(mem', a, iht[id].ptr, iht[id].size)
  {
    var ds, ptr, n := Pending(iht[id], copies[id]), iht[id].ptr, iht[id].size;
    assert EntryOK(mem, regs, id, iht[id], links[id], copies[id]);
    KeptCells(mem, mem', regs, ds, n, ptr, n);
  }

  // Filling pending locations leaves alone an object that contains none of them.
  lemma KeptCells(mem: Mem, mem': Mem, regs: Regs, ds: seq<Addr>, n: nat, start: Addr, m: nat)
    requires Laid(mem, regs) && Nested(mem, regs, start, m) && NonePending(regs, start, m)
    requires forall d :: d in ds ==> d in regs && regs[d].Dest? && regs[d].size == n
    requires mem'.Keys == mem.Keys && forall x :: x in mem && !Covered(x, ds, n) ==> mem'[x] == mem[x]
    ensures Span(mem', start, m) && Cells(mem', start, m) == Cells(mem, start, m)
  {
    forall d | d in ds
      ensures Apart(d, n, start, m)
    {
      PendingApart(mem, regs, start, m, d);
    }
    assert forall x :: start <= x < start + m ==> !Covered(x, ds, n);
    assert Span(mem', start, m);
    CellsFrame(mem, mem', start, m);
  }

  lemma OldCopyDone(mem: Mem, mem': Mem, iht: Table, regs0: Regs, regs: Regs,
                    links: map<string, seq<Addr>>, copies: map<string, seq<Addr>>, id: string, a: Addr)
    requires Inv(mem, iht, regs, links, copies) && Laid(mem, regs0) && Settled(mem, iht, regs0, regs)
    requires id in iht && iht[id].ptr != NULL
    requires Filled(mem, mem', Pending(iht[id], copies[id]), iht[id].ptr, iht[id].size)
    requires a in regs0 && a !in regs
    ensures Done(mem, iht, regs, a, regs0[a])
    ensures SameCells(mem', a, iht[regs0[a].id].ptr, regs0[a].size)
  {
    var ds, n := Pending(iht[id], copies[id]), iht[id].size;
    assert EntryOK(mem, regs, id, iht[id], links[id], copies[id]);
    assert Done(mem, iht, regs, a, regs0[a]);
    var i := regs0[a].id;
    assert EntryOK(mem, regs, i, iht[i], links[i], copies[i]);
    KeptCells(mem, mem', regs, ds, n, iht[i].ptr, regs0[a].size);
    NotCovered(mem, regs0, ds, n, a);
    assert Span(mem', a, regs0[a].size);
    CellsFrame(mem, mem', a, regs0[a].size);
  }

  // ---- when every copy can be made ----

  // Some location waiting for a copy of `inner` lies inside the object `outer`.
  ghost predicate Contains(iht: Table, regs: Regs, outer: string, inner: string) {
    && outer in iht && iht[outer].ptr != NULL
    && exists d :: d in regs && regs[d].Dest? && regs[d].id == inner
                   && iht[outer].ptr <= d < iht[outer].ptr + iht[outer].size
  }

  ghost predicate Ranked(iht: Table, regs: Regs, rank: map<string, nat>) {
    forall outer, inner :: Contains(iht, regs, outer, inner) ==>
                             outer in rank && inner in rank && rank[inner] < rank[outer]
  }

  // By-value containment has no cycle.
  ghost predicate Acyclic(iht: Table, regs: Regs) {
    exists rank :: Ranked(iht, regs, rank)
  }

  // Every step along the path goes from an object to one it must receive a copy of.
  ghost predicate Path(iht: Table, regs: Regs, p: seq<string>) {
    forall i :: 0 < i < |p| ==> Contains(iht, regs, p[i - 1], p[i])
  }

  // An acyclic containment has no path that returns to where it started.
  lemma AcyclicHasNoCycle(iht: Table, regs: Regs, p: seq<string>)
    requires Acyclic(iht, regs) && |p| > 1 && Path(iht, regs, p)
    ensures p[0] != p[|p| - 1]
  {
    var rank :| Ranked(iht, regs, rank);
    var i := 1;
    assert Contains(iht, regs, p[0], p[1]);
    while i < |p| - 1
      invariant 1 <= i < |p|
      invariant p[0] in rank && p[i] in rank && rank[p[i]] < rank[p[0]]
    {
      i := i + 1;
    }
  }

  // No further round can copy anything: each defined object something still
  // waits for contains a waiting location itself.
  ghost predicate Stuck(iht: Table, regs: Regs) {
    forall d :: d in regs && regs[d].Dest? && Def(iht, regs[d].id) != NULL ==>
                  !NonePending(regs, Def(iht, regs[d].id), iht[regs[d].id].size)
  }

  lemma {:induction false} NothingStuck(iht: Table, regs0: Regs, regs: Regs, rank: map<string, nat>, d: Addr)
    requires Ranked(iht, regs0, rank) && Stuck(iht, regs)
    requires forall a :: a in regs ==> a in regs0 && regs[a] == regs0[a]
    requires forall a :: a in regs0 && regs0[a].Dest? ==> Def(iht, regs0[a].id) != NULL
    requires d in regs && regs[d].Dest?
    ensures false
    decreases if regs[d].id in rank then rank[regs[d].id] + 1 else 0
  {
    var e := iht[regs[d].id];
    var d' :| d' in regs && regs[d'].Dest? && e.ptr <= d' < e.ptr + e.size;
    assert Contains(iht, regs0, regs[d].id, regs[d'].id);
    NothingStuck(iht, regs0, regs, rank, d');
  }

  // ---- the rounds of the copy phase ----

  // Ranks given so far: the ids whose waiting locations have all been filled,
  // numbered in the order in which that happened.
  ghost predicate RankSoFar(iht: Table, regs0: Regs, regs: Regs, rank: map<string, nat>, t: nat) {
    && (forall d :: d in regs0 && regs0[d].Dest? && d !in regs ==> regs0[d].id in rank)
    && (forall d :: d in regs && regs[d].Dest? ==> regs[d].id !in rank)
    && (forall i :: i in rank ==> rank[i] < t)
    && (forall i, d :: i in rank && d in regs0 && regs0[d].Dest? && i in iht && iht[i].ptr <= d < iht[i].ptr + iht[i].size ==>
                         regs0[d].id in rank && rank[regs0[d].id] < rank[i])
  }

  // What the copy phase keeps, measured against the state s0 it started from.
  ghost predicate Progress(s0: State, s: State, rank: map<string, nat>, t: nat) {
    && Good(s) && Laid(s.mem, s0.regs) && Settled(s.mem, s.iht, s0.regs, s.regs)
    && SameDefs(s0.iht, s.iht) && s.links == s0.links && s.error == s0.error && s.badId == s0.badId
    && OnlyRegs(s0.mem, s.mem, s0.regs)
    && RankSoFar(s.iht, s0.regs, s.regs, rank, t)
  }

  // Memory outside the registered locations is as it was.
  ghost predicate OnlyRegs(m: Mem, m': Mem, regs: Regs) {
    && m'.Keys == m.Keys
    && forall x :: x in m && (forall a :: a in regs ==> !(a <= x < a + Size(regs[a]))) ==> m'[x] == m[x]
  }

  lemma OnlyRegsTrans(m0: Mem, m1: Mem, m2: Mem, regs: Regs)
    requires OnlyRegs(m0, m1, regs) && OnlyRegs(m1, m2, regs)
    ensures OnlyRegs(m0, m2, regs)
  {
  }

  lemma OnlyRegsCovered(m: Mem, m': Mem, regs: Regs, ds: seq<Addr>, n: nat)
    requires m'.Keys == m.Keys && forall x :: x in m && !Covered(x, ds, n) ==> m'[x] == m[x]
    requires forall d :: d in ds ==> d in regs && Size(regs[d]) == n
    ensures OnlyRegs(m, m', regs)
  {
    forall x | x in m && (forall a :: a in regs ==> !(a <= x < a + Size(regs[a])))
      ensures !Covered(x, ds, n)
    {
      assert forall d :: d in ds ==> d in regs;
    }
  }

  lemma ProgressStart(s: State)
    requires Good(s)
    ensures Progress(s, s, map[], 0)
  {
  }

  // One flush: the source contained nothing that still waited.
  lemma ProgressFlush(s0: State, s: State, s': State, rank: map<string, nat>, t: nat, id: string)
    requires Progress(s0, s, rank, t)
    requires id in s.iht && s.iht[id].ptr != NULL && NonePending(s.regs, s.iht[id].ptr, s.iht[id].size)
    requires id in s.copies && Pending(s.iht[id], s.copies[id]) != []
    requires Filled(s.mem, s'.mem, Pending(s.iht[id], s.copies[id]), s.iht[id].ptr, s.iht[id].size)
    requires s'.iht == s.iht[id := s.iht[id].(copy := NULL, flist := [])] && s'.links == s.links
    requires s'.error == s.error && s'.badId == s.badId
    requires s'.regs == Without(s.regs, Pending(s.iht[id], s.copies[id])) && Good(s')
    ensures Progress(s0, s', rank[id := t], t + 1)
    ensures |s'.regs| < |s.regs|
  {
    hide Inv, Laid, RankSoFar, OnlyRegs;
    var ds := Pending(s.iht[id], s.copies[id]);
    assert SameDefs(s.iht, s'.iht);
    PendingOf(s, id);
    FlushSettles(s.mem, s'.mem, s.iht, s'.iht, s0.regs, s.regs, s'.regs, s.links, s.copies, id);
    LaidShrink(s.mem, s'.mem, s0.regs, s0.regs);
    OnlyRegsCovered(s.mem, s'.mem, s0.regs, ds, s.iht[id].size);
    OnlyRegsTrans(s0.mem, s.mem, s'.mem, s0.regs);
    RankFlush(s.iht, s'.iht, s0.regs, s.regs, s'.regs, rank, t, id, ds);
    assert ds[0] in ds;
    FewerRegs(s.regs, s'.regs, ds[0]);
  }

  lemma PendingOf(s: State, id: string)
    requires Good(s) && id in s.iht
    ensures id in s.copies
    ensures forall a :: a in Pending(s.iht[id], s.copies[id]) <==> a in s.regs && s.regs[a].Dest? && s.regs[a].id == id
    ensures forall a :: a in Pending(s.iht[id], s.copies[id]) ==> s.regs[a] == Dest(id, s.iht[id].size)
  {
    assert EntryOK(s.mem, s.regs, id, s.iht[id], s.links[id], s.copies[id]);
    forall a | a in s.regs && s.regs[a].Dest? && s.regs[a].id == id
      ensures a in Pending(s.iht[id], s.copies[id])
    {
      assert Accounted(s.mem, s.regs, a, s.iht[id], s.links[id], s.copies[id]);
    }
  }

  lemma RankFlush(iht: Table, iht': Table, regs0: Regs, regs: Regs, regs': Regs, rank: map<string, nat>, t: nat,
                  id: string, ds: seq<Addr>)
    requires RankSoFar(iht, regs0, regs, rank, t) && SameDefs(iht, iht')
    requires forall a :: a in regs ==> a in regs0 && regs[a] == regs0[a]
    requires id in iht && NonePending(regs, iht[id].ptr, iht[id].size)
    requires ds != [] && forall a :: a in ds <==> a in regs && regs[a].Dest? && regs[a].id == id
    requires regs' == Without(regs, ds)
    ensures RankSoFar(iht', regs0, regs', rank[id := t], t + 1)
  {
    assert ds[0] in ds;
    assert id !in rank;
  }

  lemma FewerRegs(regs: Regs, regs': Regs, d: Addr)
    requires forall a :: a in regs' ==> a in regs
    requires d in regs && d !in regs'
    ensures |regs'| < |regs|
  {
    var ks, ks' := regs.Keys, regs'.Keys;
    assert ks' <= ks - {d};
    SubsetSize(ks', ks - {d});
  }

  lemma {:induction false} SubsetSize<T>(a: set<T>, b: set<T>)
    requires a <= b
    ensures |a| <= |b|
  {
    if a != {} {
      var x :| x in a;
      SubsetSize(a - {x}, b - {x});
    }
  }

  // When nothing waits any more, the ranks given show that containment was acyclic.
  lemma RanksDone(s0: State, s: State, rank: map<string, nat>, t: nat)
    requires Progress(s0, s, rank, t)
    requires forall a :: a in s.regs ==> s.regs[a].Ref?
    ensures Acyclic(s0.iht, s0.regs)
    ensures forall a :: a in s0.regs && s0.regs[a].Dest? ==> Def(s0.iht, s0.regs[a].id) != NULL
  {
    hide Inv, Laid, OnlyRegs, SameCells, NonePending;
    var full := map i | i in s0.iht :: if i in rank then rank[i] else t;
    forall outer, inner | Contains(s0.iht, s0.regs, outer, inner)
      ensures outer in full && inner in full && full[inner] < full[outer]
    {
      var d :| d in s0.regs && s0.regs[d].Dest? && s0.regs[d].id == inner
               && s0.iht[outer].ptr <= d < s0.iht[outer].ptr + s0.iht[outer].size;
      assert Done(s.mem, s.iht, s.regs, d, s0.regs[d]);
    }
    assert Ranked(s0.iht, s0.regs, full);
    forall a | a in s0.regs && s0.regs[a].Dest?
      ensures Def(s0.iht, s0.regs[a].id) != NULL
    {
      assert Done(s.mem, s.iht, s.regs, a, s0.regs[a]);
    }
  }

  // When no round can copy any more, an acyclic containment of defined objects
  // leaves nothing waiting.
  lemma StuckDone(s0: State, s: State, rank: map<string, nat>, t: nat)
    requires Progress(s0, s, rank, t) && Stuck(s.iht, s.regs)
    requires Acyclic(s0.iht, s0.regs)
    requires forall a :: a in s0.regs && s0.regs[a].Dest? ==> Def(s0.iht, s0.regs[a].id) != NULL
    ensures forall a :: a in s.regs ==> s.regs[a].Ref?
  {
    hide Inv, Laid, OnlyRegs, Stuck;
    var full :| Ranked(s0.iht, s0.regs, full);
    assert Ranked(s.iht, s0.regs, full) by {
      assert forall outer, inner :: Contains(s.iht, s0.regs, outer, inner) ==> Contains(s0.iht, s0.regs, outer, inner);
    }
    if d :| d in s.regs && s.regs[d].Dest? {
      NothingStuck(s.iht, s0.regs, s.regs, full, d);
    }
  }
}
