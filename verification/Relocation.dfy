/** Moving one region of memory while the id/href chains run through it:
    what soap_update_pointers followed by memcpy does to the whole table. */
module Relocation {
  import opened Memory
  import opened IdRef

  // The n cells at q move to s.
  datatype Move = Move(q: Addr, n: nat, s: Addr)

  function Shift(mv: Move, x: int): (y: int)
    ensures x >= 0 ==> y >= 0
  {
    if mv.q <= x < mv.q + mv.n then x - mv.q + mv.s else x
  }

  function ShiftSeq(mv: Move, ls: seq<Addr>): (r: seq<Addr>)
    ensures |r| == |ls| && forall i :: 0 <= i < |ls| ==> r[i] == Shift(mv, ls[i])
  {
    seq(|ls|, i requires 0 <= i < |ls| => Shift(mv, ls[i]))
  }

  function ShiftList(mv: Move, fl: seq<FList>): (r: seq<FList>)
    ensures |r| == |fl| && forall i :: 0 <= i < |fl| ==> r[i] == fl[i].(ptr := Shift(mv, fl[i].ptr))
  {
    seq(|fl|, i requires 0 <= i < |fl| => fl[i].(ptr := Shift(mv, fl[i].ptr)))
  }

  function ShiftEntry(mv: Move, e: IList): IList {
    e.(link := Shift(mv, e.link), copy := Shift(mv, e.copy), flist := ShiftList(mv, e.flist), ptr := Shift(mv, e.ptr))
  }

  function ShiftTable(mv: Move, iht: Table): Table {
    map id | id in iht :: ShiftEntry(mv, iht[id])
  }

  function ShiftChains(mv: Move, chains: map<string, seq<Addr>>): map<string, seq<Addr>> {
    map id | id in chains :: ShiftSeq(mv, chains[id])
  }

  // Where a location now at x came from.
  function Back(mv: Move, x: int): (y: int)
    ensures x >= 0 ==> y >= 0
  {
    if mv.s <= x < mv.s + mv.n then x - mv.s + mv.q else x
  }

  function ShiftRegs(mv: Move, regs: Regs): Regs {
    map x | x in (set a | a in regs :: Shift(mv, a) as Addr) && Back(mv, x) in regs :: regs[Back(mv, x)]
  }

  // A region lies wholly inside or outside the cells that move, and outside the
  // place they move to.
  ghost predicate Movable(mv: Move, a: Addr, m: nat) {
    && (Inside(a, m, mv.q, mv.n) || Apart(a, m, mv.q, mv.n))
    && Apart(a, m, mv.s, mv.n)
  }

  ghost predicate MoveOK(mem: Mem, iht: Table, regs: Regs, mv: Move) {
    && mv.q != NULL && mv.s != NULL
    && Span(mem, mv.q, mv.n) && Span(mem, mv.s, mv.n) && Apart(mv.q, mv.n, mv.s, mv.n)
    && (forall a :: a in regs ==> Movable(mv, a, Size(regs[a])))
    && (forall id :: id in iht && iht[id].ptr != NULL ==> iht[id].size > 0 && Movable(mv, iht[id].ptr, iht[id].size))
  }

  // ---- geometry ----

  lemma ShiftRegion(mv: Move, a: Addr, m: nat)
    requires m > 0 && Movable(mv, a, m)
    ensures Back(mv, Shift(mv, a)) == a
    ensures if mv.q <= a < mv.q + mv.n then Inside(Shift(mv, a), m, mv.s, mv.n) else Shift(mv, a) == a
    ensures forall x :: a <= x < a + m ==> Shift(mv, x) == Shift(mv, a) + (x - a)
  {
  }

  lemma ShiftApart(mv: Move, a: Addr, m: nat, b: Addr, k: nat)
    requires m > 0 && k > 0 && Movable(mv, a, m) && Movable(mv, b, k)
    ensures Apart(a, m, b, k) ==> Apart(Shift(mv, a), m, Shift(mv, b), k)
    ensures Inside(a, m, b, k) ==> Inside(Shift(mv, a), m, Shift(mv, b), k)
  {
  }

  lemma ShiftOneNested(mv: Move, a: Addr, m: nat, b: Addr, k: nat)
    requires m > 0 && k > 0 && Movable(mv, a, m) && Movable(mv, b, k)
    requires Inside(a, m, b, k) || Apart(a, m, b, k)
    ensures Inside(Shift(mv, a), m, Shift(mv, b), k) || Apart(Shift(mv, a), m, Shift(mv, b), k)
  {
    ShiftApart(mv, a, m, b, k);
  }

  lemma ShiftRegsAt(mv: Move, regs: Regs)
    requires forall a :: a in regs ==> Size(regs[a]) > 0 && Movable(mv, a, Size(regs[a]))
    ensures forall a :: a in regs ==> Shift(mv, a) in ShiftRegs(mv, regs) && ShiftRegs(mv, regs)[Shift(mv, a)] == regs[a]
    ensures forall x :: x in ShiftRegs(mv, regs) ==> Back(mv, x) in regs && Shift(mv, Back(mv, x)) == x
                                                     && ShiftRegs(mv, regs)[x] == regs[Back(mv, x)]
    ensures forall a, b :: a in regs && b in regs && Shift(mv, a) == Shift(mv, b) ==> a == b
  {
    forall a | a in regs
      ensures Back(mv, Shift(mv, a)) == a
    {
      ShiftRegion(mv, a, Size(regs[a]));
    }
  }

  lemma ShiftDistinct(mv: Move, regs: Regs, ls: seq<Addr>)
    requires forall a, b :: a in regs && b in regs && Shift(mv, a) == Shift(mv, b) ==> a == b
    requires Distinct(ls) && forall a :: a in ls ==> a in regs
    ensures Distinct(ShiftSeq(mv, ls))
  {
    forall i, j | 0 <= i < j < |ls|
      ensures ShiftSeq(mv, ls)[i] != ShiftSeq(mv, ls)[j]
    {
      assert ls[i] in ls && ls[j] in ls;
    }
  }

  lemma ShiftPending(mv: Move, e: IList, cs: seq<Addr>)
    ensures Pending(ShiftEntry(mv, e), ShiftSeq(mv, cs)) == ShiftSeq(mv, Pending(e, cs))
  {
  }

  lemma ShiftIn(mv: Move, ls: seq<Addr>)
    ensures forall a :: a in ls ==> Shift(mv, a) in ShiftSeq(mv, ls)
    ensures forall x :: x in ShiftSeq(mv, ls) ==> exists a :: a in ls && Shift(mv, a) == x
  {
    forall a | a in ls
      ensures Shift(mv, a) in ShiftSeq(mv, ls)
    {
      var i :| 0 <= i < |ls| && ls[i] == a;
      assert ShiftSeq(mv, ls)[i] == Shift(mv, a);
    }
    forall x | x in ShiftSeq(mv, ls)
      ensures exists a :: a in ls && Shift(mv, a) == x
    {
      var i :| 0 <= i < |ls| && ShiftSeq(mv, ls)[i] == x;
      assert ls[i] in ls;
    }
  }

  // ---- the chains after the move ----

  // Every chain cell now lies at its new place and points to the new place of
  // the next one.
  lemma {:induction false} ChainMoved(mem: Mem, mem': Mem, mv: Move, head: int, ls: seq<Addr>)
    requires Chain(mem, head, ls) && mv.q != NULL && mv.s != NULL
    requires forall a :: a in ls && a in mem ==> Shift(mv, a) in mem' && mem'[Shift(mv, a)] == Shift(mv, mem[a])
    ensures Chain(mem', Shift(mv, head), ShiftSeq(mv, ls))
    decreases |ls|
  {
    if ls != [] {
      assert ls[0] in ls;
      ChainMoved(mem, mem', mv, mem[head], ls[1..]);
      assert ShiftSeq(mv, ls)[1..] == ShiftSeq(mv, ls[1..]);
    }
  }

  // The pointer cells ds that pointed into the moving cells point to the new place.
  ghost predicate Rethreaded(mem: Mem, mem': Mem, mv: Move, ds: seq<Addr>) {
    && mem'.Keys == mem.Keys
    && (forall a :: a in ds && a in mem ==> mem'[a] == Shift(mv, mem[a]))
    && (forall x :: x in mem && !Covered(x, ds, PTR) ==> mem'[x] == mem[x])
  }

  // Moreover the cells themselves have been copied there.
  ghost predicate Moved(mem: Mem, mem': Mem, mv: Move, ds: seq<Addr>) {
    && mem'.Keys == mem.Keys
    && (forall a :: a in ds && a in mem ==> Shift(mv, a) in mem' && mem'[Shift(mv, a)] == Shift(mv, mem[a]))
    && (forall x :: x in mem && !(mv.s <= x < mv.s + mv.n) && !Covered(x, ds, PTR) ==>
                      Shift(mv, x) in mem' && mem'[Shift(mv, x)] == mem[x])
  }

  lemma CellsAt(mem: Mem, a: Addr, n: nat, mem': Mem, b: Addr)
    requires Span(mem, a, n) && Span(mem', b, n) && Cells(mem, a, n) == Cells(mem', b, n)
    ensures forall x :: a <= x < a + n ==> mem[x] == mem'[x - a + b]
  {
    forall x | a <= x < a + n
      ensures mem[x] == mem'[x - a + b]
    {
      assert Cells(mem, a, n)[x - a] == Cells(mem', b, n)[x - a];
    }
  }

  lemma RethreadThenCopy(mem: Mem, mem1: Mem, mv: Move, ds: seq<Addr>)
    requires Rethreaded(mem, mem1, mv, ds)
    requires Span(mem, mv.q, mv.n) && Span(mem, mv.s, mv.n) && Apart(mv.q, mv.n, mv.s, mv.n)
    requires forall a :: a in ds ==> Apart(a, PTR, mv.s, mv.n)
    ensures Span(mem1, mv.q, mv.n) && Span(mem1, mv.s, mv.n) && Apart(mv.s, mv.n, mv.q, mv.n)
    ensures Moved(mem, Memcpy(mem1, mv.s, mv.q, mv.n), mv, ds)
  {
    hide Shift, Memcpy, Cells;
    var mem2 := Memcpy(mem1, mv.s, mv.q, mv.n);
    CellsAt(mem1, mv.q, mv.n, mem2, mv.s);
    forall x | x in mem && !(mv.s <= x < mv.s + mv.n)
      ensures Shift(mv, x) in mem2 && mem2[Shift(mv, x)] == mem1[x]
    {
      CopiedCell(mem1, mem2, mv, x);
    }
    forall a | a in ds && a in mem
      ensures !(mv.s <= a < mv.s + mv.n)
    {
    }
  }

  lemma CopiedCell(mem1: Mem, mem2: Mem, mv: Move, x: Addr)
    requires Span(mem1, mv.q, mv.n) && mem2.Keys == mem1.Keys && Span(mem2, mv.s, mv.n)
    requires forall y :: mv.q <= y < mv.q + mv.n ==> mem1[y] == mem2[y - mv.q + mv.s]
    requires forall y :: y in mem1 && !(mv.s <= y < mv.s + mv.n) ==> mem2[y] == mem1[y]
    requires x in mem1 && !(mv.s <= x < mv.s + mv.n)
    ensures Shift(mv, x) in mem2 && mem2[Shift(mv, x)] == mem1[x]
  {
  }

  // ---- the table after the move ----

  // Everything the table promises except that cells already filled hold the
  // address of their object.
  ghost predicate Threads(s: State) {
    && s.links.Keys == s.iht.Keys && s.copies.Keys == s.iht.Keys && "" !in s.iht
    && Laid(s.mem, s.regs) && Entries(s.mem, s.iht, s.regs, s.links, s.copies)
    && forall a :: a in s.regs ==> Owned(s, a)
  }

  ghost predicate Owned(s: State, a: Addr)
    requires a in s.regs && s.links.Keys == s.iht.Keys && s.copies.Keys == s.iht.Keys
  {
    var id := s.regs[a].id;
    id in s.iht && if s.regs[a].Ref? then a in s.links[id] || s.iht[id].ptr != NULL else a in Pending(s.iht[id], s.copies[id])
  }

  // a is a pointer cell that was filled when it was met.
  ghost predicate Direct(s: State, a: Addr) {
    a in s.regs && s.regs[a].Ref? && s.regs[a].id in s.iht && s.regs[a].id in s.links && a !in s.links[s.regs[a].id]
  }

  // The address of the object that the pointer cell a refers to.
  ghost function Target(s: State, a: Addr): Addr {
    if a in s.regs then Def(s.iht, s.regs[a].id) else NULL
  }

  // Cells already filled hold the address of their object.
  ghost predicate FilledHold(s: State) {
    forall a :: Direct(s, a) ==> a in s.mem && s.mem[a] == Target(s, a)
  }

  lemma GoodIs(s: State)
    ensures Good(s) <==> Threads(s) && FilledHold(s)
  {
    if Good(s) {
      forall a | a in s.regs
        ensures Owned(s, a)
      {
        assert Accounted(s.mem, s.regs, a, s.iht[s.regs[a].id], s.links[s.regs[a].id], s.copies[s.regs[a].id]);
      }
      assert Laid(s.mem, s.regs);
    }
    if Threads(s) && FilledHold(s) {
      forall a | a in s.regs
        ensures s.regs[a].id in s.iht
                && Accounted(s.mem, s.regs, a, s.iht[s.regs[a].id], s.links[s.regs[a].id], s.copies[s.regs[a].id])
      {
        assert Owned(s, a);
      }
    }
  }

  // ds lists exactly the cells on the link and copy chains.
  ghost predicate AllChained(s: State, ds: seq<Addr>)
    requires s.links.Keys == s.iht.Keys && s.copies.Keys == s.iht.Keys
  {
    && (forall id, a :: id in s.iht && (a in s.links[id] || a in s.copies[id]) ==> a in ds)
    && (forall a :: a in ds ==> a in s.regs && s.regs[a].id in s.iht && Size(s.regs[a]) >= PTR
                                && if s.regs[a].Ref? then a in s.links[s.regs[a].id] else a in s.copies[s.regs[a].id])
  }

  ghost function ShiftState(s: State, mv: Move, mem: Mem): State {
    s.(mem := mem, iht := ShiftTable(mv, s.iht), regs := ShiftRegs(mv, s.regs),
       links := ShiftChains(mv, s.links), copies := ShiftChains(mv, s.copies))
  }

  // The registered location that comes to lie at x.
  lemma Origin(mem: Mem, mem': Mem, regs: Regs, mv: Move, x: Addr) returns (a: Addr)
    requires Laid(mem, regs) && mem'.Keys == mem.Keys && mv.s != NULL && Span(mem, mv.s, mv.n)
    requires (forall a :: a in regs ==> Movable(mv, a, Size(regs[a]))) && x in ShiftRegs(mv, regs)
    ensures a in regs && Shift(mv, a) == x && ShiftRegs(mv, regs)[x] == regs[a]
    ensures x != NULL && Size(regs[a]) > 0 && Span(mem', x, Size(regs[a])) && Movable(mv, a, Size(regs[a]))
  {
    ShiftRegsAt(mv, regs);
    a := Back(mv, x);
    hide ShiftRegs;
    ShiftRegion(mv, a, Size(regs[a]));
    assert Span(mem, a, Size(regs[a]));
  }

  lemma LaidMoved(mem: Mem, mem': Mem, regs: Regs, mv: Move)
    requires Laid(mem, regs) && mem'.Keys == mem.Keys && mv.s != NULL
    requires Span(mem, mv.s, mv.n) && forall a :: a in regs ==> Movable(mv, a, Size(regs[a]))
    ensures Laid(mem', ShiftRegs(mv, regs))
  {
    hide Span, Apart, Movable, Shift, ShiftRegs;
    var regs' := ShiftRegs(mv, regs);
    forall x | x in regs'
      ensures x != NULL && Size(regs'[x]) > 0 && Span(mem', x, Size(regs'[x]))
    {
      var _ := Origin(mem, mem', regs, mv, x);
    }
    forall x, y | x in regs' && y in regs' && x != y
      ensures Apart(x, Size(regs'[x]), y, Size(regs'[y]))
    {
      var a := Origin(mem, mem', regs, mv, x);
      var b := Origin(mem, mem', regs, mv, y);
      ShiftApart(mv, a, Size(regs[a]), b, Size(regs[b]));
    }
  }

  lemma SpanMoved(mem: Mem, mem': Mem, mv: Move, ptr: Addr, size: nat)
    requires Span(mem, ptr, size) && mem'.Keys == mem.Keys
    requires size > 0 && Movable(mv, ptr, size) && Span(mem, mv.s, mv.n)
    ensures Span(mem', Shift(mv, ptr), size)
  {
    ShiftRegion(mv, ptr, size);
  }

  lemma NestedMoved(mem: Mem, mem': Mem, regs: Regs, mv: Move, ptr: Addr, size: nat)
    requires Nested(mem, regs, ptr, size) && mem'.Keys == mem.Keys
    requires size > 0 && Movable(mv, ptr, size) && Span(mem, mv.s, mv.n)
    requires forall a :: a in regs ==> Size(regs[a]) > 0 && Movable(mv, a, Size(regs[a]))
    ensures Nested(mem', ShiftRegs(mv, regs), Shift(mv, ptr), size)
  {
    var regs' := ShiftRegs(mv, regs);
    SpanMoved(mem, mem', mv, ptr, size);
    hide Span, Inside, Apart;
    ShiftRegsAt(mv, regs);
    forall x | x in regs' && regs'[x].Dest?
      ensures Inside(x, regs'[x].size, Shift(mv, ptr), size) || Apart(x, regs'[x].size, Shift(mv, ptr), size)
    {
      var a := Back(mv, x);
      assert Shift(mv, a) == x && regs[a] == regs'[x];
      ShiftOneNested(mv, a, regs[a].size, ptr, size);
    }
  }

  lemma EntryMoved(s: State, mem': Mem, mv: Move, ds: seq<Addr>, id: string)
    requires Threads(s) && MoveOK(s.mem, s.iht, s.regs, mv) && AllChained(s, ds) && Moved(s.mem, mem', mv, ds)
    requires id in s.iht
    ensures EntryOK(mem', ShiftRegs(mv, s.regs), id, ShiftEntry(mv, s.iht[id]), ShiftSeq(mv, s.links[id]), ShiftSeq(mv, s.copies[id]))
  {
    var e, ls, cs, regs' := s.iht[id], s.links[id], s.copies[id], ShiftRegs(mv, s.regs);
    assert EntryOK(s.mem, s.regs, id, e, ls, cs);
    ShiftRegsAt(mv, s.regs);
    ChainMoved(s.mem, mem', mv, e.link, ls);
    ChainMoved(s.mem, mem', mv, e.copy, cs);
    MembersMoved(s.regs, mv, ls, Ref(id));
    ShiftPending(mv, e, cs);
    MembersMoved(s.regs, mv, Pending(e, cs), Dest(id, e.size));
    if e.ptr != NULL {
      NestedMoved(s.mem, mem', s.regs, mv, e.ptr, e.size);
    }
  }

  lemma MembersMoved(regs: Regs, mv: Move, ls: seq<Addr>, r: Reg)
    requires forall a :: a in regs ==> Size(regs[a]) > 0 && Movable(mv, a, Size(regs[a]))
    requires Distinct(ls) && forall a :: a in ls ==> a in regs && regs[a] == r
    ensures Distinct(ShiftSeq(mv, ls))
    ensures forall x :: x in ShiftSeq(mv, ls) ==> x in ShiftRegs(mv, regs) && ShiftRegs(mv, regs)[x] == r
  {
    ShiftRegsAt(mv, regs);
    ShiftDistinct(mv, regs, ls);
    ShiftIn(mv, ls);
  }

  lemma OwnedMoved(s: State, mem': Mem, mv: Move, x: Addr)
    requires Threads(s) && MoveOK(s.mem, s.iht, s.regs, mv) && x in ShiftRegs(mv, s.regs)
    ensures Owned(ShiftState(s, mv, mem'), x)
  {
    ShiftRegsAt(mv, s.regs);
    var a := Back(mv, x);
    assert Owned(s, a);
    var id := s.regs[a].id;
    ShiftIn(mv, s.links[id]);
    ShiftPending(mv, s.iht[id], s.copies[id]);
    ShiftIn(mv, Pending(s.iht[id], s.copies[id]));
  }

  // The whole id/href structure survives the move: every chain visits the new
  // places of the same cells in the same order.
  lemma ThreadsMoved(s: State, mem': Mem, mv: Move, ds: seq<Addr>)
    requires Threads(s) && MoveOK(s.mem, s.iht, s.regs, mv) && AllChained(s, ds) && Moved(s.mem, mem', mv, ds)
    ensures Threads(ShiftState(s, mv, mem'))
  {
    hide EntryOK, Owned, Laid, AllChained, Entries, MoveOK, Moved;
    var s' := ShiftState(s, mv, mem');
    StateLaid(s, mem', mv, ds);
    EntriesMoved(s, mem', mv, ds);
    forall x | x in s'.regs
      ensures Owned(s', x)
    {
      OwnedMoved(s, mem', mv, x);
    }
  }

  lemma StateLaid(s: State, mem': Mem, mv: Move, ds: seq<Addr>)
    requires Threads(s) && MoveOK(s.mem, s.iht, s.regs, mv) && AllChained(s, ds) && Moved(s.mem, mem', mv, ds)
    ensures Laid(mem', ShiftRegs(mv, s.regs))
  {
    hide Laid, AllChained, Entries, Owned;
    LaidMoved(s.mem, mem', s.regs, mv);
  }

  lemma EntriesMoved(s: State, mem': Mem, mv: Move, ds: seq<Addr>)
    requires Threads(s) && MoveOK(s.mem, s.iht, s.regs, mv) && AllChained(s, ds) && Moved(s.mem, mem', mv, ds)
    ensures Entries(mem', ShiftTable(mv, s.iht), ShiftRegs(mv, s.regs), ShiftChains(mv, s.links), ShiftChains(mv, s.copies))
  {
    hide EntryOK, Threads, MoveOK, AllChained, Moved;
    var s' := ShiftState(s, mv, mem');
    assert s.links.Keys == s.iht.Keys && s.copies.Keys == s.iht.Keys by {
      ThreadsKeys(s);
    }
    forall id | id in s'.iht
      ensures EntryOK(mem', s'.regs, id, s'.iht[id], s'.links[id], s'.copies[id])
    {
      EntryMoved(s, mem', mv, ds, id);
    }
  }

  lemma ThreadsKeys(s: State)
    requires Threads(s)
    ensures s.links.Keys == s.iht.Keys && s.copies.Keys == s.iht.Keys
  {
  }

  // A cell that was filled when its id was already defined is not on any chain,
  // so the move leaves its value alone.
  lemma DirectMoved(s: State, mem': Mem, mv: Move, ds: seq<Addr>, a: Addr)
    requires Threads(s) && MoveOK(s.mem, s.iht, s.regs, mv) && AllChained(s, ds) && Moved(s.mem, mem', mv, ds)
    requires a in s.regs
    ensures Direct(s, a) <==> Direct(ShiftState(s, mv, mem'), Shift(mv, a))
    ensures Direct(s, a) ==> a in s.mem && Shift(mv, a) in mem' && mem'[Shift(mv, a)] == s.mem[a]
  {
    hide Shift, EntryOK, Moved, AllChained, Back;
    LaidMovable(s, mv);
    ShiftRegsAt(mv, s.regs);
    var id := s.regs[a].id;
    assert Owned(s, a);
    LinksIn(s, id);
    ShiftIn(mv, s.links[id]);
    if Direct(s, a) {
      DirectCell(s, mem', mv, ds, a);
    }
  }

  lemma LaidMovable(s: State, mv: Move)
    requires Threads(s) && MoveOK(s.mem, s.iht, s.regs, mv)
    ensures forall a :: a in s.regs ==> Size(s.regs[a]) > 0 && Movable(mv, a, Size(s.regs[a]))
  {
  }

  lemma LinksIn(s: State, id: string)
    requires Threads(s) && id in s.iht
    ensures id in s.links && forall a :: a in s.links[id] ==> a in s.regs && s.regs[a] == Ref(id)
  {
    assert EntryOK(s.mem, s.regs, id, s.iht[id], s.links[id], s.copies[id]);
  }

  lemma DirectCell(s: State, mem': Mem, mv: Move, ds: seq<Addr>, a: Addr)
    requires Threads(s) && MoveOK(s.mem, s.iht, s.regs, mv) && AllChained(s, ds) && Moved(s.mem, mem', mv, ds)
    requires Direct(s, a)
    ensures a in s.mem && Shift(mv, a) in mem' && mem'[Shift(mv, a)] == s.mem[a]
  {
    assert a !in ds;
    assert Span(s.mem, a, PTR) && Movable(mv, a, PTR);
    forall d | d in ds
      ensures !(d <= a < d + PTR)
    {
      assert Apart(d, Size(s.regs[d]), a, PTR);
    }
    assert !Covered(a, ds, PTR);
  }
}
