/** References, copies, definitions and moves of memory in any order: what a whole
    parsed message leaves in its locations.  The table with its chains is shown to do
    what a plain record does. */
module Interleaving {
  import opened Memory
  import opened IdRef
  import opened IdTable
  import opened Relocation
  import opened Blocks
  import opened Flatten
  import opened SaveBlock

  // A href met while parsing, whose pointer cell is p; a href met by value, whose n
  // cells at p are to be filled; an element with an id, whose object is the n cells at p,
  // or is allocated there; a chunk of memory that moves.
  datatype Op =
    | Refer(id: string, p: Addr, t: int, n: nat)
    | Copy(id: string, p: Addr, t: int, n: nat, len: nat, tt: int)
    | Define(id: string, p: Addr, t: int, n: nat)
    | Alloc(id: string, p: Addr, t: int, n: nat, cells: Mem)
    | Relocate(mv: Move)

  predicate Defines(o: Op) {
    o.Define? || o.Alloc?
  }

  // What a message has said so far: the memory allocated, type, size and address of
  // each id, the ids copies wait for, the locations registered, and those of them that
  // were filled when they were met.
  datatype Doc = Doc(keys: set<Addr>, ids: Table, waits: set<string>, regs: Regs, filled: set<Addr>)

  function Zeros(keys: set<Addr>): Mem {
    map a | a in keys :: 0
  }

  // An operation is refused when its type or size does not fit what is known of its id.
  predicate Accepted(d: Doc, o: Op) {
    match o
    case Refer(id, _, t, _) => id in d.ids && d.ids[id].ptr != NULL ==> d.ids[id].typ == t
    case Copy(id, _, t, n, _, _) => id in d.ids ==> d.ids[id].typ == t && d.ids[id].size == n
    case Relocate(_) => true
    case _ => Mismatch(d, o) == Ok
  }

  function Mismatch(d: Doc, o: Op): Status
    requires !o.Relocate?
  {
    if o.id !in d.ids then Ok
    else if !Defines(o) || (o.id in d.waits && (d.ids[o.id].typ != o.t || d.ids[o.id].size != o.n)) then Href
    else if d.ids[o.id].ptr != NULL then DuplicateId
    else Ok
  }

  function Next(d: Doc, o: Op): Doc {
    match o
    case Refer(id, p, t, n) => Referred(d, id, p, t, n)
    case Copy(id, p, t, n, _, _) => Awaited(d, id, p, t, n)
    case Define(id, p, t, n) => Placed(d, id, p, t, n)
    case Alloc(id, p, t, n, cells) => Placed(d.(keys := d.keys + cells.Keys), id, p, t, n)
    case Relocate(mv) => Shifted(d, mv)
  }

  function Entered(ids: Table, id: string, t: int, n: nat): Table {
    if id in ids then ids else ids[id := Blank(t, n)]
  }

  function Referred(d: Doc, id: string, p: Addr, t: int, n: nat): Doc {
    d.(ids := Entered(d.ids, id, t, n), regs := d.regs[p := Ref(id)],
       filled := if Def(d.ids, id) != NULL then d.filled + {p} else d.filled)
  }

  function Awaited(d: Doc, id: string, p: Addr, t: int, n: nat): Doc {
    d.(ids := Entered(d.ids, id, t, n), waits := d.waits + {id}, regs := d.regs[p := Dest(id, n)])
  }

  function Placed(d: Doc, id: string, p: Addr, t: int, n: nat): Doc {
    d.(ids := d.ids[id := if id in d.ids then d.ids[id].(size := n, ptr := p) else Blank(t, n).(ptr := p)])
  }

  function Shifted(d: Doc, mv: Move): Doc {
    d.(ids := ShiftTable(mv, d.ids), regs := ShiftRegs(mv, d.regs), filled := set a | a in d.filled :: Shift(mv, a) as Addr)
  }

  // What the parser sees to: the location exists, is new, and contains or lies in the
  // objects it meets wholly or not at all; a chunk moves to free memory, and no cell
  // already filled points into it.
  ghost predicate Fits(d: Doc, o: Op) {
    var m := Zeros(d.keys);
    match o
    case Refer(id, p, _, _) => id != "" && Vacant(m, d.regs, p, PTR)
    case Copy(id, p, _, n, _, _) => id != "" && Vacant(m, d.regs, p, n) && NestedDest(d.ids, p, n)
    case Define(id, p, _, n) => id != "" && p != NULL && n > 0 && Nested(m, d.regs, p, n)
    case Alloc(id, p, _, n, cells) => id != "" && n > 0 && Fresh(m, p, n, cells)
    case Relocate(mv) => MoveOK(m, d.ids, d.regs, mv) && NoneInto(d, mv)
  }

  ghost predicate NoneInto(d: Doc, mv: Move) {
    forall a :: a in d.filled && a in d.regs ==> !(mv.q <= Def(d.ids, d.regs[a].id) < mv.q + mv.n)
  }

  ghost function Start(m: Mem): Doc {
    Doc(m.Keys, map[], {}, map[], {})
  }

  ghost function After(m: Mem, ops: seq<Op>): Doc {
    if ops == [] then Start(m) else Next(After(m, ops[..|ops| - 1]), ops[|ops| - 1])
  }

  ghost predicate AllAccepted(m: Mem, ops: seq<Op>) {
    forall i :: 0 <= i < |ops| ==> Accepted(After(m, ops[..i]), ops[i])
  }

  // Where the location of the i-th operation is after the first k.
  ghost function At(ops: seq<Op>, i: nat, k: nat): Addr
    requires i < k <= |ops| && !ops[i].Relocate?
  {
    if k == i + 1 then ops[i].p
    else if ops[k - 1].Relocate? then Shift(ops[k - 1].mv, At(ops, i, k - 1))
    else At(ops, i, k - 1)
  }

  ghost predicate WellFormed(m: Mem, ops: seq<Op>) {
    forall i :: 0 <= i < |ops| && AllAccepted(m, ops[..i]) ==> Fits(After(m, ops[..i]), ops[i])
  }

  // ---- the table shows what the record says ----

  predicate SameEntry(e: IList, r: IList, waits: bool) {
    && r.typ == e.typ && r.size == e.size && r.ptr == e.ptr && r.link == NULL && r.copy == NULL && r.flist == []
    && (waits <==> e.copy != NULL || e.flist != [])
  }

  ghost predicate TableShows(ids: Table, waits: set<string>, iht: Table) {
    iht.Keys == ids.Keys && waits <= ids.Keys && forall id :: id in iht ==> SameEntry(iht[id], ids[id], id in waits)
  }

  ghost predicate FilledShows(filled: set<Addr>, s: State) {
    forall a: Addr :: Direct(s, a) <==> a in filled
  }

  ghost predicate Shows(d: Doc, s: State) {
    && Good(s) && Positive(s) && s.error == Ok && s.mem.Keys == d.keys && s.regs == d.regs
    && TableShows(d.ids, d.waits, s.iht) && FilledShows(d.filled, s)
  }

  lemma ShowsNothing(m: Mem, s: State)
    requires s.mem == m && s.iht == map[] && s.regs == map[] && s.error == Ok && Good(s)
    ensures Shows(Start(m), s)
  {
  }

  lemma ZerosSpan(m: Mem, keys: set<Addr>)
    requires m.Keys == keys
    ensures forall a, n :: Span(Zeros(keys), a, n) <==> Span(m, a, n)
  {
    forall a, n
      ensures Span(Zeros(keys), a, n) <==> Span(m, a, n)
    {
      assert forall x: Addr :: x in Zeros(keys) <==> x in m;
    }
  }

  // ---- one operation ----

  // What is known of the registered locations.
  lemma RegsOf(s: State)
    requires Good(s)
    ensures s.links.Keys == s.iht.Keys && s.copies.Keys == s.iht.Keys && Laid(s.mem, s.regs)
    ensures forall a :: a in s.regs ==> s.regs[a].id in s.iht
    ensures forall id, a :: id in s.iht && a in s.links[id] ==> a in s.regs
  {
    forall id | id in s.iht
      ensures forall a :: a in s.links[id] ==> a in s.regs
    {
      assert EntryOK(s.mem, s.regs, id, s.iht[id], s.links[id], s.copies[id]);
    }
  }

  lemma TableNext(ids: Table, waits: set<string>, iht: Table, id: string, r: IList, e: IList, more: set<string>)
    requires TableShows(ids, waits, iht) && more <= {id} && SameEntry(e, r, id in waits + more)
    ensures TableShows(ids[id := r], waits + more, iht[id := e])
  {
  }

  lemma EntryPositive(s: State, s': State, id: string)
    requires Positive(s) && Laid(s'.mem, s'.regs) && id in s'.iht && s'.iht == s.iht[id := s'.iht[id]]
    requires s'.iht[id].ptr == NULL || s'.iht[id].size > 0
    ensures Positive(s')
  {
  }

  // Only the entry of id differs.
  ghost predicate OnlyEntry(iht: Table, iht': Table, id: string) {
    id in iht' && iht' == iht[id := iht'[id]]
  }

  // The record and the table after an operation on the entry of id.
  lemma Assemble(d: Doc, s: State, d': Doc, s': State, id: string, more: set<string>)
    requires Shows(d, s) && Good(s') && s'.error == s.error && s'.mem.Keys == d'.keys && s'.regs == d'.regs
    requires OnlyEntry(s.iht, s'.iht, id) && OnlyEntry(d.ids, d'.ids, id)
    requires d'.waits == d.waits + more && more <= {id} && SameEntry(s'.iht[id], d'.ids[id], id in d'.waits)
    requires FilledShows(d'.filled, s') && (s'.iht[id].ptr == NULL || s'.iht[id].size > 0)
    ensures Shows(d', s')
  {
    RegsOf(s');
    hide Good, Laid, Positive, TableShows, FilledShows;
    TableNext(d.ids, d.waits, s.iht, id, d'.ids[id], s'.iht[id], more);
    EntryPositive(s, s', id);
  }

  // What the operations use of it.
  lemma ShowsIs(d: Doc, s: State, id: string)
    requires Shows(d, s)
    ensures Good(s) && s.error == Ok && s.mem.Keys == d.keys && s.regs == d.regs && FilledShows(d.filled, s)
    ensures s.links.Keys == s.iht.Keys && s.copies.Keys == s.iht.Keys
    ensures id in s.iht <==> id in d.ids
    ensures id in s.iht ==> SameEntry(s.iht[id], d.ids[id], id in d.waits)
    ensures id in s.iht && s.iht[id].ptr != NULL ==> s.iht[id].size > 0
    ensures id !in s.iht ==> id !in d.waits
    ensures Def(s.iht, id) == Def(d.ids, id)
  {
    RegsOf(s);
    hide Good;
  }

  lemma VacantIs(d: Doc, s: State, p: Addr, n: nat)
    requires Good(s) && s.mem.Keys == d.keys && s.regs == d.regs && Vacant(Zeros(d.keys), d.regs, p, n)
    ensures Vacant(s.mem, s.regs, p, n) && Span(s.mem, p, n) && p !in s.regs
  {
    ZerosSpan(s.mem, d.keys);
    RegsOf(s);
    hide Good;
  }

  lemma NestedIs(d: Doc, s: State, p: Addr, n: nat)
    requires s.mem.Keys == d.keys && s.regs == d.regs && Nested(Zeros(d.keys), d.regs, p, n)
    ensures Nested(s.mem, s.regs, p, n)
  {
    ZerosSpan(s.mem, d.keys);
  }

  // No location but p is registered anew and no chain but that of id has grown, by p.
  ghost predicate Alike(s: State, s': State, id: string, p: Addr) {
    && s'.iht.Keys == s.iht.Keys + {id} && s'.links.Keys == s.links.Keys + {id}
    && (forall i :: i in s.links ==> forall a :: a != p ==> (a in s'.links[i] <==> a in s.links[i]))
    && (forall a :: a != p ==> (a in s'.regs <==> a in s.regs) && (a in s.regs ==> s'.regs[a] == s.regs[a]))
  }

  lemma DirectSame(filled: set<Addr>, filled': set<Addr>, s: State, s': State, id: string, p: Addr)
    requires FilledShows(filled, s) && s.links.Keys == s.iht.Keys && (forall a :: a in s.regs ==> s.regs[a].id in s.iht)
    requires Alike(s, s', id, p) && (Direct(s', p) <==> p in filled') && forall a :: a != p ==> (a in filled <==> a in filled')
    ensures FilledShows(filled', s')
  {
    forall a: Addr
      ensures Direct(s', a) <==> a in filled'
    {
      if a != p && a in s.regs {
        assert Direct(s', a) <==> Direct(s, a);
      }
    }
  }

  lemma LookupAlike(s: State, id: string, p: Addr, t: int, n: nat)
    requires p != NULL && id != "" && Span(s.mem, p, PTR) && s.links.Keys == s.iht.Keys
    requires Def(s.iht, id) != NULL ==> s.iht[id].typ == t
    ensures var s' := Lookup(s, id, p, t, n);
            && Alike(s, s', id, p) && p in s'.regs && s'.regs[p] == Ref(id)
            && (if Def(s.iht, id) != NULL then s'.links == s.links else p in s'.links[id])
  {
    hide Store;
  }

  lemma LookupDirect(filled: set<Addr>, s: State, id: string, p: Addr, t: int, n: nat)
    requires Good(s) && p !in s.regs && p != NULL && id != "" && Span(s.mem, p, PTR)
    requires Def(s.iht, id) != NULL ==> s.iht[id].typ == t
    requires FilledShows(filled, s) && (id in s.iht ==> id in s.links)
    ensures FilledShows(if Def(s.iht, id) != NULL then filled + {p} else filled, Lookup(s, id, p, t, n))
  {
    RegsOf(s);
    LookupAlike(s, id, p, t, n);
    hide Good, Laid, Store, Lookup, FilledShows, Alike;
    NotFilled(filled, s, p);
    DirectSame(filled, if Def(s.iht, id) != NULL then filled + {p} else filled, s, Lookup(s, id, p, t, n), id, p);
  }

  lemma NotFilled(filled: set<Addr>, s: State, p: Addr)
    requires FilledShows(filled, s) && p !in s.regs
    ensures p !in filled
  {
    assert p in filled ==> Direct(s, p);
  }

  predicate LinkOnly(e: IList, e': IList) {
    e'.typ == e.typ && e'.size == e.size && e'.ptr == e.ptr && e'.copy == e.copy && e'.flist == e.flist
  }

  predicate Waiting(e: IList, e': IList) {
    e'.typ == e.typ && e'.size == e.size && e'.ptr == e.ptr && (e'.copy != NULL || e'.flist != [])
  }

  lemma EnteredOnly(ids: Table, id: string, t: int, n: nat)
    ensures OnlyEntry(ids, Entered(ids, id, t, n), id)
    ensures Entered(ids, id, t, n)[id] == if id in ids then ids[id] else Blank(t, n)
  {
  }

  // The plain fields after a lookup.
  lemma LookupEffect(s: State, id: string, p: Addr, t: int, n: nat)
    requires p != NULL && id != "" && Span(s.mem, p, PTR) && (id in s.iht ==> id in s.links)
    requires Def(s.iht, id) != NULL ==> s.iht[id].typ == t
    ensures var s' := Lookup(s, id, p, t, n);
            && s'.regs == s.regs[p := Ref(id)] && s'.error == s.error && s'.mem.Keys == s.mem.Keys
            && OnlyEntry(s.iht, s'.iht, id) && LinkOnly(if id in s.iht then s.iht[id] else Blank(t, n), s'.iht[id])
  {
  }

  lemma ReferShows(d: Doc, s: State, id: string, p: Addr, t: int, n: nat)
    requires Shows(d, s) && id != "" && Vacant(Zeros(d.keys), d.regs, p, PTR)
    ensures Span(s.mem, p, PTR) && (id in s.iht ==> id in s.links)
    ensures Accepted(d, Refer(id, p, t, n)) <==> !(Def(s.iht, id) != NULL && s.iht[id].typ != t)
    ensures Accepted(d, Refer(id, p, t, n)) ==> Shows(Referred(d, id, p, t, n), Lookup(s, id, p, t, n))
  {
    ShowsIs(d, s, id);
    hide Shows, Good, Vacant, FilledShows, Lookup, Store;
    VacantIs(d, s, p, PTR);
    NotNull(d, p, PTR);
    ReferAccepted(d, s, id, p, t, n);
    hide Accepted;
    if Accepted(d, Refer(id, p, t, n)) {
      LookupDirect(d.filled, s, id, p, t, n);
      LookupKeeps(s, id, p, t, n);
      LookupEffect(s, id, p, t, n);
      EnteredOnly(d.ids, id, t, n);
      hide OnlyEntry, Entered;
      Assemble(d, s, Referred(d, id, p, t, n), Lookup(s, id, p, t, n), id, {});
    }
  }

  lemma ReferAccepted(d: Doc, s: State, id: string, p: Addr, t: int, n: nat)
    requires (id in s.iht <==> id in d.ids) && (id in s.iht ==> SameEntry(s.iht[id], d.ids[id], id in d.waits))
    ensures Accepted(d, Refer(id, p, t, n)) <==> !(Def(s.iht, id) != NULL && s.iht[id].typ != t)
  {
  }

  lemma NotNull(d: Doc, p: Addr, n: nat)
    requires Vacant(Zeros(d.keys), d.regs, p, n)
    ensures p != NULL && n > 0
  {
  }

  lemma HangAlike(s: State, id: string, p: Addr, len: nat, tt: int, n: nat)
    requires id in s.iht && id in s.copies && id != "" && Span(s.mem, p, n) && s.links.Keys == s.iht.Keys
    ensures var s' := Hang(s, id, p, len, tt, n); Alike(s, s', id, p) && p in s'.regs && s'.regs[p] == Dest(id, n)
  {
    hide Store;
  }

  lemma ForwardAlike(s: State, id: string, p: Addr, len: nat, st: int, tt: int, n: nat)
    requires p != NULL && id != "" && Span(s.mem, p, n) && s.links.Keys == s.iht.Keys
    requires id in s.iht ==> id in s.copies && s.iht[id].typ == st && s.iht[id].size == n
    ensures var s' := Forward(s, id, p, len, st, tt, n); Alike(s, s', id, p) && p in s'.regs && s'.regs[p] == Dest(id, n)
  {
    var s1 := if id in s.iht then s else Blanked(s, id, st, n);
    HangAlike(s1, id, p, len, tt, n);
    hide Hang, Alike;
    if id !in s.iht {
      BlankedAlike(s, Hang(s1, id, p, len, tt, n), id, p, st, n);
    }
  }

  lemma BlankedAlike(s: State, s': State, id: string, p: Addr, t: int, n: nat)
    requires id !in s.iht && s.links.Keys == s.iht.Keys && Alike(Blanked(s, id, t, n), s', id, p)
    ensures Alike(s, s', id, p)
  {
    var s1 := Blanked(s, id, t, n);
    assert forall i :: i in s.links ==> i in s1.links && s1.links[i] == s.links[i];
  }

  lemma ForwardDirect(filled: set<Addr>, s: State, id: string, p: Addr, len: nat, st: int, tt: int, n: nat)
    requires Good(s) && p !in s.regs && p != NULL && id != "" && Span(s.mem, p, n)
    requires id in s.iht ==> id in s.copies && s.iht[id].typ == st && s.iht[id].size == n
    requires FilledShows(filled, s)
    ensures FilledShows(filled, Forward(s, id, p, len, st, tt, n))
  {
    RegsOf(s);
    ForwardAlike(s, id, p, len, st, tt, n);
    hide Good, Laid, Store, Forward, FilledShows, Alike;
    NotFilled(filled, s, p);
    DirectSame(filled, filled, s, Forward(s, id, p, len, st, tt, n), id, p);
  }

  // s' is s with p waiting for a copy, in the entry of id.
  ghost predicate Awaits(s: State, s': State, id: string, p: Addr, e: IList, n: nat) {
    && s'.regs == s.regs[p := Dest(id, n)] && s'.error == s.error && s'.mem.Keys == s.mem.Keys
    && OnlyEntry(s.iht, s'.iht, id) && Waiting(e, s'.iht[id])
  }

  lemma HangEffect(s: State, id: string, p: Addr, len: nat, tt: int, n: nat)
    requires id in s.iht && id in s.copies && id != "" && p != NULL && Span(s.mem, p, n)
    ensures Awaits(s, Hang(s, id, p, len, tt, n), id, p, s.iht[id], n)
  {
    hide Store;
  }

  lemma ForwardEffect(s: State, id: string, p: Addr, len: nat, st: int, tt: int, n: nat)
    requires p != NULL && id != "" && Span(s.mem, p, n)
    requires id in s.iht ==> id in s.copies && s.iht[id].typ == st && s.iht[id].size == n
    ensures Awaits(s, Forward(s, id, p, len, st, tt, n), id, p, if id in s.iht then s.iht[id] else Blank(st, n), n)
  {
    var s1 := if id in s.iht then s else Blanked(s, id, st, n);
    HangEffect(s1, id, p, len, tt, n);
    hide Hang;
  }

  lemma CopyShows(d: Doc, s: State, id: string, p: Addr, t: int, n: nat, len: nat, tt: int)
    requires Shows(d, s) && id != "" && Vacant(Zeros(d.keys), d.regs, p, n) && NestedDest(d.ids, p, n)
    ensures Span(s.mem, p, n) && (id in s.iht ==> id in s.copies)
    ensures Accepted(d, Copy(id, p, t, n, len, tt)) <==> !(id in s.iht && (s.iht[id].typ != t || s.iht[id].size != n))
    ensures Accepted(d, Copy(id, p, t, n, len, tt)) ==> Shows(Awaited(d, id, p, t, n), Forward(s, id, p, len, t, tt, n))
  {
    ShowsIs(d, s, id);
    NestedShown(d, s, p, n);
    hide Shows, Good, Vacant, NestedDest, FilledShows, Forward, Store;
    VacantIs(d, s, p, n);
    NotNull(d, p, n);
    if Accepted(d, Copy(id, p, t, n, len, tt)) {
      ForwardDirect(d.filled, s, id, p, len, t, tt, n);
      ForwardStepKeeps(s, id, p, len, t, tt, n);
      ForwardEffect(s, id, p, len, t, tt, n);
      EnteredOnly(d.ids, id, t, n);
      hide OnlyEntry, Entered;
      Assemble(d, s, Awaited(d, id, p, t, n), Forward(s, id, p, len, t, tt, n), id, {id});
    }
  }

  lemma NestedShown(d: Doc, s: State, p: Addr, n: nat)
    requires Shows(d, s)
    ensures NestedDest(d.ids, p, n) <==> NestedDest(s.iht, p, n)
  {
    hide Good;
    assert forall id :: id in s.iht ==> SameEntry(s.iht[id], d.ids[id], id in d.waits);
  }

  lemma EnterDirect(filled: set<Addr>, s: State, id: string, p: Addr, t: int, n: nat)
    requires Good(s) && FilledShows(filled, s) && id != "" && Def(s.iht, id) == NULL && (id in s.iht ==> !Clash(s.iht[id], t, n))
    ensures FilledShows(filled, Enter(s, id, p, t, n))
  {
    RegsOf(s);
    hide Good, Laid;
  }

  lemma EnterEffect(s: State, id: string, p: Addr, t: int, n: nat)
    requires id != "" && Def(s.iht, id) == NULL && (id in s.iht ==> !Clash(s.iht[id], t, n))
    ensures var s' := Enter(s, id, p, t, n);
            && s'.regs == s.regs && s'.error == s.error && s'.mem == s.mem
            && OnlyEntry(s.iht, s'.iht, id)
            && s'.iht[id] == (if id in s.iht then s.iht[id].(size := n) else Blank(t, n)).(ptr := p)
  {
  }

  lemma PlacedOnly(d: Doc, id: string, p: Addr, t: int, n: nat)
    ensures var d' := Placed(d, id, p, t, n);
            && d'.keys == d.keys && d'.regs == d.regs && d'.waits == d.waits && d'.filled == d.filled
            && OnlyEntry(d.ids, d'.ids, id)
            && d'.ids[id] == if id in d.ids then d.ids[id].(size := n, ptr := p) else Blank(t, n).(ptr := p)
  {
  }

  lemma DefineAccepted(d: Doc, s: State, id: string, p: Addr, t: int, n: nat)
    requires id != "" && (id in s.iht <==> id in d.ids) && (id in s.iht ==> SameEntry(s.iht[id], d.ids[id], id in d.waits))
    ensures var m := Mismatch(d, Define(id, p, t, n));
            && (m == Ok <==> !(id in s.iht && (Clash(s.iht[id], t, n) || s.iht[id].ptr != NULL)))
            && (m != Ok ==> Enter(s, id, p, t, n) == s.(error := m, badId := id))
  {
  }

  lemma DefineShows(d: Doc, s: State, id: string, p: Addr, t: int, n: nat)
    requires Shows(d, s) && id != "" && p != NULL && n > 0 && Good(Enter(s, id, p, t, n))
    ensures var m := Mismatch(d, Define(id, p, t, n));
            && (m == Ok <==> !(id in s.iht && (Clash(s.iht[id], t, n) || s.iht[id].ptr != NULL)))
            && (m == Ok ==> Shows(Placed(d, id, p, t, n), Enter(s, id, p, t, n)))
            && (m != Ok ==> Enter(s, id, p, t, n) == s.(error := m, badId := id))
  {
    ShowsIs(d, s, id);
    DefineAccepted(d, s, id, p, t, n);
    hide Shows, Good, FilledShows, Enter, Mismatch, OnlyEntry, Placed;
    if Mismatch(d, Define(id, p, t, n)) == Ok {
      EnterDirect(d.filled, s, id, p, t, n);
      EnterEffect(s, id, p, t, n);
      PlacedOnly(d, id, p, t, n);
      Assemble(d, s, Placed(d, id, p, t, n), Enter(s, id, p, t, n), id, {});
    }
  }

  lemma GrowGood(s: State, cells: Mem)
    requires Good(s) && s.mem.Keys !! cells.Keys
    ensures Good(s.(mem := s.mem + cells))
  {
    GrowKeeps(s.mem, cells, s.iht, s.regs, s.links, s.copies);
  }

  lemma FreshIs(d: Doc, s: State, p: Addr, n: nat, cells: Mem)
    requires s.mem.Keys == d.keys && Fresh(Zeros(d.keys), p, n, cells)
    ensures p != NULL && s.mem.Keys !! cells.Keys && Fresh(s.mem, p, n, cells)
  {
  }

  lemma GrowShows(d: Doc, s: State, cells: Mem)
    requires Shows(d, s) && s.mem.Keys !! cells.Keys
    ensures Shows(d.(keys := d.keys + cells.Keys), s.(mem := s.mem + cells))
  {
    hide Good, TableShows;
    GrowGood(s, cells);
  }

  // ---- a chunk that moves ----

  lemma MoveIs(d: Doc, s: State, mv: Move)
    requires Shows(d, s) && MoveOK(Zeros(d.keys), d.ids, d.regs, mv)
    ensures MoveOK(s.mem, s.iht, s.regs, mv)
  {
    hide Good;
    ZerosSpan(s.mem, d.keys);
    assert forall id :: id in s.iht ==> SameEntry(s.iht[id], d.ids[id], id in d.waits);
  }

  lemma TableMoved(ids: Table, waits: set<string>, iht: Table, mv: Move)
    requires TableShows(ids, waits, iht) && mv.q != NULL && mv.s != NULL
    ensures TableShows(ShiftTable(mv, ids), waits, ShiftTable(mv, iht))
  {
    hide ShiftList;
    forall id | id in iht
      ensures SameEntry(ShiftEntry(mv, iht[id]), ShiftEntry(mv, ids[id]), id in waits)
    {
      assert SameEntry(iht[id], ids[id], id in waits);
      assert |ShiftList(mv, iht[id].flist)| == |iht[id].flist| && |ShiftList(mv, ids[id].flist)| == |ids[id].flist|;
    }
  }

  // Where a cell that is filled after the move was before.
  lemma DirectOrigin(s: State, mv: Move, m': Mem, ds: seq<Addr>, y: Addr) returns (a: Addr)
    requires Threads(s) && MoveOK(s.mem, s.iht, s.regs, mv) && AllChained(s, ds) && Moved(s.mem, m', mv, ds)
    requires Direct(ShiftState(s, mv, m'), y)
    ensures Direct(s, a) && Shift(mv, a) == y && a in s.mem && y in m' && m'[y] == s.mem[a]
    ensures a in s.regs && y in ShiftRegs(mv, s.regs) && ShiftRegs(mv, s.regs)[y] == s.regs[a]
  {
    LaidMovable(s, mv);
    ShiftRegsAt(mv, s.regs);
    DirectIn(ShiftState(s, mv, m'), y);
    hide Threads, MoveOK, AllChained, Moved, Direct, Shift, Movable, ShiftRegs;
    a := Back(mv, y);
    DirectMoved(s, m', mv, ds, a);
  }

  // The cells filled when they were met are the same ones at their new places.
  lemma FilledMoved(filled: set<Addr>, s: State, mv: Move, m': Mem, ds: seq<Addr>)
    requires Threads(s) && MoveOK(s.mem, s.iht, s.regs, mv) && AllChained(s, ds) && Moved(s.mem, m', mv, ds) && FilledShows(filled, s)
    ensures FilledShows(set a | a in filled :: Shift(mv, a) as Addr, ShiftState(s, mv, m'))
  {
    hide Threads, MoveOK, AllChained, Moved, Direct, Shift, ShiftState;
    var s' := ShiftState(s, mv, m');
    var moved := set a | a in filled :: Shift(mv, a) as Addr;
    forall y: Addr
      ensures Direct(s', y) <==> y in moved
    {
      if y in moved {
        var a :| a in filled && Shift(mv, a) == y;
        DirectIn(s, a);
        DirectMoved(s, m', mv, ds, a);
      }
      if Direct(s', y) {
        var a := DirectOrigin(s, mv, m', ds, y);
      }
    }
  }

  lemma DirectIn(s: State, a: Addr)
    requires Direct(s, a)
    ensures a in s.regs
  {
  }

  lemma FilledHolds(d: Doc, s: State, mv: Move, m': Mem, ds: seq<Addr>)
    requires Threads(s) && FilledHold(s) && MoveOK(s.mem, s.iht, s.regs, mv) && AllChained(s, ds) && Moved(s.mem, m', mv, ds)
    requires FilledShows(d.filled, s) && s.regs == d.regs && TableShows(d.ids, d.waits, s.iht) && NoneInto(d, mv) && mv.q != NULL
    ensures FilledHold(ShiftState(s, mv, m'))
  {
    hide Threads, MoveOK, AllChained, Moved, Direct, TableShows, NoneInto, ShiftRegs;
    var s' := ShiftState(s, mv, m');
    forall y: Addr | Direct(s', y)
      ensures y in s'.mem && s'.mem[y] == Target(s', y)
    {
      var a := DirectOrigin(s, mv, m', ds, y);
      TargetStays(d, s, mv, m', a);
    }
  }

  lemma TargetStays(d: Doc, s: State, mv: Move, m': Mem, a: Addr)
    requires s.regs == d.regs && TableShows(d.ids, d.waits, s.iht) && NoneInto(d, mv) && a in d.filled && a in d.regs && mv.q != NULL
    ensures Def(ShiftState(s, mv, m').iht, s.regs[a].id) == Target(s, a)
  {
    var id := s.regs[a].id;
    assert id in s.iht ==> SameEntry(s.iht[id], d.ids[id], id in d.waits);
  }

  lemma RelocateShows(d: Doc, s: State, mv: Move, m': Mem, ds: seq<Addr>)
    requires Shows(d, s) && MoveOK(Zeros(d.keys), d.ids, d.regs, mv) && NoneInto(d, mv)
    requires s.links.Keys == s.iht.Keys && s.copies.Keys == s.iht.Keys && AllChained(s, ds) && Moved(s.mem, m', mv, ds)
    ensures Shows(Shifted(d, mv), ShiftState(s, mv, m'))
  {
    MoveIs(d, s, mv);
    MoveParts(s.mem, s.iht, s.regs, mv);
    GoodIs(s);
    GoodIs(ShiftState(s, mv, m'));
    hide Good, Threads, FilledHold, MoveOK, AllChained, Positive, TableShows, FilledShows, NoneInto, ShiftTable, ShiftRegs, ShiftChains;
    MovedKeys(s.mem, m', mv, ds);
    ThreadsMoved(s, m', mv, ds);
    FilledHolds(d, s, mv, m', ds);
    PositiveMoved(s, m', mv);
    TableMoved(d.ids, d.waits, s.iht, mv);
    FilledMoved(d.filled, s, mv, m', ds);
  }

  // ---- whole messages, operation by operation ----

  lemma LastOf(m: Mem, ops: seq<Op>, k: nat)
    requires k < |ops|
    ensures After(m, ops[..k + 1]) == Next(After(m, ops[..k]), ops[k])
  {
    assert ops[..k + 1][..k] == ops[..k];
  }

  lemma AcceptedPrefix(m: Mem, ops: seq<Op>, k: nat)
    requires AllAccepted(m, ops) && k <= |ops|
    ensures AllAccepted(m, ops[..k])
  {
    hide Accepted, After;
    forall i | 0 <= i < k
      ensures Accepted(After(m, ops[..k][..i]), ops[..k][i])
    {
      assert ops[..k][..i] == ops[..i];
    }
  }

  // What one operation does to the place and the meaning of a registered location.
  lemma RegNext(d: Doc, o: Op, a: Addr)
    requires Fits(d, o) && a in d.regs && forall b :: b in d.regs ==> Size(d.regs[b]) > 0
    ensures var b := if o.Relocate? then Shift(o.mv, a) else a; b in Next(d, o).regs && Next(d, o).regs[b] == d.regs[a]
  {
    match o
    case Refer(id, p, _, _) => LaidVacant(d, a, p, PTR);
    case Copy(id, p, _, n, _, _) => LaidVacant(d, a, p, n);
    case Relocate(mv) =>
      ShiftRegsAt(mv, d.regs);
    case _ =>
  }

  lemma LaidVacant(d: Doc, a: Addr, p: Addr, n: nat)
    requires Vacant(Zeros(d.keys), d.regs, p, n) && a in d.regs && Size(d.regs[a]) > 0
    ensures a != p
  {
  }

  lemma {:induction false} SizesAfter(m: Mem, ops: seq<Op>)
    requires WellFormed(m, ops) && AllAccepted(m, ops)
    ensures forall a :: a in After(m, ops).regs ==> Size(After(m, ops).regs[a]) > 0
  {
    if ops != [] {
      var k := |ops| - 1;
      StepBack(m, ops);
      SizesAfter(m, ops[..k]);
      hide After, WellFormed, AllAccepted;
      SizesNext(After(m, ops[..k]), ops[k]);
    }
  }

  lemma SizesNext(d: Doc, o: Op)
    requires Fits(d, o) && forall a :: a in d.regs ==> Size(d.regs[a]) > 0
    ensures forall a :: a in Next(d, o).regs ==> Size(Next(d, o).regs[a]) > 0
  {
  }

  lemma StepBack(m: Mem, ops: seq<Op>)
    requires WellFormed(m, ops) && AllAccepted(m, ops) && ops != []
    ensures var k := |ops| - 1;
            && WellFormed(m, ops[..k]) && AllAccepted(m, ops[..k]) && Fits(After(m, ops[..k]), ops[k])
            && Accepted(After(m, ops[..k]), ops[k]) && After(m, ops) == Next(After(m, ops[..k]), ops[k])
  {
    hide Fits, Accepted;
    var k := |ops| - 1;
    AcceptedPrefix(m, ops, k);
    forall i | 0 <= i < k && AllAccepted(m, ops[..k][..i])
      ensures Fits(After(m, ops[..k][..i]), ops[..k][i])
    {
      assert ops[..k][..i] == ops[..i];
    }
  }

  lemma AtPrefix(ops: seq<Op>, i: nat)
    requires i < |ops| - 1 && !ops[i].Relocate?
    ensures !ops[..|ops| - 1][i].Relocate? && At(ops[..|ops| - 1], i, |ops| - 1) == At(ops, i, |ops| - 1)
  {
    AtCut(ops, |ops| - 1, i, |ops| - 1);
  }

  lemma {:induction false} AtCut(ops: seq<Op>, n: nat, i: nat, k: nat)
    requires i < k <= n <= |ops| && !ops[i].Relocate?
    ensures At(ops[..n], i, k) == At(ops, i, k)
    decreases k
  {
    if k > i + 1 {
      AtCut(ops, n, i, k - 1);
    }
  }

  // A location met stays registered, wherever it moves.
  lemma {:induction false} RegAt(m: Mem, ops: seq<Op>, i: nat)
    requires WellFormed(m, ops) && AllAccepted(m, ops) && i < |ops| && (ops[i].Refer? || ops[i].Copy?)
    ensures var a := At(ops, i, |ops|);
            a in After(m, ops).regs
            && After(m, ops).regs[a] == if ops[i].Refer? then Ref(ops[i].id) else Dest(ops[i].id, ops[i].n)
    decreases |ops|
  {
    hide After, WellFormed, AllAccepted, Fits, Accepted, Next;
    var k := |ops| - 1;
    StepBack(m, ops);
    if i < k {
      RegAt(m, ops[..k], i);
      AtPrefix(ops, i);
      SizesAfter(m, ops[..k]);
      RegNext(After(m, ops[..k]), ops[k], At(ops, i, k));
    } else {
      RegNew(After(m, ops[..k]), ops[k]);
    }
  }

  lemma RegNew(d: Doc, o: Op)
    requires o.Refer? || o.Copy?
    ensures o.p in Next(d, o).regs && Next(d, o).regs[o.p] == if o.Refer? then Ref(o.id) else Dest(o.id, o.n)
  {
  }

  // The address defined for an id is the one its only definition gave it, wherever it
  // moves.
  lemma {:induction false} DefAt(m: Mem, ops: seq<Op>, i: nat)
    requires WellFormed(m, ops) && AllAccepted(m, ops) && i < |ops| && Defines(ops[i])
    ensures ops[i].id in After(m, ops).ids && After(m, ops).ids[ops[i].id].size == ops[i].n
    ensures Def(After(m, ops).ids, ops[i].id) == At(ops, i, |ops|) != NULL
    decreases |ops|
  {
    hide After, WellFormed, AllAccepted, Fits, Accepted, Next;
    var k := |ops| - 1;
    StepBack(m, ops);
    if i < k {
      DefAt(m, ops[..k], i);
      AtPrefix(ops, i);
      DefNext(After(m, ops[..k]), ops[k], ops[i].id);
    } else {
      DefNew(After(m, ops[..k]), ops[k]);
    }
  }

  lemma DefNew(d: Doc, o: Op)
    requires Defines(o) && Fits(d, o)
    ensures o.id in Next(d, o).ids && Next(d, o).ids[o.id].size == o.n && Def(Next(d, o).ids, o.id) == o.p != NULL
  {
  }

  lemma DefNext(d: Doc, o: Op, id: string)
    requires Accepted(d, o) && Fits(d, o) && Def(d.ids, id) != NULL
    ensures id in Next(d, o).ids && Next(d, o).ids[id].size == d.ids[id].size
    ensures Def(Next(d, o).ids, id) == (if o.Relocate? then Shift(o.mv, Def(d.ids, id)) else Def(d.ids, id)) != NULL
  {
  }

  predicate Names(o: Op, id: string) {
    !o.Relocate? && o.id == id
  }

  predicate Gives(o: Op, id: string) {
    Defines(o) && o.id == id
  }

  // The message mentions id; it defines id.
  ghost predicate Named(ops: seq<Op>, id: string) {
    exists i :: 0 <= i < |ops| && Names(ops[i], id)
  }

  ghost predicate Given(ops: seq<Op>, id: string) {
    exists i :: 0 <= i < |ops| && Gives(ops[i], id)
  }

  lemma NamedLast(ops: seq<Op>, id: string)
    requires ops != []
    ensures var k := |ops| - 1;
            && (Named(ops, id) <==> Named(ops[..k], id) || Names(ops[k], id))
            && (Given(ops, id) <==> Given(ops[..k], id) || Gives(ops[k], id))
  {
    hide Names, Gives;
    var k := |ops| - 1;
    assert forall i :: 0 <= i < k ==> ops[..k][i] == ops[i];
  }

  // The ids known, and those defined.
  lemma {:induction false} IdsFrom(m: Mem, ops: seq<Op>, id: string)
    requires WellFormed(m, ops) && AllAccepted(m, ops)
    ensures id in After(m, ops).ids <==> Named(ops, id)
    ensures Def(After(m, ops).ids, id) != NULL <==> Given(ops, id)
  {
    if ops == [] {
      assert After(m, ops) == Start(m);
    } else {
      hide After, WellFormed, AllAccepted, Fits, Accepted, Next, Names, Named, Given, Gives, Def;
      var k := |ops| - 1;
      StepBack(m, ops);
      IdsFrom(m, ops[..k], id);
      NamedLast(ops, id);
      IdNext(After(m, ops[..k]), ops[k], id);
    }
  }

  lemma IdNext(d: Doc, o: Op, id: string)
    requires Accepted(d, o) && Fits(d, o)
    ensures id in Next(d, o).ids <==> id in d.ids || Names(o, id)
    ensures Def(Next(d, o).ids, id) != NULL <==> Def(d.ids, id) != NULL || Gives(o, id)
  {
  }

  /** The type an id is held to is the one it was met with first: a definition of another
      type is accepted behind pointers to it. */
  lemma {:induction false} FirstType(m: Mem, ops: seq<Op>, i: nat)
    requires i < |ops| && !ops[i].Relocate? && forall j :: 0 <= j < i ==> !Names(ops[j], ops[i].id)
    ensures ops[i].id in After(m, ops).ids && After(m, ops).ids[ops[i].id].typ == ops[i].t
    decreases |ops|
  {
    hide Next;
    var k := |ops| - 1;
    if i < k {
      FirstType(m, ops[..k], i);
      TypeNext(After(m, ops[..k]), ops[k], ops[i].id);
    } else {
      NotYet(m, ops[..k], ops[k].id);
      TypeNew(After(m, ops[..k]), ops[k]);
    }
  }

  // A pointer of one type to "#a", and then the definition of "#a" with another.
  function BaseThenDerived(): seq<Op> {
    [Refer("#a", 100, 1, 8), Define("#a", 200, 2, 8)]
  }

  /** For instance a reference of a base type before a definition of a derived one. */
  lemma DerivedAccepted(m: Mem)
    requires Span(m, 100, 200)
    ensures WellFormed(m, BaseThenDerived()) && AllAccepted(m, BaseThenDerived()) && AllDefined(BaseThenDerived())
  {
    var ops := BaseThenDerived();
    var d1 := Referred(Start(m), "#a", 100, 1, 8);
    assert ops[..0] == [] && ops[..1] == [ops[0]] && [ops[0]][..0] == [];
    assert After(m, ops[..1]) == d1 && After(m, ops[..0]) == Start(m);
    assert Gives(ops[1], "#a");
  }

  lemma TypeNext(d: Doc, o: Op, id: string)
    requires id in d.ids
    ensures id in Next(d, o).ids && Next(d, o).ids[id].typ == d.ids[id].typ
  {
  }

  lemma TypeNew(d: Doc, o: Op)
    requires !o.Relocate? && o.id !in d.ids
    ensures o.id in Next(d, o).ids && Next(d, o).ids[o.id].typ == o.t
  {
  }

  lemma {:induction false} NotYet(m: Mem, ops: seq<Op>, id: string)
    requires forall j :: 0 <= j < |ops| ==> !Names(ops[j], id)
    ensures id !in After(m, ops).ids
  {
    hide Next, Names;
    if ops != [] {
      var k := |ops| - 1;
      NotYet(m, ops[..k], id);
      NotNamed(After(m, ops[..k]), ops[k], id);
    }
  }

  lemma NotNamed(d: Doc, o: Op, id: string)
    requires id !in d.ids && !Names(o, id)
    ensures id !in Next(d, o).ids
  {
  }

  // ---- the message is parsed and resolved ----

  // Every `#` id the message mentions is defined somewhere in it.
  ghost predicate AllDefined(ops: seq<Op>) {
    forall i :: 0 <= i < |ops| && !ops[i].Relocate? && IsHash(ops[i].id) ==> Given(ops, ops[i].id)
  }

  // So is every id met by value.
  ghost predicate CopiesDefined(ops: seq<Op>) {
    forall i :: 0 <= i < |ops| && ops[i].Copy? ==> Given(ops, ops[i].id)
  }

  lemma AllDefinedIs(m: Mem, ops: seq<Op>)
    requires WellFormed(m, ops) && AllAccepted(m, ops)
    ensures Defined(After(m, ops).ids, After(m, ops).ids.Keys) <==> AllDefined(ops)
  {
    hide After, WellFormed, AllAccepted, Given, Def, IsHash;
    var ids := After(m, ops).ids;
    forall id
      ensures id in ids <==> Named(ops, id)
      ensures Def(ids, id) != NULL <==> Given(ops, id)
    {
      IdsFrom(m, ops, id);
    }
    if AllDefined(ops) {
      forall id | id in ids.Keys && IsHash(id)
        ensures Def(ids, id) != NULL
      {
        var i :| 0 <= i < |ops| && Names(ops[i], id);
      }
    }
    if Defined(ids, ids.Keys) {
      forall i | 0 <= i < |ops| && !ops[i].Relocate? && IsHash(ops[i].id)
        ensures Given(ops, ops[i].id)
      {
        assert Names(ops[i], ops[i].id);
        assert ops[i].id in ids.Keys;
      }
    }
  }

  // Every registered pointer cell holds the address its id was defined with, wherever in
  // the message the definition stands and wherever both have moved since.
  ghost predicate CellsHold(ops: seq<Op>, m: Mem) {
    forall i, j :: 0 <= i < |ops| && 0 <= j < |ops| && ops[i].Refer? && Gives(ops[j], ops[i].id) ==>
                     At(ops, i, |ops|) in m && m[At(ops, i, |ops|)] == At(ops, j, |ops|)
  }

  // Every location met by value that does not wait any more equals the object.
  ghost predicate CopiesHold(ops: seq<Op>, m: Mem, regs: Regs) {
    forall i, j :: 0 <= i < |ops| && 0 <= j < |ops| && ops[i].Copy? && Gives(ops[j], ops[i].id) && At(ops, i, |ops|) !in regs ==>
                     SameCells(m, At(ops, i, |ops|), At(ops, j, |ops|), ops[i].n)
  }

  lemma CellsResolved(m: Mem, ops: seq<Op>, s: State, s': State)
    requires WellFormed(m, ops) && AllAccepted(m, ops) && Shows(After(m, ops), s) && Resolved(s, s')
    ensures CellsHold(ops, s'.mem) && CopiesHold(ops, s'.mem, s'.regs)
  {
    hide After, WellFormed, AllAccepted, Shows, Resolved, SameCells;
    var d := After(m, ops);
    forall i, j | 0 <= i < |ops| && 0 <= j < |ops| && (ops[i].Refer? || ops[i].Copy?) && Gives(ops[j], ops[i].id)
      ensures ops[i].Refer? ==> At(ops, i, |ops|) in s'.mem && s'.mem[At(ops, i, |ops|)] == At(ops, j, |ops|)
      ensures ops[i].Copy? && At(ops, i, |ops|) !in s'.regs ==> SameCells(s'.mem, At(ops, i, |ops|), At(ops, j, |ops|), ops[i].n)
    {
      RegAt(m, ops, i);
      DefAt(m, ops, j);
      ShowsIs(d, s, ops[i].id);
      ResolvedAt(s, s', At(ops, i, |ops|));
    }
  }

  lemma ResolvedAt(s: State, s': State, a: Addr)
    requires Resolved(s, s') && a in s.regs
    ensures s.regs[a].Ref? && Def(s.iht, s.regs[a].id) != NULL ==> a in s'.mem && s'.mem[a] == Def(s.iht, s.regs[a].id)
    ensures s.regs[a].Dest? && a !in s'.regs ==> SameCells(s'.mem, a, Def(s.iht, s.regs[a].id), s.regs[a].size)
  {
    hide SameCells, Stuck, SameDefs, OnlyRegs;
  }

  // The record says as well as the table which ids are defined and what contains what.
  lemma SameAnswers(d: Doc, s: State)
    requires Shows(d, s)
    ensures s.regs == d.regs && s.links.Keys == s.iht.Keys && s.copies.Keys == s.iht.Keys && Good(s) && s.error == Ok
    ensures Defined(s.iht, s.iht.Keys) <==> Defined(d.ids, d.ids.Keys)
    ensures Acyclic(s.iht, s.regs) <==> Acyclic(d.ids, d.regs)
    ensures AllDestsDefined(s.iht, s.regs) <==> AllDestsDefined(d.ids, d.regs)
  {
    RegsOf(s);
    hide Good, Acyclic, Positive, FilledShows, Laid;
    assert forall id :: id in s.iht ==> SameEntry(s.iht[id], d.ids[id], id in d.waits);
    assert SameDefs(d.ids, s.iht);
    DefinedSame(d.ids, s.iht);
    AcyclicSame(d.ids, s.iht, s.regs);
  }

  // Every registered by-value location comes from an operation, so it is waiting for an
  // id the message defines or not.
  lemma DestsDefinedIs(m: Mem, ops: seq<Op>)
    requires WellFormed(m, ops) && AllAccepted(m, ops)
    ensures AllDestsDefined(After(m, ops).ids, After(m, ops).regs) <==> CopiesDefined(ops)
  {
    hide After, WellFormed, AllAccepted, Def, Given;
    var d := After(m, ops);
    forall id
      ensures Def(d.ids, id) != NULL <==> Given(ops, id)
    {
      IdsFrom(m, ops, id);
    }
    forall i | 0 <= i < |ops| && ops[i].Copy?
      ensures At(ops, i, |ops|) in d.regs && d.regs[At(ops, i, |ops|)] == Dest(ops[i].id, ops[i].n)
    {
      RegAt(m, ops, i);
    }
    forall a | a in d.regs && d.regs[a].Dest?
      ensures exists i :: 0 <= i < |ops| && ops[i].Copy? && ops[i].id == d.regs[a].id
    {
      var i := DestFrom(m, ops, a);
    }
  }

  lemma {:induction false} DestFrom(m: Mem, ops: seq<Op>, a: Addr) returns (i: nat)
    requires WellFormed(m, ops) && AllAccepted(m, ops) && a in After(m, ops).regs && After(m, ops).regs[a].Dest?
    ensures i < |ops| && ops[i].Copy? && ops[i].id == After(m, ops).regs[a].id
  {
    i := 0;
    if ops != [] {
      hide After, WellFormed, AllAccepted, Fits, Accepted, Next;
      var k := |ops| - 1;
      StepBack(m, ops);
      SizesAfter(m, ops[..k]);
      var b := RegBefore(After(m, ops[..k]), ops[k], a);
      if b in After(m, ops[..k]).regs && After(m, ops[..k]).regs[b] == After(m, ops).regs[a] {
        i := DestFrom(m, ops[..k], b);
      } else {
        i := k;
      }
    }
  }

  lemma RegBefore(d: Doc, o: Op, a: Addr) returns (b: Addr)
    requires Fits(d, o) && a in Next(d, o).regs && forall b :: b in d.regs ==> Size(d.regs[b]) > 0
    ensures (b in d.regs && d.regs[b] == Next(d, o).regs[a]) || (o.Refer? && Next(d, o).regs[a] == Ref(o.id))
            || (o.Copy? && Next(d, o).regs[a] == Dest(o.id, o.n))
  {
    b := a;
    if o.Relocate? {
      ShiftRegsAt(o.mv, d.regs);
      b := Back(o.mv, a);
    }
  }

  /** One operation, on the table: it succeeds exactly when the record accepts it, and then
      the table shows what the record says. */
  method Perform(soap: Soap, o: Op, ghost d: Doc) returns (ok: bool)
    requires Shows(d, soap.Now()) && Fits(d, o)
    modifies soap
    ensures ok <==> Accepted(d, o)
    ensures ok ==> Shows(Next(d, o), soap.Now())
    ensures !ok ==> !o.Relocate? && soap.error == Mismatch(d, o) && soap.badId == o.id
  {
    hide Shows, Good, Vacant, NestedDest, Nested, Fresh, MoveOK, NoneInto;
    ghost var s := soap.Now();
    SameAnswers(d, s);
    ok := true;
    if o.Refer? {
      ReferShows(d, s, o.id, o.p, o.t, o.n);
      NotNull(d, o.p, PTR);
      var r := soap.IdLookup(o.id, o.p, o.t, o.n);
      ok := r != NULL;
    } else if o.Copy? {
      CopyShows(d, s, o.id, o.p, o.t, o.n, o.len, o.tt);
      NotNull(d, o.p, o.n);
      var r := soap.IdForward(o.id, o.p, o.len, o.t, o.tt, o.n);
      ok := r != NULL;
    } else if o.Define? {
      ShowsIs(d, s, o.id);
      NestedIs(d, s, o.p, o.n);
      EnterStepKeeps(s, o.id, o.p, o.t, o.n);
      DefineShows(d, s, o.id, o.p, o.t, o.n);
      var r := soap.IdEnter(o.id, o.p, o.t, o.n, NULL, map[]);
      ok := r != NULL;
    } else if o.Alloc? {
      ghost var s1, d1 := s.(mem := s.mem + o.cells), d.(keys := d.keys + o.cells.Keys);
      ShowsIs(d, s, o.id);
      FreshIs(d, s, o.p, o.n, o.cells);
      EnterFreshKeeps(s, o.id, o.p, o.t, o.n, o.cells);
      GrowShows(d, s, o.cells);
      DefineShows(d1, s1, o.id, o.p, o.t, o.n);
      var r := soap.IdEnter(o.id, NULL, o.t, o.n, o.p, o.cells);
      ok := r != NULL;
    } else {
      MoveIs(d, s, o.mv);
      ThreadsOf(d, s);
      ghost var ds := MoveChunk(soap, o.mv.q, o.mv.n, o.mv.s, true);
      RelocateShows(d, s, o.mv, soap.mem, ds);
    }
  }

  lemma ThreadsOf(d: Doc, s: State)
    requires Shows(d, s)
    ensures Threads(s) && Positive(s)
  {
    GoodIs(s);
  }

  /** Parses a whole message, up to the first operation that is refused, and resolves it. */
  method Parse(soap: Soap, ops: seq<Op>) returns (k: nat, ok: bool)
    requires soap.Valid() && soap.iht == map[] && soap.regs == map[] && soap.error == Ok
    requires WellFormed(soap.mem, ops)
    modifies soap
    ensures k <= |ops| && AllAccepted(old(soap.mem), ops[..k])
    ensures k < |ops| ==> !ok && !Accepted(After(old(soap.mem), ops[..k]), ops[k])
                          && soap.error == Mismatch(After(old(soap.mem), ops[..k]), ops[k]) && soap.badId == ops[k].id
    ensures k == |ops| ==> (ok <==> AllDefined(ops)) && (!ok ==> soap.error == MissingId)
    ensures ok ==> CellsHold(ops, soap.mem) && CopiesHold(ops, soap.mem, soap.regs)
    ensures ok ==> ((forall a :: a in soap.regs ==> soap.regs[a].Ref?) <==>
                    CopiesDefined(ops) && Acyclic(After(old(soap.mem), ops).ids, After(old(soap.mem), ops).regs))
  {
    hide Good, Shows, After, Accepted, Next, Fits, Resolved, AllDefined, CopiesDefined, Defined, CellsHold, CopiesHold, Acyclic,
         AllDestsDefined;
    ghost var m := soap.mem;
    ShowsNothing(m, soap.Now());
    AfterNothing(m, ops);
    k := 0;
    while k < |ops|
      invariant 0 <= k <= |ops| && AllAccepted(m, ops[..k]) && Shows(After(m, ops[..k]), soap.Now())
    {
      LastOf(m, ops, k);
      ok := Perform(soap, ops[k], After(m, ops[..k]));
      if !ok {
        return k, false;
      }
      AcceptedNext(m, ops, k);
      k := k + 1;
    }
    assert ops[..k] == ops;
    ghost var s := soap.Now();
    SameAnswers(After(m, ops), s);
    AllDefinedIs(m, ops);
    DestsDefinedIs(m, ops);
    ok := soap.Resolve();
    if ok {
      CellsResolved(m, ops, s, soap.Now());
    }
  }

  lemma AfterNothing(m: Mem, ops: seq<Op>)
    ensures After(m, ops[..0]) == Start(m) && AllAccepted(m, ops[..0])
  {
  }

  lemma AcceptedNext(m: Mem, ops: seq<Op>, k: nat)
    requires k < |ops| && AllAccepted(m, ops[..k]) && Accepted(After(m, ops[..k]), ops[k])
    ensures AllAccepted(m, ops[..k + 1])
  {
    hide Accepted, After;
    var more := ops[..k + 1];
    forall i | 0 <= i < |more|
      ensures Accepted(After(m, more[..i]), more[i])
    {
      assert more[..i] == ops[..i] && (i < k ==> ops[..k][..i] == ops[..i] && ops[..k][i] == ops[i]);
    }
  }

  /** A whole block list flattened in the middle of a message: unless a cell already filled
      points into it, everything is resolved at its new place. */
  lemma FlattenedThenResolved(s0: State, s1: State, s2: State, bs: seq<Block>, p: Addr)
    requires Good(s0) && p != NULL && Flattened(s0, s1, bs, p) && !HoldsIntoBlocks(s0, bs) && Resolved(s1, s2)
    ensures Good(s1)
    ensures forall a :: a in s0.regs && s0.regs[a].Ref? && Def(s0.iht, s0.regs[a].id) != NULL ==>
                          PointsTo(s2.mem, Place(Moves(bs, p), a), Place(Moves(bs, p), Def(s0.iht, s0.regs[a].id)))
    ensures forall a :: a in s0.regs && s0.regs[a].Dest? && Place(Moves(bs, p), a) !in s2.regs ==>
                          Equals(s2.mem, Place(Moves(bs, p), a), Place(Moves(bs, p), Def(s0.iht, s0.regs[a].id)), s0.regs[a].size)
  {
    hide Good, Resolved, Moves, Place, HoldsIntoBlocks, DataFlat, Aside, Threads, SameCells;
    forall a | a in s0.regs
      ensures s0.regs[a].Ref? && Def(s0.iht, s0.regs[a].id) != NULL ==>
                PointsTo(s2.mem, Place(Moves(bs, p), a), Place(Moves(bs, p), Def(s0.iht, s0.regs[a].id)))
      ensures s0.regs[a].Dest? && Place(Moves(bs, p), a) !in s2.regs ==>
                Equals(s2.mem, Place(Moves(bs, p), a), Place(Moves(bs, p), Def(s0.iht, s0.regs[a].id)), s0.regs[a].size)
    {
      assert RegPlaced(s0.regs[a], s1.regs, Place(Moves(bs, p), a));
      var id := s0.regs[a].id;
      RegsIn(s0, a);
      assert EntryPlaced(s0.iht[id], s1.iht[id], Moves(bs, p));
      ResolvedAt(s1, s2, Place(Moves(bs, p), a));
      if s0.iht[id].ptr != NULL {
        PlaceNotNull(bs, p, s0.iht[id].ptr);
      }
    }
  }

  lemma {:induction false} PlaceNotNull(bs: seq<Block>, p: Addr, x: Addr)
    requires p != NULL && x != NULL
    ensures Place(Moves(bs, p), x) > 0
  {
    if bs != [] {
      var k := |bs| - 1;
      PlaceNotNull(bs[..k], p, x);
      PlaceNext(Moves(bs[..k], p), MoveOf(bs[k], p + Total(bs[..k])), x);
    }
  }

  ghost predicate PointsTo(m: Mem, a: int, v: int) {
    a >= 0 && a in m && m[a] == v
  }

  ghost predicate Equals(m: Mem, a: int, b: int, n: nat) {
    a >= 0 && b >= 0 && SameCells(m, a, b, n)
  }

  lemma RegsIn(s: State, a: Addr)
    requires Good(s) && a in s.regs
    ensures s.regs[a].id in s.iht
  {
    RegsOf(s);
  }
}
