/** The block list operations that flatten a list: soap_first_block,
    soap_next_block, soap_end_block and soap_save_block. */
module SaveBlock {
  import opened Memory
  import opened IdRef
  import opened IdTable
  import opened Relocation
  import opened Update
  import opened Blocks
  import opened Flatten

  lemma ReverseBases(bs: seq<Block>)
    ensures Bases(Reverse(bs)) == Reverse(Bases(bs))
  {
    forall k | 0 <= k < |bs|
      ensures Bases(Reverse(bs))[k] == Reverse(Bases(bs))[k]
    {
      ReverseAt(bs, k);
      ReverseAt(Bases(bs), k);
    }
  }

  lemma BasesSeparate(mem: Mem, head: int, bs: seq<Block>)
    requires BlocksOK(mem, head, bs)
    ensures Separate(mem, Bases(bs), PTR)
    ensures forall x, i :: 0 <= i < |bs| && bs[i].base + PTR <= x < bs[i].base + HDR + bs[i].cap ==> !Covered(x, Bases(bs), PTR)
  {
    var ps := Bases(bs);
    forall i, j | 0 <= i < j < |bs|
      ensures ps[i] != ps[j] && Apart(ps[i], PTR, ps[j], PTR)
    {
      assert Apart(bs[i].base, HDR + bs[i].cap, bs[j].base, HDR + bs[j].cap);
    }
    forall a | a in ps
      ensures Span(mem, a, PTR)
    {
      var i :| 0 <= i < |ps| && ps[i] == a;
      assert BlockOK(mem, bs[i]);
    }
    forall a, b | a in ps && b in ps && a != b
      ensures Apart(a, PTR, b, PTR)
    {
      var i :| 0 <= i < |ps| && ps[i] == a;
      var j :| 0 <= j < |ps| && ps[j] == b;
      assert i < j || j < i;
    }
    forall x, i | 0 <= i < |bs| && bs[i].base + PTR <= x < bs[i].base + HDR + bs[i].cap
      ensures !Covered(x, ps, PTR)
    {
      forall a | a in ps
        ensures !(a <= x < a + PTR)
      {
        var j :| 0 <= j < |ps| && ps[j] == a;
        assert i < j ==> Apart(bs[i].base, HDR + bs[i].cap, bs[j].base, HDR + bs[j].cap);
        assert j < i ==> Apart(bs[j].base, HDR + bs[j].cap, bs[i].base, HDR + bs[i].cap);
      }
    }
  }

  lemma ReversedOK(m: Mem, m': Mem, head: int, head': int, bs: seq<Block>)
    requires BlocksOK(m, head, bs) && Relinked(m, m', Bases(bs)) && Chain(m', head', Reverse(Bases(bs)))
    ensures BlocksOK(m', head', Reverse(bs))
  {
    BasesSeparate(m, head, bs);
    ReverseBases(bs);
    var rs := Reverse(bs);
    forall i | 0 <= i < |rs|
      ensures BlockOK(m', rs[i])
    {
      ReverseAt(bs, i);
      var b := bs[|bs| - 1 - i];
      assert BlockOK(m, b);
      assert !Covered(b.base + PTR, Bases(bs), PTR);
    }
    forall i, j | 0 <= i < j < |rs|
      ensures Apart(rs[i].base, HDR + rs[i].cap, rs[j].base, HDR + rs[j].cap)
    {
      ReverseAt(bs, i);
      ReverseAt(bs, j);
      assert Apart(bs[|bs| - 1 - j].base, HDR + bs[|bs| - 1 - j].cap, bs[|bs| - 1 - i].base, HDR + bs[|bs| - 1 - i].cap);
    }
  }

  // soap_first_block: the list is turned around in place, so that the oldest
  // chunk comes first; its data address is returned, or NULL.
  method FirstBlock(soap: Soap, b: BList) returns (r: Addr)
    requires BlocksOK(soap.mem, b.ptr, b.blocks) && b.Recorded()
    modifies soap`mem, b`ptr, b`blocks
    ensures BlocksOK(soap.mem, b.ptr, b.blocks) && b.Recorded()
    ensures b.blocks == Reverse(old(b.blocks)) && Relinked(old(soap.mem), soap.mem, Bases(old(b.blocks)))
    ensures r == if b.blocks == [] then NULL else Data(b.blocks[0])
  {
    ghost var bs, m := b.blocks, soap.mem;
    BasesSeparate(m, b.ptr, bs);
    if b.ptr == NULL {
      return NULL;
    }
    var q := ReverseChain(soap, b.ptr, Bases(bs));
    ReversedOK(m, soap.mem, b.ptr, q, bs);
    b.blocks := Reverse(bs);
    b.ptr := q;
    assert b.Recorded() by {
      forall i | 0 <= i < |bs|
        ensures Reverse(bs)[i] == bs[|bs| - 1 - i]
      {
        ReverseAt(bs, i);
      }
    }
    r := q + HDR;
  }

  // soap_next_block: frees the first chunk and returns the data address of the next.
  method NextBlock(soap: Soap, b: BList) returns (r: Addr)
    requires BlocksOK(soap.mem, b.ptr, b.blocks) && b.Recorded()
    modifies soap`mem, b`ptr, b`blocks
    ensures BlocksOK(soap.mem, b.ptr, b.blocks) && b.Recorded()
    ensures old(b.blocks) == [] ==> b.blocks == [] && soap.mem == old(soap.mem) && r == NULL
    ensures old(b.blocks) != [] ==> b.blocks == old(b.blocks)[1..] && Span(old(soap.mem), old(b.ptr), HDR + old(b.blocks)[0].cap)
                                    && old(b.ptr) == old(b.blocks)[0].base
                                    && soap.mem == Free(old(soap.mem), old(b.ptr), HDR + old(b.blocks)[0].cap)
    ensures r == if b.blocks == [] then NULL else Data(b.blocks[0])
  {
    var p := b.ptr;
    if p == NULL {
      return NULL;
    }
    FreedOK(soap.mem, p, b.blocks);
    b.ptr := soap.mem[p];
    soap.mem := Free(soap.mem, p, b.lengths[p]);
    b.blocks := b.blocks[1..];
    if b.ptr != NULL {
      return b.ptr + HDR;
    }
    return NULL;
  }

  // soap_block_size: the size of the first chunk.
  method BlockSizeOf(soap: Soap, b: BList) returns (n: nat)
    requires BlocksOK(soap.mem, b.ptr, b.blocks) && b.ptr != NULL
    ensures b.blocks != [] && n == b.blocks[0].size
  {
    assert BlockOK(soap.mem, b.blocks[0]);
    n := soap.mem[b.ptr + PTR];
  }

  // x lies in the memory of chunk b.
  ghost predicate Within(b: Block, x: Addr) {
    b.base <= x < b.base + HDR + b.cap
  }

  // x lies in none of the first k chunks.
  ghost predicate Clear(bs: seq<Block>, k: nat, x: Addr)
    requires k <= |bs|
  {
    forall i :: 0 <= i < k ==> !Within(bs[i], x)
  }

  // The cells of m are those of m0 less the first k chunks.
  ghost predicate Gone(m0: Mem, m: Mem, bs: seq<Block>, k: nat)
    requires k <= |bs|
  {
    forall x :: x in m <==> x in m0 && Clear(bs, k, x)
  }

  // m is m0 without the first k chunks.
  ghost predicate Freed(m0: Mem, m: Mem, bs: seq<Block>, k: nat)
    requires k <= |bs|
  {
    Gone(m0, m, bs, k) && forall x :: x in m ==> m[x] == m0[x]
  }

  lemma FreedNothing(m: Mem, bs: seq<Block>)
    ensures Freed(m, m, bs, 0)
  {
  }

  lemma FreedOne(m0: Mem, m: Mem, bs: seq<Block>, k: nat)
    requires k < |bs| && Freed(m0, m, bs, k) && Span(m, bs[k].base, HDR + bs[k].cap)
    ensures Freed(m0, Free(m, bs[k].base, HDR + bs[k].cap), bs, k + 1)
  {
  }

  lemma FreedAll(m0: Mem, m: Mem, bs: seq<Block>)
    requires bs == [] && Freed(m0, m, bs, 0)
    ensures m == m0
  {
  }

  // soap_end_block: frees every chunk that is left.
  method EndBlock(soap: Soap, b: BList)
    requires BlocksOK(soap.mem, b.ptr, b.blocks) && b.Recorded()
    modifies soap`mem, b
    ensures b.blocks == [] && b.ptr == NULL
    ensures Freed(old(soap.mem), soap.mem, old(b.blocks), |old(b.blocks)|)
  {
    hide Freed, Free, BlocksOK;
    ghost var k := 0;
    ghost var bs := b.blocks;
    HeadOf(soap.mem, b.ptr, b.blocks);
    FreedNothing(soap.mem, bs);
    while b.ptr != NULL
      invariant 0 <= k <= |bs| && b.blocks == bs[k..] && (b.ptr == NULL <==> b.blocks == [])
      invariant BlocksOK(soap.mem, b.ptr, b.blocks) && b.Recorded()
      invariant Freed(old(soap.mem), soap.mem, bs, k)
      decreases |bs| - k
    {
      ghost var m := soap.mem;
      var r := NextBlock(soap, b);
      HeadOf(soap.mem, b.ptr, b.blocks);
      FreedOne(old(soap.mem), m, bs, k);
      k := k + 1;
    }
  }

  // ---- moving one chunk ----

  // The cells on all chains, for a move that redirects none of them.
  lemma Collect(s: State) returns (ds: seq<Addr>)
    requires Threads(s)
    ensures AllChained(s, ds)
  {
    hide Threads, Sofar;
    ThreadsKeys(s);
    ds := [];
    var todo := s.iht.Keys;
    SofarStart(s, Move(0, 0, 0));
    while todo != {}
      invariant todo <= s.iht.Keys && Sofar(s, ds, todo)
      decreases todo
    {
      var id :| id in todo;
      SofarNext(s, ds, todo, id);
      ds := ds + (s.links[id] + s.copies[id]);
      todo := todo - {id};
    }
    SofarAll(s, ds);
  }

  lemma SofarAll(s: State, ds: seq<Addr>)
    requires Threads(s) && Sofar(s, ds, {})
    ensures AllChained(s, ds)
  {
  }

  lemma {:induction false} ChainNext(mem: Mem, head: int, ls: seq<Addr>)
    requires Chain(mem, head, ls)
    ensures head == NULL || head in ls
    ensures forall a :: a in ls ==> a in mem && (mem[a] == NULL || mem[a] in ls)
    decreases |ls|
  {
    if ls != [] {
      ChainNext(mem, mem[head], ls[1..]);
      assert ls[0] in ls && forall a :: a in ls ==> a == ls[0] || a in ls[1..];
    }
  }

  // A region that holds no registered location and no object moves alone.
  lemma NothingRedirected(s: State, mv: Move, ds: seq<Addr>)
    requires Threads(s) && Positive(s) && AllApart(s, mv.q, mv.n) && mv.q != NULL && AllChained(s, ds)
    ensures Rethreaded(s.mem, s.mem, mv, ds) && ShiftTable(mv, s.iht) == s.iht
  {
    Alone(s, mv);
    hide Shift, Positive, AllApart, Laid, ShiftEntry, Owned;
    forall id | id in s.iht
      ensures ShiftEntry(mv, s.iht[id]) == s.iht[id]
      ensures forall a :: a in s.links[id] || a in s.copies[id] ==> a in s.mem && Shift(mv, s.mem[a]) == s.mem[a]
    {
      EntryAlone(s.mem, s.regs, mv, id, s.iht[id], s.links[id], s.copies[id]);
    }
  }

  lemma Alone(s: State, mv: Move)
    requires Positive(s) && AllApart(s, mv.q, mv.n) && mv.q != NULL
    ensures Shift(mv, NULL) == NULL && forall a :: a in s.regs ==> Shift(mv, a) == a
    ensures forall id :: id in s.iht ==> Shift(mv, s.iht[id].ptr) == s.iht[id].ptr
  {
  }

  lemma EntryAlone(mem: Mem, regs: Regs, mv: Move, id: string, e: IList, ls: seq<Addr>, cs: seq<Addr>)
    requires EntryOK(mem, regs, id, e, ls, cs)
    requires Shift(mv, NULL) == NULL && (forall a :: a in regs ==> Shift(mv, a) == a) && Shift(mv, e.ptr) == e.ptr
    ensures ShiftEntry(mv, e) == e
    ensures forall a :: a in ls || a in cs ==> a in mem && Shift(mv, mem[a]) == mem[a]
  {
    hide Shift, Nested;
    ChainNext(mem, e.link, ls);
    ChainNext(mem, e.copy, cs);
    var ps := Pending(e, cs);
    assert forall a :: a in cs ==> a in ps;
    forall i | 0 <= i < |e.flist|
      ensures Shift(mv, e.flist[i].ptr) == e.flist[i].ptr
    {
      assert ps[|cs| + i] == Ptrs(e.flist)[i] == e.flist[i].ptr;
      assert ps[|cs| + i] in ps;
    }
    assert ShiftList(mv, e.flist) == e.flist;
  }

  // The body of the loop of soap_save_block: redirect (if asked to), then copy.
  method MoveChunk(soap: Soap, q: Addr, n: nat, s: Addr, flag: bool) returns (ghost ds: seq<Addr>)
    requires Threads(soap.Now()) && Positive(soap.Now()) && MoveOK(soap.mem, soap.iht, soap.regs, Move(q, n, s))
    requires !flag ==> AllApart(soap.Now(), q, n)
    modifies soap`mem, soap`iht, soap`regs, soap`links, soap`copies
    ensures soap.Now() == ShiftState(old(soap.Now()), Move(q, n, s), soap.mem)
    ensures AllChained(old(soap.Now()), ds) && Moved(old(soap.mem), soap.mem, Move(q, n, s), ds)
  {
    hide Threads, Positive, AllApart, Rethreaded, Moved, AllChained, MoveOK, Shift, ShiftTable, ShiftRegs, ShiftChains, Memcpy;
    MoveParts(soap.mem, soap.iht, soap.regs, Move(q, n, s));
    ghost var was, mv := soap.Now(), Move(q, n, s);
    if flag {
      ds := UpdatePointers(soap, q, q + n, s);
    } else {
      ds := Collect(was);
      NothingRedirected(was, mv, ds);
    }
    ChainedApart(was, mv, ds);
    RethreadThenCopy(was.mem, soap.mem, mv, ds);
    soap.mem := Memcpy(soap.mem, s, q, n);
    soap.regs, soap.links, soap.copies := ShiftRegs(mv, soap.regs), ShiftChains(mv, soap.links), ShiftChains(mv, soap.copies);
  }

  lemma MoveParts(mem: Mem, iht: Table, regs: Regs, mv: Move)
    requires MoveOK(mem, iht, regs, mv)
    ensures mv.q != NULL && Span(mem, mv.q, mv.n) && Span(mem, mv.s, mv.n) && Apart(mv.q, mv.n, mv.s, mv.n)
  {
  }

  lemma ChainedApart(s: State, mv: Move, ds: seq<Addr>)
    requires Threads(s) && AllChained(s, ds) && MoveOK(s.mem, s.iht, s.regs, mv)
    ensures forall a :: a in ds ==> Apart(a, PTR, mv.s, mv.n)
  {
    hide Threads;
    forall a | a in ds
      ensures Apart(a, PTR, mv.s, mv.n)
    {
      assert Movable(mv, a, Size(s.regs[a]));
    }
  }

  // ---- the whole loop ----

  // The place the chunks go to, and the chunks.
  ghost predicate Layout(bs: seq<Block>, p: Addr, n: nat) {
    && BlocksApart(bs) && Total(bs) <= n
    && forall j :: 0 <= j < |bs| ==> bs[j].size <= bs[j].cap && Apart(bs[j].base, HDR + bs[j].cap, p, n)
  }

  // The first k of the chunks bs, oldest first, have moved to p.
  ghost predicate Flat(s1: State, s: State, bs: seq<Block>, k: nat, p: Addr, n: nat) {
    && k <= |bs| && Total(bs[..k]) <= n
    && Ready(s, bs[k..], p + Total(bs[..k]), n - Total(bs[..k]))
    && Relocated(s1, s, Moves(bs[..k], p)) && DirectKept(s1, s, Moves(bs[..k], p))
    && Arrived(s1, s, bs, p, k)
    && s.error == s1.error && s.badId == s1.badId
  }

  lemma FlatStart(s: State, bs: seq<Block>, p: Addr, n: nat)
    requires Ready(s, bs, p, n)
    ensures Flat(s, s, bs, 0, p, n)
  {
    hide Ready, Plain;
    assert bs[0..] == bs && bs[..0] == [];
    RelocatedStart(s);
    ReadyThreads(s, bs, p, n);
    DirectStart(s);
  }

  lemma ReadyThreads(s: State, bs: seq<Block>, p: Addr, n: nat)
    requires Ready(s, bs, p, n)
    ensures Threads(s) && Positive(s)
    ensures forall i :: 0 <= i < |bs| ==> AllClearly(s, bs[i])
  {
  }

  // Only the headers of the chunks still in the list matter to it.
  lemma HeadersKept(s: State, m2: Mem, bs: seq<Block>, head: int, room: Addr, n: nat, ds: seq<Addr>)
    requires bs != [] && Ready(s, bs, room, n) && BlocksOK(s.mem, head, bs) && bs[0].size <= n
    requires AllChained(s, ds) && Moved(s.mem, m2, MoveOf(bs[0], room), ds)
    ensures BlocksOK(m2, head, bs)
  {
    forall i, x | 0 <= i < |bs| && bs[i].base <= x < bs[i].base + HDR && x in s.mem
      ensures x in m2 && m2[x] == s.mem[x]
    {
      HeaderKept(s, m2, bs, head, room, n, ds, i, x);
    }
    BlocksFrame(s.mem, m2, head, bs);
  }

  lemma HeaderKept(s: State, m2: Mem, bs: seq<Block>, head: int, room: Addr, n: nat, ds: seq<Addr>, i: nat, x: Addr)
    requires bs != [] && Ready(s, bs, room, n) && BlocksOK(s.mem, head, bs) && bs[0].size <= n
    requires AllChained(s, ds) && Moved(s.mem, m2, MoveOf(bs[0], room), ds)
    requires i < |bs| && bs[i].base <= x < bs[i].base + HDR && x in s.mem
    ensures x in m2 && m2[x] == s.mem[x]
  {
    hide Threads, Total, Chain;
    var b, mv := bs[i], MoveOf(bs[0], room);
    assert Apart(b.base, HDR + b.cap, room, n);
    assert i > 0 ==> Apart(bs[0].base, HDR + bs[0].cap, b.base, HDR + b.cap);
    assert BlockOK(s.mem, bs[0]);
    assert !(mv.s <= x < mv.s + mv.n) && Shift(mv, x) == x;
    assert AllClearly(s, b);
    forall a | a in ds
      ensures !(a <= x < a + PTR)
    {
      assert Clearly(b, a, Size(s.regs[a]));
    }
    assert !Covered(x, ds, PTR);
  }

  lemma MovesNext(bs: seq<Block>, k: nat, p: Addr)
    requires k < |bs|
    ensures Moves(bs[..k + 1], p) == Moves(bs[..k], p) + [MoveOf(bs[k], p + Total(bs[..k]))]
  {
    assert bs[..k + 1][..k] == bs[..k];
  }

  lemma FlatNext(s1: State, s: State, m2: Mem, bs: seq<Block>, k: nat, p: Addr, n: nat, ds: seq<Addr>)
    requires Flat(s1, s, bs, k, p, n) && k < |bs| && Layout(bs, p, n)
    requires forall i :: 0 <= i < |bs[k..]| ==> BlockOK(s.mem, bs[k..][i])
    requires MoveOK(s.mem, s.iht, s.regs, MoveOf(bs[k], p + Total(bs[..k])))
    requires AllChained(s, ds) && Moved(s.mem, m2, MoveOf(bs[k], p + Total(bs[..k])), ds)
    requires Span(m2, bs[k].base, HDR + bs[k].cap)
    ensures Flat(s1, ShiftState(s, MoveOf(bs[k], p + Total(bs[..k])), Free(m2, bs[k].base, HDR + bs[k].cap)), bs, k + 1, p, n)
  {
    hide Threads, Ready, Relocated, DirectKept, Arrived, AllChained, Moved, MoveOK, AllApart, Positive, Total, MoveOf, ShiftState,
         BlockOK, Free, Moves, AllClearly, BlocksApart, Room;
    var room, left := p + Total(bs[..k]), n - Total(bs[..k]);
    var mv := MoveOf(bs[k], room);
    var s2, m' := ShiftState(s, mv, m2), Free(m2, bs[k].base, HDR + bs[k].cap);
    var s' := ShiftState(s, mv, m');
    ReadyThreads(s, bs[k..], room, left);
    assert bs[k..][0] == bs[k] && bs[k..][1..] == bs[k + 1..];
    TotalNext(bs, k);
    TailApart(bs, k);
    ReadyMoved(s, m2, bs[k..], room, left, ds);
    assert Apart(bs[k].base, HDR + bs[k].cap, room + bs[k].size, left - bs[k].size) by {
      assert Apart(bs[k].base, HDR + bs[k].cap, p, n);
    }
    StateMem(s, mv, m2);
    ReadyFreed(s2, bs[k + 1..], room + bs[k].size, left - bs[k].size, bs[k]);
    StateOther(s, mv, m2, m');
    RelocatedNext(s1, s, m', Moves(bs[..k], p), mv);
    DirectNext(s1, s, bs[k], m2, Moves(bs[..k], p), mv, ds);
    MovesNext(bs, k, p);
    ArrivedNext(s1, s, s', bs, p, n, k, ds, m2);
  }

  lemma StateOther(s: State, mv: Move, m: Mem, m': Mem)
    ensures ShiftState(s, mv, m).(mem := m') == ShiftState(s, mv, m')
    ensures ShiftState(s, mv, m').error == s.error && ShiftState(s, mv, m').badId == s.badId
  {
  }

  lemma TailApart(bs: seq<Block>, k: nat)
    requires BlocksApart(bs) && k <= |bs|
    ensures BlocksApart(bs[k..])
  {
    forall i, j | 0 <= i < j < |bs[k..]|
      ensures Apart(bs[k..][i].base, HDR + bs[k..][i].cap, bs[k..][j].base, HDR + bs[k..][j].cap)
    {
      assert bs[k..][i] == bs[k + i] && bs[k..][j] == bs[k + j];
    }
  }

  // ---- where everything ends up ----

  lemma {:induction false} PlaceWhere(bs: seq<Block>, p: Addr, n: nat, k: nat, i: nat, x: Addr)
    requires Layout(bs, p, n) && k <= |bs| && i < |bs| && InData(bs[i], x)
    ensures Place(Moves(bs[..k], p), x) == Where(bs, p, k, i, x)
  {
    hide Layout, InData, Where, Shift, Total, Place, Moves, MoveOf;
    if k == 0 {
      PlaceStart(bs, p, i, x);
    } else {
      PlaceWhere(bs, p, n, k - 1, i, x);
      MovesNext(bs, k - 1, p);
      PlaceNext(Moves(bs[..k - 1], p), MoveOf(bs[k - 1], p + Total(bs[..k - 1])), x);
      WhereStep(bs, p, n, k - 1, i, x);
    }
  }

  lemma PlaceStart(bs: seq<Block>, p: Addr, i: nat, x: Addr)
    requires i < |bs|
    ensures Place(Moves(bs[..0], p), x) == Where(bs, p, 0, i, x)
  {
  }

  lemma WhereStep(bs: seq<Block>, p: Addr, n: nat, k: nat, i: nat, x: Addr)
    requires Layout(bs, p, n) && k < |bs| && i < |bs| && InData(bs[i], x)
    ensures Where(bs, p, k + 1, i, x) == Shift(MoveOf(bs[k], p + Total(bs[..k])), Where(bs, p, k, i, x))
  {
    WhereNext(bs, p, n, k, i, x);
  }

  lemma {:induction false} PlaceOutside(bs: seq<Block>, p: Addr, k: nat, x: Addr)
    requires k <= |bs| && forall i :: 0 <= i < |bs| ==> !InData(bs[i], x)
    ensures Place(Moves(bs[..k], p), x) == x
  {
    if k > 0 {
      PlaceOutside(bs, p, k - 1, x);
      MovesNext(bs, k - 1, p);
      PlaceNext(Moves(bs[..k - 1], p), MoveOf(bs[k - 1], p + Total(bs[..k - 1])), x);
    }
  }

  // The moves lay the chunks end to end at p, oldest first, and move nothing else.
  lemma PlaceOf(bs: seq<Block>, p: Addr, n: nat, x: Addr)
    requires Layout(bs, p, n)
    ensures forall i :: 0 <= i < |bs| && InData(bs[i], x) ==>
                          Place(Moves(bs, p), x) == p + Total(bs[..i]) + (x - Data(bs[i])) && p <= Place(Moves(bs, p), x) < p + n
    ensures (forall i :: 0 <= i < |bs| ==> !InData(bs[i], x)) ==> Place(Moves(bs, p), x) == x
  {
    assert bs[..|bs|] == bs;
    forall i | 0 <= i < |bs| && InData(bs[i], x)
      ensures Place(Moves(bs, p), x) == p + Total(bs[..i]) + (x - Data(bs[i])) && p <= Place(Moves(bs, p), x) < p + n
    {
      PlaceWhere(bs, p, n, |bs|, i, x);
      TotalMono(bs, i, |bs|);
    }
    if forall i :: 0 <= i < |bs| ==> !InData(bs[i], x) {
      PlaceOutside(bs, p, |bs|, x);
    }
  }

  // Some cell that was filled when it was met holds the address of an object
  // inside one of the chunks.
  ghost predicate HoldsIntoBlocks(s: State, bs: seq<Block>) {
    exists a, i :: Direct(s, a) && 0 <= i < |bs| && InData(bs[i], Target(s, a))
  }

  lemma GoodAfter(s1: State, s: State, bs: seq<Block>, p: Addr, n: nat)
    requires Good(s1) && Ready(s1, bs, p, n) && Layout(bs, p, n) && Flat(s1, s, bs, |bs|, p, n)
    ensures Good(s) <==> !HoldsIntoBlocks(s1, bs)
  {
    hide Good, Threads, Ready, Flat, Layout, Relocated, DirectKept, Moves, Place, Total, Direct, Target, InData;
    GoodIs(s1);
    GoodIs(s);
    FlatParts(s1, s, bs, p, n);
    if HoldsIntoBlocks(s1, bs) {
      var a, i :| Direct(s1, a) && 0 <= i < |bs| && InData(bs[i], Target(s1, a));
      DirectAfter(s1, s, bs, p, n, a);
    } else {
      forall y | Direct(s, y)
        ensures y in s.mem && s.mem[y] == Target(s, y)
      {
        var a := BackOf(s1, s, bs, p, n, y);
        DirectAfter(s1, s, bs, p, n, a);
      }
    }
  }

  lemma FlatParts(s1: State, s: State, bs: seq<Block>, p: Addr, n: nat)
    requires Flat(s1, s, bs, |bs|, p, n)
    ensures Threads(s) && Relocated(s1, s, Moves(bs, p)) && DirectKept(s1, s, Moves(bs, p))
  {
    hide Threads, Ready, Relocated, DirectKept, Moves, Total, Arrived;
    assert bs[..|bs|] == bs;
    ReadyThreads(s, bs[|bs|..], p + Total(bs[..|bs|]), n - Total(bs[..|bs|]));
  }

  lemma BackOf(s1: State, s: State, bs: seq<Block>, p: Addr, n: nat, y: Addr) returns (a: Addr)
    requires Relocated(s1, s, Moves(bs, p)) && DirectKept(s1, s, Moves(bs, p)) && Direct(s, y)
    ensures a in s1.regs && Place(Moves(bs, p), a) == y && Direct(s1, a)
  {
    hide Place, Moves;
    a :| a in s1.regs && Place(Moves(bs, p), a) == y;
    assert DirectCellKept(s1, s, a, Place(Moves(bs, p), a));
  }

  // A filled cell is right after the moves exactly when its object did not move.
  lemma DirectAfter(s1: State, s: State, bs: seq<Block>, p: Addr, n: nat, a: Addr)
    requires Threads(s1) && FilledHold(s1) && Ready(s1, bs, p, n) && Layout(bs, p, n)
    requires Relocated(s1, s, Moves(bs, p)) && DirectKept(s1, s, Moves(bs, p)) && Direct(s1, a)
    ensures Place(Moves(bs, p), a) >= 0 && Direct(s, Place(Moves(bs, p), a)) && Place(Moves(bs, p), a) in s.mem
    ensures s.mem[Place(Moves(bs, p), a)] == Target(s, Place(Moves(bs, p), a)) <==>
            forall i :: 0 <= i < |bs| ==> !InData(bs[i], Target(s1, a))
  {
    var mvs := Moves(bs, p);
    var id := s1.regs[a].id;
    var t := s1.iht[id].ptr;
    assert Owned(s1, a);
    assert DirectCellKept(s1, s, a, Place(mvs, a));
    assert RegPlaced(s1.regs[a], s.regs, Place(mvs, a));
    assert EntryPlaced(s1.iht[id], s.iht[id], mvs);
    PlaceOf(bs, p, n, t);
    ObjectOutside(s1, bs, p, n, id);
    hide Threads, Ready, Place, Moves, Total;
  }

  lemma ObjectOutside(s1: State, bs: seq<Block>, p: Addr, n: nat, id: string)
    requires Ready(s1, bs, p, n) && id in s1.iht && s1.iht[id].ptr != NULL
    ensures !(p <= s1.iht[id].ptr < p + n)
  {
    hide Threads;
  }

  // ---- getting ready ----

  // A block list that can be flattened: everything the table knows lies wholly
  // inside the data of a chunk or outside all chunks.
  ghost predicate Flattenable(s: State, bs: seq<Block>) {
    && Threads(s) && Positive(s) && forall i :: 0 <= i < |bs| ==> AllClearly(s, bs[i])
  }

  // A memory in which everything the table knows has kept its place and value.
  ghost predicate SameObjects(s: State, m: Mem) {
    && (forall a, x :: a in s.regs && a <= x < a + Size(s.regs[a]) && x in s.mem ==> x in m && m[x] == s.mem[x])
    && (forall id :: id in s.iht && s.iht[id].ptr != NULL ==> Span(m, s.iht[id].ptr, s.iht[id].size))
  }

  lemma ThreadsFrame(s: State, m: Mem)
    requires Threads(s) && Positive(s) && SameObjects(s, m)
    ensures Threads(s.(mem := m)) && (FilledHold(s) ==> FilledHold(s.(mem := m)))
  {
    hide EntryOK, Entries, Laid, Positive, SameObjects, FilledHold, Owned;
    LaidFrame(s, m);
    EntriesFrame(s, m);
    OwnedFrame(s, m);
    FilledFrame(s, m);
  }

  lemma EntriesFrame(s: State, m: Mem)
    requires Threads(s) && Positive(s) && SameObjects(s, m)
    ensures Entries(m, s.iht, s.regs, s.links, s.copies)
  {
    hide EntryOK, Laid, Positive, SameObjects, Owned;
    forall id | id in s.iht
      ensures EntryOK(m, s.regs, id, s.iht[id], s.links[id], s.copies[id])
    {
      EntryFrame(s, m, id);
    }
  }

  lemma OwnedFrame(s: State, m: Mem)
    requires Threads(s)
    ensures forall a :: a in s.regs ==> Owned(s.(mem := m), a)
  {
    hide EntryOK, Entries, Laid;
    assert forall a :: a in s.regs ==> Owned(s, a);
  }

  lemma FilledFrame(s: State, m: Mem)
    requires Threads(s) && Positive(s) && SameObjects(s, m)
    ensures FilledHold(s) ==> FilledHold(s.(mem := m))
  {
    hide Threads, Owned;
    var s' := s.(mem := m);
    if FilledHold(s) {
      forall a: Addr | Direct(s', a)
        ensures a in m && m[a] == Target(s', a)
      {
        assert Direct(s, a);
        assert a <= a < a + Size(s.regs[a]);
      }
    }
  }

  lemma LaidFrame(s: State, m: Mem)
    requires Laid(s.mem, s.regs) && SameObjects(s, m)
    ensures Laid(m, s.regs)
  {
    forall a | a in s.regs
      ensures Span(m, a, Size(s.regs[a]))
    {
      assert Span(s.mem, a, Size(s.regs[a]));
    }
  }

  lemma EntryFrame(s: State, m: Mem, id: string)
    requires Threads(s) && Positive(s) && SameObjects(s, m) && id in s.iht
    ensures EntryOK(m, s.regs, id, s.iht[id], s.links[id], s.copies[id])
  {
    var e, ls, cs := s.iht[id], s.links[id], s.copies[id];
    assert EntryOK(s.mem, s.regs, id, e, ls, cs);
    hide Laid, Entries, Owned;
    forall a | (a in ls || a in cs) && a in s.mem
      ensures a in m && m[a] == s.mem[a]
    {
      assert a in cs ==> a in Pending(e, cs);
      assert a <= a < a + Size(s.regs[a]);
    }
    ChainFrame(s.mem, m, e.link, ls);
    ChainFrame(s.mem, m, e.copy, cs);
  }

  // Turning the list around touches only link words, which belong to no object.
  lemma RelinkedObjects(s: State, m: Mem, head: int, bs: seq<Block>)
    requires Flattenable(s, bs) && BlocksOK(s.mem, head, bs) && Relinked(s.mem, m, Bases(bs))
    ensures SameObjects(s, m)
  {
    hide Threads, Positive, Chain;
    forall a, x | a in s.regs && a <= x < a + Size(s.regs[a]) && x in s.mem
      ensures x in m && m[x] == s.mem[x]
    {
      forall c | c in Bases(bs)
        ensures !(c <= x < c + PTR)
      {
        var i :| 0 <= i < |bs| && Bases(bs)[i] == c;
        assert AllClearly(s, bs[i]) && Clearly(bs[i], a, Size(s.regs[a]));
      }
      assert !Covered(x, Bases(bs), PTR);
    }
    SourcesSpan(s);
  }

  lemma SourcesSpan(s: State)
    requires Flattenable(s, [])
    ensures forall id :: id in s.iht && s.iht[id].ptr != NULL ==> Span(s.mem, s.iht[id].ptr, s.iht[id].size)
  {
    forall id | id in s.iht && s.iht[id].ptr != NULL
      ensures Span(s.mem, s.iht[id].ptr, s.iht[id].size)
    {
      assert EntryOK(s.mem, s.regs, id, s.iht[id], s.links[id], s.copies[id]);
    }
  }

  // A fresh region overlaps nothing that is allocated.
  lemma FreshRoom(s: State, bs: seq<Block>, head: int, p: Addr, n: nat, cells: Mem)
    requires Flattenable(s, bs) && BlocksOK(s.mem, head, bs) && Fresh(s.mem, p, n, cells) && n > 0 && Total(bs) <= n
    ensures SameObjects(s, s.mem + cells) && BlocksOK(s.mem + cells, head, bs)
    ensures Room(s.(mem := s.mem + cells), bs, p, n)
  {
    hide Threads, Positive, AllClearly, Total, SameObjects, Room, BlockOK, Chain;
    var m := s.mem + cells;
    FreshSame(s, bs, cells);
    BlocksFrame(s.mem, m, head, bs);
    FreshObjects(s, bs, p, n, cells);
    forall i | 0 <= i < |bs|
      ensures Apart(bs[i].base, HDR + bs[i].cap, p, n)
    {
      BlockSize(s.mem, bs[i]);
      FreshApart(s.mem, p, n, cells, bs[i].base, HDR + bs[i].cap);
    }
    RoomIs(s.(mem := m), bs, p, n);
  }

  lemma RoomIs(s: State, bs: seq<Block>, p: Addr, n: nat)
    requires p != NULL && Span(s.mem, p, n) && AllApart(s, p, n) && Total(bs) <= n
    requires forall i :: 0 <= i < |bs| ==> Apart(bs[i].base, HDR + bs[i].cap, p, n)
    ensures Room(s, bs, p, n)
  {
  }

  lemma FreshSame(s: State, bs: seq<Block>, cells: Mem)
    requires Flattenable(s, bs) && s.mem.Keys !! cells.Keys
    ensures SameObjects(s, s.mem + cells)
  {
    SourcesSpan(s);
    hide Threads, Positive;
  }

  lemma FreshObjects(s: State, bs: seq<Block>, p: Addr, n: nat, cells: Mem)
    requires Flattenable(s, bs) && Fresh(s.mem, p, n, cells) && n > 0
    ensures AllApart(s.(mem := s.mem + cells), p, n)
  {
    SourcesSpan(s);
    LaidOf(s);
    hide Threads, AllClearly;
    forall a | a in s.regs
      ensures Apart(a, Size(s.regs[a]), p, n)
    {
      assert Span(s.mem, a, Size(s.regs[a]));
      FreshApart(s.mem, p, n, cells, a, Size(s.regs[a]));
    }
    forall id | id in s.iht && s.iht[id].ptr != NULL
      ensures Apart(s.iht[id].ptr, s.iht[id].size, p, n)
    {
      FreshApart(s.mem, p, n, cells, s.iht[id].ptr, s.iht[id].size);
    }
  }

  // Turned around, the chunks are ready to be moved to p.
  lemma {:induction false} TurnedReady(s: State, m: Mem, head: int, head': int, bs: seq<Block>, p: Addr, n: nat)
    requires Flattenable(s, bs) && BlocksOK(s.mem, head, bs) && Room(s, bs, p, n)
    requires Relinked(s.mem, m, Bases(bs)) && BlocksOK(m, head', Reverse(bs))
    ensures Ready(s.(mem := m), Reverse(bs), p, n) && Layout(Reverse(bs), p, n)
    ensures FilledHold(s) ==> FilledHold(s.(mem := m))
    ensures forall i, x :: 0 <= i < |bs| && InData(bs[i], x) && x in s.mem ==> x in m && m[x] == s.mem[x]
  {
    hide Threads, Positive, Total, AllClearly, AllApart, Chain, FilledHold, BlockOK, Relinked, InData, Covered;
    RelinkedObjects(s, m, head, bs);
    hide SameObjects;
    ThreadsFrame(s, m);
    TotalReverse(bs);
    PositiveIs(s, s.(mem := m));
    ApartIs(s, s.(mem := m), p, n);
    TurnedChunks(s, m, bs, p, n);
    forall i | 0 <= i < |bs|
      ensures Reverse(bs)[i].size <= Reverse(bs)[i].cap
    {
      BlockSize(m, Reverse(bs)[i]);
    }
    TurnedData(s.mem, m, head, bs);
  }

  lemma {:induction false} TurnedChunks(s: State, m: Mem, bs: seq<Block>, p: Addr, n: nat)
    requires Flattenable(s, bs) && Room(s, bs, p, n)
    ensures forall i :: 0 <= i < |bs| ==> AllClearly(s.(mem := m), Reverse(bs)[i])
    ensures forall i :: 0 <= i < |bs| ==> Apart(Reverse(bs)[i].base, HDR + Reverse(bs)[i].cap, p, n)
  {
    hide Threads, Positive, Total, AllClearly, AllApart;
    forall i | 0 <= i < |bs|
      ensures AllClearly(s.(mem := m), Reverse(bs)[i]) && Apart(Reverse(bs)[i].base, HDR + Reverse(bs)[i].cap, p, n)
    {
      ReverseAt(bs, i);
      ClearlyIs(s, s.(mem := m), bs[|bs| - 1 - i]);
    }
  }

  lemma TurnedData(m: Mem, m': Mem, head: int, bs: seq<Block>)
    requires BlocksOK(m, head, bs) && Relinked(m, m', Bases(bs))
    ensures m'.Keys == m.Keys
    ensures forall i, x :: 0 <= i < |bs| && InData(bs[i], x) && x in m ==> x in m' && m'[x] == m[x]
  {
    BasesSeparate(m, head, bs);
    hide Covered, Chain, Separate;
    forall i, x | 0 <= i < |bs| && InData(bs[i], x) && x in m
      ensures x in m' && m'[x] == m[x]
    {
      assert BlockOK(m, bs[i]);
      assert !Covered(x, Bases(bs), PTR);
    }
  }

  lemma ApartIs(s: State, s': State, c: Addr, n: nat)
    requires s'.regs == s.regs && s'.iht == s.iht && AllApart(s, c, n)
    ensures AllApart(s', c, n)
  {
  }

  lemma {:induction false} TotalReverse(bs: seq<Block>)
    ensures Total(Reverse(bs)) == Total(bs)
  {
    if bs != [] {
      TotalReverse(bs[1..]);
      var rs := Reverse(bs[1..]);
      TotalSplit(Reverse(bs), |rs|);
      assert Reverse(bs)[..|rs|] == rs && Reverse(bs)[|rs|..] == [bs[0]];
      assert [bs[0]][1..] == [];
    }
  }

  // ---- what is freed, and what stays ----

  lemma GoneNothing(m0: Mem, m: Mem, bs: seq<Block>)
    requires m.Keys == m0.Keys
    ensures Gone(m0, m, bs, 0)
  {
  }

  lemma GoneNext(m0: Mem, m: Mem, m2: Mem, bs: seq<Block>, k: nat)
    requires k < |bs| && Gone(m0, m, bs, k) && m2.Keys == m.Keys && Span(m2, bs[k].base, HDR + bs[k].cap)
    ensures Gone(m0, Free(m2, bs[k].base, HDR + bs[k].cap), bs, k + 1)
  {
  }

  lemma MovedKeys(mem: Mem, mem': Mem, mv: Move, ds: seq<Addr>)
    requires Moved(mem, mem', mv, ds)
    ensures mem'.Keys == mem.Keys
  {
  }

  // x lies neither in a chunk nor where the chunks go.
  ghost predicate Outside(bs: seq<Block>, p: Addr, x: Addr) {
    !(p <= x < p + Total(bs)) && Clear(bs, |bs|, x)
  }

  // A cell outside, unless it is on a chain, has its old value.
  ghost predicate Aside(s0: State, s: State, bs: seq<Block>, p: Addr) {
    forall x: Addr :: x in s0.mem && Plain(s0, x) && Outside(bs, p, x) ==> Kept(s0, s, x, x)
  }

  lemma AsideStart(s0: State, s1: State, bs0: seq<Block>, p: Addr)
    requires s1 == s0.(mem := s1.mem) && Relinked(s0.mem, s1.mem, Bases(bs0))
    ensures Aside(s0, s1, Reverse(bs0), p)
  {
    forall x: Addr | x in s0.mem && Plain(s0, x) && Outside(Reverse(bs0), p, x)
      ensures Kept(s0, s1, x, x)
    {
      forall a | a in Bases(bs0)
        ensures !(a <= x < a + PTR)
      {
        var i :| 0 <= i < |bs0| && Bases(bs0)[i] == a;
        ReverseAt(bs0, |bs0| - 1 - i);
        assert !Within(Reverse(bs0)[|bs0| - 1 - i], x);
      }
      PlainIs(s0, s1, x);
    }
  }

  lemma OutsideMove(bs: seq<Block>, k: nat, p: Addr, x: Addr)
    requires k < |bs| && bs[k].size <= bs[k].cap && Outside(bs, p, x)
    ensures var mv := MoveOf(bs[k], p + Total(bs[..k]));
            Shift(mv, x) == x && !(mv.s <= x < mv.s + mv.n) && !(bs[k].base <= x < bs[k].base + HDR + bs[k].cap)
  {
    TotalNext(bs, k);
    hide Total;
    assert !Within(bs[k], x);
  }

  lemma AsideNext(s0: State, s: State, m2: Mem, bs: seq<Block>, k: nat, p: Addr, ds: seq<Addr>)
    requires k < |bs| && Aside(s0, s, bs, p) && bs[k].size <= bs[k].cap
    requires Threads(s) && MoveOK(s.mem, s.iht, s.regs, MoveOf(bs[k], p + Total(bs[..k])))
    requires AllChained(s, ds) && Moved(s.mem, m2, MoveOf(bs[k], p + Total(bs[..k])), ds)
    requires Span(m2, bs[k].base, HDR + bs[k].cap)
    ensures Aside(s0, ShiftState(s, MoveOf(bs[k], p + Total(bs[..k])), Free(m2, bs[k].base, HDR + bs[k].cap)), bs, p)
  {
    ThreadsKeys(s);
    hide Threads, MoveOK, Moved, AllChained, Plain, Total, ShiftState, Free, Kept, Outside, MoveOf, Span, Shift;
    var mv := MoveOf(bs[k], p + Total(bs[..k]));
    var s' := ShiftState(s, mv, Free(m2, bs[k].base, HDR + bs[k].cap));
    AsideAll(s0, s, s', bs, k, p, mv, ds, m2);
  }

  lemma AsideAll(s0: State, s: State, s': State, bs: seq<Block>, k: nat, p: Addr, mv: Move, ds: seq<Addr>, m2: Mem)
    requires k < |bs| && Aside(s0, s, bs, p) && bs[k].size <= bs[k].cap && mv == MoveOf(bs[k], p + Total(bs[..k]))
    requires s.links.Keys == s.iht.Keys && s.copies.Keys == s.iht.Keys
    requires Threads(s) && MoveOK(s.mem, s.iht, s.regs, mv) && AllChained(s, ds) && Moved(s.mem, m2, mv, ds)
    requires Span(m2, bs[k].base, HDR + bs[k].cap) && s' == ShiftState(s, mv, Free(m2, bs[k].base, HDR + bs[k].cap))
    ensures Aside(s0, s', bs, p)
  {
    hide Threads, MoveOK, Moved, AllChained, Plain, Total, ShiftState, Free, Kept, Outside, MoveOf, Span, Shift;
    forall x: Addr | x in s0.mem && Plain(s0, x) && Outside(bs, p, x)
      ensures Kept(s0, s', x, x)
    {
      OutsideMove(bs, k, p, x);
      AsideOne(s0, s, s', bs[k], mv, x, ds, m2);
    }
  }

  lemma AsideOne(s0: State, s: State, s': State, b: Block, mv: Move, x: Addr, ds: seq<Addr>, m2: Mem)
    requires x in s0.mem && Kept(s0, s, x, x)
    requires Shift(mv, x) == x && !(mv.s <= x < mv.s + mv.n) && !(b.base <= x < b.base + HDR + b.cap)
    requires s.links.Keys == s.iht.Keys && s.copies.Keys == s.iht.Keys
    requires Threads(s) && MoveOK(s.mem, s.iht, s.regs, mv) && AllChained(s, ds) && Moved(s.mem, m2, mv, ds)
    requires Span(m2, b.base, HDR + b.cap) && s' == ShiftState(s, mv, Free(m2, b.base, HDR + b.cap))
    ensures Kept(s0, s', x, x)
  {
    hide Threads, MoveOK, Moved, AllChained, Kept, Span, ShiftState, Free;
    KeptNext(s0, s, s', b, mv, x, x, ds, m2);
  }

  lemma AsideItself(s: State, bs: seq<Block>, p: Addr)
    ensures Aside(s, s, bs, p)
  {
  }

  lemma AsideTrans(s0: State, s1: State, s: State, bs: seq<Block>, p: Addr)
    requires Aside(s0, s1, bs, p) && Aside(s1, s, bs, p)
    ensures Aside(s0, s, bs, p)
  {
    hide Plain, Outside;
    forall x: Addr | x in s0.mem && Plain(s0, x) && Outside(bs, p, x)
      ensures Kept(s0, s, x, x)
    {
      assert Kept(s0, s1, x, x);
      assert Kept(s1, s, x, x);
    }
  }

  lemma AsideGrown(s0: State, s0': State, s: State, bs: seq<Block>, p: Addr)
    requires s0' == s0.(mem := s0'.mem) && Aside(s0', s, bs, p)
    requires forall x :: x in s0.mem ==> x in s0'.mem && s0'.mem[x] == s0.mem[x]
    ensures Aside(s0, s, bs, p)
  {
    hide Plain, Outside;
    forall x: Addr | x in s0.mem && Plain(s0, x) && Outside(bs, p, x)
      ensures Kept(s0, s, x, x)
    {
      PlainIs(s0, s0', x);
      assert Kept(s0', s, x, x);
    }
  }

  // No cell of the chunks is allocated.
  ghost predicate Released(m: Mem, bs: seq<Block>) {
    forall i, x: Addr :: 0 <= i < |bs| && Within(bs[i], x) ==> x !in m
  }

  // The n cells at a touch none of the chunks.
  ghost predicate Misses(bs: seq<Block>, a: Addr, n: nat) {
    forall i, x: Addr :: 0 <= i < |bs| && Within(bs[i], x) ==> !(a <= x < a + n)
  }

  // No chain passes through a chunk, and no waiting location and no object lies in one.
  ghost predicate NoneInside(s: State, bs: seq<Block>) {
    && (forall id, a :: id in s.links && a in s.links[id] ==> Misses(bs, a, PTR))
    && (forall id, a :: id in s.copies && a in s.copies[id] ==> Misses(bs, a, PTR))
    && (forall a :: a in s.regs ==> Misses(bs, a, Size(s.regs[a])))
    && (forall id :: id in s.iht && s.iht[id].ptr != NULL ==> Misses(bs, s.iht[id].ptr, s.iht[id].size))
  }

  lemma SpanMisses(m: Mem, bs: seq<Block>, a: Addr, n: nat)
    requires Released(m, bs) && Span(m, a, n)
    ensures Misses(bs, a, n)
  {
    hide Within;
    forall i, x: Addr | 0 <= i < |bs| && Within(bs[i], x)
      ensures !(a <= x < a + n)
    {
      assert x !in m;
    }
  }

  lemma NothingInside(s: State, bs: seq<Block>)
    requires Threads(s) && Released(s.mem, bs)
    ensures NoneInside(s, bs)
  {
    LaidOf(s);
    ThreadsKeys(s);
    hide Threads, Misses, Released;
    forall id | id in s.iht
      ensures forall a :: a in s.links[id] || a in s.copies[id] ==> Misses(bs, a, PTR)
      ensures s.iht[id].ptr != NULL ==> Misses(bs, s.iht[id].ptr, s.iht[id].size)
    {
      EntryCells(s, id);
      forall a | a in s.links[id] || a in s.copies[id]
        ensures Misses(bs, a, PTR)
      {
        assert Span(s.mem, a, Size(s.regs[a]));
        SpanMisses(s.mem, bs, a, PTR);
      }
      if s.iht[id].ptr != NULL {
        ObjectSpan(s, id);
        SpanMisses(s.mem, bs, s.iht[id].ptr, s.iht[id].size);
      }
    }
    forall a | a in s.regs
      ensures Misses(bs, a, Size(s.regs[a]))
    {
      SpanMisses(s.mem, bs, a, Size(s.regs[a]));
    }
  }

  lemma ObjectSpan(s: State, id: string)
    requires Threads(s) && id in s.iht && s.iht[id].ptr != NULL
    ensures Span(s.mem, s.iht[id].ptr, s.iht[id].size)
  {
    assert EntryOK(s.mem, s.regs, id, s.iht[id], s.links[id], s.copies[id]);
  }

  // ---- the operation ----

  // What flattening the chunks bs, oldest first, to p makes of the state s0.
  ghost predicate Flattened(s0: State, s: State, bs: seq<Block>, p: Addr) {
    // the id/href structure is the old one at its new places
    && Threads(s) && Relocated(s0, s, Moves(bs, p))
    // the data cells lie end to end at p, and nothing else was written
    && DataFlat(s0, s.mem, bs, p) && Aside(s0, s, bs, p)
    // and the table is as good as it was unless a filled cell pointed into a chunk
    && (Good(s0) ==> (Good(s) <==> !HoldsIntoBlocks(s0, bs)))
  }

  lemma FlatDone(s0: State, s1: State, s: State, bs: seq<Block>, p: Addr, n: nat)
    requires s1 == s0.(mem := s1.mem) && Threads(s0) && (FilledHold(s0) ==> FilledHold(s1))
    requires forall i, x :: 0 <= i < |bs| && InData(bs[i], x) && x in s0.mem ==> x in s1.mem && s1.mem[x] == s0.mem[x]
    requires Ready(s1, bs, p, n) && Layout(bs, p, n) && Flat(s1, s, bs, |bs|, p, n) && Aside(s0, s, bs, p)
    ensures Flattened(s0, s, bs, p)
  {
    hide Threads, Ready, Layout, Relocated, DirectKept, Moves, Total, Good, FilledHold, Aside;
    FlatParts(s1, s, bs, p, n);
    RelocatedIs(s0, s1, s, Moves(bs, p));
    GoodIs(s0);
    GoodIs(s1);
    ReadyThreads(s1, bs, p, n);
    if Good(s0) {
      GoodAfter(s1, s, bs, p, n);
      HoldsIs(s0, s1, bs);
    }
    forall i, x: Addr | 0 <= i < |bs| && InData(bs[i], x) && Plain(s0, x) && x in s0.mem
      ensures p + Total(bs[..i]) + (x - Data(bs[i])) in s.mem
      ensures s.mem[p + Total(bs[..i]) + (x - Data(bs[i]))] == s0.mem[x]
    {
      hide Plain, InData;
      PlainIs(s0, s1, x);
      assert Kept(s1, s, Where(bs, p, |bs|, i, x), x);
    }
  }

  lemma RelocatedIs(s0: State, s1: State, s: State, mvs: seq<Move>)
    requires s1 == s0.(mem := s1.mem) && Relocated(s1, s, mvs)
    ensures Relocated(s0, s, mvs)
  {
  }

  lemma HoldsIs(s0: State, s1: State, bs: seq<Block>)
    requires s1 == s0.(mem := s1.mem)
    ensures HoldsIntoBlocks(s0, bs) <==> HoldsIntoBlocks(s1, bs)
  {
    assert forall a: Addr :: Direct(s0, a) <==> Direct(s1, a);
    assert forall a: Addr :: Target(s0, a) == Target(s1, a);
  }

  lemma PlainIs(s0: State, s1: State, x: Addr)
    requires s1 == s0.(mem := s1.mem) && Plain(s0, x)
    ensures Plain(s1, x)
  {
  }

  // None of the chunks from the k-th on holds anything the table knows.
  ghost predicate Unrelated(s: State, bs: seq<Block>, k: nat) {
    forall i :: k <= i < |bs| ==> AllApart(s, Data(bs[i]), bs[i].size)
  }

  lemma UnrelatedNext(s1: State, s: State, m2: Mem, m': Mem, bs: seq<Block>, k: nat, p: Addr, n: nat)
    requires Unrelated(s, bs, k) && k < |bs| && Layout(bs, p, n) && Positive(s)
    requires MoveOK(s.mem, s.iht, s.regs, MoveOf(bs[k], p + Total(bs[..k])))
    ensures Unrelated(ShiftState(s, MoveOf(bs[k], p + Total(bs[..k])), m'), bs, k + 1)
  {
    TotalNext(bs, k);
    hide Positive, MoveOK, AllApart, Total, ShiftState;
    var mv := MoveOf(bs[k], p + Total(bs[..k]));
    forall i | k + 1 <= i < |bs|
      ensures AllApart(ShiftState(s, mv, m'), Data(bs[i]), bs[i].size)
    {
      assert Apart(bs[i].base, HDR + bs[i].cap, p, n);
      ApartMoved(s, m', mv, Data(bs[i]), bs[i].size);
    }
  }

  lemma UnrelatedStart(s: State, s1: State, bs: seq<Block>)
    requires s1 == s.(mem := s1.mem) && forall i :: 0 <= i < |bs| ==> AllApart(s, Data(bs[i]), bs[i].size)
    ensures Unrelated(s1, Reverse(bs), 0)
  {
    hide AllApart;
    forall i | 0 <= i < |bs|
      ensures AllApart(s1, Data(Reverse(bs)[i]), Reverse(bs)[i].size)
    {
      ReverseAt(bs, i);
      ApartIs(s, s1, Data(bs[|bs| - 1 - i]), bs[|bs| - 1 - i].size);
    }
  }

  // The list from the k-th chunk on, and the memory to move to, for one turn.
  lemma TurnOK(s1: State, s: State, bs: seq<Block>, k: nat, p: Addr, n: nat, head: int)
    requires Flat(s1, s, bs, k, p, n) && k < |bs| && BlocksOK(s.mem, head, bs[k..])
    ensures Threads(s) && Positive(s) && bs[k].size <= n - Total(bs[..k]) && Ready(s, bs[k..], p + Total(bs[..k]), n - Total(bs[..k]))
    ensures MoveOK(s.mem, s.iht, s.regs, MoveOf(bs[k], p + Total(bs[..k]))) && bs[k..][0] == bs[k]
    ensures forall i :: 0 <= i < |bs[k..]| ==> BlockOK(s.mem, bs[k..][i])
  {
    hide Relocated, DirectKept, Arrived, Threads, Positive, Room, AllClearly, MoveOK, MoveOf, Total;
    assert bs[k..][0] == bs[k];
    ReadyMoveOK(s, bs[k..], p + Total(bs[..k]), n - Total(bs[..k]));
  }

  // soap_first_block, then one turn for each chunk.
  method Gather(soap: Soap, b: BList, p: Addr, flag: bool)
    requires Flattenable(soap.Now(), b.blocks) && BlocksOK(soap.mem, b.ptr, b.blocks) && b.Recorded() && Total(b.blocks) <= b.size
    requires !flag ==> forall i :: 0 <= i < |b.blocks| ==> AllApart(soap.Now(), Data(b.blocks[i]), b.blocks[i].size)
    requires Room(soap.Now(), b.blocks, p, b.size)
    modifies soap, b`ptr, b`blocks
    ensures b.blocks == [] && BlocksOK(soap.mem, b.ptr, b.blocks)
    ensures Flattened(old(soap.Now()), soap.Now(), Reverse(old(b.blocks)), p) && soap.error == old(soap.error)
    ensures Gone(old(soap.mem), soap.mem, old(b.blocks), |old(b.blocks)|)
  {
    hide Flattenable, Room, AllApart, Ready, Layout, Flat, Flattened, Unrelated, Threads, Positive, AllChained, Moved, MoveOK,
         ShiftState, Total, BlockOK, Relinked, InData, FilledHold, BlocksOK, Gone, Aside;
    ghost var s0, bs0, n, head := soap.Now(), b.blocks, b.size, b.ptr;
    FlattenableThreads(s0, bs0);
    var q := FirstBlock(soap, b);
    ghost var bs, s1 := b.blocks, soap.Now();
    TurnedReady(s0, soap.mem, head, b.ptr, bs0, p, n);
    DataKept(s0, s1, bs0);
    FlatStart(s1, bs, p, n);
    AsideStart(s0, s1, bs0, p);
    AsideItself(s1, bs, p);
    RelinkedKeys(s0.mem, s1.mem, Bases(bs0));
    GoneNothing(s1.mem, s1.mem, bs);
    if !flag {
      UnrelatedStart(s0, s1, bs0);
    }
    ghost var k := 0;
    var s := p;
    TotalNone(bs);
    while q != NULL
      invariant k <= |bs| && Collecting(soap.Now(), b.blocks, b.ptr, q, s1, bs, k, p, n, s, flag)
      invariant b.Recorded() && soap.error == s0.error
      decreases |bs| - k
    {
      CollectingIs(soap.Now(), b.blocks, b.ptr, q, s1, bs, k, p, n, s, flag);
      var m;
      q, m := GatherOne(soap, b, q, s, flag, s1, bs, k, p, n);
      s := s + m;
      k := k + 1;
    }
    CollectingIs(soap.Now(), b.blocks, b.ptr, q, s1, bs, k, p, n, s, flag);
    AsideTrans(s0, s1, soap.Now(), bs, p);
    FlatDone(s0, s1, soap.Now(), bs, p, n);
    GoneReverse(s0.mem, s1.mem, soap.mem, bs0);
  }

  lemma RelinkedKeys(m: Mem, m': Mem, ps: seq<Addr>)
    requires Relinked(m, m', ps)
    ensures m'.Keys == m.Keys
  {
  }

  lemma ClearMirror(bs: seq<Block>, cs: seq<Block>, x: Addr)
    requires |cs| == |bs| && (forall i :: 0 <= i < |bs| ==> Mirrored(bs, cs, i)) && Clear(cs, |cs|, x)
    ensures Clear(bs, |bs|, x)
  {
    hide Within;
    forall i | 0 <= i < |bs|
      ensures !Within(bs[i], x)
    {
      assert Mirrored(bs, cs, i);
    }
  }

  ghost predicate Mirrored(bs: seq<Block>, cs: seq<Block>, i: nat)
    requires i < |bs| == |cs|
  {
    cs[|bs| - 1 - i] == bs[i]
  }

  lemma MirrorAll(bs: seq<Block>)
    ensures forall i :: 0 <= i < |bs| ==> Mirrored(bs, Reverse(bs), i) && Mirrored(Reverse(bs), bs, i)
  {
    forall i | 0 <= i < |bs|
      ensures Mirrored(bs, Reverse(bs), i) && Mirrored(Reverse(bs), bs, i)
    {
      ReverseAt(bs, i);
      ReverseAt(bs, |bs| - 1 - i);
    }
  }

  lemma ClearMirrors(bs: seq<Block>, cs: seq<Block>, x: Addr)
    requires |cs| == |bs| && forall i :: 0 <= i < |bs| ==> Mirrored(bs, cs, i) && Mirrored(cs, bs, i)
    ensures Clear(cs, |bs|, x) <==> Clear(bs, |bs|, x)
  {
    hide Clear, Mirrored;
    if Clear(cs, |bs|, x) {
      ClearMirror(bs, cs, x);
    }
    if Clear(bs, |bs|, x) {
      ClearMirror(cs, bs, x);
    }
  }

  lemma ClearReverse(bs: seq<Block>, x: Addr)
    ensures Clear(Reverse(bs), |bs|, x) <==> Clear(bs, |bs|, x)
  {
    hide Clear, Mirrored, Reverse;
    MirrorAll(bs);
    ClearMirrors(bs, Reverse(bs), x);
  }

  // It does not matter in which order the chunks were freed.
  lemma GoneReverse(m0: Mem, m1: Mem, m: Mem, bs: seq<Block>)
    requires m1.Keys == m0.Keys && Gone(m1, m, Reverse(bs), |bs|)
    ensures Gone(m0, m, bs, |bs|)
  {
    hide Clear, Reverse;
    forall x: Addr
      ensures x in m <==> x in m0 && Clear(bs, |bs|, x)
    {
      ClearReverse(bs, x);
      assert x in m1.Keys <==> x in m0.Keys;
      assert x in m <==> x in m1 && Clear(Reverse(bs), |bs|, x);
    }
  }

  lemma GoneReleased(m0: Mem, m: Mem, bs: seq<Block>)
    requires Gone(m0, m, bs, |bs|)
    ensures Released(m, bs)
  {
  }

  lemma FreedGone(m0: Mem, m: Mem, bs: seq<Block>)
    requires Freed(m0, m, bs, |bs|)
    ensures Gone(m0, m, bs, |bs|)
  {
  }

  lemma FlattenedThreads(s0: State, s: State, bs: seq<Block>, p: Addr)
    requires Flattened(s0, s, bs, p)
    ensures Threads(s)
  {
  }

  // The first k chunks are in place and freed; q is the data of the next one, to be
  // moved to s.
  ghost predicate Collecting(now: State, blocks: seq<Block>, head: Addr, q: Addr, s1: State, bs: seq<Block>, k: nat, p: Addr, n: nat, s: Addr, flag: bool)
    requires k <= |bs|
  {
    && blocks == bs[k..] && BlocksOK(now.mem, head, blocks)
    && q == (if blocks == [] then NULL else Data(blocks[0]))
    && Flat(s1, now, bs, k, p, n) && s == p + Total(bs[..k])
    && Gone(s1.mem, now.mem, bs, k) && Aside(s1, now, bs, p)
    && (!flag ==> Unrelated(now, bs, k))
  }

  lemma CollectingIs(now: State, blocks: seq<Block>, head: Addr, q: Addr, s1: State, bs: seq<Block>, k: nat, p: Addr, n: nat, s: Addr, flag: bool)
    requires k <= |bs| && Collecting(now, blocks, head, q, s1, bs, k, p, n, s, flag)
    ensures blocks == bs[k..] && BlocksOK(now.mem, head, blocks) && Flat(s1, now, bs, k, p, n)
    ensures Gone(s1.mem, now.mem, bs, k) && Aside(s1, now, bs, p)
    ensures q == NULL ==> k == |bs|
    ensures q != NULL ==> k < |bs|
  {
  }

  // Moves one chunk and frees it.
  method GatherOne(soap: Soap, b: BList, q: Addr, s: Addr, flag: bool, ghost s1: State, ghost bs: seq<Block>, ghost k: nat, ghost p: Addr, ghost n: nat)
    returns (q': Addr, m: nat)
    requires k < |bs| && Collecting(soap.Now(), b.blocks, b.ptr, q, s1, bs, k, p, n, s, flag) && b.Recorded() && q != NULL && Layout(bs, p, n)
    modifies soap, b`ptr, b`blocks
    ensures Collecting(soap.Now(), b.blocks, b.ptr, q', s1, bs, k + 1, p, n, s + m, flag)
    ensures b.Recorded() && soap.error == old(soap.error)
  {
    hide Flattenable, Room, AllApart, Ready, Layout, Flat, Flattened, Unrelated, Threads, Positive, AllChained, Moved, MoveOK,
         ShiftState, Total, BlockOK, Relinked, InData, FilledHold, BlocksOK, Gone, Aside;
    ghost var was, h := soap.Now(), b.ptr;
    HeadOf(was.mem, h, bs[k..]);
    TurnOK(s1, was, bs, k, p, n, h);
    m := BlockSizeOf(soap, b);
    if !flag {
      UnrelatedAt(was, bs, k);
    }
    ghost var ds := MoveChunk(soap, q, m, s, flag);
    ghost var m2 := soap.mem;
    HeadersKept(was, m2, bs[k..], h, s, n - Total(bs[..k]), ds);
    q' := NextBlock(soap, b);
    StateOther(was, MoveOf(bs[k], p + Total(bs[..k])), m2, soap.mem);
    FlatNext(s1, was, m2, bs, k, p, n, ds);
    MovedKeys(was.mem, m2, MoveOf(bs[k], p + Total(bs[..k])), ds);
    GoneNext(s1.mem, was.mem, m2, bs, k);
    LayoutAt(bs, k, p, n);
    AsideNext(s1, was, m2, bs, k, p, ds);
    if !flag {
      UnrelatedNext(s1, was, m2, soap.mem, bs, k, p, n);
    }
    TotalNext(bs, k);
  }

  lemma LayoutAt(bs: seq<Block>, k: nat, p: Addr, n: nat)
    requires Layout(bs, p, n) && k < |bs|
    ensures bs[k].size <= bs[k].cap
  {
  }

  lemma HeadOf(m: Mem, h: int, bs: seq<Block>)
    requires BlocksOK(m, h, bs)
    ensures h == NULL <==> bs == []
  {
  }

  lemma TotalNone(bs: seq<Block>)
    ensures Total(bs[..0]) == 0
  {
  }

  lemma UnrelatedAt(s: State, bs: seq<Block>, k: nat)
    requires Unrelated(s, bs, k) && k < |bs|
    ensures AllApart(s, Data(bs[k]), bs[k].size)
  {
  }

  lemma FlattenableThreads(s: State, bs: seq<Block>)
    requires Flattenable(s, bs)
    ensures Threads(s)
  {
  }

  lemma DataKept(s0: State, s1: State, bs0: seq<Block>)
    requires forall i, x :: 0 <= i < |bs0| && InData(bs0[i], x) && x in s0.mem ==> x in s1.mem && s1.mem[x] == s0.mem[x]
    ensures forall i, x :: 0 <= i < |Reverse(bs0)| && InData(Reverse(bs0)[i], x) && x in s0.mem ==> x in s1.mem && s1.mem[x] == s0.mem[x]
  {
    forall i, x | 0 <= i < |bs0| && InData(Reverse(bs0)[i], x) && x in s0.mem
      ensures x in s1.mem && s1.mem[x] == s0.mem[x]
    {
      ReverseAt(bs0, i);
    }
  }

  // The state with the fresh region added is as flattenable as before.
  lemma PrepareFresh(s: State, bs: seq<Block>, head: int, p: Addr, n: nat, cells: Mem)
    requires Flattenable(s, bs) && BlocksOK(s.mem, head, bs) && Fresh(s.mem, p, n, cells) && n > 0 && Total(bs) <= n
    ensures var s' := s.(mem := s.mem + cells);
            Flattenable(s', bs) && BlocksOK(s'.mem, head, bs) && Room(s', bs, p, n) && (FilledHold(s) ==> FilledHold(s'))
    ensures forall i :: 0 <= i < |bs| ==> (AllApart(s, Data(bs[i]), bs[i].size) <==> AllApart(s.(mem := s.mem + cells), Data(bs[i]), bs[i].size))
  {
    hide Threads, Positive, FilledHold, BlocksOK, Room, SameObjects, AllClearly, AllApart, Total;
    var s' := s.(mem := s.mem + cells);
    FreshRoom(s, bs, head, p, n, cells);
    ThreadsFrame(s, s.mem + cells);
    PositiveIs(s, s');
    forall i | 0 <= i < |bs|
      ensures AllClearly(s', bs[i])
      ensures AllApart(s, Data(bs[i]), bs[i].size) <==> AllApart(s', Data(bs[i]), bs[i].size)
    {
      ClearlyIs(s, s', bs[i]);
      ApartSame(s, s', Data(bs[i]), bs[i].size);
    }
  }

  lemma ApartSame(s: State, s': State, c: Addr, n: nat)
    requires s'.regs == s.regs && s'.iht == s.iht
    ensures AllApart(s, c, n) <==> AllApart(s', c, n)
  {
  }

  // Flattening after the region was allocated is flattening from before.
  lemma FlattenedGrown(s0: State, s0': State, s: State, bs: seq<Block>, p: Addr)
    requires s0' == s0.(mem := s0'.mem) && Flattened(s0', s, bs, p) && Threads(s0) && Threads(s0')
    requires FilledHold(s0) ==> FilledHold(s0')
    requires forall x :: x in s0.mem ==> x in s0'.mem && s0'.mem[x] == s0.mem[x]
    ensures Flattened(s0, s, bs, p)
  {
    hide Threads, FilledHold, Good, Relocated, HoldsIntoBlocks, Moves, Plain, Total, Aside;
    AsideGrown(s0, s0', s, bs, p);
    GoodIs(s0);
    GoodIs(s0');
    RelocatedIs(s0, s0', s, Moves(bs, p));
    HoldsIs(s0, s0', bs);
    DataGrown(s0, s0', s, bs, p);
  }

  // The data cells of the chunks lie end to end at p.
  ghost predicate DataFlat(s0: State, m: Mem, bs: seq<Block>, p: Addr) {
    forall i, x: Addr :: 0 <= i < |bs| && InData(bs[i], x) && Plain(s0, x) && x in s0.mem ==>
                           p + Total(bs[..i]) + (x - Data(bs[i])) in m
                           && m[p + Total(bs[..i]) + (x - Data(bs[i]))] == s0.mem[x]
  }

  lemma DataGrown(s0: State, s0': State, s: State, bs: seq<Block>, p: Addr)
    requires s0' == s0.(mem := s0'.mem) && DataFlat(s0', s.mem, bs, p)
    requires forall x :: x in s0.mem ==> x in s0'.mem && s0'.mem[x] == s0.mem[x]
    ensures DataFlat(s0, s.mem, bs, p)
  {
    hide Plain, Total, InData;
    forall i, x: Addr | 0 <= i < |bs| && InData(bs[i], x) && Plain(s0, x) && x in s0.mem
      ensures p + Total(bs[..i]) + (x - Data(bs[i])) in s.mem
      ensures s.mem[p + Total(bs[..i]) + (x - Data(bs[i]))] == s0.mem[x]
    {
      PlainIs(s0, s0', x);
    }
  }

  // Collects all chunks, in the order they were pushed, in the cells at p0, or
  // at a freshly allocated address a (NULL when the allocator fails) if p0 is
  // NULL, and frees the chunks.  With flag, the id/href table is kept in step.
  method SaveBlocks(soap: Soap, b: BList, p0: Addr, a: Addr, cells: Mem, flag: bool) returns (p: Addr)
    requires Flattenable(soap.Now(), b.blocks) && BlocksOK(soap.mem, b.ptr, b.blocks) && b.Recorded() && Total(b.blocks) <= b.size
    requires !flag ==> forall i :: 0 <= i < |b.blocks| ==> AllApart(soap.Now(), Data(b.blocks[i]), b.blocks[i].size)
    requires p0 != NULL ==> Room(soap.Now(), b.blocks, p0, b.size)
    requires p0 == NULL && a != NULL ==> Fresh(soap.mem, a, b.size, cells)
    modifies soap, b
    ensures b.blocks == [] && b.ptr == NULL
    ensures p == if old(b.size) != 0 && p0 == NULL then a else p0
    ensures p == NULL && old(b.size) != 0 ==> soap.error == Eom
    ensures p != NULL && old(b.size) != 0 ==> Flattened(old(soap.Now()), soap.Now(), Reverse(old(b.blocks)), p) && soap.error == old(soap.error)
    ensures p != NULL && old(b.size) != 0 ==> NoneInside(soap.Now(), old(b.blocks))
    ensures Gone(if old(b.size) != 0 && p0 == NULL && a != NULL then old(soap.mem) + cells else old(soap.mem), soap.mem,
                 old(b.blocks), |old(b.blocks)|)
    ensures Released(soap.mem, old(b.blocks))
    ensures p == NULL || old(b.size) == 0 ==> Freed(old(soap.mem), soap.mem, old(b.blocks), |old(b.blocks)|)
                                              && soap.Now() == old(soap.Now()).(mem := soap.mem, error := soap.error)
  {
    hide Flattenable, BlocksOK, Room, AllApart, Flattened, Threads, FilledHold, Total, Gone, Freed, Released, NoneInside;
    ghost var bs0, m0 := b.blocks, soap.mem;
    p := p0;
    if b.size != 0 {
      ghost var s0 := soap.Now();
      if p == NULL && a != NULL {
        p := a;
        PrepareFresh(s0, b.blocks, b.ptr, a, b.size, cells);
        soap.mem := soap.mem + cells;
      }
      ghost var s0' := soap.Now();
      if p != NULL {
        FlattenableThreads(s0, b.blocks);
        FlattenableThreads(s0', b.blocks);
        Gather(soap, b, p, flag);
        FlattenedGrown(s0, s0', soap.Now(), Reverse(old(b.blocks)), p);
        GoneReleased(s0'.mem, soap.mem, bs0);
        FlattenedThreads(s0, soap.Now(), Reverse(bs0), p);
        NothingInside(soap.Now(), bs0);
      } else {
        soap.error := Eom;
      }
    }
    ghost var m, bs := soap.mem, b.blocks;
    EndBlock(soap, b);
    if old(b.size) != 0 && p != NULL {
      FreedAll(m, soap.mem, bs);
    } else {
      FreedGone(m0, soap.mem, bs0);
      GoneReleased(m0, soap.mem, bs0);
    }
  }

  // A chunk at 100, the last of its list, with eight bytes of data, a pointer cell
  // at 200 and room for the data at 300.
  const CHUNK: Block := Block(100, 8, 8)

  function Cell(x: Addr): int {
    if x == CHUNK.base + PTR then CHUNK.size else 0
  }

  function Start(): Mem {
    map x: Addr | 100 <= x < 308 && (x < 116 || 200 <= x < 204 || 300 <= x) :: Cell(x)
  }

  // An element with id "#a" parsed into the chunk, and then a reference to it.
  ghost function DefinedThenReferenced(): State {
    Lookup(Enter(State(Start(), map[], Ok, "", map[], map[], map[]), "#a", 108, 1, 8), "#a", 200, 1, 8)
  }

  lemma DefinedThenReferencedIs()
    ensures var s := DefinedThenReferenced();
            s.regs == map[200 := Ref("#a")] && s.iht == map["#a" := Blank(1, 8).(ptr := 108)]
            && s.links == map["#a" := []] && s.copies == map["#a" := []] && s.mem == Store(Start(), 200, 108)
  {
  }

  /** Such a reference is filled at once with an address inside the chunk.  The table is
      in order and the chunk ready to be flattened, but afterwards the cell holds an
      address that is no longer allocated. */
  lemma FilledCellDangles()
    ensures var s := DefinedThenReferenced();
            Good(s) && Flattenable(s, [CHUNK]) && BlocksOK(s.mem, CHUNK.base, [CHUNK]) && Room(s, [CHUNK], 300, Total([CHUNK]))
    ensures forall s, p: Addr, n :: Room(DefinedThenReferenced(), [CHUNK], p, n) && Flattened(DefinedThenReferenced(), s, [CHUNK], p)
                                    && Released(s.mem, [CHUNK]) ==>
                                      !Good(s) && 200 in s.mem && s.mem[200] == 108 && 108 !in s.mem
  {
    var s := DefinedThenReferenced();
    hide DefinedThenReferenced, Flattened, Room, Flattenable, BlocksOK, Good, Released, Threads, Blank, Start;
    DefinedThenReferencedIs();
    DefinedThenReferencedGood();
    GoodIs(s);
    ChunkReady(s);
    forall s', p: Addr, n | Room(s, [CHUNK], p, n) && Flattened(s, s', [CHUNK], p) && Released(s'.mem, [CHUNK])
      ensures !Good(s') && 200 in s'.mem && s'.mem[200] == 108 && 108 !in s'.mem
    {
      Dangling(s, s', p, n);
    }
  }

  lemma DefinedThenReferencedGood()
    ensures Good(DefinedThenReferenced())
  {
    var s0 := State(Start(), map[], Ok, "", map[], map[], map[]);
    assert Good(s0);
    EnterStepKeeps(s0, "#a", 108, 1, 8);
    hide Good, Inv;
    LookupKeeps(Enter(s0, "#a", 108, 1, 8), "#a", 200, 1, 8);
  }

  lemma Dangling(s: State, s': State, p: Addr, n: nat)
    requires Good(s) && s.regs == map[200 := Ref("#a")] && s.iht == map["#a" := Blank(1, 8).(ptr := 108)]
    requires s.links == map["#a" := []] && s.copies == map["#a" := []] && s.mem == Store(Start(), 200, 108)
    requires Room(s, [CHUNK], p, n) && Flattened(s, s', [CHUNK], p) && Released(s'.mem, [CHUNK])
    ensures !Good(s') && 200 in s'.mem && s'.mem[200] == 108 && 108 !in s'.mem
  {
    hide Good, Threads, Relocated, DataFlat;
    assert Direct(s, 200) && InData([CHUNK][0], Target(s, 200));
    assert Within([CHUNK][0], 108);
    assert Outside([CHUNK], p, 200);
    assert Kept(s, s', 200, 200);
  }

  lemma ChunkReady(s: State)
    requires Threads(s) && s.regs == map[200 := Ref("#a")] && s.iht == map["#a" := Blank(1, 8).(ptr := 108)]
    requires s.mem == Store(Start(), 200, 108)
    ensures Flattenable(s, [CHUNK]) && BlocksOK(s.mem, CHUNK.base, [CHUNK]) && Room(s, [CHUNK], 300, Total([CHUNK]))
  {
    hide Threads;
    assert [CHUNK][1..] == [] && Bases([CHUNK]) == [CHUNK.base];
    assert Chain(s.mem, CHUNK.base, [CHUNK.base]) by {
      assert [CHUNK.base][1..] == [];
    }
  }
}
