/** soap_save_block: flattening a block list while the id/href structure runs
    through it. */
module Flatten {
  import opened Memory
  import opened IdRef
  import opened Relocation
  import opened Update
  import opened Blocks

  // A region lies in the data of the chunk, or wholly outside the chunk.
  ghost predicate Clearly(b: Block, a: Addr, m: nat) {
    Inside(a, m, Data(b), b.size) || Apart(a, m, b.base, HDR + b.cap)
  }

  // Every registered location and every defined object is a region for which P holds.
  ghost predicate AllClearly(s: State, b: Block) {
    && (forall a :: a in s.regs ==> Clearly(b, a, Size(s.regs[a])))
    && (forall id :: id in s.iht && s.iht[id].ptr != NULL ==> Clearly(b, s.iht[id].ptr, s.iht[id].size))
  }

  ghost predicate AllApart(s: State, c: Addr, n: nat) {
    && (forall a :: a in s.regs ==> Apart(a, Size(s.regs[a]), c, n))
    && (forall id :: id in s.iht && s.iht[id].ptr != NULL ==> Apart(s.iht[id].ptr, s.iht[id].size, c, n))
  }

  ghost predicate Positive(s: State) {
    && (forall a :: a in s.regs ==> Size(s.regs[a]) > 0)
    && (forall id :: id in s.iht && s.iht[id].ptr != NULL ==> s.iht[id].size > 0)
  }

  // The n cells at room are there to receive the chunks bs.
  ghost predicate Room(s: State, bs: seq<Block>, room: Addr, n: nat) {
    && room != NULL && Span(s.mem, room, n) && AllApart(s, room, n) && Total(bs) <= n
    && forall i :: 0 <= i < |bs| ==> Apart(bs[i].base, HDR + bs[i].cap, room, n)
  }

  ghost predicate Ready(s: State, bs: seq<Block>, room: Addr, n: nat) {
    && Threads(s) && Positive(s) && Room(s, bs, room, n)
    && forall i :: 0 <= i < |bs| ==> AllClearly(s, bs[i])
  }

  function MoveOf(b: Block, room: Addr): Move {
    Move(Data(b), b.size, room)
  }

  lemma TotalCons(bs: seq<Block>)
    requires bs != []
    ensures Total(bs) == bs[0].size + Total(bs[1..])
  {
  }

  lemma ReadyMoveOK(s: State, bs: seq<Block>, room: Addr, n: nat)
    requires Ready(s, bs, room, n) && bs != [] && BlockOK(s.mem, bs[0])
    ensures bs[0].size <= n
    ensures MoveOK(s.mem, s.iht, s.regs, MoveOf(bs[0], room))
  {
    hide Threads, Total;
    var b := bs[0];
    TotalCons(bs);
    assert AllClearly(s, b);
    assert Apart(b.base, HDR + b.cap, room, n);
    assert Span(s.mem, room, b.size);
  }

  // ---- one chunk moved ----

  lemma OneApart(mv: Move, a: Addr, m: nat, c: Addr, k: nat)
    requires m > 0 && Movable(mv, a, m) && Apart(a, m, c, k) && Apart(mv.s, mv.n, c, k)
    ensures Apart(Shift(mv, a), m, c, k)
  {
  }

  lemma OneClearly(mv: Move, a: Addr, m: nat, c: Block)
    requires m > 0 && Movable(mv, a, m) && Clearly(c, a, m) && c.size <= c.cap
    requires Apart(mv.s, mv.n, c.base, HDR + c.cap) && Apart(mv.q, mv.n, c.base, HDR + c.cap)
    ensures Clearly(c, Shift(mv, a), m)
  {
  }

  lemma OneEmptied(b: Block, room: Addr, a: Addr, m: nat)
    requires m > 0 && Movable(MoveOf(b, room), a, m) && Clearly(b, a, m) && Apart(room, b.size, b.base, HDR + b.cap)
    ensures Apart(Shift(MoveOf(b, room), a), m, b.base, HDR + b.cap)
  {
  }

  // What there is to know about an object of the state after the move.
  lemma MovedReg(s: State, mv: Move, x: Addr)
    requires Positive(s) && MoveOK(s.mem, s.iht, s.regs, mv) && x in ShiftRegs(mv, s.regs)
    ensures Back(mv, x) in s.regs && Shift(mv, Back(mv, x)) == x && ShiftRegs(mv, s.regs)[x] == s.regs[Back(mv, x)]
    ensures Size(s.regs[Back(mv, x)]) > 0 && Movable(mv, Back(mv, x), Size(s.regs[Back(mv, x)]))
  {
    ShiftRegsAt(mv, s.regs);
  }

  lemma ApartMoved(s: State, mem': Mem, mv: Move, c: Addr, k: nat)
    requires Positive(s) && MoveOK(s.mem, s.iht, s.regs, mv) && AllApart(s, c, k) && Apart(mv.s, mv.n, c, k)
    ensures AllApart(ShiftState(s, mv, mem'), c, k)
  {
    hide Shift, Back, Movable, Apart, ShiftRegs, Size;
    var s' := ShiftState(s, mv, mem');
    forall x | x in s'.regs
      ensures Apart(x, Size(s'.regs[x]), c, k)
    {
      MovedReg(s, mv, x);
      OneApart(mv, Back(mv, x), Size(s'.regs[x]), c, k);
    }
    forall id | id in s'.iht && s.iht[id].ptr != NULL
      ensures Apart(s'.iht[id].ptr, s'.iht[id].size, c, k)
    {
      OneApart(mv, s.iht[id].ptr, s.iht[id].size, c, k);
    }
    ShiftNull(mv);
  }

  lemma ShiftNull(mv: Move)
    requires mv.q != NULL
    ensures Shift(mv, NULL) == NULL
  {
  }

  // Objects are clear of another chunk, or inside it, as before.
  lemma ClearlyMoved(s: State, mem': Mem, mv: Move, c: Block)
    requires Positive(s) && MoveOK(s.mem, s.iht, s.regs, mv) && AllClearly(s, c) && c.size <= c.cap
    requires Apart(mv.s, mv.n, c.base, HDR + c.cap) && Apart(mv.q, mv.n, c.base, HDR + c.cap)
    ensures AllClearly(ShiftState(s, mv, mem'), c)
  {
    hide Shift, Back, Movable, Clearly, Apart, ShiftRegs, Size;
    var s' := ShiftState(s, mv, mem');
    forall x | x in s'.regs
      ensures Clearly(c, x, Size(s'.regs[x]))
    {
      MovedReg(s, mv, x);
      OneClearly(mv, Back(mv, x), Size(s'.regs[x]), c);
    }
    forall id | id in s'.iht && s.iht[id].ptr != NULL
      ensures Clearly(c, s'.iht[id].ptr, s'.iht[id].size)
    {
      OneClearly(mv, s.iht[id].ptr, s.iht[id].size, c);
    }
    ShiftNull(mv);
  }

  // The chunk just moved holds nothing any more.
  lemma Emptied(s: State, mem': Mem, b: Block, room: Addr)
    requires Positive(s) && AllClearly(s, b)
    requires MoveOK(s.mem, s.iht, s.regs, MoveOf(b, room)) && Apart(room, b.size, b.base, HDR + b.cap)
    ensures AllApart(ShiftState(s, MoveOf(b, room), mem'), b.base, HDR + b.cap)
  {
    var mv := MoveOf(b, room);
    hide Shift, Back, Movable, Clearly, Apart, ShiftRegs, Size, MoveOf;
    var s' := ShiftState(s, mv, mem');
    forall x | x in s'.regs
      ensures Apart(x, Size(s'.regs[x]), b.base, HDR + b.cap)
    {
      MovedReg(s, mv, x);
      OneEmptied(b, room, Back(mv, x), Size(s'.regs[x]));
    }
    forall id | id in s'.iht && s.iht[id].ptr != NULL
      ensures Apart(s'.iht[id].ptr, s'.iht[id].size, b.base, HDR + b.cap)
    {
      OneEmptied(b, room, s.iht[id].ptr, s.iht[id].size);
    }
    ShiftNull(mv);
  }

  lemma PositiveMoved(s: State, mem': Mem, mv: Move)
    requires Positive(s) && MoveOK(s.mem, s.iht, s.regs, mv)
    ensures Positive(ShiftState(s, mv, mem'))
  {
    ShiftRegsAt(mv, s.regs);
  }

  // After one chunk has moved, the others are as ready as before.
  lemma ReadyMoved(s: State, mem': Mem, bs: seq<Block>, room: Addr, n: nat, ds: seq<Addr>)
    requires Ready(s, bs, room, n) && bs != [] && BlocksApart(bs) && (forall i :: 0 <= i < |bs| ==> BlockOK(s.mem, bs[i]))
    requires AllChained(s, ds) && bs[0].size <= n && MoveOK(s.mem, s.iht, s.regs, MoveOf(bs[0], room))
    requires Moved(s.mem, mem', MoveOf(bs[0], room), ds)
    ensures var s' := ShiftState(s, MoveOf(bs[0], room), mem');
            Ready(s', bs[1..], room + bs[0].size, n - bs[0].size) && AllApart(s', bs[0].base, HDR + bs[0].cap)
  {
    hide Threads, Positive, Room, AllClearly, AllApart, MoveOK, Moved, AllChained, BlocksApart, BlockOK, ShiftState, MoveOf, Total;
    var mv := MoveOf(bs[0], room);
    ThreadsMoved(s, mem', mv, ds);
    PositiveMoved(s, mem', mv);
    RoomMoved(s, mem', bs, room, n, ds);
    OthersClear(s, mem', bs, room, n);
    FirstEmptied(s, mem', bs, room, n);
  }

  lemma FirstEmptied(s: State, mem': Mem, bs: seq<Block>, room: Addr, n: nat)
    requires bs != [] && Positive(s) && Room(s, bs, room, n) && bs[0].size <= n && AllClearly(s, bs[0])
    requires MoveOK(s.mem, s.iht, s.regs, MoveOf(bs[0], room))
    ensures AllApart(ShiftState(s, MoveOf(bs[0], room), mem'), bs[0].base, HDR + bs[0].cap)
  {
    hide Positive, AllClearly, AllApart, MoveOK, ShiftState, MoveOf, Total;
    Emptied(s, mem', bs[0], room);
  }

  lemma RoomMoved(s: State, mem': Mem, bs: seq<Block>, room: Addr, n: nat, ds: seq<Addr>)
    requires bs != [] && Positive(s) && Room(s, bs, room, n) && bs[0].size <= n
    requires MoveOK(s.mem, s.iht, s.regs, MoveOf(bs[0], room)) && Moved(s.mem, mem', MoveOf(bs[0], room), ds)
    ensures Room(ShiftState(s, MoveOf(bs[0], room), mem'), bs[1..], room + bs[0].size, n - bs[0].size)
  {
    hide Positive, AllApart, MoveOK, Moved, ShiftState, Total;
    var mv := MoveOf(bs[0], room);
    SubApart(s, room, n, room + bs[0].size, n - bs[0].size);
    ApartMoved(s, mem', mv, room + bs[0].size, n - bs[0].size);
    MovedSpan(s.mem, mem', mv, ds, room, n);
    StateMem(s, mv, mem');
    TotalCons(bs);
    forall i | 0 <= i < |bs[1..]|
      ensures Apart(bs[1..][i].base, HDR + bs[1..][i].cap, room + bs[0].size, n - bs[0].size)
    {
      assert bs[1..][i] == bs[i + 1];
      assert Apart(bs[i + 1].base, HDR + bs[i + 1].cap, room, n);
    }
  }

  lemma OthersClear(s: State, mem': Mem, bs: seq<Block>, room: Addr, n: nat)
    requires bs != [] && Positive(s) && Room(s, bs, room, n) && bs[0].size <= n
    requires BlocksApart(bs) && (forall i :: 0 <= i < |bs| ==> BlockOK(s.mem, bs[i]) && AllClearly(s, bs[i]))
    requires MoveOK(s.mem, s.iht, s.regs, MoveOf(bs[0], room))
    ensures forall i :: 0 <= i < |bs[1..]| ==> AllClearly(ShiftState(s, MoveOf(bs[0], room), mem'), bs[1..][i])
  {
    hide Positive, AllApart, AllClearly, MoveOK, ShiftState, Total, BlockOK;
    var b, mv := bs[0], MoveOf(bs[0], room);
    forall i | 0 <= i < |bs[1..]|
      ensures AllClearly(ShiftState(s, mv, mem'), bs[1..][i])
    {
      var c := bs[i + 1];
      assert bs[1..][i] == c;
      BlockSize(s.mem, c);
      BlockSize(s.mem, b);
      assert Apart(b.base, HDR + b.cap, c.base, HDR + c.cap);
      assert Apart(c.base, HDR + c.cap, room, n);
      ClearlyMoved(s, mem', mv, c);
    }
  }

  lemma StateMem(s: State, mv: Move, mem': Mem)
    ensures ShiftState(s, mv, mem').mem == mem'
  {
  }

  lemma MovedSpan(mem: Mem, mem': Mem, mv: Move, ds: seq<Addr>, a: Addr, n: nat)
    requires Moved(mem, mem', mv, ds) && Span(mem, a, n)
    ensures Span(mem', a, n)
  {
  }

  lemma BlockSize(mem: Mem, b: Block)
    requires BlockOK(mem, b)
    ensures b.size <= b.cap && Span(mem, b.base, HDR + b.cap) && b.base != NULL
  {
  }

  lemma SubApart(s: State, a: Addr, n: nat, c: Addr, k: nat)
    requires AllApart(s, a, n) && Inside(c, k, a, n)
    ensures AllApart(s, c, k)
  {
  }

  // Freeing the chunk that was moved disturbs nothing.
  lemma ReadyFreed(s: State, bs: seq<Block>, room: Addr, n: nat, b: Block)
    requires Ready(s, bs, room, n) && AllApart(s, b.base, HDR + b.cap) && Span(s.mem, b.base, HDR + b.cap)
    requires Apart(b.base, HDR + b.cap, room, n)
    ensures Ready(s.(mem := Free(s.mem, b.base, HDR + b.cap)), bs, room, n)
  {
    ThreadsFreed(s, b);
    hide Threads, AllClearly, Positive;
    var s' := s.(mem := Free(s.mem, b.base, HDR + b.cap));
    assert AllApart(s', room, n);
    PositiveIs(s, s');
    forall i | 0 <= i < |bs|
      ensures AllClearly(s', bs[i])
    {
      ClearlyIs(s, s', bs[i]);
    }
  }

  lemma PositiveIs(s: State, s': State)
    requires s'.regs == s.regs && s'.iht == s.iht && Positive(s)
    ensures Positive(s')
  {
  }

  lemma ClearlyIs(s: State, s': State, b: Block)
    requires s'.regs == s.regs && s'.iht == s.iht && AllClearly(s, b)
    ensures AllClearly(s', b)
  {
  }

  lemma ThreadsFreed(s: State, b: Block)
    requires Threads(s) && Positive(s) && AllApart(s, b.base, HDR + b.cap) && Span(s.mem, b.base, HDR + b.cap)
    ensures Threads(s.(mem := Free(s.mem, b.base, HDR + b.cap)))
  {
    var m' := Free(s.mem, b.base, HDR + b.cap);
    LaidFreed(s, b);
    forall id | id in s.iht
      ensures EntryOK(m', s.regs, id, s.iht[id], s.links[id], s.copies[id])
    {
      EntryFreed(s, b, id);
    }
    hide Laid, Entries, EntryOK;
    assert forall a :: a in s.regs ==> Owned(s, a);
  }

  lemma LaidFreed(s: State, b: Block)
    requires Laid(s.mem, s.regs) && AllApart(s, b.base, HDR + b.cap) && Span(s.mem, b.base, HDR + b.cap)
    ensures Laid(Free(s.mem, b.base, HDR + b.cap), s.regs)
  {
    var m' := Free(s.mem, b.base, HDR + b.cap);
    forall a | a in s.regs
      ensures Span(m', a, Size(s.regs[a]))
    {
      assert Span(s.mem, a, Size(s.regs[a])) && Apart(a, Size(s.regs[a]), b.base, HDR + b.cap);
    }
  }

  lemma EntryFreed(s: State, b: Block, id: string)
    requires Threads(s) && AllApart(s, b.base, HDR + b.cap) && Span(s.mem, b.base, HDR + b.cap) && id in s.iht
    ensures EntryOK(Free(s.mem, b.base, HDR + b.cap), s.regs, id, s.iht[id], s.links[id], s.copies[id])
  {
    var m' := Free(s.mem, b.base, HDR + b.cap);
    var e, ls, cs := s.iht[id], s.links[id], s.copies[id];
    assert EntryOK(s.mem, s.regs, id, e, ls, cs);
    LaidFreed(s, b);
    forall a | a in ls || a in cs
      ensures a in m' && m'[a] == s.mem[a]
    {
      assert a in cs ==> a in Pending(e, cs);
      assert Span(m', a, Size(s.regs[a]));
    }
    ChainFrame(s.mem, m', e.link, ls);
    ChainFrame(s.mem, m', e.copy, cs);
    if e.ptr != NULL {
      assert Span(s.mem, e.ptr, e.size) && Apart(e.ptr, e.size, b.base, HDR + b.cap);
      assert Span(m', e.ptr, e.size);
    }
  }

  // ---- the contents of the chunks ----

  // x is not part of a cell on a chain.
  ghost predicate Plain(s: State, x: Addr) {
    && (forall id, a :: id in s.links && a in s.links[id] ==> !(a <= x < a + PTR))
    && (forall id, a :: id in s.copies && a in s.copies[id] ==> !(a <= x < a + PTR))
  }

  lemma PlainUncovered(s: State, ds: seq<Addr>, x: Addr)
    requires s.links.Keys == s.iht.Keys && s.copies.Keys == s.iht.Keys && AllChained(s, ds) && Plain(s, x)
    ensures !Covered(x, ds, PTR)
  {
    forall a | a in ds
      ensures !(a <= x < a + PTR)
    {
      var id := s.regs[a].id;
      assert a in s.links[id] || a in s.copies[id];
    }
  }

  lemma OnePlain(mv: Move, a: Addr, x: Addr)
    requires Movable(mv, a, PTR) && !(mv.s <= x < mv.s + mv.n) && !(a <= x < a + PTR)
    ensures !(Shift(mv, a) <= Shift(mv, x) < Shift(mv, a) + PTR)
  {
  }

  lemma SeqPlain(mv: Move, ls: seq<Addr>, x: Addr)
    requires !(mv.s <= x < mv.s + mv.n) && forall a :: a in ls ==> Movable(mv, a, PTR) && !(a <= x < a + PTR)
    ensures forall b :: b in ShiftSeq(mv, ls) ==> !(b <= Shift(mv, x) < b + PTR)
  {
    hide Movable, Shift;
    ShiftIn(mv, ls);
    forall b | b in ShiftSeq(mv, ls)
      ensures !(b <= Shift(mv, x) < b + PTR)
    {
      var a :| a in ls && Shift(mv, a) == b;
      OnePlain(mv, a, x);
    }
  }

  lemma ChainMovable(s: State, mv: Move, id: string)
    requires Threads(s) && MoveOK(s.mem, s.iht, s.regs, mv) && id in s.iht
    ensures forall a :: a in s.links[id] || a in s.copies[id] ==> Movable(mv, a, PTR)
  {
    EntryCells(s, id);
    hide Threads, Chain;
    forall a | a in s.links[id] || a in s.copies[id]
      ensures Movable(mv, a, PTR)
    {
      assert a in s.regs && Movable(mv, a, Size(s.regs[a])) && Size(s.regs[a]) >= PTR;
    }
  }

  // What is no chain cell stays no chain cell.
  lemma PlainMoved(s: State, mem': Mem, mv: Move, x: Addr)
    requires Threads(s) && MoveOK(s.mem, s.iht, s.regs, mv) && Plain(s, x) && !(mv.s <= x < mv.s + mv.n)
    ensures Plain(ShiftState(s, mv, mem'), Shift(mv, x))
  {
    hide MoveOK, Threads, Movable, Shift;
    ThreadsKeys(s);
    forall id | id in s.iht
      ensures forall b :: b in ShiftSeq(mv, s.links[id]) ==> !(b <= Shift(mv, x) < b + PTR)
      ensures forall b :: b in ShiftSeq(mv, s.copies[id]) ==> !(b <= Shift(mv, x) < b + PTR)
    {
      ChainMovable(s, mv, id);
      SeqPlain(mv, s.links[id], x);
      SeqPlain(mv, s.copies[id], x);
    }
  }

  // Where data cell x of the i-th chunk is once the first k chunks have moved to p.
  function Where(bs: seq<Block>, p: Addr, k: nat, i: nat, x: Addr): (y: int)
    requires k <= |bs| && i < |bs|
  {
    if i < k then p + Total(bs[..i]) + (x - Data(bs[i])) else x
  }

  ghost predicate InData(b: Block, x: Addr) {
    Data(b) <= x < Data(b) + b.size
  }

  // Every data cell that is no chain cell still has its value.
  ghost predicate Arrived(s0: State, s: State, bs: seq<Block>, p: Addr, k: nat)
    requires k <= |bs|
  {
    forall i, x: Addr :: 0 <= i < |bs| && InData(bs[i], x) && Plain(s0, x) && x in s0.mem ==>
                           Kept(s0, s, Where(bs, p, k, i, x), x)
  }

  ghost predicate Kept(s0: State, s: State, y: int, x: Addr)
    requires x in s0.mem
  {
    y >= 0 && y in s.mem && s.mem[y] == s0.mem[x] && Plain(s, y)
  }

  lemma {:induction false} TotalSplit(bs: seq<Block>, k: nat)
    requires k <= |bs|
    ensures Total(bs) == Total(bs[..k]) + Total(bs[k..])
  {
    if k > 0 {
      TotalSplit(bs[1..], k - 1);
      assert bs[1..][..k - 1] == bs[..k][1..];
      assert bs[1..][k - 1..] == bs[k..];
    }
  }

  lemma TotalNext(bs: seq<Block>, k: nat)
    requires k < |bs|
    ensures Total(bs[..k + 1]) == Total(bs[..k]) + bs[k].size
    ensures Total(bs[..k + 1]) <= Total(bs)
  {
    TotalSplit(bs[..k + 1], k);
    TotalSplit(bs, k + 1);
    assert bs[..k + 1][..k] == bs[..k] && bs[..k + 1][k..] == [bs[k]];
    assert Total([bs[k]]) == bs[k].size + Total([bs[k]][1..]);
  }

  lemma {:induction false} TotalMono(bs: seq<Block>, i: nat, k: nat)
    requires i < k <= |bs|
    ensures Total(bs[..i]) + bs[i].size <= Total(bs[..k])
  {
    TotalNext(bs, i);
    TotalSplit(bs[..k], i + 1);
    assert bs[..k][..i + 1] == bs[..i + 1];
  }

  // The step of the k-th chunk, for one cell.
  lemma {:induction false} WhereNext(bs: seq<Block>, p: Addr, n: nat, k: nat, i: nat, x: Addr)
    requires k < |bs| && i < |bs| && Total(bs) <= n && InData(bs[i], x)
    requires BlocksApart(bs) && forall j :: 0 <= j < |bs| ==> bs[j].size <= bs[j].cap && Apart(bs[j].base, HDR + bs[j].cap, p, n)
    ensures var y, mv := Where(bs, p, k, i, x), MoveOf(bs[k], p + Total(bs[..k]));
            y >= 0 && !(mv.s <= y < mv.s + mv.n) && Where(bs, p, k + 1, i, x) == Shift(mv, y)
    ensures var y := Where(bs, p, k + 1, i, x); !(bs[k].base <= y < bs[k].base + HDR + bs[k].cap)
  {
    hide Total;
    TotalNext(bs, k);
    assert Apart(bs[k].base, HDR + bs[k].cap, p, n) && Apart(bs[i].base, HDR + bs[i].cap, p, n);
    if i < k {
      TotalMono(bs, i, k);
    } else if i > k {
      assert Apart(bs[k].base, HDR + bs[k].cap, bs[i].base, HDR + bs[i].cap);
    }
  }

  lemma ArrivedNext(s0: State, s: State, s': State, bs: seq<Block>, p: Addr, n: nat, k: nat, ds: seq<Addr>, m2: Mem)
    requires k < |bs| && Total(bs) <= n && Arrived(s0, s, bs, p, k)
    requires BlocksApart(bs) && forall j :: 0 <= j < |bs| ==> bs[j].size <= bs[j].cap && Apart(bs[j].base, HDR + bs[j].cap, p, n)
    requires Threads(s) && MoveOK(s.mem, s.iht, s.regs, MoveOf(bs[k], p + Total(bs[..k])))
    requires AllChained(s, ds) && Moved(s.mem, m2, MoveOf(bs[k], p + Total(bs[..k])), ds)
    requires Span(m2, bs[k].base, HDR + bs[k].cap)
    requires s' == ShiftState(s, MoveOf(bs[k], p + Total(bs[..k])), Free(m2, bs[k].base, HDR + bs[k].cap))
    ensures Arrived(s0, s', bs, p, k + 1)
  {
    hide Threads, MoveOK, Moved, AllChained, Plain, Total, InData, Where, Shift, ShiftState, MoveOf, Free;
    forall i, x: Addr | 0 <= i < |bs| && InData(bs[i], x) && Plain(s0, x) && x in s0.mem
      ensures Kept(s0, s', Where(bs, p, k + 1, i, x), x)
    {
      assert Kept(s0, s, Where(bs, p, k, i, x), x);
      WhereNext(bs, p, n, k, i, x);
      KeptNext(s0, s, s', bs[k], MoveOf(bs[k], p + Total(bs[..k])), Where(bs, p, k, i, x), x, ds, m2);
    }
  }

  lemma KeptNext(s0: State, s: State, s': State, b: Block, mv: Move, y: Addr, x: Addr, ds: seq<Addr>, m2: Mem)
    requires x in s0.mem && Kept(s0, s, y, x) && !(mv.s <= y < mv.s + mv.n)
    requires Threads(s) && MoveOK(s.mem, s.iht, s.regs, mv) && AllChained(s, ds) && Moved(s.mem, m2, mv, ds)
    requires Span(m2, b.base, HDR + b.cap) && !(b.base <= Shift(mv, y) < b.base + HDR + b.cap)
    requires s' == ShiftState(s, mv, Free(m2, b.base, HDR + b.cap))
    ensures Kept(s0, s', Shift(mv, y), x)
  {
    PlainMoved(s, s'.mem, mv, y);
    ThreadsKeys(s);
    PlainUncovered(s, ds, y);
    hide Threads, MoveOK, AllChained, Plain, Shift;
  }

  // ---- the table after all moves ----

  // The moves that flatten the chunks bs, oldest first, to p.
  function Moves(bs: seq<Block>, p: Addr): seq<Move> {
    if bs == [] then []
    else Moves(bs[..|bs| - 1], p) + [MoveOf(bs[|bs| - 1], p + Total(bs[..|bs| - 1]))]
  }

  // Where address x is after the moves.
  function Place(mvs: seq<Move>, x: int): int {
    if mvs == [] then x else Shift(mvs[|mvs| - 1], Place(mvs[..|mvs| - 1], x))
  }

  // s is s0 after the moves, whatever its memory: every address the table holds
  // and every location on a chain has been replaced by its new place.
  ghost predicate Relocated(s0: State, s: State, mvs: seq<Move>) {
    && EntriesPlaced(s0.iht, s.iht, mvs) && ChainsPlaced(s0.links, s.links, mvs) && ChainsPlaced(s0.copies, s.copies, mvs)
    && RegsPlaced(s0.regs, s.regs, mvs)
  }

  ghost predicate EntriesPlaced(iht: Table, iht': Table, mvs: seq<Move>) {
    iht'.Keys == iht.Keys && forall id :: id in iht ==> EntryPlaced(iht[id], iht'[id], mvs)
  }

  ghost predicate ChainsPlaced(c: map<string, seq<Addr>>, c': map<string, seq<Addr>>, mvs: seq<Move>) {
    c'.Keys == c.Keys && forall id :: id in c ==> SeqPlaced(c[id], c'[id], mvs)
  }

  ghost predicate RegsPlaced(regs: Regs, regs': Regs, mvs: seq<Move>) {
    && (forall a :: a in regs ==> RegPlaced(regs[a], regs', Place(mvs, a)))
    && (forall x :: x in regs' ==> exists a :: a in regs && Place(mvs, a) == x)
  }

  ghost predicate RegPlaced(r: Reg, regs': Regs, y: int) {
    y >= 0 && y in regs' && regs'[y] == r
  }

  ghost predicate SeqPlaced(ls: seq<Addr>, ls': seq<Addr>, mvs: seq<Move>) {
    |ls'| == |ls| && forall i :: 0 <= i < |ls| ==> ls'[i] == Place(mvs, ls[i])
  }

  ghost predicate EntryPlaced(e: IList, e': IList, mvs: seq<Move>) {
    && e'.typ == e.typ && e'.size == e.size && e'.ptr == Place(mvs, e.ptr)
    && e'.link == Place(mvs, e.link) && e'.copy == Place(mvs, e.copy)
    && |e'.flist| == |e.flist|
    && forall i :: 0 <= i < |e.flist| ==> e'.flist[i].typ == e.flist[i].typ && e'.flist[i].len == e.flist[i].len
                                          && e'.flist[i].ptr == Place(mvs, e.flist[i].ptr)
  }

  // Cells filled when they were met keep their value.
  ghost predicate DirectKept(s0: State, s: State, mvs: seq<Move>) {
    forall a :: a in s0.regs ==> DirectCellKept(s0, s, a, Place(mvs, a))
  }

  ghost predicate DirectCellKept(s0: State, s: State, a: Addr, y: int) {
    y >= 0 && (Direct(s0, a) <==> Direct(s, y)) && (Direct(s0, a) ==> a in s0.mem && y in s.mem && s.mem[y] == s0.mem[a])
  }

  lemma DirectStart(s: State)
    requires Threads(s)
    ensures DirectKept(s, s, [])
  {
    forall a | a in s.regs
      ensures DirectCellKept(s, s, a, Place([], a))
    {
      assert Span(s.mem, a, Size(s.regs[a]));
    }
  }

  lemma RelocatedStart(s: State)
    ensures Relocated(s, s, [])
  {
    hide RegPlaced;
    assert forall x :: Place([], x) == x;
    forall a | a in s.regs
      ensures RegPlaced(s.regs[a], s.regs, Place([], a))
    {
      RegItself(s.regs, a);
    }
  }

  lemma RegItself(regs: Regs, a: Addr)
    requires a in regs
    ensures RegPlaced(regs[a], regs, Place([], a))
  {
  }

  lemma PlaceNext(mvs: seq<Move>, mv: Move, x: int)
    ensures Place(mvs + [mv], x) == Shift(mv, Place(mvs, x))
  {
    assert (mvs + [mv])[..|mvs|] == mvs;
  }

  lemma EntryNext(e: IList, e': IList, mvs: seq<Move>, mv: Move)
    requires EntryPlaced(e, e', mvs)
    ensures EntryPlaced(e, ShiftEntry(mv, e'), mvs + [mv])
  {
    hide Shift;
    PlaceNext(mvs, mv, e.ptr);
    PlaceNext(mvs, mv, e.link);
    PlaceNext(mvs, mv, e.copy);
    forall i | 0 <= i < |e.flist|
      ensures Shift(mv, e'.flist[i].ptr) == Place(mvs + [mv], e.flist[i].ptr)
    {
      PlaceNext(mvs, mv, e.flist[i].ptr);
    }
  }

  lemma ChainsNext(c: map<string, seq<Addr>>, c': map<string, seq<Addr>>, mvs: seq<Move>, mv: Move)
    requires ChainsPlaced(c, c', mvs)
    ensures ChainsPlaced(c, ShiftChains(mv, c'), mvs + [mv])
  {
    hide Shift;
    forall id | id in c
      ensures SeqPlaced(c[id], ShiftSeq(mv, c'[id]), mvs + [mv])
    {
      forall i | 0 <= i < |c[id]|
        ensures ShiftSeq(mv, c'[id])[i] == Place(mvs + [mv], c[id][i])
      {
        PlaceNext(mvs, mv, c[id][i]);
      }
    }
  }

  lemma RelocatedNext(s0: State, s: State, mem': Mem, mvs: seq<Move>, mv: Move)
    requires Relocated(s0, s, mvs) && Positive(s) && MoveOK(s.mem, s.iht, s.regs, mv)
    ensures Relocated(s0, ShiftState(s, mv, mem'), mvs + [mv])
  {
    hide MoveOK, Positive, Shift, Place, ShiftEntry, EntryPlaced, ChainsPlaced, RegsPlaced;
    forall id | id in s0.iht
      ensures EntryPlaced(s0.iht[id], ShiftEntry(mv, s.iht[id]), mvs + [mv])
    {
      EntryNext(s0.iht[id], s.iht[id], mvs, mv);
    }
    ChainsNext(s0.links, s.links, mvs, mv);
    ChainsNext(s0.copies, s.copies, mvs, mv);
    RegsRelocated(s0.regs, s, mv, mvs);
  }

  lemma RegsRelocated(regs: Regs, s: State, mv: Move, mvs: seq<Move>)
    requires RegsPlaced(regs, s.regs, mvs) && Positive(s) && MoveOK(s.mem, s.iht, s.regs, mv)
    ensures RegsPlaced(regs, ShiftRegs(mv, s.regs), mvs + [mv])
  {
    hide MoveOK, Positive, Shift, Place, RegPlaced, ShiftRegs;
    var regs' := ShiftRegs(mv, s.regs);
    forall a | a in regs
      ensures RegPlaced(regs[a], regs', Place(mvs + [mv], a))
    {
      assert RegPlaced(regs[a], s.regs, Place(mvs, a));
      RegAt(regs[a], s.regs, Place(mvs, a));
      RegShifted(s, mv, Place(mvs, a));
      PlaceNext(mvs, mv, a);
    }
    forall x | x in regs'
      ensures exists a :: a in regs && Place(mvs + [mv], a) == x
    {
      MovedReg(s, mv, x);
      var a :| a in regs && Place(mvs, a) == Back(mv, x);
      PlaceNext(mvs, mv, a);
    }
  }

  lemma RegAt(r: Reg, regs': Regs, y: int)
    requires RegPlaced(r, regs', y)
    ensures y >= 0 && y in regs' && regs'[y] == r
  {
  }

  lemma RegShifted(s: State, mv: Move, a: Addr)
    requires Positive(s) && MoveOK(s.mem, s.iht, s.regs, mv) && a in s.regs
    ensures RegPlaced(s.regs[a], ShiftRegs(mv, s.regs), Shift(mv, a))
  {
    ShiftRegsAt(mv, s.regs);
  }

  lemma DirectNext(s0: State, s: State, b: Block, m2: Mem, mvs: seq<Move>, mv: Move, ds: seq<Addr>)
    requires Relocated(s0, s, mvs) && DirectKept(s0, s, mvs)
    requires Threads(s) && Positive(s) && MoveOK(s.mem, s.iht, s.regs, mv) && AllChained(s, ds) && Moved(s.mem, m2, mv, ds)
    requires Span(m2, b.base, HDR + b.cap) && AllApart(ShiftState(s, mv, m2), b.base, HDR + b.cap)
    ensures DirectKept(s0, ShiftState(s, mv, Free(m2, b.base, HDR + b.cap)), mvs + [mv])
  {
    hide MoveOK, Threads, Moved, AllChained, Positive, Shift, Place, EntriesPlaced, ChainsPlaced, RegPlaced, AllApart, Direct,
         ShiftState, DirectCellKept, Free;
    var s' := ShiftState(s, mv, Free(m2, b.base, HDR + b.cap));
    forall a | a in s0.regs
      ensures DirectCellKept(s0, s', a, Place(mvs + [mv], a))
    {
      PlaceNext(mvs, mv, a);
      assert RegPlaced(s0.regs[a], s.regs, Place(mvs, a));
      RegAt(s0.regs[a], s.regs, Place(mvs, a));
      DirectOne(s0, s, b, m2, mv, ds, a, Place(mvs, a));
    }
  }

  lemma DirectOne(s0: State, s: State, b: Block, m2: Mem, mv: Move, ds: seq<Addr>, a: Addr, y: Addr)
    requires DirectCellKept(s0, s, a, y) && y in s.regs
    requires Threads(s) && Positive(s) && MoveOK(s.mem, s.iht, s.regs, mv) && AllChained(s, ds) && Moved(s.mem, m2, mv, ds)
    requires Span(m2, b.base, HDR + b.cap) && AllApart(ShiftState(s, mv, m2), b.base, HDR + b.cap)
    ensures DirectCellKept(s0, ShiftState(s, mv, Free(m2, b.base, HDR + b.cap)), a, Shift(mv, y))
  {
    hide MoveOK, Threads, Moved, AllChained, Positive, Shift, AllApart, Direct;
    var m' := Free(m2, b.base, HDR + b.cap);
    DirectMoved(s, m2, mv, ds, y);
    DirectMem(s, mv, m2, m', Shift(mv, y));
    CellKept(s, mv, m2, b, y);
  }

  lemma DirectMem(s: State, mv: Move, m: Mem, m': Mem, x: Addr)
    ensures Direct(ShiftState(s, mv, m), x) <==> Direct(ShiftState(s, mv, m'), x)
  {
  }

  lemma CellKept(s: State, mv: Move, m2: Mem, b: Block, y: Addr)
    requires y in s.regs && Positive(s) && MoveOK(s.mem, s.iht, s.regs, mv) && AllApart(ShiftState(s, mv, m2), b.base, HDR + b.cap)
    ensures !(b.base <= Shift(mv, y) < b.base + HDR + b.cap)
  {
    ShiftRegsAt(mv, s.regs);
    var s' := ShiftState(s, mv, m2);
    assert Shift(mv, y) in s'.regs;
  }
}
