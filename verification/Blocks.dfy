/** Block lists: chunks of memory pushed one by one and later flattened, in the
    order they were pushed, into one contiguous region.  The list is threaded
    through the first word of each chunk; the second word is its size. */
module Blocks {
  import opened Memory
  import opened IdRef
  import opened IdTable

  const HDR: nat := 2 * PTR

  // A chunk allocated at base with room for cap data cells, size of them in use.
  datatype Block = Block(base: Addr, size: nat, cap: nat)

  function Data(b: Block): Addr {
    b.base + HDR
  }

  function Bases(bs: seq<Block>): (s: seq<Addr>)
    ensures |s| == |bs| && forall i :: 0 <= i < |s| ==> s[i] == bs[i].base
  {
    seq(|bs|, i requires 0 <= i < |bs| => bs[i].base)
  }

  function Total(bs: seq<Block>): nat {
    if bs == [] then 0 else bs[0].size + Total(bs[1..])
  }

  ghost predicate BlockOK(mem: Mem, b: Block) {
    b.base != NULL && b.size <= b.cap && Span(mem, b.base, HDR + b.cap) && mem[b.base + PTR] == b.size
  }

  ghost predicate BlocksApart(bs: seq<Block>) {
    forall i, j :: 0 <= i < j < |bs| ==> Apart(bs[i].base, HDR + bs[i].cap, bs[j].base, HDR + bs[j].cap)
  }

  // The chunks bs, most recent first, hang off head.
  ghost predicate BlocksOK(mem: Mem, head: int, bs: seq<Block>) {
    && Chain(mem, head, Bases(bs)) && BlocksApart(bs)
    && forall i :: 0 <= i < |bs| ==> BlockOK(mem, bs[i])
  }

  // struct soap_blist
  class BList {
    var ptr: Addr
    var size: nat
    var lengths: map<Addr, nat>  // the allocator's record of how long each chunk is
    ghost var blocks: seq<Block>

    // soap_new_block
    constructor ()
      ensures ptr == NULL && size == 0 && blocks == [] && Recorded()
    {
      ptr, size, lengths, blocks := NULL, 0, map[], [];
    }

    ghost predicate Recorded()
      reads this
    {
      forall i :: 0 <= i < |blocks| ==> blocks[i].base in lengths && lengths[blocks[i].base] == HDR + blocks[i].cap
    }
  }

  // Memory that agrees on the headers of the chunks describes the same list.
  lemma BlocksFrame(mem: Mem, mem': Mem, head: int, bs: seq<Block>)
    requires BlocksOK(mem, head, bs)
    requires forall i, x :: 0 <= i < |bs| && bs[i].base <= x < bs[i].base + HDR + bs[i].cap && x in mem ==> x in mem'
    requires forall i, x :: 0 <= i < |bs| && bs[i].base <= x < bs[i].base + HDR && x in mem ==> x in mem' && mem'[x] == mem[x]
    ensures BlocksOK(mem', head, bs)
  {
    forall a | a in Bases(bs) && a in mem
      ensures a in mem' && mem'[a] == mem[a]
    {
      var i :| 0 <= i < |bs| && Bases(bs)[i] == a;
      assert bs[i].base == a;
    }
    ChainFrame(mem, mem', head, Bases(bs));
    forall i | 0 <= i < |bs|
      ensures BlockOK(mem', bs[i])
    {
      assert BlockOK(mem, bs[i]);
    }
  }

  // soap_push_block: a new chunk of n data cells, allocated at a.
  method PushBlock(soap: Soap, b: BList, n: nat, a: Addr, cells: Mem) returns (r: Addr)
    requires BlocksOK(soap.mem, b.ptr, b.blocks) && b.Recorded()
    requires a != NULL ==> Fresh(soap.mem, a, HDR + n, cells)
    modifies soap`mem, soap`error, b
    ensures BlocksOK(soap.mem, b.ptr, b.blocks) && b.Recorded()
    ensures if a == NULL then r == NULL && soap.error == Eom && soap.mem == old(soap.mem) && b.blocks == old(b.blocks) && b.size == old(b.size)
            else r == a + HDR && b.blocks == [Block(a, n, n)] + old(b.blocks) && b.size == old(b.size) + n && soap.error == old(soap.error)
    ensures forall x :: x in old(soap.mem) ==> x in soap.mem && soap.mem[x] == old(soap.mem)[x]
  {
    if a == NULL {
      soap.error := Eom;
      return NULL;
    }
    ghost var bs := b.blocks;
    var mem := soap.mem + cells;
    assert Span(mem, a, PTR) && Span(mem, a + PTR, PTR);
    mem := Store(mem, a, b.ptr);
    mem := Store(mem, a + PTR, n);
    PushedOK(soap.mem, mem, b.ptr, bs, a, n, cells);
    soap.mem := mem;
    NewBase(soap.mem, bs, a, n);
    b.ptr := a;
    b.size := b.size + n;
    b.lengths := b.lengths[a := HDR + n];
    b.blocks := [Block(a, n, n)] + b.blocks;
    return a + HDR;
  }

  // A chunk has an address no other chunk of the list has.
  lemma NewBase(m: Mem, bs: seq<Block>, a: Addr, n: nat)
    requires BlocksOK(m, a, [Block(a, n, n)] + bs)
    ensures forall i :: 0 <= i < |bs| ==> bs[i].base != a
  {
    var bs' := [Block(a, n, n)] + bs;
    forall i | 0 <= i < |bs|
      ensures bs[i].base != a
    {
      assert bs'[i + 1] == bs[i];
      assert Apart(bs'[0].base, HDR + bs'[0].cap, bs'[i + 1].base, HDR + bs'[i + 1].cap);
    }
  }

  lemma PushedOK(m: Mem, mem: Mem, head: int, bs: seq<Block>, a: Addr, n: nat, cells: Mem)
    requires BlocksOK(m, head, bs) && Fresh(m, a, HDR + n, cells)
    requires mem.Keys == (m + cells).Keys && mem[a] == head && mem[a + PTR] == n
    requires forall x :: x in m ==> mem[x] == m[x]
    ensures BlocksOK(mem, a, [Block(a, n, n)] + bs)
  {
    BlocksFrame(m, mem, head, bs);
    forall j | 0 <= j < |bs|
      ensures Apart(a, HDR + n, bs[j].base, HDR + bs[j].cap)
    {
      assert BlockOK(m, bs[j]);
      FreshApart(m, a, HDR + n, cells, bs[j].base, HDR + bs[j].cap);
    }
    BlocksCons(mem, Block(a, n, n), bs);
  }

  lemma BlocksCons(mem: Mem, b: Block, bs: seq<Block>)
    requires BlockOK(mem, b) && BlocksOK(mem, mem[b.base], bs)
    requires forall j :: 0 <= j < |bs| ==> Apart(b.base, HDR + b.cap, bs[j].base, HDR + bs[j].cap)
    ensures BlocksOK(mem, b.base, [b] + bs)
  {
    hide BlockOK;
    var bs' := [b] + bs;
    assert Bases(bs')[1..] == Bases(bs);
    assert b.base in mem && b.base != NULL by {
      BlockBase(mem, b);
    }
    assert bs'[0] == b && forall i :: 0 < i < |bs'| ==> bs'[i] == bs[i - 1];
  }

  lemma BlockBase(mem: Mem, b: Block)
    requires BlockOK(mem, b)
    ensures b.base in mem && b.base != NULL
  {
  }

  lemma FreshApart(m: Mem, a: Addr, n: nat, cells: Mem, b: Addr, k: nat)
    requires Fresh(m, a, n, cells) && Span(m, b, k) && n > 0 && k > 0
    ensures Apart(a, n, b, k)
  {
    assert a in cells && b in m;
  }

  // soap_pop_block: drops the most recent chunk.
  method PopBlock(soap: Soap, b: BList)
    requires BlocksOK(soap.mem, b.ptr, b.blocks) && b.Recorded() && Total(b.blocks) <= b.size
    modifies soap`mem, b
    ensures BlocksOK(soap.mem, b.ptr, b.blocks) && b.Recorded()
    ensures old(b.blocks) == [] ==> b.blocks == [] && b.size == old(b.size) && soap.mem == old(soap.mem)
    ensures old(b.blocks) != [] ==> b.blocks == old(b.blocks)[1..] && b.size == old(b.size) - old(b.blocks)[0].size
                                    && soap.mem == Free(old(soap.mem), old(b.ptr), HDR + old(b.blocks)[0].cap)
  {
    if b.ptr == NULL {
      return;
    }
    var p := b.ptr;
    assert BlockOK(soap.mem, b.blocks[0]);
    FreedOK(soap.mem, p, b.blocks);
    b.size := b.size - soap.mem[p + PTR];
    b.ptr := soap.mem[p];
    soap.mem := Free(soap.mem, p, b.lengths[p]);
    b.blocks := b.blocks[1..];
  }

  // Freeing the chunk at the head leaves a good list of the others.
  lemma FreedOK(m: Mem, head: int, bs: seq<Block>)
    requires BlocksOK(m, head, bs) && bs != []
    ensures head == bs[0].base && Span(m, bs[0].base, HDR + bs[0].cap)
    ensures BlocksOK(Free(m, bs[0].base, HDR + bs[0].cap), m[head], bs[1..])
    ensures m[head] >= 0
  {
    assert BlockOK(m, bs[0]);
    assert Bases(bs)[1..] == Bases(bs[1..]);
    forall i, j | 0 <= i < j < |bs[1..]|
      ensures Apart(bs[1..][i].base, HDR + bs[1..][i].cap, bs[1..][j].base, HDR + bs[1..][j].cap)
    {
      assert bs[1..][i] == bs[i + 1] && bs[1..][j] == bs[j + 1];
    }
    assert BlocksOK(m, m[head], bs[1..]);
    forall i | 0 <= i < |bs[1..]|
      ensures Apart(bs[0].base, HDR + bs[0].cap, bs[1..][i].base, HDR + bs[1..][i].cap)
    {
      assert bs[1..][i] == bs[i + 1];
    }
    BlocksFrame(m, Free(m, bs[0].base, HDR + bs[0].cap), m[head], bs[1..]);
  }

  // ---- from newest-first to oldest-first, in place ----

  lemma {:induction false} ReverseConcat<T>(s: seq<T>, t: seq<T>)
    ensures Reverse(s + t) == Reverse(t) + Reverse(s)
  {
    if s == [] {
      assert s + t == t;
    } else {
      ReverseConcat(s[1..], t);
      assert (s + t)[1..] == s[1..] + t;
    }
  }

  // One turn of the reversal: the k-th chunk is hung in front of the part
  // already reversed.
  lemma ReverseStep(m: Mem, ps: seq<Addr>, k: nat, r: Addr)
    requires k < |ps| && Separate(m, ps, PTR)
    requires Chain(m, ps[k], ps[k..]) && Chain(m, r, Reverse(ps[..k]))
    ensures Span(m, ps[k], PTR)
    ensures var m' := Store(m, ps[k], r); Chain(m', m[ps[k]], ps[k + 1..]) && Chain(m', ps[k], Reverse(ps[..k + 1]))
    ensures Separate(Store(m, ps[k], r), ps, PTR)
  {
    var p := ps[k];
    assert p in ps;
    var m' := Store(m, p, r);
    WalkOn(m, m', ps, k, PTR);
    forall a | a in Reverse(ps[..k])
      ensures a in m ==> m'[a] == m[a]
    {
      ReverseMember(ps[..k], a);
      var i :| 0 <= i < k && ps[i] == a;
      assert Apart(ps[i], PTR, p, PTR);
    }
    ChainFrame(m, m', r, Reverse(ps[..k]));
    assert ps[..k + 1] == ps[..k] + [p];
    ReverseConcat(ps[..k], [p]);
    assert Reverse([p]) == [p];
    assert Reverse(ps[..k + 1])[1..] == Reverse(ps[..k]);
  }

  lemma {:induction false} ReverseMember<T>(s: seq<T>, a: T)
    ensures a in Reverse(s) <==> a in s
  {
    if s != [] {
      ReverseMember(s[1..], a);
    }
  }

  // Only the link words of the chunks bs differ.
  ghost predicate Relinked(m: Mem, m': Mem, ps: seq<Addr>) {
    m'.Keys == m.Keys && forall x :: x in m && !Covered(x, ps, PTR) ==> m'[x] == m[x]
  }

  // The loop of soap_first_block.
  method ReverseChain(soap: Soap, head: Addr, ghost ps: seq<Addr>) returns (r: Addr)
    requires Chain(soap.mem, head, ps) && Separate(soap.mem, ps, PTR)
    modifies soap`mem
    ensures Chain(soap.mem, r, Reverse(ps)) && Relinked(old(soap.mem), soap.mem, ps)
  {
    hide Separate;
    var p: Addr := head;
    r := NULL;
    ghost var k := 0;
    while p != NULL
      invariant 0 <= k <= |ps| && Chain(soap.mem, p, ps[k..]) && Chain(soap.mem, r, Reverse(ps[..k]))
      invariant Separate(soap.mem, ps, PTR) && Relinked(old(soap.mem), soap.mem, ps)
      decreases |ps| - k
    {
      assert p == ps[k] && ps[k] in ps;
      ReverseStep(soap.mem, ps, k, r);
      var q := soap.mem[p];
      soap.mem := Store(soap.mem, p, r);
      assert forall x :: p <= x < p + PTR ==> Covered(x, ps, PTR);
      r := p;
      p := q;
      k := k + 1;
    }
    assert ps[..k] == ps;
  }
}
