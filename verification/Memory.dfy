/** A flat memory of cells, as the id/href tables and the block lists of the
    runtime see it.  An address is a natural number and 0 is NULL.  A data byte
    fills one cell; a pointer (or a size_t) fills PTR cells, the first of which
    holds the value.  Storing a pointer overwrites all PTR cells, so a pointer
    written into a shorter object would be seen to damage its neighbour.  Cells
    that are not in the map are not allocated. */
module Memory {

  type Addr = nat

  type Mem = map<Addr, int>

  const NULL: Addr := 0

  // sizeof(void*) and sizeof(size_t) of the 32-bit build
  const PTR: nat := 4

  // The cells a, ..., a+n-1 are allocated.
  ghost predicate Span(mem: Mem, a: Addr, n: nat) {
    forall x :: a <= x < a + n ==> x in mem
  }

  ghost predicate Apart(a: Addr, m: nat, b: Addr, n: nat) {
    a + m <= b || b + n <= a
  }

  ghost predicate Inside(a: Addr, m: nat, b: Addr, n: nat) {
    b <= a && a + m <= b + n
  }

  // *(void**)a = v
  function Store(mem: Mem, a: Addr, v: int): (r: Mem)
    requires Span(mem, a, PTR)
    ensures r.Keys == mem.Keys
    ensures r[a] == v
    ensures forall x :: x in mem && !(a <= x < a + PTR) ==> r[x] == mem[x]
  {
    map x | x in mem :: if x == a then v else if a < x < a + PTR then 0 else mem[x]
  }

  // Nothing of what stood in its cells shows behind a pointer that was written.
  lemma StoreForgets(mem: Mem, other: Mem, a: Addr, v: int)
    requires Span(mem, a, PTR) && Span(other, a, PTR)
    ensures forall x :: a <= x < a + PTR ==> x in mem && x in other && Store(mem, a, v)[x] == Store(other, a, v)[x]
  {
  }

  // The contents of the cells a, ..., a+n-1.
  ghost function Cells(mem: Mem, a: Addr, n: nat): (s: seq<int>)
    requires Span(mem, a, n)
    ensures |s| == n
  {
    seq(n, i requires 0 <= i < n => mem[a + i])
  }

  lemma CellsFrame(mem: Mem, mem': Mem, a: Addr, n: nat)
    requires Span(mem, a, n) && Span(mem', a, n)
    requires forall x :: a <= x < a + n ==> mem'[x] == mem[x]
    ensures Cells(mem', a, n) == Cells(mem, a, n)
  {
  }

  // memcpy(dst, src, n)
  function Memcpy(mem: Mem, dst: Addr, src: Addr, n: nat): (r: Mem)
    requires Span(mem, dst, n) && Span(mem, src, n) && Apart(dst, n, src, n)
    ensures r.Keys == mem.Keys
    ensures Cells(r, dst, n) == Cells(mem, src, n)
    ensures forall x :: x in mem && !(dst <= x < dst + n) ==> r[x] == mem[x]
  {
    var r := map x | x in mem :: if dst <= x < dst + n then mem[src + (x - dst)] else mem[x];
    assert Cells(r, dst, n) == Cells(mem, src, n);
    r
  }

  // What malloc(n) hands out: n cells at a, none in use, with whatever they hold.
  ghost predicate Fresh(mem: Mem, a: Addr, n: nat, cells: Mem) {
    && a != NULL
    && (forall x :: x in cells <==> a <= x < a + n)
    && mem.Keys !! cells.Keys
  }

  // free of the region of n cells at a
  function Free(mem: Mem, a: Addr, n: nat): (r: Mem)
    requires Span(mem, a, n)
    ensures forall x :: x in r <==> x in mem && !(a <= x < a + n)
    ensures forall x :: x in r ==> r[x] == mem[x]
  {
    map x | x in mem && !(a <= x < a + n) :: mem[x]
  }

  ghost predicate Distinct<T>(s: seq<T>) {
    forall i, j :: 0 <= i < j < |s| ==> s[i] != s[j]
  }

  // The NULL-terminated list that starts at head, threaded through the first
  // cell of each location, visits exactly the locations s in this order.
  ghost predicate Chain(mem: Mem, head: int, s: seq<Addr>)
    decreases |s|
  {
    if s == [] then head == NULL
    else head == s[0] && head != NULL && head in mem && Chain(mem, mem[head], s[1..])
  }

  lemma {:induction false} ChainFrame(mem: Mem, mem': Mem, head: int, s: seq<Addr>)
    requires Chain(mem, head, s)
    requires forall a :: a in s && a in mem ==> a in mem' && mem'[a] == mem[a]
    ensures Chain(mem', head, s)
    decreases |s|
  {
    if s != [] {
      assert s[0] in s;
      ChainFrame(mem, mem', mem[head], s[1..]);
    }
  }

  function Reverse<T>(s: seq<T>): (r: seq<T>)
    ensures |r| == |s|
  {
    if s == [] then [] else Reverse(s[1..]) + [s[0]]
  }

  lemma {:induction false} ReverseAt<T>(s: seq<T>, k: nat)
    requires k < |s|
    ensures Reverse(s)[k] == s[|s| - 1 - k]
  {
    if k < |s| - 1 {
      ReverseAt(s[1..], k);
    }
  }
}
