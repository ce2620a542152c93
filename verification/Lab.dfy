/** The look-aside buffer: one array that doubles when it is full. */
module Lab {
  import opened Wire

  const LABLEN: nat := 256  // SOAP_LABLEN

  // The least length reached by doubling that leaves more than need bytes.
  function Grown(len: nat, need: nat): (n: nat)
    requires len > 0
    ensures n > need && n >= len
    decreases if len > need then 0 else need + 1 - len
  {
    if need >= len then Grown(2 * len, need) else len
  }

  function Doubled(len: nat, k: nat): nat {
    if k == 0 then len else 2 * Doubled(len, k - 1)
  }

  lemma {:induction false} DoubledTwice(len: nat, k: nat)
    ensures Doubled(2 * len, k) == Doubled(len, k + 1)
  {
    if k > 0 {
      DoubledTwice(len, k - 1);
    }
  }

  /** It is the first of len, 2 * len, 4 * len and so on that is large enough. */
  lemma {:induction false} GrownExactly(len: nat, need: nat) returns (k: nat)
    requires len > 0
    ensures Grown(len, need) == Doubled(len, k) > need && (k > 0 ==> Doubled(len, k - 1) <= need)
    decreases if len > need then 0 else need + 1 - len
  {
    k := 0;
    if need >= len {
      var j := GrownExactly(2 * len, need);
      DoubledTwice(len, j);
      if j > 0 {
        DoubledTwice(len, j - 1);
      }
      k := j + 1;
    }
  }

  class Buffer {
    var buf: array<Byte>  // labbuf; its length is lablen
    var idx: nat          // labidx

    ghost predicate Valid()
      reads this
    {
      idx <= buf.Length
    }

    constructor (lablen: nat)
      ensures Valid() && fresh(buf) && buf.Length == lablen && idx == 0
    {
      buf := new Byte[lablen](_ => 0);
      idx := 0;
    }

    /** soap_append_lab without data: room for n more bytes and one to spare; what
        is below idx stays. */
    method Reserve(n: nat)
      requires Valid()
      modifies this`buf
      ensures Valid() && idx + n < buf.Length && buf[..idx] == old(buf[..idx])
      ensures if idx + n < old(buf.Length) then buf == old(buf)
              else fresh(buf) && buf.Length == Grown(if old(buf.Length) == 0 then LABLEN else old(buf.Length), idx + n)
    {
      if idx + n >= buf.Length {
        var len := if buf.Length == 0 then LABLEN else buf.Length;
        ghost var len0 := len;
        while idx + n >= len
          invariant len > 0 && len >= buf.Length && Grown(len, idx + n) == Grown(len0, idx + n)
          decreases idx + n - len
        {
          len := 2 * len;
        }
        var t := new Byte[len](_ => 0);
        forall i | 0 <= i < idx {
          t[i] := buf[i];
        }
        buf := t;
      }
    }

    /** soap_append_lab */
    method Append(s: seq<Byte>)
      requires Valid()
      modifies this, buf
      ensures Valid() && idx == old(idx) + |s| < buf.Length && buf[..idx] == old(buf[..idx]) + s
      ensures buf == old(buf) || fresh(buf)
    {
      Reserve(|s|);
      forall i | 0 <= i < |s| {
        buf[idx + i] := s[i];
      }
      assert buf[..idx] == old(buf[..idx]);
      idx := idx + |s|;
    }

    // soap_store_lab
    method Store(s: seq<Byte>)
      modifies this, buf
      ensures Valid() && idx == |s| < buf.Length && buf[..idx] == s
      ensures buf == old(buf) || fresh(buf)
    {
      idx := 0;
      Append(s);
    }
  }
}
