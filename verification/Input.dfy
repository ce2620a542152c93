/** The incoming byte stream as the readers above the transport see it. */
module Input {
  import opened Wire

  // What is left of w after some bytes were read.
  ghost predicate Suffix(a: seq<Byte>, w: seq<Byte>) {
    |a| <= |w| && w[|w| - |a|..] == a
  }

  lemma SuffixTail(a: seq<Byte>, w: seq<Byte>, n: nat)
    requires n <= |w| && Suffix(a, w[n..])
    ensures Suffix(a, w)
  {
    assert w[n..][|w[n..]| - |a|..] == w[|w| - |a|..];
  }

  lemma SuffixTrans(a: seq<Byte>, b: seq<Byte>, c: seq<Byte>)
    requires Suffix(a, b) && Suffix(b, c)
    ensures Suffix(a, c)
  {
    SuffixTail(a, c, |c| - |b|);
  }

  class Source {
    var rest: seq<Byte>  // the bytes not read yet

    constructor (w: seq<Byte>)
      ensures rest == w
    {
      rest := w;
    }

    // soap_get1: the next byte, or EOF
    method Get() returns (c: int)
      modifies this
      ensures old(rest) == [] ==> c == EOF && rest == []
      ensures old(rest) != [] ==> c == old(rest)[0] && rest == old(rest)[1..]
    {
      if rest == [] {
        return EOF;
      }
      c := rest[0];
      rest := rest[1..];
    }

    // soap_get0: the same without moving on
    method Peek() returns (c: int)
      ensures c == if rest == [] then EOF else rest[0]
    {
      c := if rest == [] then EOF else rest[0];
    }
  
    // soap_revget1: gives back the byte just read
    method Back(c: Byte)
      modifies this
      ensures rest == [c] + old(rest)
    {
      rest := [c] + rest;
    }
  }
}
