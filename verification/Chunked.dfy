/** HTTP chunked transfer: what a byte stream means, and the receiver that
    delivers it however the transport splits the bytes. */
module Chunked {
  import opened Wire

  // What stands at the front of a stream where a chunk header is expected: no
  // complete header, or a header of len bytes announcing size data bytes.
  datatype Hdr = NoHdr | Hdr(size: nat, len: nat)

  // tmp[17] holds 16 digits and a NUL
  const MAX_DIGITS: nat := 16

  // strtoul with base 16
  function Strtoul(s: seq<Byte>): (n: nat)
    requires AllHex(s)
    ensures n < SIZE_LIMIT
  {
    if HexVal(s) < SIZE_LIMIT then HexVal(s) else SIZE_LIMIT - 1
  }

  // A header: anything up to the first hex digit, at most 16 hex digits, the rest
  // of the line.  A byte that reads as EOF ends it.
  ghost function Header(w: seq<Byte>): (h: Hdr)
    ensures h.Hdr? ==> 0 < h.len <= |w| && h.size < SIZE_LIMIT
  {
    Lead(w, 0)
  }

  // n bytes have been read before w
  ghost function Lead(w: seq<Byte>, n: nat): (h: Hdr)
    ensures h.Hdr? ==> n < h.len <= n + |w| && h.size < SIZE_LIMIT
  {
    if w == [] || w[0] == 255 then NoHdr
    else if IsHex(w[0]) then Digits(w[1..], n + 1, [w[0]])
    else Lead(w[1..], n + 1)
  }

  // and the digits ds
  ghost function Digits(w: seq<Byte>, n: nat, ds: seq<Byte>): (h: Hdr)
    requires AllHex(ds)
    ensures h.Hdr? ==> n < h.len <= n + |w| && h.size < SIZE_LIMIT
  {
    if w != [] && IsHex(w[0]) && |ds| < MAX_DIGITS then Digits(w[1..], n + 1, ds + [w[0]])
    else Line(w, n, Strtoul(ds))
  }

  // and the whole number
  ghost function Line(w: seq<Byte>, n: nat, size: nat): (h: Hdr)
    ensures h.Hdr? ==> n < h.len <= n + |w| && h.size == size
  {
    if w == [] || w[0] == 255 then NoHdr
    else if w[0] == LF then Hdr(size, n + 1)
    else Line(w[1..], n + 1, size)
  }

  // The data bytes of a stream up to the first EOF.
  ghost function Dechunk(w: seq<Byte>): seq<Byte>
    decreases |w|, 1
  {
    match Header(w)
    case NoHdr => []
    case Hdr(size, len) => if size == 0 then [] else Body(size, w[len..])
  }

  // The same with `size` data bytes of the current chunk still to come.
  ghost function Body(size: nat, w: seq<Byte>): seq<Byte>
    decreases |w|, 2
  {
    if size == 0 then Dechunk(w) else if |w| <= size then w else w[..size] + Dechunk(w[size..])
  }

  const BUFLEN: nat := 65536

  // No header in the stream announces so many bytes that adding them to an
  // index of the buffer would wrap.
  ghost predicate Sane(w: seq<Byte>)
    decreases |w|, 1
  {
    match Header(w)
    case NoHdr => true
    case Hdr(size, len) => size + BUFLEN < SIZE_LIMIT && (size == 0 || SaneBody(size, w[len..]))
  }

  ghost predicate SaneBody(size: nat, w: seq<Byte>)
    decreases |w|, 2
  {
    if size == 0 then Sane(w) else if |w| <= size then true else Sane(w[size..])
  }

  // The i-th byte of a stream as it is read.
  ghost function CharAt(w: seq<Byte>, i: nat): int {
    if i < |w| then Signed(w[i]) else EOF
  }

  ghost function From(w: seq<Byte>, i: nat): seq<Byte> {
    if i <= |w| then w[i..] else []
  }

  class Receiver {
    const buf: array<Byte>
    var bufidx: nat
    var buflen: nat
    var chunksize: nat
    var chunkbuflen: nat
    var ahead: int
    var wire: seq<Byte>  // what the transport has still to deliver

    ghost predicate Shape()
      reads this, buf
    {
      && buf.Length == BUFLEN && bufidx <= buflen <= BUFLEN && chunkbuflen <= BUFLEN
      && (chunkbuflen > 0 ==> buflen <= chunkbuflen)
      && (chunksize > 0 ==> chunkbuflen == 0)
    }

    // The bytes received but not yet looked at, then those still to be received.
    ghost function Raw(): seq<Byte>
      requires Shape()
      reads this, buf
    {
      (if chunkbuflen > 0 then buf[buflen..chunkbuflen] else []) + wire
    }

    ghost predicate Valid()
      reads this, buf
    {
      Shape() && SaneBody(chunksize, Raw())
    }

    // The data bytes still to be delivered up to the first EOF.
    ghost function Rest(): seq<Byte>
      requires Shape()
      reads this, buf
    {
      buf[bufidx..buflen] + Body(chunksize, Raw())
    }

    // Right after the HTTP header: the first k of the bytes n in the buffer have
    // been read (soap_begin_recv).
    constructor (received: seq<Byte>, k: nat, w: seq<Byte>)
      requires k <= |received| <= BUFLEN && Sane(received[k..] + w)
      ensures Valid() && Rest() == Dechunk(received[k..] + w) && fresh(buf)
    {
      var b := new Byte[BUFLEN](_ => 0);
      forall i | 0 <= i < |received| {
        b[i] := received[i];
      }
      buf := b;
      chunkbuflen, buflen, bufidx, chunksize, ahead, wire := |received|, k, k, 0, 0, w;
      new;
      assert buf[k..chunkbuflen] == received[k..];
      assert Raw() == received[k..] + w;
      assert Rest() == [] + Body(0, Raw());
    }

    // frecv: any nonempty piece of what is to come, at most n bytes; nothing
    // only when nothing is to come.
    method Frecv(n: nat) returns (r: nat)
      requires 0 < n <= buf.Length
      modifies buf, `wire
      ensures r <= n && r <= |old(wire)| && (r == 0 <==> old(wire) == [])
      ensures buf[..r] == old(wire)[..r] && wire == old(wire)[r..]
    {
      if wire == [] {
        return 0;
      }
      r :| 0 < r <= n && r <= |wire|;
      forall i | 0 <= i < r {
        buf[i] := wire[i];
      }
      wire := wire[r..];
    }

    // While a header is read: the bytes not read yet.
    ghost function Stream(): seq<Byte>
      requires bufidx <= buflen <= buf.Length
      reads this, buf
    {
      buf[bufidx..buflen] + wire
    }

    ghost predicate Scanning()
      reads this, buf
    {
      buf.Length == BUFLEN && bufidx <= buflen <= BUFLEN && buflen == chunkbuflen
    }

    // soap_getchunkchar
    method GetChunkChar() returns (c: int)
      requires Scanning()
      modifies this, buf
      ensures Scanning() && chunksize == old(chunksize) && ahead == old(ahead)
      ensures c == CharAt(old(Stream()), 0) && Stream() == From(old(Stream()), 1)
    {
      if bufidx < buflen {
        c := Signed(buf[bufidx]);
        bufidx := bufidx + 1;
        return;
      }
      bufidx := 0;
      var r := Frecv(BUFLEN);
      buflen, chunkbuflen := r, r;
      if buflen > 0 {
        c := Signed(buf[bufidx]);
        bufidx := bufidx + 1;
        return;
      }
      return EOF;
    }

    // The part of soap_recv_raw that reads one chunk header.
    method ReadHeader() returns (ok: bool, size: nat)
      requires Scanning()
      modifies this, buf
      ensures Scanning() && chunksize == old(chunksize)
      ensures match Header(old(Stream()))
              case NoHdr => !ok && ahead == EOF
              case Hdr(n, len) => ok && size == n && Stream() == old(Stream())[len..] && ahead == old(ahead)
    {
      hide Stream, Reading, CharAt, From, Header, Lead, Digits, Line, Strtoul, HexVal, AllHex, Signed;
      ghost var w := Stream();
      ghost var cur := w;  // from the byte in c on
      var c := GetChunkChar();
      ReadFirst(w, c, Stream());
      while !IsHex(c)
        invariant Scanning() && chunksize == old(chunksize) && ahead == old(ahead)
        invariant Reading(w, cur, c, Stream()) && Header(w) == Lead(cur, |w| - |cur|)
        decreases |cur|
      {
        LeadStep(w, cur, c, Stream());
        if c == EOF {
          ahead := EOF;
          return false, 0;
        }
        ghost var r := Stream();
        ghost var c0 := c;
        c := GetChunkChar();
        ReadNext(w, cur, c0, r, c, Stream());
        cur := cur[1..];
      }
      LeadStep(w, cur, c, Stream());
      var tmp := new Byte[17];
      var t := 0;
      tmp[t] := c;
      t := t + 1;
      ghost var r := Stream();
      ghost var c0 := c;
      c := GetChunkChar();
      ReadNext(w, cur, c0, r, c, Stream());
      cur := cur[1..];
      assert tmp[..1] == [tmp[0]];
      while IsHex(c) && t < 16
        invariant Scanning() && chunksize == old(chunksize) && ahead == old(ahead) && 1 <= t <= 16
        invariant Reading(w, cur, c, Stream()) && AllHex(tmp[..t]) && Header(w) == Digits(cur, |w| - |cur|, tmp[..t])
        decreases |cur|
      {
        DigitsStep(w, cur, c, Stream(), tmp[..t]);
        tmp[t] := c;
        t := t + 1;
        r, c0 := Stream(), c;
        c := GetChunkChar();
        ReadNext(w, cur, c0, r, c, Stream());
        cur := cur[1..];
        assert tmp[..t] == tmp[..t - 1] + [tmp[t - 1]];
      }
      DigitsStep(w, cur, c, Stream(), tmp[..t]);
      ghost var ds := tmp[..t];
      ghost var n := Strtoul(ds);
      while c != EOF && c != LF
        invariant Scanning() && chunksize == old(chunksize) && ahead == old(ahead)
        invariant tmp[..t] == ds && Reading(w, cur, c, Stream()) && Header(w) == Line(cur, |w| - |cur|, n)
        decreases |cur|
      {
        LineStep(w, cur, c, Stream(), n);
        r, c0 := Stream(), c;
        c := GetChunkChar();
        ReadNext(w, cur, c0, r, c, Stream());
        cur := cur[1..];
      }
      LineStep(w, cur, c, Stream(), n);
      if c == EOF {
        ahead := EOF;
        return false, 0;
      }
      return true, Strtoul(tmp[..t]);
    }

    // Inside a chunk: receives more of its data.
    method MoreData() returns (ret: nat)
      requires Valid() && bufidx >= buflen && chunksize != 0
      modifies this, buf
      ensures Valid() && ret == buflen - bufidx && Rest() == old(Rest())
      ensures ret == 0 ==> Rest() == []
    {
      hide Body, SaneBody;
      ghost var w := wire;
      assert Raw() == w && buf[bufidx..buflen] == [];
      ret := Frecv(if chunksize > BUFLEN then BUFLEN else chunksize);
      buflen := ret;
      bufidx := 0;
      BodyStep(chunksize, w, ret);
      BodyEnd(chunksize);
      chunksize := chunksize - ret;
      assert Raw() == w[ret..] && buf[bufidx..buflen] == w[..ret];
    }

    // Between chunks: makes bytes of the next header available.
    method Scan() returns (eof: bool)
      requires Valid() && bufidx >= buflen && chunksize == 0
      modifies this, buf
      ensures eof ==> Shape() && old(Rest()) == []
      ensures !eof ==> Scanning() && chunksize == 0 && Stream() == old(Raw())
    {
      hide Body, SaneBody;
      assert buf[bufidx..buflen] == [];
      if chunkbuflen == 0 {
        var ret := Frecv(BUFLEN);
        chunkbuflen := ret;
        bufidx := 0;
        if ret == 0 {
          BodyEnd(0);
          buflen := 0;
          ahead := EOF;
          return true;
        }
      } else {
        bufidx := buflen;
      }
      buflen := chunkbuflen;
      return false;
    }

    // After a header that announced size data bytes: bounds what may be read.
    method Window(size: nat) returns (ret: nat)
      requires Scanning() && 0 < size && size + BUFLEN < SIZE_LIMIT && SaneBody(size, Stream())
      modifies this
      ensures Valid() && ret == buflen - bufidx && Rest() == Body(size, old(Stream()))
      ensures ret == 0 ==> chunksize != 0
    {
      hide Body, SaneBody;
      chunksize := size;
      ghost var data, start, window := Stream(), bufidx, buf[bufidx..chunkbuflen];
      assert data == window + wire;
      buflen := (bufidx + chunksize) % SIZE_LIMIT;
      if buflen > chunkbuflen {
        buflen := chunkbuflen;
        chunksize := chunksize - (buflen - bufidx);
        chunkbuflen := 0;
        BodyStep(size, data, |window|);
        SplitAt(window, wire, |window|);
        assert window[|window|..] == [] && window[..|window|] == window;
      } else if chunkbuflen != 0 {
        chunksize := 0;
        BodyStep(size, data, size);
        SplitAt(window, wire, size);
        assert window[..size] == buf[start..buflen] && window[size..] == buf[buflen..chunkbuflen];
      }
      ret := buflen - bufidx;
    }

    // soap_recv_raw in chunked mode: makes data bytes available, or reports EOF.
    method RecvRaw() returns (eof: bool)
      requires Valid() && bufidx >= buflen
      modifies this, buf
      ensures Shape()
      ensures eof ==> old(Rest()) == []
      ensures !eof ==> Valid() && bufidx < buflen && Rest() == old(Rest())
    {
      hide Body, SaneBody, Dechunk, Sane, Header, Stream, Raw;
      while true
        invariant Valid() && bufidx >= buflen && Rest() == old(Rest())
        decreases if chunksize != 0 then 0 else 1
      {
        if chunksize != 0 {
          var ret := MoreData();
          return ret == 0;
        }
        ghost var raw := Raw();
        assert Rest() == Body(0, raw);
        HeaderStep(raw);
        var end := Scan();
        if end {
          return true;
        }
        var ok, size := ReadHeader();
        if !ok {
          return true;
        }
        if size == 0 {
          chunksize, bufidx, buflen, chunkbuflen := 0, 0, 0, 0;
          ahead := EOF;
          return true;
        }
        var ret := Window(size);
        if ret != 0 {
          return false;
        }
      }
    }

    // soap_get1
    method Get1() returns (c: int)
      requires Valid()
      modifies this, buf
      ensures Shape()
      ensures old(Rest()) == [] ==> c == EOF
      ensures old(Rest()) != [] ==> Valid() && c == old(Rest())[0] && Rest() == old(Rest())[1..]
    {
      hide Body, SaneBody;
      if bufidx >= buflen {
        var eof := RecvRaw();
        if eof {
          return EOF;
        }
      }
      assert buf[bufidx..buflen] == [buf[bufidx]] + buf[bufidx + 1..buflen];
      c := buf[bufidx];
      bufidx := bufidx + 1;
    }

    // Reads up to the first EOF.
    method ReadAll() returns (s: seq<Byte>)
      requires Valid()
      modifies this, buf
      ensures s == old(Rest())
    {
      hide Body, SaneBody;
      s := [];
      ghost var all := Rest();
      var c := Get1();
      while c != EOF
        invariant |s| <= |all| && s == all[..|s|]
        invariant if |s| == |all| then c == EOF else Valid() && c == all[|s|] && Rest() == all[|s| + 1..]
        decreases |all| - |s|
      {
        s := s + [c];
        c := Get1();
      }
    }
  }

  // c is the first byte of cur, a tail of w, as it is read; rest comes after it.
  ghost predicate Reading(w: seq<Byte>, cur: seq<Byte>, c: int, rest: seq<Byte>) {
    |cur| <= |w| && cur == w[|w| - |cur|..] && c == CharAt(cur, 0) && rest == From(cur, 1)
  }

  lemma ReadFirst(w: seq<Byte>, c: int, rest: seq<Byte>)
    requires c == CharAt(w, 0) && rest == From(w, 1)
    ensures Reading(w, w, c, rest) && Header(w) == Lead(w, 0)
  {
  }

  lemma ReadNext(w: seq<Byte>, cur: seq<Byte>, c: int, rest: seq<Byte>, c': int, rest': seq<Byte>)
    requires Reading(w, cur, c, rest) && cur != [] && c' == CharAt(rest, 0) && rest' == From(rest, 1)
    ensures Reading(w, cur[1..], c', rest')
  {
  }

  lemma LeadStep(w: seq<Byte>, cur: seq<Byte>, c: int, rest: seq<Byte>)
    requires Reading(w, cur, c, rest) && Header(w) == Lead(cur, |w| - |cur|)
    ensures |cur| <= |w|
    ensures if c == EOF then Header(w) == NoHdr
            else cur != [] && (0 <= c < 128 ==> cur[0] == c)
                 && if IsHex(c) then AllHex([cur[0]]) && Header(w) == Digits(cur[1..], |w| - |cur| + 1, [cur[0]])
                    else Header(w) == Lead(cur[1..], |w| - |cur| + 1)
  {
  }

  lemma DigitsStep(w: seq<Byte>, cur: seq<Byte>, c: int, rest: seq<Byte>, ds: seq<Byte>)
    requires Reading(w, cur, c, rest) && AllHex(ds) && Header(w) == Digits(cur, |w| - |cur|, ds)
    ensures |cur| <= |w|
    ensures if IsHex(c) && |ds| < MAX_DIGITS
            then cur != [] && cur[0] == c && AllHex(ds + [cur[0]]) && Header(w) == Digits(cur[1..], |w| - |cur| + 1, ds + [cur[0]])
            else Header(w) == Line(cur, |w| - |cur|, Strtoul(ds))
  {
  }

  lemma LineStep(w: seq<Byte>, cur: seq<Byte>, c: int, rest: seq<Byte>, n: nat)
    requires Reading(w, cur, c, rest) && Header(w) == Line(cur, |w| - |cur|, n)
    ensures |cur| <= |w|
    ensures if c == EOF then Header(w) == NoHdr
            else if c == LF then Header(w) == Hdr(n, |w| - |cur| + 1) && rest == w[|w| - |cur| + 1..]
            else cur != [] && Header(w) == Line(cur[1..], |w| - |cur| + 1, n)
  {
  }

  // Receiving r of the bytes w of a chunk with size data bytes to come.
  lemma BodyStep(size: nat, w: seq<Byte>, r: nat)
    requires 0 < size && r <= size && r <= |w|
    ensures Body(size, w) == w[..r] + Body(size - r, w[r..])
    ensures SaneBody(size, w) ==> SaneBody(size - r, w[r..])
  {
    var v := w[r..];
    if |w| > size {
      if size > r {
        assert v[..size - r] == w[r..size] && v[size - r..] == w[size..];
        assert w[..r] + w[r..size] == w[..size];
      }
    } else if size == r {
      assert v == [] && w[..r] == w;
    }
  }

  lemma BodyEnd(size: nat)
    ensures Body(size, []) == []
  {
  }

  // What a chunk header means for the bytes after it.
  lemma HeaderStep(w: seq<Byte>)
    ensures Header(w).NoHdr? ==> Body(0, w) == []
    ensures Header(w).Hdr? && Header(w).size == 0 ==> Body(0, w) == []
    ensures Header(w).Hdr? && Header(w).size != 0 ==> Body(0, w) == Body(Header(w).size, w[Header(w).len..])
    ensures Header(w).Hdr? && SaneBody(0, w) ==> Header(w).size + BUFLEN < SIZE_LIMIT
    ensures Header(w).Hdr? && SaneBody(0, w) && Header(w).size != 0 ==> SaneBody(Header(w).size, w[Header(w).len..])
  {
    assert Body(0, w) == Dechunk(w) && SaneBody(0, w) == Sane(w);
  }

  lemma SplitAt(a: seq<Byte>, b: seq<Byte>, r: nat)
    requires r <= |a|
    ensures (a + b)[..r] == a[..r] && (a + b)[r..] == a[r..] + b
  {
  }
}
