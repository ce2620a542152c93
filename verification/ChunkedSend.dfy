/** The sending side of HTTP chunked transfer: the output buffer, and the chunk
    headers written when it is flushed. */
module ChunkedSend {
  import opened Wire
  import opened Chunked
  import opened ChunkedBody

  // One flush: with or without the CRLF that ends the chunk before it.
  datatype Frame = Frame(lead: bool, data: seq<Byte>)

  ghost function EncodeFrame(f: Frame): seq<Byte> {
    (if f.lead then CRLF else []) + HexOf(|f.data|) + CRLF + f.data
  }

  ghost function EncodeFrames(fs: seq<Frame>): seq<Byte> {
    if fs == [] then [] else EncodeFrame(fs[0]) + EncodeFrames(fs[1..])
  }

  ghost function FrameData(fs: seq<Frame>): seq<Byte> {
    if fs == [] then [] else fs[0].data + FrameData(fs[1..])
  }

  // No chunk is empty: an empty one would end the message.
  ghost predicate NoEmpty(fs: seq<Frame>) {
    forall i :: 0 <= i < |fs| ==> 0 < |fs[i].data| <= BUFLEN
  }

  // "\r\n0\r\n\r\n"
  const LAST: seq<Byte> := [CR, LF, 48, CR, LF, CR, LF]

  lemma {:induction false} EncodeAppend(fs: seq<Frame>, f: Frame)
    ensures EncodeFrames(fs + [f]) == EncodeFrames(fs) + EncodeFrame(f)
    ensures FrameData(fs + [f]) == FrameData(fs) + f.data
  {
    if fs == [] {
      assert fs + [f] == [f] && [f][1..] == [];
    } else {
      assert (fs + [f])[1..] == fs[1..] + [f];
      EncodeAppend(fs[1..], f);
    }
  }

  lemma HexFits(n: nat)
    requires n <= BUFLEN
    ensures AllHex(HexOf(n)) && HexVal(HexOf(n)) == n && |HexOf(n)| <= MAX_DIGITS
  {
    HexRoundTrip(n);
    assert Pow16(6) == 16 * Pow16(5) && Pow16(5) == 16 * Pow16(4) && Pow16(4) == 16 * Pow16(3) && Pow16(3) == 16 * Pow16(2)
           && Pow16(2) == 16 * Pow16(1) && Pow16(1) == 16 * Pow16(0);
    HexLength(n, 6);
  }

  lemma FrameRead(f: Frame, w: seq<Byte>)
    requires 0 < |f.data| <= BUFLEN
    ensures Dechunk(EncodeFrame(f) + w) == f.data + Dechunk(w)
    ensures Sane(w) ==> Sane(EncodeFrame(f) + w)
  {
    hide Header, HexVal, HexOf, Dechunk, Sane;
    var n, lead, after := |f.data|, if f.lead then CRLF else [], f.data + w;
    HexFits(n);
    HeaderRead(lead, HexOf(n), [], after);
    var v := EncodeFrame(f) + w;
    assert v == lead + (HexOf(n) + [] + CRLF + after);
    assert v[|v| - |after|..] == after;
    DataRead(v, f.data, w);
  }

  lemma LastRead()
    ensures Dechunk(LAST) == [] && Sane(LAST)
  {
    HeaderRead(CRLF, [48], [], CRLF);
    assert LAST == CRLF + ([48] + [] + CRLF + CRLF);
    assert HexVal([48]) == 16 * HexVal([48][..0]) + HexDigit([48][0]);
  }

  // What was framed is what the receiver delivers.
  lemma {:induction false} FramesRead(fs: seq<Frame>)
    requires NoEmpty(fs)
    ensures Dechunk(EncodeFrames(fs) + LAST) == FrameData(fs) && Sane(EncodeFrames(fs) + LAST)
  {
    if fs == [] {
      LastRead();
      assert EncodeFrames(fs) + LAST == LAST;
    } else {
      FramesRead(fs[1..]);
      FrameRead(fs[0], EncodeFrames(fs[1..]) + LAST);
      assert EncodeFrames(fs) + LAST == EncodeFrame(fs[0]) + (EncodeFrames(fs[1..]) + LAST);
    }
  }

  class Sender {
    const buf: array<Byte>
    var bufidx: nat
    var chunksize: nat   // bytes framed so far, as a size_t
    var out: seq<Byte>   // everything given to fsend
    ghost var frames: seq<Frame>

    ghost predicate Valid()
      reads this, buf
    {
      buf.Length == BUFLEN && bufidx <= BUFLEN && NoEmpty(frames) && out == EncodeFrames(frames)
    }

    // Everything accepted so far.
    ghost function Sent(): seq<Byte>
      requires bufidx <= buf.Length
      reads this, buf
    {
      FrameData(frames) + buf[..bufidx]
    }

    constructor ()
      ensures Valid() && Sent() == [] && fresh(buf)
    {
      buf := new Byte[BUFLEN](_ => 0);
      bufidx, chunksize, out, frames := 0, 0, [], [];
    }

    method Fsend(s: seq<Byte>)
      modifies `out
      ensures out == old(out) + s
    {
      out := out + s;
    }

    // soap_flush_raw in chunk mode
    method FlushRaw(s: seq<Byte>)
      requires Valid() && 0 < |s| <= BUFLEN
      modifies `out, `chunksize, `frames
      ensures Valid() && frames == old(frames) + [Frame(old(chunksize) != 0, s)]
    {
      hide EncodeFrames, FrameData, HexOf;
      EncodeAppend(frames, Frame(chunksize != 0, s));
      var t := (if chunksize != 0 then CRLF else []) + HexOf(|s|) + CRLF;
      Fsend(t);
      chunksize := (chunksize + |s|) % SIZE_LIMIT;
      Fsend(s);
      frames := frames + [Frame(old(chunksize) != 0, s)];
      assert out == old(out) + (t + s);
    }

    // soap_flush
    method Flush()
      requires Valid()
      modifies this
      ensures Valid() && bufidx == 0 && Sent() == old(Sent())
    {
      var n := bufidx;
      if n != 0 {
        EncodeAppend(frames, Frame(chunksize != 0, buf[..n]));
        bufidx := 0;
        FlushRaw(buf[..n]);
      }
    }

    // soap_send_raw
    method SendRaw(s: seq<Byte>)
      requires Valid()
      modifies this, buf
      ensures Valid() && Sent() == old(Sent()) + s
    {
      if |s| == 0 {
        return;
      }
      ghost var was := Sent();
      var k, n, i := 0, |s|, BUFLEN - bufidx;
      while n >= i
        invariant Valid() && 0 <= k && 0 <= n && k + n == |s| && i == BUFLEN - bufidx
        invariant Sent() == was + s[..k]
        decreases n, if i == 0 then 1 else 0
      {
        Store(s[k..k + i]);
        assert s[..k + i] == s[..k] + s[k..k + i];
        Flush();
        k := k + i;
        n := n - i;
        i := BUFLEN;
      }
      Store(s[k..]);
      assert s == s[..k] + s[k..];
    }

    // memcpy(buf + bufidx, s, n)
    method Store(s: seq<Byte>)
      requires Valid() && bufidx + |s| <= BUFLEN
      modifies `bufidx, buf
      ensures Valid() && bufidx == old(bufidx) + |s| && Sent() == old(Sent()) + s
    {
      forall j | 0 <= j < |s| {
        buf[bufidx + j] := s[j];
      }
      bufidx := bufidx + |s|;
      assert buf[..bufidx] == old(buf[..bufidx]) + s;
    }

    // soap_end_send in chunk mode
    method EndSend()
      requires Valid()
      modifies this
      ensures NoEmpty(frames) && out == EncodeFrames(frames) + LAST
      ensures Dechunk(out) == old(Sent()) && Sane(out)
    {
      Flush();
      Fsend(LAST);
      FramesRead(frames);
    }
  }

  /** Sends the messages one by one, and reads them back through a transport that
      may split the bytes in any way. */
  method Transfer(msgs: seq<seq<Byte>>) returns (got: seq<Byte>)
    ensures got == Concat(msgs)
  {
    hide Dechunk, Sane, EncodeFrames, FrameData, NoEmpty;
    var s := new Sender();
    var k := 0;
    while k < |msgs|
      invariant 0 <= k <= |msgs| && s.Valid() && s.Sent() == Concat(msgs[..k]) && fresh(s) && fresh(s.buf)
    {
      s.SendRaw(msgs[k]);
      assert msgs[..k + 1] == msgs[..k] + [msgs[k]];
      ConcatAppend(msgs[..k], msgs[k]);
      k := k + 1;
    }
    assert msgs[..k] == msgs;
    s.EndSend();
    var w := s.out;
    assert [][0..] + w == w;
    var r := new Receiver([], 0, w);
    got := r.ReadAll();
  }
}
