/** aan's message header on the wire: three 32-bit numbers, low byte first (aan.c: packhdr, unpackhdr). */
module AanHeader {
  import opened AanModel

  const TWO32 := 0x1_0000_0000

  /** The three header words as the program's unsigned 32-bit fields. */
  datatype Hdr = Hdr(nb: nat, msg: nat, acked: nat)

  predicate Fits(h: Hdr) { h.nb < TWO32 && h.msg < TWO32 && h.acked < TWO32 }

  /** An int stored in such a field. */
  function Word(x: int): nat { x % TWO32 }

  /** The field read back as a signed long. */
  function AsLong(w: nat): int { if w < TWO32 / 2 then w else w - TWO32 }

  function Put(v: nat): seq<nat> {
    [v % 256, v / 256 % 256, v / 0x1_0000 % 256, v / 0x100_0000 % 256]
  }

  function Get(p: seq<nat>): nat
    requires |p| == 4
  {
    p[0] + 0x100 * p[1] + 0x1_0000 * p[2] + 0x100_0000 * p[3]
  }

  function PackHdr(h: Hdr): seq<nat> { Put(h.nb) + Put(h.msg) + Put(h.acked) }

  function UnpackHdr(buf: seq<nat>): Hdr
    requires |buf| == 12
  {
    Hdr(Get(buf[..4]), Get(buf[4..8]), Get(buf[8..12]))
  }

  /** Unpacking a packed header gives it back; a keep-alive's -1 is seen as negative by the reader. */
  lemma HeaderRoundTrip(h: Hdr)
    requires Fits(h)
    ensures |PackHdr(h)| == 12 && UnpackHdr(PackHdr(h)) == h
    ensures AsLong(Word(-1)) == -1 && forall k :: 0 <= k < TWO32 / 2 ==> AsLong(Word(k)) == k
  {
    var p := PackHdr(h);
    assert p[..4] == Put(h.nb) && p[4..8] == Put(h.msg) && p[8..12] == Put(h.acked);
    PutGet(h.nb);
    PutGet(h.msg);
    PutGet(h.acked);
  }

  lemma PutGet(v: nat)
    requires v < TWO32
    ensures Get(Put(v)) == v
  {
    var a := v / 256;
    var b := a / 256;
    var c := b / 256;
    assert v / 0x1_0000 == b && v / 0x100_0000 == c;
    assert v == v % 256 + 256 * (a % 256 + 256 * (b % 256 + 256 * c));
  }

  // ----- what a header means

  /** What fromnet does with a header: the peer's end, a keep-alive, or a message with data. */
  datatype Fate = Ends | KeepsAlive | HasData

  function FateOf(buf: seq<nat>): Fate
    requires |buf| == 12
  {
    var h := UnpackHdr(buf);
    if h.nb != 0 then HasData else if AsLong(h.msg) >= 0 then Ends else KeepsAlive
  }

  /** The header that packhdr writes in front of a message. */
  function Header(m: Msg): seq<nat> { PackHdr(Hdr(|m.data|, Word(m.msg), Word(m.acked))) }

  /**
    The header of a message of less than 2^31 messages and 2^32 bytes decides what fromnet
    does next: it stops exactly at an end of input, goes on reading at a keep-alive and at
    data it has seen, and takes new data.
   */
  lemma HeaderDecides(s: Side)
    requires Enabled(s, NetReceive)
    requires var m := s.inw[0].msgs[0]; -1 <= m.msg < TWO32 / 2 && |m.data| < TWO32
    ensures var m := s.inw[0].msgs[0];
            var pc := Do(s, NetReceive).e.net;
            && |Header(m)| == 12
            && (FateOf(Header(m)) == Ends <==> pc == NetDone)
            && (FateOf(Header(m)) == KeepsAlive <==> IsKeepAlive(m))
            && (pc == NetIdle <==>
                FateOf(Header(m)) == KeepsAlive || (FateOf(Header(m)) == HasData && m.msg < s.e.inmsg))
            && (pc == NetAck(m, 0) <==> FateOf(Header(m)) == HasData && m.msg >= s.e.inmsg)
  {
    var m := s.inw[0].msgs[0];
    HeaderRoundTrip(Hdr(|m.data|, Word(m.msg), Word(m.acked)));
  }

  // ----- a header cut short

  predicate Bytes(buf: seq<nat>) { forall i :: 0 <= i < |buf| ==> buf[i] < 256 }

  /** A break after m bytes of a header leaves the rest of the previous one in the buffer, and any m > 0 is accepted. */
  function Torn(prev: seq<nat>, next: seq<nat>, m: nat): seq<nat>
    requires |prev| == |next| == 12 && m <= 12
  {
    next[..m] + prev[m..]
  }

  /** A buffer ends the endpoint exactly when its size is zero and the top bit of its number is clear. */
  lemma EndsExactly(buf: seq<nat>)
    requires |buf| == 12 && Bytes(buf)
    ensures FateOf(buf) == Ends <==> buf[0] == 0 && buf[1] == 0 && buf[2] == 0 && buf[3] == 0 && buf[7] < 128
  {
    var nb, msg := buf[..4], buf[4..8];
    assert msg[3] == buf[7] && Bytes(msg);
    TopBit(msg);
  }

  lemma TopBit(p: seq<nat>)
    requires |p| == 4 && Bytes(p)
    ensures AsLong(Get(p)) >= 0 <==> p[3] < 128
  {
  }

  lemma PutBytes(v: nat)
    ensures Bytes(Put(v)) && |Put(v)| == 4
  {
  }

  /** The bytes of a number from place m on are zero exactly when it is below 256^m. */
  lemma SmallNumber(v: nat)
    requires v < TWO32
    ensures var p := Put(v);
            && (p[1] == 0 && p[2] == 0 && p[3] == 0 <==> v < 0x100)
            && (p[2] == 0 && p[3] == 0 <==> v < 0x1_0000)
            && (p[3] == 0 <==> v < 0x100_0000)
            && (p[3] < 128 <==> AsLong(v) >= 0)
  {
    PutGet(v);
  }

  /**
    A connection that breaks inside a keep-alive, after m bytes of its header, makes fromnet
    stop as if the peer had ended exactly when the message before it was one with data or an
    end, at most seven bytes arrived, and fewer than four only if they covered its size.
   */
  lemma TornKeepAlive(prev: Hdr, acked: nat, m: nat)
    requires Fits(prev) && acked < TWO32 && 0 < m < 12
    ensures FateOf(Torn(PackHdr(prev), PackHdr(Hdr(0, Word(-1), acked)), m)) == Ends <==>
            AsLong(prev.msg) >= 0 && m <= 7 && (m == 1 ==> prev.nb < 0x100) && (m == 2 ==> prev.nb < 0x1_0000)
            && (m == 3 ==> prev.nb < 0x100_0000)
  {
    var p, q := PackHdr(prev), PackHdr(Hdr(0, Word(-1), acked));
    var nb, msg := Put(prev.nb), Put(prev.msg);
    PackedBytes(prev);
    PackedBytes(Hdr(0, Word(-1), acked));
    SmallNumber(prev.nb);
    SmallNumber(prev.msg);
    TornBytes(p, q, m, Torn(p, q, m));
    EndsExactly(Torn(p, q, m));
  }

  lemma PackedBytes(h: Hdr)
    ensures var p := PackHdr(h);
            && |p| == 12 && Bytes(p) && p[7] == Put(h.msg)[3]
            && p[0] == Put(h.nb)[0] && p[1] == Put(h.nb)[1] && p[2] == Put(h.nb)[2] && p[3] == Put(h.nb)[3]
  {
    PutBytes(h.nb);
    PutBytes(h.msg);
    PutBytes(h.acked);
  }

  lemma TornBytes(p: seq<nat>, q: seq<nat>, m: nat, buf: seq<nat>)
    requires |p| == |q| == 12 && Bytes(p) && Bytes(q) && m <= 12 && buf == Torn(p, q, m)
    ensures |buf| == 12 && Bytes(buf)
    ensures forall i :: 0 <= i < 12 ==> buf[i] == if i < m then q[i] else p[i]
  {
  }
}
