/**
 Packets on a byte stream: eight bytes of type and length, then the data. The reference parser works
 on a whole stream; masterconn_read works on whatever pieces the socket delivers.
 */
module Framing {
  import opened Options

  newtype Byte = x: int | 0 <= x < 256

  const MAX_PACKET: nat := 10000    // MATOCS_MAXPACKETSIZE

  datatype Packet = Packet(kind: nat, data: seq<Byte>) {
    predicate Encodable() {
      kind < 0x1_0000_0000 && |data| < 0x1_0000_0000
    }
  }

  function Get32(b: seq<Byte>): (n: nat)
    requires |b| >= 4
    ensures n < 0x1_0000_0000
  {
    ((b[0] as int * 256 + b[1] as int) * 256 + b[2] as int) * 256 + b[3] as int
  }

  function Put32(n: nat): (b: seq<Byte>)
    requires n < 0x1_0000_0000
    ensures |b| == 4 && Get32(b) == n
  {
    var hi, lo := n / 0x1_0000, n % 0x1_0000;
    [(hi / 256) as Byte, (hi % 256) as Byte, (lo / 256) as Byte, (lo % 256) as Byte]
  }

  /** Which of two sequences of bytes comes first, byte by byte. */
  predicate Before(a: seq<Byte>, b: seq<Byte>)
    requires |a| == |b|
  {
    |a| > 0 && (a[0] < b[0] || (a[0] == b[0] && Before(a[1..], b[1..])))
  }

  /** The first byte weighs most: numbers compare as their bytes do. */
  lemma NumbersInOrder(a: seq<Byte>, b: seq<Byte>)
    requires |a| == |b| == 4
    ensures Get32(a) < Get32(b) <==> Before(a, b)
    ensures Get32([0, 0, 0, 1]) == 1
  {
    assert a[1..][1..] == a[2..] && a[2..][1..] == a[3..] && a[3..][1..] == [];
    assert b[1..][1..] == b[2..] && b[2..][1..] == b[3..] && b[3..][1..] == [];
    assert Before(a[3..], b[3..]) <==> a[3] < b[3];
    assert Before(a[2..], b[2..]) <==> a[2] < b[2] || (a[2] == b[2] && a[3] < b[3]);
    assert Before(a[1..], b[1..]) <==> a[1] < b[1] || (a[1] == b[1] && Before(a[2..], b[2..]));
  }

  /** The complete packets of a stream and what follows them; a length over the limit ends it. */
  datatype Parsed = Parsed(packets: seq<Packet>, rest: seq<Byte>, tooLong: bool)

  /** The length a header gives. */
  function Leng(s: seq<Byte>): nat
    requires |s| >= 8
  {
    Get32(s[4..8])
  }

  predicate TooLong(s: seq<Byte>) {
    |s| >= 8 && Leng(s) > MAX_PACKET
  }

  predicate Complete(s: seq<Byte>) {
    |s| >= 8 && Leng(s) <= MAX_PACKET && |s| >= 8 + Leng(s)
  }

  function First(s: seq<Byte>): Packet
    requires Complete(s)
  {
    Packet(Get32(s[..4]), s[8..8 + Leng(s)])
  }

  function Parse(s: seq<Byte>): (r: Parsed) {
    if Complete(s) then
      var r := Parse(s[8 + Leng(s)..]);
      r.(packets := [First(s)] + r.packets)
    else Parsed([], s, TooLong(s))
  }

  /** A packet whose type and length fit into its header. */
  type Sendable = p: Packet | p.Encodable() witness Packet(0, [])

  function Encode(p: Sendable): (b: seq<Byte>)
    ensures |b| == 8 + |p.data|
  {
    Put32(p.kind) + Put32(|p.data|) + p.data
  }

  lemma HeaderStays(s: seq<Byte>, t: seq<Byte>)
    requires |s| >= 8
    ensures Leng(s + t) == Leng(s) && TooLong(s + t) == TooLong(s)
    ensures Complete(s) ==> Complete(s + t) && First(s + t) == First(s)
    ensures Complete(s) ==> (s + t)[8 + Leng(s)..] == s[8 + Leng(s)..] + t
  {
    assert (s + t)[4..8] == s[4..8] && (s + t)[..4] == s[..4];
    if Complete(s) {
      assert (s + t)[8..8 + Leng(s)] == s[8..8 + Leng(s)];
    }
  }

  /** Parsing goes on from what was left. */
  function Resume(p: Parsed, t: seq<Byte>): Parsed {
    var r := Parse(p.rest + t);
    r.(packets := p.packets + r.packets)
  }

  lemma ResumePrepends(p: Packet, r: Parsed, t: seq<Byte>)
    ensures Resume(r.(packets := [p] + r.packets), t) == Resume(r, t).(packets := [p] + Resume(r, t).packets)
  {
    var a, b := r.packets, Parse(r.rest + t).packets;
    assert [p] + (a + b) == ([p] + a) + b;
  }

  /** Parsing can stop anywhere and go on from what was left. */
  lemma {:induction false} ParseContinues(s: seq<Byte>, t: seq<Byte>)
    ensures Parse(s).tooLong ==> Parse(s + t).tooLong && Parse(s + t).packets == Parse(s).packets
    ensures !Parse(s).tooLong ==> Parse(s + t) == Resume(Parse(s), t)
    decreases |s|
  {
    if |s| >= 8 {
      HeaderStays(s, t);
    }
    if Complete(s) {
      var rest := s[8 + Leng(s)..];
      ParseContinues(rest, t);
      ResumePrepends(First(s), Parse(rest), t);
    } else {
      assert [] + Parse(s + t).packets == Parse(s + t).packets;
    }
  }

  /** A packet is parsed back, whatever follows. */
  lemma ParseEncoded(p: Sendable, t: seq<Byte>)
    requires |p.data| <= MAX_PACKET
    ensures Parse(Encode(p) + t) == Parse(t).(packets := [p] + Parse(t).packets)
  {
    var s := Encode(p) + t;
    assert s[..4] == Put32(p.kind);
    assert s[4..8] == Put32(|p.data|);
    assert s[8..8 + |p.data|] == p.data;
    assert s[8 + |p.data|..] == t;
  }

  /** A stream of whole packets. */
  function EncodeAll(ps: seq<Sendable>): seq<Byte> {
    if |ps| == 0 then [] else EncodeAll(ps[..|ps| - 1]) + Encode(ps[|ps| - 1])
  }

  lemma Regroup<T>(a: seq<T>, b: seq<T>, c: seq<T>)
    ensures a + b + c == a + (b + c)
  {
  }

  lemma ParseOneMore(front: seq<Packet>, p: Packet, f: seq<Byte>, e: seq<Byte>, t: seq<Byte>)
    requires Parse(f + (e + t)) == Parse(e + t).(packets := front + Parse(e + t).packets)
    requires Parse(e + t) == Parse(t).(packets := [p] + Parse(t).packets)
    ensures Parse(f + e + t) == Parse(t).(packets := front + [p] + Parse(t).packets)
  {
    Regroup(f, e, t);
    Regroup(front, [p], Parse(t).packets);
  }

  /** The packets ps are read before those of t. */
  ghost predicate ReadsFirst(ps: seq<Packet>, s: seq<Byte>, t: seq<Byte>) {
    Parse(s + t) == Parse(t).(packets := ps + Parse(t).packets)
  }

  lemma ReadsLast(ps: seq<Sendable>, t: seq<Byte>)
    requires |ps| > 0 && |ps[|ps| - 1].data| <= MAX_PACKET
    requires var n := |ps| - 1; ReadsFirst(ps[..n], EncodeAll(ps[..n]), Encode(ps[n]) + t)
    ensures ReadsFirst(ps, EncodeAll(ps), t)
  {
    var front, p := ps[..|ps| - 1], ps[|ps| - 1];
    ParseEncoded(p, t);
    ParseOneMore(front, p, EncodeAll(front), Encode(p), t);
    assert ps == front + [p];
  }

  /** Whole packets are parsed back in order, whatever follows them. */
  lemma {:induction false} ParseAll(ps: seq<Sendable>, t: seq<Byte>)
    requires forall p :: p in ps ==> |p.data| <= MAX_PACKET
    ensures Parse(EncodeAll(ps) + t) == Parse(t).(packets := ps + Parse(t).packets)
  {
    if |ps| == 0 {
      assert EncodeAll(ps) + t == t;
      assert ps + Parse(t).packets == Parse(t).packets;
    } else {
      ParseAll(ps[..|ps| - 1], Encode(ps[|ps| - 1]) + t);
      ReadsLast(ps, t);
    }
  }

  /** More bytes that do not complete a packet. */
  lemma StillOpen(stream: seq<Byte>, queue: seq<Packet>, pending: seq<Byte>, piece: seq<Byte>)
    requires Parse(stream) == Parsed(queue, pending, false) && !Complete(pending + piece)
    ensures Parse(stream + piece) == Parsed(queue, pending + piece, TooLong(pending + piece))
  {
    ParseContinues(stream, piece);
    assert queue + [] == queue;
  }

  /** More bytes that just complete one. */
  lemma NowComplete(stream: seq<Byte>, queue: seq<Packet>, pending: seq<Byte>, piece: seq<Byte>)
    requires Parse(stream) == Parsed(queue, pending, false)
    requires Complete(pending + piece) && |pending + piece| == 8 + Leng(pending + piece)
    ensures Parse(stream + piece) == Parsed(queue + [First(pending + piece)], [], false)
  {
    var now := pending + piece;
    ParseContinues(stream, piece);
    assert now[8 + Leng(now)..] == [];
    assert Parse(now).packets == [First(now)] + Parse([]).packets;
    assert [First(now)] + [] == [First(now)];
  }

  /** The unfinished packet: a header, or a header and some of its data. */
  lemma HeaderAndData(h: seq<Byte>, d: seq<Byte>)
    requires |h| == 8
    ensures Leng(h + d) == Get32(h[4..8])
    ensures Complete(h + d) ==> First(h + d) == Packet(Get32(h[..4]), d[..Leng(h + d)])
  {
    assert (h + d)[4..8] == h[4..8] && (h + d)[..4] == h[..4];
    if Complete(h + d) {
      assert (h + d)[8..8 + Leng(h + d)] == d[..Leng(h + d)];
    }
  }

  /** memcpy into a buffer. */
  method Fill(a: array<Byte>, pos: nat, src: seq<Byte>)
    requires pos + |src| <= a.Length
    modifies a
    ensures a[..pos + |src|] == old(a[..pos]) + src
  {
    var i := 0;
    while i < |src|
      invariant 0 <= i <= |src|
      invariant a[..pos + i] == old(a[..pos]) + src[..i]
    {
      a[pos + i] := src[i];
      i := i + 1;
      assert a[..pos + i] == a[..pos + i - 1] + [src[i - 1]];
    }
  }

  /** The input side of a connection. */
  class Connection {
    const hdr: array<Byte>               // input_hdr
    var packet: Option<(nat, nat)>       // type and length of the packet whose data is being read
    var data: array<Byte>                // its data
    var start: nat                       // where the next byte goes, in hdr or in data
    var bytesleft: nat                   // bytes missing there
    var end: bool
    var queue: seq<Packet>
    ghost var stream: seq<Byte>          // everything received

    ghost function Pending(): seq<Byte>
      reads this, hdr, data
      requires start <= (if packet.None? then hdr.Length else data.Length)
    {
      if packet.None? then hdr[..start] else hdr[..] + data[..start]
    }

    ghost predicate Shape()
      reads this, hdr, data
    {
      && hdr.Length == 8 && hdr != data
      && match packet
         case None => start + bytesleft == 8
         case Some((kind, leng)) =>
           && data.Length == leng == start + bytesleft && leng <= MAX_PACKET
           && kind == Get32(hdr[..4]) && leng == Get32(hdr[4..8])
    }

    ghost predicate Valid()
      reads this, hdr, data
    {
      if end then Parse(stream).tooLong && queue == Parse(stream).packets
      else Shape() && bytesleft > 0 && Parse(stream) == Parsed(queue, Pending(), false)
    }

    constructor ()
      ensures Valid() && !end && stream == [] && fresh(hdr) && fresh(data)
    {
      hdr := new Byte[8](_ => 0);
      data := new Byte[0];
      packet, start, bytesleft, end, queue, stream := None, 0, 8, false, [], [];
    }

    /** Bytes of a header; with the last of them the packet is opened, and closed if it has no data. */
    method TakeHeader(piece: seq<Byte>)
      requires Valid() && !end && packet.None? && 0 < |piece| <= bytesleft
      modifies this, hdr
      ensures Valid() && stream == old(stream) + piece
      ensures data == old(data) || fresh(data)
    {
      ghost var pending := hdr[..start];
      Fill(hdr, start, piece);
      start := start + |piece|;
      bytesleft := bytesleft - |piece|;
      stream := stream + piece;
      ghost var now := pending + piece;
      assert hdr[..start] == now;
      if bytesleft > 0 {
        StillOpen(old(stream), queue, pending, piece);
        return;
      }
      assert hdr[..] == now;
      HeaderAndData(now, []);
      assert now + [] == now;
      var kind, leng := Get32(hdr[..4]), Get32(hdr[4..8]);
      if leng > MAX_PACKET {
        StillOpen(old(stream), queue, pending, piece);
        end := true;
        return;
      }
      if leng > 0 {
        StillOpen(old(stream), queue, pending, piece);
      } else {
        NowComplete(old(stream), queue, pending, piece);
      }
      OpenPacket(kind, leng);
    }

    /** A packet whose data is complete is queued, and the next header is awaited. */
    method ClosePacket()
      requires hdr.Length == 8 && hdr != data && packet.Some? && !end
      requires Parse(stream) == Parsed(queue + [Packet(packet.value.0, data[..])], [], false)
      modifies this
      ensures Valid() && stream == old(stream) && data == old(data)
    {
      queue := queue + [Packet(packet.value.0, data[..])];
      packet := None;
      bytesleft := 8;
      start := 0;
      assert hdr[..0] == [];
    }

    /** A packet of the given length begins; one without data is complete. */
    method OpenPacket(kind: nat, leng: nat)
      requires hdr.Length == 8 && leng <= MAX_PACKET && !end
      requires kind == Get32(hdr[..4]) && leng == Get32(hdr[4..8])
      requires leng > 0 ==> Parse(stream) == Parsed(queue, hdr[..], false)
      requires leng == 0 ==> Parse(stream) == Parsed(queue + [Packet(kind, [])], [], false)
      modifies this
      ensures Valid() && stream == old(stream) && fresh(data)
    {
      packet := Some((kind, leng));
      data := new Byte[leng];
      start := 0;
      bytesleft := leng;
      assert hdr[..] + data[..0] == hdr[..];
      if bytesleft > 0 {
        return;
      }
      assert data[..] == [];
      ClosePacket();
    }

    /** Bytes of the data of a packet; with the last of them it is queued. */
    method TakeData(piece: seq<Byte>)
      requires Valid() && !end && packet.Some? && 0 < |piece| <= bytesleft
      modifies this, data
      ensures Valid() && stream == old(stream) + piece
      ensures data == old(data)
    {
      ghost var h, d := hdr[..], data[..start];
      Fill(data, start, piece);
      start := start + |piece|;
      bytesleft := bytesleft - |piece|;
      stream := stream + piece;
      assert data[..start] == d + piece;
      assert h + d + piece == h + (d + piece);
      HeaderAndData(h, d + piece);
      if bytesleft > 0 {
        StillOpen(old(stream), queue, h + d, piece);
        return;
      }
      NowComplete(old(stream), queue, h + d, piece);
      assert data[..] == d + piece;
      ClosePacket();
    }

    /** One round of the loop. */
    method TakePiece(piece: seq<Byte>)
      requires Valid() && !end && 0 < |piece| <= bytesleft
      modifies this, hdr, data
      ensures Valid() && stream == old(stream) + piece
      ensures data == old(data) || fresh(data)
    {
      if packet.None? {
        TakeHeader(piece);
      } else {
        TakeData(piece);
      }
    }

    /** After a header that is too long nothing more is parsed. */
    ghost method Discard(rest: seq<Byte>)
      requires Valid() && end
      modifies this`stream
      ensures Valid() && stream == old(stream) + rest
    {
      ParseContinues(stream, rest);
      stream := stream + rest;
    }

    /** The next piece of the bytes read: as many as are missing, or all there are. */
    method TakeNext(buf: seq<Byte>, rbpos: nat) returns (next: nat)
      requires Valid() && !end && rbpos < |buf|
      modifies this, hdr, data
      ensures Valid() && rbpos < next <= |buf| && stream + buf[next..] == old(stream) + buf[rbpos..]
      ensures data == old(data) || fresh(data)
    {
      var i := if |buf| - rbpos >= bytesleft then bytesleft else |buf| - rbpos;
      next := rbpos + i;
      NextPiece(stream, buf, rbpos, next);
      TakePiece(buf[rbpos..next]);
    }

    method ReadPieces(buf: seq<Byte>)
      requires Valid() && !end
      modifies this, hdr, data
      ensures Valid() && stream == old(stream) + buf
      ensures data == old(data) || fresh(data)
    {
      ghost var total := stream + buf;
      var rbpos := 0;
      assert buf[0..] == buf;
      while rbpos < |buf| && !end
        invariant 0 <= rbpos <= |buf|
        invariant Valid() && stream + buf[rbpos..] == total
        invariant data == old(data) || fresh(data)
        decreases |buf| - rbpos
      {
        rbpos := TakeNext(buf, rbpos);
      }
      if end {
        Discard(buf[rbpos..]);
      } else {
        assert stream + buf[rbpos..] == stream;
      }
    }

    /** masterconn_read, given the bytes the socket had: the packets are those of the whole stream. */
    method Read(buf: seq<Byte>)
      requires Valid() && !end
      modifies this, hdr, data
      ensures Valid() && stream == old(stream) + buf
      ensures queue == Parse(stream).packets && end == Parse(stream).tooLong
      ensures data == old(data) || fresh(data)
    {
      ReadPieces(buf);
    }
  }

  lemma NextPiece(s: seq<Byte>, buf: seq<Byte>, a: nat, b: nat)
    requires a <= b <= |buf|
    ensures s + buf[a..b] + buf[b..] == s + buf[a..]
  {
  }
}
