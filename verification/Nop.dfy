/**
 One socket written to by two threads: the thread of a connection, which sends whole packets, and the
 thread that keeps idle connections alive with NOP packets and may be stopped in the middle of one.
 The first takes its socket off the second's list before it sends.
 */
module Nop {
  import Framing

  type Byte = Framing.Byte

  /** How packets are encoded, and the NOP packet; its encoding is sock_nop_buff. */
  datatype Codec<!P(!new)> = Codec(enc: P -> seq<Byte>, nop: P) {
    ghost predicate Valid() {
      |enc(nop)| == 8
    }

    /** A stream of whole packets. */
    function All(ps: seq<P>): seq<Byte> {
      if |ps| == 0 then [] else All(ps[..|ps| - 1]) + enc(ps[|ps| - 1])
    }

    lemma AllPush(ps: seq<P>, p: P)
      ensures All(ps + [p]) == All(ps) + enc(p)
    {
      assert (ps + [p])[..|ps|] == ps;
    }
  }

  /** What write() or mainserv_towrite() did: so many bytes, none yet, or an error. */
  datatype Outcome = Wrote(n: nat) | Again | Failed

  datatype Sock<P> = Sock(
    wire: seq<Byte>,        // every byte sent
    sent: seq<P>,           // the packets sent in full
    attached: bool,         // on the list of the NOP thread
    bytesleft: nat,         // of a NOP that was begun; 8 when not even its first byte went out
    error: bool)

  datatype Step<P> =
    | Tick(o: Outcome)                  // the NOP thread finds the socket due
    | Add                               // mainserv_sock_nop_add
    | Del(o: Outcome)                   // mainserv_sock_nop_del
    | Send(p: P, n: nat)                // n bytes of a packet go out

  /** Sends n bytes of the end of the NOP, of which left bytes are missing. */
  function SendTail<P(!new)>(k: Codec<P>, s: Sock<P>, left: nat, n: nat): Sock<P>
    requires n <= left <= |k.enc(k.nop)| == 8
  {
    s.(wire := s.wire + k.enc(k.nop)[8 - left..8 - left + n],
       sent := if n == left then s.sent + [k.nop] else s.sent,
       bytesleft := left - n)
  }

  function Ticked<P(!new)>(k: Codec<P>, s: Sock<P>, o: Outcome): Sock<P>
    requires |k.enc(k.nop)| == 8
  {
    if s.attached && !s.error && s.bytesleft <= 8 then
      var left := if s.bytesleft > 0 then s.bytesleft else 8;
      match o
      case Wrote(n) => if n <= left then SendTail(k, s, left, n) else s
      case Again => s.(bytesleft := left)
      case Failed => s.(error := true, bytesleft := 0)
    else s
  }

  function Deleted<P(!new)>(k: Codec<P>, s: Sock<P>, o: Outcome): Sock<P>
    requires |k.enc(k.nop)| == 8
  {
    var t := s.(attached := false);
    if 0 < s.bytesleft < 8 then
      if o.Wrote? && o.n <= s.bytesleft then
        SendTail(k, t, s.bytesleft, o.n).(error := s.error || o.n < s.bytesleft, bytesleft := 0)
      else t.(error := true, bytesleft := 0)
    else t.(bytesleft := 0)
  }

  /** The number of bytes after the last whole packet. */
  function Stuck<P(!new)>(k: Codec<P>, s: Sock<P>): int {
    |s.wire| - |k.All(s.sent)|
  }

  function Sent<P(!new)>(k: Codec<P>, s: Sock<P>, p: P, n: nat): Sock<P> {
    if !s.attached && n <= |k.enc(p)| then
      var whole := n == |k.enc(p)|;
      s.(wire := s.wire + k.enc(p)[..n],
         sent := if whole then s.sent + [p] else s.sent)
    else s
  }

  function Next<P(!new)>(k: Codec<P>, s: Sock<P>, step: Step<P>): Sock<P>
    requires |k.enc(k.nop)| == 8
  {
    match step
    case Tick(o) => Ticked(k, s, o)
    case Add => s.(attached := true)
    case Del(o) => Deleted(k, s, o)
    case Send(p, n) => Sent(k, s, p, n)
  }

  function Run<P(!new)>(k: Codec<P>, steps: seq<Step<P>>): (s: Sock<P>)
    requires |k.enc(k.nop)| == 8
  {
    if |steps| == 0 then Sock([], [], false, 0, false)
    else Next(k, Run(k, steps[..|steps| - 1]), steps[|steps| - 1])
  }

  // ----- What every step keeps -----

  /** Whole packets, then j bytes of a NOP. */
  ghost predicate Holds<P(!new)>(k: Codec<P>, s: Sock<P>, j: nat) {
    j <= |k.enc(k.nop)| == 8 && s.wire == k.All(s.sent) + k.enc(k.nop)[..j]
  }

  /** How much of a NOP went out when so many of its bytes are left; none is begun when that is zero. */
  function Begun(left: nat): int {
    if left == 0 then 0 else 8 - left
  }

  /** A step that leaves a NOP cut short for good: it fails, or is not finished, with part of the NOP out. */
  predicate Cuts<P>(s: Sock<P>, step: Step<P>) {
    && 0 < s.bytesleft < 8
    && match step
       case Tick(o) => s.attached && !s.error && o.Failed?
       case Del(o) => o != Wrote(s.bytesleft)
       case _ => false
  }

  /** Some step of a run cuts a NOP short. */
  predicate Cut<P(!new)>(k: Codec<P>, steps: seq<Step<P>>)
    requires |k.enc(k.nop)| == 8
  {
    |steps| > 0 && (Cut(k, steps[..|steps| - 1]) || Cuts(Run(k, steps[..|steps| - 1]), steps[|steps| - 1]))
  }

  /** A packet goes out: a thread sends only while its socket is off the list. */
  predicate Sends<P(!new)>(k: Codec<P>, s: Sock<P>, step: Step<P>) {
    step.Send? && !s.attached && step.n <= |k.enc(step.p)|
  }

  /** Every packet is sent in full, and none after a NOP that was cut short. */
  predicate Orderly<P(!new)>(k: Codec<P>, steps: seq<Step<P>>)
    requires |k.enc(k.nop)| == 8
  {
    |steps| > 0 ==>
      var front, last := steps[..|steps| - 1], steps[|steps| - 1];
      Orderly(k, front) && (Sends(k, Run(k, front), last) ==> last.n == |k.enc(last.p)| && !Cut(k, front))
  }

  /**
   Whole packets and at most part of one NOP. It is what was begun and not yet finished, or what was
   left when a NOP was cut short; then the error flag is set.
   */
  ghost predicate Inv<P(!new)>(k: Codec<P>, s: Sock<P>, cut: bool) {
    && s.bytesleft <= 8
    && (s.error || !s.attached ==> s.bytesleft == 0)
    && 0 <= Stuck(k, s) < 8 && Holds(k, s, Stuck(k, s))
    && if cut then s.error && Stuck(k, s) > 0 else Stuck(k, s) == Begun(s.bytesleft)
  }

  lemma Piece(base: seq<Byte>, nop: seq<Byte>, i: nat, j: nat)
    requires i <= j <= |nop|
    ensures base + nop[..i] + nop[i..j] == base + nop[..j]
    ensures nop[..|nop|] == nop && base + nop[..0] == base
  {
  }

  lemma NopEnds<P(!new)>(k: Codec<P>, sent: seq<P>)
    requires k.Valid()
    ensures k.All(sent) + k.enc(k.nop)[..8] == k.All(sent + [k.nop]) + k.enc(k.nop)[..0]
  {
    k.AllPush(sent, k.nop);
    assert k.enc(k.nop)[..8] == k.enc(k.nop) && k.enc(k.nop)[..0] == [];
  }

  /** The end of a NOP follows its beginning. */
  lemma TailHolds<P(!new)>(k: Codec<P>, s: Sock<P>, left: nat, n: nat)
    requires k.Valid() && n <= left && 0 < left <= 8 && Holds(k, s, 8 - left)
    ensures Holds(k, SendTail(k, s, left, n), if n == left then 0 else 8 - left + n)
  {
    Piece(k.All(s.sent), k.enc(k.nop), 8 - left, 8 - left + n);
    if n == left {
      NopEnds(k, s.sent);
    }
  }

  lemma HoldsStuck<P(!new)>(k: Codec<P>, s: Sock<P>, j: nat)
    requires Holds(k, s, j)
    ensures Stuck(k, s) == j
  {
  }

  /** Sending the end of a NOP, or part of it. */
  lemma TailKeeps<P(!new)>(k: Codec<P>, s: Sock<P>, left: nat, n: nat)
    requires k.Valid() && Inv(k, s, false) && n <= left && 0 < left <= 8
    requires left == if s.bytesleft > 0 then s.bytesleft else 8
    ensures var t := SendTail(k, s, left, n);
            0 <= Stuck(k, t) < 8 && Holds(k, t, Stuck(k, t)) && Stuck(k, t) == Begun(t.bytesleft)
  {
    TailHolds(k, s, left, n);
    HoldsStuck(k, SendTail(k, s, left, n), if n == left then 0 else 8 - left + n);
  }

  /** Only the wire and the packets sent matter to what the stream holds. */
  lemma SameStream<P(!new)>(k: Codec<P>, s: Sock<P>, t: Sock<P>)
    requires t.wire == s.wire && t.sent == s.sent
    ensures Stuck(k, t) == Stuck(k, s)
    ensures 0 <= Stuck(k, s) ==> Holds(k, t, Stuck(k, t)) == Holds(k, s, Stuck(k, s))
  {
  }

  lemma TickKeeps<P(!new)>(k: Codec<P>, s: Sock<P>, cut: bool, o: Outcome)
    requires k.Valid() && Inv(k, s, cut)
    ensures Inv(k, Ticked(k, s, o), cut || Cuts(s, Tick(o)))
  {
    var left := if s.bytesleft > 0 then s.bytesleft else 8;
    if s.attached && !s.error && o.Wrote? && o.n <= left {
      TailKeeps(k, s, left, o.n);
    } else {
      SameStream(k, s, Ticked(k, s, o));
    }
  }

  /** A NOP finished, or not, by mainserv_sock_nop_del. */
  lemma TailDeleted<P(!new)>(k: Codec<P>, s: Sock<P>, n: nat)
    requires k.Valid() && Inv(k, s, false) && 0 < s.bytesleft < 8 && n <= s.bytesleft
    ensures Inv(k, Deleted(k, s, Wrote(n)), n < s.bytesleft)
  {
    var left := s.bytesleft;
    TailKeeps(k, s, left, n);
    var t, u := SendTail(k, s, left, n), Deleted(k, s, Wrote(n));
    assert u == t.(attached := false, error := n < left, bytesleft := 0);
    SameStream(k, t, u);
  }

  lemma DelKeeps<P(!new)>(k: Codec<P>, s: Sock<P>, cut: bool, o: Outcome)
    requires k.Valid() && Inv(k, s, cut)
    ensures Inv(k, Deleted(k, s, o), cut || Cuts(s, Del(o)))
  {
    if 0 < s.bytesleft < 8 && o.Wrote? && o.n <= s.bytesleft {
      TailDeleted(k, s, o.n);
      assert o == Wrote(o.n);
    } else {
      SameStream(k, s, Deleted(k, s, o));
    }
  }

  lemma SendKeeps<P(!new)>(k: Codec<P>, s: Sock<P>, p: P)
    requires k.Valid() && Inv(k, s, false) && !s.attached
    ensures Inv(k, Sent(k, s, p, |k.enc(p)|), false)
  {
    k.AllPush(s.sent, p);
    Piece(k.All(s.sent), k.enc(k.nop), 0, 0);
    Piece(k.All(s.sent + [p]), k.enc(k.nop), 0, 0);
    assert k.enc(p)[..|k.enc(p)|] == k.enc(p);
  }

  /** Every step keeps the shape of the stream, if a packet goes out in full and not after a cut. */
  lemma StepKeeps<P(!new)>(k: Codec<P>, s: Sock<P>, cut: bool, step: Step<P>)
    requires k.Valid() && Inv(k, s, cut)
    requires Sends(k, s, step) ==> step.n == |k.enc(step.p)| && !cut
    ensures Inv(k, Next(k, s, step), cut || Cuts(s, step))
  {
    match step
    case Tick(o) => TickKeeps(k, s, cut, o);
    case Add => assert Stuck(k, s.(attached := true)) == Stuck(k, s);
    case Del(o) => DelKeeps(k, s, cut, o);
    case Send(p, n) => if Sends(k, s, step) { SendKeeps(k, s, p); }
  }

  lemma {:induction false} RunKeeps<P(!new)>(k: Codec<P>, steps: seq<Step<P>>)
    requires k.Valid() && Orderly(k, steps)
    ensures Inv(k, Run(k, steps), Cut(k, steps))
  {
    if |steps| > 0 {
      var front := steps[..|steps| - 1];
      RunKeeps(k, front);
      StepKeeps(k, Run(k, front), Cut(k, front), steps[|steps| - 1]);
    }
  }

  // ----- Results -----

  /** In every orderly run the stream is whole packets and at most one unfinished NOP. */
  lemma WholePacketsAndOneNop<P(!new)>(k: Codec<P>, steps: seq<Step<P>>)
    requires k.Valid() && Orderly(k, steps)
    ensures var s := Run(k, steps);
            && 0 <= Stuck(k, s) < 8 && s.wire == k.All(s.sent) + k.enc(k.nop)[..Stuck(k, s)]
            && (Stuck(k, s) == 0 <==> !Cut(k, steps) && (s.bytesleft == 0 || s.bytesleft == 8))
  {
    RunKeeps(k, steps);
  }

  /** After mainserv_sock_nop_del the stream ends with a whole packet, unless a NOP was ever cut short. */
  lemma BoundaryAfterDel<P(!new)>(k: Codec<P>, steps: seq<Step<P>>, o: Outcome)
    requires k.Valid() && Orderly(k, steps)
    ensures var s := Deleted(k, Run(k, steps), o);
            && (s.wire == k.All(s.sent) <==> !Cut(k, steps) && !Cuts(Run(k, steps), Del(o)))
            && (!s.error ==> s.wire == k.All(s.sent))
  {
    RunKeeps(k, steps);
    DelKeeps(k, Run(k, steps), Cut(k, steps), o);
    Boundary(k, Deleted(k, Run(k, steps), o), Cut(k, steps) || Cuts(Run(k, steps), Del(o)));
  }

  lemma Boundary<P(!new)>(k: Codec<P>, s: Sock<P>, cut: bool)
    requires k.Valid() && Inv(k, s, cut) && !s.attached
    ensures s.wire == k.All(s.sent) <==> !cut
  {
    Piece(k.All(s.sent), k.enc(k.nop), 0, 0);
  }

  lemma SameEnd(w: seq<Byte>, a: seq<Byte>, e: seq<Byte>)
    ensures |w| == |a| && w == a ==> w + e == a + e
    ensures |w| != |a| ==> |w + e| != |a + e|
  {
  }

  lemma SendWhole<P(!new)>(k: Codec<P>, s: Sock<P>, cut: bool, p: P)
    requires k.Valid() && Inv(k, s, cut) && !s.attached
    ensures var t := Sent(k, s, p, |k.enc(p)|); t.wire == k.All(t.sent) <==> !cut
  {
    k.AllPush(s.sent, p);
    assert k.enc(p)[..|k.enc(p)|] == k.enc(p);
    Boundary(k, s, cut);
    SameEnd(s.wire, k.All(s.sent), k.enc(p));
  }

  /**
   A packet sent in full keeps the stream whole exactly when no step before it cut a NOP short. Such a
   step sets the error flag, which the sender does not look at.
   */
  lemma SendIsWhole<P(!new)>(k: Codec<P>, steps: seq<Step<P>>, p: P)
    requires k.Valid() && Orderly(k, steps) && !Run(k, steps).attached
    ensures var s := Run(k, steps);
            var t := Sent(k, s, p, |k.enc(p)|);
            && (t.wire == k.All(t.sent) <==> !Cut(k, steps))
            && (Cut(k, steps) ==> s.error)
  {
    RunKeeps(k, steps);
    SendWhole(k, Run(k, steps), Cut(k, steps), p);
  }

  // ----- A NOP goes out -----

  function Sum(ns: seq<nat>): nat {
    if |ns| == 0 then 0 else ns[0] + Sum(ns[1..])
  }

  /** Ticks that write so many bytes each. */
  function Ticks<P(!new)>(k: Codec<P>, s: Sock<P>, ns: seq<nat>): Sock<P>
    requires |k.enc(k.nop)| == 8
    decreases |ns|
  {
    if |ns| == 0 then s else Ticks(k, Ticked(k, s, Wrote(ns[0])), ns[1..])
  }

  lemma {:induction false} LastCounts(ns: seq<nat>)
    requires |ns| > 0 && ns[|ns| - 1] > 0
    ensures Sum(ns) > 0
  {
    if |ns| > 1 {
      LastCounts(ns[1..]);
    }
  }

  /** The next bytes of a NOP, and then all the others. */
  lemma RestOfNop(wire: seq<Byte>, nop: seq<Byte>, i: nat, j: nat, now: seq<Byte>, end: seq<Byte>)
    requires i <= j <= |nop| && now == wire + nop[i..j] && end == now + nop[j..]
    ensures end == wire + nop[i..]
  {
  }

  /** So many bytes of a NOP have been sent, none of them or all but some. */
  ghost predicate From<P(!new)>(k: Codec<P>, s: Sock<P>, from: nat) {
    k.Valid() && s.attached && !s.error && from < 8 && (s.bytesleft == 8 - from || (from == 0 && s.bytesleft == 0))
  }

  lemma TickSends<P(!new)>(k: Codec<P>, s: Sock<P>, from: nat, n: nat)
    requires From(k, s, from) && from + n <= 8
    ensures var t := Ticked(k, s, Wrote(n));
            && t.wire == s.wire + k.enc(k.nop)[from..from + n]
            && (from + n < 8 ==> From(k, t, from + n) && t.sent == s.sent)
            && (from + n == 8 ==> t.sent == s.sent + [k.nop] && t.bytesleft == 0 && t.attached && !t.error)
  {
  }

  /** However a NOP is cut into short writes, it is sent once all its bytes are. */
  lemma {:induction false} NopGoesOut<P(!new)>(k: Codec<P>, s: Sock<P>, from: nat, ns: seq<nat>)
    requires From(k, s, from) && |ns| > 0 && ns[|ns| - 1] > 0 && from + Sum(ns) == 8
    ensures var t := Ticks(k, s, ns);
            && t.wire == s.wire + k.enc(k.nop)[from..] && t.sent == s.sent + [k.nop]
            && t.bytesleft == 0 && t.attached && !t.error
    decreases |ns|
  {
    var n, rest := ns[0], ns[1..];
    var t := Ticked(k, s, Wrote(n));
    TickSends(k, s, from, n);
    if |rest| > 0 {
      LastCounts(rest);
      NopGoesOut(k, t, from + n, rest);
      RestOfNop(s.wire, k.enc(k.nop), from, from + n, t.wire, Ticks(k, s, ns).wire);
    } else {
      assert k.enc(k.nop)[from..from + n] == k.enc(k.nop)[from..];
    }
  }

  // ----- MooseFS packets -----

  function Bytes(p: Framing.Packet): seq<Byte> {
    if p.Encodable() then Framing.Encode(p) else []
  }

  const PACKETS: Codec<Framing.Packet> := Codec(Bytes, Framing.Packet(0, []))     // ANTOAN_NOP

  /** A NOP cut short and a packet after it, as the receiver sees them. */
  lemma Misread(w: seq<Byte>)
    requires w == [0, 0, 0, 0, 0, 0, 0, 1, 0, 0, 0, 0]
    ensures Framing.Parse(w).packets == [Framing.Packet(0, [0])]
  {
    assert w[4..8] == [0, 0, 0, 1] && w[..4] == [0, 0, 0, 0] && w[8..9] == [0] && w[9..] == [0, 0, 0];
    assert Framing.Leng(w) == 1;
    assert Framing.First(w) == Framing.Packet(0, [0]);
    assert Framing.Parse(w[9..]).packets == [];
  }

  /**
   The connection threads do not look at the flag before they send. A NOP that stops after four bytes
   makes the next packet unreadable.
   */
  lemma SentAfterErrorIsLost(p: Framing.Packet)
    requires p == Framing.Packet(1, [])
    ensures PACKETS.Valid()
    ensures var s := Run(PACKETS, [Add, Tick(Wrote(4)), Del(Failed), Send(p, 8)]);
            s.error && s.sent == [p] && Framing.Parse(s.wire).packets == [Framing.Packet(0, [0])]
  {
    var a, b, c, d := Add, Tick(Wrote(4)), Del(Failed), Send(p, 8);
    var nop: seq<Byte> := [0, 0, 0, 0, 0, 0, 0, 0];
    assert PACKETS.enc(PACKETS.nop) == nop;
    assert PACKETS.enc(p) == [0, 0, 0, 1, 0, 0, 0, 0];
    FourSteps(PACKETS, a, b, c, d);
    assert nop[0..4] == [0, 0, 0, 0];
    var w := nop[0..4] + PACKETS.enc(p)[..8];
    assert w == [0, 0, 0, 0, 0, 0, 0, 1, 0, 0, 0, 0];
    Misread(w);
    assert [] + nop[0..4] == nop[0..4];
    assert [] + [p] == [p];
  }

  lemma FourSteps<P(!new)>(k: Codec<P>, a: Step<P>, b: Step<P>, c: Step<P>, d: Step<P>)
    requires k.Valid()
    ensures var s := Sock([], [], false, 0, false);
            Run(k, [a, b, c, d]) == Next(k, Next(k, Next(k, Next(k, s, a), b), c), d)
  {
    RunPush(k, [], a);
    RunPush(k, [a], b);
    RunPush(k, [a, b], c);
    RunPush(k, [a, b, c], d);
    assert [] + [a] == [a] && [a] + [b] == [a, b] && [a, b] + [c] == [a, b, c] && [a, b, c] + [d] == [a, b, c, d];
  }

  lemma RunPush<P(!new)>(k: Codec<P>, steps: seq<Step<P>>, step: Step<P>)
    requires k.Valid()
    ensures Run(k, steps + [step]) == Next(k, Run(k, steps), step)
  {
    assert (steps + [step])[..|steps|] == steps;
  }
}
