/**
 Checksums computed by a shift register that is linear over an addition, in general. Nothing here
 is specific to CRC-32: a register of type T absorbs symbols of type S, both types have an
 addition, and feeding a neutral symbol is a fixed number of steps of a linear map.
 */
module LinearRegister {
  import opened LinearMaps

  /** The register after absorbing all symbols of d, starting from c. */
  function Absorb<T, S>(feed: (T, S) -> T, c: T, d: seq<S>): T {
    if |d| == 0 then c else feed(Absorb(feed, c, d[..|d| - 1]), d[|d| - 1])
  }

  function AddAll<S>(plus: (S, S) -> S, d: seq<S>, e: seq<S>): (x: seq<S>)
    requires |d| == |e|
    ensures |x| == |d|
  {
    seq(|d|, i requires 0 <= i < |d| => plus(d[i], e[i]))
  }

  function Repeat<S>(s: S, n: nat): (r: seq<S>)
    ensures |r| == n
  {
    seq(n, _ => s)
  }

  datatype Register<!T(!new), !S(!new)> = Register(
    add: (T, T) -> T,      // addition of registers
    nul: T,                // its neutral value
    plus: (S, S) -> S,     // addition of symbols
    zero: S,               // its neutral value
    feed: (T, S) -> T,     // absorbs one symbol
    step: T -> T,          // one step without input
    width: nat,            // steps per neutral symbol
    preset: T)             // added to the register on entry and on exit
  {
    ghost predicate ShufflesAt(a: T, b: T, x: T, y: T) {
      add(add(a, b), add(x, y)) == add(add(a, x), add(b, y))
    }

    ghost predicate AssociatesAt(a: T, b: T, x: T) {
      add(add(a, b), x) == add(a, add(b, x))
    }

    /** A third summand and the preset drop out when they occur twice. */
    ghost predicate CancelsAt(a: T, b: T, c: T) {
      add(add(add(a, preset), add(add(c, b), preset)), add(c, preset)) == add(add(a, b), preset)
    }

    /** The additions behave like xor. */
    ghost predicate XorLike() {
      && (forall a, b, x, y :: ShufflesAt(a, b, x, y))
      && (forall a, b, x :: AssociatesAt(a, b, x))
      && (forall a, b, c :: CancelsAt(a, b, c))
      && (forall a :: add(a, nul) == a && add(nul, a) == a)
      && (forall a :: add(add(a, preset), preset) == a)
      && (forall y :: plus(zero, y) == y)
    }

    ghost predicate StepLinear() {
      Linear(add, step)
    }

    ghost predicate FeedLinear() {
      forall a, b, x, y :: feed(add(a, b), plus(x, y)) == add(feed(a, x), feed(b, y))
    }

    ghost predicate NeutralIsSteps() {
      forall a :: feed(a, zero) == Iterate(step, a, width)
    }

    ghost predicate Valid() {
      XorLike() && StepLinear() && FeedLinear() && NeutralIsSteps()
    }

    function Checksum(c: T, d: seq<S>): T {
      add(Absorb(feed, add(c, preset), d), preset)
    }

    /** c run over n neutral symbols, plus e. */
    function Combine(c: T, e: T, n: nat): T {
      add(Iterate(step, c, width * n), e)
    }

    lemma {:induction false} AbsorbAdds(a: T, b: T, d: seq<S>, e: seq<S>)
      requires FeedLinear()
      requires |d| == |e|
      ensures Absorb(feed, add(a, b), AddAll(plus, d, e)) == add(Absorb(feed, a, d), Absorb(feed, b, e))
      decreases |d|
    {
      if |d| > 0 {
        var n := |d| - 1;
        AbsorbAdds(a, b, d[..n], e[..n]);
        assert AddAll(plus, d, e)[..n] == AddAll(plus, d[..n], e[..n]);
        var u, v := Absorb(feed, a, d[..n]), Absorb(feed, b, e[..n]);
        assert feed(add(u, v), plus(d[n], e[n])) == add(feed(u, d[n]), feed(v, e[n]));
      }
    }

    lemma {:induction false} AbsorbNeutral(c: T, n: nat)
      requires NeutralIsSteps()
      ensures Absorb(feed, c, Repeat(zero, n)) == Iterate(step, c, width * n)
      decreases n
    {
      if n > 0 {
        AbsorbNeutral(c, n - 1);
        assert Repeat(zero, n)[..n - 1] == Repeat(zero, n - 1);
        IterateAdd(step, c, width * (n - 1), width);
        assert width * (n - 1) + width == width * n;
      }
    }

    lemma AddZeros(e: seq<S>)
      requires forall y :: plus(zero, y) == y
      ensures AddAll(plus, Repeat(zero, |e|), e) == e
    {
    }

    /** Absorbing e into r is running r over neutral symbols and adding e absorbed into k. */
    lemma AbsorbSplits(r: T, k: T, e: seq<S>)
      requires FeedLinear() && NeutralIsSteps()
      requires forall y :: plus(zero, y) == y
      ensures Absorb(feed, add(r, k), e) == add(Iterate(step, r, width * |e|), Absorb(feed, k, e))
    {
      AbsorbAdds(r, k, Repeat(zero, |e|), e);
      AddZeros(e);
      AbsorbNeutral(r, |e|);
    }

    /** The checksum of a concatenation, from the checksums of its two pieces. */
    lemma ConcatLaw(c: T, d: seq<S>, e: seq<S>)
      requires Valid()
      ensures Combine(Checksum(c, d), Checksum(nul, e), |e|) == Checksum(c, d + e)
    {
      var r := Absorb(feed, add(c, preset), d);
      AbsorbConcat(feed, add(c, preset), d, e);
      assert add(add(r, preset), preset) == r;
      AbsorbSplits(add(r, preset), preset, e);
      assert AssociatesAt(Iterate(step, add(r, preset), width * |e|), Absorb(feed, preset, e), preset);
    }

    /** A checksum can be resumed. */
    lemma ContinueLaw(c: T, d: seq<S>, e: seq<S>)
      requires XorLike()
      ensures Checksum(Checksum(c, d), e) == Checksum(c, d + e)
    {
      AbsorbConcat(feed, add(c, preset), d, e);
    }

    /** The checksum of a run of neutral symbols. */
    lemma NeutralLaw(c: T, n: nat)
      requires Valid()
      ensures Combine(add(c, preset), preset, n) == Checksum(c, Repeat(zero, n))
    {
      AbsorbNeutral(add(c, preset), n);
    }

    /** The checksum is affine over the addition of messages. */
    lemma AffineLaw(d: seq<S>, e: seq<S>)
      requires Valid()
      requires |d| == |e|
      ensures Checksum(nul, AddAll(plus, d, e))
           == add(add(Checksum(nul, d), Checksum(nul, e)), Checksum(nul, Repeat(zero, |d|)))
    {
      var z := Repeat(zero, |d|);
      AbsorbAdds(preset, nul, d, e);
      AbsorbAdds(preset, nul, z, e);
      AddZeros(e);
      var a, b, c := Absorb(feed, preset, d), Absorb(feed, nul, e), Absorb(feed, preset, z);
      assert Absorb(feed, preset, e) == add(c, b);
      assert CancelsAt(a, b, c);
    }
  }

  lemma {:induction false} AbsorbConcat<T, S>(feed: (T, S) -> T, c: T, d: seq<S>, e: seq<S>)
    ensures Absorb(feed, c, d + e) == Absorb(feed, Absorb(feed, c, d), e)
  {
    if |e| == 0 {
      assert d + e == d;
    } else {
      var e' := e[..|e| - 1];
      AbsorbConcat(feed, c, d, e');
      assert (d + e)[..|d + e| - 1] == d + e';
    }
  }

  /** A register that adds the widened symbol and then runs its step is linear. */
  lemma FeedIsLinear<T(!new), S(!new)>(r: Register<T, S>, widen: S -> T)
    requires r.XorLike() && r.StepLinear()
    requires forall a, s :: r.feed(a, s) == Iterate(r.step, r.add(a, widen(s)), r.width)
    requires forall x, y :: widen(r.plus(x, y)) == r.add(widen(x), widen(y))
    requires widen(r.zero) == r.nul
    ensures r.Valid()
  {
    forall a, b, x, y
      ensures r.feed(r.add(a, b), r.plus(x, y)) == r.add(r.feed(a, x), r.feed(b, y))
    {
      assert widen(r.plus(x, y)) == r.add(widen(x), widen(y));
      assert r.ShufflesAt(a, b, widen(x), widen(y));
      IterateAdds(r.add, r.step, r.add(a, widen(x)), r.add(b, widen(y)), r.width);
    }
    forall a ensures r.feed(a, r.zero) == Iterate(r.step, a, r.width) {
      assert r.feed(a, r.zero) == Iterate(r.step, r.add(a, widen(r.zero)), r.width);
    }
  }

  // ----- Slicing: a word is stepped byte by byte, each byte by its distance to the end -----

  /** The low byte and the rest of a word can be stepped apart. */
  ghost predicate Peels<W>(add: (W, W) -> W, f: W -> W, low: W -> W, shr: W -> W, width: nat, w: W, m: nat) {
    Iterate(f, w, width + m) == add(Iterate(f, low(w), width + m), Iterate(f, shr(w), m))
  }

  lemma SlicedBy<W(!new)>(add: (W, W) -> W, f: W -> W, low: W -> W, shr: W -> W, width: nat, w: W, n: nat)
    requires forall x, m: nat :: Peels(add, f, low, shr, width, x, m)
    ensures Iterate(f, w, width * (n + 4))
         == add(Iterate(f, low(w), width * (n + 4)),
            add(Iterate(f, low(shr(w)), width * (n + 3)),
            add(Iterate(f, low(shr(shr(w))), width * (n + 2)),
                Iterate(f, shr(shr(shr(w))), width * (n + 1)))))
  {
    assert width * (n + 4) == width + width * (n + 3);
    assert width * (n + 3) == width + width * (n + 2);
    assert width * (n + 2) == width + width * (n + 1);
    assert Peels(add, f, low, shr, width, w, width * (n + 3));
    assert Peels(add, f, low, shr, width, shr(w), width * (n + 2));
    assert Peels(add, f, low, shr, width, shr(shr(w)), width * (n + 1));
  }

  /** Absorbing the low byte of a word leaves the rest of the word to be absorbed. */
  ghost predicate FeedsFrom<W, S>(
    add: (W, W) -> W, f: W -> W, feed: (W, S) -> W, push: (S, W) -> W, width: nat, c: W, b: S, w: W, m: nat)
  {
    Iterate(f, add(c, push(b, w)), width + m) == Iterate(f, add(feed(c, b), w), m)
  }

  function Feed4<W, S>(feed: (W, S) -> W, c: W, b: seq<S>): W
    requires |b| == 4
  {
    feed(feed(feed(feed(c, b[0]), b[1]), b[2]), b[3])
  }

  function Push4<W, S>(push: (S, W) -> W, nul: W, b: seq<S>): W
    requires |b| == 4
  {
    push(b[0], push(b[1], push(b[2], push(b[3], nul))))
  }

  lemma WordFeeds<W(!new), S(!new)>(
    add: (W, W) -> W, nul: W, f: W -> W, feed: (W, S) -> W, push: (S, W) -> W, width: nat,
    small: W -> bool, c: W, b: seq<S>)
    requires |b| == 4
    requires forall c, b, w, m: nat :: small(w) ==> FeedsFrom(add, f, feed, push, width, c, b, w, m)
    requires forall a :: add(a, nul) == a
    requires small(nul) && small(push(b[3], nul)) && small(push(b[2], push(b[3], nul)))
    requires small(push(b[1], push(b[2], push(b[3], nul))))
    ensures Iterate(f, add(c, Push4(push, nul, b)), width * 4) == Feed4(feed, c, b)
  {
    var w3 := push(b[3], nul);
    var w2 := push(b[2], w3);
    var w1 := push(b[1], w2);
    var c1 := feed(c, b[0]);
    var c2 := feed(c1, b[1]);
    var c3 := feed(c2, b[2]);
    assert width * 4 == width + width * 3 && width * 3 == width + width * 2 && width * 2 == width + width;
    assert FeedsFrom(add, f, feed, push, width, c, b[0], w1, width * 3);
    assert FeedsFrom(add, f, feed, push, width, c1, b[1], w2, width * 2);
    assert FeedsFrom(add, f, feed, push, width, c2, b[2], w3, width);
    assert FeedsFrom(add, f, feed, push, width, c3, b[3], nul, 0);
  }

  lemma AbsorbFour<T, S>(feed: (T, S) -> T, c: T, b: seq<S>)
    requires |b| == 4
    ensures Absorb(feed, c, b) == Feed4(feed, c, b)
  {
    assert b[..3][..2][..1] == [b[0]];
    assert b[..3][..2] == [b[0], b[1]];
    assert b[..3] == [b[0], b[1], b[2]];
    assert Absorb(feed, c, [b[0]]) == feed(c, b[0]);
    assert Absorb(feed, c, [b[0], b[1]]) == feed(feed(c, b[0]), b[1]);
    assert Absorb(feed, c, [b[0], b[1], b[2]]) == feed(feed(feed(c, b[0]), b[1]), b[2]);
  }

  /**
   Sixteen bytes as four words: the first word is added to the register, and each word is then
   stepped by its own distance to the end.
   */
  lemma AbsorbBlock<T(!new), S(!new)>(
    r: Register<T, S>, w: seq<S> -> T, c: T, b: seq<S>)
    requires |b| == 16
    requires r.StepLinear()
    requires forall c, b :: |b| == 4 ==> Absorb(r.feed, c, b) == Iterate(r.step, r.add(c, w(b)), r.width * 4)
    ensures Absorb(r.feed, c, b)
         == r.add(r.add(r.add(Iterate(r.step, r.add(c, w(b[..4])), r.width * 16),
                              Iterate(r.step, w(b[4..8]), r.width * 12)),
                        Iterate(r.step, w(b[8..12]), r.width * 8)),
                  Iterate(r.step, w(b[12..]), r.width * 4))
  {
    var f, k := r.step, r.width * 4;
    assert r.width * 8 == k + k && r.width * 12 == k + k + k && r.width * 16 == k + k + k + k;
    var x0, x1, x2, x3 := r.add(c, w(b[..4])), w(b[4..8]), w(b[8..12]), w(b[12..]);
    var c1 := Absorb(r.feed, c, b[..4]);
    var c2 := Absorb(r.feed, c1, b[4..8]);
    var c3 := Absorb(r.feed, c2, b[8..12]);
    assert b == b[..4] + (b[4..8] + (b[8..12] + b[12..]));
    AbsorbConcat(r.feed, c, b[..4], b[4..8] + (b[8..12] + b[12..]));
    AbsorbConcat(r.feed, c1, b[4..8], b[8..12] + b[12..]);
    AbsorbConcat(r.feed, c2, b[8..12], b[12..]);
    TwoWords(r, k, x0, x1);
    ThreeWords(r, k, x0, x1, x2);
    FourWords(r, k, x0, x1, x2, x3);
  }

  lemma TwoWords<T(!new), S(!new)>(r: Register<T, S>, k: nat, x0: T, x1: T)
    requires r.StepLinear()
    ensures Iterate(r.step, r.add(Iterate(r.step, x0, k), x1), k)
         == r.add(Iterate(r.step, x0, k + k), Iterate(r.step, x1, k))
  {
    IterateAdds(r.add, r.step, Iterate(r.step, x0, k), x1, k);
    IterateAdd(r.step, x0, k, k);
  }

  lemma ThreeWords<T(!new), S(!new)>(r: Register<T, S>, k: nat, x0: T, x1: T, x2: T)
    requires r.StepLinear()
    ensures Iterate(r.step, r.add(r.add(Iterate(r.step, x0, k + k), Iterate(r.step, x1, k)), x2), k)
         == r.add(r.add(Iterate(r.step, x0, k + k + k), Iterate(r.step, x1, k + k)), Iterate(r.step, x2, k))
  {
    IterateAdds(r.add, r.step, r.add(Iterate(r.step, x0, k + k), Iterate(r.step, x1, k)), x2, k);
    IterateAdds(r.add, r.step, Iterate(r.step, x0, k + k), Iterate(r.step, x1, k), k);
    IterateAdd(r.step, x0, k + k, k);
    IterateAdd(r.step, x1, k, k);
  }

  lemma FourWords<T(!new), S(!new)>(r: Register<T, S>, k: nat, x0: T, x1: T, x2: T, x3: T)
    requires r.StepLinear()
    ensures Iterate(r.step,
                    r.add(r.add(r.add(Iterate(r.step, x0, k + k + k), Iterate(r.step, x1, k + k)),
                                Iterate(r.step, x2, k)), x3), k)
         == r.add(r.add(r.add(Iterate(r.step, x0, k + k + k + k), Iterate(r.step, x1, k + k + k)),
                        Iterate(r.step, x2, k + k)), Iterate(r.step, x3, k))
  {
    var y := r.add(Iterate(r.step, x0, k + k + k), Iterate(r.step, x1, k + k));
    IterateAdds(r.add, r.step, r.add(y, Iterate(r.step, x2, k)), x3, k);
    IterateAdds(r.add, r.step, y, Iterate(r.step, x2, k), k);
    IterateAdds(r.add, r.step, Iterate(r.step, x0, k + k + k), Iterate(r.step, x1, k + k), k);
    IterateAdd(r.step, x0, k + k + k, k);
    IterateAdd(r.step, x1, k + k, k);
    IterateAdd(r.step, x2, k, k);
  }
}
