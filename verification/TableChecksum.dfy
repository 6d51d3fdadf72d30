/**
 The table-driven checksum algorithms, for any linear register whose words split into bytes:
 sixteen-byte slicing, and skipping a run of neutral symbols by precomputed matrix powers.
 The loops are those of mfscommon/crc.c; module CrcTables supplies the CRC-32 words.
 */
module TableChecksum {
  import opened Arithmetic
  import opened LinearMaps
  import opened LinearRegister

  lemma IterateEight<T>(f: T -> T, c: T)
    ensures Iterate(f, c, 8) == f(f(f(f(f(f(f(f(c))))))))
  {
  }

  /** How the words of a register split into bytes. */
  datatype Bytes<!W(!new), !S(!new)> = Bytes(
    reg: Register<W, S>,
    low: W -> W,            // the low byte of a word
    shr: W -> W,            // the word without its low byte
    index: W -> nat,        // a byte as a table index
    byte: nat -> W,         // a table index as a byte
    widen: S -> W,          // a symbol as a byte
    load: seq<S> -> W)      // four symbols as a word, least significant first
  {
    /** x is a byte and can be used as an index. */
    ghost predicate IsByte(x: W) {
      index(x) < 256 && byte(index(x)) == x
    }

    ghost predicate StepsByteAt(c: W) {
      Iterate(reg.step, c, reg.width) == reg.add(Iterate(reg.step, low(c), reg.width), shr(c))
    }

    ghost predicate FeedsByteAt(c: W, b: S) {
      && IsByte(reg.add(low(c), widen(b)))
      && reg.feed(c, b) == reg.add(Iterate(reg.step, reg.add(low(c), widen(b)), reg.width), shr(c))
    }

    ghost predicate LoadsAt(c: W, b: seq<S>) {
      |b| == 4 ==> Absorb(reg.feed, c, b) == Iterate(reg.step, reg.add(c, load(b)), reg.width * 4)
    }

    ghost predicate Valid() {
      && reg.Valid() && reg.width == 8
      && (forall c :: IsByte(low(c)) && IsByte(shr(shr(shr(c)))))
      && (forall c :: StepsByteAt(c))
      && (forall c, b :: FeedsByteAt(c, b))
      && (forall w, m: nat :: Peels(reg.add, reg.step, low, shr, reg.width, w, m))
      && (forall c, b :: LoadsAt(c, b))
    }

    /** Byte k followed by j more neutral symbols. */
    function SliceValue(j: nat, k: nat): W {
      Iterate(reg.step, byte(k), reg.width * (j + 1))
    }

    lemma NextSlice(j: nat, k: nat)
      requires Valid()
      ensures index(low(SliceValue(j, k))) < 256
      ensures SliceValue(j + 1, k)
           == reg.add(SliceValue(0, index(low(SliceValue(j, k)))), shr(SliceValue(j, k)))
    {
      var c := SliceValue(j, k);
      assert IsByte(low(c)) && StepsByteAt(c);
      IterateAdd(reg.step, byte(k), reg.width * (j + 1), reg.width);
      assert reg.width * (j + 1) + reg.width == reg.width * (j + 1 + 1);
    }
  }

  ghost predicate SlicesHold<W(!new), S(!new)>(z: Bytes<W, S>, t: array2<W>)
    reads t
  {
    && t.Length0 == 16 && t.Length1 == 256
    && forall j, k :: 0 <= j < 16 && 0 <= k < 256 ==> t[j, k] == z.SliceValue(j, k)
  }

  /** crc_generate_main_tables. */
  method GenerateMainTables<W(!new), S(!new)>(z: Bytes<W, S>, t: array2<W>)
    requires z.Valid()
    requires t.Length0 == 16 && t.Length1 == 256
    modifies t
    ensures SlicesHold(z, t)
  {
    var i := 0;
    while i < 256
      invariant 0 <= i <= 256
      invariant forall k :: 0 <= k < i ==> t[0, k] == z.SliceValue(0, k)
    {
      var c := z.byte(i);
      IterateEight(z.reg.step, c);
      c := z.reg.step(c);
      c := z.reg.step(c);
      c := z.reg.step(c);
      c := z.reg.step(c);
      c := z.reg.step(c);
      c := z.reg.step(c);
      c := z.reg.step(c);
      c := z.reg.step(c);
      t[0, i] := c;
      i := i + 1;
    }
    i := 0;
    while i < 256
      invariant 0 <= i <= 256
      invariant forall k :: 0 <= k < 256 ==> t[0, k] == z.SliceValue(0, k)
      invariant forall j, k :: 0 <= j < 16 && 0 <= k < i ==> t[j, k] == z.SliceValue(j, k)
    {
      var c := t[0, i];
      var j := 1;
      while j < 16
        invariant 1 <= j <= 16
        invariant c == z.SliceValue(j - 1, i)
        invariant forall k :: 0 <= k < 256 ==> t[0, k] == z.SliceValue(0, k)
        invariant forall j', k :: 0 <= j' < 16 && 0 <= k < i ==> t[j', k] == z.SliceValue(j', k)
        invariant forall j' :: 0 <= j' < j ==> t[j', i] == z.SliceValue(j', i)
      {
        z.NextSlice(j - 1, i);
        c := z.reg.add(t[0, z.index(z.low(c))], z.shr(c));
        t[j, i] := c;
        j := j + 1;
      }
      i := i + 1;
    }
  }

  /** The four lookups for one word that ends n words before the end of the block. */
  method SliceWord<W(!new), S(!new)>(z: Bytes<W, S>, t: array2<W>, w: W, n: nat) returns (r: W)
    requires z.Valid() && SlicesHold(z, t)
    requires n <= 12
    ensures r == Iterate(z.reg.step, w, z.reg.width * (n + 4))
  {
    var w1 := z.shr(w);
    var w2 := z.shr(w1);
    var w3 := z.shr(w2);
    assert z.IsByte(z.low(w)) && z.IsByte(z.low(w1)) && z.IsByte(z.low(w2)) && z.IsByte(w3);
    SlicedBy(z.reg.add, z.reg.step, z.low, z.shr, z.reg.width, w, n);
    r := z.reg.add(t[n + 3, z.index(z.low(w))],
         z.reg.add(t[n + 2, z.index(z.low(w1))],
         z.reg.add(t[n + 1, z.index(z.low(w2))], t[n, z.index(w3)])));
  }

  /** CRC_BLOCK: sixteen symbols at once. */
  method AbsorbSixteen<W(!new), S(!new)>(z: Bytes<W, S>, t: array2<W>, c: W, b: seq<S>) returns (r: W)
    requires z.Valid() && SlicesHold(z, t)
    requires |b| == 16
    ensures r == Absorb(z.reg.feed, c, b)
  {
    var d0 := z.reg.add(c, z.load(b[..4]));
    var d1 := z.load(b[4..8]);
    var d2 := z.load(b[8..12]);
    var d3 := z.load(b[12..]);
    var r0 := SliceWord(z, t, d0, 12);
    var r1 := SliceWord(z, t, d1, 8);
    var r2 := SliceWord(z, t, d2, 4);
    var r3 := SliceWord(z, t, d3, 0);
    r := z.reg.add(z.reg.add(z.reg.add(r0, r1), r2), r3);
    forall c, b | |b| == 4
      ensures Absorb(z.reg.feed, c, b) == Iterate(z.reg.step, z.reg.add(c, z.load(b)), z.reg.width * 4)
    {
      assert z.LoadsAt(c, b);
    }
    AbsorbBlock(z.reg, z.load, c, b);
  }

  /** The byte loop of mycrc32, over the whole of d. */
  method AbsorbBytes<W(!new), S(!new)>(z: Bytes<W, S>, t: array2<W>, start: W, d: seq<S>) returns (c: W)
    requires z.Valid() && SlicesHold(z, t)
    ensures c == Absorb(z.reg.feed, start, d)
  {
    c := start;
    var i := 0;
    while i < |d|
      invariant 0 <= i <= |d|
      invariant c == Absorb(z.reg.feed, start, d[..i])
    {
      assert z.FeedsByteAt(c, d[i]);
      assert d[..i + 1][..i] == d[..i];
      c := z.reg.add(t[0, z.index(z.reg.add(z.low(c), z.widen(d[i])))], z.shr(c));
      i := i + 1;
    }
    assert d[..|d|] == d;
  }

  lemma AbsorbMore<T, S>(feed: (T, S) -> T, c: T, d: seq<S>, p: nat, q: nat)
    requires p <= q <= |d|
    ensures Absorb(feed, c, d[..q]) == Absorb(feed, Absorb(feed, c, d[..p]), d[p..q])
  {
    assert d[..q] == d[..p] + d[p..q];
    AbsorbConcat(feed, c, d[..p], d[p..q]);
  }

  /** Four CRC_BLOCK steps. */
  method AbsorbSixtyFour<W(!new), S(!new)>(z: Bytes<W, S>, t: array2<W>, start: W, b: seq<S>) returns (c: W)
    requires z.Valid() && SlicesHold(z, t)
    requires |b| == 64
    ensures c == Absorb(z.reg.feed, start, b)
  {
    c := AbsorbSixteen(z, t, start, b[..16]);
    c := AbsorbSixteen(z, t, c, b[16..32]);
    AbsorbMore(z.reg.feed, start, b, 16, 32);
    c := AbsorbSixteen(z, t, c, b[32..48]);
    AbsorbMore(z.reg.feed, start, b, 32, 48);
    c := AbsorbSixteen(z, t, c, b[48..64]);
    AbsorbMore(z.reg.feed, start, b, 48, 64);
    assert b[..64] == b;
  }

  /**
   mycrc32: single bytes up to a four-byte boundary, then sixty-four bytes at a time, then the rest.
   The data starts at address addr.
   */
  method Checksum<W(!new), S(!new)>(z: Bytes<W, S>, t: array2<W>, crc: W, addr: nat, d: seq<S>) returns (r: W)
    requires z.Valid() && SlicesHold(z, t)
    ensures r == z.reg.Checksum(crc, d)
  {
    ghost var start := z.reg.add(crc, z.reg.preset);
    var p := 0;
    while (addr + p) % 4 != 0 && p < |d|
      invariant 0 <= p <= |d|
      decreases |d| - p
    {
      p := p + 1;
    }
    var c := AbsorbBytes(z, t, z.reg.add(crc, z.reg.preset), d[..p]);
    while |d| - p >= 64
      invariant 0 <= p <= |d|
      invariant c == Absorb(z.reg.feed, start, d[..p])
    {
      c := AbsorbSixtyFour(z, t, c, d[p..p + 64]);
      AbsorbMore(z.reg.feed, start, d, p, p + 64);
      p := p + 64;
    }
    c := AbsorbBytes(z, t, c, d[p..]);
    AbsorbMore(z.reg.feed, start, d, p, |d|);
    assert d[p..|d|] == d[p..] && d[..|d|] == d;
    r := z.reg.add(c, z.reg.preset);
  }

  // ----- Skipping a run of neutral symbols -----

  lemma {:induction false} DoubledZero(i: nat)
    ensures Doubled(0, i) == 0
  {
    if i > 0 {
      DoubledZero(i - 1);
    }
  }

  lemma {:induction false} DoubledMonotone(m: nat, n: nat, i: nat)
    requires m <= n
    ensures Doubled(m, i) <= Doubled(n, i)
    decreases i
  {
    if i > 0 {
      DoubledMonotone(m, n, i - 1);
    }
  }

  lemma {:induction false} Pow2Monotone(i: nat, j: nat)
    requires i <= j
    ensures Pow2(i) <= Pow2(j)
    decreases j
  {
    if i < j {
      Pow2Monotone(i, j - 1);
    }
  }

  lemma {:induction false} HalveRun(l: nat, i: nat)
    ensures Doubled(l, i) == Doubled(l / 2, i + 1) + (if l % 2 == 1 then Pow2(i) else 0)
    decreases i
  {
    if i > 0 {
      HalveRun(l, i - 1);
    }
  }

  /** crc_matrix_square. */
  method MatrixSquare<W(==, !new)>(w: Words<W>, sqr: array<W>, m: array<W>)
    requires w.Valid()
    requires sqr != m && sqr.Length == m.Length == w.bits
    modifies sqr
    ensures forall i :: 0 <= i < w.bits ==> sqr[i] == w.Apply(m[..], m[i])
  {
    var i := 0;
    while i < w.bits
      invariant 0 <= i <= w.bits
      invariant forall k :: 0 <= k < i ==> sqr[k] == w.Apply(m[..], m[k])
    {
      var s := SumColumns(w, m, 0, m[i]);
      sqr[i] := s;
      i := i + 1;
    }
  }

  /** The columns of m from `from` on, selected by the bits of v. */
  method SumColumns<W(==, !new)>(w: Words<W>, m: array<W>, from: nat, word: W) returns (s: W)
    requires w.Valid()
    requires from <= m.Length == w.bits
    ensures s == w.Apply(m[from..], word)
  {
    var j, v := from, word;
    s := w.nul;
    while v != w.nul && j < w.bits
      invariant from <= j <= w.bits
      invariant w.add(s, w.Apply(m[j..], v)) == w.Apply(m[from..], word)
    {
      assert m[j..][1..] == m[j + 1..];
      assert w.AssociatesAt(s, if w.odd(v) then m[j] else w.nul, w.Apply(m[j + 1..], w.half(v)));
      if w.odd(v) {
        s := w.add(s, m[j]);
      }
      j, v := j + 1, w.half(v);
    }
    w.ApplyToNul(m[j..]);
  }

  /** What the matrix tables need to know of the words they work on. */
  ghost predicate Placed<W(!new), S(!new)>(z: Bytes<W, S>, w: Words<W>) {
    && z.Valid() && w.Valid()
    && w.add == z.reg.add && w.nul == z.reg.nul && w.bits == 32
    && z.reg.step(w.nul) == w.nul
    && (forall c :: PlacesAt(z, w, c))
    && (forall k :: 0 <= k < 256 ==> Iterate(w.half, z.byte(k), 8) == w.nul)
    && (forall i :: 1 <= i < 32 ==> z.reg.step(Iterate(w.twice, w.one, i)) == Iterate(w.twice, w.one, i - 1))
  }

  /** Word x moved up by j bytes. */
  function Place<W(!new)>(w: Words<W>, x: W, j: nat): W {
    Iterate(w.twice, x, 8 * j)
  }

  /** A word is the sum of its bytes, each in its place. */
  ghost predicate PlacesAt<W(!new), S(!new)>(z: Bytes<W, S>, w: Words<W>, c: W) {
    c == w.add(w.add(w.add(Place(w, z.shr(z.shr(z.shr(c))), 3), Place(w, z.low(z.shr(z.shr(c))), 2)),
                     Place(w, z.low(z.shr(c)), 1)), Place(w, z.low(c), 0))
  }

  /** Byte k in place j, over 2^i neutral symbols. */
  function PowerValue<W(!new), S(!new)>(z: Bytes<W, S>, w: Words<W>, i: nat, j: nat, k: nat): W {
    Iterate(z.reg.step, Place(w, z.byte(k), j), 8 * Pow2(i))
  }

  ghost predicate PowersHold<W(!new), S(!new)>(z: Bytes<W, S>, w: Words<W>, p: array3<W>, n: nat)
    reads p
  {
    && p.Length0 == 32 && p.Length1 == 4 && p.Length2 == 256
    && forall i, j, k :: 0 <= i < n <= 32 && 0 <= j < 4 && 0 <= k < 256 ==> p[i, j, k] == PowerValue(z, w, i, j, k)
  }

  /** The matrix of a single step: the polynomial, then the powers of two. */
  method StepMatrix<W(!new), S(!new)>(z: Bytes<W, S>, w: Words<W>, m: array<W>)
    requires Placed(z, w)
    requires m.Length == 32
    modifies m
    ensures w.MatrixOf(z.reg.step, m[..], 1)
  {
    m[0] := z.reg.step(w.one);
    var j := w.one;
    var i := 1;
    while i < 32
      invariant 1 <= i <= 32
      invariant j == Iterate(w.twice, w.one, i - 1)
      invariant m[0] == z.reg.step(w.one)
      invariant forall k :: 1 <= k < i ==> m[k] == Iterate(w.twice, w.one, k - 1)
    {
      m[i] := j;
      IterateAdd(w.twice, w.one, i - 1, 1);
      j := w.twice(j);
      i := i + 1;
    }
    forall k | 0 <= k < 32 ensures m[..][k] == Iterate(z.reg.step, Iterate(w.twice, w.one, 0 + k), 1) {
      IterateOnce(z.reg.step, Iterate(w.twice, w.one, k));
    }
  }

  lemma IterateOnce<T>(f: T -> T, c: T)
    ensures Iterate(f, c, 1) == f(c)
  {
  }

  /** The lookups of one place for one matrix power. */
  method FillPlace<W(==, !new), S(!new)>(z: Bytes<W, S>, w: Words<W>, p: array3<W>, i: nat, j: nat, m: array<W>)
    requires Placed(z, w)
    requires p.Length0 == 32 && p.Length1 == 4 && p.Length2 == 256
    requires i < 32 && j < 4
    requires m.Length == 32 && w.MatrixOf(z.reg.step, m[..], 8 * Pow2(i))
    modifies p
    ensures forall k :: 0 <= k < 256 ==> p[i, j, k] == PowerValue(z, w, i, j, k)
    ensures forall i', j', k :: 0 <= i' < 32 && 0 <= j' < 4 && 0 <= k < 256 && (i' != i || j' != j) ==>
              p[i', j', k] == old(p[i', j', k])
  {
    var k := 0;
    while k < 256
      invariant 0 <= k <= 256
      invariant forall k' :: 0 <= k' < k ==> p[i, j, k'] == PowerValue(z, w, i, j, k')
      invariant forall i', j', k :: 0 <= i' < 32 && 0 <= j' < 4 && 0 <= k < 256 && (i' != i || j' != j) ==>
                  p[i', j', k] == old(p[i', j', k])
    {
      var sum := SumByteColumns(z, w, m, 8 * j, k, 8 * Pow2(i));
      p[i, j, k] := sum;
      k := k + 1;
    }
  }

  /** The row of lookups for one matrix power. */
  method FillPower<W(==, !new), S(!new)>(z: Bytes<W, S>, w: Words<W>, p: array3<W>, i: nat, m: array<W>)
    requires Placed(z, w)
    requires i < 32 && PowersHold(z, w, p, i)
    requires m.Length == 32 && w.MatrixOf(z.reg.step, m[..], 8 * Pow2(i))
    modifies p
    ensures PowersHold(z, w, p, i + 1)
  {
    var j := 0;
    while j < 4
      invariant 0 <= j <= 4
      invariant PowersHold(z, w, p, i)
      invariant forall j', k :: 0 <= j' < j && 0 <= k < 256 ==> p[i, j', k] == PowerValue(z, w, i, j', k)
    {
      FillPlace(z, w, p, i, j, m);
      j := j + 1;
    }
  }

  /** The loop over the bits of k, which has at most eight of them. */
  method SumByteColumns<W(==, !new), S(!new)>(z: Bytes<W, S>, w: Words<W>, m: array<W>, from: nat, k: nat, ghost n: nat)
    returns (sum: W)
    requires Placed(z, w)
    requires from <= 24 && k < 256
    requires m.Length == 32 && w.MatrixOf(z.reg.step, m[..], n)
    ensures sum == Iterate(z.reg.step, Iterate(w.twice, z.byte(k), from), n)
  {
    w.DropColumns(z.reg.step, m[..], from, n);
    assert m[..][from..] == m[from..];
    w.ApplyIsIterate(z.reg.step, m[from..], z.byte(k), from, n);
    sum := w.nul;
    var l, j := z.byte(k), 0;
    while l != w.nul
      invariant 0 <= j <= 8
      invariant Iterate(w.half, l, 8 - j) == w.nul
      invariant w.add(sum, w.Apply(m[from + j..], l)) == w.Apply(m[from..], z.byte(k))
      decreases 8 - j
    {
      assert j < 8;
      assert m[from + j..][1..] == m[from + (j + 1)..];
      assert w.AssociatesAt(sum, if w.odd(l) then m[from + j] else w.nul, w.Apply(m[from + (j + 1)..], w.half(l)));
      if w.odd(l) {
        sum := w.add(sum, m[from + j]);
      }
      l, j := w.half(l), j + 1;
    }
    w.ApplyToNul(m[from + j..]);
  }

  /** Squares a matrix of n steps. */
  method SquareSteps<W(==, !new)>(w: Words<W>, sqr: array<W>, m: array<W>, ghost f: W -> W, ghost n: nat)
    requires w.Valid() && Linear(w.add, f) && f(w.nul) == w.nul
    requires sqr != m && sqr.Length == m.Length == w.bits
    requires w.MatrixOf(f, m[..], n)
    modifies sqr
    ensures w.MatrixOf(f, sqr[..], 2 * n)
  {
    MatrixSquare(w, sqr, m);
    w.SquareLaw(f, m[..], sqr[..], n);
  }

  /** Squares m into sqr and fills the row of the result. */
  method NextPower<W(==, !new), S(!new)>(z: Bytes<W, S>, w: Words<W>, p: array3<W>, i: nat, sqr: array<W>, m: array<W>)
    requires Placed(z, w)
    requires i < 32 && PowersHold(z, w, p, i)
    requires sqr != m && sqr.Length == m.Length == 32
    requires w.MatrixOf(z.reg.step, m[..], 4 * Pow2(i))
    modifies p, sqr
    ensures PowersHold(z, w, p, i + 1)
    ensures w.MatrixOf(z.reg.step, sqr[..], 4 * Pow2(i + 1))
  {
    SquareSteps(w, sqr, m, z.reg.step, 4 * Pow2(i));
    assert 2 * (4 * Pow2(i)) == 8 * Pow2(i) == 4 * Pow2(i + 1);
    FillPower(z, w, p, i, sqr);
  }

  /** Two buffers, the first holding the matrix of four steps. */
  method FourStepMatrix<W(==, !new), S(!new)>(z: Bytes<W, S>, w: Words<W>) returns (m1: array<W>, m2: array<W>)
    requires Placed(z, w)
    ensures fresh(m1) && fresh(m2) && m1 != m2 && m1.Length == m2.Length == 32
    ensures w.MatrixOf(z.reg.step, m1[..], 4)
  {
    var nul := w.nul;
    m1 := new W[32](_ => nul);
    m2 := new W[32](_ => nul);
    StepMatrix(z, w, m1);
    SquareSteps(w, m2, m1, z.reg.step, 1);
    SquareSteps(w, m1, m2, z.reg.step, 2);
  }

  /** crc_generate_combine_tables. */
  method GenerateCombineTables<W(==, !new), S(!new)>(z: Bytes<W, S>, w: Words<W>, p: array3<W>)
    requires Placed(z, w)
    requires p.Length0 == 32 && p.Length1 == 4 && p.Length2 == 256
    modifies p
    ensures PowersHold(z, w, p, 32)
  {
    var m1, m2 := FourStepMatrix(z, w);
    var i := 0;
    while i < 32
      invariant 0 <= i <= 32
      invariant PowersHold(z, w, p, i)
      invariant w.MatrixOf(z.reg.step, if i % 2 == 0 then m1[..] else m2[..], 4 * Pow2(i))
    {
      if i % 2 == 1 {
        NextPower(z, w, p, i, m1, m2);
      } else {
        NextPower(z, w, p, i, m2, m1);
      }
      i := i + 1;
    }
  }

  /** One round of mycrc32_combine: four lookups move c over 2^i neutral symbols. */
  method SkipPower<W(!new), S(!new)>(z: Bytes<W, S>, w: Words<W>, p: array3<W>, i: nat, c: W) returns (r: W)
    requires Placed(z, w) && PowersHold(z, w, p, 32)
    requires i < 32
    ensures r == Iterate(z.reg.step, c, 8 * Pow2(i))
  {
    var b0, b1, b2, b3 := z.low(c), z.low(z.shr(c)), z.low(z.shr(z.shr(c))), z.shr(z.shr(z.shr(c)));
    assert z.IsByte(b0) && z.IsByte(b1) && z.IsByte(b2) && z.IsByte(b3);
    r := z.reg.add(z.reg.add(z.reg.add(p[i, 3, z.index(b3)], p[i, 2, z.index(b2)]), p[i, 1, z.index(b1)]),
                   p[i, 0, z.index(b0)]);
    assert PlacesAt(z, w, c);
    SumOfPlaces(z, w, b3, b2, b1, b0, 8 * Pow2(i));
  }

  lemma SumOfPlaces<W(!new), S(!new)>(z: Bytes<W, S>, w: Words<W>, b3: W, b2: W, b1: W, b0: W, n: nat)
    requires Placed(z, w)
    ensures Iterate(z.reg.step, w.add(w.add(w.add(Place(w, b3, 3), Place(w, b2, 2)), Place(w, b1, 1)), Place(w, b0, 0)), n)
         == w.add(w.add(w.add(Iterate(z.reg.step, Place(w, b3, 3), n), Iterate(z.reg.step, Place(w, b2, 2), n)),
                        Iterate(z.reg.step, Place(w, b1, 1), n)), Iterate(z.reg.step, Place(w, b0, 0), n))
  {
    var x := w.add(Place(w, b3, 3), Place(w, b2, 2));
    IterateAdds(w.add, z.reg.step, w.add(x, Place(w, b1, 1)), Place(w, b0, 0), n);
    IterateAdds(w.add, z.reg.step, x, Place(w, b1, 1), n);
    IterateAdds(w.add, z.reg.step, Place(w, b3, 3), Place(w, b2, 2), n);
  }

  /** One bit of the length: the register skips 2^i symbols when the bit is set. */
  method SkipBit<W(!new), S(!new)>(z: Bytes<W, S>, w: Words<W>, p: array3<W>, i: nat, l: nat, c: W) returns (r: W)
    requires Placed(z, w) && PowersHold(z, w, p, 32)
    requires i < 32
    ensures Iterate(z.reg.step, r, 8 * (Doubled(l / 2, i + 1))) == Iterate(z.reg.step, c, 8 * (Doubled(l, i)))
  {
    HalveRun(l, i);
    r := c;
    if l % 2 == 1 {
      r := SkipPower(z, w, p, i, c);
      IterateAdd(z.reg.step, c, 8 * Pow2(i), 8 * (Doubled(l / 2, i + 1)));
    }
  }

  lemma LengthFits(l: nat, i: nat)
    requires l > 0 && Doubled(l, i) < Pow2(32)
    ensures i < 32
    ensures Doubled(l / 2, i + 1) < Pow2(32)
  {
    HalveRun(l, i);
    if i >= 32 {
      Pow2Monotone(32, i);
      DoubledMonotone(1, l, i);
    }
  }

  /** mycrc32_combine, for a length that fits in 32 bits. */
  method Combine<W(!new), S(!new)>(z: Bytes<W, S>, w: Words<W>, p: array3<W>, crc1: W, crc2: W, leng2: nat) returns (r: W)
    requires Placed(z, w) && PowersHold(z, w, p, 32)
    requires leng2 < Pow2(32)
    ensures r == z.reg.Combine(crc1, crc2, leng2)
  {
    var c, l, i := crc1, leng2, 0;
    while l != 0
      invariant Doubled(l, i) < Pow2(32)
      invariant Iterate(z.reg.step, c, 8 * (Doubled(l, i))) == Iterate(z.reg.step, crc1, 8 * leng2)
      decreases l
    {
      LengthFits(l, i);
      c := SkipBit(z, w, p, i, l, c);
      l, i := l / 2, i + 1;
    }
    DoubledZero(i);
    r := z.reg.add(c, crc2);
  }
}
