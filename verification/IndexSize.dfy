/**
 The size with which an index is created: five thirds of the expected number of entries, rounded up
 to a power of two by filling all bits below the top one. The product wraps at the word size.
 */
module IndexSize {
  import opened Arithmetic
  import opened ProbeTable

  /** Bitwise or. */
  function Or(a: nat, b: nat): nat
    decreases a + b
  {
    if a == 0 && b == 0 then 0
    else (if a % 2 == 1 || b % 2 == 1 then 1 else 0) + 2 * Or(a / 2, b / 2)
  }

  function Shr(x: nat, n: nat): nat
    decreases n, x
  {
    if n == 0 then x else Shr(x / 2, n - 1)
  }

  /** The bits are or-ed with themselves shifted by 1, 2, 4, 8 and 16. */
  function Spread(x: nat, j: nat): nat
    requires j > 0
    decreases 32 - j, x
  {
    if j >= 32 then x else Spread(Or(x, Shr(x, j)), 2 * j)
  }

  function Smear(x: nat): nat {
    Spread(x, 1)
  }

  // ----- Shifts -----

  lemma {:induction false} ShrShr(x: nat, a: nat, b: nat)
    ensures Shr(Shr(x, a), b) == Shr(x, a + b)
    decreases a
  {
    if a > 0 {
      ShrShr(x / 2, a - 1, b);
    }
  }

  /** A number of ones, with the last of them shifted out. */
  lemma {:induction false} OnesShr(j: nat, i: nat)
    requires i <= j
    ensures Shr(Pow2(j) - 1, i) == Pow2(j - i) - 1
    decreases i
  {
    if i > 0 {
      assert (Pow2(j) - 1) / 2 == Pow2(j - 1) - 1;
      OnesShr(j - 1, i - 1);
    }
  }

  // ----- Or -----

  lemma {:induction false} OrShr(a: nat, b: nat, m: nat)
    ensures Shr(Or(a, b), m) == Or(Shr(a, m), Shr(b, m))
    decreases m
  {
    if m > 0 {
      OrShr(a / 2, b / 2, m - 1);
      assert Or(a, b) / 2 == Or(a / 2, b / 2);
    }
  }

  /** Or with ones sets the low bits. */
  lemma {:induction false} OrOnes(a: nat, j: nat)
    ensures Or(a, Pow2(j) - 1) == Shr(a, j) * Pow2(j) + (Pow2(j) - 1)
    decreases j
  {
    if j == 0 {
      OrZero(a);
    } else {
      var n := Pow2(j - 1);
      assert (2 * n - 1) / 2 == n - 1 && (2 * n - 1) % 2 == 1;
      OrOnes(a / 2, j - 1);
      Twice(Shr(a, j), n);
    }
  }

  lemma Twice(x: nat, n: nat)
    ensures 2 * (x * n) == x * (2 * n)
  {
  }

  lemma {:induction false} OrZero(a: nat)
    ensures Or(a, 0) == a
  {
    if a > 0 {
      OrZero(a / 2);
    }
  }

  // ----- Filling from the top -----

  /** x has k + 1 bits, and its first j bits are ones. */
  ghost predicate Top(x: nat, k: nat, j: nat) {
    0 < j <= k + 1 && Shr(x, k + 1 - j) == Pow2(j) - 1
  }

  lemma TopLess(x: nat, k: nat, j: nat, i: nat)
    requires Top(x, k, j) && 0 < i <= j
    ensures Top(x, k, i)
  {
    ShrShr(x, k + 1 - j, j - i);
    OnesShr(j, j - i);
  }

  lemma OnesJoin(i: nat, j: nat)
    ensures (Pow2(j) - 1) * Pow2(i) + (Pow2(i) - 1) == Pow2(i + j) - 1
  {
    Pow2Splits(i, i + j);
    Expand(Pow2(j), Pow2(i));
  }

  lemma Expand(a: nat, b: nat)
    requires a > 0
    ensures (a - 1) * b + b == b * a
  {
  }

  /** One step: twice as many ones, or all. */
  lemma FillStep(x: nat, k: nat, j: nat)
    requires Top(x, k, j)
    ensures Top(Or(x, Shr(x, j)), k, if 2 * j <= k + 1 then 2 * j else k + 1)
  {
    var y := Or(x, Shr(x, j));
    if 2 * j <= k + 1 {
      var m := k + 1 - 2 * j;
      OrShr(x, Shr(x, j), m);
      ShrShr(x, j, m);
      ShrShr(x, m, j);
      OrOnes(Shr(x, m), j);
      OnesJoin(j, j);
    } else {
      var i := k + 1 - j;
      if i > 0 {
        TopLess(x, k, j, i);
        OrOnes(x, i);
        OnesJoin(i, j);
      } else {
        OnesShr(j, j);
        OrZero(x);
      }
    }
  }

  lemma ShrTooFar(x: nat, k: nat, j: nat)
    requires Top(x, k, k + 1) && j > k + 1
    ensures Shr(x, j) == 0
  {
    var n := k + 1;
    OnesShr(n, n);
    ShrShr(x, n, j - n);
    ShrZero(j - n);
  }

  /** The step by j, also when there are fewer bits than that. */
  lemma TwoMore(x: nat, k: nat, i: nat, j: nat)
    requires j > 0 && i == (if j <= k + 1 then j else k + 1) && Top(x, k, i)
    ensures Top(Or(x, Shr(x, j)), k, if 2 * j <= k + 1 then 2 * j else k + 1)
  {
    if j <= k + 1 {
      FillStep(x, k, j);
    } else {
      ShrTooFar(x, k, j);
      OrZero(x);
    }
  }

  lemma {:induction false} ShrZero(n: nat)
    ensures Shr(0, n) == 0
  {
    if n > 0 {
      ShrZero(n - 1);
    }
  }

  lemma {:induction false} SpreadFills(x: nat, k: nat, j: nat)
    requires k < 32 && j > 0 && Top(x, k, if j <= k + 1 then j else k + 1)
    ensures Spread(x, j) == Pow2(k + 1) - 1
    decreases 32 - j
  {
    if j < 32 {
      TwoMore(x, k, if j <= k + 1 then j else k + 1, j);
      SpreadFills(Or(x, Shr(x, j)), k, 2 * j);
    }
  }

  /** All bits below the top bit get set. */
  lemma SmearFills(x: nat, k: nat)
    requires k < 32 && Shr(x, k) == 1
    ensures Smear(x) == Pow2(k + 1) - 1
  {
    assert Pow2(1) == 2;
    assert Top(x, k, 1);
    SpreadFills(x, k, 1);
  }

  lemma {:induction false} SpreadZero(j: nat)
    requires j > 0
    ensures Spread(0, j) == 0
    decreases 32 - j
  {
    if j < 32 {
      ShrZero(j);
      SpreadZero(2 * j);
    }
  }

  // ----- The size -----

  /** Five thirds of n, in words. */
  function Wanted(n: nat): (x: nat)
    ensures x < 0x8000_0000
  {
    n * 5 % WORD / 3
  }

  function Rounded(y: nat): nat {
    var s := (y + 1) % WORD;
    if s < 256 then 256 else s
  }

  function SizeFrom(x: nat): nat {
    Rounded(Smear(x))
  }

  /** name_index_create and node_index_create, for n expected entries. */
  function InitialSize(n: nat): nat {
    SizeFrom(Wanted(n))
  }

  lemma {:induction false} TopBit(x: nat, n: nat) returns (k: nat)
    requires 0 < x < Pow2(n)
    ensures k < n && Shr(x, k) == 1 && Pow2(k) <= x < Pow2(k + 1)
    decreases n
  {
    if x == 1 {
      k := 0;
    } else {
      k := TopBit(x / 2, n - 1);
      k := k + 1;
    }
  }

  /** The size made from x. */
  ghost predicate Fits(x: nat, s: nat) {
    IsSize(s) && s >= 256 && s > x && (s == 256 || s <= 2 * x)
  }

  lemma SizeOf(x: nat, top: nat)
    requires top == 31 && x < 0x8000_0000
    ensures Fits(x, SizeFrom(x))
  {
    SmallSize();
    if x == 0 {
      SpreadZero(1);
    } else {
      HalfWord(top);
      var k := TopBit(x, top);
      SmearFills(x, k);
      SizeWithin(k, top);
      DoublePower(k);
      FromPower(x, Pow2(k + 1));
    }
  }

  lemma FromPower(x: nat, p: nat)
    requires 0 < p < WORD && IsSize(p) && x < p <= 2 * x && IsSize(256)
    ensures Fits(x, Rounded(p - 1))
  {
    assert Rounded(p - 1) == if p < 256 then 256 else p;
  }

  lemma DoublePower(k: nat)
    ensures Pow2(k + 1) == 2 * Pow2(k)
  {
  }

  lemma HalfWord(top: nat)
    requires top == 31
    ensures Pow2(top) == 0x8000_0000
  {
    WordIsPow2(top + 1);
    DoublePower(top);
  }

  lemma SmallSize()
    ensures IsSize(256)
  {
    assert Pow2(8) == 256;
  }

  lemma {:induction false} PowerGrows(a: nat, b: nat)
    requires a <= b
    ensures Pow2(a) <= Pow2(b)
  {
    if a < b {
      PowerGrows(a, b - 1);
    }
  }

  lemma SizeWithin(k: nat, top: nat)
    requires k < top && top == 31
    ensures IsSize(Pow2(k + 1)) && Pow2(k + 1) < WORD
  {
    var m := k + 1;
    HalfWord(top);
    PowerGrows(m, top);
    assert 0 < m <= 32;
  }

  /** A power of two above five thirds of n, as far as the product fits. */
  lemma SizeLaw(n: nat)
    ensures Fits(Wanted(n), InitialSize(n))
  {
    SizeOf(Wanted(n), 31);
  }

  /** No rehash starts while the first n entries are added. */
  ghost predicate Enough(n: nat, size: nat) {
    forall k: nat :: k < n ==> NotDue(k, size)
  }

  /** With k entries no rehash is due. */
  predicate NotDue(k: nat, size: nat) {
    k * 5 <= size * 3
  }

  lemma WantedLaw(n: nat)
    ensures n * 5 < WORD ==> Wanted(n) == n * 5 / 3
    ensures n * 5 >= WORD ==> 3 * Wanted(n) <= n * 5 - WORD
  {
  }

  lemma EnoughIff(n: nat, x: nat, s: nat)
    requires x < 0x8000_0000 && Fits(x, s)
    requires n * 5 < WORD ==> x == n * 5 / 3
    requires n * 5 >= WORD ==> 3 * x <= n * 5 - WORD
    ensures Enough(n, s) <==> n * 5 < WORD
  {
    if n * 5 < WORD {
      LargeEnough(n, x, s);
    } else {
      TooSmall(n, x, s);
      assert !NotDue(n - 1, s);
    }
  }

  /** The size is enough for the entries it was made for exactly when five times their number fits a word. */
  lemma CreateIsEnough(n: nat)
    requires n < WORD
    ensures Enough(n, InitialSize(n)) <==> n * 5 < WORD
  {
    WantedLaw(n);
    SizeLaw(n);
    EnoughIff(n, Wanted(n), InitialSize(n));
  }

  lemma LargeEnough(n: nat, x: nat, s: nat)
    requires x == n * 5 / 3 && Fits(x, s)
    ensures Enough(n, s)
  {
  }

  /** With the product wrapped the size falls short, because it is a power of two below the word size. */
  lemma TooSmall(n: nat, x: nat, s: nat)
    requires WORD <= n * 5 && x < 0x8000_0000 && 3 * x <= n * 5 - WORD && Fits(x, s)
    ensures (n - 1) * 5 > s * 3
  {
    PowerBound(x, s, 31);
  }

  /** A power of two that is at most twice a number below 2^31 is at most 2^31. */
  lemma PowerBound(x: nat, s: nat, top: nat)
    requires top == 31 && x < 0x8000_0000 && Fits(x, s)
    ensures s <= 0x8000_0000
  {
    HalfWord(top);
    var m: nat :| 0 < m <= 32 && s == Pow2(m);
    if m <= top {
      PowerGrows(m, top);
    } else {
      WordIsPow2(m);
      assert false;
    }
  }
}
