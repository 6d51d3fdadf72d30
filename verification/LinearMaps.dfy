/**
 Repeated linear maps and their matrices, over any addition. A matrix is a list of columns, one
 for each bit of the argument, least significant first.
 */
module LinearMaps {
  import opened Arithmetic


  /** f applied n times. */
  function Iterate<T>(f: T -> T, c: T, n: nat): T
    decreases n
  {
    if n == 0 then c else Iterate(f, f(c), n - 1)
  }

  ghost predicate AddsAt<T>(add: (T, T) -> T, f: T -> T, a: T, b: T) {
    f(add(a, b)) == add(f(a), f(b))
  }

  ghost predicate Linear<T(!new)>(add: (T, T) -> T, f: T -> T) {
    forall a, b :: AddsAt(add, f, a, b)
  }

  lemma {:induction false} IterateAdds<T(!new)>(add: (T, T) -> T, f: T -> T, a: T, b: T, n: nat)
    requires Linear(add, f)
    ensures Iterate(f, add(a, b), n) == add(Iterate(f, a, n), Iterate(f, b, n))
    decreases n
  {
    if n > 0 {
      assert AddsAt(add, f, a, b);
      IterateAdds(add, f, f(a), f(b), n - 1);
    }
  }

  lemma {:induction false} IterateAdd<T>(f: T -> T, c: T, m: nat, n: nat)
    ensures Iterate(f, Iterate(f, c, m), n) == Iterate(f, c, m + n)
    decreases m
  {
    if m > 0 {
      IterateAdd(f, f(c), m - 1, n);
    }
  }

  lemma {:induction false} IterateFixed<T>(f: T -> T, c: T, n: nat)
    requires f(c) == c
    ensures Iterate(f, c, n) == c
    decreases n
  {
    if n > 0 {
      IterateFixed(f, c, n - 1);
    }
  }

  /** n doubled k times. */
  ghost predicate SquaresAt<T>(add: (T, T) -> T, f: T -> T, g: T -> T, n: nat, v: T) {
    Iterate(g, v, n) == add(Iterate(f, v, n), v)
  }

  /**
   Where every value is its own negative, (f + 1)^(2^k) = f^(2^k) + 1. The map g is f + 1.
   */
  lemma {:induction false} PowerOfSum<T(!new)>(add: (T, T) -> T, f: T -> T, g: T -> T, k: nat, v: T)
    requires Linear(add, f)
    requires forall x :: g(x) == add(f(x), x)
    requires forall a, b, c :: add(add(a, b), add(b, c)) == add(a, c)
    ensures SquaresAt(add, f, g, Doubled(1, k), v)
    decreases k
  {
    var n := Doubled(1, k);
    if k == 0 {
      assert Iterate(g, v, 1) == g(v) && Iterate(f, v, 1) == f(v);
    } else {
      var h := Doubled(1, k - 1);
      var w := Iterate(f, v, h);
      PowerOfSum(add, f, g, k - 1, v);
      PowerOfSum(add, f, g, k - 1, add(w, v));
      IterateAdds(add, f, w, v, h);
      IterateAdd(g, v, h, h);
      IterateAdd(f, v, h, h);
      assert add(add(Iterate(f, w, h), w), add(w, v)) == add(Iterate(f, w, h), v);
    }
  }

  lemma {:induction false} IterateKeepsNonzero<T(!new)>(g: T -> T, nul: T, v: T, n: nat)
    requires forall x :: g(x) == nul ==> x == nul
    requires v != nul
    ensures Iterate(g, v, n) != nul
    decreases n
  {
    if n > 0 {
      IterateKeepsNonzero(g, nul, g(v), n - 1);
    }
  }

  /** A linear map with no fixed point but zero has none at any power of two of it either. */
  lemma NoFixedPoint<T(!new)>(add: (T, T) -> T, nul: T, f: T -> T, g: T -> T, k: nat, v: T)
    requires Linear(add, f)
    requires forall x :: g(x) == add(f(x), x)
    requires forall a, b, c :: add(add(a, b), add(b, c)) == add(a, c)
    requires forall x :: g(x) == nul ==> x == nul
    requires v != nul
    ensures add(Iterate(f, v, Doubled(1, k)), v) != nul
  {
    PowerOfSum(add, f, g, k, v);
    IterateKeepsNonzero(g, nul, v, Doubled(1, k));
  }

  /** g undoes each of the next k applications of f to x. */
  ghost predicate Undoes<T>(f: T -> T, g: T -> T, x: T, k: nat)
    decreases k
  {
    k == 0 || (g(f(x)) == x && Undoes(f, g, f(x), k - 1))
  }

  lemma {:induction false} IterateUndo<T>(f: T -> T, g: T -> T, x: T, k: nat)
    requires Undoes(f, g, x, k)
    ensures Iterate(g, Iterate(f, x, k), k) == x
    decreases k
  {
    if k > 0 {
      IterateUndo(f, g, f(x), k - 1);
      IterateAdd(g, Iterate(f, x, k), k - 1, 1);
      assert Iterate(g, f(x), 1) == g(f(x));
    }
  }

  /** A word type whose values are sums of powers of two. */
  datatype Words<!W(!new)> = Words(
    add: (W, W) -> W,
    nul: W,
    one: W,
    odd: W -> bool,
    half: W -> W,
    twice: W -> W,
    bits: nat)
  {
    ghost predicate SplitsAt(v: W) {
      v == add(if odd(v) then one else nul, twice(half(v)))
    }

    ghost predicate AssociatesAt(a: W, b: W, x: W) {
      add(add(a, b), x) == add(a, add(b, x))
    }

    ghost predicate Valid() {
      && (forall a, b, x :: AssociatesAt(a, b, x))
      && Linear(add, twice)
      && twice(nul) == nul
      && (forall v :: SplitsAt(v))
      && (forall v :: Iterate(twice, v, bits) == nul)
      && (forall a :: add(a, nul) == a && add(nul, a) == a)
      && !odd(nul) && half(nul) == nul
    }

    /** The columns of m selected by the bits of v, added up. */
    function Apply(m: seq<W>, v: W): W
      decreases |m|
    {
      if |m| == 0 then nul
      else add(if odd(v) then m[0] else nul, Apply(m[1..], half(v)))
    }

    /** The columns j, j+1, ... of the matrix of n applications of f. */
    ghost predicate ColumnsFrom(f: W -> W, m: seq<W>, j: nat, n: nat) {
      forall i :: 0 <= i < |m| ==> m[i] == Iterate(f, Iterate(twice, one, j + i), n)
    }

    ghost predicate MatrixOf(f: W -> W, m: seq<W>, n: nat) {
      |m| == bits && ColumnsFrom(f, m, 0, n)
    }

    lemma DropColumn(f: W -> W, m: seq<W>, j: nat, n: nat)
      requires |m| > 0
      requires ColumnsFrom(f, m, j, n)
      ensures ColumnsFrom(f, m[1..], j + 1, n)
      ensures m[0] == Iterate(f, Iterate(twice, one, j), n)
    {
      assert m[0] == Iterate(f, Iterate(twice, one, j + 0), n);
      forall i | 0 <= i < |m[1..]| ensures m[1..][i] == Iterate(f, Iterate(twice, one, j + 1 + i), n) {
        assert m[1..][i] == m[1 + i];
        assert m[1 + i] == Iterate(f, Iterate(twice, one, j + (1 + i)), n);
      }
    }

    lemma {:induction false} DropColumns(f: W -> W, m: seq<W>, j: nat, n: nat)
      requires j <= |m|
      requires ColumnsFrom(f, m, 0, n)
      ensures ColumnsFrom(f, m[j..], j, n)
      decreases j
    {
      if j == 0 {
        assert m[0..] == m;
      } else {
        DropColumns(f, m, j - 1, n);
        DropColumn(f, m[j - 1..], j - 1, n);
        assert m[j - 1..][1..] == m[j..];
      }
    }

    lemma OfSplit(f: W -> W, v: W, j: nat, n: nat)
      requires Valid()
      requires Linear(add, f)
      ensures Iterate(f, Iterate(twice, v, j), n)
           == add(Iterate(f, Iterate(twice, if odd(v) then one else nul, j), n),
                  Iterate(f, Iterate(twice, half(v), j + 1), n))
    {
      assert SplitsAt(v);
      var lo, hi := if odd(v) then one else nul, twice(half(v));
      IterateAdds(add, twice, lo, hi, j);
      IterateAdds(add, f, Iterate(twice, lo, j), Iterate(twice, hi, j), n);
    }

    /** The matrix of n applications of f, applied to v, is n applications of f to v. */
    lemma {:induction false} ApplyIsIterate(f: W -> W, m: seq<W>, v: W, j: nat, n: nat)
      requires Valid()
      requires Linear(add, f) && f(nul) == nul
      requires j + |m| == bits
      requires ColumnsFrom(f, m, j, n)
      ensures Apply(m, v) == Iterate(f, Iterate(twice, v, j), n)
      decreases |m|
    {
      IterateFixed(f, nul, n);
      if |m| == 0 {
        assert Iterate(twice, v, bits) == nul;
      } else {
        DropColumn(f, m, j, n);
        ApplyIsIterate(f, m[1..], half(v), j + 1, n);
        OfSplit(f, v, j, n);
        IterateFixed(twice, nul, j);
      }
    }

    lemma {:induction false} ApplyToNul(m: seq<W>)
      requires Valid()
      ensures Apply(m, nul) == nul
      decreases |m|
    {
      if |m| > 0 {
        ApplyToNul(m[1..]);
      }
    }

    /** Squaring: the matrix applied to each of its own columns is the matrix of twice as many steps. */
    lemma SquareLaw(f: W -> W, m: seq<W>, sqr: seq<W>, n: nat)
      requires Valid()
      requires Linear(add, f) && f(nul) == nul
      requires MatrixOf(f, m, n)
      requires |sqr| == bits && forall i :: 0 <= i < bits ==> sqr[i] == Apply(m, m[i])
      ensures MatrixOf(f, sqr, 2 * n)
    {
      forall i | 0 <= i < |sqr| ensures sqr[i] == Iterate(f, Iterate(twice, one, 0 + i), 2 * n) {
        ApplyIsIterate(f, m, m[i], 0, n);
        assert m[i] == Iterate(f, Iterate(twice, one, 0 + i), n);
        IterateAdd(f, Iterate(twice, one, i), n, n);
      }
    }
  }
}
