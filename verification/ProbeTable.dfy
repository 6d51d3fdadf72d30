/**
 Open addressing as in hash_insert and hash_find of the directory indexes: clusters of nine slots,
 taken at an odd distance from each other in a table whose size is a power of two.
 */
module ProbeTable {
  import opened Arithmetic

  const WORD: nat := 0x1_0000_0000
  const CLUSTER: nat := 9
  const MULTIPLIER: nat := 0x53B23891

  type Pointer = nat
  const NULL: Pointer := 0

  lemma {:induction false} Pow2Splits(a: nat, b: nat)
    requires a <= b
    ensures Pow2(b) == Pow2(a) * Pow2(b - a)
  {
    if a > 0 {
      Pow2Splits(a - 1, b - 1);
    }
  }

  lemma WordIsPow2(w: nat)
    requires w == 32
    ensures Pow2(w) == WORD
  {
    assert Pow2(8) == 256;
    Pow2Splits(8, 16);
    Pow2Splits(16, w);
  }

  ghost predicate IsSize(n: nat) {
    exists m: nat :: 0 < m <= 32 && n == Pow2(m)
  }

  // ----- Arithmetic modulo the table size -----

  lemma ModUnique(a: int, q: int, r: int, n: int)
    requires n > 0 && a == q * n + r && 0 <= r < n
    ensures a % n == r && a / n == q
  {
    var d := a / n - q;
    assert a == n * (a / n) + a % n;
    assert n * d == r - a % n;
    SmallMultiple(n, d);
  }

  lemma ModShift(a: int, k: int, n: int)
    requires n > 0
    ensures (a + k * n) % n == a % n
  {
    assert a == a / n * n + a % n;
    assert a + k * n == (a / n + k) * n + a % n;
    ModUnique(a + k * n, a / n + k, a % n, n);
  }

  lemma ModMod(x: nat, w: nat, c: nat, n: nat)
    requires n > 0 && w > 0 && w == c * n
    ensures x % w % n == x % n
  {
    var q, r := x / w, x % w;
    assert x == q * w + r;
    assert q * w == (q * c) * n;
    ModShift(r, q * c, n);
  }

  /** The size of a table divides the word size. */
  lemma SizeDivides(n: nat) returns (c: nat)
    requires IsSize(n)
    ensures c > 0 && WORD == c * n
  {
    var m: nat :| 0 < m <= 32 && n == Pow2(m);
    c := PowerDivides(m, 32);
  }

  lemma PowerDivides(m: nat, w: nat) returns (c: nat)
    requires m <= w && w == 32
    ensures c > 0 && WORD == c * Pow2(m)
  {
    c := Divides(m, w);
    WordIsPow2(w);
  }

  lemma Divides(m: nat, w: nat) returns (c: nat)
    requires m <= w
    ensures c > 0 && Pow2(w) == c * Pow2(m)
  {
    Pow2Splits(m, w);
    c := Pow2(w - m);
    Commutes(Pow2(m), c);
  }

  lemma Commutes(a: nat, b: nat)
    ensures a * b == b * a
  {
  }

  /** Wrapping at the word size does not change the slot. */
  lemma WordMod(x: nat, n: nat)
    requires IsSize(n)
    ensures n > 0 && x % WORD % n == x % n
  {
    var c := SizeDivides(n);
    ModMod(x, WORD, c, n);
  }

  lemma SizeIsEven(n: nat)
    requires IsSize(n)
    ensures n % 2 == 0 && 2 <= n <= WORD
  {
    var m: nat :| 0 < m <= 32 && n == Pow2(m);
    assert n == 2 * Pow2(m - 1);
    var c := SizeDivides(n);
    Bounded(c, n);
  }

  lemma Bounded(c: nat, n: nat)
    requires c > 0
    ensures n <= c * n
  {
    assert c * n == (c - 1) * n + n;
  }

  // ----- Odd steps visit every slot -----

  function HalfSum(b: int, d: int): (c: int)
    requires d % 2 == 1
    ensures b + b % 2 * d == 2 * c
  {
    if b % 2 == 0 then b / 2 else (b + d) / 2
  }

  /** An odd number has an inverse modulo a power of two, built up one bit at a time. */
  lemma {:induction false} OddInverse(d: int, m: nat) returns (u: int, c: int)
    requires d % 2 == 1
    ensures d * u == 1 + c * Pow2(m)
  {
    if m == 0 {
      u, c := 1, d - 1;
    } else {
      var v, b := OddInverse(d, m - 1);
      var n := Pow2(m - 1);
      var bit := b % 2;
      u, c := v + bit * n, HalfSum(b, d);
      OneMoreBit(d, v, b, n, c, bit);
      assert Pow2(m) == 2 * n;
    }
  }

  lemma OneMoreBit(d: int, v: int, b: int, n: int, c: int, bit: int)
    requires d * v == 1 + b * n && b + bit * d == 2 * c
    ensures d * (v + bit * n) == 1 + c * (2 * n)
  {
    assert d * (v + bit * n) == d * v + (bit * d) * n;
    assert b * n + (bit * d) * n == (b + bit * d) * n;
    assert (2 * c) * n == c * (2 * n);
  }

  /** Starting anywhere, some number of odd steps leads to any given slot. */
  lemma OddStepsReach(h: nat, d: nat, n: nat, target: nat) returns (r: nat)
    requires IsSize(n) && d % 2 == 1 && target < n
    ensures r < n && (h + r * d) % n == target
  {
    var m: nat :| 0 < m <= 32 && n == Pow2(m);
    var u, c := OddInverse(d, m);
    r := StepsFor(h, d, n, target, u, c);
  }

  lemma StepsFor(h: int, d: int, n: nat, target: nat, u: int, c: int) returns (r: nat)
    requires n > 0 && target < n && d * u == 1 + c * n
    ensures r < n && (h + r * d) % n == target
  {
    var x := target - h;
    var y := x * u;
    r := y % n;
    var q := y / n;
    assert y == q * n + r;
    ReachAlgebra(x, u, d, c, n, q, r);
    var k := x * c - q * d;
    assert h + r * d == target + k * n;
    ModShift(target, k, n);
    ModUnique(target, 0, target, n);
  }

  lemma ReachAlgebra(x: int, u: int, d: int, c: int, n: int, q: int, r: int)
    requires d * u == 1 + c * n && x * u == q * n + r
    ensures r * d == x + (x * c - q * d) * n
  {
    assert r * d == (x * u) * d - q * n * d;
    assert (x * u) * d == x * (d * u);
    assert x * (d * u) == x * (1 + c * n);
    assert x * (1 + c * n) == x + x * (c * n);
    assert x * (c * n) == (x * c) * n;
    assert q * n * d == (q * d) * n;
    assert (x * c) * n - (q * d) * n == (x * c - q * d) * n;
  }

  // ----- Probing -----

  /** The distance between clusters: ((hash * c) & mask) | 1. */
  function Disp(h: nat, n: nat): (d: nat)
    requires n > 0
    ensures d % 2 == 1
  {
    SetLowBit(h * MULTIPLIER % n)
  }

  function SetLowBit(x: nat): (y: nat)
    ensures y % 2 == 1
  {
    x - x % 2 + 1
  }

  /** The hash value after r clusters, wrapping at the word size. */
  function Cluster(h: nat, n: nat, r: nat): nat
    requires n > 0
  {
    if r == 0 then h else (Cluster(h, n, r - 1) + Disp(h, n)) % WORD
  }

  /** The slot looked at in step k of the search for hash h. */
  function Slot(h: nat, n: nat, k: nat): (p: nat)
    requires n > 0
    ensures p < n
  {
    (Cluster(h, n, k / CLUSTER) + k % CLUSTER) % WORD % n
  }

  lemma {:induction false} ClusterClosed(h: nat, n: nat, r: nat)
    requires n > 0 && h < WORD
    ensures Cluster(h, n, r) == (h + r * Disp(h, n)) % WORD
  {
    if r > 0 {
      ClusterClosed(h, n, r - 1);
      NextCluster(h, Disp(h, n), r - 1, Cluster(h, n, r - 1));
    }
  }

  /** The entry in slot p was put there in step ks[p] for hash hs[p], past occupied slots only. */
  ghost predicate ProbedAt(t: seq<Pointer>, hs: seq<nat>, ks: seq<nat>, p: nat) {
    && p < |t| == |hs| == |ks|
    && Slot(hs[p], |t|, ks[p]) == p
    && forall j: nat :: j < ks[p] ==> t[Slot(hs[p], |t|, j)] != NULL
  }

  ghost predicate Probed(t: seq<Pointer>, hs: seq<nat>, ks: seq<nat>) {
    && IsSize(|t|) && |hs| == |t| && |ks| == |t|
    && forall p: nat :: p < |t| && t[p] != NULL ==> ProbedAt(t, hs, ks, p)
  }

  lemma EmptyProbed(t: seq<Pointer>, hs: seq<nat>, ks: seq<nat>)
    requires IsSize(|t|) && |hs| == |t| == |ks| && forall p :: 0 <= p < |t| ==> t[p] == NULL
    ensures Probed(t, hs, ks)
  {
  }

  /** Filling the first free slot of a search keeps every entry within reach. */
  lemma Inserted(t: seq<Pointer>, hs: seq<nat>, ks: seq<nat>, ptr: Pointer, h: nat, k: nat)
    requires Probed(t, hs, ks) && ptr != NULL
    requires t[Slot(h, |t|, k)] == NULL && forall j: nat :: j < k ==> t[Slot(h, |t|, j)] != NULL
    ensures var p := Slot(h, |t|, k); Probed(t[p := ptr], hs[p := h], ks[p := k])
  {
    var p := Slot(h, |t|, k);
    var t', hs', ks' := t[p := ptr], hs[p := h], ks[p := k];
    forall q: nat | q < |t'| && t'[q] != NULL ensures ProbedAt(t', hs', ks', q) {
      if q != p {
        assert ProbedAt(t, hs, ks, q);
      }
    }
  }

  lemma UnwrappedSlot(x: nat, n: nat, c: nat, p: nat)
    requires IsSize(n) && n > 0 && c == x % WORD && p == (c + 0) % WORD % n
    ensures p == x % n
  {
    WordMod(x, n);
    AddMod(x, 0);
  }

  /** Where cluster r begins. */
  lemma ClusterSlot(h: nat, n: nat, k: nat, r: nat, x: nat)
    requires IsSize(n) && n > 0 && k == r * CLUSTER && Cluster(h, n, r) == x % WORD
    ensures Slot(h, n, k) == x % n
  {
    SlotIn(h, n, k, r, 0);
    UnwrappedSlot(x, n, Cluster(h, n, r), Slot(h, n, k));
  }

  lemma ClusterReaches(h: nat, n: nat, r: nat, e: nat)
    requires IsSize(n) && n > 0 && h < WORD && (h + r * Disp(h, n)) % n == e
    ensures Slot(h, n, r * CLUSTER) == e
  {
    ClusterClosed(h, n, r);
    ClusterSlot(h, n, r * CLUSTER, r, h + r * Disp(h, n));
  }

  /** Some cluster begins at a free slot. */
  lemma ReachesEmpty(t: seq<Pointer>, h: nat, e: nat) returns (r: nat)
    requires IsSize(|t|) && e < |t| && t[e] == NULL && h < WORD
    ensures Slot(h, |t|, r * CLUSTER) == e
  {
    r := OddStepsReach(h, Disp(h, |t|), |t|, e);
    ClusterReaches(h, |t|, r, e);
  }

  lemma InCluster(k: nat, r: nat, i: nat)
    requires i < CLUSTER && k == r * CLUSTER + i
    ensures k / CLUSTER == r && k % CLUSTER == i
  {
  }

  lemma SlotOf(h: nat, n: nat, k: nat, r: nat, i: nat)
    requires n > 0 && k / CLUSTER == r && k % CLUSTER == i
    ensures (Cluster(h, n, r) + i) % WORD % n == Slot(h, n, k)
  {
  }

  /** Slot i of cluster r. */
  lemma SlotIn(h: nat, n: nat, k: nat, r: nat, i: nat)
    requires n > 0 && i < CLUSTER && k == r * CLUSTER + i
    ensures (Cluster(h, n, r) + i) % WORD % n == Slot(h, n, k)
  {
    InCluster(k, r, i);
    SlotOf(h, n, k, r, i);
  }

  lemma AddMod(x: nat, i: nat)
    ensures (x % WORD + i) % WORD == (x + i) % WORD
  {
  }

  lemma DispIsWrapped(h: nat, n: nat)
    requires IsSize(n)
    ensures SetLowBit(h * MULTIPLIER % WORD % n) == Disp(h, n)
  {
    WordMod(h * MULTIPLIER, n);
  }

  /** The next cluster. */
  lemma NextCluster(h: nat, d: nat, r: nat, cur: nat)
    requires cur == (h + r * d) % WORD
    ensures (cur + d) % WORD == (h + (r + 1) * d) % WORD
  {
    AddMod(h + r * d, d);
    assert h + r * d + d == h + (r + 1) * d;
  }

  /** The first k slots of the search for h are taken. */
  ghost predicate Taken(t: seq<Pointer>, h: nat, k: nat)
    requires |t| > 0
  {
    forall j: nat :: j < k ==> t[Slot(h, |t|, j)] != NULL
  }

  lemma NotYetThere(t: seq<Pointer>, h: nat, r: nat, stop: nat)
    requires |t| > 0 && Taken(t, h, (r + 1) * CLUSTER) && t[Slot(h, |t|, stop * CLUSTER)] == NULL
    ensures r < stop
  {
  }

  /** The first free slot of a cluster. */
  method FreeInCluster(tab: array<Pointer>, cur: nat, ghost hash: nat, ghost r: nat) returns (i: nat, q: nat)
    requires tab.Length > 0 && cur == Cluster(hash, tab.Length, r)
    requires Taken(tab[..], hash, r * CLUSTER)
    ensures i <= CLUSTER && Taken(tab[..], hash, r * CLUSTER + i)
    ensures i < CLUSTER ==> q == Slot(hash, tab.Length, r * CLUSTER + i) && tab[q] == NULL
  {
    i, q := 0, 0;
    while i < CLUSTER
      invariant 0 <= i <= CLUSTER
      invariant Taken(tab[..], hash, r * CLUSTER + i)
    {
      SlotIn(hash, tab.Length, r * CLUSTER + i, r, i);
      q := (cur + i) % WORD % tab.Length;
      if tab[q] == NULL {
        return;
      }
      i := i + 1;
    }
  }

  /** hash_insert. */
  method Insert(tab: array<Pointer>, ptr: Pointer, hash: nat, ghost hs: seq<nat>, ghost ks: seq<nat>, ghost free: nat)
    returns (ghost p: nat, ghost hs': seq<nat>, ghost ks': seq<nat>)
    requires Probed(tab[..], hs, ks) && ptr != NULL && hash < WORD
    requires free < tab.Length && tab[free] == NULL
    modifies tab
    ensures p < tab.Length && old(tab[p]) == NULL && tab[..] == old(tab[..])[p := ptr]
    ensures p < |hs| && hs' == hs[p := hash] && Probed(tab[..], hs', ks')
  {
    ghost var t := tab[..];
    var n := tab.Length;
    SizeIsEven(n);
    var disp := SetLowBit(hash * MULTIPLIER % WORD % n);
    DispIsWrapped(hash, n);
    ghost var stop := ReachesEmpty(t, hash, free);
    var cur := hash;
    ghost var r := 0;
    while true
      invariant r <= stop && cur == Cluster(hash, n, r)
      invariant tab[..] == t && Taken(t, hash, r * CLUSTER)
      decreases stop - r
    {
      var i, q := FreeInCluster(tab, cur, hash, r);
      if i < CLUSTER {
        Inserted(t, hs, ks, ptr, hash, r * CLUSTER + i);
        tab[q] := ptr;
        p, hs', ks' := q, hs[q := hash], ks[q := r * CLUSTER + i];
        assert tab[..] == t[q := ptr];
        return;
      }
      NotYetThere(t, hash, r, stop);
      cur := (cur + disp) % WORD;
      r := r + 1;
    }
  }

  /** The entries with the key were put in with its hash. */
  ghost predicate Hashed<K>(t: seq<Pointer>, hs: seq<nat>, keys: map<Pointer, K>, want: K, h: nat)
    requires |hs| == |t|
  {
    forall p :: 0 <= p < |t| && t[p] != NULL ==> t[p] in keys && (keys[t[p]] == want ==> hs[p] == h)
  }

  /** Nothing looked for lies behind the first free slot. */
  lemma NotFound<K>(t: seq<Pointer>, hs: seq<nat>, ks: seq<nat>, keys: map<Pointer, K>, want: K, h: nat, k: nat)
    requires Probed(t, hs, ks)
    requires Hashed(t, hs, keys, want, h)
    requires t[Slot(h, |t|, k)] == NULL
    requires forall j: nat :: j < k ==> t[Slot(h, |t|, j)] != NULL && keys[t[Slot(h, |t|, j)]] != want
    ensures forall p :: 0 <= p < |t| && t[p] != NULL ==> keys[t[p]] != want
  {
    forall p: nat | p < |t| && t[p] != NULL ensures keys[t[p]] != want {
      assert ProbedAt(t, hs, ks, p);
    }
  }

  /** The first k slots of the search for h are taken by entries with other keys. */
  ghost predicate Passed<K>(t: seq<Pointer>, keys: map<Pointer, K>, want: K, h: nat, k: nat)
    requires |t| > 0
  {
    forall j: nat :: j < k ==>
      t[Slot(h, |t|, j)] != NULL && t[Slot(h, |t|, j)] in keys && keys[t[Slot(h, |t|, j)]] != want
  }

  lemma PassedOne<K>(t: seq<Pointer>, keys: map<Pointer, K>, want: K, h: nat, k: nat, ptr: Pointer)
    requires |t| > 0 && Passed(t, keys, want, h, k)
    requires ptr == t[Slot(h, |t|, k)] != NULL && ptr in keys && keys[ptr] != want
    ensures Passed(t, keys, want, h, k + 1)
  {
  }

  /** The first slot of a cluster that is free or has the key. */
  method FindInCluster<K(==)>(tab: array<Pointer>, keys: map<Pointer, K>, want: K, cur: nat, ghost hash: nat, ghost r: nat)
    returns (i: nat, ptr: Pointer)
    requires tab.Length > 0 && cur == Cluster(hash, tab.Length, r)
    requires forall p :: 0 <= p < tab.Length && tab[p] != NULL ==> tab[p] in keys
    requires Passed(tab[..], keys, want, hash, r * CLUSTER)
    ensures i <= CLUSTER && Passed(tab[..], keys, want, hash, r * CLUSTER + i)
    ensures i < CLUSTER ==> ptr == tab[Slot(hash, tab.Length, r * CLUSTER + i)]
    ensures i < CLUSTER ==> ptr == NULL || (ptr in keys && keys[ptr] == want)
  {
    i, ptr := 0, NULL;
    ghost var t, k := tab[..], r * CLUSTER;
    while i < CLUSTER
      invariant 0 <= i <= CLUSTER && k == r * CLUSTER + i
      invariant Passed(t, keys, want, hash, k)
    {
      SlotIn(hash, tab.Length, k, r, i);
      var p := (cur + i) % WORD % tab.Length;
      ptr := tab[p];
      if ptr == NULL || keys[ptr] == want {
        return;
      }
      PassedOne(t, keys, want, hash, k, ptr);
      i, k := i + 1, k + 1;
    }
  }

  /** hash_find, with the key of every entry given by keys. */
  method Find<K(==)>(tab: array<Pointer>, keys: map<Pointer, K>, want: K, hash: nat,
                     ghost hs: seq<nat>, ghost ks: seq<nat>, ghost free: nat)
    returns (ptr: Pointer)
    requires Probed(tab[..], hs, ks) && hash < WORD
    requires free < tab.Length && tab[free] == NULL
    requires forall p :: 0 <= p < tab.Length && tab[p] != NULL ==> tab[p] in keys
    ensures ptr == NULL && Hashed(tab[..], hs, keys, want, hash) ==>
              forall p :: 0 <= p < tab.Length && tab[p] != NULL ==> keys[tab[p]] != want
    ensures ptr != NULL ==> ptr in tab[..] && ptr in keys && keys[ptr] == want
  {
    ghost var t := tab[..];
    var n := tab.Length;
    SizeIsEven(n);
    var disp := SetLowBit(hash * MULTIPLIER % WORD % n);
    DispIsWrapped(hash, n);
    ghost var stop := ReachesEmpty(t, hash, free);
    var cur := hash;
    ghost var r := 0;
    while true
      invariant r <= stop && cur == Cluster(hash, n, r)
      invariant Passed(t, keys, want, hash, r * CLUSTER)
      decreases stop - r
    {
      var i;
      i, ptr := FindInCluster(tab, keys, want, cur, hash, r);
      if i < CLUSTER {
        if ptr == NULL {
          if Hashed(t, hs, keys, want, hash) {
            NotFound(t, hs, ks, keys, want, hash, r * CLUSTER + i);
          }
        } else {
          assert t[Slot(hash, n, r * CLUSTER + i)] == ptr;
        }
        return;
      }
      assert Taken(t, hash, (r + 1) * CLUSTER);
      NotYetThere(t, hash, r, stop);
      cur := (cur + disp) % WORD;
      r := r + 1;
    }
  }
}
