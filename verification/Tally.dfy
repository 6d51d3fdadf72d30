/** How many keys of a map have a given value, and how an update changes that. */
module Tally {
  function At<K, P(==)>(m: map<K, P>, p: P): set<K> {
    set k | k in m && m[k] == p
  }

  function Count<K, P(==)>(m: map<K, P>, p: P): nat {
    |At(m, p)|
  }

  lemma CardChange<K>(s: set<K>, k: K)
    ensures |s + {k}| == |s| + if k in s then 0 else 1
    ensures |s - {k}| == |s| - if k in s then 1 else 0
  {
    if k in s {
      assert s + {k} == s && s == (s - {k}) + {k};
    } else {
      assert s - {k} == s;
    }
  }

  /** The change in the count of q when k goes to p. */
  function Delta<K, P(==)>(m: map<K, P>, k: K, p: P, q: P): int {
    (if p == q then 1 else 0) - if k in m && m[k] == q then 1 else 0
  }

  lemma Moved<K, P>(m: map<K, P>, k: K, p: P, q: P)
    ensures Count(m[k := p], q) == Count(m, q) + Delta(m, k, p, q)
  {
    CardChange(At(m, q), k);
    assert At(m[k := p], q) == if p == q then At(m, q) + {k} else At(m, q) - {k};
  }

  lemma Gone<K, P>(m: map<K, P>, k: K, q: P)
    requires k in m
    ensures Count(m - {k}, q) == Count(m, q) - if m[k] == q then 1 else 0
  {
    CardChange(At(m, q), k);
    assert At(m - {k}, q) == At(m, q) - {k};
  }

  lemma Empty<K, P>(m: map<K, P>, q: P)
    requires m == map[]
    ensures Count(m, q) == 0
  {
    assert At(m, q) == {};
  }

  lemma Counted<K, P>(m: map<K, P>, k: K)
    requires k in m
    ensures Count(m, m[k]) > 0
  {
    assert k in At(m, m[k]);
  }

  lemma Pick<K, P>(m: map<K, P>, q: P) returns (k: K)
    requires Count(m, q) > 0
    ensures k in m && m[k] == q
  {
    k :| k in At(m, q);
  }
}
