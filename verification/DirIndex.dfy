/**
 The incrementally rehashed indexes of a directory, by name (dirblob_name_index.c) and by inode
 (dirblob_node_index.c). Both are the same code over different keys: the entries themselves live in
 the directory's buffers, and the key of an entry is read from there. In the index by inode an entry
 may be zeroed in place at any time; it then counts as dead and is dropped when its slot is migrated.
 */
module DirIndex {
  import opened Arithmetic
  import opened ProbeTable
  import opened IndexSize

  const REHASH_STEP: nat := 5
  const LEAST: nat := 256
  const MOST: nat := 0x8000_0000       // entries for which the sizes stay within the word size

  /** How keys are hashed, and which keys mark dead entries. */
  datatype Rules<!K(!new)> = Rules(hash: K -> nat, dead: K -> bool) {
    ghost predicate Valid() {
      forall k :: hash(k) < WORD
    }
  }

  // ----- Occupied slots -----

  function Occ(t: seq<Pointer>): (n: nat)
    ensures n <= |t|
  {
    if |t| == 0 then 0 else (if t[0] != NULL then 1 else 0) + Occ(t[1..])
  }

  lemma {:induction false} OccFill(t: seq<Pointer>, p: nat, ptr: Pointer)
    requires p < |t| && t[p] == NULL && ptr != NULL
    ensures Occ(t[p := ptr]) == Occ(t) + 1
  {
    if p > 0 {
      OccFill(t[1..], p - 1, ptr);
      assert t[p := ptr][1..] == t[1..][p - 1 := ptr];
    } else {
      assert t[p := ptr][1..] == t[1..];
    }
  }

  lemma {:induction false} FreeSlot(t: seq<Pointer>) returns (p: nat)
    requires Occ(t) < |t|
    ensures p < |t| && t[p] == NULL
  {
    if t[0] == NULL {
      p := 0;
    } else {
      p := FreeSlot(t[1..]);
      p := p + 1;
    }
  }

  lemma OccNext(t: seq<Pointer>, i: nat)
    requires i < |t|
    ensures Occ(t[i..]) == (if t[i] != NULL then 1 else 0) + Occ(t[i + 1..])
  {
    assert t[i..][1..] == t[i + 1..];
  }

  lemma {:induction false} OccNone(t: seq<Pointer>)
    requires forall p :: 0 <= p < |t| ==> t[p] == NULL
    ensures Occ(t) == 0
  {
    if |t| > 0 {
      OccNone(t[1..]);
    }
  }

  // ----- A table and its entries -----

  /** A table as a value, with the hash and the step with which each entry was put in. */
  datatype Tab = Tab(t: seq<Pointer>, hs: seq<nat>, ks: seq<nat>)

  /** Every entry is one of those added and lies where its key leads to, unless it is dead. */
  ghost predicate Sound<K(!new)>(r: Rules<K>, keys: map<Pointer, K>, added: set<Pointer>, tab: Tab) {
    && Probed(tab.t, tab.hs, tab.ks)
    && forall p :: 0 <= p < |tab.t| && tab.t[p] != NULL ==>
         && tab.t[p] in added && tab.t[p] in keys
         && (!r.dead(keys[tab.t[p]]) ==> tab.hs[p] == r.hash(keys[tab.t[p]]))
  }

  lemma SoundInsert<K(!new)>(r: Rules<K>, keys: map<Pointer, K>, added: set<Pointer>, tab: Tab, p: nat, ptr: Pointer, ks: seq<nat>)
    requires Sound(r, keys, added, tab) && p < |tab.t| == |tab.hs|
    requires ptr in keys && ptr != NULL
    requires Probed(tab.t[p := ptr], tab.hs[p := r.hash(keys[ptr])], ks)
    ensures Sound(r, keys, added + {ptr}, Tab(tab.t[p := ptr], tab.hs[p := r.hash(keys[ptr])], ks))
  {
  }

  lemma SoundMore<K(!new)>(r: Rules<K>, keys: map<Pointer, K>, added: set<Pointer>, more: set<Pointer>, tab: Tab)
    requires Sound(r, keys, added, tab) && added <= more
    ensures Sound(r, keys, more, tab)
  {
  }

  /** Everything added that is not dead is in one of the tables. */
  ghost predicate Covers<K(!new)>(r: Rules<K>, keys: map<Pointer, K>, added: set<Pointer>, a: seq<Pointer>, b: seq<Pointer>) {
    && NULL !in added
    && forall e :: e in added ==> e in keys && (!r.dead(keys[e]) ==> e in a || e in b)
  }

  /** The entries in the first n slots have been migrated, unless they are dead. */
  ghost predicate Migrated<K(!new)>(r: Rules<K>, keys: map<Pointer, K>, a: seq<Pointer>, n: nat, b: seq<Pointer>) {
    n <= |a| && forall p :: 0 <= p < n && a[p] != NULL ==> a[p] in keys && (!r.dead(keys[a[p]]) ==> a[p] in b)
  }

  lemma StillIn(b: seq<Pointer>, p: nat, ptr: Pointer, e: Pointer)
    requires p < |b| && b[p] == NULL && e in b && e != NULL
    ensures e in b[p := ptr]
  {
    var q :| 0 <= q < |b| && b[q] == e;
    assert b[p := ptr][q] == e;
  }

  lemma MigratedNext<K(!new)>(r: Rules<K>, keys: map<Pointer, K>, a: seq<Pointer>, n: nat, b: seq<Pointer>, p: nat)
    requires Migrated(r, keys, a, n, b) && n < |a| && p < |b| && b[p] == NULL
    requires a[n] != NULL && a[n] in keys
    ensures Migrated(r, keys, a, n + 1, b[p := a[n]])
  {
    var c := b[p := a[n]];
    assert c[p] == a[n];
    forall q | 0 <= q < n + 1 && a[q] != NULL ensures a[q] in keys && (!r.dead(keys[a[q]]) ==> a[q] in c) {
      if q < n && !r.dead(keys[a[q]]) {
        StillIn(b, p, a[n], a[q]);
      }
    }
  }

  lemma CoversInsert<K(!new)>(r: Rules<K>, keys: map<Pointer, K>, added: set<Pointer>, a: seq<Pointer>, b: seq<Pointer>, p: nat, ptr: Pointer)
    requires Covers(r, keys, added, a, b) && p < |b| && b[p] == NULL && ptr != NULL && ptr in keys
    ensures Covers(r, keys, added + {ptr}, a, b[p := ptr])
  {
    var c := b[p := ptr];
    assert c[p] == ptr;
    forall e | e in added + {ptr} ensures e in keys && (!r.dead(keys[e]) ==> e in a || e in c) {
      if e != ptr && !r.dead(keys[e]) && e in b {
        StillIn(b, p, ptr, e);
      }
    }
  }

  /** After the last slot the new table alone holds everything. */
  lemma CoversNew<K(!new)>(r: Rules<K>, keys: map<Pointer, K>, added: set<Pointer>, a: seq<Pointer>, b: seq<Pointer>)
    requires Covers(r, keys, added, a, b) && Migrated(r, keys, a, |a|, b)
    ensures Covers(r, keys, added, b, [])
  {
    forall e | e in added && !r.dead(keys[e]) ensures e in b {
      if e in a {
        var p :| 0 <= p < |a| && a[p] == e;
      }
    }
  }

  lemma DoubleSize(n: nat)
    requires IsSize(n) && n < WORD
    ensures IsSize(2 * n)
  {
    var m: nat :| 0 < m <= 32 && n == Pow2(m);
    if m == 32 {
      WordIsPow2(m);
      assert false;
    }
    assert Pow2(m + 1) == 2 * n;
  }

  // ----- The index -----

  /** An index while entries are being migrated: pos slots are done. */
  ghost predicate Rehashing<K(!new)>(r: Rules<K>, keys: map<Pointer, K>, added: set<Pointer>, a: Tab, b: Tab, count: nat, pos: nat) {
    && Sound(r, keys, added, a) && Sound(r, keys, added, b)
    && |b.t| == 2 * |a.t| && |a.t| >= LEAST
    && Migrated(r, keys, a.t, pos, b.t) && Covers(r, keys, added, a.t, b.t)
    && count == Occ(b.t) + Occ(a.t[pos..])
    && 5 * count <= 3 * |a.t| + 10 + pos && 5 * Occ(a.t) <= 3 * |a.t| + 10
  }

  /** An index with one table. */
  ghost predicate Settled<K(!new)>(r: Rules<K>, keys: map<Pointer, K>, added: set<Pointer>, a: Tab, count: nat) {
    && Sound(r, keys, added, a) && |a.t| >= LEAST
    && Covers(r, keys, added, a.t, [])
    && count == Occ(a.t) && 5 * count <= 3 * |a.t| + 5
  }

  /** When the last slot is done the new table replaces the old one, and the next rehash is not yet due. */
  lemma Completed<K(!new)>(r: Rules<K>, keys: map<Pointer, K>, added: set<Pointer>, a: Tab, b: Tab, count: nat)
    requires Rehashing(r, keys, added, a, b, count, |a.t|)
    ensures Settled(r, keys, added, b, count) && count * 5 <= |b.t| * 3
  {
    CoversNew(r, keys, added, a.t, b.t);
    assert a.t[|a.t|..] == [];
  }

  /** A slot that is empty or has a dead entry. */
  lemma SkipSlot<K(!new)>(r: Rules<K>, keys: map<Pointer, K>, added: set<Pointer>, a: Tab, b: Tab, count: nat, pos: nat)
    requires Rehashing(r, keys, added, a, b, count, pos) && pos < |a.t|
    requires a.t[pos] == NULL || r.dead(keys[a.t[pos]])
    ensures a.t[pos] != NULL ==> count > 0
    ensures Rehashing(r, keys, added, a, b, if a.t[pos] == NULL then count else count - 1, pos + 1)
  {
    OccNext(a.t, pos);
  }

  /** A slot whose entry went into the new table. */
  lemma MoveSlot<K(!new)>(r: Rules<K>, keys: map<Pointer, K>, added: set<Pointer>, a: Tab, b: Tab, count: nat, pos: nat, p: nat, ks: seq<nat>)
    requires Rehashing(r, keys, added, a, b, count, pos) && pos < |a.t| && a.t[pos] != NULL
    requires p < |b.t| == |b.hs| && b.t[p] == NULL
    requires Probed(b.t[p := a.t[pos]], b.hs[p := r.hash(keys[a.t[pos]])], ks)
    ensures Rehashing(r, keys, added, a, Tab(b.t[p := a.t[pos]], b.hs[p := r.hash(keys[a.t[pos]])], ks), count, pos + 1)
  {
    var e := a.t[pos];
    OccNext(a.t, pos);
    OccFill(b.t, p, e);
    SoundInsert(r, keys, added, b, p, e, ks);
    assert added + {e} == added;
    MigratedNext(r, keys, a.t, pos, b.t, p);
    CoversInsert(r, keys, added, a.t, b.t, p, e);
  }

  lemma RoomInNew<K(!new)>(r: Rules<K>, keys: map<Pointer, K>, added: set<Pointer>, a: Tab, b: Tab, count: nat, pos: nat) returns (f: nat, g: nat)
    requires Rehashing(r, keys, added, a, b, count, pos) && pos <= |a.t|
    ensures f < |b.t| && b.t[f] == NULL && g < |a.t| && a.t[g] == NULL
  {
    f := FreeSlot(b.t);
    g := FreeSlot(a.t);
  }

  lemma Begun<K(!new)>(r: Rules<K>, keys: map<Pointer, K>, added: set<Pointer>, a: Tab, b: Tab, count: nat)
    requires Settled(r, keys, added, a, count)
    requires |b.t| == |b.hs| == |b.ks| == 2 * |a.t| && IsSize(|b.t|) && forall p :: 0 <= p < |b.t| ==> b.t[p] == NULL
    ensures Rehashing(r, keys, added, a, b, count, 0)
  {
    EmptyProbed(b.t, b.hs, b.ks);
    OccNone(b.t);
    assert a.t[0..] == a.t;
  }

  lemma AddedNew<K(!new)>(r: Rules<K>, keys: map<Pointer, K>, added: set<Pointer>, a: Tab, b: Tab, count: nat, pos: nat, p: nat, ptr: Pointer, ks: seq<nat>)
    requires Rehashing(r, keys, added, a, b, count, pos) && 5 * count <= 3 * |a.t| + 5 + pos
    requires p < |b.t| == |b.hs| && b.t[p] == NULL && ptr != NULL && ptr in keys
    requires Probed(b.t[p := ptr], b.hs[p := r.hash(keys[ptr])], ks)
    ensures Rehashing(r, keys, added + {ptr}, a, Tab(b.t[p := ptr], b.hs[p := r.hash(keys[ptr])], ks), count + 1, pos)
  {
    OccFill(b.t, p, ptr);
    SoundInsert(r, keys, added, b, p, ptr, ks);
    SoundMore(r, keys, added, added + {ptr}, a);
    CoversInsert(r, keys, added, a.t, b.t, p, ptr);
    forall q | 0 <= q < pos && a.t[q] != NULL && !r.dead(keys[a.t[q]]) ensures a.t[q] in b.t[p := ptr] {
      StillIn(b.t, p, ptr, a.t[q]);
    }
  }

  lemma AddedOld<K(!new)>(r: Rules<K>, keys: map<Pointer, K>, added: set<Pointer>, a: Tab, count: nat, p: nat, ptr: Pointer, ks: seq<nat>)
    requires Settled(r, keys, added, a, count) && 5 * count <= 3 * |a.t|
    requires p < |a.t| == |a.hs| && a.t[p] == NULL && ptr != NULL && ptr in keys
    requires Probed(a.t[p := ptr], a.hs[p := r.hash(keys[ptr])], ks)
    ensures Settled(r, keys, added + {ptr}, Tab(a.t[p := ptr], a.hs[p := r.hash(keys[ptr])], ks), count + 1)
  {
    OccFill(a.t, p, ptr);
    SoundInsert(r, keys, added, a, p, ptr, ks);
    CoversInsert(r, keys, added, [], a.t, p, ptr);
  }

  /** name_index and node_index. */
  class Index<K(==,!new)> {
    const rules: Rules<K>
    var oldtab: array<Pointer>
    var newtab: array<Pointer>         // unused while there is no rehash
    var count: nat
    var rehashPos: nat
    var rehashing: bool
    ghost var a: Tab                   // the old table
    ghost var b: Tab                   // and the new one
    ghost var added: set<Pointer>

    /** The state in the middle of an operation: the last slot may just have been migrated. */
    ghost predicate Mid(keys: map<Pointer, K>)
      reads this, oldtab, newtab
    {
      && rules.Valid() && oldtab[..] == a.t
      && if rehashing then
           && oldtab != newtab && newtab[..] == b.t && rehashPos <= oldtab.Length
           && Rehashing(rules, keys, added, a, b, count, rehashPos)
         else rehashPos == 0 && Settled(rules, keys, added, a, count)
    }

    ghost predicate Valid(keys: map<Pointer, K>)
      reads this, oldtab, newtab
    {
      Mid(keys) && (rehashing ==> rehashPos < oldtab.Length)
    }

    /** name_index_create and node_index_create. */
    constructor Create(r: Rules<K>, minelements: nat, ghost keys: map<Pointer, K>)
      requires r.Valid()
      ensures Valid(keys) && rules == r && added == {} && count == 0 && !rehashing
      ensures oldtab.Length == InitialSize(minelements) && fresh(oldtab) && fresh(newtab)
    {
      SizeLaw(minelements);
      var n := InitialSize(minelements);
      var t := new Pointer[n](_ => NULL);
      rules := r;
      oldtab := t;
      newtab := new Pointer[0];
      count, rehashPos, rehashing := 0, 0, false;
      ghost var none := seq(n, _ => 0);
      EmptyProbed(t[..], none, none);
      OccNone(t[..]);
      a := Tab(t[..], none, none);
      b := Tab([], [], []);
      added := {};
    }

    /** An entry of the old table goes into the new one. */
    method MoveEntry(keys: map<Pointer, K>, ptr: Pointer)
      requires Mid(keys) && rehashing && rehashPos < oldtab.Length
      requires ptr == oldtab[rehashPos] != NULL && ptr in keys
      modifies `b, `rehashPos, newtab
      ensures Mid(keys) && rehashPos == old(rehashPos) + 1
    {
      ghost var f, g := RoomInNew(rules, keys, added, a, b, count, rehashPos);
      var hash := rules.hash(keys[ptr]);
      ghost var p, hs, ks := Insert(newtab, ptr, hash, b.hs, b.ks, f);
      MoveSlot(rules, keys, added, a, b, count, rehashPos, p, ks);
      b := Tab(b.t[p := ptr], b.hs[p := hash], ks);
      rehashPos := rehashPos + 1;
      assert newtab[..] == b.t && Rehashing(rules, keys, added, a, b, count, rehashPos);
    }

    /** A slot without an entry, or with a dead one, is passed over. */
    method PassSlot(keys: map<Pointer, K>, ptr: Pointer)
      requires Mid(keys) && rehashing && rehashPos < oldtab.Length
      requires ptr == oldtab[rehashPos] && (ptr != NULL ==> ptr in keys && rules.dead(keys[ptr]))
      modifies `count, `rehashPos
      ensures Mid(keys) && rehashPos == old(rehashPos) + 1 && count <= old(count)
    {
      SkipSlot(rules, keys, added, a, b, count, rehashPos);
      if ptr != NULL {
        count := count - 1;
      }
      rehashPos := rehashPos + 1;
    }

    /** One slot of the old table. */
    method MigrateSlot(keys: map<Pointer, K>)
      requires Mid(keys) && rehashing && rehashPos < oldtab.Length
      modifies `count, `b, `rehashPos, newtab
      ensures Mid(keys) && rehashPos == old(rehashPos) + 1 && count <= old(count)
    {
      var ptr := oldtab[rehashPos];
      if ptr != NULL && !rules.dead(keys[ptr]) {
        MoveEntry(keys, ptr);
      } else {
        PassSlot(keys, ptr);
      }
    }

    /** The new table takes the place of the old one. */
    method Exchange(keys: map<Pointer, K>)
      requires Mid(keys) && rehashing && rehashPos == oldtab.Length
      modifies `oldtab, `a, `rehashing, `rehashPos
      ensures Mid(keys) && !rehashing && oldtab == newtab && count * 5 <= oldtab.Length * 3
    {
      Completed(rules, keys, added, a, b, count);
      oldtab := newtab;
      a := b;
      rehashing := false;
      rehashPos := 0;
    }

    /** do_incremental_rehash: up to five slots, and the exchange of the tables at the end. */
    method IncrementalRehash(keys: map<Pointer, K>)
      requires Valid(keys)
      modifies this, newtab
      ensures Valid(keys) && added == old(added) && count <= old(count)
      ensures newtab == old(newtab) && (oldtab == old(oldtab) || oldtab == newtab)
      ensures rehashing ==> old(rehashing) && oldtab == old(oldtab) && 5 * count <= 3 * oldtab.Length + 5 + rehashPos
      ensures rehashing ==> rehashPos == old(rehashPos) + REHASH_STEP
      ensures old(rehashing) && !rehashing ==> count * 5 <= oldtab.Length * 3
      ensures !old(rehashing) ==> oldtab == old(oldtab) && count == old(count)
    {
      if !rehashing {
        return;
      }
      var steps := REHASH_STEP;
      assert 5 * count <= 3 * oldtab.Length + 10 + rehashPos;
      while steps > 0 && rehashPos < oldtab.Length
        invariant 0 <= steps <= REHASH_STEP
        invariant Mid(keys) && rehashing && oldtab == old(oldtab) && newtab == old(newtab) && added == old(added)
        invariant rehashPos == old(rehashPos) + (REHASH_STEP - steps) && count <= old(count)
        decreases steps
      {
        MigrateSlot(keys);
        steps := steps - 1;
      }
      if rehashPos >= oldtab.Length {
        Exchange(keys);
      }
    }
  
    /** A rehash begins when more than three fifths of the slots are taken. */
    method StartRehash(keys: map<Pointer, K>)
      requires Mid(keys) && !rehashing && count * 5 > oldtab.Length * 3 && count <= MOST
      modifies `newtab, `b, `rehashing
      ensures Mid(keys) && rehashing && fresh(newtab) && 5 * count <= 3 * oldtab.Length + 5 + rehashPos
    {
      SizeIsEven(oldtab.Length);
      DoubleSize(oldtab.Length);
      newtab := new Pointer[oldtab.Length * 2](_ => NULL);
      b := Tab(newtab[..], seq(newtab.Length, _ => 0), seq(newtab.Length, _ => 0));
      Begun(rules, keys, added, a, b, count);
      rehashing := true;
    }

    method AddToNew(keys: map<Pointer, K>, ptr: Pointer, hash: nat)
      requires Valid(keys) && rehashing && 5 * count <= 3 * oldtab.Length + 5 + rehashPos
      requires ptr != NULL && ptr in keys && hash == rules.hash(keys[ptr])
      modifies `b, `added, `count, newtab
      ensures Valid(keys) && added == old(added) + {ptr} && count == old(count) + 1
    {
      ghost var f, g := RoomInNew(rules, keys, added, a, b, count, rehashPos);
      ghost var p, hs, ks := Insert(newtab, ptr, hash, b.hs, b.ks, f);
      AddedNew(rules, keys, added, a, b, count, rehashPos, p, ptr, ks);
      b := Tab(b.t[p := ptr], b.hs[p := hash], ks);
      added := added + {ptr};
      count := count + 1;
    }

    method AddToOld(keys: map<Pointer, K>, ptr: Pointer, hash: nat)
      requires Valid(keys) && !rehashing && count * 5 <= oldtab.Length * 3
      requires ptr != NULL && ptr in keys && hash == rules.hash(keys[ptr])
      modifies `a, `added, `count, oldtab
      ensures Valid(keys) && added == old(added) + {ptr} && count == old(count) + 1
    {
      ghost var f := FreeSlot(a.t);
      ghost var p, hs, ks := Insert(oldtab, ptr, hash, a.hs, a.ks, f);
      AddedOld(rules, keys, added, a, count, p, ptr, ks);
      a := Tab(a.t[p := ptr], a.hs[p := hash], ks);
      added := added + {ptr};
      count := count + 1;
    }

    /** A rehash goes on, or begins if one is due; either way there is room for one more entry. */
    method MakeRoom(keys: map<Pointer, K>)
      requires Valid(keys) && count <= MOST
      modifies this, newtab
      ensures Valid(keys) && added == old(added) && count <= old(count)
      ensures if rehashing then 5 * count <= 3 * oldtab.Length + 5 + rehashPos else count * 5 <= oldtab.Length * 3
      ensures old(!rehashing && count * 5 <= oldtab.Length * 3) ==>
                !rehashing && oldtab == old(oldtab) && count == old(count)
      ensures old(rehashing) && oldtab != old(oldtab) ==> !rehashing
      ensures old(rehashing) && rehashing ==> rehashPos == old(rehashPos) + REHASH_STEP
      ensures (oldtab == old(oldtab) || oldtab == old(newtab)) && (newtab == old(newtab) || fresh(newtab))
    {
      IncrementalRehash(keys);
      if !rehashing && count * 5 > oldtab.Length * 3 {
        StartRehash(keys);
      }
    }

    /** name_index_add and node_index_add, with the hash of the key; a dead entry is not put in. */
    method Add(keys: map<Pointer, K>, ptr: Pointer, hash: nat)
      requires Valid(keys) && ptr != NULL && ptr in keys && hash == rules.hash(keys[ptr]) && count <= MOST
      modifies this, oldtab, newtab
      ensures Valid(keys) && added == if rules.dead(keys[ptr]) then old(added) else old(added) + {ptr}
      ensures old(!rehashing && count * 5 <= oldtab.Length * 3) ==>
                && !rehashing && oldtab == old(oldtab)
                && count == if rules.dead(keys[ptr]) then old(count) else old(count) + 1
      ensures old(rehashing) && oldtab != old(oldtab) ==> !rehashing
      ensures old(rehashing) && rehashing ==> rehashPos == old(rehashPos) + REHASH_STEP
      ensures (oldtab == old(oldtab) || oldtab == old(newtab)) && (newtab == old(newtab) || fresh(newtab))
    {
      MakeRoom(keys);
      if rules.dead(keys[ptr]) {
        return;
      }
      if rehashing {
        AddToNew(keys, ptr, hash);
      } else {
        AddToOld(keys, ptr, hash);
      }
    }

    /** What a search in one table says. */
    method FindIn(tab: array<Pointer>, keys: map<Pointer, K>, want: K, hash: nat, ghost t: Tab) returns (ptr: Pointer)
      requires rules.Valid() && Sound(rules, keys, added, t) && t.t == tab[..] && Occ(t.t) < |t.t|
      requires hash == rules.hash(want)
      ensures ptr == NULL && !rules.dead(want) ==> forall e :: e in t.t && e != NULL ==> e in keys && keys[e] != want
      ensures ptr != NULL ==> ptr in added && ptr in keys && keys[ptr] == want
    {
      ghost var f := FreeSlot(t.t);
      ptr := ProbeTable.Find(tab, keys, want, hash, t.hs, t.ks, f);
    }

    /** name_index_find and node_index_find, with the hash of the key. */
    method Find(keys: map<Pointer, K>, want: K, hash: nat) returns (ptr: Pointer)
      requires Valid(keys) && hash == rules.hash(want)
      modifies this, newtab
      ensures Valid(keys) && added == old(added)
      ensures ptr != NULL ==> ptr in added && ptr in keys && keys[ptr] == want
      ensures ptr == NULL && !rules.dead(want) ==> forall e :: e in added ==> e in keys && keys[e] != want
      ensures rehashing ==> old(rehashing) && rehashPos == old(rehashPos) + REHASH_STEP
      ensures newtab == old(newtab) && (oldtab == old(oldtab) || oldtab == newtab)
    {
      IncrementalRehash(keys);
      if rehashing {
        ptr := FindIn(newtab, keys, want, hash, b);
        if ptr != NULL {
          return;
        }
      }
      ptr := FindIn(oldtab, keys, want, hash, a);
    }
  }

  /** Zeroing the key of an entry in place does not disturb an index. */
  lemma SoundDies<K(!new)>(r: Rules<K>, keys: map<Pointer, K>, added: set<Pointer>, t: Tab, e: Pointer, k: K)
    requires Sound(r, keys, added, t) && r.dead(k)
    ensures Sound(r, keys[e := k], added, t)
  {
  }

  lemma EntryDies<K(!new)>(x: Index<K>, keys: map<Pointer, K>, e: Pointer, k: K)
    requires x.Valid(keys) && x.rules.dead(k)
    ensures x.Valid(keys[e := k])
  {
    SoundDies(x.rules, keys, x.added, x.a, e, k);
    if x.rehashing {
      SoundDies(x.rules, keys, x.added, x.b, e, k);
    }
  }

  // ----- The hash functions -----

  /** A name as bytes. */
  type Name = seq<bv8>

  function Pow33(n: nat): (p: nat)
    ensures p % 2 == 1
  {
    if n == 0 then 1 else 33 * Pow33(n - 1)
  }

  /** A name as a number: its bytes are the coefficients of powers of 33. */
  function Weight(name: Name): nat {
    if |name| == 0 then 0 else name[0] as int * Pow33(|name| - 1) + Weight(name[1..])
  }

  /** 5381 is the coefficient before the name; the number is reduced once. */
  function NameHash(name: Name): nat {
    (5381 * Pow33(|name|) + Weight(name)) % WORD
  }

  lemma {:induction false} WeightPush(name: Name, b: bv8)
    ensures Weight(name + [b]) == 33 * Weight(name) + b as int
  {
    if |name| == 0 {
      assert (name + [b])[1..] == [];
      assert Pow33(0) == 1;
    } else {
      assert (name + [b])[1..] == name[1..] + [b];
      WeightPush(name[1..], b);
      Distribute33(name[0] as int, Pow33(|name| - 1), Weight(name[1..]));
      assert Pow33(|name|) == 33 * Pow33(|name| - 1);
    }
  }

  lemma Distribute33(a: nat, p: nat, w: nat)
    ensures a * (33 * p) + 33 * w == 33 * (a * p + w)
  {
  }

  /** Reducing at every step is reducing once. */
  lemma ReduceOnce(x: nat, b: nat)
    ensures (33 * (x % WORD) + b) % WORD == (33 * x + b) % WORD
  {
    ModShift(33 * (x % WORD) + b, 33 * (x / WORD), WORD);
  }

  lemma HashPush(name: Name, b: bv8)
    ensures NameHash(name + [b]) == (33 * NameHash(name) + b as int) % WORD
  {
    WeightPush(name, b);
    ReduceOnce(5381 * Pow33(|name|) + Weight(name), b as int);
  }

  /** hash_function of the index by name: the loop computes the number, modulo the word size. */
  method HashName(name: Name) returns (h: nat)
    ensures h == NameHash(name)
  {
    h := 5381;
    for i := 0 to |name|
      invariant h == NameHash(name[..i])
    {
      HashPush(name[..i], name[i]);
      assert name[..i + 1] == name[..i] + [name[i]];
      h := ((h * 32 + h) + name[i] as int) % WORD;
    }
    assert name[..|name|] == name;
  }

  lemma {:induction false} WeightChange(name: Name, i: nat, b: bv8)
    requires i < |name|
    ensures Weight(name[i := b]) - Weight(name) == (b as int - name[i] as int) * Pow33(|name| - 1 - i)
  {
    if i > 0 {
      assert name[i := b][1..] == name[1..][i - 1 := b];
      WeightChange(name[1..], i - 1, b);
    } else {
      assert name[i := b][1..] == name[1..];
      DistributeMinus(b as int, name[0] as int, Pow33(|name| - 1));
    }
  }

  lemma DistributeMinus(a: int, b: int, p: int)
    ensures a * p - b * p == (a - b) * p
  {
  }

  /** A small number times an odd one is no multiple of the word size. */
  lemma OddMultiple(x: int, d: int, q: int)
    requires d % 2 == 1 && x < WORD && -x < WORD && x * d == q * WORD
    ensures x == 0
  {
    var u, c := OddInverse(d, 32);
    WordIsPow2(32);
    assert x * (d * u) == x * (1 + c * WORD);
    assert x * (d * u) == (x * d) * u == (q * WORD) * u;
    assert x == WORD * (q * u - x * c);
    SmallMultiple(WORD, q * u - x * c);
  }

  lemma SameRemainder(x: int, y: int)
    requires x % WORD == y % WORD
    ensures x - y == (x / WORD - y / WORD) * WORD
  {
  }

  lemma NumbersApart(x: int, y: int, d: int, p: int)
    requires x - y == d * p && p % 2 == 1 && d < WORD && -d < WORD && d != 0
    ensures x % WORD != y % WORD
  {
    if x % WORD == y % WORD {
      SameRemainder(x, y);
      OddMultiple(d, p, x / WORD - y / WORD);
    }
  }

  lemma BytesApart(a: bv8, b: bv8)
    requires a != b
    ensures a as int != b as int && a as int < 256 && b as int < 256
  {
    assert (a as int) as bv8 == a && (b as int) as bv8 == b;
  }

  /** Names of the same length that differ in one byte never have the same hash. */
  lemma OneByteApart(name: Name, i: nat, b: bv8)
    requires i < |name| && name[i] != b
    ensures NameHash(name[i := b]) != NameHash(name)
  {
    var x, y := 5381 * Pow33(|name|) + Weight(name[i := b]), 5381 * Pow33(|name|) + Weight(name);
    WeightChange(name, i, b);
    BytesApart(b, name[i]);
    NumbersApart(x, y, b as int - name[i] as int, Pow33(|name| - 1 - i));
  }

  function NodeHash(node: nat): nat {
    node * 33 % WORD
  }

  /** Distinct inodes never have the same hash. */
  lemma NodesApart(x: nat, y: nat)
    requires x < WORD && y < WORD && NodeHash(x) == NodeHash(y)
    ensures x == y
  {
    SameRemainder(x * 33, y * 33);
    OddMultiple(x - y, 33, x * 33 / WORD - y * 33 / WORD);
  }

  // ----- The two indexes of a directory -----

  /** Entries by name never die; entries by inode die when the inode is zeroed. */
  const BY_NAME: Rules<Name> := Rules(NameHash, (_: Name) => false)
  const BY_NODE: Rules<nat> := Rules(NodeHash, (node: nat) => node == 0)

  lemma RulesHold()
    ensures BY_NAME.Valid() && BY_NODE.Valid()
  {
  }

  /** The entries that are not dead. */
  function Living<K(!new)>(r: Rules<K>, keys: map<Pointer, K>, s: seq<Pointer>): set<Pointer>
    requires forall e :: e in s ==> e in keys
  {
    set e | e in s && !r.dead(keys[e])
  }

  lemma LivingPush<K(!new)>(r: Rules<K>, keys: map<Pointer, K>, s: seq<Pointer>, i: nat)
    requires i < |s| && forall e :: e in s ==> e in keys
    ensures s[i] in s && Living(r, keys, s[..i + 1]) ==
            if r.dead(keys[s[i]]) then Living(r, keys, s[..i]) else Living(r, keys, s[..i]) + {s[i]}
  {
    assert s[..i + 1] == s[..i] + [s[i]];
  }

  /** What an index made for a directory with the given entries is. */
  ghost predicate Made<K(!new)>(x: Index<K>, r: Rules<K>, keys: map<Pointer, K>, ptrs: seq<Pointer>)
    requires forall e :: e in ptrs ==> e in keys
    reads x, x.oldtab, x.newtab
  {
    && x.Valid(keys) && x.rules == r && !x.rehashing && x.oldtab.Length == InitialSize(|ptrs|)
    && x.count <= |ptrs| && x.added == Living(r, keys, ptrs)
  }

  /** dcache_make_name_index: an index created for as many entries as are then added takes them without a rehash. */
  method MakeNameIndex(keys: map<Pointer, Name>, ptrs: seq<Pointer>) returns (x: Index<Name>)
    requires |ptrs| * 5 < WORD && forall e :: e in ptrs ==> e != NULL && e in keys
    ensures fresh(x) && Made(x, BY_NAME, keys, ptrs) && x.count == |ptrs|
  {
    RulesHold();
    x := new Index<Name>.Create(BY_NAME, |ptrs|, keys);
    CreateIsEnough(|ptrs|);
    var i := 0;
    while i < |ptrs|
      invariant 0 <= i <= |ptrs|
      invariant fresh(x) && fresh(x.oldtab) && fresh(x.newtab)
      invariant x.Valid(keys) && x.rules == BY_NAME && !x.rehashing && x.oldtab.Length == InitialSize(|ptrs|)
      invariant x.count == i && x.added == Living(BY_NAME, keys, ptrs[..i])
    {
      assert ptrs[i] in ptrs && NotDue(i, InitialSize(|ptrs|));
      LivingPush(BY_NAME, keys, ptrs, i);
      var hash := HashName(keys[ptrs[i]]);
      x.Add(keys, ptrs[i], hash);
      i := i + 1;
    }
    assert ptrs[..i] == ptrs;
  }

  /** dcache_make_node_index; entries whose inode is zero are left out. */
  method MakeNodeIndex(keys: map<Pointer, nat>, ptrs: seq<Pointer>) returns (x: Index<nat>)
    requires |ptrs| * 5 < WORD && forall e :: e in ptrs ==> e != NULL && e in keys
    ensures fresh(x) && Made(x, BY_NODE, keys, ptrs)
  {
    RulesHold();
    x := new Index<nat>.Create(BY_NODE, |ptrs|, keys);
    CreateIsEnough(|ptrs|);
    var i := 0;
    while i < |ptrs|
      invariant 0 <= i <= |ptrs|
      invariant fresh(x) && fresh(x.oldtab) && fresh(x.newtab)
      invariant x.Valid(keys) && x.rules == BY_NODE && !x.rehashing && x.oldtab.Length == InitialSize(|ptrs|)
      invariant x.count <= i && x.added == Living(BY_NODE, keys, ptrs[..i])
    {
      assert ptrs[i] in ptrs && NotDue(x.count, InitialSize(|ptrs|));
      LivingPush(BY_NODE, keys, ptrs, i);
      x.Add(keys, ptrs[i], NodeHash(keys[ptrs[i]]));
      i := i + 1;
    }
    assert ptrs[..i] == ptrs;
  }

  /** name_index_find. */
  method FindName(x: Index<Name>, keys: map<Pointer, Name>, name: Name) returns (ptr: Pointer)
    requires x.Valid(keys) && x.rules == BY_NAME
    modifies x, x.newtab
    ensures x.Valid(keys) && x.added == old(x.added)
    ensures ptr != NULL ==> ptr in x.added && ptr in keys && keys[ptr] == name
    ensures ptr == NULL ==> forall e :: e in x.added ==> e in keys && keys[e] != name
  {
    var hash := HashName(name);
    ptr := x.Find(keys, name, hash);
  }
}
