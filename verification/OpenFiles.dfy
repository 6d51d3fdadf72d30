/**
 The table of open inodes of the client: reference counts and dentry flags by inode in a hash table,
 with the idle ones on a list from which the oldest are evicted, and the packet that reports them.
 */
module OpenFiles {
  import opened Distinctness
  import opened HeapSorter

  const HASH: nat := 4096           // ACQFILES_HASH_SIZE
  const LIMIT: nat := 5000          // ACQFILES_LRU_LIMIT
  const MAX_AGE: nat := 10          // ACQFILES_MAX_AGE
  const CNT_RANGE: nat := 0x1_0000  // the counter has 16 bits

  /** acquired_file, without its links. */
  datatype File = File(cnt: nat, dentry: bool, age: nat) {
    predicate Idle() { cnt == 0 && !dentry }
  }

  /** A list without one of its elements. */
  function Drop(s: seq<nat>, k: nat): (t: seq<nat>)
    requires k < |s|
    ensures |t| == |s| - 1
    ensures forall i :: 0 <= i < |t| ==> t[i] == if i < k then s[i] else s[i + 1]
  {
    s[..k] + s[k + 1..]
  }

  lemma DropLaw(s: seq<nat>, k: nat)
    requires Distinct(s) && k < |s|
    ensures Distinct(Drop(s, k)) && forall x :: x in Drop(s, k) <==> x in s && x != s[k]
  {
    var t := Drop(s, k);
    forall x | x in s && x != s[k] ensures x in t {
      var i :| 0 <= i < |s| && s[i] == x;
      assert t[if i < k then i else i - 1] == x;
    }
    forall x | x in t ensures x in s && x != s[k] {
      var i :| 0 <= i < |t| && t[i] == x;
    }
  }

  function IndexOf(s: seq<nat>, x: nat): (k: nat)
    requires x in s
    ensures k < |s| && s[k] == x
  {
    if s[0] == x then 0 else IndexOf(s[1..], x) + 1
  }

  /** The chain of an inode. */
  function Bucket(inode: nat): (h: nat)
    ensures h < HASH
  {
    inode % HASH
  }

  /** Chain h holds each entry of its bucket once, and nothing else. */
  ghost predicate ChainOk(files: map<nat, File>, c: seq<nat>, h: nat) {
    Distinct(c) && forall x :: x in c <==> x in files && Bucket(x) == h
  }

  ghost predicate Chained(files: map<nat, File>, chains: seq<seq<nat>>) {
    |chains| == HASH && forall h :: 0 <= h < HASH ==> ChainOk(files, chains[h], h)
  }

  /** The list holds the idle entries, except one that is about to join. */
  ghost predicate Listed(files: map<nat, File>, lru: seq<nat>, joining: set<nat>) {
    && Distinct(lru)
    && forall x :: x in lru <==> x in files && files[x].Idle() && x !in joining
  }

  ghost predicate Bounded(files: map<nat, File>) {
    forall x :: x in files ==> files[x].cnt < CNT_RANGE && files[x].age <= MAX_AGE
  }

  lemma Unchained(files: map<nat, File>, chains: seq<seq<nat>>, x: nat, k: nat)
    requires Chained(files, chains) && x in files
    requires k < |chains[Bucket(x)]| && chains[Bucket(x)][k] == x
    ensures Chained(files - {x}, chains[Bucket(x) := Drop(chains[Bucket(x)], k)])
  {
    var t, d := files - {x}, chains[Bucket(x) := Drop(chains[Bucket(x)], k)];
    DropLaw(chains[Bucket(x)], k);
    forall h | 0 <= h < HASH ensures ChainOk(t, d[h], h) {
      assert ChainOk(files, chains[h], h);
    }
  }

  lemma Prepended(files: map<nat, File>, chains: seq<seq<nat>>, x: nat, f: File)
    requires Chained(files, chains) && x !in files
    ensures Chained(files[x := f], chains[Bucket(x) := [x] + chains[Bucket(x)]])
  {
    var t, d := files[x := f], chains[Bucket(x) := [x] + chains[Bucket(x)]];
    forall h | 0 <= h < HASH ensures ChainOk(t, d[h], h) {
      assert ChainOk(files, chains[h], h);
      if h == Bucket(x) {
        PrependDistinct(x, chains[h]);
      }
    }
  }

  /** The first of the list is gone from list and table. */
  lemma Evicted(files: map<nat, File>, lru: seq<nat>, joining: set<nat>)
    requires Listed(files, lru, joining) && |lru| > 0
    ensures lru[0] in files && Listed(files - {lru[0]}, lru[1..], joining)
  {
    var x, rest := lru[0], lru[1..];
    assert x in lru;
    forall y ensures y in rest <==> y in files - {x} && files[y].Idle() && y !in joining {
      if y in rest {
        assert y in lru;
      } else if y in lru {
        var i :| 0 <= i < |lru| && lru[i] == y;
        assert i == 0;
      }
    }
  }

  lemma Unlisted(files: map<nat, File>, lru: seq<nat>, x: nat, k: nat, f: File)
    requires Listed(files, lru, {}) && k < |lru| && lru[k] == x && !f.Idle()
    ensures Listed(files[x := f], Drop(lru, k), {}) && Listed(files - {x}, Drop(lru, k), {})
  {
    DropLaw(lru, k);
  }

  lemma Joined(files: map<nat, File>, lru: seq<nat>, x: nat)
    requires Listed(files, lru, {x}) && x in files && files[x].Idle()
    ensures Listed(files, lru + [x], {})
  {
    assert x !in lru;
    var t := lru + [x];
    forall i, j | 0 <= i < j < |t| ensures t[i] != t[j] {
      assert t[i] == lru[i] && lru[i] in lru;
    }
  }

  /** An entry changes and stays as idle or busy as it is listed. */
  lemma Changed(files: map<nat, File>, chains: seq<seq<nat>>, lru: seq<nat>, x: nat, f: File)
    requires Chained(files, chains) && Listed(files, lru, {}) && x in files
    ensures Chained(files[x := f], chains)
    ensures f.Idle() == files[x].Idle() ==> Listed(files[x := f], lru, {})
    ensures f.Idle() && !files[x].Idle() ==> Listed(files[x := f], lru, {x})
  {
    forall h | 0 <= h < HASH ensures ChainOk(files[x := f], chains[h], h) {
      assert ChainOk(files, chains[h], h);
    }
  }

  function Elements(s: seq<nat>): set<nat> {
    set x | x in s
  }

  lemma NoneGone(files: map<nat, File>, lru: seq<nat>)
    ensures lru[0..] == lru && files - Elements(lru[..0]) == files
  {
    assert Elements(lru[..0]) == {};
  }

  /** One more element of the list is gone. */
  lemma OneMoreGone(files: map<nat, File>, lru: seq<nat>, g: nat)
    requires g < |lru|
    ensures files - Elements(lru[..g]) - {lru[g]} == files - Elements(lru[..g + 1])
    ensures lru[g..][0] == lru[g] && lru[g..][1..] == lru[g + 1..]
  {
    assert lru[..g + 1] == lru[..g] + [lru[g]];
    assert Elements(lru[..g + 1]) == Elements(lru[..g]) + {lru[g]};
  }

  // ----- The report of open inodes -----

  /** One more round without use is one too many. */
  predicate Expires(f: File) { f.Idle() && f.age + 1 > MAX_AGE }

  function Older(f: File): File { if f.Idle() then f.(age := f.age + 1) else f }

  /** The table after the entries in seen got older; those that were too old are gone. */
  function AgedBy(was: map<nat, File>, seen: set<nat>): map<nat, File> {
    map x | x in was && !(x in seen && Expires(was[x])) :: if x in seen then Older(was[x]) else was[x]
  }

  /** What has been seen: the chains below h, and k places of chain h. */
  ghost predicate Walked(files: map<nat, File>, chains: seq<seq<nat>>, h: nat, k: nat, seen: set<nat>)
    requires |chains| == HASH && h < HASH && k <= |chains[h]|
  {
    forall x :: x in files ==> (x in seen <==> Bucket(x) < h || (Bucket(x) == h && x in chains[h][..k]))
  }

  lemma AgedKeep(was: map<nat, File>, seen: set<nat>, x: nat)
    requires x in was && x !in seen && !Expires(was[x])
    ensures AgedBy(was, seen + {x}) == AgedBy(was, seen)[x := Older(was[x])]
  {
  }

  lemma AgedDrop(was: map<nat, File>, seen: set<nat>, x: nat)
    requires x in was && x !in seen && Expires(was[x])
    ensures AgedBy(was, seen + {x}) == AgedBy(was, seen) - {x}
  {
  }

  lemma AgedNone(was: map<nat, File>)
    ensures AgedBy(was, {}) == was
  {
  }

  /** The entries that were seen and are still there, as the heap holds them. */
  ghost predicate Heaped(files: map<nat, File>, seen: set<nat>, heap: multiset<nat>) {
    heap == multiset(set x | x in seen && x in files)
  }

  lemma HeapedMore(files: map<nat, File>, seen: set<nat>, heap: multiset<nat>, x: nat, f: File)
    requires Heaped(files, seen, heap) && x in files && x !in seen
    ensures Heaped(files[x := f], seen + {x}, heap + multiset{x})
    ensures Heaped(files - {x}, seen + {x}, heap)
  {
    var a := set y | y in seen && y in files;
    assert (set y | y in seen + {x} && y in files[x := f]) == a + {x};
    assert (set y | y in seen + {x} && y in files - {x}) == a;
  }

  lemma WalkedKeep(files: map<nat, File>, chains: seq<seq<nat>>, h: nat, k: nat, seen: set<nat>, f: File)
    requires Chained(files, chains) && h < HASH && k < |chains[h]| && Walked(files, chains, h, k, seen)
    ensures var x := chains[h][k];
            x in files && x !in seen && Walked(files[x := f], chains, h, k + 1, seen + {x})
  {
    var c := chains[h];
    var x := c[k];
    assert ChainOk(files, c, h) && x in c;
    assert c[..k + 1] == c[..k] + [x];
    assert x !in c[..k];
  }

  lemma WalkedDrop(files: map<nat, File>, chains: seq<seq<nat>>, h: nat, k: nat, seen: set<nat>)
    requires Chained(files, chains) && h < HASH && k < |chains[h]| && Walked(files, chains, h, k, seen)
    ensures var x := chains[h][k];
            Walked(files - {x}, chains[h := Drop(chains[h], k)], h, k, seen + {x})
  {
    assert Drop(chains[h], k)[..k] == chains[h][..k];
  }

  lemma WalkedNext(files: map<nat, File>, chains: seq<seq<nat>>, h: nat, seen: set<nat>)
    requires Chained(files, chains) && h < HASH && Walked(files, chains, h, |chains[h]|, seen)
    ensures h + 1 < HASH ==> Walked(files, chains, h + 1, 0, seen)
    ensures h + 1 == HASH ==> forall x :: x in files ==> x in seen
  {
    assert ChainOk(files, chains[h], h);
    assert chains[h][..|chains[h]|] == chains[h];
  }

  ghost predicate Ascending(s: seq<nat>) {
    forall i, j :: 0 <= i < j < |s| ==> s[i] < s[j]
  }

  class Table {
    var files: map<nat, File>
    var chains: seq<seq<nat>>
    var lru: seq<nat>
    var lruCnt: nat

    /** Sound, with some entries about to join the list. */
    ghost predicate Sound(joining: set<nat>)
      reads this
    {
      Chained(files, chains) && Listed(files, lru, joining) && Bounded(files) && lruCnt == |lru|
    }

    ghost predicate Valid()
      reads this
    {
      Sound({}) && lruCnt <= LIMIT + 1
    }

    constructor ()
      ensures Valid() && files == map[] && lru == []
    {
      files, chains, lru, lruCnt := map[], seq(HASH, _ => []), [], 0;
    }

    /** Frees the entry at the head of the list, found in place k of its chain. */
    method EvictHead(k: nat, ghost joining: set<nat>)
      requires Sound(joining) && |lru| > 0
      requires k < |chains[Bucket(lru[0])]| && chains[Bucket(lru[0])][k] == lru[0]
      modifies this
      ensures Sound(joining)
      ensures lru == old(lru)[1..] && files == old(files) - {old(lru[0])}
      ensures chains == old(var h := Bucket(lru[0]); chains[h := Drop(chains[h], k)])
    {
      var x := lru[0];
      Evicted(files, lru, joining);
      Unchained(files, chains, x, k);
      chains := chains[Bucket(x) := Drop(chains[Bucket(x)], k)];
      files := files - {x};
      lru := lru[1..];
      lruCnt := lruCnt - 1;
    }

    /** The loop in fs_af_add_to_lru along one chain; it may meet the next heads of the list as well. */
    method Evict(ghost joining: set<nat>) returns (ghost gone: nat)
      requires Sound(joining) && |lru| > 0
      modifies this
      ensures Sound(joining)
      ensures 0 < gone <= |old(lru)| && lru == old(lru)[gone..]
      ensures files == old(files) - Elements(old(lru)[..gone])
    {
      var h := Bucket(lru[0]);
      assert lru[0] in lru;
      ghost var place := IndexOf(chains[h], lru[0]);
      var k := 0;
      gone := 0;
      NoneGone(files, lru);
      while k < |chains[h]|
        invariant Sound(joining) && h < |chains|
        invariant 0 <= k <= |chains[h]| && gone <= |old(lru)| && lru == old(lru)[gone..]
        invariant files == old(files) - Elements(old(lru)[..gone])
        invariant gone == 0 ==> |lru| > 0 && k <= place < |chains[h]| && chains[h][place] == lru[0]
        decreases |chains[h]| - k
      {
        var x := chains[h][k];
        if |lru| > 0 && x == lru[0] {
          assert x in chains[h];
          OneMoreGone(old(files), old(lru), gone);
          EvictHead(k, joining);
          gone := gone + 1;
        } else {
          k := k + 1;
        }
      }
    }

    /** fs_af_add_to_lru, for an entry that has just become idle; the limit is kept. */
    method AddToLru(inode: nat) returns (ghost gone: nat)
      requires Sound({inode}) && lruCnt <= LIMIT + 1
      requires inode in files && files[inode].Idle()
      modifies this
      ensures Valid() && gone <= |old(lru)| && (gone > 0 <==> old(lruCnt) > LIMIT)
      ensures lru == old(lru)[gone..] + [inode]
      ensures files == old(files) - Elements(old(lru)[..gone])
    {
      gone := 0;
      NoneGone(files, lru);
      if lruCnt > LIMIT {
        gone := Evict({inode});
      }
      assert lruCnt <= LIMIT;
      Joined(files, lru, inode);
      lru := lru + [inode];
      lruCnt := lruCnt + 1;
    }
  
    /** The search along the chain of an inode. */
    method Lookup(inode: nat) returns (found: bool)
      requires Chained(files, chains)
      ensures found == (inode in files)
    {
      var c := chains[Bucket(inode)];
      var k := 0;
      while k < |c|
        invariant 0 <= k <= |c| && forall i :: 0 <= i < k ==> c[i] != inode
      {
        if c[k] == inode {
          assert inode in c;
          return true;
        }
        k := k + 1;
      }
      return false;
    }

    method Insert(inode: nat, f: File)
      requires Valid() && inode !in files && !f.Idle() && f.cnt < CNT_RANGE && f.age == 0
      modifies this`files, this`chains
      ensures Valid() && files == old(files)[inode := f]
    {
      Prepended(files, chains, inode, f);
      files := files[inode := f];
      chains := chains[Bucket(inode) := [inode] + chains[Bucket(inode)]];
    }

    /** An entry is in use: fs_af_remove_from_lru when it was on the list. */
    method SetBusy(inode: nat, f: File)
      requires Valid() && inode in files && !f.Idle() && f.cnt < CNT_RANGE && f.age == 0
      modifies this
      ensures Valid() && files == old(files)[inode := f]
    {
      Changed(files, chains, lru, inode, f);
      if inode in lru {
        var k := IndexOf(lru, inode);
        Unlisted(files, lru, inode, k, f);
        lru := Drop(lru, k);
        lruCnt := lruCnt - 1;
      }
      files := files[inode := f];
    }

    /** An entry is no longer in use: it joins the list unless it is on it. */
    method SetIdle(inode: nat, f: File) returns (ghost gone: nat)
      requires Valid() && inode in files && f.Idle() && f.age == 0
      modifies this
      ensures Valid() && gone <= |old(lru)|
      ensures inode in files && files == old(files)[inode := f] - Elements(old(lru)[..gone])
      ensures gone > 0 <==> inode !in old(lru) && old(lruCnt) > LIMIT
      ensures lru == if inode in old(lru) then old(lru) else old(lru)[gone..] + [inode]
    {
      Changed(files, chains, lru, inode, f);
      files := files[inode := f];
      gone := 0;
      NoneGone(files, lru);
      if inode !in lru {
        gone := AddToLru(inode);
      }
      assert inode in lru;
    }

    /** An entry with one reference less, which may make it idle. */
    method Settle(inode: nat, f: File) returns (ghost gone: nat)
      requires Valid() && inode in files && f.cnt < CNT_RANGE && f.age == 0
      modifies this
      ensures Valid() && gone <= |old(lru)|
      ensures inode in files && files == old(files)[inode := f] - Elements(old(lru)[..gone])
      ensures gone > 0 <==> f.Idle() && inode !in old(lru) && old(lruCnt) > LIMIT
    {
      if f.Idle() {
        gone := SetIdle(inode, f);
      } else {
        gone := 0;
        NoneGone(files[inode := f], lru);
        SetBusy(inode, f);
      }
    }

    /** fs_add_entry. */
    method AddEntry(inode: nat)
      requires Valid()
      modifies this
      ensures Valid()
      ensures files == old(files)[inode := File(if inode in old(files) then old(files)[inode].cnt else 0, true, 0)]
    {
      var found := Lookup(inode);
      if found {
        SetBusy(inode, files[inode].(dentry := true, age := 0));
      } else {
        Insert(inode, File(0, true, 0));
      }
    }

    /** fs_forget_entry. */
    method ForgetEntry(inode: nat) returns (ghost gone: nat)
      requires Valid()
      modifies this
      ensures Valid() && gone <= |old(lru)|
      ensures inode !in old(files) ==> files == old(files) && lru == old(lru)
      ensures inode in old(files) ==>
                files == old(files)[inode := old(files)[inode].(dentry := false, age := 0)] - Elements(old(lru)[..gone])
      ensures gone > 0 ==> old(lruCnt) > LIMIT && inode in files && files[inode].Idle()
    {
      gone := 0;
      NoneGone(files, lru);
      var found := Lookup(inode);
      if found {
        gone := Settle(inode, files[inode].(dentry := false, age := 0));
      }
    }

    /** fs_isopen. */
    method IsOpen(inode: nat) returns (open: bool)
      requires Valid()
      ensures open == (inode in files && inode !in lru)
    {
      var found := Lookup(inode);
      open := found && (files[inode].dentry || files[inode].cnt > 0);
    }

    /** fs_dec_acnt. */
    method DecAcnt(inode: nat) returns (ghost gone: nat)
      requires Valid()
      modifies this
      ensures Valid() && gone <= |old(lru)|
      ensures inode !in old(files) ==> files == old(files) && lru == old(lru)
      ensures inode in old(files) ==>
                var f := old(files)[inode];
                files == old(files)[inode := f.(cnt := if f.cnt > 0 then f.cnt - 1 else 0, age := 0)] - Elements(old(lru)[..gone])
      ensures gone > 0 ==> old(lruCnt) > LIMIT && inode in files && files[inode].Idle()
    {
      gone := 0;
      NoneGone(files, lru);
      var found := Lookup(inode);
      if found {
        var f := files[inode];
        gone := Settle(inode, f.(cnt := if f.cnt > 0 then f.cnt - 1 else 0, age := 0));
      }
    }

    /**
     fs_inc_acnt. The counter has 16 bits: when it wraps on an entry without the dentry flag, the entry
     looks idle and is not on the list, and in no other case is the table left unsound.
     */
    method IncAcnt(inode: nat)
      requires Valid()
      modifies this
      ensures files == old(files)[inode := if inode in old(files)
                then old(files)[inode].(cnt := (old(files)[inode].cnt + 1) % CNT_RANGE, age := 0) else File(1, false, 0)]
      ensures Valid() <==> !(inode in old(files) && old(files)[inode].cnt == CNT_RANGE - 1 && !old(files)[inode].dentry)
      ensures !Valid() ==> Sound({inode}) && inode !in lru && files[inode].Idle()
    {
      var found := Lookup(inode);
      if found {
        var f := files[inode];
        f := f.(cnt := (f.cnt + 1) % CNT_RANGE, age := 0);
        if f.Idle() {
          Changed(files, chains, lru, inode, f);
          files := files[inode := f];
          assert inode !in lru;
        } else {
          SetBusy(inode, f);
        }
      } else {
        Insert(inode, File(1, false, 0));
      }
    }
  
    /** fs_af_remove_from_lru and the removal from the chain, for an entry that is too old. */
    method Expire(x: nat, k: nat)
      requires Valid() && x in files && files[x].Idle()
      requires k < |chains[Bucket(x)]| && chains[Bucket(x)][k] == x
      modifies this
      ensures Valid() && files == old(files) - {x}
      ensures chains == old(chains[Bucket(x) := Drop(chains[Bucket(x)], k)])
    {
      Unchained(files, chains, x, k);
      var i := IndexOf(lru, x);
      Unlisted(files, lru, x, i, File(1, false, 0));
      chains := chains[Bucket(x) := Drop(chains[Bucket(x)], k)];
      lru := Drop(lru, i);
      lruCnt := lruCnt - 1;
      files := files - {x};
    }

    /** An entry that stays gets older, if it is idle. */
    method Keep(x: nat)
      requires Valid() && x in files && !Expires(files[x])
      modifies this`files
      ensures Valid() && files == old(files)[x := Older(old(files)[x])]
    {
      Changed(files, chains, lru, x, Older(files[x]));
      files := files[x := Older(files[x])];
    }

    /** Where the walk is, and what it has done. */
    ghost predicate Walking(heap: Heap, was: map<nat, File>, seen: set<nat>, h: nat, k: nat)
      reads this, heap, heap.heap
    {
      && Valid() && heap.Valid() && h < HASH && k <= |chains[h]|
      && files == AgedBy(was, seen) && seen <= was.Keys
      && Walked(files, chains, h, k, seen) && Heaped(files, seen, multiset(heap.Contents()))
    }

    /** One entry of a chain. */
    method Visit(heap: Heap, ghost was: map<nat, File>, ghost seen: set<nat>, h: nat, k: nat) returns (k': nat, ghost seen': set<nat>)
      requires Walking(heap, was, seen, h, k) && k < |chains[h]|
      modifies this, heap, heap.heap
      ensures Walking(heap, was, seen', h, k') && seen' == seen + {old(chains[h][k])}
      ensures |chains[h]| - k' < old(|chains[h]|) - k
      ensures heap.heap == old(heap.heap) || fresh(heap.heap)
    {
      var x := chains[h][k];
      assert ChainOk(files, chains[h], h) && x in chains[h];
      WalkedKeep(files, chains, h, k, seen, Older(files[x]));
      HeapedMore(files, seen, multiset(heap.Contents()), x, Older(files[x]));
      seen' := seen + {x};
      k' := k;
      if Expires(files[x]) {
        WalkedDrop(files, chains, h, k, seen);
        AgedDrop(was, seen, x);
        Expire(x, k);
      } else {
        AgedKeep(was, seen, x);
        Keep(x);
        heap.Push(x);
        k' := k + 1;
      }
    }
  
    /** All chains. */
    method Walk(heap: Heap) returns (ghost seen: set<nat>)
      requires Valid() && heap.Valid() && heap.Contents() == []
      modifies this, heap, heap.heap
      ensures Valid() && heap.Valid()
      ensures files == AgedBy(old(files), old(files).Keys) && multiset(heap.Contents()) == multiset(files.Keys)
      ensures heap.heap == old(heap.heap) || fresh(heap.heap)
    {
      ghost var was := files;
      AgedNone(was);
      seen := {};
      var h := 0;
      assert Heaped(files, seen, multiset(heap.Contents()));
      while h < HASH
        invariant 0 <= h <= HASH && seen <= was.Keys
        invariant h < HASH ==> Walking(heap, was, seen, h, 0)
        invariant h == HASH ==> Valid() && heap.Valid() && files == AgedBy(was, seen) && Heaped(files, seen, multiset(heap.Contents()))
        invariant h == HASH ==> forall x :: x in files ==> x in seen
        invariant heap.heap == old(heap.heap) || fresh(heap.heap)
      {
        var k: nat := 0;
        while k < |chains[h]|
          invariant Walking(heap, was, seen, h, k)
          invariant heap.heap == old(heap.heap) || fresh(heap.heap)
          decreases |chains[h]| - k
        {
          k, seen := Visit(heap, was, seen, h, k);
        }
        WalkedNext(files, chains, h, seen);
        h := h + 1;
      }
      AllSeen(was, seen, files);
      assert (set x | x in seen && x in files) == files.Keys;
    }

    /** fs_send_open_inodes: the body of its packet. */
    method SendOpenInodes(heap: Heap) returns (packet: seq<nat>)
      requires Valid() && heap.Valid()
      modifies this, heap, heap.heap
      ensures Valid() && heap.Valid()
      ensures files == AgedBy(old(files), old(files).Keys)
      ensures Ascending(packet) && Elements(packet) == files.Keys
      ensures heap.heap == old(heap.heap) || fresh(heap.heap)
    {
      heap.Cleanup();
      ghost var seen := Walk(heap);
      packet := PopAll(heap, files.Keys);
    }
  }

  lemma AllSeen(was: map<nat, File>, seen: set<nat>, files: map<nat, File>)
    requires files == AgedBy(was, seen) && forall x :: x in files ==> x in seen
    ensures files == AgedBy(was, was.Keys)
  {
    forall x | x in was ensures x in seen {
      assert x in seen || x in AgedBy(was, seen);
    }
  }

  /** One more element, less than all that are left and greater than all before. */
  lemma Popped(s: set<nat>, packet: seq<nat>, was: multiset<nat>, left: multiset<nat>, e: nat)
    requires was + multiset(packet) == multiset(s) && was == left + multiset{e}
    requires forall x :: x in was ==> e <= x
    requires Ascending(packet) && forall i, x :: 0 <= i < |packet| && x in was ==> packet[i] < x
    ensures Ascending(packet + [e]) && left + multiset(packet + [e]) == multiset(s)
    ensures forall i, x :: 0 <= i < |packet + [e]| && x in left ==> (packet + [e])[i] < x
  {
    assert multiset(s)[e] == was[e] + multiset(packet)[e];
    assert was[e] == left[e] + 1;
    assert left[e] == 0;
    forall x | x in left ensures e < x {
      assert x in was;
    }
  }

  /** Some of a set popped in ascending order, the rest still in the heap. */
  ghost predicate Sorting(heap: multiset<nat>, packet: seq<nat>, s: set<nat>) {
    && heap + multiset(packet) == multiset(s) && Ascending(packet)
    && forall i, x :: 0 <= i < |packet| && x in heap ==> packet[i] < x
  }

  method PopOne(heap: Heap, packet: seq<nat>, ghost s: set<nat>) returns (packet': seq<nat>)
    requires heap.Valid() && heap.elements > 0 && Sorting(multiset(heap.Contents()), packet, s)
    modifies heap`elements, heap.heap
    ensures heap.Valid() && Sorting(multiset(heap.Contents()), packet', s) && heap.elements == old(heap.elements) - 1
  {
    ghost var c := heap.Contents();
    var e := heap.Pop();
    ghost var d := heap.Contents();
    assert |multiset(c)| == |multiset(d)| + 1;
    forall x | x in multiset(c) ensures e <= x {
      assert x in c;
    }
    Popped(s, packet, multiset(c), multiset(d), e);
    packet' := packet + [e];
  }

  /** Popping everything sorts a set. */
  method PopAll(heap: Heap, ghost s: set<nat>) returns (packet: seq<nat>)
    requires heap.Valid() && multiset(heap.Contents()) == multiset(s)
    modifies heap`elements, heap.heap
    ensures heap.Valid() && Ascending(packet) && Elements(packet) == s
  {
    packet := [];
    while heap.elements > 0
      invariant heap.Valid() && Sorting(multiset(heap.Contents()), packet, s)
      decreases heap.elements
    {
      packet := PopOne(heap, packet, s);
    }
    assert heap.Contents() == [];
    SameElements(packet, s);
  }

  lemma SameElements(packet: seq<nat>, s: set<nat>)
    requires multiset(packet) == multiset(s)
    ensures Elements(packet) == s
  {
    forall x ensures x in Elements(packet) <==> x in s {
      assert x in packet <==> x in multiset(packet);
    }
  }

  /** A file opened 65536 times at once looks closed, and is not on the list. */
  method OpenTooOften(inode: nat) returns (t: Table)
    ensures inode in t.files && t.files[inode].Idle() && inode !in t.lru && !t.Valid()
  {
    t := new Table();
    var n := 0;
    while n < CNT_RANGE
      invariant 0 <= n <= CNT_RANGE && fresh(t)
      invariant n < CNT_RANGE ==> t.Valid() && t.files == if n == 0 then map[] else map[inode := File(n, false, 0)]
      invariant n == CNT_RANGE ==> t.files == map[inode := File(0, false, 0)] && inode !in t.lru && !t.Valid()
    {
      t.IncAcnt(inode);
      n := n + 1;
    }
  }

  // ----- One report after another -----

  /** The table after n reports. */
  function Aged(was: map<nat, File>, n: nat): map<nat, File> {
    if n == 0 then was else var t := Aged(was, n - 1); AgedBy(t, t.Keys)
  }

  /** Whether an entry is listed in the n-th report from now, if nobody uses it. */
  predicate StillListed(f: File, n: nat) {
    f.cnt > 0 || f.dentry || f.age + n <= MAX_AGE
  }

  /** What an entry is after n reports. */
  function After(f: File, n: nat): File {
    File(f.cnt, f.dentry, if f.cnt > 0 || f.dentry then f.age else f.age + n)
  }

  lemma {:induction false} AgedExactly(was: map<nat, File>, n: nat, x: nat)
    requires x in was ==> was[x].age <= MAX_AGE
    ensures x in Aged(was, n) <==> x in was && StillListed(was[x], n)
    ensures x in Aged(was, n) ==> Aged(was, n)[x] == After(was[x], n)
    decreases n
  {
    if n > 0 {
      AgedExactly(was, n - 1, x);
    }
  }

  /**
   Reports one after another: an entry in use is in all of them and stays as it is; an idle one is in
   them until it is older than allowed, and in none after that.
   */
  method SendReports(t: Table, heap: Heap, n: nat) returns (packets: seq<seq<nat>>)
    requires t.Valid() && heap.Valid()
    modifies t, heap, heap.heap
    ensures t.Valid() && heap.Valid() && |packets| == n
    ensures forall i :: 0 <= i < n ==> Ascending(packets[i])
    ensures forall i, x: nat :: 0 <= i < n ==> (x in packets[i] <==> x in old(t.files) && StillListed(old(t.files)[x], i + 1))
    ensures forall x: nat :: x in t.files ==> x in old(t.files) && t.files[x] == After(old(t.files)[x], n)
  {
    packets := [];
    ghost var was := t.files;
    var i := 0;
    while i < n
      invariant 0 <= i <= n && |packets| == i
      invariant t.Valid() && heap.Valid() && t.files == Aged(was, i)
      invariant heap.heap == old(heap.heap) || fresh(heap.heap)
      invariant forall k :: 0 <= k < i ==> Ascending(packets[k]) && Elements(packets[k]) == Aged(was, k + 1).Keys
    {
      var packet := t.SendOpenInodes(heap);
      packets := packets + [packet];
      i := i + 1;
    }
    forall x: nat, k | 0 <= k <= n
      ensures x in Aged(was, k) <==> x in was && StillListed(was[x], k)
      ensures x in Aged(was, k) ==> Aged(was, k)[x] == After(was[x], k)
    {
      AgedExactly(was, k, x);
    }
    forall k, x: nat | 0 <= k < n ensures x in packets[k] <==> x in was && StillListed(was[x], k + 1) {
      assert x in packets[k] <==> x in Elements(packets[k]);
    }
  }
}
