/** The heap of heapsorter.c: an array in which every element is at least its parent. */
module HeapSorter {
  const FIRST_SIZE: nat := 1024

  function Parent(i: nat): nat
    requires i > 0
  {
    (i - 1) / 2
  }

  /** No element is less than its parent. */
  ghost predicate Ordered(s: seq<nat>) {
    forall i :: 0 < i < |s| ==> s[Parent(i)] <= s[i]
  }

  /** Ordered, but for the element at pos and its parent. */
  ghost predicate OrderedBut(s: seq<nat>, pos: nat) {
    && pos < |s|
    && (forall i :: 0 < i < |s| && i != pos ==> s[Parent(i)] <= s[i])
    && (pos > 0 ==> forall i :: 0 < i < |s| && Parent(i) == pos ==> s[Parent(pos)] <= s[i])
  }

  /** Ordered, but for the element at pos and its children. */
  ghost predicate OrderedAbove(s: seq<nat>, pos: nat) {
    && pos < |s|
    && (forall i :: 0 < i < |s| && Parent(i) != pos ==> s[Parent(i)] <= s[i])
    && (pos > 0 ==> forall i :: 0 < i < |s| && Parent(i) == pos ==> s[Parent(pos)] <= s[i])
  }

  function Swapped(s: seq<nat>, i: nat, j: nat): (t: seq<nat>)
    requires i < |s| && j < |s|
    ensures |t| == |s| && multiset(t) == multiset(s)
  {
    s[i := s[j]][j := s[i]]
  }

  lemma Rise(s: seq<nat>, pos: nat)
    requires OrderedBut(s, pos) && pos > 0 && s[pos] < s[Parent(pos)]
    ensures OrderedBut(Swapped(s, pos, Parent(pos)), Parent(pos))
  {
  }

  /** The smaller of the children of pos, if there are any. */
  lemma Sink(s: seq<nat>, pos: nat, m: nat)
    requires OrderedAbove(s, pos) && LeastChild(s, pos, m) && s[m] < s[pos]
    ensures OrderedAbove(Swapped(s, pos, m), m)
  {
    var t := Swapped(s, pos, m);
    assert Parent(m) == pos;
    forall i | 0 < i < |t| && Parent(i) != m ensures t[Parent(i)] <= t[i] {
      if Parent(i) == pos {
      } else if i == pos {
        assert s[Parent(pos)] <= s[m];
      }
    }
  }

  lemma {:induction false} LeastFirst(s: seq<nat>, i: nat)
    requires Ordered(s) && i < |s|
    ensures s[0] <= s[i]
  {
    if i > 0 {
      LeastFirst(s, Parent(i));
    }
  }

  lemma Risen(s: seq<nat>, pos: nat)
    requires OrderedBut(s, pos) && (pos > 0 ==> s[pos] >= s[Parent(pos)])
    ensures Ordered(s)
  {
  }

  lemma Sunk(s: seq<nat>, pos: nat, m: nat)
    requires OrderedAbove(s, pos)
    requires 2 * pos + 1 >= |s| || (m < |s| && s[pos] <= s[m] && LeastChild(s, pos, m))
    ensures Ordered(s)
  {
  }

  ghost predicate LeastChild(s: seq<nat>, pos: nat, m: nat) {
    && m < |s| && 2 * pos + 1 <= m <= 2 * pos + 2
    && forall i :: 0 < i < |s| && Parent(i) == pos ==> s[m] <= s[i]
  }

  lemma ChildIsLeast(s: seq<nat>, pos: nat, m: nat)
    requires m < |s| && 2 * pos + 1 < |s|
    requires m == if 2 * pos + 2 < |s| && s[2 * pos + 2] < s[2 * pos + 1] then 2 * pos + 2 else 2 * pos + 1
    ensures LeastChild(s, pos, m)
  {
  }

  /** heap_sort_up. */
  method SortUp(heap: array<nat>, elements: nat)
    requires 0 < elements <= heap.Length && OrderedBut(heap[..elements], elements - 1)
    modifies heap
    ensures Ordered(heap[..elements]) && multiset(heap[..elements]) == multiset(old(heap[..elements]))
  {
    ghost var s := heap[..elements];
    var pos := elements - 1;
    while pos > 0
      invariant 0 <= pos < elements && heap[..elements] == s && OrderedBut(s, pos)
      invariant multiset(s) == multiset(old(heap[..elements]))
    {
      var p := Parent(pos);
      if heap[pos] >= heap[p] {
        Risen(s, pos);
        return;
      }
      Rise(s, pos);
      heap[pos], heap[p] := heap[p], heap[pos];
      s := Swapped(s, pos, p);
      pos := p;
    }
    Risen(s, pos);
  }

  /** The smaller of two children, or the only one. */
  method SmallerChild(heap: array<nat>, elements: nat, pos: nat) returns (m: nat)
    requires 2 * pos + 1 < elements <= heap.Length
    ensures LeastChild(heap[..elements], pos, m)
  {
    var l := pos * 2 + 1;
    var r := l + 1;
    m := l;
    if r < elements && heap[r] < heap[l] {
      m := r;
    }
    ChildIsLeast(heap[..elements], pos, m);
  }

  /** heap_sort_down. */
  method SortDown(heap: array<nat>, elements: nat)
    requires 0 < elements <= heap.Length && OrderedAbove(heap[..elements], 0)
    modifies heap
    ensures Ordered(heap[..elements]) && multiset(heap[..elements]) == multiset(old(heap[..elements]))
  {
    ghost var s := heap[..elements];
    var pos := 0;
    while true
      invariant 0 <= pos < elements && heap[..elements] == s && OrderedAbove(s, pos)
      invariant multiset(s) == multiset(old(heap[..elements]))
      decreases elements - pos
    {
      if pos * 2 + 1 >= elements {
        Sunk(s, pos, 0);
        return;
      }
      var m := SmallerChild(heap, elements, pos);
      if heap[pos] <= heap[m] {
        Sunk(s, pos, m);
        return;
      }
      Sink(s, pos, m);
      heap[pos], heap[m] := heap[m], heap[pos];
      s := Swapped(s, pos, m);
      pos := m;
    }
  }

  class Heap {
    var heap: array<nat>
    var elements: nat

    ghost function Contents(): seq<nat>
      reads this, heap
      requires elements <= heap.Length
    {
      heap[..elements]
    }

    ghost predicate Valid()
      reads this, heap
    {
      elements <= heap.Length && Ordered(Contents())
    }

    constructor ()
      ensures Valid() && Contents() == [] && fresh(heap)
    {
      heap := new nat[0];
      elements := 0;
    }

    /** heap_cleanup. */
    method Cleanup()
      requires Valid()
      modifies this`elements
      ensures Valid() && Contents() == []
    {
      elements := 0;
    }

    /** heap_push. */
    method Push(element: nat)
      requires Valid()
      modifies this, heap
      ensures Valid() && multiset(Contents()) == multiset(old(Contents())) + multiset{element}
      ensures heap == old(heap) || fresh(heap)
    {
      ghost var s := Contents();
      if elements >= heap.Length {
        Grow();
      }
      heap[elements] := element;
      elements := elements + 1;
      assert Contents() == s + [element];
      SortUp(heap, elements);
    }

    method Grow()
      requires Valid() && elements == heap.Length
      modifies this`heap
      ensures elements < heap.Length && Contents() == old(Contents()) && fresh(heap)
    {
      var size := if heap.Length == 0 then FIRST_SIZE else heap.Length * 2;
      var bigger := new nat[size];
      var i := 0;
      while i < elements
        invariant 0 <= i <= elements && heap == old(heap) && bigger[..i] == heap[..i]
      {
        bigger[i] := heap[i];
        i := i + 1;
      }
      heap := bigger;
      assert Contents() == bigger[..i];
    }

    /** heap_pop: the least element, or 0 when there is none. */
    method Pop() returns (element: nat)
      requires Valid()
      modifies this`elements, heap
      ensures Valid()
      ensures old(elements) == 0 ==> element == 0 && Contents() == old(Contents())
      ensures old(elements) > 0 ==>
                && multiset(old(Contents())) == multiset(Contents()) + multiset{element}
                && forall x :: x in old(Contents()) ==> element <= x
    {
      if elements == 0 {
        return 0;
      }
      ghost var s := Contents();
      LeastOfAll(s);
      element := heap[0];
      elements := elements - 1;
      TakeFirst(s);
      if elements > 0 {
        heap[0] := heap[elements];
        assert Contents() == s[..elements][0 := s[elements]];
        SortDown(heap, elements);
      }
    }
  }

  lemma LeastOfAll(s: seq<nat>)
    requires Ordered(s) && |s| > 0
    ensures forall x :: x in s ==> s[0] <= x
  {
    forall x | x in s ensures s[0] <= x {
      var i :| 0 <= i < |s| && s[i] == x;
      LeastFirst(s, i);
    }
  }

  /** The last element in place of the first. */
  lemma TakeFirst(s: seq<nat>)
    requires |s| > 0 && Ordered(s)
    ensures var n := |s| - 1;
            && (n == 0 ==> multiset(s) == multiset(s[..n]) + multiset{s[0]})
            && (n > 0 ==> var t := s[..n][0 := s[n]]; multiset(s) == multiset(t) + multiset{s[0]} && OrderedAbove(t, 0))
  {
    var n := |s| - 1;
    assert s == s[..n] + [s[n]];
    if n > 0 {
      var u := s[..n];
      var t := u[0 := s[n]];
      assert u == [s[0]] + u[1..];
      assert t == [s[n]] + u[1..];
    }
  }
}
