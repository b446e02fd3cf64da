/** The array heap of block groups, most free blocks at the root (userfs/userfs_heap.c). */
module MaxHeap {
  import opened Common

  /** struct block_group_descriptors_index */
  datatype Entry = Entry(nr: nat, free: nat)

  function Parent(k: nat): (p: nat)
    requires k > 0
    ensures p < k
  {
    (k - 1) / 2
  }

  /** The entry at `k` is no larger than its parent. */
  predicate Below(s: seq<Entry>, k: nat)
    requires 0 < k < |s|
  {
    s[k].free <= s[Parent(k)].free
  }

  predicate Ordered(s: seq<Entry>) {
    forall k :: 0 < k < |s| ==> Below(s, k)
  }

  /** Ordered but for `i`, which may exceed its parent; what hangs below `i` fits under that parent. */
  predicate OrderedButUp(s: seq<Entry>, i: nat) {
    && i < |s|
    && (forall k :: 0 < k < |s| && k != i ==> Below(s, k))
    && (forall k :: 0 < k < |s| && Parent(k) == i && i > 0 ==> s[k].free <= s[Parent(i)].free)
  }

  /** Ordered but for `i`, which may be smaller than its children; those fit under the parent of `i`. */
  predicate OrderedButDown(s: seq<Entry>, i: nat) {
    && (forall k :: 0 < k < |s| && Parent(k) != i ==> Below(s, k))
    && (forall k :: 0 < k < |s| && Parent(k) == i && 0 < i < |s| ==> s[k].free <= s[Parent(i)].free)
  }

  function Swapped(s: seq<Entry>, i: nat, j: nat): (s': seq<Entry>)
    requires i < |s| && j < |s|
    ensures multiset(s') == multiset(s) && |s'| == |s|
  {
    s[i := s[j]][j := s[i]]
  }

  lemma SwapUp(s: seq<Entry>, i: nat)
    requires 0 < i && OrderedButUp(s, i) && !Below(s, i)
    ensures OrderedButUp(Swapped(s, Parent(i), i), Parent(i))
  {
    var p := Parent(i);
    var s' := Swapped(s, p, i);
    forall k | 0 < k < |s'| && k != p ensures Below(s', k) {
      assert k != i ==> Below(s, k);
    }
    forall k | 0 < k < |s'| && Parent(k) == p && p > 0 ensures s'[k].free <= s'[Parent(p)].free {
      assert Below(s, p);
      assert k != i ==> Below(s, k);
    }
  }

  lemma SwapDown(s: seq<Entry>, i: nat, c: nat)
    requires OrderedButDown(s, i) && 0 < c < |s| && Parent(c) == i && s[i].free < s[c].free
    requires forall k :: 0 < k < |s| && Parent(k) == i ==> s[k].free <= s[c].free
    ensures OrderedButDown(Swapped(s, c, i), c)
  {
    var s' := Swapped(s, c, i);
    forall k | 0 < k < |s'| && Parent(k) != c ensures Below(s', k) {
      assert Parent(k) != i ==> Below(s, k);
    }
    forall k | 0 < k < |s'| && Parent(k) == c ensures s'[k].free <= s'[Parent(c)].free {
      assert Below(s, k);
    }
  }

  lemma SettledUp(s: seq<Entry>, i: nat)
    requires OrderedButUp(s, i) && (i == 0 || Below(s, i))
    ensures Ordered(s)
  {
  }

  lemma SettledDown(s: seq<Entry>, i: nat)
    requires OrderedButDown(s, i) && forall k :: 0 < k < |s| && Parent(k) == i ==> Below(s, k)
    ensures Ordered(s)
  {
  }

  /** The root is maximal. */
  lemma {:induction false} RootIsMax(s: seq<Entry>, k: nat)
    requires Ordered(s) && k < |s|
    ensures s[k].free <= s[0].free
  {
    if k > 0 {
      assert Below(s, k);
      RootIsMax(s, Parent(k));
    }
  }

  /** The last entry moved to the root. */
  function RootReplaced(s: seq<Entry>): (s': seq<Entry>)
    requires |s| > 0
  {
    var m := |s| - 1;
    if m == 0 then [] else s[..m][0 := s[m]]
  }

  /** That disturbs the order at the root only, and removes the old root. */
  lemma ReplaceRoot(s: seq<Entry>)
    requires Ordered(s) && |s| > 0
    ensures OrderedButDown(RootReplaced(s), 0)
    ensures multiset(RootReplaced(s)) == multiset(s) - multiset{s[0]}
  {
    var m := |s| - 1;
    var s' := RootReplaced(s);
    forall k | 0 < k < |s'| && Parent(k) != 0 ensures Below(s', k) {
      assert Below(s, k);
    }
    assert s == s[..m] + [s[m]];
  }

  lemma AppendLast(s: seq<Entry>, e: Entry)
    requires Ordered(s)
    ensures OrderedButUp(s + [e], |s|) && multiset(s + [e]) == multiset(s) + multiset{e}
  {
    forall k | 0 < k < |s| ensures Below(s + [e], k) {
      assert Below(s, k);
    }
  }

  /** Every entry of an ordered heap is at most its root. */
  lemma RootBounds(s: seq<Entry>)
    requires Ordered(s) && |s| > 0
    ensures s[0] in multiset(s) && forall x :: x in multiset(s) ==> x.free <= s[0].free
  {
    forall x: Entry | x in multiset(s) ensures x.free <= s[0].free {
      assert x in s;
      var k :| 0 <= k < |s| && s[k] == x;
      RootIsMax(s, k);
    }
  }

  class Heap {
    const heap: array<Entry>
    var size: nat

    ghost var contents: multiset<Entry>

    ghost predicate Valid()
      reads this, heap
    {
      size <= heap.Length && Ordered(heap[..size]) && contents == multiset(heap[..size])
    }

    /** userfs_mrheap_create */
    constructor (capacity: nat)
      ensures Valid() && contents == multiset{} && heap.Length == capacity && fresh(heap)
    {
      heap := new Entry[capacity](_ => Entry(0, 0));
      size := 0;
      contents := multiset{};
    }

    method Swap(i: nat, j: nat, ghost n: nat)
      requires i < n && j < n && n <= heap.Length
      modifies heap
      ensures heap[..n] == Swapped(old(heap[..n]), i, j) && heap[n..] == old(heap[n..])
    {
      heap[i], heap[j] := heap[j], heap[i];
    }

    /** heap_up over the first `n` entries */
    method HeapUp(index: nat, ghost n: nat)
      requires n <= heap.Length && OrderedButUp(heap[..n], index)
      modifies heap
      ensures Ordered(heap[..n]) && multiset(heap[..n]) == old(multiset(heap[..n])) && heap[n..] == old(heap[n..])
    {
      var i: nat := index;
      while i > 0 && heap[(i - 1) / 2].free < heap[i].free
        invariant OrderedButUp(heap[..n], i)
        invariant multiset(heap[..n]) == old(multiset(heap[..n])) && heap[n..] == old(heap[n..])
        decreases i
      {
        SwapUp(heap[..n], i);
        Swap((i - 1) / 2, i, n);
        i := (i - 1) / 2;
      }
      SettledUp(heap[..n], i);
    }

    /** The larger child of `index`, when one exceeds it. */
    method Largest(index: nat) returns (c: nat)
      requires size <= heap.Length
      ensures c == index ==> forall k :: 0 < k < size && Parent(k) == index ==> Below(heap[..size], k)
      ensures c != index ==>
        && 0 < c < size && Parent(c) == index && heap[index].free < heap[c].free
        && forall k :: 0 < k < size && Parent(k) == index ==> heap[..size][k].free <= heap[c].free
    {
      c := index;
      var left, right := 2 * index + 1, 2 * index + 2;
      if left < size && heap[c].free < heap[left].free {
        c := left;
      }
      if right < size && heap[c].free < heap[right].free {
        c := right;
      }
      assert forall k :: 0 < k < size && Parent(k) == index ==> k == left || k == right;
    }

    /** heap_down, over the first `size` entries */
    method HeapDown(index: nat)
      requires size <= heap.Length && OrderedButDown(heap[..size], index)
      modifies heap
      ensures Ordered(heap[..size]) && multiset(heap[..size]) == old(multiset(heap[..size]))
      decreases size - index
    {
      var c := Largest(index);
      if c != index {
        SwapDown(heap[..size], index, c);
        Swap(c, index, size);
        HeapDown(c);
      } else {
        SettledDown(heap[..size], index);
      }
    }

    method MoveLastToRoot()
      requires 0 < size <= heap.Length
      modifies this`size, heap
      ensures size == old(size) - 1 && heap[..size] == RootReplaced(old(heap[..size]))
    {
      heap[0] := heap[size - 1];
      size := size - 1;
    }

    /** userfs_mrheap_insert */
    method Insert(nr: nat, free: nat) returns (ok: bool)
      requires Valid()
      modifies this, heap
      ensures Valid() && ok == (old(size) < heap.Length) && size == if ok then old(size) + 1 else old(size)
      ensures contents == if ok then old(contents) + multiset{Entry(nr, free)} else old(contents)
    {
      if size == heap.Length {
        return false;
      }
      ghost var was := heap[..size];
      AppendLast(was, Entry(nr, free));
      heap[size] := Entry(nr, free);
      assert heap[..size + 1] == was + [Entry(nr, free)];
      HeapUp(size, size + 1);
      assert multiset(heap[..size + 1]) == multiset(was) + multiset{Entry(nr, free)};
      size := size + 1;
      contents := contents + multiset{Entry(nr, free)};
      ok := true;
    }

    /** userfs_mrheap_get_heaptop */
    method Top() returns (e: Option<Entry>)
      requires Valid()
      ensures e == if size == 0 then None else Some(heap[0])
      ensures e.Some? ==> e.value in contents && forall x :: x in contents ==> x.free <= e.value.free
      ensures e.None? ==> contents == multiset{}
    {
      if size == 0 {
        return None;
      }
      RootBounds(heap[..size]);
      e := Some(heap[0]);
    }

    /** userfs_mrheap_extract_heaptop: takes an entry with the most free blocks out. */
    method Extract() returns (e: Option<Entry>)
      requires Valid()
      modifies this, heap
      ensures Valid()
      ensures e == if old(size) == 0 then None else Some(old(heap[0]))
      ensures e.None? ==> contents == old(contents) == multiset{} && size == 0
      ensures e.Some? ==> contents == old(contents) - multiset{e.value} && size == old(size) - 1
      ensures e.Some? ==> e.value in old(contents) && forall x :: x in old(contents) ==> x.free <= e.value.free
    {
      e := Top();
      if e.None? {
        return;
      }
      ReplaceRoot(heap[..size]);
      MoveLastToRoot();
      HeapDown(0);
      contents := contents - multiset{e.value};
    }

    /** Extraction of the root followed by its insertion with one free block fewer, as an allocation does. */
    method LowerRoot()
      requires Valid() && size > 0 && heap[0].free > 0
      modifies this, heap
      ensures Valid()
      ensures var e := old(heap[0]); contents == old(contents) - multiset{e} + multiset{Entry(e.nr, e.free - 1)}
    {
      var top := Extract();
      var ok := Insert(top.value.nr, top.value.free - 1);
    }
  }
}
