/**
 * The array-backed binary min-heap of `[priority, stop]` pairs used by the
 * route search (lib/dijkstra.ts). The JS array `heap` is a `seq` field that
 * every operation reassigns; parent of slot `i` is slot `(i - 1) / 2`.
 */
module PriorityQueue {
  import opened Options
  import opened TransitGraph

  /** One heap slot: `[priority, value]`. */
  datatype Entry = Entry(priority: nat, stop: StopId)

  function Parent(i: nat): nat
    requires i > 0
  {
    (i - 1) / 2
  }

  /** Every parent's priority is at most its child's. */
  ghost predicate IsMinHeap(h: seq<Entry>)
  {
    forall i | 0 < i < |h| :: h[Parent(i)].priority <= h[i].priority
  }

  /** The root of a heap has the minimum priority of all its entries. */
  lemma {:induction false} RootIsMinimum(h: seq<Entry>, k: nat)
    requires IsMinHeap(h) && k < |h|
    ensures h[0].priority <= h[k].priority
    decreases k
  {
    if k > 0 {
      RootIsMinimum(h, Parent(k));
    }
  }

  /** `RootIsMinimum` for every entry at once, stated on the contents. */
  lemma RootBelowAll(h: seq<Entry>)
    requires IsMinHeap(h) && |h| > 0
    ensures forall e | e in h :: h[0].priority <= e.priority
  {
    forall e | e in h
      ensures h[0].priority <= e.priority
    {
      var k :| 0 <= k < |h| && h[k] == e;
      RootIsMinimum(h, k);
    }
  }

  /** `h[i]` and `h[j]` exchanged. */
  function Swap(h: seq<Entry>, i: nat, j: nat): (r: seq<Entry>)
    requires i < |h| && j < |h|
    ensures |r| == |h| && multiset(r) == multiset(h)
  {
    h[i := h[j]][j := h[i]]
  }

  /** Sift-up state: the heap property holds for every slot but `i`. */
  ghost predicate HeapExceptChild(h: seq<Entry>, i: nat)
  {
    forall j | 0 < j < |h| && j != i :: h[Parent(j)].priority <= h[j].priority
  }

  /** Sift-down state: the heap property holds below every slot but `i`. */
  ghost predicate HeapExceptParent(h: seq<Entry>, i: nat)
  {
    forall j | 0 < j < |h| && Parent(j) != i :: h[Parent(j)].priority <= h[j].priority
  }

  /** The parent of slot `i` is no larger than the children of `i`. */
  ghost predicate GrandparentBound(h: seq<Entry>, i: nat)
  {
    i > 0 && i < |h| ==> forall j | 0 < j < |h| && Parent(j) == i :: h[Parent(i)].priority <= h[j].priority
  }

  /** One exchange of the sift-up loop moves the hole to the parent. */
  lemma SiftUpStep(h: seq<Entry>, i: nat)
    requires 0 < i < |h|
    requires HeapExceptChild(h, i) && GrandparentBound(h, i)
    requires h[i].priority < h[Parent(i)].priority
    ensures HeapExceptChild(Swap(h, Parent(i), i), Parent(i))
    ensures GrandparentBound(Swap(h, Parent(i), i), Parent(i))
  {
    var p := Parent(i);
    var s := Swap(h, p, i);
    forall j | 0 < j < |s| && j != p
      ensures s[Parent(j)].priority <= s[j].priority
    {
      if j == i {
      } else if Parent(j) == i {
      } else if Parent(j) == p {
        assert s[Parent(j)] == h[i] && s[j] == h[j];
      } else if j == p {
      } else {
        assert s[j] == h[j];
      }
    }
  }

  /** One exchange of the sift-down loop moves the hole to the smaller child. */
  lemma SiftDownStep(h: seq<Entry>, i: nat, c: nat)
    requires c == 2 * i + 1 || c == 2 * i + 2
    requires c < |h| && HeapExceptParent(h, i) && GrandparentBound(h, i)
    requires h[c].priority < h[i].priority
    requires 2 * i + 1 < |h| ==> h[c].priority <= h[2 * i + 1].priority
    requires 2 * i + 2 < |h| ==> h[c].priority <= h[2 * i + 2].priority
    ensures HeapExceptParent(Swap(h, i, c), c)
    ensures GrandparentBound(Swap(h, i, c), c)
  {
    SiftDownOrder(h, i, c);
    SiftDownBound(h, i, c);
  }

  /** After the exchange, the heap property holds below every slot but the child's. */
  lemma SiftDownOrder(h: seq<Entry>, i: nat, c: nat)
    requires c == 2 * i + 1 || c == 2 * i + 2
    requires c < |h| && HeapExceptParent(h, i) && GrandparentBound(h, i)
    requires h[c].priority < h[i].priority
    requires 2 * i + 1 < |h| ==> h[c].priority <= h[2 * i + 1].priority
    requires 2 * i + 2 < |h| ==> h[c].priority <= h[2 * i + 2].priority
    ensures HeapExceptParent(Swap(h, i, c), c)
  {
    var s := Swap(h, i, c);
    forall j | 0 < j < |s| && Parent(j) != c
      ensures s[Parent(j)].priority <= s[j].priority
    {
      var q := Parent(j);
      if j == c {
        assert s[q] == h[c] && s[j] == h[i];
      } else if q == i {
        assert j == 2 * i + 1 || j == 2 * i + 2;
        assert s[q] == h[c] && s[j] == h[j];
      } else if j == i {
        assert s[q] == h[q] && s[j] == h[c];
      } else {
        assert s[q] == h[q] && s[j] == h[j];
      }
    }
  }

  /** After the exchange, the entry moved up is no larger than the children of the child's slot. */
  lemma SiftDownBound(h: seq<Entry>, i: nat, c: nat)
    requires c == 2 * i + 1 || c == 2 * i + 2
    requires c < |h| && HeapExceptParent(h, i)
    requires h[c].priority < h[i].priority
    ensures GrandparentBound(Swap(h, i, c), c)
  {
    var s := Swap(h, i, c);
    forall j | 0 < j < |s| && Parent(j) == c
      ensures s[i].priority <= s[j].priority
    {
      assert s[i] == h[c] && s[j] == h[j];
    }
  }

  /** Sift-up stops at the root or below a parent that is no larger: a heap again. */
  lemma SiftUpDone(h: seq<Entry>, i: nat)
    requires i < |h| && HeapExceptChild(h, i)
    requires i > 0 ==> h[Parent(i)].priority <= h[i].priority
    ensures IsMinHeap(h)
  {
  }

  /** Sift-down stops when no child of `i` is smaller: a heap again. */
  lemma SiftDownDone(h: seq<Entry>, i: nat)
    requires i < |h| && HeapExceptParent(h, i)
    requires 2 * i + 1 < |h| ==> h[i].priority <= h[2 * i + 1].priority
    requires 2 * i + 2 < |h| ==> h[i].priority <= h[2 * i + 2].priority
    ensures IsMinHeap(h)
  {
    forall j | 0 < j < |h| && Parent(j) == i
      ensures h[i].priority <= h[j].priority
    {
      assert j == 2 * i + 1 || j == 2 * i + 2;
    }
  }

  /** The last entry moved into the root slot: the starting point of sift-down. */
  function RefillRoot(h: seq<Entry>): (r: seq<Entry>)
    requires |h| > 1 && IsMinHeap(h)
    ensures |r| == |h| - 1 && multiset(r) + multiset{h[0]} == multiset(h)
    ensures HeapExceptParent(r, 0) && GrandparentBound(r, 0)
  {
    var last := h[|h| - 1];
    assert h == h[..|h| - 1] + [last];
    h[..|h| - 1][0 := last]
  }

  /** The contents after a pop, written as a removal. */
  lemma RemovedEntry(rest: multiset<Entry>, all: multiset<Entry>, x: Entry)
    requires rest + multiset{x} == all
    ensures rest == all - multiset{x}
  {
  }

  class MinHeap {
    var heap: seq<Entry>

    ghost predicate Valid()
      reads this
    {
      IsMinHeap(heap)
    }

    /** `new MinHeap()`: an empty heap. */
    constructor()
      ensures Valid() && heap == []
    {
      heap := [];
    }

    /** Number of entries. */
    method Size() returns (n: nat)
      ensures n == |heap|
    {
      n := |heap|;
    }

    /**
     * Appends `[priority, value]` and sifts it up until its parent is no
     * larger. The contents grow by exactly that pair and the heap property is
     * restored.
     */
    method Push(priority: nat, value: StopId)
      requires Valid()
      modifies this
      ensures Valid()
      ensures multiset(heap) == multiset(old(heap)) + multiset{Entry(priority, value)}
      ensures |heap| == |old(heap)| + 1
    {
      var h := heap + [Entry(priority, value)];
      var i := |h| - 1;
      while i > 0
        invariant 0 <= i < |h| && |h| == |old(heap)| + 1
        invariant multiset(h) == multiset(old(heap)) + multiset{Entry(priority, value)}
        invariant HeapExceptChild(h, i) && GrandparentBound(h, i)
      {
        var p := Parent(i);
        if h[p].priority <= h[i].priority {
          SiftUpDone(h, i);
          break;
        }
        SiftUpStep(h, i);
        h := Swap(h, p, i);
        i := p;
      }
      SiftUpDone(h, i);
      heap := h;
    }

    /**
     * Removes and returns an entry of minimum priority: `None` on an empty
     * heap, the only element of a one-element heap, and otherwise the root,
     * whose slot is refilled by the last entry and sifted down (ties go to the
     * left child, and only a strictly smaller child is swapped up).
     */
    method Pop() returns (top: Option<Entry>)
      requires Valid()
      modifies this
      ensures Valid()
      ensures old(heap) == [] ==> top == None && heap == []
      ensures |old(heap)| == 1 ==> top == Some(old(heap)[0]) && heap == []
      ensures old(heap) != [] ==>
                top == Some(old(heap)[0]) &&
                multiset(heap) + multiset{old(heap)[0]} == multiset(old(heap)) &&
                forall e | e in old(heap) :: top.value.priority <= e.priority
    {
      if |heap| == 0 {
        return None;
      }
      RootBelowAll(heap);
      if |heap| == 1 {
        top := Some(heap[0]);
        heap := [];
        return;
      }
      var first := heap[0];
      var h := RefillRoot(heap);
      var i := 0;
      while true
        invariant 0 <= i < |h| && |h| == |old(heap)| - 1
        invariant multiset(h) + multiset{first} == multiset(old(heap))
        invariant HeapExceptParent(h, i) && GrandparentBound(h, i)
        decreases |h| - i
      {
        var l, r := 2 * i + 1, 2 * i + 2;
        var smallest := i;
        if l < |h| && h[l].priority < h[smallest].priority {
          smallest := l;
        }
        if r < |h| && h[r].priority < h[smallest].priority {
          smallest := r;
        }
        if smallest == i {
          SiftDownDone(h, i);
          break;
        }
        SiftDownStep(h, i, smallest);
        h := Swap(h, i, smallest);
        i := smallest;
      }
      heap := h;
      top := Some(first);
    }
  }
}
