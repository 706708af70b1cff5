/**
 * The search-result heap (`Heap` in heap.h/heap.cpp): a binary heap kept in a
 * vector. `SearchResult::operator<` says `a < b` when `a` is MORE relevant, and
 * `heapifyUp`/`heapifyDown` move an element towards the root while it is "less"
 * than its parent, so the root holds the most relevant result: a max-heap on
 * relevance.
 */
module ResultHeap {
  import opened Sorting

  /** One scored match; a freshly made result has relevance equal to its frequency. */
  datatype SearchResult = SearchResult(filename: string, frequency: int, relevance: int)

  /** The two-argument `SearchResult` constructor. */
  function MakeResult(file: string, freq: int): (r: SearchResult)
    ensures r.filename == file && r.frequency == freq && r.relevance == freq
  {
    SearchResult(file, freq, freq)
  }

  function Relevance(r: SearchResult): int {
    r.relevance
  }

  /** `SearchResult::operator<`: "less" means more relevant. */
  predicate Less(a: SearchResult, b: SearchResult) {
    a.relevance > b.relevance
  }

  function Parent(i: nat): nat
    requires i > 0
  {
    (i - 1) / 2
  }

  /** Every element is at most as relevant as its parent. */
  predicate IsMaxHeap(h: seq<SearchResult>) {
    forall i :: 0 < i < |h| ==> h[Parent(i)].relevance >= h[i].relevance
  }

  /** The heap order holds for every element except possibly the one at `k` (during `heapifyUp`). */
  predicate HeapExceptAt(h: seq<SearchResult>, k: nat) {
    forall i :: 0 < i < |h| && i != k ==> h[Parent(i)].relevance >= h[i].relevance
  }

  /** The heap order holds for every element except possibly the children of `k` (during `heapifyDown`). */
  predicate HeapExceptBelow(h: seq<SearchResult>, k: nat) {
    forall i :: 0 < i < |h| && Parent(i) != k ==> h[Parent(i)].relevance >= h[i].relevance
  }

  /** The parent of `k` is at least as relevant as the children of `k`. */
  predicate GrandparentBound(h: seq<SearchResult>, k: nat) {
    0 < k < |h| ==> forall i :: 0 < i < |h| && Parent(i) == k ==> h[Parent(k)].relevance >= h[i].relevance
  }

  function Swap(h: seq<SearchResult>, i: nat, j: nat): (r: seq<SearchResult>)
    requires i < |h| && j < |h|
    ensures |r| == |h| && multiset(r) == multiset(h)
    ensures r[i] == h[j] && r[j] == h[i]
    ensures forall k :: 0 <= k < |h| && k != i && k != j ==> r[k] == h[k]
  {
    h[i := h[j]][j := h[i]]
  }

  /** The root of a heap is a most relevant element. */
  lemma {:induction false} RootIsMax(h: seq<SearchResult>, i: nat)
    requires IsMaxHeap(h) && i < |h|
    ensures h[0].relevance >= h[i].relevance
    decreases i
  {
    if i > 0 {
      RootIsMax(h, Parent(i));
    }
  }

  /** Every element of a heap is at most as relevant as the root. */
  lemma RootIsMaxAll(h: seq<SearchResult>)
    requires IsMaxHeap(h) && |h| > 0
    ensures forall x :: x in multiset(h) ==> x.relevance <= h[0].relevance
  {
    forall x | x in multiset(h) ensures x.relevance <= h[0].relevance {
      assert x in h;
      var i :| 0 <= i < |h| && h[i] == x;
      RootIsMax(h, i);
    }
  }

  class Heap {
    var heap: seq<SearchResult>

    ghost predicate Valid()
      reads this
    {
      IsMaxHeap(heap)
    }

    constructor ()
      ensures heap == [] && Valid()
    {
      heap := [];
    }

    /** The results held, as a multiset. */
    ghost function Contents(): multiset<SearchResult>
      reads this
    {
      multiset(heap)
    }

    /** `Heap::push`: append, then sift the new element up. */
    method Push(result: SearchResult)
      requires Valid()
      modifies this
      ensures Valid() && Contents() == old(Contents()) + multiset{result}
    {
      heap := heap + [result];
      HeapifyUp(|heap| - 1);
    }

    /** `Heap::heapifyUp`: swap the element at `index` with its parent while it is more relevant. */
    method HeapifyUp(index: nat)
      requires index < |heap| && HeapExceptAt(heap, index) && GrandparentBound(heap, index)
      modifies this
      ensures Valid() && Contents() == old(Contents())
    {
      var idx: nat := index;
      while idx > 0
        invariant idx < |heap| && |heap| == |old(heap)|
        invariant HeapExceptAt(heap, idx) && GrandparentBound(heap, idx)
        invariant multiset(heap) == multiset(old(heap))
        decreases idx
      {
        var parent := Parent(idx);
        if Less(heap[idx], heap[parent]) {
          SwapUp(heap, idx);
          heap := Swap(heap, idx, parent);
          idx := parent;
        } else {
          return;
        }
      }
    }

    /** `Heap::heapifyDown`: swap the element at `index` with its more relevant child while that child is more relevant. */
    method HeapifyDown(index: nat)
      requires HeapExceptBelow(heap, index) && GrandparentBound(heap, index)
      modifies this
      ensures Valid() && Contents() == old(Contents())
    {
      var size := |heap|;
      var idx: nat := index;
      while idx < size
        invariant |heap| == size
        invariant HeapExceptBelow(heap, idx) && GrandparentBound(heap, idx)
        invariant multiset(heap) == multiset(old(heap))
        decreases size - idx
      {
        var left, right := 2 * idx + 1, 2 * idx + 2;
        var largest: nat := idx;
        if left < size && Less(heap[left], heap[largest]) {
          largest := left;
        }
        if right < size && Less(heap[right], heap[largest]) {
          largest := right;
        }
        if largest != idx {
          LargestChild(heap, idx, largest);
          SwapDown(heap, idx, largest);
          heap := Swap(heap, idx, largest);
          idx := largest;
        } else {
          DownDone(heap, idx);
          return;
        }
      }
      DownDone(heap, idx);
    }

    /** `Heap::pop`: take the root, move the last element to the root and sift it down. */
    method Pop() returns (result: SearchResult)
      requires Valid() && |heap| > 0
      modifies this
      ensures Valid()
      ensures result == old(heap)[0]
      ensures forall x :: x in old(Contents()) ==> x.relevance <= result.relevance
      ensures Contents() == old(Contents()) - multiset{result}
    {
      RootIsMaxAll(heap);
      result := heap[0];
      ghost var h0 := heap;
      heap := heap[0 := heap[|heap| - 1]];
      heap := heap[..|heap| - 1];
      MoveLastToRoot(h0);
      HeapifyDown(0);
    }

    /** `Heap::empty`. */
    function Empty(): (b: bool)
      reads this
      ensures b <==> Contents() == multiset{}
    {
      |heap| == 0
    }

    /** `Heap::size`: the number of results held, counted with repetition. */
    function Size(): (n: nat)
      reads this
      ensures n == |Contents()|
    {
      |heap|
    }

    /**
     * `Heap::getTopK`: rebuild a heap from the elements, then pop up to `k` of
     * them. The result has `min(k, size)` elements (none for `k <= 0`), ordered
     * by non-increasing relevance, drawn from the heap, and none left out is
     * more relevant than any taken.
     */
    method GetTopK(k: int) returns (results: seq<SearchResult>)
      ensures |results| == if k <= 0 then 0 else if k < |heap| then k else |heap|
      ensures SortedDesc(results, Relevance)
      ensures multiset(results) <= multiset(heap)
      ensures forall x, y :: x in multiset(heap) - multiset(results) && y in results ==> x.relevance <= y.relevance
    {
      var tempHeap := FromSeq(heap);
      results := tempHeap.PopUpTo(k);
    }

    /** The second loop of `getTopK`: pop while fewer than `k` results are taken and the heap is not empty. */
    method PopUpTo(k: int) returns (results: seq<SearchResult>)
      requires Valid()
      modifies this
      ensures Valid()
      ensures |results| == if k <= 0 then 0 else if k < |old(heap)| then k else |old(heap)|
      ensures Contents() + multiset(results) == old(Contents())
      ensures SortedDesc(results, Relevance)
      ensures forall x, y :: x in Contents() && y in results ==> x.relevance <= y.relevance
    {
      results := [];
      var i := 0;
      while i < k && !Empty()
        invariant Valid() && |results| == i
        invariant i <= (if k > 0 then k else 0) && |heap| + i == |old(heap)|
        invariant Contents() + multiset(results) == old(Contents())
        invariant SortedDesc(results, Relevance)
        invariant forall x, y :: x in Contents() && y in results ==> x.relevance <= y.relevance
        decreases |heap|
      {
        ghost var before := Contents();
        var r := Pop();
        PopStep(before, Contents(), results, r);
        results := results + [r];
        i := i + 1;
        assert |heap| == |multiset(heap)| == |before| - 1;
      }
      assert i >= k || |heap| == 0;
    }

    /** `Heap::clear`. */
    method Clear()
      modifies this
      ensures heap == [] && Valid()
    {
      heap := [];
    }
  }

  /** Appending the most relevant of what is left keeps the popped results sorted and ahead of the rest. */
  lemma PopStep(before: multiset<SearchResult>, after: multiset<SearchResult>, results: seq<SearchResult>, r: SearchResult)
    requires r in before && after == before - multiset{r}
    requires forall x :: x in before ==> x.relevance <= r.relevance
    requires SortedDesc(results, Relevance)
    requires forall x, y :: x in before && y in results ==> x.relevance <= y.relevance
    ensures after + multiset(results + [r]) == before + multiset(results)
    ensures SortedDesc(results + [r], Relevance)
    ensures forall x, y :: x in after && y in results + [r] ==> x.relevance <= y.relevance
  {
    var s := results + [r];
    forall i, j | 0 <= i < j < |s| ensures Relevance(s[i]) >= Relevance(s[j]) {
      if j == |results| {
        assert s[i] in results;
      } else {
        assert s[i] == results[i] && s[j] == results[j];
      }
    }
    forall x, y | x in after && y in s ensures x.relevance <= y.relevance {
      assert x in before;
      if y != r {
        assert y in results;
      }
    }
  }

  /** The first loop of `getTopK`: push every element into a new heap. */
  method FromSeq(s: seq<SearchResult>) returns (h: Heap)
    ensures fresh(h) && h.Valid() && h.Contents() == multiset(s) && |h.heap| == |s|
  {
    h := new Heap();
    for j := 0 to |s|
      invariant fresh(h) && h.Valid()
      invariant h.Contents() == multiset(s[..j])
    {
      assert s[..j + 1] == s[..j] + [s[j]];
      h.Push(s[j]);
    }
    assert s[..|s|] == s;
    assert |h.heap| == |multiset(h.heap)| == |multiset(s)| == |s|;
  }

  /** `heapifyDown` stops when the element at `idx` is at least as relevant as its children, or has none. */
  lemma DownDone(h: seq<SearchResult>, idx: nat)
    requires HeapExceptBelow(h, idx)
    requires 2 * idx + 1 < |h| ==> h[idx].relevance >= h[2 * idx + 1].relevance
    requires 2 * idx + 2 < |h| ==> h[idx].relevance >= h[2 * idx + 2].relevance
    ensures IsMaxHeap(h)
  {
    forall i | 0 < i < |h| ensures h[Parent(i)].relevance >= h[i].relevance {
      if Parent(i) == idx {
        assert i == 2 * idx + 1 || i == 2 * idx + 2;
      }
    }
  }

  /** What `pop` leaves before sifting: the last element moved to the root breaks the order only below the root. */
  lemma MoveLastToRoot(h: seq<SearchResult>)
    requires IsMaxHeap(h) && |h| > 0
    ensures var r := h[0 := h[|h| - 1]][..|h| - 1];
      && HeapExceptBelow(r, 0)
      && multiset(r) == multiset(h) - multiset{h[0]}
  {
    var r := h[0 := h[|h| - 1]][..|h| - 1];
    assert h == [h[0]] + h[1..];
    if |h| > 1 {
      assert r == [h[|h| - 1]] + h[1..|h| - 1];
      assert h[1..] == h[1..|h| - 1] + [h[|h| - 1]];
    }
    forall i | 0 < i < |r| && Parent(i) != 0 ensures r[Parent(i)].relevance >= r[i].relevance {
      assert r[i] == h[i] && r[Parent(i)] == h[Parent(i)];
    }
  }

  /** One step of `heapifyUp` keeps its loop invariant. */
  lemma SwapUp(h: seq<SearchResult>, idx: nat)
    requires 0 < idx < |h| && HeapExceptAt(h, idx) && GrandparentBound(h, idx)
    requires Less(h[idx], h[Parent(idx)])
    ensures HeapExceptAt(Swap(h, idx, Parent(idx)), Parent(idx))
    ensures GrandparentBound(Swap(h, idx, Parent(idx)), Parent(idx))
  {
    var p := Parent(idx);
    var h' := Swap(h, idx, p);
    forall i | 0 < i < |h| && i != p ensures h'[Parent(i)].relevance >= h'[i].relevance {
      if i == idx {
      } else if Parent(i) == idx {
      } else if Parent(i) == p {
        assert h[p].relevance >= h[i].relevance;
      }
    }
    if p > 0 {
      forall i | 0 < i < |h| && Parent(i) == p ensures h'[Parent(p)].relevance >= h'[i].relevance {
        assert Parent(p) != idx && Parent(p) != p;
        assert h[Parent(p)].relevance >= h[p].relevance;
      }
    }
  }

  /** The child picked by the two comparisons of `heapifyDown` is at least as relevant as every child. */
  lemma LargestChild(h: seq<SearchResult>, idx: nat, c: nat)
    requires c < |h| && (c == 2 * idx + 1 || c == 2 * idx + 2)
    requires 2 * idx + 1 < |h| ==> h[c].relevance >= h[2 * idx + 1].relevance
    requires 2 * idx + 2 < |h| ==> h[c].relevance >= h[2 * idx + 2].relevance
    ensures Parent(c) == idx
    ensures forall i :: 0 < i < |h| && Parent(i) == idx ==> h[c].relevance >= h[i].relevance
  {
  }

  /** One step of `heapifyDown` keeps its loop invariant. */
  lemma SwapDown(h: seq<SearchResult>, idx: nat, c: nat)
    requires idx < c < |h| && Parent(c) == idx
    requires HeapExceptBelow(h, idx) && GrandparentBound(h, idx)
    requires h[c].relevance > h[idx].relevance
    requires forall i :: 0 < i < |h| && Parent(i) == idx ==> h[c].relevance >= h[i].relevance
    ensures HeapExceptBelow(Swap(h, idx, c), c)
    ensures GrandparentBound(Swap(h, idx, c), c)
  {
    var h' := Swap(h, idx, c);
    forall i | 0 < i < |h| && Parent(i) != c ensures h'[Parent(i)].relevance >= h'[i].relevance {
      if i == c {
      } else if Parent(i) == idx {
      } else if i == idx {
      }
    }
    forall i | 0 < i < |h| && Parent(i) == c ensures h'[Parent(c)].relevance >= h'[i].relevance {
      assert i != idx && i != c;
    }
  }
}
