/** The in-place heapsort that the quicksort falls back to. */
module Heapsort {
  import opened SortSpec

  /** Element k of the n elements from p on is no smaller than its children. */
  ghost predicate Parent<T>(cmp: (T, T) -> int, s: seq<T>, p: nat, n: nat, k: nat)
    requires p + n <= |s|
  {
    && (2 * k + 1 < n ==> cmp(s[p + 2 * k + 1], s[p + k]) <= 0)
    && (2 * k + 2 < n ==> cmp(s[p + 2 * k + 2], s[p + k]) <= 0)
  }

  /** Every element from the i-th on is no smaller than its children. */
  ghost predicate Heap<T>(cmp: (T, T) -> int, s: seq<T>, p: nat, n: nat, i: nat)
    requires p + n <= |s|
  {
    forall k :: i <= k < n ==> Parent(cmp, s, p, n, k)
  }

  /** As Heap, but for element r, whose children are no larger than its parent. */
  ghost predicate Sifting<T>(cmp: (T, T) -> int, s: seq<T>, p: nat, n: nat, i: nat, r: nat)
    requires p + n <= |s|
  {
    && i <= r && (r == i || i <= (r - 1) / 2)
    && (forall k :: i <= k < n && k != r ==> Parent(cmp, s, p, n, k))
    && (r > i && 2 * r + 1 < n ==> cmp(s[p + 2 * r + 1], s[p + (r - 1) / 2]) <= 0)
    && (r > i && 2 * r + 2 < n ==> cmp(s[p + 2 * r + 2], s[p + (r - 1) / 2]) <= 0)
  }

  /** The first of a heap is its largest. */
  lemma {:induction false} HeapMax<T(!new)>(cmp: (T, T) -> int, s: seq<T>, p: nat, n: nat, k: nat)
    requires Preorder(cmp) && p + n <= |s| && Heap(cmp, s, p, n, 0) && k < n
    ensures cmp(s[p + k], s[p]) <= 0
  {
    hide Preorder;
    if k == 0 {
      Flip(cmp, s[p], s[p]);
    } else {
      var h := (k - 1) / 2;
      HeapMax(cmp, s, p, n, h);
      assert Parent(cmp, s, p, n, h);
      LeTrans(cmp, s[p + k], s[p + h], s[p]);
    }
  }

  /** Swapping r with its larger child c moves the gap to c. */
  lemma SiftOn<T(!new)>(cmp: (T, T) -> int, s: seq<T>, p: nat, n: nat, i: nat, r: nat, c: nat)
    requires Preorder(cmp) && p + n <= |s| && Sifting(cmp, s, p, n, i, r) && (c == 2 * r + 1 || c == 2 * r + 2) && c < n
    requires cmp(s[p + r], s[p + c]) <= 0
    requires 2 * r + 1 < n ==> cmp(s[p + 2 * r + 1], s[p + c]) <= 0
    requires 2 * r + 2 < n ==> cmp(s[p + 2 * r + 2], s[p + c]) <= 0
    ensures Sifting(cmp, Swapped(s, p + r, p + c), p, n, i, c)
  {
    hide Preorder;
    var t := Swapped(s, p + r, p + c);
    assert (c - 1) / 2 == r;
    forall k | i <= k < n && k != c ensures Parent(cmp, t, p, n, k) {
      if k != r {
        assert Parent(cmp, s, p, n, k);
      }
    }
    assert Parent(cmp, s, p, n, c);
  }

  lemma SiftDone<T(!new)>(cmp: (T, T) -> int, s: seq<T>, p: nat, n: nat, i: nat, r: nat)
    requires p + n <= |s| && Sifting(cmp, s, p, n, i, r) && (r < n ==> Parent(cmp, s, p, n, r))
    ensures Heap(cmp, s, p, n, i)
  {
  }

  /** Lets element i sink until the elements from i on form a heap. */
  method SiftDown<T(!new)>(a: array<T>, p: nat, i: nat, n: nat, cmp: (T, T) -> int)
    requires Preorder(cmp) && p + n <= a.Length && Heap(cmp, a[..], p, n, i + 1)
    modifies a
    ensures Heap(cmp, a[..], p, n, i) && Shuffled(old(a[..]), a[..], p, p + n)
  {
    hide Preorder, Heap, Sifting, Shuffled, Swapped;
    ghost var s := a[..];
    ShuffledRefl(s, p, p + n);
    var r, c := i, i * 2 + 1;
    SiftStart(cmp, s, p, n, i);
    while c < n
      invariant r <= i + n && c == 2 * r + 1
      invariant Sifting(cmp, a[..], p, n, i, r) && Shuffled(s, a[..], p, p + n)
      decreases i + n - r
    {
      ghost var t := a[..];
      if c < n - 1 && cmp(a[p + c], a[p + c + 1]) <= 0 {
        c := c + 1;
      }
      Larger(cmp, t, p, n, r, c);
      Flip(cmp, t[p + r], t[p + c]);
      if cmp(a[p + r], a[p + c]) > 0 {
        SiftStop(cmp, t, p, n, r, c);
        SiftDone(cmp, t, p, n, i, r);
        return;
      }
      Swap(a, p + r, p + c);
      SiftOn(cmp, t, p, n, i, r, c);
      ShuffledThenSwap(s, t, p + r, p + c, p, p + n);
      r, c := c, c * 2 + 1;
    }
    SiftDone(cmp, a[..], p, n, i, r);
  }

  lemma SiftStart<T>(cmp: (T, T) -> int, s: seq<T>, p: nat, n: nat, i: nat)
    requires p + n <= |s| && Heap(cmp, s, p, n, i + 1)
    ensures Sifting(cmp, s, p, n, i, i)
  {
  }

  /** c was chosen as the larger of r's children. */
  lemma Larger<T(!new)>(cmp: (T, T) -> int, s: seq<T>, p: nat, n: nat, r: nat, c: nat)
    requires Preorder(cmp) && p + n <= |s| && 2 * r + 1 < n
    requires c == if 2 * r + 1 < n - 1 && cmp(s[p + 2 * r + 1], s[p + 2 * r + 2]) <= 0 then 2 * r + 2 else 2 * r + 1
    ensures c < n && cmp(s[p + 2 * r + 1], s[p + c]) <= 0 && (2 * r + 2 < n ==> cmp(s[p + 2 * r + 2], s[p + c]) <= 0)
  {
    hide Preorder;
    Flip(cmp, s[p + c], s[p + c]);
    if 2 * r + 2 < n {
      Flip(cmp, s[p + 2 * r + 1], s[p + 2 * r + 2]);
    }
  }

  lemma SiftStop<T(!new)>(cmp: (T, T) -> int, s: seq<T>, p: nat, n: nat, r: nat, c: nat)
    requires Preorder(cmp) && p + n <= |s| && c < n && r < n && cmp(s[p + c], s[p + r]) < 0
    requires 2 * r + 1 < n ==> cmp(s[p + 2 * r + 1], s[p + c]) <= 0
    requires 2 * r + 2 < n ==> cmp(s[p + 2 * r + 2], s[p + c]) <= 0
    ensures Parent(cmp, s, p, n, r)
  {
  }

  /** The last n - i elements are sorted and no smaller than the first i. */
  ghost predicate Tail<T>(cmp: (T, T) -> int, s: seq<T>, p: nat, n: nat, i: nat)
    requires i <= n && p + n <= |s|
  {
    forall j, k :: p <= j < k < p + n && p + i <= k ==> cmp(s[j], s[k]) <= 0
  }

  lemma TailGrows<T(!new)>(cmp: (T, T) -> int, s: seq<T>, t: seq<T>, p: nat, n: nat, i: nat)
    requires Preorder(cmp) && 0 < i < n && p + n <= |s| && Heap(cmp, s, p, i + 1, 0) && Tail(cmp, s, p, n, i + 1)
    requires |t| == |s| && Shuffled(Swapped(s, p, p + i), t, p, p + i)
    ensures Tail(cmp, t, p, n, i)
  {
    hide Preorder, Shuffled, Swapped, Heap, Tail;
    var u := Swapped(s, p, p + i);
    TailSwap(cmp, s, p, n, i);
    ShuffledLength(u, t, p, p + i);
    TailShuffle(cmp, u, t, p, n, i);
  }

  lemma TailSwap<T(!new)>(cmp: (T, T) -> int, s: seq<T>, p: nat, n: nat, i: nat)
    requires Preorder(cmp) && 0 < i < n && p + n <= |s| && Heap(cmp, s, p, i + 1, 0) && Tail(cmp, s, p, n, i + 1)
    ensures Tail(cmp, Swapped(s, p, p + i), p, n, i)
  {
    hide Preorder, Heap;
    var u := Swapped(s, p, p + i);
    forall j, k | p <= j < k < p + n && p + i <= k ensures cmp(u[j], u[k]) <= 0 {
      var m := if j == p then p + i else if j == p + i then p else j;
      assert u[j] == s[m];
      if k == p + i {
        HeapMax(cmp, s, p, i + 1, m - p);
      }
    }
  }

  lemma TailShuffle<T>(cmp: (T, T) -> int, s: seq<T>, t: seq<T>, p: nat, n: nat, i: nat)
    requires 0 < i < n && p + n <= |s| && |t| == |s| && Tail(cmp, s, p, n, i) && Shuffled(s, t, p, p + i)
    ensures Tail(cmp, t, p, n, i)
  {
    hide Shuffled;
    forall j, k | p <= j < k < p + n && p + i <= k ensures cmp(t[j], t[k]) <= 0 {
      ShuffledOutside(s, t, p, p + i, k);
      if j < p + i {
        var m := ShuffledFrom(s, t, p, p + i, j);
      } else {
        ShuffledOutside(s, t, p, p + i, j);
      }
    }
  }

  lemma TailSorted<T>(cmp: (T, T) -> int, s: seq<T>, p: nat, n: nat, i: nat)
    requires i <= 1 && i <= n && p + n <= |s| && Tail(cmp, s, p, n, i)
    ensures Sorted(cmp, s, p, p + n)
  {
  }

  method Heapsortx<T(!new)>(a: array<T>, p: nat, nmemb: nat, cmp: (T, T) -> int)
    requires Preorder(cmp) && p + nmemb <= a.Length
    modifies a
    ensures Sorted(cmp, a[..], p, p + nmemb) && Shuffled(old(a[..]), a[..], p, p + nmemb)
  {
    hide Preorder, Heap, Shuffled, Tail, Swapped, Sorted;
    ghost var s := a[..];
    ShuffledRefl(s, p, p + nmemb);
    SortedShort(cmp, s, p, nmemb);
    if nmemb > 1 {
      BuildHeap(a, p, nmemb, cmp);
      TailEmpty(cmp, a[..], p, nmemb);
      var i := nmemb - 1;
      while i > 0
        invariant 0 <= i < nmemb
        invariant Heap(cmp, a[..], p, i + 1, 0) && Tail(cmp, a[..], p, nmemb, i + 1) && Shuffled(s, a[..], p, p + nmemb)
      {
        ghost var t := a[..];
        Swap(a, p, p + i);
        ghost var u := a[..];
        HeapShrinks(cmp, t, p, i);
        SiftDown(a, p, 0, i, cmp);
        TailGrows(cmp, t, a[..], p, nmemb, i);
        ShuffledThenSwap(s, t, p, p + i, p, p + nmemb);
        ShuffledWiden(u, a[..], p, p + i, p, p + nmemb);
        ShuffledTrans(s, u, a[..], p, p + nmemb);
        i := i - 1;
      }
      TailSorted(cmp, a[..], p, nmemb, 1);
    }
  }

  lemma SortedShort<T>(cmp: (T, T) -> int, s: seq<T>, p: nat, n: nat)
    requires p + n <= |s|
    ensures n <= 1 ==> Sorted(cmp, s, p, p + n)
  {
  }

  lemma TailEmpty<T>(cmp: (T, T) -> int, s: seq<T>, p: nat, n: nat)
    requires p + n <= |s|
    ensures Tail(cmp, s, p, n, n)
  {
  }

  lemma HeapShrinks<T>(cmp: (T, T) -> int, s: seq<T>, p: nat, i: nat)
    requires 0 < i && p + i < |s| && Heap(cmp, s, p, i + 1, 0)
    ensures Heap(cmp, Swapped(s, p, p + i), p, i, 1)
  {
    var u := Swapped(s, p, p + i);
    forall k | 1 <= k < i ensures Parent(cmp, u, p, i, k) {
      assert Parent(cmp, s, p, i + 1, k);
    }
  }

  method BuildHeap<T(!new)>(a: array<T>, p: nat, nmemb: nat, cmp: (T, T) -> int)
    requires Preorder(cmp) && p + nmemb <= a.Length
    modifies a
    ensures Heap(cmp, a[..], p, nmemb, 0) && Shuffled(old(a[..]), a[..], p, p + nmemb)
  {
    hide Preorder, Heap, Shuffled;
    ghost var s := a[..];
    ShuffledRefl(s, p, p + nmemb);
    var i := nmemb / 2;
    Leaves(cmp, s, p, nmemb);
    while i > 0
      invariant 0 <= i <= nmemb
      invariant Heap(cmp, a[..], p, nmemb, i) && Shuffled(s, a[..], p, p + nmemb)
    {
      i := i - 1;
      ghost var t := a[..];
      SiftDown(a, p, i, nmemb, cmp);
      ShuffledTrans(s, t, a[..], p, p + nmemb);
    }
  }

  lemma Leaves<T>(cmp: (T, T) -> int, s: seq<T>, p: nat, n: nat)
    requires p + n <= |s|
    ensures Heap(cmp, s, p, n, n / 2)
  {
  }
}
