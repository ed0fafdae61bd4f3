/** The three-way quicksort with an explicit stack of pending segments. */
module Rqsort {
  import opened SortSpec
  import opened Heapsort

  function Sign(x: int): int {
    if x < 0 then -1 else if x > 0 then 1 else 0
  }

  /** Comparing v with each element of [lo, hi) gives sign g. */
  ghost predicate Zone<T>(cmp: (T, T) -> int, v: T, s: seq<T>, lo: nat, hi: nat, g: int) {
    lo <= hi <= |s| && forall k :: lo <= k < hi ==> Sign(cmp(v, s[k])) == g
  }

  /** During the scan: equal, smaller, not yet seen, greater, equal. */
  ghost predicate Scan<T>(cmp: (T, T) -> int, v: T, s: seq<T>, p: nat, n: nat, lt: nat, i: nat, j: nat, gt: nat) {
    && 1 <= lt <= i <= j <= gt <= n && p + n <= |s| && s[p] == v
    && Zone(cmp, v, s, p, p + lt, 0) && Zone(cmp, v, s, p + lt, p + i, 1)
    && Zone(cmp, v, s, p + j, p + gt, -1) && Zone(cmp, v, s, p + gt, p + n, 0)
  }

  /** After the scan: smaller, equal, greater. */
  ghost predicate Three<T>(cmp: (T, T) -> int, v: T, s: seq<T>, p: nat, n: nat, lt: nat, gt: nat) {
    && lt < gt <= n && p + n <= |s|
    && Zone(cmp, v, s, p, p + lt, 1) && Zone(cmp, v, s, p + lt, p + gt, 0) && Zone(cmp, v, s, p + gt, p + n, -1)
  }

  /** Whichever it picks, it is one of the three. */
  method Med3<T(!new)>(a: array<T>, x: nat, y: nat, z: nat, cmp: (T, T) -> int) returns (m: nat)
    requires Preorder(cmp) && x < a.Length && y < a.Length && z < a.Length
    ensures m == x || m == y || m == z
    ensures Median(cmp, a[m], a[x], a[y], a[z])
  {
    m := if cmp(a[x], a[y]) < 0 then
           (if cmp(a[y], a[z]) < 0 then y else if cmp(a[x], a[z]) < 0 then z else x)
         else
           (if cmp(a[y], a[z]) > 0 then y else if cmp(a[x], a[z]) < 0 then x else z);
  }

  /** At least two of x, y, z are at most m and at least two are at least m. */
  ghost predicate Median<T>(cmp: (T, T) -> int, m: T, x: T, y: T, z: T) {
    && ((cmp(x, m) <= 0 && cmp(y, m) <= 0) || (cmp(x, m) <= 0 && cmp(z, m) <= 0) || (cmp(y, m) <= 0 && cmp(z, m) <= 0))
    && ((cmp(m, x) <= 0 && cmp(m, y) <= 0) || (cmp(m, x) <= 0 && cmp(m, z) <= 0) || (cmp(m, y) <= 0 && cmp(m, z) <= 0))
  }

  lemma LeftEqual<T>(cmp: (T, T) -> int, v: T, s: seq<T>, p: nat, n: nat, lt: nat, i: nat, j: nat, gt: nat)
    requires Scan(cmp, v, s, p, n, lt, i, j, gt) && i < j && cmp(v, s[p + i]) == 0
    ensures Scan(cmp, v, Swapped(s, p + lt, p + i), p, n, lt + 1, i + 1, j, gt)
  {
  }

  lemma LeftSmaller<T>(cmp: (T, T) -> int, v: T, s: seq<T>, p: nat, n: nat, lt: nat, i: nat, j: nat, gt: nat)
    requires Scan(cmp, v, s, p, n, lt, i, j, gt) && i < j && cmp(v, s[p + i]) > 0
    ensures Scan(cmp, v, s, p, n, lt, i + 1, j, gt)
  {
  }

  lemma RightEqual<T>(cmp: (T, T) -> int, v: T, s: seq<T>, p: nat, n: nat, lt: nat, i: nat, j: nat, gt: nat)
    requires Scan(cmp, v, s, p, n, lt, i, j + 1, gt) && i <= j && cmp(v, s[p + j]) == 0
    ensures Scan(cmp, v, Swapped(s, p + gt - 1, p + j), p, n, lt, i, j, gt - 1)
  {
  }

  lemma RightGreater<T>(cmp: (T, T) -> int, v: T, s: seq<T>, p: nat, n: nat, lt: nat, i: nat, j: nat, gt: nat)
    requires Scan(cmp, v, s, p, n, lt, i, j + 1, gt) && i <= j && cmp(v, s[p + j]) < 0
    ensures Scan(cmp, v, s, p, n, lt, i, j, gt)
  {
  }

  lemma CrossSwap<T>(cmp: (T, T) -> int, v: T, s: seq<T>, p: nat, n: nat, lt: nat, i: nat, j: nat, gt: nat)
    requires Scan(cmp, v, s, p, n, lt, i, j + 1, gt) && i < j && cmp(v, s[p + i]) < 0 && cmp(v, s[p + j]) > 0
    ensures Scan(cmp, v, Swapped(s, p + i, p + j), p, n, lt, i + 1, j, gt)
  {
  }

  lemma ScanBounds<T>(cmp: (T, T) -> int, v: T, s: seq<T>, p: nat, n: nat, lt: nat, i: nat, j: nat, gt: nat)
    requires Scan(cmp, v, s, p, n, lt, i, j, gt)
    ensures 1 <= lt <= i <= j <= gt <= n && p + n <= |s| && s[p] == v
  {
  }

  lemma ScanStart<T(!new)>(cmp: (T, T) -> int, s: seq<T>, p: nat, n: nat)
    requires Preorder(cmp) && 1 <= n && p + n <= |s|
    ensures Scan(cmp, s[p], s, p, n, 1, 1, n, n)
  {
    hide Preorder;
    Flip(cmp, s[p], s[p]);
  }

  /** Moves right over elements not greater than the pivot, collecting the equal ones at the left end. */
  method ScanLeft<T(!new)>(a: array<T>, p: nat, n: nat, lt0: nat, i0: nat, j: nat, gt: nat, cmp: (T, T) -> int,
                           ghost v: T)
    returns (lt: nat, i: nat)
    requires p + n <= a.Length && Scan(cmp, v, a[..], p, n, lt0, i0, j, gt)
    modifies a
    ensures Scan(cmp, v, a[..], p, n, lt, i, j, gt) && i0 <= i && (i < j ==> cmp(v, a[p + i]) < 0)
    ensures Shuffled(old(a[..]), a[..], p, p + n)
  {
    hide *;
    ghost var s := a[..];
    ShuffledRefl(s, p, p + n);
    lt, i := lt0, i0;
    ScanBounds(cmp, v, s, p, n, lt, i, j, gt);
    while i < j && cmp(a[p], a[p + i]) >= 0
      invariant i0 <= i <= j <= n && lt <= i && Scan(cmp, v, a[..], p, n, lt, i, j, gt) && Shuffled(s, a[..], p, p + n)
      invariant a[p] == v
    {
      ghost var t := a[..];
      if cmp(a[p], a[p + i]) == 0 {
        Swap(a, p + lt, p + i);
        LeftEqual(cmp, v, t, p, n, lt, i, j, gt);
        ShuffledThenSwap(s, t, p + lt, p + i, p, p + n);
        lt := lt + 1;
      } else {
        LeftSmaller(cmp, v, t, p, n, lt, i, j, gt);
      }
      i := i + 1;
      ScanBounds(cmp, v, a[..], p, n, lt, i, j, gt);
    }
  }

  /** Moves left over elements not smaller than the pivot, collecting the equal ones at the right end. */
  method ScanRight<T(!new)>(a: array<T>, p: nat, n: nat, lt: nat, i: nat, j0: nat, gt0: nat, cmp: (T, T) -> int,
                            ghost v: T)
    returns (j: int, gt: nat)
    requires p + n <= a.Length && Scan(cmp, v, a[..], p, n, lt, i, j0, gt0) && (i < j0 ==> cmp(v, a[p + i]) < 0)
    modifies a
    ensures i - 1 <= j < j0 && Scan(cmp, v, a[..], p, n, lt, i, j + 1, gt)
    ensures i <= j ==> cmp(v, a[p + i]) < 0
    ensures i < j ==> cmp(v, a[p + j]) > 0
    ensures Shuffled(old(a[..]), a[..], p, p + n)
  {
    hide *;
    ghost var s := a[..];
    ShuffledRefl(s, p, p + n);
    ScanBounds(cmp, v, s, p, n, lt, i, j0, gt0);
    j, gt := j0 - 1, gt0;
    while i < j && cmp(a[p], a[p + j]) <= 0
      invariant i - 1 <= j < j0 && j < gt <= n && 1 <= i && Scan(cmp, v, a[..], p, n, lt, i, j + 1, gt)
                && Shuffled(s, a[..], p, p + n)
      invariant a[p] == v && (i < j0 ==> cmp(v, a[p + i]) < 0)
      decreases j
    {
      ghost var t := a[..];
      if cmp(a[p], a[p + j]) == 0 {
        gt := gt - 1;
        Swap(a, p + gt, p + j);
        RightEqual(cmp, v, t, p, n, lt, i, j, gt + 1);
        ShuffledThenSwap(s, t, p + gt, p + j, p, p + n);
        Elsewhere(t, p + gt, p + j, p + i);
      } else {
        RightGreater(cmp, v, t, p, n, lt, i, j, gt);
      }
      j := j - 1;
      ScanBounds(cmp, v, a[..], p, n, lt, i, j + 1, gt);
    }
  }

  lemma Elsewhere<T>(s: seq<T>, i: nat, j: nat, k: nat)
    requires i < |s| && j < |s| && k < |s| && k != i && k != j
    ensures Swapped(s, i, j)[k] == s[k]
  {
  }

  /** Separates the elements by their comparison with the first. */
  method PartitionScan<T(!new)>(a: array<T>, p: nat, n: nat, cmp: (T, T) -> int, ghost v: T)
    returns (lt: nat, i: nat, gt: nat)
    requires Preorder(cmp) && 1 <= n && p + n <= a.Length && v == a[p]
    modifies a
    ensures Scan(cmp, v, a[..], p, n, lt, i, i, gt) && Shuffled(old(a[..]), a[..], p, p + n)
  {
    hide *;
    ghost var s := a[..];
    ShuffledRefl(s, p, p + n);
    ScanStart(cmp, s, p, n);
    lt, i, gt := 1, 1, n;
    var j := n;
    while true
      invariant 0 <= j <= n && Scan(cmp, v, a[..], p, n, lt, i, j, gt) && Shuffled(s, a[..], p, p + n)
      decreases j
    {
      ghost var t := a[..];
      lt, i := ScanLeft(a, p, n, lt, i, j, gt, cmp, v);
      ShuffledTrans(s, t, a[..], p, p + n);
      ghost var u := a[..];
      var j' := j;
      j', gt := ScanRight(a, p, n, lt, i, j, gt, cmp, v);
      ShuffledTrans(s, u, a[..], p, p + n);
      ghost var w := a[..];
      ScanBounds(cmp, v, w, p, n, lt, i, j' + 1, gt);
      if i >= j' {
        if i == j' { RightGreater(cmp, v, w, p, n, lt, i, i, gt); }
        return;
      }
      j := j';
      Swap(a, p + i, p + j);
      CrossSwap(cmp, v, w, p, n, lt, i, j, gt);
      ShuffledThenSwap(s, w, p + i, p + j, p, p + n);
      i := i + 1;
    }
  }

  /** t is s with the m elements from x on exchanged with those from y on. */
  ghost predicate BlockSwapped<T>(s: seq<T>, t: seq<T>, x: nat, y: nat, m: nat) {
    && x + m <= y && y + m <= |s| == |t|
    && forall k :: 0 <= k < |t| ==> t[k] == s[Partner(x, y, m, k)]
  }

  function Partner(x: nat, y: nat, m: nat, k: nat): (j: nat)
    requires x + m <= y
    ensures j < y + m || j == k
  {
    if x <= k < x + m then y + (k - x) else if y <= k < y + m then x + (k - y) else k
  }

  method SwapBlock<T>(a: array<T>, x: nat, y: nat, m: nat, ghost lo: nat, ghost hi: nat)
    requires lo <= x && x + m <= y && y + m <= hi <= a.Length
    modifies a
    ensures BlockSwapped(old(a[..]), a[..], x, y, m) && Shuffled(old(a[..]), a[..], lo, hi)
  {
    hide Shuffled, BlockSwapped, Swapped;
    ghost var s := a[..];
    ShuffledRefl(s, lo, hi);
    BlockStart(s, x, y);
    var k := 0;
    while k < m
      invariant 0 <= k <= m
      invariant BlockSwapped(s, a[..], x, y, k) && Shuffled(s, a[..], lo, hi)
    {
      ghost var t := a[..];
      Swap(a, x + k, y + k);
      BlockStep(s, t, x, y, k);
      ShuffledThenSwap(s, t, x + k, y + k, lo, hi);
      k := k + 1;
    }
  }

  lemma BlockStart<T>(s: seq<T>, x: nat, y: nat)
    requires x <= y <= |s|
    ensures BlockSwapped(s, s, x, y, 0)
  {
  }

  lemma BlockStep<T>(s: seq<T>, t: seq<T>, x: nat, y: nat, k: nat)
    requires BlockSwapped(s, t, x, y, k) && x + k < y && y + k < |s|
    ensures BlockSwapped(s, Swapped(t, x + k, y + k), x, y, k + 1)
  {
    var u := Swapped(t, x + k, y + k);
    assert t[x + k] == s[x + k] && t[y + k] == s[y + k];
    forall j | 0 <= j < |u| ensures u[j] == s[Partner(x, y, k + 1, j)] {
      assert j != x + k && j != y + k ==> u[j] == t[j];
    }
  }

  /** Exchanging the smaller of two neighbouring zones with the far end of the other exchanges the zones. */
  lemma ZonesSwapped<T>(cmp: (T, T) -> int, v: T, s: seq<T>, t: seq<T>, x: nat, m: nat, k: nat, g: int, h: int)
    requires Zone(cmp, v, s, x, x + m, g) && Zone(cmp, v, s, x + m, x + m + k, h)
    requires var span := if m > k then k else m; BlockSwapped(s, t, x, x + m + k - span, span)
    ensures Zone(cmp, v, t, x, x + k, h) && Zone(cmp, v, t, x + k, x + m + k, g)
  {
    var span := if m > k then k else m;
    forall j | x <= j < x + m + k ensures Sign(cmp(v, t[j])) == if j < x + k then h else g {
      assert t[j] == s[Partner(x, x + m + k - span, span, j)];
    }
  }

  lemma ZoneElsewhere<T>(cmp: (T, T) -> int, v: T, s: seq<T>, t: seq<T>, x: nat, y: nat, m: nat, lo: nat, hi: nat,
                         g: int)
    requires Zone(cmp, v, s, lo, hi, g) && BlockSwapped(s, t, x, y, m) && (hi <= x || y + m <= lo)
    ensures Zone(cmp, v, t, lo, hi, g)
  {
    forall j | lo <= j < hi ensures Sign(cmp(v, t[j])) == g {
      assert t[j] == s[j];
    }
  }

  /** Between the two moves: smaller, equal, greater, equal. */
  ghost predicate HalfGathered<T>(cmp: (T, T) -> int, v: T, s: seq<T>, p: nat, n: nat, lt: nat, i: nat, gt: nat) {
    && lt < i <= gt <= n && p + n <= |s|
    && Zone(cmp, v, s, p, p + lt, 1) && Zone(cmp, v, s, p + lt, p + i, 0)
    && Zone(cmp, v, s, p + i, p + gt, -1) && Zone(cmp, v, s, p + gt, p + n, 0)
  }

  /** Moves the pivot's equals from both ends to the middle. */
  method Gather<T(!new)>(a: array<T>, p: nat, n: nat, lt0: nat, i: nat, gt0: nat, cmp: (T, T) -> int, ghost v: T)
    returns (lt: nat, gt: nat)
    requires p + n <= a.Length && Scan(cmp, v, a[..], p, n, lt0, i, i, gt0)
    modifies a
    ensures Three(cmp, v, a[..], p, n, lt, gt) && Shuffled(old(a[..]), a[..], p, p + n)
  {
    hide Scan, HalfGathered, Three, BlockSwapped, Shuffled;
    ghost var s := a[..];
    ScanBounds(cmp, v, s, p, n, lt0, i, i, gt0);
    var span, span2 := lt0, i - lt0;
    lt := i - lt0;
    if span > span2 {
      span := span2;
    }
    SwapBlock(a, p, p + i - span, span, p, p + n);
    ghost var t := a[..];
    GatherLeft(cmp, v, s, t, p, n, lt0, i, gt0);
    span, span2 := n - gt0, gt0 - i;
    gt := n - (gt0 - i);
    if span > span2 {
      span := span2;
    }
    SwapBlock(a, p + i, p + n - span, span, p, p + n);
    ShuffledTrans(s, t, a[..], p, p + n);
    GatherRight(cmp, v, t, a[..], p, n, lt, i, gt0);
  }

  lemma GatherLeft<T>(cmp: (T, T) -> int, v: T, s: seq<T>, t: seq<T>, p: nat, n: nat, lt0: nat, i: nat, gt: nat)
    requires Scan(cmp, v, s, p, n, lt0, i, i, gt)
    requires var span := if lt0 > i - lt0 then i - lt0 else lt0; BlockSwapped(s, t, p, p + i - span, span)
    ensures HalfGathered(cmp, v, t, p, n, i - lt0, i, gt)
  {
    hide Zone, BlockSwapped;
    var span := if lt0 > i - lt0 then i - lt0 else lt0;
    ZonesSwapped(cmp, v, s, t, p, lt0, i - lt0, 0, 1);
    ZoneElsewhere(cmp, v, s, t, p, p + i - span, span, p + i, p + gt, -1);
    ZoneElsewhere(cmp, v, s, t, p, p + i - span, span, p + gt, p + n, 0);
    BlockLength(s, t, p, p + i - span, span);
  }

  lemma GatherRight<T>(cmp: (T, T) -> int, v: T, s: seq<T>, t: seq<T>, p: nat, n: nat, lt: nat, i: nat, gt0: nat)
    requires HalfGathered(cmp, v, s, p, n, lt, i, gt0)
    requires var span := if n - gt0 > gt0 - i then gt0 - i else n - gt0; BlockSwapped(s, t, p + i, p + n - span, span)
    ensures Three(cmp, v, t, p, n, lt, n - (gt0 - i))
  {
    hide Zone, BlockSwapped;
    var span := if n - gt0 > gt0 - i then gt0 - i else n - gt0;
    ZonesSwapped(cmp, v, s, t, p + i, gt0 - i, n - gt0, -1, 0);
    ZoneElsewhere(cmp, v, s, t, p + i, p + n - span, span, p, p + lt, 1);
    ZoneElsewhere(cmp, v, s, t, p + i, p + n - span, span, p + lt, p + i, 0);
    ZonesJoin(cmp, v, t, p + lt, p + i, p + (n - (gt0 - i)), 0);
    BlockLength(s, t, p + i, p + n - span, span);
  }

  lemma BlockLength<T>(s: seq<T>, t: seq<T>, x: nat, y: nat, m: nat)
    requires BlockSwapped(s, t, x, y, m)
    ensures |t| == |s|
  {
  }

  lemma ZonesJoin<T>(cmp: (T, T) -> int, v: T, s: seq<T>, x: nat, y: nat, z: nat, g: int)
    requires Zone(cmp, v, s, x, y, g) && Zone(cmp, v, s, y, z, g)
    ensures Zone(cmp, v, s, x, z, g)
  {
  }

  /** Chooses a pivot and splits the n elements from p on into smaller, equal and greater ones. */
  method Partition<T(!new)>(a: array<T>, p: nat, n: nat, cmp: (T, T) -> int) returns (lt: nat, gt: nat, ghost v: T)
    requires Preorder(cmp) && n > 6 && p + n <= a.Length
    modifies a
    ensures Three(cmp, v, a[..], p, n, lt, gt) && Shuffled(old(a[..]), a[..], p, p + n)
  {
    hide *;
    ghost var s := a[..];
    var m4 := n / 4;
    var m := Med3(a, p + m4, p + 2 * m4, p + 3 * m4, cmp);
    Swap(a, p, m);
    ShuffledSwap(s, p, m, p, p + n);
    v := a[p];
    ghost var t := a[..];
    var i;
    lt, i, gt := PartitionScan(a, p, n, cmp, v);
    ShuffledTrans(s, t, a[..], p, p + n);
    ghost var u := a[..];
    lt, gt := Gather(a, p, n, lt, i, gt, cmp, v);
    ShuffledTrans(s, u, a[..], p, p + n);
  }

  method InsertionSort<T(!new)>(a: array<T>, p: nat, n: nat, cmp: (T, T) -> int)
    requires Preorder(cmp) && p + n <= a.Length
    modifies a
    ensures Sorted(cmp, a[..], p, p + n) && Shuffled(old(a[..]), a[..], p, p + n)
  {
    hide Preorder, Sorted, Shuffled, Swapped, AllButOne;
    ghost var s := a[..];
    ShuffledRefl(s, p, p + n);
    SortedShort(cmp, s, p, if n > 0 then 1 else 0);
    var i := 1;
    while i < n
      invariant 1 <= i && (n > 0 ==> i <= n)
      invariant Shuffled(s, a[..], p, p + n)
      invariant n > 0 ==> Sorted(cmp, a[..], p, p + i)
      invariant n == 0 ==> Sorted(cmp, a[..], p, p)
    {
      var j := i;
      OneUnsorted(cmp, a[..], p, i);
      while j > 0 && cmp(a[p + j - 1], a[p + j]) > 0
        invariant 0 <= j <= i < n
        invariant Shuffled(s, a[..], p, p + n) && AllButOne(cmp, a[..], p, i, j)
      {
        ghost var t := a[..];
        Swap(a, p + j, p + j - 1);
        SinkOne(cmp, t, p, i, j);
        ShuffledThenSwap(s, t, p + j, p + j - 1, p, p + n);
        j := j - 1;
      }
      Sunk(cmp, a[..], p, i, j);
      i := i + 1;
    }
  }

  /** The elements up to the i-th are sorted but for the j-th, which is smaller than all after it. */
  ghost predicate AllButOne<T>(cmp: (T, T) -> int, s: seq<T>, p: nat, i: nat, j: nat)
    requires j <= i && p + i < |s|
  {
    forall x, y :: p <= x < y <= p + i && (y != p + j) ==> cmp(s[x], s[y]) <= 0
  }

  lemma OneUnsorted<T>(cmp: (T, T) -> int, s: seq<T>, p: nat, i: nat)
    requires p + i < |s| && Sorted(cmp, s, p, p + i)
    ensures AllButOne(cmp, s, p, i, i)
  {
  }

  lemma SinkOne<T(!new)>(cmp: (T, T) -> int, s: seq<T>, p: nat, i: nat, j: nat)
    requires Preorder(cmp) && 0 < j <= i && p + i < |s| && AllButOne(cmp, s, p, i, j) && cmp(s[p + j - 1], s[p + j]) > 0
    ensures AllButOne(cmp, Swapped(s, p + j, p + j - 1), p, i, j - 1)
  {
    hide Preorder;
    Flip(cmp, s[p + j - 1], s[p + j]);
  }

  lemma Sunk<T(!new)>(cmp: (T, T) -> int, s: seq<T>, p: nat, i: nat, j: nat)
    requires Preorder(cmp) && j <= i && p + i < |s| && AllButOne(cmp, s, p, i, j)
             && (j > 0 ==> cmp(s[p + j - 1], s[p + j]) <= 0)
    ensures Sorted(cmp, s, p, p + i + 1)
  {
    hide Preorder;
    forall x | p <= x < p + j ensures cmp(s[x], s[p + j]) <= 0 {
      if x < p + j - 1 { LeTrans(cmp, s[x], s[p + j - 1], s[p + j]); }
    }
  }

  // The stack of pending segments

  datatype Segment = Segment(base: nat, count: nat, depth: nat)

  predicate Holds(e: Segment, i: nat, j: nat) {
    e.base <= i && j < e.base + e.count
  }

  /** Pending segments lie within the array and do not overlap. */
  ghost predicate Apart(segs: seq<Segment>, lo: nat, hi: nat) {
    && (forall x :: 0 <= x < |segs| ==> lo <= segs[x].base && segs[x].base + segs[x].count <= hi)
    && (forall x, y :: 0 <= x < y < |segs| ==>
          segs[x].base + segs[x].count <= segs[y].base || segs[y].base + segs[y].count <= segs[x].base)
  }

  /** Two elements are in order, unless one pending segment holds both. */
  ghost predicate Settled<T>(cmp: (T, T) -> int, s: seq<T>, lo: nat, hi: nat, segs: seq<Segment>) {
    lo <= hi <= |s| && forall i, j :: lo <= i < j < hi ==> cmp(s[i], s[j]) <= 0 || Pending(segs, i, j)
  }

  ghost predicate Pending(segs: seq<Segment>, i: nat, j: nat) {
    exists x :: 0 <= x < |segs| && Holds(segs[x], i, j)
  }

  /** An entry of depth d >= 1 sits at an index of at most d - 1. */
  ghost predicate Shallow(segs: seq<Segment>) {
    forall x :: 0 <= x < |segs| ==> segs[x].depth <= 50 && (x == 0 || x < segs[x].depth)
  }

  function Weight(segs: seq<Segment>): nat {
    if segs == [] then 0 else Weight(segs[..|segs| - 1]) + segs[|segs| - 1].count + 1
  }

  lemma WeightSnoc(segs: seq<Segment>, e: Segment)
    ensures Weight(segs + [e]) == Weight(segs) + e.count + 1
  {
    assert (segs + [e])[..|segs|] == segs;
  }

  lemma PendingSnoc(segs: seq<Segment>, e: Segment, i: nat, j: nat)
    ensures Pending(segs + [e], i, j) <==> Pending(segs, i, j) || Holds(e, i, j)
  {
    if Holds(e, i, j) { assert Holds((segs + [e])[|segs|], i, j); }
    if Pending(segs, i, j) {
      var x :| 0 <= x < |segs| && Holds(segs[x], i, j);
      assert Holds((segs + [e])[x], i, j);
    }
  }

  lemma ApartSnoc(segs: seq<Segment>, e: Segment, lo: nat, hi: nat)
    ensures Apart(segs + [e], lo, hi) <==>
            && Apart(segs, lo, hi) && lo <= e.base && e.base + e.count <= hi
            && forall x :: 0 <= x < |segs| ==>
                 segs[x].base + segs[x].count <= e.base || e.base + e.count <= segs[x].base
  {
    var all := segs + [e];
    assert all[|segs|] == e;
    assert forall x :: 0 <= x < |segs| ==> all[x] == segs[x];
  }

  /** Elements of different pending segments, or of one and of none, are in order. */
  lemma OutsideOrder<T>(cmp: (T, T) -> int, s: seq<T>, lo: nat, hi: nat, segs: seq<Segment>, e: Segment, i: nat, j: nat)
    requires Settled(cmp, s, lo, hi, segs + [e]) && Apart(segs + [e], lo, hi) && lo <= i < j < hi
    requires e.base <= i < e.base + e.count <= j || i < e.base <= j < e.base + e.count
    ensures cmp(s[i], s[j]) <= 0
  {
    ApartSnoc(segs, e, lo, hi);
    assert forall x :: 0 <= x < |segs| ==> !Holds(segs[x], i, j);
    PendingSnoc(segs, e, i, j);
  }

  /** Reordering a pending segment changes nothing for elements outside it. */
  lemma StillSettled<T>(cmp: (T, T) -> int, s: seq<T>, t: seq<T>, lo: nat, hi: nat, segs: seq<Segment>, e: Segment,
                        i: nat, j: nat)
    requires Settled(cmp, s, lo, hi, segs + [e]) && Apart(segs + [e], lo, hi) && lo <= i < j < hi
    requires Shuffled(s, t, e.base, e.base + e.count) && !Holds(e, i, j)
    ensures |t| == |s| && (cmp(t[i], t[j]) <= 0 || Pending(segs, i, j))
  {
    hide Shuffled, Settled, Apart, Pending;
    var b, c := e.base, e.base + e.count;
    ShuffledLength(s, t, b, c);
    ApartIn(segs, e, lo, hi);
    SettledAt(cmp, s, lo, hi, segs + [e], i, j);
    if b <= i < c {
      var m := ShuffledFrom(s, t, b, c, i);
      ShuffledOutside(s, t, b, c, j);
      OutsideOrder(cmp, s, lo, hi, segs, e, m, j);
    } else if b <= j < c {
      var m := ShuffledFrom(s, t, b, c, j);
      ShuffledOutside(s, t, b, c, i);
      OutsideOrder(cmp, s, lo, hi, segs, e, i, m);
    } else {
      ShuffledOutside(s, t, b, c, i);
      ShuffledOutside(s, t, b, c, j);
      PendingSnoc(segs, e, i, j);
    }
  }

  lemma ApartIn(segs: seq<Segment>, e: Segment, lo: nat, hi: nat)
    requires Apart(segs + [e], lo, hi)
    ensures lo <= e.base && e.base + e.count <= hi
  {
    ApartSnoc(segs, e, lo, hi);
  }

  lemma SettledAt<T>(cmp: (T, T) -> int, s: seq<T>, lo: nat, hi: nat, segs: seq<Segment>, i: nat, j: nat)
    requires Settled(cmp, s, lo, hi, segs) && lo <= i < j < hi
    ensures hi <= |s| && (cmp(s[i], s[j]) <= 0 || Pending(segs, i, j))
  {
  }

  /** A segment that got sorted is no longer pending. */
  lemma SegmentSorted<T>(cmp: (T, T) -> int, s: seq<T>, t: seq<T>, lo: nat, hi: nat, segs: seq<Segment>, e: Segment)
    requires Settled(cmp, s, lo, hi, segs + [e]) && Apart(segs + [e], lo, hi)
    requires Shuffled(s, t, e.base, e.base + e.count) && e.base + e.count <= |t|
             && Sorted(cmp, t, e.base, e.base + e.count)
    ensures Settled(cmp, t, lo, hi, segs) && Apart(segs, lo, hi)
  {
    hide Shuffled, Apart, Pending;
    ShuffledLength(s, t, e.base, e.base + e.count);
    ApartLess(segs, e, lo, hi);
    forall i, j | lo <= i < j < hi ensures cmp(t[i], t[j]) <= 0 || Pending(segs, i, j) {
      if !Holds(e, i, j) {
        StillSettled(cmp, s, t, lo, hi, segs, e, i, j);
      }
    }
  }

  lemma ApartLess(segs: seq<Segment>, e: Segment, lo: nat, hi: nat)
    requires Apart(segs + [e], lo, hi)
    ensures Apart(segs, lo, hi)
  {
    ApartSnoc(segs, e, lo, hi);
  }

  /** Within a partitioned segment, only elements of its first or of its last part may be out of order. */
  lemma ThreeOrder<T(!new)>(cmp: (T, T) -> int, v: T, s: seq<T>, p: nat, n: nat, lt: nat, gt: nat, i: nat, j: nat)
    requires Preorder(cmp) && Three(cmp, v, s, p, n, lt, gt) && p <= i < j < p + n
    ensures cmp(s[i], s[j]) <= 0 || j < p + lt || p + gt <= i
  {
    hide Preorder;
    Flip(cmp, v, s[i]);
    Flip(cmp, v, s[j]);
    if i < p + gt && p + lt <= j {
      ThreeSides(cmp, v, s, p, n, lt, gt, i, j);
      LeTrans(cmp, s[i], v, s[j]);
    }
  }

  lemma ThreeSides<T>(cmp: (T, T) -> int, v: T, s: seq<T>, p: nat, n: nat, lt: nat, gt: nat, i: nat, j: nat)
    requires Three(cmp, v, s, p, n, lt, gt) && p <= i < p + gt && p + lt <= j < p + n
    ensures cmp(v, s[i]) >= 0 && cmp(v, s[j]) <= 0
  {
    assert Sign(cmp(v, s[i])) == if i < p + lt then 1 else 0;
    assert Sign(cmp(v, s[j])) == if j < p + gt then 0 else -1;
  }

  /** After partitioning, its first and last part are pending instead of the segment. */
  lemma SegmentSplit<T(!new)>(cmp: (T, T) -> int, v: T, s: seq<T>, t: seq<T>, lo: nat, hi: nat, segs: seq<Segment>,
                              e: Segment,
                              lt: nat, gt: nat, x: Segment, y: Segment)
    requires Preorder(cmp) && Settled(cmp, s, lo, hi, segs + [e]) && Apart(segs + [e], lo, hi)
    requires Shuffled(s, t, e.base, e.base + e.count) && Three(cmp, v, t, e.base, e.count, lt, gt)
    requires Parts(e, lt, gt, x, y) || Parts(e, lt, gt, y, x)
    ensures Settled(cmp, t, lo, hi, segs + [x] + [y]) && Apart(segs + [x] + [y], lo, hi)
  {
    hide Preorder, Shuffled, Apart, Pending, Three;
    ThreeBounds(cmp, v, t, e.base, e.count, lt, gt);
    ShuffledLength(s, t, e.base, e.base + e.count);
    ApartSplit(segs, e, lo, hi, lt, gt, x, y);
    forall i, j | lo <= i < j < hi ensures cmp(t[i], t[j]) <= 0 || Pending(segs + [x] + [y], i, j) {
      PendingSnoc(segs, x, i, j);
      PendingSnoc(segs + [x], y, i, j);
      if Holds(e, i, j) {
        ThreeOrder(cmp, v, t, e.base, e.count, lt, gt, i, j);
      } else {
        StillSettled(cmp, s, t, lo, hi, segs, e, i, j);
      }
    }
  }

  lemma ThreeBounds<T>(cmp: (T, T) -> int, v: T, s: seq<T>, p: nat, n: nat, lt: nat, gt: nat)
    requires Three(cmp, v, s, p, n, lt, gt)
    ensures lt < gt <= n && p + n <= |s|
  {
  }

  predicate Parts(e: Segment, lt: nat, gt: nat, x: Segment, y: Segment) {
    x.base == e.base && x.count == lt && y.base == e.base + gt && gt <= e.count && y.count == e.count - gt
  }

  lemma ApartSplit(segs: seq<Segment>, e: Segment, lo: nat, hi: nat, lt: nat, gt: nat, x: Segment, y: Segment)
    requires Apart(segs + [e], lo, hi) && lt < gt <= e.count && (Parts(e, lt, gt, x, y) || Parts(e, lt, gt, y, x))
    ensures Apart(segs + [x] + [y], lo, hi)
  {
    hide Apart;
    ApartSnoc(segs, e, lo, hi);
    ApartSnoc(segs, x, lo, hi);
    ApartSnoc(segs + [x], y, lo, hi);
  }

  lemma ShallowSnoc(segs: seq<Segment>, e: Segment)
    requires Shallow(segs) && e.depth <= 50 && (|segs| == 0 || |segs| < e.depth)
    ensures Shallow(segs + [e])
  {
  }

  /** The sort's invariant: the segments on the stack, and the one in hand, are all that is left to do. */
  ghost predicate Left<T>(cmp: (T, T) -> int, s: seq<T>, lo: nat, hi: nat, segs: seq<Segment>, e: Segment) {
    Settled(cmp, s, lo, hi, segs + [e]) && Apart(segs + [e], lo, hi) && Shallow(segs) && |segs| <= e.depth <= 50
  }

  lemma LeftStart<T>(cmp: (T, T) -> int, s: seq<T>, lo: nat, hi: nat)
    requires lo <= hi <= |s|
    ensures var segs := [Segment(lo, hi - lo, 0)];
            Settled(cmp, s, lo, hi, segs) && Apart(segs, lo, hi) && Shallow(segs)
  {
    hide Pending;
    var e := Segment(lo, hi - lo, 0);
    assert [] + [e] == [e];
    forall i, j | lo <= i < j < hi ensures Pending([e], i, j) {
      PendingSnoc([], e, i, j);
    }
  }

  lemma LeftPop<T>(cmp: (T, T) -> int, s: seq<T>, lo: nat, hi: nat, segs: seq<Segment>, e: Segment)
    requires Settled(cmp, s, lo, hi, segs + [e]) && Apart(segs + [e], lo, hi) && Shallow(segs + [e])
    ensures Left(cmp, s, lo, hi, segs, e)
  {
    assert (segs + [e])[|segs|] == e;
    assert forall x :: 0 <= x < |segs| ==> (segs + [e])[x] == segs[x];
  }

  lemma LeftBounds<T>(cmp: (T, T) -> int, s: seq<T>, lo: nat, hi: nat, segs: seq<Segment>, e: Segment)
    requires Left(cmp, s, lo, hi, segs, e)
    ensures lo <= e.base && e.base + e.count <= hi <= |s| && |segs| <= e.depth <= 50
  {
    ApartIn(segs, e, lo, hi);
  }

  lemma LeftSorted<T>(cmp: (T, T) -> int, s: seq<T>, t: seq<T>, lo: nat, hi: nat, segs: seq<Segment>, e: Segment)
    requires Left(cmp, s, lo, hi, segs, e) && Shuffled(s, t, e.base, e.base + e.count)
    requires e.base + e.count <= |t| && Sorted(cmp, t, e.base, e.base + e.count)
    ensures Settled(cmp, t, lo, hi, segs) && Apart(segs, lo, hi) && Shallow(segs)
  {
    SegmentSorted(cmp, s, t, lo, hi, segs, e);
  }

  /** After the heapsort, an empty segment is left in hand. */
  lemma LeftEmpty<T>(cmp: (T, T) -> int, s: seq<T>, lo: nat, hi: nat, segs: seq<Segment>, e: Segment)
    requires Settled(cmp, s, lo, hi, segs) && Apart(segs, lo, hi) && Shallow(segs) && |segs| <= e.depth <= 50
    requires e.count == 0 && lo <= e.base <= hi
    requires forall x :: 0 <= x < |segs| ==> segs[x].base + segs[x].count <= e.base || e.base <= segs[x].base
    ensures Left(cmp, s, lo, hi, segs, e)
  {
    hide Pending, Apart, Shallow;
    ApartSnoc(segs, e, lo, hi);
    forall i, j | lo <= i < j < hi ensures cmp(s[i], s[j]) <= 0 || Pending(segs + [e], i, j) {
      PendingSnoc(segs, e, i, j);
    }
  }

  lemma LeftSplit<T(!new)>(cmp: (T, T) -> int, v: T, s: seq<T>, t: seq<T>, lo: nat, hi: nat, segs: seq<Segment>,
                           e: Segment,
                           lt: nat, gt: nat, x: Segment, y: Segment)
    requires Preorder(cmp) && Left(cmp, s, lo, hi, segs, e) && e.depth < 50 && x.depth == y.depth == e.depth + 1
    requires Shuffled(s, t, e.base, e.base + e.count) && Three(cmp, v, t, e.base, e.count, lt, gt)
    requires Parts(e, lt, gt, x, y) || Parts(e, lt, gt, y, x)
    ensures Left(cmp, t, lo, hi, segs + [x], y) && Weight(segs + [x]) + y.count <= Weight(segs) + e.count
  {
    hide Preorder, Shuffled, Three, Settled, Apart, Weight, Shallow;
    ThreeBounds(cmp, v, t, e.base, e.count, lt, gt);
    SegmentSplit(cmp, v, s, t, lo, hi, segs, e, lt, gt, x, y);
    ShallowSnoc(segs, x);
    WeightSnoc(segs, x);
  }

  lemma ApartAround(segs: seq<Segment>, e: Segment, lo: nat, hi: nat)
    requires Apart(segs + [e], lo, hi)
    ensures forall x :: 0 <= x < |segs| ==> segs[x].base + segs[x].count <= e.base || e.base <= segs[x].base
  {
    ApartSnoc(segs, e, lo, hi);
  }

  /** The whole range is sorted once nothing is pending. */
  lemma NothingPending<T>(cmp: (T, T) -> int, s: seq<T>, lo: nat, hi: nat)
    requires Settled(cmp, s, lo, hi, [])
    ensures Sorted(cmp, s, lo, hi)
  {
    forall i, j | lo <= i < j < hi ensures cmp(s[i], s[j]) <= 0 {
      SettledAt(cmp, s, lo, hi, [], i, j);
    }
  }

  /** Splits the segment in hand until it is short, stacking the larger part each time; too deep a one is heapsorted. */
  method Split<T(!new)>(a: array<T>, stack: array<Segment>, sp0: nat, e: Segment, ghost lo: nat, ghost hi: nat,
                        cmp: (T, T) -> int)
    returns (sp: nat, rest: Segment)
    requires Preorder(cmp) && (a as object) != stack && stack.Length == 50 && sp0 <= 50 && hi <= a.Length
    requires Left(cmp, a[..], lo, hi, stack[..sp0], e)
    modifies a, stack
    ensures sp <= 50 && Left(cmp, a[..], lo, hi, stack[..sp], rest) && Shuffled(old(a[..]), a[..], lo, hi)
    ensures Weight(stack[..sp]) + rest.count <= Weight(old(stack[..sp0])) + e.count
  {
    hide *;
    ghost var s, w := a[..], Weight(stack[..sp0]) + e.count;
    LeftBounds(cmp, s, lo, hi, stack[..sp0], e);
    ShuffledRefl(s, lo, hi);
    var ptr: nat, nmemb: nat, depth: nat := e.base, e.count, e.depth;
    sp, rest := sp0, e;
    while nmemb > 6
      invariant 0 <= sp <= depth <= 50 && lo <= ptr && ptr + nmemb <= hi && rest == Segment(ptr, nmemb, depth)
      invariant Left(cmp, a[..], lo, hi, stack[..sp], rest) && Shuffled(s, a[..], lo, hi)
      invariant Weight(stack[..sp]) + nmemb <= w
      decreases nmemb
    {
      ghost var segs, t, before := stack[..sp], a[..], rest;
      depth := depth + 1;
      if depth > 50 {
        Heapsortx(a, ptr, nmemb, cmp);
        HeapsortedLeft(cmp, t, a[..], lo, hi, segs, before);
        ShuffledWiden(t, a[..], ptr, ptr + nmemb, lo, hi);
        ShuffledTrans(s, t, a[..], lo, hi);
        rest := Segment(ptr, 0, 50);
        return;
      }
      var lt, gt; ghost var v;
      lt, gt, v := Partition(a, ptr, nmemb, cmp);
      ThreeBounds(cmp, v, a[..], ptr, nmemb, lt, gt);
      ShuffledWiden(t, a[..], ptr, ptr + nmemb, lo, hi);
      ShuffledTrans(s, t, a[..], lo, hi);
      ghost var u := a[..];
      var low, high := Segment(ptr, lt, depth), Segment(ptr + gt, nmemb - gt, depth);
      PartsAre(before, lt, gt, depth);
      if lt > nmemb - gt {
        stack[sp] := low;
        assert stack[..sp + 1] == segs + [low];
        LeftSplit(cmp, v, t, u, lo, hi, segs, before, lt, gt, low, high);
        rest := high;
        ptr, nmemb := ptr + gt, nmemb - gt;
      } else {
        stack[sp] := high;
        assert stack[..sp + 1] == segs + [high];
        LeftSplit(cmp, v, t, u, lo, hi, segs, before, lt, gt, high, low);
        rest := low;
        nmemb := lt;
      }
      sp := sp + 1;
    }
  }

  lemma PartsAre(e: Segment, lt: nat, gt: nat, depth: nat)
    requires lt < gt <= e.count
    ensures Parts(e, lt, gt, Segment(e.base, lt, depth), Segment(e.base + gt, e.count - gt, depth))
  {
  }

  lemma HeapsortedLeft<T>(cmp: (T, T) -> int, s: seq<T>, t: seq<T>, lo: nat, hi: nat, segs: seq<Segment>, e: Segment)
    requires Left(cmp, s, lo, hi, segs, e) && Shuffled(s, t, e.base, e.base + e.count)
    requires e.base + e.count <= |t| && Sorted(cmp, t, e.base, e.base + e.count)
    ensures Left(cmp, t, lo, hi, segs, Segment(e.base, 0, 50))
  {
    hide Shuffled, Settled, Apart, Shallow, Sorted;
    LeftBounds(cmp, s, lo, hi, segs, e);
    LeftSorted(cmp, s, t, lo, hi, segs, e);
    ApartAround(segs, e, lo, hi);
    LeftEmpty(cmp, t, lo, hi, segs, Segment(e.base, 0, 50));
  }

  /** Sorts nmemb elements from base on, with room for 50 pending segments. */
  method Rqsort<T(!new)>(a: array<T>, base: nat, nmemb: nat, cmp: (T, T) -> int)
    requires Preorder(cmp) && base + nmemb <= a.Length
    modifies a
    ensures Sorted(cmp, a[..], base, base + nmemb) && Shuffled(old(a[..]), a[..], base, base + nmemb)
  {
    hide *;
    ghost var s, end := a[..], base + nmemb;
    ShuffledRefl(s, base, end);
    SortedShort(cmp, s, base, nmemb);
    if nmemb < 2 {
      return;
    }
    var stack := new Segment[50];
    stack[0] := Segment(base, nmemb, 0);
    var sp := 1;
    assert stack[..sp] == [Segment(base, end - base, 0)];
    LeftStart(cmp, s, base, end);
    while sp > 0
      invariant 0 <= sp <= 50
      invariant Settled(cmp, a[..], base, end, stack[..sp]) && Apart(stack[..sp], base, end) && Shallow(stack[..sp])
      invariant Shuffled(s, a[..], base, end)
      decreases Weight(stack[..sp])
    {
      sp := sp - 1;
      var cur := stack[sp];
      ghost var segs, t := stack[..sp], a[..];
      assert stack[..sp + 1] == segs + [cur];
      LeftPop(cmp, t, base, end, segs, cur);
      WeightSnoc(segs, cur);
      sp, cur := Split(a, stack, sp, cur, base, end, cmp);
      ShuffledTrans(s, t, a[..], base, end);
      ghost var u := a[..];
      LeftBounds(cmp, u, base, end, stack[..sp], cur);
      InsertionSort(a, cur.base, cur.count, cmp);
      LeftSorted(cmp, u, a[..], base, end, stack[..sp], cur);
      ShuffledWiden(u, a[..], cur.base, cur.base + cur.count, base, end);
      ShuffledTrans(s, u, a[..], base, end);
    }
    assert stack[..sp] == [];
    NothingPending(cmp, a[..], base, end);
  }
}
