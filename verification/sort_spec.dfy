/** Sortedness and permutation of array segments, for any comparison function that is a total preorder. */
module SortSpec {

  /** The comparison answers a negative, zero or positive number; zero does not mean the elements are the same. */
  ghost predicate Preorder<T(!new)>(cmp: (T, T) -> int) {
    && (forall x, y :: cmp(x, y) < 0 <==> cmp(y, x) > 0)
    && (forall x, y, z :: cmp(x, y) <= 0 && cmp(y, z) <= 0 ==> cmp(x, z) <= 0)
  }

  lemma LeTrans<T(!new)>(cmp: (T, T) -> int, x: T, y: T, z: T)
    requires Preorder(cmp) && cmp(x, y) <= 0 && cmp(y, z) <= 0
    ensures cmp(x, z) <= 0
  {
  }

  lemma Flip<T(!new)>(cmp: (T, T) -> int, x: T, y: T)
    requires Preorder(cmp)
    ensures cmp(x, y) < 0 <==> cmp(y, x) > 0
    ensures cmp(x, y) > 0 <==> cmp(y, x) < 0
    ensures cmp(x, y) == 0 <==> cmp(y, x) == 0
    ensures cmp(x, x) == 0
  {
  }

  ghost predicate Sorted<T>(cmp: (T, T) -> int, s: seq<T>, lo: nat, hi: nat)
    requires lo <= hi <= |s|
  {
    forall i, j :: lo <= i < j < hi ==> cmp(s[i], s[j]) <= 0
  }

  /** t is s with the elements of [lo, hi) in another order. */
  ghost predicate Shuffled<T>(s: seq<T>, t: seq<T>, lo: nat, hi: nat) {
    && lo <= hi <= |s| == |t|
    && s[..lo] == t[..lo] && s[hi..] == t[hi..]
    && multiset(s[lo..hi]) == multiset(t[lo..hi])
  }

  function Swapped<T>(s: seq<T>, i: nat, j: nat): seq<T>
    requires i < |s| && j < |s|
  {
    s[i := s[j]][j := s[i]]
  }

  lemma ShuffledRefl<T>(s: seq<T>, lo: nat, hi: nat)
    requires lo <= hi <= |s|
    ensures Shuffled(s, s, lo, hi)
  {
  }

  lemma ShuffledTrans<T>(s: seq<T>, t: seq<T>, u: seq<T>, lo: nat, hi: nat)
    requires Shuffled(s, t, lo, hi) && Shuffled(t, u, lo, hi)
    ensures Shuffled(s, u, lo, hi)
  {
  }

  lemma ShuffledSwap<T>(s: seq<T>, i: nat, j: nat, lo: nat, hi: nat)
    requires lo <= i < hi <= |s| && lo <= j < hi
    ensures Shuffled(s, Swapped(s, i, j), lo, hi)
  {
    var t, u := Swapped(s, i, j), s[lo..hi];
    assert t[lo..hi] == u[i - lo := u[j - lo]][j - lo := u[i - lo]];
  }

  /** One more swap at the end of a shuffle. */
  lemma ShuffledThenSwap<T>(s: seq<T>, t: seq<T>, i: nat, j: nat, lo: nat, hi: nat)
    requires Shuffled(s, t, lo, hi) && lo <= i < hi && lo <= j < hi
    ensures Shuffled(s, Swapped(t, i, j), lo, hi)
  {
    hide Shuffled, Swapped;
    ShuffledLength(s, t, lo, hi);
    ShuffledSwap(t, i, j, lo, hi);
    ShuffledTrans(s, t, Swapped(t, i, j), lo, hi);
  }

  lemma ShuffledLength<T>(s: seq<T>, t: seq<T>, lo: nat, hi: nat)
    requires Shuffled(s, t, lo, hi)
    ensures lo <= hi <= |s| == |t|
  {
  }

  lemma ShuffledOutside<T>(s: seq<T>, t: seq<T>, lo: nat, hi: nat, k: nat)
    requires Shuffled(s, t, lo, hi) && k < |s| && !(lo <= k < hi)
    ensures k < |t| && s[k] == t[k]
  {
    if k < lo {
      assert s[..lo][k] == t[..lo][k];
    } else {
      assert s[hi..][k - hi] == t[hi..][k - hi];
    }
  }

  lemma ShuffledFrom<T>(s: seq<T>, t: seq<T>, lo: nat, hi: nat, k: nat) returns (m: nat)
    requires Shuffled(s, t, lo, hi) && lo <= k < hi
    ensures lo <= m < hi && s[m] == t[k]
  {
    assert t[lo..hi][k - lo] == t[k];
    assert t[k] in multiset(t[lo..hi]);
    assert t[k] in s[lo..hi];
    var j :| 0 <= j < hi - lo && s[lo..hi][j] == t[k];
    m := lo + j;
  }

  lemma ShuffledWiden<T>(s: seq<T>, t: seq<T>, lo: nat, hi: nat, lo': nat, hi': nat)
    requires Shuffled(s, t, lo, hi) && lo' <= lo && hi <= hi' <= |s|
    ensures Shuffled(s, t, lo', hi')
  {
    SplitThree(s, lo', lo, hi, hi');
    SplitThree(t, lo', lo, hi, hi');
    assert s[lo'..lo] == s[..lo][lo'..] && t[lo'..lo] == t[..lo][lo'..];
    assert s[hi..hi'] == s[hi..][..hi' - hi] && t[hi..hi'] == t[hi..][..hi' - hi];
    assert s[..lo'] == s[..lo][..lo'] && t[..lo'] == t[..lo][..lo'];
    assert s[hi'..] == s[hi..][hi' - hi..] && t[hi'..] == t[hi..][hi' - hi..];
  }

  lemma SplitThree<T>(s: seq<T>, a: nat, b: nat, c: nat, d: nat)
    requires a <= b <= c <= d <= |s|
    ensures multiset(s[a..d]) == multiset(s[a..b]) + multiset(s[b..c]) + multiset(s[c..d])
  {
    assert s[a..d] == s[a..b] + s[b..c] + s[c..d];
  }

  method Swap<T>(a: array<T>, i: nat, j: nat)
    requires i < a.Length && j < a.Length
    modifies a
    ensures a[..] == Swapped(old(a[..]), i, j)
  {
    a[i], a[j] := a[j], a[i];
  }
}
