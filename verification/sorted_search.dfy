/** The sorted-sequence search that both cores delegate to helpers outside
    this model: the trie's child lookup (through a three-way comparator)
    and flat_map's key lookup. The search is specified abstractly: it
    yields the lower-bound position of the key and whether the key sits there. */
module SortedSearch {

  /** Non-decreasing order. */
  ghost predicate Sorted(s: seq<int>) {
    forall i, j | 0 <= i < j < |s| :: s[i] <= s[j]
  }

  /** Strictly ascending order: sorted and free of duplicates. */
  ghost predicate StrictlySorted(s: seq<int>) {
    forall i, j | 0 <= i < j < |s| :: s[i] < s[j]
  }

  /** The reference lower bound: the index of the first element not less than
      `k`, or `|s|` when every element is less than `k`. */
  function LowerBound(s: seq<int>, k: int): (r: nat)
    ensures r <= |s|
    ensures forall i | 0 <= i < r :: s[i] < k
    ensures r < |s| ==> k <= s[r]
    ensures Sorted(s) ==> forall i | r <= i < |s| :: k <= s[i]
  {
    if |s| == 0 || k <= s[0] then 0 else 1 + LowerBound(s[1..], k)
  }

  /** A lower-bound position together with whether the key was found there. */
  datatype PosFound = PosFound(pos: nat, found: bool)

  /** The search both cores use: the lower-bound position of `k`, and whether
      the element at that position equals `k`. On a sorted sequence, found
      holds exactly when `k` occurs in `s`. */
  function Search(s: seq<int>, k: int): (r: PosFound)
    ensures r.pos <= |s|
    ensures forall i | 0 <= i < r.pos :: s[i] < k
    ensures r.found ==> r.pos < |s| && s[r.pos] == k
    ensures Sorted(s) ==> (r.found <==> k in s)
    ensures Sorted(s) && !r.found ==> forall i | r.pos <= i < |s| :: k < s[i]
  {
    var p := LowerBound(s, k);
    PosFound(p, p < |s| && s[p] == k)
  }

  /** A position that splits `s` into elements below `k` and elements not
      below `k` is the lower bound. */
  lemma LowerBoundUnique(s: seq<int>, k: int, p: nat)
    requires p <= |s|
    requires forall i | 0 <= i < p :: s[i] < k
    requires forall i | p <= i < |s| :: k <= s[i]
    ensures p == LowerBound(s, k)
    decreases |s|
  {
    if |s| > 0 && s[0] < k {
      LowerBoundUnique(s[1..], k, p - 1);
    }
  }

  /** Binary search for the lower bound, the algorithm the search helpers
      stand for; it agrees with the reference definition on sorted input. */
  method BinarySearch(s: seq<int>, k: int) returns (pos: nat)
    requires Sorted(s)
    ensures pos == LowerBound(s, k)
  {
    var lo, hi := 0, |s|;
    while lo < hi
      invariant 0 <= lo <= hi <= |s|
      invariant forall i | 0 <= i < lo :: s[i] < k
      invariant forall i | hi <= i < |s| :: k <= s[i]
      decreases hi - lo
    {
      var mid := (lo + hi) / 2;
      if s[mid] < k {
        lo := mid + 1;
      } else {
        hi := mid;
      }
    }
    LowerBoundUnique(s, k, lo);
    pos := lo;
  }

  /** `s` with `x` inserted at position `p`; later elements shift right. */
  function InsertAt<T>(s: seq<T>, p: nat, x: T): (r: seq<T>)
    requires p <= |s|
    ensures |r| == |s| + 1
    ensures r[p] == x
    ensures forall i | 0 <= i < p :: r[i] == s[i]
    ensures forall i | p <= i < |s| :: r[i + 1] == s[i]
  {
    s[..p] + [x] + s[p..]
  }

  /** The members after insertion are the old members and the inserted one. */
  lemma InsertAtMembers<T>(s: seq<T>, p: nat, x: T)
    requires p <= |s|
    ensures forall y :: y in InsertAt(s, p, x) <==> y == x || y in s
  {
    assert InsertAt(s, p, x) == s[..p] + [x] + s[p..];
    assert s == s[..p] + s[p..];
  }

  /** Inserting an absent key at its lower bound keeps a strictly ascending
      sequence strictly ascending. */
  lemma InsertAtLowerBoundSorted(s: seq<int>, k: int)
    requires StrictlySorted(s)
    requires k !in s
    ensures StrictlySorted(InsertAt(s, LowerBound(s, k), k))
  {
    var p := LowerBound(s, k);
    var r := InsertAt(s, p, k);
    forall i | p <= i < |s|
      ensures k < s[i]
    {
      assert k <= s[i] && s[i] != k;
    }
    forall i, j | 0 <= i < j < |r|
      ensures r[i] < r[j]
    {
      if j < p {
      } else if j == p {
      } else if i < p {
        assert r[i] == s[i] && r[j] == s[j - 1];
      } else if i == p {
        assert r[j] == s[j - 1];
      } else {
        assert r[i] == s[i - 1] && r[j] == s[j - 1];
      }
    }
  }
}
