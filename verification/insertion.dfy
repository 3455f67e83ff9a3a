/** Insertion sort in place, as both sorts use it on short ranges
    (common/msort.c and common/qsort2.c). */
module Insertion {
  import opened Ordering

  lemma SwapAdjacent<T(!new)>(cmp: (T, T) -> int, s: seq<T>, k: nat)
    requires TotalPreorder(cmp) && k + 1 < |s| && cmp(s[k], s[k + 1]) > 0
    ensures StableEq(cmp, s[k := s[k + 1]][k + 1 := s[k]], s)
  {
    var u, v := [s[k]], [s[k + 1]];
    Commute(cmp, v, u);
    StableAround(cmp, s[..k], v + u, u + v, s[k + 2..]);
    assert s == s[..k] + (u + v) + s[k + 2..];
    assert s[k := s[k + 1]][k + 1 := s[k]] == s[..k] + (v + u) + s[k + 2..];
  }

  /** s[lo..hi] is sorted but for the element at t, which is still on its way down. */
  ghost predicate SortedBut<T>(cmp: (T, T) -> int, s: seq<T>, lo: int, hi: int, t: int) {
    && 0 <= lo <= t < hi <= |s|
    && (forall i, j :: lo <= i < j < hi && i != t && j != t ==> cmp(s[i], s[j]) <= 0)
    && (forall j :: t < j < hi ==> cmp(s[t], s[j]) <= 0)
  }

  /** s is s0 with the elements from lo up to hi rearranged stably. */
  ghost predicate StableOn<T(!new)>(cmp: (T, T) -> int, s0: seq<T>, s: seq<T>, lo: int, hi: int) {
    |s| == |s0| && StableEq(cmp, s, s0) && forall k :: 0 <= k < |s| && (k < lo || hi <= k) ==> s[k] == s0[k]
  }

  lemma SinkOne<T(!new)>(cmp: (T, T) -> int, s0: seq<T>, s: seq<T>, s': seq<T>, lo: int, hi: int, t: int)
    requires TotalPreorder(cmp) && SortedBut(cmp, s, lo, hi, t) && StableOn(cmp, s0, s, lo, hi)
    requires lo < t && cmp(s[t - 1], s[t]) > 0 && s' == s[t - 1 := s[t]][t := s[t - 1]]
    ensures SortedBut(cmp, s', lo, hi, t - 1) && StableOn(cmp, s0, s', lo, hi)
  {
    SwapAdjacent(cmp, s, t - 1);
    StableTrans(cmp, s', s, s0);
    assert cmp(s[t], s[t - 1]) <= 0;
  }

  lemma SettledAt<T(!new)>(cmp: (T, T) -> int, s: seq<T>, lo: int, hi: int, t: int)
    requires TotalPreorder(cmp) && SortedBut(cmp, s, lo, hi, t)
    requires lo < t && cmp(s[t - 1], s[t]) <= 0
    ensures SortedOn(cmp, s, lo, hi)
  {
    forall i | lo <= i < t - 1 ensures cmp(s[i], s[t]) <= 0 {
      Trans(cmp, s[i], s[t - 1], s[t]);
    }
  }

  /** Moves a[ai] down past the elements it is strictly below. */
  method Sink<T(!new)>(cmp: (T, T) -> int, a: array<T>, lo: nat, ai: nat)
    requires TotalPreorder(cmp) && lo < ai < a.Length && SortedOn(cmp, a[..], lo, ai)
    modifies a
    ensures SortedOn(cmp, a[..], lo, ai + 1) && StableOn(cmp, old(a[..]), a[..], lo, ai + 1)
  {
    var t := ai;
    ghost var s0, s := a[..], a[..];
    while t > lo
      invariant a[..] == s && SortedBut(cmp, s, lo, ai + 1, t) && StableOn(cmp, s0, s, lo, ai + 1)
    {
      var u := t - 1;
      if cmp(a[u], a[t]) <= 0 {
        SettledAt(cmp, s, lo, ai + 1, t);
        return;
      }
      ghost var s' := s[u := s[t]][t := s[u]];
      SinkOne(cmp, s0, s, s', lo, ai + 1, t);
      a[u], a[t] := a[t], a[u];
      t, s := u, s';
    }
  }

  /** Sorts a[lo..lo + n] in place. */
  method InsertionSort<T(!new)>(cmp: (T, T) -> int, a: array<T>, lo: nat, n: nat)
    requires TotalPreorder(cmp) && lo + n <= a.Length
    modifies a
    ensures SortedOn(cmp, a[..], lo, lo + n) && StableEq(cmp, a[..], old(a[..]))
    ensures forall k :: 0 <= k < lo || lo + n <= k < a.Length ==> a[k] == old(a[k])
  {
    var ai := lo + 1;
    while ai < lo + n
      invariant lo < ai && (ai <= lo + n || n == 0)
      invariant SortedOn(cmp, a[..], lo, ai) && StableEq(cmp, a[..], old(a[..]))
      invariant forall k :: 0 <= k < lo || lo + n <= k < a.Length ==> a[k] == old(a[k])
    {
      ghost var was := a[..];
      Sink(cmp, a, lo, ai);
      StableTrans(cmp, a[..], was, old(a[..]));
      ai := ai + 1;
    }
  }
}
