/** Bentley and McIlroy's three-way quicksort, as common/qsort.c and common/qsort2.c write it.
    The two differ in one guard. Positions are element indices. */
module QuickSort {
  import opened Ordering
  import opened Insertion

  /** t is s with the elements from lo up to hi rearranged and the others in place. */
  ghost predicate Shuffled<T>(s: seq<T>, t: seq<T>, lo: int, hi: int) {
    |s| == |t| && multiset(s) == multiset(t)
    && forall k :: 0 <= k < |s| && (k < lo || hi <= k) ==> s[k] == t[k]
  }

  lemma ShuffledTrans<T>(s: seq<T>, t: seq<T>, u: seq<T>, lo: int, hi: int, lo': int, hi': int)
    requires Shuffled(s, t, lo, hi) && Shuffled(t, u, lo', hi') && lo <= lo' && hi' <= hi
    ensures Shuffled(s, u, lo, hi)
  {
  }

  ghost predicate Below<T>(cmp: (T, T) -> int, v: T, s: seq<T>, lo: int, hi: int) {
    forall k :: 0 <= lo <= k < hi <= |s| ==> cmp(s[k], v) < 0
  }

  ghost predicate Equal<T>(cmp: (T, T) -> int, v: T, s: seq<T>, lo: int, hi: int) {
    forall k :: 0 <= lo <= k < hi <= |s| ==> cmp(s[k], v) == 0
  }

  ghost predicate Above<T>(cmp: (T, T) -> int, v: T, s: seq<T>, lo: int, hi: int) {
    forall k :: 0 <= lo <= k < hi <= |s| ==> cmp(s[k], v) > 0
  }

  lemma Cancel<T>(left: multiset<T>, a: multiset<T>, b: multiset<T>, right: multiset<T>)
    requires left + a + right == left + b + right
    ensures a == b
  {
    assert a == left + a + right - left - right;
    assert b == left + b + right - left - right;
  }

  /** A rearranged range holds the same elements as before. */
  lemma ShuffledSlice<T>(s: seq<T>, t: seq<T>, lo: int, hi: int)
    requires Shuffled(s, t, lo, hi) && 0 <= lo <= hi <= |s|
    ensures multiset(s[lo..hi]) == multiset(t[lo..hi])
  {
    var left, right := s[..lo], s[hi..];
    assert t[..lo] == left && t[hi..] == right;
    assert s == left + s[lo..hi] + right && t == left + t[lo..hi] + right;
    Cancel(multiset(left), multiset(s[lo..hi]), multiset(t[lo..hi]), multiset(right));
  }

  lemma ComesFrom<T(!new)>(s: seq<T>, t: seq<T>, lo: int, hi: int, k: int) returns (j: int)
    requires Shuffled(s, t, lo, hi) && 0 <= lo <= k < hi <= |s|
    ensures lo <= j < hi && t[k] == s[j]
  {
    ShuffledSlice(s, t, lo, hi);
    assert t[k] == t[lo..hi][k - lo];
    assert t[k] in multiset(t[lo..hi]);
    assert t[k] in s[lo..hi];
    var i :| 0 <= i < hi - lo && s[lo..hi][i] == t[k];
    j := lo + i;
  }

  method Swap<T>(a: array<T>, i: int, j: int)
    requires 0 <= i < a.Length && 0 <= j < a.Length
    modifies a
    ensures a[..] == Exchanged(old(a[..]), i, j)
  {
    a[i], a[j] := a[j], a[i];
  }

  function Exchanged<T>(s: seq<T>, i: int, j: int): (t: seq<T>)
    requires 0 <= i < |s| && 0 <= j < |s|
    ensures |t| == |s|
  {
    s[i := s[j]][j := s[i]]
  }

  lemma ExchangedSame<T>(s: seq<T>, i: int, j: int)
    requires 0 <= i < |s| && 0 <= j < |s|
    ensures multiset(Exchanged(s, i, j)) == multiset(s)
  {
  }

  lemma ExchangedShuffles<T>(s0: seq<T>, s: seq<T>, lo: int, hi: int, i: int, j: int)
    requires Shuffled(s0, s, lo, hi) && 0 <= lo <= i < hi <= |s| && lo <= j < hi
    ensures Shuffled(s0, Exchanged(s, i, j), lo, hi)
  {
  }

  function Min(x: int, y: int): int {
    if x < y then x else y
  }

  /** t is s with the blocks of r elements at i and at j, which do not overlap, exchanged. */
  ghost predicate BlocksSwapped<T>(s: seq<T>, t: seq<T>, i: int, j: int, r: int)
    requires 0 <= i && 0 <= r && i + r <= j && j + r <= |s|
  {
    && |t| == |s|
    && (forall k {:trigger t[k]} :: i <= k < i + r ==> t[k] == s[k + (j - i)])
    && (forall k {:trigger t[k]} :: j <= k < j + r ==> t[k] == s[k - (j - i)])
    && (forall k {:trigger t[k]} :: 0 <= k < |s| && !(i <= k < i + r) && !(j <= k < j + r) ==> t[k] == s[k])
  }

  /** vecswap */
  method VecSwap<T>(a: array<T>, i: int, j: int, r: int)
    requires 0 <= i && 0 <= r && i + r <= j && j + r <= a.Length
    modifies a
    ensures BlocksSwapped(old(a[..]), a[..], i, j, r)
  {
    ghost var s, t := a[..], a[..];
    var m := 0;
    while m < r
      invariant 0 <= m <= r && a[..] == t && BlocksSwapped(s, t, i, j, m)
    {
      OneMoreSwapped(s, t, i, j, m);
      Swap(a, i + m, j + m);
      t := Exchanged(t, i + m, j + m);
      m := m + 1;
    }
  }

  lemma OneMoreSwapped<T>(s: seq<T>, t: seq<T>, i: int, j: int, m: int)
    requires 0 <= i && 0 <= m && i + m < j && j + m < |s| && BlocksSwapped(s, t, i, j, m)
    ensures BlocksSwapped(s, Exchanged(t, i + m, j + m), i, j, m + 1)
  {
  }

  lemma OneLessSwapped<T>(s: seq<T>, t: seq<T>, i: int, j: int, m: int)
    requires 0 <= i && 0 <= m && i + m < j && j + m < |s| && BlocksSwapped(s, t, i, j, m + 1)
    ensures BlocksSwapped(s, Exchanged(t, i + m, j + m), i, j, m)
  {
  }

  lemma {:induction false} BlocksSwappedSame<T>(s: seq<T>, t: seq<T>, i: int, j: int, r: int)
    requires 0 <= i && 0 <= r && i + r <= j && j + r <= |s| && BlocksSwapped(s, t, i, j, r)
    ensures multiset(s) == multiset(t)
    decreases r
  {
    if r == 0 {
      NoneSwapped(s, t, i, j);
    } else {
      var t' := Exchanged(t, i + r - 1, j + r - 1);
      ExchangedSame(t, i + r - 1, j + r - 1);
      assert BlocksSwapped(s, t', i, j, r - 1) by {
        OneLessSwapped(s, t, i, j, r - 1);
      }
      BlocksSwappedSame(s, t', i, j, r - 1);
    }
  }

  lemma NoneSwapped<T>(s: seq<T>, t: seq<T>, i: int, j: int)
    requires 0 <= i <= j <= |s| && BlocksSwapped(s, t, i, j, 0)
    ensures s == t
  {
  }

  /** med3: the position, among three, whose element lies between the other two. */
  function Med3<T>(cmp: (T, T) -> int, s: seq<T>, a: int, b: int, c: int): (m: int)
    requires 0 <= a < |s| && 0 <= b < |s| && 0 <= c < |s|
    ensures m in {a, b, c}
  {
    if cmp(s[a], s[b]) < 0 then
      if cmp(s[b], s[c]) < 0 then b else if cmp(s[a], s[c]) < 0 then c else a
    else
      if cmp(s[b], s[c]) > 0 then b else if cmp(s[a], s[c]) < 0 then a else c
  }

  /** m is in the middle when the elements read x <= m <= y for some order of the other two. */
  ghost predicate Between<T>(cmp: (T, T) -> int, x: T, m: T, y: T) {
    (cmp(x, m) <= 0 && cmp(m, y) <= 0) || (cmp(y, m) <= 0 && cmp(m, x) <= 0)
  }

  lemma Med3IsMedian<T(!new)>(cmp: (T, T) -> int, s: seq<T>, a: int, b: int, c: int)
    requires TotalPreorder(cmp) && 0 <= a < |s| && 0 <= b < |s| && 0 <= c < |s|
    ensures var m := Med3(cmp, s, a, b, c);
      || (m == a && Between(cmp, s[b], s[a], s[c]))
      || (m == b && Between(cmp, s[a], s[b], s[c]))
      || (m == c && Between(cmp, s[a], s[c], s[b]))
  {
    assert cmp(s[a], s[b]) <= 0 <==> cmp(s[b], s[a]) >= 0;
    assert cmp(s[b], s[c]) <= 0 <==> cmp(s[c], s[b]) >= 0;
    assert cmp(s[a], s[c]) <= 0 <==> cmp(s[c], s[a]) >= 0;
  }

  /** Lines 121-132: the position of the partitioning element. */
  method ChoosePivot<T>(cmp: (T, T) -> int, a: array<T>, lo: nat, n: nat) returns (pm: nat)
    requires 7 <= n && lo + n <= a.Length
    ensures lo <= pm < lo + n
  {
    pm := lo + n / 2;
    if n > 7 {
      var pl, pn := lo, lo + (n - 1);
      if n > 40 {
        var d := n / 8;
        pl := Med3(cmp, a[..], pl, pl + d, pl + 2 * d);
        pm := Med3(cmp, a[..], pm - d, pm, pm + d);
        pn := Med3(cmp, a[..], pn - 2 * d, pn - d, pn);
      }
      pm := Med3(cmp, a[..], pl, pm, pn);
    }
  }

  /** The five regions of s[lo..hi] around the partitioning element v, which stands first. */
  ghost predicate Regions<T>(cmp: (T, T) -> int, v: T, s: seq<T>, lo: int, pa: int, pb: int, pc: int, pd: int, hi: int) {
    && 0 <= lo < pa <= pb <= pc + 1 && pc <= pd < hi <= |s| && s[lo] == v
    && Equal(cmp, v, s, lo, pa) && Below(cmp, v, s, pa, pb)
    && Above(cmp, v, s, pc + 1, pd + 1) && Equal(cmp, v, s, pd + 1, hi)
  }

  ghost predicate Partitioning<T>(cmp: (T, T) -> int, v: T, s0: seq<T>, s: seq<T>,
                                  lo: int, pa: int, pb: int, pc: int, pd: int, hi: int)
  {
    Regions(cmp, v, s, lo, pa, pb, pc, pd, hi) && Shuffled(s0, s, lo, hi)
  }

  lemma PassLower<T>(cmp: (T, T) -> int, v: T, s0: seq<T>, s: seq<T>, lo: int, pa: int, pb: int, pc: int, pd: int, hi: int)
    requires Partitioning(cmp, v, s0, s, lo, pa, pb, pc, pd, hi) && pb <= pc && cmp(s[pb], v) < 0
    ensures Partitioning(cmp, v, s0, s, lo, pa, pb + 1, pc, pd, hi)
  {
  }

  lemma EqualToLeft<T>(cmp: (T, T) -> int, v: T, s0: seq<T>, s: seq<T>, lo: int, pa: int, pb: int, pc: int, pd: int, hi: int)
    requires Partitioning(cmp, v, s0, s, lo, pa, pb, pc, pd, hi) && pb <= pc && cmp(s[pb], v) == 0
    ensures Exchanged(s, pa, pb)[lo] == v
    ensures Partitioning(cmp, v, s0, Exchanged(s, pa, pb), lo, pa + 1, pb + 1, pc, pd, hi)
  {
    ExchangedShuffles(s0, s, lo, hi, pa, pb);
  }

  lemma PassHigher<T>(cmp: (T, T) -> int, v: T, s0: seq<T>, s: seq<T>, lo: int, pa: int, pb: int, pc: int, pd: int, hi: int)
    requires Partitioning(cmp, v, s0, s, lo, pa, pb, pc, pd, hi) && pb <= pc && cmp(s[pc], v) > 0
    ensures Partitioning(cmp, v, s0, s, lo, pa, pb, pc - 1, pd, hi)
  {
  }

  lemma EqualToRight<T>(cmp: (T, T) -> int, v: T, s0: seq<T>, s: seq<T>, lo: int, pa: int, pb: int, pc: int, pd: int, hi: int)
    requires Partitioning(cmp, v, s0, s, lo, pa, pb, pc, pd, hi) && pb <= pc && cmp(s[pc], v) == 0
    ensures Exchanged(s, pc, pd)[lo] == v && (pb < pc ==> Exchanged(s, pc, pd)[pb] == s[pb])
    ensures Partitioning(cmp, v, s0, Exchanged(s, pc, pd), lo, pa, pb, pc - 1, pd - 1, hi)
  {
    ExchangedShuffles(s0, s, lo, hi, pc, pd);
  }

  /** Lines 138-145: elements not above the partitioning one are passed over; equal ones join the left end. */
  method ScanUp<T(!new)>(cmp: (T, T) -> int, a: array<T>, lo: int, pa0: int, pb0: int, pc: int, ghost pd: int, ghost hi: int,
                         ghost s0: seq<T>, swapped0: bool)
    returns (pa: int, pb: int, swapped: bool)
    requires 0 <= lo < a.Length && Partitioning(cmp, a[lo], s0, a[..], lo, pa0, pb0, pc, pd, hi)
    modifies a
    ensures a[lo] == old(a[lo]) && Partitioning(cmp, a[lo], s0, a[..], lo, pa, pb, pc, pd, hi)
    ensures pb0 <= pb && (pb <= pc ==> cmp(a[pb], a[lo]) > 0)
  {
    pa, pb, swapped := pa0, pb0, swapped0;
    while pb <= pc && cmp(a[pb], a[lo]) <= 0
      invariant a[lo] == old(a[lo]) && pb0 <= pb && Partitioning(cmp, a[lo], s0, a[..], lo, pa, pb, pc, pd, hi)
      decreases pc - pb
    {
      if cmp(a[pb], a[lo]) == 0 {
        swapped := true;
        EqualToLeft(cmp, a[lo], s0, a[..], lo, pa, pb, pc, pd, hi);
        Swap(a, pa, pb);
        pa := pa + 1;
      } else {
        PassLower(cmp, a[lo], s0, a[..], lo, pa, pb, pc, pd, hi);
      }
      pb := pb + 1;
    }
  }

  /** Lines 146-153: the same from the right end. */
  method ScanDown<T(!new)>(cmp: (T, T) -> int, a: array<T>, lo: int, ghost pa: int, pb: int, pc0: int, pd0: int, ghost hi: int,
                           ghost s0: seq<T>, swapped0: bool)
    returns (pc: int, pd: int, swapped: bool)
    requires 0 <= lo < a.Length && Partitioning(cmp, a[lo], s0, a[..], lo, pa, pb, pc0, pd0, hi)
    requires pb <= pc0 ==> cmp(a[pb], a[lo]) > 0
    modifies a
    ensures a[lo] == old(a[lo]) && Partitioning(cmp, a[lo], s0, a[..], lo, pa, pb, pc, pd, hi)
    ensures pc <= pc0 && (pb <= pc ==> cmp(a[pc], a[lo]) < 0 && cmp(a[pb], a[lo]) > 0)
  {
    pc, pd, swapped := pc0, pd0, swapped0;
    while pb <= pc && cmp(a[pc], a[lo]) >= 0
      invariant a[lo] == old(a[lo]) && pc <= pc0 && Partitioning(cmp, a[lo], s0, a[..], lo, pa, pb, pc, pd, hi)
      invariant pb <= pc ==> cmp(a[pb], a[lo]) > 0
      decreases pc - pb
    {
      if cmp(a[pc], a[lo]) == 0 {
        swapped := true;
        EqualToRight(cmp, a[lo], s0, a[..], lo, pa, pb, pc, pd, hi);
        Swap(a, pc, pd);
        pd := pd - 1;
      } else {
        PassHigher(cmp, a[lo], s0, a[..], lo, pa, pb, pc, pd, hi);
      }
      pc := pc - 1;
    }
  }

  lemma ExchangeAcross<T>(cmp: (T, T) -> int, v: T, s0: seq<T>, s: seq<T>, lo: int, pa: int, pb: int, pc: int, pd: int, hi: int)
    requires Partitioning(cmp, v, s0, s, lo, pa, pb, pc, pd, hi)
    requires pb <= pc && cmp(s[pc], v) < 0 && cmp(s[pb], v) > 0
    ensures Exchanged(s, pb, pc)[lo] == v
    ensures Partitioning(cmp, v, s0, Exchanged(s, pb, pc), lo, pa, pb + 1, pc - 1, pd, hi)
  {
    ExchangedShuffles(s0, s, lo, hi, pb, pc);
  }

  /** Lines 134-160: elements are compared with a[lo], which stays in its place. */
  method Partition<T(!new)>(cmp: (T, T) -> int, a: array<T>, lo: nat, n: nat)
    returns (pa: int, pb: int, pc: int, pd: int, swapped: bool)
    requires TotalPreorder(cmp) && 0 < n && lo + n <= a.Length
    modifies a
    ensures Partitioning(cmp, a[lo], old(a[..]), a[..], lo, pa, pb, pc, pd, lo + n) && pb == pc + 1
  {
    ghost var v, s0 := a[lo], a[..];
    assert cmp(v, v) == 0;
    swapped := false;
    pa, pb, pc, pd := lo + 1, lo + 1, lo + n - 1, lo + n - 1;
    while true
      invariant a[lo] == v && Partitioning(cmp, v, s0, a[..], lo, pa, pb, pc, pd, lo + n)
      decreases pc - pb
    {
      pa, pb, swapped := ScanUp(cmp, a, lo, pa, pb, pc, pd, lo + n, s0, swapped);
      pc, pd, swapped := ScanDown(cmp, a, lo, pa, pb, pc, pd, lo + n, s0, swapped);
      if pb > pc {
        break;
      }
      ExchangeAcross(cmp, v, s0, a[..], lo, pa, pb, pc, pd, lo + n);
      Swap(a, pb, pc);
      swapped := true;
      pb, pc := pb + 1, pc - 1;
    }
  }

  /** The elements of s from lo up to hi are below, equal to and above v, in three stretches. */
  ghost predicate Gathered<T>(cmp: (T, T) -> int, v: T, s: seq<T>, lo: int, m1: int, m2: int, hi: int) {
    Below(cmp, v, s, lo, m1) && Equal(cmp, v, s, m1, m2) && Above(cmp, v, s, m2, hi)
  }

  /** The equal elements at the left end change places with the lower ones. */
  lemma GatherLow<T>(cmp: (T, T) -> int, v: T, s: seq<T>, t: seq<T>, lo: int, pa: int, pb: int, r: int)
    requires 0 <= lo <= pa <= pb <= |s| && Equal(cmp, v, s, lo, pa) && Below(cmp, v, s, pa, pb)
    requires r == Min(pa - lo, pb - pa) && BlocksSwapped(s, t, lo, pb - r, r)
    ensures Below(cmp, v, t, lo, lo + (pb - pa)) && Equal(cmp, v, t, lo + (pb - pa), pb)
  {
  }

  /** Those at the right end change places with the higher ones. */
  lemma GatherHigh<T>(cmp: (T, T) -> int, v: T, s: seq<T>, t: seq<T>, pb: int, pd: int, hi: int, r: int)
    requires 0 <= pb <= pd + 1 <= hi <= |s| && Above(cmp, v, s, pb, pd + 1) && Equal(cmp, v, s, pd + 1, hi)
    requires r == Min(pd + 1 - pb, hi - pd - 1) && BlocksSwapped(s, t, pb, hi - r, r)
    ensures Equal(cmp, v, t, pb, hi - (pd + 1 - pb)) && Above(cmp, v, t, hi - (pd + 1 - pb), hi)
  {
  }

  /** s and t agree from lo up to hi. */
  ghost predicate Agree<T>(s: seq<T>, t: seq<T>, lo: int, hi: int) {
    |s| == |t| && forall k :: 0 <= lo <= k < hi <= |s| ==> t[k] == s[k]
  }

  lemma UpperUntouched<T>(cmp: (T, T) -> int, v: T, s: seq<T>, t: seq<T>, lo: int, pa: int, pb: int, pc: int, pd: int, hi: int)
    requires Regions(cmp, v, s, lo, pa, pb, pc, pd, hi) && pb == pc + 1 && Agree(s, t, pb, hi)
    ensures Above(cmp, v, t, pb, pd + 1) && Equal(cmp, v, t, pd + 1, hi)
  {
  }

  lemma LowerUntouched<T>(cmp: (T, T) -> int, v: T, s: seq<T>, t: seq<T>, lo: int, m1: int, pb: int, m2: int, hi: int)
    requires 0 <= lo <= m1 <= pb <= m2 <= hi <= |s| && Agree(s, t, lo, pb)
    requires Below(cmp, v, s, lo, m1) && Equal(cmp, v, s, m1, pb) && Equal(cmp, v, t, pb, m2) && Above(cmp, v, t, m2, hi)
    ensures Gathered(cmp, v, t, lo, m1, m2, hi)
  {
  }

  lemma SwapIsLocal<T>(s: seq<T>, t: seq<T>, i: int, j: int, r: int)
    requires 0 <= i && 0 <= r && i + r <= j && j + r <= |s| && BlocksSwapped(s, t, i, j, r)
    ensures Agree(s, t, 0, i) && Agree(s, t, j + r, |s|)
    ensures Shuffled(s, t, i, j + r)
  {
    BlocksSwappedSame(s, t, i, j, r);
  }

  /** After the first exchange. */
  ghost predicate HalfGathered<T>(cmp: (T, T) -> int, v: T, t: seq<T>, lo: int, m1: int, pb: int, pd: int, hi: int) {
    && Below(cmp, v, t, lo, m1) && Equal(cmp, v, t, m1, pb)
    && Above(cmp, v, t, pb, pd + 1) && Equal(cmp, v, t, pd + 1, hi)
  }

  lemma GatherFirst<T>(cmp: (T, T) -> int, v: T, s: seq<T>, t: seq<T>, lo: int, pa: int, pb: int, pc: int, pd: int, hi: int, r: int)
    requires Regions(cmp, v, s, lo, pa, pb, pc, pd, hi) && pb == pc + 1
    requires r == Min(pa - lo, pb - pa) && BlocksSwapped(s, t, lo, pb - r, r)
    ensures HalfGathered(cmp, v, t, lo, lo + (pb - pa), pb, pd, hi) && Shuffled(s, t, lo, pb)
  {
    GatherLow(cmp, v, s, t, lo, pa, pb, r);
    SwapIsLocal(s, t, lo, pb - r, r);
    UpperUntouched(cmp, v, s, t, lo, pa, pb, pc, pd, hi);
  }

  lemma GatherSecond<T>(cmp: (T, T) -> int, v: T, t: seq<T>, u: seq<T>, lo: int, m1: int, pb: int, pd: int, hi: int, r: int)
    requires 0 <= lo <= m1 <= pb <= pd + 1 <= hi <= |t| && HalfGathered(cmp, v, t, lo, m1, pb, pd, hi)
    requires r == Min(pd + 1 - pb, hi - pd - 1) && BlocksSwapped(t, u, pb, hi - r, r)
    ensures Gathered(cmp, v, u, lo, m1, hi - (pd + 1 - pb), hi) && Shuffled(t, u, pb, hi)
  {
    GatherHigh(cmp, v, t, u, pb, pd, hi, r);
    SwapIsLocal(t, u, pb, hi - r, r);
    LowerUntouched(cmp, v, t, u, lo, m1, pb, hi - (pd + 1 - pb), hi);
  }

  lemma BothShuffle<T>(s: seq<T>, t: seq<T>, u: seq<T>, lo: int, pb: int, hi: int)
    requires lo <= pb <= hi && Shuffled(s, t, lo, pb) && Shuffled(t, u, pb, hi)
    ensures Shuffled(s, u, lo, hi)
  {
  }

  /** Lines 170-171: the equal elements at the left end go behind the lower ones. */
  method GatherLeft<T(!new)>(cmp: (T, T) -> int, a: array<T>, ghost v: T, lo: int, pa: int, pb: int, ghost pc: int, ghost pd: int, ghost hi: int)
    requires Regions(cmp, v, a[..], lo, pa, pb, pc, pd, hi) && pb == pc + 1
    modifies a
    ensures HalfGathered(cmp, v, a[..], lo, lo + (pb - pa), pb, pd, hi) && Shuffled(old(a[..]), a[..], lo, pb)
  {
    ghost var s := a[..];
    var r := Min(pa - lo, pb - pa);
    VecSwap(a, lo, pb - r, r);
    GatherFirst(cmp, v, s, a[..], lo, pa, pb, pc, pd, hi, r);
  }

  /** Lines 172-173: those at the right end go before the higher ones. */
  method GatherRight<T(!new)>(cmp: (T, T) -> int, a: array<T>, ghost v: T, ghost lo: int, ghost m1: int, pb: int, pc: int, pd: int, hi: int)
    requires 0 <= lo <= m1 <= pb == pc + 1 <= pd + 1 <= hi <= a.Length && HalfGathered(cmp, v, a[..], lo, m1, pb, pd, hi)
    modifies a
    ensures Gathered(cmp, v, a[..], lo, m1, hi - (pd - pc), hi) && Shuffled(old(a[..]), a[..], pb, hi)
  {
    ghost var s := a[..];
    var r := Min(pd - pc, hi - pd - 1);
    VecSwap(a, pb, hi - r, r);
    GatherSecond(cmp, v, s, a[..], lo, m1, pb, pd, hi, r);
  }

  /** Lines 169-173: two block exchanges bring the equal elements from both ends to the middle. */
  method Gather<T(!new)>(cmp: (T, T) -> int, a: array<T>, ghost v: T, lo: int, pa: int, pb: int, pc: int, pd: int, hi: int)
    requires Regions(cmp, v, a[..], lo, pa, pb, pc, pd, hi) && pb == pc + 1
    modifies a
    ensures Gathered(cmp, v, a[..], lo, lo + (pb - pa), hi - (pd - pc), hi)
    ensures Shuffled(old(a[..]), a[..], lo, hi)
  {
    ghost var s := a[..];
    GatherLeft(cmp, a, v, lo, pa, pb, pc, pd, hi);
    ghost var t := a[..];
    GatherRight(cmp, a, v, lo, lo + (pb - pa), pb, pc, pd, hi);
    BothShuffle(s, t, a[..], lo, pb, hi);
  }

  /** The elements before lo are in their final places: sorted, and not above any later one. */
  ghost predicate Placed<T>(cmp: (T, T) -> int, s: seq<T>, lo0: int, lo: int, hi: int) {
    && 0 <= lo0 <= lo <= hi <= |s| && SortedOn(cmp, s, lo0, lo)
    && forall i, j :: lo0 <= i < lo <= j < hi ==> cmp(s[i], s[j]) <= 0
  }

  lemma PlacedKept<T(!new)>(cmp: (T, T) -> int, s: seq<T>, t: seq<T>, lo0: int, lo: int, hi: int)
    requires Placed(cmp, s, lo0, lo, hi) && Shuffled(s, t, lo, hi)
    ensures Placed(cmp, t, lo0, lo, hi)
  {
    forall i, j | lo0 <= i < lo <= j < hi ensures cmp(t[i], t[j]) <= 0 {
      var j' := ComesFrom(s, t, lo, hi, j);
      assert cmp(s[i], s[j']) <= 0;
    }
  }

  lemma PlacedAll<T>(cmp: (T, T) -> int, s: seq<T>, lo0: int, lo: int, hi: int)
    requires Placed(cmp, s, lo0, lo, hi) && SortedOn(cmp, s, lo, hi)
    ensures SortedOn(cmp, s, lo0, hi)
  {
  }

  /** After partitioning and sorting the lower part, everything up to the upper part is placed. */
  lemma PlacedMore<T(!new)>(cmp: (T, T) -> int, v: T, s: seq<T>, t: seq<T>, lo0: int, lo: int, m1: int, m2: int, hi: int)
    requires TotalPreorder(cmp) && lo <= m1 <= m2 <= hi
    requires Placed(cmp, s, lo0, lo, hi)
    requires Gathered(cmp, v, s, lo, m1, m2, hi)
    requires Shuffled(s, t, lo, m1) && SortedOn(cmp, t, lo, m1)
    ensures Placed(cmp, t, lo0, m2, hi)
  {
    PlacedKept(cmp, s, t, lo0, lo, hi);
    forall k | lo <= k < m1 ensures cmp(t[k], v) < 0 {
      var j := ComesFrom(s, t, lo, m1, k);
    }
    forall i, j | lo <= i < m2 && m1 <= j < hi && i < j ensures cmp(t[i], t[j]) <= 0 {
      Trans(cmp, t[i], v, t[j]);
    }
  }

  /** Insertion sort of the remaining range completes the job. */
  method FinishByInsertion<T(!new)>(cmp: (T, T) -> int, a: array<T>, ghost lo0: int, lo: nat, n: nat, ghost s0: seq<T>)
    requires TotalPreorder(cmp) && lo + n <= a.Length
    requires Placed(cmp, a[..], lo0, lo, lo + n) && Shuffled(s0, a[..], lo0, lo + n)
    modifies a
    ensures SortedOn(cmp, a[..], lo0, lo + n) && Shuffled(s0, a[..], lo0, lo + n)
  {
    ghost var s := a[..];
    InsertionSort(cmp, a, lo, n);
    StableIsPermutation(cmp, a[..], s);
    ShuffledTrans(s0, s, a[..], lo0, lo + n, lo, lo + n);
    PlacedKept(cmp, s, a[..], lo0, lo, lo + n);
    PlacedAll(cmp, a[..], lo0, lo, lo + n);
  }

  /** Lines 133-173 on the range of n elements at lo: on return the elements of the range are
      below, equal to and above one value v, in three stretches. */
  method Split3<T(!new)>(cmp: (T, T) -> int, a: array<T>, lo: nat, n: nat, guarded: bool)
    returns (below: nat, above: nat, escape: bool, ghost v: T)
    requires TotalPreorder(cmp) && 7 <= n && lo + n <= a.Length
    modifies a
    ensures Shuffled(old(a[..]), a[..], lo, lo + n) && below + above < n
    ensures !escape ==> Gathered(cmp, v, a[..], lo, lo + below, lo + n - above, lo + n)
    ensures guarded && n >= 100 ==> !escape
  {
    var pm := ChoosePivot(cmp, a, lo, n);
    ExchangedShuffles(a[..], a[..], lo, lo + n, lo, pm);
    Swap(a, lo, pm);
    ghost var s1 := a[..];
    var pa, pb, pc, pd, swapped := Partition(cmp, a, lo, n);
    ghost var s2 := a[..];
    ShuffledTrans(old(a[..]), s1, s2, lo, lo + n, lo, lo + n);
    v, below, above := a[lo], pb - pa, pd - pc;
    escape := (n < 100 || !guarded) && !swapped;
    if !escape {
      Gather(cmp, a, v, lo, pa, pb, pc, pd, lo + n);
      ShuffledTrans(old(a[..]), s2, a[..], lo, lo + n, lo, lo + n);
    }
  }

  /** The same on what is left of the whole range at lo0. */
  method SplitRest<T(!new)>(cmp: (T, T) -> int, a: array<T>, ghost lo0: int, lo: nat, n: nat, guarded: bool, ghost s0: seq<T>)
    returns (below: nat, above: nat, escape: bool, ghost v: T)
    requires TotalPreorder(cmp) && 7 <= n && lo + n <= a.Length
    requires Placed(cmp, a[..], lo0, lo, lo + n) && Shuffled(s0, a[..], lo0, lo + n)
    modifies a
    ensures Placed(cmp, a[..], lo0, lo, lo + n) && Shuffled(s0, a[..], lo0, lo + n) && below + above < n
    ensures !escape ==> Gathered(cmp, v, a[..], lo, lo + below, lo + n - above, lo + n)
  {
    ghost var s := a[..];
    below, above, escape, v := Split3(cmp, a, lo, n, guarded);
    PlacedKept(cmp, s, a[..], lo0, lo, lo + n);
    ShuffledTrans(s0, s, a[..], lo0, lo + n, lo, lo + n);
  }

  lemma LowerSorted<T(!new)>(cmp: (T, T) -> int, v: T, s0: seq<T>, s: seq<T>, t: seq<T>,
                             lo0: int, lo: int, m1: int, m2: int, hi: int)
    requires TotalPreorder(cmp) && lo <= m1 <= m2 <= hi
    requires Placed(cmp, s, lo0, lo, hi) && Shuffled(s0, s, lo0, hi)
    requires Gathered(cmp, v, s, lo, m1, m2, hi)
    requires Shuffled(s, t, lo, m1) && SortedOn(cmp, t, lo, m1)
    ensures Placed(cmp, t, lo0, m2, hi) && Shuffled(s0, t, lo0, hi)
  {
    PlacedMore(cmp, v, s, t, lo0, lo, m1, m2, hi);
    ShuffledTrans(s0, s, t, lo0, hi, lo, m1);
  }

  /** The lower part is sorted by recursion, unless there is nothing to sort. */
  method SortLower<T(!new)>(cmp: (T, T) -> int, a: array<T>, lo: nat, n: nat, guarded: bool)
    requires TotalPreorder(cmp) && lo + n <= a.Length
    modifies a
    ensures SortedOn(cmp, a[..], lo, lo + n) && Shuffled(old(a[..]), a[..], lo, lo + n)
    decreases n, 2
  {
    if n > 1 {
      Qsort(cmp, a, lo, n, guarded);
    }
  }

  /** Once round the loop: the range is split, and its lower part sorted. */
  method SplitAndSortLower<T(!new)>(cmp: (T, T) -> int, a: array<T>, ghost lo0: int, lo: nat, n: nat, guarded: bool, ghost s0: seq<T>)
    returns (above: nat, escape: bool)
    requires TotalPreorder(cmp) && 7 <= n && lo + n <= a.Length
    requires Placed(cmp, a[..], lo0, lo, lo + n) && Shuffled(s0, a[..], lo0, lo + n)
    modifies a
    ensures above < n && Shuffled(s0, a[..], lo0, lo + n)
    ensures escape ==> Placed(cmp, a[..], lo0, lo, lo + n)
    ensures !escape ==> Placed(cmp, a[..], lo0, lo + n - above, lo + n)
    decreases n, 0
  {
    var below;
    ghost var v;
    below, above, escape, v := SplitRest(cmp, a, lo0, lo, n, guarded, s0);
    if escape {
      return;
    }
    ghost var t := a[..];
    SortLower(cmp, a, lo, below, guarded);
    LowerSorted(cmp, v, s0, t, a[..], lo0, lo, lo + below, lo + n - above, lo + n);
  }

  /** qsort2 when guarded, qsort when not: sorts the n0 elements at lo0, recursing on the lower
      part and going round again for the upper one. */
  method Qsort<T(!new)>(cmp: (T, T) -> int, a: array<T>, lo0: nat, n0: nat, guarded: bool)
    requires TotalPreorder(cmp) && lo0 + n0 <= a.Length
    modifies a
    ensures SortedOn(cmp, a[..], lo0, lo0 + n0)
    ensures Shuffled(old(a[..]), a[..], lo0, lo0 + n0)
    decreases n0, 1
  {
    var lo, n := lo0, n0;
    ghost var s0 := a[..];
    while n >= 7
      invariant lo0 <= lo && lo + n == lo0 + n0
      invariant Placed(cmp, a[..], lo0, lo, lo + n) && Shuffled(s0, a[..], lo0, lo + n)
      decreases n
    {
      var above, escape := SplitAndSortLower(cmp, a, lo0, lo, n, guarded, s0);
      if escape {
        break;
      }
      lo, n := lo + n - above, above;
      if n <= 1 {
        PlacedAll(cmp, a[..], lo0, lo, lo + n);
        return;
      }
    }
    FinishByInsertion(cmp, a, lo0, lo, n, s0);
  }
}
