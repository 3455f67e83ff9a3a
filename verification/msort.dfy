/** The hybrid natural/pairwise merge sort with galloping search of common/msort.c.
    Positions are element indices. The links that the C code threads through the
    unused list are kept in an index array beside each list. */
module MergeSort {
  import opened Ordering
  import opened Insertion

  const THRESHOLD: nat := 16

  // ----- the search for the next split -----

  /** Element j is among those the search steps over. */
  ghost predicate Passes<T>(cmp: (T, T) -> int, list: seq<T>, q: T, sense: int, j: int)
    requires 0 <= j < |list|
  {
    cmp(q, list[j]) > sense
  }

  ghost predicate SplitAt<T>(cmp: (T, T) -> int, list: seq<T>, q: T, sense: int, b: int, t: int, split: int)
    requires 0 <= b <= t <= |list|
  {
    && b < split <= t
    && (forall j :: b <= j < split ==> Passes(cmp, list, q, sense, j))
    && (forall j :: split <= j < t ==> !Passes(cmp, list, q, sense, j))
  }

  ghost predicate Downward<T>(cmp: (T, T) -> int, list: seq<T>, q: T, sense: int, b: int, t: int)
    requires 0 <= b <= t <= |list|
  {
    forall i, j :: b <= i < j < t && Passes(cmp, list, q, sense, j) ==> Passes(cmp, list, q, sense, i)
  }

  function Pow2(e: nat): (r: nat)
    ensures r >= 1
  {
    if e == 0 then 1 else 2 * Pow2(e - 1)
  }

  /** Lines 163-192: steps of doubling length, and then halving. */
  method Gallop<T>(cmp: (T, T) -> int, list: array<T>, q: T, b0: nat, t0: nat, sense: int, big0: bool)
    returns (split: nat, big: bool)
    requires b0 < t0 <= list.Length
    requires Passes(cmp, list[..], q, sense, b0)
    requires Downward(cmp, list[..], q, sense, b0, t0)
    ensures SplitAt(cmp, list[..], q, sense, b0, t0, split)
  {
    var b, t := b0, t0;
    big := big0;
    var i := 1;
    ghost var e: nat := 0;
    var fast := false;
    while true
      invariant b0 <= b < t == t0 && i == Pow2(e) && !fast
      invariant Passes(cmp, list[..], q, sense, b)
      decreases t - b
    {
      var p := b + i;
      if p >= t {
        p := t - 1;
        if p > b && cmp(q, list[p]) <= sense {
          t := p;
        } else {
          b := p;
        }
        break;
      } else if cmp(q, list[p]) <= sense {
        t := p;
        if i == 1 {
          big := false;
        }
        fast := true;
        break;
      } else {
        b := p;
      }
      i := 2 * i;
      e := e + 1;
    }
    if fast {
      while i > 1
        invariant b0 <= b < t <= t0 && t == b + i && i == Pow2(e)
        invariant Passes(cmp, list[..], q, sense, b)
        invariant t < t0 ==> !Passes(cmp, list[..], q, sense, t)
      {
        e := e - 1;
        i := i / 2;
        var p := b + i;
        if cmp(q, list[p]) <= sense {
          t := p;
        } else {
          b := p;
        }
      }
    } else {
      while t > b + 1
        invariant b0 <= b < t <= t0
        invariant Passes(cmp, list[..], q, sense, b)
        invariant t < t0 ==> !Passes(cmp, list[..], q, sense, t)
        decreases t - b
      {
        i := (t - b) / 2;
        var p := b + i;
        if cmp(q, list[p]) <= sense {
          t := p;
        } else {
          b := p;
        }
      }
    }
    split := t;
  }

  /** Whatever the state of `big`, the search stops where a linear scan would. */
  method FindSplit<T>(cmp: (T, T) -> int, list: array<T>, q: T, b0: nat, t0: nat, sense: int, big0: bool)
    returns (split: nat, big: bool)
    requires b0 < t0 <= list.Length
    requires Passes(cmp, list[..], q, sense, b0)
    requires Downward(cmp, list[..], q, sense, b0, t0)
    ensures SplitAt(cmp, list[..], q, sense, b0, t0, split)
  {
    var b, t := b0, t0;
    big := big0;
    if !big {
      var i := 0;
      b := b + 1;
      while b < t && cmp(q, list[b]) > sense
        invariant b0 < b <= t && i < 6
        invariant forall j :: b0 <= j < b ==> Passes(cmp, list[..], q, sense, j)
        decreases t - b
      {
        i := i + 1;
        if i == 6 {
          big := true;
          break;
        }
        b := b + 1;
      }
      if !big {
        assert b < t0 ==> !Passes(cmp, list[..], q, sense, b);
        return b, big;
      }
    }
    split, big := Gallop(cmp, list, q, b, t, sense, big);
  }

  // ----- merging two runs -----

  /** now is was with block written at position `at`. */
  ghost predicate Written<T>(was: seq<T>, now: seq<T>, at: nat, block: seq<T>)
  {
    && at + |block| <= |was| == |now|
    && forall k :: 0 <= k < |now| ==> now[k] == if at <= k < at + |block| then block[k - at] else was[k]
  }

  /** Copies src[from..to] to dst at position `at`; there is at least one element to copy. */
  method CopyList<T>(src: array<T>, dst: array<T>, from: nat, to: nat, at: nat)
    requires src != dst && from < to <= src.Length && at + (to - from) <= dst.Length
    modifies dst
    ensures Written(old(dst[..]), dst[..], at, src[from..to])
  {
    var k := from;
    while k < to
      invariant from <= k <= to
      invariant forall j :: 0 <= j < dst.Length ==>
        dst[j] == if at <= j < at + (k - from) then src[from + j - at] else old(dst[j])
    {
      dst[at + (k - from)] := src[k];
      k := k + 1;
    }
  }

  lemma WrittenTwice<T>(a: seq<T>, b: seq<T>, c: seq<T>, start: nat, at: nat, u: seq<T>, v: seq<T>)
    requires Written(a, b, at, u) && Written(b, c, at + |u|, v) && start <= at
    ensures c[start..at + |u| + |v|] == a[start..at] + u + v
    ensures c[..start] == a[..start] && c[at + |u| + |v|..] == a[at + |u| + |v|..]
  {
  }

  /** Where a merge stands: `out` is written, r1 and r2 are what is left of the two runs. */
  ghost predicate Merging<T(!new)>(cmp: (T, T) -> int, out: seq<T>, r1: seq<T>, r2: seq<T>, input: seq<T>) {
    && Sorted(cmp, out) && Sorted(cmp, r1) && Sorted(cmp, r2)
    && NotAbove(cmp, out, r1) && NotAbove(cmp, out, r2)
    && StableEq(cmp, out + r1 + r2, input)
  }

  ghost predicate NotAbove<T>(cmp: (T, T) -> int, a: seq<T>, b: seq<T>) {
    forall i, j :: 0 <= i < |a| && 0 <= j < |b| ==> cmp(a[i], b[j]) <= 0
  }

  lemma NotAboveParts<T>(cmp: (T, T) -> int, x: seq<T>, a: seq<T>, b: seq<T>)
    requires NotAbove(cmp, x, a + b)
    ensures NotAbove(cmp, x, a) && NotAbove(cmp, x, b)
  {
    assert forall j :: 0 <= j < |a| ==> (a + b)[j] == a[j];
    assert forall j :: 0 <= j < |b| ==> (a + b)[|a| + j] == b[j];
  }

  lemma NotAboveJoin<T>(cmp: (T, T) -> int, a: seq<T>, b: seq<T>, x: seq<T>)
    requires NotAbove(cmp, a, x) && NotAbove(cmp, b, x)
    ensures NotAbove(cmp, a + b, x)
  {
  }

  lemma SortedParts<T>(cmp: (T, T) -> int, a: seq<T>, b: seq<T>)
    requires Sorted(cmp, a + b)
    ensures Sorted(cmp, a) && Sorted(cmp, b) && NotAbove(cmp, a, b)
  {
    assert forall j :: 0 <= j < |a| ==> (a + b)[j] == a[j];
    assert forall j :: 0 <= j < |b| ==> (a + b)[|a| + j] == b[j];
  }

  lemma SortedJoin<T>(cmp: (T, T) -> int, a: seq<T>, b: seq<T>)
    requires Sorted(cmp, a) && Sorted(cmp, b) && NotAbove(cmp, a, b)
    ensures Sorted(cmp, a + b)
  {
  }

  lemma Reassociate<T>(out: seq<T>, c: seq<T>, q: T, rest: seq<T>, tail: seq<T>)
    ensures out + (c + rest) + ([q] + tail) == (out + c) + (rest + [q]) + tail
    ensures (out + c) + ([q] + rest) + tail == (out + c + [q]) + rest + tail
  {
  }

  /** An element moves in front of those strictly above it. */
  lemma MoveForward<T(!new)>(cmp: (T, T) -> int, out: seq<T>, c: seq<T>, q: T, rest: seq<T>, tail: seq<T>)
    requires TotalPreorder(cmp) && forall j :: 0 <= j < |rest| ==> cmp(q, rest[j]) < 0
    ensures StableEq(cmp, (out + c + [q]) + rest + tail, out + (c + rest) + ([q] + tail))
  {
    Reassociate(out, c, q, rest, tail);
    Commute(cmp, rest, [q]);
    StableAround(cmp, out + c, rest + [q], [q] + rest, tail);
  }

  /** The block r1[..k] and then the head of r2 move to the output. */
  lemma TakeFirst<T(!new)>(cmp: (T, T) -> int, out: seq<T>, r1: seq<T>, r2: seq<T>, k: nat, input: seq<T>)
    requires TotalPreorder(cmp) && Merging(cmp, out, r1, r2, input)
    requires r2 != [] && k <= |r1|
    requires forall j :: 0 <= j < k ==> cmp(r2[0], r1[j]) >= 0
    requires forall j :: k <= j < |r1| ==> cmp(r2[0], r1[j]) < 0
    ensures Merging(cmp, out + r1[..k] + [r2[0]], r1[k..], r2[1..], input)
  {
    var q, c, rest, tail := r2[0], r1[..k], r1[k..], r2[1..];
    forall i, j | 0 <= i < |c| && 0 <= j < |r2| ensures cmp(c[i], r2[j]) <= 0 {
      assert cmp(q, q) == 0;
      Trans(cmp, c[i], q, r2[j]);
    }
    assert r1 == c + rest && r2 == [q] + tail;
    MoveForward(cmp, out, c, q, rest, tail);
    StableTrans(cmp, out + c + [q] + rest + tail, out + r1 + r2, input);
    Ordered(cmp, out, c, q, rest, tail);
  }

  /** The output and what is left, after a block and an element have been moved. */
  lemma Ordered<T>(cmp: (T, T) -> int, out: seq<T>, c: seq<T>, q: T, rest: seq<T>, tail: seq<T>)
    requires Sorted(cmp, out) && Sorted(cmp, c + rest) && Sorted(cmp, [q] + tail)
    requires NotAbove(cmp, out, c + rest) && NotAbove(cmp, out, [q] + tail)
    requires NotAbove(cmp, c, [q] + tail) && NotAbove(cmp, [q], rest)
    ensures Sorted(cmp, out + c + [q]) && Sorted(cmp, rest) && Sorted(cmp, tail)
    ensures NotAbove(cmp, out + c + [q], rest) && NotAbove(cmp, out + c + [q], tail)
  {
    SortedParts(cmp, c, rest);
    SortedParts(cmp, [q], tail);
    NotAboveParts(cmp, out, c, rest);
    NotAboveParts(cmp, out, [q], tail);
    NotAboveParts(cmp, c, [q], tail);
    SortedJoin(cmp, out, c);
    NotAboveJoin(cmp, out, c, [q]);
    SortedJoin(cmp, out + c, [q]);
    NotAboveJoin(cmp, out, c, rest);
    NotAboveJoin(cmp, out + c, [q], rest);
    NotAboveJoin(cmp, out, c, tail);
    NotAboveJoin(cmp, out + c, [q], tail);
  }

  /** The block r2[..k] and then the head of r1 move to the output. */
  lemma TakeSecond<T(!new)>(cmp: (T, T) -> int, out: seq<T>, r1: seq<T>, r2: seq<T>, k: nat, input: seq<T>)
    requires TotalPreorder(cmp) && Merging(cmp, out, r1, r2, input)
    requires r1 != [] && k <= |r2|
    requires forall j :: 0 <= j < k ==> cmp(r1[0], r2[j]) > 0
    requires forall j :: k <= j < |r2| ==> cmp(r1[0], r2[j]) <= 0
    ensures Merging(cmp, out + r2[..k] + [r1[0]], r1[1..], r2[k..], input)
  {
    var q, c, rest, tail := r1[0], r2[..k], r2[k..], r1[1..];
    forall i, j | 0 <= i < |c| && 0 <= j < |r1| ensures cmp(c[i], r1[j]) < 0 && cmp(r1[j], c[i]) > 0 {
      assert cmp(q, q) == 0;
      assert cmp(c[i], q) < 0;
      Trans(cmp, c[i], q, r1[j]);
    }
    assert r1 == [q] + tail && r2 == c + rest;
    MoveBlock(cmp, out, c, q, tail, rest);
    StableTrans(cmp, out + c + [q] + tail + rest, out + r1 + r2, input);
    Ordered(cmp, out, c, q, rest, tail);
  }

  /** A block moves in front of a run strictly above it. */
  lemma MoveBlock<T(!new)>(cmp: (T, T) -> int, out: seq<T>, c: seq<T>, q: T, tail: seq<T>, rest: seq<T>)
    requires TotalPreorder(cmp)
    requires forall i, j :: 0 <= i < |c| && 0 <= j < |[q] + tail| ==> cmp(([q] + tail)[j], c[i]) > 0
    ensures StableEq(cmp, out + c + [q] + tail + rest, out + ([q] + tail) + (c + rest))
  {
    var r1 := [q] + tail;
    forall i, j | 0 <= i < |r1| && 0 <= j < |c| ensures cmp(r1[i], c[j]) != 0 {
    }
    Commute(cmp, r1, c);
    StableAround(cmp, out, r1 + c, c + r1, rest);
    assert out + (r1 + c) + rest == out + r1 + (c + rest);
    assert out + (c + r1) + rest == out + c + [q] + tail + rest;
  }

  lemma SplitOfSlice<T>(cmp: (T, T) -> int, list: seq<T>, q: T, sense: int, b: nat, t: nat, split: nat)
    requires b < t <= |list| && SplitAt(cmp, list, q, sense, b, t, split)
    ensures forall j :: 0 <= j < split - b ==> cmp(q, list[b..t][j]) > sense
    ensures forall j :: split - b <= j < t - b ==> cmp(q, list[b..t][j]) <= sense
  {
    forall j | 0 <= j < split - b ensures cmp(q, list[b..t][j]) > sense {
      assert Passes(cmp, list, q, sense, b + j);
    }
    forall j | split - b <= j < t - b ensures cmp(q, list[b..t][j]) <= sense {
      assert !Passes(cmp, list, q, sense, b + j);
    }
  }

  lemma ForwardSplit<T(!new)>(cmp: (T, T) -> int, list: seq<T>, q: T, b: nat, t: nat)
    requires TotalPreorder(cmp) && b < t <= |list| && Sorted(cmp, list[b..t])
    ensures Downward(cmp, list, q, -1, b, t)
    ensures cmp(list[b], q) <= 0 ==> Passes(cmp, list, q, -1, b)
  {
    forall i, j | b <= i < j < t && Passes(cmp, list, q, -1, j) ensures Passes(cmp, list, q, -1, i) {
      assert list[i] == list[b..t][i - b] && list[j] == list[b..t][j - b];
      Trans(cmp, list[i], list[j], q);
    }
  }

  lemma BackwardSplit<T(!new)>(cmp: (T, T) -> int, list: seq<T>, q: T, b: nat, t: nat)
    requires TotalPreorder(cmp) && b < t <= |list| && Sorted(cmp, list[b..t])
    ensures Downward(cmp, list, q, 0, b, t)
    ensures cmp(q, list[b]) > 0 ==> Passes(cmp, list, q, 0, b)
  {
    forall i, j | b <= i < j < t && Passes(cmp, list, q, 0, j) ensures Passes(cmp, list, q, 0, i) {
      assert list[i] == list[b..t][i - b] && list[j] == list[b..t][j - b];
      if cmp(q, list[i]) <= 0 {
        Trans(cmp, q, list[i], list[j]);
      }
    }
  }

  /** One run being exhausted, the other is appended. */
  lemma TakeRest<T(!new)>(cmp: (T, T) -> int, out: seq<T>, r1: seq<T>, r2: seq<T>, input: seq<T>)
    requires Merging(cmp, out, r1, r2, input) && (r1 == [] || r2 == [])
    ensures Sorted(cmp, out + r1 + r2) && StableEq(cmp, out + r1 + r2, input)
  {
  }

  /** The block list1[from..to] and the single element list1[one] go to the output,
      which ends up holding `out` and these. */
  method Emit<T>(list1: array<T>, list2: array<T>, from: nat, to: nat, one: nat, ghost start: nat, tp2: nat)
    returns (tp2': nat)
    requires list1 != list2 && from < to <= list1.Length && one < list1.Length
    requires start <= tp2 && tp2 + (to - from) < list2.Length
    modifies list2
    ensures tp2' == tp2 + (to - from) + 1
    ensures list2[..][start..tp2'] == old(list2[..])[start..tp2] + list1[from..to] + [list1[one]]
    ensures list2[..][..start] == old(list2[..])[..start] && list2[..][tp2'..] == old(list2[..])[tp2'..]
  {
    ghost var was, u := list2[..], list1[from..to];
    CopyList(list1, list2, from, to, tp2);
    ghost var mid := list2[..];
    tp2' := tp2 + (to - from);
    CopyList(list1, list2, one, one + 1, tp2');
    WrittenTwice(was, mid, list2[..], start, tp2, u, [list1[one]]);
    tp2' := tp2' + 1;
  }

  lemma TakeFirstAt<T(!new)>(cmp: (T, T) -> int, out: seq<T>, list: seq<T>, f1: nat, mid: nat, f2: nat, end: nat,
                             b: nat, input: seq<T>)
    requires TotalPreorder(cmp) && f1 < mid <= f2 < end <= |list|
    requires Merging(cmp, out, list[f1..mid], list[f2..end], input)
    requires SplitAt(cmp, list, list[f2], -1, f1, mid, b)
    ensures Merging(cmp, out + list[f1..b] + [list[f2]], list[b..mid], list[f2 + 1..end], input)
  {
    var r1, r2 := list[f1..mid], list[f2..end];
    SplitOfSlice(cmp, list, list[f2], -1, f1, mid, b);
    TakeFirst(cmp, out, r1, r2, b - f1, input);
    assert r1[..b - f1] == list[f1..b] && r1[b - f1..] == list[b..mid] && r2[1..] == list[f2 + 1..end];
  }

  lemma TakeSecondAt<T(!new)>(cmp: (T, T) -> int, out: seq<T>, list: seq<T>, f1: nat, mid: nat, f2: nat, end: nat,
                              b: nat, input: seq<T>)
    requires TotalPreorder(cmp) && f1 < mid <= f2 < end <= |list|
    requires Merging(cmp, out, list[f1..mid], list[f2..end], input)
    requires SplitAt(cmp, list, list[f1], 0, f2, end, b)
    ensures Merging(cmp, out + list[f2..b] + [list[f1]], list[f1 + 1..mid], list[b..end], input)
  {
    var r1, r2 := list[f1..mid], list[f2..end];
    SplitOfSlice(cmp, list, list[f1], 0, f2, end, b);
    TakeSecond(cmp, out, r1, r2, b - f2, input);
    assert r2[..b - f2] == list[f2..b] && r2[b - f2..] == list[b..end] && r1[1..] == list[f1 + 1..mid];
  }

  lemma SuffixOfSuffix<T>(was: seq<T>, now: seq<T>, at: nat, end: nat)
    requires at <= end <= |was| == |now| && was[at..] == now[at..]
    ensures was[end..] == now[end..]
  {
    assert was[end..] == was[at..][end - at..];
  }

  /** Where the merge of list1[start..mid] and list1[mid..end] stands. */
  ghost predicate MergedTo<T(!new)>(cmp: (T, T) -> int, list: seq<T>, dst: seq<T>, start: nat, mid: nat, end: nat,
                                    f1: nat, f2: nat, tp2: nat, input: seq<T>)
  {
    && start <= f1 <= mid <= f2 <= end <= |list| == |dst| && tp2 == f1 + f2 - mid
    && Merging(cmp, dst[start..tp2], list[f1..mid], list[f2..end], input)
  }

  /** The head of the second run comes out, after what of the first is not above it. */
  method MergeFirst<T(!new)>(cmp: (T, T) -> int, list1: array<T>, list2: array<T>, ghost start: nat, mid: nat, ghost end: nat,
                             f1: nat, f2: nat, tp2: nat, big0: bool, ghost input: seq<T>)
    returns (b: nat, tp2': nat, big: bool)
    requires TotalPreorder(cmp) && list1 != list2 && f1 < mid && f2 < end
    requires MergedTo(cmp, list1[..], list2[..], start, mid, end, f1, f2, tp2, input)
    requires cmp(list1[f1], list1[f2]) <= 0
    modifies list2
    ensures f1 < b <= mid && MergedTo(cmp, list1[..], list2[..], start, mid, end, b, f2 + 1, tp2', input)
    ensures list2[..][..start] == old(list2[..])[..start] && list2[..][end..] == old(list2[..])[end..]
  {
    ghost var out, was := list2[..][start..tp2], list2[..];
    ForwardSplit(cmp, list1[..], list1[f2], f1, mid);
    b, big := FindSplit(cmp, list1, list1[f2], f1, mid, -1, big0);
    TakeFirstAt(cmp, out, list1[..], f1, mid, f2, end, b, input);
    tp2' := Emit(list1, list2, f1, b, f2, start, tp2);
    SuffixOfSuffix(was, list2[..], tp2', end);
  }

  /** The head of the first run comes out, after what of the second is below it. */
  method MergeSecond<T(!new)>(cmp: (T, T) -> int, list1: array<T>, list2: array<T>, ghost start: nat, ghost mid: nat, end: nat,
                              f1: nat, f2: nat, tp2: nat, big0: bool, ghost input: seq<T>)
    returns (b: nat, tp2': nat, big: bool)
    requires TotalPreorder(cmp) && list1 != list2 && f1 < mid && f2 < end
    requires MergedTo(cmp, list1[..], list2[..], start, mid, end, f1, f2, tp2, input)
    requires cmp(list1[f1], list1[f2]) > 0
    modifies list2
    ensures f2 < b <= end && MergedTo(cmp, list1[..], list2[..], start, mid, end, f1 + 1, b, tp2', input)
    ensures list2[..][..start] == old(list2[..])[..start] && list2[..][end..] == old(list2[..])[end..]
  {
    ghost var out, was := list2[..][start..tp2], list2[..];
    BackwardSplit(cmp, list1[..], list1[f1], f2, end);
    b, big := FindSplit(cmp, list1, list1[f1], f2, end, 0, big0);
    TakeSecondAt(cmp, out, list1[..], f1, mid, f2, end, b, input);
    tp2' := Emit(list1, list2, f2, b, f1, start, tp2);
    SuffixOfSuffix(was, list2[..], tp2', end);
  }

  /** One round of the merge loop. */
  method MergeStep<T(!new)>(cmp: (T, T) -> int, list1: array<T>, list2: array<T>, ghost start: nat, mid: nat, end: nat,
                            f10: nat, f20: nat, tp20: nat, big0: bool, ghost input: seq<T>)
    returns (f1: nat, f2: nat, tp2: nat, big: bool)
    requires TotalPreorder(cmp) && list1 != list2 && f10 < mid && f20 < end
    requires MergedTo(cmp, list1[..], list2[..], start, mid, end, f10, f20, tp20, input)
    modifies list2
    ensures f10 + f20 < f1 + f2 && MergedTo(cmp, list1[..], list2[..], start, mid, end, f1, f2, tp2, input)
    ensures list2[..][..start] == old(list2[..])[..start] && list2[..][end..] == old(list2[..])[end..]
  {
    if cmp(list1[f10], list1[f20]) <= 0 {
      f2 := f20 + 1;
      f1, tp2, big := MergeFirst(cmp, list1, list2, start, mid, end, f10, f20, tp20, big0, input);
    } else {
      f1 := f10 + 1;
      f2, tp2, big := MergeSecond(cmp, list1, list2, start, mid, end, f10, f20, tp20, big0, input);
    }
  }

  /** The merge loop goes on until one run is used up. */
  method MergeHeads<T(!new)>(cmp: (T, T) -> int, list1: array<T>, list2: array<T>, ghost start: nat, mid: nat, end: nat,
                             f10: nat, f20: nat, tp20: nat, big0: bool, ghost input: seq<T>)
    returns (f1: nat, f2: nat, tp2: nat, big: bool)
    requires TotalPreorder(cmp) && list1 != list2
    requires MergedTo(cmp, list1[..], list2[..], start, mid, end, f10, f20, tp20, input)
    modifies list2
    ensures MergedTo(cmp, list1[..], list2[..], start, mid, end, f1, f2, tp2, input) && (f1 == mid || f2 == end)
    ensures list2[..][..start] == old(list2[..])[..start] && list2[..][end..] == old(list2[..])[end..]
  {
    f1, f2, tp2, big := f10, f20, tp20, big0;
    while f1 < mid && f2 < end
      invariant MergedTo(cmp, list1[..], list2[..], start, mid, end, f1, f2, tp2, input)
      invariant list2[..][..start] == old(list2[..])[..start] && list2[..][end..] == old(list2[..])[end..]
      decreases mid + end - f1 - f2
    {
      f1, f2, tp2, big := MergeStep(cmp, list1, list2, start, mid, end, f1, f2, tp2, big, input);
    }
  }

  /** What is left of the runs, at most one of which is not used up, goes to the output. */
  method CopyRest<T>(list1: array<T>, list2: array<T>, ghost start: nat, mid: nat, end: nat, f1: nat, f2: nat, tp2: nat)
    requires list1 != list2 && list1.Length == list2.Length
    requires start <= f1 <= mid <= f2 <= end <= list1.Length && tp2 == f1 + f2 - mid && (f1 == mid || f2 == end)
    modifies list2
    ensures list2[..][start..end] == old(list2[..])[start..tp2] + list1[..][f1..mid] + list1[..][f2..end]
    ensures list2[..][..start] == old(list2[..])[..start] && list2[..][end..] == old(list2[..])[end..]
  {
    ghost var was := list2[..];
    if f2 < end {
      CopyList(list1, list2, f2, end, tp2);
      WrittenOnce(was, list2[..], start, tp2, list1[f2..end]);
    } else if f1 < mid {
      CopyList(list1, list2, f1, mid, tp2);
      WrittenOnce(was, list2[..], start, tp2, list1[f1..mid]);
    }
  }

  lemma WrittenOnce<T>(a: seq<T>, b: seq<T>, start: nat, at: nat, u: seq<T>)
    requires Written(a, b, at, u) && start <= at
    ensures b[start..at + |u|] == a[start..at] + u
    ensures b[..start] == a[..start] && b[at + |u|..] == a[at + |u|..]
  {
  }

  /** Merges list1[start..mid] and list1[mid..end] into list2[start..end]. */
  method MergeRuns<T(!new)>(cmp: (T, T) -> int, list1: array<T>, list2: array<T>,
                            start: nat, mid: nat, end: nat, big0: bool)
    returns (big: bool)
    requires TotalPreorder(cmp) && list1 != list2
    requires start < mid <= end <= list1.Length == list2.Length
    requires Sorted(cmp, list1[start..mid]) && Sorted(cmp, list1[mid..end])
    modifies list2
    ensures Sorted(cmp, list2[start..end])
    ensures StableEq(cmp, list2[start..end], list1[start..end])
    ensures list2[..start] == old(list2[..start]) && list2[end..] == old(list2[end..])
  {
    ghost var list, input := list1[..], list1[start..end];
    NothingMerged(cmp, list, list2[..], start, mid, end, input);
    var f1, f2, tp2;
    f1, f2, tp2, big := MergeHeads(cmp, list1, list2, start, mid, end, start, mid, start, big0, input);
    TakeRest(cmp, list2[..][start..tp2], list[f1..mid], list[f2..end], input);
    CopyRest(list1, list2, start, mid, end, f1, f2, tp2);
    ghost var now := list2[..];
    assert now[start..end] == list2[start..end] && now[..start] == list2[..start] && now[end..] == list2[end..];
  }

  lemma NothingMerged<T(!new)>(cmp: (T, T) -> int, list: seq<T>, dst: seq<T>, start: nat, mid: nat, end: nat, input: seq<T>)
    requires start <= mid <= end <= |list| == |dst| && input == list[start..end]
    requires Sorted(cmp, list[start..mid]) && Sorted(cmp, list[mid..end])
    ensures MergedTo(cmp, list, dst, start, mid, end, start, mid, start, input)
  {
    assert dst[start..start] + list[start..mid] + list[mid..end] == input;
  }

  // ----- merging passes over the linked runs -----

  /** The k-th run named by the boundaries bs is sorted and linked to the next. */
  ghost predicate RunAt<T>(cmp: (T, T) -> int, list: seq<T>, link: seq<nat>, bs: seq<nat>, k: nat, upto: nat)
    requires k + 1 < |bs| && upto <= |list| == |link|
  {
    bs[k] < bs[k + 1] <= upto && link[bs[k]] == bs[k + 1] && Sorted(cmp, list[bs[k]..bs[k + 1]])
  }

  /** link threads the runs of list from position 0 to `upto`; bs are their boundaries. */
  ghost predicate Runs<T>(cmp: (T, T) -> int, list: seq<T>, link: seq<nat>, bs: seq<nat>, upto: nat) {
    && |bs| >= 1 && bs[0] == 0 && bs[|bs| - 1] == upto <= |list| == |link|
    && (forall k :: 0 <= k < |bs| - 1 ==> RunAt(cmp, list, link, bs, k, upto))
  }

  lemma AddRun<T>(cmp: (T, T) -> int, list: seq<T>, list': seq<T>, link: seq<nat>, bs: seq<nat>, upto: nat, c: nat)
    requires Runs(cmp, list, link, bs, upto)
    requires upto < c <= |list| == |list'| && list[..upto] == list'[..upto]
    requires Sorted(cmp, list'[upto..c])
    ensures Runs(cmp, list', link[upto := c], bs + [c], c)
  {
    var bs', link' := bs + [c], link[upto := c];
    forall k | 0 <= k < |bs'| - 1 ensures RunAt(cmp, list', link', bs', k, c) {
      if k < |bs| - 1 {
        assert RunAt(cmp, list, link, bs, k, upto);
        SamePart(list, list', upto, bs[k], bs[k + 1]);
      }
    }
  }

  lemma SamePart<T>(s: seq<T>, t: seq<T>, upto: nat, lo: nat, hi: nat)
    requires lo <= hi <= upto <= |s| && upto <= |t| && s[..upto] == t[..upto]
    ensures s[lo..hi] == t[lo..hi]
  {
    forall i | lo <= i < hi ensures s[i] == t[i] {
      assert s[i] == s[..upto][i] && t[i] == t[..upto][i];
    }
  }

  lemma LastRun<T>(cmp: (T, T) -> int, list: seq<T>, link: seq<nat>, bs: seq<nat>, upto: nat, r: nat)
    requires Runs(cmp, list, link, bs, upto) && r < |bs|
    ensures r < |bs| - 1 ==> bs[r] < upto
  {
    if r < |bs| - 1 {
      assert RunAt(cmp, list, link, bs, r, upto);
    }
  }

  lemma StableGrow<T(!new)>(cmp: (T, T) -> int, out: seq<T>, input: seq<T>, a: nat, b: nat, was: seq<T>)
    requires a <= b <= |out| == |input| == |was|
    requires StableEq(cmp, was[..a], input[..a]) && out[..a] == was[..a]
    requires StableEq(cmp, out[a..b], input[a..b])
    ensures StableEq(cmp, out[..b], input[..b])
  {
    StableConcat(cmp, out[..a], input[..a], out[a..b], input[a..b]);
    assert out[..b] == out[..a] + out[a..b] && input[..b] == input[..a] + input[a..b];
  }

  /** One pass: neighbouring runs of list1 are merged in pairs into list2, so their number halves. */
  method MergePass<T(!new)>(cmp: (T, T) -> int, list1: array<T>, list2: array<T>, link1: array<nat>, link2: array<nat>,
                            ghost bs: seq<nat>, big0: bool)
    returns (big: bool, ghost bs': seq<nat>)
    requires TotalPreorder(cmp) && list1 != list2 && link1 != link2
    requires list1 as object !in {link1, link2} && list2 as object !in {link1, link2}
    requires 0 < list1.Length == list2.Length == link1.Length == link2.Length
    requires Runs(cmp, list1[..], link2[..], bs, list1.Length)
    modifies list2, link1
    ensures Runs(cmp, list2[..], link1[..], bs', list1.Length)
    ensures |bs'| - 1 == (|bs| - 1 + 1) / 2
    ensures StableEq(cmp, list2[..], list1[..])
  {
    var n := list1.Length;
    var p2, l2 := 0, 0;
    ghost var r := 0;
    ghost var input, links := list1[..], link2[..];
    big, bs' := big0, [0];
    while p2 != n
      invariant list1[..] == input && link2[..] == links
      invariant 0 <= r < |bs| && p2 == l2 == bs[r] && (r % 2 == 0 || p2 == n)
      invariant Runs(cmp, list2[..], link1[..], bs', p2) && |bs'| - 1 == (r + 1) / 2
      invariant StableEq(cmp, list2[..][..p2], input[..p2])
      decreases |bs| - r
    {
      ghost var was, wasLink := list2[..], link1[..];
      var p1, f1 := l2, l2;
      assert RunAt(cmp, input, links, bs, r, n);
      p2 := link2[p2];
      r := r + 1;
      var l1 := p2;
      assert Sorted(cmp, input[f1..l1]);
      if p2 != n {
        assert RunAt(cmp, input, links, bs, r, n);
        p2 := link2[p2];
        r := r + 1;
      }
      l2 := p2;
      assert Sorted(cmp, input[l1..l2]);
      big := MergeRuns(cmp, list1, list2, f1, l1, l2, big);
      ghost var now := list2[..];
      assert now[f1..l2] == list2[f1..l2] && input[f1..l2] == list1[f1..l2];
      assert now[..f1] == was[..f1];
      link1[p1] := l2;
      assert list1[..] == input && link2[..] == links && list2[..] == now && link1[..] == wasLink[p1 := l2];
      AddRun(cmp, was, now, wasLink, bs', f1, l2);
      StableGrow(cmp, now, input, f1, l2, was);
      bs' := bs' + [l2];
    }
    assert list2[..][..n] == list2[..] && input[..n] == input;
    LastRun(cmp, input, links, bs, n, r);
  }

  // ----- the first pass: natural or pairwise runs -----

  function Rev<T>(s: seq<T>): (r: seq<T>)
    ensures |r| == |s| && forall i :: 0 <= i < |s| ==> r[i] == s[|s| - 1 - i]
  {
    if s == [] then [] else Rev(s[1..]) + [s[0]]
  }

  /** Every later element of s[lo..hi] stands to every earlier one as `sense` says:
      strictly below it, or not below it. */
  ghost predicate MonoOn<T>(cmp: (T, T) -> int, sense: bool, s: seq<T>, lo: int, hi: int) {
    forall i, j :: 0 <= lo <= i < j < hi <= |s| ==> (cmp(s[i], s[j]) > 0) == sense
  }

  lemma ExtendMono<T(!new)>(cmp: (T, T) -> int, sense: bool, s: seq<T>, lo: int, hi: int)
    requires TotalPreorder(cmp) && 0 <= lo < hi < |s|
    requires MonoOn(cmp, sense, s, lo, hi) && (cmp(s[hi - 1], s[hi]) > 0) == sense
    ensures MonoOn(cmp, sense, s, lo, hi + 1)
  {
    forall i | lo <= i < hi - 1 ensures (cmp(s[i], s[hi]) > 0) == sense {
      if sense {
        Trans(cmp, s[hi], s[hi - 1], s[i]);
        assert cmp(s[hi - 1], s[i]) < 0;
        assert cmp(s[hi], s[i]) < 0;
      } else {
        Trans(cmp, s[i], s[hi - 1], s[hi]);
      }
    }
  }

  /** Only strictly descending stretches are reversed, so equal elements keep their order. */
  lemma {:induction false} ReverseIsStable<T(!new)>(cmp: (T, T) -> int, s: seq<T>)
    requires TotalPreorder(cmp) && MonoOn(cmp, true, s, 0, |s|)
    ensures Sorted(cmp, Rev(s)) && StableEq(cmp, Rev(s), s)
  {
    if s != [] {
      ReverseIsStable(cmp, s[1..]);
      Commute(cmp, s[1..], [s[0]]);
      StableConcat(cmp, Rev(s[1..]), s[1..], [s[0]], [s[0]]);
      assert s == [s[0]] + s[1..];
      StableTrans(cmp, Rev(s), s[1..] + [s[0]], s);
    }
  }

  ghost predicate BlockReversed<T>(was: seq<T>, now: seq<T>, bot: nat, top: nat) {
    && bot <= top < |was| == |now|
    && (forall k :: 0 <= k < bot || top < k < |was| ==> now[k] == was[k])
    && (forall k :: bot <= k <= top ==> now[k] == was[bot + top - k])
  }

  lemma ReversedSlices<T>(was: seq<T>, now: seq<T>, bot: nat, top: nat)
    requires BlockReversed(was, now, bot, top)
    ensures was == was[..bot] + was[bot..top + 1] + was[top + 1..]
    ensures now == was[..bot] + Rev(was[bot..top + 1]) + was[top + 1..]
  {
    InThree(was, bot, top + 1);
    InThree(now, bot, top + 1);
    assert now[..bot] == was[..bot] && now[top + 1..] == was[top + 1..];
    ReversedMiddle(was, now, bot, top);
  }

  lemma InThree<T>(s: seq<T>, lo: nat, hi: nat)
    requires lo <= hi <= |s|
    ensures s == s[..lo] + s[lo..hi] + s[hi..]
  {
  }

  lemma ReversedMiddle<T>(was: seq<T>, now: seq<T>, bot: nat, top: nat)
    requires BlockReversed(was, now, bot, top)
    ensures now[bot..top + 1] == Rev(was[bot..top + 1])
  {
    var block := was[bot..top + 1];
    forall k | 0 <= k < |block| ensures now[bot..top + 1][k] == Rev(block)[k] {
      assert now[bot + k] == was[top - k];
    }
  }

  lemma ReversedBlock<T(!new)>(cmp: (T, T) -> int, was: seq<T>, now: seq<T>, bot: nat, top: nat)
    requires TotalPreorder(cmp) && BlockReversed(was, now, bot, top)
    requires MonoOn(cmp, true, was, bot, top + 1)
    ensures SortedOn(cmp, now, bot, top + 1) && StableEq(cmp, now, was)
  {
    var left, block, right := was[..bot], was[bot..top + 1], was[top + 1..];
    ReversedSlices(was, now, bot, top);
    ReverseIsStable(cmp, block);
    StableAround(cmp, left, Rev(block), block, right);
    assert now[bot..top + 1] == Rev(block);
    SortedSlice(cmp, now, bot, top + 1);
  }

  lemma SortedSlice<T>(cmp: (T, T) -> int, s: seq<T>, lo: nat, hi: nat)
    requires lo <= hi <= |s|
    ensures Sorted(cmp, s[lo..hi]) <==> SortedOn(cmp, s, lo, hi)
  {
    if Sorted(cmp, s[lo..hi]) {
      forall i, j | lo <= i < j < hi ensures cmp(s[i], s[j]) <= 0 {
        assert s[i] == s[lo..hi][i - lo] && s[j] == s[lo..hi][j - lo];
      }
    }
  }

  /** Turns the strictly descending stretch a[bot..top] (both included) round in place. */
  method Reverse<T(!new)>(cmp: (T, T) -> int, a: array<T>, bot0: nat, top: nat)
    requires TotalPreorder(cmp) && bot0 < top < a.Length && MonoOn(cmp, true, a[..], bot0, top + 1)
    modifies a
    ensures SortedOn(cmp, a[..], bot0, top + 1) && StableEq(cmp, a[..], old(a[..]))
    ensures forall k :: 0 <= k < bot0 || top < k < a.Length ==> a[k] == old(a[k])
  {
    var bot, s := bot0, top;
    while bot < s
      invariant bot0 <= bot <= s + 1 && bot + s == bot0 + top
      invariant forall k :: 0 <= k < a.Length ==>
        a[k] == if bot0 <= k < bot || s < k <= top then old(a[bot0 + top - k]) else old(a[k])
    {
      a[bot], a[s] := a[s], a[bot];
      bot, s := bot + 1, s - 1;
    }
    ReversedBlock(cmp, old(a[..]), a[..], bot0, top);
  }

  /** The pairs starting at every second position of s[lo..hi] all compare as `sense` says. */
  ghost predicate PairsOn<T>(cmp: (T, T) -> int, sense: bool, s: seq<T>, lo: int, hi: int) {
    0 <= lo <= hi < |s| && (hi - lo) % 2 == 0
    && forall k :: lo <= k < hi && (k - lo) % 2 == 0 ==> (cmp(s[k], s[k + 1]) > 0) == sense
  }

  /** How far the first pass has got: s is a stable rearrangement of s0, untouched from
      f1 on, and its part before f1 is threaded as runs. */
  ghost predicate SetupTo<T(!new)>(cmp: (T, T) -> int, s0: seq<T>, s: seq<T>, link: seq<nat>, bs: seq<nat>, f1: nat) {
    && |s| == |s0| && StableEq(cmp, s, s0)
    && Runs(cmp, s, link, bs, f1)
    && forall k :: f1 <= k < |s| ==> s[k] == s0[k]
  }

  lemma CloseRun<T(!new)>(cmp: (T, T) -> int, s0: seq<T>, s: seq<T>, s': seq<T>, link: seq<nat>, bs: seq<nat>, f1: nat, f2: nat)
    requires SetupTo(cmp, s0, s, link, bs, f1) && f1 < f2 <= |s| == |s'|
    requires SortedOn(cmp, s', f1, f2) && StableEq(cmp, s', s)
    requires forall k :: 0 <= k < f1 || f2 <= k < |s| ==> s'[k] == s[k]
    ensures SetupTo(cmp, s0, s', link[f1 := f2], bs + [f2], f2)
  {
    SortedSlice(cmp, s', f1, f2);
    assert s[..f1] == s'[..f1];
    AddRun(cmp, s, s', link, bs, f1, f2);
    StableTrans(cmp, s', s, s0);
  }

  /** The ends of runs of two from lo to hi. */
  function EndsOfPairs(lo: nat, hi: nat): seq<nat> {
    if lo + 2 > hi then [] else EndsOfPairs(lo, hi - 2) + [hi]
  }

  /** The pairs of s[lo..hi] are those of s0, each the other way round if `sense`. */
  ghost predicate PairsTurned<T>(s0: seq<T>, s: seq<T>, lo: int, hi: int, sense: bool) {
    && 0 <= lo <= hi < |s0| == |s|
    && forall k :: lo <= k < hi && (k - lo) % 2 == 0 ==> PairTurned(s0, s, k, sense)
  }

  ghost predicate PairTurned<T>(s0: seq<T>, s: seq<T>, k: int, sense: bool)
    requires 0 <= k && k + 1 < |s0| == |s|
  {
    s[k] == s0[if sense then k + 1 else k] && s[k + 1] == s0[if sense then k else k + 1]
  }

  /** Lines 301-303: one pair becomes a run. */
  method PairRun<T(!new)>(cmp: (T, T) -> int, list1: array<T>, link2: array<nat>, f1: nat, sense: bool,
                          ghost s0: seq<T>, ghost bs: seq<nat>)
    requires TotalPreorder(cmp) && list1 as object != link2 && f1 + 2 <= list1.Length
    requires SetupTo(cmp, s0, list1[..], link2[..], bs, f1) && (cmp(s0[f1], s0[f1 + 1]) > 0) == sense
    modifies list1, link2
    ensures SetupTo(cmp, s0, list1[..], link2[..], bs + [f1 + 2], f1 + 2)
    ensures PairTurned(s0, list1[..], f1, sense)
    ensures forall k :: 0 <= k < f1 ==> list1[k] == old(list1[k])
    ensures forall k :: 0 <= k < link2.Length && k != f1 ==> link2[k] == old(link2[k])
  {
    ghost var s, link: seq<nat> := list1[..], link2[..];
    link2[f1] := f1 + 2;
    if sense {
      SwapAdjacent(cmp, s, f1);
      assert cmp(s[f1 + 1], s[f1]) <= 0;
      list1[f1], list1[f1 + 1] := list1[f1 + 1], list1[f1];
      assert list1[..] == s[f1 := s[f1 + 1]][f1 + 1 := s[f1]];
    }
    CloseRun(cmp, s0, s, list1[..], link, bs, f1, f1 + 2);
    assert link2[..] == link[f1 := f1 + 2];
  }

  /** Lines 299-304: each pair becomes a run of its own, turned round if it descends. */
  method PairRuns<T(!new)>(cmp: (T, T) -> int, list1: array<T>, link2: array<nat>, f1_0: nat, f2: nat, sense: bool,
                           ghost s0: seq<T>, ghost bs0: seq<nat>)
    returns (p2: nat, ghost bs: seq<nat>)
    requires TotalPreorder(cmp) && list1 as object != link2 && f1_0 < f2
    requires SetupTo(cmp, s0, list1[..], link2[..], bs0, f1_0)
    requires PairsOn(cmp, sense, s0, f1_0, f2)
    modifies list1, link2
    ensures p2 == f2 && SetupTo(cmp, s0, list1[..], link2[..], bs, f2)
    ensures bs == bs0 + EndsOfPairs(f1_0, f2) && PairsTurned(s0, list1[..], f1_0, f2, sense)
    ensures forall k :: f2 <= k < link2.Length ==> link2[k] == old(link2[k])
  {
    var f1 := f1_0;
    p2, bs := f1_0, bs0;
    assert bs0 + [] == bs0;
    while f1 < f2
      invariant f1_0 <= f1 <= f2 && (f1 - f1_0) % 2 == 0 && p2 == f1
      invariant SetupTo(cmp, s0, list1[..], link2[..], bs, f1)
      invariant bs == bs0 + EndsOfPairs(f1_0, f1) && PairsTurned(s0, list1[..], f1_0, f1, sense)
      invariant forall k :: f2 <= k < link2.Length ==> link2[k] == old(link2[k])
      decreases f2 - f1
    {
      assert (cmp(s0[f1], s0[f1 + 1]) > 0) == sense;
      ghost var was := list1[..];
      PairRun(cmp, list1, link2, p2, sense, s0, bs);
      TurnedMore(s0, was, list1[..], f1_0, f1, sense);
      assert bs + [f1 + 2] == bs0 + (EndsOfPairs(f1_0, f1) + [f1 + 2]);
      p2 := f1 + 2;
      bs := bs + [f1 + 2];
      f1 := f1 + 2;
    }
  }

  lemma TurnedMore<T>(s0: seq<T>, was: seq<T>, s: seq<T>, lo: int, f1: int, sense: bool)
    requires PairsTurned(s0, was, lo, f1, sense) && |s| == |s0| && f1 + 2 < |s0| && (f1 - lo) % 2 == 0
    requires PairTurned(s0, s, f1, sense) && forall k :: 0 <= k < f1 ==> s[k] == was[k]
    ensures PairsTurned(s0, s, lo, f1 + 2, sense)
  {
    forall k | lo <= k < f1 + 2 && (k - lo) % 2 == 0 ensures PairTurned(s0, s, k, sense) {
      OddGap(k - lo, f1 - lo);
      if k < f1 { assert PairTurned(s0, was, k, sense); }
    }
  }

  lemma OddGap(a: int, b: int)
    requires 0 <= a < b + 2 && a % 2 == 0 && b % 2 == 0
    ensures a < b ==> a + 1 < b
    ensures a >= b ==> a == b
  {
  }

  /** Links the stretch list1[f1..f2] as a run, turning it round first if it descends. */
  method EndRun<T(!new)>(cmp: (T, T) -> int, list1: array<T>, link2: array<nat>, f1: nat, f2: nat, sense: bool,
                         ghost s0: seq<T>, ghost bs0: seq<nat>)
    returns (ghost bs: seq<nat>)
    requires TotalPreorder(cmp) && list1 as object != link2 && f1 + 1 < f2
    requires SetupTo(cmp, s0, list1[..], link2[..], bs0, f1) && f2 < list1.Length
    requires MonoOn(cmp, sense, list1[..], f1, f2)
    modifies list1, link2
    ensures SetupTo(cmp, s0, list1[..], link2[..], bs, f2)
    ensures forall k :: 0 <= k < link2.Length && k != f1 ==> link2[k] == old(link2[k])
  {
    ghost var was, link: seq<nat> := list1[..], link2[..];
    link2[f1] := f2;
    if sense {
      Reverse(cmp, list1, f1, f2 - 1);
    }
    CloseRun(cmp, s0, was, list1[..], link, bs0, f1, f2);
    assert link2[..] == link[f1 := f2];
    bs := bs0 + [f2];
  }

  /** Lines 308-313: the pair at f2 joins the stretch list1[f1..f2] or starts a new one. */
  method ExtendOrEnd<T(!new)>(cmp: (T, T) -> int, list1: array<T>, link2: array<nat>, f1: nat, f2: nat, sense: bool,
                              ghost s0: seq<T>, ghost bs: seq<nat>)
    returns (f1': nat, ghost bs': seq<nat>)
    requires TotalPreorder(cmp) && list1 as object != link2 && f1 + 1 < f2
    requires SetupTo(cmp, s0, list1[..], link2[..], bs, f1) && f2 + 1 < list1.Length
    requires MonoOn(cmp, sense, list1[..], f1, f2) && (cmp(s0[f2], s0[f2 + 1]) > 0) == sense
    modifies list1, link2
    ensures (f1' == f1 || f1' == f2) && SetupTo(cmp, s0, list1[..], link2[..], bs', f1')
    ensures MonoOn(cmp, sense, list1[..], f1', f2 + 2)
    ensures forall k :: 0 <= k < link2.Length && k != f1 ==> link2[k] == old(link2[k])
  {
    f1', bs' := f1, bs;
    if (cmp(list1[f2 - 1], list1[f2]) > 0) != sense {
      bs' := EndRun(cmp, list1, link2, f1, f2, sense, s0, bs);
      f1' := f2;
    } else {
      ExtendMono(cmp, sense, list1[..], f1, f2);
    }
    ExtendMono(cmp, sense, list1[..], f1', f2 + 1);
  }

  /** Lines 306-315: stretches whose neighbours all compare as `sense` says become runs; the last
      one is left as it is. */
  method Stretches<T(!new)>(cmp: (T, T) -> int, list1: array<T>, link2: array<nat>, f1_0: nat, l2: nat, sense: bool,
                            ghost s0: seq<T>, ghost bs0: seq<nat>)
    returns (f1: nat, ghost bs: seq<nat>)
    requires TotalPreorder(cmp) && list1 as object != link2 && f1_0 < l2
    requires SetupTo(cmp, s0, list1[..], link2[..], bs0, f1_0)
    requires PairsOn(cmp, sense, s0, f1_0, l2)
    modifies list1, link2
    ensures f1 + 1 < l2 && SetupTo(cmp, s0, list1[..], link2[..], bs, f1) && MonoOn(cmp, sense, list1[..], f1, l2)
    ensures forall k :: l2 <= k < link2.Length ==> link2[k] == old(link2[k])
  {
    f1, bs := f1_0, bs0;
    var f2 := f1 + 2;
    FirstPair(cmp, sense, s0, f1_0, l2, list1[..]);
    while f2 < l2
      invariant f1 + 1 < f2 <= l2 && (f2 - f1_0) % 2 == 0
      invariant SetupTo(cmp, s0, list1[..], link2[..], bs, f1)
      invariant MonoOn(cmp, sense, list1[..], f1, f2)
      invariant forall k :: l2 <= k < link2.Length ==> link2[k] == old(link2[k])
      decreases l2 - f2
    {
      NextPair(cmp, sense, s0, f1_0, l2, f2);
      f1, bs := ExtendOrEnd(cmp, list1, link2, f1, f2, sense, s0, bs);
      f2 := f2 + 2;
    }
  }

  lemma FirstPair<T>(cmp: (T, T) -> int, sense: bool, s0: seq<T>, lo: int, hi: int, s: seq<T>)
    requires PairsOn(cmp, sense, s0, lo, hi) && lo < hi && |s| == |s0| && s[lo..lo + 2] == s0[lo..lo + 2]
    ensures lo + 2 <= hi && MonoOn(cmp, sense, s, lo, lo + 2)
  {
    assert s[lo] == s[lo..lo + 2][0] == s0[lo] && s[lo + 1] == s[lo..lo + 2][1] == s0[lo + 1];
  }

  lemma NextPair<T>(cmp: (T, T) -> int, sense: bool, s: seq<T>, lo: int, hi: int, k: int)
    requires PairsOn(cmp, sense, s, lo, hi) && lo <= k < hi && (k - lo) % 2 == 0
    ensures k + 2 <= hi && (k + 2 - lo) % 2 == 0 && (cmp(s[k], s[k + 1]) > 0) == sense
  {
  }

  /** Lines 306-317: the last stretch is turned round, too, and left for the caller to link. */
  method NaturalRuns<T(!new)>(cmp: (T, T) -> int, list1: array<T>, link2: array<nat>, f1_0: nat, l2: nat, sense: bool,
                              ghost s0: seq<T>, ghost bs0: seq<nat>)
    returns (p2: nat, ghost s: seq<T>, ghost bs: seq<nat>)
    requires TotalPreorder(cmp) && list1 as object != link2 && f1_0 < l2
    requires SetupTo(cmp, s0, list1[..], link2[..], bs0, f1_0)
    requires PairsOn(cmp, sense, s0, f1_0, l2)
    modifies list1, link2
    ensures p2 < l2 && SetupTo(cmp, s0, s, link2[..], bs, p2) && MonoOn(cmp, sense, s, p2, l2)
    ensures |s| == list1.Length && SortedOn(cmp, list1[..], p2, l2) && StableEq(cmp, list1[..], s)
    ensures forall k :: 0 <= k < p2 || l2 <= k < |s| ==> list1[k] == s[k]
    ensures forall k :: l2 <= k < link2.Length ==> link2[k] == old(link2[k])
  {
    p2, bs := Stretches(cmp, list1, link2, f1_0, l2, sense, s0, bs0);
    s := list1[..];
    if sense {
      Reverse(cmp, list1, p2, l2 - 1);
    }
  }

  /** Lines 305-322: natural runs; the last one also takes in the sorted tail when it can. */
  method NaturalMerge<T(!new)>(cmp: (T, T) -> int, list1: array<T>, link2: array<nat>, f1: nat, f2: nat, sense: bool,
                               last: nat, ghost s0: seq<T>, ghost bs0: seq<nat>)
    returns (p2: nat, ghost bs: seq<nat>)
    requires TotalPreorder(cmp) && list1 as object != link2 && f1 < f2 <= last < list1.Length
    requires SetupTo(cmp, s0, list1[..], link2[..], bs0, f1)
    requires PairsOn(cmp, sense, s0, f1, f2) && SortedOn(cmp, s0, last, |s0|)
    modifies list1, link2
    ensures if p2 == |s0| then f2 == last && StableEq(cmp, list1[..], s0) && Runs(cmp, list1[..], link2[..], bs, |s0|)
            else p2 == f2 && SetupTo(cmp, s0, list1[..], link2[..], bs, f2)
    ensures p2 == |s0| <==> f2 == last && cmp(list1[f2 - 1], list1[f2]) <= 0
    ensures forall k :: f2 <= k < link2.Length ==> link2[k] == old(link2[k])
  {
    ghost var s;
    p2, s, bs := NaturalRuns(cmp, list1, link2, f1, f2, sense, s0, bs0);
    ghost var link: seq<nat>, run := link2[..], p2;
    if f2 < last || cmp(list1[f2 - 1], list1[f2]) > 0 {
      link2[p2] := f2;
      p2 := f2;
    } else {
      link2[p2] := list1.Length;
      JoinSorted(cmp, list1[..], run, f2, list1.Length);
      p2 := list1.Length;
    }
    CloseRun(cmp, s0, s, list1[..], link, bs, run, p2);
    assert link2[..] == link[run := p2];
    bs := bs + [p2];
  }

  /** The state of the first pass at the head of its loop: either the tail is still to be
      linked, or the last natural run has taken it in. */
  ghost predicate SetupState<T(!new)>(cmp: (T, T) -> int, s0: seq<T>, s: seq<T>, link: seq<nat>, bs: seq<nat>,
                                      p2: nat, f1: nat, last: nat)
  {
    if p2 == |s0| then f1 == last && StableEq(cmp, s, s0) && Runs(cmp, s, link, bs, |s0|)
    else p2 == f1 && SetupTo(cmp, s0, s, link, bs, f1)
  }

  lemma MorePairs<T>(cmp: (T, T) -> int, sense: bool, s: seq<T>, lo: int, hi: int)
    requires PairsOn(cmp, sense, s, lo, hi) && hi + 2 < |s| && (cmp(s[hi], s[hi + 1]) > 0) == sense
    ensures PairsOn(cmp, sense, s, lo, hi + 2)
  {
    forall k | lo <= k < hi + 2 && (k - lo) % 2 == 0 ensures (cmp(s[k], s[k + 1]) > 0) == sense {
      OddGap(k - lo, hi - lo);
    }
  }

  /** Lines 294-298: how far pairs go on comparing with the same sense. */
  method SameSense<T>(cmp: (T, T) -> int, list1: array<T>, f1: nat, last: nat, sense: bool)
    returns (length: nat, f2: nat)
    requires f1 < last < list1.Length && (last - f1) % 2 == 0
    requires (cmp(list1[f1], list1[f1 + 1]) > 0) == sense
    ensures f1 + 1 < f1 + length == f2 <= last && PairsOn(cmp, sense, list1[..], f1, f2)
    ensures f2 < last ==> (cmp(list1[f2], list1[f2 + 1]) > 0) != sense
  {
    length, f2 := 2, f1 + 2;
    while f2 < last
      invariant f1 + 1 < f1 + length == f2 <= last && PairsOn(cmp, sense, list1[..], f1, f2)
      decreases last - f2
    {
      if (cmp(list1[f2], list1[f2 + 1]) > 0) != sense {
        break;
      }
      MorePairs(cmp, sense, list1[..], f1, f2);
      length, f2 := length + 2, f2 + 2;
    }
  }

  /** Lines 294-324: the pairs that compare with the same sense become runs. */
  method SetupStep<T(!new)>(cmp: (T, T) -> int, list1: array<T>, link2: array<nat>, f1: nat, sense: bool, last: nat,
                            ghost s0: seq<T>, ghost bs0: seq<nat>)
    returns (f2: nat, p2: nat, ghost bs: seq<nat>)
    requires TotalPreorder(cmp) && list1 as object != link2 && f1 < last < list1.Length && (last - f1) % 2 == 0
    requires SetupTo(cmp, s0, list1[..], link2[..], bs0, f1) && SortedOn(cmp, s0, last, |s0|)
    requires (cmp(s0[f1], s0[f1 + 1]) > 0) == sense
    modifies list1, link2
    ensures f1 < f2 <= last && (last - f2) % 2 == 0
    ensures SetupState(cmp, s0, list1[..], link2[..], bs, p2, f2, last) && link2[last] == old(link2[last])
    ensures f2 < last ==> (cmp(s0[f2], s0[f2 + 1]) > 0) != sense
  {
    var length;
    length, f2 := SameSense(cmp, list1, f1, last, sense);
    assert PairsOn(cmp, sense, s0, f1, f2);
    if length < THRESHOLD {
      p2, bs := PairRuns(cmp, list1, link2, f1, f2, sense, s0, bs0);
    } else {
      p2, bs := NaturalMerge(cmp, list1, link2, f1, f2, sense, last, s0, bs0);
    }
  }

  /** The first pass over more than five elements, the last four or five being sorted already. */
  method SetupRuns<T(!new)>(cmp: (T, T) -> int, list1: array<T>, link2: array<nat>, last: nat)
    returns (ghost bs: seq<nat>)
    requires TotalPreorder(cmp) && list1 as object != link2
    requires 2 <= last < list1.Length == link2.Length && last % 2 == 0
    requires SortedOn(cmp, list1[..], last, list1.Length) && link2[last] == list1.Length
    modifies list1, link2
    ensures Runs(cmp, list1[..], link2[..], bs, list1.Length)
    ensures StableEq(cmp, list1[..], old(list1[..]))
  {
    var n := list1.Length;
    ghost var s0 := list1[..];
    var p2, f1 := 0, 0;
    var sense := cmp(list1[0], list1[1]) > 0;
    bs := [0];
    while f1 < last
      invariant f1 <= last && f1 % 2 == 0 && link2[last] == n
      invariant f1 < last ==> (cmp(s0[f1], s0[f1 + 1]) > 0) == sense
      invariant SetupState(cmp, s0, list1[..], link2[..], bs, p2, f1, last)
      decreases last - f1
    {
      f1, p2, bs := SetupStep(cmp, list1, link2, f1, sense, last, s0, bs);
      sense := !sense;
    }
    if p2 == last {
      CloseRun(cmp, s0, list1[..], list1[..], link2[..], bs, last, n);
      assert link2[..] == link2[..][last := n];
      bs := bs + [n];
    }
  }

  /** The first pass: list1 becomes a chain of sorted runs threaded through link2. */
  method Setup<T(!new)>(cmp: (T, T) -> int, list1: array<T>, link2: array<nat>)
    returns (ghost bs: seq<nat>)
    requires TotalPreorder(cmp) && list1 as object != link2
    requires 0 < list1.Length == link2.Length
    modifies list1, link2
    ensures Runs(cmp, list1[..], link2[..], bs, list1.Length)
    ensures StableEq(cmp, list1[..], old(list1[..]))
  {
    var n := list1.Length;
    if n <= 5 {
      InsertionSort(cmp, list1, 0, n);
      link2[0] := n;
      bs := [0, n];
      SortedSlice(cmp, list1[..], 0, n);
      assert RunAt(cmp, list1[..], link2[..], bs, 0, n);
      return;
    }
    var i := 4 + n % 2;
    InsertionSort(cmp, list1, n - i, i);
    ghost var s0 := list1[..];
    link2[n - i] := n;
    assert list1[..] == s0;
    bs := SetupRuns(cmp, list1, link2, n - i);
    StableTrans(cmp, list1[..], s0, old(list1[..]));
  }

  /** Two neighbouring sorted stretches whose meeting elements are in order form one. */
  lemma JoinSorted<T(!new)>(cmp: (T, T) -> int, s: seq<T>, lo: int, mid: int, hi: int)
    requires TotalPreorder(cmp) && 0 <= lo < mid < hi <= |s|
    requires SortedOn(cmp, s, lo, mid) && SortedOn(cmp, s, mid, hi) && cmp(s[mid - 1], s[mid]) <= 0
    ensures SortedOn(cmp, s, lo, hi)
  {
    forall i, j | lo <= i < mid <= j < hi ensures cmp(s[i], s[j]) <= 0 {
      assert cmp(s[i], s[i]) == 0 && cmp(s[j], s[j]) == 0;
      Trans(cmp, s[i], s[mid - 1], s[mid]);
      Trans(cmp, s[i], s[mid], s[j]);
    }
  }

  // ----- the whole sort -----

  const PSIZE: nat := 8

  /** mergesort(base, nmemb, size, cmp); `mallocOk` says whether malloc succeeds. Elements too
      small to hold the links are refused. On success the array holds the one sorted, stable
      rearrangement of its old contents. */
  method Mergesort<T(!new, 0)>(base: array<T>, size: nat, cmp: (T, T) -> int, mallocOk: bool)
    returns (rv: int)
    requires TotalPreorder(cmp)
    modifies base
    ensures rv == if size < 4 || (base.Length > 0 && !mallocOk) then -1 else 0
    ensures rv != 0 ==> base[..] == old(base[..])
    ensures rv == 0 ==> Sorted(cmp, base[..]) && StableEq(cmp, base[..], old(base[..]))
    ensures multiset(base[..]) == multiset(old(base[..]))
  {
    if size < PSIZE / 2 {
      return -1;
    }
    if base.Length == 0 {
      return 0;
    }
    if !mallocOk {
      return -1;
    }
    var n := base.Length;
    ghost var s0 := base[..];
    var list1, list2 := base, new T[n];
    var link1, link2 := new nat[n], new nat[n];
    ghost var bs := Setup(cmp, list1, link2);
    var big := false;
    assert RunAt(cmp, list1[..], link2[..], bs, 0, n);
    while link2[0] != n
      invariant list1 != list2 && link1 != link2 && fresh(link1) && fresh(link2)
      invariant (list1 == base && fresh(list2)) || (list2 == base && fresh(list1))
      invariant list1 as object !in {link1, link2} && list2 as object !in {link1, link2}
      invariant list1.Length == list2.Length == link1.Length == link2.Length == n
      invariant Runs(cmp, list1[..], link2[..], bs, n) && RunAt(cmp, list1[..], link2[..], bs, 0, n)
      invariant StableEq(cmp, list1[..], s0)
      decreases |bs|
    {
      LastRun(cmp, list1[..], link2[..], bs, n, 1);
      ghost var was := list1[..];
      big, bs := MergePass(cmp, list1, list2, link1, link2, bs, big);
      StableTrans(cmp, list2[..], was, s0);
      list1, list2 := list2, list1;
      link1, link2 := link2, link1;
      assert RunAt(cmp, list1[..], link2[..], bs, 0, n);
    }
    assert list1[..][0..n] == list1[..];
    if base == list2 {
      CopyList(list1, list2, 0, n, 0);
      assert list1[0..n] == list1[..];
      assert base[..] == list1[..];
    }
    StableIsPermutation(cmp, base[..], s0);
    return 0;
  }
}
