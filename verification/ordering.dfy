/** Comparators, sortedness and stability, shared by the two sorts.
    A comparator is a C style three-way function; only the sign of its result matters. */
module Ordering {
  import opened Strings

  /** What qsort(3)-style callers promise of a comparator. */
  ghost predicate TotalPreorder<T(!new)>(cmp: (T, T) -> int) {
    && (forall a, b :: cmp(a, b) <= 0 <==> cmp(b, a) >= 0)
    && (forall a, b, c {:trigger Via(cmp, a, b, c)} ::
          Via(cmp, a, b, c) && cmp(a, b) <= 0 && cmp(b, c) <= 0 ==> cmp(a, c) <= 0)
  }

  /** Always true; names a triple for which transitivity is wanted. */
  ghost predicate Via<T>(cmp: (T, T) -> int, a: T, b: T, c: T) { true }

  lemma Trans<T(!new)>(cmp: (T, T) -> int, a: T, b: T, c: T)
    requires TotalPreorder(cmp)
    requires cmp(a, b) <= 0 && cmp(b, c) <= 0
    ensures cmp(a, c) <= 0
    ensures cmp(a, b) < 0 || cmp(b, c) < 0 ==> cmp(a, c) < 0
  {
    assert Via(cmp, a, b, c);
    if cmp(a, c) == 0 {
      assert cmp(c, a) <= 0;
      assert Via(cmp, b, c, a) && Via(cmp, c, a, b);
    }
  }

  ghost predicate Sorted<T>(cmp: (T, T) -> int, s: seq<T>) {
    forall i, j :: 0 <= i < j < |s| ==> cmp(s[i], s[j]) <= 0
  }

  /** s is sorted from position lo up to, not including, hi. */
  ghost predicate SortedOn<T>(cmp: (T, T) -> int, s: seq<T>, lo: int, hi: int) {
    forall i, j :: 0 <= lo <= i < j < hi <= |s| ==> cmp(s[i], s[j]) <= 0
  }

  /** The elements of s that compare equal to x, in the order s has them. */
  ghost function Class<T>(cmp: (T, T) -> int, x: T, s: seq<T>): seq<T> {
    if s == [] then []
    else (if cmp(s[0], x) == 0 then [s[0]] else []) + Class(cmp, x, s[1..])
  }

  /** s and t hold the same elements, and equal ones in the same order. */
  ghost predicate StableEq<T(!new)>(cmp: (T, T) -> int, s: seq<T>, t: seq<T>) {
    forall x :: Class(cmp, x, s) == Class(cmp, x, t)
  }

  lemma {:induction false} ClassConcat<T>(cmp: (T, T) -> int, x: T, s: seq<T>, t: seq<T>)
    ensures Class(cmp, x, s + t) == Class(cmp, x, s) + Class(cmp, x, t)
  {
    if s == [] {
      assert s + t == t;
    } else {
      assert (s + t)[0] == s[0] && (s + t)[1..] == s[1..] + t;
      ClassConcat(cmp, x, s[1..], t);
      Regroup(if cmp(s[0], x) == 0 then [s[0]] else [], Class(cmp, x, s[1..]), Class(cmp, x, t));
    }
  }

  lemma StableConcat<T(!new)>(cmp: (T, T) -> int, s: seq<T>, s': seq<T>, t: seq<T>, t': seq<T>)
    requires StableEq(cmp, s, s') && StableEq(cmp, t, t')
    ensures StableEq(cmp, s + t, s' + t')
  {
    forall x ensures Class(cmp, x, s + t) == Class(cmp, x, s' + t') {
      ClassConcat(cmp, x, s, t);
      ClassConcat(cmp, x, s', t');
    }
  }

  lemma StableTrans<T(!new)>(cmp: (T, T) -> int, a: seq<T>, b: seq<T>, c: seq<T>)
    requires StableEq(cmp, a, b) && StableEq(cmp, b, c)
    ensures StableEq(cmp, a, c)
  {
  }

  lemma StableAround<T(!new)>(cmp: (T, T) -> int, left: seq<T>, a: seq<T>, b: seq<T>, right: seq<T>)
    requires StableEq(cmp, a, b)
    ensures StableEq(cmp, left + a + right, left + b + right)
  {
    StableConcat(cmp, left, left, a, b);
    StableConcat(cmp, left + a, left + b, right, right);
  }

  lemma {:induction false} ClassEmpty<T>(cmp: (T, T) -> int, x: T, s: seq<T>)
    requires forall i :: 0 <= i < |s| ==> cmp(s[i], x) != 0
    ensures Class(cmp, x, s) == []
  {
    if s != [] { ClassEmpty(cmp, x, s[1..]); }
  }

  /** Neighbouring blocks with no equal elements across them may trade places. */
  lemma Commute<T(!new)>(cmp: (T, T) -> int, u: seq<T>, v: seq<T>)
    requires TotalPreorder(cmp)
    requires forall i, j :: 0 <= i < |u| && 0 <= j < |v| ==> cmp(u[i], v[j]) != 0
    ensures StableEq(cmp, u + v, v + u)
  {
    forall x ensures Class(cmp, x, u + v) == Class(cmp, x, v + u) {
      ClassConcat(cmp, x, u, v);
      ClassConcat(cmp, x, v, u);
      if i :| 0 <= i < |u| && cmp(u[i], x) == 0 {
        forall j | 0 <= j < |v| ensures cmp(v[j], x) != 0 {
          if cmp(v[j], x) == 0 {
            assert cmp(x, v[j]) == 0;
            assert cmp(x, u[i]) == 0;
            Trans(cmp, u[i], x, v[j]);
            Trans(cmp, v[j], x, u[i]);
          }
        }
        ClassEmpty(cmp, x, v);
      } else {
        ClassEmpty(cmp, x, u);
      }
    }
  }

  lemma {:induction false} ClassCounts<T(!new)>(cmp: (T, T) -> int, x: T, s: seq<T>)
    requires TotalPreorder(cmp)
    ensures multiset(Class(cmp, x, s))[x] == multiset(s)[x]
  {
    if s != [] {
      assert s == [s[0]] + s[1..];
      ClassCounts(cmp, x, s[1..]);
      assert cmp(x, x) == 0;
    }
  }

  /** A stable rearrangement is in particular a permutation. */
  lemma StableIsPermutation<T(!new)>(cmp: (T, T) -> int, s: seq<T>, t: seq<T>)
    requires TotalPreorder(cmp) && StableEq(cmp, s, t)
    ensures multiset(s) == multiset(t)
  {
    forall x ensures multiset(s)[x] == multiset(t)[x] {
      ClassCounts(cmp, x, s);
      ClassCounts(cmp, x, t);
    }
  }

  lemma SameHead<T(!new)>(cmp: (T, T) -> int, s: seq<T>, t: seq<T>)
    requires TotalPreorder(cmp) && StableEq(cmp, s, t)
    requires Sorted(cmp, s) && Sorted(cmp, t)
    ensures |s| == |t|
    ensures s != [] ==> s[0] == t[0]
  {
    StableIsPermutation(cmp, s, t);
    assert |s| == |multiset(s)| == |multiset(t)| == |t|;
    if s != [] {
      var x, y := s[0], t[0];
      assert x in multiset(s) && y in multiset(t);
      assert x in t && y in s;
      assert cmp(x, x) == 0 && cmp(y, y) == 0;
      assert cmp(x, y) <= 0 && cmp(y, x) <= 0;
      assert Class(cmp, x, s)[0] == x && Class(cmp, x, t)[0] == y;
    }
  }

  lemma SameTail<T(!new)>(cmp: (T, T) -> int, x: T, s: seq<T>, t: seq<T>)
    requires StableEq(cmp, [x] + s, [x] + t)
    ensures StableEq(cmp, s, t)
  {
    forall z ensures Class(cmp, z, s) == Class(cmp, z, t) {
      ClassConcat(cmp, z, [x], s);
      ClassConcat(cmp, z, [x], t);
      var head := Class(cmp, z, [x]);
      assert Class(cmp, z, s) == Class(cmp, z, [x] + s)[|head|..];
      assert Class(cmp, z, t) == Class(cmp, z, [x] + t)[|head|..];
    }
  }

  /** Sortedness and stability together leave one possible result. */
  lemma {:induction false} StableSortUnique<T(!new)>(cmp: (T, T) -> int, s: seq<T>, t: seq<T>)
    requires TotalPreorder(cmp) && StableEq(cmp, s, t)
    requires Sorted(cmp, s) && Sorted(cmp, t)
    ensures s == t
  {
    SameHead(cmp, s, t);
    if s != [] {
      assert s == [s[0]] + s[1..] && t == [s[0]] + t[1..];
      SameTail(cmp, s[0], s[1..], t[1..]);
      StableSortUnique(cmp, s[1..], t[1..]);
    }
  }
}
