/** The ordering of hooks of common/hook.c: constraints by name become a predecessor graph,
    which a greedy topological sort then lists. */
module HookOrder {
  import opened Ordering
  import opened Wrappers
  import QuickSort

  /** An entry of a hook table; a name may be missing, and so may the two lists of names. */
  datatype Hook = Hook(fn: int, szName: Option<string>, aszPredecessors: seq<string>,
                       aszSuccessors: seq<string>, nOrder: int)

  // ----- the constraint graph -----

  /** k is the hook a name stands for: the first to carry it. */
  ghost predicate Named(items: seq<Hook>, name: string, k: nat) {
    && k < |items| && items[k].szName == Some(name)
    && forall j :: 0 <= j < k ==> items[j].szName != Some(name)
  }

  ghost predicate NamesIt(items: seq<Hook>, names: seq<string>, k: nat) {
    exists name :: name in names && Named(items, name, k)
  }

  /** Hook k must come before hook n, because n names k as a predecessor or k names n as a successor. */
  ghost predicate Edge(items: seq<Hook>, k: nat, n: nat) {
    && k < |items| && n < |items|
    && (NamesIt(items, items[n].aszPredecessors, k) || NamesIt(items, items[k].aszSuccessors, n))
  }

  ghost predicate Distinct(s: seq<nat>) {
    forall i, j :: 0 <= i < j < |s| ==> s[i] != s[j]
  }

  /** Predecessor lists over |preds| nodes, without repetition. */
  ghost predicate Graph(preds: seq<seq<nat>>) {
    forall n :: 0 <= n < |preds| ==> Distinct(preds[n]) && forall k :: k in preds[n] ==> k < |preds|
  }

  /** A cycle, walked from each node to one of its predecessors. */
  ghost predicate Cycle(preds: seq<seq<nat>>, c: seq<nat>) {
    && c != [] && (forall i :: 0 <= i < |c| ==> c[i] < |preds|)
    && (forall i :: 0 <= i < |c| - 1 ==> c[i + 1] in preds[c[i]])
    && c[0] in preds[c[|c| - 1]]
  }

  ghost predicate Acyclic(preds: seq<seq<nat>>) {
    forall c :: !Cycle(preds, c)
  }

  /** preds records exactly the constraints between the items. */
  ghost predicate ConstraintGraph(items: seq<Hook>, preds: seq<seq<nat>>) {
    && |preds| == |items| && Graph(preds)
    && forall m, k :: 0 <= m < |items| ==> (k in preds[m] <==> Edge(items, k, m))
  }

  // ----- the order asked for -----

  ghost predicate Ready(preds: seq<seq<nat>>, done: seq<nat>, n: nat) {
    n < |preds| && n !in done && forall k :: k in preds[n] ==> k in done
  }

  ghost predicate LeastReady(preds: seq<seq<nat>>, done: seq<nat>, n: nat) {
    Ready(preds, done, n) && forall m :: 0 <= m < n ==> !Ready(preds, done, m)
  }

  /** Each entry is the least node ready after those before it. */
  ghost predicate Greedy(preds: seq<seq<nat>>, order: seq<nat>) {
    forall i :: 0 <= i < |order| ==> LeastReady(preds, order[..i], order[i])
  }

  // ----- finite graphs -----

  lemma {:induction false} DistinctBounded(s: seq<nat>, n: nat)
    requires Distinct(s) && forall i :: 0 <= i < |s| ==> s[i] < n
    ensures |s| <= n
    ensures |s| == n ==> forall k :: 0 <= k < n ==> k in s
    decreases n
  {
    if s != [] {
      assert s[0] < n;
      if i :| 0 <= i < |s| && s[i] == n - 1 {
        var t := s[..i] + s[i + 1..];
        DistinctBounded(t, n - 1);
        assert forall k :: k in t ==> k in s;
      } else {
        DistinctBounded(s, n - 1);
      }
    }
  }

  lemma Repeats(s: seq<nat>, n: nat) returns (i: nat, j: nat)
    requires |s| > n && forall i :: 0 <= i < |s| ==> s[i] < n
    ensures i < j < |s| && s[i] == s[j]
  {
    if Distinct(s) {
      DistinctBounded(s, n);
    }
    i, j :| 0 <= i < j < |s| && s[i] == s[j];
  }

  lemma SomeMissing(done: seq<nat>, n: nat) returns (m: nat)
    requires |done| < n
    ensures m < n && m !in done
  {
    if forall k :: 0 <= k < n ==> k in done {
      AllPresent(done, n);
    }
    m :| 0 <= m < n && m !in done;
  }

  lemma {:induction false} AllPresent(s: seq<nat>, n: nat)
    requires forall k :: 0 <= k < n ==> k in s
    ensures |s| >= n
    decreases n
  {
    if n > 0 {
      assert n - 1 in s;
      var i :| 0 <= i < |s| && s[i] == n - 1;
      var t := s[..i] + s[i + 1..];
      forall k | 0 <= k < n - 1 ensures k in t {
        assert k in s;
        var j :| 0 <= j < |s| && s[j] == k;
        assert t[if j < i then j else j - 1] == k;
      }
      AllPresent(t, n - 1);
    }
  }

  /** From every node not done one may step back to a predecessor not done, as often as one likes. */
  lemma {:induction false} WalkBack(preds: seq<seq<nat>>, done: seq<nat>, start: nat, len: nat) returns (w: seq<nat>)
    requires Graph(preds) && start < |preds| && start !in done
    requires forall m :: 0 <= m < |preds| ==> !Ready(preds, done, m)
    ensures |w| == len + 1 && w[0] == start
    ensures forall i :: 0 <= i < |w| ==> w[i] < |preds|
    ensures forall i :: 0 <= i < len ==> w[i + 1] in preds[w[i]]
    decreases len
  {
    if len == 0 {
      w := [start];
    } else {
      assert !Ready(preds, done, start);
      var k :| k in preds[start] && k !in done;
      var rest := WalkBack(preds, done, k, len - 1);
      w := [start] + rest;
    }
  }

  /** When nothing is ready and something is left, there is a cycle. */
  lemma StuckHasCycle(preds: seq<seq<nat>>, done: seq<nat>)
    requires Graph(preds) && |done| < |preds|
    requires forall m :: 0 <= m < |preds| ==> !Ready(preds, done, m)
    ensures !Acyclic(preds)
  {
    var start := SomeMissing(done, |preds|);
    var w := WalkBack(preds, done, start, |preds|);
    var i, j := Repeats(w, |preds|);
    assert Cycle(preds, w[i..j]);
  }

  lemma GreedyIsDistinct(preds: seq<seq<nat>>, order: seq<nat>)
    requires Greedy(preds, order)
    ensures Distinct(order) && forall i :: 0 <= i < |order| ==> order[i] < |preds|
  {
    forall j | 0 <= j < |order| ensures order[j] < |preds| && forall i :: 0 <= i < j ==> order[i] != order[j] {
      assert LeastReady(preds, order[..j], order[j]);
      assert forall i :: 0 <= i < j ==> order[i] == order[..j][i];
    }
  }

  /** Predecessors come first. */
  lemma GreedyFollows(preds: seq<seq<nat>>, order: seq<nat>, j: nat, k: nat) returns (i: nat)
    requires Greedy(preds, order) && j < |order| && order[j] < |preds| && k in preds[order[j]]
    ensures i < j && order[i] == k
  {
    assert LeastReady(preds, order[..j], order[j]);
    assert k in order[..j];
    i :| 0 <= i < j && order[..j][i] == k;
  }

  /** The position, along an order, of the nodes of a cycle keeps falling, and comes back to its first. */
  lemma {:induction false} CycleFalls(preds: seq<seq<nat>>, order: seq<nat>, c: seq<nat>, i: nat, p: nat) returns (q: nat)
    requires Greedy(preds, order) && Cycle(preds, c) && i <= |c|
    requires p < |order| && order[p] == c[0]
    ensures q < |order| && order[q] == (if i == |c| then c[0] else c[i]) && (i > 0 ==> q < p)
  {
    var head := c[0];
    if i == 0 {
      q := p;
    } else {
      var r := CycleFalls(preds, order, c, i - 1, p);
      if i < |c| {
        assert c[i - 1 + 1] in preds[c[i - 1]];
        q := GreedyFollows(preds, order, r, c[i]);
      } else {
        q := GreedyFollows(preds, order, r, head);
      }
    }
  }

  /** A complete greedy order leaves no room for a cycle. */
  lemma CompleteIsAcyclic(preds: seq<seq<nat>>, order: seq<nat>)
    requires Greedy(preds, order) && |order| == |preds|
    ensures Acyclic(preds)
  {
    GreedyIsDistinct(preds, order);
    DistinctBounded(order, |preds|);
    forall c ensures !Cycle(preds, c) {
      if Cycle(preds, c) {
        assert c[0] in order;
        var p :| 0 <= p < |order| && order[p] == c[0];
        var q := CycleFalls(preds, order, c, |c|, p);
        assert false;
      }
    }
  }

  // ----- prepare -----

  /** The edges found once rows before n are done, and of row n the first i predecessor names and
      the first j successor names. */
  ghost predicate EdgeSeen(items: seq<Hook>, n: nat, i: nat, j: nat, k: nat, m: nat) {
    && k < |items| && m < |items|
    && ( (m < n && NamesIt(items, items[m].aszPredecessors, k))
      || (m == n && i <= |items[n].aszPredecessors| && NamesIt(items, items[n].aszPredecessors[..i], k))
      || (k < n && NamesIt(items, items[k].aszSuccessors, m))
      || (k == n && j <= |items[n].aszSuccessors| && NamesIt(items, items[n].aszSuccessors[..j], m)))
  }

  ghost predicate Recorded(items: seq<Hook>, preds: seq<seq<nat>>, n: nat, i: nat, j: nat) {
    && |preds| == |items| && Graph(preds)
    && forall m, k :: 0 <= m < |items| ==> (k in preds[m] <==> EdgeSeen(items, n, i, j, k, m))
  }

  /** The first hook of that name, if any. */
  method Lookup(items: seq<Hook>, name: string) returns (r: Option<nat>)
    ensures r.Some? ==> Named(items, name, r.value)
    ensures r.None? ==> forall k :: !Named(items, name, k)
  {
    var k := 0;
    while k < |items|
      invariant 0 <= k <= |items| && forall j :: 0 <= j < k ==> items[j].szName != Some(name)
    {
      if items[k].szName.Some? && items[k].szName.value == name {
        return Some(k);
      }
      k := k + 1;
    }
    return None;
  }

  /** Lines 93-98 and 108-113: k joins the predecessors of m unless it is there already. */
  method AddPredecessor(ppPredecessors: array<seq<nat>>, m: nat, k: nat) returns (added: bool)
    requires m < ppPredecessors.Length && k < ppPredecessors.Length && Graph(ppPredecessors[..])
    modifies ppPredecessors
    ensures ppPredecessors[..] == old(ppPredecessors[..])[m := ppPredecessors[m]]
    ensures Graph(ppPredecessors[..])
    ensures |ppPredecessors[m]| == |old(ppPredecessors[m])| + (if added then 1 else 0)
    ensures forall x :: x in ppPredecessors[m] <==> x in old(ppPredecessors[m]) || x == k
  {
    var l := 0;
    while l < |ppPredecessors[m]|
      invariant 0 <= l <= |ppPredecessors[m]| && k !in ppPredecessors[m][..l]
    {
      if ppPredecessors[m][l] == k {
        return false;
      }
      l := l + 1;
    }
    ppPredecessors[m] := ppPredecessors[m] + [k];
    return true;
  }

  function CrudeOrder(a: Hook, b: Hook): int {
    a.nOrder - b.nOrder
  }

  lemma UpByOrder(items: seq<Hook>)
    requires Sorted(CrudeOrder, items)
    ensures forall i, j :: 0 <= i < j < |items| ==> items[i].nOrder <= items[j].nOrder
  {
    forall i, j | 0 <= i < j < |items| ensures items[i].nOrder <= items[j].nOrder {
      assert CrudeOrder(items[i], items[j]) <= 0;
    }
  }

  ghost predicate Counted(ppPredecessors: seq<seq<nat>>, nPredecessors: seq<nat>) {
    |nPredecessors| == |ppPredecessors| && forall m :: 0 <= m < |nPredecessors| ==> nPredecessors[m] == |ppPredecessors[m]|
  }

  lemma SeenSoFar(items: seq<Hook>, preds: seq<seq<nat>>, preds': seq<seq<nat>>, n: nat, i: nat, j: nat, i': nat, j': nat,
                  name: string, r: Option<nat>)
    requires n < |items| && i <= i' <= |items[n].aszPredecessors| && j <= j' <= |items[n].aszSuccessors|
    requires Recorded(items, preds, n, i, j) && |preds'| == |preds| && Graph(preds')
    requires r.Some? ==> Named(items, name, r.value)
    requires r.None? ==> forall k :: !Named(items, name, k)
    requires (i' == i + 1 && j' == j && name == items[n].aszPredecessors[i])
          || (i' == i && j' == j + 1 && name == items[n].aszSuccessors[j])
    requires forall m, k :: 0 <= m < |preds| ==>
      (k in preds'[m] <==> k in preds[m] || (r.Some? && (if i' == i + 1 then m == n && k == r.value else m == r.value && k == n)))
    ensures Recorded(items, preds', n, i', j')
  {
    forall m, k | 0 <= m < |items| ensures k in preds'[m] <==> EdgeSeen(items, n, i', j', k, m) {
      assert k in preds[m] <==> EdgeSeen(items, n, i, j, k, m);
      if i' == i + 1 {
        NamesOneMore(items, items[n].aszPredecessors, i, k);
      } else {
        NamesOneMore(items, items[n].aszSuccessors, j, m);
      }
    }
  }

  lemma NamesOneMore(items: seq<Hook>, names: seq<string>, i: nat, k: nat)
    requires i < |names|
    ensures NamesIt(items, names[..i + 1], k) <==> NamesIt(items, names[..i], k) || Named(items, names[i], k)
  {
    assert names[..i + 1] == names[..i] + [names[i]];
  }

  /** One name of a list is looked up and, if some hook has it, recorded. */
  method Record(items: seq<Hook>, ppPredecessors: array<seq<nat>>, nPredecessors: array<nat>, n: nat, ghost i: nat, ghost j: nat,
                name: string, succ: bool)
    requires n < |items| == ppPredecessors.Length == nPredecessors.Length
    requires i <= |items[n].aszPredecessors| && j <= |items[n].aszSuccessors|
    requires if succ then j < |items[n].aszSuccessors| && name == items[n].aszSuccessors[j]
             else i < |items[n].aszPredecessors| && name == items[n].aszPredecessors[i]
    requires Recorded(items, ppPredecessors[..], n, i, j) && Counted(ppPredecessors[..], nPredecessors[..])
    requires ppPredecessors as object != nPredecessors
    modifies ppPredecessors, nPredecessors
    ensures Recorded(items, ppPredecessors[..], n, if succ then i else i + 1, if succ then j + 1 else j)
    ensures Counted(ppPredecessors[..], nPredecessors[..])
  {
    ghost var was := ppPredecessors[..];
    var r := Lookup(items, name);
    if r.Some? {
      var m, k := if succ then r.value else n, if succ then n else r.value;
      var added := AddPredecessor(ppPredecessors, m, k);
      if added {
        nPredecessors[m] := nPredecessors[m] + 1;
      }
    }
    SeenSoFar(items, was, ppPredecessors[..], n, i, j, if succ then i else i + 1, if succ then j + 1 else j, name, r);
  }

  lemma RowDone(items: seq<Hook>, preds: seq<seq<nat>>, n: nat)
    requires n < |items| && Recorded(items, preds, n, |items[n].aszPredecessors|, |items[n].aszSuccessors|)
    ensures Recorded(items, preds, n + 1, 0, 0)
  {
    assert items[n].aszPredecessors[..|items[n].aszPredecessors|] == items[n].aszPredecessors;
    assert items[n].aszSuccessors[..|items[n].aszSuccessors|] == items[n].aszSuccessors;
    forall m, k | 0 <= m < |items| ensures k in preds[m] <==> EdgeSeen(items, n + 1, 0, 0, k, m) {
      assert k in preds[m] <==> EdgeSeen(items, n, |items[n].aszPredecessors|, |items[n].aszSuccessors|, k, m);
    }
  }

  /** Line 77: the table goes up by nOrder. */
  method SortByOrder(items: array<Hook>)
    modifies items
    ensures multiset(items[..]) == multiset(old(items[..]))
    ensures forall i, j :: 0 <= i < j < items.Length ==> items[i].nOrder <= items[j].nOrder
  {
    assert TotalPreorder(CrudeOrder);
    QuickSort.Qsort(CrudeOrder, items, 0, items.Length, false);
    UpByOrder(items[..]);
  }

  /** Sorts the table by nOrder and gives each hook the list of those that must come before it. */
  method Prepare(items: array<Hook>) returns (ppPredecessors: array<seq<nat>>, nPredecessors: array<nat>)
    modifies items
    ensures fresh(ppPredecessors) && fresh(nPredecessors) && ppPredecessors as object != nPredecessors
    ensures ppPredecessors.Length == nPredecessors.Length == items.Length
    ensures multiset(items[..]) == multiset(old(items[..]))
    ensures forall i, j :: 0 <= i < j < items.Length ==> items[i].nOrder <= items[j].nOrder
    ensures ConstraintGraph(items[..], ppPredecessors[..]) && Counted(ppPredecessors[..], nPredecessors[..])
  {
    SortByOrder(items);
    ppPredecessors := new seq<nat>[items.Length](_ => []);
    nPredecessors := new nat[items.Length](_ => 0);
    ghost var its := items[..];
    var n := 0;
    while n < items.Length
      invariant 0 <= n <= items.Length && items[..] == its
      invariant Recorded(its, ppPredecessors[..], n, 0, 0) && Counted(ppPredecessors[..], nPredecessors[..])
    {
      RecordNames(items[..], ppPredecessors, nPredecessors, n);
      n := n + 1;
    }
    AllRecorded(its, ppPredecessors[..]);
  }

  /** The names one hook gives: first those it comes after, then those it comes before. */
  method RecordNames(items: seq<Hook>, ppPredecessors: array<seq<nat>>, nPredecessors: array<nat>, n: nat)
    requires n < |items| && ppPredecessors as object != nPredecessors
    requires Recorded(items, ppPredecessors[..], n, 0, 0) && Counted(ppPredecessors[..], nPredecessors[..])
    modifies ppPredecessors, nPredecessors
    ensures Recorded(items, ppPredecessors[..], n + 1, 0, 0) && Counted(ppPredecessors[..], nPredecessors[..])
  {
    var i, j := 0, 0;
    while i < |items[n].aszPredecessors|
      invariant 0 <= i <= |items[n].aszPredecessors|
      invariant Recorded(items, ppPredecessors[..], n, i, 0) && Counted(ppPredecessors[..], nPredecessors[..])
    {
      Record(items, ppPredecessors, nPredecessors, n, i, 0, items[n].aszPredecessors[i], false);
      i := i + 1;
    }
    while j < |items[n].aszSuccessors|
      invariant 0 <= j <= |items[n].aszSuccessors|
      invariant Recorded(items, ppPredecessors[..], n, i, j) && Counted(ppPredecessors[..], nPredecessors[..])
    {
      Record(items, ppPredecessors, nPredecessors, n, i, j, items[n].aszSuccessors[j], true);
      j := j + 1;
    }
    RowDone(items, ppPredecessors[..], n);
  }

  lemma AllRecorded(items: seq<Hook>, preds: seq<seq<nat>>)
    requires Recorded(items, preds, |items|, 0, 0)
    ensures ConstraintGraph(items, preds)
  {
    forall m, k | 0 <= m < |items| ensures k in preds[m] <==> Edge(items, k, m) {
      assert k in preds[m] <==> EdgeSeen(items, |items|, 0, 0, k, m);
    }
  }

  // ----- tsort -----

  /** How many of the nodes ps are not in done. */
  ghost function Missing(ps: seq<nat>, done: seq<nat>): nat {
    if ps == [] then 0 else (if ps[0] in done then 0 else 1) + Missing(ps[1..], done)
  }

  lemma {:induction false} MissingNone(ps: seq<nat>, done: seq<nat>)
    ensures Missing(ps, done) == 0 <==> forall k :: k in ps ==> k in done
  {
    if ps != [] {
      MissingNone(ps[1..], done);
      assert forall k :: k in ps <==> k == ps[0] || k in ps[1..];
    }
  }

  lemma {:induction false} MissingStep(ps: seq<nat>, done: seq<nat>, n: nat)
    requires Distinct(ps) && n !in done
    ensures Missing(ps, done) == Missing(ps, done + [n]) + (if n in ps then 1 else 0)
  {
    if ps != [] {
      MissingStep(ps[1..], done, n);
      assert n in ps <==> n == ps[0] || n in ps[1..];
    }
  }

  /** What the counters and links of the table say when `order` has been listed; a negative link
      is a null one, and the tail is linked to itself to look linked. */
  ghost predicate Listing(preds: seq<seq<nat>>, count: seq<nat>, next: seq<int>, order: seq<nat>) {
    && |count| == |next| == |preds| && Graph(preds) && Greedy(preds, order)
    && (forall m :: 0 <= m < |preds| ==> count[m] == Missing(preds[m], order))
    && (forall m :: 0 <= m < |preds| ==> (next[m] < 0 <==> m !in order))
    && Linked(next, order) && (order != [] ==> next[order[|order| - 1]] == order[|order| - 1])
  }

  ghost predicate Linked(next: seq<int>, order: seq<nat>) {
    && (forall i :: 0 <= i < |order| ==> order[i] < |next|)
    && (forall i :: 0 <= i < |order| - 1 ==> next[order[i]] == order[i + 1])
  }

  /** Lines 131-139: the least node that is unlinked and has no predecessor left; none if there is a loop. */
  method FindReady(count: array<nat>, next: array<int>, ghost preds: seq<seq<nat>>, ghost order: seq<nat>) returns (r: Option<nat>)
    requires count as object != next && Listing(preds, count[..], next[..], order)
    ensures r.Some? ==> LeastReady(preds, order, r.value)
    ensures r.None? ==> forall m :: 0 <= m < |preds| ==> !Ready(preds, order, m)
  {
    var n := 0;
    while n < count.Length
      invariant 0 <= n <= count.Length && forall m :: 0 <= m < n ==> !Ready(preds, order, m)
    {
      MissingNone(preds[n], order);
      if next[n] < 0 && count[n] == 0 {
        return Some(n);
      }
      n := n + 1;
    }
    return None;
  }

  /** Lines 146-151: the nodes waiting for n have one predecessor less to wait for. */
  method Release(ppPredecessors: array<seq<nat>>, count: array<nat>, n: nat, ghost order: seq<nat>)
    requires ppPredecessors as object != count && ppPredecessors.Length == count.Length
    requires Graph(ppPredecessors[..]) && n !in order
    requires forall m :: 0 <= m < count.Length ==> count[m] == Missing(ppPredecessors[m], order)
    modifies count
    ensures forall m :: 0 <= m < count.Length ==> count[m] == Missing(ppPredecessors[m], order + [n])
  {
    var i := 0;
    while i < count.Length
      invariant 0 <= i <= count.Length
      invariant forall m :: 0 <= m < i ==> count[m] == Missing(ppPredecessors[m], order + [n])
      invariant forall m :: i <= m < count.Length ==> count[m] == Missing(ppPredecessors[m], order)
    {
      assert Distinct(ppPredecessors[..][i]);
      MissingStep(ppPredecessors[i], order, n);
      var k := 0;
      while k < |ppPredecessors[i]|
        invariant 0 <= k <= |ppPredecessors[i]| && n !in ppPredecessors[i][..k]
        invariant forall m :: 0 <= m < count.Length ==> count[m] == Missing(ppPredecessors[m], if m < i then order + [n] else order)
      {
        if ppPredecessors[i][k] == n {
          count[i] := count[i] - 1;
          break;
        }
        k := k + 1;
      }
      i := i + 1;
    }
  }

  /** The list as far as it has been linked. */
  ghost predicate LinkedSoFar(preds: seq<seq<nat>>, count: seq<nat>, next: seq<int>, order: seq<nat>, pHead: int, pTail: int) {
    && Listing(preds, count, next, order)
    && if order == [] then pTail == -1 else pHead == order[0] && pTail == order[|order| - 1]
  }

  /** Lists the nodes, least ready first, by linking them; it fails where it reports a loop. For no
      nodes at all the null tail would be used. */
  method TSort(ppPredecessors: array<seq<nat>>, nPredecessors: array<nat>)
    returns (r: Outcome, pHead: int, pNext: array<int>, ghost order: seq<nat>)
    requires ppPredecessors as object != nPredecessors && ppPredecessors.Length == nPredecessors.Length
    requires Graph(ppPredecessors[..]) && Counted(ppPredecessors[..], nPredecessors[..])
    modifies nPredecessors
    ensures r == Undefined <==> ppPredecessors.Length == 0
    ensures r == Fail <==> !Acyclic(ppPredecessors[..])
    ensures fresh(pNext) && pNext.Length == ppPredecessors.Length
    ensures r == Success ==> Greedy(ppPredecessors[..], order) && |order| == ppPredecessors.Length
    ensures r == Success ==> Linked(pNext[..], order) && pHead == order[0] && pNext[order[|order| - 1]] < 0
  {
    var nItems := ppPredecessors.Length;
    ghost var preds := ppPredecessors[..];
    pNext := new int[nItems](_ => -1);
    var pTail, ready;
    ready, pHead, pTail, order := LinkAll(ppPredecessors, nPredecessors, pNext);
    if !ready {
      return Fail, pHead, pNext, order;
    }
    GreedyIsDistinct(preds, order);
    CompleteIsAcyclic(preds, order);
    if pTail == -1 {
      return Undefined, pHead, pNext, order;
    }
    pNext[pTail] := -1;
    return Success, pHead, pNext, order;
  }

  /** Lines 128-152: all nodes are linked, or the loop is found. */
  method LinkAll(ppPredecessors: array<seq<nat>>, nPredecessors: array<nat>, pNext: array<int>)
    returns (ready: bool, pHead: int, pTail: int, ghost order: seq<nat>)
    requires ppPredecessors as object != nPredecessors && ppPredecessors as object != pNext && nPredecessors as object != pNext
    requires ppPredecessors.Length == nPredecessors.Length == pNext.Length && forall k :: 0 <= k < pNext.Length ==> pNext[k] == -1
    requires Graph(ppPredecessors[..]) && Counted(ppPredecessors[..], nPredecessors[..])
    modifies nPredecessors, pNext
    ensures !ready ==> !Acyclic(ppPredecessors[..])
    ensures ready ==> |order| == ppPredecessors.Length
    ensures ready ==> LinkedSoFar(ppPredecessors[..], nPredecessors[..], pNext[..], order, pHead, pTail)
  {
    ghost var preds := ppPredecessors[..];
    pHead, pTail, order, ready := -1, -1, [], true;
    forall m | 0 <= m < |preds| ensures nPredecessors[m] == Missing(preds[m], []) {
      MissingAll(preds[m]);
    }
    var nTotal := 0;
    while nTotal < ppPredecessors.Length
      invariant 0 <= nTotal == |order| <= ppPredecessors.Length && ppPredecessors[..] == preds
      invariant LinkedSoFar(preds, nPredecessors[..], pNext[..], order, pHead, pTail)
    {
      ready, pHead, pTail, order := LinkNext(ppPredecessors, nPredecessors, pNext, pHead, pTail, order);
      if !ready {
        return;
      }
      nTotal := nTotal + 1;
    }
    ready := true;
  }

  /** Lines 129-151: the next node is found and linked; if none is ready there is a loop. */
  method LinkNext(ppPredecessors: array<seq<nat>>, nPredecessors: array<nat>, pNext: array<int>,
                  pHead0: int, pTail0: int, ghost order0: seq<nat>)
    returns (ready: bool, pHead: int, pTail: int, ghost order: seq<nat>)
    requires ppPredecessors as object != nPredecessors && ppPredecessors as object != pNext && nPredecessors as object != pNext
    requires LinkedSoFar(ppPredecessors[..], nPredecessors[..], pNext[..], order0, pHead0, pTail0)
    requires |order0| < ppPredecessors.Length
    modifies nPredecessors, pNext
    ensures !ready ==> !Acyclic(ppPredecessors[..])
    ensures ready ==> |order| == |order0| + 1
    ensures ready ==> LinkedSoFar(ppPredecessors[..], nPredecessors[..], pNext[..], order, pHead, pTail)
  {
    ghost var preds := ppPredecessors[..];
    pHead, pTail, order := pHead0, pTail0, order0;
    var r := FindReady(nPredecessors, pNext, preds, order);
    if r.None? {
      StuckHasCycle(preds, order);
      return false, pHead, pTail, order;
    }
    var n := r.value;
    ghost var next := pNext[..];
    pHead := LinkIn(pNext, pHead, pTail, n);
    pTail := n;
    Release(ppPredecessors, nPredecessors, n, order);
    ListOneMore(preds, nPredecessors[..], next, pNext[..], order, n);
    order := order + [n];
    ready := true;
  }

  /** Lines 141-146: n becomes the last node of the list. */
  method LinkIn(pNext: array<int>, pHead0: int, pTail: int, n: nat) returns (pHead: int)
    requires -1 <= pTail < pNext.Length && n < pNext.Length
    modifies pNext
    ensures pNext[..] == (if pTail == -1 then old(pNext[..]) else old(pNext[..])[pTail := n])[n := n]
    ensures pHead == if pTail == -1 then n else pHead0
  {
    pHead := pHead0;
    if pTail != -1 {
      pNext[pTail] := n;
    } else {
      pHead := n;
    }
    pNext[n] := n;
  }

  lemma {:induction false} MissingAll(ps: seq<nat>)
    ensures Missing(ps, []) == |ps|
  {
    if ps != [] { MissingAll(ps[1..]); }
  }

  lemma ListOneMore(preds: seq<seq<nat>>, count: seq<nat>, next: seq<int>, next': seq<int>, order: seq<nat>, n: nat)
    requires |count| == |next| == |next'| == |preds| && Graph(preds) && Greedy(preds, order)
    requires forall m :: 0 <= m < |preds| ==> (next[m] < 0 <==> m !in order)
    requires Linked(next, order) && LeastReady(preds, order, n)
    requires next' == (if order == [] then next else next[order[|order| - 1] := n])[n := n]
    requires forall m :: 0 <= m < |preds| ==> count[m] == Missing(preds[m], order + [n])
    ensures Listing(preds, count, next', order + [n])
  {
    GreedyMore(preds, order, n);
    GreedyIsDistinct(preds, order);
    LinkedMore(next, next', order, n);
    UnlistedMore(next, next', order, n);
  }

  lemma UnlistedMore(next: seq<int>, next': seq<int>, order: seq<nat>, n: nat)
    requires n < |next| && forall i :: 0 <= i < |order| ==> order[i] < |next|
    requires forall m :: 0 <= m < |next| ==> (next[m] < 0 <==> m !in order)
    requires next' == (if order == [] then next else next[order[|order| - 1] := n])[n := n]
    ensures forall m :: 0 <= m < |next| ==> (next'[m] < 0 <==> m !in order + [n])
  {
    assert order != [] ==> order[|order| - 1] in order;
    forall m | 0 <= m < |next| ensures next'[m] < 0 <==> m !in order + [n] {
      assert m in order + [n] <==> m in order || m == n;
    }
  }

  lemma GreedyMore(preds: seq<seq<nat>>, order: seq<nat>, n: nat)
    requires Greedy(preds, order) && LeastReady(preds, order, n)
    ensures Greedy(preds, order + [n])
  {
    var order' := order + [n];
    forall i | 0 <= i < |order'| ensures LeastReady(preds, order'[..i], order'[i]) {
      if i < |order| {
        assert order'[..i] == order[..i];
        assert LeastReady(preds, order[..i], order[i]);
      } else {
        assert order'[..i] == order;
      }
    }
  }

  lemma LinkedMore(next: seq<int>, next': seq<int>, order: seq<nat>, n: nat)
    requires Linked(next, order) && Distinct(order) && n !in order && n < |next|
    requires next' == (if order == [] then next else next[order[|order| - 1] := n])[n := n]
    ensures Linked(next', order + [n])
  {
    var order' := order + [n];
    forall i | 0 <= i < |order'| - 1 ensures next'[order'[i]] == order'[i + 1] {
      assert order[i] in order;
      if i < |order| - 1 {
        assert order[i] != order[|order| - 1];
      }
    }
  }

  // ----- sort_hook -----

  function Listed<T>(items: seq<T>, order: seq<nat>): (out: seq<T>)
    requires forall i :: 0 <= i < |order| ==> order[i] < |items|
    ensures |out| == |order| && forall i :: 0 <= i < |out| ==> out[i] == items[order[i]]
  {
    if order == [] then [] else [items[order[0]]] + Listed(items, order[1..])
  }

  lemma {:induction false} ListedConcat<T>(items: seq<T>, a: seq<nat>, b: seq<nat>)
    requires forall i :: 0 <= i < |a| ==> a[i] < |items|
    requires forall i :: 0 <= i < |b| ==> b[i] < |items|
    ensures Listed(items, a + b) == Listed(items, a) + Listed(items, b)
  {
  }

  lemma PullOut<T>(a: seq<T>, x: T, b: seq<T>)
    ensures multiset(a + [x] + b) == multiset(a + b) + multiset{x}
  {
  }

  lemma ListedWithout<T>(items: seq<T>, a: seq<nat>, k: nat, b: seq<nat>)
    requires k < |items| && (forall i :: 0 <= i < |a| ==> a[i] < |items|) && forall i :: 0 <= i < |b| ==> b[i] < |items|
    ensures multiset(Listed(items, a + [k] + b)) == multiset(Listed(items, a + b)) + multiset{items[k]}
  {
    ListedConcat(items, a + [k], b);
    ListedConcat(items, a, [k]);
    ListedConcat(items, a, b);
    PullOut(Listed(items, a), items[k], Listed(items, b));
  }

  /** Only the positions listed matter. */
  lemma {:induction false} ListedPrefix<T>(items: seq<T>, n: nat, order: seq<nat>)
    requires n <= |items| && forall i :: 0 <= i < |order| ==> order[i] < n
    ensures Listed(items[..n], order) == Listed(items, order)
  {
    if order != [] { ListedPrefix(items, n, order[1..]); }
  }

  lemma SplitGreatest(order: seq<nat>, n: nat) returns (a: seq<nat>, b: seq<nat>)
    requires Distinct(order) && |order| == n + 1 && forall k :: 0 <= k < |order| ==> order[k] <= n
    ensures order == a + [n] + b && Distinct(a + b)
    ensures forall k :: 0 <= k < |a + b| ==> (a + b)[k] < n
    ensures (forall k :: 0 <= k < |a| ==> a[k] < n) && forall k :: 0 <= k < |b| ==> b[k] < n
  {
    DistinctBounded(order, n + 1);
    assert n in order;
    var i :| 0 <= i < |order| && order[i] == n;
    a, b := order[..i], order[i + 1..];
    forall k | 0 <= k < |order| && k != i ensures order[k] < n {
      assert order[k] != order[i];
    }
    Without(order, i, a, b);
  }

  /** Leaving out one place leaves the others in their order. */
  lemma Without(order: seq<nat>, i: nat, a: seq<nat>, b: seq<nat>)
    requires Distinct(order) && i < |order| && a == order[..i] && b == order[i + 1..]
    ensures order == a + [order[i]] + b && Distinct(a + b)
    ensures forall k :: 0 <= k < |a + b| ==> (a + b)[k] == order[if k < i then k else k + 1]
  {
    forall k | 0 <= k < |a + b| ensures (a + b)[k] == order[if k < i then k else k + 1] {
    }
  }

  /** Listing every position once gives back the same elements, each as often. */
  lemma {:induction false} ListedIsPermutation<T(!new)>(items: seq<T>, order: seq<nat>)
    requires Distinct(order) && |order| == |items| && forall i :: 0 <= i < |order| ==> order[i] < |items|
    ensures multiset(Listed(items, order)) == multiset(items)
    decreases |items|
  {
    if items != [] {
      var n := |items| - 1;
      var a, b := SplitGreatest(order, n);
      var rest, ab := items[..n], a + b;
      ListedIsPermutation(rest, ab);
      ListedPrefix(items, n, ab);
      ListedWithout(items, a, n, b);
      assert items == rest + [items[n]];
    }
  }

  /** hook_link_array_t: nelts entries in use out of those allocated. */
  class HookArray {
    var elts: array<Hook>
    var nelts: nat

    constructor (num: int)
      ensures fresh(elts) && elts.Length == (if num < 1 then 1 else num) && nelts == 0
    {
      elts := new Hook[if num < 1 then 1 else num](_ => Hook(0, None, [], [], 0));
      nelts := 0;
    }

    /** The position of a new last entry; of the present last one when the array is full. */
    method GetLastArrayPtr() returns (i: int)
      modifies this`nelts
      ensures nelts == (if old(nelts) >= elts.Length then old(nelts) else old(nelts) + 1) && i == nelts - 1
    {
      if nelts < elts.Length {
        nelts := nelts + 1;
      }
      i := nelts - 1;
    }
  }

  /** Lines 167-178: the linked entries are appended to a new table one by one. */
  method CopyLinked(pHooks: array<Hook>, pNext: array<int>, pSort0: int, ghost order: seq<nat>) returns (pNew: HookArray)
    requires pNext.Length == pHooks.Length == |order| > 0
    requires Linked(pNext[..], order) && pSort0 == order[0] && pNext[order[|order| - 1]] < 0
    ensures fresh(pNew) && fresh(pNew.elts) && pNew.nelts == pNew.elts.Length == |order|
    ensures pNew.elts[..] == Listed(pHooks[..], order)
  {
    pNew := new HookArray(pHooks.Length);
    var pSort, n := pSort0, 0;
    while pSort >= 0
      invariant fresh(pNew) && fresh(pNew.elts) && pNew.elts.Length == |order|
      invariant 0 <= n <= |order| && pNew.nelts == n
      invariant if n < |order| then pSort == order[n] else pSort < 0
      invariant forall i :: 0 <= i < n ==> pNew.elts[i] == pHooks[order[i]]
      decreases |order| - n
    {
      var pHook := pNew.GetLastArrayPtr();
      pNew.elts[pHook] := pHooks[pSort];
      assert n < |order| - 1 ==> pNext[..][order[n]] == order[n + 1];
      pSort := pNext[pSort];
      n := n + 1;
    }
  }

  /** What a successful sort of the table `items` by the constraints `preds` yields. */
  ghost predicate SortedHooks(items: seq<Hook>, preds: seq<seq<nat>>, order: seq<nat>, out: seq<Hook>) {
    && Greedy(preds, order) && |order| == |items| && Distinct(order)
    && (forall i :: 0 <= i < |order| ==> order[i] < |items|)
    && out == Listed(items, order) && multiset(out) == multiset(items)
  }

  lemma CompleteListing(items: seq<Hook>, preds: seq<seq<nat>>, order: seq<nat>)
    requires |items| == |preds| == |order| && Greedy(preds, order)
    ensures Distinct(order) && forall i :: 0 <= i < |order| ==> order[i] < |items|
    ensures SortedHooks(items, preds, order, Listed(items, order))
  {
    GreedyIsDistinct(preds, order);
    ListedIsPermutation(items, order);
  }

  ghost predicate NamesNobody(items: seq<Hook>) {
    forall k :: 0 <= k < |items| ==> items[k].aszPredecessors == [] && items[k].aszSuccessors == []
  }

  lemma FreeIsAcyclic(items: seq<Hook>, preds: seq<seq<nat>>)
    requires ConstraintGraph(items, preds) && NamesNobody(items)
    ensures Acyclic(preds) && forall m, k :: 0 <= m < |preds| ==> k !in preds[m]
  {
    forall m, k | 0 <= m < |preds| ensures k !in preds[m] {
      assert k in preds[m] <==> Edge(items, k, m);
    }
  }

  lemma Upwards(done: seq<nat>, k: nat)
    requires forall i :: 0 <= i < |done| ==> done[i] == i
    ensures k in done <==> k < |done|
  {
    if k < |done| { assert done[k] == k; }
  }

  lemma {:induction false} FreeUpTo(preds: seq<seq<nat>>, order: seq<nat>, n: nat)
    requires Greedy(preds, order) && n <= |order| <= |preds|
    requires forall m, k :: 0 <= m < |preds| ==> k !in preds[m]
    ensures forall i :: 0 <= i < n ==> order[i] == i
  {
    if n > 0 {
      FreeUpTo(preds, order, n - 1);
      var done := order[..n - 1];
      assert LeastReady(preds, done, order[n - 1]);
      Upwards(done, order[n - 1]);
      Upwards(done, n - 1);
      assert Ready(preds, done, n - 1);
    }
  }

  /** Hooks that name nobody keep the order they have in the table, which goes up by nOrder. */
  lemma FreeOrder(items: seq<Hook>, preds: seq<seq<nat>>, order: seq<nat>)
    requires ConstraintGraph(items, preds) && NamesNobody(items) && Greedy(preds, order) && |order| == |items|
    ensures forall i :: 0 <= i < |order| ==> order[i] == i
    ensures Listed(items, order) == items
  {
    FreeIsAcyclic(items, preds);
    FreeUpTo(preds, order, |order|);
  }

  /** Sorts one hook table. It fails exactly when the constraints between its hooks have a cycle,
      and must not be asked to sort no hooks; otherwise the new table lists the same hooks, each the least one ready at its turn. */
  method SortHook(pHooks: array<Hook>)
    returns (r: Outcome, pNew: HookArray, ghost preds: seq<seq<nat>>, ghost order: seq<nat>)
    modifies pHooks
    ensures ConstraintGraph(pHooks[..], preds) && multiset(pHooks[..]) == multiset(old(pHooks[..]))
    ensures forall i, j :: 0 <= i < j < pHooks.Length ==> pHooks[i].nOrder <= pHooks[j].nOrder
    ensures r == Undefined <==> pHooks.Length == 0
    ensures r == Fail <==> !Acyclic(preds)
    ensures r == Success ==> pNew.nelts == pNew.elts.Length && SortedHooks(pHooks[..], preds, order, pNew.elts[..])
    ensures pHooks.Length > 0 && NamesNobody(pHooks[..]) ==> r == Success && pNew.elts[..] == pHooks[..]
  {
    var ppPredecessors, nPredecessors := Prepare(pHooks);
    ghost var items := pHooks[..];
    preds := ppPredecessors[..];
    if NamesNobody(items) {
      FreeIsAcyclic(items, preds);
    }
    var pSort, pNext;
    r, pSort, pNext, order := TSort(ppPredecessors, nPredecessors);
    assert pHooks[..] == items;
    if r == Success {
      CompleteListing(items, preds, order);
      if NamesNobody(items) {
        FreeOrder(items, preds, order);
      }
      pNew := CopyLinked(pHooks, pNext, pSort, order);
    } else {
      pNew := new HookArray(0);
    }
  }

  /** In the new table every constraint is honoured: what must come before does. */
  lemma ConstraintsHonoured(items: seq<Hook>, preds: seq<seq<nat>>, order: seq<nat>, i: nat, j: nat)
    requires ConstraintGraph(items, preds) && Greedy(preds, order) && |order| == |items|
    requires i < |order| && j < |order| && order[i] < |items| && order[j] < |items|
    requires Edge(items, order[i], order[j])
    ensures i < j
  {
    GreedyIsDistinct(preds, order);
    assert order[i] in preds[order[j]];
    var i' := GreedyFollows(preds, order, j, order[i]);
  }

  /** With unique names, read off the table itself: a hook comes after every hook it names as a
      predecessor and before every hook it names as a successor. */
  lemma NamesHonoured(items: seq<Hook>, preds: seq<seq<nat>>, order: seq<nat>, i: nat, j: nat)
    requires ConstraintGraph(items, preds) && Greedy(preds, order) && |order| == |items|
    requires forall k :: 0 <= k < |order| ==> order[k] < |items|
    requires forall k, l :: 0 <= k < l < |items| && items[k].szName.Some? ==> items[k].szName != items[l].szName
    requires i < |order| && j < |order|
    ensures var out := Listed(items, order);
      && (out[i].szName.Some? && out[i].szName.value in out[j].aszPredecessors ==> i < j)
      && (out[j].szName.Some? && out[j].szName.value in out[i].aszSuccessors ==> i < j)
  {
    var out := Listed(items, order);
    if out[i].szName.Some? && out[i].szName.value in out[j].aszPredecessors {
      assert Named(items, out[i].szName.value, order[i]);
      ConstraintsHonoured(items, preds, order, i, j);
    }
    if out[j].szName.Some? && out[j].szName.value in out[i].aszSuccessors {
      assert Named(items, out[j].szName.value, order[j]);
      ConstraintsHonoured(items, preds, order, i, j);
    }
  }
}
