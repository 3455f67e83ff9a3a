/** Where the registries of all modules lie in shared memory (common/registry.c). */
module RegistryLayout {
  import opened Strings

  const ALIGNMENT_SIZE: nat := 8

  class Registry {
    const size: nat
    var data: int
    var dataRelative: int

    constructor (size: nat)
      ensures this.size == size
    {
      this.size, data, dataRelative := size, 0, 0;
    }
  }

  function Padded(size: nat): (r: nat)
    ensures size <= r < size + ALIGNMENT_SIZE && r % ALIGNMENT_SIZE == 0
  {
    if size % ALIGNMENT_SIZE == 0 then size else size + (ALIGNMENT_SIZE - size % ALIGNMENT_SIZE)
  }

  function Total(regs: seq<Registry>): nat {
    if regs == [] then 0 else Total(regs[..|regs| - 1]) + Padded(regs[|regs| - 1].size)
  }

  lemma TotalMore(regs: seq<Registry>, reg: Registry)
    ensures Total(regs + [reg]) == Total(regs) + Padded(reg.size)
  {
    assert (regs + [reg])[..|regs|] == regs;
  }

  /** Gone through: all modules before m, and the first i registries of module m. */
  ghost function Before(mods: seq<seq<Registry>>, m: nat, i: nat): seq<Registry>
    requires m < |mods| && i <= |mods[m]|
  {
    Flatten(mods[..m]) + mods[m][..i]
  }

  lemma NextRegistry(mods: seq<seq<Registry>>, m: nat, i: nat)
    requires m < |mods| && i < |mods[m]|
    ensures Before(mods, m, i + 1) == Before(mods, m, i) + [mods[m][i]]
  {
    assert mods[m][..i + 1] == mods[m][..i] + [mods[m][i]];
  }

  lemma NextModule(mods: seq<seq<Registry>>, m: nat)
    requires m < |mods|
    ensures Before(mods, m, 0) == Flatten(mods[..m])
    ensures Before(mods, m, |mods[m]|) == Flatten(mods[..m + 1])
  {
    assert mods[..m + 1] == mods[..m] + [mods[m]];
    FlattenMore(mods[..m], mods[m]);
    assert mods[m][..|mods[m]|] == mods[m] && mods[m][..0] == [];
  }

  lemma IsPrefix(mods: seq<seq<Registry>>, m: nat, i: nat)
    requires m < |mods| && i <= |mods[m]|
    ensures Before(mods, m, i) <= Flatten(mods)
  {
    assert mods == mods[..m] + [mods[m]] + mods[m + 1..];
    FlattenConcat(mods[..m] + [mods[m]], mods[m + 1..]);
    FlattenMore(mods[..m], mods[m]);
    assert mods[m][..i] + mods[m][i..] == mods[m];
    assert Flatten(mods) == Before(mods, m, i) + mods[m][i..] + Flatten(mods[m + 1..]);
  }

  lemma InFlatten(mods: seq<seq<Registry>>, m: nat, i: nat)
    requires m < |mods| && i < |mods[m]|
    ensures mods[m][i] in Flatten(mods)
  {
    NextRegistry(mods, m, i);
    IsPrefix(mods, m, i + 1);
    var b := Before(mods, m, i + 1);
    assert mods[m][i] == b[|b| - 1] == Flatten(mods)[|b| - 1];
  }

  /** count_total_registry_size */
  method CountTotalRegistrySize(mods: seq<seq<Registry>>) returns (totalSize: nat)
    ensures totalSize == Total(Flatten(mods))
  {
    totalSize := 0;
    var m := 0;
    while m < |mods|
      invariant 0 <= m <= |mods| && totalSize == Total(Flatten(mods[..m]))
    {
      NextModule(mods, m);
      var i := 0;
      while i < |mods[m]|
        invariant 0 <= i <= |mods[m]| && totalSize == Total(Before(mods, m, i))
      {
        var reg := mods[m][i];
        NextRegistry(mods, m, i);
        TotalMore(Before(mods, m, i), reg);
        var padded := reg.size % ALIGNMENT_SIZE;
        if padded != 0 {
          padded := ALIGNMENT_SIZE - padded;
        }
        totalSize := totalSize + (reg.size + padded);
        i := i + 1;
      }
      m := m + 1;
    }
    assert mods[..m] == mods;
  }

  /** Each registry comes behind those before it. */
  ghost predicate LaidOut(addr: int, regs: seq<Registry>)
    reads regs
  {
    forall k :: 0 <= k < |regs| ==> Placed(addr, regs, k)
  }

  ghost predicate Placed(addr: int, regs: seq<Registry>, k: nat)
    requires k < |regs|
    reads regs[k]
  {
    regs[k].data == addr + Total(regs[..k]) && regs[k].dataRelative == addr - regs[k].data
  }

  /** load_each_registry, the shared memory having been allocated at addr. */
  method LoadEachRegistry(mods: seq<seq<Registry>>, addr: int) returns (registrySize: nat)
    requires forall j, k :: 0 <= j < k < |Flatten(mods)| ==> Flatten(mods)[j] != Flatten(mods)[k]
    modifies set r: Registry | r in Flatten(mods) :: r
    ensures registrySize == Total(Flatten(mods)) && LaidOut(addr, Flatten(mods))
  {
    registrySize := CountTotalRegistrySize(mods);
    var currentShmaddr := addr;
    var m := 0;
    while m < |mods|
      invariant 0 <= m <= |mods| && currentShmaddr == addr + Total(Flatten(mods[..m]))
      invariant LaidOut(addr, Flatten(mods[..m]))
    {
      NextModule(mods, m);
      var i := 0;
      while i < |mods[m]|
        invariant 0 <= i <= |mods[m]| && currentShmaddr == addr + Total(Before(mods, m, i))
        invariant LaidOut(addr, Before(mods, m, i))
      {
        InFlatten(mods, m, i);
        currentShmaddr := LoadOne(mods, m, i, addr, currentShmaddr);
        i := i + 1;
      }
      m := m + 1;
    }
    assert mods[..m] == mods;
  }

  /** Lines 94-119: one registry. */
  method LoadOne(mods: seq<seq<Registry>>, m: nat, i: nat, addr: int, current: int) returns (current': int)
    requires m < |mods| && i < |mods[m]| && current == addr + Total(Before(mods, m, i))
    requires forall j, k :: 0 <= j < k < |Flatten(mods)| ==> Flatten(mods)[j] != Flatten(mods)[k]
    requires LaidOut(addr, Before(mods, m, i))
    modifies mods[m][i]
    ensures current' == addr + Total(Before(mods, m, i + 1)) && LaidOut(addr, Before(mods, m, i + 1))
  {
    var reg := mods[m][i];
    ghost var before := Before(mods, m, i);
    NextRegistry(mods, m, i);
    TotalMore(before, reg);
    IsPrefix(mods, m, i + 1);
    var padded := reg.size % ALIGNMENT_SIZE;
    if padded != 0 {
      padded := ALIGNMENT_SIZE - padded;
    }
    reg.data := current;
    reg.dataRelative := addr - current;
    forall k | 0 <= k < |before + [reg]| ensures Placed(addr, before + [reg], k) {
      assert (before + [reg])[..k] == if k < |before| then before[..k] else before;
      if k < |before| {
        assert Flatten(mods)[k] == before[k] && Flatten(mods)[|before|] == reg;
        assert Placed(addr, before, k);
      }
    }
    current' := current + (reg.size + padded);
  }

  lemma {:induction false} TotalAligned(regs: seq<Registry>)
    ensures Total(regs) % ALIGNMENT_SIZE == 0
  {
    if regs != [] {
      var front := regs[..|regs| - 1];
      TotalAligned(front);
      SumAligned(Total(front), Padded(regs[|regs| - 1].size));
    }
  }

  lemma {:induction false} TotalUpTo(regs: seq<Registry>, j: nat, k: nat)
    requires j < k <= |regs|
    ensures Total(regs[..j]) + regs[j].size <= Total(regs[..k])
    decreases k
  {
    assert regs[..k][..k - 1] == regs[..k - 1];
    if j < k - 1 { TotalUpTo(regs, j, k - 1); }
  }

  lemma PlacedSoundly(addr: int, regs: seq<Registry>, k: nat)
    requires LaidOut(addr, regs) && addr % ALIGNMENT_SIZE == 0 && k < |regs|
    ensures regs[k].data % ALIGNMENT_SIZE == 0 && addr <= regs[k].data && regs[k].data + regs[k].size <= addr + Total(regs)
  {
    assert Placed(addr, regs, k);
    TotalAligned(regs[..k]);
    SumAligned(addr, Total(regs[..k]));
    TotalUpTo(regs, k, |regs|);
    assert regs[..|regs|] == regs;
  }

  lemma SumAligned(a: int, b: int)
    requires a % 8 == 0 && b % 8 == 0
    ensures (a + b) % 8 == 0
  {
  }

  lemma PlacedApart(addr: int, regs: seq<Registry>, j: nat, k: nat)
    requires LaidOut(addr, regs) && j < k < |regs|
    ensures regs[j].data + regs[j].size <= regs[k].data
  {
    assert Placed(addr, regs, j) && Placed(addr, regs, k);
    TotalUpTo(regs, j, k);
  }

  /** In memory allocated on a multiple of eight every registry starts on one, lies within the
      size that was counted, and overlaps with no other. */
  lemma LayoutIsSound(addr: int, regs: seq<Registry>)
    requires LaidOut(addr, regs) && addr % ALIGNMENT_SIZE == 0
    ensures forall k :: 0 <= k < |regs| ==>
      regs[k].data % ALIGNMENT_SIZE == 0 && addr <= regs[k].data && regs[k].data + regs[k].size <= addr + Total(regs)
    ensures forall j, k :: 0 <= j < k < |regs| ==> regs[j].data + regs[j].size <= regs[k].data
  {
    forall k | 0 <= k < |regs|
      ensures regs[k].data % ALIGNMENT_SIZE == 0 && addr <= regs[k].data && regs[k].data + regs[k].size <= addr + Total(regs)
    {
      PlacedSoundly(addr, regs, k);
    }
    forall j, k | 0 <= j < k < |regs| ensures regs[j].data + regs[j].size <= regs[k].data {
      PlacedApart(addr, regs, j, k);
    }
  }
}
