/** The block-mapped file of fixed-size records shared by several handles (modules/mod_frm/mod_frm.c).
    A mapped block is known by the file position it is mapped from. */
module RecordFile {
  import opened Wrappers

  const MAX_BLOCK_NUM: nat := 128

  /** What a file holds at a position; bytes never written read as zero. */
  function ByteIn(data: map<nat, byte>, p: nat): byte {
    if p in data then data[p] else 0
  }

  ghost predicate SameBytes(a: map<nat, byte>, b: map<nat, byte>) {
    forall p: nat :: ByteIn(a, p) == ByteIn(b, p)
  }

  /** The bytes r are found at position p. */
  ghost predicate FoundAt(data: map<nat, byte>, p: nat, r: seq<byte>) {
    forall q: nat :: p <= q < p + |r| ==> ByteIn(data, q) == r[q - p]
  }

  /** b is a with the bytes r written at position p. */
  ghost predicate WrittenAt(a: map<nat, byte>, b: map<nat, byte>, p: nat, r: seq<byte>) {
    forall q: nat :: ByteIn(b, q) == if p <= q < p + |r| then r[q - p] else ByteIn(a, q)
  }

  /** The sizes a file is laid out by: records fill blocks evenly. */
  datatype Layout = Layout(headerBlockSize: nat, blockSize: nat, fixedDataSize: nat)

  ghost predicate Even(l: Layout) {
    0 < l.fixedDataSize && l.blockSize > 0 && l.blockSize % l.fixedDataSize == 0
  }

  /** The file position of a record. */
  function Position(l: Layout, key: nat): nat {
    l.headerBlockSize + key * l.fixedDataSize
  }

  function BlockOf(l: Layout, key: nat): nat
    requires l.blockSize > 0
  {
    key * l.fixedDataSize / l.blockSize
  }

  /** Where the allocated blocks 0 to n end. */
  function EndOf(l: Layout, n: nat): nat {
    l.headerBlockSize + (n + 1) * l.blockSize
  }

  /** Everything added lies in an allocated block and is what the file holds. */
  ghost predicate Stores(l: Layout, n: nat, data: map<nat, byte>, added: map<nat, seq<byte>>)
    requires l.blockSize > 0
  {
    forall k :: k in added ==> |added[k]| == l.fixedDataSize && BlockOf(l, k) <= n && FoundAt(data, Position(l, k), added[k])
  }

  ghost predicate ZeroFrom(data: map<nat, byte>, end: nat) {
    forall p: nat :: p >= end ==> ByteIn(data, p) == 0
  }

  /** The file all handles map, its header included. */
  class SharedFile {
    const layout: Layout
    var allocatedBlocks: nat
    var data: map<nat, byte>
    /** The length of the file; a mapping gives access to what lies within it. */
    var size: nat
    /** The records added so far. */
    ghost var added: map<nat, seq<byte>>

    ghost predicate Valid()
      reads this
    {
      && Even(layout) && allocatedBlocks <= MAX_BLOCK_NUM
      && Stores(layout, allocatedBlocks, data, added) && ZeroFrom(data, EndOf(layout, allocatedBlocks))
    }

    constructor (layout: Layout)
      requires Even(layout)
      ensures Valid() && added == map[] && allocatedBlocks == 0 && this.layout == layout
    {
      this.layout := layout;
      allocatedBlocks, data, size, added := 0, map[], 0, map[];
    }
  }

  /** The blocks of a key and the place in it; a record never straddles two blocks. */
  lemma WithinBlock(key: nat, size: nat, blockSize: nat)
    requires 0 < size && blockSize > 0 && blockSize % size == 0
    ensures key * size % blockSize + size <= blockSize
    ensures key * size / blockSize * blockSize + key * size % blockSize == key * size
  {
    var m := blockSize / size;
    assert blockSize == m * size;
    var q, r := key / m, key % m;
    assert key == q * m + r && r + 1 <= m;
    assert key * size == q * blockSize + r * size by {
      assert (q * m + r) * size == q * (m * size) + r * size;
    }
    assert r * size + size <= m * size by {
      MulMonotonic(r + 1, m, size);
    }
    QuotientUnique(key * size, blockSize, q, r * size);
  }

  /** The place of a record from the place of its block. */
  lemma PositionIn(l: Layout, key: nat, block: nat)
    requires Even(l) && block == l.headerBlockSize + BlockOf(l, key) * l.blockSize
    ensures block + key * l.fixedDataSize % l.blockSize == Position(l, key)
  {
    WithinBlock(key, l.fixedDataSize, l.blockSize);
  }

  lemma MulMonotonic(a: nat, b: nat, c: nat)
    requires a <= b
    ensures a * c <= b * c
  {
  }

  lemma QuotientUnique(n: nat, d: nat, q: nat, r: nat)
    requires d > 0 && n == q * d + r && r < d
    ensures n / d == q && n % d == r
  {
    var q', r' := n / d, n % d;
    assert n == q' * d + r';
    if q' < q {
      MulMonotonic(q' + 1, q, d);
    } else if q < q' {
      MulMonotonic(q + 1, q', d);
    }
  }

  /** Records of different keys lie apart. */
  lemma Apart(j: nat, k: nat, size: nat)
    requires j < k
    ensures j * size + size <= k * size
  {
    MulMonotonic(j + 1, k, size);
  }

  lemma StoresSame(l: Layout, n: nat, data: map<nat, byte>, data': map<nat, byte>, added: map<nat, seq<byte>>)
    requires l.blockSize > 0 && Stores(l, n, data, added) && SameBytes(data, data')
    ensures Stores(l, n, data', added)
  {
    forall k | k in added ensures FoundAt(data', Position(l, k), added[k]) {
      assert FoundAt(data, Position(l, k), added[k]);
    }
  }

  lemma EndGrows(l: Layout, n: nat)
    ensures EndOf(l, n + 1) == EndOf(l, n) + l.blockSize
  {
    assert (n + 2) * l.blockSize == (n + 1) * l.blockSize + l.blockSize;
  }

  lemma EndMonotonic(l: Layout, m: nat, n: nat)
    requires m <= n
    ensures EndOf(l, m) <= EndOf(l, n)
  {
    MulMonotonic(m + 1, n + 1, l.blockSize);
  }

  lemma InsideEnd(l: Layout, n: nat, key: nat)
    requires Even(l) && BlockOf(l, key) <= n
    ensures Position(l, key) + l.fixedDataSize <= EndOf(l, n)
  {
    WithinBlock(key, l.fixedDataSize, l.blockSize);
    MulMonotonic(BlockOf(l, key) + 1, n + 1, l.blockSize);
    assert (BlockOf(l, key) + 1) * l.blockSize == BlockOf(l, key) * l.blockSize + l.blockSize;
  }

  /** Writing one record leaves all others as they are and nothing behind the end. */
  lemma AddRecord(l: Layout, n: nat, data: map<nat, byte>, data': map<nat, byte>, added: map<nat, seq<byte>>, key: nat, r: seq<byte>)
    requires Even(l) && Stores(l, n, data, added) && ZeroFrom(data, EndOf(l, n))
    requires |r| == l.fixedDataSize && BlockOf(l, key) <= n && WrittenAt(data, data', Position(l, key), r)
    ensures Stores(l, n, data', added[key := r]) && ZeroFrom(data', EndOf(l, n))
  {
    InsideEnd(l, n, key);
    forall k | k in added && k != key ensures FoundAt(data', Position(l, k), added[k]) {
      if k < key { Apart(k, key, l.fixedDataSize); } else { Apart(key, k, l.fixedDataSize); }
    }
  }

  lemma WriteOne(a: map<nat, byte>, b: map<nat, byte>, p: nat, r: seq<byte>, i: nat)
    requires i < |r| && WrittenAt(a, b, p, r[..i])
    ensures WrittenAt(a, b[p + i := r[i]], p, r[..i + 1])
  {
    var c, s := b[p + i := r[i]], r[..i + 1];
    forall q: nat ensures ByteIn(c, q) == if p <= q < p + |s| then s[q - p] else ByteIn(a, q) {
      if q != p + i {
        assert ByteIn(c, q) == ByteIn(b, q);
      }
    }
  }

  class Handle {
    const file: SharedFile
    var allocatedBlocks: int
    var block: seq<nat>

    /** Every block this handle knows of is mapped from its place in the file and lies within it. */
    ghost predicate Valid()
      reads this, file`allocatedBlocks, file`size
    {
      && |block| == MAX_BLOCK_NUM && -1 <= allocatedBlocks <= file.allocatedBlocks && allocatedBlocks < MAX_BLOCK_NUM
      && (allocatedBlocks >= 0 ==> file.size > EndOf(file.layout, allocatedBlocks))
      && forall i :: 0 <= i <= allocatedBlocks ==> block[i] == file.layout.headerBlockSize + i * file.layout.blockSize
    }

    /** A handle as file_open leaves it. */
    constructor (file: SharedFile)
      requires file.Valid()
      ensures this.file == file && Valid() && allocatedBlocks == -1
    {
      this.file, allocatedBlocks, block := file, -1, seq(MAX_BLOCK_NUM, _ => 0);
    }

    /** extend_file writes one byte just behind the last allocated block, so that this lies within
        the file; no byte changes. */
    method ExtendFile()
      requires file.Valid()
      modifies file`data, file`size
      ensures file.Valid() && SameBytes(old(file.data), file.data)
      ensures var end := EndOf(file.layout, file.allocatedBlocks);
        file.size == if old(file.size) > end then old(file.size) else end + 1
    {
      var currPos := file.allocatedBlocks * file.layout.blockSize + file.layout.headerBlockSize;
      var extendPos := currPos + file.layout.blockSize;
      assert extendPos == EndOf(file.layout, file.allocatedBlocks) by {
        var n, bs := file.allocatedBlocks, file.layout.blockSize;
        assert (n + 1) * bs == n * bs + bs;
      }
      file.data := file.data[extendPos := 0];
      file.size := if file.size > extendPos then file.size else extendPos + 1;
      StoresSame(file.layout, file.allocatedBlocks, old(file.data), file.data, file.added);
    }

    /** extend_mmap maps the blocks this handle does not know of yet. The place of a block numbered
        MAX_BLOCK_NUM is not in `block` any more. */
    method ExtendMmap() returns (r: Outcome)
      requires Valid() && file.Valid() && file.size > EndOf(file.layout, file.allocatedBlocks)
      modifies this
      ensures r == (if file.allocatedBlocks < MAX_BLOCK_NUM then Success else Undefined)
      ensures r == Success ==> Valid() && allocatedBlocks == file.allocatedBlocks
    {
      var i := allocatedBlocks;
      while i < file.allocatedBlocks
        invariant i == allocatedBlocks && Valid()
      {
        EndMonotonic(file.layout, i + 1, file.allocatedBlocks);
        allocatedBlocks := allocatedBlocks + 1;
        var currPos := allocatedBlocks * file.layout.blockSize + file.layout.headerBlockSize;
        if allocatedBlocks >= |block| {
          return Undefined;
        }
        block := block[allocatedBlocks := currPos];
        i := i + 1;
      }
      return Success;
    }

    /** What frm_open does once the header is mapped. */
    method Open() returns (r: Outcome)
      requires file.Valid() && Valid()
      modifies this, file`data, file`size
      ensures file.Valid() && SameBytes(old(file.data), file.data) && file.size >= old(file.size)
      ensures r == (if file.allocatedBlocks < MAX_BLOCK_NUM then Success else Undefined)
      ensures r == Success ==> Valid() && allocatedBlocks == file.allocatedBlocks
    {
      ExtendFile();
      r := ExtendMmap();
    }

    /** allocate. The guard stops at a count of MAX_BLOCK_NUM, when the block of that number has
        already been let through. */
    method Allocate(moreExtend: bool) returns (r: Outcome)
      requires file.Valid() && Valid()
      modifies this, file`data, file`size, file`allocatedBlocks
      ensures file.Valid() && SameBytes(old(file.data), file.data) && file.size >= old(file.size)
      ensures r == Fail <==> moreExtend && old(file.allocatedBlocks) >= MAX_BLOCK_NUM
      ensures r != Fail ==> file.allocatedBlocks == old(file.allocatedBlocks) + (if moreExtend then 1 else 0)
      ensures r == Success <==> r != Fail && file.allocatedBlocks < MAX_BLOCK_NUM
      ensures r == Success ==> Valid() && allocatedBlocks == file.allocatedBlocks
    {
      if moreExtend {
        if file.allocatedBlocks >= MAX_BLOCK_NUM {
          return Fail;
        }
        EndGrows(file.layout, file.allocatedBlocks);
        file.allocatedBlocks := file.allocatedBlocks + 1;
      }
      if file.allocatedBlocks > allocatedBlocks {
        ExtendFile();
        r := ExtendMmap();
        return;
      }
      return Success;
    }

    /** extend_check */
    method ExtendCheck() returns (r: Outcome)
      requires file.Valid() && Valid()
      modifies this, file`data, file`size, file`allocatedBlocks
      ensures file.Valid() && SameBytes(old(file.data), file.data) && file.size >= old(file.size)
      ensures file.allocatedBlocks == old(file.allocatedBlocks)
      ensures r == (if file.allocatedBlocks < MAX_BLOCK_NUM then Success else Undefined)
      ensures r == Success ==> Valid() && allocatedBlocks == file.allocatedBlocks
    {
      r := Success;
      if allocatedBlocks < file.allocatedBlocks || allocatedBlocks == -1 {
        r := Allocate(false);
      }
    }

    /** get_save_data_position: there is a place for the key exactly if its block is one of the
        first MAX_BLOCK_NUM; if it is not, `block` is overrun. */
    method GetSaveDataPosition(key: nat) returns (r: Outcome, ptr: nat)
      requires file.Valid() && Valid() && allocatedBlocks == file.allocatedBlocks
      modifies this, file`data, file`size, file`allocatedBlocks
      ensures file.Valid() && SameBytes(old(file.data), file.data) && file.size >= old(file.size)
      ensures file.allocatedBlocks >= old(file.allocatedBlocks)
      ensures r == (if BlockOf(file.layout, key) < MAX_BLOCK_NUM then Success else Undefined)
      ensures r == Success ==> Valid() && allocatedBlocks == file.allocatedBlocks
      ensures r == Success ==> ptr == Position(file.layout, key) && BlockOf(file.layout, key) <= file.allocatedBlocks
    {
      ptr := 0;
      var currBlock := key * file.layout.fixedDataSize / file.layout.blockSize;
      var offset := key * file.layout.fixedDataSize % file.layout.blockSize;
      r := AllocateUpTo(currBlock);
      if r == Success {
        ptr := block[currBlock] + offset;
        PositionIn(file.layout, key, block[currBlock]);
      }
    }

    /** The loop of get_save_data_position: blocks are allocated up to the one of that number. */
    method AllocateUpTo(currBlock: nat) returns (r: Outcome)
      requires file.Valid() && Valid() && allocatedBlocks == file.allocatedBlocks
      modifies this, file`data, file`size, file`allocatedBlocks
      ensures file.Valid() && SameBytes(old(file.data), file.data) && file.size >= old(file.size)
      ensures file.allocatedBlocks >= old(file.allocatedBlocks)
      ensures r == (if currBlock < MAX_BLOCK_NUM then Success else Undefined)
      ensures r == Success ==> Valid() && currBlock <= allocatedBlocks == file.allocatedBlocks
    {
      while file.allocatedBlocks < currBlock
        invariant file.Valid() && Valid() && allocatedBlocks == file.allocatedBlocks >= old(file.allocatedBlocks)
        invariant SameBytes(old(file.data), file.data) && file.size >= old(file.size)
      {
        r := Allocate(true);
        if r != Success {
          return;
        }
      }
      return Success;
    }

    /** frm_add: the record of the key, and no other, becomes the data given. This goes wrong
        exactly for a key behind the first MAX_BLOCK_NUM blocks, or once one has been added. */
    method Add(key: nat, record: seq<byte>) returns (r: Outcome)
      requires file.Valid() && Valid() && |record| == file.layout.fixedDataSize
      modifies this, file
      ensures file.Valid() && file.allocatedBlocks >= old(file.allocatedBlocks) && file.size >= old(file.size)
      ensures r == if old(file.allocatedBlocks) < MAX_BLOCK_NUM && BlockOf(file.layout, key) < MAX_BLOCK_NUM then Success else Undefined
      ensures r == Success ==> Valid() && file.allocatedBlocks < MAX_BLOCK_NUM
      ensures file.added == if r == Success then old(file.added)[key := record] else old(file.added)
    {
      WithinBlock(key, file.layout.fixedDataSize, file.layout.blockSize);
      if file.layout.blockSize < file.layout.fixedDataSize {
        return Fail;
      }
      r := ExtendCheck();
      if r != Success {
        return;
      }
      var ptr;
      r, ptr := GetSaveDataPosition(key);
      if r != Success {
        return;
      }
      ghost var was := file.data;
      InsideEnd(file.layout, file.allocatedBlocks, key);
      CopyIn(ptr, record);
      AddRecord(file.layout, file.allocatedBlocks, was, file.data, file.added, key, record);
      file.added := file.added[key := record];
    }

    /** memcpy into the mapped block. */
    method CopyIn(ptr: nat, record: seq<byte>)
      requires ptr + |record| <= file.size
      modifies file`data
      ensures WrittenAt(old(file.data), file.data, ptr, record)
    {
      var i := 0;
      ghost var was := file.data;
      while i < |record|
        invariant 0 <= i <= |record| && WrittenAt(was, file.data, ptr, record[..i])
      {
        WriteOne(was, file.data, ptr, record, i);
        file.data := file.data[ptr + i := record[i]];
        i := i + 1;
      }
      assert record[..i] == record;
    }

    /** get_data: where the record of the key is mapped, if its block is allocated. */
    method GetData(key: nat) returns (ptr: Option<nat>)
      requires file.Valid() && Valid() && allocatedBlocks == file.allocatedBlocks
      ensures ptr.None? <==> BlockOf(file.layout, key) > file.allocatedBlocks
      ensures ptr.Some? ==> ptr.value == Position(file.layout, key) && ptr.value + file.layout.fixedDataSize <= file.size
    {
      var currBlock := key * file.layout.fixedDataSize / file.layout.blockSize;
      if currBlock > allocatedBlocks {
        return None;
      }
      var offset := key * file.layout.fixedDataSize % file.layout.blockSize;
      PositionIn(file.layout, key, block[currBlock]);
      InsideEnd(file.layout, allocatedBlocks, key);
      return Some(block[currBlock] + offset);
    }

    /** frm_read: a record that was added is read back, whoever added it; the read
        fails exactly when the key's block is not allocated. It never looks behind `block`, unless
        an add has overrun it before. */
    method Read(key: nat) returns (r: Outcome, record: seq<byte>)
      requires file.Valid() && Valid()
      modifies this, file`data, file`size, file`allocatedBlocks
      ensures file.Valid() && file.allocatedBlocks == old(file.allocatedBlocks) && file.size >= old(file.size)
      ensures r == if file.allocatedBlocks >= MAX_BLOCK_NUM then Undefined
        else if BlockOf(file.layout, key) > file.allocatedBlocks then Fail else Success
      ensures r != Undefined ==> Valid()
      ensures r == Success ==> |record| == file.layout.fixedDataSize && FoundAt(file.data, Position(file.layout, key), record)
      ensures r != Undefined && key in file.added ==> r == Success && record == file.added[key]
    {
      record := [];
      r := ExtendCheck();
      if r != Success {
        return;
      }
      var found := GetData(key);
      if found.None? {
        return Fail, [];
      }
      var ptr := found.value;
      record := CopyOut(ptr, file.layout.fixedDataSize);
      if key in file.added {
        SameRecord(file.data, ptr, record, file.added[key]);
      }
    }

    /** What a caller finds behind the pointer it is given. */
    method CopyOut(ptr: nat, size: nat) returns (record: seq<byte>)
      requires ptr + size <= file.size
      ensures |record| == size && FoundAt(file.data, ptr, record)
    {
      record := [];
      while |record| < size
        invariant |record| <= size && FoundAt(file.data, ptr, record)
      {
        record := record + [ByteIn(file.data, ptr + |record|)];
      }
    }
  }

  lemma SameRecord(data: map<nat, byte>, p: nat, a: seq<byte>, b: seq<byte>)
    requires |a| == |b| && FoundAt(data, p, a) && FoundAt(data, p, b)
    ensures a == b
  {
    forall i | 0 <= i < |a| ensures a[i] == b[i] {
      assert ByteIn(data, p + i) == a[p + i - p] && ByteIn(data, p + i) == b[p + i - p];
    }
  }

  // ----- one block too many -----

  /** Every layout has a first key that lies behind the last place in `block`. */
  lemma OneBlockTooMany(l: Layout) returns (key: nat)
    requires Even(l)
    ensures BlockOf(l, key) == 128
    ensures forall k: nat :: k < key <==> BlockOf(l, k) < 128
  {
    var perBlock := l.blockSize / l.fixedDataSize;
    assert l.blockSize == perBlock * l.fixedDataSize;
    key := MAX_BLOCK_NUM * perBlock;
    assert key * l.fixedDataSize == MAX_BLOCK_NUM * l.blockSize;
    QuotientUnique(key * l.fixedDataSize, l.blockSize, MAX_BLOCK_NUM, 0);
    forall k: nat ensures k < key <==> BlockOf(l, k) < MAX_BLOCK_NUM {
      if k < key {
        QuotientBelow(l, k, key);
      } else {
        MulMonotonic(key, k, l.fixedDataSize);
        QuotientMonotonic(key * l.fixedDataSize, k * l.fixedDataSize, l.blockSize);
      }
    }
  }

  lemma QuotientBelow(l: Layout, k: nat, key: nat)
    requires Even(l) && k < key && key * l.fixedDataSize == MAX_BLOCK_NUM * l.blockSize
    ensures BlockOf(l, k) < MAX_BLOCK_NUM
  {
    var n, q := k * l.fixedDataSize, BlockOf(l, k);
    MulMonotonic(k + 1, key, l.fixedDataSize);
    assert (k + 1) * l.fixedDataSize == n + l.fixedDataSize;
    assert q * l.blockSize <= n;
    if q >= MAX_BLOCK_NUM { MulMonotonic(MAX_BLOCK_NUM, q, l.blockSize); }
  }

  lemma QuotientMonotonic(m: nat, n: nat, d: nat)
    requires m <= n && d > 0
    ensures m / d <= n / d
  {
    if n / d < m / d { MulMonotonic(n / d + 1, m / d, d); }
  }

  /** On a new file, adding under that key overruns `block`, although the guard lets it pass. */
  method AddTooFar(l: Layout, key: nat, record: seq<byte>) returns (r: Outcome)
    requires Even(l) && |record| == l.fixedDataSize && BlockOf(l, key) == 128
    ensures r == Undefined
  {
    var file := new SharedFile(l);
    var h := new Handle(file);
    r := h.Add(key, record);
  }

  // ----- several handles -----

  datatype Op = AddOp(handle: nat, key: nat, record: seq<byte>) | ReadOp(handle: nat, key: nat)

  /** The records a map holds after the operations. */
  function Effect(m: map<nat, seq<byte>>, ops: seq<Op>): map<nat, seq<byte>> {
    if ops == [] then m
    else
      var m' := Effect(m, ops[..|ops| - 1]);
      match ops[|ops| - 1]
      case AddOp(_, k, r) => m'[k := r]
      case ReadOp(_, _) => m'
  }

  /** The i-th operation got what it should: a read of a key added before, through whatever
      handle, gives what was last added. */
  ghost predicate Right(m: map<nat, seq<byte>>, ops: seq<Op>, results: seq<Option<seq<byte>>>, i: nat)
    requires i < |ops| && i < |results|
  {
    ops[i].ReadOp? && ops[i].key in Effect(m, ops[..i]) ==> results[i] == Some(Effect(m, ops[..i])[ops[i].key])
  }

  /** An operation a caller may ask for: the handle exists, and a record has the record size. */
  ghost predicate Fits(file: SharedFile, op: Op, n: nat) {
    op.handle < n && (op.AddOp? ==> |op.record| == file.layout.fixedDataSize)
  }

  /** An add behind the first MAX_BLOCK_NUM blocks. */
  predicate Beyond(l: Layout, op: Op)
    requires l.blockSize > 0
  {
    op.AddOp? && BlockOf(l, op.key) >= MAX_BLOCK_NUM
  }

  method RunOne(file: SharedFile, h: Handle, op: Op, ghost n: nat) returns (r: Outcome, found: Option<seq<byte>>)
    requires h.file == file && file.Valid() && h.Valid() && Fits(file, op, n) && file.allocatedBlocks < MAX_BLOCK_NUM
    modifies h, file
    ensures file.Valid() && file.allocatedBlocks >= old(file.allocatedBlocks) && file.size >= old(file.size)
    ensures r == Undefined <==> Beyond(file.layout, op)
    ensures r != Undefined ==> h.Valid() && file.allocatedBlocks < MAX_BLOCK_NUM
    ensures file.added == if op.AddOp? && r != Undefined then old(file.added)[op.key := op.record] else old(file.added)
    ensures op.ReadOp? && op.key in old(file.added) ==> found == Some(old(file.added)[op.key])
  {
    found := None;
    match op {
      case AddOp(_, key, record) =>
        r := h.Add(key, record);
      case ReadOp(_, key) =>
        var record;
        r, record := h.Read(key);
        if r == Success {
          found := Some(record);
        }
    }
  }

  /** Any interleaving of adds and reads through any handles, up to the first add that overruns
      `block`. No operation does so if and only if every key that is added lies in the first
      MAX_BLOCK_NUM blocks. */
  method RunAll(file: SharedFile, handles: seq<Handle>, ops: seq<Op>) returns (results: seq<Option<seq<byte>>>)
    requires file.Valid() && file.allocatedBlocks < MAX_BLOCK_NUM
    requires forall i :: 0 <= i < |handles| ==> handles[i].file == file && handles[i].Valid()
    requires forall i :: 0 <= i < |ops| ==> Fits(file, ops[i], |handles|)
    modifies file, set h: Handle | h in handles :: h
    ensures file.Valid() && |results| <= |ops| && file.added == Effect(old(file.added), ops[..|results|])
    ensures forall i :: 0 <= i < |results| ==> Right(old(file.added), ops, results, i) && !Beyond(file.layout, ops[i])
    ensures |results| < |ops| ==> Beyond(file.layout, ops[|results|])
    ensures |results| == |ops| <==> forall i :: 0 <= i < |ops| ==> !Beyond(file.layout, ops[i])
  {
    results := [];
    ghost var m := file.added;
    var i := 0;
    while i < |ops|
      invariant 0 <= i <= |ops| && |results| == i && file.Valid() && file.added == Effect(m, ops[..i])
      invariant file.allocatedBlocks < MAX_BLOCK_NUM && forall j :: 0 <= j < |handles| ==> handles[j].Valid()
      invariant forall k :: 0 <= k < i ==> Right(m, ops, results, k) && !Beyond(file.layout, ops[k])
    {
      assert Fits(file, ops[i], |handles|);
      var h := handles[ops[i].handle];
      assert h in handles;
      var r, found := RunOne(file, h, ops[i], |handles|);
      if r == Undefined {
        return;
      }
      assert ops[..i + 1][..i] == ops[..i];
      RightMore(m, ops, results, found);
      results := results + [found];
      i := i + 1;
    }
    assert ops[..i] == ops;
  }

  lemma RightMore(m: map<nat, seq<byte>>, ops: seq<Op>, results: seq<Option<seq<byte>>>, found: Option<seq<byte>>)
    requires |results| < |ops| && forall k :: 0 <= k < |results| ==> Right(m, ops, results, k)
    requires Right(m, ops, results + [found], |results|)
    ensures forall k :: 0 <= k < |results| + 1 ==> Right(m, ops, results + [found], k)
  {
    forall k | 0 <= k < |results| ensures Right(m, ops, results + [found], k) {
      assert Right(m, ops, results, k);
    }
  }
}
