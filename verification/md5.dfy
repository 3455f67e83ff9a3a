/** The streaming interface of common/md5c.c against the one-shot definition of RFC 1321.
    The compression function is a parameter: what is shown holds for any. */
module MD5 {
  import opened Strings
  import opened Wrappers

  type word = x: int | 0 <= x < 0x1_0000_0000

  type State = s: seq<word> | |s| == 4 witness [0, 0, 0, 0]
  type Block = b: seq<byte> | |b| == 64 witness seq(64, i => 0)
  type Compression = (State, Block) -> State

  // ----- the definition -----

  /** The k low-order bytes of v, least significant first. */
  function LittleEndian(v: nat, k: nat): (r: seq<byte>)
    ensures |r| == k
  {
    if k == 0 then [] else [v % 0x100] + LittleEndian(v / 0x100, k - 1)
  }

  function EncodeWords(ws: seq<word>): (r: seq<byte>)
    ensures |r| == 4 * |ws|
  {
    if ws == [] then [] else EncodeWords(ws[..|ws| - 1]) + LittleEndian(ws[|ws| - 1], 4)
  }

  function Zeros(k: nat): (r: seq<byte>)
    ensures |r| == k && forall i :: 0 <= i < k ==> r[i] == 0
  {
    if k == 0 then [] else Zeros(k - 1) + [0]
  }

  /** Section 3.1: a single 1 bit and then 0 bits, at least one byte in all, up to 56 modulo 64. */
  function PadBits(n: nat): (r: seq<byte>)
    ensures 1 <= |r| <= 64 && (n + |r|) % 64 == 56
  {
    [0x80] + Zeros((55 - n) % 64)
  }

  /** Sections 3.1 and 3.2: the message, the padding, and the length in bits modulo 2^64. */
  function Padded(msg: seq<byte>): (r: seq<byte>)
    ensures |r| % 64 == 0
  {
    var pad, length := PadBits(|msg|), LittleEndian(8 * |msg| % TWO64, 8);
    FullBlocks(|msg| + |pad|);
    msg + pad + length
  }

  lemma FullBlocks(n: nat)
    requires n % 64 == 56
    ensures (n + 8) % 64 == 0
  {
  }

  const INITIAL: State := [0x67452301, 0xefcdab89, 0x98badcfe, 0x10325476]

  lemma StartBytes()
    ensures EncodeWords(INITIAL[..2]) == [0x01, 0x23, 0x45, 0x67, 0x89, 0xab, 0xcd, 0xef]
    ensures EncodeWords(INITIAL[2..]) == [0xfe, 0xdc, 0xba, 0x98, 0x76, 0x54, 0x32, 0x10]
  {
    BytesOf(INITIAL[0], 0x01, 0x23, 0x45, 0x67);
    BytesOf(INITIAL[1], 0x89, 0xab, 0xcd, 0xef);
    BytesOf(INITIAL[2], 0xfe, 0xdc, 0xba, 0x98);
    BytesOf(INITIAL[3], 0x76, 0x54, 0x32, 0x10);
    assert INITIAL[..2] == [INITIAL[0], INITIAL[1]] && INITIAL[2..] == [INITIAL[2], INITIAL[3]];
    EncodeTwo(INITIAL[0], INITIAL[1]);
    EncodeTwo(INITIAL[2], INITIAL[3]);
  }

  /** A word holds its bytes from the low end on. */
  lemma BytesOf(w: word, b0: byte, b1: byte, b2: byte, b3: byte)
    requires w == b0 + 0x100 * (b1 + 0x100 * (b2 + 0x100 * b3))
    ensures LittleEndian(w, 4) == [b0, b1, b2, b3]
  {
    var c: int := b2 + 0x100 * b3;
    var a: int := b1 + 0x100 * c;
    LowByte(b0, a);
    LowByte(b1, c);
    LowByte(b2, b3);
    assert LittleEndian(b3, 1) == [b3 % 0x100] + LittleEndian(b3 / 0x100, 0);
    assert LittleEndian(c, 2) == [c % 0x100] + LittleEndian(c / 0x100, 1);
    assert LittleEndian(a, 3) == [a % 0x100] + LittleEndian(a / 0x100, 2);
    assert LittleEndian(w, 4) == [w % 0x100] + LittleEndian(w / 0x100, 3);
  }

  /** Section 3.4: the blocks of a message are compressed one after the other. */
  function Fold(f: Compression, msg: seq<byte>): State
    requires |msg| % 64 == 0
  {
    if msg == [] then INITIAL else f(Fold(f, msg[..|msg| - 64]), msg[|msg| - 64..])
  }

  /** The digest of a message. */
  function Digest(f: Compression, msg: seq<byte>): seq<byte> {
    EncodeWords(Fold(f, Padded(msg)))
  }

  /** If compressing changes nothing, every message has the state at the start for its digest. */
  lemma IdleDigest(f: Compression, msg: seq<byte>)
    requires forall s: State, b: Block :: f(s, b) == s
    ensures Digest(f, msg) ==
      [0x01, 0x23, 0x45, 0x67, 0x89, 0xab, 0xcd, 0xef, 0xfe, 0xdc, 0xba, 0x98, 0x76, 0x54, 0x32, 0x10]
  {
    StartBytes();
    IdleFold(f, Padded(msg));
    EncodeHalves(INITIAL);
  }

  lemma {:induction false} IdleFold(f: Compression, msg: seq<byte>)
    requires |msg| % 64 == 0 && forall s: State, b: Block :: f(s, b) == s
    ensures Fold(f, msg) == INITIAL
    decreases |msg|
  {
    if msg != [] { IdleFold(f, msg[..|msg| - 64]); }
  }

  lemma EncodeLast(ws: seq<word>)
    requires ws != []
    ensures EncodeWords(ws) == EncodeWords(ws[..|ws| - 1]) + LittleEndian(ws[|ws| - 1], 4)
  {
  }

  lemma EncodeHalves(s: State)
    ensures EncodeWords(s) == EncodeWords(s[..2]) + EncodeWords(s[2..])
  {
    var three := s[..3];
    assert s[2..] == [s[2], s[3]] && three[..2] == s[..2];
    EncodeTwo(s[2], s[3]);
    EncodeLast(three);
    EncodeLast(s);
    Regroup(EncodeWords(s[..2]), LittleEndian(s[2], 4), LittleEndian(s[3], 4));
  }

  // ----- words and bytes -----

  lemma {:induction false} LittleEndianSplit(lo: nat, hi: nat, j: nat, k: nat)
    requires lo < Pow256(j)
    ensures LittleEndian(lo + Pow256(j) * hi, j + k) == LittleEndian(lo, j) + LittleEndian(hi, k)
    decreases j
  {
    if j > 0 {
      var q := Pow256(j - 1);
      Scaled(q, hi);
      LowByte(lo, q * hi);
      LittleEndianSplit(lo / 0x100, hi, j - 1, k);
      LowestFirst(lo + 0x100 * (q * hi), j + k);
      LowestFirst(lo, j);
      Regroup([lo % 0x100], LittleEndian(lo / 0x100, j - 1), LittleEndian(hi, k));
    } else {
      NothingAround(LittleEndian(hi, k));
    }
  }

  lemma LowestFirst(v: nat, k: nat)
    requires k > 0
    ensures LittleEndian(v, k) == [v % 0x100] + LittleEndian(v / 0x100, k - 1)
  {
  }

  lemma Scaled(q: nat, hi: nat)
    ensures (0x100 * q) * hi == 0x100 * (q * hi)
  {
  }

  lemma LowByte(lo: nat, p: nat)
    ensures (lo + 0x100 * p) % 0x100 == lo % 0x100 && (lo + 0x100 * p) / 0x100 == lo / 0x100 + p
  {
  }

  function Pow256(k: nat): (r: nat)
    ensures r >= 1
  {
    if k == 0 then 1 else 0x100 * Pow256(k - 1)
  }

  /** The two counter words are written as one 64-bit number. */
  lemma CountBytes(c0: word, c1: word)
    ensures EncodeWords([c0, c1]) == LittleEndian(c0 + TWO32 * c1, 8)
  {
    assert Pow256(2) == 0x1_0000;
    assert Pow256(4) == TWO32;
    LittleEndianSplit(c0, c1, 4, 4);
    EncodeTwo(c0, c1);
  }

  lemma EncodeTwo(c0: word, c1: word)
    ensures EncodeWords([c0, c1]) == LittleEndian(c0, 4) + LittleEndian(c1, 4)
  {
    var one, two := [c0], [c0, c1];
    assert two[..1] == one && one[..0] == [];
    assert EncodeWords(one) == [] + LittleEndian(c0, 4);
  }

  /** Decode's word: four bytes put together, least significant first. */
  function WordOf(b: seq<byte>): word
    requires |b| == 4
  {
    var b0: int, b1: int, b2: int, b3: int := b[0], b[1], b[2], b[3];
    b0 + 0x100 * b1 + 0x1_0000 * b2 + 0x100_0000 * b3
  }

  /** Decode undoes Encode, word by word. */
  lemma WordRoundTrip(w: word)
    ensures WordOf(LittleEndian(w, 4)) == w
  {
    var a, b, c := w / 0x100, w / 0x1_0000, w / 0x100_0000;
    assert LittleEndian(w, 4) == [w % 0x100] + LittleEndian(a, 3);
    assert LittleEndian(a, 3) == [a % 0x100] + LittleEndian(a / 0x100, 2);
    assert a / 0x100 == b && b / 0x100 == c && c < 0x100;
    assert LittleEndian(b, 2) == [b % 0x100] + LittleEndian(c, 1);
    assert LittleEndian(c, 1) == [c % 0x100] + LittleEndian(c / 0x100, 0);
  }

  method Encode(input: seq<word>) returns (output: seq<byte>)
    ensures output == EncodeWords(input)
  {
    output := [];
    var i := 0;
    while i < |input|
      invariant 0 <= i <= |input| && output == EncodeWords(input[..i])
    {
      var w := input[i];
      EncodeOne(w);
      output := output + [w % 0x100, w / 0x100 % 0x100, w / 0x1_0000 % 0x100, w / 0x100_0000 % 0x100];
      assert input[..i + 1][..i] == input[..i];
      i := i + 1;
    }
    assert input[..i] == input;
  }

  lemma EncodeOne(w: word)
    ensures LittleEndian(w, 4) == [w % 0x100, w / 0x100 % 0x100, w / 0x1_0000 % 0x100, w / 0x100_0000 % 0x100]
  {
    var a, b, c := w / 0x100, w / 0x1_0000, w / 0x100_0000;
    assert a / 0x100 == b && b / 0x100 == c;
    assert LittleEndian(w, 4) == [w % 0x100] + LittleEndian(a, 3);
    assert LittleEndian(a, 3) == [a % 0x100] + LittleEndian(b, 2);
    assert LittleEndian(b, 2) == [b % 0x100] + LittleEndian(c, 1);
    assert LittleEndian(c, 1) == [c % 0x100] + LittleEndian(c / 0x100, 0);
  }

  /** The table the padding is taken from. */
  const PADDING: seq<byte> := [0x80] + Zeros(63)

  lemma PaddingIs(n: nat, padLen: nat)
    requires padLen == (if n % 64 < 56 then 56 - n % 64 else 120 - n % 64)
    ensures padLen <= 64 && PADDING[..padLen] == PadBits(n)
  {
    assert (55 - n) % 64 == padLen - 1;
  }

  lemma PaddedIs(seen: seq<byte>, bits: seq<byte>)
    requires bits == LittleEndian(8 * |seen| % TWO64, 8)
    ensures seen + PadBits(|seen|) + bits == Padded(seen) && |seen + PadBits(|seen|)| == |seen| + |PadBits(|seen|)|
  {
  }

  // ----- the context -----

  lemma FoldMore(f: Compression, msg: seq<byte>, b: Block)
    requires |msg| % 64 == 0
    ensures Fold(f, msg + b) == f(Fold(f, msg), b)
  {
    assert (msg + b)[..|msg|] == msg && (msg + b)[|msg|..] == b;
  }

  /** The blocks already compressed, and the bytes carried over. */
  function Whole(msg: seq<byte>): (r: seq<byte>)
    ensures |r| % 64 == 0
  {
    msg[..|msg| - |msg| % 64]
  }

  function Carry(msg: seq<byte>): (r: seq<byte>)
    ensures |r| == |msg| % 64
  {
    msg[|msg| - |msg| % 64..]
  }

  class Context {
    const transform: Compression
    var state: State
    var count0: word
    var count1: word
    const buffer: array<byte>

    /** The context is in the middle of digesting a message of which `seen` has been given. */
    ghost predicate Holds(seen: seq<byte>)
      reads this, buffer
    {
      && buffer.Length == 64
      && count0 + TWO32 * count1 == 8 * |seen| % TWO64
      && state == Fold(transform, Whole(seen))
      && buffer[..|seen| % 64] == Carry(seen)
    }

    /** MD5Init. The state words are those section 3.3 of RFC 1321 gives byte by byte. */
    constructor (transform: Compression)
      ensures Holds([]) && this.transform == transform && fresh(buffer)
      ensures EncodeWords(state[..2]) == [0x01, 0x23, 0x45, 0x67, 0x89, 0xab, 0xcd, 0xef]
      ensures EncodeWords(state[2..]) == [0xfe, 0xdc, 0xba, 0x98, 0x76, 0x54, 0x32, 0x10]
      ensures count0 == count1 == 0
    {
      StartBytes();
      this.transform := transform;
      buffer := new byte[64];
      count0, count1 := 0, 0;
      state := INITIAL;
    }

    /** Lines 125-131: the bit count, kept in two words with an explicit carry. */
    method AddBits(n: nat, ghost total: nat, ghost total': nat)
      requires n < TWO32 && count0 + TWO32 * count1 == 8 * total % TWO64 && total' == total + n
      modifies this`count0, this`count1
      ensures count0 + TWO32 * count1 == 8 * total' % TWO64
    {
      var low := 8 * n % TWO32;
      count0 := (count0 + low) % TWO32;
      if count0 < low {
        count1 := (count1 + 1) % TWO32;
      }
      ghost var carried := count1;
      count1 := (count1 + n / 0x2000_0000) % TWO32;
      CountCarry(old(count0), old(count1), n, total, low, count0, carried, count1);
    }

    /** MD5Update. It reads behind its input exactly when the sum in the loop guard wraps round. */
    method Update(input: seq<byte>, ghost seen: seq<byte>) returns (inRange: bool)
      requires Holds(seen) && |input| < TWO32
      modifies this, buffer
      ensures inRange <==> !GuardWraps(|seen|, |input|)
      ensures inRange ==> Holds(seen + input)
    {
      var index := count0 / 8 % 64;
      CountIndex(count0, count1, |seen|);
      ghost var all := seen + input;
      AddBits(|input|, |seen|, |all|);
      inRange := Absorb(input, seen, all, index);
    }

    /** Lines 133-153. */
    method Absorb(input: seq<byte>, ghost seen: seq<byte>, ghost all: seq<byte>, index0: nat) returns (inRange: bool)
      requires buffer.Length == 64 && index0 == |seen| % 64 && |input| < TWO32 && all == seen + input
      requires state == Fold(transform, Whole(seen)) && buffer[..index0] == Carry(seen)
      modifies this`state, buffer
      ensures inRange <==> !GuardWraps(|seen|, |input|)
      ensures inRange ==> state == Fold(transform, Whole(all)) && buffer[..|all| % 64] == Carry(all)
    {
      var index, i := index0, 0;
      ghost var kept := Carry(seen);
      inRange := true;
      if |input| >= 64 - index {
        i, inRange := Blocks(input, seen, index, 64 - index);
        if !inRange {
          return;
        }
        index, kept := 0, [];
        CutAt(seen, input, i);
      } else {
        ShortInput(seen, input);
      }
      assert kept + input[i..] == Carry(all);
      Store(input, i, index, kept);
    }

    /** Line 151: what is left of the input is carried over. */
    method Store(input: seq<byte>, i: nat, index: nat, ghost kept: seq<byte>)
      requires buffer.Length == 64 && i <= |input| && index + (|input| - i) <= 64 && kept == buffer[..index]
      modifies buffer
      ensures buffer[..index + (|input| - i)] == kept + input[i..]
    {
      Copy(input, i, index, |input| - i);
      CarryOver(buffer[..], kept, input[i..], index);
    }

    /** Lines 137-146: the carried bytes are completed to a block, and as many whole blocks of the
        input as there are follow, as far as the guard can be trusted. */
    method Blocks(input: seq<byte>, ghost seen: seq<byte>, index: nat, partLen: nat) returns (i: nat, inRange: bool)
      requires buffer.Length == 64 && index == |seen| % 64 && partLen == 64 - index <= |input| < TWO32
      requires state == Fold(transform, Whole(seen)) && buffer[..index] == Carry(seen)
      modifies this`state, buffer
      ensures inRange <==> !GuardWraps(|seen|, |input|)
      ensures inRange ==> i <= |input| < i + 64 && AtBlock(input, seen, i)
    {
      FirstTransform(input, seen, index, partLen);
      i := partLen;
      while Guard(|input|, i)
        invariant AtBlock(input, seen, i)
        decreases |input| - i
      {
        if i + 64 > |input| {
          GuardTells(|seen|, |input|, i);
          return i, false;
        }
        NextTransform(input, seen, i);
        i := i + 64;
      }
      GuardEnds(|seen|, |input|, i);
      inRange := true;
    }

    /** All of the input before place i has been compressed. */
    ghost predicate AtBlock(input: seq<byte>, seen: seq<byte>, i: nat)
      reads this
    {
      Reached(|seen|, |input|, i) && state == Fold(transform, seen + input[..i])
    }

    /** Line 143: one more whole block. */
    method NextTransform(input: seq<byte>, ghost seen: seq<byte>, i: nat)
      requires i + 64 <= |input| && AtBlock(input, seen, i)
      modifies this`state
      ensures AtBlock(input, seen, i + 64)
    {
      var block := input[i..i + 64];
      NextReached(|seen|, |input|, i);
      Extended(seen, input, i, i + 64);
      NextBlock(transform, seen + input[..i], block, seen + input[..i + 64]);
      state := transform(state, block);
    }

    /** Lines 138-140: the block that starts with the carried bytes. */
    method FirstTransform(input: seq<byte>, ghost seen: seq<byte>, index: nat, partLen: nat)
      requires buffer.Length == 64 && index == |seen| % 64 && partLen == 64 - index <= |input|
      requires state == Fold(transform, Whole(seen)) && buffer[..index] == Carry(seen)
      modifies this`state, buffer
      ensures AtBlock(input, seen, partLen)
    {
      Copy(input, 0, index, partLen);
      FirstBlock(transform, seen, input, partLen);
      assert buffer[..] == buffer[..index] + buffer[index..64];
      state := transform(state, buffer[..]);
    }

    /** MD5Final: pads, appends the length, and writes the state out; the context is then cleared. */
    method Final(ghost seen: seq<byte>) returns (digest: seq<byte>)
      requires Holds(seen)
      modifies this, buffer
      ensures digest == Digest(transform, seen)
      ensures state == [0, 0, 0, 0] && count0 == count1 == 0 && forall i :: 0 <= i < buffer.Length ==> buffer[i] == 0
    {
      Pad(seen);
      assert Whole(Padded(seen)) == Padded(seen);
      digest := Encode(state);
      state, count0, count1 := [0, 0, 0, 0], 0, 0;
      forall i | 0 <= i < buffer.Length { buffer[i] := 0; }
    }

    /** Lines 163-175. */
    method Pad(ghost seen: seq<byte>)
      requires Holds(seen)
      modifies this, buffer
      ensures Holds(Padded(seen))
    {
      var bits := Encode([count0, count1]);
      CountBytes(count0, count1);
      var index := count0 / 8 % 64;
      CountIndex(count0, count1, |seen|);
      var padLen := if index < 56 then 56 - index else 120 - index;
      PaddingIs(|seen|, padLen);
      PaddedIs(seen, bits);
      AddShort(PADDING[..padLen], seen);
      AddShort(bits, seen + PadBits(|seen|));
    }

    /** MD5Update with a few bytes. */
    method AddShort(input: seq<byte>, ghost seen: seq<byte>)
      requires Holds(seen) && |input| <= 64
      modifies this, buffer
      ensures Holds(seen + input)
    {
      ShortNeverWraps(|seen|, |input|);
      var ok := Update(input, seen);
    }

    /** MD5_memcpy into the buffer. */
    method Copy(input: seq<byte>, from: nat, index: nat, len: nat)
      requires from + len <= |input| && index + len <= buffer.Length
      modifies buffer
      ensures buffer[index..index + len] == input[from..from + len]
      ensures buffer[..index] == old(buffer[..index])
    {
      var k := 0;
      while k < len
        invariant 0 <= k <= len
        invariant forall j :: index <= j < index + k ==> buffer[j] == input[from + (j - index)]
        invariant forall j :: 0 <= j < index ==> buffer[j] == old(buffer[j])
      {
        buffer[index + k] := input[from + k];
        k := k + 1;
      }
    }
  }

  lemma NextBlock(f: Compression, msg: seq<byte>, b: Block, more: seq<byte>)
    requires |msg| % 64 == 0 && more == msg + b
    ensures |more| % 64 == 0 && Fold(f, more) == f(Fold(f, msg), b)
  {
    MultipleMore(|msg|);
    FoldMore(f, msg, b);
  }

  lemma Extended(seen: seq<byte>, input: seq<byte>, i: nat, j: nat)
    requires i <= j <= |input|
    ensures seen + input[..j] == seen + input[..i] + input[i..j]
  {
    assert input[..j] == input[..i] + input[i..j];
  }

  lemma MultipleMore(n: nat)
    requires n % 64 == 0
    ensures (n + 64) % 64 == 0
  {
  }

  lemma CutAt(seen: seq<byte>, input: seq<byte>, i: nat)
    requires i <= |input| < i + 64 && (|seen| + i) % 64 == 0
    ensures Whole(seen + input) == seen + input[..i] && Carry(seen + input) == input[i..]
    ensures |seen + input| % 64 == |input| - i
  {
    Remainder(|seen| + i, |input| - i);
  }

  lemma Remainder(m: int, r: int)
    requires m % 64 == 0 && 0 <= r < 64
    ensures (m + r) % 64 == r
  {
  }

  lemma CarryOver(buffer: seq<byte>, kept: seq<byte>, added: seq<byte>, index: nat)
    requires index == |kept| && index + |added| <= |buffer|
    requires buffer[..index] == kept && buffer[index..index + |added|] == added
    ensures buffer[..index + |added|] == kept + added
  {
    assert buffer[..index + |added|] == buffer[..index] + buffer[index..index + |added|];
  }

  /** The unsigned sum i + 63 of the loop guard goes past 2^32 where the loop should end. */
  predicate GuardWraps(seen: nat, n: nat) {
    n - (seen + n) % 64 + 63 >= TWO32 && n >= 64 - seen % 64
  }

  /** The places at which the loop guard is evaluated. */
  ghost predicate Reached(seen: nat, n: nat, i: nat) {
    64 - seen % 64 <= i <= n && (seen + i) % 64 == 0
  }

  /** The loop guard, in unsigned arithmetic of 32 bits. */
  predicate Guard(n: nat, i: nat) {
    (i + 63) % TWO32 < n
  }

  /** It says whether a whole block is left. */
  ghost predicate GuardRight(n: nat, i: nat) {
    Guard(n, i) <==> i + 64 <= n
  }

  lemma GuardStops(n: nat, i: nat)
    requires !Guard(n, i)
    ensures i + 64 > n
  {
  }

  lemma ShortNeverWraps(seen: nat, n: nat)
    requires n <= 64
    ensures !GuardWraps(seen, n)
  {
  }

  lemma NextReached(seen: nat, n: nat, i: nat)
    requires Reached(seen, n, i) && i + 64 <= n
    ensures Reached(seen, n, i + 64)
  {
    MultipleMore(seen + i);
  }

  /** The last place at which the guard is evaluated. */
  lemma LastReached(seen: nat, n: nat, i: nat)
    requires Reached(seen, n, i) && i + 64 > n
    ensures i == n - (seen + n) % 64
  {
    Remainder(seen + i, n - i);
  }

  /** Unless it wraps, the guard is right. */
  lemma GuardSound(seen: nat, n: nat, i: nat)
    requires n < TWO32 && !GuardWraps(seen, n) && Reached(seen, n, i)
    ensures GuardRight(n, i)
  {
    if i + 64 > n { LastReached(seen, n, i); }
  }

  /** When it does wrap, the loop goes on although less than a block is left. */
  lemma GuardUnsound(seen: nat, n: nat)
    requires n < TWO32 && GuardWraps(seen, n)
    ensures var i := n - (seen + n) % 64;
      Reached(seen, n, i) && !GuardRight(n, i)
  {
    LastIsReached(seen, n);
  }

  lemma LastIsReached(seen: nat, n: nat)
    requires n >= 64 - seen % 64
    ensures Reached(seen, n, n - (seen + n) % 64)
  {
    var m := seen + n;
    assert m - m % 64 == 64 * (m / 64);
    assert m / 64 >= seen / 64 + 1;
  }

  /** The guard is right wherever it is evaluated if and only if it does not wrap. */
  lemma GuardIff(seen: nat, n: nat)
    requires n < TWO32 && n >= 64 - seen % 64
    ensures (forall i :: Reached(seen, n, i) ==> GuardRight(n, i)) <==> !GuardWraps(seen, n)
  {
    if GuardWraps(seen, n) {
      GuardUnsound(seen, n);
    } else {
      forall i | Reached(seen, n, i) ensures GuardRight(n, i) { GuardSound(seen, n, i); }
    }
  }

  /** The largest input behind a single byte is one for which it wraps. */
  lemma GuardWrapsAt()
    ensures GuardWraps(1, 0xFFFF_FFFF)
    ensures Reached(1, 0xFFFF_FFFF, 0xFFFF_FFFF) && !GuardRight(0xFFFF_FFFF, 0xFFFF_FFFF)
  {
    GuardUnsound(1, 0xFFFF_FFFF);
  }

  /** At the last place the guard shows whether it wraps. */
  lemma GuardTells(seen: nat, n: nat, i: nat)
    requires n < TWO32 && Reached(seen, n, i) && i + 64 > n
    ensures Guard(n, i) <==> GuardWraps(seen, n)
  {
    LastReached(seen, n, i);
    if GuardWraps(seen, n) { GuardUnsound(seen, n); } else { GuardSound(seen, n, i); }
  }

  lemma GuardEnds(seen: nat, n: nat, i: nat)
    requires n < TWO32 && Reached(seen, n, i) && !Guard(n, i)
    ensures i + 64 > n && !GuardWraps(seen, n)
  {
    GuardStops(n, i);
    GuardTells(seen, n, i);
  }

  lemma CountIndex(c0: word, c1: word, n: nat)
    requires c0 + TWO32 * c1 == 8 * n % TWO64
    ensures c0 / 8 % 64 == n % 64
  {
    var q := 8 * n / TWO64;
    assert 8 * n == c0 + TWO32 * c1 + TWO64 * q;
    var k := 0x80_0000 * c1 + 0x80_0000_0000_0000 * q;
    assert c0 == 8 * (n - 64 * k);
    assert c0 / 8 == n - 64 * k;
    MinusMultiple(n, k);
  }

  lemma MinusMultiple(n: int, k: int)
    ensures (n - 64 * k) % 64 == n % 64
  {
  }

  /** Adding with a carry that a comparison tells is adding 8 * n modulo 2^64. */
  lemma CountCarry(c0: word, c1: word, n: nat, total: nat, low: nat, c0': word, carried: word, c1': word)
    requires n < TWO32 && c0 + TWO32 * c1 == 8 * total % TWO64
    requires low == 8 * n % TWO32 && c0' == (c0 + low) % TWO32
    requires carried == (if c0' < low then (c1 + 1) % TWO32 else c1) && c1' == (carried + n / 0x2000_0000) % TWO32
    ensures c0' + TWO32 * c1' == 8 * (total + n) % TWO64
  {
    var high := n / 0x2000_0000;
    BitsOf(n);
    CarryTells(c0, low);
    var q1 := if c0' < low && c1 == TWO32 - 1 then 1 else 0;
    assert carried == c1 + (if c0' < low then 1 else 0) - TWO32 * q1;
    var q2 := (carried + high) / TWO32;
    assert carried + high == c1' + TWO32 * q2;
    var q := 8 * total / TWO64;
    assert 8 * total == TWO64 * q + c0 + TWO32 * c1;
    WithinModulus(c0' + TWO32 * c1', q + q1 + q2);
    assert 8 * (total + n) == c0' + TWO32 * c1' + TWO64 * (q + q1 + q2);
  }

  lemma BitsOf(n: nat)
    requires n < TWO32
    ensures 8 * n == 8 * n % TWO32 + TWO32 * (n / 0x2000_0000)
  {
  }

  lemma CarryTells(c0: word, low: word)
    ensures var c0' := (c0 + low) % TWO32; c0 + low == c0' + (if c0' < low then TWO32 else 0)
  {
  }

  lemma WithinModulus(v: int, q: int)
    requires 0 <= v < TWO64
    ensures (v + TWO64 * q) % TWO64 == v
  {
  }

  lemma FirstBlock(f: Compression, seen: seq<byte>, input: seq<byte>, partLen: nat)
    requires partLen == 64 - |seen| % 64 && partLen <= |input|
    ensures |Carry(seen) + input[..partLen]| == 64 && (|seen| + partLen) % 64 == 0
    ensures Fold(f, seen + input[..partLen]) == f(Fold(f, Whole(seen)), Carry(seen) + input[..partLen])
  {
    var block := Carry(seen) + input[..partLen];
    assert seen + input[..partLen] == Whole(seen) + block;
    FoldMore(f, Whole(seen), block);
  }

  lemma ShortInput(seen: seq<byte>, input: seq<byte>)
    requires |seen| % 64 + |input| < 64
    ensures Whole(seen + input) == Whole(seen) && Carry(seen + input) == Carry(seen) + input
    ensures |seen + input| % 64 == |seen| % 64 + |input|
  {
    StaysWithin(|seen|, |input|);
    LateCut(seen, input, |seen| - |seen| % 64);
  }

  lemma StaysWithin(n: nat, k: nat)
    requires n % 64 + k < 64
    ensures (n + k) % 64 == n % 64 + k && (n + k) - (n + k) % 64 == n - n % 64
  {
    var c := n % 64;
    assert (n - c) % 64 == 0;
    Remainder(n - c, c + k);
  }

  lemma LateCut(seen: seq<byte>, input: seq<byte>, k: nat)
    requires k <= |seen|
    ensures (seen + input)[..k] == seen[..k] && (seen + input)[k..] == seen[k..] + input
  {
  }

  /** Digesting all pieces keeps within their bounds. */
  ghost predicate NoneWraps(parts: seq<seq<byte>>) {
    forall i :: 0 <= i < |parts| ==> !PieceWraps(parts, i)
  }

  ghost predicate PieceWraps(parts: seq<seq<byte>>, i: nat)
    requires i < |parts|
  {
    GuardWraps(|Flatten(parts[..i])|, |parts[i]|)
  }

  /** One piece more. */
  method UpdatePiece(context: Context, parts: seq<seq<byte>>, i: nat) returns (inRange: bool)
    requires i < |parts| && |parts[i]| < TWO32 && context.Holds(Flatten(parts[..i]))
    modifies context, context.buffer
    ensures inRange <==> !PieceWraps(parts, i)
    ensures inRange ==> context.Holds(Flatten(parts[..i + 1]))
  {
    FlattenMore(parts[..i], parts[i]);
    assert parts[..i + 1] == parts[..i] + [parts[i]];
    inRange := context.Update(parts[i], Flatten(parts[..i]));
  }

  lemma Ends(parts: seq<seq<byte>>)
    ensures Flatten(parts[..0]) == [] && Flatten(parts[..|parts|]) == Flatten(parts)
  {
    assert parts[..|parts|] == parts;
  }

  /** All pieces, up to one for which the guard wraps. */
  method UpdateAll(context: Context, parts: seq<seq<byte>>) returns (inRange: bool)
    requires context.Holds([]) && forall i :: 0 <= i < |parts| ==> |parts[i]| < TWO32
    modifies context, context.buffer
    ensures inRange <==> NoneWraps(parts)
    ensures inRange ==> context.Holds(Flatten(parts))
  {
    var i := 0;
    Ends(parts);
    while i < |parts|
      invariant 0 <= i <= |parts| && context.Holds(Flatten(parts[..i]))
      invariant forall k :: 0 <= k < i ==> !PieceWraps(parts, k)
    {
      inRange := UpdatePiece(context, parts, i);
      if !inRange {
        return;
      }
      i := i + 1;
    }
    inRange := true;
  }

  /** However a message is cut into pieces, digesting the pieces digests the message, unless the
      loop guard wraps round for one of them. */
  method DigestPieces(transform: Compression, parts: seq<seq<byte>>) returns (inRange: bool, digest: seq<byte>)
    requires forall i :: 0 <= i < |parts| ==> |parts[i]| < TWO32
    ensures inRange <==> NoneWraps(parts)
    ensures inRange ==> digest == Digest(transform, Flatten(parts))
  {
    var context := new Context(transform);
    digest := [];
    inRange := UpdateAll(context, parts);
    if inRange {
      digest := context.Final(Flatten(parts));
    }
  }
}
