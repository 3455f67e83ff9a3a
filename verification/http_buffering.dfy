/** Searching and consuming a received stream through a buffer that is flushed from time to time
    (modules/mod_http_client/http_buffering.c, mod_http_client.c). */
module HttpBuffering {
  import opened Strings
  import opened Wrappers

  const CONST_BUF_SIZE: nat := 512
  const NUL := '\0'

  ghost predicate OccursAt(d: string, p: string, k: int) {
    0 <= k && k + |p| <= |d| && d[k..k + |p|] == p
  }

  ghost predicate NotBefore(d: string, p: string, k: int) {
    forall j :: 0 <= j < k ==> !OccursAt(d, p, j)
  }

  /** The first place of p in d. */
  ghost predicate FirstAt(d: string, p: string, k: int) {
    OccursAt(d, p, k) && NotBefore(d, p, k)
  }

  /** The first NUL from position k on, or the end. */
  function NulFrom(s: string, k: nat): (z: nat)
    requires k <= |s|
    ensures k <= z <= |s| && (z < |s| ==> s[z] == NUL)
    decreases |s| - k
  {
    if k == |s| || s[k] == NUL then k else NulFrom(s, k + 1)
  }

  /** strstr from position `from` of a window closed by a NUL: the search ends at the first NUL. */
  method StrStr(temp: string, from: nat, p: string) returns (r: Option<nat>)
    requires from <= |temp| && NUL !in p && p != ""
    ensures r.Some? ==> from <= r.value && OccursAt(temp, p, r.value) && forall k :: from <= k < r.value ==> !OccursAt(temp, p, k)
    ensures r.None? ==> forall k :: from <= k <= NulFrom(temp, from) ==> !OccursAt(temp, p, k)
  {
    var k := from;
    while k + |p| <= |temp| && temp[k] != NUL
      invariant from <= k <= |temp| && NulFrom(temp, k) == NulFrom(temp, from)
      invariant forall j :: from <= j < k ==> !OccursAt(temp, p, j)
      decreases |temp| - k
    {
      if temp[k..k + |p|] == p {
        return Some(k);
      }
      k := k + 1;
    }
    if k < |temp| && temp[k] == NUL {
      NoNulInside(temp, p, k);
    }
    return None;
  }

  lemma NoNulInside(d: string, p: string, k: nat)
    requires NUL !in p && p != "" && k < |d| && d[k] == NUL
    ensures forall j :: j <= k < j + |p| ==> !OccursAt(d, p, j)
  {
    forall j | j <= k < j + |p| ensures !OccursAt(d, p, j) {
      if 0 <= j && j + |p| <= |d| {
        var w := d[j..j + |p|];
        assert w[k - j] == NUL;
        assert NUL in w;
      }
    }
  }

  /** Lines 75-90: the search in one window goes on behind each NUL byte of the data. */
  method SearchWindow(temp: string, p: string) returns (r: Option<nat>)
    requires NUL !in p && p != ""
    ensures r.Some? ==> FirstAt(temp, p, r.value)
    ensures r.None? ==> forall k :: !OccursAt(temp, p, k)
  {
    var afterNul := 0;
    while |temp| - afterNul > 0
      invariant 0 <= afterNul <= |temp| && NotBefore(temp, p, afterNul)
    {
      var found := StrStr(temp, afterNul, p);
      if found.Some? {
        return found;
      }
      var nul := MemChr(temp, afterNul);
      if nul.None? {
        return None;
      }
      NoNulInside(temp, p, nul.value);
      afterNul := nul.value + 1;
    }
    return None;
  }

  method MemChr(temp: string, from: nat) returns (r: Option<nat>)
    requires from <= |temp|
    ensures if NulFrom(temp, from) < |temp| then r == Some(NulFrom(temp, from)) else r == None
  {
    var k := from;
    while k < |temp|
      invariant from <= k <= |temp| && NulFrom(temp, k) == NulFrom(temp, from)
    {
      if temp[k] == NUL {
        return Some(k);
      }
      k := k + 1;
    }
    return None;
  }

  /** An occurrence seen in a window is one in the data, and the other way round if it fits. */
  lemma InWindow(d: string, p: string, from: nat, len: nat, k: int)
    requires from + len <= |d| && 0 <= k
    ensures OccursAt(d[from..from + len], p, k) <==> k + |p| <= len && OccursAt(d, p, from + k)
  {
    if k + |p| <= len {
      SliceOfSlice(d, from, from + len, k, k + |p|);
    }
  }

  /** A buffer with a read position, and how much of the stream has been parsed and flushed. */
  class Client {
    var buffer: string
    var offset: int
    var parsedDataSize: nat
    var flushedDataSize: nat
    ghost var stream: string

    /** The buffer is the received stream without its flushed front. */
    ghost predicate Valid()
      reads this
    {
      flushedDataSize <= parsedDataSize <= |stream| && buffer == stream[flushedDataSize..]
    }

    constructor ()
      ensures Valid() && stream == "" && parsedDataSize == 0 && offset == 0
    {
      buffer, offset, parsedDataSize, flushedDataSize, stream := "", 0, 0, 0, "";
    }

    /** memfile_read */
    method MemfileRead(size: nat) returns (temp: string)
      requires 0 <= offset <= |buffer|
      modifies this`offset
      ensures old(offset) <= offset <= |buffer| && temp == buffer[old(offset)..offset]
      ensures |temp| == if old(offset) + size <= |buffer| then size else |buffer| - old(offset)
    {
      var n := if offset + size > |buffer| then |buffer| - offset else size;
      temp := buffer[offset..offset + n];
      offset := offset + n;
    }

    /** _http_buffering_receiveUntil: windows of 511 bytes, each overlapping the one before by the
        pattern's length less one. The result is where the first occurrence ends. */
    method ReceiveUntil(pattern: string) returns (size: int)
      requires 0 <= offset <= |buffer| && '\0' !in pattern
      modifies this`offset
      ensures offset == old(offset)
      ensures size == -1 || size >= |pattern|
      ensures pattern == "" || |pattern| >= CONST_BUF_SIZE ==> size == -1
      ensures 0 < |pattern| < CONST_BUF_SIZE ==>
        if size == -1 then forall k :: !OccursAt(buffer[offset..], pattern, k)
        else FirstAt(buffer[offset..], pattern, size - |pattern|)
    {
      var initOffset := offset;
      if |pattern| <= 0 || |pattern| >= CONST_BUF_SIZE {
        return -1;
      }
      ghost var d := buffer[initOffset..];
      var lastOffset := initOffset;
      while true
        invariant initOffset <= lastOffset <= |buffer| && NotBefore(d, pattern, lastOffset - initOffset)
        decreases |buffer| - lastOffset
      {
        offset := lastOffset;
        var temp := MemfileRead(CONST_BUF_SIZE - 1);
        ghost var from := lastOffset - initOffset;
        assert temp == d[from..from + |temp|];
        if |temp| < |pattern| {
          offset := initOffset;
          return -1;
        }
        var r := SearchWindow(temp, pattern);
        WindowSays(d, pattern, from, temp, r);
        if r.Some? {
          offset := initOffset;
          return r.value + |pattern| + lastOffset - initOffset;
        }
        lastOffset := lastOffset + |temp| - |pattern| + 1;
      }
    }

    /** http_buffering_getUntil: what comes next in the stream, through the first occurrence of the
        pattern; nothing is consumed when it has not arrived yet or is not of a length to search for. */
    method GetUntil(pattern: string) returns (buf: Option<string>)
      requires Valid() && '\0' !in pattern
      modifies this
      ensures Valid() && stream == old(stream) && flushedDataSize == old(flushedDataSize)
      ensures offset == parsedDataSize - flushedDataSize
      ensures buf.None? ==> parsedDataSize == old(parsedDataSize)
      ensures buf.None? && 0 < |pattern| < CONST_BUF_SIZE ==> forall k :: !OccursAt(stream[parsedDataSize..], pattern, k)
      ensures buf.Some? ==> 0 < |pattern| < CONST_BUF_SIZE
      ensures buf.Some? ==> old(parsedDataSize) <= parsedDataSize && stream[old(parsedDataSize)..parsedDataSize] == buf.value
      ensures buf.Some? ==> FirstAt(stream[old(parsedDataSize)..], pattern, |buf.value| - |pattern|)
    {
      var initOffset := parsedDataSize - flushedDataSize;
      assert buffer[initOffset..] == stream[parsedDataSize..];
      offset := initOffset;
      var size := ReceiveUntil(pattern);
      if size < 0 {
        return None;
      }
      offset := initOffset;
      var text := MemfileRead(size);
      InBuffer(stream, flushedDataSize, buffer, initOffset, initOffset + size);
      parsedDataSize := flushedDataSize + offset;
      return Some(text);
    }

    /** http_buffering_getNByte: the next size bytes of the stream, or as many as have arrived. */
    method GetNByte(size: int) returns (buf: Option<string>)
      requires Valid()
      modifies this
      ensures Valid() && stream == old(stream) && flushedDataSize == old(flushedDataSize)
      ensures offset == parsedDataSize - flushedDataSize
      ensures size < 0 <==> buf.None?
      ensures buf.None? ==> parsedDataSize == old(parsedDataSize)
      ensures buf.Some? ==> old(parsedDataSize) <= parsedDataSize && buf.value == stream[old(parsedDataSize)..parsedDataSize]
      ensures buf.Some? ==> |buf.value| == (if size <= |stream| - old(parsedDataSize) then size else |stream| - old(parsedDataSize))
    {
      var initOffset := parsedDataSize - flushedDataSize;
      offset := initOffset;
      if size < 0 {
        return None;
      }
      var recved := 0;
      if size > 0 {
        recved := |buffer| - initOffset;
        if recved >= size {
          recved := size;
        }
      }
      offset := initOffset;
      var text := MemfileRead(recved);
      InBuffer(stream, flushedDataSize, buffer, initOffset, initOffset + recved);
      parsedDataSize := flushedDataSize + offset;
      return Some(text);
    }

    /** More of the stream arrives. */
    method Receive(more: string)
      requires Valid()
      modifies this
      ensures Valid() && stream == old(stream) + more
      ensures parsedDataSize == old(parsedDataSize) && flushedDataSize == old(flushedDataSize)
    {
      buffer := buffer + more;
      stream := stream + more;
    }

    /** http_client_flushBuffer: what has been parsed leaves the buffer, and only that. */
    method FlushBuffer()
      requires Valid()
      modifies this
      ensures Valid() && stream == old(stream) && parsedDataSize == old(parsedDataSize) == flushedDataSize
      ensures offset == old(offset) - (flushedDataSize - old(flushedDataSize))
    {
      var flushSize := parsedDataSize - flushedDataSize;
      if flushSize <= 0 {
        return;
      }
      buffer := buffer[flushSize..];
      offset := offset - flushSize;
      flushedDataSize := flushedDataSize + flushSize;
    }
  }

  lemma InBuffer(stream: string, flushed: nat, buffer: string, lo: nat, hi: nat)
    requires flushed <= |stream| && buffer == stream[flushed..] && lo <= hi <= |buffer|
    ensures buffer[lo..hi] == stream[flushed + lo..flushed + hi]
  {
    assert stream[flushed..] == stream[flushed..|stream|];
    SliceOfSlice(stream, flushed, |stream|, lo, hi);
  }

  lemma WindowSays(d: string, p: string, from: nat, w: string, r: Option<nat>)
    requires from + |w| <= |d| && w == d[from..from + |w|] && |p| <= |w| && NotBefore(d, p, from)
    requires r.Some? ==> FirstAt(w, p, r.value)
    requires r.None? ==> forall k :: !OccursAt(w, p, k)
    ensures r.Some? ==> FirstAt(d, p, from + r.value)
    ensures r.None? ==> NotBefore(d, p, from + |w| - |p| + 1)
  {
    forall j | from <= j && j + |p| <= from + |w| ensures OccursAt(d, p, j) <==> OccursAt(w, p, j - from) {
      InWindow(d, p, from, |w|, j - from);
    }
    if r.Some? {
      InWindow(d, p, from, |w|, r.value);
    }
  }
}
