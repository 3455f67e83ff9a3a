/** The loops of modules/mod_httpd/filter.c that keep writing until everything is sent. */
module OutputLoops {
  import opened Strings
  import opened Wrappers

  /** A connection: every call sends some of what it is given, and may fail. A call that does not
      fail sends at least one byte if there is any. */
  class Socket {
    var sent: string

    method Send(data: string) returns (ok: bool, n: nat)
      modifies this
      ensures n <= |data| && sent == old(sent) + data[..n] && (ok && data != "" ==> n > 0)
    {
      ok := *;
      n :| 0 <= n <= |data| && (ok && data != "" ==> n > 0);
      sent := sent + data[..n];
    }
  }

  /** The rest of what is to be sent when n bytes of it have been. */
  ghost predicate Left(all: string, n: int, rest: string) {
    0 <= n <= |all| && rest == all[n..]
  }

  lemma LeftStep(all: string, n: int, rest: string, k: nat)
    requires Left(all, n, rest) && k <= |rest|
    ensures all[..n + k] == all[..n] + rest[..k] && Left(all, n + k, rest[k..])
  {
  }

  /** Lines 277-288: the vectors written completely are skipped, the next one is shortened. */
  method Skip(vec: array<string>, i0: nat, n: nat) returns (i: nat)
    requires i0 < vec.Length && n < |Flatten(vec[i0..])|
    modifies vec
    ensures i0 <= i < vec.Length && Flatten(vec[i..]) == Flatten(old(vec[i0..]))[n..]
  {
    i := i0;
    ghost var vs, all := vec[..], Flatten(vec[i0..]);
    var cnt := |vec[i]|;
    ghost var before := 0;
    assert Left(all, 0, Flatten(vs[i..]));
    while n >= cnt && i + 1 < vec.Length
      invariant i0 <= i < vec.Length && vec[..] == vs && 0 <= before <= n
      invariant cnt == before + |vec[i]| && Left(all, before, Flatten(vs[i..]))
    {
      assert vs[i..][1..] == vs[i + 1..];
      LeftStep(all, before, Flatten(vs[i..]), |vs[i]|);
      assert Flatten(vs[i..])[|vs[i]|..] == Flatten(vs[i + 1..]);
      before := cnt;
      i := i + 1;
      cnt := cnt + |vec[i]|;
    }
    ghost var k := n - before;
    ghost var rest := Flatten(vs[i + 1..]);
    assert vs[i..][1..] == vs[i + 1..];
    if i + 1 == vec.Length {
      assert vs[i + 1..] == [];
    }
    if n < cnt {
      vec[i] := vec[i][|vec[i]| - (cnt - n)..];
      assert vec[i..][1..] == vs[i + 1..] && vec[i] == vs[i][k..];
      assert (vs[i] + rest)[k..] == vs[i][k..] + rest;
    }
    assert all[before..][k..] == all[n..];
  }

  /** writev_it_all: whatever the sizes of the writes, what is sent is a prefix of the vectors'
      bytes, and all of them on success. */
  method WritevItAll(s: Socket, vec: array<string>, len: nat) returns (ok: bool, nbytes: nat)
    requires len == |Flatten(vec[..])| && s as object != vec
    modifies s, vec
    ensures nbytes <= len && s.sent == old(s.sent) + Flatten(old(vec[..]))[..nbytes]
    ensures ok ==> nbytes == len
  {
    ghost var all, was := Flatten(vec[..]), s.sent;
    nbytes := 0;
    var bytesWritten, i := 0, 0;
    assert vec[0..] == vec[..];
    while bytesWritten != len
      invariant bytesWritten == nbytes <= len && s.sent == was + all[..nbytes]
      invariant i <= vec.Length && (nbytes < len ==> Left(all, nbytes, Flatten(vec[i..])))
      decreases len - bytesWritten
    {
      var data := Flatten(vec[i..]);
      var sentOk, n := s.Send(data);
      LeftStep(all, nbytes, data, n);
      assert s.sent == was + (all[..nbytes] + data[..n]);
      nbytes := nbytes + n;
      bytesWritten := bytesWritten + n;
      if !sentOk {
        return false, nbytes;
      }
      if bytesWritten < len {
        assert vec[i..] == [] ==> data == "";
        i := Skip(vec, i, n);
      }
    }
    ok := true;
    assert all[..len] == all;
  }

  // ----- sendfile -----

  /** Header and trailer vectors of which the first ones may be gone. */
  class HdTr {
    var headers: seq<string>
    var trailers: seq<string>

    constructor (headers: seq<string>, trailers: seq<string>)
      ensures this.headers == headers && this.trailers == trailers
    {
      this.headers, this.trailers := headers, trailers;
    }
  }

  /** Lines 335-349 and 365-379: n bytes of the vectors are gone; what they do not cover is left over. */
  method DropSent(vecs0: seq<string>, n: nat) returns (vecs: seq<string>, left: nat)
    ensures left == if n <= |Flatten(vecs0)| then 0 else n - |Flatten(vecs0)|
    ensures Flatten(vecs) == Flatten(vecs0)[n - left..]
  {
    vecs, left := vecs0, n;
    while left > 0 && vecs != []
      invariant left <= n && n - left <= |Flatten(vecs0)| && Flatten(vecs) == Flatten(vecs0)[n - left..]
      decreases |vecs|, left
    {
      var head := vecs[0];
      if left >= |head| {
        left := left - |head|;
        vecs := vecs[1..];
      } else {
        assert vecs[0 := head[left..]][1..] == vecs[1..];
        assert (head + Flatten(vecs[1..]))[left..] == head[left..] + Flatten(vecs[1..]);
        vecs := vecs[0 := head[left..]];
        left := 0;
      }
    }
  }

  /** n bytes of a then b then c are gone. */
  lemma DropThree(a: string, b: string, c: string, n: nat)
    requires n <= |a + b + c|
    ensures n <= |a| ==> (a + b + c)[n..] == a[n..] + b + c
    ensures |a| <= n <= |a| + |b| ==> (a + b + c)[n..] == b[n - |a|..] + c
    ensures |a| + |b| <= n ==> (a + b + c)[n..] == c[n - |a| - |b|..]
  {
  }

  /** Lines 335-349. */
  method SkipSent(hdtr: HdTr, tmplen0: nat) returns (tmplen: nat)
    modifies hdtr`headers
    ensures tmplen == if tmplen0 <= |Flatten(old(hdtr.headers))| then 0 else tmplen0 - |Flatten(old(hdtr.headers))|
    ensures Flatten(hdtr.headers) == Flatten(old(hdtr.headers))[tmplen0 - tmplen..]
  {
    var headers;
    headers, tmplen := DropSent(hdtr.headers, tmplen0);
    hdtr.headers := headers;
  }

  /** What is still to be sent: headers, a slice of the file, trailers. */
  function Text(headers: seq<string>, file: string, offset: nat, left: nat, trailers: seq<string>): string
    requires offset + left <= |file|
  {
    Flatten(headers) + file[offset..offset + left] + Flatten(trailers)
  }

  lemma TextLength(h: string, f: string, t: string)
    ensures |h + f + t| == |h| + |f| + |t|
  {
  }

  /** After n bytes of headers h and file slice f: what is left when the trailers are not reached. */
  lemma InSlice(h: string, f: string, t: string, n: nat, h': string, left: nat)
    requires n <= |h + f + t| && left <= |f| && left == (if n <= |h| then 0 else n - |h|) && h' == h[n - left..]
    ensures h' + f[left..] + t == (h + f + t)[n..]
  {
    DropThree(h, f, t, n);
    if n <= |h| {
      assert f[0..] == f;
    } else {
      assert h' == "" && h' + f[left..] == f[left..];
    }
  }

  /** The same when they are. */
  lemma InTrailers(h: string, f: string, t: string, n: nat, h': string, left: nat)
    requires n <= |h + f + t| && n == |h| + |f| + left && h' == h[|h|..]
    ensures left <= |t| && h' + "" + t[left..] == (h + f + t)[n..]
  {
    DropThree(h, f, t, n);
    assert h' == "" && h' + "" + t[left..] == t[left..];
  }

  /** Both as they concern the text still to be sent. */
  lemma RestInSlice(headers: seq<string>, file: string, offset: nat, left: nat, trailers: seq<string>, n: nat,
                    headers': seq<string>, k: nat)
    requires offset + left <= |file| && k <= left && n <= |Text(headers, file, offset, left, trailers)|
    requires k == if n <= |Flatten(headers)| then 0 else n - |Flatten(headers)|
    requires Flatten(headers') == Flatten(headers)[n - k..]
    ensures Text(headers', file, offset + k, left - k, trailers) == Text(headers, file, offset, left, trailers)[n..]
  {
    var f := file[offset..offset + left];
    InSlice(Flatten(headers), f, Flatten(trailers), n, Flatten(headers'), k);
    assert f[k..] == file[offset + k..offset + left];
  }

  lemma RestInTrailers(headers: seq<string>, file: string, offset: nat, left: nat, trailers: seq<string>, n: nat,
                       headers': seq<string>, trailers': seq<string>, k: nat, rest: nat)
    requires offset + left <= |file| && n <= |Text(headers, file, offset, left, trailers)|
    requires n == |Flatten(headers)| + left + k && Flatten(headers') == Flatten(headers)[|Flatten(headers)|..]
    requires rest == (if k <= |Flatten(trailers)| then 0 else k - |Flatten(trailers)|)
    requires Flatten(trailers') == Flatten(trailers)[k - rest..]
    ensures Text(headers', file, 0, 0, trailers') == Text(headers, file, offset, left, trailers)[n..]
  {
    InTrailers(Flatten(headers), file[offset..offset + left], Flatten(trailers), n, Flatten(headers'), k);
    assert file[0..0] == "";
  }

  /** Lines 332-379: tmplen bytes have gone out. */
  method Advance(hdtr: HdTr, file: string, fileOffset0: nat, fileBytesLeft0: nat, tmplen0: nat)
    returns (fileOffset: nat, fileBytesLeft: nat)
    requires fileOffset0 + fileBytesLeft0 <= |file|
    requires tmplen0 <= |Text(hdtr.headers, file, fileOffset0, fileBytesLeft0, hdtr.trailers)|
    modifies hdtr
    ensures fileOffset + fileBytesLeft <= |file|
    ensures Text(hdtr.headers, file, fileOffset, fileBytesLeft, hdtr.trailers)
         == old(Text(hdtr.headers, file, fileOffset0, fileBytesLeft0, hdtr.trailers))[tmplen0..]
  {
    fileOffset, fileBytesLeft := fileOffset0, fileBytesLeft0;
    ghost var h, t := hdtr.headers, hdtr.trailers;
    var tmplen := SkipSent(hdtr, tmplen0);
    if tmplen <= fileBytesLeft {
      RestInSlice(h, file, fileOffset, fileBytesLeft, t, tmplen0, hdtr.headers, tmplen);
      fileOffset := fileOffset + tmplen;
      fileBytesLeft := fileBytesLeft - tmplen;
      return;
    }
    tmplen := tmplen - fileBytesLeft;
    fileBytesLeft, fileOffset := 0, 0;
    var trailers, rest := DropSent(hdtr.trailers, tmplen);
    hdtr.trailers := trailers;
    RestInTrailers(h, file, fileOffset0, fileBytesLeft0, t, tmplen0, hdtr.headers, trailers, tmplen, rest);
  }

  /** One call for the text still to be sent. */
  method SendText(s: Socket, data: string, ghost all: string, ghost n: nat, ghost was: string) returns (ok: bool, tmplen: nat)
    requires Left(all, n, data) && s.sent == was + all[..n]
    modifies s
    ensures tmplen <= |data| && s.sent == was + all[..n + tmplen] && (ok && data != "" ==> tmplen > 0)
    ensures Left(all, n + tmplen, data[tmplen..]) && Between(was, s.sent, all) && (n + tmplen == |all| ==> s.sent == was + all)
  {
    ok, tmplen := s.Send(data);
    LeftStep(all, n, data, tmplen);
    Beginning(was, all, n + tmplen);
    assert s.sent == was + (all[..n] + data[..tmplen]);
  }

  /** sendfile_it_all: whatever each call manages to send, what has been sent is a prefix of the
      headers, the slice and the trailers; success means all of it, once. */
  method SendfileItAll(s: Socket, file: string, hdtr: HdTr, fileOffset0: nat, fileBytesLeft0: nat, totalBytesLeft0: nat)
    returns (ok: bool)
    requires fileOffset0 + fileBytesLeft0 <= |file| && hdtr as object != s
    requires totalBytesLeft0 == |Flatten(hdtr.headers)| + fileBytesLeft0 + |Flatten(hdtr.trailers)|
    modifies s, hdtr
    ensures var all := Flatten(old(hdtr.headers)) + file[fileOffset0..fileOffset0 + fileBytesLeft0] + Flatten(old(hdtr.trailers));
      Between(old(s.sent), s.sent, all) && (ok ==> s.sent == old(s.sent) + all)
  {
    var fileOffset: nat, fileBytesLeft: nat, totalBytesLeft := fileOffset0, fileBytesLeft0, totalBytesLeft0;
    ghost var all := Text(hdtr.headers, file, fileOffset, fileBytesLeft, hdtr.trailers);
    TextLength(Flatten(hdtr.headers), file[fileOffset..fileOffset + fileBytesLeft], Flatten(hdtr.trailers));
    ghost var was, n := s.sent, 0;
    var data := Text(hdtr.headers, file, fileOffset, fileBytesLeft, hdtr.trailers);
    NothingGone(was, all);
    while true
      invariant fileOffset + fileBytesLeft <= |file| && Left(all, n, data)
      invariant data == Text(hdtr.headers, file, fileOffset, fileBytesLeft, hdtr.trailers)
      invariant totalBytesLeft == |all| - n && s.sent == was + all[..n]
      invariant totalBytesLeft0 > 0 ==> totalBytesLeft > 0
      decreases totalBytesLeft
    {
      var sentOk, tmplen := SendText(s, data, all, n, was);
      n := n + tmplen;
      totalBytesLeft := totalBytesLeft - tmplen;
      if totalBytesLeft == 0 || !sentOk {
        return sentOk;
      }
      fileOffset, fileBytesLeft := Advance(hdtr, file, fileOffset, fileBytesLeft, tmplen);
      data := Text(hdtr.headers, file, fileOffset, fileBytesLeft, hdtr.trailers);
    }
  }

  lemma NothingGone(was: string, all: string)
    ensures was + all[..0] == was && Left(all, 0, all)
  {
  }

  // ----- without sendfile -----

  /** An open file: reads go on from where the last one stopped, and may be short. */
  class File {
    const content: string
    var pos: nat

    method Read(n: nat) returns (ok: bool, data: string)
      requires n > 0
      modifies this
      ensures ok ==> old(pos) < pos <= |content| && pos <= old(pos) + n && data == content[old(pos)..pos]
      ensures !ok ==> data == "" && pos == old(pos)
    {
      ok := *;
      data := "";
      if ok && pos < |content| {
        var most := if n < |content| - pos then n else |content| - pos;
        var k :| 0 < k <= most;
        data := content[pos..pos + k];
        pos := pos + k;
      } else {
        ok := false;
      }
    }
  }

  /** Lines 431-440: one buffer of file data. */
  method SendBuffer(s: Socket, buffer: string) returns (ok: bool, sent: nat)
    modifies s
    ensures sent <= |buffer| && (ok ==> sent == |buffer| && s.sent == old(s.sent) + buffer)
    ensures old(s.sent) <= s.sent <= old(s.sent) + buffer
  {
    ok, sent := true, 0;
    var sendlen, o := |buffer|, 0;
    ghost var was := s.sent;
    while ok && sendlen > 0
      invariant 0 <= o && 0 <= sendlen && o + sendlen == |buffer| && sent == o
      invariant was <= s.sent <= was + buffer && (ok ==> s.sent == was + buffer[..o])
      decreases ok, sendlen
    {
      var n;
      ok, n := s.Send(buffer[o..]);
      assert buffer[..o] + buffer[o..][..n] == buffer[..o + n];
      assert s.sent == was + buffer[..o + n];
      if ok {
        sendlen := sendlen - n;
        o := o + n;
        sent := sent + n;
      }
    }
    assert buffer[..|buffer|] == buffer;
  }

  /** What was sent since `was` is a beginning of `all`. */
  ghost predicate Between(was: string, now: string, all: string) {
    was <= now <= was + all
  }

  lemma PartOf(was: string, now: string, before: string, part: string, after: string)
    requires Between(was + before, now, part)
    ensures Between(was, now, before + part + after)
  {
    assert was + before + part <= was + (before + part + after);
    assert now <= was + (before + part + after);
    assert was <= was + before <= now;
  }

  lemma Beginning(was: string, all: string, n: nat)
    requires n <= |all|
    ensures Between(was, was + all[..n], all) && (n == |all| ==> all[..n] == all)
  {
    assert was + all == was + all[..n] + all[n..];
  }

  /** A count as a signed variable of 32 bits holds it. */
  function Int32(n: int): (r: int)
    ensures -TWO31 <= r < TWO31
  {
    var m := n % TWO32;
    if m < TWO31 then m else m - TWO32
  }

  lemma Int32Less(n: int, k: int)
    ensures Int32(Int32(n) - k) == Int32(n - k)
  {
    Modulo(n, k, if n % TWO32 < TWO31 then 0 else 1);
  }

  lemma Modulo(n: int, k: int, c: int)
    ensures (n % TWO32 - c * TWO32 - k) % TWO32 == (n - k) % TWO32
  {
    var q := n / TWO32;
    assert n % TWO32 - c * TWO32 - k == (n - k) + TWO32 * (0 - q - c);
    AddMultiple(n - k, 0 - q - c);
  }

  lemma AddMultiple(n: int, q: int)
    ensures (n + TWO32 * q) % TWO32 == n % TWO32
  {
  }

  /** The n bytes of a file from a place on, or as many of them as there are. */
  function Stretch(file: string, start: nat, n: nat): (r: string)
    ensures |r| <= n && (start + n <= |file| ==> r == file[start..start + n])
  {
    if start >= |file| then "" else if start + n > |file| then file[start..] else file[start..start + n]
  }

  /** What of a length is left when it is kept in 32 bits is sent: all of it exactly if it fits. */
  lemma SliceIff(file: string, start: nat, length: nat)
    requires start + length <= |file|
    ensures Stretch(file, start, length % TWO32) == file[start..start + length] <==> length < TWO32
  {
    assert length % TWO32 == length <==> length < TWO32;
    assert |file[start..start + length % TWO32]| == length % TWO32 && |file[start..start + length]| == length;
  }

  /** Of 2^32 bytes nothing is sent, and that counts as a success. */
  lemma NothingOfFourGigabytes(file: string, start: nat)
    requires start + TWO32 <= |file|
    ensures Int32(TWO32) == 0 && Stretch(file, start, TWO32 % TWO32) == "" != file[start..start + TWO32]
  {
    assert |file[start..start + TWO32]| == TWO32;
  }

  /** The size of the next buffer; a negative count is compared as a large unsigned number. */
  function NextBuffer(togo: int): (sendlen: nat)
  {
    if togo < 0 || togo > 8192 then 8192 else togo
  }

  lemma NextFits(rest: nat)
    requires rest < TWO32
    ensures Int32(rest) == 0 <==> rest == 0
    ensures rest > 0 ==> 0 < NextBuffer(Int32(rest)) <= rest
  {
  }

  /** Lines 426-441: length bytes of the file from where it stands, counted down in 32 bits; a file
      that ends before is an error. */
  method SendSlice(s: Socket, fd: File, length: nat, nbytes0: nat) returns (ok: bool, nbytes: nat)
    requires s as object != fd
    modifies s, fd
    ensures Between(old(s.sent), s.sent, Stretch(fd.content, old(fd.pos), length % TWO32))
    ensures ok ==> s.sent == old(s.sent) + Stretch(fd.content, old(fd.pos), length % TWO32)
    ensures ok ==> |Stretch(fd.content, old(fd.pos), length % TWO32)| == length % TWO32 && nbytes == nbytes0 + length % TWO32
  {
    ghost var was, total, start := s.sent, length % TWO32, fd.pos;
    ghost var slice := Stretch(fd.content, start, total);
    ok, nbytes := true, nbytes0;
    var togo := Int32(length);
    ghost var rest := total;
    NothingAround(was);
    while ok && togo != 0
      invariant 0 <= rest <= total < TWO32 && togo == Int32(rest) && Between(was, s.sent, slice)
      invariant ok ==> total - rest <= |slice| && fd.pos == start + (total - rest)
      invariant ok ==> s.sent == was + slice[..total - rest] && nbytes == nbytes0 + (total - rest)
      decreases ok, rest
    {
      var n;
      ok, n := SendPart(s, fd, togo, start, total, rest, was);
      if ok {
        nbytes := nbytes + n;
        togo := Int32(togo - n);
        rest := rest - n;
      }
    }
    NextFits(rest);
    assert slice[..|slice|] == slice;
  }

  /** Once round its loop, `rest` bytes being left. */
  method SendPart(s: Socket, fd: File, togo: int, ghost start: nat, ghost total: nat, ghost rest: nat, ghost was: string)
    returns (ok: bool, n: nat)
    requires s as object != fd && rest <= total < TWO32 && togo == Int32(rest) != 0
    requires total - rest <= |Stretch(fd.content, start, total)| && fd.pos == start + (total - rest)
    requires s.sent == was + Stretch(fd.content, start, total)[..total - rest]
    modifies s, fd
    ensures n <= rest && Between(was, s.sent, Stretch(fd.content, start, total)) && Int32(togo - n) == Int32(rest - n)
    ensures ok ==> n > 0 && total - rest + n <= |Stretch(fd.content, start, total)| && fd.pos == start + (total - rest + n)
    ensures ok ==> s.sent == was + Stretch(fd.content, start, total)[..total - rest + n]
  {
    NextFits(rest);
    ghost var mid := s.sent;
    ok, n := SendNext(s, fd, NextBuffer(togo));
    SlicePiece(fd.content, start, total, total - rest, was, mid, s.sent, n, NextBuffer(togo));
    Int32Less(rest, n);
  }

  /** One buffer is read from the file and sent. */
  method SendNext(s: Socket, fd: File, sendlen: nat) returns (ok: bool, n: nat)
    requires s as object != fd && 0 < sendlen
    modifies s, fd
    ensures n <= sendlen && Between(old(s.sent), s.sent, Stretch(fd.content, old(fd.pos), sendlen))
    ensures ok ==> n > 0 && fd.pos == old(fd.pos) + n <= |fd.content|
    ensures ok ==> s.sent == old(s.sent) + fd.content[old(fd.pos)..old(fd.pos) + n]
  {
    ghost var pos, was := fd.pos, s.sent;
    var data;
    ok, data := fd.Read(sendlen);
    n := 0;
    if ok {
      ghost var all := Stretch(fd.content, pos, sendlen);
      ok, n := SendBuffer(s, data);
      assert all == data + all[|data|..];
      assert was + data <= was + (data + all[|data|..]);
    }
  }

  /** What a further buffer adds to the part of the slice that was sent. */
  lemma SlicePiece(file: string, start: nat, total: nat, done: nat, was: string, mid: string, now: string, n: nat, sendlen: nat)
    requires done <= |Stretch(file, start, total)| && done + sendlen <= total && n <= sendlen
    requires mid == was + Stretch(file, start, total)[..done] && Between(mid, now, Stretch(file, start + done, sendlen))
    ensures Between(was, now, Stretch(file, start, total))
    ensures start + done + n <= |file| && n > 0 && now == mid + file[start + done..start + done + n] ==>
      done + n <= |Stretch(file, start, total)| && now == was + Stretch(file, start, total)[..done + n]
  {
    var slice, next := Stretch(file, start, total), Stretch(file, start + done, sendlen);
    NextStretch(file, start, total, done, sendlen);
    var end := done + |next|;
    assert slice == slice[..done] + slice[done..end] + slice[end..];
    PartOf(was, now, slice[..done], slice[done..end], slice[end..]);
    if start + done + n <= |file| && n > 0 {
      OnePieceMore(file, start, total, done, n);
      Regroup(was, slice[..done], file[start + done..start + done + n]);
    }
  }

  lemma OnePieceMore(file: string, start: nat, total: nat, done: nat, n: nat)
    requires done <= |Stretch(file, start, total)| && done + n <= total && start + done + n <= |file|
    ensures var slice := Stretch(file, start, total);
      done + n <= |slice| && slice[..done + n] == slice[..done] + file[start + done..start + done + n]
  {
  }

  lemma NextStretch(file: string, start: nat, total: nat, done: nat, n: nat)
    requires done <= |Stretch(file, start, total)| && done + n <= total
    ensures var slice, next := Stretch(file, start, total), Stretch(file, start + done, n);
      done + |next| <= |slice| && next == slice[done..done + |next|]
  {
    if start + done < |file| {
      var end := if start + total > |file| then |file| else start + total;
      var end' := if start + done + n > |file| then |file| else start + done + n;
      assert Stretch(file, start, total) == file[start..end] && Stretch(file, start + done, n) == file[start + done..end'];
      SliceOfSlice(file, start, end, done, end' - start);
    }
  }

  /** emulate_sendfile: the same by reading and writing. The file is read from `offset`, or from
      where it stands when that is 0; a file that ends too early is an error. On success the slice
      has been sent in full exactly if its length is below 2^32; of a longer one, its first
      length % 2^32 bytes. */
  method EmulateSendfile(s: Socket, fd: File, headers: array<string>, trailers: array<string>, offset: nat, length: nat)
    returns (ok: bool, nbytes: nat)
    requires s as object !in {fd, headers, trailers} && fd as object !in {headers, trailers} && headers != trailers
    modifies s, fd, headers, trailers
    ensures var start := if offset != 0 then offset else old(fd.pos);
      var f := Stretch(fd.content, start, length % TWO32);
      var all := Flatten(old(headers[..])) + f + Flatten(old(trailers[..]));
      && Between(old(s.sent), s.sent, all)
      && (ok ==> s.sent == old(s.sent) + all && nbytes == |all| && |f| == length % TWO32)
    ensures var start := if offset != 0 then offset else old(fd.pos);
      ok && start + length <= |fd.content| ==>
        var whole := Flatten(old(headers[..])) + fd.content[start..start + length] + Flatten(old(trailers[..]));
        s.sent == old(s.sent) + whole <==> length < TWO32
  {
    ghost var start := if offset != 0 then offset else fd.pos;
    ghost var was, h, t := s.sent, Flatten(headers[..]), Flatten(trailers[..]);
    ghost var f := Stretch(fd.content, start, length % TWO32);
    if start + length <= |fd.content| {
      SliceIff(fd.content, start, length);
      WholeIff(was, h, f, fd.content[start..start + length], t);
    }
    ok, nbytes := SendFront(s, fd, headers, offset, length);
    HeadPart(was, h + f, t, s.sent);
    if !ok {
      return;
    }
    assert trailers[..] == old(trailers[..]);
    ok, nbytes := SendVectors(s, trailers, nbytes);
    TailPart(was, h + f, t, s.sent);
  }

  /** Lines 409-445: the headers and the file. */
  method SendFront(s: Socket, fd: File, headers: array<string>, offset: nat, length: nat) returns (ok: bool, nbytes: nat)
    requires s as object !in {fd, headers} && fd as object != headers
    modifies s, fd, headers
    ensures var f := Stretch(fd.content, if offset != 0 then offset else old(fd.pos), length % TWO32);
      var front := Flatten(old(headers[..])) + f;
      && Between(old(s.sent), s.sent, front)
      && (ok ==> s.sent == old(s.sent) + front && nbytes == |front| && |f| == length % TWO32)
  {
    ghost var start := if offset != 0 then offset else fd.pos;
    ghost var was, h, f := s.sent, Flatten(headers[..]), Stretch(fd.content, start, length % TWO32);
    ok, nbytes := SendVectors(s, headers, 0);
    HeadPart(was, h, f, s.sent);
    if !ok {
      return;
    }
    if offset != 0 {
      fd.pos := offset;
    }
    ok, nbytes := SendSlice(s, fd, length, nbytes);
    TailPart(was, h, f, s.sent);
  }

  lemma HeadPart(was: string, before: string, t: string, now: string)
    requires Between(was, now, before)
    ensures Between(was, now, before + t)
  {
    NothingAround(was);
    NothingAround(before);
    PartOf(was, now, "", before, t);
  }

  lemma TailPart(was: string, before: string, t: string, now: string)
    requires Between(was + before, now, t)
    ensures Between(was, now, before + t) && (now == was + before + t ==> now == was + (before + t))
  {
    PartOf(was, now, before, t, "");
    NothingAround(before + t);
  }

  /** Equal texts between equal ends. */
  lemma WholeIff(was: string, h: string, a: string, b: string, t: string)
    ensures was + (h + a + t) == was + (h + b + t) <==> a == b
  {
    if was + (h + a + t) == was + (h + b + t) {
      assert |a| == |b|;
      var k := |was| + |h|;
      forall i | 0 <= i < |a| ensures a[i] == b[i] {
        assert (was + (h + a + t))[k + i] == a[i] && (was + (h + b + t))[k + i] == b[i];
      }
    }
  }

  /** Lines 409-418 and 447-456. */
  method SendVectors(s: Socket, vec: array<string>, nbytes0: nat) returns (ok: bool, nbytes: nat)
    requires s as object != vec
    modifies s, vec
    ensures Between(old(s.sent), s.sent, Flatten(old(vec[..])))
    ensures ok ==> s.sent == old(s.sent) + Flatten(old(vec[..])) && nbytes == nbytes0 + |Flatten(old(vec[..]))|
  {
    ok, nbytes := true, nbytes0;
    ghost var was, all := s.sent, Flatten(vec[..]);
    if vec.Length > 0 {
      var sendlen := |Flatten(vec[..])|;
      var n;
      ok, n := WritevItAll(s, vec, sendlen);
      Beginning(was, all, n);
      if ok {
        nbytes := nbytes + n;
      }
    } else {
      assert vec[..] == [];
    }
  }
}
