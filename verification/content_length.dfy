/** The content length filter of modules/mod_httpd/http_filter.c, for buckets of known length. */
module ContentLength {
  import opened Strings
  import opened Wrappers

  datatype Bucket = Data(data: string) | Flush | EOS

  type Brigade = seq<Bucket>

  const AP_MIN_BYTES_TO_WRITE: nat := 8000

  function Length(b: Bucket): nat {
    if b.Data? then |b.data| else 0
  }

  function Total(bb: Brigade): nat {
    if bb == [] then 0 else Total(bb[..|bb| - 1]) + Length(bb[|bb| - 1])
  }

  /** The bytes the buckets hold. */
  function Text(bb: Brigade): string {
    if bb == [] then "" else (match bb[0] case Data(d) => d case _ => "") + Text(bb[1..])
  }

  lemma {:induction false} TextLength(bb: Brigade)
    ensures |Text(bb)| == Total(bb)
  {
    if bb != [] {
      TextLength(bb[1..]);
      TotalConcat([bb[0]], bb[1..]);
      assert [bb[0]][..0] == [] && bb == [bb[0]] + bb[1..];
    }
  }

  lemma {:induction false} TotalConcat(a: Brigade, b: Brigade)
    ensures Total(a + b) == Total(a) + Total(b)
  {
    if b == [] {
      assert a + b == a;
    } else {
      assert (a + b)[..|a + b| - 1] == a + b[..|b| - 1];
      TotalConcat(a, b[..|b| - 1]);
    }
  }

  lemma NotMore(saved: Brigade, bb: Brigade, k: nat)
    requires k <= |bb|
    ensures Total(saved + bb[..k]) <= Total(saved) + Total(bb)
  {
    TotalConcat(saved, bb[..k]);
    TotalConcat(bb[..k], bb[k..]);
    assert bb == bb[..k] + bb[k..];
  }

  lemma TotalMore(saved: Brigade, tail: Brigade, e: Bucket)
    ensures Total(saved + (tail + [e])) == Total(saved + tail) + Length(e)
    ensures saved == [] ==> Total(tail + [e]) == Total(tail) + Length(e)
    ensures Flush in saved + (tail + [e]) <==> Flush in saved + tail || e == Flush
  {
    assert saved + (tail + [e]) == saved + tail + [e];
    assert (saved + tail + [e])[..|saved + tail|] == saved + tail;
    assert (tail + [e])[..|tail|] == tail;
  }

  lemma OneMore(passed: Brigade, saved: Brigade, tail: Brigade, e: Bucket)
    ensures passed + saved + (tail + [e]) == passed + saved + tail + [e]
  {
  }

  /** Bucket i of a stream sent in full from its beginning is no occasion to send what has
      come before it. */
  ghost predicate Quiet(bb: Brigade, i: nat)
    requires i < |bb|
  {
    bb[i].EOS? || (!bb[i].Flush? && Total(bb[..i]) <= 32000)
  }

  /** The buckets can all be held back. */
  ghost predicate Bufferable(bb: Brigade) {
    forall i :: 0 <= i < |bb| ==> Quiet(bb, i)
  }

  lemma QuietMore(a: Brigade, b: Brigade, i: nat)
    requires i < |a|
    ensures Quiet(a + b, i) <==> Quiet(a, i)
  {
    assert (a + b)[..i] == a[..i];
  }

  lemma BufferableMore(a: Brigade, x: Bucket)
    ensures Bufferable(a + [x]) <==> Bufferable(a) && (x.EOS? || (!x.Flush? && Total(a) <= 32000))
  {
    var ax := a + [x];
    assert ax[..|a|] == a;
    if Bufferable(a) {
      forall i | 0 <= i < |a| ensures Quiet(ax, i) { QuietMore(a, [x], i); }
      assert Bufferable(ax) <==> Quiet(ax, |a|);
    } else {
      var i :| 0 <= i < |a| && !Quiet(a, i);
      QuietMore(a, [x], i);
    }
  }

  lemma Unbufferable(a: Brigade, b: Brigade)
    requires !Bufferable(a)
    ensures !Bufferable(a + b)
  {
    var i :| 0 <= i < |a| && !Quiet(a, i);
    QuietMore(a, b, i);
  }

  lemma BufferablePrefix(a: Brigade, b: Brigade)
    requires Bufferable(a + b)
    ensures Bufferable(a)
  {
    if !Bufferable(a) { Unbufferable(a, b); }
  }

  class Filter {
    const partialSendOkay: bool
    var saved: Brigade
    var computeLen: bool
    var currLen: nat
    var bytesSent: nat
    var contentLength: Option<nat>
    /** What the filter below has been given. */
    var passed: Brigade
    /** All that has come in. */
    ghost var seen: Brigade

    /** Between two calls: nothing is lost or out of order; as long as the length can still be
        told nothing has been passed down, and it can be told exactly if all can be held back;
        at the end it has been announced in that case, and it is right. Once the length has been
        given up less than 8000 bytes are held back, and no FLUSH is ever held back from a client
        that parts may be sent to. */
    ghost predicate Valid()
      reads this
    {
      && passed + saved == seen && bytesSent == Total(seen)
      && (computeLen <==> !partialSendOkay || Bufferable(seen))
      && (computeLen && EOS !in seen ==> passed == [] && currLen == bytesSent)
      && contentLength == (if computeLen && EOS in seen then Some(Total(seen)) else None)
      && (EOS in seen ==> saved == [])
      && (EOS !in seen ==> currLen == Total(saved) && (!computeLen ==> currLen < 8000))
      && (partialSendOkay ==> Flush !in saved)
    }

    constructor (partialSendOkay: bool)
      ensures Valid() && seen == [] && this.partialSendOkay == partialSendOkay
    {
      this.partialSendOkay := partialSendOkay;
      saved, computeLen, currLen, bytesSent, contentLength, seen, passed := [], true, 0, 0, None, [], [];
    }

    /** `front` has been gone through; the end of it, `tail`, is still in hand. */
    ghost predicate Counted(front: Brigade, tail: Brigade)
      reads this
    {
      passed + saved + tail == front && bytesSent == Total(front) && contentLength == None
    }

    /** In the middle of a call that brings the input to `whole`. */
    ghost predicate Going(whole: Brigade, front: Brigade, tail: Brigade)
      reads this
    {
      && Counted(front, tail)
      && (if computeLen then (!partialSendOkay || Bufferable(front)) && passed == [] && currLen == bytesSent
          else partialSendOkay && !Bufferable(whole))
      && currLen == Total(saved + tail) && (partialSendOkay ==> Flush !in saved + tail)
    }

    /** The bucket does not lead to a split. */
    ghost predicate NoSplit(e: Bucket)
      reads this
    {
      partialSendOkay && !e.EOS? ==> !e.Flush? && currLen <= 4 * AP_MIN_BYTES_TO_WRITE
    }

    /** One bucket is counted. */
    method Count(e: Bucket, ghost whole: Brigade, ghost front: Brigade, ghost tail: Brigade)
      requires Going(whole, front, tail) && NoSplit(e)
      modifies this`currLen, this`bytesSent
      ensures Going(whole, front + [e], tail + [e])
    {
      BufferableMore(front, e);
      TotalMore([], front, e);
      TotalMore(saved, tail, e);
      OneMore(passed, saved, tail, e);
      currLen := currLen + Length(e);
      bytesSent := bytesSent + Length(e);
    }

    /** Where there is a split, not all can be held back. */
    lemma SplitTells(whole: Brigade, front: Brigade, tail: Brigade, e: Bucket, rest: Brigade)
      requires Going(whole, front, tail) && !NoSplit(e) && whole == front + [e] + rest
      ensures !Bufferable(whole)
    {
      if computeLen {
        BufferableMore(front, e);
        Unbufferable(front + [e], rest);
      }
    }

    lemma CountFlush(whole: Brigade, front: Brigade, tail: Brigade)
      requires Going(whole, front, tail)
      ensures Counted(front + [Flush], tail + [Flush])
    {
      assert (front + [Flush])[..|front|] == front;
      assert passed + saved + (tail + [Flush]) == passed + saved + tail + [Flush];
    }

    /** Lines 1247-1269: whether to split at bucket k, which goes down with those before it if it is a FLUSH. */
    method SplitAt(bb: Brigade, k: nat, ghost whole: Brigade, ghost gone: Brigade) returns (split: bool, n: nat)
      requires k < |bb| && Going(whole, gone, bb[..k]) && whole == gone + [bb[k]] + bb[k + 1..]
      ensures (split <==> !NoSplit(bb[k])) && n == if split && bb[k].Flush? then k + 1 else k
      ensures split ==> partialSendOkay && !Bufferable(whole) && Counted(gone + bb[k..n], bb[..n])
      ensures split ==> (n == 0 ==> currLen > 0) && (Flush in bb || Total(saved) + Total(bb) > 32000)
    {
      var e := bb[k];
      split, n := false, k;
      if e.EOS? || !partialSendOkay {
        return;
      }
      if e.Flush? {
        CountFlush(whole, gone, bb[..k]);
        assert bb[..k + 1] == bb[..k] + [e] && bb[k..k + 1] == [e];
        split, n := true, k + 1;
      } else if currLen > 4 * AP_MIN_BYTES_TO_WRITE {
        NotMore(saved, bb, k);
        assert gone + bb[k..k] == gone;
        split := true;
      }
      if split { SplitTells(whole, gone, bb[..k], e, bb[k + 1..]); }
    }

    /** Lines 1247-1296: the bucket at k is counted unless there is a split at it. */
    method Step(bb: Brigade, k: nat, ghost whole: Brigade, ghost front: Brigade) returns (split: bool, n: nat)
      requires k < |bb| && Going(whole, front + bb[..k], bb[..k]) && whole == front + bb
      modifies this`currLen, this`bytesSent
      ensures !split ==> Going(whole, front + bb[..k + 1], bb[..k + 1])
      ensures EOS in bb[..k + 1] <==> EOS in bb[..k] || bb[k].EOS?
      ensures split ==> k <= n <= k + 1 && Counted(front + bb[..n], bb[..n]) && (EOS in bb[..n] <==> EOS in bb[..k])
      ensures split ==> partialSendOkay && !Bufferable(whole) && currLen == old(currLen) && (n == 0 ==> currLen > 0)
      ensures split ==> Flush in bb || Total(saved) + Total(bb) > 32000
    {
      Onward(front, bb, k);
      split, n := SplitAt(bb, k, whole, front + bb[..k]);
      if split {
        Onwards(front, bb, k, n);
      } else {
        Count(bb[k], whole, front + bb[..k], bb[..k]);
      }
    }

    /** Lines 1244-1297: goes through the buckets up to a place where to split, if there is one. */
    method Scan(bb: Brigade, ghost whole: Brigade, ghost front: Brigade) returns (k: nat, split: bool, eos: bool)
      requires Going(whole, front, []) && whole == front + bb
      modifies this`currLen, this`bytesSent
      ensures k <= |bb| && (eos <==> EOS in bb[..k]) && (!split ==> k == |bb|)
      ensures Counted(front + bb[..k], bb[..k]) && (!split ==> Going(whole, whole, bb))
      ensures split ==> partialSendOkay && !Bufferable(whole) && (k == 0 ==> currLen == old(currLen) > 0)
      ensures split ==> Flush in bb || Total(saved) + Total(bb) > 32000
    {
      k, split, eos := 0, false, false;
      assert front + bb[..0] == front && bb[..0] == [];
      while k < |bb|
        invariant k <= |bb| && Going(whole, front + bb[..k], bb[..k]) && !split
        invariant (eos <==> EOS in bb[..k]) && (k == 0 ==> currLen == old(currLen))
      {
        var n;
        split, n := Step(bb, k, whole, front);
        if split {
          k := n;
          return;
        }
        eos := eos || bb[k].EOS?;
        k := k + 1;
      }
      assert bb[..k] == bb;
    }

    /** Lines 1299-1316: what has been gone through so far is passed down. */
    method PassPart(part: Brigade, ghost whole: Brigade, ghost front: Brigade)
      requires Counted(front, part) && partialSendOkay && !Bufferable(whole)
      modifies this
      ensures Going(whole, front, []) && currLen == 0 && !computeLen && seen == old(seen) && saved == []
    {
      computeLen, currLen := false, 0;
      passed, saved := passed + (saved + part), [];
      assert passed + saved + [] == front;
    }

    /** Lines 1320-1339: the rest is kept, or it is passed down, at the end with the length announced. */
    method Finish(bb: Brigade, eos: bool)
      requires Going(seen, seen, bb) && (eos <==> EOS in seen)
      modifies this
      ensures Valid() && seen == old(seen)
      ensures passed + saved == old(passed + saved) + bb
      ensures saved == [] || passed == old(passed)
      ensures passed == old(passed + saved) + bb <== eos || (old(currLen) >= AP_MIN_BYTES_TO_WRITE && !old(computeLen))
      ensures !eos && (old(currLen) < AP_MIN_BYTES_TO_WRITE || old(computeLen)) ==> passed == old(passed)
    {
      if currLen < AP_MIN_BYTES_TO_WRITE && !eos {
        saved := saved + bb;
        return;
      }
      if computeLen {
        if !eos {
          saved := saved + bb;
          return;
        }
        contentLength := Some(bytesSent);
      }
      passed, saved := passed + (saved + bb), [];
      currLen := 0;
    }

    /** One call. What little comes without a FLUSH is kept. */
    method Call(bb0: Brigade)
      requires Valid() && EOS !in seen
      modifies this
      ensures Valid() && seen == old(seen) + bb0
      ensures EOS !in bb0 && Flush !in bb0 && Total(old(saved)) + Total(bb0) < 8000 ==> passed == old(passed)
    {
      ghost var whole, front := seen + bb0, seen;
      var bb, eos := bb0, false;
      ghost var little := EOS !in bb0 && Flush !in bb0 && Total(saved) + Total(bb0) < 8000;
      assert saved + [] == saved;
      if Bufferable(whole) { BufferablePrefix(seen, bb0); }
      seen := whole;
      while true
        invariant Going(whole, front, []) && whole == front + bb && seen == whole
        invariant eos <==> EOS in front
        invariant little ==> bb == bb0 && front == old(seen) && saved == old(saved) && passed == old(passed)
        decreases |bb|, currLen
      {
        var k, split, found := Scan(bb, whole, front);
        eos := eos || found;
        if !split {
          break;
        }
        PassPart(bb[..k], whole, front + bb[..k]);
        assert whole == front + bb[..k] + bb[k..];
        front, bb := front + bb[..k], bb[k..];
      }
      assert bb[..|bb|] == bb;
      if little { NotMore(saved, bb, |bb|); }
      Finish(bb, eos);
    }
  }

  lemma Onwards(front: Brigade, bb: Brigade, k: nat, n: nat)
    requires k <= n <= |bb|
    ensures front + bb[..k] + bb[k..n] == front + bb[..n]
    ensures n <= k + 1 && n > k && bb[k] != EOS ==> (EOS in bb[..n] <==> EOS in bb[..k])
  {
    assert bb[..n] == bb[..k] + bb[k..n];
  }

  lemma Onward(front: Brigade, bb: Brigade, k: nat)
    requires k < |bb|
    ensures bb[..k + 1] == bb[..k] + [bb[k]] && front + bb[..k + 1] == front + bb[..k] + [bb[k]]
    ensures front + bb == front + bb[..k] + [bb[k]] + bb[k + 1..]
  {
  }

  /** A whole response, in whatever brigades it comes: it goes out as it is, and its length is
      announced exactly when it can be held back to the end, or has to be. */
  method Respond(partialSendOkay: bool, bs: seq<Brigade>) returns (sent: Brigade, length: Option<nat>)
    requires bs != [] && forall i :: 0 <= i < |bs| ==> (EOS in bs[i] <==> i == |bs| - 1)
    ensures sent == Flatten(bs)
    ensures length == if !partialSendOkay || Bufferable(Flatten(bs)) then Some(|Text(Flatten(bs))|) else None
  {
    var f := new Filter(partialSendOkay);
    var i := 0;
    while i < |bs|
      invariant 0 <= i <= |bs| && f.Valid() && fresh(f) && f.partialSendOkay == partialSendOkay
      invariant f.seen == Flatten(bs[..i]) && (EOS in f.seen <==> i == |bs|)
    {
      assert bs[..i + 1] == bs[..i] + [bs[i]];
      FlattenMore(bs[..i], bs[i]);
      f.Call(bs[i]);
      i := i + 1;
    }
    assert bs[..i] == bs;
    assert f.passed + [] == f.passed;
    TextLength(Flatten(bs));
    return f.passed, f.contentLength;
  }
}
