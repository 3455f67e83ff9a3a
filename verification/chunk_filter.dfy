/** The chunked transfer encoder of modules/mod_httpd/http_core.c over bucket brigades. */
module ChunkFilter {
  import opened ChunkSize
  import opened Strings
  import opened Wrappers

  /** A pipe bucket holds an unknown amount of data; `pending` is what successive reads will bring. */
  datatype Bucket = Data(data: string) | Pipe(pending: seq<string>) | Flush | EOS

  type Brigade = seq<Bucket>

  const CRLF := "\r\n"
  const LAST_CHUNK := "0\r\n\r\n"

  /** The bytes a brigade carries up to its end of stream. */
  function Body(b: Brigade): string {
    if b == [] || b[0].EOS? then ""
    else (match b[0] case Data(d) => d case Pipe(rs) => Flatten(rs) case _ => "") + Body(b[1..])
  }

  predicate HasEOS(b: Brigade) {
    EOS in b
  }

  /** The number of reads still to be made, for termination. */
  ghost function PipeReads(b: Brigade): nat {
    if b == [] then 0 else (if b[0].Pipe? then |b[0].pending| + 1 else 0) + PipeReads(b[1..])
  }

  /** One chunk as section 3.6.1 of RFC 2616 lays it out; nothing at all for no data. */
  function Chunk(d: string): string {
    if d == "" then "" else Hex(|d|) + CRLF + d + CRLF
  }

  function Encode(chunks: seq<string>): string {
    if chunks == [] then "" else Chunk(chunks[0]) + Encode(chunks[1..])
  }

  /** w is CRLF over and over, possibly not at all. */
  predicate Crlfs(w: string)
    decreases |w|
  {
    w == "" || (|w| >= 2 && w[..2] == CRLF && Crlfs(w[2..]))
  }

  /** Every pass of the filter over the brigade ends the stream, or holds no FLUSH, or has nothing
      but CRLFs behind its last FLUSH. `flushed` says whether the present pass has seen a FLUSH,
      `tail` is its data since the last one. */
  predicate WellFramedFrom(b: Brigade, flushed: bool, tail: string)
    decreases PipeReads(b), |b|
  {
    if b == [] then !flushed || Crlfs(tail)
    else match b[0]
      case EOS => true
      case Flush => WellFramedFrom(b[1..], true, "")
      case Data(d) => WellFramedFrom(b[1..], flushed, Tail(flushed, tail, d))
      case Pipe(rs) =>
        if rs == [] then WellFramedFrom(b[1..], flushed, tail)
        else
          var rest := [Pipe(rs[1..])] + b[1..];
          if rs[0] == "" then WellFramedFrom(rest, flushed, tail)
          else (!flushed || Crlfs(tail + rs[0])) && WellFramedFrom(rest, false, "")
  }

  function Tail(flushed: bool, tail: string, d: string): string {
    if flushed then tail + d else ""
  }

  /** What a caller must see to. */
  predicate WellFramed(b: Brigade) {
    WellFramedFrom(b, false, "")
  }

  lemma {:induction false} BodyConcat(a: Brigade, b: Brigade)
    requires !HasEOS(a)
    ensures Body(a + b) == Body(a) + Body(b)
  {
    if a == [] {
      assert a + b == b;
    } else {
      assert (a + b)[1..] == a[1..] + b;
      BodyConcat(a[1..], b);
    }
  }

  lemma {:induction false} PipeReadsConcat(a: Brigade, b: Brigade)
    ensures PipeReads(a + b) == PipeReads(a) + PipeReads(b)
  {
    if a == [] {
      assert a + b == b;
    } else {
      assert (a + b)[1..] == a[1..] + b;
      PipeReadsConcat(a[1..], b);
    }
  }

  lemma {:induction false} EncodeConcat(a: seq<string>, b: seq<string>)
    ensures Encode(a + b) == Encode(a) + Encode(b)
  {
    if a == [] {
      assert a + b == b;
    } else {
      assert (a + b)[1..] == a[1..] + b;
      EncodeConcat(a[1..], b);
      Regroup(Chunk(a[0]), Encode(a[1..]), Encode(b));
    }
  }

  // ----- one pass over the brigade -----

  /** What the scan of lines 43-85 leaves: the brigade to send now, where its EOS and last FLUSH
      stand (negative if nowhere), and the rest split off after a read. */
  ghost predicate Scanned(b: Brigade, seg: Brigade, bytes: int, eos: int, flush: int, more: Option<Brigade>) {
    var end := if eos >= 0 then eos else |seg|;
    && (eos >= 0 ==> eos < |seg| && seg[eos] == EOS) && !HasEOS(seg[..end])
    && flush < end && bytes == |Body(seg)|
    && (HasEOS(b) <==> eos >= 0 || (more.Some? && HasEOS(more.value)))
    && Body(b) == Body(seg) + (if more.Some? then Body(more.value) else "")
    && (more.Some? ==> eos < 0 && PipeReads(more.value) < PipeReads(b))
    && (WellFramed(b) <==> PassFramed(seg, eos, flush) && (more.Some? ==> WellFramed(more.value)))
  }

  /** The condition for one pass. */
  ghost predicate PassFramed(seg: Brigade, eos: int, flush: int)
    requires flush <= |seg|
  {
    eos >= 0 || flush < 0 || Crlfs(Body(seg[flush..]))
  }

  /** The data since the last FLUSH. */
  ghost function Since(b: Brigade, flush: int, e: int): string
    requires flush <= e <= |b|
  {
    if flush >= 0 then Body(b[flush..e]) else ""
  }

  /** State of the scan at e: the part before e holds no EOS, and is read. */
  ghost predicate Scanning(b0: Brigade, b: Brigade, e: int, bytes: int, flush: int) {
    && 0 <= e <= |b| && !HasEOS(b[..e]) && flush < e && bytes == |Body(b[..e])|
    && (HasEOS(b0) <==> HasEOS(b)) && Body(b) == Body(b0) && PipeReads(b) <= PipeReads(b0)
    && PipeReads(b[..e]) == 0
    && WellFramed(b0) == WellFramedFrom(b[e..], flush >= 0, Since(b, flush, e))
  }

  lemma BodyOne(x: Bucket)
    requires !x.EOS?
    ensures Body([x]) == (match x case Data(d) => d case Pipe(rs) => Flatten(rs) case _ => "")
  {
  }

  lemma PrefixMore(b: Brigade, e: nat)
    requires e < |b| && !HasEOS(b[..e]) && !b[e].EOS?
    ensures !HasEOS(b[..e + 1]) && Body(b[..e + 1]) == Body(b[..e]) + Body([b[e]])
    ensures PipeReads(b[..e + 1]) == PipeReads(b[..e]) + PipeReads([b[e]])
    ensures forall f :: 0 <= f <= e ==> !HasEOS(b[f..e]) && Body(b[f..e + 1]) == Body(b[f..e]) + Body([b[e]])
  {
    assert b[..e + 1] == b[..e] + [b[e]];
    BodyConcat(b[..e], [b[e]]);
    PipeReadsConcat(b[..e], [b[e]]);
    forall f | 0 <= f <= e ensures !HasEOS(b[f..e]) && Body(b[f..e + 1]) == Body(b[f..e]) + Body([b[e]]) {
      assert b[f..e] == b[..e][f..];
      assert b[f..e + 1] == b[f..e] + [b[e]];
      BodyConcat(b[f..e], [b[e]]);
    }
  }

  /** A bucket replaced by buckets with the same content changes nothing before it. */
  lemma Replaced(b: Brigade, e: nat, mid: Brigade)
    requires e < |b| && !HasEOS(b[..e]) && !b[e].EOS? && !HasEOS(mid)
    requires Body(mid) == Body([b[e]])
    ensures var b' := b[..e] + mid + b[e + 1..];
      && b'[..e] == b[..e] && Body(b') == Body(b) && (HasEOS(b') <==> HasEOS(b))
      && PipeReads(b') == PipeReads(b) - PipeReads([b[e]]) + PipeReads(mid)
  {
    var left, right := b[..e], b[e + 1..];
    assert b == left + [b[e]] + right;
    ThreeParts(left, [b[e]], right);
    ThreeParts(left, mid, right);
  }

  lemma ThreeParts(left: Brigade, mid: Brigade, right: Brigade)
    requires !HasEOS(left) && !HasEOS(mid)
    ensures Body(left + mid + right) == Body(left) + Body(mid) + Body(right)
    ensures PipeReads(left + mid + right) == PipeReads(left) + PipeReads(mid) + PipeReads(right)
    ensures HasEOS(left + mid + right) <==> HasEOS(right)
  {
    BodyConcat(left + mid, right);
    BodyConcat(left, mid);
    PipeReadsConcat(left + mid, right);
    PipeReadsConcat(left, mid);
  }

  lemma SamePlaces(b: Brigade, e: nat, b': Brigade)
    requires e <= |b| && e <= |b'| && b'[..e] == b[..e]
    ensures forall f :: 0 <= f <= e ==> b'[f..e] == b[f..e]
  {
    forall f | 0 <= f <= e ensures b'[f..e] == b[f..e] {
      assert b'[f..e] == b'[..e][f..] && b[f..e] == b[..e][f..];
    }
  }

  /** The bucket at e is a data bucket now, in a brigade that is otherwise as good as before. */
  lemma ScanOn(b0: Brigade, b: Brigade, b': Brigade, e: nat, bytes: int, flush: int)
    requires Scanning(b0, b, e, bytes, flush) && e < |b'| && b'[e].Data?
    requires e <= |b| && b'[..e] == b[..e] && Body(b') == Body(b) && (HasEOS(b') <==> HasEOS(b)) && PipeReads(b') <= PipeReads(b)
    requires WellFramedFrom(b[e..], flush >= 0, Since(b, flush, e))
      <==> WellFramedFrom(b'[e + 1..], flush >= 0, Tail(flush >= 0, Since(b, flush, e), b'[e].data))
    ensures Scanning(b0, b', e + 1, bytes + |b'[e].data|, flush)
  {
    PrefixMore(b', e);
    BodyOne(b'[e]);
    SinceMore(b, b', e, flush);
  }

  lemma SinceMore(b: Brigade, b': Brigade, e: nat, flush: int)
    requires e <= |b| && e < |b'| && b'[e].Data? && b'[..e] == b[..e] && !HasEOS(b[..e]) && flush < e
    ensures Since(b', flush, e + 1) == Tail(flush >= 0, Since(b, flush, e), b'[e].data)
  {
    if flush >= 0 {
      PrefixMore(b', e);
      BodyOne(b'[e]);
      assert b'[flush..e] == b'[..e][flush..] == b[..e][flush..] == b[flush..e];
    }
  }

  /** No data at all is passed over. */
  lemma SinceNothing(b: Brigade, flush: int, e: nat)
    requires flush <= e <= |b|
    ensures Tail(flush >= 0, Since(b, flush, e), "") == Since(b, flush, e)
  {
  }

  lemma ScanData(b0: Brigade, b: Brigade, e: nat, bytes: int, flush: int)
    requires Scanning(b0, b, e, bytes, flush) && e < |b| && b[e].Data?
    ensures Scanning(b0, b, e + 1, bytes + |b[e].data|, flush)
  {
    assert b[e..][0] == b[e] && b[e..][1..] == b[e + 1..];
    ScanOn(b0, b, b, e, bytes, flush);
  }

  lemma ScanFlush(b0: Brigade, b: Brigade, e: nat, bytes: int, flush: int)
    requires Scanning(b0, b, e, bytes, flush) && e < |b| && b[e].Flush?
    ensures Scanning(b0, b, e + 1, bytes, e)
  {
    PrefixMore(b, e);
    BodyOne(b[e]);
    assert b[e..][1..] == b[e + 1..];
    assert b[e..e + 1] == [b[e]];
  }

  lemma PipeEndKeeps(b: Brigade, e: nat)
    requires e < |b| && b[e] == Pipe([]) && !HasEOS(b[..e])
    ensures var b' := b[e := Data("")];
      b'[..e] == b[..e] && Body(b') == Body(b) && (HasEOS(b') <==> HasEOS(b)) && PipeReads(b') < PipeReads(b)
  {
    var b', empty := b[e := Data("")], [Data("")];
    assert b' == b[..e] + empty + b[e + 1..];
    assert empty[1..] == [];
    BodyOne(Pipe([]));
    BodyOne(Data(""));
    assert PipeReads(empty) == 0 && PipeReads([b[e]]) == 1 + PipeReads([b[e]][1..]);
    Replaced(b, e, empty);
  }

  lemma ScanPipeEnd(b0: Brigade, b: Brigade, e: nat, bytes: int, flush: int)
    requires Scanning(b0, b, e, bytes, flush) && e < |b| && b[e] == Pipe([])
    ensures var b' := b[e := Data("")];
      Scanning(b0, b', e + 1, bytes, flush) && PipeReads(b') < PipeReads(b)
  {
    var b' := b[e := Data("")];
    PipeEndKeeps(b, e);
    SinceNothing(b, flush, e);
    assert b[e..][0] == Pipe([]) && b'[e + 1..] == b[e + 1..] == b[e..][1..];
    ScanOn(b0, b, b', e, bytes, flush);
  }

  /** A read turns a pipe bucket into a data bucket with another pipe bucket after it. */
  function AfterRead(b: Brigade, e: nat): (b': Brigade)
    requires e < |b| && b[e].Pipe? && b[e].pending != []
  {
    b[..e] + [Data(b[e].pending[0]), Pipe(b[e].pending[1..])] + b[e + 1..]
  }

  lemma OneRead(rs: seq<string>)
    requires rs != []
    ensures var mid := [Data(rs[0]), Pipe(rs[1..])];
      Body(mid) == Body([Pipe(rs)]) && PipeReads(mid) < PipeReads([Pipe(rs)]) && !HasEOS(mid)
  {
    var mid := [Data(rs[0]), Pipe(rs[1..])];
    assert mid[1..] == [Pipe(rs[1..])];
    BodyOne(Pipe(rs));
    BodyOne(Pipe(rs[1..]));
  }

  lemma ReadShape(b: Brigade, e: nat)
    requires e < |b| && b[e].Pipe? && b[e].pending != []
    ensures var b' := AfterRead(b, e);
      && e < |b'| && b'[..e] == b[..e] && b'[e] == Data(b[e].pending[0])
      && b'[e + 1..] == [Pipe(b[e].pending[1..])] + b[e..][1..]
  {
    assert b[e..][1..] == b[e + 1..];
  }

  lemma ReadKeeps(b: Brigade, e: nat)
    requires e < |b| && b[e].Pipe? && b[e].pending != [] && !HasEOS(b[..e])
    ensures var b' := AfterRead(b, e);
      && (forall f :: 0 <= f <= e ==> b'[f..e] == b[f..e])
      && Body(b') == Body(b) && (HasEOS(b') <==> HasEOS(b)) && PipeReads(b') < PipeReads(b)
  {
    OneRead(b[e].pending);
    Replaced(b, e, [Data(b[e].pending[0]), Pipe(b[e].pending[1..])]);
    SamePlaces(b, e, AfterRead(b, e));
  }

  lemma ScanReadNothing(b0: Brigade, b: Brigade, e: nat, bytes: int, flush: int)
    requires Scanning(b0, b, e, bytes, flush) && e < |b| && b[e].Pipe? && b[e].pending != [] && b[e].pending[0] == ""
    ensures Scanning(b0, AfterRead(b, e), e + 1, bytes, flush) && PipeReads(AfterRead(b, e)) < PipeReads(b)
  {
    ReadKeeps(b, e);
    ReadShape(b, e);
    SinceNothing(b, flush, e);
    assert b[e..][0] == b[e];
    ScanOn(b0, b, AfterRead(b, e), e, bytes, flush);
  }

  lemma ScanEOS(b0: Brigade, b: Brigade, e: nat, bytes: int, flush: int)
    requires Scanning(b0, b, e, bytes, flush) && e < |b| && b[e].EOS?
    ensures Scanned(b0, b, bytes, e, flush, None)
  {
    assert b == b[..e] + b[e..];
    BodyConcat(b[..e], b[e..]);
  }

  lemma ScanEnd(b0: Brigade, b: Brigade, bytes: int, flush: int)
    requires Scanning(b0, b, |b|, bytes, flush)
    ensures Scanned(b0, b, bytes, -1, flush, None)
  {
    assert b[..|b|] == b && b[|b|..] == [];
    assert flush >= 0 ==> b[flush..|b|] == b[flush..];
  }

  /** A brigade is split before place i. */
  lemma SplitAt(b: Brigade, i: nat)
    requires i <= |b| && !HasEOS(b[..i])
    ensures Body(b) == Body(b[..i]) + Body(b[i..]) && (HasEOS(b) <==> HasEOS(b[i..]))
    ensures PipeReads(b) == PipeReads(b[..i]) + PipeReads(b[i..])
  {
    assert b == b[..i] + b[i..];
    BodyConcat(b[..i], b[i..]);
    PipeReadsConcat(b[..i], b[i..]);
  }

  lemma ReadFramed(b: Brigade, e: nat, flushed: bool, tail: string)
    requires e < |b| && b[e].Pipe? && b[e].pending != [] && b[e].pending[0] != ""
    ensures WellFramedFrom(b[e..], flushed, tail)
      <==> (!flushed || Crlfs(tail + b[e].pending[0])) && WellFramed(AfterRead(b, e)[e + 1..])
  {
    ReadShape(b, e);
    assert b[e..][0] == b[e];
  }

  lemma ReadCounts(b: Brigade, e: nat)
    requires e < |b| && b[e].Pipe? && b[e].pending != [] && PipeReads(b[..e]) == 0 && !HasEOS(b[..e])
    ensures var b' := AfterRead(b, e);
      PipeReads(b'[..e + 1]) == 0 && !HasEOS(b'[..e + 1]) && Body(b'[..e + 1]) == Body(b[..e]) + b[e].pending[0]
  {
    ReadShape(b, e);
    var b' := AfterRead(b, e);
    PrefixMore(b', e);
    BodyOne(b'[e]);
  }

  /** After a read that brought data the brigade is split behind that data. */
  lemma ScanSplit(b0: Brigade, b: Brigade, e: nat, bytes: int, flush: int)
    requires Scanning(b0, b, e, bytes, flush) && e < |b| && b[e].Pipe? && b[e].pending != [] && b[e].pending[0] != ""
    ensures var b' := AfterRead(b, e);
      Scanned(b0, b'[..e + 1], bytes + |b[e].pending[0]|, -1, flush, Some(b'[e + 1..]))
  {
    ReadKeeps(b, e);
    ReadCounts(b, e);
    var b' := AfterRead(b, e);
    var seg := b'[..e + 1];
    SplitAt(b', e + 1);
    assert seg[..|seg|] == seg;
    ReadFramed(b, e, flush >= 0, Since(b, flush, e));
    SplitTail(b, e, flush);
  }

  /** The data since the last FLUSH, with what has just been read. */
  lemma SplitTail(b: Brigade, e: nat, flush: int)
    requires e < |b| && b[e].Pipe? && b[e].pending != [] && !HasEOS(b[..e]) && flush < e
    ensures flush >= 0 ==> Body(AfterRead(b, e)[..e + 1][flush..]) == Since(b, flush, e) + b[e].pending[0]
  {
    if flush >= 0 {
      ReadKeeps(b, e);
      ReadShape(b, e);
      var b' := AfterRead(b, e);
      PrefixMore(b', e);
      BodyOne(b'[e]);
      assert b'[..e + 1][flush..] == b'[flush..e + 1] && b'[flush..e] == b[flush..e];
    }
  }

  /** Lines 57-81: one read of a pipe bucket. */
  method ReadPipe(ghost b0: Brigade, b: Brigade, e: nat, ghost bytes: int, ghost flush: int)
    returns (b': Brigade, len: nat)
    requires Scanning(b0, b, e, bytes, flush) && e < |b| && b[e].Pipe?
    ensures e < |b'|
    ensures len > 0 ==> Scanned(b0, b'[..e + 1], bytes + len, -1, flush, Some(b'[e + 1..]))
    ensures len == 0 ==> Scanning(b0, b', e + 1, bytes, flush) && PipeReads(b') < PipeReads(b)
  {
    if b[e].pending == [] {
      ScanPipeEnd(b0, b, e, bytes, flush);
      return b[e := Data("")], 0;
    }
    b', len := AfterRead(b, e), |b[e].pending[0]|;
    if len > 0 {
      ScanSplit(b0, b, e, bytes, flush);
    } else {
      ScanReadNothing(b0, b, e, bytes, flush);
    }
  }

  /** Lines 43-85. */
  method Scan(b0: Brigade) returns (b: Brigade, bytes: int, eos: int, flush: int, more: Option<Brigade>)
    ensures Scanned(b0, b, bytes, eos, flush, more)
  {
    b, bytes, eos, flush, more := b0, 0, -1, -1, None;
    var e := 0;
    assert b[0..] == b && b[..0] == [];
    while e < |b|
      invariant Scanning(b0, b, e, bytes, flush) && eos == -1 && more == None
      decreases PipeReads(b), |b| - e
    {
      match b[e] {
        case EOS =>
          ScanEOS(b0, b, e, bytes, flush);
          eos := e;
          return;
        case Flush =>
          ScanFlush(b0, b, e, bytes, flush);
          flush := e;
        case Pipe(_) =>
          var len;
          b, len := ReadPipe(b0, b, e, bytes, flush);
          if len > 0 {
            bytes := bytes + len;
            b, more := b[..e + 1], Some(b[e + 1..]);
            return;
          }
        case Data(d) =>
          ScanData(b0, b, e, bytes, flush);
          bytes := bytes + |d|;
      }
      e := e + 1;
    }
    ScanEnd(b0, b, bytes, flush);
  }

  // ----- framing what is sent -----

  /** The places Scan gives to the EOS and to the last FLUSH of a segment. */
  ghost predicate Marked(seg: Brigade, eos: int, flush: int) {
    var end := if eos >= 0 then eos else |seg|;
    (eos >= 0 ==> eos < |seg| && seg[eos] == EOS) && !HasEOS(seg[..end]) && flush < end
  }

  function InsertAt(seg: Brigade, eos: int, flush: int): (at: int)
    requires eos < |seg| && flush < |seg|
    ensures 0 <= at <= |seg|
  {
    if eos >= 0 then eos else if flush >= 0 then flush else |seg|
  }

  /** The bytes of the framed brigade. */
  ghost function FrameText(seg: Brigade, eos: int, flush: int): string
    requires eos < |seg| && flush < |seg|
  {
    var at := InsertAt(seg, eos, flush);
    Closing(if Body(seg) == "" then "" else Hex(|Body(seg)|) + CRLF + Body(seg[..at]) + CRLF + Body(seg[at..]), eos >= 0)
  }

  /** The end of a stream is marked by the last chunk. */
  function Closing(text: string, eos: bool): string {
    if eos then text + LAST_CHUNK else text
  }

  lemma InsertedBody(seg: Brigade, at: nat, header: string, tail: string)
    requires at <= |seg| && !HasEOS(seg[..at])
    ensures Body([Data(header)] + seg[..at] + [Data(tail)] + seg[at..]) == header + Body(seg[..at]) + tail + Body(seg[at..])
    ensures HasEOS([Data(header)] + seg[..at] + [Data(tail)] + seg[at..]) <==> HasEOS(seg[at..])
    ensures Body(seg) == Body(seg[..at]) + Body(seg[at..])
  {
    var left, right := seg[..at], seg[at..];
    assert seg == left + right;
    BodyConcat(left, right);
    BodyConcat([Data(header)] + left + [Data(tail)], right);
    BodyConcat([Data(header)] + left, [Data(tail)]);
    BodyConcat([Data(header)], left);
    BodyOne(Data(header));
    BodyOne(Data(tail));
  }

  lemma EosText(seg: Brigade, eos: nat)
    requires eos < |seg| && seg[eos] == EOS && !HasEOS(seg[..eos])
    ensures Body(seg[eos..]) == "" && Body(seg) == Body(seg[..eos])
  {
    assert seg == seg[..eos] + seg[eos..];
    BodyConcat(seg[..eos], seg[eos..]);
  }

  /** The last chunk put before the EOS at place i. */
  lemma LastChunkPut(b: Brigade, i: nat)
    requires i < |b| && b[i] == EOS && !HasEOS(b[..i])
    ensures var b' := b[..i] + [Data(LAST_CHUNK)] + b[i..];
      Body(b') == Body(b) + LAST_CHUNK && HasEOS(b')
  {
    var left, right, last := b[..i], b[i..], [Data(LAST_CHUNK)];
    EosText(b, i);
    BodyConcat(left + last, right);
    BodyConcat(left, last);
    BodyOne(Data(LAST_CHUNK));
    assert right[0] == EOS;
  }

  /** Header and tail put around a segment's bytes; an EOS moves two places. */
  lemma Framed(seg: Brigade, at: nat, header: string, tail: string)
    requires at <= |seg| && !HasEOS(seg[..at])
    ensures var b := [Data(header)] + seg[..at] + [Data(tail)] + seg[at..];
      at < |seg| && seg[at] == EOS ==> b[at + 2] == EOS && !HasEOS(b[..at + 2])
  {
    var b := [Data(header)] + seg[..at] + [Data(tail)] + seg[at..];
    assert b[..at + 2] == [Data(header)] + seg[..at] + [Data(tail)];
  }

  /** Lines 93-143: the header goes first, the CRLF before the EOS, else before the last FLUSH, else
      at the end; the last-chunk marker goes before the EOS. */
  method Frame(seg: Brigade, bytes: int, eos0: int, flush0: int) returns (b: Brigade)
    requires Marked(seg, eos0, flush0) && bytes == |Body(seg)|
    ensures Body(b) == FrameText(seg, eos0, flush0) && (HasEOS(b) <==> eos0 >= 0)
  {
    b := seg;
    var eos := eos0;
    if bytes > 0 {
      var at := InsertAt(seg, eos0, flush0);
      b := [Data(Hex(bytes) + CRLF)] + seg[..at] + [Data(CRLF)] + seg[at..];
      eos := if eos0 >= 0 then eos0 + 2 else eos0;
      InsertedBody(seg, at, Hex(bytes) + CRLF, CRLF);
      Framed(seg, at, Hex(bytes) + CRLF, CRLF);
    }
    if eos >= 0 {
      LastChunkPut(b, eos);
      b := b[..eos] + [Data(LAST_CHUNK)] + b[eos..];
    } else {
      assert seg[..|seg|] == seg;
    }
  }

  lemma Cancel(p: string, a: string, b: string, q: string)
    ensures p + a + q == p + b + q <==> a == b
  {
    if p + a + q == p + b + q {
      assert |a| == |b|;
      forall i | 0 <= i < |a| ensures a[i] == b[i] {
        assert (p + a + q)[|p| + i] == a[i] && (p + b + q)[|p| + i] == b[i];
      }
    }
  }

  lemma {:induction false} CommutesWithCrlf(w: string)
    ensures CRLF + w == w + CRLF <==> Crlfs(w)
    decreases |w|
  {
    if |w| == 1 {
      assert (CRLF + w)[1] == '\n' && (w + CRLF)[1] == '\r';
    } else if |w| >= 2 {
      assert (CRLF + w)[..2] == CRLF && (w + CRLF)[..2] == w[..2];
      if w[..2] == CRLF {
        var v := w[2..];
        assert w == CRLF + v;
        CommutesWithCrlf(v);
        Cancel(CRLF, CRLF + v, v + CRLF, "");
        assert CRLF + w == CRLF + (CRLF + v) + "" && w + CRLF == CRLF + (v + CRLF) + "";
      }
    }
  }

  lemma CrlfPlacement(header: string, u: string, w: string)
    ensures header + u + CRLF + w == header + (u + w) + CRLF <==> Crlfs(w)
  {
    CommutesWithCrlf(w);
    Cancel(header + u, CRLF + w, w + CRLF, "");
    assert header + u + CRLF + w == header + u + (CRLF + w) + "";
    assert header + (u + w) + CRLF == header + u + (w + CRLF) + "";
  }

  lemma FramedAtEnd(seg: Brigade, eos: int, flush: int)
    requires Marked(seg, eos, flush) && eos >= 0
    ensures FrameText(seg, eos, flush) == Closing(Chunk(Body(seg)), true)
  {
    EosText(seg, eos);
    if Body(seg) != "" {
      var h := Hex(|Body(seg)|) + CRLF;
      assert h + Body(seg) + CRLF + "" == h + Body(seg) + CRLF;
    }
  }

  lemma FramedMidway(seg: Brigade, flush: int)
    requires Marked(seg, -1, flush) && Body(seg) != ""
    ensures FrameText(seg, -1, flush) == Chunk(Body(seg)) <==> flush < 0 || Crlfs(Body(seg[flush..]))
  {
    var at := InsertAt(seg, -1, flush);
    assert seg[..|seg|] == seg && seg[|seg|..] == [];
    assert !HasEOS(seg[..at]);
    InsertedBody(seg, at, "", "");
    CrlfPlacement(Hex(|Body(seg)|) + CRLF, Body(seg[..at]), Body(seg[at..]));
  }

  /** A pass is sent as one well-formed chunk exactly when it ends the stream, holds no FLUSH,
      or has after its last FLUSH nothing but (any number of) CRLFs. */
  lemma FramedIff(seg: Brigade, eos: int, flush: int)
    requires Marked(seg, eos, flush) && Body(seg) != ""
    ensures FrameText(seg, eos, flush) == Closing(Chunk(Body(seg)), eos >= 0)
      <==> eos >= 0 || flush < 0 || Crlfs(Body(seg[flush..]))
  {
    if eos >= 0 {
      FramedAtEnd(seg, eos, flush);
    } else {
      FramedMidway(seg, flush);
    }
  }

  /** A pass with data behind its FLUSH does not come out as a chunk. */
  lemma DataAfterFlush()
    ensures var seg := [Data("a"), Flush, Data("b")];
      !WellFramed(seg) && FrameText(seg, -1, 1) != Chunk(Body(seg))
  {
    var seg := [Data("a"), Flush, Data("b")];
    assert seg[1..] == [Flush, Data("b")] && seg[1..][1..] == [Data("b")] && seg[2..] == [Data("b")];
    assert [Data("b")][1..] == [];
    assert Body([Data("b")]) == "b" && Body(seg[1..]) == "b" && Body(seg) == "ab";
    assert !Crlfs("b");
    FramedIff(seg, -1, 1);
  }

  // ----- the filter -----

  function Sent(passed: seq<Brigade>): string {
    if passed == [] then "" else Sent(passed[..|passed| - 1]) + Body(passed[|passed| - 1])
  }

  lemma SameLength(seg: Brigade, eos: int, flush: int)
    requires Marked(seg, eos, flush)
    ensures |FrameText(seg, eos, flush)| == |Closing(Chunk(Body(seg)), eos >= 0)|
  {
    InsertedBody(seg, InsertAt(seg, eos, flush), "", "");
  }

  lemma NothingToFrame(seg: Brigade, eos: int, flush: int)
    requires Marked(seg, eos, flush) && Body(seg) == ""
    ensures FrameText(seg, eos, flush) == Closing(Chunk(""), eos >= 0) && PassFramed(seg, eos, flush)
  {
    if eos < 0 && flush >= 0 {
      assert seg[..|seg|] == seg;
      SplitAt(seg, flush);
    }
  }

  /** One go of the loop of lines 34-150: `data` is sent, as one chunk exactly if the pass meets
      the condition. */
  method SendOne(b: Brigade) returns (out: Brigade, eos: bool, more: Option<Brigade>, ghost data: string)
    ensures Body(b) == data + (if more.Some? then Body(more.value) else "")
    ensures |Body(out)| == |Closing(Chunk(data), eos)|
    ensures WellFramed(b) <==> Body(out) == Closing(Chunk(data), eos) && (more.Some? ==> WellFramed(more.value))
    ensures more.Some? ==> !eos && PipeReads(more.value) < PipeReads(b)
    ensures HasEOS(b) <==> eos || (more.Some? && HasEOS(more.value))
    ensures HasEOS(out) <==> eos
  {
    var seg, bytes, eosAt, flush, rest := Scan(b);
    data := Body(seg);
    out := Frame(seg, bytes, eosAt, flush);
    SameLength(seg, eosAt, flush);
    if data != "" { FramedIff(seg, eosAt, flush); } else { NothingToFrame(seg, eosAt, flush); }
    eos, more := eosAt >= 0, rest;
  }

  lemma EncodeMore(chunks: seq<string>, data: string)
    ensures Encode(chunks + [data]) == Encode(chunks) + Chunk(data)
  {
    EncodeConcat(chunks, [data]);
    assert Encode([data]) == Chunk(data) + "";
  }

  lemma ClosingEnd(a: string, b: string, eos: bool)
    ensures a + Closing(b, eos) == Closing(a + b, eos)
  {
    if eos { Regroup(a, b, LAST_CHUNK); }
  }

  /** Texts of the same lengths are equal together exactly if they are equal one by one. */
  lemma EqualPieces(a: string, b: string, c: string, d: string)
    requires |a| == |c| && |b| == |d|
    ensures a + b == c + d <==> a == c && b == d
  {
    if a + b == c + d {
      assert (a + b)[..|a|] == a && (c + d)[..|a|] == c;
      assert (a + b)[|a|..] == b && (c + d)[|a|..] == d;
    }
  }

  /** What one more pass adds to what has been sent. */
  lemma SentMore(passed: seq<Brigade>, chunks: seq<string>, out: Brigade, data: string, eos: bool)
    requires |Sent(passed)| == |Encode(chunks)| && |Body(out)| == |Closing(Chunk(data), eos)|
    ensures |Sent(passed + [out])| == |Closing(Encode(chunks + [data]), eos)|
    ensures Sent(passed + [out]) == Closing(Encode(chunks + [data]), eos)
      <==> Sent(passed) == Encode(chunks) && Body(out) == Closing(Chunk(data), eos)
  {
    EncodeMore(chunks, data);
    assert (passed + [out])[..|passed|] == passed;
    ClosingEnd(Encode(chunks), Chunk(data), eos);
    EqualPieces(Sent(passed), Body(out), Encode(chunks), Closing(Chunk(data), eos));
  }

  /** The same, and what it takes off the body. */
  lemma OnePass(passed: seq<Brigade>, chunks: seq<string>, out: Brigade, data: string, eos: bool, rest: string)
    requires |Sent(passed)| == |Encode(chunks)| && |Body(out)| == |Closing(Chunk(data), eos)|
    ensures |Sent(passed + [out])| == |Closing(Encode(chunks + [data]), eos)|
    ensures Sent(passed + [out]) == Closing(Encode(chunks + [data]), eos)
      <==> Sent(passed) == Encode(chunks) && Body(out) == Closing(Chunk(data), eos)
    ensures Flatten(chunks + [data]) + rest == Flatten(chunks) + (data + rest)
    ensures rest == "" ==> Flatten(chunks + [data]) == Flatten(chunks) + (data + rest)
  {
    SentMore(passed, chunks, out, data, eos);
    FlattenMore(chunks, data);
    Regroup(Flatten(chunks), data, rest);
    NothingAround(data);
  }

  /** Encodes a brigade and passes it down, in several goes when a read may block. Nothing of the
      body is lost or reordered. What goes out is the chunks of the passes if and only if every
      pass of the brigade meets the condition; it is as long in any case. */
  method Filter(b0: Brigade) returns (passed: seq<Brigade>, ghost chunks: seq<string>)
    ensures Flatten(chunks) == Body(b0)
    ensures Sent(passed) == Closing(Encode(chunks), HasEOS(b0)) <==> WellFramed(b0)
    ensures |Sent(passed)| == |Closing(Encode(chunks), HasEOS(b0))|
    ensures passed != [] && (HasEOS(passed[|passed| - 1]) <==> HasEOS(b0))
    ensures forall i :: 0 <= i < |passed| - 1 ==> !HasEOS(passed[i])
  {
    passed, chunks := [], [];
    var b := b0;
    NothingAround(Body(b0));
    while true
      invariant Flatten(chunks) + Body(b) == Body(b0) && |Sent(passed)| == |Encode(chunks)|
      invariant WellFramed(b0) <==> Sent(passed) == Encode(chunks) && WellFramed(b)
      invariant HasEOS(b) <==> HasEOS(b0)
      invariant forall i :: 0 <= i < |passed| ==> !HasEOS(passed[i])
      decreases PipeReads(b)
    {
      var out, eos, more, data := SendOne(b);
      OnePass(passed, chunks, out, data, eos, if more.Some? then Body(more.value) else "");
      passed, chunks := passed + [out], chunks + [data];
      if eos || more.None? {
        return;
      }
      b := more.value;
    }
  }
}
