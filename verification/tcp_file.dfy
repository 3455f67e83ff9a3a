/** Sending a file in length-framed pieces (client/lb_tcp.c). */
module FileTransfer {
  import opened Strings
  import opened Wrappers

  const MAX_SENDSZ: nat := 1024
  const TAG_END := 'E'
  const TAG_CONT := 'C'
  const HEAD_SIZE: nat := 8
  /** What a file is received into. */
  const BUFFER_SIZE: nat := MAX_SENDSZ + 1

  /** sSize has room for seven characters. */
  datatype CHead = CHead(chTag: char, sSize: string)

  predicate ValidHead(h: CHead) {
    |h.sSize| == HEAD_SIZE - 1
  }

  function Bytes(h: CHead): string {
    [h.chTag] + h.sSize
  }

  /** Whether a number and the final NUL fit into the size field. */
  predicate FitsHead(n: int) {
    |DecInt(n)| + 1 <= HEAD_SIZE - 1
  }

  /** Of the lengths that are not too long, those fit that are not too far below zero. */
  lemma FitsIff(n: int)
    requires n <= MAX_SENDSZ
    ensures FitsHead(n) <==> n > -100000
  {
    FiveDigits(if n < 0 then 0 - n else n);
    if n >= 0 { FourDigits(n); }
  }

  lemma TooFarBelow()
    ensures !FitsHead(-100000) && FitsHead(-99999)
  {
    FitsIff(-100000);
    FitsIff(-99999);
  }

  lemma FourDigits(n: nat)
    requires n <= MAX_SENDSZ
    ensures |Dec(n)| <= 4
  {
    DigitsFit(n, 4);
    assert Pow10(2) == 100;
  }

  /** sprintf(before, "%d", n): what lies behind the final NUL stays. */
  function Printed(n: int, before: string): (s: string)
    requires -100000 < n <= MAX_SENDSZ && |before| == HEAD_SIZE - 1
    ensures |s| == |before| && Atoi(s) == n
  {
    FitsIff(n);
    var rest := "\0" + before[|DecInt(n)| + 1..];
    AtoiDecInt(n, rest);
    DecInt(n) + rest
  }

  // ----- what a file looks like on the wire -----

  datatype Frame = Frame(tag: char, data: string)

  /** The pieces of a file. */
  function Frames(content: string): (fs: seq<Frame>)
    ensures fs != [] && forall i :: 0 <= i < |fs| ==> |fs[i].data| <= MAX_SENDSZ
  {
    if |content| <= MAX_SENDSZ then [Frame(TAG_END, content)]
    else [Frame(TAG_CONT, content[..MAX_SENDSZ])] + Frames(content[MAX_SENDSZ..])
  }

  /** All pieces but the last are full ones tagged 'C', the last is an 'E' piece that is neither
      empty nor too long, and together they are the file. */
  lemma {:induction false} FrameShapes(content: string)
    requires content != ""
    ensures var fs := Frames(content);
      && fs != [] && (forall i :: 0 <= i < |fs| - 1 ==> fs[i].tag == TAG_CONT && |fs[i].data| == MAX_SENDSZ)
      && fs[|fs| - 1].tag == TAG_END && 1 <= |fs[|fs| - 1].data| <= MAX_SENDSZ
      && Flatten(seq(|fs|, i requires 0 <= i < |fs| => fs[i].data)) == content
  {
    var fs := Frames(content);
    var parts := seq(|fs|, i requires 0 <= i < |fs| => fs[i].data);
    if |content| <= MAX_SENDSZ {
      assert parts == [content] && Flatten(parts) == content + [];
    } else {
      var rest := Frames(content[MAX_SENDSZ..]);
      FrameShapes(content[MAX_SENDSZ..]);
      assert parts == [content[..MAX_SENDSZ]] + seq(|rest|, i requires 0 <= i < |rest| => rest[i].data);
      assert content[..MAX_SENDSZ] + content[MAX_SENDSZ..] == content;
    }
  }

  /** The bytes of the pieces; `field` is what the size field held before. */
  function OnWire(fs: seq<Frame>, field: string): string
    requires |field| == HEAD_SIZE - 1 && forall i :: 0 <= i < |fs| ==> |fs[i].data| <= MAX_SENDSZ
  {
    if fs == [] then ""
    else
      var size := Printed(|fs[0].data|, field);
      Bytes(CHead(fs[0].tag, size)) + fs[0].data + OnWire(fs[1..], size)
  }

  lemma PrintedTwice(n: nat, before: string)
    requires n <= MAX_SENDSZ && |before| == HEAD_SIZE - 1
    ensures Printed(n, Printed(n, before)) == Printed(n, before)
  {
    FitsIff(n);
    var once := Printed(n, before);
    assert once[|DecInt(n)| + 1..] == before[|DecInt(n)| + 1..];
  }

  /** What a stream has in front: a file, and what follows it; no file, or not all of one; or a
      frame with more data than the receiver has room for. */
  datatype Incoming = Whole(content: string, rest: string) | Missing | TooMuch

  /** What the receiver makes of a stream, frame by frame. */
  function ReadFile(s: string): Incoming
    decreases |s|
  {
    if |s| < HEAD_SIZE then Missing
    else
      var n := Atoi(s[1..HEAD_SIZE]);
      if n > BUFFER_SIZE && |s| > HEAD_SIZE + BUFFER_SIZE then TooMuch
      else if n <= 0 || |s| < HEAD_SIZE + n then Missing
      else
        var data, rest := s[HEAD_SIZE..HEAD_SIZE + n], s[HEAD_SIZE + n..];
        if s[0] != TAG_CONT then Whole(data, rest) else Behind(data, ReadFile(rest))
  }

  /** The same with data before it. */
  function Behind(data: string, f: Incoming): Incoming {
    if f.Whole? then Whole(data + f.content, f.rest) else f
  }

  lemma FrameIn(tag: char, size: string, data: string, rest: string)
    requires |size| == HEAD_SIZE - 1
    ensures var s := Bytes(CHead(tag, size)) + data + rest;
      && |s| == HEAD_SIZE + |data| + |rest| && s[0] == tag && s[1..HEAD_SIZE] == size
      && s[HEAD_SIZE..HEAD_SIZE + |data|] == data && s[HEAD_SIZE + |data|..] == rest
  {
  }

  lemma LastFrameRead(content: string, field: string, rest: string)
    requires 0 < |content| <= MAX_SENDSZ && |field| == HEAD_SIZE - 1
    ensures ReadFile(OnWire(Frames(content), field) + rest) == Whole(content, rest)
  {
    var head := CHead(TAG_END, Printed(|content|, field));
    assert Frames(content)[1..] == [];
    NothingAround(Bytes(head) + content);
    ReadFrame(Bytes(head) + content + rest, head, content, rest);
  }

  lemma FullFrameRead(content: string, field: string, rest: string)
    requires |content| > MAX_SENDSZ && |field| == HEAD_SIZE - 1
    ensures var more := OnWire(Frames(content[MAX_SENDSZ..]), Printed(MAX_SENDSZ, field)) + rest;
      ReadFile(OnWire(Frames(content), field) + rest) == Behind(content[..MAX_SENDSZ], ReadFile(more))
  {
    var data, more := content[..MAX_SENDSZ], content[MAX_SENDSZ..];
    var head := CHead(TAG_CONT, Printed(|data|, field));
    assert Frames(content)[1..] == Frames(more);
    var tail := OnWire(Frames(more), head.sSize);
    Regroup(Bytes(head) + data, tail, rest);
    ReadFrame(Bytes(head) + data + (tail + rest), head, data, tail + rest);
  }

  /** What is sent for a file is read back as that file, whatever follows it. */
  lemma {:induction false} FileRoundTrip(content: string, field: string, rest: string)
    requires content != "" && |field| == HEAD_SIZE - 1
    ensures ReadFile(OnWire(Frames(content), field) + rest) == Whole(content, rest)
  {
    if |content| <= MAX_SENDSZ {
      LastFrameRead(content, field, rest);
    } else {
      FullFrameRead(content, field, rest);
      FileRoundTrip(content[MAX_SENDSZ..], Printed(MAX_SENDSZ, field), rest);
      assert content[..MAX_SENDSZ] + content[MAX_SENDSZ..] == content;
    }
  }

  // ----- the connection -----

  /** What has been sent and not yet received. Calls may handle less than they are given, or
      fail; a failure is remembered. */
  class Link {
    var pending: string
    ghost var broken: bool

    constructor ()
      ensures pending == "" && !broken
    {
      pending, broken := "", false;
    }

    method Send(data: string) returns (n: int)
      requires data != ""
      modifies this
      ensures n <= |data| && (if n <= 0 then broken && pending == old(pending) else pending == old(pending) + data[..n])
      ensures n > 0 ==> broken == old(broken)
    {
      n :| n <= |data|;
      if n > 0 {
        pending := pending + data[..n];
      } else {
        broken := true;
      }
    }

    /** An empty result stands for a failure; there is no other with nothing there to receive. */
    method Recv(most: nat) returns (data: string)
      requires most > 0
      modifies this
      ensures |data| <= most && old(pending) == data + pending
      ensures if data != "" then broken == old(broken) else broken
    {
      var n :| 0 <= n <= most && n <= |pending|;
      data := pending[..n];
      pending := pending[n..];
      if n == 0 {
        broken := true;
      }
    }
  }

  /** Everything in `data` is sent, however little of it goes at a time. */
  method SendAll(link: Link, data: string) returns (ok: bool)
    modifies link
    ensures old(link.pending) <= link.pending <= old(link.pending) + data
    ensures ok ==> link.pending == old(link.pending) + data && link.broken == old(link.broken)
    ensures !ok ==> link.broken
  {
    var nLeft, pCh := |data|, 0;
    ghost var was := link.pending;
    assert was + data[..0] == was;
    while nLeft > 0
      invariant 0 <= nLeft && pCh + nLeft == |data| && 0 <= pCh
      invariant link.pending == was + data[..pCh] && link.broken == old(link.broken)
    {
      var nSend := link.Send(data[pCh..]);
      if nSend <= 0 {
        return false;
      }
      assert data[..pCh] + data[pCh..][..nSend] == data[..pCh + nSend];
      nLeft := nLeft - nSend;
      pCh := pCh + nSend;
    }
    assert data[..pCh] == data;
    return true;
  }

  /** How much data a head announces. */
  function Size(head: CHead): nat {
    if Atoi(head.sSize) > 0 then Atoi(head.sSize) else 0
  }

  function Framed(head: CHead, data: string): string
    requires Size(head) <= |data|
  {
    Bytes(head) + data[..Size(head)]
  }

  /** TCPSend */
  method TCPSend(link: Link, head: CHead, data: string) returns (ok: bool)
    requires ValidHead(head) && Atoi(head.sSize) <= |data|
    modifies link
    ensures ok ==> link.pending == old(link.pending) + Framed(head, data) && link.broken == old(link.broken)
    ensures !ok ==> link.broken
    ensures old(link.pending) <= link.pending <= old(link.pending) + Framed(head, data)
  {
    var body := data[..Size(head)];
    ghost var was := link.pending;
    ok := SendAll(link, Bytes(head));
    assert was + (Bytes(head) + body) == was + Bytes(head) + body;
    if ok {
      ok := SendAll(link, body);
    }
  }

  /** Exactly n bytes are received, however few come at a time, into a buffer of that capacity;
      more than that overrun it. */
  method RecvAll(link: Link, n: int, capacity: nat) returns (r: Outcome, data: string)
    modifies link
    ensures old(link.pending) == data + link.pending
    ensures r == Success ==> |data| == (if n > 0 then n else 0) <= capacity && link.broken == old(link.broken)
    ensures r == Fail ==> link.broken
    ensures r == Undefined ==> capacity < |data| <= n && link.broken == old(link.broken)
  {
    var nLeft := n;
    data := "";
    while nLeft > 0
      invariant old(link.pending) == data + link.pending && link.broken == old(link.broken)
      invariant |data| + nLeft == n && (n >= 0 ==> nLeft >= 0) && (n < 0 ==> data == "") && |data| <= capacity
    {
      var part := link.Recv(nLeft);
      Regroup(data, part, link.pending);
      data := data + part;
      if part == "" {
        return Fail, data;
      }
      if |data| > capacity {
        return Undefined, data;
      }
      nLeft := nLeft - |part|;
    }
    r := Success;
  }

  /** TCPRecv. The caller's buffer is overrun exactly by a frame that announces, and brings, more
      than it holds. */
  method TCPRecv(link: Link, capacity: nat) returns (r: Outcome, head: CHead, data: string)
    modifies link
    ensures r != Fail ==> ValidHead(head) && old(link.pending) == Bytes(head) + data + link.pending
    ensures r == Success ==> |data| == Size(head) <= capacity && link.broken == old(link.broken)
    ensures r == Fail ==> link.broken
    ensures r == Undefined ==> capacity < |data| <= Size(head) && link.broken == old(link.broken)
  {
    var bytes;
    data, head := "", CHead(TAG_END, "");
    r, bytes := RecvAll(link, HEAD_SIZE, HEAD_SIZE);
    if r == Success {
      head := CHead(bytes[0], bytes[1..]);
      assert bytes == Bytes(head);
      r, data := RecvAll(link, Atoi(head.sSize), capacity);
      Regroup(bytes, data, link.pending);
    }
  }

  /** TCPSendData: one block, unless it is too long; of a block of negative length the head alone
      is sent. A length of more than five digits below zero overruns the size field. */
  method TCPSendData(link: Link, data: string, len: int, uninit: string) returns (r: Outcome)
    requires len <= |data| && |uninit| == HEAD_SIZE - 1
    modifies link
    ensures r == Undefined <==> len <= MAX_SENDSZ && !FitsHead(len)
    ensures len > MAX_SENDSZ ==> r == Fail && link.pending == old(link.pending)
    ensures r == Fail ==> len > MAX_SENDSZ || link.broken
    ensures r == Success ==> -100000 < len <= MAX_SENDSZ && link.broken == old(link.broken)
    ensures r == Success ==>
      link.pending == old(link.pending) + (Bytes(CHead(TAG_END, Printed(len, uninit))) + data[..if len > 0 then len else 0])
  {
    if len > MAX_SENDSZ {
      return Fail;
    }
    FitsIff(len);
    if !FitsHead(len) {
      return Undefined;
    }
    var ok := TCPSend(link, CHead(TAG_END, Printed(len, uninit)), data);
    r := if ok then Success else Fail;
  }

  /** TCPRecvData */
  method TCPRecvData(link: Link, capacity: nat) returns (r: Outcome, data: string, len: int)
    modifies link
    ensures r == Success ==> |data| == (if len > 0 then len else 0) <= capacity && link.broken == old(link.broken)
    ensures r == Success ==>
      exists head :: ValidHead(head) && Atoi(head.sSize) == len && old(link.pending) == Bytes(head) + data + link.pending
    ensures r == Fail ==> link.broken
    ensures r == Undefined ==> |data| > capacity && link.broken == old(link.broken)
    ensures r == Undefined ==>
      exists head :: ValidHead(head) && Size(head) >= |data| && old(link.pending) == Bytes(head) + data + link.pending
  {
    var head;
    r, head, data := TCPRecv(link, capacity);
    len := 0;
    if r == Success {
      len := Atoi(head.sSize);
    }
  }

  /** A block that is sent arrives, unless it is too long or the connection breaks; it overruns the
      receiver's buffer exactly if that is shorter. */
  method Exchange(link: Link, data: string, uninit: string, capacity: nat) returns (r: Outcome, got: string)
    requires link.pending == "" && !link.broken && |uninit| == HEAD_SIZE - 1
    modifies link
    ensures r == Success ==> got == data && link.pending == "" && |data| <= capacity
    ensures r == Fail ==> |data| > MAX_SENDSZ || link.broken
    ensures r == Undefined ==> capacity < |data| <= MAX_SENDSZ
  {
    got := "";
    FitsIff(if |data| <= MAX_SENDSZ then |data| else 0);
    r := TCPSendData(link, data, |data|, uninit);
    if r == Success {
      ghost var sent := CHead(TAG_END, Printed(|data|, uninit));
      ghost var wire := link.pending;
      assert data[..|data|] == data && wire == Bytes(sent) + data;
      var len;
      r, got, len := TCPRecvData(link, capacity);
      if r == Success {
        ghost var head :| ValidHead(head) && Atoi(head.sSize) == len && wire == Bytes(head) + got + link.pending;
        SameFrame(sent, data, head, got, link.pending);
      }
    }
  }

  /** One frame cannot be read in two ways. */
  lemma SameFrame(a: CHead, d: string, b: CHead, e: string, rest: string)
    requires ValidHead(a) && ValidHead(b) && Bytes(a) + d == Bytes(b) + e + rest
    requires |d| == Size(a) && |e| == Size(b)
    ensures d == e && rest == ""
  {
    var s := Bytes(a) + d;
    FrameIn(a.chTag, a.sSize, d, "");
    Regroup(Bytes(a), d, "");
    FrameIn(b.chTag, b.sSize, e, rest);
  }

  // ----- files -----

  /** data put over what stands at `at`. */
  function Overwritten(content: string, at: nat, data: string): string
    requires at <= |content|
  {
    content[..at] + data + (if at + |data| < |content| then content[at + |data|..] else "")
  }

  class File {
    var content: string
    var pos: nat

    ghost predicate Valid()
      reads this
    {
      pos <= |content|
    }

    constructor (content: string)
      ensures Valid() && this.content == content
    {
      this.content, pos := content, 0;
    }

    /** fread(buf, size, 1, file): one item, or nothing. */
    method Fread(size: nat) returns (n: nat, buf: string)
      requires Valid()
      modifies this`pos
      ensures Valid()
      ensures if size > 0 && old(pos) + size <= |content| then n == 1 && pos == old(pos) + size && buf == content[old(pos)..pos]
              else n == 0
    {
      n, buf := 0, "";
      if size > 0 && pos + size <= |content| {
        n, buf := 1, content[pos..pos + size];
        pos := pos + size;
      }
    }

    /** fwrite(buf, |buf|, 1, file) */
    method Fwrite(buf: string) returns (n: nat)
      requires Valid()
      modifies this
      ensures Valid() && pos == old(pos) + |buf| && content == Overwritten(old(content), old(pos), buf)
      ensures n == if buf == "" then 0 else 1
    {
      content := Overwritten(content, pos, buf);
      pos := pos + |buf|;
      n := if buf == "" then 0 else 1;
    }
  }

  /** The bytes of a whole file, the size field having held `uninit` at first. */
  function FileOnWire(content: string, uninit: string): string
    requires |uninit| == HEAD_SIZE - 1
  {
    OnWire(Frames(content), Printed(MAX_SENDSZ, uninit))
  }

  lemma OneMorePiece(content: string, field: string)
    requires |content| > MAX_SENDSZ && |field| == HEAD_SIZE - 1 && Printed(MAX_SENDSZ, field) == field
    ensures OnWire(Frames(content), field)
      == Bytes(CHead(TAG_CONT, field)) + content[..MAX_SENDSZ] + OnWire(Frames(content[MAX_SENDSZ..]), field)
  {
    assert Frames(content)[1..] == Frames(content[MAX_SENDSZ..]);
  }

  lemma LastPiece(content: string, field: string)
    requires |content| <= MAX_SENDSZ && |field| == HEAD_SIZE - 1
    ensures OnWire(Frames(content), field) == Bytes(CHead(TAG_END, Printed(|content|, field))) + content
  {
    var fs := Frames(content);
    assert fs[1..] == [];
    assert OnWire(fs, field) == Bytes(CHead(TAG_END, Printed(|content|, field))) + content + "";
  }

  /** sprintf(.., "%d", 1024) and then, over it, a number of one digit. */
  lemma FullSize(uninit: string)
    requires |uninit| == 7
    ensures Printed(1024, uninit) == "1024\0" + uninit[5..]
  {
    FitsIff(1024);
    Dec1024();
  }

  lemma Dec1024()
    ensures DecInt(1024) == "1024"
  {
    OneDigit(1);
    LastDigit(10);
    LastDigit(102);
    LastDigit(1024);
    assert "1" + "0" == "10" && "10" + "2" == "102" && "102" + "4" == "1024";
  }

  lemma SmallSize(n: nat, field: string)
    requires n < 10 && |field| == 7
    ensures Printed(n, field) == ["0123456789"[n]] + ("\0" + field[2..])
  {
    OneDigit(n);
    FitsIff(n);
  }

  /** A short file as it goes out: the size field was first filled in for full pieces. */
  lemma SmallFileOnWire(content: string, uninit: string)
    requires |uninit| == 7 && 0 < |content| < 10
    ensures FileOnWire(content, uninit) == "E" + (["0123456789"[|content|]] + ("\0" + ("24\0" + uninit[5..]))) + content
  {
    FullSize(uninit);
    SmallSize(|content|, "1024\0" + uninit[5..]);
    FieldTail(uninit[5..]);
    LastPiece(content, Printed(1024, uninit));
  }

  lemma FieldTail(rest: string)
    ensures ("1024\0" + rest)[2..] == "24\0" + rest
  {
  }

  /** A longer one starts with a full piece, and the size field stays as it is for the next. */
  lemma FullPieceOnWire(content: string, uninit: string)
    requires |uninit| == 7 && |content| > 1024
    ensures FileOnWire(content, uninit)
      == "C" + ("1024\0" + uninit[5..]) + content[..1024] + FileOnWire(content[1024..], uninit)
  {
    FullSize(uninit);
    PrintedTwice(1024, uninit);
    OneMorePiece(content, Printed(1024, uninit));
  }

  /** Part of the frames has been sent since `was`, those of `left` are still to be. */
  ghost predicate Sending(all: string, was: string, now: string, left: string, field: string)
    requires |field| == HEAD_SIZE - 1
  {
    now + OnWire(Frames(left), field) == was + all && was <= now
  }

  lemma SentPiece(all: string, was: string, mid: string, now: string, left: string, field: string)
    requires |field| == HEAD_SIZE - 1 && Printed(MAX_SENDSZ, field) == field && |left| > MAX_SENDSZ
    requires Sending(all, was, mid, left, field)
    requires mid <= now <= mid + (Bytes(CHead(TAG_CONT, field)) + left[..MAX_SENDSZ])
    ensures was <= now <= was + all
    ensures now == mid + (Bytes(CHead(TAG_CONT, field)) + left[..MAX_SENDSZ]) ==> Sending(all, was, now, left[MAX_SENDSZ..], field)
  {
    OneMorePiece(left, field);
    Extends(mid, Bytes(CHead(TAG_CONT, field)) + left[..MAX_SENDSZ], OnWire(Frames(left[MAX_SENDSZ..]), field), now);
  }

  lemma Extends(mid: string, piece: string, rest: string, now: string)
    requires mid <= now <= mid + piece
    ensures now <= mid + (piece + rest) && mid + (piece + rest) == mid + piece + rest
  {
  }

  /** Lines 344-351: the full pieces. */
  method SendPieces(link: Link, file: File, lLoopCnt: nat, head: CHead, ghost all: string) returns (ok: bool)
    requires file.pos == 0 && ValidHead(head) && head.chTag == TAG_CONT && Printed(MAX_SENDSZ, head.sSize) == head.sSize
    requires MAX_SENDSZ * lLoopCnt < |file.content| || lLoopCnt == 0
    requires all == OnWire(Frames(file.content), head.sSize)
    modifies link, file`pos
    ensures lLoopCnt == 0 ==> ok && link.pending == old(link.pending)
    ensures ok ==> file.pos == MAX_SENDSZ * lLoopCnt && link.broken == old(link.broken)
    ensures ok ==> Sending(all, old(link.pending), link.pending, file.content[MAX_SENDSZ * lLoopCnt..], head.sSize)
    ensures !ok ==> link.broken && old(link.pending) <= link.pending <= old(link.pending) + all
  {
    ghost var was := link.pending;
    var i := 0;
    assert file.content[0..] == file.content;
    while i < lLoopCnt
      invariant 0 <= i <= lLoopCnt && file.pos == MAX_SENDSZ * i && (i == 0 || file.pos < |file.content|)
      invariant Sending(all, was, link.pending, file.content[file.pos..], head.sSize) && link.broken == old(link.broken)
      invariant i == 0 ==> link.pending == was
    {
      ok := SendPiece(link, file, head, was, all);
      if !ok {
        return false;
      }
      i := i + 1;
    }
    ok := true;
  }

  /** One full piece, more being left behind it. */
  method SendPiece(link: Link, file: File, head: CHead, ghost was: string, ghost all: string) returns (ok: bool)
    requires ValidHead(head) && head.chTag == TAG_CONT && Printed(MAX_SENDSZ, head.sSize) == head.sSize
    requires file.pos + MAX_SENDSZ < |file.content|
    requires Sending(all, was, link.pending, file.content[file.pos..], head.sSize)
    modifies link, file`pos
    ensures ok ==> file.pos == old(file.pos) + MAX_SENDSZ && link.broken == old(link.broken)
    ensures ok ==> Sending(all, was, link.pending, file.content[file.pos..], head.sSize)
    ensures !ok ==> link.broken && was <= link.pending <= was + all
  {
    ghost var left, mid := file.content[file.pos..], link.pending;
    var n, szBuf := file.Fread(MAX_SENDSZ);
    assert szBuf == left[..MAX_SENDSZ] && file.content[file.pos..] == left[MAX_SENDSZ..];
    if n < 1 {
      return false;
    }
    assert szBuf[..MAX_SENDSZ] == szBuf;
    ok := TCPSend(link, head, szBuf);
    SentPiece(all, was, mid, link.pending, left, head.sSize);
  }

  /** TCPSendFile: whatever the sizes of the single sends, what is sent is the beginning of the
      file's frames, and all of them unless a send fails. An empty file is refused. */
  method TCPSendFile(link: Link, file: File, uninit: string) returns (ok: bool)
    requires |uninit| == HEAD_SIZE - 1
    modifies link, file`pos
    ensures file.content == "" ==> !ok && link.pending == old(link.pending)
    ensures file.content != "" ==> (ok || link.broken)
    ensures old(link.pending) <= link.pending <= old(link.pending) + FileOnWire(file.content, uninit)
    ensures ok ==> link.pending == old(link.pending) + FileOnWire(file.content, uninit) && link.broken == old(link.broken)
  {
    file.pos := 0;
    var lSize := |file.content|;
    var lLoopCnt, lLeft := lSize / MAX_SENDSZ, lSize % MAX_SENDSZ;
    if lLeft == 0 && lSize > 0 {
      lLoopCnt, lLeft := lLoopCnt - 1, MAX_SENDSZ;
    }
    var field := Printed(MAX_SENDSZ, uninit);
    PrintedTwice(MAX_SENDSZ, uninit);
    ok := SendPieces(link, file, lLoopCnt, CHead(TAG_CONT, field), FileOnWire(file.content, uninit));
    if ok {
      ok := SendLast(link, file, lLeft, field, old(link.pending), FileOnWire(file.content, uninit));
    }
  }

  /** Lines 353-359: the last piece. */
  method SendLast(link: Link, file: File, lLeft: nat, field: string, ghost was: string, ghost all: string) returns (ok: bool)
    requires |field| == HEAD_SIZE - 1 && lLeft <= MAX_SENDSZ && file.pos + lLeft == |file.content|
    requires Sending(all, was, link.pending, file.content[file.pos..], field)
    modifies link, file`pos
    ensures was <= link.pending <= was + all
    ensures lLeft == 0 ==> !ok && link.pending == old(link.pending)
    ensures lLeft > 0 ==> (ok || link.broken)
    ensures ok ==> link.pending == was + all && link.broken == old(link.broken)
  {
    ghost var left, mid := file.content[file.pos..], link.pending;
    LastPiece(left, field);
    var head := CHead(TAG_END, Printed(lLeft, field));
    var n, szBuf := file.Fread(lLeft);
    if n < 1 {
      return false;
    }
    assert szBuf == left && szBuf[..lLeft] == szBuf;
    ok := TCPSend(link, head, szBuf);
    Onward(was, mid, link.pending);
  }

  lemma Onward(was: string, mid: string, now: string)
    requires was <= mid <= now
    ensures was <= now
  {
  }

  /** TCPRecvFile: the file written is the one at the front of the stream, and nothing behind it
      is taken; this fails only if receiving does or there is no file. As long as the connection
      holds the buffer is overrun exactly by a frame with more data than it has room for. */
  method TCPRecvFile(link: Link, file: File) returns (r: Outcome)
    modifies link, file
    ensures var f := old(ReadFile(link.pending));
      && (r == Success ==> f.Whole? && file.content == Overwritten(old(file.content), 0, f.content) && link.pending == f.rest)
      && (r == Undefined ==> f.TooMuch?) && (f.Missing? ==> r == Fail)
      && (!link.broken && f.Whole? ==> r == Success) && (!link.broken && f.TooMuch? ==> r == Undefined)
  {
    ghost var was, before := link.pending, file.content;
    ghost var got := "";
    file.pos := 0;
    NothingWritten(before);
    NothingGot(ReadFile(was));
    while true
      invariant file.Valid() && file.pos == |got| && file.content == Overwritten(before, 0, got)
      invariant ReadFile(was) == Behind(got, ReadFile(link.pending)) && link.broken == old(link.broken)
      decreases |link.pending|
    {
      ghost var now := link.pending;
      var head, szBuf;
      r, head, szBuf := TCPRecv(link, BUFFER_SIZE);
      if r == Fail {
        return;
      }
      ReadFrame(now, head, szBuf, link.pending);
      if r == Undefined {
        return;
      }
      var n := file.Fwrite(szBuf);
      OverwrittenTwice(before, got, szBuf);
      if n < 1 {
        return Fail;
      }
      BehindTwice(got, szBuf, ReadFile(link.pending));
      got := got + szBuf;
      if head.chTag != TAG_CONT {
        return Success;
      }
    }
  }

  lemma NothingWritten(content: string)
    ensures Overwritten(content, 0, "") == content
  {
  }

  lemma NothingGot(f: Incoming)
    ensures Behind("", f) == f
  {
    if f.Whole? { NothingAround(f.content); }
  }

  lemma BehindTwice(a: string, b: string, f: Incoming)
    ensures Behind(a, Behind(b, f)) == Behind(a + b, f)
  {
    if f.Whole? { Regroup(a, b, f.content); }
  }

  /** A frame at the front of a stream. */
  lemma ReadFrame(s: string, head: CHead, data: string, rest: string)
    requires ValidHead(head) && s == Bytes(head) + data + rest
    requires |data| == Size(head) <= BUFFER_SIZE || BUFFER_SIZE < |data| <= Size(head)
    ensures |data| > BUFFER_SIZE ==> ReadFile(s) == TooMuch
    ensures data == "" ==> ReadFile(s) == Missing
    ensures 0 < |data| <= BUFFER_SIZE && head.chTag != TAG_CONT ==> ReadFile(s) == Whole(data, rest)
    ensures 0 < |data| <= BUFFER_SIZE && head.chTag == TAG_CONT ==> ReadFile(s) == Behind(data, ReadFile(rest))
  {
    FrameIn(head.chTag, head.sSize, data, rest);
  }

  /** A frame of which not all has come is no file; that it is too long shows with the first byte the
      buffer has no room for. */
  lemma FrameCutOff(head: CHead, data: string)
    requires ValidHead(head) && |data| < Size(head)
    ensures ReadFile(Bytes(head) + data) == if |data| > 1025 then TooMuch else Missing
  {
    FrameIn(head.chTag, head.sSize, data, "");
    NothingAround(Bytes(head) + data);
  }

  lemma ThousandsHead(n: nat)
    requires 1000 <= n <= 9999
    ensures |DecInt(n)| == 4 && Atoi(DecInt(n) + "\0\0\0") == n
  {
    DigitsFit(n, 4);
    DigitsFit(n, 3);
    assert Pow10(3) == 1000 && Pow10(4) == 10000;
    AtoiDecInt(n, "\0\0\0");
  }

  /** A frame of some thousand bytes is taken up to 1025 of them; a longer one overruns the buffer. */
  lemma FrameTooLong(data: string, rest: string)
    requires 1000 <= |data| <= 9999
    ensures ReadFile(Bytes(CHead(TAG_END, DecInt(|data|) + "\0\0\0")) + data + rest)
      == if |data| > 1025 then TooMuch else Whole(data, rest)
  {
    ThousandsHead(|data|);
    var head := CHead(TAG_END, DecInt(|data|) + "\0\0\0");
    ReadFrame(Bytes(head) + data + rest, head, data, rest);
  }

  /** One of 5000 bytes does. */
  method ReceiveTooLong(link: Link, file: File, data: string, rest: string) returns (r: Outcome)
    requires |data| == 5000 && link.pending == Bytes(CHead(TAG_END, DecInt(5000) + "\0\0\0")) + data + rest
    modifies link, file
    ensures r == Undefined || link.broken
  {
    FrameTooLong(data, rest);
    r := TCPRecvFile(link, file);
  }

  lemma OverwrittenTwice(content: string, a: string, b: string)
    ensures |a| <= |Overwritten(content, 0, a)|
    ensures Overwritten(Overwritten(content, 0, a), |a|, b) == Overwritten(content, 0, a + b)
  {
  }

  lemma SentFile(content: string, uninit: string)
    requires content != "" && |uninit| == HEAD_SIZE - 1
    ensures ReadFile("" + FileOnWire(content, uninit)) == Whole(content, "") && Overwritten("", 0, content) == content
  {
    var wire := FileOnWire(content, uninit);
    NothingAround(wire);
    assert ReadFile(wire + "") == Whole(content, "") by {
      FileRoundTrip(content, Printed(MAX_SENDSZ, uninit), "");
    }
    NothingAround(content);
  }

  /** A file that is sent and received over a connection that does not break arrives as it is; no
      buffer is overrun in any case. */
  method Transfer(link: Link, src: File, dst: File, uninit: string) returns (sent: bool, received: Outcome)
    requires link.pending == "" && !link.broken && src != dst && dst.content == ""
    requires src.content != "" && |uninit| == HEAD_SIZE - 1
    modifies link, src`pos, dst
    ensures !link.broken ==> sent && received == Success
    ensures sent && received == Success ==> dst.content == src.content && link.pending == ""
    ensures received != Undefined
  {
    received := Fail;
    sent := TCPSendFile(link, src, uninit);
    if sent {
      SentFile(src.content, uninit);
      received := TCPRecvFile(link, dst);
    }
  }
}
