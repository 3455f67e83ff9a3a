/** The reading side of modules/mod_httpd/http_filter.c: the HTTP input filter in READBYTES mode. */
module HttpInput {
  import opened ChunkSize
  import opened ChunkFilter
  import opened Strings
  import opened Wrappers

  /** The bytes up to and including the first LF; all of them if there is none. */
  function Line(s: string): (l: string)
    ensures l <= s && (s != "" ==> l != "" && '\n' !in l[..|l| - 1])
    ensures |l| < |s| ==> l[|l| - 1] == '\n'
  {
    if s == "" then "" else if s[0] == '\n' then [s[0]] else [s[0]] + Line(s[1..])
  }

  function AfterLine(s: string): (r: string)
    ensures s == Line(s) + r && (s != "" ==> |r| < |s|)
  {
    s[|Line(s)|..]
  }

  const LINE_LEN: nat := 30

  /** What fits into the buffer a size line is copied to. */
  function InBuffer(line: string): string {
    if |line| <= LINE_LEN then line else line[..LINE_LEN]
  }

  /** Header lines up to and including the empty one are read and forgotten. */
  function SkipTrailers(s: string): (r: string)
    decreases |s|
  {
    if s == "" || Line(s) == CRLF || Line(s) == "\n" then AfterLine(s) else SkipTrailers(AfterLine(s))
  }

  /** The reader of a size line goes on behind what was copied of it. */
  predicate Overlong(s: string) {
    s != "" && RunsOn(InBuffer(Line(s)))
  }

  /** The body a chunked stream carries (section 3.6.1 of RFC 2616) and what follows it;
      None if a size is too large, a size line is not delimited, or the stream ends early. */
  function Decode(s: string): Option<(string, string)>
    decreases |s|
  {
    var n := Announced(InBuffer(Line(s)));
    var r := AfterLine(s);
    if s == "" || Overlong(s) || n < 0 then None
    else if n == 0 then Some(("", SkipTrailers(r)))
    else if |r| < n then None
    else
      match Decode(AfterLine(r[n..]))
      case None => None
      case Some(d) => Some((r[..n] + d.0, d.1))
  }

  lemma {:induction false} LineOf(head: string, rest: string)
    requires forall i :: 0 <= i < |head| ==> head[i] != '\n'
    ensures Line(head + "\n" + rest) == head + "\n" && AfterLine(head + "\n" + rest) == rest
  {
    var s := head + "\n" + rest;
    if head != "" {
      assert s[1..] == head[1..] + "\n" + rest;
      LineOf(head[1..], rest);
    }
  }

  lemma CrlfLine(head: string, rest: string)
    requires forall i :: 0 <= i < |head| ==> head[i] != '\n'
    ensures Line(head + CRLF + rest) == head + CRLF && AfterLine(head + CRLF + rest) == rest
  {
    assert head + CRLF == (head + "\r") + "\n";
    LineOf(head + "\r", rest);
  }

  lemma SizeLine(n: nat)
    requires 0 < n < TWO63
    ensures Announced(InBuffer(Hex(n) + CRLF)) == n && !RunsOn(InBuffer(Hex(n) + CRLF))
  {
    HexIsShort(n);
    SizeRoundTrip(n, CRLF);
    Delimited(Hex(n), CRLF);
  }

  lemma {:induction false} Delimited(h: string, end: string)
    requires end != "" && !IsXDigit(end[0])
    ensures !RunsOn(h + end)
  {
    if h != "" && h[0] == '0' {
      assert (h + end)[1..] == h[1..] + end;
      Delimited(h[1..], end);
    } else {
      assert Significant(h + end)[|h|] == end[0];
    }
  }

  lemma Header(h: string, c: string, d: string, rest: string)
    ensures h + c + d + c + rest == h + c + (d + c + rest)
  {
  }

  lemma ChunkLines(d: string, rest: string)
    requires d != ""
    ensures Line(Chunk(d) + rest) == Hex(|d|) + CRLF
    ensures AfterLine(Chunk(d) + rest) == d + CRLF + rest
  {
    var h := Hex(|d|);
    CrlfLine(h, d + CRLF + rest);
    Header(h, CRLF, d, rest);
  }

  lemma DecodeChunk(d: string, rest: string)
    requires 0 < |d| < TWO63
    ensures Decode(Chunk(d) + rest) == match Decode(rest) case None => None case Some(p) => Some((d + p.0, p.1))
  {
    ChunkLines(d, rest);
    SizeLine(|d|);
    Regroup(d, CRLF, rest);
    NothingAround(CRLF);
    CrlfLine("", rest);
    DecodeStep(Chunk(d) + rest, d, CRLF + rest);
  }

  lemma DecodeStep(s: string, data: string, tail: string)
    requires s != "" && !Overlong(s) && Announced(InBuffer(Line(s))) == |data| > 0 && AfterLine(s) == data + tail
    ensures Decode(s) == match Decode(AfterLine(tail)) case None => None case Some(p) => Some((data + p.0, p.1))
  {
    assert (data + tail)[..|data|] == data && (data + tail)[|data|..] == tail;
  }

  lemma DecodeLast(rest: string)
    ensures Decode(LAST_CHUNK + rest) == Some(("", rest))
  {
    assert LAST_CHUNK + rest == "0" + CRLF + (CRLF + rest);
    assert CRLF + rest == "" + CRLF + rest;
    CrlfLine("0", CRLF + rest);
    CrlfLine("", rest);
    LeadingDigitsOf("0", CRLF);
    Delimited("0", CRLF);
    assert "" + CRLF == CRLF;
  }

  lemma DecodeCons(c: string, more: string, body: string, rest: string)
    requires |c| < TWO63 && Decode(more) == Some((body, rest))
    ensures Decode(Chunk(c) + more) == Some((c + body, rest))
  {
    if c != "" {
      DecodeChunk(c, more);
    } else {
      assert "" + more == more && "" + body == body;
    }
  }

  lemma EncodeCons(chunks: seq<string>, last: string)
    requires chunks != []
    ensures Encode(chunks) + last == Chunk(chunks[0]) + (Encode(chunks[1..]) + last)
  {
  }

  /** Every sequence of chunks decodes to its data, whatever follows the last chunk. */
  lemma {:induction false} RoundTrip(chunks: seq<string>, rest: string)
    requires forall i :: 0 <= i < |chunks| ==> |chunks[i]| < TWO63
    ensures Decode(Encode(chunks) + (LAST_CHUNK + rest)) == Some((Flatten(chunks), rest))
  {
    if chunks == [] {
      DecodeLast(rest);
      assert "" + (LAST_CHUNK + rest) == LAST_CHUNK + rest;
    } else {
      RoundTrip(chunks[1..], rest);
      EncodeCons(chunks, LAST_CHUNK + rest);
      DecodeCons(chunks[0], Encode(chunks[1..]) + (LAST_CHUNK + rest), Flatten(chunks[1..]), rest);
    }
  }

  // ----- streams of other senders -----

  /** A chunk as any sender may write it: the digits of its size, an extension behind them, the data. */
  datatype WireChunk = WireChunk(size: string, extension: string, data: string)

  /** The digits are those of the size, in upper or lower case or both; the extension is what section
      3.6.1 of RFC 2616 lets follow them, on the same line. */
  ghost predicate WellSized(c: WireChunk) {
    0 < |c.data| < TWO63 && SameName(Hex(|c.data|), c.size) && Extension(c.extension)
  }

  ghost predicate Extension(s: string) {
    '\n' !in s && (s != "" ==> !IsXDigit(s[0]))
  }

  function OnWire(c: WireChunk): string {
    c.size + (c.extension + "\r\n") + (c.data + "\r\n")
  }

  function AllOnWire(cs: seq<WireChunk>): string {
    if cs == [] then "" else OnWire(cs[0]) + AllOnWire(cs[1..])
  }

  function AllData(cs: seq<WireChunk>): string {
    if cs == [] then "" else cs[0].data + AllData(cs[1..])
  }

  /** Header lines, and the empty line that ends them. */
  function Trailer(fields: seq<string>): string {
    if fields == [] then "\r\n" else fields[0] + "\r\n" + Trailer(fields[1..])
  }

  lemma FrontInBuffer(size: string, end: string)
    requires |size| <= 16 && end != "" && !IsXDigit(end[0])
    ensures exists e :: e != "" && e[0] == end[0] && InBuffer(size + end) == size + e
  {
    var line := size + end;
    var e := InBuffer(line)[|size|..];
    assert InBuffer(line) == size + e && e[0] == end[0];
  }

  lemma SizeInBuffer(size: string, end: string, n: nat)
    requires AllXDigits(size) && |size| <= 16 && Value(size) == n < TWO63 && end != "" && !IsXDigit(end[0])
    ensures Announced(InBuffer(size + end)) == n && !RunsOn(InBuffer(size + end))
  {
    FrontInBuffer(size, end);
    var e :| e != "" && e[0] == end[0] && InBuffer(size + end) == size + e;
    LeadingDigitsOf(size, e);
    Delimited(size, e);
  }

  lemma EndsLine(size: string, extension: string, after: string)
    requires AllXDigits(size) && Extension(extension)
    ensures Line(size + (extension + "\r\n") + after) == size + (extension + "\r\n")
    ensures AfterLine(size + (extension + "\r\n") + after) == after
  {
    var head := size + extension;
    forall i | 0 <= i < |head| ensures head[i] != '\n' {
      if i < |size| { assert IsXDigit(size[i]); } else { assert extension[i - |size|] in extension; }
    }
    CrlfLine(head, after);
    assert head + CRLF == size + (extension + "\r\n");
  }

  lemma DecodeWireChunk(c: WireChunk, rest: string)
    requires WellSized(c)
    ensures Decode(OnWire(c) + rest) == match Decode(rest) case None => None case Some(p) => Some((c.data + p.0, p.1))
  {
    HexIsShort(|c.data|);
    ValueInEitherCase(Hex(|c.data|), c.size);
    SizeInBuffer(c.size, c.extension + "\r\n", |c.data|);
    WireSplit(c, rest);
    EndsLine(c.size, c.extension, c.data + (CRLF + rest));
    NothingAround(CRLF);
    CrlfLine("", rest);
    DecodeStep(OnWire(c) + rest, c.data, CRLF + rest);
  }

  lemma WireSplit(c: WireChunk, rest: string)
    ensures OnWire(c) + rest == c.size + (c.extension + "\r\n") + (c.data + (CRLF + rest))
  {
    Regroup(c.size + (c.extension + "\r\n"), c.data + "\r\n", rest);
    Regroup(c.data, CRLF, rest);
  }

  lemma {:induction false} TrailerSkipped(fields: seq<string>, rest: string)
    requires forall i :: 0 <= i < |fields| ==> fields[i] != "" && '\n' !in fields[i]
    ensures SkipTrailers(Trailer(fields) + rest) == rest
  {
    if fields == [] {
      assert Trailer(fields) + rest == "" + CRLF + rest;
      CrlfLine("", rest);
      assert "" + CRLF == CRLF;
    } else {
      var after := Trailer(fields[1..]) + rest;
      assert Trailer(fields) + rest == fields[0] + CRLF + after;
      CrlfLine(fields[0], after);
      TrailerSkipped(fields[1..], rest);
      assert (fields[0] + CRLF)[0] == fields[0][0];
    }
  }

  lemma DecodeEnd(extension: string, fields: seq<string>, rest: string)
    requires Extension(extension) && forall i :: 0 <= i < |fields| ==> fields[i] != "" && '\n' !in fields[i]
    ensures Decode("0" + (extension + "\r\n") + (Trailer(fields) + rest)) == Some(("", rest))
  {
    assert Value("0") == 0;
    SizeInBuffer("0", extension + "\r\n", 0);
    EndsLine("0", extension, Trailer(fields) + rest);
    TrailerSkipped(fields, rest);
  }

  /** Whatever the case of their digits, their extensions and the trailer behind them, chunks decode
      to their data, and reading stops behind the empty line. */
  lemma {:induction false} AnySenderRead(cs: seq<WireChunk>, extension: string, fields: seq<string>, rest: string)
    requires (forall i :: 0 <= i < |cs| ==> WellSized(cs[i])) && Extension(extension)
    requires forall i :: 0 <= i < |fields| ==> fields[i] != "" && '\n' !in fields[i]
    ensures Decode(AllOnWire(cs) + ("0" + (extension + "\r\n") + (Trailer(fields) + rest))) == Some((AllData(cs), rest))
  {
    var end := "0" + (extension + "\r\n") + (Trailer(fields) + rest);
    if cs == [] {
      assert "" + end == end;
      DecodeEnd(extension, fields, rest);
    } else {
      AnySenderRead(cs[1..], extension, fields, rest);
      Regroup(OnWire(cs[0]), AllOnWire(cs[1..]), end);
      DecodeWireChunk(cs[0], AllOnWire(cs[1..]) + end);
    }
  }

  // ----- the filter -----

  /** The filter below: a stream of bytes read by lines or in pieces as short as it likes. */
  class Upstream {
    var rest: string

    constructor (s: string)
      ensures rest == s
    {
      rest := s;
    }

    method GetLine() returns (line: string)
      modifies this
      ensures line == Line(old(rest)) && rest == AfterLine(old(rest))
    {
      line := Line(rest);
      rest := AfterLine(rest);
    }

    method ReadBytes(n: int) returns (data: string)
      requires n > 0
      modifies this
      ensures old(rest) == data + rest && |data| <= n && (old(rest) != "" ==> data != "")
    {
      var most := if n < |rest| then n else |rest|;
      var k :| 0 <= k <= most && (rest != "" ==> k > 0);
      data := rest[..k];
      rest := rest[k..];
    }

    /** get_mime_headers, as far as this filter goes: what it reads is dropped. */
    method GetMimeHeaders()
      modifies this
      ensures rest == SkipTrailers(old(rest))
    {
      while rest != "" && Line(rest) != CRLF && Line(rest) != "\n"
        invariant SkipTrailers(rest) == SkipTrailers(old(rest))
        decreases |rest|
      {
        var line := GetLine();
      }
      var line := GetLine();
    }
  }

  /** How the request headers delimit the body. */
  datatype Framing = NoBody | Length(n: nat) | Chunked | BadLength

  datatype State = BODY_NONE | BODY_LENGTH | BODY_CHUNK

  /** How a call comes out: it goes well, it reports the error 413, the read of a line fails because the
      stream has ended, or a size line is read behind the end of its buffer, which C leaves undefined. */
  datatype Status = Ok | TooLarge | NoLine | Overrun

  /** The body still to come when `head` is left of the present stretch and `tail` follows it. */
  ghost function Assemble(state: State, head: string, tail: string): Option<(string, string)> {
    if state == BODY_LENGTH then Some((head, tail))
    else
      match Decode(AfterLine(tail))
      case None => None
      case Some(d) => Some((head + d.0, d.1))
  }

  ghost function BodyFrom(state: State, remaining: nat, rest: string): Option<(string, string)> {
    if |rest| < remaining then None else Assemble(state, rest[..remaining], rest[remaining..])
  }

  /** A piece of the body has moved from what is pending to the caller. */
  ghost predicate Delivered(was: Option<(string, string)>, data: string, now: Option<(string, string)>) {
    was.Some? ==> now.Some? && was.value.1 == now.value.1 && was.value.0 == data + now.value.0
  }

  lemma TakenFrom(state: State, k: nat, data: string, rest: string, was: Option<(string, string)>, now: Option<(string, string)>)
    requires was == BodyFrom(state, k + |data|, data + rest) && now == BodyFrom(state, k, rest)
    ensures Delivered(was, data, now)
  {
    if k <= |rest| {
      TakenSlices(data, rest, k);
      var head, tail := rest[..k], rest[k..];
      assert was == Assemble(state, data + head, tail) && now == Assemble(state, head, tail);
      TakenHead(state, data, head, tail);
    }
  }

  lemma TakenHead(state: State, data: string, head: string, tail: string)
    ensures Delivered(Assemble(state, data + head, tail), data, Assemble(state, head, tail))
  {
    var d := Decode(AfterLine(tail));
    if d.Some? { Regroup(data, head, d.value.0); }
  }

  lemma TakenSlices(data: string, rest: string, k: nat)
    requires k <= |rest|
    ensures (data + rest)[..k + |data|] == data + rest[..k] && (data + rest)[k + |data|..] == rest[k..]
  {
  }

  /** What a size line decides. */
  lemma DecodeSize(s: string, n: int, r: string)
    requires s != "" && !Overlong(s) && SizeOf(InBuffer(Line(s)), n) && r == AfterLine(s)
    ensures n < 0 ==> Decode(s) == None
    ensures n == 0 ==> Decode(s) == Some(("", SkipTrailers(r)))
    ensures n > 0 ==> Decode(s) == BodyFrom(BODY_CHUNK, n, r)
  {
  }

  lemma StretchDone(rest: string)
    ensures BodyFrom(BODY_LENGTH, 0, rest) == Some(("", rest))
    ensures BodyFrom(BODY_CHUNK, 0, rest) == Decode(AfterLine(rest))
  {
    assert rest[0..] == rest && rest[..0] == "";
    var d := Decode(AfterLine(rest));
    if d.Some? { assert "" + d.value.0 == d.value.0; }
  }

  lemma DeliveredTwice(a: Option<(string, string)>, d: string, b: Option<(string, string)>, e: string, c: Option<(string, string)>)
    requires Delivered(a, d, b) && Delivered(b, e, c)
    ensures Delivered(a, d + e, c)
  {
    if a.Some? { assert d + (e + c.value.0) == (d + e) + c.value.0; }
  }

  class HttpFilter {
    const next: Upstream
    const framing: Framing
    const limit: nat
    var started: bool
    var remaining: int
    var limitUsed: nat
    var state: State
    var eosSent: bool

    constructor (next: Upstream, framing: Framing, limit: nat)
      ensures this.next == next && this.framing == framing && this.limit == limit
      ensures Valid() && !started && (framing.Chunked? ==> Pending() == Decode(next.rest))
    {
      this.next, this.framing, this.limit := next, framing, limit;
      started, remaining, limitUsed, state, eosSent := false, 0, 0, BODY_NONE, false;
    }

    ghost predicate Valid()
      reads this
    {
      && (!started ==> remaining == 0 && limitUsed == 0 && state == BODY_NONE && !eosSent)
      && remaining >= 0 && (started && !eosSent ==> state != BODY_NONE)
      && (limit > 0 && !eosSent ==> limitUsed <= limit)
    }

    /** The body still to be handed out and what follows it upstream; None if it cannot be had. */
    ghost function Pending(): Option<(string, string)>
      reads this, next
      requires Valid()
    {
      if eosSent then Some(("", next.rest))
      else if !started then
        match framing
        case NoBody => Some(("", next.rest))
        case Length(n) => if |next.rest| < n then None else Some((next.rest[..n], next.rest[n..]))
        case Chunked => Decode(next.rest)
        case BadLength => None
      else InBody()
    }

    /** Where the size line is that the next call reads. */
    ghost function SizeLine(): Option<string>
      reads this, next
    {
      if !started then (if framing.Chunked? then Some(next.rest) else None)
      else if !eosSent && state == BODY_CHUNK && remaining == 0 then Some(AfterLine(next.rest)) else None
    }

    ghost function InBody(): Option<(string, string)>
      reads this, next
      requires remaining >= 0
    {
      BodyFrom(state, remaining, next.rest)
    }

    /** Lines 274-298 and 341-366: a chunk line is read; `more` is whether data follows. */
    method ReadSize() returns (status: Status, more: bool)
      requires started && !eosSent && state == BODY_CHUNK && remaining == 0 && (limit > 0 ==> limitUsed <= limit)
      modifies this`remaining, this`state, this`eosSent, next
      ensures Valid()
      ensures more ==> status == Ok && !eosSent && state == BODY_CHUNK && remaining > 0 && InBody() == Decode(old(next.rest))
      ensures !more && (status == Ok || status == TooLarge) ==> eosSent && remaining == 0
      ensures !more && status == Ok ==> Decode(old(next.rest)) == Some(("", next.rest)) && state == BODY_NONE
      ensures status != Ok ==> !more && Decode(old(next.rest)) == None
      ensures status == NoLine <==> old(next.rest) == ""
      ensures status == Overrun <==> Overlong(old(next.rest))
    {
      if next.rest == "" {
        return NoLine, false;
      }
      var line := next.GetLine();
      var r, size := GetChunkSize(InBuffer(line));
      if r == Undefined {
        return Overrun, false;
      }
      remaining := size;
      DecodeSize(old(next.rest), remaining, next.rest);
      if remaining < 0 {
        remaining, eosSent := 0, true;
        return TooLarge, false;
      }
      if remaining == 0 {
        state := BODY_NONE;
        next.GetMimeHeaders();
        eosSent := true;
        return Ok, false;
      }
      return Ok, true;
    }

    /** The headers announce more than the limit allows. */
    predicate DeclaredTooLarge() {
      limit > 0 && framing.Length? && framing.n > limit
    }

    /** Lines 135-299, the first call. `more` is whether the body may hold data. */
    method Start() returns (status: Status, more: bool)
      requires Valid() && !started
      modifies this`started, this`remaining, this`state, this`eosSent, next
      ensures Valid() && started && limitUsed == old(limitUsed)
      ensures more ==> status == Ok && !eosSent && Pending() == old(Pending()) && SizeLine() == None
      ensures !more && (status == Ok || status == TooLarge) ==> eosSent
      ensures !more && status == Ok ==> old(Pending()) == Some(("", next.rest))
      ensures status != Ok ==> !more
      ensures old(Pending()).Some? ==> status == if DeclaredTooLarge() then TooLarge else Ok
      ensures status == Overrun <==> old(SizeLine()).Some? && Overlong(old(SizeLine()).value)
    {
      started := true;
      match framing {
        case NoBody =>
          eosSent := true;
          return Ok, false;
        case Length(n) =>
          state, remaining := BODY_LENGTH, n;
          if limit > 0 && limit < remaining {
            eosSent := true;
            return TooLarge, false;
          }
          return Ok, true;
        case Chunked =>
          state := BODY_CHUNK;
          status, more := ReadSize();
        case BadLength =>
          eosSent := true;
          return TooLarge, false;
      }
    }

    /** Lines 308-370: the end of a length-delimited body, or the next chunk. */
    method Continue() returns (status: Status, more: bool)
      requires Valid() && started && !eosSent
      modifies this`remaining, this`state, this`eosSent, next
      ensures Valid() && started && limitUsed == old(limitUsed)
      ensures more ==> status == Ok && !eosSent && remaining > 0 && Pending() == old(Pending())
      ensures !more && (status == Ok || status == TooLarge) ==> eosSent
      ensures !more && status == Ok ==> old(Pending()) == Some(("", next.rest))
      ensures status != Ok ==> !more && old(Pending()) == None
      ensures status == Overrun <==> old(SizeLine()).Some? && Overlong(old(SizeLine()).value)
    {
      if remaining > 0 {
        return Ok, true;
      }
      StretchDone(next.rest);
      if state == BODY_LENGTH {
        eosSent := true;
        return Ok, false;
      }
      status, more := NextSize();
    }

    /** Lines 323-366: the line end behind a chunk, and the next size line. */
    method NextSize() returns (status: Status, more: bool)
      requires Valid() && started && !eosSent && state == BODY_CHUNK && remaining == 0
      modifies this`remaining, this`state, this`eosSent, next
      ensures Valid()
      ensures more ==> status == Ok && !eosSent && state == BODY_CHUNK && remaining > 0 && InBody() == Decode(AfterLine(old(next.rest)))
      ensures !more && (status == Ok || status == TooLarge) ==> eosSent && remaining == 0
      ensures !more && status == Ok ==> Decode(AfterLine(old(next.rest))) == Some(("", next.rest))
      ensures status != Ok ==> !more && Decode(AfterLine(old(next.rest))) == None
      ensures status == Overrun <==> Overlong(AfterLine(old(next.rest)))
    {
      if next.rest == "" {
        return NoLine, false;
      }
      var line := next.GetLine();
      status, more := ReadSize();
    }

    /** Lines 372-419: data of the present stretch, at most as much as asked for. */
    method Take(readbytes: int) returns (status: Status, data: string)
      requires Valid() && started && !eosSent && remaining > 0 && readbytes > 0
      modifies this`remaining, this`limitUsed, this`eosSent, next
      ensures Valid() && started && state == old(state)
      ensures Delivered(old(InBody()), data, InBody()) && |data| <= readbytes
      ensures old(InBody()).Some? ==> data != ""
      ensures limitUsed == old(limitUsed) + (if limit > 0 then |data| else 0)
      ensures status == if limit > 0 && limitUsed > limit then TooLarge else Ok
      ensures eosSent <==> status == TooLarge
    {
      var n := if remaining < readbytes then remaining else readbytes;
      ghost var was := InBody();
      data := next.ReadBytes(n);
      remaining := remaining - |data|;
      TakenFrom(state, remaining, data, next.rest, was, InBody());
      status := Ok;
      if limit > 0 {
        limitUsed := limitUsed + |data|;
        if limit < limitUsed {
          eosSent := true;
          status := TooLarge;
        }
      }
    }

    /** One call for at most readbytes bytes. Every byte of the body is handed out once and in
        order, whatever the sizes asked for and got; the end is reported when nothing is left. On a
        stream that carries a body the error branch is taken exactly if more is announced than the
        limit allows, or more has come. */
    method Read(readbytes: int) returns (status: Status, data: string, eos: bool)
      requires Valid() && readbytes > 0
      modifies this`started, this`remaining, this`limitUsed, this`state, this`eosSent, next
      ensures Valid() && started
      ensures old(Pending()).Some? && status == Ok ==> Delivered(old(Pending()), data, Pending())
      ensures old(Pending()).Some? && status == Ok ==> |data| <= readbytes && (eos <==> data == "") && (eos ==> eosSent)
      ensures limitUsed == old(limitUsed) + (if limit > 0 then |data| else 0)
      ensures old(Pending()).Some? ==> (status == TooLarge <==>
        !old(eosSent) && ((!old(started) && DeclaredTooLarge()) || (limit > 0 && limitUsed > limit)))
      ensures old(Pending()).Some? ==> |data| <= |old(Pending()).value.0| && (status == Ok || status == TooLarge)
      ensures status == Overrun <==> old(SizeLine()).Some? && Overlong(old(SizeLine()).value)
      ensures status == TooLarge ==> eosSent
      ensures old(eosSent) ==> status == Ok && eos && data == "" && eosSent && next.rest == old(next.rest)
    {
      data, eos := "", false;
      var more := true;
      if !started {
        status, more := Start();
        if !more {
          return status, "", status == Ok;
        }
      }
      if eosSent {
        return Ok, "", true;
      }
      status, more := Continue();
      if !more {
        return status, "", status == Ok;
      }
      status, data := Take(readbytes);
    }
  }

  /** A size line of forty zeros is read behind the end of the buffer it is copied to. */
  method OverlongSize(rest: string) returns (status: Status)
    ensures status == Overrun
  {
    var zeros := seq(40, _ => '0');
    LineOf(zeros, rest);
    ZerosRunOn(InBuffer(zeros + "\n"));
    var next := new Upstream(zeros + "\n" + rest);
    var f := new HttpFilter(next, Chunked, 0);
    var data, eos;
    status, data, eos := f.Read(1);
  }

  /** A line of zeros is too long from thirty of them on. */
  lemma OverlongZeros(zeros: string, rest: string)
    requires forall i :: 0 <= i < |zeros| ==> zeros[i] == '0'
    ensures Overlong(zeros + "\n" + rest) <==> |zeros| >= 30
  {
    LineOf(zeros, rest);
    if |zeros| >= 30 {
      ZerosRunOn(InBuffer(zeros + "\n"));
    } else {
      Delimited(zeros, "\n");
    }
  }

  lemma ZerosRunOn(b: string)
    requires forall i :: 0 <= i < |b| ==> b[i] == '0'
    ensures RunsOn(b)
  {
    SignificantFrom(b, |b|);
  }

  /** Calls the filter with whatever sizes until it reports the end or an error: with a limit the
      body arrives exactly if it is not longer than what is left of the limit. */
  method ReadAll(f: HttpFilter) returns (status: Status, body: string)
    requires f.Valid() && f.Pending().Some?
    modifies f, f.next
    ensures f.Valid() && f.eosSent && (status == Ok || status == TooLarge)
    ensures status == TooLarge <==>
      f.limit > 0 && !old(f.eosSent) && old(f.limitUsed) + |old(f.Pending()).value.0| > f.limit
    ensures status == Ok ==> old(f.Pending()) == Some((body, f.next.rest))
  {
    status, body := Ok, "";
    ghost var all, used, ended := f.Pending(), f.limitUsed, f.eosSent;
    var eos := false;
    while !eos
      invariant f.Valid() && f.Pending().Some? && (eos ==> f.eosSent) && status == Ok
      invariant Delivered(all, body, f.Pending()) && (ended ==> f.eosSent)
      invariant f.limit > 0 ==> f.limitUsed == used + |body| && (!ended ==> f.limitUsed <= f.limit)
      invariant !f.started ==> body == ""
      decreases !eos, |f.Pending().value.0|
    {
      var readbytes: int :| readbytes > 0;
      var data;
      ghost var was := f.Pending();
      status, data, eos := f.Read(readbytes);
      if status == TooLarge {
        return;
      }
      DeliveredTwice(all, body, was, data, f.Pending());
      body := body + data;
    }
    assert body + "" == body;
  }

  /** The bodies of a series of brigades, up to the one that ends the stream. */
  function Bodies(bs: seq<Brigade>): string {
    if bs == [] then "" else Body(bs[0]) + Bodies(bs[1..])
  }

  /** Runs the encoder over a series of well framed brigades, the last of which ends the stream. */
  method EncodeEach(bs: seq<Brigade>) returns (wire: string, ghost chunks: seq<string>)
    requires bs != [] && HasEOS(bs[|bs| - 1]) && forall i :: 0 <= i < |bs| - 1 ==> !HasEOS(bs[i])
    requires forall i :: 0 <= i < |bs| ==> WellFramed(bs[i])
    ensures wire == Encode(chunks) + LAST_CHUNK && Flatten(chunks) == Bodies(bs)
  {
    wire, chunks := "", [];
    var i := 0;
    while i < |bs|
      invariant 0 <= i <= |bs|
      invariant wire == Closing(Encode(chunks), i == |bs|)
      invariant Flatten(chunks) + Bodies(bs[i..]) == Bodies(bs)
    {
      var passed, cs := Filter(bs[i]);
      FlattenConcat(chunks, cs);
      EncodeConcat(chunks, cs);
      Regroup(Flatten(chunks), Body(bs[i]), Bodies(bs[i + 1..]));
      assert bs[i..][1..] == bs[i + 1..];
      ClosingEnd(Encode(chunks), Encode(cs), i == |bs| - 1);
      wire := wire + Sent(passed);
      chunks := chunks + cs;
      i := i + 1;
    }
  }

  /** The same: what goes out is decoded to the bodies, and there is nothing else in it. */
  method EncodeAll(bs: seq<Brigade>) returns (wire: string)
    requires bs != [] && HasEOS(bs[|bs| - 1]) && forall i :: 0 <= i < |bs| - 1 ==> !HasEOS(bs[i])
    requires (forall i :: 0 <= i < |bs| ==> WellFramed(bs[i])) && |Bodies(bs)| < TWO63
    ensures forall after :: Decode(wire + after) == Some((Bodies(bs), after))
  {
    ghost var chunks;
    wire, chunks := EncodeEach(bs);
    forall after ensures Decode(wire + after) == Some((Bodies(bs), after)) {
      WireDecodes(chunks, after);
    }
  }

  /** Encodes a series of well framed brigades, the last of which ends the stream, and reads the result
      back: exactly their body arrives, then the end; what follows in the stream is untouched. */
  method Transfer(bs: seq<Brigade>, after: string) returns (wire: string, body: string, next: Upstream)
    requires bs != [] && HasEOS(bs[|bs| - 1]) && forall i :: 0 <= i < |bs| - 1 ==> !HasEOS(bs[i])
    requires forall i :: 0 <= i < |bs| ==> WellFramed(bs[i])
    requires |Bodies(bs)| < TWO63
    ensures body == Bodies(bs) && next.rest == after
  {
    wire := EncodeAll(bs);
    body, next := Deliver(wire + after, (Bodies(bs), after));
  }

  /** Reads through the filter what any sender may have written. */
  method DeliverAny(cs: seq<WireChunk>, extension: string, fields: seq<string>, rest: string)
    returns (body: string, next: Upstream)
    requires (forall i :: 0 <= i < |cs| ==> WellSized(cs[i])) && Extension(extension)
    requires forall i :: 0 <= i < |fields| ==> fields[i] != "" && '\n' !in fields[i]
    ensures body == AllData(cs) && next.rest == rest
  {
    AnySenderRead(cs, extension, fields, rest);
    body, next := Deliver(AllOnWire(cs) + ("0" + (extension + "\r\n") + (Trailer(fields) + rest)), (AllData(cs), rest));
  }

  /** Reads a chunked stream to its end. */
  method Deliver(stream: string, ghost d: (string, string)) returns (body: string, next: Upstream)
    requires Decode(stream) == Some(d)
    ensures body == d.0 && next.rest == d.1
  {
    next := new Upstream(stream);
    var f := new HttpFilter(next, Chunked, 0);
    var status;
    status, body := ReadAll(f);
  }

  lemma WireDecodes(chunks: seq<string>, after: string)
    requires |Flatten(chunks)| < TWO63
    ensures Decode(Encode(chunks) + LAST_CHUNK + after) == Some((Flatten(chunks), after))
  {
    FlattenBound(chunks);
    RoundTrip(chunks, after);
    Regroup(Encode(chunks), LAST_CHUNK, after);
  }

  lemma {:induction false} FlattenBound(chunks: seq<string>)
    ensures forall i :: 0 <= i < |chunks| ==> |chunks[i]| <= |Flatten(chunks)|
  {
    if chunks != [] { FlattenBound(chunks[1..]); }
  }
}
