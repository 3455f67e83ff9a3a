/** Byte ranges: parse_byterange and ap_byterange_filter (modules/mod_httpd/http_filter.c). A
    brigade is the list of what its buckets hold; buckets that are not data hold nothing. */
module ByteRange {
  import opened Strings
  import opened Wrappers

  // ----- one range -----

  /** strchr */
  function IndexOf(s: string, c: char): (r: Option<nat>)
    ensures r.None? <==> c !in s
    ensures r.Some? ==> r.value < |s| && s[r.value] == c && c !in s[..r.value]
  {
    if s == "" then None
    else if s[0] == c then Some(0)
    else
      match IndexOf(s[1..], c)
      case None => None
      case Some(k) => assert s[..k + 1] == [s[0]] + s[1..][..k]; Some(k + 1)
  }

  /** The results 0, -1 and 1 of parse_byterange. */
  datatype Parsed = NoRange | Unsatisfiable | Satisfiable(start: int, end: int)

  function Clamp(start: int, end: int, clength: nat): Parsed {
    var s := if start < 0 then 0 else start;
    var e := if end >= clength then clength - 1 else end;
    if s > e then Unsatisfiable else if s > 0 || e < clength then Satisfiable(s, e) else NoRange
  }

  /** parse_byterange: a range that is satisfiable lies within the body, and only a word
      without a dash ends the list. */
  function ParseByteRange(range: string, clength: nat): (r: Parsed)
    ensures r.Satisfiable? ==> 0 <= r.start <= r.end < clength
    ensures r.NoRange? <==> '-' !in range
  {
    match IndexOf(range, '-')
    case None => NoRange
    case Some(dash) =>
      if dash == 0 then Clamp(clength - Atoi(range[1..]), clength - 1, clength)
      else
        var last := range[dash + 1..];
        Clamp(Atoi(range[..dash]), if last != "" then Atoi(last) else clength - 1, clength)
  }

  lemma {:induction false} IndexAfter(front: string, c: char, rest: string)
    requires c !in front
    ensures IndexOf(front + [c] + rest, c) == Some(|front|)
  {
    var s := front + [c] + rest;
    if front != "" {
      assert s[1..] == front[1..] + [c] + rest;
      IndexAfter(front[1..], c, rest);
    }
  }

  /** "a-b" asks for the bytes a to b, the first having number 0, as far as there are any
      (section 14.35.1 of RFC 2616). */
  lemma FirstToLast(a: nat, b: nat, clength: nat)
    ensures ParseByteRange(Dec(a) + "-" + Dec(b), clength) ==
      var last := if b < clength then b else clength - 1;
      if a <= last then Satisfiable(a, last) else Unsatisfiable
  {
    var s := Dec(a) + "-" + Dec(b);
    IndexAfter(Dec(a), '-', Dec(b));
    assert s[..|Dec(a)|] == Dec(a) + "" && s[|Dec(a)| + 1..] == Dec(b) + "";
    AtoiDec(a, "");
    AtoiDec(b, "");
  }

  /** "a-" asks for all bytes from a on. */
  lemma FromFirst(a: nat, clength: nat)
    ensures ParseByteRange(Dec(a) + "-", clength) == if a < clength then Satisfiable(a, clength - 1) else Unsatisfiable
  {
    var s := Dec(a) + "-";
    assert s + "" == s;
    IndexAfter(Dec(a), '-', "");
    assert s[..|Dec(a)|] == Dec(a) + "" && s[|Dec(a)| + 1..] == "";
    AtoiDec(a, "");
  }

  /** "-n" asks for the last n bytes, or for all if there are fewer. */
  lemma LastBytes(n: nat, clength: nat)
    ensures ParseByteRange("-" + Dec(n), clength) ==
      if n == 0 || clength == 0 then Unsatisfiable
      else Satisfiable(if n < clength then clength - n else 0, clength - 1)
  {
    var s := "-" + Dec(n);
    assert s[0] == '-' && s[1..] == Dec(n) + "";
    assert IndexOf(s, '-') == Some(0);
    AtoiDec(n, "");
  }

  // ----- the list of ranges -----

  /** ap_getword: the first word, and what is left behind the commas after it. */
  function Word(s: string): string {
    if s == "" || s[0] == ',' then "" else [s[0]] + Word(s[1..])
  }

  function SkipCommas(s: string): (r: string)
    ensures |r| <= |s|
  {
    if s != "" && s[0] == ',' then SkipCommas(s[1..]) else s
  }

  function AfterWord(s: string): (r: string)
    ensures |r| <= |s| && (Word(s) != "" ==> |r| < |s|)
  {
    if s == "" || s[0] == ',' then SkipCommas(s) else AfterWord(s[1..])
  }

  /** The satisfiable ranges, in the order they are asked for, up to a word that is no range.
      Unbounded numbers do for atol's, which are cut off at the largest long: either is past the end. */
  function Ranges(s: string, clength: nat): (rs: seq<(int, int)>)
    ensures forall i :: 0 <= i < |rs| ==> 0 <= rs[i].0 <= rs[i].1 < clength
    decreases |s|
  {
    match ParseByteRange(Word(s), clength)
    case NoRange => []
    case Unsatisfiable => Ranges(AfterWord(s), clength)
    case Satisfiable(a, b) => [(a, b)] + Ranges(AfterWord(s), clength)
  }

  lemma {:induction false} NoComma(s: string)
    requires ',' !in s
    ensures Word(s) == s && AfterWord(s) == ""
  {
    if s != "" { NoComma(s[1..]); }
  }

  /** A header without a comma asks for one range at most. */
  lemma SingleRange(s: string, clength: nat)
    requires ',' !in s
    ensures |Ranges(s, clength)| <= 1
  {
    NoComma(s);
  }

  function Commas(k: nat): string {
    if k == 0 then "" else "," + Commas(k - 1)
  }

  /** Words, each with some commas behind it. */
  function Joined(words: seq<string>, commas: seq<nat>): string
    requires |commas| == |words|
  {
    if words == [] then "" else words[0] + (Commas(commas[0]) + Joined(words[1..], commas[1..]))
  }

  /** Every word could be a range, and there is a comma between any two. */
  ghost predicate RangeList(words: seq<string>, commas: seq<nat>) {
    && |commas| == |words|
    && (forall i :: 0 <= i < |words| ==> '-' in words[i] && ',' !in words[i])
    && forall i :: 0 <= i < |words| - 1 ==> commas[i] > 0
  }

  /** The words that are satisfiable ranges, as such. */
  function SatisfiableOf(words: seq<string>, clength: nat): (rs: seq<(int, int)>)
    ensures forall i :: 0 <= i < |rs| ==> 0 <= rs[i].0 <= rs[i].1 < clength
  {
    if words == [] then []
    else
      var r := ParseByteRange(words[0], clength);
      (if r.Satisfiable? then [(r.start, r.end)] else []) + SatisfiableOf(words[1..], clength)
  }

  lemma {:induction false} CommasSkipped(k: nat, rest: string)
    requires rest == "" || rest[0] != ','
    ensures SkipCommas(Commas(k) + rest) == rest
  {
    if k == 0 {
      NothingAround(rest);
    } else {
      var s := Commas(k) + rest;
      assert s[0] == ',' && s[1..] == Commas(k - 1) + rest;
      CommasSkipped(k - 1, rest);
    }
  }

  lemma {:induction false} FirstWord(word: string, k: nat, rest: string)
    requires ',' !in word && (rest == "" || (k > 0 && rest[0] != ','))
    ensures Word(word + (Commas(k) + rest)) == word && AfterWord(word + (Commas(k) + rest)) == rest
  {
    var s := word + (Commas(k) + rest);
    if word == "" {
      assert s == Commas(k) + rest;
      CommasSkipped(k, rest);
    } else {
      assert s[1..] == word[1..] + (Commas(k) + rest);
      FirstWord(word[1..], k, rest);
    }
  }

  /** The list of ranges ends where `rest` starts: at the end of the header or before a word without
      a dash. */
  ghost predicate ListEnds(words: seq<string>, commas: seq<nat>, rest: string)
    requires |commas| == |words|
  {
    '-' !in Word(rest) && (rest != "" && words != [] ==> rest[0] != ',' && commas[|commas| - 1] > 0)
  }

  /** Of a list of ranges with one or more commas between them, exactly the satisfiable ones are
      answered, in their order, up to a word that is no range. */
  lemma {:induction false} ListOfRanges(words: seq<string>, commas: seq<nat>, rest: string, clength: nat)
    requires RangeList(words, commas) && ListEnds(words, commas, rest)
    ensures Ranges(Joined(words, commas) + rest, clength) == SatisfiableOf(words, clength)
  {
    if words == [] {
      assert Joined(words, commas) + rest == rest;
    } else {
      var more := Joined(words[1..], commas[1..]) + rest;
      JoinedStep(words, commas, rest);
      FirstWord(words[0], commas[0], more);
      ListOfRanges(words[1..], commas[1..], rest, clength);
      RangesStep(Joined(words, commas) + rest, words[0], more, clength);
    }
  }

  /** A list starts with its first word, and what comes behind the commas after it is no comma. */
  lemma JoinedStep(words: seq<string>, commas: seq<nat>, rest: string)
    requires RangeList(words, commas) && words != [] && ListEnds(words, commas, rest)
    ensures var more := Joined(words[1..], commas[1..]) + rest;
      && Joined(words, commas) + rest == words[0] + (Commas(commas[0]) + more)
      && (more != "" ==> commas[0] > 0 && more[0] != ',')
    ensures RangeList(words[1..], commas[1..]) && ListEnds(words[1..], commas[1..], rest)
  {
    var tail := Joined(words[1..], commas[1..]);
    Regroup(Commas(commas[0]), tail, rest);
    Regroup(words[0], Commas(commas[0]) + tail, rest);
    if |words| > 1 {
      assert '-' in words[1];
      assert (tail + rest)[0] == words[1][0] && words[1][0] in words[1];
    } else {
      NothingAround(rest);
    }
  }

  lemma RangesStep(s: string, word: string, more: string, clength: nat)
    requires Word(s) == word && AfterWord(s) == more && '-' in word
    ensures var r := ParseByteRange(word, clength);
      Ranges(s, clength) == (if r.Satisfiable? then [(r.start, r.end)] else []) + Ranges(more, clength)
  {
  }

  // ----- cutting a brigade -----

  /** bb' is bb with a bucket cut in two if need be, so that position `point` of the text is
      where bucket `at` starts; buckets that start before it are where they were. */
  ghost predicate CutAt(bb: seq<string>, bb': seq<string>, at: nat, point: nat) {
    && at <= |bb'| && point <= |Flatten(bb)| && Flatten(bb') == Flatten(bb) && Flatten(bb'[..at]) == Flatten(bb)[..point]
    && forall k :: 0 <= k <= |bb| && |Flatten(bb[..k])| < point ==> k < at && bb'[..k] == bb[..k]
  }

  lemma FlattenTo(bb: seq<string>, i: nat)
    requires i < |bb|
    ensures Flatten(bb[..i + 1]) == Flatten(bb[..i]) + bb[i]
  {
    assert bb[..i + 1] == bb[..i] + [bb[i]];
    FlattenMore(bb[..i], bb[i]);
  }

  lemma FlattenSplit(bb: seq<string>, i: nat)
    requires i <= |bb|
    ensures Flatten(bb) == Flatten(bb[..i]) + Flatten(bb[i..])
  {
    assert bb == bb[..i] + bb[i..];
    FlattenConcat(bb[..i], bb[i..]);
  }

  lemma {:induction false} Shorter(bb: seq<string>, i: nat, k: nat)
    requires i <= k <= |bb|
    ensures |Flatten(bb[..i])| <= |Flatten(bb[..k])|
  {
    assert bb[..k] == bb[..i] + bb[i..k];
    FlattenConcat(bb[..i], bb[i..k]);
  }

  lemma CutBetween(bb: seq<string>, i: nat, point: nat)
    requires i < |bb| && |Flatten(bb[..i + 1])| == point
    ensures CutAt(bb, bb, i + 1, point)
  {
    FlattenSplit(bb, i + 1);
    forall k | 0 <= k <= |bb| && |Flatten(bb[..k])| < point ensures k < i + 1 {
      if k >= i + 1 { Shorter(bb, i + 1, k); }
    }
  }

  lemma CutInside(bb: seq<string>, i: nat, p: nat)
    requires i < |bb| && 0 < p < |bb[i]|
    ensures CutAt(bb, bb[..i] + [bb[i][..p], bb[i][p..]] + bb[i + 1..], i + 1, |Flatten(bb[..i])| + p)
  {
    var left, x, y, right := bb[..i], bb[i][..p], bb[i][p..], bb[i + 1..];
    var bb', point := left + [x, y] + right, |Flatten(bb[..i])| + p;
    FlattenSplit(bb, i + 1);
    FlattenTo(bb, i);
    assert bb'[..i + 1] == left + [x] && bb'[..i] == left;
    FlattenMore(left, x);
    FlattenMore(left + [x], y);
    FlattenConcat(left + [x] + [y], right);
    assert bb' == left + [x] + [y] + right;
    CutText(Flatten(left), bb[i], p, Flatten(right));
    forall k | 0 <= k <= |bb| && |Flatten(bb[..k])| < point ensures k < i + 1 && bb'[..k] == bb[..k] {
      if k >= i + 1 { Shorter(bb, i + 1, k); }
      assert bb'[..k] == left[..k];
    }
  }

  lemma CutText(left: string, s: string, p: nat, right: string)
    requires p <= |s|
    ensures left + s[..p] + s[p..] + right == left + s + right
    ensures (left + s + right)[..|left| + p] == left + s[..p]
  {
  }

  /** apr_brigade_partition */
  method Partition(bb: seq<string>, point: nat) returns (bb': seq<string>, at: nat)
    requires point <= |Flatten(bb)|
    ensures CutAt(bb, bb', at, point)
  {
    if point == 0 {
      return bb, 0;
    }
    var i, p := 0, point;
    assert bb[..|bb|] == bb;
    while true
      invariant 0 <= i <= |bb| && p > 0 && |Flatten(bb[..i])| + p == point
      decreases |bb| - i
    {
      FlattenTo(bb, i);
      var e := bb[i];
      if p < |e| {
        CutInside(bb, i, p);
        return bb[..i] + [e[..p], e[p..]] + bb[i + 1..], i + 1;
      }
      if p == |e| {
        CutBetween(bb, i, point);
        return bb, i + 1;
      }
      p := p - |e|;
      i := i + 1;
    }
  }

  /** Between two cuts lies the text between their positions. */
  lemma BetweenCuts(bb: seq<string>, bb1: seq<string>, ec: nat, start: nat, bb2: seq<string>, e2: nat, end: nat)
    requires CutAt(bb, bb1, ec, start) && CutAt(bb1, bb2, e2, end) && start < end
    ensures ec < e2 && Flatten(bb2[ec..e2]) == Flatten(bb)[start..end]
  {
    assert |Flatten(bb1[..ec])| == start;
    assert bb2[..e2] == bb2[..ec] + bb2[ec..e2];
    FlattenConcat(bb2[..ec], bb2[ec..e2]);
    var body := Flatten(bb);
    assert body[..end] == body[..start] + Flatten(bb2[ec..e2]);
    assert body[..end][start..] == body[start..end];
  }

  // ----- the filter -----

  const CRLF := "\r\n"

  function RangeText(r: (int, int), clength: nat): string
    requires 0 <= r.0 && 0 <= r.1
  {
    Dec(r.0) + "-" + Dec(r.1) + "/" + Dec(clength)
  }

  /** What is to be sent for the ranges of a body. */
  function Answer(body: string, rs: seq<(int, int)>, multi: bool, boundHead: string): string
    requires forall i :: 0 <= i < |rs| ==> 0 <= rs[i].0 <= rs[i].1 < |body|
  {
    if rs == [] then ""
    else
      (if multi then boundHead + (RangeText(rs[0], |body|) + CRLF + CRLF) else "")
      + body[rs[0].0..rs[0].1 + 1] + Answer(body, rs[1..], multi, boundHead)
  }

  datatype Result = Saved | NotSatisfiable | Sent(content: string, contentRange: Option<string>)

  class Filter {
    const range: string
    const boundary: string
    const boundHead: string
    const numRanges: nat
    var bb: seq<string>

    ghost predicate Valid() {
      numRanges == if ',' in range then 2 else 1
    }

    /** Lines 957-989 for a request with a range; ap_set_byterange counts the ranges as one or more. */
    constructor (range: string, boundary: string, contentType: string)
      ensures Valid() && bb == [] && this.range == range && this.boundary == boundary
      ensures boundHead == "\r\n--" + boundary + "\r\nContent-type: " + contentType + "\r\nContent-range: bytes "
    {
      HeadText(boundary, contentType);
      this.range, this.boundary, bb := range, boundary, [];
      boundHead := CRLF + "--" + boundary + CRLF + "Content-type: " + contentType + CRLF + "Content-range: bytes ";
      numRanges := if ',' in range then 2 else 1;
    }

    ghost predicate Multi() {
      ',' in range
    }

    /** The whole answer for a body, a function of nothing else. */
    ghost function AnswerTo(body: string): Result {
      var rs := Ranges(range, |body|);
      if rs == [] then NotSatisfiable
      else if Multi() then Sent(Answer(body, rs, true, boundHead) + (CRLF + "--" + boundary + "--" + CRLF), None)
      else Sent(Answer(body, rs, false, boundHead), Some("bytes " + RangeText(rs[0], |body|)))
    }

    /** Lines 1051-1068: the buckets from ec up to e2 are copied. */
    method CopyBuckets(bb: seq<string>, ec0: nat, e2: nat) returns (copied: string)
      requires ec0 < e2 <= |bb|
      ensures copied == Flatten(bb[ec0..e2])
    {
      copied := bb[ec0];
      var ec := ec0 + 1;
      assert bb[ec0..ec] == [bb[ec0]] && Flatten([bb[ec0]]) == bb[ec0] + [];
      while ec != e2
        invariant ec0 < ec <= e2 && copied == Flatten(bb[ec0..ec])
        decreases e2 - ec
      {
        assert bb[ec0..ec + 1] == bb[ec0..ec] + [bb[ec]];
        FlattenMore(bb[ec0..ec], bb[ec]);
        copied := copied + bb[ec];
        ec := ec + 1;
      }
    }

    /** Lines 1018-1068: one range. */
    method SendRange(bb: seq<string>, r: (int, int)) returns (bb': seq<string>, text: string)
      requires 0 <= r.0 <= r.1 < |Flatten(bb)|
      ensures Flatten(bb') == Flatten(bb) && text == Flatten(bb)[r.0..r.1 + 1]
    {
      var bb1, ec := Partition(bb, r.0);
      var bb2, e2 := Partition(bb1, r.1 + 1);
      BetweenCuts(bb, bb1, ec, r.0, bb2, e2, r.1 + 1);
      bb' := bb2;
      text := CopyBuckets(bb2, ec, e2);
    }

    /** How far the ranges have been dealt with when `now` are still to come. */
    ghost predicate Progress(body: string, now: seq<(int, int)>, bsend: string, found: bool, contentRange: Option<string>) {
      var rs := Ranges(range, |body|);
      && (forall i :: 0 <= i < |now| ==> 0 <= now[i].0 <= now[i].1 < |body|)
      && bsend + Answer(body, now, Multi(), boundHead) == Answer(body, rs, Multi(), boundHead)
      && (!found ==> now == rs && contentRange == None)
      && (found ==> rs != [] && |now| < |rs|)
      && (found ==> contentRange == (if Multi() then None else Some("bytes " + RangeText(rs[0], |body|))))
    }

    /** Lines 1018-1068: one satisfiable range, the next to come. */
    method Next(bb: seq<string>, r: (int, int), clength: nat, bsend0: string, found0: bool, contentRange0: Option<string>,
                ghost now: seq<(int, int)>)
      returns (bb': seq<string>, bsend: string, contentRange: Option<string>)
      requires Valid() && clength == |Flatten(bb)| && now != [] && now[0] == r
      requires Progress(Flatten(bb), now, bsend0, found0, contentRange0)
      ensures Flatten(bb') == Flatten(bb) && Progress(Flatten(bb), now[1..], bsend, true, contentRange)
    {
      var head, text := "", "";
      contentRange := contentRange0;
      bb', text := SendRange(bb, r);
      if numRanges == 1 {
        SingleRange(range, clength);
        contentRange := Some("bytes " + RangeText(r, clength));
      } else {
        head := boundHead + (RangeText(r, clength) + CRLF + CRLF);
      }
      AnswerOne(Flatten(bb), now, Multi(), boundHead, bsend0, head, text);
      bsend := bsend0 + head + text;
    }

    /** Lines 1012-1069. */
    method SendRanges(bb0: seq<string>) returns (bsend: string, found: bool, contentRange: Option<string>)
      requires Valid()
      ensures Progress(Flatten(bb0), [], bsend, found, contentRange)
    {
      ghost var body := Flatten(bb0);
      var clength := |Flatten(bb0)|;
      var bb, rest := bb0, range;
      bsend, found, contentRange := "", false, None;
      ghost var now := Ranges(rest, clength);
      while true
        invariant Flatten(bb) == body && now == Ranges(rest, clength)
        invariant Progress(body, now, bsend, found, contentRange)
        decreases |rest|
      {
        var current := Word(rest);
        var r := ParseByteRange(current, clength);
        if r.NoRange? {
          break;
        }
        rest := AfterWord(rest);
        if r.Satisfiable? {
          bb, bsend, contentRange := Next(bb, (r.start, r.end), clength, bsend, found, contentRange, now);
          found := true;
        }
        now := Ranges(rest, clength);
      }
    }

    /** One call. Nothing is sent before the end of the stream; then what is sent answers the ranges
        asked for from the body of all calls, however it was cut into brigades and buckets. */
    method Call(brigade: seq<string>, eos: bool) returns (r: Result)
      requires Valid()
      modifies this
      ensures !eos ==> r == Saved && Flatten(bb) == old(Flatten(bb)) + Flatten(brigade)
      ensures eos ==> r == AnswerTo(old(Flatten(bb)) + Flatten(brigade))
    {
      FlattenConcat(bb, brigade);
      bb := bb + brigade;
      if !eos {
        return Saved;
      }
      var bsend, found, contentRange := SendRanges(bb);
      assert bsend + "" == bsend;
      if !found {
        return NotSatisfiable;
      }
      if numRanges > 1 {
        bsend := bsend + (CRLF + "--" + boundary + "--" + CRLF);
      }
      return Sent(bsend, contentRange);
    }
  }

  lemma AnswerOne(body: string, rs: seq<(int, int)>, multi: bool, boundHead: string, before: string, head: string, text: string)
    requires rs != [] && forall i :: 0 <= i < |rs| ==> 0 <= rs[i].0 <= rs[i].1 < |body|
    requires head == (if multi then boundHead + (RangeText(rs[0], |body|) + CRLF + CRLF) else "")
    requires text == body[rs[0].0..rs[0].1 + 1]
    ensures before + Answer(body, rs, multi, boundHead) == before + head + text + Answer(body, rs[1..], multi, boundHead)
  {
    var rest := Answer(body, rs[1..], multi, boundHead);
    Regroup(before, head, text);
    Regroup(before, head + text, rest);
  }

  /** The answer to a single range, a part of a multipart answer, and its last boundary. */
  function Alone(r: (int, int), body: string): Result
    requires 0 <= r.0 <= r.1 < |body|
  {
    Sent(body[r.0..r.1 + 1], Some("bytes " + RangeText(r, |body|)))
  }

  function Part(head: string, r: (int, int), body: string): string
    requires 0 <= r.0 <= r.1 < |body|
  {
    head + (RangeText(r, |body|) + "\r\n\r\n") + body[r.0..r.1 + 1]
  }

  function Ending(boundary: string): string {
    "\r\n--" + boundary + "--\r\n"
  }

  /** A list of ranges is answered by the satisfiable ones among its words. */
  lemma ListAnswered(f: Filter, words: seq<string>, commas: seq<nat>, rest: string, body: string)
    requires RangeList(words, commas) && ListEnds(words, commas, rest) && f.range == Joined(words, commas) + rest
    ensures var rs := SatisfiableOf(words, |body|);
      && (rs == [] ==> f.AnswerTo(body) == NotSatisfiable)
      && (rs != [] && ',' in f.range ==>
            f.AnswerTo(body) == Sent(Answer(body, rs, true, f.boundHead) + Ending(f.boundary), None))
      && (rs != [] && ',' !in f.range ==>
            f.AnswerTo(body) == Alone(rs[0], body))
  {
    var rs := SatisfiableOf(words, |body|);
    ListOfRanges(words, commas, rest, |body|);
    RangesAnswered(f, rs, body);
  }

  lemma RangesAnswered(f: Filter, rs: seq<(int, int)>, body: string)
    requires rs == Ranges(f.range, |body|)
    ensures rs == [] ==> f.AnswerTo(body) == NotSatisfiable
    ensures rs != [] && ',' in f.range ==>
      f.AnswerTo(body) == Sent(Answer(body, rs, true, f.boundHead) + Ending(f.boundary), None)
    ensures rs != [] && ',' !in f.range ==>
      f.AnswerTo(body) == Alone(rs[0], body)
  {
    if rs != [] && ',' !in f.range {
      SingleRange(f.range, |body|);
      OneAnswer(body, rs, f.boundHead);
    } else {
      LastBoundary(f.boundary);
    }
  }

  lemma HeadText(boundary: string, contentType: string)
    ensures CRLF + "--" + boundary + CRLF + "Content-type: " + contentType + CRLF + "Content-range: bytes "
      == "\r\n--" + boundary + "\r\nContent-type: " + contentType + "\r\nContent-range: bytes "
  {
    assert CRLF + "--" == "\r\n--" && CRLF + "Content-type: " == "\r\nContent-type: ";
    assert CRLF + "Content-range: bytes " == "\r\nContent-range: bytes ";
    Regroup("\r\n--" + boundary, CRLF, "Content-type: ");
    Regroup("\r\n--" + boundary + "\r\nContent-type: " + contentType, CRLF, "Content-range: bytes ");
  }

  lemma LastBoundary(boundary: string)
    ensures CRLF + "--" + boundary + "--" + CRLF == Ending(boundary)
  {
    assert CRLF + "--" == "\r\n--" && "--" + CRLF == "--\r\n";
    Regroup("\r\n--" + boundary, "--", CRLF);
  }

  lemma OneAnswer(body: string, rs: seq<(int, int)>, head: string)
    requires |rs| == 1 && 0 <= rs[0].0 <= rs[0].1 < |body|
    ensures Answer(body, rs, false, head) == body[rs[0].0..rs[0].1 + 1]
  {
    assert rs[1..] == [];
    var part := body[rs[0].0..rs[0].1 + 1];
    NothingAround(part);
  }

  lemma SmallNumbers()
    ensures Dec(0) == "0" && Dec(4) == "4" && Dec(20) == "20"
  {
    assert Dec(2) == "2";
  }

  lemma RangeTextLiteral()
    ensures RangeText((0, 4), 20) == "0-4/20"
  {
    SmallNumbers();
  }

  /** The header of a part names its first and its last byte and the length of the body. */
  lemma RangeTextReads(a: nat, b: nat, n: nat)
    ensures RangeText((a, b), n) == Dec(a) + ("-" + (Dec(b) + "/" + Dec(n)))
    ensures Atoi(RangeText((a, b), n)) == a && Atoi(Dec(b) + "/" + Dec(n)) == b
  {
    var d, e, l := Dec(a), Dec(b), Dec(n);
    Regroup(e, "/", l);
    Regroup(d, "-", e + "/" + l);
    Regroup(d + "-", e + "/", l);
    Regroup(d + "-", e, "/");
    AtoiDec(a, "-" + (e + "/" + l));
    AtoiDec(b, "/" + l);
  }

  /** Two ranges within the body are answered by two parts, each behind its own header. */
  lemma TwoParts(f: Filter, a: nat, b: nat, c: nat, d: nat, body: string)
    requires f.range == (Dec(a) + "-" + Dec(b)) + "," + (Dec(c) + "-" + Dec(d))
    requires a <= b < |body| && c <= d < |body|
    ensures f.AnswerTo(body) == Sent(
      Part(f.boundHead, (a, b), body) + Part(f.boundHead, (c, d), body) + Ending(f.boundary), None)
  {
    Within(a, b, |body|);
    Within(c, d, |body|);
    TwoWordsAnswered(f, Dec(a) + "-" + Dec(b), Dec(c) + "-" + Dec(d), (a, b), (c, d), body);
    TwoAnswers(body, (a, b), (c, d), f.boundHead);
  }

  lemma Within(a: nat, b: nat, n: nat)
    requires a <= b < n
    ensures var w := Dec(a) + "-" + Dec(b); ',' !in w && ParseByteRange(w, n) == Satisfiable(a, b)
  {
    FirstToLast(a, b, n);
  }

  lemma TwoWordsAnswered(f: Filter, w: string, v: string, r: (int, int), q: (int, int), body: string)
    requires f.range == w + "," + v && ',' !in w && ',' !in v
    requires ParseByteRange(w, |body|) == Satisfiable(r.0, r.1) && ParseByteRange(v, |body|) == Satisfiable(q.0, q.1)
    ensures f.AnswerTo(body) == Sent(Answer(body, [r, q], true, f.boundHead) + Ending(f.boundary), None)
  {
    var words, commas := [w, v], [1, 0];
    TwoWords(w, v);
    NothingAround(f.range);
    ListAnswered(f, words, commas, "", body);
    TwoSatisfiable(w, v, |body|, r, q);
    assert f.range[|w|] == ',';
  }

  lemma TwoWords(w: string, v: string)
    requires '-' in w && '-' in v && ',' !in w && ',' !in v
    ensures Joined([w, v], [1, 0]) == w + "," + v
    ensures RangeList([w, v], [1, 0]) && ListEnds([w, v], [1, 0], "")
  {
    var ks: seq<nat> := [1, 0];
    assert [w, v][1..] == [v] && ks[1..] == [0] && [v][1..] == [] && ks[1..][1..] == [];
    assert Commas(0) == "" && Commas(1) == "," + "";
    assert Joined([v], [0]) == v + ("" + "");
  }

  lemma TwoSatisfiable(w: string, v: string, n: nat, r: (int, int), q: (int, int))
    requires ParseByteRange(w, n) == Satisfiable(r.0, r.1) && ParseByteRange(v, n) == Satisfiable(q.0, q.1)
    ensures SatisfiableOf([w, v], n) == [r, q]
  {
    assert [w, v][1..] == [v] && [v][1..] == [];
    assert SatisfiableOf([v], n) == [q] + [];
  }

  lemma TwoAnswers(body: string, r: (int, int), q: (int, int), head: string)
    requires 0 <= r.0 <= r.1 < |body| && 0 <= q.0 <= q.1 < |body|
    ensures Answer(body, [r, q], true, head) == Part(head, r, body) + Part(head, q, body)
  {
    assert [r, q][1..] == [q] && [q][1..] == [];
    FirstPart(body, [r, q], head);
    FirstPart(body, [q], head);
    NothingAround(Part(head, q, body));
  }

  lemma FirstPart(body: string, rs: seq<(int, int)>, head: string)
    requires rs != [] && forall i :: 0 <= i < |rs| ==> 0 <= rs[i].0 <= rs[i].1 < |body|
    ensures Answer(body, rs, true, head) == Part(head, rs[0], body) + Answer(body, rs[1..], true, head)
  {
    BlankLine(RangeText(rs[0], |body|));
  }

  lemma BlankLine(text: string)
    ensures text + CRLF + CRLF == text + "\r\n\r\n"
  {
    assert CRLF + CRLF == "\r\n\r\n";
    Regroup(text, CRLF, CRLF);
  }

  /** A whole body, in whatever brigades and buckets it comes. */
  method Serve(f: Filter, brigades: seq<seq<string>>) returns (r: Result)
    requires f.Valid() && f.bb == [] && brigades != []
    modifies f
    ensures r == f.AnswerTo(Flatten(Flatten(brigades)))
  {
    var last := |brigades| - 1;
    var i := 0;
    while i < last
      invariant 0 <= i <= last && Flatten(f.bb) == Flatten(Flatten(brigades[..i]))
    {
      assert brigades[..i + 1] == brigades[..i] + [brigades[i]];
      FlattenMore(brigades[..i], brigades[i]);
      FlattenConcat(Flatten(brigades[..i]), brigades[i]);
      r := f.Call(brigades[i], false);
      i := i + 1;
    }
    assert brigades == brigades[..last] + [brigades[last]];
    FlattenMore(brigades[..last], brigades[last]);
    FlattenConcat(Flatten(brigades[..last]), brigades[last]);
    r := f.Call(brigades[last], true);
  }
}
