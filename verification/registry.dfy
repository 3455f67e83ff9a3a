/** Saving registries as text and restoring them (common/registry.c). */
module Registry {
  import opened Strings
  import opened Wrappers

  const CHUNK: nat := 4
  const SHORT_STRING_SIZE: nat := 64

  // ----- bytes in hexadecimal -----

  function HexChar(x: nat): char
    requires x < 16
  {
    if x < 10 then ('0' as int + x) as char else ('A' as int + (x - 10)) as char
  }

  /** bin2hex */
  function BinToHex(b: seq<byte>): (s: string)
    ensures |s| == 2 * |b|
  {
    if b == [] then "" else BinToHex(b[..|b| - 1]) + [HexChar(b[|b| - 1] / 16), HexChar(b[|b| - 1] % 16)]
  }

  /** The table of hex2bin: what each character from '0' on stands for. */
  function Ascii(k: nat): (x: nat)
    ensures x < 16
  {
    if k <= 9 then k else if 17 <= k <= 22 then k - 7 else if 49 <= k <= 54 then k - 39 else 0
  }

  function Nibble(c: char): (x: nat)
    ensures x < 16
  {
    if c < '0' || c > 'f' then 0 else Ascii(c as int - '0' as int)
  }

  /** hex2bin */
  function HexToBin(s: string): (b: seq<byte>)
    ensures |b| == |s| / 2
  {
    if |s| < 2 then [] else [16 * Nibble(s[0]) + Nibble(s[1])] + HexToBin(s[2..])
  }

  lemma {:induction false} HexRoundTrip(b: seq<byte>, rest: string)
    ensures HexToBin(BinToHex(b) + rest) == b + HexToBin(rest)
    decreases |b|
  {
    if b == [] {
      assert BinToHex(b) + rest == rest;
    } else {
      var x, front := b[|b| - 1], b[..|b| - 1];
      var pair := [HexChar(x / 16), HexChar(x % 16)];
      HexRoundTrip(front, pair + rest);
      HexPair(x, rest);
      assert BinToHex(b) + rest == BinToHex(front) + (pair + rest);
      assert b + HexToBin(rest) == front + ([x] + HexToBin(rest));
    }
  }

  lemma HexPair(x: byte, rest: string)
    ensures HexToBin([HexChar(x / 16), HexChar(x % 16)] + rest) == [x] + HexToBin(rest)
  {
    var pair := [HexChar(x / 16), HexChar(x % 16)];
    NibbleOfHexChar(x / 16);
    NibbleOfHexChar(x % 16);
    assert (pair + rest)[2..] == rest;
  }

  lemma NibbleOfHexChar(x: nat)
    requires x < 16
    ensures Nibble(HexChar(x)) == x
  {
  }

  /** The digits written are the upper case ones; either case is read. */
  lemma HexDigits(x: nat)
    requires x < 16
    ensures HexChar(x) == "0123456789ABCDEF"[x]
    ensures Nibble("0123456789ABCDEF"[x]) == x && Nibble("0123456789abcdef"[x]) == x
  {
  }

  /** Any other character counts as zero. */
  lemma NoHexDigit(c: char)
    ensures Nibble(c) == 0 || c in "0123456789ABCDEF" || c in "0123456789abcdef"
  {
    var upper, lower := "0123456789ABCDEF", "0123456789abcdef";
    if '0' <= c <= '9' {
      assert upper[c as int - '0' as int] == c;
    } else if 'A' <= c <= 'F' {
      assert upper[c as int - 'A' as int + 10] == c;
    } else if 'a' <= c <= 'f' {
      assert lower[c as int - 'a' as int + 10] == c;
    }
  }

  lemma DigitInEitherCase(x: nat, c: char)
    requires x < 16 && SameLetter(HexChar(x), c)
    ensures Nibble(c) == x
  {
  }

  /** Bytes are read from hexadecimal digits in either case. */
  lemma {:induction false} HexInEitherCase(b: seq<byte>, s: string)
    requires SameName(BinToHex(b), s)
    ensures HexToBin(s) == b
  {
    if b == [] {
      assert HexToBin("") == [];
    } else {
      var front, x, t, pair := b[..|b| - 1], b[|b| - 1], s[..|s| - 2], s[|s| - 2..];
      LastByte(b, s);
      HexInEitherCase(front, t);
      PairInEitherCase(x, pair);
      HexJoin(t, pair);
      assert s == t + pair && b == front + [x];
    }
  }

  lemma LastByte(b: seq<byte>, s: string)
    requires b != [] && SameName(BinToHex(b), s)
    ensures SameName(BinToHex(b[..|b| - 1]), s[..|s| - 2])
    ensures SameName([HexChar(b[|b| - 1] / 16), HexChar(b[|b| - 1] % 16)], s[|s| - 2..])
  {
    var pair := [HexChar(b[|b| - 1] / 16), HexChar(b[|b| - 1] % 16)];
    SplitName(BinToHex(b[..|b| - 1]), pair, s);
  }

  lemma SplitName(front: string, back: string, s: string)
    requires SameName(front + back, s)
    ensures SameName(front, s[..|front|]) && SameName(back, s[|front|..])
  {
    forall i | 0 <= i < |front| ensures SameLetter(front[i], s[i]) {
      assert (front + back)[i] == front[i];
    }
    forall i | 0 <= i < |back| ensures SameLetter(back[i], s[|front| + i]) {
      assert (front + back)[|front| + i] == back[i];
    }
  }

  lemma PairInEitherCase(x: byte, pair: string)
    requires SameName([HexChar(x / 16), HexChar(x % 16)], pair)
    ensures HexToBin(pair) == [x]
  {
    var written := [HexChar(x / 16), HexChar(x % 16)];
    assert SameLetter(written[0], pair[0]) && SameLetter(written[1], pair[1]);
    DigitInEitherCase(x / 16, pair[0]);
    DigitInEitherCase(x % 16, pair[1]);
    assert HexToBin(pair[2..]) == [];
  }

  lemma {:induction false} HexJoin(s: string, t: string)
    requires |s| % 2 == 0
    ensures HexToBin(s + t) == HexToBin(s) + HexToBin(t)
    decreases |s|
  {
    if s == "" {
      assert s + t == t;
    } else {
      assert (s + t)[2..] == s[2..] + t;
      HexJoin(s[2..], t);
      Regroup([16 * Nibble(s[0]) + Nibble(s[1])], HexToBin(s[2..]), HexToBin(t));
    }
  }

  // ----- words of a line -----

  predicate IsDelim(c: char) {
    c == ' ' || c == '\t'
  }

  /** The part of s before its first delimiter. */
  function Word(s: string): (w: string)
    ensures w <= s && (forall c :: c in w ==> !IsDelim(c)) && (|w| < |s| ==> IsDelim(s[|w|]))
  {
    if s == "" || IsDelim(s[0]) then "" else [s[0]] + Word(s[1..])
  }

  /** The words strtok finds one after the other. */
  function Tokens(s: string): seq<string>
    decreases |s|
  {
    if s == "" then []
    else if IsDelim(s[0]) then Tokens(s[1..])
    else [Word(s)] + Tokens(s[|Word(s)|..])
  }

  ghost predicate Plain(w: string) {
    w != "" && forall c :: c in w ==> !IsDelim(c)
  }

  lemma {:induction false} WordOf(w: string, rest: string)
    requires (forall c :: c in w ==> !IsDelim(c)) && (rest != "" ==> IsDelim(rest[0]))
    ensures Word(w + rest) == w
  {
    if w == "" {
      assert w + rest == rest;
    } else {
      assert (w + rest)[1..] == w[1..] + rest;
      WordOf(w[1..], rest);
    }
  }

  lemma TokensOf(w: string, rest: string)
    requires Plain(w) && (rest != "" ==> IsDelim(rest[0]))
    ensures Tokens(w + rest) == [w] + Tokens(rest)
  {
    WordOf(w, rest);
    assert (w + rest)[|w|..] == rest;
    assert !IsDelim((w + rest)[0]) by { assert w[0] in w; }
  }

  ghost predicate Blank(gap: string) {
    forall i :: 0 <= i < |gap| ==> gap[i] in " \t"
  }

  /** Words with blanks and tabs before each. */
  function Spread(words: seq<string>, gaps: seq<string>): string
    requires |gaps| == |words|
  {
    if words == [] then "" else gaps[0] + (words[0] + Spread(words[1..], gaps[1..]))
  }

  lemma {:induction false} TokensBehind(gap: string, s: string)
    requires Blank(gap)
    ensures Tokens(gap + s) == Tokens(s)
  {
    if gap == "" {
      assert gap + s == s;
    } else {
      assert gap[0] in " \t" && (gap + s)[1..] == gap[1..] + s;
      TokensBehind(gap[1..], s);
    }
  }

  /** A line may be written with any blanks and tabs between its words. */
  lemma {:induction false} WordsOfLine(words: seq<string>, gaps: seq<string>, end: string)
    requires |gaps| == |words| && Blank(end)
    requires forall i :: 0 <= i < |words| ==> Plain(words[i]) && Blank(gaps[i]) && (i > 0 ==> gaps[i] != "")
    ensures Tokens(Spread(words, gaps) + end) == words
  {
    if words == [] {
      NothingAround(end);
      TokensBehind(end, "");
    } else {
      var rest := Spread(words[1..], gaps[1..]) + end;
      Regroup(words[0], Spread(words[1..], gaps[1..]), end);
      Regroup(gaps[0], words[0] + Spread(words[1..], gaps[1..]), end);
      TokensBehind(gaps[0], words[0] + rest);
      StartsBlank(words[1..], gaps[1..], end);
      TokensOf(words[0], rest);
      WordsOfLine(words[1..], gaps[1..], end);
    }
  }

  lemma StartsBlank(words: seq<string>, gaps: seq<string>, end: string)
    requires |gaps| == |words| && Blank(end) && (words != [] ==> Blank(gaps[0]) && gaps[0] != "")
    ensures var s := Spread(words, gaps) + end; s != "" ==> IsDelim(s[0])
  {
    if words == [] {
      NothingAround(end);
      assert end != "" ==> end[0] in " \t";
    } else {
      assert gaps[0][0] in " \t";
    }
  }

  // ----- what is saved -----

  /** A registry: its module, its name, whether it is persistent, its data. */
  datatype Reg = Reg(mod: string, name: string, save: bool, data: seq<byte>)

  const LINE_BYTES: nat := 24

  /** Up to one line of data: four bytes to a word, each word after a blank. */
  function Words(d: seq<byte>): string {
    if |d| <= CHUNK then (if d == [] then "" else " " + BinToHex(d))
    else " " + BinToHex(d[..CHUNK]) + Words(d[CHUNK..])
  }

  const WRAP := " \\\n"

  /** The data lines without their last line end. */
  function DataText(d: seq<byte>): string {
    if |d| <= LINE_BYTES then Words(d)
    else Words(d[..LINE_BYTES]) + WRAP + DataText(d[LINE_BYTES..])
  }

  function Header(r: Reg): string {
    r.mod + (" " + (r.name + (" " + (Dec(|r.data|) + WRAP))))
  }

  function Saved(r: Reg): string {
    if r.save then Header(r) + (DataText(r.data) + "\n") else ""
  }

  function SavedAll(rs: seq<Reg>): string {
    if rs == [] then "" else Saved(rs[0]) + SavedAll(rs[1..])
  }

  /** Five bytes as they are saved: the header, a word of four bytes, a word of one. */
  lemma SavedExample(r: Reg)
    requires r.save && r.data == [0x12, 0xAB, 0x00, 0x0F, 0x30]
    ensures Saved(r) == r.mod + (" " + (r.name + (" " + "5 \\\n"))) + (" 12AB000F 30" + "\n")
  {
    OneDigit(5);
    FiveSize();
    WordsExample(r.data);
  }

  lemma FiveSize()
    ensures "5" + WRAP == "5 \\\n"
  {
  }

  lemma WordsExample(d: seq<byte>)
    requires d == [0x12, 0xAB, 0x00, 0x0F, 0x30]
    ensures DataText(d) == " 12AB000F 30"
  {
    var word, last := d[..CHUNK], d[CHUNK..];
    assert word == [0x12, 0xAB, 0x00, 0x0F] && last == [0x30];
    FourBytes(0x12, 0xAB, 0x00, 0x0F);
    OneByte(0x30);
    HexOfExample();
    WordsStep(d);
    TwoWordsText();
  }

  lemma TwoWordsText()
    ensures (" " + "12AB000F") + (" " + "30") == " 12AB000F 30"
  {
  }

  lemma OneByte(a: byte)
    ensures BinToHex([a]) == [HexChar(a / 16), HexChar(a % 16)]
  {
    assert [a][..0] == [];
    NothingAround([HexChar(a / 16), HexChar(a % 16)]);
  }

  lemma HexOfExample()
    ensures [HexChar(1), HexChar(2), HexChar(10), HexChar(11), HexChar(0), HexChar(0), HexChar(0), HexChar(15)] == "12AB000F"
    ensures [HexChar(3), HexChar(0)] == "30"
  {
  }

  lemma FourBytes(a: byte, b: byte, c: byte, d: byte)
    ensures BinToHex([a, b, c, d]) == [HexChar(a / 16), HexChar(a % 16), HexChar(b / 16), HexChar(b % 16),
      HexChar(c / 16), HexChar(c % 16), HexChar(d / 16), HexChar(d % 16)]
  {
    var s := [a, b, c, d];
    assert s[..3] == [a, b, c] && s[..3][..2] == [a, b] && [a, b][..1] == [a] && [a][..0] == [];
    assert BinToHex([a]) == "" + [HexChar(a / 16), HexChar(a % 16)];
    assert BinToHex([a, b]) == BinToHex([a]) + [HexChar(b / 16), HexChar(b % 16)];
    assert BinToHex([a, b, c]) == BinToHex([a, b]) + [HexChar(c / 16), HexChar(c % 16)];
  }

  lemma Join(a: string, b: string, c: string)
    ensures a + (b + c) == a + b + c && a + "" == a && "" + a == a
  {
  }

  lemma WordsStep(d: seq<byte>)
    requires |d| >= CHUNK
    ensures Words(d) == (" " + BinToHex(d[..CHUNK])) + Words(d[CHUNK..])
  {
    if |d| == CHUNK {
      assert d[..CHUNK] == d;
      Join(" " + BinToHex(d), "", "");
    }
  }

  lemma {:induction false} WordsMore(d: seq<byte>, c: seq<byte>)
    requires |d| % CHUNK == 0 && 0 < |c| <= CHUNK
    ensures Words(d + c) == Words(d) + (" " + BinToHex(c))
    decreases |d|
  {
    if d == [] {
      assert d + c == c;
      Join(" " + BinToHex(c), "", "");
    } else {
      assert (d + c)[..CHUNK] == d[..CHUNK] && (d + c)[CHUNK..] == d[CHUNK..] + c;
      WordsMore(d[CHUNK..], c);
      WordsStep(d + c);
      WordsStep(d);
      Join(" " + BinToHex(d[..CHUNK]), Words(d[CHUNK..]), " " + BinToHex(c));
    }
  }

  /** What goes before a further word: a new line exactly when the present one holds six. */
  function Gap(d: seq<byte>): string {
    if |d| % LINE_BYTES == 0 && d != [] then WRAP else ""
  }

  lemma DataTextLine(d: seq<byte>)
    requires |d| > LINE_BYTES
    ensures DataText(d) == Words(d[..LINE_BYTES]) + WRAP + DataText(d[LINE_BYTES..])
  {
  }

  lemma Join4(a: string, b: string, c: string, d: string)
    ensures a + (b + c + d) == (a + b) + c + d
  {
  }

  lemma DataTextShort(d: seq<byte>, c: seq<byte>, w: string)
    requires |d| % CHUNK == 0 && 0 < |c| <= CHUNK && |d| < LINE_BYTES && w == Words(d + c)
    ensures DataText(d + c) == w && DataText(d) == Words(d) && Gap(d) == ""
  {
    Multiples(|d|);
    DataTextOneLine(d);
    DataTextOneLine(d + c);
  }

  lemma Multiples(n: nat)
    requires n % 4 == 0 && n < 24
    ensures n <= 20 && (n % 24 == 0 ==> n == 0)
  {
  }

  lemma DataTextOneLine(d: seq<byte>)
    requires |d| <= LINE_BYTES
    ensures DataText(d) == Words(d)
  {
  }

  lemma DataTextFull(d: seq<byte>, c: seq<byte>)
    requires |d| == LINE_BYTES && 0 < |c| <= CHUNK
    ensures DataText(d + c) == DataText(d) + WRAP + (" " + BinToHex(c)) && Gap(d) == WRAP
  {
    assert (d + c)[..LINE_BYTES] == d && (d + c)[LINE_BYTES..] == c;
    DataTextLine(d + c);
  }

  lemma {:induction false} DataTextMore(d: seq<byte>, c: seq<byte>)
    requires |d| % CHUNK == 0 && 0 < |c| <= CHUNK
    ensures DataText(d + c) == DataText(d) + Gap(d) + (" " + BinToHex(c))
    decreases |d|
  {
    if |d| < LINE_BYTES {
      WordsMore(d, c);
      DataTextShort(d, c, Words(d) + (" " + BinToHex(c)));
      Join(DataText(d), "", "");
    } else if |d| == LINE_BYTES {
      DataTextFull(d, c);
    } else {
      DataTextMore(d[LINE_BYTES..], c);
      DataTextLong(d, c, " " + BinToHex(c));
    }
  }

  lemma DataTextLong(d: seq<byte>, c: seq<byte>, w: string)
    requires |d| > LINE_BYTES && DataText(d[LINE_BYTES..] + c) == DataText(d[LINE_BYTES..]) + Gap(d[LINE_BYTES..]) + w
    ensures DataText(d + c) == DataText(d) + Gap(d) + w
  {
    var line, rest := d[..LINE_BYTES], d[LINE_BYTES..];
    assert (d + c)[..LINE_BYTES] == line && (d + c)[LINE_BYTES..] == rest + c;
    DataTextLine(d + c);
    DataTextLine(d);
    GapLine(d);
    LineJoin(Words(line) + WRAP, DataText(rest), Gap(d), w, DataText(d), DataText(d + c));
  }

  lemma GapLine(d: seq<byte>)
    requires |d| > LINE_BYTES
    ensures Gap(d[LINE_BYTES..]) == Gap(d)
  {
    assert |d[LINE_BYTES..]| == |d| - LINE_BYTES;
  }

  lemma LineJoin(line: string, text: string, gap: string, w: string, all: string, more: string)
    requires all == line + text && more == line + (text + gap + w)
    ensures more == all + gap + w
  {
    Join4(line, text, gap, w);
  }

  /** Lines 319-339: the data of one registry. */
  method SaveData(d: seq<byte>) returns (out: string)
    ensures out == DataText(d) + "\n"
  {
    out := "";
    var j, len := 0, 0;
    ghost var done, k := [], 0;
    while j < |d|
      invariant j == CHUNK * k && |done| == (if j < |d| then j else |d|) && done <= d
      invariant out == DataText(done)
      invariant len == if k == 0 then 0 else 9 * ((k - 1) % 6 + 1)
      decreases |d| - j
    {
      var n := if CHUNK > |d| - j then |d| - j else CHUNK;
      var c := d[j..j + n];
      LineFull(k, len);
      out, len := SaveChunk(out, len, c, done);
      done, k := done + c, k + 1;
      j := j + CHUNK;
    }
    assert done == d;
    out := out + "\n";
  }

  /** Lines 323-333: one word, on a new line if the present one would get too long. */
  method SaveChunk(out0: string, len0: nat, c: seq<byte>, ghost done: seq<byte>) returns (out: string, len: nat)
    requires out0 == DataText(done) && |done| % CHUNK == 0 && 0 < |c| <= CHUNK
    requires len0 + 9 > 59 <==> |done| % LINE_BYTES == 0 && |done| != 0
    ensures out == DataText(done + c) && len == if len0 + 9 > 59 then 9 else len0 + 9
  {
    DataTextMore(done, c);
    out, len := out0, len0 + (CHUNK * 2 + 1);
    ghost var gap := Gap(done);
    if len > SHORT_STRING_SIZE - 5 {
      out := out + WRAP;
      len := CHUNK * 2 + 1;
    } else {
      Join(out, "", "");
    }
    assert out == out0 + gap;
    out := out + (" " + BinToHex(c));
  }

  /** After k words the running length is 9 for each word on the present line. */
  lemma LineFull(k: nat, len: nat)
    requires len == if k == 0 then 0 else 9 * ((k - 1) % 6 + 1)
    ensures len + 9 > 59 <==> CHUNK * k % LINE_BYTES == 0 && CHUNK * k != 0
    ensures (if len + 9 > 59 then 9 else len + 9) == 9 * (k % 6 + 1)
    ensures CHUNK * k % CHUNK == 0
  {
    WordsOnLine(k);
    if k > 0 { OneWordBefore(k); }
  }

  lemma WordsOnLine(k: nat)
    ensures 4 * k % 24 == 0 <==> k % 6 == 0
    ensures 4 * k % 4 == 0
  {
  }

  lemma OneWordBefore(k: nat)
    requires k > 0
    ensures (k - 1) % 6 + 1 == if k % 6 == 0 then 6 else k % 6
  {
  }

  method Save(rs: seq<Reg>) returns (out: string)
    ensures out == SavedAll(rs)
  {
    out := "";
    var i := 0;
    while i < |rs|
      invariant 0 <= i <= |rs| && out + SavedAll(rs[i..]) == SavedAll(rs)
    {
      assert rs[i..][1..] == rs[i + 1..];
      Join(out, Saved(rs[i]), SavedAll(rs[i + 1..]));
      if rs[i].save {
        var text := SaveData(rs[i].data);
        out := out + (Header(rs[i]) + text);
      }
      i := i + 1;
    }
    Join(out, "", "");
  }

  // ----- what is restored -----

  /** fgets: up to 63 characters, no further than a line end. */
  function Fgets(s: string): (l: string)
    ensures l <= s && (s != "" ==> l != "") && |l| < SHORT_STRING_SIZE
  {
    FgetsUpTo(s, SHORT_STRING_SIZE - 1)
  }

  function FgetsUpTo(s: string, n: nat): (l: string)
    ensures l <= s && |l| <= n && (s != "" && n > 0 ==> l != "")
  {
    if s == "" || n == 0 then "" else if s[0] == '\n' then "\n" else [s[0]] + FgetsUpTo(s[1..], n - 1)
  }

  /** A longer line is read in pieces of 63 characters. */
  lemma {:induction false} FgetsLong(s: string, n: nat)
    requires n <= |s| && '\n' !in s[..n]
    ensures FgetsUpTo(s, n) == s[..n] && (n == 63 ==> Fgets(s) == s[..63])
  {
    if n > 0 {
      assert s[0] == s[..n][0] && s[1..][..n - 1] == s[..n][1..];
      FgetsLong(s[1..], n - 1);
      assert s[..n] == [s[0]] + s[1..][..n - 1];
    }
  }

  /** The reader between two lines: the table, the registry being read and how far, and whether
      it is complete. */
  datatype Reader = Reader(regs: map<string, Reg>, name: string, j: nat, completed: bool)

  function ReadHeader(buf: string, r: Reader): Reader {
    var words := Tokens(buf);
    if |words| < 3 || words[1] !in r.regs then r
    else
      var reg := r.regs[words[1]];
      if !reg.save || |reg.data| != Atoi(words[2]) then r
      else r.(name := words[1], j := 0, completed := false)
  }

  /** The words of a data line are written one after the other, as long as they fit. */
  function ReadWords(words: seq<string>, d: seq<byte>, j: nat): (r: (seq<byte>, nat, bool))
    requires j <= |d|
    ensures |r.0| == |d| && r.1 <= |d|
  {
    if j == |d| || words == [] then (d, j, j == |d|)
    else
      var chunk := if |words[0]| > 2 * CHUNK then words[0][..2 * CHUNK] else words[0];
      var len := |chunk| / 2;
      if j > |d| - len then (d, j, true)
      else ReadWords(words[1..], d[..j] + HexToBin(chunk[..2 * len]) + d[j + len..], j + len)
  }

  function CutWrap(buf: string): string {
    if |buf| >= 2 && buf[|buf| - 2..] == "\\\n" then buf[..|buf| - 2] else buf
  }

  ghost predicate ValidReader(r: Reader) {
    r.completed || (r.name in r.regs && r.j <= |r.regs[r.name].data|)
  }

  function ReadData(buf: string, r: Reader): Reader
    requires !r.completed && ValidReader(r)
  {
    var reg := r.regs[r.name];
    var res := ReadWords(Tokens(CutWrap(buf)), reg.data, r.j);
    Reader(r.regs[r.name := reg.(data := res.0)], r.name, res.1, res.2)
  }

  function ReadLine(buf: string, r: Reader): (r': Reader)
    requires buf != "" && ValidReader(r)
    ensures ValidReader(r')
  {
    if buf[0] == '#' then r
    else if buf[0] != ' ' && !r.completed then r
    else if r.completed then ReadHeader(buf, r) else ReadData(buf, r)
  }

  function ReadAll(s: string, r: Reader): Reader
    requires ValidReader(r)
    decreases |s|
  {
    if s == "" then r else ReadAll(s[|Fgets(s)|..], ReadLine(Fgets(s), r))
  }

  // ----- what was saved is restored -----

  lemma {:induction false} FgetsLine(body: string, rest: string, n: nat)
    requires '\n' !in body && |body| < n
    ensures FgetsUpTo(body + "\n" + rest, n) == body + "\n"
  {
    if body != "" {
      assert (body + "\n" + rest)[1..] == body[1..] + "\n" + rest;
      FgetsLine(body[1..], rest, n - 1);
    }
  }

  lemma {:induction false} BinToHexPlain(b: seq<byte>)
    ensures forall c :: c in BinToHex(b) ==> ('0' <= c <= '9' || 'A' <= c <= 'F')
  {
    if b != [] { BinToHexPlain(b[..|b| - 1]); }
  }

  /** A data line is shorter than the reader's buffer and is one line. */
  lemma {:induction false} WordsFit(d: seq<byte>)
    ensures |Words(d)| == 2 * |d| + (|d| + 3) / 4
    ensures forall c :: c in Words(d) ==> c == ' ' || '0' <= c <= '9' || 'A' <= c <= 'F'
    ensures d != [] ==> Words(d) != "" && Words(d)[0] == ' ' && Words(d)[|Words(d)| - 1] != ' '
    decreases |d|
  {
    if |d| <= CHUNK {
      BinToHexPlain(d);
      if d != [] { assert Words(d)[|Words(d)| - 1] == BinToHex(d)[|BinToHex(d)| - 1]; }
    } else {
      BinToHexPlain(d[..CHUNK]);
      WordsFit(d[CHUNK..]);
      WordsStep(d);
      var x, y := " " + BinToHex(d[..CHUNK]), Words(d[CHUNK..]);
      assert (x + y)[0] == x[0] && (x + y)[|x + y| - 1] == y[|y| - 1];
    }
  }

  lemma TokensAfterBlank(s: string)
    ensures Tokens(" " + s) == Tokens(s)
  {
    assert (" " + s)[1..] == s;
  }

  lemma HexWord(c: seq<byte>)
    requires c != []
    ensures Plain(BinToHex(c)) && Plain(BinToHex(c) + "\n")
  {
    BinToHexPlain(c);
    assert BinToHex(c)[0] in BinToHex(c);
  }

  /** What reading a line that holds the bytes c does to the data d from position j on. */
  function Wrote(d: seq<byte>, j: nat, c: seq<byte>): (seq<byte>, nat, bool)
    requires j + |c| <= |d|
  {
    (d[..j] + c + d[j + |c|..], j + |c|, j + |c| == |d|)
  }

  /** The last word of a line may carry the line end with it. */
  lemma LastToken(c: seq<byte>, tail: string)
    requires c != [] && (tail == " " || tail == "\n")
    ensures Tokens(BinToHex(c) + tail) == [BinToHex(c) + (if tail == " " then "" else "\n")]
  {
    var hex := BinToHex(c);
    HexWord(c);
    if tail == " " {
      TokensOf(hex, " ");
      TokensAfterBlank("");
      assert " " + "" == " " && hex + "" == hex;
    } else {
      TokensOf(hex + "\n", "");
      assert hex + "\n" + "" == hex + "\n";
    }
  }

  /** Its bytes are the same. */
  lemma OneWord(c: seq<byte>, tail: string, d: seq<byte>, j: nat)
    requires 0 < |c| <= CHUNK && j + |c| <= |d| && |tail| <= 1
    ensures ReadWords([BinToHex(c) + tail], d, j) == Wrote(d, j, c)
  {
    var hex := BinToHex(c);
    var word := hex + tail;
    var chunk := if |word| > 2 * CHUNK then word[..2 * CHUNK] else word;
    assert |chunk| / 2 == |c| && chunk[..2 * |c|] == hex;
    HexRoundTrip(c, "");
    assert hex + "" == hex && c + [] == c;
    assert [word][1..] == [];
  }

  lemma LastWord(l: seq<byte>, tail: string, d: seq<byte>, j: nat)
    requires 0 < |l| <= CHUNK && j + |l| <= |d| && (tail == " " || tail == "\n")
    ensures ReadWords(Tokens(Words(l) + tail), d, j) == Wrote(d, j, l)
  {
    WordsShort(l, tail);
    TokensAfterBlank(BinToHex(l) + tail);
    LastToken(l, tail);
    OneWord(l, if tail == " " then "" else "\n", d, j);
  }

  lemma {:induction false} ReadWordsOf(l: seq<byte>, tail: string, d: seq<byte>, j: nat)
    requires l != [] && j + |l| <= |d| && (tail == " " || tail == "\n")
    ensures ReadWords(Tokens(Words(l) + tail), d, j) == Wrote(d, j, l)
    decreases |l|
  {
    if |l| <= CHUNK {
      LastWord(l, tail, d, j);
    } else {
      var c, rest := l[..CHUNK], l[CHUNK..];
      var d' := Wrote(d, j, c).0;
      MoreWords(c, rest, tail, d, j);
      assert l == c + rest;
      ReadWordsOf(rest, tail, d', j + CHUNK);
      Spliced(d, j, c, rest);
    }
  }

  lemma MoreWords(c: seq<byte>, rest: seq<byte>, tail: string, d: seq<byte>, j: nat)
    requires |c| == CHUNK && rest != [] && j + CHUNK + |rest| <= |d|
    ensures ReadWords(Tokens(Words(c + rest) + tail), d, j) == ReadWords(Tokens(Words(rest) + tail), Wrote(d, j, c).0, j + CHUNK)
  {
    WordsFit(rest);
    assert (c + rest)[..CHUNK] == c && (c + rest)[CHUNK..] == rest;
    WordsLong(c + rest, tail);
    FirstWord(c, Words(rest) + tail, d, j, |rest|);
  }

  lemma WordsShort(l: seq<byte>, tail: string)
    requires 0 < |l| <= CHUNK
    ensures Words(l) + tail == " " + (BinToHex(l) + tail)
  {
    Regroup(" ", BinToHex(l), tail);
  }

  lemma WordsLong(l: seq<byte>, tail: string)
    requires |l| > CHUNK
    ensures Words(l) + tail == " " + (BinToHex(l[..CHUNK]) + (Words(l[CHUNK..]) + tail))
  {
    WordsStep(l);
    Shift4(" ", BinToHex(l[..CHUNK]), Words(l[CHUNK..]), tail);
  }

  lemma Shift4(a: string, b: string, c: string, d: string)
    ensures a + b + c + d == a + (b + (c + d))
  {
  }

  lemma FirstWord(c: seq<byte>, more: string, d: seq<byte>, j: nat, n: nat)
    requires |c| == CHUNK && j + CHUNK + n <= |d| && n > 0
    requires more != "" && more[0] == ' '
    ensures ReadWords(Tokens(" " + (BinToHex(c) + more)), d, j) == ReadWords(Tokens(more), Wrote(d, j, c).0, j + CHUNK)
  {
    var hex := BinToHex(c);
    HexWord(c);
    HexRoundTrip(c, "");
    assert hex + "" == hex && c + [] == c && hex[..2 * CHUNK] == hex;
    TokensAfterBlank(hex + more);
    TokensOf(hex, more);
    assert ([hex] + Tokens(more))[1..] == Tokens(more);
  }

  lemma Spliced(d: seq<byte>, j: nat, a: seq<byte>, b: seq<byte>)
    requires j + |a| + |b| <= |d|
    ensures Wrote(Wrote(d, j, a).0, j + |a|, b) == Wrote(d, j, a + b)
  {
    var d', k := Wrote(d, j, a).0, j + |a|;
    assert d'[..k] == d[..j] + a;
    assert d'[k + |b|..] == d[k + |b|..];
    assert d[..j] + a + b == d[..j] + (a + b);
  }

  function WithData(r: Reader, d: seq<byte>, j: nat, completed: bool): Reader
    requires r.name in r.regs
  {
    Reader(r.regs[r.name := r.regs[r.name].(data := d)], r.name, j, completed)
  }

  lemma CutEnd(w: string)
    requires w != "" && w[|w| - 1] != '\\'
    ensures CutWrap(w + "\n") == w + "\n"
  {
    assert (w + "\n")[|w + "\n"| - 2..][0] == w[|w| - 1];
  }

  lemma CutWrapped(w: string)
    ensures CutWrap(w + WRAP) == w + " " && CutWrap(w + "\\\n") == w
  {
    var line := w + WRAP;
    assert line[|line| - 2..] == "\\\n" && line[..|line| - 2] == w + " ";
  }

  lemma CutLine(l: seq<byte>, last: bool)
    requires l != []
    ensures CutWrap(Words(l) + (if last then "\n" else WRAP)) == Words(l) + (if last then "\n" else " ")
  {
    var w := Words(l);
    WordsFit(l);
    if last {
      assert w[|w| - 1] in w;
      CutEnd(w);
    } else {
      CutWrapped(w);
    }
  }

  lemma ReadDataLine(r: Reader, l: seq<byte>, last: bool)
    requires !r.completed && ValidReader(r) && l != [] && r.j + |l| <= |r.regs[r.name].data|
    ensures var w := Wrote(r.regs[r.name].data, r.j, l);
      ReadLine(Words(l) + (if last then "\n" else WRAP), r) == WithData(r, w.0, w.1, w.2)
  {
    WordsFit(l);
    CutLine(l, last);
    ReadWordsOf(l, if last then "\n" else " ", r.regs[r.name].data, r.j);
    var buf := Words(l) + (if last then "\n" else WRAP);
    assert buf[0] == ' ';
    LineIsData(buf, r, Wrote(r.regs[r.name].data, r.j, l));
  }

  lemma LineIsData(buf: string, r: Reader, w: (seq<byte>, nat, bool))
    requires !r.completed && ValidReader(r) && buf != "" && buf[0] == ' '
    requires ReadWords(Tokens(CutWrap(buf)), r.regs[r.name].data, r.j) == w
    ensures ReadLine(buf, r) == WithData(r, w.0, w.1, w.2)
  {
  }

  lemma ReadAllLine(line: string, rest: string, r: Reader)
    requires ValidReader(r) && line != "" && |line| < SHORT_STRING_SIZE
    requires line[|line| - 1] == '\n' && '\n' !in line[..|line| - 1]
    ensures ReadAll(line + rest, r) == ReadAll(rest, ReadLine(line, r))
  {
    var body := line[..|line| - 1];
    assert line == body + "\n" && line + rest == body + "\n" + rest;
    FgetsLine(body, rest, SHORT_STRING_SIZE - 1);
    assert (line + rest)[|line|..] == rest;
  }

  /** No data line is too long for the reader. */
  lemma DataLineFits(l: seq<byte>, last: bool)
    requires l != [] && |l| <= LINE_BYTES
    ensures var line := Words(l) + (if last then "\n" else WRAP);
      |line| < SHORT_STRING_SIZE && line[|line| - 1] == '\n' && '\n' !in line[..|line| - 1]
  {
    WordsFit(l);
    var line := Words(l) + (if last then "\n" else WRAP);
    assert line[..|line| - 1] == Words(l) + (if last then "" else " \\");
  }

  lemma ReadFirstLine(r: Reader, l: seq<byte>, last: bool, rest: string)
    requires !r.completed && ValidReader(r) && l != [] && |l| <= LINE_BYTES && r.j + |l| <= |r.regs[r.name].data|
    ensures var w := Wrote(r.regs[r.name].data, r.j, l);
      ReadAll(Words(l) + (if last then "\n" else WRAP) + rest, r) == ReadAll(rest, WithData(r, w.0, w.1, w.2))
  {
    DataLineFits(l, last);
    ReadAllLine(Words(l) + (if last then "\n" else WRAP), rest, r);
    ReadDataLine(r, l, last);
  }

  lemma WithDataTwice(r: Reader, d: seq<byte>, j: nat, c: bool, d': seq<byte>, j': nat, c': bool)
    requires r.name in r.regs
    ensures WithData(WithData(r, d, j, c), d', j', c') == WithData(r, d', j', c')
  {
    assert r.regs[r.name := r.regs[r.name].(data := d)][r.name := r.regs[r.name].(data := d')]
        == r.regs[r.name := r.regs[r.name].(data := d')];
  }

  /** The reader once all the data d still to come has been read. */
  function Filled(r: Reader, d: seq<byte>): Reader
    requires r.name in r.regs && r.j + |d| == |r.regs[r.name].data|
  {
    WithData(r, r.regs[r.name].data[..r.j] + d, |r.regs[r.name].data|, true)
  }

  lemma {:induction false} ReadDataText(r: Reader, d: seq<byte>, rest: string)
    requires !r.completed && ValidReader(r) && d != [] && r.j + |d| == |r.regs[r.name].data|
    ensures ReadAll(DataText(d) + "\n" + rest, r) == ReadAll(rest, Filled(r, d))
    decreases |d|
  {
    if |d| <= LINE_BYTES {
      ReadFirstLine(r, d, true, rest);
      WroteToEnd(r.regs[r.name].data, r.j, d);
    } else {
      var r1 := ReadWrapped(r, d, rest);
      ReadDataText(r1, d[LINE_BYTES..], rest);
    }
  }

  lemma ReadWrapped(r: Reader, d: seq<byte>, rest: string) returns (r1: Reader)
    requires !r.completed && ValidReader(r) && |d| > LINE_BYTES && r.j + |d| == |r.regs[r.name].data|
    ensures !r1.completed && ValidReader(r1) && r1.j + |d[LINE_BYTES..]| == |r1.regs[r1.name].data|
    ensures ReadAll(DataText(d) + "\n" + rest, r) == ReadAll(DataText(d[LINE_BYTES..]) + "\n" + rest, r1)
    ensures Filled(r1, d[LINE_BYTES..]) == Filled(r, d)
  {
    var data, l, more := r.regs[r.name].data, d[..LINE_BYTES], d[LINE_BYTES..];
    var w := Wrote(data, r.j, l);
    r1 := WithData(r, w.0, w.1, w.2);
    ReadFirstLine(r, l, false, DataText(more) + "\n" + rest);
    TextSplit(d, rest);
    WrotePrefix(data, r.j, l, more);
    assert l + more == d;
    WithDataTwice(r, w.0, w.1, w.2, data[..r.j] + d, |data|, true);
  }

  lemma WroteToEnd(data: seq<byte>, j: nat, d: seq<byte>)
    requires j + |d| == |data|
    ensures Wrote(data, j, d) == (data[..j] + d, |data|, true)
  {
    assert data[..j] + d + data[j + |d|..] == data[..j] + d;
  }

  lemma WrotePrefix(data: seq<byte>, j: nat, l: seq<byte>, more: seq<byte>)
    requires j + |l| <= |data|
    ensures Wrote(data, j, l).0[..j + |l|] + more == data[..j] + (l + more)
  {
  }

  lemma TextSplit(d: seq<byte>, rest: string)
    requires |d| > LINE_BYTES
    ensures DataText(d) + "\n" + rest == Words(d[..LINE_BYTES]) + WRAP + (DataText(d[LINE_BYTES..]) + "\n" + rest)
  {
    DataTextLine(d);
    var line, text := Words(d[..LINE_BYTES]) + WRAP, DataText(d[LINE_BYTES..]);
    Regroup(line, text, "\n");
    Regroup(line, text + "\n", rest);
  }

  // ----- headers -----

  ghost predicate GoodName(w: string) {
    w != "" && forall c :: c in w ==> !IsDelim(c) && c != '\n'
  }

  /** What the format takes for granted of a persistent registry: words for names, a header
      that fits the line buffer and is not a comment. */
  ghost predicate Storable(e: Reg) {
    && GoodName(e.mod) && GoodName(e.name) && e.mod[0] != '#'
    && |Header(e)| < SHORT_STRING_SIZE
  }

  /** Up to 53 characters of names without blanks, and sizes below 100000, can be stored. */
  lemma ShortIsStorable(e: Reg)
    requires e.mod != "" && e.name != "" && e.mod[0] != '#' && |e.mod| + |e.name| <= 53 && |e.data| < 100000
    requires forall i :: 0 <= i < |e.mod| ==> e.mod[i] !in " \t\n"
    requires forall i :: 0 <= i < |e.name| ==> e.name[i] !in " \t\n"
    ensures Storable(e)
  {
    FiveDigits(|e.data|);
    GoodNameIf(e.mod);
    GoodNameIf(e.name);
  }

  lemma GoodNameIf(w: string)
    requires w != "" && forall i :: 0 <= i < |w| ==> w[i] !in " \t\n"
    ensures GoodName(w)
  {
    var blanks := " \t\n";
    assert blanks[0] == ' ' && blanks[1] == '\t' && blanks[2] == '\n';
  }

  /** The table read into has a persistent registry of that name and size. */
  predicate Known(regs: map<string, Reg>, e: Reg) {
    e.name in regs && regs[e.name].save && |regs[e.name].data| == |e.data|
  }

  lemma HeaderTokens(e: Reg)
    requires Storable(e)
    ensures Tokens(Header(e)) == [e.mod, e.name, Dec(|e.data|), "\\\n"]
  {
    var size := Dec(|e.data|);
    var t2 := " " + (size + WRAP);
    var t1 := " " + (e.name + t2);
    LastTokens();
    BlankWord(size, WRAP);
    BlankWord(e.name, t2);
    TokensOf(e.mod, t1);
    Four(e.mod, e.name, size, "\\\n");
  }

  lemma Four(a: string, b: string, c: string, d: string)
    ensures [a] + ([b] + ([c] + [d])) == [a, b, c, d]
  {
  }

  lemma BlankWord(w: string, rest: string)
    requires Plain(w) && rest != "" && IsDelim(rest[0])
    ensures Tokens(" " + (w + rest)) == [w] + Tokens(rest)
  {
    TokensAfterBlank(w + rest);
    TokensOf(w, rest);
  }

  lemma LastTokens()
    ensures Tokens(WRAP) == ["\\\n"]
  {
    assert WRAP == " " + "\\\n";
    TokensAfterBlank("\\\n");
    TokensOf("\\\n", "");
    assert "\\\n" + "" == "\\\n";
  }

  lemma HeaderIsLine(e: Reg)
    requires Storable(e)
    ensures var line := Header(e); line[|line| - 1] == '\n' && '\n' !in line[..|line| - 1]
  {
    var line := Header(e);
    assert line[..|line| - 1] == e.mod + (" " + (e.name + (" " + (Dec(|e.data|) + " \\"))));
  }

  lemma ReadHeaderLine(e: Reg, r: Reader)
    requires Storable(e) && r.completed && Known(r.regs, e)
    ensures ReadLine(Header(e), r) == r.(name := e.name, j := 0, completed := false)
  {
    HeaderTokens(e);
    AtoiDec(|e.data|, "");
    assert Dec(|e.data|) + "" == Dec(|e.data|);
    assert Dec(|e.data|)[0] in Dec(|e.data|);
    assert Header(e)[0] == e.mod[0];
  }

  /** The table with the data of e put in. */
  function PutIn(regs: map<string, Reg>, e: Reg): map<string, Reg> {
    if e.save && e.name in regs then regs[e.name := regs[e.name].(data := e.data)] else regs
  }

  function PutAll(regs: map<string, Reg>, rs: seq<Reg>): map<string, Reg> {
    if rs == [] then regs else PutAll(PutIn(regs, rs[0]), rs[1..])
  }

  lemma ReadSaved(e: Reg, r: Reader, rest: string) returns (r': Reader)
    requires r.completed && (e.save ==> Storable(e) && Known(r.regs, e) && e.data != [])
    ensures r'.completed && r'.regs == PutIn(r.regs, e)
    ensures ReadAll(Saved(e) + rest, r) == ReadAll(rest, r')
  {
    if e.save {
      var text := DataText(e.data) + "\n";
      assert Saved(e) + rest == Header(e) + (text + rest);
      HeaderIsLine(e);
      ReadAllLine(Header(e), text + rest, r);
      ReadHeaderLine(e, r);
      var r1 := r.(name := e.name, j := 0, completed := false);
      ReadDataText(r1, e.data, rest);
      var data := r.regs[e.name].data;
      assert data[..0] + e.data == e.data;
      r' := WithData(r1, e.data, |data|, true);
    } else {
      r' := r;
      assert "" + rest == rest;
    }
  }

  // ----- registries without data -----

  lemma SavedEmpty(e: Reg, rest: string)
    requires e.save && e.data == []
    ensures Saved(e) + rest == Header(e) + ("\n" + rest)
  {
    assert DataText([]) == "" && "" + "\n" == "\n";
    Regroup(Header(e), "\n", rest);
  }

  /** While data is expected a line that is not indented is passed over. */
  lemma PassedOver(line: string, rest: string, r: Reader)
    requires ValidReader(r) && !r.completed && line != "" && line[0] != ' ' && |line| < SHORT_STRING_SIZE
    requires line[|line| - 1] == '\n' && '\n' !in line[..|line| - 1]
    ensures ReadAll(line + rest, r) == ReadAll(rest, r)
  {
    ReadAllLine(line, rest, r);
  }

  /** The reader goes on waiting for the data of a registry that has none. */
  lemma ReadEmpty(e: Reg, r: Reader, rest: string)
    requires ValidReader(r) && e.save && e.data == [] && Storable(e) && (r.completed ==> Known(r.regs, e))
    ensures ReadAll(Saved(e) + rest, r)
      == ReadAll(rest, if r.completed then r.(name := e.name, j := 0, completed := false) else r)
  {
    SavedEmpty(e, rest);
    HeaderIsLine(e);
    assert Header(e)[0] == e.mod[0] && e.mod[0] in e.mod;
    if r.completed {
      ReadAllLine(Header(e), "\n" + rest, r);
      ReadHeaderLine(e, r);
      PassedOver("\n", rest, r.(name := e.name, j := 0, completed := false));
    } else {
      PassedOver(Header(e), "\n" + rest, r);
      PassedOver("\n", rest, r);
    }
  }

  lemma SameRegistry(regs: map<string, Reg>, name: string)
    requires name in regs && regs[name].data == []
    ensures regs[name := regs[name].(data := [])] == regs
  {
  }

  // ----- data that is passed over -----

  /** A word that could stand in a data line. */
  predicate LikeData(w: string) {
    w != "" && forall c :: c in w ==> DataChar(c)
  }

  predicate DataChar(c: char) {
    '0' <= c <= '9' || 'A' <= c <= 'F' || c == '\\' || c == '\n'
  }

  /** It has no other characters than these. */
  lemma LikeDataChars(w: string, c: char)
    requires LikeData(w) && c in w
    ensures c in "0123456789ABCDEF\\\n"
  {
    var d := "0123456789ABCDEF\\\n";
    assert d[16] == '\\' && d[17] == '\n';
    if '0' <= c <= '9' {
      assert d[c as int - '0' as int] == c;
    } else if 'A' <= c <= 'F' {
      assert d[c as int - 'A' as int + 10] == c;
    }
  }

  lemma {:induction false} TokenChars(s: string, i: nat)
    requires i < |Tokens(s)|
    ensures Tokens(s)[i] != "" && forall c :: c in Tokens(s)[i] ==> c in s && !IsDelim(c)
    decreases |s|
  {
    if IsDelim(s[0]) {
      TokenChars(s[1..], i);
    } else if i > 0 {
      TokenChars(s[|Word(s)|..], i - 1);
    }
  }

  /** A line that is not the header of a registry of the table. */
  predicate NoHeader(line: string, regs: map<string, Reg>) {
    var words := Tokens(line);
    |words| < 3 || words[1] !in regs || !regs[words[1]].save || |regs[words[1]].data| != Atoi(words[2])
  }

  /** None of the data lines of d could be taken for a header. */
  predicate Ignored(d: seq<byte>, regs: map<string, Reg>)
    decreases |d|
  {
    if |d| <= LINE_BYTES then d == [] || NoHeader(Words(d) + "\n", regs)
    else NoHeader(Words(d[..LINE_BYTES]) + WRAP, regs) && Ignored(d[LINE_BYTES..], regs)
  }

  /** The same for those behind the first. */
  predicate IgnoredOn(d: seq<byte>, regs: map<string, Reg>) {
    |d| > LINE_BYTES ==> Ignored(d[LINE_BYTES..], regs)
  }

  /** A line looks like data unless it has a word that does not. */
  lemma NoHeaderNamed(l: seq<byte>, last: bool, regs: map<string, Reg>)
    requires forall k :: k in regs ==> !LikeData(k)
    ensures NoHeader(Words(l) + (if last then "\n" else WRAP), regs)
  {
    var line := Words(l) + (if last then "\n" else WRAP);
    WordsFit(l);
    if |Tokens(line)| >= 2 {
      TokenChars(line, 1);
      assert LikeData(Tokens(line)[1]);
    }
  }

  /** With no registry of a name that could stand in a data line none is taken for a header. */
  lemma {:induction false} IgnoredByName(d: seq<byte>, regs: map<string, Reg>)
    requires forall k :: k in regs ==> !LikeData(k)
    ensures Ignored(d, regs)
    decreases |d|
  {
    if |d| <= LINE_BYTES {
      NoHeaderNamed(d, true, regs);
    } else {
      NoHeaderNamed(d[..LINE_BYTES], false, regs);
      IgnoredByName(d[LINE_BYTES..], regs);
    }
  }

  /** A data line that is taken for a header: its second word is the name of a registry, the
      third the size of that. */
  lemma TakenForHeader(a: seq<byte>, c: seq<byte>, four: seq<byte>, regs: map<string, Reg>)
    requires |a| == |c| == CHUNK && BinToHex(c) in regs && regs[BinToHex(c)].save && |regs[BinToHex(c)].data| == 4
    requires four == [0, 0, 0, 4]
    ensures !Ignored(a + c + four, regs)
  {
    var line := Words(a + c + four) + "\n";
    FourInHex(four);
    ThreeInLine(a, c, four);
    HexWord(a);
    HexWord(c);
    HexWord(four);
    ThreeWords(BinToHex(a), BinToHex(c), BinToHex(four) + "\n");
    IsHeader(line, BinToHex(c), regs);
  }

  lemma IsHeader(line: string, name: string, regs: map<string, Reg>)
    requires |Tokens(line)| == 3 && Tokens(line)[1] == name && Atoi(Tokens(line)[2]) == 4
    requires name in regs && regs[name].save && |regs[name].data| == 4
    ensures !NoHeader(line, regs)
  {
  }

  lemma ThreeInLine(a: seq<byte>, b: seq<byte>, c: seq<byte>)
    requires |a| == |b| == |c| == CHUNK
    ensures Words(a + b + c) + "\n" == " " + (BinToHex(a) + (" " + (BinToHex(b) + (" " + (BinToHex(c) + "\n")))))
  {
    var d := a + b + c;
    assert d[..CHUNK] == a && d[CHUNK..] == b + c;
    assert (b + c)[..CHUNK] == b && (b + c)[CHUNK..] == c;
    WordsLong(d, "\n");
    WordsLong(b + c, "\n");
    WordsShort(c, "\n");
  }

  lemma ThreeWords(x: string, y: string, z: string)
    requires Plain(x) && Plain(y) && Plain(z)
    ensures Tokens(" " + (x + (" " + (y + (" " + z))))) == [x, y, z]
  {
    TokensOf(z, "");
    NothingAround(z);
    TokensAfterBlank(z);
    BlankWord(y, " " + z);
    BlankWord(x, " " + (y + (" " + z)));
  }

  lemma FourInHex(four: seq<byte>)
    requires four == [0, 0, 0, 4]
    ensures Atoi(BinToHex(four) + "\n") == 4
  {
    var three := four[..3];
    assert three == [0, 0, 0] && three[..2] == [0, 0] && three[..2][..1] == [0] && [0 as byte][..0] == [];
    assert BinToHex(three[..2]) == "0000";
    assert BinToHex(four) == "00000004";
    var s := "4\n";
    var s4 := "0" + ("0" + ("0" + s));
    var s7 := "0" + ("0" + ("0" + s4));
    ZeroFirst(s);
    ZeroFirst("0" + s);
    ZeroFirst("0" + ("0" + s));
    ZeroFirst(s4);
    ZeroFirst("0" + s4);
    ZeroFirst("0" + ("0" + s4));
    ZeroFirst(s7);
    assert BinToHex(four) + "\n" == "0" + s7;
    assert "4\n"[1..] == "\n";
  }

  lemma ZeroFirst(s: string)
    ensures AtoiFrom("0" + s, 0) == AtoiFrom(s, 0) == Atoi("0" + s)
  {
    assert ("0" + s)[1..] == s;
  }

  /** Such a line is passed over where a header is expected. */
  lemma NotAHeader(l: seq<byte>, last: bool, rest: string, r: Reader)
    requires r.completed && 0 < |l| <= LINE_BYTES && NoHeader(Words(l) + (if last then "\n" else WRAP), r.regs)
    ensures ReadAll(Words(l) + (if last then "\n" else WRAP) + rest, r) == ReadAll(rest, r)
  {
    var line := Words(l) + (if last then "\n" else WRAP);
    DataLineFits(l, last);
    WordsFit(l);
    ReadAllLine(line, rest, r);
    assert line[0] == ' ';
  }

  lemma {:induction false} TextPassedOver(d: seq<byte>, rest: string, r: Reader)
    requires r.completed && d != [] && Ignored(d, r.regs)
    ensures ReadAll(DataText(d) + "\n" + rest, r) == ReadAll(rest, r)
    decreases |d|
  {
    if |d| <= LINE_BYTES {
      NotAHeader(d, true, rest, r);
    } else {
      TextSplit(d, rest);
      NotAHeader(d[..LINE_BYTES], false, DataText(d[LINE_BYTES..]) + "\n" + rest, r);
      TextPassedOver(d[LINE_BYTES..], rest, r);
    }
  }

  /** A data line read for a registry without data changes nothing but that this is complete. */
  lemma LostLine(l: seq<byte>, last: bool, rest: string, r: Reader)
    requires !r.completed && ValidReader(r) && r.regs[r.name].data == [] && 0 < |l| <= LINE_BYTES
    ensures ReadAll(Words(l) + (if last then "\n" else WRAP) + rest, r) == ReadAll(rest, Reader(r.regs, r.name, 0, true))
  {
    var line := Words(l) + (if last then "\n" else WRAP);
    DataLineFits(l, last);
    WordsFit(l);
    assert line[0] == ' ';
    ReadAllLine(line, rest, r);
    LineIsData(line, r, ([], 0, true));
    SameRegistry(r.regs, r.name);
  }

  lemma LostText(d: seq<byte>, rest: string, r: Reader)
    requires !r.completed && ValidReader(r) && r.regs[r.name].data == [] && d != [] && IgnoredOn(d, r.regs)
    ensures ReadAll(DataText(d) + "\n" + rest, r) == ReadAll(rest, Reader(r.regs, r.name, 0, true))
  {
    if |d| <= LINE_BYTES {
      LostLine(d, true, rest, r);
    } else {
      TextSplit(d, rest);
      LostLine(d[..LINE_BYTES], false, DataText(d[LINE_BYTES..]) + "\n" + rest, r);
      TextPassedOver(d[LINE_BYTES..], rest, Reader(r.regs, r.name, 0, true));
    }
  }

  /** While the data of an empty registry is waited for, the next one with data is lost. */
  lemma EmptyHidesNext(e: Reg, r: Reader, rest: string)
    requires !r.completed && ValidReader(r) && r.regs[r.name].data == []
    requires e.save && e.data != [] && Storable(e) && IgnoredOn(e.data, r.regs)
    ensures ReadAll(Saved(e) + rest, r) == ReadAll(rest, Reader(r.regs, r.name, 0, true))
  {
    var text := DataText(e.data) + "\n";
    Regroup(Header(e), text, rest);
    HeaderIsLine(e);
    assert Header(e)[0] == e.mod[0] && e.mod[0] in e.mod;
    PassedOver(Header(e), text + rest, r);
    LostText(e.data, rest, r);
  }

  /** A registry the table does not know, or not in this size, is refused. */
  lemma RefusedHeader(e: Reg, r: Reader)
    requires Storable(e) && r.completed && !Known(r.regs, e)
    ensures ReadLine(Header(e), r) == r
  {
    HeaderTokens(e);
    AtoiDec(|e.data|, "");
    NothingAround(Dec(|e.data|));
    assert Header(e)[0] == e.mod[0];
  }

  lemma RefusedIsLost(e: Reg, r: Reader, rest: string)
    requires r.completed && e.save && Storable(e) && !Known(r.regs, e) && Ignored(e.data, r.regs)
    ensures ReadAll(Saved(e) + rest, r) == ReadAll(rest, r)
  {
    var text := DataText(e.data) + "\n";
    Regroup(Header(e), text, rest);
    HeaderIsLine(e);
    ReadAllLine(Header(e), text + rest, r);
    RefusedHeader(e, r);
    if e.data == [] {
      assert text == "\n";
      EmptyLine(r);
      ReadAllLine("\n", rest, r);
    } else {
      TextPassedOver(e.data, rest, r);
    }
  }

  lemma EmptyLine(r: Reader)
    requires r.completed
    ensures ReadLine("\n", r) == r
  {
    TokensOf("\n", "");
    NothingAround("\n");
  }

  // ----- all registries -----

  /** The reader expects a header, or the data of a registry that has none. */
  ghost predicate BetweenTwo(r: Reader) {
    ValidReader(r) && (r.completed || r.regs[r.name].data == [])
  }

  /** Whether a registry reaches the table, `waiting` being whether data of an empty one is
      awaited: it has data, and the table knows it in its size. */
  predicate KeptOne(e: Reg, waiting: bool, regs: map<string, Reg>) {
    e.save && !waiting && Known(regs, e) && e.data != []
  }

  /** Whether data of an empty one is awaited behind it. */
  predicate WaitingNext(e: Reg, waiting: bool, regs: map<string, Reg>) {
    if e.save then e.data == [] && (waiting || Known(regs, e)) else waiting
  }

  /** The data lines that are passed over are not taken for headers. */
  predicate QuietOne(e: Reg, waiting: bool, regs: map<string, Reg>) {
    e.save ==> if waiting then IgnoredOn(e.data, regs) else Known(regs, e) || Ignored(e.data, regs)
  }

  /** The registries that reach the table. */
  function Kept(rs: seq<Reg>, waiting: bool, regs: map<string, Reg>): seq<Reg> {
    if rs == [] then []
    else (if KeptOne(rs[0], waiting, regs) then [rs[0]] else []) + Kept(rs[1..], WaitingNext(rs[0], waiting, regs), regs)
  }

  predicate Quiet(rs: seq<Reg>, waiting: bool, regs: map<string, Reg>) {
    rs == [] || (QuietOne(rs[0], waiting, regs) && Quiet(rs[1..], WaitingNext(rs[0], waiting, regs), regs))
  }

  /** All that have something to be restored. */
  function WithBytes(rs: seq<Reg>): seq<Reg> {
    if rs == [] then [] else (if rs[0].save && rs[0].data != [] then [rs[0]] else []) + WithBytes(rs[1..])
  }

  /** One registry on: it is put in if it reaches the table. */
  lemma ReadNext(e: Reg, r: Reader, rest: string) returns (r': Reader)
    requires BetweenTwo(r) && (e.save ==> Storable(e)) && QuietOne(e, !r.completed, r.regs)
    ensures BetweenTwo(r') && ReadAll(Saved(e) + rest, r) == ReadAll(rest, r')
    ensures r'.regs == if KeptOne(e, !r.completed, r.regs) then PutIn(r.regs, e) else r.regs
    ensures !r'.completed <==> WaitingNext(e, !r.completed, r.regs)
  {
    if !e.save {
      r' := r;
      NothingAround(rest);
    } else if !r.completed && e.data != [] {
      EmptyHidesNext(e, r, rest);
      r' := Reader(r.regs, r.name, 0, true);
    } else if r.completed && !Known(r.regs, e) {
      RefusedIsLost(e, r, rest);
      r' := r;
    } else if e.data == [] {
      ReadEmpty(e, r, rest);
      r' := if r.completed then r.(name := e.name, j := 0, completed := false) else r;
    } else {
      r' := ReadSaved(e, r, rest);
    }
  }

  /** Two tables of the same registries, which may hold different bytes. */
  ghost predicate SameShape(a: map<string, Reg>, b: map<string, Reg>) {
    a.Keys == b.Keys && forall k :: k in a ==> a[k].save == b[k].save && |a[k].data| == |b[k].data|
  }

  lemma {:induction false} IgnoredSame(d: seq<byte>, a: map<string, Reg>, b: map<string, Reg>)
    requires SameShape(a, b)
    ensures Ignored(d, a) <==> Ignored(d, b)
    decreases |d|
  {
    if |d| > LINE_BYTES { IgnoredSame(d[LINE_BYTES..], a, b); }
  }

  /** What reaches the table does not depend on the bytes in it. */
  lemma {:induction false} KeptSame(rs: seq<Reg>, waiting: bool, a: map<string, Reg>, b: map<string, Reg>)
    requires SameShape(a, b)
    ensures Kept(rs, waiting, a) == Kept(rs, waiting, b) && (Quiet(rs, waiting, a) <==> Quiet(rs, waiting, b))
  {
    if rs != [] {
      var e := rs[0];
      IgnoredSame(e.data, a, b);
      if |e.data| > LINE_BYTES { IgnoredSame(e.data[LINE_BYTES..], a, b); }
      KeptSame(rs[1..], WaitingNext(e, waiting, a), a, b);
    }
  }

  /** Restoring a saved file puts the bytes of these in, and changes nothing else. */
  lemma {:induction false} RestoreSaved(rs: seq<Reg>, r: Reader)
    requires BetweenTwo(r) && Quiet(rs, !r.completed, r.regs)
    requires forall i :: 0 <= i < |rs| && rs[i].save ==> Storable(rs[i])
    ensures ReadAll(SavedAll(rs), r).regs == PutAll(r.regs, Kept(rs, !r.completed, r.regs))
  {
    if rs != [] {
      var e, t := rs[0], rs[1..];
      var r' := ReadNext(e, r, SavedAll(t));
      KeptSame(t, !r'.completed, r.regs, r'.regs);
      RestoreSaved(t, r');
      if KeptOne(e, !r.completed, r.regs) {
        PutFirst(r.regs, e, Kept(t, false, r.regs));
      } else {
        NoneBefore(Kept(t, !r'.completed, r.regs));
      }
    }
  }

  lemma PutFirst(regs: map<string, Reg>, e: Reg, rs: seq<Reg>)
    ensures PutAll(regs, [e] + rs) == PutAll(PutIn(regs, e), rs)
  {
    assert ([e] + rs)[1..] == rs;
  }

  lemma NoneBefore(rs: seq<Reg>)
    ensures [] + rs == rs
  {
  }

  /** No saved registry with data comes behind an empty one that the table knows. */
  ghost predicate EmptiesLast(rs: seq<Reg>, regs: map<string, Reg>) {
    forall i, j :: 0 <= i < j < |rs| && Empty(rs[i], regs) && rs[j].save ==> rs[j].data == []
  }

  predicate Empty(e: Reg, regs: map<string, Reg>) {
    e.save && e.data == [] && Known(regs, e)
  }

  /** The table knows every saved registry with data. */
  ghost predicate AllKnown(rs: seq<Reg>, regs: map<string, Reg>) {
    forall i :: 0 <= i < |rs| && rs[i].save && rs[i].data != [] ==> Known(regs, rs[i])
  }

  /** No registry is lost if and only if the table knows them all and the empty ones come last. */
  lemma {:induction false} NothingLostIff(rs: seq<Reg>, regs: map<string, Reg>)
    ensures Kept(rs, false, regs) == WithBytes(rs) <==> EmptiesLast(rs, regs) && AllKnown(rs, regs)
  {
    if rs != [] {
      var e, t := rs[0], rs[1..];
      EmptiesLastStep(rs, regs);
      AllKnownStep(rs, regs);
      NoBytes(t);
      KeptLess(t, true, regs);
      KeptLess(t, false, regs);
      NothingLostIff(t, regs);
      NoneBefore(WithBytes(t));
      NoneBefore(Kept(t, WaitingNext(e, false, regs), regs));
      SameFirst(e, Kept(t, false, regs), WithBytes(t));
    }
  }

  lemma SameFirst(e: Reg, a: seq<Reg>, b: seq<Reg>)
    ensures [e] + a == [e] + b <==> a == b
  {
    assert ([e] + a)[1..] == a && ([e] + b)[1..] == b;
  }

  lemma EmptiesLastStep(rs: seq<Reg>, regs: map<string, Reg>)
    requires rs != []
    ensures EmptiesLast(rs, regs) <==> (EmptiesLast(rs[1..], regs)
      && (Empty(rs[0], regs) ==> forall j :: 0 <= j < |rs[1..]| && rs[1..][j].save ==> rs[1..][j].data == []))
  {
    var t := rs[1..];
    if EmptiesLast(rs, regs) {
      forall i, j | 0 <= i < j < |t| && Empty(t[i], regs) && t[j].save ensures t[j].data == [] {
        assert rs[i + 1] == t[i] && rs[j + 1] == t[j];
      }
      forall j | 0 <= j < |t| && t[j].save && Empty(rs[0], regs) ensures t[j].data == [] {
        assert rs[j + 1] == t[j];
      }
    }
    forall i, j | EmptiesLast(t, regs) && 0 < i < j < |rs| && Empty(rs[i], regs) && rs[j].save ensures rs[j].data == [] {
      assert rs[i] == t[i - 1] && rs[j] == t[j - 1];
    }
    forall j | 0 < j < |rs| ensures rs[j] == t[j - 1] {}
  }

  lemma AllKnownStep(rs: seq<Reg>, regs: map<string, Reg>)
    requires rs != []
    ensures AllKnown(rs, regs) <==> AllKnown(rs[1..], regs) && (rs[0].save && rs[0].data != [] ==> Known(regs, rs[0]))
  {
    var t := rs[1..];
    forall i | 0 <= i < |t| ensures t[i] == rs[i + 1] {}
    forall i | 0 < i < |rs| ensures rs[i] == t[i - 1] {}
  }

  lemma {:induction false} NoBytes(rs: seq<Reg>)
    ensures WithBytes(rs) == [] <==> forall j :: 0 <= j < |rs| && rs[j].save ==> rs[j].data == []
  {
    if rs != [] {
      NoBytes(rs[1..]);
      forall j | 0 < j < |rs| ensures rs[j] == rs[1..][j - 1] {}
    }
  }

  lemma {:induction false} KeptLess(rs: seq<Reg>, waiting: bool, regs: map<string, Reg>)
    ensures |Kept(rs, waiting, regs)| <= |WithBytes(rs)|
    ensures waiting && WithBytes(rs) != [] ==> |Kept(rs, waiting, regs)| < |WithBytes(rs)|
  {
    if rs != [] { KeptLess(rs[1..], WaitingNext(rs[0], waiting, regs), regs); }
  }

  /** When none is lost, or no name could stand in a data line, no data line is taken for a header. */
  lemma {:induction false} QuietIf(rs: seq<Reg>, waiting: bool, regs: map<string, Reg>)
    requires (forall k :: k in regs ==> !LikeData(k)) || (EmptiesLast(rs, regs) && AllKnown(rs, regs) && (waiting ==> WithBytes(rs) == []))
    ensures Quiet(rs, waiting, regs)
  {
    if rs != [] {
      var e := rs[0];
      if forall k :: k in regs ==> !LikeData(k) {
        IgnoredByName(e.data, regs);
        if |e.data| > LINE_BYTES { IgnoredByName(e.data[LINE_BYTES..], regs); }
      } else {
        EmptiesLastStep(rs, regs);
        AllKnownStep(rs, regs);
        NoBytes(rs);
        NoBytes(rs[1..]);
      }
      QuietIf(rs[1..], WaitingNext(e, waiting, regs), regs);
    }
  }

  lemma {:induction false} PutAllKeys(regs: map<string, Reg>, rs: seq<Reg>)
    ensures PutAll(regs, rs).Keys == regs.Keys
  {
    if rs != [] {
      assert PutIn(regs, rs[0]).Keys == regs.Keys;
      PutAllKeys(PutIn(regs, rs[0]), rs[1..]);
    }
  }

  lemma {:induction false} PutAllLeaves(regs: map<string, Reg>, rs: seq<Reg>, k: string)
    requires k in regs && forall i :: 0 <= i < |rs| && rs[i].save ==> rs[i].name != k
    ensures k in PutAll(regs, rs) && PutAll(regs, rs)[k] == regs[k]
  {
    if rs != [] { PutAllLeaves(PutIn(regs, rs[0]), rs[1..], k); }
  }

  lemma {:induction false} PutAllGives(regs: map<string, Reg>, rs: seq<Reg>, k: string, d: seq<byte>)
    requires k in regs && forall i :: 0 <= i < |rs| && rs[i].save && rs[i].name == k ==> rs[i].data == d
    requires regs[k].data == d || exists i :: 0 <= i < |rs| && rs[i].save && rs[i].name == k
    ensures k in PutAll(regs, rs) && PutAll(regs, rs)[k].data == d
  {
    if rs != [] {
      var regs' := PutIn(regs, rs[0]);
      if regs'[k].data != d {
        var i :| 0 <= i < |rs| && rs[i].save && rs[i].name == k;
        assert rs[1..][i - 1] == rs[i];
      }
      PutAllGives(regs', rs[1..], k, d);
    }
  }

  /** Registry rs[i] is found in the table with its bytes. */
  ghost predicate Back(regs: map<string, Reg>, e: Reg) {
    e.name in regs && regs[e.name].data == e.data
  }

  /** Saved registries of one name hold the same bytes. */
  ghost predicate Agreeing(rs: seq<Reg>) {
    forall i, j :: 0 <= i < j < |rs| && rs[i].save && rs[j].save && rs[i].name == rs[j].name ==> rs[i].data == rs[j].data
  }

  /** A registry of that name reaches the table. */
  ghost predicate Reaches(rs: seq<Reg>, regs: map<string, Reg>, name: string) {
    exists k :: 0 <= k < |Kept(rs, false, regs)| && Kept(rs, false, regs)[k].name == name
  }

  lemma {:induction false} KeptIsSaved(rs: seq<Reg>, waiting: bool, regs: map<string, Reg>, k: nat)
    requires k < |Kept(rs, waiting, regs)|
    ensures var e := Kept(rs, waiting, regs)[k]; e.save && e in rs && e.name in regs
  {
    var n := if KeptOne(rs[0], waiting, regs) then 1 else 0;
    if k >= n { KeptIsSaved(rs[1..], WaitingNext(rs[0], waiting, regs), regs, k - n); }
  }

  lemma KeptAgrees(rs: seq<Reg>, regs: map<string, Reg>, i: nat, k: nat)
    requires Agreeing(rs) && i < |rs| && rs[i].save
    requires k < |Kept(rs, false, regs)| && Kept(rs, false, regs)[k].name == rs[i].name
    ensures Kept(rs, false, regs)[k].data == rs[i].data
  {
    KeptIsSaved(rs, false, regs, k);
    var j :| 0 <= j < |rs| && rs[j] == Kept(rs, false, regs)[k];
  }

  lemma OneIsBack(regs: map<string, Reg>, rs: seq<Reg>, i: nat)
    requires Agreeing(rs) && i < |rs| && rs[i].save
    ensures Back(PutAll(regs, Kept(rs, false, regs)), rs[i]) <==> Reaches(rs, regs, rs[i].name) || Back(regs, rs[i])
  {
    var ks := Kept(rs, false, regs);
    forall k | 0 <= k < |ks| ensures ks[k].save && ks[k].name in regs && (ks[k].name == rs[i].name ==> ks[k].data == rs[i].data) {
      KeptIsSaved(rs, false, regs, k);
      if ks[k].name == rs[i].name { KeptAgrees(rs, regs, i, k); }
    }
    PutAllKeys(regs, ks);
    if Reaches(rs, regs, rs[i].name) {
      PutAllGives(regs, ks, rs[i].name, rs[i].data);
    } else if rs[i].name in regs {
      PutAllLeaves(regs, ks, rs[i].name);
    }
  }

  /** All saved registries are back if and only if those of one name hold the same bytes, and
      those none of whose name reaches the table are what it held already. */
  lemma AllBackIff(regs: map<string, Reg>, rs: seq<Reg>)
    ensures (forall i :: 0 <= i < |rs| && rs[i].save ==> Back(PutAll(regs, Kept(rs, false, regs)), rs[i]))
      <==> Agreeing(rs) && forall i :: 0 <= i < |rs| && rs[i].save ==> Reaches(rs, regs, rs[i].name) || Back(regs, rs[i])
  {
    var after := PutAll(regs, Kept(rs, false, regs));
    if forall i :: 0 <= i < |rs| && rs[i].save ==> Back(after, rs[i]) {
      forall i, j | 0 <= i < j < |rs| && rs[i].save && rs[j].save && rs[i].name == rs[j].name
        ensures rs[i].data == rs[j].data
      {
        assert Back(after, rs[i]) && Back(after, rs[j]);
      }
    }
    if Agreeing(rs) {
      forall i | 0 <= i < |rs| && rs[i].save
        ensures Back(after, rs[i]) <==> Reaches(rs, regs, rs[i].name) || Back(regs, rs[i])
      {
        OneIsBack(regs, rs, i);
      }
    }
  }

  /** With the empty registries last every one with data that the table knows reaches it. */
  lemma EmptiesLastReach(rs: seq<Reg>, regs: map<string, Reg>, i: nat)
    requires EmptiesLast(rs, regs) && AllKnown(rs, regs) && i < |rs| && rs[i].save && rs[i].data != []
    ensures Reaches(rs, regs, rs[i].name)
  {
    NothingLostIff(rs, regs);
    HasBytes(rs, i);
  }

  lemma {:induction false} HasBytes(rs: seq<Reg>, i: nat)
    requires i < |rs| && rs[i].save && rs[i].data != []
    ensures rs[i] in WithBytes(rs)
  {
    if i > 0 { HasBytes(rs[1..], i - 1); }
  }

  /** Of two registries with one name and different bytes the first does not come back if the
      table knows both. */
  lemma SameNameIsLost(a: Reg, b: Reg, regs: map<string, Reg>)
    requires a.save && b.save && a.name == b.name && a.data != b.data && Known(regs, a) && Known(regs, b)
    ensures var after := PutAll(regs, Kept([a, b], false, regs)); !Back(after, a) && Back(after, b)
  {
    var rs := [a, b];
    assert rs[1..] == [b] && rs[1..][1..] == [];
    assert a.data != [] && b.data != [];
    assert Kept(rs[1..], false, regs) == [b] + [] == [b];
    assert Kept(rs, false, regs) == [a] + [b];
    PutFirst(regs, a, [b]);
    PutFirst(PutIn(regs, a), b, []);
    assert [b] + [] == [b];
  }

  /** In another size than the table knows it a registry does not come back, whatever else was saved. */
  lemma OtherSizeIsLost(rs: seq<Reg>, e: Reg, regs: map<string, Reg>)
    requires e.save && e.name in regs && |regs[e.name].data| != |e.data|
    ensures !Back(PutAll(regs, Kept(rs, false, regs)), e)
  {
    var ks := Kept(rs, false, regs);
    forall k | 0 <= k < |ks| ensures Known(regs, ks[k]) {
      KeptIsKnown(rs, false, regs, k);
    }
    SizesStay(regs, ks);
  }

  lemma {:induction false} KeptIsKnown(rs: seq<Reg>, waiting: bool, regs: map<string, Reg>, k: nat)
    requires k < |Kept(rs, waiting, regs)|
    ensures Known(regs, Kept(rs, waiting, regs)[k])
  {
    var n := if KeptOne(rs[0], waiting, regs) then 1 else 0;
    if k >= n { KeptIsKnown(rs[1..], WaitingNext(rs[0], waiting, regs), regs, k - n); }
  }

  lemma {:induction false} SizesStay(regs: map<string, Reg>, ks: seq<Reg>)
    requires forall k :: 0 <= k < |ks| ==> Known(regs, ks[k])
    ensures SameShape(regs, PutAll(regs, ks))
  {
    if ks != [] {
      var next := PutIn(regs, ks[0]);
      assert SameShape(regs, next);
      forall k | 0 <= k < |ks[1..]| ensures Known(next, ks[1..][k]) {
        assert Known(regs, ks[k + 1]);
      }
      SizesStay(next, ks[1..]);
    }
  }

  /** A registry behind an empty one comes back only if it had its bytes all along. */
  lemma BehindEmptyIsLost(e: Reg, b: Reg, regs: map<string, Reg>)
    requires Empty(e, regs)
    ensures Back(PutAll(regs, Kept([e, b], false, regs)), b) <==> Back(regs, b)
  {
    var rs := [e, b];
    assert rs[1..] == [b] && rs[1..][1..] == [];
    assert Kept([b], true, regs) == [] + Kept([], WaitingNext(b, true, regs), regs);
    assert Kept(rs, false, regs) == [] + Kept([b], true, regs);
  }

  // ----- restore_registry -----

  /** The loop of lines 484-504 over the words of one line. */
  method PlaceWords(words0: seq<string>, data0: seq<byte>, j0: nat) returns (data: seq<byte>, j: nat, completed: bool)
    requires j0 <= |data0|
    ensures (data, j, completed) == ReadWords(words0, data0, j0)
  {
    var words := words0;
    data, j, completed := data0, j0, false;
    while j < |data| && words != []
      invariant j <= |data| == |data0| && ReadWords(words, data, j) == ReadWords(words0, data0, j0)
      decreases |words|
    {
      var chunk := if |words[0]| > 2 * CHUNK then words[0][..2 * CHUNK] else words[0];
      var len := |chunk| / 2;
      if j > |data| - len {
        return data, j, true;
      }
      data := data[..j] + HexToBin(chunk[..2 * len]) + data[j + len..];
      words, j := words[1..], j + len;
    }
    completed := j == |data|;
  }

  /** The registries of all modules, found by name. */
  class RegistryTable {
    var regs: map<string, Reg>

    constructor (regs: map<string, Reg>)
      ensures this.regs == regs
    {
      this.regs := regs;
    }

    /** Lines 484-504: the words of a data line go to the registry `name`, from position j0 on. */
    method ReadDataLine(buf: string, name: string, j0: nat) returns (j: nat, completed: bool)
      requires name in regs && j0 <= |regs[name].data|
      modifies this
      ensures Reader(regs, name, j, completed) == ReadData(buf, Reader(old(regs), name, j0, false))
      ensures name in regs && j <= |regs[name].data|
    {
      var data;
      data, j, completed := PlaceWords(Tokens(CutWrap(buf)), regs[name].data, j0);
      regs := regs[name := regs[name].(data := data)];
    }

    /** Reads a registry file line by line; what does not fit is skipped. */
    method Restore(inp: string)
      modifies this
      ensures regs == ReadAll(inp, Reader(old(regs), "", 0, true)).regs
    {
      var rest := inp;
      var name, j, completed := "", 0, true;
      while rest != ""
        invariant ValidReader(Reader(regs, name, j, completed))
        invariant ReadAll(rest, Reader(regs, name, j, completed)).regs == ReadAll(inp, Reader(old(regs), "", 0, true)).regs
        decreases |rest|
      {
        var buf := Fgets(rest);
        rest := rest[|buf|..];
        if buf[0] == '#' || (buf[0] != ' ' && !completed) {
          continue;
        }
        if completed {
          var words := Tokens(buf);
          if |words| >= 3 && words[1] in regs && regs[words[1]].save && |regs[words[1]].data| == Atoi(words[2]) {
            name, j, completed := words[1], 0, false;
          }
        } else {
          j, completed := ReadDataLine(buf, name, j);
        }
      }
    }
  }

  /** A line of its own that says nothing to the reader. */
  ghost predicate Comment(line: string) {
    && 2 <= |line| < SHORT_STRING_SIZE && line[0] == '#'
    && line[|line| - 1] == '\n' && '\n' !in line[..|line| - 1]
  }

  lemma {:induction false} CommentsSkipped(comments: seq<string>, rest: string, r: Reader)
    requires ValidReader(r) && forall i :: 0 <= i < |comments| ==> Comment(comments[i])
    ensures ReadAll(Flatten(comments) + rest, r) == ReadAll(rest, r)
  {
    if comments == [] {
      assert Flatten(comments) + rest == rest;
    } else {
      ReadAllLine(comments[0], Flatten(comments[1..]) + rest, r);
      Regroup(comments[0], Flatten(comments[1..]), rest);
      CommentsSkipped(comments[1..], rest, r);
    }
  }

  /** Whatever a table holds, restoring a saved file leaves all that were not saved as they are;
      when all that were saved are back is told exactly. The file starts with comments, and no
      data line that is passed over happens to be a header of the table. */
  method SaveAndRestore(comments: seq<string>, rs: seq<Reg>, table: RegistryTable)
    requires forall i :: 0 <= i < |comments| ==> Comment(comments[i])
    requires forall i :: 0 <= i < |rs| && rs[i].save ==> Storable(rs[i])
    requires Quiet(rs, false, table.regs)
    modifies table
    ensures (forall i :: 0 <= i < |rs| && rs[i].save ==> Back(table.regs, rs[i])) <==> (Agreeing(rs)
      && forall i :: 0 <= i < |rs| && rs[i].save ==> Reaches(rs, old(table.regs), rs[i].name) || Back(old(table.regs), rs[i]))
    ensures table.regs.Keys == old(table.regs).Keys
    ensures forall k :: k in table.regs && (forall i :: 0 <= i < |rs| && rs[i].save ==> rs[i].name != k) ==>
      table.regs[k] == old(table.regs)[k]
  {
    var file := Save(rs);
    ghost var regs := table.regs;
    CommentsSkipped(comments, file, Reader(regs, "", 0, true));
    RestoreSaved(rs, Reader(regs, "", 0, true));
    AllBackIff(regs, rs);
    PutAllKeys(regs, Kept(rs, false, regs));
    OthersLeft(regs, rs);
    table.Restore(Flatten(comments) + file);
  }

  /** Registries that the table knows, the empty ones last: whatever their names and sizes, all
      are back exactly when those of one name hold the same bytes. */
  method SaveAndRestoreKnown(comments: seq<string>, rs: seq<Reg>, table: RegistryTable)
    requires forall i :: 0 <= i < |comments| ==> Comment(comments[i])
    requires forall i :: 0 <= i < |rs| && rs[i].save ==> Storable(rs[i]) && Known(table.regs, rs[i])
    requires EmptiesLast(rs, table.regs)
    modifies table
    ensures (forall i :: 0 <= i < |rs| && rs[i].save ==> Back(table.regs, rs[i])) <==> Agreeing(rs)
    ensures table.regs.Keys == old(table.regs).Keys
    ensures forall k :: k in table.regs && (forall i :: 0 <= i < |rs| && rs[i].save ==> rs[i].name != k) ==>
      table.regs[k] == old(table.regs)[k]
  {
    QuietIf(rs, false, table.regs);
    EmptiesAreBack(table.regs, rs);
    SaveAndRestore(comments, rs, table);
  }

  lemma EmptiesAreBack(regs: map<string, Reg>, rs: seq<Reg>)
    requires EmptiesLast(rs, regs) && forall i :: 0 <= i < |rs| && rs[i].save ==> Known(regs, rs[i])
    ensures forall i :: 0 <= i < |rs| && rs[i].save ==> Reaches(rs, regs, rs[i].name) || Back(regs, rs[i])
  {
    forall i | 0 <= i < |rs| && rs[i].save ensures Reaches(rs, regs, rs[i].name) || Back(regs, rs[i]) {
      if rs[i].data != [] { EmptiesLastReach(rs, regs, i); } else { assert regs[rs[i].name].data == []; }
    }
  }

  lemma OthersLeft(regs: map<string, Reg>, rs: seq<Reg>)
    ensures forall k :: k in regs && (forall i :: 0 <= i < |rs| && rs[i].save ==> rs[i].name != k) ==>
      k in PutAll(regs, Kept(rs, false, regs)) && PutAll(regs, Kept(rs, false, regs))[k] == regs[k]
  {
    var ks := Kept(rs, false, regs);
    forall k | k in regs && forall i :: 0 <= i < |rs| && rs[i].save ==> rs[i].name != k
      ensures k in PutAll(regs, ks) && PutAll(regs, ks)[k] == regs[k]
    {
      forall i | 0 <= i < |ks| ensures ks[i].name != k {
        KeptIsSaved(rs, false, regs, i);
      }
      PutAllLeaves(regs, ks, k);
    }
  }
}
