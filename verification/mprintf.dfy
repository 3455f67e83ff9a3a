/** Integer fields and output sinks of common/mprintf.c. */
module Mprintf {
  import opened Strings
  import opened Wrappers

  const BUFFSIZE: nat := 256

  datatype Flags = Flags(left: bool, padNil: bool, showSign: bool, space: bool, alt: bool, upper: bool)

  // ----- digits -----

  predicate Base(base: nat) {
    base == 8 || base == 10 || base == 16
  }

  /** digits[x], from the lower or the upper case table. */
  function DigitChar(x: nat, upper: bool): (c: char)
    requires x < 16
    ensures DigitValue(c) == x && (x < 10 ==> IsDigit(c))
    ensures c == (if upper then "0123456789ABCDEF"[x] else "0123456789abcdef"[x])
  {
    if x < 10 then ('0' as int + x) as char
    else if upper then ('A' as int + (x - 10)) as char else ('a' as int + (x - 10)) as char
  }

  function DigitValue(c: char): nat {
    if '0' <= c <= '9' then c as nat - '0' as nat
    else if 'a' <= c <= 'f' then c as nat - 'a' as nat + 10
    else if 'A' <= c <= 'F' then c as nat - 'A' as nat + 10
    else 0
  }

  /** The number that a string of digits denotes. */
  function Value(s: string, base: nat): nat {
    if s == "" then 0 else Times(base, Value(s[..|s| - 1], base)) + DigitValue(s[|s| - 1])
  }

  /** Product, quotient and remainder for the three bases. */
  function Times(base: nat, v: nat): nat {
    if base == 8 then 8 * v else if base == 10 then 10 * v else 16 * v
  }

  function Quotient(n: nat, base: nat): (q: nat)
    ensures n > 0 ==> q < n
  {
    if base == 8 then n / 8 else if base == 10 then n / 10 else n / 16
  }

  function Remainder(n: nat, base: nat): (r: nat)
    ensures r < 16
  {
    if base == 8 then n % 8 else if base == 10 then n % 10 else n % 16
  }

  lemma Divided(n: nat, base: nat)
    requires Base(base)
    ensures Times(base, Quotient(n, base)) + Remainder(n, base) == n
    ensures Quotient(n, base) == n / base && Remainder(n, base) == n % base
  {
  }

  /** The digits of a number, none for zero. */
  function Digits(n: nat, base: nat, upper: bool): (s: string)
    ensures s == "" <==> n == 0
  {
    if n == 0 then "" else Digits(Quotient(n, base), base, upper) + [DigitChar(Remainder(n, base), upper)]
  }

  /** The digits denote the number, and are no more than needed. */
  lemma {:induction false} DigitsValue(n: nat, base: nat, upper: bool)
    requires Base(base)
    ensures Value(Digits(n, base, upper), base) == n
    ensures n > 0 ==> Digits(n, base, upper)[0] != '0'
  {
    if n > 0 {
      var q := Quotient(n, base);
      var front := Digits(q, base, upper);
      DigitsValue(q, base, upper);
      ValueMore(front, DigitChar(Remainder(n, base), upper), base);
      Divided(n, base);
    }
  }

  function Repeat(c: char, k: int): (s: string)
    ensures |s| == (if k > 0 then k else 0) && forall i :: 0 <= i < |s| ==> s[i] == c
  {
    if k <= 0 then "" else [c] + Repeat(c, k - 1)
  }

  lemma {:induction false} RepeatMore(c: char, k: nat)
    ensures Repeat(c, k) + [c] == Repeat(c, k + 1)
  {
    if k > 0 { RepeatMore(c, k - 1); }
  }

  lemma {:induction false} LeadingZeros(k: int, s: string, base: nat)
    ensures Value(Repeat('0', k) + s, base) == Value(s, base)
    decreases |s|
  {
    var z := Repeat('0', k);
    if s == "" {
      assert z + s == z;
      if k > 0 { ZerosAreNothing(k, base); }
    } else {
      var front := s[..|s| - 1];
      assert s == front + [s[|s| - 1]];
      Regroup(z, front, [s[|s| - 1]]);
      ValueMore(z + front, s[|s| - 1], base);
      LeadingZeros(k, front, base);
    }
  }

  lemma {:induction false} ZerosAreNothing(k: nat, base: nat)
    ensures Value(Repeat('0', k), base) == 0
  {
    if k > 0 {
      ZerosAreNothing(k - 1, base);
      ValueMore(Repeat('0', k - 1), '0', base);
      RepeatMore('0', k - 1);
    }
  }

  lemma ValueMore(s: string, c: char, base: nat)
    ensures Value(s + [c], base) == Times(base, Value(s, base)) + DigitValue(c)
  {
    assert (s + [c])[..|s|] == s;
  }

  lemma NoZeros(k: int, s: string)
    requires k <= 0
    ensures Repeat('0', k) + s == s
  {
  }

  /** The precision in effect. */
  function Precision(prec: int): int {
    if prec == -1 then 1 else prec
  }

  /** The number of zeros before that many digits. */
  function ZerosFor(have: nat, base: nat, f: Flags, prec: int): int {
    var short := Precision(prec) - have;
    if f.alt && base == 8 && short <= 0 then 1 else short
  }

  /** The digits that are written: at least as many as the precision asks for, and a leading zero
      for the alternate octal form; they denote the number. */
  function Body(n: nat, base: nat, f: Flags, prec: int): (s: string)
    requires Base(base)
    ensures Value(s, base) == n && |s| >= Precision(prec)
    ensures f.alt && base == 8 ==> s != "" && s[0] == '0'
  {
    var d := Digits(n, base, f.upper);
    DigitsValue(n, base, f.upper);
    LeadingZeros(ZerosFor(|d|, base, f, prec), d, base);
    Repeat('0', ZerosFor(|d|, base, f, prec)) + d
  }

  function Sign(isNeg: bool, f: Flags): (s: string)
    ensures |s| <= 1
  {
    if isNeg then "-" else if f.showSign then "+" else if f.space then " " else ""
  }

  function Prefix(base: nat, f: Flags): string {
    if f.alt && base == 16 then (if f.upper then "0X" else "0x") else ""
  }

  /** Sign and prefix, and digits, filled up to the width by blanks on the right, zeros in the
      middle or blanks on the left. */
  function Filled(head: string, body: string, width: int, f: Flags): string {
    var fill := width - |head| - |body|;
    if f.left then head + body + Repeat(' ', fill)
    else if f.padNil then head + (Repeat('0', fill) + body)
    else Repeat(' ', fill) + (head + body)
  }

  /** The whole field as this source lays it out. ISO C, other than here, ignores the flag that asks
      for zeros when a precision is given, and writes no 0x before zero. */
  function Field(n: nat, isNeg: bool, base: nat, f: Flags, width: int, prec: int): string
    requires Base(base)
  {
    Filled(Sign(isNeg, f) + Prefix(base, f), Body(n, base, f, prec), width, f)
  }

  /** A field is as wide as asked for, or as wide as it has to be. */
  lemma FieldWidth(n: nat, isNeg: bool, base: nat, f: Flags, width: int, prec: int)
    requires Base(base)
    ensures var need := |Sign(isNeg, f)| + |Prefix(base, f)| + |Body(n, base, f, prec)|;
      |Field(n, isNeg, base, f, width, prec)| == if width > need then width else need
  {
  }

  /** A field is its head and its digits with blanks or zeros put in. */
  lemma FieldParts(n: nat, isNeg: bool, base: nat, f: Flags, width: int, prec: int, head: string, body: string)
    requires Base(base) && Sign(isNeg, f) + Prefix(base, f) == head && Body(n, base, f, prec) == body
    ensures Field(n, isNeg, base, f, width, prec) == Filled(head, body, width, f)
  {
  }

  /** 42 to the right, to the left, and behind zeros. */
  lemma FieldExamples(f: Flags)
    requires f == Flags(false, false, false, false, false, false)
    ensures Field(42, false, 10, f, 5, -1) == "   42" && Field(42, false, 10, f.(left := true), 5, -1) == "42   "
    ensures Field(42, false, 10, f.(padNil := true), 5, -1) == "00042"
  {
    Body42(f, -1);
    FieldParts(42, false, 10, f, 5, -1, "", "42");
    FieldParts(42, false, 10, f.(left := true), 5, -1, "", "42");
    FieldParts(42, false, 10, f.(padNil := true), 5, -1, "", "42");
    RepeatExamples();
    NothingAround("42");
  }

  /** A minus sign, and a blank, before it. */
  lemma SignExamples(f: Flags)
    requires f == Flags(false, false, false, false, false, false)
    ensures Field(42, true, 10, f.(padNil := true, showSign := true), 5, -1) == "-0042"
    ensures Field(42, false, 10, f.(space := true), 0, -1) == " 42"
  {
    Body42(f, -1);
    FieldParts(42, true, 10, f.(padNil := true, showSign := true), 5, -1, "-", "42");
    FieldParts(42, false, 10, f.(space := true), 0, -1, " ", "42");
    RepeatExamples();
  }

  /** A plus sign, which goes before a blank, and a precision. */
  lemma PlusExample(f: Flags)
    requires f == Flags(false, false, true, true, false, false)
    ensures Field(42, false, 10, f, 5, 3) == " +042"
  {
    Body42(f, 3);
    FieldParts(42, false, 10, f, 5, 3, "+", "042");
    RepeatExamples();
    assert "+" + "042" == "+042" && " " + "+042" == " +042";
  }

  lemma Body42(f: Flags, prec: int)
    requires !f.alt && (prec == -1 || prec == 3)
    ensures forall g: Flags :: !g.alt && g.upper == f.upper ==> Body(42, 10, g, prec) == if prec == 3 then "042" else "42"
  {
    DecimalExample(f.upper);
    RepeatExamples();
    NothingAround("42");
  }

  /** The alternate hexadecimal form of 43 in both cases, and the octal one. */
  lemma HexExamples(f: Flags)
    requires f == Flags(false, false, false, false, true, f.upper)
    ensures Field(43, false, 16, f, 0, -1) == if f.upper then "0X2B" else "0x2b"
  {
    Body43(f);
    FieldParts(43, false, 16, f, 0, -1, if f.upper then "0X" else "0x", if f.upper then "2B" else "2b");
    assert "0X" + "2B" == "0X2B" && "0x" + "2b" == "0x2b";
    NothingAround("0X2B");
    NothingAround("0x2b");
  }

  lemma OctalExample(f: Flags)
    requires f == Flags(false, false, false, false, true, false)
    ensures Field(43, false, 8, f, 0, -1) == "053"
  {
    Body43(f);
    FieldParts(43, false, 8, f, 0, -1, "", "053");
    NothingAround("053");
  }

  lemma Body43(f: Flags)
    requires f.alt
    ensures Body(43, 16, f, -1) == (if f.upper then "2B" else "2b") && (!f.upper ==> Body(43, 8, f, -1) == "053")
  {
    OtherBasesExample();
    RepeatExamples();
    NothingAround("2b");
    NothingAround("2B");
  }

  /** The default precision is 1: zero is written as one digit, and as none if none is asked for. */
  lemma ZeroExamples(f: Flags, base: nat)
    requires Base(base) && !f.alt
    ensures Body(0, base, f, -1) == "0" && Body(0, base, f, 0) == "" && Body(0, base, f, 3) == "000"
  {
    assert Repeat('0', 1) == ['0'] + Repeat('0', 0);
    assert Repeat('0', 2) == ['0'] + Repeat('0', 1);
    assert Repeat('0', 3) == ['0'] + Repeat('0', 2);
  }

  lemma RepeatExamples()
    ensures Repeat(' ', 1) == " " && Repeat(' ', 3) == "   "
    ensures Repeat('0', 1) == "0" && Repeat('0', 2) == "00" && Repeat('0', 3) == "000"
  {
  }

  lemma DecimalExample(upper: bool)
    ensures Digits(42, 10, upper) == "42"
  {
    assert Digits(4, 10, upper) == Digits(0, 10, upper) + "4";
  }

  lemma OtherBasesExample()
    ensures Digits(43, 16, false) == "2b" && Digits(43, 16, true) == "2B" && Digits(43, 8, false) == "53"
  {
    assert Digits(2, 16, false) == "2" && Digits(2, 16, true) == "2" && Digits(5, 8, false) == "5";
  }

  // ----- reading a decimal field back -----

  predicate AllDigits(s: string) {
    forall i :: 0 <= i < |s| ==> IsDigit(s[i])
  }

  lemma {:induction false} DecimalDigits(n: nat, upper: bool)
    ensures AllDigits(Digits(n, 10, upper))
  {
    if n > 0 { DecimalDigits(Quotient(n, 10), upper); }
  }

  /** AtoiFrom reads what Value denotes. */
  lemma {:induction false} AtoiReads(s: string, rest: string)
    requires AllDigits(s) && (rest == "" || !IsDigit(rest[0]))
    ensures AtoiFrom(s + rest, 0) == Value(s, 10)
  {
    AtoiPrefix(s, rest);
    if rest != "" { assert AtoiFrom(rest, Value(s, 10)) == Value(s, 10); }
  }

  lemma {:induction false} AtoiPrefix(s: string, rest: string)
    requires AllDigits(s)
    ensures AtoiFrom(s + rest, 0) == AtoiFrom(rest, Value(s, 10))
    decreases |s|
  {
    if s == "" {
      assert s + rest == rest;
    } else {
      var front, last := s[..|s| - 1], [s[|s| - 1]];
      AtoiPrefix(front, last + rest);
      assert s + rest == front + (last + rest);
      assert (last + rest)[1..] == rest;
    }
  }

  lemma {:induction false} SkipBlanks(k: int, s: string)
    ensures Atoi(Repeat(' ', k) + s) == Atoi(s)
    decreases k
  {
    if k > 0 {
      var t := Repeat(' ', k) + s;
      assert t[1..] == Repeat(' ', k - 1) + s;
      SkipBlanks(k - 1, s);
    } else {
      assert Repeat(' ', k) + s == s;
    }
  }

  lemma SignedReads(isNeg: bool, f: Flags, digits: string, k: int)
    requires AllDigits(digits) && (isNeg ==> digits != "")
    ensures Atoi(Sign(isNeg, f) + digits + Repeat(' ', k)) == if isNeg then 0 - Value(digits, 10) else Value(digits, 10)
  {
    var s, rest := digits + Repeat(' ', k), Repeat(' ', k);
    AtoiReads(digits, rest);
    assert Sign(isNeg, f) + digits + rest == Sign(isNeg, f) + s;
    if digits == "" {
      SkipBlanks(k, "");
      assert rest + "" == rest == s;
    }
    if isNeg || f.showSign || f.space {
      assert (Sign(isNeg, f) + s)[1..] == s;
    } else {
      assert "" + s == s;
    }
  }

  lemma BodyDigits(n: nat, f: Flags, prec: int)
    ensures AllDigits(Body(n, 10, f, prec)) && (n > 0 ==> Body(n, 10, f, prec) != "")
  {
    DecimalDigits(n, f.upper);
  }

  /** Filled up in any of the three ways, signed digits read the same. */
  lemma FilledReads(isNeg: bool, f: Flags, body: string, width: int)
    requires AllDigits(body) && (isNeg ==> body != "")
    ensures Atoi(Filled(Sign(isNeg, f), body, width, f)) == if isNeg then 0 - Value(body, 10) else Value(body, 10)
  {
    var sign, fill := Sign(isNeg, f), width - |Sign(isNeg, f)| - |body|;
    if f.left {
      SignedReads(isNeg, f, body, fill);
    } else if f.padNil {
      var padded := Repeat('0', fill) + body;
      LeadingZeros(fill, body, 10);
      SignedReads(isNeg, f, padded, 0);
      Regroup(sign, padded, "");
    } else {
      SignedReads(isNeg, f, body, 0);
      Regroup(sign, body, "");
      SkipBlanks(fill, sign + body);
    }
  }

  /** Whatever the flags, the width and the precision, reading a decimal field gives the number back. */
  lemma FieldReads(n: nat, isNeg: bool, f: Flags, width: int, prec: int)
    requires isNeg ==> n > 0
    ensures Atoi(Field(n, isNeg, 10, f, width, prec)) == if isNeg then 0 - n else n
  {
    BodyDigits(n, f, prec);
    FilledReads(isNeg, f, Body(n, 10, f, prec), width);
    Regroup(Sign(isNeg, f), "", "");
    assert Prefix(10, f) == "" && Sign(isNeg, f) + "" == Sign(isNeg, f);
  }

  // ----- the number block -----

  /** *w-- = c */
  method Push(work: array<char>, w0: int, c: char) returns (w: int)
    requires 0 <= w0 < work.Length
    modifies work
    ensures w == w0 - 1 && work[w0..] == [c] + old(work[w0 + 1..])
  {
    work[w0] := c;
    w := w0 - 1;
  }

  lemma DigitsStep(n: nat, base: nat, upper: bool, done: string)
    requires Base(base) && n > 0
    ensures n % base < 16
    ensures Digits(n, base, upper) + done == Digits(n / base, base, upper) + ([DigitChar(n % base, upper)] + done)
  {
    Divided(n, base);
    Regroup(Digits(Quotient(n, base), base, upper), [DigitChar(Remainder(n, base), upper)], done);
  }

  /** Lines 775-780: the digits are put into `work` from its end. */
  method PutDigits(work: array<char>, num0: nat, base: nat, upper: bool) returns (r: Outcome, w: int)
    requires Base(base) && work.Length == BUFFSIZE
    modifies work
    ensures r == if |Digits(num0, base, upper)| <= BUFFSIZE then Success else Undefined
    ensures r == Success ==> -1 <= w < BUFFSIZE && work[w + 1..] == Digits(num0, base, upper)
  {
    var num: nat := num0;
    w := BUFFSIZE - 1;
    ghost var digits, done := Digits(num0, base, upper), "";
    Regroup(digits, "", "");
    while num > 0
      invariant -1 <= w < BUFFSIZE && work[w + 1..] == done && digits == Digits(num, base, upper) + done
    {
      if w < 0 {
        return Undefined, w;
      }
      DigitsStep(num, base, upper, done);
      done := [DigitChar(num % base, upper)] + done;
      w := Push(work, w, DigitChar(num % base, upper));
      num := num / base;
    }
    NothingAround(done);
    r := Success;
  }

  /** Lines 781-793: how many zeros go before that many digits, and what is left of the width. */
  method CountZeros(have: nat, base: nat, f: Flags, prec0: int, width0: int) returns (prec: int, width: int)
    ensures prec == ZerosFor(have, base, f, prec0) && width == width0 - have - (if prec > 0 then prec else 0)
  {
    prec := if prec0 == -1 then 1 else prec0;
    width := width0 - have;
    prec := prec - have;
    if f.alt && base == 8 && prec <= 0 {
      prec := 1;
    }
    if prec > 0 {
      width := width - prec;
    }
  }

  /** Lines 782-796: zeros go before the digits; the one of the alternate octal form is
      written as the one digit that a precision may still ask for. */
  method PrependZeros(work: array<char>, w0: int, base: nat, f: Flags, prec0: int, width0: int, ghost digits: string)
    returns (r: Outcome, w: int, width: int)
    requires work.Length == BUFFSIZE && -1 <= w0 < BUFFSIZE && work[w0 + 1..] == digits
    modifies work
    ensures r == if ZerosFor(|digits|, base, f, prec0) <= w0 + 1 then Success else Undefined
    ensures r == Success ==> -1 <= w < BUFFSIZE && work[w + 1..] == Repeat('0', ZerosFor(|digits|, base, f, prec0)) + digits
    ensures r == Success ==> width == width0 - (BUFFSIZE - 1 - w)
  {
    var workend, prec := BUFFSIZE - 1, 0;
    prec, width := CountZeros(workend - w0, base, f, prec0, width0);
    if prec > 0 {
      r, w := PutZeros(work, w0, prec, digits);
    } else {
      NoZeros(prec, digits);
      r, w := Success, w0;
    }
  }

  /** Lines 771-796: the digits, and zeros before them. `work` is overrun exactly if it has not room
      for all of them. */
  method FillWork(work: array<char>, num: nat, base: nat, f: Flags, prec: int, width0: int) returns (r: Outcome, w: int, width: int)
    requires Base(base) && prec >= -1 && work.Length == BUFFSIZE
    modifies work
    ensures r == if |Body(num, base, f, prec)| <= BUFFSIZE then Success else Undefined
    ensures r == Success ==>
      -1 <= w < BUFFSIZE && work[w + 1..] == Body(num, base, f, prec) && width == width0 - |Body(num, base, f, prec)|
  {
    width := width0;
    r, w := PutDigits(work, num, base, f.upper);
    BodyLength(num, base, f, prec);
    if r == Success {
      r, w, width := PrependZeros(work, w, base, f, prec, width0, Digits(num, base, f.upper));
    }
  }

  lemma BodyLength(num: nat, base: nat, f: Flags, prec: int)
    requires Base(base)
    ensures var d := Digits(num, base, f.upper); var zeros := ZerosFor(|d|, base, f, prec);
      Body(num, base, f, prec) == Repeat('0', zeros) + d && |Body(num, base, f, prec)| == (if zeros > 0 then zeros else 0) + |d|
  {
  }

  /** while (prec-- > 0) *w-- = '0' */
  method PutZeros(work: array<char>, w0: int, prec0: nat, ghost digits: string) returns (r: Outcome, w: int)
    requires -1 <= w0 < work.Length && work[w0 + 1..] == digits
    modifies work
    ensures r == if prec0 <= w0 + 1 then Success else Undefined
    ensures r == Success ==> w == w0 - prec0 && work[w + 1..] == Repeat('0', prec0) + digits
  {
    var prec: int := prec0;
    w := w0;
    while prec > 0
      invariant 0 <= prec <= prec0 && -1 <= w == w0 - (prec0 - prec)
      invariant forall k :: w < k <= w0 ==> work[k] == '0'
      invariant forall k :: w0 < k < work.Length ==> work[k] == old(work[k])
    {
      if w < 0 {
        return Undefined, w;
      }
      work[w] := '0';
      w := w - 1;
      prec := prec - 1;
    }
    r := Success;
    ZerosThen(old(work[..]), work[..], w, w0, digits);
  }

  lemma ZerosThen(was: seq<char>, now: seq<char>, w: int, w0: int, digits: string)
    requires -1 <= w <= w0 < |was| == |now| && was[w0 + 1..] == digits
    requires forall k :: w < k <= w0 ==> now[k] == '0'
    requires forall k :: w0 < k < |was| ==> now[k] == was[k]
    ensures now[w + 1..] == Repeat('0', w0 - w) + digits
  {
    assert now[w + 1..w0 + 1] == Repeat('0', w0 - w);
    assert now[w0 + 1..] == digits;
    assert now[w + 1..] == now[w + 1..w0 + 1] + now[w0 + 1..];
  }

  /** while (width-- > 0) OUTCHAR(c) */
  method Fill(out0: string, c: char, width0: int) returns (out: string, width: int)
    ensures out == out0 + Repeat(c, width0) && width < 0
  {
    out, width := out0, width0;
    assert out0 + "" == out0;
    ghost var k := 0;
    while width > 0
      invariant k >= 0 && (width0 > 0 ==> width == width0 - k >= 0) && (width0 <= 0 ==> width == width0 && k == 0)
      invariant out == out0 + Repeat(c, k)
    {
      RepeatMore(c, k);
      assert out0 + Repeat(c, k) + [c] == out0 + (Repeat(c, k) + [c]);
      out := out + [c];
      width := width - 1;
      k := k + 1;
    }
    width := width - 1;
  }

  /** Lines 798-802. */
  method HeadWidth(isNeg: bool, base: nat, f: Flags, width0: int) returns (width: int)
    ensures width == width0 - |Sign(isNeg, f) + Prefix(base, f)|
  {
    width := width0;
    if f.alt && base == 16 {
      width := width - 2;
    }
    if isNeg || f.showSign || f.space {
      width := width - 1;
    }
  }

  /** Lines 808-821. */
  method PutHead(out0: string, isNeg: bool, base: nat, f: Flags) returns (out: string)
    ensures out == out0 + (Sign(isNeg, f) + Prefix(base, f))
  {
    out := out0;
    if isNeg {
      out := out + "-";
    } else if f.showSign {
      out := out + "+";
    } else if f.space {
      out := out + " ";
    }
    Regroup(out0, Sign(isNeg, f), Prefix(base, f));
    assert out == out0 + Sign(isNeg, f);
    if f.alt && base == 16 {
      out := out + ['0'] + [if f.upper then 'X' else 'x'];
      assert out == out0 + Sign(isNeg, f) + Prefix(base, f);
    }
  }

  /** Lines 827-830. */
  method PutWork(out0: string, work: array<char>, w0: int) returns (out: string)
    requires work.Length == BUFFSIZE && -1 <= w0 < BUFFSIZE
    ensures out == out0 + work[w0 + 1..]
  {
    var w := w0 + 1;
    out := out0;
    assert out0 + work[w..w] == out0;
    while w <= BUFFSIZE - 1
      invariant w0 < w <= BUFFSIZE && out == out0 + work[w0 + 1..w]
    {
      assert work[w0 + 1..w + 1] == work[w0 + 1..w] + [work[w]];
      out := out + [work[w]];
      w := w + 1;
    }
    assert work[w0 + 1..w] == work[w0 + 1..];
  }

  /** Lines 767-835, the characters going to `out`: the field is laid out as told by Field,
      unless its digits overrun `work`. */
  method Number(num: nat, isNeg: bool, base: nat, f: Flags, width0: int, prec: int) returns (r: Outcome, out: string)
    requires Base(base) && prec >= -1
    ensures r == if |Body(num, base, f, prec)| <= 256 then Success else Undefined
    ensures r == Success ==> out == Field(num, isNeg, base, f, width0, prec)
  {
    var work := new char[BUFFSIZE](_ => ' ');
    var w, width;
    r, w, width := FillWork(work, num, base, f, prec, width0);
    if r != Success {
      return r, "";
    }
    ghost var head, body := Sign(isNeg, f) + Prefix(base, f), Body(num, base, f, prec);
    width := HeadWidth(isNeg, base, f, width);
    out, width := PutStart(isNeg, base, f, width);
    ghost var start := out;
    out := PutWork(out, work, w);
    if f.left {
      out, width := Fill(out, ' ', width);
    }
    Arranged(head, body, width0, f, start, out);
  }

  /** What comes before the digits: blanks, sign and prefix, zeros. */
  method PutStart(isNeg: bool, base: nat, f: Flags, width0: int) returns (out: string, width: int)
    ensures out == Start(Sign(isNeg, f) + Prefix(base, f), width0, f) && (f.left ==> width == width0)
  {
    out, width := "", width0;
    if !f.left && !f.padNil {
      out, width := Fill(out, ' ', width);
    }
    out := PutHead(out, isNeg, base, f);
    if !f.left && f.padNil {
      out, width := Fill(out, '0', width);
    }
    NothingAround(Repeat(' ', width0));
    NothingAround(Sign(isNeg, f) + Prefix(base, f));
  }

  function Start(head: string, fill: int, f: Flags): string {
    if f.left then head else if f.padNil then head + Repeat('0', fill) else Repeat(' ', fill) + head
  }

  /** The pieces in the order they are written. */
  lemma Arranged(head: string, body: string, width: int, f: Flags, start: string, out: string)
    requires var fill := width - |head| - |body|;
      && start == Start(head, fill, f)
      && out == (if f.left then start + body + Repeat(' ', fill) else start + body)
    ensures out == Filled(head, body, width, f)
  {
    var fill := width - |head| - |body|;
    Regroup(head, Repeat('0', fill), body);
    Regroup(Repeat(' ', fill), head, body);
  }

  function Pow8(k: nat): (r: nat)
    ensures r >= 1
  {
    if k == 0 then 1 else 8 * Pow8(k - 1)
  }

  lemma {:induction false} DigitsFew(n: nat, base: nat, upper: bool, k: nat)
    requires Base(base) && n < Pow8(k)
    ensures |Digits(n, base, upper)| <= k
    decreases k
  {
    if n > 0 { DigitsFew(Quotient(n, base), base, upper, k - 1); }
  }

  /** What an unsigned long needs fits into `work` if and only if the precision asks for no more
      than that. */
  lemma BodyFitsIff(num: nat, base: nat, f: Flags, prec: int)
    requires Base(base) && num < TWO64 && prec >= -1
    ensures |Body(num, base, f, prec)| <= 256 <==> prec <= 256
  {
    assert Pow8(4) == 0x1000 && Pow8(8) == 0x100_0000 && Pow8(12) == 0x10_0000_0000 && Pow8(16) == 0x1_0000_0000_0000;
    assert Pow8(20) == 0x1000_0000_0000_0000 && Pow8(22) > TWO64;
    DigitsFew(num, base, f.upper, 22);
  }

  /** "%d": reading back what is written gives the value. */
  method FormatInt(value: int, f: Flags, width: int, prec: int) returns (r: Outcome, out: string)
    requires prec >= -1
    ensures r == Success ==> Atoi(out) == value
    ensures r == Success || r == Undefined
    ensures -TWO63 <= value < TWO63 ==> (r == Undefined <==> prec > 256)
  {
    var isNeg := value < 0;
    var num := if isNeg then 0 - value else value;
    r, out := Number(num, isNeg, 10, f, width, prec);
    if num < TWO64 { BodyFitsIff(num, 10, f, prec); }
    FieldReads(num, isNeg, f, width, prec);
  }

  /** "%.300d" overruns `work`. */
  method PrecisionTooLarge(value: int, f: Flags) returns (r: Outcome)
    requires -TWO63 <= value < TWO63
    ensures r == Undefined
  {
    var out;
    r, out := FormatInt(value, f, 0, 300);
  }

  /** What an unsigned int becomes that is fetched as an int and kept as an unsigned long of 64 bits
      (lines 575 and 714). */
  function Promoted(value: nat): (n: nat)
    requires value < TWO32
    ensures n < TWO64
  {
    if value < TWO31 then value else TWO64 - TWO32 + value
  }

  /** The digits written for an unsigned int denote it if and only if it is below 2^31. */
  lemma UnsignedIff(value: nat, base: nat, f: Flags, prec: int)
    requires value < TWO32 && Base(base)
    ensures Value(Body(Promoted(value), base, f, prec), base) == value <==> value < TWO31
  {
  }

  /** "%u", "%o", "%x" */
  method FormatUnsigned(value: nat, base: nat, f: Flags, width: int, prec: int) returns (r: Outcome, out: string)
    requires value < TWO32 && Base(base) && prec >= -1
    ensures r == if prec <= 256 then Success else Undefined
    ensures r == Success ==> out == Field(Promoted(value), false, base, f, width, prec)
    ensures r == Success && base == 10 ==> (Atoi(out) == value <==> value < TWO31)
  {
    BodyFitsIff(Promoted(value), base, f, prec);
    r, out := Number(Promoted(value), false, base, f, width, prec);
    FieldReads(Promoted(value), false, f, width, prec);
  }

  /** "%u" of 2147483648 writes 18446744071562067968. */
  method UnsignedTooLarge(f: Flags, width: int) returns (r: Outcome, out: string)
    ensures r == Success && Atoi(out) == 18446744071562067968
  {
    r, out := FormatUnsigned(TWO31, 10, f, width, -1);
    FieldReads(Promoted(TWO31), false, f, width, -1);
  }

  // ----- sinks -----

  /** A buffer of limited size: addbyter. */
  class Bounded {
    const buffer: array<char>
    var length: nat
    const max: nat

    ghost predicate Valid()
      reads this
    {
      length <= max <= buffer.Length
    }

    ghost function Text(): string
      reads this, buffer
      requires Valid()
    {
      buffer[..length]
    }

    constructor (buffer: array<char>, max: nat)
      requires max <= buffer.Length
      ensures Valid() && Text() == "" && this.buffer == buffer && this.max == max
    {
      this.buffer, this.max, length := buffer, max, 0;
    }

    method Put(c: char) returns (ok: bool)
      requires Valid()
      modifies this`length, buffer
      ensures Valid() && ok == (old(length) < max)
      ensures Text() == if ok then old(Text()) + [c] else old(Text())
    {
      ok := length < max;
      if ok {
        buffer[length] := c;
        length := length + 1;
      }
    }

    /** All characters of an output; the result is how many of them were taken. What is kept is
        the beginning of what an unbounded sink would hold. */
    method PutAll(out: string) returns (done: nat)
      requires Valid()
      modifies this`length, buffer
      ensures Valid() && done == (if |out| <= max - old(length) then |out| else max - old(length))
      ensures Text() == old(Text()) + out[..done]
    {
      done := 0;
      var i := 0;
      assert out[..0] == "";
      while i < |out|
        invariant 0 <= i <= |out| && Valid() && done == (if i <= max - old(length) then i else max - old(length))
        invariant Text() == old(Text()) + out[..done]
      {
        assert done == i ==> out[..done + 1] == out[..done] + [out[i]];
        var ok := Put(out[i]);
        done := done + (if ok then 1 else 0);
        i := i + 1;
      }
    }
  }

  /** curl_msnprintf, once the output is formatted: as much of it as maxlength allows goes to the
      buffer, and a NUL behind that. */
  method Msnprintf(buffer: array<char>, maxlength: nat, out: string) returns (r: Outcome, retcode: nat)
    requires maxlength <= buffer.Length
    modifies buffer
    ensures retcode == if |out| <= maxlength then |out| else maxlength
    ensures r == if retcode < buffer.Length then Success else Undefined
    ensures r == Success ==> buffer[..retcode + 1] == out[..retcode] + ['\0']
  {
    var info := new Bounded(buffer, maxlength);
    retcode := info.PutAll(out);
    assert info.Text() == "" + out[..retcode];
    assert buffer[..retcode] == out[..retcode];
    if info.length >= buffer.Length {
      return Undefined, retcode;
    }
    buffer[info.length] := '\0';
    assert buffer[..retcode + 1] == buffer[..retcode] + ['\0'];
    r := Success;
  }

  /** Given the size of the buffer, as snprintf is, it writes behind the buffer exactly when the
      output has at least as many characters as the buffer. */
  method PrintToBuffer(buffer: array<char>, out: string) returns (r: Outcome)
    modifies buffer
    ensures r == Undefined <==> |out| >= buffer.Length
    ensures r == Success ==> buffer[..|out| + 1] == out + ['\0']
  {
    var retcode;
    r, retcode := Msnprintf(buffer, buffer.Length, out);
    assert |out| <= buffer.Length ==> out[..|out|] == out;
  }

  /** Three characters in a buffer of three. */
  method NulBehindBuffer() returns (r: Outcome)
    ensures r == Undefined
  {
    var buffer := new char[3](_ => ' ');
    r := PrintToBuffer(buffer, "abc");
  }

  lemma OneMore(before: string, out: string, done: nat)
    requires done < |out|
    ensures before + out[..done + 1] == before + out[..done] + [out[done]]
  {
  }

  /** A buffer that grows: alloc_addbyter. */
  class Growing {
    /** The largest size malloc and realloc can give. */
    const memory: nat
    var buffer: array?<char>
    var len: nat

    /** There is always room for the final NUL. */
    ghost predicate Valid()
      reads this
    {
      if buffer == null then len == 0 else len < buffer.Length
    }

    ghost function Text(): string
      reads this, buffer
      requires Valid()
    {
      if buffer == null then "" else buffer[..len]
    }

    constructor (memory: nat)
      ensures Valid() && Text() == "" && buffer == null && this.memory == memory
    {
      this.memory, buffer, len := memory, null, 0;
    }

    /** There is no room for one more character, and no more memory either. */
    ghost predicate Full()
      reads this
      requires Valid()
    {
      if buffer == null then 32 > memory else len + 1 >= buffer.Length && 2 * buffer.Length > memory
    }

    /** What is there is moved to a new buffer. */
    method Reallocate(size: nat)
      requires Valid() && len < size
      modifies this`buffer
      ensures fresh(buffer) && buffer != null && buffer.Length == size && Valid() && Text() == old(Text())
    {
      var newptr := new char[size](_ => '\0');
      var i := 0;
      while i < len
        invariant 0 <= i <= len && buffer == old(buffer)
        invariant forall k :: 0 <= k < i ==> newptr[k] == buffer[k]
      {
        newptr[i] := buffer[i];
        i := i + 1;
      }
      assert newptr[..len] == Text();
      buffer := newptr;
    }

    method Put(c: char) returns (ok: bool)
      requires Valid()
      modifies this, buffer
      ensures Valid() && (buffer == old(buffer) || fresh(buffer))
      ensures Text() == if ok then old(Text()) + [c] else old(Text())
      ensures ok <==> !old(Full())
      ensures !ok ==> Full()
      ensures ok ==> buffer != null && if old(buffer) == null then buffer.Length == 32
        else buffer.Length == old(buffer.Length) * (if old(len) + 1 >= old(buffer.Length) then 2 else 1)
    {
      if buffer == null {
        if 32 > memory {
          return false;
        }
        Reallocate(32);
      } else if len + 1 >= buffer.Length {
        if buffer.Length * 2 > memory {
          return false;
        }
        Reallocate(buffer.Length * 2);
      }
      buffer[len] := c;
      len := len + 1;
      ok := true;
    }

    /** All characters of an output: what is kept is the beginning of it, and all of it if there
        is memory for twice as much. */
    method PutAll(out: string) returns (done: nat)
      requires Valid()
      modifies this, buffer
      ensures Valid() && done <= |out| && Text() == old(Text()) + out[..done]
      ensures 32 <= memory && 2 * (old(len) + |out|) <= memory ==> done == |out|
    {
      done := 0;
      var i := 0;
      assert out[..0] == "";
      while i < |out|
        invariant 0 <= i <= |out| && Valid() && (buffer == old(buffer) || fresh(buffer))
        invariant done == i || (done < i && Full())
        invariant Text() == old(Text()) + out[..done] && len == old(len) + done
      {
        OneMore(old(Text()), out, done);
        var ok := Put(out[i]);
        done := done + (if ok then 1 else 0);
        i := i + 1;
      }
    }
  }
}
