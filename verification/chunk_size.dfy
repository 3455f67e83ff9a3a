/** Chunk sizes in hexadecimal: the printer's digits (modules/mod_httpd/http_core.c) and the
    64-bit reader (get_chunk_size in modules/mod_httpd/http_filter.c). */
module ChunkSize {
  import opened Strings
  import opened Wrappers

  predicate IsXDigit(c: char) {
    '0' <= c <= '9' || 'A' <= c <= 'F' || 'a' <= c <= 'f'
  }

  function XValue(c: char): (x: nat)
    requires IsXDigit(c)
    ensures x < 16
  {
    if '0' <= c <= '9' then c as int - '0' as int
    else if 'A' <= c <= 'F' then c as int - 'A' as int + 10
    else c as int - 'a' as int + 10
  }

  /** The digits are these 22 characters, and each stands for its place in the row of its case. */
  lemma DigitValues(c: char)
    ensures IsXDigit(c) <==> c in "0123456789ABCDEF" || c in "0123456789abcdef"
    ensures IsXDigit(c) ==> "0123456789ABCDEF"[XValue(c)] == c || "0123456789abcdef"[XValue(c)] == c
  {
    var upper, lower := "0123456789ABCDEF", "0123456789abcdef";
    if IsXDigit(c) {
      assert upper[XValue(c)] == c || lower[XValue(c)] == c;
    }
  }

  lemma ValueOfDigit(x: nat)
    requires x < 16
    ensures IsXDigit("0123456789ABCDEF"[x]) && XValue("0123456789ABCDEF"[x]) == x
    ensures IsXDigit("0123456789abcdef"[x]) && XValue("0123456789abcdef"[x]) == x
  {
  }

  /** The case of a digit does not matter. */
  lemma DigitInEitherCase(c: char, d: char)
    requires IsXDigit(c) && SameLetter(c, d)
    ensures IsXDigit(d) && XValue(d) == XValue(c)
  {
  }

  predicate AllXDigits(d: string) {
    forall i :: 0 <= i < |d| ==> IsXDigit(d[i])
  }

  /** The number a string of hexadecimal digits denotes. */
  function Value(d: string): nat
    requires AllXDigits(d)
  {
    if d == "" then 0 else Value(d[..|d| - 1]) * 16 + XValue(d[|d| - 1])
  }

  /** The hexadecimal digits a string starts with. */
  function LeadingDigits(b: string): (d: string)
    ensures AllXDigits(d) && d <= b && (|d| < |b| ==> !IsXDigit(b[|d|]))
  {
    if b != "" && IsXDigit(b[0]) then [b[0]] + LeadingDigits(b[1..]) else ""
  }

  function Pow16(k: nat): (r: nat)
    ensures r >= 1
  {
    if k == 0 then 1 else 16 * Pow16(k - 1)
  }

  lemma {:induction false} ValueBound(d: string)
    requires AllXDigits(d)
    ensures Value(d) < Pow16(|d|)
    ensures d != "" && d[0] != '0' ==> Value(d) >= Pow16(|d| - 1)
  {
    if |d| > 1 {
      ValueBound(d[..|d| - 1]);
    }
  }

  lemma {:induction false} ValueZero(d: string, z: nat)
    requires AllXDigits(d) && z <= |d| && forall i :: 0 <= i < z ==> d[i] == '0'
    ensures Value(d) == Value(d[z..])
    decreases |d|
  {
    if z < |d| {
      ValueZero(d[..|d| - 1], z);
      assert d[..|d| - 1][z..] == d[z..][..|d| - 1 - z];
    } else if z > 0 {
      ValueZero(d[..|d| - 1], z - 1);
      assert d[..|d| - 1][z - 1..] == "" == d[z..];
    }
  }

  lemma {:induction false} Pow16Monotonic(j: nat, k: nat)
    requires j <= k
    ensures Pow16(j) <= Pow16(k)
    decreases k
  {
    if j < k { Pow16Monotonic(j, k - 1); }
  }

  lemma Pow16Values()
    ensures Pow16(15) == 0x1000_0000_0000_0000 && Pow16(16) == TWO64
  {
    assert Pow16(4) == 0x1_0000;
    assert Pow16(8) == 0x1_0000_0000;
    assert Pow16(12) == 0x1_0000_0000_0000;
  }

  /** A value of up to 64 bits as a signed long holds it. */
  function Signed64(v: int): int
    requires 0 <= v < TWO64
  {
    if v < TWO63 then v else v - TWO64
  }

  /** The size a chunk line announces, or -1 when no long can hold it. */
  function Announced(b: string): int {
    var v := Value(LeadingDigits(b));
    if v < TWO63 then v else -1
  }

  /** r stands for the announced size; for a size too large, any negative number does. */
  ghost predicate SizeOf(b: string, r: int) {
    if Announced(b) >= 0 then r == Announced(b) else r < 0
  }

  lemma {:induction false} ValueConcat(d: string, e: string)
    requires AllXDigits(d) && AllXDigits(e)
    ensures Value(d + e) == Value(d) * Pow16(|e|) + Value(e)
    decreases |e|
  {
    if e == "" {
      assert d + e == d;
    } else {
      var front := e[..|e| - 1];
      assert (d + e)[..|d + e| - 1] == d + front;
      ValueConcat(d, front);
      OneDigitMore(Value(d), Pow16(|front|), Value(front), XValue(e[|e| - 1]));
    }
  }

  lemma OneDigitMore(v: nat, p: nat, w: nat, x: nat)
    ensures (v * p + w) * 16 + x == v * (16 * p) + (w * 16 + x)
  {
  }

  lemma {:induction false} AllFs(d: string)
    requires forall i :: 0 <= i < |d| ==> d[i] == 'f'
    ensures AllXDigits(d) && Value(d) == Pow16(|d|) - 1
  {
    if d != "" { AllFs(d[..|d| - 1]); }
  }

  /** The largest size is seven and fifteen times f; eight and fifteen zeros is too large. */
  lemma LargestLong(fs: string, zeros: string)
    requires |fs| == |zeros| == 15 && forall i :: 0 <= i < 15 ==> fs[i] == 'f' && zeros[i] == '0'
    ensures Announced("7" + fs) == 0x7fff_ffff_ffff_ffff && Announced("8" + zeros) < 0
  {
    SevenFs("7", fs);
    EightZeros("8", zeros);
  }

  lemma SevenFs(seven: string, fs: string)
    requires seven == "7" && |fs| == 15 && forall i :: 0 <= i < 15 ==> fs[i] == 'f'
    ensures Announced(seven + fs) == 0x7fff_ffff_ffff_ffff
  {
    Pow16Values();
    AllFs(fs);
    OneDigitValue();
    ValueConcat(seven, fs);
    LeadingDigitsOf(seven + fs, "");
    NothingAround(seven + fs);
  }

  lemma EightZeros(eight: string, zeros: string)
    requires eight == "8" && |zeros| == 15 && forall i :: 0 <= i < 15 ==> zeros[i] == '0'
    ensures Announced(eight + zeros) < 0
  {
    Pow16Values();
    ValueZero(zeros, 15);
    OneDigitValue();
    ValueConcat(eight, zeros);
    LeadingDigitsOf(eight + zeros, "");
    NothingAround(eight + zeros);
  }

  lemma OneDigitValue()
    ensures Value("7") == 7 && Value("8") == 8
  {
    assert "7"[..0] == "" && "8"[..0] == "";
  }

  lemma ValueFits(d: string)
    requires AllXDigits(d) && |d| <= 16
    ensures Value(d) < TWO64 && (|d| <= 15 ==> Value(d) < TWO63)
  {
    Pow16Values();
    ValueBound(d);
    Pow16Monotonic(|d|, 16);
    if |d| <= 15 { Pow16Monotonic(|d|, 15); }
  }

  /** c is what a long holds after k of the digits, at most sixteen, have been shifted in. */
  ghost predicate Shifted(digits: string, k: nat, c: int) {
    && AllXDigits(digits) && k <= |digits| && k <= 16
    && Value(digits[..k]) < TWO64 && c == Signed64(Value(digits[..k]))
  }

  lemma ShiftOne(digits: string, k: nat, c: int)
    requires Shifted(digits, k, c) && k < |digits| && k < 16
    ensures 0 <= c * 16 + XValue(digits[k]) < TWO64
    ensures Shifted(digits, k + 1, Signed64(c * 16 + XValue(digits[k])))
  {
    ValueFits(digits[..k]);
    ValueFits(digits[..k + 1]);
    assert digits[..k + 1][..k] == digits[..k];
  }

  /** More than sixteen digits without leading zeros are too many for a long. */
  lemma TooLong(digits: string)
    requires AllXDigits(digits) && |digits| > 16 && digits[0] != '0'
    ensures Value(digits) >= TWO64
  {
    Pow16Values();
    ValueBound(digits);
    Pow16Monotonic(16, |digits| - 1);
  }

  /** The leading zeros are passed over. */
  method SkipZeros(b: string) returns (z: nat)
    ensures z <= |LeadingDigits(b)| && (z < |b| ==> b[z] != '0')
    ensures forall i :: 0 <= i < z ==> LeadingDigits(b)[i] == '0'
  {
    ghost var d := LeadingDigits(b);
    z := 0;
    while z < |b| && b[z] == '0'
      invariant z <= |d| && forall i :: 0 <= i < z ==> d[i] == '0'
    {
      z := z + 1;
    }
  }

  /** Digits are shifted in while they fit. */
  method ShiftDigits(b: string, z: nat, ghost sig: string) returns (p: nat, chunksize: int, chunkbits: int)
    requires z + |sig| <= |b| && AllXDigits(sig) && forall k :: z <= k < z + |sig| ==> b[k] == sig[k - z]
    requires z + |sig| < |b| ==> !IsXDigit(b[z + |sig|])
    ensures z <= p <= z + |sig| && chunkbits == 64 - 4 * (p - z) >= 0 && (p < z + |sig| ==> chunkbits == 0)
    ensures Shifted(sig, p - z, chunksize)
  {
    p, chunksize, chunkbits := z, 0, 64;
    while p < |b| && IsXDigit(b[p]) && chunkbits > 0
      invariant z <= p <= z + |sig| && chunkbits == 64 - 4 * (p - z) >= 0
      invariant Shifted(sig, p - z, chunksize)
      decreases |b| - p
    {
      ShiftOne(sig, p - z, chunksize);
      var xvalue := XValue(b[p]);
      chunksize := Signed64(chunksize * 16 + xvalue);
      chunkbits := chunkbits - 4;
      p := p + 1;
    }
  }

  /** Without its leading zeros a number is too long, or known once all digits are shifted in. */
  lemma AfterZeros(b: string, z: nat)
    requires z <= |LeadingDigits(b)| && (z < |b| ==> b[z] != '0')
    requires forall i :: 0 <= i < z ==> LeadingDigits(b)[i] == '0'
    ensures var sig := LeadingDigits(b)[z..];
      if |sig| > 16 then Announced(b) < 0 else forall c :: Shifted(sig, |sig|, c) ==> SizeOf(b, c)
  {
    var sig := LeadingDigits(b)[z..];
    ValueZero(LeadingDigits(b), z);
    if |sig| > 16 {
      TooLong(sig);
    } else {
      assert sig[..|sig|] == sig;
    }
  }

  /** What follows the leading zeros. */
  function Significant(b: string): string {
    if b != "" && b[0] == '0' then Significant(b[1..]) else b
  }

  /** Nothing in b makes the reader stop: all of it is digits, and not more than a long holds. */
  predicate RunsOn(b: string) {
    AllXDigits(Significant(b)) && |Significant(b)| <= 16
  }

  lemma {:induction false} SignificantFrom(b: string, z: nat)
    requires z <= |b| && (z < |b| ==> b[z] != '0') && forall i :: 0 <= i < z ==> b[i] == '0'
    ensures Significant(b) == b[z..]
  {
    if z > 0 { SignificantFrom(b[1..], z - 1); }
  }

  lemma RunsOnIff(b: string, z: nat)
    requires z <= |LeadingDigits(b)| && (z < |b| ==> b[z] != '0')
    requires forall i :: 0 <= i < z ==> LeadingDigits(b)[i] == '0'
    ensures RunsOn(b) <==> |LeadingDigits(b)| == |b| <= z + 16
  {
    var d, s := LeadingDigits(b), b[z..];
    SignificantFrom(b, z);
    if |d| == |b| {
      assert d == b;
      forall i | 0 <= i < |s| ensures IsXDigit(s[i]) { assert s[i] == d[z + i]; }
    } else {
      assert s[|d| - z] == b[|d|];
    }
  }

  /** Where the reader stops, and with what, d being the digits in front. */
  lemma Stopped(b: string, d: string, z: nat, p: nat, c: int, bits: int)
    requires z <= |d| <= |b| && AllXDigits(d) && d <= b && (|d| < |b| ==> !IsXDigit(b[|d|]))
    requires z <= p <= |d| && bits == 64 - 4 * (p - z) >= 0 && (p < |d| ==> bits == 0)
    requires RunsOn(b) <==> |d| == |b| <= z + 16
    requires if |d| - z > 16 then Announced(b) < 0 else p == |d| ==> SizeOf(b, c)
    ensures p == |b| <==> RunsOn(b)
    ensures p < |b| ==> if IsXDigit(b[p]) && bits <= 0 then Announced(b) < 0 else SizeOf(b, c)
  {
    if p < |d| { assert IsXDigit(d[p]) && b[p] == d[p]; }
  }

  /** get_chunk_size on characters with nothing behind them. */
  method GetChunkSize(b: string) returns (r: Outcome, chunksize: int)
    ensures r == if RunsOn(b) then Undefined else Success
    ensures r == Success ==> SizeOf(b, chunksize)
  {
    var z := SkipZeros(b);
    var p, bits;
    p, chunksize, bits := ShiftDigits(b, z, LeadingDigits(b)[z..]);
    RunsOnIff(b, z);
    AfterZeros(b, z);
    Stopped(b, LeadingDigits(b), z, p, chunksize, bits);
    if p == |b| {
      return Undefined, chunksize;
    }
    r := Success;
    if IsXDigit(b[p]) && bits <= 0 {
      chunksize := -1;
    }
  }

  function HexDigit(x: nat): (c: char)
    requires x < 16
    ensures IsXDigit(c) && XValue(c) == x && (x > 0 ==> c != '0')
  {
    "0123456789abcdef"[x]
  }

  /** The "%qx" conversion of a positive number. */
  function Hex(n: nat): (d: string)
    requires n > 0
    ensures d != "" && AllXDigits(d) && d[0] != '0' && Value(d) == n
  {
    if n < 16 then [HexDigit(n)]
    else
      var d := Hex(n / 16) + [HexDigit(n % 16)];
      assert d[..|d| - 1] == Hex(n / 16);
      d
  }

  /** The printer's digits are the lower case ones. */
  lemma {:induction false} HexIsLower(n: nat, i: nat)
    requires n > 0 && i < |Hex(n)|
    ensures Hex(n)[i] in "0123456789abcdef"
  {
    if n >= 16 && i < |Hex(n)| - 1 {
      HexIsLower(n / 16, i);
      assert Hex(n)[i] == Hex(n / 16)[i];
    }
  }

  lemma HexIsShort(n: nat)
    requires 0 < n < TWO64
    ensures |Hex(n)| <= 16
  {
    if |Hex(n)| > 16 {
      TooLong(Hex(n));
    }
  }

  lemma {:induction false} LeadingDigitsOf(d: string, rest: string)
    requires AllXDigits(d) && (rest != "" ==> !IsXDigit(rest[0]))
    ensures LeadingDigits(d + rest) == d
  {
    if d == "" {
      assert d + rest == rest;
    } else {
      assert (d + rest)[1..] == d[1..] + rest;
      LeadingDigitsOf(d[1..], rest);
    }
  }

  lemma {:induction false} ValueInEitherCase(d: string, e: string)
    requires AllXDigits(d) && SameName(d, e)
    ensures AllXDigits(e) && Value(e) == Value(d)
  {
    forall i | 0 <= i < |e| ensures IsXDigit(e[i]) { DigitInEitherCase(d[i], e[i]); }
    if d != "" {
      DigitInEitherCase(d[|d| - 1], e[|e| - 1]);
      ValueInEitherCase(d[..|d| - 1], e[..|e| - 1]);
    }
  }

  /** A number is read as the same whatever the case of its digits, up to the largest positive long. */
  lemma EitherCaseRoundTrip(n: nat, digits: string, rest: string)
    requires 0 < n < TWO63 && SameName(Hex(n), digits) && (rest != "" ==> !IsXDigit(rest[0]))
    ensures Announced(digits + rest) == n
  {
    ValueInEitherCase(Hex(n), digits);
    LeadingDigitsOf(digits, rest);
  }

  /** What the printer writes the reader reads, up to the largest positive long. */
  lemma SizeRoundTrip(n: nat, rest: string)
    requires 0 < n < TWO63 && (rest != "" ==> !IsXDigit(rest[0]))
    ensures Announced(Hex(n) + rest) == n
  {
    LeadingDigitsOf(Hex(n), rest);
  }
}
