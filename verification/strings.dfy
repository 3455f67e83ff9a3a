/** Joining sequences, and decimal numbers as the C library prints and reads them. */
module Strings {

  function Flatten<T>(parts: seq<seq<T>>): seq<T> {
    if parts == [] then [] else parts[0] + Flatten(parts[1..])
  }

  lemma Regroup<T>(a: seq<T>, b: seq<T>, c: seq<T>)
    ensures a + (b + c) == (a + b) + c && (c == [] ==> a + (b + c) == a + b)
  {
  }

  lemma {:induction false} FlattenConcat<T>(a: seq<seq<T>>, b: seq<seq<T>>)
    ensures Flatten(a + b) == Flatten(a) + Flatten(b)
  {
    if a == [] {
      assert a + b == b;
    } else {
      assert (a + b)[1..] == a[1..] + b;
      FlattenConcat(a[1..], b);
      Regroup(a[0], Flatten(a[1..]), Flatten(b));
    }
  }

  lemma FlattenMore<T>(parts: seq<seq<T>>, part: seq<T>)
    ensures Flatten(parts + [part]) == Flatten(parts) + part
  {
    FlattenConcat(parts, [part]);
    assert Flatten([part]) == part + [];
  }

  lemma SliceOfSlice<T>(d: seq<T>, from: nat, to: nat, a: nat, b: nat)
    requires from <= to <= |d| && a <= b <= to - from
    ensures d[from..to][a..b] == d[from + a..from + b]
  {
    var w := d[from..to];
    forall i | 0 <= i < b - a ensures w[a..b][i] == d[from + a..from + b][i] {
      assert w[a + i] == d[from + a + i];
    }
  }

  // ----- letters -----

  /** Characters that differ in nothing but the case of an ASCII letter, whose forms are 32 apart. */
  predicate SameLetter(c: char, d: char) {
    || c == d
    || ('A' <= c <= 'Z' && d as int == c as int + 32)
    || ('A' <= d <= 'Z' && c as int == d as int + 32)
  }

  ghost predicate SameName(a: string, b: string) {
    |a| == |b| && forall i :: 0 <= i < |a| ==> SameLetter(a[i], b[i])
  }

  // ----- decimal numbers -----

  predicate IsDigit(c: char) {
    '0' <= c <= '9'
  }

  /** The "%d" conversion of a number that is not negative. */
  function Dec(n: nat): (s: string)
    ensures s != "" && forall c :: c in s ==> IsDigit(c)
  {
    (if n < 10 then "" else Dec(n / 10)) + [('0' as int + n % 10) as char]
  }

  /** The number the digits at the front of s denote, `acc` having been read before them. */
  function AtoiFrom(s: string, acc: nat): nat {
    if s == "" || !IsDigit(s[0]) then acc
    else AtoiFrom(s[1..], 10 * acc + (s[0] as int - '0' as int))
  }

  predicate IsSpace(c: char) {
    c == ' ' || '\t' <= c <= '\r'
  }

  /** atoi and atol, while the number fits. */
  function Atoi(s: string): int {
    if s != "" && IsSpace(s[0]) then Atoi(s[1..])
    else if s != "" && s[0] == '-' then 0 - AtoiFrom(s[1..], 0)
    else if s != "" && s[0] == '+' then AtoiFrom(s[1..], 0)
    else AtoiFrom(s, 0)
  }

  lemma {:induction false} AtoiFromDec(n: nat, rest: string)
    ensures AtoiFrom(Dec(n) + rest, 0) == AtoiFrom(rest, n)
  {
    var last := [('0' as int + n % 10) as char];
    if n < 10 {
      assert Dec(n) + rest == last + rest;
      assert (last + rest)[1..] == rest;
    } else {
      AtoiFromDec(n / 10, last + rest);
      assert Dec(n) + rest == Dec(n / 10) + (last + rest);
      assert (last + rest)[1..] == rest;
    }
  }

  /** What is printed is read back. */
  lemma AtoiDec(n: nat, rest: string)
    requires rest != "" ==> !IsDigit(rest[0])
    ensures Atoi(Dec(n) + rest) == n
  {
    AtoiFromDec(n, rest);
    assert Dec(n)[0] in Dec(n);
  }

  /** The "%d" conversion. */
  function DecInt(n: int): string {
    if n < 0 then "-" + Dec(0 - n) else Dec(n)
  }

  lemma AtoiMinus(s: string)
    ensures Atoi("-" + s) == 0 - AtoiFrom(s, 0)
  {
    assert ("-" + s)[1..] == s;
  }

  lemma AtoiEnd(rest: string, acc: nat)
    requires rest != "" ==> !IsDigit(rest[0])
    ensures AtoiFrom(rest, acc) == acc
  {
  }

  lemma AtoiNegative(m: nat, d: string, rest: string)
    requires d == Dec(m) && (rest != "" ==> !IsDigit(rest[0]))
    ensures Atoi("-" + d + rest) == 0 - m
  {
    AtoiFromDec(m, rest);
    AtoiEnd(rest, m);
    AtoiMinus(d + rest);
    Regroup("-", d, rest);
  }

  lemma AtoiDecInt(n: int, rest: string)
    requires rest != "" ==> !IsDigit(rest[0])
    ensures Atoi(DecInt(n) + rest) == n
  {
    if n < 0 { AtoiNegative(0 - n, Dec(0 - n), rest); } else { AtoiDec(n, rest); }
  }

  /** What may be read before a number: the blanks of the C locale, and one sign. */
  lemma {:induction false} AtoiSkips(blanks: string, s: string)
    requires forall i :: 0 <= i < |blanks| ==> blanks[i] in " \t\n\r" || 11 <= blanks[i] as int <= 12
    ensures Atoi(blanks + s) == Atoi(s)
  {
    if blanks == "" {
      assert blanks + s == s;
    } else {
      BlanksAre(blanks[0]);
      assert (blanks + s)[1..] == blanks[1..] + s;
      AtoiSkips(blanks[1..], s);
    }
  }

  lemma AtoiPlus(n: nat, rest: string)
    requires rest != "" ==> !IsDigit(rest[0])
    ensures Atoi("+" + (Dec(n) + rest)) == n
  {
    AtoiFromDec(n, rest);
    AtoiEnd(rest, n);
    assert ("+" + (Dec(n) + rest))[1..] == Dec(n) + rest;
  }

  /** A text that does not start with a number counts as zero. */
  lemma AtoiNone(s: string)
    requires s != "" ==> s[0] !in " \t\n\r" && !(11 <= s[0] as int <= 12) && s[0] !in "0123456789"
    requires s != "" ==> s[0] != '+' && s[0] != '-'
    ensures Atoi(s) == 0
  {
    if s != "" {
      DigitsAre(s[0]);
      BlanksAre(s[0]);
    }
  }

  lemma BlanksAre(c: char)
    ensures IsSpace(c) <==> c in " \t\n\r" || 11 <= c as int <= 12
  {
    var b := " \t\n\r";
    assert b[0] == ' ' && b[1] == '\t' && b[2] == '\n' && b[3] == '\r';
  }

  lemma DigitsAre(c: char)
    ensures IsDigit(c) <==> c in "0123456789"
  {
    var d := "0123456789";
    if IsDigit(c) { assert d[c as int - '0' as int] == c; }
  }

  lemma LastDigit(n: nat)
    requires n >= 10
    ensures Dec(n) == Dec(n / 10) + ["0123456789"[n % 10]]
  {
  }

  lemma OneDigit(n: nat)
    requires n < 10
    ensures Dec(n) == ["0123456789"[n]]
  {
  }

  lemma NothingAround<T>(s: seq<T>)
    ensures [] + s == s == s + []
  {
  }

  function Pow10(k: nat): (r: nat)
    ensures r >= 1
  {
    if k == 0 then 1 else 10 * Pow10(k - 1)
  }

  /** k digits suffice exactly for numbers below 10^k. */
  lemma {:induction false} DigitsFit(n: nat, k: nat)
    requires k > 0
    ensures |Dec(n)| <= k <==> n < Pow10(k)
    decreases k
  {
    if k > 1 && n >= 10 { DigitsFit(n / 10, k - 1); }
  }

  lemma FiveDigits(n: nat)
    ensures |Dec(n)| <= 5 <==> n < 100000
  {
    DigitsFit(n, 5);
    assert Pow10(3) == 1000;
  }
}
