/** The case-insensitive search of common/hangul.c. Strings end in a NUL that is not part of
    them; the jumps of the C code become the entry points of one loop. */
module CaseSearch {
  import opened Strings
  import opened Wrappers

  /** A character of a terminated string. */
  function At(s: string, i: nat): char
    requires i <= |s|
  {
    if i < |s| then s[i] else '\0'
  }

  function ToUpperH(c: char): char {
    if 'a' <= c <= 'z' then c - 'a' + 'A' else c
  }

  function ToLowerH(c: char): char {
    if 'A' <= c <= 'Z' then c - 'A' + 'a' else c
  }

  /** Equality of lower forms is equality without case, and so is the test against the lower and
      the upper form of a character. */
  lemma EitherCase(c: char, x: char)
    ensures ToLowerH(c) == ToLowerH(x) <==> SameLetter(c, x)
    ensures var l := ToLowerH(x); (c == l || c == ToUpperH(l)) <==> SameLetter(c, x)
  {
  }

  /** The first k characters of n are found at position p of h, regardless of case. */
  ghost predicate MatchUpTo(h: string, n: string, p: int, k: nat) {
    0 <= p && p + k <= |h| && k <= |n| && forall i :: 0 <= i < k ==> SameLetter(h[p + i], n[i])
  }

  ghost predicate Match(h: string, n: string, p: int) {
    MatchUpTo(h, n, p, |n|)
  }

  ghost predicate NoMatchBefore(h: string, n: string, p: int) {
    forall q :: 0 <= q < p ==> !Match(h, n, q)
  }

  /** How a search for n in h must come out. */
  ghost predicate FirstMatch(h: string, n: string, r: Option<nat>) {
    match r
    case Some(p) => Match(h, n, p) && NoMatchBefore(h, n, p)
    case None => forall p :: !Match(h, n, p)
  }

  predicate Terminated(s: string) {
    '\0' !in s
  }

  /** Lines 79-99: the rest of the needle is compared two characters at a time. */
  method CompareRest(h: string, n: string, p: nat) returns (found: bool)
    requires Terminated(h) && Terminated(n)
    requires MatchUpTo(h, n, p, 2)
    ensures found <==> Match(h, n, p)
  {
    var rhaystack, needle := p + 2, 2;
    var a := ToLowerH(At(n, needle));
    if ToLowerH(At(h, rhaystack)) == a {
      while true
        invariant needle <= |n| && rhaystack == p + needle <= |h| && MatchUpTo(h, n, p, needle)
        invariant a == ToLowerH(At(n, needle)) == ToLowerH(At(h, rhaystack))
        decreases |n| - needle
      {
        if a == '\0' {
          return true;
        }
        rhaystack, needle := rhaystack + 1, needle + 1;
        a := ToLowerH(At(n, needle));
        if ToLowerH(At(h, rhaystack)) != a {
          break;
        }
        if a == '\0' {
          return true;
        }
        rhaystack, needle := rhaystack + 1, needle + 1;
        a := ToLowerH(At(n, needle));
        if ToLowerH(At(h, rhaystack)) != a {
          break;
        }
      }
    }
    found := a == '\0';
  }

  /** Where the main loop is entered: at its top, at `shloop`, or at `jin`. */
  datatype Entry = Top | ShLoop | Jin

  /** Passing over a position where the first or the second character differs. */
  lemma PassOver(h: string, n: string, p: nat)
    requires NoMatchBefore(h, n, p) && n != ""
    ensures p < |h| && ToLowerH(h[p]) != ToLowerH(n[0]) ==> NoMatchBefore(h, n, p + 1)
    ensures |n| > 1 && p + 1 < |h| && ToLowerH(h[p + 1]) != ToLowerH(n[1]) ==> NoMatchBefore(h, n, p + 1)
    ensures p + |n| > |h| ==> forall q :: !Match(h, n, q)
  {
    if p < |h| && Match(h, n, p) {
      assert ToLowerH(h[p + 0]) == ToLowerH(n[0]);
      assert |n| > 1 ==> ToLowerH(h[p + 1]) == ToLowerH(n[1]);
    }
  }

  /** Lines 57-70: on to the next character equal to the needle's first, two at a time; entered at
      `shloop` the present character is looked at first. */
  method ScanFirst(h: string, n: string, bl: char, bu: char, p0: nat, atShLoop: bool) returns (p: nat, hit: bool)
    requires Terminated(h) && n != "" && p0 < |h|
    requires bl == ToLowerH(n[0]) && bu == ToUpperH(bl)
    requires NoMatchBefore(h, n, if atShLoop then p0 else p0 + 1)
    ensures hit ==> (if atShLoop then p0 else p0 + 1) <= p < |h| && NoMatchBefore(h, n, p) && ToLowerH(h[p]) == bl
    ensures !hit ==> forall q :: !Match(h, n, q)
  {
    p, hit := p0, true;
    var skip := atShLoop;
    while true
      invariant p0 <= p < |h| && (skip ==> atShLoop && p == p0)
      invariant NoMatchBefore(h, n, if skip then p else p + 1)
      decreases |h| - p, skip
    {
      if !skip {
        p := p + 1;
        if At(h, p) == '\0' {
          PassOver(h, n, p);
          return p, false;
        }
        EitherCase(h[p], n[0]);
        PassOver(h, n, p);
        if h[p] == bl || h[p] == bu {
          return;
        }
        p := p + 1;
        if At(h, p) == '\0' {
          PassOver(h, n, p);
          return p, false;
        }
      }
      skip := false;
      EitherCase(h[p], n[0]);
      PassOver(h, n, p);
      if h[p] == bl || h[p] == bu {
        return;
      }
    }
  }

  /** Lines 37-43: the first character equal to the needle's first. */
  method FirstCandidate(h: string, n: string, bl: char, bu: char) returns (p: nat)
    requires n != "" && bl == ToLowerH(n[0]) && bu == ToUpperH(bl)
    ensures p <= |h| && NoMatchBefore(h, n, p) && (p < |h| ==> ToLowerH(h[p]) == bl)
  {
    p := 0;
    while p < |h| && h[p] != bl && h[p] != bu
      invariant 0 <= p <= |h| && NoMatchBefore(h, n, p)
    {
      EitherCase(h[p], n[0]);
      PassOver(h, n, p);
      p := p + 1;
    }
    if p < |h| { EitherCase(h[p], n[0]); }
  }

  /** strcasestrh: the first occurrence, or none. */
  method StrCaseStrH(h: string, n: string) returns (r: Option<nat>)
    requires '\0' !in h && '\0' !in n
    ensures FirstMatch(h, n, r)
  {
    var bl := ToLowerH(At(n, 0));
    if bl == '\0' {
      return Some(0);
    }
    var bu := ToUpperH(bl);
    var p := FirstCandidate(h, n, bl, bu);
    if At(h, p) == '\0' {
      PassOver(h, n, p);
      return None;
    }
    var cl := ToLowerH(At(n, 1));
    if cl == '\0' {
      return Some(p);
    }
    var cu := ToUpperH(cl);
    var entry := Jin;
    while true
      invariant p < |h|
      invariant match entry
        case Top => NoMatchBefore(h, n, p + 1)
        case ShLoop => NoMatchBefore(h, n, p)
        case Jin => NoMatchBefore(h, n, p) && ToLowerH(h[p]) == bl
      decreases |h| - p, !entry.Top?
    {
      if entry != Jin {
        var hit;
        p, hit := ScanFirst(h, n, bl, bu, p, entry == ShLoop);
        if !hit {
          return None;
        }
      }
      // jin
      PassOver(h, n, p);
      p := p + 1;
      var a := At(h, p);
      if a == '\0' {
        return None;
      }
      EitherCase(a, n[1]);
      if a != cl && a != cu {
        entry := ShLoop;
      } else {
        p := p - 1;
        var found := CompareRest(h, n, p);
        if found {
          return Some(p);
        }
        entry := Top;
      }
    }
  }
}
