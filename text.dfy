/**
  Character-level helpers shared by the signalling codec: substring search as
  std::string::find does it, C's atoi, the decimal rendering printf's %i
  produces, and the truncation a std::string undergoes when rebuilt from its
  own c_str().
 */
module Text {

  datatype Option<T> = None | Some(value: T)

  /** `pat` occurs in `s` starting at index `i`. */
  predicate Occurs(s: string, pat: string, i: nat) {
    i + |pat| <= |s| && s[i..i + |pat|] == pat
  }

  /** `pat` occurs in `s` at `i` and nowhere in `s` before `i`. */
  predicate FirstAt(s: string, pat: string, i: nat) {
    Occurs(s, pat, i) && forall j :: 0 <= j < i ==> !Occurs(s, pat, j)
  }

  /** std::string::find(pat, from): the first index at or after `from` where
      `pat` occurs, or None (npos). */
  function Find(s: string, pat: string, from: nat): (r: Option<nat>)
    ensures r.Some? ==> from <= r.value && Occurs(s, pat, r.value)
    ensures r.Some? ==> forall j :: from <= j < r.value ==> !Occurs(s, pat, j)
    ensures r.None? ==> forall j :: from <= j ==> !Occurs(s, pat, j)
    decreases |s| - from
  {
    if from + |pat| > |s| then None
    else if s[from..from + |pat|] == pat then Some(from)
    else Find(s, pat, from + 1)
  }

  /** The search result is determined by the first occurrence at or after `from`. */
  lemma {:induction false} FindIs(s: string, pat: string, from: nat, i: nat)
    requires from <= i && Occurs(s, pat, i)
    requires forall j :: from <= j < i ==> !Occurs(s, pat, j)
    ensures Find(s, pat, from) == Some(i)
  {
  }

  /** With no occurrence before `bound`, a search finds nothing or something at or after `bound`. */
  lemma {:induction false} FindAtLeast(s: string, pat: string, from: nat, bound: nat)
    requires forall j :: from <= j < bound ==> !Occurs(s, pat, j)
    ensures Find(s, pat, from).None? || Find(s, pat, from).value >= bound
  {
  }

  /** Searching from a later start changes nothing when the skipped positions hold no occurrence. */
  lemma {:induction false} FindSkip(s: string, pat: string, from: nat, to: nat)
    requires from <= to
    requires forall j :: from <= j < to ==> !Occurs(s, pat, j)
    ensures Find(s, pat, from) == Find(s, pat, to)
  {
    var r := Find(s, pat, from);
    if r.Some? {
      FindIs(s, pat, to, r.value);
    }
  }

  /** An occurrence inside `b` is an occurrence inside `a + b`, shifted by |a|. */
  lemma {:induction false} OccursShift(a: string, b: string, pat: string, k: nat)
    ensures Occurs(a + b, pat, |a| + k) <==> Occurs(b, pat, k)
  {
    if k + |pat| <= |b| {
      assert (a + b)[|a| + k..|a| + k + |pat|] == b[k..k + |pat|];
    }
  }

  /** Occurrences at or after |a| + k in `a + b` are those at or after k in `b`, shifted. */
  lemma {:induction false} OccursShiftAll(a: string, b: string, pat: string, k: nat)
    ensures forall j :: |a| + k <= j ==> (Occurs(a + b, pat, j) <==> Occurs(b, pat, j - |a|))
  {
    forall j | |a| + k <= j
      ensures Occurs(a + b, pat, j) <==> Occurs(b, pat, j - |a|)
    {
      OccursShift(a, b, pat, j - |a|);
    }
  }

  /** Searching `a + b` from inside `b` finds what searching `b` finds, shifted by |a|. */
  lemma {:induction false} FindShiftFound(a: string, b: string, pat: string, k: nat, i: nat)
    requires Find(b, pat, k) == Some(i)
    ensures Find(a + b, pat, |a| + k) == Some(|a| + i)
  {
    OccursShiftAll(a, b, pat, k);
    FindIs(a + b, pat, |a| + k, |a| + i);
  }

  /** A search of `a + b` that has nothing to find in `a` finds what searching `b` finds, shifted by |a|. */
  lemma {:induction false} FindPastPrefix(a: string, b: string, pat: string, i: nat)
    requires Find(a + b, pat, 0) == Find(a + b, pat, |a|)
    requires Find(b, pat, 0) == Some(i)
    ensures Find(a + b, pat, 0) == Some(|a| + i)
  {
    FindShiftFound(a, b, pat, 0, i);
  }

  /** ... and finds nothing when searching `b` finds nothing. */
  lemma {:induction false} FindShiftNone(a: string, b: string, pat: string, k: nat)
    requires Find(b, pat, k) == None
    ensures Find(a + b, pat, |a| + k) == None
  {
    OccursShiftAll(a, b, pat, k);
  }

  /** The search result is at least its start. */
  lemma {:induction false} FindFrom(s: string, pat: string, from: nat)
    ensures Find(s, pat, from).None? || Find(s, pat, from).value >= from
  {
  }

  /** A search whose match lies in the prefix `a` gives the same answer on `a + b`. */
  lemma {:induction false} FindInPrefix(a: string, b: string, pat: string, i: nat)
    requires Find(a, pat, 0) == Some(i)
    ensures Find(a + b, pat, 0) == Some(i)
  {
    assert (a + b)[i..i + |pat|] == a[i..i + |pat|];
    forall j | 0 <= j < i
      ensures !Occurs(a + b, pat, j)
    {
      if Occurs(a + b, pat, j) {
        assert (a + b)[j..j + |pat|] == a[j..j + |pat|];
        assert Occurs(a, pat, j);
      }
    }
    FindIs(a + b, pat, 0, i);
  }

  /** A one-character pattern occurs exactly where that character stands. */
  lemma {:induction false} OccursChar(s: string, c: char, j: nat)
    ensures Occurs(s, [c], j) <==> j < |s| && s[j] == c
  {
    if j < |s| {
      assert s[j..j + 1][0] == s[j];
    }
  }

  /** Where a search for one character can succeed. */
  lemma {:induction false} FindCharBounds(s: string, c: char, from: nat, i: nat)
    requires Find(s, [c], from) == Some(i)
    ensures from <= i < |s| && s[i] == c
  {
    OccursChar(s, c, i);
  }

  lemma {:induction false} FindCharFound(s: string, c: char, from: nat, i: nat)
    requires Find(s, [c], from) == Some(i)
    ensures from <= i < |s| && s[i] == c
    ensures forall j :: from <= j < i ==> s[j] != c
  {
    OccursChar(s, c, i);
    forall j | from <= j < i
      ensures s[j] != c
    {
      OccursChar(s, c, j);
    }
  }

  /** find(c, from) == npos: `c` does not occur at or after `from`. */
  lemma {:induction false} FindCharNone(s: string, c: char, from: nat)
    requires Find(s, [c], from) == None
    ensures forall j :: from <= j < |s| ==> s[j] != c
  {
    forall j | from <= j < |s|
      ensures s[j] != c
    {
      OccursChar(s, c, j);
    }
  }

  /** A search of a suffix finds what a search of the whole from the suffix's start finds, shifted back. */
  lemma {:induction false} FindInSuffix(s: string, pat: string, pos: nat, i: nat)
    requires pos <= |s| && Find(s, pat, pos) == Some(i)
    ensures pos <= i && Find(s[pos..], pat, 0) == Some(i - pos)
  {
    assert s == s[..pos] + s[pos..];
    match Find(s[pos..], pat, 0)
    case Some(k) =>
      FindShiftFound(s[..pos], s[pos..], pat, 0, k);
    case None =>
      FindShiftNone(s[..pos], s[pos..], pat, 0);
  }

  /** ... and finds nothing when the whole has nothing from there on. */
  lemma {:induction false} FindNoneInSuffix(s: string, pat: string, pos: nat)
    requires pos <= |s| && Find(s, pat, pos) == None
    ensures Find(s[pos..], pat, 0) == None
  {
    assert s == s[..pos] + s[pos..];
    match Find(s[pos..], pat, 0)
    case Some(k) =>
      FindShiftFound(s[..pos], s[pos..], pat, 0, k);
    case None =>
  }

  /** std::string::substr(pos, n): at most `n` characters from `pos` (pos <= |s|). */
  function Substr(s: string, pos: nat, n: nat): (r: string)
    requires pos <= |s|
    ensures |r| <= n && r <= s[pos..]
    ensures |r| == n || pos + |r| == |s|
  {
    if pos + n <= |s| then s[pos..pos + n] else s[pos..]
  }

  // ---------------------------------------------------------------------
  // C's atoi
  // ---------------------------------------------------------------------

  /** isspace in the C locale: space, \t, \n, \v, \f, \r. */
  predicate IsSpace(c: char) {
    c == ' ' || '\t' <= c <= '\r'
  }

  predicate IsDigit(c: char) {
    '0' <= c <= '9'
  }

  predicate AllDigits(d: string) {
    forall k :: 0 <= k < |d| ==> IsDigit(d[k])
  }

  /** `rest` cannot extend a run of digits written before it. */
  predicate StopsDigits(rest: string) {
    rest == [] || !IsDigit(rest[0])
  }

  function DigitValue(c: char): nat
    requires IsDigit(c)
  {
    c as int - '0' as int
  }

  /** The value of a non-empty or empty string of decimal digits (most significant first). */
  function Value(d: string): nat
    requires AllDigits(d)
  {
    if d == [] then 0 else 10 * Value(d[..|d| - 1]) + DigitValue(d[|d| - 1])
  }

  /** Leading white space skipped, as atoi does. */
  function SkipSpace(s: string): string {
    if s != [] && IsSpace(s[0]) then SkipSpace(s[1..]) else s
  }

  /** What is left after the skip is a suffix that starts with no white space. */
  lemma {:induction false} SkipSpaceSuffix(s: string)
    ensures |SkipSpace(s)| <= |s| && SkipSpace(s) == s[|s| - |SkipSpace(s)|..]
    ensures SkipSpace(s) == [] || !IsSpace(SkipSpace(s)[0])
    decreases |s|
  {
    if s != [] && IsSpace(s[0]) {
      SkipSpaceSuffix(s[1..]);
      assert s[1..][|s| - 1 - |SkipSpace(s)|..] == s[|s| - |SkipSpace(s)|..];
    }
  }

  /** The longest prefix of `s` made of decimal digits. */
  function DigitRun(s: string): (r: string)
    ensures AllDigits(r)
  {
    if s == [] || !IsDigit(s[0]) then []
    else [s[0]] + DigitRun(s[1..])
  }

  /** The run is a prefix, and the character after it (if any) is no digit. */
  lemma {:induction false} DigitRunPrefix(s: string)
    ensures DigitRun(s) <= s && StopsDigits(s[|DigitRun(s)|..])
    decreases |s|
  {
    if s != [] && IsDigit(s[0]) {
      var t := DigitRun(s[1..]);
      DigitRunPrefix(s[1..]);
      assert s[1..][|t|..] == s[|t| + 1..];
    }
  }

  /** atoi: optional white space, an optional sign, then the leading decimal
      digits; 0 when there are none. Overflow is not modelled. */
  function Atoi(s: string): (r: int)
    ensures r < 0 ==> SkipSpace(s) != [] && SkipSpace(s)[0] == '-'
  {
    var t := SkipSpace(s);
    if t != [] && t[0] == '-' then 0 - Value(DigitRun(t[1..]))
    else if t != [] && t[0] == '+' then Value(DigitRun(t[1..]))
    else Value(DigitRun(t))
  }

  // ---------------------------------------------------------------------
  // printf's %i
  // ---------------------------------------------------------------------

  function DigitChar(d: nat): (c: char)
    requires d < 10
    ensures IsDigit(c) && DigitValue(c) == d
  {
    (d + '0' as int) as char
  }

  /** The decimal digits of `n`, without leading zeros. */
  function Digits(n: nat): (r: string)
    ensures r != [] && AllDigits(r) && Value(r) == n
    ensures r[0] != '0' || n == 0
    ensures |r| <= n + 1
    decreases n
  {
    if n < 10 then [DigitChar(n)]
    else
      var r := Digits(n / 10) + [DigitChar(n % 10)];
      assert r[..|r| - 1] == Digits(n / 10);
      r
  }

  /** snprintf("%i", n). */
  function Decimal(n: int): (r: string)
    ensures r != [] && (IsDigit(r[0]) || r[0] == '-')
  {
    if n < 0 then "-" + Digits(-n) else Digits(n)
  }

  lemma {:induction false} DigitRunOfDigits(d: string, rest: string)
    requires AllDigits(d) && StopsDigits(rest)
    ensures DigitRun(d + rest) == d
  {
    if d != [] {
      assert (d + rest)[1..] == d[1..] + rest;
      DigitRunOfDigits(d[1..], rest);
    }
  }

  lemma {:induction false} AtoiDigits(m: nat, rest: string)
    requires StopsDigits(rest)
    ensures Atoi(Digits(m) + rest) == m
  {
    var d := Digits(m);
    var t := d + rest;
    DigitRunOfDigits(d, rest);
    assert t[0] == d[0];
    assert !IsSpace(t[0]) && t[0] != '-' && t[0] != '+';
    assert SkipSpace(t) == t;
    assert Atoi(t) == Value(DigitRun(t));
  }

  lemma {:induction false} AtoiMinus(d: string, rest: string)
    requires AllDigits(d) && StopsDigits(rest)
    ensures Atoi(['-'] + (d + rest)) == 0 - Value(d)
  {
    var t := ['-'] + (d + rest);
    DigitRunOfDigits(d, rest);
    assert SkipSpace(t) == t;
    assert t[1..] == d + rest;
  }

  /** atoi reads back what %i wrote, whatever follows as long as it is not a digit. */
  lemma {:induction false} AtoiDecimal(n: int, rest: string)
    requires StopsDigits(rest)
    ensures Atoi(Decimal(n) + rest) == n
  {
    if n < 0 {
      var d := Digits(-n);
      assert Decimal(n) + rest == ['-'] + (d + rest);
      AtoiMinus(d, rest);
    } else {
      AtoiDigits(n, rest);
    }
  }

  /** No decimal rendering contains a carriage return, a line feed, a comma or a NUL. */
  lemma {:induction false} DecimalPlain(n: int)
    ensures '\r' !in Decimal(n) && '\n' !in Decimal(n) && ',' !in Decimal(n) && '\0' !in Decimal(n)
    ensures ' ' !in Decimal(n) && '/' !in Decimal(n)
  {
    var d := Digits(if n < 0 then -n else n);
    assert forall k :: 0 <= k < |d| ==> IsDigit(d[k]);
  }

  // ---------------------------------------------------------------------
  // c_str()
  // ---------------------------------------------------------------------

  /** The string a std::string constructor rebuilds from `s.c_str()`: everything before the first NUL. */
  function UntilNul(s: string): (r: string)
    ensures r <= s && '\0' !in r
    ensures |r| == |s| || s[|r|] == '\0'
  {
    if s == [] || s[0] == '\0' then []
    else
      var t := UntilNul(s[1..]);
      assert t <= s[1..];
      [s[0]] + t
  }

  /** A NUL-free prefix survives the c_str() round trip. */
  lemma {:induction false} UntilNulAppend(a: string, b: string)
    requires '\0' !in a
    ensures UntilNul(a + b) == a + UntilNul(b)
  {
    if a != [] {
      assert (a + b)[1..] == a[1..] + b;
      UntilNulAppend(a[1..], b);
      assert a[0] in a;
      assert UntilNul(a + b) == [a[0]] + UntilNul(a[1..] + b);
      assert a == [a[0]] + a[1..];
    } else {
      assert a + b == b;
    }
  }
}
