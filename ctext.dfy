/** The small pieces of the C library the core leans on (strchr, strstr,
    strlen, atoi, printf's %d, snprintf truncation and a guint-to-int cast),
    stated over Dafny strings. A C string is modelled by its contents: the
    characters before its NUL terminator. */
module CText {

  datatype Option<+T> = None | Some(value: T) {
    function GetOr(default: T): T {
      match this
      case Some(v) => v
      case None => default
    }
  }

  /** strchr(s + from, c): the first index at or after `from` that holds `c`. */
  function IndexOf(s: string, c: char, from: nat): (r: Option<nat>)
    decreases |s| - from
    ensures r.Some? ==> from <= r.value < |s| && s[r.value] == c
    ensures r.Some? ==> forall j :: from <= j < r.value ==> s[j] != c
    ensures r.None? ==> forall j :: from <= j < |s| ==> s[j] != c
  {
    if from >= |s| then None
    else if s[from] == c then Some(from)
    else IndexOf(s, c, from + 1)
  }

  /** `p` occurs in `s` starting at index `i`. */
  predicate OccursAt(s: string, p: string, i: nat) {
    i + |p| <= |s| && s[i..i + |p|] == p
  }

  /** strstr(s + from, p): the first index at or after `from` where `p` occurs. */
  function Find(s: string, p: string, from: nat): (r: Option<nat>)
    decreases |s| - from
    ensures r.Some? ==> from <= r.value && OccursAt(s, p, r.value)
    ensures r.Some? ==> forall j :: from <= j < r.value ==> !OccursAt(s, p, j)
    ensures r.None? ==> forall j :: from <= j ==> !OccursAt(s, p, j)
  {
    if from + |p| > |s| then None
    else if s[from..from + |p|] == p then Some(from)
    else Find(s, p, from + 1)
  }

  /** IndexOf finds `k` when `c` is there and nowhere between `from` and `k`. */
  lemma IndexOfAt(s: string, c: char, from: nat, k: nat)
    requires from <= k < |s| && s[k] == c
    requires forall j :: from <= j < k ==> s[j] != c
    ensures IndexOf(s, c, from) == Some(k)
  {
  }

  /** IndexOf stated with a membership test, convenient for literal slices. */
  lemma IndexOfAtFirst(s: string, c: char, from: nat, k: nat)
    requires from <= k < |s| && s[k] == c && c !in s[from..k]
    ensures IndexOf(s, c, from) == Some(k)
  {
    forall j | from <= j < k
      ensures s[j] != c
    {
      assert s[j] == s[from..k][j - from];
    }
  }

  /** Find finds `k` when `p` occurs there and nowhere between `from` and `k`. */
  lemma FindAt(s: string, p: string, from: nat, k: nat)
    requires from <= k && OccursAt(s, p, k)
    requires forall j :: from <= j < k ==> !OccursAt(s, p, j)
    ensures Find(s, p, from) == Some(k)
  {
  }

  /** The contents of a NUL-terminated character buffer. */
  function CStr(buf: seq<char>): (r: string)
    ensures '\0' !in r
    ensures '\0' in buf ==> |r| < |buf| && buf[|r|] == '\0' && r == buf[..|r|]
  {
    match IndexOf(buf, '\0', 0)
    case Some(k) => buf[..k]
    case None => buf
  }

  /** A string with no NUL is its own C string. */
  lemma CStrPlain(s: string)
    requires '\0' !in s
    ensures CStr(s) == s
  {
  }

  /** strlen over a buffer that holds a terminator. */
  method Strlen(a: array<char>) returns (n: nat)
    requires '\0' in a[..]
    ensures n < a.Length && a[n] == '\0' && a[..n] == CStr(a[..])
  {
    n := 0;
    while a[n] != '\0'
      invariant n < a.Length
      invariant forall j :: 0 <= j < n ==> a[j] != '\0'
      invariant '\0' in a[n..]
      decreases a.Length - n
    {
      assert a[n..] == [a[n]] + a[n + 1..];
      n := n + 1;
    }
    assert a[..][..n] == a[..n];
  }

  /** isspace in the C locale. */
  predicate IsSpace(c: char) {
    c == ' ' || c == '\t' || c == '\n' || c == '\r' || c as int == 11 || c as int == 12
  }

  predicate IsDigit(c: char) {
    '0' <= c <= '9'
  }

  function DigitValue(c: char): (d: nat)
    requires IsDigit(c)
    ensures d < 10
  {
    (c - '0') as nat
  }

  function DigitChar(d: nat): (c: char)
    requires d < 10
    ensures IsDigit(c) && DigitValue(c) == d
  {
    ('0' as int + d) as char
  }

  /** The longest prefix of `s` made of decimal digits. */
  function LeadingDigits(s: string): (r: string)
    ensures r <= s
    ensures forall i :: 0 <= i < |r| ==> IsDigit(r[i])
    ensures |r| < |s| ==> !IsDigit(s[|r|])
  {
    if s == [] || !IsDigit(s[0]) then [] else [s[0]] + LeadingDigits(s[1..])
  }

  /** The number a string of decimal digits denotes, most significant first. */
  function DigitsValue(d: string): nat
    requires forall i :: 0 <= i < |d| ==> IsDigit(d[i])
  {
    if d == [] then 0 else DigitsValue(d[..|d| - 1]) * 10 + DigitValue(d[|d| - 1])
  }

  function SkipSpace(s: string): (r: string)
    ensures |r| <= |s| && r == s[|s| - |r|..]
  {
    if s != [] && IsSpace(s[0]) then SkipSpace(s[1..]) else s
  }

  /** atoi: leading white space, an optional sign, then the longest run of
      digits; 0 when there are none. (Overflow, undefined in C, is not
      modelled: the result is the mathematical value.) */
  function Atoi(s: string): int {
    SignedDigits(SkipSpace(s))
  }

  /** atoi of a text that, after its white space, starts with neither a
      sign nor a digit is 0. */
  lemma AtoiWithoutDigits(s: string)
    requires var t := SkipSpace(s); t == [] || (t[0] != '-' && t[0] != '+' && !IsDigit(t[0]))
    ensures Atoi(s) == 0
  {
  }

  /** atoi after the white space: an optional sign, then the digits. */
  function SignedDigits(t: string): int {
    if t != [] && t[0] == '-' then 0 - DigitsValue(LeadingDigits(t[1..]))
    else if t != [] && t[0] == '+' then DigitsValue(LeadingDigits(t[1..]))
    else DigitsValue(LeadingDigits(t))
  }

  /** printf's %u of a natural number. */
  function NatToDecimal(n: nat): (r: string)
    ensures 1 <= |r|
    ensures forall i :: 0 <= i < |r| ==> IsDigit(r[i])
  {
    if n < 10 then [DigitChar(n)] else NatToDecimal(n / 10) + [DigitChar(n % 10)]
  }

  /** printf's %d. */
  function IntToDecimal(n: int): string {
    if n < 0 then "-" + NatToDecimal(-n) else NatToDecimal(n)
  }

  lemma {:induction false} NatToDecimalValue(n: nat)
    ensures DigitsValue(NatToDecimal(n)) == n
  {
    if n >= 10 {
      var r := NatToDecimal(n);
      NatToDecimalValue(n / 10);
      assert r[..|r| - 1] == NatToDecimal(n / 10);
    }
  }

  lemma {:induction false} LeadingDigitsOfDigits(d: string, rest: string)
    requires forall i :: 0 <= i < |d| ==> IsDigit(d[i])
    requires rest == [] || !IsDigit(rest[0])
    ensures LeadingDigits(d + rest) == d
  {
    if d != [] {
      assert (d + rest)[1..] == d[1..] + rest;
      LeadingDigitsOfDigits(d[1..], rest);
    }
  }

  /** Reading back what %d printed, up to a following non-digit, gives the
      number printed. */
  lemma AtoiOfDecimal(n: int, rest: string)
    requires rest == [] || !IsDigit(rest[0])
    ensures Atoi(IntToDecimal(n) + rest) == n
  {
    if n < 0 {
      var d := NatToDecimal(-n);
      calc {
        Atoi(IntToDecimal(n) + rest);
        { assert IntToDecimal(n) + rest == ['-'] + (d + rest); }
        Atoi(['-'] + (d + rest));
        { AtoiOfSignedDigits(d, rest); }
        0 - DigitsValue(d);
        { NatToDecimalValue(-n); }
        n;
      }
    } else {
      AtoiOfDigits(NatToDecimal(n), rest);
      NatToDecimalValue(n);
    }
  }

  lemma AtoiOfDigits(d: string, rest: string)
    requires d != [] && forall i :: 0 <= i < |d| ==> IsDigit(d[i])
    requires rest == [] || !IsDigit(rest[0])
    ensures Atoi(d + rest) == DigitsValue(d)
  {
    var t := d + rest;
    assert t[0] == d[0];
    AtoiUnsigned(t);
    LeadingDigitsOfDigits(d, rest);
  }

  /** atoi of a text that opens with a digit: the value of its leading digits. */
  lemma AtoiUnsigned(t: string)
    requires t != [] && IsDigit(t[0])
    ensures Atoi(t) == DigitsValue(LeadingDigits(t))
  {
    NoLeadingSpace(t);
  }

  lemma AtoiOfSignedDigits(d: string, rest: string)
    requires forall i :: 0 <= i < |d| ==> IsDigit(d[i])
    requires rest == [] || !IsDigit(rest[0])
    ensures Atoi(['-'] + (d + rest)) == 0 - DigitsValue(d)
  {
    var t := ['-'] + (d + rest);
    calc {
      Atoi(t);
      SignedDigits(SkipSpace(t));
      { NoLeadingSpace(t); }
      SignedDigits(t);
      0 - DigitsValue(LeadingDigits(t[1..]));
      { assert t[1..] == d + rest; LeadingDigitsOfDigits(d, rest); }
      0 - DigitsValue(d);
    }
  }

  lemma NoLeadingSpace(t: string)
    requires t != [] && !IsSpace(t[0])
    ensures SkipSpace(t) == t
  {
  }

  /** %u of n takes at most k characters exactly when n < 10^k (k >= 1:
      zero still prints one digit). */
  lemma {:induction false} NatToDecimalLength(n: nat, k: nat)
    requires k >= 1
    ensures |NatToDecimal(n)| <= k <==> n < Pow10(k)
  {
    Pow10Positive(k - 1);
    assert Pow10(k) == 10 * Pow10(k - 1);
    if n >= 10 && k > 1 {
      NatToDecimalLength(n / 10, k - 1);
    } else if n >= 10 {
      assert |NatToDecimal(n / 10)| >= 1;
    } else {
      assert NatToDecimal(n) == [DigitChar(n)];
    }
  }

  function Pow10(k: nat): (r: nat) {
    if k == 0 then 1 else 10 * Pow10(k - 1)
  }

  lemma {:induction false} Pow10Positive(k: nat)
    ensures Pow10(k) >= 1
  {
    if k > 0 {
      Pow10Positive(k - 1);
    }
  }

  /** snprintf(buf, size, "%s", text): at most size - 1 characters are kept. */
  function Snprintf(text: string, size: nat): (r: string)
    requires size > 0
    ensures r <= text
    ensures |r| == if |text| < size then |text| else size - 1
  {
    if |text| < size then text else text[..size - 1]
  }

  const UINT32_LIMIT: nat := 0x1_0000_0000
  const INT32_LIMIT: nat := 0x8000_0000

  /** The conversion `(int)u` of a guint: values above INT_MAX wrap to negative. */
  function GuintToInt(u: nat): (r: int)
    requires u < UINT32_LIMIT
    ensures -(INT32_LIMIT as int) <= r < INT32_LIMIT
    ensures r % UINT32_LIMIT == u
  {
    if u < INT32_LIMIT then u else u - UINT32_LIMIT
  }
}
