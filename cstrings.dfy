/** The pieces of the C library the connection code relies on, stated over
    `seq<char>`: NUL-terminated strings, case-insensitive comparison (ASCII
    `tolower`), `strpbrk`/`strspn`/`strchr`/`strrchr` searches, the copies
    `strcpy`/`strncpy` into a fixed-size memory image, `%d` formatting and
    `atol`. */
module CStrings {
  const NUL: char := '\0'
  const CR: char := '\r'
  const LF: char := '\n'

  /** The separator set " \t" of the request line. */
  predicate IsBlank(c: char) { c == ' ' || c == '\t' }

  /** `isspace` in the C locale. */
  predicate IsSpace(c: char) {
    c == ' ' || c == '\t' || c == '\n' || c == '\r' || c == '\U{0B}' || c == '\U{0C}'
  }

  predicate IsDigit(c: char) { '0' <= c <= '9' }

  predicate NoNul(s: seq<char>) { forall i :: 0 <= i < |s| ==> s[i] != NUL }

  lemma NoNulAppend(a: seq<char>, b: seq<char>)
    requires NoNul(a) && NoNul(b)
    ensures NoNul(a + b)
  {
    forall i | 0 <= i < |a + b| ensures (a + b)[i] != NUL {
      if i >= |a| { assert (a + b)[i] == b[i - |a|]; }
    }
  }

  /** The string a `char *` pointing at `s` denotes: everything before the first NUL. */
  function CString(s: seq<char>): (r: seq<char>)
    ensures |r| <= |s| && r == s[..|r|]
    ensures NoNul(r)
    ensures |r| < |s| ==> s[|r|] == NUL
  {
    if s == [] || s[0] == NUL then [] else [s[0]] + CString(s[1..])
  }

  /** A C string ends at the first NUL, so a NUL at `m` cuts it to within `s[..m]`. */
  lemma {:induction false} CStringUpTo(s: seq<char>, m: nat)
    requires m < |s| && s[m] == NUL
    ensures CString(s) == CString(s[..m])
    decreases m
  {
    if m > 0 && s[0] != NUL {
      assert s[..m][0] == s[0];
      assert s[..m][1..] == s[1..][..m - 1];
      CStringUpTo(s[1..], m - 1);
    }
  }

  lemma {:induction false} CStringOfNoNul(a: seq<char>, b: seq<char>)
    requires NoNul(a)
    ensures CString(a + b) == a + CString(b)
  {
    if a != [] {
      assert (a + b)[0] == a[0];
      assert (a + b)[1..] == a[1..] + b;
      CStringOfNoNul(a[1..], b);
      calc {
        CString(a + b);
        [a[0]] + CString(a[1..] + b);
        [a[0]] + (a[1..] + CString(b));
        { assert a == [a[0]] + a[1..]; }
        a + CString(b);
      }
    } else {
      assert a + b == b;
    }
  }

  /** ASCII `tolower`. */
  function Lower(c: char): char {
    if 'A' <= c <= 'Z' then (c as int + 32) as char else c
  }

  /** `strcasecmp(a, b) == 0` for strings without NUL. */
  predicate EqualsIgnoreCase(a: seq<char>, b: seq<char>) {
    |a| == |b| && forall i :: 0 <= i < |a| ==> Lower(a[i]) == Lower(b[i])
  }

  /** `strncasecmp(s, p, |p|) == 0` for strings without NUL: a shorter `s`
      meets its terminator where `p` still has a character, so it differs. */
  predicate StartsWithIgnoreCase(s: seq<char>, p: seq<char>) {
    |s| >= |p| && EqualsIgnoreCase(s[..|p|], p)
  }

  /** `strpbrk(s, " \t")` as an index; `|s|` stands for NULL. */
  function FirstBlank(s: seq<char>): (k: nat)
    ensures k <= |s|
    ensures k < |s| ==> IsBlank(s[k])
    ensures forall j :: 0 <= j < k ==> !IsBlank(s[j])
  {
    if s == [] || IsBlank(s[0]) then 0 else 1 + FirstBlank(s[1..])
  }

  /** `strspn(s, " \t")`. */
  function SpanBlanks(s: seq<char>): (k: nat)
    ensures k <= |s|
    ensures k < |s| ==> !IsBlank(s[k])
    ensures forall j :: 0 <= j < k ==> IsBlank(s[j])
  {
    if s == [] || !IsBlank(s[0]) then 0 else 1 + SpanBlanks(s[1..])
  }

  /** What is left after `s += strspn(s, " \t")`. */
  function SkipBlanks(s: seq<char>): seq<char> {
    s[SpanBlanks(s)..]
  }

  /** The leading white space `atol` skips. */
  function SpanSpaces(s: seq<char>): (k: nat)
    ensures k <= |s|
    ensures k < |s| ==> !IsSpace(s[k])
    ensures forall j :: 0 <= j < k ==> IsSpace(s[j])
  {
    if s == [] || !IsSpace(s[0]) then 0 else 1 + SpanSpaces(s[1..])
  }

  /** `strchr(s, c)` as an index; `|s|` stands for NULL. */
  function IndexOf(s: seq<char>, c: char): (k: nat)
    ensures k <= |s|
    ensures k < |s| ==> s[k] == c
    ensures forall j :: 0 <= j < k ==> s[j] != c
  {
    if s == [] || s[0] == c then 0 else 1 + IndexOf(s[1..], c)
  }

  /** `strrchr(s, c)` as an index, for a `c` that occurs in `s`. */
  function LastIndexOf(s: seq<char>, c: char): (k: nat)
    requires c in s
    ensures k < |s| && s[k] == c
    ensures forall j :: k < j < |s| ==> s[j] != c
  {
    if s[|s| - 1] == c then |s| - 1 else LastIndexOf(s[..|s| - 1], c)
  }

  /** The byte at `s[i]` in memory holding the C string `s`: its terminator at `|s|`. */
  function CharAt(s: seq<char>, i: nat): char
    requires i <= |s|
  {
    if i < |s| then s[i] else NUL
  }

  /** `strcpy(mem + at, s)` on a memory image: `s` and its terminator. */
  function StrCpy(mem: seq<char>, at: nat, s: seq<char>): (r: seq<char>)
    requires NoNul(s) && at + |s| < |mem|
    ensures |r| == |mem|
    ensures r == mem[..at] + s + [NUL] + mem[at + |s| + 1..]
    ensures r[..at] == mem[..at] && r[at..at + |s|] == s && r[at + |s|] == NUL
  {
    mem[..at] + s + [NUL] + mem[at + |s| + 1..]
  }

  /** `strncpy(mem + at, s, n)`: the first `n` characters of the string `s`,
      padded with NUL up to `n`; no terminator when `s` is `n` long or longer. */
  function StrNCpy(mem: seq<char>, at: nat, s: seq<char>, n: nat): (r: seq<char>)
    requires at + n <= |mem|
    ensures |r| == |mem| && r[..at] == mem[..at]
  {
    var src := CString(s);
    var m := if |src| < n then |src| else n;
    mem[..at] + src[..m] + seq(n - m, _ => NUL) + mem[at + n..]
  }

  /** `vsnprintf(mem + at, size, "%s", s)` on a memory image: at most
      `size - 1` characters of `s` and a terminator; nothing when `size` is 0. */
  function Vsnprintf(mem: seq<char>, at: nat, size: nat, s: seq<char>): (r: seq<char>)
    requires at + size <= |mem|
    ensures |r| == |mem| && r[..at] == mem[..at]
    ensures |s| < size ==> r[at..at + |s|] == s
  {
    if size == 0 then mem
    else
      var m := if |s| < size then |s| else size - 1;
      mem[..at] + s[..m] + [NUL] + mem[at + m + 1..]
  }

  function DigitChar(d: nat): char
    requires d < 10
  {
    ('0' as int + d) as char
  }

  /** `%d` of a non-negative value. */
  function Decimal(n: nat): (r: seq<char>)
    ensures |r| >= 1
    ensures forall i :: 0 <= i < |r| ==> IsDigit(r[i])
  {
    if n < 10 then [DigitChar(n)] else Decimal(n / 10) + [DigitChar(n % 10)]
  }

  /** `%d` of any `int`: a minus sign exactly for a negative value, then
      decimal digits. */
  function FormatInt(i: int): (r: seq<char>)
    ensures |r| >= 1 && (r[0] == '-' <==> i < 0)
    ensures forall j :: (if i < 0 then 1 else 0) <= j < |r| ==> IsDigit(r[j])
  {
    if i < 0 then "-" + Decimal(-i) else Decimal(i)
  }

  function Pow10(k: nat): nat {
    if k == 0 then 1 else 10 * Pow10(k - 1)
  }

  lemma {:induction false} DecimalLength(n: nat, k: nat)
    requires 1 <= k && n < Pow10(k)
    ensures |Decimal(n)| <= k
  {
    if n >= 10 {
      assert Pow10(1) == 10;
      assert k >= 2;
      DecimalLength(n / 10, k - 1);
    }
  }

  /** The number of leading decimal digits of `s`. */
  function LeadingDigits(s: seq<char>): (k: nat)
    ensures k <= |s|
    ensures forall j :: 0 <= j < k ==> IsDigit(s[j])
    ensures k < |s| ==> !IsDigit(s[k])
  {
    if s == [] || !IsDigit(s[0]) then 0 else 1 + LeadingDigits(s[1..])
  }

  /** The value of a run of decimal digits. */
  function DigitValue(c: char): nat
    requires IsDigit(c)
  {
    c as int - '0' as int
  }

  function DigitsValue(s: seq<char>): nat
    requires forall j :: 0 <= j < |s| ==> IsDigit(s[j])
  {
    if s == [] then 0 else DigitsValue(s[..|s| - 1]) * 10 + DigitValue(s[|s| - 1])
  }

  /** `atol(s)`: leading white space, an optional sign, then decimal digits;
      the first other character ends the number. A string with no digit
      reads as zero, and one with no sign as a value that is not negative. */
  function Atol(s: seq<char>): (r: int)
    ensures (forall j :: 0 <= j < |s| ==> !IsDigit(s[j])) ==> r == 0
    ensures (forall j :: 0 <= j < |s| ==> s[j] != '-') ==> r >= 0
  {
    var t := s[SpanSpaces(s)..];
    if |t| > 0 && (t[0] == '-' || t[0] == '+') then
      var d := t[1..][..LeadingDigits(t[1..])];
      if t[0] == '-' then -(DigitsValue(d) as int) else DigitsValue(d)
    else
      DigitsValue(t[..LeadingDigits(t)])
  }

  lemma {:induction false} DigitsValueDecimal(n: nat)
    ensures DigitsValue(Decimal(n)) == n
  {
    if n >= 10 {
      var s := Decimal(n);
      assert s[..|s| - 1] == Decimal(n / 10);
      DigitsValueDecimal(n / 10);
    }
  }

  lemma LeadingDigitsAll(s: seq<char>)
    requires forall j :: 0 <= j < |s| ==> IsDigit(s[j])
    ensures LeadingDigits(s) == |s|
  { }

  /** The leading digits of a string that starts with a run of digits
      followed by something else are that run. */
  lemma {:induction false} LeadingDigitsPrefix(d: seq<char>, rest: seq<char>)
    requires forall j :: 0 <= j < |d| ==> IsDigit(d[j])
    requires rest == [] || !IsDigit(rest[0])
    ensures LeadingDigits(d + rest) == |d|
  {
    if d != [] {
      assert (d + rest)[1..] == d[1..] + rest;
      LeadingDigitsPrefix(d[1..], rest);
    }
  }

  /** `atol` stops at the blank after a number `%d` wrote. */
  lemma DecimalThenSpace(n: nat, rest: seq<char>)
    ensures Atol(Decimal(n) + " " + rest) == n
  {
    var d := Decimal(n);
    var s := d + " " + rest;
    assert s == d + (" " + rest);
    LeadingDigitsPrefix(d, " " + rest);
    DigitsValueDecimal(n);
    assert SpanSpaces(s) == 0 by {
      assert IsDigit(s[0]);
    }
    assert s[0..][..|d|] == d;
  }

  /** `atol` reads back what `%d` wrote. */
  lemma AtolFormatInt(i: int)
    ensures Atol(FormatInt(i)) == i
  {
    var n: nat := if i < 0 then -i else i;
    var d := Decimal(n);
    LeadingDigitsAll(d);
    DigitsValueDecimal(n);
    var s := FormatInt(i);
    assert SpanSpaces(s) == 0;
    if i < 0 {
      assert s[1..] == d;
      assert d[..|d|] == d;
    } else {
      assert s[..|s|] == s;
    }
  }
}
