/** The string operations the program borrows from Rust's standard library:
    `format!("{n}")`, `format!("{n:08}")`, `str::replace`, `str::len` (a count
    of UTF-8 bytes) and `str::to_uppercase`. */
module Formatting {

  predicate IsDigit(c: char) { '0' <= c <= '9' }

  function DigitChar(d: nat): (c: char)
    requires d < 10
    ensures IsDigit(c) && DigitValue(c) == d
  {
    "0123456789"[d]
  }

  function DigitValue(c: char): nat
    requires IsDigit(c)
  {
    c as int - '0' as int
  }

  /** `format!("{n}")`: decimal digits, no leading zero (a single "0" for zero). */
  function Decimal(n: nat): (s: string)
    ensures |s| >= 1 && forall i :: 0 <= i < |s| ==> IsDigit(s[i])
    decreases n
  {
    if n < 10 then [DigitChar(n)] else Decimal(n / 10) + [DigitChar(n % 10)]
  }

  /** Reads a string of decimal digits back as a number (most significant first). */
  function DecimalValue(s: string): nat
    requires forall i :: 0 <= i < |s| ==> IsDigit(s[i])
  {
    if s == [] then 0 else DecimalValue(s[..|s| - 1]) * 10 + DigitValue(s[|s| - 1])
  }

  function Pow10(k: nat): (p: nat)
    ensures p >= 1
  {
    if k == 0 then 1 else 10 * Pow10(k - 1)
  }

  function Zeros(k: nat): (s: string)
    ensures |s| == k && forall i :: 0 <= i < k ==> s[i] == '0'
  {
    if k == 0 then [] else Zeros(k - 1) + ['0']
  }

  /** `format!("{n:08}")`: the decimal digits of `n`, left-padded with '0' to
      at least eight characters. */
  function ZeroPad8(n: nat): (s: string)
    ensures forall i :: 0 <= i < |s| ==> IsDigit(s[i])
  {
    var d := Decimal(n);
    if |d| < 8 then Zeros(8 - |d|) + d else d
  }

  /** Reading back what `Decimal` wrote gives the number again. */
  lemma {:induction false} DecimalRoundTrip(n: nat)
    ensures DecimalValue(Decimal(n)) == n
    decreases n
  {
    if n >= 10 {
      DecimalRoundTrip(n / 10);
      var d := Decimal(n / 10) + [DigitChar(n % 10)];
      assert d[..|d| - 1] == Decimal(n / 10);
    }
  }

  /** `Decimal(n)` has at most `k` digits exactly when `n < 10^k`. */
  lemma {:induction false} DecimalLength(n: nat, k: nat)
    requires k >= 1
    ensures |Decimal(n)| <= k <==> n < Pow10(k)
    decreases n
  {
    if n >= 10 {
      if k == 1 {
        assert |Decimal(n)| >= 2 by { assert |Decimal(n)| == |Decimal(n / 10)| + 1; }
      } else {
        DecimalLength(n / 10, k - 1);
      }
    }
  }

  /** Leading zeros do not change the value read back. */
  lemma {:induction false} LeadingZeros(k: nat, s: string)
    requires forall i :: 0 <= i < |s| ==> IsDigit(s[i])
    ensures DecimalValue(Zeros(k) + s) == DecimalValue(s)
    decreases |s|, k
  {
    var z := Zeros(k) + s;
    if s == [] {
      if k > 0 {
        assert z[..|z| - 1] == Zeros(k - 1) + [];
        LeadingZeros(k - 1, []);
      }
    } else {
      assert z[..|z| - 1] == Zeros(k) + s[..|s| - 1];
      LeadingZeros(k, s[..|s| - 1]);
    }
  }

  /** The zero-padded form reads back as `n`, and for the millisecond values
      of the clock (below 10^8) it is exactly eight characters long. */
  lemma ZeroPad8RoundTrip(n: nat)
    ensures DecimalValue(ZeroPad8(n)) == n
    ensures |ZeroPad8(n)| >= 8
    ensures n < 100_000_000 ==> |ZeroPad8(n)| == 8
  {
    DecimalRoundTrip(n);
    var d := Decimal(n);
    if |d| < 8 {
      LeadingZeros(8 - |d|, d);
    }
    DecimalLength(n, 8);
    EightDigits();
  }

  lemma EightDigits()
    ensures Pow10(8) == 100_000_000
  {
  }

  /** `str::replace(pat, rep)`: every non-overlapping occurrence of a
      non-empty `pat`, scanning left to right, is replaced by `rep`. */
  function Replace(s: string, pat: string, rep: string): string
    requires |pat| > 0
    decreases |s|
  {
    if |s| < |pat| then s
    else if s[..|pat|] == pat then rep + Replace(s[|pat|..], pat, rep)
    else [s[0]] + Replace(s[1..], pat, rep)
  }

  /** `pat` occurs in `s` starting at index `i`. */
  predicate OccursAt(s: string, pat: string, i: nat)
  {
    i + |pat| <= |s| && s[i..i + |pat|] == pat
  }

  predicate Occurs(s: string, pat: string)
  {
    exists i: nat | i <= |s| :: OccursAt(s, pat, i)
  }

  /** A string without any occurrence of the pattern is left unchanged. */
  lemma {:induction false} ReplaceAbsent(s: string, pat: string, rep: string)
    requires |pat| > 0 && !Occurs(s, pat)
    ensures Replace(s, pat, rep) == s
    decreases |s|
  {
    if |s| >= |pat| {
      assert s[..|pat|] != pat by { assert !OccursAt(s, pat, 0); }
      forall i: nat ensures !OccursAt(s[1..], pat, i) {
        assert !OccursAt(s, pat, i + 1);
      }
      ReplaceAbsent(s[1..], pat, rep);
    }
  }

  /** The first character of a replacement result: the replacement's first
      character when the pattern starts the string, the string's own first
      character otherwise. */
  lemma ReplaceHead(s: string, pat: string, rep: string)
    requires |pat| > 0 && |rep| > 0 && |s| > 0
    ensures |Replace(s, pat, rep)| > 0
    ensures Replace(s, pat, rep)[0] == if OccursAt(s, pat, 0) then rep[0] else s[0]
  {
  }

  /** A "%m" in a concatenation lies in one part or straddles the seam. */
  lemma TokenInConcat(a: string, b: string)
    requires !Occurs(a, "%m") && !Occurs(b, "%m")
    requires a != [] && b != [] ==> !(a[|a| - 1] == '%' && b[0] == 'm')
    ensures !Occurs(a + b, "%m")
  {
    var r := a + b;
    forall i: nat | i <= |r| ensures !OccursAt(r, "%m", i) {
      if OccursAt(r, "%m", i) {
        assert r[i..i + 2] == "%m";
        assert r[i] == '%' && r[i + 1] == 'm';
        if i + 2 <= |a| {
          assert a[i..i + 2] == r[i..i + 2];
          assert OccursAt(a, "%m", i);
        } else if i >= |a| {
          assert b[i - |a|..i - |a| + 2] == r[i..i + 2];
          assert OccursAt(b, "%m", i - |a|);
        }
      }
    }
  }

  /** With a replacement made of digits, no "%m" survives `Replace(s, "%m", rep)`:
      every token of a file-name template is substituted. */
  lemma {:induction false} TokenFullyReplaced(s: string, rep: string)
    requires |rep| > 0 && forall i :: 0 <= i < |rep| ==> IsDigit(rep[i])
    ensures !Occurs(Replace(s, "%m", rep), "%m")
    decreases |s|
  {
    if |s| < 2 {
      assert forall i: nat | i <= |s| :: !OccursAt(s, "%m", i);
    } else if s[..2] == "%m" {
      TokenFullyReplaced(s[2..], rep);
      assert !Occurs(rep, "%m") by {
        forall i: nat | i + 2 <= |rep| ensures !OccursAt(rep, "%m", i) {
          assert rep[i..i + 2][0] == rep[i];
        }
      }
      TokenInConcat(rep, Replace(s[2..], "%m", rep));
    } else {
      var t := Replace(s[1..], "%m", rep);
      TokenFullyReplaced(s[1..], rep);
      ReplaceHead(s[1..], "%m", rep);
      assert !Occurs([s[0]], "%m");
      TokenInConcat([s[0]], t);
    }
  }

  /** The number of bytes `c` takes in UTF-8. */
  function Utf8Width(c: char): (w: nat)
    ensures 1 <= w <= 4
  {
    if c as int < 0x80 then 1
    else if c as int < 0x800 then 2
    else if c as int < 0x1_0000 then 3
    else 4
  }

  /** `str::len`: the length of the UTF-8 encoding of `s`. */
  function Utf8Len(s: string): (n: nat)
    ensures n >= |s|
  {
    if s == [] then 0 else Utf8Width(s[0]) + Utf8Len(s[1..])
  }

  /** `char::to_uppercase` for the characters whose upper case is an ASCII
      letter: 'a'..'z', dotless i (U+0131, upper case 'I') and long s (U+017F,
      upper case 'S'). Every other character is kept as it is. */
  function UpperChar(c: char): char
  {
    if 'a' <= c <= 'z' then (c as int - 32) as char
    else if c == 'ı' then 'I'
    else if c == 'ſ' then 'S'
    else c
  }

  /** `str::to_uppercase`, one character at a time. */
  function ToUpper(s: string): (u: string)
    ensures |u| == |s| && forall i :: 0 <= i < |s| ==> u[i] == UpperChar(s[i])
  {
    seq(|s|, i requires 0 <= i < |s| => UpperChar(s[i]))
  }

  /** A character that cannot start the pattern is kept. */
  lemma ReplaceSkip(c: char, t: string, pat: string, rep: string)
    requires |pat| > 0 && c != pat[0]
    ensures Replace([c] + t, pat, rep) == [c] + Replace(t, pat, rep)
  {
    var s := [c] + t;
    assert s[1..] == t;
    if |s| >= |pat| {
      assert s[..|pat|][0] == c;
    }
  }

  /** A prefix free of the pattern's first character passes through the
      replacement unchanged. */
  lemma {:induction false} ReplaceKeep(p: string, t: string, pat: string, rep: string)
    requires |pat| > 0 && forall i :: 0 <= i < |p| ==> p[i] != pat[0]
    ensures Replace(p + t, pat, rep) == p + Replace(t, pat, rep)
    decreases |p|
  {
    if p == [] {
      assert p + t == t;
    } else {
      ReplaceKeep(p[1..], t, pat, rep);
      ReplaceSkip(p[0], p[1..] + t, pat, rep);
      assert p + t == [p[0]] + (p[1..] + t);
      assert p + Replace(t, pat, rep) == [p[0]] + (p[1..] + Replace(t, pat, rep));
    }
  }
}
