/** `u32::from_str_radix(s, 16)` from Rust's standard library, which the
    colour option of the clock command goes through. */
module Hex {
  import opened Common

  /** The error kinds `from_str_radix` can report for an unsigned type. */
  datatype IntErrorKind = Empty | InvalidDigit | PosOverflow

  predicate IsHexDigit(c: char)
  {
    '0' <= c <= '9' || 'a' <= c <= 'f' || 'A' <= c <= 'F'
  }

  /** `char::to_digit(16)`. */
  function HexDigitValue(c: char): (d: nat)
    requires IsHexDigit(c)
    ensures d < 16
  {
    if '0' <= c <= '9' then c as int - '0' as int
    else if 'a' <= c <= 'f' then c as int - 'a' as int + 10
    else c as int - 'A' as int + 10
  }

  predicate AllHexDigits(s: string)
  {
    forall i :: 0 <= i < |s| ==> IsHexDigit(s[i])
  }

  function Pow16(k: nat): (p: nat)
    ensures p >= 1
  {
    if k == 0 then 1 else 16 * Pow16(k - 1)
  }

  /** The number a string of hex digits denotes (most significant first). */
  function HexValue(s: string): (v: nat)
    requires AllHexDigits(s)
    ensures v < Pow16(|s|)
  {
    if s == [] then 0 else HexValue(s[..|s| - 1]) * 16 + HexDigitValue(s[|s| - 1])
  }

  /** `from_str_radix(s, 16)` for `u32`: an empty string is `Empty`; a lone
      sign is `InvalidDigit`; one leading '+' is skipped ('-' is not, so it is
      an invalid digit); then the digits are folded in from the left. */
  function FromStrRadix16(s: string): Result<U32, IntErrorKind>
  {
    if s == [] then Err(Empty)
    else if (s[0] == '+' || s[0] == '-') && |s| == 1 then Err(InvalidDigit)
    else if s[0] == '+' then Accumulate(s[1..], 0)
    else Accumulate(s, 0)
  }

  /** The digit loop of `from_str_radix`: each step checks the digit first,
      then reports overflow of `acc * 16 + digit`. */
  function Accumulate(ds: string, acc: U32): (r: Result<U32, IntErrorKind>)
    ensures r != Err(Empty)
    decreases |ds|
  {
    if ds == [] then Ok(acc)
    else if !IsHexDigit(ds[0]) then Err(InvalidDigit)
    else if acc * 16 + HexDigitValue(ds[0]) >= U32Modulus then Err(PosOverflow)
    else Accumulate(ds[1..], acc * 16 + HexDigitValue(ds[0]))
  }

  lemma {:induction false} HexValueCons(c: char, s: string)
    requires IsHexDigit(c) && AllHexDigits(s)
    ensures HexValue([c] + s) == HexDigitValue(c) * Pow16(|s|) + HexValue(s)
    decreases |s|
  {
    var t := [c] + s;
    if s != [] {
      var init := s[..|s| - 1];
      var last := HexDigitValue(s[|s| - 1]);
      var dc := HexDigitValue(c);
      assert t[..|t| - 1] == [c] + init;
      assert t[|t| - 1] == s[|s| - 1];
      HexValueCons(c, init);
      assert HexValue(t) == HexValue([c] + init) * 16 + last;
      assert HexValue([c] + init) == dc * Pow16(|init|) + HexValue(init);
      assert Pow16(|s|) == 16 * Pow16(|init|);
      Shift(dc, Pow16(|init|), HexValue(init));
      assert HexValue(s) == HexValue(init) * 16 + last;
    } else {
      assert t[..|t| - 1] == [];
    }
  }

  lemma Shift(a: int, p: int, b: int)
    ensures (a * p + b) * 16 == a * (16 * p) + b * 16
    ensures a * (16 * p) + b * p == (a * 16 + b) * p
  {
  }

  lemma Grow(x: nat, p: nat)
    requires p >= 1
    ensures x <= x * p
  {
  }

  /** Folding digits into an accumulator that stays in range yields the
      accumulator shifted by the digits plus their value. */
  lemma {:induction false} AccumulateValue(ds: string, acc: U32)
    requires AllHexDigits(ds)
    requires acc * Pow16(|ds|) + HexValue(ds) < U32Modulus
    ensures Accumulate(ds, acc) == Ok(acc * Pow16(|ds|) + HexValue(ds))
    decreases |ds|
  {
    if ds != [] {
      var d := HexDigitValue(ds[0]);
      var rest := ds[1..];
      assert ds == [ds[0]] + rest;
      var p := Pow16(|rest|);
      HexValueCons(ds[0], rest);
      assert HexValue(ds) == d * p + HexValue(rest);
      assert Pow16(|ds|) == 16 * p;
      Shift(acc, p, d);
      assert acc * Pow16(|ds|) + HexValue(ds) == (acc * 16 + d) * p + HexValue(rest);
      Grow(acc * 16 + d, p);
      AccumulateValue(rest, acc * 16 + d);
    }
  }

  /** Any invalid character makes the fold fail, unless an overflow comes first. */
  lemma {:induction false} AccumulateRejects(ds: string, acc: U32)
    requires !AllHexDigits(ds)
    ensures Accumulate(ds, acc).Err?
    decreases |ds|
  {
    if IsHexDigit(ds[0]) && acc * 16 + HexDigitValue(ds[0]) < U32Modulus {
      assert !AllHexDigits(ds[1..]) by {
        var i :| 0 <= i < |ds| && !IsHexDigit(ds[i]);
        assert i > 0 && !IsHexDigit(ds[1..][i - 1]);
      }
      AccumulateRejects(ds[1..], acc * 16 + HexDigitValue(ds[0]));
    }
  }

  /** The digits `from_str_radix` reads: everything after one leading '+'. */
  function Digits(s: string): string
  {
    if |s| > 0 && s[0] == '+' then s[1..] else s
  }

  /** Up to seven hex digits (after an optional '+') always parse, to their
      value; anything else that is not a valid digit string is refused, with
      `Empty` exactly for the empty string. */
  lemma FromStrRadix16Spec(s: string)
    ensures FromStrRadix16(s) == Err(Empty) <==> s == []
    ensures AllHexDigits(Digits(s)) && 1 <= |Digits(s)| <= 7 ==>
              FromStrRadix16(s) == Ok(HexValue(Digits(s)))
    ensures !AllHexDigits(Digits(s)) || Digits(s) == [] ==> FromStrRadix16(s).Err?
  {
    var ds := Digits(s);
    if s != [] && |ds| >= 1 {
      if AllHexDigits(ds) {
        if |ds| <= 7 {
          Pow16Monotone(|ds|, 7);
          assert Pow16(7) == 0x1000_0000;
          AccumulateValue(ds, 0);
        }
      } else {
        AccumulateRejects(ds, 0);
      }
    }
  }

  lemma {:induction false} Pow16Monotone(j: nat, k: nat)
    requires j <= k
    ensures Pow16(j) <= Pow16(k)
    decreases k
  {
    if j < k { Pow16Monotone(j, k - 1); }
  }
}
