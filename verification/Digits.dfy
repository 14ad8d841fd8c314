/** Numerals: characters as digits of a base, and the value of a run of them. */
module Digits {
  import opened CStrings

  /** Value of a digit or letter as strtoul and the hexadecimal scanners read it; 36 and more for anything else. */
  function CharValue(c: char): nat {
    if '0' <= c <= '9' then c as int - '0' as int
    else if 'A' <= c <= 'Z' then c as int - 'A' as int + 10
    else if 'a' <= c <= 'z' then c as int - 'a' as int + 10
    else 99
  }

  /** Every character is a digit of the base. */
  ghost predicate Numeric(s: string, base: nat) {
    forall k :: 0 <= k < |s| ==> CharValue(s[k]) < base
  }

  /** Value of a numeral. */
  ghost function Val(s: string, base: nat): nat {
    if s == [] then 0 else Val(s[..|s| - 1], base) * base + CharValue(s[|s| - 1])
  }

  function DigitChar(d: nat, upper: bool): (c: char)
    requires d < 16
    ensures CharValue(c) == d
  {
    if d < 10 then (d + '0' as int) as char
    else if upper then (d + 55) as char
    else (d + 87) as char
  }

  /** The shortest numeral of `n`, in base 10 or 16. */
  function Numeral(n: nat, base: nat, upper: bool): (s: string)
    requires base == 10 || base == 16
    ensures |s| >= 1
  {
    if n < base then [DigitChar(n, upper)] else Numeral(n / base, base, upper) + [DigitChar(n % base, upper)]
  }

  function Repeat(c: char, n: int): (s: string)
    ensures |s| == if n > 0 then n else 0
    ensures forall k :: 0 <= k < |s| ==> s[k] == c
  {
    if n <= 0 then [] else Repeat(c, n - 1) + [c]
  }

  lemma RepeatFront(c: char, n: nat)
    ensures Repeat(c, n + 1) == [c] + Repeat(c, n)
  {
  }

  lemma RepeatSum(c: char, n: nat, k: nat)
    ensures Repeat(c, n) + Repeat(c, k) == Repeat(c, n + k)
  {
  }

  lemma RepeatNone(c: char, n: int)
    requires n <= 0
    ensures Repeat(c, n) == []
  {
  }

  lemma ValAppend(s: string, c: char, base: nat)
    ensures Val(s + [c], base) == Val(s, base) * base + CharValue(c)
  {
    assert (s + [c])[..|s|] == s;
  }

  lemma {:induction false} NumeralValue(n: nat, base: nat, upper: bool)
    requires base == 10 || base == 16
    ensures Numeric(Numeral(n, base, upper), base) && Val(Numeral(n, base, upper), base) == n
  {
    if n < base {
      assert Numeral(n, base, upper)[..0] == [];
    } else {
      NumeralValue(n / base, base, upper);
      ValAppend(Numeral(n / base, base, upper), DigitChar(n % base, upper), base);
    }
  }

  // ---- the digits themselves ----

  const UPPER_DIGITS := "0123456789ABCDEF"
  const LOWER_DIGITS := "0123456789abcdef"

  /** Digits and letters have the values in their order, and nothing else has a value below 36. */
  lemma DecimalValues(d: nat)
    requires d < 10
    ensures CharValue("0123456789"[d]) == d
  {
  }

  lemma UpperValues(d: nat)
    requires d < 13
    ensures CharValue("ABCDEFGHIJKLM"[d]) == 10 + d && CharValue("NOPQRSTUVWXYZ"[d]) == 23 + d
  {
  }

  lemma LowerValues(d: nat)
    requires d < 13
    ensures CharValue("abcdefghijklm"[d]) == 10 + d && CharValue("nopqrstuvwxyz"[d]) == 23 + d
  {
  }

  lemma OtherValues(c: char)
    ensures CharValue(c) < 36 <==> '0' <= c <= '9' || 'A' <= c <= 'Z' || 'a' <= c <= 'z'
  {
  }

  lemma DigitChars(d: nat)
    requires d < 16
    ensures DigitChar(d, true) == UPPER_DIGITS[d] && DigitChar(d, false) == LOWER_DIGITS[d]
  {
  }

  /** Every character is a digit of the base, in the case asked for. */
  ghost predicate InCase(s: string, base: nat, upper: bool) {
    forall k :: 0 <= k < |s| ==> CharInCase(s[k], base, upper)
  }

  ghost predicate CharInCase(c: char, base: nat, upper: bool) {
    CharValue(c) < base <= 16 && c == (if upper then UPPER_DIGITS else LOWER_DIGITS)[CharValue(c)]
  }

  lemma {:induction false} NumeralCase(n: nat, base: nat, upper: bool)
    requires base == 10 || base == 16
    ensures InCase(Numeral(n, base, upper), base, upper)
  {
    hide InCase, CharValue, DigitChar;
    DigitInCase(n % base, base, upper);
    if n >= base {
      NumeralCase(n / base, base, upper);
      CaseJoins(Numeral(n / base, base, upper), [DigitChar(n % base, upper)], base, upper);
    }
  }

  lemma DigitInCase(d: nat, base: nat, upper: bool)
    requires (base == 10 || base == 16) && d < base
    ensures InCase([DigitChar(d, upper)], base, upper)
  {
    DigitChars(d);
  }

  lemma CaseJoins(s: string, t: string, base: nat, upper: bool)
    requires InCase(s, base, upper) && InCase(t, base, upper)
    ensures InCase(s + t, base, upper)
  {
    hide CharInCase;
    var r := s + t;
    forall k | 0 <= k < |r| ensures CharInCase(r[k], base, upper) {
      assert r[k] == if k < |s| then s[k] else t[k - |s|];
    }
  }

  /** It is as short as can be. */
  lemma {:induction false} NoLeadingZero(n: nat, base: nat, upper: bool)
    requires (base == 10 || base == 16) && n > 0
    ensures Numeral(n, base, upper)[0] != '0'
  {
    if n >= base {
      NoLeadingZero(n / base, base, upper);
    }
  }

  /** The first of two runs counts as many times as the second has places. */
  lemma {:induction false} ValSplit(s: string, t: string, base: nat)
    ensures Val(s + t, base) == Val(s, base) * Pow(base, |t|) + Val(t, base)
    decreases |t|
  {
    if t == [] {
      assert s + t == s;
    } else {
      var u, c := t[..|t| - 1], t[|t| - 1];
      ValSplit(s, u, base);
      assert s + t == s + u + [c];
      ValAppend(s + u, c, base);
      Shifted(Val(s, base), Pow(base, |u|), Val(u, base), base);
    }
  }

  lemma Shifted(v: nat, p: nat, w: nat, base: nat)
    ensures (v * p + w) * base == v * (base * p) + w * base
  {
    assert v * p * base == v * (base * p);
  }

  /** Leading zeros do not change the value. */
  lemma {:induction false} ValZeros(n: nat, s: string, base: nat)
    ensures Val(Repeat('0', n) + s, base) == Val(s, base)
    decreases n + |s|
  {
    var z := Repeat('0', n);
    if s == [] {
      assert z + s == z;
      if n > 0 {
        ValZeros(n - 1, [], base);
        assert Repeat('0', n - 1) + [] == Repeat('0', n - 1);
        ValAppend(Repeat('0', n - 1), '0', base);
      }
    } else {
      ValZeros(n, s[..|s| - 1], base);
      ValAppend(z + s[..|s| - 1], s[|s| - 1], base);
      assert z + s == z + s[..|s| - 1] + [s[|s| - 1]];
    }
  }

  ghost function Pow(base: nat, n: nat): nat {
    if n == 0 then 1 else base * Pow(base, n - 1)
  }

  lemma {:induction false} ValBound(s: string, base: nat)
    requires Numeric(s, base)
    ensures Val(s, base) < Pow(base, |s|)
  {
    if s != [] {
      ValBound(s[..|s| - 1], base);
      var v, d, p := Val(s[..|s| - 1], base), CharValue(s[|s| - 1]), Pow(base, |s| - 1);
      assert CharValue(s[|s| - 1]) < base;
      BoundStep(v, d, base, p);
    }
  }

  lemma BoundStep(v: nat, d: nat, base: nat, p: nat)
    requires v < p && d < base
    ensures v * base + d < base * p
  {
    assert (v + 1) * base <= p * base;
  }

  lemma {:induction false} NumeralLength(n: nat, base: nat, upper: bool, len: nat)
    requires (base == 10 || base == 16) && len >= 1
    requires n < Pow(base, len)
    ensures |Numeral(n, base, upper)| <= len
  {
    if n >= base {
      assert Pow(base, 1) == base * Pow(base, 0) == base;
      QuotientBound(n, base, Pow(base, len - 1));
      NumeralLength(n / base, base, upper, len - 1);
    }
  }

  lemma QuotientBound(n: nat, base: nat, p: nat)
    requires base == 10 || base == 16
    requires n < base * p
    ensures n / base < p
  {
  }

  /** Two numerals of the same length and value have the same digits. */
  lemma {:induction false} ValInjective(s: string, t: string, base: nat)
    requires |s| == |t| && Numeric(s, base) && Numeric(t, base) && Val(s, base) == Val(t, base)
    ensures forall k :: 0 <= k < |s| ==> CharValue(s[k]) == CharValue(t[k])
  {
    if s != [] {
      var u, v := Val(s[..|s| - 1], base), Val(t[..|t| - 1], base);
      LastDigit(u, CharValue(s[|s| - 1]), v, CharValue(t[|t| - 1]), base);
      ValInjective(s[..|s| - 1], t[..|t| - 1], base);
      forall k | 0 <= k < |s| ensures CharValue(s[k]) == CharValue(t[k]) {
        assert k < |s| - 1 ==> s[..|s| - 1][k] == s[k] && t[..|t| - 1][k] == t[k];
      }
    }
  }

  lemma LastDigit(u: nat, c: nat, v: nat, d: nat, base: nat)
    requires c < base && d < base && u * base + c == v * base + d
    ensures u == v && c == d
  {
    Multiples(u, v, base);
    Multiples(v, u, base);
  }

  lemma Multiples(u: nat, v: nat, base: nat)
    ensures u < v ==> u * base + base <= v * base
  {
    if u < v {
      assert (u + 1) * base <= v * base;
    }
  }

  // ---- runs of digits in a text ----

  predicate IsDigitOf(c: char, base: int) {
    CharValue(c) < 36 && CharValue(c) < base
  }

  /** End of the maximal run of digits from `i` on. */
  ghost function RunEnd(s: string, i: nat, base: int): (j: nat)
    requires i <= |s|
    ensures i <= j <= |s|
    ensures forall k :: i <= k < j ==> IsDigitOf(s[k], base)
    ensures j < |s| ==> !IsDigitOf(s[j], base)
    decreases |s| - i
  {
    if i < |s| && IsDigitOf(s[i], base) then RunEnd(s, i + 1, base) else i
  }

  /** One more digit of the run, or the end of it. */
  lemma DigitStep(s: string, first: nat, i: nat, base: int)
    requires first <= i <= |s|
    ensures if IsDigitOf(At(s, i), base) then
              && i < |s| && RunEnd(s, i, base) == RunEnd(s, i + 1, base)
              && (base > 0 ==> Val(s[first..i + 1], base) == Val(s[first..i], base) * base + CharValue(s[i]))
            else RunEnd(s, i, base) == i
  {
    hide CharValue, Val;
    assert CharValue('\0') >= 36 by { EndIsNoDigit(); }
    if i < |s| && base > 0 {
      assert s[first..i + 1] == s[first..i] + [s[i]];
      ValAppend(s[first..i], s[i], base);
    }
  }

  lemma EndIsNoDigit()
    ensures CharValue('\0') >= 36
  {
  }

  lemma NoDigits(s: string, i: nat, base: nat)
    requires i <= |s|
    ensures Val(s[i..i], base) == 0
  {
  }

  lemma {:induction false} RunEndIs(s: string, i: nat, j: nat, base: int)
    requires i <= j <= |s| && (forall k :: i <= k < j ==> IsDigitOf(s[k], base)) && (j < |s| ==> !IsDigitOf(s[j], base))
    ensures RunEnd(s, i, base) == j
    decreases j - i
  {
    if i < j {
      RunEndIs(s, i + 1, j, base);
    }
  }
}
