/** strtoul of lib-clib/src/strtoul.c with 32-bit unsigned long: exact values, saturation, and reading back what
    the formatter prints. */
module Strtoul {
  import opened Integers
  import opened CStrings
  import opened Digits
  import opened Format

  const ULONG_MAX := 0xFFFF_FFFF

  predicate IsSpace(c: char) {
    c == '\t' || c == '\n' || c == 11 as char || c == 12 as char || c == '\r' || c == ' '
  }

  // ---- what the text means ----

  ghost function SkipSpaces(s: string, i: nat): (j: nat)
    requires i <= |s|
    ensures i <= j <= |s|
    decreases |s| - i
  {
    if i < |s| && IsSpace(s[i]) then SkipSpaces(s, i + 1) else i
  }

  ghost function AfterSign(s: string): (i: nat)
    ensures i <= |s|
  {
    var i := SkipSpaces(s, 0);
    if At(s, i) == '-' || At(s, i) == '+' then i + 1 else i
  }

  ghost predicate Negative(s: string) {
    At(s, SkipSpaces(s, 0)) == '-'
  }

  predicate IsHexDigit(c: char) {
    '0' <= c <= '9' || 'A' <= c <= 'F' || 'a' <= c <= 'f'
  }

  /** A `0x` prefix counts only with a hexadecimal digit behind it. */
  ghost predicate HexPrefix(s: string, base: int) {
    var i := AfterSign(s);
    (base == 0 || base == 16) && At(s, i) == '0' && (At(s, i + 1) == 'x' || At(s, i + 1) == 'X') && IsHexDigit(At(s, i + 2))
  }

  /** The base the digits are read in. */
  ghost function Radix(s: string, base: int): int {
    if HexPrefix(s, base) then 16
    else if base == 0 then if At(s, AfterSign(s)) == '0' then 8 else 10
    else base
  }

  ghost function First(s: string, base: int): (i: nat)
    ensures i <= |s|
  {
    if HexPrefix(s, base) then AfterSign(s) + 2 else AfterSign(s)
  }

  ghost function Last(s: string, base: int): (j: nat)
    ensures First(s, base) <= j <= |s|
  {
    RunEnd(s, First(s, base), Radix(s, base))
  }

  /** The true value of the digits, however many there are. */
  ghost function TrueValue(s: string, base: int): nat {
    if Radix(s, base) <= 0 then 0 else Val(s[First(s, base)..Last(s, base)], Radix(s, base))
  }

  /** The value, cut off at ULONG_MAX; a minus sign negates modulo 2^32 unless it was cut off. */
  ghost function Result(s: string, base: int): (r: nat)
    ensures r <= ULONG_MAX
  {
    var v := TrueValue(s, base);
    if v > ULONG_MAX then ULONG_MAX else if Negative(s) then (WORD_LIMIT - v) % WORD_LIMIT else v
  }

  // ---- the scanner ----

  /** The overflow test is exact. */
  lemma CutoffExact(acc: nat, base: nat, c: nat)
    requires base > 0 && c < base
    ensures acc > ULONG_MAX / base || (acc == ULONG_MAX / base && c > ULONG_MAX % base) <==> acc * base + c > ULONG_MAX
  {
    var q, r := ULONG_MAX / base, ULONG_MAX % base;
    assert ULONG_MAX == q * base + r && r < base by { DivisionIs(ULONG_MAX, base); }
    Multiples(acc, q, base);
    Multiples(q, acc, base);
  }

  lemma DivisionIs(a: nat, b: nat)
    requires b > 0
    ensures a == (a / b) * b + a % b && a % b < b
  {
  }

  lemma Grows(v: nat, base: nat, c: nat)
    requires base > 0 && v > ULONG_MAX
    ensures v * base + c > ULONG_MAX
  {
    assert v * base >= v;
  }

  /** The loop over leading white space. */
  method SkipBlanks(s: string) returns (p: nat, c: char)
    requires IsText(s)
    ensures p == SkipSpaces(s, 0) <= |s| && c == At(s, p)
  {
    p, c := 0, At(s, 0);
    while IsSpace(c)
      invariant p <= |s| && c == At(s, p) && SkipSpaces(s, 0) == SkipSpaces(s, p)
      decreases |s| - p
    {
      p := p + 1;
      c := At(s, p);
    }
  }

  method Scan(s: string, base0: int) returns (value: nat, end: nat)
    requires IsText(s) && -0x8000_0000 <= base0 < 0x8000_0000
    ensures value == Result(s, base0)
    ensures end == if Last(s, base0) > First(s, base0) then Last(s, base0) else 0
  {
    hide SkipSpaces, RunEnd, Val, IsText, IsHexDigit;
    var p, c := SkipBlanks(s);
    var base, neg := base0, false;
    if c == '-' {
      neg := true;
      p := p + 1;
      c := At(s, p);
    } else if c == '+' {
      p := p + 1;
      c := At(s, p);
    }
    assert p == AfterSign(s) && neg == Negative(s);
    hide AfterSign, Negative;
    if (base == 0 || base == 16) && c == '0' && (At(s, p + 1) == 'x' || At(s, p + 1) == 'X') && IsHexDigit(At(s, p + 2)) {
      p := p + 2;
      c := At(s, p);
      base := 16;
    }
    if base == 0 {
      base := if c == '0' then 8 else 10;
    }
    assert p == First(s, base0) && base == Radix(s, base0);
    hide First, Radix;
    var acc, any;
    acc, any, end := Accumulate(s, p, base);
    if any < 0 {
      acc := ULONG_MAX;
    } else if neg {
      acc := (WORD_LIMIT - acc) % WORD_LIMIT;
    }
    value := acc;
    if any == 0 {
      end := 0;
    }
  }

  /** The digit loop: `any` is 0 before the first digit, -1 once the value has left the range, and 1 otherwise. */
  method Accumulate(s: string, first: nat, base: int) returns (acc: nat, any: int, end: nat)
    requires first <= |s| && base != 0 && -0x8000_0000 <= base < 0x8000_0000
    ensures end == RunEnd(s, first, base) && (any == 0 <==> end == first)
    ensures base > 0 ==> (any < 0 <==> Val(s[first..end], base) > ULONG_MAX) && (any >= 0 ==> acc == Val(s[first..end], base))
    ensures base < 0 ==> acc == 0 && any == 0
  {
    hide CharValue, Val, RunEnd, At;
    acc, any, end := 0, 0, first;
    var divisor := if base < 0 then base % WORD_LIMIT else base;
    var cutoff, cutlim := ULONG_MAX / divisor, ULONG_MAX % divisor;
    ghost var v := 0;
    if base > 0 {
      NoDigits(s, first, base);
    }
    while true
      invariant first <= end <= |s| && RunEnd(s, end, base) == RunEnd(s, first, base)
      invariant any == 0 <==> end == first
      invariant base > 0 ==> v == Val(s[first..end], base)
      invariant base > 0 ==> (any < 0 <==> v > ULONG_MAX) && (any >= 0 ==> acc == v)
      invariant base < 0 ==> end == first && acc == 0
      decreases |s| - end
    {
      DigitStep(s, first, end, base);
      var c := At(s, end);
      var d := CharValue(c);
      if d >= 36 {
        break;
      }
      if d >= base {
        break;
      }
      assert c == s[end] by { CharIs(s, end); }
      Taken(acc, any, v, base, d);
      if any < 0 || acc > cutoff || (acc == cutoff && d > cutlim) {
        any := -1;
      } else {
        any := 1;
        acc := acc * base;
        acc := acc + d;
      }
      v := v * base + d;
      end := end + 1;
    }
  }

  lemma CharIs(s: string, i: nat)
    requires i < |s|
    ensures At(s, i) == s[i]
  {
  }

  /** What the overflow test says about the next value. */
  lemma Taken(acc: nat, any: int, v: nat, base: nat, d: nat)
    requires base > 0 && d < base && (any < 0 <==> v > ULONG_MAX) && (any >= 0 ==> acc == v)
    ensures any < 0 || acc > ULONG_MAX / base || (acc == ULONG_MAX / base && d > ULONG_MAX % base) <==> v * base + d > ULONG_MAX
  {
    CutoffExact(acc, base, d);
    if v > ULONG_MAX {
      Grows(v, base, d);
    }
  }

  // ---- what the result is, text by text ----

  lemma SpaceCodes(c: char)
    ensures IsSpace(c) <==> c == ' ' || 9 <= c as int <= 13
  {
  }

  lemma {:induction false} SpacesSkipped(s: string, i: nat, a: nat)
    requires i <= a <= |s| && (forall k :: i <= k < a ==> IsSpace(s[k])) && (a < |s| ==> !IsSpace(s[a]))
    ensures SkipSpaces(s, i) == a
    decreases a - i
  {
    if i < a {
      SpacesSkipped(s, i + 1, a);
    }
  }

  /** White space up to `a`, then a sign or none, up to `first`. */
  ghost predicate Headed(s: string, a: nat, sign: string, first: nat) {
    && first == a + |sign| <= |s| && (forall k :: 0 <= k < a ==> IsSpace(s[k])) && s[a..first] == sign
    && (sign == "-" || sign == "+" || (sign == "" && At(s, a) != '-' && At(s, a) != '+' && !IsSpace(At(s, a))))
  }

  lemma HeadRead(s: string, a: nat, sign: string, first: nat)
    requires Headed(s, a, sign, first)
    ensures SkipSpaces(s, 0) == a && AfterSign(s) == first && (Negative(s) <==> sign == "-")
  {
    if sign != "" {
      assert s[a] == s[a..first][0];
    }
    SpacesSkipped(s, 0, a);
  }

  /** "0x" or "0X" at `i`, and a hexadecimal digit behind it. */
  predicate Prefixed0x(s: string, i: nat) {
    At(s, i) == '0' && (At(s, i + 1) == 'x' || At(s, i + 1) == 'X') && CharValue(At(s, i + 2)) < 16
  }

  lemma PrefixRead(s: string, base: int, i: nat)
    requires AfterSign(s) == i
    ensures HexPrefix(s, base) <==> (base == 0 || base == 16) && Prefixed0x(s, i)
  {
  }

  /** From `first` to `last` there are digits of the base, and no more of them. */
  ghost predicate DigitRun(s: string, base: nat, first: nat, last: nat) {
    first <= last <= |s| && (forall k :: first <= k < last ==> CharValue(s[k]) < base) && CharValue(At(s, last)) >= base
  }

  lemma RunRead(s: string, base: nat, first: nat, last: nat)
    requires base <= 36 && DigitRun(s, base, first, last)
    ensures RunEnd(s, first, base) == last
  {
    hide CharValue;
    RunEndIs(s, first, last, base);
  }

  /** What the value of a digit run and the sign come to: the largest word beyond 32 bits; otherwise the value, or its
      negative modulo 2^32. */
  ghost predicate Comes(r: nat, v: nat, sign: string) {
    && r < 0x1_0000_0000
    && (v >= 0x1_0000_0000 ==> r == 0xFFFF_FFFF)
    && (v < 0x1_0000_0000 && sign != "-" ==> r == v)
    && (v < 0x1_0000_0000 && sign == "-" ==> (r + v) % 0x1_0000_0000 == 0)
  }

  lemma ResultComes(s: string, base: int, radix: nat, first: nat, last: nat, sign: string)
    requires radix > 0 && Radix(s, base) == radix && First(s, base) == first && Last(s, base) == last
    requires Negative(s) <==> sign == "-"
    ensures Comes(Result(s, base), Val(s[first..last], radix), sign)
  {
    hide Radix, First, Last, Negative, Val;
  }

  /** A given base: white space, a sign, and the digits. Base 16 may have a prefix, see below. */
  lemma ReadsInBase(s: string, base: nat, a: nat, sign: string, first: nat, last: nat)
    requires 2 <= base <= 36 && Headed(s, a, sign, first) && DigitRun(s, base, first, last)
    requires !(base == 16 && Prefixed0x(s, first))
    ensures Comes(Result(s, base), Val(s[first..last], base), sign)
    ensures First(s, base) == first && Last(s, base) == last && (Negative(s) <==> sign == "-")
  {
    hide SkipSpaces, CharValue, Val, Result;
    HeadRead(s, a, sign, first);
    PrefixRead(s, base, first);
    RunRead(s, base, first, last);
    hide AfterSign, HexPrefix;
    ResultComes(s, base, base, first, last, sign);
  }

  /** Base 16, or base 0, with a prefix: the digits behind it are hexadecimal. */
  lemma ReadsHexadecimal(s: string, base: nat, a: nat, sign: string, first: nat, last: nat)
    requires (base == 0 || base == 16) && Headed(s, a, sign, first) && Prefixed0x(s, first) && DigitRun(s, 16, first + 2, last)
    ensures Comes(Result(s, base), Val(s[first + 2..last], 16), sign)
    ensures First(s, base) == first + 2 && Last(s, base) == last
  {
    hide SkipSpaces, CharValue, Val, Result;
    HeadRead(s, a, sign, first);
    PrefixRead(s, base, first);
    RunRead(s, 16, first + 2, last);
    hide AfterSign, HexPrefix;
    ResultComes(s, base, 16, first + 2, last, sign);
  }

  /** Base 0 without a prefix: a leading 0 makes the digits octal, anything else decimal. */
  lemma ReadsOctalOrDecimal(s: string, a: nat, sign: string, first: nat, last: nat)
    requires Headed(s, a, sign, first) && !Prefixed0x(s, first)
    requires DigitRun(s, if At(s, first) == '0' then 8 else 10, first, last)
    ensures Comes(Result(s, 0), Val(s[first..last], if At(s, first) == '0' then 8 else 10), sign)
    ensures First(s, 0) == first && Last(s, 0) == last
  {
    hide SkipSpaces, CharValue, Val, Result;
    var radix := if At(s, first) == '0' then 8 else 10;
    HeadRead(s, a, sign, first);
    PrefixRead(s, 0, first);
    RunRead(s, radix, first, last);
    hide AfterSign, HexPrefix;
    ResultComes(s, 0, radix, first, last, sign);
  }

  // ---- reading back what the formatter prints ----

  /** `a` blanks, a sign, digits up to `last`, and then the end or a blank. */
  ghost predicate Padded(s: string, base: int, a: nat, negative: bool, last: nat) {
    var first := a + if negative then 1 else 0;
    && first < last <= |s| && (forall k :: 0 <= k < a ==> s[k] == ' ') && (negative ==> s[a] == '-')
    && (forall k :: first <= k < last ==> IsDigitOf(s[k], base)) && (last < |s| ==> s[last] == ' ')
  }

  /** What is read there. */
  lemma ReadsDigits(s: string, base: int, a: nat, negative: bool, last: nat)
    requires (base == 10 || base == 16) && Padded(s, base, a, negative, last)
    requires Val(s[a + (if negative then 1 else 0)..last], base) <= ULONG_MAX
    ensures var v := Val(s[a + (if negative then 1 else 0)..last], base);
            && Result(s, base) == (if negative then (WORD_LIMIT - v) % WORD_LIMIT else v)
            && Last(s, base) == last > First(s, base) && (Negative(s) <==> negative)
  {
    hide Val, Result, First, Last;
    var sign := if negative then "-" else "";
    PaddedIsHeaded(s, base, a, negative, last);
    ReadsInBase(s, base, a, sign, a + |sign|, last);
  }

  lemma PaddedIsHeaded(s: string, base: int, a: nat, negative: bool, last: nat)
    requires (base == 10 || base == 16) && Padded(s, base, a, negative, last)
    ensures var sign := if negative then "-" else "";
            Headed(s, a, sign, a + |sign|) && DigitRun(s, base, a + |sign|, last) && !Prefixed0x(s, a + |sign|)
  {
    var first := a + if negative then 1 else 0;
    assert IsDigitOf(s[first], base);
    assert CharValue(At(s, last)) >= 36;
    assert last > first + 1 ==> IsDigitOf(s[first + 1], base);
  }

  /** Blanks, a sign, digits, blanks: the value of the digits comes back. */
  lemma ReadsNumber(base: int, a: nat, negative: bool, digits: string, b: nat)
    requires base == 10 || base == 16
    requires |digits| > 0 && Numeric(digits, base) && Val(digits, base) <= ULONG_MAX
    ensures var s := Repeat(' ', a) + ((if negative then "-" else "") + digits) + Repeat(' ', b);
            && Result(s, base) == (if negative then (WORD_LIMIT - Val(digits, base)) % WORD_LIMIT else Val(digits, base))
            && Last(s, base) == |s| - b > First(s, base) && (Negative(s) <==> negative)
  {
    hide Repeat, Val, CharValue, First, Last, Result, IsDigitOf, Numeric;
    var sign := if negative then "-" else "";
    var s := Repeat(' ', a) + (sign + digits) + Repeat(' ', b);
    var first, last := a + |sign|, a + |sign| + |digits|;
    Parts(Repeat(' ', a), sign, digits, Repeat(' ', b));
    forall k | first <= k < last ensures IsDigitOf(s[k], base) {
      DigitIs(digits, base, k - first);
    }
    ReadsDigits(s, base, a, negative, last);
  }

  lemma DigitIs(digits: string, base: int, k: nat)
    requires (base == 10 || base == 16) && Numeric(digits, base) && k < |digits|
    ensures IsDigitOf(digits[k], base)
  {
  }

  /** Where the pieces of a padded number are. */
  lemma Parts(p: string, sign: string, digits: string, q: string)
    ensures var s, first, last := p + (sign + digits) + q, |p| + |sign|, |p| + |sign| + |digits|;
            && |s| == last + |q| && s[first..last] == digits
            && (forall k :: 0 <= k < |p| ==> s[k] == p[k])
            && (forall k :: |p| <= k < first ==> s[k] == sign[k - |p|])
            && (forall k :: first <= k < last ==> s[k] == digits[k - first])
            && (forall k :: last <= k < |s| ==> s[k] == q[k - last])
  {
  }

  /** The blanks that padding puts around a text. */
  lemma PaddingIsBlanks(f: Spec, body: string)
    ensures exists a: nat, b: nat :: Pad(f, body) == Repeat(' ', a) + body + Repeat(' ', b)
  {
    hide Repeat;
    var t := PadLeft(f, body);
    var a := if f.left then 0 else Max(Min(f.width, ROOM) - |body|, 0);
    var b := Max(f.width - |t|, 0);
    RepeatNone(' ', Min(0, Min(f.width, ROOM) - |body|));
    RepeatNone(' ', Min(0, f.width - |t|));
    RepeatNone(' ', 0);
    assert t == Repeat(' ', a) + body;
    assert Pad(f, body) == Repeat(' ', a) + body + Repeat(' ', b);
  }

  /** A padded numeral, its zeros in front included, reads back. */
  lemma ReadsBack(f: Spec, base: int, upper: bool, negative: bool, n: nat)
    requires (base == 10 || base == 16) && n <= ULONG_MAX
    ensures var s := Pad(f, (if negative then "-" else "") + Zeroed(f, Numeral(n, base, upper)));
            && Result(s, base) == (if negative then (WORD_LIMIT - n) % WORD_LIMIT else n)
            && Last(s, base) > First(s, base) && (Negative(s) <==> negative)
  {
    hide Repeat, Numeral, Result, Last, First, Pad;
    var digits := Numeral(n, base, upper);
    NumeralValue(n, base, upper);
    var zeros := Repeat('0', ZeroFill(f, |digits|));
    ValZeros(ZeroFill(f, |digits|), digits, base);
    assert Numeric(zeros + digits, base);
    var body := (if negative then "-" else "") + (zeros + digits);
    PaddingIsBlanks(f, body);
    var a: nat, b: nat :| Pad(f, body) == Repeat(' ', a) + body + Repeat(' ', b);
    ReadsNumber(base, a, negative, zeros + digits, b);
  }

  /** Whatever the width, precision and padding, strtoul in base 10 gives back the number that was printed; for
      a negative one, the word that %d was given. */
  lemma ReadsBackInt(f: Spec, negative: bool, n: nat)
    requires n <= ULONG_MAX
    ensures Result(FormatInt(f, negative, n), 10) == if negative then (WORD_LIMIT - n) % WORD_LIMIT else n
    ensures Last(FormatInt(f, negative, n), 10) > First(FormatInt(f, negative, n), 10)
    ensures Negative(FormatInt(f, negative, n)) <==> negative
  {
    hide Repeat, Numeral, Result, Last, First, Pad, Zeroed;
    ReadsBack(f, 10, false, negative, n);
  }

  /** So a word printed with %d or %i, whatever its sign, reads back as that word. */
  lemma ReadsBackWord(f: Spec, w: nat)
    requires w < WORD_LIMIT
    ensures Result(FormatInt(f, SignedWord(w).0, SignedWord(w).1), 10) == w
  {
    hide Result, FormatInt, First, Last, Negative;
    ReadsBackInt(f, SignedWord(w).0, SignedWord(w).1);
  }

  /** And strtoul in base 16 gives back what %x or %X printed, again whatever the padding. */
  lemma ReadsBackHex(f: Spec, n: nat)
    requires n <= ULONG_MAX
    ensures Result(FormatHex(f, n), 16) == n
    ensures Last(FormatHex(f, n), 16) > First(FormatHex(f, n), 16)
  {
    hide Repeat, Numeral, Result, Last, First, Pad, Zeroed;
    ReadsBack(f, 16, f.upper, false, n);
    assert "" + Zeroed(f, Numeral(n, 16, f.upper)) == Zeroed(f, Numeral(n, 16, f.upper));
  }

  /** The pointer form is "0x" and eight digits, which reads back in base 16 and in base 0. */
  lemma ReadsBackPointer(n: nat)
    requires n <= ULONG_MAX
    ensures var s := FormatPointer(n); |s| == 10 && s[..2] == "0x" && Result(s, 16) == Result(s, 0) == n
  {
    hide Result, FormatHex;
    var s, h := FormatPointer(n), FormatHex(Spec(false, false, true, false, 0, 8), n);
    PointerDigits(n);
    assert s[0] == '0' && s[1] == 'x' && s[2] == h[0] && s[2..10] == h;
    forall k | 2 <= k < 10 ensures CharValue(s[k]) < 16 {
      assert s[k] == h[k - 2];
    }
    assert s[0..0] == "";
    ReadsHexadecimal(s, 16, 0, "", 0, 10);
    ReadsHexadecimal(s, 0, 0, "", 0, 10);
  }

  lemma PointerDigits(n: nat)
    requires n <= ULONG_MAX
    ensures var h := FormatHex(Spec(false, false, true, false, 0, 8), n);
            |h| == 8 && Numeric(h, 16) && Val(h, 16) == n
  {
    hide Numeral, Repeat;
    var f := Spec(false, false, true, false, 0, 8);
    var d := Numeral(n, 16, false);
    WordDigits(n);
    NumeralValue(n, 16, false);
    ValZeros(8 - |d|, d, 16);
    RepeatNone(' ', 0);
    var h := Repeat('0', 8 - |d|) + d;
    assert Zeroed(f, d) == h && PadLeft(f, h) == [] + h && Pad(f, h) == h + [] == h;
  }

  lemma WordDigits(n: nat)
    requires n <= ULONG_MAX
    ensures |Numeral(n, 16, false)| <= 8
  {
    assert Pow(16, 2) == 256 && Pow(16, 4) == 65536 && Pow(16, 6) == 16777216 && Pow(16, 8) == 0x1_0000_0000 by {
      assert Pow(16, 1) == 16 && Pow(16, 3) == 4096 && Pow(16, 5) == 1048576 && Pow(16, 7) == 268435456;
    }
    NumeralLength(n, 16, false, 8);
  }

  /** So every conversion of a word can be read back, and says its sign: %d and %i print it as a signed number, %u as an
      unsigned one, %x, %X and %p in base 16; %c prints the character with its low byte. */
  lemma ConversionsReadBack(f: Spec, w: nat)
    requires w < 0x1_0000_0000
    ensures Known('d') && Known('i') && Known('u') && Known('x') && Known('X') && Known('p') && Known('c') && Known('s')
    ensures var d := Convert(f, 'd', Number(w));
            Convert(f, 'i', Number(w)) == d && d.Some? && Result(d.value, 10) == w && (Negative(d.value) <==> w >= 0x8000_0000)
    ensures var u := Convert(f, 'u', Number(w)); u.Some? && Result(u.value, 10) == w && !Negative(u.value)
    ensures var x := Convert(f, 'x', Number(w)); x.Some? && Result(x.value, 16) == w
    ensures var x := Convert(f, 'X', Number(w)); x.Some? && Result(x.value, 16) == w
    ensures var p := Convert(f, 'p', Number(w)); p.Some? && p.value[..2] == "0x" && Result(p.value, 16) == Result(p.value, 0) == w
    ensures var c := Convert(f, 'c', Number(w)); c.Some? && |c.value| == 1 && c.value[0] as int == w % 256
  {
    hide Result, Negative, Last, First, Format.FormatInt, FormatHex, FormatPointer;
    ReadsBackInt(f, SignedWord(w).0, SignedWord(w).1);
    ReadsBackInt(f, false, w);
    ReadsBackHex(f.(upper := false), w);
    ReadsBackHex(f.(upper := true), w);
    ReadsBackPointer(w);
  }

  /** %X prints capitals only, and %x none. */
  lemma HexCase(f: Spec, w: nat, k: nat)
    requires w < 0x1_0000_0000
    ensures var x := Convert(f, 'X', Number(w)); x.Some? && (k < |x.value| ==> !('a' <= x.value[k] <= 'z'))
    ensures var x := Convert(f, 'x', Number(w)); x.Some? && (k < |x.value| ==> !('A' <= x.value[k] <= 'Z'))
  {
    hide FormatHex;
    if k < |FormatHex(f.(upper := true), w)| {
      CaseOf(f.(upper := true), w, k);
    }
    if k < |FormatHex(f.(upper := false), w)| {
      CaseOf(f.(upper := false), w, k);
    }
  }

  lemma CaseOf(f: Spec, w: nat, k: nat)
    requires k < |FormatHex(f, w)|
    ensures var c := FormatHex(f, w)[k]; if f.upper then !('a' <= c <= 'z') else !('A' <= c <= 'Z')
  {
    hide Numeral, InField, InCase, ZerosWanted, FormatHex, Repeat;
    var t, d := FormatHex(f, w), Numeral(w, 16, f.upper);
    NumeralCase(w, 16, f.upper);
    HexFillsField(f, w);
    var z: nat :| ZerosWanted(f, |d|, z) && InField(f, t, Repeat('0', z) + d);
    var x := FieldChar(f, t, Repeat('0', z) + d, k);
    if x < z + |d| {
      OneCase(f.upper, d, z, x);
    }
  }

  /** A character of a field is a blank or one of the body. */
  lemma FieldChar(f: Spec, t: string, body: string, k: nat) returns (x: nat)
    requires InField(f, t, body) && k < |t|
    ensures if x < |body| then t[k] == body[x] else t[k] == ' '
  {
    var end := if f.left then |body| else Max(|body|, Min(f.width, 63));
    x := |body|;
    if end - |body| <= k < end {
      x := k - (end - |body|);
      assert t[k] == t[end - |body|..end][x];
    }
  }

  lemma OneCase(upper: bool, d: string, z: nat, x: nat)
    requires InCase(d, 16, upper) && x < z + |d|
    ensures var c := (Repeat('0', z) + d)[x]; if upper then !('a' <= c <= 'z') else !('A' <= c <= 'Z')
  {
    hide CharValue;
    var body := Repeat('0', z) + d;
    if x >= z {
      assert body[x] == d[x - z] && CharInCase(d[x - z], 16, upper);
      DigitsOfCase(CharValue(d[x - z]));
    }
  }

  lemma DigitsOfCase(v: nat)
    requires v < 16
    ensures !('a' <= UPPER_DIGITS[v] <= 'z') && !('A' <= LOWER_DIGITS[v] <= 'Z')
  {
  }
}
