/** The bounded character sink and the format interpreter of lib-clib/src/printf.c. */
module Printf {
  import opened Integers
  import opened Wrappers
  import opened CStrings
  import opened Digits
  import opened Format

  const INT_MAX := 0x7FFF_FFFF

  lemma WordIsShort(n: nat, base: nat, upper: bool)
    requires n < WORD_LIMIT && (base == 10 || base == 16)
    ensures |Numeral(n, base, upper)| <= 10
  {
    var p5 := Pow(base, 5);
    assert Pow(base, 1) == base && Pow(base, 2) == base * base && Pow(base, 3) == base * (base * base);
    assert Pow(base, 4) == base * Pow(base, 3) && p5 == base * Pow(base, 4) && p5 >= 100000;
    assert Pow(base, 6) == base * p5 && Pow(base, 7) == base * Pow(base, 6) && Pow(base, 8) == base * Pow(base, 7);
    assert Pow(base, 9) == base * Pow(base, 8) && Pow(base, 10) == base * Pow(base, 9) && Pow(base, 10) > WORD_LIMIT;
    NumeralLength(n, base, upper, 10);
  }

  /** The digits still to be written: none for 0. */
  ghost function DigitsLeft(n: nat, base: nat, upper: bool): string
    requires base == 10 || base == 16
  {
    if n == 0 then [] else Numeral(n, base, upper)
  }

  lemma DigitsOfZero(n: nat, base: nat, upper: bool)
    requires base == 10 || base == 16
    ensures DigitsLeft(0, base, upper) == [] && Numeral(0, base, upper) == "0"
    ensures n > 0 ==> DigitsLeft(n, base, upper) == Numeral(n, base, upper)
  {
  }

  /** Peeling the last digit off a numeral. */
  lemma LastDigitOff(n: nat, base: nat, upper: bool)
    requires n > 0 && (base == 10 || base == 16)
    ensures n / base < n && n % base < 16
    ensures DigitsLeft(n, base, upper) == DigitsLeft(n / base, base, upper) + [DigitChar(n % base, upper)]
  {
    if n < base {
      assert n / base == 0 && n % base == n;
    }
  }

  // ---- filling the 64-byte buffer backwards; `p` is the next free place ----

  /** `*p-- = c`. */
  method PutBack(buffer: array<char>, p: int, c: char)
    requires 0 <= p < buffer.Length
    modifies buffer
    ensures buffer[p..] == [c] + old(buffer[p + 1..])
  {
    buffer[p] := c;
  }

  /** Writes the last digit and takes it off the number. */
  method PutDigit(buffer: array<char>, p0: int, arg0: nat, base: nat, upper: bool, ghost done: string) returns (p: int, arg: nat)
    requires 0 <= p0 < buffer.Length && arg0 > 0 && (base == 10 || base == 16)
    requires done == DigitsLeft(arg0, base, upper) + buffer[p0 + 1..]
    modifies buffer
    ensures p == p0 - 1 && arg == arg0 / base < arg0
    ensures done == DigitsLeft(arg, base, upper) + buffer[p + 1..]
  {
    hide DigitsLeft, DigitChar;
    ghost var tail := buffer[p0 + 1..];
    LastDigitOff(arg0, base, upper);
    var d := DigitChar(arg0 % base, upper);
    PutBack(buffer, p0, d);
    Join(DigitsLeft(arg0 / base, base, upper), [d], tail);
    p, arg := p0 - 1, arg0 / base;
  }

  method PutDigits(buffer: array<char>, n: nat, base: nat, upper: bool) returns (p: int)
    requires buffer.Length == ROOM + 1 && n < WORD_LIMIT && (base == 10 || base == 16)
    modifies buffer
    ensures ROOM - 10 <= p < ROOM
    ensures buffer[p + 1..] == Numeral(n, base, upper)
  {
    hide Numeral, DigitsLeft;
    WordIsShort(n, base, upper);
    DigitsOfZero(n, base, upper);
    p := ROOM;
    assert buffer[ROOM + 1..] == [];
    if n == 0 {
      PutBack(buffer, p, '0');
      p := p - 1;
      return;
    }
    ghost var all := DigitsLeft(n, base, upper);
    Join(all, [], []);
    var arg := n;
    p, arg := PutDigit(buffer, p, arg, base, upper, all);
    while arg != 0 && p > 0
      invariant 0 <= p < ROOM
      invariant all == DigitsLeft(arg, base, upper) + buffer[p + 1..]
      decreases arg
    {
      p, arg := PutDigit(buffer, p, arg, base, upper, all);
    }
  }

  /** `while (o - p < goal && p > buffer) *p-- = c`. */
  method Fill(buffer: array<char>, p0: int, c: char, goal: nat) returns (p: int)
    requires buffer.Length == ROOM + 1 && -1 <= p0 < ROOM
    modifies buffer
    ensures -1 <= p <= p0 && (p0 >= 0 ==> 0 <= p)
    ensures buffer[p + 1..] == Repeat(c, Min(goal, ROOM) - (ROOM - p0)) + old(buffer[p0 + 1..])
  {
    hide Repeat;
    p := p0;
    var k := 0;
    ghost var old0 := buffer[p0 + 1..];
    RepeatNone(c, 0);
    Join(old0, [], []);
    while ROOM - p < goal && p > 0
      invariant k >= 0 && p == p0 - k && (p0 >= 0 ==> 0 <= p) && -1 <= p
      invariant k > 0 ==> ROOM - p <= goal
      invariant buffer[p + 1..] == Repeat(c, k) + old0
    {
      PutBack(buffer, p, c);
      p := p - 1;
      RepeatFront(c, k);
      Join([c], Repeat(c, k), old0);
      k := k + 1;
    }
    RepeatNone(c, Min(Min(goal, ROOM) - (ROOM - p0), 0));
  }

  lemma RepeatTwice(c: char, a: int, b: int, s: string)
    ensures Repeat(c, b) + (Repeat(c, a) + s) == Repeat(c, Max(a, 0) + Max(b, 0)) + s
  {
    RepeatSum(c, Max(b, 0), Max(a, 0));
    assert Repeat(c, b) == Repeat(c, Max(b, 0)) && Repeat(c, a) == Repeat(c, Max(a, 0));
  }

  /** Filling up to the precision and then up to the width adds the zeros the directive wants. */
  lemma TwoFills(f: Spec, digits: string)
    requires |digits| <= ROOM
    ensures var s := if f.precision then Repeat('0', Min(f.prec, ROOM) - |digits|) + digits else digits;
            Zeroed(f, digits) == if f.zero then Repeat('0', Min(f.width, ROOM) - |s|) + s else s
  {
    hide Repeat;
    var n := |digits|;
    RepeatNone('0', 0);
    if f.precision {
      var a := Min(f.prec, ROOM) - n;
      RepeatTwice('0', a, if f.zero then Min(f.width, ROOM) - (n + Max(a, 0)) else 0, digits);
      RepeatTwice('0', 0, a, digits);
      assert [] + digits == digits && Repeat('0', 0) + digits == digits;
      assert Repeat('0', 0) + (Repeat('0', a) + digits) == Repeat('0', a) + digits;
    } else {
      RepeatTwice('0', 0, Min(f.width, ROOM) - n, digits);
      assert Repeat('0', 0) + digits == digits;
    }
  }

  /** Zeros up to the precision, then up to the width. */
  method PutZeros(buffer: array<char>, p0: int, f: Spec) returns (p: int)
    requires buffer.Length == ROOM + 1 && 0 <= p0 < ROOM
    modifies buffer
    ensures 0 <= p < ROOM
    ensures buffer[p + 1..] == Zeroed(f, old(buffer[p0 + 1..]))
  {
    hide Zeroed;
    p := p0;
    TwoFills(f, buffer[p0 + 1..]);
    if f.precision {
      p := Fill(buffer, p, '0', f.prec);
    }
    if f.zero {
      p := Fill(buffer, p, '0', f.width);
    }
  }

  method PutBlanks(buffer: array<char>, p0: int, f: Spec) returns (p: int)
    requires buffer.Length == ROOM + 1 && -1 <= p0 < ROOM
    modifies buffer
    ensures -1 <= p < ROOM
    ensures buffer[p + 1..] == PadLeft(f, old(buffer[p0 + 1..]))
  {
    hide Repeat;
    p := p0;
    if !f.left {
      p := Fill(buffer, p, ' ', f.width);
    }
  }

  lemma Join(e: string, s: string, t: string)
    ensures e + s + t + [] == e + s + t == e + (s + t)
    ensures e + [] == [] + e == e
  {
  }

  lemma FourParts(e: string, s: string, t: string, u: string)
    ensures e + s + t + u == e + (s + t + u)
  {
  }

  /** Blanks before the string or behind it. */
  lemma StringParts(f: Spec, s: string)
    ensures var t := if f.precision && f.prec < |s| then s[..f.prec] else s;
            var r := Repeat(' ', f.width - |t|);
            Format.FormatString(f, s) == (if f.left then "" else r) + t + (if f.left then r else "")
  {
    hide Repeat;
    var t := if f.precision && f.prec < |s| then s[..f.prec] else s;
    Join(t, [], []);
  }

  // ---- the formatter ----

  /** Characters a sink of this capacity keeps of an output of `n`. */
  function Stored(n: nat, capacity: int): nat {
    Min(n, Max(capacity - 1, 0))
  }

  /** What a bounded print makes of the string `was`. */
  ghost function AfterPrint(was: string, r: string, capacity: int): (t: string)
    requires Stored(|r|, capacity) < |was|
    ensures |t| == |was|
  {
    var k := Stored(|r|, capacity);
    r[..k] + ['\0'] + was[k + 1..]
  }

  /** A size_t cast to int. */
  function AsInt(size: nat): int {
    if size <= INT_MAX then size else size - WORD_LIMIT
  }

  /** The bound is kept exactly when it is not 0: then nothing at or behind the size is written, while a size of 0
      still puts a NUL at the start, which shows unless one was there. */
  lemma BoundKept(was: string, r: string, size: nat)
    requires 1 <= |was| && size <= |was| && size < WORD_LIMIT
    ensures Stored(|r|, AsInt(size)) < |was|
    ensures var t := AfterPrint(was, r, AsInt(size)); t[size..] == was[size..] <==> size >= 1 || was[0] == '\0'
    ensures size == 0 ==> AfterPrint(was, r, AsInt(size)) == ['\0'] + was[1..]
  {
    var k, t := Stored(|r|, AsInt(size)), AfterPrint(was, r, AsInt(size));
    if size == 0 {
      assert t[0..] == t && was[0..] == was;
    } else {
      assert t[size..] == was[size..];
    }
  }

  /** The static output pointer and the running context. `emitted` is everything passed to `_xputch`, `limit` the
      length the output will have, and `before` the target string as it was handed in. */
  class Printer {
    var outptr: array?<char>
    var pos: nat
    var total: nat
    var capacity: int
    var console: string

    ghost var emitted: string
    ghost var limit: nat
    ghost var before: string

    ghost predicate Valid()
      reads this, outptr
    {
      && total == |emitted| <= limit
      && (outptr != null ==>
            && Stored(limit, capacity) < outptr.Length == |before|
            && pos == Stored(total, capacity)
            && outptr[..] == emitted[..pos] + before[pos..])
    }

    /** Exactly `s` was printed since the old state. */
    twostate predicate Emitted(s: string)
      reads this, outptr
    {
      && Valid()
      && emitted == old(emitted) + s
      && (outptr, capacity, limit, before) == old((outptr, capacity, limit, before))
      && console == old(console) + if outptr == null then s else []
    }

    method Putch(c: char)
      requires Valid() && |emitted| < limit
      modifies this, outptr
      ensures Emitted([c])
    {
      total := total + 1;
      emitted := emitted + [c];
      if outptr != null {
        if total < capacity {
          outptr[pos] := c;
          pos := pos + 1;
        }
        return;
      }
      console := console + [c];
    }

    /** `while (j++ < width)` a blank. */
    method Blanks(j0: nat, width: nat) returns (j: nat)
      requires Valid() && |emitted| + |Repeat(' ', width - j0)| <= limit
      modifies this, outptr
      ensures j == Max(j0, width) + 1
      ensures Emitted(Repeat(' ', width - j0))
    {
      ghost var k := 0;
      j := j0;
      while j < width
        invariant k >= 0 && j == j0 + k && (k > 0 ==> j <= width) && outptr == old(outptr)
        invariant Emitted(Repeat(' ', k))
      {
        Putch(' ');
        j := j + 1;
        k := k + 1;
      }
      j := j + 1;
    }

    /** Prints the characters of `t` one by one. */
    method Chars(t: string)
      requires Valid() && |emitted| + |t| <= limit
      modifies this, outptr
      ensures Emitted(t)
    {
      var k := 0;
      while k < |t|
        invariant k <= |t| && outptr == old(outptr)
        invariant Emitted(t[..k])
      {
        Putch(t[k]);
        assert t[..k] + [t[k]] == t[..k + 1];
        k := k + 1;
      }
      assert t[..k] == t;
    }

    /** Prints the rest of the buffer, then blanks up to the width. */
    method Flush(buffer: array<char>, p: int, width: nat)
      requires Valid() && buffer.Length == ROOM + 1 && -1 <= p <= ROOM && buffer != outptr
      requires var t := buffer[p + 1..]; |emitted| + |t| + |Repeat(' ', width - |t|)| <= limit
      modifies this, outptr
      ensures var t := old(buffer[p + 1..]); Emitted(t + Repeat(' ', width - |t|))
    {
      hide Repeat;
      Chars(buffer[p + 1..]);
      var i := Blanks(ROOM - p, width);
    }

    method FormatHex(f: Spec, arg: nat)
      requires Valid() && arg < WORD_LIMIT && |emitted| + |Format.FormatHex(f, arg)| <= limit
      modifies this, outptr
      ensures Emitted(Format.FormatHex(f, arg))
    {
      hide Zeroed, PadLeft, Numeral;
      var buffer := new char[64];
      var p := PutDigits(buffer, arg, 16, f.upper);
      p := PutZeros(buffer, p, f);
      p := PutBlanks(buffer, p, f);
      Flush(buffer, p, f.width);
    }

    method FormatInt(f: Spec, negative: bool, arg: nat)
      requires Valid() && arg < WORD_LIMIT && |emitted| + |Format.FormatInt(f, negative, arg)| <= limit
      modifies this, outptr
      ensures Emitted(Format.FormatInt(f, negative, arg))
    {
      hide Zeroed, PadLeft, Numeral;
      var buffer := new char[64];
      var p := PutDigits(buffer, arg, 10, false);
      p := PutZeros(buffer, p, f);
      if negative {
        ghost var tail := buffer[p + 1..];
        PutBack(buffer, p, '-');
        p := p - 1;
        assert buffer[p + 1..] == "-" + tail;
      } else {
        assert buffer[p + 1..] == "" + buffer[p + 1..];
      }
      p := PutBlanks(buffer, p, f);
      Flush(buffer, p, f.width);
    }

    method FormatPointer(arg: nat)
      requires Valid() && arg < WORD_LIMIT && |emitted| + |Format.FormatPointer(arg)| <= limit
      modifies this, outptr
      ensures Emitted(Format.FormatPointer(arg))
    {
      hide Format.FormatHex;
      Putch('0');
      Putch('x');
      label prefix:
      FormatHex(Spec(false, false, true, false, 0, 8), arg);
      ghost var h := Format.FormatHex(Spec(false, false, true, false, 0, 8), arg);
      assert old@prefix(emitted) == old(emitted) + "0x";
      assert old(emitted) + "0x" + h == old(emitted) + ("0x" + h);
    }

    /** At most `prec` characters of a string, when there is a precision. */
    method Truncated(s: string, precision: bool, prec0: nat)
      requires Valid() && |emitted| + |if precision && prec0 < |s| then s[..prec0] else s| <= limit
      modifies this, outptr
      ensures Emitted(if precision && prec0 < |s| then s[..prec0] else s)
    {
      var prec: int, k := prec0, 0;
      while (!precision || prec != 0) && k < |s|
        invariant k <= |s| && prec == prec0 - k && (precision ==> k <= prec0) && outptr == old(outptr)
        invariant Emitted(s[..k])
      {
        Putch(s[k]);
        assert s[..k] + [s[k]] == s[..k + 1];
        prec := prec - 1;
        k := k + 1;
      }
      assert s[..k] == if precision && prec0 < |s| then s[..prec0] else s;
    }

    /** The blanks in front of a string that is not left-justified. */
    method BlanksBefore(f: Spec, n: nat) returns (j: nat)
      requires Valid() && (!f.left ==> |emitted| + |Repeat(' ', f.width - n)| <= limit)
      modifies this, outptr
      ensures j == if f.left then n else Max(n, f.width) + 1
      ensures Emitted(if f.left then "" else Repeat(' ', f.width - n))
    {
      hide Repeat;
      j := n;
      Join(emitted, [], []);
      Join(console, [], []);
      if !f.left {
        j := Blanks(j, f.width);
      }
    }

    method FormatString(f: Spec, s: string)
      requires Valid() && |emitted| + |Format.FormatString(f, s)| <= limit
      modifies this, outptr
      ensures Emitted(Format.FormatString(f, s))
    {
      hide Repeat, Valid, Format.FormatString;
      var j := |s|;
      if f.precision && f.prec < j {
        j := f.prec;
      }
      ghost var t := if f.precision && f.prec < |s| then s[..f.prec] else s;
      ghost var e, o, r := emitted, console, Repeat(' ', f.width - j);
      StringParts(f, s);
      RepeatNone(' ', f.width - Max(j, f.width) - 1);
      j := BlanksBefore(f, j);
      Truncated(s, f.precision, f.prec);
      j := Blanks(j, f.width);
      FourParts(e, if f.left then "" else r, t, if f.left then r else "");
      FourParts(o, if f.left then "" else r, t, if f.left then r else "");
    }

    // ---- the interpreter ----

    /** The switch over a known conversion character. */
    method ConvertArg(f: Spec, c: char, arg: Arg)
      requires Known(c) && Convert(f, c, arg).Some?
      requires Valid() && |emitted| + |Convert(f, c, arg).value| <= limit
      modifies this, outptr
      ensures Emitted(Convert(f, c, arg).value)
    {
      hide Format.FormatInt, Format.FormatHex, Format.FormatPointer, Format.FormatString;
      match c
      case 'c' => Putch((arg.w % 256) as char);
      case 'd' => FormatSigned(f, arg.w);
      case 'i' => FormatSigned(f, arg.w);
      case 'p' => FormatPointer(arg.w);
      case 's' => FormatString(f, arg.s);
      case 'u' => FormatInt(f, false, arg.w);
      case 'X' => FormatHex(f.(upper := true), arg.w);
      case 'x' => FormatHex(f.(upper := false), arg.w);
    }

    method FormatSigned(f: Spec, w: nat)
      requires w < WORD_LIMIT && Valid()
      requires |emitted| + |Format.FormatInt(f, SignedWord(w).0, SignedWord(w).1)| <= limit
      modifies this, outptr
      ensures Emitted(Format.FormatInt(f, SignedWord(w).0, SignedWord(w).1))
    {
      var l: int := if w < 0x8000_0000 then w else w - WORD_LIMIT;
      var negative := false;
      if l < 0 {
        negative := true;
        l := -l;
      }
      FormatInt(f, negative, l);
    }

    /** A fresh context over the current sink. */
    method Start(size: int, ghost n: nat)
      requires outptr != null ==> pos == 0 && Stored(n, size) < outptr.Length
      modifies this
      ensures Valid() && emitted == [] && limit == n && capacity == size
      ensures outptr == old(outptr) && console == old(console) && (outptr != null ==> before == outptr[..])
    {
      total, capacity := 0, size;
      emitted, limit := [], n;
      before := if outptr == null then [] else outptr[..];
    }

    lemma Finished()
      requires Valid() && |emitted| == limit
      ensures total == limit
      ensures outptr != null ==> pos == Stored(total, capacity) < outptr.Length == |before| && outptr[..] == emitted[..pos] + before[pos..]
    {
    }

    /** One turn of the loop over the format. */
    method OneTurn(fmt: string, i0: nat, args: seq<Arg>) returns (i: nat, va: seq<Arg>)
      requires IsText(fmt) && i0 < |fmt| && Turn(fmt, i0, args).Some?
      requires Valid() && |emitted| + |Turn(fmt, i0, args).value.0| <= limit
      modifies this, outptr
      ensures Emitted(Turn(fmt, i0, args).value.0) && (i, va) == (Turn(fmt, i0, args).value.1, Turn(fmt, i0, args).value.2)
    {
      hide Convert, DirectiveAt, Valid;
      if fmt[i0] != '%' {
        Putch(fmt[i0]);
        return i0 + 1, args;
      }
      var d := ReadDirective(fmt, i0 + 1, args);
      var c := At(fmt, d.at);
      if !Known(c) {
        Putch(c);
        return d.at, d.args;
      }
      ConvertArg(d.spec, c, d.args[0]);
      return d.at + 1, d.args[1..];
    }

    /** The loop over the format. */
    method Interpret(fmt: string, args: seq<Arg>)
      requires IsText(fmt) && Render(fmt, 0, args).Some?
      requires Valid() && |emitted| + |Render(fmt, 0, args).value| <= limit
      modifies this, outptr
      ensures Emitted(Render(fmt, 0, args).value)
    {
      hide Turn, Valid, IsText, Render;
      ghost var all, done := Render(fmt, 0, args).value, "";
      var i, va := 0, args;
      Join(emitted, [], []);
      Join(console, [], []);
      Join(all, [], []);
      while i < |fmt|
        invariant i <= |fmt| && outptr == old(outptr) && Emitted(done)
        invariant Render(fmt, i, va).Some? && all == done + Render(fmt, i, va).value
        decreases |fmt| - i
      {
        RenderNext(fmt, i, va);
        ghost var turn := Turn(fmt, i, va).value;
        Join(done, turn.0, Render(fmt, turn.1, turn.2).value);
        Join(old(emitted), done, turn.0);
        Join(old(console), done, turn.0);
        i, va := OneTurn(fmt, i, va);
        done := done + turn.0;
      }
      RenderEnd(fmt, va);
      Join(done, "", "");
    }

    /** Prints `fmt` with its arguments from the start of the sink, and returns the length of the whole output. */
    method Vprintf(size: int, fmt: string, args: seq<Arg>) returns (n: nat)
      requires IsText(fmt) && Render(fmt, 0, args).Some?
      requires outptr != null ==> pos == 0 && Stored(|Render(fmt, 0, args).value|, size) < outptr.Length
      modifies this, outptr
      ensures var r := Render(fmt, 0, args).value;
              && n == |r| && outptr == old(outptr)
              && console == old(console) + (if outptr == null then r else [])
              && (outptr != null ==> pos == Stored(n, size) < outptr.Length && outptr[..] == r[..pos] + old(outptr[..])[pos..])
    {
      hide Valid, IsText, Render;
      ghost var all := Render(fmt, 0, args).value;
      Join([], all, []);
      Start(size, |all|);
      Interpret(fmt, args);
      Finished();
      n := total;
    }

    // ---- entry points ----

    /** What a bounded print leaves in `str`: as much of the output as the capacity allows, a NUL, and whatever
        was there behind it. */
    ghost predicate Printed(str: array<char>, was: string, r: string, capacity: int)
      reads str
    {
      && Stored(|r|, capacity) < str.Length == |was|
      && str[..] == AfterPrint(was, r, capacity)
    }

    /** The common tail of sprintf and snprintf: output pointer set, print, NUL, output pointer cleared. */
    method PrintTo(str: array<char>, capacity: int, fmt: string, args: seq<Arg>) returns (n: nat)
      requires IsText(fmt) && Render(fmt, 0, args).Some? && Stored(|Render(fmt, 0, args).value|, capacity) < str.Length
      modifies this, str
      ensures var r := Render(fmt, 0, args).value; n == |r| && Printed(str, old(str[..]), r, capacity)
      ensures outptr == null && console == old(console)
    {
      hide Render;
      outptr, pos := str, 0;
      n := Vprintf(capacity, fmt, args);
      ghost var r, was := Render(fmt, 0, args).value, old(str[..]);
      assert str[..] == r[..pos] + was[pos..];
      str[pos] := '\0';
      assert str[..] == r[..pos] + ['\0'] + was[pos + 1..];
      outptr := null;
      Join(console, [], []);
    }

    method Sprintf(str: array<char>, fmt: string, args: seq<Arg>) returns (n: nat)
      requires IsText(fmt) && Render(fmt, 0, args).Some?
      requires |Render(fmt, 0, args).value| < Min(str.Length, INT_MAX)
      modifies this, str
      ensures var r := Render(fmt, 0, args).value; n == |r| && str[..n + 1] == r + ['\0'] && str[n + 1..] == old(str[n + 1..])
      ensures outptr == null && console == old(console)
    {
      hide Render;
      n := PrintTo(str, INT_MAX, fmt, args);
      ghost var r := Render(fmt, 0, args).value;
      assert r[..n] == r;
    }

    /** `size` is a 32-bit size_t that the code casts to int. The output is cut to size - 1 characters and a NUL, and
        the full length is returned; a size of 0 still writes a NUL. */
    method Snprintf(str: array<char>, size: nat, fmt: string, args: seq<Arg>) returns (n: nat)
      requires IsText(fmt) && Render(fmt, 0, args).Some? && size < WORD_LIMIT
      requires 1 <= str.Length && size <= str.Length
      modifies this, str
      ensures var r := Render(fmt, 0, args).value;
              && n == |r|
              && Printed(str, old(str[..]), r, AsInt(size))
              && (1 <= size <= INT_MAX && n < size ==> str[..n + 1] == r + ['\0'])
              && (1 <= size <= INT_MAX && n >= size ==> str[..size] == r[..size - 1] + ['\0'])
      ensures str[size..] == old(str[size..]) <==> size >= 1 || old(str[..])[0] == '\0'
      ensures outptr == null && console == old(console)
    {
      hide Render;
      n := PrintTo(str, AsInt(size), fmt, args);
      ghost var r, was := Render(fmt, 0, args).value, old(str[..]);
      assert r[..n] == r;
      BoundKept(was, r, size);
      assert str[..][size..] == str[size..] && was[size..] == old(str[size..]);
    }

    /** printf and vprintf: to the console, without a bound. */
    method PrintConsole(fmt: string, args: seq<Arg>) returns (n: nat)
      requires IsText(fmt) && Render(fmt, 0, args).Some? && outptr == null
      modifies this
      ensures outptr == null && console == old(console) + Render(fmt, 0, args).value && n == |Render(fmt, 0, args).value|
    {
      n := Vprintf(INT_MAX, fmt, args);
    }
  }

  method ReadNumber(fmt: string, i0: nat) returns (value: nat, i: nat)
    requires i0 <= |fmt| && IsText(fmt)
    ensures (value, i) == Number10(fmt, i0, 0)
  {
    value, i := 0, i0;
    while '0' <= At(fmt, i) <= '9'
      invariant i <= |fmt| && Number10(fmt, i0, 0) == Number10(fmt, i, value)
      decreases |fmt| - i
    {
      value := value * 10 + (fmt[i] as nat - '0' as nat);
      i := i + 1;
    }
  }

  /** Flags, width, precision and length modifier between '%' and the conversion character. */
  method ReadDirective(fmt: string, i: nat, args: seq<Arg>) returns (d: Directive)
    requires i <= |fmt| && IsText(fmt) && DirectiveAt(fmt, i, args).Some?
    ensures d == DirectiveAt(fmt, i, args).value
  {
    var at, va, zero, left, precision, prec: nat := i, args, false, false, false, 0;
    if At(fmt, at) == '0' {
      zero := true;
      at := at + 1;
    } else if At(fmt, at) == '-' {
      left := true;
      at := at + 1;
    }
    var width;
    width, at := ReadNumber(fmt, at);
    if At(fmt, at) == '.' {
      at := at + 1;
      if At(fmt, at) == '*' {
        at := at + 1;
        prec := SignedWord(va[0].w).1;
        va := va[1..];
      } else {
        prec, at := ReadNumber(fmt, at);
      }
      precision := true;
    }
    if At(fmt, at) == 'l' {
      at := at + 1;
    }
    d := Directive(Spec(precision, false, zero, left, prec, width), at, va);
  }
}
