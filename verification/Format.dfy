/** What the format interpreter of lib-clib/src/printf.c prints, as functions of the format and its arguments.
    The build without floating point is modelled: %f is then an unknown conversion. */
module Format {
  import opened Integers
  import opened Wrappers
  import opened CStrings
  import opened Digits

  /** A variadic argument on the 32-bit target: an integer or pointer word, or a C string. */
  datatype Arg = Number(w: nat) | Text(s: string)

  /** The flags, field width and precision of one directive. */
  datatype Spec = Spec(precision: bool, upper: bool, zero: bool, left: bool, prec: nat, width: nat)

  /** Digits, zeros and blanks share a 64-byte buffer whose last place only a sign may take. */
  const ROOM := 63

  // ---- single conversions ----

  /** Zeros wanted in front of `n` digits. */
  function ZeroFill(f: Spec, n: nat): nat {
    var a := if f.precision then Max(n, Min(f.prec, ROOM)) else n;
    var b := if f.zero then Max(a, Min(f.width, ROOM)) else a;
    b - n
  }

  /** Blanks on the left, up to the buffer's room, unless left-justified. */
  function PadLeft(f: Spec, s: string): string {
    if f.left then s else Repeat(' ', Min(f.width, ROOM) - |s|) + s
  }

  /** Whatever is still missing to the width follows on the right. */
  function Pad(f: Spec, s: string): string {
    var t := PadLeft(f, s);
    t + Repeat(' ', f.width - |t|)
  }

  function Zeroed(f: Spec, digits: string): string {
    Repeat('0', ZeroFill(f, |digits|)) + digits
  }

  function FormatInt(f: Spec, negative: bool, n: nat): string {
    var digits := Numeral(n, 10, false);
    Pad(f, (if negative then "-" else "") + Zeroed(f, digits))
  }

  function FormatHex(f: Spec, n: nat): string {
    var digits := Numeral(n, 16, f.upper);
    Pad(f, Zeroed(f, digits))
  }

  function FormatString(f: Spec, s: string): string {
    var t := if f.precision && f.prec < |s| then s[..f.prec] else s;
    if f.left then t + Repeat(' ', f.width - |t|) else Repeat(' ', f.width - |t|) + t
  }

  function FormatPointer(n: nat): string {
    "0x" + FormatHex(Spec(false, false, true, false, 0, 8), n)
  }

  /** Magnitude of a 32-bit word read as a signed int, and its sign. */
  function SignedWord(w: nat): (bool, nat)
    requires w < WORD_LIMIT
  {
    if w < 0x8000_0000 then (false, w) else (true, WORD_LIMIT - w)
  }

  // ---- directives ----

  /** Decimal number at `i`: its value added to `acc`, and where it ends. */
  function Number10(fmt: string, i: nat, acc: nat): (r: (nat, nat))
    requires i <= |fmt|
    ensures i <= r.1 <= |fmt|
    decreases |fmt| - i
  {
    if '0' <= At(fmt, i) <= '9' then Number10(fmt, i + 1, acc * 10 + (fmt[i] as nat - '0' as nat)) else (acc, i)
  }

  datatype Directive = Directive(spec: Spec, at: nat, args: seq<Arg>)

  function FlagAt(fmt: string, i: nat): (r: (bool, bool, nat))
    requires i <= |fmt|
    ensures i <= r.2 <= |fmt|
  {
    if At(fmt, i) == '0' then (true, false, i + 1)
    else if At(fmt, i) == '-' then (false, true, i + 1)
    else (false, false, i)
  }

  /** Precision at `i`: whether there is one, its value, where it ends and the arguments left; None where C gives
      the code no meaning (no integer for `*`, or one whose negation overflows). */
  function PrecisionAt(fmt: string, i: nat, args: seq<Arg>): (r: Option<(bool, nat, nat, seq<Arg>)>)
    requires i <= |fmt|
    ensures r.Some? ==> i <= r.value.2 <= |fmt|
  {
    if At(fmt, i) != '.' then Some((false, 0, i, args))
    else if At(fmt, i + 1) == '*' then
      if args == [] || !args[0].Number? || args[0].w >= WORD_LIMIT || args[0].w == 0x8000_0000 then None
      else Some((true, SignedWord(args[0].w).1, i + 2, args[1..]))
    else
      var (prec, j) := Number10(fmt, i + 1, 0);
      Some((true, prec, j, args))
  }

  /** Everything between '%' (before `i`) and the conversion character. */
  function DirectiveAt(fmt: string, i: nat, args: seq<Arg>): (r: Option<Directive>)
    requires i <= |fmt|
    ensures r.Some? ==> i <= r.value.at <= |fmt|
  {
    var (zero, left, j) := FlagAt(fmt, i);
    var (width, k) := Number10(fmt, j, 0);
    match PrecisionAt(fmt, k, args)
    case None => None
    case Some((precision, prec, l, rest)) =>
      var at := if At(fmt, l) == 'l' then l + 1 else l;
      Some(Directive(Spec(precision, false, zero, left, prec, width), at, rest))
  }

  predicate Known(c: char) {
    c == 'c' || c == 'd' || c == 'i' || c == 'p' || c == 's' || c == 'u' || c == 'X' || c == 'x'
  }

  /** Output of a known conversion on its argument; None when the argument has the wrong kind. */
  function Convert(f: Spec, c: char, arg: Arg): Option<string>
    requires Known(c)
  {
    if c == 's' then
      if arg.Text? then Some(FormatString(f, arg.s)) else None
    else if !arg.Number? || arg.w >= WORD_LIMIT then None
    else if c == 'c' then Some([(arg.w % 256) as char])
    else if c == 'd' || c == 'i' then Some(FormatInt(f, SignedWord(arg.w).0, SignedWord(arg.w).1))
    else if c == 'u' then Some(FormatInt(f, false, arg.w))
    else if c == 'p' then Some(FormatPointer(arg.w))
    else Some(FormatHex(f.(upper := c == 'X'), arg.w))
  }

  // ---- whole formats ----

  function Prefixed(s: string, r: Option<string>): Option<string> {
    if r.Some? then Some(s + r.value) else None
  }

  /** One turn of the interpreter at `i`: what it prints, where it goes on, and the arguments left. After an
      unknown conversion character it does not step over that character, which is then printed again as ordinary
      text, or read again as '%'. Every turn consumes at least one character of the format. */
  function Turn(fmt: string, i: nat, args: seq<Arg>): (r: Option<(string, nat, seq<Arg>)>)
    requires i < |fmt|
    ensures r.Some? ==> i < r.value.1 <= |fmt|
  {
    if fmt[i] != '%' then Some(([fmt[i]], i + 1, args))
    else
      match DirectiveAt(fmt, i + 1, args)
      case None => None
      case Some(Directive(f, at, rest)) =>
        var c := At(fmt, at);
        if !Known(c) then Some(([c], at, rest))
        else if rest == [] || Convert(f, c, rest[0]).None? then None
        else Some((Convert(f, c, rest[0]).value, at + 1, rest[1..]))
  }

  /** The unbounded output of `fmt` from position `i` on. */
  function Render(fmt: string, i: nat, args: seq<Arg>): Option<string>
    requires i <= |fmt|
    decreases |fmt| - i
  {
    if i == |fmt| then Some("")
    else
      match Turn(fmt, i, args)
      case None => None
      case Some((out, j, rest)) => Prefixed(out, Render(fmt, j, rest))
  }

  lemma RenderTurn(fmt: string, i: nat, args: seq<Arg>)
    requires i < |fmt| && Turn(fmt, i, args).Some?
    ensures var (out, j, rest) := Turn(fmt, i, args).value; Render(fmt, i, args) == Prefixed(out, Render(fmt, j, rest))
  {
  }

  lemma RenderEnd(fmt: string, args: seq<Arg>)
    ensures Render(fmt, |fmt|, args) == Some("")
  {
  }

  lemma RenderNext(fmt: string, i: nat, args: seq<Arg>)
    requires i < |fmt| && Render(fmt, i, args).Some?
    ensures Turn(fmt, i, args).Some?
    ensures var (out, j, rest) := Turn(fmt, i, args).value;
            Render(fmt, j, rest).Some? && Render(fmt, i, args).value == out + Render(fmt, j, rest).value
  {
  }

  // ---- what the conversions promise ----

  /** A body of digits in its field: at the left end when left-justified; otherwise at the right end of the field or,
      in a field wider than the buffer's room, up to the end of that room; and blanks everywhere else. */
  ghost predicate InField(f: Spec, t: string, body: string) {
    var end := if f.left then |body| else Max(|body|, Min(f.width, 63));
    && |t| == Max(f.width, |body|) && |body| <= end <= |t|
    && t[end - |body|..end] == body
    && forall x :: 0 <= x < |t| && !(end - |body| <= x < end) ==> t[x] == ' '
  }

  lemma PadIsInField(f: Spec, body: string)
    ensures InField(f, Pad(f, body), body)
  {
    var t := PadLeft(f, body);
    var end := if f.left then |body| else Max(|body|, Min(f.width, 63));
    assert |t| == end && t[end - |body|..] == body;
    assert Pad(f, body)[..end] == t;
    assert t[end - |body|..end] == body;
    assert Pad(f, body)[end - |body|..end] == Pad(f, body)[..end][end - |body|..end];
    forall x | 0 <= x < |Pad(f, body)| && !(end - |body| <= x < end) ensures Pad(f, body)[x] == ' ' {
      assert x < end ==> Pad(f, body)[x] == t[x];
    }
  }

  /** The zeros that precision and zero flag bring in front of `k` digits: as many as the larger of the two asks for, up
      to the buffer's room, and none when neither asks for more digits than there are. */
  ghost predicate ZerosWanted(f: Spec, k: nat, z: nat) {
    && (f.precision ==> z + k >= Min(f.prec, 63))
    && (f.zero ==> z + k >= Min(f.width, 63))
    && (z > 0 ==> (f.precision && z + k == Min(f.prec, 63)) || (f.zero && z + k == Min(f.width, 63)))
  }

  /** An integer in its field: a minus sign if it is negative, the zeros wanted, and its digits. */
  lemma IntFillsField(f: Spec, negative: bool, n: nat)
    ensures exists z: nat :: ZerosWanted(f, |Numeral(n, 10, false)|, z)
                             && InField(f, FormatInt(f, negative, n),
                                        (if negative then "-" else "") + (Repeat('0', z) + Numeral(n, 10, false)))
  {
    hide Numeral, Repeat, InField, Pad;
    var z := ZeroFill(f, |Numeral(n, 10, false)|);
    PadIsInField(f, (if negative then "-" else "") + Zeroed(f, Numeral(n, 10, false)));
    assert ZerosWanted(f, |Numeral(n, 10, false)|, z);
  }

  /** So does a hexadecimal number. */
  lemma HexFillsField(f: Spec, n: nat)
    ensures exists z: nat :: ZerosWanted(f, |Numeral(n, 16, f.upper)|, z)
                             && InField(f, FormatHex(f, n), Repeat('0', z) + Numeral(n, 16, f.upper))
  {
    hide Numeral, Repeat, InField, Pad;
    var z := ZeroFill(f, |Numeral(n, 16, f.upper)|);
    PadIsInField(f, Zeroed(f, Numeral(n, 16, f.upper)));
    assert ZerosWanted(f, |Numeral(n, 16, f.upper)|, z);
  }

  /** A string fills its field: at most as many of its first characters as the precision allows, at the left end when
      left-justified and at the right end otherwise, and blanks in the rest of the width. */
  lemma StringFillsField(f: Spec, s: string)
    ensures var t, k := FormatString(f, s), if f.precision then Min(f.prec, |s|) else |s|;
            && |t| == Max(f.width, k)
            && (if f.left then t[..k] == s[..k] else t[|t| - k..] == s[..k])
            && forall x :: 0 <= x < |t| && (if f.left then k <= x else x < |t| - k) ==> t[x] == ' '
  {
    var t, k := FormatString(f, s), if f.precision then Min(f.prec, |s|) else |s|;
    var shown, blanks := if f.precision && f.prec < |s| then s[..f.prec] else s, Repeat(' ', f.width - k);
    assert shown == s[..k];
    assert t == if f.left then shown + blanks else blanks + shown;
  }

  /** A directive with an unknown conversion character other than '%' prints that character twice; at the end of
      the format it prints the terminating NUL. */
  lemma UnknownPrintedTwice(fmt: string, i: nat, args: seq<Arg>)
    requires i < |fmt| && fmt[i] == '%' && DirectiveAt(fmt, i + 1, args).Some?
    requires var d := DirectiveAt(fmt, i + 1, args).value; !Known(At(fmt, d.at)) && At(fmt, d.at) != '%'
    ensures var d := DirectiveAt(fmt, i + 1, args).value;
            Render(fmt, i, args) ==
            if d.at == |fmt| then Some("\0")
            else Prefixed([fmt[d.at], fmt[d.at]], Render(fmt, d.at + 1, d.args))
  {
    hide DirectiveAt;
    var d := DirectiveAt(fmt, i + 1, args).value;
    assert Turn(fmt, i, args) == Some(([At(fmt, d.at)], d.at, d.args));
    if d.at < |fmt| {
      var rest := Render(fmt, d.at + 1, d.args);
      assert Render(fmt, d.at, d.args) == Prefixed([fmt[d.at]], rest);
      if rest.Some? {
        assert [fmt[d.at]] + ([fmt[d.at]] + rest.value) == [fmt[d.at], fmt[d.at]] + rest.value;
      }
    } else {
      assert Render(fmt, d.at, d.args) == Some("");
      assert ['\0'] + "" == "\0";
    }
  }

  /** "%%" prints one '%' and then reads its second character as the start of a directive. */
  lemma PercentReadTwice(fmt: string, i: nat, args: seq<Arg>)
    requires i + 1 < |fmt| && fmt[i] == '%' && fmt[i + 1] == '%'
    ensures Render(fmt, i, args) == Prefixed("%", Render(fmt, i + 1, args))
  {
    assert Turn(fmt, i, args) == Some(("%", i + 1, args));
  }

  /** So the usual "100%%" prints five characters, the last of them a NUL. */
  lemma PercentAtEnd(args: seq<Arg>)
    ensures Render("%%", 0, args) == Some("%\0")
  {
    var fmt := "%%";
    PercentReadTwice(fmt, 0, args);
    assert DirectiveAt(fmt, 2, args) == Some(Directive(Spec(false, false, false, false, 0, 0), 2, args));
    UnknownPrintedTwice(fmt, 1, args);
    assert "%" + "\0" == "%\0";
  }

  /** Text without a '%' prints as it is. */
  lemma {:induction false} PlainText(fmt: string, i: nat, j: nat, args: seq<Arg>)
    requires i <= j <= |fmt| && forall k :: i <= k < j ==> fmt[k] != '%'
    ensures Render(fmt, i, args) == Prefixed(fmt[i..j], Render(fmt, j, args))
    decreases j - i
  {
    var rest := Render(fmt, j, args);
    if i < j {
      PlainText(fmt, i + 1, j, args);
      hide Render;
      PlainChar(fmt, i, args);
      assert fmt[i..j] == [fmt[i]] + fmt[i + 1..j];
      PrefixedTwice([fmt[i]], fmt[i + 1..j], rest);
    } else {
      hide Render;
      assert fmt[i..j] == "";
      PrefixedTwice("", "", rest);
    }
  }

  lemma PlainChar(fmt: string, i: nat, args: seq<Arg>)
    requires i < |fmt| && fmt[i] != '%'
    ensures Render(fmt, i, args) == Prefixed([fmt[i]], Render(fmt, i + 1, args))
  {
    assert Turn(fmt, i, args) == Some(([fmt[i]], i + 1, args));
  }

  lemma PrefixedTwice(s: string, t: string, r: Option<string>)
    ensures Prefixed(s, Prefixed(t, r)) == Prefixed(s + t, r)
    ensures Prefixed("", r) == r
  {
    if r.Some? {
      assert s + (t + r.value) == s + t + r.value;
      assert "" + r.value == r.value;
    }
  }

  // ---- directives, written and read ----

  /** How a directive is written between '%' and the conversion character. */
  ghost function Written(f: Spec, long: bool): string {
    FlagText(f) + WidthText(f) + PrecText(f) + LongText(long)
  }

  ghost function FlagText(f: Spec): string {
    if f.zero then "0" else if f.left then "-" else ""
  }

  ghost function WidthText(f: Spec): string {
    if f.width > 0 then Numeral(f.width, 10, false) else ""
  }

  ghost function PrecText(f: Spec): string {
    if f.precision then "." + Numeral(f.prec, 10, false) else ""
  }

  ghost function LongText(long: bool): string {
    if long then "l" else ""
  }

  /** What the interpreter reads there is what was written, whatever stands before and behind it. */
  lemma DirectiveReads(fmt: string, i: nat, f: Spec, long: bool, args: seq<Arg>)
    requires !f.upper && !(f.zero && f.left) && (!f.precision ==> f.prec == 0)
    requires var t := Written(f, long);
             i + |t| < |fmt| && fmt[i..i + |t|] == t && Known(fmt[i + |t|])
    ensures DirectiveAt(fmt, i, args) == Some(Directive(f, i + |Written(f, long)|, args))
  {
    hide FlagAt, PrecisionAt, Number10, Known, FlagText, WidthText, PrecText, LongText;
    var flag, width, prec, tail := FlagText(f), WidthText(f), PrecText(f), LongText(long);
    FourPieces(fmt, i, flag, width, prec, tail);
    var j, k, l := i + |flag|, i + |flag| + |width|, i + |flag| + |width| + |prec|;
    NotInDirective(fmt[l + |tail|]);
    LongReads(fmt, l, long);
    PrecisionReads(fmt, k, f, args);
    WidthReads(fmt, j, f);
    FlagReads(fmt, i, f);
  }

  lemma NotInDirective(c: char)
    requires Known(c)
    ensures c != '-' && c != '.' && c != 'l' && !('0' <= c <= '9')
  {
  }

  /** A character that ends a number and starts no other part of a directive. */
  predicate Ends(c: char) {
    c != '-' && !('0' <= c <= '9')
  }

  lemma LongReads(fmt: string, l: nat, long: bool)
    requires var t := LongText(long);
             l + |t| < |fmt| && fmt[l..l + |t|] == t && fmt[l + |t|] != 'l' && fmt[l + |t|] != '.' && Ends(fmt[l + |t|])
    ensures (if At(fmt, l) == 'l' then l + 1 else l) == l + |LongText(long)| && Ends(fmt[l]) && fmt[l] != '.'
  {
    assert long ==> fmt[l] == fmt[l..l + 1][0];
  }

  lemma PrecisionReads(fmt: string, k: nat, f: Spec, args: seq<Arg>)
    requires !f.precision ==> f.prec == 0
    requires var t := PrecText(f); k + |t| < |fmt| && fmt[k..k + |t|] == t && Ends(fmt[k + |t|]) && fmt[k + |t|] != '.'
    ensures PrecisionAt(fmt, k, args) == Some((f.precision, f.prec, k + |PrecText(f)|, args)) && Ends(fmt[k])
  {
    hide Numeral, Number10;
    if f.precision {
      var n := Numeral(f.prec, 10, false);
      assert fmt[k] == fmt[k..k + 1 + |n|][0];
      assert fmt[k + 1..k + 1 + |n|] == fmt[k..k + 1 + |n|][1..];
      NumeralReads(fmt, k + 1, f.prec);
    }
  }

  lemma WidthReads(fmt: string, j: nat, f: Spec)
    requires var t := WidthText(f); j + |t| < |fmt| && fmt[j..j + |t|] == t && Ends(fmt[j + |t|])
    ensures Number10(fmt, j, 0) == (f.width, j + |WidthText(f)|) && fmt[j] != '0' && fmt[j] != '-'
  {
    hide Numeral, Number10;
    if f.width > 0 {
      NumeralReads(fmt, j, f.width);
      NoLeadingZero(f.width, 10, false);
      assert fmt[j] == fmt[j..j + |Numeral(f.width, 10, false)|][0];
    } else {
      NoNumber(fmt, j);
    }
  }

  lemma FlagReads(fmt: string, i: nat, f: Spec)
    requires !(f.zero && f.left)
    requires var t := FlagText(f); i + |t| < |fmt| && fmt[i..i + |t|] == t && fmt[i + |t|] != '0' && fmt[i + |t|] != '-'
    ensures FlagAt(fmt, i) == (f.zero, f.left, i + |FlagText(f)|)
  {
    assert f.zero || f.left ==> fmt[i] == fmt[i..i + 1][0];
  }

  lemma FourPieces(fmt: string, i: nat, a: string, b: string, c: string, d: string)
    requires i + |a| + |b| + |c| + |d| <= |fmt| && fmt[i..i + |a + b + c + d|] == a + b + c + d
    ensures var j, k, l := i + |a|, i + |a| + |b|, i + |a| + |b| + |c|;
            && fmt[i..j] == a && fmt[j..k] == b && fmt[k..l] == c && fmt[l..l + |d|] == d
  {
    var t := a + b + c + d;
    assert forall x :: 0 <= x < |t| ==> fmt[i + x] == fmt[i..i + |t|][x] == t[x];
    PieceIs(fmt, i, t, 0, a);
    PieceIs(fmt, i, t, |a|, b);
    PieceIs(fmt, i, t, |a| + |b|, c);
    PieceIs(fmt, i, t, |a| + |b| + |c|, d);
  }

  lemma PieceIs(fmt: string, i: nat, t: string, at: nat, a: string)
    requires i + |t| <= |fmt| && at + |a| <= |t| && forall x :: 0 <= x < |t| ==> fmt[i + x] == t[x]
    requires t[at..at + |a|] == a
    ensures fmt[i + at..i + at + |a|] == a
  {
    forall x | 0 <= x < |a| ensures fmt[i + at..i + at + |a|][x] == a[x] {
      assert t[at..at + |a|][x] == t[at + x] == fmt[i + (at + x)];
    }
  }

  /** A number is read as the value of its digits, up to the first other character. */
  lemma {:induction false} NumberReads(fmt: string, i: nat, j: nat, k: nat)
    requires i <= j <= k <= |fmt| && (forall x :: j <= x < k ==> '0' <= fmt[x] <= '9') && !('0' <= At(fmt, k) <= '9')
    ensures Number10(fmt, j, Val(fmt[i..j], 10)) == (Val(fmt[i..k], 10), k)
    decreases k - j
  {
    if j < k {
      assert fmt[i..j + 1] == fmt[i..j] + [fmt[j]];
      ValAppend(fmt[i..j], fmt[j], 10);
      NumberReads(fmt, i, j + 1, k);
    }
  }

  lemma NumeralReads(fmt: string, i: nat, n: nat)
    requires var s := Numeral(n, 10, false); i + |s| <= |fmt| && fmt[i..i + |s|] == s && !('0' <= At(fmt, i + |s|) <= '9')
    ensures Number10(fmt, i, 0) == (n, i + |Numeral(n, 10, false)|)
    ensures '0' <= fmt[i] <= '9'
  {
    hide Numeral, Number10, Val, CharValue;
    var s := Numeral(n, 10, false);
    NumeralValue(n, 10, false);
    forall x | i <= x < i + |s| ensures '0' <= fmt[x] <= '9' {
      assert fmt[x] == s[x - i];
      DecimalDigit(fmt[x]);
    }
    NoValue(fmt, i);
    NumberReads(fmt, i, i, i + |s|);
  }

  lemma NoValue(s: string, i: nat)
    requires i <= |s|
    ensures Val(s[i..i], 10) == 0
  {
  }

  lemma DecimalDigit(c: char)
    requires CharValue(c) < 10
    ensures '0' <= c <= '9'
  {
  }

  lemma NoNumber(fmt: string, i: nat)
    requires i <= |fmt| && !('0' <= At(fmt, i) <= '9')
    ensures Number10(fmt, i, 0) == (0, i)
  {
  }

  /** A precision of '*' is the magnitude of the signed word that the next argument is. */
  lemma StarReads(fmt: string, i: nat, w: nat, args: seq<Arg>)
    requires i + 2 < |fmt| && fmt[i] == '.' && fmt[i + 1] == '*' && Known(fmt[i + 2])
    requires w < 0x1_0000_0000 && w != 0x8000_0000 && args != [] && args[0] == Number(w)
    ensures DirectiveAt(fmt, i, args) ==
            Some(Directive(Spec(true, false, false, false, if w < 0x8000_0000 then w else 0x1_0000_0000 - w, 0), i + 2, args[1..]))
  {
    assert Number10(fmt, i, 0) == (0, i);
  }

  // ---- when a doubled percent sign prints as in C ----

  /** One of the characters a directive may hold is doubled: it is then read once as part of the directive and once
      as its unknown conversion. */
  predicate Doubled(fmt: string, i: nat) {
    At(fmt, i) == At(fmt, i + 1) && (At(fmt, i) == '-' || At(fmt, i) == '.' || At(fmt, i) == 'l')
  }

  /** Whether a directive takes its precision from an argument, and where its conversion character is. */
  function Starred(fmt: string, i: nat): bool
    requires i <= |fmt|
  {
    var k := Number10(fmt, FlagAt(fmt, i).2, 0).1;
    At(fmt, k) == '.' && At(fmt, k + 1) == '*'
  }

  function ConversionAt(fmt: string, i: nat): (at: nat)
    requires i <= |fmt|
    ensures i <= at <= |fmt|
  {
    var k := Number10(fmt, FlagAt(fmt, i).2, 0).1;
    var l := if At(fmt, k) != '.' then k else if At(fmt, k + 1) == '*' then k + 2 else Number10(fmt, k + 1, 0).1;
    if At(fmt, l) == 'l' then l + 1 else l
  }

  lemma DirectiveShape(fmt: string, i: nat, args: seq<Arg>)
    requires i <= |fmt|
    ensures Starred(fmt, i) ==> (DirectiveAt(fmt, i, args).Some? ==> args != [])
    ensures !Starred(fmt, i) ==> DirectiveAt(fmt, i, args).Some?
    ensures args != [] && args[0] == Number(0) ==> DirectiveAt(fmt, i, args).Some?
    ensures DirectiveAt(fmt, i, args).Some? ==>
              var d := DirectiveAt(fmt, i, args).value;
              d.at == ConversionAt(fmt, i) && d.args == if Starred(fmt, i) then args[1..] else args
  {
  }

  lemma {:induction false} DigitsOnly(fmt: string, i: nat, acc: nat)
    requires i <= |fmt|
    ensures forall k :: i <= k < Number10(fmt, i, acc).1 ==> '0' <= fmt[k] <= '9'
    decreases |fmt| - i
  {
    if '0' <= At(fmt, i) <= '9' {
      DigitsOnly(fmt, i + 1, acc * 10 + (fmt[i] as nat - '0' as nat));
    }
  }

  /** What lies between a percent sign and its conversion character: no other percent sign, and when the text before
      the conversion character is a single character equal to it, that is a doubled one. */
  lemma DirectiveText(fmt: string, i: nat)
    requires i <= |fmt|
    ensures forall k :: i <= k < ConversionAt(fmt, i) ==> fmt[k] != '%'
    ensures Doubled(fmt, i) <==>
              var at := ConversionAt(fmt, i); at == i + 1 && at < |fmt| && fmt[i] == fmt[at] && !Known(fmt[at])
    ensures Doubled(fmt, i) ==> !Starred(fmt, i)
  {
    var j := FlagAt(fmt, i).2;
    var k := Number10(fmt, j, 0).1;
    DigitsOnly(fmt, j, 0);
    NumberMaximal(fmt, j, 0);
    if At(fmt, k) == '.' && At(fmt, k + 1) != '*' {
      DigitsOnly(fmt, k + 1, 0);
      NumberMaximal(fmt, k + 1, 0);
    }
  }

  lemma {:induction false} NumberMaximal(fmt: string, i: nat, acc: nat)
    requires i <= |fmt|
    ensures var j := Number10(fmt, i, acc).1; !('0' <= At(fmt, j) <= '9') && (j == i <==> !('0' <= At(fmt, i) <= '9'))
    decreases |fmt| - i
  {
    if '0' <= At(fmt, i) <= '9' {
      NumberMaximal(fmt, i + 1, acc * 10 + (fmt[i] as nat - '0' as nat));
    }
  }

  /** Arguments that fit the format from `i` on, and no more of them than it takes. */
  ghost function Fitting(fmt: string, i: nat): seq<Arg>
    requires i <= |fmt|
    decreases |fmt| - i, 0
  {
    if i == |fmt| then []
    else if fmt[i] != '%' then Fitting(fmt, i + 1)
    else (if Starred(fmt, i + 1) then [Number(0)] else []) + FittingConversion(fmt, ConversionAt(fmt, i + 1))
  }

  /** The same from a conversion character on. */
  ghost function FittingConversion(fmt: string, at: nat): (args: seq<Arg>)
    requires at <= |fmt|
    decreases |fmt| - at, 1
  {
    if Known(At(fmt, at)) then [FittingArg(At(fmt, at))] + Fitting(fmt, at + 1) else Fitting(fmt, at)
  }

  function FittingArg(c: char): Arg {
    if c == 's' then Text("") else Number(0)
  }

  lemma ConvertFits(f: Spec, c: char)
    requires Known(c)
    ensures Convert(f, c, FittingArg(c)).Some?
  {
  }

  lemma FittingIs(fmt: string, i: nat)
    requires i < |fmt| && fmt[i] == '%'
    ensures var args, behind := Fitting(fmt, i), FittingConversion(fmt, ConversionAt(fmt, i + 1));
            if Starred(fmt, i + 1) then args != [] && args[0] == Number(0) && args[1..] == behind else args == behind
  {
    hide Known, Starred, ConversionAt;
    var behind := FittingConversion(fmt, ConversionAt(fmt, i + 1));
    assert [] + behind == behind;
  }

  lemma FittingTurn(fmt: string, i: nat)
    requires i < |fmt| && fmt[i] == '%'
    ensures var at, t := ConversionAt(fmt, i + 1), Turn(fmt, i, Fitting(fmt, i));
            var j := if Known(At(fmt, at)) then at + 1 else at;
            i < j <= |fmt| && t.Some? && t.value.1 == j && t.value.2 == Fitting(fmt, j)
  {
    hide DirectiveAt, Starred, ConversionAt, Convert, Fitting, FittingArg;
    var at, args := ConversionAt(fmt, i + 1), Fitting(fmt, i);
    FittingIs(fmt, i);
    DirectiveShape(fmt, i + 1, args);
    if Known(At(fmt, at)) {
      ConvertFits(DirectiveAt(fmt, i + 1, args).value.spec, At(fmt, at));
    }
  }

  /** With those arguments the format has a rendering. */
  lemma {:induction false} FittingRenders(fmt: string, i: nat)
    requires i <= |fmt|
    ensures Render(fmt, i, Fitting(fmt, i)).Some?
    decreases |fmt| - i
  {
    if i == |fmt| {
      RenderEnd(fmt, []);
    } else if fmt[i] != '%' {
      FittingRenders(fmt, i + 1);
      hide Render;
      PlainChar(fmt, i, Fitting(fmt, i));
    } else {
      hide Render, Turn, Fitting;
      var at := ConversionAt(fmt, i + 1);
      FittingTurn(fmt, i);
      FittingRenders(fmt, if Known(At(fmt, at)) then at + 1 else at);
      RenderTurn(fmt, i, Fitting(fmt, i));
    }
  }

  /** No rendering takes fewer arguments. */
  lemma {:induction false} FewerDoNotRender(fmt: string, i: nat, args: seq<Arg>)
    requires i <= |fmt| && Render(fmt, i, args).Some?
    ensures |args| >= |Fitting(fmt, i)|
    decreases |fmt| - i
  {
    if i < |fmt| {
      RenderNext(fmt, i, args);
      hide Render, DirectiveAt, Starred, ConversionAt;
      var (out, j, rest) := Turn(fmt, i, args).value;
      if fmt[i] == '%' {
        DirectiveShape(fmt, i + 1, args);
      }
      FewerDoNotRender(fmt, j, rest);
    }
  }

  /** What the standard's reading of a doubled percent sign at `i` would print. */
  ghost function AsInC(fmt: string, i: nat, args: seq<Arg>): Option<string>
    requires i + 2 <= |fmt|
  {
    Prefixed("%", Render(fmt, i + 2, args))
  }

  /** Everything behind a doubled percent sign up to where the second one's directive ends, read as plain text. */
  lemma ReadAsText(fmt: string, i: nat, args: seq<Arg>, j: nat)
    requires i + 2 <= j <= |fmt| && ConversionAt(fmt, i + 2) <= j <= ConversionAt(fmt, i + 2) + 1
    requires j > ConversionAt(fmt, i + 2) ==> At(fmt, j - 1) != '%'
    ensures AsInC(fmt, i, args) == Prefixed("%" + fmt[i + 2..j], Render(fmt, j, args))
  {
    hide Render, ConversionAt;
    DirectiveText(fmt, i + 2);
    PlainText(fmt, i + 2, j, args);
    PrefixedTwice("%", fmt[i + 2..j], Render(fmt, j, args));
  }

  /** When the second sign's directive takes no argument and the rest has a rendering, the doubled sign prints as in
      C if and only if what the directive prints is its own text. */
  lemma PercentPrintsText(fmt: string, i: nat, args: seq<Arg>, out: string, j: nat)
    requires i + 1 < |fmt| && fmt[i] == '%' && fmt[i + 1] == '%'
    requires Turn(fmt, i + 1, args) == Some((out, j, args)) && Render(fmt, j, args).Some?
    ensures i + 2 <= j <= |fmt| && (Render(fmt, i, args) == AsInC(fmt, i, args) <==> out == fmt[i + 2..j])
  {
    hide Render, ConversionAt, Starred, DirectiveAt;
    DirectiveShape(fmt, i + 2, args);
    PercentReadTwice(fmt, i, args);
    RenderTurn(fmt, i + 1, args);
    ReadAsText(fmt, i, args, j);
    var rest := Render(fmt, j, args);
    PrefixedTwice("%", out, rest);
    if "%" + out + rest.value == "%" + fmt[i + 2..j] + rest.value {
      SameFront("%" + out, "%" + fmt[i + 2..j], rest.value);
      SameBack("%", out, fmt[i + 2..j]);
    }
  }

  lemma SameFront(a: string, b: string, t: string)
    requires a + t == b + t
    ensures a == b
  {
    assert |a| == |b|;
    assert forall k :: 0 <= k < |a| ==> a[k] == (a + t)[k] == (b + t)[k] == b[k];
  }

  lemma SameBack(s: string, a: string, b: string)
    requires s + a == s + b
    ensures a == b
  {
    assert a == (s + a)[|s|..] && b == (s + b)[|s|..];
  }

  /** A directive that takes an argument cannot print as in C for the arguments that fit the text behind it, since
      one is missing then. */
  lemma PercentTakesArgument(fmt: string, i: nat, j: nat)
    requires i + 1 < |fmt| && fmt[i] == '%' && fmt[i + 1] == '%'
    requires var at := ConversionAt(fmt, i + 2);
             j == (if Known(At(fmt, at)) then at + 1 else at) && (Known(At(fmt, at)) || Starred(fmt, i + 2)) && j <= |fmt|
    ensures var args := Fitting(fmt, j); Render(fmt, i, args) != AsInC(fmt, i, args)
  {
    hide Render, ConversionAt, Starred, DirectiveAt;
    var args := Fitting(fmt, j);
    ReadAsText(fmt, i, args, j);
    FittingRenders(fmt, j);
    PercentReadTwice(fmt, i, args);
    if Render(fmt, i + 1, args).Some? {
      RenderNext(fmt, i + 1, args);
      DirectiveShape(fmt, i + 2, args);
      var (out, k, rest) := Turn(fmt, i + 1, args).value;
      FewerDoNotRender(fmt, k, rest);
    }
  }

  /** The exact condition: a doubled percent sign prints as in C, for every list of arguments, if and only if "--",
      ".." or "ll" comes behind it. */
  lemma PercentPrintsAsInC(fmt: string, i: nat)
    requires IsText(fmt) && i + 1 < |fmt| && fmt[i] == '%' && fmt[i + 1] == '%'
    ensures (forall args: seq<Arg> :: Render(fmt, i, args) == AsInC(fmt, i, args)) <==> Doubled(fmt, i + 2)
  {
    hide Render, ConversionAt, Starred, DirectiveAt, AsInC;
    var at := ConversionAt(fmt, i + 2);
    DirectiveText(fmt, i + 2);
    if Doubled(fmt, i + 2) {
      forall args: seq<Arg> ensures Render(fmt, i, args) == AsInC(fmt, i, args) {
        DoubledPrintsAsInC(fmt, i, args);
      }
    } else if Known(At(fmt, at)) || Starred(fmt, i + 2) {
      PercentTakesArgument(fmt, i, if Known(At(fmt, at)) then at + 1 else at);
    } else {
      var args := Fitting(fmt, at);
      FittingRenders(fmt, at);
      DirectiveShape(fmt, i + 2, args);
      PercentPrintsText(fmt, i, args, [At(fmt, at)], at);
    }
  }

  lemma DoubledPrintsAsInC(fmt: string, i: nat, args: seq<Arg>)
    requires i + 1 < |fmt| && fmt[i] == '%' && fmt[i + 1] == '%' && Doubled(fmt, i + 2)
    ensures Render(fmt, i, args) == AsInC(fmt, i, args)
  {
    hide Render, ConversionAt, Starred, DirectiveAt;
    var at := ConversionAt(fmt, i + 2);
    DirectiveText(fmt, i + 2);
    DirectiveShape(fmt, i + 2, args);
    PercentReadTwice(fmt, i, args);
    RenderTurn(fmt, i + 1, args);
    assert fmt[i + 2..at] == [At(fmt, at)];
    ReadAsText(fmt, i, args, at);
    PrefixedTwice("%", [At(fmt, at)], Render(fmt, at, args));
  }
}
