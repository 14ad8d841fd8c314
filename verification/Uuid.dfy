/** UUID text, printed through the format interpreter and parsed back: lib-clib/src/uuid_unparse.c and
    lib-clib/src/uuid_parse.c. */
module Uuid {
  import opened Integers
  import opened Wrappers
  import opened CStrings
  import opened Memory
  import opened Digits
  import opened Format
  import opened HexText
  import P = Printf

  // ---- the text form: section 3 of RFC 4122 ----

  /** Five groups of hexadecimal digits, for 4, 2, 2, 2 and 6 bytes. */
  ghost function UuidText(u: seq<byte>, upper: bool): (s: string)
    requires |u| == 16
    ensures |s| == 36
  {
    HexBytes(u[0..4], upper) + "-" + HexBytes(u[4..6], upper) + "-" + HexBytes(u[6..8], upper) + "-"
    + HexBytes(u[8..10], upper) + "-" + HexBytes(u[10..16], upper)
  }

  predicate Hyphen(i: nat) {
    i == 8 || i == 13 || i == 18 || i == 23
  }

  ghost predicate Accepted(s: string) {
    |s| == 36 && forall i :: 0 <= i < 36 ==> if Hyphen(i) then s[i] == '-' else CharValue(s[i]) < 16
  }

  ghost function Parsed(s: string): (u: seq<byte>)
    requires Accepted(s)
    ensures |u| == 16
  {
    Bytes(s[0..8]) + Bytes(s[9..13]) + Bytes(s[14..18]) + Bytes(s[19..23]) + Bytes(s[24..36])
  }

  lemma FiveGroups(s: string, a: string, b: string, c: string, d: string, e: string)
    requires |a| == 8 && |b| == |c| == |d| == 4 && |e| == 12
    requires s == a + "-" + b + "-" + c + "-" + d + "-" + e
    ensures s[0..8] == a && s[9..13] == b && s[14..18] == c && s[19..23] == d && s[24..36] == e
    ensures s[8] == s[13] == s[18] == s[23] == '-'
  {
  }

  lemma FiveFields(u: seq<byte>, a: seq<byte>, b: seq<byte>, c: seq<byte>, d: seq<byte>, e: seq<byte>)
    requires |a| == 4 && |b| == |c| == |d| == 2 && |e| == 6 && u == a + b + c + d + e
    ensures u[0..4] == a && u[4..6] == b && u[6..8] == c && u[8..10] == d && u[10..16] == e
  {
  }

  /** The groups of an accepted text are hexadecimal. */
  lemma GroupRuns(s: string)
    requires Accepted(s)
    ensures HexRun(s[0..8]) && HexRun(s[9..13]) && HexRun(s[14..18]) && HexRun(s[19..23]) && HexRun(s[24..36])
  {
  }

  lemma GroupsAccepted(s: string)
    requires |s| == 36 && s[8] == s[13] == s[18] == s[23] == '-'
    requires HexRun(s[0..8]) && HexRun(s[9..13]) && HexRun(s[14..18]) && HexRun(s[19..23]) && HexRun(s[24..36])
    ensures Accepted(s)
  {
    forall i | 0 <= i < 36 && !Hyphen(i) ensures CharValue(s[i]) < 16 {
      assert i < 8 ==> s[i] == s[0..8][i];
      assert 9 <= i < 13 ==> s[i] == s[9..13][i - 9];
      assert 14 <= i < 18 ==> s[i] == s[14..18][i - 14];
      assert 19 <= i < 23 ==> s[i] == s[19..23][i - 19];
      assert 24 <= i ==> s[i] == s[24..36][i - 24];
    }
  }

  /** Parsing the text of any UUID, in either case, gives the UUID back. */
  lemma ParseUndoesUnparse(u: seq<byte>, upper: bool)
    requires |u| == 16
    ensures Accepted(UuidText(u, upper)) && Parsed(UuidText(u, upper)) == u
  {
    hide Numeric, Bytes;
    FiveGroups(UuidText(u, upper), HexBytes(u[0..4], upper), HexBytes(u[4..6], upper), HexBytes(u[6..8], upper),
               HexBytes(u[8..10], upper), HexBytes(u[10..16], upper));
    BytesOfHex(u[0..4], upper);
    BytesOfHex(u[4..6], upper);
    BytesOfHex(u[6..8], upper);
    BytesOfHex(u[8..10], upper);
    BytesOfHex(u[10..16], upper);
    GroupsAccepted(UuidText(u, upper));
    assert u == u[0..4] + u[4..6] + u[6..8] + u[8..10] + u[10..16];
  }

  /** Printing what was parsed from any accepted text gives that text in lower case. */
  lemma UnparseUndoesParse(s: string)
    requires Accepted(s)
    ensures UuidText(Parsed(s), false) == Lower(s)
  {
    hide Bytes, Lower, Numeric;
    GroupRuns(s);
    FiveFields(Parsed(s), Bytes(s[0..8]), Bytes(s[9..13]), Bytes(s[14..18]), Bytes(s[19..23]), Bytes(s[24..36]));
    HexOfParsed(s[0..8]);
    HexOfParsed(s[9..13]);
    HexOfParsed(s[14..18]);
    HexOfParsed(s[19..23]);
    HexOfParsed(s[24..36]);
    var t := Lower(s[0..8]) + "-" + Lower(s[9..13]) + "-" + Lower(s[14..18]) + "-" + Lower(s[19..23]) + "-" + Lower(s[24..36]);
    FiveGroups(t, Lower(s[0..8]), Lower(s[9..13]), Lower(s[14..18]), Lower(s[19..23]), Lower(s[24..36]));
    forall i | 0 <= i < 36 ensures t[i] == Lower(s)[i] {
      if Hyphen(i) {
        assert LowerChar('-') == '-';
      } else {
        assert i < 8 ==> t[i] == t[0..8][i] && s[i] == s[0..8][i];
        assert 9 <= i < 13 ==> t[i] == t[9..13][i - 9] && s[i] == s[9..13][i - 9];
        assert 14 <= i < 18 ==> t[i] == t[14..18][i - 14] && s[i] == s[14..18][i - 14];
        assert 19 <= i < 23 ==> t[i] == t[19..23][i - 19] && s[i] == s[19..23][i - 19];
        assert 24 <= i ==> t[i] == t[24..36][i - 24] && s[i] == s[24..36][i - 24];
      }
    }
  }

  /** Byte for byte: the digits of byte `b`, the high one first, behind those of the bytes before it and one hyphen
      each for the fourth, sixth, eighth and tenth. */
  lemma TextOfByte(u: seq<byte>, upper: bool, b: nat)
    requires |u| == 16 && b < 16
    ensures var t, digits := UuidText(u, upper), if upper then UPPER_DIGITS else LOWER_DIGITS;
            var p := 2 * b + if b < 4 then 0 else if b < 6 then 1 else if b < 8 then 2 else if b < 10 then 3 else 4;
            && t[p] == digits[u[b] / 16] && t[p + 1] == digits[u[b] % 16]
            && t[8] == t[13] == t[18] == t[23] == '-'
  {
    hide HexBytes;
    var t := UuidText(u, upper);
    FiveGroups(t, HexBytes(u[0..4], upper), HexBytes(u[4..6], upper), HexBytes(u[6..8], upper),
               HexBytes(u[8..10], upper), HexBytes(u[10..16], upper));
    hide *;
    if b < 4 {
      DigitsOfByte(t, 0, u, 0, 4, b, upper);
    } else if b < 6 {
      DigitsOfByte(t, 9, u, 4, 6, b, upper);
    } else if b < 8 {
      DigitsOfByte(t, 14, u, 6, 8, b, upper);
    } else if b < 10 {
      DigitsOfByte(t, 19, u, 8, 10, b, upper);
    } else {
      DigitsOfByte(t, 24, u, 10, 16, b, upper);
    }
  }

  lemma DigitsOfByte(t: string, at: nat, u: seq<byte>, lo: nat, hi: nat, b: nat, upper: bool)
    requires lo <= b < hi <= |u| && at + 2 * (hi - lo) <= |t| && t[at..at + 2 * (hi - lo)] == HexBytes(u[lo..hi], upper)
    ensures var p, digits := at + 2 * (b - lo), if upper then UPPER_DIGITS else LOWER_DIGITS;
            t[p] == digits[u[b] / 16] && t[p + 1] == digits[u[b] % 16]
  {
    hide HexBytes;
    var h, k := HexBytes(u[lo..hi], upper), b - lo;
    HexBytesAt(u[lo..hi], k, upper);
    assert u[lo..hi][k] == u[b];
    assert t[at + 2 * k] == t[at..at + 2 * (hi - lo)][2 * k] && t[at + 2 * k + 1] == t[at..at + 2 * (hi - lo)][2 * k + 1];
  }

  lemma {:induction false} HexBytesAt(bs: seq<byte>, k: nat, upper: bool)
    requires k < |bs|
    ensures var digits := if upper then UPPER_DIGITS else LOWER_DIGITS;
            HexBytes(bs, upper)[2 * k] == digits[bs[k] / 16] && HexBytes(bs, upper)[2 * k + 1] == digits[bs[k] % 16]
  {
    hide DigitChar, Hex;
    var last := bs[|bs| - 1];
    TwoDigits(last, upper);
    DigitChars(last / 16);
    DigitChars(last % 16);
    if k < |bs| - 1 {
      HexBytesAt(bs[..|bs| - 1], k, upper);
    }
  }

  // ---- the structure between bytes and text ----

  datatype Fields = Fields(timeLow: nat, timeMid: nat, timeHi: nat, clockSeq: nat, node: seq<byte>)

  ghost function FieldsOf(u: seq<byte>): Fields
    requires |u| == 16
  {
    Fields(BigEndian(u[0..4]), BigEndian(u[4..6]), BigEndian(u[6..8]), BigEndian(u[8..10]), u[10..16])
  }

  lemma BigEndianOf(bs: seq<byte>)
    ensures |bs| == 2 ==> BigEndian(bs) == 256 * bs[0] as nat + bs[1] as nat
    ensures |bs| == 4 ==> BigEndian(bs) == 16777216 * bs[0] as nat + 65536 * bs[1] as nat + 256 * bs[2] as nat + bs[3] as nat
  {
    if |bs| == 2 {
      assert bs[..1][..0] == [] && BigEndian(bs[..1]) == bs[0] as nat;
    } else if |bs| == 4 {
      assert bs[..3][..2] == bs[..2] && bs[..2][..1] == bs[..1] && bs[..1][..0] == [];
      assert BigEndian(bs[..1]) == bs[0] as nat && BigEndian(bs[..2]) == BigEndian(bs[..1]) * 256 + bs[1] as nat;
      assert BigEndian(bs[..3]) == BigEndian(bs[..2]) * 256 + bs[2] as nat;
    }
  }

  /** Four and two bytes read through a moving pointer. */
  method Take4(u: array<byte>, ptr0: nat) returns (tmp: nat, ptr: nat)
    requires ptr0 + 4 <= u.Length
    ensures tmp == BigEndian(u[ptr0..ptr0 + 4]) && ptr == ptr0 + 4
  {
    BigEndianOf(u[ptr0..ptr0 + 4]);
    ptr := ptr0;
    tmp, ptr := u[ptr], ptr + 1;
    tmp, ptr := tmp * 256 + u[ptr], ptr + 1;
    tmp, ptr := tmp * 256 + u[ptr], ptr + 1;
    tmp, ptr := tmp * 256 + u[ptr], ptr + 1;
  }

  method Take2(u: array<byte>, ptr0: nat) returns (tmp: nat, ptr: nat)
    requires ptr0 + 2 <= u.Length
    ensures tmp == BigEndian(u[ptr0..ptr0 + 2]) && ptr == ptr0 + 2
  {
    BigEndianOf(u[ptr0..ptr0 + 2]);
    ptr := ptr0;
    tmp, ptr := u[ptr], ptr + 1;
    tmp, ptr := tmp * 256 + u[ptr], ptr + 1;
  }

  method Unpack(u: array<byte>) returns (f: Fields)
    requires u.Length == 16
    ensures f == FieldsOf(u[..])
  {
    hide BigEndian;
    var ptr := 0;
    var timeLow, timeMid, timeHi, clockSeq;
    timeLow, ptr := Take4(u, ptr);
    timeMid, ptr := Take2(u, ptr);
    timeHi, ptr := Take2(u, ptr);
    clockSeq, ptr := Take2(u, ptr);
    f := Fields(timeLow, timeMid, timeHi, clockSeq, u[ptr..ptr + 6]);
    assert u[0..4] == u[..][0..4] && u[4..6] == u[..][4..6] && u[6..8] == u[..][6..8] && u[8..10] == u[..][8..10];
  }

  ghost predicate FieldsFit(f: Fields) {
    f.timeLow < WORD_LIMIT && f.timeMid < 65536 && f.timeHi < 65536 && f.clockSeq < 65536 && |f.node| == 6
  }

  /** The bytes of a number, last one first, through repeated shifts. */
  method Put4(out: array<byte>, at: nat, value: nat)
    requires at + 4 <= out.Length && value < WORD_LIMIT
    modifies out
    ensures BigEndian(out[at..at + 4]) == value
    ensures forall x :: 0 <= x < out.Length && !(at <= x < at + 4) ==> out[x] == old(out[x])
  {
    var tmp := value;
    out[at + 3] := tmp % 256;
    tmp := tmp / 256;
    out[at + 2] := tmp % 256;
    tmp := tmp / 256;
    out[at + 1] := tmp % 256;
    tmp := tmp / 256;
    out[at] := tmp % 256;
    BigEndianOf(out[at..at + 4]);
  }

  method Put2(out: array<byte>, at: nat, value: nat)
    requires at + 2 <= out.Length && value < 65536
    modifies out
    ensures BigEndian(out[at..at + 2]) == value
    ensures forall x :: 0 <= x < out.Length && !(at <= x < at + 2) ==> out[x] == old(out[x])
  {
    var tmp := value;
    out[at + 1] := tmp % 256;
    tmp := tmp / 256;
    out[at] := tmp % 256;
    BigEndianOf(out[at..at + 2]);
  }

  method Pack(f: Fields, out: array<byte>)
    requires FieldsFit(f) && out.Length == 16
    modifies out
    ensures FieldsOf(out[..]) == f
  {
    hide BigEndian;
    Put4(out, 0, f.timeLow);
    ghost var a := out[0..4];
    Put2(out, 4, f.timeMid);
    ghost var b := out[4..6];
    Put2(out, 6, f.timeHi);
    ghost var c := out[6..8];
    Put2(out, 8, f.clockSeq);
    ghost var d := out[8..10];
    var k := 0;
    while k < 6
      invariant 0 <= k <= 6 && out[10..10 + k] == f.node[..k]
      invariant out[0..4] == a && out[4..6] == b && out[6..8] == c && out[8..10] == d
    {
      out[10 + k] := f.node[k];
      k := k + 1;
    }
    assert out[..][0..4] == a && out[..][4..6] == b && out[..][6..8] == c && out[..][8..10] == d;
    assert out[..][10..16] == f.node[..6] == f.node;
  }

  /** The structure determines the bytes. */
  lemma FieldsInjective(u: seq<byte>, v: seq<byte>)
    requires |u| == |v| == 16 && FieldsOf(u) == FieldsOf(v)
    ensures u == v
  {
    BigEndianInjective(u[0..4], v[0..4]);
    BigEndianInjective(u[4..6], v[4..6]);
    BigEndianInjective(u[6..8], v[6..8]);
    BigEndianInjective(u[8..10], v[8..10]);
    assert u == u[0..4] + u[4..6] + u[6..8] + u[8..10] + u[10..16];
    assert v == v[0..4] + v[4..6] + v[6..8] + v[8..10] + v[10..16];
  }

  lemma {:induction false} BigEndianInjective(s: seq<byte>, t: seq<byte>)
    requires |s| == |t| && BigEndian(s) == BigEndian(t)
    ensures s == t
  {
    if s != [] {
      BigEndianInjective(s[..|s| - 1], t[..|t| - 1]);
      assert s == s[..|s| - 1] + [s[|s| - 1]] && t == t[..|t| - 1] + [t[|t| - 1]];
    }
  }

  // ---- printing ----

  const FMT_LOWER := "%08x-%04x-%04x-%02x%02x-" + "%02x%02x%02x%02x%02x%02x"
  const FMT_UPPER := "%08X-%04X-%04X-%02X%02X-" + "%02X%02X%02X%02X%02X%02X"

  ghost predicate FieldAt(fmt: string, i: nat, n: nat, upper: bool) {
    && i + 4 <= |fmt| && 1 <= n <= 8
    && fmt[i] == '%' && fmt[i + 1] == '0' && fmt[i + 2] as int == '0' as int + n && fmt[i + 3] == if upper then 'X' else 'x'
  }

  /** One %0Nx field of a format prints the N hexadecimal digits of its argument. */
  lemma FieldPrints(fmt: string, i: nat, n: nat, upper: bool, args: seq<Arg>, tail: string)
    requires FieldAt(fmt, i, n, upper) && args != [] && args[0].Number? && args[0].w < Pow(16, n) && args[0].w < WORD_LIMIT
    requires Render(fmt, i + 4, args[1..]) == Some(tail)
    ensures Render(fmt, i, args) == Some(Hex(args[0].w, n, upper) + tail)
  {
    hide Numeral, Format.FormatHex, Hex, Render;
    assert Number10(fmt, i + 3, n) == (n, i + 3);
    assert Number10(fmt, i + 2, 0) == (n, i + 3);
    ZeroPaddedHex(args[0].w, n, upper);
    assert DirectiveAt(fmt, i + 1, args) == Some(Directive(Spec(false, false, true, false, 0, n), i + 3, args));
    assert Turn(fmt, i, args) == Some((Hex(args[0].w, n, upper), i + 4, args[1..]));
    RenderTurn(fmt, i, args);
  }

  lemma CharPrints(fmt: string, i: nat, args: seq<Arg>, tail: string)
    requires i < |fmt| && fmt[i] != '%' && Render(fmt, i + 1, args) == Some(tail)
    ensures Render(fmt, i, args) == Some([fmt[i]] + tail)
  {
  }

  ghost predicate UuidFormat(fmt: string, upper: bool) {
    && |fmt| == 48 && fmt[4] == fmt[9] == fmt[14] == fmt[23] == '-'
    && FieldAt(fmt, 0, 8, upper) && FieldAt(fmt, 5, 4, upper) && FieldAt(fmt, 10, 4, upper)
    && FieldAt(fmt, 15, 2, upper) && FieldAt(fmt, 19, 2, upper)
    && FieldAt(fmt, 24, 2, upper) && FieldAt(fmt, 28, 2, upper) && FieldAt(fmt, 32, 2, upper)
    && FieldAt(fmt, 36, 2, upper) && FieldAt(fmt, 40, 2, upper) && FieldAt(fmt, 44, 2, upper)
  }

  lemma Formats()
    ensures UuidFormat(FMT_LOWER, false)
    ensures UuidFormat(FMT_UPPER, true)
  {
  }

  lemma FormatsAreText()
    ensures IsText(FMT_LOWER)
    ensures IsText(FMT_UPPER)
  {
  }

  /** The arguments the unparser hands to sprintf. */
  ghost function UnparseArgs(f: Fields): (args: seq<Arg>)
    requires |f.node| == 6
    ensures |args| == 11
  {
    [Number(f.timeLow), Number(f.timeMid), Number(f.timeHi), Number(f.clockSeq / 256), Number(f.clockSeq % 256),
     Number(f.node[0] as nat), Number(f.node[1] as nat), Number(f.node[2] as nat),
     Number(f.node[3] as nat), Number(f.node[4] as nat), Number(f.node[5] as nat)]
  }

  /** `hex digits of every argument from the k-th on`, with the hyphens between groups. */
  ghost function Tail(f: Fields, k: nat, upper: bool): string
    requires |f.node| == 6 && k <= 11
    decreases 11 - k
  {
    if k == 11 then ""
    else
      var hyphen := if k <= 2 || k == 4 then "-" else "";
      Hex(UnparseArgs(f)[k].w, FieldWidth(k), upper) + (hyphen + Tail(f, k + 1, upper))
  }

  /** Where the k-th field of the format starts. */
  ghost function Start(k: nat): nat
    requires k <= 11
  {
    if k <= 3 then 5 * k else if k == 4 then 19 else 4 * k + 4
  }

  ghost function FieldWidth(k: nat): nat {
    if k == 0 then 8 else if k <= 2 then 4 else 2
  }

  /** The k-th field sits where it should and its argument fits. */
  lemma FieldFacts(fmt: string, f: Fields, k: nat, upper: bool)
    requires UuidFormat(fmt, upper) && FieldsFit(f) && k < 11
    ensures FieldAt(fmt, Start(k), FieldWidth(k), upper) && Start(k) + 4 <= |fmt|
    ensures if k <= 2 || k == 4 then Start(k + 1) == Start(k) + 5 <= |fmt| && fmt[Start(k) + 4] == '-' else Start(k + 1) == Start(k) + 4
    ensures UnparseArgs(f)[k].Number? && UnparseArgs(f)[k].w < Pow(16, FieldWidth(k)) && UnparseArgs(f)[k].w < WORD_LIMIT
  {
    assert Pow(16, 2) == 256 && Pow(16, 4) == 65536 && Pow(16, 6) == 16777216 && Pow(16, 8) == WORD_LIMIT by {
      assert Pow(16, 1) == 16 && Pow(16, 3) == 4096 && Pow(16, 5) == 1048576 && Pow(16, 7) == 268435456;
    }
  }

  lemma TailStep(f: Fields, k: nat, upper: bool)
    requires |f.node| == 6 && k < 11
    ensures var s, t := Hex(UnparseArgs(f)[k].w, FieldWidth(k), upper), Tail(f, k + 1, upper);
            Tail(f, k, upper) == s + (if k <= 2 || k == 4 then "-" + t else t)
  {
    hide Hex;
    Assoc("", "", Tail(f, k + 1, upper));
  }

  lemma RenderField(fmt: string, f: Fields, k: nat, upper: bool)
    requires UuidFormat(fmt, upper) && FieldsFit(f) && k < 11
    requires Render(fmt, Start(k + 1), UnparseArgs(f)[k + 1..]) == Some(Tail(f, k + 1, upper))
    ensures Render(fmt, Start(k), UnparseArgs(f)[k..]) == Some(Tail(f, k, upper))
  {
    hide Render, IsText, Hex, UnparseArgs, FieldAt, UuidFormat, Start, FieldWidth, Tail, Pow;
    var args, t := UnparseArgs(f)[k..], Tail(f, k + 1, upper);
    FieldFacts(fmt, f, k, upper);
    TailStep(f, k, upper);
    assert args[1..] == UnparseArgs(f)[k + 1..];
    if k <= 2 || k == 4 {
      CharPrints(fmt, Start(k) + 4, args[1..], t);
      FieldPrints(fmt, Start(k), FieldWidth(k), upper, args, "-" + t);
    } else {
      FieldPrints(fmt, Start(k), FieldWidth(k), upper, args, t);
    }
  }

  lemma {:induction false} RenderFrom(fmt: string, f: Fields, k: nat, upper: bool)
    requires UuidFormat(fmt, upper) && FieldsFit(f) && k <= 11
    ensures Render(fmt, Start(k), UnparseArgs(f)[k..]) == Some(Tail(f, k, upper))
    decreases 11 - k
  {
    if k == 11 {
      RenderEnd(fmt, UnparseArgs(f)[k..]);
    } else {
      hide *;
      RenderFrom(fmt, f, k + 1, upper);
      RenderField(fmt, f, k, upper);
    }
  }

  /** Through the real formatter, the unparser's format and arguments print the text form of the UUID. */
  lemma FormatPrintsUuid(fmt: string, u: seq<byte>, upper: bool)
    requires UuidFormat(fmt, upper) && |u| == 16
    ensures FieldsFit(FieldsOf(u))
    ensures Render(fmt, 0, UnparseArgs(FieldsOf(u))) == Some(UuidText(u, upper))
  {
    var f := FieldsOf(u);
    FieldsOfFit(u);
    RenderFrom(fmt, f, 0, upper);
    assert UnparseArgs(f)[0..] == UnparseArgs(f);
    TailIsText(u, upper);
  }

  lemma FieldsOfFit(u: seq<byte>)
    requires |u| == 16
    ensures FieldsFit(FieldsOf(u))
  {
    assert Pow(256, 1) == 256 && Pow(256, 2) == 65536 && Pow(256, 3) == 16777216 && Pow(256, 4) == WORD_LIMIT;
    HexOfBytes(u[0..4], false);
    HexOfBytes(u[4..6], false);
    HexOfBytes(u[6..8], false);
    HexOfBytes(u[8..10], false);
  }

  lemma HexByte(b: byte, upper: bool)
    ensures HexBytes([b], upper) == Hex(b as nat, 2, upper)
  {
    assert [b][..0] == [] && HexBytes([], upper) == "";
  }

  lemma {:induction false} HexBytesSplit(s: seq<byte>, t: seq<byte>, upper: bool)
    ensures HexBytes(s + t, upper) == HexBytes(s, upper) + HexBytes(t, upper)
    decreases |t|
  {
    if t == [] {
      assert s + t == s;
    } else {
      var t', b := t[..|t| - 1], t[|t| - 1];
      HexBytesSplit(s, t', upper);
      assert (s + t)[..|s + t| - 1] == s + t';
      assert HexBytes(s, upper) + HexBytes(t', upper) + Hex(b as nat, 2, upper)
          == HexBytes(s, upper) + (HexBytes(t', upper) + Hex(b as nat, 2, upper));
    }
  }

  lemma {:induction false} NodeTail(f: Fields, k: nat, upper: bool)
    requires |f.node| == 6 && 5 <= k <= 11
    ensures Tail(f, k, upper) == HexBytes(f.node[k - 5..], upper)
    decreases 11 - k
  {
    if k < 11 {
      NodeTail(f, k + 1, upper);
      TailStep(f, k, upper);
      NodeArgument(f, k);
      hide Tail, HexBytes, Hex, UnparseArgs;
      HexByte(f.node[k - 5], upper);
      HexBytesSplit([f.node[k - 5]], f.node[k - 4..], upper);
      assert f.node[k - 5..] == [f.node[k - 5]] + f.node[k - 4..];
    }
  }

  lemma NodeArgument(f: Fields, k: nat)
    requires |f.node| == 6 && 5 <= k < 11
    ensures UnparseArgs(f)[k].w == f.node[k - 5] as nat && FieldWidth(k) == 2
  {
  }

  lemma TailIsText(u: seq<byte>, upper: bool)
    requires |u| == 16
    ensures Tail(FieldsOf(u), 0, upper) == UuidText(u, upper)
  {
    var f := FieldsOf(u);
    HexOfBytes(u[0..4], upper);
    HexOfBytes(u[4..6], upper);
    HexOfBytes(u[6..8], upper);
    NodeTail(f, 5, upper);
    assert f.node[0..] == u[10..16];
    ClockBytes(u, upper);
    var a, b, c, d, e := HexBytes(u[0..4], upper), HexBytes(u[4..6], upper), HexBytes(u[6..8], upper),
                         HexBytes(u[8..10], upper), HexBytes(u[10..16], upper);
    FirstTails(f, upper);
    hide Hex, HexBytes, BigEndian, UnparseArgs, Tail;
    Assoc(Hex(f.clockSeq / 256, 2, upper), Hex(f.clockSeq % 256, 2, upper), "-" + e);
    Regroup(a, b, c, d, e);
  }

  lemma FirstTails(f: Fields, upper: bool)
    requires |f.node| == 6
    ensures Tail(f, 0, upper) == Hex(f.timeLow, 8, upper) + ("-" + (Hex(f.timeMid, 4, upper) + ("-" + (Hex(f.timeHi, 4, upper)
              + ("-" + (Hex(f.clockSeq / 256, 2, upper) + (Hex(f.clockSeq % 256, 2, upper) + ("-" + Tail(f, 5, upper)))))))))
  {
    hide Hex;
    assert Tail(f, 4, upper) == Hex(f.clockSeq % 256, 2, upper) + ("-" + Tail(f, 5, upper));
    Assoc("", "", Tail(f, 4, upper));
    assert Tail(f, 3, upper) == Hex(f.clockSeq / 256, 2, upper) + ("" + Tail(f, 4, upper));
    assert Tail(f, 2, upper) == Hex(f.timeHi, 4, upper) + ("-" + Tail(f, 3, upper));
    assert Tail(f, 1, upper) == Hex(f.timeMid, 4, upper) + ("-" + Tail(f, 2, upper));
  }

  lemma Assoc(s: string, t: string, v: string)
    ensures s + (t + v) == s + t + v
    ensures "" + v == v
  {
  }

  lemma Regroup(a: string, b: string, c: string, d: string, e: string)
    ensures a + ("-" + (b + ("-" + (c + ("-" + (d + ("-" + e))))))) == a + "-" + b + "-" + c + "-" + d + "-" + e
  {
    var s := a + "-" + b + "-" + c;
    Assoc(s + "-" + d, "-", e);
    Assoc(s + "-", d, "-" + e);
    Assoc(s, "-", d + ("-" + e));
    var t := "-" + (d + ("-" + e));
    Assoc(a + "-" + b + "-", c, t);
    Assoc(a + "-" + b, "-", c + t);
    Assoc(a + "-", b, "-" + (c + t));
    Assoc(a, "-", b + ("-" + (c + t)));
  }

  /** The two halves of the clock sequence are its two bytes. */
  lemma ClockBytes(u: seq<byte>, upper: bool)
    requires |u| == 16
    ensures var w := FieldsOf(u).clockSeq; Hex(w / 256, 2, upper) + Hex(w % 256, 2, upper) == HexBytes(u[8..10], upper)
  {
    var w := FieldsOf(u).clockSeq;
    BigEndianOf(u[8..10]);
    assert w / 256 == u[8] as nat && w % 256 == u[9] as nat;
    HexByte(u[8], upper);
    HexByte(u[9], upper);
    HexBytesSplit([u[8]], [u[9]], upper);
    assert u[8..10] == [u[8]] + [u[9]];
  }

  /** uuid_unparse_lower and uuid_unparse_upper, through sprintf. */
  method Unparse(printer: P.Printer, u: array<byte>, out: array<char>, upper: bool)
    requires u.Length == 16 && out.Length >= 37
    modifies printer, out
    ensures out[..37] == UuidText(u[..], upper) + ['\0'] && out[37..] == old(out[37..])
    ensures printer.outptr == null && printer.console == old(printer.console)
  {
    var fmt := if upper then FMT_UPPER else FMT_LOWER;
    Formats();
    FormatsAreText();
    FormatPrintsUuid(fmt, u[..], upper);
    hide Render, UuidText, UuidFormat;
    var f := Unpack(u);
    var args := [Number(f.timeLow), Number(f.timeMid), Number(f.timeHi), Number(f.clockSeq / 256), Number(f.clockSeq % 256),
                 Number(f.node[0] as nat), Number(f.node[1] as nat), Number(f.node[2] as nat),
                 Number(f.node[3] as nat), Number(f.node[4] as nat), Number(f.node[5] as nat)];
    assert args == UnparseArgs(f);
    var n := printer.Sprintf(out, fmt, args);
  }

  // ---- parsing ----

  /** `c | 0x20` for the ASCII bit. */
  function SetBit5(c: int): int {
    if c / 32 % 2 == 0 then c + 32 else c
  }

  predicate IsXDigit(c: char) {
    '0' <= c <= '9' || 0 <= SetBit5(c as int) - 'a' as int < 6
  }

  lemma IsXDigitMeans(c: char)
    ensures IsXDigit(c) <==> CharValue(c) < 16
    ensures IsXDigit(c) ==> CharValue(c) == if c > '9' then SetBit5(c as int) - 'a' as int + 10 else c as int - '0' as int
  {
  }

  /** Value of the hexadecimal digits at `i`, modulo 2^32 as the shifts lose the high digits. */
  method HexUint32(s: string, i0: nat) returns (ret: nat)
    requires i0 <= |s|
    ensures ret == Val(s[i0..RunEnd(s, i0, 16)], 16) % WORD_LIMIT
  {
    hide CharValue, Val, RunEnd, IsXDigit, Numeric;
    NoDigits(s, i0, 16);
    ret := 0;
    var i := i0;
    ghost var v := 0;
    while i < |s|
      invariant i0 <= i <= |s| && RunEnd(s, i0, 16) == RunEnd(s, i, 16)
      invariant v == Val(s[i0..i], 16) && ret == v % WORD_LIMIT
    {
      var d := s[i];
      IsXDigitMeans(d);
      DigitStep(s, i0, i, 16);
      if !IsXDigit(d) {
        break;
      }
      var nibble := if d > '9' then SetBit5(d as int) - 'a' as int + 10 else d as int - '0' as int;
      ShiftIn(v, nibble);
      ret := ret * 16 % WORD_LIMIT + nibble;
      v := v * 16 + nibble;
      i := i + 1;
    }
  }

  lemma ShiftIn(v: nat, nibble: nat)
    requires nibble < 16
    ensures (v % WORD_LIMIT) * 16 % WORD_LIMIT + nibble == (v * 16 + nibble) % WORD_LIMIT
  {
    var b, a := v / 0x1000_0000, v % 0x1000_0000;
    var q := v / WORD_LIMIT;
    ModIs(v * 16 + nibble, b, 16 * a + nibble);
    ModIs((v - WORD_LIMIT * q) * 16, b - 16 * q, 16 * a);
  }

  lemma ModIs(x: int, q: int, r: int)
    requires x == WORD_LIMIT * q + r && 0 <= r < WORD_LIMIT
    ensures x % WORD_LIMIT == r
  {
  }

  /** The check loop: exactly the 36-character hyphenated form passes. */
  method Check(s: string) returns (ok: bool)
    ensures ok == Accepted(s)
  {
    if |s| != 36 {
      return false;
    }
    var i := 0;
    while i <= 36
      invariant 0 <= i <= 37
      invariant forall k :: 0 <= k < i && k < 36 ==> if Hyphen(k) then s[k] == '-' else CharValue(s[k]) < 16
    {
      if i == 8 || i == 13 || i == 18 || i == 23 {
        if At(s, i) != '-' {
          return false;
        }
      } else if i < 36 || At(s, i) != '\0' {
        IsXDigitMeans(At(s, i));
        if !IsXDigit(At(s, i)) {
          return false;
        }
      }
      i := i + 1;
    }
    ok := true;
  }

  lemma HyphenIsNoDigit()
    ensures CharValue('-') >= 16
  {
  }

  /** A group between two hyphens, or up to the end, is read whole. */
  lemma GroupValue(s: string, i: nat, j: nat)
    requires Accepted(s) && i <= j <= 36 && (j - i) % 2 == 0
    requires (forall k :: i <= k < j ==> !Hyphen(k)) && (Hyphen(j) || j == 36)
    ensures RunEnd(s, i, 16) == j && HexRun(s[i..j])
    ensures Val(s[i..j], 16) == BigEndian(Bytes(s[i..j])) < Pow(256, (j - i) / 2)
  {
    hide CharValue, Val, BigEndian, Bytes, Hex, HexBytes, Pow;
    assert CharValue('-') >= 16 by { HyphenIsNoDigit(); }
    assert forall k :: i <= k < j ==> CharValue(s[k]) < 16;
    RunEndIs(s, i, j, 16);
    ValIsBigEndian(s[i..j]);
    HexOfBytes(Bytes(s[i..j]), false);
  }

  /** The four numbers read before the node are those of the parsed bytes. */
  lemma AcceptedGroups(s: string)
    requires Accepted(s)
    ensures var f := FieldsOf(Parsed(s));
            && FieldsFit(f) && f.node == Bytes(s[24..36])
            && f.timeLow == Val(s[0..RunEnd(s, 0, 16)], 16) && f.timeMid == Val(s[9..RunEnd(s, 9, 16)], 16)
            && f.timeHi == Val(s[14..RunEnd(s, 14, 16)], 16) && f.clockSeq == Val(s[19..RunEnd(s, 19, 16)], 16)
  {
    hide Bytes, BigEndian, Val;
    GroupValue(s, 0, 8);
    GroupValue(s, 9, 13);
    GroupValue(s, 14, 18);
    GroupValue(s, 19, 23);
    FieldsOfFit(Parsed(s));
    FiveFields(Parsed(s), Bytes(s[0..8]), Bytes(s[9..13]), Bytes(s[14..18]), Bytes(s[19..23]), Bytes(s[24..36]));
  }

  /** Accepted text is parsed; anything else is refused with -1 and the target left alone. */
  method Parse(s: string, uu: array<byte>) returns (r: int)
    requires uu.Length == 16
    modifies uu
    ensures r == if Accepted(s) then 0 else -1
    ensures Accepted(s) ==> uu[..] == Parsed(s)
    ensures !Accepted(s) ==> uu[..] == old(uu[..])
  {
    hide Bytes, BigEndian, RunEnd, Parsed, FieldsOf, Accepted, Val, Numeric;
    var ok := Check(s);
    if !ok {
      return -1;
    }
    AcceptedLength(s);
    AcceptedGroups(s);
    var timeLow := HexUint32(s, 0);
    var timeMid := HexUint32(s, 9);
    var timeHi := HexUint32(s, 14);
    var clockSeq := HexUint32(s, 19);
    var node := ParseNode(s);
    var f := Fields(timeLow, timeMid % 65536, timeHi % 65536, clockSeq % 65536, node);
    ghost var g := FieldsOf(Parsed(s));
    assert timeLow == g.timeLow && timeMid == g.timeMid && timeHi == g.timeHi && clockSeq == g.clockSeq;
    Pack(f, uu);
    FieldsInjective(uu[..], Parsed(s));
    r := 0;
  }

  lemma AcceptedLength(s: string)
    requires Accepted(s)
    ensures |s| == 36
  {
  }

  lemma PairValue(c: char, d: char)
    requires CharValue(c) < 16 && CharValue(d) < 16
    ensures RunEnd([c, d], 0, 16) == 2 && Val([c, d], 16) == Pair(c, d) as nat
  {
    hide CharValue, RunEnd;
    RunEndIs([c, d], 0, 2, 16);
    assert [c, d][..1] == [c] && [c][..0] == [];
    assert Val([c], 16) == CharValue(c);
  }

  lemma NodeByte(s: string, cp: nat)
    requires Accepted(s) && 24 <= cp < 36 && cp % 2 == 0
    ensures CharValue(s[cp]) < 16 && CharValue(s[cp + 1]) < 16
    ensures HexRun(s[24..cp]) && HexRun(s[24..cp + 2])
    ensures Bytes(s[24..cp + 2]) == Bytes(s[24..cp]) + [Pair(s[cp], s[cp + 1])]
    ensures RunEnd([s[cp], s[cp + 1]], 0, 16) == 2 && Val([s[cp], s[cp + 1]], 16) == Pair(s[cp], s[cp + 1]) as nat
  {
    hide CharValue, Pair, Bytes, RunEnd, Val;
    assert !Hyphen(cp) && !Hyphen(cp + 1);
    assert forall k :: 24 <= k < cp ==> CharValue(s[k]) < 16;
    assert s[24..cp] + [s[cp], s[cp + 1]] == s[24..cp + 2];
    BytesAppend(s[24..cp], s[cp], s[cp + 1]);
    PairValue(s[cp], s[cp + 1]);
  }

  /** hex_uint32 of a two-character buffer, cast to a byte. */
  method ParsePair(c: char, d: char) returns (b: byte)
    requires CharValue(c) < 16 && CharValue(d) < 16
    ensures b == Pair(c, d)
  {
    hide CharValue, Val, RunEnd;
    PairValue(c, d);
    var buf := [c, d];
    assert buf[0..2] == buf;
    var v := HexUint32(buf, 0);
    b := v % 256;
  }

  /** The six node bytes. */
  method ParseNode(s: string) returns (node: seq<byte>)
    requires Accepted(s)
    ensures node == Bytes(s[24..36])
  {
    hide Accepted, Bytes, CharValue, Numeric, Pair;
    AcceptedLength(s);
    NodeByte(s, 24);
    NoBytes();
    assert s[24..24] == [];
    node := [];
    var cp := 24;
    while cp < 36
      invariant 24 <= cp <= 36 && cp % 2 == 0 && HexRun(s[24..cp]) && node == Bytes(s[24..cp])
    {
      NodeByte(s, cp);
      var b := ParsePair(s[cp], s[cp + 1]);
      node := node + [b];
      cp := cp + 2;
    }
  }
}
