/** Fixed-width hexadecimal text, and what the formatter's %08x, %04x and %02x print. */
module HexText {
  import opened Memory
  import opened Digits
  import opened Format

  /** The last `n` hexadecimal digits of `w`. */
  function Hex(w: nat, n: nat, upper: bool): (s: string)
    ensures |s| == n
  {
    if n == 0 then [] else Hex(w / 16, n - 1, upper) + [DigitChar(w % 16, upper)]
  }

  function HexBytes(bs: seq<byte>, upper: bool): (s: string)
    ensures |s| == 2 * |bs|
  {
    if bs == [] then [] else HexBytes(bs[..|bs| - 1], upper) + Hex(bs[|bs| - 1], 2, upper)
  }

  /** Big-endian value of some bytes. */
  function BigEndian(bs: seq<byte>): nat {
    if bs == [] then 0 else BigEndian(bs[..|bs| - 1]) * 256 + bs[|bs| - 1] as nat
  }

  /** Zero padding a numeral gives its fixed-width form. */
  lemma {:induction false} PaddedIsHex(w: nat, n: nat, upper: bool)
    requires n >= 1 && w < Pow(16, n)
    ensures |Numeral(w, 16, upper)| <= n
    ensures Repeat('0', n - |Numeral(w, 16, upper)|) + Numeral(w, 16, upper) == Hex(w, n, upper)
  {
    NumeralLength(w, 16, upper, n);
    if n == 1 {
      assert Hex(w / 16, 0, upper) == [];
    } else if w < 16 {
      ZeroHex(n - 1, upper);
    } else {
      QuotientBound(w, 16, Pow(16, n - 1));
      PaddedIsHex(w / 16, n - 1, upper);
      var d, z := Numeral(w / 16, 16, upper), Repeat('0', n - |Numeral(w, 16, upper)|);
      assert z + (d + [DigitChar(w % 16, upper)]) == z + d + [DigitChar(w % 16, upper)];
    }
  }

  lemma {:induction false} ZeroHex(n: nat, upper: bool)
    ensures Hex(0, n, upper) == Repeat('0', n)
  {
    if n > 0 {
      ZeroHex(n - 1, upper);
    }
  }

  lemma HexPair(a: nat, b: byte, n: nat, upper: bool)
    ensures Hex(a * 256 + b as nat, n + 2, upper) == Hex(a, n, upper) + Hex(b as nat, 2, upper)
  {
    var w: nat, c: nat := a * 256 + b as nat, b as nat;
    assert w / 16 == a * 16 + c / 16 && w % 16 == c % 16;
    assert w / 16 / 16 == a && w / 16 % 16 == c / 16;
    assert Hex(w, n + 2, upper) == Hex(w / 16, n + 1, upper) + [DigitChar(w % 16, upper)];
    assert Hex(w / 16, n + 1, upper) == Hex(a, n, upper) + [DigitChar(c / 16, upper)];
    assert Hex(c, 2, upper) == Hex(c / 16, 1, upper) + [DigitChar(c % 16, upper)];
    assert Hex(c / 16, 1, upper) == [] + [DigitChar(c / 16 % 16, upper)];
  }

  /** A big-endian number in hexadecimal is its bytes in hexadecimal, in order. */
  lemma {:induction false} HexOfBytes(bs: seq<byte>, upper: bool)
    ensures Hex(BigEndian(bs), 2 * |bs|, upper) == HexBytes(bs, upper)
    ensures BigEndian(bs) < Pow(256, |bs|)
  {
    if bs != [] {
      var front, b := bs[..|bs| - 1], bs[|bs| - 1];
      HexOfBytes(front, upper);
      HexPair(BigEndian(front), b, 2 * |front|, upper);
    }
  }

  /** What %0Nx and %0NX print of a word that fits in N digits. */
  lemma ZeroPaddedHex(w: nat, n: nat, upper: bool)
    requires 1 <= n <= 8 && w < Pow(16, n)
    ensures FormatHex(Spec(false, upper, true, false, 0, n), w) == Hex(w, n, upper)
  {
    var f := Spec(false, upper, true, false, 0, n);
    PaddedIsHex(w, n, upper);
    var s := Zeroed(f, Numeral(w, 16, upper));
    RepeatNone(' ', 0);
    assert s == Hex(w, n, upper) && PadLeft(f, s) == [] + s && Pad(f, s) == s + [];
  }

  // ---- reading pairs of digits ----

  ghost predicate HexRun(s: string) {
    Numeric(s, 16)
  }

  /** The bytes whose hexadecimal digits `s` lists. */
  ghost function Bytes(s: string): (bs: seq<byte>)
    requires HexRun(s) && |s| % 2 == 0
    ensures |bs| == |s| / 2
  {
    if s == [] then [] else Bytes(s[..|s| - 2]) + [Pair(s[|s| - 2], s[|s| - 1])]
  }

  function Pair(c: char, d: char): (b: byte)
    requires CharValue(c) < 16 && CharValue(d) < 16
  {
    CharValue(c) * 16 + CharValue(d)
  }

  function Lower(s: string): (t: string)
    ensures |t| == |s|
    ensures forall k :: 0 <= k < |s| ==> t[k] == LowerChar(s[k])
  {
    if s == [] then [] else Lower(s[..|s| - 1]) + [LowerChar(s[|s| - 1])]
  }

  function LowerChar(c: char): char {
    if 'A' <= c <= 'Z' then (c as int + 32) as char else c
  }

  lemma TwoDigits(v: nat, upper: bool)
    requires v < 256
    ensures Hex(v, 2, upper) == [DigitChar(v / 16, upper), DigitChar(v % 16, upper)]
  {
    assert Hex(v / 16, 1, upper) == Hex(v / 16 / 16, 0, upper) + [DigitChar(v / 16 % 16, upper)];
  }

  lemma BytesAppend(s: string, c: char, d: char)
    requires HexRun(s) && |s| % 2 == 0 && CharValue(c) < 16 && CharValue(d) < 16
    ensures HexRun(s + [c, d]) && Bytes(s + [c, d]) == Bytes(s) + [Pair(c, d)]
  {
    hide CharValue, Pair;
    var t := s + [c, d];
    assert t[..|t| - 2] == s && t[|t| - 2] == c && t[|t| - 1] == d;
  }

  lemma LowerAppend(s: string, c: char, d: char)
    ensures Lower(s + [c, d]) == Lower(s) + [LowerChar(c), LowerChar(d)]
  {
    var t := s + [c, d];
    forall k | 0 <= k < |t| ensures Lower(t)[k] == (Lower(s) + [LowerChar(c), LowerChar(d)])[k] {
    }
  }

  lemma {:induction false} BytesOfHex(bs: seq<byte>, upper: bool)
    ensures HexRun(HexBytes(bs, upper)) && Bytes(HexBytes(bs, upper)) == bs
  {
    hide Bytes, CharValue;
    if bs == [] {
      NoBytes();
    } else {
      var front, b := bs[..|bs| - 1], bs[|bs| - 1] as nat;
      BytesOfHex(front, upper);
      TwoDigits(b, upper);
      BytesAppend(HexBytes(front, upper), DigitChar(b / 16, upper), DigitChar(b % 16, upper));
      assert bs == front + [bs[|bs| - 1]];
    }
  }

  lemma NoBytes()
    ensures HexRun("") && Bytes("") == []
  {
  }

  lemma LowerDigit(c: char)
    requires CharValue(c) < 16
    ensures DigitChar(CharValue(c), false) == LowerChar(c)
  {
  }

  lemma PairDigits(c: char, d: char)
    requires CharValue(c) < 16 && CharValue(d) < 16
    ensures Hex(Pair(c, d) as nat, 2, false) == [LowerChar(c), LowerChar(d)]
  {
    LowerDigit(c);
    LowerDigit(d);
    TwoDigits(Pair(c, d) as nat, false);
  }

  lemma {:induction false} HexOfParsed(s: string)
    requires HexRun(s) && |s| % 2 == 0
    ensures HexBytes(Bytes(s), false) == Lower(s)
  {
    if s != [] {
      hide CharValue, LowerChar, Hex, DigitChar, Bytes, Lower, Pair;
      var t, c, d := s[..|s| - 2], s[|s| - 2], s[|s| - 1];
      assert s == t + [c, d];
      HexOfParsed(t);
      BytesAppend(t, c, d);
      LowerAppend(t, c, d);
      PairDigits(c, d);
    }
  }

  /** The value of a run of hexadecimal digits is the big-endian value of its bytes. */
  lemma {:induction false} ValIsBigEndian(s: string)
    requires HexRun(s) && |s| % 2 == 0
    ensures Val(s, 16) == BigEndian(Bytes(s))
  {
    if s != [] {
      var t, u := s[..|s| - 2], s[..|s| - 1];
      ValIsBigEndian(t);
      assert u[..|u| - 1] == t;
      assert Bytes(s)[..|Bytes(s)| - 1] == Bytes(t);
    }
  }
}
