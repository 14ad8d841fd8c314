/** Decimal rounding in place: `_round_float` of lib-clib/src/printf.c drops the last digit of "[-]I.F". */
module RoundFloat {
  import opened Integers
  import opened Digits
  import F = Format
  import P = Printf

  function Sign(negative: bool): string {
    if negative then "-" else ""
  }

  ghost predicate Decimal(s: string) {
    forall k :: 0 <= k < |s| ==> '0' <= s[k] <= '9'
  }

  /** The number written with at least `len` digits. */
  ghost function PadTo(n: nat, len: nat): string {
    Repeat('0', len - |Numeral(n, 10, false)|) + Numeral(n, 10, false)
  }

  /** "[-]" digits with the last `k` of them behind a point, and no point when there are none. */
  ghost function Text(negative: bool, digits: string, k: nat): string
    requires k <= |digits|
  {
    Sign(negative) + digits[..|digits| - k] + (if k == 0 then "" else "." + digits[|digits| - k..])
  }

  /** All digits read as one number, divided by ten and rounded half up (half away from zero, the sign being
      apart), and written back with one digit less behind the point. */
  ghost function Rounded(negative: bool, ip: string, fp: string): string
    requires |fp| > 0 && |ip| > 0
  {
    var n := (Val(ip + fp, 10) + 5) / 10;
    PadToLength(n, |ip| + |fp| - 1);
    Text(negative, PadTo(n, |ip| + |fp| - 1), |fp| - 1)
  }

  lemma PadToLength(n: nat, len: nat)
    ensures |PadTo(n, len)| >= len
  {
  }

  // ---- adding one to a row of digits ----

  function Succ(c: char): char {
    if '0' <= c < '9' then (c as int + 1) as char else c
  }

  lemma SuccValue(c: char)
    requires '0' <= c < '9'
    ensures '0' <= Succ(c) <= '9' && CharValue(Succ(c)) == CharValue(c) + 1
  {
  }

  ghost function Inc(d: string): string {
    if d == [] then "1"
    else if d[|d| - 1] == '9' then Inc(d[..|d| - 1]) + "0"
    else d[..|d| - 1] + [Succ(d[|d| - 1])]
  }

  lemma {:induction false} IncShape(d: string)
    requires Decimal(d)
    ensures Decimal(Inc(d)) && |d| <= |Inc(d)| <= |d| + 1
    ensures |Inc(d)| > |d| ==> Inc(d)[0] == '1'
  {
    if d != [] {
      IncShape(d[..|d| - 1]);
    }
  }

  lemma {:induction false} IncValue(d: string)
    requires Decimal(d)
    ensures Val(Inc(d), 10) == Val(d, 10) + 1
  {
    hide CharValue, Succ, Val;
    if d == [] {
      IncNothing();
    } else {
      var front, c := d[..|d| - 1], d[|d| - 1];
      IncValue(front);
      assert d == front + [c];
      ValAppend(front, c, 10);
      if c == '9' {
        ValAppend(Inc(front), '0', 10);
        Zero();
      } else {
        SuccValue(c);
        ValAppend(front, Succ(c), 10);
      }
    }
  }

  lemma IncNothing()
    ensures Val(Inc([]), 10) == Val([], 10) + 1
  {
    ValAppend([], '1', 10);
    assert [] + "1" == "1";
  }

  lemma Zero()
    ensures CharValue('0') == 0 && CharValue('9') == 9
  {
  }

  /** A carry runs over the nines at the end and stops at the first other digit. */
  lemma {:induction false} IncStops(d: string, j: nat)
    requires j < |d| && Decimal(d) && d[j] != '9' && (forall k :: j < k < |d| ==> d[k] == '9')
    ensures Inc(d) == d[..j] + [Succ(d[j])] + Repeat('0', |d| - j - 1)
  {
    if j == |d| - 1 {
      RepeatNone('0', 0);
    } else {
      var front := d[..|d| - 1];
      IncStops(front, j);
      assert front[..j] == d[..j];
    }
  }

  lemma {:induction false} IncGrows(d: string)
    requires forall k :: 0 <= k < |d| ==> d[k] == '9'
    ensures Inc(d) == "1" + Repeat('0', |d|)
  {
    if d == [] {
      RepeatNone('0', 0);
    } else {
      IncGrows(d[..|d| - 1]);
    }
  }

  lemma {:induction false} NumeralIsLong(n: nat, k: nat)
    requires n >= Pow(10, k)
    ensures |Numeral(n, 10, false)| > k
  {
    if k > 0 {
      assert Pow(10, k) == 10 * Pow(10, k - 1);
      assert n / 10 >= Pow(10, k - 1);
      assert Pow(10, k - 1) >= 1 by { PowPositive(k - 1); }
      NumeralIsLong(n / 10, k - 1);
    }
  }

  lemma {:induction false} PowPositive(k: nat)
    ensures Pow(10, k) >= 1
  {
    if k > 0 {
      PowPositive(k - 1);
    }
  }

  lemma {:induction false} LeadingDigit(d: string)
    requires Decimal(d) && |d| > 0 && d[0] != '0'
    ensures Val(d, 10) >= Pow(10, |d| - 1)
  {
    if |d| == 1 {
      assert d[..0] == [];
    } else {
      LeadingDigit(d[..|d| - 1]);
    }
  }

  lemma DecimalIsNumeric(d: string)
    requires Decimal(d)
    ensures Numeric(d, 10)
  {
  }

  /** A row of digits is its own value, padded to its own length. */
  lemma DigitsAreTheirValue(d: string)
    requires Decimal(d) && |d| > 0
    ensures PadTo(Val(d, 10), |d|) == d
  {
    var n := Val(d, 10);
    DecimalIsNumeric(d);
    ValBound(d, 10);
    NumeralLength(n, 10, false, |d|);
    NumeralValue(n, 10, false);
    var z := |d| - |Numeral(n, 10, false)|;
    ValZeros(z, Numeral(n, 10, false), 10);
    var t := PadTo(n, |d|);
    assert Numeric(t, 10) by { assert CharValue('0') == 0; }
    ValInjective(d, t, 10);
    forall k | 0 <= k < |d| ensures d[k] == t[k] {
      SameDigit(d[k], t[k]);
    }
  }

  lemma SameDigit(c: char, d: char)
    requires CharValue(c) == CharValue(d) < 10
    ensures c == d
  {
  }

  /** Padding to a length the numeral already has does nothing. */
  lemma PadToLess(n: nat, len: nat, more: nat)
    requires len <= |Numeral(n, 10, false)| && more <= |Numeral(n, 10, false)|
    ensures PadTo(n, len) == PadTo(n, more)
  {
    hide Numeral, Repeat;
    RepeatNone('0', len - |Numeral(n, 10, false)|);
    RepeatNone('0', more - |Numeral(n, 10, false)|);
  }

  lemma IncIsPadded(d: string)
    requires Decimal(d) && |d| > 0
    ensures PadTo(Val(d, 10) + 1, |d|) == Inc(d)
  {
    hide PadTo, Inc, Numeral;
    IncValue(d);
    IncShape(d);
    DigitsAreTheirValue(Inc(d));
    if |Inc(d)| > |d| {
      LeadingDigit(Inc(d));
      NumeralIsLong(Val(Inc(d), 10), |d|);
      PadToLess(Val(Inc(d), 10), |d|, |Inc(d)|);
    }
  }

  /** Rounding drops the last digit, and adds one to the others when it is 5 or more. */
  lemma RoundedDigits(negative: bool, ip: string, fp: string)
    requires Decimal(ip) && Decimal(fp) && |ip| > 0 && |fp| > 0
    ensures var d := ip + fp[..|fp| - 1];
            var e := if fp[|fp| - 1] >= '5' then Inc(d) else d;
            |e| >= |fp| - 1 && Rounded(negative, ip, fp) == Text(negative, e, |fp| - 1)
  {
    hide Val, PadTo, Inc;
    var d, c := ip + fp[..|fp| - 1], fp[|fp| - 1];
    assert ip + fp == d + [c];
    ValAppend(d, c, 10);
    assert Decimal(d);
    assert (Val(d, 10) * 10 + CharValue(c) + 5) / 10 == Val(d, 10) + if CharValue(c) >= 5 then 1 else 0;
    if c >= '5' {
      IncIsPadded(d);
      IncShape(d);
    } else {
      DigitsAreTheirValue(d);
    }
  }

  /** So what is left is the nearest number with one digit less, a tie going away from zero: digits `e`, with the sign in
      front and a point before the last `k` of them, one digit longer than before only when a new leading 1 came in. */
  lemma RoundedIsNearest(negative: bool, ip: string, fp: string) returns (e: string)
    requires Decimal(ip) && Decimal(fp) && |ip| > 0 && |fp| > 0
    ensures Decimal(e) && (|e| == |ip| + |fp| - 1 || (|e| == |ip| + |fp| && e[0] == '1'))
    ensures 10 * Val(e, 10) - 5 <= Val(ip + fp, 10) < 10 * Val(e, 10) + 5
    ensures var k := |fp| - 1;
            Rounded(negative, ip, fp) ==
            (if negative then "-" else "") + e[..|e| - k] + (if k == 0 then "" else "." + e[|e| - k..])
  {
    hide Inc, Val, Rounded;
    var d, c := ip + fp[..|fp| - 1], fp[|fp| - 1];
    RoundedDigits(negative, ip, fp);
    assert ip + fp == d + [c];
    ValAppend(d, c, 10);
    DigitOf(c);
    if c >= '5' {
      e := Inc(d);
      IncShape(d);
      IncValue(d);
    } else {
      e := d;
    }
  }

  lemma DigitOf(c: char)
    requires '0' <= c <= '9'
    ensures CharValue(c) < 10 && (CharValue(c) >= 5 <==> c >= '5')
  {
  }

  // ---- the edit in place ----

  /** Sign, digits and a point before the last `k` of them, the point always present. */
  ghost function Full(negative: bool, d: string, k: nat): (s: string)
    requires k <= |d|
    ensures |s| == |Sign(negative)| + |d| + 1
  {
    Sign(negative) + d[..|d| - k] + "." + d[|d| - k..]
  }

  /** The character at position `x` of that text. */
  ghost function CharAt(negative: bool, d: string, k: nat, x: nat): char
    requires k <= |d| && x <= |Sign(negative)| + |d|
  {
    var o, dot := |Sign(negative)|, |Sign(negative)| + |d| - k;
    if x < o then '-' else if x < dot then d[x - o] else if x == dot then '.' else d[x - o - 1]
  }

  ghost predicate Holds(t: seq<char>, negative: bool, d: string, k: nat)
    requires k <= |d|
  {
    |t| > |Sign(negative)| + |d| && forall x :: 0 <= x <= |Sign(negative)| + |d| ==> t[x] == CharAt(negative, d, k, x)
  }

  lemma HoldsFull(t: seq<char>, negative: bool, d: string, k: nat)
    requires k <= |d| && |t| > |Sign(negative)| + |d|
    ensures Holds(t, negative, d, k) <==> t[..|Full(negative, d, k)|] == Full(negative, d, k)
  {
    var f := Full(negative, d, k);
    forall x | 0 <= x < |f| ensures f[x] == CharAt(negative, d, k, x) {
      FullAt(negative, d, k, x);
    }
    if t[..|f|] == f {
      forall x | 0 <= x < |f| ensures t[x] == CharAt(negative, d, k, x) {
        assert t[..|f|][x] == f[x];
      }
    }
  }

  lemma FullAt(negative: bool, d: string, k: nat, x: nat)
    requires k <= |d| && x <= |Sign(negative)| + |d|
    ensures Full(negative, d, k)[x] == CharAt(negative, d, k, x)
  {
  }

  /** What the carry leaves when it stops at position `w`: digits behind `w` turned from 9 to 0, one more at `w`. */
  ghost predicate Carried(s: seq<char>, t: seq<char>, w: nat, dot: nat, q: nat) {
    && |t| == |s| && w < q <= |s| && w != dot && dot < q
    && s[w] != '9'
    && (forall x :: w < x < q && x != dot ==> s[x] == '9')
    && (forall x :: 0 <= x < |s| ==> t[x] == if x == w then Succ(s[x]) else if w < x < q && x != dot then '0' else s[x])
  }

  lemma CarryStops(s: seq<char>, t: seq<char>, negative: bool, d: string, k: nat, w: nat)
    requires k <= |d| && Decimal(d) && Holds(s, negative, d, k)
    requires var o := |Sign(negative)|; o <= w && Carried(s, t, w, o + |d| - k, o + |d| + 1)
    ensures |Inc(d)| == |d| && Holds(t, negative, Inc(d), k)
  {
    hide Inc, Succ, Decimal;
    var o, n, dot := |Sign(negative)|, |d|, |Sign(negative)| + |d| - k;
    var j := if w < dot then w - o else w - o - 1;
    assert s[w] == d[j];
    forall m | j < m < n ensures d[m] == '9' {
      var x := if m < n - k then o + m else o + m + 1;
      assert s[x] == d[m];
    }
    IncStops(d, j);
    IncDigits(d, j);
  }

  lemma IncDigits(d: string, j: nat)
    requires j < |d| && Inc(d) == d[..j] + [Succ(d[j])] + Repeat('0', |d| - j - 1)
    ensures |Inc(d)| == |d|
    ensures forall m :: 0 <= m < |d| ==> Inc(d)[m] == if m < j then d[m] else if m == j then Succ(d[j]) else '0'
  {
  }

  /** When every digit was 9: all become 0, everything from the first digit on moves up, and a 1 is put in front. */
  lemma CarryGrows(t: seq<char>, negative: bool, d: string, k: nat)
    requires k <= |d| && (forall m :: 0 <= m < |d| ==> d[m] == '9')
    requires var o, n := |Sign(negative)|, |d|;
             && |t| >= o + n + 2
             && (forall x :: 0 <= x < o + n + 2 ==>
                   t[x] == (if x < o then '-' else if x == o then '1' else if x == o + n - k + 1 then '.' else '0'))
    ensures |Inc(d)| == |d| + 1 && Holds(t, negative, Inc(d), k)
  {
    IncGrows(d);
  }

  /** The carry over the digits behind the point; the point stops it. */
  method CarryFraction(dest: array<char>, q: nat, ghost dot: nat) returns (w: nat)
    requires dot < q - 1 < dest.Length && dest[dot] == '.' && forall x :: dot < x < q ==> '0' <= dest[x] <= '9'
    modifies dest
    ensures dot <= w < q && (w == dot <==> dest[w] == '.') && dest[w] != '9'
    ensures forall x :: 0 <= x < dest.Length ==> dest[x] == if w < x < q then '0' else old(dest[x])
    ensures forall x :: w < x < q ==> old(dest[..])[x] == '9'
    ensures old(dest[..])[w] == dest[w]
  {
    w := q - 1;
    while dest[w] == '9'
      invariant dot <= w < q
      invariant forall x :: 0 <= x < dest.Length ==> dest[x] == if w < x < q then '0' else old(dest[x])
      invariant forall x :: w < x < q ==> old(dest[..])[x] == '9'
      decreases w
    {
      dest[w] := '0';
      w := w - 1;
    }
  }

  /** The carry over the digits before the point; it stops at another digit, at the sign, or before the text. */
  method CarryInteger(dest: array<char>, dot: nat, ghost o: nat) returns (w: int)
    requires o < dot <= dest.Length && o <= 1 && (o == 1 ==> dest[0] == '-')
    modifies dest
    ensures o - 1 <= w < dot && (w >= o ==> dest[w] != '9')
    ensures forall x :: 0 <= x < dest.Length ==> dest[x] == if w < x < dot then '0' else old(dest[x])
    ensures forall x :: w < x < dot ==> old(dest[..])[x] == '9'
    ensures w >= 0 ==> old(dest[..])[w] == dest[w]
  {
    w := dot - 1;
    while w >= 0 && dest[w] == '9'
      invariant o - 1 <= w < dot
      invariant forall x :: 0 <= x < dest.Length ==> dest[x] == if w < x < dot then '0' else old(dest[x])
      invariant forall x :: w < x < dot ==> old(dest[..])[x] == '9'
    {
      dest[w] := '0';
      w := w - 1;
    }
  }

  /** `memmove(w + 1, w, end - w)`. */
  method MoveUp(dest: array<char>, w: nat, end: nat)
    requires w <= end < dest.Length
    modifies dest
    ensures forall x :: w < x <= end ==> dest[x] == old(dest[..])[x - 1]
    ensures forall x :: 0 <= x <= w || end < x < dest.Length ==> dest[x] == old(dest[x])
  {
    var x := end;
    ghost var s := dest[..];
    while x > w
      invariant w <= x <= end
      invariant forall y :: x < y <= end ==> dest[y] == s[y - 1]
      invariant forall y :: 0 <= y <= x || end < y < dest.Length ==> dest[y] == s[y]
    {
      dest[x] := dest[x - 1];
      x := x - 1;
    }
  }

  /** A 5 or more in the last place `q`: adds one to the digits before it, and returns the place behind the result. */
  method RoundUp(dest: array<char>, q: nat, ghost negative: bool, ghost d: string, ghost k: nat) returns (i: nat)
    requires k < |d| && Decimal(d) && Holds(dest[..], negative, d, k)
    requires q == |Sign(negative)| + |d| + 1 && q + 1 < dest.Length
    modifies dest
    ensures |Inc(d)| >= k && Holds(dest[..], negative, Inc(d), k) && i == |Sign(negative)| + |Inc(d)| + 1 <= q + 1
    ensures forall x :: q + 1 < x < dest.Length ==> dest[x] == old(dest[x])
  {
    hide Inc, Succ, Holds, CharAt;
    ghost var s, o, n := dest[..], |Sign(negative)|, |d|;
    ghost var dot := o + n - k;
    TextFacts(s, negative, d, k);
    i := q;
    var roundInt := false;
    var w: int := q - 1;
    if dest[w] != '.' {
      w := CarryFraction(dest, q, dot);
      if dest[w] != '.' {
        dest[w] := Succ(dest[w]);
        CarryStops(s, dest[..], negative, d, k, w);
      } else {
        roundInt := true;
      }
    } else {
      roundInt := true;
    }
    if roundInt {
      ghost var s1 := dest[..];
      w := CarryInteger(dest, w, o);
      if w >= 0 && dest[w] != '-' {
        dest[w] := Succ(dest[w]);
        CarryStops(s, dest[..], negative, d, k, w);
      } else {
        AllNines(s, negative, d, k);
        w := w + 1;
        MoveUp(dest, w, q + 1);
        dest[w] := '1';
        i := i + 1;
        CarryGrows(dest[..], negative, d, k);
        IncLonger(d);
      }
    }
  }

  lemma TextFacts(s: seq<char>, negative: bool, d: string, k: nat)
    requires k <= |d| && Decimal(d) && Holds(s, negative, d, k)
    ensures var o, n := |Sign(negative)|, |d|;
            && |s| > o + n && (negative ==> s[0] == '-') && s[o + n - k] == '.'
            && forall x :: o <= x <= o + n && x != o + n - k ==> '0' <= s[x] <= '9'
  {
  }

  lemma AllNines(s: seq<char>, negative: bool, d: string, k: nat)
    requires k <= |d| && Holds(s, negative, d, k)
    requires var o, n := |Sign(negative)|, |d|; forall x :: o <= x <= o + n && x != o + n - k ==> s[x] == '9'
    ensures forall m :: 0 <= m < |d| ==> d[m] == '9'
  {
    var o, n := |Sign(negative)|, |d|;
    forall m | 0 <= m < n ensures d[m] == '9' {
      var x := if m < n - k then o + m else o + m + 1;
      assert s[x] == CharAt(negative, d, k, x);
    }
  }

  lemma IncLonger(d: string)
    requires forall m :: 0 <= m < |d| ==> d[m] == '9'
    ensures |Inc(d)| == |d| + 1
  {
    IncGrows(d);
  }

  /** `_round_float`: `dest` holds "[-]I.F" in its first `size0` characters. */
  method Round(dest: array<char>, size0: nat, ghost negative: bool, ghost ip: string, ghost fp: string) returns (size: nat)
    requires Decimal(ip) && Decimal(fp) && |ip| > 0 && |fp| > 0
    requires size0 < dest.Length && dest[..size0] == Sign(negative) + ip + "." + fp
    modifies dest
    ensures size <= size0 && dest[..size] == Rounded(negative, ip, fp)
    ensures forall x :: size0 < x < dest.Length ==> dest[x] == old(dest[x])
  {
    hide Inc, Rounded, Holds;
    ghost var k, d := |fp| - 1, ip + fp[..|fp| - 1];
    RoundedDigits(negative, ip, fp);
    LastDropped(dest[..], size0, negative, ip, fp);
    var i := size0 - 1;
    ghost var e := if fp[k] >= '5' then Inc(d) else d;
    if dest[i] >= '5' {
      IncShape(d);
      i := RoundUp(dest, i, negative, d, k);
    }
    PointDropped(dest[..], negative, e, k);
    if dest[i - 1] == '.' {
      i := i - 1;
    }
    size := i;
  }

  /** The text without its last digit is the other digits with one less behind the point. */
  lemma LastDropped(t: seq<char>, size0: nat, negative: bool, ip: string, fp: string)
    requires Decimal(ip) && Decimal(fp) && |ip| > 0 && |fp| > 0 && size0 <= |t|
    requires t[..size0] == Sign(negative) + ip + "." + fp
    ensures var d, k := ip + fp[..|fp| - 1], |fp| - 1;
            Decimal(d) && size0 == |Sign(negative)| + |d| + 2 && Holds(t, negative, d, k) && t[size0 - 1] == fp[k]
  {
    var d, k := ip + fp[..|fp| - 1], |fp| - 1;
    forall x | 0 <= x <= |Sign(negative)| + |d| ensures t[x] == CharAt(negative, d, k, x) {
      assert t[x] == t[..size0][x];
    }
    assert t[size0 - 1] == t[..size0][size0 - 1];
  }

  /** The point is the last character exactly when no digit is left behind it; without it the text is `Text`. */
  lemma PointDropped(t: seq<char>, negative: bool, e: string, k: nat)
    requires k <= |e| && Holds(t, negative, e, k) && |e| > 0 && Decimal(e)
    ensures var i := |Sign(negative)| + |e| + 1;
            && (t[i - 1] == '.' <==> k == 0)
            && t[..if k == 0 then i - 1 else i] == Text(negative, e, k)
  {
    var i := |Sign(negative)| + |e| + 1;
    assert t[i - 1] == CharAt(negative, e, k, i - 1);
    HoldsFull(t, negative, e, k);
    hide Full;
    FullIsText(negative, e, k);
    assert t[..i] == Full(negative, e, k);
    assert t[..i - 1] == t[..i][..i - 1];
  }

  lemma FullIsText(negative: bool, e: string, k: nat)
    requires k <= |e|
    ensures if k == 0 then Full(negative, e, k)[..|Sign(negative)| + |e|] == Text(negative, e, k) else Full(negative, e, k) == Text(negative, e, k)
  {
    var a, b := Sign(negative) + e[..|e| - k], e[|e| - k..];
    if k == 0 {
      assert e[..|e|] == e;
      assert a + "" == a;
    } else {
      assert a + "." + b == a + ("." + b);
    }
  }

  // ---- the digits that are rounded ----

  lemma ZerosInFront(m: nat, digits: string, d: nat)
    requires digits == Numeral(m, 10, false)
    ensures PadTo(m, if d < F.ROOM then d else F.ROOM) == if d == 0 then digits else Repeat('0', Min(d, F.ROOM) - |digits|) + digits
  {
    hide Numeral, Repeat;
    if d == 0 {
      RepeatNone('0', 0 - |digits|);
      assert [] + digits == digits;
    }
  }

  ghost function ItoText(x: int, d: nat): string {
    Sign(x < 0) + PadTo(if x < 0 then -x else x, if d < F.ROOM then d else F.ROOM)
  }

  /** The digits of a magnitude with their zeros, at the end of the buffer. */
  method PutPadded(buffer: array<char>, m: nat, d: nat) returns (p: int)
    requires buffer.Length == F.ROOM + 1 && m < WORD_LIMIT
    modifies buffer
    ensures 0 <= p < F.ROOM && buffer[p + 1..] == PadTo(m, if d < F.ROOM then d else F.ROOM)
  {
    hide Numeral, Repeat, PadTo;
    p := P.PutDigits(buffer, m, 10, false);
    ZerosInFront(m, buffer[p + 1..], d);
    if d != 0 {
      p := P.Fill(buffer, p, '0', d);
    }
  }

  /** `_itostr`: writes `x` at position `at` with at least `d` digits, as far as the 64-byte buffer goes. */
  method ItoStr(x: int, s: array<char>, at: nat, d: nat) returns (n: nat)
    requires -0x8000_0000 < x < 0x8000_0000
    requires at + |ItoText(x, d)| <= s.Length
    modifies s
    ensures var t := ItoText(x, d);
            n == |t| && at + n <= s.Length && s[at..at + n] == t
    ensures forall k :: 0 <= k < s.Length && !(at <= k < at + n) ==> s[k] == old(s[k])
  {
    hide Numeral, Repeat, PadTo;
    var buffer := new char[64];
    var p := PutPadded(buffer, if x < 0 then -x else x, d);
    ghost var tail := buffer[p + 1..];
    if x < 0 {
      P.PutBack(buffer, p, '-');
      p := p - 1;
    }
    assert buffer[p + 1..] == Sign(x < 0) + tail;
    n := CopyTail(buffer, p + 1, s, at);
  }

  method CopyTail(buffer: array<char>, from: nat, s: array<char>, at: nat) returns (n: nat)
    requires buffer != s && from <= buffer.Length && at + (buffer.Length - from) <= s.Length
    modifies s
    ensures n == buffer.Length - from && s[at..at + n] == buffer[from..]
    ensures forall k :: 0 <= k < s.Length && !(at <= k < at + n) ==> s[k] == old(s[k])
  {
    n := 0;
    while from + n < buffer.Length
      invariant n <= buffer.Length - from
      invariant forall k :: at <= k < at + n ==> s[k] == buffer[from + (k - at)]
      invariant forall k :: 0 <= k < s.Length && !(at <= k < at + n) ==> s[k] == old(s[k])
    {
      s[at + n] := buffer[from + n];
      n := n + 1;
    }
  }

  /** What `_itostr` writes is a row of digits with the number's value, behind its sign. */
  lemma PaddedValue(n: nat, len: nat)
    ensures Decimal(PadTo(n, len)) && |PadTo(n, len)| > 0 && Val(PadTo(n, len), 10) == n
  {
    hide Val, Numeral;
    var d, z := Numeral(n, 10, false), len - |Numeral(n, 10, false)|;
    NumeralValue(n, 10, false);
    if z >= 0 {
      ValZeros(z, d, 10);
    } else {
      assert PadTo(n, len) == [] + d == d;
    }
    forall k | 0 <= k < |PadTo(n, len)| ensures '0' <= PadTo(n, len)[k] <= '9' {
      var c := PadTo(n, len)[k];
      if k >= z {
        assert c == d[if z > 0 then k - z else k];
        F.DecimalDigit(c);
      }
    }
  }

  /** It has the length asked for, or as many digits as the number needs. */
  lemma PaddedLength(n: nat, len: nat)
    ensures |PadTo(n, len)| >= len && (|PadTo(n, len)| > len && n > 0 ==> PadTo(n, len)[0] != '0')
  {
    hide Numeral;
    var d := Numeral(n, 10, false);
    if n > 0 {
      NoLeadingZero(n, 10, false);
    }
    RepeatNone('0', if len < |d| then len - |d| else 0);
    assert [] + d == d;
  }
}
