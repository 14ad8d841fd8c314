/** Loading the configuration image: signature check, erased set lists and erased environment. */
module ConfigBoot {
  import opened Integers
  import opened Memory
  import opened ConfigImage

  ghost predicate Ones(m: seq<byte>, at: nat)
    requires at + 4 <= |m|
  {
    m[at] == 255 && m[at + 1] == 255 && m[at + 2] == 255 && m[at + 3] == 255
  }

  /** A word that reads as erased flash, 0xFFFFFFFF, becomes 0. */
  ghost function ClearOnes(m: Image, at: nat): (r: Image)
    requires at + 4 <= SIZE
  {
    if Ones(m, at) then Splice(m, at, [0, 0, 0, 0]) else m
  }

  /** The set lists of the first `n` stores. */
  ghost function FixStores(m: Image, n: nat): (r: Image)
    requires n <= LAST
  {
    if n == 0 then m
    else
      StoreInside(n - 1);
      ClearOnes(FixStores(m, n - 1), Offset(n - 1))
  }

  /** Set lists, then the UTC offset, which -1 marks as erased. */
  ghost function Fixup(m: Image): (r: Image) {
    ClearOnes(FixStores(m, LAST), SIGNATURE_SIZE)
  }

  ghost predicate Signed(m: Image) {
    m[..4] == SIGNATURE
  }

  /** The image after loading `raw`, and whether it must be written back. */
  ghost function Boot(raw: Image): (r: (Image, bool)) {
    if Signed(raw) then (Fixup(raw), false)
    else
      var erased: Image := SIGNATURE + raw[4..SIGNATURE_SIZE] + seq(SIZE - SIGNATURE_SIZE, _ => 0);
      (Fixup(erased), true)
  }

  // ---- the used part alone decides ----

  ghost predicate SameUsed(m: Image, m': Image) {
    m[..USED] == m'[..USED]
  }

  lemma ClearOnesLocal(m: Image, m': Image, at: nat)
    requires SameUsed(m, m') && at + 4 <= USED
    ensures SameUsed(ClearOnes(m, at), ClearOnes(m', at))
  {
    assert forall k :: 0 <= k < USED ==> m[k] == m[..USED][k] == m'[..USED][k] == m'[k];
  }

  lemma {:induction false} FixStoresLocal(m: Image, m': Image, n: nat)
    requires SameUsed(m, m') && n <= LAST
    ensures SameUsed(FixStores(m, n), FixStores(m', n))
  {
    hide StoreSize, Offset, ClearOnes, SameUsed;
    if n > 0 {
      FixStoresLocal(m, m', n - 1);
      StoreInside(n - 1);
      ClearOnesLocal(FixStores(m, n - 1), FixStores(m', n - 1), Offset(n - 1));
    }
  }

  lemma FixupLocal(m: Image, m': Image)
    requires SameUsed(m, m')
    ensures SameUsed(Fixup(m), Fixup(m'))
  {
    FixStoresLocal(m, m', LAST);
    ClearOnesLocal(FixStores(m, LAST), FixStores(m', LAST), SIGNATURE_SIZE);
  }

  // ---- loading twice changes nothing more ----

  /** Fix-ups only replace bytes 0xFF by 0. */
  ghost predicate Lowered(m: Image, m': Image) {
    forall k :: 0 <= k < SIZE ==> m'[k] == m[k] || (m[k] == 255 && m'[k] == 0)
  }

  lemma ClearOnesLowers(m: Image, at: nat)
    requires at + 4 <= SIZE
    ensures Lowered(m, ClearOnes(m, at)) && !Ones(ClearOnes(m, at), at)
    ensures OFFSET_STORES <= at ==> ClearOnes(m, at)[..OFFSET_STORES] == m[..OFFSET_STORES]
  {
  }

  lemma {:induction false} FixStoresLowers(m: Image, n: nat)
    requires n <= LAST
    ensures Lowered(m, FixStores(m, n))
    ensures forall i :: 0 <= i < n ==> Offset(i) + 4 <= SIZE && !Ones(FixStores(m, n), Offset(i))
    ensures FixStores(m, n)[..OFFSET_STORES] == m[..OFFSET_STORES]
  {
    hide StoreSize, Offset, ClearOnes;
    if n > 0 {
      FixStoresLowers(m, n - 1);
      StoreInside(n - 1);
      ClearOnesLowers(FixStores(m, n - 1), Offset(n - 1));
    }
  }

  lemma {:induction false} FixStoresIdle(m: Image, n: nat)
    requires n <= LAST
    requires forall i :: 0 <= i < n ==> Offset(i) + 4 <= SIZE && !Ones(m, Offset(i))
    ensures FixStores(m, n) == m
  {
    hide StoreSize, Offset;
    if n > 0 {
      FixStoresIdle(m, n - 1);
    }
  }

  lemma FixupIdempotent(m: Image)
    ensures Fixup(Fixup(m)) == Fixup(m)
  {
    hide StoreSize, Offset, ClearOnes, FixStores;
    var f := FixStores(m, LAST);
    FixStoresLowers(m, LAST);
    ClearOnesLowers(f, SIGNATURE_SIZE);
    FixStoresIdle(Fixup(m), LAST);
    ClearOnesIdle(Fixup(m), SIGNATURE_SIZE);
  }

  lemma ClearOnesIdle(m: Image, at: nat)
    requires at + 4 <= SIZE && !Ones(m, at)
    ensures ClearOnes(m, at) == m
  {
  }

  lemma FixupSigned(m: Image)
    requires Signed(m)
    ensures Signed(Fixup(m))
  {
    hide StoreSize, Offset, FixStores;
    FixStoresLowers(m, LAST);
    var f := FixStores(m, LAST);
    assert f[..4] == f[..OFFSET_STORES][..4] == m[..OFFSET_STORES][..4] == m[..4];
  }

  // ---- what loading gives, byte by byte ----

  /** Word `n` of those that loading repairs: the set lists in order, and the UTC offset. */
  ghost function Repaired(n: nat): (at: nat)
    requires n <= LAST
    ensures SIGNATURE_SIZE <= at && at + 4 <= USED
  {
    if n < LAST then
      StoreInside(n);
      Offset(n)
    else SIGNATURE_SIZE
  }

  /** Byte `k` belongs to one of the first `n` words, and that word reads as erased. */
  ghost predicate InErasedWord(m: Image, k: nat, n: nat)
    requires n <= LAST + 1
  {
    exists i :: 0 <= i < n && Repaired(i) <= k < Repaired(i) + 4 && Word(m, Repaired(i)) == 0xFFFF_FFFF
  }

  lemma OnesAreErased(m: seq<byte>, at: nat)
    requires at + 4 <= |m|
    ensures Ones(m, at) <==> Word(m, at) == 0xFFFF_FFFF
  {
  }

  lemma RepairedApart(i: nat, n: nat)
    requires i < n <= LAST
    ensures Repaired(i) + 4 <= Repaired(n) || Repaired(n) + 4 <= Repaired(i)
  {
    hide StoreSize, Offset;
    if n < LAST {
      OffsetsOrdered(i, n);
    } else {
      StoreInside(i);
    }
  }

  /** One word more. */
  lemma RepairOne(m: Image, f: Image, n: nat, k: nat)
    requires n <= LAST && k < SIZE
    requires forall x :: 0 <= x < SIZE ==> f[x] == if InErasedWord(m, x, n) then 0 else m[x]
    ensures ClearOnes(f, Repaired(n))[k] == if InErasedWord(m, k, n + 1) then 0 else m[k]
  {
    hide Repaired, Word;
    var at := Repaired(n);
    forall x | at <= x < at + 4 ensures f[x] == m[x] {
      forall i | 0 <= i < n ensures !(Repaired(i) <= x < Repaired(i) + 4) {
        RepairedApart(i, n);
      }
    }
    OnesAreErased(f, at);
    SameWord(m, f, at);
    ClearedAt(f, at, k);
    if at <= k < at + 4 && Word(m, at) == 0xFFFF_FFFF {
      assert InErasedWord(m, k, n + 1);
    } else {
      assert InErasedWord(m, k, n + 1) <==> InErasedWord(m, k, n);
    }
  }

  lemma SameWord(m: seq<byte>, f: seq<byte>, at: nat)
    requires at + 4 <= |m| == |f| && forall x :: at <= x < at + 4 ==> f[x] == m[x]
    ensures Word(f, at) == Word(m, at)
  {
  }

  lemma ClearedAt(m: Image, at: nat, k: nat)
    requires at + 4 <= SIZE && k < SIZE
    ensures ClearOnes(m, at)[k] == if Ones(m, at) && at <= k < at + 4 then 0 else m[k]
  {
  }

  lemma {:induction false} FixStoresAt(m: Image, n: nat)
    requires n <= LAST
    ensures forall k :: 0 <= k < SIZE ==> FixStores(m, n)[k] == if InErasedWord(m, k, n) then 0 else m[k]
  {
    hide ClearOnes, Word, InErasedWord, Offset, StoreSize;
    if n == 0 {
      forall k | 0 <= k < SIZE ensures !InErasedWord(m, k, 0) {
        NoneErased(m, k);
      }
    } else {
      FixStoresAt(m, n - 1);
      forall k | 0 <= k < SIZE ensures FixStores(m, n)[k] == if InErasedWord(m, k, n) then 0 else m[k] {
        RepairOne(m, FixStores(m, n - 1), n - 1, k);
      }
    }
  }

  lemma NoneErased(m: Image, k: nat)
    ensures !InErasedWord(m, k, 0)
  {
  }

  /** Loading an image that carries the signature: every set-list word and the UTC word that reads as erased becomes 0,
      every other byte stays, and no flush is asked for. */
  lemma BootSigned(raw: Image)
    requires raw[0] == 65 && raw[1] == 118 && raw[2] == 86 && raw[3] == 1
    ensures !Boot(raw).1
    ensures forall k :: 0 <= k < SIZE ==> Boot(raw).0[k] == if InErasedWord(raw, k, LAST + 1) then 0 else raw[k]
  {
    hide ClearOnes, InErasedWord, FixStores;
    assert raw[..4] == SIGNATURE;
    FixStoresAt(raw, LAST);
    forall k | 0 <= k < SIZE ensures Boot(raw).0[k] == if InErasedWord(raw, k, LAST + 1) then 0 else raw[k] {
      RepairOne(raw, FixStores(raw, LAST), LAST, k);
    }
  }

  /** Loading anything else: the signature is put in, the rest of its 16 bytes stay, everything behind them is 0, and a
      flush is asked for. */
  lemma BootUnsigned(raw: Image)
    requires !(raw[0] == 65 && raw[1] == 118 && raw[2] == 86 && raw[3] == 1)
    ensures Boot(raw).1
    ensures var m := Boot(raw).0;
            && m[0] == 65 && m[1] == 118 && m[2] == 86 && m[3] == 1
            && (forall k :: 4 <= k < 16 ==> m[k] == raw[k]) && (forall k :: 16 <= k < SIZE ==> m[k] == 0)
  {
    hide ClearOnes, FixStores, Offset, StoreSize;
    assert raw[..4][0] == raw[0] && raw[..4][1] == raw[1] && raw[..4][2] == raw[2] && raw[..4][3] == raw[3];
    var erased: Image := SIGNATURE + raw[4..SIGNATURE_SIZE] + seq(SIZE - SIGNATURE_SIZE, _ => 0);
    assert forall k :: 4 <= k < 16 ==> erased[k] == raw[k];
    forall i | 0 <= i < LAST ensures Offset(i) + 4 <= SIZE && !Ones(erased, Offset(i)) {
      StoreInside(i);
    }
    FixStoresIdle(erased, LAST);
    ClearOnesIdle(erased, SIGNATURE_SIZE);
  }

  // ---- the environment ----

  /** Two's-complement value of the little-endian word at `at`. */
  ghost function Signed32(m: seq<byte>, at: nat): int
    requires at + 4 <= |m|
  {
    var w := Word(m, at);
    if w < 0x8000_0000 then w else w - WORD_LIMIT
  }

  ghost function UtcOffset(m: Image): int {
    Signed32(m, SIGNATURE_SIZE)
  }

  ghost predicate IsInt32(n: int) {
    -0x8000_0000 <= n < 0x8000_0000
  }

  ghost function WithUtcOffset(m: Image, n: int): (r: Image)
    requires IsInt32(n)
  {
    var w := if n < 0 then n + WORD_LIMIT else n;
    Splice(m, SIGNATURE_SIZE, [ByteOf(w, 0), ByteOf(w, 1), ByteOf(w, 2), ByteOf(w, 3)])
  }

  lemma BytesOfWord(w: nat)
    requires w < WORD_LIMIT
    ensures Word([ByteOf(w, 0), ByteOf(w, 1), ByteOf(w, 2), ByteOf(w, 3)], 0) == w
  {
    var w1 := w / 256;
    var w2 := w1 / 256;
    assert w2 == w / 65536 && w2 / 256 == w / 16777216;
  }

  lemma UtcOffsetStored(m: Image, n: int)
    requires IsInt32(n)
    ensures UtcOffset(WithUtcOffset(m, n)) == n
    ensures forall k :: 0 <= k < SIZE && !(16 <= k < 20) ==> WithUtcOffset(m, n)[k] == m[k]
  {
    BytesOfWord(if n < 0 then n + WORD_LIMIT else n);
  }

  const HALF_HOURS: seq<(int, int)> :=
    [(-9, 30), (-3, 30), (3, 30), (4, 30), (5, 30), (5, 45), (6, 30), (8, 45), (9, 30), (10, 30), (12, 45)]

  /** hal::utc_validate: the offset in seconds of a time zone that exists. */
  function UtcValidate(hours: int, minutes: nat): (r: (bool, int))
    ensures r.0 ==> -50400 <= r.1 <= 50400
  {
    if !(-12 <= hours <= 14) then (false, 0)
    else if minutes == 0 then (true, hours * 3600)
    else if (hours, minutes) in HALF_HOURS then
      (true, if hours > 0 then hours * 3600 + minutes * 60 else hours * 3600 - minutes * 60)
    else (false, 0)
  }

  const ZONES: seq<real> := [-9.5, -3.5, 3.5, 4.5, 5.5, 5.75, 6.5, 8.75, 9.5, 10.5, 12.75]

  /** The cast of a real to an int. */
  function Truncated(f: real): int {
    if f < 0.0 then -(-f).Floor else f.Floor
  }

  /** The other form of hal::utc_validate, on fractional hours: 0 stands for a zone that does not exist, too. */
  function UtcValidateReal(f: real): int {
    var n := Truncated(f);
    if -12 <= n <= 14 && f == n as real then n * 3600
    else if -12 <= n <= 14 && f in ZONES then Truncated(f * 3600.0)
    else 0
  }

  /** The zone as minutes, the sign being that of the hours; below an hour it is taken as negative. */
  function ZoneMinutes(hours: int, minutes: nat): int {
    if hours > 0 then 60 * hours + minutes else 60 * hours - minutes
  }

  /** The two forms accept the same zones and give the same offsets. */
  lemma UtcFormsAgree(hours: int, minutes: nat)
    requires minutes < 60
    ensures var (ok, offset) := UtcValidate(hours, minutes);
            UtcValidateReal(ZoneMinutes(hours, minutes) as real / 60.0) == if ok then offset else 0
  {
    var z := ZoneMinutes(hours, minutes);
    HoursOfZone(hours, minutes);
    if minutes > 0 && -12 <= hours <= 14 {
      ZoneListed(hours, minutes);
      if (hours, minutes) in HALF_HOURS {
        assert z as real / 60.0 * 3600.0 == (60 * z) as real;
      }
    }
  }

  lemma HoursOfZone(hours: int, minutes: nat)
    requires minutes < 60
    ensures var f := ZoneMinutes(hours, minutes) as real / 60.0; Truncated(f) == hours && (f == hours as real <==> minutes == 0)
  {
    var z := ZoneMinutes(hours, minutes);
    var f := z as real / 60.0;
    if hours > 0 {
      FloorIs(f, hours);
    } else {
      FloorIs(-f, -hours);
    }
  }

  lemma FloorIs(f: real, n: int)
    requires n as real <= f < (n + 1) as real
    ensures f.Floor == n
  {
  }

  lemma ZoneListed(hours: int, minutes: nat)
    requires 0 < minutes < 60
    ensures ZoneMinutes(hours, minutes) as real / 60.0 in ZONES <==> (hours, minutes) in HALF_HOURS
  {
    var z := ZoneMinutes(hours, minutes);
    var f := z as real / 60.0;
    assert f * 60.0 == z as real;
    assert f in ZONES <==> z in [-570, -210, 210, 270, 330, 345, 390, 525, 570, 630, 765];
  }

  /** Hours and minutes of an offset; the seconds pass through an unsigned word and the minutes through a byte. */
  function HoursMinutes(offset: int): (int, nat) {
    var hours := Quotient(offset, 3600);
    var seconds := if hours > 0 then offset - hours * 3600 else hours * 3600 - offset;
    (hours, seconds % WORD_LIMIT / 60 % 256)
  }

  /** A time zone that was accepted reads back as the same hours and minutes. */
  lemma UtcRoundTrip(hours: int, minutes: nat)
    requires UtcValidate(hours, minutes).0
    ensures HoursMinutes(UtcValidate(hours, minutes).1) == (hours, minutes)
  {
    ZonesFit(hours, minutes);
    hide HoursMinutes;
    OffsetSplits(hours, minutes);
  }

  lemma ZonesFit(hours: int, minutes: nat)
    requires minutes == 0 || (hours, minutes) in HALF_HOURS
    ensures minutes < 60 && (minutes > 0 ==> hours != 0)
  {
  }

  lemma OffsetSplits(hours: int, minutes: nat)
    requires minutes < 60 && (minutes > 0 ==> hours != 0)
    ensures HoursMinutes(if hours > 0 then hours * 3600 + minutes * 60 else hours * 3600 - minutes * 60) == (hours, minutes)
  {
    WholeHours(if hours > 0 then hours else -hours, minutes * 60);
    MinutesOf(minutes);
    hide *;
    ToHoursMinutes(if hours > 0 then hours * 3600 + minutes * 60 else hours * 3600 - minutes * 60, hours, minutes);
  }

  lemma ToHoursMinutes(offset: int, hours: int, minutes: nat)
    requires Quotient(offset, 3600) == hours
    requires (if hours > 0 then offset - hours * 3600 else hours * 3600 - offset) == minutes * 60
    requires minutes * 60 % WORD_LIMIT / 60 % 256 == minutes
    ensures HoursMinutes(offset) == (hours, minutes)
  {
  }

  lemma WholeHours(h: int, seconds: nat)
    requires h >= 0 && seconds < 3600
    ensures Quotient(h * 3600 + seconds, 3600) == h && Quotient(-(h * 3600 + seconds), 3600) == -h
  {
    assert (h * 3600 + seconds) / 3600 == h;
  }

  lemma MinutesOf(minutes: nat)
    requires minutes < 60
    ensures minutes * 60 % WORD_LIMIT / 60 % 256 == minutes
  {
    assert minutes * 60 % WORD_LIMIT == minutes * 60;
  }
}
