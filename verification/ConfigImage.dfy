/** The 4096-byte configuration image: a signature, the environment, and 27 stores at prefix-sum offsets. */
module ConfigImage {
  import opened Integers
  import opened Memory
  import opened Bits

  const SIGNATURE: seq<byte> := [65, 118, 86, 1]
  const SIGNATURE_SIZE := 16
  const ENV_SIZE := 16
  const OFFSET_STORES := SIGNATURE_SIZE + ENV_SIZE
  const SIZE := 4096
  const LAST := 27

  /** The part of the image the device keeps: where the last store ends. */
  const USED := 3984

  const STORE_SIZES: seq<nat> :=
    [96, 32, 64, 64, 32, 32, 480, 64, 32, 96, 48, 32, 944, 48, 64, 32, 96, 32, 1024, 32, 32, 64, 96, 32, 32, 320, 32]

  type Image = m: seq<byte> | |m| == SIZE witness seq(SIZE, _ => 0)

  // ---- layout ----

  function StoreSize(store: nat): (n: nat)
    requires store < LAST
    ensures 32 <= n
  {
    STORE_SIZES[store]
  }

  ghost function Offset(store: nat): nat
    requires store <= LAST
  {
    if store == 0 then OFFSET_STORES else Offset(store - 1) + StoreSize(store - 1)
  }

  lemma {:induction false} OffsetsOrdered(i: nat, j: nat)
    requires i < j <= LAST
    ensures OFFSET_STORES <= Offset(i) && Offset(i) + StoreSize(i) <= Offset(j)
    decreases j, i
  {
    hide StoreSize;
    if i > 0 {
      OffsetsOrdered(i - 1, i);
    }
    if i < j - 1 {
      OffsetsOrdered(i, j - 1);
    }
  }

  lemma UsedSize()
    ensures Offset(14) == 2096 && Offset(15) == 2160 && Offset(16) == 2192 && Offset(17) == 2288 && Offset(18) == 2320
    ensures Offset(19) == 3344 && Offset(20) == 3376 && Offset(21) == 3408 && Offset(22) == 3472 && Offset(23) == 3568
    ensures Offset(24) == 3600 && Offset(25) == 3632 && Offset(26) == 3952 && Offset(LAST) == USED
  {
    MiddleOffset();
    assert Offset(14) == 2096 && Offset(15) == 2160;
    assert Offset(16) == 2192 && Offset(17) == 2288 && Offset(18) == 2320 && Offset(19) == 3344 && Offset(20) == 3376;
    assert Offset(21) == 3408 && Offset(22) == 3472 && Offset(23) == 3568 && Offset(24) == 3600 && Offset(25) == 3632;
    assert Offset(26) == 3952;
  }

  /** Where the stores lie on the device. */
  lemma FirstOffsets()
    ensures Offset(0) == 32 && Offset(1) == 128 && Offset(2) == 160 && Offset(3) == 224 && Offset(4) == 288
    ensures Offset(5) == 320 && Offset(6) == 352 && Offset(7) == 832
  {
    assert Offset(4) == 288;
  }

  lemma MiddleOffset()
    ensures Offset(8) == 896 && Offset(9) == 928 && Offset(10) == 1024 && Offset(11) == 1072 && Offset(12) == 1104
    ensures Offset(13) == 2048
  {
    FirstOffsets();
    assert Offset(8) == 896 && Offset(9) == 928 && Offset(10) == 1024;
  }

  /** Every store lies between the environment and the end of the used part. */
  lemma StoreInside(i: nat)
    requires i < LAST
    ensures OFFSET_STORES <= Offset(i) && Offset(i) + StoreSize(i) <= Offset(LAST) == USED
  {
    hide StoreSize;
    OffsetsOrdered(i, LAST);
    UsedSize();
  }

  ghost function Slice(m: Image, store: nat): (s: seq<byte>)
    requires store < LAST
    ensures |s| == StoreSize(store)
  {
    StoreInside(store);
    m[Offset(store)..Offset(store) + StoreSize(store)]
  }

  // ---- writing ----

  ghost function Splice(m: seq<byte>, at: nat, data: seq<byte>): (r: seq<byte>)
    requires at + |data| <= |m|
    ensures |r| == |m|
  {
    m[..at] + data + m[at + |data|..]
  }

  /** The k-th byte of a little-endian word. */
  function ByteOf(w: nat, k: nat): byte
    requires k < 4
  {
    if k == 0 then w % 256 else if k == 1 then w / 256 % 256 else if k == 2 then w / 65536 % 256 else w / 16777216 % 256
  }

  function OrByte(a: byte, b: byte): byte {
    ByteBits();
    OrBits(a, b, 8)
  }

  lemma ByteBits()
    ensures Pow2(8) == 256
  {
    assert Pow2(4) == 16;
  }

  lemma OrZero(a: byte)
    ensures OrByte(a, 0) == a
  {
    ByteBits();
    OrNothing(a, 8);
  }

  /** `*p |= w` on the four bytes at `at`. */
  ghost function OrWord(m: seq<byte>, at: nat, w: nat): (r: seq<byte>)
    requires at + 4 <= |m|
    ensures |r| == |m|
  {
    Splice(m, at, [OrByte(m[at], ByteOf(w, 0)), OrByte(m[at + 1], ByteOf(w, 1)),
                   OrByte(m[at + 2], ByteOf(w, 2)), OrByte(m[at + 3], ByteOf(w, 3))])
  }

  /** Arguments of `Update` that the code's own asserts accept, with the set-list word inside the image. */
  ghost predicate UpdateOk(store: nat, off: nat, data: seq<byte>, setList: nat, offSet: nat) {
    store < LAST && off + |data| <= StoreSize(store) && setList < WORD_LIMIT && Offset(store) + offSet + 4 <= SIZE
  }

  ghost function UpdateSpec(m: Image, store: nat, off: nat, data: seq<byte>, setList: nat, offSet: nat): (r: Image)
    requires UpdateOk(store, off, data, setList, offSet)
  {
    StoreInside(store);
    var m' := Splice(m, Offset(store) + off, data);
    if m' == m then m else OrWord(m', Offset(store) + offSet, setList)
  }

  ghost function ResetSpec(m: Image, store: nat): (r: Image)
    requires store < LAST
  {
    StoreInside(store);
    Splice(m, Offset(store), [0, 0, 0, 0])
  }

  /** The set lists of the first `n` stores reset. */
  ghost function ResetLists(m: Image, n: nat): (r: Image)
    requires n <= LAST
  {
    if n == 0 then m else ResetSpec(ResetLists(m, n - 1), n - 1)
  }

  // ---- one store at a time ----

  /** The same update on a store that is an array of its own. */
  ghost function LocalUpdate(s: seq<byte>, off: nat, data: seq<byte>, setList: nat, offSet: nat): seq<byte>
    requires off + |data| <= |s| && offSet + 4 <= |s|
  {
    var s' := Splice(s, off, data);
    if s' == s then s else OrWord(s', offSet, setList)
  }

  /** What an operation on one store leaves alone: every other store, the signature, the environment and the tail. */
  ghost predicate OthersKept(m: Image, m': Image, store: nat) {
    && (forall j :: 0 <= j < LAST && j != store ==> Slice(m', j) == Slice(m, j))
    && m'[..OFFSET_STORES] == m[..OFFSET_STORES]
    && m'[USED..] == m[USED..]
  }

  /** A splice inside one window is that splice on the window, and no disjoint window changes. */
  lemma SpliceWindow(m: seq<byte>, lo: nat, hi: nat, at: nat, data: seq<byte>)
    requires lo + at + |data| <= hi <= |m|
    ensures Splice(m, lo + at, data)[lo..hi] == Splice(m[lo..hi], at, data)
    ensures forall p, q :: 0 <= p <= q <= |m| && (q <= lo || hi <= p) ==> Splice(m, lo + at, data)[p..q] == m[p..q]
  {
    hide Splice;
    var r, w := Splice(m, lo + at, data), Splice(m[lo..hi], at, data);
    SpliceAt(m, lo + at, data);
    SpliceAt(m[lo..hi], at, data);
    forall k | 0 <= k < hi - lo ensures r[lo..hi][k] == w[k] {
      assert r[lo..hi][k] == r[lo + k] && m[lo..hi][k] == m[lo + k];
    }
  }

  lemma SpliceAt(m: seq<byte>, at: nat, data: seq<byte>)
    requires at + |data| <= |m|
    ensures forall x :: 0 <= x < |m| ==> Splice(m, at, data)[x] == if at <= x < at + |data| then data[x - at] else m[x]
  {
  }

  lemma SpliceInStore(m: Image, store: nat, at: nat, data: seq<byte>)
    requires store < LAST && at + |data| <= StoreSize(store)
    ensures Offset(store) + StoreSize(store) <= SIZE
    ensures var m' := Splice(m, Offset(store) + at, data);
            && Slice(m', store) == Splice(Slice(m, store), at, data) && OthersKept(m, m', store)
            && (m' == m <==> Slice(m', store) == Slice(m, store))
  {
    hide StoreSize, Offset, Splice;
    StoreInside(store);
    var lo, hi := Offset(store), Offset(store) + StoreSize(store);
    var m' := Splice(m, lo + at, data);
    SpliceWindow(m, lo, hi, at, data);
    forall j | 0 <= j < LAST && j != store ensures Slice(m', j) == Slice(m, j) {
      StoreInside(j);
      if j < store { OffsetsOrdered(j, store); } else { OffsetsOrdered(store, j); }
    }
    assert m'[..OFFSET_STORES] == m'[0..OFFSET_STORES] == m[0..OFFSET_STORES] == m[..OFFSET_STORES];
    assert m'[USED..] == m'[USED..|m|] == m[USED..|m|] == m[USED..];
    ThreeWindows(m, m', lo, hi);
  }

  lemma ThreeWindows(m: seq<byte>, m': seq<byte>, lo: nat, hi: nat)
    requires |m| == |m'| && lo <= hi <= |m|
    requires m'[0..lo] == m[0..lo] && m'[hi..|m|] == m[hi..|m|]
    ensures m' == m <==> m'[lo..hi] == m[lo..hi]
  {
    assert m == m[0..lo] + m[lo..hi] + m[hi..|m|];
    assert m' == m'[0..lo] + m'[lo..hi] + m'[hi..|m|];
  }

  /** The flat image with prefix-sum offsets behaves as 27 independent arrays: an update of one store is that
      update on its own array, and nothing else moves. */
  lemma UpdateRefinesStores(m: Image, store: nat, off: nat, data: seq<byte>, setList: nat, offSet: nat)
    requires UpdateOk(store, off, data, setList, offSet) && offSet + 4 <= StoreSize(store)
    ensures var m' := UpdateSpec(m, store, off, data, setList, offSet);
            && Slice(m', store) == LocalUpdate(Slice(m, store), off, data, setList, offSet)
            && OthersKept(m, m', store)
  {
    hide StoreSize, Offset, Splice, ByteOf, OrByte;
    StoreInside(store);
    var m1 := Splice(m, Offset(store) + off, data);
    SpliceInStore(m, store, off, data);
    var at := Offset(store) + offSet;
    var word := [OrByte(m1[at], ByteOf(setList, 0)), OrByte(m1[at + 1], ByteOf(setList, 1)),
                 OrByte(m1[at + 2], ByteOf(setList, 2)), OrByte(m1[at + 3], ByteOf(setList, 3))];
    SpliceInStore(m1, store, offSet, word);
  }

  lemma ResetRefinesStores(m: Image, store: nat)
    requires store < LAST
    ensures var m' := ResetSpec(m, store);
            Slice(m', store) == Splice(Slice(m, store), 0, [0, 0, 0, 0]) && OthersKept(m, m', store)
  {
    hide StoreSize, Offset, Splice;
    StoreInside(store);
    SpliceInStore(m, store, 0, [0, 0, 0, 0]);
  }

  // ---- set lists ----

  /** The bits of a word are those of its bytes, the lowest first. */
  lemma WordBit(m: seq<byte>, at: nat, q: nat, j: nat)
    requires at + 4 <= |m| && q < 4 && j < 8
    ensures Bit(Word(m, at), 8 * q + j) <==> Bit(m[at + q], j)
  {
    var w2: nat := m[at + 2] as int + 256 * m[at + 3] as int;
    var w1: nat := m[at + 1] as int + 256 * w2;
    assert Word(m, at) == m[at] as int + 256 * w1;
    PickBit(Word(m, at), m[at], w1, q, j);
    if q > 0 {
      PickBit(w1, m[at + 1], w2, q - 1, j);
    }
    if q > 1 {
      PickBit(w2, m[at + 2], m[at + 3], q - 2, j);
    }
  }

  lemma ByteBit(w: nat, q: nat, j: nat)
    requires q < 4 && j < 8
    ensures Bit(ByteOf(w, q), j) <==> Bit(w, 8 * q + j)
  {
    var w1 := w / 256;
    var w2 := w1 / 256;
    var w3 := w2 / 256;
    assert w2 == w / 65536 && w3 == w / 16777216;
    PickBit(w, w % 256, w1, q, j);
    if q > 0 {
      PickBit(w1, w1 % 256, w2, q - 1, j);
    }
    if q > 1 {
      PickBit(w2, w2 % 256, w3, q - 2, j);
    }
    if q > 2 {
      PickBit(w3, w3 % 256, w3 / 256, 0, j);
    }
  }

  /** Below 8 a bit of a number is one of its lowest byte, and from there on one of the rest. */
  lemma PickBit(w: nat, low: byte, high: nat, q: nat, j: nat)
    requires w == low as int + 256 * high && j < 8
    ensures Bit(w, 8 * q + j) == if q == 0 then Bit(low, j) else Bit(high, 8 * (q - 1) + j)
  {
    ByteBits();
    if q == 0 {
      LowBit(low, high, 8, j);
    } else {
      HighBit(low, high, 8, 8 * (q - 1) + j);
    }
  }

  lemma OrWordBit(m: seq<byte>, at: nat, w: nat, k: nat)
    requires at + 4 <= |m| && k < 32
    ensures Bit(Word(OrWord(m, at, w), at), k) <==> Bit(Word(m, at), k) || Bit(w, k)
  {
    hide Word, Bit, Splice;
    var q, j := k / 8, k % 8;
    OrWordAt(m, at, w, at + q);
    WordBit(m, at, q, j);
    WordBit(OrWord(m, at, w), at, q, j);
    ByteBit(w, q, j);
    OrHasBit(m[at + q], ByteOf(w, q), 8, j);
  }

  lemma OrWordAt(m: seq<byte>, at: nat, w: nat, x: nat)
    requires at + 4 <= |m| && x < |m|
    ensures OrWord(m, at, w)[x] == if at <= x < at + 4 then OrByte(m[x], ByteOf(w, x - at)) else m[x]
  {
    hide OrByte, ByteOf;
  }

  lemma PartOfSlice(m: seq<byte>, lo: nat, hi: nat, a: nat, b: nat)
    requires a <= b && lo + b <= hi <= |m|
    ensures m[lo..hi][a..b] == m[lo + a..lo + b]
  {
    var s, t := m[lo..hi][a..b], m[lo + a..lo + b];
    assert |s| == |t| && forall k :: 0 <= k < |s| ==> s[k] == m[lo..hi][a + k] == m[lo + a + k] == t[k];
  }

  /** Writing other bytes than are there makes a difference, and writing the same none. */
  lemma SpliceChanges(m: seq<byte>, at: nat, data: seq<byte>)
    requires at + |data| <= |m|
    ensures Splice(m, at, data) == m <==> m[at..at + |data|] == data
  {
    assert Splice(m, at, data)[at..at + |data|] == data;
    assert m == m[..at] + m[at..at + |data|] + m[at + |data|..];
  }

  /** An update that changes a byte adds bits to the set list: after it a bit of that word is set exactly when it was
      set once the data had been written, or is one of those given. */
  lemma SetListBits(m: Image, store: nat, off: nat, data: seq<byte>, setList: nat, offSet: nat, k: nat)
    requires UpdateOk(store, off, data, setList, offSet) && k < 32
    requires Slice(m, store)[off..off + |data|] != data
    ensures var at := Offset(store) + offSet;
            Offset(store) + off + |data| <= SIZE
            && (Bit(Word(UpdateSpec(m, store, off, data, setList, offSet), at), k)
                <==> Bit(Word(Splice(m, Offset(store) + off, data), at), k) || Bit(setList, k))
  {
    hide StoreSize, Offset, OrWord, Word, Bit, Splice;
    StoreInside(store);
    var at := Offset(store) + off;
    var m1 := Splice(m, at, data);
    PartOfSlice(m, Offset(store), Offset(store) + StoreSize(store), off, off + |data|);
    SpliceChanges(m, at, data);
    OrWordBit(m1, Offset(store) + offSet, setList, k);
  }

  /** What an update that changes a byte leaves outside that word: the data in their place, all other bytes as before. */
  lemma UpdateBytes(m: Image, store: nat, off: nat, data: seq<byte>, setList: nat, offSet: nat, x: nat)
    requires UpdateOk(store, off, data, setList, offSet) && x < SIZE
    requires !(Offset(store) + offSet <= x < Offset(store) + offSet + 4)
    ensures var at := Offset(store) + off;
            UpdateSpec(m, store, off, data, setList, offSet)[x] == if at <= x < at + |data| then data[x - at] else m[x]
  {
    hide StoreSize, Offset, OrWord;
    StoreInside(store);
    OrWordAt(Splice(m, Offset(store) + off, data), Offset(store) + offSet, setList, x);
  }

  /** An update whose data are there already changes nothing, set list included. */
  lemma SameDataChangesNothing(m: Image, store: nat, off: nat, data: seq<byte>, setList: nat, offSet: nat)
    requires UpdateOk(store, off, data, setList, offSet) && Slice(m, store)[off..off + |data|] == data
    ensures Offset(store) + off + |data| <= SIZE
    ensures Splice(m, Offset(store) + off, data) == m && UpdateSpec(m, store, off, data, setList, offSet) == m
  {
    hide StoreSize, Offset, OrWord, Splice;
    StoreInside(store);
    var at := Offset(store) + off;
    PartOfSlice(m, Offset(store), Offset(store) + StoreSize(store), off, off + |data|);
    SpliceChanges(m, at, data);
  }

  /** A bit once set stays set through every update that does not overwrite its byte. */
  lemma BitSurvives(m: Image, store: nat, off: nat, data: seq<byte>, setList: nat, offSet: nat, x: nat, j: nat)
    requires UpdateOk(store, off, data, setList, offSet) && x < SIZE && j < 8 && Bit(m[x], j)
    requires !(Offset(store) + off <= x < Offset(store) + off + |data|)
    ensures Bit(UpdateSpec(m, store, off, data, setList, offSet)[x], j)
  {
    hide StoreSize, Offset, OrWord, Bit;
    StoreInside(store);
    var m1 := Splice(m, Offset(store) + off, data);
    var at := Offset(store) + offSet;
    assert m1[x] == m[x];
    OrWordAt(m1, at, setList, x);
    if at <= x < at + 4 {
      OrHasBit(m1[x], ByteOf(setList, x - at), 8, j);
    }
  }

  // ---- Copy ----

  ghost predicate AllZero(s: seq<byte>) {
    forall k :: 0 <= k < |s| ==> s[k] == 0
  }

  ghost predicate CopyOk(store: nat, buffer: seq<byte>, off: nat) {
    store < LAST && |buffer| + off <= StoreSize(store)
  }

  /** Image and caller's buffer after `Copy`. An empty slice is seeded from the buffer, always at offset 0. */
  ghost function CopySpec(m: Image, store: nat, buffer: seq<byte>, off: nat, doUpdate: bool): (r: (Image, seq<byte>))
    requires CopyOk(store, buffer, off)
  {
    StoreInside(store);
    var s := Slice(m, store)[off..off + |buffer|];
    if !AllZero(s) then (m, s)
    else if doUpdate then (UpdateSpec(m, store, 0, buffer, 0, 0), buffer)
    else (m, buffer)
  }

  lemma OrWordZero(m: seq<byte>, at: nat)
    requires at + 4 <= |m|
    ensures OrWord(m, at, 0) == m
  {
    OrZero(m[at]);
    OrZero(m[at + 1]);
    OrZero(m[at + 2]);
    OrZero(m[at + 3]);
  }

  lemma UpdateWithoutBits(m: Image, store: nat, off: nat, data: seq<byte>)
    requires UpdateOk(store, off, data, 0, 0)
    ensures Offset(store) + off + |data| <= SIZE
    ensures UpdateSpec(m, store, off, data, 0, 0) == Splice(m, Offset(store) + off, data)
    ensures Slice(UpdateSpec(m, store, off, data, 0, 0), store) == Splice(Slice(m, store), off, data)
  {
    hide StoreSize, Offset, Splice, OrWord;
    StoreInside(store);
    SpliceInStore(m, store, off, data);
    OrWordZero(Splice(m, Offset(store) + off, data), Offset(store));
  }

  /** Reading back what was written: it comes back, whatever the buffer held, if and only if it is not all zero or
      there is nothing of it. */
  lemma UpdateThenCopy(m: Image, store: nat, off: nat, data: seq<byte>, doUpdate: bool)
    requires UpdateOk(store, off, data, 0, 0)
    ensures (forall buffer: seq<byte> | |buffer| == |data| ::
               CopySpec(UpdateSpec(m, store, off, data, 0, 0), store, buffer, off, doUpdate).1 == data)
        <==> !AllZero(data) || data == []
  {
    hide StoreSize, Offset, OrWord, UpdateSpec;
    UpdateWithoutBits(m, store, off, data);
    var m' := UpdateSpec(m, store, off, data, 0, 0);
    assert Slice(m', store)[off..off + |data|] == data;
    if AllZero(data) && data != [] {
      var ones := seq(|data|, _ => 1);
      assert ones[0] != data[0];
      assert CopySpec(m', store, ones, off, doUpdate).1 == ones;
    }
  }

  /** What is read when the data was not all zero, and that the image stays. */
  lemma UpdateRead(m: Image, store: nat, off: nat, data: seq<byte>, buffer: seq<byte>, doUpdate: bool)
    requires UpdateOk(store, off, data, 0, 0) && !AllZero(data) && |buffer| == |data|
    ensures var m' := UpdateSpec(m, store, off, data, 0, 0);
            CopySpec(m', store, buffer, off, doUpdate) == (m', data)
  {
    hide StoreSize, Offset, OrWord, UpdateSpec;
    UpdateWithoutBits(m, store, off, data);
    assert Splice(Slice(m, store), off, data)[off..off + |data|] == data;
  }

  /** An update with zeros is undone by the next Copy that may seed: the caller's buffer, with whatever it held before,
      takes the place of the zeros at the start of the store. */
  lemma ZerosUndone(m: Image, store: nat, off: nat, data: seq<byte>, buffer: seq<byte>)
    requires UpdateOk(store, off, data, 0, 0) && AllZero(data) && |buffer| == |data|
    ensures var m1 := UpdateSpec(m, store, off, data, 0, 0);
            var (m2, b) := CopySpec(m1, store, buffer, off, true);
            && b == buffer && Slice(m2, store) == Splice(Slice(m1, store), 0, buffer)
            && Slice(m2, store)[..|data|] == buffer
  {
    hide StoreSize, Offset, OrWord, UpdateSpec;
    UpdateWithoutBits(m, store, off, data);
    var m1 := UpdateSpec(m, store, off, data, 0, 0);
    assert Slice(m1, store)[off..off + |data|] == data;
    UpdateWithoutBits(m1, store, 0, buffer);
  }

  /** For one: a zero written to the first store reads back as whatever byte the caller's buffer held. */
  lemma ZeroReadsBackWrong(m: Image)
    ensures UpdateOk(0, 0, [0], 0, 0)
    ensures CopySpec(UpdateSpec(m, 0, 0, [0], 0, 0), 0, [1], 0, true).1 == [1]
  {
    ZerosUndone(m, 0, 0, [0], [1]);
  }

  ghost predicate Agree(m: Image, store: nat, buffer: seq<byte>, off: nat)
    requires CopyOk(store, buffer, off)
  {
    Slice(m, store)[off..off + |buffer|] == buffer
  }

  /** Copy leaves the caller's buffer equal to the slice it asked for, whatever the buffer held, exactly when the
      slice holds data, or it is empty and seeded at offset 0 (Copy always seeds at offset 0), or there is
      nothing to copy. */
  lemma CopyAgrees(m: Image, store: nat, n: nat, off: nat, doUpdate: bool)
    requires store < LAST && n + off <= StoreSize(store)
    ensures (forall buffer: seq<byte> :: |buffer| == n ==>
               var (m', b) := CopySpec(m, store, buffer, off, doUpdate); |b| == n && Agree(m', store, b, off))
        <==> !AllZero(Slice(m, store)[off..off + n]) || (doUpdate && off == 0) || n == 0
  {
    hide StoreSize, Offset, OrWord, UpdateSpec, Slice;
    StoreInside(store);
    var s := Slice(m, store)[off..off + n];
    forall buffer: seq<byte> | |buffer| == n && (!AllZero(s) || (doUpdate && off == 0) || n == 0)
      ensures var (m', b) := CopySpec(m, store, buffer, off, doUpdate); |b| == n && Agree(m', store, b, off)
    {
      if AllZero(s) && doUpdate && off == 0 {
        UpdateWithoutBits(m, store, 0, buffer);
      }
    }
    if AllZero(s) && !(doUpdate && off == 0) && n != 0 {
      var ones := seq(n, _ => 1);
      var (m', b) := CopySpec(m, store, ones, off, doUpdate);
      assert b == ones && b[n - 1] == 1;
      if doUpdate {
        UpdateWithoutBits(m, store, 0, ones);
      }
      assert Slice(m', store)[off..off + n][n - 1] == s[n - 1] == 0;
    }
  }

  lemma ReadsZero(m: Image, at: nat, n: nat)
    requires AllZero(m) && at + n <= SIZE
    ensures AllZero(m[at..at + n])
  {
  }

  /** For one: copying a byte at offset 4 of an empty first store seeds offset 0. */
  lemma CopyDisagrees()
    ensures var m: Image := seq(SIZE, _ => 0);
            var (m', b) := CopySpec(m, 0, [1], 4, true);
            b == [1] && Slice(m', 0)[0] == 1 && !Agree(m', 0, b, 4)
  {
    var m: Image := seq(SIZE, _ => 0);
    StoreInside(0);
    hide OrWord, UpdateSpec, Offset, StoreSize;
    ReadsZero(m, Offset(0), StoreSize(0));
    UpdateWithoutBits(m, 0, 0, [1]);
    var s := Splice(Slice(m, 0), 0, [1]);
    assert s[0] == 1 && s[4] == 0;
    assert CopySpec(m, 0, [1], 4, true) == (UpdateSpec(m, 0, 0, [1], 0, 0), [1]);
  }
}
