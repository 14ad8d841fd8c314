/** Byte-addressed memory, read and written one byte or one little-endian 32-bit word at a time. */
module Memory {
  import opened Integers

  type byte = b: int | 0 <= b < 256

  /** The little-endian 32-bit word at address `a`. */
  function Word(m: seq<byte>, a: nat): (w: nat)
    requires a + 4 <= |m|
    ensures w < WORD_LIMIT
  {
    (m[a] as int) + 256 * (m[a + 1] as int) + 65536 * (m[a + 2] as int) + 16777216 * (m[a + 3] as int)
  }

  /** `m'` differs from `m` at most in [lo, hi). */
  ghost predicate SameOutside(m: seq<byte>, m': seq<byte>, lo: int, hi: int) {
    |m'| == |m| && forall x :: 0 <= x < |m| && !(lo <= x < hi) ==> m'[x] == m[x]
  }

  lemma SameOutsideMore(m: seq<byte>, m': seq<byte>, lo: int, hi: int, lo': int, hi': int)
    requires m' == m || (SameOutside(m, m', lo, hi) && lo' <= lo && hi <= hi')
    ensures SameOutside(m, m', lo', hi')
  {
  }

  lemma WordUnchanged(m: seq<byte>, m': seq<byte>, lo: int, hi: int, a: nat)
    requires SameOutside(m, m', lo, hi) && a + 4 <= |m| && (a + 4 <= lo || hi <= a)
    ensures Word(m', a) == Word(m, a)
  {
  }

  method LoadWord(mem: array<byte>, a: nat) returns (w: nat)
    requires a + 4 <= mem.Length
    ensures w == Word(mem[..], a)
  {
    w := (mem[a] as int) + 256 * (mem[a + 1] as int) + 65536 * (mem[a + 2] as int) + 16777216 * (mem[a + 3] as int);
  }

  method StoreWord(mem: array<byte>, a: nat, w: nat)
    requires a + 4 <= mem.Length && w < WORD_LIMIT
    modifies mem
    ensures Word(mem[..], a) == w
    ensures SameOutside(old(mem[..]), mem[..], a, a + 4)
  {
    var w1 := w / 256;
    var w2 := w1 / 256;
    var w3 := w2 / 256;
    mem[a], mem[a + 1], mem[a + 2], mem[a + 3] := w % 256, w1 % 256, w2 % 256, w3;
  }

  /** Clears `total` bytes from `dst`, word by word and then byte by byte. */
  method Clear(mem: array<byte>, dst: nat, total: nat)
    requires dst + total <= mem.Length
    modifies mem
    ensures SameOutside(old(mem[..]), mem[..], dst, dst + total)
    ensures forall x :: dst <= x < dst + total ==> mem[x] == 0
  {
    var d, left := dst, total;
    while left >= 4
      invariant d + left == dst + total && dst <= d
      invariant SameOutside(old(mem[..]), mem[..], dst, d)
      invariant forall x :: dst <= x < d ==> mem[x] == 0
    {
      mem[d], mem[d + 1], mem[d + 2], mem[d + 3] := 0, 0, 0, 0;
      d, left := d + 4, left - 4;
    }
    while left > 0
      invariant d + left == dst + total && dst <= d
      invariant SameOutside(old(mem[..]), mem[..], dst, d)
      invariant forall x :: dst <= x < d ==> mem[x] == 0
    {
      mem[d] := 0;
      d, left := d + 1, left - 1;
    }
  }

  /** `*dst32 = *src32`: the word is read before any of its bytes is written. */
  method CopyWord(mem: array<byte>, dst: nat, src: nat)
    requires dst + 4 <= mem.Length && src + 4 <= mem.Length
    modifies mem
    ensures SameOutside(old(mem[..]), mem[..], dst, dst + 4)
    ensures forall x :: dst <= x < dst + 4 ==> mem[x] == old(mem[..])[x - dst + src]
  {
    mem[dst], mem[dst + 1], mem[dst + 2], mem[dst + 3] := mem[src], mem[src + 1], mem[src + 2], mem[src + 3];
  }

  /** The first `k` bytes have been copied, as far as they belong to the first `keep`, and nothing else was written. */
  ghost predicate Copied(m0: seq<byte>, m: seq<byte>, dst: nat, src: nat, k: nat, keep: nat)
    requires src + keep <= |m0|
  {
    && SameOutside(m0, m, dst, dst + k)
    && forall x :: dst <= x < dst + k && x < dst + keep && x < |m| ==> m[x] == m0[x - dst + src]
  }

  /** Copying `n` more bytes; those that count still are what they were. */
  lemma CopiedMore(m0: seq<byte>, m: seq<byte>, m': seq<byte>, dst: nat, src: nat, k: nat, n: nat, keep: nat)
    requires src + keep <= |m0| && dst + k + n <= |m0| && src + k + n <= |m0|
    requires src + keep <= dst || dst + k + n <= src
    requires Copied(m0, m, dst, src, k, keep) && SameOutside(m, m', dst + k, dst + k + n)
    requires forall x :: dst + k <= x < dst + k + n ==> m'[x] == m[x - dst + src]
    ensures Copied(m0, m', dst, src, k + n, keep)
  {
  }

  lemma CopiedNone(m: seq<byte>, dst: nat, src: nat, keep: nat)
    requires src + keep <= |m|
    ensures Copied(m, m, dst, src, 0, keep)
  {
  }

  lemma CopiedAll(m0: seq<byte>, m: seq<byte>, dst: nat, src: nat, total: nat, keep: nat)
    requires src + keep <= |m0| && keep <= total && dst + total <= |m0| && Copied(m0, m, dst, src, total, keep)
    ensures SameOutside(m0, m, dst, dst + total) && |m| == |m0| && m[dst..dst + keep] == m0[src..src + keep]
  {
  }

  method CopyByte(mem: array<byte>, dst: nat, src: nat)
    requires dst < mem.Length && src < mem.Length
    modifies mem
    ensures SameOutside(old(mem[..]), mem[..], dst, dst + 1)
    ensures mem[dst] == old(mem[..])[src]
  {
    mem[dst] := mem[src];
  }

  /** Copies `total` bytes upwards, word by word and then byte by byte; each word is read before it is written.
      What lies behind the first `keep` bytes of the source may be overwritten on the way. */
  method CopyUp(mem: array<byte>, dst: nat, src: nat, total: nat, ghost keep: nat)
    requires dst + total <= mem.Length && src + total <= mem.Length
    requires keep <= total && (src + keep <= dst || dst + total <= src)
    modifies mem
    ensures SameOutside(old(mem[..]), mem[..], dst, dst + total)
    ensures mem[dst..dst + keep] == old(mem[src..src + keep])
  {
    hide Copied, SameOutside;
    ghost var m0 := mem[..];
    CopiedNone(m0, dst, src, keep);
    var k := 0;
    while total - k >= 4
      invariant k <= total && Copied(m0, mem[..], dst, src, k, keep)
    {
      ghost var m := mem[..];
      CopyWord(mem, dst + k, src + k);
      CopiedMore(m0, m, mem[..], dst, src, k, 4, keep);
      k := k + 4;
    }
    while k < total
      invariant k <= total && Copied(m0, mem[..], dst, src, k, keep)
    {
      ghost var m := mem[..];
      CopyByte(mem, dst + k, src + k);
      CopiedMore(m0, m, mem[..], dst, src, k, 1, keep);
      k := k + 1;
    }
    CopiedAll(m0, mem[..], dst, src, total, keep);
    assert mem[dst..dst + keep] == mem[..][dst..dst + keep] && old(mem[src..src + keep]) == m0[src..src + keep];
  }
}
