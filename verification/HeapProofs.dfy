/** What every run of malloc and free keeps: tiling, ownership, and the high-water mark of each bucket. */
module HeapProofs {
  import opened Wrappers
  import opened HeapModel

  // ---- tiling ----

  lemma {:induction false} TiledOrdered(low: nat, blocks: seq<Block>, i: nat, j: nat)
    requires Tiled(low, blocks) && i <= j < |blocks|
    ensures i < j ==> blocks[i].addr + Extent(blocks[i].size) <= blocks[j].addr
    ensures blocks[i].addr <= blocks[j].addr
    ensures blocks[j].addr + Extent(blocks[j].size) <= End(low, blocks)
    decreases |blocks| - i
  {
    assert Adjoins(low, blocks, j);
    if j + 1 < |blocks| {
      assert Adjoins(low, blocks, j + 1);
      TiledOrdered(low, blocks, j + 1, |blocks| - 1);
    }
    if i < j {
      assert Adjoins(low, blocks, i + 1);
      TiledOrdered(low, blocks, i + 1, j);
    }
  }

  lemma {:induction false} TiledAligned(low: nat, blocks: seq<Block>, i: nat)
    requires Tiled(low, blocks) && i < |blocks| && low % 16 == 0
    ensures blocks[i].addr % 16 == 0 && low <= blocks[i].addr
  {
    assert Adjoins(low, blocks, i);
    if i > 0 {
      TiledAligned(low, blocks, i - 1);
      SumOfMultiples(blocks[i - 1].addr, Extent(blocks[i - 1].size));
    }
  }

  lemma SumOfMultiples(a: nat, e: nat)
    requires a % 16 == 0 && e % 16 == 0
    ensures (a + e) % 16 == 0
  {
  }

  // ---- every step keeps the invariant ----

  lemma BucketOfSize(c: Config, size: nat)
    requires GoodConfig(c)
    ensures Bucket(c, size) == Buckets(c) <==> Oversize(c, size)
    ensures size > 0 ==> Classified(c, Capacity(c, size))
    ensures forall j :: 0 <= j < Buckets(c) && c.table[j] == Capacity(c, size) ==> j == Bucket(c, size)
  {
    var j := Bucket(c, size);
    if j < Buckets(c) {
      assert c.table[j] >= size;
    }
  }

  lemma FreeIs(c: Config, h: Heap, i: nat)
    requires Inv(c, h) && i in h.live
    ensures forall j :: 0 <= j < Buckets(c) && c.table[j] == h.blocks[i].size ==>
              FreeSpec(c, h, i) == Heap(h.blocks, h.free[j := [i] + h.free[j]], h.live - {i})
    ensures (forall j :: 0 <= j < Buckets(c) ==> c.table[j] != h.blocks[i].size) ==>
              FreeSpec(c, h, i) == Heap(h.blocks, h.free, h.live - {i})
  {
  }

  /** The first block of a free list is on no other list and appears once. */
  lemma HeadIsAlone(c: Config, h: Heap, j: nat)
    requires Inv(c, h) && j < Buckets(c) && h.free[j] != []
    ensures h.free[j][0] !in h.free[j][1..]
    ensures forall b :: 0 <= b < Buckets(c) && b != j ==> h.free[j][0] !in h.free[b]
  {
    assert ListOk(c, h, j);
    forall b | 0 <= b < Buckets(c) && b != j ensures h.free[j][0] !in h.free[b] {
      assert ListOk(c, h, b);
      assert b < j ==> c.table[b] < c.table[j];
      assert j < b ==> c.table[j] < c.table[b];
    }
  }

  lemma RecycleKeepsInv(c: Config, h: Heap, j: nat)
    requires Inv(c, h) && j < Buckets(c) && h.free[j] != []
    ensures h.free[j][0] < |h.blocks|
    ensures Inv(c, Heap(h.blocks, h.free[j := h.free[j][1..]], h.live + {h.free[j][0]}))
  {
    var i := h.free[j][0];
    var h' := Heap(h.blocks, h.free[j := h.free[j][1..]], h.live + {i});
    HeadIsAlone(c, h, j);
    assert ListOk(c, h, j);
    forall b | 0 <= b < Buckets(c) ensures ListOk(c, h', b) {
      assert ListOk(c, h, b);
    }
    assert h.free[j] == [i] + h'.free[j];
    forall k | 0 <= k < |h'.blocks| ensures Owned(c, h', k) {
      assert Owned(c, h, k);
    }
  }

  lemma CarveKeepsInv(c: Config, h: Heap, size: nat)
    requires Inv(c, h) && Classified(c, size) && End(c.low, h.blocks) + Extent(size) <= c.top
    ensures Inv(c, Heap(h.blocks + [Block(End(c.low, h.blocks), size)], h.free, h.live + {|h.blocks|}))
  {
    var h' := Heap(h.blocks + [Block(End(c.low, h.blocks), size)], h.free, h.live + {|h.blocks|});
    forall i | 0 <= i < |h'.blocks| ensures Adjoins(c.low, h'.blocks, i) && Owned(c, h', i) {
      assert i < |h.blocks| ==> Adjoins(c.low, h.blocks, i) && Owned(c, h, i);
    }
    forall b | 0 <= b < Buckets(c) ensures ListOk(c, h', b) {
      assert ListOk(c, h, b);
    }
  }

  lemma MallocKeepsInv(c: Config, h: Heap, size: nat)
    requires Inv(c, h)
    ensures Inv(c, MallocSpec(c, h, size).0)
  {
    BucketOfSize(c, size);
    if size != 0 {
      if Recycles(c, h, size) {
        RecycleKeepsInv(c, h, Bucket(c, size));
      } else if MallocSpec(c, h, size).1.Some? {
        CarveKeepsInv(c, h, Capacity(c, size));
      }
    }
  }

  lemma FreeKeepsInv(c: Config, h: Heap, i: nat)
    requires Inv(c, h) && i in h.live
    ensures Inv(c, FreeSpec(c, h, i))
  {
    var h' := FreeSpec(c, h, i);
    forall b | 0 <= b < Buckets(c) ensures ListOk(c, h', b) {
      assert ListOk(c, h, b);
    }
    forall k | 0 <= k < |h'.blocks| ensures Owned(c, h', k) {
      assert Owned(c, h, k);
      forall j | 0 <= j < Buckets(c) && h.blocks[k].size == c.table[j] ensures k in h'.live || k in h'.free[j] {
        if k == i {
          assert h'.free[j][0] == i;
        } else if k in h.free[j] {
          assert h'.free[j] == h.free[j] || h'.free[j] == [i] + h.free[j];
        }
      }
    }
  }

  /** Every carved block is exactly one of: in use, at exactly one place on the free list of the bucket with
      its size and on no other list, or retired because no bucket has its size. */
  lemma OneOwner(c: Config, h: Heap, i: nat)
    requires Inv(c, h) && i < |h.blocks|
    ensures i in h.live || Retired(c, h, i) || exists j: nat, k: nat :: OnList(h, i, j, k)
    ensures !(i in h.live && Retired(c, h, i))
    ensures forall j: nat, k: nat :: OnList(h, i, j, k) ==>
                             && i !in h.live && !Retired(c, h, i)
                             && j < Buckets(c) && c.table[j] == h.blocks[i].size
                             && forall j': nat, k': nat :: OnList(h, i, j', k') ==> j' == j && k' == k
  {
    assert Owned(c, h, i);
    if i !in h.live && !Retired(c, h, i) {
      var j :| 0 <= j < Buckets(c) && c.table[j] == h.blocks[i].size;
      assert i in h.free[j];
      var k :| 0 <= k < |h.free[j]| && h.free[j][k] == i;
      assert OnList(h, i, j, k);
    }
    forall j: nat, k: nat, j': nat, k': nat | OnList(h, i, j, k) && OnList(h, i, j', k')
      ensures i !in h.live && c.table[j] == h.blocks[i].size && j' == j && k' == k
    {
      assert ListOk(c, h, j) && ListOk(c, h, j');
      assert c.table[j] == h.blocks[i].size == c.table[j'];
    }
  }

  ghost predicate OnList(h: Heap, i: nat, j: nat, k: nat) {
    j < |h.free| && k < |h.free[j]| && h.free[j][k] == i
  }

  /** What a successful or failing malloc means to its caller. */
  lemma MallocMeaning(c: Config, h: Heap, size: nat)
    requires Inv(c, h)
    ensures var (h', r) := MallocSpec(c, h, size);
            && h.blocks <= h'.blocks
            && (r.None? <==> size == 0 || (!Recycles(c, h, size) && End(c.low, h.blocks) + Extent(Capacity(c, size)) > c.top))
            && (r.None? ==> h' == h)
            && (r.Some? ==> r.value !in h.live && h'.live == h.live + {r.value} && h'.blocks[r.value].size == Capacity(c, size))
            && (r.Some? && Recycles(c, h, size) ==> h'.blocks == h.blocks)
  {
    var j := Bucket(c, size);
    if Recycles(c, h, size) {
      assert ListOk(c, h, j);
    }
  }

  /** The capacity a request of `size` bytes is due: the least table entry that is not below it, or just as many
      bytes when every entry is. */
  ghost predicate Due(c: Config, size: nat, s: nat) {
    if forall e :: e in c.table ==> e < size then s == size
    else s in c.table && size <= s && forall e :: e in c.table && size <= e ==> s <= e
  }

  lemma CapacityIsDue(c: Config, size: nat)
    requires GoodConfig(c) && size > 0
    ensures Due(c, size, Capacity(c, size))
  {
    var j := Bucket(c, size);
    if j < Buckets(c) {
      assert c.table[j] in c.table && size <= c.table[j];
      assert forall i :: 0 <= i < |c.table| && size <= c.table[i] ==> c.table[j] <= c.table[i];
    } else {
      forall e | e in c.table ensures e < size {
        var i :| 0 <= i < |c.table| && c.table[i] == e;
      }
    }
  }

  /** What is due is one number. */
  lemma DueIsOne(c: Config, size: nat, s: nat, s': nat)
    requires Due(c, size, s) && Due(c, size, s')
    ensures s == s'
  {
  }

  /** A block given back that is as large as one of the buckets. */
  ghost predicate Reusable(c: Config, h: Heap, s: nat, i: nat) {
    i < |h.blocks| && i !in h.live && h.blocks[i].size == s && s in c.table
  }

  /** What malloc gives, without reference to how it searches: a block with exactly the capacity due, unless nothing
      was asked for, or no block of that capacity was given back and a new one would not fit below the top. A new
      block starts where the last one ends, and the heap grows by its bytes. */
  lemma MallocGives(c: Config, h: Heap, size: nat, s: nat)
    requires Inv(c, h) && Due(c, size, s)
    ensures var (h', r) := MallocSpec(c, h, size);
            && (r.None? <==> size == 0 || ((forall i: nat :: !Reusable(c, h, s, i))
                                           && End(c.low, h.blocks) + (12 + s + 15) / 16 * 16 > c.top))
            && (r.Some? ==> h'.blocks[r.value].size == s && r.value in h'.live && r.value !in h.live)
            && (r.Some? && (exists i: nat :: Reusable(c, h, s, i)) ==> h'.blocks == h.blocks)
            && (r.Some? && (forall i: nat :: !Reusable(c, h, s, i)) ==> h'.blocks == h.blocks + [Block(End(c.low, h.blocks), s)])
  {
    if size > 0 {
      CapacityIsDue(c, size);
      DueIsOne(c, size, s, Capacity(c, size));
      BucketOfSize(c, size);
      ReusableIsFree(c, h, size);
      MallocMeaning(c, h, size);
    }
  }

  /** A block can be reused exactly when the list of its bucket is not empty. */
  lemma ReusableIsFree(c: Config, h: Heap, size: nat)
    requires Inv(c, h) && size > 0
    ensures (exists i: nat :: Reusable(c, h, Capacity(c, size), i)) <==> Recycles(c, h, size)
  {
    var j, s := Bucket(c, size), Capacity(c, size);
    BucketOfSize(c, size);
    if Recycles(c, h, size) {
      assert ListOk(c, h, j);
      assert Reusable(c, h, s, h.free[j][0]);
    }
    forall i: nat | Reusable(c, h, s, i) ensures Recycles(c, h, size) {
      ReusableRecycles(c, h, size, i);
    }
  }

  lemma ReusableRecycles(c: Config, h: Heap, size: nat, i: nat)
    requires Inv(c, h) && size > 0 && Reusable(c, h, Capacity(c, size), i)
    ensures Recycles(c, h, size)
  {
    BucketOfSize(c, size);
    assert Owned(c, h, i);
    var k :| 0 <= k < |c.table| && c.table[k] == Capacity(c, size);
    assert k == Bucket(c, size) && i in h.free[k];
  }

  /** The free lists are LIFO: asking again for the capacity just given back returns that very block and
      restores the bookkeeping exactly. */
  lemma MallocUndoesFree(c: Config, h: Heap, i: nat, size: nat)
    requires Inv(c, h) && i in h.live
    requires 0 < size && !Oversize(c, size) && h.blocks[i].size == Capacity(c, size)
    ensures Inv(c, FreeSpec(c, h, i))
    ensures MallocSpec(c, FreeSpec(c, h, i), size) == (h, Some(i))
  {
    FreeKeepsInv(c, h, i);
    BucketOfSize(c, size);
    var j := Bucket(c, size);
    var h' := FreeSpec(c, h, i);
    assert c.table[j] == h.blocks[i].size;
    assert h'.free == h.free[j := [i] + h.free[j]];
    assert h'.free[j][0] == i && h'.free[j][1..] == h.free[j];
    assert h'.free[j := h.free[j]] == h.free;
    assert (h.live - {i}) + {i} == h.live;
  }

  /** A block no bucket fits never comes back: freeing it retires it, and no later step changes that. */
  lemma RetiredForever(c: Config, h: Heap, h': Heap, i: nat)
    requires Inv(c, h) && Next(c, h, h') && i < |h.blocks| && Retired(c, h, i)
    ensures i < |h'.blocks| && h'.blocks[i] == h.blocks[i] && Retired(c, h', i)
  {
    if size :| h' == MallocSpec(c, h, size).0 {
      MallocMeaning(c, h, size);
      if Recycles(c, h, size) {
        assert ListOk(c, h, Bucket(c, size));
      }
    }
  }

  // ---- runs ----

  ghost predicate Next(c: Config, h: Heap, h': Heap)
    requires Inv(c, h)
  {
    || (exists size: nat :: h' == MallocSpec(c, h, size).0)
    || (exists i :: i in h.live && h' == FreeSpec(c, h, i))
  }

  ghost function Initial(c: Config): Heap
    requires GoodConfig(c)
  {
    Heap([], seq(Buckets(c), _ => []), {})
  }

  /** A run: from the empty heap, each state follows from the one before by one malloc or one free. */
  ghost predicate Run(c: Config, t: seq<Heap>) {
    && GoodConfig(c)
    && |t| > 0 && t[0] == Initial(c)
    && (forall n :: 0 <= n < |t| ==> Inv(c, t[n]))
    && forall n :: 0 < n < |t| ==> Next(c, t[n - 1], t[n])
  }

  lemma InitialInv(c: Config)
    requires GoodConfig(c)
    ensures Inv(c, Initial(c)) && Run(c, [Initial(c)])
  {
  }

  lemma RunExtends(c: Config, t: seq<Heap>, h: Heap)
    requires Run(c, t) && Next(c, t[|t| - 1], h)
    ensures Inv(c, h) && Run(c, t + [h])
  {
    hide MallocSpec, FreeSpec, Inv;
    var g := t[|t| - 1];
    if size :| h == MallocSpec(c, g, size).0 {
      MallocKeepsInv(c, g, size);
    } else {
      var i :| i in g.live && h == FreeSpec(c, g, i);
      FreeKeepsInv(c, g, i);
    }
  }

  lemma RunMalloc(c: Config, t: seq<Heap>, size: nat)
    requires Run(c, t)
    ensures Inv(c, t[|t| - 1])
    ensures var h := MallocSpec(c, t[|t| - 1], size).0; Inv(c, h) && Run(c, t + [h])
  {
    RunExtends(c, t, MallocSpec(c, t[|t| - 1], size).0);
  }

  lemma RunFree(c: Config, t: seq<Heap>, i: nat)
    requires Run(c, t) && i in t[|t| - 1].live
    ensures Inv(c, t[|t| - 1])
    ensures var h := FreeSpec(c, t[|t| - 1], i); Inv(c, h) && Run(c, t + [h])
  {
    RunExtends(c, t, FreeSpec(c, t[|t| - 1], i));
  }

  /** Blocks of capacity `size` among the first `n` carved. */
  ghost function CarvedCount(h: Heap, size: nat, n: nat): nat
    requires n <= |h.blocks|
  {
    if n == 0 then 0 else CarvedCount(h, size, n - 1) + if h.blocks[n - 1].size == size then 1 else 0
  }

  /** Blocks of capacity `size` in use among the first `n` carved. */
  ghost function InUse(h: Heap, size: nat, n: nat): nat
    requires n <= |h.blocks|
  {
    if n == 0 then 0 else InUse(h, size, n - 1) + if h.blocks[n - 1].size == size && n - 1 in h.live then 1 else 0
  }

  ghost function AllCarved(h: Heap, size: nat): nat { CarvedCount(h, size, |h.blocks|) }

  ghost function AllInUse(h: Heap, size: nat): nat { InUse(h, size, |h.blocks|) }

  /** Largest number of blocks of capacity `size` in use at the same time during the run. */
  ghost function Peak(t: seq<Heap>, size: nat): nat {
    if t == [] then 0
    else
      var p := Peak(t[..|t| - 1], size);
      var u := AllInUse(t[|t| - 1], size);
      if u > p then u else p
  }

  lemma {:induction false} PeakIsMaximum(t: seq<Heap>, size: nat)
    ensures forall n :: 0 <= n < |t| ==> AllInUse(t[n], size) <= Peak(t, size)
    ensures t != [] ==> exists n :: 0 <= n < |t| && AllInUse(t[n], size) == Peak(t, size)
  {
    if t != [] {
      var s := t[..|t| - 1];
      PeakIsMaximum(s, size);
      assert forall n :: 0 <= n < |s| ==> t[n] == s[n];
      if s != [] {
        var m :| 0 <= m < |s| && AllInUse(s[m], size) == Peak(s, size);
        assert t[m] == s[m];
      }
    }
  }

  lemma {:induction false} CountsAgree(h: Heap, h': Heap, size: nat, n: nat)
    requires n <= |h.blocks| && n <= |h'.blocks|
    requires forall i :: 0 <= i < n ==> h.blocks[i] == h'.blocks[i]
    ensures CarvedCount(h, size, n) == CarvedCount(h', size, n)
    ensures InUse(h, size, n) <= CarvedCount(h, size, n)
    ensures (forall i :: 0 <= i < n && h.blocks[i].size == size ==> i in h.live) ==> InUse(h, size, n) == CarvedCount(h, size, n)
  {
    if n > 0 {
      CountsAgree(h, h', size, n - 1);
    }
  }

  /** A block of capacity `s` is carved only when all of them are in use. */
  lemma MallocCounts(c: Config, h: Heap, size: nat, j: nat)
    requires Inv(c, h) && j < Buckets(c)
    ensures var h', s := MallocSpec(c, h, size).0, c.table[j];
            || AllCarved(h', s) == AllCarved(h, s)
            || AllInUse(h', s) == AllCarved(h', s) == AllCarved(h, s) + 1
  {
    var h', s := MallocSpec(c, h, size).0, c.table[j];
    MallocMeaning(c, h, size);
    CountsAgree(h, h', s, |h.blocks|);
    if |h'.blocks| > |h.blocks| && Capacity(c, size) == s {
      BucketOfSize(c, size);
      assert h.free[j] == [];
      forall i | 0 <= i < |h.blocks| && h.blocks[i].size == s ensures i in h.live {
        assert Owned(c, h, i);
      }
      CountsAgree(h', h', s, |h'.blocks|);
    }
  }

  lemma StepCounts(c: Config, h: Heap, h': Heap, j: nat)
    requires Inv(c, h) && Next(c, h, h') && j < Buckets(c)
    ensures var s := c.table[j];
            AllCarved(h', s) == if AllInUse(h', s) > AllCarved(h, s) then AllInUse(h', s) else AllCarved(h, s)
  {
    var s := c.table[j];
    CountsAgree(h', h', s, |h'.blocks|);
    if size :| h' == MallocSpec(c, h, size).0 {
      MallocCounts(c, h, size, j);
    } else {
      CountsAgree(h, h', s, |h.blocks|);
    }
  }

  /** Over every run, the blocks ever carved for a bucket are as many as were ever in use at once. */
  lemma {:induction false} CarvedIsPeak(c: Config, t: seq<Heap>, j: nat)
    requires Run(c, t) && j < Buckets(c)
    ensures AllCarved(t[|t| - 1], c.table[j]) == Peak(t, c.table[j])
  {
    var s := c.table[j];
    var u := t[..|t| - 1];
    if u == [] {
      assert Peak(u, s) == 0;
    } else {
      assert forall n :: 0 <= n < |u| ==> u[n] == t[n];
      CarvedIsPeak(c, u, j);
      assert u[|u| - 1] == t[|t| - 2];
      StepCounts(c, t[|t| - 2], t[|t| - 1], j);
    }
  }

  // ---- how far the bump pointer has moved ----

  ghost function OversizeBytes(c: Config, h: Heap, n: nat): nat
    requires GoodConfig(c) && n <= |h.blocks|
  {
    if n == 0 then 0
    else OversizeBytes(c, h, n - 1) + if Oversize(c, h.blocks[n - 1].size) then Extent(h.blocks[n - 1].size) else 0
  }

  /** Bytes of the first `n` blocks that belong to the first `j` buckets. */
  ghost function BucketBytes(c: Config, h: Heap, n: nat, j: nat): nat
    requires GoodConfig(c) && n <= |h.blocks| && j <= Buckets(c)
  {
    if j == 0 then 0 else BucketBytes(c, h, n, j - 1) + CarvedCount(h, c.table[j - 1], n) * Extent(c.table[j - 1])
  }

  ghost predicate InFirst(c: Config, size: nat, j: nat)
    requires GoodConfig(c) && j <= Buckets(c)
  {
    exists k :: 0 <= k < j && c.table[k] == size
  }

  lemma {:induction false} BucketBytesStep(c: Config, h: Heap, n: nat, j: nat)
    requires GoodConfig(c) && 0 < n <= |h.blocks| && j <= Buckets(c)
    ensures var s := h.blocks[n - 1].size;
            BucketBytes(c, h, n, j) == BucketBytes(c, h, n - 1, j) + if InFirst(c, s, j) then Extent(s) else 0
  {
    if j > 0 {
      BucketBytesStep(c, h, n, j - 1);
      var s := h.blocks[n - 1].size;
      if c.table[j - 1] == s {
        assert !InFirst(c, s, j - 1) && InFirst(c, s, j);
        OneMore(CarvedCount(h, s, n - 1), Extent(s));
      } else {
        assert InFirst(c, s, j) <==> InFirst(c, s, j - 1);
      }
    }
  }

  lemma OneMore(x: nat, e: nat)
    ensures (x + 1) * e == x * e + e
  {
  }

  lemma {:induction false} EndIsSum(c: Config, h: Heap, n: nat)
    requires Inv(c, h) && n <= |h.blocks|
    ensures End(c.low, h.blocks[..n]) == c.low + BucketBytes(c, h, n, Buckets(c)) + OversizeBytes(c, h, n)
  {
    if n == 0 {
      NoBlocksNoBytes(c, h, Buckets(c));
    } else {
      EndIsSum(c, h, n - 1);
      BucketBytesStep(c, h, n, Buckets(c));
      EndStep(c, h, n);
    }
  }

  lemma EndStep(c: Config, h: Heap, n: nat)
    requires Inv(c, h) && 0 < n <= |h.blocks|
    ensures var s := h.blocks[n - 1].size;
            && End(c.low, h.blocks[..n]) == End(c.low, h.blocks[..n - 1]) + Extent(s)
            && (InFirst(c, s, Buckets(c)) <==> !Oversize(c, s))
  {
    assert Owned(c, h, n - 1) && Adjoins(c.low, h.blocks, n - 1);
    if n > 1 {
      assert h.blocks[..n - 1][n - 2] == h.blocks[n - 2];
    }
  }

  lemma {:induction false} NoBlocksNoBytes(c: Config, h: Heap, j: nat)
    requires GoodConfig(c) && j <= Buckets(c)
    ensures BucketBytes(c, h, 0, j) == 0
  {
    if j > 0 {
      NoBlocksNoBytes(c, h, j - 1);
    }
  }

  /** Sum over the first `j` buckets of (peak number in use) times (bytes of one block). */
  ghost function PeakBytes(c: Config, t: seq<Heap>, j: nat): nat
    requires GoodConfig(c) && j <= Buckets(c)
  {
    if j == 0 then 0 else PeakBytes(c, t, j - 1) + Peak(t, c.table[j - 1]) * Extent(c.table[j - 1])
  }

  lemma {:induction false} BucketBytesArePeaks(c: Config, t: seq<Heap>, j: nat)
    requires Run(c, t) && j <= Buckets(c)
    ensures var h := t[|t| - 1]; BucketBytes(c, h, |h.blocks|, j) == PeakBytes(c, t, j)
  {
    if j > 0 {
      BucketBytesArePeaks(c, t, j - 1);
      CarvedIsPeak(c, t, j - 1);
    }
  }

  /** The high-water mark: over every run the heap has grown by exactly the peak demand of each bucket
      plus every oversize block ever carved. */
  lemma HighWaterMark(c: Config, t: seq<Heap>)
    requires Run(c, t)
    ensures var h := t[|t| - 1];
            End(c.low, h.blocks) - c.low == PeakBytes(c, t, Buckets(c)) + OversizeBytes(c, h, |h.blocks|)
  {
    var h := t[|t| - 1];
    EndIsSum(c, h, |h.blocks|);
    assert h.blocks[..|h.blocks|] == h.blocks;
    BucketBytesArePeaks(c, t, Buckets(c));
  }
}
