/** The allocator's bookkeeping as a value: the blocks carved so far in address order, the free list of every
    bucket, and the blocks in use. Blocks are named by their position in `blocks`. */
module HeapModel {
  import opened Wrappers

  /** `addr` is the address of the 12-byte header, `size` the payload capacity stored in it. */
  datatype Block = Block(addr: nat, size: nat)

  datatype Heap = Heap(blocks: seq<Block>, free: seq<seq<nat>>, live: set<nat>)

  /** Linker-defined bounds of the heap and the bucket table, which a 0 ends. */
  datatype Config = Config(low: nat, top: nat, table: seq<nat>)

  const HEADER := 12

  /** Bytes a block takes: header and payload, rounded up to a multiple of 16. */
  function Extent(size: nat): (e: nat)
    ensures e % 16 == 0 && HEADER + size <= e < HEADER + size + 16
  {
    (HEADER + size + 15) / 16 * 16
  }

  ghost predicate GoodConfig(c: Config) {
    && 0 < c.low <= c.top
    && c.low % 16 == 0
    && |c.table| > 0 && c.table[|c.table| - 1] == 0
    && (forall j :: 0 <= j < |c.table| - 1 ==> 0 < c.table[j])
    && (forall i, j :: 0 <= i < j < |c.table| - 1 ==> c.table[i] < c.table[j])
  }

  /** The tables of the H3 and the GD32 boards meet what the code needs of a table. */
  lemma BoardTables(low: nat, top: nat)
    requires 0 < low <= top && low % 16 == 0
    ensures GoodConfig(Config(low, top, [0x40, 0x400, 0x1000, 0x4000, 0x40000, 0x80000, 0]))
    ensures GoodConfig(Config(low, top, [0x10, 0x20, 0x40, 0x60, 0x80, 0x100, 0x140, 0x180, 0x200, 0x300, 0x400, 0x500, 0]))
  {
  }

  /** Number of buckets: the table without its final 0. */
  ghost function Buckets(c: Config): nat
    requires GoodConfig(c)
  {
    |c.table| - 1
  }

  /** First address after the carved blocks. */
  ghost function End(low: nat, blocks: seq<Block>): nat {
    if blocks == [] then low else blocks[|blocks| - 1].addr + Extent(blocks[|blocks| - 1].size)
  }

  /** Block `i` starts where the block before it ends. */
  ghost predicate Adjoins(low: nat, blocks: seq<Block>, i: nat)
    requires i < |blocks|
  {
    blocks[i].addr == if i == 0 then low else blocks[i - 1].addr + Extent(blocks[i - 1].size)
  }

  ghost predicate Tiled(low: nat, blocks: seq<Block>) {
    forall i :: 0 <= i < |blocks| ==> Adjoins(low, blocks, i)
  }

  /** Free list `j` holds distinct blocks that are not in use and have exactly the bucket's size. */
  ghost predicate ListOk(c: Config, h: Heap, j: nat)
    requires GoodConfig(c) && j < Buckets(c) == |h.free|
  {
    && (forall k :: 0 <= k < |h.free[j]| ==>
          h.free[j][k] < |h.blocks| && h.free[j][k] !in h.live && h.blocks[h.free[j][k]].size == c.table[j])
    && (forall k, l :: 0 <= k < l < |h.free[j]| ==> h.free[j][k] != h.free[j][l])
  }

  /** Bucket sizes are the only small sizes: a block fits a bucket exactly or is larger than every bucket. */
  ghost predicate Classified(c: Config, size: nat)
    requires GoodConfig(c)
  {
    size > 0 && ((exists j :: 0 <= j < Buckets(c) && c.table[j] == size) || Oversize(c, size))
  }

  ghost predicate Oversize(c: Config, size: nat)
    requires GoodConfig(c)
  {
    forall j :: 0 <= j < Buckets(c) ==> c.table[j] < size
  }

  /** A block given back whose size no bucket holds: it is never used again. */
  ghost predicate Retired(c: Config, h: Heap, i: nat)
    requires GoodConfig(c) && i < |h.blocks|
  {
    i !in h.live && Oversize(c, h.blocks[i].size)
  }

  /** Block `i` is in use, or on the free list of its bucket, or larger than every bucket. */
  ghost predicate Owned(c: Config, h: Heap, i: nat)
    requires GoodConfig(c) && Buckets(c) == |h.free| && i < |h.blocks|
  {
    && Classified(c, h.blocks[i].size)
    && forall j :: 0 <= j < Buckets(c) && h.blocks[i].size == c.table[j] ==> i in h.live || i in h.free[j]
  }

  ghost predicate Inv(c: Config, h: Heap) {
    && GoodConfig(c)
    && Tiled(c.low, h.blocks)
    && End(c.low, h.blocks) <= c.top
    && |h.free| == Buckets(c)
    && (forall j :: 0 <= j < Buckets(c) ==> ListOk(c, h, j))
    && (forall i :: i in h.live ==> i < |h.blocks|)
    && (forall i :: 0 <= i < |h.blocks| ==> Owned(c, h, i))
  }

  // ---- the operations ----

  /** Index of the first bucket that holds `size` bytes, or of the final 0. */
  ghost function Bucket(c: Config, size: nat): (j: nat)
    requires GoodConfig(c)
    ensures j <= Buckets(c)
    ensures forall i :: 0 <= i < j ==> c.table[i] < size
    ensures j < Buckets(c) ==> size <= c.table[j]
  {
    BucketFrom(c, size, 0)
  }

  ghost function BucketFrom(c: Config, size: nat, j: nat): (k: nat)
    requires GoodConfig(c) && j <= Buckets(c)
    ensures j <= k <= Buckets(c)
    ensures forall i :: j <= i < k ==> c.table[i] < size
    ensures k < Buckets(c) ==> size <= c.table[k]
    decreases Buckets(c) - j
  {
    if j == Buckets(c) || size <= c.table[j] then j else BucketFrom(c, size, j + 1)
  }

  /** Capacity given for a request: the bucket's size, or the request itself when it is larger than all. */
  ghost function Capacity(c: Config, size: nat): (s: nat)
    requires GoodConfig(c)
    ensures s >= size
  {
    var j := Bucket(c, size);
    if j < Buckets(c) then c.table[j] else size
  }

  ghost predicate Recycles(c: Config, h: Heap, size: nat)
    requires Inv(c, h)
  {
    Bucket(c, size) < Buckets(c) && h.free[Bucket(c, size)] != []
  }

  ghost function MallocSpec(c: Config, h: Heap, size: nat): (r: (Heap, Option<nat>))
    requires Inv(c, h)
    ensures r.1.Some? ==> r.1.value < |r.0.blocks|
  {
    var j := Bucket(c, size);
    assert j < Buckets(c) ==> ListOk(c, h, j);
    if size == 0 then (h, None)
    else if Recycles(c, h, size) then
      var i := h.free[j][0];
      (Heap(h.blocks, h.free[j := h.free[j][1..]], h.live + {i}), Some(i))
    else if End(c.low, h.blocks) + Extent(Capacity(c, size)) > c.top then (h, None)
    else
      (Heap(h.blocks + [Block(End(c.low, h.blocks), Capacity(c, size))], h.free, h.live + {|h.blocks|}), Some(|h.blocks|))
  }

  ghost function FreeSpec(c: Config, h: Heap, i: nat): Heap
    requires Inv(c, h) && i in h.live
  {
    if j :| 0 <= j < Buckets(c) && c.table[j] == h.blocks[i].size
    then Heap(h.blocks, h.free[j := [i] + h.free[j]], h.live - {i})
    else Heap(h.blocks, h.free, h.live - {i})
  }
}
