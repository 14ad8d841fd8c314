/** The allocator of lib-clib/src/malloc.c over one byte-addressed memory: block headers live in the same
    bytes as the payloads they describe. */
module Malloc {
  import opened Integers
  import opened Wrappers
  import opened Memory
  import opened HeapModel
  import opened HeapProofs

  const MAGIC := 0x424C4D43

  // ---- how memory represents the bookkeeping ----

  ghost function BlockEnd(b: Block): nat {
    b.addr + Extent(b.size)
  }

  ghost predicate Within(c: Config, b: Block) {
    c.low <= b.addr && b.addr + HEADER + b.size <= BlockEnd(b) <= c.top
  }

  ghost predicate Apart(b: Block, b': Block) {
    BlockEnd(b) <= b'.addr || BlockEnd(b') <= b.addr
  }

  /** The blocks lie inside [low, top) and apart from each other. */
  ghost predicate LaidOut(c: Config, blocks: seq<Block>) {
    && (forall i :: 0 <= i < |blocks| ==> Within(c, blocks[i]))
    && (forall i, j :: 0 <= i < |blocks| && 0 <= j < |blocks| && i != j ==> Apart(blocks[i], blocks[j]))
  }

  lemma InvLaidOut(c: Config, h: Heap)
    requires Inv(c, h)
    ensures LaidOut(c, h.blocks)
  {
    forall i | 0 <= i < |h.blocks| ensures Within(c, h.blocks[i]) {
      TiledAligned(c.low, h.blocks, i);
      TiledOrdered(c.low, h.blocks, i, i);
    }
    forall i, j | 0 <= i < |h.blocks| && 0 <= j < |h.blocks| && i != j ensures Apart(h.blocks[i], h.blocks[j]) {
      TiledOrdered(c.low, h.blocks, if i < j then i else j, if i < j then j else i);
    }
  }

  /** Block `b` has its header in memory: magic, capacity and the `next` word. */
  ghost predicate HeaderIs(m: seq<byte>, b: Block, link: nat) {
    && b.addr + HEADER <= |m|
    && Word(m, b.addr) == MAGIC && Word(m, b.addr + 4) == b.size && Word(m, b.addr + 8) == link
  }

  /** Every block has its header in memory; `links` lists their `next` words. */
  ghost predicate HeadersAre(m: seq<byte>, blocks: seq<Block>, links: seq<nat>) {
    |links| == |blocks| && forall i :: 0 <= i < |blocks| ==> HeaderIs(m, blocks[i], links[i])
  }

  lemma HeaderKept(m: seq<byte>, m': seq<byte>, lo: int, hi: int, b: Block, link: nat)
    requires HeaderIs(m, b, link) && SameOutside(m, m', lo, hi)
    requires b.addr + HEADER <= lo || hi <= b.addr
    ensures HeaderIs(m', b, link)
  {
    WordUnchanged(m, m', lo, hi, b.addr);
    WordUnchanged(m, m', lo, hi, b.addr + 4);
    WordUnchanged(m, m', lo, hi, b.addr + 8);
  }

  /** Writing inside a payload leaves every header alone. */
  lemma PayloadWriteKeeps(c: Config, blocks: seq<Block>, links: seq<nat>, m: seq<byte>, m': seq<byte>, i: nat)
    requires LaidOut(c, blocks) && HeadersAre(m, blocks, links) && i < |blocks|
    requires SameOutside(m, m', blocks[i].addr + HEADER, BlockEnd(blocks[i]))
    ensures HeadersAre(m', blocks, links)
  {
    forall k | 0 <= k < |blocks| ensures HeaderIs(m', blocks[k], links[k]) {
      assert Within(c, blocks[k]) && Within(c, blocks[i]) && (k != i ==> Apart(blocks[k], blocks[i]));
      HeaderKept(m, m', blocks[i].addr + HEADER, BlockEnd(blocks[i]), blocks[k], links[k]);
    }
  }

  /** Rewriting the `next` word of one block changes that link only. */
  lemma LinkWriteKeeps(c: Config, blocks: seq<Block>, links: seq<nat>, m: seq<byte>, m': seq<byte>, i: nat, link: nat)
    requires LaidOut(c, blocks) && HeadersAre(m, blocks, links) && i < |blocks|
    requires SameOutside(m, m', blocks[i].addr + 8, blocks[i].addr + 12) && Word(m', blocks[i].addr + 8) == link
    ensures HeadersAre(m', blocks, links[i := link])
  {
    var lo, hi := blocks[i].addr + 8, blocks[i].addr + 12;
    assert HeaderIs(m, blocks[i], links[i]);
    WordUnchanged(m, m', lo, hi, blocks[i].addr);
    WordUnchanged(m, m', lo, hi, blocks[i].addr + 4);
    forall k | 0 <= k < |blocks| && k != i ensures HeaderIs(m', blocks[k], links[k]) {
      assert Within(c, blocks[k]) && Within(c, blocks[i]) && Apart(blocks[k], blocks[i]);
      HeaderKept(m, m', lo, hi, blocks[k], links[k]);
    }
  }

  /** Writing a header beyond the last block adds a block. */
  lemma NewHeaderKeeps(c: Config, blocks: seq<Block>, links: seq<nat>, m: seq<byte>, m': seq<byte>, b: Block, link: nat)
    requires LaidOut(c, blocks + [b]) && HeadersAre(m, blocks, links)
    requires SameOutside(m, m', b.addr, b.addr + HEADER) && HeaderIs(m', b, link)
    ensures HeadersAre(m', blocks + [b], links + [link])
  {
    var all := blocks + [b];
    forall k | 0 <= k < |blocks| ensures HeaderIs(m', blocks[k], links[k]) {
      assert all[k] == blocks[k] && all[|blocks|] == b;
      assert Within(c, all[k]) && Within(c, all[|blocks|]) && Apart(all[k], all[|blocks|]);
      HeaderKept(m, m', b.addr, b.addr + HEADER, blocks[k], links[k]);
    }
  }

  // ---- free lists as chains of links ----

  /** Header address of the k-th block of a free list, 0 after its end. */
  ghost function Link(blocks: seq<Block>, list: seq<nat>, k: nat): nat
    requires forall x :: 0 <= x < |list| ==> list[x] < |blocks|
  {
    if k < |list| then blocks[list[k]].addr else 0
  }

  /** Following links from `head` visits exactly the blocks of `list`, in order. */
  ghost predicate Chained(links: seq<nat>, blocks: seq<Block>, list: seq<nat>, head: nat) {
    && |links| == |blocks|
    && (forall x :: 0 <= x < |list| ==> list[x] < |blocks|)
    && head == Link(blocks, list, 0)
    && forall k :: 0 <= k < |list| ==> links[list[k]] == Link(blocks, list, k + 1)
  }

  ghost predicate Chains(h: Heap, links: seq<nat>, heads: seq<nat>) {
    |heads| == |h.free| && forall j :: 0 <= j < |h.free| ==> Chained(links, h.blocks, h.free[j], heads[j])
  }

  lemma PopChained(links: seq<nat>, blocks: seq<Block>, list: seq<nat>, head: nat)
    requires Chained(links, blocks, list, head) && list != []
    requires list[0] !in list[1..]
    ensures Chained(links[list[0] := 0], blocks, list[1..], links[list[0]])
  {
    var i, rest := list[0], list[1..];
    forall k | 0 <= k < |rest| ensures links[i := 0][rest[k]] == Link(blocks, rest, k + 1) {
      assert rest[k] == list[k + 1] && rest[k] in rest;
    }
  }

  lemma PushChained(links: seq<nat>, blocks: seq<Block>, list: seq<nat>, head: nat, i: nat)
    requires Chained(links, blocks, list, head) && i < |blocks| && i !in list
    ensures Chained(links[i := head], blocks, [i] + list, blocks[i].addr)
  {
    var list' := [i] + list;
    forall k | 0 <= k < |list'| ensures links[i := head][list'[k]] == Link(blocks, list', k + 1) {
      if k > 0 {
        assert list'[k] == list[k - 1] && list[k - 1] in list;
      }
    }
  }

  lemma OtherChained(links: seq<nat>, blocks: seq<Block>, list: seq<nat>, head: nat, i: nat, link: nat)
    requires Chained(links, blocks, list, head) && i < |blocks| && i !in list
    ensures Chained(links[i := link], blocks, list, head)
  {
    forall k | 0 <= k < |list| ensures links[i := link][list[k]] == Link(blocks, list, k + 1) {
      assert list[k] in list;
    }
  }

  lemma MoreBlocksChained(links: seq<nat>, blocks: seq<Block>, list: seq<nat>, head: nat, b: Block)
    requires Chained(links, blocks, list, head)
    ensures Chained(links + [0], blocks + [b], list, head)
  {
    assert forall k: nat :: k < |list| ==> Link(blocks + [b], list, k) == Link(blocks, list, k);
  }

  lemma PopKeepsChains(c: Config, h: Heap, links: seq<nat>, heads: seq<nat>, j: nat)
    requires Inv(c, h) && Chains(h, links, heads) && j < Buckets(c) && h.free[j] != []
    ensures var i := h.free[j][0];
            Chains(Heap(h.blocks, h.free[j := h.free[j][1..]], h.live + {i}), links[i := 0], heads[j := links[i]])
  {
    var i := h.free[j][0];
    HeadIsAlone(c, h, j);
    var h' := Heap(h.blocks, h.free[j := h.free[j][1..]], h.live + {i});
    forall b | 0 <= b < |h'.free|
      ensures Chained(links[i := 0], h.blocks, h'.free[b], heads[j := links[i]][b])
    {
      if b == j {
        PopChained(links, h.blocks, h.free[j], heads[j]);
      } else {
        OtherChained(links, h.blocks, h.free[b], heads[b], i, 0);
      }
    }
  }

  lemma PushKeepsChains(c: Config, h: Heap, links: seq<nat>, heads: seq<nat>, i: nat, j: nat)
    requires Inv(c, h) && Chains(h, links, heads) && i in h.live && j < Buckets(c) && c.table[j] == h.blocks[i].size
    ensures Chains(FreeSpec(c, h, i), links[i := heads[j]], heads[j := h.blocks[i].addr])
  {
    FreeIs(c, h, i);
    var h' := FreeSpec(c, h, i);
    assert h'.free == h.free[j := [i] + h.free[j]];
    forall b | 0 <= b < |h.free|
      ensures Chained(links[i := heads[j]], h.blocks, h'.free[b], heads[j := h.blocks[i].addr][b])
    {
      assert ListOk(c, h, b);
      if b == j {
        PushChained(links, h.blocks, h.free[j], heads[j], i);
      } else {
        OtherChained(links, h.blocks, h.free[b], heads[b], i, heads[j]);
      }
    }
  }

  lemma CarveKeepsChains(h: Heap, links: seq<nat>, heads: seq<nat>, b: Block, live: set<nat>)
    requires Chains(h, links, heads)
    ensures Chains(Heap(h.blocks + [b], h.free, live), links + [0], heads)
  {
    forall j | 0 <= j < |h.free| ensures Chained(links + [0], h.blocks + [b], h.free[j], heads[j]) {
      MoreBlocksChained(links, h.blocks, h.free[j], heads[j], b);
    }
  }

  // ---- payloads ----

  /** Pointer to the payload of block `i`. */
  ghost function Data(h: Heap, i: nat): nat
    requires i < |h.blocks|
  {
    h.blocks[i].addr + HEADER
  }

  ghost predicate PointsTo(h: Heap, p: nat, i: nat) {
    i in h.live && i < |h.blocks| && Data(h, i) == p
  }

  ghost function Pointer(h: Heap, r: Option<nat>): nat
    requires r.Some? ==> r.value < |h.blocks|
  {
    if r.Some? then Data(h, r.value) else 0
  }

  ghost function Payload(m: seq<byte>, b: Block): seq<byte>
    requires b.addr + HEADER + b.size <= |m|
  {
    m[b.addr + HEADER..b.addr + HEADER + b.size]
  }

  /** The bytes of every block in `keep` are the same in `m'` as in `m`. */
  ghost predicate PayloadsKept(h: Heap, keep: set<nat>, m: seq<byte>, m': seq<byte>) {
    forall i :: i in keep && i < |h.blocks| ==>
      && h.blocks[i].addr + HEADER + h.blocks[i].size <= |m| == |m'|
      && Payload(m', h.blocks[i]) == Payload(m, h.blocks[i])
  }

  /** Writing in the header of one block, or in the payload of a block not in `keep`, keeps those payloads. */
  lemma WritesKeepPayloads(c: Config, h: Heap, keep: set<nat>, m: seq<byte>, m': seq<byte>, i: nat, lo: nat, hi: nat)
    requires LaidOut(c, h.blocks) && c.top <= |m| && i < |h.blocks| && SameOutside(m, m', lo, hi)
    requires h.blocks[i].addr <= lo && hi <= BlockEnd(h.blocks[i]) && (hi <= h.blocks[i].addr + HEADER || i !in keep)
    ensures PayloadsKept(h, keep, m, m')
  {
    forall k | k in keep && k < |h.blocks|
      ensures h.blocks[k].addr + HEADER + h.blocks[k].size <= |m| == |m'| && Payload(m', h.blocks[k]) == Payload(m, h.blocks[k])
    {
      assert Within(c, h.blocks[k]) && (k != i ==> Apart(h.blocks[k], h.blocks[i]));
    }
  }

  // ---- the whole representation ----

  /** Memory `m`, the bump pointer `next` and the bucket heads represent `h`. */
  ghost predicate Representation(c: Config, h: Heap, links: seq<nat>, next: nat, heads: seq<nat>, m: seq<byte>) {
    && Inv(c, h) && LaidOut(c, h.blocks)
    && 2 * c.top <= |m| <= WORD_LIMIT
    && next == End(c.low, h.blocks)
    && HeadersAre(m, h.blocks, links)
    && Chains(h, links, heads)
  }

  ghost function Taken(h: Heap, j: nat): Heap
    requires j < |h.free| && h.free[j] != []
  {
    Heap(h.blocks, h.free[j := h.free[j][1..]], h.live + {h.free[j][0]})
  }

  ghost function Carved(h: Heap, b: Block): Heap {
    Heap(h.blocks + [b], h.free, h.live + {|h.blocks|})
  }

  lemma TakeKeeps(c: Config, h: Heap, links: seq<nat>, next: nat, heads: seq<nat>, m: seq<byte>, m': seq<byte>, j: nat)
    requires Representation(c, h, links, next, heads, m) && j < Buckets(c) && heads[j] != 0
    requires SameOutside(m, m', heads[j] + 8, heads[j] + 12) && Word(m', heads[j] + 8) == 0
    ensures h.free[j] != [] && h.free[j][0] < |h.blocks| && h.blocks[h.free[j][0]].addr == heads[j]
    ensures Representation(c, Taken(h, j), links[h.free[j][0] := 0], next, heads[j := Word(m, heads[j] + 8)], m')
    ensures PayloadsKept(h, h.live, m, m')
  {
    assert Chained(links, h.blocks, h.free[j], heads[j]);
    var i := h.free[j][0];
    assert HeaderIs(m, h.blocks[i], links[i]);
    LinkWriteKeeps(c, h.blocks, links, m, m', i, 0);
    PopKeepsChains(c, h, links, heads, j);
    RecycleKeepsInv(c, h, j);
    WritesKeepPayloads(c, h, h.live, m, m', i, heads[j] + 8, heads[j] + 12);
  }

  /** A pointer handed out names one block, and its header is in memory. */
  lemma OnePointer(c: Config, h: Heap, links: seq<nat>, next: nat, heads: seq<nat>, m: seq<byte>, p: nat, i: nat)
    requires Representation(c, h, links, next, heads, m) && PointsTo(h, p, i)
    ensures GoodConfig(c) && |heads| == Buckets(c) && |links| == |h.blocks|
    ensures i in h.live && i < |h.blocks| && p == h.blocks[i].addr + HEADER
    ensures HEADER < p && p + h.blocks[i].size <= c.top && 2 * c.top <= |m| <= WORD_LIMIT
    ensures Word(m, p - HEADER) == MAGIC && Word(m, p - HEADER + 4) == h.blocks[i].size
    ensures forall k: nat :: PointsTo(h, p, k) ==> k == i
    ensures forall j :: 0 <= j < |heads| ==> heads[j] < WORD_LIMIT
    ensures PayloadsKept(h, h.live, m, m)
  {
    assert HeaderIs(m, h.blocks[i], links[i]) && Within(c, h.blocks[i]);
    forall k: nat | PointsTo(h, p, k) ensures k == i {
      assert k != i ==> Apart(h.blocks[k], h.blocks[i]);
    }
    forall j | 0 <= j < |heads| ensures heads[j] < WORD_LIMIT {
      Basics(c, h, links, next, heads, m, j);
    }
    Basics(c, h, links, next, heads, m, 0);
  }

  /** What the code may rely on when it looks at bucket `j`. */
  lemma Basics(c: Config, h: Heap, links: seq<nat>, next: nat, heads: seq<nat>, m: seq<byte>, j: nat)
    requires Representation(c, h, links, next, heads, m)
    ensures Inv(c, h) && GoodConfig(c) && |heads| == |h.free| == Buckets(c) && |links| == |h.blocks|
    ensures next == End(c.low, h.blocks) <= c.top && 2 * c.top <= |m| <= WORD_LIMIT
    ensures PayloadsKept(h, h.live, m, m)
    ensures j < Buckets(c) ==>
              && (heads[j] == 0 <==> h.free[j] == [])
              && (heads[j] != 0 ==> heads[j] + HEADER <= |m| && h.free[j][0] < |h.blocks| && h.blocks[h.free[j][0]].addr == heads[j])
  {
    assert forall i :: i in h.live ==> Within(c, h.blocks[i]);
    if j < Buckets(c) {
      assert Chained(links, h.blocks, h.free[j], heads[j]);
      if h.free[j] != [] {
        assert HeaderIs(m, h.blocks[h.free[j][0]], links[h.free[j][0]]);
        assert Within(c, h.blocks[h.free[j][0]]);
      }
    }
  }

  lemma CarveKeeps(c: Config, h: Heap, links: seq<nat>, next: nat, heads: seq<nat>, m: seq<byte>, m': seq<byte>, b: Block)
    requires Representation(c, h, links, next, heads, m)
    requires Classified(c, b.size) && b.addr == next && next + Extent(b.size) <= c.top
    requires SameOutside(m, m', next, next + HEADER) && HeaderIs(m', b, 0)
    ensures Representation(c, Carved(h, b), links + [0], next + Extent(b.size), heads, m')
    ensures PayloadsKept(h, h.live, m, m')
  {
    var h' := Carved(h, b);
    CarveKeepsInv(c, h, b.size);
    InvLaidOut(c, h');
    assert h'.blocks[|h.blocks|] == b;
    NewHeaderKeeps(c, h.blocks, links, m, m', b, 0);
    CarveKeepsChains(h, links, heads, b, h'.live);
    WritesKeepPayloads(c, h', h.live, m, m', |h.blocks|, next, next + HEADER);
    assert forall k :: 0 <= k < |h.blocks| ==> h'.blocks[k] == h.blocks[k];
  }

  lemma PushKeeps(c: Config, h: Heap, links: seq<nat>, next: nat, heads: seq<nat>, m: seq<byte>, m': seq<byte>, i: nat, j: nat)
    requires Representation(c, h, links, next, heads, m) && i in h.live && j < Buckets(c) && c.table[j] == h.blocks[i].size
    requires var a := h.blocks[i].addr + 8; SameOutside(m, m', a, a + 4) && Word(m', a) == heads[j]
    ensures Representation(c, FreeSpec(c, h, i), links[i := heads[j]], next, heads[j := h.blocks[i].addr], m')
    ensures PayloadsKept(h, h.live, m, m')
  {
    hide Word, SameOutside, ListOk, Owned, Tiled, HeaderIs, Chained, Within, Apart, Extent;
    var a := h.blocks[i].addr;
    FreeKeepsInv(c, h, i);
    LinkWriteKeeps(c, h.blocks, links, m, m', i, heads[j]);
    PushKeepsChains(c, h, links, heads, i, j);
    WritesKeepPayloads(c, h, h.live, m, m', i, a + 8, a + 12);
  }

  lemma RetireKeeps(c: Config, h: Heap, links: seq<nat>, next: nat, heads: seq<nat>, m: seq<byte>, i: nat)
    requires Representation(c, h, links, next, heads, m) && i in h.live
    requires forall j :: 0 <= j < Buckets(c) ==> c.table[j] != h.blocks[i].size
    ensures Representation(c, FreeSpec(c, h, i), links, next, heads, m)
  {
    FreeKeepsInv(c, h, i);
  }

  lemma FillKeeps(c: Config, h: Heap, links: seq<nat>, next: nat, heads: seq<nat>, m: seq<byte>, m': seq<byte>, i: nat)
    requires Representation(c, h, links, next, heads, m) && i < |h.blocks|
    requires var a := h.blocks[i].addr + HEADER; SameOutside(m, m', a, a + h.blocks[i].size)
    ensures Representation(c, h, links, next, heads, m')
    ensures PayloadsKept(h, h.live - {i}, m, m')
  {
    var a := h.blocks[i].addr + HEADER;
    PayloadWriteKeeps(c, h.blocks, links, m, m', i);
    WritesKeepPayloads(c, h, h.live - {i}, m, m', i, a, a + h.blocks[i].size);
  }

  // ---- walking the heap through memory alone ----

  /** Steps from header to header by the sizes found in memory, checking every magic. */
  ghost function Walk(m: seq<byte>, a: nat, end: nat): Option<seq<Block>>
    decreases end - a
  {
    if a == end then Some([])
    else if a > end || a + HEADER > |m| || Word(m, a) != MAGIC then None
    else
      var size := Word(m, a + 4);
      match Walk(m, a + Extent(size), end)
      case None => None
      case Some(rest) => Some([Block(a, size)] + rest)
  }

  lemma {:induction false} WalkFrom(low: nat, blocks: seq<Block>, links: seq<nat>, m: seq<byte>, i: nat)
    requires Tiled(low, blocks) && HeadersAre(m, blocks, links) && i <= |blocks|
    ensures var a := if i < |blocks| then blocks[i].addr else End(low, blocks);
            Walk(m, a, End(low, blocks)) == Some(blocks[i..])
    decreases |blocks| - i
  {
    if i < |blocks| {
      var b, end := blocks[i], End(low, blocks);
      WalkFrom(low, blocks, links, m, i + 1);
      TiledOrdered(low, blocks, i, i);
      assert HeaderIs(m, b, links[i]);
      var next := if i + 1 < |blocks| then blocks[i + 1].addr else end;
      assert next == BlockEnd(b) by {
        assert i + 1 < |blocks| ==> Adjoins(low, blocks, i + 1);
      }
      assert Walk(m, next, end) == Some(blocks[i + 1..]);
      assert b.addr < end && Word(m, b.addr + 4) == b.size;
      assert Walk(m, b.addr, end) == Some([b] + blocks[i + 1..]);
      assert blocks[i..] == [b] + blocks[i + 1..];
    } else {
      assert blocks[i..] == [];
    }
  }

  /** Read back from memory alone, the blocks tile [low, next) exactly and every magic is intact. */
  lemma WalkTiles(c: Config, h: Heap, links: seq<nat>, next: nat, heads: seq<nat>, m: seq<byte>)
    requires Representation(c, h, links, next, heads, m)
    ensures Walk(m, c.low, next) == Some(h.blocks)
  {
    WalkFrom(c.low, h.blocks, links, m, 0);
    assert h.blocks != [] ==> Adjoins(c.low, h.blocks, 0);
    assert h.blocks[0..] == h.blocks;
  }

  /** Follows the `next` words in memory from header `a`, for at most `n` blocks, up to a null. */
  ghost function Follow(m: seq<byte>, a: nat, n: nat): Option<seq<nat>>
    decreases n
  {
    if a == 0 then Some([])
    else if n == 0 || a + HEADER > |m| then None
    else
      match Follow(m, Word(m, a + 8), n - 1)
      case None => None
      case Some(rest) => Some([a] + rest)
  }

  /** Header addresses of a free list from its k-th block on. */
  ghost function Addresses(blocks: seq<Block>, list: seq<nat>, k: nat): seq<nat>
    requires k <= |list| && forall x :: 0 <= x < |list| ==> list[x] < |blocks|
    decreases |list| - k
  {
    if k == |list| then [] else [blocks[list[k]].addr] + Addresses(blocks, list, k + 1)
  }

  lemma FollowStep(m: seq<byte>, a: nat, n: nat, link: nat, rest: seq<nat>)
    requires a != 0 && n > 0 && a + HEADER <= |m| && Word(m, a + 8) == link && Follow(m, link, n - 1) == Some(rest)
    ensures Follow(m, a, n) == Some([a] + rest)
  {
  }

  lemma FollowEnd(m: seq<byte>, n: nat)
    ensures Follow(m, 0, n) == Some([])
  {
  }

  lemma BlockFacts(c: Config, blocks: seq<Block>, links: seq<nat>, m: seq<byte>, i: nat)
    requires 0 < c.low && LaidOut(c, blocks) && HeadersAre(m, blocks, links) && i < |blocks|
    ensures blocks[i].addr != 0 && blocks[i].addr + HEADER <= |m| && |links| == |blocks| && Word(m, blocks[i].addr + 8) == links[i]
  {
    assert HeaderIs(m, blocks[i], links[i]) && Within(c, blocks[i]);
  }

  lemma {:induction false} FollowFrom(c: Config, blocks: seq<Block>, links: seq<nat>, m: seq<byte>, list: seq<nat>, head: nat, k: nat)
    requires 0 < c.low && LaidOut(c, blocks) && HeadersAre(m, blocks, links) && Chained(links, blocks, list, head) && k <= |list|
    ensures Follow(m, Link(blocks, list, k), |list| - k) == Some(Addresses(blocks, list, k))
    decreases |list| - k
  {
    hide Follow, LaidOut, HeadersAre, Word;
    FollowEnd(m, |list| - k);
    if k < |list| {
      var i := list[k];
      FollowFrom(c, blocks, links, m, list, head, k + 1);
      BlockFacts(c, blocks, links, m, i);
      FollowStep(m, blocks[i].addr, |list| - k, links[i], Addresses(blocks, list, k + 1));
    }
  }

  /** Read back from memory alone, every free list ends in a null after exactly the blocks it should hold, so no
      list has a cycle. */
  lemma FollowLists(c: Config, h: Heap, links: seq<nat>, next: nat, heads: seq<nat>, m: seq<byte>, j: nat)
    requires Representation(c, h, links, next, heads, m) && j < Buckets(c)
    ensures j < |h.free| == |heads| && forall x :: 0 <= x < |h.free[j]| ==> h.free[j][x] < |h.blocks|
    ensures Follow(m, heads[j], |h.free[j]|) == Some(Addresses(h.blocks, h.free[j], 0))
  {
    hide Word, HeaderIs, Within, Apart;
    assert Chained(links, h.blocks, h.free[j], heads[j]);
    FollowFrom(c, h.blocks, links, m, h.free[j], heads[j], 0);
  }

  /** The first `n` bytes behind `p` in `m'` are those behind `ptr` in `m`. */
  ghost predicate Kept(m: seq<byte>, m': seq<byte>, ptr: nat, p: nat, n: nat) {
    ptr + n <= |m| && p + n <= |m'| && m'[p..p + n] == m[ptr..ptr + n]
  }

  lemma KeptIs(m: seq<byte>, m': seq<byte>, ptr: nat, p: nat, n: nat)
    requires ptr + n <= |m| && p + n <= |m'| && m'[p..p + n] == m[ptr..ptr + n]
    ensures Kept(m, m', ptr, p, n)
  {
  }

  lemma FrontOfSlice(m: seq<byte>, a: nat, b: nat, n: nat)
    requires a + n <= b <= |m|
    ensures m[a..b][..n] == m[a..a + n]
  {
  }

  lemma CopyKept(h: Heap, i: nat, n: nat, m0: seq<byte>, m1: seq<byte>, m2: seq<byte>, m3: seq<byte>, ptr: nat)
    requires i in h.live && i < |h.blocks| && n <= h.blocks[i].size
    requires Kept(m0, m1, ptr, ptr, n) && Kept(m1, m2, ptr, Data(h, i), n) && PayloadsKept(h, h.live, m2, m3)
    ensures Kept(m0, m3, ptr, Data(h, i), n)
  {
    var p := Data(h, i);
    assert Payload(m3, h.blocks[i]) == Payload(m2, h.blocks[i]);
    FrontOfSlice(m2, p, p + h.blocks[i].size, n);
    FrontOfSlice(m3, p, p + h.blocks[i].size, n);
  }

  lemma TwoBlocks(c: Config, blocks: seq<Block>, i: nat, k: nat)
    requires LaidOut(c, blocks) && i < |blocks| && k < |blocks| && i != k
    ensures Within(c, blocks[k])
    ensures blocks[i].addr + HEADER + blocks[i].size <= blocks[k].addr || blocks[k].addr + HEADER + blocks[k].size <= blocks[i].addr
  {
    assert Within(c, blocks[i]) && Within(c, blocks[k]) && Apart(blocks[i], blocks[k]);
  }

  /** After malloc found room for a larger copy of block `i`: `i` is still in use, still pointed to, and its
      payload lies apart from the new one. */
  lemma Grown(c: Config, h0: Heap, i: nat, size: nat, links: seq<nat>, next: nat, heads: seq<nat>, m0: seq<byte>, m1: seq<byte>)
    requires Inv(c, h0) && i in h0.live && h0.blocks[i].size < size && MallocSpec(c, h0, size).1.Some?
    requires Representation(c, MallocSpec(c, h0, size).0, links, next, heads, m1) && PayloadsKept(h0, h0.live, m0, m1)
    ensures var (h1, r) := MallocSpec(c, h0, size);
            && h0.blocks <= h1.blocks && h0.live <= h1.live
            && i in h1.live && h1.blocks[i] == h0.blocks[i] && PointsTo(h1, Data(h0, i), i)
            && r.value in h1.live && size <= h1.blocks[r.value].size
            && Data(h1, r.value) + size <= c.top
            && (Data(h0, i) + h0.blocks[i].size <= Data(h1, r.value) || Data(h1, r.value) + size <= Data(h0, i))
            && Kept(m0, m1, Data(h0, i), Data(h0, i), h0.blocks[i].size)
  {
    hide MallocSpec, Recycles, Bucket, HeadersAre, Chains;
    var (h1, r) := MallocSpec(c, h0, size);
    MallocMeaning(c, h0, size);
    assert h1.blocks[i] == h0.blocks[i] && r.value != i;
    TwoBlocks(c, h1.blocks, i, r.value);
    assert Payload(m1, h0.blocks[i]) == Payload(m0, h0.blocks[i]);
  }

  /** The three ways of a request that is not for nothing. */
  lemma MallocWays(c: Config, h: Heap, size: nat)
    requires Inv(c, h) && size > 0
    ensures var j, s, end, r := Bucket(c, size), Capacity(c, size), End(c.low, h.blocks), MallocSpec(c, h, size);
            && |h.free| == Buckets(c)
            && (j < Buckets(c) && h.free[j] != [] ==> r == (Taken(h, j), Some(h.free[j][0])))
            && (!(j < Buckets(c) && h.free[j] != []) && end + Extent(s) > c.top ==> r == (h, None))
            && (!(j < Buckets(c) && h.free[j] != []) && end + Extent(s) <= c.top ==> r == (Carved(h, Block(end, s)), Some(|h.blocks|)))
  {
  }

  lemma MallocOfNothing(c: Config, h: Heap)
    requires Inv(c, h)
    ensures MallocSpec(c, h, 0) == (h, None)
  {
  }

  /** The block that calloc gets holds as much as was asked for exactly when the product did not wrap. */
  lemma CallocCovers(c: Config, h0: Heap, asked: nat, links: seq<nat>, next: nat, heads: seq<nat>, m: seq<byte>)
    requires Inv(c, h0) && MallocSpec(c, h0, asked % WORD_LIMIT).1.Some?
    requires Representation(c, MallocSpec(c, h0, asked % WORD_LIMIT).0, links, next, heads, m)
    ensures var (h, r) := MallocSpec(c, h0, asked % WORD_LIMIT);
            forall i: nat :: PointsTo(h, Data(h, r.value), i) ==> (asked <= h.blocks[i].size <==> asked < WORD_LIMIT)
  {
    hide MallocSpec, Representation, Inv;
    var (h, r) := MallocSpec(c, h0, asked % WORD_LIMIT);
    MallocMeaning(c, h0, asked % WORD_LIMIT);
    forall i: nat | PointsTo(h, Data(h, r.value), i) ensures asked <= h.blocks[i].size <==> asked < WORD_LIMIT {
      OnePointer(c, h, links, next, heads, m, Data(h, r.value), i);
      assert PointsTo(h, Data(h, r.value), r.value);
    }
  }

  /** For one: 65536 times 65537 bytes give a block of 256 kB on the H3 board. */
  lemma CallocFails(low: nat, top: nat)
    requires 0 < low <= top && low % 16 == 0
    ensures var c := Config(low, top, [0x40, 0x400, 0x1000, 0x4000, 0x40000, 0x80000, 0]);
            GoodConfig(c) && Capacity(c, 65536 * 65537 % WORD_LIMIT) == 0x40000 < 65536 * 65537
  {
    var c := Config(low, top, [0x40, 0x400, 0x1000, 0x4000, 0x40000, 0x80000, 0]);
    BoardTables(low, top);
    assert 65536 * 65537 % WORD_LIMIT == 65536;
    assert BucketFrom(c, 65536, 3) == BucketFrom(c, 65536, 4) == 4;
    assert BucketFrom(c, 65536, 1) == BucketFrom(c, 65536, 2) == BucketFrom(c, 65536, 3);
  }

  /** Filling the payload of the block malloc just returned: the header stays, and so do all other payloads. */
  lemma NewBlockFilled(c: Config, h0: Heap, size: nat, links: seq<nat>, next: nat, heads: seq<nat>,
                       m0: seq<byte>, m1: seq<byte>, m2: seq<byte>)
    requires Inv(c, h0) && MallocSpec(c, h0, size).1.Some?
    requires var (h1, r) := MallocSpec(c, h0, size);
             && Representation(c, h1, links, next, heads, m1)
             && PayloadsKept(h0, h0.live, m0, m1)
             && SameOutside(m1, m2, Data(h1, r.value), Data(h1, r.value) + size)
    ensures var (h1, r) := MallocSpec(c, h0, size);
            && Data(h1, r.value) + size <= c.top
            && Representation(c, h1, links, next, heads, m2)
            && PayloadsKept(h0, h0.live, m0, m2)
  {
    var (h1, r) := MallocSpec(c, h0, size);
    var i := r.value;
    MallocMeaning(c, h0, size);
    assert Within(c, h1.blocks[i]);
    SameOutsideMore(m1, m2, Data(h1, i), Data(h1, i) + size, Data(h1, i), Data(h1, i) + h1.blocks[i].size);
    FillKeeps(c, h1, links, next, heads, m1, m2, i);
    PayloadsChain(h0, h1, h0.live, h1.live - {i}, m0, m1, m2);
  }

  lemma PayloadsChain(h0: Heap, h1: Heap, keep0: set<nat>, keep1: set<nat>, m0: seq<byte>, m1: seq<byte>, m2: seq<byte>)
    requires h0.blocks <= h1.blocks && keep0 <= keep1
    requires PayloadsKept(h0, keep0, m0, m1) && PayloadsKept(h1, keep1, m1, m2)
    ensures PayloadsKept(h0, keep0, m0, m2)
  {
    forall k | k in keep0 && k < |h0.blocks|
      ensures h0.blocks[k].addr + HEADER + h0.blocks[k].size <= |m0| == |m2| && Payload(m2, h0.blocks[k]) == Payload(m0, h0.blocks[k])
    {
      assert h1.blocks[k] == h0.blocks[k] && k in keep1;
    }
  }

  // ---- the allocator ----

  /** What realloc does to a live block `i`: the result is the block now holding the data, if any. */
  ghost function ReallocSpec(c: Config, h: Heap, i: nat, size: nat): (r: (Heap, Option<nat>))
    requires Inv(c, h) && i in h.live
    ensures r.1.Some? ==> r.1.value < |r.0.blocks|
  {
    if size == 0 then (FreeSpec(c, h, i), None)
    else if h.blocks[i].size >= size then (h, Some(i))
    else
      var (h1, r) := MallocSpec(c, h, size);
      if r.None? then (h, None) else
      MallocKeepsInv(c, h, size);
      MallocMeaning(c, h, size);
      (FreeSpec(c, h1, i), r)
  }

  /** What that is to the caller, for a capacity `s` that the size is due: nothing changes when the block is large
      enough; otherwise the data go to another block of capacity `s` and the old one is given back, or nothing
      changes when malloc has none. */
  lemma ReallocGives(c: Config, h: Heap, i: nat, size: nat, s: nat)
    requires Inv(c, h) && i in h.live && Due(c, size, s)
    ensures var (h', r) := ReallocSpec(c, h, i, size);
            && (size == 0 ==> r.None? && h'.live == h.live - {i} && h'.blocks == h.blocks)
            && (0 < size <= h.blocks[i].size ==> r == Some(i) && h' == h)
            && (size > h.blocks[i].size ==>
                  && (r.None? <==> MallocSpec(c, h, size).1.None?) && (r.None? ==> h' == h)
                  && (r.Some? ==> && r.value != i && r.value !in h.live && h'.blocks[r.value].size == s
                                  && h'.live == h.live + {r.value} - {i}))
  {
    MallocGives(c, h, size, s);
    MallocMeaning(c, h, size);
    if h.blocks[i].size < size && MallocSpec(c, h, size).1.Some? {
      MallocKeepsInv(c, h, size);
    }
  }

  /** What realloc promises for the live block `i`: the bookkeeping of `ReallocSpec`; the data moves along, up
      to the smaller of the two sizes; all other payloads stay; and a failure leaves memory untouched. */
  ghost predicate Reallocated(c: Config, h0: Heap, h: Heap, m0: seq<byte>, m: seq<byte>, i: nat, size: nat, p: nat)
    requires Inv(c, h0) && i in h0.live
  {
    && h == ReallocSpec(c, h0, i, size).0
    && p == Pointer(h, ReallocSpec(c, h0, i, size).1)
    && PayloadsKept(h0, h0.live, m0, m)
    && (p != 0 ==> Kept(m0, m, Data(h0, i), p, if size < h0.blocks[i].size then size else h0.blocks[i].size))
    && (p == 0 && size != 0 ==> m == m0)
  }

  lemma ReallocatedByMove(c: Config, h0: Heap, h: Heap, m0: seq<byte>, m: seq<byte>, i: nat, size: nat, p: nat)
    requires Inv(c, h0) && i in h0.live && h0.blocks[i].size < size && MallocSpec(c, h0, size).1.Some?
    requires var (h1, r) := MallocSpec(c, h0, size);
             Inv(c, h1) && i in h1.live && h == FreeSpec(c, h1, i) && p == Data(h1, r.value)
    requires PayloadsKept(h0, h0.live, m0, m) && Kept(m0, m, Data(h0, i), p, h0.blocks[i].size)
    ensures Reallocated(c, h0, h, m0, m, i, size, p)
  {
  }

  lemma ReallocatedByFree(c: Config, h0: Heap, h: Heap, m0: seq<byte>, m: seq<byte>, i: nat)
    requires Inv(c, h0) && i in h0.live && h == FreeSpec(c, h0, i) && PayloadsKept(h0, h0.live, m0, m)
    ensures Reallocated(c, h0, h, m0, m, i, 0, 0)
  {
  }

  lemma ReallocatedInPlace(c: Config, h0: Heap, m: seq<byte>, i: nat, size: nat, p: nat)
    requires Inv(c, h0) && i in h0.live && 0 < size <= h0.blocks[i].size && p == Data(h0, i)
    requires p + h0.blocks[i].size <= |m| && PayloadsKept(h0, h0.live, m, m)
    ensures Reallocated(c, h0, h0, m, m, i, size, p)
  {
  }

  lemma ReallocatedNothing(c: Config, h0: Heap, m0: seq<byte>, m: seq<byte>, i: nat, size: nat)
    requires Inv(c, h0) && i in h0.live && h0.blocks[i].size < size && MallocSpec(c, h0, size).1.None?
    requires m == m0 && PayloadsKept(h0, h0.live, m0, m)
    ensures MallocSpec(c, h0, size).0 == h0 && Reallocated(c, h0, h0, m0, m, i, size, 0)
  {
    MallocMeaning(c, h0, size);
  }

  /** No block has address 0, so a null pointer means that there was none. */
  lemma AddressNotNull(c: Config, h: Heap, size: nat)
    requires Inv(c, h)
    ensures var (h', r) := MallocSpec(c, h, size); Pointer(h', r) == 0 <==> r.None?
  {
  }

  lemma LastState(c: Config, t: seq<Heap>)
    requires Run(c, t)
    ensures |t| > 0 && Inv(c, t[|t| - 1])
  {
  }

  class Allocator {
    const c: Config
    const mem: array<byte>
    var nextBlock: nat
    var freeList: seq<nat>

    ghost var heap: Heap
    ghost var links: seq<nat>
    ghost var history: seq<Heap>

    ghost predicate Represents()
      reads this, mem
    {
      Representation(c, heap, links, nextBlock, freeList, mem[..])
    }

    ghost predicate Valid()
      reads this, mem
    {
      Represents() && Run(c, history) && history[|history| - 1] == heap
    }

    /** No 32-bit sum or rounding in the code exceeds a word for this request. */
    ghost predicate NoWrap(request: nat)
      requires GoodConfig(c)
    {
      c.top + HEADER + Capacity(c, request) + 15 < WORD_LIMIT
    }

    constructor (c: Config, mem: array<byte>)
      requires GoodConfig(c) && 2 * c.top <= mem.Length <= WORD_LIMIT
      ensures Valid() && heap == Initial(c) && this.c == c && this.mem == mem && nextBlock == c.low
    {
      this.c, this.mem := c, mem;
      nextBlock := c.low;
      freeList := seq(|c.table| - 1, _ => 0);
      heap, links, history := Initial(c), [], [Initial(c)];
      InitialInv(c);
    }

    /** `p` is null or has room for a header before it, as every pointer handed out does. */
    ghost predicate Readable(p: nat) {
      p == 0 || HEADER <= p <= mem.Length
    }

    /** The header before `p` carries the magic. */
    ghost predicate Stamped(p: nat)
      requires Readable(p)
      reads mem
    {
      p != 0 && Word(mem[..], p - HEADER) == MAGIC
    }

    method GetAllocated(p: nat) returns (size: nat)
      requires Readable(p)
      ensures size == if Stamped(p) then Word(mem[..], p - HEADER + 4) else 0
    {
      if p == 0 {
        return 0;
      }
      var magic := LoadWord(mem, p - HEADER);
      if magic != MAGIC {
        return 0;
      }
      size := LoadWord(mem, p - HEADER + 4);
    }

    /** At any time the blocks in memory tile [low, nextBlock) with intact magics, and the heap has grown by
        the peak demand of each bucket over the past plus every oversize block ever carved; and every free list in
        memory is null-terminated and holds just the free blocks of its bucket. */
    lemma HeapShape(j: nat)
      requires Valid() && j < Buckets(c)
      ensures Walk(mem[..], c.low, nextBlock) == Some(heap.blocks)
      ensures nextBlock - c.low == PeakBytes(c, history, Buckets(c)) + OversizeBytes(c, heap, |heap.blocks|)
      ensures j < |heap.free| == |freeList| && forall x :: 0 <= x < |heap.free[j]| ==> heap.free[j][x] < |heap.blocks|
      ensures Follow(mem[..], freeList[j], |heap.free[j]|) == Some(Addresses(heap.blocks, heap.free[j], 0))
    {
      hide Representation, Run, Follow, Walk, Addresses, PeakBytes, OversizeBytes;
      Basics(c, heap, links, nextBlock, freeList, mem[..], j);
      LastState(c, history);
      FollowLists(c, heap, links, nextBlock, freeList, mem[..], j);
      WalkTiles(c, heap, links, nextBlock, freeList, mem[..]);
      HighWaterMark(c, history);
    }

    /** The search loop: the bucket a request falls in, or the final 0, and the capacity it will get. */
    method FindBucket(request: nat) returns (j: nat, size: nat)
      requires GoodConfig(c)
      ensures j == Bucket(c, request) && size == Capacity(c, request)
    {
      size := request;
      j := 0;
      while c.table[j] > 0
        invariant j < |c.table| && size == request
        invariant forall i :: 0 <= i < j ==> c.table[i] < request
        decreases |c.table| - j
      {
        if request <= c.table[j] {
          size := c.table[j];
          break;
        }
        j := j + 1;
      }
    }

    method WriteHeader(header: nat, size: nat)
      requires header + HEADER <= mem.Length && size < WORD_LIMIT
      modifies mem
      ensures HeaderIs(mem[..], Block(header, size), 0)
      ensures SameOutside(old(mem[..]), mem[..], header, header + HEADER)
    {
      StoreWord(mem, header, MAGIC);
      ghost var m1 := mem[..];
      StoreWord(mem, header + 4, size);
      ghost var m2 := mem[..];
      StoreWord(mem, header + 8, 0);
      WordUnchanged(m1, m2, header + 4, header + 8, header);
      WordUnchanged(m2, mem[..], header + 8, header + 12, header);
      WordUnchanged(m2, mem[..], header + 8, header + 12, header + 4);
    }

    method Malloc(request: nat) returns (p: nat)
      requires Valid() && NoWrap(request)
      modifies this, mem
      ensures Valid() && history == old(history) + [heap]
      ensures var (h, r) := MallocSpec(c, old(heap), request); heap == h && p == Pointer(h, r)
      ensures p == 0 ==> mem[..] == old(mem[..])
      ensures p != 0 ==> SameOutside(old(mem[..]), mem[..], p - HEADER, p)
      ensures PayloadsKept(old(heap), old(heap.live), old(mem[..]), mem[..])
    {
      hide Representation, Run, Inv, PayloadsKept, Word, Bucket, Capacity, SameOutside, MallocSpec, End;
      ghost var h0, m0 := heap, mem[..];
      RunMalloc(c, history, request);
      MallocOfNothing(c, h0);
      Basics(c, h0, links, nextBlock, freeList, m0, Bucket(c, request));
      heap := MallocSpec(c, h0, request).0;
      history := history + [heap];
      if request == 0 {
        return 0;
      }
      var j, size := FindBucket(request);
      BucketOfSize(c, request);
      MallocWays(c, h0, request);
      var header: nat;
      if c.table[j] > 0 && freeList[j] != 0 {
        header := freeList[j];
        var next := LoadWord(mem, header + 8);
        StoreWord(mem, header + 8, 0);
        TakeKeeps(c, h0, links, nextBlock, freeList, m0, mem[..], j);
        SameOutsideMore(m0, mem[..], header + 8, header + 12, header, header + 12);
        freeList, links := freeList[j := next], links[h0.free[j][0] := 0];
      } else {
        header := nextBlock;
        var t1 := HEADER + size;
        var t2 := (t1 + 15) / 16 * 16;
        var next := nextBlock + t2;
        if next > c.top {
          return 0;
        }
        nextBlock := next;
        WriteHeader(header, size);
        CarveKeeps(c, h0, links, header, freeList, m0, mem[..], Block(header, size));
        links := links + [0];
      }
      p := header + HEADER;
    }

    /** `p` may be given back: null, a block in use, or something without a magic, which is ignored. */
    ghost predicate Freeable(p: nat)
      reads this, mem
    {
      Readable(p) && (Stamped(p) ==> exists i: nat :: PointsTo(heap, p, i))
    }

    method Free(p: nat)
      requires Valid() && Freeable(p)
      modifies this, mem
      ensures Valid() && old(history) <= history
      ensures !old(Stamped(p)) ==> heap == old(heap) && history == old(history) && mem[..] == old(mem[..])
      ensures old(Stamped(p)) ==>
                && history == old(history) + [heap]
                && (forall i: nat :: PointsTo(old(heap), p, i) ==> heap == FreeSpec(c, old(heap), i))
                && SameOutside(old(mem[..]), mem[..], p - 4, p)
                && PayloadsKept(old(heap), old(heap.live), old(mem[..]), mem[..])
    {
      hide Representation, Run, Inv, PayloadsKept, Word, PointsTo, FreeSpec, SameOutside;
      if p == 0 {
        return;
      }
      var header := p - HEADER;
      var magic := LoadWord(mem, header);
      if magic != MAGIC {
        return;
      }
      ghost var i: nat :| PointsTo(heap, p, i);
      ghost var h0, m0 := heap, mem[..];
      OnePointer(c, h0, links, nextBlock, freeList, m0, p, i);
      RunFree(c, history, i);
      SameOutsideMore(m0, m0, 0, 0, p - 4, p);
      FreeIs(c, h0, i);
      var size := LoadWord(mem, header + 4);
      heap := FreeSpec(c, h0, i);
      history := history + [heap];
      var j := 0;
      while c.table[j] > 0
        invariant j < |c.table|
        invariant forall k :: 0 <= k < j ==> c.table[k] != size
        invariant mem[..] == m0 && freeList == old(freeList) && links == old(links)
        decreases |c.table| - j
      {
        if size == c.table[j] {
          StoreWord(mem, header + 8, freeList[j]);
          PushKeeps(c, h0, links, nextBlock, freeList, m0, mem[..], i, j);
          links, freeList := links[i := freeList[j]], freeList[j := header];
          return;
        }
        j := j + 1;
      }
      RetireKeeps(c, h0, links, nextBlock, freeList, m0, i);
    }

    /** A block of so many zero bytes. */
    method Cleared(total: nat) returns (p: nat)
      requires Valid() && NoWrap(total)
      modifies this, mem
      ensures Valid() && history == old(history) + [heap]
      ensures var (h, r) := MallocSpec(c, old(heap), total); heap == h && p == Pointer(h, r) && (p == 0 <==> r.None?)
      ensures p == 0 ==> mem[..] == old(mem[..])
      ensures p != 0 ==> p + total <= mem.Length && forall x :: p <= x < p + total ==> mem[x] == 0
      ensures PayloadsKept(old(heap), old(heap.live), old(mem[..]), mem[..])
    {
      hide Representation, Run, Inv, Word, Bucket, Capacity, MallocSpec, PayloadsKept, SameOutside;
      ghost var h0, m0 := heap, mem[..];
      RunMalloc(c, history, total);
      AddressNotNull(c, h0, total);
      p := Malloc(total);
      if p == 0 {
        return;
      }
      ghost var m1 := mem[..];
      NewBlockFilled(c, h0, total, links, nextBlock, freeList, m0, m1, m1);
      Basics(c, heap, links, nextBlock, freeList, m1, 0);
      Clear(mem, p, total);
      NewBlockFilled(c, h0, total, links, nextBlock, freeList, m0, m1, mem[..]);
    }

    /** The product is a 32-bit one: when it wraps, the block is that much smaller than was asked for. */
    method Calloc(n: nat, size: nat) returns (p: nat)
      requires Valid() && NoWrap(n * size % WORD_LIMIT)
      modifies this, mem
      ensures Valid() && (history == old(history) + [heap] || (history == old(history) && heap == old(heap)))
      ensures var (h, r) := MallocSpec(c, old(heap), n * size % WORD_LIMIT); heap == h && p == Pointer(h, r)
      ensures p == 0 ==> mem[..] == old(mem[..])
      ensures var total := n * size % WORD_LIMIT;
              p != 0 ==> p + total <= mem.Length && forall x :: p <= x < p + total ==> mem[x] == 0
      ensures p != 0 ==> (forall i: nat :: PointsTo(heap, p, i) ==> (n * size <= heap.blocks[i].size <==> n * size < WORD_LIMIT))
      ensures PayloadsKept(old(heap), old(heap.live), old(mem[..]), mem[..])
    {
      hide Representation, Run, Inv, Word, Bucket, Capacity, MallocSpec, PayloadsKept, SameOutside, PointsTo;
      ghost var h0 := heap;
      var total := n * size % WORD_LIMIT;
      RunMalloc(c, history, total);
      MallocOfNothing(c, h0);
      Basics(c, h0, links, nextBlock, freeList, mem[..], 0);
      if n == 0 || size == 0 {
        return 0;
      }
      p := Cleared(total);
      if p != 0 {
        CallocCovers(c, h0, n * size, links, nextBlock, freeList, mem[..]);
      }
    }

    /** The copy loops of realloc, then the release of the old block. `h0` and `m0` are the bookkeeping and the
        memory before malloc found the new block. */
    method Move(ptr: nat, p: nat, size: nat, current: nat, ghost h0: Heap, ghost m0: seq<byte>, ghost i: nat)
      requires Valid() && Inv(c, h0) && PointsTo(h0, ptr, i) && current == h0.blocks[i].size < size
      requires var (h1, r) := MallocSpec(c, h0, size); heap == h1 && r.Some? && p == Data(h1, r.value)
      requires PayloadsKept(h0, h0.live, m0, mem[..])
      modifies this, mem
      ensures Valid() && old(history) <= history
      ensures Inv(c, old(heap)) && i in old(heap.live) && heap == FreeSpec(c, old(heap), i)
      ensures PayloadsKept(h0, h0.live, m0, mem[..]) && Kept(m0, mem[..], ptr, p, current)
    {
      hide Representation, Run, Inv, Word, Bucket, Capacity, FreeSpec, SameOutside, PayloadsKept, Kept, MallocSpec;
      ghost var h1, m1, r := heap, mem[..], MallocSpec(c, h0, size).1.value;
      Grown(c, h0, i, size, links, nextBlock, freeList, m0, m1);
      OnePointer(c, h1, links, nextBlock, freeList, m1, ptr, i);
      CopyUp(mem, p, ptr, size, current);
      ghost var m2 := mem[..];
      KeptIs(m1, m2, ptr, p, current);
      NewBlockFilled(c, h0, size, links, nextBlock, freeList, m0, m1, m2);
      OnePointer(c, h1, links, nextBlock, freeList, m2, ptr, i);
      Free(ptr);
      PayloadsChain(h0, h1, h0.live, h1.live, m0, m2, mem[..]);
      CopyKept(h1, r, current, m0, m1, m2, mem[..], ptr);
    }

    /** The last part of realloc: a larger block, and the move to it. */
    method Grow(ptr: nat, size: nat, current: nat, ghost i: nat) returns (p: nat)
      requires Valid() && NoWrap(size) && PointsTo(heap, ptr, i) && current == heap.blocks[i].size < size
      modifies this, mem
      ensures Valid() && old(history) <= history && Inv(c, old(heap)) && i in old(heap.live)
      ensures Reallocated(c, old(heap), heap, old(mem[..]), mem[..], i, size, p)
    {
      hide Representation, Run, Inv, Word, Bucket, Capacity, PointsTo, FreeSpec, SameOutside, PayloadsKept, MallocSpec, Reallocated, ReallocSpec;
      ghost var h0, m0 := heap, mem[..];
      OnePointer(c, h0, links, nextBlock, freeList, m0, ptr, i);
      LastState(c, history);
      p := Malloc(size);
      if p != 0 {
        Move(ptr, p, size, current, h0, m0, i);
        ReallocatedByMove(c, h0, heap, m0, mem[..], i, size, p);
      } else {
        AddressNotNull(c, h0, size);
        ReallocatedNothing(c, h0, m0, mem[..], i, size);
      }
    }

    method Realloc(ptr: nat, size: nat) returns (p: nat)
      requires Valid() && NoWrap(size) && (ptr == 0 || exists i: nat :: PointsTo(heap, ptr, i))
      modifies this, mem
      ensures Valid() && old(history) <= history
      ensures ptr == 0 ==> var (h, r) := MallocSpec(c, old(heap), size); heap == h && p == Pointer(h, r)
      ensures ptr == 0 ==> PayloadsKept(old(heap), old(heap.live), old(mem[..]), mem[..])
      ensures forall i: nat :: ptr != 0 && PointsTo(old(heap), ptr, i) ==>
                Reallocated(c, old(heap), heap, old(mem[..]), mem[..], i, size, p)
    {
      hide Representation, Run, Inv, Word, Bucket, Capacity, PointsTo, FreeSpec, SameOutside, PayloadsKept, Reallocated, MallocSpec, ReallocSpec, Kept;
      if ptr == 0 {
        p := Malloc(size);
        return;
      }
      ghost var i: nat :| PointsTo(heap, ptr, i);
      ghost var h0, m0 := heap, mem[..];
      OnePointer(c, h0, links, nextBlock, freeList, m0, ptr, i);
      LastState(c, history);
      if size == 0 {
        Free(ptr);
        ReallocatedByFree(c, h0, heap, m0, mem[..], i);
        return 0;
      }
      var current := GetAllocated(ptr);
      if current >= size {
        ReallocatedInPlace(c, h0, m0, i, size, ptr);
        return ptr;
      }
      p := Grow(ptr, size, current, i);
    }
  }
}
