/** What each pool operation does, on values, and the invariant every operation keeps. */
module PoolModel {
  import opened Machine
  import opened Alignment

  const ALLOC_MAX: nat := 4095   // POOL_ALLOC_MAX
  const HEADER: nat := 56        // sizeof(pool_t)
  const NODE: nat := 16          // sizeof(pool_large_t)

  /** One link of the chain; `end` does not move after `pool_new`. */
  datatype Block = Block(base: nat, last: nat, end: nat, rmd: nat)

  function CapacityOf(bs: seq<Block>): int
    requires |bs| > 0
  {
    bs[0].end - bs[0].base
  }

  /** A large allocation: its list node, in block `blk` at `node`, and its malloc'd data. */
  datatype Large = Large(blk: nat, node: nat, data: nat, size: nat)

  /** A live, non-empty allocation carved from block `blk`; `internal` ones are list nodes. */
  datatype Item = Item(blk: nat, at: nat, size: nat, internal: bool)

  /** `cur` is an index into the chain; `larges` is in list order. */
  datatype Pool = Pool(blocks: seq<Block>, cur: nat, larges: seq<Large>, size: nat, items: set<Item>) {
    function Capacity(): int
      requires |blocks| > 0
    {
      CapacityOf(blocks)
    }
  }

  /** The pool after a call, and the address it answered, 0 for NULL. */
  datatype Grant = Grant(pool: Pool, at: nat)

  function ItemRange(x: Item): Range { Range(x.at, x.size) }

  function Header(b: Block): Range { Range(b.base, HEADER) }

  /** `(size_t) (p->end - align_ptr(p->last))`: a negative difference wraps. */
  function Room(b: Block): int {
    if Align(b.last) <= b.end then b.end - Align(b.last) else WORD_LIMIT - (Align(b.last) - b.end)
  }

  // ----- the operations -----

  function New(base: nat, size: nat, rmd: nat): Pool {
    Pool([Block(base, base + HEADER, base + size, if rmd < ALIGNMENT then ALIGNMENT else rmd)], 0, [], size, {})
  }

  /** The first block from `i` on with room for `n` bytes, or the length of the chain. */
  function FirstFit(bs: seq<Block>, i: nat, n: nat): (j: nat)
    requires i <= |bs|
    ensures i <= j <= |bs|
    ensures forall k :: i <= k < j ==> Room(bs[k]) < n
    ensures j < |bs| ==> Room(bs[j]) >= n
    decreases |bs| - i
  {
    if i == |bs| || Room(bs[i]) >= n then i else FirstFit(bs, i + 1, n)
  }

  /** Where the search start goes once blocks `from..to` were passed over: behind the last nearly full one. */
  function Advance(bs: seq<Block>, from: nat, to: nat): (c: nat)
    requires from <= to <= |bs|
    ensures from <= c <= to
    ensures c > from ==> Room(bs[c - 1]) < bs[c - 1].rmd
    ensures forall k :: c <= k < to ==> Room(bs[k]) >= bs[k].rmd
  {
    if to == from then from
    else if Room(bs[to - 1]) < bs[to - 1].rmd then to
    else Advance(bs, from, to - 1)
  }

  predicate Usable(p: Pool) { p.cur < |p.blocks| && p.Capacity() >= HEADER }

  function Track(items: set<Item>, x: Item): set<Item> {
    if x.size == 0 then items else items + {x}
  }

  /** A request for `n` bytes carved from a block; `blk` answers the `malloc` of a new block, if one is needed. */
  function AllocSmall(p: Pool, n: nat, internal: bool, blk: nat): Grant
    requires Usable(p)
  {
    var j := FirstFit(p.blocks, p.cur, n);
    if j < |p.blocks| then
      var m := Align(p.blocks[j].last);
      Grant(Pool(p.blocks[j := p.blocks[j].(last := m + n)], Advance(p.blocks, p.cur, j), p.larges, p.size,
                 Track(p.items, Item(j, m, n, internal))), m)
    else if blk == 0 then
      Grant(p.(cur := Advance(p.blocks, p.cur, j - 1)), 0)
    else
      var m := Align(blk + HEADER);
      var b := Block(blk, m + n, blk + p.Capacity(), p.blocks[j - 1].rmd);
      Grant(Pool(p.blocks + [b], Advance(p.blocks, p.cur, j), p.larges, p.size + p.Capacity(),
                 Track(p.items, Item(j, m, n, internal))), m)
  }

  predicate Small(p: Pool, n: nat)
    requires Usable(p)
  {
    n <= ALLOC_MAX && n <= p.Capacity() - HEADER
  }

  /** `pool_alloc`; `big` answers the `malloc` of a large request. */
  function Alloc(p: Pool, n: nat, big: nat, blk: nat): Grant
    requires Usable(p)
  {
    if Small(p, n) then AllocSmall(p, n, false, blk)
    else if big == 0 then Grant(p, 0)
    else
      var g := AllocSmall(p, NODE, true, blk);
      if g.at == 0 then g
      else
        var j := FirstFit(p.blocks, p.cur, NODE);
        Grant(g.pool.(larges := [Large(j, g.at, big, n)] + g.pool.larges, size := g.pool.size + n), big)
  }

  /** `pool_free`. */
  function Free(p: Pool, a: nat, n: nat): Pool
    requires Usable(p)
  {
    var b := p.blocks[p.cur];
    if b.last == a + n
    then p.(blocks := p.blocks[p.cur := b.(last := a)],
            items := set x | x in p.items && !(x.blk == p.cur && x.at == a && x.size == n))
    else p
  }

  /** The addresses `pool_delete` hands to `free`, in order. */
  function Released(p: Pool): seq<nat> {
    seq(|p.larges|, i requires 0 <= i < |p.larges| => p.larges[i].data)
    + seq(|p.blocks|, i requires 0 <= i < |p.blocks| => p.blocks[i].base)
  }

  // ----- the effect on the heap -----

  predicate NeedsBlock(p: Pool, n: nat)
    requires Usable(p)
  {
    FirstFit(p.blocks, p.cur, if Small(p, n) then n else NODE) == |p.blocks|
  }

  /** The answers `big` and `blk` could have come from `malloc`. */
  ghost predicate Plausible(p: Pool, live: Live, n: nat, big: nat, blk: nat)
    requires Usable(p)
  {
    && (!Small(p, n) && big != 0 ==> Grantable(live, big, n))
    && (NeedsBlock(p, n) && (Small(p, n) || big != 0) && blk != 0 ==>
          Grantable(if Small(p, n) then live else live[big := n], blk, p.Capacity()))
  }

  /** The heap after `pool_alloc`: a large range whose list node could not be had is given back. */
  function LiveAfter(p: Pool, live: Live, n: nat, big: nat, blk: nat): Live
    requires Usable(p)
  {
    var grown := NeedsBlock(p, n) && blk != 0;
    if Small(p, n) then (if grown then live[blk := p.Capacity()] else live)
    else if big == 0 || (NeedsBlock(p, n) && blk == 0) then live
    else if grown then live[big := n][blk := p.Capacity()]
    else live[big := n]
  }

  // ----- the invariant -----

  function Total(ls: seq<Large>): nat {
    if ls == [] then 0 else ls[0].size + Total(ls[1..])
  }

  function Times(k: int, n: nat): int {
    if n == 0 then 0 else k + Times(k, n - 1)
  }

  ghost predicate BlockOk(b: Block, capacity: int, rmd: nat, live: Live) {
    && 0 < b.base && b.base % ALIGNMENT == 0 && b.end == b.base + capacity < WORD_LIMIT
    && b.base + HEADER <= b.last <= b.end
    && ALIGNMENT <= b.rmd == rmd
    && b.base in live && live[b.base] == capacity
  }

  ghost predicate BlocksOk(bs: seq<Block>, live: Live) {
    && |bs| > 0
    && CapacityOf(bs) % ALIGNMENT == 0 && HEADER + NODE <= CapacityOf(bs)
    && (forall i {:trigger bs[i]} :: 0 <= i < |bs| ==> BlockOk(bs[i], CapacityOf(bs), bs[0].rmd, live))
    && (forall i, j {:trigger bs[i], bs[j]} :: 0 <= i < j < |bs| ==> bs[i].base != bs[j].base)
  }

  ghost predicate LargeOk(l: Large, items: set<Item>, live: Live) {
    && l.size > 0 && l.data > 0 && l.data in live && live[l.data] == l.size
    && Item(l.blk, l.node, NODE, true) in items
  }

  ghost predicate LargesOk(ls: seq<Large>, bs: seq<Block>, items: set<Item>, live: Live) {
    && (forall i {:trigger ls[i]} :: 0 <= i < |ls| ==> LargeOk(ls[i], items, live))
    && (forall i, j {:trigger ls[i], ls[j]} :: 0 <= i < j < |ls| ==>
         ls[i].data != ls[j].data && ls[i].node != ls[j].node)
    && (forall i, j {:trigger ls[i], bs[j]} :: 0 <= i < |ls| && 0 <= j < |bs| ==> ls[i].data != bs[j].base)
  }

  ghost predicate ItemOk(x: Item, bs: seq<Block>) {
    && x.blk < |bs| && 0 < x.size <= ALLOC_MAX && x.at % ALIGNMENT == 0
    && bs[x.blk].base + HEADER <= x.at && x.at + x.size <= bs[x.blk].last
  }

  ghost predicate ItemsOk(items: set<Item>, bs: seq<Block>) {
    && (forall x :: x in items ==> ItemOk(x, bs))
    && (forall x, y {:trigger Apart(ItemRange(x), ItemRange(y))} ::
          x in items && y in items && x != y ==> Apart(ItemRange(x), ItemRange(y)))
  }

  /** The block just before the search start is nearly full. */
  ghost predicate CurOk(bs: seq<Block>, cur: nat) {
    cur < |bs| && (cur > 0 ==> Room(bs[cur - 1]) < bs[cur - 1].rmd)
  }

  /** `size` counts the capacity of every block and every large request. */
  ghost predicate Accounted(p: Pool)
    requires |p.blocks| > 0
  {
    p.size == Times(p.Capacity(), |p.blocks|) + Total(p.larges)
  }

  /** Alignment, bounds, disjointness, ownership and accounting, for a pool on the heap `live`. */
  ghost predicate Inv(p: Pool, live: Live)
    ensures Inv(p, live) ==> Usable(p) && Separate(live)
  {
    && Separate(live)
    && BlocksOk(p.blocks, live)
    && LargesOk(p.larges, p.blocks, p.items, live)
    && ItemsOk(p.items, p.blocks)
    && CurOk(p.blocks, p.cur)
    && Accounted(p)
  }
}
