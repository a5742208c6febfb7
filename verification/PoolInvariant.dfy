/** Every pool operation keeps the invariant, and the invariant means disjointness. */
module PoolInvariant {
  import opened Machine
  import opened Alignment
  import opened PoolModel

  lemma GrowSeparate(live: Live, a: nat, n: nat)
    requires Separate(live) && Grantable(live, a, n)
    ensures Separate(live[a := n])
  {
  }

  /** An unrelated `malloc` leaves the pool's invariant alone. */
  lemma GrowInv(p: Pool, live: Live, a: nat, n: nat)
    requires Inv(p, live) && Grantable(live, a, n)
    ensures Inv(p, live[a := n])
  {
    GrowSeparate(live, a, n);
    assert BlocksOk(p.blocks, live[a := n]);
    assert LargesOk(p.larges, p.blocks, p.items, live[a := n]);
  }

  lemma NewInv(live: Live, base: nat, size: nat, rmd: nat)
    requires Separate(live) && Grantable(live, base, size)
    requires size % ALIGNMENT == 0 && HEADER + NODE <= size
    ensures Inv(New(base, size, rmd), live[base := size])
  {
    GrowSeparate(live, base, size);
  }

  lemma BlocksApart(bs: seq<Block>, live: Live, i: nat, j: nat)
    requires Separate(live) && BlocksOk(bs, live) && i < |bs| && j < |bs| && i != j
    ensures bs[i].end <= bs[j].base || bs[j].end <= bs[i].base
  {
    var a, b := bs[i].base, bs[j].base;
    assert a != b;
    assert Apart(Range(a, live[a]), Range(b, live[b]));
  }

  /** What is carved from the free end of block `j` is apart from everything carved before. */
  lemma FreeEndApart(items: set<Item>, bs: seq<Block>, live: Live, j: nat, m: nat, n: nat)
    requires Separate(live) && BlocksOk(bs, live) && ItemsOk(items, bs) && j < |bs|
    requires bs[j].last <= m && m + n <= bs[j].end
    ensures forall x :: x in items ==> Apart(ItemRange(x), Range(m, n))
  {
    forall x | x in items ensures Apart(ItemRange(x), Range(m, n)) {
      assert ItemOk(x, bs);
      if x.blk != j { BlocksApart(bs, live, x.blk, j); }
    }
  }

  /** Room is exact: while `last` is in bounds the unsigned subtraction does not wrap. */
  lemma RoomExact(bs: seq<Block>, live: Live, j: nat)
    requires BlocksOk(bs, live) && j < |bs|
    ensures Align(bs[j].last) <= bs[j].end
    ensures Room(bs[j]) == bs[j].end - Align(bs[j].last)
  {
    assert BlockOk(bs[j], CapacityOf(bs), bs[0].rmd, live);
  }

  lemma BumpBlocks(bs: seq<Block>, live: Live, j: nat, last: nat)
    requires BlocksOk(bs, live) && j < |bs|
    requires bs[j].base + HEADER <= last <= bs[j].end
    ensures BlocksOk(bs[j := bs[j].(last := last)], live)
  {
    var cs := bs[j := bs[j].(last := last)];
    assert CapacityOf(cs) == CapacityOf(bs);
    forall i | 0 <= i < |cs| ensures BlockOk(cs[i], CapacityOf(cs), cs[0].rmd, live) {
      assert BlockOk(bs[i], CapacityOf(bs), bs[0].rmd, live);
    }
  }

  lemma BumpLarges(ls: seq<Large>, bs: seq<Block>, items: set<Item>, live: Live, j: nat, last: nat, items': set<Item>)
    requires LargesOk(ls, bs, items, live) && j < |bs| && items <= items'
    ensures LargesOk(ls, bs[j := bs[j].(last := last)], items', live)
  {
  }

  lemma TrackItems(items: set<Item>, bs: seq<Block>, x: Item)
    requires ItemsOk(items, bs) && (x.size > 0 ==> ItemOk(x, bs))
    requires forall y :: y in items ==> Apart(ItemRange(y), ItemRange(x))
    ensures ItemsOk(Track(items, x), bs)
  {
  }

  /** Items survive any growth of the blocks they lie in. */
  lemma ItemsKept(items: set<Item>, bs: seq<Block>, cs: seq<Block>)
    requires ItemsOk(items, bs) && |bs| <= |cs|
    requires forall i {:trigger cs[i]} :: 0 <= i < |bs| ==> bs[i].base == cs[i].base && bs[i].last <= cs[i].last
    ensures ItemsOk(items, cs)
  {
    forall x | x in items ensures ItemOk(x, cs) {
      assert ItemOk(x, bs);
    }
  }

  /** A request served from a block already in the chain. */
  lemma FitInv(p: Pool, live: Live, n: nat, internal: bool, blk: nat)
    requires Inv(p, live) && n <= ALLOC_MAX && FirstFit(p.blocks, p.cur, n) < |p.blocks|
    ensures var g := AllocSmall(p, n, internal, blk); Inv(g.pool, live) && g.at > 0
  {
    hide Align, Room, Advance, FirstFit;
    var j := FirstFit(p.blocks, p.cur, n);
    var m := Align(p.blocks[j].last);
    RoomExact(p.blocks, live, j);
    BumpBlocks(p.blocks, live, j, m + n);
    FreeEndApart(p.items, p.blocks, live, j, m, n);
    var q := AllocSmall(p, n, internal, blk).pool;
    ItemsKept(p.items, p.blocks, q.blocks);
    TrackItems(p.items, q.blocks, Item(j, m, n, internal));
    BumpLarges(p.larges, p.blocks, p.items, live, j, m + n, q.items);
  }

  lemma AppendBlocks(bs: seq<Block>, live: Live, b: Block)
    requires BlocksOk(bs, live) && BlockOk(b, CapacityOf(bs), bs[0].rmd, live)
    requires forall i :: 0 <= i < |bs| ==> bs[i].base != b.base
    ensures BlocksOk(bs + [b], live)
  {
  }

  /** The first item of a new block. */
  lemma AppendItems(items: set<Item>, bs: seq<Block>, live: Live, b: Block, x: Item)
    requires Separate(live) && BlocksOk(bs, live) && ItemsOk(items, bs)
    requires BlocksOk(bs + [b], live)
    requires x.blk == |bs| && x.at == b.base + HEADER && x.at + x.size == b.last && x.size <= ALLOC_MAX
    ensures ItemsOk(Track(items, x), bs + [b])
  {
    var empty := b.(last := b.base + HEADER);
    assert BlockOk((bs + [b])[|bs|], CapacityOf(bs), bs[0].rmd, live);
    BumpBlocks(bs + [b], live, |bs|, empty.last);
    assert (bs + [b])[|bs| := empty] == bs + [empty];
    ItemsKept(items, bs, bs + [empty]);
    FreeEndApart(items, bs + [empty], live, |bs|, x.at, x.size);
    ItemsKept(items, bs, bs + [b]);
    TrackItems(items, bs + [b], x);
  }

  lemma AppendLarges(ls: seq<Large>, bs: seq<Block>, items: set<Item>, live: Live, b: Block, items': set<Item>)
    requires LargesOk(ls, bs, items, live) && items <= items'
    requires b.base !in live && b.base <= b.end
    ensures LargesOk(ls, bs + [b], items', live[b.base := b.end - b.base])
  {
    forall i | 0 <= i < |ls|
      ensures LargeOk(ls[i], items', live[b.base := b.end - b.base]) && ls[i].data != b.base
    {
      assert LargeOk(ls[i], items, live);
    }
  }

  lemma BaseIsNew(bs: seq<Block>, live: Live, a: nat)
    requires BlocksOk(bs, live) && a !in live
    ensures forall i :: 0 <= i < |bs| ==> bs[i].base != a
  {
    forall i | 0 <= i < |bs| ensures bs[i].base != a {
      assert BlockOk(bs[i], CapacityOf(bs), bs[0].rmd, live);
    }
  }

  lemma NewBlockOk(blk: nat, n: nat, capacity: int, rmd: nat, live: Live)
    requires blk > 0 && blk % ALIGNMENT == 0 && n <= capacity - HEADER && blk + capacity < WORD_LIMIT
    requires blk in live && live[blk] == capacity && ALIGNMENT <= rmd
    ensures Align(blk + HEADER) == blk + HEADER
    ensures BlockOk(Block(blk, blk + HEADER + n, blk + capacity, rmd), capacity, rmd, live)
  {
  }

  /** The chain with one more block, holding one item, and the search start moved to `c`. */
  lemma GrownInv(p: Pool, live: Live, b: Block, c: nat, x: Item)
    requires Inv(p, live) && b.base !in live && b.base <= b.end
    requires var live' := live[b.base := b.end - b.base];
      Separate(live') && BlocksOk(p.blocks, live') && BlockOk(b, p.Capacity(), p.blocks[0].rmd, live')
    requires x.blk == |p.blocks| && x.at == b.base + HEADER && x.at + x.size == b.last && x.size <= ALLOC_MAX
    requires CurOk(p.blocks + [b], c)
    ensures Inv(Pool(p.blocks + [b], c, p.larges, p.size + p.Capacity(), Track(p.items, x)),
                live[b.base := b.end - b.base])
  {
    var live' := live[b.base := b.end - b.base];
    BaseIsNew(p.blocks, live, b.base);
    AppendBlocks(p.blocks, live', b);
    AppendItems(p.items, p.blocks, live', b, x);
    AppendLarges(p.larges, p.blocks, p.items, live, b, Track(p.items, x));
  }

  function FirstOf(p: Pool, n: nat, blk: nat): Block
    requires |p.blocks| > 0 && p.Capacity() >= 0
  {
    Block(blk, blk + HEADER + n, blk + p.Capacity(), p.blocks[0].rmd)
  }

  lemma AlignHeader(blk: nat)
    requires blk % ALIGNMENT == 0
    ensures Align(blk + HEADER) == blk + HEADER
  {
    AlignMultiple(blk + HEADER);
  }

  lemma AppendShape(p: Pool, n: nat, internal: bool, blk: nat)
    requires Usable(p) && p.blocks[|p.blocks| - 1].rmd == p.blocks[0].rmd && blk != 0 && blk % ALIGNMENT == 0
    requires FirstFit(p.blocks, p.cur, n) == |p.blocks|
    ensures AllocSmall(p, n, internal, blk)
         == Grant(Pool(p.blocks + [FirstOf(p, n, blk)], Advance(p.blocks, p.cur, |p.blocks|), p.larges,
                       p.size + p.Capacity(), Track(p.items, Item(|p.blocks|, blk + HEADER, n, internal))),
                  blk + HEADER)
  {
    hide Align, Room, Advance, FirstFit, Track;
    AlignHeader(blk);
  }

  lemma FoundShape(p: Pool, n: nat, internal: bool, blk: nat)
    requires Usable(p) && FirstFit(p.blocks, p.cur, n) < |p.blocks|
    ensures var j := FirstFit(p.blocks, p.cur, n); var m := Align(p.blocks[j].last);
      AllocSmall(p, n, internal, blk)
        == Grant(Pool(p.blocks[j := p.blocks[j].(last := m + n)], Advance(p.blocks, p.cur, j), p.larges, p.size,
                      Track(p.items, Item(j, m, n, internal))), m)
  {
    hide Align, Room, Advance, FirstFit, Track;
  }

  lemma RefusedShape(p: Pool, n: nat, internal: bool)
    requires Usable(p) && FirstFit(p.blocks, p.cur, n) == |p.blocks|
    ensures AllocSmall(p, n, internal, 0) == Grant(p.(cur := Advance(p.blocks, p.cur, |p.blocks| - 1)), 0)
  {
    hide Align, Room, Advance, FirstFit, Track;
  }

  /** A request served from a new block at the end of the chain. */
  lemma AppendInv(p: Pool, live: Live, n: nat, internal: bool, blk: nat)
    requires Inv(p, live) && n <= p.Capacity() - HEADER && n <= ALLOC_MAX
    requires FirstFit(p.blocks, p.cur, n) == |p.blocks|
    requires blk != 0 && Grantable(live, blk, p.Capacity())
    ensures Inv(AllocSmall(p, n, internal, blk).pool, live[blk := p.Capacity()])
  {
    hide Align, Room, Advance, FirstFit;
    assert BlockOk(p.blocks[|p.blocks| - 1], p.Capacity(), p.blocks[0].rmd, live);
    AppendShape(p, n, internal, blk);
    GrowInv(p, live, blk, p.Capacity());
    NewBlockOk(blk, n, p.Capacity(), p.blocks[0].rmd, live[blk := p.Capacity()]);
    GrownInv(p, live, FirstOf(p, n, blk), Advance(p.blocks, p.cur, |p.blocks|),
      Item(|p.blocks|, blk + HEADER, n, internal));
  }

  lemma AllocSmallInv(p: Pool, live: Live, n: nat, internal: bool, blk: nat)
    requires Inv(p, live) && n <= p.Capacity() - HEADER && n <= ALLOC_MAX
    requires FirstFit(p.blocks, p.cur, n) == |p.blocks| && blk != 0 ==> Grantable(live, blk, p.Capacity())
    ensures var g := AllocSmall(p, n, internal, blk);
      var grown := FirstFit(p.blocks, p.cur, n) == |p.blocks| && blk != 0;
      Inv(g.pool, if grown then live[blk := p.Capacity()] else live)
  {
    if FirstFit(p.blocks, p.cur, n) < |p.blocks| {
      FitInv(p, live, n, internal, blk);
    } else if blk != 0 {
      AppendInv(p, live, n, internal, blk);
    }
  }

  /** Hooking a list node that was just carved onto the list of large allocations. */
  lemma HookInv(p: Pool, live: Live, l: Large)
    requires Inv(p, live) && LargeOk(l, p.items, live)
    requires forall i :: 0 <= i < |p.larges| ==> p.larges[i].data != l.data && p.larges[i].node != l.node
    requires forall j :: 0 <= j < |p.blocks| ==> p.blocks[j].base != l.data
    ensures Inv(p.(larges := [l] + p.larges, size := p.size + l.size), live)
  {
    var ls := [l] + p.larges;
    assert ls[1..] == p.larges;
    assert LargesOk(ls, p.blocks, p.items, live);
  }

  /** A node carved for a new large allocation is none of the nodes in use. */
  lemma NodeIsNew(p: Pool, live: Live, n: nat, blk: nat, i: nat)
    requires Inv(p, live) && n == NODE && i < |p.larges|
    requires FirstFit(p.blocks, p.cur, n) == |p.blocks| && blk != 0 ==> Grantable(live, blk, p.Capacity())
    ensures p.larges[i].node != AllocSmall(p, n, true, blk).at
  {
    hide Align, Room, Advance, FirstFit, Total, Times;
    var j := FirstFit(p.blocks, p.cur, n);
    var m := AllocSmall(p, n, true, blk).at;
    var x := Item(p.larges[i].blk, p.larges[i].node, NODE, true);
    assert LargeOk(p.larges[i], p.items, live);
    assert ItemOk(x, p.blocks);
    if j < |p.blocks| {
      RoomExact(p.blocks, live, j);
      FreeEndApart(p.items, p.blocks, live, j, m, n);
      assert Apart(ItemRange(x), Range(m, n));
    } else if blk != 0 {
      var b := p.blocks[x.blk];
      assert BlockOk(b, p.Capacity(), p.blocks[0].rmd, live);
      assert Apart(Range(blk, p.Capacity()), Range(b.base, live[b.base]));
    }
  }

  lemma DataIsNew(p: Pool, live: Live, a: nat, i: nat)
    requires Inv(p, live) && a !in live && i < |p.larges|
    ensures p.larges[i].data != a
  {
    assert LargeOk(p.larges[i], p.items, live);
  }

  lemma LargeShape(p: Pool, live: Live, n: nat, big: nat, blk: nat)
    requires Usable(p) && !Small(p, n) && big != 0 && Plausible(p, live, n, big, blk)
    requires AllocSmall(p, NODE, true, blk).at != 0
    ensures var g := AllocSmall(p, NODE, true, blk);
      var l := Large(FirstFit(p.blocks, p.cur, NODE), g.at, big, n);
      && Alloc(p, n, big, blk) == Grant(g.pool.(larges := [l] + g.pool.larges, size := g.pool.size + n), big)
      && Item(l.blk, l.node, NODE, true) in g.pool.items && g.pool.larges == p.larges
    ensures FirstFit(p.blocks, p.cur, NODE) == |p.blocks| && blk != 0 ==> Grantable(live[big := n], blk, p.Capacity())
    ensures LiveAfter(p, live, n, big, blk)
         == if FirstFit(p.blocks, p.cur, NODE) == |p.blocks| && blk != 0
            then live[big := n][blk := p.Capacity()] else live[big := n]
  {
    hide Align, Room, Advance, FirstFit;
  }

  lemma AllocLargeInv(p: Pool, live: Live, n: nat, big: nat, blk: nat)
    requires Inv(p, live) && !Small(p, n) && big != 0 && Plausible(p, live, n, big, blk)
    requires AllocSmall(p, NODE, true, blk).at != 0
    ensures Inv(Alloc(p, n, big, blk).pool, LiveAfter(p, live, n, big, blk))
  {
    hide Align, Room, Advance, FirstFit, ItemsOk, LargesOk, Accounted, AllocSmall, Alloc, LiveAfter;
    var g := AllocSmall(p, NODE, true, blk);
    var live' := live[big := n];
    var l := Large(FirstFit(p.blocks, p.cur, NODE), g.at, big, n);
    LargeShape(p, live, n, big, blk);
    GrowInv(p, live, big, n);
    AllocSmallInv(p, live', NODE, true, blk);
    forall i | 0 <= i < |p.larges| ensures p.larges[i].node != g.at && p.larges[i].data != big {
      NodeIsNew(p, live', NODE, blk, i);
      DataIsNew(p, live, big, i);
    }
    BaseIsNew(p.blocks, live, big);
    LargeBases(p, live, NODE, blk, big);
    HookInv(g.pool, LiveAfter(p, live, n, big, blk), l);
  }

  /** No block of the chain after a small request starts at the large range granted just before. */
  lemma LargeBases(p: Pool, live: Live, n: nat, blk: nat, big: nat)
    requires Usable(p) && (FirstFit(p.blocks, p.cur, n) == |p.blocks| && blk != 0 ==> blk != big)
    requires forall i :: 0 <= i < |p.blocks| ==> p.blocks[i].base != big
    ensures var q := AllocSmall(p, n, true, blk).pool; forall i :: 0 <= i < |q.blocks| ==> q.blocks[i].base != big
  {
    hide Align, Room, Advance;
  }

  lemma AllocInv(p: Pool, live: Live, n: nat, big: nat, blk: nat)
    requires Inv(p, live) && Plausible(p, live, n, big, blk)
    ensures Inv(Alloc(p, n, big, blk).pool, LiveAfter(p, live, n, big, blk))
  {
    hide Align, Room, Advance, FirstFit, LargesOk, ItemsOk, Accounted;
    if Small(p, n) {
      AllocSmallInv(p, live, n, false, blk);
    } else if big != 0 {
      if AllocSmall(p, NODE, true, blk).at == 0 {
        AllocSmallInv(p, live, NODE, true, blk);
      } else {
        AllocLargeInv(p, live, n, big, blk);
      }
    }
  }
}
