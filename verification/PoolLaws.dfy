/** What the invariant buys the caller: disjointness, exact `pool_free`, and whole runs ending in `pool_delete`. */
module PoolLaws {
  import opened Machine
  import opened Alignment
  import opened PoolModel
  import opened PoolInvariant

  // ----- disjointness -----

  /** A user allocation that is live: carved from a block, or large. */
  ghost predicate LiveAllocation(p: Pool, r: Range) {
    || (exists x :: x in p.items && !x.internal && ItemRange(x) == r)
    || (exists i :: 0 <= i < |p.larges| && Range(p.larges[i].data, p.larges[i].size) == r)
  }

  /** Memory the pool itself reads: block headers and the nodes of the large list. */
  ghost predicate Bookkeeping(p: Pool, r: Range) {
    || (exists i :: 0 <= i < |p.blocks| && Header(p.blocks[i]) == r)
    || (exists i :: 0 <= i < |p.larges| && Range(p.larges[i].node, NODE) == r)
  }

  lemma ItemInBlock(p: Pool, live: Live, x: Item)
    requires Inv(p, live) && x in p.items
    ensures x.blk < |p.blocks| && BlockOk(p.blocks[x.blk], p.Capacity(), p.blocks[0].rmd, live)
    ensures ItemOk(x, p.blocks)
    ensures Within(ItemRange(x), Range(p.blocks[x.blk].base, p.Capacity()))
  {
    assert ItemOk(x, p.blocks);
  }

  lemma ItemLargeApart(p: Pool, live: Live, x: Item, i: nat)
    requires Inv(p, live) && x in p.items && i < |p.larges|
    ensures Apart(ItemRange(x), Range(p.larges[i].data, p.larges[i].size))
  {
    ItemInBlock(p, live, x);
    var b := p.blocks[x.blk];
    var l := p.larges[i];
    assert LargeOk(l, p.items, live);
    assert Apart(Range(b.base, live[b.base]), Range(l.data, live[l.data]));
  }

  /** Any two live user allocations are the same one or share no byte. */
  lemma AllocationsApart(p: Pool, live: Live, r: Range, s: Range)
    requires Inv(p, live) && LiveAllocation(p, r) && LiveAllocation(p, s) && r != s
    ensures Apart(r, s)
  {
    if x, y :| x in p.items && y in p.items && ItemRange(x) == r && ItemRange(y) == s {
      assert Apart(ItemRange(x), ItemRange(y));
    } else if x, i :|
        && x in p.items && ItemRange(x) == r && 0 <= i < |p.larges|
        && Range(p.larges[i].data, p.larges[i].size) == s {
      ItemLargeApart(p, live, x, i);
    } else if y, i :|
        && y in p.items && ItemRange(y) == s && 0 <= i < |p.larges|
        && Range(p.larges[i].data, p.larges[i].size) == r {
      ItemLargeApart(p, live, y, i);
    } else {
      var i :| 0 <= i < |p.larges| && Range(p.larges[i].data, p.larges[i].size) == r;
      var j :| 0 <= j < |p.larges| && Range(p.larges[j].data, p.larges[j].size) == s;
      assert LargeOk(p.larges[i], p.items, live) && LargeOk(p.larges[j], p.items, live);
      assert p.larges[i].data != p.larges[j].data;
      assert Apart(Range(r.addr, live[r.addr]), Range(s.addr, live[s.addr]));
    }
  }

  lemma HeaderApart(p: Pool, live: Live, i: nat, a: nat, n: nat)
    requires Inv(p, live) && i < |p.blocks| && a in live && live[a] == n && a != p.blocks[i].base
    ensures Apart(Header(p.blocks[i]), Range(a, n))
  {
    var b := p.blocks[i];
    assert BlockOk(b, p.Capacity(), p.blocks[0].rmd, live);
    assert Apart(Range(b.base, live[b.base]), Range(a, live[a]));
  }

  lemma ItemHeaderApart(p: Pool, live: Live, x: Item, i: nat)
    requires Inv(p, live) && x in p.items && i < |p.blocks|
    ensures Apart(ItemRange(x), Header(p.blocks[i]))
  {
    ItemInBlock(p, live, x);
    var b := p.blocks[x.blk];
    if i != x.blk {
      assert b.base != p.blocks[i].base;
      HeaderApart(p, live, i, b.base, p.Capacity());
    }
  }

  /** No user allocation touches a byte the pool keeps its own structure in. */
  lemma BookkeepingApart(p: Pool, live: Live, r: Range, s: Range)
    requires Inv(p, live) && LiveAllocation(p, r) && Bookkeeping(p, s)
    ensures Apart(r, s)
  {
    if x, i :| x in p.items && !x.internal && ItemRange(x) == r && 0 <= i < |p.blocks| && Header(p.blocks[i]) == s {
      ItemHeaderApart(p, live, x, i);
    } else if x, i :|
        && x in p.items && !x.internal && ItemRange(x) == r && 0 <= i < |p.larges|
        && Range(p.larges[i].node, NODE) == s {
      var y := Item(p.larges[i].blk, p.larges[i].node, NODE, true);
      assert LargeOk(p.larges[i], p.items, live);
      assert Apart(ItemRange(x), ItemRange(y));
    } else {
      var j :| 0 <= j < |p.larges| && Range(p.larges[j].data, p.larges[j].size) == r;
      var l := p.larges[j];
      assert LargeOk(l, p.items, live);
      if i :| 0 <= i < |p.blocks| && Header(p.blocks[i]) == s {
        HeaderApart(p, live, i, l.data, l.size);
      } else {
        var i :| 0 <= i < |p.larges| && Range(p.larges[i].node, NODE) == s;
        assert LargeOk(p.larges[i], p.items, live);
        ItemLargeApart(p, live, Item(p.larges[i].blk, p.larges[i].node, NODE, true), j);
      }
    }
  }

  // ----- pool_alloc -----

  lemma AllocKeeps(p: Pool, live: Live, n: nat, big: nat, blk: nat, r: Range)
    requires Usable(p) && LiveAllocation(p, r)
    ensures LiveAllocation(Alloc(p, n, big, blk).pool, r)
  {
    hide Align, Room, FirstFit, Advance;
    var q := Alloc(p, n, big, blk).pool;
    if x :| x in p.items && !x.internal && ItemRange(x) == r {
      assert x in q.items;
    } else {
      var i :| 0 <= i < |p.larges| && Range(p.larges[i].data, p.larges[i].size) == r;
      var k := |q.larges| - |p.larges|;
      assert q.larges[k + i] == p.larges[i];
    }
  }

  lemma SmallIsNew(p: Pool, live: Live, n: nat, big: nat, blk: nat, r: Range)
    requires Inv(p, live) && Small(p, n) && n > 0 && Plausible(p, live, n, big, blk)
    requires LiveAllocation(p, r) && Alloc(p, n, big, blk).at != 0
    ensures r != Range(Alloc(p, n, big, blk).at, n)
    ensures Item(FirstFit(p.blocks, p.cur, n), Alloc(p, n, big, blk).at, n, false) in Alloc(p, n, big, blk).pool.items
  {
    hide Room, Align, Advance, FirstFit, BlocksOk, LargesOk, Accounted, LiveAfter, Plausible;
    var g := Alloc(p, n, big, blk);
    var live' := LiveAfter(p, live, n, big, blk);
    var j := FirstFit(p.blocks, p.cur, n);
    var y := Item(j, g.at, n, false);
    AllocInv(p, live, n, big, blk);
    if x :| x in p.items && !x.internal && ItemRange(x) == r {
      assert ItemOk(x, p.blocks);
      assert Apart(ItemRange(x), ItemRange(y));
    } else {
      var i :| 0 <= i < |p.larges| && Range(p.larges[i].data, p.larges[i].size) == r;
      ItemLargeApart(g.pool, live', y, i);
    }
  }

  lemma LargeIsNew(p: Pool, live: Live, n: nat, big: nat, blk: nat, r: Range)
    requires Inv(p, live) && !Small(p, n) && big != 0 && Plausible(p, live, n, big, blk) && n > 0
    requires LiveAllocation(p, r) && Alloc(p, n, big, blk).at != 0
    ensures r != Range(big, n) && LiveAllocation(Alloc(p, n, big, blk).pool, Range(big, n))
  {
    hide Align, Room, Advance, FirstFit, BlocksOk, LargesOk, ItemsOk, LiveAfter;
    var g := Alloc(p, n, big, blk);
    var live' := LiveAfter(p, live, n, big, blk);
    AllocInv(p, live, n, big, blk);
    if x :| x in p.items && !x.internal && ItemRange(x) == r {
      ItemLargeApart(g.pool, live', x, 0);
    } else {
      var i :| 0 <= i < |p.larges| && Range(p.larges[i].data, p.larges[i].size) == r;
      DataIsNew(p, live, big, i);
    }
    assert g.pool.larges[0].data == big;
  }

  /** A successful request is a live allocation apart from every earlier one, all of which stay live. */
  lemma AllocGrants(p: Pool, live: Live, n: nat, big: nat, blk: nat, r: Range)
    requires Inv(p, live) && Plausible(p, live, n, big, blk) && n > 0 && LiveAllocation(p, r)
    ensures var g := Alloc(p, n, big, blk);
      && LiveAllocation(g.pool, r)
      && (g.at != 0 ==> Apart(r, Range(g.at, n)))
  {
    hide LiveAllocation, Inv, Plausible, AllocSmall, LiveAfter;
    var g := Alloc(p, n, big, blk);
    AllocKeeps(p, live, n, big, blk, r);
    if g.at != 0 {
      AllocInv(p, live, n, big, blk);
      AllocLives(p, live, n, big, blk);
      if Small(p, n) { SmallIsNew(p, live, n, big, blk, r); } else { LargeIsNew(p, live, n, big, blk, r); }
      AllocationsApart(g.pool, LiveAfter(p, live, n, big, blk), r, Range(g.at, n));
    }
  }

  lemma AllocLives(p: Pool, live: Live, n: nat, big: nat, blk: nat)
    requires Usable(p) && n > 0 && Alloc(p, n, big, blk).at != 0
    ensures LiveAllocation(Alloc(p, n, big, blk).pool, Range(Alloc(p, n, big, blk).at, n))
  {
    hide Align, Room, FirstFit, Advance;
    var g := Alloc(p, n, big, blk);
    if Small(p, n) {
      assert Item(FirstFit(p.blocks, p.cur, n), g.at, n, false) in g.pool.items;
    } else {
      assert g.pool.larges[0].data == g.at;
    }
  }

  /** The first request to a new pool: served behind the header if it has at most 4095 bytes and fits, whatever
      `malloc` would answer; otherwise it is `malloc`'s, and its list node of 16 bytes lies there. */
  lemma FirstRequest(base: nat, size: nat, rmd: nat, n: nat, big: nat, blk: nat)
    requires base > 0 && base % ALIGNMENT == 0 && base + size < WORD_LIMIT && size % ALIGNMENT == 0 && size >= 72
    ensures var g := Alloc(New(base, size, rmd), n, big, blk); var b := g.pool.blocks[0];
      && |g.pool.blocks| == 1
      && if n <= 4095 && n <= size - 56
         then g.at == base + 56 && b.last == base + 56 + n && g.pool.larges == []
         else if big == 0 then g == Grant(New(base, size, rmd), 0)
         else g.at == big && b.last == base + 72 && g.pool.larges == [Large(0, base + 56, big, n)]
  {
    var p := New(base, size, rmd);
    AlignMultiple(base + HEADER);
    assert Room(p.blocks[0]) == size - 56;
    hide Align, Room;
    assert n <= size - 56 ==> FirstFit(p.blocks, 0, n) == 0;
    assert FirstFit(p.blocks, 0, NODE) == 0;
  }

  // ----- pool_free -----

  lemma LargeEndsElsewhere(p: Pool, live: Live, i: nat)
    requires Inv(p, live) && i < |p.larges|
    ensures p.larges[i].data + p.larges[i].size != p.blocks[p.cur].last
  {
    var b, l := p.blocks[p.cur], p.larges[i];
    assert BlockOk(b, p.Capacity(), p.blocks[0].rmd, live) && LargeOk(l, p.items, live);
    assert Apart(Range(b.base, live[b.base]), Range(l.data, live[l.data]));
  }

  /** Only the topmost allocation of `cur` can satisfy the test in `pool_free`. */
  lemma FreeTargets(p: Pool, live: Live, r: Range)
    requires Inv(p, live) && LiveAllocation(p, r) && r.addr + r.size == p.blocks[p.cur].last
    ensures Item(p.cur, r.addr, r.size, false) in p.items
    ensures p.blocks[p.cur].base + HEADER <= r.addr
    ensures forall y :: y in p.items && y.blk == p.cur && y != Item(p.cur, r.addr, r.size, false) ==>
      y.at + y.size <= r.addr
  {
    hide Align, Room;
    forall i | 0 <= i < |p.larges| ensures Range(p.larges[i].data, p.larges[i].size) != r {
      LargeEndsElsewhere(p, live, i);
    }
    var x :| x in p.items && !x.internal && ItemRange(x) == r;
    ItemInBlock(p, live, x);
    assert BlockOk(p.blocks[p.cur], p.Capacity(), p.blocks[0].rmd, live);
    if x.blk != p.cur { BlocksApart(p.blocks, live, x.blk, p.cur); assert false; }
    forall y | y in p.items && y.blk == p.cur && y != x ensures y.at + y.size <= r.addr {
      assert ItemOk(y, p.blocks);
      assert Apart(ItemRange(x), ItemRange(y));
    }
  }

  /** `pool_free` of a live allocation keeps the invariant, so `last` never drops below a live allocation. */
  lemma FreeInv(p: Pool, live: Live, r: Range)
    requires Inv(p, live) && LiveAllocation(p, r)
    ensures Inv(Free(p, r.addr, r.size), live)
  {
    hide Align, Room;
    var q := Free(p, r.addr, r.size);
    if r.addr + r.size == p.blocks[p.cur].last {
      FreeTargets(p, live, r);
      var gone := Item(p.cur, r.addr, r.size, false);
      assert ItemOk(gone, p.blocks);
      BumpBlocks(p.blocks, live, p.cur, r.addr);
      assert ItemsOk(q.items, q.blocks) by {
        forall x | x in q.items ensures ItemOk(x, q.blocks) {
          assert ItemOk(x, p.blocks);
        }
      }
      assert LargesOk(q.larges, q.blocks, q.items, live) by {
        forall i | 0 <= i < |q.larges| ensures LargeOk(q.larges[i], q.items, live) {
          NotANode(p, live, gone, i);
        }
      }
    }
  }

  lemma NotANode(p: Pool, live: Live, x: Item, i: nat)
    requires Inv(p, live) && x in p.items && !x.internal && i < |p.larges|
    ensures LargeOk(p.larges[i], p.items, live)
    ensures var l := p.larges[i]; !(l.blk == x.blk && l.node == x.at)
  {
    var l := p.larges[i];
    assert LargeOk(l, p.items, live);
    var y := Item(l.blk, l.node, NODE, true);
    assert ItemOk(x, p.blocks) && ItemOk(y, p.blocks);
    assert Apart(ItemRange(x), ItemRange(y));
  }

  /** `pool_free` gives back exactly the freed allocation or nothing, and gives it back
      exactly when it is the topmost allocation of `cur`. */
  lemma FreeExact(p: Pool, live: Live, r: Range)
    requires Inv(p, live) && LiveAllocation(p, r)
    ensures var x, q := Item(p.cur, r.addr, r.size, false), Free(p, r.addr, r.size);
      if r.addr + r.size == p.blocks[p.cur].last
      then x in p.items && q.items == p.items - {x} && q.blocks[p.cur].last == r.addr && q.larges == p.larges
      else q == p
  {
    hide Align, Room;
    var x, q := Item(p.cur, r.addr, r.size, false), Free(p, r.addr, r.size);
    if r.addr + r.size == p.blocks[p.cur].last {
      FreeTargets(p, live, r);
      forall y | y in p.items && y.blk == p.cur && y.at == r.addr && y.size == r.size ensures y == x {
        assert ItemOk(y, p.blocks);
      }
    }
  }

  /** A small request that `cur` itself can serve. */
  lemma ServedByCur(q: Pool, n: nat, big: nat, blk: nat)
    requires Usable(q) && Small(q, n) && Room(q.blocks[q.cur]) >= n
    ensures var b := q.blocks[q.cur]; var m := Align(b.last);
      Alloc(q, n, big, blk) ==
        Grant(q.(blocks := q.blocks[q.cur := b.(last := m + n)], items := Track(q.items, Item(q.cur, m, n, false))), m)
  {
    hide Align, Room;
    assert FirstFit(q.blocks, q.cur, n) == q.cur;
  }

  lemma FreedRoom(p: Pool, live: Live, r: Range)
    requires Inv(p, live) && LiveAllocation(p, r)
    requires r.addr + r.size == p.blocks[p.cur].last
    ensures var b := p.blocks[p.cur].(last := r.addr); Align(b.last) == r.addr && Room(b) >= r.size
    ensures r.size > 0 && Small(p, r.size)
  {
    hide Align, LiveAllocation, LargesOk;
    FreeTargets(p, live, r);
    AlignMultiple(r.addr);
    assert ItemOk(Item(p.cur, r.addr, r.size, false), p.blocks);
    assert BlockOk(p.blocks[p.cur], p.Capacity(), p.blocks[0].rmd, live);
  }

  /** After a `pool_free` that took effect, a request of the same size gets the same address back,
      and the pool is as it was before the `pool_free`. */
  lemma FreeThenAlloc(p: Pool, live: Live, r: Range, big: nat, blk: nat)
    requires Inv(p, live) && LiveAllocation(p, r) && r.addr + r.size == p.blocks[p.cur].last
    ensures Alloc(Free(p, r.addr, r.size), r.size, big, blk) == Grant(p, r.addr)
  {
    hide Align, Room, LiveAllocation, Alloc, BlocksOk, LargesOk, ItemsOk;
    var q := Free(p, r.addr, r.size);
    FreedRoom(p, live, r);
    FreeExact(p, live, r);
    ServedByCur(q, r.size, big, blk);
    assert q.items + {Item(p.cur, r.addr, r.size, false)} == p.items;
    assert q.blocks[p.cur := q.blocks[p.cur].(last := r.addr + r.size)] == p.blocks;
  }
}
