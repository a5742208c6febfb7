/** pool.c: the chain of blocks as linked objects, updated in place. */
module PoolAllocator {
  import opened Machine
  import opened Alignment
  import opened PoolModel
  import opened PoolInvariant
  import opened PoolLaws
  import opened PoolRuns

  /** `size_t` subtraction. */
  function Sub(a: nat, b: nat): nat { (a - b) % WORD_LIMIT }

  /** `pool_large_t`, stored at `addr`. */
  class LargeNode {
    const addr: nat
    var next: LargeNode?
    var data: nat

    constructor (addr: nat, data: nat, next: LargeNode?)
      ensures this.addr == addr && this.data == data && this.next == next
    {
      this.addr, this.data, this.next := addr, data, next;
    }
  }

  /** `pool_t`, stored at `addr`. The head of a chain also stands for the whole pool. */
  class PoolT {
    const heap: Heap
    const addr: nat
    var rmd: nat
    var size: nat
    var last: nat
    var end: nat
    var cur: PoolT
    var next: PoolT?
    var large: LargeNode?

    ghost var chain: seq<PoolT>
    ghost var nodes: seq<LargeNode>
    ghost var view: Pool

    constructor (heap: Heap, addr: nat, size: nat, rmd: nat)
      ensures this.heap == heap && this.addr == addr && this.size == size && cur == this && next == null
      ensures large == null
      ensures chain == [this] && nodes == [] && view == PoolModel.New(addr, size, rmd)
      ensures AsBlock() == view.blocks[0]
    {
      this.heap := heap;
      this.addr := addr;
      this.rmd := if rmd < ALIGNMENT then ALIGNMENT else rmd;
      this.size := size;
      this.last := addr + HEADER;
      this.end := addr + size;
      this.cur := this;
      this.next := null;
      this.large := null;
      this.chain := [this];
      this.nodes := [];
      this.view := PoolModel.New(addr, size, rmd);
    }

    ghost function AsBlock(): Block
      reads `last, `end, `rmd
    {
      Block(addr, last, end, rmd)
    }

    /** The chain, from its head, is the blocks `bs`. */
    ghost predicate ChainOk(bs: seq<Block>)
      reads `chain, chain`last, chain`end, chain`rmd, chain`next
      ensures ChainOk(bs) ==> |chain| == |bs| > 0 && chain[0] == this
    {
      && |chain| > 0 && chain[0] == this && |chain| == |bs|
      && (forall i :: 0 <= i < |chain| ==> chain[i].heap == heap && chain[i].AsBlock() == bs[i])
      && (forall i :: 0 <= i < |chain| - 1 ==> chain[i].next == chain[i + 1])
      && chain[|chain| - 1].next == null
      && (forall i, j :: 0 <= i < j < |chain| ==> chain[i] != chain[j])
    }

    /** The list of large allocations is `ls`. */
    ghost predicate NodesOk(ls: seq<Large>)
      reads `large, `nodes, nodes
    {
      && |nodes| == |ls|
      && (forall i :: 0 <= i < |nodes| ==> nodes[i].addr == ls[i].node && nodes[i].data == ls[i].data)
      && (forall i :: 0 <= i < |nodes| - 1 ==> nodes[i].next == nodes[i + 1])
      && large == (if nodes == [] then null else nodes[0])
      && (nodes != [] ==> nodes[|nodes| - 1].next == null)
    }

    ghost predicate Linked()
      reads this, chain, nodes
    {
      && ChainOk(view.blocks) && NodesOk(view.larges)
      && view.cur < |chain| && cur == chain[view.cur]
      && size == view.size
    }

    ghost predicate Valid()
      reads this, chain, nodes, heap`live
    {
      Linked() && Inv(view, heap.live)
    }

    /** `pool_new`; NULL when `malloc` fails. */
    static method New(heap: Heap, size: nat, rmd: nat) returns (p: PoolT?)
      modifies heap`live, heap`refused
      ensures heap.refused == old(heap.refused) + if p == null then 1 else 0
      ensures p == null ==> heap.live == old(heap.live)
      ensures p != null ==> fresh(p) && p.Linked() && p.heap == heap && p.chain == [p]
      ensures p != null && Separate(old(heap.live)) && size % ALIGNMENT == 0 && HEADER + NODE <= size ==> p.Valid()
      ensures p != null ==> Grantable(old(heap.live), p.addr, size) && heap.live == old(heap.live)[p.addr := size]
      ensures p != null ==> p.view == PoolModel.New(p.addr, size, rmd)
      ensures p != null ==> p.AsBlock() == p.view.blocks[0] && p.next == null && p.size == size
      ensures p != null ==> (Within(Header(p.AsBlock()), Range(p.addr, size)) <==> HEADER <= size)
    {
      var a := heap.Malloc(size);
      if a == 0 { return null; }
      p := new PoolT(heap, a, size, rmd);
      if Separate(old(heap.live)) && size % ALIGNMENT == 0 && HEADER + NODE <= size {
        NewInv(old(heap.live), a, size, rmd);
      }
    }

    // ----- pool_alloc -----

    /** The pointer arithmetic of the search loop, on the model's terms. */
    static lemma BlockArithmetic(p: Pool, live: Live, i: nat)
      requires Inv(p, live) && i < |p.blocks|
      ensures var b := p.blocks[i];
        AlignPtr(b.last) == Align(b.last) <= b.end && Sub(b.end, AlignPtr(b.last)) == Room(b)
    {
      assert BlockOk(p.blocks[i], p.Capacity(), p.blocks[0].rmd, live);
      RoomExact(p.blocks, live, i);
      AlignPtrRoundsUp(p.blocks[i].last);
    }

    /** Passing over block `i`, or stopping at it. */
    static lemma SearchStep(bs: seq<Block>, from: nat, i: nat, n: nat)
      requires from <= i < |bs|
      ensures FirstFit(bs, i, n) == if Room(bs[i]) >= n then i else FirstFit(bs, i + 1, n)
      ensures FirstFit(bs, |bs|, n) == |bs|
      ensures Advance(bs, from, i + 1) == if Room(bs[i]) < bs[i].rmd then i + 1 else Advance(bs, from, i)
    {
    }

    lemma ChainAt(bs: seq<Block>, i: nat)
      requires ChainOk(bs) && i < |chain|
      ensures chain[i].AsBlock() == bs[i]
      ensures chain[i].next == if i + 1 < |chain| then chain[i + 1] else null
    {
    }

    /** The search loop: the block that can serve the request, or the tail of the chain. */
    method Search(n: nat) returns (found: bool, p: PoolT, c: PoolT?, m: nat, ghost i: nat)
      requires Valid()
      modifies `cur
      ensures view.cur <= i < |chain| && p == chain[i] && cur == chain[Advance(view.blocks, view.cur, i)]
      ensures found ==> i == FirstFit(view.blocks, view.cur, n) && m == Align(view.blocks[i].last)
      ensures !found ==> i + 1 == FirstFit(view.blocks, view.cur, n) == |chain|
      ensures !found ==> var to := Advance(view.blocks, view.cur, i + 1); c == if to == |chain| then null else chain[to]
    {
      hide Align, Room, Inv, AlignPtr, Sub, NodesOk, ChainOk, FirstFit, Advance;
      ghost var bs, from := view.blocks, view.cur;
      AdvanceNone(bs, from);
      i := from;
      p, c := cur, cur;
      while true
        invariant from <= i < |chain| && p == chain[i] && c == cur == chain[Advance(bs, from, i)]
        invariant FirstFit(bs, from, n) == FirstFit(bs, i, n)
        decreases |chain| - i
      {
        BlockArithmetic(view, heap.live, i);
        SearchStep(bs, from, i, n);
        ChainAt(bs, i);
        m := AlignPtr(p.last);
        if Sub(p.end, m) >= n {
          return true, p, c, m, i;
        }
        if Sub(p.end, m) < p.rmd {
          c := p.next;
        }
        if p.next == null {
          return false, p, c, m, i;
        }
        p := p.next;
        cur := c;
        i := i + 1;
      }
    }

    static lemma AdvanceNone(bs: seq<Block>, i: nat)
      requires i <= |bs|
      ensures Advance(bs, i, i) == i
    {
    }

    /** `p->last = m + size` in block `i`. */
    method Bump(p: PoolT, ghost i: nat, last: nat)
      requires ChainOk(view.blocks) && i < |chain| && p == chain[i]
      modifies p`last
      ensures ChainOk(view.blocks[i := view.blocks[i].(last := last)])
    {
      p.last := last;
    }

    /** The search stopped at block `i`: carve the request there. */
    method Serve(p: PoolT, ghost i: nat, m: nat, n: nat, ghost internal: bool)
      requires Usable(view) && ChainOk(view.blocks) && NodesOk(view.larges) && size == view.size
      requires i == FirstFit(view.blocks, view.cur, n) < |chain| && p == chain[i] && m == Align(view.blocks[i].last)
      requires cur == chain[Advance(view.blocks, view.cur, i)]
      modifies p`last, `view
      ensures Linked() && Grant(view, m) == AllocSmall(old(view), n, internal, 0)
    {
      hide Align, Room, FirstFit, Advance, AllocSmall, Track, NodesOk, ChainOk;
      ChainAt(view.blocks, i);
      FoundShape(view, n, internal, 0);
      Bump(p, i, m + n);
      assert NodesOk(view.larges);
      view := AllocSmall(view, n, internal, 0).pool;
      assert ChainOk(view.blocks);
      assert cur == chain[view.cur];
    }

    /** `p->next = n` at the tail. */
    method Link(p: PoolT, b: PoolT)
      requires ChainOk(view.blocks) && p == chain[|chain| - 1]
      requires b !in chain && b.next == null && b.heap == heap
      modifies p`next, `chain
      ensures chain == old(chain) + [b] && ChainOk(view.blocks + [b.AsBlock()])
    {
      p.next := b;
      chain := chain + [b];
    }

    /** Hook the new block `b` behind the tail `p` and carve its first `n` bytes. */
    method Attach(b: PoolT, p: PoolT, c: PoolT?, n: nat) returns (m: nat)
      requires ChainOk(view.blocks) && p == chain[|chain| - 1]
      requires b !in chain && b.next == null && b.heap == heap
      requires b.addr % ALIGNMENT == 0 && b.last == b.addr + HEADER && b.last + ALIGNMENT <= WORD_LIMIT
      modifies `cur, `size, `chain, p`next, b`last
      ensures m == b.addr + HEADER
      ensures chain == old(chain) + [b]
      ensures ChainOk(view.blocks + [Block(b.addr, m + n, b.end, b.rmd)])
      ensures cur == (if c != null then c else b) && size == old(size) + b.size
    {
      hide ChainOk, Align, AlignPtr;
      cur := if c != null then c else b;
      size := size + b.size;
      AlignPtrRoundsUp(b.last);
      AlignHeader(b.addr);
      m := AlignPtr(b.last);
      b.last := m + n;
      Link(p, b);
    }

    lemma TailFacts()
      requires ChainOk(view.blocks) && Inv(view, heap.live)
      ensures var p := chain[|chain| - 1];
        && ALIGNMENT <= p.rmd == view.blocks[0].rmd && p.end == p.addr + view.Capacity() < WORD_LIMIT
        && view.Capacity() % ALIGNMENT == 0 && HEADER + NODE <= view.Capacity() && Separate(heap.live)
    {
      assert BlockOk(view.blocks[|chain| - 1], view.Capacity(), view.blocks[0].rmd, heap.live);
    }

    /** The tail `p` has no room: chain a new block of the same capacity and carve from it. */
    method Extend(p: PoolT, c: PoolT?, n: nat) returns (m: nat, ghost blk: nat)
      requires ChainOk(view.blocks) && Inv(view, heap.live) && p == chain[|chain| - 1]
      requires n <= view.Capacity() - HEADER
      modifies `cur, `size, `chain, p`next, heap`live, heap`refused
      ensures heap.refused == old(heap.refused) + if m == 0 then 1 else 0
      ensures blk == 0 ==>
        && m == 0 && ChainOk(view.blocks) && heap.live == old(heap.live)
        && cur == old(cur) && size == old(size) && chain == old(chain)
      ensures blk != 0 ==>
        && m == blk + HEADER && ChainOk(view.blocks + [FirstOf(view, n, blk)])
        && |chain| == |old(chain)| + 1 && chain == old(chain) + [chain[|old(chain)|]] && fresh(chain[|old(chain)|])
        && cur == (if c != null then c else chain[|old(chain)|]) && size == old(size) + view.Capacity()
        && Grantable(old(heap.live), blk, view.Capacity()) && heap.live == old(heap.live)[blk := view.Capacity()]
    {
      hide Inv, ChainOk, NodesOk, Valid, Linked;
      TailFacts();
      var b := New(heap, p.end - p.addr, p.rmd);
      if b == null {
        return 0, 0;
      }
      blk := b.addr;
      m := Attach(b, p, c, n);
    }

    /** The search found no room. */
    method Grow(p: PoolT, c: PoolT?, n: nat, ghost internal: bool) returns (m: nat, ghost blk: nat)
      requires Inv(view, heap.live) && ChainOk(view.blocks) && NodesOk(view.larges) && size == view.size
      requires n <= view.Capacity() - HEADER && FirstFit(view.blocks, view.cur, n) == |chain|
      requires p == chain[|chain| - 1] && cur == chain[Advance(view.blocks, view.cur, |chain| - 1)]
      requires var to := Advance(view.blocks, view.cur, |chain|); c == if to == |chain| then null else chain[to]
      modifies this, p`next, heap`live, heap`refused
      ensures heap.refused == old(heap.refused) + if m == 0 then 1 else 0
      ensures Linked() && Grant(view, m) == AllocSmall(old(view), n, internal, blk)
      ensures nodes == old(nodes) && old(chain) <= chain && fresh(chain[|old(chain)|..])
      ensures if blk != 0
        then Grantable(old(heap.live), blk, old(view).Capacity())
          && heap.live == old(heap.live)[blk := old(view).Capacity()]
        else heap.live == old(heap.live)
    {
      hide Align, Room, Inv, ChainOk, NodesOk, FirstFit, Advance, AllocSmall, Track;
      TailRmd(view, heap.live);
      m, blk := Extend(p, c, n);
      if blk == 0 {
        RefusedShape(view, n, internal);
      } else {
        AppendShape(view, n, internal, blk);
      }
      assert NodesOk(view.larges);
      view := AllocSmall(view, n, internal, blk).pool;
      assert ChainOk(view.blocks);
      assert cur == chain[view.cur];
    }

    static lemma TailRmd(p: Pool, live: Live)
      requires Inv(p, live)
      ensures p.blocks[|p.blocks| - 1].rmd == p.blocks[0].rmd
    {
      assert BlockOk(p.blocks[|p.blocks| - 1], p.Capacity(), p.blocks[0].rmd, live);
    }

    static lemma RoomAbove(p: Pool, live: Live, i: nat)
      requires Inv(p, live) && i < |p.blocks|
      ensures Align(p.blocks[i].last) > 0
    {
      assert BlockOk(p.blocks[i], p.Capacity(), p.blocks[0].rmd, live);
    }

    /** A request that fits a block: served by the chain, or by a new block at its end. */
    method Carve(n: nat, ghost internal: bool) returns (m: nat, ghost blk: nat)
      requires Valid() && n <= view.Capacity() - HEADER
      modifies this, chain, heap`live, heap`refused
      ensures heap.refused == old(heap.refused) + if m == 0 then 1 else 0
      ensures Linked() && Grant(view, m) == AllocSmall(old(view), n, internal, blk)
      ensures nodes == old(nodes) && old(chain) <= chain && fresh(chain[|old(chain)|..])
      ensures var j := FirstFit(old(view).blocks, old(view).cur, n);
        if j == |old(view).blocks| && blk != 0
        then Grantable(old(heap.live), blk, old(view).Capacity())
          && heap.live == old(heap.live)[blk := old(view).Capacity()]
        else heap.live == old(heap.live)
    {
      hide Align, Room, Inv, ChainOk, NodesOk, FirstFit, Advance, AllocSmall;
      ghost var i: nat;
      var found: bool, p: PoolT, c: PoolT?;
      found, p, c, m, i := Search(n);
      if found {
        RoomAbove(old(view), heap.live, i);
        Serve(p, i, m, n, internal);
        blk := 0;
      } else {
        m, blk := Grow(p, c, n, internal);
      }
    }

    /** The small path is `AllocSmall`, the effect on the heap is that of the chain search. */
    static lemma SmallRequest(p: Pool, live: Live, n: nat, blk: nat)
      requires Usable(p) && Small(p, n)
      requires FirstFit(p.blocks, p.cur, n) == |p.blocks| && blk != 0 ==> Grantable(live, blk, p.Capacity())
      ensures Plausible(p, live, n, 0, blk) && PoolModel.Alloc(p, n, 0, blk) == AllocSmall(p, n, false, blk)
      ensures LiveAfter(p, live, n, 0, blk)
           == if FirstFit(p.blocks, p.cur, n) == |p.blocks| && blk != 0 then live[blk := p.Capacity()] else live
    {
      hide Align, Room, FirstFit, AllocSmall;
    }

    /** What a call should do: the inner call for a list node is always carved from a block. */
    static ghost function Request(p: Pool, n: nat, internal: bool, big: nat, blk: nat): Grant
      requires Usable(p)
    {
      if internal then AllocSmall(p, n, true, blk) else PoolModel.Alloc(p, n, big, blk)
    }

    /** `pool_alloc`; `internal` marks the inner call that obtains the list node of a large allocation. */
    method Alloc(n: nat, ghost internal: bool := false) returns (m: nat, ghost big: nat, ghost blk: nat)
      requires Valid() && (internal ==> n == NODE)
      modifies this, chain, heap`live, heap`refused
      ensures heap.refused == old(heap.refused) + if m == 0 then 1 else 0
      ensures Valid() && Plausible(old(view), old(heap.live), n, big, blk)
      ensures Grant(view, m) == Request(old(view), n, internal, big, blk)
      ensures heap.live == LiveAfter(old(view), old(heap.live), n, big, blk)
      ensures old(chain) <= chain && fresh(chain[|old(chain)|..])
      ensures forall b :: b in chain ==> b in old(chain) || fresh(b)
      ensures internal ==> nodes == old(nodes) && big == 0
      ensures |nodes| >= |old(nodes)| && old(nodes) == nodes[|nodes| - |old(nodes)|..]
      ensures fresh(nodes[..|nodes| - |old(nodes)|])
      decreases if internal then 0 else 2
    {
      hide Align, Room, Inv, ChainOk, NodesOk, FirstFit, Advance, AllocSmall, LiveAfter, Plausible, PoolModel.Alloc;
      HeadCapacity();
      if n <= ALLOC_MAX && n <= end - addr - AlignPtr(HEADER) {
        big := 0;
        m, blk := Carve(n, internal);
        SmallRequest(old(view), old(heap.live), n, blk);
        AllocSmallInv(old(view), old(heap.live), n, internal, blk);
      } else {
        m, big, blk := AllocLarge(n);
        AllocInv(old(view), old(heap.live), n, big, blk);
      }
      forall b | b in chain && b !in old(chain) ensures fresh(b) {
        assert b in chain[|old(chain)|..];
      }
    }

    lemma HeadCapacity()
      requires Valid()
      ensures end - addr - AlignPtr(HEADER) == view.Capacity() - HEADER && HEADER + NODE <= view.Capacity()
    {
      ChainAt(view.blocks, 0);
      assert BlockOk(view.blocks[0], view.Capacity(), view.blocks[0].rmd, heap.live);
      AlignPtrRoundsUp(HEADER);
    }

    static lemma LargeRefused(p: Pool, live: Live, n: nat, blk: nat)
      requires Usable(p) && !Small(p, n)
      ensures Plausible(p, live, n, 0, blk) && PoolModel.Alloc(p, n, 0, blk) == Grant(p, 0)
      ensures LiveAfter(p, live, n, 0, blk) == live
    {
    }

    static lemma NodeRefused(p: Pool, live: Live, n: nat, big: nat, blk: nat)
      requires Inv(p, live) && !Small(p, n) && big != 0 && Grantable(live, big, n)
      requires Small(p, NODE) && Plausible(p, live[big := n], NODE, 0, blk) && AllocSmall(p, NODE, true, blk).at == 0
      ensures Plausible(p, live, n, big, blk) && PoolModel.Alloc(p, n, big, blk) == AllocSmall(p, NODE, true, blk)
      ensures LiveAfter(p, live[big := n], NODE, 0, blk) - {big} == LiveAfter(p, live, n, big, blk)
    {
      NodeAnswer(p, live, blk);
    }

    static lemma NodeGrant(p: Pool, live: Live, n: nat, big: nat, blk: nat)
      requires Inv(p, live) && !Small(p, n) && big != 0 && Grantable(live, big, n)
      requires Small(p, NODE) && Plausible(p, live[big := n], NODE, 0, blk) && AllocSmall(p, NODE, true, blk).at != 0
      ensures Plausible(p, live, n, big, blk)
      ensures LiveAfter(p, live[big := n], NODE, 0, blk) == LiveAfter(p, live, n, big, blk)
    {
      NodeAnswer(p, live, blk);
    }

    static lemma NodeAnswer(p: Pool, live: Live, blk: nat)
      requires Inv(p, live)
      ensures AllocSmall(p, NODE, true, blk).at == 0 <==> FirstFit(p.blocks, p.cur, NODE) == |p.blocks| && blk == 0
    {
      if FirstFit(p.blocks, p.cur, NODE) == |p.blocks| ==> blk != 0 {
        NodeGranted(p, live, blk);
      }
    }

    /** The large path: data from `malloc`, and a list node from the chain. */
    method AllocLarge(n: nat) returns (m: nat, ghost big: nat, ghost blk: nat)
      requires Valid() && !Small(view, n) && Small(view, NODE)
      modifies this, chain, heap`live, heap`refused
      ensures heap.refused == old(heap.refused) + if m == 0 then 1 else 0
      ensures Linked() && Plausible(old(view), old(heap.live), n, big, blk)
      ensures Grant(view, m) == PoolModel.Alloc(old(view), n, big, blk)
      ensures heap.live == LiveAfter(old(view), old(heap.live), n, big, blk)
      ensures old(chain) <= chain && fresh(chain[|old(chain)|..])
      ensures |nodes| >= |old(nodes)| && old(nodes) == nodes[|nodes| - |old(nodes)|..]
      ensures fresh(nodes[..|nodes| - |old(nodes)|])
      decreases 1
    {
      hide Align, Room, Inv, ChainOk, NodesOk, FirstFit, Advance, AllocSmall, LiveAfter, Plausible, PoolModel.Alloc;
      ghost var v, live := view, heap.live;
      m := heap.Malloc(n);
      big, blk := m, 0;
      if m == 0 {
        LargeRefused(v, live, n, 0);
        return;
      }
      GrowInv(v, live, m, n);
      var a, none, inner := Alloc(NODE, true);
      blk := inner;
      if a == 0 {
        NodeRefused(v, live, n, big, blk);
        OwnGrant(v, live, n, big, blk);
        heap.Free(m);
        m := 0;
        return;
      }
      NodeGrant(v, live, n, big, blk);
      LargeShape(v, live, n, big, blk);
      Hook(a, m, n, FirstFit(v.blocks, v.cur, NODE));
      assert |nodes| - |old(nodes)| == 1 && nodes[..1] == [nodes[0]];
    }

    static lemma OwnGrant(p: Pool, live: Live, n: nat, big: nat, blk: nat)
      requires Usable(p)
      ensures big in LiveAfter(p, live[big := n], NODE, 0, blk)
    {
    }

    /** Put the node at `a` in front of the list of large allocations. */
    method Hook(a: nat, data: nat, n: nat, ghost j: nat)
      requires Linked()
      modifies this
      ensures Linked() && chain == old(chain) && |nodes| == |old(nodes)| + 1 && nodes[1..] == old(nodes)
      ensures fresh(nodes[0])
      ensures view == old(view).(larges := [Large(j, a, data, n)] + old(view).larges, size := old(view).size + n)
    {
      hide ChainOk;
      var l := new LargeNode(a, data, large);
      large := l;
      size := size + n;
      nodes := [l] + nodes;
      view := view.(larges := [Large(j, a, data, n)] + view.larges, size := view.size + n);
    }

    // ----- the calls built on pool_alloc -----

    /** `pool_calloc`: the new bytes read as zero, no other byte changes. */
    method Calloc(n: nat) returns (m: nat, ghost big: nat, ghost blk: nat)
      requires Valid()
      modifies this, chain, heap
      ensures heap.refused == old(heap.refused) + if m == 0 then 1 else 0
      ensures Valid() && Plausible(old(view), old(heap.live), n, big, blk)
      ensures Grant(view, m) == PoolModel.Alloc(old(view), n, big, blk)
      ensures heap.live == LiveAfter(old(view), old(heap.live), n, big, blk)
      ensures forall b :: b in chain ==> b in old(chain) || fresh(b)
      ensures m != 0 ==> forall x: nat :: m <= x < m + n ==> heap.mem(x) == NUL
      ensures forall x: nat :: m == 0 || x < m || m + n <= x ==> heap.mem(x) == old(heap.mem)(x)
    {
      hide Inv, ChainOk, NodesOk, AllocSmall, LiveAfter, Plausible, PoolModel.Alloc;
      m, big, blk := Alloc(n);
      if m != 0 {
        var zeros := seq(n, _ => NUL);
        heap.Store(m, zeros);
        forall x: nat | m <= x < m + n ensures heap.mem(x) == NUL {
          assert heap.mem(m + (x - m)) == zeros[x - m];
        }
      }
    }

    /** `pool_cpy`: the bytes are copied to a range no live allocation shares, and nothing else is written. */
    method Cpy(bytes: seq<char>) returns (m: nat, ghost big: nat, ghost blk: nat)
      requires Valid()
      modifies this, chain, heap
      ensures heap.refused == old(heap.refused) + if m == 0 then 1 else 0
      ensures Valid() && Plausible(old(view), old(heap.live), |bytes|, big, blk)
      ensures Grant(view, m) == PoolModel.Alloc(old(view), |bytes|, big, blk)
      ensures heap.live == LiveAfter(old(view), old(heap.live), |bytes|, big, blk)
      ensures forall b :: b in chain ==> b in old(chain) || fresh(b)
      ensures m != 0 ==> Holds(heap.mem, m, bytes)
      ensures forall x: nat :: m == 0 || x < m || m + |bytes| <= x ==> heap.mem(x) == old(heap.mem)(x)
    {
      hide Inv, ChainOk, NodesOk, AllocSmall, LiveAfter, Plausible, PoolModel.Alloc;
      m, big, blk := Alloc(|bytes|);
      if m != 0 {
        heap.Store(m, bytes);
      }
    }

    /** `pool_free`, for a live allocation. */
    method Free(a: nat, n: nat)
      requires Valid() && LiveAllocation(view, Range(a, n))
      modifies cur`last, `view
      ensures Valid() && view == PoolModel.Free(old(view), a, n)
    {
      hide Align, Room, ChainOk, NodesOk, Inv, LiveAllocation;
      ChainAt(view.blocks, view.cur);
      FreeInv(view, heap.live, Range(a, n));
      ghost var v := view;
      if cur.last == a + n {
        Bump(cur, v.cur, a);
      }
      assert NodesOk(view.larges);
      view := PoolModel.Free(v, a, n);
      assert ChainOk(view.blocks);
    }

    /** `pool_delete`. Every node and header is read while the storage it lies in is still allocated. */
    static method Delete(pool: PoolT?)
      requires pool != null ==> pool.Valid()
      modifies if pool == null then {} else {pool.heap}
      ensures pool != null ==> pool.heap.live == old(pool.heap.live) - Owned(old(pool.view))
    {
      if pool != null {
        ghost var live := pool.heap.live;
        pool.FreeLarges();
        pool.FreeBlocks(live);
      }
    }

    /** The storage behind list node `i` and the data it points to are apart from what the loop has freed. */
    lemma NodeBacked(live: Live, i: nat)
      requires Linked() && Inv(view, live) && i < |nodes|
      ensures Backed(live - Datas(view.larges[..i]), Range(nodes[i].addr, NODE))
      ensures Backed(live - Datas(view.larges[..i + 1]), Range(nodes[i].addr, NODE))
      ensures nodes[i].data in live - Datas(view.larges[..i]) && nodes[i].data > 0
    {
      var l := view.larges[i];
      assert LargeOk(l, view.items, live);
      ItemInBlock(view, live, Item(l.blk, l.node, NODE, true));
      BlockSurvives(view, live, l.blk, i);
      BlockSurvives(view, live, l.blk, i + 1);
    }

    static lemma BlockSurvives(p: Pool, live: Live, j: nat, i: nat)
      requires Inv(p, live) && j < |p.blocks| && i <= |p.larges|
      ensures var b := p.blocks[j].base; var left := live - Datas(p.larges[..i]);
        b in left && left[b] == p.Capacity()
    {
      assert BlockOk(p.blocks[j], p.Capacity(), p.blocks[0].rmd, live);
      forall k | 0 <= k < i ensures p.larges[k].data != p.blocks[j].base {
      }
    }

    ghost function NodeAt(i: nat): LargeNode?
      reads `nodes
    {
      if i < |nodes| then nodes[i] else null
    }

    lemma NodeNext(i: nat)
      requires Linked() && i < |nodes|
      ensures |nodes| == |view.larges| && nodes[i].data == view.larges[i].data && nodes[i].next == NodeAt(i + 1)
    {
    }

    lemma FirstNode()
      requires Linked()
      ensures large == NodeAt(0) && |nodes| == |view.larges|
    {
    }

    lemma DatasStep(ls: seq<Large>, i: nat)
      requires i < |ls|
      ensures Datas(ls[..i + 1]) == Datas(ls[..i]) + {ls[i].data}
    {
      forall k | 0 <= k < i ensures ls[k].data in Datas(ls[..i + 1]) {
        assert ls[..i + 1][k] == ls[k];
      }
      assert ls[..i + 1][i] == ls[i];
    }

    lemma NoDatas(ls: seq<Large>)
      ensures Datas(ls[..0]) == {}
    {
    }

    lemma NoBases(bs: seq<Block>)
      ensures Bases(bs[..0]) == {}
    {
    }

    lemma BasesStep(bs: seq<Block>, i: nat)
      requires i < |bs|
      ensures Bases(bs[..i + 1]) == Bases(bs[..i]) + {bs[i].base}
    {
      assert bs[..i + 1] == bs[..i] + [bs[i]];
      BasesAppend(bs[..i], bs[i]);
    }

    method FreeLarges()
      requires Valid()
      modifies heap`live
      ensures heap.live == old(heap.live) - Datas(view.larges)
    {
      hide Inv, ChainOk, NodesOk, Datas, Backed;
      ghost var i, live := 0, heap.live;
      FirstNode();
      NoDatas(view.larges);
      var l := large;
      while l != null
        invariant 0 <= i <= |view.larges| == |nodes| && Linked() && l == NodeAt(i)
        invariant heap.live == live - Datas(view.larges[..i])
        decreases |view.larges| - i
      {
        NodeBacked(live, i);
        NodeNext(i);
        DatasStep(view.larges, i);
        assert Backed(heap.live, Range(l.addr, NODE));
        if l.data != 0 {
          heap.Free(l.data);
        }
        assert heap.live == live - Datas(view.larges[..i + 1]);
        assert Backed(heap.live, Range(l.addr, NODE));
        l := l.next;
        i := i + 1;
      }
      assert view.larges[..i] == view.larges;
    }

    lemma BlockBacked(live: Live, i: nat)
      requires Linked() && Inv(view, live) && i < |chain|
      ensures chain[i].addr in live - Datas(view.larges) - Bases(view.blocks[..i])
      ensures chain[i].addr == view.blocks[i].base
    {
      ChainAt(view.blocks, i);
      assert BlockOk(view.blocks[i], view.Capacity(), view.blocks[0].rmd, live);
    }

    method FreeBlocks(ghost live: Live)
      requires Linked() && Inv(view, live) && heap.live == live - Datas(view.larges)
      modifies heap`live
      ensures heap.live == live - Owned(view)
    {
      hide Inv, ChainOk, NodesOk, Datas, Bases;
      ghost var i := 0;
      var p := this;
      NoBases(view.blocks);
      BlockBacked(live, 0);
      ChainAt(view.blocks, 0);
      var n := next;
      while true
        invariant i < |chain| && p == chain[i] && n == (if i + 1 < |chain| then chain[i + 1] else null)
        invariant heap.live == live - Datas(view.larges) - Bases(view.blocks[..i])
        decreases |chain| - i
      {
        BlockBacked(live, i);
        BasesStep(view.blocks, i);
        heap.Free(p.addr);
        if n == null {
          break;
        }
        BlockBacked(live, i + 1);
        ChainAt(view.blocks, i + 1);
        assert n.addr in heap.live;
        p := n;
        n := n.next;
        i := i + 1;
      }
      assert view.blocks[..i + 1] == view.blocks;
    }
  }
}
