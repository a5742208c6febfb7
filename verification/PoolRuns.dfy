/** Whole runs of a pool inside a program that also uses the heap for other things. */
module PoolRuns {
  import opened Machine
  import opened Alignment
  import opened PoolModel
  import opened PoolInvariant
  import opened PoolLaws

  /** `Alloc` stands for `pool_alloc`, `pool_calloc` and `pool_cpy`; the last two are the rest of the program. */
  datatype Op =
    | Alloc(n: nat, big: nat, blk: nat)
    | Free(r: Range)
    | OtherMalloc(a: nat, n: nat)
    | OtherFree(a: nat)

  datatype World = World(pool: Pool, live: Live)

  /** The addresses of the malloc'd ranges the pool is responsible for. */
  ghost function Owned(p: Pool): set<nat> { Bases(p.blocks) + Datas(p.larges) }

  ghost function Bases(bs: seq<Block>): set<nat> { set i | 0 <= i < |bs| :: bs[i].base }

  ghost function Datas(ls: seq<Large>): set<nat> { set i | 0 <= i < |ls| :: ls[i].data }

  ghost predicate CanStep(w: World, op: Op) {
    && Usable(w.pool)
    && match op
       case Alloc(n, big, blk) => Plausible(w.pool, w.live, n, big, blk)
       case Free(r) => LiveAllocation(w.pool, r)
       case OtherMalloc(a, n) => Grantable(w.live, a, n)
       case OtherFree(a) => a in w.live && a !in Owned(w.pool)
  }

  ghost function Step(w: World, op: Op): World
    requires CanStep(w, op)
  {
    match op
    case Alloc(n, big, blk) => World(PoolModel.Alloc(w.pool, n, big, blk).pool, LiveAfter(w.pool, w.live, n, big, blk))
    case Free(r) => World(PoolModel.Free(w.pool, r.addr, r.size), w.live)
    case OtherMalloc(a, n) => World(w.pool, w.live[a := n])
    case OtherFree(a) => World(w.pool, w.live - {a})
  }

  ghost predicate Feasible(w: World, ops: seq<Op>)
    decreases |ops|
  {
    ops == [] || (CanStep(w, ops[0]) && Feasible(Step(w, ops[0]), ops[1..]))
  }

  ghost function Run(w: World, ops: seq<Op>): World
    requires Feasible(w, ops)
    decreases |ops|
  {
    if ops == [] then w else Run(Step(w, ops[0]), ops[1..])
  }

  ghost predicate WorldInv(w: World) { Inv(w.pool, w.live) }

  // ----- the invariant over runs -----

  lemma ShrinkInv(p: Pool, live: Live, a: nat)
    requires Inv(p, live) && a !in Owned(p)
    ensures Inv(p, live - {a})
  {
    hide Align, Room, Total, Times;
    var live' := live - {a};
    forall i | 0 <= i < |p.blocks| ensures BlockOk(p.blocks[i], p.Capacity(), p.blocks[0].rmd, live') {
      assert BlockOk(p.blocks[i], p.Capacity(), p.blocks[0].rmd, live);
      assert p.blocks[i].base in Owned(p);
    }
    forall i | 0 <= i < |p.larges| ensures LargeOk(p.larges[i], p.items, live') {
      assert LargeOk(p.larges[i], p.items, live);
      assert p.larges[i].data in Owned(p);
    }
    forall b, c | b in live' && c in live' && b != c ensures Apart(Range(b, live'[b]), Range(c, live'[c])) {
      assert Apart(Range(b, live[b]), Range(c, live[c]));
    }
  }

  lemma StepInv(w: World, op: Op)
    requires WorldInv(w) && CanStep(w, op)
    ensures WorldInv(Step(w, op))
  {
    hide Inv, Plausible, LiveAllocation, PoolModel.Alloc, PoolModel.Free, LiveAfter, Owned;
    match op
    case Alloc(n, big, blk) => AllocInv(w.pool, w.live, n, big, blk);
    case Free(r) => FreeInv(w.pool, w.live, r);
    case OtherMalloc(a, n) => GrowInv(w.pool, w.live, a, n);
    case OtherFree(a) => ShrinkInv(w.pool, w.live, a);
  }

  lemma {:induction false} RunInv(w: World, ops: seq<Op>)
    requires WorldInv(w) && Feasible(w, ops)
    ensures WorldInv(Run(w, ops))
    decreases |ops|
  {
    hide WorldInv, Step, CanStep;
    if ops != [] {
      StepInv(w, ops[0]);
      RunInv(Step(w, ops[0]), ops[1..]);
    }
  }

  // ----- the chain over runs -----

  /** `q` is a later state of the chain `p`. */
  ghost predicate Later(p: Pool, q: Pool) {
    && |p.blocks| <= |q.blocks|
    && p.cur <= q.cur
    && (forall i :: 0 <= i < |p.blocks| ==>
          && p.blocks[i].base == q.blocks[i].base && p.blocks[i].end == q.blocks[i].end
          && p.blocks[i].rmd == q.blocks[i].rmd)
    && (forall i :: 0 <= i < p.cur && i < |p.blocks| ==> p.blocks[i] == q.blocks[i])
  }

  lemma AllocSmallLater(p: Pool, n: nat, internal: bool, blk: nat)
    requires Usable(p)
    ensures Later(p, AllocSmall(p, n, internal, blk).pool)
  {
    hide Align, Room, Track;
  }

  lemma StepLater(w: World, op: Op)
    requires CanStep(w, op)
    ensures Later(w.pool, Step(w, op).pool)
  {
    hide Align, Room, Plausible, LiveAllocation, LiveAfter, Owned, Grantable, AllocSmall, FirstFit, Advance;
    if op.Alloc? {
      AllocSmallLater(w.pool, op.n, false, op.blk);
      AllocSmallLater(w.pool, NODE, true, op.blk);
    }
  }

  /** Over any run the search start only moves forward, blocks keep their place and bounds,
      and the blocks behind the search start never change again. */
  lemma {:induction false} RunLater(w: World, ops: seq<Op>)
    requires Feasible(w, ops)
    ensures Later(w.pool, Run(w, ops).pool)
    decreases |ops|
  {
    hide CanStep, Step;
    if ops != [] {
      StepLater(w, ops[0]);
      RunLater(Step(w, ops[0]), ops[1..]);
    }
  }

  /** A block is appended exactly when no block from `cur` to the tail has room and `malloc` grants one;
      the request fails exactly when no block has room and it does not, and then it changes no block. */
  lemma AppendExact(p: Pool, live: Live, n: nat, blk: nat)
    requires Usable(p)
    ensures var g := AllocSmall(p, n, false, blk);
      var full := forall i :: p.cur <= i < |p.blocks| ==> Room(p.blocks[i]) < n;
      && (|g.pool.blocks| > |p.blocks| <==> full && blk != 0)
      && (g.pool.blocks == p.blocks && g.pool.items == p.items && g.at == 0 <== full && blk == 0)
      && (!full ==> |g.pool.blocks| == |p.blocks|)
      && (Inv(p, live) ==> (g.at == 0 <==> full && blk == 0))
  {
    hide Align, Room;
    var j := FirstFit(p.blocks, p.cur, n);
    if Inv(p, live) && j < |p.blocks| {
      assert BlockOk(p.blocks[j], p.Capacity(), p.blocks[0].rmd, live);
    }
    assert j < |p.blocks| ==> Room(p.blocks[j]) >= n;
  }

  // ----- ownership -----

  /** The part of the heap that belongs to the rest of the program. */
  ghost function Others(w: World): Live { w.live - Owned(w.pool) }

  ghost function OthersStep(live: Live, op: Op): Live {
    match op
    case OtherMalloc(a, n) => live[a := n]
    case OtherFree(a) => live - {a}
    case _ => live
  }

  ghost function OthersRun(live: Live, ops: seq<Op>): Live
    decreases |ops|
  {
    if ops == [] then live else OthersRun(OthersStep(live, ops[0]), ops[1..])
  }

  lemma BasesAppend(bs: seq<Block>, b: Block)
    ensures Bases(bs + [b]) == Bases(bs) + {b.base}
  {
    assert (bs + [b])[|bs|] == b;
    forall i | 0 <= i < |bs| ensures bs[i].base in Bases(bs + [b]) {
      assert (bs + [b])[i] == bs[i];
    }
  }

  lemma BasesUpdate(bs: seq<Block>, j: nat, last: nat)
    requires j < |bs|
    ensures Bases(bs[j := bs[j].(last := last)]) == Bases(bs)
  {
    var cs := bs[j := bs[j].(last := last)];
    forall i | 0 <= i < |bs| ensures bs[i].base in Bases(cs) && cs[i].base in Bases(bs) {
      assert cs[i].base == bs[i].base;
    }
  }

  lemma DatasPrepend(ls: seq<Large>, l: Large)
    ensures Datas([l] + ls) == Datas(ls) + {l.data}
  {
    assert ([l] + ls)[0] == l;
    forall i | 0 <= i < |ls| ensures ls[i].data in Datas([l] + ls) {
      assert ([l] + ls)[i + 1] == ls[i];
    }
  }

  lemma AllocSmallOwned(p: Pool, n: nat, internal: bool, blk: nat)
    requires Usable(p)
    ensures var q := AllocSmall(p, n, internal, blk).pool;
      && Owned(q) == Owned(p) + (if FirstFit(p.blocks, p.cur, n) == |p.blocks| && blk != 0 then {blk} else {})
      && q.larges == p.larges
  {
    hide Align, Room;
    var q := AllocSmall(p, n, internal, blk).pool;
    var j := FirstFit(p.blocks, p.cur, n);
    if j < |p.blocks| {
      BasesUpdate(p.blocks, j, q.blocks[j].last);
    } else if blk != 0 {
      BasesAppend(p.blocks, q.blocks[j]);
    }
  }

  /** The addresses a call of `pool_alloc` obtained from `malloc` and kept. */
  ghost function Kept(p: Pool, n: nat, big: nat, blk: nat): set<nat>
    requires Usable(p)
  {
    var block := if NeedsBlock(p, n) && blk != 0 then {blk} else {};
    if Small(p, n) then block
    else if big == 0 || (NeedsBlock(p, n) && blk == 0) then {}
    else {big} + block
  }

  lemma AllocOwned(p: Pool, live: Live, n: nat, big: nat, blk: nat)
    requires Inv(p, live)
    ensures Owned(PoolModel.Alloc(p, n, big, blk).pool) == Owned(p) + Kept(p, n, big, blk)
  {
    if Small(p, n) {
      AllocSmallOwned(p, n, false, blk);
    } else if big != 0 {
      AllocSmallOwned(p, NODE, true, blk);
      var g := AllocSmall(p, NODE, true, blk);
      var l := Large(FirstFit(p.blocks, p.cur, NODE), g.at, big, n);
      if NeedsBlock(p, n) && blk == 0 {
      } else {
        NodeGranted(p, live, blk);
        DatasPrepend(p.larges, l);
      }
    }
  }

  lemma NodeGranted(p: Pool, live: Live, blk: nat)
    requires Inv(p, live) && (FirstFit(p.blocks, p.cur, NODE) == |p.blocks| ==> blk != 0)
    ensures AllocSmall(p, NODE, true, blk).at != 0
  {
    var j := FirstFit(p.blocks, p.cur, NODE);
    if j < |p.blocks| {
      assert BlockOk(p.blocks[j], p.Capacity(), p.blocks[0].rmd, live);
    }
  }

  lemma KeptIsNew(p: Pool, live: Live, n: nat, big: nat, blk: nat)
    requires Usable(p) && Plausible(p, live, n, big, blk)
    ensures var live' := LiveAfter(p, live, n, big, blk);
      var kept := Kept(p, n, big, blk);
      && live'.Keys == live.Keys + kept && kept !! live.Keys
      && forall a :: a in live ==> live'[a] == live[a]
  {
    hide Align, Room, FirstFit;
  }

  lemma SubtractGrown(live: Live, live': Live, owned: set<nat>, kept: set<nat>)
    requires live'.Keys == live.Keys + kept && kept !! live.Keys
    requires forall a :: a in live ==> live'[a] == live[a]
    ensures live' - (owned + kept) == live - owned
  {
  }

  /** What `pool_alloc` keeps is new to the heap, and the heap grows by just that. */
  lemma AllocOthers(p: Pool, live: Live, n: nat, big: nat, blk: nat)
    requires Inv(p, live) && Plausible(p, live, n, big, blk)
    ensures LiveAfter(p, live, n, big, blk) - Owned(PoolModel.Alloc(p, n, big, blk).pool) == live - Owned(p)
  {
    AllocOwned(p, live, n, big, blk);
    KeptIsNew(p, live, n, big, blk);
    hide *;
    SubtractGrown(live, LiveAfter(p, live, n, big, blk), Owned(p), Kept(p, n, big, blk));
  }

  lemma StepOthers(w: World, op: Op)
    requires WorldInv(w) && CanStep(w, op)
    ensures Others(Step(w, op)) == OthersStep(Others(w), op)
  {
    hide Align, Room, PoolModel.Alloc, LiveAfter, BlocksOk, LargesOk, ItemsOk, LiveAllocation;
    match op
    case Alloc(n, big, blk) => AllocOthers(w.pool, w.live, n, big, blk);
    case Free(r) => FreeOwns(w.pool, r);
    case OtherMalloc(a, n) => OwnedIsLive(w.pool, w.live);
    case OtherFree(a) =>
  }

  lemma FreeOwns(p: Pool, r: Range)
    requires Usable(p)
    ensures Owned(PoolModel.Free(p, r.addr, r.size)) == Owned(p)
  {
    BasesUpdate(p.blocks, p.cur, r.addr);
  }

  lemma OwnedIsLive(p: Pool, live: Live)
    requires Inv(p, live)
    ensures Owned(p) <= live.Keys
  {
    forall i | 0 <= i < |p.blocks| ensures p.blocks[i].base in live {
      assert BlockOk(p.blocks[i], p.Capacity(), p.blocks[0].rmd, live);
    }
    forall i | 0 <= i < |p.larges| ensures p.larges[i].data in live {
      assert LargeOk(p.larges[i], p.items, live);
    }
  }

  lemma {:induction false} RunOthers(w: World, ops: seq<Op>)
    requires WorldInv(w) && Feasible(w, ops)
    ensures Others(Run(w, ops)) == OthersRun(Others(w), ops)
    decreases |ops|
  {
    hide WorldInv, Step, CanStep, Others, OthersStep;
    if ops != [] {
      StepInv(w, ops[0]);
      StepOthers(w, ops[0]);
      RunOthers(Step(w, ops[0]), ops[1..]);
    }
  }

  // ----- pool_delete -----

  /** Calling `free` on each address in turn, each of them live at its turn. */
  ghost predicate Freeable(live: Live, addrs: seq<nat>) {
    addrs == [] || (addrs[0] in live && Freeable(live - {addrs[0]}, addrs[1..]))
  }

  ghost function FreeAll(live: Live, addrs: seq<nat>): Live {
    if addrs == [] then live else FreeAll(live - {addrs[0]}, addrs[1..])
  }

  ghost function AsSet(addrs: seq<nat>): set<nat> { set a | a in addrs }

  ghost predicate NoDuplicates(addrs: seq<nat>) {
    forall i, j :: 0 <= i < j < |addrs| ==> addrs[i] != addrs[j]
  }

  lemma {:induction false} FreeDistinct(live: Live, addrs: seq<nat>)
    requires NoDuplicates(addrs) && AsSet(addrs) <= live.Keys
    ensures Freeable(live, addrs) && FreeAll(live, addrs) == live - AsSet(addrs)
    decreases |addrs|
  {
    if addrs != [] {
      var a, rest := addrs[0], addrs[1..];
      assert a in AsSet(addrs);
      assert a !in rest;
      assert AsSet(addrs) == {a} + AsSet(rest);
      FreeDistinct(live - {a}, rest);
    }
  }

  /** `pool_delete` frees every range the pool owns exactly once, and nothing else. */
  lemma DeleteExact(p: Pool, live: Live)
    requires Inv(p, live)
    ensures NoDuplicates(Released(p)) && AsSet(Released(p)) == Owned(p)
    ensures Freeable(live, Released(p)) && FreeAll(live, Released(p)) == live - Owned(p)
  {
    hide Align, Room, ItemsOk, Total, Times;
    var r := Released(p);
    var m := |p.larges|;
    assert forall i :: 0 <= i < m ==> r[i] == p.larges[i].data;
    assert forall i :: 0 <= i < |p.blocks| ==> r[m + i] == p.blocks[i].base;
    forall a | a in Owned(p) ensures a in r {
      if i :| 0 <= i < |p.blocks| && p.blocks[i].base == a {
        assert r[m + i] == a;
      } else {
        var i :| 0 <= i < m && p.larges[i].data == a;
        assert r[i] == a;
      }
    }
    forall i, j | 0 <= i < j < |r| ensures r[i] != r[j] {
      if j < m {
        assert p.larges[i].data != p.larges[j].data;
      } else if i < m {
        assert p.larges[i].data != p.blocks[j - m].base;
      } else {
        assert p.blocks[i - m].base != p.blocks[j - m].base;
      }
    }
    OwnedIsLive(p, live);
    FreeDistinct(live, r);
  }

  lemma NewOwned(live: Live, base: nat, size: nat, rmd: nat)
    requires base !in live
    ensures Others(World(New(base, size, rmd), live[base := size])) == live
  {
    assert New(base, size, rmd).blocks[0].base == base;
    assert Owned(New(base, size, rmd)) == {base};
  }

  /** From `pool_new` through any calls to `pool_delete`: the heap is left exactly as the rest of the
      program made it, every range the pool obtained having been freed once while it was live. */
  lemma NothingLeaks(live: Live, base: nat, size: nat, rmd: nat, ops: seq<Op>)
    requires Separate(live) && Grantable(live, base, size)
    requires size % ALIGNMENT == 0 && HEADER + NODE <= size
    requires Feasible(World(New(base, size, rmd), live[base := size]), ops)
    ensures var w := Run(World(New(base, size, rmd), live[base := size]), ops);
      && Freeable(w.live, Released(w.pool))
      && FreeAll(w.live, Released(w.pool)) == OthersRun(live, ops)
  {
    var w := World(New(base, size, rmd), live[base := size]);
    NewInv(live, base, size, rmd);
    NewOwned(live, base, size, rmd);
    RunInv(w, ops);
    RunOthers(w, ops);
    DeleteExact(Run(w, ops).pool, Run(w, ops).live);
  }

  // ----- why the block size must be a multiple of the alignment -----

  ghost predicate InBounds(p: Pool) {
    forall i :: 0 <= i < |p.blocks| ==> p.blocks[i].last <= p.blocks[i].end
  }

  ghost predicate StaysInBounds(w: World) {
    forall ops :: Feasible(w, ops) ==> InBounds(Run(w, ops).pool)
  }

  /** The requests that fill the first block to its last byte, and one byte more. */
  function Overfill(k: nat, rest: nat): seq<Op> {
    if k == 0 then [Alloc(rest, 0, 0), Alloc(1, 0, 0)] else [Alloc(8, 0, 0)] + Overfill(k - 1, rest)
  }

  ghost predicate OnlyBlock(w: World, free: nat) {
    && |w.pool.blocks| == 1 && w.pool.cur == 0 && HEADER + NODE <= w.pool.Capacity()
    && var b := w.pool.blocks[0];
      b.base % ALIGNMENT == 0 && b.base + HEADER <= b.last && b.last % ALIGNMENT == 0 && b.end < WORD_LIMIT - 8
      && b.last + free == b.end
  }

  /** The only block has room: the request goes right behind what is there. */
  lemma FillsOn(w: World, n: nat, free: nat)
    requires OnlyBlock(w, free) && 0 < n <= 8 && n <= free
    ensures var b := w.pool.blocks[0];
      && CanStep(w, Alloc(n, 0, 0))
      && var q := Step(w, Alloc(n, 0, 0)).pool; q.blocks == [b.(last := b.last + n)] && q.cur == 0
  {
    AlignMultiple(w.pool.blocks[0].last);
    assert Room(w.pool.blocks[0]) == free;
    hide Align, Room;
    assert FirstFit(w.pool.blocks, 0, n) == 0;
  }

  lemma {:induction false} OverfillBreaks(w: World, k: nat, rest: nat)
    requires 0 < rest < ALIGNMENT && OnlyBlock(w, 8 * k + rest)
    ensures Feasible(w, Overfill(k, rest)) && !InBounds(Run(w, Overfill(k, rest)).pool)
    decreases k
  {
    hide CanStep, Step, InBounds;
    var n := if k == 0 then rest else 8;
    FillsOn(w, n, 8 * k + rest);
    var op := Alloc(n, 0, 0);
    var w' := Step(w, op);
    if k == 0 {
      FullBlockOverflows(w');
      assert Overfill(k, rest) == [op] + [Alloc(1, 0, 0)];
      assert Run(w', [Alloc(1, 0, 0)]) == Step(w', Alloc(1, 0, 0));
    } else {
      OverfillBreaks(w', k - 1, rest);
      assert Overfill(k, rest)[1..] == Overfill(k - 1, rest);
    }
  }

  lemma FullBlockOverflows(w: World)
    requires |w.pool.blocks| == 1 && w.pool.cur == 0 && HEADER + NODE <= w.pool.Capacity()
    requires w.pool.blocks[0].last == w.pool.blocks[0].end && w.pool.blocks[0].end % ALIGNMENT != 0
    requires w.pool.blocks[0].end < WORD_LIMIT - 8
    ensures CanStep(w, Alloc(1, 0, 0)) && !InBounds(Step(w, Alloc(1, 0, 0)).pool)
  {
    assert FirstFit(w.pool.blocks, 0, 1) == 0;
    var q := Step(w, Alloc(1, 0, 0)).pool;
    assert q.blocks[0].last > q.blocks[0].end;
  }

  /** Blocks that hold a header and a list node stay within their bounds over every run exactly when their size is a
      multiple of eight. */
  lemma CapacityMustBeAligned(base: nat, size: nat, rmd: nat)
    requires base > 0 && base % ALIGNMENT == 0 && HEADER + NODE <= size && base + size < WORD_LIMIT - 8
    ensures var w := World(New(base, size, rmd), map[base := size]);
      size % ALIGNMENT == 0 <==> StaysInBounds(w)
  {
    var w := World(New(base, size, rmd), map[base := size]);
    if size % ALIGNMENT == 0 {
      forall ops | Feasible(w, ops) ensures InBounds(Run(w, ops).pool) {
        assert Grantable(map[], base, size);
        NewInv(map[], base, size, rmd);
        RunInv(w, ops);
        InvInBounds(Run(w, ops));
      }
    } else {
      var k, rest := (size - HEADER) / 8, size % 8;
      OverfillBreaks(w, k, rest);
    }
  }

  lemma InvInBounds(w: World)
    requires WorldInv(w)
    ensures InBounds(w.pool)
  {
    forall i | 0 <= i < |w.pool.blocks| ensures w.pool.blocks[i].last <= w.pool.blocks[i].end {
      assert BlockOk(w.pool.blocks[i], w.pool.Capacity(), w.pool.blocks[0].rmd, w.live);
    }
  }

  // ----- and why it must hold a header and a list node -----

  /** The test for the small path; below the size of a header the `size_t` subtraction wraps. */
  predicate TakesSmall(capacity: nat, n: nat) {
    n <= ALLOC_MAX && n <= (capacity - HEADER) % WORD_LIMIT
  }

  /** How deep `pool_alloc` nests on a request of `n` bytes, the large path asking for its list node by a call of
      its own; `bigs` are the answers of `malloc` to the large requests. */
  function Nesting(capacity: nat, n: nat, bigs: seq<nat>): nat
    decreases |bigs|
  {
    if TakesSmall(capacity, n) || bigs == [] || bigs[0] == 0 then 0 else 1 + Nesting(capacity, NODE, bigs[1..])
  }

  ghost predicate NestsOnce(capacity: nat) {
    forall n: nat, bigs: seq<nat> :: Nesting(capacity, n, bigs) <= 1
  }

  /** In a block that holds a header and no node behind it, the inner call takes the large path, too. */
  lemma {:induction false} NestsToAnyDepth(capacity: nat, n: nat, k: nat) returns (bigs: seq<nat>)
    requires HEADER <= capacity < HEADER + NODE && !TakesSmall(capacity, n)
    ensures |bigs| == k && Nesting(capacity, n, bigs) == k
    decreases k
  {
    bigs := [];
    if k > 0 {
      var inner := NestsToAnyDepth(capacity, NODE, k - 1);
      bigs := [8] + inner;
      assert bigs[1..] == inner;
    }
  }

  lemma NestingExactly(capacity: nat)
    requires capacity < WORD_LIMIT
    ensures NestsOnce(capacity) <==> capacity < HEADER || HEADER + NODE <= capacity
  {
    if HEADER <= capacity < HEADER + NODE {
      var bigs := NestsToAnyDepth(capacity, NODE, 2);
    } else {
      forall n: nat, bigs: seq<nat> ensures Nesting(capacity, n, bigs) <= 1 {
        assert TakesSmall(capacity, NODE);
      }
    }
  }

  /** Whatever the block size: blocks stay within their bounds over every run, and `pool_alloc` nests at most once,
      exactly when the size is a multiple of eight and holds a header and a list node. */
  lemma BlockSizeExactly(base: nat, size: nat, rmd: nat)
    requires base > 0 && base % ALIGNMENT == 0 && base + size < WORD_LIMIT - 8
    ensures var w := World(New(base, size, rmd), map[base := size]);
      size % ALIGNMENT == 0 && HEADER + NODE <= size <==> StaysInBounds(w) && NestsOnce(size)
  {
    hide NestsOnce, StaysInBounds;
    NestingExactly(size);
    if HEADER + NODE <= size {
      CapacityMustBeAligned(base, size, rmd);
    } else if size < HEADER {
      TooSmallForItsHeader(base, size, rmd);
    }
  }

  /** Where even the header does not fit, the new block is out of bounds at once. */
  lemma TooSmallForItsHeader(base: nat, size: nat, rmd: nat)
    requires size < HEADER
    ensures !InBounds(New(base, size, rmd)) && !StaysInBounds(World(New(base, size, rmd), map[base := size]))
  {
    var w := World(New(base, size, rmd), map[base := size]);
    assert w.pool.blocks[0].last > w.pool.blocks[0].end;
    assert Feasible(w, []) && Run(w, []) == w;
  }
}
