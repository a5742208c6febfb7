/** The statement `dst @src;`: every key under the prefix `src` is stored again under `dst`,
    by inserting into the ordered map while walking it. */
module PrefixCopy {
  import opened Wrappers
  import opened Lexicographic

  type Entries = map<string, string>

  /** The key that key `k`, under `src`, is copied to. */
  function Image(k: string, dst: string, src: string): string
    requires src <= k
  {
    dst + k[|src|..]
  }

  /** Every key the walk can ever see: the keys there are, and `dst` followed by an end of one of them. */
  ghost function Universe(keys: set<string>, dst: string): set<string> {
    keys + (set k, i | k in keys && 0 <= i <= |k| :: dst + k[i..])
  }

  ghost predicate Closed(u: set<string>, dst: string, src: string) {
    forall k :: k in u && src <= k ==> Image(k, dst, src) in u
  }

  /** `dst` runs strictly on from `src`: the copies would feed the walk for ever. */
  predicate Feeds(dst: string, src: string) { src < dst }

  lemma UniverseClosed(keys: set<string>, dst: string, src: string)
    requires !Feeds(dst, src)
    ensures Closed(Universe(keys, dst), dst, src) && keys <= Universe(keys, dst)
  {
    var u := Universe(keys, dst);
    forall k | k in u && src <= k ensures Image(k, dst, src) in u {
      if k in keys {
        assert k[|src|..] == k[|src|..];
      } else {
        var l, i :| l in keys && 0 <= i <= |l| && k == dst + l[i..];
        PrefixesCompare(dst, src, k);
        var j := i + (|src| - |dst|);
        assert k[|src|..] == l[j..];
      }
    }
  }

  ghost function Beyond(u: set<string>, c: string): set<string> { set l | l in u && Less(c, l) }

  lemma BeyondShrinks(u: set<string>, c: string, d: string)
    requires d in u && Less(c, d)
    ensures |Beyond(u, d)| < |Beyond(u, c)|
  {
    Irreflexive(d);
    forall l | l in Beyond(u, d) ensures l in Beyond(u, c) { Transitive(c, d, l); }
    assert d in Beyond(u, c) && d !in Beyond(u, d);
    Smaller(Beyond(u, d), Beyond(u, c));
  }

  lemma Smaller<T>(a: set<T>, b: set<T>)
    requires a < b
    ensures |a| < |b|
  {
    assert b == a + (b - a);
    assert |b| == |a| + |b - a|;
  }

  /** The walk from key `at` on; each turn reads the map as the earlier turns left it. */
  ghost function Walk(m: Entries, dst: string, src: string, at: Option<string>, u: set<string>): Entries
    requires m.Keys <= u && Closed(u, dst, src) && (at.Some? ==> at.value in m)
    decreases if at.None? then 0 else 1 + |Beyond(u, at.value)|
  {
    if at.None? || !(src <= at.value) then m
    else
      var k := at.value;
      var m' := m[Image(k, dst, src) := m[k]];
      var next := Seek(m'.Keys, k, true);
      assert next.Some? ==> |Beyond(u, next.value)| < |Beyond(u, k)| by {
        if next.Some? { BeyondShrinks(u, k, next.value); }
      }
      Walk(m', dst, src, next, u)
  }

  /** What the statement leaves in the map. */
  ghost function CopyAll(m: Entries, dst: string, src: string): Entries
    requires !Feeds(dst, src)
  {
    UniverseClosed(m.Keys, dst, src);
    Walk(m, dst, src, Seek(m.Keys, src, false), Universe(m.Keys, dst))
  }

  // ----- the snapshot reading -----

  /** The keys of `keys` under `src` that the walk has passed when it stands at `at`. */
  ghost function Passed(keys: set<string>, src: string, at: Option<string>): set<string> {
    set k | k in keys && src <= k && (at.Some? ==> Less(k, at.value))
  }

  /** The key a copy came from. */
  function Source(n: string, dst: string, src: string): string
    requires dst <= n
  {
    src + n[|dst|..]
  }

  predicate IsImage(n: string, done: set<string>, dst: string, src: string) {
    dst <= n && Source(n, dst, src) in done
  }

  ghost function Images(done: set<string>, dst: string, src: string): set<string> {
    set k | k in done && src <= k :: Image(k, dst, src)
  }

  lemma ImageExact(n: string, done: set<string>, dst: string, src: string)
    requires forall k :: k in done ==> src <= k
    ensures n in Images(done, dst, src) <==> IsImage(n, done, dst, src)
  {
    if n in Images(done, dst, src) {
      var k :| k in done && src <= k && Image(k, dst, src) == n;
      assert n[|dst|..] == k[|src|..] && Source(n, dst, src) == k;
    }
    if IsImage(n, done, dst, src) {
      assert Image(Source(n, dst, src), dst, src) == n;
    }
  }

  /** `m` with `dst + x -> m[src + x]` for the keys `src + x` in `done`. */
  ghost function Overlay(m: Entries, done: set<string>, dst: string, src: string): Entries
    requires done <= m.Keys && forall k :: k in done ==> src <= k
  {
    map n | n in m.Keys + Images(done, dst, src) ::
      ImageExact(n, done, dst, src);
      if IsImage(n, done, dst, src) then m[Source(n, dst, src)] else m[n]
  }

  /** The old map overridden by `dst + x -> old[src + x]` for every key `src + x`, all read before any is written. */
  ghost function Snapshot(m: Entries, dst: string, src: string): Entries {
    Overlay(m, Passed(m.Keys, src, None), dst, src)
  }

  /** No copy lands under `src` ahead of the key it is copied from. */
  ghost predicate NeverAhead(keys: set<string>, dst: string, src: string) {
    forall k :: k in keys && src <= k && src <= Image(k, dst, src) ==> !Less(k, Image(k, dst, src))
  }

  /** One turn of the walk extends the overlay by the key it stands at. */
  lemma OverlayStep(m: Entries, done: set<string>, dst: string, src: string, k: string)
    requires done <= m.Keys && (forall l :: l in done ==> src <= l) && k in m && src <= k
    requires !IsImage(k, done, dst, src)
    ensures Overlay(m, done, dst, src)[Image(k, dst, src) := Overlay(m, done, dst, src)[k]]
      == Overlay(m, done + {k}, dst, src)
  {
    var cur, next := Overlay(m, done, dst, src), Overlay(m, done + {k}, dst, src);
    var n := Image(k, dst, src);
    assert Source(n, dst, src) == k;
    assert Images(done + {k}, dst, src) == Images(done, dst, src) + {n};
    forall l | l in next ensures l in cur[n := cur[k]] && next[l] == cur[n := cur[k]][l] {
      ImageExact(l, done, dst, src);
      ImageExact(l, done + {k}, dst, src);
      if dst <= l && Source(l, dst, src) == k {
        assert l == n;
      }
    }
  }

  /** A key the walk stands at is an old key, not yet written to. */
  lemma StandsOnOld(m: Entries, dst: string, src: string, k: string)
    requires NeverAhead(m.Keys, dst, src) && src <= k
    requires k in Overlay(m, Passed(m.Keys, src, Some(k)), dst, src)
    ensures k in m && !IsImage(k, Passed(m.Keys, src, Some(k)), dst, src)
  {
    var done := Passed(m.Keys, src, Some(k));
    ImageExact(k, done, dst, src);
    assert dst <= k ==> Image(Source(k, dst, src), dst, src) == k;
  }

  lemma PassedNext(m: Entries, keys: set<string>, src: string, k: string)
    requires m.Keys <= keys && k in m && src <= k
    ensures Passed(m.Keys, src, Seek(keys, k, true)) == Passed(m.Keys, src, Some(k)) + {k}
  {
    var next := Seek(keys, k, true);
    forall l | l in m && src <= l
      ensures l in Passed(m.Keys, src, next) <==> (Less(l, k) || l == k)
    {
      Trichotomy(l, k);
      if Less(k, l) {
        Asymmetric(k, l);
        assert l in Candidates(keys, k, true);
        if next.Some? && Less(l, next.value) { Asymmetric(l, next.value); }
      } else if next.Some? && Less(l, k) {
        Transitive(l, k, next.value);
      }
    }
  }

  lemma PassedAll(keys: set<string>, src: string, k: string)
    requires AtMost(src, k) && !(src <= k)
    ensures Passed(keys, src, Some(k)) == Passed(keys, src, None)
  {
    forall l | l in keys && src <= l ensures Less(l, k) {
      Trichotomy(l, k);
      if Less(k, l) { PrefixInterval(src, k, l); }
    }
  }

  /** From any point of it on, the walk completes the snapshot. */
  lemma {:induction false} WalkIsSnapshot(m: Entries, dst: string, src: string, at: Option<string>, u: set<string>)
    requires NeverAhead(m.Keys, dst, src) && Closed(u, dst, src)
    requires var cur := Overlay(m, Passed(m.Keys, src, at), dst, src);
      cur.Keys <= u && (at.Some? ==> at.value in cur && AtMost(src, at.value))
    ensures Walk(Overlay(m, Passed(m.Keys, src, at), dst, src), dst, src, at, u) == Snapshot(m, dst, src)
    decreases if at.None? then 0 else 1 + |Beyond(u, at.value)|
  {
    if at.Some? {
      var k := at.value;
      if src <= k {
        var done := Passed(m.Keys, src, at);
        var cur := Overlay(m, done, dst, src);
        StandsOnOld(m, dst, src, k);
        OverlayStep(m, done, dst, src, k);
        var cur' := cur[Image(k, dst, src) := cur[k]];
        var next := Seek(cur'.Keys, k, true);
        PassedNext(m, cur'.Keys, src, k);
        if next.Some? {
          BeyondShrinks(u, k, next.value);
          PrefixAtMost(src, k);
          if src != k { Transitive(src, k, next.value); }
        }
        WalkIsSnapshot(m, dst, src, next, u);
      } else {
        PassedAll(m.Keys, src, k);
      }
    }
  }

  /** The copy statement equals the snapshot whenever no copy lands under `src` ahead of its source. */
  lemma CopyIsSnapshot(m: Entries, dst: string, src: string)
    requires !Feeds(dst, src) && NeverAhead(m.Keys, dst, src)
    ensures CopyAll(m, dst, src) == Snapshot(m, dst, src)
  {
    UniverseClosed(m.Keys, dst, src);
    var first := Seek(m.Keys, src, false);
    forall k | k in m && src <= k ensures first.Some? && !Less(k, first.value) {
      PrefixAtMost(src, k);
      assert k in Candidates(m.Keys, src, false);
      if Less(k, first.value) { Asymmetric(k, first.value); }
    }
    assert Passed(m.Keys, src, first) == {};
    assert Overlay(m, {}, dst, src) == m;
    WalkIsSnapshot(m, dst, src, first, Universe(m.Keys, dst));
  }

  /** Neither prefix runs on from the other, or they are the same. */
  predicate Unrelated(dst: string, src: string) {
    dst == src || (!(dst <= src) && !(src <= dst))
  }

  lemma UnrelatedNeverAhead(keys: set<string>, dst: string, src: string)
    requires Unrelated(dst, src)
    ensures NeverAhead(keys, dst, src) && !Feeds(dst, src)
  {
    forall k | k in keys && src <= k && src <= Image(k, dst, src) ensures !Less(k, Image(k, dst, src)) {
      var n := Image(k, dst, src);
      if dst == src {
        assert n == k;
        Irreflexive(k);
      } else {
        PrefixesCompare(dst, src, n);
      }
    }
  }
}
