/** config.c: the loader over its own buffer, an ordered map of pointers, and the pool the values live in. */
module Config {
  import opened Wrappers
  import opened Machine
  import opened PoolModel
  import opened PoolLaws
  import opened PoolAllocator
  import opened Lexicographic
  import opened PrefixCopy
  import opened PrefixCopyExact
  import opened ConfigGrammar
  import opened ConfigLaws
  import opened ConfigScanner
  import opened ConfigRoundTrip
  import opened Decimal

  /** A string that sits in a live allocation of the pool. */
  ghost predicate StoredAt(p: Pool, mem: Memory, a: nat, s: string) {
    LiveAllocation(p, Range(a, |s| + 1)) && HoldsString(mem, a, s)
  }

  ghost predicate KeysFit(values: Entries) {
    forall k :: k in values ==> |k| <= KEY_MAX && NUL !in k
  }

  /** Every key's pointer reads the string stored for it. */
  ghost predicate AllStored(data: map<string, nat>, values: Entries, p: Pool, mem: Memory) {
    forall k :: k in values && k in data ==> StoredAt(p, mem, data[k], values[k])
  }

  ghost predicate StillStored(p: Pool, mem: Memory, p': Pool, mem': Memory) {
    forall a: nat, s: string :: StoredAt(p, mem, a, s) ==> StoredAt(p', mem', a, s)
  }

  lemma OneMore(data: map<string, nat>, values: Entries, p: Pool, mem: Memory, p': Pool, mem': Memory, key: string,
                m: nat, value: string)
    requires AllStored(data, values, p, mem) && StillStored(p, mem, p', mem') && StoredAt(p', mem', m, value)
    requires data.Keys == values.Keys
    requires KeysFit(values) && |key| <= KEY_MAX && NUL !in key
    ensures AllStored(data[key := m], values[key := value], p', mem') && KeysFit(values[key := value])
  {
    hide StoredAt;
  }

  /** What a byte of a value leads to: the scan goes on, the text is rejected, or a call failed. */
  datatype Verdict = More | Reject | Starved

  class ConfigT {
    const heap: Heap
    const pool: PoolT
    var data: map<string, nat>   // the Judy array, from keys to value pointers
    var lineError: nat
    var conf: array?<char>
    ghost var values: Entries
    ghost var judyFailures: nat   // the insertions that failed

    constructor (pool: PoolT)
      requires pool.Valid()
      ensures this.pool == pool && heap == pool.heap && data == map[] && values == map[] && lineError == 0
      ensures conf == null
      ensures Valid()
    {
      this.heap := pool.heap;
      this.pool := pool;
      data, values, lineError, conf := map[], map[], 0, null;
      judyFailures := 0;
    }

    ghost predicate Valid()
      reads `data, `values, pool, pool.chain, pool.nodes, pool.heap`live, heap`mem
      ensures Valid() ==> pool.Valid() && pool.heap == heap && data.Keys == values.Keys
    {
      && pool.heap == heap && pool.Valid()
      && KeysFit(values)
      && data.Keys == values.Keys && AllStored(data, values, pool.view, heap.mem)
    }

    // ----- the ordered map -----

    /** `JSLF` and `JSLN`. */
    method SeekKey(c: string, beyond: bool) returns (r: Option<string>)
      ensures r == Seek(data.Keys, c, beyond)
    {
      var rest := data.Keys;
      r := None;
      while rest != {}
        invariant rest <= data.Keys
        invariant r.None? ==> forall k :: k in data.Keys - rest ==> !Candidate(c, beyond, k)
        invariant r.Some? ==> IsLeast(Candidates(data.Keys - rest, c, beyond), r.value)
        decreases |rest|
      {
        var k :| k in rest;
        if Candidate(c, beyond, k) && (r.None? || Less(k, r.value)) {
          LeastExtends(data.Keys - rest, c, beyond, k, r);
          r := Some(k);
        } else {
          LeastStays(data.Keys - rest, c, beyond, k, r);
        }
        rest := rest - {k};
        assert data.Keys - rest == (data.Keys - (rest + {k})) + {k};
      }
      assert data.Keys - rest == data.Keys;
      SeekIs(data.Keys, c, beyond, r);
    }

    static lemma LeastExtends(seen: set<string>, c: string, beyond: bool, k: string, r: Option<string>)
      requires Candidate(c, beyond, k)
      requires r.None? ==> forall l :: l in seen ==> !Candidate(c, beyond, l)
      requires r.Some? ==> IsLeast(Candidates(seen, c, beyond), r.value) && Less(k, r.value)
      ensures IsLeast(Candidates(seen + {k}, c, beyond), k)
    {
      forall l | l in Candidates(seen + {k}, c, beyond) ensures AtMost(k, l) {
        if l != k {
          assert l in Candidates(seen, c, beyond);
          if l != r.value { Transitive(k, r.value, l); }
        }
      }
    }

    static lemma LeastStays(seen: set<string>, c: string, beyond: bool, k: string, r: Option<string>)
      requires !(Candidate(c, beyond, k) && (r.None? || Less(k, r.value)))
      requires r.Some? ==> IsLeast(Candidates(seen, c, beyond), r.value)
      ensures r.Some? ==> IsLeast(Candidates(seen + {k}, c, beyond), r.value)
    {
      if r.Some? {
        Trichotomy(k, r.value);
        forall l | l in Candidates(seen + {k}, c, beyond) ensures AtMost(r.value, l) {
          if l != k { assert l in Candidates(seen, c, beyond); }
        }
      }
    }

    static lemma SeekIs(keys: set<string>, c: string, beyond: bool, r: Option<string>)
      requires r.None? ==> forall k :: k in keys ==> !Candidate(c, beyond, k)
      requires r.Some? ==> IsLeast(Candidates(keys, c, beyond), r.value)
      ensures r == Seek(keys, c, beyond)
    {
      var s := Seek(keys, c, beyond);
      if r.Some? {
        assert r.value in Candidates(keys, c, beyond);
        LeastUnique(Candidates(keys, c, beyond), r.value, s.value);
      }
    }

    // ----- storing -----

    /** The calls that failed: for memory, and for a place in the map. */
    ghost function Failures(): nat
      reads `judyFailures, heap`refused
    {
      heap.refused + judyFailures
    }

    /** `JSLI`: a place for the key, which holds 0 if the key is new. */
    method Insert(key: string) returns (ok: bool)
      modifies `data, `judyFailures
      ensures judyFailures == old(judyFailures) + if ok then 0 else 1
      ensures data == if ok && key !in old(data) then old(data)[key := 0] else old(data)
    {
      ok := *;
      if !ok {
        judyFailures := judyFailures + 1;
      } else if key !in data {
        data := data[key := 0];
      }
    }

    /** Writing to a range apart from a stored string leaves the string stored. */
    lemma StaysStored(p: Pool, live: Live, mem: Memory, n: nat, big: nat, blk: nat, q: Pool, m: nat, mem': Memory,
                      a: nat, s: string)
      requires Inv(p, live) && Plausible(p, live, n, big, blk) && n > 0
      requires Grant(q, m) == PoolModel.Alloc(p, n, big, blk)
      requires forall x: nat :: m == 0 || x < m || m + n <= x ==> mem'(x) == mem(x)
      requires StoredAt(p, mem, a, s)
      ensures StoredAt(q, mem', a, s)
    {
      hide Inv, Plausible, LiveAllocation, PoolModel.Alloc;
      AllocGrants(p, live, n, big, blk, Range(a, |s| + 1));
      forall x: nat | a <= x <= a + |s| ensures mem'(x) == mem(x) {
        assert m != 0 ==> Apart(Range(a, |s| + 1), Range(m, n));
      }
      forall i | 0 <= i < |s| ensures mem'(a + i) == s[i] {
        assert mem(a + i) == s[i];
      }
    }

    lemma AllStayStored(p: Pool, live: Live, mem: Memory, n: nat, big: nat, blk: nat, q: Pool, m: nat, mem': Memory)
      requires Inv(p, live) && Plausible(p, live, n, big, blk) && n > 0
      requires Grant(q, m) == PoolModel.Alloc(p, n, big, blk)
      requires forall x: nat :: m == 0 || x < m || m + n <= x ==> mem'(x) == mem(x)
      ensures StillStored(p, mem, q, mem')
    {
      hide Inv, Plausible, LiveAllocation, PoolModel.Alloc, StoredAt;
      forall a: nat, s: string | StoredAt(p, mem, a, s) ensures StoredAt(q, mem', a, s) {
        StaysStored(p, live, mem, n, big, blk, q, m, mem', a, s);
      }
    }

    lemma NewStored(p: Pool, live: Live, big: nat, blk: nat, q: Pool, m: nat, mem': Memory, value: string)
      requires Inv(p, live) && Grant(q, m) == PoolModel.Alloc(p, |value| + 1, big, blk) && m != 0
      requires NUL !in value && Holds(mem', m, value + [NUL])
      ensures StoredAt(q, mem', m, value)
    {
      hide Inv, LiveAllocation, PoolModel.Alloc;
      AllocLives(p, live, |value| + 1, big, blk);
      var bytes := value + [NUL];
      assert mem'(m + |value|) == bytes[|value|] == NUL;
      forall i | 0 <= i < |value| ensures mem'(m + i) == value[i] {
        assert bytes[i] == value[i];
      }
    }

    /** `JSLI` and `*pw = pool_cpy(...)`; `bytes` is what the copied range holds. */
    method Store(key: string, bytes: seq<char>, ghost value: string) returns (ok: bool)
      requires Valid() && |key| <= KEY_MAX && NUL !in key
      requires NUL !in value && bytes == value + [NUL]
      modifies `data, `values, `judyFailures, pool, pool.chain, heap
      ensures pool.Valid() && forall b :: b in pool.chain ==> b in old(pool.chain) || fresh(b)
      ensures Failures() == old(Failures()) + if ok then 0 else 1
      ensures ok ==> Valid() && values == old(values)[key := value]
      ensures StillStored(old(pool.view), old(heap.mem), pool.view, heap.mem)
    {
      hide Inv, Plausible, LiveAfter, PoolModel.Alloc, StoredAt, HoldsString, Holds, PoolT.Valid, AllStored,
        StillStored, KeysFit;
      ghost var before := data;
      ok := Insert(key);
      if !ok {
        Unchanged(pool.view, heap.mem);
        return;
      }
      PoolInv();
      ghost var p, live, mem := pool.view, heap.live, heap.mem;
      var m, big, blk := pool.Cpy(bytes);
      AllStayStored(p, live, mem, |bytes|, big, blk, pool.view, m, heap.mem);
      data := data[key := m];
      if m == 0 {
        return false;
      }
      NewStored(p, live, big, blk, pool.view, m, heap.mem, value);
      OneMore(before, values, p, mem, pool.view, heap.mem, key, m, value);
      assert data == before[key := m];
      values := values[key := value];
      return true;
    }

    static lemma Unchanged(p: Pool, mem: Memory)
      ensures StillStored(p, mem, p, mem)
    {
    }

    lemma PoolInv()
      requires pool.Valid()
      ensures Inv(pool.view, pool.heap.live)
    {
    }

    // ----- the copy statement -----

    /** The C string at `a`. */
    method ReadString(a: nat, ghost s: string) returns (r: string)
      requires HoldsString(heap.mem, a, s)
      ensures r == s
    {
      r := "";
      while heap.mem(a + |r|) != NUL
        invariant r <= s
        decreases |s| - |r|
      {
        assert |r| != |s|;
        assert heap.mem(a + |r|) == s[|r|];
        r := r + [heap.mem(a + |r|)];
      }
      if |r| < |s| { NoTerminatorInside(heap.mem, a, s, |r|); }
    }

    static lemma ImageClean(k: string, dst: string, src: string)
      requires src <= k && NUL !in k && NUL !in dst
      ensures NUL !in Image(k, dst, src)
    {
    }

    /** The copying of `v`, grown to `m` so far, stands at `at`; `u` bounds the keys it can meet. */
    ghost predicate Copying(v: Entries, m: Entries, dst: string, src: string, at: Option<string>, u: set<string>) {
      && Fits(v, Copy(dst, src)) && Fits(m, Copy(dst, src)) && Stands(m, dst, src, at, u)
      && Walk(m, dst, src, at, u) == CopyAll(v, dst, src)
    }

    lemma CopyStarts(v: Entries, dst: string, src: string)
      requires Fits(v, Copy(dst, src))
      ensures Copying(v, v, dst, src, Seek(v.Keys, src, false), Universe(v.Keys, dst))
    {
      UniverseClosed(v.Keys, dst, src);
    }

    lemma CopyStops(v: Entries, m: Entries, dst: string, src: string, at: Option<string>, u: set<string>)
      requires Copying(v, m, dst, src, at, u) && (at.Some? ==> !(src <= at.value))
      ensures !Feeds(dst, src) && m == CopyAll(v, dst, src)
    {
    }

    lemma CopyTurns(v: Entries, m: Entries, dst: string, src: string, k: string, u: set<string>)
      requires Copying(v, m, dst, src, Some(k), u) && src <= k
      ensures k in m && |Image(k, dst, src)| <= KEY_MAX
      ensures var m' := m[Image(k, dst, src) := m[k]];
        var next := Seek(m'.Keys, k, true);
        Copying(v, m', dst, src, next, u) && (next.Some? ==> |Beyond(u, next.value)| < |Beyond(u, k)|)
    {
      hide Walk;
      Turn(m, dst, src, k, u);
      FitsOn(m, dst, src, k, m[k]);
    }

    lemma Held(key: string)
      requires Valid() && key in data
      ensures HoldsString(heap.mem, data[key], values[key]) && |key| <= KEY_MAX && NUL !in key
    {
    }

    /** `dst @src;` */
    method CopyUnder(dst: string, src: string) returns (ok: bool)
      requires Valid() && NUL !in dst && Fits(values, Copy(dst, src))
      modifies `data, `values, `judyFailures, pool, pool.chain, heap
      ensures pool.Valid() && forall b :: b in pool.chain ==> b in old(pool.chain) || fresh(b)
      ensures Failures() == old(Failures()) + if ok then 0 else 1
      ensures ok ==> Valid() && values == CopyAll(old(values), dst, src)
      ensures StillStored(old(pool.view), old(heap.mem), pool.view, heap.mem)
    {
      hide CopyAll, Universe, Fits, Copying, Failures, Valid, PoolT.Valid, AllStored, StillStored, HoldsString,
        StoredAt;
      ghost var v, u := values, Universe(values.Keys, dst);
      CopyStarts(v, dst, src);
      Unchanged(pool.view, heap.mem);
      var at := SeekKey(src, false);
      while at.Some? && src <= at.value
        invariant Valid() && Copying(v, values, dst, src, at, u) && Failures() == old(Failures())
        invariant StillStored(old(pool.view), old(heap.mem), pool.view, heap.mem)
        invariant forall b :: b in pool.chain ==> b in old(pool.chain) || fresh(b)
        decreases if at.None? then 0 else 1 + |Beyond(u, at.value)|
      {
        var index := at.value;
        CopyTurns(v, values, dst, src, index, u);
        Held(index);
        ImageClean(index, dst, src);
        var value := ReadString(data[index], values[index]);
        var key := dst + index[|src|..];
        ghost var p, mem := pool.view, heap.mem;
        assert forall i :: 0 <= i < |pool.chain| ==> pool.chain[i] in old(pool.chain) || fresh(pool.chain[i]);
        ok := Store(key, value + [NUL], value);
        StillTransitive(old(pool.view), old(heap.mem), p, mem, pool.view, heap.mem);
        if !ok {
          return;
        }
        at := SeekKey(index, true);
      }
      CopyStops(v, values, dst, src, at, u);
      ok := true;
    }

    static lemma StillTransitive(p: Pool, mem: Memory, p': Pool, mem': Memory, p'': Pool, mem'': Memory)
      requires StillStored(p, mem, p', mem') && StillStored(p', mem', p'', mem'')
      ensures StillStored(p, mem, p'', mem'')
    {
      hide StoredAt;
    }

    // ----- the scanner -----

    /** `*p = '\0'` behind a value, then the key and the value are stored. */
    method StoreValue(src: array<char>, p: nat, pkey: nat, pvalue: nat, ghost t: string, ghost c: Cursor,
                      ghost next: State, ghost v: Entries, ghost done: seq<Stmt>)
      returns (ok: bool)
      requires Valid() && Scanning(src[..], t, c, done) && HasValue(c.state) && Ran(v, values, t, done)
      requires p == c.p < |t| && pkey == c.pkey && pvalue == c.pvalue && pkey < c.kend < pvalue <= p
      requires Scanning(src[..][p := NUL], t, c.(state := next, p := p + 1),
        done + [Set(t[pkey..c.kend], t[pvalue..p])])
      modifies src, `data, `values, `judyFailures, pool, pool.chain, heap
      ensures src[..] == old(src[..])[p := NUL]
      ensures pool.Valid() && forall b :: b in pool.chain ==> b in old(pool.chain) || fresh(b)
      ensures Failures() == old(Failures()) + if ok then 0 else 1
      ensures ok ==> Valid() && Ran(v, values, t, done + [Set(t[pkey..c.kend], t[pvalue..p])])
      ensures StillStored(old(pool.view), old(heap.mem), pool.view, heap.mem)
    {
      hide Valid, Failures, PoolT.Valid, Scanning, StillStored, CString, Layout, Ran, Fits, Apply;
      CutOff(src[..], t, c, done);
      ghost var b := src[..];
      RanNext(b[p := NUL], t, c.(state := next, p := p + 1), v, values, done, Set(t[pkey..c.kend], t[pvalue..p]));
      SetApplies(values, t[pkey..c.kend], t[pvalue..p]);
      src[p] := NUL;
      assert src[..] == b[p := NUL];
      var key := CString(src[..], pkey);
      ok := Store(key, src[pvalue..p + 1], t[pvalue..p]);
    }

    /** `*p = '\0'` behind the source prefix, then every key under it is copied. */
    method CopyStatement(src: array<char>, p: nat, pkey: nat, pvalue: nat, ghost t: string, ghost c: Cursor,
                         ghost v: Entries, ghost done: seq<Stmt>)
      returns (ok: bool)
      requires Valid() && Scanning(src[..], t, c, done) && HasValue(c.state) && Ran(v, values, t, done)
      requires p == c.p < |t| && pkey == c.pkey && pvalue == c.pvalue && pkey < c.kend < pvalue <= p
      requires Scanning(src[..][p := NUL], t, c.(state := SpaceS, p := p + 1),
                        done + [Copy(t[pkey..c.kend], t[pvalue..p])])
      modifies src, `data, `values, `judyFailures, pool, pool.chain, heap
      ensures src[..] == old(src[..])[p := NUL]
      ensures pool.Valid() && forall b :: b in pool.chain ==> b in old(pool.chain) || fresh(b)
      ensures Failures() == old(Failures()) + if ok then 0 else 1
      ensures ok ==> Valid() && Ran(v, values, t, done + [Copy(t[pkey..c.kend], t[pvalue..p])])
      ensures StillStored(old(pool.view), old(heap.mem), pool.view, heap.mem)
    {
      hide Valid, Failures, PoolT.Valid, Scanning, StillStored, CString, Layout, CopyAll, Fits, Ran, Apply;
      CutOff(src[..], t, c, done);
      ghost var b := src[..];
      RanNext(b[p := NUL], t, c.(state := SpaceS, p := p + 1), v, values, done, Copy(t[pkey..c.kend], t[pvalue..p]));
      CopyApplies(values, t[pkey..c.kend], t[pvalue..p]);
      src[p] := NUL;
      assert src[..] == b[p := NUL];
      var key := CString(src[..], pkey);
      var prefix := src[pvalue..p];
      assert prefix == src[pvalue..p + 1][..p - pvalue];
      ok := CopyUnder(key, prefix);
    }

    /** The cases of the scanner's switch that store nothing. */
    method PlainByte(src: array<char>, state: State, p: nat, line: nat, pkey: nat, pvalue: nat, ghost kend: nat,
                     ghost t: string, ghost done: seq<Stmt>)
      returns (rejected: bool, state': State, line': nat, pkey': nat, pvalue': nat, ghost kend': nat)
      requires Scanning(src[..], t, Cursor(state, p, line, pkey, kend, pvalue), done)
      requires p < src.Length - 1 && !HasValue(state)
      modifies src, `lineError
      ensures rejected ==> Rejected(t, done, line) && lineError == line
      ensures !rejected ==> lineError == old(lineError)
      ensures !rejected ==> Scanning(src[..], t, Cursor(state', p + 1, line', pkey', kend', pvalue'), done)
    {
      hide Scanning, Rejected, Layout, Parse;
      var c := src[p];
      ghost var b, at := src[..], Cursor(state, p, line, pkey, kend, pvalue);
      rejected, state', line', pkey', pvalue', kend' := false, state, line, pkey, pvalue, kend;
      match state {
        case SpaceS =>
          OnSpace(b, t, at, done);
          if IsKeyChar(c) {
            pkey' := p;
            state' := KeyS;
          } else if c == ' ' || c == '\t' || c == '\r' {
          } else if c == '\n' {
            line' := line + 1;
          } else if c == '#' {
            state' := CommentS;
          } else {
            lineError := line;
            rejected := true;
          }
        case CommentS =>
          OnComment(b, t, at, done);
          if c == '\n' {
            line' := line + 1;
            state' := SpaceS;
          }
        case KeyS =>
          OnKey(b, t, at, done);
          if IsKeyChar(c) {
          } else if c == ' ' || c == '\t' {
            src[p] := NUL;
            assert src[..] == b[p := NUL];
            if p - pkey > KEY_MAX {
              lineError := line;
              rejected := true;
            }
            kend' := p;
            state' := KeySpS;
          } else {
            lineError := line;
            rejected := true;
          }
        case KeySpS =>
          OnKeySp(b, t, at, done);
          if c == ' ' || c == '\t' {
          } else if c == '"' {
            pvalue' := p + 1;
            state' := QtValueS;
          } else if c == '@' {
            pvalue' := p + 1;
            state' := CopyValueS;
          } else if c == '\r' || c == '\n' {
            lineError := line;
            rejected := true;
          } else {
            pvalue' := p;
            state' := ValueS;
          }
        case ValueSkipS =>
          OnSkip(b, t, at, done);
          if c == ';' {
            state' := SpaceS;
          } else if c == '\n' {
            lineError := line;
            rejected := true;
          }
      }
    }

    /** The cases that end in a statement. */
    method ValueByte(src: array<char>, state: State, p: nat, line: nat, pkey: nat, pvalue: nat, ghost kend: nat,
                     ghost t: string, ghost v: Entries, ghost done: seq<Stmt>)
      returns (verdict: Verdict, state': State, p': nat, ghost done': seq<Stmt>)
      requires Valid() && Ran(v, values, t, done)
      requires Scanning(src[..], t, Cursor(state, p, line, pkey, kend, pvalue), done)
      requires p < src.Length - 1 && HasValue(state)
      modifies src, `data, `values, `lineError, `judyFailures, pool, pool.chain, heap
      ensures pool.Valid() && forall b :: b in pool.chain ==> b in old(pool.chain) || fresh(b)
      ensures StillStored(old(pool.view), old(heap.mem), pool.view, heap.mem)
      ensures Failures() == old(Failures()) + if verdict.Starved? then 1 else 0
      ensures lineError == if verdict.Reject? then line else old(lineError)
      ensures !verdict.Starved? ==> Valid() && p' <= |t| && p < p' && Ran(v, values, t, done')
      ensures verdict.Reject? ==> Rejected(t, done', line)
      ensures verdict.More? ==> Scanning(src[..], t, Cursor(state', p', line, pkey, kend, pvalue), done')
    {
      hide Valid, Failures, PoolT.Valid, Scanning, Rejected, Ran, Parse, StillStored, Layout, CString;
      Unchanged(pool.view, heap.mem);
      var c := src[p];
      ghost var b, at := src[..], Cursor(state, p, line, pkey, kend, pvalue);
      var ok := true;
      verdict, state', p', done' := More, state, p + 1, done;
      match state {
        case ValueS =>
          OnValue(b, t, at, done);
          if c == ';' {
            ok := StoreValue(src, p, pkey, pvalue, t, at, SpaceS, v, done);
            done' := done + [Set(t[pkey..kend], t[pvalue..p])];
            state' := SpaceS;
          } else if c == '\n' {
            lineError := line;
            return Reject, state, p + 1, done;
          }
        case QtValueS =>
          OnQuoted(b, t, at, done);
          if c == '\\' && src[p + 1] == '"' {
            p' := p + 2;
          } else if c == '"' {
            ok := StoreValue(src, p, pkey, pvalue, t, at, ValueSkipS, v, done);
            done' := done + [Set(t[pkey..kend], t[pvalue..p])];
            state' := ValueSkipS;
          } else if c == '\n' {
            lineError := line;
            return Reject, state, p + 1, done;
          }
        case CopyValueS =>
          OnCopy(b, t, at, done);
          if c == ';' {
            if p - pvalue > KEY_MAX {
              src[p] := NUL;
              lineError := line;
              return Reject, state, p + 1, done;
            }
            ok := CopyStatement(src, p, pkey, pvalue, t, at, v, done);
            done' := done + [Copy(t[pkey..kend], t[pvalue..p])];
            state' := SpaceS;
          } else if c == '\n' {
            lineError := line;
            return Reject, state, p + 1, done;
          }
      }
      if !ok {
        verdict := Starved;
      }
    }

    /** The loop of `config_load2` over its private copy of the text. `starved` tells a call that failed apart. */
    method Scan(src: array<char>, ghost t: string) returns (ok: bool, ghost starved: bool)
      requires Valid() && NUL !in t && src[..] == t + [NUL]
      requires AllFit(values, Parse(t).stmts)
      modifies src, `data, `values, `lineError, `judyFailures, pool, pool.chain, heap
      ensures pool.Valid() && forall b :: b in pool.chain ==> b in old(pool.chain) || fresh(b)
      ensures StillStored(old(pool.view), old(heap.mem), pool.view, heap.mem)
      ensures !starved ==> Valid() && values == Run(old(values), Parse(t).stmts) && ok == Loads(t)
      ensures starved ==> !ok
      ensures Failures() == old(Failures()) + if starved then 1 else 0
      ensures lineError == if !starved && !ok then Parse(t).end.line else old(lineError)
    {
      hide Valid, Failures, PoolT.Valid, Scanning, Rejected, Ran, AllFit, Run, Parse, StillStored;
      var state, line, p, pkey, pvalue := SpaceS, 1, 0, 0, 0;
      ghost var kend, done, v := 0, [], values;
      Begin(t);
      RanNone(v, t);
      Unchanged(pool.view, heap.mem);
      while p < src.Length - 1
        invariant p <= |t| == src.Length - 1
        invariant Scanning(src[..], t, Cursor(state, p, line, pkey, kend, pvalue), done)
        invariant Valid() && Ran(v, values, t, done) && lineError == old(lineError) && Failures() == old(Failures())
        invariant StillStored(old(pool.view), old(heap.mem), pool.view, heap.mem)
        invariant forall b :: b in pool.chain ==> b in old(pool.chain) || fresh(b)
      {
        if HasValue(state) {
          assert forall i :: 0 <= i < |pool.chain| ==> pool.chain[i] in old(pool.chain) || fresh(pool.chain[i]);
          ghost var view, mem := pool.view, heap.mem;
          var verdict;
          verdict, state, p, done := ValueByte(src, state, p, line, pkey, pvalue, kend, t, v, done);
          StillTransitive(old(pool.view), old(heap.mem), view, mem, pool.view, heap.mem);
          if verdict.Starved? {
            return false, true;
          }
          if verdict.Reject? {
            EndRejected(v, values, t, done, line);
            return false, false;
          }
        } else {
          var rejected, line';
          rejected, state, line', pkey, pvalue, kend := PlainByte(src, state, p, line, pkey, pvalue, kend, t, done);
          if rejected {
            EndRejected(v, values, t, done, line);
            return false, false;
          }
          line := line';
          p := p + 1;
        }
      }
      EndAccepted(src[..], t, Cursor(state, p, line, pkey, kend, pvalue), v, values, done);
      return true, false;
    }

    static lemma SetApplies(m: Entries, key: string, value: string)
      ensures Fits(m, Set(key, value)) && Apply(m, Set(key, value)) == m[key := value]
    {
    }

    static lemma CopyApplies(m: Entries, dst: string, src: string)
      requires Fits(m, Copy(dst, src))
      ensures Apply(m, Copy(dst, src)) == CopyAll(m, dst, src)
    {
    }

    /** `config_load2`. `starved`: one call for memory or for a place in the map failed, and that was the end. */
    method Load(text: string) returns (ok: bool, ghost starved: bool)
      requires Valid() && NUL !in text && AllFit(values, Parse(text).stmts)
      modifies this, pool, pool.chain, heap
      ensures pool.Valid() && forall b :: b in pool.chain ==> b in old(pool.chain) || fresh(b)
      ensures StillStored(old(pool.view), old(heap.mem), pool.view, heap.mem)
      ensures !starved ==> Valid() && values == Run(old(values), Parse(text).stmts) && ok == Loads(text)
      ensures !starved ==> conf != null && conf[..] == text + [NUL]
      ensures starved ==> !ok
      ensures Failures() == old(Failures()) + if starved then 1 else 0
      ensures lineError == if !starved && !ok then Parse(text).end.line else 0
    {
      hide Valid, PoolT.Valid, AllFit, Run, Parse, StillStored, Loads;
      Unchanged(pool.view, heap.mem);
      lineError := 0;
      conf := null;
      var src := heap.Buffer(text);
      if src == null {
        return false, true;
      }
      conf := heap.Buffer(text);
      if conf == null {
        return false, true;
      }
      ok, starved := Scan(src, text);
    }

    // ----- reading values -----

    /** `config_get_str`: the stored pointer, or the default. */
    method GetStr(key: string, def: nat) returns (a: nat)
      requires Valid()
      ensures key in values ==> StoredAt(pool.view, heap.mem, a, values[key])
      ensures key !in values ==> a == def
    {
      a := if key in data then data[key] else def;
    }

    /** `config_get_int`, for digits that fit an `int`. */
    method GetInt(key: string, def: int) returns (r: int)
      requires Valid() && (key in values ==> FitsInt(values[key]))
      ensures r == if key in values then IntOf(values[key]) else def
    {
      hide Valid, PoolT.Valid, HoldsString, FitsInt, IntOf, Value, DigitPrefix;
      if key !in data {
        return def;
      }
      var k := data[key];
      ghost var s := values[key];
      Held(key);
      IntOfParts(s);
      FirstByte(heap.mem, k, s);
      if heap.mem(k) == '-' {
        var rc := AtoSigned(heap, k + 1, s[1..]);
        return -rc;
      }
      r := AtoSigned(heap, k, s);
    }

    static lemma IntOfParts(s: string)
      ensures if s != [] && s[0] == '-'
        then IntOf(s) == 0 - (Value(DigitPrefix(s[1..])) as int)
          && (FitsInt(s) <==> Value(DigitPrefix(s[1..])) <= INT_MAX)
        else IntOf(s) == Value(DigitPrefix(s)) && (FitsInt(s) <==> Value(DigitPrefix(s)) <= INT_MAX)
    {
    }

    static lemma FirstByte(mem: Memory, a: nat, s: string)
      requires HoldsString(mem, a, s)
      ensures mem(a) == '-' <==> s != [] && s[0] == '-'
      ensures s != [] ==> HoldsString(mem, a + 1, s[1..])
    {
      if s != [] {
        assert mem(a + 0) == s[0];
        forall i | 0 <= i < |s| - 1 ensures mem(a + 1 + i) == s[1..][i] {
          assert mem(a + (i + 1)) == s[i + 1];
        }
      }
    }

    /** `config_get_uint`: reads any text, modulo the width of an `unsigned int`. */
    method GetUint(key: string, def: nat) returns (r: nat)
      requires Valid()
      ensures r == if key in values then Value(DigitPrefix(values[key])) % UINT_LIMIT else def
    {
      if key !in data {
        return def;
      }
      Held(key);
      r := AtoUnsigned(heap, data[key], values[key]);
    }

    /** `config_get_bool`: true for exactly `yes`. */
    method GetBool(key: string, def: bool) returns (r: bool)
      requires Valid()
      ensures r == if key in values then values[key] == "yes" else def
    {
      hide Valid, PoolT.Valid, HoldsString;
      if key !in data {
        return def;
      }
      var k := data[key];
      Held(key);
      YesExact(heap.mem, k, values[key]);
      r := heap.mem(k) == 'y' && heap.mem(k + 1) == 'e' && heap.mem(k + 2) == 's' && heap.mem(k + 3) == NUL;
    }

    static lemma YesExact(mem: Memory, a: nat, s: string)
      requires HoldsString(mem, a, s)
      ensures s == "yes" <==> mem(a) == 'y' && mem(a + 1) == 'e' && mem(a + 2) == 's' && mem(a + 3) == NUL
    {
      if s == "yes" {
        assert mem(a + 0) == s[0] && mem(a + 1) == s[1] && mem(a + 2) == s[2];
      } else if mem(a) == 'y' && mem(a + 1) == 'e' && mem(a + 2) == 's' && mem(a + 3) == NUL {
        StringUnique(mem, a, s, "yes");
      }
    }
  }

  /** Loading `key "<v>";` for an `int` and asking for it gives `v`. */
  lemma IntSurvivesLoading(m: Entries, key: string, v: int)
    requires ValidKey(key) && -0x7FFF_FFFF <= v <= 0x7FFF_FFFF
    ensures var p := Parse(Line(key, IntText(v)));
      && p == Parsed([Set(key, IntText(v))], Between) && AllFit(m, p.stmts)
      && key in Run(m, p.stmts) && FitsInt(Run(m, p.stmts)[key]) && IntOf(Run(m, p.stmts)[key]) == v
  {
    hide Storable, IntOf, FitsInt, IntText, ParseFrom, ValidKey, Line;
    var s := IntText(v);
    IntReads(v);
    NumberStorable(s);
    var es := [Entry(key, s)];
    assert es[1..] == [] && Text(es) == EntryLine(es[0]) + "" == Line(key, s);
    assert Text(es)[0..] == Text(es);
    TextRead(Text(es), 0, es, 1);
    assert Assignments(es) == [Set(key, s)];
    OneSet(m, key, s);
  }

  lemma NumberStorable(s: string)
    requires forall c :: c in s ==> c == '-' || IsDigit(c)
    ensures Storable(s)
  {
    forall j | 0 <= j < |s| ensures Harmless(s, 0, j) { assert s[j] in s; }
    if s != [] { assert s[|s| - 1] in s; }
  }

  lemma OneSet(m: Entries, key: string, value: string)
    ensures AllFit(m, [Set(key, value)]) && Run(m, [Set(key, value)]) == m[key := value]
  {
    assert [Set(key, value)][1..] == [];
  }
}
