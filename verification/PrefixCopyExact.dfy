/** When a copy does land ahead of its source, some map shows it: the snapshot reading fails. */
module PrefixCopyExact {
  import opened Wrappers
  import opened Lexicographic
  import opened PrefixCopy

  /** Key `k` is copied, under `src`, to a place the walk has yet to reach. */
  ghost predicate Ahead(k: string, dst: string, src: string) {
    src <= k && src <= Image(k, dst, src) && Less(k, Image(k, dst, src))
  }

  lemma {:induction false} Longest(keys: set<string>) returns (k: string)
    requires keys != {}
    ensures k in keys && forall l :: l in keys ==> |l| <= |k|
    decreases |keys|
  {
    k :| k in keys;
    var rest := keys - {k};
    if rest != {} {
      var l := Longest(rest);
      forall x | x in keys ensures |x| <= |l| || |x| <= |k| {
        assert x == k || x in rest;
      }
      if |k| < |l| { k := l; }
    }
  }

  lemma NotImageOf(n: string, k: string, dst: string, src: string)
    requires src <= k && dst <= n && Source(n, dst, src) != k
    ensures n != Image(k, dst, src)
  {
    assert Source(Image(k, dst, src), dst, src) == k;
  }

  /** Only shorter keys are written when a copy can land under `src`. */
  lemma AheadShortens(k: string, dst: string, src: string)
    requires !Feeds(dst, src) && Ahead(k, dst, src)
    ensures |dst| < |src|
  {
    PrefixesCompare(dst, src, Image(k, dst, src));
    if dst == src {
      assert Image(k, dst, src) == k;
      Irreflexive(k);
    }
  }

  ghost predicate Stands(m: Entries, dst: string, src: string, at: Option<string>, u: set<string>) {
    m.Keys <= u && Closed(u, dst, src) && (at.Some? ==> at.value in m && AtMost(src, at.value))
  }

  /** One turn: the walk goes on to a later key, and to no key beyond any later key of the map. */
  lemma Turn(m: Entries, dst: string, src: string, k: string, u: set<string>)
    requires Stands(m, dst, src, Some(k), u) && src <= k
    ensures var m' := m[Image(k, dst, src) := m[k]]; var next := Seek(m'.Keys, k, true);
      && Stands(m', dst, src, next, u)
      && (next.Some? ==> Less(k, next.value) && |Beyond(u, next.value)| < |Beyond(u, k)|)
      && (forall l :: l in m' && Less(k, l) ==> next.Some? && AtMost(next.value, l))
      && Walk(m, dst, src, Some(k), u) == Walk(m', dst, src, next, u)
  {
    var m' := m[Image(k, dst, src) := m[k]];
    var next := Seek(m'.Keys, k, true);
    if next.Some? {
      BeyondShrinks(u, k, next.value);
      PrefixAtMost(src, k);
      if src != k { Transitive(src, k, next.value); }
    }
    forall l | l in m' && Less(k, l) ensures next.Some? && AtMost(next.value, l) {
      assert l in Candidates(m'.Keys, k, true);
    }
  }

  /** A place whose source the walk has passed keeps its value. */
  lemma {:induction false} Keeps(m: Entries, dst: string, src: string, at: Option<string>, u: set<string>, n: string)
    requires Stands(m, dst, src, at, u) && n in m
    requires dst <= n ==> at.None? || Less(Source(n, dst, src), at.value)
    ensures var r := Walk(m, dst, src, at, u); n in r && r[n] == m[n]
    decreases if at.None? then 0 else 1 + |Beyond(u, at.value)|
  {
    if at.Some? && src <= at.value {
      var k := at.value;
      Turn(m, dst, src, k, u);
      var m' := m[Image(k, dst, src) := m[k]];
      var next := Seek(m'.Keys, k, true);
      if dst <= n {
        Irreflexive(k);
        NotImageOf(n, k, dst, src);
        if next.Some? { Transitive(Source(n, dst, src), k, next.value); }
      }
      Keeps(m', dst, src, next, u, n);
    }
  }

  /** A key still to come, whose own source has been passed, is copied with the value it has now. */
  lemma {:induction false} CopiesAsIs(m: Entries, dst: string, src: string, at: string, u: set<string>, n: string)
    requires Stands(m, dst, src, Some(at), u) && n in m && src <= n && AtMost(at, n)
    requires dst <= n && Less(Source(n, dst, src), at)
    ensures var r := Walk(m, dst, src, Some(at), u); Image(n, dst, src) in r && r[Image(n, dst, src)] == m[n]
    decreases |Beyond(u, at)|
  {
    if !(src <= at) { PrefixInterval(src, at, n); }
    Turn(m, dst, src, at, u);
    var m' := m[Image(at, dst, src) := m[at]];
    var next := Seek(m'.Keys, at, true);
    if at == n {
      assert Source(Image(n, dst, src), dst, src) == n;
      Keeps(m', dst, src, next, u, Image(n, dst, src));
    } else {
      Irreflexive(at);
      NotImageOf(n, at, dst, src);
      Transitive(Source(n, dst, src), at, next.value);
      CopiesAsIs(m', dst, src, next.value, u, n);
    }
  }

  /** No key of at least `len` bytes that is still to come has been written. */
  ghost predicate LongUntouched(m: Entries, old': Entries, src: string, at: string, len: nat) {
    forall l :: l in m && src <= l && |l| >= len && AtMost(at, l) ==> l in old' && m[l] == old'[l]
  }

  lemma LongNotAhead(m: Entries, old': Entries, dst: string, src: string, at: string, k: string)
    requires at in m && src <= at && |dst| < |src| && LongUntouched(m, old', src, at, |k|)
    requires forall l :: l in old' && Ahead(l, dst, src) ==> |l| <= |k|
    requires src <= Image(at, dst, src) && |Image(at, dst, src)| >= |k|
    ensures !Less(at, Image(at, dst, src))
  {
    assert at in old';
    assert Ahead(at, dst, src) ==> |at| <= |k|;
  }

  /** The longest key copied ahead is itself read unchanged, and its copy is read in place of the old value. */
  lemma {:induction false} ReadsTheCopy(m: Entries, old': Entries, dst: string, src: string, at: string, u: set<string>,
                                        k: string)
    requires Stands(m, dst, src, Some(at), u) && !Feeds(dst, src) && Ahead(k, dst, src)
    requires k in m && AtMost(at, k)
    requires forall l :: l in old' && Ahead(l, dst, src) ==> |l| <= |k|
    requires LongUntouched(m, old', src, at, |k|)
    ensures var r := Walk(m, dst, src, Some(at), u); var n := Image(k, dst, src);
      k in old' && Image(n, dst, src) in r && r[Image(n, dst, src)] == old'[k]
    decreases |Beyond(u, at)|
  {
    AheadShortens(k, dst, src);
    if !(src <= at) { PrefixInterval(src, at, k); }
    Turn(m, dst, src, at, u);
    var w := Image(at, dst, src);
    var m' := m[w := m[at]];
    var next := Seek(m'.Keys, at, true);
    if at == k {
      var n := Image(k, dst, src);
      assert Source(n, dst, src) == k;
      CopiesAsIs(m', dst, src, next.value, u, n);
    } else {
      assert k in m';
      forall l | l in m' && src <= l && |l| >= |k| && AtMost(next.value, l)
        ensures l in old' && m'[l] == old'[l]
      {
        if l != next.value { Transitive(at, next.value, l); }
        if l == w { LongNotAhead(m, old', dst, src, at, k); }
      }
      ReadsTheCopy(m', old', dst, src, next.value, u, k);
    }
  }

  /** For given keys, the statement equals its snapshot whatever the values are exactly when no copy
      lands under `src` ahead of its source. */
  lemma CopyIsSnapshotExactly(keys: set<string>, dst: string, src: string)
    requires !Feeds(dst, src)
    ensures NeverAhead(keys, dst, src) <==>
            forall m: Entries :: m.Keys == keys ==> CopyAll(m, dst, src) == Snapshot(m, dst, src)
  {
    if NeverAhead(keys, dst, src) {
      forall m: Entries | m.Keys == keys ensures CopyAll(m, dst, src) == Snapshot(m, dst, src) {
        CopyIsSnapshot(m, dst, src);
      }
    } else {
      var m := map k | k in keys :: k;
      DiffersOnNames(m, dst, src);
    }
  }

  lemma DiffersOnNames(m: Entries, dst: string, src: string)
    requires !Feeds(dst, src) && !NeverAhead(m.Keys, dst, src) && forall k :: k in m ==> m[k] == k
    ensures CopyAll(m, dst, src) != Snapshot(m, dst, src)
  {
    var x :| x in m.Keys && src <= x && src <= Image(x, dst, src) && Less(x, Image(x, dst, src));
    var ahead := set l | l in m && Ahead(l, dst, src);
    assert x in ahead;
    var k := Longest(ahead);
    var n := Image(k, dst, src);
    var t := Image(n, dst, src);
    AheadShortens(k, dst, src);
    UniverseClosed(m.Keys, dst, src);
    var first := Seek(m.Keys, src, false);
    PrefixAtMost(src, k);
    assert k in Candidates(m.Keys, src, false);
    ReadsTheCopy(m, m, dst, src, first.value, Universe(m.Keys, dst), k);
    assert CopyAll(m, dst, src)[t] == k;
    ImageExact(t, Passed(m.Keys, src, None), dst, src);
    assert Source(t, dst, src) == n;
    assert t in Snapshot(m, dst, src) ==> |Snapshot(m, dst, src)[t]| < |k|;
  }

  /** With unrelated prefixes, or equal ones, the statement is its snapshot on every map. */
  lemma CopyUnrelated(m: Entries, dst: string, src: string)
    requires Unrelated(dst, src)
    ensures !Feeds(dst, src) && CopyAll(m, dst, src) == Snapshot(m, dst, src)
  {
    UnrelatedNeverAhead(m.Keys, dst, src);
    CopyIsSnapshot(m, dst, src);
  }

  /** Copying `aa` to `a` reads the copy it just made: `aaab` lands on `aab`, which is read next. */
  lemma CopyAheadExample()
    ensures !Feeds("a", "aa") && !NeverAhead({"aaab", "aab"}, "a", "aa")
    ensures var m := map["aaab" := "aaab", "aab" := "aab"]; CopyAll(m, "a", "aa") != Snapshot(m, "a", "aa")
  {
    hide CopyAll, Snapshot;
    AheadKeys();
    var m := map["aaab" := "aaab", "aab" := "aab"];
    assert m.Keys == {"aaab", "aab"};
    DiffersOnNames(m, "a", "aa");
  }

  lemma AheadKeys()
    ensures !Feeds("a", "aa") && !NeverAhead({"aaab", "aab"}, "a", "aa")
  {
    var k := "aaab";
    assert k[|"aa"|..] == "ab" && Image(k, "a", "aa") == "aab";
    assert "aa" <= k && "aa" <= "aab";
    assert Less(k[2..], "aab"[2..]) && Less(k[1..], "aab"[1..]) && Less(k, "aab");
  }
}
