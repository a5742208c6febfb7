/** Strings in the order a Judy string array keeps its keys: byte by byte, shorter first. */
module Lexicographic {
  import opened Wrappers


  predicate Less(a: string, b: string) {
    b != [] && (a == [] || a[0] < b[0] || (a[0] == b[0] && Less(a[1..], b[1..])))
  }

  predicate AtMost(a: string, b: string) { a == b || Less(a, b) }

  lemma {:induction false} Irreflexive(a: string)
    ensures !Less(a, a)
  {
    if a != [] { Irreflexive(a[1..]); }
  }

  lemma {:induction false} Transitive(a: string, b: string, c: string)
    requires Less(a, b) && Less(b, c)
    ensures Less(a, c)
  {
    if a != [] && a[0] == b[0] == c[0] { Transitive(a[1..], b[1..], c[1..]); }
  }

  lemma {:induction false} Trichotomy(a: string, b: string)
    ensures Less(a, b) || a == b || Less(b, a)
  {
    if a != [] && b != [] && a[0] == b[0] {
      Trichotomy(a[1..], b[1..]);
      assert a == [a[0]] + a[1..] && b == [b[0]] + b[1..];
    }
  }

  lemma Asymmetric(a: string, b: string)
    requires Less(a, b)
    ensures a != b && !Less(b, a)
  {
    Irreflexive(a);
    if Less(b, a) { Transitive(a, b, a); }
  }

  /** A common prefix does not matter. */
  lemma {:induction false} CommonPrefix(p: string, a: string, b: string)
    ensures Less(p + a, p + b) <==> Less(a, b)
  {
    if p == [] {
      assert p + a == a && p + b == b;
    } else {
      assert (p + a)[1..] == p[1..] + a && (p + b)[1..] == p[1..] + b;
      CommonPrefix(p[1..], a, b);
    }
  }

  lemma PrefixAtMost(p: string, k: string)
    requires p <= k
    ensures AtMost(p, k)
  {
    assert k == p + k[|p|..] && p == p + [];
    CommonPrefix(p, [], k[|p|..]);
  }

  /** Two prefixes of the same string are prefixes of one another. */
  lemma PrefixesCompare(a: string, b: string, n: string)
    requires a <= n && b <= n
    ensures a <= b || b <= a
  {
    if |a| <= |b| {
      assert a == n[..|a|] == b[..|a|];
    } else {
      assert b == n[..|b|] == a[..|b|];
    }
  }

  /** The keys with a given prefix form an interval: once past them, none follows. */
  lemma {:induction false} PrefixInterval(p: string, k: string, l: string)
    requires AtMost(p, k) && !(p <= k) && Less(k, l)
    ensures !(p <= l)
  {
    if p <= l {
      assert p != [];
      if k != [] && k[0] == p[0] {
        AtMostTail(p, k);
        PrefixInterval(p[1..], k[1..], l[1..]);
      }
    }
  }

  lemma AtMostTail(p: string, k: string)
    requires p != [] && k != [] && p[0] == k[0] && AtMost(p, k)
    ensures AtMost(p[1..], k[1..])
  {
  }

  // ----- first and next key -----

  /** `beyond`: strictly after `c`, the reading of "next"; otherwise from `c` on, the reading of "first". */
  predicate Candidate(c: string, beyond: bool, k: string) {
    if beyond then Less(c, k) else AtMost(c, k)
  }

  ghost predicate IsLeast(keys: set<string>, k: string) {
    k in keys && forall l :: l in keys ==> AtMost(k, l)
  }

  ghost function Candidates(keys: set<string>, c: string, beyond: bool): set<string> {
    set k | k in keys && Candidate(c, beyond, k)
  }

  /** A non-empty finite set of strings has a least element. */
  lemma {:induction false} LeastExists(keys: set<string>) returns (k: string)
    requires keys != {}
    ensures IsLeast(keys, k)
    decreases |keys|
  {
    var x :| x in keys;
    var rest := keys - {x};
    k := x;
    if rest != {} {
      var y := LeastExists(rest);
      Trichotomy(x, y);
      k := if Less(x, y) then x else y;
      forall l | l in keys ensures AtMost(k, l) {
        if l in rest && k == x && l != y { Transitive(x, y, l); }
      }
    }
  }

  lemma LeastUnique(keys: set<string>, k: string, l: string)
    requires IsLeast(keys, k) && IsLeast(keys, l)
    ensures k == l
  {
    if Less(k, l) { Asymmetric(k, l); }
  }

  /** What `JSLF` (first) and `JSLN` (next) answer. */
  ghost function Seek(keys: set<string>, c: string, beyond: bool): (r: Option<string>)
    ensures r.None? ==> forall l :: l in keys ==> !Candidate(c, beyond, l)
    ensures r.Some? ==> r.value in keys && Candidate(c, beyond, r.value)
    ensures r.Some? ==> IsLeast(Candidates(keys, c, beyond), r.value)
  {
    var ks := Candidates(keys, c, beyond);
    if ks == {} then
      assert forall l :: l in keys && Candidate(c, beyond, l) ==> l in ks;
      None
    else
      assert exists k :: IsLeast(ks, k) by { var k := LeastExists(ks); }
      var k :| IsLeast(ks, k);
      Some(k)
  }
}
