/** The C library underneath: addresses, `malloc`/`free`, byte memory and C strings. */
module Machine {

  const WORD_LIMIT: nat := 0x1_0000_0000_0000_0000
  const NUL: char := '\0'

  datatype Range = Range(addr: nat, size: nat)

  /** The two ranges share no byte. */
  predicate Apart(r: Range, s: Range) {
    r.addr + r.size <= s.addr || s.addr + s.size <= r.addr
  }

  predicate Within(r: Range, s: Range) {
    s.addr <= r.addr && r.addr + r.size <= s.addr + s.size
  }

  /** The ranges handed out by `malloc` and not yet released, by start address. */
  type Live = map<nat, nat>

  /** The bytes of `r` lie in a range that has not been released. */
  ghost predicate Backed(live: Live, r: Range) {
    exists b :: b in live && Within(r, Range(b, live[b]))
  }

  ghost predicate Separate(live: Live) {
    forall a, b {:trigger Apart(Range(a, live[a]), Range(b, live[b]))} ::
      a in live && b in live && a != b ==> Apart(Range(a, live[a]), Range(b, live[b]))
  }

  /** What a successful `malloc(n)` may answer while `live` is in use. */
  predicate Grantable(live: Live, a: nat, n: nat) {
    && 0 < a
    && a % 8 == 0
    && a + n < WORD_LIMIT
    && a !in live
    && forall b :: b in live ==> Apart(Range(a, n), Range(b, live[b]))
  }

  /** The contents of every byte of memory. */
  type Memory = nat -> char

  /** Memory at `a` holds the bytes `s`. */
  ghost predicate Holds(mem: Memory, a: nat, s: seq<char>) {
    forall i :: 0 <= i < |s| ==> mem(a + i) == s[i]
  }

  /** A C string: the characters of `s`, none of them NUL, and then its terminator. */
  ghost predicate HoldsString(mem: Memory, a: nat, s: string) {
    NUL !in s && Holds(mem, a, s) && mem(a + |s|) == NUL
  }

  lemma NoTerminatorInside(mem: Memory, a: nat, s: string, i: nat)
    requires HoldsString(mem, a, s) && i < |s|
    ensures mem(a + i) != NUL
  {
    assert mem(a + i) == s[i];
  }

  /** Only one C string starts at an address. */
  lemma StringUnique(mem: Memory, a: nat, s: string, t: string)
    requires HoldsString(mem, a, s) && HoldsString(mem, a, t)
    ensures s == t
  {
    if |t| < |s| { NoTerminatorInside(mem, a, s, |t|); }
    if |s| < |t| { NoTerminatorInside(mem, a, t, |s|); }
    forall i | 0 <= i < |s| ensures s[i] == t[i] {
      assert mem(a + i) == s[i];
    }
  }

  class Heap {
    var live: Live
    var mem: Memory
    ghost var refused: nat   // the calls for memory that failed

    constructor ()
      ensures live == map[] && refused == 0
    {
      live := map[];
      mem := _ => NUL;
      refused := 0;
    }

    /** Address 0 stands for a failed call, which is possible at any time. */
    method Malloc(n: nat) returns (a: nat)
      modifies this`live, this`refused
      ensures refused == old(refused) + if a == 0 then 1 else 0
      ensures a == 0 ==> live == old(live)
      ensures a != 0 ==> Grantable(old(live), a, n) && live == old(live)[a := n]
    {
      var willing: bool := *;
      if willing && exists c :: 0 < c < WORD_LIMIT && Grantable(live, c, n) {
        a :| 0 < a < WORD_LIMIT && Grantable(live, a, n);
        live := live[a := n];
      } else {
        a := 0;
        refused := refused + 1;
      }
    }

    /** `calloc` of a buffer that only its own pointer leads to, and the text copied into it. */
    method Buffer(text: string) returns (b: array?<char>)
      modifies this`refused
      ensures refused == old(refused) + if b == null then 1 else 0
      ensures b != null ==> fresh(b) && b[..] == text + [NUL]
    {
      var willing: bool := *;
      if !willing {
        refused := refused + 1;
        return null;
      }
      var n := |text|;
      b := new char[n + 1](i => if 0 <= i < n then text[i] else NUL);
    }

    /** Only a range that is in use may be released. */
    method Free(a: nat)
      requires a in live
      modifies this`live
      ensures live == old(live) - {a}
    {
      live := live - {a};
    }

    /** `memcpy`, `memset`: write the bytes and nothing else. */
    method Store(a: nat, bytes: seq<char>)
      modifies this`mem
      ensures forall x: nat :: mem(x) == if a <= x < a + |bytes| then bytes[x - a] else old(mem)(x)
      ensures Holds(mem, a, bytes)
    {
      var before := mem;
      mem := (x: nat) => if a <= x < a + |bytes| then bytes[x - a] else before(x);
    }
  }
}
