/** str.h: numbers to digits and back. */
module Decimal {
  import opened Machine
  import opened Alignment

  const UINT_LIMIT: nat := 0x1_0000_0000
  const INT_MAX: int := 0x7FFF_FFFF
  const ITOA_BUF_SIZE: nat := 22   // sizeof("-18446744073709551615")
  const DECIMAL := "0123456789"

  // ----- positional notation -----

  /** `n` in base `|ch|`, digit `d` written `ch[d]`, without leading zeros. */
  function Digits(n: nat, ch: string): (s: string)
    requires |ch| >= 2
    ensures |s| > 0
    decreases n
  {
    if n < |ch| then [ch[n]]
    else
      DivSmaller(n, |ch|);
      Digits(n / |ch|, ch) + [ch[n % |ch|]]
  }

  lemma DivSmaller(n: nat, base: nat)
    requires base >= 2 && n >= base
    ensures 0 < n / base < n
  {
    var q, r := n / base, n % base;
    assert n == q * base + r;
    Grows(q, base);
  }

  lemma Grows(q: nat, base: nat)
    requires base >= 2
    ensures q * base >= q * 2 && (q == 0 ==> q * base == 0)
  {
  }

  predicate Injective(ch: string) {
    forall i, j :: 0 <= i < j < |ch| ==> ch[i] != ch[j]
  }

  /** Over an alphabet without repetitions different numbers are written differently. */
  lemma {:induction false} DigitsInjective(m: nat, n: nat, ch: string)
    requires |ch| >= 2 && Injective(ch) && Digits(m, ch) == Digits(n, ch)
    ensures m == n
    decreases m
  {
    var b := |ch|;
    if m >= b && n >= b {
      DivSmaller(m, b);
      DivSmaller(n, b);
      var s := Digits(m, ch);
      assert s[..|s| - 1] == Digits(m / b, ch) == Digits(n / b, ch);
      assert s[|s| - 1] == ch[m % b] == ch[n % b];
      DigitsInjective(m / b, n / b, ch);
      assert m == m / b * b + m % b && n == n / b * b + n % b;
    }
  }

  function Power(b: nat, k: nat): nat { if k == 0 then 1 else b * Power(b, k - 1) }

  /** `k` digits suffice below the `k`-th power of the base. */
  lemma {:induction false} DigitsLength(n: nat, ch: string, k: nat)
    requires |ch| >= 2 && k > 0 && n < Power(|ch|, k)
    ensures |Digits(n, ch)| <= k
    decreases k
  {
    if n >= |ch| && k > 1 {
      DivSmaller(n, |ch|);
      QuotientBelow(n, |ch|, k);
      DigitsLength(n / |ch|, ch, k - 1);
    }
  }

  lemma QuotientBelow(n: nat, b: nat, k: nat)
    requires b >= 2 && k > 0 && n < Power(b, k)
    ensures n / b < Power(b, k - 1)
  {
    var q, p := n / b, Power(b, k - 1);
    assert n == q * b + n % b && n < b * p;
    assert q * b < p * b;
  }

  // ----- reading decimals -----

  predicate IsDigit(c: char) { '0' <= c <= '9' }

  function DigitValue(c: char): nat
    requires IsDigit(c)
  {
    (c - '0') as nat
  }

  predicate AllDigits(s: string) { forall i :: 0 <= i < |s| ==> IsDigit(s[i]) }

  function Value(s: string): nat
    requires AllDigits(s)
  {
    if s == [] then 0 else Value(s[..|s| - 1]) * 10 + DigitValue(s[|s| - 1])
  }

  /** The longest prefix of digits. */
  function DigitPrefix(s: string): (r: string)
    ensures r <= s && AllDigits(r)
    ensures |r| < |s| ==> !IsDigit(s[|r|])
  {
    if s == [] || !IsDigit(s[0]) then [] else [s[0]] + DigitPrefix(s[1..])
  }

  function Decimal(n: nat): string { Digits(n, DECIMAL) }

  lemma {:induction false} DecimalReads(n: nat)
    ensures AllDigits(Decimal(n)) && Value(Decimal(n)) == n
    decreases n
  {
    if n >= 10 {
      DivSmaller(n, 10);
      DecimalReads(n / 10);
      var s := Decimal(n);
      assert s == Decimal(n / 10) + [DECIMAL[n % 10]];
      assert s[..|s| - 1] == Decimal(n / 10);
      assert DigitValue(DECIMAL[n % 10]) == n % 10;
    } else {
      assert DigitValue(DECIMAL[n]) == n;
      assert Decimal(n)[..0] == [];
    }
  }

  /** A digit string without a superfluous zero in front. */
  predicate Canonical(s: string) { AllDigits(s) && s != [] && (s[0] == '0' ==> |s| == 1) }

  lemma {:induction false} CanonicalPositive(s: string)
    requires AllDigits(s) && s != [] && s[0] != '0'
    ensures Value(s) > 0
  {
    if |s| > 1 {
      CanonicalPositive(s[..|s| - 1]);
    } else {
      assert s[..0] == [];
    }
  }

  /** Writing the value of a canonical digit string gives it back. */
  lemma {:induction false} CanonicalRewrites(s: string)
    requires Canonical(s)
    ensures Decimal(Value(s)) == s
  {
    var d := DigitValue(s[|s| - 1]);
    assert DECIMAL[d] == s[|s| - 1];
    if |s| == 1 {
      assert s[..0] == [];
    } else {
      var front := s[..|s| - 1];
      CanonicalPositive(front);
      CanonicalRewrites(front);
      assert Value(s) / 10 == Value(front) && Value(s) % 10 == d;
      assert s == front + [s[|s| - 1]];
    }
  }

  lemma WholePrefix(s: string)
    requires AllDigits(s)
    ensures DigitPrefix(s) == s
  {
    var r := DigitPrefix(s);
    assert |r| == |s|;
  }

  lemma {:induction false} ValueMonotone(s: string, k: nat)
    requires AllDigits(s) && k <= |s|
    ensures Value(s[..k]) <= Value(s)
    decreases |s|
  {
    if k < |s| {
      ValueMonotone(s[..|s| - 1], k);
      assert s[..|s| - 1][..k] == s[..k];
    } else {
      assert s[..k] == s;
    }
  }

  // ----- the macros -----

  lemma EmptyValue()
    ensures Value([]) == 0
  {
  }

  lemma ModStep(v: nat, d: nat)
    ensures (v % UINT_LIMIT * 10 + d) % UINT_LIMIT == (v * 10 + d) % UINT_LIMIT
  {
    var q, r := v / UINT_LIMIT, v % UINT_LIMIT;
    assert v * 10 + d == (r * 10 + d) + q * 10 * UINT_LIMIT;
    ModDrop(r * 10 + d, q * 10);
  }

  lemma {:induction false} ModDrop(x: nat, k: nat)
    ensures (x + k * UINT_LIMIT) % UINT_LIMIT == x % UINT_LIMIT
  {
    if k > 0 { ModDrop(x, k - 1); }
  }

  /** `atoui` into an `unsigned int`, whose arithmetic wraps. */
  method AtoUnsigned(heap: Heap, a: nat, ghost s: string) returns (u: nat)
    requires HoldsString(heap.mem, a, s)
    ensures u == Value(DigitPrefix(s)) % UINT_LIMIT
  {
    hide Value, DigitPrefix, HoldsString;
    assert Value([]) == 0 by { EmptyValue(); }
    ghost var r := DigitPrefix(s);
    u := 0;
    var c := 0;
    while heap.mem(a + c) != NUL
      invariant 0 <= c <= |r| && u == Value(r[..c]) % UINT_LIMIT
      decreases |s| - c
    {
      ReadAt(heap.mem, a, s, c);
      if heap.mem(a + c) < '0' || heap.mem(a + c) > '9' {
        break;
      }
      NextDigit(s, c);
      ModStep(Value(r[..c]), DigitValue(s[c]));
      u := (u * 10 + (heap.mem(a + c) - '0') as nat) % UINT_LIMIT;
      c := c + 1;
    }
    ReadAt(heap.mem, a, s, c);
    assert r[..c] == r;
  }

  /** `atoui` into an `int`: overflow is not defined, so the number must fit. */
  method AtoSigned(heap: Heap, a: nat, ghost s: string) returns (u: int)
    requires HoldsString(heap.mem, a, s) && Value(DigitPrefix(s)) <= INT_MAX
    ensures u == Value(DigitPrefix(s))
  {
    hide Value, DigitPrefix, HoldsString;
    EmptyValue();
    ghost var r := DigitPrefix(s);
    u := 0;
    var c := 0;
    assert r[..0] == [];
    while heap.mem(a + c) != NUL
      invariant 0 <= c <= |r| && u == Value(r[..c]) <= INT_MAX
      decreases |s| - c
    {
      ReadAt(heap.mem, a, s, c);
      if heap.mem(a + c) < '0' || heap.mem(a + c) > '9' {
        break;
      }
      NextDigit(s, c);
      ValueMonotone(r, c + 1);
      assert r[..c + 1] <= r;
      assert u * 10 + (heap.mem(a + c) - '0') as int <= INT_MAX;
      u := u * 10 + (heap.mem(a + c) - '0') as int;
      c := c + 1;
    }
    ReadAt(heap.mem, a, s, c);
    assert r[..c] == r;
  }

  lemma ReadAt(mem: Memory, a: nat, s: string, c: nat)
    requires HoldsString(mem, a, s) && c <= |DigitPrefix(s)|
    ensures c == |s| <==> mem(a + c) == NUL
    ensures c < |s| ==> mem(a + c) == s[c]
    ensures c < |s| ==> (IsDigit(mem(a + c)) <==> c < |DigitPrefix(s)|)
  {
    if c < |s| {
      assert mem(a + c) == s[c];
      NoTerminatorInside(mem, a, s, c);
    }
  }

  lemma NextDigit(s: string, c: nat)
    requires c < |DigitPrefix(s)|
    ensures var r := DigitPrefix(s);
      Value(r[..c + 1]) == Value(r[..c]) * 10 + DigitValue(s[c])
  {
    var r := DigitPrefix(s);
    assert r[..c + 1][..c] == r[..c];
  }

  function Reverse(s: string): string { if s == [] then [] else [s[|s| - 1]] + Reverse(s[..|s| - 1]) }

  lemma SmallQuotient(n: nat, b: nat)
    requires n < b
    ensures n / b == 0 && n % b == n
  {
  }

  lemma Collected(b: string, c: char)
    ensures Reverse(b + [c]) == [c] + Reverse(b)
  {
    assert (b + [c])[..|b|] == b;
  }

  /** The low digit, and what is left to write. */
  lemma LowDigit(n: nat, ch: string, b: string, k: nat)
    requires |ch| >= 2 && k > 0 && n < Power(|ch|, k)
    ensures var b' := b + [ch[n % |ch|]]; var q := n / |ch|;
      if q == 0 then Digits(n, ch) + Reverse(b) == Reverse(b')
      else k > 1 && q < Power(|ch|, k - 1) && q < n && Digits(n, ch) + Reverse(b) == Digits(q, ch) + Reverse(b')
  {
    hide Reverse, Power;
    Collected(b, ch[n % |ch|]);
    if n < |ch| {
      SmallQuotient(n, |ch|);
    } else {
      DivSmaller(n, |ch|);
      QuotientBelow(n, |ch|, k);
      PowerZero(|ch|);
    }
  }

  lemma PowerZero(b: nat)
    ensures Power(b, 0) == 1
  {
  }

  lemma AndOdd(x: nat, y: nat)
    ensures And(x, 2 * y + 1) == x % 2 + 2 * And(x / 2, y)
  {
    assert (2 * y + 1) % 2 == 1 && (2 * y + 1) / 2 == y;
  }

  /** `n & 0x3f` is the base-64 digit, as `n >> 6` is the quotient. */
  lemma MaskIsDigit(n: nat)
    ensures And(n, 0x3f) == n % 64
  {
    hide And;
    AndOdd(n, 31);
    AndOdd(n / 2, 15);
    AndOdd(n / 2 / 2, 7);
    AndOdd(n / 2 / 2 / 2, 3);
    AndOdd(n / 2 / 2 / 2 / 2, 1);
    AndOdd(n / 2 / 2 / 2 / 2 / 2, 0);
    AndZero(n / 2 / 2 / 2 / 2 / 2 / 2);
  }

  lemma AndZero(x: nat)
    ensures And(x, 0) == 0
  {
  }

  lemma DecimalDigit(n: nat)
    ensures DECIMAL[n % 10] == '0' + (n % 10) as char
  {
  }

  /** The first loop of `itoa`: the digits, low one first. `room` digits are known to suffice. */
  method Collect(v: nat, b: array<char>, ghost room: nat) returns (k: nat)
    requires 0 < room <= b.Length && v < Power(10, room)
    modifies b
    ensures k <= room && Reverse(b[..k]) == Decimal(v)
  {
    hide Digits, Reverse, Power;
    k := 0;
    var n: nat := v;
    ghost var left: nat := room;
    NothingCollected(b[..0]);
    while true
      invariant k + left == room && left > 0 && n < Power(10, left)
      invariant Decimal(v) == Decimal(n) + Reverse(b[..k])
      decreases n
    {
      LowDigit(n, DECIMAL, b[..k], left);
      DecimalDigit(n);
      ghost var before := b[..k];
      b[k] := '0' + (n % 10) as char;
      assert b[..k + 1] == before + [DECIMAL[n % 10]];
      k := k + 1;
      n := n / 10;
      if n == 0 {
        break;
      }
      left := left - 1;
    }
  }

  /** The first loop of `itoa64`: letters selected by a mask, and six bits shifted out. */
  method Collect64(v: nat, ch: string, b: array<char>, ghost room: nat) returns (k: nat)
    requires |ch| == 64 && 0 < room <= b.Length && v < Power(64, room)
    modifies b
    ensures k <= room && Reverse(b[..k]) == Digits(v, ch)
  {
    hide Digits, Reverse, Power, And;
    k := 0;
    var n: nat := v;
    ghost var left: nat := room;
    NothingCollected(b[..0]);
    while true
      invariant k + left == room && left > 0 && n < Power(64, left)
      invariant Digits(v, ch) == Digits(n, ch) + Reverse(b[..k])
      decreases n
    {
      LowDigit(n, ch, b[..k], left);
      MaskIsDigit(n);
      ghost var before := b[..k];
      b[k] := ch[And(n, 0x3f)];
      assert b[..k + 1] == before + [ch[n % 64]];
      k := k + 1;
      n := n / 64;
      if n == 0 {
        break;
      }
      left := left - 1;
    }
  }

  /** The second loop: copied out backwards. */
  method CopyOut(b: array<char>, n: nat, p: array<char>) returns (len: nat)
    requires n <= b.Length && n <= p.Length && p != b
    modifies p
    ensures len == n && p[..len] == Reverse(b[..n])
  {
    hide Reverse;
    var k: nat := n;
    len := 0;
    while k > 0
      invariant len + k == n
      invariant Reverse(b[..n]) == p[..len] + Reverse(b[..k])
    {
      OneBack(b[..k]);
      k := k - 1;
      ghost var written := p[..len];
      p[len] := b[k];
      assert b[..k + 1][..k] == b[..k];
      assert p[..len + 1] == written + [b[k]];
      len := len + 1;
    }
    NothingCollected(b[..0]);
  }

  lemma NothingCollected(s: string)
    requires s == []
    ensures Reverse(s) == []
  {
  }

  lemma OneBack(s: string)
    requires s != []
    ensures Reverse(s) == [s[|s| - 1]] + Reverse(s[..|s| - 1])
  {
  }

  lemma {:induction false} PowerAdd(b: nat, j: nat, k: nat)
    ensures Power(b, j + k) == Power(b, j) * Power(b, k)
  {
    if j > 0 {
      PowerAdd(b, j - 1, k);
      assert Power(b, j + k) == b * Power(b, j - 1 + k);
      Associates(b, Power(b, j - 1), Power(b, k));
    }
  }

  lemma Associates(a: nat, b: nat, c: nat)
    ensures a * (b * c) == a * b * c
  {
  }

  lemma WordFits()
    ensures WORD_LIMIT <= Power(10, 20) && WORD_LIMIT <= Power(64, 11)
  {
    assert Power(10, 5) == 100000;
    PowerAdd(10, 5, 5);
    PowerAdd(10, 10, 10);
    assert Power(64, 3) == 262144 && Power(64, 2) == 4096;
    PowerAdd(64, 3, 3);
    PowerAdd(64, 6, 3);
    PowerAdd(64, 9, 2);
  }

  /** `itoa` of any 64-bit number fits the buffer the header provides for, and writes its decimal. */
  method Itoa(v: nat, p: array<char>, b: array<char>) returns (len: nat)
    requires v < WORD_LIMIT && b.Length == ITOA_BUF_SIZE && p.Length >= ITOA_BUF_SIZE && p != b
    modifies p, b
    ensures len <= 20 && p[..len] == Decimal(v)
  {
    WordFits();
    var k := Collect(v, b, 20);
    len := CopyOut(b, k, p);
  }

  /** `itoa64` writes base 64 in the given alphabet, at most eleven letters. */
  method Itoa64(v: nat, ch: string, p: array<char>, b: array<char>) returns (len: nat)
    requires v < WORD_LIMIT && |ch| == 64 && b.Length == ITOA_BUF_SIZE && p.Length >= ITOA_BUF_SIZE && p != b
    modifies p, b
    ensures len <= 11 && p[..len] == Digits(v, ch)
  {
    WordFits();
    var k := Collect64(v, ch, b, 11);
    len := CopyOut(b, k, p);
  }

  /** `atoui` undoes `itoa` for every unsigned 32-bit number. */
  lemma AtouiUndoesItoa(v: nat)
    requires v < 0x1_0000_0000
    ensures Value(DigitPrefix(Decimal(v))) % UINT_LIMIT == v
  {
    DecimalReads(v);
    WholePrefix(Decimal(v));
  }

  // ----- config_get_int -----

  /** The number a stored string is read as: an optional minus and the digits behind it. */
  function IntOf(s: string): int {
    if s != [] && s[0] == '-' then 0 - (Value(DigitPrefix(s[1..])) as int) else Value(DigitPrefix(s)) as int
  }

  /** The digits fit a C `int`. */
  predicate FitsInt(s: string) {
    Value(DigitPrefix(if s != [] && s[0] == '-' then s[1..] else s)) <= INT_MAX
  }

  function IntText(v: int): string {
    if v < 0 then "-" + Decimal(-v) else Decimal(v)
  }

  lemma IntReads(v: int)
    requires -INT_MAX <= v <= INT_MAX
    ensures FitsInt(IntText(v)) && IntOf(IntText(v)) == v
    ensures forall c :: c in IntText(v) ==> c == '-' || IsDigit(c)
  {
    var n := if v < 0 then -v else v;
    DecimalReads(n);
    WholePrefix(Decimal(n));
    assert IsDigit(Decimal(n)[0]);
    if v < 0 { assert IntText(v)[1..] == Decimal(n); }
  }
}
