/** The configuration language: what a text says, read statement by statement. */
module ConfigGrammar {
  import opened PrefixCopy

  const KEY_MAX: nat := 64   // CONFIG_KEY_MAX_SIZE

  /** `achar`: letters, digits, `.` and `_`. */
  predicate IsKeyChar(c: char) {
    c == '.' || '0' <= c <= '9' || 'A' <= c <= 'Z' || c == '_' || 'a' <= c <= 'z'
  }

  predicate IsBlank(c: char) { c == ' ' || c == '\t' }

  /** Where a scan for something ends. */
  datatype Stop = NotKey | NotBlank | ValueEnd | LineEnd {
    predicate At(c: char) {
      match this
      case NotKey => !IsKeyChar(c)
      case NotBlank => !IsBlank(c)
      case ValueEnd => c == ';' || c == '\n'
      case LineEnd => c == '\n'
    }
  }

  /** The first position from `i` on where the scan stops, or the end of the text. */
  function Find(t: string, i: nat, stop: Stop): (j: nat)
    requires i <= |t|
    ensures i <= j <= |t|
    ensures forall k :: i <= k < j ==> !stop.At(t[k])
    ensures j < |t| ==> stop.At(t[j])
    decreases |t| - i
  {
    if i == |t| || stop.At(t[i]) then i else Find(t, i + 1, stop)
  }

  /** The end of a quoted value: the first quote not right behind a backslash, or a line end. */
  function QuoteEnd(t: string, i: nat): (j: nat)
    requires i <= |t|
    ensures i <= j <= |t| && (j < |t| ==> t[j] == '"' || t[j] == '\n')
    decreases |t| - i
  {
    if i == |t| then i
    else if t[i] == '\\' && i + 1 < |t| && t[i + 1] == '"' then QuoteEnd(t, i + 2)
    else if t[i] == '"' || t[i] == '\n' then i
    else QuoteEnd(t, i + 1)
  }

  datatype Stmt = Set(key: string, value: string) | Copy(dst: string, src: string)

  /** How a text ends: between statements, inside one or in a comment, or with an error at byte `at`. */
  datatype End = Between | Inside | Bad(line: nat, at: nat)

  datatype Parsed = Parsed(stmts: seq<Stmt>, end: End) {
    function Prepend(s: Stmt): Parsed { Parsed([s] + stmts, end) }
  }

  const CUT := Parsed([], Inside)

  function Error(line: nat, at: nat): Parsed { Parsed([], Bad(line, at)) }

  /** From byte `i` on, between statements. */
  function ParseFrom(t: string, i: nat, line: nat): Parsed
    requires i <= |t|
    decreases |t| - i, 0
  {
    if i == |t| then Parsed([], Between)
    else if IsKeyChar(t[i]) then ParseKey(t, i, i + 1, line)
    else if IsBlank(t[i]) || t[i] == '\r' then ParseFrom(t, i + 1, line)
    else if t[i] == '\n' then ParseFrom(t, i + 1, line + 1)
    else if t[i] == '#' then ParseComment(t, i + 1, line)
    else Error(line, i)
  }

  function ParseComment(t: string, i: nat, line: nat): Parsed
    requires i <= |t|
    decreases |t| - i, 1
  {
    var e := Find(t, i, LineEnd);
    if e == |t| then CUT else ParseFrom(t, e + 1, line + 1)
  }

  /** A statement whose key starts at `k0`; all its bytes before `i` are key bytes. */
  function ParseKey(t: string, k0: nat, i: nat, line: nat): Parsed
    requires k0 < i <= |t|
    decreases |t| - i, 2
  {
    var k := Find(t, i, NotKey);
    if k == |t| then CUT
    else if !IsBlank(t[k]) || k - k0 > KEY_MAX then Error(line, k)
    else ParseOperand(t, t[k0..k], k + 1, line)
  }

  /** Behind the key: a quoted value, the prefix to copy from, or a bare value. */
  function ParseOperand(t: string, key: string, i: nat, line: nat): Parsed
    requires i <= |t|
    decreases |t| - i, 3
  {
    var v := Find(t, i, NotBlank);
    if v == |t| then CUT
    else if t[v] == '"' then ParseQuoted(t, key, v + 1, v + 1, line)
    else if t[v] == '@' then ParseCopy(t, key, v + 1, v + 1, line)
    else if t[v] == '\r' || t[v] == '\n' then Error(line, v)
    else ParseBare(t, key, v, v + 1, line)
  }

  /** A bare value from `v` on, known to go on up to `i`. Its first byte is never looked at, so `k ;;` stores a
      semicolon. */
  function ParseBare(t: string, key: string, v: nat, i: nat, line: nat): Parsed
    requires v <= i <= |t|
    decreases |t| - i, 1
  {
    var e := Find(t, i, ValueEnd);
    if e == |t| then CUT
    else if t[e] == '\n' then Error(line, e)
    else ParseFrom(t, e + 1, line).Prepend(Set(key, t[v..e]))
  }

  /** A quoted value: it is stored at the closing quote, whatever follows. */
  function ParseQuoted(t: string, key: string, v: nat, i: nat, line: nat): Parsed
    requires v <= i <= |t|
    decreases |t| - i, 2
  {
    var e := QuoteEnd(t, i);
    if e == |t| then CUT
    else if t[e] == '\n' then Error(line, e)
    else ParseTail(t, e + 1, line).Prepend(Set(key, t[v..e]))
  }

  /** Behind a quoted value: anything up to the semicolon. */
  function ParseTail(t: string, i: nat, line: nat): Parsed
    requires i <= |t|
    decreases |t| - i, 1
  {
    var e := Find(t, i, ValueEnd);
    if e == |t| then CUT
    else if t[e] == '\n' then Error(line, e)
    else ParseFrom(t, e + 1, line)
  }

  function ParseCopy(t: string, key: string, v: nat, i: nat, line: nat): Parsed
    requires v <= i <= |t|
    decreases |t| - i, 1
  {
    var e := Find(t, i, ValueEnd);
    if e == |t| then CUT
    else if t[e] == '\n' || e - v > KEY_MAX then Error(line, e)
    else ParseFrom(t, e + 1, line).Prepend(Copy(key, t[v..e]))
  }

  function Parse(t: string): Parsed { ParseFrom(t, 0, 1) }

  // ----- what the statements do -----

  /** The statement stays within what the loader can hold: the copies do not feed their own source,
      and every key they make fits the 64-byte key buffer. */
  ghost predicate Fits(m: Entries, s: Stmt) {
    s.Copy? ==>
      && !Feeds(s.dst, s.src)
      && forall k :: k in m && s.src <= k ==> |s.dst| + |k| - |s.src| <= KEY_MAX
  }

  ghost function Apply(m: Entries, s: Stmt): Entries
    requires Fits(m, s)
  {
    match s
    case Set(key, value) => m[key := value]
    case Copy(dst, src) => CopyAll(m, dst, src)
  }

  ghost predicate AllFit(m: Entries, stmts: seq<Stmt>)
    decreases |stmts|
  {
    stmts == [] || (Fits(m, stmts[0]) && AllFit(Apply(m, stmts[0]), stmts[1..]))
  }

  ghost function Run(m: Entries, stmts: seq<Stmt>): Entries
    requires AllFit(m, stmts)
    decreases |stmts|
  {
    if stmts == [] then m else Run(Apply(m, stmts[0]), stmts[1..])
  }
}
