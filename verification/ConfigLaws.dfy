/** The grammar one byte at a time, and the laws that follow: lines, prefixes, concatenation. */
module ConfigLaws {
  import opened Lexicographic
  import opened PrefixCopy
  import opened ConfigGrammar

  /** What has been recognised of the construct that byte `i` lies in. */
  datatype Mode =
    | Space
    | Comment
    | Key(k0: nat)
    | Operand(key: string)
    | Bare(key: string, v: nat)
    | Quoted(key: string, v: nat)
    | Tail
    | Copying(key: string, v: nat)

  predicate ModeOk(mode: Mode, i: nat) {
    match mode
    case Key(k0) => k0 < i
    case Bare(_, v) => v <= i
    case Quoted(_, v) => v <= i
    case Copying(_, v) => v <= i
    case _ => true
  }

  /** What the grammar makes of the rest of the text. */
  function Rest(mode: Mode, t: string, i: nat, line: nat): Parsed
    requires i <= |t| && ModeOk(mode, i)
  {
    match mode
    case Space => ParseFrom(t, i, line)
    case Comment => ParseComment(t, i, line)
    case Key(k0) => ParseKey(t, k0, i, line)
    case Operand(key) => ParseOperand(t, key, i, line)
    case Bare(key, v) => ParseBare(t, key, v, i, line)
    case Quoted(key, v) => ParseQuoted(t, key, v, i, line)
    case Tail => ParseTail(t, i, line)
    case Copying(key, v) => ParseCopy(t, key, v, i, line)
  }

  datatype Move = Fail | Go(mode: Mode, next: nat, stmts: seq<Stmt>)

  predicate Escape(t: string, i: nat) {
    i + 1 < |t| && t[i] == '\\' && t[i + 1] == '"'
  }

  /** The step the grammar takes over byte `i`. */
  function Next(mode: Mode, t: string, i: nat): (r: Move)
    requires i < |t| && ModeOk(mode, i)
    ensures r.Go? ==> ModeOk(r.mode, r.next) && i < r.next <= |t|
  {
    var c := t[i];
    match mode
    case Space =>
      if IsKeyChar(c) then Go(Key(i), i + 1, [])
      else if IsBlank(c) || c == '\r' || c == '\n' then Go(Space, i + 1, [])
      else if c == '#' then Go(Comment, i + 1, [])
      else Fail
    case Comment =>
      Go(if c == '\n' then Space else Comment, i + 1, [])
    case Key(k0) =>
      if IsKeyChar(c) then Go(mode, i + 1, [])
      else if IsBlank(c) && i - k0 <= KEY_MAX then Go(Operand(t[k0..i]), i + 1, [])
      else Fail
    case Operand(key) =>
      if IsBlank(c) then Go(mode, i + 1, [])
      else if c == '"' then Go(Quoted(key, i + 1), i + 1, [])
      else if c == '@' then Go(Copying(key, i + 1), i + 1, [])
      else if c == '\r' || c == '\n' then Fail
      else Go(Bare(key, i), i + 1, [])
    case Bare(key, v) =>
      if c == ';' then Go(Space, i + 1, [Set(key, t[v..i])])
      else if c == '\n' then Fail
      else Go(mode, i + 1, [])
    case Quoted(key, v) =>
      if Escape(t, i) then Go(mode, i + 2, [])
      else if c == '"' then Go(Tail, i + 1, [Set(key, t[v..i])])
      else if c == '\n' then Fail
      else Go(mode, i + 1, [])
    case Tail =>
      if c == ';' then Go(Space, i + 1, [])
      else if c == '\n' then Fail
      else Go(mode, i + 1, [])
    case Copying(key, v) =>
      if c == ';' then (if i - v > KEY_MAX then Fail else Go(Space, i + 1, [Copy(key, t[v..i])]))
      else if c == '\n' then Fail
      else Go(mode, i + 1, [])
  }

  function Concat(stmts: seq<Stmt>, p: Parsed): Parsed { Parsed(stmts + p.stmts, p.end) }

  function LineAfter(t: string, i: nat, line: nat): nat
    requires i < |t|
  {
    if t[i] == '\n' then line + 1 else line
  }

  ghost predicate StepAgrees(mode: Mode, t: string, i: nat, line: nat)
    requires i < |t| && ModeOk(mode, i)
  {
    Rest(mode, t, i, line) ==
      match Next(mode, t, i)
      case Fail => Error(line, i)
      case Go(mode', next, stmts) => Concat(stmts, Rest(mode', t, next, LineAfter(t, i, line)))
  }

  lemma OuterStep(mode: Mode, t: string, i: nat, line: nat)
    requires i < |t| && ModeOk(mode, i) && (mode.Space? || mode.Comment? || mode.Tail?)
    ensures StepAgrees(mode, t, i, line)
  {
  }

  lemma KeyStep(mode: Mode, t: string, i: nat, line: nat)
    requires i < |t| && ModeOk(mode, i) && (mode.Key? || mode.Operand?)
    ensures StepAgrees(mode, t, i, line)
  {
    hide ParseQuoted, ParseBare, ParseCopy;
    assert mode.Key? && !NotKey.At(t[i]) ==> Find(t, i, NotKey) == Find(t, i + 1, NotKey);
    if mode.Operand? {
      BlankStep(mode.key, t, i, line);
    }
  }

  lemma BlankStep(key: string, t: string, i: nat, line: nat)
    requires i < |t|
    ensures StepAgrees(Operand(key), t, i, line)
  {
    hide ParseQuoted, ParseBare, ParseCopy, ParseKey, ParseFrom, ParseComment, ParseTail;
    assert Find(t, i, NotBlank) == if IsBlank(t[i]) then Find(t, i + 1, NotBlank) else i;
  }

  lemma ValueStep(mode: Mode, t: string, i: nat, line: nat)
    requires i < |t| && ModeOk(mode, i) && (mode.Bare? || mode.Copying?)
    ensures StepAgrees(mode, t, i, line)
  {
    hide ParseFrom, ParseComment, ParseTail, ParseQuoted, ParseKey, ParseOperand;
    assert Find(t, i, ValueEnd) == if ValueEnd.At(t[i]) then i else Find(t, i + 1, ValueEnd);
  }

  lemma QuotedStep(mode: Mode, t: string, i: nat, line: nat)
    requires i < |t| && ModeOk(mode, i) && mode.Quoted?
    ensures StepAgrees(mode, t, i, line)
  {
    hide ParseFrom, ParseComment, ParseTail, ParseBare, ParseCopy, ParseKey, ParseOperand;
  }

  /** Reading one byte at a time gives what the grammar gives. */
  lemma RestStep(mode: Mode, t: string, i: nat, line: nat)
    requires i < |t| && ModeOk(mode, i)
    ensures StepAgrees(mode, t, i, line)
  {
    hide StepAgrees;
    match mode
    case Space => OuterStep(mode, t, i, line);
    case Comment => OuterStep(mode, t, i, line);
    case Tail => OuterStep(mode, t, i, line);
    case Key(_) => KeyStep(mode, t, i, line);
    case Operand(_) => KeyStep(mode, t, i, line);
    case Quoted(_, _) => QuotedStep(mode, t, i, line);
    case Bare(_, _) => ValueStep(mode, t, i, line);
    case Copying(_, _) => ValueStep(mode, t, i, line);
  }

  lemma RestEnd(mode: Mode, t: string, line: nat)
    requires ModeOk(mode, |t|)
    ensures Rest(mode, t, |t|, line) == Parsed([], if mode.Space? then Between else Inside)
  {
  }

  // ----- lines -----

  function Newlines(t: string, i: nat, j: nat): nat
    requires i <= j <= |t|
    decreases j - i
  {
    if i == j then 0 else (if t[i] == '\n' then 1 else 0) + Newlines(t, i + 1, j)
  }

  lemma {:induction false} RestLine(mode: Mode, t: string, i: nat, line: nat)
    requires i <= |t| && ModeOk(mode, i)
    ensures var e := Rest(mode, t, i, line).end;
      e.Bad? ==> i <= e.at < |t| && e.line == line + Newlines(t, i, e.at)
    decreases |t| - i
  {
    if i == |t| {
      RestEnd(mode, t, line);
    } else {
      RestStep(mode, t, i, line);
      match Next(mode, t, i) {
        case Fail =>
        case Go(mode', next, _) => RestLine(mode', t, next, LineAfter(t, i, line));
      }
    }
  }

  /** The line reported for an error is the 1-based line of the byte that cannot be accepted. */
  lemma ErrorLine(t: string)
    ensures var e := Parse(t).end; e.Bad? ==> e.at < |t| && e.line == 1 + Newlines(t, 0, e.at)
  {
    RestLine(Space, t, 0, 1);
  }

  // ----- prefixes -----

  /** Cutting the text behind byte `i` shows only when an escape is cut in two. */
  lemma NextPrefix(mode: Mode, t: string, n: nat, i: nat)
    requires i < n <= |t| && ModeOk(mode, i)
    ensures
      || Next(mode, t, i) == Next(mode, t[..n], i)
      || (i + 1 == n && !mode.Space? && Next(mode, t[..n], i) == Go(mode, n, [])
        && Next(mode, t, i) == Go(mode, n + 1, []))
  {
    assert t[..n][i] == t[i] && (i + 1 < n ==> t[..n][i + 1] == t[i + 1]);
    assert mode.Key? ==> t[..n][mode.k0..i] == t[mode.k0..i];
    assert mode.Bare? || mode.Quoted? || mode.Copying? ==> t[..n][mode.v..i] == t[mode.v..i];
  }

  lemma {:induction false} RestPrefix(mode: Mode, t: string, n: nat, i: nat, line: nat)
    requires i <= n <= |t| && ModeOk(mode, i)
    ensures var p, q := Rest(mode, t[..n], i, line), Rest(mode, t, i, line);
      && p.stmts <= q.stmts
      && (p.end.Bad? ==> p == q && p.end.at < n)
      && (q.end.Bad? && q.end.at < n ==> p == q)
    decreases n - i
  {
    hide Rest, Next, Newlines;
    RestLine(mode, t, i, line);
    if i == n {
      RestEnd(mode, t[..n], line);
    } else {
      RestStep(mode, t[..n], i, line);
      RestStep(mode, t, i, line);
      NextPrefix(mode, t, n, i);
      match Next(mode, t[..n], i) {
        case Fail =>
        case Go(mode', next, stmts) =>
          if Next(mode, t, i) == Next(mode, t[..n], i) {
            RestPrefix(mode', t, n, next, LineAfter(t, i, line));
          } else {
            RestEnd(mode', t[..n], LineAfter(t[..n], i, line));
            RestLine(mode', t, n + 1, LineAfter(t, i, line));
          }
      }
    }
  }

  predicate Loads(t: string) { !Parse(t).end.Bad? }

  /** A prefix of a text says a prefix of its statements; it loads exactly when it stops before the
      byte that the whole text is rejected for, so every prefix of a text that loads does. */
  lemma PrefixLaw(t: string, n: nat)
    requires n <= |t|
    ensures Parse(t[..n]).stmts <= Parse(t).stmts
    ensures Loads(t[..n]) <==> (Loads(t) || n <= Parse(t).end.at)
  {
    RestPrefix(Space, t, n, 0, 1);
  }

  // ----- concatenation -----

  lemma RestSpace(t: string, i: nat, line: nat)
    requires i <= |t|
    ensures Rest(Space, t, i, line) == ParseFrom(t, i, line)
  {
  }

  /** A move never passes over a newline it does not read. */
  lemma GoNewlines(mode: Mode, t: string, i: nat)
    requires i < |t| && ModeOk(mode, i)
    ensures var r := Next(mode, t, i); r.Go? ==> forall j :: i < j < r.next ==> t[j] != '\n'
    ensures var r := Next(mode, t, i); r.Go? ==> r.next == i + 1 || r.next == i + 2
  {
  }

  lemma {:induction false} RestContinue(mode: Mode, t: string, n: nat, i: nat, line: nat)
    requires i <= n <= |t| && ModeOk(mode, i) && Rest(mode, t[..n], i, line).end.Between?
    ensures Rest(mode, t, i, line)
         == Concat(Rest(mode, t[..n], i, line).stmts, ParseFrom(t, n, line + Newlines(t, i, n)))
    decreases n - i
  {
    hide Rest, Next;
    if i == n {
      RestEnd(mode, t[..n], line);
      assert mode.Space?;
      RestSpace(t, i, line);
    } else {
      RestStep(mode, t[..n], i, line);
      RestStep(mode, t, i, line);
      NextPrefix(mode, t, n, i);
      match Next(mode, t[..n], i) {
        case Fail =>
        case Go(mode', next, stmts) =>
          if Next(mode, t, i) == Next(mode, t[..n], i) {
            GoNewlines(mode, t, i);
            RestContinue(mode', t, n, next, LineAfter(t, i, line));
          } else {
            RestEnd(mode', t[..n], LineAfter(t[..n], i, line));
          }
      }
    }
  }

  function ShiftMode(mode: Mode, d: nat): Mode {
    match mode
    case Key(k0) => Key(k0 + d)
    case Bare(key, v) => Bare(key, v + d)
    case Quoted(key, v) => Quoted(key, v + d)
    case Copying(key, v) => Copying(key, v + d)
    case _ => mode
  }

  /** The same reading, `d` bytes and `lines` lines further down. */
  function Shift(p: Parsed, d: nat, lines: nat): Parsed {
    match p.end
    case Bad(line, at) => Parsed(p.stmts, Bad(line + lines, at + d))
    case _ => p
  }

  lemma {:induction false} RestShift(mode: Mode, a: string, b: string, i: nat, line: nat, lines: nat)
    requires i <= |b| && ModeOk(mode, i)
    ensures Rest(ShiftMode(mode, |a|), a + b, |a| + i, line + lines) == Shift(Rest(mode, b, i, line), |a|, lines)
    decreases |b| - i
  {
    hide Rest, Next;
    if i == |b| {
      RestEnd(mode, b, line);
      RestEnd(ShiftMode(mode, |a|), a + b, line + lines);
    } else {
      RestStep(mode, b, i, line);
      RestStep(ShiftMode(mode, |a|), a + b, |a| + i, line + lines);
      NextShift(mode, a, b, i);
      match Next(mode, b, i) {
        case Fail =>
        case Go(mode', next, _) => RestShift(mode', a, b, next, LineAfter(b, i, line), lines);
      }
    }
  }

  lemma SliceShift(a: string, b: string, i: nat, j: nat)
    requires i <= j <= |b|
    ensures (a + b)[|a| + i..|a| + j] == b[i..j]
  {
  }

  lemma NextShift(mode: Mode, a: string, b: string, i: nat)
    requires i < |b| && ModeOk(mode, i)
    ensures Next(ShiftMode(mode, |a|), a + b, |a| + i) ==
      match Next(mode, b, i)
      case Fail => Fail
      case Go(mode', next, stmts) => Go(ShiftMode(mode', |a|), |a| + next, stmts)
  {
    assert (a + b)[|a| + i] == b[i];
    assert i + 1 < |b| ==> (a + b)[|a| + i + 1] == b[i + 1];
    match mode
    case Key(k0) => SliceShift(a, b, k0, i);
    case Bare(_, v) => SliceShift(a, b, v, i);
    case Quoted(_, v) => SliceShift(a, b, v, i);
    case Copying(_, v) => SliceShift(a, b, v, i);
    case _ =>
  }

  /** Behind a text that ends between statements, another text reads as it would by itself, on later lines. */
  lemma ConcatenationLaw(a: string, b: string)
    requires Parse(a).end.Between?
    ensures Parse(a + b) == Concat(Parse(a).stmts, Shift(Parse(b), |a|, Newlines(a, 0, |a|)))
  {
    hide ParseFrom, Rest, Newlines, Shift;
    assert (a + b)[..|a|] == a;
    RestSpace(a, 0, 1);
    RestSpace(b, 0, 1);
    RestSpace(a + b, 0, 1);
    RestSpace(a + b, |a|, 1 + Newlines(a, 0, |a|));
    RestContinue(Space, a + b, |a|, 0, 1);
    NewlinesPrefix(a, b, 0);
    RestShift(Space, a, b, 0, 1, Newlines(a, 0, |a|));
  }

  lemma {:induction false} NewlinesPrefix(a: string, b: string, i: nat)
    requires i <= |a|
    ensures Newlines(a + b, i, |a|) == Newlines(a, i, |a|)
    decreases |a| - i
  {
    if i < |a| { NewlinesPrefix(a, b, i + 1); }
  }

  // ----- running the statements -----

  /** A copy under `src` is no longer than the key it was made from. */
  lemma FitsOn(m: Entries, dst: string, src: string, k: string, value: string)
    requires Fits(m, Copy(dst, src)) && k in m && src <= k
    ensures Fits(m[Image(k, dst, src) := value], Copy(dst, src))
    ensures |Image(k, dst, src)| <= KEY_MAX
  {
    var n := Image(k, dst, src);
    if src <= n { PrefixesCompare(dst, src, n); }
  }

  lemma {:induction false} RunConcat(m: Entries, a: seq<Stmt>, b: seq<Stmt>)
    ensures AllFit(m, a + b) <==> AllFit(m, a) && AllFit(Run(m, a), b)
    ensures AllFit(m, a + b) ==> Run(m, a + b) == Run(Run(m, a), b)
    decreases |a|
  {
    hide Apply, Fits;
    if a == [] {
      assert a + b == b;
    } else {
      assert (a + b)[0] == a[0] && (a + b)[1..] == a[1..] + b;
      if Fits(m, a[0]) {
        RunConcat(Apply(m, a[0]), a[1..], b);
      }
    }
  }

  /** Loading two texts in a row, the first ending between statements, is loading them as one. */
  lemma LoadConcatenation(m: Entries, a: string, b: string)
    requires Parse(a).end.Between? && AllFit(m, Parse(a + b).stmts)
    ensures AllFit(m, Parse(a).stmts) && AllFit(Run(m, Parse(a).stmts), Parse(b).stmts)
    ensures Run(m, Parse(a + b).stmts) == Run(Run(m, Parse(a).stmts), Parse(b).stmts)
    ensures Loads(a + b) <==> Loads(b)
  {
    hide Parse, AllFit, Run, Newlines;
    ConcatenationLaw(a, b);
    RunConcat(m, Parse(a).stmts, Parse(b).stmts);
  }
}
