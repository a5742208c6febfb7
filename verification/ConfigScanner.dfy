/** The scanner's state between two bytes, and what reading one byte does to it. */
module ConfigScanner {
  import opened Machine
  import opened PrefixCopy
  import opened ConfigGrammar
  import opened ConfigLaws

  datatype State = SpaceS | CommentS | KeyS | KeySpS | ValueS | QtValueS | ValueSkipS | CopyValueS

  /** The scanner's variables; `kend`, where the key was cut, is known only to the proof. */
  datatype Cursor = Cursor(state: State, p: nat, line: nat, pkey: nat, kend: nat, pvalue: nat)

  predicate HasKey(s: State) { s.KeySpS? || s.ValueS? || s.QtValueS? || s.CopyValueS? }

  predicate HasValue(s: State) { s.ValueS? || s.QtValueS? || s.CopyValueS? }

  /** The buffer still reads as the text from `i` to `j`. */
  ghost predicate Same(b: seq<char>, t: string, i: nat, j: nat) {
    i <= j <= |t| && |b| == |t| + 1 && forall k :: i <= k < j ==> b[k] == t[k]
  }

  /** The unread bytes are untouched, and so are the current key, cut off behind, and the current value. */
  ghost predicate Layout(b: seq<char>, t: string, c: Cursor) {
    && NUL !in t
    && Same(b, t, c.p, |t|) && b[|t|] == NUL
    && (c.state.KeyS? ==> c.pkey < c.p && Same(b, t, c.pkey, c.p))
    && (HasKey(c.state) ==>
         c.pkey < c.kend < c.p && c.kend - c.pkey <= KEY_MAX && Same(b, t, c.pkey, c.kend) && b[c.kend] == NUL)
    && (HasValue(c.state) ==> c.kend < c.pvalue <= c.p && Same(b, t, c.pvalue, c.p))
  }

  function ModeOf(t: string, c: Cursor): Mode
    requires HasKey(c.state) ==> c.pkey <= c.kend <= |t|
  {
    match c.state
    case SpaceS => Space
    case CommentS => Comment
    case KeyS => Key(c.pkey)
    case KeySpS => Operand(t[c.pkey..c.kend])
    case ValueS => Bare(t[c.pkey..c.kend], c.pvalue)
    case QtValueS => Quoted(t[c.pkey..c.kend], c.pvalue)
    case ValueSkipS => Tail
    case CopyValueS => Copying(t[c.pkey..c.kend], c.pvalue)
  }

  /** The statements recognised so far and the grammar's reading of the rest make up the whole text; `line` is one
      more than the newlines read. */
  ghost predicate Scanning(b: seq<char>, t: string, c: Cursor, done: seq<Stmt>)
    ensures Scanning(b, t, c, done) ==> c.p <= |t| && |b| == |t| + 1
  {
    && c.p <= |t| && Layout(b, t, c) && c.line == 1 + Newlines(t, 0, c.p)
    && Parse(t) == Concat(done, Rest(ModeOf(t, c), t, c.p, c.line))
  }

  ghost predicate Rejected(t: string, done: seq<Stmt>, line: nat) {
    Parse(t).stmts == done && Parse(t).end.Bad? && Parse(t).end.line == line
  }

  /** The string that starts at byte `i` of the buffer. */
  function CString(b: seq<char>, i: nat): string
    requires i <= |b|
    decreases |b| - i
  {
    if i == |b| || b[i] == NUL then "" else [b[i]] + CString(b, i + 1)
  }

  lemma {:induction false} CStringIs(b: seq<char>, t: string, i: nat, j: nat)
    requires Same(b, t, i, j) && NUL !in t && b[j] == NUL
    ensures CString(b, i) == t[i..j]
    decreases j - i
  {
    if i < j {
      CStringIs(b, t, i + 1, j);
      assert t[i..j] == [t[i]] + t[i + 1..j];
    }
  }

  // ----- one byte -----

  /** Only the first of these bytes may be a newline. */
  lemma NewlinesOn(t: string, p: nat, q: nat)
    requires p < |t| && (q == p + 1 || (q == p + 2 && q <= |t| && t[p + 1] != '\n'))
    ensures Newlines(t, 0, q) == Newlines(t, 0, p) + if t[p] == '\n' then 1 else 0
  {
    NewlinesSplit(t, 0, p, q);
    assert Newlines(t, p, q) == (if t[p] == '\n' then 1 else 0) + Newlines(t, p + 1, q);
    if q == p + 2 { assert Newlines(t, p + 1, q) == Newlines(t, p + 2, q); }
  }

  lemma {:induction false} NewlinesSplit(t: string, i: nat, p: nat, q: nat)
    requires i <= p <= q <= |t|
    ensures Newlines(t, i, q) == Newlines(t, i, p) + Newlines(t, p, q)
    decreases p - i
  {
    if i < p { NewlinesSplit(t, i + 1, p, q); }
  }

  /** If the buffer is laid out for `c'`, a move of the grammar takes the scanner from `c` to `c'`. */
  lemma Moved(b: seq<char>, b': seq<char>, t: string, c: Cursor, c': Cursor, done: seq<Stmt>, stmts: seq<Stmt>)
    requires Scanning(b, t, c, done) && c.p < |t| && c'.p <= |t| && Layout(b', t, c')
    requires Next(ModeOf(t, c), t, c.p) == Go(ModeOf(t, c'), c'.p, stmts) && c'.line == LineAfter(t, c.p, c.line)
    ensures Scanning(b', t, c', done + stmts)
  {
    hide Rest, Next, Parse, Newlines;
    RestStep(ModeOf(t, c), t, c.p, c.line);
    GoNewlines(ModeOf(t, c), t, c.p);
    NewlinesOn(t, c.p, c'.p);
  }

  lemma Failed(b: seq<char>, t: string, c: Cursor, done: seq<Stmt>)
    requires Scanning(b, t, c, done) && c.p < |t| && Next(ModeOf(t, c), t, c.p).Fail?
    ensures Rejected(t, done, c.line)
  {
    hide Rest, Next, Parse;
    RestStep(ModeOf(t, c), t, c.p, c.line);
  }

  lemma Finished(b: seq<char>, t: string, c: Cursor, done: seq<Stmt>)
    requires Scanning(b, t, c, done) && c.p == |t|
    ensures Parse(t).stmts == done && !Parse(t).end.Bad?
  {
    hide Parse;
    RestEnd(ModeOf(t, c), t, c.line);
  }

  /** `c'` after `c` on the same construct, or on one that starts at this byte, without a cut. */
  lemma Stepped(b: seq<char>, t: string, c: Cursor, c': Cursor, done: seq<Stmt>)
    requires Scanning(b, t, c, done) && c.p < |t| && c.p < c'.p <= |t|
    requires HasKey(c'.state) ==> HasKey(c.state) && c'.pkey == c.pkey && c'.kend == c.kend
    requires c'.state.KeyS? ==> (c.state.KeyS? && c'.pkey == c.pkey) || c'.pkey == c.p
    requires HasValue(c'.state) ==> (HasValue(c.state) && c'.pvalue == c.pvalue) || c.p <= c'.pvalue <= c'.p
    requires Next(ModeOf(t, c), t, c.p) == Go(ModeOf(t, c'), c'.p, []) && c'.line == LineAfter(t, c.p, c.line)
    ensures Scanning(b, t, c', done)
  {
    hide Rest, Next, Parse;
    Moved(b, b, t, c, c', done, []);
    assert done + [] == done;
  }

  lemma Peek(b: seq<char>, t: string, c: Cursor, done: seq<Stmt>)
    requires Scanning(b, t, c, done)
    ensures c.p < |t| ==> b[c.p] == t[c.p]
    ensures c.p + 1 < |t| ==> b[c.p + 1] == t[c.p + 1]
    ensures c.p + 1 == |t| ==> b[c.p + 1] == NUL
  {
    hide Rest, Parse, ModeOf;
  }

  lemma OnSpace(b: seq<char>, t: string, c: Cursor, done: seq<Stmt>)
    requires Scanning(b, t, c, done) && c.state.SpaceS? && c.p < |t|
    ensures var ch := b[c.p]; var q := c.p + 1;
      if IsKeyChar(ch) then Scanning(b, t, c.(state := KeyS, pkey := c.p, p := q), done)
      else if IsBlank(ch) || ch == '\r' then Scanning(b, t, c.(p := q), done)
      else if ch == '\n' then Scanning(b, t, c.(p := q, line := c.line + 1), done)
      else if ch == '#' then Scanning(b, t, c.(state := CommentS, p := q), done)
      else Rejected(t, done, c.line)
  {
    hide Rest, Parse, Scanning, Rejected;
    Peek(b, t, c, done);
    var ch := t[c.p];
    var q := c.p + 1;
    if IsKeyChar(ch) { Stepped(b, t, c, c.(state := KeyS, pkey := c.p, p := q), done); }
    else if IsBlank(ch) || ch == '\r' { Stepped(b, t, c, c.(p := q), done); }
    else if ch == '\n' { Stepped(b, t, c, c.(p := q, line := c.line + 1), done); }
    else if ch == '#' { Stepped(b, t, c, c.(state := CommentS, p := q), done); }
    else { Failed(b, t, c, done); }
  }

  lemma OnComment(b: seq<char>, t: string, c: Cursor, done: seq<Stmt>)
    requires Scanning(b, t, c, done) && c.state.CommentS? && c.p < |t|
    ensures if b[c.p] == '\n' then Scanning(b, t, c.(state := SpaceS, p := c.p + 1, line := c.line + 1), done)
            else Scanning(b, t, c.(p := c.p + 1), done)
  {
    hide Rest, Parse, Scanning;
    Peek(b, t, c, done);
    if t[c.p] == '\n' { Stepped(b, t, c, c.(state := SpaceS, p := c.p + 1, line := c.line + 1), done); }
    else { Stepped(b, t, c, c.(p := c.p + 1), done); }
  }

  lemma OnKey(b: seq<char>, t: string, c: Cursor, done: seq<Stmt>)
    requires Scanning(b, t, c, done) && c.state.KeyS? && c.p < |t|
    ensures c.pkey < c.p
    ensures var ch := b[c.p]; var q := c.p + 1;
      if IsKeyChar(ch) then Scanning(b, t, c.(p := q), done)
      else if IsBlank(ch) && c.p - c.pkey <= KEY_MAX
      then Scanning(b[c.p := NUL], t, c.(state := KeySpS, kend := c.p, p := q), done)
      else Rejected(t, done, c.line)
  {
    hide Rest, Parse, Rejected;
    Peek(b, t, c, done);
    var ch := t[c.p];
    var q := c.p + 1;
    if IsKeyChar(ch) { Stepped(b, t, c, c.(p := q), done); }
    else if IsBlank(ch) && c.p - c.pkey <= KEY_MAX {
      Moved(b, b[c.p := NUL], t, c, c.(state := KeySpS, kend := c.p, p := q), done, []);
      assert done + [] == done;
    }
    else { Failed(b, t, c, done); }
  }

  lemma OnKeySp(b: seq<char>, t: string, c: Cursor, done: seq<Stmt>)
    requires Scanning(b, t, c, done) && c.state.KeySpS? && c.p < |t|
    ensures var ch := b[c.p]; var q := c.p + 1;
      if IsBlank(ch) then Scanning(b, t, c.(p := q), done)
      else if ch == '"' then Scanning(b, t, c.(state := QtValueS, pvalue := q, p := q), done)
      else if ch == '@' then Scanning(b, t, c.(state := CopyValueS, pvalue := q, p := q), done)
      else if ch == '\r' || ch == '\n' then Rejected(t, done, c.line)
      else Scanning(b, t, c.(state := ValueS, pvalue := c.p, p := q), done)
  {
    hide Rest, Parse, Scanning, Rejected;
    Peek(b, t, c, done);
    HeldKey(b, t, c, done);
    var ch := t[c.p];
    var q := c.p + 1;
    if IsBlank(ch) { Stepped(b, t, c, c.(p := q), done); }
    else if ch == '"' { Stepped(b, t, c, c.(state := QtValueS, pvalue := q, p := q), done); }
    else if ch == '@' { Stepped(b, t, c, c.(state := CopyValueS, pvalue := q, p := q), done); }
    else if ch == '\r' || ch == '\n' { Failed(b, t, c, done); }
    else { Stepped(b, t, c, c.(state := ValueS, pvalue := c.p, p := q), done); }
  }

  lemma HeldKey(b: seq<char>, t: string, c: Cursor, done: seq<Stmt>)
    requires Scanning(b, t, c, done)
    ensures HasKey(c.state) ==> c.pkey < c.kend < c.p <= |t|
    ensures HasValue(c.state) ==> c.kend < c.pvalue <= c.p
  {
    hide Rest, Parse, ModeOf, Same;
  }

  /** What the buffer holds once the value, or source prefix, that ends at `p` is cut off. */
  lemma CutOff(b: seq<char>, t: string, c: Cursor, done: seq<Stmt>)
    requires Scanning(b, t, c, done) && HasValue(c.state) && c.p < |t|
    ensures c.pkey < c.kend < c.pvalue <= c.p < |b|
    ensures |t[c.pkey..c.kend]| <= KEY_MAX && NUL !in t
    ensures var b' := b[c.p := NUL];
      && CString(b', c.pkey) == t[c.pkey..c.kend]
      && b'[c.pvalue..c.p + 1] == t[c.pvalue..c.p] + [NUL]
      && Layout(b', t, c.(state := SpaceS, p := c.p + 1)) && Layout(b', t, c.(state := ValueSkipS, p := c.p + 1))
  {
    hide Rest, Parse, ModeOf, CString;
    CStringIs(b[c.p := NUL], t, c.pkey, c.kend);
  }

  lemma OnValue(b: seq<char>, t: string, c: Cursor, done: seq<Stmt>)
    requires Scanning(b, t, c, done) && c.state.ValueS? && c.p < |t|
    ensures c.pkey < c.kend < c.pvalue <= c.p
    ensures var ch := b[c.p]; var q := c.p + 1;
      if ch == ';' then
        Scanning(b[c.p := NUL], t, c.(state := SpaceS, p := q), done + [Set(t[c.pkey..c.kend], t[c.pvalue..c.p])])
      else if ch == '\n' then Rejected(t, done, c.line)
      else Scanning(b, t, c.(p := q), done)
  {
    hide Rest, Parse, Scanning, Rejected, Layout, CString;
    Peek(b, t, c, done);
    HeldKey(b, t, c, done);
    var ch := t[c.p];
    var q := c.p + 1;
    if ch == ';' {
      CutOff(b, t, c, done);
      Moved(b, b[c.p := NUL], t, c, c.(state := SpaceS, p := q), done, [Set(t[c.pkey..c.kend], t[c.pvalue..c.p])]);
    }
    else if ch == '\n' { Failed(b, t, c, done); }
    else { Stepped(b, t, c, c.(p := q), done); }
  }

  lemma OnQuoted(b: seq<char>, t: string, c: Cursor, done: seq<Stmt>)
    requires Scanning(b, t, c, done) && c.state.QtValueS? && c.p < |t|
    ensures c.pkey < c.kend < c.pvalue <= c.p
    ensures var ch := b[c.p]; var q := c.p + 1;
      if ch == '\\' && b[q] == '"' then q < |t| && Scanning(b, t, c.(p := q + 1), done)
      else if ch == '"' then
        Scanning(b[c.p := NUL], t, c.(state := ValueSkipS, p := q), done + [Set(t[c.pkey..c.kend], t[c.pvalue..c.p])])
      else if ch == '\n' then Rejected(t, done, c.line)
      else Scanning(b, t, c.(p := q), done)
  {
    hide Rest, Parse, Scanning, Rejected, Layout, CString;
    Peek(b, t, c, done);
    HeldKey(b, t, c, done);
    var ch := t[c.p];
    var q := c.p + 1;
    if Escape(t, c.p) { Stepped(b, t, c, c.(p := q + 1), done); }
    else if ch == '"' {
      CutOff(b, t, c, done);
      Moved(b, b[c.p := NUL], t, c, c.(state := ValueSkipS, p := q), done, [Set(t[c.pkey..c.kend], t[c.pvalue..c.p])]);
    }
    else if ch == '\n' { Failed(b, t, c, done); }
    else { Stepped(b, t, c, c.(p := q), done); }
  }

  lemma OnSkip(b: seq<char>, t: string, c: Cursor, done: seq<Stmt>)
    requires Scanning(b, t, c, done) && c.state.ValueSkipS? && c.p < |t|
    ensures var ch := b[c.p]; var q := c.p + 1;
      if ch == ';' then Scanning(b, t, c.(state := SpaceS, p := q), done)
      else if ch == '\n' then Rejected(t, done, c.line)
      else Scanning(b, t, c.(p := q), done)
  {
    hide Rest, Parse, Scanning, Rejected;
    Peek(b, t, c, done);
    if t[c.p] == ';' { Stepped(b, t, c, c.(state := SpaceS, p := c.p + 1), done); }
    else if t[c.p] == '\n' { Failed(b, t, c, done); }
    else { Stepped(b, t, c, c.(p := c.p + 1), done); }
  }

  lemma OnCopy(b: seq<char>, t: string, c: Cursor, done: seq<Stmt>)
    requires Scanning(b, t, c, done) && c.state.CopyValueS? && c.p < |t|
    ensures c.pkey < c.kend < c.pvalue <= c.p
    ensures var ch := b[c.p]; var q := c.p + 1;
      if ch == ';' then
        if c.p - c.pvalue > KEY_MAX then Rejected(t, done, c.line)
        else Scanning(b[c.p := NUL], t, c.(state := SpaceS, p := q), done + [Copy(t[c.pkey..c.kend], t[c.pvalue..c.p])])
      else if ch == '\n' then Rejected(t, done, c.line)
      else Scanning(b, t, c.(p := q), done)
  {
    hide Rest, Parse, Scanning, Rejected, Layout, CString;
    Peek(b, t, c, done);
    HeldKey(b, t, c, done);
    var ch := t[c.p];
    var q := c.p + 1;
    if ch == ';' && c.p - c.pvalue <= KEY_MAX {
      CutOff(b, t, c, done);
      Moved(b, b[c.p := NUL], t, c, c.(state := SpaceS, p := q), done, [Copy(t[c.pkey..c.kend], t[c.pvalue..c.p])]);
    }
    else if ch == ';' || ch == '\n' { Failed(b, t, c, done); }
    else { Stepped(b, t, c, c.(p := q), done); }
  }

  /** Statements recognised so far have run; the next one can. */
  lemma NextRuns(b: seq<char>, t: string, c: Cursor, v: Entries, done: seq<Stmt>, s: Stmt)
    requires Scanning(b, t, c, done + [s]) && AllFit(v, Parse(t).stmts)
    ensures AllFit(v, done) && Fits(Run(v, done), s)
    ensures AllFit(v, done + [s]) && Run(v, done + [s]) == Apply(Run(v, done), s)
  {
    hide Rest, Parse, Fits, Apply;
    var rest := Rest(ModeOf(t, c), t, c.p, c.line).stmts;
    assert Parse(t).stmts == (done + [s]) + rest;
    RunConcat(v, done + [s], rest);
    RunConcat(v, done, [s]);
    assert [s][0] == s && [s][1..] == [];
  }

  /** The scanner at `c` has run the statements `done` on `v`, and the map is now `m`. */
  ghost predicate Ran(v: Entries, m: Entries, t: string, done: seq<Stmt>)
    ensures Ran(v, m, t, done) ==> AllFit(v, Parse(t).stmts)
  {
    AllFit(v, Parse(t).stmts) && AllFit(v, done) && m == Run(v, done)
  }

  lemma RanNone(v: Entries, t: string)
    requires AllFit(v, Parse(t).stmts)
    ensures Ran(v, v, t, [])
  {
    hide Parse;
  }

  lemma RanNext(b: seq<char>, t: string, c: Cursor, v: Entries, m: Entries, done: seq<Stmt>, s: Stmt)
    requires Scanning(b, t, c, done + [s]) && Ran(v, m, t, done)
    ensures Fits(m, s) && Ran(v, Apply(m, s), t, done + [s])
  {
    hide Parse, Scanning, Fits, Apply, AllFit, Run;
    NextRuns(b, t, c, v, done, s);
  }

  lemma Begin(t: string)
    requires NUL !in t
    ensures Scanning(t + [NUL], t, Cursor(SpaceS, 0, 1, 0, 0, 0), [])
  {
    hide ParseFrom;
  }

  /** How a scan ends: the statements that ran are those the grammar gives, and its verdict is the grammar's. */
  lemma EndRejected(v: Entries, m: Entries, t: string, done: seq<Stmt>, line: nat)
    requires Ran(v, m, t, done) && Rejected(t, done, line)
    ensures m == Run(v, Parse(t).stmts) && !Loads(t) && Parse(t).end.line == line
  {
    hide Parse, Run;
  }

  lemma EndAccepted(b: seq<char>, t: string, c: Cursor, v: Entries, m: Entries, done: seq<Stmt>)
    requires Scanning(b, t, c, done) && c.p == |t| && Ran(v, m, t, done)
    ensures m == Run(v, Parse(t).stmts) && Loads(t)
  {
    hide Parse, Run, Scanning;
    Finished(b, t, c, done);
  }
}
