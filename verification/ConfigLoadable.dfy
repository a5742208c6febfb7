/** What a text can say, and the maps that texts can load to. */
module ConfigLoadable {
  import opened Wrappers
  import opened Machine
  import opened Lexicographic
  import opened PrefixCopy
  import opened ConfigGrammar
  import opened ConfigLaws
  import opened ConfigRoundTrip

  // ----- the statements of a text -----

  /** A source prefix of a copy statement: short, and without the bytes that end it. */
  predicate ValidSource(s: string) {
    |s| <= KEY_MAX && NUL !in s && forall j :: 0 <= j < |s| ==> !ValueEnd.At(s[j])
  }

  predicate StmtOk(s: Stmt) {
    match s
    case Set(key, value) => ValidKey(key) && Writable(value)
    case Copy(dst, src) => ValidKey(dst) && ValidSource(src)
  }

  ghost predicate AllOk(stmts: seq<Stmt>) { forall s :: s in stmts ==> StmtOk(s) }

  /** What is known of the construct that byte `i` lies in. */
  ghost predicate ModeGood(mode: Mode, t: string, i: nat)
    requires i <= |t|
  {
    && ModeOk(mode, i)
    && match mode
       case Key(k0) => forall j :: k0 <= j < i ==> IsKeyChar(t[j])
       case Operand(key) => ValidKey(key)
       case Bare(key, v) => ValidKey(key) && v < i && StartsBare(t[v]) && forall j :: v < j < i ==> !ValueEnd.At(t[j])
       case Quoted(key, v) => ValidKey(key) && QuotesHidden(t, v, i) && Aligned(t, v, i)
       case Copying(key, v) => ValidKey(key) && forall j :: v <= j < i ==> !ValueEnd.At(t[j])
       case _ => true
  }

  ghost predicate NextGood(mode: Mode, t: string, i: nat)
    requires i < |t| && ModeOk(mode, i)
  {
    var r := Next(mode, t, i);
    r.Go? ==> ModeGood(r.mode, t, r.next) && AllOk(r.stmts)
  }

  lemma SpaceGood(mode: Mode, t: string, i: nat)
    requires i < |t| && ModeGood(mode, t, i) && (mode.Space? || mode.Comment? || mode.Tail? || mode.Key?)
    ensures NextGood(mode, t, i)
  {
    if mode.Key? && IsBlank(t[i]) && i - mode.k0 <= KEY_MAX {
      var key := t[mode.k0..i];
      forall j | 0 <= j < |key| ensures IsKeyChar(key[j]) { assert key[j] == t[mode.k0 + j]; }
    }
  }

  lemma OperandGood(mode: Mode, t: string, i: nat)
    requires i < |t| && ModeGood(mode, t, i) && mode.Operand?
    ensures NextGood(mode, t, i)
  {
    hide ValidKey;
  }

  lemma ValueGood(mode: Mode, t: string, i: nat)
    requires i < |t| && NUL !in t && ModeGood(mode, t, i) && (mode.Bare? || mode.Copying?)
    ensures NextGood(mode, t, i)
  {
    hide ValidKey;
    var s := t[mode.v..i];
    forall j | 0 <= j < |s| ensures s[j] == t[mode.v + j] {
    }
  }

  lemma QuotedGood(mode: Mode, t: string, i: nat)
    requires i < |t| && NUL !in t && ModeGood(mode, t, i) && mode.Quoted?
    ensures NextGood(mode, t, i)
  {
    hide ValidKey, Storable, BareStorable;
    var v := mode.v;
    if Escape(t, i) {
      assert Harmless(t, v, i) && Harmless(t, v, i + 1);
    } else if t[i] == '"' {
      HiddenStorable(t, v, i);
    } else if t[i] != '\n' {
      assert Harmless(t, v, i);
    }
  }

  lemma StepGood(mode: Mode, t: string, i: nat)
    requires i < |t| && NUL !in t && ModeGood(mode, t, i)
    ensures NextGood(mode, t, i)
  {
    hide ModeGood, NextGood;
    match mode
    case Operand(_) => OperandGood(mode, t, i);
    case Bare(_, _) => ValueGood(mode, t, i);
    case Copying(_, _) => ValueGood(mode, t, i);
    case Quoted(_, _) => QuotedGood(mode, t, i);
    case _ => SpaceGood(mode, t, i);
  }

  lemma {:induction false} RestOk(mode: Mode, t: string, i: nat, line: nat)
    requires i <= |t| && NUL !in t && ModeGood(mode, t, i)
    ensures AllOk(Rest(mode, t, i, line).stmts)
    decreases |t| - i
  {
    hide Rest, Next, StmtOk;
    if i == |t| {
      RestEnd(mode, t, line);
    } else {
      RestStep(mode, t, i, line);
      StepGood(mode, t, i);
      match Next(mode, t, i) {
        case Fail =>
        case Go(mode', next, _) => RestOk(mode', t, next, LineAfter(t, i, line));
      }
    }
  }

  /** Whatever a text says: keys are valid, values can be written, and source prefixes are short. */
  lemma StatementsOk(t: string)
    requires NUL !in t
    ensures AllOk(Parse(t).stmts)
  {
    hide AllOk;
    RestOk(Space, t, 0, 1);
  }

  // ----- the maps -----

  lemma CopyValid(k: string, dst: string, src: string)
    requires ValidKey(k) && ValidKey(dst) && src <= k && |Image(k, dst, src)| <= KEY_MAX
    ensures ValidKey(Image(k, dst, src))
  {
    var n := Image(k, dst, src);
    forall j | 0 <= j < |n| ensures IsKeyChar(n[j]) {
      assert n[j] == if j < |dst| then dst[j] else k[|src| + j - |dst|];
    }
  }

  lemma {:induction false} WalkWritable(m: Entries, dst: string, src: string, at: Option<string>, u: set<string>)
    requires m.Keys <= u && Closed(u, dst, src) && (at.Some? ==> at.value in m)
    requires WritableMap(m) && ValidKey(dst) && Fits(m, Copy(dst, src))
    ensures WritableMap(Walk(m, dst, src, at, u))
    decreases if at.None? then 0 else 1 + |Beyond(u, at.value)|
  {
    hide ValidKey, Writable, Fits;
    if at.Some? && src <= at.value {
      var k := at.value;
      var m' := m[Image(k, dst, src) := m[k]];
      var next := Seek(m'.Keys, k, true);
      FitsOn(m, dst, src, k, m[k]);
      CopyValid(k, dst, src);
      if next.Some? { BeyondShrinks(u, k, next.value); }
      WalkWritable(m', dst, src, next, u);
    }
  }

  lemma ApplyWritable(m: Entries, s: Stmt)
    requires WritableMap(m) && Fits(m, s) && StmtOk(s)
    ensures WritableMap(Apply(m, s))
  {
    hide ValidKey, Writable, Walk;
    if s.Copy? {
      UniverseClosed(m.Keys, s.dst, s.src);
      WalkWritable(m, s.dst, s.src, Seek(m.Keys, s.src, false), Universe(m.Keys, s.dst));
    }
  }

  lemma {:induction false} RunWritable(m: Entries, stmts: seq<Stmt>)
    requires WritableMap(m) && AllFit(m, stmts) && AllOk(stmts)
    ensures WritableMap(Run(m, stmts))
    decreases |stmts|
  {
    hide WritableMap, Fits, Apply, StmtOk;
    if stmts != [] {
      assert stmts[0] in stmts;
      ApplyWritable(m, stmts[0]);
      RunWritable(Apply(m, stmts[0]), stmts[1..]);
    }
  }

  /** The text loads, and leaves the map. */
  ghost predicate LoadsTo(t: string, m: Entries) {
    NUL !in t && Loads(t) && AllFit(map[], Parse(t).stmts) && Run(map[], Parse(t).stmts) == m
  }

  /** The maps texts can load to are exactly those of valid keys and values that some assignment can store. */
  lemma LoadableExactly(m: Entries)
    ensures WritableMap(m) <==> exists t :: LoadsTo(t, m)
  {
    hide Parse, Run, AllFit, WritableMap;
    if WritableMap(m) {
      var t := EveryMapHasAText(m);
      assert LoadsTo(t, m);
    }
    if t :| LoadsTo(t, m) {
      StatementsOk(t);
      EmptyWritable();
      RunWritable(map[], Parse(t).stmts);
    }
  }

  lemma EmptyWritable()
    ensures WritableMap(map[])
  {
  }
}
