/** Which values a quoted assignment can carry, and the text that loads back to a given map. */
module ConfigRoundTrip {
  import opened Machine
  import opened PrefixCopy
  import opened ConfigGrammar

  /** Byte `j` ends no line, and is a quote only behind a backslash. */
  predicate Harmless(t: string, v: nat, j: nat)
    requires v <= j < |t|
  {
    t[j] != '\n' && t[j] != NUL && (t[j] == '"' ==> v < j && t[j - 1] == '\\')
  }

  /** No line ends, every quote has a backslash right before it, the last byte is not a backslash. */
  predicate Storable(s: string) {
    && (forall j :: 0 <= j < |s| ==> Harmless(s, 0, j))
    && (s != [] ==> s[|s| - 1] != '\\')
  }

  predicate ValidKey(k: string) {
    0 < |k| <= KEY_MAX && forall j :: 0 <= j < |k| ==> IsKeyChar(k[j])
  }

  // ----- the closing quote -----

  /** At `i` the scan is not behind a backslash that would hide a quote. */
  predicate Aligned(t: string, v: nat, i: nat)
    requires v <= i <= |t|
  {
    i < |t| && t[i] == '"' && i > v ==> t[i - 1] != '\\'
  }

  lemma {:induction false} QuoteEndFound(t: string, v: nat, i: nat, e: nat)
    requires v <= i <= e < |t| && t[e] == '"' && Aligned(t, v, i)
    requires Storable(t[v..e])
    ensures QuoteEnd(t, i) == e
    decreases e - i
  {
    if i < e {
      assert t[v..e][i - v] == t[i] && Harmless(t[v..e], 0, i - v);
      assert t[v..e][|t[v..e]| - 1] == t[e - 1];
      assert i > v ==> t[v..e][i - v - 1] == t[i - 1];
      if t[i] == '\\' && t[i + 1] == '"' {
        QuoteEndFound(t, v, i + 2, e);
      } else {
        QuoteEndFound(t, v, i + 1, e);
      }
    }
  }

  ghost predicate QuotesHidden(t: string, v: nat, i: nat)
    requires v <= i <= |t|
  {
    forall j :: v <= j < i ==> Harmless(t, v, j)
  }

  lemma {:induction false} QuoteEndStorable(t: string, v: nat, i: nat)
    requires v <= i <= |t| && Aligned(t, v, i) && QuotesHidden(t, v, i)
    requires forall j :: v <= j < |t| ==> t[j] != NUL
    ensures var e := QuoteEnd(t, i); e < |t| && t[e] == '"' ==> Storable(t[v..e])
    decreases |t| - i
  {
    if i < |t| {
      if t[i] == '\\' && i + 1 < |t| && t[i + 1] == '"' {
        assert Harmless(t, v, i) && Harmless(t, v, i + 1);
        QuoteEndStorable(t, v, i + 2);
      } else if t[i] != '"' && t[i] != '\n' {
        assert Harmless(t, v, i);
        QuoteEndStorable(t, v, i + 1);
      } else if t[i] == '"' {
        HiddenStorable(t, v, i);
      }
    }
  }

  lemma HiddenStorable(t: string, v: nat, e: nat)
    requires v <= e < |t| && QuotesHidden(t, v, e) && (e > v ==> t[e - 1] != '\\')
    ensures Storable(t[v..e])
  {
    var s := t[v..e];
    forall j | 0 <= j < |s| ensures Harmless(s, 0, j) {
      assert s[j] == t[v + j] && Harmless(t, v, v + j);
      if j > 0 { assert s[j - 1] == t[v + j - 1]; }
    }
  }

  /** A quoted value read from a NUL-free text is in the storable class. */
  lemma QuotedIsStorable(t: string, v: nat)
    requires v <= |t| && forall j :: 0 <= j < |t| ==> t[j] != NUL
    ensures var e := QuoteEnd(t, v); e < |t| && t[e] == '"' ==> Storable(t[v..e])
  {
    QuoteEndStorable(t, v, v);
  }

  // ----- one assignment -----

  /** `key "value";` and a line end. */
  function Line(key: string, value: string): string { key + " \"" + value + "\";\n" }

  lemma {:induction false} FindIs(t: string, i: nat, stop: Stop, j: nat)
    requires i <= j < |t| && stop.At(t[j]) && forall k :: i <= k < j ==> !stop.At(t[k])
    ensures Find(t, i, stop) == j
    decreases j - i
  {
    if i < j { FindIs(t, i + 1, stop, j); }
  }

  lemma KeyEnds(t: string, i: nat, key: string)
    requires ValidKey(key) && i + |key| < |t| && t[i..i + |key|] == key && t[i + |key|] == ' '
    ensures IsKeyChar(t[i]) && Find(t, i + 1, NotKey) == i + |key|
  {
    var k := i + |key|;
    forall j | i <= j < k ensures IsKeyChar(t[j]) {
      assert t[j] == t[i..k][j - i];
    }
    FindIs(t, i + 1, NotKey, k);
  }

  lemma KeyRead(t: string, i: nat, key: string, line: nat)
    requires ValidKey(key) && i + |key| < |t| && t[i..i + |key|] == key && t[i + |key|] == ' '
    requires Find(t, i + 1, NotKey) == i + |key|
    ensures ParseKey(t, i, i + 1, line) == ParseOperand(t, key, i + |key| + 1, line)
  {
    hide Find, ParseOperand, ParseComment, ParseFrom;
  }

  /** Reading the text of a statement at `i` up to the blank behind its key. */
  lemma OpensOperand(t: string, i: nat, key: string, line: nat)
    requires ValidKey(key) && i + |key| < |t| && t[i..i + |key|] == key && t[i + |key|] == ' '
    ensures ParseFrom(t, i, line) == ParseOperand(t, key, i + |key| + 1, line)
  {
    hide Find, ParseOperand, ParseComment, ParseKey;
    KeyEnds(t, i, key);
    KeyRead(t, i, key, line);
  }

  /** And up to an opening quote. */
  lemma OpensQuote(t: string, i: nat, key: string, line: nat)
    requires ValidKey(key) && i + |key| + 2 <= |t|
    requires t[i..i + |key|] == key && t[i + |key|] == ' ' && t[i + |key| + 1] == '"'
    ensures var v := i + |key| + 2; ParseFrom(t, i, line) == ParseQuoted(t, key, v, v, line)
  {
    hide ParseFrom, ParseQuoted, ParseBare, ParseCopy;
    OpensOperand(t, i, key, line);
    FindIs(t, i + |key| + 1, NotBlank, i + |key| + 1);
  }

  /** The line of a storable value is read as its assignment, and reading goes on behind it. */
  lemma LineRead(t: string, i: nat, key: string, value: string, line: nat)
    requires ValidKey(key) && Storable(value) && i + |Line(key, value)| <= |t|
    requires t[i..i + |Line(key, value)|] == Line(key, value)
    ensures ParseFrom(t, i, line) == ParseFrom(t, i + |Line(key, value)|, line + 1).Prepend(Set(key, value))
  {
    hide ParseFrom, ParseQuoted, ParseTail, QuoteEnd, Find, Storable;
    var text := Line(key, value);
    var k := i + |key|;
    var v := k + 2;
    var e := v + |value|;
    LineShape(t, i, key, value);
    OpensQuote(t, i, key, line);
    QuoteEndFound(t, v, v, e);
    FindIs(t, e + 1, ValueEnd, e + 1);
    LineEndRead(t, key, v, e, line);
  }

  lemma LineEndRead(t: string, key: string, v: nat, e: nat, line: nat)
    requires v <= e && e + 3 <= |t| && t[e] == '"' && t[e + 1] == ';' && t[e + 2] == '\n'
    requires QuoteEnd(t, v) == e && Find(t, e + 1, ValueEnd) == e + 1
    ensures ParseQuoted(t, key, v, v, line) == ParseFrom(t, e + 3, line + 1).Prepend(Set(key, t[v..e]))
  {
    hide QuoteEnd, Find;
    assert ParseFrom(t, e + 2, line) == ParseFrom(t, e + 3, line + 1);
  }

  /** An assignment written on a line is read back as itself exactly when the value is storable. */
  lemma LineExact(key: string, value: string)
    requires ValidKey(key) && forall j :: 0 <= j < |value| ==> value[j] != NUL
    ensures Storable(value) <==> [Set(key, value)] <= Parse(Line(key, value)).stmts
  {
    hide Storable, ValidKey, ParseFrom, ParseTail, QuoteEnd, Line;
    var t := Line(key, value);
    var v := |key| + 2;
    assert t[0..|t|] == t;
    LineShape(t, 0, key, value);
    OpensQuote(t, 0, key, 1);
    if Storable(value) {
      LineRead(t, 0, key, value, 1);
    }
    LineNoNul(key, value);
    QuotedIsStorable(t, v);
    QuotedFirst(t, key, v, 1);
  }

  lemma QuotedFirst(t: string, key: string, v: nat, line: nat)
    requires v <= |t|
    ensures var p, e := ParseQuoted(t, key, v, v, line), QuoteEnd(t, v);
      p.stmts != [] ==> e < |t| && t[e] == '"' && p.stmts[0] == Set(key, t[v..e])
  {
    hide QuoteEnd, ParseTail;
  }

  lemma LineNoNul(key: string, value: string)
    requires ValidKey(key) && forall j :: 0 <= j < |value| ==> value[j] != NUL
    ensures forall j :: 0 <= j < |Line(key, value)| ==> Line(key, value)[j] != NUL
  {
    forall j | 0 <= j < |key| ensures key[j] != NUL { assert IsKeyChar(key[j]); }
  }

  lemma LineShape(t: string, i: nat, key: string, value: string)
    requires i + |Line(key, value)| <= |t| && t[i..i + |Line(key, value)|] == Line(key, value)
    ensures |Line(key, value)| == |key| + |value| + 5
    ensures var k := i + |key|; var e := k + 2 + |value|;
      && t[i..k] == key && t[k] == ' ' && t[k + 1] == '"' && t[k + 2..e] == value
      && t[e] == '"' && t[e + 1] == ';' && t[e + 2] == '\n'
  {
    var text := Line(key, value);
    assert forall j :: 0 <= j < |text| ==> t[i + j] == text[j];
    assert text[..|key|] == key && text[|key| + 2..|key| + 2 + |value|] == value;
  }

  // ----- bare values -----

  /** `key value;` and a line end. */
  function BareLine(key: string, value: string): string { key + " " + value + ";\n" }

  /** A byte behind the blanks that starts a bare value. */
  predicate StartsBare(c: char) { !IsBlank(c) && c != '"' && c != '@' && c != '\r' && c != '\n' }

  /** A first byte that opens nothing else, and no end of a value behind it. */
  predicate BareStorable(s: string) {
    && s != [] && StartsBare(s[0]) && NUL !in s
    && forall j :: 0 < j < |s| ==> !ValueEnd.At(s[j])
  }

  /** An operand from `o` on, with a semicolon at `f` and a line end behind it. */
  lemma BareRead(t: string, key: string, o: nat, f: nat, line: nat)
    requires o <= f && f + 2 <= |t| && t[f] == ';' && t[f + 1] == '\n' && BareStorable(t[o..f])
    ensures ParseOperand(t, key, o, line) == ParseFrom(t, f + 2, line + 1).Prepend(Set(key, t[o..f]))
  {
    hide ParseQuoted, ParseCopy;
    var s := t[o..f];
    assert s[0] == t[o];
    FindIs(t, o, NotBlank, o);
    forall j | o < j < f ensures !ValueEnd.At(t[j]) { assert t[j] == s[j - o]; }
    FindIs(t, o + 1, ValueEnd, f);
    assert ParseFrom(t, f + 1, line) == ParseFrom(t, f + 2, line + 1);
  }

  /** Where the value of an assignment comes from: it was bare, or it stood between quotes. */
  lemma ValueFrom(t: string, key: string, o: nat, line: nat)
    requires o <= |t|
    requires var p := ParseOperand(t, key, o, line); p.stmts != [] && p.stmts[0].Set?
    ensures var v, s := Find(t, o, NotBlank), ParseOperand(t, key, o, line).stmts[0];
      && v < |t|
      && if t[v] == '"'
         then var e := QuoteEnd(t, v + 1); e < |t| && t[e] == '"' && s == Set(key, t[v + 1..e])
         else
           && t[v] != '@' && t[v] != '\r' && t[v] != '\n'
           && var e := Find(t, v + 1, ValueEnd); e < |t| && t[e] == ';' && s == Set(key, t[v..e])
  {
    hide ParseFrom, ParseTail, QuoteEnd, Find;
  }

  /** What stands between a quote and a quote before `f` is shorter than what stands before `f`. */
  lemma SliceShorter(t: string, v: nat, e: nat, o: nat, f: nat)
    requires o <= v < e <= |t| == f + 2 && o <= f && t[f] == ';' && t[f + 1] == '\n'
    ensures e < |t| && t[e] == '"' ==> t[v + 1..e] != t[o..f]
  {
    assert |t[v + 1..e]| == e - v - 1 && |t[o..f]| == f - o;
  }

  /** A slice that starts no earlier and ends no later than an equal one is that one. */
  lemma SliceWhole(t: string, i: nat, j: nat, o: nat, f: nat)
    requires o <= i <= j <= |t| && o <= f <= |t|
    ensures t[i..j] == t[o..f] && j <= f ==> i == o && j == f
  {
    assert |t[i..j]| == j - i && |t[o..f]| == f - o;
  }

  /** If such an operand is stored whole, it was a bare value. */
  lemma BareOnly(t: string, key: string, o: nat, f: nat, line: nat)
    requires o <= f && |t| == f + 2 && t[f] == ';' && t[f + 1] == '\n' && NUL !in t[o..f]
    requires var p := ParseOperand(t, key, o, line); p.stmts != [] && p.stmts[0] == Set(key, t[o..f])
    ensures BareStorable(t[o..f])
  {
    hide ParseOperand, QuoteEnd, Find;
    ValueFrom(t, key, o, line);
    var v := Find(t, o, NotBlank);
    StopsBy(t, o, NotBlank, f);
    StopsBy(t, v + 1, ValueEnd, if v < f then f else f + 1);
    var e := Find(t, v + 1, ValueEnd);
    SliceShorter(t, v, QuoteEnd(t, v + 1), o, f);
    SliceWhole(t, v, e, o, f);
    assert t[v] != '"' && v == o < f && e == f;
    assert t[o..f][0] == t[o];
    forall j | 0 < j < f - o ensures !ValueEnd.At(t[o..f][j]) {
      assert t[o..f][j] == t[o + j];
      assert !ValueEnd.At(t[o + j]);
    }
  }

  lemma StopsBy(t: string, i: nat, stop: Stop, j: nat)
    requires i <= j < |t| && stop.At(t[j])
    ensures Find(t, i, stop) <= j
  {
  }

  lemma BareShape(t: string, i: nat, key: string, value: string)
    requires i + |BareLine(key, value)| <= |t| && t[i..i + |BareLine(key, value)|] == BareLine(key, value)
    ensures |BareLine(key, value)| == |key| + |value| + 3
    ensures var k := i + |key|; var f := k + 1 + |value|;
      t[i..k] == key && t[k] == ' ' && t[k + 1..f] == value && t[f] == ';' && t[f + 1] == '\n'
  {
    var text := BareLine(key, value);
    assert forall j :: 0 <= j < |text| ==> t[i + j] == text[j];
    assert text[..|key|] == key && text[|key| + 1..|key| + 1 + |value|] == value;
  }

  /** The line of a bare value is read as its assignment, and reading goes on behind it. */
  lemma BareLineRead(t: string, i: nat, key: string, value: string, line: nat)
    requires ValidKey(key) && BareStorable(value) && i + |BareLine(key, value)| <= |t|
    requires t[i..i + |BareLine(key, value)|] == BareLine(key, value)
    ensures ParseFrom(t, i, line)
         == ParseFrom(t, i + |BareLine(key, value)|, line + 1).Prepend(Set(key, value))
  {
    hide ParseFrom, ParseOperand, BareStorable, ValidKey, BareLine;
    BareShape(t, i, key, value);
    OpensOperand(t, i, key, line);
    BareRead(t, key, i + |key| + 1, i + |key| + 1 + |value|, line);
  }

  /** A bare assignment written on a line is read back as itself exactly when the value is of that form. */
  lemma BareExact(key: string, value: string)
    requires ValidKey(key) && NUL !in value
    ensures BareStorable(value) <==> [Set(key, value)] <= Parse(BareLine(key, value)).stmts
    ensures BareStorable(value) ==> Parse(BareLine(key, value)) == Parsed([Set(key, value)], Between)
  {
    hide BareStorable, ValidKey, ParseFrom, ParseOperand, BareLine;
    var t := BareLine(key, value);
    assert t[0..|t|] == t;
    BareShape(t, 0, key, value);
    OpensOperand(t, 0, key, 1);
    if BareStorable(value) {
      BareLineRead(t, 0, key, value, 1);
      AtEnd(t, 2);
    }
    if [Set(key, value)] <= Parse(t).stmts {
      assert Parse(t).stmts[0] == Set(key, value);
      BareOnly(t, key, |key| + 1, |key| + 1 + |value|, 1);
    }
  }

  /** A semicolon right behind the blank is a value. */
  lemma SemicolonStored()
    ensures Parse("k ;;") == Parsed([Set("k", ";")], Between)
  {
    var t := "k ;;";
    assert t[0..1] == "k" && t[2..3] == ";";
    OpensOperand(t, 0, "k", 1);
    hide ParseQuoted, ParseCopy, ParseKey;
    FindIs(t, 2, NotBlank, 2);
    FindIs(t, 3, ValueEnd, 3);
    AtEnd(t, 1);
  }

  // ----- keys and source prefixes -----

  /** `n` characters in a row of the table. */
  function Span(first: char, n: nat): string
    requires first as int + n <= 128
  {
    if n == 0 then [] else Span(first, n - 1) + [(first as int + n - 1) as char]
  }

  lemma {:induction false} SpanMember(first: char, n: nat, c: char)
    requires first as int + n <= 128
    ensures c in Span(first, n) <==> first as int <= c as int < first as int + n
  {
    if n > 0 {
      SpanMember(first, n - 1, c);
      assert (first as int + n - 1) as char == c <==> c as int == first as int + n - 1;
    }
  }

  /** The table of key characters: 64 of 256. */
  lemma KeyCharsExactly(c: char)
    ensures IsKeyChar(c) <==> c in "._" + Span('0', 10) + Span('A', 26) + Span('a', 26)
  {
    hide Span;
    SpanMember('0', 10, c);
    SpanMember('A', 26, c);
    SpanMember('a', 26, c);
    assert c in "._" <==> c == '.' || c == '_';
  }

  /** A key of key characters is accepted exactly up to 64 of them; the error of a longer one is found behind it. */
  lemma KeyLimitExactly(key: string, value: string)
    requires key != "" && (forall j :: 0 <= j < |key| ==> IsKeyChar(key[j])) && Storable(value)
    ensures [Set(key, value)] <= Parse(Line(key, value)).stmts <==> |key| <= 64
    ensures |key| > 64 ==> Parse(Line(key, value)) == Parsed([], Bad(1, |key|))
  {
    hide Storable, ParseOperand;
    var t := Line(key, value);
    if |key| <= 64 {
      StorableNoNul(value);
      LineExact(key, value);
    } else {
      assert t[0..|t|] == t;
      LineShape(t, 0, key, value);
      forall j | 0 <= j < |key| ensures IsKeyChar(t[j]) { assert t[j] == t[0..|key|][j]; }
      FindIs(t, 1, NotKey, |key|);
      KeyTooLong(t, |key|);
      assert Parse(t).stmts == [];
    }
  }

  lemma KeyTooLong(t: string, k: nat)
    requires KEY_MAX < k < |t| && IsKeyChar(t[0]) && Find(t, 1, NotKey) == k && t[k] == ' '
    ensures Parse(t) == Parsed([], Bad(1, k))
  {
    hide Find, ParseOperand, ParseComment;
    assert ParseKey(t, 0, 1, 1) == Parsed([], Bad(1, k));
  }

  lemma StorableNoNul(s: string)
    requires Storable(s)
    ensures forall j :: 0 <= j < |s| ==> s[j] != NUL
  {
    forall j | 0 <= j < |s| ensures s[j] != NUL { assert Harmless(s, 0, j); }
  }

  /** So is a source prefix, exactly up to 64 bytes. */
  lemma SourceLimitExactly(key: string, src: string)
    requires ValidKey(key) && forall j :: 0 <= j < |src| ==> !ValueEnd.At(src[j])
    ensures Parse(key + " @" + src + ";") ==
      if |src| <= 64 then Parsed([Copy(key, src)], Between) else Parsed([], Bad(1, |key| + 2 + |src|))
  {
    var t := key + " @" + src + ";";
    var v := |key| + 2;
    var e := v + |src|;
    assert t[0..|key|] == key && t[|key|] == ' ' && t[|key| + 1] == '@' && t[e] == ';' && |t| == e + 1;
    assert t[v..e] == src;
    SourceRead(t, key, v, e);
  }

  lemma SourceRead(t: string, key: string, v: nat, e: nat)
    requires ValidKey(key) && v == |key| + 2 <= e && |t| == e + 1
    requires t[0..|key|] == key && t[|key|] == ' ' && t[|key| + 1] == '@' && t[e] == ';'
    requires forall j :: 0 <= j < e - v ==> !ValueEnd.At(t[v..e][j])
    ensures Parse(t) == if e - v <= KEY_MAX then Parsed([Copy(key, t[v..e])], Between) else Parsed([], Bad(1, e))
  {
    hide ParseFrom, ParseQuoted, ParseBare, ValidKey;
    OpensOperand(t, 0, key, 1);
    FindIs(t, |key| + 1, NotBlank, |key| + 1);
    forall j | v <= j < e ensures !ValueEnd.At(t[j]) { assert t[j] == t[v..e][j - v]; }
    FindIs(t, v, ValueEnd, e);
    AtEnd(t, 1);
  }

  // ----- whole maps -----

  datatype Entry = Entry(key: string, value: string)

  /** Between quotes if that is possible, else bare. */
  function EntryLine(e: Entry): string {
    if Storable(e.value) then Line(e.key, e.value) else BareLine(e.key, e.value)
  }

  function Text(es: seq<Entry>): string {
    if es == [] then "" else EntryLine(es[0]) + Text(es[1..])
  }

  function Assignments(es: seq<Entry>): seq<Stmt> {
    if es == [] then [] else [Set(es[0].key, es[0].value)] + Assignments(es[1..])
  }

  /** Some assignment can store the value. */
  predicate Writable(value: string) { Storable(value) || BareStorable(value) }

  predicate AllWritable(es: seq<Entry>) {
    forall e :: e in es ==> ValidKey(e.key) && Writable(e.value)
  }

  lemma EntryRead(t: string, i: nat, e: Entry, line: nat)
    requires ValidKey(e.key) && Writable(e.value) && i + |EntryLine(e)| <= |t|
    requires t[i..i + |EntryLine(e)|] == EntryLine(e)
    ensures ParseFrom(t, i, line) == ParseFrom(t, i + |EntryLine(e)|, line + 1).Prepend(Set(e.key, e.value))
  {
    hide ParseFrom, Line, BareLine, Storable, BareStorable, ValidKey;
    if Storable(e.value) {
      LineRead(t, i, e.key, e.value, line);
    } else {
      BareLineRead(t, i, e.key, e.value, line);
    }
  }

  lemma EntryNoNul(e: Entry)
    requires ValidKey(e.key) && Writable(e.value)
    ensures NUL !in EntryLine(e)
  {
    if Storable(e.value) {
      forall j | 0 <= j < |e.value| ensures e.value[j] != NUL { assert Harmless(e.value, 0, j); }
    }
    forall j | 0 <= j < |e.key| ensures e.key[j] != NUL { assert IsKeyChar(e.key[j]); }
  }

  lemma {:induction false} TextNoNul(es: seq<Entry>)
    requires AllWritable(es)
    ensures NUL !in Text(es)
  {
    hide EntryLine, ValidKey, Writable;
    if es != [] {
      assert es[0] in es;
      EntryNoNul(es[0]);
      TextNoNul(es[1..]);
    }
  }

  lemma AtEnd(t: string, line: nat)
    ensures ParseFrom(t, |t|, line) == Parsed([], Between)
  {
  }

  lemma TextSplit(t: string, i: nat, head: string, rest: string)
    requires i <= |t| && t[i..] == head + rest
    ensures i + |head| <= |t| && t[i..i + |head|] == head && t[i + |head|..] == rest
  {
    assert t[i..][..|head|] == head && t[i..][|head|..] == rest;
    assert t[i..i + |head|] == t[i..][..|head|] && t[i + |head|..] == t[i..][|head|..];
  }

  lemma {:induction false} TextRead(t: string, i: nat, es: seq<Entry>, line: nat)
    requires AllWritable(es) && i <= |t| && t[i..] == Text(es)
    ensures ParseFrom(t, i, line) == Parsed(Assignments(es), Between)
    decreases |es|
  {
    hide ParseFrom, EntryLine, Writable, ValidKey;
    if es == [] {
      AtEnd(t, line);
    } else {
      var head := EntryLine(es[0]);
      assert es[0] in es;
      TextSplit(t, i, head, Text(es[1..]));
      EntryRead(t, i, es[0], line);
      TextRead(t, i + |head|, es[1..], line + 1);
    }
  }

  /** `es` lists the map, each key once. */
  ghost predicate Lists(es: seq<Entry>, m: Entries) {
    && (forall e :: e in es ==> e.key in m && m[e.key] == e.value)
    && (forall k :: k in m ==> Entry(k, m[k]) in es)
  }

  lemma {:induction false} RunAssignments(m: Entries, es: seq<Entry>, goal: Entries)
    requires forall e :: e in es ==> e.key in goal && goal[e.key] == e.value
    requires forall k :: k in m ==> k in goal && goal[k] == m[k]
    requires forall k :: k in goal ==> k in m || Entry(k, goal[k]) in es
    ensures AllFit(m, Assignments(es)) && Run(m, Assignments(es)) == goal
    decreases |es|
  {
    if es == [] {
      assert m == goal;
    } else {
      assert es[0] in es;
      assert es == [es[0]] + es[1..];
      var m' := m[es[0].key := es[0].value];
      forall k | k in goal ensures k in m' || Entry(k, goal[k]) in es[1..] {
      }
      RunAssignments(m', es[1..], goal);
    }
  }

  lemma {:induction false} Listing(m: Entries) returns (es: seq<Entry>)
    ensures Lists(es, m) && |es| == |m|
    decreases |m|
  {
    if m == map[] {
      es := [];
    } else {
      var k :| k in m;
      var rest := m - {k};
      assert m.Keys == rest.Keys + {k};
      var tail := Listing(rest);
      es := [Entry(k, m[k])] + tail;
      forall l | l in m ensures Entry(l, m[l]) in es {
        if l != k { assert Entry(l, rest[l]) in tail; }
      }
    }
  }

  /** Writing any map of valid keys and writable values, one assignment a line in any order, and
      loading the text gives back that map. */
  lemma RoundTrip(m: Entries, es: seq<Entry>)
    requires Lists(es, m) && AllWritable(es)
    ensures NUL !in Text(es)
    ensures var p := Parse(Text(es)); p.end.Between? && AllFit(map[], p.stmts) && Run(map[], p.stmts) == m
  {
    hide Writable, ValidKey, EntryLine;
    assert Text(es)[0..] == Text(es);
    TextNoNul(es);
    TextRead(Text(es), 0, es, 1);
    RunAssignments(map[], es, m);
  }

  ghost predicate WritableMap(m: Entries) {
    forall k :: k in m ==> ValidKey(k) && Writable(m[k])
  }

  /** Every map of valid keys and writable values is what some text loads to. */
  lemma EveryMapHasAText(m: Entries) returns (t: string)
    requires WritableMap(m)
    ensures NUL !in t
    ensures var p := Parse(t); p.end.Between? && AllFit(map[], p.stmts) && Run(map[], p.stmts) == m
  {
    hide Parse, AllFit, Run, Writable, ValidKey, Text;
    var es := Listing(m);
    RoundTrip(m, es);
    t := Text(es);
  }
}
