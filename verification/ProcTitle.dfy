/** proc.c: the byte area of `argv` and `environ`, which becomes the process title. */
module ProcTitle {
  import opened Machine

  function StringRange(a: nat, s: string): Range { Range(a, |s| + 1) }

  // ----- the area -----

  /** One of the two loops of `proc_init`: whenever the next string starts where the area ends, the area takes it in. */
  function Sweep(last: nat, ptrs: seq<nat>, strs: seq<string>): (r: nat)
    requires |ptrs| == |strs|
    ensures r >= last
    decreases |ptrs|
  {
    if ptrs == [] then last
    else Sweep(if last == ptrs[0] then last + |strs[0]| + 1 else last, ptrs[1..], strs[1..])
  }

  /** The area from `a` on that the strings cover, end excluded. */
  function AreaEnd(a: nat, argv: seq<nat>, args: seq<string>, env: seq<nat>, envs: seq<string>): (r: nat)
    requires |argv| == |args| && |env| == |envs|
    ensures r >= a
  {
    Sweep(Sweep(a, argv, args), env, envs)
  }

  lemma AreaInTwo(a: nat, argv: seq<nat>, args: seq<string>, env: seq<nat>, envs: seq<string>)
    requires |argv| == |args| && |env| == |envs|
    ensures AreaEnd(a, argv, args, env, envs) == Sweep(Sweep(a, argv, args), env, envs)
  {
  }

  /** A non-empty range apart from two adjacent ranges is apart from the two as one. */
  lemma ApartFromBoth(r: Range, a: nat, b: nat, c: nat)
    requires r.size > 0 && a <= b <= c && (a < b || b < c)
    requires Apart(r, Range(a, b - a)) && Apart(r, Range(b, c - b))
    ensures Apart(r, Range(a, c - a))
  {
  }

  lemma {:induction false} SweepLast(last: nat, ptrs: seq<nat>, strs: seq<string>, p: nat, s: string)
    requires |ptrs| == |strs|
    ensures Sweep(last, ptrs + [p], strs + [s])
         == (var l := Sweep(last, ptrs, strs); if l == p then l + |s| + 1 else l)
    decreases |ptrs|
  {
    if ptrs == [] {
      assert ([p] + ptrs)[1..] == [] && (ptrs + [p])[1..] == [];
      assert Sweep(last, ptrs + [p], strs + [s]) == Sweep(if last == p then last + |s| + 1 else last, [], []);
    } else {
      assert (ptrs + [p])[1..] == ptrs[1..] + [p] && (strs + [s])[1..] == strs[1..] + [s];
      SweepLast(if last == ptrs[0] then last + |strs[0]| + 1 else last, ptrs[1..], strs[1..], p, s);
    }
  }

  /** The strings of a process as the kernel lays them out: apart from one another, in memory that is in use. */
  ghost predicate Laid(mem: Memory, live: Live, ptrs: seq<nat>, strs: seq<string>) {
    && |ptrs| == |strs|
    && (forall i :: 0 <= i < |ptrs| ==>
         ptrs[i] != 0 && HoldsString(mem, ptrs[i], strs[i]) && Backed(live, StringRange(ptrs[i], strs[i])))
    && (forall i, j :: 0 <= i < j < |ptrs| ==> Apart(StringRange(ptrs[i], strs[i]), StringRange(ptrs[j], strs[j])))
  }

  /** No argument shares a byte with a string of the environment. */
  ghost predicate Across(argv: seq<nat>, args: seq<string>, env: seq<nat>, envs: seq<string>) {
    && |argv| == |args| && |env| == |envs|
    && forall i, j :: 0 <= i < |args| && 0 <= j < |envs| ==>
         Apart(StringRange(argv[i], args[i]), StringRange(env[j], envs[j]))
  }

  function TotalSize(strs: seq<string>): nat {
    if strs == [] then 0 else TotalSize(strs[..|strs| - 1]) + |strs[|strs| - 1]| + 1
  }

  /** String `k` starts just where the area has come to. */
  predicate Absorbed(last: nat, ptrs: seq<nat>, strs: seq<string>, k: nat)
    requires k < |ptrs| == |strs|
  {
    Sweep(last, ptrs[..k], strs[..k]) == ptrs[k]
  }

  /** The bytes of the absorbed strings before `k`. */
  function Offset(last: nat, ptrs: seq<nat>, strs: seq<string>, k: nat): nat
    requires k <= |ptrs| == |strs|
  {
    if k == 0 then 0
    else Offset(last, ptrs, strs, k - 1) + if Absorbed(last, ptrs, strs, k - 1) then |strs[k - 1]| + 1 else 0
  }

  lemma SweepNext(last: nat, ptrs: seq<nat>, strs: seq<string>, k: nat)
    requires k < |ptrs| == |strs|
    ensures Sweep(last, ptrs[..k + 1], strs[..k + 1])
         == if Absorbed(last, ptrs, strs, k) then ptrs[k] + |strs[k]| + 1 else Sweep(last, ptrs[..k], strs[..k])
  {
    SweepLast(last, ptrs[..k], strs[..k], ptrs[k], strs[k]);
    assert ptrs[..k + 1] == ptrs[..k] + [ptrs[k]] && strs[..k + 1] == strs[..k] + [strs[k]];
  }

  lemma {:induction false} OffsetFits(last: nat, ptrs: seq<nat>, strs: seq<string>, k: nat)
    requires k <= |ptrs| == |strs|
    ensures Offset(last, ptrs, strs, k) <= TotalSize(strs[..k])
  {
    if k > 0 {
      OffsetFits(last, ptrs, strs, k - 1);
      assert strs[..k][..k - 1] == strs[..k - 1];
    }
  }

  lemma {:induction false} TotalMonotone(strs: seq<string>, k: nat)
    requires k <= |strs|
    ensures TotalSize(strs[..k]) <= TotalSize(strs)
    decreases |strs|
  {
    if k < |strs| {
      TotalMonotone(strs[..|strs| - 1], k);
      assert strs[..|strs| - 1][..k] == strs[..k];
    } else {
      assert strs[..k] == strs;
    }
  }

  /** A range apart from every string that is absorbed is apart from the area. */
  lemma {:induction false} AreaApart(r: Range, a: nat, last: nat, ptrs: seq<nat>, strs: seq<string>, k: nat)
    requires k <= |ptrs| == |strs| && r.size > 0 && a <= last && Apart(r, Range(a, last - a))
    requires forall i :: 0 <= i < k ==> Absorbed(last, ptrs, strs, i) ==> Apart(r, StringRange(ptrs[i], strs[i]))
    ensures Apart(r, Range(a, Sweep(last, ptrs[..k], strs[..k]) - a))
    decreases k
  {
    if k > 0 {
      AreaApart(r, a, last, ptrs, strs, k - 1);
      SweepNext(last, ptrs, strs, k - 1);
      if Absorbed(last, ptrs, strs, k - 1) {
        ApartFromBoth(r, a, ptrs[k - 1], ptrs[k - 1] + |strs[k - 1]| + 1);
      }
    }
  }

  // ----- the title -----

  /** What a title shows as when the area has `room` bytes before its last one. A title longer than the
      room is cut one byte shorter than a title that just fits. */
  function Shown(title: string, room: nat): string {
    if |title| <= room then title else if room == 0 then "" else title[..room - 1]
  }

  /** Memory after `proc_set_title` on the area from `a` to its last byte `a + room`. */
  function Titled(mem: Memory, a: nat, room: nat, title: string): Memory {
    var s := Shown(title, room);
    (x: nat) => if a <= x < a + |s| then s[x - a] else if a <= x < a + room then NUL else mem(x)
  }

  function TitledAll(mem: Memory, a: nat, room: nat, titles: seq<string>): Memory
    decreases |titles|
  {
    if titles == [] then mem else Titled(TitledAll(mem, a, room, titles[..|titles| - 1]), a, room, titles[|titles| - 1])
  }

  lemma TitledReads(mem: Memory, a: nat, room: nat, title: string)
    requires mem(a + room) == NUL && NUL !in title
    ensures var mem' := Titled(mem, a, room, title);
      HoldsString(mem', a, Shown(title, room)) && mem'(a + room) == NUL
  {
  }

  lemma TitledKeeps(mem: Memory, a: nat, room: nat, title: string, p: nat, s: string)
    requires HoldsString(mem, p, s) && Apart(StringRange(p, s), Range(a, room + 1))
    ensures HoldsString(Titled(mem, a, room, title), p, s)
  {
    forall i | 0 <= i < |s| ensures Titled(mem, a, room, title)(p + i) == s[i] {
      assert mem(p + i) == s[i];
    }
  }

  /** After any number of titles the area reads as the last one and ends in NUL, and every string outside it is as it
      was. */
  lemma {:induction false} TitlesOverRuns(mem: Memory, a: nat, room: nat, titles: seq<string>, p: nat, s: string)
    requires mem(a + room) == NUL && forall t :: t in titles ==> NUL !in t
    requires HoldsString(mem, p, s) && Apart(StringRange(p, s), Range(a, room + 1))
    ensures var m := TitledAll(mem, a, room, titles);
      && m(a + room) == NUL && HoldsString(m, p, s)
      && (titles != [] ==> HoldsString(m, a, Shown(titles[|titles| - 1], room)))
    decreases |titles|
  {
    if titles != [] {
      var before, title := titles[..|titles| - 1], titles[|titles| - 1];
      TitlesOverRuns(mem, a, room, before, p, s);
      var m := TitledAll(mem, a, room, before);
      TitledReads(m, a, room, title);
      TitledKeeps(m, a, room, title, p, s);
    }
  }

  lemma SameBytes(mem: Memory, mem': Memory, p: nat, s: string)
    requires HoldsString(mem, p, s) && forall x: nat :: p <= x <= p + |s| ==> mem'(x) == mem(x)
    ensures HoldsString(mem', p, s)
  {
    forall i | 0 <= i < |s| ensures mem'(p + i) == s[i] {
      assert mem(p + i) == s[i];
    }
  }

  /** As much of a title as there is room for. */
  function Fitting(title: string, room: nat): string { if |title| <= room then title else title[..room] }

  /** The area shows as much of a title as there is room for exactly when the whole title fits; of a longer one it
      shows a byte less. */
  lemma ShownExactly(mem: Memory, a: nat, room: nat, title: string)
    requires mem(a + room) == NUL && NUL !in title && room > 0
    ensures HoldsString(Titled(mem, a, room, title), a, Fitting(title, room)) <==> |title| <= room
    ensures |title| > room ==> HoldsString(Titled(mem, a, room, title), a, title[..room - 1])
  {
    var mem' := Titled(mem, a, room, title);
    TitledReads(mem, a, room, title);
    if HoldsString(mem', a, Fitting(title, room)) {
      StringUnique(mem', a, Fitting(title, room), Shown(title, room));
    }
  }

  // ----- the process -----

  class Process {
    const heap: Heap
    var argv: seq<nat>      // with its terminating NULL
    var environ: seq<nat>   // with its terminating NULL
    var last: nat           // `proc_last`

    constructor (heap: Heap, argv: seq<nat>, environ: seq<nat>)
      ensures this.heap == heap && this.argv == argv && this.environ == environ
    {
      this.heap, this.argv, this.environ, this.last := heap, argv, environ, 0;
    }

    /** `strlen`. */
    method Length(a: nat, ghost s: string) returns (n: nat)
      requires HoldsString(heap.mem, a, s)
      ensures n == |s|
    {
      n := 0;
      while heap.mem(a + n) != NUL
        invariant n <= |s|
        decreases |s| - n
      {
        n := n + 1;
      }
      if n < |s| { NoTerminatorInside(heap.mem, a, s, n); }
    }

    ghost predicate Starts(args: seq<string>, envs: seq<string>)
      reads this, heap
    {
      && |argv| == |args| + 1 && |environ| == |envs| + 1 && |args| > 0
      && argv[|args|] == 0 && environ[|envs|] == 0
      && Separate(heap.live)
      && Laid(heap.mem, heap.live, argv[..|args|], args) && Laid(heap.mem, heap.live, environ[..|envs|], envs)
      && Across(argv[..|args|], args, environ[..|envs|], envs)
    }

    /** The environment reads as `envs`, outside the title area, whose last byte is NUL. */
    ghost predicate Ready(envs: seq<string>)
      reads this, heap
    {
      && |argv| >= 2 && |environ| == |envs| + 1
      && argv[0] <= last && heap.mem(last) == NUL
      && forall i :: 0 <= i < |envs| ==>
          && HoldsString(heap.mem, environ[i], envs[i])
          && Apart(StringRange(environ[i], envs[i]), Range(argv[0], last + 1 - argv[0]))
    }

    /** `memcpy` of what is to be shown, `memset` up to the last byte. */
    method WriteTitle(t: nat, ghost title: string, a: nat, room: nat)
      requires HoldsString(heap.mem, t, title) && (title == "" || room > 0)
      modifies heap`mem
      ensures forall x: nat :: heap.mem(x) == Titled(old(heap.mem), a, room, title)(x)
    {
      var from := heap.mem;
      var size := Length(t, title);
      if size > room {
        size := room - 1;
      }
      assert size == |Shown(title, room)|;
      var bytes := seq(size, i requires 0 <= i < size => from(t + i));
      forall i | 0 <= i < size ensures bytes[i] == Shown(title, room)[i] {
        assert from(t + i) == title[i];
      }
      heap.Store(a, bytes);
      heap.Store(a + size, seq(room - size, _ => NUL));
    }

    /** `proc_set_title`. The title must lie outside the area, and there must be room for one if it is not empty. */
    method SetTitle(t: nat, ghost title: string, ghost envs: seq<string>)
      requires Ready(envs) && HoldsString(heap.mem, t, title)
      requires Apart(StringRange(t, title), Range(argv[0], last + 1 - argv[0]))
      requires title == "" || last > argv[0]
      modifies `argv, heap`mem
      ensures argv == old(argv)[1 := 0] && Ready(envs)
      ensures forall x: nat :: heap.mem(x) == Titled(old(heap.mem), argv[0], last - argv[0], title)(x)
      ensures HoldsString(heap.mem, argv[0], Shown(title, last - argv[0]))
    {
      hide HoldsString, Titled, Shown;
      ghost var mem := heap.mem;
      argv := argv[1 := 0];
      WriteTitle(t, title, argv[0], last - argv[0]);
      NoNul(mem, t, title);
      TitleStays(mem, heap.mem, argv[0], last - argv[0], title);
      forall i | 0 <= i < |envs| ensures HoldsString(heap.mem, environ[i], envs[i]) {
        TitleKeeps(mem, heap.mem, argv[0], last - argv[0], title, environ[i], envs[i]);
      }
    }

    static lemma NoNul(mem: Memory, t: nat, title: string)
      requires HoldsString(mem, t, title)
      ensures NUL !in title
    {
    }

    static lemma TitleStays(mem: Memory, mem': Memory, a: nat, room: nat, title: string)
      requires forall x: nat :: mem'(x) == Titled(mem, a, room, title)(x)
      requires mem(a + room) == NUL && NUL !in title
      ensures mem'(a + room) == NUL && HoldsString(mem', a, Shown(title, room))
    {
      hide HoldsString, Titled, Shown;
      TitledReads(mem, a, room, title);
      SameBytes(Titled(mem, a, room, title), mem', a, Shown(title, room));
    }

    static lemma TitleKeeps(mem: Memory, mem': Memory, a: nat, room: nat, title: string, p: nat, s: string)
      requires forall x: nat :: mem'(x) == Titled(mem, a, room, title)(x)
      requires HoldsString(mem, p, s) && Apart(StringRange(p, s), Range(a, room + 1))
      ensures HoldsString(mem', p, s)
    {
      hide HoldsString, Titled, Shown;
      TitledKeeps(mem, a, room, title, p, s);
      SameBytes(Titled(mem, a, room, title), mem', p, s);
    }

    // ----- proc_init -----

    /** The size of the buffer for a copy of the whole environment. */
    method Measure(ghost envs: seq<string>) returns (size: nat)
      requires |environ| == |envs| + 1 && environ[|envs|] == 0 && Laid(heap.mem, heap.live, environ[..|envs|], envs)
      ensures size == TotalSize(envs)
    {
      size := 0;
      var i := 0;
      while environ[i] != 0
        invariant 0 <= i <= |envs| && size == TotalSize(envs[..i])
        decreases |envs| - i
      {
        assert environ[..|envs|][i] == environ[i];
        var n := Length(environ[i], envs[i]);
        assert envs[..i + 1][..i] == envs[..i];
        size := size + n + 1;
        i := i + 1;
      }
      EndOfList(environ, envs, heap.mem, heap.live, i);
      assert envs[..i] == envs;
    }

    static lemma EndOfList(ptrs: seq<nat>, strs: seq<string>, mem: Memory, live: Live, i: nat)
      requires |ptrs| == |strs| + 1 && Laid(mem, live, ptrs[..|strs|], strs) && i <= |strs|
      ensures i < |strs| ==> ptrs[i] != 0
    {
      if i < |strs| { assert ptrs[..|strs|][i] != 0; }
    }

    /** The first loop: `proc_last` past the arguments that follow one another. */
    method SweepArgv(ghost args: seq<string>, ghost live: Live) returns (ghost at: nat)
      requires |args| > 0 && |argv| == |args| + 1 && argv[|args|] == 0
      requires Laid(heap.mem, live, argv[..|args|], args)
      modifies `last
      ensures last == Sweep(argv[0], argv[..|args|], args)
      ensures last > argv[0] && at < |args| && last == argv[at] + |args[at]| + 1
    {
      ghost var ptrs := argv[..|args|];
      last := argv[0];
      at := 0;
      var i := 0;
      while argv[i] != 0
        invariant 0 <= i <= |args| && last == Sweep(argv[0], ptrs[..i], args[..i])
        invariant i == 0 ==> last == argv[0]
        invariant i > 0 ==> last > argv[0] && at < |args| && last == argv[at] + |args[at]| + 1
        decreases |args| - i
      {
        assert ptrs[i] == argv[i];
        SweepNext(argv[0], ptrs, args, i);
        if last == argv[i] {
          var n := Length(argv[i], args[i]);
          last := argv[i] + n + 1;
          at := i;
        }
        i := i + 1;
      }
      EndOfList(argv, args, heap.mem, live, i);
      assert ptrs[..i] == ptrs && args[..i] == args;
    }

    /** Where string `k` of the environment is once the first `i` have been looked at. */
    static ghost function Place(buffer: nat, first: nat, ptrs: seq<nat>, strs: seq<string>, i: nat, k: nat): nat
      requires k < |ptrs| == |strs|
    {
      if k < i && Absorbed(first, ptrs, strs, k) then buffer + Offset(first, ptrs, strs, k) else ptrs[k]
    }

    /** The second loop of `proc_init` after `i` turns. */
    static ghost predicate Moved(mem: Memory, mem': Memory, env: seq<nat>, ptrs: seq<nat>, strs: seq<string>,
                                 buffer: nat, first: nat, i: nat)
      ensures Moved(mem, mem', env, ptrs, strs, buffer, first, i) ==>
        i <= |ptrs| == |strs| && |env| == |ptrs| + 1 && env[|ptrs|] == 0
    {
      && i <= |ptrs| == |strs| && |env| == |ptrs| + 1 && env[|ptrs|] == 0
      && (forall k :: 0 <= k < |ptrs| ==>
           env[k] == Place(buffer, first, ptrs, strs, i, k) && HoldsString(mem', env[k], strs[k]))
      && (forall x: nat :: x < buffer || buffer + TotalSize(strs) <= x ==> mem'(x) == mem(x))
    }

    static ghost predicate OutsideBuffer(mem: Memory, ptrs: seq<nat>, strs: seq<string>, buffer: nat) {
      |ptrs| == |strs| && forall k :: 0 <= k < |ptrs| ==>
        && ptrs[k] != 0 && HoldsString(mem, ptrs[k], strs[k])
        && Apart(StringRange(ptrs[k], strs[k]), Range(buffer, TotalSize(strs)))
    }

    static lemma MoveStarts(mem: Memory, env: seq<nat>, ptrs: seq<nat>, strs: seq<string>, buffer: nat, first: nat)
      requires |env| == |ptrs| + 1 && env[|ptrs|] == 0 && env[..|ptrs|] == ptrs
      requires OutsideBuffer(mem, ptrs, strs, buffer)
      ensures Moved(mem, mem, env, ptrs, strs, buffer, first, 0) && Offset(first, ptrs, strs, 0) == 0
      ensures Sweep(first, ptrs[..0], strs[..0]) == first
    {
    }

    static lemma MovePlaces(mem: Memory, mem': Memory, env: seq<nat>, ptrs: seq<nat>, strs: seq<string>, buffer: nat,
                            first: nat, i: nat)
      requires Moved(mem, mem', env, ptrs, strs, buffer, first, i) && i < |strs|
      ensures env[i] == ptrs[i] && HoldsString(mem', env[i], strs[i])
    {
    }

    /** The loop stops at the end of the list only. */
    static lemma MoveEnds(mem: Memory, mem': Memory, env: seq<nat>, ptrs: seq<nat>, strs: seq<string>, buffer: nat,
                          first: nat, i: nat, last: nat)
      requires Moved(mem, mem', env, ptrs, strs, buffer, first, i) && OutsideBuffer(mem, ptrs, strs, buffer)
      requires env[i] == 0
      requires strs != [] ==> Apart(Range(last, 1), Range(buffer, TotalSize(strs)))
      ensures i == |strs| && mem'(last) == mem(last)
    {
    }

    static lemma OffsetNext(first: nat, ptrs: seq<nat>, strs: seq<string>, i: nat)
      requires i < |ptrs| == |strs|
      ensures Offset(first, ptrs, strs, i + 1)
        == Offset(first, ptrs, strs, i) + if Absorbed(first, ptrs, strs, i) then |strs[i]| + 1 else 0
    {
    }

    static lemma StoreWrote(was: Memory, now: Memory, p: nat, bytes: seq<char>)
      requires forall x: nat :: now(x) == if p <= x < p + |bytes| then bytes[x - p] else was(x)
      ensures Wrote(was, now, p, bytes)
    {
    }

    static lemma LastByte(mem: Memory, ptrs: seq<nat>, strs: seq<string>, buffer: nat, i: nat)
      requires OutsideBuffer(mem, ptrs, strs, buffer) && i < |ptrs|
      ensures mem(ptrs[i] + |strs[i]|) == NUL
      ensures Apart(Range(ptrs[i] + |strs[i]|, 1), Range(buffer, TotalSize(strs)))
    {
    }

    static lemma MoveSkips(mem: Memory, mem': Memory, env: seq<nat>, ptrs: seq<nat>, strs: seq<string>, buffer: nat,
                           first: nat, i: nat)
      requires Moved(mem, mem', env, ptrs, strs, buffer, first, i) && i < |ptrs| && !Absorbed(first, ptrs, strs, i)
      ensures Moved(mem, mem', env, ptrs, strs, buffer, first, i + 1)
    {
    }

    /** The next copy has room left in the buffer, behind the earlier ones. */
    static lemma CopyFits(ptrs: seq<nat>, strs: seq<string>, first: nat, i: nat)
      requires i < |ptrs| == |strs|
      ensures Offset(first, ptrs, strs, i) + |strs[i]| + 1 <= TotalSize(strs)
    {
      OffsetFits(first, ptrs, strs, i);
      TotalMonotone(strs, i + 1);
      assert strs[..i + 1][..i] == strs[..i];
    }

    static lemma {:induction false} OffsetsGrow(ptrs: seq<nat>, strs: seq<string>, first: nat, k: nat, i: nat)
      requires k < i <= |ptrs| == |strs| && Absorbed(first, ptrs, strs, k)
      ensures Offset(first, ptrs, strs, k) + |strs[k]| + 1 <= Offset(first, ptrs, strs, i)
      decreases i
    {
      if k < i - 1 { OffsetsGrow(ptrs, strs, first, k, i - 1); }
    }

    static ghost predicate Wrote(was: Memory, now: Memory, p: nat, bytes: seq<char>) {
      forall x: nat :: now(x) == if p <= x < p + |bytes| then bytes[x - p] else was(x)
    }

    static lemma CopyReads(was: Memory, now: Memory, p: nat, s: string)
      requires NUL !in s && Wrote(was, now, p, s + [NUL])
      ensures HoldsString(now, p, s)
    {
      forall j | 0 <= j < |s| ensures now(p + j) == s[j] {
        assert (s + [NUL])[j] == s[j];
      }
    }

    static lemma OtherReads(was: Memory, now: Memory, p: nat, bytes: seq<char>, a: nat, s: string)
      requires Wrote(was, now, p, bytes) && HoldsString(was, a, s)
      requires a + |s| + 1 <= p || p + |bytes| <= a
      ensures HoldsString(now, a, s)
    {
      SameBytes(was, now, a, s);
    }

    static lemma MoveKeeps(mem: Memory, was: Memory, env: seq<nat>, ptrs: seq<nat>, strs: seq<string>, buffer: nat,
                           first: nat, i: nat, k: nat)
      requires OutsideBuffer(mem, ptrs, strs, buffer)
      requires Moved(mem, was, env, ptrs, strs, buffer, first, i) && i < |ptrs| && k < |ptrs| && k != i
      ensures env[k] == Place(buffer, first, ptrs, strs, i + 1, k)
      ensures var p := buffer + Offset(first, ptrs, strs, i);
        env[k] + |strs[k]| + 1 <= p || p + |strs[i]| + 1 <= env[k]
    {
      hide Sweep, Offset, TotalSize, Absorbed, HoldsString;
      CopyFits(ptrs, strs, first, i);
      if k < i && Absorbed(first, ptrs, strs, k) {
        OffsetsGrow(ptrs, strs, first, k, i);
      }
    }

    static lemma MoveCopies(mem: Memory, was: Memory, now: Memory, env: seq<nat>, ptrs: seq<nat>, strs: seq<string>,
                            buffer: nat, first: nat, i: nat)
      requires OutsideBuffer(mem, ptrs, strs, buffer)
      requires Moved(mem, was, env, ptrs, strs, buffer, first, i) && i < |ptrs| && Absorbed(first, ptrs, strs, i)
      requires Wrote(was, now, buffer + Offset(first, ptrs, strs, i), strs[i] + [NUL])
      ensures Moved(mem, now, env[i := buffer + Offset(first, ptrs, strs, i)], ptrs, strs, buffer, first, i + 1)
    {
      hide Sweep, Offset, TotalSize, Absorbed, Wrote, HoldsString;
      var p := buffer + Offset(first, ptrs, strs, i);
      CopyFits(ptrs, strs, first, i);
      NoNul(was, env[i], strs[i]);
      CopyReads(was, now, p, strs[i]);
      forall k | 0 <= k < |ptrs| && k != i
        ensures env[k] == Place(buffer, first, ptrs, strs, i + 1, k) && HoldsString(now, env[k], strs[k])
      {
        MoveKeeps(mem, was, env, ptrs, strs, buffer, first, i, k);
        OtherReads(was, now, p, strs[i] + [NUL], env[k], strs[k]);
      }
      WroteOutside(was, now, p, strs[i] + [NUL], buffer, TotalSize(strs));
    }

    static lemma WroteOutside(was: Memory, now: Memory, p: nat, bytes: seq<char>, buffer: nat, size: nat)
      requires Wrote(was, now, p, bytes) && buffer <= p && p + |bytes| <= buffer + size
      ensures forall x: nat :: x < buffer || buffer + size <= x ==> now(x) == was(x)
    {
    }

    method ReadBytes(a: nat, n: nat, ghost s: string) returns (bytes: seq<char>)
      requires HoldsString(heap.mem, a, s) && n == |s| + 1
      ensures bytes == s + [NUL]
    {
      var from := heap.mem;
      bytes := seq(n, i requires 0 <= i < n => from(a + i));
      forall i | 0 <= i < |s| ensures bytes[i] == s[i] {
        assert from(a + i) == s[i];
      }
    }

    /** The second loop: the strings the area runs over are copied to the buffer, and the area goes on behind them. */
    method MoveEnviron(buffer: nat, ghost envs: seq<string>, ghost a: nat)
      requires |environ| == |envs| + 1 && environ[|envs|] == 0
      requires OutsideBuffer(heap.mem, environ[..|envs|], envs, buffer)
      requires last > a && heap.mem(last - 1) == NUL
      requires envs != [] ==> Apart(Range(last - 1, 1), Range(buffer, TotalSize(envs)))
      modifies `environ, `last, heap`mem
      ensures Moved(old(heap.mem), heap.mem, environ, old(environ)[..|envs|], envs, buffer, old(last), |envs|)
      ensures last == Sweep(old(last), old(environ)[..|envs|], envs)
      ensures last > a && heap.mem(last - 1) == NUL
    {
      hide Sweep, Offset, TotalSize, HoldsString, Moved, Wrote;
      ghost var ptrs, first, mem := environ[..|envs|], last, heap.mem;
      var i, p := 0, buffer;
      MoveStarts(mem, environ, ptrs, envs, buffer, first);
      while environ[i] != 0
        invariant 0 <= i <= |envs| && Moved(mem, heap.mem, environ, ptrs, envs, buffer, first, i)
        invariant p == buffer + Offset(first, ptrs, envs, i)
        invariant last == Sweep(first, ptrs[..i], envs[..i]) && last > a && mem(last - 1) == NUL
        invariant envs != [] ==> Apart(Range(last - 1, 1), Range(buffer, TotalSize(envs)))
        decreases |envs| - i
      {
        MovePlaces(mem, heap.mem, environ, ptrs, envs, buffer, first, i);
        SweepNext(first, ptrs, envs, i);
        OffsetNext(first, ptrs, envs, i);
        ghost var was := heap.mem;
        if last == environ[i] {
          var n := Length(environ[i], envs[i]);
          var size := n + 1;
          last := environ[i] + size;
          var bytes := ReadBytes(environ[i], size, envs[i]);
          heap.Store(p, bytes);
          assert Wrote(was, heap.mem, p, envs[i] + [NUL]) by { StoreWrote(was, heap.mem, p, bytes); }
          MoveCopies(mem, was, heap.mem, environ, ptrs, envs, buffer, first, i);
          LastByte(mem, ptrs, envs, buffer, i);
          environ := environ[i := p];
          p := p + size;
        } else {
          MoveSkips(mem, heap.mem, environ, ptrs, envs, buffer, first, i);
        }
        i := i + 1;
      }
      MoveEnds(mem, heap.mem, environ, ptrs, envs, buffer, first, i, last - 1);
      assert ptrs[..i] == ptrs && envs[..i] == envs;
    }

    static lemma BackedApart(live: Live, r: Range, b: nat, n: nat)
      requires Backed(live, r) && Grantable(live, b, n)
      ensures Apart(r, Range(b, n))
    {
    }

    static lemma LaidOutside(mem: Memory, live: Live, ptrs: seq<nat>, strs: seq<string>, buffer: nat, n: nat)
      requires Laid(mem, live, ptrs, strs) && Grantable(live, buffer, n)
      ensures forall k :: 0 <= k < |ptrs| ==> Apart(StringRange(ptrs[k], strs[k]), Range(buffer, n))
    {
      hide HoldsString, Backed, Grantable, Apart;
      forall k | 0 <= k < |ptrs| ensures Apart(StringRange(ptrs[k], strs[k]), Range(buffer, n)) {
        BackedApart(live, StringRange(ptrs[k], strs[k]), buffer, n);
      }
    }

    /** What is apart from all strings the area takes in is apart from the area. */
    static lemma WholeAreaApart(r: Range, argv: seq<nat>, args: seq<string>, env: seq<nat>, envs: seq<string>)
      requires |argv| == |args| > 0 && |env| == |envs| && r.size > 0
      requires forall i :: 0 <= i < |args| ==> Apart(r, StringRange(argv[i], args[i]))
      requires var first := Sweep(argv[0], argv, args);
        forall i :: 0 <= i < |envs| ==> Absorbed(first, env, envs, i) ==> Apart(r, StringRange(env[i], envs[i]))
      ensures Apart(r, Range(argv[0], AreaEnd(argv[0], argv, args, env, envs) - argv[0]))
    {
      hide Sweep, Absorbed;
      var a := argv[0];
      assert Apart(r, StringRange(argv[0], args[0]));
      assert argv[..|args|] == argv && args[..|args|] == args && env[..|envs|] == env && envs[..|envs|] == envs;
      AreaApart(r, a, a, argv, args, |args|);
      AreaApart(r, a, Sweep(a, argv, args), env, envs, |envs|);
    }

    static lemma OthersApart(mem: Memory, live: Live, ptrs: seq<nat>, strs: seq<string>, k: nat)
      requires Laid(mem, live, ptrs, strs) && k < |ptrs|
      ensures forall i :: 0 <= i < |ptrs| && i != k ==>
        Apart(StringRange(ptrs[k], strs[k]), StringRange(ptrs[i], strs[i]))
    {
      hide HoldsString, Backed;
    }

    /** Every string of the environment, moved or not, is outside the area. */
    static lemma PlacesApart(mem: Memory, live: Live, argv: seq<nat>, args: seq<string>, env: seq<nat>,
                             envs: seq<string>, buffer: nat, k: nat)
      requires |args| > 0 && Laid(mem, live, argv, args) && Laid(mem, live, env, envs)
      requires Grantable(live, buffer, TotalSize(envs))
      requires Across(argv, args, env, envs) && k < |envs|
      ensures var p := Place(buffer, Sweep(argv[0], argv, args), env, envs, |envs|, k);
        Apart(StringRange(p, envs[k]), Range(argv[0], AreaEnd(argv[0], argv, args, env, envs) - argv[0]))
    {
      hide Sweep, Offset, TotalSize, HoldsString, Grantable, Backed, AreaEnd, Absorbed;
      var first := Sweep(argv[0], argv, args);
      if Absorbed(first, env, envs, k) {
        var r := Range(buffer, TotalSize(envs));
        CopyFits(env, envs, first, k);
        LaidOutside(mem, live, argv, args, buffer, TotalSize(envs));
        LaidOutside(mem, live, env, envs, buffer, TotalSize(envs));
        WholeAreaApart(r, argv, args, env, envs);
        InsideApart(StringRange(buffer + Offset(first, env, envs, k), envs[k]), r,
          Range(argv[0], AreaEnd(argv[0], argv, args, env, envs) - argv[0]));
      } else {
        OthersApart(mem, live, env, envs, k);
        WholeAreaApart(StringRange(env[k], envs[k]), argv, args, env, envs);
      }
    }

    static lemma InsideApart(r: Range, s: Range, t: Range)
      requires Within(r, s) && Apart(s, t)
      ensures Apart(r, t)
    {
    }

    static lemma EndsOutside(mem: Memory, live: Live, ptrs: seq<nat>, strs: seq<string>, at: nat, buffer: nat, n: nat)
      requires Laid(mem, live, ptrs, strs) && Grantable(live, buffer, n) && at < |ptrs|
      ensures mem(ptrs[at] + |strs[at]|) == NUL && Apart(Range(ptrs[at] + |strs[at]|, 1), Range(buffer, n))
    {
      hide Grantable, Backed;
      LaidOutside(mem, live, ptrs, strs, buffer, n);
    }

    static lemma AllOutside(mem: Memory, live: Live, ptrs: seq<nat>, strs: seq<string>, buffer: nat)
      requires Laid(mem, live, ptrs, strs) && Grantable(live, buffer, TotalSize(strs))
      ensures OutsideBuffer(mem, ptrs, strs, buffer)
    {
      hide Grantable, Backed, HoldsString, TotalSize;
      LaidOutside(mem, live, ptrs, strs, buffer, TotalSize(strs));
    }

    /** The second loop done: where every string is, and that it is outside the area. */
    static lemma AllPlaced(mem: Memory, mem': Memory, live: Live, argv: seq<nat>, args: seq<string>,
                           environ: seq<nat>, env: seq<nat>, envs: seq<string>, buffer: nat)
      requires |args| > 0 && Laid(mem, live, argv, args) && Laid(mem, live, env, envs)
      requires Across(argv, args, env, envs) && Grantable(live, buffer, TotalSize(envs))
      requires Moved(mem, mem', environ, env, envs, buffer, Sweep(argv[0], argv, args), |envs|)
      ensures |environ| == |envs| + 1
      ensures forall x: nat :: x < buffer || buffer + TotalSize(envs) <= x ==> mem'(x) == mem(x)
      ensures forall k :: 0 <= k < |envs| ==>
        && environ[k] == Place(buffer, Sweep(argv[0], argv, args), env, envs, |envs|, k)
        && HoldsString(mem', environ[k], envs[k])
        && Apart(StringRange(environ[k], envs[k]),
                 Range(argv[0], AreaEnd(argv[0], argv, args, env, envs) - argv[0]))
    {
      hide Sweep, TotalSize, HoldsString, Grantable, Absorbed, Place, Laid, AreaEnd, Apart;
      forall k | 0 <= k < |envs|
        ensures Apart(StringRange(environ[k], envs[k]),
                      Range(argv[0], AreaEnd(argv[0], argv, args, env, envs) - argv[0]))
      {
        PlacesApart(mem, live, argv, args, env, envs, buffer, k);
      }
    }

    lemma ReadyNow(envs: seq<string>, area: Range)
      requires |argv| >= 2 && |environ| == |envs| + 1 && argv[0] <= last && heap.mem(last) == NUL
      requires area == Range(argv[0], last + 1 - argv[0])
      requires forall k :: 0 <= k < |envs| ==>
        HoldsString(heap.mem, environ[k], envs[k]) && Apart(StringRange(environ[k], envs[k]), area)
      ensures Ready(envs)
    {
      hide HoldsString, Apart;
    }

    /** `proc_init`. Fails, changing nothing, when there is no memory for the copy. */
    method Init(ghost args: seq<string>, ghost envs: seq<string>) returns (ok: bool, ghost buffer: nat)
      requires Starts(args, envs)
      modifies `environ, `last, heap
      ensures heap.refused == old(heap.refused) + if ok then 0 else 1
      ensures !ok ==> environ == old(environ) && last == old(last)
      ensures !ok ==> heap.mem == old(heap.mem) && heap.live == old(heap.live)
      ensures ok ==> Grantable(old(heap.live), buffer, TotalSize(envs))
      ensures ok ==> heap.live == old(heap.live)[buffer := TotalSize(envs)]
      ensures ok ==> Ready(envs)
      ensures ok ==> last + 1 == AreaEnd(argv[0], argv[..|args|], args, old(environ)[..|envs|], envs)
      ensures ok ==> forall k :: 0 <= k < |envs| ==>
        environ[k] == Place(buffer, Sweep(argv[0], argv[..|args|], args), old(environ)[..|envs|], envs, |envs|, k)
      ensures ok ==> forall x: nat :: x < buffer || buffer + TotalSize(envs) <= x ==> heap.mem(x) == old(heap.mem)(x)
    {
      hide Sweep, Offset, TotalSize, HoldsString, Grantable, Backed, Absorbed, Place, Laid, OutsideBuffer, Moved,
        Across, Apart, Ready, AreaEnd;
      ghost var ptrs, env, mem, live := argv[..|args|], environ[..|envs|], heap.mem, heap.live;
      var size := Measure(envs);
      var p := heap.Malloc(size);
      buffer := p;
      if p == 0 {
        return false, 0;
      }
      ghost var at := SweepArgv(args, live);
      AllOutside(mem, live, env, envs, buffer);
      EndsOutside(mem, live, ptrs, args, at, buffer, size);
      MoveEnviron(p, envs, argv[0]);
      AllPlaced(mem, heap.mem, live, ptrs, args, environ, env, envs, buffer);
      AreaInTwo(argv[0], ptrs, args, env, envs);
      last := last - 1;
      ReadyNow(envs, Range(argv[0], AreaEnd(argv[0], ptrs, args, env, envs) - argv[0]));
      ok := true;
    }
  }
}
