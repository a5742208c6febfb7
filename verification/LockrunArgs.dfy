/** lockrun.c, the command line: options in two spellings, then `--`, then the command. */
module LockrunArgs {
  import opened Wrappers

  /** The static variables the options set. */
  datatype Settings = Settings(lockfile: Option<string>, wait: bool, sleep: int, retries: int, maxtime: int,
                               verbose: nat, quiet: bool)

  const DEFAULTS := Settings(None, false, 10, 0, 0, 0, false)

  /** How the scan ends: with something to launch, with an early exit, or in `die`. */
  datatype Outcome =
    | Launch(settings: Settings, command: seq<string>)
    | Version | Help
    | InvalidParam(arg: string) | NeedsParameter(opt: string) | MissingCommand | MissingLockfile

  /** The options that take a value, and the switches. */
  datatype Kind = Lockfile | Sleep | Retries | Maxtime | Wait | Verbose | Quiet | ShowVersion | ShowHelp | Unknown {
    predicate TakesValue() { Lockfile? || Sleep? || Retries? || Maxtime? }
  }

  function KindOf(name: string): Kind {
    if name == "--version" then ShowVersion
    else if name == "--help" then ShowHelp
    else if name == "-L" || name == "--lockfile" then Lockfile
    else if name == "-W" || name == "--wait" then Wait
    else if name == "-S" || name == "--sleep" then Sleep
    else if name == "-R" || name == "--retries" then Retries
    else if name == "-T" || name == "--maxtime" then Maxtime
    else if name == "-V" || name == "--verbose" then Verbose
    else if name == "-q" || name == "--quiet" then Quiet
    else Unknown
  }

  /** Where the first `=` is, or the length. */
  function Equals(arg: string): (k: nat)
    ensures k <= |arg| && (k < |arg| ==> arg[k] == '=')
    ensures forall j :: 0 <= j < k ==> arg[j] != '='
  {
    if arg == "" || arg[0] == '=' then 0 else 1 + Equals(arg[1..])
  }

  function Name(arg: string): string { arg[..Equals(arg)] }

  function Value(arg: string): Option<string> {
    if Equals(arg) < |arg| then Some(arg[Equals(arg) + 1..]) else None
  }

  function SetValue(s: Settings, kind: Kind, value: string, atoi: string -> int): Settings
    requires kind.TakesValue()
  {
    match kind
    case Lockfile => s.(lockfile := Some(value))
    case Sleep => s.(sleep := atoi(value))
    case Retries => s.(retries := atoi(value))
    case Maxtime => s.(maxtime := atoi(value))
  }

  /** Where the scanner stands behind some arguments. */
  datatype Place =
    | AtOption(settings: Settings)                            // the next argument is an option
    | Awaiting(settings: Settings, opt: string)               // it is the value of `opt`
    | InCommand(settings: Settings, command: seq<string>)     // it belongs to the command
    | Ended(outcome: Outcome)                                 // it is never looked at

  /** What the first argument does: end the scan, or set something and use up `n` arguments. */
  datatype Step = Halt(place: Place) | Read(n: nat, settings: Settings)

  function First(args: seq<string>, s: Settings, atoi: string -> int): (r: Step)
    requires args != []
    ensures r.Read? ==> 0 < r.n <= |args|
    ensures !(r.Halt? && r.place.AtOption?)
    ensures r.Halt? && r.place.Awaiting? ==> |args| == 1 && KindOf(r.place.opt).TakesValue()
    ensures r.Halt? && r.place.InCommand? <==> args[0] == "--"
    ensures r.Halt? && r.place.InCommand? ==> r.place == InCommand(s, args[1..])
    ensures r.Halt? && r.place.Ended? ==> !r.place.outcome.Launch?
  {
    var name, value := Name(args[0]), Value(args[0]);
    var kind := KindOf(name);
    if args[0] == "--" then Halt(InCommand(s, args[1..]))
    else if kind.TakesValue() then
      if value.Some? then Read(1, SetValue(s, kind, value.value, atoi))
      else if |args| == 1 then Halt(Awaiting(s, name))
      else Read(2, SetValue(s, kind, args[1], atoi))
    else
      match kind
      case ShowVersion => Halt(Ended(Version))
      case ShowHelp => Halt(Ended(Help))
      case Wait => Read(1, s.(wait := true))
      case Verbose => Read(1, s.(verbose := s.verbose + 1))
      case Quiet => Read(1, s.(quiet := true))
      case _ => Halt(Ended(InvalidParam(name)))
  }

  function Advance(args: seq<string>, s: Settings, atoi: string -> int): (p: Place)
    ensures p.Ended? ==> !p.outcome.Launch?
    decreases |args|
  {
    if args == [] then AtOption(s)
    else
      match First(args, s, atoi)
      case Halt(place) => place
      case Read(n, s') => Advance(args[n..], s', atoi)
  }

  /** The checks behind the loop: the command first, then the lock file. */
  function Checked(s: Settings, command: seq<string>): Outcome {
    if command == [] then MissingCommand else if s.lockfile.None? then MissingLockfile else Launch(s, command)
  }

  /** What becomes of a command line that ends there. */
  function Final(p: Place): Outcome {
    match p
    case AtOption(s') => Checked(s', [])
    case Awaiting(_, opt) => NeedsParameter(opt)
    case InCommand(s', command) => Checked(s', command)
    case Ended(outcome) => outcome
  }

  /** The outcome of a command line, without the program name. */
  function Outcomes(args: seq<string>, s: Settings, atoi: string -> int): Outcome {
    Final(Advance(args, s, atoi))
  }

  // ----- the loop -----

  class Lockrun {
    var lockfile: Option<string>
    var wait: bool
    var sleep: int
    var retries: int
    var maxtime: int
    var verbose: nat
    var quiet: bool

    constructor ()
      ensures Now() == DEFAULTS
    {
      lockfile, wait, sleep, retries := None, false, 10, 0;
      maxtime, verbose, quiet := 0, 0, false;
    }

    function Now(): Settings
      reads this
    {
      Settings(lockfile, wait, sleep, retries, maxtime, verbose, quiet)
    }

    /** `getarg`: the value after `=`, or the next argument; `None` is its `die`. */
    method GetArg(opt: Option<string>, argv: array<string>, i: nat) returns (value: Option<string>, next: nat)
      requires i < argv.Length
      ensures opt.Some? ==> value == opt && next == i
      ensures opt.None? && i + 1 < argv.Length ==> value == Some(argv[i + 1]) && next == i + 1
      ensures opt.None? && i + 1 == argv.Length ==> value == None && next == i
    {
      if opt.Some? { return opt, i; }
      if i + 1 == argv.Length { return None, i; }
      return Some(argv[i + 1]), i + 1;
    }

    method Set(kind: Kind, value: string, atoi: string -> int)
      requires kind.TakesValue()
      modifies this
      ensures Now() == SetValue(old(Now()), kind, value, atoi)
    {
      match kind
      case Lockfile => lockfile := Some(value);
      case Sleep => sleep := atoi(value);
      case Retries => retries := atoi(value);
      case Maxtime => maxtime := atoi(value);
    }

    /** The body of the option loop, behind its test for `--`: the argument is cut at its `=`, and either the
        program ends or `next` is the argument to go on with. */
    method ReadOption(argv: array<string>, i: nat, atoi: string -> int) returns (end: Option<Outcome>, next: nat)
      requires i < argv.Length && argv[i] != "--"
      modifies this, argv
      ensures forall j :: 0 <= j < argv.Length && j != i ==> argv[j] == old(argv[j])
      ensures var step := First(old(argv[i..]), old(Now()), atoi);
        if step.Halt? then end == Some(Final(step.place))
        else end == None && next == i + step.n && Now() == step.settings
    {
      hide KindOf, SetValue, Name, Value, Equals;
      ghost var args := argv[i..];
      next := i + 1;
      var opt := Value(argv[i]);
      var name := Name(argv[i]);
      if opt.Some? { argv[i] := name; }
      var kind := KindOf(name);
      if kind == ShowVersion {
        return Some(Version), next;
      } else if kind == ShowHelp {
        return Some(Help), next;
      } else if kind.TakesValue() {
        var value, last := GetArg(opt, argv, i);
        if value.None? { return Some(NeedsParameter(name)), next; }
        assert last == i + 1 ==> value.value == args[1];
        Set(kind, value.value, atoi);
        next := last + 1;
      } else if kind == Wait {
        wait := true;
      } else if kind == Verbose {
        verbose := verbose + 1;
      } else if kind == Quiet {
        quiet := true;
      } else {
        return Some(InvalidParam(name)), next;
      }
      return None, next;
    }

    /** The option loop of `main` and the checks behind it. The command is left as it was. */
    method Scan(argv: array<string>, atoi: string -> int) returns (outcome: Outcome)
      requires argv.Length > 0
      modifies this, argv
      ensures outcome == Outcomes(old(argv[1..]), old(Now()), atoi)
      ensures outcome.Launch? ==> outcome.settings == Now()
      ensures argv[0] == old(argv[0])
      ensures outcome.Launch? ==>
        |outcome.command| < argv.Length && argv[argv.Length - |outcome.command|..] == outcome.command
    {
      hide First;
      ghost var start, before, s0 := argv[1..], argv[..], Now();
      var i := 1;
      while i < argv.Length
        invariant 1 <= i <= argv.Length
        invariant argv[0] == old(argv[0]) && argv[i..] == before[i..]
        invariant Advance(start, s0, atoi) == Advance(before[i..], Now(), atoi)
      {
        if argv[i] == "--" {
          i := i + 1;
          assert before[i - 1..][0] == "--" && before[i - 1..][1..] == before[i..];
          break;
        }
        assert before[i..][0] == argv[i];
        var end, next := ReadOption(argv, i, atoi);
        if end.Some? { return end.value; }
        assert before[i..][next - i..] == before[next..];
        i := next;
      }
      if i == argv.Length { return MissingCommand; }
      if lockfile.None? { return MissingLockfile; }
      return Launch(Now(), argv[i..]);
    }
  }

  // ----- laws -----

  /** Scanning goes on from where the scanner stands. */
  function Onward(p: Place, rest: seq<string>, atoi: string -> int): Place {
    match p
    case AtOption(s) => Advance(rest, s, atoi)
    case Awaiting(s, opt) =>
      if rest == [] || !KindOf(opt).TakesValue() then p
      else Advance(rest[1..], SetValue(s, KindOf(opt), rest[0], atoi), atoi)
    case InCommand(s, command) => InCommand(s, command + rest)
    case Ended(_) => p
  }

  lemma FirstAppend(args: seq<string>, rest: seq<string>, s: Settings, atoi: string -> int)
    requires args != []
    ensures match First(args, s, atoi)
      case Read(_, _) => First(args + rest, s, atoi) == First(args, s, atoi)
      case Halt(p) =>
        if p.Awaiting? && rest != []
        then First(args + rest, s, atoi) == Read(2, SetValue(s, KindOf(p.opt), rest[0], atoi)) && p.settings == s
        else First(args + rest, s, atoi) == Halt(Onward(p, rest, atoi))
  {
    assert (args + rest)[0] == args[0] && (args + rest)[1..] == args[1..] + rest;
  }

  lemma {:induction false} AdvanceAppend(args: seq<string>, rest: seq<string>, s: Settings, atoi: string -> int)
    ensures Advance(args + rest, s, atoi) == Onward(Advance(args, s, atoi), rest, atoi)
    ensures Advance(args, s, atoi).Awaiting? ==> KindOf(Advance(args, s, atoi).opt).TakesValue()
    decreases |args|
  {
    hide First, KindOf, SetValue;
    if args == [] {
      assert args + rest == rest;
    } else {
      FirstAppend(args, rest, s, atoi);
      var step := First(args, s, atoi);
      if step.Read? {
        assert (args + rest)[step.n..] == args[step.n..] + rest;
        AdvanceAppend(args[step.n..], rest, step.settings, atoi);
      } else if step.place.Awaiting? && rest != [] {
        assert (args + rest)[2..] == rest[1..];
      }
    }
  }

  lemma {:induction false} Spelled(name: string, value: string)
    requires '=' !in name
    ensures Name(name + "=" + value) == name && Value(name + "=" + value) == Some(value)
    ensures Name(name) == name && Value(name) == None
  {
    NoEquals(name, "=" + value);
    NoEquals(name, "");
    var arg := name + ("=" + value);
    assert arg == name + "=" + value && name + "" == name;
    assert arg[..|name|] == name && arg[|name| + 1..] == value;
  }

  lemma NoEqualsInOptions(name: string)
    requires KindOf(name).TakesValue()
    ensures '=' !in name && name != "--"
  {
  }

  lemma {:induction false} NoEquals(name: string, more: string)
    requires '=' !in name && (more == "" || more[0] == '=')
    ensures Equals(name + more) == |name|
  {
    if name == "" {
      assert name + more == more;
    } else {
      assert (name + more)[1..] == name[1..] + more;
      NoEquals(name[1..], more);
    }
  }

  /** Both spellings of a value option at an option position take the scanner to the same place. */
  lemma SpellingsAgree(name: string, value: string, rest: seq<string>, s: Settings, atoi: string -> int)
    requires KindOf(name).TakesValue()
    ensures Advance([name + "=" + value] + rest, s, atoi) == Advance(rest, SetValue(s, KindOf(name), value, atoi), atoi)
    ensures Advance([name, value] + rest, s, atoi) == Advance(rest, SetValue(s, KindOf(name), value, atoi), atoi)
  {
    hide Name, Value, SetValue, Equals, KindOf;
    NoEqualsInOptions(name);
    Spelled(name, value);
    var one, two := [name + "=" + value] + rest, [name, value] + rest;
    assert one[0] == name + "=" + value && one[1..] == rest;
    assert two[0] == name && two[1] == value && two[2..] == rest;
    assert one[0][|name|] == '=';
  }

  // ----- what each option means -----

  /** A value option: both spellings set one thing, and without a value the scan fails. */
  ghost predicate Sets(name: string, v: string, rest: seq<string>, s: Settings, s': Settings, atoi: string -> int) {
    && Advance([name, v] + rest, s, atoi) == Advance(rest, s', atoi)
    && Advance([name + "=" + v] + rest, s, atoi) == Advance(rest, s', atoi)
    && Outcomes([name], s, atoi) == NeedsParameter(name)
  }

  lemma ValueSets(name: string, v: string, rest: seq<string>, s: Settings, atoi: string -> int)
    requires KindOf(name).TakesValue()
    ensures Sets(name, v, rest, s, SetValue(s, KindOf(name), v, atoi), atoi)
  {
    hide KindOf, SetValue, Name, Value, Equals;
    NoEqualsInOptions(name);
    Spelled(name, v);
    SpellingsAgree(name, v, rest, s, atoi);
  }

  lemma LockfileMeans(name: string, v: string, rest: seq<string>, s: Settings, atoi: string -> int)
    requires name == "-L" || name == "--lockfile"
    ensures Sets(name, v, rest, s, s.(lockfile := Some(v)), atoi)
  {
    hide Sets;
    ValueSets(name, v, rest, s, atoi);
  }

  lemma SleepMeans(name: string, v: string, rest: seq<string>, s: Settings, atoi: string -> int)
    requires name == "-S" || name == "--sleep"
    ensures Sets(name, v, rest, s, s.(sleep := atoi(v)), atoi)
  {
    hide Sets;
    ValueSets(name, v, rest, s, atoi);
  }

  lemma RetriesMeans(name: string, v: string, rest: seq<string>, s: Settings, atoi: string -> int)
    requires name == "-R" || name == "--retries"
    ensures Sets(name, v, rest, s, s.(retries := atoi(v)), atoi)
  {
    hide Sets;
    ValueSets(name, v, rest, s, atoi);
  }

  lemma MaxtimeMeans(name: string, v: string, rest: seq<string>, s: Settings, atoi: string -> int)
    requires name == "-T" || name == "--maxtime"
    ensures Sets(name, v, rest, s, s.(maxtime := atoi(v)), atoi)
  {
    hide Sets;
    ValueSets(name, v, rest, s, atoi);
  }

  /** A switch: it sets one thing, and a value given to it is dropped. */
  ghost predicate Switches(name: string, v: string, rest: seq<string>, s: Settings, s': Settings, atoi: string -> int) {
    && Advance([name] + rest, s, atoi) == Advance(rest, s', atoi)
    && Advance([name + "=" + v] + rest, s, atoi) == Advance(rest, s', atoi)
  }

  /** The first word alone decides what a switch, an exit or an unknown word does. */
  lemma FirstDecides(name: string, v: string, rest: seq<string>, s: Settings, atoi: string -> int)
    requires '=' !in name && name != "--" && !KindOf(name).TakesValue()
    ensures First([name] + rest, s, atoi) == FirstOf(KindOf(name), name, s)
    ensures First([name + "=" + v] + rest, s, atoi) == FirstOf(KindOf(name), name, s)
    ensures ([name] + rest)[1..] == rest && ([name + "=" + v] + rest)[1..] == rest
  {
    hide KindOf, Name, Value, Equals;
    Spelled(name, v);
    assert (name + "=" + v)[|name|] == '=';
  }

  function FirstOf(kind: Kind, name: string, s: Settings): Step {
    match kind
    case ShowVersion => Halt(Ended(Version))
    case ShowHelp => Halt(Ended(Help))
    case Wait => Read(1, s.(wait := true))
    case Verbose => Read(1, s.(verbose := s.verbose + 1))
    case Quiet => Read(1, s.(quiet := true))
    case _ => Halt(Ended(InvalidParam(name)))
  }

  lemma WaitMeans(name: string, v: string, rest: seq<string>, s: Settings, atoi: string -> int)
    requires name == "-W" || name == "--wait"
    ensures Switches(name, v, rest, s, s.(wait := true), atoi)
  {
    hide First, Name, Value, Equals, SetValue;
    FirstDecides(name, v, rest, s, atoi);
  }

  lemma VerboseMeans(name: string, v: string, rest: seq<string>, s: Settings, atoi: string -> int)
    requires name == "-V" || name == "--verbose"
    ensures Switches(name, v, rest, s, s.(verbose := s.verbose + 1), atoi)
  {
    hide First, Name, Value, Equals, SetValue;
    FirstDecides(name, v, rest, s, atoi);
  }

  lemma QuietMeans(name: string, v: string, rest: seq<string>, s: Settings, atoi: string -> int)
    requires name == "-q" || name == "--quiet"
    ensures Switches(name, v, rest, s, s.(quiet := true), atoi)
  {
    hide First, Name, Value, Equals, SetValue;
    FirstDecides(name, v, rest, s, atoi);
  }

  /** A word that ends the scan, with a value or without. */
  ghost predicate Ends(name: string, v: string, rest: seq<string>, s: Settings, o: Outcome, atoi: string -> int) {
    && Advance([name] + rest, s, atoi) == Ended(o)
    && Advance([name + "=" + v] + rest, s, atoi) == Ended(o)
  }

  lemma ExitsMean(v: string, rest: seq<string>, s: Settings, atoi: string -> int)
    ensures Ends("--version", v, rest, s, Version, atoi)
    ensures Ends("--help", v, rest, s, Help, atoi)
  {
    hide First, Name, Value, Equals, SetValue;
    FirstDecides("--version", v, rest, s, atoi);
    FirstDecides("--help", v, rest, s, atoi);
  }

  const SPELLINGS: seq<string> := ["--version", "--help", "-L", "--lockfile", "-W", "--wait", "-S", "--sleep",
    "-R", "--retries", "-T", "--maxtime", "-V", "--verbose", "-q", "--quiet"]

  /** Every other word is an error; `--` with a value is one of them. */
  lemma OthersInvalid(name: string, v: string, rest: seq<string>, s: Settings, atoi: string -> int)
    requires '=' !in name && name !in SPELLINGS
    ensures name != "--" ==> Ends(name, v, rest, s, InvalidParam(name), atoi)
    ensures Advance([name + "=" + v] + rest, s, atoi) == Ended(InvalidParam(name))
  {
    hide First, Name, Value, Equals, SetValue, KindOf;
    NotSpelled(name);
    if name == "--" {
      MarkWithValue(v, rest, s, atoi);
    } else {
      FirstDecides(name, v, rest, s, atoi);
    }
  }

  lemma NotSpelled(name: string)
    requires name !in SPELLINGS
    ensures KindOf(name) == Unknown
  {
    forall i | 0 <= i < |SPELLINGS| ensures name != SPELLINGS[i] {
    }
    var a := SPELLINGS;
    assert a[0] == "--version" && a[1] == "--help" && a[2] == "-L" && a[3] == "--lockfile" && a[4] == "-W";
    assert a[5] == "--wait" && a[6] == "-S" && a[7] == "--sleep" && a[8] == "-R" && a[9] == "--retries";
    assert a[10] == "-T" && a[11] == "--maxtime" && a[12] == "-V" && a[13] == "--verbose";
    assert a[14] == "-q" && a[15] == "--quiet";
  }

  lemma MarkWithValue(v: string, rest: seq<string>, s: Settings, atoi: string -> int)
    ensures Advance(["--" + "=" + v] + rest, s, atoi) == Ended(InvalidParam("--"))
  {
    hide Name, Value, Equals, SetValue;
    Spelled("--", v);
    assert ("--" + "=" + v)[2] == '=';
    assert (["--" + "=" + v] + rest)[0] == "--" + "=" + v;
  }

  /** Behind `--` the command is looked for first, then the lock file; a command line that never comes to `--` has
      no command. */
  lemma ChecksInOrder(command: seq<string>, s: Settings, atoi: string -> int)
    ensures Outcomes([], s, atoi) == MissingCommand
    ensures Outcomes(["--"] + command, s, atoi) ==
      if command == [] then MissingCommand else if s.lockfile.None? then MissingLockfile else Launch(s, command)
  {
    hide Name, Value, Equals, SetValue, KindOf;
    MarkAhead(command, s, atoi);
  }

  /** The plainest command line, and the settings it leaves alone. */
  lemma PlainLaunch(atoi: string -> int)
    ensures Outcomes(["-L", "f", "--", "c"], DEFAULTS, atoi) ==
      Launch(Settings(Some("f"), false, 10, 0, 0, 0, false), ["c"])
  {
    hide First, Name, Value, Equals, SetValue, KindOf, Advance;
    LockfileMeans("-L", "f", ["--", "c"], DEFAULTS, atoi);
    MarkAhead(["c"], DEFAULTS.(lockfile := Some("f")), atoi);
    assert ["-L", "f"] + ["--", "c"] == ["-L", "f", "--", "c"] && ["--"] + ["c"] == ["--", "c"];
  }

  /** Value options of different kinds may trade places; of two of one kind only the later counts. */
  lemma OptionsCommute(a: string, v: string, b: string, w: string, rest: seq<string>, s: Settings, atoi: string -> int)
    requires KindOf(a).TakesValue() && KindOf(b).TakesValue()
    ensures var first, second := [a, v], [b, w];
      if KindOf(a) != KindOf(b)
      then Advance(first + (second + rest), s, atoi) == Advance(second + (first + rest), s, atoi)
      else Advance(first + (second + rest), s, atoi) == Advance(second + rest, s, atoi)
  {
    hide KindOf, Advance;
    var t, u := SetValue(s, KindOf(a), v, atoi), SetValue(s, KindOf(b), w, atoi);
    SpellingsAgree(a, v, [b, w] + rest, s, atoi);
    SpellingsAgree(b, w, rest, t, atoi);
    SpellingsAgree(b, w, [a, v] + rest, s, atoi);
    SpellingsAgree(a, v, rest, u, atoi);
    SpellingsAgree(b, w, rest, s, atoi);
  }

  /** Any choice of value options written `-X=V` at option positions, respelled as `-X V`. */
  function Respell(args: seq<string>, s: Settings, atoi: string -> int, choice: seq<bool>): seq<string>
    decreases |args|
  {
    if args == [] || choice == [] then args
    else
      match First(args, s, atoi)
      case Halt(_) => args
      case Read(n, s') =>
        (if choice[0] && n == 1 && KindOf(Name(args[0])).TakesValue() then Split(args[0]) else args[..n])
        + Respell(args[n..], s', atoi, choice[1..])
  }

  /** `-X` and `V` out of `-X=V`. */
  function Split(arg: string): seq<string> {
    [Name(arg)] + if Value(arg).Some? then [Value(arg).value] else []
  }

  lemma {:induction false} RespellAdvances(args: seq<string>, choice: seq<bool>, s: Settings, atoi: string -> int)
    ensures Advance(Respell(args, s, atoi, choice), s, atoi) == Advance(args, s, atoi)
    decreases |args|
  {
    hide First, KindOf, SetValue, Name, Value, Equals;
    if args != [] && choice != [] && First(args, s, atoi).Read? {
      var step := First(args, s, atoi);
      var more := Respell(args[step.n..], step.settings, atoi, choice[1..]);
      RespellAdvances(args[step.n..], choice[1..], step.settings, atoi);
      if choice[0] && step.n == 1 && KindOf(Name(args[0])).TakesValue() {
        ReadAgrees(args, more, s, atoi);
      } else {
        FirstOnly(args, s, atoi);
        AdvanceAppend(args[..step.n], more, s, atoi);
      }
    }
  }

  /** One option alone is read as in front of the others. */
  lemma FirstOnly(args: seq<string>, s: Settings, atoi: string -> int)
    requires args != [] && First(args, s, atoi).Read?
    ensures var step := First(args, s, atoi);
      First(args[..step.n], s, atoi) == step && Advance(args[..step.n], s, atoi) == AtOption(step.settings)
  {
    hide KindOf, SetValue, Name, Value, Equals;
    var n := First(args, s, atoi).n;
    assert args[..n][0] == args[0] && args[..n][n..] == [];
    if n == 2 { assert args[..n][1] == args[1]; }
  }

  lemma ReadAgrees(args: seq<string>, more: seq<string>, s: Settings, atoi: string -> int)
    requires args != [] && First(args, s, atoi).Read? && First(args, s, atoi).n == 1
    requires KindOf(Name(args[0])).TakesValue()
    ensures Advance(Split(args[0]) + more, s, atoi) == Advance(more, First(args, s, atoi).settings, atoi)
  {
    hide KindOf, SetValue, Advance, Equals;
    var name, value := Name(args[0]), Value(args[0]).value;
    assert args[0] == name + "=" + value && Split(args[0]) == [name, value];
    SpellingsAgree(name, value, more, s, atoi);
  }

  /** Respelling any number of value options at option positions changes nothing: the settings, the command and
      every early exit or error stay. */
  lemma {:induction false} RespellKeeps(args: seq<string>, choice: seq<bool>, s: Settings, atoi: string -> int)
    ensures Outcomes(Respell(args, s, atoi, choice), s, atoi) == Outcomes(args, s, atoi)
  {
    RespellAdvances(args, choice, s, atoi);
  }

  /** The two spellings of one option, somewhere in a command line. */
  ghost predicate SameOutcome(pre: seq<string>, name: string, value: string, rest: seq<string>,
                              s: Settings, atoi: string -> int)
  {
    Outcomes(pre + [name + "=" + value] + rest, s, atoi) == Outcomes(pre + [name, value] + rest, s, atoi)
  }

  /** The spelling of an option behind `pre` never matters exactly if the scanner does not take it for a value and
      does not pass it on to a command it will launch. */
  lemma RespellExactly(pre: seq<string>, name: string, s: Settings, atoi: string -> int)
    requires KindOf(name).TakesValue()
    ensures (forall value, rest :: SameOutcome(pre, name, value, rest, s, atoi)) <==>
      var p := Advance(pre, s, atoi);
      !(p.Awaiting? || (p.InCommand? && p.settings.lockfile.Some?))
  {
    hide Advance, KindOf, Name, Value, SameOutcome;
    var p := Advance(pre, s, atoi);
    if p.Awaiting? {
      AwaitingDiffers(pre, name, s, atoi);
      assert !SameOutcome(pre, name, "", ["--", "c"], s, atoi);
    } else if p.InCommand? && p.settings.lockfile.Some? {
      CommandDiffers(pre, name, s, atoi);
      assert !SameOutcome(pre, name, "", [], s, atoi);
    } else {
      forall value, rest
        ensures SameOutcome(pre, name, value, rest, s, atoi)
      {
        ElsewhereAgrees(pre, name, value, rest, s, atoi);
      }
    }
  }

  lemma ElsewhereAgrees(pre: seq<string>, name: string, value: string, rest: seq<string>,
                        s: Settings, atoi: string -> int)
    requires KindOf(name).TakesValue()
    requires var p := Advance(pre, s, atoi); !(p.Awaiting? || (p.InCommand? && p.settings.lockfile.Some?))
    ensures SameOutcome(pre, name, value, rest, s, atoi)
  {
    hide Advance, KindOf, Name, Value;
    var one, two := [name + "=" + value] + rest, [name, value] + rest;
    assert pre + [name + "=" + value] + rest == pre + one && pre + [name, value] + rest == pre + two;
    AdvanceAppend(pre, one, s, atoi);
    AdvanceAppend(pre, two, s, atoi);
    var p := Advance(pre, s, atoi);
    if p.AtOption? { SpellingsAgree(name, value, rest, p.settings, atoi); }
  }

  /** Behind an option that lacks its value, the whole of `-X=` is that value; of `-X` and the empty string, only
      `-X` is, and the empty string is no option. */
  lemma AwaitingDiffers(pre: seq<string>, name: string, s: Settings, atoi: string -> int)
    requires KindOf(name).TakesValue() && Advance(pre, s, atoi).Awaiting?
    ensures !SameOutcome(pre, name, "", ["--", "c"], s, atoi)
  {
    hide Advance, KindOf, SetValue, Name, Value, Equals;
    var rest := ["--", "c"];
    var one, two := [name + "=" + ""] + rest, [name, ""] + rest;
    assert pre + [name + "=" + ""] + rest == pre + one && pre + [name, ""] + rest == pre + two;
    AdvanceAppend(pre, one, s, atoi);
    AdvanceAppend(pre, two, s, atoi);
    assert one[1..] == rest && two[1..] == [""] + rest;
    var p := Advance(pre, s, atoi);
    MarkAhead(["c"], SetValue(p.settings, KindOf(p.opt), one[0], atoi), atoi);
    EmptyIsInvalid(rest, SetValue(p.settings, KindOf(p.opt), name, atoi), atoi);
    assert ["--"] + ["c"] == rest;
  }

  lemma MarkAhead(command: seq<string>, s: Settings, atoi: string -> int)
    ensures Advance(["--"] + command, s, atoi) == InCommand(s, command)
  {
    hide KindOf, SetValue, Name, Value, Equals;
    assert (["--"] + command)[1..] == command;
  }

  lemma EmptyIsInvalid(rest: seq<string>, s: Settings, atoi: string -> int)
    ensures Advance([""] + rest, s, atoi) == Ended(InvalidParam(""))
  {
    assert ([""] + rest)[0] == "" && Name("") == "";
  }

  lemma CommandDiffers(pre: seq<string>, name: string, s: Settings, atoi: string -> int)
    requires Advance(pre, s, atoi).InCommand? && Advance(pre, s, atoi).settings.lockfile.Some?
    ensures !SameOutcome(pre, name, "", [], s, atoi)
  {
    hide Advance, KindOf, Name, Value, Equals;
    var one, two := [name + "=" + ""], [name, ""];
    assert pre + [name + "=" + ""] + [] == pre + one && pre + [name, ""] + [] == pre + two;
    AdvanceAppend(pre, one, s, atoi);
    AdvanceAppend(pre, two, s, atoi);
    var c := Advance(pre, s, atoi).command;
    assert |c + one| != |c + two|;
  }

  /** The spelling does matter before `--`, too: here `-S=5` is the name of the lock file. */
  lemma ValueLooksLikeOption(atoi: string -> int)
    ensures Outcomes(["-L", "-S=5", "--", "c"], DEFAULTS, atoi) == Launch(DEFAULTS.(lockfile := Some("-S=5")), ["c"])
    ensures Outcomes(["-L", "-S", "5", "--", "c"], DEFAULTS, atoi) == InvalidParam("5")
  {
    hide Advance, KindOf, SetValue, Name, Value, Equals;
    var a, b := ["-L", "-S=5", "--", "c"], ["-L", "-S", "5", "--", "c"];
    LockfileFirst("-S=5", ["--", "c"], DEFAULTS, atoi);
    LockfileFirst("-S", ["5", "--", "c"], DEFAULTS, atoi);
    MarkAhead(["c"], DEFAULTS.(lockfile := Some("-S=5")), atoi);
    FiveIsInvalid(["--", "c"], DEFAULTS.(lockfile := Some("-S")), atoi);
    assert a == ["-L", "-S=5"] + ["--", "c"] && b == ["-L", "-S"] + ["5", "--", "c"];
    assert ["--", "c"] == ["--"] + ["c"] && ["5", "--", "c"] == ["5"] + ["--", "c"];
  }

  lemma LockfileFirst(value: string, rest: seq<string>, s: Settings, atoi: string -> int)
    ensures Advance(["-L", value] + rest, s, atoi) == Advance(rest, s.(lockfile := Some(value)), atoi)
  {
    hide Name, Value, Equals;
    Spelled("-L", "");
    assert (["-L", value] + rest)[2..] == rest && (["-L", value] + rest)[1] == value;
    assert "-L" != "--";
  }

  lemma FiveIsInvalid(rest: seq<string>, s: Settings, atoi: string -> int)
    ensures Advance(["5"] + rest, s, atoi) == Ended(InvalidParam("5"))
  {
    hide Name, Value, Equals;
    Spelled("5", "");
    assert (["5"] + rest)[0] == "5";
  }

  /** What is launched stands word for word behind a `--` that the scanner met at an option position, and the
      settings are those the arguments before it make. */
  lemma LaunchExactly(args: seq<string>, s: Settings, atoi: string -> int, s': Settings, command: seq<string>)
    ensures Outcomes(args, s, atoi) == Launch(s', command) <==>
      && command != [] && s'.lockfile.Some? && |command| < |args|
      && Marked(args, s, atoi, |args| - |command| - 1, s', command)
  {
    hide First, Marked, KindOf, SetValue, Name, Value, Equals;
    CommandBehindMark(args, s, atoi);
    if |command| < |args| && Marked(args, s, atoi, |args| - |command| - 1, s', command) {
      MarkLaunches(args, s, atoi, |args| - |command| - 1, s', command);
    }
  }

  lemma MarkLaunches(args: seq<string>, s: Settings, atoi: string -> int, k: nat, s': Settings, command: seq<string>)
    requires Marked(args, s, atoi, k, s', command)
    ensures Advance(args, s, atoi) == InCommand(s', command)
  {
    hide First, KindOf, SetValue, Name, Value, Equals;
    AdvanceAppend(args[..k], args[k..], s, atoi);
    assert args[..k] + args[k..] == args && args[k..][0] == "--" && args[k..][1..] == command;
  }

  /** The `--` that ended the scan, and the options before it. */
  ghost predicate Marked(args: seq<string>, s: Settings, atoi: string -> int, k: nat, s': Settings,
                         command: seq<string>)
  {
    k < |args| && args[k] == "--" && args[k + 1..] == command && Advance(args[..k], s, atoi) == AtOption(s')
  }

  lemma {:induction false} CommandBehindMark(args: seq<string>, s: Settings, atoi: string -> int)
    ensures var p := Advance(args, s, atoi); p.InCommand? ==>
      |p.command| < |args| && Marked(args, s, atoi, |args| - |p.command| - 1, p.settings, p.command)
    decreases |args|
  {
    hide First, Marked, KindOf, SetValue, Name, Value, Equals;
    var p := Advance(args, s, atoi);
    if p.InCommand? {
      var step := First(args, s, atoi);
      if step.Read? {
        var n := step.n;
        CommandBehindMark(args[n..], step.settings, atoi);
        MarkedLater(args, s, atoi, |args| - |p.command| - 1 - n, p.settings, p.command);
      } else {
        MarkedNow(args, s, atoi);
      }
    }
  }

  lemma MarkedNow(args: seq<string>, s: Settings, atoi: string -> int)
    requires args != [] && args[0] == "--"
    ensures Marked(args, s, atoi, 0, s, args[1..])
  {
    hide First;
    assert args[..0] == [];
  }

  lemma MarkedLater(args: seq<string>, s: Settings, atoi: string -> int, k: nat, s': Settings, command: seq<string>)
    requires args != [] && First(args, s, atoi).Read?
    requires var step := First(args, s, atoi); Marked(args[step.n..], step.settings, atoi, k, s', command)
    ensures Marked(args, s, atoi, First(args, s, atoi).n + k, s', command)
  {
    hide First, KindOf, SetValue, Name, Value, Equals;
    var n := First(args, s, atoi).n;
    var before := args[n..][..k];
    assert args[n + k] == args[n..][k] && args[n + k + 1..] == args[n..][k + 1..];
    assert args[..n + k] == args[..n] + before;
    FirstOnly(args, s, atoi);
    AdvanceAppend(args[..n], before, s, atoi);
  }
}
