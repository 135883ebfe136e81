/**
 The command line of the program: `Config::build` skips the program name,
 ignores every `--` option and chooses the event to subscribe to from the
 first remaining (positional) argument.
 */
module Cli {
  import opened Wrappers

  /** The events the program can subscribe to; `Invalid` for an unknown one. */
  datatype Event = Workspace | Submap | Invalid

  datatype Config = Config(event: Event)

  /** `arg.starts_with("--")`. */
  predicate IsOption(arg: string)
  {
    |arg| >= 2 && arg[..2] == "--"
  }

  /** The arguments of `args` that are not options, in their original order. */
  function Positionals(args: seq<string>): (ps: seq<string>)
    ensures |ps| <= |args|
    ensures forall a :: a in ps <==> a in args && !IsOption(a)
  {
    if args == [] then []
    else (if IsOption(args[0]) then [] else [args[0]]) + Positionals(args[1..])
  }

  /** The event named by the first positional argument, if there is one. */
  function Classify(first: Option<string>): (e: Event)
    ensures e == Workspace <==> first.None? || first.value == "workspace"
    ensures e == Submap <==> first == Some("submap")
    ensures e == Invalid <==> first.Some? && first.value != "workspace" && first.value != "submap"
  {
    match first
    case Some(v) =>
      if v == "workspace" then Workspace
      else if v == "submap" then Submap
      else Invalid
    case None => Workspace
  }

  /** The arguments after the program name, which `build` discards whatever it is. */
  function AfterProgramName(args: seq<string>): seq<string>
  {
    if args == [] then [] else args[1..]
  }

  /** The first positional argument after the program name. */
  function FirstPositional(args: seq<string>): Option<string>
  {
    var ps := Positionals(AfterProgramName(args));
    if ps == [] then None else Some(ps[0])
  }

  /** The event `build` selects for the command line `args`. */
  function EventFor(args: seq<string>): Event
  {
    Classify(FirstPositional(args))
  }

  /**
   `Config::build`: collects the non-option arguments after the program name
   in a vector, then classifies the first of them. It never fails.
   */
  method Build(args: seq<string>) returns (r: Result<Config, string>)
    ensures r == Ok(Config(EventFor(args)))
  {
    var rest := AfterProgramName(args);
    var extracted: seq<string> := [];
    var i := 0;
    while i < |rest|
      invariant 0 <= i <= |rest|
      invariant extracted == Positionals(rest[..i])
    {
      if !IsOption(rest[i]) {
        extracted := extracted + [rest[i]];
      }
      PositionalsAppend(rest[..i], [rest[i]]);
      assert rest[..i + 1] == rest[..i] + [rest[i]];
      i := i + 1;
    }
    assert rest[..|rest|] == rest;
    var event := if extracted == [] then Classify(None) else Classify(Some(extracted[0]));
    r := Ok(Config(event));
  }

  /** Filtering distributes over concatenation: the positionals keep their relative order. */
  lemma {:induction false} PositionalsAppend(a: seq<string>, b: seq<string>)
    ensures Positionals(a + b) == Positionals(a) + Positionals(b)
    decreases |a|
  {
    if a == [] {
      assert a + b == b;
    } else {
      assert (a + b)[0] == a[0];
      assert (a + b)[1..] == a[1..] + b;
      PositionalsAppend(a[1..], b);
    }
  }

  /** The program name is discarded whatever it is, even when it looks like an event name. */
  lemma ProgramNameIgnored(p: string, q: string, rest: seq<string>)
    ensures EventFor([p] + rest) == EventFor([q] + rest)
  {
    assert ([p] + rest)[1..] == rest;
    assert ([q] + rest)[1..] == rest;
  }

  /** Inserting an option anywhere after the program name never changes the result. */
  lemma OptionIgnored(args: seq<string>, i: int, opt: string)
    requires 1 <= i <= |args| && IsOption(opt)
    ensures EventFor(args[..i] + [opt] + args[i..]) == EventFor(args)
  {
    var rest := args[1..];
    var with := args[..i] + [opt] + args[i..];
    assert with[1..] == rest[..i - 1] + [opt] + rest[i - 1..];
    assert rest == rest[..i - 1] + rest[i - 1..];
    PositionalsAppend(rest[..i - 1] + [opt], rest[i - 1..]);
    PositionalsAppend(rest[..i - 1], [opt]);
    PositionalsAppend(rest[..i - 1], rest[i - 1..]);
    assert Positionals([opt]) == [] by {
      assert [opt][1..] == [];
    }
  }

  /** Arguments after the first positional never affect the result. */
  lemma LaterArgumentsIgnored(args: seq<string>, extra: seq<string>)
    requires FirstPositional(args).Some?
    ensures EventFor(args + extra) == EventFor(args)
  {
    assert AfterProgramName(args + extra) == AfterProgramName(args) + extra;
    PositionalsAppend(AfterProgramName(args), extra);
  }

  /** Without a positional argument the program subscribes to workspace events. */
  lemma NoPositionalIsWorkspace(args: seq<string>)
    requires forall k :: 1 <= k < |args| ==> IsOption(args[k])
    ensures EventFor(args) == Workspace
  {
    var rest := AfterProgramName(args);
    forall k | 0 <= k < |rest| ensures IsOption(rest[k]) {
      assert rest[k] == args[k + 1];
    }
    OnlyOptionsNoPositionals(rest);
  }

  /** A list made only of options has no positional argument. */
  lemma {:induction false} OnlyOptionsNoPositionals(args: seq<string>)
    requires forall k :: 0 <= k < |args| ==> IsOption(args[k])
    ensures Positionals(args) == []
    decreases |args|
  {
    if args != [] {
      OnlyOptionsNoPositionals(args[1..]);
    }
  }
}
